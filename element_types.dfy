/**
 * The element checks of the typed collections. Each typed class overrides the
 * `validateElement` hook of its base class; here the class is described by an
 * `ElementKind`, and the hook by `ValidateElement`, which answers with the
 * exception the class would throw, if any.
 */
module ElementTypes {
  import opened Wrappers
  import opened PhpValues
  import opened PhpArrays
  import opened Exceptions

  /**
   * What a collection class lets in. `ObjectElement("")` is an object collection
   * whose `allowedInstance()` is empty: any object is accepted.
   */
  datatype ElementKind =
    | AnyElement
    | IntElement
    | FloatElement
    | StringElement
    | ObjectElement(allowedInstance: string)

  /** The declared meaning of each kind, independent of how the check is written. */
  predicate Accepts(kind: ElementKind, isA: SubtypeRelation, v: Value)
  {
    match kind
    case AnyElement => true
    case IntElement => v.Int?
    case FloatElement => v.Float?
    case StringElement => v.Str?
    case ObjectElement(cls) => IsObject(v) && (cls == "" || InstanceOf(v, cls, isA))
  }

  /** `IntCollection::validateElement`: only integers pass. */
  function ValidateInt(subject: string, v: Value): (r: Option<Error>)
    ensures r.None? <==> v.Int?
    ensures r.Some? ==> r.value.InvalidArgument?
    ensures r.Some? ==> r.value == ExpectedInt(subject, GetType(v))
  {
    if !v.Int? then Some(ExpectedInt(subject, GetType(v))) else None
  }

  /** `FloatCollection::validateElement`: only floats pass. */
  function ValidateFloat(subject: string, v: Value): (r: Option<Error>)
    ensures r.None? <==> v.Float?
    ensures r.Some? ==> r.value.InvalidArgument?
    ensures r.Some? ==> r.value == ExpectedFloat(subject, GetType(v))
  {
    if !v.Float? then Some(ExpectedFloat(subject, GetType(v))) else None
  }

  /** `StringCollection::validateElement`: only strings pass. */
  function ValidateString(subject: string, v: Value): (r: Option<Error>)
    ensures r.None? <==> v.Str?
    ensures r.Some? ==> r.value.InvalidArgument?
    ensures r.Some? ==> r.value == ExpectedString(subject, GetType(v))
  {
    if !v.Str? then Some(ExpectedString(subject, GetType(v))) else None
  }

  /**
   * `ObjectCollection::validateElement`: objects pass, and when `allowedInstance()`
   * names a class, only instances of it.
   */
  function ValidateObject(subject: string, allowed: string, isA: SubtypeRelation, v: Value): (r: Option<Error>)
    ensures r.None? <==> IsObject(v) && (allowed == "" || InstanceOf(v, allowed, isA))
    ensures r.Some? ==> r.value.InvalidArgument?
    ensures !IsObject(v) ==> r == Some(ExpectedObject(subject, GetType(v)))
    ensures r.Some? && IsObject(v) ==> r.value == ExpectedInstance(subject, allowed, ClassOf(v))
  {
    if !IsObject(v) then Some(ExpectedObject(subject, GetType(v)))
    else if allowed != "" && !InstanceOf(v, allowed, isA) then Some(ExpectedInstance(subject, allowed, ClassOf(v)))
    else None
  }

  /**
   * `validateElement` of the class `subject` of the given kind: the exception it
   * throws, if any. The base class accepts everything.
   */
  function ValidateElement(kind: ElementKind, subject: string, isA: SubtypeRelation, v: Value): (r: Option<Error>)
    ensures r.None? <==> Accepts(kind, isA, v)
    ensures r.Some? ==> r.value.InvalidArgument?
  {
    match kind
    case AnyElement => None
    case IntElement => ValidateInt(subject, v)
    case FloatElement => ValidateFloat(subject, v)
    case StringElement => ValidateString(subject, v)
    case ObjectElement(allowed) => ValidateObject(subject, allowed, isA, v)
  }

  /** The kind's meaning as a property of values. */
  function Acceptor(kind: ElementKind, isA: SubtypeRelation): Value -> bool
  {
    (v: Value) => Accepts(kind, isA, v)
  }

  /** `validateElement` of a class as a callback. */
  function Validator(kind: ElementKind, subject: string, isA: SubtypeRelation): Value -> Option<Error>
  {
    (v: Value) => ValidateElement(kind, subject, isA, v)
  }

  /** Every value of the array is one the class accepts. */
  ghost predicate AllAccepted(kind: ElementKind, isA: SubtypeRelation, es: seq<Entry>)
  {
    AllValues(Acceptor(kind, isA), es)
  }

  /**
   * `validateElements`: the exception for the first rejected value in array
   * order, or none when every value is accepted.
   */
  function FirstRejection(kind: ElementKind, subject: string, isA: SubtypeRelation, es: seq<Entry>): (r: Option<Error>)
    ensures r.None? <==> AllAccepted(kind, isA, es)
    ensures r.Some? ==> exists i :: 0 <= i < |es| && r == ValidateElement(kind, subject, isA, es[i].value)
                          && forall j :: 0 <= j < i ==> Accepts(kind, isA, es[j].value)
  {
    FirstError(Validator(kind, subject, isA), es)
  }

  /** The type word a scalar collection's message names as the one it expects. */
  function ScalarTypeWord(kind: ElementKind): string
    requires kind.IntElement? || kind.FloatElement? || kind.StringElement?
  {
    match kind
    case IntElement => "integer"
    case FloatElement => "float"
    case _ => "string"
  }

  /**
   * The error a scalar collection reports names, in quotes, the type it expects
   * right after the class and the PHP type of the rejected value at the end.
   */
  lemma ScalarRejectionNamesType(kind: ElementKind, subject: string, isA: SubtypeRelation, v: Value)
    requires kind.IntElement? || kind.FloatElement? || kind.StringElement?
    requires !Accepts(kind, isA, v)
    ensures var r := ValidateElement(kind, subject, isA, v);
      r.Some? && r.value.message[|r.value.message| - |GetType(v)| - 9..] == Quoted(GetType(v)) + GivenSuffix
    ensures var m := ValidateElement(kind, subject, isA, v).value.message;
      var w := ScalarTypeWord(kind);
      |subject| + 34 + |w| <= |m| && m[|subject| + 32..|subject| + 34 + |w|] == Quoted(w)
  {
    var word := ScalarTypeWord(kind);
    assert ValidateElement(kind, subject, isA, v) == Some(CreateExpectedTypeException(subject, GetType(v), word));
    TypedMessageParts(subject, GetType(v), word);
  }
}

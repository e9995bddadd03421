/**
 * The exceptions the collections throw, as values. Each factory of the
 * library's exception classes becomes a function building the message text
 * exactly as its `sprintf` format does.
 */
module Exceptions {

  /** The three exception classes, each with its message. */
  datatype Error =
    | InvalidArgument(message: string)
    | BadMethodCall(message: string)
    | Logic(message: string)

  function Quoted(s: string): string
  {
    "\"" + s + "\""
  }

  /** `BadMethodCallException::immutable()`: a bad method call with a fixed message. */
  function Immutable(): (e: Error)
    ensures e.BadMethodCall? && e.message != []
  {
    BadMethodCall("Immutable collection should not be modified.")
  }

  /** The exception every mutator of an immutable collection throws. */
  const ImmutableError: Error := Immutable()

  /** What `Collection::getOneBy` throws when nothing (or only null) matched. */
  const NoResultsError: Error := Logic("No results found, one expected.")

  /** What `Collection::getOneOrNullBy` throws on more than one match. */
  const MultipleResultsError: Error := Logic("Multiple results found, one or null expected.")

  const OneResultPrefix := "Exactly 1 result is expected in "
  const OneResultSuffix := ", but none were found."
  const OneOrNullPrefix := "Multiple results found but only 1 or null was expected in "

  /** `LogicException::oneResultExpected($cause)` */
  function OneResultExpected(cause: string): (e: Error)
    ensures e.Logic?
  {
    Logic(OneResultPrefix + cause + OneResultSuffix)
  }

  /** `LogicException::oneOrNullResultExpected($cause)` */
  function OneOrNullResultExpected(cause: string): (e: Error)
    ensures e.Logic?
  {
    Logic(OneOrNullPrefix + cause + ".")
  }

  /** The two `LogicException` factories never produce the same exception. */
  lemma LogicMessagesDiffer(cause: string)
    ensures OneResultExpected(cause) != OneOrNullResultExpected(cause)
  {
    assert |OneResultExpected(cause).message| == |cause| + 54;
    assert |OneOrNullResultExpected(cause).message| == |cause| + 59;
  }

  const TypePhrase := " only allows elements of type "
  const InstancePhrase := " only allows elements that are an instance of "
  const GivenSuffix := " given."

  /** `"subject"<middle>"given" given.`, the shape shared by the argument messages. */
  function Framed(subject: string, middle: string, given: string): string
  {
    Quoted(subject) + middle + Quoted(given) + GivenSuffix
  }

  /** The parts of a framed message sit where the frame puts them. */
  lemma FramedParts(subject: string, middle: string, given: string)
    ensures var m := Framed(subject, middle, given);
      && |m| == |subject| + |middle| + |given| + 11
      && m[..|subject| + 2] == Quoted(subject)
      && m[|subject| + 2..|subject| + 2 + |middle|] == middle
      && m[|m| - |given| - 9..] == Quoted(given) + GivenSuffix
  {
    var q := Quoted(subject);
    var t := Quoted(given) + GivenSuffix;
    assert Framed(subject, middle, given) == q + middle + t;
  }

  /** What `merge` throws for an input that is neither an array nor an instance of the class. */
  function MergeRejected(cls: string): (e: Error)
    ensures e.InvalidArgument? && |e.message| > |cls| + 2 && e.message[..|cls| + 2] == Quoted(cls)
  {
    var q := Quoted(cls);
    var m := q + " can only merge with an array or instance of itself.";
    assert m[..|cls| + 2] == q;
    InvalidArgument(m)
  }

  /**
   * `InvalidArgumentException::createExpectedTypeException($subject, $givenType, $type)`,
   * with `$subject` already turned into its class name.
   */
  function CreateExpectedTypeException(subject: string, givenType: string, expectedType: string): Error
  {
    InvalidArgument(Framed(subject, TypePhrase + Quoted(expectedType) + ", ", givenType))
  }

  function ExpectedString(subject: string, givenType: string): Error
  {
    CreateExpectedTypeException(subject, givenType, "string")
  }

  function ExpectedInt(subject: string, givenType: string): Error
  {
    CreateExpectedTypeException(subject, givenType, "integer")
  }

  function ExpectedFloat(subject: string, givenType: string): Error
  {
    CreateExpectedTypeException(subject, givenType, "float")
  }

  function ExpectedObject(subject: string, givenType: string): Error
  {
    CreateExpectedTypeException(subject, givenType, "object")
  }

  /** `InvalidArgumentException::expectedInstance($subject, $expected, $givenType)` */
  function ExpectedInstance(subject: string, expected: string, givenType: string): Error
  {
    InvalidArgument(Framed(subject, InstancePhrase + Quoted(expected) + ", ", givenType))
  }

  /** What `IndexToPropertyName::forSingle` throws, given the text of the rejected input. */
  function InvalidPropertyName(input: string): (e: Error)
    ensures e.InvalidArgument?
    ensures |e.message| > |input| + 9 && e.message[|e.message| - |input| - 9..] == Quoted(input) + GivenSuffix
  {
    var prefix := "A property name must be an alphanumeric string or an integer >= 0. ";
    var t := Quoted(input) + GivenSuffix;
    assert (prefix + t)[|prefix + t| - |t|..] == t;
    InvalidArgument(prefix + t)
  }

  // ---------------------------------------------------------------------------
  // Reading a message back

  /** The position of the first double quote in `s`, or |s| when there is none. */
  function FirstQuote(s: string): (n: nat)
    ensures n <= |s|
  {
    if s == [] || s[0] == '"' then 0 else 1 + FirstQuote(s[1..])
  }

  /** The text between a leading double quote and the next one. */
  function QuotedHead(m: string): string
  {
    if m == [] || m[0] != '"' then "" else m[1..1 + FirstQuote(m[1..])]
  }

  lemma {:induction false} FirstQuoteAfter(a: string, rest: string)
    requires '"' !in a
    ensures FirstQuote(a + "\"" + rest) == |a|
  {
    if a != [] {
      assert (a + "\"" + rest)[1..] == a[1..] + "\"" + rest;
      FirstQuoteAfter(a[1..], rest);
    }
  }

  /** A name without double quotes can be read back from the front of a message. */
  lemma QuotedHeadOf(a: string, rest: string)
    requires '"' !in a
    ensures QuotedHead(Quoted(a) + rest) == a
  {
    var m := Quoted(a) + rest;
    assert m[1..] == a + "\"" + rest;
    FirstQuoteAfter(a, rest);
    assert m[1..1 + |a|] == a;
  }

  /** The class named at the front of an argument message is the subject the factory was given. */
  lemma MessageNamesSubject(subject: string, givenType: string, expectedType: string)
    requires '"' !in subject
    ensures QuotedHead(CreateExpectedTypeException(subject, givenType, expectedType).message) == subject
    ensures QuotedHead(ExpectedInstance(subject, expectedType, givenType).message) == subject
  {
    FramedParts(subject, TypePhrase + Quoted(expectedType) + ", ", givenType);
    FramedParts(subject, InstancePhrase + Quoted(expectedType) + ", ", givenType);
    var m := CreateExpectedTypeException(subject, givenType, expectedType).message;
    assert m == Quoted(subject) + m[|subject| + 2..];
    QuotedHeadOf(subject, m[|subject| + 2..]);
    var n := ExpectedInstance(subject, expectedType, givenType).message;
    assert n == Quoted(subject) + n[|subject| + 2..];
    QuotedHeadOf(subject, n[|subject| + 2..]);
  }

  /** The letter of the message at which the expected type starts. */
  lemma TypeWordAt(subject: string, givenType: string, expectedType: string)
    requires expectedType != []
    ensures var m := CreateExpectedTypeException(subject, givenType, expectedType).message;
      |subject| + 33 < |m| && m[|subject| + 33] == expectedType[0]
  {
    var middle := TypePhrase + Quoted(expectedType) + ", ";
    var m := Framed(subject, middle, givenType);
    FramedParts(subject, middle, givenType);
    assert middle[31] == expectedType[0];
    assert m[|subject| + 2 + 31] == m[|subject| + 2..|subject| + 2 + |middle|][31];
  }

  /**
   * A typed message names the expected type, in quotes, right after the class
   * phrase, and ends with the quoted given type.
   */
  lemma TypedMessageParts(subject: string, givenType: string, expectedType: string)
    ensures var m := CreateExpectedTypeException(subject, givenType, expectedType).message;
      && |subject| + 34 + |expectedType| <= |m|
      && m[|subject| + 32..|subject| + 34 + |expectedType|] == Quoted(expectedType)
      && m[|m| - |givenType| - 9..] == Quoted(givenType) + GivenSuffix
  {
    var middle := TypePhrase + Quoted(expectedType) + ", ";
    FramedParts(subject, middle, givenType);
    var m := Framed(subject, middle, givenType);
    assert middle[30..32 + |expectedType|] == Quoted(expectedType);
    assert m[|subject| + 32..|subject| + 34 + |expectedType|] == m[|subject| + 2..|subject| + 2 + |middle|][30..32 + |expectedType|];
  }

  /** The four typed factories give four different messages for the same subject and given type. */
  lemma {:induction false} TypedMessagesDiffer(subject: string, givenType: string)
    ensures ExpectedString(subject, givenType) != ExpectedInt(subject, givenType)
    ensures ExpectedString(subject, givenType) != ExpectedFloat(subject, givenType)
    ensures ExpectedString(subject, givenType) != ExpectedObject(subject, givenType)
    ensures ExpectedInt(subject, givenType) != ExpectedFloat(subject, givenType)
    ensures ExpectedInt(subject, givenType) != ExpectedObject(subject, givenType)
    ensures ExpectedFloat(subject, givenType) != ExpectedObject(subject, givenType)
  {
    TypeWordAt(subject, givenType, "string");
    TypeWordAt(subject, givenType, "integer");
    TypeWordAt(subject, givenType, "float");
    TypeWordAt(subject, givenType, "object");
  }

  /** The given type is inserted verbatim: different given types give different messages. */
  lemma {:induction false} GivenTypeDetermined(subject: string, expectedType: string, g1: string, g2: string)
    requires CreateExpectedTypeException(subject, g1, expectedType) == CreateExpectedTypeException(subject, g2, expectedType)
    ensures g1 == g2
  {
    var middle := TypePhrase + Quoted(expectedType) + ", ";
    var m := Framed(subject, middle, g1);
    assert m == Framed(subject, middle, g2);
    FramedParts(subject, middle, g1);
    FramedParts(subject, middle, g2);
    var tail := m[|m| - |g1| - 9..];
    assert tail == Quoted(g1) + GivenSuffix == Quoted(g2) + GivenSuffix;
    assert g1 == tail[1..|g1| + 1] == g2;
  }

  /** A rejected scalar never reads like a rejected instance. */
  lemma {:induction false} ObjectMessageIsNotInstanceMessage(subject: string, g1: string, expected: string, g2: string)
    ensures ExpectedObject(subject, g1) != ExpectedInstance(subject, expected, g2)
  {
    var middle1 := TypePhrase + Quoted("object") + ", ";
    var middle2 := InstancePhrase + Quoted(expected) + ", ";
    var m := Framed(subject, middle1, g1);
    var n := Framed(subject, middle2, g2);
    var k := |subject| + 2;
    FramedParts(subject, middle1, g1);
    FramedParts(subject, middle2, g2);
    assert middle1[22] == 'o' && middle2[22] == 't';
    assert m[k + 22] == m[k..k + |middle1|][22];
    assert n[k + 22] == n[k..k + |middle2|][22];
  }
}

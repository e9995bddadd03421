/**
 * `IndexToPropertyName`: turning array keys into names usable as object
 * properties. An alphanumeric string (underscores allowed) is kept, a
 * non-negative integer gets the prefix `_`; when names are already taken, a
 * numeric suffix is probed until the name is free.
 */
module PropertyNames {
  import opened Wrappers
  import opened PhpValues
  import opened PhpArrays
  import opened Exceptions
  import opened FreeNames

  const PropertyPrefix := "_"

  // ---------------------------------------------------------------------------
  // Which strings are kept

  predicate IsAsciiAlnum(c: char)
  {
    '0' <= c <= '9' || 'a' <= c <= 'z' || 'A' <= c <= 'Z'
  }

  /** `str_replace('_', '', $s)` */
  function StripPrefixChars(s: string): (t: string)
    ensures |t| <= |s|
  {
    if s == [] then [] else (if s[0] == '_' then [] else [s[0]]) + StripPrefixChars(s[1..])
  }

  /** `ctype_alnum`: at least one character, and only ASCII letters and digits. */
  predicate IsAlnum(s: string)
  {
    |s| > 0 && forall i :: 0 <= i < |s| ==> IsAsciiAlnum(s[i])
  }

  /** The strings `forSingle` accepts as they are. */
  predicate IsPropertyString(s: string)
  {
    IsAlnum(StripPrefixChars(s))
  }

  lemma {:induction false} StripAppend(a: string, b: string)
    ensures StripPrefixChars(a + b) == StripPrefixChars(a) + StripPrefixChars(b)
  {
    if a != [] {
      var x := if a[0] == '_' then [] else [a[0]];
      assert (a + b)[0] == a[0];
      assert (a + b)[1..] == a[1..] + b;
      StripAppend(a[1..], b);
      calc {
        StripPrefixChars(a + b);
        x + StripPrefixChars(a[1..] + b);
        x + (StripPrefixChars(a[1..]) + StripPrefixChars(b));
        (x + StripPrefixChars(a[1..])) + StripPrefixChars(b);
      }
    } else {
      assert a + b == b;
    }
  }

  lemma {:induction false} StripDigits(d: string)
    requires IsDigits(d)
    ensures StripPrefixChars(d) == d
  {
    if d != [] {
      StripDigits(d[1..]);
    }
  }

  /** A suffix of digits keeps an accepted string accepted. */
  lemma DigitSuffixKeepsShape(s: string, n: nat)
    requires IsPropertyString(s) || s == PropertyPrefix
    ensures IsPropertyString(s + IntToString(n))
  {
    var d := NatToString(n);
    StripAppend(s, d);
    StripDigits(d);
    var t := StripPrefixChars(s) + d;
    forall i | 0 <= i < |t|
      ensures IsAsciiAlnum(t[i])
    {
      if i >= |StripPrefixChars(s)| {
        assert t[i] == d[i - |StripPrefixChars(s)|];
      }
    }
  }

  // ---------------------------------------------------------------------------
  // The taken names: `array_flip($existingIndexes)`

  /** The text under which `array_flip` files a value; other values are skipped. */
  function NameOf(v: Value): Option<string>
  {
    match v
    case Int(i) => Some(IntToString(i))
    case Str(s) => Some(s)
    case _ => None
  }

  /** The key `array_flip` makes of a value, if it makes one. */
  function FlipKey(v: Value): Option<Key>
  {
    match v
    case Int(i) => Some(IntKey(i))
    case Str(s) => Some(ArrayKeyOf(s))
    case _ => None
  }

  /** `array_flip($a)`: every integer or string value becomes a key holding its old key. */
  function Flip(a: seq<Entry>): (r: seq<Entry>)
    ensures DistinctKeys(r)
    ensures forall e :: e in r ==> e.value != Null
  {
    if a == [] then []
    else
      var last := a[|a| - 1];
      match FlipKey(last.value)
      case None => Flip(a[..|a| - 1])
      case Some(k) => Put(Flip(a[..|a| - 1]), k, KeyAsValue(last.key))
  }

  /** The names `forSingle` must avoid: the text of every integer or string value. */
  function TakenNames(a: seq<Entry>): (ts: seq<string>)
    ensures forall t :: t in ts <==> exists i :: 0 <= i < |a| && NameOf(a[i].value) == Some(t)
  {
    if a == [] then []
    else
      var p := a[..|a| - 1];
      assert forall i :: 0 <= i < |p| ==> p[i] == a[i];
      match NameOf(a[|a| - 1].value)
      case None => TakenNames(p)
      case Some(t) => TakenNames(p) + [t]
  }

  /** `isset` on the flipped array asks exactly whether a name is taken. */
  lemma {:induction false} FlipLookup(a: seq<Entry>, s: string)
    ensures IsSet(Flip(a), ArrayKeyOf(s)) <==> s in TakenNames(a)
    ensures Flip(a) == [] <==> TakenNames(a) == []
  {
    if a != [] {
      var p := a[..|a| - 1];
      var v := a[|a| - 1].value;
      FlipLookup(p, s);
      match FlipKey(v)
      case None =>
      case Some(k) =>
        var t := NameOf(v).value;
        if v.Int? {
          IntToStringIsCanonical(v.i);
        }
        assert k == ArrayKeyOf(t);
        ArrayKeyOfInjective(s, t);
        assert Flip(a) == Put(Flip(p), k, KeyAsValue(a[|a| - 1].key));
        assert TakenNames(a) == TakenNames(p) + [t];
        PutIsSet(Flip(p), k, KeyAsValue(a[|a| - 1].key), ArrayKeyOf(s));
    }
  }

  // ---------------------------------------------------------------------------
  // forSingle

  /** The inputs `forSingle` does not reject; `None` is a null input. */
  predicate IsAcceptedInput(input: Option<Key>)
  {
    match input
    case None => true
    case Some(IntKey(n)) => n >= 0
    case Some(StrKey(s)) => IsPropertyString(s)
  }

  /**
   * What `forSingle($input, $existingIndexes)` returns or throws: an accepted
   * string as it is, a number `n` (null counting as 0) as `_n`; with names
   * taken, a string probes the suffixes 0, 1, ... and a number probes `n`,
   * `n + 1`, ... until the name is free.
   */
  function PropertyName(input: Option<Key>, existing: seq<Entry>): (r: Result<string, Error>)
    ensures r.Failure? <==> !IsAcceptedInput(input)
    ensures r.Failure? ==> r.error.InvalidArgument?
  {
    var taken := TakenNames(existing);
    var value := if input.None? then IntKey(0) else input.value;
    match value
    case StrKey(s) =>
      if !IsPropertyString(s) then Failure(InvalidPropertyName(s))
      else if taken == [] then Success(s)
      else Success(s + IntToString(FirstFree(taken, s, 0)))
    case IntKey(n) =>
      if n < 0 then Failure(InvalidPropertyName(IntToString(n)))
      else if taken == [] then Success(PropertyPrefix + IntToString(n))
      else Success(PropertyPrefix + IntToString(FirstFree(taken, PropertyPrefix, n)))
  }

  /**
   * The probing loop of `forSingle`: `prefix . start`, `prefix . (start + 1)`, ...
   * until `isset` on the flipped array fails.
   */
  method Probe(flipped: seq<Entry>, ghost existing: seq<Entry>, prefix: string, start: int) returns (index: string)
    requires flipped == Flip(existing)
    ensures index == prefix + IntToString(FirstFree(TakenNames(existing), prefix, start))
  {
    ghost var taken := TakenNames(existing);
    var i := start;
    index := prefix + IntToString(i);
    FlipLookup(existing, index);
    while IsSet(flipped, ArrayKeyOf(index))
      invariant i >= start && index == prefix + IntToString(i)
      invariant FirstFree(taken, prefix, i) == FirstFree(taken, prefix, start)
      invariant IsSet(flipped, ArrayKeyOf(index)) <==> index in taken
      decreases Pow10(MaxLength(taken)) - i
    {
      NameBound(taken, prefix, i);
      i := i + 1;
      index := prefix + IntToString(i);
      FlipLookup(existing, index);
    }
  }

  /** `forSingle` */
  method ForSingle(input: Option<Key>, existingIndexes: seq<Entry>) returns (r: Result<string, Error>)
    ensures r == PropertyName(input, existingIndexes)
  {
    var flipped := Flip(existingIndexes);
    FlipLookup(existingIndexes, "");
    if input.Some? && input.value.StrKey? && IsAlnum(StripPrefixChars(input.value.s)) {
      var s := input.value.s;
      if flipped == [] {
        return Success(s);
      }
      var index := Probe(flipped, existingIndexes, s, 0);
      return Success(index);
    }
    var value := if input.None? then IntKey(0) else input.value;
    if value.IntKey? && value.i >= 0 {
      var index := PropertyPrefix + IntToString(value.i);
      if flipped == [] {
        return Success(index);
      }
      index := Probe(flipped, existingIndexes, PropertyPrefix, value.i);
      return Success(index);
    }
    return Failure(InvalidPropertyName(KeyText(value)));
  }

  /** Every name `forSingle` returns is itself an accepted string, so never empty. */
  lemma PropertyNameShape(input: Option<Key>, existing: seq<Entry>)
    requires PropertyName(input, existing).Success?
    ensures IsPropertyString(PropertyName(input, existing).value)
    ensures |PropertyName(input, existing).value| > 0
  {
    var taken := TakenNames(existing);
    var value := if input.None? then IntKey(0) else input.value;
    match value
    case StrKey(s) =>
      if taken != [] {
        DigitSuffixKeepsShape(s, FirstFree(taken, s, 0));
      }
    case IntKey(n) =>
      if taken == [] {
        DigitSuffixKeepsShape(PropertyPrefix, n);
      } else {
        DigitSuffixKeepsShape(PropertyPrefix, FirstFree(taken, PropertyPrefix, n));
      }
  }

  /** With nothing taken, a string comes back as it is and a number `n` as `_n`. */
  lemma {:induction false} NothingTaken(input: Option<Key>, existing: seq<Entry>)
    requires TakenNames(existing) == [] && IsAcceptedInput(input)
    ensures input.Some? && input.value.StrKey? ==> PropertyName(input, existing) == Success(input.value.s)
    ensures input.Some? && input.value.IntKey? ==> PropertyName(input, existing) == Success("_" + NatToString(input.value.i))
    ensures input.None? ==> PropertyName(input, existing) == Success("_0")
  {
    assert DigitChar(0) == '0';
    assert IntToString(0) == "0";
    assert PropertyPrefix + IntToString(0) == "_0";
  }

  /**
   * With names taken, the result is never one of them, and it is the first free
   * name of its probe: `s . i` for the least `i >= 0`, or `_m` for the least `m >= n`.
   */
  lemma {:induction false} ProbeIsLeastFree(input: Option<Key>, existing: seq<Entry>)
    requires TakenNames(existing) != [] && PropertyName(input, existing).Success?
    ensures PropertyName(input, existing).value !in TakenNames(existing)
    ensures input.Some? && input.value.StrKey? ==>
      exists i: nat :: PropertyName(input, existing).value == input.value.s + NatToString(i)
        && forall j: nat :: j < i ==> input.value.s + NatToString(j) in TakenNames(existing)
    ensures input.Some? && input.value.IntKey? ==>
      exists m: nat :: m >= input.value.i && PropertyName(input, existing).value == "_" + NatToString(m)
        && forall j: nat :: input.value.i <= j < m ==> "_" + NatToString(j) in TakenNames(existing)
  {
    var taken := TakenNames(existing);
    var value := if input.None? then IntKey(0) else input.value;
    match value
    case StrKey(s) =>
      var i := FirstFree(taken, s, 0);
      forall j: nat | j < i
        ensures s + NatToString(j) in taken
      {
        assert IntToString(j) == NatToString(j);
      }
    case IntKey(n) =>
      var m := FirstFree(taken, PropertyPrefix, n);
      forall j: nat | n <= j < m
        ensures "_" + NatToString(j) in taken
      {
        assert IntToString(j) == NatToString(j);
      }
  }

  /** A suffix is added even when the string itself is free. */
  lemma {:induction false} SuffixAlwaysAdded(s: string, existing: seq<Entry>)
    requires IsPropertyString(s) && TakenNames(existing) != []
    ensures PropertyName(Some(StrKey(s)), existing).Success?
    ensures |PropertyName(Some(StrKey(s)), existing).value| > |s|
  {
  }

  // ---------------------------------------------------------------------------
  // forMultiple

  /** `$a[] = $v` on an array whose next free key is one past its largest integer key. */
  function Push(a: seq<Entry>, v: Value): (r: seq<Entry>)
    ensures |r| == |a| + 1 && r[..|a|] == a && r[|a|].value == v
  {
    a + [Entry(IntKey(NextFreeAfter(a)), v)]
  }

  /**
   * What `forMultiple` returns from the point where `result` has been built and
   * `existing` holds the taken names: each key goes through `forSingle`, the
   * value is stored under the name, and with `unique` the name becomes taken.
   */
  function Renamed(result: seq<Entry>, existing: seq<Entry>, elements: seq<Entry>, unique: bool): Result<seq<Entry>, Error>
    decreases |elements|
  {
    if elements == [] then Success(result)
    else
      var e := elements[0];
      match PropertyName(Some(e.key), existing)
      case Failure(err) => Failure(err)
      case Success(name) =>
        Renamed(Put(result, ArrayKeyOf(name), e.value), Recorded(existing, name, unique), elements[1..], unique)
  }

  /** The taken names after `forMultiple` stored `name`: with `unique`, `$existingIndexes[] = $name`. */
  function Recorded(existing: seq<Entry>, name: string, unique: bool): seq<Entry>
  {
    if unique then Push(existing, Str(name)) else existing
  }

  /** `forMultiple` */
  method ForMultiple(elements: seq<Entry>, existingIndexes: seq<Entry>, unique: bool) returns (r: Result<seq<Entry>, Error>)
    ensures r == Renamed([], existingIndexes, elements, unique)
  {
    var result := [];
    var existing := existingIndexes;
    var i := 0;
    while i < |elements|
      invariant i <= |elements|
      invariant Renamed(result, existing, elements[i..], unique) == Renamed([], existingIndexes, elements, unique)
    {
      var e := elements[i];
      assert elements[i..][0] == e && elements[i..][1..] == elements[i + 1..];
      var propertyName := ForSingle(Some(e.key), existing);
      if propertyName.Failure? {
        return Failure(propertyName.error);
      }
      if unique {
        existing := Push(existing, Str(propertyName.value));
      }
      result := Put(result, ArrayKeyOf(propertyName.value), e.value);
      i := i + 1;
    }
    assert elements[i..] == [];
    return Success(result);
  }

  /** `forMultiple` throws exactly when one of the keys is not an accepted input. */
  lemma {:induction false} RenamedFails(result: seq<Entry>, existing: seq<Entry>, elements: seq<Entry>, unique: bool)
    ensures Renamed(result, existing, elements, unique).Failure? <==>
      exists i :: 0 <= i < |elements| && !IsAcceptedInput(Some(elements[i].key))
    decreases |elements|
  {
    if elements != [] {
      var e := elements[0];
      var rest := elements[1..];
      var p := PropertyName(Some(e.key), existing);
      if p.Failure? {
        assert !IsAcceptedInput(Some(elements[0].key));
      } else {
        var name := p.value;
        assert Renamed(result, existing, elements, unique)
          == Renamed(Put(result, ArrayKeyOf(name), e.value), Recorded(existing, name, unique), rest, unique);
        RenamedFails(Put(result, ArrayKeyOf(name), e.value), Recorded(existing, name, unique), rest, unique);
        if exists i :: 0 <= i < |elements| && !IsAcceptedInput(Some(elements[i].key)) {
          var i :| 0 <= i < |elements| && !IsAcceptedInput(Some(elements[i].key));
          assert rest[i - 1] == elements[i];
        }
        if exists i :: 0 <= i < |rest| && !IsAcceptedInput(Some(rest[i].key)) {
          var i :| 0 <= i < |rest| && !IsAcceptedInput(Some(rest[i].key));
          assert elements[i + 1] == rest[i];
        }
      }
    }
  }

  lemma TakenAfterPush(a: seq<Entry>, name: string)
    ensures TakenNames(Push(a, Str(name))) == TakenNames(a) + [name]
  {
    assert Push(a, Str(name))[..|a|] == a;
  }

  /**
   * With `unique`, every generated name is recorded as taken, so no two keys
   * collide: every value is kept, in input order, under pairwise distinct keys.
   */
  lemma {:induction false} RenamedUnique(result: seq<Entry>, existing: seq<Entry>, elements: seq<Entry>, r: seq<Entry>)
    requires DistinctKeys(result)
    requires forall i :: 0 <= i < |result| ==> KeyText(result[i].key) in TakenNames(existing)
    requires Renamed(result, existing, elements, true) == Success(r)
    ensures DistinctKeys(r) && |r| == |result| + |elements| && Values(r) == Values(result) + Values(elements)
    decreases |elements|
  {
    if elements != [] {
      var e := elements[0];
      var name := PropertyName(Some(e.key), existing).value;
      var next := Put(result, ArrayKeyOf(name), e.value);
      UniqueStep(result, existing, e.key, e.value);
      assert Renamed(next, Recorded(existing, name, true), elements[1..], true) == Success(r);
      RenamedUnique(next, Recorded(existing, name, true), elements[1..], r);
      ValuesShift(result, ArrayKeyOf(name), elements, r);
    }
  }

  /** Moving one entry's value from the input to the output keeps the values in order. */
  lemma ValuesShift(result: seq<Entry>, k: Key, elements: seq<Entry>, r: seq<Entry>)
    requires elements != []
    requires Values(r) == Values(result + [Entry(k, elements[0].value)]) + Values(elements[1..])
    ensures Values(r) == Values(result) + Values(elements)
  {
    var added := Entry(k, elements[0].value);
    var rest := elements[1..];
    assert Values([added]) == [elements[0].value] == Values([elements[0]]);
    assert [elements[0]] + rest == elements;
    calc {
      Values(r);
      Values(result + [added]) + Values(rest);
      { ValuesAppend(result, [added]); }
      (Values(result) + Values([added])) + Values(rest);
      Values(result) + (Values([elements[0]]) + Values(rest));
      { ValuesAppend([elements[0]], rest); }
      Values(result) + Values(elements);
    }
  }

  /** One step of unique mode: the new name is free, so its entry is appended and then recorded. */
  lemma UniqueStep(result: seq<Entry>, existing: seq<Entry>, key: Key, v: Value)
    requires DistinctKeys(result)
    requires forall i :: 0 <= i < |result| ==> KeyText(result[i].key) in TakenNames(existing)
    requires PropertyName(Some(key), existing).Success?
    ensures var name := PropertyName(Some(key), existing).value;
      var next := Put(result, ArrayKeyOf(name), v);
      && next == result + [Entry(ArrayKeyOf(name), v)]
      && DistinctKeys(next)
      && forall i :: 0 <= i < |next| ==> KeyText(next[i].key) in TakenNames(Recorded(existing, name, true))
  {
    var taken := TakenNames(existing);
    var name := PropertyName(Some(key), existing).value;
    var k := ArrayKeyOf(name);
    KeyTextOfArrayKeyOf(name);
    if taken != [] {
      ProbeIsLeastFree(Some(key), existing);
    }
    forall i | 0 <= i < |result|
      ensures result[i].key != k
    {
      assert KeyText(result[i].key) != name;
    }
    var next := Put(result, k, v);
    assert next == result + [Entry(k, v)];
    TakenAfterPush(existing, name);
    forall i | 0 <= i < |next|
      ensures KeyText(next[i].key) in TakenNames(Recorded(existing, name, true))
    {
      if i < |result| {
        assert next[i] == result[i];
      }
    }
  }

  /**
   * Without `unique`, names can collide and a later value then replaces an
   * earlier one: the key 0 and the key `_0` both become `_0`.
   */
  lemma SharedNameCollides(v: Value, w: Value)
    ensures Renamed([], [], [Entry(IntKey(0), v), Entry(StrKey("_0"), w)], false) == Success([Entry(StrKey("_0"), w)])
  {
    SharedName();
    var es := [Entry(IntKey(0), v), Entry(StrKey("_0"), w)];
    var k := StrKey("_0");
    PutTwice(k, v, w);
    var r1 := Put([], k, v);
    assert Renamed([], [], es, false) == Renamed(r1, [], es[1..], false);
    assert es[1..][1..] == [];
    assert Renamed(r1, [], es[1..], false) == Renamed(Put(r1, k, w), [], [], false);
  }

  /** With nothing taken, the key 0 and the key `_0` are both given the name `_0`. */
  lemma SharedName()
    ensures PropertyName(Some(IntKey(0)), []) == Success("_0")
    ensures PropertyName(Some(StrKey("_0")), []) == Success("_0")
    ensures ArrayKeyOf("_0") == StrKey("_0")
  {
    assert DigitChar(0) == '0';
    assert IntToString(0) == "0";
    assert PropertyPrefix + IntToString(0) == "_0";
    assert TakenNames([]) == [];
    assert StripPrefixChars("_0") == "0";
    assert !IsCanonicalInt("_0");
  }
}

/**
 * `IndexGenerator`: the older key normaliser. A non-numeric index is kept as
 * it is; a numeric one gets the prefix `_`, and in unique mode a number is
 * counted up until `isset` on the existing array fails.
 */
module IndexGenerator {
  import opened Wrappers
  import opened PhpValues
  import opened PhpArrays
  import opened FreeNames

  // ---------------------------------------------------------------------------
  // is_numeric

  /** The whitespace PHP skips around a numeric string: space, \t, \n, \r, \v, \f. */
  predicate IsWhitespace(c: char)
  {
    c == ' ' || c == '\t' || c == '\n' || c == '\r' || c as int == 11 || c as int == 12
  }

  function TrimLeading(s: string): (t: string)
    ensures |t| <= |s|
  {
    if s != [] && IsWhitespace(s[0]) then TrimLeading(s[1..]) else s
  }

  function TrimTrailing(s: string): (t: string)
    ensures |t| <= |s|
  {
    if s != [] && IsWhitespace(s[|s| - 1]) then TrimTrailing(s[..|s| - 1]) else s
  }

  /** The text after an optional leading `+` or `-`. */
  function Unsigned(t: string): string
  {
    if t != [] && (t[0] == '+' || t[0] == '-') then t[1..] else t
  }

  /** The position of the first character satisfying `stop`, or |s| when there is none. */
  function FirstOf(s: string, stop: char -> bool): (k: nat)
    ensures k <= |s| && (k < |s| ==> stop(s[k]))
    ensures forall j :: 0 <= j < k ==> !stop(s[j])
  {
    if s == [] || stop(s[0]) then 0 else 1 + FirstOf(s[1..], stop)
  }

  predicate IsExponentMark(c: char)
  {
    c == 'e' || c == 'E'
  }

  predicate IsPoint(c: char)
  {
    c == '.'
  }

  /** Digits with at most one decimal point, and at least one digit. */
  predicate IsMantissa(m: string)
  {
    var d := FirstOf(m, IsPoint);
    if d == |m| then |m| >= 1 && IsDigits(m)
    else |m| >= 2 && IsDigits(m[..d]) && IsDigits(m[d + 1..])
  }

  /** An optional sign and at least one digit. */
  predicate IsExponent(x: string)
  {
    var y := Unsigned(x);
    |y| >= 1 && IsDigits(y)
  }

  /** `is_numeric` on a string: `[ws][sign](digits[.digits] | .digits)[(e|E)[sign]digits][ws]`. */
  predicate IsNumeric(s: string)
  {
    var u := Unsigned(TrimTrailing(TrimLeading(s)));
    var k := FirstOf(u, IsExponentMark);
    IsMantissa(u[..k]) && (k == |u| || IsExponent(u[k + 1..]))
  }

  /** A numeric string `++` turns into an integer: no point and no exponent. */
  predicate IsIntegerNumeral(s: string)
  {
    var u := Unsigned(TrimTrailing(TrimLeading(s)));
    |u| >= 1 && IsDigits(u)
  }

  /** The integer an integer numeral stands for. */
  function NumeralValue(s: string): int
    requires IsIntegerNumeral(s)
  {
    var t := TrimTrailing(TrimLeading(s));
    var n: int := NatValue(Unsigned(t));
    if t[0] == '-' then -n else n
  }

  lemma IntegerNumeralIsNumeric(s: string)
    requires IsIntegerNumeral(s)
    ensures IsNumeric(s)
  {
    var u := Unsigned(TrimTrailing(TrimLeading(s)));
    assert FirstOf(u, IsExponentMark) == |u|;
    assert FirstOf(u, IsPoint) == |u|;
    assert u[..|u|] == u;
  }

  // ---------------------------------------------------------------------------
  // createValidIndex

  /** `$index ?? 0` */
  function StartKey(index: Option<Key>): Key
  {
    if index.None? then IntKey(0) else index.value
  }

  /** `is_numeric($index)`: an integer always is. */
  predicate IsNumericKey(k: Key)
  {
    k.IntKey? || IsNumeric(k.s)
  }

  /** `'_' . $index` */
  function Prefixed(k: Key): string
  {
    "_" + KeyText(k)
  }

  /** The indexes whose `$index++` gives an integer rather than a float. */
  predicate CountsAsInteger(k: Key)
  {
    k.IntKey? || IsIntegerNumeral(k.s)
  }

  function CountStart(k: Key): int
    requires CountsAsInteger(k)
  {
    if k.IntKey? then k.i else NumeralValue(k.s)
  }

  /**
   * The calls whose counting stays in the integers: the loop only increments
   * when unique mode finds the first name set, and then the index must not be
   * a float literal such as "1.5".
   */
  predicate CountsInIntegers(index: Option<Key>, existing: seq<Entry>, unique: bool)
  {
    var k := StartKey(index);
    unique && IsNumericKey(k) && IsSet(existing, ArrayKeyOf(Prefixed(k))) ==> CountsAsInteger(k)
  }

  /** The names `isset` reports on an array: the text of every key with a non-null value. */
  function SetNames(a: seq<Entry>): seq<string>
  {
    if a == [] then []
    else
      var e := a[|a| - 1];
      if e.value == Null then SetNames(a[..|a| - 1]) else SetNames(a[..|a| - 1]) + [KeyText(e.key)]
  }

  /** A name is in `SetNames(a)` exactly when some key with a non-null value has it as text. */
  lemma {:induction false} SetNamesMeaning(a: seq<Entry>, t: string)
    ensures t in SetNames(a) <==> exists i :: 0 <= i < |a| && a[i].value != Null && KeyText(a[i].key) == t
  {
    if a != [] {
      var p := a[..|a| - 1];
      assert forall i :: 0 <= i < |p| ==> p[i] == a[i];
      SetNamesMeaning(p, t);
    }
  }

  /** `isset($a[$name])` asks whether the name is among `SetNames(a)`. */
  lemma SetNamesLookup(a: seq<Entry>, name: string)
    requires WellFormed(a)
    ensures IsSet(a, ArrayKeyOf(name)) <==> name in SetNames(a)
  {
    KeyTextOfArrayKeyOf(name);
    SetNamesMeaning(a, name);
    if IsSet(a, ArrayKeyOf(name)) {
      var i :| 0 <= i < |a| && a[i].key == ArrayKeyOf(name);
      assert KeyText(a[i].key) == name;
    }
    if name in SetNames(a) {
      var i :| 0 <= i < |a| && a[i].value != Null && KeyText(a[i].key) == name;
      ArrayKeyOfKeyText(a[i].key);
      assert Get(a, ArrayKeyOf(name)) == Some(a[i].value);
    }
  }

  /**
   * What `createValidIndex($index, $existing, $unique)` returns. A non-numeric
   * index comes back as it is; otherwise `'_' . $index`, unless unique mode
   * finds it set, in which case the post-increment loop tests that name once
   * more and then counts from the index plus one.
   */
  function ValidIndex(index: Option<Key>, existing: seq<Entry>, unique: bool): string
    requires CountsInIntegers(index, existing, unique)
  {
    var k := StartKey(index);
    if !IsNumericKey(k) then k.s
    else if !unique || !IsSet(existing, ArrayKeyOf(Prefixed(k))) then Prefixed(k)
    else "_" + IntToString(FirstFree(SetNames(existing), "_", CountStart(k) + 1))
  }

  /** `createValidIndex` */
  method CreateValidIndex(index: Option<Key>, existingIndexes: seq<Entry>, unique: bool) returns (r: string)
    requires WellFormed(existingIndexes) && CountsInIntegers(index, existingIndexes, unique)
    ensures r == ValidIndex(index, existingIndexes, unique)
  {
    var k := StartKey(index);
    if !IsNumericKey(k) {
      return k.s;
    }
    var newIndex := Prefixed(k);
    if !unique {
      return newIndex;
    }
    var start := if CountsAsInteger(k) then CountStart(k) else 0;
    r := CountUp(existingIndexes, newIndex, start);
    ghost var names := SetNames(existingIndexes);
    if IsSet(existingIndexes, ArrayKeyOf(newIndex)) {
      assert start == CountStart(k);
      assert r == "_" + IntToString(FirstFree(names, "_", CountStart(k) + 1));
    } else {
      assert r == Prefixed(k);
    }
  }

  /**
   * The post-incrementing loop of `createValidIndex`, starting from the name
   * `first` of an index that `++` turns into `start + 1`. `counted` is `None`
   * while the index is untouched, then the integer it was incremented to. The
   * first pass assigns the name already tested, so that name is tested twice
   * before counting goes on from `start + 1`.
   */
  method CountUp(existingIndexes: seq<Entry>, first: string, start: int) returns (newIndex: string)
    requires WellFormed(existingIndexes)
    ensures !IsSet(existingIndexes, ArrayKeyOf(first)) ==> newIndex == first
    ensures IsSet(existingIndexes, ArrayKeyOf(first)) ==>
      newIndex == "_" + IntToString(FirstFree(SetNames(existingIndexes), "_", start + 1))
  {
    ghost var names := SetNames(existingIndexes);
    newIndex := first;
    var counted: Option<int> := None;
    SetNamesLookup(existingIndexes, newIndex);
    while IsSet(existingIndexes, ArrayKeyOf(newIndex))
      invariant IsSet(existingIndexes, ArrayKeyOf(newIndex)) <==> newIndex in names
      invariant counted.None? ==> newIndex == first
      invariant counted.Some? ==> first in names && counted.value >= start + 1
      invariant counted == Some(start + 1) ==> newIndex == first
      invariant counted.Some? && counted.value >= start + 2 ==>
        newIndex == "_" + IntToString(counted.value - 1)
        && FirstFree(names, "_", counted.value - 1) == FirstFree(names, "_", start + 1)
      decreases if counted.None? then 2 else if counted.value == start + 1 then 1 else 0,
        if counted.None? then 0 else Pow10(MaxLength(names)) - (counted.value - 1)
    {
      if counted.Some? && counted.value >= start + 2 {
        NameBound(names, "_", counted.value - 1);
      }
      newIndex := if counted.None? then first else "_" + IntToString(counted.value);
      counted := Some(if counted.None? then start + 1 else counted.value + 1);
      SetNamesLookup(existingIndexes, newIndex);
    }
    SetNamesLookup(existingIndexes, first);
  }

  /** In unique mode the name returned for a numeric index is never set in the array. */
  lemma ValidIndexIsFree(index: Option<Key>, existing: seq<Entry>)
    requires WellFormed(existing) && CountsInIntegers(index, existing, true) && IsNumericKey(StartKey(index))
    ensures !IsSet(existing, ArrayKeyOf(ValidIndex(index, existing, true)))
  {
    var k := StartKey(index);
    if IsSet(existing, ArrayKeyOf(Prefixed(k))) {
      SetNamesLookup(existing, ValidIndex(index, existing, true));
    }
  }

  /**
   * For an integer index `n` in unique mode, the second test of the starting
   * name loses nothing: the result is `_m` for the least `m >= n` not set.
   */
  lemma IntegerIndexProbesFromItself(n: int, existing: seq<Entry>)
    requires WellFormed(existing)
    ensures ValidIndex(Some(IntKey(n)), existing, true) == "_" + IntToString(FirstFree(SetNames(existing), "_", n))
  {
    var k := IntKey(n);
    var names := SetNames(existing);
    var first := "_" + IntToString(n);
    assert Prefixed(k) == first;
    assert IsNumericKey(k) && CountsAsInteger(k) && CountStart(k) == n;
    SetNamesLookup(existing, first);
    if first in names {
      assert ValidIndex(Some(k), existing, true) == "_" + IntToString(FirstFree(names, "_", n + 1));
      assert FirstFree(names, "_", n) == FirstFree(names, "_", n + 1);
    } else {
      assert ValidIndex(Some(k), existing, true) == first;
      assert FirstFree(names, "_", n) == n;
    }
  }

  /** Without unique mode a numeric index just gets the prefix, whatever the array holds. */
  lemma NotUniqueIgnoresExisting(index: Option<Key>, a: seq<Entry>, b: seq<Entry>)
    requires IsNumericKey(StartKey(index))
    ensures ValidIndex(index, a, false) == ValidIndex(index, b, false) == "_" + KeyText(StartKey(index))
    ensures index.None? ==> ValidIndex(index, a, false) == "_0"
  {
    assert DigitChar(0) == '0';
    assert IntToString(0) == "0";
  }

  /** A key holding null does not count as taken: its name can be returned. */
  lemma NullValueIsNotTaken()
    ensures ValidIndex(Some(IntKey(0)), [Entry(StrKey("_0"), Null)], true) == "_0"
  {
    assert DigitChar(0) == '0';
    assert IntToString(0) == "0";
    assert !IsCanonicalInt("_0");
    assert Get([Entry(StrKey("_0"), Null)], StrKey("_0")) == Some(Null);
  }

  // ---------------------------------------------------------------------------
  // createUniqueValidIndexesForArray

  /** Each entry under the name `createValidIndex` gives its key in unique mode. */
  function Indexed(elements: seq<Entry>, existing: seq<Entry>): (r: seq<Entry>)
    requires forall i :: 0 <= i < |elements| ==> CountsInIntegers(Some(elements[i].key), existing, true)
    ensures |r| == |elements|
    ensures forall i :: 0 <= i < |r| ==> r[i] == Entry(ArrayKeyOf(ValidIndex(Some(elements[i].key), existing, true)), elements[i].value)
  {
    if elements == [] then []
    else
      var e := elements[0];
      [Entry(ArrayKeyOf(ValidIndex(Some(e.key), existing, true)), e.value)] + Indexed(elements[1..], existing)
  }

  /**
   * `createUniqueValidIndexesForArray`: the generated names are not added to
   * the existing ones, so two keys can end up with the same name and the later
   * value wins; the result never has more entries than the input.
   */
  method CreateUniqueValidIndexesForArray(elements: seq<Entry>, existingIndexes: seq<Entry>) returns (r: seq<Entry>)
    requires WellFormed(existingIndexes)
    requires forall i :: 0 <= i < |elements| ==> CountsInIntegers(Some(elements[i].key), existingIndexes, true)
    ensures r == PutAll([], Indexed(elements, existingIndexes))
    ensures |r| <= |elements| && DistinctKeys(r)
  {
    r := [];
    var i := 0;
    while i < |elements|
      invariant i <= |elements|
      invariant PutAll(r, Indexed(elements[i..], existingIndexes)) == PutAll([], Indexed(elements, existingIndexes))
    {
      var e := elements[i];
      assert elements[i..][0] == e && elements[i..][1..] == elements[i + 1..];
      var name := CreateValidIndex(Some(e.key), existingIndexes, true);
      r := Put(r, ArrayKeyOf(name), e.value);
      i := i + 1;
    }
    assert elements[i..] == [];
    PutAllSize([], Indexed(elements, existingIndexes));
  }

  /** `is_numeric("_0")` is false: the underscore is not part of a number. */
  lemma UnderscoreZeroIsNotNumeric()
    ensures !IsNumeric("_0")
  {
    var s := "_0";
    assert TrimLeading(s) == s;
    assert TrimTrailing(s) == s;
    assert Unsigned(s) == s;
    assert s[1..] == "0" && "0"[1..] == [];
    assert FirstOf(s, IsExponentMark) == 2;
    assert FirstOf(s, IsPoint) == 2;
    assert s[..2] == s;
    assert !IsDigit(s[0]);
  }

  /** The key 0 and the non-numeric key `_0` are both given the name `_0`. */
  lemma CollidingNames(v: Value, w: Value)
    ensures Indexed([Entry(IntKey(0), v), Entry(StrKey("_0"), w)], [])
      == [Entry(StrKey("_0"), v), Entry(StrKey("_0"), w)]
  {
    assert DigitChar(0) == '0';
    assert IntToString(0) == "0";
    assert Prefixed(IntKey(0)) == "_0";
    assert !IsCanonicalInt("_0");
    assert ArrayKeyOf("_0") == StrKey("_0");
    UnderscoreZeroIsNotNumeric();
    assert ValidIndex(Some(IntKey(0)), [], true) == "_0";
    assert ValidIndex(Some(StrKey("_0")), [], true) == "_0";
  }

  /** Two keys can share a name: the key 0 and the non-numeric key `_0` both give `_0`. */
  lemma UniqueNamesCanCollide(v: Value, w: Value)
    ensures PutAll([], Indexed([Entry(IntKey(0), v), Entry(StrKey("_0"), w)], [])) == [Entry(StrKey("_0"), w)]
  {
    CollidingNames(v, w);
    var k := StrKey("_0");
    var m := [Entry(k, v), Entry(k, w)];
    PutTwice(k, v, w);
    assert PutAll([], m) == PutAll(Put([], k, v), m[1..]);
    assert PutAll(Put([], k, v), m[1..]) == PutAll(Put(Put([], k, v), k, w), m[1..][1..]);
    assert m[1..][1..] == [];
  }
}

/**
 * PHP arrays as the collections use them: an ordered sequence of entries with
 * pairwise distinct keys. Each function here is one PHP array primitive
 * (`$a[$k] = $v`, `unset($a[$k])`, `array_search`, `array_filter`, `array_map`,
 * `array_merge`, `array_shift`, `end`, `isset`) together with what it promises.
 */
module PhpArrays {
  import opened Wrappers
  import opened PhpValues
  import opened Sorting

  function Keys(a: seq<Entry>): (ks: seq<Key>)
    ensures |ks| == |a|
    ensures forall i :: 0 <= i < |a| ==> ks[i] == a[i].key
  {
    seq(|a|, i requires 0 <= i < |a| => a[i].key)
  }

  function Values(a: seq<Entry>): (vs: seq<Value>)
    ensures |vs| == |a|
    ensures forall i :: 0 <= i < |a| ==> vs[i] == a[i].value
  {
    seq(|a|, i requires 0 <= i < |a| => a[i].value)
  }

  predicate DistinctKeys(a: seq<Entry>)
  {
    forall i, j :: 0 <= i < j < |a| ==> a[i].key != a[j].key
  }

  /** What a PHP array can be: distinct keys, each already in its cast form. */
  predicate WellFormed(a: seq<Entry>)
  {
    DistinctKeys(a) && forall i :: 0 <= i < |a| ==> IsArrayKey(a[i].key)
  }

  /** `array_key_exists($k, $a)` */
  predicate HasKey(a: seq<Entry>, k: Key)
  {
    exists i :: 0 <= i < |a| && a[i].key == k
  }

  /** Every integer key lies below `n`, so `n` is free for `$a[] = ...`. */
  predicate IntKeysBelow(a: seq<Entry>, n: int)
  {
    forall i :: 0 <= i < |a| && a[i].key.IntKey? ==> a[i].key.i < n
  }

  /** The position of key `k`, if present. */
  function FindKey(a: seq<Entry>, k: Key): (r: Option<nat>)
    ensures r.None? <==> !HasKey(a, k)
    ensures r.Some? ==> r.value < |a| && a[r.value].key == k
  {
    if a == [] then None
    else if a[0].key == k then Some(0)
    else
      match FindKey(a[1..], k)
      case None =>
        assert forall i :: 1 <= i < |a| ==> a[i].key == a[1..][i - 1].key;
        None
      case Some(i) => Some(i + 1)
  }

  /** `$a[$k]` when the key exists. */
  function Get(a: seq<Entry>, k: Key): (r: Option<Value>)
    ensures r.Some? <==> HasKey(a, k)
    ensures DistinctKeys(a) ==> forall i :: 0 <= i < |a| && a[i].key == k ==> r == Some(a[i].value)
  {
    match FindKey(a, k)
    case None => None
    case Some(i) => Some(a[i].value)
  }

  /** `isset($a[$k])`: the key exists and its value is not null. */
  predicate IsSet(a: seq<Entry>, k: Key)
  {
    Get(a, k).Some? && Get(a, k).value != Null
  }

  /**
   * `$a[$k] = $v`: an existing key keeps its position and takes the new value;
   * a new key is added at the end. Every other key keeps its value.
   */
  function Put(a: seq<Entry>, k: Key, v: Value): (r: seq<Entry>)
    ensures HasKey(a, k) ==> Keys(r) == Keys(a)
    ensures !HasKey(a, k) ==> r == a + [Entry(k, v)]
    ensures forall e :: e in r ==> e in a || e == Entry(k, v)
    ensures DistinctKeys(a) ==> DistinctKeys(r)
  {
    match FindKey(a, k)
    case None =>
      assert forall i :: 0 <= i < |a| ==> a[i].key != k;
      a + [Entry(k, v)]
    case Some(i) => a[i := Entry(k, v)]
  }

  /** After `$a[$k] = $v`, `$a[$k]` is `$v` and every other key reads as before. */
  lemma {:induction false} PutGet(a: seq<Entry>, k: Key, v: Value, k': Key)
    requires DistinctKeys(a)
    ensures Get(Put(a, k, v), k) == Some(v)
    ensures k' != k ==> Get(Put(a, k, v), k') == Get(a, k')
  {
    var r := Put(a, k, v);
    assert Entry(k, v) in r;
    if k' != k && HasKey(a, k') {
      var i :| 0 <= i < |a| && a[i].key == k';
      assert r[i] == a[i];
    }
  }

  lemma {:induction false} PutWellFormed(a: seq<Entry>, k: Key, v: Value)
    requires WellFormed(a) && IsArrayKey(k)
    ensures WellFormed(Put(a, k, v))
  {
    var r := Put(a, k, v);
    forall i | 0 <= i < |r|
      ensures IsArrayKey(r[i].key)
    {
      assert r[i] in r;
    }
  }

  /** `unset($a[$k])`: the entry for `k` goes, the others keep their order. */
  function Unset(a: seq<Entry>, k: Key): (r: seq<Entry>)
    ensures !HasKey(a, k) ==> r == a
    ensures HasKey(a, k) ==> |r| == |a| - 1
    ensures forall e :: e in r ==> e in a
    ensures DistinctKeys(a) ==> DistinctKeys(r) && !HasKey(r, k)
  {
    if a == [] then []
    else if a[0].key == k then
      UnsetHead(a, k);
      a[1..]
    else
      var rest := Unset(a[1..], k);
      UnsetCons(a, k, rest);
      [a[0]] + rest
  }

  /** `Unset`'s promises when the key is the first one. */
  lemma UnsetHead(a: seq<Entry>, k: Key)
    requires a != [] && a[0].key == k
    ensures HasKey(a, k) && |a[1..]| == |a| - 1
    ensures forall e :: e in a[1..] ==> e in a
    ensures DistinctKeys(a) ==> DistinctKeys(a[1..]) && !HasKey(a[1..], k)
  {
    assert forall i :: 1 <= i < |a| ==> a[i] == a[1..][i - 1];
  }

  /** `Unset`'s promises when the key is not the first one, given them for the tail. */
  lemma UnsetCons(a: seq<Entry>, k: Key, rest: seq<Entry>)
    requires a != [] && a[0].key != k
    requires !HasKey(a[1..], k) ==> rest == a[1..]
    requires HasKey(a[1..], k) ==> |rest| == |a| - 2
    requires forall e :: e in rest ==> e in a[1..]
    requires DistinctKeys(a[1..]) ==> DistinctKeys(rest) && !HasKey(rest, k)
    ensures !HasKey(a, k) ==> [a[0]] + rest == a
    ensures HasKey(a, k) ==> |[a[0]] + rest| == |a| - 1
    ensures forall e :: e in [a[0]] + rest ==> e in a
    ensures DistinctKeys(a) ==> DistinctKeys([a[0]] + rest) && !HasKey([a[0]] + rest, k)
  {
    var t := a[1..];
    assert forall i :: 1 <= i < |a| ==> a[i] == t[i - 1];
    assert HasKey(a, k) <==> HasKey(t, k);
    if DistinctKeys(a) {
      DistinctTail(a);
      assert forall e :: e in rest ==> e.key != a[0].key;
    }
  }

  /** After `$a[$k] = $v` with a non-null `$v`, `isset` holds for `$k` and is unchanged for other keys. */
  lemma PutIsSet(a: seq<Entry>, k: Key, v: Value, k': Key)
    requires DistinctKeys(a) && v != Null
    ensures IsSet(Put(a, k, v), k') <==> k' == k || IsSet(a, k')
    ensures Put(a, k, v) != []
  {
    PutGet(a, k, v, k');
  }

  /** Unsetting the key at position `i` cuts out exactly that entry. */
  lemma {:induction false} UnsetAt(a: seq<Entry>, i: nat)
    requires DistinctKeys(a) && i < |a|
    ensures Unset(a, a[i].key) == a[..i] + a[i + 1..]
  {
    if i > 0 {
      var k := a[i].key;
      var t := a[1..];
      DistinctTail(a);
      UnsetAt(t, i - 1);
      assert t[i - 1] == a[i];
      assert Unset(a, k) == [a[0]] + Unset(t, k);
      ConsSlices(a, i);
    }
  }

  /** The tail of an array with distinct keys has distinct keys. */
  lemma DistinctTail(a: seq<Entry>)
    requires DistinctKeys(a) && a != []
    ensures DistinctKeys(a[1..])
  {
    assert forall x, y :: 0 <= x < y < |a| - 1 ==> a[1..][x] == a[x + 1] && a[1..][y] == a[y + 1];
  }

  /** Cutting position `i > 0` out of `a` is keeping the head and cutting `i - 1` out of the tail. */
  lemma ConsSlices(a: seq<Entry>, i: nat)
    requires 0 < i < |a|
    ensures [a[0]] + (a[1..][..i - 1] + a[1..][i..]) == a[..i] + a[i + 1..]
  {
    assert a[..i] == [a[0]] + a[1..][..i - 1];
    assert a[i + 1..] == a[1..][i..];
  }

  /** Unsetting a key keeps every entry under another key. */
  lemma {:induction false} UnsetKeeps(a: seq<Entry>, k: Key, e: Entry)
    requires e in a && e.key != k
    ensures e in Unset(a, k)
  {
    if a[0] != e {
      assert e in a[1..];
      if a[0].key != k {
        UnsetKeeps(a[1..], k, e);
      }
    }
  }

  /** After `unset($a[$k])` every other key reads as before. */
  lemma {:induction false} UnsetGet(a: seq<Entry>, k: Key, k': Key)
    requires DistinctKeys(a) && k' != k
    ensures Get(Unset(a, k), k') == Get(a, k')
  {
    var r := Unset(a, k);
    if HasKey(a, k') {
      var i :| 0 <= i < |a| && a[i].key == k';
      UnsetKeeps(a, k, a[i]);
      var j :| 0 <= j < |r| && r[j] == a[i];
      assert Get(r, k') == Some(a[i].value);
    } else {
      forall j | 0 <= j < |r| ensures r[j].key != k' {
        assert r[j] in a;
      }
    }
  }

  // ---------------------------------------------------------------------------
  // array_filter

  /** `array_filter($a, $f, ARRAY_FILTER_USE_BOTH)`: the callback sees the value, then the key. */
  function FilterEntries(a: seq<Entry>, f: (Value, Key) -> bool): (r: seq<Entry>)
    ensures |r| <= |a|
    ensures forall e :: e in r <==> e in a && f(e.value, e.key)
    ensures DistinctKeys(a) ==> DistinctKeys(r)
  {
    if a == [] then []
    else
      var rest := FilterEntries(a[1..], f);
      assert forall e :: e in a <==> e == a[0] || e in a[1..];
      assert DistinctKeys(a) ==> forall e :: e in rest ==> e.key != a[0].key;
      if f(a[0].value, a[0].key) then [a[0]] + rest else rest
  }

  /** `xs` is `ys` with some entries dropped and the rest in their order. */
  ghost predicate SubsequenceOf<T>(xs: seq<T>, ys: seq<T>)
    decreases |ys|
  {
    if xs == [] then true
    else if ys == [] then false
    else (xs[0] == ys[0] && SubsequenceOf(xs[1..], ys[1..])) || SubsequenceOf(xs, ys[1..])
  }

  /** The entries `array_filter` keeps stay in their original order. */
  lemma {:induction false} FilterKeepsOrder(a: seq<Entry>, f: (Value, Key) -> bool)
    ensures SubsequenceOf(FilterEntries(a, f), a)
  {
    if a != [] {
      FilterKeepsOrder(a[1..], f);
      var r := FilterEntries(a, f);
      if f(a[0].value, a[0].key) {
        assert r[1..] == FilterEntries(a[1..], f);
      }
    }
  }

  /** The callback keeps nothing exactly when it accepts no entry. */
  lemma {:induction false} FilterNone(a: seq<Entry>, f: (Value, Key) -> bool)
    ensures |FilterEntries(a, f)| == 0 <==> forall i :: 0 <= i < |a| ==> !f(a[i].value, a[i].key)
  {
    var r := FilterEntries(a, f);
    if |r| > 0 {
      assert r[0] in r;
    }
    forall i | 0 <= i < |a| && f(a[i].value, a[i].key)
      ensures |r| > 0
    {
      assert a[i] in r;
    }
  }

  /** Two or more entries survive exactly when the callback accepts two of them. */
  lemma {:induction false} FilterTwo(a: seq<Entry>, f: (Value, Key) -> bool)
    requires DistinctKeys(a)
    ensures |FilterEntries(a, f)| >= 2 <==>
      exists i, j :: 0 <= i < j < |a| && f(a[i].value, a[i].key) && f(a[j].value, a[j].key)
  {
    var r := FilterEntries(a, f);
    if |r| >= 2 {
      assert r[0] in r && r[1] in r;
      var i :| 0 <= i < |a| && a[i] == r[0];
      var j :| 0 <= j < |a| && a[j] == r[1];
      assert r[0].key != r[1].key;
      if i < j {
        assert f(a[i].value, a[i].key) && f(a[j].value, a[j].key);
      } else {
        assert f(a[j].value, a[j].key) && f(a[i].value, a[i].key);
      }
    }
    forall i, j | 0 <= i < j < |a| && f(a[i].value, a[i].key) && f(a[j].value, a[j].key)
      ensures |r| >= 2
    {
      assert a[i] in r && a[j] in r;
      assert a[i].key != a[j].key;
      TwoMembers(r, a[i], a[j]);
    }
  }

  lemma {:induction false} TwoMembers(r: seq<Entry>, x: Entry, y: Entry)
    requires x in r && y in r && x != y
    ensures |r| >= 2
  {
    var i :| 0 <= i < |r| && r[i] == x;
    var j :| 0 <= j < |r| && r[j] == y;
    assert i != j;
  }

  /** A single survivor is the one entry the callback accepts. */
  lemma {:induction false} FilterOne(a: seq<Entry>, f: (Value, Key) -> bool)
    requires DistinctKeys(a) && |FilterEntries(a, f)| == 1
    ensures exists i :: 0 <= i < |a| && FilterEntries(a, f) == [a[i]] && f(a[i].value, a[i].key)
                        && forall j :: 0 <= j < |a| && j != i ==> !f(a[j].value, a[j].key)
  {
    var r := FilterEntries(a, f);
    assert r[0] in r;
    var i :| 0 <= i < |a| && a[i] == r[0];
    assert r == [a[i]];
    forall j | 0 <= j < |a| && j != i
      ensures !f(a[j].value, a[j].key)
    {
      assert a[j].key != a[i].key;
      assert a[j] !in r;
    }
  }

  /** `unset` by key is the filter that drops that one key: the other entries keep their order. */
  lemma {:induction false} UnsetIsFilter(a: seq<Entry>, k: Key, f: (Value, Key) -> bool)
    requires DistinctKeys(a)
    requires forall v, key :: f(v, key) <==> key != k
    ensures Unset(a, k) == FilterEntries(a, f)
  {
    if a != [] {
      var t := a[1..];
      assert DistinctKeys(t);
      if a[0].key == k {
        forall i | 0 <= i < |t| ensures t[i].key != k {
          assert t[i] == a[i + 1];
        }
        FilterAll(t, f);
      } else {
        UnsetIsFilter(t, k, f);
      }
    }
  }

  lemma {:induction false} FilterAll(a: seq<Entry>, f: (Value, Key) -> bool)
    requires forall i :: 0 <= i < |a| ==> f(a[i].value, a[i].key)
    ensures FilterEntries(a, f) == a
  {
    if a != [] {
      FilterAll(a[1..], f);
    }
  }

  // ---------------------------------------------------------------------------
  // array_map

  /** `array_map($f, $a)` over one array: keys and order kept, each value mapped. */
  function MapValues(a: seq<Entry>, f: Value -> Value): (r: seq<Entry>)
    ensures |r| == |a|
  {
    seq(|a|, i requires 0 <= i < |a| => Entry(a[i].key, f(a[i].value)))
  }

  lemma {:induction false} MapValuesLookup(a: seq<Entry>, f: Value -> Value, k: Key)
    requires DistinctKeys(a)
    ensures Keys(MapValues(a, f)) == Keys(a)
    ensures DistinctKeys(MapValues(a, f))
    ensures Get(MapValues(a, f), k) == (match Get(a, k) case None => None case Some(v) => Some(f(v)))
  {
    var r := MapValues(a, f);
    assert Keys(r) == Keys(a);
    if HasKey(a, k) {
      var i :| 0 <= i < |a| && a[i].key == k;
      assert r[i].key == k;
    }
  }

  // ---------------------------------------------------------------------------
  // array_search / in_array (strict)

  /** The position of the first value identical (`===`) to `v`. */
  function FindValue(a: seq<Entry>, v: Value): (r: Option<nat>)
    ensures r.None? <==> v !in Values(a)
    ensures r.Some? ==> r.value < |a| && a[r.value].value == v
    ensures r.Some? ==> forall i :: 0 <= i < r.value ==> a[i].value != v
  {
    if a == [] then None
    else if a[0].value == v then Some(0)
    else
      match FindValue(a[1..], v)
      case None =>
        assert forall i :: 1 <= i < |a| ==> a[i].value == a[1..][i - 1].value;
        None
      case Some(i) => Some(i + 1)
  }

  /**
   * `array_search($v, $a, true)` followed by `unset` of the key it found: only
   * the first identical value goes, the other entries keep their order.
   */
  function RemoveFirst(a: seq<Entry>, v: Value): (r: seq<Entry>)
    requires DistinctKeys(a)
    ensures v !in Values(a) ==> r == a
    ensures FindValue(a, v).Some? ==> var i := FindValue(a, v).value; r == a[..i] + a[i + 1..]
    ensures DistinctKeys(r)
  {
    match FindValue(a, v)
    case None => a
    case Some(i) =>
      UnsetAt(a, i);
      Unset(a, a[i].key)
  }

  /** Removing a value takes away exactly one occurrence of it and nothing else. */
  lemma {:induction false} RemoveFirstTakesOne(a: seq<Entry>, v: Value)
    requires DistinctKeys(a) && v in Values(a)
    ensures |RemoveFirst(a, v)| == |a| - 1
    ensures multiset(Values(RemoveFirst(a, v))) == multiset(Values(a)) - multiset{v}
  {
    var i := FindValue(a, v).value;
    assert RemoveFirst(a, v) == a[..i] + a[i + 1..];
    ValuesWithout(a, i);
  }

  /** Dropping the entry at `i` drops its value from the values' multiset. */
  lemma {:induction false} ValuesWithout(a: seq<Entry>, i: nat)
    requires i < |a|
    ensures multiset(Values(a[..i] + a[i + 1..])) == multiset(Values(a)) - multiset{a[i].value}
  {
    var x, y := a[..i], a[i + 1..];
    assert a == x + [a[i]] + y;
    ValuesAppend(x + [a[i]], y);
    ValuesAppend(x, [a[i]]);
    ValuesAppend(x, y);
    assert Values([a[i]]) == [a[i].value];
  }

  lemma {:induction false} ValuesAppend(x: seq<Entry>, y: seq<Entry>)
    ensures Values(x + y) == Values(x) + Values(y)
  {
  }

  // ---------------------------------------------------------------------------
  // Keys for `$a[] = ...`

  /** The next free key after `$a[$k] = ...` on an array whose next free key is `n`. */
  function CounterAfterSet(n: nat, k: Key): (m: nat)
    ensures m >= n
    ensures k.IntKey? ==> k.i < m
  {
    if k.IntKey? && k.i >= n then k.i + 1 else n
  }

  /**
   * The next free integer key of an array built from scratch: the counter after
   * assigning its entries in order, i.e. one more than its largest integer key,
   * and never below 0.
   */
  function NextFreeAfter(a: seq<Entry>): (n: nat)
    ensures IntKeysBelow(a, n)
    ensures n > 0 ==> HasKey(a, IntKey(n - 1))
  {
    if a == [] then 0
    else
      var p := a[..|a| - 1];
      assert forall i :: 0 <= i < |p| ==> a[i] == p[i];
      CounterAfterSet(NextFreeAfter(p), a[|a| - 1].key)
  }

  /** The counter of an array grows entry by entry as `CounterAfterSet` says. */
  lemma NextFreeAfterAppend(a: seq<Entry>, e: Entry)
    ensures NextFreeAfter(a + [e]) == CounterAfterSet(NextFreeAfter(a), e.key)
  {
    assert (a + [e])[..|a|] == a;
  }

  /** In an array, no entry's key occurs before it. */
  lemma PrefixLacksKey(a: seq<Entry>, i: nat)
    requires DistinctKeys(a) && i < |a|
    ensures !HasKey(a[..i], a[i].key)
  {
    var p := a[..i];
    forall j | 0 <= j < |p|
      ensures p[j].key != a[i].key
    {
      assert p[j] == a[j];
    }
  }

  /** Assigning the entries of an array one by one rebuilds it, prefix by prefix. */
  lemma PutNextEntry(es: seq<Entry>, i: nat)
    requires WellFormed(es) && i < |es|
    ensures NormalizeKey(es[i].key) == es[i].key
    ensures Put(es[..i], es[i].key, es[i].value) == es[..i + 1]
    ensures NextFreeAfter(es[..i + 1]) == CounterAfterSet(NextFreeAfter(es[..i]), es[i].key)
  {
    var e := es[i];
    assert IsArrayKey(e.key);
    if e.key.StrKey? {
      KeyTextOfArrayKeyOf(e.key.s);
    }
    PrefixLacksKey(es, i);
    assert es[..i + 1] == es[..i] + [e];
    NextFreeAfterAppend(es[..i], e);
  }

  /** `$a[$k] = $v` moves the counter past `k`, so every integer key stays below it. */
  lemma {:induction false} PutCounter(a: seq<Entry>, k: Key, v: Value, n: nat)
    requires IntKeysBelow(a, n)
    ensures IntKeysBelow(Put(a, k, v), CounterAfterSet(n, k))
  {
    var r := Put(a, k, v);
    forall i | 0 <= i < |r| && r[i].key.IntKey?
      ensures r[i].key.i < CounterAfterSet(n, k)
    {
      assert r[i] in r;
      if r[i] in a {
        var j :| 0 <= j < |a| && a[j] == r[i];
      }
    }
  }

  /** `$a[] = $v` on an array whose next free key is `n`. */
  lemma {:induction false} AppendFresh(a: seq<Entry>, n: int, v: Value)
    requires WellFormed(a) && IntKeysBelow(a, n)
    ensures !HasKey(a, IntKey(n))
    ensures WellFormed(a + [Entry(IntKey(n), v)])
    ensures IntKeysBelow(a + [Entry(IntKey(n), v)], n + 1)
  {
  }

  // ---------------------------------------------------------------------------
  // array_shift / end

  /** `array_shift` on a copy: the first value, or null for an empty array. */
  function FirstValue(a: seq<Entry>): Value
  {
    if a == [] then Null else a[0].value
  }

  /** `end` on a copy, where the `false` it returns for an empty array is turned into null. */
  function LastValueOrNull(a: seq<Entry>): Value
  {
    if a == [] || a[|a| - 1].value == Bool(false) then Null else a[|a| - 1].value
  }

  lemma {:induction false} FirstValueNull(a: seq<Entry>)
    ensures FirstValue(a) == Null <==> a == [] || Values(a)[0] == Null
    ensures a != [] ==> FirstValue(a) == Values(a)[0]
  {
  }

  /** `last()` cannot tell an empty array from one ending in null or false. */
  lemma {:induction false} LastValueNull(a: seq<Entry>)
    ensures LastValueOrNull(a) == Null <==> a == [] || Values(a)[|a| - 1] in {Null, Bool(false)}
    ensures LastValueOrNull(a) != Null ==> LastValueOrNull(a) == Values(a)[|a| - 1]
  {
  }

  /**
   * `getOneOrNullBy` after the filter: more than one match is the error `multiple`;
   * otherwise the first value of the matches, i.e. the single match or null.
   */
  function OneOrNull<E>(matches: seq<Entry>, multiple: E): Result<Value, E>
  {
    if |matches| > 1 then Failure(multiple) else Success(FirstValue(matches))
  }

  /** `getOneBy`: a null result from `getOneOrNullBy` becomes the error `none`. */
  function ExactlyOne<E>(matches: seq<Entry>, multiple: E, none: E): Result<Value, E>
  {
    match OneOrNull(matches, multiple)
    case Failure(e) => Failure(e)
    case Success(v) => if v == Null then Failure(none) else Success(v)
  }

  /** Both queries in terms of the entries the callback accepts. */
  lemma {:induction false} OneOrNullMeaning<E>(a: seq<Entry>, f: (Value, Key) -> bool, multiple: E, none: E)
    requires DistinctKeys(a) && multiple != none
    ensures var r := OneOrNull(FilterEntries(a, f), multiple);
      && (r.Failure? <==> exists i, j :: 0 <= i < j < |a| && f(a[i].value, a[i].key) && f(a[j].value, a[j].key))
      && ((forall i :: 0 <= i < |a| ==> !f(a[i].value, a[i].key)) ==> r == Success(Null))
      && (forall i :: 0 <= i < |a| && f(a[i].value, a[i].key) && r.Success? ==> r == Success(a[i].value))
    ensures var r := OneOrNull(FilterEntries(a, f), multiple);
      var s := ExactlyOne(FilterEntries(a, f), multiple, none);
      && (s.Failure? && s.error == multiple <==> r.Failure?)
      && (s.Success? ==> exists i :: 0 <= i < |a| && f(a[i].value, a[i].key) && s.value == a[i].value
                           && a[i].value != Null && forall j :: 0 <= j < |a| && j != i ==> !f(a[j].value, a[j].key))
      && (r.Success? && r.value == Null ==> s == Failure(none))
      && (forall i :: 0 <= i < |a| && f(a[i].value, a[i].key) && (forall j :: 0 <= j < |a| && j != i ==> !f(a[j].value, a[j].key))
            ==> s == (if a[i].value == Null then Failure(none) else Success(a[i].value)))
  {
    FilterNone(a, f);
    FilterTwo(a, f);
    var m := FilterEntries(a, f);
    var r := OneOrNull(m, multiple);
    if |m| == 1 {
      FilterOne(a, f);
      var i :| 0 <= i < |a| && m == [a[i]] && f(a[i].value, a[i].key)
               && forall j :: 0 <= j < |a| && j != i ==> !f(a[j].value, a[j].key);
      assert r == Success(a[i].value);
    }
  }

  // ---------------------------------------------------------------------------
  // array_merge

  /** Folds `es` into `acc`: integer keys are renumbered from `next`, string keys overwrite. */
  function MergeInto(acc: seq<Entry>, next: int, es: seq<Entry>): seq<Entry>
    decreases |es|
  {
    if es == [] then acc
    else
      match es[0].key
      case IntKey(_) => MergeInto(acc + [Entry(IntKey(next), es[0].value)], next + 1, es[1..])
      case StrKey(_) => MergeInto(Put(acc, es[0].key, es[0].value), next, es[1..])
  }

  /** `array_merge($a, $b)` */
  function ArrayMerge(a: seq<Entry>, b: seq<Entry>): seq<Entry>
  {
    MergeInto([], 0, a + b)
  }

  predicate AllArrayKeys(es: seq<Entry>)
  {
    forall i :: 0 <= i < |es| ==> IsArrayKey(es[i].key)
  }

  lemma {:induction false} MergeIntoWellFormed(acc: seq<Entry>, next: int, es: seq<Entry>)
    requires WellFormed(acc) && IntKeysBelow(acc, next) && AllArrayKeys(es)
    ensures WellFormed(MergeInto(acc, next, es))
    decreases |es|
  {
    if es != [] {
      assert IsArrayKey(es[0].key);
      assert AllArrayKeys(es[1..]) by {
        forall i | 0 <= i < |es| - 1 ensures IsArrayKey(es[1..][i].key) {
          assert es[1..][i] == es[i + 1];
        }
      }
      match es[0].key
      case IntKey(_) =>
        AppendFresh(acc, next, es[0].value);
        MergeIntoWellFormed(acc + [Entry(IntKey(next), es[0].value)], next + 1, es[1..]);
      case StrKey(_) =>
        var p := Put(acc, es[0].key, es[0].value);
        PutWellFormed(acc, es[0].key, es[0].value);
        assert IntKeysBelow(p, next) by {
          forall i | 0 <= i < |p| && p[i].key.IntKey? ensures p[i].key.i < next {
            assert p[i] in p;
          }
        }
        MergeIntoWellFormed(p, next, es[1..]);
    }
  }

  /** Merging two arrays gives an array. */
  lemma {:induction false} MergeWellFormed(a: seq<Entry>, b: seq<Entry>)
    requires WellFormed(a) && WellFormed(b)
    ensures WellFormed(ArrayMerge(a, b))
  {
    MergeIntoWellFormed([], 0, a + b);
  }

  lemma {:induction false} MergeIntoValues(acc: seq<Entry>, next: int, es: seq<Entry>)
    ensures forall e :: e in MergeInto(acc, next, es) ==> e.value in Values(acc) || e.value in Values(es)
    decreases |es|
  {
    if es != [] {
      var v := es[0].value;
      assert v in Values(es);
      assert forall w :: w in Values(es[1..]) ==> w in Values(es) by {
        forall w | w in Values(es[1..]) ensures w in Values(es) {
          var i :| 0 <= i < |es| - 1 && Values(es[1..])[i] == w;
          assert Values(es)[i + 1] == w;
        }
      }
      match es[0].key
      case IntKey(_) =>
        var acc' := acc + [Entry(IntKey(next), v)];
        MergeIntoValues(acc', next + 1, es[1..]);
        forall w | w in Values(acc') ensures w in Values(acc) || w == v {
          var i :| 0 <= i < |acc'| && Values(acc')[i] == w;
          if i < |acc| {
            assert Values(acc)[i] == w;
          }
        }
      case StrKey(_) =>
        var acc' := Put(acc, es[0].key, v);
        MergeIntoValues(acc', next, es[1..]);
        forall w | w in Values(acc') ensures w in Values(acc) || w == v {
          var i :| 0 <= i < |acc'| && Values(acc')[i] == w;
          assert acc'[i] in acc';
          if acc'[i] in acc {
            var j :| 0 <= j < |acc| && acc[j] == acc'[i];
            assert Values(acc)[j] == w;
          }
        }
    }
  }

  /** Every merged value comes from one of the two inputs. */
  lemma {:induction false} MergeValuesFromInputs(a: seq<Entry>, b: seq<Entry>)
    ensures forall e :: e in ArrayMerge(a, b) ==> e.value in Values(a) || e.value in Values(b)
  {
    MergeIntoValues([], 0, a + b);
    forall w | w in Values(a + b) ensures w in Values(a) || w in Values(b) {
      var i :| 0 <= i < |a + b| && Values(a + b)[i] == w;
      if i < |a| {
        assert Values(a)[i] == w;
      } else {
        assert Values(b)[i - |a|] == w;
      }
    }
  }

  /** `$a[$k] = $v` leaves every entry under another key in place. */
  lemma {:induction false} PutKeeps(a: seq<Entry>, k: Key, v: Value, e: Entry)
    requires e in a && e.key != k
    ensures e in Put(a, k, v)
  {
    var j :| 0 <= j < |a| && a[j] == e;
    var r := Put(a, k, v);
    match FindKey(a, k)
    case None =>
      assert r[j] == e;
    case Some(i) =>
      assert r[j] == e;
  }

  /** An entry already merged survives unless a later string entry reuses its key. */
  lemma {:induction false} MergeIntoKeepsAcc(acc: seq<Entry>, next: int, es: seq<Entry>, e: Entry)
    requires e in acc
    requires e.key.IntKey? ==> e.key.i < next
    requires e.key.StrKey? ==> !HasKey(es, e.key)
    ensures e in MergeInto(acc, next, es)
    decreases |es|
  {
    if es != [] {
      assert e.key.StrKey? ==> !HasKey(es[1..], e.key) by {
        forall i | 0 <= i < |es| - 1 ensures es[1..][i].key == es[i + 1].key {
        }
      }
      match es[0].key
      case IntKey(_) =>
        MergeIntoKeepsAcc(acc + [Entry(IntKey(next), es[0].value)], next + 1, es[1..], e);
      case StrKey(_) =>
        PutKeeps(acc, es[0].key, es[0].value, e);
        MergeIntoKeepsAcc(Put(acc, es[0].key, es[0].value), next, es[1..], e);
    }
  }

  /** A value to be merged ends up in the result unless a later entry overwrites its string key. */
  lemma {:induction false} MergeIntoKeepsLater(acc: seq<Entry>, next: int, es: seq<Entry>, j: nat)
    requires j < |es|
    requires es[j].key.StrKey? ==> !HasKey(es[j + 1..], es[j].key)
    ensures es[j].value in Values(MergeInto(acc, next, es))
    decreases |es|
  {
    var v := es[0].value;
    if j == 0 {
      var e: Entry;
      match es[0].key
      case IntKey(_) =>
        e := Entry(IntKey(next), v);
        MergeIntoKeepsAcc(acc + [e], next + 1, es[1..], e);
      case StrKey(_) =>
        e := Entry(es[0].key, v);
        var p := Put(acc, es[0].key, v);
        assert e in p;
        MergeIntoKeepsAcc(p, next, es[1..], e);
      var r := MergeInto(acc, next, es);
      var i :| 0 <= i < |r| && r[i] == e;
      assert Values(r)[i] == es[j].value;
    } else {
      assert es[1..][j - 1] == es[j];
      assert es[1..][j..] == es[j + 1..];
      match es[0].key
      case IntKey(_) =>
        MergeIntoKeepsLater(acc + [Entry(IntKey(next), v)], next + 1, es[1..], j - 1);
      case StrKey(_) =>
        MergeIntoKeepsLater(Put(acc, es[0].key, v), next, es[1..], j - 1);
    }
  }

  /** Every value of the second array survives `array_merge`. */
  lemma {:induction false} MergeKeepsSecond(a: seq<Entry>, b: seq<Entry>)
    requires DistinctKeys(b)
    ensures forall j :: 0 <= j < |b| ==> b[j].value in Values(ArrayMerge(a, b))
  {
    forall j | 0 <= j < |b|
      ensures b[j].value in Values(ArrayMerge(a, b))
    {
      var es := a + b;
      assert es[|a| + j] == b[j];
      assert es[|a| + j + 1..] == b[j + 1..];
      var later := b[j + 1..];
      assert b[j].key.StrKey? ==> !HasKey(later, b[j].key) by {
        forall i | 0 <= i < |later| ensures later[i].key != b[j].key {
          assert later[i] == b[j + 1 + i];
        }
      }
      MergeIntoKeepsLater([], 0, es, |a| + j);
    }
  }

  // ---------------------------------------------------------------------------
  // Checking every value

  /** Every value of the array satisfies `p`. */
  ghost predicate AllValues(p: Value -> bool, es: seq<Entry>)
  {
    forall i :: 0 <= i < |es| ==> p(es[i].value)
  }

  /**
   * `foreach ($es as $v) { check($v); }` where `check` may throw: the error of the
   * first value in array order that fails, or none.
   */
  function FirstError<E>(check: Value -> Option<E>, es: seq<Entry>): (r: Option<E>)
    ensures r.None? <==> forall i :: 0 <= i < |es| ==> check(es[i].value).None?
    ensures r.Some? ==> exists i :: 0 <= i < |es| && r == check(es[i].value)
                          && forall j :: 0 <= j < i ==> check(es[j].value).None?
    decreases |es|
  {
    if es == [] then None
    else if check(es[0].value).Some? then check(es[0].value)
    else
      assert forall i :: 1 <= i < |es| ==> es[i] == es[1..][i - 1];
      FirstError(check, es[1..])
  }

  /** One step of the `foreach`: a value that passes hands over to the rest. */
  lemma FirstErrorStep<E>(check: Value -> Option<E>, es: seq<Entry>, i: nat)
    requires i < |es|
    ensures check(es[i].value).Some? ==> FirstError(check, es[i..]) == check(es[i].value)
    ensures check(es[i].value).None? ==> FirstError(check, es[i..]) == FirstError(check, es[i + 1..])
  {
    assert es[i..][0] == es[i];
    assert es[i..][1..] == es[i + 1..];
  }

  /** A property of every value holds of every sub-array. */
  lemma {:induction false} AllValuesSubset(p: Value -> bool, es: seq<Entry>, sub: seq<Entry>)
    requires AllValues(p, es) && forall e :: e in sub ==> e in es
    ensures AllValues(p, sub)
  {
    forall i | 0 <= i < |sub|
      ensures p(sub[i].value)
    {
      assert sub[i] in sub;
      var j :| 0 <= j < |es| && es[j] == sub[i];
    }
  }

  /**
   * When every value of `a` satisfies `p`, every value of `array_merge($a, $b)`
   * does exactly when every value of `b` does.
   */
  lemma {:induction false} MergeAllValues(p: Value -> bool, a: seq<Entry>, b: seq<Entry>)
    requires AllValues(p, a) && DistinctKeys(b)
    ensures AllValues(p, ArrayMerge(a, b)) <==> AllValues(p, b)
  {
    var m := ArrayMerge(a, b);
    MergeValuesFromInputs(a, b);
    MergeKeepsSecond(a, b);
    if AllValues(p, b) {
      forall i | 0 <= i < |m|
        ensures p(m[i].value)
      {
        assert m[i] in m;
        if m[i].value in Values(a) {
          var j :| 0 <= j < |a| && Values(a)[j] == m[i].value;
        } else {
          var j :| 0 <= j < |b| && Values(b)[j] == m[i].value;
        }
      }
    } else {
      var j :| 0 <= j < |b| && !p(b[j].value);
      var i :| 0 <= i < |m| && Values(m)[i] == b[j].value;
      assert !p(m[i].value);
    }
  }

  predicate AllIntKeys(es: seq<Entry>)
  {
    forall i :: 0 <= i < |es| ==> es[i].key.IntKey?
  }

  /** The list `[v0, v1, ...]` with keys 0, 1, ... */
  function ListOf(vs: seq<Value>): (r: seq<Entry>)
    ensures |r| == |vs|
  {
    seq(|vs|, i requires 0 <= i < |vs| => Entry(IntKey(i), vs[i]))
  }

  lemma {:induction false} MergeIntoIntKeys(acc: seq<Entry>, next: int, es: seq<Entry>)
    requires AllIntKeys(es)
    ensures MergeInto(acc, next, es) == acc + seq(|es|, i requires 0 <= i < |es| => Entry(IntKey(next + i), es[i].value))
    decreases |es|
  {
    if es != [] {
      var t := es[1..];
      assert es[0].key.IntKey?;
      assert AllIntKeys(t) by {
        forall i | 0 <= i < |t| ensures t[i].key.IntKey? {
          assert t[i] == es[i + 1];
        }
      }
      MergeIntoIntKeys(acc + [Entry(IntKey(next), es[0].value)], next + 1, t);
    }
  }

  /** Merging two arrays with only integer keys renumbers the values 0, 1, ... in order. */
  lemma {:induction false} MergeIntKeyed(a: seq<Entry>, b: seq<Entry>)
    requires AllIntKeys(a) && AllIntKeys(b)
    ensures ArrayMerge(a, b) == ListOf(Values(a) + Values(b))
  {
    assert AllIntKeys(a + b) by {
      forall i | 0 <= i < |a + b| ensures (a + b)[i].key.IntKey? {
        if i >= |a| {
          assert (a + b)[i] == b[i - |a|];
        }
      }
    }
    MergeIntoIntKeys([], 0, a + b);
  }

  /** The value of the last entry with key `k`, if any. */
  function LastValueFor(es: seq<Entry>, k: Key): Option<Value>
  {
    if es == [] then None
    else
      match LastValueFor(es[1..], k)
      case Some(v) => Some(v)
      case None => if es[0].key == k then Some(es[0].value) else None
  }

  lemma {:induction false} MergeIntoStringKey(acc: seq<Entry>, next: int, es: seq<Entry>, k: Key)
    requires k.StrKey? && DistinctKeys(acc) && IntKeysBelow(acc, next)
    ensures Get(MergeInto(acc, next, es), k) == (if LastValueFor(es, k).Some? then LastValueFor(es, k) else Get(acc, k))
    decreases |es|
  {
    if es != [] {
      match es[0].key
      case IntKey(_) =>
        var acc' := acc + [Entry(IntKey(next), es[0].value)];
        assert Get(acc', k) == Get(acc, k) by {
          assert Keys(acc') == Keys(acc) + [IntKey(next)];
          if HasKey(acc, k) {
            var i :| 0 <= i < |acc| && acc[i].key == k;
            assert acc'[i] == acc[i];
          }
        }
        MergeIntoStringKey(acc', next + 1, es[1..], k);
      case StrKey(_) =>
        var acc' := Put(acc, es[0].key, es[0].value);
        PutGet(acc, es[0].key, es[0].value, k);
        assert IntKeysBelow(acc', next) by {
          forall i | 0 <= i < |acc'| && acc'[i].key.IntKey? ensures acc'[i].key.i < next {
            assert acc'[i] in acc';
          }
        }
        MergeIntoStringKey(acc', next, es[1..], k);
    }
  }

  lemma {:induction false} LastValueForAppend(a: seq<Entry>, b: seq<Entry>, k: Key)
    ensures LastValueFor(a + b, k) == (if LastValueFor(b, k).Some? then LastValueFor(b, k) else LastValueFor(a, k))
  {
    if a != [] {
      assert (a + b)[1..] == a[1..] + b;
      LastValueForAppend(a[1..], b, k);
    } else {
      assert a + b == b;
    }
  }

  lemma {:induction false} LastValueForDistinct(a: seq<Entry>, k: Key)
    requires DistinctKeys(a)
    ensures LastValueFor(a, k) == Get(a, k)
  {
    if a != [] {
      var t := a[1..];
      assert DistinctKeys(t);
      LastValueForDistinct(t, k);
      if a[0].key == k {
        assert !HasKey(t, k);
      } else if HasKey(t, k) {
        var i :| 0 <= i < |t| && t[i].key == k;
        assert a[i + 1] == t[i];
      } else {
        assert !HasKey(a, k);
      }
    }
  }

  /** A string key of the second array wins; otherwise the first array's value stays. */
  lemma {:induction false} MergeStringKey(a: seq<Entry>, b: seq<Entry>, s: string)
    requires WellFormed(a) && WellFormed(b)
    ensures Get(ArrayMerge(a, b), StrKey(s)) == (if HasKey(b, StrKey(s)) then Get(b, StrKey(s)) else Get(a, StrKey(s)))
  {
    var k := StrKey(s);
    MergeIntoStringKey([], 0, a + b, k);
    LastValueForAppend(a, b, k);
    LastValueForDistinct(a, k);
    LastValueForDistinct(b, k);
  }

  // ---------------------------------------------------------------------------
  // Building an array by assignments

  /** Writing the same key twice keeps one entry, holding the later value. */
  lemma PutTwice(k: Key, v: Value, w: Value)
    ensures Put(Put([], k, v), k, w) == [Entry(k, w)]
  {
    var r1 := Put([], k, v);
    assert r1 == [Entry(k, v)];
    assert FindKey(r1, k) == Some(0);
  }

  /** Assigns each entry of `es` in turn: `foreach ($es as $k => $v) { $acc[$k] = $v; }`. */
  function PutAll(acc: seq<Entry>, es: seq<Entry>): seq<Entry>
    decreases |es|
  {
    if es == [] then acc else PutAll(Put(acc, es[0].key, es[0].value), es[1..])
  }

  /** Assigning distinct fresh keys appends the entries as they are. */
  lemma {:induction false} PutAllDistinct(acc: seq<Entry>, es: seq<Entry>)
    requires DistinctKeys(acc + es)
    ensures PutAll(acc, es) == acc + es
    decreases |es|
  {
    if es != [] {
      var e := es[0];
      assert (acc + es)[|acc|] == e;
      forall i | 0 <= i < |acc| ensures acc[i].key != e.key {
        assert (acc + es)[i] == acc[i];
      }
      assert acc + [e] + es[1..] == acc + es;
      PutAllDistinct(acc + [e], es[1..]);
    }
  }

  /** Colliding keys can only shrink the result; its keys stay distinct. */
  lemma {:induction false} PutAllSize(acc: seq<Entry>, es: seq<Entry>)
    requires DistinctKeys(acc)
    ensures |PutAll(acc, es)| <= |acc| + |es|
    ensures DistinctKeys(PutAll(acc, es))
    decreases |es|
  {
    if es != [] {
      PutAllSize(Put(acc, es[0].key, es[0].value), es[1..]);
    }
  }

  // ---------------------------------------------------------------------------
  // uasort / uksort

  /** The key as the callback of `uksort` receives it. */
  function KeyAsValue(k: Key): Value
  {
    match k
    case IntKey(i) => Int(i)
    case StrKey(s) => Str(s)
  }

  function ByValue(cmp: (Value, Value) -> int): (Entry, Entry) -> int
  {
    (x: Entry, y: Entry) => cmp(x.value, y.value)
  }

  function ByKey(cmp: (Value, Value) -> int): (Entry, Entry) -> int
  {
    (x: Entry, y: Entry) => cmp(KeyAsValue(x.key), KeyAsValue(y.key))
  }

  lemma {:induction false} InsertKeepsKeysDistinct(x: Entry, s: seq<Entry>, cmp: (Entry, Entry) -> int)
    requires DistinctKeys(s) && !HasKey(s, x.key)
    ensures DistinctKeys(Insert(x, s, cmp))
  {
    if s != [] && cmp(x, s[0]) > 0 {
      var t := s[1..];
      assert DistinctKeys(t);
      forall i | 0 <= i < |t| ensures t[i].key != x.key {
        assert t[i] == s[i + 1] && Keys(s)[i + 1] == s[i + 1].key;
      }
      InsertKeepsKeysDistinct(x, t, cmp);
      InsertMembers(x, t, cmp);
      var u := Insert(x, t, cmp);
      forall e | e in u ensures e.key != s[0].key {
        if e != x {
          var i :| 0 <= i < |t| && t[i] == e;
          assert s[i + 1] == e;
        }
      }
    } else if s != [] {
      var r := [x] + s;
      forall i, j | 0 <= i < j < |r| ensures r[i].key != r[j].key {
        assert r[j] == s[j - 1];
        if i > 0 {
          assert r[i] == s[i - 1];
        }
      }
    }
  }

  lemma {:induction false} SortKeepsKeysDistinct(a: seq<Entry>, cmp: (Entry, Entry) -> int)
    requires DistinctKeys(a)
    ensures DistinctKeys(InsertionSort(a, cmp))
  {
    if a != [] {
      var t := a[1..];
      assert DistinctKeys(t);
      SortKeepsKeysDistinct(t, cmp);
      var st := InsertionSort(t, cmp);
      SortMembers(t, cmp);
      forall i | 0 <= i < |st| ensures st[i].key != a[0].key {
        assert st[i] in t;
        var j :| 0 <= j < |t| && t[j] == st[i];
        assert a[j + 1] == t[j];
      }
      InsertKeepsKeysDistinct(a[0], st, cmp);
    }
  }

  /**
   * A sort moves whole entries: every key keeps its value, no entry is lost or
   * duplicated, and the keys stay distinct.
   */
  lemma {:induction false} SortKeepsArray(a: seq<Entry>, cmp: (Entry, Entry) -> int)
    requires WellFormed(a)
    ensures multiset(InsertionSort(a, cmp)) == multiset(a)
    ensures WellFormed(InsertionSort(a, cmp))
    ensures forall n :: IntKeysBelow(a, n) ==> IntKeysBelow(InsertionSort(a, cmp), n)
  {
    SortKeepsKeysDistinct(a, cmp);
    SortMembers(a, cmp);
    var r := InsertionSort(a, cmp);
    forall i | 0 <= i < |r| ensures IsArrayKey(r[i].key) {
      assert r[i] in a;
    }
    forall n | IntKeysBelow(a, n) ensures IntKeysBelow(r, n) {
      forall i | 0 <= i < |r| && r[i].key.IntKey? ensures r[i].key.i < n {
        assert r[i] in a;
      }
    }
  }

  lemma {:induction false} EntryOrders(cmp: (Value, Value) -> int)
    requires TotalPreorder(cmp)
    ensures TotalPreorder(ByValue(cmp)) && TotalPreorder(ByKey(cmp))
  {
    var bv := ByValue(cmp);
    var bk := ByKey(cmp);
    forall x: Entry, y: Entry
      ensures bv(x, y) <= 0 || bv(y, x) <= 0
      ensures bk(x, y) <= 0 || bk(y, x) <= 0
    {
      assert cmp(x.value, y.value) <= 0 || cmp(y.value, x.value) <= 0;
      assert cmp(KeyAsValue(x.key), KeyAsValue(y.key)) <= 0 || cmp(KeyAsValue(y.key), KeyAsValue(x.key)) <= 0;
    }
    forall x: Entry, y: Entry, z: Entry
      ensures bv(x, y) <= 0 && bv(y, z) <= 0 ==> bv(x, z) <= 0
      ensures bk(x, y) <= 0 && bk(y, z) <= 0 ==> bk(x, z) <= 0
    {
      if cmp(x.value, y.value) <= 0 && cmp(y.value, z.value) <= 0 {
        assert cmp(x.value, z.value) <= 0;
      }
      var kx, ky, kz := KeyAsValue(x.key), KeyAsValue(y.key), KeyAsValue(z.key);
      if cmp(kx, ky) <= 0 && cmp(ky, kz) <= 0 {
        assert cmp(kx, kz) <= 0;
      }
    }
  }

  /** With a comparator that is a total preorder, the result is in order. */
  lemma {:induction false} SortOrders(a: seq<Entry>, cmp: (Value, Value) -> int)
    requires TotalPreorder(cmp)
    ensures Sorted(InsertionSort(a, ByValue(cmp)), ByValue(cmp))
    ensures Sorted(InsertionSort(a, ByKey(cmp)), ByKey(cmp))
  {
    EntryOrders(cmp);
    InsertionSortSorted(a, ByValue(cmp));
    InsertionSortSorted(a, ByKey(cmp));
  }
}

/**
 * `Collection`, `ImmutableCollection` and the typed collections built on them.
 *
 * The library's subclasses differ from `Collection` only in the hooks they
 * override, so one Dafny class stands for all of them:
 *  - `kind` is the class's `validateElement` (Int, Float, String, Object with
 *    its `allowedInstance()`, or none for `Collection` itself);
 *  - `immutable` says the class extends `ImmutableCollection`, whose seven
 *    mutators throw before doing anything;
 *  - `className` is `static::class`, used in messages and by `instanceof static`.
 * `nextFree` is the counter PHP keeps inside every array for `$array[] = ...`.
 */
module Collections {
  import opened Wrappers
  import opened PhpValues
  import opened PhpArrays
  import opened Sorting
  import opened Exceptions
  import opened ElementTypes

  /**
   * The argument of `merge`: an array, an object (with what its `toArray()`
   * returns, which matters only when it is a collection of the merging class),
   * or any other value.
   */
  datatype MergeInput =
    | ArrayInput(entries: seq<Entry>)
    | ObjectInput(cls: string, entries: seq<Entry>)
    | OtherInput

  predicate InputWellFormed(input: MergeInput)
  {
    !input.OtherInput? ==> WellFormed(input.entries)
  }

  /**
   * The array `merge` folds in: the other collection's elements when the input is
   * an instance of the merging class, the input itself when it is an array, and
   * nothing (an error) otherwise.
   */
  function MergeSource(input: MergeInput, cls: string, isA: SubtypeRelation): (r: Option<seq<Entry>>)
    ensures r.None? <==> input.OtherInput? || (input.ObjectInput? && !isA(input.cls, cls))
    ensures r.Some? ==> r.value == input.entries
  {
    match input
    case ObjectInput(c, es) => if isA(c, cls) then Some(es) else None
    case ArrayInput(es) => Some(es)
    case OtherInput => None
  }

  const ArrayAccess := "ArrayAccess"

  /** What `setIteratorClass` throws for a class that does not implement ArrayAccess. */
  const IteratorClassError: Error := InvalidArgument("Iterator class must implement \"ArrayAccess\".")

  /** Dropping entries from a valid array keeps it valid. */
  lemma {:induction false} SubArrayValid(kind: ElementKind, isA: SubtypeRelation, a: seq<Entry>, sub: seq<Entry>, n: int)
    requires WellFormed(a) && AllAccepted(kind, isA, a) && IntKeysBelow(a, n)
    requires DistinctKeys(sub) && forall e :: e in sub ==> e in a
    ensures WellFormed(sub) && AllAccepted(kind, isA, sub) && IntKeysBelow(sub, n)
  {
    AllValuesSubset(Acceptor(kind, isA), a, sub);
    forall i | 0 <= i < |sub|
      ensures IsArrayKey(sub[i].key) && (sub[i].key.IntKey? ==> sub[i].key.i < n)
    {
      assert sub[i] in sub;
      var j :| 0 <= j < |a| && a[j] == sub[i];
    }
  }

  class Collection {
    var elements: seq<Entry>
    var nextFree: nat
    var iteratorClass: string
    const className: string
    const kind: ElementKind
    const immutable: bool
    const isA: SubtypeRelation

    /**
     * The class invariant: the elements form a PHP array, every element passed
     * the class's check, the counter is past every integer key, and the iterator
     * class implements ArrayAccess.
     */
    ghost predicate Valid()
      reads this
    {
      && WellFormed(elements)
      && AllAccepted(kind, isA, elements)
      && IntKeysBelow(elements, nextFree)
      && isA(iteratorClass, ArrayAccess)
    }

    /** Allocates an empty object of the given class; `New` then runs the PHP constructor. */
    constructor Init(className: string, kind: ElementKind, immutable: bool, isA: SubtypeRelation)
      ensures this.className == className && this.kind == kind
      ensures this.immutable == immutable && this.isA == isA
      ensures elements == [] && nextFree == 0 && iteratorClass == ""
    {
      this.className := className;
      this.kind := kind;
      this.immutable := immutable;
      this.isA := isA;
      elements := [];
      nextFree := 0;
      iteratorClass := "";
    }

    /**
     * `new static($elements, $iteratorClass)`: validates every element, stores
     * the array, then sets the iterator class; the first failure is thrown.
     */
    static method New(className: string, kind: ElementKind, immutable: bool, isA: SubtypeRelation,
                      es: seq<Entry>, iteratorClass: string) returns (r: Result<Collection, Error>)
      requires WellFormed(es)
      ensures var err := FirstRejection(kind, className, isA, es);
        && (err.Some? ==> r == Failure(err.value))
        && (err.None? && !isA(iteratorClass, ArrayAccess) ==> r == Failure(IteratorClassError))
        && (err.None? && isA(iteratorClass, ArrayAccess) ==> r.Success?)
      ensures r.Success? ==>
        && fresh(r.value) && r.value.Valid()
        && r.value.elements == es && r.value.nextFree == NextFreeAfter(es)
        && r.value.iteratorClass == iteratorClass
        && r.value.className == className && r.value.kind == kind
        && r.value.immutable == immutable && r.value.isA == isA
    {
      var c := new Collection.Init(className, kind, immutable, isA);
      var err := c.ValidateElements(es);
      if err.Some? {
        return Failure(err.value);
      }
      c.elements := es;
      c.nextFree := NextFreeAfter(es);
      var o := c.SetIteratorClass(iteratorClass);
      if o.Fail? {
        return Failure(o.error);
      }
      r := Success(c);
    }

    /** `validateElements`: checks the values in array order and reports the first rejection. */
    method ValidateElements(es: seq<Entry>) returns (r: Option<Error>)
      ensures r == FirstRejection(kind, className, isA, es)
      ensures r.None? <==> AllAccepted(kind, isA, es)
    {
      var i := 0;
      while i < |es|
        invariant 0 <= i <= |es|
        invariant FirstRejection(kind, className, isA, es) == FirstError(Validator(kind, className, isA), es[i..])
      {
        var e := ValidateElement(kind, className, isA, es[i].value);
        FirstErrorStep(Validator(kind, className, isA), es, i);
        if e.Some? {
          return e;
        }
        i := i + 1;
      }
      assert es[i..] == [];
      return None;
    }

    /** `setIteratorClass`; immutable collections do not override it. */
    method SetIteratorClass(cls: string) returns (o: Outcome<Error>)
      modifies this
      ensures isA(cls, ArrayAccess) ==> o == Pass && iteratorClass == cls
      ensures !isA(cls, ArrayAccess) ==> o == Fail(IteratorClassError) && iteratorClass == old(iteratorClass)
      ensures elements == old(elements) && nextFree == old(nextFree)
    {
      if !isA(cls, ArrayAccess) {
        return Fail(IteratorClassError);
      }
      iteratorClass := cls;
      o := Pass;
    }

    // -------------------------------------------------------------------------
    // Queries

    /** `first()`: the first value, or null when the collection is empty. */
    function First(): (r: Value)
      reads this
      ensures elements == [] ==> r == Null
      ensures elements != [] ==> r == elements[0].value
    {
      FirstValue(elements)
    }

    /**
     * `last()`: the last value, except that `end` returns false for an empty
     * array, so a last value of false also comes back as null.
     */
    function Last(): (r: Value)
      reads this
      ensures r == Null <==> elements == [] || elements[|elements| - 1].value in {Null, Bool(false)}
      ensures r != Null ==> r == elements[|elements| - 1].value
    {
      LastValueOrNull(elements)
    }

    /** `toArray()`: the stored array, which is always a valid array of accepted values. */
    function ToArray(): (r: seq<Entry>)
      reads this
      requires Valid()
      ensures WellFormed(r) && AllAccepted(kind, isA, r)
      ensures |r| == Count()
    {
      elements
    }

    /** `count()` */
    function Count(): (n: nat)
      reads this
      ensures n == 0 <==> elements == []
      ensures n == |Values(elements)|
    {
      |elements|
    }

    /** `isEmpty()`: whether `count()` is zero. */
    function IsEmpty(): (r: bool)
      reads this
      ensures r <==> Count() == 0
    {
      0 == Count()
    }

    /** `contains()`: `in_array` with strict comparison. */
    function Contains(v: Value): (r: bool)
      reads this
      ensures r <==> exists i :: 0 <= i < |elements| && elements[i].value == v
    {
      FindValue(elements, v).Some?
    }

    /** `getKeys()`: the keys in order; each is a key of the collection. */
    function GetKeys(): (r: seq<Key>)
      reads this
      requires Valid()
      ensures |r| == |elements|
      ensures forall i :: 0 <= i < |r| ==> r[i] == elements[i].key && OffsetExists(r[i])
    {
      Keys(elements)
    }

    /** `getValues()`: the values in order, renumbered from 0. */
    function GetValues(): (r: seq<Entry>)
      reads this
      ensures r == ListOf(Values(elements))
      ensures |r| == |elements| && forall i :: 0 <= i < |r| ==> r[i] == Entry(IntKey(i), elements[i].value)
    {
      ListOf(Values(elements))
    }

    /** `offsetExists()`: `isset` or `array_key_exists`, which together ask only whether the key is present. */
    function OffsetExists(offset: Key): (r: bool)
      reads this
      ensures r <==> HasKey(elements, NormalizeKey(offset))
    {
      var k := NormalizeKey(offset);
      IsSet(elements, k) || HasKey(elements, k)
    }

    /** `offsetGet()`: the value under the key, or null when there is none. */
    function OffsetGet(offset: Key): (r: Value)
      reads this
      requires Valid()
      ensures !HasKey(elements, NormalizeKey(offset)) ==> r == Null
      ensures forall i :: 0 <= i < |elements| && elements[i].key == NormalizeKey(offset) ==> r == elements[i].value
    {
      match Get(elements, NormalizeKey(offset))
      case Some(v) => v
      case None => Null
    }

    /** `map()`: `array_map` over one array keeps the keys. */
    function Map(f: Value -> Value): (r: seq<Entry>)
      reads this
      ensures |r| == |elements|
      ensures forall i :: 0 <= i < |r| ==> r[i] == Entry(elements[i].key, f(elements[i].value))
    {
      MapValues(elements, f)
    }

    /**
     * `getOneOrNullBy()`: more than one match is an error; otherwise the single
     * match, or null when nothing matched.
     */
    function GetOneOrNullBy(f: (Value, Key) -> bool): (r: Result<Value, Error>)
      reads this
      requires Valid()
      ensures r.Failure? <==> exists i, j :: 0 <= i < j < |elements| && f(elements[i].value, elements[i].key) && f(elements[j].value, elements[j].key)
      ensures r.Failure? ==> r.error == MultipleResultsError
      ensures (forall i :: 0 <= i < |elements| ==> !f(elements[i].value, elements[i].key)) ==> r == Success(Null)
      ensures forall i :: 0 <= i < |elements| && f(elements[i].value, elements[i].key) && r.Success? ==> r == Success(elements[i].value)
    {
      OneOrNullMeaning(elements, f, MultipleResultsError, NoResultsError);
      OneOrNull(FilterEntries(elements, f), MultipleResultsError)
    }

    /** `getOneBy()`: as `getOneOrNullBy()`, with a null result turned into an error. */
    function GetOneBy(f: (Value, Key) -> bool): (r: Result<Value, Error>)
      reads this
      requires Valid()
      ensures r == Failure(MultipleResultsError) <==> exists i, j :: 0 <= i < j < |elements| && f(elements[i].value, elements[i].key) && f(elements[j].value, elements[j].key)
      ensures (forall i :: 0 <= i < |elements| ==> !f(elements[i].value, elements[i].key)) ==> r == Failure(NoResultsError)
      ensures r.Success? ==> exists i :: 0 <= i < |elements| && f(elements[i].value, elements[i].key) && r.value == elements[i].value
                               && r.value != Null && forall j :: 0 <= j < |elements| && j != i ==> !f(elements[j].value, elements[j].key)
      ensures forall i :: 0 <= i < |elements| && f(elements[i].value, elements[i].key) &&
                        (forall j :: 0 <= j < |elements| && j != i ==> !f(elements[j].value, elements[j].key))
                ==> r == (if elements[i].value == Null then Failure(NoResultsError) else Success(elements[i].value))
    {
      OneOrNullMeaning(elements, f, MultipleResultsError, NoResultsError);
      ExactlyOne(FilterEntries(elements, f), MultipleResultsError, NoResultsError)
    }

    // -------------------------------------------------------------------------
    // Operations that build a new collection

    /**
     * `filter()`: the entries the callback accepts, keys kept, in a new collection
     * of the same class. The new collection validates its elements again; they
     * were all accepted before, so that never fails.
     */
    method Filter(f: (Value, Key) -> bool) returns (r: Result<Collection, Error>)
      requires Valid()
      ensures r.Success? && fresh(r.value) && r.value.Valid()
      ensures r.value.elements == FilterEntries(elements, f)
      ensures r.value.className == className && r.value.kind == kind && r.value.immutable == immutable
      ensures r.value.isA == isA && r.value.iteratorClass == iteratorClass
    {
      var kept := FilterEntries(elements, f);
      SubArrayValid(kind, isA, elements, kept, nextFree);
      r := New(className, kind, immutable, isA, kept, iteratorClass);
    }

    /** `copy()`: `clone $this`, a new object with the same state. */
    method Copy() returns (c: Collection)
      requires Valid()
      ensures fresh(c) && c.Valid()
      ensures c.elements == elements && c.nextFree == nextFree && c.iteratorClass == iteratorClass
      ensures c.className == className && c.kind == kind && c.immutable == immutable && c.isA == isA
    {
      c := new Collection.Init(className, kind, immutable, isA);
      c.elements := elements;
      c.nextFree := nextFree;
      c.iteratorClass := iteratorClass;
    }

    // -------------------------------------------------------------------------
    // Mutators; on an immutable collection each one throws and changes nothing

    /**
     * What each mutator `ImmutableCollection` overrides does first: an immutable
     * collection refuses with `BadMethodCallException::immutable()`, a mutable one
     * goes on.
     */
    method Guard() returns (refusal: Option<Error>)
      ensures refusal.Some? <==> immutable
      ensures refusal.Some? ==> refusal.value == ImmutableError
    {
      refusal := if immutable then Some(ImmutableError) else None;
    }

    /** `append()`: validates, then stores the value under the next free integer key. */
    method Append(v: Value) returns (o: Outcome<Error>)
      requires Valid()
      modifies this
      ensures Valid()
      ensures immutable ==> o == Fail(ImmutableError) && unchanged(this)
      ensures !immutable ==> (o == Pass <==> Accepts(kind, isA, v))
      ensures !immutable && o.Fail? ==> Some(o.error) == ValidateElement(kind, className, isA, v) && unchanged(this)
      ensures !immutable && o == Pass ==>
        && !HasKey(old(elements), IntKey(old(nextFree)))
        && elements == old(elements) + [Entry(IntKey(old(nextFree)), v)]
        && nextFree == old(nextFree) + 1 && iteratorClass == old(iteratorClass)
    {
      var refusal := Guard();
      if refusal.Some? {
        return Fail(refusal.value);
      }
      var err := ValidateElement(kind, className, isA, v);
      if err.Some? {
        return Fail(err.value);
      }
      PushNext(v);
      o := Pass;
    }

    /** `$this->elements[] = $v` for an accepted value. */
    method PushNext(v: Value)
      requires Valid() && Accepts(kind, isA, v)
      modifies this
      ensures Valid()
      ensures !HasKey(old(elements), IntKey(old(nextFree)))
      ensures elements == old(elements) + [Entry(IntKey(old(nextFree)), v)]
      ensures nextFree == old(nextFree) + 1 && iteratorClass == old(iteratorClass)
    {
      AppendFresh(elements, nextFree, v);
      elements := elements + [Entry(IntKey(nextFree), v)];
      nextFree := nextFree + 1;
    }

    /**
     * `offsetSet()`: validates, then appends for a null offset or assigns under
     * the offset cast to a key; an integer key at or past the counter moves it.
     */
    method OffsetSet(offset: Option<Key>, v: Value) returns (o: Outcome<Error>)
      requires Valid()
      modifies this
      ensures Valid()
      ensures immutable ==> o == Fail(ImmutableError) && unchanged(this)
      ensures !immutable ==> (o == Pass <==> Accepts(kind, isA, v))
      ensures !immutable && o.Fail? ==> Some(o.error) == ValidateElement(kind, className, isA, v) && unchanged(this)
      ensures !immutable && o == Pass && offset.None? ==>
        && elements == old(elements) + [Entry(IntKey(old(nextFree)), v)]
        && nextFree == old(nextFree) + 1
      ensures !immutable && o == Pass && offset.Some? ==>
        var k := NormalizeKey(offset.value);
        && elements == Put(old(elements), k, v)
        && Get(elements, k) == Some(v)
        && nextFree == CounterAfterSet(old(nextFree), k)
      ensures !immutable && o == Pass ==> iteratorClass == old(iteratorClass)
    {
      var refusal := Guard();
      if refusal.Some? {
        return Fail(refusal.value);
      }
      var err := ValidateElement(kind, className, isA, v);
      if err.Some? {
        return Fail(err.value);
      }
      if offset.None? {
        PushNext(v);
        return Pass;
      }
      var k := NormalizeKey(offset.value);
      if k.StrKey? {
        KeyTextOfArrayKeyOf(offset.value.s);
      }
      var a := elements;
      var r := Put(a, k, v);
      var n := CounterAfterSet(nextFree, k);
      PutWellFormed(a, k, v);
      PutGet(a, k, v, k);
      PutCounter(a, k, v, nextFree);
      forall i | 0 <= i < |r|
        ensures Accepts(kind, isA, r[i].value)
      {
        assert r[i] in r;
        if r[i] in a {
          var j :| 0 <= j < |a| && a[j] == r[i];
        }
      }
      elements := r;
      nextFree := n;
      o := Pass;
    }

    /** `offsetUnset()`: drops the entry under the offset cast to a key; the counter stays. */
    method OffsetUnset(offset: Key) returns (o: Outcome<Error>)
      requires Valid()
      modifies this
      ensures Valid()
      ensures immutable ==> o == Fail(ImmutableError) && unchanged(this)
      ensures !immutable ==>
        && o == Pass && elements == Unset(old(elements), NormalizeKey(offset))
        && !HasKey(elements, NormalizeKey(offset))
        && nextFree == old(nextFree) && iteratorClass == old(iteratorClass)
    {
      var refusal := Guard();
      if refusal.Some? {
        return Fail(refusal.value);
      }
      var rest := Unset(elements, NormalizeKey(offset));
      SubArrayValid(kind, isA, elements, rest, nextFree);
      elements := rest;
      o := Pass;
    }

    /** `remove()`: unsets the key of the first value identical to `v`, if any. */
    method Remove(v: Value) returns (o: Outcome<Error>)
      requires Valid()
      modifies this
      ensures Valid()
      ensures immutable ==> o == Fail(ImmutableError) && unchanged(this)
      ensures !immutable ==>
        && o == Pass && elements == RemoveFirst(old(elements), v)
        && nextFree == old(nextFree) && iteratorClass == old(iteratorClass)
    {
      var refusal := Guard();
      if refusal.Some? {
        return Fail(refusal.value);
      }
      match FindValue(elements, v)
      case None =>
        return Pass;
      case Some(i) =>
        var k := elements[i].key;
        assert IsArrayKey(k);
        if k.StrKey? {
          KeyTextOfArrayKeyOf(k.s);
        }
        assert NormalizeKey(k) == k;
        ghost var expected := RemoveFirst(elements, v);
        assert expected == Unset(elements, k);
        o := OffsetUnset(k);
    }

    /** `clear()`: a fresh empty array, whose counter starts again at 0. */
    method Clear() returns (o: Outcome<Error>)
      requires Valid()
      modifies this
      ensures Valid()
      ensures immutable ==> o == Fail(ImmutableError) && unchanged(this)
      ensures !immutable ==> o == Pass && elements == [] && nextFree == 0 && iteratorClass == old(iteratorClass)
    {
      var refusal := Guard();
      if refusal.Some? {
        return Fail(refusal.value);
      }
      elements := [];
      nextFree := 0;
      o := Pass;
    }

    /** `exchangeArray()`: validates the whole array, then replaces the elements by it. */
    method ExchangeArray(es: seq<Entry>) returns (o: Outcome<Error>)
      requires Valid() && WellFormed(es)
      modifies this
      ensures Valid()
      ensures immutable ==> o == Fail(ImmutableError) && unchanged(this)
      ensures !immutable ==> (o == Pass <==> AllAccepted(kind, isA, es))
      ensures !immutable && o.Fail? ==> Some(o.error) == FirstRejection(kind, className, isA, es) && unchanged(this)
      ensures !immutable && o == Pass ==>
        elements == es && nextFree == NextFreeAfter(es) && iteratorClass == old(iteratorClass)
    {
      var refusal := Guard();
      if refusal.Some? {
        return Fail(refusal.value);
      }
      var err := ValidateElements(es);
      if err.Some? {
        return Fail(err.value);
      }
      elements := es;
      nextFree := NextFreeAfter(es);
      o := Pass;
    }

    /**
     * `merge()`: accepts an instance of the class or an array, and exchanges
     * the elements for `array_merge` of the two; the merge fails exactly when
     * a value of the merged-in array is rejected.
     */
    method Merge(input: MergeInput) returns (o: Outcome<Error>)
      requires Valid() && InputWellFormed(input)
      modifies this
      ensures Valid()
      ensures immutable ==> o == Fail(ImmutableError) && unchanged(this)
      ensures !immutable && MergeSource(input, className, isA).None? ==>
        o == Fail(MergeRejected(className)) && unchanged(this)
      ensures !immutable && MergeSource(input, className, isA).Some? ==>
        var added := MergeSource(input, className, isA).value;
        var merged := ArrayMerge(old(elements), added);
        && (o == Pass <==> AllAccepted(kind, isA, added))
        && (o.Fail? ==> Some(o.error) == FirstRejection(kind, className, isA, merged) && unchanged(this))
        && (o == Pass ==> elements == merged && nextFree == NextFreeAfter(merged) && iteratorClass == old(iteratorClass))
    {
      var refusal := Guard();
      if refusal.Some? {
        return Fail(refusal.value);
      }
      var source := MergeSource(input, className, isA);
      if source.None? {
        return Fail(MergeRejected(className));
      }
      var merged := ArrayMerge(elements, source.value);
      MergeWellFormed(elements, source.value);
      MergeAllValues(Acceptor(kind, isA), elements, source.value);
      o := ExchangeArray(merged);
    }

    // -------------------------------------------------------------------------
    // Sorting; `ImmutableCollection` does not override these

    /**
     * Stable sort of the entries, keys kept, by the comparator. For a total
     * preorder this is the order PHP's sort gives; for other comparators PHP may
     * order the entries differently.
     */
    method SortBy(cmp: (Entry, Entry) -> int)
      requires Valid()
      modifies this
      ensures Valid()
      ensures elements == InsertionSort(old(elements), cmp)
      ensures multiset(elements) == multiset(old(elements))
      ensures TotalPreorder(cmp) ==> Sorted(elements, cmp)
      ensures nextFree == old(nextFree) && iteratorClass == old(iteratorClass)
    {
      var sorted := InsertionSort(elements, cmp);
      SortKeepsArray(elements, cmp);
      if TotalPreorder(cmp) {
        InsertionSortSorted(elements, cmp);
      }
      forall e | e in sorted
        ensures e in elements
      {
        assert e in multiset(sorted);
      }
      AllValuesSubset(Acceptor(kind, isA), elements, sorted);
      elements := sorted;
    }

    /** `uasort()`: sorts by value with the callback, keeping keys. */
    method Uasort(cmp: (Value, Value) -> int)
      requires Valid()
      modifies this
      ensures Valid()
      ensures elements == InsertionSort(old(elements), ByValue(cmp))
      ensures multiset(elements) == multiset(old(elements))
      ensures TotalPreorder(cmp) ==> Sorted(elements, ByValue(cmp))
      ensures nextFree == old(nextFree) && iteratorClass == old(iteratorClass)
    {
      if TotalPreorder(cmp) {
        EntryOrders(cmp);
      }
      SortBy(ByValue(cmp));
    }

    /** `uksort()`: sorts by key with the callback. */
    method Uksort(cmp: (Value, Value) -> int)
      requires Valid()
      modifies this
      ensures Valid()
      ensures elements == InsertionSort(old(elements), ByKey(cmp))
      ensures multiset(elements) == multiset(old(elements))
      ensures TotalPreorder(cmp) ==> Sorted(elements, ByKey(cmp))
      ensures nextFree == old(nextFree) && iteratorClass == old(iteratorClass)
    {
      if TotalPreorder(cmp) {
        EntryOrders(cmp);
      }
      SortBy(ByKey(cmp));
    }

    /** `asort()`: sorts by value with PHP's standard comparison, given as `order`. */
    method Asort(order: (Value, Value) -> int)
      requires Valid()
      modifies this
      ensures Valid()
      ensures elements == InsertionSort(old(elements), ByValue(order))
      ensures multiset(elements) == multiset(old(elements))
      ensures TotalPreorder(order) ==> Sorted(elements, ByValue(order))
      ensures nextFree == old(nextFree) && iteratorClass == old(iteratorClass)
    {
      Uasort(order);
    }

    /** `ksort()`: sorts by key with PHP's standard comparison, given as `order`. */
    method Ksort(order: (Value, Value) -> int)
      requires Valid()
      modifies this
      ensures Valid()
      ensures elements == InsertionSort(old(elements), ByKey(order))
      ensures multiset(elements) == multiset(old(elements))
      ensures TotalPreorder(order) ==> Sorted(elements, ByKey(order))
      ensures nextFree == old(nextFree) && iteratorClass == old(iteratorClass)
    {
      Uksort(order);
    }

    /** `natsort()`: sorts by value in natural order (`strnatcmp`), given as `order`. */
    method Natsort(order: (Value, Value) -> int)
      requires Valid()
      modifies this
      ensures Valid()
      ensures elements == InsertionSort(old(elements), ByValue(order))
      ensures multiset(elements) == multiset(old(elements))
      ensures TotalPreorder(order) ==> Sorted(elements, ByValue(order))
      ensures nextFree == old(nextFree) && iteratorClass == old(iteratorClass)
    {
      Uasort(order);
    }

    /** `natcasesort()`: as `natsort()`, ignoring case (`strnatcasecmp`), given as `order`. */
    method Natcasesort(order: (Value, Value) -> int)
      requires Valid()
      modifies this
      ensures Valid()
      ensures elements == InsertionSort(old(elements), ByValue(order))
      ensures multiset(elements) == multiset(old(elements))
      ensures TotalPreorder(order) ==> Sorted(elements, ByValue(order))
      ensures nextFree == old(nextFree) && iteratorClass == old(iteratorClass)
    {
      Uasort(order);
    }
  }
}

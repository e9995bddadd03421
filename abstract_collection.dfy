/**
 * `AbstractCollection`, the older base class built on PHP's `ArrayObject`.
 * Its storage is the `ArrayObject`'s array, with the same next-free-key counter
 * as any PHP array. Concrete subclasses supply the abstract `validateValue`
 * hook, which here is the parameter `validateValue`: the exception it throws
 * for a value, if any.
 */
module AbstractCollections {
  import opened Wrappers
  import opened PhpValues
  import opened PhpArrays
  import opened Exceptions
  import opened Collections

  /** The `validateValue` hook of a concrete subclass. */
  type ValueCheck = Value -> Option<Error>

  /** The hook as a property of values: it lets the value through. */
  function Passes(check: ValueCheck): Value -> bool
  {
    (v: Value) => check(v).None?
  }

  class AbstractCollection {
    var storage: seq<Entry>
    var nextFree: nat
    const className: string
    const isA: SubtypeRelation
    const validateValue: ValueCheck

    /** Every stored value passed the hook; the counter is past every integer key. */
    ghost predicate Valid()
      reads this
    {
      && WellFormed(storage)
      && AllValues(Passes(validateValue), storage)
      && IntKeysBelow(storage, nextFree)
    }

    /** `parent::__construct([], ...)`: an empty `ArrayObject`. */
    constructor Init(className: string, isA: SubtypeRelation, validateValue: ValueCheck)
      ensures this.className == className && this.isA == isA && this.validateValue == validateValue
      ensures storage == [] && nextFree == 0
    {
      this.className := className;
      this.isA := isA;
      this.validateValue := validateValue;
      storage := [];
      nextFree := 0;
    }

    /**
     * `new static($elements)`: starts empty and calls `offsetSet($key, $element)`
     * for each entry, so the first value the hook rejects aborts construction.
     */
    static method New(className: string, isA: SubtypeRelation, validateValue: ValueCheck, es: seq<Entry>)
      returns (r: Result<AbstractCollection, Error>)
      requires WellFormed(es)
      ensures FirstError(validateValue, es).Some? ==> r == Failure(FirstError(validateValue, es).value)
      ensures FirstError(validateValue, es).None? ==>
        && r.Success? && fresh(r.value) && r.value.Valid()
        && r.value.storage == es && r.value.nextFree == NextFreeAfter(es)
        && r.value.className == className && r.value.isA == isA && r.value.validateValue == validateValue
    {
      var c := new AbstractCollection.Init(className, isA, validateValue);
      var i := 0;
      while i < |es|
        invariant 0 <= i <= |es|
        invariant c.className == className && c.isA == isA && c.validateValue == validateValue
        invariant c.Valid() && c.storage == es[..i] && c.nextFree == NextFreeAfter(es[..i])
        invariant FirstError(validateValue, es) == FirstError(validateValue, es[i..])
      {
        var e := es[i];
        FirstErrorStep(validateValue, es, i);
        PutNextEntry(es, i);
        var o := c.OffsetSet(Some(e.key), e.value);
        if o.Fail? {
          return Failure(o.error);
        }
        i := i + 1;
      }
      assert es[..i] == es;
      r := Success(c);
    }

    /** `validateArray()`: runs the hook over the values in array order. */
    method ValidateArray(es: seq<Entry>) returns (r: Option<Error>)
      ensures r == FirstError(validateValue, es)
      ensures r.None? <==> AllValues(Passes(validateValue), es)
    {
      var i := 0;
      while i < |es|
        invariant 0 <= i <= |es|
        invariant FirstError(validateValue, es) == FirstError(validateValue, es[i..])
      {
        var e := validateValue(es[i].value);
        FirstErrorStep(validateValue, es, i);
        if e.Some? {
          return e;
        }
        i := i + 1;
      }
      assert es[i..] == [];
      return None;
    }

    /**
     * `offsetSet()`: the hook first, then `ArrayObject::offsetSet`, which appends
     * for a null index and otherwise assigns under the index cast to a key.
     */
    method OffsetSet(index: Option<Key>, v: Value) returns (o: Outcome<Error>)
      requires Valid()
      modifies this
      ensures Valid()
      ensures o.Fail? <==> validateValue(v).Some?
      ensures o.Fail? ==> Some(o.error) == validateValue(v) && unchanged(this)
      ensures o == Pass && index.None? ==>
        && !HasKey(old(storage), IntKey(old(nextFree)))
        && storage == old(storage) + [Entry(IntKey(old(nextFree)), v)]
        && nextFree == old(nextFree) + 1
      ensures o == Pass && index.Some? ==>
        var k := NormalizeKey(index.value);
        && storage == Put(old(storage), k, v)
        && Get(storage, k) == Some(v)
        && nextFree == CounterAfterSet(old(nextFree), k)
    {
      var err := validateValue(v);
      if err.Some? {
        return Fail(err.value);
      }
      var a := storage;
      if index.None? {
        AppendFresh(a, nextFree, v);
        storage := a + [Entry(IntKey(nextFree), v)];
        nextFree := nextFree + 1;
        return Pass;
      }
      var k := NormalizeKey(index.value);
      if k.StrKey? {
        KeyTextOfArrayKeyOf(index.value.s);
      }
      var r := Put(a, k, v);
      PutWellFormed(a, k, v);
      PutGet(a, k, v, k);
      PutCounter(a, k, v, nextFree);
      forall i | 0 <= i < |r|
        ensures validateValue(r[i].value).None?
      {
        assert r[i] in r;
        if r[i] in a {
          var j :| 0 <= j < |a| && a[j] == r[i];
        }
      }
      storage := r;
      nextFree := CounterAfterSet(nextFree, k);
      o := Pass;
    }

    /** `ArrayObject::offsetUnset()`, which `remove()` relies on. */
    method OffsetUnset(index: Key)
      requires Valid()
      modifies this
      ensures Valid()
      ensures storage == Unset(old(storage), NormalizeKey(index)) && !HasKey(storage, NormalizeKey(index))
      ensures nextFree == old(nextFree)
    {
      var rest := Unset(storage, NormalizeKey(index));
      AllValuesSubset(Passes(validateValue), storage, rest);
      forall i | 0 <= i < |rest|
        ensures IsArrayKey(rest[i].key) && (rest[i].key.IntKey? ==> rest[i].key.i < nextFree)
      {
        assert rest[i] in rest;
        var j :| 0 <= j < |storage| && storage[j] == rest[i];
      }
      storage := rest;
    }

    /** `exchangeArray()`: the whole array goes through the hook before it replaces the storage. */
    method ExchangeArray(es: seq<Entry>) returns (o: Outcome<Error>)
      requires Valid() && WellFormed(es)
      modifies this
      ensures Valid()
      ensures o == Pass <==> AllValues(Passes(validateValue), es)
      ensures o.Fail? ==> Some(o.error) == FirstError(validateValue, es) && unchanged(this)
      ensures o == Pass ==> storage == es && nextFree == NextFreeAfter(es)
    {
      var err := ValidateArray(es);
      if err.Some? {
        return Fail(err.value);
      }
      storage := es;
      nextFree := NextFreeAfter(es);
      o := Pass;
    }

    /** `toArray()`: `getArrayCopy()`, a valid array whose values all pass the hook. */
    function ToArray(): (r: seq<Entry>)
      reads this
      requires Valid()
      ensures WellFormed(r) && AllValues(Passes(validateValue), r)
    {
      storage
    }

    /**
     * `merge()`: an array first, then an instance of the class; anything else is
     * rejected. The merged array goes through `exchangeArray()`, which fails
     * exactly when a value of the merged-in array fails the hook.
     */
    method Merge(input: MergeInput) returns (o: Outcome<Error>)
      requires Valid() && InputWellFormed(input)
      modifies this
      ensures Valid()
      ensures MergeSource(input, className, isA).None? ==> o == Fail(MergeRejected(className)) && unchanged(this)
      ensures MergeSource(input, className, isA).Some? ==>
        var added := MergeSource(input, className, isA).value;
        var merged := ArrayMerge(old(storage), added);
        && (o == Pass <==> AllValues(Passes(validateValue), added))
        && (o.Fail? ==> Some(o.error) == FirstError(validateValue, merged) && unchanged(this))
        && (o == Pass ==> storage == merged && nextFree == NextFreeAfter(merged))
    {
      var added: seq<Entry>;
      if input.ArrayInput? {
        added := input.entries;
      } else if input.ObjectInput? && isA(input.cls, className) {
        added := input.entries;
      } else {
        return Fail(MergeRejected(className));
      }
      var merged := ArrayMerge(storage, added);
      MergeWellFormed(storage, added);
      MergeAllValues(Passes(validateValue), storage, added);
      o := ExchangeArray(merged);
    }

    /** `first()`: the first value, or null when empty. */
    function First(): (r: Value)
      reads this
      ensures storage == [] ==> r == Null
      ensures storage != [] ==> r == storage[0].value
    {
      FirstValue(storage)
    }

    /** `last()`: the last value; an empty storage and a last value of false both give null. */
    function Last(): (r: Value)
      reads this
      ensures r == Null <==> storage == [] || storage[|storage| - 1].value in {Null, Bool(false)}
      ensures r != Null ==> r == storage[|storage| - 1].value
    {
      LastValueOrNull(storage)
    }

    /** `remove()`: unsets the key of the first value identical to `v`, if any. */
    method Remove(v: Value)
      requires Valid()
      modifies this
      ensures Valid()
      ensures storage == RemoveFirst(old(storage), v) && nextFree == old(nextFree)
    {
      match FindValue(storage, v)
      case None =>
      case Some(i) =>
        var k := storage[i].key;
        assert IsArrayKey(k);
        if k.StrKey? {
          KeyTextOfArrayKeyOf(k.s);
        }
        OffsetUnset(k);
    }

    /** `map()`: `array_map` over the copy keeps the keys. */
    function Map(f: Value -> Value): (r: seq<Entry>)
      reads this
      ensures |r| == |storage|
      ensures forall i :: 0 <= i < |r| ==> r[i] == Entry(storage[i].key, f(storage[i].value))
    {
      MapValues(storage, f)
    }

    /**
     * `filter()`: a new collection of the class from the accepted entries. Its
     * constructor sends each value through the hook again; they all passed
     * before, so that never fails.
     */
    method Filter(f: (Value, Key) -> bool) returns (r: Result<AbstractCollection, Error>)
      requires Valid()
      ensures r.Success? && fresh(r.value) && r.value.Valid()
      ensures r.value.storage == FilterEntries(storage, f)
      ensures r.value.className == className && r.value.isA == isA && r.value.validateValue == validateValue
    {
      var kept := FilterEntries(storage, f);
      AllValuesSubset(Passes(validateValue), storage, kept);
      forall i | 0 <= i < |kept|
        ensures IsArrayKey(kept[i].key)
      {
        assert kept[i] in kept;
        var j :| 0 <= j < |storage| && storage[j] == kept[i];
      }
      r := New(className, isA, validateValue, kept);
    }

    /**
     * `getOneOrNullBy()`: more than one match throws the `LogicException` naming
     * the class; otherwise the single match, or null.
     */
    function GetOneOrNullBy(f: (Value, Key) -> bool): (r: Result<Value, Error>)
      reads this
      requires Valid()
      ensures r.Failure? <==> exists i, j :: 0 <= i < j < |storage| && f(storage[i].value, storage[i].key) && f(storage[j].value, storage[j].key)
      ensures r.Failure? ==> r.error == OneOrNullResultExpected(className)
      ensures (forall i :: 0 <= i < |storage| ==> !f(storage[i].value, storage[i].key)) ==> r == Success(Null)
      ensures forall i :: 0 <= i < |storage| && f(storage[i].value, storage[i].key) && r.Success? ==> r == Success(storage[i].value)
    {
      var multiple := OneOrNullResultExpected(className);
      var none := OneResultExpected(className);
      LogicMessagesDiffer(className);
      OneOrNullMeaning(storage, f, multiple, none);
      OneOrNull(FilterEntries(storage, f), multiple)
    }

    /** `getOneBy()`: as `getOneOrNullBy()`, with a null result turned into the other `LogicException`. */
    function GetOneBy(f: (Value, Key) -> bool): (r: Result<Value, Error>)
      reads this
      requires Valid()
      ensures r == Failure(OneOrNullResultExpected(className)) <==>
        exists i, j :: 0 <= i < j < |storage| && f(storage[i].value, storage[i].key) && f(storage[j].value, storage[j].key)
      ensures (forall i :: 0 <= i < |storage| ==> !f(storage[i].value, storage[i].key)) ==> r == Failure(OneResultExpected(className))
      ensures r.Success? ==> exists i :: 0 <= i < |storage| && f(storage[i].value, storage[i].key) && r.value == storage[i].value
                               && r.value != Null && forall j :: 0 <= j < |storage| && j != i ==> !f(storage[j].value, storage[j].key)
      ensures forall i :: 0 <= i < |storage| && f(storage[i].value, storage[i].key) &&
                        (forall j :: 0 <= j < |storage| && j != i ==> !f(storage[j].value, storage[j].key))
                ==> r == (if storage[i].value == Null then Failure(OneResultExpected(className)) else Success(storage[i].value))
    {
      var multiple := OneOrNullResultExpected(className);
      var none := OneResultExpected(className);
      LogicMessagesDiffer(className);
      OneOrNullMeaning(storage, f, multiple, none);
      ExactlyOne(FilterEntries(storage, f), multiple, none)
    }
  }
}

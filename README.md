# aeviiq/collection in Dafny

A model of the PHP library aeviiq/collection: typed, optionally immutable
collections stored in a PHP array, plus two helpers that turn array keys into
valid property names. Each operation is modelled as the library writes it, and
its contract states what the library promises.

The modules follow the library's structure:

- `PhpValues` (`php_values.dfy`): the PHP values the collections hold, `gettype`,
  the decimal text of integers, and PHP's cast of a string offset to an array key
  (`"12"` becomes the integer key 12, `"012"` stays a string).
- `PhpArrays` (`php_arrays.dfy`): a PHP array as an ordered sequence of entries,
  and the built-ins the library calls on it. Assignment, `unset`, `isset`,
  `array_search`, `array_filter`, `array_map`, `array_merge`, `end`/`array_shift`,
  sorting by a comparator, and the next-free-key counter behind `$a[] = ...`.
- `Sorting` (`sorting.dfy`): the stable sort the `*sort` methods perform, with
  the comparator as a parameter.
- `Exceptions` (`exceptions.dfy`): the library's exception factories, building
  their messages the way their `sprintf` formats do.
- `ElementTypes` (`element_types.dfy`): the `validateElement` hook of each
  typed collection (int, float, string, object with `allowedInstance()`).
  `ImmutableIntCollection`, `ImmutableFloatCollection`,
  `ImmutableStringCollection` and `ImmutableObjectCollection` repeat the hook
  of their mutable counterpart, so they are the same kind with the
  `immutable` flag set.
- `Collections` (`collection.dfy`): the class `Collection`. Its fields are the
  ones the PHP class keeps: the elements, the array's next-free-key counter and
  the iterator class. `ImmutableCollection` and the typed subclasses are the same
  class with a different `kind` and `immutable` flag. The seven mutators of an
  immutable collection throw `BadMethodCallException::immutable()` before doing
  anything.
- `AbstractCollections` (`abstract_collection.dfy`): the class
  `AbstractCollection`, built on `ArrayObject`, with the abstract
  `validateValue` hook as a parameter.
- `FreeNames` (`free_names.dfy`): the least free `prefix . m` that both key
  helpers search for, and why their loops stop.
- `PropertyNames` (`property_names.dfy`): `IndexToPropertyName::forSingle` and
  `forMultiple`.
- `IndexGenerator` (`index_generator.dfy`): `IndexGenerator::createValidIndex`
  and `createUniqueValidIndexesForArray`, including PHP's `is_numeric`.

Methods that change an object are methods of a Dafny class with `modifies`
clauses. The loops of the source (`validateElements`, the `AbstractCollection`
constructor, the probing loops of both key helpers, the `foreach` loops of
`forMultiple` and `createUniqueValidIndexesForArray`) are `while` loops. Each
loop is proved against a recursive function that states its result. Exceptions
are returned as `Failure`/`Fail` values; a method that fails leaves the object
unchanged.

## Model

| member | source | states |
|---|---|---|
| Collections.Collection.New | src/Collection.php:42-49 | The first element the class rejects, in array order, is thrown. Otherwise a non-ArrayAccess iterator class is rejected. Otherwise the result is a fresh valid collection holding exactly the given array, with its counter past every integer key. |
| Collections.Collection.ValidateElements | src/Collection.php:377-382 | Returns the error of the first rejected value in array order; no error exactly when every value is accepted. |
| Collections.Collection.SetIteratorClass | src/Collection.php:222-229 | Succeeds exactly for a class that is an ArrayAccess; otherwise returns the "must implement ArrayAccess" error and keeps the old class; the elements never change. |
| Collections.Collection.First | src/Collection.php:54-58 | Null for an empty collection, otherwise the first value. |
| Collections.Collection.Last | src/Collection.php:63-72 | Null exactly when the collection is empty or its last value is null or false; otherwise the last value. |
| Collections.Collection.ToArray | src/Collection.php:94-97 | The stored array: well-formed, every value accepted by the class, `count()` entries. |
| Collections.Collection.Count | src/Collection.php:284-287 | The number of values; zero exactly when empty. |
| Collections.Collection.IsEmpty | src/Collection.php:131-134 | True exactly when `count()` is zero. |
| Collections.Collection.Contains | src/Collection.php:139-142 | True exactly when some element is identical (`===`) to the value. |
| Collections.Collection.GetKeys | src/Collection.php:155-162 | The keys in order, one per element, each reported present by `offsetExists`. |
| Collections.Collection.GetValues | src/Collection.php:167-170 | The values in order, renumbered under the keys 0, 1, ... |
| Collections.Collection.OffsetExists | src/Collection.php:243-246 | True exactly when the offset, cast to a key, is present, also when its value is null. |
| Collections.Collection.OffsetGet | src/Collection.php:251-255 | The value under the offset cast to a key; null when the key is absent. |
| Collections.Collection.Map | src/Collection.php:102-105 | Same keys in the same order, each value passed through the callback. |
| Collections.Collection.GetOneOrNullBy | src/Collection.php:188-197 | Throws "Multiple results found" exactly when two distinct elements match; null when none match; otherwise the matching value. |
| Collections.Collection.GetOneBy | src/Collection.php:175-183 | Throws the multiple-results error exactly when two elements match, and "No results found" when none match. A unique match holding null also gives "No results found". A unique match holding any other value is returned. Any success is a unique non-null match. |
| Collections.Collection.Filter | src/Collection.php:110-113 | A new valid collection of the same class and iterator class, holding exactly the matching entries with their keys. |
| Collections.Collection.Copy | src/Collection.php:292-295 | A fresh object with the same elements, counter, iterator class and class. |
| Collections.Collection.Append | src/Collection.php:234-238 | Succeeds exactly for an accepted value, otherwise returns that value's `validateElement` error and changes nothing. On success the value is stored under the counter's key, which was free, and the counter moves up by one. |
| Collections.Collection.PushNext | src/Collection.php:237 | `$elements[] = $v`: the counter's key is free, the entry is appended under it, the counter moves up by one and the invariant holds. |
| Collections.Collection.OffsetSet | src/Collection.php:260-271 | Rejected values return their error and change nothing. A null offset appends under the counter. Any other offset assigns under the offset cast to a key, which then reads the value. An integer key at or past the counter moves the counter past it. |
| Collections.Collection.OffsetUnset | src/Collection.php:276-279 | The key cast from the offset is gone, every other entry stays in order, the counter is kept. |
| Collections.Collection.Remove | src/Collection.php:77-89 | Unsets the key of the first value identical to the argument, if any; the counter is kept. |
| Collections.Collection.Clear | src/Collection.php:147-150 | A new empty array, whose counter starts again at 0. |
| Collections.Collection.ExchangeArray | src/Collection.php:202-206 | Succeeds exactly when every value is accepted, otherwise throws the first rejection and changes nothing; on success the elements are the given array. |
| Collections.MergeSource | src/Collection.php:118-122 | An array, or an instance of the merging class, supplies its entries; any other input is rejected. |
| Collections.Collection.Merge | src/Collection.php:118-126 | A rejected input throws the "can only merge" error. Otherwise the elements become `array_merge` of old and new, which succeeds exactly when every merged-in value is accepted; a failure throws the first rejection of the merged array and changes nothing. |
| Collections.Collection.Asort | src/Collection.php:300-303 | The elements become the stable sort by value under the given order: a permutation keeping keys, sorted when the order is a total preorder. |
| Collections.Collection.Ksort | src/Collection.php:308-311 | As `asort`, ordered by key. |
| Collections.Collection.Natcasesort | src/Collection.php:316-319 | As `asort`, with the case-insensitive natural order. |
| Collections.Collection.Natsort | src/Collection.php:324-327 | As `asort`, with the natural order. |
| Collections.Collection.Uasort | src/Collection.php:332-335 | As `asort`, with the user comparator on values. |
| Collections.Collection.Uksort | src/Collection.php:340-343 | As `asort`, with the user comparator on keys. |
| Collections.Collection.Guard | src/ImmutableCollection.php:23-74 | Refuses exactly when the collection is immutable, with `BadMethodCallException::immutable()`. Every mutator calls it first, so `remove`, `merge`, `clear`, `exchangeArray`, `append`, `offsetSet` and `offsetUnset` of an immutable collection throw and leave it unchanged. |
| Exceptions.Immutable | src/Exception/BadMethodCallException.php:9-12 | A BadMethodCallException with a non-empty message. |
| ElementTypes.ValidateElement | src/Collection.php:353-355 | The hook of a collection's class: no error exactly when the class accepts the value; every error is an InvalidArgumentException; the base class accepts everything. |
| ElementTypes.ValidateInt | src/IntCollection.php:17-22 | No error exactly for an int; otherwise `expectedInt` for the class and the value's `gettype`. |
| ElementTypes.ValidateFloat | src/FloatCollection.php:22-27 | No error exactly for a float; otherwise `expectedFloat` for the class and the value's `gettype`. |
| ElementTypes.ValidateString | src/StringCollection.php:17-22 | No error exactly for a string; otherwise `expectedString` for the class and the value's `gettype`. |
| ElementTypes.ValidateObject | src/ObjectCollection.php:27-37 | No error exactly for an object that, unless `allowedInstance()` is empty, is an instance of it. A non-object gets `expectedObject` and an object of the wrong class gets `expectedInstance` with its own class. |
| ElementTypes.ScalarRejectionNamesType | src/IntCollection.php:20 | The error of a scalar collection names the expected type ("integer", "float" or "string") in quotes right after the class phrase, and ends with the quoted `gettype` of the rejected value followed by " given.". |
| ElementTypes.FirstRejection | src/Collection.php:377-382 | No error exactly when every value is accepted; otherwise the error of one of the values. |
| PhpValues.GetTypeObjectExactlyForObjects | src/ObjectCollection.php:29-30 | `gettype` says "object" exactly for objects (closures included). |
| PhpValues.IntToStringIsCanonical | src/Collection.php:270 | The decimal text of an integer is canonical, reads back as the integer, and casts back to the integer key. |
| PhpValues.KeyTextOfArrayKeyOf | src/Collection.php:270 | Casting a string offset to a key and back to text gives the string again. |
| PhpValues.ArrayKeyOfInjective | src/Collection.php:270 | Two strings give the same array key exactly when they are equal. |
| PhpArrays.Put | src/Collection.php:270 | An existing key keeps its position and only its value changes; a new key is appended; distinct keys stay distinct. |
| PhpArrays.PutGet | src/Collection.php:270 | After `$a[$k] = $v`, `$k` reads `$v` and every other key reads as before. |
| PhpArrays.CounterAfterSet | src/Collection.php:270 | The counter never goes down and ends past an integer key just assigned. |
| PhpArrays.PutCounter | src/Collection.php:270 | Assigning keeps every integer key below the updated counter. |
| PhpArrays.AppendFresh | src/Collection.php:265 | The counter's key is free, and appending under it keeps the array well-formed with the counter one higher. |
| PhpArrays.NextFreeAfter | src/Collection.php:46 | The counter of an array built from scratch is past every integer key and, when positive, one past a key the array has. |
| PhpArrays.Unset | src/Collection.php:278 | Removes the one entry under the key, if any, and nothing else; the key is gone. |
| PhpArrays.UnsetGet | src/Collection.php:278 | After `unset($a[$k])` every other key reads as before. |
| PhpArrays.UnsetAt | src/Collection.php:88 | Unsetting the key found at position `i` cuts out exactly that entry. |
| PhpArrays.UnsetIsFilter | src/Collection.php:278 | `unset` equals filtering out the key. |
| PhpArrays.FindValue | src/Collection.php:83 | `array_search` with strict comparison: none exactly when the value is absent, otherwise the first position holding it. |
| PhpArrays.RemoveFirst | src/Collection.php:77-89 | An absent value leaves the array as it is; otherwise exactly the first entry holding it is cut out. |
| PhpArrays.RemoveFirstTakesOne | src/Collection.php:77-89 | Removing a present value shortens the array by one and takes exactly one occurrence from its values. |
| PhpArrays.FilterEntries | src/Collection.php:112 | An entry is kept exactly when it is in the array and the callback accepts its value and key. |
| PhpArrays.FilterKeepsOrder | src/Collection.php:112 | The kept entries keep their order. |
| PhpArrays.FilterNone | src/Collection.php:190-196 | The filtered array is empty exactly when no entry matches. |
| PhpArrays.FilterTwo | src/Collection.php:190-196 | More than one entry is kept exactly when two distinct entries match. |
| PhpArrays.FilterOne | src/Collection.php:190-196 | A single kept entry is the one entry that matches. |
| PhpArrays.OneOrNullMeaning | src/Collection.php:175-197 | The multiple-results error exactly when two entries match; null when none match; otherwise the match. The exactly-one form fails with the same error in the same cases, fails with the no-result error on null, and succeeds only with the unique non-null match. A unique match gives the no-result error when it holds null, and success with its value otherwise. |
| PhpArrays.FirstValueNull | src/Collection.php:54-58 | `array_shift` gives null exactly for an empty array or a first value of null. |
| PhpArrays.LastValueNull | src/Collection.php:63-72 | `last()` gives null exactly for an empty array or a last value of null or false. |
| PhpArrays.MapValuesLookup | src/Collection.php:104 | `array_map` keeps the keys and maps the value under each key. |
| PhpArrays.MergeWellFormed | src/Collection.php:125 | `array_merge` of two arrays is an array. |
| PhpArrays.MergeValuesFromInputs | src/Collection.php:125 | Every merged value comes from one of the two inputs. |
| PhpArrays.MergeKeepsSecond | src/Collection.php:125 | Every value of the second array survives the merge. |
| PhpArrays.MergeAllValues | src/Collection.php:125 | When the first array's values all pass a check, the merged array's values all pass it exactly when the second array's do. |
| PhpArrays.MergeIntKeyed | src/Collection.php:125 | Merging two integer-keyed arrays lists the values of both, renumbered from 0. |
| PhpArrays.MergeStringKey | src/Collection.php:125 | Under a string key the merge holds the second array's value if it has the key, otherwise the first's. |
| PhpArrays.FirstError | src/Collection.php:377-382 | No error exactly when every value passes; otherwise the error of the first failing value. |
| PhpArrays.SortKeepsArray | src/Collection.php:332-335 | Sorting entries permutes them, keeps the array well-formed, and keeps every integer key below any counter it was below. |
| PhpArrays.SortOrders | src/Collection.php:332-343 | Under a total preorder, sorting by value or by key gives a sorted array. |
| PhpArrays.EntryOrders | src/Collection.php:332-343 | A total preorder on values gives total preorders on entries, by value and by key. |
| PhpArrays.PutAllSize | src/Util/IndexGenerator.php:39-47 | Storing entries one by one never gives more entries than were stored, and the keys stay distinct. |
| Sorting.InsertionSort | src/Collection.php:332-335 | The sorted sequence is a permutation of the input. |
| Sorting.InsertionSortSorted | src/Collection.php:332-335 | Under a total preorder the result is sorted. |
| Sorting.SortMembers | src/Collection.php:332-335 | Sorting keeps exactly the same members. |
| Exceptions.OneResultExpected | src/Exception/LogicException.php:7-10 | A LogicException. |
| Exceptions.OneOrNullResultExpected | src/Exception/LogicException.php:12-15 | A LogicException. |
| Exceptions.LogicMessagesDiffer | src/Exception/LogicException.php:7-15 | The two factories never give the same exception for the same cause. |
| Exceptions.TypedMessagesDiffer | src/Exception/InvalidArgumentException.php:9-27 | `expectedString`, `expectedInt`, `expectedFloat` and `expectedObject` give four different exceptions for the same subject and given type. |
| Exceptions.MessageNamesSubject | src/Exception/InvalidArgumentException.php:29-37 | For a class name without quotes, the quoted name at the front of a typed or instance message reads back as that class. |
| Exceptions.TypedMessageParts | src/Exception/InvalidArgumentException.php:34-37 | The message names the expected type in quotes right after the quoted class and " only allows elements of type ", and ends with the quoted given type and " given.". |
| Exceptions.GivenTypeDetermined | src/Exception/InvalidArgumentException.php:34-37 | Different given types give different messages. |
| Exceptions.ObjectMessageIsNotInstanceMessage | src/Exception/InvalidArgumentException.php:24-32 | `expectedObject` never gives the same exception as `expectedInstance` for the same subject. |
| Exceptions.MergeRejected | src/Collection.php:122 | An InvalidArgumentException whose message starts with the quoted class name. |
| Exceptions.InvalidPropertyName | src/Util/IndexToPropertyName.php:52 | An InvalidArgumentException whose message ends with the quoted input and " given.". |
| AbstractCollections.AbstractCollection.New | src/AbstractCollection.php:13-22 | Fails with the hook's error for the first rejected value. Otherwise a fresh valid object holds exactly the given array, with its counter past every integer key. |
| AbstractCollections.AbstractCollection.ValidateArray | src/AbstractCollection.php:151-156 | The hook's first error in array order; none exactly when every value passes. |
| AbstractCollections.AbstractCollection.OffsetSet | src/AbstractCollection.php:37-42 | Fails exactly when the hook rejects the value, changing nothing. Otherwise a null index appends under the counter, and any other index assigns under the index cast to a key. |
| AbstractCollections.AbstractCollection.OffsetUnset | src/AbstractCollection.php:104 | The key is gone, every other entry stays, the counter is kept. |
| AbstractCollections.AbstractCollection.ExchangeArray | src/AbstractCollection.php:27-32 | Succeeds exactly when every value passes the hook, otherwise throws the first error and changes nothing; on success the storage is the array. |
| AbstractCollections.AbstractCollection.ToArray | src/AbstractCollection.php:47-50 | A well-formed array whose values all pass the hook. |
| AbstractCollections.AbstractCollection.Merge | src/AbstractCollection.php:55-70 | Arrays and instances of the class are merged with `array_merge`, anything else throws the "can only merge" error. The merge succeeds exactly when every merged-in value passes the hook; a failure throws the first error and changes nothing. |
| AbstractCollections.AbstractCollection.First | src/AbstractCollection.php:75-79 | Null when empty, otherwise the first value. |
| AbstractCollections.AbstractCollection.Last | src/AbstractCollection.php:84-93 | Null exactly when empty or the last value is null or false; otherwise the last value. |
| AbstractCollections.AbstractCollection.Remove | src/AbstractCollection.php:98-105 | Unsets the key of the first identical value, if any; the counter is kept. |
| AbstractCollections.AbstractCollection.Map | src/AbstractCollection.php:110-113 | Same keys in order, each value mapped. |
| AbstractCollections.AbstractCollection.Filter | src/AbstractCollection.php:115-118 | A new valid object of the same class and hook holding exactly the matching entries. |
| AbstractCollections.AbstractCollection.GetOneOrNullBy | src/AbstractCollection.php:130-139 | Throws `oneOrNullResultExpected(static::class)` exactly when two entries match; null when none match; otherwise the match. |
| AbstractCollections.AbstractCollection.GetOneBy | src/AbstractCollection.php:120-128 | Throws `oneOrNullResultExpected(static::class)` exactly when two entries match, and `oneResultExpected(static::class)` when none match. A unique match holding null also gives `oneResultExpected(static::class)`. A unique match holding any other value is returned. Any success is a unique non-null match. |
| FreeNames.FirstFree | src/Util/IndexToPropertyName.php:26-30 | The least `m >= start` whose name `prefix . m` is not taken: every name from `start` up to it is taken. |
| FreeNames.NameBound | src/Util/IndexToPropertyName.php:45-47 | Only numbers below 10 to the power of the longest taken name's length can give a taken name, so probing stops. |
| FreeNames.FirstFreeIsLeast | src/Util/IndexToPropertyName.php:26-30 | Any free `m` with only taken names below it is the number probing stops at. |
| PropertyNames.Flip | src/Util/IndexToPropertyName.php:20 | `array_flip` gives distinct keys and non-null values. |
| PropertyNames.TakenNames | src/Util/IndexToPropertyName.php:20 | A name is taken exactly when some integer or string value of the existing indexes has it as text. |
| PropertyNames.FlipLookup | src/Util/IndexToPropertyName.php:20-28 | `isset` on the flipped array holds exactly for taken names, and the flipped array is empty exactly when no name is taken. |
| PropertyNames.DigitSuffixKeepsShape | src/Util/IndexToPropertyName.php:21 | Appending digits to an accepted string or to `_` gives an accepted string. |
| PropertyNames.PropertyName | src/Util/IndexToPropertyName.php:18-53 | Throws exactly for inputs that are neither an alphanumeric string (underscores allowed) nor a non-negative integer or null; the error is an InvalidArgumentException. |
| PropertyNames.Probe | src/Util/IndexToPropertyName.php:26-30 | The probing loop stops at the least free suffix. |
| PropertyNames.ForSingle | src/Util/IndexToPropertyName.php:18-53 | Returns or throws exactly what the specification function `PropertyName` gives. |
| PropertyNames.PropertyNameShape | src/Util/IndexToPropertyName.php:18-53 | Every returned name is itself an accepted, non-empty string. |
| PropertyNames.NothingTaken | src/Util/IndexToPropertyName.php:21-43 | With nothing taken, a string comes back as it is, `n` as `_n`, and null as `_0`. |
| PropertyNames.ProbeIsLeastFree | src/Util/IndexToPropertyName.php:26-47 | With names taken, the result is not taken. It is `s . i` for the least free `i >= 0`, or `_m` for the least free `m >= n`. |
| PropertyNames.SuffixAlwaysAdded | src/Util/IndexToPropertyName.php:26-32 | With any name taken, a string gets a numeric suffix even when the string itself is free. |
| PropertyNames.Push | src/Util/IndexToPropertyName.php:67 | `$existing[] = $name` appends exactly one entry holding the name. |
| PropertyNames.TakenAfterPush | src/Util/IndexToPropertyName.php:67 | Recording a name adds exactly that name to the taken ones. |
| PropertyNames.ForMultiple | src/Util/IndexToPropertyName.php:61-73 | Returns or throws exactly what the specification function `Renamed` gives. |
| PropertyNames.RenamedFails | src/Util/IndexToPropertyName.php:61-73 | `forMultiple` throws exactly when one of the keys is not an accepted input. |
| PropertyNames.RenamedUnique | src/Util/IndexToPropertyName.php:64-69 | In unique mode the result has pairwise distinct keys and keeps every value, in input order. |
| PropertyNames.SharedNameCollides | src/Util/IndexToPropertyName.php:64-69 | Without unique mode the keys 0 and `_0` both become `_0`, and the later value replaces the earlier. |
| IndexGenerator.IntegerNumeralIsNumeric | src/Util/IndexGenerator.php:17 | Every integer numeral (digits with an optional sign and surrounding whitespace) passes `is_numeric`. |
| IndexGenerator.UnderscoreZeroIsNotNumeric | src/Util/IndexGenerator.php:17 | `is_numeric("_0")` is false. |
| IndexGenerator.SetNamesLookup | src/Util/IndexGenerator.php:26 | `isset($existing[$name])` holds exactly when some key with a non-null value has the name as text. |
| IndexGenerator.CreateValidIndex | src/Util/IndexGenerator.php:14-31 | Returns exactly what the specification function `ValidIndex` gives. |
| IndexGenerator.CountUp | src/Util/IndexGenerator.php:26-28 | A free first name is returned at once. Otherwise, after testing that name a second time, the loop returns `_m` for the least `m` past the start whose name is not set. |
| IndexGenerator.ValidIndexIsFree | src/Util/IndexGenerator.php:14-31 | In unique mode the name returned for a numeric index is not set in the existing array. |
| IndexGenerator.IntegerIndexProbesFromItself | src/Util/IndexGenerator.php:26-28 | For an integer index `n` in unique mode the result is `_m` for the least `m >= n` not set. |
| IndexGenerator.NotUniqueIgnoresExisting | src/Util/IndexGenerator.php:21-24 | Without unique mode a numeric index gets the prefix whatever the array holds, and null gives `_0`. |
| IndexGenerator.NullValueIsNotTaken | src/Util/IndexGenerator.php:26 | A key holding null does not block its name. |
| IndexGenerator.Indexed | src/Util/IndexGenerator.php:39-47 | Each entry paired with the name `createValidIndex` gives its key in unique mode. |
| IndexGenerator.CreateUniqueValidIndexesForArray | src/Util/IndexGenerator.php:39-47 | Stores each value under its generated name in order; the result has distinct keys and never more entries than the input. |
| IndexGenerator.UniqueNamesCanCollide | src/Util/IndexGenerator.php:39-47 | The key 0 and the non-numeric key `_0` get the same name, so one value is lost. |

## Left out

- Traversable input to the `Collection` constructor (`iterator_to_array`): the model takes an array.
- `getIterator` and the iterator object: the iterator class is kept as a name only.
- `onConstruct` and `Collection::createFrom`: `onConstruct` is an empty hook, and `createFrom` is folded into `Filter`.
- `ArrayObject` flags and `getFlags`/`getIteratorClass` of `AbstractCollection`: they do not affect the stored array.
- Offsets that are not integers or strings (floats, bools, null as a key): offsets are `Key` values, and a null offset is `None`.
- Integer overflow: integers are unbounded, so keys and counters past `PHP_INT_MAX` (where PHP switches to floats or fails) are not modelled.
- Floating point: a float is an opaque token, and two floats are identical exactly when their tokens are equal. Arithmetic and float formatting are not modelled.
- Collections.Collection.Contains, Collections.Collection.Remove, AbstractCollections.AbstractCollection.Remove, PhpArrays.FindValue: PHP's strict comparison (`in_array`/`array_search` with `true`) on floats is not modelled: in PHP `NAN` is not identical to itself and `0.0` is identical to `-0.0`, while token equality says the opposite in both cases.
- Side effects and exceptions of user callbacks (`map`, `filter`, `getOneBy`, `uasort`, `uksort`): callbacks are pure total functions.
- PHP's built-in orderings for `asort`, `ksort`, `natsort` and `natcasesort` (standard comparison, `strnatcmp`, `strnatcasecmp`): each is a comparator parameter. Sortedness is proved only for a comparator that is a total preorder. PHP's sort is stable since PHP 8.0, as the model's insertion sort is.
- Collections.Collection.Asort, Collections.Collection.Ksort, Collections.Collection.Natsort, Collections.Collection.Natcasesort, Collections.Collection.Uasort, Collections.Collection.Uksort: the resulting order matches PHP only when the comparator is a total preorder. The stable sorted order is then unique, and PHP 8 sorts stably. For any other comparator the model places entries as a stable insertion sort does. PHP's `zend_sort` places them differently (fixed networks up to 5 elements, insertion sort up to 16, a hybrid quicksort above). Examples are a user callback that always returns 1, or the default comparison on mixed numeric and non-numeric strings. There only the permutation, the kept keys and the counter hold for PHP.
- The next-free-key counter of an array passed in from outside (constructor, `exchangeArray`, `merge`): it is taken as one past the largest integer key (`NextFreeAfter`). An array whose high keys were unset before being passed in can have a higher counter in PHP.
- Negative integer keys: the counter follows PHP before 8.3, where a negative largest key leaves the next key at 0.
- Warnings PHP emits (`array_flip` on values that are neither integers nor strings, `end` on an object): only the values are modelled, and `array_flip` skips such values as PHP does.
- `ArrayObject` internals beyond its array (property access with `ARRAY_AS_PROPS`, serialization).
- The interfaces (`CollectionInterface`, `ICollection`, `SortableInterface`), `BoolCollection`/`BooleanCollection`/`IntegerCollection`, and the `AbstractImmutable*`/`AbstractObjectCollection` classes: they are not part of this model.
- PropertyNames.ForSingle: inputs other than integers, strings and null (floats, bools) are not modelled; the input is an `Option<Key>`.
- IndexGenerator.CreateValidIndex: requires `CountsInIntegers`. A float-looking numeric string such as `"1.5"` or `"1e3"` would count up in floats once its first name is taken; that case is excluded because floats are not modelled.
- IndexGenerator.CreateUniqueValidIndexesForArray: the same restriction applies to every key.
- PropertyNames.Push: `$existingIndexes[] = $name` uses the counter `NextFreeAfter` of the existing array, as for any array passed in.
- Exceptions.OneResultExpected: the contract states only the exception class; the message text is fixed by the definition, and `LogicMessagesDiffer` tells the two factories apart.
- Exceptions.OneOrNullResultExpected: as for `OneResultExpected`.
- Collections.Collection.Filter: the new collection's counter is not stated beyond the class invariant.
- AbstractCollections.AbstractCollection.Filter: as for `Collection.Filter`; the flags and iterator class that `createFrom` passes on are not modelled.

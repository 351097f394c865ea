# ArrayCollection, modelled in Dafny

Doctrine's `ArrayCollection` wraps a PHP array: an insertion-ordered map from
keys (integers or strings, mixed freely) to values. It keeps an internal array
pointer that `first`, `last`, `key`, `current` and `next` read and move. It
answers read-only queries (`toArray`, `getKeys`, `getValues`, `count`,
`isEmpty`, `get`, `containsKey`, `contains`, `indexOf`, `exists`,
`getIterator`). It is changed in place by `add`, `set`, `remove` and
`removeElement`. It derives new collections with `map`, `filter`, `partition`
and `matching`. An optional validator callback runs on every value that enters
a collection: at construction, in `add`, in `set`, and on the values `map`
produces. A rejected value throws `InvalidArgumentException`. Every derived
collection keeps the validator of the collection it came from.

The repository holds only the PHPUnit suite of the class,
`tests/Doctrine/Tests/Common/Collections/ArrayCollectionTest.php`. This model
gives the behaviour that suite fixes.

Layout:

- `wrappers.dfy` (module `Wrappers`): `Option`, `Result` and the one error,
  `InvalidArgument`, which stands for the thrown `InvalidArgumentException`.
- `values.dfy` (module `PhpValues`): array keys, PHP values and the validator.
  - Datatype equality is PHP's strict `===`.
  - An object is its `foo` property.
- `entries.dfy` (module `OrderedEntries`): the entry sequence as a value.
  - It holds the specification function of every query, update and
    transformation.
  - It holds the lemmas that state what the tests promise about them.
  - It holds the invariant of a collection's state, `Consistent`.
- `collection.dfy` (module `Collections`): the class `ArrayCollection`.
  - Its fields are the entries, the pointer, PHP's next free integer key, and
    the validator.
  - Its methods change those fields in place.
  - The loop searches used by `remove` and `removeElement` are proved against
    the specification functions.
- `tests.dfy` (module `ArrayCollectionTests`): each test case replayed.
  - A method builds the collection the test builds and makes the same calls.
  - Its postcondition is what the test asserts.
  - The data-provider tests are stated for every array with distinct keys.
  - The removal and lookup tests run on the functions that `Remove`,
    `RemoveElement` and the query methods are proved to compute.

Decisions taken where the tests leave room:

- **The pointer, `first()` and `last()`.**
  - `first()` and `last()` move the pointer, as PHP's `reset()` and `end()` do.
    The tests (lines 48 and 57) compare only the returned values and do not
    look at the pointer afterwards; the model follows `reset()` and `end()`,
    so a later `key()`, `current()` or `next()` starts from there.
  - The pointer is an index into the entries. It equals their count once it
    has run past the end.
  - A removal leaves it on the entry it was on. When that entry is the one
    removed, it moves to the entry that followed.
- **"Absent" results.**
  - `get` and `remove` of a missing key return `VNull`, PHP's `null` (lines 177
    and 270).
  - The pointer operations and `indexOf` return `None` where PHP answers
    `false` or `null`.
- **The key `add` uses.** `add` uses PHP's next free integer key, one above the
  largest integer key the array has ever held and never below 0. Removals do
  not lower it. A `set` under a larger integer key raises it.
- **Class queries.** `GetKeys`, `GetValues`, `Get`, `ContainsKey`, `Contains`,
  `IndexOf` and `Exists` on `Collections.ArrayCollection` forward to the
  `OrderedEntries` functions of the same name on the entries; their contracts
  and rows are those of `OrderedEntries`.
- **Predicate signatures.**
  - `exists`, `partition` and `matching` take a predicate on the key and the
    value. A predicate on the value alone is the special case that ignores the
    key.
  - `filter` takes a predicate on the value.

## Model

| member | source | states |
|---|---|---|
| OrderedEntries.Keys | tests/Doctrine/Tests/Common/Collections/ArrayCollectionTest.php:114-119 | getKeys() has one key per entry, the i-th key being the key of the i-th entry in insertion order |
| OrderedEntries.Values | tests/Doctrine/Tests/Common/Collections/ArrayCollectionTest.php:124-129 | getValues() has one value per entry, the i-th value being the value of the i-th entry |
| OrderedEntries.KeyPosition | tests/Doctrine/Tests/Common/Collections/ArrayCollectionTest.php:208-217 | the scan for a key answers an in-range position holding the key with no earlier entry holding it, and answers nothing exactly when the key is not among getKeys() |
| OrderedEntries.KeyPositionAt | tests/Doctrine/Tests/Common/Collections/ArrayCollectionTest.php:208-217 | the scan for a key stops at the first position holding it |
| OrderedEntries.KeyPositionNone | tests/Doctrine/Tests/Common/Collections/ArrayCollectionTest.php:208-217 | the scan for a key finds nothing when no entry holds it |
| OrderedEntries.ContainsKey | tests/Doctrine/Tests/Common/Collections/ArrayCollectionTest.php:208-217 | containsKey(k) is true if and only if some entry has key k, whatever its value, null included |
| OrderedEntries.Lookup | tests/Doctrine/Tests/Common/Collections/ArrayCollectionTest.php:263-271 | the lookup of k is absent exactly when k is not a key, and otherwise gives a value stored under k |
| OrderedEntries.Get | tests/Doctrine/Tests/Common/Collections/ArrayCollectionTest.php:263-271 | get(k) is a value stored under k when k is present and null when it is absent |
| OrderedEntries.LookupStored | tests/Doctrine/Tests/Common/Collections/ArrayCollectionTest.php:144-155 | with distinct keys, get() of any entry's key gives that entry's value: what the foreach sees matches `$elements[$key]` |
| OrderedEntries.LookupIffEntry | tests/Doctrine/Tests/Common/Collections/ArrayCollectionTest.php:263-271 | with distinct keys, the lookup of k gives v if and only if (k, v) is an entry |
| OrderedEntries.ValuePosition | tests/Doctrine/Tests/Common/Collections/ArrayCollectionTest.php:253-261 | the scan for a value answers the first position strictly holding it, and answers nothing exactly when the value is not among getValues() |
| OrderedEntries.ValuePositionAt | tests/Doctrine/Tests/Common/Collections/ArrayCollectionTest.php:253-261 | the scan for a value stops at the first position holding it |
| OrderedEntries.ValuePositionNone | tests/Doctrine/Tests/Common/Collections/ArrayCollectionTest.php:228-237 | the scan for a value finds nothing when no entry holds it |
| OrderedEntries.Contains | tests/Doctrine/Tests/Common/Collections/ArrayCollectionTest.php:228-237 | contains(v) is true if and only if some entry's value is strictly equal to v |
| OrderedEntries.IndexOf | tests/Doctrine/Tests/Common/Collections/ArrayCollectionTest.php:253-261 | indexOf(v) is absent exactly when contains(v) is false, and otherwise is the key of an entry holding v with no earlier entry holding v |
| OrderedEntries.Exists | tests/Doctrine/Tests/Common/Collections/ArrayCollectionTest.php:239-251 | exists(p) is true if and only if p holds for some (key, value) entry |
| OrderedEntries.Put | tests/Doctrine/Tests/Common/Collections/ArrayCollectionTest.php:299-311 | set(k, v) leaves every position holding either (k, v) or its old entry, keeps the key list when k is present and appends k to it otherwise |
| OrderedEntries.PutLookup | tests/Doctrine/Tests/Common/Collections/ArrayCollectionTest.php:299-311 | after set(k, v) the keys stay distinct, k holds v, and every other key keeps its lookup |
| OrderedEntries.RemoveKey | tests/Doctrine/Tests/Common/Collections/ArrayCollectionTest.php:169-187 | remove(k) of a missing key changes nothing; of a present key it removes exactly one entry |
| OrderedEntries.RemoveKeyAt | tests/Doctrine/Tests/Common/Collections/ArrayCollectionTest.php:169-187 | where the scan finds k, remove(k) cuts out that entry and returns the value stored there |
| OrderedEntries.RemoveAtEntries | tests/Doctrine/Tests/Common/Collections/ArrayCollectionTest.php:169-187 | cutting out one entry keeps the keys distinct and keeps exactly the entries with another key |
| OrderedEntries.RemoveKeyLookup | tests/Doctrine/Tests/Common/Collections/ArrayCollectionTest.php:169-187 | after remove(k), k is absent and every other key keeps its value, so no integer key is renumbered (remove(1) after remove(0) still gives 2) |
| OrderedEntries.RemoveFirst | tests/Doctrine/Tests/Common/Collections/ArrayCollectionTest.php:189-206 | removeElement(v) changes nothing when no value is v, and otherwise cuts out the first entry, in insertion order, whose value is v |
| OrderedEntries.RemoveFirstAt | tests/Doctrine/Tests/Common/Collections/ArrayCollectionTest.php:189-206 | where the value scan finds v, removeElement(v) reports true and cuts out that entry |
| OrderedEntries.RemoveFirstOneOccurrence | tests/Doctrine/Tests/Common/Collections/ArrayCollectionTest.php:199-203 | each removeElement(v) takes away exactly one occurrence of v from the values, so two calls remove two equal values one at a time |
| OrderedEntries.MapValues | tests/Doctrine/Tests/Common/Collections/ArrayCollectionTest.php:313-344 | map(f) keeps the length, the keys and the order, and applies f to each value |
| OrderedEntries.MapKeepsKeys | tests/Doctrine/Tests/Common/Collections/ArrayCollectionTest.php:313-328 | map(f) keeps the key list, so it keeps the keys distinct |
| OrderedEntries.Select | tests/Doctrine/Tests/Common/Collections/ArrayCollectionTest.php:400-422 | a selection is no longer than the input and holds exactly the input entries that satisfy the predicate |
| OrderedEntries.SelectAppend | tests/Doctrine/Tests/Common/Collections/ArrayCollectionTest.php:346-362 | selecting distributes over concatenation, so kept entries keep their relative order |
| OrderedEntries.SelectKeepsDistinct | tests/Doctrine/Tests/Common/Collections/ArrayCollectionTest.php:346-422 | a selection from a collection with distinct keys has distinct keys |
| OrderedEntries.Filter | tests/Doctrine/Tests/Common/Collections/ArrayCollectionTest.php:346-362 | filter(p) holds exactly the entries whose value satisfies p, and keeps keys distinct |
| OrderedEntries.Partition | tests/Doctrine/Tests/Common/Collections/ArrayCollectionTest.php:364-398 | partition(p) gives the entries satisfying p and the entries not satisfying p, each with distinct keys |
| OrderedEntries.PartitionSplits | tests/Doctrine/Tests/Common/Collections/ArrayCollectionTest.php:364-398 | the two halves of a partition together hold every entry exactly once |
| OrderedEntries.RemoveAtKeeps | tests/Doctrine/Tests/Common/Collections/ArrayCollectionTest.php:169-206 | cutting out one entry keeps the collection invariant, and the pointer stays on its entry when that entry survives or stays past the end |
| OrderedEntries.EveryEntryLooksUp | tests/Doctrine/Tests/Common/Collections/ArrayCollectionTest.php:144-155 | with distinct keys, get() of every entry's key gives that entry's value |
| OrderedEntries.CursorAfterRemoval | tests/Doctrine/Tests/Common/Collections/ArrayCollectionTest.php:169-206 | after a removal at position n the pointer moves back by exactly one when n lies before it, and stays otherwise |
| OrderedEntries.RemoveKeyKeeps | tests/Doctrine/Tests/Common/Collections/ArrayCollectionTest.php:169-187 | where the key scan finds k, remove(k) keeps the collection invariant, returns the value stored under k, and the pointer keeps its entry when another entry is removed or stays past the end |
| OrderedEntries.RemoveFirstKeeps | tests/Doctrine/Tests/Common/Collections/ArrayCollectionTest.php:189-206 | where the value scan finds v, removeElement(v) reports true, keeps the collection invariant, and the pointer keeps its entry when another entry is removed or stays past the end |
| OrderedEntries.NextFreeAfter | tests/Doctrine/Tests/Common/Collections/ArrayCollectionTest.php:299-311 | after set(k, v) the next free integer key never decreases and lies above an integer k |
| OrderedEntries.AppendKeeps | tests/Doctrine/Tests/Common/Collections/ArrayCollectionTest.php:219-226 | the key add() uses is not in use, and appending an accepted value under it keeps the collection invariant |
| OrderedEntries.PutKeeps | tests/Doctrine/Tests/Common/Collections/ArrayCollectionTest.php:299-311 | storing an accepted value with set() keeps the collection invariant |
| OrderedEntries.NextFreeKey | tests/Doctrine/Tests/Common/Collections/ArrayCollectionTest.php:219-226 | the next free key of a new collection lies above every integer key and is 0 or one above an integer key in use |
| Collections.ValidateAll | tests/Doctrine/Tests/Common/Collections/ArrayCollectionTest.php:273-283 | the validation loop succeeds if and only if the validator accepts every value |
| Collections.LocateKey | tests/Doctrine/Tests/Common/Collections/ArrayCollectionTest.php:169-187 | the search loop returns the position the key scan answers, or the entry count when the key is absent |
| Collections.LocateValue | tests/Doctrine/Tests/Common/Collections/ArrayCollectionTest.php:189-206 | the search loop returns the position the value scan answers, or the entry count when no value matches |
| Collections.New | tests/Doctrine/Tests/Common/Collections/ArrayCollectionTest.php:273-283 | construction fails with InvalidArgument if and only if some element is rejected; otherwise the new collection holds exactly the elements, with the pointer on the first, the given validator, and the next free key PHP computes for that array |
| Collections.ArrayCollection.constructor | tests/Doctrine/Tests/Common/Collections/ArrayCollectionTest.php:35-40 | a collection holds exactly the array it was built from, in order, with the pointer on the first entry |
| Collections.ArrayCollection.ToArray | tests/Doctrine/Tests/Common/Collections/ArrayCollectionTest.php:35-40 | toArray() has one entry per element, distinct keys, and the keys and values getKeys() and getValues() give |
| Collections.ArrayCollection.CurrentKey | tests/Doctrine/Tests/Common/Collections/ArrayCollectionTest.php:63-73 | key() is absent exactly when the pointer has run past the end, and otherwise is the key of the entry under the pointer |
| Collections.ArrayCollection.Current | tests/Doctrine/Tests/Common/Collections/ArrayCollectionTest.php:99-109 | current() is absent exactly when the pointer has run past the end, and otherwise is the value of the entry under the pointer |
| Collections.ArrayCollection.CurrentKeyLooksUp | tests/Doctrine/Tests/Common/Collections/ArrayCollectionTest.php:63-109 | current() is get(key()) whenever key() is present |
| Collections.ArrayCollection.Count | tests/Doctrine/Tests/Common/Collections/ArrayCollectionTest.php:134-139 | count() equals the number of keys and the number of values |
| Collections.ArrayCollection.GetIterator | tests/Doctrine/Tests/Common/Collections/ArrayCollectionTest.php:144-155 | iteration yields every entry exactly once, in insertion order: count() entries with distinct keys whose key list is getKeys(), each with the value get() gives for its key |
| Collections.ArrayCollection.IsEmpty | tests/Doctrine/Tests/Common/Collections/ArrayCollectionTest.php:219-226 | isEmpty() is true if and only if count() is 0, and if and only if no key is contained |
| Collections.ArrayCollection.First | tests/Doctrine/Tests/Common/Collections/ArrayCollectionTest.php:45-49 | first() rewinds the pointer and returns the first value, or none on an empty collection |
| Collections.ArrayCollection.Last | tests/Doctrine/Tests/Common/Collections/ArrayCollectionTest.php:54-58 | last() moves the pointer to the last entry and returns its value, or none on an empty collection |
| Collections.ArrayCollection.Next | tests/Doctrine/Tests/Common/Collections/ArrayCollectionTest.php:78-94 | next() advances the pointer one entry, stays put past the end, and returns the new current value |
| Collections.ArrayCollection.Add | tests/Doctrine/Tests/Common/Collections/ArrayCollectionTest.php:285-297 | add(v) fails and changes nothing if and only if v is rejected; otherwise it appends v under a key not in use and returns true |
| Collections.ArrayCollection.Set | tests/Doctrine/Tests/Common/Collections/ArrayCollectionTest.php:299-311 | set(k, v) fails and changes nothing if and only if v is rejected; otherwise the entries become those of Put |
| Collections.ArrayCollection.Remove | tests/Doctrine/Tests/Common/Collections/ArrayCollectionTest.php:169-187 | remove(k) returns get(k) of the old entries and leaves RemoveKey of them; the pointer stays on its entry when another entry is removed, stays past the end, and otherwise moves as CursorAfterRemoval says at the position of k (unchanged when k is absent) |
| Collections.ArrayCollection.RemoveElement | tests/Doctrine/Tests/Common/Collections/ArrayCollectionTest.php:189-206 | removeElement(v) returns true if and only if v was contained and leaves RemoveFirst of the old entries; the pointer stays on its entry when another entry is removed, stays past the end, and otherwise moves as CursorAfterRemoval says at the first position of v (unchanged when v is absent) |
| Collections.ArrayCollection.Map | tests/Doctrine/Tests/Common/Collections/ArrayCollectionTest.php:313-344 | map(f) fails if and only if some mapped value is rejected; otherwise it gives a new collection of the mapped entries with the same validator and the next free key of a fresh array |
| Collections.ArrayCollection.Filter | tests/Doctrine/Tests/Common/Collections/ArrayCollectionTest.php:346-362 | filter(p) gives a new collection of the filtered entries with the same validator and the next free key of a fresh array |
| Collections.ArrayCollection.Partition | tests/Doctrine/Tests/Common/Collections/ArrayCollectionTest.php:364-398 | partition(p) gives two new collections, the two halves of the partition, both with the same validator and each with the next free key of a fresh array |
| Collections.ArrayCollection.Matching | tests/Doctrine/Tests/Common/Collections/ArrayCollectionTest.php:400-422 | matching(c) gives a new collection of the entries c selects, with the same validator and the next free key of a fresh array |
| ArrayCollectionTests.ProvidedElementsAreArrays | tests/Doctrine/Tests/Common/Collections/ArrayCollectionTest.php:160-167 | the three provided arrays have distinct keys, so the data-provider tests below cover them |
| ArrayCollectionTests.TestToArrayFirstLast | tests/Doctrine/Tests/Common/Collections/ArrayCollectionTest.php:35-58 | toArray() gives back the input array; first() and last() give its first and last values |
| ArrayCollectionTests.TestKeyCurrent | tests/Doctrine/Tests/Common/Collections/ArrayCollectionTest.php:63-109 | key() and current() give the first entry, and after one next() the second |
| ArrayCollectionTests.TestNext | tests/Doctrine/Tests/Common/Collections/ArrayCollectionTest.php:78-94 | calling next() until it answers none returns every value after the first, in order, and key()/current() agree after each call |
| ArrayCollectionTests.TestIterator | tests/Doctrine/Tests/Common/Collections/ArrayCollectionTest.php:144-155 | iteration visits every key of the input exactly once, in order, each with the value the input stores under that key |
| ArrayCollectionTests.TestProjections | tests/Doctrine/Tests/Common/Collections/ArrayCollectionTest.php:114-139 | getKeys(), getValues() and count() give the keys, the values and the number of the input's entries |
| ArrayCollectionTests.TestRemoveFirstCalls | tests/Doctrine/Tests/Common/Collections/ArrayCollectionTest.php:169-178 | remove(0) returns 1 and drops key 0; remove('non-existent') then returns null |
| ArrayCollectionTests.TestRemoveLastCalls | tests/Doctrine/Tests/Common/Collections/ArrayCollectionTest.php:180-186 | remove(1) returns 2, remove('A') returns 'a', and what is left is the array without those keys |
| ArrayCollectionTests.TestRemoveElementFirstCalls | tests/Doctrine/Tests/Common/Collections/ArrayCollectionTest.php:189-197 | removeElement(1) succeeds and drops key 0; removeElement('non-existent') fails |
| ArrayCollectionTests.TestRemoveElementLastCalls | tests/Doctrine/Tests/Common/Collections/ArrayCollectionTest.php:199-205 | removeElement('a') twice drops key 'A' and then key 'A2' |
| ArrayCollectionTests.TestContainsKeyFound | tests/Doctrine/Tests/Common/Collections/ArrayCollectionTest.php:208-215 | keys 0, 'A' and 'null' (whose value is null) are contained |
| ArrayCollectionTests.TestContainsKeyMissing | tests/Doctrine/Tests/Common/Collections/ArrayCollectionTest.php:216 | key 'non-existent' is not contained |
| ArrayCollectionTests.TestContainsFound | tests/Doctrine/Tests/Common/Collections/ArrayCollectionTest.php:228-234 | the values 0 and 'a' are contained |
| ArrayCollectionTests.TestContainsNullAndMissing | tests/Doctrine/Tests/Common/Collections/ArrayCollectionTest.php:235-236 | null is contained and 'non-existent' is not |
| ArrayCollectionTests.TestExists | tests/Doctrine/Tests/Common/Collections/ArrayCollectionTest.php:239-251 | a pair ('A', 'a') exists and a pair ('non-existent', 'non-existent') does not |
| ArrayCollectionTests.TestIndexOfFound | tests/Doctrine/Tests/Common/Collections/ArrayCollectionTest.php:258 | indexOf(2) is key 1 |
| ArrayCollectionTests.TestIndexOfNull | tests/Doctrine/Tests/Common/Collections/ArrayCollectionTest.php:259 | indexOf(null) is key 'null' |
| ArrayCollectionTests.TestIndexOfMissing | tests/Doctrine/Tests/Common/Collections/ArrayCollectionTest.php:260 | indexOf('non-existent') is absent (PHP false) |
| ArrayCollectionTests.TestGetFound | tests/Doctrine/Tests/Common/Collections/ArrayCollectionTest.php:263-269 | get(1) is 2 and get('A') is 'a' |
| ArrayCollectionTests.TestGetMissing | tests/Doctrine/Tests/Common/Collections/ArrayCollectionTest.php:270 | get('non-existent') is null |
| ArrayCollectionTests.TestEmpty | tests/Doctrine/Tests/Common/Collections/ArrayCollectionTest.php:219-226 | a new empty collection is empty, add(1) succeeds, and then it is not empty |
| ArrayCollectionTests.TestEnforceOnCreation | tests/Doctrine/Tests/Common/Collections/ArrayCollectionTest.php:273-283 | building from (99, 100) under the validator fails |
| ArrayCollectionTests.TestEnforceOnAdd | tests/Doctrine/Tests/Common/Collections/ArrayCollectionTest.php:285-297 | add(100) to a validated collection fails |
| ArrayCollectionTests.TestEnforceOnSet | tests/Doctrine/Tests/Common/Collections/ArrayCollectionTest.php:299-311 | set(0, 100) on a validated collection fails |
| ArrayCollectionTests.TestMappedInheritsValidator | tests/Doctrine/Tests/Common/Collections/ArrayCollectionTest.php:313-328 | map(+1) succeeds, and set(0, 100) on the mapped collection fails |
| ArrayCollectionTests.TestMappedValuesValidated | tests/Doctrine/Tests/Common/Collections/ArrayCollectionTest.php:330-344 | map(*2) fails, because 120 and 160 are rejected |
| ArrayCollectionTests.TestFilteredInheritsValidator | tests/Doctrine/Tests/Common/Collections/ArrayCollectionTest.php:346-362 | add(100) on a filtered collection fails |
| ArrayCollectionTests.TestPartitionedInheritValidator | tests/Doctrine/Tests/Common/Collections/ArrayCollectionTest.php:364-398 | add(100) fails on both halves of a partition whose predicate, like PHP's one-parameter closure, sees the key |
| ArrayCollectionTests.TestMatchingInheritsValidator | tests/Doctrine/Tests/Common/Collections/ArrayCollectionTest.php:400-422 | add of an object with foo 100 fails on a matching collection |

## Left out

- The `Criteria` language of `matching` (line 416) is not part of this model. `Collections.ArrayCollection.Matching` takes the criteria as a predicate on the entry. It does not model ordering, offset or limit.
- PHP loose comparison (`==` inside the `exists` closures, lines 245 and 249) is not modelled. The closures are written with strict equality, which gives the same answers on the test data.
- PHP's conversion of numeric-string keys (`"1"` to `1`) is not modelled. Constructor inputs carry explicit keys, the integer keys PHP gives to unkeyed literal elements.
- Objects are values with one integer property, `foo`. Object identity, other properties and `stdClass` are not modelled.
- Exception classes and messages, and the PHPUnit machinery (data providers, `setExpectedException`), are left out. A thrown `InvalidArgumentException` is the error result `InvalidArgument`.
- `getIterator` returns the entry sequence. Its laziness and its independence from the internal pointer are not modelled, beyond the fact that it does not move the pointer.
- Validators, `map` callbacks and predicates are pure total Dafny functions. Callbacks with side effects, or that throw for other reasons, are not modelled.
- The pointer operations return `None` both where PHP returns `false` and where it returns `null`. The two sentinels are not told apart.
- Collections.ArrayCollection.Add: the next free key has no upper bound. PHP's failure to append once the next key would pass `PHP_INT_MAX` is not modelled.
- Collections.ArrayCollection.Add: the next free key is never below 0. The PHP 8.3 rule that appends after a negative largest key (at that key plus one) is not modelled.
- ArrayCollectionTests.TestNext: the loop stops when `next()` answers none. The test's loop also stops at the first value PHP treats as false (`0`, `''`, `null`, `false`). The model therefore states the traversal of every value, which is more than that test checks.
- The three data-provider arrays are covered by stating each data-provider test for every array with distinct keys, rather than by replaying each array.

/** The test cases of ArrayCollectionTest replayed against the model: each
    method builds the collection the test builds, makes the same calls, and
    states in its postcondition what the test asserts. The data-provider tests
    are stated for every array of distinct keys rather than for the three
    provided ones. */
module ArrayCollectionTests {
  import opened Wrappers
  import opened PhpValues
  import opened OrderedEntries
  import opened Collections

  /** The validator of the enforcement tests: an integer above 99 is refused. */
  function AtMost99(v: Value): bool
  {
    !(v.VInt? && v.n > 99)
  }

  /** The validator of the matching test: an object whose foo is above 99 is refused. */
  function FooAtMost99(v: Value): bool
  {
    !(v.VObj? && v.foo > 99)
  }

  /** `array(1, 2, 3, 4, 5)` */
  function Indexed(): seq<Entry>
  {
    [(IntKey(0), VInt(1)), (IntKey(1), VInt(2)), (IntKey(2), VInt(3)), (IntKey(3), VInt(4)), (IntKey(4), VInt(5))]
  }

  /** `array('A' => 'a', 'B' => 'b', 'C' => 'c')` */
  function Associative(): seq<Entry>
  {
    [(StrKey("A"), VStr("a")), (StrKey("B"), VStr("b")), (StrKey("C"), VStr("c"))]
  }

  /** `array('A' => 'a', 1, 'B' => 'b', 2, 3)`: the unkeyed values take 0, 1, 2. */
  function Mixed(): seq<Entry>
  {
    [(StrKey("A"), VStr("a")), (IntKey(0), VInt(1)), (StrKey("B"), VStr("b")), (IntKey(1), VInt(2)), (IntKey(2), VInt(3))]
  }

  /** The provided arrays are PHP arrays (distinct keys), so the tests below
      that hold for every such array hold for them. */
  lemma ProvidedElementsAreArrays()
    ensures DistinctKeys(Indexed()) && DistinctKeys(Associative()) && DistinctKeys(Mixed())
  {
  }

  /** `array(1, 'A' => 'a', 2, 'null' => null, 3, 'A2' => 'a', 'zero' => 0)` */
  function WithNullAndZero(): seq<Entry>
  {
    [(IntKey(0), VInt(1)), (StrKey("A"), VStr("a")), (IntKey(1), VInt(2)), (StrKey("null"), VNull),
     (IntKey(2), VInt(3)), (StrKey("A2"), VStr("a")), (StrKey("zero"), VInt(0))]
  }

  /** `array(1, 'A' => 'a', 2, 'null' => null, 3, 'A2' => 'a', 'B2' => 'b')` */
  function WithNullKey(): seq<Entry>
  {
    [(IntKey(0), VInt(1)), (StrKey("A"), VStr("a")), (IntKey(1), VInt(2)), (StrKey("null"), VNull),
     (IntKey(2), VInt(3)), (StrKey("A2"), VStr("a")), (StrKey("B2"), VStr("b"))]
  }

  /** Builds a collection that holds `elements` and no validator. */
  method Build(elements: seq<Entry>) returns (c: ArrayCollection)
    requires DistinctKeys(elements)
    ensures fresh(c) && c.Valid() && c.entries == elements && c.cursor == 0
    ensures c.validator == Unrestricted
  {
    c := new ArrayCollection(elements, Unrestricted);
  }

  // ---------------------------------------------------------------------------
  // Data-provider tests

  /** testToArray, testFirst, testLast: toArray() gives back the input, first()
      its first value and last() its last value (what PHP reset()/end() give). */
  method TestToArrayFirstLast(elements: seq<Entry>) returns (snapshot: seq<Entry>, first: Option<Value>, last: Option<Value>)
    requires DistinctKeys(elements)
    ensures snapshot == elements
    ensures first == if elements == [] then None else Some(elements[0].1)
    ensures last == if elements == [] then None else Some(elements[|elements| - 1].1)
  {
    var c := Build(elements);
    snapshot := c.ToArray();
    c := Build(elements);
    first := c.First();
    c := Build(elements);
    last := c.Last();
  }

  /** testKey, testCurrent: key() and current() first give the first entry,
      and after one next() the second one (None where PHP gives null/false). */
  method TestKeyCurrent(elements: seq<Entry>) returns (key0: Option<Key>, current0: Option<Value>, key1: Option<Key>, current1: Option<Value>)
    requires DistinctKeys(elements)
    ensures key0 == if elements == [] then None else Some(elements[0].0)
    ensures current0 == if elements == [] then None else Some(elements[0].1)
    ensures key1 == if |elements| < 2 then None else Some(elements[1].0)
    ensures current1 == if |elements| < 2 then None else Some(elements[1].1)
  {
    var c := Build(elements);
    key0, current0 := c.CurrentKey(), c.Current();
    var _ := c.Next();
    key1, current1 := c.CurrentKey(), c.Current();
  }

  /** testNext: calling next() until it answers None returns the values after
      the first one, in insertion order, each exactly once; after each call
      key() and current() describe the entry just reached. */
  method TestNext(elements: seq<Entry>) returns (returned: seq<Value>, keys: seq<Key>, currents: seq<Value>)
    requires DistinctKeys(elements)
    ensures elements == [] ==> returned == [] && keys == [] && currents == []
    ensures elements != [] ==> returned == Values(elements)[1..]
    ensures elements != [] ==> keys == Keys(elements)[1..]
    ensures currents == returned
  {
    var c := Build(elements);
    returned, keys, currents := [], [], [];
    var r := c.Next();
    while r.Some?
      invariant c.Valid() && c.entries == elements
      invariant r == c.Current()
      invariant |returned| == |keys| == (if c.cursor == 0 then 0 else c.cursor - 1)
      invariant elements != [] ==> 1 <= c.cursor
      invariant forall j :: 0 <= j < |returned| ==> returned[j] == elements[j + 1].1 && keys[j] == elements[j + 1].0
      invariant currents == returned
      decreases |c.entries| - c.cursor
    {
      var key, current := c.CurrentKey(), c.Current();
      returned, keys, currents := returned + [r.value], keys + [key.value], currents + [current.value];
      r := c.Next();
    }
  }

  /** testIterator: iterating visits every entry once, and the value seen
      under each key is the one the input holds for that key. */
  method TestIterator(elements: seq<Entry>) returns (visited: seq<Entry>)
    requires DistinctKeys(elements)
    ensures |visited| == |elements|
    ensures DistinctKeys(visited) && Keys(visited) == Keys(elements)
    ensures forall i :: 0 <= i < |visited| ==> Get(elements, visited[i].0) == visited[i].1
  {
    var c := Build(elements);
    visited := c.GetIterator();
    forall i | 0 <= i < |visited| ensures Get(elements, visited[i].0) == visited[i].1 {
      LookupStored(elements, i);
    }
  }

  /** testGetKeys, testGetValues, testCount */
  method TestProjections(elements: seq<Entry>) returns (keys: seq<Key>, values: seq<Value>, count: nat)
    requires DistinctKeys(elements)
    ensures |keys| == |values| == count == |elements|
    ensures forall i :: 0 <= i < count ==> elements[i] == (keys[i], values[i])
  {
    var c := Build(elements);
    keys, values, count := c.GetKeys(), c.GetValues(), c.Count();
  }

  // ---------------------------------------------------------------------------
  // Removal. The collection's Remove and RemoveElement are proved to compute
  // Get/RemoveKey and Contains/RemoveFirst of their entries, so the tests are
  // replayed on those functions, one removal after the other.

  /** `array(1, 'A' => 'a', 2, 'B' => 'b', 3)`, the array of testRemove. */
  function RemoveFixture(): seq<Entry>
  {
    [(IntKey(0), VInt(1)), (StrKey("A"), VStr("a")), (IntKey(1), VInt(2)), (StrKey("B"), VStr("b")), (IntKey(2), VInt(3))]
  }

  /** testRemove, first two calls: remove(0) returns 1; remove('non-existent')
      returns null and changes nothing. */
  lemma TestRemoveFirstCalls()
    ensures Get(RemoveFixture(), IntKey(0)) == VInt(1)
    ensures RemoveKey(RemoveFixture(), IntKey(0))
         == [(StrKey("A"), VStr("a")), (IntKey(1), VInt(2)), (StrKey("B"), VStr("b")), (IntKey(2), VInt(3))]
    ensures Get(RemoveKey(RemoveFixture(), IntKey(0)), StrKey("non-existent")) == VNull
  {
    var rest := [(StrKey("A"), VStr("a")), (IntKey(1), VInt(2)), (StrKey("B"), VStr("b")), (IntKey(2), VInt(3))];
    KeyPositionAt(RemoveFixture(), IntKey(0), 0);
    assert RemoveKey(RemoveFixture(), IntKey(0)) == rest;
    KeyPositionNone(rest, StrKey("non-existent"));
  }

  /** testRemove, last two calls: remove(1) still finds 2, because removing
      key 0 renumbered nothing; remove('A') returns 'a'; what is left is the
      input without those three keys. */
  lemma TestRemoveLastCalls()
    ensures Get([(StrKey("A"), VStr("a")), (IntKey(1), VInt(2)), (StrKey("B"), VStr("b")), (IntKey(2), VInt(3))], IntKey(1)) == VInt(2)
    ensures RemoveKey([(StrKey("A"), VStr("a")), (IntKey(1), VInt(2)), (StrKey("B"), VStr("b")), (IntKey(2), VInt(3))], IntKey(1))
         == [(StrKey("A"), VStr("a")), (StrKey("B"), VStr("b")), (IntKey(2), VInt(3))]
    ensures Get([(StrKey("A"), VStr("a")), (StrKey("B"), VStr("b")), (IntKey(2), VInt(3))], StrKey("A")) == VStr("a")
    ensures RemoveKey([(StrKey("A"), VStr("a")), (StrKey("B"), VStr("b")), (IntKey(2), VInt(3))], StrKey("A"))
         == [(StrKey("B"), VStr("b")), (IntKey(2), VInt(3))]
  {
    var es := [(StrKey("A"), VStr("a")), (IntKey(1), VInt(2)), (StrKey("B"), VStr("b")), (IntKey(2), VInt(3))];
    KeyPositionAt(es, IntKey(1), 1);
    KeyPositionAt(es[..1] + es[2..], StrKey("A"), 0);
  }

  /** testRemoveElement, first two calls: removing 1 succeeds and drops key 0;
      removing 'non-existent' fails. */
  lemma TestRemoveElementFirstCalls()
    ensures var es := [(IntKey(0), VInt(1)), (StrKey("A"), VStr("a")), (IntKey(1), VInt(2)), (StrKey("B"), VStr("b")),
                       (IntKey(2), VInt(3)), (StrKey("A2"), VStr("a")), (StrKey("B2"), VStr("b"))];
            Contains(es, VInt(1)) && RemoveFirst(es, VInt(1)) == es[1..]
    ensures !Contains([(StrKey("A"), VStr("a")), (IntKey(1), VInt(2)), (StrKey("B"), VStr("b")),
                       (IntKey(2), VInt(3)), (StrKey("A2"), VStr("a")), (StrKey("B2"), VStr("b"))], VStr("non-existent"))
  {
    var es := [(StrKey("A"), VStr("a")), (IntKey(1), VInt(2)), (StrKey("B"), VStr("b")),
               (IntKey(2), VInt(3)), (StrKey("A2"), VStr("a")), (StrKey("B2"), VStr("b"))];
    ValuePositionNone(es, VStr("non-existent"));
  }

  /** testRemoveElement, last two calls: removing 'a' twice drops key 'A' and
      then key 'A2', one per call, in insertion order. */
  lemma TestRemoveElementLastCalls()
    ensures var es := [(StrKey("A"), VStr("a")), (IntKey(1), VInt(2)), (StrKey("B"), VStr("b")),
                       (IntKey(2), VInt(3)), (StrKey("A2"), VStr("a")), (StrKey("B2"), VStr("b"))];
            Contains(es, VStr("a")) && RemoveFirst(es, VStr("a")) == es[1..]
    ensures var es := [(IntKey(1), VInt(2)), (StrKey("B"), VStr("b")), (IntKey(2), VInt(3)), (StrKey("A2"), VStr("a")), (StrKey("B2"), VStr("b"))];
            Contains(es, VStr("a")) && RemoveFirst(es, VStr("a")) == es[..3] + es[4..]
  {
    var es := [(IntKey(1), VInt(2)), (StrKey("B"), VStr("b")), (IntKey(2), VInt(3)), (StrKey("A2"), VStr("a")), (StrKey("B2"), VStr("b"))];
    ValuePositionAt(es, VStr("a"), 3);
  }

  // ---------------------------------------------------------------------------
  // Lookups, replayed on the query functions the collection delegates to.

  /** testContainsKey: key 0, key 'A' and key 'null' (whose value is null) are
      contained ... */
  lemma TestContainsKeyFound()
    ensures ContainsKey(WithNullKey(), IntKey(0)) && ContainsKey(WithNullKey(), StrKey("A"))
    ensures ContainsKey(WithNullKey(), StrKey("null"))
  {
  }

  /** ... and 'non-existent' is not. */
  lemma TestContainsKeyMissing()
    ensures !ContainsKey(WithNullKey(), StrKey("non-existent"))
  {
  }

  /** testContains: strict membership finds 0 and 'a' ... */
  lemma TestContainsFound()
    ensures Contains(WithNullAndZero(), VInt(0)) && Contains(WithNullAndZero(), VStr("a"))
  {
  }

  /** ... and null, but not 'non-existent'. */
  lemma TestContainsNullAndMissing()
    ensures Contains(WithNullAndZero(), VNull) && !Contains(WithNullAndZero(), VStr("non-existent"))
  {
  }

  /** testExists */
  lemma TestExists()
    ensures Exists(WithNullAndZero(), (k, v) => k == StrKey("A") && v == VStr("a"))
    ensures !Exists(WithNullAndZero(), (k, v) => k == StrKey("non-existent") && v == VStr("non-existent"))
  {
  }

  /** testIndexOf: the key of the first strictly equal value, for 2 ... */
  lemma TestIndexOfFound()
    ensures IndexOf(WithNullAndZero(), VInt(2)) == Some(IntKey(1))
  {
  }

  /** ... and for null ... */
  lemma TestIndexOfNull()
    ensures IndexOf(WithNullAndZero(), VNull) == Some(StrKey("null"))
  {
  }

  /** ... and none (PHP false) for a value that is not there. */
  lemma TestIndexOfMissing()
    ensures IndexOf(WithNullAndZero(), VStr("non-existent")) == None
  {
  }

  /** testGet: by integer key and by string key ... */
  lemma TestGetFound()
    ensures Get(WithNullAndZero(), IntKey(1)) == VInt(2)
    ensures Get(WithNullAndZero(), StrKey("A")) == VStr("a")
  {
  }

  /** ... and null for a missing key. */
  lemma TestGetMissing()
    ensures Get(WithNullAndZero(), StrKey("non-existent")) == VNull
  {
  }

  /** testEmpty: a new collection is empty and is not once add() succeeded. */
  method TestEmpty() returns (before: bool, added: Result<bool>, after: bool)
    ensures before && added == Ok(true) && !after
  {
    var c := Build([]);
    before := c.IsEmpty();
    added := c.Add(VInt(1));
    after := c.IsEmpty();
  }

  // ---------------------------------------------------------------------------
  // The validator

  /** Builds `array(20, 40, 60, 80)` under the AtMost99 validator. */
  method BuildEnforced() returns (c: ArrayCollection)
    ensures fresh(c) && c.Valid() && c.validator == Enforce(AtMost99)
    ensures c.entries == [(IntKey(0), VInt(20)), (IntKey(1), VInt(40)), (IntKey(2), VInt(60)), (IntKey(3), VInt(80))]
  {
    var es := [(IntKey(0), VInt(20)), (IntKey(1), VInt(40)), (IntKey(2), VInt(60)), (IntKey(3), VInt(80))];
    assert forall i :: 0 <= i < |es| ==> es[i].1.VInt? && es[i].1.n <= 80;
    var made := New(es, Enforce(AtMost99));
    c := made.value;
  }

  /** testEnforceOnCreation */
  method TestEnforceOnCreation() returns (r: Result<ArrayCollection>)
    ensures r == Err(InvalidArgument)
  {
    var es := [(IntKey(0), VInt(99)), (IntKey(1), VInt(100))];
    assert !Accepts(Enforce(AtMost99), es[1].1);
    r := New(es, Enforce(AtMost99));
  }

  /** testEnforceOnAdd */
  method TestEnforceOnAdd() returns (r: Result<bool>)
    ensures r == Err(InvalidArgument)
  {
    var made := New([(IntKey(0), VInt(98)), (IntKey(1), VInt(99))], Enforce(AtMost99));
    r := made.value.Add(VInt(100));
  }

  /** testEnforceOnSet */
  method TestEnforceOnSet() returns (r: Result<()>)
    ensures r == Err(InvalidArgument)
  {
    var made := New([(IntKey(0), VInt(98)), (IntKey(1), VInt(99))], Enforce(AtMost99));
    r := made.value.Set(IntKey(0), VInt(100));
  }

  /** testEnforcedBehaviorInheritedByNewMappedCollections */
  method TestMappedInheritsValidator() returns (mapped: Result<ArrayCollection>, r: Result<()>)
    ensures mapped.Ok? && r == Err(InvalidArgument)
  {
    var c := BuildEnforced();
    mapped := c.Map((v: Value) => if v.VInt? then VInt(v.n + 1) else v);
    r := mapped.value.Set(IntKey(0), VInt(100));
  }

  /** testEnforcedOnNewValuesInMappedCollections: 60 * 2 and 80 * 2 are
      refused. */
  method TestMappedValuesValidated() returns (mapped: Result<ArrayCollection>)
    ensures mapped == Err(InvalidArgument)
  {
    var c := BuildEnforced();
    mapped := c.Map((v: Value) => if v.VInt? then VInt(v.n * 2) else v);
    assert MapValues(c.entries, (v: Value) => if v.VInt? then VInt(v.n * 2) else v)[3].1 == VInt(160);
  }

  /** testEnforcedBehaviorInheritedByNewFilteredCollections */
  method TestFilteredInheritsValidator() returns (r: Result<bool>)
    ensures r == Err(InvalidArgument)
  {
    var c := BuildEnforced();
    var filtered := c.Filter((v: Value) => v.VInt? && v.n > 50);
    r := filtered.Add(VInt(100));
  }

  /** testEnforcedBehaviorInheritedByFirstNewPartitionedCollections and
      ...BySecondNewPartitionedCollections. partition() calls its predicate
      with the key first, so the one-parameter closure `$element > 50` sees
      the key: every entry (keys 0 to 3) lands in the second collection. */
  method TestPartitionedInheritValidator() returns (r1: Result<bool>, r2: Result<bool>)
    ensures r1 == Err(InvalidArgument) && r2 == Err(InvalidArgument)
  {
    var c := BuildEnforced();
    var matched, rest := c.Partition((k: Key, v: Value) => k.IntKey? && k.i > 50);
    r1 := matched.Add(VInt(100));
    r2 := rest.Add(VInt(100));
  }

  /** testEnforcedBehaviorInheritedByNewMatchingCollections: the criteria
      `foo > 30` stand as a predicate on the entry. */
  method TestMatchingInheritsValidator() returns (r: Result<bool>)
    ensures r == Err(InvalidArgument)
  {
    var made := New([(IntKey(0), VObj(20)), (IntKey(1), VObj(40))], Enforce(FooAtMost99));
    var matching := made.value.Matching((k: Key, v: Value) => v.VObj? && v.foo > 30);
    r := matching.Add(VObj(100));
  }
}

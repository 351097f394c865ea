/** Doctrine's ArrayCollection: an insertion-ordered map with an internal
    cursor and an optional validator, as a class whose methods update it. */
module Collections {
  import opened Wrappers
  import opened PhpValues
  import opened OrderedEntries

  /** The validation pass of the constructor: every value, first to last. */
  method ValidateAll(validator: Validator, es: seq<Entry>) returns (ok: bool)
    ensures ok == AllAccepted(validator, es)
  {
    var i := 0;
    while i < |es|
      invariant 0 <= i <= |es|
      invariant forall j :: 0 <= j < i ==> Accepts(validator, es[j].1)
    {
      if !Accepts(validator, es[i].1) {
        return false;
      }
      i := i + 1;
    }
    return true;
  }

  /** The search of remove(): the position of key `k`, or |es| when absent. */
  method LocateKey(es: seq<Entry>, k: Key) returns (i: nat)
    ensures i <= |es|
    ensures i < |es| ==> KeyPosition(es, k) == Some(i)
    ensures i == |es| ==> KeyPosition(es, k) == None
  {
    i := 0;
    while i < |es| && es[i].0 != k
      invariant i <= |es|
      invariant forall j :: 0 <= j < i ==> es[j].0 != k
    {
      i := i + 1;
    }
    if i < |es| {
      KeyPositionAt(es, k, i);
    } else {
      KeyPositionNone(es, k);
    }
  }

  /** The search of removeElement(): the position of the first value strictly
      equal to `v`, or |es| when there is none. */
  method LocateValue(es: seq<Entry>, v: Value) returns (i: nat)
    ensures i <= |es|
    ensures i < |es| ==> ValuePosition(es, v) == Some(i)
    ensures i == |es| ==> ValuePosition(es, v) == None
  {
    i := 0;
    while i < |es| && es[i].1 != v
      invariant i <= |es|
      invariant forall j :: 0 <= j < i ==> es[j].1 != v
    {
      i := i + 1;
    }
    if i < |es| {
      ValuePositionAt(es, v, i);
    } else {
      ValuePositionNone(es, v);
    }
  }

  /** `new ArrayCollection(elements, validator)`: validates every element and
      throws InvalidArgumentException on a rejected one, so that no partly
      built collection is ever seen; otherwise holds exactly `elements`. */
  method New(elements: seq<Entry>, validator: Validator) returns (r: Result<ArrayCollection>)
    requires DistinctKeys(elements)
    ensures r.Err? <==> !AllAccepted(validator, elements)
    ensures r.Err? ==> r.error == InvalidArgument
    ensures r.Ok? ==> fresh(r.value) && r.value.Valid()
    ensures r.Ok? ==> r.value.entries == elements && r.value.cursor == 0
    ensures r.Ok? ==> r.value.nextFree == NextFreeKey(elements)
    ensures r.Ok? ==> r.value.validator == validator
  {
    var ok := ValidateAll(validator, elements);
    if !ok {
      return Err(InvalidArgument);
    }
    var c := new ArrayCollection(elements, validator);
    return Ok(c);
  }

  class ArrayCollection {
    /** The entries in insertion order. */
    var entries: seq<Entry>
    /** The internal array pointer: an index into `entries`; |entries| once
        it has run past the last entry. */
    var cursor: nat
    /** The integer key the next add() uses (PHP's next free element). */
    var nextFree: nat
    /** The validator given at construction; never replaced. */
    const validator: Validator

    ghost predicate Valid()
      reads this
    {
      Consistent(entries, cursor, validator, nextFree)
    }

    /** Stores elements that have already passed the validator. */
    constructor (elements: seq<Entry>, validator: Validator)
      requires DistinctKeys(elements) && AllAccepted(validator, elements)
      ensures Valid()
      ensures entries == elements && cursor == 0 && nextFree == NextFreeKey(elements)
      ensures this.validator == validator
    {
      entries := elements;
      cursor := 0;
      nextFree := NextFreeKey(elements);
      this.validator := validator;
    }

    // -------------------------------------------------------------------------
    // Read-only queries: none of them moves the cursor.

    /** toArray(): the entries, keys and order included: its keys are
        getKeys() and its values getValues(). */
    function ToArray(): (r: seq<Entry>)
      requires Valid()
      reads this
      ensures |r| == Count() && DistinctKeys(r)
      ensures Keys(r) == GetKeys() && Values(r) == GetValues()
    {
      entries
    }

    /** getIterator(): every entry once, in insertion order, each pairing a key
        with the value get() gives for it. */
    function GetIterator(): (r: seq<Entry>)
      requires Valid()
      reads this
      ensures |r| == Count() && DistinctKeys(r) && Keys(r) == GetKeys()
      ensures forall i :: 0 <= i < |r| ==> Get(r[i].0) == r[i].1
    {
      EveryEntryLooksUp(entries);
      entries
    }

    function GetKeys(): seq<Key>
      reads this
    {
      Keys(entries)
    }

    function GetValues(): seq<Value>
      reads this
    {
      Values(entries)
    }

    /** count(): one per key and one per value. */
    function Count(): (n: nat)
      reads this
      ensures n == |GetKeys()| == |GetValues()|
    {
      |entries|
    }

    /** isEmpty(): true exactly when no key is contained. */
    function IsEmpty(): (r: bool)
      reads this
      ensures r <==> Count() == 0
      ensures r <==> forall k :: !ContainsKey(k)
    {
      assert entries != [] ==> ContainsKey(entries[0].0);
      |entries| == 0
    }

    function Get(k: Key): Value
      reads this
    {
      OrderedEntries.Get(entries, k)
    }

    function ContainsKey(k: Key): bool
      reads this
    {
      OrderedEntries.ContainsKey(entries, k)
    }

    function Contains(v: Value): bool
      reads this
    {
      OrderedEntries.Contains(entries, v)
    }

    function IndexOf(v: Value): Option<Key>
      reads this
    {
      OrderedEntries.IndexOf(entries, v)
    }

    function Exists(p: (Key, Value) -> bool): bool
      reads this
    {
      OrderedEntries.Exists(entries, p)
    }

    // -------------------------------------------------------------------------
    // The cursor

    /** key(): the key under the cursor, None once past the end. */
    function CurrentKey(): (r: Option<Key>)
      requires Valid()
      reads this
      ensures r.None? <==> cursor == |entries|
      ensures r.Some? ==> r.value == entries[cursor].0
    {
      if cursor < |entries| then Some(entries[cursor].0) else None
    }

    /** current(): the value under the cursor, None once past the end. */
    function Current(): (r: Option<Value>)
      requires Valid()
      reads this
      ensures r.None? <==> cursor == |entries|
      ensures r.Some? ==> r.value == entries[cursor].1
    {
      if cursor < |entries| then Some(entries[cursor].1) else None
    }

    /** get() of the key under the cursor is the value current() answers. */
    lemma CurrentKeyLooksUp()
      requires Valid() && CurrentKey().Some?
      ensures Current() == Some(Get(CurrentKey().value))
    {
      LookupStored(entries, cursor);
    }

    /** first(): rewinds the cursor (PHP reset()) and returns the first value. */
    method First() returns (r: Option<Value>)
      requires Valid()
      modifies this`cursor
      ensures Valid() && cursor == 0
      ensures r == if entries == [] then None else Some(entries[0].1)
      ensures r == Current()
    {
      cursor := 0;
      r := Current();
    }

    /** last(): moves the cursor to the last entry (PHP end()) and returns its value. */
    method Last() returns (r: Option<Value>)
      requires Valid()
      modifies this`cursor
      ensures Valid()
      ensures cursor == if entries == [] then 0 else |entries| - 1
      ensures r == if entries == [] then None else Some(entries[|entries| - 1].1)
      ensures r == Current()
    {
      cursor := if |entries| == 0 then 0 else |entries| - 1;
      r := Current();
    }

    /** next(): advances the cursor one entry and returns the new current
        value; past the end it stays there and keeps returning None. */
    method Next() returns (r: Option<Value>)
      requires Valid()
      modifies this`cursor
      ensures Valid()
      ensures cursor == if old(cursor) < |entries| then old(cursor) + 1 else old(cursor)
      ensures r == Current()
    {
      if cursor < |entries| {
        cursor := cursor + 1;
      }
      r := Current();
    }

    // -------------------------------------------------------------------------
    // Insertion: each one validates first and changes nothing on rejection.

    /** add(v): appends `v` under a fresh integer key and returns true. */
    method Add(v: Value) returns (r: Result<bool>)
      requires Valid()
      modifies this`entries, this`nextFree
      ensures Valid()
      ensures r.Err? <==> !Accepts(validator, v)
      ensures r.Ok? ==> r.value
      ensures r.Err? ==> entries == old(entries) && nextFree == old(nextFree)
      ensures r.Ok? ==> IntKey(old(nextFree)) !in Keys(old(entries))
      ensures r.Ok? ==> entries == old(entries) + [(IntKey(old(nextFree)), v)]
      ensures r.Ok? ==> nextFree == old(nextFree) + 1
    {
      if !Accepts(validator, v) {
        return Err(InvalidArgument);
      }
      AppendKeeps(entries, v, cursor, validator, nextFree);
      entries := entries + [(IntKey(nextFree), v)];
      nextFree := nextFree + 1;
      return Ok(true);
    }

    /** set(k, v): stores `v` under `k`, in place when `k` is present and
        appended otherwise. */
    method Set(k: Key, v: Value) returns (r: Result<()>)
      requires Valid()
      modifies this`entries, this`nextFree
      ensures Valid()
      ensures r.Err? <==> !Accepts(validator, v)
      ensures r.Err? ==> entries == old(entries) && nextFree == old(nextFree)
      ensures r.Ok? ==> entries == Put(old(entries), k, v)
      ensures r.Ok? ==> nextFree == if k.IntKey? && k.i >= old(nextFree) then k.i + 1 else old(nextFree)
    {
      if !Accepts(validator, v) {
        return Err(InvalidArgument);
      }
      PutKeeps(entries, k, v, cursor, validator, nextFree);
      entries, nextFree := Put(entries, k, v), NextFreeAfter(nextFree, k);
      return Ok(());
    }

    // -------------------------------------------------------------------------
    // Removal: the cursor stays on the entry it was on, or moves on to the
    // following entry when that one is removed.

    /** remove(k): deletes the entry of `k` and returns its value; returns
        null and changes nothing when `k` is absent. */
    method Remove(k: Key) returns (removed: Value)
      requires Valid()
      modifies this`entries, this`cursor
      ensures Valid()
      ensures removed == OrderedEntries.Get(old(entries), k)
      ensures entries == RemoveKey(old(entries), k)
      ensures old(cursor) < |old(entries)| && old(entries)[old(cursor)].0 != k ==>
                cursor < |entries| && entries[cursor] == old(entries)[old(cursor)]
      ensures old(cursor) == |old(entries)| ==> cursor == |entries|
      ensures cursor == match KeyPosition(old(entries), k)
                        case None => old(cursor)
                        case Some(i) => CursorAfterRemoval(old(cursor), i)
    {
      var i := LocateKey(entries, k);
      if i == |entries| {
        return VNull;
      }
      var es := entries;
      removed := es[i].1;
      RemoveKeyKeeps(es, k, i, cursor, validator, nextFree);
      entries, cursor := RemoveKey(es, k), CursorAfterRemoval(cursor, i);
    }

    /** removeElement(v): deletes the first entry whose value is strictly
        equal to `v`; reports whether there was one. */
    method RemoveElement(v: Value) returns (found: bool)
      requires Valid()
      modifies this`entries, this`cursor
      ensures Valid()
      ensures found <==> OrderedEntries.Contains(old(entries), v)
      ensures entries == RemoveFirst(old(entries), v)
      ensures old(cursor) < |old(entries)| && old(entries)[old(cursor)].1 != v ==>
                cursor < |entries| && entries[cursor] == old(entries)[old(cursor)]
      ensures old(cursor) == |old(entries)| ==> cursor == |entries|
      ensures cursor == match ValuePosition(old(entries), v)
                        case None => old(cursor)
                        case Some(i) => CursorAfterRemoval(old(cursor), i)
    {
      var i := LocateValue(entries, v);
      if i == |entries| {
        return false;
      }
      var es := entries;
      RemoveFirstKeeps(es, v, i, cursor, validator, nextFree);
      entries, cursor := RemoveFirst(es, v), CursorAfterRemoval(cursor, i);
      return true;
    }

    // -------------------------------------------------------------------------
    // Transformations: each returns a new collection with the same validator.

    /** map(f): a new collection of the mapped values under the same keys; the
        mapped values go through the validator, and one rejection throws. */
    method Map(f: Value -> Value) returns (r: Result<ArrayCollection>)
      requires Valid()
      ensures r.Err? <==> !AllAccepted(validator, MapValues(entries, f))
      ensures r.Ok? ==> fresh(r.value) && r.value.Valid() && r.value.cursor == 0
      ensures r.Ok? ==> r.value.entries == MapValues(entries, f)
      ensures r.Ok? ==> r.value.nextFree == NextFreeKey(MapValues(entries, f))
      ensures r.Ok? ==> r.value.validator == validator
    {
      MapKeepsKeys(entries, f);
      r := New(MapValues(entries, f), validator);
    }

    /** filter(p): a new collection of the entries whose value satisfies `p`. */
    method Filter(p: Value -> bool) returns (r: ArrayCollection)
      requires Valid()
      ensures fresh(r) && r.Valid() && r.cursor == 0
      ensures r.entries == OrderedEntries.Filter(entries, p)
      ensures r.nextFree == NextFreeKey(r.entries)
      ensures r.validator == validator
    {
      var kept := OrderedEntries.Filter(entries, p);
      AcceptedSubset(validator, kept, entries);
      r := new ArrayCollection(kept, validator);
    }

    /** partition(p): the entries satisfying `p` and the others, as two new
        collections. */
    method Partition(p: (Key, Value) -> bool) returns (matched: ArrayCollection, rest: ArrayCollection)
      requires Valid()
      ensures fresh(matched) && matched.Valid() && matched.cursor == 0
      ensures fresh(rest) && rest.Valid() && rest.cursor == 0
      ensures (matched.entries, rest.entries) == OrderedEntries.Partition(entries, p)
      ensures matched.nextFree == NextFreeKey(matched.entries) && rest.nextFree == NextFreeKey(rest.entries)
      ensures matched.validator == validator && rest.validator == validator
    {
      var halves := OrderedEntries.Partition(entries, p);
      AcceptedSubset(validator, halves.0, entries);
      AcceptedSubset(validator, halves.1, entries);
      matched := new ArrayCollection(halves.0, validator);
      rest := new ArrayCollection(halves.1, validator);
    }

    /** matching(criteria): a new collection of the entries the criteria
        select, the criteria being an opaque predicate on key and value. */
    method Matching(criteria: (Key, Value) -> bool) returns (r: ArrayCollection)
      requires Valid()
      ensures fresh(r) && r.Valid() && r.cursor == 0
      ensures r.entries == Select(entries, criteria)
      ensures r.nextFree == NextFreeKey(r.entries)
      ensures r.validator == validator
    {
      var kept := Select(entries, criteria);
      SelectKeepsDistinct(entries, criteria);
      AcceptedSubset(validator, kept, entries);
      r := new ArrayCollection(kept, validator);
    }
  }
}

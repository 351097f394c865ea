/** The ordered key/value sequence behind an ArrayCollection, as pure values:
    the specification functions of every read-only query and transformation,
    and the lemmas that state what the tests promise about them. */
module OrderedEntries {
  import opened Wrappers
  import opened PhpValues

  /** One key/value pair; a collection is a sequence of them in insertion order. */
  type Entry = (Key, Value)

  /** A PHP array never holds the same key twice. */
  ghost predicate DistinctKeys(es: seq<Entry>)
  {
    forall i, j :: 0 <= i < j < |es| ==> es[i].0 != es[j].0
  }

  /** Every integer key in use is below `n`. */
  ghost predicate IntKeysBelow(es: seq<Entry>, n: int)
  {
    forall i :: 0 <= i < |es| && es[i].0.IntKey? ==> es[i].0.i < n
  }

  /** Every stored value passes the validator. */
  predicate AllAccepted(validator: Validator, es: seq<Entry>)
  {
    forall i :: 0 <= i < |es| ==> Accepts(validator, es[i].1)
  }

  // ---------------------------------------------------------------------------
  // Projections: getKeys(), getValues()

  /** The keys, in insertion order (PHP `array_keys`). */
  function Keys(es: seq<Entry>): (ks: seq<Key>)
    ensures |ks| == |es|
    ensures forall i :: 0 <= i < |es| ==> ks[i] == es[i].0
  {
    if es == [] then [] else [es[0].0] + Keys(es[1..])
  }

  /** The values, in insertion order (PHP `array_values`). */
  function Values(es: seq<Entry>): (vs: seq<Value>)
    ensures |vs| == |es|
    ensures forall i :: 0 <= i < |es| ==> vs[i] == es[i].1
  {
    if es == [] then [] else [es[0].1] + Values(es[1..])
  }

  lemma {:induction false} ValuesAppend(a: seq<Entry>, b: seq<Entry>)
    ensures Values(a + b) == Values(a) + Values(b)
  {
    if a == [] {
      assert a + b == b;
    } else {
      assert (a + b)[1..] == a[1..] + b;
      ValuesAppend(a[1..], b);
    }
  }

  // ---------------------------------------------------------------------------
  // Lookup by key: containsKey(), get()

  /** The position of key `k`, scanning from the first entry. */
  function KeyPosition(es: seq<Entry>, k: Key): (r: Option<nat>)
    ensures r.Some? ==> r.value < |es| && es[r.value].0 == k
    ensures r.Some? ==> forall j :: 0 <= j < r.value ==> es[j].0 != k
    ensures r.None? <==> k !in Keys(es)
  {
    if es == [] then None
    else if es[0].0 == k then Some(0)
    else
      match KeyPosition(es[1..], k)
      case None => None
      case Some(i) => Some(i + 1)
  }

  /** The scan finds `k` at `i` when no earlier entry has that key. */
  lemma {:induction false} KeyPositionAt(es: seq<Entry>, k: Key, i: nat)
    requires i < |es| && es[i].0 == k
    requires forall j :: 0 <= j < i ==> es[j].0 != k
    ensures KeyPosition(es, k) == Some(i)
  {
    if i > 0 {
      KeyPositionAt(es[1..], k, i - 1);
    }
  }

  /** The scan finds nothing when no entry has key `k`. */
  lemma {:induction false} KeyPositionNone(es: seq<Entry>, k: Key)
    requires forall j :: 0 <= j < |es| ==> es[j].0 != k
    ensures KeyPosition(es, k) == None
  {
    if es != [] {
      KeyPositionNone(es[1..], k);
    }
  }

  /** containsKey: true exactly for the keys getKeys() lists, whatever the
      stored value (also `null`). */
  function ContainsKey(es: seq<Entry>, k: Key): (r: bool)
    ensures r <==> exists i :: 0 <= i < |es| && es[i].0 == k
  {
    KeyPosition(es, k).Some?
  }

  /** The value stored under `k`, if any. */
  function Lookup(es: seq<Entry>, k: Key): (r: Option<Value>)
    ensures r.None? <==> k !in Keys(es)
    ensures r.Some? ==> (k, r.value) in es
  {
    match KeyPosition(es, k)
    case None => None
    case Some(i) => Some(es[i].1)
  }

  /** get(): the stored value, or PHP `null` when the key is absent. */
  function Get(es: seq<Entry>, k: Key): (r: Value)
    ensures k in Keys(es) ==> (k, r) in es
    ensures k !in Keys(es) ==> r == VNull
  {
    Lookup(es, k).GetOr(VNull)
  }

  /** With distinct keys, looking up the key of any entry gives that entry's
      value: what a foreach over the collection sees under each key. */
  lemma LookupStored(es: seq<Entry>, i: nat)
    requires DistinctKeys(es) && i < |es|
    ensures Lookup(es, es[i].0) == Some(es[i].1)
    ensures Get(es, es[i].0) == es[i].1
  {
    assert Keys(es)[i] == es[i].0;
  }

  /** Every entry of a collection with distinct keys is what get() gives for
      its key. */
  lemma EveryEntryLooksUp(es: seq<Entry>)
    requires DistinctKeys(es)
    ensures forall i :: 0 <= i < |es| ==> Get(es, es[i].0) == es[i].1
  {
    forall i | 0 <= i < |es| ensures Get(es, es[i].0) == es[i].1 {
      LookupStored(es, i);
    }
  }

  /** With distinct keys, the lookup of `k` is determined by which pairs the
      collection holds: it finds `v` exactly when `(k, v)` is an entry. */
  lemma LookupIffEntry(es: seq<Entry>, k: Key, v: Value)
    requires DistinctKeys(es)
    ensures Lookup(es, k) == Some(v) <==> (k, v) in es
  {
    if (k, v) in es {
      var i :| 0 <= i < |es| && es[i] == (k, v);
      LookupStored(es, i);
    }
  }

  // ---------------------------------------------------------------------------
  // Lookup by value: contains(), indexOf()

  /** The position of the first entry whose value is strictly equal to `v`. */
  function ValuePosition(es: seq<Entry>, v: Value): (r: Option<nat>)
    ensures r.Some? ==> r.value < |es| && es[r.value].1 == v
    ensures r.Some? ==> forall j :: 0 <= j < r.value ==> es[j].1 != v
    ensures r.None? <==> v !in Values(es)
  {
    if es == [] then None
    else if es[0].1 == v then Some(0)
    else
      match ValuePosition(es[1..], v)
      case None => None
      case Some(i) => Some(i + 1)
  }

  /** The scan finds `v` at `i` when no earlier entry holds that value. */
  lemma {:induction false} ValuePositionAt(es: seq<Entry>, v: Value, i: nat)
    requires i < |es| && es[i].1 == v
    requires forall j :: 0 <= j < i ==> es[j].1 != v
    ensures ValuePosition(es, v) == Some(i)
  {
    if i > 0 {
      ValuePositionAt(es[1..], v, i - 1);
    }
  }

  /** The scan finds nothing when no entry holds `v`. */
  lemma {:induction false} ValuePositionNone(es: seq<Entry>, v: Value)
    requires forall j :: 0 <= j < |es| ==> es[j].1 != v
    ensures ValuePosition(es, v) == None
  {
    if es != [] {
      ValuePositionNone(es[1..], v);
    }
  }

  /** contains(): strict membership among the values (PHP `in_array(.., true)`). */
  function Contains(es: seq<Entry>, v: Value): (r: bool)
    ensures r <==> exists i :: 0 <= i < |es| && es[i].1 == v
  {
    ValuePosition(es, v).Some?
  }

  /** indexOf(): the key of the first entry whose value is strictly equal to
      `v` (PHP `array_search(.., true)`), or None where PHP answers `false`. */
  function IndexOf(es: seq<Entry>, v: Value): (r: Option<Key>)
    ensures r.None? <==> !Contains(es, v)
    ensures r.Some? ==> exists i :: 0 <= i < |es| && es[i] == (r.value, v)
                                    && forall j :: 0 <= j < i ==> es[j].1 != v
  {
    match ValuePosition(es, v)
    case None => None
    case Some(i) => Some(es[i].0)
  }

  /** exists(): whether some (key, value) pair satisfies `p`, tried in order. */
  function Exists(es: seq<Entry>, p: (Key, Value) -> bool): (r: bool)
    ensures r <==> exists i :: 0 <= i < |es| && p(es[i].0, es[i].1)
  {
    if es == [] then false
    else p(es[0].0, es[0].1) || Exists(es[1..], p)
  }

  // ---------------------------------------------------------------------------
  // Updates: set(), remove(), removeElement()

  /** set(): overwrite the value of `k` in its own position, or append. */
  function Put(es: seq<Entry>, k: Key, v: Value): (r: seq<Entry>)
    ensures forall i :: 0 <= i < |r| ==> r[i] == (k, v) || (i < |es| && r[i] == es[i])
    ensures k in Keys(es) ==> Keys(r) == Keys(es)
    ensures k !in Keys(es) ==> Keys(r) == Keys(es) + [k]
  {
    match KeyPosition(es, k)
    case Some(i) => es[i := (k, v)]
    case None => es + [(k, v)]
  }

  /** Two collections with distinct keys that hold the same pairs for key `k`
      give the same lookup for `k`. */
  lemma LookupByEntries(a: seq<Entry>, b: seq<Entry>, k: Key)
    requires DistinctKeys(a) && DistinctKeys(b)
    requires forall v :: (k, v) in a <==> (k, v) in b
    ensures Lookup(a, k) == Lookup(b, k)
  {
    var la := Lookup(a, k);
    if la.Some? {
      LookupIffEntry(a, k, la.value);
      LookupIffEntry(b, k, la.value);
    } else {
      var lb := Lookup(b, k);
      if lb.Some? {
        LookupIffEntry(b, k, lb.value);
        LookupIffEntry(a, k, lb.value);
      }
    }
  }

  /** After set(k, v) the key `k` holds `v` and no other key changes. */
  lemma PutLookup(es: seq<Entry>, k: Key, v: Value, other: Key)
    requires DistinctKeys(es)
    ensures DistinctKeys(Put(es, k, v))
    ensures Lookup(Put(es, k, v), k) == Some(v)
    ensures other != k ==> Lookup(Put(es, k, v), other) == Lookup(es, other)
  {
    var r := Put(es, k, v);
    var p := KeyPosition(es, k);
    assert DistinctKeys(r) by {
      forall i, j | 0 <= i < j < |r| ensures r[i].0 != r[j].0 {
        assert Keys(r)[i] == r[i].0 && Keys(r)[j] == r[j].0;
        if p.None? && j == |es| {
          assert Keys(es)[i] == es[i].0;
        }
      }
    }
    if p.Some? { assert r[p.value] == (k, v); } else { assert r[|es|] == (k, v); }
    LookupIffEntry(r, k, v);
    if other != k {
      forall w ensures (other, w) in r <==> (other, w) in es {
        if (other, w) in es {
          var i :| 0 <= i < |es| && es[i] == (other, w);
          assert r[i] == es[i];
        }
      }
      LookupByEntries(r, es, other);
    }
  }

  /** remove(k): delete the entry of `k`; unchanged when `k` is absent. */
  function RemoveKey(es: seq<Entry>, k: Key): (r: seq<Entry>)
    ensures k !in Keys(es) ==> r == es
    ensures k in Keys(es) ==> |r| == |es| - 1
  {
    match KeyPosition(es, k)
    case None => es
    case Some(i) => es[..i] + es[i + 1..]
  }

  /** Where the scan finds `k`, remove(k) cuts out that entry and returns its
      value. */
  lemma RemoveKeyAt(es: seq<Entry>, k: Key, i: nat)
    requires DistinctKeys(es) && KeyPosition(es, k) == Some(i)
    ensures RemoveKey(es, k) == es[..i] + es[i + 1..]
    ensures Get(es, k) == es[i].1
  {
    LookupStored(es, i);
  }

  /** Deleting the entry at position `n` keeps distinct keys and keeps exactly
      the entries with another key. */
  lemma RemoveAtEntries(es: seq<Entry>, n: nat)
    requires DistinctKeys(es) && n < |es|
    ensures DistinctKeys(es[..n] + es[n + 1..])
    ensures forall e :: e in es[..n] + es[n + 1..] <==> e in es && e.0 != es[n].0
  {
    var r := es[..n] + es[n + 1..];
    assert forall j :: 0 <= j < |r| ==> r[j] == es[if j < n then j else j + 1];
    forall e | e in es && e.0 != es[n].0 ensures e in r {
      var i :| 0 <= i < |es| && es[i] == e;
      assert r[if i < n then i else i - 1] == e;
    }
  }

  /** remove(k) drops the entry of `k` and nothing else: every other key keeps
      its value and no integer key is renumbered. */
  lemma RemoveKeyLookup(es: seq<Entry>, k: Key, other: Key)
    requires DistinctKeys(es)
    ensures DistinctKeys(RemoveKey(es, k))
    ensures Lookup(RemoveKey(es, k), k) == None
    ensures other != k ==> Lookup(RemoveKey(es, k), other) == Lookup(es, other)
  {
    var r := RemoveKey(es, k);
    var p := KeyPosition(es, k);
    if p.Some? {
      RemoveAtEntries(es, p.value);
      if other != k {
        LookupByEntries(r, es, other);
      }
    }
  }

  /** removeElement(v): delete the first entry, in insertion order, whose value
      is strictly equal to `v`; unchanged when there is none. */
  function RemoveFirst(es: seq<Entry>, v: Value): (r: seq<Entry>)
    ensures v !in Values(es) ==> r == es
    ensures v in Values(es) ==>
      exists i :: 0 <= i < |es| && es[i].1 == v && (forall j :: 0 <= j < i ==> es[j].1 != v)
                  && r == es[..i] + es[i + 1..]
  {
    match ValuePosition(es, v)
    case None => es
    case Some(i) => es[..i] + es[i + 1..]
  }

  /** Where the scan finds `v`, removeElement(v) cuts out that entry. */
  lemma RemoveFirstAt(es: seq<Entry>, v: Value, i: nat)
    requires ValuePosition(es, v) == Some(i)
    ensures Contains(es, v)
    ensures RemoveFirst(es, v) == es[..i] + es[i + 1..]
  {
  }

  /** Each removeElement(v) takes away exactly one occurrence of `v` and keeps
      every other value, so two calls remove two equal values one at a time. */
  lemma RemoveFirstOneOccurrence(es: seq<Entry>, v: Value)
    ensures multiset(Values(RemoveFirst(es, v))) == multiset(Values(es)) - multiset{v}
  {
    var p := ValuePosition(es, v);
    if p.Some? {
      var i := p.value;
      var before, after := es[..i], es[i + 1..];
      SplitAround(es, i);
      assert RemoveFirst(es, v) == before + after;
      ValuesDropOne(before, es[i], after);
    } else {
      assert v !in multiset(Values(es));
    }
  }

  /** A sequence is the part before position `i`, its entry there, and the
      part after. */
  lemma SplitAround(es: seq<Entry>, i: nat)
    requires i < |es|
    ensures es == es[..i] + [es[i]] + es[i + 1..]
  {
  }

  /** The values around one entry `e`. */
  lemma ValuesAround(before: seq<Entry>, e: Entry, after: seq<Entry>)
    ensures Values(before + [e] + after) == Values(before) + [e.1] + Values(after)
  {
    ValuesAppend(before + [e], after);
    ValuesAppend(before, [e]);
  }

  /** Dropping one entry drops exactly one occurrence of its value. */
  lemma ValuesDropOne(before: seq<Entry>, e: Entry, after: seq<Entry>)
    ensures multiset(Values(before + after)) == multiset(Values(before + [e] + after)) - multiset{e.1}
  {
    ValuesAppend(before, after);
    ValuesAround(before, e, after);
    MultisetDropMiddle(Values(before), e.1, Values(after));
  }

  lemma MultisetDropMiddle(x: seq<Value>, v: Value, y: seq<Value>)
    ensures multiset(x + [v] + y) - multiset{v} == multiset(x + y)
  {
    assert multiset(x + [v] + y) == multiset(x) + multiset{v} + multiset(y);
    assert multiset(x + y) == multiset(x) + multiset(y);
  }

  // ---------------------------------------------------------------------------
  // Transformations: map(), filter(), partition(), matching()

  /** map(): apply `f` to every value, keeping every key and the order. */
  function MapValues(es: seq<Entry>, f: Value -> Value): (r: seq<Entry>)
    ensures |r| == |es|
    ensures forall i :: 0 <= i < |es| ==> r[i] == (es[i].0, f(es[i].1))
  {
    if es == [] then [] else [(es[0].0, f(es[0].1))] + MapValues(es[1..], f)
  }

  /** map() keeps the keys, so it keeps them distinct. */
  lemma MapKeepsKeys(es: seq<Entry>, f: Value -> Value)
    requires DistinctKeys(es)
    ensures Keys(MapValues(es, f)) == Keys(es)
    ensures DistinctKeys(MapValues(es, f))
  {
  }

  /** The entries satisfying `p`, in their original order. */
  function Select(es: seq<Entry>, p: (Key, Value) -> bool): (r: seq<Entry>)
    ensures |r| <= |es|
    ensures forall e :: e in r <==> e in es && p(e.0, e.1)
  {
    if es == [] then []
    else (if p(es[0].0, es[0].1) then [es[0]] else []) + Select(es[1..], p)
  }

  /** Selecting distributes over concatenation: the kept entries keep their
      relative order. */
  lemma {:induction false} SelectAppend(a: seq<Entry>, b: seq<Entry>, p: (Key, Value) -> bool)
    ensures Select(a + b, p) == Select(a, p) + Select(b, p)
  {
    if a == [] {
      assert a + b == b;
    } else {
      assert (a + b)[1..] == a[1..] + b;
      SelectAppend(a[1..], b, p);
    }
  }

  /** A selection of a collection has distinct keys. */
  lemma {:induction false} SelectKeepsDistinct(es: seq<Entry>, p: (Key, Value) -> bool)
    ensures DistinctKeys(es) ==> DistinctKeys(Select(es, p))
  {
    if es != [] && DistinctKeys(es) {
      SelectKeepsDistinct(es[1..], p);
      var rest := Select(es[1..], p);
      var head := if p(es[0].0, es[0].1) then [es[0]] else [];
      var r := head + rest;
      forall i, j | 0 <= i < j < |r| ensures r[i].0 != r[j].0 {
        if i < |head| {
          assert r[j] in es[1..];
          var m :| 0 <= m < |es[1..]| && es[1..][m] == r[j];
          assert es[m + 1] == r[j];
        } else {
          assert r[i] == rest[i - |head|] && r[j] == rest[j - |head|];
        }
      }
    }
  }

  /** filter(): the entries whose value satisfies `p`, keys and order kept. */
  function Filter(es: seq<Entry>, p: Value -> bool): (r: seq<Entry>)
    ensures forall e :: e in r <==> e in es && p(e.1)
    ensures DistinctKeys(es) ==> DistinctKeys(r)
  {
    var keep := (k: Key, v: Value) => p(v);
    SelectKeepsDistinct(es, keep);
    Select(es, keep)
  }

  /** partition(): the entries satisfying `p` and those that do not. */
  function Partition(es: seq<Entry>, p: (Key, Value) -> bool): (r: (seq<Entry>, seq<Entry>))
    ensures forall e :: e in r.0 <==> e in es && p(e.0, e.1)
    ensures forall e :: e in r.1 <==> e in es && !p(e.0, e.1)
    ensures DistinctKeys(es) ==> DistinctKeys(r.0) && DistinctKeys(r.1)
  {
    var reject := (k: Key, v: Value) => !p(k, v);
    SelectKeepsDistinct(es, p);
    SelectKeepsDistinct(es, reject);
    (Select(es, p), Select(es, reject))
  }

  /** The two halves of a partition together hold every entry exactly once. */
  lemma {:induction false} PartitionSplits(es: seq<Entry>, p: (Key, Value) -> bool)
    ensures multiset(Partition(es, p).0) + multiset(Partition(es, p).1) == multiset(es)
  {
    if es != [] {
      PartitionSplits(es[1..], p);
      assert es == [es[0]] + es[1..];
    }
  }

  // ---------------------------------------------------------------------------
  // Integer keys for add()

  /** A collection whose entries all come from an accepted one is accepted. */
  lemma AcceptedSubset(validator: Validator, part: seq<Entry>, whole: seq<Entry>)
    requires forall e :: e in part ==> e in whole
    requires AllAccepted(validator, whole)
    ensures AllAccepted(validator, part)
  {
    forall i | 0 <= i < |part| ensures Accepts(validator, part[i].1) {
      assert part[i] in whole;
    }
  }

  /** A collection whose entries all come from one whose integer keys are
      below `n` has its integer keys below `n`. */
  lemma IntKeysBelowSubset(part: seq<Entry>, whole: seq<Entry>, n: int)
    requires forall e :: e in part ==> e in whole
    requires IntKeysBelow(whole, n)
    ensures IntKeysBelow(part, n)
  {
    forall i | 0 <= i < |part| && part[i].0.IntKey? ensures part[i].0.i < n {
      assert part[i] in whole;
    }
  }

  /** Where the internal pointer at position `c` ends up once the entry at
      position `n` is deleted: on the same entry, or on the entry that followed
      it when it was the one deleted. */
  function CursorAfterRemoval(c: nat, n: nat): (r: nat)
    ensures r <= c <= r + 1
    ensures r < c <==> n < c
  {
    if n < c then c - 1 else c
  }

  /** The invariant of a collection's state: distinct keys, an internal
      pointer within the entries or just past them, no integer key at or above
      the next free key, and every value accepted by the validator. */
  ghost predicate Consistent(es: seq<Entry>, c: nat, validator: Validator, bound: int)
  {
    && DistinctKeys(es)
    && c <= |es|
    && IntKeysBelow(es, bound)
    && AllAccepted(validator, es)
  }

  /** Deleting the entry at `n` keeps the invariant, and the pointer keeps its
      entry when that entry survives, or stays past the end. */
  lemma RemoveAtKeeps(es: seq<Entry>, n: nat, c: nat, validator: Validator, bound: int)
    requires Consistent(es, c, validator, bound) && n < |es|
    ensures Consistent(es[..n] + es[n + 1..], CursorAfterRemoval(c, n), validator, bound)
    ensures c == |es| ==> CursorAfterRemoval(c, n) == |es[..n] + es[n + 1..]|
    ensures c < |es| && c != n ==> (es[..n] + es[n + 1..])[CursorAfterRemoval(c, n)] == es[c]
  {
    var remaining := es[..n] + es[n + 1..];
    RemoveAtEntries(es, n);
    AcceptedSubset(validator, remaining, es);
    IntKeysBelowSubset(remaining, es, bound);
    if c < |es| && c != n {
      assert remaining[CursorAfterRemoval(c, n)] == es[c];
    }
  }

  /** remove(k) where the scan finds `k` at `i`: the invariant survives, the
      removed value is the one stored under `k`, and the pointer keeps its
      entry when another entry was removed, or stays past the end. */
  lemma RemoveKeyKeeps(es: seq<Entry>, k: Key, i: nat, c: nat, validator: Validator, bound: int)
    requires Consistent(es, c, validator, bound) && KeyPosition(es, k) == Some(i)
    ensures Get(es, k) == es[i].1
    ensures Consistent(RemoveKey(es, k), CursorAfterRemoval(c, i), validator, bound)
    ensures c == |es| ==> CursorAfterRemoval(c, i) == |RemoveKey(es, k)|
    ensures c < |es| && es[c].0 != k ==>
              CursorAfterRemoval(c, i) < |RemoveKey(es, k)| && RemoveKey(es, k)[CursorAfterRemoval(c, i)] == es[c]
  {
    RemoveKeyAt(es, k, i);
    RemoveAtKeeps(es, i, c, validator, bound);
  }

  /** removeElement(v) where the scan finds `v` at `i`: the same guarantees as
      for remove(k). */
  lemma RemoveFirstKeeps(es: seq<Entry>, v: Value, i: nat, c: nat, validator: Validator, bound: int)
    requires Consistent(es, c, validator, bound) && ValuePosition(es, v) == Some(i)
    ensures Contains(es, v)
    ensures Consistent(RemoveFirst(es, v), CursorAfterRemoval(c, i), validator, bound)
    ensures c == |es| ==> CursorAfterRemoval(c, i) == |RemoveFirst(es, v)|
    ensures c < |es| && es[c].1 != v ==>
              CursorAfterRemoval(c, i) < |RemoveFirst(es, v)| && RemoveFirst(es, v)[CursorAfterRemoval(c, i)] == es[c]
  {
    RemoveFirstAt(es, v, i);
    RemoveAtKeeps(es, i, c, validator, bound);
  }

  /** The next free integer key once `k` has been stored: raised past `k` when
      `k` is an integer key at or above it, and unchanged otherwise. */
  function NextFreeAfter(bound: nat, k: Key): (n: nat)
    ensures bound <= n
    ensures k.IntKey? ==> k.i < n
  {
    if k.IntKey? && k.i >= bound then k.i + 1 else bound
  }

  /** Appending `v` under the next free key keeps the invariant; that key is
      not yet in use. */
  lemma AppendKeeps(es: seq<Entry>, v: Value, c: nat, validator: Validator, bound: nat)
    requires Consistent(es, c, validator, bound) && Accepts(validator, v)
    ensures IntKey(bound) !in Keys(es)
    ensures Consistent(es + [(IntKey(bound), v)], c, validator, bound + 1)
  {
    assert forall i :: 0 <= i < |es| ==> es[i].0 == Keys(es)[i];
  }

  /** Storing an accepted `v` under `k` keeps the invariant, once the next free
      key is raised past `k`. */
  lemma PutKeeps(es: seq<Entry>, k: Key, v: Value, c: nat, validator: Validator, bound: nat)
    requires Consistent(es, c, validator, bound) && Accepts(validator, v)
    ensures Consistent(Put(es, k, v), c, validator, NextFreeAfter(bound, k))
  {
    PutLookup(es, k, v, k);
  }

  /** The key PHP gives to an appended value in a freshly built array: one
      more than the largest integer key, and never below 0. */
  function NextFreeKey(es: seq<Entry>): (n: nat)
    ensures IntKeysBelow(es, n)
    ensures n == 0 || IntKey(n - 1) in Keys(es)
  {
    if es == [] then 0
    else
      var rest := NextFreeKey(es[1..]);
      match es[0].0
      case IntKey(i) =>
        if i + 1 > rest then
          assert Keys(es)[0] == IntKey(i);
          i + 1
        else
          KeyInTail(es, rest);
          rest
      case StrKey(_) =>
        KeyInTail(es, rest);
        rest
  }

  /** A key of the entries after the first is a key of the whole. */
  lemma KeyInTail(es: seq<Entry>, rest: nat)
    requires es != [] && (rest == 0 || IntKey(rest - 1) in Keys(es[1..]))
    ensures rest == 0 || IntKey(rest - 1) in Keys(es)
  {
    if rest != 0 {
      var j :| 0 <= j < |es| - 1 && Keys(es[1..])[j] == IntKey(rest - 1);
      assert Keys(es)[j + 1] == IntKey(rest - 1);
    }
  }
}

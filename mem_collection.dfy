/**
 * The per-collection insert buffer the manager keeps. Its internals live
 * outside the manager, so it is modelled as an opaque object: a collection
 * id, a memory counter, and a log of the requests it has been handed.
 * Each request may fail and may change the counter in ways the manager
 * cannot see; both are chosen nondeterministically.
 */
module MemCollections {
  import opened MemTypes

  /** A request the manager hands to a buffer. */
  datatype Request =
    | AddRequest(partitionId: int, chunk: DataChunk, opId: int)
    | DeleteRequest(entityIds: seq<int>, opId: int)
    | ErasePartitionRequest(partitionId: int)
    | SerializeRequest

  class MemCollection {
    const collectionId: int
    /** The bytes the buffer reports through GetCurrentMem. */
    var size: nat
    /** Every request this buffer has received, oldest first. */
    ghost var received: seq<Request>

    constructor (id: int)
      ensures collectionId == id && size == 0 && received == []
    {
      collectionId := id;
      size := 0;
      received := [];
    }

    /** The status a request reports: success or a failure of this buffer, undetermined. */
    method Outcome() returns (s: Status)
      ensures s == Ok || s == Err(BufferError(collectionId))
    {
      var ok: bool :| true;
      s := if ok then Ok else Err(BufferError(collectionId));
    }

    method Add(partitionId: int, chunk: DataChunk, opId: int) returns (s: Status)
      modifies this
      ensures received == old(received) + [AddRequest(partitionId, chunk, opId)]
      ensures s == Ok || s == Err(BufferError(collectionId))
    {
      received := received + [AddRequest(partitionId, chunk, opId)];
      var n: nat :| true;
      size := n;
      s := Outcome();
    }

    method Delete(entityIds: seq<int>, opId: int) returns (s: Status)
      modifies this
      ensures received == old(received) + [DeleteRequest(entityIds, opId)]
      ensures s == Ok || s == Err(BufferError(collectionId))
    {
      received := received + [DeleteRequest(entityIds, opId)];
      var n: nat :| true;
      size := n;
      s := Outcome();
    }

    method EraseMem(partitionId: int)
      modifies this
      ensures received == old(received) + [ErasePartitionRequest(partitionId)]
    {
      received := received + [ErasePartitionRequest(partitionId)];
      var n: nat :| true;
      size := n;
    }

    /** Writes the buffer to storage; the manager only sees the status. */
    method Serialize() returns (s: Status)
      modifies this
      ensures received == old(received) + [SerializeRequest]
      ensures s == Ok || s == Err(BufferError(collectionId))
    {
      received := received + [SerializeRequest];
      var n: nat :| true;
      size := n;
      s := Outcome();
    }

    method GetCurrentMem() returns (n: nat)
      ensures n == size
    {
      n := size;
    }
  }

  /** No buffer occurs twice in `list`. */
  predicate Distinct(list: seq<MemCollection>)
  {
    forall i, j | 0 <= i < j < |list| :: list[i] != list[j]
  }

  lemma DistinctAppend(a: seq<MemCollection>, b: seq<MemCollection>)
    requires Distinct(a) && Distinct(b)
    requires forall i, j | 0 <= i < |a| && 0 <= j < |b| :: a[i] != b[j]
    ensures Distinct(a + b)
  {
  }

  /** The buffers a map holds. */
  function MapBuffers(m: map<int, MemCollection>): set<MemCollection>
  {
    set k | k in m :: m[k]
  }

  /** The buffers of `list` whose collection id is not `id`, in their order. */
  function Without(list: seq<MemCollection>, id: int): seq<MemCollection>
  {
    if list == [] then []
    else
      var last := list[|list| - 1];
      Without(list[..|list| - 1], id) + (if last.collectionId != id then [last] else [])
  }

  /** The collection ids of the buffers in `list`. */
  function IdsOf(list: seq<MemCollection>): set<int>
  {
    if list == [] then {}
    else IdsOf(list[..|list| - 1]) + {list[|list| - 1].collectionId}
  }

  /** The sum of the memory counters of the buffers in `list`. */
  ghost function ListMem(list: seq<MemCollection>): nat
    reads list
  {
    if list == [] then 0
    else ListMem(list[..|list| - 1]) + list[|list| - 1].size
  }

  /** The entries of `m` whose keys are in `keys`. */
  function Restrict(m: map<int, nat>, keys: set<int>): (r: map<int, nat>)
    ensures r.Keys == m.Keys * keys
    ensures forall k | k in r :: r[k] == m[k]
  {
    map k | k in m && k in keys :: m[k]
  }

  /** The sum of the values of a map. */
  ghost function SumValues(m: map<int, nat>): nat
    decreases |m|
  {
    if m == map[] then 0
    else
      MapHasKey(m);
      var k :| k in m;
      m[k] + SumValues(m - {k})
  }

  // General facts about maps and sets, used by SumValues and the manager's proofs; they say
  // nothing about the buffers themselves.

  lemma NoKeyEmpty(m: map<int, nat>)
    requires forall k :: k !in m
    ensures m == map[]
  {
    var e: map<int, nat> := map[];
    assert forall k :: k in m <==> k in e;
    assert m == e;
  }

  lemma MapHasKey(m: map<int, nat>)
    requires m != map[]
    ensures exists k :: k in m
  {
    if forall k :: k !in m {
      NoKeyEmpty(m);
    }
  }

  lemma NoMemberEmpty(s: set<int>)
    requires forall k :: k !in s
    ensures s == {}
  {
    var e: set<int> := {};
    assert forall k :: k in s <==> k in e;
    assert s == e;
  }

  lemma SetHasMember(s: set<int>)
    requires s != {}
    ensures exists k :: k in s
  {
    if forall k :: k !in s {
      NoMemberEmpty(s);
    }
  }

  /** Filtering distributes over concatenation, so the relative order of the kept buffers is kept. */
  lemma {:induction false} WithoutAppend(a: seq<MemCollection>, b: seq<MemCollection>, id: int)
    ensures Without(a + b, id) == Without(a, id) + Without(b, id)
    decreases |b|
  {
    if b != [] {
      var b' := b[..|b| - 1];
      assert (a + b)[..|a + b| - 1] == a + b';
      WithoutAppend(a, b', id);
    } else {
      assert a + b == a;
    }
  }

  /** The filter keeps exactly the buffers of other collections. */
  lemma {:induction false} WithoutMembers(list: seq<MemCollection>, id: int)
    ensures |Without(list, id)| <= |list|
    ensures forall b | b in Without(list, id) :: b in list && b.collectionId != id
    ensures forall b | b in list && b.collectionId != id :: b in Without(list, id)
    decreases |list|
  {
    if list != [] {
      var init := list[..|list| - 1];
      WithoutMembers(init, id);
      assert list == init + [list[|list| - 1]];
    }
  }

  /** A collection id is among the ids of a list exactly when some buffer of the list has it. */
  lemma {:induction false} IdsOfMembers(list: seq<MemCollection>)
    ensures forall b | b in list :: b.collectionId in IdsOf(list)
    ensures forall x | x in IdsOf(list) :: exists b | b in list :: b.collectionId == x
    decreases |list|
  {
    if list != [] {
      var init := list[..|list| - 1];
      IdsOfMembers(init);
      assert list == init + [list[|list| - 1]];
    }
  }

  /** Filtering a list without repeats gives a list without repeats. */
  lemma {:induction false} WithoutDistinct(list: seq<MemCollection>, id: int)
    requires Distinct(list)
    ensures Distinct(Without(list, id))
    decreases |list|
  {
    if list != [] {
      var init := list[..|list| - 1];
      var last := list[|list| - 1];
      assert Distinct(init) by {
        forall i, j | 0 <= i < j < |init| ensures init[i] != init[j] {
          assert init[i] == list[i] && init[j] == list[j];
        }
      }
      WithoutDistinct(init, id);
      WithoutMembers(init, id);
      assert last !in init by {
        forall i | 0 <= i < |init| ensures init[i] != last {
          assert init[i] == list[i];
        }
      }
    }
  }

  /** Filtering twice by the same id filters once. */
  lemma {:induction false} WithoutIdempotent(list: seq<MemCollection>, id: int)
    ensures Without(Without(list, id), id) == Without(list, id)
    decreases |list|
  {
    if list != [] {
      var init := list[..|list| - 1];
      var last := list[|list| - 1];
      WithoutIdempotent(init, id);
      var tail := if last.collectionId != id then [last] else [];
      WithoutAppend(Without(init, id), tail, id);
    }
  }

  /** A list with no buffer of collection `id` is left as it is. */
  lemma {:induction false} WithoutNoMatch(list: seq<MemCollection>, id: int)
    requires forall i | 0 <= i < |list| :: list[i].collectionId != id
    ensures Without(list, id) == list
    decreases |list|
  {
    if list != [] {
      var init := list[..|list| - 1];
      assert forall i | 0 <= i < |init| :: init[i] == list[i];
      WithoutNoMatch(init, id);
      assert list == init + [list[|list| - 1]];
    }
  }

  lemma {:induction false} IdsOfAppend(a: seq<MemCollection>, b: seq<MemCollection>)
    ensures IdsOf(a + b) == IdsOf(a) + IdsOf(b)
    decreases |b|
  {
    if b != [] {
      var b' := b[..|b| - 1];
      assert (a + b)[..|a + b| - 1] == a + b';
      IdsOfAppend(a, b');
    } else {
      assert a + b == a;
    }
  }

  /** The ids of a prefix are among the ids of the whole list. */
  lemma IdsOfPrefix(list: seq<MemCollection>, k: nat)
    requires k <= |list|
    ensures IdsOf(list[..k]) <= IdsOf(list)
  {
    assert list == list[..k] + list[k..];
    IdsOfAppend(list[..k], list[k..]);
  }

  /** A list holding exactly the buffers of a map, each under its own id, has the map's keys as ids. */
  lemma IdsOfMapValues(m: map<int, MemCollection>, list: seq<MemCollection>)
    requires forall k | k in m :: m[k].collectionId == k && m[k] in list
    requires forall b | b in list :: b.collectionId in m
    ensures IdsOf(list) == m.Keys
  {
    IdsOfMembers(list);
    forall x | x in m.Keys ensures x in IdsOf(list) {
      assert m[x] in list;
    }
    forall x | x in IdsOf(list) ensures x in m.Keys {
      var b :| b in list && b.collectionId == x;
    }
  }

  /** Sealing the buffers of `m` behind `prefix` leaves every buffer of either in the list. */
  lemma SealedCoversAll(m: map<int, MemCollection>, prefix: seq<MemCollection>, list: seq<MemCollection>)
    requires |prefix| <= |list| && list[..|prefix|] == prefix
    requires forall k | k in m :: m[k] in list[|prefix|..]
    ensures forall b | b in MapBuffers(m) + (set b | b in prefix) :: b in list
  {
    forall b | b in MapBuffers(m) + (set b | b in prefix) ensures b in list {
      if b in prefix {
        var i :| 0 <= i < |prefix| && prefix[i] == b;
        assert list[i] == b;
      } else {
        var k :| k in m && m[k] == b;
        assert m[k] in list[|prefix|..];
      }
    }
  }

  lemma PrefixSplit(list: seq<MemCollection>, prefix: seq<MemCollection>)
    requires |prefix| <= |list| && list[..|prefix|] == prefix
    ensures list == prefix + list[|prefix|..]
  {
  }

  lemma {:induction false} ListMemAppend(a: seq<MemCollection>, b: seq<MemCollection>)
    ensures ListMem(a + b) == ListMem(a) + ListMem(b)
    decreases |b|
  {
    if b != [] {
      var b' := b[..|b| - 1];
      assert (a + b)[..|a + b| - 1] == a + b';
      ListMemAppend(a, b');
    } else {
      assert a + b == a;
    }
  }

  /** The sum of a map's values may be taken starting from any key. */
  lemma {:induction false} SumValuesRemove(m: map<int, nat>, k: int)
    requires k in m
    ensures SumValues(m) == m[k] + SumValues(m - {k})
    decreases |m|
  {
    var j :| j in m && SumValues(m) == m[j] + SumValues(m - {j});
    if j != k {
      assert (m - {j}) - {k} == (m - {k}) - {j};
      SumValuesRemove(m - {j}, k);
      SumValuesRemove(m - {k}, j);
    }
  }
}

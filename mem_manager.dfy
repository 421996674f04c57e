/**
 * The insert buffer manager: one mutable buffer per collection, and a list
 * of sealed buffers waiting to be written to storage. Each public method is
 * modelled as one atomic step; the locks it takes are not modelled.
 */
module MemManager {
  import opened MemTypes
  import opened ChunkValidation
  import opened MemCollections

  class MemManagerImpl {
    /** The mutable buffers, keyed by collection id. */
    var memMap: map<int, MemCollection>
    /** The sealed buffers waiting to be serialised, in the order they were sealed. */
    var immuList: seq<MemCollection>

    /**
     * Each mutable buffer sits under its own collection id, no sealed buffer is
     * queued twice, and a buffer is either mutable or sealed, never both.
     */
    ghost predicate Valid()
      reads this
    {
      && (forall id | id in memMap :: memMap[id].collectionId == id)
      && Distinct(immuList)
      && (forall id, i | id in memMap && 0 <= i < |immuList| :: memMap[id] != immuList[i])
    }

    /** Every buffer the manager holds. */
    ghost function Buffers(): set<MemCollection>
      reads this
    {
      MapBuffers(memMap) + set b | b in immuList
    }

    /** The memory counter of each mutable buffer. */
    ghost function Sizes(): map<int, nat>
      reads this, memMap.Values
    {
      map id | id in memMap :: memMap[id].size
    }

    ghost function MutableMem(): nat
      reads this, memMap.Values
    {
      SumValues(Sizes())
    }

    ghost function ImmutableMem(): nat
      reads this, immuList
    {
      ListMem(immuList)
    }

    constructor ()
      ensures Valid() && memMap == map[] && immuList == []
    {
      memMap := map[];
      immuList := [];
    }

    /** The mutable buffer of a collection, created empty when there is none. */
    method GetMemByCollection(id: int) returns (mem: MemCollection)
      requires Valid()
      modifies this
      ensures Valid()
      ensures mem.collectionId == id && memMap == old(memMap)[id := mem]
      ensures id in old(memMap) ==> mem == old(memMap[id]) && memMap == old(memMap)
      ensures id !in old(memMap) ==> fresh(mem) && mem.size == 0 && mem.received == []
      ensures immuList == old(immuList)
    {
      if id in memMap {
        mem := memMap[id];
      } else {
        mem := new MemCollection(id);
        memMap := memMap[id := mem];
      }
    }

    /** Validates the chunk and, when it is acceptable, hands it to the collection's buffer. */
    method InsertEntities(id: int, partitionId: int, chunk: Option<DataChunk>, snapshot: Result<Schema>, opId: int)
      returns (s: Status)
      requires Valid()
      modifies this, Buffers()
      ensures Valid()
      ensures immuList == old(immuList)
      ensures ValidateChunk(chunk, snapshot).Err? ==>
                && s == ValidateChunk(chunk, snapshot)
                && memMap == old(memMap)
                && forall b | b in old(Buffers()) :: b.size == old(b.size) && b.received == old(b.received)
      ensures ValidateChunk(chunk, snapshot).Ok? ==>
                && id in memMap && memMap == old(memMap)[id := memMap[id]]
                && (id in old(memMap) ==> memMap[id] == old(memMap[id]))
                && memMap[id].received ==
                     (if id in old(memMap) then old(memMap[id].received) else []) + [AddRequest(partitionId, chunk.value, opId)]
                && (s == Ok || s == Err(BufferError(id)))
                && forall b | b in old(Buffers()) && b != memMap[id] :: b.size == old(b.size) && b.received == old(b.received)
    {
      s := ValidateChunk(chunk, snapshot);
      if s.Err? {
        return;
      }
      s := InsertEntitiesNoLock(id, partitionId, chunk.value, opId);
    }

    method InsertEntitiesNoLock(id: int, partitionId: int, chunk: DataChunk, opId: int) returns (s: Status)
      requires Valid()
      modifies this, Buffers()
      ensures Valid()
      ensures immuList == old(immuList)
      ensures id in memMap && memMap == old(memMap)[id := memMap[id]]
      ensures id in old(memMap) ==> memMap[id] == old(memMap[id])
      ensures memMap[id].received ==
                (if id in old(memMap) then old(memMap[id].received) else []) + [AddRequest(partitionId, chunk, opId)]
      ensures s == Ok || s == Err(BufferError(id))
      ensures forall b | b in old(Buffers()) && b != memMap[id] :: b.size == old(b.size) && b.received == old(b.received)
    {
      var mem := GetMemByCollection(id);
      s := mem.Add(partitionId, chunk, opId);
    }

    /** Hands the ids to delete to the collection's buffer, created empty when there is none. */
    method DeleteEntities(id: int, entityIds: seq<int>, opId: int) returns (s: Status)
      requires Valid()
      modifies this, Buffers()
      ensures Valid()
      ensures immuList == old(immuList)
      ensures id in memMap && memMap == old(memMap)[id := memMap[id]]
      ensures id in old(memMap) ==> memMap[id] == old(memMap[id])
      ensures memMap[id].received ==
                (if id in old(memMap) then old(memMap[id].received) else []) + [DeleteRequest(entityIds, opId)]
      ensures s == Ok || s == Err(BufferError(id))
      ensures forall b | b in old(Buffers()) && b != memMap[id] :: b.size == old(b.size) && b.received == old(b.received)
    {
      var mem := GetMemByCollection(id);
      s := mem.Delete(entityIds, opId);
    }

    /** Seals the mutable buffer of one collection, if it has one. */
    method ToImmutable(id: int) returns (s: Status)
      requires Valid()
      modifies this
      ensures Valid() && s == Ok
      ensures id in old(memMap) ==> immuList == old(immuList) + [old(memMap[id])]
      ensures id !in old(memMap) ==> immuList == old(immuList) && memMap == old(memMap)
      ensures memMap == old(memMap) - {id}
      ensures MutableMem() + ImmutableMem() == old(MutableMem() + ImmutableMem())
    {
      if id in memMap {
        var mem := memMap[id];
        ghost var sizes := Sizes();
        SumValuesRemove(sizes, id);
        ListMemAppend(immuList, [mem]);
        assert [mem][..0] == [];
        immuList := immuList + [mem];
        memMap := memMap - {id};
        assert Sizes() == sizes - {id};
      } else {
        assert memMap == memMap - {id};
      }
      s := Ok;
    }

    /** Seals every mutable buffer, in the map's iteration order. */
    method ToImmutableAll() returns (s: Status)
      requires Valid()
      modifies this
      ensures Valid() && s == Ok
      ensures memMap == map[]
      ensures |immuList| == |old(immuList)| + |old(memMap)|
      ensures immuList[..|old(immuList)|] == old(immuList)
      ensures forall k | k in old(memMap) :: old(memMap[k]) in immuList[|old(immuList)|..]
      ensures forall b | b in immuList[|old(immuList)|..] ::
                b.collectionId in old(memMap) && old(memMap)[b.collectionId] == b
      ensures ImmutableMem() == old(ImmutableMem() + MutableMem())
    {
      ghost var l0, sizes := immuList, Sizes();
      ghost var before := ListMem(l0) + SumValues(sizes);
      var sealed := SealOrder(memMap, sizes);
      SealAppend(memMap, l0, sealed);
      immuList := immuList + sealed;
      memMap := map[];
      assert ImmutableMem() == before;
      s := Ok;
    }

    /**
     * Takes the whole sealed list and serialises its buffers in order, adding
     * the collection id of each one written to `ids`; stops at the first failure.
     * The list is emptied on every path; as one atomic step, emptying it after
     * the loop leaves the same state as swapping it out before the loop.
     */
    method InternalFlush(ids: set<int>) returns (s: Status, ids': set<int>)
      requires Valid()
      modifies this, Buffers()
      ensures Valid()
      ensures immuList == [] && memMap == old(memMap)
      ensures forall k | k in memMap :: Untouched(memMap[k])
      ensures FlushOutcome(old(immuList), ids, s, ids')
      ensures s.Err? ==> s.error.BufferError? && s.error.collectionId in IdsOf(old(immuList))
    {
      var temp := immuList;
      s, ids' := SerializeAll(temp, ids);
      immuList := [];
    }

    /** Seals one collection's mutable buffer and serialises the whole sealed list. */
    method Flush(id: int) returns (s: Status)
      requires Valid()
      modifies this, Buffers()
      ensures Valid()
      ensures immuList == [] && memMap == old(memMap) - {id}
      ensures s.Ok? ==> forall i | 0 <= i < |old(immuList)| :: GotOne(old(immuList)[i], SerializeRequest)
      ensures s.Ok? && id in old(memMap) ==> GotOne(old(memMap[id]), SerializeRequest)
      ensures s.Err? ==> s.error.BufferError?
      ensures s.Err? ==> s.error.collectionId in IdsOf(old(immuList)) || (s.error.collectionId == id && id in old(memMap))
      ensures forall k | k in memMap :: Untouched(memMap[k])
    {
      var _ := ToImmutable(id);
      IdsOfAppend(old(immuList), if id in old(memMap) then [old(memMap[id])] else []);
      if id in old(memMap) {
        assert IdsOf([old(memMap[id])]) == {id} by {
          assert [old(memMap[id])][..0] == [];
        }
      }
      var written;
      s, written := InternalFlush({});
    }

    /**
     * Seals every mutable buffer and serialises the whole sealed list; on
     * success `ids` has gained the id of every collection that had a buffer.
     */
    method FlushAll(ids: set<int>) returns (s: Status, ids': set<int>)
      requires Valid()
      modifies this, Buffers()
      ensures Valid()
      ensures immuList == [] && memMap == map[]
      ensures ids <= ids' <= ids + old(memMap.Keys) + IdsOf(old(immuList))
      ensures s.Ok? ==> ids' == ids + old(memMap.Keys) + IdsOf(old(immuList))
      ensures s.Ok? ==> forall b | b in old(Buffers()) :: GotOne(b, SerializeRequest)
      ensures s.Err? ==> s.error.BufferError? && s.error.collectionId in old(memMap.Keys) + IdsOf(old(immuList))
    {
      ghost var m0 := memMap;
      ghost var l0 := immuList;
      var _ := ToImmutableAll();
      ghost var l1 := immuList;
      SealedAllFacts(m0, l0, l1);
      s, ids' := InternalFlush(ids);
      if s.Err? {
        ghost var k :| 0 <= k < |l1| && ids' == ids + IdsOf(l1[..k]);
        IdsOfPrefix(l1, k);
      }
    }

    /** Drops a collection's mutable buffer and every sealed buffer of that collection. */
    method EraseMem(id: int) returns (s: Status)
      requires Valid()
      modifies this
      ensures Valid() && s == Ok
      ensures memMap == old(memMap) - {id}
      ensures immuList == Without(old(immuList), id)
    {
      memMap := memMap - {id};
      var temp: seq<MemCollection> := [];
      var i := 0;
      while i < |immuList|
        invariant 0 <= i <= |immuList| && immuList == old(immuList)
        invariant temp == Without(immuList[..i], id)
      {
        assert immuList[..i + 1][..i] == immuList[..i];
        if immuList[i].collectionId != id {
          temp := temp + [immuList[i]];
        }
        i := i + 1;
      }
      assert immuList[..i] == immuList;
      WithoutDistinct(immuList, id);
      WithoutMembers(immuList, id);
      immuList := temp;
      s := Ok;
    }

    /**
     * Asks the collection's mutable buffer, if any, and every sealed buffer,
     * whatever its collection, to drop one partition.
     */
    method EraseMemPartition(id: int, partitionId: int) returns (s: Status)
      requires Valid()
      modifies Buffers()
      ensures Valid() && s == Ok
      ensures memMap == old(memMap) && immuList == old(immuList)
      ensures id in memMap ==>
                memMap[id].received == old(memMap[id].received) + [ErasePartitionRequest(partitionId)]
      ensures forall k | k in memMap && k != id ::
                memMap[k].size == old(memMap[k].size) && memMap[k].received == old(memMap[k].received)
      ensures forall i | 0 <= i < |immuList| ::
                immuList[i].received == old(immuList[i].received) + [ErasePartitionRequest(partitionId)]
    {
      if id in memMap {
        memMap[id].EraseMem(partitionId);
      }
      var i := 0;
      while i < |immuList|
        invariant 0 <= i <= |immuList|
        invariant id in memMap ==>
                    memMap[id].received == old(memMap[id].received) + [ErasePartitionRequest(partitionId)]
        invariant forall k | k in memMap && k != id ::
                    memMap[k].size == old(memMap[k].size) && memMap[k].received == old(memMap[k].received)
        invariant forall j | 0 <= j < i ::
                    immuList[j].received == old(immuList[j].received) + [ErasePartitionRequest(partitionId)]
        invariant forall j | i <= j < |immuList| :: immuList[j].received == old(immuList[j].received)
      {
        immuList[i].EraseMem(partitionId);
        i := i + 1;
      }
      s := Ok;
    }

    /** The memory held by the mutable buffers. */
    method GetCurrentMutableMem() returns (total: nat)
      ensures total == MutableMem()
    {
      total := 0;
      ghost var sizes := Sizes();
      var remaining := memMap.Keys;
      assert Restrict(sizes, remaining) == sizes;
      while remaining != {}
        invariant remaining <= memMap.Keys
        invariant total + SumValues(Restrict(sizes, remaining)) == SumValues(sizes)
        decreases remaining
      {
        SetHasMember(remaining);
        var k :| k in remaining;
        var n := memMap[k].GetCurrentMem();
        SumValuesRemove(Restrict(sizes, remaining), k);
        assert Restrict(sizes, remaining) - {k} == Restrict(sizes, remaining - {k});
        total := total + n;
        remaining := remaining - {k};
      }
      assert Restrict(sizes, remaining) == map[];
    }

    /** The memory held by the sealed buffers. */
    method GetCurrentImmutableMem() returns (total: nat)
      ensures total == ImmutableMem()
    {
      total := 0;
      var i := 0;
      while i < |immuList|
        invariant 0 <= i <= |immuList|
        invariant total == ListMem(immuList[..i])
      {
        assert immuList[..i + 1][..i] == immuList[..i];
        var n := immuList[i].GetCurrentMem();
        total := total + n;
        i := i + 1;
      }
      assert immuList[..i] == immuList;
    }

    /** The memory held by all buffers, mutable and sealed. */
    method GetCurrentMem() returns (total: nat)
      ensures total == MutableMem() + ImmutableMem()
    {
      var m := GetCurrentMutableMem();
      var n := GetCurrentImmutableMem();
      total := m + n;
    }
  }

  /** The loop of ToImmutableAll over the mutable buffers: lists each once, in the map's iteration order. */
  method SealOrder(m: map<int, MemCollection>, ghost sizes: map<int, nat>) returns (sealed: seq<MemCollection>)
    requires forall id | id in m :: m[id].collectionId == id
    requires sizes.Keys == m.Keys && forall id | id in m :: sizes[id] == m[id].size
    ensures |sealed| == |m| && Distinct(sealed)
    ensures forall k | k in m :: m[k] in sealed
    ensures forall b | b in sealed :: b.collectionId in m && m[b.collectionId] == b
    ensures ListMem(sealed) == SumValues(sizes)
  {
    sealed := [];
    var remaining := m.Keys;
    assert Restrict(sizes, remaining) == sizes;
    while remaining != {}
      invariant SealedSoFar(m, sizes, sealed, remaining)
      decreases remaining
    {
      SetHasMember(remaining);
      var k :| k in remaining;
      SealStep(m, sizes, sealed, remaining, k);
      sealed := sealed + [m[k]];
      remaining := remaining - {k};
    }
    assert Restrict(sizes, {}) == map[];
  }

  /**
   * The progress of sealing every buffer of `m0`: `tail` holds, once each and
   * under their own ids, the buffers of the keys no longer `remaining`, and
   * the memory they hold plus that of the remaining ones is the map's total.
   */
  ghost predicate SealedSoFar(m0: map<int, MemCollection>, sizes: map<int, nat>, tail: seq<MemCollection>,
                              remaining: set<int>)
    reads tail
  {
    && remaining <= m0.Keys
    && (forall id | id in m0 :: m0[id].collectionId == id)
    && sizes.Keys == m0.Keys
    && |tail| + |remaining| == |m0.Keys|
    && (forall k | k in m0 && k !in remaining :: m0[k] in tail)
    && (forall b | b in tail :: b.collectionId in m0 && b.collectionId !in remaining && m0[b.collectionId] == b)
    && (forall b | b in tail :: b.size == sizes[b.collectionId])
    && Distinct(tail)
    && ListMem(tail) + SumValues(Restrict(sizes, remaining)) == SumValues(sizes)
  }

  lemma SealStep(m0: map<int, MemCollection>, sizes: map<int, nat>, tail: seq<MemCollection>,
                 remaining: set<int>, k: int)
    requires SealedSoFar(m0, sizes, tail, remaining) && k in remaining
    requires m0[k].size == sizes[k]
    ensures SealedSoFar(m0, sizes, tail + [m0[k]], remaining - {k})
  {
    var mem := m0[k];
    SumValuesRemove(Restrict(sizes, remaining), k);
    assert Restrict(sizes, remaining) - {k} == Restrict(sizes, remaining - {k});
    ListMemAppend(tail, [mem]);
    assert [mem][..0] == [];
  }

  /** Appending the sealed buffers of `m0` behind the list `l0`, which holds none of them. */
  lemma SealAppend(m0: map<int, MemCollection>, l0: seq<MemCollection>, tail: seq<MemCollection>)
    requires Distinct(l0) && Distinct(tail)
    requires forall id, i | id in m0 && 0 <= i < |l0| :: m0[id] != l0[i]
    requires forall b | b in tail :: b.collectionId in m0 && m0[b.collectionId] == b
    ensures Distinct(l0 + tail)
    ensures ListMem(l0 + tail) == ListMem(l0) + ListMem(tail)
    ensures (l0 + tail)[..|l0|] == l0 && (l0 + tail)[|l0|..] == tail
  {
    ListMemAppend(l0, tail);
    forall i, j | 0 <= i < |l0| && 0 <= j < |tail| ensures l0[i] != tail[j] {
      assert tail[j] in tail;
    }
    DistinctAppend(l0, tail);
  }

  /** What sealing every buffer of `m0` behind `l0` into `l1` means for the ids and buffers of `l1`. */
  lemma SealedAllFacts(m0: map<int, MemCollection>, l0: seq<MemCollection>, l1: seq<MemCollection>)
    requires |l0| <= |l1| && l1[..|l0|] == l0
    requires forall k | k in m0 :: m0[k].collectionId == k && m0[k] in l1[|l0|..]
    requires forall b | b in l1[|l0|..] :: b.collectionId in m0 && m0[b.collectionId] == b
    ensures IdsOf(l1) == m0.Keys + IdsOf(l0)
    ensures forall b :: b in MapBuffers(m0) + (set b | b in l0) <==> b in l1
  {
    forall b | b in l1 ensures b in MapBuffers(m0) + (set b | b in l0) {
      var i :| 0 <= i < |l1| && l1[i] == b;
      if i < |l0| {
        assert l0[i] == b;
      } else {
        assert b in l1[|l0|..];
      }
    }
    PrefixSplit(l1, l0);
    SealedCoversAll(m0, l0, l1);
    IdsOfAppend(l0, l1[|l0|..]);
    IdsOfMapValues(m0, l1[|l0|..]);
  }

  /** The buffer's counter and log are as they were. */
  twostate predicate Untouched(b: MemCollection)
    reads b
  {
    b.size == old(b.size) && b.received == old(b.received)
  }

  /** The buffer has received exactly one more request, `r`. */
  twostate predicate GotOne(b: MemCollection, r: Request)
    reads b
  {
    b.received == old(b.received) + [r]
  }

  /**
   * The outcome of serialising `list` in order, starting from the id set `ids`:
   * on success every buffer was serialised and `ids'` gained all their ids; on
   * failure some buffer k failed, and only the buffers before it had their ids
   * added, while the buffers after it were never asked.
   */
  twostate predicate FlushOutcome(list: seq<MemCollection>, ids: set<int>, s: Status, ids': set<int>)
    reads list
  {
    if s.Ok? then
      && ids' == ids + IdsOf(list)
      && forall i | 0 <= i < |list| :: GotOne(list[i], SerializeRequest)
    else
      exists k | 0 <= k < |list| ::
        && s == Err(BufferError(list[k].collectionId))
        && ids' == ids + IdsOf(list[..k])
        && (forall i | 0 <= i <= k :: GotOne(list[i], SerializeRequest))
        && (forall i | k < i < |list| :: Untouched(list[i]))
  }

  /** The loop of InternalFlush over the list it has taken. */
  method SerializeAll(list: seq<MemCollection>, ids: set<int>) returns (s: Status, ids': set<int>)
    requires Distinct(list)
    modifies list
    ensures FlushOutcome(list, ids, s, ids')
    ensures s.Err? ==> s.error.BufferError? && s.error.collectionId in IdsOf(list)
  {
    ids' := ids;
    var i := 0;
    while i < |list|
      invariant 0 <= i <= |list|
      invariant ids' == ids + IdsOf(list[..i])
      invariant forall j | 0 <= j < i :: GotOne(list[j], SerializeRequest)
      invariant forall j | i <= j < |list| :: Untouched(list[j])
    {
      var mem := list[i];
      var st := mem.Serialize();
      if st.Err? {
        s := st;
        assert forall j | i < j < |list| :: Untouched(list[j]);
        assert list[..i + 1][..i] == list[..i];
        IdsOfPrefix(list, i + 1);
        return;
      }
      assert list[..i + 1][..i] == list[..i];
      ids' := ids' + {mem.collectionId};
      i := i + 1;
    }
    assert list[..i] == list;
    s := Ok;
  }
}

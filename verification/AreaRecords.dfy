/**
 * The records of areas (`struct vma`, 20 bytes each) come from the kernel heap and go back to it
 * (`kernel/mm/vmm.c`).  The answer of `kfree` is ignored, so a record whose release is refused is lost.
 */
module AreaRecords {
  import opened PageTables
  import opened FrameAllocator
  import opened Paging
  import opened VirtualMemory
  import HeapBlocks
  import KernelHeap
  import HeapRuns

  const RECORD_SIZE: int := 20

  /** An area, by its space and its first address. */
  datatype Key = Key(pd: nat, start: nat)

  type Table = map<Key, int>

  /** The one place from which `kfree` takes no record back. */
  function Tail(end: int): int { end - 24 }

  /** Everything held is the record of one area, a lost record, or somebody else's. */
  ghost predicate Listed(at: Table, live: HeapRuns.Holdings, lost: set<int>, others: set<int>, tail: int) {
    && live.Keys == at.Values + lost + others && at.Values !! lost && at.Values !! others && lost !! others && lost <= {tail}
    && (forall k {:trigger at[k]} :: k in at ==> at[k] in live && live[at[k]] == RECORD_SIZE)
    && (forall k, j {:trigger at[k], at[j]} :: k in at && j in at && at[k] == at[j] ==> k == j)
  }

  lemma RecordAdded(at: Table, live: HeapRuns.Holdings, lost: set<int>, others: set<int>, tail: int, k: Key, ptr: int)
    requires Listed(at, live, lost, others, tail) && k !in at && ptr !in live
    ensures Listed(at[k := ptr], live[ptr := RECORD_SIZE], lost, others, tail)
  {
    assert at[k := ptr].Values == at.Values + {ptr} by { ValuesAdded(at, k, ptr); }
    assert forall j :: j in at ==> at[j] in live.Keys;
  }

  lemma ValuesAdded(at: Table, k: Key, ptr: int)
    requires k !in at
    ensures at[k := ptr].Values == at.Values + {ptr}
  {
    var at' := at[k := ptr];
    forall v | v in at.Values + {ptr} ensures v in at'.Values {
      if v == ptr {
        assert at'[k] == v;
      } else {
        var j :| j in at && at[j] == v;
        assert j in at' && at'[j] == v;
      }
    }
  }

  lemma ValuesDropped(at: Table, k: Key)
    requires k in at && forall i, j {:trigger at[i], at[j]} :: i in at && j in at && at[i] == at[j] ==> i == j
    ensures (at - {k}).Values == at.Values - {at[k]}
  {
    var at' := at - {k};
    forall v | v in at.Values - {at[k]} ensures v in at'.Values {
      var j :| j in at && at[j] == v;
      assert j in at' && at'[j] == v;
    }
    forall v | v in at'.Values ensures v in at.Values - {at[k]} {
      var j :| j in at' && at'[j] == v;
      assert j in at && at[j] == v;
    }
  }

  /** A record went back to the heap, or is lost because of its place. */
  lemma RecordGone(at: Table, live: HeapRuns.Holdings, lost: set<int>, others: set<int>, tail: int, k: Key, back: bool)
    requires Listed(at, live, lost, others, tail) && k in at && (!back ==> at[k] == tail)
    ensures Listed(at - {k}, if back then live - {at[k]} else live, if back then lost else lost + {at[k]}, others, tail)
  {
    ValuesDropped(at, k);
    assert at[k] in at.Values;
    assert forall j :: j in at && j != k ==> at[j] != at[k];
  }

  /** The records of all other spaces. */
  ghost function Without(at: Table, pd: nat): Table { map k | k in at && k.pd != pd :: at[k] }

  ghost function RecordsOf(at: Table, pd: nat): set<int> { set k | k in at && k.pd == pd :: at[k] }

  class Records {
    const client: HeapRuns.Client
    var at: Table
    ghost var lost: set<int>
    ghost const others: set<int>

    ghost predicate Valid()
      reads this, client, client.heap, client.heap.memory
    {
      client.Valid() && Listed(at, client.live, lost, others, Tail(client.heap.end))
    }

    constructor (client: HeapRuns.Client)
      requires client.Valid()
      ensures Valid() && this.client == client && at == map[] && lost == {} && others == client.live.Keys
    {
      this.client := client;
      at, lost, others := map[], {}, client.live.Keys;
    }

    /** The record of a new area; had exactly if the heap has 40 free bytes in one piece. */
    method Take(k: Key) returns (ok: bool)
      requires Valid() && k !in at
      modifies this, client, client.heap, client.heap.memory
      ensures Valid() && lost == old(lost)
      ensures ok <==> KernelHeap.HasStretch(old(client.heap.blocks), 40)
      ensures if ok then k in at && at == old(at)[k := at[k]] else at == old(at) && client.live == old(client.live)
    {
      ok := TakeFirst(k);
    }

    /** The record comes from the first block that fits. */
    method TakeFirst(k: Key) returns (ok: bool)
      requires Valid() && k !in at
      modifies this, client, client.heap, client.heap.memory
      ensures Valid() && lost == old(lost)
      ensures ok <==> KernelHeap.HasStretch(old(client.heap.blocks), 40)
      ensures if ok then k in at && at == old(at)[k := at[k]] else at == old(at) && client.live == old(client.live)
      ensures ok ==> KernelHeap.TakenFrom(old(client.heap.blocks), old(client.heap.ring), client.heap.blocks, client.heap.ring,
                                          at[k] - HeapBlocks.HEADER, 40)
    {
      assert KernelHeap.BlockSize32(RECORD_SIZE) == 40;
      var r := client.Allocate(RECORD_SIZE);
      ok := r.Allocated?;
      if ok {
        RecordAdded(at, old(client.live), lost, others, Tail(client.heap.end), k, r.ptr);
        at := at[k := r.ptr];
      }
    }

    /** The record of an area that is gone is given back, and lost exactly if it is at the tail. */
    method Drop(k: Key)
      requires Valid() && k in at
      modifies this, client, client.heap, client.heap.memory
      ensures Valid() && at == old(at) - {k}
      ensures lost == old(lost) + {old(at)[k]} * {Tail(client.heap.end)}
    {
      ghost var live, ptr := client.live, at[k];
      HeapRuns.OnePlace(client.heap.blocks, client.heap.start, client.heap.end, live, at[k]);
      var r := client.GiveBack(at[k]);
      ghost var back := ptr != Tail(client.heap.end);
      RecordGone(at, live, lost, others, Tail(client.heap.end), k, back);
      lost := if back then lost else lost + {ptr};
      at := at - {k};
    }

    /** With nothing recorded the heap is the initial one exactly if nothing is lost. */
    lemma Settled()
      requires Valid() && at == map[] && others == {}
      ensures lost == {} <==> client.heap.blocks == KernelHeap.Initial(client.heap.start, client.heap.end)
    {
      var heap := client.heap;
      assert client.live.Keys == lost;
      if lost == {} {
        assert forall a :: !HeapBlocks.Live(heap.blocks, a);
        HeapRuns.NothingLive(heap.memory.words, heap.start, heap.end, heap.head, heap.blocks, heap.ring);
      } else {
        var p :| p in lost;
        assert p in client.live && HeapRuns.Granted(heap.blocks, p, client.live[p]);
      }
    }

    /** The records of a whole list of areas. */
    method DropAll(pd: nat, vmas: seq<Vma>)
      requires Valid() && Sorted(vmas) && ListOf(at, pd, vmas)
      modifies this, client, client.heap, client.heap.memory
      ensures Valid() && at == Without(old(at), pd)
      ensures lost == old(lost) + RecordsOf(old(at), pd) * {Tail(client.heap.end)}
    {
      ghost var at0, lost0, tail := at, lost, Tail(client.heap.end);
      NoneGone(at0, lost0, pd, vmas, tail);
      for i := 0 to |vmas|
        invariant Valid() && Partly(at0, lost0, at, lost, pd, vmas, i, tail)
      {
        OneGone(at0, lost0, at, lost, pd, vmas, i, tail);
        Drop(Key(pd, vmas[i].start));
      }
      AllGone(at0, pd, vmas);
    }
  }

  /** The records of the space are those of the list. */
  ghost predicate ListOf(at: Table, pd: nat, vmas: seq<Vma>) {
    forall v: nat {:trigger Key(pd, v)} :: Key(pd, v) in at <==> StartsUpto(vmas, |vmas|, v)
  }

  /** The records of the first `n` areas have been dropped. */
  ghost predicate Partly(at0: Table, lost0: set<int>, at: Table, lost: set<int>, pd: nat, vmas: seq<Vma>, n: nat, tail: int) {
    at == Left(at0, pd, vmas, n) && lost == lost0 + Gone(at0, pd, vmas, n) * {tail}
  }

  lemma NoneGone(at: Table, lost: set<int>, pd: nat, vmas: seq<Vma>, tail: int)
    ensures Partly(at, lost, at, lost, pd, vmas, 0, tail)
  {
    assert forall v: nat :: !StartsUpto(vmas, 0, v);
    assert Left(at, pd, vmas, 0) == at && Gone(at, pd, vmas, 0) == {};
  }

  lemma OneGone(at0: Table, lost0: set<int>, at: Table, lost: set<int>, pd: nat, vmas: seq<Vma>, i: nat, tail: int)
    requires Partly(at0, lost0, at, lost, pd, vmas, i, tail) && Sorted(vmas) && i < |vmas| && ListOf(at0, pd, vmas)
    ensures var k := Key(pd, vmas[i].start); k in at && Partly(at0, lost0, at - {k}, lost + {at[k]} * {tail}, pd, vmas, i + 1, tail)
  {
    assert StartsUpto(vmas, |vmas|, vmas[i].start);
    NextGone(at0, pd, vmas, i);
  }

  ghost predicate StartsUpto(vmas: seq<Vma>, n: nat, v: nat) {
    n <= |vmas| && exists i :: 0 <= i < n && vmas[i].start == v
  }

  ghost function Left(at: Table, pd: nat, vmas: seq<Vma>, n: nat): Table {
    map k | k in at && !(k.pd == pd && StartsUpto(vmas, n, k.start)) :: at[k]
  }

  ghost function Gone(at: Table, pd: nat, vmas: seq<Vma>, n: nat): set<int> {
    set k | k in at && k.pd == pd && StartsUpto(vmas, n, k.start) :: at[k]
  }

  lemma NextGone(at: Table, pd: nat, vmas: seq<Vma>, i: nat)
    requires Sorted(vmas) && i < |vmas| && Key(pd, vmas[i].start) in at
    ensures var k := Key(pd, vmas[i].start);
      k in Left(at, pd, vmas, i) && Left(at, pd, vmas, i + 1) == Left(at, pd, vmas, i) - {k}
      && Gone(at, pd, vmas, i + 1) == Gone(at, pd, vmas, i) + {at[k]}
  {
    var k := Key(pd, vmas[i].start);
    assert !StartsUpto(vmas, i, k.start);
    assert StartsUpto(vmas, i + 1, k.start) by { assert vmas[i].start == k.start; }
    forall v: nat ensures StartsUpto(vmas, i + 1, v) <==> StartsUpto(vmas, i, v) || v == k.start {
      if j :| 0 <= j < i + 1 && vmas[j].start == v { assert j < i ==> StartsUpto(vmas, i, v); }
    }
    assert at[k] in Gone(at, pd, vmas, i + 1);
  }

  lemma AllGone(at: Table, pd: nat, vmas: seq<Vma>)
    requires ListOf(at, pd, vmas)
    ensures Left(at, pd, vmas, |vmas|) == Without(at, pd) && Gone(at, pd, vmas, |vmas|) == RecordsOf(at, pd)
  {
    forall k | k in at && k.pd == pd ensures StartsUpto(vmas, |vmas|, k.start) {
      assert k == Key(pd, k.start);
    }
  }

  // ---- Areas and their records ----

  ghost predicate Recorded(at: Table, spaces: map<nat, seq<Vma>>) {
    forall p: nat, v: nat {:trigger Key(p, v)} :: Key(p, v) in at <==> p in spaces && StartsUpto(spaces[p], |spaces[p]|, v)
  }

  lemma NotYet(at: Table, spaces: map<nat, seq<Vma>>, pd: nat, virt: nat, size: nat)
    requires Recorded(at, spaces) && pd in spaces && Sorted(spaces[pd]) && size > 0 && !Overlaps(spaces[pd], virt, virt + size)
    ensures Key(pd, virt) !in at
  {
  }

  lemma StartsInserted(vmas: seq<Vma>, k: nat, a: Vma, v: nat)
    requires k <= |vmas|
    ensures StartsUpto(InsertAt(vmas, k, a), |vmas| + 1, v) <==> StartsUpto(vmas, |vmas|, v) || v == a.start
  {
    var l := InsertAt(vmas, k, a);
    if i :| 0 <= i < |vmas| && vmas[i].start == v { assert l[if i < k then i else i + 1].start == v; }
    if i :| 0 <= i < |l| && l[i].start == v { assert i < k ==> vmas[i] == l[i]; assert i > k ==> vmas[i - 1] == l[i]; }
    assert l[k].start == a.start;
  }

  lemma RecordedInserted(at: Table, spaces: map<nat, seq<Vma>>, pd: nat, k: nat, a: Vma, ptr: int)
    requires Recorded(at, spaces) && pd in spaces && k <= |spaces[pd]|
    ensures Recorded(at[Key(pd, a.start) := ptr], spaces[pd := InsertAt(spaces[pd], k, a)])
  {
    forall p: nat, v: nat {:trigger Key(p, v)}
      ensures p == pd ==> (StartsUpto(InsertAt(spaces[pd], k, a), |spaces[pd]| + 1, v) <==> StartsUpto(spaces[pd], |spaces[pd]|, v) || v == a.start)
    {
      StartsInserted(spaces[pd], k, a, v);
    }
  }

  lemma RecordedRemoved(at: Table, spaces: map<nat, seq<Vma>>, pd: nat, k: nat)
    requires Recorded(at, spaces) && pd in spaces && Sorted(spaces[pd]) && k < |spaces[pd]|
    ensures Key(pd, spaces[pd][k].start) in at
    ensures Recorded(at - {Key(pd, spaces[pd][k].start)}, spaces[pd := RemoveAt(spaces[pd], k)])
  {
    var l, a := RemoveAt(spaces[pd], k), spaces[pd][k];
    assert InsertAt(l, k, a) == spaces[pd];
    assert StartsUpto(spaces[pd], |spaces[pd]|, a.start);
    assert !StartsUpto(l, |l|, a.start) by {
      assert forall i :: 0 <= i < |l| ==> l[i] == spaces[pd][if i < k then i else i + 1];
    }
    forall p: nat, v: nat {:trigger Key(p, v)}
      ensures p == pd ==> (StartsUpto(spaces[pd], |spaces[pd]|, v) <==> StartsUpto(l, |l|, v) || v == a.start)
    {
      StartsInserted(l, k, a, v);
    }
  }

  lemma RecordedReflagged(at: Table, spaces: map<nat, seq<Vma>>, pd: nat, k: nat, flags: Flags)
    requires Recorded(at, spaces) && pd in spaces && k < |spaces[pd]|
    ensures Recorded(at, spaces[pd := Reflag(spaces[pd], k, flags)])
  {
    var before := spaces[pd];
    var after := Reflag(before, k, flags);
    forall p: nat, v: nat {:trigger Key(p, v)} ensures StartsUpto(after, |after|, v) <==> StartsUpto(before, |before|, v) {
      assert forall i :: 0 <= i < |before| ==> after[i].start == before[i].start;
    }
  }

  /** Whether `vm_map` gets as far as asking for a record. */
  method Wants(vmas: seq<Vma>, virt: nat, phys: nat, size: nat) returns (want: bool)
    requires Sorted(vmas) && NoWrap(virt, size)
    ensures want <==> Asks(vmas, virt, phys, size)
  {
    UserRangeExact(virt, size);
    if size == 0 || virt % PAGE != 0 || phys % PAGE != 0 || size % PAGE != 0 || !UserRange(virt, size) || !PhysRange(phys, size) {
      return false;
    }
    var k;
    want, k := Place(vmas, virt, virt + size);
  }

  ghost predicate Asks(vmas: seq<Vma>, virt: nat, phys: nat, size: nat) {
    && size > 0 && virt % PAGE == 0 && phys % PAGE == 0 && size % PAGE == 0 && virt + size <= USER_END && phys + size <= PHYS_ADDRESSES
    && !Overlaps(vmas, virt, virt + size)
  }

  // What the three operations do to the lists.

  method MapArea(vmm: Vmm, pd: nat, virt: nat, phys: nat, size: nat, flags: Flags, haveNode: bool) returns (r: Result, done: nat, ghost k: nat)
    requires vmm.Valid() && pd in vmm.spaces && NoWrap(virt, size)
    modifies vmm, vmm.mmu`mem, vmm.mmu`view, vmm.mmu`owner, vmm.mmu.pmm, vmm.mmu.pmm.bm`bits, vmm.mmu.pmm.bm.data
    ensures vmm.Valid() && (r == Ok ==> haveNode && k <= |old(vmm.spaces)[pd]|)
    ensures vmm.spaces == if r == Ok then old(vmm.spaces)[pd := InsertAt(old(vmm.spaces)[pd], k, Vma(virt, virt + size, flags))] else old(vmm.spaces)
  {
    r, done, k := vmm.Map(pd, virt, phys, size, flags, haveNode);
  }

  method UnmapArea(vmm: Vmm, pd: nat, virt: nat, size: nat) returns (r: Result, ghost k: nat)
    requires vmm.Valid() && pd in vmm.spaces && virt < ADDRESSES && size < ADDRESSES
    modifies vmm, vmm.mmu`mem, vmm.mmu`view
    ensures vmm.Valid() && (r == Ok <==> size > 0 && size % PAGE == 0 && exists i: nat :: IsArea(old(vmm.spaces)[pd], i, virt, size))
    ensures r == Ok ==> IsArea(old(vmm.spaces)[pd], k, virt, size)
    ensures vmm.spaces == if r == Ok then old(vmm.spaces)[pd := RemoveAt(old(vmm.spaces)[pd], k)] else old(vmm.spaces)
  {
    k := 0;
    r := vmm.Unmap(pd, virt, size);
    if r == Ok {
      k :| IsArea(old(vmm.spaces)[pd], k, virt, size) && vmm.spaces[pd] == RemoveAt(old(vmm.spaces)[pd], k);
    }
  }

  method ProtectArea(vmm: Vmm, pd: nat, virt: nat, size: nat, flags: Flags) returns (r: Result, ghost k: nat)
    requires vmm.Valid() && pd in vmm.spaces && virt < ADDRESSES && size < ADDRESSES
    modifies vmm, vmm.mmu`mem, vmm.mmu`view
    ensures vmm.Valid() && (r == Ok ==> k < |old(vmm.spaces)[pd]|)
    ensures vmm.spaces == if r == Ok then old(vmm.spaces)[pd := Reflag(old(vmm.spaces)[pd], k, flags)] else old(vmm.spaces)
  {
    k := 0;
    r := vmm.Protect(pd, virt, size, flags);
    if r == Ok {
      k :| IsArea(old(vmm.spaces)[pd], k, virt, size) && vmm.spaces[pd] == old(vmm.spaces)[pd][k := Vma(virt, virt + size, flags)];
    }
  }

  ghost function Reflag(vmas: seq<Vma>, k: nat, flags: Flags): seq<Vma>
    requires k < |vmas|
  {
    vmas[k := vmas[k].(flags := flags)]
  }

  /** Address spaces whose area records are in the heap. */
  class Keeper {
    const vmm: Vmm
    const records: Records

    ghost predicate Valid()
      reads this, vmm, vmm.mmu, vmm.mmu.pmm, vmm.mmu.pmm.bm, vmm.mmu.pmm.bm.data,
            records, records.client, records.client.heap, records.client.heap.memory
    {
      vmm.Valid() && records.Valid() && Recorded(records.at, vmm.spaces)
    }

    constructor (vmm: Vmm, records: Records)
      requires vmm.Valid() && records.Valid() && vmm.spaces == map[] && records.at == map[]
      ensures Valid() && this.vmm == vmm && this.records == records
    {
      this.vmm, this.records := vmm, records;
    }

    /**
     * `vm_map`.  A record is asked for exactly if the arguments are good and nothing overlaps, and had exactly if the heap
     * has 40 free bytes in one piece.  When the tables fail it is given back, and lost exactly if it is at the tail.
     */
    method Map(pd: nat, virt: nat, phys: nat, size: nat, flags: Flags) returns (r: Result, done: nat, ghost ptr: Option<int>)
      requires Valid() && pd in vmm.spaces && NoWrap(virt, size)
      modifies vmm, vmm.mmu`mem, vmm.mmu`view, vmm.mmu`owner, vmm.mmu.pmm, vmm.mmu.pmm.bm`bits, vmm.mmu.pmm.bm.data,
               records, records.client, records.client.heap, records.client.heap.memory
      ensures Valid()
      ensures ptr.Some? <==> Asks(old(vmm.spaces)[pd], virt, phys, size) && KernelHeap.HasStretch(old(records.client.heap.blocks), 40)
      ensures r == Ok ==> ptr.Some? && Key(pd, virt) in records.at && records.at == old(records.at)[Key(pd, virt) := ptr.value]
      ensures r == Ok ==> records.lost == old(records.lost)
      ensures r != Ok ==> records.at == old(records.at) && vmm.spaces == old(vmm.spaces)
      ensures r != Ok ==> records.lost == old(records.lost) + (if ptr.Some? then {ptr.value} * {Tail(records.client.heap.end)} else {})
    {
      assert GoodAt(vmm.spaces, vmm.mmu.view, vmm.torn, pd);
      ptr := None;
      var key := Key(pd, virt);
      var ok := Wants(vmm.spaces[pd], virt, phys, size);
      ghost var at0, spaces0 := records.at, vmm.spaces;
      if ok {
        NotYet(at0, spaces0, pd, virt, size);
        ok := records.Take(key);
        if ok {
          ptr := Some(records.at[key]);
          TakenAndDropped(at0, key, ptr.value);
        }
      }
      ghost var k;
      r, done, k := MapArea(vmm, pd, virt, phys, size, flags, ok);
      if r == Ok {
        RecordedInserted(at0, spaces0, pd, k, Vma(virt, virt + size, flags), ptr.value);
      } else if ok {
        records.Drop(key);
      }
    }

    /** `vm_unmap`; the record is lost exactly if it is at the tail. */
    method Unmap(pd: nat, virt: nat, size: nat) returns (r: Result)
      requires Valid() && pd in vmm.spaces && virt < ADDRESSES && size < ADDRESSES
      modifies vmm, vmm.mmu`mem, vmm.mmu`view, records, records.client, records.client.heap, records.client.heap.memory
      ensures Valid()
      ensures r == Ok <==> size > 0 && size % PAGE == 0 && exists k: nat :: IsArea(old(vmm.spaces)[pd], k, virt, size)
      ensures r == Ok ==> Key(pd, virt) in old(records.at) && records.at == old(records.at) - {Key(pd, virt)}
      ensures r == Ok ==> records.lost == old(records.lost) + {old(records.at)[Key(pd, virt)]} * {Tail(records.client.heap.end)}
      ensures r != Ok ==> records.at == old(records.at) && records.lost == old(records.lost) && vmm.spaces == old(vmm.spaces)
    {
      assert GoodAt(vmm.spaces, vmm.mmu.view, vmm.torn, pd);
      ghost var at0, spaces0 := records.at, vmm.spaces;
      ghost var k;
      r, k := UnmapArea(vmm, pd, virt, size);
      if r == Ok {
        RecordedRemoved(at0, spaces0, pd, k);
        records.Drop(Key(pd, virt));
      }
    }

    /** `vm_protect` changes no record but its flags. */
    method Protect(pd: nat, virt: nat, size: nat, flags: Flags) returns (r: Result)
      requires Valid() && pd in vmm.spaces && virt < ADDRESSES && size < ADDRESSES
      modifies vmm, vmm.mmu`mem, vmm.mmu`view
      ensures Valid()
    {
      ghost var spaces0 := vmm.spaces;
      ghost var k;
      r, k := ProtectArea(vmm, pd, virt, size, flags);
      if r == Ok { RecordedReflagged(records.at, spaces0, pd, k, flags); }
    }

    /** `vm_space_init` */
    method Open() returns (pd: Option<nat>)
      requires Valid()
      modifies vmm, vmm.mmu`mem, vmm.mmu`view, vmm.mmu`owner, vmm.mmu.pmm, vmm.mmu.pmm.bm`bits, vmm.mmu.pmm.bm.data
      ensures Valid()
      ensures if pd.Some? then pd.value !in old(vmm.spaces) && vmm.spaces == old(vmm.spaces)[pd.value := []] else vmm.spaces == old(vmm.spaces)
    {
      ghost var spaces0 := vmm.spaces;
      pd := vmm.SpaceInit();
      if pd.Some? { RecordedOpened(records.at, spaces0, pd.value); }
    }

    /** `vm_space_destroy`: all records of the space, of which at most one is lost. */
    method Close(pd: nat)
      requires Valid() && pd in vmm.spaces
      modifies vmm, vmm.mmu`view, vmm.mmu`owner, vmm.mmu.pmm, vmm.mmu.pmm.bm`bits, vmm.mmu.pmm.bm.data,
               records, records.client, records.client.heap, records.client.heap.memory
      ensures Valid() && vmm.spaces == old(vmm.spaces) - {pd} && records.at == Without(old(records.at), pd)
      ensures records.lost == old(records.lost) + RecordsOf(old(records.at), pd) * {Tail(records.client.heap.end)}
    {
      assert GoodAt(vmm.spaces, vmm.mmu.view, vmm.torn, pd);
      ghost var at0, spaces0 := records.at, vmm.spaces;
      records.DropAll(pd, vmm.spaces[pd]);
      var r := vmm.SpaceDestroy(pd);
      RecordedClosed(at0, spaces0, pd);
    }

    method Serve(q: Request)
      requires Valid()
      modifies vmm, vmm.mmu`mem, vmm.mmu`view, vmm.mmu`owner, vmm.mmu.pmm, vmm.mmu.pmm.bm`bits, vmm.mmu.pmm.bm.data,
               records, records.client, records.client.heap, records.client.heap.memory
      ensures Valid() && old(records.lost) <= records.lost
    {
      match q {
        case NewSpace => var pd := Open();
        case EndSpace(pd) => if pd in vmm.spaces { Close(pd); }
        case MapUser(pd, virt, phys, size, flags, _) =>
          if pd in vmm.spaces && NoWrap(virt, size) { var r, done, ptr := Map(pd, virt, phys, size, flags); }
        case UnmapUser(pd, virt, size) =>
          if pd in vmm.spaces && virt < ADDRESSES && size < ADDRESSES { var r := Unmap(pd, virt, size); }
        case ProtectUser(pd, virt, size, flags) =>
          if pd in vmm.spaces && virt < ADDRESSES && size < ADDRESSES { var r := Protect(pd, virt, size, flags); }
        case Kernel(op) =>
          if op.virt < ADDRESSES && op.size < ADDRESSES { var r, done := vmm.KernelChange(op); }
      }
    }

    /**
     * Any run of requests: everything the heap has live is the record of one area, somebody else's, or the one record that
     * can ever be lost; and with all spaces gone the heap is the initial one exactly if none is.
     */
    method Run(requests: seq<Request>)
      requires Valid()
      modifies vmm, vmm.mmu`mem, vmm.mmu`view, vmm.mmu`owner, vmm.mmu.pmm, vmm.mmu.pmm.bm`bits, vmm.mmu.pmm.bm.data,
               records, records.client, records.client.heap, records.client.heap.memory
      ensures Valid() && old(records.lost) <= records.lost <= {Tail(records.client.heap.end)}
      ensures records.client.live.Keys == records.at.Values + records.lost + records.others
      ensures vmm.spaces == map[] && records.others == {} ==>
        (records.lost == {} <==> records.client.heap.blocks == KernelHeap.Initial(records.client.heap.start, records.client.heap.end))
    {
      for i := 0 to |requests|
        invariant Valid() && old(records.lost) <= records.lost
      {
        Serve(requests[i]);
      }
      if vmm.spaces == map[] && records.others == {} {
        NoArea(records.at, vmm.spaces);
        records.Settled();
      }
    }
  }

  lemma TakenAndDropped(at: Table, k: Key, ptr: int)
    requires k !in at
    ensures at[k := ptr] - {k} == at
  {
  }

  lemma RecordedOpened(at: Table, spaces: map<nat, seq<Vma>>, pd: nat)
    requires Recorded(at, spaces) && pd !in spaces
    ensures Recorded(at, spaces[pd := []])
  {
  }

  lemma RecordedClosed(at: Table, spaces: map<nat, seq<Vma>>, pd: nat)
    requires Recorded(at, spaces)
    ensures Recorded(Without(at, pd), spaces - {pd})
  {
  }

  lemma NoArea(at: Table, spaces: map<nat, seq<Vma>>)
    requires Recorded(at, spaces) && spaces == map[]
    ensures at == map[]
  {
    forall k: Key ensures k !in at {
      assert k == Key(k.pd, k.start);
    }
  }

  // ---- A record that is lost ----

  /** Only the last 40 bytes of the heap are free. */
  ghost predicate TailFree(heap: KernelHeap.Heap)
    reads heap
  {
    && |heap.ring| == 2 && heap.ring[1] == heap.end - 40 + 8
    && heap.end - 40 in heap.blocks && heap.blocks[heap.end - 40] == HeapBlocks.Block(40, false)
  }

  /** A fresh heap from which all but the last 40 bytes are taken. */
  method TakeRest(heap: KernelHeap.Heap) returns (client: HeapRuns.Client)
    requires heap.Valid() && heap.end == heap.start + KernelHeap.HEAP_SIZE
    requires heap.blocks == KernelHeap.Initial(heap.start, heap.end) && heap.ring == [heap.head, heap.start + 8]
    modifies heap, heap.memory
    ensures fresh(client) && client.heap == heap && client.Valid() && TailFree(heap)
  {
    client := new HeapRuns.Client(heap);
    HeapRuns.OnlyFitThere(heap.memory.words, heap.start, heap.end, heap.head, heap.blocks, heap.ring, heap.start, KernelHeap.HEAP_SIZE - 40);
    assert KernelHeap.BlockSize32(KernelHeap.HEAP_SIZE - 60) == KernelHeap.HEAP_SIZE - 40;
    var r := client.Allocate(KernelHeap.HEAP_SIZE - 60);
  }

  /** The next record is then at the tail, and dropping it loses it. */
  method LostRecord(heap: KernelHeap.Heap, k: Key) returns (records: Records)
    requires heap.Valid() && heap.end == heap.start + KernelHeap.HEAP_SIZE
    requires heap.blocks == KernelHeap.Initial(heap.start, heap.end) && heap.ring == [heap.head, heap.start + 8]
    modifies heap, heap.memory
    ensures fresh(records) && records.client.heap == heap && records.Valid() && records.at == map[] && records.lost == {Tail(heap.end)}
  {
    var client := TakeRest(heap);
    HeapRuns.OnlyFitThere(heap.memory.words, heap.start, heap.end, heap.head, heap.blocks, heap.ring, heap.end - 40, 40);
    records := new Records(client);
    var ok := records.TakeFirst(k);
    assert records.at[k] == Tail(heap.end);
    records.Drop(k);
    assert records.at == map[];
  }
}

/**
 Threads that share one heap behind the spin lock. A step is one atomic action of one thread: a
 compare-exchange, a single store of the allocator, the releasing store, or a write by the owner of a
 payload, which takes no lock and may fall between any two stores of another thread's operation. Payloads
 may pass from thread to thread, and whoever has one may free it.
 */
module LockedHeap {
  import opened Bits
  import opened HeapShape
  import opened HeapCells
  import opened HeapRuns

  /** Where a thread is: outside the lock, spinning in `lock`, holding the guard, or part way through its stores. */
  datatype Pc =
    | Outside
    | Spinning(call: Op)
    | Holding(call: Op)
    | Working(call: Op, begun: Cells, done: seq<Store>, todo: seq<Store>)

  /** `owner` says which thread was handed each payload and has not begun to give it back. */
  datatype State = State(locked: bool, shape: Shape, cells: Cells, pc: map<nat, Pc>, owner: map<int, nat>)

  datatype Action =
    | Call(call: Op)
    | Compete(wins: bool)
    | Begin
    | OneStore
    | Unlock
    | OwnerStore(block: int, x: int, value: int)
    | Give(ptr: int, to: nat)

  // ----- what an operation will do -----

  ghost function Stores(s: Shape, call: Op): seq<Store>
    requires s.Inv() && Legal(s, call)
  {
    s.InvNoded();
    match call
    case AllocOp(size, align) =>
      var k := FirstFit(s, 0, Max(size, 1), align);
      if k == |s.list| then [] else AllocStores(s, k, AllocPtr(s, size, align), Max(size, 1))
    case DeallocOp(ptr) => if ptr == 0 then [] else FreeStores(s, BlockOf(s, ptr))
  }

  ghost function Result(s: Shape, call: Op): int
    requires s.Inv() && Legal(s, call)
  {
    s.InvNoded();
    match call
    case AllocOp(size, align) => AllocPtr(s, size, align)
    case DeallocOp(_) => 0
  }

  // ----- steps -----

  /** The pointer thread `t` is giving back, if any. */
  function Returning(s: State, t: nat): int {
    if t in s.pc && !s.pc[t].Outside? && s.pc[t].call.DeallocOp? then s.pc[t].call.ptr else 0
  }

  ghost predicate MayCall(s: State, t: nat, call: Op) {
    match call
    case AllocOp(size, align) => align >= 1 && IsPow2(align) && s.shape.end + align <= WORD_LIMIT
    case DeallocOp(ptr) => ptr == 0 || (ptr in s.owner && s.owner[ptr] == t)
  }

  ghost predicate Next(s: State, t: nat, act: Action, s': State)
    requires t in s.pc && s.shape.Inv()
  {
    match act
    case Call(call) =>
      && s.pc[t].Outside? && MayCall(s, t, call)
      && s' == s.(pc := s.pc[t := Spinning(call)],
                  owner := if call.DeallocOp? then s.owner - {call.ptr} else s.owner)
    case Compete(wins) =>
      // a failed compare-exchange changes nothing; the weak form may fail even when the lock is free
      && s.pc[t].Spinning? && (wins ==> !s.locked)
      && s' == if wins then s.(locked := true, pc := s.pc[t := Holding(s.pc[t].call)]) else s
    case Begin =>
      && s.pc[t].Holding? && Legal(s.shape, s.pc[t].call)
      && s' == s.(pc := s.pc[t := Working(s.pc[t].call, s.cells, [], Stores(s.shape, s.pc[t].call))])
    case OneStore =>
      && s.pc[t].Working? && s.pc[t].todo != []
      && var Working(call, begun, done, todo) := s.pc[t];
         s' == s.(cells := s.cells.Apply(todo[0]), pc := s.pc[t := Working(call, begun, done + [todo[0]], todo[1..])])
    case Unlock =>
      && s.pc[t].Working? && s.pc[t].todo == [] && Legal(s.shape, s.pc[t].call)
      && var ptr := Result(s.shape, s.pc[t].call);
         s' == s.(locked := false, shape := Step(s.shape, s.pc[t].call), pc := s.pc[t := Outside],
                  owner := if ptr == 0 then s.owner else s.owner[ptr := t])
    case OwnerStore(block, x, value) =>
      && s.pc[t].Outside?
      && s.shape.IsLive(block) && s.shape.OwnedBy(block, x)
      && s.shape.blocks[block].use.payload in s.owner
      && s.owner[s.shape.blocks[block].use.payload] == t
      && s' == s.(cells := s.cells.Apply(Word(x, value)))
    case Give(ptr, to) =>
      // a payload passes to another thread, which may then write it and give it back to the heap
      && s.pc[t].Outside? && ptr in s.owner && s.owner[ptr] == t
      && s' == s.(owner := s.owner[ptr := to])
  }

  // ----- the invariant -----

  /** Whether thread `t` holds the guard. */
  predicate Inside(s: State, t: nat) {
    t in s.pc && (s.pc[t].Holding? || s.pc[t].Working?)
  }

  ghost predicate Exclusive(s: State) {
    && (forall t, u :: Inside(s, t) && Inside(s, u) ==> t == u)
    && (s.locked <==> exists t :: Inside(s, t))
  }

  /** Every live payload is owned or being given back by exactly one thread, and pending calls stay legal. */
  ghost predicate Handed(s: State) {
    && (forall p :: p in s.owner ==> IsPayload(s.shape, p))
    && (forall t :: Returning(s, t) != 0 ==> IsPayload(s.shape, Returning(s, t)) && Returning(s, t) !in s.owner)
    && (forall t, u :: t != u && Returning(s, t) != 0 ==> Returning(s, t) != Returning(s, u))
    && (forall p :: IsPayload(s.shape, p) ==> p in s.owner || exists t :: Returning(s, t) == p)
    && (forall t :: t in s.pc && !s.pc[t].Outside? ==> Legal(s.shape, s.pc[t].call))
  }

  /**
   * Outside live payloads memory is what the operation alone would have made of it, so every load the
   * operation issues sees the value a sequential execution would see.
   */
  ghost predicate SeesItself(s: State, begun: Cells, done: seq<Store>) {
    && s.cells.free == ApplyAll(begun, done).free
    && (forall x :: !s.shape.Owned(x) ==> s.cells.At(x) == ApplyAll(begun, done).At(x))
  }

  ghost predicate UnderWay(s: State, pc: Pc)
    requires s.shape.Inv() && pc.Working? && Legal(s.shape, pc.call)
  {
    && Rep(s.shape, pc.begun)
    && pc.done + pc.todo == Stores(s.shape, pc.call)
    && SeesItself(s, pc.begun, pc.done)
  }

  ghost predicate Settled(s: State) {
    (forall t :: t in s.pc ==> !s.pc[t].Working?) ==> Rep(s.shape, s.cells)
  }

  ghost predicate Progressing(s: State)
    requires s.shape.Inv() && Handed(s)
  {
    forall t :: t in s.pc && s.pc[t].Working? ==> UnderWay(s, s.pc[t])
  }

  ghost predicate Safe(s: State) {
    s.shape.Inv() && Exclusive(s) && Handed(s) && Settled(s) && Progressing(s)
  }

  // ----- the allocator's own words -----

  /** The words that `Rep` reads: headers of blocks, links of the list, padding slots. */
  ghost predicate OwnWord(s: Shape, x: int) {
    x in s.blocks || LinkOf(s.list, x) || (exists a :: s.IsLive(a) && x == s.blocks[a].use.payload - HEADER_GAP)
  }

  lemma RepReads(s: Shape, c: Cells, c': Cells)
    requires Rep(s, c) && c'.free == c.free
    requires forall x :: OwnWord(s, x) ==> c'.At(x) == c.At(x)
    ensures Rep(s, c')
  {
    ChainFrame(s.list, c, c');
    forall a | s.IsLive(a) ensures PadAt(s, c', a) {
      assert PadAt(s, c, a) && OwnWord(s, s.blocks[a].use.payload - HEADER_GAP);
    }
  }

  /** Where the stores of an allocation go: links of the list, and the block it carves. */
  lemma AllocStoresPlaced(s: Shape, k: int, p: int, bytes: int, i: int)
    requires s.Inv() && Places(s, k, p, bytes)
    requires 0 <= i < |AllocStores(s, k, p, bytes)| && AllocStores(s, k, p, bytes)[i].Word?
    ensures s.InFree(AllocStores(s, k, p, bytes)[i].addr)
  {
    var a, x := s.list[k], AllocStores(s, k, p, bytes)[i].addr;
    assert a in s.list && s.IsFree(a) && s.Extent(a);
    if LinkOf(s.list, x) { LinkIsFree(s, x); } else { assert a <= x < s.EndOf(a); }
  }

  lemma SwallowStoresPlaced(s: Shape, a: int, i: int)
    requires s.Inv() && s.IsLive(a)
    requires 0 <= i < |SwallowStores(s, a)| && SwallowStores(s, a)[i].Word?
    ensures SwallowStores(s, a)[i].addr == a || LinkOf(s.list, SwallowStores(s, a)[i].addr)
  {
  }

  lemma JoinStoresPlaced(s: Shape, a: int, l: int, i: int)
    requires s.Inv() && s.IsLive(a) && (l != 0 ==> l in s.blocks)
    requires 0 <= i < |JoinStores(s, a, l)| && JoinStores(s, a, l)[i].Word?
    ensures var x := JoinStores(s, a, l)[i].addr;
            (l != 0 && x == l) || x == a + 8 || x == a + 16 || LinkOf(s.list, x)
  {
    LinksShrink(s, a);
    var list1 := FreeUp(s, a).list;
    assert list1 != [] ==> LinkOf(list1, list1[0] + 16);
  }

  lemma FreeStoresPlaced(s: Shape, a: int, i: int)
    requires s.Inv() && s.IsLive(a)
    requires 0 <= i < |FreeStores(s, a)| && FreeStores(s, a)[i].Word?
    ensures FreeTouches(s, a, FreeStores(s, a)[i].addr)
  {
    var n := |SwallowStores(s, a)|;
    if i < n { SwallowStoresPlaced(s, a, i); } else { JoinStoresPlaced(s, a, LeftOf(s, a), i - n); }
  }

  ghost predicate Avoids(ws: seq<Store>, x: int) {
    forall i :: 0 <= i < |ws| && ws[i].Word? ==> ws[i].addr != x
  }

  /** No operation, not even freeing that very payload, stores into a word of a live payload. */
  lemma StoresAvoidOwned(s: Shape, call: Op, x: int)
    requires s.Inv() && Legal(s, call) && s.Owned(x)
    ensures Avoids(Stores(s, call), x)
  {
    s.InvNoded();
    OwnedIsPrivate(s, x);
    match call
    case AllocOp(size, align) =>
      var bytes := Max(size, 1);
      var k := FirstFit(s, 0, bytes, align);
      FirstFitSpec(s, 0, bytes, align);
      if k < |s.list| {
        FitPlaces(s, k, bytes, align);
        var p := AllocPtr(s, size, align);
        forall i | 0 <= i < |AllocStores(s, k, p, bytes)| && AllocStores(s, k, p, bytes)[i].Word?
          ensures AllocStores(s, k, p, bytes)[i].addr != x
        {
          AllocStoresPlaced(s, k, p, bytes, i);
        }
      }
    case DeallocOp(ptr) =>
      if ptr != 0 {
        var a := BlockOf(s, ptr);
        OwnedNotTouched(s, a, x);
        forall i | 0 <= i < |FreeStores(s, a)| && FreeStores(s, a)[i].Word? ensures FreeStores(s, a)[i].addr != x {
          FreeStoresPlaced(s, a, i);
        }
      }
  }

  lemma OwnedNotTouched(s: Shape, a: int, x: int)
    requires s.Inv() && s.IsLive(a) && s.Owned(x)
    ensures !FreeTouches(s, a, x)
  {
    OwnedIsPrivate(s, x);
    var b :| s.IsLive(b) && s.OwnedBy(b, x);
    assert s.Housed(b) && s.Extent(a) && (a < b || a == b || b < a);
  }

  lemma OwnedPersists(s: Shape, s': Shape, x: int, b: int)
    requires s.IsLive(b) && s.OwnedBy(b, x) && b in s'.blocks && s'.blocks[b] == s.blocks[b]
    ensures s'.Owned(x)
  {
    assert s'.IsLive(b) && s'.OwnedBy(b, x);
  }

  /** The words that matter to the new shape lie outside every payload that was live before. */
  lemma NewWordsPrivate(s: Shape, call: Op, x: int)
    requires s.Inv() && Legal(s, call) && s.Owned(x)
    ensures !OwnWord(Step(s, call), x)
  {
    s.InvNoded();
    StepInv(s, call);
    var s' := Step(s, call);
    var b :| s.IsLive(b) && s.OwnedBy(b, x);
    match call
    case AllocOp(size, align) =>
      AllocKeeps(s, size, align);
      OwnedPersists(s, s', x, b);
      OwnedIsPrivate(s', x);
    case DeallocOp(ptr) =>
      if ptr == 0 {
        OwnedIsPrivate(s, x);
      } else if BlockOf(s, ptr) == b {
        FreedWordsPrivate(s, b, x);
      } else {
        ReleaseKeeps(s, BlockOf(s, ptr));
        OwnedPersists(s, s', x, b);
        OwnedIsPrivate(s', x);
      }
  }

  lemma AllocKeeps(s: Shape, size: nat, align: nat)
    requires s.Inv() && s.Noded() && align >= 1 && IsPow2(align)
    ensures forall b :: s.IsLive(b) ==>
              b in Alloc(s, size, align).blocks && Alloc(s, size, align).blocks[b] == s.blocks[b]
    ensures var p := AllocPtr(s, size, align);
            forall q :: IsPayload(Alloc(s, size, align), q) <==> IsPayload(s, q) || (p != 0 && q == p)
    ensures AllocPtr(s, size, align) != 0 ==> !IsPayload(s, AllocPtr(s, size, align))
  {
    var bytes := Max(size, 1);
    var k := FirstFit(s, 0, bytes, align);
    FirstFitSpec(s, 0, bytes, align);
    if k < |s.list| {
      FitPlaces(s, k, bytes, align);
      var p, a := PayloadIn(s.list[k], align), s.list[k];
      CarvePayloads(s, k, p, bytes);
    }
  }

  lemma CarvePayloads(s: Shape, k: int, p: int, bytes: int)
    requires s.Inv() && Places(s, k, p, bytes)
    ensures p != 0 && !IsPayload(s, p)
    ensures var s' := Carve(s, k, p, bytes);
            && (forall b :: s.IsLive(b) ==> b in s'.blocks && s'.blocks[b] == s.blocks[b])
            && (forall q :: IsPayload(s', q) <==> IsPayload(s, q) || q == p)
  {
    var a, s' := s.list[k], Carve(s, k, p, bytes);
    CarveUse(s, k, p, bytes);
    assert s.Extent(a);
    forall q | IsPayload(s, q) ensures IsPayload(s', q) {
      var b := BlockOf(s, q);
      assert s'.IsLive(b) && s'.blocks[b].use.payload == q;
    }
    forall q | IsPayload(s', q) ensures IsPayload(s, q) || q == p {
      var b := BlockOf(s', q);
      if b != a { assert s.IsLive(b) && s'.blocks[b] == s.blocks[b]; }
    }
  }

  lemma ReleaseKeeps(s: Shape, a: int)
    requires s.Inv() && s.IsLive(a)
    ensures forall b :: s.IsLive(b) && b != a ==> b in Release(s, a).blocks && Release(s, a).blocks[b] == s.blocks[b]
  {
    ReleaseBlocks(s, a);
  }

  lemma FreedWordsPrivate(s: Shape, a: int, x: int)
    requires s.Inv() && s.IsLive(a) && s.OwnedBy(a, x)
    ensures !OwnWord(Release(s, a), x)
  {
    var s', l := Release(s, a), LeftOf(s, a);
    OwnedIsPrivate(s, x);
    ReleaseBlocks(s, a);
    assert s.Housed(a) && s.Extent(a);
    assert x !in s'.blocks;
    forall b | s'.IsLive(b) ensures x != s'.blocks[b].use.payload - HEADER_GAP {
      assert s.IsLive(b) && s'.blocks[b] == s.blocks[b];
    }
    LinksShrink(s, a);
    var list1 := FreeUp(s, a).list;
    ConsLinks(a, list1, x);
  }

  lemma ConsLinks(a: int, list: seq<int>, x: int)
    ensures LinkOf([a] + list, x) ==> x == a + 8 || x == a + 16 || LinkOf(list, x)
  {
    if i :| 0 <= i < |[a] + list| && (x == ([a] + list)[i] + 8 || x == ([a] + list)[i] + 16) {
      if i > 0 { assert ([a] + list)[i] == list[i - 1]; }
    }
  }

  // ----- every step keeps the invariant -----

  ghost predicate OnlyMoved(s: State, t: nat, s': State) {
    && t in s.pc && s'.pc.Keys == s.pc.Keys
    && (forall u :: u in s.pc && u != t ==> s'.pc[u] == s.pc[u])
  }

  /** A thread that moves among points where it is not storing changes nothing for the others. */
  lemma MovedProgress(s: State, t: nat, s': State)
    requires Safe(s) && OnlyMoved(s, t, s') && !s.pc[t].Working? && !s'.pc[t].Working?
    requires s'.shape == s.shape && s'.cells == s.cells && Handed(s')
    ensures Settled(s') && Progressing(s')
  {
    if forall u :: u in s'.pc ==> !s'.pc[u].Working? {
      forall u | u in s.pc ensures !s.pc[u].Working? { assert u == t || s'.pc[u] == s.pc[u]; }
    }
    forall u | u in s'.pc && s'.pc[u].Working? ensures UnderWay(s', s'.pc[u]) {
      assert UnderWay(s, s.pc[u]);
    }
  }

  /** A thread that keeps its call keeps the accounts. */
  lemma SameCalls(s: State, t: nat, s': State)
    requires Safe(s) && OnlyMoved(s, t, s') && s'.shape == s.shape && s'.owner == s.owner
    requires s.pc[t] == s'.pc[t] || (!s.pc[t].Outside? && !s'.pc[t].Outside? && s'.pc[t].call == s.pc[t].call)
    ensures Handed(s')
  {
    forall u ensures Returning(s', u) == Returning(s, u) {}
    forall u | u in s'.pc && !s'.pc[u].Outside? ensures Legal(s'.shape, s'.pc[u].call) {
      assert Legal(s.shape, s.pc[u].call);
    }
    SameAccounts(s, s');
  }

  lemma SameAccounts(s: State, s': State)
    requires Handed(s) && s'.shape == s.shape && s'.owner == s.owner
    requires forall u :: Returning(s', u) == Returning(s, u)
    requires forall u :: u in s'.pc && !s'.pc[u].Outside? ==> Legal(s'.shape, s'.pc[u].call)
    ensures Handed(s')
  {
    SameOwned(s, s');
  }

  /** The accounts look at which payloads are owned, not at who owns them. */
  lemma SameOwned(s: State, s': State)
    requires Handed(s) && s'.shape == s.shape && (forall p :: p in s'.owner <==> p in s.owner)
    requires forall u :: Returning(s', u) == Returning(s, u)
    requires forall u :: u in s'.pc && !s'.pc[u].Outside? ==> Legal(s'.shape, s'.pc[u].call)
    ensures Handed(s')
  {
    forall p | IsPayload(s'.shape, p) ensures p in s'.owner || exists u :: Returning(s', u) == p {
      if p !in s.owner {
        var u :| Returning(s, u) == p;
        assert Returning(s', u) == p;
      }
    }
  }

  lemma CallSafe(s: State, t: nat, call: Op, s': State)
    requires t in s.pc && Safe(s) && Next(s, t, Call(call), s')
    ensures Safe(s')
  {
    assert forall u :: Inside(s', u) <==> Inside(s, u);
    HandOver(s, t, call, s');
    MovedProgress(s, t, s');
  }

  /** A call to `dealloc` moves the payload from the owned ones to the ones being given back. */
  lemma HandOver(s: State, t: nat, call: Op, s': State)
    requires t in s.pc && s.shape.Inv() && Handed(s) && Next(s, t, Call(call), s')
    ensures Handed(s')
  {
    forall u ensures Returning(s', u) == if u == t && call.DeallocOp? then call.ptr else Returning(s, u) {}
    HandOverAccounts(s, t, call, s');
    CallsLegal(s, t, call, s');
  }

  lemma CallsLegal(s: State, t: nat, call: Op, s': State)
    requires t in s.pc && s.shape.Inv() && Handed(s) && Next(s, t, Call(call), s')
    ensures forall u :: u in s'.pc && !s'.pc[u].Outside? ==> Legal(s'.shape, s'.pc[u].call)
  {
    forall u | u in s'.pc && !s'.pc[u].Outside? ensures Legal(s'.shape, s'.pc[u].call) {
      assert u != t ==> Legal(s.shape, s.pc[u].call);
    }
  }

  lemma HandOverAccounts(s: State, t: nat, call: Op, s': State)
    requires s.shape.Inv() && Handed(s) && s'.shape == s.shape
    requires call.DeallocOp? ==> call.ptr == 0 || call.ptr in s.owner
    requires s'.owner == if call.DeallocOp? then s.owner - {call.ptr} else s.owner
    requires Returning(s, t) == 0
    requires forall u :: Returning(s', u) == if u == t && call.DeallocOp? then call.ptr else Returning(s, u)
    ensures forall p :: IsPayload(s'.shape, p) ==> p in s'.owner || exists u :: Returning(s', u) == p
  {
    forall p | IsPayload(s'.shape, p) ensures p in s'.owner || exists u :: Returning(s', u) == p {
      if p !in s'.owner {
        if p in s.owner {
          assert Returning(s', t) == p;
        } else {
          var u :| Returning(s, u) == p;
          NoNullPayload(s.shape, p);
          assert Returning(s', u) == p;
        }
      }
    }
  }

  lemma NoNullPayload(s: Shape, p: int)
    requires s.Inv() && IsPayload(s, p)
    ensures p > 0
  {
    var a := BlockOf(s, p);
    assert s.Housed(a) && s.Extent(a);
  }

  lemma CompeteSafe(s: State, t: nat, wins: bool, s': State)
    requires t in s.pc && Safe(s) && Next(s, t, Compete(wins), s')
    ensures Safe(s')
  {
    if wins {
      SameCalls(s, t, s');
      MovedProgress(s, t, s');
      assert Inside(s', t);
      assert forall u :: Inside(s', u) ==> u == t || Inside(s, u);
    }
  }

  lemma BeginSafe(s: State, t: nat, s': State)
    requires t in s.pc && Safe(s) && Next(s, t, Begin, s')
    ensures Safe(s')
  {
    SameCalls(s, t, s');
    assert Inside(s, t);
    assert forall u :: Inside(s', u) <==> Inside(s, u);
    forall u | u in s.pc ensures !s.pc[u].Working? { assert Inside(s, u) ==> u == t; }
    forall u | u in s'.pc && s'.pc[u].Working? ensures UnderWay(s', s'.pc[u]) {
      assert Inside(s', u);
      assert [] + Stores(s.shape, s.pc[t].call) == Stores(s.shape, s.pc[t].call);
    }
  }

  /** The thread inside the lock is the only one that can be storing. */
  lemma OnlyStorer(s: State, t: nat)
    requires Safe(s) && t in s.pc && s.pc[t].Working?
    ensures forall u :: u in s.pc && u != t ==> !Inside(s, u)
  {
    assert Inside(s, t);
  }

  lemma OneStoreProgress(s: State, pc: Pc, s': State)
    requires s.shape.Inv() && pc.Working? && Legal(s.shape, pc.call) && UnderWay(s, pc) && pc.todo != []
    requires s'.shape == s.shape && s'.cells == s.cells.Apply(pc.todo[0])
    ensures UnderWay(s', pc.(done := pc.done + [pc.todo[0]], todo := pc.todo[1..]))
  {
    OneStoreSeen(s, pc.begun, pc.done, pc.todo[0], s');
    HeadMoves(pc.done, pc.todo);
  }

  lemma HeadMoves<T>(done: seq<T>, todo: seq<T>)
    requires todo != []
    ensures (done + [todo[0]]) + todo[1..] == done + todo
  {
  }

  lemma OneStoreSeen(s: State, begun: Cells, done: seq<Store>, w: Store, s': State)
    requires SeesItself(s, begun, done) && s'.shape == s.shape && s'.cells == s.cells.Apply(w)
    ensures SeesItself(s', begun, done + [w])
  {
    ApplyMore(begun, done, w);
  }

  lemma OneStoreSafe(s: State, t: nat, s': State)
    requires t in s.pc && Safe(s) && Next(s, t, OneStore, s')
    ensures Safe(s')
  {
    SameCalls(s, t, s');
    OnlyStorer(s, t);
    assert forall u :: Inside(s', u) <==> Inside(s, u);
    assert s'.pc[t].Working?;
    OneStoreProgress(s, s.pc[t], s');
    forall u | u in s'.pc && s'.pc[u].Working? ensures UnderWay(s', s'.pc[u]) {
      assert u != t ==> !Inside(s, u);
    }
  }

  /** An owner's store is invisible to an operation under way. */
  lemma OwnerStoreProgress(s: State, pc: Pc, x: int, value: int, s': State)
    requires s.shape.Inv() && pc.Working? && Legal(s.shape, pc.call) && UnderWay(s, pc) && s.shape.Owned(x)
    requires s'.shape == s.shape && s'.cells == s.cells.Apply(Word(x, value))
    ensures UnderWay(s', pc)
  {
  }

  lemma OwnerStoreSafe(s: State, t: nat, block: int, x: int, value: int, s': State)
    requires t in s.pc && Safe(s) && Next(s, t, OwnerStore(block, x, value), s')
    ensures Safe(s')
  {
    SameCalls(s, t, s');
    assert s.shape.Owned(x);
    assert forall u :: Inside(s', u) <==> Inside(s, u);
    if forall u :: u in s'.pc ==> !s'.pc[u].Working? {
      OwnerWriteRep(s.shape, s.cells, x, value);
    }
    forall u | u in s'.pc && s'.pc[u].Working? ensures UnderWay(s', s'.pc[u]) {
      OwnerStoreProgress(s, s.pc[u], x, value, s');
    }
  }

  lemma GiveSafe(s: State, t: nat, ptr: int, to: nat, s': State)
    requires t in s.pc && Safe(s) && Next(s, t, Give(ptr, to), s')
    ensures Safe(s')
  {
    assert forall u :: Inside(s', u) <==> Inside(s, u);
    assert forall u :: Returning(s', u) == Returning(s, u);
    assert forall p :: p in s'.owner <==> p in s.owner;
    SameOwned(s, s');
    forall u | u in s'.pc && s'.pc[u].Working? ensures UnderWay(s', s'.pc[u]) {
      assert UnderWay(s, s.pc[u]);
    }
  }

  // ----- releasing the lock -----

  /** Once every store is done, the words mean the new shape, whatever owners wrote meanwhile. */
  lemma FinishedRep(s: State, pc: Pc)
    requires s.shape.Inv() && pc.Working? && Legal(s.shape, pc.call) && UnderWay(s, pc) && pc.todo == []
    ensures Rep(Step(s.shape, pc.call), s.cells)
  {
    var after, c := Step(s.shape, pc.call), ApplyAll(pc.begun, pc.done);
    assert pc.done == Stores(s.shape, pc.call);
    StoresRep(s.shape, pc.call, pc.begun);
    forall x | OwnWord(after, x) ensures s.cells.At(x) == c.At(x) {
      if s.shape.Owned(x) { NewWordsPrivate(s.shape, pc.call, x); }
    }
    RepReads(after, c, s.cells);
  }

  lemma StoresRep(s: Shape, call: Op, c: Cells)
    requires s.Inv() && Legal(s, call) && Rep(s, c)
    ensures Rep(Step(s, call), ApplyAll(c, Stores(s, call)))
  {
    s.InvNoded();
    match call
    case AllocOp(size, align) =>
      var bytes := Max(size, 1);
      var k := FirstFit(s, 0, bytes, align);
      FirstFitSpec(s, 0, bytes, align);
      if k < |s.list| {
        FitPlaces(s, k, bytes, align);
        CarveRep(s, k, AllocPtr(s, size, align), bytes, c);
      }
    case DeallocOp(ptr) =>
      if ptr != 0 { ReleaseRep(s, BlockOf(s, ptr), c); }
  }

  /** How an operation changes which payloads are live. */
  lemma StepPayloads(s: Shape, call: Op)
    requires s.Inv() && Legal(s, call)
    ensures var s', gained := Step(s, call), Result(s, call);
            && (gained != 0 ==> !IsPayload(s, gained))
            && (forall p :: IsPayload(s', p) <==>
                  (IsPayload(s, p) && !(call.DeallocOp? && p == call.ptr)) || (gained != 0 && p == gained))
  {
    s.InvNoded();
    match call
    case AllocOp(size, align) => AllocKeeps(s, size, align);
    case DeallocOp(ptr) =>
      if ptr != 0 { ReleasePayloads(s, ptr); }
      else {
        forall p | IsPayload(s, p) ensures p != 0 { NoNullPayload(s, p); }
      }
  }

  /** An operation leaves every other pending call legal. */
  lemma StillLegal(s: Shape, call: Op, other: Op)
    requires s.Inv() && Legal(s, call) && Legal(s, other)
    requires call.DeallocOp? && other.DeallocOp? && other.ptr != 0 ==> other.ptr != call.ptr
    ensures Legal(Step(s, call), other)
  {
    StepPayloads(s, call);
    StepInv(s, call);
  }

  lemma UnlockReturns(s: State, t: nat, s': State)
    requires t in s.pc && Safe(s) && Next(s, t, Unlock, s')
    ensures forall u :: Returning(s', u) == if u == t then 0 else Returning(s, u)
    ensures s.pc[t].call.DeallocOp? ==> Returning(s, t) == s.pc[t].call.ptr
    ensures forall u :: u in s'.pc && !s'.pc[u].Outside? ==> Legal(s'.shape, s'.pc[u].call)
  {
    forall u | u in s'.pc && !s'.pc[u].Outside? ensures Legal(s'.shape, s'.pc[u].call) {
      assert s.pc[u].call.DeallocOp? ==> Returning(s, u) == s.pc[u].call.ptr;
      assert s.pc[t].call.DeallocOp? ==> Returning(s, t) == s.pc[t].call.ptr;
      StillLegal(s.shape, s.pc[t].call, s.pc[u].call);
    }
  }

  lemma UnlockHanded(s: State, t: nat, s': State)
    requires t in s.pc && Safe(s) && Next(s, t, Unlock, s')
    ensures Handed(s')
  {
    var call, gained := s.pc[t].call, Result(s.shape, s.pc[t].call);
    StepPayloads(s.shape, call);
    StepInv(s.shape, call);
    UnlockReturns(s, t, s');
    forall p | IsPayload(s'.shape, p) ensures p in s'.owner || exists u :: Returning(s', u) == p {
      if p !in s'.owner {
        var u :| Returning(s, u) == p;
        NoNullPayload(s'.shape, p);
        assert Returning(s', u) == p;
      }
    }
  }

  lemma UnlockSafe(s: State, t: nat, s': State)
    requires t in s.pc && Safe(s) && Next(s, t, Unlock, s')
    ensures Safe(s')
  {
    UnlockHanded(s, t, s');
    OnlyStorer(s, t);
    assert UnderWay(s, s.pc[t]);
    FinishedRep(s, s.pc[t]);
    StepInv(s.shape, s.pc[t].call);
    forall u ensures !Inside(s', u) { assert u in s.pc && u != t ==> !Inside(s, u); }
    forall u | u in s'.pc ensures !s'.pc[u].Working? { assert !Inside(s', u); }
  }

  lemma NextSafe(s: State, t: nat, act: Action, s': State)
    requires t in s.pc && Safe(s) && Next(s, t, act, s')
    ensures Safe(s')
  {
    match act
    case Call(call) => CallSafe(s, t, call, s');
    case Compete(wins) => CompeteSafe(s, t, wins, s');
    case Begin => BeginSafe(s, t, s');
    case OneStore => OneStoreSafe(s, t, s');
    case Unlock => UnlockSafe(s, t, s');
    case OwnerStore(block, x, value) => OwnerStoreSafe(s, t, block, x, value, s');
    case Give(ptr, to) => GiveSafe(s, t, ptr, to, s');
  }

  // ----- every interleaving -----

  ghost predicate Initial(s: State) {
    && !s.locked && s.owner == map[]
    && s.shape.start < s.shape.end < WORD_LIMIT && s.shape.Inv() && s.shape == Whole(s.shape.start, s.shape.end)
    && Rep(s.shape, s.cells)
    && (forall t :: t in s.pc ==> s.pc[t].Outside?)
  }

  ghost predicate AnyStep(s: State, s': State) {
    s.shape.Inv() && exists t, act :: t in s.pc && Next(s, t, act, s')
  }

  ghost predicate IsTrace(trace: seq<State>) {
    && trace != [] && Initial(trace[0])
    && forall i :: 0 <= i < |trace| - 1 ==> AnyStep(trace[i], trace[i + 1])
  }

  lemma AnyStepSafe(s: State, s': State)
    requires Safe(s) && AnyStep(s, s')
    ensures Safe(s')
  {
    var t, act :| t in s.pc && Next(s, t, act, s');
    NextSafe(s, t, act, s');
  }

  lemma InitialSafe(s: State)
    requires Initial(s)
    ensures Safe(s)
  {
    forall t ensures !Inside(s, t) && Returning(s, t) == 0 {}
    forall p ensures !IsPayload(s.shape, p) {}
  }

  /** In every state of every interleaving of any number of threads the invariant holds. */
  lemma {:induction false} TraceSafe(trace: seq<State>, i: nat)
    requires IsTrace(trace) && i < |trace|
    ensures Safe(trace[i])
  {
    if i == 0 {
      InitialSafe(trace[0]);
    } else {
      TraceSafe(trace, i - 1);
      assert AnyStep(trace[i - 1], trace[i - 1 + 1]);
      AnyStepSafe(trace[i - 1], trace[i]);
    }
  }

  /** At most one thread holds the guard, and only while the lock word is set. */
  lemma MutualExclusion(trace: seq<State>, i: nat, t: nat, u: nat)
    requires IsTrace(trace) && i < |trace| && Inside(trace[i], t)
    ensures trace[i].locked && (Inside(trace[i], u) ==> u == t)
  {
    TraceSafe(trace, i);
  }

  /** Whenever the lock is free the heap is whole, and every operation begins from a whole heap. */
  lemma WholeWhenUnlocked(trace: seq<State>, i: nat)
    requires IsTrace(trace) && i < |trace|
    ensures trace[i].shape.Inv()
    ensures !trace[i].locked ==> Rep(trace[i].shape, trace[i].cells)
    ensures forall t :: t in trace[i].pc && trace[i].pc[t].Holding? ==> Rep(trace[i].shape, trace[i].cells)
    ensures forall t :: t in trace[i].pc && trace[i].pc[t].Working? ==> Rep(trace[i].shape, trace[i].pc[t].begun)
  {
    TraceSafe(trace, i);
    var s := trace[i];
    if !s.locked {
      forall t | t in s.pc ensures !s.pc[t].Working? { assert !Inside(s, t); }
    }
    forall t | t in s.pc && s.pc[t].Holding? ensures Rep(s.shape, s.cells) {
      assert Inside(s, t);
      forall u | u in s.pc ensures !s.pc[u].Working? { assert Inside(s, u) ==> u == t; }
    }
    forall t | t in s.pc && s.pc[t].Working? ensures Rep(s.shape, s.pc[t].begun) {
      assert UnderWay(s, s.pc[t]);
    }
  }

  /** Payloads in the hands of threads never overlap, whoever holds them. */
  lemma PayloadsDisjoint(trace: seq<State>, i: nat, p: int, q: int)
    requires IsTrace(trace) && i < |trace|
    requires p in trace[i].owner && q in trace[i].owner && p != q
    ensures IsPayload(trace[i].shape, p) && IsPayload(trace[i].shape, q)
    ensures var s := trace[i].shape;
            p + s.blocks[BlockOf(s, p)].use.bytes <= q || q + s.blocks[BlockOf(s, q)].use.bytes <= p
  {
    TraceSafe(trace, i);
    var s := trace[i].shape;
    var a, b := BlockOf(s, p), BlockOf(s, q);
    assert s.Housed(a) && s.Housed(b) && (a < b || b < a);
  }

  /** Only its owner changes a word of a payload: no step of any other kind does. */
  lemma PayloadIntact(s: State, t: nat, act: Action, s': State, x: int)
    requires t in s.pc && Safe(s) && Next(s, t, act, s') && s.shape.Owned(x)
    requires act.OwnerStore? ==> act.x != x
    ensures s'.cells.At(x) == s.cells.At(x)
  {
    if act.OneStore? {
      assert UnderWay(s, s.pc[t]);
      StoresAvoidOwned(s.shape, s.pc[t].call, x);
      assert s.pc[t].todo[0] == Stores(s.shape, s.pc[t].call)[|s.pc[t].done|];
    }
  }

  /**
   * In the middle of an operation, the root and every word that no owner may write hold what the operation's
   * own stores made of them; `Heap.Read` loads no other word, so each load sees what it would see running alone.
   */
  lemma LoadsSeeOwnRun(trace: seq<State>, i: nat, t: nat, x: int)
    requires IsTrace(trace) && i < |trace| && t in trace[i].pc && trace[i].pc[t].Working?
    requires !trace[i].shape.Owned(x)
    ensures var s, pc := trace[i], trace[i].pc[t];
            && Rep(s.shape, pc.begun)
            && s.cells.free == ApplyAll(pc.begun, pc.done).free
            && s.cells.At(x) == ApplyAll(pc.begun, pc.done).At(x)
  {
    TraceSafe(trace, i);
    assert UnderWay(trace[i], trace[i].pc[t]);
  }

  /** A thread with the guard can always go on; with the guard free, any waiting thread can take it. */
  lemma NobodyStuck(s: State, t: nat)
    requires Safe(s) && t in s.pc && !s.pc[t].Outside? && (Inside(s, t) || !s.locked)
    ensures exists act: Action, s': State ::
              (act.Begin? || act.OneStore? || act.Unlock? || act == Compete(true)) && Next(s, t, act, s')
  {
    match s.pc[t]
    case Spinning(call) =>
      assert Next(s, t, Compete(true), s.(locked := true, pc := s.pc[t := Holding(call)]));
    case Holding(call) =>
      assert Next(s, t, Begin, s.(pc := s.pc[t := Working(call, s.cells, [], Stores(s.shape, call))]));
    case Working(call, begun, done, todo) =>
      if todo != [] {
        var next := Working(call, begun, done + [todo[0]], todo[1..]);
        assert Next(s, t, OneStore, s.(cells := s.cells.Apply(todo[0]), pc := s.pc[t := next]));
      } else {
        var ptr := Result(s.shape, call);
        assert Next(s, t, Unlock, s.(locked := false, shape := Step(s.shape, call), pc := s.pc[t := Outside],
                                     owner := if ptr == 0 then s.owner else s.owner[ptr := t]));
      }
  }

  // ----- what a call returns, and who may act -----

  /** A finished allocation hands its thread a new aligned payload, or null when no free block has room. */
  ghost predicate Allocated(s: State, t: nat, size: nat, align: nat, s': State)
    requires align >= 1
  {
    (&& s'.owner == s.owner && s'.shape == s.shape
     && forall a, q :: s.shape.IsFree(a) ==> !Room(s.shape, a, q, Max(size, 1), align))
    || exists p :: Gained(s, t, p, size, align, s')
  }

  ghost predicate Gained(s: State, t: nat, p: int, size: nat, align: nat, s': State)
    requires align >= 1
  {
    && p != 0 && p % align == 0 && !IsPayload(s.shape, p) && p !in s.owner
    && IsPayload(s'.shape, p) && s'.shape.blocks[BlockOf(s'.shape, p)].use.bytes == Max(size, 1)
    && s'.owner == s.owner[p := t]
    && forall q :: IsPayload(s'.shape, q) <==> q == p || IsPayload(s.shape, q)
  }

  /** A finished release has taken back its payload and no other. */
  ghost predicate Freed(s: State, ptr: int, s': State) {
    && s'.owner == s.owner
    && forall q :: IsPayload(s'.shape, q) <==> IsPayload(s.shape, q) && (ptr == 0 || q != ptr)
  }

  lemma UnlockAnswers(s: State, t: nat, s': State)
    requires t in s.pc && Safe(s) && Next(s, t, Unlock, s')
    ensures !s'.locked && s'.pc[t].Outside?
    ensures match s.pc[t].call
            case AllocOp(size, align) => align >= 1 && Allocated(s, t, size, align, s')
            case DeallocOp(ptr) => Freed(s, ptr, s')
  {
    assert Legal(s.shape, s.pc[t].call);
    match s.pc[t].call
    case AllocOp(size, align) => AllocAnswers(s, t, size, align, s');
    case DeallocOp(ptr) => if ptr != 0 { ReleasePayloads(s.shape, ptr); }
  }

  lemma AllocAnswers(s: State, t: nat, size: nat, align: nat, s': State)
    requires t in s.pc && s.shape.Inv() && Handed(s) && Next(s, t, Unlock, s')
    requires s.pc[t].call == AllocOp(size, align) && Legal(s.shape, AllocOp(size, align))
    ensures Allocated(s, t, size, align, s')
  {
    s.shape.InvNoded();
    AllocFirstFit(s.shape, size, align);
    var p := AllocPtr(s.shape, size, align);
    if p != 0 {
      NewPayload(s.shape, size, align);
      assert Gained(s, t, p, size, align, s');
    } else {
      AllocInv(s.shape, size, align);
    }
  }

  lemma NewPayload(s: Shape, size: nat, align: nat)
    requires s.Inv() && Legal(s, AllocOp(size, align)) && s.Noded() && AllocPtr(s, size, align) != 0
    ensures var p, s' := AllocPtr(s, size, align), Alloc(s, size, align);
            && p % align == 0 && !IsPayload(s, p) && IsPayload(s', p)
            && s'.blocks[BlockOf(s', p)].use.bytes == Max(size, 1)
            && forall q :: IsPayload(s', q) <==> q == p || IsPayload(s, q)
  {
    var k, bytes := FirstFit(s, 0, Max(size, 1), align), Max(size, 1);
    FirstFitSpec(s, 0, bytes, align);
    FitPlaces(s, k, bytes, align);
    var p := AllocPtr(s, size, align);
    CarvePayloads(s, k, p, bytes);
    CarveUse(s, k, p, bytes);
    CarveInv(s, k, p, bytes);
    BlockOfUnique(Alloc(s, size, align), s.list[k]);
  }

  /** What a thread outside the lock may do: allocate, and free, pass on or write what it has. */
  ghost predicate Allowed(s: State, t: nat, act: Action) {
    match act
    case Call(AllocOp(size, align)) => align >= 1 && IsPow2(align) && s.shape.end + align <= WORD_LIMIT
    case Call(DeallocOp(ptr)) => ptr == 0 || (ptr in s.owner && s.owner[ptr] == t)
    case OwnerStore(block, x, value) =>
      && s.shape.IsLive(block) && x % 8 == 0
      && var use := s.shape.blocks[block].use;
         use.payload <= x < use.payload + use.bytes && use.payload in s.owner && s.owner[use.payload] == t
    case Give(ptr, to) => ptr in s.owner && s.owner[ptr] == t
    case _ => false
  }

  lemma OutsideMay(s: State, t: nat, act: Action)
    requires Safe(s) && t in s.pc && s.pc[t].Outside? && Allowed(s, t, act)
    ensures exists s' :: Next(s, t, act, s')
  {
    match act
    case Call(call) =>
      var owner := if call.DeallocOp? then s.owner - {call.ptr} else s.owner;
      assert Next(s, t, act, s.(pc := s.pc[t := Spinning(call)], owner := owner));
    case OwnerStore(block, x, value) => assert Next(s, t, act, s.(cells := s.cells.Apply(Word(x, value))));
    case Give(ptr, to) => assert Next(s, t, act, s.(owner := s.owner[ptr := to]));
    case _ =>
  }
}

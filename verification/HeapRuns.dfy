/** What holds over whole histories of allocations and deallocations. */
module HeapRuns {
  import opened Bits
  import opened HeapShape

  // ----- one call after another -----

  lemma CarvedStandsAlone(s: Shape, k: int, p: int, bytes: int)
    requires s.Inv() && Places(s, k, p, bytes) && Carve(s, k, p, bytes).Inv()
    ensures LeftOf(Carve(s, k, p, bytes), s.list[k]) == 0
  {
    CarveUse(s, k, p, bytes);
    assert s.IsFree(s.list[k]);
  }

  lemma CarveThenFreeUp(s: Shape, k: int, p: int, bytes: int)
    requires s.Inv() && Places(s, k, p, bytes)
    requires Carve(s, k, p, bytes).Inv() && Carve(s, k, p, bytes).IsLive(s.list[k])
    ensures FreeUp(Carve(s, k, p, bytes), s.list[k]) == s.(list := RemoveAt(s.list, k))
  {
    var a := s.list[k];
    assert a in s.list && s.IsFree(a);
    if Splits(p + bytes, s.EndOf(a)) {
      assert s.Extent(a);
      CutPoint(a, p, bytes, s.EndOf(a));
      CutOrdered(s, a, RoundUp8(p + bytes), Live(p, bytes), Free);
      FreeUpRejoins(s, Carve(s, k, p, bytes), k, RoundUp8(p + bytes), p, bytes);
    } else {
      assert !s.IsFree(s.EndOf(a));
      assert FreeUp(Carve(s, k, p, bytes), a).blocks == s.blocks;
    }
  }

  /** Freeing the front of a cut block swallows the rest, which restores the blocks and empties the list place. */
  lemma FreeUpRejoins(s: Shape, s1: Shape, k: int, t: int, p: int, bytes: int)
    requires 0 <= k < |s.list| && s.IsFree(s.list[k]) && t !in s.blocks && t != s.list[k]
    requires s1 == Cut(s, s.list[k], t, Live(p, bytes), Free).(list := s.list[k := t]) && s1.Listed()
    ensures FreeUp(s1, s.list[k]) == s.(list := RemoveAt(s.list, k))
  {
    var a := s.list[k];
    FoundAt(s1.list, k, t);
    assert s1.EndOf(a) == t && s1.IsFree(t);
    assert RemoveAt(s1.list, k) == RemoveAt(s.list, k);
    assert (s1.blocks - {t})[a := s.blocks[a]] == s.blocks;
  }

  lemma CarveThenRelease(s: Shape, k: int, p: int, bytes: int)
    requires s.Inv() && Places(s, k, p, bytes)
    ensures Carve(s, k, p, bytes).Inv() && Carve(s, k, p, bytes).IsLive(s.list[k])
    ensures Release(Carve(s, k, p, bytes), s.list[k])
         == s.(list := [s.list[k]] + RemoveAt(s.list, k))
  {
    CarveInv(s, k, p, bytes);
    CarveUse(s, k, p, bytes);
    CarvedStandsAlone(s, k, p, bytes);
    CarveThenFreeUp(s, k, p, bytes);
  }

  lemma FoundAt(s: seq<int>, k: int, x: int)
    requires 0 <= k < |s| && s[k] == x && NoDuplicates(s)
    ensures IndexOf(s, x) == k
  {
  }

  /**
   * An allocation undone at once: the same blocks are free again, only the node moves to the front of the
   * list, and the same request then gets the same pointer.
   */
  lemma AllocThenDealloc(s: Shape, size: nat, align: nat)
    requires s.Inv() && s.Noded() && IsPow2(align) && align >= 1
    requires AllocPtr(s, size, align) != 0
    ensures var k := FirstFit(s, 0, Max(size, 1), align);
            var s1 := Alloc(s, size, align);
            && k < |s.list| && s1.Inv() && s1.IsLive(s.list[k])
            && var s2 := Release(s1, s.list[k]);
            && s2.blocks == s.blocks
            && s2.list == [s.list[k]] + RemoveAt(s.list, k)
            && s2.Noded()
            && AllocPtr(s2, size, align) == AllocPtr(s, size, align)
  {
    var bytes := Max(size, 1);
    FirstFitSpec(s, 0, bytes, align);
    var k := FirstFit(s, 0, bytes, align);
    FitPlaces(s, k, bytes, align);
    CarveThenRelease(s, k, PayloadIn(s.list[k], align), bytes);
    var s2 := Release(Alloc(s, size, align), s.list[k]);
    ReleaseInv(Alloc(s, size, align), s.list[k]);
    s2.InvNoded();
    assert s2.list[0] == s.list[k] && Fits(s2, s2.list[0], bytes, align);
  }

  // ----- tiling -----

  /** Every address of the region lies in exactly one block. */
  lemma CoveredOnce(s: Shape, x: int)
    requires s.Inv() && s.start <= x < s.end
    ensures exists a :: a in s.blocks && a <= x < s.EndOf(a)
    ensures forall a, b :: (a in s.blocks && b in s.blocks && a <= x < s.EndOf(a) && b <= x < s.EndOf(b))
              ==> a == b
  {
    var a := s.start;
    while s.EndOf(a) <= x
      invariant a in s.blocks && a <= x
      decreases x - a
    {
      assert s.Meets(a);
      assert s.Extent(a);
      a := s.EndOf(a);
    }
  }

  // ----- conservation -----

  ghost predicate Boundary(s: Shape, x: int) {
    x == s.end || x in s.blocks
  }

  /** The bytes of the blocks from `x` on, taken in address order, that are free (or live). */
  ghost function BytesFrom(s: Shape, x: int, free: bool): int
    requires s.Tiled() && Boundary(s, x)
    decreases s.end - x
  {
    if x !in s.blocks then 0
    else
      assert s.Meets(x) && s.Extent(x);
      (if s.IsFree(x) == free then s.blocks[x].size else 0) + BytesFrom(s, s.EndOf(x), free)
  }

  /** The free blocks from `x` on, in address order. */
  ghost function FreeFrom(s: Shape, x: int): seq<int>
    requires s.Tiled() && Boundary(s, x)
    decreases s.end - x
  {
    if x !in s.blocks then []
    else
      assert s.Meets(x) && s.Extent(x);
      (if s.IsFree(x) then [x] else []) + FreeFrom(s, s.EndOf(x))
  }

  function SumSizes(s: Shape, nodes: seq<int>): int
    requires forall i :: 0 <= i < |nodes| ==> nodes[i] in s.blocks
  {
    if nodes == [] then 0 else s.blocks[nodes[0]].size + SumSizes(s, nodes[1..])
  }

  lemma {:induction false} BytesSplit(s: Shape, x: int)
    requires s.Tiled() && Boundary(s, x) && (s.start < s.end || x == s.end)
    ensures BytesFrom(s, x, true) + BytesFrom(s, x, false) == s.end - x
    decreases s.end - x
  {
    if x in s.blocks {
      assert s.Meets(x) && s.Extent(x);
      BytesSplit(s, s.EndOf(x));
    }
  }

  lemma {:induction false} FreeFromSpec(s: Shape, x: int)
    requires s.Tiled() && Boundary(s, x)
    ensures forall a :: a in FreeFrom(s, x) <==> s.IsFree(a) && x <= a
    ensures NoDuplicates(FreeFrom(s, x))
    ensures forall i :: 0 <= i < |FreeFrom(s, x)| ==> FreeFrom(s, x)[i] in s.blocks
    ensures SumSizes(s, FreeFrom(s, x)) == BytesFrom(s, x, true)
    decreases s.end - x
  {
    if x in s.blocks {
      assert s.Meets(x) && s.Extent(x);
      var rest := FreeFrom(s, s.EndOf(x));
      FreeFromSpec(s, s.EndOf(x));
      NoneBetween(s, x);
      if s.IsFree(x) {
        PushMembers(rest, x);
        assert ([x] + rest)[1..] == rest;
      } else {
        assert [] + rest == rest;
      }
    } else {
      assert forall a :: a in s.blocks ==> s.Extent(a);
    }
  }

  lemma NoneBetween(s: Shape, x: int)
    requires s.Tiled() && x in s.blocks
    ensures forall a :: s.IsFree(a) && x <= a <==> (a == x && s.IsFree(x)) || (s.IsFree(a) && s.EndOf(x) <= a)
  {
    assert s.Extent(x);
  }

  lemma SumRemove(s: Shape, nodes: seq<int>, k: int)
    requires forall i :: 0 <= i < |nodes| ==> nodes[i] in s.blocks
    requires 0 <= k < |nodes|
    ensures forall i :: 0 <= i < |RemoveAt(nodes, k)| ==> RemoveAt(nodes, k)[i] in s.blocks
    ensures SumSizes(s, nodes) == s.blocks[nodes[k]].size + SumSizes(s, RemoveAt(nodes, k))
  {
    if k == 0 {
      assert RemoveAt(nodes, 0) == nodes[1..];
    } else {
      SumRemove(s, nodes[1..], k - 1);
      assert RemoveAt(nodes, k)[1..] == RemoveAt(nodes[1..], k - 1);
    }
  }

  /** The same blocks of the same sizes add up to the same. */
  lemma {:induction false} SumKept(s: Shape, s': Shape, nodes: seq<int>)
    requires forall i :: 0 <= i < |nodes| ==>
               nodes[i] in s.blocks && nodes[i] in s'.blocks && s'.blocks[nodes[i]].size == s.blocks[nodes[i]].size
    ensures SumSizes(s', nodes) == SumSizes(s, nodes)
  {
    if nodes != [] { SumKept(s, s', nodes[1..]); }
  }

  /** Two duplicate-free enumerations of the same blocks have the same total. */
  lemma {:induction false} SumPermutes(s: Shape, u: seq<int>, v: seq<int>)
    requires forall i :: 0 <= i < |u| ==> u[i] in s.blocks
    requires forall i :: 0 <= i < |v| ==> v[i] in s.blocks
    requires NoDuplicates(u) && NoDuplicates(v)
    requires forall a :: a in u <==> a in v
    ensures SumSizes(s, u) == SumSizes(s, v)
  {
    if u == [] {
      assert forall a :: a in v ==> a in u;
      assert forall i :: 0 <= i < |v| ==> v[i] in v;
    } else {
      assert u[0] in u;
      assert u[0] in v;
      var k := IndexOf(v, u[0]);
      SumRemove(s, v, k);
      RemoveAtMembers(v, k);
      RemoveAtMembers(u, 0);
      assert RemoveAt(u, 0) == u[1..];
      SumPermutes(s, u[1..], RemoveAt(v, k));
    }
  }

  /** The free list's bytes and the live blocks' bytes always add up to the region. */
  lemma BytesConserved(s: Shape)
    requires s.Inv() && s.Noded()
    ensures Boundary(s, s.start)
    ensures SumSizes(s, s.list) == BytesFrom(s, s.start, true)
    ensures SumSizes(s, s.list) + BytesFrom(s, s.start, false) == s.end - s.start
  {
    BytesSplit(s, s.start);
    FreeFromSpec(s, s.start);
    forall a | s.IsFree(a) ensures s.start <= a { assert s.Extent(a); }
    SumPermutes(s, s.list, FreeFrom(s, s.start));
  }

  // ----- histories -----

  datatype Op = AllocOp(size: nat, align: nat) | DeallocOp(ptr: int)

  ghost predicate IsPayload(s: Shape, ptr: int) {
    exists a :: s.IsLive(a) && s.blocks[a].use.payload == ptr
  }

  /** The block that houses a payload. */
  ghost function BlockOf(s: Shape, ptr: int): (a: int)
    requires IsPayload(s, ptr)
    ensures s.IsLive(a) && s.blocks[a].use.payload == ptr
  {
    var a :| s.IsLive(a) && s.blocks[a].use.payload == ptr; a
  }

  lemma BlockOfUnique(s: Shape, a: int)
    requires s.Inv() && s.IsLive(a)
    ensures IsPayload(s, s.blocks[a].use.payload) && BlockOf(s, s.blocks[a].use.payload) == a
  {
    var b := BlockOf(s, s.blocks[a].use.payload);
    assert s.Housed(a) && s.Housed(b);
  }

  /** What the allocator's contract allows: a valid layout that does not wrap, a live pointer or null. */
  ghost predicate Legal(s: Shape, op: Op) {
    match op
    case AllocOp(size, align) => align >= 1 && IsPow2(align) && s.end + align <= WORD_LIMIT
    case DeallocOp(ptr) => ptr == 0 || IsPayload(s, ptr)
  }

  ghost function Step(s: Shape, op: Op): Shape
    requires s.Inv() && Legal(s, op)
  {
    s.InvNoded();
    match op
    case AllocOp(size, align) => Alloc(s, size, align)
    case DeallocOp(ptr) => if ptr == 0 then s else Release(s, BlockOf(s, ptr))
  }

  lemma StepInv(s: Shape, op: Op)
    requires s.Inv() && Legal(s, op)
    ensures Step(s, op).Inv() && Step(s, op).start == s.start && Step(s, op).end == s.end
  {
    s.InvNoded();
    match op
    case AllocOp(size, align) => AllocInv(s, size, align);
    case DeallocOp(ptr) => if ptr != 0 { ReleaseInv(s, BlockOf(s, ptr)); }
  }

  ghost predicate LegalRun(s: Shape, ops: seq<Op>)
    requires s.Inv()
    decreases |ops|
  {
    ops == [] || (Legal(s, ops[0]) && (StepInv(s, ops[0]); LegalRun(Step(s, ops[0]), ops[1..])))
  }

  ghost function Run(s: Shape, ops: seq<Op>): Shape
    requires s.Inv() && LegalRun(s, ops)
    decreases |ops|
  {
    if ops == [] then s else (StepInv(s, ops[0]); Run(Step(s, ops[0]), ops[1..]))
  }

  lemma WholeInv(start: int, end: int)
    requires 0 < start && start % 8 == 0 && end % 8 == 0 && start + LEAST_BLOCK <= end
    ensures Whole(start, end).Inv()
  {
    assert Whole(start, end).Meets(start);
  }

  lemma {:induction false} RunInv(s: Shape, ops: seq<Op>)
    requires s.Inv() && LegalRun(s, ops)
    ensures Run(s, ops).Inv() && Run(s, ops).start == s.start && Run(s, ops).end == s.end
    decreases |ops|
  {
    if ops != [] {
      StepInv(s, ops[0]);
      RunInv(Step(s, ops[0]), ops[1..]);
    }
  }

  /** From a fresh region, any legal history keeps every invariant and conserves every byte. */
  lemma HistorySafe(start: int, end: int, ops: seq<Op>)
    requires 0 < start && start % 8 == 0 && end % 8 == 0 && start + LEAST_BLOCK <= end
    requires Whole(start, end).Inv() && LegalRun(Whole(start, end), ops)
    ensures var s := Run(Whole(start, end), ops);
            && s.Inv() && s.Noded() && Boundary(s, start)
            && SumSizes(s, s.list) + BytesFrom(s, start, false) == end - start
  {
    RunInv(Whole(start, end), ops);
    var s := Run(Whole(start, end), ops);
    s.InvNoded();
    BytesConserved(s);
  }

  // ----- freeing everything -----

  lemma DistinctAt(s: seq<int>, i: int, j: int)
    requires NoDuplicates(s) && 0 <= i < j < |s|
    ensures s[i] != s[j]
  {
  }

  /** With nothing live, one free block spans the region. */
  lemma NothingLive(s: Shape)
    requires s.Inv() && s.start < s.end
    requires forall a :: !s.IsLive(a)
    ensures s == Whole(s.start, s.end)
  {
    var a, e := s.start, s.EndOf(s.start);
    assert s.Meets(a);
    forall x | x in s.blocks ensures s.IsFree(x) { assert !s.IsLive(x); }
    assert !s.IsFree(e);
    forall x | x in s.blocks ensures x == a {
      assert s.Extent(x) && (x == a || a < x);
    }
    assert s.blocks == map[a := Block(e - a, Free)];
    assert a in s.list;
    forall i | 0 <= i < |s.list| ensures s.list[i] == a { assert s.list[i] in s.list; }
    if |s.list| > 1 { DistinctAt(s.list, 0, 1); }
  }

  lemma ReleasePayloads(s: Shape, ptr: int)
    requires s.Inv() && IsPayload(s, ptr)
    ensures forall q :: IsPayload(Release(s, BlockOf(s, ptr)), q) <==> IsPayload(s, q) && q != ptr
  {
    var a := BlockOf(s, ptr);
    ReleaseBlocks(s, a);
    var s' := Release(s, a);
    forall q ensures IsPayload(s', q) <==> IsPayload(s, q) && q != ptr {
      if IsPayload(s', q) {
        var b := BlockOf(s', q);
        assert s.IsLive(b) && s.blocks[b].use.payload == q;
        BlockOfUnique(s, b);
      }
      if IsPayload(s, q) && q != ptr {
        var b := BlockOf(s, q);
        assert s'.IsLive(b) && s'.blocks[b].use.payload == q;
      }
    }
  }

  function FreeEach(ptrs: seq<int>): (ops: seq<Op>)
    ensures |ops| == |ptrs|
    ensures forall i :: 0 <= i < |ptrs| ==> ops[i] == DeallocOp(ptrs[i])
  {
    seq(|ptrs|, i requires 0 <= i < |ptrs| => DeallocOp(ptrs[i]))
  }

  /** Freeing every live payload, in any order, leaves one free block spanning the region. */
  lemma {:induction false} FreeingAllHeals(s: Shape, ptrs: seq<int>)
    requires s.Inv() && s.start < s.end
    requires NoDuplicates(ptrs)
    requires forall q :: q in ptrs <==> IsPayload(s, q)
    ensures LegalRun(s, FreeEach(ptrs)) && Run(s, FreeEach(ptrs)) == Whole(s.start, s.end)
    decreases |ptrs|
  {
    var ops := FreeEach(ptrs);
    if ptrs == [] {
      forall a ensures !s.IsLive(a) {
        if s.IsLive(a) {
          BlockOfUnique(s, a);
          assert false;
        }
      }
      NothingLive(s);
    } else {
      var p := ptrs[0];
      assert p in ptrs;
      var a := BlockOf(s, p);
      assert s.Housed(a) && s.Extent(a);
      var s1 := Step(s, ops[0]);
      assert s1 == Release(s, a);
      StepInv(s, ops[0]);
      ReleasePayloads(s, p);
      RemoveAtMembers(ptrs, 0);
      assert RemoveAt(ptrs, 0) == ptrs[1..];
      FreeingAllHeals(s1, ptrs[1..]);
      assert ops[1..] == FreeEach(ptrs[1..]);
    }
  }

  // ----- how much an allocation takes -----

  /**
   * An allocation of `bytes` bytes at `p` out of list node `k` takes no more of the block than it needs: with at
   * least 48 bytes between the first multiple of 8 behind the payload and the block's end, they stay free, as a
   * block in the same list place; with fewer, the whole block is taken.
   */
  ghost predicate Took(s: Shape, s': Shape, k: int, p: int, bytes: int) {
    && 0 <= k < |s.list| && s.IsFree(s.list[k]) && s'.IsLive(s.list[k])
    && s'.blocks[s.list[k]].use == Live(p, bytes)
    && s.list[k] + 32 <= p && p + bytes <= s'.EndOf(s.list[k]) <= s.EndOf(s.list[k])
    && (forall t :: t % 8 == 0 && p + bytes <= t < p + bytes + 8 ==> Parted(s, s', k, t))
    && (forall x :: x in s.blocks && x != s.list[k] ==> x in s'.blocks && s'.blocks[x] == s.blocks[x])
    && (forall x :: x in s'.blocks && x !in s.blocks ==> x == s'.EndOf(s.list[k]))
  }

  ghost predicate Parted(s: Shape, s': Shape, k: int, t: int)
    requires 0 <= k < |s.list| && s.list[k] in s.blocks && s.list[k] in s'.blocks
  {
    var a, e := s.list[k], s.EndOf(s.list[k]);
    if e - t >= 48 then
      s'.EndOf(a) == t && s'.IsFree(t) && s'.EndOf(t) == e && s'.list == s.list[k := t]
    else
      s'.EndOf(a) == e && s'.list == s.list[..k] + s.list[k + 1..]
  }

  lemma OneMultiple(x: int, t: int)
    requires t % 8 == 0 && x <= t < x + 8
    ensures t == RoundUp8(x)
  {
  }

  lemma CarveTook(s: Shape, k: int, p: int, bytes: int)
    requires s.Inv() && Places(s, k, p, bytes)
    ensures Took(s, Carve(s, k, p, bytes), k, p, bytes)
  {
    var a, s' := s.list[k], Carve(s, k, p, bytes);
    CarveUse(s, k, p, bytes);
    assert s.Extent(a);
    if Splits(p + bytes, s.EndOf(a)) {
      CutPoint(a, p, bytes, s.EndOf(a));
      CutOrdered(s, a, RoundUp8(p + bytes), Live(p, bytes), Free);
    }
    forall t | t % 8 == 0 && p + bytes <= t < p + bytes + 8 ensures Parted(s, s', k, t) {
      OneMultiple(p + bytes, t);
    }
  }

  /** The free bytes fall by the block's new size, which is less than 56 bytes above header, padding and payload. */
  lemma TookLittle(s: Shape, s': Shape, k: int, p: int, bytes: int)
    requires s.Inv() && s'.Inv() && s.Noded() && s'.Noded() && Took(s, s', k, p, bytes)
    ensures var taken := s'.EndOf(s.list[k]) - s.list[k];
            && SumSizes(s', s'.list) == SumSizes(s, s.list) - taken
            && taken < p - s.list[k] + bytes + 56
  {
    var a, t, rest := s.list[k], RoundUp8(p + bytes), RemoveAt(s.list, k);
    RoundedUp(p + bytes);
    assert Parted(s, s', k, t);
    SumRemove(s, s.list, k);
    RemoveAtMembers(s.list, k);
    forall i | 0 <= i < |rest| ensures rest[i] in s.blocks && rest[i] != a { assert rest[i] in rest; }
    SumKept(s, s', rest);
    if s.EndOf(a) - t >= 48 {
      SumRemove(s', s'.list, k);
      assert RemoveAt(s'.list, k) == rest;
    }
  }

  /** What a successful allocation leaves: nothing but what it needs is gone from the free bytes. */
  lemma AllocTakesLittle(s: Shape, size: nat, align: nat)
    requires s.Inv() && s.Noded() && IsPow2(align) && align >= 1 && AllocPtr(s, size, align) != 0
    ensures Alloc(s, size, align).Inv() && Alloc(s, size, align).Noded()
    ensures TakesLittle(s, Alloc(s, size, align), AllocPtr(s, size, align), Max(size, 1))
  {
    var bytes := Max(size, 1);
    var k, s' := FirstFit(s, 0, bytes, align), Alloc(s, size, align);
    FirstFitSpec(s, 0, bytes, align);
    AllocInv(s, size, align);
    s'.InvNoded();
    FitPlaces(s, k, bytes, align);
    CarveTook(s, k, PayloadIn(s.list[k], align), bytes);
    TookLittle(s, s', k, PayloadIn(s.list[k], align), bytes);
  }

  ghost predicate TakesLittle(s: Shape, s': Shape, p: int, bytes: int)
    requires s.Noded() && s'.Noded()
  {
    exists k ::
      && Took(s, s', k, p, bytes)
      && SumSizes(s, s.list) - SumSizes(s', s'.list) == s'.EndOf(s.list[k]) - s.list[k] < p - s.list[k] + bytes + 56
  }

  // ----- the list after a release -----

  /** A freed block that no free block ends at heads the list; otherwise the list only loses a swallowed neighbour. */
  lemma ReleaseOrder(s: Shape, a: int)
    requires s.Inv() && s.IsLive(a)
    ensures var r := s.EndOf(a);
            var others := if s.IsFree(r) then RemoveAt(s.list, IndexOf(s.list, r)) else s.list;
            Release(s, a).list
            == if exists l :: s.IsFree(l) && s.EndOf(l) == a then others else [a] + others
  {
  }
}

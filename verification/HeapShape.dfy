/**
 What a heap means, apart from its bytes: which blocks tile the region, which of them are free,
 and in which order the free list holds them. Addresses are byte addresses; 0 is the null pointer.
 */
module HeapShape {
  import opened Bits

  const HEADER_SIZE := 24
  const HEADER_GAP := 8
  const MIN_BLOCK := 2 * HEADER_SIZE
  /** The least block: a split-off allocation holds a header, a gap and at least one byte, rounded up to 8. */
  const LEAST_BLOCK := 40

  datatype Use = Free | Live(payload: int, bytes: int)
  datatype Block = Block(size: int, use: Use)

  datatype Shape = Shape(start: int, end: int, blocks: map<int, Block>, list: seq<int>) {

    predicate IsFree(a: int) {
      a in blocks && blocks[a].use.Free?
    }

    predicate IsLive(a: int) {
      a in blocks && blocks[a].use.Live?
    }

    function EndOf(a: int): int
      requires a in blocks
    {
      a + blocks[a].size
    }

    ghost predicate Extent(a: int)
      requires a in blocks
    {
      && start <= a
      && a % 8 == 0
      && blocks[a].size % 8 == 0
      && LEAST_BLOCK <= blocks[a].size
      && EndOf(a) <= end
    }

    /** The block at `a` ends where another begins, or where the region ends. */
    predicate Meets(a: int)
      requires a in blocks
    {
      EndOf(a) == end || EndOf(a) in blocks
    }

    /** A live payload lies inside its block, above the header and the padding slot. */
    ghost predicate Housed(a: int)
      requires IsLive(a)
    {
      && a + HEADER_SIZE + HEADER_GAP <= blocks[a].use.payload
      && blocks[a].use.payload % 8 == 0
      && 1 <= blocks[a].use.bytes
      && blocks[a].use.payload + blocks[a].use.bytes <= EndOf(a)
    }

    /** The blocks cover `[start, end)` without gap or overlap. */
    ghost predicate Tiled() {
      && 0 <= start && start % 8 == 0
      && end % 8 == 0
      && (if start == end then blocks == map[] else 0 < start < end && start in blocks)
      && (forall a :: a in blocks ==> Extent(a))
      && (forall a {:trigger Meets(a)} :: a in blocks ==> Meets(a))
      && Ordered()
    }

    ghost predicate Ordered() {
      forall a, b :: a in blocks && b in blocks && a < b ==> EndOf(a) <= b
    }

    ghost predicate AllHoused() {
      forall a :: IsLive(a) ==> Housed(a)
    }

    lemma InvNoded()
      requires Inv()
      ensures Noded()
    {
      forall i | 0 <= i < |list| ensures list[i] in blocks && 0 < list[i] {
        assert list[i] in list && Extent(list[i]);
      }
    }

    /** The list holds every free block once, and nothing else. */
    ghost predicate Listed() {
      && NoDuplicates(list)
      && (forall a :: a in list <==> IsFree(a))
    }

    predicate Noded() {
      forall i :: 0 <= i < |list| ==> list[i] in blocks && 0 < list[i]
    }

    ghost predicate NoFreeNeighbours() {
      forall a, b :: IsFree(a) && IsFree(b) ==> EndOf(a) != b
    }

    ghost predicate Inv() {
      Tiled() && AllHoused() && Listed() && NoFreeNeighbours()
    }

    /** Whether `x` is an address inside some free block. */
    ghost predicate InFree(x: int) {
      exists a :: IsFree(a) && a <= x < EndOf(a)
    }

    /** Whether the owner of a live payload may write the 8-byte word at `x`. */
    ghost predicate Owned(x: int) {
      exists a :: IsLive(a) && OwnedBy(a, x)
    }

    predicate OwnedBy(a: int, x: int)
      requires IsLive(a)
    {
      && x % 8 == 0
      && blocks[a].use.payload <= x < blocks[a].use.payload + blocks[a].use.bytes
    }
  }

  /** The owner of the live payload in the block at `a` may write the byte at `y`. */
  predicate OwnsByte(s: Shape, a: int, y: int)
    requires s.IsLive(a)
  {
    s.blocks[a].use.payload <= y < s.blocks[a].use.payload + s.blocks[a].use.bytes
  }

  ghost predicate OwnedByte(s: Shape, y: int) {
    exists a :: s.IsLive(a) && OwnsByte(s, a, y)
  }

  /** A byte of a payload lies in a word of that payload. */
  lemma OwnedByteInWord(s: Shape, y: int)
    requires s.AllHoused() && OwnedByte(s, y)
    ensures s.Owned(y - y % 8)
  {
    var a :| s.IsLive(a) && OwnsByte(s, a, y);
    assert s.Housed(a);
    EightBelow(s.blocks[a].use.payload, y);
    assert s.OwnedBy(a, y - y % 8);
  }

  lemma EightBelow(p: int, y: int)
    requires p % 8 == 0 && p <= y
    ensures p <= y - y % 8 <= y && (y - y % 8) % 8 == 0
  {
  }

  ghost predicate NoDuplicates(s: seq<int>) {
    forall i, j :: 0 <= i < j < |s| ==> s[i] != s[j]
  }

  function RemoveAt<T>(s: seq<T>, k: int): seq<T>
    requires 0 <= k < |s|
  {
    s[..k] + s[k + 1..]
  }

  function IndexOf(s: seq<int>, x: int): (k: int)
    requires x in s
    ensures 0 <= k < |s| && s[k] == x
  {
    if s[0] == x then 0 else 1 + IndexOf(s[1..], x)
  }

  /** The shape of a heap that was never given a region. */
  const EMPTY := Shape(0, 0, map[], [])

  /** One free block over `[start, end)`. */
  function Whole(start: int, end: int): Shape {
    Shape(start, end, map[start := Block(end - start, Free)], [start])
  }

  // ----- allocation -----

  /** Where a payload goes in the free block at `a`. */
  function PayloadIn(a: nat, align: nat): int
    requires align >= 1
  {
    AlignUp(a + HEADER_SIZE + HEADER_GAP, align)
  }

  predicate Fits(s: Shape, a: int, bytes: int, align: nat)
    requires a in s.blocks && 0 <= a && align >= 1
  {
    PayloadIn(a, align) + bytes <= s.EndOf(a)
  }

  function RoundUp8(x: int): int {
    x + (-x) % 8
  }

  lemma RoundedUp(x: int)
    ensures RoundUp8(x) % 8 == 0 && x <= RoundUp8(x) < x + 8
  {
  }

  predicate Splits(need: int, blockEnd: int) {
    blockEnd - need >= MIN_BLOCK && blockEnd - RoundUp8(need) >= MIN_BLOCK
  }

  /** Where a block is cut: far enough above its payload's header, and low enough for another block. */
  lemma CutPoint(a: int, p: int, bytes: int, e: int)
    requires a % 8 == 0 && p % 8 == 0 && a + HEADER_SIZE + HEADER_GAP <= p && bytes >= 1 && Splits(p + bytes, e)
    ensures var t := RoundUp8(p + bytes);
            t % 8 == 0 && p + bytes <= t && a + LEAST_BLOCK <= t && t + MIN_BLOCK <= e
  {
    RoundedUp(p + bytes);
  }

  /** The blocks of a shape after the one at `a` is cut in two at `t`. */
  function Cut(s: Shape, a: int, t: int, front: Use, back: Use): Shape
    requires a in s.blocks
  {
    s.(blocks := s.blocks[a := Block(t - a, front)][t := Block(s.EndOf(a) - t, back)])
  }

  /** Node `i` of the list gives up `bytes` bytes at `p`; a large enough rest takes its list position. */
  function Carve(s: Shape, i: int, p: int, bytes: int): Shape
    requires 0 <= i < |s.list| && s.list[i] in s.blocks
  {
    var a := s.list[i];
    var e := s.EndOf(a);
    if Splits(p + bytes, e) then
      var t := RoundUp8(p + bytes);
      Cut(s, a, t, Live(p, bytes), Free).(list := s.list[i := t])
    else
      s.(blocks := s.blocks[a := Block(e - a, Live(p, bytes))],
         list := RemoveAt(s.list, i))
  }

  ghost predicate Places(s: Shape, i: int, p: int, bytes: int) {
    && 0 <= i < |s.list|
    && s.list[i] in s.blocks
    && p % 8 == 0
    && bytes >= 1
    && s.list[i] + HEADER_SIZE + HEADER_GAP <= p
    && p + bytes <= s.EndOf(s.list[i])
  }

  lemma CutOrdered(s: Shape, a: int, t: int, front: Use, back: Use)
    requires s.Ordered() && a in s.blocks && a < t < s.EndOf(a)
    ensures t !in s.blocks
    ensures Cut(s, a, t, front, back).Ordered()
  {
    var s' := Cut(s, a, t, front, back);
    forall x, y | x in s'.blocks && y in s'.blocks && x < y
      ensures s'.EndOf(x) <= y
    {
      if x != t && y != t { assert x in s.blocks && y in s.blocks; }
      else if x == t { assert a < y; }
    }
  }

  lemma Eights(a: int, t: int, e: int)
    requires a % 8 == 0 && t % 8 == 0 && e % 8 == 0
    ensures (t - a) % 8 == 0 && (e - t) % 8 == 0 && (t + e) % 8 == 0
  {
  }

  lemma EndsOnEight(s: Shape, a: int)
    requires s.Tiled() && a in s.blocks
    ensures s.EndOf(a) % 8 == 0 && s.EndOf(a) <= s.end
  {
    assert s.Extent(a);
    Eights(0, a, s.blocks[a].size);
  }

  lemma CutBlock(s: Shape, a: int, t: int, front: Use, back: Use, x: int)
    requires s.Tiled() && a in s.blocks && t % 8 == 0
    requires a + LEAST_BLOCK <= t && t + LEAST_BLOCK <= s.EndOf(a)
    requires x == t || x in s.blocks
    ensures Cut(s, a, t, front, back).Extent(x) && Cut(s, a, t, front, back).Meets(x)
  {
    assert s.Meets(a) && s.Extent(a);
    Eights(a, s.blocks[a].size, 0);
    Eights(a, t, s.EndOf(a));
    if x != t { assert s.Meets(x) && s.Extent(x); }
  }

  lemma CutTiled(s: Shape, a: int, t: int, front: Use, back: Use)
    requires s.Tiled() && a in s.blocks && t % 8 == 0
    requires a + LEAST_BLOCK <= t && t + LEAST_BLOCK <= s.EndOf(a)
    ensures Cut(s, a, t, front, back).Tiled()
  {
    CutOrdered(s, a, t, front, back);
    var s' := Cut(s, a, t, front, back);
    forall x | x in s'.blocks ensures s'.Extent(x) && s'.Meets(x) {
      CutBlock(s, a, t, front, back, x);
    }
  }

  /** Tiling looks at sizes only. */
  lemma RetypeTiled(s: Shape, s': Shape)
    requires s.Tiled() && s'.start == s.start && s'.end == s.end
    requires s'.blocks.Keys == s.blocks.Keys
    requires forall a :: a in s.blocks ==> s'.blocks[a].size == s.blocks[a].size
    ensures s'.Tiled()
  {
    forall x | x in s'.blocks ensures s'.Extent(x) && s'.Meets(x) {
      assert s.Meets(x);
    }
    forall x, y | x in s'.blocks && y in s'.blocks && x < y ensures s'.EndOf(x) <= y {
      assert s'.EndOf(x) == s.EndOf(x);
    }
    if s.start == s.end { assert s'.blocks == map[]; }
  }

  lemma CarveTiled(s: Shape, i: int, p: int, bytes: int)
    requires s.Inv() && Places(s, i, p, bytes)
    ensures Carve(s, i, p, bytes).Tiled()
  {
    var a := s.list[i];
    assert s.Extent(a);
    var t := RoundUp8(p + bytes);
    if Splits(p + bytes, s.EndOf(a)) {
      CutPoint(a, p, bytes, s.EndOf(a));
      CutTiled(s, a, t, Live(p, bytes), Free);
      RetypeTiled(Cut(s, a, t, Live(p, bytes), Free), Carve(s, i, p, bytes));
    } else {
      RetypeTiled(s, Carve(s, i, p, bytes));
    }
  }

  lemma UpdateMembers(s: seq<int>, k: int, y: int)
    requires 0 <= k < |s| && NoDuplicates(s) && y !in s
    ensures NoDuplicates(s[k := y])
    ensures forall x :: x in s[k := y] <==> x == y || (x in s && x != s[k])
  {
    var r := s[k := y];
    assert r[k] == y;
    forall x | x in s && x != s[k] ensures x in r {
      var j :| 0 <= j < |s| && s[j] == x;
      assert r[j] == x;
    }
    forall x | x in r && x != y ensures x in s && x != s[k] {
      var j :| 0 <= j < |r| && r[j] == x;
      assert s[j] == x;
    }
  }

  lemma CarveListed(s: Shape, i: int, p: int, bytes: int)
    requires s.Inv() && Places(s, i, p, bytes)
    ensures Carve(s, i, p, bytes).Listed()
  {
    var a := s.list[i];
    assert a in s.list && s.IsFree(a);
    var t := RoundUp8(p + bytes);
    if Splits(p + bytes, s.EndOf(a)) {
      CutOrdered(s, a, t, Live(p, bytes), Free);
      UpdateMembers(s.list, i, t);
      var s' := Carve(s, i, p, bytes);
      forall x ensures s'.IsFree(x) <==> x == t || (s.IsFree(x) && x != a) {}
    } else {
      RemoveAtMembers(s.list, i);
    }
  }

  lemma RemoveAtMembers(s: seq<int>, k: int)
    requires 0 <= k < |s| && NoDuplicates(s)
    ensures NoDuplicates(RemoveAt(s, k))
    ensures forall x :: x in RemoveAt(s, k) <==> x in s && x != s[k]
  {
    var r := RemoveAt(s, k);
    forall x | x in s && x != s[k] ensures x in r {
      var j :| 0 <= j < |s| && s[j] == x;
      assert x == if j < k then r[j] else r[j - 1];
    }
  }

  lemma CarveApart(s: Shape, i: int, p: int, bytes: int)
    requires s.Inv() && Places(s, i, p, bytes)
    ensures Carve(s, i, p, bytes).NoFreeNeighbours()
  {
    var a := s.list[i];
    assert a in s.list && s.IsFree(a);
    var t := RoundUp8(p + bytes);
    var s' := Carve(s, i, p, bytes);
    if Splits(p + bytes, s.EndOf(a)) { CutOrdered(s, a, t, Live(p, bytes), Free); }
    forall x, y | s'.IsFree(x) && s'.IsFree(y) ensures s'.EndOf(x) != y {
      if x == t && Splits(p + bytes, s.EndOf(a)) {
        assert y != t ==> s.IsFree(y);
      } else {
        assert s.IsFree(x) && x != a && (x < a || a < x);
        assert y in s.blocks ==> s.IsFree(y);
      }
    }
  }

  lemma CarveHoused(s: Shape, i: int, p: int, bytes: int)
    requires s.Inv() && Places(s, i, p, bytes)
    ensures Carve(s, i, p, bytes).AllHoused()
  {
    var a := s.list[i];
    var s' := Carve(s, i, p, bytes);
    forall x | s'.IsLive(x) ensures s'.Housed(x) {
      if x != a { assert s.IsLive(x) && s.Housed(x); }
    }
  }

  /** Carving a free node keeps every invariant of the heap. */
  lemma CarveInv(s: Shape, i: int, p: int, bytes: int)
    requires s.Inv() && Places(s, i, p, bytes)
    ensures Carve(s, i, p, bytes).Inv()
  {
    CarveTiled(s, i, p, bytes);
    CarveListed(s, i, p, bytes);
    CarveApart(s, i, p, bytes);
    CarveHoused(s, i, p, bytes);
  }

  // ----- release -----

  /** The block at `a` swallows the block that follows it. */
  function Merge(s: Shape, a: int): Shape
    requires a in s.blocks && s.EndOf(a) in s.blocks
  {
    var e := s.EndOf(a);
    s.(blocks := (s.blocks - {e})[a := Block(s.blocks[a].size + s.blocks[e].size, s.blocks[a].use)])
  }

  lemma MergeBlock(s: Shape, a: int, x: int)
    requires s.Tiled() && a in s.blocks && s.EndOf(a) in s.blocks && x in s.blocks && x != s.EndOf(a)
    ensures Merge(s, a).Extent(x) && Merge(s, a).Meets(x)
  {
    var e := s.EndOf(a);
    assert s.Meets(e) && s.Extent(e) && s.Extent(a) && s.Meets(x) && s.Extent(x);
    Eights(0, s.blocks[a].size, s.blocks[e].size);
  }

  lemma MergeTiled(s: Shape, a: int)
    requires s.Tiled() && a in s.blocks && s.EndOf(a) in s.blocks
    ensures Merge(s, a).Tiled()
  {
    var s', e := Merge(s, a), s.EndOf(a);
    assert s.Extent(e) && s.Extent(a);
    forall x, y | x in s'.blocks && y in s'.blocks && x < y
      ensures s'.EndOf(x) <= y
    {
      assert x in s.blocks && y in s.blocks;
    }
    forall x | x in s'.blocks ensures s'.Extent(x) && s'.Meets(x) {
      MergeBlock(s, a, x);
    }
  }

  /** The free block ending where `a` starts, or null. */
  ghost function LeftOf(s: Shape, a: int): (l: int)
    requires s.Tiled()
    ensures l != 0 ==> s.IsFree(l) && s.EndOf(l) == a
    ensures l == 0 ==> forall x :: s.IsFree(x) ==> s.EndOf(x) != a
  {
    if x: int :| s.IsFree(x) && s.EndOf(x) == a then x else 0
  }

  /** The live block at `a` becomes free and swallows a free block after it. */
  function FreeUp(s: Shape, a: int): Shape
    requires s.Listed() && s.IsLive(a)
  {
    var s0 := s.(blocks := s.blocks[a := Block(s.blocks[a].size, Free)]);
    var r := s.EndOf(a);
    if s.IsFree(r) then Merge(s0, a).(list := RemoveAt(s.list, IndexOf(s.list, r))) else s0
  }

  /** Freeing the live block at `a`: a free block before it swallows it, else it heads the list. */
  ghost function Release(s: Shape, a: int): Shape
    requires s.Tiled() && s.Listed() && s.IsLive(a)
  {
    var s1 := FreeUp(s, a);
    var l := LeftOf(s, a);
    if l != 0 then Merge(s1, l) else s1.(list := [a] + s1.list)
  }

  lemma FreeUpTiled(s: Shape, a: int)
    requires s.Tiled() && s.Listed() && s.IsLive(a)
    ensures FreeUp(s, a).Tiled()
  {
    var s0 := s.(blocks := s.blocks[a := Block(s.blocks[a].size, Free)]);
    RetypeTiled(s, s0);
    if s.IsFree(s.EndOf(a)) {
      MergeTiled(s0, a);
      RetypeTiled(Merge(s0, a), FreeUp(s, a));
    }
  }

  lemma FreeUpListed(s: Shape, a: int)
    requires s.Tiled() && s.Listed() && s.IsLive(a)
    ensures NoDuplicates(FreeUp(s, a).list)
    ensures forall x :: x in FreeUp(s, a).list <==> s.IsFree(x) && x != s.EndOf(a)
    ensures forall x :: FreeUp(s, a).IsFree(x) <==> x == a || (s.IsFree(x) && x != s.EndOf(a))
  {
    var r := s.EndOf(a);
    if s.IsFree(r) { RemoveAtMembers(s.list, IndexOf(s.list, r)); }
  }

  lemma ReleaseTiled(s: Shape, a: int)
    requires s.Tiled() && s.Listed() && s.IsLive(a)
    ensures Release(s, a).Tiled()
  {
    FreeUpTiled(s, a);
    var s1, l := FreeUp(s, a), LeftOf(s, a);
    if l != 0 { MergeTiled(s1, l); } else { RetypeTiled(s1, Release(s, a)); }
  }

  /** What freeing the block at `a` leaves: the block that now holds it, and the rest as it was. */
  lemma ReleaseBlocks(s: Shape, a: int)
    requires s.Tiled() && s.Listed() && s.IsLive(a)
    ensures var s', l, r := Release(s, a), LeftOf(s, a), s.EndOf(a);
            var head := if l != 0 then l else a;
            && s'.IsFree(head)
            && s'.EndOf(head) == (if s.IsFree(r) then s.EndOf(r) else r)
            && (forall x :: x != head ==>
                  (x in s'.blocks <==> x in s.blocks && x != a && !(x == r && s.IsFree(r))))
            && (forall x :: x != head && x in s'.blocks ==> s'.blocks[x] == s.blocks[x])
  {
  }

  lemma PushMembers(s: seq<int>, y: int)
    requires NoDuplicates(s) && y !in s
    ensures NoDuplicates([y] + s)
    ensures forall x :: x in [y] + s <==> x == y || x in s
  {
    var r := [y] + s;
    assert r[0] == y && r[1..] == s;
    forall j | 1 <= j < |r| ensures r[j] in s { assert r[j] == s[j - 1]; }
  }

  lemma ReleaseListed(s: Shape, a: int)
    requires s.Tiled() && s.Listed() && s.IsLive(a)
    ensures Release(s, a).Listed()
  {
    FreeUpListed(s, a);
    var s1, l, s' := FreeUp(s, a), LeftOf(s, a), Release(s, a);
    if l != 0 {
      forall x ensures s'.IsFree(x) <==> s1.IsFree(x) && x != a {}
    } else {
      PushMembers(s1.list, a);
    }
  }

  lemma ReleaseApart(s: Shape, a: int)
    requires s.Inv() && s.IsLive(a)
    ensures Release(s, a).NoFreeNeighbours()
  {
    ReleaseBlocks(s, a);
    var s', l, r := Release(s, a), LeftOf(s, a), s.EndOf(a);
    var head := if l != 0 then l else a;
    forall x, y | s'.IsFree(x) && s'.IsFree(y) ensures s'.EndOf(x) != y {
      assert x != head ==> s.IsFree(x);
      assert y != head ==> s.IsFree(y);
    }
  }

  lemma ReleaseHoused(s: Shape, a: int)
    requires s.Inv() && s.IsLive(a)
    ensures Release(s, a).AllHoused()
  {
    ReleaseBlocks(s, a);
    var s' := Release(s, a);
    forall x | s'.IsLive(x) ensures s'.Housed(x) {
      assert s.IsLive(x) && s.Housed(x);
    }
  }

  /** Freeing a live block keeps every invariant of the heap. */
  lemma ReleaseInv(s: Shape, a: int)
    requires s.Inv() && s.IsLive(a)
    ensures Release(s, a).Inv()
  {
    ReleaseTiled(s, a);
    ReleaseListed(s, a);
    ReleaseApart(s, a);
    ReleaseHoused(s, a);
  }

  // ----- first fit -----

  /** The list position of the first node from `i` on that can hold the payload; `|list|` when none can. */
  function FirstFit(s: Shape, i: nat, bytes: int, align: nat): (k: nat)
    requires i <= |s.list| && align >= 1
    requires s.Noded()
    ensures i <= k <= |s.list|
    decreases |s.list| - i
  {
    if i == |s.list| || Fits(s, s.list[i], bytes, align) then i else FirstFit(s, i + 1, bytes, align)
  }

  lemma {:induction false} FirstFitSpec(s: Shape, i: nat, bytes: int, align: nat)
    requires i <= |s.list| && align >= 1
    requires s.Noded()
    ensures var k := FirstFit(s, i, bytes, align);
            && (k < |s.list| ==> Fits(s, s.list[k], bytes, align))
            && (forall j :: i <= j < k ==> !Fits(s, s.list[j], bytes, align))
    decreases |s.list| - i
  {
    if i == |s.list| || Fits(s, s.list[i], bytes, align) {
    } else {
      FirstFitSpec(s, i + 1, bytes, align);
    }
  }

  /** Where an allocation of `size` bytes puts its payload; null when no node can hold it. */
  function AllocPtr(s: Shape, size: nat, align: nat): int
    requires align >= 1
    requires s.Noded()
  {
    var k := FirstFit(s, 0, Max(size, 1), align);
    if k == |s.list| then 0 else PayloadIn(s.list[k], align)
  }

  function Alloc(s: Shape, size: nat, align: nat): Shape
    requires align >= 1
    requires s.Noded()
  {
    var k := FirstFit(s, 0, Max(size, 1), align);
    if k == |s.list| then s else Carve(s, k, PayloadIn(s.list[k], align), Max(size, 1))
  }

  // ----- the fit test in 64-bit arithmetic -----

  /** The machine's test of the block at `a`: the rounded payload address and the addition of the size may wrap. */
  predicate MachineFits(s: Shape, a: nat, bytes: nat, align: nat)
    requires a in s.blocks && 1 <= align <= WORD_LIMIT
  {
    var payload := AlignUp64(a + HEADER_SIZE + HEADER_GAP, align);
    payload + bytes < WORD_LIMIT && payload + bytes <= s.EndOf(a)
  }

  /** Rounding wraps to null, and the size alone does not reach past the block's end. */
  predicate WrapsToNull(s: Shape, a: nat, bytes: nat, align: nat)
    requires a in s.blocks
  {
    a + HEADER_SIZE + HEADER_GAP > WORD_LIMIT - align && bytes <= s.EndOf(a)
  }

  lemma WrappedIsNull(value: nat, align: nat)
    requires WORD_LIMIT - align < value <= WORD_LIMIT && align <= WORD_LIMIT && IsPow2(align)
    ensures 1 <= align && AlignUp64(value, align) == 0 && AlignUp(value, align) >= WORD_LIMIT
  {
    AlignUp64Rounds(value, align);
    WrapOnce(value + (align - 1));
    ModSelf(value + (align - 1) - WORD_LIMIT, align);
    AlignUpLeast(value, align);
    NextMultiple(value, align);
  }

  /** No multiple of a power of two lies strictly between its last multiple below 2^64 and 2^64. */
  lemma NextMultiple(value: nat, align: nat)
    requires WORD_LIMIT - align < value && align <= WORD_LIMIT && IsPow2(align) && align >= 1
    ensures AlignUp(value, align) >= WORD_LIMIT
  {
    AlignUpLeast(value, align);
    var k: nat :| align == Pow2(k);
    Pow2OfBytes();
    if k > 64 { Pow2Monotone(65, k); }
    Pow2Divides(k, 64);
    if AlignUp(value, align) < WORD_LIMIT {
      MultipleGap(AlignUp(value, align), WORD_LIMIT, align);
    }
  }

  /** The machine takes a block exactly when the request fits it or the payload address wraps to null unnoticed. */
  lemma MachineFitsExactly(s: Shape, a: nat, bytes: nat, align: nat)
    requires a in s.blocks && s.blocks[a].size >= LEAST_BLOCK && s.EndOf(a) < WORD_LIMIT
    requires align <= WORD_LIMIT && IsPow2(align)
    ensures 1 <= align
    ensures MachineFits(s, a, bytes, align) <==> Fits(s, a, bytes, align) || WrapsToNull(s, a, bytes, align)
    ensures WrapsToNull(s, a, bytes, align) ==>
              AlignUp64(a + HEADER_SIZE + HEADER_GAP, align) == 0 && !Fits(s, a, bytes, align)
    ensures Fits(s, a, bytes, align) ==> AlignUp64(a + HEADER_SIZE + HEADER_GAP, align) == PayloadIn(a, align)
  {
    var value := a + HEADER_SIZE + HEADER_GAP;
    if value > WORD_LIMIT - align {
      WrappedIsNull(value, align);
    } else {
      AlignUpExact(value, align);
    }
  }

  /** The first node from place `i` on that the machine takes. */
  function MachineFirst(s: Shape, i: nat, bytes: nat, align: nat): (k: nat)
    requires i <= |s.list| && 1 <= align <= WORD_LIMIT && s.Noded()
    ensures i <= k <= |s.list|
    decreases |s.list| - i
  {
    if i == |s.list| || MachineFits(s, s.list[i], bytes, align) then i else MachineFirst(s, i + 1, bytes, align)
  }

  /** No node that the walk passes over from place `i` on wraps to null. */
  predicate NoneWraps(s: Shape, i: nat, bytes: nat, align: nat)
    requires i <= |s.list| && align >= 1 && s.Noded()
  {
    forall j :: i <= j < FirstFit(s, i, bytes, align) ==> !WrapsToNull(s, s.list[j], bytes, align)
  }

  /** In 64-bit arithmetic the walk stops at the first fit exactly when no node before it wraps to null. */
  lemma {:induction false} MachineFirstExactly(s: Shape, i: nat, bytes: nat, align: nat)
    requires i <= |s.list| && s.Noded() && align <= WORD_LIMIT && IsPow2(align) && align >= 1
    requires forall j :: 0 <= j < |s.list| ==>
               s.blocks[s.list[j]].size >= LEAST_BLOCK && s.EndOf(s.list[j]) < WORD_LIMIT
    ensures MachineFirst(s, i, bytes, align) == FirstFit(s, i, bytes, align) <==> NoneWraps(s, i, bytes, align)
    ensures MachineFirst(s, i, bytes, align) <= FirstFit(s, i, bytes, align)
    decreases |s.list| - i
  {
    if i < |s.list| {
      MachineFitsExactly(s, s.list[i], bytes, align);
      MachineFirstExactly(s, i + 1, bytes, align);
    }
  }

  lemma PayloadPlaced(a: nat, align: nat)
    requires a % 8 == 0 && IsPow2(align) && align >= 1
    ensures a + HEADER_SIZE + HEADER_GAP <= PayloadIn(a, align)
    ensures PayloadIn(a, align) % 8 == 0 && PayloadIn(a, align) % align == 0
  {
    Eights(0, a, HEADER_SIZE + HEADER_GAP);
    AlignUpLeast(a + HEADER_SIZE + HEADER_GAP, align);
    AlignUpKeepsEight(a + HEADER_SIZE + HEADER_GAP, align);
  }

  lemma FitPlaces(s: Shape, i: int, bytes: int, align: nat)
    requires s.Inv() && IsPow2(align) && align >= 1 && bytes >= 1
    requires 0 <= i < |s.list| && s.list[i] in s.blocks && 0 < s.list[i]
    requires Fits(s, s.list[i], bytes, align)
    ensures Places(s, i, PayloadIn(s.list[i], align), bytes)
    ensures PayloadIn(s.list[i], align) % align == 0
  {
    assert s.Extent(s.list[i]);
    PayloadPlaced(s.list[i], align);
  }

  /** An aligned position for `bytes` bytes in the block at `a`, above a header and a padding slot. */
  ghost predicate Room(s: Shape, a: int, p: int, bytes: int, align: nat)
    requires a in s.blocks && align >= 1
  {
    p % align == 0 && a + HEADER_SIZE + HEADER_GAP <= p && p + bytes <= s.EndOf(a)
  }

  lemma FitsIffRoom(s: Shape, a: int, bytes: int, align: nat)
    requires a in s.blocks && 0 < a && align >= 1
    ensures Fits(s, a, bytes, align) <==> exists p :: Room(s, a, p, bytes, align)
  {
    AlignUpLeast(a + HEADER_SIZE + HEADER_GAP, align);
    if Fits(s, a, bytes, align) { assert Room(s, a, PayloadIn(a, align), bytes, align); }
    if p :| Room(s, a, p, bytes, align) {
      assert PayloadIn(a, align) <= p;
    }
  }

  /**
   * First fit is sound and complete: null comes back exactly when no free block has room at any aligned
   * position; otherwise the payload sits at the lowest such position of the first listed block with room.
   */
  lemma AllocFirstFit(s: Shape, size: nat, align: nat)
    requires s.Inv() && s.Noded() && IsPow2(align) && align >= 1
    ensures var p, bytes := AllocPtr(s, size, align), Max(size, 1);
            && (p == 0 <==> forall a, q :: s.IsFree(a) ==> !Room(s, a, q, bytes, align))
            && (p != 0 ==>
                  exists k :: 0 <= k < |s.list|
                    && Room(s, s.list[k], p, bytes, align)
                    && (forall q :: Room(s, s.list[k], q, bytes, align) ==> p <= q)
                    && (forall j, q :: 0 <= j < k ==> !Room(s, s.list[j], q, bytes, align)))
  {
    var p, bytes := AllocPtr(s, size, align), Max(size, 1);
    FirstFitSpec(s, 0, bytes, align);
    var k := FirstFit(s, 0, bytes, align);
    forall j | 0 <= j < k ensures forall q :: !Room(s, s.list[j], q, bytes, align) {
      assert s.list[j] in s.list;
      FitsIffRoom(s, s.list[j], bytes, align);
    }
    if k < |s.list| {
      FirstFitRoom(s, k, bytes, align);
      assert Room(s, s.list[k], p, bytes, align);
    } else {
      forall a, q | s.IsFree(a) ensures !Room(s, a, q, bytes, align) {
        assert a in s.list;
      }
    }
  }

  lemma FirstFitRoom(s: Shape, k: int, bytes: int, align: nat)
    requires s.Inv() && IsPow2(align) && align >= 1 && bytes >= 1
    requires 0 <= k < |s.list| && s.list[k] in s.blocks && 0 < s.list[k] && Fits(s, s.list[k], bytes, align)
    ensures s.IsFree(s.list[k])
    ensures Room(s, s.list[k], PayloadIn(s.list[k], align), bytes, align)
    ensures forall q :: Room(s, s.list[k], q, bytes, align) ==> PayloadIn(s.list[k], align) <= q
  {
    assert s.list[k] in s.list;
    AlignUpLeast(s.list[k] + HEADER_SIZE + HEADER_GAP, align);
  }

  lemma AllocInv(s: Shape, size: nat, align: nat)
    requires s.Inv() && s.Noded() && IsPow2(align) && align >= 1
    ensures Alloc(s, size, align).Inv()
    ensures var p, s' := AllocPtr(s, size, align), Alloc(s, size, align);
            if p == 0 then s' == s
            else p % align == 0
                 && exists a :: s.IsFree(a) && s'.IsLive(a) && s'.blocks[a].use == Live(p, Max(size, 1))
  {
    var bytes := Max(size, 1);
    FirstFitSpec(s, 0, bytes, align);
    var k := FirstFit(s, 0, bytes, align);
    if k < |s.list| {
      var a := s.list[k];
      assert a in s.list;
      FitPlaces(s, k, bytes, align);
      CarveInv(s, k, PayloadIn(a, align), bytes);
      CarveUse(s, k, PayloadIn(a, align), bytes);
      assert s.IsFree(a);
    }
  }

  /** Carving changes the block it carves, may add the rest as one free block, and leaves every other alone. */
  lemma CarveUse(s: Shape, i: int, p: int, bytes: int)
    requires s.Inv() && Places(s, i, p, bytes)
    ensures var s', a := Carve(s, i, p, bytes), s.list[i];
            && s.IsFree(a)
            && s'.IsLive(a) && s'.blocks[a].use == Live(p, bytes)
            && (forall x :: x != a && x in s.blocks ==> x in s'.blocks && s'.blocks[x] == s.blocks[x])
            && (forall x :: x != a && s'.IsLive(x) ==> s.IsLive(x))
  {
    var a := s.list[i];
    assert a in s.list;
    var t := RoundUp8(p + bytes);
    if Splits(p + bytes, s.EndOf(a)) { CutOrdered(s, a, t, Live(p, bytes), Free); }
  }
}

/**
 The words a heap keeps in memory: a header in every block (size, next, prev), the padding slot under
 every live payload, and the root of the free list. `Rep` says when the words mean a given shape, and the
 store lists say which words an operation writes, in order.
 */
module HeapCells {
  import opened Bits
  import opened HeapShape

  datatype Store = Word(addr: int, value: int) | Root(node: int)

  datatype Cells = Cells(free: int, mem: map<int, int>) {
    function At(x: int): int {
      if x in mem then mem[x] else 0
    }

    function Apply(w: Store): Cells {
      match w
      case Word(addr, value) => this.(mem := mem[addr := value])
      case Root(node) => this.(free := node)
    }
  }

  function ApplyAll(c: Cells, ws: seq<Store>): Cells {
    if ws == [] then c else ApplyAll(c, ws[..|ws| - 1]).Apply(ws[|ws| - 1])
  }

  lemma ApplyMore(c: Cells, ws: seq<Store>, w: Store)
    ensures ApplyAll(c, ws + [w]) == ApplyAll(c, ws).Apply(w)
  {
    assert (ws + [w])[..|ws|] == ws;
  }

  lemma {:induction false} ApplyConcat(c: Cells, u: seq<Store>, v: seq<Store>)
    ensures ApplyAll(c, u + v) == ApplyAll(ApplyAll(c, u), v)
  {
    if v == [] {
      assert u + v == u;
    } else {
      var n := |v| - 1;
      assert u + v == (u + v[..n]) + [v[n]];
      ApplyMore(c, u + v[..n], v[n]);
      ApplyConcat(c, u, v[..n]);
    }
  }

  lemma ApplyOne(c: Cells, w: Store)
    ensures ApplyAll(c, [w]) == c.Apply(w)
  {
    ApplyMore(c, [], w);
    assert [] + [w] == [w];
  }

  lemma ApplyTwo(c: Cells, w0: Store, w1: Store)
    ensures ApplyAll(c, [w0, w1]) == c.Apply(w0).Apply(w1)
  {
    ApplyOne(c, w0);
    ApplyMore(c, [w0], w1);
    assert [w0] + [w1] == [w0, w1];
  }

  lemma ApplyThree(c: Cells, w0: Store, w1: Store, w2: Store)
    ensures ApplyAll(c, [w0, w1, w2]) == c.Apply(w0).Apply(w1).Apply(w2)
  {
    ApplyTwo(c, w0, w1);
    ApplyMore(c, [w0, w1], w2);
    assert [w0, w1] + [w2] == [w0, w1, w2];
  }

  // ----- logs of stores -----

  lemma LogMore(log: seq<Store>, u: seq<Store>, v: seq<Store>)
    ensures log + u + v == log + (u + v)
  {
  }

  // ----- what the words mean -----

  function NodeAt(list: seq<int>, i: int): int {
    if 0 <= i < |list| then list[i] else 0
  }

  /** `next` and `prev` words are mutually inverse along the list, null at its two ends. */
  ghost predicate Chained(list: seq<int>, c: Cells) {
    && c.free == NodeAt(list, 0)
    && (forall i {:trigger Joined(list, c, i)} :: 0 <= i < |list| ==> Joined(list, c, i))
  }

  ghost predicate Joined(list: seq<int>, c: Cells, i: int)
    requires 0 <= i < |list|
  {
    c.At(list[i] + 8) == NodeAt(list, i + 1) && c.At(list[i] + 16) == NodeAt(list, i - 1)
  }

  ghost predicate Sized(s: Shape, c: Cells) {
    forall a :: a in s.blocks ==> c.At(a) == s.blocks[a].size
  }

  ghost predicate Padded(s: Shape, c: Cells) {
    forall a :: s.IsLive(a) ==> PadAt(s, c, a)
  }

  ghost predicate PadAt(s: Shape, c: Cells, a: int)
    requires s.IsLive(a)
  {
    var p := s.blocks[a].use.payload;
    c.At(p - HEADER_GAP) == p - HEADER_SIZE - a
  }

  ghost predicate Rep(s: Shape, c: Cells) {
    Chained(s.list, c) && Sized(s, c) && Padded(s, c)
  }

  /** Nodes far enough apart that their headers do not overlap. */
  ghost predicate Spaced(list: seq<int>) {
    forall i, j :: 0 <= i < |list| && 0 <= j < |list| && i != j
      ==> list[i] + 24 <= list[j] || list[j] + 24 <= list[i]
  }

  ghost predicate LinkOf(list: seq<int>, x: int) {
    exists i :: 0 <= i < |list| && (x == list[i] + 8 || x == list[i] + 16)
  }

  lemma ListSpaced(s: Shape)
    requires s.Inv()
    ensures Spaced(s.list)
  {
    forall i, j | 0 <= i < |s.list| && 0 <= j < |s.list| && i != j
      ensures s.list[i] + 24 <= s.list[j] || s.list[j] + 24 <= s.list[i]
    {
      var a, b := s.list[i], s.list[j];
      assert a in s.list && b in s.list;
      assert a != b;
      assert s.Extent(a) && s.Extent(b);
    }
  }

  lemma LinkIsFree(s: Shape, x: int)
    requires s.Inv() && LinkOf(s.list, x)
    ensures s.InFree(x)
    ensures x !in s.blocks
    ensures forall a :: s.IsLive(a) ==> x < a || s.EndOf(a) <= x
  {
    var i :| 0 <= i < |s.list| && (x == s.list[i] + 8 || x == s.list[i] + 16);
    assert s.list[i] in s.list;
    assert s.Extent(s.list[i]);
  }

  // ----- list surgery -----

  function UnlinkStores(list: seq<int>, i: int): seq<Store>
    requires 0 <= i < |list|
  {
    [if i > 0 then Word(list[i - 1] + 8, NodeAt(list, i + 1)) else Root(NodeAt(list, i + 1))]
    + if i + 1 < |list| then [Word(list[i + 1] + 16, NodeAt(list, i - 1))] else []
  }

  lemma UnlinkApplied(list: seq<int>, i: int, c: Cells)
    requires 0 <= i < |list|
    ensures var w := if i > 0 then Word(list[i - 1] + 8, NodeAt(list, i + 1)) else Root(NodeAt(list, i + 1));
            ApplyAll(c, UnlinkStores(list, i)) == (
              if i + 1 < |list| then c.Apply(w).Apply(Word(list[i + 1] + 16, NodeAt(list, i - 1))) else c.Apply(w))
  {
    var w := if i > 0 then Word(list[i - 1] + 8, NodeAt(list, i + 1)) else Root(NodeAt(list, i + 1));
    if i + 1 < |list| {
      ApplyTwo(c, w, Word(list[i + 1] + 16, NodeAt(list, i - 1)));
      assert UnlinkStores(list, i) == [w, Word(list[i + 1] + 16, NodeAt(list, i - 1))];
    } else {
      ApplyOne(c, w);
      assert UnlinkStores(list, i) == [w];
    }
  }

  lemma UnlinkJoined(list: seq<int>, i: int, c: Cells, k: int)
    requires 0 <= i < |list| && Spaced(list) && Chained(list, c) && 0 <= k < |list| - 1
    ensures Joined(RemoveAt(list, i), ApplyAll(c, UnlinkStores(list, i)), k)
  {
    RemovedNodes(list, i, k);
    UnlinkedNode(list, i, c, if k < i then k else k + 1);
  }

  /** What unlinking node `i` makes of another node's links. */
  lemma UnlinkedNode(list: seq<int>, i: int, c: Cells, j: int)
    requires 0 <= i < |list| && Spaced(list) && Chained(list, c) && 0 <= j < |list| && j != i
    ensures var c' := ApplyAll(c, UnlinkStores(list, i));
            && c'.At(list[j] + 8) == (if j + 1 == i then NodeAt(list, i + 1) else NodeAt(list, j + 1))
            && c'.At(list[j] + 16) == (if j - 1 == i then NodeAt(list, i - 1) else NodeAt(list, j - 1))
  {
    UnlinkApplied(list, i, c);
    assert Joined(list, c, j);
  }

  lemma RemovedNodes(list: seq<int>, i: int, k: int)
    requires 0 <= i < |list| && 0 <= k < |list| - 1
    ensures var r, j := RemoveAt(list, i), if k < i then k else k + 1;
            && r[k] == list[j]
            && NodeAt(r, k + 1) == (if j + 1 == i then NodeAt(list, i + 1) else NodeAt(list, j + 1))
            && NodeAt(r, k - 1) == (if j - 1 == i then NodeAt(list, i - 1) else NodeAt(list, j - 1))
  {
  }

  lemma UnlinkEffect(list: seq<int>, i: int, c: Cells)
    requires 0 <= i < |list| && Spaced(list) && Chained(list, c)
    ensures var c' := ApplyAll(c, UnlinkStores(list, i));
            && Chained(RemoveAt(list, i), c')
            && (forall x :: !LinkOf(list, x) ==> c'.At(x) == c.At(x))
  {
    UnlinkApplied(list, i, c);
    var c', r := ApplyAll(c, UnlinkStores(list, i)), RemoveAt(list, i);
    forall k | 0 <= k < |r| ensures Joined(r, c', k) {
      UnlinkJoined(list, i, c, k);
    }
  }

  function ReplaceStores(list: seq<int>, i: int, t: int): seq<Store>
    requires 0 <= i < |list|
  {
    [Word(t + 8, NodeAt(list, i + 1)), Word(t + 16, NodeAt(list, i - 1))] + RelinkStores(list, i, t)
  }

  function RelinkStores(list: seq<int>, i: int, t: int): seq<Store>
    requires 0 <= i < |list|
  {
    [if i > 0 then Word(list[i - 1] + 8, t) else Root(t)]
    + if i + 1 < |list| then [Word(list[i + 1] + 16, t)] else []
  }

  lemma RelinkApplied(list: seq<int>, i: int, t: int, c: Cells)
    requires 0 <= i < |list|
    ensures var w := if i > 0 then Word(list[i - 1] + 8, t) else Root(t);
            ApplyAll(c, RelinkStores(list, i, t)) == (
              if i + 1 < |list| then c.Apply(w).Apply(Word(list[i + 1] + 16, t)) else c.Apply(w))
  {
    var w := if i > 0 then Word(list[i - 1] + 8, t) else Root(t);
    if i + 1 < |list| {
      ApplyTwo(c, w, Word(list[i + 1] + 16, t));
      assert RelinkStores(list, i, t) == [w, Word(list[i + 1] + 16, t)];
    } else {
      ApplyOne(c, w);
      assert RelinkStores(list, i, t) == [w];
    }
  }

  function PushStores(list: seq<int>, a: int): seq<Store> {
    [Word(a + 8, NodeAt(list, 0)), Word(a + 16, 0)]
    + (if list != [] then [Word(list[0] + 16, a)] else [])
    + [Root(a)]
  }

  lemma ReplaceApplied(list: seq<int>, i: int, t: int, c: Cells)
    requires 0 <= i < |list|
    ensures var w := if i > 0 then Word(list[i - 1] + 8, t) else Root(t);
            var c3 := c.Apply(Word(t + 8, NodeAt(list, i + 1))).Apply(Word(t + 16, NodeAt(list, i - 1))).Apply(w);
            ApplyAll(c, ReplaceStores(list, i, t)) == (
              if i + 1 < |list| then c3.Apply(Word(list[i + 1] + 16, t)) else c3)
  {
    var w0, w1 := Word(t + 8, NodeAt(list, i + 1)), Word(t + 16, NodeAt(list, i - 1));
    ApplyTwo(c, w0, w1);
    ApplyConcat(c, [w0, w1], RelinkStores(list, i, t));
    RelinkApplied(list, i, t, ApplyAll(c, [w0, w1]));
  }

  lemma ReplaceJoined(list: seq<int>, i: int, t: int, c: Cells, k: int)
    requires 0 <= i < |list| && Spaced(list) && Chained(list, c) && 0 <= k < |list|
    requires forall j :: 0 <= j < |list| && j != i ==> t + 24 <= list[j] || list[j] + 24 <= t
    ensures Joined(list[i := t], ApplyAll(c, ReplaceStores(list, i, t)), k)
  {
    ReplaceApplied(list, i, t, c);
    var r := list[i := t];
    if k != i {
      assert r[k] == list[k];
      assert Joined(list, c, k);
      assert NodeAt(r, k + 1) == if k + 1 == i then t else NodeAt(list, k + 1);
      assert NodeAt(r, k - 1) == if k - 1 == i then t else NodeAt(list, k - 1);
    } else {
      assert NodeAt(r, k + 1) == NodeAt(list, k + 1) && NodeAt(r, k - 1) == NodeAt(list, k - 1);
    }
  }

  lemma ReplaceEffect(list: seq<int>, i: int, t: int, c: Cells)
    requires 0 <= i < |list| && Spaced(list) && Chained(list, c)
    requires forall j :: 0 <= j < |list| && j != i ==> t + 24 <= list[j] || list[j] + 24 <= t
    ensures var c' := ApplyAll(c, ReplaceStores(list, i, t));
            && Chained(list[i := t], c')
            && (forall x :: !LinkOf(list, x) && x != t + 8 && x != t + 16 ==> c'.At(x) == c.At(x))
  {
    ReplaceApplied(list, i, t, c);
    var c', r := ApplyAll(c, ReplaceStores(list, i, t)), list[i := t];
    forall k | 0 <= k < |r| ensures Joined(r, c', k) {
      ReplaceJoined(list, i, t, c, k);
    }
  }

  lemma PushApplied(list: seq<int>, a: int, c: Cells)
    ensures var c2 := c.Apply(Word(a + 8, NodeAt(list, 0))).Apply(Word(a + 16, 0));
            ApplyAll(c, PushStores(list, a)) ==
              (if list != [] then c2.Apply(Word(list[0] + 16, a)) else c2).Apply(Root(a))
  {
    var w0, w1 := Word(a + 8, NodeAt(list, 0)), Word(a + 16, 0);
    if list != [] {
      ApplyThree(c, w0, w1, Word(list[0] + 16, a));
      ApplyMore(c, [w0, w1, Word(list[0] + 16, a)], Root(a));
      assert PushStores(list, a) == [w0, w1, Word(list[0] + 16, a)] + [Root(a)];
    } else {
      ApplyTwo(c, w0, w1);
      ApplyMore(c, [w0, w1], Root(a));
      assert PushStores(list, a) == [w0, w1] + [Root(a)];
    }
  }

  lemma PushEffect(list: seq<int>, a: int, c: Cells)
    requires Spaced(list) && Chained(list, c)
    requires Spaced([a] + list)
    ensures var c' := ApplyAll(c, PushStores(list, a));
            && Chained([a] + list, c')
            && (forall x :: !LinkOf(list, x) && x != a + 8 && x != a + 16 ==> c'.At(x) == c.At(x))
  {
    PushApplied(list, a, c);
    var c', r := ApplyAll(c, PushStores(list, a)), [a] + list;
    forall k | 0 <= k < |r|
      ensures Joined(r, c', k)
    {
      assert r[0] == a;
      assert |list| > 0 ==> r[1] == list[0];
      if k > 0 {
        assert r[k] == list[k - 1];
        assert Joined(list, c, k - 1);
      }
    }
  }

  lemma ChainFrame(list: seq<int>, c: Cells, c': Cells)
    requires Chained(list, c) && c'.free == c.free
    requires forall x :: LinkOf(list, x) ==> c'.At(x) == c.At(x)
    ensures Chained(list, c')
  {
    forall i | 0 <= i < |list| ensures Joined(list, c', i) {
      assert Joined(list, c, i);
      assert LinkOf(list, list[i] + 8) && LinkOf(list, list[i] + 16);
    }
  }

  // ----- the stores of an allocation -----

  function PadStore(a: int, p: int): Store {
    Word(p - HEADER_GAP, p - HEADER_SIZE - a)
  }

  /** The words written when the tail `[t, e)` of node `k` takes over its list position. */
  function SplitStores(list: seq<int>, k: int, t: int, e: int): seq<Store>
    requires 0 <= k < |list|
  {
    [Word(t, e - t)] + ReplaceStores(list, k, t) + [Word(list[k], t - list[k])]
  }

  /** The words written to give up node `k` for `bytes` bytes at `p`. */
  function TakeStores(s: Shape, k: int, p: int, bytes: int): seq<Store>
    requires 0 <= k < |s.list| && s.list[k] in s.blocks
  {
    var e := s.EndOf(s.list[k]);
    if Splits(p + bytes, e) then SplitStores(s.list, k, RoundUp8(p + bytes), e) else UnlinkStores(s.list, k)
  }

  /** The words written when node `k` of the list houses `bytes` bytes at `p`, in program order. */
  function AllocStores(s: Shape, k: int, p: int, bytes: int): seq<Store>
    requires 0 <= k < |s.list| && s.list[k] in s.blocks
  {
    TakeStores(s, k, p, bytes) + [PadStore(s.list[k], p)]
  }

  lemma SplitApplied(list: seq<int>, k: int, t: int, e: int, c: Cells)
    requires 0 <= k < |list|
    ensures ApplyAll(c, SplitStores(list, k, t, e))
         == ApplyAll(c.Apply(Word(t, e - t)), ReplaceStores(list, k, t)).Apply(Word(list[k], t - list[k]))
  {
    var u := [Word(t, e - t)];
    ApplyOne(c, u[0]);
    ApplyConcat(c, u, ReplaceStores(list, k, t));
    ApplyMore(c, u + ReplaceStores(list, k, t), Word(list[k], t - list[k]));
  }

  /** `c'` differs from `c` only in links of the list and inside the block at `a`. */
  ghost predicate ChangesWithin(s: Shape, a: int, c: Cells, c': Cells)
    requires a in s.blocks
  {
    forall x :: !LinkOf(s.list, x) && !(a <= x < s.EndOf(a)) ==> c'.At(x) == c.At(x)
  }

  lemma ElsewhereKept(s: Shape, a: int, c: Cells, c': Cells)
    requires s.Inv() && Rep(s, c) && a in s.blocks && ChangesWithin(s, a, c, c')
    ensures forall x :: x in s.blocks && x != a ==> c'.At(x) == s.blocks[x].size
    ensures forall x :: s.IsLive(x) && x != a ==> PadAt(s, c', x)
  {
    assert s.Extent(a);
    forall x | x in s.blocks && x != a ensures c'.At(x) == s.blocks[x].size {
      assert s.Extent(x) && (x < a || a < x);
      if LinkOf(s.list, x) { LinkIsFree(s, x); }
    }
    forall x | s.IsLive(x) && x != a ensures PadAt(s, c', x) {
      assert s.Housed(x) && PadAt(s, c, x) && (x < a || a < x);
      var q := s.blocks[x].use.payload - HEADER_GAP;
      if LinkOf(s.list, q) { LinkIsFree(s, q); }
    }
  }

  lemma ChangesAreFree(s: Shape, a: int, c: Cells, c': Cells)
    requires s.Inv() && s.IsFree(a) && ChangesWithin(s, a, c, c')
    ensures OnlyFreeDiffer(s, c, c')
  {
    forall x | !s.InFree(x) ensures c'.At(x) == c.At(x) {
      if LinkOf(s.list, x) { LinkIsFree(s, x); }
    }
  }

  /** The shape's own words: a block's header word and a padding slot are never links. */
  lemma NoLinkInside(s: Shape, a: int, x: int)
    requires s.Inv() && a in s.blocks
    requires x == a || (s.IsLive(a) && a <= x < s.EndOf(a))
    ensures !LinkOf(s.list, x)
  {
    if LinkOf(s.list, x) { LinkIsFree(s, x); }
  }

  /** Words that are right elsewhere, at the carved block and at the new one are right for the new shape. */
  lemma AssembleRep(s: Shape, s': Shape, a: int, t: int, c': Cells)
    requires Chained(s'.list, c') && s'.IsLive(a)
    requires forall x :: x in s'.blocks && x != a && x != t ==> x in s.blocks && s'.blocks[x] == s.blocks[x]
    requires forall x :: x in s.blocks && x != a ==> c'.At(x) == s.blocks[x].size
    requires forall x :: s.IsLive(x) && x != a ==> PadAt(s, c', x)
    requires c'.At(a) == s'.blocks[a].size && PadAt(s', c', a)
    requires t == a || (s'.IsFree(t) && c'.At(t) == s'.blocks[t].size)
    ensures Rep(s', c')
  {
    forall x | s'.IsLive(x) ensures PadAt(s', c', x) {
      if x != a { assert s.IsLive(x) && PadAt(s, c', x); }
    }
  }

  lemma CarveWholeRep(s: Shape, k: int, p: int, bytes: int, c: Cells)
    requires s.Inv() && Places(s, k, p, bytes) && Rep(s, c)
    requires !Splits(p + bytes, s.EndOf(s.list[k]))
    ensures var c' := ApplyAll(c, AllocStores(s, k, p, bytes));
            Rep(Carve(s, k, p, bytes), c') && ChangesWithin(s, s.list[k], c, c')
  {
    var a, s' := s.list[k], Carve(s, k, p, bytes);
    CarveUse(s, k, p, bytes);
    CarveInv(s, k, p, bytes);
    ApplyMore(c, TakeStores(s, k, p, bytes), PadStore(a, p));
    ListSpaced(s);
    UnlinkEffect(s.list, k, c);
    var c1 := ApplyAll(c, UnlinkStores(s.list, k));
    var c2 := c1.Apply(PadStore(a, p));
    NoLinkInside(s', a, p - HEADER_GAP);
    ChainFrame(s'.list, c1, c2);
    ElsewhereKept(s, a, c, c2);
    NoLinkInside(s, a, a);
    AssembleRep(s, s', a, a, c2);
  }

  lemma NoLinkAt(s: Shape, k: int, t: int)
    requires s.Inv() && 0 <= k < |s.list| && s.list[k] in s.blocks
    requires s.list[k] + LEAST_BLOCK <= t < s.EndOf(s.list[k])
    ensures !LinkOf(s.list, t)
  {
    forall i | 0 <= i < |s.list| ensures t != s.list[i] + 8 && t != s.list[i] + 16 {
      assert s.list[i] in s.list && s.Extent(s.list[i]);
    }
  }

  /** The tail's header and links are in place once the tail took over its list position. */
  lemma CarveSplitChain(s: Shape, k: int, t: int, c: Cells)
    requires s.Inv() && Rep(s, c)
    requires 0 <= k < |s.list| && s.list[k] in s.blocks
    requires s.list[k] + LEAST_BLOCK <= t && t + LEAST_BLOCK <= s.EndOf(s.list[k])
    ensures var a, e := s.list[k], s.EndOf(s.list[k]);
            var c2 := ApplyAll(c.Apply(Word(t, e - t)), ReplaceStores(s.list, k, t));
            Chained(s.list[k := t], c2) && c2.At(t) == e - t && ChangesWithin(s, a, c, c2)
  {
    var a, e := s.list[k], s.EndOf(s.list[k]);
    ListSpaced(s);
    var c1 := c.Apply(Word(t, e - t));
    NoLinkAt(s, k, t);
    ChainFrame(s.list, c, c1);
    forall j | 0 <= j < |s.list| && j != k ensures t + 24 <= s.list[j] || s.list[j] + 24 <= t {
      assert s.list[j] in s.list && s.Extent(s.list[j]) && s.list[j] != a;
    }
    ReplaceEffect(s.list, k, t, c1);
  }

  /** The words after a carve that splits: the tail in place, the block shrunk, the padding recorded. */
  function SplitWords(list: seq<int>, k: int, p: int, t: int, e: int, c: Cells): Cells
    requires 0 <= k < |list|
  {
    var c2 := ApplyAll(c.Apply(Word(t, e - t)), ReplaceStores(list, k, t));
    c2.Apply(Word(list[k], t - list[k])).Apply(PadStore(list[k], p))
  }

  lemma CarveSplitApplied(s: Shape, k: int, p: int, bytes: int, c: Cells)
    requires 0 <= k < |s.list| && s.list[k] in s.blocks && Splits(p + bytes, s.EndOf(s.list[k]))
    ensures ApplyAll(c, AllocStores(s, k, p, bytes))
         == SplitWords(s.list, k, p, RoundUp8(p + bytes), s.EndOf(s.list[k]), c)
  {
    ApplyMore(c, TakeStores(s, k, p, bytes), PadStore(s.list[k], p));
    SplitApplied(s.list, k, RoundUp8(p + bytes), s.EndOf(s.list[k]), c);
  }

  lemma CarveSplitWords(s: Shape, k: int, p: int, t: int, c: Cells)
    requires s.Inv() && Rep(s, c)
    requires 0 <= k < |s.list| && s.list[k] in s.blocks
    requires s.list[k] + LEAST_BLOCK <= t && t + LEAST_BLOCK <= s.EndOf(s.list[k])
    requires s.list[k] + HEADER_SIZE + HEADER_GAP <= p < t
    ensures var a, e := s.list[k], s.EndOf(s.list[k]);
            var c3 := SplitWords(s.list, k, p, t, e, c);
            && Chained(s.list[k := t], c3) && ChangesWithin(s, a, c, c3)
            && c3.At(t) == e - t && c3.At(a) == t - a && c3.At(p - HEADER_GAP) == p - HEADER_SIZE - a
  {
    var a, e := s.list[k], s.EndOf(s.list[k]);
    CarveSplitChain(s, k, t, c);
    var c2 := ApplyAll(c.Apply(Word(t, e - t)), ReplaceStores(s.list, k, t));
    NoLinkBetween(s, k, t, a);
    NoLinkBetween(s, k, t, p - HEADER_GAP);
    ChainFrame(s.list[k := t], c2, SplitWords(s.list, k, p, t, e, c));
  }

  /** Between the cut block's header and the cut lies no link of the new list. */
  lemma NoLinkBetween(s: Shape, k: int, t: int, x: int)
    requires s.Inv() && 0 <= k < |s.list| && s.list[k] in s.blocks && t < s.EndOf(s.list[k])
    requires s.list[k] <= x < t
    ensures !LinkOf(s.list[k := t], x)
  {
    var r, a := s.list[k := t], s.list[k];
    forall i | 0 <= i < |r| ensures x != r[i] + 8 && x != r[i] + 16 {
      if i != k {
        assert s.list[i] in s.list && a in s.list && s.Extent(s.list[i]) && s.Extent(a) && s.list[i] != a;
      }
    }
  }

  lemma CarveSplitRep(s: Shape, k: int, p: int, bytes: int, c: Cells)
    requires s.Inv() && Places(s, k, p, bytes) && Rep(s, c)
    requires Splits(p + bytes, s.EndOf(s.list[k]))
    ensures var c' := ApplyAll(c, AllocStores(s, k, p, bytes));
            Rep(Carve(s, k, p, bytes), c') && ChangesWithin(s, s.list[k], c, c')
  {
    var a, s' := s.list[k], Carve(s, k, p, bytes);
    var t, e := RoundUp8(p + bytes), s.EndOf(a);
    assert s.Extent(a);
    CutPoint(a, p, bytes, e);
    CarveUse(s, k, p, bytes);
    CarveSplitApplied(s, k, p, bytes, c);
    CarveSplitWords(s, k, p, t, c);
    var c3 := SplitWords(s.list, k, p, t, e, c);
    ElsewhereKept(s, a, c, c3);
    AssembleRep(s, s', a, t, c3);
  }

  /** The stores of an allocation turn the words of a shape into the words of the carved shape. */
  lemma CarveRep(s: Shape, k: int, p: int, bytes: int, c: Cells)
    requires s.Inv() && Places(s, k, p, bytes) && Rep(s, c)
    ensures var c' := ApplyAll(c, AllocStores(s, k, p, bytes));
            && Rep(Carve(s, k, p, bytes), c')
            && OnlyFreeDiffer(s, c, c')
  {
    if Splits(p + bytes, s.EndOf(s.list[k])) {
      CarveSplitRep(s, k, p, bytes, c);
    } else {
      CarveWholeRep(s, k, p, bytes, c);
    }
    CarveUse(s, k, p, bytes);
    ChangesAreFree(s, s.list[k], c, ApplyAll(c, AllocStores(s, k, p, bytes)));
  }

  // ----- the stores of a release -----

  /** The freed block's size once it swallowed a free block after it. */
  function FreedSize(s: Shape, a: int): int
    requires a in s.blocks
  {
    var r := s.EndOf(a);
    s.blocks[a].size + if s.IsFree(r) then s.blocks[r].size else 0
  }

  function SwallowStores(s: Shape, a: int): seq<Store>
    requires s.Listed() && a in s.blocks
  {
    var r := s.EndOf(a);
    if s.IsFree(r) then [Word(a, FreedSize(s, a))] + UnlinkStores(s.list, IndexOf(s.list, r)) else []
  }

  function JoinStores(s: Shape, a: int, l: int): seq<Store>
    requires s.Listed() && s.IsLive(a) && (l != 0 ==> l in s.blocks)
  {
    if l != 0 then [Word(l, s.blocks[l].size + FreedSize(s, a))] else PushStores(FreeUp(s, a).list, a)
  }

  /** The words written when the live block at `a` is freed, in program order. */
  ghost function FreeStores(s: Shape, a: int): seq<Store>
    requires s.Tiled() && s.Listed() && s.IsLive(a)
  {
    SwallowStores(s, a) + JoinStores(s, a, LeftOf(s, a))
  }

  /** Writing the merged size into the freed block leaves the right neighbour's links as they were. */
  lemma SwallowJoined(s: Shape, a: int, c: Cells)
    requires s.Inv() && Rep(s, c) && s.IsLive(a) && s.IsFree(s.EndOf(a))
    ensures var r, i := s.EndOf(a), IndexOf(s.list, s.EndOf(a));
            && c.At(a) + c.At(r) == FreedSize(s, a)
            && Joined(s.list, c.Apply(Word(a, FreedSize(s, a))), i)
  {
    NoLinkInside(s, a, a);
    ChainFrame(s.list, c, c.Apply(Word(a, FreedSize(s, a))));
  }

  /** After the right neighbour is swallowed: the list is the new one, the freed block's size is in place. */
  lemma SwallowRep(s: Shape, a: int, c: Cells)
    requires s.Inv() && Rep(s, c) && s.IsLive(a)
    ensures var c' := ApplyAll(c, SwallowStores(s, a));
            && Chained(FreeUp(s, a).list, c')
            && c'.At(a) == FreedSize(s, a)
            && (forall x :: !LinkOf(s.list, x) && x != a ==> c'.At(x) == c.At(x))
  {
    var r := s.EndOf(a);
    if s.IsFree(r) {
      var w := Word(a, FreedSize(s, a));
      var i := IndexOf(s.list, r);
      ApplyOne(c, w);
      ApplyConcat(c, [w], UnlinkStores(s.list, i));
      NoLinkInside(s, a, a);
      ChainFrame(s.list, c, c.Apply(w));
      ListSpaced(s);
      UnlinkEffect(s.list, i, c.Apply(w));
    }
  }

  lemma JoinRep(s: Shape, a: int, c: Cells)
    requires s.Inv() && s.IsLive(a)
    requires Chained(FreeUp(s, a).list, c) && c.At(a) == FreedSize(s, a)
    ensures var l, c' := LeftOf(s, a), ApplyAll(c, JoinStores(s, a, LeftOf(s, a)));
            && Chained(Release(s, a).list, c')
            && (if l != 0 then c'.At(l) == s.blocks[l].size + FreedSize(s, a) else c'.At(a) == FreedSize(s, a))
            && (forall x :: !LinkOf(s.list, x) && (x != l || l == 0) && x != a + 8 && x != a + 16 ==>
                  c'.At(x) == c.At(x))
  {
    var l, list1 := LeftOf(s, a), FreeUp(s, a).list;
    FreeUpListed(s, a);
    LinksShrink(s, a);
    if l != 0 {
      var w := Word(l, s.blocks[l].size + FreedSize(s, a));
      ApplyOne(c, w);
      NoLinkInside(s, l, l);
      ChainFrame(list1, c, c.Apply(w));
    } else {
      ReleaseInv(s, a);
      ListSpaced(Release(s, a));
      TailSpaced(a, list1);
      PushEffect(list1, a, c);
      NoLinkInside(s, a, a);
    }
  }

  lemma TailSpaced(a: int, list: seq<int>)
    requires Spaced([a] + list)
    ensures Spaced(list)
  {
    var r := [a] + list;
    forall i, j | 0 <= i < |list| && 0 <= j < |list| && i != j
      ensures list[i] + 24 <= list[j] || list[j] + 24 <= list[i]
    {
      assert r[i + 1] == list[i] && r[j + 1] == list[j];
    }
  }

  lemma LinksShrink(s: Shape, a: int)
    requires s.Listed() && s.IsLive(a)
    ensures forall x :: LinkOf(FreeUp(s, a).list, x) ==> LinkOf(s.list, x)
  {
    var list1 := FreeUp(s, a).list;
    forall x | LinkOf(list1, x) ensures LinkOf(s.list, x) {
      var i :| 0 <= i < |list1| && (x == list1[i] + 8 || x == list1[i] + 16);
      if s.IsFree(s.EndOf(a)) {
        var k := IndexOf(s.list, s.EndOf(a));
        assert list1[i] == s.list[if i < k then i else i + 1];
      }
    }
  }

  /** Whether freeing the block at `a` may write the word at `x`. */
  ghost predicate FreeTouches(s: Shape, a: int, x: int)
    requires s.Tiled()
  {
    LinkOf(s.list, x) || (LeftOf(s, a) != 0 && x == LeftOf(s, a)) || x == a || x == a + 8 || x == a + 16
  }

  lemma ReleaseChange(s: Shape, a: int, c: Cells)
    requires s.Inv() && Rep(s, c) && s.IsLive(a)
    ensures var l, c' := LeftOf(s, a), ApplyAll(c, FreeStores(s, a));
            && Chained(Release(s, a).list, c')
            && (if l != 0 then c'.At(l) == s.blocks[l].size + FreedSize(s, a) else c'.At(a) == FreedSize(s, a))
            && (forall x :: !FreeTouches(s, a, x) ==> c'.At(x) == c.At(x))
  {
    SwallowRep(s, a, c);
    JoinRep(s, a, ApplyAll(c, SwallowStores(s, a)));
    ApplyConcat(c, SwallowStores(s, a), JoinStores(s, a, LeftOf(s, a)));
  }

  lemma HeadersKept(s: Shape, a: int, x: int)
    requires s.Inv() && s.IsLive(a) && x in s.blocks && x != a && x != LeftOf(s, a)
    ensures !FreeTouches(s, a, x)
  {
    NoLinkInside(s, x, x);
    assert s.Extent(x) && s.Extent(a) && (x < a || a < x);
  }

  lemma PadsKept(s: Shape, a: int, x: int)
    requires s.Inv() && s.IsLive(a) && s.IsLive(x) && x != a
    ensures !FreeTouches(s, a, s.blocks[x].use.payload - HEADER_GAP)
  {
    assert s.Housed(x) && s.Extent(x) && s.Extent(a) && (x < a || a < x);
    NoLinkInside(s, x, s.blocks[x].use.payload - HEADER_GAP);
    var l := LeftOf(s, a);
    assert l != 0 ==> s.Extent(l) && (x < l || l < x);
  }

  lemma ReleaseSized(s: Shape, a: int, c: Cells)
    requires s.Inv() && Rep(s, c) && s.IsLive(a)
    ensures Sized(Release(s, a), ApplyAll(c, FreeStores(s, a)))
  {
    var s', l, c' := Release(s, a), LeftOf(s, a), ApplyAll(c, FreeStores(s, a));
    ReleaseChange(s, a, c);
    ReleaseBlocks(s, a);
    var head := if l != 0 then l else a;
    forall x | x in s'.blocks && x != head ensures c'.At(x) == s'.blocks[x].size {
      HeadersKept(s, a, x);
    }
  }

  lemma LiveKept(s: Shape, a: int, x: int)
    requires s.Tiled() && s.Listed() && s.IsLive(a) && Release(s, a).IsLive(x)
    ensures x != a && s.IsLive(x) && Release(s, a).blocks[x] == s.blocks[x]
  {
    ReleaseBlocks(s, a);
  }

  lemma ReleasePad(s: Shape, a: int, c: Cells, x: int)
    requires s.Inv() && Rep(s, c) && s.IsLive(a) && Release(s, a).IsLive(x)
    ensures PadAt(Release(s, a), ApplyAll(c, FreeStores(s, a)), x)
  {
    LiveKept(s, a, x);
    PadsKept(s, a, x);
    OutsideRelease(s, a, c, s.blocks[x].use.payload - HEADER_GAP);
    SamePad(s, Release(s, a), c, ApplyAll(c, FreeStores(s, a)), x);
  }

  lemma SamePad(s: Shape, s': Shape, c: Cells, c': Cells, x: int)
    requires Padded(s, c) && s.IsLive(x) && s'.IsLive(x) && s'.blocks[x] == s.blocks[x]
    requires c'.At(s.blocks[x].use.payload - HEADER_GAP) == c.At(s.blocks[x].use.payload - HEADER_GAP)
    ensures PadAt(s', c', x)
  {
    assert PadAt(s, c, x);
  }

  lemma OutsideRelease(s: Shape, a: int, c: Cells, x: int)
    requires s.Inv() && Rep(s, c) && s.IsLive(a) && !FreeTouches(s, a, x)
    ensures ApplyAll(c, FreeStores(s, a)).At(x) == c.At(x)
  {
    ReleaseChange(s, a, c);
  }

  /** The stores of a release turn the words of a shape into the words of the released shape. */
  lemma ReleaseRep(s: Shape, a: int, c: Cells)
    requires s.Inv() && Rep(s, c) && s.IsLive(a)
    ensures Rep(Release(s, a), ApplyAll(c, FreeStores(s, a)))
  {
    var s', c' := Release(s, a), ApplyAll(c, FreeStores(s, a));
    ReleaseChange(s, a, c);
    ReleaseSized(s, a, c);
    forall x | s'.IsLive(x) ensures PadAt(s', c', x) {
      ReleasePad(s, a, c, x);
    }
  }

  /** An address in a free block is in a free block after any release. */
  lemma FreeStays(s: Shape, a: int, b: int, x: int)
    requires s.Inv() && s.IsLive(a) && s.IsFree(b) && b <= x < s.EndOf(b)
    ensures Release(s, a).InFree(x)
  {
    var s', l, r := Release(s, a), LeftOf(s, a), s.EndOf(a);
    ReleaseBlocks(s, a);
    var head := if l != 0 then l else a;
    if b == r || b == l {
      assert s'.IsFree(head) && head <= x < s'.EndOf(head);
    } else {
      assert s'.IsFree(b);
    }
  }

  lemma FreedHeaderIsFree(s: Shape, a: int, x: int)
    requires s.Inv() && s.IsLive(a)
    requires (LeftOf(s, a) != 0 && x == LeftOf(s, a)) || x == a || x == a + 8 || x == a + 16
    ensures Release(s, a).InFree(x)
  {
    ReleaseBlocks(s, a);
    var s', l := Release(s, a), LeftOf(s, a);
    var head := if l != 0 then l else a;
    assert s.Extent(a);
    assert s'.IsFree(head) && head <= x < s'.EndOf(head);
  }

  /** Freeing writes only inside blocks that are free afterwards. */
  lemma ReleaseFrame(s: Shape, a: int, c: Cells)
    requires s.Inv() && Rep(s, c) && s.IsLive(a)
    ensures OnlyFreeDiffer(Release(s, a), c, ApplyAll(c, FreeStores(s, a)))
  {
    ReleaseChange(s, a, c);
    forall x | FreeTouches(s, a, x) ensures Release(s, a).InFree(x) {
      if LinkOf(s.list, x) {
        LinkIsFree(s, x);
        var b :| s.IsFree(b) && b <= x < s.EndOf(b);
        FreeStays(s, a, b, x);
      } else {
        FreedHeaderIsFree(s, a, x);
      }
    }
  }

  /** No word outside the free blocks of a shape differs. */
  ghost predicate OnlyFreeDiffer(s: Shape, c: Cells, c': Cells) {
    forall x :: !s.InFree(x) ==> c'.At(x) == c.At(x)
  }

  // ----- the owner's writes -----

  /** A word owned through a live payload is no header word, no link and no padding slot. */
  lemma OwnedIsPrivate(s: Shape, x: int)
    requires s.Inv() && s.Owned(x)
    ensures x !in s.blocks && !LinkOf(s.list, x) && !s.InFree(x)
    ensures forall a :: s.IsLive(a) ==> x != s.blocks[a].use.payload - HEADER_GAP
  {
    var b :| s.IsLive(b) && s.OwnedBy(b, x);
    assert s.Housed(b);
    NoLinkInside(s, b, x);
    forall a | s.IsLive(a) ensures x != s.blocks[a].use.payload - HEADER_GAP {
      assert s.Housed(a) && (a < b || a == b || b < a);
    }
  }

  /** Headers, links, padding slots and the words of free blocks belong to the allocator alone. */
  lemma OwnWords(s: Shape)
    requires s.Inv()
    ensures forall x :: x in s.blocks || s.InFree(x) ==> !s.Owned(x)
    ensures forall a :: s.IsLive(a) ==> !s.Owned(s.blocks[a].use.payload - HEADER_GAP)
  {
    forall x | s.Owned(x) ensures x !in s.blocks && !s.InFree(x) { OwnedIsPrivate(s, x); }
    forall a | s.IsLive(a) ensures !s.Owned(s.blocks[a].use.payload - HEADER_GAP) {
      if s.Owned(s.blocks[a].use.payload - HEADER_GAP) {
        OwnedIsPrivate(s, s.blocks[a].use.payload - HEADER_GAP);
        assert false;
      }
    }
  }

  // ----- bytes -----

  /** Byte `i` of a word, the lowest first. */
  function ByteIn(word: int, i: nat): int
    decreases i
  {
    if i == 0 then word % 256 else ByteIn(word / 256, i - 1)
  }

  /** The word with byte `i` replaced. */
  function WithByte(word: int, i: nat, b: int): int
    decreases i
  {
    if i == 0 then word - word % 256 + b else 256 * WithByte(word / 256, i - 1, b) + word % 256
  }

  lemma {:induction false} WithByteReads(word: int, i: nat, b: int, j: nat)
    requires 0 <= b < 256
    ensures ByteIn(WithByte(word, i, b), j) == if i == j then b else ByteIn(word, j)
    decreases i
  {
    if i > 0 && j > 0 { WithByteReads(word / 256, i - 1, b, j - 1); }
  }

  /** The byte at an address. */
  function ByteAt(c: Cells, y: int): int {
    ByteIn(c.At(y - y % 8), y % 8)
  }

  /** Storing a word with one byte replaced changes that byte of memory and no other. */
  lemma ByteStored(c: Cells, y: int, b: int)
    requires 0 <= b < 256
    ensures var c' := c.Apply(Word(y - y % 8, WithByte(c.At(y - y % 8), y % 8, b)));
            c'.free == c.free && ByteAt(c', y) == b && forall z :: z != y ==> ByteAt(c', z) == ByteAt(c, z)
  {
    var x, i := y - y % 8, y % 8;
    var c' := c.Apply(Word(x, WithByte(c.At(x), i, b)));
    WithByteReads(c.At(x), i, b, i);
    forall z | z != y ensures ByteAt(c', z) == ByteAt(c, z) {
      if z - z % 8 == x { WithByteReads(c.At(x), i, b, z % 8); }
    }
  }

  /** Whatever owners write into their payloads, the heap's own words keep meaning the same shape. */
  lemma OwnerWriteRep(s: Shape, c: Cells, x: int, v: int)
    requires s.Inv() && Rep(s, c) && s.Owned(x)
    ensures Rep(s, c.Apply(Word(x, v)))
  {
    OwnedIsPrivate(s, x);
    var c' := c.Apply(Word(x, v));
    ChainFrame(s.list, c, c');
    forall a | s.IsLive(a) ensures PadAt(s, c', a) { assert PadAt(s, c, a); }
  }
}

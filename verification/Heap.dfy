/** The block allocator itself: a free-list root, the region's bounds and the words of memory. */
module KernelHeap {
  import opened Bits
  import opened HeapShape
  import opened HeapCells
  import opened HeapRuns
  import LockedHeap

  class Heap {
    var free: int
    var start: int
    var end: int
    var mem: map<int, int>
    /** What the words mean. */
    ghost var shape: Shape
    /** Every store so far, in program order. */
    ghost var log: seq<Store>

    ghost function Words(): Cells
      reads this
    {
      Cells(free, mem)
    }

    ghost predicate Bounded()
      reads this
    {
      shape.Inv() && start == shape.start && end == shape.end && end < WORD_LIMIT
    }

    ghost predicate Valid()
      reads this
    {
      Bounded() && Rep(shape, Words())
    }

    /** Whether an aligned word lies inside the region. */
    predicate InRegion(x: int)
      reads this
    {
      start <= x && x + 8 <= end && x % 8 == 0
    }

    /** The block header at `x` lies inside the region. */
    predicate Header(x: int)
      reads this
    {
      0 < x && InRegion(x) && InRegion(x + 8) && InRegion(x + 16)
    }

    /** The block header at `x` belongs to the allocator alone: no owner of a payload may write it. */
    ghost predicate OwnHeader(x: int)
      reads this
    {
      Header(x) && !shape.Owned(x) && !shape.Owned(x + 8) && !shape.Owned(x + 16)
    }

    /** Node `i` of the list and its neighbours are headers in the region, and the first two do not overlap. */
    ghost predicate Node(list: seq<int>, i: int)
      reads this
    {
      && 0 <= i < |list| && OwnHeader(list[i])
      && (i > 0 ==> Header(list[i - 1]) && (list[i - 1] + 24 <= list[i] || list[i] + 24 <= list[i - 1]))
      && (i + 1 < |list| ==> Header(list[i + 1]))
    }

    /** The words have come to mean another shape over the same region. */
    ghost method Adopt(s: Shape, c: Cells)
      requires Words() == c && s.Inv() && Rep(s, c)
      requires start == s.start && end == s.end && end < WORD_LIMIT
      modifies this`shape
      ensures Valid() && shape == s
    {
      shape := s;
    }

    lemma HeaderFits(x: int)
      requires 0 < x && start <= x && x + HEADER_SIZE <= end && x % 8 == 0
      ensures Header(x)
    {
    }

    lemma ListNode(i: int)
      requires Bounded() && 0 <= i < |shape.list|
      ensures Node(shape.list, i) && shape.IsFree(shape.list[i])
    {
      ListSpaced(shape);
      OwnWords(shape);
      forall j | 0 <= j < |shape.list| ensures Header(shape.list[j]) {
        assert shape.list[j] in shape.list && shape.Extent(shape.list[j]);
      }
      var a := shape.list[i];
      assert a in shape.list && shape.Extent(a);
      assert shape.InFree(a) && shape.InFree(a + 8) && shape.InFree(a + 16);
    }

    constructor ()
      ensures Valid() && shape == EMPTY && start == 0 && end == 0
    {
      free, start, end, mem := 0, 0, 0, map[];
      shape, log := EMPTY, [];
    }

    // ----- single accesses, all inside the region -----

    /** Loads touch the allocator's own words only, whatever the owners of payloads do meanwhile. */
    method Read(x: int) returns (value: int)
      requires InRegion(x) && !shape.Owned(x)
      ensures value == Words().At(x)
    {
      value := if x in mem then mem[x] else 0;
    }

    method Write(x: int, value: int)
      requires InRegion(x)
      modifies this`mem, this`log
      ensures Words() == old(Words()).Apply(Word(x, value))
      ensures log == old(log) + [Word(x, value)]
    {
      mem := mem[x := value];
      log := log + [Word(x, value)];
    }

    method SetFree(node: int)
      modifies this`free, this`log
      ensures Words() == old(Words()).Apply(Root(node))
      ensures log == old(log) + [Root(node)]
    {
      free := node;
      log := log + [Root(node)];
    }

    /**
     * Installs a region as one free block, unless it is too small or too high. A base that rounds to null gets
     * through, but leaves a heap whose list is empty for good.
     */
    method Init(base: nat, size: nat) returns (ok: bool)
      requires base < WORD_LIMIT && size < WORD_LIMIT
      modifies this
      ensures var s := AlignUp64(base, 8);
              && ok == (s + size < WORD_LIMIT && RoundDown8(s + size) - s >= MIN_BLOCK)
              && (ok ==> start == s && end == RoundDown8(s + size) && free == s)
              && (ok && s > 0 ==> Valid() && shape == Whole(s, RoundDown8(s + size)))
      ensures !ok ==> Words() == old(Words()) && shape == old(shape) && start == old(start) && end == old(end)
    {
      RoundsToEight(base);
      var first := AlignUp64(base, 8);
      if first + size >= WORD_LIMIT {
        return false;
      }
      var last := RoundDown8(first + size);
      RoundedDown(first + size);
      var span := last - first;
      if span < MIN_BLOCK {
        return false;
      }
      if first > 0 { WholeInv(first, last); }
      start, end, shape := first, last, Whole(first, last);
      WriteWhole(first, span);
      return true;
    }

    method WriteWhole(head: int, span: int)
      requires 0 <= start == head && end == head + span && start % 8 == 0 && end % 8 == 0 && span >= MIN_BLOCK
      modifies this`free, this`mem, this`log
      ensures free == head && Rep(Whole(head, head + span), Words())
    {
      Write(head, span);
      Write(head + 8, 0);
      Write(head + 16, 0);
      SetFree(head);
      assert Joined([head], Words(), 0);
    }

    // ----- list surgery -----

    method Unlink(node: int, ghost list: seq<int>, ghost i: int)
      requires Node(list, i) && list[i] == node && Joined(list, Words(), i)
      modifies this`free, this`mem, this`log
      ensures Words() == ApplyAll(old(Words()), UnlinkStores(list, i))
      ensures log == old(log) + UnlinkStores(list, i)
    {
      UnlinkApplied(list, i, Words());
      var prev := Read(node + 16);
      var next := Read(node + 8);
      if prev != 0 {
        Write(prev + 8, next);
      } else {
        SetFree(next);
      }
      next := Read(node + 8);
      if next != 0 {
        prev := Read(node + 16);
        Write(next + 16, prev);
      }
    }

    /** The block at `t` takes over node `k`'s place in the list. */
    method TakePlace(node: int, t: int, ghost list: seq<int>, ghost k: int)
      requires Node(list, k) && list[k] == node && Joined(list, Words(), k)
      requires InRegion(t + 8) && InRegion(t + 16) && (t + 24 <= node || node + 24 <= t)
      modifies this`free, this`mem, this`log
      ensures log == old(log) + ReplaceStores(list, k, t)
      ensures Words() == ApplyAll(old(Words()), ReplaceStores(list, k, t))
    {
      ghost var was, c := log, Words();
      ghost var w0, w1 := Word(t + 8, NodeAt(list, k + 1)), Word(t + 16, NodeAt(list, k - 1));
      var next := Read(node + 8);
      Write(t + 8, next);
      var prev := Read(node + 16);
      Write(t + 16, prev);
      ApplyTwo(c, w0, w1);
      LogMore(was, [w0], [w1]);
      assert [w0] + [w1] == [w0, w1];
      Relink(node, t, list, k);
      ApplyConcat(c, [w0, w1], RelinkStores(list, k, t));
      LogMore(was, [w0, w1], RelinkStores(list, k, t));
    }

    /** The neighbours of node `k` link to the block at `t` instead. */
    method Relink(node: int, t: int, ghost list: seq<int>, ghost k: int)
      requires Node(list, k) && list[k] == node && Joined(list, Words(), k)
      modifies this`free, this`mem, this`log
      ensures log == old(log) + RelinkStores(list, k, t)
      ensures Words() == ApplyAll(old(Words()), RelinkStores(list, k, t))
    {
      RelinkApplied(list, k, t, Words());
      var prev := Read(node + 16);
      if prev != 0 {
        Write(prev + 8, t);
      } else {
        SetFree(t);
      }
      var next := Read(node + 8);
      if next != 0 {
        Write(next + 16, t);
      }
    }

    /** The block at `block` becomes the head of the list. */
    method Push(block: int, ghost list: seq<int>)
      requires Header(block) && free == NodeAt(list, 0) && (list != [] ==> Header(list[0]))
      modifies this`free, this`mem, this`log
      ensures Words() == ApplyAll(old(Words()), PushStores(list, block))
      ensures log == old(log) + PushStores(list, block)
    {
      PushApplied(list, block, Words());
      Write(block + 8, free);
      Write(block + 16, 0);
      if free != 0 {
        Write(free + 16, block);
      }
      SetFree(block);
    }

    // ----- alloc -----

    /**
     * First fit along the list, stated on the shape and on the words. The precondition keeps the walk from
     * meeting a block so high that its rounded payload address wraps to null unnoticed.
     */
    method Alloc(size: nat, align: nat) returns (ptr: int)
      requires Valid() && 1 <= align <= WORD_LIMIT && IsPow2(align)
      requires shape.Noded() && NoneWraps(shape, 0, Max(size, 1), align)
      modifies this
      ensures Valid() && start == old(start) && end == old(end)
      ensures old(shape).Noded()
      ensures ptr == AllocPtr(old(shape), size, align)
      ensures shape == HeapShape.Alloc(old(shape), size, align)
      ensures ptr == 0 ==> shape == old(shape)
      ensures ptr != 0 ==> shape.Noded() && TakesLittle(old(shape), shape, ptr, Max(size, 1))
      ensures OnlyFreeDiffer(old(shape), old(Words()), Words())
      ensures var k := FirstFit(old(shape), 0, Max(size, 1), align);
              log == old(log) + if k == |old(shape).list| then [] else AllocStores(old(shape), k, ptr, Max(size, 1))
    {
      if AllocPtr(shape, size, align) != 0 { AllocTakesLittle(shape, size, align); }
      ptr := Walk(size, align);
    }

    /** The walk over the list. */
    method Walk(size: nat, align: nat) returns (ptr: int)
      requires Valid() && 1 <= align <= WORD_LIMIT && IsPow2(align)
      requires shape.Noded() && NoneWraps(shape, 0, Max(size, 1), align)
      modifies this
      ensures Valid() && start == old(start) && end == old(end)
      ensures ptr == AllocPtr(old(shape), size, align)
      ensures shape == HeapShape.Alloc(old(shape), size, align)
      ensures OnlyFreeDiffer(old(shape), old(Words()), Words())
      ensures var k := FirstFit(old(shape), 0, Max(size, 1), align);
              log == old(log) + if k == |old(shape).list| then [] else AllocStores(old(shape), k, ptr, Max(size, 1))
    {
      shape.InvNoded();
      var bytes := Max(size, 1);
      var current := free;
      ghost var k := 0;
      while current != 0
        invariant Words() == old(Words()) && shape == old(shape) && log == old(log)
        invariant start == old(start) && end == old(end)
        invariant 0 <= k <= |shape.list| && current == NodeAt(shape.list, k)
        invariant FirstFit(shape, 0, bytes, align) == FirstFit(shape, k, bytes, align)
        decreases |shape.list| - k
      {
        ListNode(k);
        assert shape.Extent(current);
        assert Joined(shape.list, Words(), k);
        MachineFitsExactly(shape, current, bytes, align);
        var blockSize := Read(current);
        var payload := AlignUp64(current + HEADER_SIZE + HEADER_GAP, align);
        var needEnd := payload + bytes;
        if needEnd >= WORD_LIMIT || needEnd > current + blockSize {
          assert !Fits(shape, current, bytes, align);
          current := Read(current + 8);
          k := k + 1;
        } else {
          assert Fits(shape, current, bytes, align);
          FitPlaces(shape, k, bytes, align);
          House(current, payload, bytes, k);
          return payload;
        }
      }
      ptr := 0;
    }

    /** Takes node `k` off the list, or its tail into the list, and records the padding under the payload. */
    method House(node: int, payload: int, bytes: int, ghost k: int)
      requires Valid()
      requires 0 <= k < |shape.list| && shape.list[k] == node && Places(shape, k, payload, bytes)
      modifies this
      ensures Valid() && start == old(start) && end == old(end)
      ensures shape == Carve(old(shape), k, payload, bytes)
      ensures OnlyFreeDiffer(old(shape), old(Words()), Words())
      ensures log == old(log) + AllocStores(old(shape), k, payload, bytes)
    {
      CarveRep(shape, k, payload, bytes, Words());
      CarveInv(shape, k, payload, bytes);
      WriteHouse(node, payload, bytes, k);
      shape := Carve(shape, k, payload, bytes);
    }

    method WriteHouse(node: int, payload: int, bytes: int, ghost k: int)
      requires Valid()
      requires 0 <= k < |shape.list| && shape.list[k] == node && Places(shape, k, payload, bytes)
      modifies this`free, this`mem, this`log
      ensures Words() == ApplyAll(old(Words()), AllocStores(shape, k, payload, bytes))
      ensures log == old(log) + AllocStores(shape, k, payload, bytes)
    {
      ListNode(k);
      EndsOnEight(shape, node);
      assert Joined(shape.list, Words(), k);
      WriteCarve(node, payload, bytes, shape, k);
    }

    method WriteCarve(node: int, payload: int, bytes: int, ghost s: Shape, ghost k: int)
      requires Node(s.list, k) && s.list[k] == node && Joined(s.list, Words(), k)
      requires node in s.blocks && Words().At(node) == s.blocks[node].size
      requires Places(s, k, payload, bytes) && s.EndOf(node) <= end && s.EndOf(node) % 8 == 0
      modifies this`free, this`mem, this`log
      ensures Words() == ApplyAll(old(Words()), AllocStores(s, k, payload, bytes))
      ensures log == old(log) + AllocStores(s, k, payload, bytes)
    {
      ghost var take := TakeStores(s, k, payload, bytes);
      ApplyMore(Words(), take, PadStore(node, payload));
      var headPad := payload - (node + HEADER_SIZE);
      WriteTake(node, payload, bytes, s, k);
      Write(payload - HEADER_GAP, headPad);
      assert log == old(log) + (take + [PadStore(node, payload)]);
    }

    /** A block with enough room behind the payload gives its tail back to the list; otherwise it leaves the list. */
    method WriteTake(node: int, payload: int, bytes: int, ghost s: Shape, ghost k: int)
      requires Node(s.list, k) && s.list[k] == node && Joined(s.list, Words(), k)
      requires node in s.blocks && Words().At(node) == s.blocks[node].size
      requires Places(s, k, payload, bytes) && s.EndOf(node) <= end && s.EndOf(node) % 8 == 0
      modifies this`free, this`mem, this`log
      ensures Words() == ApplyAll(old(Words()), TakeStores(s, k, payload, bytes))
      ensures log == old(log) + TakeStores(s, k, payload, bytes)
    {
      var size := Read(node);
      var blockEnd := node + size;
      var needEnd := payload + bytes;
      if blockEnd - needEnd >= MIN_BLOCK && blockEnd - RoundUp8(needEnd) >= MIN_BLOCK {
        var tail := RoundUp8(needEnd);
        RoundedUp(needEnd);
        HeaderFits(tail);
        SplitTail(node, tail, s.list, k);
      } else {
        Unlink(node, s.list, k);
      }
    }

    /** The block at `node` shrinks to end at `t`; the tail from there on takes over its list position. */
    method SplitTail(node: int, t: int, ghost list: seq<int>, ghost k: int)
      requires Node(list, k) && list[k] == node && Joined(list, Words(), k)
      requires Header(t) && node + LEAST_BLOCK <= t
      modifies this`free, this`mem, this`log
      ensures var e := old(node + Words().At(node));
              && log == old(log) + SplitStores(list, k, t, e)
              && Words() == ApplyAll(old(Words()), SplitStores(list, k, t, e))
    {
      var size := Read(node);
      SplitApplied(list, k, t, node + size, Words());
      Write(t, node + size - t);
      TakePlace(node, t, list, k);
      Write(node, t - node);
    }

    // ----- dealloc -----

    /** A live payload goes back: its block and free neighbours become one. Null and outside pointers do nothing. */
    method Dealloc(ptr: int)
      requires Valid()
      requires ptr == 0 || ptr < start + HEADER_SIZE || ptr >= end || IsPayload(shape, ptr)
      modifies this
      ensures Valid() && start == old(start) && end == old(end)
      ensures shape == if IsPayload(old(shape), ptr) then Release(old(shape), BlockOf(old(shape), ptr)) else old(shape)
      ensures OnlyFreeDiffer(shape, old(Words()), Words())
      ensures log == old(log) +
                if IsPayload(old(shape), ptr) then FreeStores(old(shape), BlockOf(old(shape), ptr)) else []
    {
      if ptr == 0 || ptr < start + HEADER_SIZE || ptr >= end {
        NoPayloadOutside(shape, ptr);
        return;
      }
      DeallocPayload(ptr);
    }

    /** Finds the header of a live payload through its padding slot and frees the block. */
    method DeallocPayload(ptr: int)
      requires Valid() && IsPayload(shape, ptr)
      modifies this
      ensures Valid() && start == old(start) && end == old(end)
      ensures shape == Release(old(shape), BlockOf(old(shape), ptr))
      ensures OnlyFreeDiffer(shape, old(Words()), Words())
      ensures log == old(log) + FreeStores(old(shape), BlockOf(old(shape), ptr))
    {
      ghost var a := BlockOf(shape, ptr);
      PayloadBounds(shape, ptr);
      SlotLeadsBack(shape, Words(), ptr);
      var offset := Read(ptr - HEADER_GAP);
      var block := ptr - HEADER_SIZE - offset;
      if block < start || block >= end {
        assert false;
        return;
      }
      assert block == a;
      FreeBlock(block);
    }

    /** Frees the live block at `block`, merging it with its free neighbours. */
    method FreeBlock(block: int)
      requires Valid() && shape.IsLive(block)
      modifies this
      ensures Valid() && start == old(start) && end == old(end)
      ensures shape == Release(old(shape), block)
      ensures OnlyFreeDiffer(shape, old(Words()), Words())
      ensures log == old(log) + FreeStores(old(shape), block)
    {
      ghost var s', c' := Release(shape, block), ApplyAll(Words(), FreeStores(shape, block));
      ReleaseSafe(shape, block, Words());
      WriteRelease(block);
      Adopt(s', c');
    }

    method WriteRelease(block: int)
      requires Valid() && shape.IsLive(block)
      modifies this`free, this`mem, this`log
      ensures Words() == ApplyAll(old(Words()), FreeStores(shape, block))
      ensures log == old(log) + FreeStores(shape, block)
    {
      assert shape.Extent(block);
      OwnWords(shape);
      var size := Read(block);
      var left, right := FindNeighbours(block, block + size);
      WriteFree(block, left, right);
    }

    /** What a walk of the free list reads at node `k`: the node's size and the node after it. */
    ghost predicate Readable(k: int)
      requires shape.Noded() && 0 <= k < |shape.list|
      reads this
    {
      && OwnHeader(shape.list[k])
      && Words().At(shape.list[k]) == shape.blocks[shape.list[k]].size
      && Words().At(shape.list[k] + 8) == NodeAt(shape.list, k + 1)
    }

    lemma AllReadable()
      requires Valid()
      ensures shape.Noded()
      ensures forall k {:trigger Readable(k)} :: 0 <= k < |shape.list| ==> Readable(k)
    {
      shape.InvNoded();
      forall k | 0 <= k < |shape.list| ensures Readable(k) {
        ListNode(k);
        assert Joined(shape.list, Words(), k);
      }
    }

    /** Walks the free list for the free blocks that touch `[block, blockEnd)`; null where there is none. */
    method FindNeighbours(block: int, blockEnd: int) returns (left: int, right: int)
      requires Valid() && block in shape.blocks && blockEnd == shape.EndOf(block)
      ensures left == LeftOf(shape, block)
      ensures right == if shape.IsFree(blockEnd) then blockEnd else 0
    {
      AllReadable();
      left, right := WalkNeighbours(block, blockEnd);
      NeighboursFound(shape, block, left, right);
    }

    method WalkNeighbours(block: int, blockEnd: int) returns (left: int, right: int)
      requires shape.Noded() && free == NodeAt(shape.list, 0)
      requires forall k {:trigger Readable(k)} :: 0 <= k < |shape.list| ==> Readable(k)
      ensures left != 0 ==> left in shape.list && left in shape.blocks && shape.EndOf(left) == block
      ensures left == 0 ==> forall j :: 0 <= j < |shape.list| ==> shape.EndOf(shape.list[j]) != block
      ensures right != 0 ==> right in shape.list && right == blockEnd
      ensures right == 0 ==> forall j :: 0 <= j < |shape.list| ==> shape.list[j] != blockEnd
    {
      left, right := 0, 0;
      var current := free;
      ghost var k := 0;
      while current != 0
        invariant 0 <= k <= |shape.list| && current == NodeAt(shape.list, k)
        invariant left != 0 ==> left in shape.list && left in shape.blocks && shape.EndOf(left) == block
        invariant left == 0 ==> forall j :: 0 <= j < k ==> shape.EndOf(shape.list[j]) != block
        invariant right != 0 ==> right in shape.list && right == blockEnd
        invariant right == 0 ==> forall j :: 0 <= j < k ==> shape.list[j] != blockEnd
        decreases |shape.list| - k
      {
        assert Readable(k);
        var size := Read(current);
        if current + size == block {
          left := current;
        }
        if current == blockEnd {
          right := current;
        }
        current := Read(current + 8);
        k := k + 1;
      }
    }

    /** The words of a release: swallow the right neighbour, then join the left one or head the list. */
    method WriteFree(block: int, left: int, right: int)
      requires Valid() && shape.IsLive(block)
      requires left == LeftOf(shape, block)
      requires right == if shape.IsFree(shape.EndOf(block)) then shape.EndOf(block) else 0
      modifies this`free, this`mem, this`log
      ensures Words() == ApplyAll(old(Words()), FreeStores(shape, block))
      ensures log == old(log) + FreeStores(shape, block)
    {
      ghost var c, was := Words(), log;
      ghost var swallow, join := SwallowStores(shape, block), JoinStores(shape, block, left);
      SwallowRep(shape, block, c);
      ApplyConcat(c, swallow, join);
      LeftHeaderKept(shape, block);
      WriteSwallow(block, right);
      WriteJoin(block, left);
      LogMore(was, swallow, join);
    }

    method WriteSwallow(block: int, right: int)
      requires Valid() && shape.IsLive(block)
      requires right == if shape.IsFree(shape.EndOf(block)) then shape.EndOf(block) else 0
      modifies this`free, this`mem, this`log
      ensures Words() == ApplyAll(old(Words()), SwallowStores(shape, block))
      ensures log == old(log) + SwallowStores(shape, block)
    {
      assert shape.Extent(block);
      if right != 0 {
        ghost var i := IndexOf(shape.list, right);
        SwallowJoined(shape, block, Words());
        OwnWords(shape);
        ListNode(i);
        Absorb(block, right, shape.list, i);
      }
    }

    /** The block takes in the size of list node `i`, which then leaves the list. */
    method Absorb(block: int, right: int, ghost list: seq<int>, ghost i: int)
      requires InRegion(block) && !shape.Owned(block)
      requires Node(list, i) && list[i] == right
      requires Joined(list, Words().Apply(Word(block, Words().At(block) + Words().At(right))), i)
      modifies this`free, this`mem, this`log
      ensures var w := Word(block, old(Words().At(block) + Words().At(right)));
              && Words() == ApplyAll(old(Words()), [w] + UnlinkStores(list, i))
              && log == old(log) + ([w] + UnlinkStores(list, i))
    {
      ghost var w, was, c := Word(block, Words().At(block) + Words().At(right)), log, Words();
      ApplyOne(c, w);
      ApplyConcat(c, [w], UnlinkStores(list, i));
      var size := Read(block);
      var rightSize := Read(right);
      Write(block, size + rightSize);
      Unlink(right, list, i);
      LogMore(was, [w], UnlinkStores(list, i));
    }

    method WriteJoin(block: int, left: int)
      requires Bounded() && shape.IsLive(block) && left == LeftOf(shape, block)
      requires Chained(FreeUp(shape, block).list, Words())
      requires Words().At(block) == FreedSize(shape, block)
      requires left != 0 ==> Words().At(left) == shape.blocks[left].size
      modifies this`free, this`mem, this`log
      ensures Words() == ApplyAll(old(Words()), JoinStores(shape, block, left))
      ensures log == old(log) + JoinStores(shape, block, left)
    {
      assert shape.Extent(block);
      OwnWords(shape);
      if left != 0 {
        assert shape.Extent(left);
        ApplyOne(Words(), Word(left, shape.blocks[left].size + FreedSize(shape, block)));
        var leftSize := Read(left);
        var size := Read(block);
        Write(left, leftSize + size);
      } else {
        ghost var list := FreeUp(shape, block).list;
        FreeUpListed(shape, block);
        assert list != [] ==> list[0] in list && shape.Extent(list[0]);
        Push(block, list);
      }
    }

    // ----- audit and ownership -----

    /** Walks the list and adds up what the headers say. */
    method FreeBytes() returns (total: int)
      requires Valid()
      ensures shape.Noded()
      ensures total == SumSizes(shape, shape.list)
    {
      AllReadable();
      total := 0;
      var current := free;
      ghost var k := 0;
      while current != 0
        invariant 0 <= k <= |shape.list| && current == NodeAt(shape.list, k)
        invariant total + SumSizes(shape, shape.list[k..]) == SumSizes(shape, shape.list)
        decreases |shape.list| - k
      {
        assert Readable(k);
        assert shape.list[k..][1..] == shape.list[k + 1..];
        var size := Read(current);
        total := total + size;
        current := Read(current + 8);
        k := k + 1;
      }
    }

    /** The owner of a live payload writes one of its bytes; every other byte of memory stays. */
    method OwnerWriteByte(y: int, b: int)
      requires Valid() && OwnedByte(shape, y) && 0 <= b < 256
      modifies this`mem
      ensures Valid()
      ensures ByteAt(Words(), y) == b
      ensures forall z :: z != y ==> ByteAt(Words(), z) == ByteAt(old(Words()), z)
    {
      OwnedByteInWord(shape, y);
      ByteStored(Words(), y, b);
      OwnerWrite(y - y % 8, WithByte(if y - y % 8 in mem then mem[y - y % 8] else 0, y % 8, b));
    }

    /** The owner of a live payload writes one of its words. */
    method OwnerWrite(x: int, value: int)
      requires Valid() && shape.Owned(x)
      modifies this`mem
      ensures Valid() && Words() == old(Words()).Apply(Word(x, value))
    {
      OwnerWriteRep(shape, Words(), x, value);
      mem := mem[x := value];
    }
  }

  lemma ReleaseSafe(s: Shape, a: int, c: Cells)
    requires s.Inv() && Rep(s, c) && s.IsLive(a)
    ensures var s', c' := Release(s, a), ApplyAll(c, FreeStores(s, a));
            && s'.Inv() && s'.start == s.start && s'.end == s.end && Rep(s', c')
            && OnlyFreeDiffer(s', c, c')
  {
    ReleaseRep(s, a, c);
    ReleaseFrame(s, a, c);
    ReleaseInv(s, a);
  }

  lemma PayloadBounds(s: Shape, ptr: int)
    requires s.Inv() && IsPayload(s, ptr)
    ensures var a := BlockOf(s, ptr);
            s.start <= a < s.end && a % 8 == 0 && ptr % 8 == 0
            && a + HEADER_SIZE + HEADER_GAP <= ptr < s.EndOf(a) <= s.end
  {
    var a := BlockOf(s, ptr);
    assert s.Housed(a) && s.Extent(a);
  }

  /** The slot under a payload holds the way back to its header, and belongs to the allocator. */
  lemma SlotLeadsBack(s: Shape, c: Cells, ptr: int)
    requires s.Inv() && Rep(s, c) && IsPayload(s, ptr)
    ensures c.At(ptr - HEADER_GAP) == ptr - HEADER_SIZE - BlockOf(s, ptr)
    ensures !s.Owned(ptr - HEADER_GAP)
  {
    OwnWords(s);
    assert PadAt(s, c, BlockOf(s, ptr));
  }

  lemma NoPayloadOutside(s: Shape, ptr: int)
    requires s.Inv() && (ptr == 0 || ptr < s.start + HEADER_SIZE || ptr >= s.end)
    ensures !IsPayload(s, ptr)
  {
    if IsPayload(s, ptr) {
      PayloadBounds(s, ptr);
      assert false;
    }
  }

  lemma LeftHeaderKept(s: Shape, a: int)
    requires s.Inv() && s.IsLive(a)
    ensures LeftOf(s, a) != 0 ==> LeftOf(s, a) != a && !LinkOf(s.list, LeftOf(s, a))
  {
    if LeftOf(s, a) != 0 { NoLinkInside(s, LeftOf(s, a), LeftOf(s, a)); }
  }

  /** A walk over the whole list finds the only free blocks that can touch the block at `a`. */
  lemma NeighboursFound(s: Shape, a: int, l: int, r: int)
    requires s.Inv() && a in s.blocks && s.Noded()
    requires l != 0 ==> l in s.list && s.IsFree(l) && s.EndOf(l) == a
    requires l == 0 ==> forall j :: 0 <= j < |s.list| ==> s.EndOf(s.list[j]) != a
    requires r != 0 ==> r in s.list && r == s.EndOf(a)
    requires r == 0 ==> forall j :: 0 <= j < |s.list| ==> s.list[j] != s.EndOf(a)
    ensures l == LeftOf(s, a)
    ensures r == if s.IsFree(s.EndOf(a)) then s.EndOf(a) else 0
  {
    var m := LeftOf(s, a);
    if l == 0 {
      assert m in s.list <==> s.IsFree(m);
    } else {
      assert s.Extent(l);
    }
    assert s.EndOf(a) in s.list <==> s.IsFree(s.EndOf(a));
  }

  function RoundDown8(x: int): int {
    x - x % 8
  }

  lemma RoundedDown(x: int)
    ensures RoundDown8(x) % 8 == 0 && RoundDown8(x) <= x
  {
  }

  lemma EightIsPow2()
    ensures IsPow2(8)
  {
    assert Pow2(3) == 8;
  }

  lemma RoundsToEight(base: nat)
    ensures AlignUp64(base, 8) % 8 == 0 && AlignUp64(base, 8) < WORD_LIMIT
  {
    EightIsPow2();
    AlignUp64Rounds(base, 8);
    EightBelow(0, (base + 7) % WORD_LIMIT);
  }

  /** A base is usable exactly when it is neither null nor among the last seven addresses. */
  lemma BaseUsable(base: nat)
    requires base < WORD_LIMIT
    ensures AlignUp64(base, 8) > 0 <==> 0 < base <= WORD_LIMIT - 8
  {
    if base <= WORD_LIMIT - 8 {
      BaseRounds(base);
    } else {
      EightIsPow2();
      WrappedIsNull(base, 8);
    }
  }

  lemma BaseRounds(base: nat)
    requires base <= WORD_LIMIT - 8
    ensures AlignUp64(base, 8) == AlignUp(base, 8)
    ensures base <= AlignUp(base, 8) < base + 8 && AlignUp(base, 8) % 8 == 0
  {
    EightIsPow2();
    AlignUpExact(base, 8);
    AlignUpLeast(base, 8);
  }

  lemma LackOfEight(base: nat, up: nat)
    requires base <= up < base + 8 && up % 8 == 0
    ensures up - base == (8 - base % 8) % 8
  {
  }

  lemma EightCarries(up: nat, size: nat)
    requires up % 8 == 0
    ensures (up + size) % 8 == size % 8
  {
  }

  /**
   * `init` rounds the base up before it adds the size, so the block it installs stays inside the given
   * region exactly when the size has at least as many bytes beyond a multiple of 8 as the base lacks.
   */
  lemma InitStaysInside(base: nat, size: nat)
    requires base <= WORD_LIMIT - 8
    ensures RoundDown8(AlignUp(base, 8) + size) <= base + size <==> size % 8 >= (8 - base % 8) % 8
  {
    BaseRounds(base);
    LackOfEight(base, AlignUp(base, 8));
    EightCarries(AlignUp(base, 8), size);
  }

  /** A region of 48 bytes at address 1, which ends at 49, is accepted, and the heap then ends at 56. */
  method InitCanOverrun() returns (heap: Heap, ok: bool)
    ensures ok && heap.start == 8 && heap.end == 56
  {
    heap := new Heap();
    BaseRounds(1);
    ok := heap.Init(1, 48);
  }

  /** Near the top of the address space the rounded payload address wraps to null. */
  lemma AlignmentCanWrap()
    ensures AlignUp64(WORD_LIMIT - 8, 4096) == 0
  {
    assert (WORD_LIMIT - 8 + 4095) % WORD_LIMIT == 4087;
    assert WORD_LIMIT - 1 - 4095 == Pow2(64) - Pow2(12) by {
      Pow2OfBytes();
      assert Pow2(12) == 4096 by { Pow2Sum(6, 6); assert Pow2(6) == 64; }
    }
    Pow2OfBytes();
    ClearLow(4087, 12);
  }

  /** Below the last `align` addresses nothing wraps, so every request is served as first fit. */
  lemma LowRegionNeverWraps(s: Shape, bytes: nat, align: nat)
    requires s.Inv() && s.Noded() && align >= 1 && s.end + align <= WORD_LIMIT
    ensures NoneWraps(s, 0, bytes, align)
  {
    forall j | 0 <= j < |s.list| ensures !WrapsToNull(s, s.list[j], bytes, align) {
      assert s.Extent(s.list[j]);
    }
  }

  /** One call: the meaning of the heap takes one step, and the words change by the stores a thread would issue. */
  method Perform(heap: Heap, op: Op) returns (ptr: int)
    requires heap.Valid() && Legal(heap.shape, op)
    modifies heap
    ensures heap.Valid() && heap.shape == Step(old(heap.shape), op)
    ensures old(heap.shape).Noded()
    ensures op.AllocOp? ==> ptr == AllocPtr(old(heap.shape), op.size, op.align)
    ensures heap.log == old(heap.log) + LockedHeap.Stores(old(heap.shape), op)
  {
    heap.shape.InvNoded();
    ptr := 0;
    match op
    case AllocOp(size, align) =>
      assert heap.shape.end >= 0;
      LowRegionNeverWraps(heap.shape, Max(size, 1), align);
      ptr := heap.Alloc(size, align);
    case DeallocOp(p) =>
      if IsPayload(heap.shape, 0) { PayloadBounds(heap.shape, 0); }
      heap.Dealloc(p);
  }

  /** Replays a legal history on a heap: what the words mean afterwards is what the history means. */
  method Replay(heap: Heap, ops: seq<Op>)
    requires heap.Valid() && LegalRun(heap.shape, ops)
    modifies heap
    ensures heap.Valid() && heap.shape == Run(old(heap.shape), ops)
  {
    for i := 0 to |ops|
      invariant heap.Valid() && LegalRun(heap.shape, ops[i..])
      invariant Run(heap.shape, ops[i..]) == Run(old(heap.shape), ops)
    {
      assert ops[i..][0] == ops[i] && ops[i..][1..] == ops[i + 1..];
      var _ := Perform(heap, ops[i]);
    }
    assert ops[|ops|..] == [];
  }
}

/** The kernel heap allocator: an address-sorted, doubly linked, coalescing
    free list kept inside the free blocks. */
module KernelHeap {
  import opened FreeList
  import opened HeapLayout
  import opened HeapPieces
  import opened Options

  /** Requests of at least this many bytes try the cached block first. */
  const LARGE_ALLOCATION_THRESHOLD: nat := 65536

  class Heap {
    const heapStart: nat
    const heapEnd: nat
    var mem: Words
    var initialized: bool
    var freeHead: nat
    var largestFree: nat
    ghost var pieces: seq<Piece>

    constructor (heapStart: nat, heapEnd: nat)
      requires 0 < heapStart <= heapEnd < LIMIT && heapEnd % WORD == 0
      ensures this.heapStart == heapStart && this.heapEnd == heapEnd && Valid() && !initialized
    {
      this.heapStart := heapStart;
      this.heapEnd := heapEnd;
      mem := map[];
      initialized := false;
      freeHead := 0;
      largestFree := 0;
      pieces := [];
    }

    /** Where the managed part of the heap begins. */
    ghost function Base(): nat {
      var start := if heapStart % WORD == 0 then heapStart else heapStart - heapStart % WORD + WORD;
      if start + MIN_FREE <= heapEnd then start else heapEnd
    }

    /** Before the first allocation the heap is not yet set up. */
    ghost function Fresh(): seq<Piece> {
      if Base() == heapEnd then [] else if Base() < heapEnd then [Free(Block(Base(), heapEnd - Base()))] else []
    }

    ghost function Current(): seq<Piece>
      reads this
    {
      if initialized then pieces else Fresh()
    }

    /** Free and live blocks tile the heap, no two free blocks touch, the free
        ones are the list, and every live one has its header. */
    ghost predicate Valid()
      reads this
    {
      && 0 < heapStart <= heapEnd < LIMIT && heapEnd % WORD == 0
      && Holds(FreeOf(pieces)) && Known(largestFree, FreeOf(pieces)) && Headed(mem, pieces)
      && if initialized then Tiles(pieces, Base(), heapEnd) && Coalesced(pieces) else pieces == []
    }

    /** The free list starts at `freeHead` and is threaded through memory. */
    ghost predicate Holds(free: seq<Block>)
      reads this`mem, this`freeHead
    {
      freeHead == At(free, 0) && Linked(mem, free) && Ordered(free)
    }

    /** The first of the largest free blocks. */
    method RebuildLargestFree(ghost free: seq<Block>)
      requires Holds(free)
      modifies this`largestFree
      ensures Known(largestFree, free)
      ensures forall k :: 0 <= k < |free| ==> free[k].size <= Word(mem, largestFree)
    {
      hide Ordered;
      var largest, current := 0, freeHead;
      ghost var i: nat := 0;
      while current != 0
        invariant i <= |free| && current == At(free, i)
        invariant if i == 0 then largest == 0 else largest != 0 && exists k :: 0 <= k < i && free[k].start == largest
        invariant forall k :: 0 <= k < i ==> free[k].size <= Word(mem, largest)
        decreases |free| - i
      {
        AtNull(free, i);
        assert LinkedAt(mem, free, i);
        if largest == 0 || Word(mem, current) > Word(mem, largest) {
          largest := current;
        }
        current := Word(mem, current + 8);
        i := i + 1;
      }
      AtNull(free, i);
      largestFree := largest;
    }


    /** The block at `i` of the list, as the code sees it. */
    ghost predicate CurrentBlock(free: seq<Block>, i: nat, current: nat, prev: nat, next: nat)
      reads this`mem, this`freeHead, this`largestFree
    {
      && Holds(free) && Known(largestFree, free) && i < |free|
      && current == At(free, i) && prev == At(free, i - 1) && next == At(free, i + 1)
    }

    /** The list became this one, within the blocks it had and `room`. */
    ghost predicate Became(was: Words, free: seq<Block>, now: seq<Block>)
      reads this`mem, this`freeHead, this`largestFree
    {
      Holds(now) && Known(largestFree, now) && OnlyInside(was, mem, free)
    }

    method ReplaceFreeBlock(prev: nat, replacement: nat)
      modifies this`freeHead, this`mem
      ensures freeHead == if prev == 0 then replacement else old(freeHead)
      ensures forall a: nat :: Word(mem, a) ==
                if replacement != 0 && a == replacement + 16 then prev
                else if prev != 0 && a == prev + 8 then replacement
                else Word(old(mem), a)
    {
      if prev == 0 {
        freeHead := replacement;
      } else {
        mem := mem[prev + 8 := replacement];
      }
      if replacement != 0 {
        mem := mem[replacement + 16 := prev];
      }
    }

    /** Splits off a prefix and a suffix; the middle leaves the list. */
    method KeepBoth(current: nat, next: nat, prefixSize: nat, suffixStart: nat, suffixSize: nat,
                    ghost free: seq<Block>, ghost i: nat, ghost prev: nat)
      requires CurrentBlock(free, i, current, prev, next)
      requires WellFormed(Free(Block(current, prefixSize))) && WellFormed(Free(Block(suffixStart, suffixSize)))
      requires current + prefixSize <= suffixStart && suffixStart + suffixSize == free[i].End()
      modifies this`mem, this`largestFree
      ensures Became(old(mem), free, Splice(free, i, 1, [Block(current, prefixSize), Block(suffixStart, suffixSize)]))
    {
      hide Linked, Ordered, OnlyInside, Known, WellFormed, Splice, Between, Word, Rewired, Entered, NewLinks;
      var wasLargest := current == largestFree;
      ghost var news := [Block(current, prefixSize), Block(suffixStart, suffixSize)];
      CurrentFacts(mem, free, i);
      mem := mem[current := prefixSize];
      mem := mem[suffixStart := suffixSize];
      mem := mem[suffixStart + 16 := current];
      mem := mem[suffixStart + 8 := next];
      mem := mem[current + 8 := suffixStart];
      if next != 0 {
        mem := mem[next + 16 := suffixStart];
      }
      if wasLargest {
        largestFree := if Word(mem, suffixStart) > Word(mem, current) then suffixStart else current;
      }
      BothChain(old(mem), mem, next, news[0], news[1]);
      BothWords(old(mem), mem, free, i, news[0], news[1]);
      Carried(old(mem), mem, free, i, news);
      SpliceKnown(old(largestFree), largestFree, free, i, 1, news);
      AtSplice(free, i, 1, news, 0);
    }

    /** The block shrinks to its prefix. */
    method KeepPrefix(current: nat, next: nat, prefixSize: nat, ghost free: seq<Block>, ghost i: nat, ghost prev: nat)
      requires CurrentBlock(free, i, current, prev, next)
      requires WellFormed(Free(Block(current, prefixSize))) && prefixSize <= free[i].size
      modifies this`mem, this`largestFree
      ensures Became(old(mem), free, Splice(free, i, 1, [Block(current, prefixSize)]))
    {
      hide Linked, Ordered, OnlyInside, Known, WellFormed, Splice, Between, Word, Rewired, Entered, NewLinks;
      var wasLargest := current == largestFree;
      ghost var news := [Block(current, prefixSize)];
      CurrentFacts(mem, free, i);
      mem := mem[current := prefixSize];
      mem := mem[current + 8 := next];
      if next != 0 {
        mem := mem[next + 16 := current];
      }
      PrefixWords(old(mem), mem, free, i, news[0]);
      Carried(old(mem), mem, free, i, news);
      AtSplice(free, i, 1, news, 0);
      if wasLargest {
        RebuildLargestFree(Splice(free, i, 1, news));
      } else {
        SpliceKnown(old(largestFree), largestFree, free, i, 1, news);
      }
    }

    /** The suffix takes the place of the block. */
    method KeepSuffix(current: nat, prev: nat, next: nat, suffixStart: nat, suffixSize: nat, ghost free: seq<Block>,
                      ghost i: nat)
      requires CurrentBlock(free, i, current, prev, next)
      requires WellFormed(Free(Block(suffixStart, suffixSize))) && current <= suffixStart
               && suffixStart + suffixSize == free[i].End()
      modifies this`mem, this`freeHead, this`largestFree
      ensures Became(old(mem), free, Splice(free, i, 1, [Block(suffixStart, suffixSize)]))
    {
      hide Linked, Ordered, OnlyInside, Known, WellFormed, Splice, Between, Rewired, Entered, NewLinks, Word;
      var wasLargest := current == largestFree;
      ghost var news := [Block(suffixStart, suffixSize)];
      CurrentFacts(mem, free, i);
      Sizes(news[0]);
      mem := mem[suffixStart := suffixSize];
      mem := mem[suffixStart + 8 := next];
      mem := mem[suffixStart + 16 := prev];
      ghost var inner := mem;
      ReplaceFreeBlock(prev, suffixStart);
      ghost var linked := mem;
      if next != 0 {
        mem := mem[next + 16 := suffixStart];
      }
      if wasLargest {
        largestFree := suffixStart;
      }
      SuffixChain(old(mem), inner, linked, mem, prev, next, news[0]);
      SuffixWords(old(mem), mem, free, i, news[0]);
      Carried(old(mem), mem, free, i, news);
      AtSplice(free, i, 1, news, 0);
      SpliceKnown(old(largestFree), largestFree, free, i, 1, news);
    }

    /** The whole block leaves the list. */
    method KeepNothing(current: nat, prev: nat, next: nat, ghost free: seq<Block>, ghost i: nat)
      requires CurrentBlock(free, i, current, prev, next)
      modifies this`mem, this`freeHead, this`largestFree
      ensures Became(old(mem), free, Splice(free, i, 1, []))
    {
      hide Linked, Ordered, OnlyInside, Known, WellFormed, Splice, Between, Rewired, Entered, NewLinks;
      var wasLargest := current == largestFree;
      CurrentFacts(mem, free, i);
      ReplaceFreeBlock(prev, next);
      NothingWords(old(mem), mem, free, i);
      Carried(old(mem), mem, free, i, []);
      AtSplice(free, i, 1, [], 0);
      if wasLargest {
        RebuildLargestFree(Splice(free, i, 1, []));
      } else {
        SpliceKnown(old(largestFree), largestFree, free, i, 1, []);
      }
    }

    /** Takes the carved blocks out of the list and writes the header. */
    method CarveBlock(current: nat, payload: nat, suffixStart: nat, ghost free: seq<Block>, ghost i: nat)
      requires Holds(free) && Known(largestFree, free) && i < |free| && current == free[i].start
               && Carvable(free[i], payload, suffixStart)
      modifies this`mem, this`freeHead, this`largestFree
      ensures var c := Carve(free[i], payload, suffixStart);
              && Became(old(mem), free, Splice(free, i, 1, c.prefix + c.suffix))
              && Word(mem, payload - HEADER) == c.live.block.start
                && Word(mem, payload - HEADER + 8) == c.live.block.size
    {
      hide Linked, Ordered, OnlyInside, Known, WellFormed, Splice, Word;
      CurrentFacts(mem, free, i);
      var headerAddr, blockEnd := payload - HEADER, current + Word(mem, current);
      var prev, next := Word(mem, current + 16), Word(mem, current + 8);
      var prefixSize, suffixSize := headerAddr - current, blockEnd - suffixStart;
      var hasPrefix, hasSuffix := prefixSize >= MIN_FREE, suffixSize >= MIN_FREE;
      var allocStart := if hasPrefix then headerAddr else current;
      var allocSize := if hasSuffix then suffixStart - allocStart else blockEnd - allocStart;
      ghost var c := Carve(free[i], payload, suffixStart);
      CarveShape(free[i], payload, suffixStart);
      ghost var news := c.prefix + c.suffix;
      if hasPrefix {
        if hasSuffix {
          assert news == [Block(current, prefixSize), Block(suffixStart, suffixSize)];
          assert WellFormed(Free(c.prefix[0])) && WellFormed(Free(c.suffix[0]));
          KeepBoth(current, next, prefixSize, suffixStart, suffixSize, free, i, prev);
        } else {
          assert news == [Block(current, prefixSize)];
          assert WellFormed(Free(c.prefix[0]));
          KeepPrefix(current, next, prefixSize, free, i, prev);
        }
      } else if hasSuffix {
        assert news == [Block(suffixStart, suffixSize)];
        assert WellFormed(Free(c.suffix[0]));
        KeepSuffix(current, prev, next, suffixStart, suffixSize, free, i);
      } else {
        assert news == [];
        KeepNothing(current, prev, next, free, i);
      }
      ghost var carved := mem;
      mem := mem[headerAddr := allocStart];
      mem := mem[headerAddr + 8 := allocSize];
      HeaderKeeps(old(mem), carved, mem, free, i, payload, suffixStart, allocStart, allocSize);
    }

    /** Carves an allocation out of one block of the list, or leaves
        everything as it is if the block cannot hold it. */
    method AllocFromKnownBlock(current: nat, size: nat, align: nat, ghost free: seq<Block>, ghost i: nat)
      returns (payload: nat)
      requires Holds(free) && Known(largestFree, free) && i < |free| && current == free[i].start
      modifies this`mem, this`freeHead, this`largestFree
      ensures payload != 0 <==> Fits(free[i], size, align)
      ensures payload == 0 ==> mem == old(mem) && freeHead == old(freeHead) && largestFree == old(largestFree)
      ensures payload != 0 ==>
                && LeastRoom(free[i], size, align, payload)
                  && Carvable(free[i], payload, SuffixStart(payload, size))
                && var c := Carve(free[i], payload, SuffixStart(payload, size));
                && Became(old(mem), free, Splice(free, i, 1, c.prefix + c.suffix))
                && Word(mem, payload - HEADER) == c.live.block.start
                  && Word(mem, payload - HEADER + 8) == c.live.block.size
    {
      hide Linked, Ordered, OnlyInside, Known, WellFormed, Splice, AlignUp, Word, Carve, Fits, LeastRoom;
      PayloadIff(free[i], size, align);
      var requestSize, requestAlign := RequestSize(size), RequestAlign(align);
      CurrentFacts(mem, free, i);
      var blockEnd := current + Word(mem, current);
      if blockEnd >= LIMIT {
        return 0;
      }
      var aligned := AlignUp(current + HEADER, requestAlign);
      if aligned.None? {
        return 0;
      }
      var allocEnd := aligned.value + requestSize;
      if allocEnd >= LIMIT || allocEnd > blockEnd {
        return 0;
      }
      PayloadFits(free[i], size, align);
      // The block ends on a word boundary, so rounding up stays inside it.
      var suffixStart := AlignUp(allocEnd, WORD).value;
      CarveBlock(current, aligned.value, suffixStart, free, i);
      payload := aligned.value;
    }

    /** Where the cached pointer points. */
    ghost method CachedIndex(free: seq<Block>) returns (k: nat)
      requires Known(largestFree, free) && free != []
      ensures k < |free| && free[k].start == largestFree
    {
      k :| k < |free| && free[k].start == largestFree;
    }

    /** The block the cache or the first fit gives, or null if no block fits. */
    method SearchFreeList(size: nat, align: nat, ghost free: seq<Block>) returns (payload: nat, ghost i: nat)
      requires Holds(free) && Known(largestFree, free)
      modifies this`mem, this`freeHead, this`largestFree
      ensures payload != 0 <==> exists k :: 0 <= k < |free| && Fits(free[k], size, align)
      ensures payload == 0 ==> mem == old(mem) && freeHead == old(freeHead) && largestFree == old(largestFree)
      ensures payload != 0 ==>
                && i < |free| && Fits(free[i], size, align) && LeastRoom(free[i], size, align, payload)
                && Carvable(free[i], payload, SuffixStart(payload, size))
                && var c := Carve(free[i], payload, SuffixStart(payload, size));
                && Became(old(mem), free, Splice(free, i, 1, c.prefix + c.suffix))
                && Word(mem, payload - HEADER) == c.live.block.start
                  && Word(mem, payload - HEADER + 8) == c.live.block.size
      ensures payload != 0 ==> Chosen(free, i, size, align, old(largestFree))
    {
      hide Linked, Ordered, OnlyInside, Known, Splice, Word, Carve, Carvable, SuffixStart, Fits, LeastRoom;
      i := 0;
      AtNull(free, 0);
      KnownNull(largestFree, free);
      if size >= LARGE_ALLOCATION_THRESHOLD && largestFree != 0 {
        i := CachedIndex(free);
        ShortcutAt(free, i, size, align);
        payload := AllocFromKnownBlock(largestFree, size, align, free, i);
        if payload != 0 {
          return;
        }
      }
      var current := freeHead;
      i := 0;
      while current != 0
        invariant i <= |free| && current == At(free, i)
        invariant mem == old(mem) && freeHead == old(freeHead) && largestFree == old(largestFree)
        invariant forall k :: 0 <= k < i ==> !Fits(free[k], size, align)
        invariant !Shortcut(free, size, align, largestFree)
        decreases |free| - i
      {
        AtNull(free, i);
        payload := AllocFromKnownBlock(current, size, align, free, i);
        if payload != 0 {
          return;
        }
        CurrentFacts(mem, free, i);
        current := Word(mem, current + 8);
        i := i + 1;
      }
      AtNull(free, i);
      payload := 0;
    }

    /** A new block between two blocks of the list. */
    method LinkBetween(start: nat, size: nat, prev: nat, current: nat, ghost free: seq<Block>, ghost i: nat)
      requires Holds(free) && i <= |free| && prev == At(free, i - 1) && current == At(free, i)
      requires WellFormed(Free(Block(start, size))) && Between(free, i, 0, Block(start, size))
      modifies this`mem, this`freeHead
      ensures Holds(Splice(free, i, 0, [Block(start, size)])) && OnlyInside(old(mem), mem, free + [Block(start, size)])
    {
      hide Linked, Ordered, OnlyInside, Splice, WellFormed, Word;
      ghost var b := Block(start, size);
      AtNull(free, i - 1);
      AtNull(free, i);
      mem := mem[start := size];
      mem := mem[start + 8 := current];
      mem := mem[start + 16 := prev];
      ghost var inner := mem;
      if prev == 0 {
        freeHead := start;
      } else {
        mem := mem[prev + 8 := start];
      }
      ghost var entered := mem;
      if current != 0 {
        mem := mem[current + 16 := start];
      }
      LinkChain(old(mem), inner, entered, mem, prev, current, b);
      LinkWords(old(mem), mem, free, i, b);
      AtSplice(free, i, 0, [b], 0);
    }

    /** A block of the list swallows the next one, which it touches. */
    method AbsorbNext(block: nat, next: nat, ghost list: seq<Block>, ghost i: nat)
      requires Holds(list) && i + 1 < |list| && block == list[i].start && next == list[i + 1].start == list[i].End()
      modifies this`mem
      ensures Holds(Splice(list, i, 2, [Block(block, list[i].size + list[i + 1].size)]))
              && OnlyInside(old(mem), mem, list)
      ensures forall a: nat :: a != block && a != block + 8 && a != At(list, i + 2) + 16 ==>
              Word(mem, a) == Word(old(mem), a)
    {
      hide Linked, Ordered, OnlyInside, Splice, WellFormed, Word;
      ghost var b := Block(block, list[i].size + list[i + 1].size);
      CurrentFacts(mem, list, i);
      CurrentFacts(mem, list, i + 1);
      mem := mem[block := Word(mem, block) + Word(mem, next)];
      ghost var sized := mem;
      WordPut(old(mem), sized, block, b.size);
      mem := mem[block + 8 := Word(mem, next + 8)];
      ghost var linked := mem;
      WordPut(sized, linked, block + 8, At(list, i + 2));
      if Word(mem, block + 8) != 0 {
        mem := mem[Word(mem, block + 8) + 16 := block];
        WordPut(linked, mem, At(list, i + 2) + 16, block);
      }
      AbsorbWords(old(mem), mem, list, i, b);
      AtSplice(list, i, 2, [b], 0);
    }

    /** Why a block is not taken back. */
    ghost predicate Rejected(free: seq<Block>, b: Block) {
      b.size < MIN_FREE || b.End() >= LIMIT || b.start < heapStart || b.End() > heapEnd || Overlaps(free, b)
    }

    /** The place of an address in the list: behind all blocks that start below it. */
    method FindPlace(start: nat, ghost free: seq<Block>) returns (prev: nat, current: nat, ghost i: nat)
      requires Holds(free)
      ensures Place(free, start, i) && prev == At(free, i - 1) && current == At(free, i)
      ensures (prev != 0 ==> prev < start) && (current != 0 ==> start <= current)
    {
      hide Linked, Ordered, Word;
      prev, current := 0, freeHead;
      i := 0;
      AtNull(free, 0);
      while current != 0 && current < start
        invariant i <= |free| && prev == At(free, i - 1) && current == At(free, i)
        invariant forall k :: 0 <= k < i ==> free[k].start < start
        decreases |free| - i
      {
        AtNull(free, i);
        CurrentFacts(mem, free, i);
        prev := current;
        current := Word(mem, current + 8);
        i := i + 1;
      }
      AtNull(free, i);
      PlaceFound(free, start, i);
    }

    /** Joins the block with the next one if they touch. */
    method JoinAt(block: nat, next: nat, ghost list: seq<Block>, ghost i: nat)
      requires Holds(list) && i < |list| && block == list[i].start && next == At(list, i + 1)
      modifies this`mem
      ensures Holds(JoinNext(list, i)) && OnlyInside(old(mem), mem, list) && JoinWritten(old(mem), mem, list, i)
    {
      hide Linked, Ordered, OnlyInside, Splice, Word;
      CurrentFacts(mem, list, i);
      OnlyInsideSame(mem, list);
      if next != 0 && block + Word(mem, block) == next {
        AbsorbNext(block, next, list, i);
      }
    }

    /** The rest of `InsertFreeBlock`, once the block is in the list. */
    method JoinNeighbours(start: nat, size: nat, prev: nat, current: nat, ghost free: seq<Block>, ghost i: nat)
      requires i <= |free| && Ordered(free) && Between(free, i, 0, Block(start, size)) && Known(largestFree, free)
      requires Holds(Splice(free, i, 0, [Block(start, size)])) && prev == At(free, i - 1) && current == At(free, i)
      requires WellFormed(Free(Block(start, size)))
      modifies this`mem, this`largestFree
      ensures Holds(Merged(free, i, Block(start, size))) && Known(largestFree, Merged(free, i, Block(start, size)))
      ensures OnlyInside(old(mem), mem, free + [Block(start, size)])
    {
      hide Linked, Ordered, OnlyInside, Splice, Word, Known, Between, JoinNext, Tracked, JoinWritten;
      ghost var b := Block(start, size);
      ghost var first, was := Splice(free, i, 0, [b]), mem;
      AtNull(free, i - 1);
      InsertedFacts(free, i, b, largestFree);
      JoinAt(start, current, first, i);
      ghost var second, inner, r := JoinNext(first, i), mem, i;
      JoinedFacts(first, i);
      TrackFirst(was, inner, first, i, largestFree);
      InsideFirst(was, inner, free, i, b);
      if prev != 0 {
        JoinAt(prev, start, second, i - 1);
        r := TrackSecond(inner, mem, second, i, largestFree);
        InsideSecond(was, inner, mem, free, i, b);
      }
      ghost var third := Merged(free, i, b);
      ResultFacts(mem, free, i, b, r);
      var result := if prev != 0 && prev + Word(mem, prev) >= start + size then prev else start;
      if largestFree == 0 || Word(mem, result) > Word(mem, largestFree) {
        largestFree := result;
      }
      TrackedKnown(mem, third, r, old(largestFree), result, largestFree);
    }

    /** Puts a block back into the list and joins it with the blocks it
        touches. A block that is too small, outside the heap or overlapping a
        free block is ignored. */
    method InsertFreeBlock(start: nat, size: nat, ghost free: seq<Block>) returns (ghost i: nat)
      requires Holds(free) && Sorted(free) && Known(largestFree, free) && heapStart > 0 && start % WORD == 0
               && size % WORD == 0
      modifies this`mem, this`freeHead, this`largestFree
      ensures Place(free, start, i)
      ensures Rejected(free, Block(start, size)) ==>
              mem == old(mem) && freeHead == old(freeHead) && largestFree == old(largestFree)
      ensures !Rejected(free, Block(start, size)) ==>
                Became(old(mem), free + [Block(start, size)], Merged(free, i, Block(start, size)))
    {
      hide Linked, Ordered, OnlyInside, Splice, Word, Known, Overlaps, Between, Place;
      ghost var b := Block(start, size);
      var prev, current;
      prev, current, i := FindPlace(start, free);
      if size < MIN_FREE {
        return;
      }
      var blockEnd := start + size;
      if blockEnd >= LIMIT {
        return;
      }
      if start < heapStart || blockEnd > heapEnd {
        return;
      }
      PlaceOverlap(mem, free, i, b);
      if prev != 0 {
        var prevEnd := if prev + Word(mem, prev) >= LIMIT then LIMIT - 1 else prev + Word(mem, prev);
        if prevEnd > start {
          return;
        }
      }
      if current != 0 {
        if blockEnd > current {
          return;
        }
      }
      LinkBetween(start, size, prev, current, free, i);
      ghost var linked := mem;
      JoinNeighbours(start, size, prev, current, free, i);
      InsideTrans(old(mem), linked, mem, free + [b]);
    }

    /** Sets up the heap as one free block, if it has room for one. */
    method InitKernelAllocator()
      requires Valid() && !initialized
      modifies this
      ensures Valid() && initialized && pieces == old(Current()) && OnlyInside(old(mem), mem, FreeOf(pieces))
    {
      hide AlignUp, Linked, Ordered, Known, Tiles, Coalesced, Headed, WellFormed, Word, OnlyInside, FreeOf;
      NoneFree(mem, heapEnd);
      OnlyInsideSame(mem, []);
      BaseFacts();
      hide Base;
      var blockStart := AlignUp(heapStart, WORD).value;
      if blockStart + MIN_FREE > heapEnd {
        initialized, freeHead, largestFree := true, 0, 0;
        return;
      }
      ghost var b := Block(blockStart, heapEnd - blockStart);
      mem := mem[blockStart := heapEnd - blockStart];
      mem := mem[blockStart + 8 := 0];
      mem := mem[blockStart + 16 := 0];
      RecordInside(old(mem), mem, b);
      initialized, freeHead, largestFree := true, blockStart, blockStart;
      pieces := [Free(Block(blockStart, heapEnd - blockStart))];
      OneFree(mem, b);
    }

    lemma BaseFacts()
      requires 0 < heapStart <= heapEnd < LIMIT && heapEnd % WORD == 0
      ensures var start := AlignUp(heapStart, WORD);
              && start.Some? && start.value > 0
              && (start.value + MIN_FREE > heapEnd ==> Base() == heapEnd)
              && (start.value + MIN_FREE <= heapEnd ==>
                Base() == start.value && WellFormed(Free(Block(start.value, heapEnd - start.value))))
    {
      RoundWord(heapStart);
      WordSum(AlignUp(heapStart, WORD).value, heapEnd);
    }

    /** Allocates. Null means that no free block can hold the request; and
        nothing but the chosen block changes. A small request takes the first
        that can. */
    method Alloc(size: nat, align: nat) returns (payload: nat, ghost j: nat)
      requires Valid()
      modifies this
      ensures Valid() && initialized
      ensures payload != 0 <==> exists p :: p in old(Current()) && p.Free? && Fits(p.block, size, align)
      ensures payload == 0 ==> pieces == old(Current())
      ensures payload != 0 ==> Took(old(Current()), j, payload, size, align, pieces)
      ensures payload != 0 && PowerOfTwo(align) ==> payload % align == 0
      ensures payload != 0 && size < LARGE_ALLOCATION_THRESHOLD ==> NoneFits(old(Current())[..j], size, align)
      ensures OnlyInside(old(mem), mem, FreeOf(old(Current())))
    {
      hide Holds, Known, Tiles, Coalesced, Headed, Carve, WellFormed, SuffixStart, Fits, LeastRoom, Splice, OnlyInside,
        FreeOf, Replaced;
      j := 0;
      OnlyInsideSame(mem, FreeOf(pieces));
      if !initialized {
        InitKernelAllocator();
      }
      ghost var before, free, was := pieces, FreeOf(pieces), mem;
      OnlyInsideSame(mem, free);
      ghost var i;
      payload, i := SearchFreeList(size, align, free);
      FitsSomewhere(before, size, align);
      if payload == 0 {
        InsideTrans(old(mem), was, mem, free);
        return;
      }
      j := FreeAt(before, i);
      FitsSomewhere(before[..j], size, align);
      RoomAligned(free[i], size, align, payload);
      ghost var c := Carve(free[i], payload, SuffixStart(payload, size));
      pieces := Replaced(before, j, Carved(c));
      CarveTiles(free[i], payload, SuffixStart(payload, size));
      CarvedValid(was, mem, before, j, payload, SuffixStart(payload, size), Base(), heapEnd);
      InsideTrans(old(mem), was, mem, free);
    }

    /** Takes back a live block: it joins the free blocks it touches, and every
        other live block stays. Null is ignored. */
    method Dealloc(ptr: nat, ghost j: nat)
      requires Valid() && (ptr != 0 ==> initialized && j < |pieces| && pieces[j].Live? && pieces[j].payload == ptr)
      modifies this
      ensures Valid() && initialized == old(initialized)
      ensures pieces == if ptr == 0 then old(pieces) else Released(old(pieces), j)
      ensures if ptr == 0 then mem == old(mem)
              else OnlyInside(old(mem), mem, FreeOf(old(pieces)) + [old(pieces)[j].block])
    {
      hide Holds, Known, Tiles, Coalesced, WellFormed, OnlyInside, FreeOf, Merged, Released, Overlaps, Place, Splice;
      if ptr == 0 {
        return;
      }
      ghost var before, free, b := pieces, FreeOf(pieces), pieces[j].block;
      assert HeaderAt(mem, pieces[j]);
      var start, size := Word(mem, ptr - HEADER), Word(mem, ptr - HEADER + 8);
      TilesAt(pieces, Base(), heapEnd, j);
      BlockFacts(pieces[j]);
      FreeSorted(pieces, Base(), heapEnd);
      ReleasedFree(pieces, j, Base(), heapEnd);
      ghost var i := InsertFreeBlock(start, size, free);
      PlaceUnique(free, b.start, i, |FreeOf(before[..j])|);
      ReleasedTiles(before, j, Base(), heapEnd);
      ReleasedCoalesced(before, j);
      ReleasedHeaded(old(mem), mem, before, j, Base(), heapEnd);
      pieces := Released(before, j);
    }

    /** The owner of a live block writes to its payload. */
    method Store(ptr: nat, address: nat, value: nat, ghost j: nat)
      requires Valid() && initialized && j < |pieces| && pieces[j].Live? && pieces[j].payload == ptr
      requires ptr <= address && address + WORD <= pieces[j].block.End() && address % WORD == 0
      modifies this`mem
      ensures Valid() && mem == old(mem)[address := value]
    {
      hide Known, Tiles, Coalesced;
      mem := mem[address := value];
      StoreKeeps(old(mem), mem, pieces, j, address, value, Base(), heapEnd);
    }

    /** Allocating and freeing again leaves the heap as it was, block for block. */
    method AllocDealloc(size: nat, align: nat)
      requires Valid()
      modifies this
      ensures Valid() && pieces == old(Current())
    {
      hide Holds, Known, Tiles, Coalesced, Headed, Carve, SuffixStart, LeastRoom, OnlyInside, FreeOf, Replaced,
        Released, WellFormed;
      ghost var j;
      var payload;
      payload, j := Alloc(size, align);
      ghost var k := 0;
      if payload != 0 {
        ghost var before := old(Current());
        ghost var c := Carve(before[j].block, payload, SuffixStart(payload, size));
        CurrentTiles(old(initialized), old(pieces));
        CarveTiles(before[j].block, payload, SuffixStart(payload, size));
        LiveIsNew(before, j, c, Base(), heapEnd);
        AllocThenFree(before, j, c, Base(), heapEnd);
        k := j + |c.prefix|;
        ReplacedAt(before, j, c);
      }
      Dealloc(payload, k);
    }

    lemma CurrentTiles(ready: bool, pieces: seq<Piece>)
      requires 0 < heapStart <= heapEnd < LIMIT && heapEnd % WORD == 0
      requires ready ==> Tiles(pieces, Base(), heapEnd) && Coalesced(pieces)
      ensures var now := if ready then pieces else Fresh(); Tiles(now, Base(), heapEnd) && Coalesced(now)
    {
      if !ready && Fresh() != [] {
        WordSum(Base(), heapEnd);
        TilesOne(Block(Base(), heapEnd - Base()));
      }
    }
  }

  lemma BlockFacts(p: Piece)
    requires WellFormed(p)
    ensures p.block.size >= MIN_FREE && p.block.start % WORD == 0 && p.block.size % WORD == 0
    ensures p.Live? ==> p.payload >= HEADER && p.payload != 0
  {}

  lemma PlaceUnique(free: seq<Block>, start: nat, i: nat, k: nat)
    requires Place(free, start, i) && Place(free, start, k)
    ensures i == k
  {
    assert (i < |free| ==> start <= free[i].start) && (k < |free| ==> start <= free[k].start);
  }

  lemma ReplacedAt(pieces: seq<Piece>, j: nat, c: Carving)
    requires j < |pieces|
    ensures j + |c.prefix| < |Replaced(pieces, j, Carved(c))|
            && Replaced(pieces, j, Carved(c))[j + |c.prefix|] == c.live
  {}

  /** A carved live block lies where a free one was. */
  lemma LiveIsNew(pieces: seq<Piece>, j: nat, c: Carving, lo: nat, hi: nat)
    requires Tiles(pieces, lo, hi) && j < |pieces| && pieces[j].Free? && c.live.Live? && |c.prefix| <= 1
             && |c.suffix| <= 1
    requires Tiles(Carved(c), pieces[j].block.start, pieces[j].block.End())
    ensures c.live !in pieces
  {
    hide Tiles;
    assert Carved(c)[|c.prefix|] == c.live;
    TilesAt(Carved(c), pieces[j].block.start, pieces[j].block.End(), |c.prefix|);
    if c.live in pieces {
      var k :| 0 <= k < |pieces| && pieces[k] == c.live;
      if k < j { TilesOrdered(pieces, lo, hi, k, j); } else { TilesOrdered(pieces, lo, hi, j, k); }
    }
  }

  /** Writing inside free blocks and one live block leaves the other headers alone. */
  lemma ReleasedHeaded(was: Words, now: Words, pieces: seq<Piece>, j: nat, lo: nat, hi: nat)
    requires Tiles(pieces, lo, hi) && Headed(was, pieces) && j < |pieces| && pieces[j].Live?
    requires OnlyInside(was, now, FreeOf(pieces) + [pieces[j].block])
    ensures Headed(now, Released(pieces, j))
  {
    hide Tiles, OnlyInside, HeaderAt, Grown;
    var after := Released(pieces, j);
    var x, y := if Left(pieces, j) then j - 1 else j, if Right(pieces, j) then j + 2 else j + 1;
    forall k | 0 <= k < |after| && after[k].Live? ensures HeaderAt(now, after[k]) {
      var l := if k < x then k else k - x - 1 + y;
      assert after[k] == pieces[l] && l != j;
      OtherHeaderKept(was, now, pieces, j, lo, hi, l);
    }
  }

  lemma OtherHeaderKept(was: Words, now: Words, pieces: seq<Piece>, j: nat, lo: nat, hi: nat, k: nat)
    requires Tiles(pieces, lo, hi) && j < |pieces| && k < |pieces| && k != j && pieces[k].Live?
             && HeaderAt(was, pieces[k])
    requires OnlyInside(was, now, FreeOf(pieces) + [pieces[j].block])
    ensures HeaderAt(now, pieces[k])
  {
    hide Tiles, Word;
    TilesAt(pieces, lo, hi, k);
    if j < k { TilesOrdered(pieces, lo, hi, j, k); } else { TilesOrdered(pieces, lo, hi, k, j); }
    LiveOutside(pieces, lo, hi, k, pieces[k].payload - HEADER);
    LiveOutside(pieces, lo, hi, k, pieces[k].payload - HEADER + 8);
  }

  /** A write to a payload touches neither the list nor a header. */
  lemma StoreKeeps(was: Words, now: Words, pieces: seq<Piece>, j: nat, address: nat, value: nat, lo: nat, hi: nat)
    requires Tiles(pieces, lo, hi) && j < |pieces| && pieces[j].Live? && now == was[address := value]
             && address % WORD == 0
    requires pieces[j].payload <= address && address + WORD <= pieces[j].block.End()
    requires Headed(was, pieces) && Linked(was, FreeOf(pieces)) && Ordered(FreeOf(pieces))
    ensures Headed(now, pieces) && Linked(now, FreeOf(pieces))
  {
    hide Tiles, Word, Ordered;
    WordPut(was, now, address, value);
    TilesAt(pieces, lo, hi, j);
    forall k | 0 <= k < |pieces| && pieces[k].Live? ensures HeaderAt(now, pieces[k]) {
      TilesAt(pieces, lo, hi, k);
      assert HeaderAt(was, pieces[k]);
      if k < j { TilesOrdered(pieces, lo, hi, k, j); } else if j < k { TilesOrdered(pieces, lo, hi, j, k); }
    }
    LiveOutside(pieces, lo, hi, j, address);
    var free := FreeOf(pieces);
    forall k | 0 <= k < |free| ensures LinkedAt(now, free, k) {
      assert LinkedAt(was, free, k);
      SizeAt(free, k);
    }
  }

  /** The request is large and fits the cached block. */
  ghost predicate Shortcut(free: seq<Block>, size: nat, align: nat, largest: nat) {
    && size >= LARGE_ALLOCATION_THRESHOLD
    && exists k :: 0 <= k < |free| && free[k].start == largest && Fits(free[k], size, align)
  }

  /** The cached block where the shortcut applies, else the first block that
      fits. */
  ghost predicate Chosen(free: seq<Block>, i: nat, size: nat, align: nat, largest: nat)
    requires i < |free|
  {
    if Shortcut(free, size, align, largest) then free[i].start == largest
    else forall k :: 0 <= k < i ==> !Fits(free[k], size, align)
  }

  /** One block of the list has a given address. */
  lemma ShortcutAt(free: seq<Block>, i: nat, size: nat, align: nat)
    requires Ordered(free) && i < |free|
    ensures Shortcut(free, size, align, free[i].start) <==>
            size >= LARGE_ALLOCATION_THRESHOLD && Fits(free[i], size, align)
  {
    hide Fits;
  }

  /** Some piece is free and fits exactly when some block of the list does. */
  lemma FitsSomewhere(pieces: seq<Piece>, size: nat, align: nat)
    ensures (exists k :: 0 <= k < |FreeOf(pieces)| && Fits(FreeOf(pieces)[k], size, align))
            <==> exists p :: p in pieces && p.Free? && Fits(p.block, size, align)
  {
    hide Fits;
    if k :| 0 <= k < |FreeOf(pieces)| && Fits(FreeOf(pieces)[k], size, align) {
      var j := FreeAt(pieces, k);
      assert pieces[j] in pieces;
    }
    if p :| p in pieces && p.Free? && Fits(p.block, size, align) {
      var j :| 0 <= j < |pieces| && pieces[j] == p;
      ReplacedFree(pieces, j, []);
    }
  }

  ghost predicate NoneFits(pieces: seq<Piece>, size: nat, align: nat) {
    forall p :: p in pieces && p.Free? ==> !Fits(p.block, size, align)
  }

  /** The request was carved out of free piece `j`. */
  ghost predicate Took(before: seq<Piece>, j: nat, payload: nat, size: nat, align: nat, after: seq<Piece>) {
    && j < |before| && before[j].Free? && LeastRoom(before[j].block, size, align, payload)
    && Carvable(before[j].block, payload, SuffixStart(payload, size))
    && after == Replaced(before, j, Carved(Carve(before[j].block, payload, SuffixStart(payload, size))))
  }

  /** A live block keeps clear of the free ones. */
  lemma LiveOutside(pieces: seq<Piece>, lo: nat, hi: nat, k: nat, a: nat)
    requires Tiles(pieces, lo, hi) && k < |pieces| && pieces[k].Live?
             && pieces[k].block.start <= a < pieces[k].block.End()
    ensures Outside(FreeOf(pieces), a)
  {
    hide Tiles;
    var free := FreeOf(pieces);
    forall i | 0 <= i < |free| ensures !(free[i].start <= a < free[i].End()) {
      var j := FreeAt(pieces, i);
      if j < k { TilesOrdered(pieces, lo, hi, j, k); } else { TilesOrdered(pieces, lo, hi, k, j); }
    }
  }

  /** Writing inside free blocks leaves every header alone. */
  lemma HeaderKept(was: Words, now: Words, pieces: seq<Piece>, lo: nat, hi: nat, k: nat)
    requires Tiles(pieces, lo, hi) && k < |pieces| && pieces[k].Live? && HeaderAt(was, pieces[k])
    requires OnlyInside(was, now, FreeOf(pieces))
    ensures HeaderAt(now, pieces[k])
  {
    hide Tiles, Word, Outside;
    TilesAt(pieces, lo, hi, k);
    LiveOutside(pieces, lo, hi, k, pieces[k].payload - HEADER);
    LiveOutside(pieces, lo, hi, k, pieces[k].payload - HEADER + 8);
  }

  lemma CarvedHeaded(was: Words, now: Words, pieces: seq<Piece>, j: nat, c: Carving, lo: nat, hi: nat)
    requires Tiles(pieces, lo, hi) && Headed(was, pieces) && OnlyInside(was, now, FreeOf(pieces))
    requires j < |pieces| && c.live.Live? && HeaderAt(now, c.live) && |c.prefix| <= 1 && |c.suffix| <= 1
    ensures Headed(now, Replaced(pieces, j, Carved(c)))
  {
    hide Tiles, OnlyInside, HeaderAt;
    var after, n := Replaced(pieces, j, Carved(c)), |Carved(c)|;
    forall k | 0 <= k < |after| && after[k].Live? ensures HeaderAt(now, after[k]) {
      if k < j {
        assert after[k] == pieces[k];
        HeaderKept(was, now, pieces, lo, hi, k);
      } else if k < j + n {
        assert after[k] == Carved(c)[k - j];
        assert after[k] == c.live;
      } else {
        assert after[k] == pieces[k - n + 1];
        HeaderKept(was, now, pieces, lo, hi, k - n + 1);
      }
    }
  }

  /** All that an allocation has to keep. */
  lemma CarvedValid(was: Words, now: Words, pieces: seq<Piece>, j: nat, payload: nat, suffix: nat, lo: nat, hi: nat)
    requires Tiles(pieces, lo, hi) && Coalesced(pieces) && Headed(was, pieces) && j < |pieces| && pieces[j].Free?
    requires Carvable(pieces[j].block, payload, suffix) && OnlyInside(was, now, FreeOf(pieces))
    requires HeaderAt(now, Carve(pieces[j].block, payload, suffix).live)
    ensures var c := Carve(pieces[j].block, payload, suffix);
            var after, i := Replaced(pieces, j, Carved(c)), |FreeOf(pieces[..j])|;
            && Tiles(after, lo, hi) && Coalesced(after) && Headed(now, after)
            && i < |FreeOf(pieces)| && FreeOf(after) == Splice(FreeOf(pieces), i, 1, c.prefix + c.suffix)
  {
    hide Tiles, Coalesced, Headed, WellFormed, Carve, Carved, OnlyInside, FreeOf, Splice;
    var b := pieces[j].block;
    var c := Carve(b, payload, suffix);
    CarveTiles(b, payload, suffix);
    ReplacedTiles(pieces, j, Carved(c), lo, hi);
    CarvedCoalesced(pieces, j, c);
    ReplacedFree(pieces, j, Carved(c));
    CarvedHeaded(was, now, pieces, j, c, lo, hi);
  }

  lemma RecordInside(was: Words, now: Words, b: Block)
    requires b.size >= MIN_FREE && now == was[b.start := b.size][b.start + 8 := 0][b.start + 16 := 0]
    ensures OnlyInside(was, now, [b])
    ensures Word(now, b.start) == b.size && Word(now, b.start + 8) == 0 && Word(now, b.start + 16) == 0
  {
    forall a: nat | Outside([b], a) ensures Word(now, a) == Word(was, a) {
      assert !([b][0].start <= a < [b][0].End());
    }
  }

  lemma NoneFree(mem: Words, end: nat)
    ensures FreeOf([]) == [] && Linked(mem, []) && Ordered([]) && At([], 0) == 0 && Known(0, [])
    ensures Tiles([], end, end) && Coalesced([]) && Headed(mem, [])
  {}

  lemma OneFree(mem: Words, b: Block)
    requires WellFormed(Free(b)) && Word(mem, b.start) == b.size && Word(mem, b.start + 8) == 0
             && Word(mem, b.start + 16) == 0
    ensures FreeOf([Free(b)]) == [b] && Linked(mem, [b]) && Ordered([b]) && At([b], 0) == b.start && Known(b.start, [b])
    ensures Tiles([Free(b)], b.start, b.End()) && Coalesced([Free(b)]) && Headed(mem, [Free(b)])
  {
    assert LinkedAt(mem, [b], 0);
    assert [b][0].start == b.start;
  }

  /** The header of every live block gives its start and size. */
  ghost predicate Headed(mem: Words, pieces: seq<Piece>) {
    forall j :: 0 <= j < |pieces| && pieces[j].Live? ==> HeaderAt(mem, pieces[j])
  }

  ghost predicate HeaderAt(mem: Words, p: Piece) {
    p.Live? ==>
      && p.payload >= HEADER
      && Word(mem, p.payload - HEADER) == p.block.start && Word(mem, p.payload - HEADER + 8) == p.block.size
  }
}

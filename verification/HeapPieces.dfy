/** How allocating and freeing change the tiling of the heap. */
module HeapPieces {
  import opened FreeList
  import opened HeapLayout

  /** Piece `j` gives way to others. */
  ghost function Replaced(pieces: seq<Piece>, j: nat, news: seq<Piece>): seq<Piece>
    requires j < |pieces|
  {
    pieces[..j] + news + pieces[j + 1..]
  }

  ghost predicate Left(pieces: seq<Piece>, j: nat) {
    0 < j < |pieces| && pieces[j - 1].Free?
  }

  ghost predicate Right(pieces: seq<Piece>, j: nat) {
    j + 1 < |pieces| && pieces[j + 1].Free?
  }

  /** What the block of piece `j` grows into when it is freed. */
  ghost function Grown(pieces: seq<Piece>, j: nat): Block
    requires j < |pieces|
  {
    var b := pieces[j].block;
    var before, after := if Left(pieces, j) then pieces[j - 1].block.size
      else 0, if Right(pieces, j) then pieces[j + 1].block.size else 0;
    Block(if Left(pieces, j) then pieces[j - 1].block.start else b.start, before + b.size + after)
  }

  /** Live piece `j` becomes free and joins the free pieces it touches. */
  ghost function Released(pieces: seq<Piece>, j: nat): seq<Piece>
    requires j < |pieces|
  {
    pieces[..if Left(pieces, j) then j - 1 else j] + [Free(Grown(pieces, j))] + pieces[if Right(pieces, j) then j + 2
      else j + 1..]
  }

  // ---------- allocating ----------

  lemma ReplacedTiles(pieces: seq<Piece>, j: nat, news: seq<Piece>, lo: nat, hi: nat)
    requires Tiles(pieces, lo, hi) && j < |pieces| && Tiles(news, pieces[j].block.start, pieces[j].block.End())
    ensures Tiles(Replaced(pieces, j, news), lo, hi)
  {
    hide Tiles, Reach;
    var a, p, b := pieces[..j], pieces[j], pieces[j + 1..];
    assert pieces == a + ([p] + b);
    TilesConcat(a, [p] + b, lo, hi);
    TilesConcat([p], b, Reach(a, lo), hi);
    TilesFirst([p], b, Reach(a, lo), hi);
    TilesConcat(news, b, p.block.start, hi);
    TilesReach(news, p.block.start, p.block.End());
    TilesConcat(a, news + b, lo, hi);
    assert Replaced(pieces, j, news) == a + (news + b);
  }

  lemma TilesFirst(a: seq<Piece>, b: seq<Piece>, lo: nat, hi: nat)
    requires Tiles(a, lo, Reach(a, lo)) && |a| == 1
    ensures a[0].block.start == lo && Reach(a, lo) == a[0].block.End() && WellFormed(a[0])
  {}

  lemma ReplacedFree(pieces: seq<Piece>, j: nat, news: seq<Piece>)
    requires j < |pieces| && pieces[j].Free?
    ensures var i := |FreeOf(pieces[..j])|;
            && i < |FreeOf(pieces)| && FreeOf(pieces)[i] == pieces[j].block
            && FreeOf(Replaced(pieces, j, news)) == Splice(FreeOf(pieces), i, 1, FreeOf(news))
  {
    hide FreeOf;
    var a, p, b := pieces[..j], pieces[j], pieces[j + 1..];
    assert pieces == a + ([p] + b);
    FreeConcat(a, [p] + b);
    FreeConcat([p], b);
    FreeOne(p);
    FreeConcat(news, b);
    FreeConcat(a, news + b);
    assert Replaced(pieces, j, news) == a + (news + b);
  }

  lemma FreeOne(p: Piece)
    ensures FreeOf([p]) == if p.Free? then [p.block] else []
  {}

  lemma CarvedCoalesced(pieces: seq<Piece>, j: nat, c: Carving)
    requires Coalesced(pieces) && j < |pieces| && pieces[j].Free? && |c.prefix| <= 1 && |c.suffix| <= 1 && c.live.Live?
    ensures Coalesced(Replaced(pieces, j, Carved(c)))
  {
    var now, n := Replaced(pieces, j, Carved(c)), |Carved(c)|;
    forall i | 0 < i < |now| ensures now[i - 1].Live? || now[i].Live? {
      if i < j {
        assert now[i] == pieces[i] && now[i - 1] == pieces[i - 1];
      } else if i == j {
        assert now[i - 1] == pieces[j - 1];
      } else if i < j + n {
        assert now[i] == Carved(c)[i - j] && now[i - 1] == Carved(c)[i - 1 - j];
      } else if i == j + n {
        assert now[i] == pieces[j + 1];
      } else {
        assert now[i] == pieces[i - n + 1] && now[i - 1] == pieces[i - n];
      }
    }
  }

  // ---------- freeing ----------

  lemma {:induction false} FreeSplit(pieces: seq<Piece>, j: nat)
    requires j <= |pieces|
    ensures FreeOf(pieces) == FreeOf(pieces[..j]) + FreeOf(pieces[j..])
  {
    assert pieces == pieces[..j] + pieces[j..];
    FreeConcat(pieces[..j], pieces[j..]);
  }

  lemma TilesSplit(pieces: seq<Piece>, lo: nat, hi: nat, j: nat)
    requires Tiles(pieces, lo, hi) && j <= |pieces|
    ensures var mid := if j < |pieces| then pieces[j].block.start else hi;
            Tiles(pieces[..j], lo, mid) && Tiles(pieces[j..], mid, hi)
  {
    assert pieces == pieces[..j] + pieces[j..];
    TilesConcat(pieces[..j], pieces[j..], lo, hi);
    if j == |pieces| { TilesReach(pieces[..j], lo, Reach(pieces[..j], lo)); }
  }

  lemma TilesJoin(a: seq<Piece>, b: seq<Piece>, lo: nat, mid: nat, hi: nat)
    requires Tiles(a, lo, mid) && Tiles(b, mid, hi)
    ensures Tiles(a + b, lo, hi)
  {
    TilesReach(a, lo, mid);
    TilesConcat(a, b, lo, hi);
  }

  lemma TilesOne(b: Block)
    requires WellFormed(Free(b))
    ensures Tiles([Free(b)], b.start, b.End())
  {}

  /** Where the grown block lies. */
  lemma GrownBlock(pieces: seq<Piece>, j: nat, lo: nat, hi: nat)
    requires Tiles(pieces, lo, hi) && j < |pieces| && pieces[j].Live?
    ensures var x, y := if Left(pieces, j) then j - 1 else j, if Right(pieces, j) then j + 2 else j + 1;
            && WellFormed(Free(Grown(pieces, j))) && Grown(pieces, j).start == pieces[x].block.start
            && Grown(pieces, j).End() == if y < |pieces| then pieces[y].block.start else hi
  {
    hide Tiles, WellFormed;
    TilesAt(pieces, lo, hi, j);
    if j > 0 { TilesAt(pieces, lo, hi, j - 1); TilesOrdered(pieces, lo, hi, j - 1, j); }
    if j + 1 < |pieces| { TilesAt(pieces, lo, hi, j + 1); TilesOrdered(pieces, lo, hi, j, j + 1); }
    if j + 2 < |pieces| { TilesOrdered(pieces, lo, hi, j + 1, j + 2); }
    GrownWellFormed(pieces, j);
  }

  lemma GrownWellFormed(pieces: seq<Piece>, j: nat)
    requires j < |pieces| && WellFormed(pieces[j])
    requires j > 0 ==> WellFormed(pieces[j - 1])
    requires j + 1 < |pieces| ==> WellFormed(pieces[j + 1])
    ensures WellFormed(Free(Grown(pieces, j)))
  {
    var b := pieces[j].block;
    if Left(pieces, j) { TogetherWellFormed(pieces[j - 1].block, b); }
    if Right(pieces, j) { TogetherWellFormed(b, pieces[j + 1].block); }
    if Left(pieces, j) && Right(pieces, j) {
      TogetherWellFormed(Block(pieces[j - 1].block.start, pieces[j - 1].block.size + b.size), pieces[j + 1].block);
    }
  }

  /** Freeing keeps the heap tiled. */
  lemma ReleasedTiles(pieces: seq<Piece>, j: nat, lo: nat, hi: nat)
    requires Tiles(pieces, lo, hi) && j < |pieces| && pieces[j].Live?
    ensures Tiles(Released(pieces, j), lo, hi)
  {
    hide Tiles, WellFormed, Left, Right, Grown;
    var x, y := if Left(pieces, j) then j - 1 else j, if Right(pieces, j) then j + 2 else j + 1;
    LeftRight(pieces, j);
    var b := Grown(pieces, j);
    GrownBlock(pieces, j, lo, hi);
    TilesSplit(pieces, lo, hi, x);
    TilesSplit(pieces, lo, hi, y);
    TilesOne(b);
    TilesJoin(pieces[..x], [Free(b)], lo, b.start, b.End());
    TilesJoin(pieces[..x] + [Free(b)], pieces[y..], lo, b.End(), hi);
  }

  lemma LeftRight(pieces: seq<Piece>, j: nat)
    requires j < |pieces|
    ensures Left(pieces, j) ==> j > 0
    ensures Right(pieces, j) ==> j + 1 < |pieces|
  {}

  lemma ReleasedCoalesced(pieces: seq<Piece>, j: nat)
    requires Coalesced(pieces) && j < |pieces| && pieces[j].Live?
    ensures Coalesced(Released(pieces, j))
  {
    hide Grown;
    var x, y, now := if Left(pieces, j) then j - 1 else j, if Right(pieces, j) then j + 2
      else j + 1, Released(pieces, j);
    forall i | 0 < i < |now| ensures now[i - 1].Live? || now[i].Live? {
      if i < x {
        assert now[i] == pieces[i] && now[i - 1] == pieces[i - 1];
      } else if i == x {
        assert now[i - 1] == pieces[x - 1];
      } else if i == x + 1 {
        assert now[i] == pieces[y];
      } else {
        assert now[i] == pieces[i - x - 1 + y] && now[i - 1] == pieces[i - x - 2 + y];
      }
    }
  }

  /** The free blocks below a piece end before it, except one that touches it. */
  lemma LeftFree(pieces: seq<Piece>, j: nat, lo: nat, hi: nat)
    requires Tiles(pieces, lo, hi) && j < |pieces|
    ensures var free, start := FreeOf(pieces[..j]), pieces[j].block.start;
            && (forall k :: 0 <= k < |free| ==> free[k].End() <= start && free[k].start < start)
            && (Left(pieces, j) ==>
              free == FreeOf(pieces[..j - 1]) + [pieces[j - 1].block] && pieces[j - 1].block.End() == start)
            && (!Left(pieces, j) ==> forall k :: 0 <= k < |free| ==> free[k].End() < start)
  {
    hide Tiles;
    var free, start := FreeOf(pieces[..j]), pieces[j].block.start;
    TilesSplit(pieces, lo, hi, j);
    forall k | 0 <= k < |free|
      ensures free[k].End() <= start && free[k].start < start { FreeBounds(pieces[..j], lo, start, k); }
    if j > 0 {
      TilesOrdered(pieces, lo, hi, j - 1, j);
      TilesAt(pieces, lo, hi, j - 1);
      var a := pieces[..j - 1];
      assert pieces[..j] == a + [pieces[j - 1]];
      FreeConcat(a, [pieces[j - 1]]);
      FreeOne(pieces[j - 1]);
      if pieces[j - 1].Live? {
        TilesSplit(pieces, lo, hi, j - 1);
        forall k | 0 <= k < |free| ensures free[k].End() < start { FreeBounds(a, lo, pieces[j - 1].block.start, k); }
      }
    }
  }

  lemma RightFree(pieces: seq<Piece>, j: nat, lo: nat, hi: nat)
    requires Tiles(pieces, lo, hi) && j < |pieces|
    ensures var free, end := FreeOf(pieces[j + 1..]), pieces[j].block.End();
            && (forall k :: 0 <= k < |free| ==> end <= free[k].start)
            && (Right(pieces, j) ==>
              free == [pieces[j + 1].block] + FreeOf(pieces[j + 2..]) && pieces[j + 1].block.start == end)
            && (!Right(pieces, j) ==> forall k :: 0 <= k < |free| ==> end < free[k].start)
  {
    hide Tiles;
    var b := pieces[j + 1..];
    var free, end := FreeOf(b), pieces[j].block.End();
    TilesAt(pieces, lo, hi, j);
    if j + 1 < |pieces| {
      TilesOrdered(pieces, lo, hi, j, j + 1);
      TilesSplit(pieces, lo, hi, j + 1);
      forall k | 0 <= k < |free|
        ensures end <= free[k].start && (b[0].Live? ==> end < free[k].start) { FreeBounds(b, end, hi, k); }
      assert b[0] == pieces[j + 1] && b[1..] == pieces[j + 2..];
    }
  }

  lemma MergedIs(below: seq<Block>, b: Block, above: seq<Block>)
    requires b.size > 0
    ensures var left := below != [] && below[|below| - 1].End() == b.start;
            var right := above != [] && b.End() == above[0].start;
            var block := Block(
              if left then below[|below| - 1].start else b.start,
              (if left then below[|below| - 1].size else 0) + b.size + if right then above[0].size else 0);
            Merged(below + above, |below|, b)
            == below[..if left then |below| - 1 else |below|] + [block] + above[if right then 1 else 0..]
  {
    var i := |below|;
    var first := Splice(below + above, i, 0, [b]);
    assert first == below + [b] + above;
    var second := JoinNext(first, i);
    var right := above != [] && b.End() == above[0].start;
    var grown := Block(b.start, b.size + if right then above[0].size else 0);
    if right { assert first[i + 1] == above[0]; }
    assert second == below + [grown] + above[if right then 1 else 0..];
    if i > 0 { assert second[i - 1] == below[i - 1] && second[i] == grown; }
  }

  /** The freed block has its place in the list. */
  lemma ReleasedPlace(pieces: seq<Piece>, j: nat, lo: nat, hi: nat)
    requires Tiles(pieces, lo, hi) && j < |pieces| && pieces[j].Live?
    ensures var i, free := |FreeOf(pieces[..j])|, FreeOf(pieces);
            && free == FreeOf(pieces[..j]) + FreeOf(pieces[j + 1..])
            && Place(free, pieces[j].block.start, i) && !Overlaps(free, pieces[j].block)
  {
    hide Tiles, Left, Right;
    FreeSplit(pieces, j);
    assert pieces[j..] == [pieces[j]] + pieces[j + 1..];
    FreeConcat([pieces[j]], pieces[j + 1..]);
    FreeOne(pieces[j]);
    LeftFree(pieces, j, lo, hi);
    RightFree(pieces, j, lo, hi);
    TilesAt(pieces, lo, hi, j);
  }

  /** In the list, freeing a piece is what `InsertFreeBlock` does with its block. */
  lemma ReleasedFree(pieces: seq<Piece>, j: nat, lo: nat, hi: nat)
    requires Tiles(pieces, lo, hi) && j < |pieces| && pieces[j].Live?
    ensures var i, free := |FreeOf(pieces[..j])|, FreeOf(pieces);
            && i <= |free| && FreeOf(Released(pieces, j)) == Merged(free, i, pieces[j].block)
            && Place(free, pieces[j].block.start, i) && !Overlaps(free, pieces[j].block)
  {
    hide Tiles, Merged, FreeOf, Released, Place, Overlaps;
    var below, above, b := FreeOf(pieces[..j]), FreeOf(pieces[j + 1..]), pieces[j].block;
    ReleasedPlace(pieces, j, lo, hi);
    LeftFree(pieces, j, lo, hi);
    RightFree(pieces, j, lo, hi);
    TilesAt(pieces, lo, hi, j);
    assert Place(FreeOf(pieces), b.start, |below|);
    MergedIs(below, b, above);
    ReleasedFreeOf(pieces, j);
    if Left(pieces, j) { assert below[..|below| - 1] == FreeOf(pieces[..j - 1]); }
      else { assert below[..|below|] == below; }
    if Right(pieces, j) { assert above[1..] == FreeOf(pieces[j + 2..]); } else { assert above[0..] == above; }
  }

  lemma ReleasedFreeOf(pieces: seq<Piece>, j: nat)
    requires j < |pieces|
    ensures FreeOf(Released(pieces, j)) ==
              FreeOf(pieces[..if Left(pieces, j) then j - 1 else j]) + [Grown(pieces, j)]
              + FreeOf(pieces[if Right(pieces, j) then j + 2 else j + 1..])
  {
    hide Grown;
    var x, y := if Left(pieces, j) then j - 1 else j, if Right(pieces, j) then j + 2 else j + 1;
    var p := Free(Grown(pieces, j));
    FreeConcat(pieces[..x] + [p], pieces[y..]);
    FreeConcat(pieces[..x], [p]);
    FreeOne(p);
  }

  // ---------- allocating and freeing again ----------

  lemma ReleasedStays(pieces: seq<Piece>, j: nat, lo: nat, hi: nat, i: nat)
    requires Tiles(pieces, lo, hi) && j < |pieces| && pieces[j].Live? && i < |Released(pieces, j)|
             && Released(pieces, j)[i].Live?
    ensures Released(pieces, j)[i] in pieces && Released(pieces, j)[i] != pieces[j]
  {
    hide Tiles, Grown, WellFormed;
    var x, y, now := if Left(pieces, j) then j - 1 else j, if Right(pieces, j) then j + 2
      else j + 1, Released(pieces, j);
    var k := if i < x then i else i - x - 1 + y;
    assert now[i] == pieces[k] && k != j;
    TilesAt(pieces, lo, hi, j);
    BlockSize(pieces[j]);
    if k < j { TilesOrdered(pieces, lo, hi, k, j); } else { TilesOrdered(pieces, lo, hi, j, k); }
  }

  lemma BlockSize(p: Piece)
    requires WellFormed(p)
    ensures p.block.size > 0
  {}

  lemma ReleasedKeeps(pieces: seq<Piece>, j: nat, k: nat)
    requires j < |pieces| && k < |pieces| && k != j && pieces[k].Live?
    ensures pieces[k] in Released(pieces, j)
  {
    hide Grown;
    var x, y, now := if Left(pieces, j) then j - 1 else j, if Right(pieces, j) then j + 2
      else j + 1, Released(pieces, j);
    assert now[if k < x then k else k - y + x + 1] == pieces[k];
  }

  /** The live pieces after freeing are those before, without the freed one. */
  lemma ReleasedLive(pieces: seq<Piece>, j: nat, lo: nat, hi: nat, p: Piece)
    requires Tiles(pieces, lo, hi) && j < |pieces| && pieces[j].Live? && p.Live?
    ensures p in Released(pieces, j) <==> p in pieces && p != pieces[j]
  {
    hide Tiles, Released;
    if p in Released(pieces, j) {
      var i :| 0 <= i < |Released(pieces, j)| && Released(pieces, j)[i] == p;
      ReleasedStays(pieces, j, lo, hi, i);
    }
    if p in pieces && p != pieces[j] {
      var k :| 0 <= k < |pieces| && pieces[k] == p;
      ReleasedKeeps(pieces, j, k);
    }
  }

  lemma CarvedLive(pieces: seq<Piece>, j: nat, c: Carving, p: Piece)
    requires j < |pieces| && pieces[j].Free? && c.live.Live? && p.Live?
    ensures p in Replaced(pieces, j, Carved(c)) <==> p in pieces || p == c.live
  {
    var now, n := Replaced(pieces, j, Carved(c)), |Carved(c)|;
    if p in now {
      var i :| 0 <= i < |now| && now[i] == p;
      if i < j { assert pieces[i] == p; }
      else if i < j + n { assert Carved(c)[i - j] == p; assert i - j == |c.prefix|; }
      else { assert pieces[i - n + 1] == p; }
    }
    if p in pieces {
      var k :| 0 <= k < |pieces| && pieces[k] == p;
      assert now[if k < j then k else k + n - 1] == p;
    }
    assert now[j + |c.prefix|] == Carved(c)[|c.prefix|] == c.live;
  }

  /** Freeing what was just allocated restores the tiling, and so the list. */
  lemma AllocThenFree(pieces: seq<Piece>, j: nat, c: Carving, lo: nat, hi: nat)
    requires Tiles(pieces, lo, hi) && Coalesced(pieces) && j < |pieces| && pieces[j].Free?
    requires |c.prefix| <= 1 && |c.suffix| <= 1 && c.live.Live?
             && Tiles(Carved(c), pieces[j].block.start, pieces[j].block.End())
    requires c.live !in pieces
    ensures var k := j + |c.prefix|;
            k < |Replaced(pieces, j, Carved(c))| && Released(Replaced(pieces, j, Carved(c)), k) == pieces
  {
    hide Tiles, Coalesced;
    var now, k := Replaced(pieces, j, Carved(c)), j + |c.prefix|;
    assert now[k] == Carved(c)[|c.prefix|] == c.live;
    ReplacedTiles(pieces, j, Carved(c), lo, hi);
    CarvedCoalesced(pieces, j, c);
    ReleasedTiles(now, k, lo, hi);
    ReleasedCoalesced(now, k);
    forall p: Piece | p.Live? ensures p in Released(now, k) <==> p in pieces {
      ReleasedLive(now, k, lo, hi, p);
      CarvedLive(pieces, j, c, p);
    }
    LiveDetermines(Released(now, k), pieces, lo, hi);
  }
}

/** The kernel heap as a value: the pieces that tile it, the free list they
    make, and how that list is stored in the free blocks themselves. */
module HeapLayout {
  import opened Options

  /** Bytes of a free block's own record (size, next, prev) and of the header
      before an allocation (block start, block size). */
  const MIN_FREE: nat := 24
  const HEADER: nat := 16
  const WORD: nat := 8

  datatype Block = Block(start: nat, size: nat) {
    function End(): nat { start + size }
  }

  datatype Piece = Free(block: Block) | Live(block: Block, payload: nat)

  // ---------- tiling ----------

  ghost predicate WellFormed(p: Piece) {
    && p.block.size >= MIN_FREE && p.block.size % WORD == 0 && p.block.start % WORD == 0 && p.block.start > 0
    && (p.Live? ==> p.block.start + HEADER <= p.payload < p.block.End() && p.payload % WORD == 0)
  }

  /** The pieces lie end to end from `lo` to `hi`. */
  ghost predicate Tiles(pieces: seq<Piece>, lo: nat, hi: nat) {
    if pieces == [] then lo == hi
    else pieces[0].block.start == lo && WellFormed(pieces[0]) && Tiles(pieces[1..], pieces[0].block.End(), hi)
  }

  ghost function Reach(pieces: seq<Piece>, lo: nat): nat {
    if pieces == [] then lo else Reach(pieces[1..], pieces[0].block.End())
  }

  /** No free block lies next to another. */
  ghost predicate Coalesced(pieces: seq<Piece>) {
    forall i :: 0 < i < |pieces| ==> pieces[i - 1].Live? || pieces[i].Live?
  }

  lemma {:induction false} TilesConcat(a: seq<Piece>, b: seq<Piece>, lo: nat, hi: nat)
    ensures Tiles(a + b, lo, hi) <==> Tiles(a, lo, Reach(a, lo)) && Tiles(b, Reach(a, lo), hi)
  {
    if a == [] {
      assert a + b == b;
    } else {
      assert (a + b)[1..] == a[1..] + b;
      TilesConcat(a[1..], b, a[0].block.End(), hi);
    }
  }

  lemma {:induction false} TilesReach(pieces: seq<Piece>, lo: nat, hi: nat)
    requires Tiles(pieces, lo, hi)
    ensures Reach(pieces, lo) == hi && lo <= hi
  {
    if pieces != [] { TilesReach(pieces[1..], pieces[0].block.End(), hi); }
  }

  /** Where a piece lies. */
  lemma {:induction false} TilesAt(pieces: seq<Piece>, lo: nat, hi: nat, i: nat)
    requires Tiles(pieces, lo, hi) && i < |pieces|
    ensures WellFormed(pieces[i]) && lo <= pieces[i].block.start && pieces[i].block.End() <= hi
    ensures i == 0 ==> pieces[i].block.start == lo
    ensures i == |pieces| - 1 ==> pieces[i].block.End() == hi
  {
    TilesReach(pieces[1..], pieces[0].block.End(), hi);
    if i > 0 { TilesAt(pieces[1..], pieces[0].block.End(), hi, i - 1); }
  }

  lemma {:induction false} TilesOrdered(pieces: seq<Piece>, lo: nat, hi: nat, i: nat, j: nat)
    requires Tiles(pieces, lo, hi) && i < j < |pieces|
    ensures pieces[i].block.End() <= pieces[j].block.start
    ensures j == i + 1 ==> pieces[i].block.End() == pieces[j].block.start
    decreases i
  {
    if i == 0 {
      TilesAt(pieces[1..], pieces[0].block.End(), hi, j - 1);
    } else {
      TilesOrdered(pieces[1..], pieces[0].block.End(), hi, i - 1, j - 1);
    }
  }

  /** Every address of the heap lies in exactly one piece. */
  lemma {:induction false} TilesCover(pieces: seq<Piece>, lo: nat, hi: nat, a: nat) returns (i: nat)
    requires Tiles(pieces, lo, hi) && lo <= a < hi
    ensures i < |pieces| && pieces[i].block.start <= a < pieces[i].block.End()
    ensures forall j :: 0 <= j < |pieces| && pieces[j].block.start <= a < pieces[j].block.End() ==> j == i
  {
    if a < pieces[0].block.End() {
      i := 0;
    } else {
      i := TilesCover(pieces[1..], pieces[0].block.End(), hi, a);
      i := i + 1;
    }
    forall j | 0 <= j < |pieces| && pieces[j].block.start <= a < pieces[j].block.End() ensures j == i {
      if j < i { TilesOrdered(pieces, lo, hi, j, i); }
      if i < j { TilesOrdered(pieces, lo, hi, i, j); }
    }
  }

  // ---------- the free list ----------

  ghost function FreeOf(pieces: seq<Piece>): seq<Block> {
    if pieces == [] then []
    else (if pieces[0].Free? then [pieces[0].block] else []) + FreeOf(pieces[1..])
  }

  lemma {:induction false} FreeConcat(a: seq<Piece>, b: seq<Piece>)
    ensures FreeOf(a + b) == FreeOf(a) + FreeOf(b)
  {
    if a == [] {
      assert a + b == b && FreeOf(a) == [];
      assert [] + FreeOf(b) == FreeOf(b);
    } else {
      var head := if a[0].Free? then [a[0].block] else [];
      assert (a + b)[1..] == a[1..] + b && (a + b)[0] == a[0];
      FreeConcat(a[1..], b);
      FreeStep(a + b);
      FreeStep(a);
      assert head + (FreeOf(a[1..]) + FreeOf(b)) == (head + FreeOf(a[1..])) + FreeOf(b);
    }
  }

  lemma FreeStep(pieces: seq<Piece>)
    requires pieces != []
    ensures FreeOf(pieces) == (if pieces[0].Free? then [pieces[0].block] else []) + FreeOf(pieces[1..])
  {}

  lemma {:induction false} FreeAt(pieces: seq<Piece>, i: nat) returns (j: nat)
    requires i < |FreeOf(pieces)|
    ensures j < |pieces| && pieces[j] == Free(FreeOf(pieces)[i]) && FreeOf(pieces[..j]) == FreeOf(pieces)[..i]
    ensures FreeOf(pieces[j + 1..]) == FreeOf(pieces)[i + 1..]
  {
    if pieces[0].Free? && i == 0 {
      j := 0;
      assert pieces[..0] == [] && FreeOf(pieces)[..0] == [];
    } else {
      var k := FreeAt(pieces[1..], if pieces[0].Free? then i - 1 else i);
      j := k + 1;
      assert pieces[..j] == [pieces[0]] + pieces[1..][..k];
      assert pieces[1..][k + 1..] == pieces[j + 1..];
      assert (pieces[..j])[1..] == pieces[1..][..k];
    }
  }

  /** Free blocks in address order, apart from each other. */
  ghost predicate Ordered(free: seq<Block>) {
    && (forall i :: 0 <= i < |free| ==> WellFormed(Free(free[i])))
    && (forall i, j :: 0 <= i < j < |free| ==> free[i].End() <= free[j].start)
  }

  /** ... with something between any two. */
  ghost predicate Sorted(free: seq<Block>) {
    Ordered(free) && forall i, j :: 0 <= i < j < |free| ==> free[i].End() < free[j].start
  }

  lemma {:induction false} FreeBounds(pieces: seq<Piece>, lo: nat, hi: nat, i: nat)
    requires Tiles(pieces, lo, hi) && i < |FreeOf(pieces)|
    ensures lo <= FreeOf(pieces)[i].start && FreeOf(pieces)[i].End() <= hi && WellFormed(Free(FreeOf(pieces)[i]))
    ensures pieces != [] && pieces[0].Live? ==> lo < FreeOf(pieces)[i].start
  {
    TilesReach(pieces[1..], pieces[0].block.End(), hi);
    if !(pieces[0].Free? && i == 0) {
      FreeBounds(pieces[1..], pieces[0].block.End(), hi, if pieces[0].Free? then i - 1 else i);
    }
  }

  lemma SortedMore(b: Block, rest: seq<Block>)
    requires WellFormed(Free(b)) && Sorted(rest) && forall j :: 0 <= j < |rest| ==> b.End() < rest[j].start
    ensures Sorted([b] + rest)
  {
    hide WellFormed;
    var all := [b] + rest;
    assert forall j :: 0 < j < |all| ==> all[j] == rest[j - 1];
  }

  lemma TilesRest(pieces: seq<Piece>, lo: nat, hi: nat)
    requires Tiles(pieces, lo, hi) && pieces != []
    ensures Tiles(pieces[1..], pieces[0].block.End(), hi) && WellFormed(pieces[0])
  {}

  lemma {:induction false} FreeSorted(pieces: seq<Piece>, lo: nat, hi: nat)
    requires Tiles(pieces, lo, hi) && Coalesced(pieces)
    ensures Sorted(FreeOf(pieces))
  {
    hide Tiles, WellFormed, Sorted;
    if pieces == [] {
      NoneSorted();
    } else {
      var rest := pieces[1..];
      TilesRest(pieces, lo, hi);
      FreeSorted(rest, pieces[0].block.End(), hi);
      FreeStep(pieces);
      if pieces[0].Free? {
        forall j | 0 <= j < |FreeOf(rest)| ensures pieces[0].block.End() < FreeOf(rest)[j].start {
          FreeBounds(rest, pieces[0].block.End(), hi, j);
          assert pieces[1] == rest[0];
        }
        assert pieces[0] == Free(pieces[0].block);
        SortedMore(pieces[0].block, FreeOf(rest));
      } else {
        assert [] + FreeOf(rest) == FreeOf(rest);
      }
    }
  }

  lemma NoneSorted()
    ensures FreeOf([]) == [] && Sorted([])
  {}

  /** Nothing is live: the whole heap is one free block again. */
  lemma AllFree(pieces: seq<Piece>, lo: nat, hi: nat)
    requires Tiles(pieces, lo, hi) && Coalesced(pieces) && forall i :: 0 <= i < |pieces| ==> pieces[i].Free?
    ensures lo <= hi && pieces == if lo == hi then [] else [Free(Block(lo, hi - lo))]
  {
    TilesReach(pieces, lo, hi);
    assert |pieces| <= 1;
    if |pieces| == 1 { TilesAt(pieces, lo, hi, 0); }
  }

  /** The live pieces fix all the others: two coalesced tilings with the same
      live blocks are the same tiling. */
  lemma {:induction false} LiveDetermines(a: seq<Piece>, b: seq<Piece>, lo: nat, hi: nat)
    requires Tiles(a, lo, hi) && Tiles(b, lo, hi) && Coalesced(a) && Coalesced(b)
    requires forall p: Piece :: p.Live? ==> (p in a <==> p in b)
    ensures a == b
    decreases |a|
  {
    if a == [] || b == [] {
      TilesReach(a, lo, hi);
      TilesReach(b, lo, hi);
      if a != [] { TilesAt(a, lo, hi, 0); }
      if b != [] { TilesAt(b, lo, hi, 0); }
    } else {
      SameFirst(a, b, lo, hi);
      assert a[0] == b[0];
      RestLive(a, b, lo, hi);
      LiveDetermines(a[1..], b[1..], a[0].block.End(), hi);
      assert a == [a[0]] + a[1..] && b == [b[0]] + b[1..];
    }
  }

  /** If `a` starts with a live piece then so does `b`, with the same one. */
  lemma LiveFirst(a: seq<Piece>, b: seq<Piece>, lo: nat, hi: nat)
    requires Tiles(a, lo, hi) && Tiles(b, lo, hi) && a != [] && b != [] && a[0].Live? && a[0] in b
    ensures b[0] == a[0]
  {
    var i :| 0 <= i < |b| && b[i] == a[0];
    TilesAt(a, lo, hi, 0);
    TilesAt(b, lo, hi, 0);
    if i > 0 { TilesOrdered(b, lo, hi, 0, i); }
  }

  /** A free first piece ends where the first live piece begins. */
  lemma FreeFirstEnd(a: seq<Piece>, b: seq<Piece>, lo: nat, hi: nat)
    requires Tiles(a, lo, hi) && Tiles(b, lo, hi) && a != [] && b != [] && a[0].Free? && b[0].Free? && Coalesced(a)
             && Coalesced(b)
    requires forall p: Piece :: p.Live? ==> (p in a <==> p in b)
    ensures a[0].block.End() <= b[0].block.End()
  {
    TilesAt(a, lo, hi, 0);
    TilesAt(b, lo, hi, 0);
    if |b| > 1 {
      assert b[1].Live? && b[1] in a;
      var i :| 0 <= i < |a| && a[i] == b[1];
      TilesOrdered(a, lo, hi, 0, i);
      TilesOrdered(b, lo, hi, 0, 1);
    }
  }

  lemma SameFirst(a: seq<Piece>, b: seq<Piece>, lo: nat, hi: nat)
    requires Tiles(a, lo, hi) && Tiles(b, lo, hi) && a != [] && b != [] && Coalesced(a) && Coalesced(b)
    requires forall p: Piece :: p.Live? ==> (p in a <==> p in b)
    ensures a[0] == b[0]
  {
    if a[0].Live? {
      LiveFirst(a, b, lo, hi);
    } else if b[0].Live? {
      LiveFirst(b, a, lo, hi);
    } else {
      FreeFirstEnd(a, b, lo, hi);
      FreeFirstEnd(b, a, lo, hi);
      TilesAt(a, lo, hi, 0);
      TilesAt(b, lo, hi, 0);
    }
  }

  lemma RestLive(a: seq<Piece>, b: seq<Piece>, lo: nat, hi: nat)
    requires Tiles(a, lo, hi) && Tiles(b, lo, hi) && a != [] && b != [] && a[0] == b[0] && Coalesced(a) && Coalesced(b)
    requires forall p: Piece :: p.Live? ==> (p in a <==> p in b)
    ensures Coalesced(a[1..]) && Coalesced(b[1..])
    ensures forall p: Piece :: p.Live? ==> (p in a[1..] <==> p in b[1..])
  {
    forall p: Piece | p.Live? ensures p in a[1..] <==> p in b[1..] {
      if p in a[1..] { NotFirst(a, lo, hi, p); assert p in b; }
      if p in b[1..] { NotFirst(b, lo, hi, p); assert p in a; }
    }
  }

  lemma NotFirst(a: seq<Piece>, lo: nat, hi: nat, p: Piece)
    requires Tiles(a, lo, hi) && a != [] && p in a[1..]
    ensures p != a[0] && p in a
  {
    var i :| 0 <= i < |a| - 1 && a[1..][i] == p;
    assert a[i + 1] == p;
    TilesOrdered(a, lo, hi, 0, i + 1);
    TilesAt(a, lo, hi, 0);
  }

  // ---------- the list in memory ----------

  type Words = map<nat, nat>

  function Word(mem: Words, a: nat): nat {
    if a in mem then mem[a] else 0
  }

  /** Start of the `i`th free block; null outside the list. */
  function At(free: seq<Block>, i: int): nat {
    if 0 <= i < |free| then free[i].start else 0
  }

  ghost predicate LinkedAt(mem: Words, free: seq<Block>, i: nat)
    requires i < |free|
  {
    && Word(mem, free[i].start) == free[i].size
    && Word(mem, free[i].start + 8) == At(free, i + 1)
    && Word(mem, free[i].start + 16) == At(free, i - 1)
  }

  /** Each free block holds its size and the addresses of its neighbours. */
  ghost predicate Linked(mem: Words, free: seq<Block>) {
    forall i :: 0 <= i < |free| ==> LinkedAt(mem, free, i)
  }

  ghost function Splice(free: seq<Block>, i: nat, cut: nat, news: seq<Block>): seq<Block>
    requires i + cut <= |free|
  {
    free[..i] + news + free[i + cut..]
  }

  lemma AtSplice(free: seq<Block>, i: nat, cut: nat, news: seq<Block>, k: int)
    requires i + cut <= |free|
    ensures At(Splice(free, i, cut, news), k) ==
            if k < i then At(free, k) else if k < i + |news| then news[k - i].start else At(free, k - |news| + cut)
  {}

  ghost predicate NewAt(now: Words, news: seq<Block>, k: nat, left: nat, right: nat)
    requires k < |news|
  {
    && Word(now, news[k].start) == news[k].size
    && Word(now, news[k].start + 8) == (if k + 1 < |news| then news[k + 1].start else right)
    && Word(now, news[k].start + 16) == (if k > 0 then news[k - 1].start else left)
  }

  ghost predicate NewLinks(now: Words, news: seq<Block>, left: nat, right: nat) {
    forall k :: 0 <= k < |news| ==> NewAt(now, news, k, left, right)
  }

  /** `room` lies between the blocks around the `cut` blocks at `i`. */
  ghost predicate Between(free: seq<Block>, i: nat, cut: nat, room: Block) {
    && i + cut <= |free|
    && (i > 0 ==> free[i - 1].End() <= room.start) && (i + cut < |free| ==> room.End() <= free[i + cut].start)
  }

  /** Only the room changed, and the pointers into it from both sides. */
  ghost predicate Rewired(was: Words, now: Words, free: seq<Block>, i: nat, cut: nat, room: Block) {
    forall a: nat :: Word(now, a) != Word(was, a) ==>
      || room.start <= a < room.End()
      || (i > 0 && a == At(free, i - 1) + 8)
      || (i + cut < |free| && a == At(free, i + cut) + 16)
  }

  ghost predicate Entered(now: Words, free: seq<Block>, i: nat, cut: nat, news: seq<Block>) {
    && (i > 0 ==> Word(now, At(free, i - 1) + 8) == if news == [] then At(free, i + cut) else news[0].start)
    && (i + cut < |free| ==> Word(now, At(free, i + cut) + 16) == if news == [] then At(free, i - 1)
      else news[|news| - 1].start)
  }

  /** The words of a block that is neither in the room nor next to it. */
  lemma RewiredSame(was: Words, now: Words, free: seq<Block>, i: nat, cut: nat, room: Block, k: nat)
    requires Ordered(free) && Between(free, i, cut, room) && Rewired(was, now, free, i, cut, room)
    requires k < |free| && (k < i || i + cut <= k)
    ensures Word(now, free[k].start) == Word(was, free[k].start)
    ensures k != i - 1 ==> Word(now, free[k].start + 8) == Word(was, free[k].start + 8)
    ensures k != i + cut ==> Word(now, free[k].start + 16) == Word(was, free[k].start + 16)
  {
    hide Word;
    assert WellFormed(Free(free[k]));
    if i > 0 { assert WellFormed(Free(free[i - 1])); }
    if i + cut < |free| { assert WellFormed(Free(free[i + cut])); }
  }

  lemma SplicedAt(was: Words, now: Words, free: seq<Block>, i: nat, cut: nat, room: Block, news: seq<Block>, k: nat)
    requires Ordered(free) && Linked(was, free) && Between(free, i, cut, room) && Rewired(was, now, free, i, cut, room)
    requires Entered(now, free, i, cut, news) && NewLinks(now, news, At(free, i - 1), At(free, i + cut))
    requires i + cut <= |free| && k < |Splice(free, i, cut, news)|
    ensures LinkedAt(now, Splice(free, i, cut, news), k)
  {
    hide Word, Rewired, Ordered, Between;
    AtSplice(free, i, cut, news, k - 1);
    AtSplice(free, i, cut, news, k + 1);
    if k < i {
      assert LinkedAt(was, free, k) && Splice(free, i, cut, news)[k] == free[k];
      RewiredSame(was, now, free, i, cut, room, k);
    } else if k < i + |news| {
      var j := k - i;
      assert Splice(free, i, cut, news)[k] == news[j] && NewAt(now, news, j, At(free, i - 1), At(free, i + cut));
    } else {
      var j := k - |news| + cut;
      assert LinkedAt(was, free, j) && Splice(free, i, cut, news)[k] == free[j];
      RewiredSame(was, now, free, i, cut, room, j);
    }
  }

  /** Any change of the list comes down to rewriting a room and entering it
      from both sides. */
  lemma Spliced(was: Words, now: Words, free: seq<Block>, i: nat, cut: nat, room: Block, news: seq<Block>)
    requires Between(free, i, cut, room) && Ordered(free) && Linked(was, free) && Rewired(was, now, free, i, cut, room)
    requires Entered(now, free, i, cut, news) && NewLinks(now, news, At(free, i - 1), At(free, i + cut))
    ensures Linked(now, Splice(free, i, cut, news))
  {
    hide Word, Rewired, Ordered, LinkedAt, Entered, NewLinks;
    forall k | 0 <= k < |Splice(free, i, cut, news)| ensures LinkedAt(now, Splice(free, i, cut, news), k) {
      SplicedAt(was, now, free, i, cut, room, news, k);
    }
  }

  lemma SpliceOrdered(free: seq<Block>, i: nat, cut: nat, room: Block, news: seq<Block>)
    requires Ordered(free) && Ordered(news) && Between(free, i, cut, room)
    requires forall k :: 0 <= k < |news| ==> room.start <= news[k].start && news[k].End() <= room.End()
    ensures Ordered(Splice(free, i, cut, news))
  {
    hide WellFormed;
    var after := Splice(free, i, cut, news);
    forall x, y | 0 <= x < y < |after| ensures after[x].End() <= after[y].start {
      if i > 0 && x < i - 1 { assert free[x].End() <= free[i - 1].start; }
      if y > i + |news| { assert free[i + cut].End() <= free[y - |news| + cut].start; }
    }
  }

  // ---------- carving an allocation out of a free block ----------

  const LIMIT: nat := 0x1_0000_0000_0000_0000

  predicate PowerOfTwo(n: nat) {
    n == 1 || (n > 1 && n % 2 == 0 && PowerOfTwo(n / 2))
  }

  lemma Scale(align: nat, k: int)
    requires align > 0
    ensures k >= 1 ==> align * k >= align
    ensures k <= -1 ==> align * k + align <= 0
  {}

  lemma MultipleMod(align: nat, q: nat)
    requires align > 0
    ensures (align * q) % align == 0
  {
    var n := align * q;
    var d, r := n / align, n % align;
    assert n == align * d + r;
    assert align * (q - d) == r;
    Scale(align, q - d);
  }

  lemma RoundDown(n: nat, align: nat)
    requires align > 0
    ensures n % align < align && n % align <= n && (n - n % align) % align == 0
  {
    assert n == align * (n / align) + n % align;
    MultipleMod(align, n / align);
  }

  /** The least multiple of a power of two at or above `value`. */
  function AlignUp(value: nat, align: nat): (r: Option<nat>)
    ensures r.Some? <==> PowerOfTwo(align) && value + align - 1 < LIMIT
    ensures r.Some? ==> value <= r.value < value + align && r.value % align == 0
  {
    if align == 0 || !PowerOfTwo(align) then None
    else
      var mask := align - 1;
      if value + mask >= LIMIT then None
      else
        RoundDown(value + mask, align);
        Some(value + mask - (value + mask) % align)
  }

  function Max(a: nat, b: nat): nat {
    if a < b then b else a
  }

  function RequestSize(size: nat): nat { Max(size, 1) }
  function RequestAlign(align: nat): nat { Max(align, WORD) }

  /** Where an allocation would put its payload in block `b`, if it fits. */
  ghost function PayloadIn(b: Block, size: nat, align: nat): Option<nat> {
    var payload := AlignUp(b.start + HEADER, RequestAlign(align));
    if b.End() < LIMIT && payload.Some? && payload.value + RequestSize(size) < LIMIT
      && payload.value + RequestSize(size) <= b.End()
    then payload
    else None
  }

  /** A payload at `p` has its header in front of it, is aligned to words and as
      asked for, and ends inside the block. */
  ghost predicate RoomAt(b: Block, size: nat, align: nat, p: nat) {
    && b.start + 16 <= p && p % 8 == 0 && (PowerOfTwo(align) ==> p % align == 0)
    && p + (if size == 0 then 1 else size) <= b.End()
  }

  /** The block can hold the request. An alignment below a word is a word's. */
  ghost predicate Fits(b: Block, size: nat, align: nat) {
    b.End() < LIMIT && (align < 8 || PowerOfTwo(align)) && exists p :: RoomAt(b, size, align, p)
  }

  ghost predicate LeastRoom(b: Block, size: nat, align: nat, p: nat) {
    RoomAt(b, size, align, p) && forall q :: RoomAt(b, size, align, q) ==> p <= q
  }

  function Pow2(k: nat): nat {
    if k == 0 then 1 else 2 * Pow2(k - 1)
  }

  lemma {:induction false} Log(n: nat) returns (k: nat)
    requires PowerOfTwo(n)
    ensures n == Pow2(k)
  {
    if n == 1 { return 0; }
    k := Log(n / 2);
    k := k + 1;
  }

  lemma {:induction false} PowerOfLog(k: nat)
    ensures Pow2(k) > 0 && PowerOfTwo(Pow2(k))
  {
    if k > 0 { PowerOfLog(k - 1); }
  }

  /** The test for powers of two is right. */
  lemma PowerOfTwoIff(n: nat)
    ensures PowerOfTwo(n) <==> exists k :: n == Pow2(k)
  {
    if PowerOfTwo(n) { var k := Log(n); }
    if k :| n == Pow2(k) { PowerOfLog(k); }
  }

  lemma {:induction false} PowersDivide(a: nat, b: nat)
    requires PowerOfTwo(a) && PowerOfTwo(b) && a <= b
    ensures b % a == 0
  {
    if a > 1 {
      PowersDivide(a / 2, b / 2);
      var q := b / 2 / (a / 2);
      assert b / 2 == (a / 2) * q;
      assert b == a * q by {
        assert b == 2 * (b / 2) && a == 2 * (a / 2);
        assert 2 * ((a / 2) * q) == (2 * (a / 2)) * q;
      }
      MultipleMod(a, q);
    }
  }

  lemma LimitPower()
    ensures PowerOfTwo(LIMIT)
  {
    hide PowerOfTwo;
    OnePower();
    MorePower(1);
    MorePower(0x100);
    MorePower(0x1_0000);
    MorePower(0x100_0000);
    MorePower(0x1_0000_0000);
    MorePower(0x100_0000_0000);
    MorePower(0x1_0000_0000_0000);
    MorePower(0x100_0000_0000_0000);
  }

  lemma OnePower()
    ensures PowerOfTwo(1)
  {}

  lemma MorePower(n: nat)
    requires PowerOfTwo(n)
    ensures PowerOfTwo(256 * n)
  {
    hide PowerOfTwo;
    DoublePower(n);
    DoublePower(2 * n);
    DoublePower(4 * n);
    DoublePower(8 * n);
    DoublePower(16 * n);
    DoublePower(32 * n);
    DoublePower(64 * n);
    DoublePower(128 * n);
  }

  lemma DoublePower(n: nat)
    requires PowerOfTwo(n)
    ensures PowerOfTwo(2 * n)
  {
    assert 2 * n / 2 == n;
  }

  /** Multiples are a step apart. */
  lemma NextMultiple(p: nat, q: nat, align: nat)
    requires align > 0 && p % align == 0 && q % align == 0 && p < q
    ensures p + align <= q
  {
    var i, j := p / align, q / align;
    assert p == align * i && q == align * j;
    Scale(align, j - i);
    assert align * j == align * i + align * (j - i);
  }

  /** Where there is room at all, aligning the first address does not leave the
      address space. */
  lemma RoomInRange(b: Block, size: nat, align: nat, p: nat)
    requires RoomAt(b, size, align, p) && b.End() < LIMIT && PowerOfTwo(align) && align >= 8
    ensures b.start + HEADER + align - 1 < LIMIT
  {
    hide PowerOfTwo;
    LimitPower();
    if align > LIMIT {
      NextMultiple(0, p, align);
    } else {
      PowersDivide(align, LIMIT);
      NextMultiple(p, LIMIT, align);
    }
  }

  /** For an alignment below a word, a multiple of eight is a multiple of it. */
  lemma SmallAlign(align: nat, p: nat)
    requires PowerOfTwo(align) && align < 8 && p % 8 == 0
    ensures p % align == 0
  {
    SmallPowers(align);
    hide PowerOfTwo;
    if align == 2 { assert p % 2 == 0; }
    if align == 4 { assert p % 4 == 0; }
  }

  lemma BigAlign(align: nat, p: nat)
    requires PowerOfTwo(align) && align >= 8 && p % align == 0
    ensures p % 8 == 0
  {
    PowerOfTwoWords(align);
    MultipleOfWords(p, align);
  }

  lemma EightPower()
    ensures PowerOfTwo(8)
  {
    assert PowerOfTwo(4) && PowerOfTwo(2);
  }

  lemma RoomAligned(b: Block, size: nat, align: nat, p: nat)
    requires LeastRoom(b, size, align, p)
    ensures p % 8 == 0 && (PowerOfTwo(align) ==> p % align == 0)
  {
    hide PowerOfTwo;
  }

  /** The aligned address is the first there is room at. */
  lemma PayloadIff(b: Block, size: nat, align: nat)
    ensures PayloadIn(b, size, align).Some? <==> Fits(b, size, align)
    ensures PayloadIn(b, size, align).Some? ==> LeastRoom(b, size, align, PayloadIn(b, size, align).value)
  {
    hide PowerOfTwo, AlignUp;
    EightPower();
    var step := RequestAlign(align);
    if PayloadIn(b, size, align).Some? {
      var payload := PayloadIn(b, size, align).value;
      if align < 8 {
        if PowerOfTwo(align) { SmallAlign(align, payload); }
      } else {
        BigAlign(align, payload);
      }
      assert RoomAt(b, size, align, payload);
      forall q | RoomAt(b, size, align, q) ensures payload <= q {
        if q < payload { NextMultiple(q, payload, step); }
      }
    }
    if Fits(b, size, align) {
      var p :| RoomAt(b, size, align, p);
      if align < 8 {
        RoomInRange(b, size, 8, p);
      } else {
        RoomInRange(b, size, align, p);
      }
      var payload := AlignUp(b.start + HEADER, step).value;
      if p < payload { NextMultiple(p, payload, step); }
    }
  }

  lemma {:induction false} SmallPowers(n: nat)
    requires PowerOfTwo(n) && n < 16
    ensures n in {1, 2, 4, 8}
  {
    if n > 1 { SmallPowers(n / 2); }
  }

  lemma {:induction false} PowerOfTwoWords(align: nat)
    requires PowerOfTwo(align) && align >= WORD
    ensures align % WORD == 0
  {
    if align < 16 { SmallPowers(align); } else { PowerOfTwoWords(align / 2); }
  }

  /** What becomes of a free block: a free prefix and suffix of at least the
      size of a free block's record, and the live block between them. */
  datatype Carving = Carving(prefix: seq<Block>, live: Piece, suffix: seq<Block>)

  ghost function SuffixStart(payload: nat, size: nat): nat {
    var end := payload + RequestSize(size);
    if end % WORD == 0 then end else end - end % WORD + WORD
  }

  ghost function Carve(b: Block, payload: nat, suffix: nat): Carving
    requires b.start + HEADER <= payload && payload <= suffix <= b.End()
  {
    var gap, tail := payload - HEADER - b.start, b.End() - suffix;
    var start := if gap >= MIN_FREE then payload - HEADER else b.start;
    var end := if tail >= MIN_FREE then suffix else b.End();
    Carving(
      if gap >= MIN_FREE then [Block(b.start, gap)] else [],
      Live(Block(start, end - start), payload),
      if tail >= MIN_FREE then [Block(suffix, tail)] else [])
  }

  ghost function AsFree(blocks: seq<Block>): seq<Piece> {
    seq(|blocks|, i requires 0 <= i < |blocks| => Free(blocks[i]))
  }

  ghost function Carved(c: Carving): seq<Piece> {
    AsFree(c.prefix) + [c.live] + AsFree(c.suffix)
  }

  lemma RoundWord(n: nat)
    requires n + WORD <= LIMIT
    ensures AlignUp(n, WORD) == Some(if n % WORD == 0 then n else n - n % WORD + WORD)
  {
    assert PowerOfTwo(8) by { assert PowerOfTwo(4) && PowerOfTwo(2); }
  }

  lemma WordMultiple(align: nat, q: nat)
    requires align % WORD == 0
    ensures (align * q) % WORD == 0
  {
    var k := align / WORD;
    assert align == WORD * k;
    assert align * q == WORD * (k * q);
  }

  lemma MultipleOfWords(n: nat, align: nat)
    requires align > 0 && align % WORD == 0 && n % align == 0
    ensures n % WORD == 0
  {
    assert n == align * (n / align);
    WordMultiple(align, n / align);
  }

  lemma PayloadAligned(b: Block, size: nat, align: nat)
    requires PayloadIn(b, size, align).Some?
    ensures var payload := PayloadIn(b, size, align).value;
            b.start + HEADER <= payload && payload % WORD == 0 && payload % RequestAlign(align) == 0
              && payload + RequestSize(size) <= b.End()
  {
    PowerOfTwoWords(RequestAlign(align));
    MultipleOfWords(PayloadIn(b, size, align).value, RequestAlign(align));
  }

  lemma EndBound(b: Block)
    requires WellFormed(Free(b)) && b.End() < LIMIT
    ensures b.End() % WORD == 0 && b.End() + WORD <= LIMIT
  {
    WordSum(b.start, b.size);
  }

  lemma PayloadFits(b: Block, size: nat, align: nat)
    requires WellFormed(Free(b)) && PayloadIn(b, size, align).Some?
    ensures var payload := PayloadIn(b, size, align).value;
            && b.start + HEADER <= payload < b.End() && payload % WORD == 0 && payload % RequestAlign(align) == 0
            && payload + RequestSize(size) <= SuffixStart(payload, size) <= b.End()
              && SuffixStart(payload, size) % WORD == 0
            && AlignUp(payload + RequestSize(size), WORD) == Some(SuffixStart(payload, size))
  {
    hide AlignUp, RequestAlign, RequestSize, SuffixStart;
    PayloadAligned(b, size, align);
    EndBound(b);
    SuffixFacts(PayloadIn(b, size, align).value, size, b.End());
  }

  lemma SuffixFacts(payload: nat, size: nat, end: nat)
    requires payload + RequestSize(size) <= end && end % WORD == 0 && end + WORD <= LIMIT
    ensures payload + RequestSize(size) <= SuffixStart(payload, size) <= end && SuffixStart(payload, size) % WORD == 0
    ensures payload < end && AlignUp(payload + RequestSize(size), WORD) == Some(SuffixStart(payload, size))
  {
    hide AlignUp;
    RoundWord(payload + RequestSize(size));
  }

  lemma TilesShort(blocks: seq<Block>, lo: nat, hi: nat)
    requires |blocks| <= 1
    requires if blocks == [] then lo == hi
             else blocks[0].start == lo && blocks[0].End() == hi && WellFormed(Free(blocks[0]))
    ensures Tiles(AsFree(blocks), lo, hi) && Reach(AsFree(blocks), lo) == hi && FreeOf(AsFree(blocks)) == blocks
  {
    if blocks != [] { assert AsFree(blocks)[1..] == []; }
  }

  lemma TilesLive(p: Piece)
    requires WellFormed(p) && p.Live?
    ensures Tiles([p], p.block.start, p.block.End()) && Reach([p], p.block.start) == p.block.End() && FreeOf([p]) == []
  {}

  lemma WordSum(a: nat, b: nat)
    requires a % WORD == 0 && b % WORD == 0
    ensures (a + b) % WORD == 0 && (a <= b ==> (b - a) % WORD == 0)
  {
    var x, y := a / 8, b / 8;
    assert a == 8 * x && b == 8 * y;
    assert a + b == 8 * (x + y);
    if a <= b { assert b - a == 8 * (y - x); }
  }

  ghost predicate Carvable(b: Block, payload: nat, suffix: nat) {
    && WellFormed(Free(b)) && b.start + HEADER <= payload < suffix <= b.End()
    && payload % WORD == 0 && suffix % WORD == 0
  }

  lemma PrefixShape(start: nat, payload: nat)
    requires start % WORD == 0 && payload % WORD == 0 && start > 0 && start + HEADER + MIN_FREE <= payload
    ensures WellFormed(Free(Block(start, payload - HEADER - start))) && (payload - HEADER) % WORD == 0
  {
    WordSum(start, payload);
    WordSum(HEADER, payload - start);
    WordSum(HEADER, payload);
  }

  lemma SuffixShape(suffix: nat, end: nat)
    requires suffix % WORD == 0 && end % WORD == 0 && suffix > 0 && suffix + MIN_FREE <= end
    ensures WellFormed(Free(Block(suffix, end - suffix)))
  {
    WordSum(suffix, end);
  }

  lemma LiveShape(start: nat, end: nat, payload: nat)
    requires start % WORD == 0 && end % WORD == 0 && payload % WORD == 0 && start > 0 && start + HEADER <= payload < end
    ensures WellFormed(Live(Block(start, end - start), payload))
  {
    WordSum(start, end);
    WordSum(payload, end);
    AtLeastWord(end - payload);
  }

  lemma AtLeastWord(n: nat)
    requires n > 0 && n % WORD == 0
    ensures n >= WORD
  {}

  lemma CarveShape(b: Block, payload: nat, suffix: nat)
    requires Carvable(b, payload, suffix)
    ensures var c := Carve(b, payload, suffix);
            && WellFormed(c.live) && (forall i :: 0 <= i < |c.prefix| ==> WellFormed(Free(c.prefix[i])))
            && (forall i :: 0 <= i < |c.suffix| ==> WellFormed(Free(c.suffix[i])))
  {
    FreeFacts(b);
    hide WellFormed;
    var c := Carve(b, payload, suffix);
    if payload - HEADER - b.start >= MIN_FREE { PrefixShape(b.start, payload); }
    if b.End() - suffix >= MIN_FREE { SuffixShape(suffix, b.End()); }
    LiveShape(c.live.block.start, c.live.block.End(), payload);
  }

  lemma FreeFacts(b: Block)
    requires WellFormed(Free(b))
    ensures b.start % WORD == 0 && b.start > 0 && b.End() % WORD == 0 && b.size >= MIN_FREE
  {
    WordSum(b.start, b.size);
  }

  /** The carved pieces tile the block they come from. */
  lemma CarveTiles(b: Block, payload: nat, suffix: nat)
    requires Carvable(b, payload, suffix)
    ensures var c := Carve(b, payload, suffix);
            && Tiles(Carved(c), b.start, b.End()) && FreeOf(Carved(c)) == c.prefix + c.suffix
            && |c.prefix| <= 1 && |c.suffix| <= 1 && c.live.Live? && c.live.payload == payload
  {
    hide Tiles, FreeOf, Reach, AsFree, WellFormed;
    var c := Carve(b, payload, suffix);
    CarveShape(b, payload, suffix);
    var pre, mid, post := AsFree(c.prefix), [c.live], AsFree(c.suffix);
    TilesShort(c.prefix, b.start, c.live.block.start);
    TilesLive(c.live);
    TilesShort(c.suffix, c.live.block.End(), b.End());
    TilesConcat(mid, post, c.live.block.start, b.End());
    TilesConcat(pre, mid + post, b.start, b.End());
    FreeConcat(mid, post);
    FreeConcat(pre, mid + post);
    assert pre + (mid + post) == Carved(c);
  }
}

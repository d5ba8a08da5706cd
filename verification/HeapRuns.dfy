/** Any run of allocations, frees and stores by owners who stay inside what
    they were given. */
module HeapRuns {
  import opened FreeList
  import opened HeapLayout
  import opened HeapPieces
  import opened KernelHeap
  import opened Options

  /** An allocation as its owner knows it. */
  datatype Owned = Owned(ptr: nat, size: nat)

  datatype Request =
    | Allocate(size: nat, align: nat)
    | Release(n: nat)
    | Write(n: nat, offset: nat, value: nat)

  ghost predicate IsOwned(o: Owned, p: Piece) {
    p.Live? && p.payload == o.ptr && p.block.start <= o.ptr && o.ptr + o.size <= p.block.End()
  }

  /** The owners' allocations are the live pieces, one for one. */
  ghost predicate Owns(owned: seq<Owned>, held: seq<Piece>, pieces: seq<Piece>) {
    && |owned| == |held|
    && (forall i :: 0 <= i < |held| ==> held[i] in pieces && IsOwned(owned[i], held[i]))
    && (forall i, k :: 0 <= i < k < |held| ==> held[i] != held[k])
    && (forall p :: p in pieces && p.Live? ==> p in held)
  }

  ghost predicate Inside(p: Piece, a: nat) {
    p.block.start <= a < p.block.End()
  }

  ghost predicate InRange(o: Owned, a: nat) {
    o.ptr <= a < o.ptr + o.size
  }

  /** Memory holds what the owners last stored. */
  ghost predicate Remembers(mem: Words, owned: seq<Owned>, stored: map<nat, nat>) {
    forall a :: a in stored ==> Word(mem, a) == stored[a] && exists i :: 0 <= i < |owned| && InRange(owned[i], a)
  }

  ghost predicate Good(heap: Heap, owned: seq<Owned>, held: seq<Piece>, stored: map<nat, nat>)
    reads heap
  {
    heap.Valid() && Owns(owned, held, heap.pieces) && Remembers(heap.mem, owned, stored)
  }

  // ---------- what every request means ----------

  /** The heap as its owners see it: how it is divided, what they own, and what
      they stored. */
  datatype State = State(pieces: seq<Piece>, owned: seq<Owned>, stored: map<nat, nat>)

  ghost function StateOf(heap: Heap, owned: seq<Owned>, stored: map<nat, nat>): State
    reads heap
  {
    State(heap.Current(), owned, stored)
  }

  /** The words outside one allocation. */
  ghost function Remaining(stored: map<nat, nat>, o: Owned): map<nat, nat> {
    map a | a in stored && !InRange(o, a) :: stored[a]
  }

  predicate Writable(owned: seq<Owned>, n: nat, offset: nat) {
    n < |owned| && offset * WORD + WORD <= owned[n].size
  }

  /** No byte of the new allocation belongs to another. */
  ghost predicate Apart(owned: seq<Owned>, o: Owned) {
    forall i :: 0 <= i < |owned| ==> o.ptr + o.size <= owned[i].ptr || owned[i].ptr + owned[i].size <= o.ptr
  }

  /** Null exactly when no free block can hold the request; else a new, aligned
      allocation carved out of one free block. */
  ghost predicate Allocated(s: State, size: nat, align: nat, answer: nat, t: State) {
    if answer == 0 then t == s && NoneFits(s.pieces, size, align)
    else
      && t.owned == s.owned + [Owned(answer, size)] && t.stored == s.stored
      && answer % 8 == 0 && (PowerOfTwo(align) ==> answer % align == 0) && Apart(s.owned, Owned(answer, size))
      && exists j :: Took(s.pieces, j, answer, size, align, t.pieces)
  }

  /** The live piece that was handed out under this pointer. */
  ghost predicate Owner(p: Piece, o: Owned) {
    p.Live? && p.payload == o.ptr
  }

  /** Allocation `n` and the words stored in it are gone, and its block is free. */
  ghost predicate GivenBack(s: State, n: nat, t: State)
    requires n < |s.owned|
  {
    && t.owned == Without(s.owned, n) && t.stored == Remaining(s.stored, s.owned[n])
    && exists j :: 0 <= j < |s.pieces| && Owner(s.pieces[j], s.owned[n]) && t.pieces == Released(s.pieces, j)
  }

  ghost predicate Step(s: State, request: Request, answer: nat, t: State) {
    match request
    case Allocate(size, align) => Allocated(s, size, align, answer, t)
    case Release(n) => if n < |s.owned| then GivenBack(s, n, t) else t == s
    case Write(n, offset, value) =>
      t == if Writable(s.owned, n, offset) then s.(stored := s.stored[s.owned[n].ptr + offset * WORD := value]) else s
  }

  /** The requests, with these answers, lead from `s` to `t`. */
  ghost predicate Replayed(s: State, requests: seq<Request>, answers: seq<nat>, t: State) {
    |requests| == |answers| &&
    if requests == [] then t == s
    else
      var n := |requests| - 1;
      exists middle :: Replayed(s, requests[..n], answers[..n], middle) && Step(middle, requests[n], answers[n], t)
  }

  // ---------- the requests ----------

  /** A live word stays as it is when only free blocks are written to. */
  lemma LiveWordKept(was: Words, now: Words, pieces: seq<Piece>, lo: nat, hi: nat, p: Piece, a: nat)
    requires Tiles(pieces, lo, hi) && p in pieces && p.Live? && Inside(p, a) && OnlyInside(was, now, FreeOf(pieces))
    ensures Word(now, a) == Word(was, a)
  {
    hide Tiles, FreeOf, Word;
    var k :| 0 <= k < |pieces| && pieces[k] == p;
    LiveOutside(pieces, lo, hi, k, a);
  }

  lemma OtherWordKept(was: Words, now: Words, pieces: seq<Piece>, j: nat, lo: nat, hi: nat, p: Piece, a: nat)
    requires Tiles(pieces, lo, hi) && p in pieces && p.Live? && Inside(p, a) && j < |pieces| && p != pieces[j]
    requires OnlyInside(was, now, FreeOf(pieces) + [pieces[j].block])
    ensures Word(now, a) == Word(was, a)
  {
    hide Tiles, FreeOf, Word;
    var k :| 0 <= k < |pieces| && pieces[k] == p;
    LiveOutside(pieces, lo, hi, k, a);
    if j < k { TilesOrdered(pieces, lo, hi, j, k); } else { TilesOrdered(pieces, lo, hi, k, j); }
  }

  method DoAllocate(heap: Heap, size: nat, align: nat, owned: seq<Owned>, ghost held: seq<Piece>,
                    ghost stored: map<nat, nat>)
    returns (answer: nat, now: seq<Owned>, ghost holding: seq<Piece>)
    requires Good(heap, owned, held, stored)
    modifies heap
    ensures Good(heap, now, holding, stored) && heap.initialized
    ensures Allocated(old(StateOf(heap, owned, stored)), size, align, answer, StateOf(heap, now, stored))
  {
    hide Tiles, Coalesced, FreeOf, Headed, Known, Replaced, Carved, Carve, OnlyInside, SuffixStart, LeastRoom, Word,
      WellFormed, Remembers, Apart, Fits, PowerOfTwo;
    ghost var before, was, j := heap.Current(), heap.mem, 0;
    heap.CurrentTiles(heap.initialized, heap.pieces);
    answer, j := heap.Alloc(size, align);
    now, holding := owned, held;
    OwnsCurrent(owned, held, old(heap.pieces), before, old(heap.initialized));
    RemembersFree(was, heap.mem, before, owned, held, stored, heap.Base(), heap.heapEnd);
    if answer != 0 {
      ghost var c := Carve(before[j].block, answer, SuffixStart(answer, size));
      CarveTiles(before[j].block, answer, SuffixStart(answer, size));
      CarveEnd(before[j].block, answer, size, align);
      LiveIsNew(before, j, c, heap.Base(), heap.heapEnd);
      OwnsMore(owned, held, before, j, c, Owned(answer, size));
      now, holding := owned + [Owned(answer, size)], held + [c.live];
      RemembersMore(heap.mem, owned, Owned(answer, size), stored);
      OwnedApart(now, holding, heap.pieces, heap.Base(), heap.heapEnd);
    }
  }

  /** Before the first allocation nobody owns anything. */
  lemma OwnsCurrent(owned: seq<Owned>, held: seq<Piece>, pieces: seq<Piece>, current: seq<Piece>, initialized: bool)
    requires Owns(owned, held, pieces)
    requires if initialized then current == pieces else pieces == [] && forall p :: p in current ==> p.Free?
    ensures Owns(owned, held, current)
  {}

  lemma RangeInside(owned: seq<Owned>, held: seq<Piece>, pieces: seq<Piece>, i: nat, a: nat)
    requires Owns(owned, held, pieces) && i < |owned| && InRange(owned[i], a)
    ensures i < |held| && held[i] in pieces && held[i].Live? && Inside(held[i], a)
  {}

  lemma RemembersFree(was: Words, now: Words, pieces: seq<Piece>, owned: seq<Owned>, held: seq<Piece>, stored: map<nat,
                      nat>, lo: nat, hi: nat)
    requires Tiles(pieces, lo, hi) && Owns(owned, held, pieces) && OnlyInside(was, now, FreeOf(pieces))
             && Remembers(was, owned, stored)
    ensures Remembers(now, owned, stored)
  {
    hide Tiles, FreeOf, Word, OnlyInside, Owns, Inside, InRange;
    forall a | a in stored ensures Word(now, a) == stored[a] {
      var i :| 0 <= i < |owned| && InRange(owned[i], a);
      RangeInside(owned, held, pieces, i, a);
      LiveWordKept(was, now, pieces, lo, hi, held[i], a);
    }
  }

  lemma RemembersMore(mem: Words, owned: seq<Owned>, o: Owned, stored: map<nat, nat>)
    requires Remembers(mem, owned, stored)
    ensures Remembers(mem, owned + [o], stored)
  {
    hide Word, InRange;
    forall a | a in stored ensures exists i :: 0 <= i < |owned + [o]| && InRange((owned + [o])[i], a) {
      var i :| 0 <= i < |owned| && InRange(owned[i], a);
      assert (owned + [o])[i] == owned[i];
    }
  }

  /** The last allocation shares no byte with the others. */
  lemma OwnedApart(owned: seq<Owned>, held: seq<Piece>, pieces: seq<Piece>, lo: nat, hi: nat)
    requires Tiles(pieces, lo, hi) && Owns(owned, held, pieces) && owned != []
    ensures Apart(owned[..|owned| - 1], owned[|owned| - 1])
  {
    hide Tiles;
    var n := |owned| - 1;
    forall i | 0 <= i < n
      ensures owned[n].ptr + owned[n].size <= owned[i].ptr || owned[i].ptr + owned[i].size <= owned[n].ptr
    {
      assert IsOwned(owned[i], held[i]) && IsOwned(owned[n], held[n]) && held[i] != held[n];
      var j :| 0 <= j < |pieces| && pieces[j] == held[i];
      var k :| 0 <= k < |pieces| && pieces[k] == held[n];
      if j < k { TilesOrdered(pieces, lo, hi, j, k); } else { TilesOrdered(pieces, lo, hi, k, j); }
    }
  }

  lemma CarveEnd(b: Block, payload: nat, size: nat, align: nat)
    requires LeastRoom(b, size, align, payload) && Carvable(b, payload, SuffixStart(payload, size))
    ensures var live := Carve(b, payload, SuffixStart(payload, size)).live;
            live.block.start <= payload == live.payload && payload + size <= live.block.End()
    ensures payload % 8 == 0 && (PowerOfTwo(align) ==> payload % align == 0)
  {
    hide PowerOfTwo;
  }

  lemma OwnsMore(owned: seq<Owned>, held: seq<Piece>, pieces: seq<Piece>, j: nat, c: Carving, o: Owned)
    requires Owns(owned, held, pieces) && j < |pieces| && pieces[j].Free? && IsOwned(o, c.live) && c.live !in pieces
    ensures Owns(owned + [o], held + [c.live], Replaced(pieces, j, Carved(c)))
  {
    hide Replaced, Carved;
    forall p: Piece | p.Live?
      ensures p in Replaced(pieces, j, Carved(c)) <==> p in pieces || p == c.live { CarvedLive(pieces, j, c, p); }
    var h := held + [c.live];
    assert h[|held|] == c.live;
    assert forall p :: p in held ==> p in h;
  }

  method DoRelease(heap: Heap, n: nat, owned: seq<Owned>, ghost held: seq<Piece>, ghost stored: map<nat, nat>)
    returns (now: seq<Owned>, ghost holding: seq<Piece>, ghost left: map<nat, nat>)
    requires Good(heap, owned, held, stored) && n < |owned|
    modifies heap
    ensures Good(heap, now, holding, left) && heap.initialized
    ensures GivenBack(old(StateOf(heap, owned, stored)), n, StateOf(heap, now, left))
  {
    hide Tiles, Coalesced, FreeOf, Headed, Known, Released, OnlyInside, Word, WellFormed, Remembers, Inside, InRange,
      Remaining;
    ghost var before, was := heap.pieces, heap.mem;
    assert held[n] in before && IsOwned(owned[n], held[n]);
    ghost var j :| 0 <= j < |before| && before[j] == held[n];
    heap.Dealloc(owned[n].ptr, j);
    LiveNonNull(before, heap.Base(), heap.heapEnd, j);
    now, holding, left := Without(owned, n), Without(held, n), Remaining(stored, owned[n]);
    OwnsLess(owned, held, before, j, n, heap.Base(), heap.heapEnd);
    RemembersLess(was, heap.mem, before, j, n, owned, held, stored, heap.Base(), heap.heapEnd);
  }

  lemma LiveNonNull(pieces: seq<Piece>, lo: nat, hi: nat, j: nat)
    requires Tiles(pieces, lo, hi) && j < |pieces| && pieces[j].Live?
    ensures pieces[j].payload != 0
  {
    TilesAt(pieces, lo, hi, j);
  }

  /** All but the element at `n`. */
  function Without<T>(s: seq<T>, n: nat): seq<T>
    requires n < |s|
  {
    s[..n] + s[n + 1..]
  }

  lemma WithoutAt<T>(s: seq<T>, n: nat, i: nat)
    requires n < |s| && i < |s| - 1
    ensures |Without(s, n)| == |s| - 1 && Without(s, n)[i] == s[if i < n then i else i + 1]
  {}

  lemma WithoutHas<T>(s: seq<T>, n: nat, x: T)
    requires n < |s| && x in s && x != s[n]
    ensures x in Without(s, n)
  {
    var i :| 0 <= i < |s| && s[i] == x;
    var k := if i < n then i else i - 1;
    WithoutAt(s, n, k);
    assert Without(s, n)[k] == x;
  }

  lemma OwnsLess(owned: seq<Owned>, held: seq<Piece>, pieces: seq<Piece>, j: nat, n: nat, lo: nat, hi: nat)
    requires Owns(owned, held, pieces) && n < |held| && j < |pieces| && pieces[j] == held[n] && Tiles(pieces, lo, hi)
    ensures Owns(Without(owned, n), Without(held, n), Released(pieces, j))
  {
    hide Tiles, Released, Without, IsOwned;
    HeldLive(owned, held, pieces);
    var now, h, o := Released(pieces, j), Without(held, n), Without(owned, n);
    if |held| > 1 { WithoutAt(held, n, 0); WithoutAt(owned, n, 0); }
      else { WithoutLast(held, n); WithoutLast(owned, n); }
    forall p: Piece | p in now && p.Live? ensures p in h {
      ReleasedLive(pieces, j, lo, hi, p);
      WithoutHas(held, n, p);
    }
    forall i | 0 <= i < |h| ensures h[i] in now && IsOwned(o[i], h[i]) {
      WithoutAt(held, n, i);
      WithoutAt(owned, n, i);
      ReleasedLive(pieces, j, lo, hi, h[i]);
    }
    forall i, k | 0 <= i < k < |h| ensures h[i] != h[k] {
      WithoutAt(held, n, i);
      WithoutAt(held, n, k);
    }
  }

  lemma WithoutLast<T>(s: seq<T>, n: nat)
    requires n < |s| == 1
    ensures Without(s, n) == []
  {}

  lemma HeldLive(owned: seq<Owned>, held: seq<Piece>, pieces: seq<Piece>)
    requires Owns(owned, held, pieces)
    ensures forall i :: 0 <= i < |held| ==> held[i].Live? && held[i] in pieces
  {}

  lemma RemembersLess(was: Words, now: Words, pieces: seq<Piece>, j: nat, n: nat, owned: seq<Owned>, held: seq<Piece>,
                      stored: map<nat, nat>,
                      lo: nat, hi: nat)
    requires Tiles(pieces, lo, hi) && Owns(owned, held, pieces) && n < |held| && j < |pieces| && pieces[j] == held[n]
    requires Remembers(was, owned, stored) && OnlyInside(was, now, FreeOf(pieces) + [pieces[j].block])
    ensures Remembers(now, Without(owned, n), Remaining(stored, owned[n]))
  {
    hide Tiles, OnlyInside, Word, FreeOf, Inside, InRange, Without, IsOwned;
    var o := Without(owned, n);
    forall a | a in stored && !InRange(owned[n], a)
      ensures Word(now, a) == stored[a] && exists k :: 0 <= k < |o| && InRange(o[k], a) {
      var i :| 0 <= i < |owned| && InRange(owned[i], a);
      RangeInside(owned, held, pieces, i, a);
      assert held[i] != held[n];
      OtherWordKept(was, now, pieces, j, lo, hi, held[i], a);
      var k := if i < n then i else i - 1;
      WithoutAt(owned, n, k);
      assert InRange(o[k], a);
    }
  }

  method DoWrite(heap: Heap, n: nat, offset: nat, value: nat, owned: seq<Owned>, ghost held: seq<Piece>,
                 ghost stored: map<nat, nat>)
    returns (ghost now: map<nat, nat>)
    requires Good(heap, owned, held, stored) && Writable(owned, n, offset)
    modifies heap
    ensures Good(heap, owned, held, now) && heap.Current() == old(heap.Current())
            && now == stored[owned[n].ptr + offset * WORD := value]
  {
    hide Tiles, Coalesced, FreeOf, Headed, Known, WellFormed;
    ghost var j :| 0 <= j < |heap.pieces| && heap.pieces[j] == held[n];
    ghost var lo, hi := heap.Base(), heap.heapEnd;
    PayloadFacts(heap.pieces, lo, hi, j, offset);
    var address := owned[n].ptr + offset * WORD;
    heap.Store(owned[n].ptr, address, value, j);
    now := stored[address := value];
    assert InRange(owned[n], address);
  }

  lemma PayloadFacts(pieces: seq<Piece>, lo: nat, hi: nat, j: nat, offset: nat)
    requires Tiles(pieces, lo, hi) && j < |pieces| && pieces[j].Live?
    ensures (pieces[j].payload + offset * WORD) % WORD == 0 && pieces[j].block.start <= pieces[j].payload
  {
    TilesAt(pieces, lo, hi, j);
  }

  /** Every run does what its requests ask for, answer by answer, keeps the heap
      in order, and keeps every stored word where it was stored; and once
      everything is freed, in whatever order, the heap is the one free block it
      started as. */
  method Run(heap: Heap, requests: seq<Request>)
    returns (answers: seq<nat>, owned: seq<Owned>, ghost held: seq<Piece>, ghost stored: map<nat, nat>)
    requires heap.Valid() && !heap.initialized
    modifies heap
    ensures Good(heap, owned, held, stored)
    ensures Replayed(State(heap.Fresh(), [], map[]), requests, answers, StateOf(heap, owned, stored))
    ensures owned == [] && heap.initialized ==> heap.pieces == heap.Fresh()
  {
    hide Tiles, Coalesced, Headed, Known, FreeOf, Allocated, GivenBack, Heap.Fresh, Remembers;
    answers, owned, held, stored := [], [], [], map[];
    ghost var start := StateOf(heap, [], map[]);
    NothingStored(heap.mem);
    var i := 0;
    while i < |requests|
      invariant 0 <= i <= |requests| && Good(heap, owned, held, stored)
      invariant Replayed(start, requests[..i], answers, StateOf(heap, owned, stored))
    {
      ghost var middle := StateOf(heap, owned, stored);
      var answer := 0;
      match requests[i] {
        case Allocate(size, align) =>
          answer, owned, held := DoAllocate(heap, size, align, owned, held, stored);
        case Release(n) =>
          if n < |owned| {
            owned, held, stored := DoRelease(heap, n, owned, held, stored);
          }
        case Write(n, offset, value) =>
          if Writable(owned, n, offset) {
            stored := DoWrite(heap, n, offset, value, owned, held, stored);
          }
      }
      ReplayedNext(start, requests, answers, i, middle, answer, StateOf(heap, owned, stored));
      answers, i := answers + [answer], i + 1;
    }
    assert requests[..i] == requests;
    if owned == [] && heap.initialized { BackToFresh(heap, held); }
  }

  /** With nothing live, the heap is as it was set up. */
  lemma BackToFresh(heap: Heap, held: seq<Piece>)
    requires heap.Valid() && heap.initialized && Owns([], held, heap.pieces)
    ensures heap.pieces == heap.Fresh()
  {
    hide Tiles, Coalesced, Headed, Known, FreeOf;
    NoneHeld(held, heap.pieces);
    AllFree(heap.pieces, heap.Base(), heap.heapEnd);
  }

  lemma NothingStored(mem: Words)
    ensures Remembers(mem, [], map[])
  {}

  lemma ReplayedNext(s: State, requests: seq<Request>, answers: seq<nat>, i: nat, middle: State, answer: nat, t: State)
    requires i < |requests| && Replayed(s, requests[..i], answers, middle) && Step(middle, requests[i], answer, t)
    ensures Replayed(s, requests[..i + 1], answers + [answer], t)
  {
    hide Step;
    assert requests[..i + 1][..i] == requests[..i] && (answers + [answer])[..i] == answers;
  }

  lemma NoneHeld(held: seq<Piece>, pieces: seq<Piece>)
    requires held == [] && forall p :: p in pieces && p.Live? ==> p in held
    ensures forall i :: 0 <= i < |pieces| ==> pieces[i].Free?
  {
    forall i | 0 <= i < |pieces| ensures pieces[i].Free? {
      assert pieces[i] in pieces;
    }
  }
}

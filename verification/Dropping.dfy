/** Dropping a space: releasing every table it lists, and exactly when that
    leaves the other spaces as they were. */
module Dropping {
  import opened Descriptors
  import opened TableMemory
  import opened TableSteps

  ghost function ReleaseAll(m: Memory, pfns: seq<Pfn>): Memory {
    if pfns == [] then m else Release(ReleaseAll(m, pfns[..|pfns| - 1]), pfns[|pfns| - 1])
  }

  /** `n` is `m` with one reference less for every table in the list, and
      without the tables that had no other. */
  ghost predicate Released(m: Memory, n: Memory, pfns: seq<Pfn>) {
    && n.pages.Keys == n.refs.Keys == n.level.Keys
    && (forall p :: RefsOf(n, p) + Occurrences(pfns, p) == RefsOf(m, p))
    && (forall p :: p in n.pages <==> RefsOf(n, p) > 0)
    && (forall p :: p in n.pages ==> p in m.pages && n.pages[p] == m.pages[p] && Level(n, p) == Level(m, p))
  }

  lemma ReleaseOne(m: Memory, n: Memory, pfns: seq<Pfn>, q: Pfn)
    requires Released(m, n, pfns) && RefsOf(n, q) > 0
    ensures Released(m, Release(n, q), pfns + [q])
  {
    hide Occurrences, Release, RefsOf, Level;
    ReleaseFacts(n, q);
    ReleasedTrans(m, n, Release(n, q), pfns, q);
  }

  lemma ReleasedTrans(m: Memory, n: Memory, o: Memory, pfns: seq<Pfn>, q: Pfn)
    requires Released(m, n, pfns) && o.pages.Keys == o.refs.Keys == o.level.Keys
    requires forall p :: RefsOf(o, p) + (if p == q then 1 else 0) == RefsOf(n, p)
    requires forall p :: p in o.pages <==> RefsOf(o, p) > 0
    requires forall p :: p in o.pages ==> p in n.pages && o.pages[p] == n.pages[p] && Level(o, p) == Level(n, p)
    ensures Released(m, o, pfns + [q])
  {
    hide Occurrences, RefsOf, Level;
    OccurrencesNext(pfns, q);
    forall p ensures RefsOf(o, p) + Occurrences(pfns + [q], p) == RefsOf(m, p) {
      assert RefsOf(n, p) + Occurrences(pfns, p) == RefsOf(m, p);
    }
  }

  lemma OccurrencesNext(pfns: seq<Pfn>, q: Pfn)
    ensures forall p :: Occurrences(pfns + [q], p) == Occurrences(pfns, p) + if p == q then 1 else 0
  {
    hide Occurrences;
    forall p ensures Occurrences(pfns + [q], p) == Occurrences(pfns, p) + if p == q then 1 else 0 {
      OccurrencesAppend(pfns, [q], p);
      OccurrencesOne(q, p);
    }
  }

  /** What releasing one reference changes. */
  lemma ReleaseFacts(n: Memory, q: Pfn)
    requires n.pages.Keys == n.refs.Keys == n.level.Keys && RefsOf(n, q) > 0 && forall p :: p in n.pages <==>
             RefsOf(n, p) > 0
    ensures var o := Release(n, q);
            && o.pages.Keys == o.refs.Keys == o.level.Keys
            && (forall p :: RefsOf(o, p) + (if p == q then 1 else 0) == RefsOf(n, p))
            && (forall p :: p in o.pages <==> RefsOf(o, p) > 0)
            && (forall p :: p in o.pages ==> p in n.pages && o.pages[p] == n.pages[p] && Level(o, p) == Level(n, p))
  {
    var o := Release(n, q);
    if RefsOf(n, q) == 1 {
      assert o.pages.Keys == n.pages.Keys - {q} && o.refs.Keys == n.refs.Keys - {q}
        && o.level.Keys == n.level.Keys - {q};
    } else {
      assert o.refs.Keys == n.refs.Keys;
    }
  }

  lemma OccurrencesOne(q: Pfn, p: Pfn)
    ensures Occurrences([q], p) == if p == q then 1 else 0
  {}

  lemma {:induction false} ReleaseAllIs(m: Memory, pfns: seq<Pfn>)
    requires Shape(m) && forall p :: Occurrences(pfns, p) <= RefsOf(m, p)
    ensures Released(m, ReleaseAll(m, pfns), pfns)
  {
    hide Release, Released;
    if pfns == [] {
      ReleasedNone(m);
    } else {
      var fewer, q := pfns[..|pfns| - 1], pfns[|pfns| - 1];
      assert pfns == fewer + [q];
      forall p ensures Occurrences(fewer, p) <= RefsOf(m, p) {}
      ReleaseAllIs(m, fewer);
      ReleasedAt(m, ReleaseAll(m, fewer), fewer, q);
      ReleaseOne(m, ReleaseAll(m, fewer), fewer, q);
    }
  }

  lemma ReleasedNone(m: Memory)
    requires Shape(m)
    ensures Released(m, m, [])
  {}

  lemma ReleasedAt(m: Memory, n: Memory, pfns: seq<Pfn>, q: Pfn)
    requires Released(m, n, pfns)
    ensures RefsOf(n, q) + Occurrences(pfns, q) == RefsOf(m, q)
  {}

  // ---------- the other spaces ----------

  function Without(spaces: seq<Space>, k: nat): seq<Space>
    requires k < |spaces|
  {
    spaces[..k] + spaces[k + 1..]
  }

  lemma {:induction false} CountsWithout(spaces: seq<Space>, k: nat, p: Pfn)
    requires k < |spaces|
    ensures Listed(spaces, p) == Listed(Without(spaces, k), p) + Occurrences(spaces[k].pfns, p)
    ensures RootCount(spaces, p) == RootCount(Without(spaces, k), p) + if spaces[k].root == p then 1 else 0
  {
    var n := |spaces| - 1;
    var rest := Without(spaces, k);
    if k == n {
      assert rest == spaces[..n];
    } else {
      assert rest[..|rest| - 1] == Without(spaces[..n], k) && rest[|rest| - 1] == spaces[n];
      CountsWithout(spaces[..n], k, p);
    }
  }

  lemma WithoutAt(spaces: seq<Space>, k: nat, j: nat) returns (i: nat)
    requires k < |spaces| && j < |spaces| - 1
    ensures i < |spaces| && i != k && Without(spaces, k)[j] == spaces[i] && i == if j < k then j else j + 1
  {
    i := if j < k then j else j + 1;
  }

  lemma {:induction false} ListedAt(spaces: seq<Space>, j: nat, p: Pfn)
    requires j < |spaces| && p in spaces[j].pfns
    ensures Listed(spaces, p) > 0
  {
    var n := |spaces| - 1;
    if j == n { OccurrencesPositive(spaces[n].pfns, p); } else { ListedAt(spaces[..n], j, p); }
  }

  lemma {:induction false} PointersSplit(m: Memory, a: set<Pfn>, b: set<Pfn>, p: Pfn)
    requires a !! b
    ensures PointersFrom(m, a + b, p) == PointersFrom(m, a, p) + PointersFrom(m, b, p)
    decreases b
  {
    if b == {} {
      assert a + b == a;
    } else {
      var q :| q in b;
      PickRow(m, b, q, p);
      PickRow(m, a + b, q, p);
      assert a + b - {q} == a + (b - {q});
      PointersSplit(m, a, b - {q}, p);
    }
  }

  lemma NamedPointers(m: Memory, q: Pfn, i: nat, p: Pfn)
    requires Names(m, q, i, p)
    ensures Pointers(m, p) > 0
  {
    PickRow(m, m.pages.Keys, q, p);
    CountUpdate(m.pages[q], i, ZERO, p);
  }

  // ---------- when a space may be dropped ----------

  /** The tables nobody else lists. */
  ghost function Sole(m: Memory, s: Space): set<Pfn> {
    set p | p in m.pages && RefsOf(m, p) == Occurrences(s.pfns, p)
  }

  /** The space lists a table as often as the tables that go with it name it,
      and its root once more. */
  ghost predicate OwnsAlone(m: Memory, s: Space) {
    forall p :: Occurrences(s.pfns, p) == PointersFrom(m, Sole(m, s), p) + if p == s.root then 1 else 0
  }

  lemma ListedEnough(m: Memory, spaces: seq<Space>, k: nat)
    requires Inv(m, spaces) && k < |spaces|
    ensures forall p :: Occurrences(spaces[k].pfns, p) <= RefsOf(m, p)
  {
    hide Core, OwnsLevelOne;
    forall p ensures Occurrences(spaces[k].pfns, p) <= RefsOf(m, p) {
      CountsWithout(spaces, k, p);
      assert RefsOf(m, p) == Listed(spaces, p);
    }
  }

  lemma PointersLeft(m: Memory, n: Memory, s: Space, p: Pfn)
    requires Shape(m) && Released(m, n, s.pfns)
    ensures Pointers(m, p) == Pointers(n, p) + PointersFrom(m, Sole(m, s), p)
  {
    assert m.pages.Keys == n.pages.Keys + Sole(m, s) && n.pages.Keys !! Sole(m, s) by {
      forall q ensures q in m.pages <==> q in n.pages || q in Sole(m, s) {
        assert RefsOf(n, q) + Occurrences(s.pfns, q) == RefsOf(m, q);
      }
    }
    PointersSplit(m, n.pages.Keys, Sole(m, s), p);
    SameRows(m, n, n.pages.Keys, p);
  }

  /** The lists of the others account for what is left, in any case. */
  lemma ListsLeft(m: Memory, n: Memory, spaces: seq<Space>, k: nat)
    requires Inv(m, spaces) && k < |spaces| && Released(m, n, spaces[k].pfns)
    ensures Lists(n, Without(spaces, k))
  {
    hide Core, Listed, Occurrences, Without;
    var rest := Without(spaces, k);
    forall p ensures RefsOf(n, p) == Listed(rest, p) {
      CountsWithout(spaces, k, p);
      assert RefsOf(m, p) == Listed(spaces, p);
    }
    forall j | 0 <= j < |rest| ensures OwnsLevelOne(n, rest[j]) {
      RestOwns(m, n, spaces, k, j);
    }
  }

  lemma RestOwns(m: Memory, n: Memory, spaces: seq<Space>, k: nat, j: nat)
    requires Inv(m, spaces) && k < |spaces| && Released(m, n, spaces[k].pfns) && j < |Without(spaces, k)|
    requires forall p :: RefsOf(n, p) == Listed(Without(spaces, k), p)
    ensures OwnsLevelOne(n, Without(spaces, k)[j])
    ensures Without(spaces, k)[j].root in n.pages
  {
    hide Core, Listed, Occurrences, Without;
    var rest := Without(spaces, k);
    WithoutSize(spaces, k);
    var i := WithoutAt(spaces, k, j);
    assert OwnsLevelOne(m, spaces[i]);
    ListedAt(rest, j, rest[j].root);
    assert RefsOf(n, rest[j].root) > 0;
    EntriesLeft(m, n, spaces[k].pfns, rest[j].root);
  }

  lemma EntriesLeft(m: Memory, n: Memory, pfns: seq<Pfn>, q: Pfn)
    requires Released(m, n, pfns) && q in n.pages
    ensures forall i: nat :: Entry(n, q, i) == Entry(m, q, i)
  {
    hide Occurrences;
  }

  lemma ClearLeft(m: Memory, n: Memory, pfns: seq<Pfn>, s: Space)
    requires Released(m, n, pfns) && s.root in n.pages && UserSlotsClear(m, s)
    ensures UserSlotsClear(n, s)
  {
    hide Occurrences, Entry, Released;
    var d := Entry(n, s.root, 0);
    EntriesLeft(m, n, pfns, s.root);
    if d.pfn in n.pages { EntriesLeft(m, n, pfns, d.pfn); } else { EntriesGone(n, d.pfn); }
  }

  lemma EntriesGone(n: Memory, q: Pfn)
    requires q !in n.pages
    ensures forall i: nat :: Entry(n, q, i) == ZERO
  {}

  lemma WithoutSize(spaces: seq<Space>, k: nat)
    requires k < |spaces|
    ensures |Without(spaces, k)| == |spaces| - 1
  {}

  /** Reference counts stay exact exactly when the space owns alone what goes. */
  lemma PointersLeftIff(m: Memory, n: Memory, spaces: seq<Space>, k: nat)
    requires Inv(m, spaces) && k < |spaces| && Released(m, n, spaces[k].pfns)
    ensures PointersExact(n, Without(spaces, k)) <==> OwnsAlone(m, spaces[k])
  {
    hide Lists, Pointers, PointersFrom, Sole, Without, RootCount, Listed, Occurrences;
    var s, rest := spaces[k], Without(spaces, k);
    forall p
      ensures RefsOf(n, p) == Pointers(n, p) + RootCount(rest, p)
              <==> Occurrences(s.pfns, p) == PointersFrom(m, Sole(m, s), p) + if p == s.root then 1 else 0
    {
      PointersLeft(m, n, s, p);
      CountsWithout(spaces, k, p);
      assert RefsOf(m, p) == Pointers(m, p) + RootCount(spaces, p);
    }
  }

  lemma TypedLeft(m: Memory, n: Memory, spaces: seq<Space>, pfns: seq<Pfn>)
    requires Typed(m) && Released(m, n, pfns) && PointersExact(n, spaces)
    ensures Typed(n)
  {
    hide Pointers, Occurrences;
    forall q, i | q in n.pages && 0 <= i < ENTRIES ensures EntryTyped(n, q, Entry(n, q, i)) {
      var d := Entry(n, q, i);
      assert d == Entry(m, q, i) && EntryTyped(m, q, Entry(m, q, i));
      if Level(n, q) < 2 && IsTable(d) {
        NamedPointers(n, q, i, d.pfn);
        assert RefsOf(n, d.pfn) > 0;
      }
    }
    forall q | q in n.pages ensures Level(n, q) <= 2 { assert q in m.pages; }
  }

  lemma OnceLeft(m: Memory, n: Memory, pfns: seq<Pfn>)
    requires LeavesOnce(m) && Released(m, n, pfns)
    ensures LeavesOnce(n)
  {
    hide Occurrences, Level;
    forall q | q in n.pages && Level(n, q) == 1 ensures RowDistinct(n, q) {
      assert RowDistinct(m, q);
      EntriesLeft(m, n, pfns, q);
    }
  }

  lemma RootsLeft(m: Memory, n: Memory, spaces: seq<Space>, k: nat)
    requires Inv(m, spaces) && k < |spaces| && Released(m, n, spaces[k].pfns)
    ensures RootsDistinct(n, Without(spaces, k))
    ensures forall j :: 0 <= j < |Without(spaces, k)| ==> UserSlotsClear(n, Without(spaces, k)[j])
  {
    hide Listed, Occurrences, Without, Pointers, RootCount, UserSlotsClear, LeavesOnce;
    var rest := Without(spaces, k);
    WithoutSize(spaces, k);
    ListsLeft(m, n, spaces, k);
    forall j | 0 <= j < |rest|
      ensures rest[j].root in n.pages && Level(n, rest[j].root) == 0 && UserSlotsClear(n, rest[j]) {
      RestOwns(m, n, spaces, k, j);
      var i := WithoutAt(spaces, k, j);
      assert UserSlotsClear(m, spaces[i]) && Level(m, spaces[i].root) == 0;
      ClearLeft(m, n, spaces[k].pfns, spaces[i]);
    }
    forall i, j | 0 <= i < j < |rest| ensures rest[i].root != rest[j].root {
      var x := WithoutAt(spaces, k, i);
      var y := WithoutAt(spaces, k, j);
    }
  }

  lemma ShapeLeft(m: Memory, n: Memory, pfns: seq<Pfn>)
    requires Shape(m) && Released(m, n, pfns)
    ensures Shape(n)
  {
    hide Occurrences, FitsFrame;
    forall p | p in n.refs ensures n.refs[p] > 0 { assert p in n.pages; }
  }

  lemma ViewLeft(m: Memory, n: Memory, root: Pfn, pfns: seq<Pfn>, ix: Index)
    requires Released(m, n, pfns) && Typed(n) && root in n.pages && Level(n, root) == 0 && Within(ix)
    ensures View(n, root, ix) == View(m, root, ix)
  {
    hide Occurrences, Typed, Level;
    WalkTyped(n, root, ix);
  }

  /** Dropping a space leaves the others in order exactly when it owns alone
      the tables that go with it; and then they see what they saw. */
  lemma DropIff(m: Memory, spaces: seq<Space>, k: nat)
    requires Inv(m, spaces) && k < |spaces|
    ensures var n := ReleaseAll(m, spaces[k].pfns);
            && (Inv(n, Without(spaces, k)) <==> OwnsAlone(m, spaces[k]))
            && (OwnsAlone(m, spaces[k]) ==> SameViews(m, n, Without(spaces, k)))
            && (forall p :: p in n.pages <==> p in m.pages && p !in Sole(m, spaces[k]))
  {
    hide Released, OwnsAlone, Without, ReleaseAll, Typed, PointersExact, RootsDistinct, Lists, UserSlotsClear,
      LeavesOnce, View, Level, Shape;
    var n, rest := ReleaseAll(m, spaces[k].pfns), Without(spaces, k);
    ListedEnough(m, spaces, k);
    ReleaseAllIs(m, spaces[k].pfns);
    ShapeLeft(m, n, spaces[k].pfns);
    ListsLeft(m, n, spaces, k);
    RootsLeft(m, n, spaces, k);
    PointersLeftIff(m, n, spaces, k);
    SoleGone(m, n, spaces[k]);
    OnceLeft(m, n, spaces[k].pfns);
    if OwnsAlone(m, spaces[k]) {
      TypedLeft(m, n, rest, spaces[k].pfns);
      forall j, ix | 0 <= j < |rest| && Within(ix) ensures View(n, rest[j].root, ix) == View(m, rest[j].root, ix) {
        RootAt(n, rest, j);
        ViewLeft(m, n, rest[j].root, spaces[k].pfns, ix);
      }
    }
  }

  lemma SoleGone(m: Memory, n: Memory, s: Space)
    requires Shape(m) && Released(m, n, s.pfns)
    ensures forall p :: p in n.pages <==> p in m.pages && p !in Sole(m, s)
  {
    hide Occurrences;
    forall p ensures p in n.pages <==> p in m.pages && p !in Sole(m, s) {
      assert RefsOf(n, p) + Occurrences(s.pfns, p) == RefsOf(m, p);
    }
  }

  /** The only space may always be dropped, and nothing is left. */
  lemma DropLast(m: Memory, s: Space)
    requires Inv(m, [s])
    ensures OwnsAlone(m, s) && ReleaseAll(m, s.pfns).pages == map[]
  {
    hide Occurrences, PointersFrom, ReleaseAll;
    forall p ensures RefsOf(m, p) == Occurrences(s.pfns, p) && RootCount([s], p) == if s.root == p then 1 else 0 {
      assert RefsOf(m, p) == Listed([s], p);
      CountsWithout([s], 0, p);
      assert Without([s], 0) == [];
    }
    assert Sole(m, s) == m.pages.Keys;
    DropIff(m, [s], 0);
  }

  /** A space whose tables are each referenced once may be dropped if no table
      of its own names a foreign one and no foreign table names one of its own. */
  lemma DropClosed(m: Memory, spaces: seq<Space>, k: nat)
    requires Inv(m, spaces) && k < |spaces|
    requires forall p :: p in spaces[k].pfns ==> RefsOf(m, p) == 1
    requires forall q, i: nat, p :: Names(m, q, i, p) ==> (q in spaces[k].pfns <==> p in spaces[k].pfns)
    ensures OwnsAlone(m, spaces[k])
    ensures forall p :: p in spaces[k].pfns ==> p !in ReleaseAll(m, spaces[k].pfns).pages
  {
    hide Occurrences, ReleaseAll, PointersFrom, Names;
    var s := spaces[k];
    ListedEnough(m, spaces, k);
    forall p ensures p in s.pfns ==> Occurrences(s.pfns, p) == 1 { OccurrencesPositive(s.pfns, p); }
    SoleIsListed(m, s);
    forall p ensures Occurrences(s.pfns, p) == PointersFrom(m, Sole(m, s), p) + if p == s.root then 1 else 0 {
      ClosedAt(m, spaces, k, p);
    }
    DropIff(m, spaces, k);
    forall p | p in s.pfns ensures p in Sole(m, s) {}
  }

  lemma SoleIsListed(m: Memory, s: Space)
    requires Shape(m) && forall p :: p in s.pfns ==> RefsOf(m, p) == 1 == Occurrences(s.pfns, p)
    ensures forall p :: p in Sole(m, s) <==> p in s.pfns
  {
    hide Occurrences;
    forall p ensures p in Sole(m, s) <==> p in s.pfns {
      OccurrencesPositive(s.pfns, p);
    }
  }

  lemma ClosedAt(m: Memory, spaces: seq<Space>, k: nat, p: Pfn)
    requires Inv(m, spaces) && k < |spaces|
             && (p in spaces[k].pfns ==> RefsOf(m, p) == 1 == Occurrences(spaces[k].pfns, p))
    requires forall q :: q in Sole(m, spaces[k]) <==> q in spaces[k].pfns
    requires forall q, i: nat, p :: Names(m, q, i, p) ==> (q in spaces[k].pfns <==> p in spaces[k].pfns)
    ensures Occurrences(spaces[k].pfns, p) == PointersFrom(m, Sole(m, spaces[k]), p) + if p == spaces[k].root then 1
            else 0
  {
    hide Occurrences, PointersFrom, Names, Sole, Lists;
    var s, own, others := spaces[k], Sole(m, spaces[k]), m.pages.Keys - Sole(m, spaces[k]);
    InvParts(m, spaces, k);
    RootListed(m, s);
    OccurrencesPositive(s.pfns, p);
    assert m.pages.Keys == own + others by { SoleLive(m, s); }
    PointersSplit(m, own, others, p);
    if p in s.pfns {
      forall q | q in others ensures Row(m, q, p) == 0 { ForeignRow(m, q, p, s.pfns); }
      NoRows(m, others, p);
      SoleRoot(m, spaces, k, p);
      assert RefsOf(m, p) == Pointers(m, p) + RootCount(spaces, p);
    } else {
      forall q | q in own ensures Row(m, q, p) == 0 { ForeignRow(m, q, p, s.pfns); }
      NoRows(m, own, p);
    }
  }

  lemma SoleLive(m: Memory, s: Space)
    ensures Sole(m, s) <= m.pages.Keys
  {}

  lemma ForeignRow(m: Memory, q: Pfn, p: Pfn, pfns: seq<Pfn>)
    requires (q in pfns) != (p in pfns) && forall q, i: nat, p :: Names(m, q, i, p) ==> (q in pfns <==> p in pfns)
    ensures Row(m, q, p) == 0
  {
    if q in m.pages && Level(m, q) < 2 {
      forall i | 0 <= i < |m.pages[q]| ensures Points(m.pages[q][i], p) == 0 {
        assert !Names(m, q, i, p);
      }
      CountNone(m.pages[q], p);
    }
  }

  lemma {:induction false} NoRows(m: Memory, keys: set<Pfn>, p: Pfn)
    requires forall q :: q in keys ==> Row(m, q, p) == 0
    ensures PointersFrom(m, keys, p) == 0
    decreases keys
  {
    if keys != {} {
      var q :| q in keys;
      PickRow(m, keys, q, p);
      NoRows(m, keys - {q}, p);
    }
  }

  /** A table that one space lists, once, is the root of no other. */
  lemma SoleRoot(m: Memory, spaces: seq<Space>, k: nat, p: Pfn)
    requires Inv(m, spaces) && k < |spaces| && RefsOf(m, p) == 1 == Occurrences(spaces[k].pfns, p)
    ensures RootCount(spaces, p) == if p == spaces[k].root then 1 else 0
  {
    hide Occurrences, Core, RootCount, Without;
    CountsWithout(spaces, k, p);
    var rest := Without(spaces, k);
    assert RefsOf(m, p) == Listed(spaces, p);
    if RootCount(rest, p) > 0 {
      var j := SomeRoot(rest, p);
      WithoutSize(spaces, k);
      var i := WithoutAt(spaces, k, j);
      assert OwnsLevelOne(m, spaces[i]);
      ListedAt(rest, j, p);
    }
  }

  lemma {:induction false} SomeRoot(spaces: seq<Space>, p: Pfn) returns (j: nat)
    requires RootCount(spaces, p) > 0
    ensures j < |spaces| && spaces[j].root == p
  {
    var n := |spaces| - 1;
    if spaces[n].root == p { j := n; } else { j := SomeRoot(spaces[..n], p); }
  }

  /** Sharing spoils it: once a space has detached from a level-one table it
      shared, it lists the leaves below twice, and takes them along although
      the other space still names them. */
  lemma DetachedNotAlone(m: Memory, n: Memory, s: Space, pfns: seq<Pfn>, i: nat, j: nat, one: Pfn, copy: Pfn,
                         d: Descriptor)
    requires Shape(m) && Typed(m) && DetachStep(m, n, s.root, i, one, copy, d) && DetachList(m, s.pfns, pfns, one, copy)
    requires Level(m, one) == 1 && j < ENTRIES && IsTable(Entry(m, one, j)) && one !in pfns
    requires var leaf := Entry(m, one, j).pfn; RefsOf(m, leaf) == Pointers(m, leaf) == Occurrences(s.pfns, leaf)
    ensures !OwnsAlone(n, s.(pfns := pfns))
  {
    hide Occurrences, PointersFrom, Shape, Typed, Level;
    var t, leaf := s.(pfns := pfns), Entry(m, one, j).pfn;
    NamedLevel(m, s.root, i, one);
    NamesFrom(m, one, j);
    NamedLevel(m, one, j, leaf);
    DetachStepNames(m, n, s.root, i, one, copy, d);
    DetachSparesSource(m, n, s.root, i, one, copy, d, j);
    assert leaf != one && leaf != copy by { DetachLevels(m, n, s.root, i, one, copy, d, leaf); }
    assert Pointers(n, leaf) == RefsOf(n, leaf) == Occurrences(pfns, leaf);
    OccurrencesPositive(pfns, one);
    assert one !in Sole(n, t) by { DetachLeavesSource(m, n, s.root, i, one, copy, d); }
    NotAllRows(n, Sole(n, t), one, j, leaf);
  }

  lemma DetachSparesSource(m: Memory, n: Memory, q: Pfn, i: nat, source: Pfn, copy: Pfn, d: Descriptor, j: nat)
    requires DetachStep(m, n, q, i, source, copy, d) && q != source
    ensures Entry(n, source, j) == Entry(m, source, j) && Level(n, source) == Level(m, source)
  {
    hide Entry, Level, Pointers, RefsOf, Row, FitsFrame, Names;
  }

  lemma DetachLevels(m: Memory, n: Memory, q: Pfn, i: nat, source: Pfn, copy: Pfn, d: Descriptor, leaf: Pfn)
    requires DetachStep(m, n, q, i, source, copy, d) && leaf in m.pages && Level(m, leaf) != Level(m, source)
    ensures leaf != source && leaf != copy
  {
    hide Entry, Level, Pointers, RefsOf, Row, FitsFrame, Names;
  }

  lemma DetachLeavesSource(m: Memory, n: Memory, q: Pfn, i: nat, source: Pfn, copy: Pfn, d: Descriptor)
    requires DetachStep(m, n, q, i, source, copy, d)
    ensures RefsOf(n, source) > 0
  {
    hide Entry, Level, Pointers, Row, FitsFrame, Names;
  }

  lemma NotAllRows(m: Memory, keys: set<Pfn>, q: Pfn, i: nat, p: Pfn)
    requires q !in keys && keys <= m.pages.Keys && Names(m, q, i, p)
    ensures PointersFrom(m, keys, p) < Pointers(m, p)
  {
    var rest := m.pages.Keys - keys;
    assert m.pages.Keys == keys + rest;
    PointersSplit(m, keys, rest, p);
    PickRow(m, rest, q, p);
    CountUpdate(m.pages[q], i, ZERO, p);
  }
}

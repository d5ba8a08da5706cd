/** What each change the address-space code makes to the tables keeps: the
    invariant over all live spaces, and every descriptor every space sees. */
module TableSteps {
  import opened Descriptors
  import opened TableMemory

  ghost predicate SameRoots(spaces: seq<Space>, after: seq<Space>) {
    |spaces| == |after| && forall k :: 0 <= k < |spaces| ==> spaces[k].root == after[k].root
  }

  ghost predicate SameView(m: Memory, n: Memory, root: Pfn) {
    forall ix :: Within(ix) ==> View(n, root, ix) == View(m, root, ix)
  }

  /** No space sees any difference. */
  ghost predicate SameViews(m: Memory, n: Memory, spaces: seq<Space>) {
    forall k :: 0 <= k < |spaces| ==> SameView(m, n, spaces[k].root)
  }

  /** From `root`, exactly the descriptor at `ix` changed, to `d`. */
  ghost predicate ViewSet(m: Memory, n: Memory, root: Pfn, ix: Index, d: Descriptor) {
    forall jx :: Within(jx) ==> View(n, root, jx) == if jx == ix then d else View(m, root, jx)
  }

  /** Space `k` sees `d` at `ix`; no other space sees any difference. */
  ghost predicate OnlyViewSet(m: Memory, n: Memory, spaces: seq<Space>, k: nat, ix: Index, d: Descriptor)
    requires k < |spaces|
  {
    && ViewSet(m, n, spaces[k].root, ix, d)
    && forall j :: 0 <= j < |spaces| && j != k ==> SameView(m, n, spaces[j].root)
  }

  function LevelOne(m: Memory, root: Pfn, ix: Index): Pfn {
    Entry(m, root, ix.i0).pfn
  }

  function Leaf(m: Memory, root: Pfn, ix: Index): Pfn {
    Entry(m, LevelOne(m, root, ix), ix.i1).pfn
  }

  /** The walk from `root` along `ix` reaches a leaf table. */
  predicate Reaches(m: Memory, root: Pfn, ix: Index) {
    IsTable(Entry(m, root, ix.i0)) && IsTable(Entry(m, LevelOne(m, root, ix), ix.i1))
  }

  /** ... through tables that are each referenced once. */
  ghost predicate PrivatePath(m: Memory, root: Pfn, ix: Index) {
    Reaches(m, root, ix) && RefsOf(m, LevelOne(m, root, ix)) == 1 && RefsOf(m, Leaf(m, root, ix)) == 1
  }

  lemma WalkTyped(m: Memory, root: Pfn, ix: Index)
    requires Typed(m) && root in m.pages && Level(m, root) == 0 && Within(ix)
    ensures var d := Entry(m, root, ix.i0);
            (d == ZERO || IsTable(d)) && (IsTable(d) ==> d.pfn in m.pages && Level(m, d.pfn) == 1)
    ensures Reaches(m, root, ix) ==> Leaf(m, root, ix) in m.pages && Level(m, Leaf(m, root, ix)) == 2
  {
    assert EntryTyped(m, root, Entry(m, root, ix.i0));
    if IsTable(Entry(m, root, ix.i0)) {
      assert EntryTyped(m, LevelOne(m, root, ix), Entry(m, LevelOne(m, root, ix), ix.i1));
    }
  }

  // ---------- writing a private leaf entry ----------

  lemma PutLeafTyped(m: Memory, q: Pfn, i: nat, d: Descriptor)
    requires Shape(m) && Typed(m) && q in m.pages && Level(m, q) == 2 && i < ENTRIES
    ensures Shape(Put(m, q, i, d)) && Typed(Put(m, q, i, d))
  {
    var n := Put(m, q, i, d);
    assert Typed(n) by {
      hide Put, Entry, Level, IsTable;
      PutEntries(m, q, i, d);
      forall r, j | r in n.pages && 0 <= j < ENTRIES ensures EntryTyped(n, r, Entry(n, r, j)) {
        assert EntryTyped(m, r, Entry(m, r, j));
      }
    }
  }

  lemma PutLeafOnce(m: Memory, q: Pfn, i: nat, d: Descriptor)
    requires LeavesOnce(m) && q in m.pages && Level(m, q) == 2 && i < |m.pages[q]|
    ensures LeavesOnce(Put(m, q, i, d))
  {
    hide Put, Entry, Level, IsTable;
    PutEntries(m, q, i, d);
    forall r | r in Put(m, q, i, d).pages && Level(Put(m, q, i, d), r) == 1 ensures RowDistinct(Put(m, q, i, d), r) {
      assert RowDistinct(m, r);
    }
  }

  lemma PutLeafPointers(m: Memory, spaces: seq<Space>, q: Pfn, i: nat, d: Descriptor)
    requires PointersExact(m, spaces) && q in m.pages && Level(m, q) == 2 && i < |m.pages[q]|
    ensures PointersExact(Put(m, q, i, d), spaces)
  {
    hide Pointers, RootCount;
    var n := Put(m, q, i, d);
    forall p ensures RefsOf(n, p) == Pointers(n, p) + RootCount(spaces, p) {
      PutPointers(m, q, i, d, p);
      assert RefsOf(m, p) == Pointers(m, p) + RootCount(spaces, p);
    }
  }

  lemma PutLeafLists(m: Memory, spaces: seq<Space>, q: Pfn, i: nat, d: Descriptor)
    requires ListsExact(m, spaces)
    ensures ListsExact(Put(m, q, i, d), spaces)
  {
    hide Listed;
    var n := Put(m, q, i, d);
    forall p ensures RefsOf(n, p) == Listed(spaces, p) { assert RefsOf(m, p) == Listed(spaces, p); }
  }

  lemma PutLeafOwns(m: Memory, s: Space, q: Pfn, i: nat, d: Descriptor)
    requires Level(m, s.root) == 0 && OwnsLevelOne(m, s) && q in m.pages && Level(m, q) == 2 && i < |m.pages[q]|
    ensures OwnsLevelOne(Put(m, q, i, d), s)
  {
    hide Put, Entry, Level, IsTable;
    PutEntries(m, q, i, d);
  }

  lemma PutLeafClear(m: Memory, s: Space, q: Pfn, i: nat, d: Descriptor)
    requires Typed(m) && s.root in m.pages && Level(m, s.root) == 0
    requires UserSlotsClear(m, s) && q in m.pages && Level(m, q) == 2 && i < |m.pages[q]|
    ensures UserSlotsClear(Put(m, q, i, d), s)
  {
    hide Put, Entry, Level, IsTable;
    PutEntries(m, q, i, d);
    assert EntryTyped(m, s.root, Entry(m, s.root, 0));
  }

  lemma PutLeafCore(m: Memory, spaces: seq<Space>, q: Pfn, i: nat, d: Descriptor)
    requires Core(m, spaces) && q in m.pages && Level(m, q) == 2 && i < ENTRIES
    ensures Core(Put(m, q, i, d), spaces)
    ensures Lists(m, spaces) ==> Lists(Put(m, q, i, d), spaces)
  {
    hide Put, Entry, Level, IsTable, Typed, PointersExact, ListsExact, OwnsLevelOne, UserSlotsClear, Shape, LeavesOnce;
    ShapeAt(m, q);
    PutEntries(m, q, i, d);
    PutLeafTyped(m, q, i, d);
    PutLeafOnce(m, q, i, d);
    PutLeafPointers(m, spaces, q, i, d);
    forall k | 0 <= k < |spaces| ensures UserSlotsClear(Put(m, q, i, d), spaces[k]) {
      PutLeafClear(m, spaces[k], q, i, d);
    }
    if Lists(m, spaces) {
      PutLeafLists(m, spaces, q, i, d);
      forall k | 0 <= k < |spaces| ensures OwnsLevelOne(Put(m, q, i, d), spaces[k]) {
        PutLeafOwns(m, spaces[k], q, i, d);
      }
    }
  }

  /** A leaf reached along a private path is reached by nobody else. */
  lemma PrivateLeafUnique(m: Memory, spaces: seq<Space>, k: nat, ix: Index, j: nat, jx: Index)
    requires Core(m, spaces) && k < |spaces| && Within(ix) && j < |spaces| && Within(jx)
    requires PrivatePath(m, spaces[k].root, ix)
    requires Reaches(m, spaces[j].root, jx) && Leaf(m, spaces[j].root, jx) == Leaf(m, spaces[k].root, ix)
    ensures j == k && jx.i0 == ix.i0 && jx.i1 == ix.i1
  {
    hide Entry, Level, Pointers, RefsOf, Typed, Shape, IsTable, UserSlotsClear, RootCount, LeavesOnce;
    WalkTyped(m, spaces[k].root, ix);
    WalkTyped(m, spaces[j].root, jx);
    var leaf, one := Leaf(m, spaces[k].root, ix), LevelOne(m, spaces[k].root, ix);
    assert RefsOf(m, leaf) == Pointers(m, leaf) + RootCount(spaces, leaf);
    assert RefsOf(m, one) == Pointers(m, one) + RootCount(spaces, one);
    OnePointer(m, one, ix.i1, LevelOne(m, spaces[j].root, jx), jx.i1, leaf);
    OnePointer(m, spaces[k].root, ix.i0, spaces[j].root, jx.i0, one);
  }

  lemma PutLeafView(m: Memory, root: Pfn, jx: Index, q: Pfn, i: nat, d: Descriptor)
    requires Shape(m) && Typed(m) && root in m.pages && Level(m, root) == 0 && Within(jx)
    requires q in m.pages && Level(m, q) == 2 && i < ENTRIES
    ensures View(Put(m, q, i, d), root, jx)
         == if Reaches(m, root, jx) && Leaf(m, root, jx) == q && jx.i2 == i then d else View(m, root, jx)
    ensures Reaches(Put(m, q, i, d), root, jx) == Reaches(m, root, jx)
    ensures LevelOne(Put(m, q, i, d), root, jx) == LevelOne(m, root, jx)
    ensures Reaches(m, root, jx) ==> Leaf(Put(m, q, i, d), root, jx) == Leaf(m, root, jx)
  {
    hide Put, Entry, Level, IsTable;
    PutEntries(m, q, i, d);
    WalkTyped(m, root, jx);
  }

  /** Writing an entry of a private leaf is seen by its own space only, at that
      index only. */
  lemma PutPrivateLeaf(m: Memory, spaces: seq<Space>, k: nat, ix: Index, d: Descriptor, n: Memory)
    requires Core(m, spaces) && k < |spaces| && Within(ix) && PrivatePath(m, spaces[k].root, ix)
    requires n == Put(m, Leaf(m, spaces[k].root, ix), ix.i2, d)
    ensures Core(n, spaces) && OnlyViewSet(m, n, spaces, k, ix, d)
    ensures Lists(m, spaces) ==> Lists(n, spaces)
    ensures forall jx :: Within(jx) ==> Reaches(n, spaces[k].root, jx) == Reaches(m, spaces[k].root, jx)
    ensures forall jx :: Within(jx) && PrivatePath(m, spaces[k].root, jx) ==>
      PrivatePath(n, spaces[k].root, jx) && Leaf(n, spaces[k].root, jx) == Leaf(m, spaces[k].root, jx)
  {
    hide Put, Entry, Level, IsTable, View, Reaches, PointersExact, Typed, Shape, UserSlotsClear, LeavesOnce, Lists,
      RefsOf;
    var leaf := Leaf(m, spaces[k].root, ix);
    WalkTyped(m, spaces[k].root, ix);
    ShapeAt(m, leaf);
    PutLeafCore(m, spaces, leaf, ix.i2, d);
    PutEntries(m, leaf, ix.i2, d);
    forall j, jx | 0 <= j < |spaces| && Within(jx)
      ensures View(n, spaces[j].root, jx) == if j == k && jx == ix then d else View(m, spaces[j].root, jx)
      ensures j == k ==> Reaches(n, spaces[j].root, jx) == Reaches(m, spaces[j].root, jx)
      ensures j == k && PrivatePath(m, spaces[k].root, jx) ==>
        PrivatePath(n, spaces[k].root, jx) && Leaf(n, spaces[k].root, jx) == Leaf(m, spaces[k].root, jx)
    {
      PutLeafView(m, spaces[j].root, jx, leaf, ix.i2, d);
      if Reaches(m, spaces[j].root, jx) && Leaf(m, spaces[j].root, jx) == leaf {
        PrivateLeafUnique(m, spaces, k, ix, j, jx);
      }
    }
  }

  // ---------- linking a fresh empty table, and unlinking one that is empty again ----------

  ghost function ZeroTable(): (t: seq<Descriptor>)
    ensures |t| == ENTRIES && forall i :: 0 <= i < ENTRIES ==> t[i] == ZERO
  {
    seq(ENTRIES, _ => ZERO)
  }

  ghost function Linked(m: Memory, q: Pfn, i: nat, c: Pfn, d: Descriptor): Memory {
    Put(Add(m, c, Level(m, q) + 1, ZeroTable()), q, i, d)
  }

  ghost function Unlinked(m: Memory, q: Pfn, i: nat, c: Pfn): Memory {
    Remove(Put(m, q, i, ZERO), c)
  }

  ghost function Push(s: Space, c: Pfn): Space {
    s.(pfns := s.pfns + [c])
  }

  /** `n` has one more table than `m`: the empty table `c`, named by `q[i]`, where `m` has zero. */
  ghost predicate LinkStep(m: Memory, n: Memory, q: Pfn, i: nat, c: Pfn, d: Descriptor) {
    && q in m.pages && i < ENTRIES && q != c && Level(m, q) < 2 && Entry(m, q, i) == ZERO
    && IsTable(d) && d.pfn == c && c !in m.pages && FitsFrame(c) && (forall j: nat :: Entry(m, c, j) == ZERO)
    && (forall r, j: nat :: Entry(n, r, j) == if r == q && j == i then d else Entry(m, r, j))
    && (forall r :: r in n.pages <==> r in m.pages || r == c)
    && (forall r :: Level(n, r) == if r == c then Level(m, q) + 1 else Level(m, r))
    && (forall r :: RefsOf(n, r) == if r == c then 1 else RefsOf(m, r))
    && (forall p :: Pointers(n, p) == Pointers(m, p) + if p == c then 1 else 0)
  }

  lemma LinkedPointers(m: Memory, q: Pfn, i: nat, c: Pfn, d: Descriptor, p: Pfn)
    requires c !in m.pages && q in m.pages && i < |m.pages[q]| && Level(m, q) < 2 && Entry(m, q, i) == ZERO
    requires IsTable(d) && d.pfn == c
    ensures Pointers(Linked(m, q, i, c, d), p) == Pointers(m, p) + if p == c then 1 else 0
  {
    var a := Add(m, c, Level(m, q) + 1, ZeroTable());
    AddPointers(m, c, Level(m, q) + 1, ZeroTable(), p);
    AddEntries(m, c, Level(m, q) + 1, ZeroTable());
    CountNone(ZeroTable(), p);
    hide Add, Pointers;
    PutPointers(a, q, i, d, p);
  }

  lemma LinkedEntries(m: Memory, q: Pfn, i: nat, c: Pfn, d: Descriptor)
    requires c !in m.pages && q in m.pages && i < |m.pages[q]|
    ensures forall r, j: nat :: Entry(Linked(m, q, i, c, d), r, j) == if r == q && j == i then d else Entry(m, r, j)
    ensures forall r :: r in Linked(m, q, i, c, d).pages <==> r in m.pages || r == c
    ensures forall r :: Level(Linked(m, q, i, c, d), r) == if r == c then Level(m, q) + 1 else Level(m, r)
    ensures forall r :: RefsOf(Linked(m, q, i, c, d), r) == if r == c then 1 else RefsOf(m, r)
  {
    assert forall j: nat :: Entry(m, c, j) == ZERO;
    hide Add, Put, Entry, Level, RefsOf;
    AddEntries(m, c, Level(m, q) + 1, ZeroTable());
    PutEntries(Add(m, c, Level(m, q) + 1, ZeroTable()), q, i, d);
  }

  lemma LinkedShape(m: Memory, q: Pfn, i: nat, c: Pfn, d: Descriptor)
    requires Shape(m) && q in m.pages && i < ENTRIES && c !in m.pages && FitsFrame(c)
    ensures Shape(Linked(m, q, i, c, d))
  {
    hide FitsFrame;
  }

  lemma ShapeAt(m: Memory, q: Pfn)
    requires Shape(m)
    ensures q in m.pages ==> |m.pages[q]| == ENTRIES && FitsFrame(q) && RefsOf(m, q) > 0 && q in m.refs
    ensures q !in m.pages ==> RefsOf(m, q) == 0 && forall j: nat :: Entry(m, q, j) == ZERO
    ensures forall j: nat :: j >= ENTRIES ==> Entry(m, q, j) == ZERO
  {}

  lemma LinkedStep(m: Memory, q: Pfn, i: nat, c: Pfn, d: Descriptor)
    requires Shape(m) && q in m.pages && i < ENTRIES && Level(m, q) < 2 && Entry(m, q, i) == ZERO
    requires IsTable(d) && d.pfn == c && c !in m.pages && FitsFrame(c)
    ensures Shape(Linked(m, q, i, c, d)) && LinkStep(m, Linked(m, q, i, c, d), q, i, c, d)
  {
    hide Linked, Entry, Level, RefsOf, Pointers, IsTable, FitsFrame, Shape;
    var n := Linked(m, q, i, c, d);
    LinkedShape(m, q, i, c, d);
    ShapeAt(m, q);
    ShapeAt(m, c);
    LinkedEntries(m, q, i, c, d);
    forall p ensures Pointers(n, p) == Pointers(m, p) + if p == c then 1 else 0 {
      LinkedPointers(m, q, i, c, d, p);
    }
  }

  lemma UnlinkedPointers(m: Memory, q: Pfn, i: nat, c: Pfn, p: Pfn)
    requires q != c && q in m.pages && i < |m.pages[q]| && Names(m, q, i, c) && c in m.pages
    requires forall j: nat :: Entry(m, c, j) == ZERO
    ensures Pointers(m, p) == Pointers(Unlinked(m, q, i, c), p) + if p == c then 1 else 0
  {
    PutPointers(m, q, i, ZERO, p);
    PutEntries(m, q, i, ZERO);
    hide Put, Pointers, Remove, Entry;
    EmptyRow(Put(m, q, i, ZERO), c, p);
    RemovePointers(Put(m, q, i, ZERO), c, p);
  }

  lemma UnlinkedEntries(m: Memory, q: Pfn, i: nat, c: Pfn)
    requires q != c && q in m.pages && i < |m.pages[q]| && c in m.pages && forall j: nat :: Entry(m, c, j) == ZERO
    ensures forall r, j: nat :: Entry(Unlinked(m, q, i, c), r, j) == if r == q && j == i then ZERO else Entry(m, r, j)
    ensures forall r :: r in Unlinked(m, q, i, c).pages <==> r in m.pages && r != c
    ensures forall r :: Level(Unlinked(m, q, i, c), r) == if r == c then 3 else Level(m, r)
    ensures forall r :: RefsOf(Unlinked(m, q, i, c), r) == if r == c then 0 else RefsOf(m, r)
  {
    hide Remove, Put, Entry, Level, RefsOf;
    PutEntries(m, q, i, ZERO);
    RemoveEntries(Put(m, q, i, ZERO), c);
  }

  lemma UnlinkedShape(m: Memory, q: Pfn, i: nat, c: Pfn)
    requires Shape(m) && q in m.pages && i < ENTRIES
    ensures Shape(Unlinked(m, q, i, c))
  {
    hide FitsFrame;
  }

  lemma UnlinkedStep(m: Memory, q: Pfn, i: nat, c: Pfn)
    requires Shape(m) && q in m.pages && c in m.pages && i < ENTRIES && q != c && Names(m, q, i, c)
    requires RefsOf(m, c) == 1 && Level(m, c) == Level(m, q) + 1 && forall j: nat :: Entry(m, c, j) == ZERO
    ensures Shape(Unlinked(m, q, i, c)) && LinkStep(Unlinked(m, q, i, c), m, q, i, c, Entry(m, q, i))
  {
    hide Unlinked, Entry, Level, Pointers, FitsFrame, Shape, RefsOf, IsTable;
    var n := Unlinked(m, q, i, c);
    UnlinkedShape(m, q, i, c);
    ShapeAt(m, q);
    ShapeAt(m, c);
    UnlinkedEntries(m, q, i, c);
    forall p ensures Pointers(m, p) == Pointers(n, p) + if p == c then 1 else 0 {
      UnlinkedPointers(m, q, i, c, p);
    }
  }

  lemma LinkPointers(m: Memory, n: Memory, spaces: seq<Space>, q: Pfn, i: nat, c: Pfn, d: Descriptor)
    requires Shape(m) && LinkStep(m, n, q, i, c, d)
    ensures PointersExact(m, spaces) <==> PointersExact(n, spaces)
  {
    hide LinkStep, Pointers, RootCount, RefsOf, Shape;
    forall p
      ensures RefsOf(n, p) == RefsOf(m, p) + if p == c then 1 else 0
      ensures Pointers(n, p) == Pointers(m, p) + if p == c then 1 else 0
    { LinkCountsAt(m, n, q, i, c, d, p); }
    if PointersExact(m, spaces) {
      forall p ensures RefsOf(n, p) == Pointers(n, p) + RootCount(spaces, p) {
        assert RefsOf(m, p) == Pointers(m, p) + RootCount(spaces, p);
      }
    }
    if PointersExact(n, spaces) {
      forall p ensures RefsOf(m, p) == Pointers(m, p) + RootCount(spaces, p) {
        assert RefsOf(n, p) == Pointers(n, p) + RootCount(spaces, p);
      }
    }
  }

  lemma LinkLists(m: Memory, n: Memory, spaces: seq<Space>, k: nat, q: Pfn, i: nat, c: Pfn, d: Descriptor)
    requires LinkStep(m, n, q, i, c, d) && k < |spaces| && Shape(m)
    ensures ListsExact(m, spaces) <==> ListsExact(n, spaces[k := Push(spaces[k], c)])
  {
    hide LinkStep, Pointers, Listed, RefsOf, Shape;
    var after := spaces[k := Push(spaces[k], c)];
    forall p
      ensures RefsOf(n, p) == RefsOf(m, p) + if p == c then 1 else 0
      ensures Listed(after, p) == Listed(spaces, p) + if p == c then 1 else 0
    {
      LinkCountsAt(m, n, q, i, c, d, p);
      ListedUpdate(spaces, k, Push(spaces[k], c), p);
      OccurrencesAppend(spaces[k].pfns, [c], p);
      assert Occurrences([c], p) == if c == p then 1 else 0;
    }
    if ListsExact(m, spaces) {
      forall p ensures RefsOf(n, p) == Listed(after, p) { assert RefsOf(m, p) == Listed(spaces, p); }
    }
    if ListsExact(n, after) {
      forall p ensures RefsOf(m, p) == Listed(spaces, p) { assert RefsOf(n, p) == Listed(after, p); }
    }
  }

  lemma LinkCountsAt(m: Memory, n: Memory, q: Pfn, i: nat, c: Pfn, d: Descriptor, p: Pfn)
    requires Shape(m) && LinkStep(m, n, q, i, c, d)
    ensures RefsOf(n, p) == RefsOf(m, p) + if p == c then 1 else 0
    ensures Pointers(n, p) == Pointers(m, p) + if p == c then 1 else 0
  {}

  lemma LinkTyped(m: Memory, n: Memory, q: Pfn, i: nat, c: Pfn, d: Descriptor)
    requires Typed(m) && LinkStep(m, n, q, i, c, d)
    ensures Typed(n)
  {
    hide Entry, Level, FitsFrame, Pointers, RefsOf;
    forall r, j | r in n.pages && 0 <= j < ENTRIES ensures EntryTyped(n, r, Entry(n, r, j)) {
      if r in m.pages { assert EntryTyped(m, r, Entry(m, r, j)); }
    }
  }

  lemma LinkOnce(m: Memory, n: Memory, q: Pfn, i: nat, c: Pfn, d: Descriptor)
    requires Typed(m) && LeavesOnce(m) && LinkStep(m, n, q, i, c, d)
    ensures LeavesOnce(n)
  {
    hide Entry, Level, FitsFrame, Pointers, RefsOf;
    forall r | r in n.pages && Level(n, r) == 1 ensures RowDistinct(n, r) {
      if r in m.pages {
        assert RowDistinct(m, r);
        forall j | 0 <= j < ENTRIES && IsTable(Entry(m, r, j)) ensures Entry(m, r, j).pfn in m.pages {
          assert EntryTyped(m, r, Entry(m, r, j));
        }
      }
    }
  }

  lemma LinkOwns(m: Memory, n: Memory, s: Space, q: Pfn, i: nat, c: Pfn, d: Descriptor)
    requires Typed(m) && LinkStep(m, n, q, i, c, d) && s.root in m.pages && Level(m, s.root) == 0
    requires OwnsLevelOne(m, s)
    ensures q != s.root ==> OwnsLevelOne(n, s)
    ensures OwnsLevelOne(n, Push(s, c))
  {
    hide Entry, Level, FitsFrame, Pointers, RefsOf;
    forall j | 0 <= j < ENTRIES && IsTable(Entry(m, s.root, j)) ensures Entry(m, s.root, j).pfn in m.pages {
      assert EntryTyped(m, s.root, Entry(m, s.root, j));
    }
  }

  lemma LinkClear(m: Memory, n: Memory, s: Space, q: Pfn, i: nat, c: Pfn, d: Descriptor)
    requires Typed(m) && LinkStep(m, n, q, i, c, d) && s.root in m.pages && Level(m, s.root) == 0
    requires UserSlotsClear(m, s)
    ensures UserSlotsClear(n, s)
  {
    hide Entry, Level, FitsFrame, Pointers, RefsOf;
    assert EntryTyped(m, s.root, Entry(m, s.root, 0));
  }

  lemma LinkView(m: Memory, n: Memory, root: Pfn, jx: Index, q: Pfn, i: nat, c: Pfn, d: Descriptor)
    requires Typed(m) && LinkStep(m, n, q, i, c, d) && root in m.pages && Level(m, root) == 0 && Within(jx)
    ensures View(n, root, jx) == View(m, root, jx)
  {
    hide Level, FitsFrame, Pointers, RefsOf, Entry, Typed;
    WalkTyped(m, root, jx);
  }

  lemma LinkRoots(m: Memory, n: Memory, spaces: seq<Space>, after: seq<Space>, q: Pfn, i: nat, c: Pfn, d: Descriptor)
    requires RootsDistinct(m, spaces) && LinkStep(m, n, q, i, c, d) && SameRoots(spaces, after)
    ensures RootsDistinct(n, after)
  {
    hide Entry, Level, FitsFrame, Pointers, RefsOf;
  }

  lemma RootsUpdate(m: Memory, spaces: seq<Space>, k: nat, s: Space)
    requires k < |spaces| && s.root == spaces[k].root
    ensures PointersExact(m, spaces) <==> PointersExact(m, spaces[k := s])
  {
    hide RootCount, RefsOf, Pointers;
    forall p ensures RootCount(spaces[k := s], p) == RootCount(spaces, p) { ListedUpdate(spaces, k, s, p); }
    if PointersExact(m, spaces) {
      forall p ensures RefsOf(m, p) == Pointers(m, p) + RootCount(spaces[k := s], p) {
        assert RefsOf(m, p) == Pointers(m, p) + RootCount(spaces, p);
      }
    }
    if PointersExact(m, spaces[k := s]) {
      forall p ensures RefsOf(m, p) == Pointers(m, p) + RootCount(spaces, p) {
        assert RefsOf(m, p) == Pointers(m, p) + RootCount(spaces[k := s], p);
      }
    }
  }

  /** A space's list is no part of `Core`. */
  lemma CoreUpdate(m: Memory, spaces: seq<Space>, k: nat, s: Space)
    requires k < |spaces| && s.root == spaces[k].root && Core(m, spaces)
    ensures Core(m, spaces[k := s])
  {
    hide PointersExact, Shape, Typed, Entry, Level, LeavesOnce;
    RootsUpdate(m, spaces, k, s);
    var after := spaces[k := s];
    forall j | 0 <= j < |after| ensures UserSlotsClear(m, after[j]) { assert UserSlotsClear(m, spaces[j]); }
  }

  /** Linking a fresh table keeps the invariant and every view. */
  lemma LinkKeeps(m: Memory, n: Memory, spaces: seq<Space>, k: nat, q: Pfn, i: nat, c: Pfn, d: Descriptor)
    requires Core(m, spaces) && Shape(n) && LinkStep(m, n, q, i, c, d) && k < |spaces|
    requires q == spaces[k].root || Level(m, q) == 1
    ensures Core(n, spaces[k := Push(spaces[k], c)]) && SameViews(m, n, spaces)
    ensures Lists(m, spaces) ==> Lists(n, spaces[k := Push(spaces[k], c)])
  {
    hide Typed, PointersExact, ListsExact, OwnsLevelOne, UserSlotsClear, LeavesOnce, View, Entry, Level, Pointers,
      RefsOf, Shape;
    var after := spaces[k := Push(spaces[k], c)];
    LinkTyped(m, n, q, i, c, d);
    LinkOnce(m, n, q, i, c, d);
    LinkPointers(m, n, spaces, q, i, c, d);
    LinkRoots(m, n, spaces, spaces, q, i, c, d);
    forall j | 0 <= j < |spaces| ensures UserSlotsClear(n, spaces[j]) { LinkClear(m, n, spaces[j], q, i, c, d); }
    assert Core(n, spaces);
    CoreUpdate(n, spaces, k, Push(spaces[k], c));
    if Lists(m, spaces) {
      LinkLists(m, n, spaces, k, q, i, c, d);
      forall j | 0 <= j < |after| ensures OwnsLevelOne(n, after[j]) {
        LinkOwns(m, n, spaces[j], q, i, c, d);
      }
    }
    forall j, jx | 0 <= j < |spaces| && Within(jx) ensures View(n, spaces[j].root, jx) == View(m, spaces[j].root, jx) {
      LinkView(m, n, spaces[j].root, jx, q, i, c, d);
    }
  }

  lemma UnlinkTyped(m: Memory, n: Memory, q: Pfn, i: nat, c: Pfn, d: Descriptor)
    requires Typed(n) && LinkStep(m, n, q, i, c, d)
    requires forall r, j: nat :: Names(n, r, j, c) ==> r == q && j == i
    ensures Typed(m)
  {
    hide Entry, Level, FitsFrame, Pointers, RefsOf;
    forall r, j | r in m.pages && 0 <= j < ENTRIES ensures EntryTyped(m, r, Entry(m, r, j)) {
      assert EntryTyped(n, r, Entry(n, r, j));
      assert Names(n, r, j, c) ==> r == q && j == i;
    }
  }

  lemma UnlinkOnce(m: Memory, n: Memory, q: Pfn, i: nat, c: Pfn, d: Descriptor)
    requires LeavesOnce(n) && LinkStep(m, n, q, i, c, d)
    ensures LeavesOnce(m)
  {
    hide Entry, Level, FitsFrame, Pointers, RefsOf;
    forall r | r in m.pages && Level(m, r) == 1 ensures RowDistinct(m, r) { assert RowDistinct(n, r); }
  }

  lemma UnlinkOwns(m: Memory, n: Memory, s: Space, pfns: seq<Pfn>, q: Pfn, i: nat, c: Pfn, d: Descriptor)
    requires LinkStep(m, n, q, i, c, d) && Level(n, s.root) == 0 && s.root != c
    requires forall r, j: nat :: Names(n, r, j, c) ==> r == q && j == i
    requires OwnsLevelOne(n, s)
    requires forall p :: p in s.pfns && p != c ==> p in pfns
    ensures OwnsLevelOne(m, s.(pfns := pfns))
  {
    hide Entry, Level, FitsFrame, Pointers, RefsOf;
    forall j: nat | j < ENTRIES && IsTable(Entry(m, s.root, j)) ensures Entry(m, s.root, j).pfn != c {
      assert Names(n, s.root, j, c) ==> s.root == q && j == i;
    }
  }

  lemma UnlinkClear(m: Memory, n: Memory, s: Space, q: Pfn, i: nat, c: Pfn, d: Descriptor)
    requires Typed(n) && LinkStep(m, n, q, i, c, d) && s.root in n.pages && Level(n, s.root) == 0
    requires UserSlotsClear(n, s)
    ensures UserSlotsClear(m, s)
  {
    hide Entry, Level, FitsFrame, Pointers, RefsOf;
    assert EntryTyped(n, s.root, Entry(n, s.root, 0));
  }

  lemma UnlinkRoots(m: Memory, n: Memory, spaces: seq<Space>, q: Pfn, i: nat, c: Pfn, d: Descriptor)
    requires RootsDistinct(n, spaces) && LinkStep(m, n, q, i, c, d)
    ensures RootsDistinct(m, spaces) && forall j :: 0 <= j < |spaces| ==> spaces[j].root != c
  {
    hide Entry, Level, FitsFrame, Pointers, RefsOf;
  }

  lemma SoleNamer(n: Memory, spaces: seq<Space>, q: Pfn, i: nat, c: Pfn)
    requires PointersExact(n, spaces) && RefsOf(n, c) == 1 && Names(n, q, i, c)
    ensures forall r, j: nat :: Names(n, r, j, c) ==> r == q && j == i
  {
    hide Names;
    assert RefsOf(n, c) == Pointers(n, c) + RootCount(spaces, c);
    forall r, j: nat | Names(n, r, j, c) ensures r == q && j == i { OnePointer(n, q, i, r, j, c); }
  }

  lemma LinkNames(m: Memory, n: Memory, q: Pfn, i: nat, c: Pfn, d: Descriptor)
    requires LinkStep(m, n, q, i, c, d)
    ensures Names(n, q, i, c) && RefsOf(n, c) == 1
  {}

  /** Unlinking a table that is empty again keeps the tables in order and
      every view; it keeps the lists exact when the table is listed last. */
  lemma UnlinkKeeps(n: Memory, m: Memory, spaces: seq<Space>, k: nat, q: Pfn, i: nat, c: Pfn, d: Descriptor)
    requires Core(n, spaces) && Shape(m) && LinkStep(m, n, q, i, c, d) && k < |spaces|
    ensures Core(m, spaces) && SameViews(n, m, spaces)
    ensures forall pfns :: spaces[k].pfns == pfns + [c] && Lists(n, spaces) ==>
            Lists(m, spaces[k := spaces[k].(pfns := pfns)])
  {
    hide LinkStep, Typed, PointersExact, Lists, View, Entry, Level, Pointers, RefsOf, Shape, Names, UserSlotsClear,
      LeavesOnce, RootsDistinct;
    LinkNames(m, n, q, i, c, d);
    SoleNamer(n, spaces, q, i, c);
    UnlinkTyped(m, n, q, i, c, d);
    UnlinkOnce(m, n, q, i, c, d);
    LinkPointers(m, n, spaces, q, i, c, d);
    UnlinkRoots(m, n, spaces, q, i, c, d);
    forall j | 0 <= j < |spaces|
      ensures spaces[j].root in m.pages && Level(m, spaces[j].root) == 0
      ensures spaces[j].root in n.pages && Level(n, spaces[j].root) == 0
    { RootAt(m, spaces, j); RootAt(n, spaces, j); }
    forall j | 0 <= j < |spaces| ensures UserSlotsClear(m, spaces[j]) { UnlinkClear(m, n, spaces[j], q, i, c, d); }
    forall j, jx | 0 <= j < |spaces| && Within(jx) ensures View(m, spaces[j].root, jx) == View(n, spaces[j].root, jx) {
      LinkView(m, n, spaces[j].root, jx, q, i, c, d);
    }
    forall pfns | spaces[k].pfns == pfns + [c] && Lists(n, spaces)
      ensures Lists(m, spaces[k := spaces[k].(pfns := pfns)])
    { UnlinkLists(n, m, spaces, k, q, i, c, d, pfns); }
  }

  lemma RootAt(m: Memory, spaces: seq<Space>, k: nat)
    requires RootsDistinct(m, spaces) && k < |spaces|
    ensures spaces[k].root in m.pages && Level(m, spaces[k].root) == 0
  {}

  lemma UnlinkLists(n: Memory, m: Memory, spaces: seq<Space>, k: nat, q: Pfn, i: nat, c: Pfn, d: Descriptor,
                    pfns: seq<Pfn>)
    requires Lists(n, spaces) && RootsDistinct(n, spaces) && Shape(m) && LinkStep(m, n, q, i, c, d) && k < |spaces|
    requires forall r, j: nat :: Names(n, r, j, c) ==> r == q && j == i
    requires spaces[k].pfns == pfns + [c]
    ensures Lists(m, spaces[k := spaces[k].(pfns := pfns)])
  {
    hide LinkStep, ListsExact, Entry, Level, Pointers, RefsOf, Shape, Names, OwnsLevelOne;
    var before := spaces[k := spaces[k].(pfns := pfns)];
    assert before[k := Push(before[k], c)] == spaces;
    LinkLists(m, n, before, k, q, i, c, d);
    UnlinkRoots(m, n, spaces, q, i, c, d);
    forall j | 0 <= j < |before| ensures OwnsLevelOne(m, before[j]) {
      UnlinkOwns(m, n, spaces[j], before[j].pfns, q, i, c, d);
    }
  }

  // ---------- detaching a shared table ----------

  ghost function Copied(m: Memory, q: Pfn, i: nat, source: Pfn, copy: Pfn, d: Descriptor): Memory {
    if source in m.pages then Put(Add(m, copy, Level(m, source), m.pages[source]), q, i, d) else m
  }

  /** `q[i]` names a copy of `source` instead of `source` itself; whatever a
      copied level-one table names gained a reference. */
  ghost predicate DetachStep(m: Memory, n: Memory, q: Pfn, i: nat, source: Pfn, copy: Pfn, d: Descriptor) {
    && q in m.pages && i < ENTRIES && Names(m, q, i, source) && source in m.pages && RefsOf(m, source) > 1
    && copy !in m.pages && FitsFrame(copy) && IsTable(d) && d.pfn == copy
    && (forall r, j: nat :: Entry(n, r, j) == if r == q && j == i then d else if r == copy then Entry(m, source, j)
      else Entry(m, r, j))
    && (forall r :: r in n.pages <==> r in m.pages || r == copy)
    && (forall r :: Level(n, r) == Level(m, if r == copy then source else r))
    && (forall p ::
      RefsOf(n, p) + (if p == source then 1 else 0) == RefsOf(m, p) + Row(m, source, p) + if p == copy then 1 else 0)
    && (forall p ::
      Pointers(n, p) + (if p == source then 1 else 0) == Pointers(m, p) + Row(m, source, p) + if p == copy then 1
      else 0)
  }

  lemma CopiedPointers(m: Memory, q: Pfn, i: nat, source: Pfn, copy: Pfn, d: Descriptor, p: Pfn)
    requires copy !in m.pages && q in m.pages && i < |m.pages[q]| && Names(m, q, i, source) && source in m.pages
    requires IsTable(d) && d.pfn == copy
    ensures Pointers(Copied(m, q, i, source, copy, d), p) + (if p == source then 1 else 0)
         == Pointers(m, p) + Row(m, source, p) + if p == copy then 1 else 0
  {
    hide Add, Put, Pointers, Level, RefsOf, Count;
    AddPointers(m, copy, Level(m, source), m.pages[source], p);
    AddEntries(m, copy, Level(m, source), m.pages[source]);
    PutPointers(Add(m, copy, Level(m, source), m.pages[source]), q, i, d, p);
  }

  lemma CopiedEntries(m: Memory, q: Pfn, i: nat, source: Pfn, copy: Pfn, d: Descriptor)
    requires copy !in m.pages && q in m.pages && i < |m.pages[q]| && source in m.pages
    ensures forall r, j: nat :: Entry(Copied(m, q, i, source, copy, d), r, j)
              == if r == q && j == i then d else if r == copy then Entry(m, source, j) else Entry(m, r, j)
    ensures forall r :: r in Copied(m, q, i, source, copy, d).pages <==> r in m.pages || r == copy
    ensures forall r :: Level(Copied(m, q, i, source, copy, d), r) == Level(m, if r == copy then source else r)
  {
    var t := m.pages[source];
    assert forall j: nat :: Entry(m, copy, j) == ZERO && Entry(m, source, j) == if j < |t| then t[j] else ZERO;
    hide Add, Put, Entry, Level;
    AddEntries(m, copy, Level(m, source), t);
    PutEntries(Add(m, copy, Level(m, source), t), q, i, d);
  }

  lemma DetachPointers(m: Memory, n: Memory, spaces: seq<Space>, q: Pfn, i: nat, source: Pfn, copy: Pfn, d: Descriptor)
    requires PointersExact(m, spaces) && DetachStep(m, n, q, i, source, copy, d)
    ensures PointersExact(n, spaces)
  {
    hide Pointers, Row, Entry, Level, RefsOf, RootCount;
    forall p ensures RefsOf(n, p) == Pointers(n, p) + RootCount(spaces, p) {
      assert RefsOf(m, p) == Pointers(m, p) + RootCount(spaces, p);
    }
  }

  lemma DetachLists(m: Memory, n: Memory, spaces: seq<Space>, k: nat, q: Pfn, i: nat, source: Pfn, copy: Pfn,
                    d: Descriptor, s: Space)
    requires ListsExact(m, spaces) && DetachStep(m, n, q, i, source, copy, d) && k < |spaces|
    requires DetachList(m, spaces[k].pfns, s.pfns, source, copy)
    ensures ListsExact(n, spaces[k := s])
  {
    hide Pointers, Row, Entry, Level, RefsOf, Occurrences, Listed;
    var after := spaces[k := s];
    forall p ensures RefsOf(n, p) == Listed(after, p) {
      assert RefsOf(m, p) == Listed(spaces, p);
      ListedUpdate(spaces, k, s, p);
    }
  }

  lemma DetachTyped(m: Memory, n: Memory, q: Pfn, i: nat, source: Pfn, copy: Pfn, d: Descriptor)
    requires Typed(m) && DetachStep(m, n, q, i, source, copy, d)
    ensures Typed(n)
  {
    hide Entry, Level, FitsFrame, Pointers, RefsOf, Row, Names;
    assert EntryTyped(m, q, Entry(m, q, i)) && Names(m, q, i, source);
    assert Level(m, source) == Level(m, q) + 1 by { NamedLevel(m, q, i, source); }
    forall r, j | r in n.pages && 0 <= j < ENTRIES ensures EntryTyped(n, r, Entry(n, r, j)) {
      assert EntryTyped(m, if r == copy then source else r, Entry(m, if r == copy then source else r, j));
    }
  }

  lemma DetachOnce(m: Memory, n: Memory, q: Pfn, i: nat, source: Pfn, copy: Pfn, d: Descriptor)
    requires Typed(m) && LeavesOnce(m) && DetachStep(m, n, q, i, source, copy, d)
    ensures LeavesOnce(n)
  {
    hide Entry, Level, FitsFrame, Pointers, RefsOf, Row, Names;
    NamedLevel(m, q, i, source);
    forall r | r in n.pages && Level(n, r) == 1 ensures RowDistinct(n, r) {
      var o := if r == copy then source else r;
      assert RowDistinct(m, o);
      forall j | 0 <= j < ENTRIES && IsTable(Entry(m, o, j)) ensures Entry(m, o, j).pfn in m.pages {
        assert EntryTyped(m, o, Entry(m, o, j));
      }
    }
  }

  lemma NamedLevel(m: Memory, q: Pfn, i: nat, p: Pfn)
    requires Typed(m) && Names(m, q, i, p) && i < ENTRIES
    ensures p in m.pages && Level(m, p) == Level(m, q) + 1 && q != p
  {
    assert EntryTyped(m, q, Entry(m, q, i));
  }

  lemma DetachView(m: Memory, n: Memory, root: Pfn, jx: Index, q: Pfn, i: nat, source: Pfn, copy: Pfn, d: Descriptor)
    requires Typed(m) && DetachStep(m, n, q, i, source, copy, d) && root in m.pages && Level(m, root) == 0 && Within(jx)
    ensures View(n, root, jx) == View(m, root, jx)
  {
    hide Level, FitsFrame, Pointers, RefsOf, Entry, Typed, Row;
    NamedLevel(m, q, i, source);
    WalkTyped(m, root, jx);
  }

  lemma DetachOwns(m: Memory, n: Memory, s: Space, pfns: seq<Pfn>, q: Pfn, i: nat, source: Pfn, copy: Pfn,
                   d: Descriptor)
    requires Typed(m) && DetachStep(m, n, q, i, source, copy, d) && s.root in m.pages && Level(m, s.root) == 0
    requires OwnsLevelOne(m, s)
    requires forall p :: p in s.pfns && (p != source || (q != s.root && Level(m, q) == 0)) ==> p in pfns
    requires q == s.root ==> copy in pfns
    ensures OwnsLevelOne(n, s.(pfns := pfns))
  {
    hide Entry, Level, FitsFrame, Pointers, RefsOf, Row;
    NamedLevel(m, q, i, source);
    forall j: nat | j < ENTRIES && IsTable(Entry(m, s.root, j))
      ensures Entry(m, s.root, j).pfn in m.pages && Level(m, Entry(m, s.root, j).pfn) == 1
    { assert EntryTyped(m, s.root, Entry(m, s.root, j)); }
  }

  lemma DetachClear(m: Memory, n: Memory, s: Space, q: Pfn, i: nat, source: Pfn, copy: Pfn, d: Descriptor)
    requires Typed(m) && DetachStep(m, n, q, i, source, copy, d) && s.root in m.pages && Level(m, s.root) == 0
    requires UserSlotsClear(m, s)
    ensures UserSlotsClear(n, s)
  {
    hide Entry, Level, FitsFrame, Pointers, RefsOf, Row;
    NamedLevel(m, q, i, source);
    assert EntryTyped(m, s.root, Entry(m, s.root, 0));
  }

  /** The list change that goes with a detach. */
  ghost predicate DetachList(m: Memory, before: seq<Pfn>, after: seq<Pfn>, source: Pfn, copy: Pfn) {
    forall p :: Occurrences(after, p) + (if p == source then 1 else 0)
             == Occurrences(before, p) + Row(m, source, p) + if p == copy then 1 else 0
  }

  lemma DetachListMembers(m: Memory, before: seq<Pfn>, after: seq<Pfn>, source: Pfn, copy: Pfn)
    requires DetachList(m, before, after, source, copy) && source != copy
    ensures copy in after && forall p :: p in before && p != source ==> p in after
  {
    forall p | p == copy || (p in before && p != source) ensures p in after {
      hide Row, Occurrences;
      OccurrencesPositive(before, p);
      OccurrencesPositive(after, p);
      assert Occurrences(after, p) + (if p == source then 1 else 0)
          == Occurrences(before, p) + Row(m, source, p) + if p == copy then 1 else 0;
    }
  }

  lemma DetachRoots(m: Memory, n: Memory, spaces: seq<Space>, q: Pfn, i: nat, source: Pfn, copy: Pfn, d: Descriptor)
    requires RootsDistinct(m, spaces) && DetachStep(m, n, q, i, source, copy, d)
    ensures RootsDistinct(n, spaces)
  {
    hide Entry, Level, FitsFrame, Pointers, RefsOf, Row;
  }

  lemma DetachListed(m: Memory, n: Memory, spaces: seq<Space>, k: nat, q: Pfn, i: nat, source: Pfn, copy: Pfn,
                     d: Descriptor, pfns: seq<Pfn>)
    requires Typed(m) && RootsDistinct(m, spaces) && Lists(m, spaces)
    requires DetachStep(m, n, q, i, source, copy, d) && k < |spaces|
    requires q == spaces[k].root || Level(m, q) == 1
    requires DetachList(m, spaces[k].pfns, pfns, source, copy)
    ensures Lists(n, spaces[k := spaces[k].(pfns := pfns)])
  {
    hide Entry, FitsFrame, Pointers, RefsOf, Row, Names, Typed, OwnsLevelOne, Level, ListsExact, DetachList;
    var after := spaces[k := spaces[k].(pfns := pfns)];
    DetachLists(m, n, spaces, k, q, i, source, copy, d, after[k]);
    DetachListMembers(m, spaces[k].pfns, pfns, source, copy);
    forall j | 0 <= j < |after| ensures OwnsLevelOne(n, after[j]) {
      if j != k && Level(m, q) == 1 { DetachOwnsLevelTwo(m, n, spaces[j], q, i, source, copy, d); }
      else { DetachOwns(m, n, spaces[j], after[j].pfns, q, i, source, copy, d); }
    }
  }

  lemma DetachOwnsLevelTwo(m: Memory, n: Memory, s: Space, q: Pfn, i: nat, source: Pfn, copy: Pfn, d: Descriptor)
    requires Typed(m) && DetachStep(m, n, q, i, source, copy, d) && s.root in m.pages && Level(m, s.root) == 0
    requires OwnsLevelOne(m, s) && Level(m, q) == 1
    ensures OwnsLevelOne(n, s)
  {
    hide Entry, FitsFrame, Pointers, RefsOf, Row, Names, Typed, OwnsLevelOne, Level;
    DetachOwns(m, n, s, s.pfns, q, i, source, copy, d);
    assert s == s.(pfns := s.pfns);
  }

  /** Detaching keeps the invariant and every view. */
  lemma DetachKeeps(m: Memory, n: Memory, spaces: seq<Space>, k: nat, q: Pfn, i: nat, source: Pfn, copy: Pfn,
                    d: Descriptor, pfns: seq<Pfn>)
    requires Core(m, spaces) && Lists(m, spaces) && Shape(n) && DetachStep(m, n, q, i, source, copy, d) && k < |spaces|
    requires q == spaces[k].root || Level(m, q) == 1
    requires DetachList(m, spaces[k].pfns, pfns, source, copy)
    ensures Inv(n, spaces[k := spaces[k].(pfns := pfns)]) && SameViews(m, n, spaces)
  {
    hide Typed, PointersExact, Lists, UserSlotsClear, LeavesOnce, View, Entry, Level, Pointers, RefsOf, Row, Shape,
      Occurrences, DetachList;
    DetachTyped(m, n, q, i, source, copy, d);
    DetachOnce(m, n, q, i, source, copy, d);
    DetachPointers(m, n, spaces, q, i, source, copy, d);
    DetachRoots(m, n, spaces, q, i, source, copy, d);
    forall j | 0 <= j < |spaces|
      ensures UserSlotsClear(n, spaces[j]) { DetachClear(m, n, spaces[j], q, i, source, copy, d); }
    assert Core(n, spaces);
    CoreUpdate(n, spaces, k, spaces[k].(pfns := pfns));
    DetachListed(m, n, spaces, k, q, i, source, copy, d, pfns);
    forall j, jx | 0 <= j < |spaces| && Within(jx) ensures View(n, spaces[j].root, jx) == View(m, spaces[j].root, jx) {
      DetachView(m, n, spaces[j].root, jx, q, i, source, copy, d);
    }
  }

  // ---------- sharing all level-one tables with a fresh space ----------

  /** Table `child` became a copy of root `parent`, and whatever the copied
      entries name gained a reference. */
  ghost predicate ForkStep(m: Memory, n: Memory, parent: Pfn, child: Pfn) {
    && parent in m.pages && child in m.pages && parent != child && Level(m, parent) == 0 && Level(m, child) == 0
    && (forall j: nat :: Entry(m, child, j) == ZERO)
    && (forall r, j: nat :: Entry(n, r, j) == Entry(m, if r == child then parent else r, j))
    && (forall r :: r in n.pages <==> r in m.pages)
    && (forall r :: Level(n, r) == Level(m, r))
    && (forall p :: RefsOf(n, p) == RefsOf(m, p) + Row(m, parent, p))
    && (forall p :: Pointers(n, p) == Pointers(m, p) + Row(m, parent, p))
  }

  lemma ForkPointers(m: Memory, n: Memory, parent: Pfn, child: Pfn, p: Pfn)
    requires parent in m.pages && child in m.pages && parent != child && Level(m, parent) == 0 && Level(m, child) == 0
    requires forall j: nat :: Entry(m, child, j) == ZERO
    requires n.pages == m.pages[child := m.pages[parent]] && n.level == m.level
    ensures Pointers(n, p) == Pointers(m, p) + Row(m, parent, p)
  {
    PickRow(m, m.pages.Keys, child, p);
    assert n.pages.Keys == m.pages.Keys;
    PickRow(n, m.pages.Keys, child, p);
    SameRows(m, n, m.pages.Keys - {child}, p);
    EmptyRow(m, child, p);
  }

  lemma ForkTyped(m: Memory, n: Memory, parent: Pfn, child: Pfn)
    requires Typed(m) && ForkStep(m, n, parent, child)
    ensures Typed(n)
  {
    hide Entry, Level, Pointers, RefsOf, Row;
    forall r, j | r in n.pages && 0 <= j < ENTRIES ensures EntryTyped(n, r, Entry(n, r, j)) {
      assert EntryTyped(m, if r == child then parent else r, Entry(m, if r == child then parent else r, j));
    }
  }

  lemma ForkOnce(m: Memory, n: Memory, parent: Pfn, child: Pfn)
    requires LeavesOnce(m) && ForkStep(m, n, parent, child)
    ensures LeavesOnce(n)
  {
    hide Entry, Level, Pointers, RefsOf, Row;
    forall r | r in n.pages && Level(n, r) == 1 ensures RowDistinct(n, r) { assert RowDistinct(m, r); }
  }

  lemma ForkExact(m: Memory, n: Memory, spaces: seq<Space>, k: nat, parent: Pfn, child: Pfn, s: Space)
    requires PointersExact(m, spaces) && ListsExact(m, spaces)
    requires ForkStep(m, n, parent, child) && k < |spaces| && s.root == spaces[k].root
    requires forall p :: Occurrences(s.pfns, p) == Occurrences(spaces[k].pfns, p) + Row(m, parent, p)
    ensures PointersExact(n, spaces[k := s]) && ListsExact(n, spaces[k := s])
  {
    hide Pointers, Row, Entry, Level, RefsOf, Occurrences, Listed, RootCount;
    var after := spaces[k := s];
    forall p ensures RefsOf(n, p) == Pointers(n, p) + RootCount(after, p) && RefsOf(n, p) == Listed(after, p) {
      assert RefsOf(m, p) == Pointers(m, p) + RootCount(spaces, p) && RefsOf(m, p) == Listed(spaces, p);
      ListedUpdate(spaces, k, s, p);
    }
  }

  lemma ForkSpace(m: Memory, n: Memory, parent: Space, child: Space, s: Space)
    requires Typed(m) && ForkStep(m, n, parent.root, child.root)
    requires s.root in m.pages && Level(m, s.root) == 0 && s.root != child.root
    requires OwnsLevelOne(m, s) && UserSlotsClear(m, s)
    ensures OwnsLevelOne(n, s) && UserSlotsClear(n, s)
  {
    hide Entry, Level, Pointers, RefsOf, Row;
    assert EntryTyped(m, s.root, Entry(m, s.root, 0));
  }

  lemma ForkChild(m: Memory, n: Memory, parent: Space, child: Space)
    requires Typed(m) && ForkStep(m, n, parent.root, child.root)
    requires OwnsLevelOne(m, parent) && UserSlotsClear(m, parent) && child.root in child.pfns
    requires forall j :: 0 <= j < ENTRIES && IsTable(Entry(m, parent.root, j)) ==>
             Entry(m, parent.root, j).pfn in child.pfns
    ensures OwnsLevelOne(n, child) && UserSlotsClear(n, child)
  {
    hide Entry, Level, Pointers, RefsOf, Row;
    assert EntryTyped(m, parent.root, Entry(m, parent.root, 0));
  }

  lemma ForkViewAt(m: Memory, n: Memory, parent: Pfn, child: Pfn, root: Pfn, jx: Index)
    requires Typed(m) && ForkStep(m, n, parent, child) && root in m.pages && Level(m, root) == 0 && Within(jx)
    ensures View(n, root, jx) == View(m, if root == child then parent else root, jx)
  {
    hide Entry, Level, Pointers, RefsOf, Row, Typed;
    WalkTyped(m, root, jx);
    WalkTyped(m, parent, jx);
  }

  lemma TargetListed(m: Memory, parent: Pfn, before: seq<Pfn>, after: seq<Pfn>, j: nat)
    requires Level(m, parent) < 2 && IsTable(Entry(m, parent, j))
    requires forall p :: Occurrences(after, p) == Occurrences(before, p) + Row(m, parent, p)
    ensures Entry(m, parent, j).pfn in after
  {
    var p := Entry(m, parent, j).pfn;
    CountUpdate(m.pages[parent], j, ZERO, p);
    OccurrencesPositive(after, p);
  }

  /** After sharing, the child sees exactly what its parent sees, and no other
      space sees any difference. */
  lemma ForkKeeps(m: Memory, n: Memory, spaces: seq<Space>, k: nat, c: nat, pfns: seq<Pfn>)
    requires Inv(m, spaces) && Shape(n) && k < |spaces| && c < |spaces| && k != c
    requires ForkStep(m, n, spaces[k].root, spaces[c].root)
    requires forall p :: Occurrences(pfns, p) == Occurrences(spaces[c].pfns, p) + Row(m, spaces[k].root, p)
    ensures Inv(n, spaces[c := spaces[c].(pfns := pfns)])
    ensures forall j :: 0 <= j < |spaces| && j != c ==> SameView(m, n, spaces[j].root)
    ensures forall ix :: Within(ix) ==> View(n, spaces[c].root, ix) == View(m, spaces[k].root, ix)
  {
    hide Typed, PointersExact, ListsExact, OwnsLevelOne, UserSlotsClear, LeavesOnce, View, Entry, Level, Pointers,
      RefsOf, Row, Shape, Occurrences, IsTable;
    var parent, child := spaces[k], spaces[c].(pfns := pfns);
    var after := spaces[c := child];
    ForkTyped(m, n, parent.root, child.root);
    ForkOnce(m, n, parent.root, child.root);
    ForkExact(m, n, spaces, c, parent.root, child.root, child);
    forall j | 0 <= j < ENTRIES && IsTable(Entry(m, parent.root, j)) ensures Entry(m, parent.root, j).pfn in pfns {
      TargetListed(m, parent.root, spaces[c].pfns, pfns, j);
    }
    RootListed(m, spaces[c]);
    OccurrencesPositive(spaces[c].pfns, child.root);
    OccurrencesPositive(pfns, child.root);
    forall j | 0 <= j < |after| ensures OwnsLevelOne(n, after[j]) && UserSlotsClear(n, after[j]) {
      if j == c { ForkChild(m, n, parent, child); } else { ForkSpace(m, n, parent, child, spaces[j]); }
    }
    forall j, jx | 0 <= j < |spaces| && Within(jx)
      ensures View(n, spaces[j].root, jx) == View(m, spaces[if j == c then k else j].root, jx)
    {
      ForkViewAt(m, n, parent.root, child.root, spaces[j].root, jx);
    }
  }

  lemma RootListed(m: Memory, s: Space)
    requires OwnsLevelOne(m, s)
    ensures s.root in s.pfns
  {}

  // ---------- taking and giving back references one by one ----------

  /** `m` is `base` with one more reference per element of `extra`. */
  ghost predicate Retained(base: Memory, m: Memory, extra: seq<Pfn>) {
    && m.pages == base.pages && m.level == base.level && m.refs.Keys == base.refs.Keys
    && forall p :: p in base.refs ==> m.refs[p] == base.refs[p] + Occurrences(extra, p)
  }

  lemma RetainedNone(base: Memory, m: Memory)
    ensures Retained(base, m, []) <==> m == base
  {
    if Retained(base, m, []) { assert m.refs == base.refs; }
  }

  lemma RetainedPush(base: Memory, m: Memory, extra: seq<Pfn>, p: Pfn)
    requires Retained(base, m, extra) && p in base.refs && base.refs[p] > 0
    ensures Retained(base, Retain(m, p), extra + [p]) && p in m.refs && m.refs[p] > 0
  {
    forall r | r in base.refs ensures Retain(m, p).refs[r] == base.refs[r] + Occurrences(extra + [p], r) {
      OccurrencesAppend(extra, [p], r);
      assert Occurrences([p], r) == if p == r then 1 else 0;
    }
  }

  lemma RetainedPop(base: Memory, m: Memory, extra: seq<Pfn>)
    requires Retained(base, m, extra) && extra != [] && (forall p :: p in base.refs ==> base.refs[p] > 0)
    requires extra[|extra| - 1] in base.refs
    ensures Retained(base, Release(m, extra[|extra| - 1]), extra[..|extra| - 1]) && extra[|extra| - 1] in m.refs
  {
    var p, less := extra[|extra| - 1], extra[..|extra| - 1];
    assert Occurrences(extra, p) == Occurrences(less, p) + 1;
    assert RefsOf(m, p) > 1;
    forall r | r in base.refs ensures Release(m, p).refs[r] == base.refs[r] + Occurrences(less, r) {
      assert Occurrences(extra, r) == Occurrences(less, r) + if r == p then 1 else 0;
    }
  }

  /** Dropping the fresh copy keeps what was retained besides it. */
  lemma RetainedDrop(base: Memory, m: Memory, extra: seq<Pfn>, copy: Pfn, level: nat, t: seq<Descriptor>)
    requires base.pages.Keys == base.refs.Keys == base.level.Keys && copy !in base.pages && copy !in extra
    requires Retained(Add(base, copy, level, t), m, extra)
    ensures Retained(base, Release(m, copy), extra) && copy in m.refs
  {
    OccurrencesPositive(extra, copy);
    var n := Release(m, copy);
    assert RefsOf(m, copy) == 1;
    assert n.pages == base.pages && n.level == base.level;
  }

  /** A table descriptor in a live level-one table names a live table. */
  lemma TargetsLive(m: Memory, q: Pfn, i: nat)
    requires Shape(m) && Typed(m) && q in m.pages && i < ENTRIES && Level(m, q) < 2 && IsTable(m.pages[q][i])
    ensures m.pages[q][i].pfn in m.pages && m.pages[q][i].pfn in m.refs
            && Level(m, m.pages[q][i].pfn) == Level(m, q) + 1
  {
    assert EntryTyped(m, q, Entry(m, q, i));
  }

  lemma {:induction false} TargetsPrefix(t: seq<Descriptor>, i: nat)
    requires i < |t|
    ensures IsTable(t[i]) ==> Targets(t[..i + 1]) == Targets(t[..i]) + [t[i].pfn]
    ensures !IsTable(t[i]) ==> Targets(t[..i + 1]) == Targets(t[..i])
  {
    assert t[..i + 1][..i] == t[..i];
  }

  lemma {:induction false} TargetsMembers(t: seq<Descriptor>, p: Pfn)
    requires p in Targets(t)
    ensures exists i :: 0 <= i < |t| && IsTable(t[i]) && t[i].pfn == p
  {
    var n := |t| - 1;
    if IsTable(t[n]) && t[n].pfn == p {
    } else {
      TargetsMembers(t[..n], p);
      var i :| 0 <= i < n && IsTable(t[..n][i]) && t[..n][i].pfn == p;
      assert t[i] == t[..n][i];
    }
  }

  /** Equal tables have equal entries and pointers. */
  lemma TablesOnly(m: Memory, n: Memory)
    requires m.pages == n.pages && m.level == n.level
    ensures forall r, j: nat :: Entry(m, r, j) == Entry(n, r, j)
    ensures forall r :: Level(m, r) == Level(n, r)
    ensures forall p :: Pointers(m, p) == Pointers(n, p)
  {
    forall p ensures Pointers(m, p) == Pointers(n, p) { SameTables(m, n, p); }
  }

  ghost function DetachExtra(m: Memory, source: Pfn): seq<Pfn> {
    if source in m.pages && Level(m, source) == 1 then Targets(m.pages[source]) else []
  }

  lemma DetachRefs(m: Memory, n: Memory, source: Pfn, copy: Pfn, p: Pfn)
    requires Shape(m) && source in m.pages && copy !in m.pages && 1 <= Level(m, source) <= 2
    requires n.refs.Keys == m.refs.Keys + {copy} && n.refs[copy] == 1
    requires forall r :: r in m.refs ==>
             n.refs[r] + (if r == source then 1 else 0) == m.refs[r] + Occurrences(DetachExtra(m, source), r)
    requires p !in m.pages ==> Row(m, source, p) == 0
    ensures RefsOf(n, p) + (if p == source then 1 else 0) == RefsOf(m, p) + Row(m, source, p) + if p == copy then 1
            else 0
  {
    OccurrencesOfTargets(m.pages[source], p);
  }

  lemma RowLive(m: Memory, source: Pfn, p: Pfn)
    requires Shape(m) && Typed(m) && source in m.pages && p !in m.pages
    ensures Row(m, source, p) == 0
  {
    if Level(m, source) < 2 {
      forall i | 0 <= i < |m.pages[source]| ensures Points(m.pages[source][i], p) == 0 {
        assert EntryTyped(m, source, Entry(m, source, i));
      }
      CountNone(m.pages[source], p);
    }
  }

  /** What the statements of a detach add up to. */
  lemma DetachedStep(m: Memory, n: Memory, q: Pfn, i: nat, source: Pfn, copy: Pfn, d: Descriptor)
    requires Shape(m) && Typed(m) && q in m.pages && i < ENTRIES && Names(m, q, i, source) && source in m.pages
             && RefsOf(m, source) > 1
    requires copy !in m.pages && FitsFrame(copy) && IsTable(d) && d.pfn == copy
    requires n.pages == Copied(m, q, i, source, copy, d).pages && n.level == Copied(m, q, i, source, copy, d).level
    requires n.refs.Keys == m.refs.Keys + {copy} && n.refs[copy] == 1
    requires forall r :: r in m.refs ==>
             n.refs[r] + (if r == source then 1 else 0) == m.refs[r] + Occurrences(DetachExtra(m, source), r)
    ensures DetachStep(m, n, q, i, source, copy, d)
  {
    hide Copied, Entry, Level, RefsOf, Pointers, Row, Typed, Shape, Occurrences, DetachExtra, FitsFrame, IsTable;
    ShapeAt(m, q);
    NamedLevel(m, q, i, source);
    assert Level(m, source) <= 2 by { NamesLevel(m, q, i, source); }
    TablesOnly(n, Copied(m, q, i, source, copy, d));
    CopiedEntries(m, q, i, source, copy, d);
    forall p
      ensures RefsOf(n, p) + (if p == source then 1 else 0) == RefsOf(m, p) + Row(m, source, p) + if p == copy then 1
              else 0
      ensures Pointers(n, p) + (if p == source then 1 else 0) == Pointers(m, p) + Row(m, source, p) + if p
              == copy then 1 else 0
    {
      CopiedPointers(m, q, i, source, copy, d, p);
      if p !in m.pages { RowLive(m, source, p); }
      DetachRefs(m, n, source, copy, p);
    }
  }

  lemma NamesLevel(m: Memory, q: Pfn, i: nat, p: Pfn)
    requires Names(m, q, i, p)
    ensures Level(m, q) <= 1
  {}

  lemma DetachedShape(m: Memory, n: Memory, q: Pfn, i: nat, source: Pfn, copy: Pfn, d: Descriptor)
    requires Shape(m) && q in m.pages && i < ENTRIES && source in m.pages && RefsOf(m, source) > 1
    requires copy !in m.pages && FitsFrame(copy)
    requires n.pages == Copied(m, q, i, source, copy, d).pages && n.level == Copied(m, q, i, source, copy, d).level
    requires n.refs.Keys == m.refs.Keys + {copy} && n.refs[copy] == 1
    requires forall r :: r in m.refs ==>
             n.refs[r] + (if r == source then 1 else 0) == m.refs[r] + Occurrences(DetachExtra(m, source), r)
    ensures Shape(n)
  {
    hide FitsFrame, Occurrences, DetachExtra;
  }

  lemma DetachedList(m: Memory, before: seq<Pfn>, source: Pfn, copy: Pfn, position: nat, after: seq<Pfn>)
    requires Shape(m) && source in m.pages && 1 <= Level(m, source) <= 2
    requires position < |before + DetachExtra(m, source)| && (before + DetachExtra(m, source))[position] == source
    requires after == SwapRemove(before + DetachExtra(m, source), position) + [copy]
    ensures DetachList(m, before, after, source, copy)
  {
    var extra := DetachExtra(m, source);
    forall p
      ensures Occurrences(after, p) + (if p == source then 1 else 0)
           == Occurrences(before, p) + Row(m, source, p) + if p == copy then 1 else 0
    {
      OccurrencesAppend(SwapRemove(before + extra, position), [copy], p);
      OccurrencesSwapRemove(before + extra, position, p);
      OccurrencesAppend(before, extra, p);
      OccurrencesOfTargets(m.pages[source], p);
      assert Occurrences([copy], p) == if copy == p then 1 else 0;
    }
  }

  // ---------- a new, empty space ----------

  lemma NewTyped(m: Memory, root: Pfn)
    requires Typed(m) && root !in m.pages
    ensures Typed(Add(m, root, 0, ZeroTable()))
  {
    hide Add, Entry, Level;
    var n := Add(m, root, 0, ZeroTable());
    AddEntries(m, root, 0, ZeroTable());
    forall r, j | r in n.pages && 0 <= j < ENTRIES ensures EntryTyped(n, r, Entry(n, r, j)) {
      if r != root { assert EntryTyped(m, r, Entry(m, r, j)); }
    }
  }

  lemma NewOnce(m: Memory, root: Pfn)
    requires LeavesOnce(m) && root !in m.pages
    ensures LeavesOnce(Add(m, root, 0, ZeroTable()))
  {
    hide Add, Entry, Level;
    var n := Add(m, root, 0, ZeroTable());
    AddEntries(m, root, 0, ZeroTable());
    forall r | r in n.pages && Level(n, r) == 1 ensures RowDistinct(n, r) { assert RowDistinct(m, r); }
  }

  lemma NewRoots(m: Memory, spaces: seq<Space>, root: Pfn)
    requires RootsDistinct(m, spaces) && root !in m.pages
    ensures RootsDistinct(Add(m, root, 0, ZeroTable()), spaces + [Space(root, [root])])
  {
    hide Add, Entry, Level;
    AddEntries(m, root, 0, ZeroTable());
  }

  lemma NewClear(m: Memory, spaces: seq<Space>, root: Pfn, s: Space)
    requires Typed(m) && root !in m.pages
    requires s.root == root || (s.root in m.pages && Level(m, s.root) == 0 && UserSlotsClear(m, s))
    ensures UserSlotsClear(Add(m, root, 0, ZeroTable()), s)
  {
    hide Add, Entry, Level;
    AddEntries(m, root, 0, ZeroTable());
    if s.root != root { assert EntryTyped(m, s.root, Entry(m, s.root, 0)); }
  }

  lemma NewCore(m: Memory, spaces: seq<Space>, root: Pfn)
    requires Core(m, spaces) && root !in m.pages && FitsFrame(root)
    ensures Core(Add(m, root, 0, ZeroTable()), spaces + [Space(root, [root])])
  {
    hide Add, Entry, Level, Pointers, RefsOf, RootCount, FitsFrame, Shape, Typed, UserSlotsClear, LeavesOnce;
    var n, after := Add(m, root, 0, ZeroTable()), spaces + [Space(root, [root])];
    NewShape(m, root);
    NewTyped(m, root);
    NewOnce(m, root);
    NewRoots(m, spaces, root);
    forall p ensures RefsOf(n, p) == Pointers(n, p) + RootCount(after, p) { NewExactAt(m, spaces, root, p); }
    forall j | 0 <= j < |after| ensures UserSlotsClear(n, after[j]) { NewClear(m, spaces, root, after[j]); }
  }

  lemma NewShape(m: Memory, root: Pfn)
    requires Shape(m) && root !in m.pages && FitsFrame(root)
    ensures Shape(Add(m, root, 0, ZeroTable()))
  {}

  lemma NewExactAt(m: Memory, spaces: seq<Space>, root: Pfn, p: Pfn)
    requires Shape(m) && PointersExact(m, spaces) && root !in m.pages
    ensures RefsOf(Add(m, root, 0, ZeroTable()), p)
            == Pointers(Add(m, root, 0, ZeroTable()), p) + RootCount(spaces + [Space(root, [root])], p)
    ensures ListsExact(m, spaces) ==>
            RefsOf(Add(m, root, 0, ZeroTable()), p) == Listed(spaces + [Space(root, [root])], p)
  {
    hide Add, Pointers;
    var after := spaces + [Space(root, [root])];
    assert RefsOf(m, p) == Pointers(m, p) + RootCount(spaces, p);
    assert after[..|spaces|] == spaces;
    AddEntries(m, root, 0, ZeroTable());
    AddPointers(m, root, 0, ZeroTable(), p);
    CountNone(ZeroTable(), p);
    assert Occurrences([root], p) == if root == p then 1 else 0;
  }

  /** A space with an empty root joins; nobody sees a difference. */
  lemma NewKeeps(m: Memory, spaces: seq<Space>, root: Pfn)
    requires Inv(m, spaces) && root !in m.pages && FitsFrame(root)
    ensures Inv(Add(m, root, 0, ZeroTable()), spaces + [Space(root, [root])])
    ensures SameViews(m, Add(m, root, 0, ZeroTable()), spaces)
    ensures forall ix :: Within(ix) ==> View(Add(m, root, 0, ZeroTable()), root, ix) == ZERO
  {
    hide Add, Entry, Level, Pointers, RefsOf, FitsFrame, Shape, Listed, UserSlotsClear, LeavesOnce, PointersExact,
      OwnsLevelOne, Typed, View;
    var n, after := Add(m, root, 0, ZeroTable()), spaces + [Space(root, [root])];
    NewCore(m, spaces, root);
    AddEntries(m, root, 0, ZeroTable());
    forall p ensures RefsOf(n, p) == Listed(after, p) { NewExactAt(m, spaces, root, p); }
    forall j | 0 <= j < |after| ensures OwnsLevelOne(n, after[j]) { NewOwns(m, root, after[j]); }
    forall j, jx | 0 <= j < |after| && Within(jx)
      ensures View(n, after[j].root, jx) == if after[j].root == root then ZERO else View(m, after[j].root, jx)
    { NewView(m, root, after[j].root, jx); }
    assert after[|spaces|].root == root;
    forall j | 0 <= j < |spaces| ensures SameView(m, n, spaces[j].root) { assert after[j] == spaces[j]; }
  }

  lemma NewOwns(m: Memory, root: Pfn, s: Space)
    requires root !in m.pages && (s == Space(root, [root]) || OwnsLevelOne(m, s))
    ensures OwnsLevelOne(Add(m, root, 0, ZeroTable()), s)
  {
    hide Add, Entry;
    AddEntries(m, root, 0, ZeroTable());
  }

  lemma NewView(m: Memory, root: Pfn, r: Pfn, jx: Index)
    requires Typed(m) && root !in m.pages && Within(jx) && (r == root || (r in m.pages && Level(m, r) == 0))
    ensures View(Add(m, root, 0, ZeroTable()), r, jx) == if r == root then ZERO else View(m, r, jx)
  {
    hide Add, Entry, Level, Typed;
    AddEntries(m, root, 0, ZeroTable());
    if r != root { WalkTyped(m, r, jx); }
  }

  /** Decrementing the shared source completes the reference counts of a detach. */
  lemma DetachedRefs(m: Memory, held: Memory, n: Memory, source: Pfn, copy: Pfn)
    requires Shape(m) && source in m.pages && RefsOf(m, source) > 1 && copy !in m.pages
             && copy !in DetachExtra(m, source)
    requires Retained(Add(m, copy, Level(m, source), m.pages[source]), held, DetachExtra(m, source))
    requires n.refs == Release(held, source).refs
    ensures RefsOf(held, source) > 1
    ensures n.refs.Keys == m.refs.Keys + {copy} && n.refs[copy] == 1
    ensures forall r :: r in m.refs ==>
            n.refs[r] + (if r == source then 1 else 0) == m.refs[r] + Occurrences(DetachExtra(m, source), r)
  {
    OccurrencesPositive(DetachExtra(m, source), copy);
    assert copy in held.refs && held.refs[copy] == 1;
  }

  lemma ExtraLive(m: Memory, source: Pfn)
    requires Shape(m) && Typed(m) && source in m.pages
    ensures forall p :: p in DetachExtra(m, source) ==> p in m.pages
  {
    forall p | p in DetachExtra(m, source) ensures p in m.pages {
      TargetsMembers(m.pages[source], p);
      var i :| 0 <= i < |m.pages[source]| && IsTable(m.pages[source][i]) && m.pages[source][i].pfn == p;
      TargetsLive(m, source, i);
    }
  }

  lemma TableDescriptorNames(copy: Pfn)
    requires FitsFrame(copy)
    ensures IsTable(TableDescriptor(copy)) && TableDescriptor(copy).pfn == copy
  {
    FrameExact(copy);
  }

  lemma InvParts(m: Memory, spaces: seq<Space>, k: nat)
    requires Inv(m, spaces) && k < |spaces|
    ensures Core(m, spaces) && Lists(m, spaces) && Shape(m) && Typed(m)
    ensures spaces[k].root in m.pages && Level(m, spaces[k].root) == 0 && |m.pages[spaces[k].root]| == ENTRIES
    ensures OwnsLevelOne(m, spaces[k])
  {}

  /** All of a detach, from its parts. */
  lemma Detached(m: Memory, held: Memory, n: Memory, spaces: seq<Space>, k: nat, q: Pfn, i: nat, source: Pfn, copy: Pfn,
                 position: nat, pfns: seq<Pfn>)
    requires Inv(m, spaces) && k < |spaces| && (q == spaces[k].root || Level(m, q) == 1)
    requires q in m.pages && i < ENTRIES && Names(m, q, i, source) && RefsOf(m, source) > 1
    requires copy !in m.pages && FitsFrame(copy)
    requires source in m.pages
             && Retained(Add(m, copy, Level(m, source), m.pages[source]), held, DetachExtra(m, source))
    requires n == Release(Put(held, q, i, TableDescriptor(copy)), source)
    requires position < |spaces[k].pfns + DetachExtra(m, source)|
             && (spaces[k].pfns + DetachExtra(m, source))[position] == source
    requires pfns == SwapRemove(spaces[k].pfns + DetachExtra(m, source), position) + [copy]
    ensures Inv(n, spaces[k := spaces[k].(pfns := pfns)]) && SameViews(m, n, spaces)
    ensures DetachStep(m, n, q, i, source, copy, TableDescriptor(copy))
    ensures DetachList(m, spaces[k].pfns, pfns, source, copy)
  {
    hide Inv, Core, Lists, Shape, Typed, Level, Names, FitsFrame, DetachExtra, SwapRemove, TableDescriptor, Entry,
      SameViews, DetachList;
    var d := TableDescriptor(copy);
    InvParts(m, spaces, k);
    TableDescriptorNames(copy);
    NamedLevel(m, q, i, source);
    NamesLevel(m, q, i, source);
    ExtraLive(m, source);
    DetachedRefs(m, held, Release(held, source), source, copy);
    DetachedTables(m, held, n, q, i, source, copy, d);
    DetachedStep(m, n, q, i, source, copy, d);
    DetachedShape(m, n, q, i, source, copy, d);
    DetachedList(m, spaces[k].pfns, source, copy, position, pfns);
    DetachKeeps(m, n, spaces, k, q, i, source, copy, d, pfns);
  }

  lemma DetachedTables(m: Memory, held: Memory, n: Memory, q: Pfn, i: nat, source: Pfn, copy: Pfn, d: Descriptor)
    requires source in m.pages && RefsOf(held, source) > 1
    requires held.pages == Add(m, copy, Level(m, source), m.pages[source]).pages
    requires held.level == Add(m, copy, Level(m, source), m.pages[source]).level
    requires n == Release(Put(held, q, i, d), source)
    ensures n.pages == Copied(m, q, i, source, copy, d).pages && n.level == Copied(m, q, i, source, copy, d).level
    ensures n.refs == Release(held, source).refs
  {}

  lemma TargetsEmpty()
    ensures Targets([]) == []
  {}

  lemma RetainedPages(base: Memory, m: Memory, extra: seq<Pfn>)
    requires Retained(base, m, extra)
    ensures m.pages == base.pages && m.level == base.level && m.refs.Keys == base.refs.Keys
  {}

  lemma RetainRelease(m: Memory, p: Pfn)
    requires p in m.refs && m.refs[p] > 0
    ensures Release(Retain(m, p), p) == m
  {
    assert Release(Retain(m, p), p).refs == m.refs;
  }

  lemma PrefixLive(m: Memory, source: Pfn, i: nat)
    requires Shape(m) && Typed(m) && source in m.pages && Level(m, source) < 2 && i <= |m.pages[source]|
    ensures forall p :: p in Targets(m.pages[source][..i]) ==> p in m.refs
  {
    forall p | p in Targets(m.pages[source][..i]) ensures p in m.refs {
      TargetsMembers(m.pages[source][..i], p);
      var j :| 0 <= j < i && IsTable(m.pages[source][..i][j]) && m.pages[source][..i][j].pfn == p;
      TargetsLive(m, source, j);
    }
  }

  lemma CopyIntoFresh(m: Memory, copy: Pfn, level: nat, row: seq<Descriptor>)
    ensures var a := Add(m, copy, level, ZeroTable()); a.(pages := a.pages[copy := row]) == Add(m, copy, level, row)
  {}

  lemma ExtraLevelTwo(m: Memory, source: Pfn)
    requires Level(m, source) == 2
    ensures DetachExtra(m, source) == []
  {}

  lemma LevelOneListed(m: Memory, s: Space, i: nat, p: Pfn)
    requires OwnsLevelOne(m, s) && i < ENTRIES && Names(m, s.root, i, p)
    ensures p in s.pfns
  {}

  lemma SameViewsRefl(m: Memory, spaces: seq<Space>)
    ensures SameViews(m, m, spaces)
  {}

  lemma RetainedKeeps(base: Memory, m: Memory, extra: seq<Pfn>, q: Pfn)
    requires Retained(base, m, extra) && q in base.refs && q in base.pages
    ensures q in m.refs && q in m.pages && m.pages[q] == base.pages[q] && m.refs[q] >= base.refs[q]
  {}

  lemma AddKeeps(m: Memory, copy: Pfn, level: nat, t: seq<Descriptor>, q: Pfn)
    requires Shape(m) && q in m.pages && copy !in m.pages
    ensures Add(m, copy, level, t).pages.Keys == m.pages.Keys + {copy}
    ensures q in Add(m, copy, level, t).refs && Add(m, copy, level, t).refs[q] == m.refs[q] > 0
    ensures Add(m, copy, level, t).pages[q] == m.pages[q] && Add(m, copy, level, t).pages[copy] == t
  {}

  lemma PutKeepsRefs(m: Memory, q: Pfn, i: nat, d: Descriptor)
    ensures Put(m, q, i, d).refs == m.refs
  {}

  lemma ShapeKeys(m: Memory)
    requires Shape(m)
    ensures m.pages.Keys == m.refs.Keys == m.level.Keys
  {}

  lemma SwapRemoveIs(s: seq<Pfn>, i: nat)
    requires i < |s|
    ensures SwapRemove(s, i) == s[i := s[|s| - 1]][..|s| - 1]
  {}

  // ---------- the path to a page ----------

  /** As far as the walk along `ix` goes, it goes through tables referenced once. */
  ghost predicate PrivateSoFar(m: Memory, root: Pfn, ix: Index) {
    var d0 := Entry(m, root, ix.i0);
    || d0 == ZERO
    || (&& IsTable(d0) && RefsOf(m, d0.pfn) == 1
        && var d1 := Entry(m, d0.pfn, ix.i1);
           d1 == ZERO || (IsTable(d1) && RefsOf(m, d1.pfn) == 1))
  }

  /** A supervisor block covers `ix`. */
  ghost predicate Blocked(m: Memory, root: Pfn, ix: Index) {
    && IsTable(Entry(m, root, ix.i0))
    && var d1 := Entry(m, Entry(m, root, ix.i0).pfn, ix.i1);
       d1 != ZERO && !IsTable(d1)
  }

  /** The leaf is shared, the space does not list it, and its parent is private,
      so that no detach of the parent will list it either. */
  ghost predicate Stuck(m: Memory, s: Space, ix: Index) {
    && Reaches(m, s.root, ix) && RefsOf(m, LevelOne(m, s.root, ix)) == 1
    && RefsOf(m, Leaf(m, s.root, ix)) > 1 && Leaf(m, s.root, ix) !in s.pfns
  }

  lemma PrivateSoFarReaches(m: Memory, root: Pfn, ix: Index)
    requires PrivateSoFar(m, root, ix)
    ensures PrivatePath(m, root, ix) <==> Reaches(m, root, ix)
    ensures !Reaches(m, root, ix) ==> View(m, root, ix) == ZERO
    ensures !Blocked(m, root, ix)
  {}

  lemma NotBlocked(m: Memory, spaces: seq<Space>, k: nat, ix: Index)
    requires Core(m, spaces) && k < |spaces| && ix.i0 == 0 && 128 <= ix.i1 < 256
    ensures !Blocked(m, spaces[k].root, ix)
  {
    assert UserSlotsClear(m, spaces[k]);
  }

  /** After the level-one detach the leaf is shared and listed. */
  lemma ChildListed(m: Memory, before: seq<Pfn>, after: seq<Pfn>, source: Pfn, copy: Pfn, j: nat)
    requires DetachList(m, before, after, source, copy) && Level(m, source) < 2 && IsTable(Entry(m, source, j))
    requires Entry(m, source, j).pfn != source
    ensures Entry(m, source, j).pfn in after
  {
    var p := Entry(m, source, j).pfn;
    CountUpdate(m.pages[source], j, ZERO, p);
    OccurrencesPositive(after, p);
    assert Occurrences(after, p) + (if p == source then 1 else 0)
        == Occurrences(before, p) + Row(m, source, p) + if p == copy then 1 else 0;
  }

  /** What the walk finds after a level-one detach. */
  lemma DetachedLevelOne(m: Memory, n: Memory, root: Pfn, ix: Index, source: Pfn, copy: Pfn, d: Descriptor)
    requires Shape(m) && Typed(m) && Level(m, root) == 0 && Within(ix) && DetachStep(m, n, root, ix.i0, source, copy, d)
    ensures copy in n.pages && Level(n, copy) == 1 && Level(n, root) == 0 && root in n.pages
    ensures Names(n, root, ix.i0, copy) && LevelOne(n, root, ix) == copy && RefsOf(n, copy) == 1
    ensures LevelOne(m, root, ix) == source && Entry(n, copy, ix.i1) == Entry(m, source, ix.i1)
    ensures RefsOf(m, source) > 1
  {
    hide Pointers;
    NamedLevel(m, root, ix.i0, source);
    RowLive(m, source, copy);
  }

  /** What the walk finds after a level-two detach below a private parent. */
  lemma DetachedLeaf(m: Memory, n: Memory, root: Pfn, ix: Index, source: Pfn, copy: Pfn, d: Descriptor)
    requires Shape(m) && Typed(m) && root in m.pages && Level(m, root) == 0 && Within(ix)
    requires IsTable(Entry(m, root, ix.i0)) && RefsOf(m, LevelOne(m, root, ix)) == 1
    requires DetachStep(m, n, LevelOne(m, root, ix), ix.i1, source, copy, d)
    ensures PrivatePath(n, root, ix) && Leaf(n, root, ix) == copy && PrivateSoFar(n, root, ix)
  {
    hide Pointers;
    WalkTyped(m, root, ix);
    NamedLevel(m, LevelOne(m, root, ix), ix.i1, source);
    RowLive(m, source, copy);
    assert Row(m, source, LevelOne(m, root, ix)) == 0;
  }

  lemma NamesEntry(m: Memory, q: Pfn, i: nat, p: Pfn)
    requires Names(m, q, i, p)
    ensures IsTable(Entry(m, q, i)) && Entry(m, q, i).pfn == p && Level(m, q) < 2
  {}

  lemma NamesFrom(m: Memory, q: Pfn, i: nat)
    requires Level(m, q) < 2 && IsTable(Entry(m, q, i))
    ensures Names(m, q, i, Entry(m, q, i).pfn)
  {}

  lemma SameViewsTrans(m: Memory, n: Memory, o: Memory, spaces: seq<Space>, after: seq<Space>)
    requires SameViews(m, n, spaces) && SameViews(n, o, after) && SameRoots(spaces, after)
    ensures SameViews(m, o, spaces)
  {
    hide View;
    forall k | 0 <= k < |spaces| ensures SameView(m, o, spaces[k].root) {
      assert SameView(m, n, spaces[k].root) && SameView(n, o, after[k].root);
    }
  }

  lemma NotStuck(m: Memory, s: Space, ix: Index)
    ensures PrivateSoFar(m, s.root, ix) ==> !Stuck(m, s, ix) && !Blocked(m, s.root, ix)
  {}

  lemma AfterLevelOne(m: Memory, n: Memory, s: Space, after: Space, ix: Index, source: Pfn, copy: Pfn, d: Descriptor)
    requires Shape(m) && Typed(m) && Level(m, s.root) == 0 && s.root in m.pages && Within(ix) && after.root == s.root
    requires DetachStep(m, n, s.root, ix.i0, source, copy, d) && DetachList(m, s.pfns, after.pfns, source, copy)
    ensures Names(n, s.root, ix.i0, copy) && RefsOf(n, copy) == 1
    ensures !PrivateSoFar(m, s.root, ix) && !Stuck(m, s, ix) && !Stuck(n, after, ix)
    ensures Blocked(n, s.root, ix) ==> Blocked(m, s.root, ix)
  {
    hide DetachStep, DetachList, Shape, Typed, Level;
    DetachedLevelOne(m, n, s.root, ix, source, copy, d);
    NamesEntry(n, s.root, ix.i0, copy);
    WalkTyped(m, s.root, ix);
    DetachStepNames(m, n, s.root, ix.i0, source, copy, d);
    if IsTable(Entry(m, source, ix.i1)) {
      NamesFrom(m, source, ix.i1);
      NamedLevel(m, source, ix.i1, Entry(m, source, ix.i1).pfn);
      ChildListed(m, s.pfns, after.pfns, source, copy, ix.i1);
    }
  }

  lemma DetachStepNames(m: Memory, n: Memory, q: Pfn, i: nat, source: Pfn, copy: Pfn, d: Descriptor)
    requires DetachStep(m, n, q, i, source, copy, d)
    ensures IsTable(Entry(m, q, i)) && Entry(m, q, i).pfn == source && RefsOf(m, source) > 1
  {}

  lemma PrivateReaches(m: Memory, root: Pfn, ix: Index)
    requires PrivatePath(m, root, ix)
    ensures Reaches(m, root, ix) && View(m, root, ix) == Entry(m, Leaf(m, root, ix), ix.i2)
  {}

  lemma SameViewsAt(m: Memory, n: Memory, spaces: seq<Space>, k: nat, ix: Index)
    requires SameViews(m, n, spaces) && k < |spaces| && Within(ix)
    ensures SameView(m, n, spaces[k].root) && View(n, spaces[k].root, ix) == View(m, spaces[k].root, ix)
  {}

  /** A write through a detached path, seen from the state before the detach. */
  lemma AfterSameViews(m: Memory, n: Memory, o: Memory, spaces: seq<Space>, after: seq<Space>, k: nat, ix: Index,
                       d: Descriptor)
    requires SameViews(m, n, spaces) && SameRoots(spaces, after) && k < |spaces| && OnlyViewSet(n, o, after, k, ix, d)
    ensures OnlyViewSet(m, o, spaces, k, ix, d)
  {
    hide View;
    forall j | 0 <= j < |spaces| ensures SameView(m, n, spaces[j].root) && (j != k ==> SameView(m, o, spaces[j].root)) {
      assert SameView(m, n, spaces[j].root);
      assert j != k ==> SameView(n, o, after[j].root);
    }
    assert ViewSet(n, o, after[k].root, ix, d);
  }

  /** Zero, then a new descriptor: the new descriptor is all that changed. */
  lemma Replaced(m: Memory, cleared: Memory, n: Memory, spaces: seq<Space>, k: nat, ix: Index, d: Descriptor)
    requires k < |spaces| && OnlyViewSet(m, cleared, spaces, k, ix, ZERO) && OnlyViewSet(cleared, n, spaces, k, ix, d)
    ensures OnlyViewSet(m, n, spaces, k, ix, d)
  {
    hide View;
    forall j | 0 <= j < |spaces| && j != k ensures SameView(m, n, spaces[j].root) {
      assert SameView(m, cleared, spaces[j].root) && SameView(cleared, n, spaces[j].root);
    }
  }

  /** The leaf below `ix`, and nothing else, was replaced by a private copy. */
  ghost predicate LeafDetached(m: Memory, n: Memory, root: Pfn, ix: Index) {
    exists copy :: DetachStep(m, n, LevelOne(m, root, ix), ix.i1, Leaf(m, root, ix), copy, TableDescriptor(copy))
  }

  ghost predicate LevelOneDetached(m: Memory, n: Memory, root: Pfn, ix: Index) {
    exists copy :: DetachStep(m, n, root, ix.i0, LevelOne(m, root, ix), copy, TableDescriptor(copy))
  }

  /** Making the path to `ix` private detaches the level-one table, then the
      leaf, or either, or nothing. */
  ghost predicate MadePrivate(m: Memory, n: Memory, root: Pfn, ix: Index) {
    exists mid :: MadePrivateBy(m, mid, n, root, ix)
  }

  ghost predicate MadePrivateBy(m: Memory, mid: Memory, n: Memory, root: Pfn, ix: Index) {
    && (mid == m || LevelOneDetached(m, mid, root, ix))
    && (n == mid || (IsTable(Entry(mid, root, ix.i0)) && LeafDetached(mid, n, root, ix)))
  }

  /** What a space leaves behind that makes its path to `ix` private: the other
      roots as they were, and, if it shared the level-one table, that table as
      it was, with one reference less, and one more for every leaf it names but
      the one at `ix`. */
  ghost predicate LeftBehind(m: Memory, n: Memory, root: Pfn, ix: Index) {
    && (forall q :: q in m.pages ==> Level(n, q) == Level(m, q))
    && (forall q, j: nat :: q in m.pages && Level(m, q) == 0 && q != root ==> Entry(n, q, j) == Entry(m, q, j))
    && (IsTable(Entry(m, root, ix.i0)) && RefsOf(m, LevelOne(m, root, ix)) > 1 ==>
      TableLeft(m, n, LevelOne(m, root, ix), Leaf(m, root, ix)))
  }

  ghost predicate TableLeft(m: Memory, n: Memory, one: Pfn, leaf: Pfn) {
    && RefsOf(n, one) + 1 == RefsOf(m, one) && Level(n, one) == 1
    && (forall j: nat :: Entry(n, one, j) == Entry(m, one, j))
    && (forall j: nat :: j < ENTRIES && IsTable(Entry(m, one, j)) && Entry(m, one, j).pfn != leaf ==>
          RefsOf(n, Entry(m, one, j).pfn) > RefsOf(m, Entry(m, one, j).pfn))
  }

  lemma LevelOneLeft(m: Memory, n: Memory, root: Pfn, ix: Index, leaf: Pfn)
    requires Shape(m) && Typed(m) && root in m.pages && Level(m, root) == 0 && Within(ix)
             && LevelOneDetached(m, n, root, ix)
    ensures TableLeft(m, n, LevelOne(m, root, ix), leaf)
    ensures forall q, j: nat :: q in m.pages && Level(m, q) == 0 && q != root ==> Entry(n, q, j) == Entry(m, q, j)
    ensures forall q :: q in m.pages ==> q in n.pages && Level(n, q) == Level(m, q)
    ensures Typed(n) && IsTable(Entry(m, root, ix.i0)) && IsTable(Entry(n, root, ix.i0))
            && LevelOne(n, root, ix) != LevelOne(m, root, ix)
    ensures Entry(n, LevelOne(n, root, ix), ix.i1) == Entry(m, LevelOne(m, root, ix), ix.i1)
  {
    hide Level, FitsFrame, Pointers, Typed, Row, TableDescriptor, Entry, Shape;
    var one := LevelOne(m, root, ix);
    var copy :| DetachStep(m, n, root, ix.i0, one, copy, TableDescriptor(copy));
    DetachTyped(m, n, root, ix.i0, one, copy, TableDescriptor(copy));
    DetachStepNames(m, n, root, ix.i0, one, copy, TableDescriptor(copy));
    NamedLevel(m, root, ix.i0, one);
    SelfRow(m, one);
    forall j: nat | j < ENTRIES && IsTable(Entry(m, one, j))
      ensures RefsOf(n, Entry(m, one, j).pfn) > RefsOf(m, Entry(m, one, j).pfn) {
      NamesFrom(m, one, j);
      NamedLevel(m, one, j, Entry(m, one, j).pfn);
      RowNames(m, one, j);
    }
  }

  lemma RowNames(m: Memory, q: Pfn, i: nat)
    requires Level(m, q) < 2 && IsTable(Entry(m, q, i))
    ensures Row(m, q, Entry(m, q, i).pfn) > 0
  {
    CountUpdate(m.pages[q], i, ZERO, Entry(m, q, i).pfn);
  }

  /** No table names itself. */
  lemma SelfRow(m: Memory, q: Pfn)
    requires Shape(m) && Typed(m) && q in m.pages
    ensures Row(m, q, q) == 0
  {
    if Level(m, q) < 2 {
      forall j | 0 <= j < |m.pages[q]| ensures Points(m.pages[q][j], q) == 0 {
        assert EntryTyped(m, q, Entry(m, q, j));
      }
      CountNone(m.pages[q], q);
    }
  }

  lemma LeafFrame(m: Memory, n: Memory, root: Pfn, ix: Index)
    requires Typed(m) && root in m.pages && Level(m, root) == 0 && Within(ix) && IsTable(Entry(m, root, ix.i0))
             && LeafDetached(m, n, root, ix)
    ensures forall q, j: nat :: q in m.pages && q != LevelOne(m, root, ix) ==> Entry(n, q, j) == Entry(m, q, j)
    ensures forall q :: q in m.pages ==> Level(n, q) == Level(m, q)
    ensures forall p :: p in m.pages && p != Leaf(m, root, ix) ==> RefsOf(n, p) == RefsOf(m, p)
    ensures Level(m, Leaf(m, root, ix)) == 2 && Level(m, LevelOne(m, root, ix)) == 1
  {
    hide Level, FitsFrame, Pointers, Typed, TableDescriptor, Entry, Row;
    var one, leaf := LevelOne(m, root, ix), Leaf(m, root, ix);
    var copy :| DetachStep(m, n, one, ix.i1, leaf, copy, TableDescriptor(copy));
    WalkTyped(m, root, ix);
    NamedLevel(m, one, ix.i1, leaf);
    forall p ensures Row(m, leaf, p) == 0 { LeafRowZero(m, leaf, p); }
  }

  lemma LeafRowZero(m: Memory, q: Pfn, p: Pfn)
    requires Level(m, q) == 2
    ensures Row(m, q, p) == 0
  {}

  lemma LeftThenLeaf(m: Memory, mid: Memory, n: Memory, root: Pfn, ix: Index)
    requires Shape(m) && Typed(m) && root in m.pages && Level(m, root) == 0 && Within(ix)
             && LevelOneDetached(m, mid, root, ix)
    requires IsTable(Entry(mid, root, ix.i0)) && LeafDetached(mid, n, root, ix)
    ensures LeftBehind(m, n, root, ix)
  {
    hide Level, Typed, Entry, LevelOneDetached, LeafDetached, RefsOf, Shape;
    var one, leaf := LevelOne(m, root, ix), Leaf(m, root, ix);
    LevelOneLeft(m, mid, root, ix, leaf);
    LeafFrame(mid, n, root, ix);
    assert Leaf(mid, root, ix) == leaf;
    LiveOne(m, root, ix);
    forall j: nat | j < ENTRIES && IsTable(Entry(m, one, j)) && Entry(m, one, j).pfn != leaf
      ensures RefsOf(n, Entry(m, one, j).pfn) > RefsOf(m, Entry(m, one, j).pfn)
    {
      NamesFrom(m, one, j);
      NamedLevel(m, one, j, Entry(m, one, j).pfn);
    }
  }

  lemma LiveOne(m: Memory, root: Pfn, ix: Index)
    requires Typed(m) && root in m.pages && Level(m, root) == 0 && Within(ix)
    ensures IsTable(Entry(m, root, ix.i0)) ==> LevelOne(m, root, ix) in m.pages && Level(m, LevelOne(m, root, ix)) == 1
  {
    assert EntryTyped(m, root, Entry(m, root, ix.i0));
  }

  /** Writing to a leaf leaves alone what was left behind. */
  lemma LeftPut(m: Memory, n: Memory, o: Memory, root: Pfn, ix: Index, leaf: Pfn, i: nat, d: Descriptor)
    requires LeftBehind(m, n, root, ix) && leaf in n.pages && i < |n.pages[leaf]| && Level(n, leaf) == 2
             && o == Put(n, leaf, i, d)
    ensures LeftBehind(m, o, root, ix)
  {
    hide Put, Level, Entry, RefsOf, IsTable, TableLeft, LevelOne, Leaf;
    PutEntries(n, leaf, i, d);
    forall q, j: nat | q in m.pages && Level(m, q) == 0 && q != root ensures Entry(o, q, j) == Entry(m, q, j) {
      assert Level(n, q) == Level(m, q);
    }
    var one, below := LevelOne(m, root, ix), Leaf(m, root, ix);
    if TableLeft(m, n, one, below) { TablePut(m, n, o, one, below, leaf, i, d); }
  }

  lemma TablePut(m: Memory, n: Memory, o: Memory, one: Pfn, below: Pfn, leaf: Pfn, i: nat, d: Descriptor)
    requires TableLeft(m, n, one, below) && leaf in n.pages && i < |n.pages[leaf]| && Level(n, leaf) == 2
             && o == Put(n, leaf, i, d)
    ensures TableLeft(m, o, one, below)
  {
    hide Put, Level, Entry, RefsOf, IsTable;
    PutEntries(n, leaf, i, d);
  }

  lemma LevelOneDetachedBy(m: Memory, n: Memory, root: Pfn, ix: Index, copy: Pfn)
    requires DetachStep(m, n, root, ix.i0, LevelOne(m, root, ix), copy, TableDescriptor(copy))
    ensures LevelOneDetached(m, n, root, ix)
  {
    hide DetachStep, TableDescriptor;
  }

  /** Whoever makes a path private leaves behind what it shared. */
  lemma MadePrivateLeaves(m: Memory, n: Memory, root: Pfn, ix: Index)
    requires Shape(m) && Typed(m) && root in m.pages && Level(m, root) == 0 && Within(ix)
    requires MadePrivate(m, n, root, ix) && PrivateSoFar(n, root, ix)
    ensures LeftBehind(m, n, root, ix)
  {
    hide Level, Typed, LevelOneDetached, LeafDetached, Shape;
    var mid :| MadePrivateBy(m, mid, n, root, ix);
    LiveOne(m, root, ix);
    if mid == m {
      if n != m { LeafFrame(m, n, root, ix); }
    } else if n == mid {
      LevelOneLeft(m, n, root, ix, Leaf(m, root, ix));
    } else {
      LeftThenLeaf(m, mid, n, root, ix);
    }
  }

  lemma InvFrom(m: Memory, spaces: seq<Space>)
    requires Core(m, spaces) && Lists(m, spaces)
    ensures Inv(m, spaces)
  {}
}

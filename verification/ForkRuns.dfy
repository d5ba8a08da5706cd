/** A run that shows what sharing costs: after a fork, an operation of the
    parent can leave the child with pages it cannot work on any more. */
module ForkRuns {
  import opened AddressSpaces
  import opened Cloning
  import opened Descriptors
  import opened Options
  import opened TableBackend
  import opened TableMemory
  import opened TableSteps
  import opened Transactions
  import opened TranslationCache
  import opened VirtualAddress

  /** A row that names `p` at one place only. */
  lemma CountOnce(t: seq<Descriptor>, i: nat, p: Pfn)
    requires i < |t| && IsTable(t[i]) && t[i].pfn == p && forall j :: 0 <= j < |t| && j != i && IsTable(t[j]) ==>
             t[j].pfn != p
    ensures Count(t, p) == 1
  {
    CountUpdate(t, i, ZERO, p);
    CountNone(t[i := ZERO], p);
  }

  lemma ListedPair(a: Space, b: Space, p: Pfn)
    ensures Listed([a], p) == Occurrences(a.pfns, p)
            && Listed([a, b], p) == Occurrences(a.pfns, p) + Occurrences(b.pfns, p)
  {
    assert [a, b][..1] == [a] && [a][..0] == [];
  }

  /** A page a space sees has a leaf. */
  lemma SeenReaches(m: Memory, spaces: seq<Space>, k: nat, vaddr: nat)
    requires Inv(m, spaces) && k < |spaces| && UserRangeValid(vaddr, PAGE_SIZE)
    ensures vaddr < 0x80_0000_0000 && Within(IndexOf(vaddr)) && IndexOf(vaddr).i0 == 0
    ensures View(m, spaces[k].root, IndexOf(vaddr)) != ZERO ==> Reaches(m, spaces[k].root, IndexOf(vaddr))
  {
    hide Lists;
    UserPageIndex(vaddr);
    hide IndexOf, UserRangeValid;
    InvParts(m, spaces, k);
    NotBlocked(m, spaces, k, IndexOf(vaddr));
    assert EntryTyped(m, spaces[k].root, Entry(m, spaces[k].root, 0));
  }

  /** What a fork does to the references of the parent's level-one table and of
      a private leaf below it. */
  lemma ForkShares(m: Memory, n: Memory, parent: Space, child: Space, ix: Index)
    requires Inv(m, [parent]) && Inv(n, [parent, child]) && Within(ix) && PrivatePath(m, parent.root, ix)
    requires parent.root in m.pages && child.root !in m.pages
             && child.pfns == [child.root] + Targets(m.pages[parent.root])
    requires n.pages == m.pages[child.root := m.pages[parent.root]]
    ensures var one, leaf := LevelOne(m, parent.root, ix), Leaf(m, parent.root, ix);
            && LevelOne(n, parent.root, ix) == one == LevelOne(n, child.root, ix) && Reaches(n, parent.root, ix)
              && Reaches(n, child.root, ix)
            && Leaf(n, parent.root, ix) == leaf == Leaf(n, child.root, ix) && RefsOf(n, one) == 2
              && RefsOf(n, leaf) == 1 && leaf !in child.pfns
  {
    hide Core, Lists, Typed, Shape, Level, RefsOf, Occurrences, Listed, Targets;
    var one, leaf := LevelOne(m, parent.root, ix), Leaf(m, parent.root, ix);
    InvParts(m, [parent], 0);
    InvParts(n, [parent, child], 0);
    WalkTyped(m, parent.root, ix);
    ShapeAt(m, one);
    ShapeAt(m, leaf);
    assert one != child.root && leaf != child.root && parent.root != child.root;
    ChildList(m, parent, child, ix.i0);
    NotListed(m, parent, child, ix);
    ForkCount(m, n, parent, child, one);
    ForkCount(m, n, parent, child, leaf);
  }

  lemma ForkCount(m: Memory, n: Memory, parent: Space, child: Space, p: Pfn)
    requires Inv(m, [parent]) && Inv(n, [parent, child])
    ensures RefsOf(n, p) == RefsOf(m, p) + Occurrences(child.pfns, p)
  {
    hide Core, OwnsLevelOne, Occurrences, Listed;
    ListedPair(parent, child, p);
    assert RefsOf(m, p) == Listed([parent], p) && RefsOf(n, p) == Listed([parent, child], p);
  }

  /** The child lists the parent's level-one table once. */
  lemma ChildList(m: Memory, parent: Space, child: Space, i: nat)
    requires Inv(m, [parent]) && i < ENTRIES && IsTable(Entry(m, parent.root, i)) && parent.root in m.pages
    requires child.root !in m.pages && child.pfns == [child.root] + Targets(m.pages[parent.root])
    ensures Occurrences(child.pfns, Entry(m, parent.root, i).pfn) == 1
  {
    hide Targets;
    var row, p := m.pages[parent.root], Entry(m, parent.root, i).pfn;
    InvParts(m, [parent], 0);
    assert EntryTyped(m, parent.root, Entry(m, parent.root, i));
    OccurrencesAppend([child.root], Targets(row), p);
    OccurrencesOfTargets(row, p);
    forall j | 0 <= j < |row| && j != i && IsTable(row[j]) ensures row[j].pfn != p {
      assert row[j] == Entry(m, parent.root, j) && row[i] == Entry(m, parent.root, i);
    }
    CountOnce(row, i, p);
    assert Occurrences([child.root], p) == 0;
  }

  /** It lists no leaf. */
  lemma NotListed(m: Memory, parent: Space, child: Space, ix: Index)
    requires Inv(m, [parent]) && Within(ix) && Reaches(m, parent.root, ix) && parent.root in m.pages
    requires child.root !in m.pages && child.pfns == [child.root] + Targets(m.pages[parent.root])
    ensures Leaf(m, parent.root, ix) !in child.pfns && Occurrences(child.pfns, Leaf(m, parent.root, ix)) == 0
  {
    hide Targets, Core, Lists, Level, Typed, Shape;
    var row, leaf := m.pages[parent.root], Leaf(m, parent.root, ix);
    InvParts(m, [parent], 0);
    WalkTyped(m, parent.root, ix);
    if leaf in Targets(row) {
      TargetsMembers(row, leaf);
      var j :| 0 <= j < |row| && IsTable(row[j]) && row[j].pfn == leaf;
      WalkTyped(m, parent.root, Index(j, 0, 0));
    }
    OccurrencesPositive(child.pfns, leaf);
  }

  /** Two pages with different leaf slots have different leaves, if one is private. */
  lemma LeavesApart(m: Memory, spaces: seq<Space>, root: Pfn, ix: Index, jx: Index)
    requires Core(m, spaces) && root in m.pages && Level(m, root) == 0 && Within(ix) && Within(jx)
    requires ix.i0 == jx.i0 && ix.i1 != jx.i1 && Reaches(m, root, ix) && Reaches(m, root, jx)
             && RefsOf(m, Leaf(m, root, jx)) == 1
    ensures Leaf(m, root, ix) != Leaf(m, root, jx)
  {
    hide Pointers, RootCount;
    WalkTyped(m, root, ix);
    var one, leaf := LevelOne(m, root, ix), Leaf(m, root, jx);
    assert RefsOf(m, leaf) == Pointers(m, leaf) + RootCount(spaces, leaf);
    if Leaf(m, root, ix) == leaf { OnePointer(m, one, ix.i1, one, jx.i1, leaf); }
  }

  /** Parent and child share the level-one table below which both see `ix` and
      `jx`, at different leaves, and the child does not list the one at `jx`. */
  ghost predicate ShareBelow(m: Memory, parent: Space, child: Space, ix: Index, jx: Index) {
    && Within(ix) && Within(jx) && ix.i0 == jx.i0 && ix.i1 != jx.i1
    && Reaches(m, parent.root, ix) && Reaches(m, child.root, jx)
      && LevelOne(m, parent.root, ix) == LevelOne(m, child.root, jx)
    && RefsOf(m, LevelOne(m, parent.root, ix)) == 2 && RefsOf(m, Leaf(m, child.root, jx)) == 1
      && Leaf(m, child.root, jx) !in child.pfns
  }

  /** The parent made its path to `ix` private; what it shared with the child at
      `jx`, under another leaf, is now stuck for the child. */
  lemma LeftStuck(m: Memory, n: Memory, parent: Space, child: Space, ix: Index, jx: Index)
    requires Inv(m, [parent, child]) && ShareBelow(m, parent, child, ix, jx) && LeftBehind(m, n, parent.root, ix)
    ensures Stuck(n, child, jx)
  {
    hide Lists, RefsOf, Level;
    InvParts(m, [parent, child], 0);
    InvParts(m, [parent, child], 1);
    assert parent.root != child.root by { DistinctRoots(m, parent, child); }
    LeavesApart(m, [parent, child], parent.root, ix, jx);
    assert TableLeft(m, n, LevelOne(m, parent.root, ix), Leaf(m, parent.root, ix));
  }

  lemma SameTop(m: Memory, root: Pfn, ix: Index, jx: Index)
    requires ix.i0 == jx.i0
    ensures LevelOne(m, root, ix) == LevelOne(m, root, jx)
  {}

  lemma DistinctRoots(m: Memory, parent: Space, child: Space)
    requires Inv(m, [parent, child])
    ensures parent.root != child.root
  {
    var spaces := [parent, child];
    assert spaces[0].root != spaces[1].root;
  }

  lemma PageIsTable(pfn: Pfn, protection: Protection)
    ensures IsTable(PageFor(pfn, protection))
  {}

  /** A space alone that shares nothing maps a page below any leaf, unless memory
      runs out. */
  lemma FreeToMap(m: Memory, s: Space, vaddr: nat, pfn: Pfn, error: Error)
    requires UserRangeValid(vaddr, PAGE_SIZE) && vaddr < 0x80_0000_0000 && MapRefused(error, m, s, vaddr, pfn)
    requires View(m, s.root, IndexOf(vaddr)) == ZERO && PrivateSoFar(m, s.root, IndexOf(vaddr)) && Addressable(pfn)
    ensures error == OutOfMemory
  {
    hide View, Stuck, PrivateSoFar, UserRangeValid, TableIndices, Addressable;
    NotStuck(m, s, IndexOf(vaddr));
  }

  lemma AloneKeeps(m: Memory, n: Memory, spaces: seq<Space>, vaddr: nat)
    requires |spaces| == 1 && AllKeepPrivate(m, n, spaces) && UserRangeValid(vaddr, PAGE_SIZE)
    ensures vaddr < 0x80_0000_0000
    ensures PrivateSoFar(m, spaces[0].root, IndexOf(vaddr)) ==> PrivateSoFar(n, spaces[0].root, IndexOf(vaddr))
  {
    hide PrivateSoFar, Reaches;
    UserPageIndex(vaddr);
    assert KeepsPrivate(m, n, spaces[0].root);
  }

  /** A space maps two pages and is forked. With fourteen frames in stock and
      frames a descriptor can name it always gets there. */
  method MapTwoAndFork(backend: Backend, v: nat, w: nat, frameV: Pfn, frameW: Pfn, protection: Protection)
    returns (parent: AddressSpace?, child: AddressSpace?)
    requires Inv(backend.Mem(), []) && UserRangeValid(v, PAGE_SIZE) && UserRangeValid(w, PAGE_SIZE)
    requires v < 0x80_0000_0000 && w < 0x80_0000_0000 && IndexOf(v).i1 != IndexOf(w).i1
    modifies backend
    ensures child != null ==>
              && parent != null && fresh(parent) && fresh(child) && parent != child
                && parent.backend == child.backend == backend
              && Inv(backend.Mem(), [parent.Value(), child.Value()]) && parent.Coherent() && child.Coherent()
              && ShareBelow(backend.Mem(), parent.Value(), child.Value(), IndexOf(v), IndexOf(w))
              && View(backend.Mem(), child.rootPfn, IndexOf(w)) == PageFor(frameW, protection)
              && View(backend.Mem(), parent.rootPfn, IndexOf(v)) == PageFor(frameV, protection)
    ensures backend.Spent(old(backend.Stock()), 14)
    ensures child == null && Addressable(frameV) && Addressable(frameW) ==> backend.Starved(old(backend.Stock()), 14)
  {
    hide Inv, View, Reaches, Leaf, LevelOne, RefsOf, UserRangeValid, TableIndices, SameViews, Agrees, PrivatePath,
      UserPage, MapAllowed, MapRefused, Targets, Add, SameView, StockOf, Addressable, AllKeepPrivate, PrivateSoFar,
      KeepsPrivate;
    ghost var empty := backend.Mem();
    child := null;
    var error;
    error, parent := AddressSpace.Create(backend, []);
    if error.Some? {
      return;
    }
    ghost var alone, start := [parent.Value()], backend.Mem();
    assert [] + alone == alone;
    UserPageIndex(v);
    UserPageIndex(w);
    FreshPrivate(empty, parent.rootPfn, v);
    FreshPrivate(empty, parent.rootPfn, w);
    var first := parent.MapUserPage(v, frameV, protection.readable, protection.writable, protection.executable, alone,
      0);
    if first.Err? {
      if Addressable(frameV) { FreeToMap(start, alone[0], v, frameV, first.error); }
      return;
    }
    AloneKeeps(start, backend.Mem(), alone, w);
    OtherZero(start, backend.Mem(), alone, v, w, UserPage(frameV, protection.readable, protection.writable,
      protection.executable));
    assert alone[0 := parent.Value()] == [parent.Value()];
    alone := [parent.Value()];
    ghost var half := backend.Mem();
    UserPageNonzero(frameV, protection.readable, protection.writable, protection.executable);
    assert View(half, parent.rootPfn, IndexOf(v)) != ZERO;
    var second := parent.MapUserPage(w, frameW, protection.readable, protection.writable, protection.executable, alone,
      0);
    if second.Err? {
      if Addressable(frameW) { FreeToMap(half, alone[0], w, frameW, second.error); }
      return;
    }
    assert alone[0 := parent.Value()] == [parent.Value()];
    ghost var before, mapped := [parent.Value()], backend.Mem();
    StillSeen(half, mapped, alone, v, w, frameV, frameW, protection);
    var failure;
    failure, child := NewForFork(parent, before, 0);
    if failure.Some? {
      return;
    }
    ghost var m, both := backend.Mem(), [parent.Value(), child.Value()];
    assert before + [child.Value()] == both;
    SameViewsFrom(mapped, m, before, 0);
    SameAgrees(parent.cache, mapped, m, parent.rootPfn);
    AfterFork(mapped, m, parent.Value(), child.Value(), v, w);
    PageForIs(frameW, protection);
    PageForIs(frameV, protection);
    SeesStill(mapped, m, parent.rootPfn, IndexOf(v));
  }

  lemma FreshPrivate(m: Memory, root: Pfn, vaddr: nat)
    requires Inv(m, []) && root !in m.pages && UserRangeValid(vaddr, PAGE_SIZE)
    ensures vaddr < 0x80_0000_0000 && PrivateSoFar(Add(m, root, 0, ZeroTable()), root, IndexOf(vaddr))
  {
    hide Core, Lists, PrivateSoFar, Add;
    UserPageIndex(vaddr);
    AllKeepAdd(m, [], root, 0);
  }

  lemma OtherZero(m: Memory, n: Memory, spaces: seq<Space>, v: nat, w: nat, d: Descriptor)
    requires |spaces| == 1 && v < 0x80_0000_0000 && w < 0x80_0000_0000 && Within(IndexOf(w)) && IndexOf(v) != IndexOf(w)
    requires OnlyViewSet(m, n, spaces, 0, IndexOf(v), d) && View(m, spaces[0].root, IndexOf(w)) == ZERO
    ensures View(n, spaces[0].root, IndexOf(w)) == ZERO
  {
    hide View, IndexOf;
  }

  lemma SeesStill(m: Memory, n: Memory, root: Pfn, ix: Index)
    requires SameView(m, n, root) && Within(ix)
    ensures View(n, root, ix) == View(m, root, ix)
  {
    hide View;
  }

  lemma StillSeen(half: Memory, mapped: Memory, spaces: seq<Space>, v: nat, w: nat, frameV: Pfn, frameW: Pfn,
                  protection: Protection)
    requires |spaces| == 1 && v < 0x80_0000_0000 && w < 0x80_0000_0000 && Within(IndexOf(v)) && IndexOf(v) != IndexOf(w)
    requires OnlyViewSet(half, mapped, spaces, 0, IndexOf(w),
             UserPage(frameW, protection.readable, protection.writable, protection.executable))
    requires View(half, spaces[0].root, IndexOf(v)) != ZERO
    ensures View(mapped, spaces[0].root, IndexOf(v)) == View(half, spaces[0].root, IndexOf(v)) != ZERO
  {
    hide View, UserPage, IndexOf;
  }

  lemma AfterFork(mapped: Memory, m: Memory, parent: Space, child: Space, v: nat, w: nat)
    requires UserRangeValid(v, PAGE_SIZE) && UserRangeValid(w, PAGE_SIZE) && v < 0x80_0000_0000 && w < 0x80_0000_0000
    requires IndexOf(v).i1 != IndexOf(w).i1 && PrivatePath(mapped, parent.root, IndexOf(w))
    requires Inv(mapped, [parent]) && Inv(m, [parent, child]) && SameView(mapped, m, parent.root)
    requires parent.root in mapped.pages && child.root !in mapped.pages
             && child.pfns == [child.root] + Targets(mapped.pages[parent.root])
    requires m.pages == mapped.pages[child.root := mapped.pages[parent.root]]
             && View(mapped, parent.root, IndexOf(v)) != ZERO
    ensures ShareBelow(m, parent, child, IndexOf(v), IndexOf(w))
  {
    hide Inv, View, Reaches, Leaf, LevelOne, RefsOf, UserRangeValid, TableIndices, PrivatePath, Targets;
    UserPageIndex(v);
    UserPageIndex(w);
    ForkShares(mapped, m, parent, child, IndexOf(w));
    SeenReaches(m, [parent, child], 0, v);
    SameTop(m, parent.root, IndexOf(v), IndexOf(w));
  }

  /** A space maps two pages below different leaves and is forked; then it
      changes the protection of the first. Then its child can no longer change
      the protection of the second. With memory for all of it, and frames a
      descriptor can name, the run always gets there, and the answer is
      InvalidAddress. */
  method ForkThenProtect(backend: Backend, v: nat, w: nat, frameV: Pfn, frameW: Pfn, protection: Protection)
    returns (ready: bool, answer: Result<()>)
    requires Inv(backend.Mem(), []) && UserRangeValid(v, PAGE_SIZE) && UserRangeValid(w, PAGE_SIZE)
    requires v < 0x80_0000_0000 && w < 0x80_0000_0000 && IndexOf(v).i1 != IndexOf(w).i1
    modifies backend
    ensures ready ==> answer.Err? && answer.error in {OutOfMemory, InvalidAddress}
    ensures backend.roomy && old(backend.Stock()) >= 18 && Addressable(frameV) && Addressable(frameW) ==>
              ready && answer == Err(InvalidAddress)
  {
    hide Inv, View, Stuck, LeftBehind, ShareBelow, UserRangeValid, TableIndices, SameViews, Agrees, UserPage, SameView,
      IsTable, StockOf, Addressable, AllKeepPrivate, PrivateSoFar;
    ready, answer := false, Ok(());
    var parent, child := MapTwoAndFork(backend, v, w, frameV, frameW, protection);
    if child == null {
      return;
    }
    ghost var m, both := backend.Mem(), [parent.Value(), child.Value()];
    UserPageIndex(v);
    UserPageIndex(w);
    SharedNotStuck(m, both[0], both[1], IndexOf(v), IndexOf(w));
    PageIsTable(frameV, protection);
    var changed := parent.ProtectUserPage(v, true, false, false, both, 0);
    if changed.Err? {
      return;
    }
    assert both[0 := parent.Value()] == [parent.Value(), child.Value()];
    LeftStuck(m, backend.Mem(), both[0], both[1], IndexOf(v), IndexOf(w));
    OtherSame(m, backend.Mem(), both, IndexOf(v), IndexOf(w));
    SameAgrees(child.cache, m, backend.Mem(), child.rootPfn);
    PageIsTable(frameW, protection);
    ready := true;
    answer := child.ProtectUserPage(w, true, false, false, [parent.Value(), child.Value()], 1);
  }

  /** A shared level-one table is in nobody's way. */
  lemma SharedNotStuck(m: Memory, parent: Space, child: Space, ix: Index, jx: Index)
    requires ShareBelow(m, parent, child, ix, jx)
    ensures !Stuck(m, parent, ix)
  {}

  lemma OtherSame(m: Memory, n: Memory, both: seq<Space>, ix: Index, jx: Index)
    requires |both| == 2 && Within(jx) && exists d :: OnlyViewSet(m, n, both, 0, ix, d)
    ensures SameView(m, n, both[1].root) && View(n, both[1].root, jx) == View(m, both[1].root, jx)
  {
    hide View, ViewSet;
    var d :| OnlyViewSet(m, n, both, 0, ix, d);
    assert SameView(m, n, both[1].root);
  }

  /** The page itself is not lost: making the path to it private takes the
      reference back that the detach of the level-one table added to its leaf. */
  lemma SamePageFree(m: Memory, n: Memory, parent: Space, child: Space, ix: Index)
    requires Inv(m, [parent, child]) && Within(ix) && Reaches(m, parent.root, ix)
             && RefsOf(m, LevelOne(m, parent.root, ix)) > 1
    requires RefsOf(m, Leaf(m, parent.root, ix)) == 1 && MadePrivate(m, n, parent.root, ix)
             && PrivateSoFar(n, parent.root, ix)
    requires LevelOne(n, child.root, ix) == LevelOne(m, parent.root, ix)
    ensures RefsOf(n, Leaf(m, parent.root, ix)) <= 1 && !Stuck(n, child, ix)
  {
    hide Inv, Level, Typed, Shape, Row, Pointers, TableDescriptor;
    var root, one, leaf := parent.root, LevelOne(m, parent.root, ix), Leaf(m, parent.root, ix);
    InvParts(m, [parent, child], 0);
    WalkTyped(m, root, ix);
    RowOnce(m, [parent, child], one, leaf);
    RowNames(m, one, ix.i1);
    var mid :| MadePrivateBy(m, mid, n, root, ix);
    if mid == m { LeafNeedsShared(m, n, root, ix); }
    LevelOneCounts(m, mid, root, ix);
    LevelOneLeft(m, mid, root, ix, leaf);
    LeafGivesBack(mid, n, root, ix);
    LeafFrame(mid, n, root, ix);
  }

  lemma RowOnce(m: Memory, spaces: seq<Space>, q: Pfn, p: Pfn)
    requires Inv(m, spaces) && q in m.pages && RefsOf(m, p) == 1
    ensures Row(m, q, p) <= 1
  {
    hide Lists, RootCount;
    PickRow(m, m.pages.Keys, q, p);
    assert RefsOf(m, p) == Pointers(m, p) + RootCount(spaces, p);
  }

  /** A leaf is detached only if it is shared. */
  lemma LeafNeedsShared(m: Memory, n: Memory, root: Pfn, ix: Index)
    requires LeafDetached(m, n, root, ix)
    ensures RefsOf(m, Leaf(m, root, ix)) > 1
  {
    hide Entry, Level, Pointers, Row, TableDescriptor, FitsFrame;
  }

  lemma LevelOneCounts(m: Memory, n: Memory, root: Pfn, ix: Index)
    requires Shape(m) && Typed(m) && root in m.pages && Level(m, root) == 0 && Within(ix) && Reaches(m, root, ix)
             && LevelOneDetached(m, n, root, ix)
    ensures RefsOf(n, Leaf(m, root, ix))
            == RefsOf(m, Leaf(m, root, ix)) + Row(m, LevelOne(m, root, ix), Leaf(m, root, ix))
    ensures Leaf(n, root, ix) == Leaf(m, root, ix)
  {
    hide Entry, Level, Pointers, Row, TableDescriptor, FitsFrame, Typed, Shape;
    LevelOneLeft(m, n, root, ix, Leaf(m, root, ix));
    WalkTyped(m, root, ix);
  }

  lemma LeafGivesBack(m: Memory, n: Memory, root: Pfn, ix: Index)
    requires Typed(m) && root in m.pages && Level(m, root) == 0 && Within(ix) && IsTable(Entry(m, root, ix.i0))
             && LeafDetached(m, n, root, ix)
    ensures RefsOf(n, Leaf(m, root, ix)) + 1 == RefsOf(m, Leaf(m, root, ix))
  {
    hide Entry, Level, Pointers, Row, TableDescriptor, FitsFrame, Typed;
    LeafFrame(m, n, root, ix);
    LeafRowZero(m, Leaf(m, root, ix), Leaf(m, root, ix));
  }
}

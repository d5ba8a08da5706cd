/** Shared clones: a fresh space takes over its parent's root entries and a
    reference to each level-one table they name. */
module Cloning {
  import opened Descriptors
  import opened Dropping
  import opened Options
  import opened TableMemory
  import opened TableSteps
  import opened TableBackend
  import opened Transactions
  import opened VirtualAddress
  import opened AddressSpaces
  import opened TranslationCache

  /** The first `i` entries of `t`, the rest empty. */
  ghost function Upto(t: seq<Descriptor>, i: nat): seq<Descriptor>
    requires i <= |t|
  {
    t[..i] + seq(|t| - i, _ => ZERO)
  }

  ghost function WithRow(m: Memory, q: Pfn, t: seq<Descriptor>): Memory {
    m.(pages := m.pages[q := t])
  }

  lemma UptoNext(t: seq<Descriptor>, i: nat)
    requires i < |t|
    ensures t[i] == ZERO ==> Upto(t, i + 1) == Upto(t, i)
    ensures Upto(t, i + 1) == Upto(t, i)[i := t[i]] && |Upto(t, i)| == |t|
  {}

  lemma UptoNone(m: Memory, q: Pfn, t: seq<Descriptor>)
    requires q in m.pages && |t| == |m.pages[q]| && forall j: nat :: Entry(m, q, j) == ZERO
    ensures WithRow(m, q, Upto(t, 0)) == m
  {
    assert forall j :: 0 <= j < |t| ==> m.pages[q][j] == Entry(m, q, j);
    assert Upto(t, 0) == m.pages[q];
    assert m.pages[q := Upto(t, 0)] == m.pages;
  }

  lemma UptoAll(t: seq<Descriptor>)
    ensures Upto(t, |t|) == t
  {}

  /** Writing the next entry moves the row of a memory with references held. */
  lemma RetainedPut(m: Memory, held: Memory, q: Pfn, t: seq<Descriptor>, i: nat, extra: seq<Pfn>)
    requires q in m.pages && i < |t| == ENTRIES && Retained(WithRow(m, q, Upto(t, i)), held, extra)
    ensures q in held.pages && |held.pages[q]| == ENTRIES
    ensures Retained(WithRow(m, q, Upto(t, i + 1)), Put(held, q, i, t[i]), extra)
  {
    UptoNext(t, i);
    assert held.pages[q] == Upto(t, i);
    assert Put(held, q, i, t[i]).pages == m.pages[q := Upto(t, i + 1)];
  }

  lemma WithRowRefs(m: Memory, q: Pfn, t: seq<Descriptor>)
    ensures WithRow(m, q, t).refs == m.refs && WithRow(m, q, t).level == m.level
    ensures forall r :: r != q && r in m.pages ==>
            r in WithRow(m, q, t).pages && WithRow(m, q, t).pages[r] == m.pages[r]
  {}

  lemma ForkedRefs(m: Memory, n: Memory, parent: Pfn, child: Pfn, p: Pfn)
    requires parent in m.pages && Level(m, parent) == 0 && (p in Targets(m.pages[parent]) ==> p in m.refs)
    requires Retained(WithRow(m, child, m.pages[parent]), n, Targets(m.pages[parent]))
    ensures RefsOf(n, p) == RefsOf(m, p) + Row(m, parent, p)
  {
    OccurrencesOfTargets(m.pages[parent], p);
    OccurrencesPositive(Targets(m.pages[parent]), p);
  }

  lemma ForkedShape(m: Memory, n: Memory, parent: Pfn, child: Pfn)
    requires Shape(m) && parent in m.pages && child in m.pages
    requires Retained(WithRow(m, child, m.pages[parent]), n, Targets(m.pages[parent]))
    ensures Shape(n) && n.pages.Keys == m.pages.Keys && n.pages == m.pages[child := m.pages[parent]]
            && n.level == m.level
    ensures forall r :: r in n.pages <==> r in m.pages
    ensures forall r :: Level(n, r) == Level(m, r)
  {
    hide Targets, Occurrences;
    assert n.pages.Keys == m.pages.Keys;
  }

  /** The clone is complete: every pointer in the parent's root is counted twice. */
  lemma ForkedStep(m: Memory, n: Memory, parent: Pfn, child: Pfn)
    requires Shape(m) && parent in m.pages && child in m.pages && parent != child && Level(m, parent) == 0
             && Level(m, child) == 0
    requires forall j: nat :: Entry(m, child, j) == ZERO
    requires Retained(WithRow(m, child, m.pages[parent]), n, Targets(m.pages[parent]))
    requires forall p :: p in Targets(m.pages[parent]) ==> p in m.refs
    ensures ForkStep(m, n, parent, child) && Shape(n)
  {
    hide Shape, Retained, Pointers, Row, Targets, RefsOf, WithRow, Level;
    ForkedShape(m, n, parent, child);
    forall p ensures Pointers(n, p) == Pointers(m, p) + Row(m, parent, p) { ForkPointers(m, n, parent, child, p); }
    forall p ensures RefsOf(n, p) == RefsOf(m, p) + Row(m, parent, p) { ForkedRefs(m, n, parent, child, p); }
    assert forall r, j: nat :: Entry(n, r, j) == Entry(m, if r == child then parent else r, j);
  }

  /** Gives back the references taken since the list had `originalLen` tables. */
  method RollbackSharedTables(child: AddressSpace, originalLen: nat, ghost base: Memory)
    requires originalLen <= |child.tablePfns| && Retained(base, child.backend.Mem(), child.tablePfns[originalLen..])
    requires forall p :: p in base.refs ==> base.refs[p] > 0
    requires forall p :: p in child.tablePfns[originalLen..] ==> p in base.refs
    modifies child`tablePfns, child.backend`pages, child.backend`refs, child.backend`level
    ensures child.backend.Mem() == base && child.tablePfns == old(child.tablePfns)[..originalLen]
  {
    hide Retained, Release;
    while |child.tablePfns| > originalLen
      invariant originalLen <= |child.tablePfns| <= |old(child.tablePfns)|
      invariant child.tablePfns == old(child.tablePfns)[..|child.tablePfns|]
      invariant Retained(base, child.backend.Mem(), child.tablePfns[originalLen..])
    {
      ghost var extra := child.tablePfns[originalLen..];
      var pfn := child.tablePfns[|child.tablePfns| - 1];
      assert extra[|extra| - 1] == pfn && pfn in old(child.tablePfns)[originalLen..];
      RetainedPop(base, child.backend.Mem(), extra);
      child.tablePfns := child.tablePfns[..|child.tablePfns| - 1];
      assert child.tablePfns[originalLen..] == extra[..|extra| - 1];
      child.backend.ReleaseTable(pfn);
    }
    assert child.tablePfns[originalLen..] == [];
    RetainedNone(base, child.backend.Mem());
  }

  /** The loop over the root entries. A failure stops before entry `done`, with
      the references of the entries before it still held. */
  method ShareRootEntries(child: AddressSpace, parent: AddressSpace, ghost m: Memory, ghost t: seq<Descriptor>)
    returns (failure: Option<Error>, ghost done: nat)
    requires child.backend == parent.backend && child.rootPfn != parent.rootPfn && m == child.backend.Mem()
    requires Shape(m) && Typed(m) && parent.rootPfn in m.pages && child.rootPfn in m.pages
    requires Level(m, parent.rootPfn) == 0 && t == m.pages[parent.rootPfn]
             && forall j: nat :: Entry(m, child.rootPfn, j) == ZERO
    modifies child`tablePfns, child.backend`pages, child.backend`refs, child.backend`level
    ensures done <= ENTRIES == |t| && child.tablePfns == old(child.tablePfns) + Targets(t[..done])
    ensures Retained(WithRow(m, child.rootPfn, Upto(t, done)), child.backend.Mem(), Targets(t[..done]))
    ensures failure.None? ==> done == ENTRIES
    ensures failure.Some? ==> failure.value == OutOfMemory && done < ENTRIES && IsTable(t[done])
    ensures failure.Some? ==> !child.backend.roomy
  {
    hide Typed, IsTable, Targets, Retained, Retain, Release, Shape, Level, Entry, WithRow, Put, Upto;
    ghost var q := child.rootPfn;
    ShapeAt(m, parent.rootPfn);
    ShapeAt(m, child.rootPfn);
    UptoNone(m, q, t);
    RetainedNone(m, m);
    assert t[..0] == [];
    TargetsEmpty();
    assert child.tablePfns == child.tablePfns + [];
    var rootIndex := 0;
    while rootIndex < ENTRIES
      invariant 0 <= rootIndex <= ENTRIES
      invariant child.tablePfns == old(child.tablePfns) + Targets(t[..rootIndex])
      invariant Retained(WithRow(m, q, Upto(t, rootIndex)), child.backend.Mem(), Targets(t[..rootIndex]))
    {
      ghost var row := WithRow(m, q, Upto(t, rootIndex));
      WithRowRefs(m, q, Upto(t, rootIndex));
      RetainedPages(row, child.backend.Mem(), Targets(t[..rootIndex]));
      TargetsPrefix(t, rootIndex);
      UptoNext(t, rootIndex);
      var descriptor := child.backend.ReadTableEntry(parent.rootPfn, rootIndex);
      if descriptor == ZERO {
        ZeroIsNoTable();
      } else if !IsTable(descriptor) {
        RetainedPut(m, child.backend.Mem(), q, t, rootIndex, Targets(t[..rootIndex]));
        var written := child.backend.WriteTableEntry(child.rootPfn, rootIndex, descriptor);
      } else {
        var sourceChild := descriptor.pfn;
        TargetsLive(m, parent.rootPfn, rootIndex);
        ShapeAt(m, sourceChild);
        ghost var held := child.backend.Mem();
        RefsAt(m, row, sourceChild);
        RetainedPush(row, held, Targets(t[..rootIndex]), sourceChild);
        var retained := child.backend.RetainTable(sourceChild);
        var reserved := child.backend.TryReserve();
        if !reserved {
          RetainRelease(held, sourceChild);
          RefsPresent(row, child.backend.Mem(), Targets(t[..rootIndex]) + [sourceChild], sourceChild);
          child.backend.ReleaseTable(sourceChild);
          return Some(OutOfMemory), rootIndex;
        }
        child.tablePfns := child.tablePfns + [sourceChild];
        RetainedPut(m, child.backend.Mem(), q, t, rootIndex, Targets(t[..rootIndex + 1]));
        var written := child.backend.WriteTableEntry(child.rootPfn, rootIndex, descriptor);
      }
      rootIndex := rootIndex + 1;
    }
    return None, ENTRIES;
  }

  lemma ZeroIsNoTable()
    ensures !IsTable(ZERO)
  {}

  lemma RefsAt(m: Memory, row: Memory, p: Pfn)
    requires row.refs == m.refs && p in m.refs && RefsOf(m, p) > 0
    ensures p in row.refs && row.refs[p] > 0
  {}

  lemma RefsPresent(base: Memory, m: Memory, extra: seq<Pfn>, p: Pfn)
    requires Retained(base, m, extra) && p in base.refs
    ensures p in m.refs
  {}

  /** The live spaces, two of which are the parent and a child that maps nothing. */
  ghost predicate Forkable(m: Memory, spaces: seq<Space>, k: nat, c: nat, parent: Space, child: Space) {
    && Inv(m, spaces) && k < |spaces| && c < |spaces| && k != c && spaces[k] == parent && spaces[c] == child
    && forall j: nat :: Entry(m, child.root, j) == ZERO
  }

  /** Makes a fresh child see what its parent sees. On failure the references
      are given back, but the first `done` root entries stay written. */
  method CloneSharedMappingsFrom(child: AddressSpace, parent: AddressSpace, ghost spaces: seq<Space>, ghost k: nat,
                                 ghost c: nat)
    returns (r: Result<()>, ghost done: nat)
    requires child.backend == parent.backend && child != parent && parent.Coherent()
    requires Forkable(child.backend.Mem(), spaces, k, c, parent.Value(), child.Value())
    modifies child`tablePfns, child`cache, child.backend`pages, child.backend`refs, child.backend`level
    ensures r.Ok? ==>
            child.Live(spaces[c := child.Value()], c)
            && OthersSame(old(child.backend.Mem()), child.backend.Mem(), spaces, c)
    ensures r.Ok? ==> child.Coherent() && forall ix :: Within(ix) ==>
                View(child.backend.Mem(), child.rootPfn, ix) == View(old(child.backend.Mem()), parent.rootPfn, ix)
    ensures r.Ok? ==> parent.rootPfn in old(child.backend.pages)
    ensures r.Ok? ==> child.tablePfns == old(child.tablePfns) + Targets(old(child.backend.pages)[parent.rootPfn])
    ensures r.Ok? ==>
            child.backend.pages == old(child.backend.pages)[child.rootPfn := old(child.backend.pages)[parent.rootPfn]]
    ensures r.Ok? ==> ForkStep(old(child.backend.Mem()), child.backend.Mem(), parent.rootPfn, child.rootPfn)
    ensures r.Err? ==>
            r.error == OutOfMemory && child.tablePfns == old(child.tablePfns) && child.cache == old(child.cache)
    ensures r.Err? ==> !child.backend.roomy
    ensures r.Err? ==>
              && parent.rootPfn in old(child.backend.pages) && done < |old(child.backend.pages)[parent.rootPfn]|
              && child.backend.Mem()
                == WithRow(old(child.backend.Mem()), child.rootPfn,
                Upto(old(child.backend.pages)[parent.rootPfn], done))
  {
    hide Inv, View, Retained, Shape, Typed, OwnsLevelOne, Core, Lists, Targets, ForkStep, Entry, WithRow, Upto,
      Occurrences, Row;
    ghost var m := child.backend.Mem();
    InvParts(m, spaces, k);
    InvParts(m, spaces, c);
    ghost var t := m.pages[parent.rootPfn];
    CoreRoots(m, spaces, k, c);
    var originalLen := |child.tablePfns|;
    var failure;
    failure, done := ShareRootEntries(child, parent, m, t);
    PrefixLive(m, parent.rootPfn, done);
    assert child.tablePfns[originalLen..] == Targets(t[..done]);
    if failure.Some? {
      ghost var base := WithRow(m, child.rootPfn, Upto(t, done));
      WithRowRefs(m, child.rootPfn, Upto(t, done));
      ShapeRefs(m);
      RollbackSharedTables(child, originalLen, base);
      return Err(failure.value), done;
    }
    assert t[..done] == t;
    UptoAll(t);
    ForkedStep(m, child.backend.Mem(), parent.rootPfn, child.rootPfn);
    ForkedShape(m, child.backend.Mem(), parent.rootPfn, child.rootPfn);
    forall p ensures Occurrences(child.tablePfns, p) == Occurrences(spaces[c].pfns, p) + Row(m, parent.rootPfn, p) {
      OccurrencesAppend(old(child.tablePfns), Targets(t), p);
      RowTargets(m, parent.rootPfn, p);
    }
    ForkKeeps(m, child.backend.Mem(), spaces, k, c, child.tablePfns);
    ClonedAgrees(parent.cache, m, child.backend.Mem(), parent.rootPfn, child.rootPfn);
    child.cache := parent.cache;
    r := Ok(());
  }

  lemma ClonedAgrees(cache: Cache, m: Memory, n: Memory, parent: Pfn, child: Pfn)
    requires Agrees(cache, m, parent) && forall ix :: Within(ix) ==> View(n, child, ix) == View(m, parent, ix)
    ensures Agrees(cache, n, child)
  {
    hide View;
  }

  lemma RowTargets(m: Memory, q: Pfn, p: Pfn)
    requires q in m.pages && Level(m, q) == 0
    ensures Occurrences(Targets(m.pages[q]), p) == Row(m, q, p)
  {
    OccurrencesOfTargets(m.pages[q], p);
  }

  lemma CoreRoots(m: Memory, spaces: seq<Space>, k: nat, c: nat)
    requires Inv(m, spaces) && k < |spaces| && c < |spaces| && k != c
    ensures spaces[k].root != spaces[c].root
  {}

  lemma ShapeRefs(m: Memory)
    requires Shape(m)
    ensures forall p :: p in m.refs ==> m.refs[p] > 0
  {}

  /** Releases every table the space lists. The other live spaces stay in order
      exactly when it owned alone the tables that go, and then see what they
      saw; the tables that nobody else lists are gone. */
  method Drop(space: AddressSpace, ghost spaces: seq<Space>, ghost k: nat)
    modifies space`tablePfns, space.backend`pages, space.backend`refs, space.backend`level
    ensures space.tablePfns == [] && space.backend.Mem() == ReleaseAll(old(space.backend.Mem()), old(space.tablePfns))
    ensures old(space.Live(spaces, k)) ==>
              && (Inv(space.backend.Mem(), Without(spaces, k)) <==> old(OwnsAlone(space.backend.Mem(), space.Value())))
              && (old(OwnsAlone(space.backend.Mem(), space.Value())) ==>
                    SameViews(old(space.backend.Mem()), space.backend.Mem(), Without(spaces, k)))
              && (forall p :: p in space.backend.pages <==>
                    p in old(space.backend.pages) && p !in old(Sole(space.backend.Mem(), space.Value())))
  {
    hide Release, Inv, OwnsAlone, SameViews, Without, Sole;
    var pfns := space.tablePfns;
    if space.Live(spaces, k) { DropIff(space.backend.Mem(), spaces, k); }
    space.tablePfns := [];
    var i := 0;
    assert pfns[..0] == [];
    while i < |pfns|
      invariant 0 <= i <= |pfns| && space.tablePfns == []
      invariant space.backend.Mem() == ReleaseAll(old(space.backend.Mem()), pfns[..i])
    {
      assert pfns[..i + 1][..i] == pfns[..i];
      space.backend.ReleaseTable(pfns[i]);
      i := i + 1;
    }
    assert pfns[..i] == pfns;
  }

  lemma AddedEntries(m: Memory, root: Pfn)
    requires root !in m.pages
    ensures forall j: nat :: Entry(Add(m, root, 0, ZeroTable()), root, j) == ZERO
  {}

  lemma AddedPages(m: Memory, root: Pfn, q: Pfn)
    requires root !in m.pages && q in m.pages
    ensures var n := Add(m, root, 0, ZeroTable());
            q in n.pages && n.pages[q] == m.pages[q] && n.pages[root := m.pages[q]] == m.pages[root := m.pages[q]]
  {}

  /** A space is created, fails to clone, and is dropped: nothing happened. */
  lemma DropRestores(m: Memory, root: Pfn, t: seq<Descriptor>)
    requires Shape(m) && root !in m.pages
    ensures Release(WithRow(Add(m, root, 0, ZeroTable()), root, t), root) == m
    ensures root in WithRow(Add(m, root, 0, ZeroTable()), root, t).refs
  {
    var made := WithRow(Add(m, root, 0, ZeroTable()), root, t);
    assert made.pages == m.pages[root := t] && made.refs == m.refs[root := 1] && made.level == m.level[root := 0];
    assert Release(made, root) == Remove(made, root);
    PutThenTaken(m.pages, root, t);
    PutThenTaken(m.refs, root, 1);
    PutThenTaken(m.level, root, 0);
  }

  lemma PutThenTaken<T>(m: map<Pfn, T>, p: Pfn, x: T)
    requires p !in m
    ensures m[p := x] - {p} == m
  {}

  /** Forks a space. The child joins the live spaces and sees what its parent
      sees; a failure at any point leaves the tables as they were. */
  method NewForFork(parent: AddressSpace, ghost spaces: seq<Space>, ghost k: nat)
    returns (error: Option<Error>, child: AddressSpace?)
    requires parent.Live(spaces, k) && parent.Coherent()
    modifies parent.backend
    ensures error.Some? <==> child == null
    ensures error.Some? ==> error.value == OutOfMemory && parent.backend.Mem() == old(parent.backend.Mem())
    ensures parent.backend.Drew(old(parent.backend.Stock()), 1, error.Some?)
    ensures child != null ==> fresh(child) && child.backend == parent.backend && child.Coherent()
    ensures child != null ==> Inv(parent.backend.Mem(), spaces + [child.Value()])
    ensures child != null ==> SameViews(old(parent.backend.Mem()), parent.backend.Mem(), spaces)
    ensures child != null ==> forall ix :: Within(ix) ==>
              View(parent.backend.Mem(), child.rootPfn, ix) == View(old(parent.backend.Mem()), parent.rootPfn, ix)
    ensures child != null ==>
              && parent.rootPfn in old(parent.backend.pages) && child.rootPfn !in old(parent.backend.pages)
              && child.tablePfns == [child.rootPfn] + Targets(old(parent.backend.pages)[parent.rootPfn])
              && parent.backend.pages
                == old(parent.backend.pages)[child.rootPfn := old(parent.backend.pages)[parent.rootPfn]]
    ensures child != null ==> forall j :: 0 <= j < |spaces| && j != k ==>
              KeepsPrivate(old(parent.backend.Mem()), parent.backend.Mem(), spaces[j].root)
  {
    hide Inv, View, Shape, Add, SameViews, Agrees, Entry, WithRow, Upto, Release, Targets, ForkStep, KeepsPrivate,
      StockOf;
    ghost var m := parent.backend.Mem();
    InvParts(m, spaces, k);
    error, child := AddressSpace.Create(parent.backend, spaces);
    if error.Some? {
      return;
    }
    ghost var n, live, c := parent.backend.Mem(), spaces + [child.Value()], |spaces|;
    AddedEntries(m, child.rootPfn);
    assert n.pages.Keys == m.pages.Keys + {child.rootPfn} by { AddKeys(m, child.rootPfn); }
    AddedPages(m, child.rootPfn, parent.rootPfn);
    SameViewsFrom(m, n, spaces, k);
    SameAgrees(parent.cache, m, n, parent.rootPfn);
    var r;
    ghost var done;
    r, done := CloneSharedMappingsFrom(child, parent, live, k, c);
    if r.Err? {
      DropRestores(m, child.rootPfn, Upto(n.pages[parent.rootPfn], done));
      ghost var failed := parent.backend.Mem();
      assert ReleaseAll(failed, [child.rootPfn]) == Release(failed, child.rootPfn) by {
        assert [child.rootPfn][..0] == [];
        assert ReleaseAll(failed, []) == failed;
      }
      Drop(child, [], 0);
      StockLess(parent.backend.supply, n.pages.Keys, m.pages.Keys);
      return Some(r.error), null;
    }
    assert live[c := child.Value()] == spaces + [child.Value()];
    assert parent.backend.pages.Keys == n.pages.Keys;
    OthersThenSame(m, n, parent.backend.Mem(), spaces, live, c);
    ForkedPrivate(m, n, parent.backend.Mem(), spaces, live, k);
    ViewsCarried(m, n, parent.backend.Mem(), parent.rootPfn, child.rootPfn);
  }

  lemma ForkedPrivate(m: Memory, n: Memory, o: Memory, spaces: seq<Space>, live: seq<Space>, k: nat)
    requires Inv(m, spaces) && Inv(n, live) && k < |spaces| && |live| == |spaces| + 1 && live[..|spaces|] == spaces
    requires live[|spaces|].root !in m.pages && n == Add(m, live[|spaces|].root, 0, ZeroTable())
    requires ForkStep(n, o, spaces[k].root, live[|spaces|].root)
    ensures forall j :: 0 <= j < |spaces| && j != k ==> KeepsPrivate(m, o, spaces[j].root)
  {
    hide Core, Lists, ForkStep, KeepsPrivate, Add;
    AllKeepAdd(m, spaces, live[|spaces|].root, 0);
    assert live[k] == spaces[k];
    AllKeepFork(n, o, live, k, |spaces|);
    forall j | 0 <= j < |spaces| && j != k ensures KeepsPrivate(m, o, spaces[j].root) {
      assert live[j] == spaces[j];
      KeepsPrivateTrans(m, n, o, spaces[j].root);
    }
  }

  lemma AddKeys(m: Memory, q: Pfn)
    ensures Add(m, q, 0, ZeroTable()).pages.Keys == m.pages.Keys + {q}
  {}

  lemma SameViewsFrom(m: Memory, n: Memory, spaces: seq<Space>, k: nat)
    requires SameViews(m, n, spaces) && k < |spaces|
    ensures SameView(m, n, spaces[k].root)
  {}

  lemma OthersThenSame(m: Memory, n: Memory, o: Memory, spaces: seq<Space>, live: seq<Space>, c: nat)
    requires SameViews(m, n, spaces) && c == |spaces| && |live| == c + 1 && live[..c] == spaces
             && OthersSame(n, o, live, c)
    ensures SameViews(m, o, spaces)
  {
    hide View;
    forall j | 0 <= j < |spaces| ensures SameView(m, o, spaces[j].root) {
      assert live[j] == spaces[j];
    }
  }

  lemma ViewsCarried(m: Memory, n: Memory, o: Memory, parent: Pfn, child: Pfn)
    requires SameView(m, n, parent) && forall ix :: Within(ix) ==> View(o, child, ix) == View(n, parent, ix)
    ensures forall ix :: Within(ix) ==> View(o, child, ix) == View(m, parent, ix)
  {
    hide View;
  }

  /** A failed clone that is not dropped keeps reference counts exact exactly
      when it had not yet come to a table. */
  lemma FailedCloneExact(m: Memory, spaces: seq<Space>, child: Pfn, t: seq<Descriptor>, done: nat)
    requires PointersExact(m, spaces) && child in m.pages && Level(m, child) == 0
             && (forall j: nat :: Entry(m, child, j) == ZERO)
    requires done <= |t|
    ensures PointersExact(WithRow(m, child, Upto(t, done)), spaces) <==> forall i :: 0 <= i < done ==> !IsTable(t[i])
  {
    var n, row := WithRow(m, child, Upto(t, done)), Upto(t, done);
    forall p ensures Pointers(n, p) == Pointers(m, p) + Count(row, p) {
      PickRow(m, m.pages.Keys, child, p);
      assert n.pages.Keys == m.pages.Keys;
      PickRow(n, m.pages.Keys, child, p);
      SameRows(m, n, m.pages.Keys - {child}, p);
      EmptyRow(m, child, p);
    }
    assert forall p :: RefsOf(n, p) == RefsOf(m, p);
    if forall i :: 0 <= i < done ==> !IsTable(t[i]) {
      forall p ensures RefsOf(n, p) == Pointers(n, p) + RootCount(spaces, p) {
        CountNone(row, p);
        assert RefsOf(m, p) == Pointers(m, p) + RootCount(spaces, p);
      }
    } else {
      var i :| 0 <= i < done && IsTable(t[i]);
      var p := t[i].pfn;
      CountUpdate(row, i, ZERO, p);
      assert RefsOf(m, p) == Pointers(m, p) + RootCount(spaces, p);
      assert RefsOf(n, p) != Pointers(n, p) + RootCount(spaces, p);
    }
  }

  /** Sharing does not promise success. When one of two spaces detaches a
      level-one table they share, every leaf below it that the other does not
      list becomes one it cannot make private: from then on its operations on
      those pages fail. */
  lemma DetachLeavesStuck(m: Memory, n: Memory, spaces: seq<Space>, k: nat, c: nat, ix: Index, copy: Pfn, d: Descriptor)
    requires Inv(m, spaces) && k < |spaces| && c < |spaces| && k != c && Within(ix) && Reaches(m, spaces[c].root, ix)
    requires DetachStep(m, n, spaces[k].root, ix.i0, LevelOne(m, spaces[c].root, ix), copy, d)
    requires RefsOf(m, LevelOne(m, spaces[c].root, ix)) == 2 && Leaf(m, spaces[c].root, ix) !in spaces[c].pfns
    ensures Stuck(n, spaces[c], ix)
  {
    hide Inv, Core, Lists, Shape, Typed, Row, Pointers, OwnsLevelOne;
    var root := spaces[c].root;
    var one, leaf := LevelOne(m, root, ix), Leaf(m, root, ix);
    InvParts(m, spaces, c);
    CoreRoots(m, spaces, k, c);
    WalkTyped(m, root, ix);
    SelfRow(m, one);
    RowNames(m, one, ix.i1);
    ShapeAt(m, leaf);
    assert RefsOf(n, one) == 1;
    assert RefsOf(n, leaf) >= 2;
  }
}

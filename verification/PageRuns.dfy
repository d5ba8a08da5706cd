/** The simple way to map a run of pages, one page at a time, as the measure of
    the fast one. */
module PageRuns {
  import opened Descriptors
  import opened Options
  import opened TableMemory
  import opened TableSteps
  import opened TableBackend
  import opened Transactions
  import opened VirtualAddress
  import opened TranslationCache
  import opened AddressSpaces

  /** One more page set, where nothing was. */
  lemma PagesSetMore(before: Memory, m: Memory, n: Memory, root: Pfn, mapped: seq<Index>, ds: seq<Descriptor>,
                     ix: Index, d: Descriptor)
    requires PagesSet(before, m, root, mapped, ds) && ViewSet(m, n, root, ix, d) && View(m, root, ix) == ZERO
             && Within(ix)
    requires (forall i :: 0 <= i < |ds| ==> ds[i] != ZERO) && (forall i :: 0 <= i < |mapped| ==> Within(mapped[i]))
    ensures PagesSet(before, n, root, mapped + [ix], ds + [d])
  {
    hide View;
    var more, after := mapped + [ix], ds + [d];
    assert ix !in mapped;
    forall i | 0 <= i < |more| ensures View(before, root, more[i]) == ZERO && View(n, root, more[i]) == after[i] {
      if i < |mapped| { assert more[i] == mapped[i]; }
    }
    forall jx | Within(jx) && jx !in more ensures View(n, root, jx) == View(before, root, jx) {
      assert jx != ix && jx !in mapped;
    }
  }

  lemma PagesNonzero(vaddr: nat, pfns: seq<Pfn>, protections: seq<Protection>, count: nat)
    requires count <= |pfns| == |protections| && UserRangeValid(vaddr, |pfns| * PAGE_SIZE)
    ensures forall i :: 0 <= i < count ==> PagesFor(pfns, protections, count)[i] != ZERO
    ensures forall i :: 0 <= i < count ==> Within(RegionIndices(vaddr, count)[i])
    ensures |RegionIndices(vaddr, count)| == |PagesFor(pfns, protections, count)| == count
  {
    hide UserPage, UserRangeValid;
    forall i | 0 <= i < count
      ensures PagesFor(pfns, protections, count)[i] != ZERO && Within(RegionIndices(vaddr, count)[i]) {
      UserPageNonzero(pfns[i], protections[i].readable, protections[i].writable, protections[i].executable);
      RegionPage(vaddr, |pfns|, i);
    }
  }

  /** Maps the pages of a run one after the other. */
  method MapEachInTurn(space: AddressSpace, vaddr: nat, pfns: seq<Pfn>, protections: seq<Protection>,
                       ghost spaces: seq<Space>, ghost k: nat)
    returns (r: Result<()>)
    requires space.Live(spaces, k) && space.Coherent() && |pfns| == |protections|
    requires UserRangeValid(vaddr, |pfns| * PAGE_SIZE)
    modifies space`tablePfns, space`cache, space.backend
    ensures space.Live(spaces[k := space.Value()], k) && space.Coherent()
    ensures r.Ok? ==>
              PagesSet(old(space.backend.Mem()), space.backend.Mem(), space.rootPfn, RegionIndices(vaddr, |pfns|),
                PagesFor(pfns, protections, |pfns|))
  {
    hide Inv, Agrees, View, SameViews, UserPage, PagesSet, RegionIndices, RegionIndex, PagesFor, PageFor, MapAllowed,
      MapRefused, UserRangeValid, ViewSet;
    ghost var m := space.backend.Mem();
    PagesEmpty(vaddr, pfns, protections);
    NothingSet(m, space.rootPfn);
    assert spaces[k := space.Value()] == spaces;
    var i := 0;
    while i < |pfns|
      invariant 0 <= i <= |pfns| && space.Live(spaces[k := space.Value()], k) && space.Coherent()
      invariant PagesSet(m, space.backend.Mem(), space.rootPfn, RegionIndices(vaddr, i), PagesFor(pfns, protections, i))
    {
      RegionPage(vaddr, |pfns|, i);
      UserPageIndex(vaddr + i * PAGE_SIZE);
      PagesNonzero(vaddr, pfns, protections, i);
      ghost var live, before, ix := spaces[k := space.Value()], space.backend.Mem(), RegionIndex(vaddr, i);
      var p := protections[i];
      r := space.MapUserPage(vaddr + i * PAGE_SIZE, pfns[i], p.readable, p.writable, p.executable, live, k);
      assert live[k := space.Value()] == spaces[k := space.Value()];
      if r.Err? {
        return;
      }
      AllowedEmpty(before, live[k], vaddr + i * PAGE_SIZE, pfns[i]);
      PageForIs(pfns[i], p);
      PagesSetMore(m, before, space.backend.Mem(), space.rootPfn, RegionIndices(vaddr, i),
        PagesFor(pfns, protections, i), ix, PageFor(pfns[i], p));
      PagesExtend(vaddr, pfns, protections, i);
      i := i + 1;
    }
    r := Ok(());
  }

  lemma NothingSet(m: Memory, root: Pfn)
    ensures PagesSet(m, m, root, [], [])
  {}

  lemma AllowedEmpty(m: Memory, s: Space, vaddr: nat, pfn: Pfn)
    requires MapAllowed(m, s, vaddr, pfn)
    ensures vaddr < 0x80_0000_0000 && View(m, s.root, IndexOf(vaddr)) == ZERO
  {}
}

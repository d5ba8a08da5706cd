/** Any number of address spaces on one backend, and any run of forks and
    single-page operations over them, against one finite page map per space. */
module ManySpaces {
  import opened Descriptors
  import opened Options
  import opened TableMemory
  import opened TableSteps
  import opened TableBackend
  import opened Transactions
  import opened TranslationCache
  import opened VirtualAddress
  import opened AddressSpaces
  import opened Cloning

  datatype Mapping = Mapping(frame: Pfn, protection: Protection)

  /** What a space is for its owner: the user pages it maps, by address, the
      fixed supervisor part, and whether it took part in a fork. */
  datatype Pages = Pages(user: map<nat, Mapping>, kernel: Index -> Descriptor, lent: bool)

  ghost predicate UserSlot(ix: Index) {
    Within(ix) && ix.i0 == 0 && 128 <= ix.i1 < 256
  }

  ghost function AddressOf(ix: Index): nat {
    ix.i0 * 0x4000_0000 + ix.i1 * 0x20_0000 + ix.i2 * PAGE_SIZE
  }

  ghost function Encoded(mapping: Mapping): Descriptor {
    PageFor(mapping.frame, mapping.protection)
  }

  ghost function Expected(pages: Pages, ix: Index): Descriptor {
    if !UserSlot(ix) then pages.kernel(ix)
    else if AddressOf(ix) in pages.user then Encoded(pages.user[AddressOf(ix)])
    else ZERO
  }

  /** The tables under `root` hold exactly these pages. */
  ghost predicate Shows(m: Memory, root: Pfn, pages: Pages) {
    forall ix :: Within(ix) ==> View(m, root, ix) == Expected(pages, ix)
  }

  /** No table on a user path is shared. */
  ghost predicate AllPrivate(m: Memory, root: Pfn) {
    forall ix :: UserIndex(ix) ==> PrivateSoFar(m, root, ix)
  }

  lemma AddressIndex(vaddr: nat, ix: Index)
    requires UserRangeValid(vaddr, PAGE_SIZE) && Within(ix)
    ensures vaddr < 0x80_0000_0000 && UserSlot(IndexOf(vaddr)) && AddressOf(IndexOf(vaddr)) == vaddr
    ensures AddressOf(ix) == vaddr <==> ix == IndexOf(vaddr)
  {
    UserPageIndex(vaddr);
    Recompose(vaddr);
  }

  ghost function Insert(pages: Pages, vaddr: nat, mapping: Mapping): Pages {
    pages.(user := pages.user[vaddr := mapping])
  }

  ghost function Erase(pages: Pages, vaddr: nat): Pages {
    pages.(user := pages.user - {vaddr})
  }

  lemma ShowsInsert(m: Memory, n: Memory, root: Pfn, pages: Pages, vaddr: nat, mapping: Mapping)
    requires Shows(m, root, pages) && UserRangeValid(vaddr, PAGE_SIZE)
             && ViewSet(m, n, root, IndexOf(vaddr), Encoded(mapping))
    ensures Shows(n, root, Insert(pages, vaddr, mapping))
  {
    hide View, Encoded, UserRangeValid, AddressOf, IndexOf;
    forall ix | Within(ix) ensures View(n, root, ix) == Expected(Insert(pages, vaddr, mapping), ix) {
      AddressIndex(vaddr, ix);
    }
  }

  lemma ShowsErase(m: Memory, n: Memory, root: Pfn, pages: Pages, vaddr: nat)
    requires Shows(m, root, pages) && UserRangeValid(vaddr, PAGE_SIZE) && ViewSet(m, n, root, IndexOf(vaddr), ZERO)
    ensures Shows(n, root, Erase(pages, vaddr))
  {
    hide View, Encoded, UserRangeValid, AddressOf, IndexOf;
    forall ix | Within(ix) ensures View(n, root, ix) == Expected(Erase(pages, vaddr), ix) {
      AddressIndex(vaddr, ix);
    }
  }

  lemma ShowsAt(m: Memory, root: Pfn, pages: Pages, vaddr: nat)
    requires Shows(m, root, pages) && UserRangeValid(vaddr, PAGE_SIZE)
    ensures vaddr < 0x80_0000_0000
    ensures View(m, root, IndexOf(vaddr)) == if vaddr in pages.user then Encoded(pages.user[vaddr]) else ZERO
    ensures vaddr in pages.user ==>
            IsTable(View(m, root, IndexOf(vaddr)))
            && View(m, root, IndexOf(vaddr)).pfn == Frame(pages.user[vaddr].frame)
    ensures vaddr in pages.user <==> View(m, root, IndexOf(vaddr)) != ZERO
  {
    hide View, AddressOf;
    UserPageIndex(vaddr);
    AddressIndex(vaddr, IndexOf(vaddr));
  }

  /** Masking a frame twice is masking it once. */
  lemma FrameTwice(pfn: Pfn, protection: Protection)
    ensures PageFor(Frame(pfn), protection) == PageFor(pfn, protection)
  {
    hide Frame;
    FrameExact(pfn);
  }

  // ---------- every space at once ----------

  datatype Owner = Owner(root: Pfn, cache: Cache)

  ghost predicate Truthful(m: Memory, owner: Owner, pages: Pages) {
    Agrees(owner.cache, m, owner.root) && Shows(m, owner.root, pages) && (pages.lent || AllPrivate(m, owner.root))
  }

  /** Every space shows its pages, no translation cache disagrees, and no table
      is shared by a space that took no part in a fork. */
  ghost predicate AllTruthful(m: Memory, owners: seq<Owner>, models: seq<Pages>) {
    |owners| == |models| && forall i :: 0 <= i < |owners| ==> Truthful(m, owners[i], models[i])
  }

  lemma SameTruthful(m: Memory, n: Memory, owner: Owner, pages: Pages)
    requires Truthful(m, owner, pages) && SameView(m, n, owner.root)
    ensures KeepsPrivate(m, n, owner.root) ==> Truthful(n, owner, pages)
    ensures Truthful(n, owner, pages.(lent := true))
  {
    hide View, Expected, PrivateSoFar, Reaches;
    SameAgrees(owner.cache, m, n, owner.root);
    assert Shows(n, owner.root, pages.(lent := true)) by {
      assert forall ix :: Expected(pages.(lent := true), ix) == Expected(pages, ix) by { LentExpected(pages); }
    }
  }

  lemma LentExpected(pages: Pages)
    ensures forall ix :: Expected(pages.(lent := true), ix) == Expected(pages, ix)
  {}

  /** One space's view changed and its cache followed; nobody else noticed. */
  lemma TruthfulUpdate(m: Memory, n: Memory, owners: seq<Owner>, models: seq<Pages>, k: nat, owner: Owner, pages: Pages)
    requires AllTruthful(m, owners, models) && k < |owners| && owner.root == owners[k].root
    requires forall j :: 0 <= j < |owners| && j != k ==>
               SameView(m, n, owners[j].root) && KeepsPrivate(m, n, owners[j].root)
    requires Truthful(n, owner, pages)
    ensures AllTruthful(n, owners[k := owner], models[k := pages])
  {
    hide Truthful, SameView, KeepsPrivate;
    var after, updated := owners[k := owner], models[k := pages];
    forall i | 0 <= i < |owners| ensures Truthful(n, after[i], updated[i]) {
      if i != k { SameTruthful(m, n, owners[i], models[i]); }
    }
  }

  /** A space kept what it had, or lent it out. */
  ghost predicate Kept(m: Memory, n: Memory, root: Pfn, pages: Pages, after: Pages) {
    SameView(m, n, root) && (after == pages.(lent := true) || (after == pages && KeepsPrivate(m, n, root)))
  }

  lemma TruthfulAppend(m: Memory, n: Memory, owners: seq<Owner>, models: seq<Pages>, after: seq<Pages>, owner: Owner,
                       pages: Pages)
    requires AllTruthful(m, owners, models) && |after| == |models|
    requires forall j :: 0 <= j < |owners| ==> Kept(m, n, owners[j].root, models[j], after[j])
    requires Truthful(n, owner, pages)
    ensures AllTruthful(n, owners + [owner], after + [pages])
  {
    hide Truthful, SameView, KeepsPrivate;
    var all, updated := owners + [owner], after + [pages];
    forall i | 0 <= i < |all| ensures Truthful(n, all[i], updated[i]) {
      if i < |owners| {
        assert Kept(m, n, owners[i].root, models[i], after[i]);
        SameTruthful(m, n, owners[i], models[i]);
      }
    }
  }

  // ---------- operations ----------

  datatype Op =
    | New
    | Fork(k: nat)
    | Map(k: nat, vaddr: nat, pfn: Pfn, protection: Protection)
    | Protect(k: nat, vaddr: nat, protection: Protection)
    | Replace(k: nat, vaddr: nat, pfn: Pfn, protection: Protection)
    | Unmap(k: nat, vaddr: nat)

  datatype Outcome = Done | Returned(pfn: Pfn) | Failed(error: Error)

  predicate Targeted(op: Op, count: nat) {
    op.New? || op.k < count
  }

  ghost function Nothing(): Pages {
    Pages(map[], _ => ZERO, false)
  }

  /** What the operation does to the pages of the spaces, each on its own. */
  ghost function Step(models: seq<Pages>, op: Op, outcome: Outcome): seq<Pages>
    requires Targeted(op, |models|)
  {
    if outcome.Failed? then models
    else match op
      case New => models + [Nothing()]
      case Fork(k) => models[k := models[k].(lent := true)] + [models[k].(lent := true)]
      case Map(k, vaddr, pfn, protection) => models[k := Insert(models[k], vaddr, Mapping(pfn, protection))]
      case Protect(k, vaddr, protection) =>
        if vaddr !in models[k].user then models
        else models[k := Insert(models[k], vaddr, models[k].user[vaddr].(protection := protection))]
      case Replace(k, vaddr, pfn, protection) => models[k := Insert(models[k], vaddr, Mapping(pfn, protection))]
      case Unmap(k, vaddr) => models[k := Erase(models[k], vaddr)]
  }

  /** What the operation may answer, judged by the pages alone. */
  ghost predicate Permitted(models: seq<Pages>, op: Op, outcome: Outcome)
    requires Targeted(op, |models|)
  {
    match op
    case New => outcome == Done || outcome == Failed(OutOfMemory)
    case Fork(_) => outcome == Done || outcome == Failed(OutOfMemory)
    case Map(k, vaddr, pfn, _) =>
      && (outcome == Done || (outcome.Failed? && outcome.error in {OutOfMemory, InvalidAddress, AlreadyMapped}))
      && (!UserRangeValid(vaddr, PAGE_SIZE) ==> outcome == Failed(InvalidAddress))
      && (outcome == Done ==> vaddr !in models[k].user && Addressable(pfn))
      && (outcome == Failed(AlreadyMapped) ==> vaddr in models[k].user)
      && (outcome == Failed(InvalidAddress) ==>
            !UserRangeValid(vaddr, PAGE_SIZE) || !Addressable(pfn) || models[k].lent)
      && (outcome == Failed(OutOfMemory) ==> models[k].lent || !NearMapped(models[k], vaddr))
    case Protect(k, vaddr, _) =>
      if outcome == Done then UserRangeValid(vaddr, PAGE_SIZE) && vaddr in models[k].user
      else Declined(models[k], vaddr, outcome)
    case Replace(k, vaddr, pfn, _) =>
      if !Addressable(pfn) then outcome == Failed(InvalidAddress)
      else !GivesBack(models[k], vaddr, outcome) ==> Declined(models[k], vaddr, outcome)
    case Unmap(k, vaddr) =>
      !GivesBack(models[k], vaddr, outcome) ==> Declined(models[k], vaddr, outcome)
  }

  /** The page was mapped, and its frame is handed back. */
  ghost predicate GivesBack(pages: Pages, vaddr: nat, outcome: Outcome) {
    UserRangeValid(vaddr, PAGE_SIZE) && vaddr in pages.user && outcome == Returned(Frame(pages.user[vaddr].frame))
  }

  /** The page is not mapped; or the space took part in a fork, and its tables
      could not be made its own. */
  ghost predicate Declined(pages: Pages, vaddr: nat, outcome: Outcome) {
    && outcome.Failed? && outcome.error in {OutOfMemory, InvalidAddress, NotMapped}
    && (!UserRangeValid(vaddr, PAGE_SIZE) ==> outcome == Failed(InvalidAddress))
    && (outcome == Failed(NotMapped) ==> vaddr !in pages.user)
    && (outcome != Failed(NotMapped) ==> !UserRangeValid(vaddr, PAGE_SIZE) || pages.lent)
  }

  /** A page of the same leaf table is mapped. */
  ghost predicate NearMapped(pages: Pages, vaddr: nat) {
    exists other :: other in pages.user && UserRangeValid(other, PAGE_SIZE) && other / 0x20_0000 == vaddr / 0x20_0000
  }

  lemma StillPrivate(m: Memory, n: Memory, root: Pfn)
    requires AllPrivate(m, root) && KeepsPrivate(m, n, root)
    ensures AllPrivate(n, root)
  {
    hide PrivateSoFar, Reaches;
  }

  // ---------- the machine ----------

  ghost function ValuesOf(spaces: seq<AddressSpace>): (r: seq<Space>)
    reads spaces
    ensures |r| == |spaces| && forall i :: 0 <= i < |r| ==> r[i] == spaces[i].Value()
  {
    seq(|spaces|, i requires 0 <= i < |spaces| reads spaces => spaces[i].Value())
  }

  ghost function OwnersOf(spaces: seq<AddressSpace>): (r: seq<Owner>)
    reads spaces
    ensures |r| == |spaces| && forall i :: 0 <= i < |r| ==> r[i] == Owner(spaces[i].rootPfn, spaces[i].cache)
  {
    seq(|spaces|, i requires 0 <= i < |spaces| reads spaces => Owner(spaces[i].rootPfn, spaces[i].cache))
  }

  class Machine {
    const backend: Backend
    var spaces: seq<AddressSpace>
    ghost var models: seq<Pages>

    /** A machine without address spaces. */
    constructor (backend: Backend)
      requires backend.pages == map[] && backend.refs == map[] && backend.level == map[]
      ensures this.backend == backend && Valid() && spaces == [] && models == []
    {
      this.backend := backend;
      spaces := [];
      models := [];
    }

    ghost function Values(): seq<Space>
      reads this`spaces, spaces
    {
      ValuesOf(spaces)
    }

    ghost function Owners(): seq<Owner>
      reads this`spaces, spaces
    {
      OwnersOf(spaces)
    }

    ghost predicate Separate()
      reads this`spaces
    {
      && (forall i :: 0 <= i < |spaces| ==> spaces[i].backend == backend)
      && (forall i, j :: 0 <= i < j < |spaces| ==> spaces[i] != spaces[j])
    }

    /** Reference counts are exact, every space shows its own pages, the
        translation caches agree, and only forks make spaces share. */
    ghost predicate Valid()
      reads this, backend, spaces
    {
      |models| == |spaces| && Separate() && Inv(backend.Mem(), Values()) && AllTruthful(backend.Mem(), Owners(), models)
    }

    /** What `Valid` says of one space. */
    lemma ValidAt(k: nat)
      requires Valid() && k < |spaces|
      ensures spaces[k].backend == backend && spaces[k].Live(Values(), k) && spaces[k].Coherent()
      ensures Shows(backend.Mem(), spaces[k].rootPfn, models[k]) && Values()[k] == spaces[k].Value()
      ensures models[k].lent || AllPrivate(backend.Mem(), spaces[k].rootPfn)
      ensures Separate() && |models| == |spaces| == |Values()|
    {
      hide Inv, Shows, Agrees, AllPrivate;
      assert Truthful(backend.Mem(), Owners()[k], models[k]);
    }

    /** Since `m`, space `k` alone was worked on. */
    ghost predicate Touched(m: Memory, values: seq<Space>, owners: seq<Owner>, before: seq<Pages>, k: nat)
      reads this`spaces, backend, spaces
    {
      && k < |spaces| == |values| == |owners| == |before| && Separate() && AllTruthful(m, owners, before)
      && Values() == values[k := spaces[k].Value()] && spaces[k].Live(Values(), k) && spaces[k].Coherent()
      && Owners() == owners[k := Owner(spaces[k].rootPfn, spaces[k].cache)]
      && forall j :: 0 <= j < |owners| ==> owners[j].root == spaces[j].rootPfn == values[j].root
    }

    twostate lemma TouchedBy(k: nat)
      requires old(Valid()) && k < |spaces| && unchanged(`spaces)
      requires forall s :: s in spaces && s != spaces[k] ==> unchanged(s)
      requires spaces[k].Live(old(Values())[k := spaces[k].Value()], k) && spaces[k].Coherent()
      ensures Touched(old(backend.Mem()), old(Values()), old(Owners()), old(models), k)
    {
      hide Inv, Agrees, AllTruthful;
      forall j | 0 <= j < |spaces| && j != k
        ensures spaces[j].Value() == old(spaces[j].Value()) && spaces[j].cache == old(spaces[j].cache)
      {
        assert spaces[j] in spaces && spaces[j] != spaces[k];
      }
      assert Values() == old(Values())[k := spaces[k].Value()];
      assert Owners() == old(Owners())[k := Owner(spaces[k].rootPfn, spaces[k].cache)];
    }

    /** No space sees a difference. */
    lemma SettledSame(m: Memory, values: seq<Space>, owners: seq<Owner>, k: nat)
      requires Touched(m, values, owners, models, k) && SameViews(m, backend.Mem(), values)
      requires AllKeepPrivate(m, backend.Mem(), values)
      ensures Valid()
    {
      hide Inv, Shows, Agrees, View, KeepsPrivate;
      assert SameView(m, backend.Mem(), values[k].root);
      assert Truthful(m, owners[k], models[k]);
      SameTruthful(m, backend.Mem(), owners[k], models[k]);
      assert models[k := models[k]] == models;
      TruthfulUpdate(m, backend.Mem(), owners, models, k, Owner(spaces[k].rootPfn, spaces[k].cache), models[k]);
    }

    /** Space `k` sees another descriptor at one user page, and `models` follows. */
    lemma SettledSet(m: Memory, values: seq<Space>, owners: seq<Owner>, before: seq<Pages>, k: nat, ix: Index,
                     d: Descriptor, pages: Pages)
      requires Touched(m, values, owners, before, k) && OnlyViewSet(m, backend.Mem(), values, k, ix, d)
      requires ViewSet(m, backend.Mem(), spaces[k].rootPfn, ix, d) ==> Shows(backend.Mem(), spaces[k].rootPfn, pages)
      requires models == before[k := pages] && pages.lent == before[k].lent
      requires AllKeepPrivate(m, backend.Mem(), values)
      ensures Valid()
    {
      hide Inv, Shows, Agrees, SameView, ViewSet, KeepsPrivate, AllPrivate;
      assert Truthful(m, owners[k], before[k]);
      if !pages.lent { StillPrivate(m, backend.Mem(), spaces[k].rootPfn); }
      TruthfulUpdate(m, backend.Mem(), owners, before, k, Owner(spaces[k].rootPfn, spaces[k].cache), pages);
    }

    method ApplyMap(k: nat, vaddr: nat, pfn: Pfn, protection: Protection) returns (outcome: Outcome)
      requires Valid() && k < |spaces|
      modifies this`models, backend, spaces[k]
      ensures Valid() && spaces == old(spaces)
      ensures Permitted(old(models), Map(k, vaddr, pfn, protection), outcome)
      ensures models == Step(old(models), Map(k, vaddr, pfn, protection), outcome)
      ensures backend.Drew(old(backend.Stock()), 6, outcome == Failed(OutOfMemory))
    {
      hide StockOf, Valid, Touched, Values, Owners, Inv, Shows, Agrees, SameView, SameViews, OnlyViewSet, ViewSet,
        AllTruthful, UserRangeValid, Stuck, View, PageFor, UserPage, Frame, Addressable, MapRefused, MapAllowed,
        Permitted, AllKeepPrivate, AllPrivate, PrivatePath;
      ghost var m, values, owners := backend.Mem(), Values(), Owners();
      ValidAt(k);
      var space := spaces[k];
      var r := space.MapUserPage(vaddr, pfn, protection.readable, protection.writable, protection.executable, values,
        k);
      TouchedBy(k);
      if UserRangeValid(vaddr, PAGE_SIZE) { UserPageIndex(vaddr); }
      MapPermitted(m, values[k], models, k, vaddr, pfn, protection, r);
      if r.Err? {
        SettledSame(m, values, owners, k);
        return Failed(r.error);
      }
      ghost var before, pages := models, Insert(models[k], vaddr, Mapping(pfn, protection));
      PageForIs(pfn, protection);
      if ViewSet(m, backend.Mem(), space.rootPfn, IndexOf(vaddr), PageFor(pfn, protection)) {
        ShowsInsert(m, backend.Mem(), space.rootPfn, before[k], vaddr, Mapping(pfn, protection));
      }
      models := before[k := pages];
      SettledSet(m, values, owners, before, k, IndexOf(vaddr), PageFor(pfn, protection), pages);
      outcome := Done;
    }

    method ApplyProtect(k: nat, vaddr: nat, protection: Protection) returns (outcome: Outcome)
      requires Valid() && k < |spaces|
      modifies this`models, backend, spaces[k]
      ensures Valid() && spaces == old(spaces)
      ensures Permitted(old(models), Protect(k, vaddr, protection), outcome)
      ensures models == Step(old(models), Protect(k, vaddr, protection), outcome)
      ensures backend.Drew(old(backend.Stock()), 6, outcome == Failed(OutOfMemory))
    {
      hide StockOf, Valid, Touched, Values, Owners, Inv, Shows, Agrees, SameView, SameViews, OnlyViewSet, ViewSet,
        AllTruthful, UserRangeValid, Stuck, View, PageFor, UserPage, Frame, Declined, AddressSpace.Refused,
        AllKeepPrivate, AllPrivate, PrivateSoFar;
      ghost var m, values, owners := backend.Mem(), Values(), Owners();
      ValidAt(k);
      var space := spaces[k];
      if UserRangeValid(vaddr, PAGE_SIZE) { ShowsAt(m, space.rootPfn, models[k], vaddr); }
      var r := space.ProtectUserPage(vaddr, protection.readable, protection.writable, protection.executable, values, k);
      TouchedBy(k);
      if r.Err? {
        RefusedDeclined(space, m, values[k], models[k], vaddr, r.error);
        SettledSame(m, values, owners, k);
        return Failed(r.error);
      }
      ghost var mapping := Mapping(models[k].user[vaddr].frame, protection);
      ghost var before, pages := models, Insert(models[k], vaddr, mapping);
      PageForIs(Frame(mapping.frame), protection);
      FrameTwice(mapping.frame, protection);
      if ViewSet(m, backend.Mem(), space.rootPfn, IndexOf(vaddr), Encoded(mapping)) {
        ShowsInsert(m, backend.Mem(), space.rootPfn, before[k], vaddr, mapping);
      }
      models := before[k := pages];
      SettledSet(m, values, owners, before, k, IndexOf(vaddr), Encoded(mapping), pages);
      outcome := Done;
    }

    method ApplyReplace(k: nat, vaddr: nat, pfn: Pfn, protection: Protection) returns (outcome: Outcome)
      requires Valid() && k < |spaces|
      modifies this`models, backend, spaces[k]
      ensures Valid() && spaces == old(spaces)
      ensures Permitted(old(models), Replace(k, vaddr, pfn, protection), outcome)
      ensures models == Step(old(models), Replace(k, vaddr, pfn, protection), outcome)
      ensures backend.Drew(old(backend.Stock()), 6, outcome == Failed(OutOfMemory))
    {
      hide StockOf, Valid, Touched, Values, Owners, Inv, Shows, Agrees, SameView, SameViews, OnlyViewSet, ViewSet,
        AllTruthful, UserRangeValid, Stuck, View, PageFor, UserPage, Frame, Declined, AddressSpace.Refused, Addressable,
        AllKeepPrivate, AllPrivate, PrivateSoFar;
      ghost var m, values, owners := backend.Mem(), Values(), Owners();
      ValidAt(k);
      var space := spaces[k];
      if UserRangeValid(vaddr, PAGE_SIZE) { ShowsAt(m, space.rootPfn, models[k], vaddr); }
      var r := space.ReplaceUserPage(vaddr, pfn, protection.readable, protection.writable, protection.executable,
        values, k);
      TouchedBy(k);
      if r.Err? {
        if Addressable(pfn) { RefusedDeclined(space, m, values[k], models[k], vaddr, r.error); }
        SettledSame(m, values, owners, k);
        return Failed(r.error);
      }
      ghost var mapping := Mapping(pfn, protection);
      ghost var before, pages := models, Insert(models[k], vaddr, mapping);
      PageForIs(pfn, protection);
      if ViewSet(m, backend.Mem(), space.rootPfn, IndexOf(vaddr), Encoded(mapping)) {
        ShowsInsert(m, backend.Mem(), space.rootPfn, before[k], vaddr, mapping);
      }
      models := before[k := pages];
      SettledSet(m, values, owners, before, k, IndexOf(vaddr), Encoded(mapping), pages);
      outcome := Returned(r.value);
    }

    method ApplyUnmap(k: nat, vaddr: nat) returns (outcome: Outcome)
      requires Valid() && k < |spaces|
      modifies this`models, backend, spaces[k]
      ensures Valid() && spaces == old(spaces)
      ensures Permitted(old(models), Unmap(k, vaddr), outcome)
      ensures models == Step(old(models), Unmap(k, vaddr), outcome)
      ensures backend.Drew(old(backend.Stock()), 6, outcome == Failed(OutOfMemory))
    {
      hide StockOf, Valid, Touched, Values, Owners, Inv, Shows, Agrees, SameView, SameViews, OnlyViewSet, ViewSet,
        AllTruthful, UserRangeValid, Stuck, View, PageFor, Frame, Declined, AddressSpace.Refused, AllKeepPrivate,
        AllPrivate, PrivateSoFar;
      ghost var m, values, owners := backend.Mem(), Values(), Owners();
      ValidAt(k);
      var space := spaces[k];
      if UserRangeValid(vaddr, PAGE_SIZE) { ShowsAt(m, space.rootPfn, models[k], vaddr); }
      var r := space.UnmapUserPage(vaddr, values, k);
      TouchedBy(k);
      if r.Err? {
        RefusedDeclined(space, m, values[k], models[k], vaddr, r.error);
        SettledSame(m, values, owners, k);
        return Failed(r.error);
      }
      ghost var before, pages := models, Erase(models[k], vaddr);
      if ViewSet(m, backend.Mem(), space.rootPfn, IndexOf(vaddr), ZERO) {
        ShowsErase(m, backend.Mem(), space.rootPfn, before[k], vaddr);
      }
      models := before[k := pages];
      SettledSet(m, values, owners, before, k, IndexOf(vaddr), ZERO, pages);
      outcome := Returned(r.value);
    }

    /** A space joined the others, who see no difference. */
    lemma SettledJoin(m: Memory, before: seq<AddressSpace>, owners: seq<Owner>, models: seq<Pages>, after: seq<Pages>,
                      pages: Pages)
      requires |spaces| == |before| + 1 && spaces[..|before|] == before && |models| == |before| == |after|
               && this.models == after + [pages]
      requires Separate() && Inv(backend.Mem(), Values()) && AllTruthful(m, owners, models)
      requires |owners| == |before|
               && (forall j :: 0 <= j < |before| ==> owners[j] == Owner(before[j].rootPfn, before[j].cache))
      requires forall j :: 0 <= j < |before| ==> Kept(m, backend.Mem(), before[j].rootPfn, models[j], after[j])
      requires spaces[|before|].Coherent() && Shows(backend.Mem(), spaces[|before|].rootPfn, pages)
      requires pages.lent || AllPrivate(backend.Mem(), spaces[|before|].rootPfn)
      ensures Valid()
    {
      hide Inv, Shows, Agrees, Kept, AllTruthful, AllPrivate;
      var owner := Owner(spaces[|before|].rootPfn, spaces[|before|].cache);
      assert forall j :: 0 <= j < |before| ==> spaces[j] == before[j];
      assert Owners() == owners + [owner];
      TruthfulAppend(m, backend.Mem(), owners, models, after, owner, pages);
    }

    /** Only the supply was drawn on. */
    twostate lemma Unmoved()
      requires old(Valid()) && unchanged(this) && backend.Mem() == old(backend.Mem())
      requires forall s :: s in spaces ==> unchanged(s)
      ensures Valid()
    {
      hide Inv, AllTruthful;
      assert forall j :: 0 <= j < |spaces| ==> spaces[j] in spaces;
      assert Values() == old(Values()) && Owners() == old(Owners());
    }

    /** What is known of the spaces when a new one has joined. */
    twostate lemma JoinedBy(new space: AddressSpace)
      requires old(Valid()) && spaces == old(spaces) + [space] && space !in old(spaces) && space.backend == backend
      requires forall s :: s in old(spaces) ==> unchanged(s)
      ensures Separate() && Values() == old(Values()) + [space.Value()]
      ensures old(AllTruthful(backend.Mem(), Owners(), models))
      ensures |old(spaces)| == |old(models)| == |old(Owners())| == |old(Values())|
      ensures forall j :: 0 <= j < |old(spaces)| ==>
                && old(Owners())[j] == Owner(old(spaces)[j].rootPfn, old(spaces)[j].cache)
                && old(Values())[j].root == old(spaces)[j].rootPfn
    {
      hide Inv, AllTruthful;
      forall j | 0 <= j < |old(spaces)|
        ensures spaces[j] == old(spaces)[j] && spaces[j].Value() == old(spaces[j].Value())
                && spaces[j].cache == old(spaces[j].cache) && spaces[j].backend == backend
      {
        assert old(spaces)[j] in old(spaces);
      }
      assert Values() == old(Values()) + [space.Value()];
    }

    method ApplyNew() returns (outcome: Outcome)
      requires Valid()
      modifies this, backend
      ensures Valid() && old(spaces) <= spaces && (forall s :: s in spaces ==> s in old(spaces) || fresh(s))
      ensures Permitted(old(models), New, outcome) && models == Step(old(models), New, outcome)
      ensures backend.Drew(old(backend.Stock()), 6, outcome == Failed(OutOfMemory))
    {
      hide Inv, Shows, Agrees, SameView, AllTruthful, View, Add, AllPrivate, KeepsPrivate, StockOf;
      ghost var m, values, owners, was := backend.Mem(), Values(), Owners(), models;
      var error, space := AddressSpace.Create(backend, values);
      if error.Some? {
        return Failed(error.value);
      }
      ShowsNothing(backend.Mem(), space.rootPfn);
      AddedPrivate(m, values, space.rootPfn);
      spaces, models := spaces + [space], models + [Nothing()];
      assert Values() == values + [space.Value()];
      forall j | 0 <= j < |old(spaces)| ensures Kept(m, backend.Mem(), old(spaces)[j].rootPfn, was[j], was[j]) {
        assert values[j].root == old(spaces)[j].rootPfn;
      }
      SettledJoin(m, old(spaces), owners, was, was, Nothing());
      outcome := Done;
    }

    method ApplyFork(k: nat) returns (outcome: Outcome)
      requires Valid() && k < |spaces|
      modifies this, backend
      ensures Valid() && old(spaces) <= spaces && (forall s :: s in spaces ==> s in old(spaces) || fresh(s))
      ensures Permitted(old(models), Fork(k), outcome) && models == Step(old(models), Fork(k), outcome)
      ensures backend.Drew(old(backend.Stock()), 6, outcome == Failed(OutOfMemory))
    {
      hide Inv, Shows, Agrees, SameView, AllTruthful, View, AllPrivate, KeepsPrivate, StockOf, Kept, SameViews, Valid,
        Values, Owners, Separate;
      ghost var m, values, owners, was := backend.Mem(), Values(), Owners(), models;
      ValidAt(k);
      var error, space := NewForFork(spaces[k], values, k);
      if error.Some? {
        Unmoved();
        return Failed(error.value);
      }
      ghost var lent := was[k].(lent := true);
      ShowsCloned(m, backend.Mem(), spaces[k].rootPfn, space.rootPfn, models[k]);
      spaces, models := spaces + [space], models[k := lent] + [lent];
      JoinedBy(space);
      ForkKept(m, backend.Mem(), values, was, k);
      SettledJoin(m, old(spaces), owners, was, was[k := lent], lent);
      outcome := Done;
    }

    /** One operation. Its answer is one the pages allow, and the pages of
        every space afterwards are those of the page-map semantics. */
    method Apply(op: Op) returns (outcome: Outcome)
      requires Valid() && Targeted(op, |spaces|)
      modifies this, backend, spaces
      ensures Valid() && old(spaces) <= spaces && (forall s :: s in spaces ==> s in old(spaces) || fresh(s))
      ensures Permitted(old(models), op, outcome) && models == Step(old(models), op, outcome)
      ensures backend.Drew(old(backend.Stock()), 6, outcome == Failed(OutOfMemory))
    {
      hide Valid, Permitted, Step, StockOf;
      assert |models| == |spaces| by { ModelsMatch(); }
      match op {
        case New => outcome := ApplyNew();
        case Fork(k) => outcome := ApplyFork(k);
        case Map(k, vaddr, pfn, protection) => outcome := ApplyMap(k, vaddr, pfn, protection);
        case Protect(k, vaddr, protection) => outcome := ApplyProtect(k, vaddr, protection);
        case Replace(k, vaddr, pfn, protection) => outcome := ApplyReplace(k, vaddr, pfn, protection);
        case Unmap(k, vaddr) => outcome := ApplyUnmap(k, vaddr);
      }
    }

    lemma ModelsMatch()
      requires Valid()
      ensures |models| == |spaces|
    {}

    /** Any run of operations. Every answer is allowed by what came before it,
        and the machine ends where independent page maps end: no operation on
        one space is seen by another, whatever tables they share, and reference
        counts stay exact all the way. Memory runs out only if the supply does,
        at six frames an operation, or a vector cannot grow. */
    method Run(ops: seq<Op>) returns (outcomes: seq<Outcome>)
      requires Valid()
      modifies this, backend, spaces
      ensures Valid() && Replayed(old(models), ops, outcomes, models)
      ensures |outcomes| == |ops| && forall i :: 0 <= i < |ops| && outcomes[i] == Failed(OutOfMemory) ==>
                backend.Starved(old(backend.Stock()), 6 * (i + 1))
    {
      hide Valid, Step, Permitted, StockOf;
      ModelsMatch();
      outcomes := [];
      var i := 0;
      while i < |ops|
        invariant 0 <= i <= |ops| && Valid() && |models| == |spaces|
        invariant Replayed(old(models), ops[..i], outcomes, models)
        invariant forall s :: s in spaces ==> s in old(spaces) || fresh(s)
        invariant |outcomes| == i && backend.Spent(old(backend.Stock()), 6 * i)
        invariant forall j :: 0 <= j < i && outcomes[j] == Failed(OutOfMemory) ==>
                    backend.Starved(old(backend.Stock()), 6 * (j + 1))
      {
        assert ops[..i + 1][..i] == ops[..i];
        var outcome;
        if Targeted(ops[i], |spaces|) {
          forall j | 0 <= j < |spaces|
            ensures fresh(spaces[j]) || exists l :: 0 <= l < |old(spaces)| && old(spaces)[l] == spaces[j] {
            assert spaces[j] in spaces;
          }
          outcome := Apply(ops[i]);
          ModelsMatch();
        } else {
          outcome := Failed(InvalidAddress);
        }
        outcomes := outcomes + [outcome];
        assert outcomes[..i] == outcomes[..|outcomes| - 1];
        i := i + 1;
      }
      assert ops[..i] == ops;
    }
  }

  /** `after` is what the operations make of `before` with these answers, each
      one permitted where it was given. An operation on a space that does not
      exist is skipped. */
  ghost predicate Replayed(before: seq<Pages>, ops: seq<Op>, outcomes: seq<Outcome>, after: seq<Pages>) {
    |ops| == |outcomes| &&
    if ops == [] then after == before
    else
      var n := |ops| - 1;
      exists middle :: Replayed(before, ops[..n], outcomes[..n], middle) && OneStep(middle, ops[n], outcomes[n], after)
  }

  ghost predicate OneStep(models: seq<Pages>, op: Op, outcome: Outcome, after: seq<Pages>) {
    if Targeted(op, |models|) then Permitted(models, op, outcome) && after == Step(models, op, outcome)
    else after == models
  }

  /** The final pages are a function of the answers. */
  lemma {:induction false} ReplayedUnique(before: seq<Pages>, ops: seq<Op>, outcomes: seq<Outcome>, a: seq<Pages>,
                                          b: seq<Pages>)
    requires Replayed(before, ops, outcomes, a) && Replayed(before, ops, outcomes, b)
    ensures a == b
    decreases |ops|
  {
    hide Step, Permitted;
    if ops != [] {
      var n := |ops| - 1;
      var x :| Replayed(before, ops[..n], outcomes[..n], x) && OneStep(x, ops[n], outcomes[n], a);
      var y :| Replayed(before, ops[..n], outcomes[..n], y) && OneStep(y, ops[n], outcomes[n], b);
      ReplayedUnique(before, ops[..n], outcomes[..n], x, y);
    }
  }

  /** An operation aimed at one space changes no other space's pages. */
  lemma StepIsolates(models: seq<Pages>, op: Op, outcome: Outcome, j: nat)
    requires Targeted(op, |models|) && j < |models| && (op.New? || op.Fork? || op.k != j)
    ensures j < |Step(models, op, outcome)|
    ensures Step(models, op, outcome)[j] == if op == Fork(j) && !outcome.Failed? then models[j].(lent := true)
                                           else models[j]
  {}

  /** A space nobody forked is served: protect, replace and unmap of a mapped
      page never fail, nor does map beside one; no valid page is called invalid,
      and memory only runs out for the first page of a leaf. */
  ghost predicate Served(pages: Pages, op: Op, outcome: Outcome)
    requires !op.New? && !op.Fork?
  {
    var mapped := op.vaddr in pages.user;
    (UserRangeValid(op.vaddr, PAGE_SIZE) && (op.Map? || op.Replace? ==> Addressable(op.pfn)) ==>
      match op
      case Map(_, vaddr, _, _) =>
        if mapped then outcome == Failed(AlreadyMapped)
        else outcome == Done || (outcome == Failed(OutOfMemory) && !NearMapped(pages, vaddr))
      case Protect(_, _, _) => outcome == if mapped then Done else Failed(NotMapped)
      case Replace(_, vaddr, _, _) =>
        outcome == if mapped then Returned(Frame(pages.user[vaddr].frame)) else Failed(NotMapped)
      case Unmap(_, vaddr) =>
        outcome == if mapped then Returned(Frame(pages.user[vaddr].frame)) else Failed(NotMapped))
  }

  lemma PermittedServed(models: seq<Pages>, op: Op, outcome: Outcome)
    requires Targeted(op, |models|) && !op.New? && !op.Fork? && !models[op.k].lent
    requires Permitted(models, op, outcome)
    ensures Served(models[op.k], op, outcome)
  {
    hide UserRangeValid, Addressable, Frame;
    var pages, vaddr := models[op.k], op.vaddr;
    if op.Map? && vaddr in pages.user && UserRangeValid(vaddr, PAGE_SIZE) { assert NearMapped(pages, vaddr); }
  }

  /** A space that is not forked in a run is not lent in it. */
  lemma {:induction false} NeverLent(before: seq<Pages>, ops: seq<Op>, outcomes: seq<Outcome>, after: seq<Pages>,
                                     k: nat)
    requires Replayed(before, ops, outcomes, after) && k < |before| && !before[k].lent && Fork(k) !in ops
    ensures k < |after| && !after[k].lent
    decreases |ops|
  {
    hide Permitted;
    if ops != [] {
      var n := |ops| - 1;
      var middle :| Replayed(before, ops[..n], outcomes[..n], middle) && OneStep(middle, ops[n], outcomes[n], after);
      NeverLent(before, ops[..n], outcomes[..n], middle, k);
      assert ops[n] in ops;
      if Targeted(ops[n], |middle|) { StepKeepsOwn(middle, ops[n], outcomes[n], k); }
    }
  }

  lemma StepKeepsOwn(models: seq<Pages>, op: Op, outcome: Outcome, k: nat)
    requires Targeted(op, |models|) && k < |models| && op != Fork(k)
    ensures k < |Step(models, op, outcome)| && Step(models, op, outcome)[k].lent == models[k].lent
  {}

  /** So in a run that does not fork it, a space is served by every operation,
      whatever the others do. */
  lemma RunServes(before: seq<Pages>, ops: seq<Op>, outcomes: seq<Outcome>, after: seq<Pages>, n: nat)
    requires Replayed(before, ops, outcomes, after) && n < |ops| && !ops[n].New? && !ops[n].Fork?
    requires ops[n].k < |before| && !before[ops[n].k].lent && Fork(ops[n].k) !in ops[..n]
    ensures exists middle ::
              && Replayed(before, ops[..n], outcomes[..n], middle) && ops[n].k < |middle|
              && Served(middle[ops[n].k], ops[n], outcomes[n])
  {
    hide Permitted, Step, Served;
    var middle, next := ReplayedAt(before, ops, outcomes, after, n);
    NeverLent(before, ops[..n], outcomes[..n], middle, ops[n].k);
    PermittedServed(middle, ops[n], outcomes[n]);
  }

  ghost predicate NoneLent(models: seq<Pages>) {
    forall k :: 0 <= k < |models| ==> !models[k].lent
  }

  lemma {:induction false} NoForkNoneLent(before: seq<Pages>, ops: seq<Op>, outcomes: seq<Outcome>, after: seq<Pages>)
    requires Replayed(before, ops, outcomes, after) && NoneLent(before) && forall op :: op in ops ==> !op.Fork?
    ensures NoneLent(after)
    decreases |ops|
  {
    hide Permitted, Step, NoneLent;
    if ops != [] {
      var n := |ops| - 1;
      var middle :| Replayed(before, ops[..n], outcomes[..n], middle) && OneStep(middle, ops[n], outcomes[n], after);
      NoForkNoneLent(before, ops[..n], outcomes[..n], middle);
      assert ops[n] in ops;
      if Targeted(ops[n], |middle|) { StepNoneLent(middle, ops[n], outcomes[n]); }
    }
  }

  lemma StepNoneLent(models: seq<Pages>, op: Op, outcome: Outcome)
    requires Targeted(op, |models|) && !op.Fork? && NoneLent(models)
    ensures NoneLent(Step(models, op, outcome))
  {}

  /** And in a run without forks every space is, those made on the way included. */
  lemma NoForkServes(before: seq<Pages>, ops: seq<Op>, outcomes: seq<Outcome>, after: seq<Pages>, n: nat)
    requires Replayed(before, ops, outcomes, after) && NoneLent(before) && n < |ops| && !ops[n].New?
    requires forall op :: op in ops[..n + 1] ==> !op.Fork?
    ensures !ops[n].Fork?
    ensures exists middle ::
              && Replayed(before, ops[..n], outcomes[..n], middle)
              && (ops[n].k < |middle| ==> Served(middle[ops[n].k], ops[n], outcomes[n]))
  {
    hide Permitted, Step, Served;
    assert ops[n] == ops[..n + 1][n] && ops[..n] == ops[..n + 1][..n];
    var middle, next := ReplayedAt(before, ops, outcomes, after, n);
    NoForkNoneLent(before, ops[..n], outcomes[..n], middle);
    if ops[n].k < |middle| { PermittedServed(middle, ops[n], outcomes[n]); }
  }

  /** The pages before and after one operation of a run. */
  lemma {:induction false} ReplayedAt(before: seq<Pages>, ops: seq<Op>, outcomes: seq<Outcome>, after: seq<Pages>,
                                      n: nat)
    returns (middle: seq<Pages>, next: seq<Pages>)
    requires Replayed(before, ops, outcomes, after) && n < |ops|
    ensures Replayed(before, ops[..n], outcomes[..n], middle) && OneStep(middle, ops[n], outcomes[n], next)
    decreases |ops|
  {
    hide OneStep;
    var l := |ops| - 1;
    var m :| Replayed(before, ops[..l], outcomes[..l], m) && OneStep(m, ops[l], outcomes[l], after);
    if n == l {
      middle, next := m, after;
    } else {
      middle, next := ReplayedAt(before, ops[..l], outcomes[..l], m, n);
      assert ops[..l][..n] == ops[..n] && outcomes[..l][..n] == outcomes[..n];
    }
  }

  lemma ShowsNothing(m: Memory, root: Pfn)
    requires forall ix :: Within(ix) ==> View(m, root, ix) == ZERO
    ensures Shows(m, root, Nothing())
  {
    hide View;
  }

  lemma ForkKept(m: Memory, n: Memory, values: seq<Space>, models: seq<Pages>, k: nat)
    requires k < |values| == |models| && SameViews(m, n, values)
    requires forall j :: 0 <= j < |values| && j != k ==> KeepsPrivate(m, n, values[j].root)
    ensures forall j :: 0 <= j < |values| ==>
              Kept(m, n, values[j].root, models[j], models[k := models[k].(lent := true)][j])
  {
    hide KeepsPrivate, SameView;
  }

  lemma AddedPrivate(m: Memory, values: seq<Space>, c: Pfn)
    requires Inv(m, values) && c !in m.pages
    ensures AllPrivate(Add(m, c, 0, ZeroTable()), c)
    ensures forall j :: 0 <= j < |values| ==> KeepsPrivate(m, Add(m, c, 0, ZeroTable()), values[j].root)
  {
    hide Core, Lists, KeepsPrivate, Add, PrivateSoFar;
    AllKeepAdd(m, values, c, 0);
  }

  lemma ShowsCloned(m: Memory, n: Memory, parent: Pfn, child: Pfn, pages: Pages)
    requires Shows(m, parent, pages) && forall ix :: Within(ix) ==> View(n, child, ix) == View(m, parent, ix)
    ensures Shows(n, child, pages.(lent := true))
  {
    hide View, Expected;
    LentExpected(pages);
  }

  lemma RefusedDeclined(space: AddressSpace, m: Memory, s: Space, pages: Pages, vaddr: nat, error: Error)
    requires !UserRangeValid(vaddr, PAGE_SIZE) ==> error == InvalidAddress
    requires UserRangeValid(vaddr, PAGE_SIZE) ==> vaddr < 0x80_0000_0000 && space.Refused(error, m, s, IndexOf(vaddr))
    requires UserRangeValid(vaddr, PAGE_SIZE) && vaddr in pages.user ==> IsTable(View(m, s.root, IndexOf(vaddr)))
    requires pages.lent || AllPrivate(m, s.root)
    ensures Declined(pages, vaddr, Failed(error))
  {
    hide View, Stuck, PrivateSoFar;
    if UserRangeValid(vaddr, PAGE_SIZE) {
      UserPageIndex(vaddr);
      NotStuck(m, s, IndexOf(vaddr));
    }
  }

  /** Beside a mapped page the leaf is there, and private if the space is. */
  lemma NearPrivate(m: Memory, root: Pfn, pages: Pages, vaddr: nat)
    requires Shows(m, root, pages) && AllPrivate(m, root) && UserRangeValid(vaddr, PAGE_SIZE)
             && NearMapped(pages, vaddr)
    ensures vaddr < 0x80_0000_0000 && PrivatePath(m, root, IndexOf(vaddr))
  {
    hide View, Shows, PrivateSoFar;
    var other :| other in pages.user && UserRangeValid(other, PAGE_SIZE) && other / 0x20_0000 == vaddr / 0x20_0000;
    UserPageIndex(vaddr);
    UserPageIndex(other);
    ShowsAt(m, root, pages, other);
    PrivateSoFarReaches(m, root, IndexOf(other));
    PrivateSoFarReaches(m, root, IndexOf(vaddr));
    SameLeaf(m, root, other, vaddr);
  }

  lemma SameLeaf(m: Memory, root: Pfn, a: nat, b: nat)
    requires a < 0x80_0000_0000 && b < 0x80_0000_0000 && a / 0x20_0000 == b / 0x20_0000
    ensures Reaches(m, root, IndexOf(a)) == Reaches(m, root, IndexOf(b))
  {
    Divided(a);
    Divided(b);
  }

  lemma MapPermitted(m: Memory, s: Space, models: seq<Pages>, k: nat, vaddr: nat, pfn: Pfn, protection: Protection,
                     r: Result<()>)
    requires k < |models| && Shows(m, s.root, models[k]) && (models[k].lent || AllPrivate(m, s.root))
    requires !UserRangeValid(vaddr, PAGE_SIZE) ==> r == Err(InvalidAddress)
    requires r.Err? ==> MapRefused(r.error, m, s, vaddr, pfn)
    requires UserRangeValid(vaddr, PAGE_SIZE) && r == Err(OutOfMemory) ==>
               vaddr < 0x80_0000_0000 && !PrivatePath(m, s.root, IndexOf(vaddr))
    requires r.Ok? ==> MapAllowed(m, s, vaddr, pfn)
    ensures Permitted(models, Map(k, vaddr, pfn, protection), if r.Err? then Failed(r.error) else Done)
    ensures r.Ok? ==> UserRangeValid(vaddr, PAGE_SIZE) && vaddr < 0x80_0000_0000
  {
    hide Stuck, Shows, View, UserRangeValid, Addressable, Frame, Encoded, PrivatePath, PrivateSoFar, NearMapped;
    if UserRangeValid(vaddr, PAGE_SIZE) {
      ShowsAt(m, s.root, models[k], vaddr);
      UserPageIndex(vaddr);
      NotStuck(m, s, IndexOf(vaddr));
      if !models[k].lent && NearMapped(models[k], vaddr) { NearPrivate(m, s.root, models[k], vaddr); }
    }
  }
}

/** Virtual addresses of the 39-bit AArch64 user address space. */
module VirtualAddress {
  import opened Options
  import opened TableMemory

  const PAGE_SIZE: nat := 0x1000
  const USER_BASE: nat := 0x1000_0000
  const USER_LIMIT: nat := 0x2000_0000
  const USIZE_LIMIT: nat := 0x1_0000_0000_0000_0000

  /** The three nine-bit table indices of a 39-bit address. */
  function TableIndices(vaddr: nat): (r: Option<Index>)
    ensures r.Some? <==> vaddr < 0x80_0000_0000
    ensures r.Some? ==> Within(r.value)
  {
    if vaddr >= 0x80_0000_0000 then None
    else Some(Index(vaddr / 0x4000_0000 % ENTRIES, vaddr / 0x20_0000 % ENTRIES, vaddr / PAGE_SIZE % ENTRIES))
  }

  predicate UserRangeValid(start: nat, len: nat) {
    && start % PAGE_SIZE == 0 && len != 0 && len % PAGE_SIZE == 0 && start >= USER_BASE
    && start + len < USIZE_LIMIT && start + len <= USER_LIMIT
  }

  /** The index of a user page address. */
  function IndexOf(vaddr: nat): Index
    requires vaddr < 0x80_0000_0000
  {
    TableIndices(vaddr).value
  }

  /** Two page addresses with the same indices are the same page. */
  lemma IndicesInjective(a: nat, b: nat)
    requires a < 0x80_0000_0000 && b < 0x80_0000_0000 && a % PAGE_SIZE == 0 && b % PAGE_SIZE == 0
    requires IndexOf(a) == IndexOf(b)
    ensures a == b
  {
    Recompose(a);
    Recompose(b);
  }

  lemma Recompose(a: nat)
    requires a < 0x80_0000_0000
    ensures a == IndexOf(a).i0 * 0x4000_0000 + IndexOf(a).i1 * 0x20_0000 + IndexOf(a).i2 * PAGE_SIZE + a % PAGE_SIZE
  {
    var page, block, giga := a / 0x1000, a / 0x20_0000, a / 0x4000_0000;
    Divided(a);
    assert page == block * 512 + page % 512;
    assert block == giga * 512 + block % 512;
  }

  lemma Divided(a: nat)
    ensures a / 0x20_0000 == a / 0x1000 / 512 && a / 0x4000_0000 == a / 0x20_0000 / 512
  {}

  /** User addresses lie in slot 0 of the root and slots 128..255 of its level-one table. */
  lemma UserIndices(vaddr: nat)
    requires USER_BASE <= vaddr < USER_LIMIT
    ensures IndexOf(vaddr).i0 == 0 && 128 <= IndexOf(vaddr).i1 < 256
  {}
}

/** The table store behind the address spaces: the contract of
    `Aarch64AddressSpaceBackend` with its reference-counting test double. */
module TableBackend {
  import opened Descriptors
  import opened TableMemory
  import opened TableSteps

  /** How many frames of the supply can be handed out in a row: frames that are
      in no use, different from each other, and that a descriptor can name. */
  ghost function StockOf(supply: seq<Pfn>, used: set<Pfn>): nat {
    if supply == [] || supply[0] in used || !FitsFrame(supply[0]) then 0
    else 1 + StockOf(supply[1..], used + {supply[0]})
  }

  /** Tables that are given back only add to the stock. */
  lemma {:induction false} StockLess(supply: seq<Pfn>, used: set<Pfn>, less: set<Pfn>)
    requires less <= used
    ensures StockOf(supply, used) <= StockOf(supply, less)
  {
    if supply != [] { StockLess(supply[1..], used + {supply[0]}, less + {supply[0]}); }
  }

  datatype Error = OutOfMemory | InvalidAddress | AlreadyMapped | NotMapped | PermissionDenied
  datatype Result<+T> = Ok(value: T) | Err(error: Error)

  class Backend {
    var pages: map<Pfn, seq<Descriptor>>
    var refs: map<Pfn, nat>
    ghost var level: map<Pfn, nat>

    /** The frames still to be handed out, in order. */
    var supply: seq<Pfn>
    /** Whether growing a vector always succeeds. */
    const roomy: bool

    ghost function Mem(): Memory
      reads this`pages, this`refs, this`level
    {
      Memory(pages, refs, level)
    }

    ghost function Stock(): nat
      reads this`pages, this`supply
    {
      StockOf(supply, pages.Keys)
    }

    /** At most `n` frames were taken from a stock of `was`. */
    ghost predicate Spent(was: nat, n: nat)
      reads this`pages, this`supply
    {
      Stock() + n >= was
    }

    /** A stock of `was` is too small for `n` frames, or a vector cannot grow. */
    ghost predicate Starved(was: nat, n: nat)
    {
      was < n || !roomy
    }

    /** What an operation that needs at most `n` frames makes of a stock of `was`;
        only if that is too small, or a vector cannot grow, does it run out. */
    ghost predicate Drew(was: nat, n: nat, out: bool)
      reads this`pages, this`supply
    {
      Spent(was, n) && (out ==> Starved(was, n))
    }

    /** Hands out the next frame of the supply, as an empty table with one
        reference. A frame in use, or one no table descriptor can name, is none. */
    method AllocateTable(ghost tableLevel: nat) returns (r: Result<Pfn>)
      modifies this
      ensures r.Ok? <==> old(Stock()) > 0
      ensures r.Ok? ==> old(supply) == [r.value] + supply && r.value !in old(pages) && FitsFrame(r.value)
      ensures r.Ok? ==> Mem() == Add(old(Mem()), r.value, tableLevel, ZeroTable())
      ensures r.Err? ==> r.error == OutOfMemory && Mem() == old(Mem())
      ensures Spent(old(Stock()), 1)
    {
      if supply == [] {
        return Err(OutOfMemory);
      }
      var pfn := supply[0];
      if pfn in pages || !FitsFrame(pfn) {
        supply := supply[1..];
        return Err(OutOfMemory);
      }
      supply := supply[1..];
      pages := pages[pfn := seq(ENTRIES, _ => ZERO)];
      refs := refs[pfn := 1];
      level := level[pfn := tableLevel];
      assert pages[pfn] == ZeroTable();
      assert pages.Keys == old(pages.Keys) + {pfn};
      return Ok(pfn);
    }

    /** One more reference to a live table. */
    method RetainTable(pfn: Pfn) returns (ok: bool)
      modifies this`pages, this`refs, this`level
      ensures ok == (pfn in old(refs)) && Mem() == if ok then Retain(old(Mem()), pfn) else old(Mem())
    {
      if pfn !in refs {
        return false;
      }
      refs := refs[pfn := refs[pfn] + 1];
      ok := true;
    }

    /** One reference less; the last one takes the table with it. */
    method ReleaseTable(pfn: Pfn)
      modifies this`pages, this`refs, this`level
      ensures Mem() == Release(old(Mem()), pfn)
    {
      if pfn !in refs {
        return;
      }
      if refs[pfn] > 1 {
        refs := refs[pfn := refs[pfn] - 1];
        return;
      }
      refs := refs - {pfn};
      pages := pages - {pfn};
      level := level - {pfn};
    }

    predicate TableIsShared(pfn: Pfn)
      reads this
    {
      pfn in refs && refs[pfn] > 1
    }

    function ReadTableEntry(pfn: Pfn, index: nat): Descriptor
      requires pfn in pages && index < |pages[pfn]|
      reads this
    {
      pages[pfn][index]
    }

    method WriteTableEntry(pfn: Pfn, index: nat, descriptor: Descriptor) returns (ok: bool)
      modifies this`pages, this`refs, this`level
      ensures ok == (pfn in old(pages) && index < |old(pages)[pfn]|) && Mem() == Put(old(Mem()), pfn, index, descriptor)
    {
      ok := pfn in pages && index < |pages[pfn]|;
      if ok {
        pages := pages[pfn := pages[pfn][index := descriptor]];
      }
    }

    /** Copies all entries of one table into another, if both are live. */
    method CopyTableWithin(source: Pfn, destination: Pfn) returns (ok: bool)
      requires source in pages ==> |pages[source]| == ENTRIES
      requires destination in pages ==> |pages[destination]| == ENTRIES
      modifies this`pages, this`refs, this`level
      ensures ok == (source in old(pages) && destination in old(pages))
      ensures Mem() == if ok then old(Mem()).(pages := old(pages)[destination := old(pages)[source]]) else old(Mem())
    {
      ok := false;
      if source !in pages || destination !in pages {
        return;
      }
      var entries := pages[source];
      ghost var row := pages[destination];
      assert pages == pages[destination := row];
      var index := 0;
      while index < ENTRIES
        invariant 0 <= index <= ENTRIES && |row| == ENTRIES
        invariant refs == old(refs) && level == old(level)
        invariant pages == old(pages)[destination := row]
        invariant forall j :: 0 <= j < index ==> row[j] == entries[j]
      {
        pages := pages[destination := pages[destination][index := entries[index]]];
        row := row[index := entries[index]];
        index := index + 1;
      }
      assert row == entries;
      ok := true;
    }

    /** Growing a Rust vector may fail. */
    method TryReserve() returns (ok: bool)
      ensures roomy ==> ok
    {
      ok := *;
      ok := ok || roomy;
    }
  }
}

/** A translation cache that holds every nonzero descriptor as soon as it can
    be seen, and drops an address only when that address is broken. */
module TranslationCache {
  import opened Descriptors
  import opened TableMemory
  import opened TableSteps

  type Cache = set<(Index, Descriptor)>

  /** What is cached is exactly what the tables say. */
  ghost predicate Agrees(cache: Cache, m: Memory, root: Pfn) {
    forall e :: e in cache <==> Within(e.0) && e.1 != ZERO && View(m, root, e.0) == e.1
  }

  /** Nothing is cached for `ix`. */
  ghost predicate Broken(cache: Cache, ix: Index) {
    forall e :: e in cache ==> e.0 != ix
  }

  ghost function Filled(cache: Cache, ix: Index, d: Descriptor): Cache {
    if d == ZERO then cache else cache + {(ix, d)}
  }

  ghost function Break(cache: Cache, ix: Index): Cache {
    set e | e in cache && e.0 != ix
  }

  lemma SameAgrees(cache: Cache, m: Memory, n: Memory, root: Pfn)
    requires Agrees(cache, m, root) && SameView(m, n, root)
    ensures Agrees(cache, n, root)
  {
    hide View;
  }

  lemma UnmappedBroken(cache: Cache, m: Memory, root: Pfn, ix: Index)
    requires Agrees(cache, m, root) && View(m, root, ix) == ZERO
    ensures Broken(cache, ix)
  {
    hide View;
  }

  lemma MakeAgrees(cache: Cache, m: Memory, n: Memory, root: Pfn, ix: Index, d: Descriptor)
    requires Agrees(cache, m, root) && ViewSet(m, n, root, ix, d) && View(m, root, ix) == ZERO && Within(ix)
    ensures Agrees(Filled(cache, ix, d), n, root)
  {
    hide View;
  }

  /** Zeroing an entry and breaking its address restores agreement. */
  lemma BreakAgrees(cache: Cache, m: Memory, n: Memory, root: Pfn, ix: Index)
    requires Agrees(cache, m, root) && ViewSet(m, n, root, ix, ZERO)
    ensures Agrees(Break(cache, ix), n, root) && Broken(Break(cache, ix), ix)
  {
    hide View;
  }

  lemma CacheAfterBreak(cache: Cache, m: Memory, n: Memory, spaces: seq<Space>, k: nat, ix: Index)
    requires k < |spaces| && Agrees(cache, m, spaces[k].root) && OnlyViewSet(m, n, spaces, k, ix, ZERO)
    ensures Agrees(Break(cache, ix), n, spaces[k].root) && Broken(Break(cache, ix), ix)
  {
    BreakAgrees(cache, m, n, spaces[k].root, ix);
  }

  lemma CacheAfterMake(after: Cache, cache: Cache, m: Memory, n: Memory, spaces: seq<Space>, k: nat, ix: Index,
                       d: Descriptor)
    requires k < |spaces| && Agrees(cache, m, spaces[k].root) && OnlyViewSet(m, n, spaces, k, ix, d)
    requires Broken(cache, ix) && Within(ix) && after == Filled(cache, ix, d)
    ensures Agrees(after, n, spaces[k].root)
  {
    assert (ix, View(m, spaces[k].root, ix)) !in cache;
    MakeAgrees(cache, m, n, spaces[k].root, ix, d);
  }
}

module AddressSpaces {
  import opened Options
  import opened TranslationCache
  import opened Descriptors
  import opened TableMemory
  import opened TableSteps
  import opened TableBackend
  import opened Transactions
  import opened VirtualAddress

  class AddressSpace {
    const rootPfn: Pfn
    var tablePfns: seq<Pfn>
    const backend: Backend
    ghost var cache: Cache

    /** The cache agrees with the tables. */
    ghost predicate Coherent()
      reads this, backend
    {
      Agrees(cache, backend.Mem(), rootPfn)
    }

    ghost function Value(): Space
      reads this
    {
      Space(rootPfn, tablePfns)
    }

    /** This space is the `k`th of the live ones. */
    ghost predicate Live(spaces: seq<Space>, k: nat)
      reads this, backend
    {
      k < |spaces| && spaces[k] == Value() && Inv(backend.Mem(), spaces)
    }

    constructor Init(backend: Backend, rootPfn: Pfn)
      ensures this.backend == backend && Value() == Space(rootPfn, [rootPfn]) && cache == {}
    {
      this.rootPfn := rootPfn;
      this.tablePfns := [rootPfn];
      this.backend := backend;
      this.cache := {};
    }

    /** A new space joins the live ones. */
    static method Create(backend: Backend, ghost spaces: seq<Space>)
      returns (error: Option<Error>, space: AddressSpace?)
      requires Inv(backend.Mem(), spaces)
      modifies backend
      ensures error.Some? <==> space == null
      ensures backend.Drew(old(backend.Stock()), 1, error.Some?)
      ensures error.Some? ==> error.value == OutOfMemory && backend.Mem() == old(backend.Mem())
      ensures space != null ==> fresh(space) && space.backend == backend && space.tablePfns == [space.rootPfn]
      ensures space != null ==>
              space.rootPfn !in old(backend.pages)
              && backend.Mem() == Add(old(backend.Mem()), space.rootPfn, 0, ZeroTable())
      ensures space != null ==> Inv(backend.Mem(), spaces + [space.Value()])
      ensures space != null ==> SameViews(old(backend.Mem()), backend.Mem(), spaces)
      ensures space != null ==> space.Coherent() && forall ix :: Within(ix) ==>
              View(backend.Mem(), space.rootPfn, ix) == ZERO
    {
      hide Inv, View, Add;
      var reserved := backend.TryReserve();
      if !reserved {
        return Some(OutOfMemory), null;
      }
      var root := backend.AllocateTable(0);
      if root.Err? {
        return Some(root.error), null;
      }
      space := new AddressSpace.Init(backend, root.value);
      NewKeeps(old(backend.Mem()), spaces, root.value);
      error := None;
    }

    /** Gives back the copy and every reference taken for it: nothing changed. */
    method RollbackDetachedTable(destination: Pfn, retainedStart: nat, ghost m: Memory, ghost level: nat,
                                 ghost t: seq<Descriptor>)
      requires Shape(m)
      requires destination !in m.pages && retainedStart <= |tablePfns|
      requires forall p :: p in tablePfns[retainedStart..] ==> p in m.refs
      requires Retained(Add(m, destination, level, t), backend.Mem(), tablePfns[retainedStart..])
      modifies this`tablePfns, backend`pages, backend`refs, backend`level
      ensures backend.Mem() == m && tablePfns == old(tablePfns)[..retainedStart]
    {
      hide Retained, Release, Add;
      RetainedDrop(m, backend.Mem(), tablePfns[retainedStart..], destination, level, t);
      backend.ReleaseTable(destination);
      while |tablePfns| > retainedStart
        invariant retainedStart <= |tablePfns| <= |old(tablePfns)| && tablePfns == old(tablePfns)[..|tablePfns|]
        invariant Retained(m, backend.Mem(), tablePfns[retainedStart..])
      {
        ghost var extra := tablePfns[retainedStart..];
        var pfn := tablePfns[|tablePfns| - 1];
        assert extra[|extra| - 1] == pfn && pfn in old(tablePfns)[retainedStart..];
        RetainedPop(m, backend.Mem(), extra);
        tablePfns := tablePfns[..|tablePfns| - 1];
        assert tablePfns[retainedStart..] == extra[..|extra| - 1];
        backend.ReleaseTable(pfn);
      }
      assert tablePfns[retainedStart..] == [];
      RetainedNone(m, backend.Mem());
    }

    /** The first place of `pfn` in the list. */
    method Position(pfn: Pfn) returns (r: Option<nat>)
      ensures r.Some? ==> r.value < |tablePfns| && tablePfns[r.value] == pfn && pfn !in tablePfns[..r.value]
      ensures r.None? ==> pfn !in tablePfns
    {
      var i := 0;
      while i < |tablePfns|
        invariant 0 <= i <= |tablePfns| && pfn !in tablePfns[..i]
      {
        if tablePfns[i] == pfn {
          return Some(i);
        }
        i := i + 1;
      }
      return None;
    }

    /** Takes a reference to every leaf table a copied level-one table names, or
        gives everything back. */
    method RetainChildren(copy: Pfn, ghost m: Memory, ghost source: Pfn) returns (failure: Option<Error>)
      requires Shape(m) && Typed(m) && source in m.pages && Level(m, source) == 1 && copy !in m.pages
      requires backend.Mem() == Add(m, copy, 1, m.pages[source])
      modifies this`tablePfns, backend`pages, backend`refs, backend`level
      ensures failure.None? ==> tablePfns == old(tablePfns) + DetachExtra(m, source)
      ensures failure.None? ==> Retained(Add(m, copy, 1, m.pages[source]), backend.Mem(), DetachExtra(m, source))
      ensures failure.Some? ==> failure.value == OutOfMemory && backend.Mem() == m && tablePfns == old(tablePfns)
      ensures failure.Some? ==> !backend.roomy
    {
      hide Typed, IsTable, Targets, Retained, Retain, Release, Shape, Add, Level;
      var retainedStart := |tablePfns|;
      ghost var row, base := m.pages[source], Add(m, copy, 1, m.pages[source]);
      ShapeAt(m, source);
      AddKeeps(m, copy, 1, row, source);
      RetainedNone(base, backend.Mem());
      assert row[..0] == [];
      TargetsEmpty();
      assert tablePfns == tablePfns + [];
      var index := 0;
      while index < ENTRIES
        invariant 0 <= index <= ENTRIES
        invariant tablePfns == old(tablePfns) + Targets(row[..index])
        invariant Retained(base, backend.Mem(), Targets(row[..index]))
      {
        RetainedPages(base, backend.Mem(), Targets(row[..index]));
        TargetsPrefix(row, index);
        var descriptor := backend.ReadTableEntry(copy, index);
        if IsTable(descriptor) {
          var child := descriptor.pfn;
          TargetsLive(m, source, index);
          AddKeeps(m, copy, 1, row, child);
          ghost var held := backend.Mem();
          RetainedPush(base, held, Targets(row[..index]), child);
          var retained := backend.RetainTable(child);
          var reserved := backend.TryReserve();
          if !reserved {
            RetainRelease(held, child);
            RetainedKeeps(base, backend.Mem(), Targets(row[..index]) + [child], child);
            backend.ReleaseTable(child);
            PrefixLive(m, source, index);
            assert tablePfns[retainedStart..] == Targets(row[..index]);
            RollbackDetachedTable(copy, retainedStart, m, 1, row);
            return Some(OutOfMemory);
          }
          tablePfns := tablePfns + [child];
        }
        index := index + 1;
      }
      assert row[..ENTRIES] == row;
      assert DetachExtra(m, source) == Targets(row);
      failure := None;
    }

    /** Points the parent at the copy and hands the shared table's reference back. */
    method CommitDetach(parent: Pfn, parentIndex: nat, source: Pfn, copy: Pfn, position: nat,
                        ghost m: Memory, ghost spaces: seq<Space>, ghost k: nat)
      requires Inv(m, spaces) && k < |spaces| && (parent == spaces[k].root || Level(m, parent) == 1)
      requires parent in m.pages && parentIndex < ENTRIES && Names(m, parent, parentIndex, source)
               && RefsOf(m, source) > 1
      requires copy !in m.pages && FitsFrame(copy) && source in m.pages
      requires Retained(Add(m, copy, Level(m, source), m.pages[source]), backend.Mem(), DetachExtra(m, source))
      requires rootPfn == spaces[k].root && tablePfns == spaces[k].pfns + DetachExtra(m, source)
      requires position < |tablePfns| && tablePfns[position] == source
      modifies this`tablePfns, backend`pages, backend`refs, backend`level
      ensures Live(spaces[k := Value()], k) && SameViews(m, backend.Mem(), spaces)
      ensures DetachStep(m, backend.Mem(), parent, parentIndex, source, copy, TableDescriptor(copy))
      ensures DetachList(m, spaces[k].pfns, tablePfns, source, copy)
    {
      hide Inv, Names, DetachStep, FitsFrame, TableDescriptor, DetachExtra, SameViews, Entry, Level, Add, Put, Release,
        Retained, SwapRemove, DetachList;
      ghost var held, extra, copied := backend.Mem(), DetachExtra(m, source),
        Add(m, copy, Level(m, source), m.pages[source]);
      InvParts(m, spaces, k);
      ShapeAt(m, parent);
      AddKeeps(m, copy, Level(m, source), m.pages[source], source);
      AddKeeps(m, copy, Level(m, source), m.pages[source], parent);
      RetainedKeeps(copied, held, extra, source);
      RetainedKeeps(copied, held, extra, parent);
      PutKeepsRefs(held, parent, parentIndex, TableDescriptor(copy));
      var written := backend.WriteTableEntry(parent, parentIndex, TableDescriptor(copy));
      SwapRemoveIs(tablePfns, position);
      tablePfns := tablePfns[position := tablePfns[|tablePfns| - 1]][..|tablePfns| - 1];
      backend.ReleaseTable(source);
      tablePfns := tablePfns + [copy];
      Detached(m, held, backend.Mem(), spaces, k, parent, parentIndex, source, copy, position, tablePfns);
    }

    /** Puts a copy in the place of a shared table: the children it names are
        retained, the list follows. A failure gives the copy back. */
    method ReplaceByCopy(parent: Pfn, parentIndex: nat, source: Pfn, copy: Pfn, tableLevel: nat, ghost m: Memory,
                         ghost spaces: seq<Space>, ghost k: nat)
      returns (r: Result<Pfn>)
      requires Inv(m, spaces) && k < |spaces| && Value() == spaces[k] && parent in m.pages && parentIndex < ENTRIES
               && Names(m, parent, parentIndex, source) && RefsOf(m, source) > 1 && source in m.pages
      requires (tableLevel == 1 && parent == rootPfn && source in tablePfns)
               || (tableLevel == 2 && Level(m, parent) == 1)
      requires copy !in m.pages && FitsFrame(copy) && Level(m, source) == tableLevel
      requires backend.Mem() == Add(m, copy, tableLevel, m.pages[source])
      modifies this`tablePfns, backend`pages, backend`refs, backend`level
      ensures Live(spaces[k := Value()], k) && SameViews(m, backend.Mem(), spaces)
      ensures r.Err? ==> backend.Mem() == m && tablePfns == old(tablePfns)
      ensures r.Err? ==>
                (r.error == OutOfMemory && !backend.roomy)
                || (r.error == InvalidAddress && tableLevel == 2 && source !in old(tablePfns))
      ensures tableLevel == 2 && source !in old(tablePfns) ==> r.Err?
      ensures r.Ok? ==>
                && r.value == copy
                && DetachStep(m, backend.Mem(), parent, parentIndex, source, copy, TableDescriptor(copy))
                && DetachList(m, old(tablePfns), tablePfns, source, copy) && backend.pages.Keys == m.pages.Keys + {copy}
      ensures AllKeepPrivate(m, backend.Mem(), spaces)
    {
      hide Inv, Core, Lists, Shape, Typed, Names, DetachStep, FitsFrame, TableDescriptor, DetachExtra, SameViews,
        Entry, Level, Add, Put, Release, Retained, SwapRemove, OwnsLevelOne, DetachList, AllKeepPrivate;
      ghost var before, row := tablePfns, m.pages[source];
      InvParts(m, spaces, k);
      SameViewsRefl(m, spaces);
      AllKeepRefl(m, spaces);
      assert spaces[k := Value()] == spaces;
      ShapeAt(m, source);
      var retainedStart := |tablePfns|;
      if tableLevel == 1 {
        var failure := RetainChildren(copy, m, source);
        if failure.Some? {
          return Err(failure.value);
        }
      } else {
        ExtraLevelTwo(m, source);
        assert tablePfns == before + [];
        RetainedNone(Add(m, copy, tableLevel, row), backend.Mem());
      }
      var position := Position(source);
      if position.None? {
        ExtraLive(m, source);
        ShapeKeys(m);
        assert tablePfns[retainedStart..] == DetachExtra(m, source);
        RollbackDetachedTable(copy, retainedStart, m, tableLevel, row);
        assert tablePfns == before;
        return Err(InvalidAddress);
      }
      CommitDetach(parent, parentIndex, source, copy, position.value, m, spaces, k);
      DetachKeys(m, backend.Mem(), parent, parentIndex, source, copy, TableDescriptor(copy));
      AllKeepDetach(m, backend.Mem(), spaces, parent, parentIndex, source, copy, TableDescriptor(copy));
      r := Ok(copy);
    }

    /** Replaces a shared table by a private copy of it. Nothing any space sees
        changes; a failure changes nothing at all. */
    method DetachSharedTable(parent: Pfn, parentIndex: nat, source: Pfn, tableLevel: nat, ghost spaces: seq<Space>,
                             ghost k: nat)
      returns (r: Result<Pfn>)
      requires Live(spaces, k) && parent in backend.pages && parentIndex < ENTRIES
               && Names(backend.Mem(), parent, parentIndex, source)
      requires (tableLevel == 1 && parent == rootPfn) || (tableLevel == 2 && Level(backend.Mem(), parent) == 1)
      modifies this`tablePfns, backend
      ensures Live(spaces[k := Value()], k) && SameViews(old(backend.Mem()), backend.Mem(), spaces)
      ensures r.Err? ==> backend.Mem() == old(backend.Mem()) && tablePfns == old(tablePfns)
      ensures r.Err? ==>
              r.error == OutOfMemory || (r.error == InvalidAddress && tableLevel == 2 && source !in old(tablePfns))
      ensures RefsOf(old(backend.Mem()), source) <= 1 ==>
                r == Ok(source) && backend.Mem() == old(backend.Mem()) && tablePfns == old(tablePfns)
      ensures RefsOf(old(backend.Mem()), source) > 1 && tableLevel == 2 && source !in old(tablePfns) ==> r.Err?
      ensures RefsOf(old(backend.Mem()), source) > 1 && r.Ok? ==>
                && DetachStep(old(backend.Mem()), backend.Mem(), parent, parentIndex, source, r.value,
                  TableDescriptor(r.value))
                && DetachList(old(backend.Mem()), old(tablePfns), tablePfns, source, r.value)
      ensures AllKeepPrivate(old(backend.Mem()), backend.Mem(), spaces)
      ensures backend.Drew(old(backend.Stock()), 1, r == Err(OutOfMemory))
    {
      hide Inv, Core, Lists, Shape, Typed, Names, DetachStep, FitsFrame, TableDescriptor, DetachExtra, SameViews,
        Entry, Level, Add, Put, Release, Retained, OwnsLevelOne, DetachList, AllKeepPrivate, StockOf;
      ghost var m := backend.Mem();
      InvParts(m, spaces, k);
      SameViewsRefl(m, spaces);
      AllKeepRefl(m, spaces);
      assert spaces[k := Value()] == spaces;
      if !backend.TableIsShared(source) {
        return Ok(source);
      }
      NamedLevel(m, parent, parentIndex, source);
      ShapeAt(m, source);
      ShapeAt(m, parent);
      if tableLevel == 1 { LevelOneListed(m, spaces[k], parentIndex, source); }
      var reserved := backend.TryReserve();
      if !reserved {
        return Err(OutOfMemory);
      }
      var destination := backend.AllocateTable(tableLevel);
      if destination.Err? {
        return Err(destination.error);
      }
      var copy := destination.value;
      StockLess(backend.supply, m.pages.Keys + {copy}, m.pages.Keys);
      AddKeeps(m, copy, tableLevel, ZeroTable(), source);
      var copiedAll := backend.CopyTableWithin(source, copy);
      CopyIntoFresh(m, copy, tableLevel, m.pages[source]);
      r := ReplaceByCopy(parent, parentIndex, source, copy, tableLevel, m, spaces, k);
    }

    /** The level-two half of the walk, below a private level-one table. */
    method EnsurePrivateLeaf(ix: Index, one: Pfn, ghost spaces: seq<Space>, ghost k: nat) returns (r: Result<()>)
      requires Live(spaces, k) && Within(ix) && Names(backend.Mem(), rootPfn, ix.i0, one)
               && RefsOf(backend.Mem(), one) == 1
      modifies this`tablePfns, backend
      ensures Live(spaces[k := Value()], k) && SameViews(old(backend.Mem()), backend.Mem(), spaces)
      ensures r.Err? ==> r.error in {OutOfMemory, InvalidAddress, AlreadyMapped}
      ensures r.Ok? ==> PrivateSoFar(backend.Mem(), rootPfn, ix)
      ensures PrivateSoFar(old(backend.Mem()), rootPfn, ix) ==>
                r.Ok? && backend.Mem() == old(backend.Mem()) && tablePfns == old(tablePfns)
      ensures r == Err(AlreadyMapped) ==> Blocked(old(backend.Mem()), rootPfn, ix)
      ensures r == Err(InvalidAddress) ==> Stuck(old(backend.Mem()), old(Value()), ix)
      ensures Stuck(old(backend.Mem()), old(Value()), ix) ==> r.Err?
      ensures (backend.Mem() == old(backend.Mem()) && tablePfns == old(tablePfns))
              || LeafDetached(old(backend.Mem()), backend.Mem(), rootPfn, ix)
      ensures IsTable(Entry(old(backend.Mem()), rootPfn, ix.i0))
      ensures AllKeepPrivate(old(backend.Mem()), backend.Mem(), spaces)
      ensures backend.Drew(old(backend.Stock()), 1, r == Err(OutOfMemory))
      ensures ix.i0 == 0 ==> KeepsFree(old(backend.Mem()), old(Value()), backend.Mem(), Value())
    {
      hide Inv, DetachStep, DetachList, SameViews, Level, TableDescriptor, AllKeepPrivate, KeepsFree;
      ghost var m := backend.Mem();
      SameViewsRefl(m, spaces);
      AllKeepRefl(m, spaces);
      KeepsFreeRefl(m, Value());
      ghost var was := Value();
      assert spaces[k := Value()] == spaces;
      InvParts(m, spaces, k);
      WalkTyped(m, rootPfn, ix);
      NamesEntry(m, rootPfn, ix.i0, one);
      ShapeAt(m, one);
      var levelTwo := backend.ReadTableEntry(one, ix.i1);
      if levelTwo == ZERO {
        return Ok(());
      }
      if !IsTable(levelTwo) {
        return Err(AlreadyMapped);
      }
      ShapeAt(m, levelTwo.pfn);
      NamesFrom(m, one, ix.i1);
      var leaf := DetachSharedTable(one, ix.i1, levelTwo.pfn, 2, spaces, k);
      if leaf.Err? {
        return Err(leaf.error);
      }
      if RefsOf(m, levelTwo.pfn) > 1 {
        DetachedLeaf(m, backend.Mem(), rootPfn, ix, levelTwo.pfn, leaf.value, TableDescriptor(leaf.value));
        assert LeafDetached(m, backend.Mem(), rootPfn, ix);
        if ix.i0 == 0 {
          FreeAfterLeaf(m, backend.Mem(), was, Value(), ix.i1, levelTwo.pfn, leaf.value, TableDescriptor(leaf.value));
        }
      }
      r := Ok(());
    }

    /** Makes every table on the existing path to `vaddr` private. Nothing any
        space sees changes. */
    method EnsurePrivateExistingPath(vaddr: nat, ghost spaces: seq<Space>, ghost k: nat) returns (r: Result<()>)
      requires Live(spaces, k)
      modifies this`tablePfns, backend
      ensures Live(spaces[k := Value()], k) && SameViews(old(backend.Mem()), backend.Mem(), spaces)
      ensures vaddr >= 0x80_0000_0000 ==> r == Err(InvalidAddress)
      ensures r.Err? ==> r.error in {OutOfMemory, InvalidAddress, AlreadyMapped}
      ensures vaddr < 0x80_0000_0000 && r.Ok? ==> PrivateSoFar(backend.Mem(), rootPfn, IndexOf(vaddr))
      ensures vaddr < 0x80_0000_0000 && PrivateSoFar(old(backend.Mem()), rootPfn, IndexOf(vaddr)) ==>
                r.Ok? && backend.Mem() == old(backend.Mem()) && tablePfns == old(tablePfns)
      ensures vaddr < 0x80_0000_0000 && r == Err(AlreadyMapped) ==> Blocked(old(backend.Mem()), rootPfn, IndexOf(vaddr))
      ensures vaddr < 0x80_0000_0000 && r == Err(InvalidAddress) ==>
              Stuck(old(backend.Mem()), old(Value()), IndexOf(vaddr))
      ensures vaddr < 0x80_0000_0000 && Stuck(old(backend.Mem()), old(Value()), IndexOf(vaddr)) ==> r.Err?
      ensures vaddr < 0x80_0000_0000 && IsTable(Entry(old(backend.Mem()), rootPfn, IndexOf(vaddr).i0))
              && RefsOf(old(backend.Mem()), Entry(old(backend.Mem()), rootPfn, IndexOf(vaddr).i0).pfn) == 1 ==>
                || (backend.Mem() == old(backend.Mem()) && tablePfns == old(tablePfns))
                || LeafDetached(old(backend.Mem()), backend.Mem(), rootPfn, IndexOf(vaddr))
      ensures vaddr < 0x80_0000_0000 ==> MadePrivate(old(backend.Mem()), backend.Mem(), rootPfn, IndexOf(vaddr))
      ensures vaddr < 0x80_0000_0000 && r.Ok? ==> LeftBehind(old(backend.Mem()), backend.Mem(), rootPfn, IndexOf(vaddr))
      ensures AllKeepPrivate(old(backend.Mem()), backend.Mem(), spaces)
      ensures backend.Drew(old(backend.Stock()), 2, r == Err(OutOfMemory))
      ensures vaddr < 0x80_0000_0000 && IndexOf(vaddr).i0 == 0 ==>
                KeepsFree(old(backend.Mem()), old(Value()), backend.Mem(), Value())
    {
      hide Inv, DetachStep, DetachList, SameViews, Level, TableDescriptor, Names, Blocked, Stuck, Core, Lists, Shape,
        Typed, OwnsLevelOne, LeafDetached, LeftBehind, LevelOneDetached, AllKeepPrivate, KeepsFree;
      ghost var m, before := backend.Mem(), tablePfns;
      SameViewsRefl(m, spaces);
      AllKeepRefl(m, spaces);
      KeepsFreeRefl(m, Value());
      assert spaces[k := Value()] == spaces;
      var indices := TableIndices(vaddr);
      if indices.None? {
        return Err(InvalidAddress);
      }
      var ix := indices.value;
      InvParts(m, spaces, k);
      WalkTyped(m, rootPfn, ix);
      var levelOne := backend.ReadTableEntry(rootPfn, ix.i0);
      NotStuck(m, Value(), ix);
      assert MadePrivateBy(m, m, m, rootPfn, ix);
      if levelOne == ZERO { MadePrivateLeaves(m, m, rootPfn, ix); }
      if levelOne == ZERO {
        return Ok(());
      }
      // Roots hold table descriptors only: the source's AlreadyMapped answer here never occurs.
      assert IsTable(levelOne);
      NamesFrom(m, rootPfn, ix.i0);
      var one := DetachSharedTable(rootPfn, ix.i0, levelOne.pfn, 1, spaces, k);
      if one.Err? {
        return Err(one.error);
      }
      ghost var m1, spaces1 := backend.Mem(), spaces[k := Value()];
      if RefsOf(m, levelOne.pfn) > 1 {
        AfterLevelOne(m, m1, Space(rootPfn, before), Value(), ix, levelOne.pfn, one.value, TableDescriptor(one.value));
        LevelOneDetachedBy(m, m1, rootPfn, ix, one.value);
        FreeAfterTop(m, m1, Space(rootPfn, before), Value(), ix.i0, levelOne.pfn, one.value,
          TableDescriptor(one.value));
      } else {
        ShapeAt(m, levelOne.pfn);
      }
      ghost var half := Value();
      r := EnsurePrivateLeaf(ix, one.value, spaces1, k);
      if ix.i0 == 0 { KeepsFreeTrans(m, Space(rootPfn, before), m1, half, backend.Mem(), Value()); }
      assert MadePrivateBy(m, m1, backend.Mem(), rootPfn, ix);
      if r.Ok? { MadePrivateLeaves(m, backend.Mem(), rootPfn, ix); }
      assert spaces1[k := Value()] == spaces[k := Value()];
      SameViewsTrans(m, m1, backend.Mem(), spaces, spaces1);
      AllKeepTrans(m, m1, backend.Mem(), spaces, spaces1);
    }

    /** Writes one entry of a private leaf. Break before make: an address that
        is to get a nonzero descriptor must not be cached. */
    method WriteLeaf(leaf: Pfn, index: nat, d: Descriptor, ghost ix: Index, ghost spaces: seq<Space>, ghost k: nat)
      requires Live(spaces, k) && Within(ix) && index == ix.i2 && PrivatePath(backend.Mem(), rootPfn, ix)
               && leaf == Leaf(backend.Mem(), rootPfn, ix)
      requires d != ZERO ==> Broken(cache, ix)
      modifies backend`pages, backend`refs, backend`level, this`cache
      ensures Live(spaces, k) && OnlyViewSet(old(backend.Mem()), backend.Mem(), spaces, k, ix, d)
      ensures PrivatePath(backend.Mem(), rootPfn, ix) && Leaf(backend.Mem(), rootPfn, ix) == leaf
      ensures backend.Mem() == Put(old(backend.Mem()), leaf, ix.i2, d)
      ensures cache == Filled(old(cache), ix, d)
      ensures AllKeepPrivate(old(backend.Mem()), backend.Mem(), spaces)
      ensures backend.Stock() == old(backend.Stock())
    {
      hide Core, Lists, PrivatePath, OnlyViewSet, Put, Shape, Typed, OwnsLevelOne, RefsOf, Leaf, View, Entry,
        AllKeepPrivate;
      ghost var m := backend.Mem();
      InvParts(m, spaces, k);
      WalkTyped(m, rootPfn, ix);
      PrivateReaches(m, rootPfn, ix);
      ShapeAt(m, leaf);
      var written := backend.WriteTableEntry(leaf, index, d);
      PutPrivateLeaf(m, spaces, k, ix, d, backend.Mem());
      AllKeepPut(m, backend.Mem(), spaces, leaf, index, d);
      cache := Filled(cache, ix, d);
      PutKeys(m, leaf, index, d);
    }

    ghost method BreakUserMapping(ix: Index)
      modifies this`cache
      ensures cache == Break(old(cache), ix)
    {
      cache := Break(cache, ix);
    }

    /** The leaf table and entry index of an address, if its walk gets there. */
    method LeafLocation(vaddr: nat, ghost spaces: seq<Space>, ghost k: nat) returns (r: Result<(Pfn, nat)>)
      requires Live(spaces, k)
      ensures vaddr >= 0x80_0000_0000 ==> r == Err(InvalidAddress)
      ensures vaddr < 0x80_0000_0000 && Reaches(backend.Mem(), rootPfn, IndexOf(vaddr)) ==>
                && r == Ok((Leaf(backend.Mem(), rootPfn, IndexOf(vaddr)), IndexOf(vaddr).i2))
                && r.value.0 in backend.pages && r.value.1 < |backend.pages[r.value.0]|
                && backend.pages[r.value.0][r.value.1] == View(backend.Mem(), rootPfn, IndexOf(vaddr))
      ensures vaddr < 0x80_0000_0000 && !Reaches(backend.Mem(), rootPfn, IndexOf(vaddr)) ==>
                r == Err(NotMapped) && !IsTable(View(backend.Mem(), rootPfn, IndexOf(vaddr)))
    {
      hide Inv, Core, Lists, Shape, Typed, OwnsLevelOne, RefsOf, Level;
      var indices := TableIndices(vaddr);
      if indices.None? {
        return Err(InvalidAddress);
      }
      var ix := indices.value;
      ghost var m := backend.Mem();
      InvParts(m, spaces, k);
      WalkTyped(m, rootPfn, ix);
      var levelOne := backend.ReadTableEntry(rootPfn, ix.i0);
      if !IsTable(levelOne) {
        return Err(NotMapped);
      }
      ShapeAt(m, levelOne.pfn);
      var levelTwo := backend.ReadTableEntry(levelOne.pfn, ix.i1);
      if !IsTable(levelTwo) {
        return Err(NotMapped);
      }
      ShapeAt(m, levelTwo.pfn);
      return Ok((levelTwo.pfn, ix.i2));
    }

    /** What every single-page operation starts with: a private path, and the
        leaf entry as every space saw it before. */
    method PrivateLeafOf(vaddr: nat, ghost spaces: seq<Space>, ghost k: nat) returns (r: Result<(Pfn, nat)>)
      requires Live(spaces, k) && Coherent() && UserRangeValid(vaddr, PAGE_SIZE)
      modifies this`tablePfns, backend
      ensures Live(spaces[k := Value()], k) && SameViews(old(backend.Mem()), backend.Mem(), spaces) && Coherent()
      ensures r.Ok? ==>
                && PrivatePath(backend.Mem(), rootPfn, IndexOf(vaddr))
                && r.value == (Leaf(backend.Mem(), rootPfn, IndexOf(vaddr)), IndexOf(vaddr).i2)
                && r.value.0 in backend.pages && r.value.1 < |backend.pages[r.value.0]|
                && backend.pages[r.value.0][r.value.1] == View(old(backend.Mem()), rootPfn, IndexOf(vaddr))
      ensures r.Err? ==> r.error in {OutOfMemory, InvalidAddress, NotMapped}
      ensures r == Err(NotMapped) ==> !IsTable(View(old(backend.Mem()), rootPfn, IndexOf(vaddr)))
      ensures r == Err(InvalidAddress) ==> Stuck(old(backend.Mem()), old(Value()), IndexOf(vaddr))
      ensures Stuck(old(backend.Mem()), old(Value()), IndexOf(vaddr)) ==> r.Err?
      ensures r == Err(OutOfMemory) ==> !PrivateSoFar(old(backend.Mem()), rootPfn, IndexOf(vaddr))
      ensures AllKeepPrivate(old(backend.Mem()), backend.Mem(), spaces)
      ensures backend.Drew(old(backend.Stock()), 2, r == Err(OutOfMemory))
      ensures r.Ok? ==> LeftBehind(old(backend.Mem()), backend.Mem(), rootPfn, IndexOf(vaddr))
    {
      hide Inv, Blocked, Stuck, PrivatePath, PrivateSoFar, Reaches, Leaf, View, Agrees, SameViews, LeftBehind,
        MadePrivate, AllKeepPrivate;
      ghost var m, ix := backend.Mem(), IndexOf(vaddr);
      UserIndices(vaddr);
      InvParts(m, spaces, k);
      NotBlocked(m, spaces, k, ix);
      var private := EnsurePrivateExistingPath(vaddr, spaces, k);
      SameViewsAt(m, backend.Mem(), spaces, k, ix);
      SameAgrees(cache, m, backend.Mem(), rootPfn);
      if private.Err? {
        return Err(private.error);
      }
      PrivateSoFarReaches(backend.Mem(), rootPfn, ix);
      r := LeafLocation(vaddr, spaces[k := Value()], k);
    }

    /** Clears an entry, drops its translations, and writes the replacement. */
    method BreakThenMake(tablePfn: Pfn, index: nat, replacement: Descriptor, ghost ix: Index, ghost spaces: seq<Space>,
                         ghost k: nat)
      requires Live(spaces, k) && Coherent() && Within(ix) && index == ix.i2
      requires PrivatePath(backend.Mem(), rootPfn, ix) && tablePfn == Leaf(backend.Mem(), rootPfn, ix)
      modifies this`cache, backend`pages, backend`refs, backend`level
      ensures Live(spaces, k) && Coherent()
              && OnlyViewSet(old(backend.Mem()), backend.Mem(), spaces, k, ix, replacement)
      ensures AllKeepPrivate(old(backend.Mem()), backend.Mem(), spaces)
      ensures backend.Stock() == old(backend.Stock())
      ensures backend.Mem() == Put(Put(old(backend.Mem()), tablePfn, index, ZERO), tablePfn, index, replacement)
    {
      hide Inv, PrivatePath, Leaf, View, Agrees, OnlyViewSet, Put, Break, Broken, AllKeepPrivate;
      ghost var m := backend.Mem();
      WriteLeaf(tablePfn, index, ZERO, ix, spaces, k);
      ghost var cleared := backend.Mem();
      BreakUserMapping(ix);
      CacheAfterBreak(old(cache), m, cleared, spaces, k, ix);
      WriteLeaf(tablePfn, index, replacement, ix, spaces, k);
      AllKeepTrans(m, cleared, backend.Mem(), spaces, spaces);
      Replaced(m, cleared, backend.Mem(), spaces, k, ix, replacement);
      CacheAfterMake(cache, Break(old(cache), ix), cleared, backend.Mem(), spaces, k, ix, replacement);
    }

    /** What protect, replace and unmap answer when they do not succeed. */
    ghost predicate Refused(error: Error, m: Memory, s: Space, ix: Index)
    {
      && error in {OutOfMemory, InvalidAddress, NotMapped}
      && (error == NotMapped ==> !IsTable(View(m, s.root, ix)))
      && (error == InvalidAddress ==> Stuck(m, s, ix))
      && (error == OutOfMemory ==> !PrivateSoFar(m, s.root, ix))
    }

    /** Changes the permissions of a mapped page and keeps its frame. */
    method ProtectUserPage(vaddr: nat, readable: bool, writable: bool, executable: bool, ghost spaces: seq<Space>,
                           ghost k: nat)
      returns (r: Result<()>)
      requires Live(spaces, k) && Coherent()
      modifies this`tablePfns, this`cache, backend
      ensures Live(spaces[k := Value()], k) && Coherent()
      ensures AllKeepPrivate(old(backend.Mem()), backend.Mem(), spaces)
      ensures backend.Drew(old(backend.Stock()), 2, r == Err(OutOfMemory))
      ensures !UserRangeValid(vaddr, PAGE_SIZE) ==> r == Err(InvalidAddress)
      ensures r.Err? ==> SameViews(old(backend.Mem()), backend.Mem(), spaces)
      ensures r.Err? && UserRangeValid(vaddr, PAGE_SIZE) ==>
              Refused(r.error, old(backend.Mem()), old(Value()), IndexOf(vaddr))
      ensures r.Ok? ==>
                && IsTable(View(old(backend.Mem()), rootPfn, IndexOf(vaddr)))
                && !Stuck(old(backend.Mem()), old(Value()), IndexOf(vaddr))
                && OnlyViewSet(old(backend.Mem()), backend.Mem(), spaces, k, IndexOf(vaddr),
                     UserPage(View(old(backend.Mem()), rootPfn, IndexOf(vaddr)).pfn, readable, writable, executable))
                && LeftBehind(old(backend.Mem()), backend.Mem(), rootPfn, IndexOf(vaddr))
    {
      hide Inv, Stuck, PrivatePath, PrivateSoFar, AllKeepPrivate, Leaf, View, Agrees, SameViews, OnlyViewSet, UserPage,
        LeftBehind;
      ghost var m := backend.Mem();
      SameViewsRefl(m, spaces);
      AllKeepRefl(m, spaces);
      assert spaces[k := Value()] == spaces;
      if !UserRangeValid(vaddr, PAGE_SIZE) {
        return Err(InvalidAddress);
      }
      var leaf := PrivateLeafOf(vaddr, spaces, k);
      if leaf.Err? {
        return Err(leaf.error);
      }
      var (tablePfn, index) := leaf.value;
      var descriptor := backend.ReadTableEntry(tablePfn, index);
      if !IsTable(descriptor) {
        return Err(NotMapped);
      }
      ghost var m1, after := backend.Mem(), spaces[k := Value()];
      var replacement := UserPage(descriptor.pfn, readable, writable, executable);
      BreakThenMake(tablePfn, index, replacement, IndexOf(vaddr), after, k);
      AllKeepTrans(m, m1, backend.Mem(), spaces, after);
      AfterSameViews(m, m1, backend.Mem(), spaces, after, k, IndexOf(vaddr), replacement);
      LeftAfterWrite(m, m1, spaces, after, k, IndexOf(vaddr), tablePfn, replacement);
      r := Ok(());
    }

    /** Maps another frame at a mapped page and returns the frame it replaces. */
    method ReplaceUserPage(vaddr: nat, pfn: Pfn, readable: bool, writable: bool, executable: bool,
                           ghost spaces: seq<Space>, ghost k: nat)
      returns (r: Result<Pfn>)
      requires Live(spaces, k) && Coherent()
      modifies this`tablePfns, this`cache, backend
      ensures Live(spaces[k := Value()], k) && Coherent()
      ensures AllKeepPrivate(old(backend.Mem()), backend.Mem(), spaces)
      ensures backend.Drew(old(backend.Stock()), 2, r == Err(OutOfMemory))
      ensures !UserRangeValid(vaddr, PAGE_SIZE) || !Addressable(pfn) ==> r == Err(InvalidAddress)
      ensures r.Err? ==> SameViews(old(backend.Mem()), backend.Mem(), spaces)
      ensures r.Err? && UserRangeValid(vaddr, PAGE_SIZE) && Addressable(pfn) ==>
                Refused(r.error, old(backend.Mem()), old(Value()), IndexOf(vaddr))
      ensures r.Ok? ==>
                && IsTable(View(old(backend.Mem()), rootPfn, IndexOf(vaddr)))
                && !Stuck(old(backend.Mem()), old(Value()), IndexOf(vaddr))
                && r.value == View(old(backend.Mem()), rootPfn, IndexOf(vaddr)).pfn
                && OnlyViewSet(old(backend.Mem()), backend.Mem(), spaces, k, IndexOf(vaddr),
                     UserPage(pfn, readable, writable, executable))
    {
      hide Inv, Stuck, PrivatePath, PrivateSoFar, AllKeepPrivate, Leaf, View, Agrees, SameViews, OnlyViewSet, UserPage,
        Addressable;
      ghost var m := backend.Mem();
      SameViewsRefl(m, spaces);
      AllKeepRefl(m, spaces);
      assert spaces[k := Value()] == spaces;
      if !UserRangeValid(vaddr, PAGE_SIZE) {
        return Err(InvalidAddress);
      }
      if !Addressable(pfn) {
        return Err(InvalidAddress);
      }
      var leaf := PrivateLeafOf(vaddr, spaces, k);
      if leaf.Err? {
        return Err(leaf.error);
      }
      var (tablePfn, index) := leaf.value;
      var descriptor := backend.ReadTableEntry(tablePfn, index);
      if !IsTable(descriptor) {
        return Err(NotMapped);
      }
      ghost var m1, after := backend.Mem(), spaces[k := Value()];
      var replacement := UserPage(pfn, readable, writable, executable);
      BreakThenMake(tablePfn, index, replacement, IndexOf(vaddr), after, k);
      AllKeepTrans(m, m1, backend.Mem(), spaces, after);
      AfterSameViews(m, m1, backend.Mem(), spaces, after, k, IndexOf(vaddr), replacement);
      r := Ok(descriptor.pfn);
    }

    /** Removes a mapped page and returns its frame. */
    method UnmapUserPage(vaddr: nat, ghost spaces: seq<Space>, ghost k: nat) returns (r: Result<Pfn>)
      requires Live(spaces, k) && Coherent()
      modifies this`tablePfns, this`cache, backend
      ensures Live(spaces[k := Value()], k) && Coherent()
      ensures AllKeepPrivate(old(backend.Mem()), backend.Mem(), spaces)
      ensures backend.Drew(old(backend.Stock()), 2, r == Err(OutOfMemory))
      ensures !UserRangeValid(vaddr, PAGE_SIZE) ==> r == Err(InvalidAddress)
      ensures r.Err? ==> SameViews(old(backend.Mem()), backend.Mem(), spaces)
      ensures r.Err? && UserRangeValid(vaddr, PAGE_SIZE) ==>
              Refused(r.error, old(backend.Mem()), old(Value()), IndexOf(vaddr))
      ensures r.Ok? ==>
                && IsTable(View(old(backend.Mem()), rootPfn, IndexOf(vaddr)))
                && !Stuck(old(backend.Mem()), old(Value()), IndexOf(vaddr))
                && r.value == View(old(backend.Mem()), rootPfn, IndexOf(vaddr)).pfn
                && OnlyViewSet(old(backend.Mem()), backend.Mem(), spaces, k, IndexOf(vaddr), ZERO)
    {
      hide Inv, Stuck, PrivatePath, PrivateSoFar, AllKeepPrivate, Leaf, View, Agrees, SameViews, OnlyViewSet, Put;
      ghost var m := backend.Mem();
      SameViewsRefl(m, spaces);
      AllKeepRefl(m, spaces);
      assert spaces[k := Value()] == spaces;
      if !UserRangeValid(vaddr, PAGE_SIZE) {
        return Err(InvalidAddress);
      }
      var leaf := PrivateLeafOf(vaddr, spaces, k);
      if leaf.Err? {
        return Err(leaf.error);
      }
      var (tablePfn, index) := leaf.value;
      var descriptor := backend.ReadTableEntry(tablePfn, index);
      if !IsTable(descriptor) {
        return Err(NotMapped);
      }
      ghost var m1, after := backend.Mem(), spaces[k := Value()];
      WriteLeaf(tablePfn, index, ZERO, IndexOf(vaddr), after, k);
      BreakUserMapping(IndexOf(vaddr));
      CacheAfterBreak(old(cache), m1, backend.Mem(), after, k, IndexOf(vaddr));
      AllKeepTrans(m, m1, backend.Mem(), spaces, after);
      AfterSameViews(m, m1, backend.Mem(), spaces, after, k, IndexOf(vaddr), ZERO);
      r := Ok(descriptor.pfn);
    }

    ghost predicate InTransaction(ledger: Ledger, spaces: seq<Space>, k: nat, created: seq<Created>)
      reads this, backend
    {
      Live(spaces, k) && Underway(ledger, backend.Mem(), spaces, k, created)
    }

    /** Nothing was detached since the transaction began: undoing what it
        recorded restores the tables and the list. */
    ghost predicate Undoable(ledger: Ledger, created: seq<Created>)
      reads this, backend
    {
      Clean(ledger, backend.Mem(), Value(), created)
    }

    /** Links a fresh empty table into an empty slot, and lists it. */
    method AddChild(table: Pfn, index: nat, ghost spaces: seq<Space>, ghost k: nat) returns (r: Result<Pfn>)
      requires Live(spaces, k) && table in backend.pages && index < ENTRIES
      requires table == rootPfn || Level(backend.Mem(), table) == 1
      requires Entry(backend.Mem(), table, index) == ZERO
      modifies this`tablePfns, backend
      ensures Live(spaces[k := Value()], k) && SameViews(old(backend.Mem()), backend.Mem(), spaces)
      ensures r.Err? ==>
              r.error == OutOfMemory && backend.Mem() == old(backend.Mem()) && tablePfns == old(tablePfns)
      ensures r.Ok? ==>
                && r.value !in old(backend.pages) && FitsFrame(r.value) && old(Level(backend.Mem(), table)) < 2
                && backend.Mem() == Linked(old(backend.Mem()), table, index, r.value, TableDescriptor(r.value))
                && tablePfns == old(tablePfns) + [r.value]
      ensures AllKeepPrivate(old(backend.Mem()), backend.Mem(), spaces)
      ensures backend.Drew(old(backend.Stock()), 1, r == Err(OutOfMemory))
      ensures KeepsFree(old(backend.Mem()), old(Value()), backend.Mem(), Value())
    {
      hide Inv, SameViews, LinkStep, Shape, Typed, Core, Lists, OwnsLevelOne, TableDescriptor, FitsFrame, Put, Add,
        Level, AllKeepPrivate, StockOf, RefsOf, Entry, IsTable, KeepsFree;
      ghost var m := backend.Mem();
      InvParts(m, spaces, k);
      SameViewsRefl(m, spaces);
      AllKeepRefl(m, spaces);
      KeepsFreeRefl(m, Value());
      assert spaces[k := Value()] == spaces;
      ShapeAt(m, table);
      var reserved := backend.TryReserve();
      if !reserved {
        return Err(OutOfMemory);
      }
      var child := backend.AllocateTable(Level(m, table) + 1);
      if child.Err? {
        return Err(child.error);
      }
      tablePfns := tablePfns + [child.value];
      AddKeeps(m, child.value, Level(m, table) + 1, ZeroTable(), table);
      var written := backend.WriteTableEntry(table, index, TableDescriptor(child.value));
      LinkedChild(m, spaces, k, table, index, child.value);
      r := Ok(child.value);
    }

    /** One step of the walk that creates what is missing. */
    method EnsureChild(table: Pfn, index: nat, created: seq<Created>, ghost spaces: seq<Space>, ghost k: nat)
      returns (r: Result<Pfn>, recorded: seq<Created>)
      requires Live(spaces, k) && table in backend.pages && index < ENTRIES
      requires table == rootPfn || Level(backend.Mem(), table) == 1
      requires Entry(backend.Mem(), table, index) == ZERO || IsTable(Entry(backend.Mem(), table, index))
      modifies this`tablePfns, backend
      ensures Live(spaces[k := Value()], k) && SameViews(old(backend.Mem()), backend.Mem(), spaces)
      ensures IsTable(Entry(old(backend.Mem()), table, index)) ==>
                && r == Ok(Entry(old(backend.Mem()), table, index).pfn) && recorded == created
                && backend.Mem() == old(backend.Mem()) && tablePfns == old(tablePfns)
      ensures r.Err? ==>
              r.error == OutOfMemory && backend.Mem() == old(backend.Mem()) && tablePfns == old(tablePfns)
              && recorded == created
      ensures Entry(old(backend.Mem()), table, index) == ZERO && r.Ok? ==>
                && r.value !in old(backend.pages) && FitsFrame(r.value) && old(Level(backend.Mem(), table)) < 2
                && backend.Mem() == Linked(old(backend.Mem()), table, index, r.value, TableDescriptor(r.value))
                && tablePfns == old(tablePfns) + [r.value] && recorded == created + [Created(table, index, r.value)]
      ensures AllKeepPrivate(old(backend.Mem()), backend.Mem(), spaces)
      ensures backend.Drew(old(backend.Stock()), 1, r == Err(OutOfMemory))
      ensures KeepsFree(old(backend.Mem()), old(Value()), backend.Mem(), Value())
    {
      hide Inv, SameViews, Shape, Typed, Core, Lists, OwnsLevelOne, TableDescriptor, FitsFrame, Linked, Level,
        AllKeepPrivate, StockOf, KeepsFree;
      ghost var m := backend.Mem();
      InvParts(m, spaces, k);
      SameViewsRefl(m, spaces);
      AllKeepRefl(m, spaces);
      KeepsFreeRefl(m, Value());
      assert spaces[k := Value()] == spaces;
      ShapeAt(m, table);
      recorded := created;
      var descriptor := backend.ReadTableEntry(table, index);
      if descriptor == ZERO {
        r := AddChild(table, index, spaces, k);
        if r.Ok? {
          recorded := recorded + [Created(table, index, r.value)];
        }
        return;
      }
      return Ok(descriptor.pfn), recorded;
    }

    /** The leaf table for a user page, created where it is missing. */
    method EnsureLeafTable(ix: Index, created: seq<Created>, ghost ledger: Ledger, ghost spaces: seq<Space>,
                           ghost k: nat)
      returns (r: Result<Pfn>, recorded: seq<Created>)
      requires InTransaction(ledger, spaces, k, created) && UserIndex(ix) && PrivateSoFar(backend.Mem(), rootPfn, ix)
      modifies this`tablePfns, backend
      ensures InTransaction(ledger, spaces[k := Value()], k, recorded)
              && SameViews(old(backend.Mem()), backend.Mem(), spaces)
      ensures old(Undoable(ledger, created)) ==> Undoable(ledger, recorded)
      ensures Ends(old(tablePfns), created) ==> Ends(tablePfns, recorded)
      ensures recorded == created || !Reaches(old(backend.Mem()), rootPfn, ix)
      ensures r.Ok? ==> PrivatePath(backend.Mem(), rootPfn, ix) && r.value == Leaf(backend.Mem(), rootPfn, ix)
      ensures r.Err? ==> r.error == OutOfMemory
      ensures KeepsPrivate(old(backend.Mem()), backend.Mem(), rootPfn)
      ensures AllKeepPrivate(old(backend.Mem()), backend.Mem(), spaces)
      ensures backend.Drew(old(backend.Stock()), 2, r == Err(OutOfMemory))
      ensures KeepsFree(old(backend.Mem()), old(Value()), backend.Mem(), Value())
    {
      hide Inv, SameViews, Shape, Typed, Core, Lists, OwnsLevelOne, TableDescriptor, FitsFrame, Level, Underway, Clean,
        Linked, PrivatePath, KeepsPrivate, Ends, AllKeepPrivate, StockOf, KeepsFree;
      ghost var m, listed := backend.Mem(), Ends(tablePfns, created);
      KeepsPrivateRefl(m, rootPfn);
      ghost var was := Value();
      InvParts(m, spaces, k);
      WalkTyped(m, rootPfn, ix);
      var one;
      one, recorded := EnsureChild(rootPfn, ix.i0, created, spaces, k);
      ghost var m1, spaces1 := backend.Mem(), spaces[k := Value()];
      if one.Err? {
        assert spaces1 == spaces;
        return Err(one.error), recorded;
      }
      if Entry(m, rootPfn, ix.i0) == ZERO {
        LinkedLevelOne(ledger, m, m1, spaces, k, created, ix, one.value);
        if listed { EndsPush(old(tablePfns), created, Created(rootPfn, ix.i0, one.value)); }
      } else {
        assert spaces1 == spaces;
      }
      InvParts(m1, spaces1, k);
      WalkTyped(m1, rootPfn, ix);
      ghost var halfway, list, half := recorded, tablePfns, Value();
      r, recorded := EnsureChild(one.value, ix.i1, recorded, spaces1, k);
      if r.Ok? && Entry(m1, one.value, ix.i1) == ZERO {
        LinkedLeaf(ledger, m1, backend.Mem(), spaces1, k, halfway, ix, r.value);
        if listed { EndsPush(list, halfway, Created(one.value, ix.i1, r.value)); }
      } else {
        assert spaces1[k := Value()] == spaces1;
        PrivateSoFarReaches(m1, rootPfn, ix);
        KeepsPrivateRefl(m1, rootPfn);
      }
      assert spaces1[k := Value()] == spaces[k := Value()];
      SameViewsTrans(m, m1, backend.Mem(), spaces, spaces1);
      AllKeepTrans(m, m1, backend.Mem(), spaces, spaces1);
      KeepsFreeTrans(m, was, m1, half, backend.Mem(), Value());
      KeepsPrivateTrans(m, m1, backend.Mem(), rootPfn);
    }

    /** Zeroes the pages a failed transaction mapped, last one first. */
    method RollbackMapped(mapped: seq<nat>, created: seq<Created>, ghost ledger: Ledger, ghost spaces: seq<Space>,
                          ghost k: nat)
      requires InTransaction(ledger, spaces, k, created) && Coherent() && AllIndices(mapped, ledger.mapped)
      modifies this`cache, backend`pages, backend`refs, backend`level
      ensures InTransaction(ledger.(mapped := [], ds := []), spaces, k, created) && Coherent()
      ensures backend.Mem() == ZeroAll(old(backend.Mem()), rootPfn, ledger.mapped)
    {
      hide Inv, Transaction, Agrees, Put, Leaf, PrivatePath, View, ZeroAll, Reaches, OnlyViewSet;
      ghost var m := backend.Mem();
      var i := |mapped|;
      assert ledger.mapped[..i] == ledger.mapped && ledger.ds[..i] == ledger.ds by {
        TransactionParts(ledger.before, m, spaces, k, ledger.mapped, ledger.ds, created);
      }
      while i > 0
        invariant 0 <= i <= |mapped| && |ledger.ds| == |mapped|
        invariant Live(spaces, k) && Coherent()
        invariant Transaction(ledger.before, backend.Mem(), spaces, k, ledger.mapped[..i], ledger.ds[..i], created)
        invariant ZeroAll(backend.Mem(), rootPfn, ledger.mapped[..i]) == ZeroAll(m, rootPfn, ledger.mapped)
      {
        ghost var now, ix := backend.Mem(), ledger.mapped[i - 1];
        ghost var pages, ds := ledger.mapped[..i], ledger.ds[..i];
        assert pages[|pages| - 1] == ix && pages[..|pages| - 1] == ledger.mapped[..i - 1]
          && ds[..|pages| - 1] == ledger.ds[..i - 1];
        ZeroAllLast(now, rootPfn, ledger.mapped, i);
        UnmapStep(ledger.before, now, Put(now, Leaf(now, rootPfn, ix), ix.i2, ZERO), spaces, k, pages, ds, created, ix);
        PrivateReaches(now, rootPfn, ix);
        var leaf := LeafLocation(mapped[i - 1], spaces, k);
        WriteLeaf(leaf.value.0, leaf.value.1, ZERO, ix, spaces, k);
        CacheAfterBreak(cache, now, backend.Mem(), spaces, k, ix);
        BreakUserMapping(ix);
        i := i - 1;
      }
      assert ledger.mapped[..0] == [] && ledger.ds[..0] == [];
      ZeroAllNone(backend.Mem(), rootPfn);
    }

    /** Unlinks the table created last; it leaves the list only if it is the
        last one listed. */
    method UnlinkCreatedTable(c: Created, ghost before: Memory, ghost linked: seq<Created>, ghost spaces: seq<Space>,
                              ghost k: nat)
      requires k < |spaces| && spaces[k] == Value() && Transaction(before, backend.Mem(), spaces, k, [], [], linked)
               && Coherent()
      requires linked != [] && c == linked[|linked| - 1]
      modifies this`tablePfns, backend`pages, backend`refs, backend`level
      ensures Transaction(before, backend.Mem(), spaces[k := Value()], k, [], [], linked[..|linked| - 1]) && Coherent()
      ensures backend.Mem() == Unlinked(old(backend.Mem()), c.parent, c.index, c.child)
      ensures tablePfns == Popped(old(tablePfns), c.child)
      ensures |old(tablePfns)| > 0 && old(tablePfns)[|old(tablePfns)| - 1] == c.child
              && Lists(old(backend.Mem()), spaces) ==>
                Lists(backend.Mem(), spaces[k := Value()])
    {
      hide Core, Lists, Transaction, Agrees, Put, View, Unlinked, Release, SameViews, RefsOf, Shape;
      ghost var m := backend.Mem();
      UnlinkStep(before, m, Unlinked(m, c.parent, c.index, c.child), spaces, k, linked, c);
      TransactionParts(before, m, spaces, k, [], [], linked);
      CoreParts(m, spaces, k);
      ShapeAt(m, c.parent);
      ShapeAt(m, c.child);
      UnlinkedIs(m, c);
      PutKeepsRefs(m, c.parent, c.index, ZERO);
      var written := backend.WriteTableEntry(c.parent, c.index, ZERO);
      if tablePfns != [] && tablePfns[|tablePfns| - 1] == c.child {
        tablePfns := tablePfns[..|tablePfns| - 1];
        assert spaces[k].pfns == tablePfns + [c.child];
      }
      backend.ReleaseTable(c.child);
      SameFromStart(before, m, backend.Mem(), spaces, k, linked, linked[..|linked| - 1]);
      SameAgrees(cache, m, backend.Mem(), rootPfn);
      TransactionLists(before, backend.Mem(), spaces, k, [], [], linked[..|linked| - 1], Value());
      assert spaces[k := spaces[k].(pfns := tablePfns)] == spaces[k := Value()];
    }

    /** Unlinks the tables a failed transaction created, last one first. */
    method RollbackCreated(created: seq<Created>, ghost ledger: Ledger, ghost spaces: seq<Space>, ghost k: nat)
      requires InTransaction(ledger, spaces, k, created) && Coherent() && ledger.mapped == [] && ledger.ds == []
      modifies this`tablePfns, backend`pages, backend`refs, backend`level
      ensures Core(backend.Mem(), spaces[k := Value()]) && SameViews(ledger.before, backend.Mem(), spaces) && Coherent()
      ensures backend.Mem() == UnlinkAll(old(backend.Mem()), created)
      ensures Ends(old(tablePfns), created) ==> tablePfns == old(tablePfns)[..|old(tablePfns)| - |created|]
      ensures Lists(backend.Mem(), spaces[k := Value()]) <==> Ends(old(tablePfns), created)
      ensures Lists(backend.Mem(), spaces[k := Value()]) <==> NoneFreed(backend.Mem(), spaces[k := Value()])
    {
      hide Inv, Core, Lists, Transaction, Agrees, View, UnlinkAll, Unlinked, SameViews, PopCreated, Ends, NoneFreed;
      ghost var m, listed := backend.Mem(), Ends(tablePfns, created);
      InvParts(m, spaces, k);
      assert spaces[k := Value()] == spaces && created[..|created|] == created;
      var t := |created|;
      while t > 0
        invariant 0 <= t <= |created|
        invariant Transaction(ledger.before, backend.Mem(), spaces[k := Value()], k, [], [], created[..t]) && Coherent()
        invariant UnlinkAll(backend.Mem(), created[..t]) == UnlinkAll(m, created)
        invariant PopCreated(tablePfns, created[..t]) == PopCreated(old(tablePfns), created)
        invariant listed ==> Ends(tablePfns, created[..t]) && Lists(backend.Mem(), spaces[k := Value()])
      {
        ghost var live, linked := spaces[k := Value()], created[..t];
        assert linked[|linked| - 1] == created[t - 1] && linked[..|linked| - 1] == created[..t - 1];
        UnlinkAllLast(backend.Mem(), created, t);
        PopCreatedLast(tablePfns, created, t);
        if listed { EndsLast(tablePfns, linked); EndsFewer(tablePfns, linked); }
        UnlinkCreatedTable(created[t - 1], ledger.before, linked, live, k);
        assert live[k := Value()] == spaces[k := Value()];
        t := t - 1;
      }
      assert created[..0] == [];
      RolledBack(ledger.before, backend.Mem(), spaces[k := Value()], k);
      SameViewsRoots(ledger.before, backend.Mem(), spaces, spaces[k := Value()]);
      NothingLeft(backend.Mem(), tablePfns);
      RollbackOutcome(ledger.before, m, backend.Mem(), spaces, k, created, Value());
    }

    /** Undoes a failed mapping transaction: every space sees what it saw before
        it. If no table was detached in between, the tables, the reference
        counts and the list are the very same. The space can go on exactly when
        the created tables end its list, that is, when nobody is left listing a
        freed table. */
    method RollbackMappingTransaction(mapped: seq<nat>, created: seq<Created>, ghost ledger: Ledger,
                                      ghost spaces: seq<Space>, ghost k: nat)
      requires InTransaction(ledger, spaces, k, created) && Coherent() && AllIndices(mapped, ledger.mapped)
      modifies this`tablePfns, this`cache, backend`pages, backend`refs, backend`level
      ensures Core(backend.Mem(), spaces[k := Value()]) && SameViews(ledger.before, backend.Mem(), spaces) && Coherent()
      ensures old(Undoable(ledger, created)) ==> backend.Mem() == ledger.before && tablePfns == ledger.was
      ensures Live(spaces[k := Value()], k) <==> Ends(old(tablePfns), created)
      ensures Live(spaces[k := Value()], k) <==> NoneFreed(backend.Mem(), spaces[k := Value()])
      ensures backend.pages.Keys <= old(backend.pages.Keys)
    {
      hide Core, Lists, Transaction, Agrees, View, UnlinkAll, ZeroAll, SameViews, Children, NoneFreed;
      EndsSplit(ledger.was, tablePfns, created);
      hide Ends;
      ZeroAllKeys(backend.Mem(), rootPfn, ledger.mapped);
      RollbackMapped(mapped, created, ledger, spaces, k);
      UnlinkAllKeys(backend.Mem(), created);
      RollbackCreated(created, ledger.(mapped := [], ds := []), spaces, k);
    }

    /** Makes the path to a user page private inside a transaction. */
    method PreparePath(vaddr: nat, created: seq<Created>, ghost ledger: Ledger, ghost spaces: seq<Space>, ghost k: nat)
      returns (r: Result<()>)
      requires InTransaction(ledger, spaces, k, created) && Coherent() && UserRangeValid(vaddr, PAGE_SIZE)
      modifies this`tablePfns, backend
      ensures UserIndex(IndexOf(vaddr)) && InTransaction(ledger, spaces[k := Value()], k, created) && Coherent()
      ensures SameViews(old(backend.Mem()), backend.Mem(), spaces)
      ensures View(backend.Mem(), rootPfn, IndexOf(vaddr)) == View(old(backend.Mem()), rootPfn, IndexOf(vaddr))
      ensures r.Ok? ==>
              PrivateSoFar(backend.Mem(), rootPfn, IndexOf(vaddr))
              && !Stuck(old(backend.Mem()), old(Value()), IndexOf(vaddr))
      ensures r.Err? ==>
              r.error == OutOfMemory
              || (r.error == InvalidAddress && Stuck(old(backend.Mem()), old(Value()), IndexOf(vaddr)))
      ensures PrivateSoFar(old(backend.Mem()), rootPfn, IndexOf(vaddr)) ==>
                r.Ok? && backend.Mem() == old(backend.Mem()) && tablePfns == old(tablePfns)
      ensures KeepsPrivate(old(backend.Mem()), backend.Mem(), rootPfn)
      ensures AllKeepPrivate(old(backend.Mem()), backend.Mem(), spaces)
      ensures backend.Drew(old(backend.Stock()), 2, r == Err(OutOfMemory))
      ensures KeepsFree(old(backend.Mem()), old(Value()), backend.Mem(), Value())
    {
      hide Inv, Core, Lists, Transaction, Undoes, Agrees, View, SameViews, Stuck, Blocked, PrivateSoFar, LeafDetached,
        UserRangeValid, TableIndices, UserIndex, KeepsPrivate, AllKeepPrivate, MadePrivate, Typed, Shape, Level,
        KeepsFree;
      UserPageIndex(vaddr);
      ghost var m, ix := backend.Mem(), IndexOf(vaddr);
      InvParts(m, spaces, k);
      NotBlocked(m, spaces, k, ix);
      NotStuck(m, Value(), ix);
      r := EnsurePrivateExistingPath(vaddr, spaces, k);
      ghost var after := spaces[k := Value()];
      InvParts(backend.Mem(), after, k);
      PrivateStep(ledger.before, m, backend.Mem(), spaces, after, k, ledger.mapped, ledger.ds, created, ix);
      MadePrivateKeeps(m, backend.Mem(), rootPfn, ix);
      SameViewsAt(m, backend.Mem(), spaces, k, ix);
      SameAgrees(cache, m, backend.Mem(), rootPfn);
    }

    /** Maps one page inside a transaction and records what it did. */
    method MapUserPageRecorded(vaddr: nat, pfn: Pfn, readable: bool, writable: bool, executable: bool,
                               created: seq<Created>, mapped: seq<nat>, ghost ledger: Ledger, ghost spaces: seq<Space>,
                                 ghost k: nat)
      returns (r: Result<()>, recorded: seq<Created>, pages: seq<nat>, ghost after: Ledger)
      requires InTransaction(ledger, spaces, k, created) && Coherent() && AllIndices(mapped, ledger.mapped)
      modifies this`tablePfns, this`cache, backend
      ensures InTransaction(after, spaces[k := Value()], k, recorded) && Coherent() && AllIndices(pages, after.mapped)
      ensures r.Err? ==> after == ledger && SameViews(old(backend.Mem()), backend.Mem(), spaces)
      ensures r.Err? ==> MapRefused(r.error, old(backend.Mem()), old(Value()), vaddr, pfn)
      ensures r.Ok? ==> MapAllowed(old(backend.Mem()), old(Value()), vaddr, pfn)
      ensures r.Ok? ==> after == Extended(ledger, IndexOf(vaddr), UserPage(pfn, readable, writable, executable))
      ensures r.Ok? ==>
              OnlyViewSet(old(backend.Mem()), backend.Mem(), spaces, k, IndexOf(vaddr),
              UserPage(pfn, readable, writable, executable))
      ensures r.Ok? ==> PrivatePath(backend.Mem(), rootPfn, IndexOf(vaddr))
      ensures old(Undoable(ledger, created))
              && (UserRangeValid(vaddr, PAGE_SIZE) ==> PrivateSoFar(old(backend.Mem()), rootPfn, IndexOf(vaddr))) ==>
                Undoable(after, recorded)
      ensures KeepsPrivate(old(backend.Mem()), backend.Mem(), rootPfn)
      ensures AllKeepPrivate(old(backend.Mem()), backend.Mem(), spaces)
      ensures backend.Drew(old(backend.Stock()), 4, r == Err(OutOfMemory))
      ensures recorded == created
              || (UserRangeValid(vaddr, PAGE_SIZE) && !Reaches(old(backend.Mem()), rootPfn, IndexOf(vaddr)))
      ensures Ends(old(tablePfns), created)
              && (created == []
                || (UserRangeValid(vaddr, PAGE_SIZE) ==> PrivateSoFar(old(backend.Mem()), rootPfn, IndexOf(vaddr)))) ==>
                Ends(tablePfns, recorded)
      ensures KeepsFree(old(backend.Mem()), old(Value()), backend.Mem(), Value())
    {
      hide Inv, Core, Lists, Transaction, Undoes, Agrees, View, SameViews, Stuck, Blocked, PrivateSoFar, PrivatePath,
        Leaf, Reaches, Put, OnlyViewSet, Addressable, UserPage, LeafDetached, KeepsPrivate, Ends, AllKeepPrivate,
        StockOf, KeepsFree;
      KeepsPrivateRefl(backend.Mem(), rootPfn);
      KeepsFreeRefl(backend.Mem(), Value());
      recorded, pages, after := created, mapped, ledger;
      ghost var m := backend.Mem();
      SameViewsRefl(m, spaces);
      AllKeepRefl(m, spaces);
      assert spaces[k := Value()] == spaces;
      if !UserRangeValid(vaddr, PAGE_SIZE) {
        return Err(InvalidAddress), recorded, pages, after;
      }
      hide UserRangeValid, TableIndices;
      var private := PreparePath(vaddr, created, ledger, spaces, k);
      ghost var m1, spaces1, ix := backend.Mem(), spaces[k := Value()], IndexOf(vaddr);
      EndsNothing(tablePfns);
      KeptReaches(m, m1, rootPfn, ix);
      if private.Err? {
        return Err(private.error), recorded, pages, after;
      }
      var reserved := backend.TryReserve();
      if !reserved {
        return Err(OutOfMemory), recorded, pages, after;
      }
      if !Addressable(pfn) {
        return Err(InvalidAddress), recorded, pages, after;
      }
      UserPageNonzero(pfn, readable, writable, executable);
      ghost var half := Value();
      r, recorded, pages,
        after := MapIntoLeaf(vaddr, UserPage(pfn, readable, writable, executable), created, mapped, ledger, spaces1, k);
      KeepsPrivateTrans(m, m1, backend.Mem(), rootPfn);
      AllKeepTrans(m, m1, backend.Mem(), spaces, spaces1);
      KeepsFreeTrans(m, old(Value()), m1, half, backend.Mem(), Value());
      assert spaces1[k := Value()] == spaces[k := Value()];
      if r.Ok? {
        AfterSameViews(m, m1, backend.Mem(), spaces, spaces1, k, ix, UserPage(pfn, readable, writable, executable));
      } else {
        SameViewsTrans(m, m1, backend.Mem(), spaces, spaces1);
      }
    }

    /** The second half: create the missing tables and write the descriptor. */
    method MapIntoLeaf(vaddr: nat, d: Descriptor, created: seq<Created>, mapped: seq<nat>,
                       ghost ledger: Ledger, ghost spaces: seq<Space>, ghost k: nat)
      returns (r: Result<()>, recorded: seq<Created>, pages: seq<nat>, ghost after: Ledger)
      requires InTransaction(ledger, spaces, k, created) && Coherent() && AllIndices(mapped, ledger.mapped)
      requires vaddr < 0x80_0000_0000 && UserIndex(IndexOf(vaddr))
               && PrivateSoFar(backend.Mem(), rootPfn, IndexOf(vaddr)) && d != ZERO
      modifies this`tablePfns, this`cache, backend
      ensures InTransaction(after, spaces[k := Value()], k, recorded) && Coherent() && AllIndices(pages, after.mapped)
      ensures r.Err? ==> after == ledger && SameViews(old(backend.Mem()), backend.Mem(), spaces)
      ensures r.Err? ==>
              r.error == OutOfMemory
              || (r.error == AlreadyMapped && View(old(backend.Mem()), rootPfn, IndexOf(vaddr)) != ZERO)
      ensures r.Ok? ==>
              View(old(backend.Mem()), rootPfn, IndexOf(vaddr)) == ZERO && after == Extended(ledger, IndexOf(vaddr), d)
      ensures r.Ok? ==> OnlyViewSet(old(backend.Mem()), backend.Mem(), spaces, k, IndexOf(vaddr), d)
      ensures r.Ok? ==> PrivatePath(backend.Mem(), rootPfn, IndexOf(vaddr))
      ensures old(Undoable(ledger, created)) ==> Undoable(after, recorded)
      ensures KeepsPrivate(old(backend.Mem()), backend.Mem(), rootPfn)
      ensures AllKeepPrivate(old(backend.Mem()), backend.Mem(), spaces)
      ensures backend.Drew(old(backend.Stock()), 2, r == Err(OutOfMemory))
      ensures recorded == created || !Reaches(old(backend.Mem()), rootPfn, IndexOf(vaddr))
      ensures Ends(old(tablePfns), created) ==> Ends(tablePfns, recorded)
      ensures KeepsFree(old(backend.Mem()), old(Value()), backend.Mem(), Value())
    {
      hide Inv, Core, Lists, Transaction, Undoes, Agrees, View, SameViews, PrivateSoFar, PrivatePath, Leaf, Reaches,
        Put, OnlyViewSet, Broken, Shape, Typed, Entry, KeepsPrivate, Level, Ends, AllKeepPrivate, StockOf, KeepsFree;
      pages, after := mapped, ledger;
      ghost var m := backend.Mem();
      var indices := TableIndices(vaddr);
      var ix := indices.value;
      var leaf;
      leaf, recorded := EnsureLeafTable(ix, created, ledger, spaces, k);
      ghost var m1, spaces1 := backend.Mem(), spaces[k := Value()];
      SameViewsAt(m, m1, spaces, k, ix);
      SameAgrees(cache, m, m1, rootPfn);
      if leaf.Err? {
        return Err(leaf.error), recorded, pages, after;
      }
      InvParts(m1, spaces1, k);
      PrivateReaches(m1, rootPfn, ix);
      WalkTyped(m1, rootPfn, ix);
      ShapeAt(m1, leaf.value);
      EntryIs(m1, leaf.value, ix.i2);
      var descriptor := backend.ReadTableEntry(leaf.value, ix.i2);
      if descriptor != ZERO {
        return Err(AlreadyMapped), recorded, pages, after;
      }
      UnmappedBroken(cache, m1, rootPfn, ix);
      ghost var was := cache;
      WriteLeaf(leaf.value, ix.i2, d, ix, spaces1, k);
      CacheAfterMake(cache, was, m1, backend.Mem(), spaces1, k, ix, d);
      MapStep(ledger.before, m1, backend.Mem(), spaces1, k, ledger.mapped, ledger.ds, recorded, ix, d);
      if Clean(ledger, m1, Value(), recorded) {
        UndoesMap(ledger.before, ledger.was, m1, backend.Mem(), Value(), ledger.mapped, recorded, ix, d);
      }
      AfterSameViews(m, m1, backend.Mem(), spaces, spaces1, k, ix, d);
      PutKeepsPrivate(m1, backend.Mem(), rootPfn, leaf.value, ix.i2, d);
      FreeAfterPut(m1, backend.Mem(), Value(), leaf.value, ix.i2, d);
      KeepsFreeTrans(m, old(Value()), m1, Value(), backend.Mem(), Value());
      KeepsPrivateTrans(m, m1, backend.Mem(), rootPfn);
      AllKeepTrans(m, m1, backend.Mem(), spaces, spaces1);
      pages, after := pages + [vaddr], Extended(ledger, ix, d);
      assert spaces1[k := Value()] == spaces1;
      r := Ok(());
    }

    /** Maps one user page. */
    method MapUserPage(vaddr: nat, pfn: Pfn, readable: bool, writable: bool, executable: bool,
                       ghost spaces: seq<Space>, ghost k: nat)
      returns (r: Result<()>)
      requires Live(spaces, k) && Coherent()
      modifies this`tablePfns, this`cache, backend
      ensures Live(spaces[k := Value()], k) && Coherent()
      ensures !UserRangeValid(vaddr, PAGE_SIZE) ==> r == Err(InvalidAddress)
      ensures r.Err? ==> SameViews(old(backend.Mem()), backend.Mem(), spaces)
      ensures r.Err? ==> MapRefused(r.error, old(backend.Mem()), old(Value()), vaddr, pfn)
      ensures r.Ok? ==> MapAllowed(old(backend.Mem()), old(Value()), vaddr, pfn)
      ensures r.Ok? ==>
              OnlyViewSet(old(backend.Mem()), backend.Mem(), spaces, k, IndexOf(vaddr),
              UserPage(pfn, readable, writable, executable))
      ensures r.Ok? ==> PrivatePath(backend.Mem(), rootPfn, IndexOf(vaddr))
      ensures AllKeepPrivate(old(backend.Mem()), backend.Mem(), spaces)
      ensures backend.Drew(old(backend.Stock()), 6, r == Err(OutOfMemory))
      ensures UserRangeValid(vaddr, PAGE_SIZE) && r == Err(OutOfMemory) ==>
                !PrivatePath(old(backend.Mem()), rootPfn, IndexOf(vaddr))
    {
      hide Inv, Core, Lists, Transaction, Undoes, Agrees, View, SameViews, Stuck, PrivateSoFar, PrivatePath, Leaf,
        Reaches, Put, OnlyViewSet, Addressable, UserPage, Broken, AllKeepPrivate, StockOf;
      ghost var m := backend.Mem();
      SameViewsRefl(m, spaces);
      AllKeepRefl(m, spaces);
      assert spaces[k := Value()] == spaces;
      if !UserRangeValid(vaddr, PAGE_SIZE) {
        return Err(InvalidAddress);
      }
      UserPageIndex(vaddr);
      hide UserRangeValid, TableIndices, UserIndex;
      InvParts(m, spaces, k);
      Begin(m, spaces, k);
      PrivateSoFarOnly(m, rootPfn, IndexOf(vaddr));
      var private := PreparePath(vaddr, [], Ledger(m, tablePfns, [], []), spaces, k);
      ghost var m1, spaces1, ix, d := backend.Mem(), spaces[k := Value()], IndexOf(vaddr),
        UserPage(pfn, readable, writable, executable);
      if private.Err? {
        return Err(private.error);
      }
      if !Addressable(pfn) {
        return Err(InvalidAddress);
      }
      NotStuck(m1, Value(), ix);
      r := MapUserPagePrepared(vaddr, pfn, readable, writable, executable, spaces1, k);
      assert spaces1[k := Value()] == spaces[k := Value()];
      AllKeepTrans(m, m1, backend.Mem(), spaces, spaces1);
      if r.Ok? { AfterSameViews(m, m1, backend.Mem(), spaces, spaces1, k, ix, d); }
    }

    /** `MapUserPage` once the path that exists is private. */
    method MapUserPagePrepared(vaddr: nat, pfn: Pfn, readable: bool, writable: bool, executable: bool,
                               ghost spaces: seq<Space>, ghost k: nat)
      returns (r: Result<()>)
      requires Live(spaces, k) && Coherent() && UserRangeValid(vaddr, PAGE_SIZE)
               && PrivateSoFar(backend.Mem(), rootPfn, IndexOf(vaddr))
      requires Addressable(pfn)
      modifies this`tablePfns, this`cache, backend
      ensures Live(spaces[k := Value()], k) && Coherent()
      ensures r.Err? ==> backend.Mem() == old(backend.Mem()) && tablePfns == old(tablePfns)
      ensures r.Err? ==> MapRefused(r.error, old(backend.Mem()), old(Value()), vaddr, pfn)
      ensures r.Ok? ==> MapAllowed(old(backend.Mem()), old(Value()), vaddr, pfn)
      ensures r.Ok? ==>
              OnlyViewSet(old(backend.Mem()), backend.Mem(), spaces, k, IndexOf(vaddr),
              UserPage(pfn, readable, writable, executable))
      ensures r.Ok? ==> PrivatePath(backend.Mem(), rootPfn, IndexOf(vaddr))
      ensures AllKeepPrivate(old(backend.Mem()), backend.Mem(), spaces)
      ensures backend.Drew(old(backend.Stock()), 4, r == Err(OutOfMemory))
      ensures r == Err(OutOfMemory) ==> !PrivatePath(old(backend.Mem()), rootPfn, IndexOf(vaddr))
    {
      UserPageIndex(vaddr);
      hide Inv, Core, Lists, Agrees, View, Stuck, PrivateSoFar, PrivatePath, Leaf, Reaches, Put, OnlyViewSet,
        Addressable, UserPage, Broken, UserRangeValid, TableIndices, UserIndex, AllKeepPrivate;
      ghost var m, ix := backend.Mem(), IndexOf(vaddr);
      assert spaces[k := Value()] == spaces;
      NotStuck(m, Value(), ix);
      PrivateSoFarReaches(m, rootPfn, ix);
      var leaf := LeafLocation(vaddr, spaces, k);
      if leaf.Ok? {
        var (tablePfn, index) := leaf.value;
        var descriptor := backend.ReadTableEntry(tablePfn, index);
        if descriptor != ZERO {
          return Err(AlreadyMapped);
        }
        UnmappedBroken(cache, m, rootPfn, ix);
        WriteLeaf(tablePfn, index, UserPage(pfn, readable, writable, executable), ix, spaces, k);
        CacheAfterMake(cache, old(cache), m, backend.Mem(), spaces, k, ix,
          UserPage(pfn, readable, writable, executable));
        return Ok(());
      }
      r := MapUserPageAnew(vaddr, pfn, readable, writable, executable, spaces, k);
    }

    /** The slow path of `MapUserPage`: some table is missing. The path that is
        there is already private, so a failure restores everything. */
    method MapUserPageAnew(vaddr: nat, pfn: Pfn, readable: bool, writable: bool, executable: bool,
                           ghost spaces: seq<Space>, ghost k: nat)
      returns (r: Result<()>)
      requires Live(spaces, k) && Coherent() && UserRangeValid(vaddr, PAGE_SIZE)
               && PrivateSoFar(backend.Mem(), rootPfn, IndexOf(vaddr))
      modifies this`tablePfns, this`cache, backend
      ensures Live(spaces[k := Value()], k) && Coherent()
      ensures r.Err? ==> backend.Mem() == old(backend.Mem()) && tablePfns == old(tablePfns)
      ensures r.Err? ==> MapRefused(r.error, old(backend.Mem()), old(Value()), vaddr, pfn)
      ensures r.Ok? ==> MapAllowed(old(backend.Mem()), old(Value()), vaddr, pfn)
      ensures r.Ok? ==>
              OnlyViewSet(old(backend.Mem()), backend.Mem(), spaces, k, IndexOf(vaddr),
              UserPage(pfn, readable, writable, executable))
      ensures r.Ok? ==> PrivatePath(backend.Mem(), rootPfn, IndexOf(vaddr))
      ensures AllKeepPrivate(old(backend.Mem()), backend.Mem(), spaces)
      ensures backend.Drew(old(backend.Stock()), 4, r == Err(OutOfMemory))
    {
      hide Inv, Core, Lists, Transaction, Undoes, Agrees, View, SameViews, PrivateSoFar, OnlyViewSet, Addressable,
        UserPage, MapRefused, MapAllowed, AllKeepPrivate;
      InvParts(backend.Mem(), spaces, k);
      Begin(backend.Mem(), spaces, k);
      UndoesNothing(backend.Mem(), Value());
      AllKeepRefl(backend.Mem(), spaces);
      ghost var ledger := Ledger(backend.Mem(), tablePfns, [], []);
      var created, mapped;
      ghost var after;
      r, created, mapped,
        after := MapUserPageRecorded(vaddr, pfn, readable, writable, executable, [], [], ledger, spaces, k);
      if r.Err? {
        UndoesKeys(ledger.before, ledger.was, backend.Mem(), Value(), after.mapped, created);
        StockLess(backend.supply, backend.pages.Keys, ledger.before.pages.Keys);
        ghost var spaces1 := spaces[k := Value()];
        RollbackMappingTransaction(mapped, created, after, spaces1, k);
        assert spaces1[k := Value()] == spaces[k := Value()];
      }
    }

    /** The loop over the pages of a region. */
    method MapRegionPages(vaddr: nat, firstPfn: Pfn, pageCount: nat, readable: bool, writable: bool, executable: bool,
                          ghost spaces: seq<Space>, ghost k: nat)
      returns (r: Result<()>)
      requires Live(spaces, k) && Coherent() && UserRangeValid(vaddr, pageCount * PAGE_SIZE) && pageCount < USIZE_LIMIT
      modifies this`tablePfns, this`cache, backend
      ensures Coherent() && Core(backend.Mem(), spaces[k := Value()])
      ensures r.Ok? ==>
                && Live(spaces[k := Value()], k) && OthersSame(old(backend.Mem()), backend.Mem(), spaces, k)
                && PagesSet(old(backend.Mem()), backend.Mem(), rootPfn, RegionIndices(vaddr, pageCount),
                            RegionPages(firstPfn, pageCount, readable, writable, executable))
      ensures r.Err? ==> SameViews(old(backend.Mem()), backend.Mem(), spaces)
      ensures r.Err?
              && (forall i :: 0 <= i < pageCount ==>
              PrivateSoFar(old(backend.Mem()), rootPfn, RegionIndex(vaddr, i))) ==>
                backend.Mem() == old(backend.Mem()) && tablePfns == old(tablePfns)
      ensures Live(spaces[k := Value()], k) <==> NoneFreed(backend.Mem(), spaces[k := Value()])
      ensures SharedFirst(old(backend.Mem()), rootPfn, RegionIndices(vaddr, pageCount)) ==>
              Live(spaces[k := Value()], k)
      ensures r == Err(AlreadyMapped) ==> SomeMapped(old(backend.Mem()), rootPfn, RegionIndices(vaddr, pageCount))
      ensures r.Err? ==> r.error in {OutOfMemory, InvalidAddress, AlreadyMapped}
      ensures r == Err(InvalidAddress) ==> RegionFault(old(backend.Mem()), old(Value()), vaddr, firstPfn, pageCount)
      ensures backend.Drew(old(backend.Stock()), 4 * pageCount, r == Err(OutOfMemory))
    {
      hide Inv, Core, Lists, Transaction, Undoes, Agrees, View, SameViews, PrivateSoFar, OnlyViewSet, UserPage,
        MapRefused, MapAllowed, KeepsPrivate, OthersSame, PagesSet, PfnAt, PfnOverflows, RegionIndices, RegionPages,
        RegionIndex, UserIndex, AllIndices, NoneFreed, SharedFirst, Reaches, Ends, RegionProgress, InTransaction,
        Underway, Undoable, StockOf, RegionFault, SomeMapped, Stuck, Addressable, Shape, Typed, Entry,
        Level;
      ghost var m, was, began := backend.Mem(), tablePfns, Value();
      InvParts(m, spaces, k);
      ListsNoneFreed(m, spaces);
      SameViewsRefl(m, spaces);
      assert spaces[k := Value()] == spaces;
      hide UserRangeValid;
      ghost var private := forall i :: 0 <= i < pageCount ==> PrivateSoFar(m, rootPfn, RegionIndex(vaddr, i));
      ghost var orderly, missing := SharedFirst(m, rootPfn, RegionIndices(vaddr, pageCount)), 0;
      ghost var ledger := Ledger(m, was, [], []);
      var created: seq<Created>, mapped: seq<nat> := [], [];
      RegionEmpty(vaddr, firstPfn, readable, writable, executable);
      RegionStart(spaces, k, private, orderly);
      var pageIndex := 0;
      while pageIndex < pageCount
        invariant 0 <= pageIndex <= pageCount
        invariant ledger
                  == Ledger(m, was, RegionIndices(vaddr, pageIndex),
                  RegionPages(firstPfn, pageIndex, readable, writable, executable))
        invariant RegionProgress(ledger, spaces[k := Value()], k, created, mapped, private, orderly)
        invariant backend.Spent(old(backend.Stock()), 4 * pageIndex)
        invariant created != [] ==> missing < pageIndex && !Reaches(m, rootPfn, RegionIndex(vaddr, missing))
      {
        RegionPage(vaddr, pageCount, pageIndex);
        if orderly && created != [] { BehindMissing(m, rootPfn, vaddr, pageCount, missing, pageIndex); }
        ghost var live, before := spaces[k := Value()], created;
        r, created, mapped, ledger := MapRegionPage(vaddr + pageIndex * PAGE_SIZE, PfnAt(firstPfn, pageIndex),
          readable, writable, executable, created, mapped, ledger, live, k, private, orderly);
        assert live[k := Value()] == spaces[k := Value()];
        if r.Err? {
          SameViewsRoots(m, backend.Mem(), spaces, live);
          if r == Err(AlreadyMapped) { WasMapped(m, rootPfn, vaddr, pageCount, pageIndex); }
          if r == Err(InvalidAddress) { FaultAt(m, began, vaddr, firstPfn, pageCount, pageIndex); }
          return;
        }
        if created != before { missing := pageIndex; }
        RegionExtend(vaddr, firstPfn, pageIndex, readable, writable, executable);
        pageIndex := pageIndex + 1;
      }
      RegionKept(ledger, spaces, k, created, mapped, private, orderly);
      r := Ok(());
    }

    /** Maps a run of frames at a run of pages, all or nothing: a failure at any
        page, for any reason, leaves every space seeing what it saw before. If
        no table on the way was shared, the tables, the reference counts and
        the list are the very same as well. */
    method MapUserRegion(vaddr: nat, firstPfn: Pfn, pageCount: nat, readable: bool, writable: bool, executable: bool,
                         ghost spaces: seq<Space>, ghost k: nat)
      returns (r: Result<()>)
      requires Live(spaces, k) && Coherent()
      modifies this`tablePfns, this`cache, backend
      ensures Coherent() && Core(backend.Mem(), spaces[k := Value()])
      ensures !UserRegion(vaddr, pageCount) || PfnOverflows(firstPfn, pageCount) ==> r == Err(InvalidAddress)
      ensures r.Ok? ==>
                && Live(spaces[k := Value()], k) && OthersSame(old(backend.Mem()), backend.Mem(), spaces, k)
                && PagesSet(old(backend.Mem()), backend.Mem(), rootPfn, RegionIndices(vaddr, pageCount),
                            RegionPages(firstPfn, pageCount, readable, writable, executable))
      ensures r.Err? ==> SameViews(old(backend.Mem()), backend.Mem(), spaces)
      ensures r.Err?
              && (forall i :: 0 <= i < pageCount ==>
              PrivateSoFar(old(backend.Mem()), rootPfn, RegionIndex(vaddr, i))) ==>
                backend.Mem() == old(backend.Mem()) && tablePfns == old(tablePfns)
      ensures Live(spaces[k := Value()], k) <==> NoneFreed(backend.Mem(), spaces[k := Value()])
      ensures SharedFirst(old(backend.Mem()), rootPfn, RegionIndices(vaddr, pageCount)) ==>
              Live(spaces[k := Value()], k)
      ensures r == Err(AlreadyMapped) ==> SomeMapped(old(backend.Mem()), rootPfn, RegionIndices(vaddr, pageCount))
      ensures r.Err? ==> r.error in {OutOfMemory, InvalidAddress, AlreadyMapped}
      ensures r == Err(InvalidAddress) ==>
                || !UserRegion(vaddr, pageCount) || PfnOverflows(firstPfn, pageCount)
                || RegionFault(old(backend.Mem()), old(Value()), vaddr, firstPfn, pageCount)
      ensures backend.Drew(old(backend.Stock()), 4 * pageCount, r == Err(OutOfMemory))
      ensures RegionFree(old(backend.Mem()), old(Value()), vaddr, firstPfn, pageCount) && backend.roomy
              && old(backend.Stock()) >= 4 * pageCount ==>
                r.Ok?
    {
      hide Inv, Core, Lists, Transaction, Undoes, Agrees, View, SameViews, PrivateSoFar, OnlyViewSet, UserPage,
        MapRefused, MapAllowed, KeepsPrivate, OthersSame, PagesSet, PfnAt, PfnOverflows, RegionIndices, RegionPages,
        RegionIndex, UserIndex, AllIndices, NoneFreed, SharedFirst, Reaches, Ends, RegionProgress, InTransaction,
        Underway, Undoable, StockOf, RegionFault, SomeMapped, UserRegion, Stuck, Addressable, Shape, Typed, Entry,
        Level;
      ghost var m := backend.Mem();
      UserRegionIff(vaddr, pageCount);
      InvParts(m, spaces, k);
      ListsNoneFreed(m, spaces);
      SameViewsRefl(m, spaces);
      assert spaces[k := Value()] == spaces;
      if pageCount * PAGE_SIZE >= USIZE_LIMIT || !UserRangeValid(vaddr, pageCount * PAGE_SIZE) {
        return Err(InvalidAddress);
      }
      if PfnOverflows(firstPfn, pageCount) {
        return Err(InvalidAddress);
      }
      hide UserRangeValid;
      r := MapRegionPages(vaddr, firstPfn, pageCount, readable, writable, executable, spaces, k);
    }

    lemma RegionStart(spaces: seq<Space>, k: nat, private: bool, orderly: bool)
      requires Live(spaces, k) && Coherent()
      ensures RegionProgress(Ledger(backend.Mem(), tablePfns, [], []), spaces, k, [], [], private, orderly)
    {
      hide Inv, Core, Lists, Agrees, Transaction, Undoes, KeepsPrivate, Ends, KeepsFree;
      InvParts(backend.Mem(), spaces, k);
      Begin(backend.Mem(), spaces, k);
      UndoesNothing(backend.Mem(), Value());
      KeepsPrivateRefl(backend.Mem(), rootPfn);
      EndsNothing(tablePfns);
      KeepsFreeRefl(backend.Mem(), Value());
    }

    /** What a region that is mapped to the end leaves behind. */
    lemma RegionKept(ledger: Ledger, spaces: seq<Space>, k: nat, created: seq<Created>, mapped: seq<nat>,
                     private: bool, orderly: bool)
      requires k < |spaces| && spaces[k].root == rootPfn
      requires RegionProgress(ledger, spaces[k := Value()], k, created, mapped, private, orderly)
      ensures Core(backend.Mem(), spaces[k := Value()]) && Live(spaces[k := Value()], k) && Coherent()
      ensures NoneFreed(backend.Mem(), spaces[k := Value()]) && OthersSame(ledger.before, backend.Mem(), spaces, k)
      ensures PagesSet(ledger.before, backend.Mem(), rootPfn, ledger.mapped, ledger.ds)
    {
      hide Inv, Core, Lists, Transaction, OthersSame, PagesSet, NoneFreed, KeepsPrivate, Undoes, Ends, KeepsFree;
      RegionDone(ledger, backend.Mem(), spaces, spaces[k := Value()], k, created);
      InvParts(backend.Mem(), spaces[k := Value()], k);
      ListsNoneFreed(backend.Mem(), spaces[k := Value()]);
    }

    ghost predicate RegionProgress(ledger: Ledger, spaces: seq<Space>, k: nat, created: seq<Created>, mapped: seq<nat>,
                                   private: bool, orderly: bool)
      reads this, backend
    {
      && InTransaction(ledger, spaces, k, created) && Coherent() && AllIndices(mapped, ledger.mapped)
      && KeepsPrivate(ledger.before, backend.Mem(), rootPfn)
      && (private ==> Undoable(ledger, created)) && (orderly ==> Ends(tablePfns, created))
      && KeepsFree(ledger.before, Space(rootPfn, ledger.was), backend.Mem(), Value())
    }

    /** One page of a region, with rollback of all of it. */
    method MapRegionPage(vaddr: nat, pfn: Pfn, readable: bool, writable: bool, executable: bool, created: seq<Created>,
                         mapped: seq<nat>,
                         ghost ledger: Ledger, ghost spaces: seq<Space>, ghost k: nat, ghost private: bool,
                           ghost orderly: bool)
      returns (r: Result<()>, recorded: seq<Created>, pages: seq<nat>, ghost after: Ledger)
      requires RegionProgress(ledger, spaces, k, created, mapped, private, orderly) && UserRangeValid(vaddr, PAGE_SIZE)
      requires private || (orderly && created != []) ==> PrivateSoFar(ledger.before, rootPfn, IndexOf(vaddr))
      modifies this`tablePfns, this`cache, backend
      ensures r.Ok? ==> after == Extended(ledger, IndexOf(vaddr), UserPage(pfn, readable, writable, executable))
      ensures r.Ok? ==> RegionProgress(after, spaces[k := Value()], k, recorded, pages, private, orderly)
      ensures r.Ok? ==> recorded == created || !Reaches(ledger.before, rootPfn, IndexOf(vaddr))
      ensures r.Err? ==>
              Coherent() && Core(backend.Mem(), spaces[k := Value()]) && SameViews(ledger.before, backend.Mem(), spaces)
      ensures r.Err? && private ==> backend.Mem() == ledger.before && tablePfns == ledger.was
      ensures r.Err? ==> (Live(spaces[k := Value()], k) <==> NoneFreed(backend.Mem(), spaces[k := Value()]))
      ensures r.Err? && orderly ==> Live(spaces[k := Value()], k)
      ensures r == Err(AlreadyMapped) ==>
              IndexOf(vaddr) in ledger.mapped || View(ledger.before, rootPfn, IndexOf(vaddr)) != ZERO
      ensures backend.Drew(old(backend.Stock()), 4, r == Err(OutOfMemory))
      ensures r.Err? ==> r.error in {OutOfMemory, InvalidAddress, AlreadyMapped}
      ensures r == Err(InvalidAddress) ==>
                !Addressable(pfn) || Stuck(ledger.before, Space(rootPfn, ledger.was), IndexOf(vaddr))
    {
      hide Inv, Core, Lists, Transaction, Undoes, Agrees, View, SameViews, PrivateSoFar, OnlyViewSet, UserPage,
        MapAllowed, KeepsPrivate, AllIndices, UserIndex, UserRangeValid, TableIndices, Addressable, Ends, NoneFreed,
        Reaches, Stuck, KeepsFree, StockOf;
      UserPageIndex(vaddr);
      ghost var now, current, began := backend.Mem(), Value(), Space(rootPfn, ledger.was);
      StillFree(ledger.before, began, now, current, IndexOf(vaddr));
      TransactionParts(ledger.before, now, spaces, k, ledger.mapped, ledger.ds, created);
      KeptReaches(ledger.before, now, rootPfn, IndexOf(vaddr));
      if private || (orderly && created != []) { KeptPrivate(ledger.before, now, rootPfn, IndexOf(vaddr)); }
      r, recorded, pages,
        after := MapUserPageRecorded(vaddr, pfn, readable, writable, executable, created, mapped, ledger, spaces, k);
      if r.Err? {
        ghost var failed, used := spaces[k := Value()], backend.pages.Keys;
        RollbackMappingTransaction(pages, recorded, after, failed, k);
        StockLess(backend.supply, used, backend.pages.Keys);
        assert failed[k := Value()] == spaces[k := Value()];
        SameViewsRoots(ledger.before, backend.Mem(), spaces, failed);
      } else {
        KeepsPrivateTrans(ledger.before, now, backend.Mem(), rootPfn);
        KeepsFreeTrans(ledger.before, began, now, current, backend.Mem(), Value());
      }
    }

    /** The cached leaf is the private leaf below its cached index. */
    ghost predicate CachedOk(cachedIndex: Option<nat>, cachedLeaf: Pfn)
      reads this, backend
    {
      cachedIndex.Some? ==>
        && PrivatePath(backend.Mem(), rootPfn, Index(0, cachedIndex.value, 0))
        && Leaf(backend.Mem(), rootPfn, Index(0, cachedIndex.value, 0)) == cachedLeaf
    }

    ghost predicate RunProgress(ledger: Ledger, spaces: seq<Space>, k: nat, created: seq<Created>, mapped: seq<nat>)
      reads this, backend
    {
      && InTransaction(ledger, spaces, k, created) && Coherent() && AllIndices(mapped, ledger.mapped)
      && KeepsFree(ledger.before, Space(rootPfn, ledger.was), backend.Mem(), Value())
    }

    /** One page of `MapUserPagesWithProtection`: the walk is skipped when the
        previous page had the same leaf. */
    method MapPageCached(vaddr: nat, pfn: Pfn, protection: Protection, created: seq<Created>, mapped: seq<nat>,
                         cachedIndex: Option<nat>, cachedLeaf: Pfn, ghost ledger: Ledger, ghost spaces: seq<Space>,
                           ghost k: nat)
      returns (r: Result<()>, recorded: seq<Created>, pages: seq<nat>, newIndex: Option<nat>, newLeaf: Pfn,
        ghost after: Ledger)
      requires RunProgress(ledger, spaces, k, created, mapped)
      requires UserRangeValid(vaddr, PAGE_SIZE) && CachedOk(cachedIndex, cachedLeaf)
      modifies this`tablePfns, this`cache, backend
      ensures RunProgress(after, spaces[k := Value()], k, recorded, pages)
      ensures r.Ok? ==>
              CachedOk(newIndex, newLeaf) && after == Extended(ledger, IndexOf(vaddr), PageFor(pfn, protection))
      ensures r.Err? ==> after == ledger
      ensures r == Err(AlreadyMapped) ==> View(old(backend.Mem()), rootPfn, IndexOf(vaddr)) != ZERO
      ensures backend.Drew(old(backend.Stock()), 4, r == Err(OutOfMemory))
      ensures r.Err? ==> r.error in {OutOfMemory, InvalidAddress, AlreadyMapped}
      ensures r == Err(InvalidAddress) ==>
                !Addressable(pfn) || Stuck(ledger.before, Space(rootPfn, ledger.was), IndexOf(vaddr))
    {
      hide Inv, Core, Lists, Transaction, Undoes, Agrees, View, SameViews, PrivateSoFar, PrivatePath, Leaf,
        OnlyViewSet, UserPage, Stuck, KeepsPrivate, AllIndices, UserIndex, UserRangeValid, TableIndices, Addressable,
        Reaches, Entry, Put, KeepsFree, StockOf;
      recorded, pages, after, newIndex, newLeaf := created, mapped, ledger, cachedIndex, cachedLeaf;
      ghost var m, now, began := backend.Mem(), Value(), Space(rootPfn, ledger.was);
      UserPageIndex(vaddr);
      StillFree(ledger.before, began, m, now, IndexOf(vaddr));
      var ix := IndexOf(vaddr);
      if cachedIndex.Some? { SameLeafPath(m, rootPfn, Index(0, cachedIndex.value, 0), ix); }
      var private := PreparePath(vaddr, created, ledger, spaces, k);
      ghost var m1, spaces1, half := backend.Mem(), spaces[k := Value()], Value();
      KeepsFreeTrans(ledger.before, began, m, now, m1, half);
      if private.Err? {
        return Err(private.error), recorded, pages, newIndex, newLeaf, after;
      }
      if cachedIndex != Some(ix.i1) {
        var leaf;
        leaf, recorded := EnsureLeafTable(ix, created, ledger, spaces1, k);
        KeepsFreeTrans(ledger.before, began, m1, half, backend.Mem(), Value());
        SameViewsTrans(m, m1, backend.Mem(), spaces, spaces1);
        SameViewsAt(m, backend.Mem(), spaces, k, ix);
        SameAgrees(cache, m, backend.Mem(), rootPfn);
        assert spaces1[k := Value()] == spaces[k := Value()];
        if leaf.Err? {
          return Err(leaf.error), recorded, pages, newIndex, newLeaf, after;
        }
        newIndex, newLeaf := Some(ix.i1), leaf.value;
      }
      ghost var walked := backend.Mem();
      r, pages, after := MapCachedLeaf(vaddr, ix, newLeaf, pfn, protection, recorded, mapped, ledger,
        spaces[k := Value()], k);
      KeepsFreeTrans(ledger.before, began, walked, Value(), backend.Mem(), Value());
      if r.Ok? { SameLeafPath(backend.Mem(), rootPfn, ix, Index(0, ix.i1, 0)); }
    }

    /** One page of a run, with rollback of all of it on AlreadyMapped. */
    method MapRunPage(vaddr: nat, pfn: Pfn, protection: Protection, created: seq<Created>, mapped: seq<nat>,
                      cachedIndex: Option<nat>, cachedLeaf: Pfn, ghost ledger: Ledger, ghost spaces: seq<Space>,
                        ghost k: nat)
      returns (r: Result<()>, recorded: seq<Created>, pages: seq<nat>, newIndex: Option<nat>, newLeaf: Pfn,
        ghost after: Ledger)
      requires RunProgress(ledger, spaces, k, created, mapped)
      requires UserRangeValid(vaddr, PAGE_SIZE) && CachedOk(cachedIndex, cachedLeaf)
      modifies this`tablePfns, this`cache, backend
      ensures r != Err(AlreadyMapped) ==> RunProgress(after, spaces[k := Value()], k, recorded, pages)
      ensures r.Ok? ==>
              CachedOk(newIndex, newLeaf) && after == Extended(ledger, IndexOf(vaddr), PageFor(pfn, protection))
      ensures r.Err? ==> after == ledger
      ensures r == Err(AlreadyMapped) ==>
                && Coherent() && Core(backend.Mem(), spaces[k := Value()])
                  && SameViews(ledger.before, backend.Mem(), spaces)
                && (Live(spaces[k := Value()], k) <==> NoneFreed(backend.Mem(), spaces[k := Value()]))
                && (IndexOf(vaddr) in ledger.mapped || View(ledger.before, rootPfn, IndexOf(vaddr)) != ZERO)
      ensures backend.Drew(old(backend.Stock()), 4, r == Err(OutOfMemory))
      ensures r.Err? ==> r.error in {OutOfMemory, InvalidAddress, AlreadyMapped}
      ensures r == Err(InvalidAddress) ==>
                !Addressable(pfn) || Stuck(ledger.before, Space(rootPfn, ledger.was), IndexOf(vaddr))
    {
      hide Inv, Core, Lists, Transaction, Agrees, View, SameViews, PrivatePath, Leaf, UserPage, AllIndices,
        UserRangeValid, PageFor, NoneFreed, TableIndices, UserIndex, Ends, KeepsFree, StockOf, Stuck, Addressable;
      UserPageIndex(vaddr);
      TransactionParts(ledger.before, backend.Mem(), spaces, k, ledger.mapped, ledger.ds, created);
      r, recorded, pages, newIndex, newLeaf, after :=
        MapPageCached(vaddr, pfn, protection, created, mapped, cachedIndex, cachedLeaf, ledger, spaces, k);
      if r == Err(AlreadyMapped) {
        ghost var failed, used := spaces[k := Value()], backend.pages.Keys;
        RollbackMappingTransaction(pages, recorded, after, failed, k);
        StockLess(backend.supply, used, backend.pages.Keys);
        assert failed[k := Value()] == spaces[k := Value()];
        SameViewsRoots(ledger.before, backend.Mem(), spaces, failed);
      }
    }

    /** The rest of the loop body: check and write the entry of a private leaf. */
    method MapCachedLeaf(vaddr: nat, ix: Index, leaf: Pfn, pfn: Pfn, protection: Protection, created: seq<Created>,
                         mapped: seq<nat>,
                         ghost ledger: Ledger, ghost spaces: seq<Space>, ghost k: nat)
      returns (r: Result<()>, pages: seq<nat>, ghost after: Ledger)
      requires InTransaction(ledger, spaces, k, created) && Coherent() && AllIndices(mapped, ledger.mapped)
      requires vaddr < 0x80_0000_0000 && ix == IndexOf(vaddr) && UserIndex(ix)
      requires PrivatePath(backend.Mem(), rootPfn, ix) && leaf == Leaf(backend.Mem(), rootPfn, ix)
      modifies this`cache, backend`pages, backend`refs, backend`level
      ensures InTransaction(after, spaces, k, created) && Coherent() && AllIndices(pages, after.mapped)
      ensures r.Ok? ==> PrivatePath(backend.Mem(), rootPfn, ix) && leaf == Leaf(backend.Mem(), rootPfn, ix)
      ensures r.Ok? ==> after == Extended(ledger, ix, PageFor(pfn, protection))
      ensures r.Err? ==>
              after == ledger && backend.Mem() == old(backend.Mem()) && r.error in {InvalidAddress, AlreadyMapped}
      ensures r == Err(AlreadyMapped) ==> View(old(backend.Mem()), rootPfn, ix) != ZERO
      ensures r == Err(InvalidAddress) ==> !Addressable(pfn)
      ensures KeepsFree(old(backend.Mem()), Value(), backend.Mem(), Value()) && backend.Stock() == old(backend.Stock())
    {
      hide Inv, Core, Lists, Transaction, Agrees, View, PrivatePath, Leaf, OnlyViewSet, UserPage, Shape, Typed, Entry,
        Put, Broken, Reaches, Addressable, TableIndices, Level, KeepsFree, StockOf;
      pages, after := mapped, ledger;
      ghost var m := backend.Mem();
      InvParts(m, spaces, k);
      KeepsFreeRefl(m, Value());
      PrivateReaches(m, rootPfn, ix);
      WalkTyped(m, rootPfn, ix);
      ShapeAt(m, leaf);
      EntryIs(m, leaf, ix.i2);
      var descriptor := backend.ReadTableEntry(leaf, ix.i2);
      if descriptor != ZERO {
        return Err(AlreadyMapped), pages, after;
      }
      if !Addressable(pfn) {
        return Err(InvalidAddress), pages, after;
      }
      var d := PageFor(pfn, protection);
      UserPageNonzero(pfn, protection.readable, protection.writable, protection.executable);
      UnmappedBroken(cache, m, rootPfn, ix);
      WriteLeaf(leaf, ix.i2, d, ix, spaces, k);
      CacheAfterMake(cache, old(cache), m, backend.Mem(), spaces, k, ix, d);
      FreeAfterPut(m, backend.Mem(), Value(), leaf, ix.i2, d);
      MapStep(ledger.before, m, backend.Mem(), spaces, k, ledger.mapped, ledger.ds, created, ix, d);
      pages, after := pages + [vaddr], Extended(ledger, ix, d);
      r := Ok(());
    }

    /** Maps a run of pages with a frame and a protection each, walking the
        tables once per leaf. When it succeeds it has done what mapping each
        page in turn does. AlreadyMapped rolls everything back; the other
        failures return at once and leave the `kept` pages before them mapped. */
    method MapUserPagesWithProtection(vaddr: nat, pfns: seq<Pfn>, protections: seq<Protection>,
                                      ghost spaces: seq<Space>, ghost k: nat)
      returns (r: Result<()>, ghost kept: nat)
      requires Live(spaces, k) && Coherent() && |pfns| == |protections|
      modifies this`tablePfns, this`cache, backend
      ensures Coherent() && Core(backend.Mem(), spaces[k := Value()]) && kept <= |pfns|
      ensures !UserRegion(vaddr, |pfns|) ==> r == Err(InvalidAddress) && kept == 0
      ensures if r.Ok? then kept == |pfns| else r.error in {OutOfMemory, InvalidAddress, AlreadyMapped}
      ensures r == Err(InvalidAddress) && UserRegion(vaddr, |pfns|) ==>
                && kept < |pfns|
                && (!Addressable(pfns[kept]) || Stuck(old(backend.Mem()), old(Value()), RegionIndex(vaddr, kept)))
      ensures backend.Drew(old(backend.Stock()), 4 * |pfns|, r == Err(OutOfMemory))
      ensures r != Err(AlreadyMapped) ==>
                && Live(spaces[k := Value()], k) && OthersSame(old(backend.Mem()), backend.Mem(), spaces, k)
                && PagesSet(old(backend.Mem()), backend.Mem(), rootPfn, RegionIndices(vaddr, kept),
                  PagesFor(pfns, protections, kept))
      ensures r == Err(AlreadyMapped) ==>
                && kept == 0 && SameViews(old(backend.Mem()), backend.Mem(), spaces)
                && (Live(spaces[k := Value()], k) <==> NoneFreed(backend.Mem(), spaces[k := Value()]))
                && SomeMapped(old(backend.Mem()), rootPfn, RegionIndices(vaddr, |pfns|))
    {
      hide Inv, Core, Lists, Transaction, Undoes, Agrees, View, SameViews, OnlyViewSet, UserPage, OthersSame, PagesSet,
        RegionIndices, RegionIndex, PagesFor, UserIndex, AllIndices, PrivatePath, Leaf, PageFor, RunProgress,
        InTransaction, Underway, NoneFreed, SomeMapped, StockOf, UserRegion, Stuck, Addressable, Shape, Typed;
      ghost var m, was := backend.Mem(), tablePfns;
      UserRegionIff(vaddr, |pfns|);
      kept := 0;
      InvParts(m, spaces, k);
      assert spaces[k := Value()] == spaces;
      ghost var ledger := Ledger(m, was, [], []);
      PagesEmpty(vaddr, pfns, protections);
      RunStart(spaces, k);
      RunKept(ledger, spaces, k, [], []);
      var pageCount := |pfns|;
      if pageCount * PAGE_SIZE >= USIZE_LIMIT || !UserRangeValid(vaddr, pageCount * PAGE_SIZE) {
        return Err(InvalidAddress), kept;
      }
      hide UserRangeValid;
      var reserved := backend.TryReserve();
      if !reserved {
        return Err(OutOfMemory), kept;
      }
      var created: seq<Created>, mapped: seq<nat> := [], [];
      var cachedIndex: Option<nat>, cachedLeaf := None, Pfn(0);
      var pageIndex := 0;
      while pageIndex < pageCount
        invariant 0 <= pageIndex <= pageCount && kept == pageIndex
        invariant ledger == Ledger(m, was, RegionIndices(vaddr, pageIndex), PagesFor(pfns, protections, pageIndex))
        invariant backend.Spent(old(backend.Stock()), 4 * pageIndex)
        invariant RunProgress(ledger, spaces[k := Value()], k, created, mapped) && CachedOk(cachedIndex, cachedLeaf)
      {
        RegionPage(vaddr, pageCount, pageIndex);
        ghost var live := spaces[k := Value()];
        r, created, mapped, cachedIndex, cachedLeaf,
          ledger := MapRunPage(vaddr + pageIndex * PAGE_SIZE, pfns[pageIndex],
          protections[pageIndex], created, mapped, cachedIndex, cachedLeaf, ledger, live, k);
        assert live[k := Value()] == spaces[k := Value()];
        if r == Err(AlreadyMapped) {
          SameViewsRoots(m, backend.Mem(), spaces, live);
          WasMapped(m, rootPfn, vaddr, pageCount, pageIndex);
          return r, 0;
        }
        if r.Err? {
          RunKept(ledger, spaces, k, created, mapped);
          return r, pageIndex;
        }
        PagesExtend(vaddr, pfns, protections, pageIndex);
        pageIndex, kept := pageIndex + 1, kept + 1;
      }
      RunKept(ledger, spaces, k, created, mapped);
      r := Ok(());
    }

    lemma RunStart(spaces: seq<Space>, k: nat)
      requires Live(spaces, k) && Coherent()
      ensures RunProgress(Ledger(backend.Mem(), tablePfns, [], []), spaces, k, [], [])
    {
      hide Inv, Core, Lists, Agrees, Transaction, KeepsFree;
      InvParts(backend.Mem(), spaces, k);
      Begin(backend.Mem(), spaces, k);
      KeepsFreeRefl(backend.Mem(), Value());
    }

    /** What a run that stops without rollback leaves behind. */
    lemma RunKept(ledger: Ledger, spaces: seq<Space>, k: nat, created: seq<Created>, mapped: seq<nat>)
      requires k < |spaces| && spaces[k].root == rootPfn
               && RunProgress(ledger, spaces[k := Value()], k, created, mapped)
      ensures Core(backend.Mem(), spaces[k := Value()]) && Live(spaces[k := Value()], k) && Coherent()
      ensures OthersSame(ledger.before, backend.Mem(), spaces, k)
      ensures PagesSet(ledger.before, backend.Mem(), rootPfn, ledger.mapped, ledger.ds)
    {
      hide Inv, Core, Lists, Transaction, OthersSame, PagesSet, KeepsFree;
      RegionDone(ledger, backend.Mem(), spaces, spaces[k := Value()], k, created);
      InvParts(backend.Mem(), spaces[k := Value()], k);
    }
  }

  ghost predicate AllIndices(mapped: seq<nat>, indices: seq<Index>) {
    |mapped| == |indices| && forall i :: 0 <= i < |mapped| ==>
      mapped[i] < 0x80_0000_0000 && indices[i] == IndexOf(mapped[i])
  }

  lemma ZeroAllNone(m: Memory, root: Pfn)
    ensures ZeroAll(m, root, []) == m
  {}

  lemma NothingLeft(m: Memory, pfns: seq<Pfn>)
    ensures UnlinkAll(m, []) == m && PopCreated(pfns, []) == pfns && Children([]) == []
  {}

  /** Two states of one rolled-back transaction look the same. */
  lemma SameFromStart(before: Memory, m: Memory, n: Memory, spaces: seq<Space>, k: nat, created: seq<Created>,
                      fewer: seq<Created>)
    requires Transaction(before, m, spaces, k, [], [], created) && Transaction(before, n, spaces, k, [], [], fewer)
    ensures SameView(m, n, spaces[k].root)
  {
    hide View, Core, CreatedOk;
  }

  lemma SameViewsRoots(m: Memory, n: Memory, spaces: seq<Space>, after: seq<Space>)
    requires SameViews(m, n, after) && SameRoots(spaces, after)
    ensures SameViews(m, n, spaces)
  {
    hide View;
    forall k | 0 <= k < |spaces| ensures SameView(m, n, spaces[k].root) { assert SameView(m, n, after[k].root); }
  }

  lemma EntryIs(m: Memory, q: Pfn, i: nat)
    requires q in m.pages && i < |m.pages[q]|
    ensures Entry(m, q, i) == m.pages[q][i]
  {}

  ghost function Extended(ledger: Ledger, ix: Index, d: Descriptor): Ledger {
    ledger.(mapped := ledger.mapped + [ix], ds := ledger.ds + [d])
  }

  /** Every condition but free memory under which one page gets mapped. */
  ghost predicate MapAllowed(m: Memory, s: Space, vaddr: nat, pfn: Pfn) {
    UserRangeValid(vaddr, PAGE_SIZE) && Addressable(pfn) && View(m, s.root, IndexOf(vaddr)) == ZERO
      && !Stuck(m, s, IndexOf(vaddr))
  }

  /** What a refusal to map means. */
  ghost predicate MapRefused(error: Error, m: Memory, s: Space, vaddr: nat, pfn: Pfn) {
    && error in {OutOfMemory, InvalidAddress, AlreadyMapped}
    && (error == InvalidAddress ==>
      !UserRangeValid(vaddr, PAGE_SIZE) || !Addressable(pfn) || Stuck(m, s, IndexOf(vaddr)))
    && (error == AlreadyMapped ==> UserRangeValid(vaddr, PAGE_SIZE) && View(m, s.root, IndexOf(vaddr)) != ZERO)
  }

  lemma PutKeys(m: Memory, q: Pfn, i: nat, d: Descriptor)
    ensures Put(m, q, i, d).pages.Keys == m.pages.Keys
  {}

  /** All that linking a fresh table means to the live spaces. */
  lemma LinkedChild(m: Memory, spaces: seq<Space>, k: nat, q: Pfn, i: nat, c: Pfn)
    requires Inv(m, spaces) && k < |spaces| && q in m.pages && i < ENTRIES && Entry(m, q, i) == ZERO
    requires (q == spaces[k].root || Level(m, q) == 1) && c !in m.pages && FitsFrame(c)
    ensures var n := Linked(m, q, i, c, TableDescriptor(c));
            && Inv(n, spaces[k := Push(spaces[k], c)]) && SameViews(m, n, spaces) && AllKeepPrivate(m, n, spaces)
            && n.pages.Keys == m.pages.Keys + {c} && Level(m, q) < 2 && KeepsFree(m, spaces[k], n, Push(spaces[k], c))
  {
    hide Inv, SameViews, LinkStep, Shape, Typed, Core, Lists, OwnsLevelOne, TableDescriptor, FitsFrame, Linked, Level,
      AllKeepPrivate, KeepsFree;
    var d := TableDescriptor(c);
    var n := Linked(m, q, i, c, d);
    InvParts(m, spaces, k);
    ShapeAt(m, q);
    TableDescriptorNames(c);
    LinkedStep(m, q, i, c, d);
    LinkedKeys(m, q, i, c, d);
    AllKeepLink(m, n, spaces, q, i, c, d);
    FreeAfterLink(m, n, spaces[k], q, i, c, d);
    LinkKeeps(m, n, spaces, k, q, i, c, d);
    InvFrom(n, spaces[k := Push(spaces[k], c)]);
  }

  lemma LinkedKeys(m: Memory, q: Pfn, i: nat, c: Pfn, d: Descriptor)
    ensures Linked(m, q, i, c, d).pages.Keys == m.pages.Keys + {c}
  {}

  lemma DetachKeys(m: Memory, n: Memory, q: Pfn, i: nat, source: Pfn, copy: Pfn, d: Descriptor)
    requires DetachStep(m, n, q, i, source, copy, d)
    ensures n.pages.Keys == m.pages.Keys + {copy}
  {}

  lemma PrivateSoFarOnly(m: Memory, root: Pfn, ix: Index)
    ensures PrivatePath(m, root, ix) ==> PrivateSoFar(m, root, ix)
  {}

  lemma UserPageNonzero(pfn: Pfn, readable: bool, writable: bool, executable: bool)
    ensures UserPage(pfn, readable, writable, executable) != ZERO
  {}

  lemma UserPageIndex(vaddr: nat)
    requires UserRangeValid(vaddr, PAGE_SIZE)
    ensures vaddr < 0x80_0000_0000 && UserIndex(IndexOf(vaddr)) && Within(IndexOf(vaddr))
    ensures IndexOf(vaddr).i0 == 0 && 128 <= IndexOf(vaddr).i1 < 256
  {
    UserIndices(vaddr);
  }

  // ---------- runs of pages ----------

  function PfnAt(first: Pfn, i: nat): Pfn
    requires i < USIZE_LIMIT
  {
    Pfn(first.number + (i as bv64))
  }

  /** The source's checked addition of the last frame number. */
  predicate PfnOverflows(first: Pfn, count: nat)
    requires 0 < count < USIZE_LIMIT
  {
    PfnAt(first, count - 1).number < first.number
  }

  function RegionIndex(vaddr: nat, i: nat): Index {
    if vaddr + i * PAGE_SIZE < 0x80_0000_0000 then IndexOf(vaddr + i * PAGE_SIZE) else Index(0, 0, 0)
  }

  ghost function RegionIndices(vaddr: nat, count: nat): seq<Index> {
    seq(count, i requires 0 <= i < count => RegionIndex(vaddr, i))
  }

  ghost function RegionPages(first: Pfn, count: nat, readable: bool, writable: bool,
                             executable: bool): seq<Descriptor> {
    seq(count, i requires 0 <= i < count => if i < USIZE_LIMIT then UserPage(PfnAt(first, i), readable, writable,
      executable) else ZERO)
  }

  /** A run of whole pages of user memory. */
  predicate UserRegion(vaddr: nat, count: nat) {
    vaddr % 0x1000 == 0 && count > 0 && 0x1000_0000 <= vaddr && vaddr + count * 0x1000 <= 0x2000_0000
  }

  /** The range check accepts exactly the runs of whole user pages. */
  lemma UserRegionIff(vaddr: nat, count: nat)
    ensures UserRangeValid(vaddr, count * PAGE_SIZE) <==> UserRegion(vaddr, count)
  {}

  /** Some frame of the run has no address, or some page of it is stuck. */
  ghost predicate RegionFault(m: Memory, s: Space, vaddr: nat, first: Pfn, count: nat)
    requires count < USIZE_LIMIT
  {
    exists i :: 0 <= i < count && (!Addressable(PfnAt(first, i)) || Stuck(m, s, RegionIndex(vaddr, i)))
  }

  /** A region of user pages, none of them mapped or stuck, and frames that all
      have an address. */
  ghost predicate RegionFree(m: Memory, s: Space, vaddr: nat, first: Pfn, count: nat) {
    && UserRegion(vaddr, count) && !PfnOverflows(first, count) && !SomeMapped(m, s.root, RegionIndices(vaddr, count))
    && !RegionFault(m, s, vaddr, first, count)
  }

  lemma FaultAt(m: Memory, s: Space, vaddr: nat, first: Pfn, count: nat, i: nat)
    requires UserRangeValid(vaddr, count * PAGE_SIZE) && i < count < USIZE_LIMIT
    requires !Addressable(PfnAt(first, i))
             || (vaddr + i * PAGE_SIZE < 0x80_0000_0000 && Stuck(m, s, IndexOf(vaddr + i * PAGE_SIZE)))
    ensures RegionFault(m, s, vaddr, first, count)
  {
    hide Stuck, Addressable, PfnAt;
    RegionPage(vaddr, count, i);
  }

  lemma StillFree(m: Memory, s: Space, n: Memory, t: Space, ix: Index)
    requires KeepsFree(m, s, n, t) && UserIndex(ix)
    ensures Stuck(n, t, ix) ==> Stuck(m, s, ix)
  {
    hide Stuck;
  }

  lemma RegionPage(vaddr: nat, count: nat, i: nat)
    requires UserRangeValid(vaddr, count * PAGE_SIZE) && i < count
    ensures i < USIZE_LIMIT && UserRangeValid(vaddr + i * PAGE_SIZE, PAGE_SIZE)
    ensures UserIndex(RegionIndex(vaddr, i)) && RegionIndex(vaddr, i) == IndexOf(vaddr + i * PAGE_SIZE)
  {
    UserIndices(vaddr + i * PAGE_SIZE);
  }

  /** Some page was mapped before. */
  ghost predicate SomeMapped(m: Memory, root: Pfn, pages: seq<Index>) {
    exists i :: 0 <= i < |pages| && View(m, root, pages[i]) != ZERO
  }

  lemma WasMapped(m: Memory, root: Pfn, vaddr: nat, count: nat, i: nat)
    requires UserRangeValid(vaddr, count * PAGE_SIZE) && i < count
    requires IndexOf(vaddr + i * PAGE_SIZE) in RegionIndices(vaddr, i)
             || View(m, root, IndexOf(vaddr + i * PAGE_SIZE)) != ZERO
    ensures SomeMapped(m, root, RegionIndices(vaddr, count))
  {
    hide View;
    RegionPage(vaddr, count, i);
    forall j | 0 <= j < i ensures RegionIndex(vaddr, j) != RegionIndex(vaddr, i) {
      RegionPage(vaddr, count, j);
      IndicesInjectiveOn(vaddr + j * PAGE_SIZE, vaddr + i * PAGE_SIZE);
    }
    assert RegionIndices(vaddr, count)[i] == RegionIndex(vaddr, i);
  }

  lemma IndicesInjectiveOn(a: nat, b: nat)
    requires UserRangeValid(a, PAGE_SIZE) && UserRangeValid(b, PAGE_SIZE) && a != b
    ensures a < 0x80_0000_0000 && b < 0x80_0000_0000 && IndexOf(a) != IndexOf(b)
  {
    UserPageIndex(a);
    UserPageIndex(b);
    if IndexOf(a) == IndexOf(b) { IndicesInjective(a, b); }
  }

  lemma RegionExtend(vaddr: nat, first: Pfn, i: nat, readable: bool, writable: bool, executable: bool)
    requires i < USIZE_LIMIT
    ensures RegionIndices(vaddr, i + 1) == RegionIndices(vaddr, i) + [RegionIndex(vaddr, i)]
    ensures RegionPages(first, i + 1, readable, writable, executable)
         == RegionPages(first, i, readable, writable,
           executable) + [UserPage(PfnAt(first, i), readable, writable, executable)]
  {
    hide UserPage, RegionIndex, PfnAt;
  }

  lemma RegionEmpty(vaddr: nat, first: Pfn, readable: bool, writable: bool, executable: bool)
    ensures RegionIndices(vaddr, 0) == [] && RegionPages(first, 0, readable, writable, executable) == []
            && AllIndices([], [])
  {}

  lemma KeptPrivate(m: Memory, n: Memory, root: Pfn, ix: Index)
    requires KeepsPrivate(m, n, root) && UserIndex(ix) && PrivateSoFar(m, root, ix)
    ensures PrivateSoFar(n, root, ix)
  {}

  /** Writing to a private leaf leaves alone what was left behind. */
  lemma LeftAfterWrite(m: Memory, n: Memory, spaces: seq<Space>, after: seq<Space>, k: nat, ix: Index, leaf: Pfn,
                       d: Descriptor)
    requires Inv(n, after) && SameRoots(spaces, after) && k < |spaces| && Within(ix)
    requires PrivatePath(n, spaces[k].root, ix) && leaf == Leaf(n, spaces[k].root, ix)
             && LeftBehind(m, n, spaces[k].root, ix)
    ensures LeftBehind(m, Put(Put(n, leaf, ix.i2, ZERO), leaf, ix.i2, d), spaces[k].root, ix)
  {
    hide Inv, Put, Level, Entry, RefsOf, Typed, Shape, LeftBehind;
    var root, zeroed := spaces[k].root, Put(n, leaf, ix.i2, ZERO);
    InvParts(n, after, k);
    PrivateReaches(n, root, ix);
    WalkTyped(n, root, ix);
    ShapeAt(n, leaf);
    PutEntries(n, leaf, ix.i2, ZERO);
    LeftPut(m, n, zeroed, root, ix, leaf, ix.i2, ZERO);
    LeftPut(m, zeroed, Put(zeroed, leaf, ix.i2, d), root, ix, leaf, ix.i2, d);
  }

  lemma KeptReaches(m: Memory, n: Memory, root: Pfn, ix: Index)
    requires KeepsPrivate(m, n, root) && UserIndex(ix)
    ensures Reaches(m, root, ix) ==> Reaches(n, root, ix)
  {}

  lemma BehindMissing(m: Memory, root: Pfn, vaddr: nat, count: nat, i: nat, j: nat)
    requires SharedFirst(m, root, RegionIndices(vaddr, count)) && i < j < count
             && !Reaches(m, root, RegionIndex(vaddr, i))
    ensures PrivateSoFar(m, root, RegionIndex(vaddr, j))
  {
    hide Reaches, PrivateSoFar, RegionIndex;
    var pages := RegionIndices(vaddr, count);
    assert pages[i] == RegionIndex(vaddr, i) && pages[j] == RegionIndex(vaddr, j);
  }

  /** What a transaction knows of the tables it created. */
  lemma CreatedParts(before: Memory, m: Memory, spaces: seq<Space>, k: nat, created: seq<Created>)
    requires Transaction(before, m, spaces, k, [], [], created)
    ensures CreatedDistinct(created) && forall t :: 0 <= t < |created| ==> RefsOf(m, created[t].child) == 1
  {
    hide Core, View, MappedOk, CreatedDistinct, CreatedPlaced, CreatedAllLeaves, Names;
    forall t | 0 <= t < |created| ensures RefsOf(m, created[t].child) == 1 { assert StillLinked(m, created[t]); }
  }

  /** What a rollback means for the lists. */
  lemma RollbackOutcome(before: Memory, m: Memory, n: Memory, spaces: seq<Space>, k: nat, created: seq<Created>,
                        s: Space)
    requires Transaction(before, m, spaces, k, [], [], created) && Lists(m, spaces) && k < |spaces|
    requires n == UnlinkAll(m, created) && s == spaces[k].(pfns := PopCreated(spaces[k].pfns, created))
    requires Ends(spaces[k].pfns, created) ==> Lists(n, spaces[k := s])
    ensures Lists(n, spaces[k := s]) <==> Ends(spaces[k].pfns, created)
    ensures Lists(n, spaces[k := s]) <==> NoneFreed(n, spaces[k := s])
    ensures Ends(spaces[k].pfns, created) ==> s.pfns == spaces[k].pfns[..|spaces[k].pfns| - |created|]
  {
    hide Transaction, Lists, UnlinkAll, PopCreated, NoneFreed, Ends, CreatedDistinct;
    CreatedParts(before, m, spaces, k, created);
    PopsAllIff(spaces[k].pfns, created);
    if Ends(spaces[k].pfns, created) { ListsNoneFreed(n, spaces[k := s]); }
      else { RollbackSpoils(m, n, spaces, k, created, s); }
  }

  /** If the created tables do not end the list, rollback spoils it. */
  lemma RollbackSpoils(m: Memory, n: Memory, spaces: seq<Space>, k: nat, created: seq<Created>, s: Space)
    requires Lists(m, spaces) && k < |spaces| && CreatedDistinct(created) && !Ends(spaces[k].pfns, created)
    requires forall t :: 0 <= t < |created| ==> RefsOf(m, created[t].child) == 1
    requires n == UnlinkAll(m, created) && s == spaces[k].(pfns := PopCreated(spaces[k].pfns, created))
    ensures !NoneFreed(n, spaces[k := s]) && !Lists(n, spaces[k := s])
  {
    hide Lists, UnlinkAll, PopCreated, NoneFreed, Ends;
    RollbackFrees(m, spaces, k, created);
    if Lists(n, spaces[k := s]) { ListsNoneFreed(n, spaces[k := s]); }
  }

  /** Exactly the pages `mapped` changed: they were empty and now hold `ds`. */
  ghost predicate PagesSet(before: Memory, m: Memory, root: Pfn, mapped: seq<Index>, ds: seq<Descriptor>) {
    && |mapped| == |ds|
    && (forall i :: 0 <= i < |mapped| ==> View(before, root, mapped[i]) == ZERO && View(m, root, mapped[i]) == ds[i])
    && (forall ix :: Within(ix) && ix !in mapped ==> View(m, root, ix) == View(before, root, ix))
  }

  lemma RegionDone(l: Ledger, m: Memory, spaces: seq<Space>, after: seq<Space>, k: nat, created: seq<Created>)
    requires Underway(l, m, after, k, created) && SameRoots(spaces, after)
    ensures PagesSet(l.before, m, spaces[k].root, l.mapped, l.ds) && OthersSame(l.before, m, spaces, k)
  {
    hide Core, View, PrivatePath, CreatedOk;
    forall j | 0 <= j < |spaces| && j != k ensures SameView(l.before, m, spaces[j].root) {
      assert SameView(l.before, m, after[j].root);
    }
  }

  datatype Protection = Protection(readable: bool, writable: bool, executable: bool)

  function PageFor(pfn: Pfn, protection: Protection): Descriptor {
    UserPage(pfn, protection.readable, protection.writable, protection.executable)
  }

  lemma PageForIs(pfn: Pfn, protection: Protection)
    ensures PageFor(pfn, protection) == UserPage(pfn, protection.readable, protection.writable, protection.executable)
  {}

  ghost function PagesFor(pfns: seq<Pfn>, protections: seq<Protection>, count: nat): seq<Descriptor>
    requires count <= |pfns| == |protections|
  {
    seq(count, i requires 0 <= i < count => PageFor(pfns[i], protections[i]))
  }

  lemma PagesEmpty(vaddr: nat, pfns: seq<Pfn>, protections: seq<Protection>)
    requires |pfns| == |protections|
    ensures RegionIndices(vaddr, 0) == [] && PagesFor(pfns, protections, 0) == [] && AllIndices([], [])
  {}

  lemma PagesExtend(vaddr: nat, pfns: seq<Pfn>, protections: seq<Protection>, i: nat)
    requires i < |pfns| == |protections|
    ensures RegionIndices(vaddr, i + 1) == RegionIndices(vaddr, i) + [RegionIndex(vaddr, i)]
    ensures PagesFor(pfns, protections, i + 1) == PagesFor(pfns, protections, i) + [PageFor(pfns[i], protections[i])]
  {
    hide PageFor, RegionIndex;
  }

  lemma SameLeafPath(m: Memory, root: Pfn, ix: Index, jx: Index)
    ensures ix.i0 == jx.i0 && ix.i1 == jx.i1 ==>
              (PrivatePath(m, root, ix) <==> PrivatePath(m, root, jx)) && Leaf(m, root, ix) == Leaf(m, root, jx)
              && (PrivatePath(m, root, ix) ==> PrivateSoFar(m, root, jx))
  {}

  /** The descriptors a run of pages ends with determine all a space sees. */
  lemma PagesSetUnique(before: Memory, m: Memory, n: Memory, root: Pfn, mapped: seq<Index>, ds: seq<Descriptor>)
    requires PagesSet(before, m, root, mapped, ds) && PagesSet(before, n, root, mapped, ds)
    ensures SameView(m, n, root)
  {
    hide View;
    forall ix | Within(ix) ensures View(n, root, ix) == View(m, root, ix) {
      if ix in mapped {
        var i :| 0 <= i < |mapped| && mapped[i] == ix;
        assert View(m, root, mapped[i]) == ds[i];
      }
    }
  }
}

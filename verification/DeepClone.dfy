/** Deep clones: a fresh space gets copies of all tables of its source that hold
    anything, and sees what its source sees. */
module DeepClone {
  import opened AddressSpaces
  import opened Descriptors
  import opened Dropping
  import opened Options
  import opened TableBackend
  import opened TableMemory
  import opened TableSteps
  import opened Transactions

  /** Where the walk from a level-one table ends. */
  ghost function Below(m: Memory, one: Pfn, i1: nat, i2: nat): Descriptor {
    var d := Entry(m, one, i1);
    if IsTable(d) then Entry(m, d.pfn, i2) else d
  }

  /** All tables of `m` but `q` are in `n` as they were. */
  ghost predicate KeepsBut(m: Memory, n: Memory, q: Pfn) {
    && (forall p :: p in m.pages && p != q ==> p in n.pages && n.pages[p] == m.pages[p])
    && (forall p :: p in m.pages ==>
      p in n.pages && |n.pages[p]| == |m.pages[p]| && RefsOf(n, p) == RefsOf(m, p) && Level(n, p) == Level(m, p))
  }

  lemma KeepsTrans(m: Memory, n: Memory, o: Memory, q: Pfn)
    requires KeepsBut(m, n, q) && KeepsBut(n, o, q)
    ensures KeepsBut(m, o, q)
  {}

  lemma KeepsAdd(m: Memory, q: Pfn, level: nat, t: seq<Descriptor>, r: Pfn)
    requires q !in m.pages
    ensures KeepsBut(m, Add(m, q, level, t), r)
  {}

  lemma KeepsPut(m: Memory, q: Pfn, i: nat, d: Descriptor)
    ensures KeepsBut(m, Put(m, q, i, d), q)
  {}

  lemma KeepsNew(m: Memory, n: Memory, q: Pfn, r: Pfn)
    requires KeepsBut(m, n, q) && q !in m.pages
    ensures KeepsBut(m, n, r)
  {}

  lemma EntryKept(m: Memory, n: Memory, q: Pfn, p: Pfn, i: nat)
    requires KeepsBut(m, n, q) && p in m.pages && p != q
    ensures Entry(n, p, i) == Entry(m, p, i)
  {}

  /** A level-one table whose leaves are all there. */
  ghost predicate Complete(m: Memory, one: Pfn) {
    && one in m.pages && |m.pages[one]| == ENTRIES && Level(m, one) == 1
    && forall i :: 0 <= i < ENTRIES && IsTable(Entry(m, one, i)) ==>
         var p := Entry(m, one, i).pfn; p in m.pages && |m.pages[p]| == ENTRIES && Level(m, p) == 2
  }

  ghost predicate Keyed(m: Memory) {
    m.pages.Keys == m.refs.Keys == m.level.Keys
  }

  lemma TypedComplete(m: Memory, one: Pfn)
    requires Shape(m) && Typed(m) && one in m.pages && Level(m, one) == 1
    ensures Complete(m, one)
  {
    forall i | 0 <= i < ENTRIES && IsTable(Entry(m, one, i))
      ensures var p := Entry(m, one, i).pfn; p in m.pages && |m.pages[p]| == ENTRIES && Level(m, p) == 2
    {
      assert EntryTyped(m, one, Entry(m, one, i));
    }
  }

  lemma CompleteKept(m: Memory, n: Memory, q: Pfn, one: Pfn)
    requires Complete(m, one) && KeepsBut(m, n, q) && q in m.pages && Level(m, q) == 0
    ensures Complete(n, one)
  {
    forall i: nat ensures Entry(n, one, i) == Entry(m, one, i) { EntryKept(m, n, q, one, i); }
  }

  /** The leaf at slot `i1` of `one` holds nothing. */
  ghost predicate EmptyAt(m: Memory, one: Pfn, i1: nat) {
    forall i2: nat :: i2 < ENTRIES ==> Below(m, one, i1, i2) == ZERO
  }

  /** Below slot `i1` the copy shows what the original shows. */
  ghost predicate SameBelow(m: Memory, one: Pfn, n: Memory, copy: Pfn, i1: nat) {
    && (forall i2: nat :: i2 < ENTRIES ==> Below(n, copy, i1, i2) == Below(m, one, i1, i2))
    && (IsTable(Entry(n, copy, i1)) ==> LeafOf(n, copy, Entry(n, copy, i1).pfn))
  }

  ghost predicate LeafOf(n: Memory, copy: Pfn, leaf: Pfn) {
    leaf in n.pages && leaf != copy && Level(n, leaf) == 2
  }

  /** How many of the first `n` entries of a table lead to tables. */
  ghost function Links(m: Memory, p: Pfn, n: nat): nat {
    if n == 0 then 0 else Links(m, p, n - 1) + if IsTable(Entry(m, p, n - 1)) then 1 else 0
  }

  /** The tables below one entry of a root: a level-one table and the leaves it
      leads to. */
  ghost function RowTables(m: Memory, root: Pfn, i: nat): nat {
    if IsTable(Entry(m, root, i)) then 1 + Links(m, Entry(m, root, i).pfn, ENTRIES) else 0
  }

  /** The tables below the first `n` entries of a root. */
  ghost function TablesBelow(m: Memory, root: Pfn, n: nat): nat {
    if n == 0 then 0 else TablesBelow(m, root, n - 1) + RowTables(m, root, n - 1)
  }

  lemma {:induction false} LinksMore(m: Memory, p: Pfn, a: nat, b: nat)
    requires a <= b
    ensures Links(m, p, a) <= Links(m, p, b)
  {
    if a < b { LinksMore(m, p, a, b - 1); }
  }

  lemma {:induction false} TablesMore(m: Memory, root: Pfn, a: nat, b: nat)
    requires a <= b
    ensures TablesBelow(m, root, a) <= TablesBelow(m, root, b)
  {
    if a < b { TablesMore(m, root, a, b - 1); }
  }

  lemma {:induction false} LinksKept(m: Memory, n: Memory, q: Pfn, p: Pfn, k: nat)
    requires KeepsBut(m, n, q) && p in m.pages && p != q
    ensures Links(n, p, k) == Links(m, p, k)
  {
    hide KeepsBut;
    if k > 0 {
      EntryKept(m, n, q, p, k - 1);
      LinksKept(m, n, q, p, k - 1);
    }
  }

  lemma PutSameKeys(m: Memory, p: Pfn, i: nat, d: Descriptor)
    ensures Put(m, p, i, d).pages.Keys == m.pages.Keys
  {}

  /** A new table of the child's, with the entries of `source`. */
  method FreshCopy(child: AddressSpace, source: Pfn, ghost level: nat) returns (r: Result<Pfn>)
    requires source in child.backend.pages && |child.backend.pages[source]| == ENTRIES
    modifies child`tablePfns, child.backend
    ensures child.backend.Drew(old(child.backend.Stock()), 1, r.Err?)
    ensures r.Err? ==> r.error == OutOfMemory && child.backend.Mem() == old(child.backend.Mem())
    ensures r.Err? ==> child.tablePfns == old(child.tablePfns)
    ensures r.Ok? ==> r.value !in old(child.backend.pages) && FitsFrame(r.value)
    ensures r.Ok? ==> child.tablePfns == old(child.tablePfns) + [r.value]
    ensures r.Ok? ==>
              child.backend.Mem() == Add(old(child.backend.Mem()), r.value, level, old(child.backend.pages)[source])
  {
    hide FitsFrame, StockOf;
    ghost var m, row := child.backend.Mem(), child.backend.pages[source];
    var reserved := child.backend.TryReserve();
    if !reserved {
      return Err(OutOfMemory);
    }
    r := child.backend.AllocateTable(level);
    if r.Err? {
      return;
    }
    child.tablePfns := child.tablePfns + [r.value];
    ghost var used := child.backend.pages.Keys;
    var copied := child.backend.CopyTableWithin(source, r.value);
    assert child.backend.pages.Keys == used;
    CopyIntoFresh(m, r.value, level, row);
  }

  /** Clones a leaf table, unless it holds nothing. */
  method CloneLeaf(child: AddressSpace, source: Pfn) returns (r: Result<Option<Pfn>>)
    requires source in child.backend.pages && |child.backend.pages[source]| == ENTRIES
    modifies child`tablePfns, child.backend
    ensures r.Err? ==> r.error == OutOfMemory
    ensures child.backend.Drew(old(child.backend.Stock()), 1, r.Err?)
    ensures r.Err? || r.value.None? ==>
            child.backend.Mem() == old(child.backend.Mem()) && child.tablePfns == old(child.tablePfns)
    ensures r.Ok? && r.value.None? ==> forall j :: 0 <= j < ENTRIES ==> old(child.backend.pages)[source][j] == ZERO
    ensures r.Ok? && r.value.Some? ==>
              && r.value.value !in old(child.backend.pages) && FitsFrame(r.value.value)
              && child.backend.Mem()
                == Add(old(child.backend.Mem()), r.value.value, 2, old(child.backend.pages)[source])
              && child.tablePfns == old(child.tablePfns) + [r.value.value]
    ensures r.Ok? && r.value.Some? ==> exists j :: 0 <= j < ENTRIES && old(child.backend.pages)[source][j] != ZERO
  {
    var populated, index := false, 0;
    ghost var row := child.backend.pages[source];
    while index < ENTRIES && !populated
      invariant 0 <= index <= ENTRIES
      invariant if populated then exists j :: 0 <= j < ENTRIES && row[j] != ZERO else forall j :: 0 <= j < index ==>
                row[j] == ZERO
      decreases ENTRIES - index, !populated
    {
      if child.backend.ReadTableEntry(source, index) != ZERO {
        populated := true;
      } else {
        index := index + 1;
      }
    }
    if !populated {
      return Ok(None);
    }
    var destination := FreshCopy(child, source, 2);
    if destination.Err? {
      return Err(destination.error);
    }
    r := Ok(Some(destination.value));
  }

  /** How far the copy of a level-one table is. */
  ghost predicate CopiedUpto(m: Memory, one: Pfn, n: Memory, copy: Pfn, index: nat, copied: bool) {
    && one in m.pages && copy !in m.pages && copy in n.pages && |n.pages[copy]| == ENTRIES && KeepsBut(m, n, copy)
    && (forall i :: 0 <= i < index ==> SameBelow(m, one, n, copy, i))
    && (forall i :: index <= i < ENTRIES ==> Entry(n, copy, i) == Entry(m, one, i))
    && (!copied ==> n == Add(m, copy, 1, m.pages[one]) && forall i :: 0 <= i < index ==> EmptyAt(m, one, i))
  }

  lemma CopyStart(m: Memory, one: Pfn, copy: Pfn)
    requires one in m.pages && |m.pages[one]| == ENTRIES && copy !in m.pages
    ensures CopiedUpto(m, one, Add(m, copy, 1, m.pages[one]), copy, 0, false)
  {
    KeepsAdd(m, copy, 1, m.pages[one], copy);
  }

  /** An entry that is kept as it was copied: empty, a block, or an empty leaf. */
  lemma KeptEntry(m: Memory, one: Pfn, n: Memory, copy: Pfn, index: nat)
    requires Complete(m, one) && index < ENTRIES && CopiedUpto(m, one, n, copy, index, true)
    ensures SameBelow(m, one, n, copy, index)
  {
    hide SameBelow;
    var d := Entry(m, one, index);
    if IsTable(d) {
      forall i2: nat | i2 < ENTRIES
        ensures Below(n, copy, index, i2) == Below(m, one, index, i2) { EntryKept(m, n, copy, d.pfn, i2); }
    }
    SameBelowFrom(m, one, n, copy, index);
  }

  lemma SameBelowFrom(m: Memory, one: Pfn, n: Memory, copy: Pfn, index: nat)
    requires forall i2: nat :: i2 < ENTRIES ==> Below(n, copy, index, i2) == Below(m, one, index, i2)
    requires IsTable(Entry(n, copy, index)) ==> LeafOf(n, copy, Entry(n, copy, index).pfn)
    ensures SameBelow(m, one, n, copy, index)
  {}

  /** Nothing that was copied before changes. */
  lemma SameBelowKept(m: Memory, one: Pfn, n: Memory, o: Memory, copy: Pfn, i: nat)
    requires SameBelow(m, one, n, copy, i) && KeepsBut(n, o, copy) && Entry(o, copy, i) == Entry(n, copy, i)
    ensures SameBelow(m, one, o, copy, i)
  {
    var d := Entry(n, copy, i);
    if IsTable(d) {
      forall i2: nat | i2 < ENTRIES
        ensures Entry(o, d.pfn, i2) == Entry(n, d.pfn, i2) { EntryKept(n, o, copy, d.pfn, i2); }
    }
  }

  lemma CopyKeptEntry(m: Memory, one: Pfn, n: Memory, copy: Pfn, index: nat, copied: bool)
    requires Complete(m, one) && index < ENTRIES && CopiedUpto(m, one, n, copy, index, copied)
    ensures CopiedUpto(m, one, n, copy, index + 1, true)
    ensures EmptyAt(m, one, index) ==> CopiedUpto(m, one, n, copy, index + 1, copied)
  {
    hide KeepsBut, SameBelow, EmptyAt;
    KeptEntry(m, one, n, copy, index);
  }

  /** The entry is written again, as it is. */
  lemma CopyRewritten(m: Memory, one: Pfn, n: Memory, copy: Pfn, index: nat)
    requires CopiedUpto(m, one, n, copy, index, true) && index < ENTRIES
    ensures Put(n, copy, index, Entry(m, one, index)) == n
  {
    var row := n.pages[copy];
    assert row[index] == Entry(n, copy, index);
    assert row[index := row[index]] == row;
    assert n.pages[copy := row] == n.pages;
  }

  /** One more entry is done, and the others are as they were. */
  lemma CopyStep(m: Memory, one: Pfn, n: Memory, o: Memory, copy: Pfn, index: nat)
    requires CopiedUpto(m, one, n, copy, index, true) && index < ENTRIES && KeepsBut(n, o, copy)
    requires forall i: nat :: i != index ==> Entry(o, copy, i) == Entry(n, copy, i)
    requires SameBelow(m, one, o, copy, index)
    ensures CopiedUpto(m, one, o, copy, index + 1, true)
  {
    hide SameBelow, EmptyAt, Entry;
    KeepsTrans(m, n, o, copy);
    forall i | 0 <= i < index ensures SameBelow(m, one, o, copy, i) { SameBelowKept(m, one, n, o, copy, i); }
  }

  /** A leaf is cloned and its clone entered in the copy. */
  ghost function WithClone(n: Memory, copy: Pfn, index: nat, leaf: Pfn, c: Pfn): Memory
    requires leaf in n.pages
  {
    Put(Add(n, c, 2, n.pages[leaf]), copy, index, TableDescriptor(c))
  }

  lemma CloneFrame(n: Memory, copy: Pfn, index: nat, leaf: Pfn, c: Pfn)
    requires leaf in n.pages && copy in n.pages && |n.pages[copy]| == ENTRIES && index < ENTRIES && c !in n.pages
             && FitsFrame(c)
    ensures var o := WithClone(n, copy, index, leaf, c);
            && KeepsBut(n, o, copy) && LeafOf(o, copy, c) && IsTable(Entry(o, copy, index))
              && Entry(o, copy, index).pfn == c
            && (forall i: nat :: i != index ==> Entry(o, copy, i) == Entry(n, copy, i))
            && (forall i: nat :: Entry(o, c, i) == Entry(n, leaf, i))
  {
    hide KeepsBut, TableDescriptor, FitsFrame, Put, Entry;
    var a := Add(n, c, 2, n.pages[leaf]);
    var o := Put(a, copy, index, TableDescriptor(c));
    TableDescriptorNames(c);
    KeepsAdd(n, c, 2, n.pages[leaf], copy);
    KeepsPut(a, copy, index, TableDescriptor(c));
    KeepsTrans(n, a, o, copy);
    AddEntries(n, c, 2, n.pages[leaf]);
    hide Add;
    PutEntries(a, copy, index, TableDescriptor(c));
    forall i: nat ensures Entry(o, c, i) == Entry(n, leaf, i) { LeafCopied(n, leaf, c, i); }
  }

  /** The entry gets the clone of its leaf. */
  lemma CopyClonedLeaf(m: Memory, one: Pfn, n: Memory, copy: Pfn, index: nat, leaf: Pfn, c: Pfn)
    requires Complete(m, one) && index < ENTRIES && CopiedUpto(m, one, n, copy, index, true)
    requires IsTable(Entry(m, one, index)) && leaf == Entry(m, one, index).pfn && leaf in n.pages && c !in n.pages
             && FitsFrame(c)
    ensures CopiedUpto(m, one, WithClone(n, copy, index, leaf, c), copy, index + 1, true)
  {
    hide KeepsBut, SameBelow, EmptyAt, FitsFrame, WithClone;
    var o := WithClone(n, copy, index, leaf, c);
    CloneFrame(n, copy, index, leaf, c);
    forall i2: nat | i2 < ENTRIES ensures Below(o, copy, index, i2) == Below(m, one, index, i2) {
      EntryKept(m, n, copy, leaf, i2);
    }
    SameBelowFrom(m, one, o, copy, index);
    CopyStep(m, one, n, o, copy, index);
  }

  lemma LeafCopied(n: Memory, leaf: Pfn, c: Pfn, i2: nat)
    requires leaf in n.pages && c !in n.pages
    ensures Entry(Add(n, c, 2, n.pages[leaf]), c, i2) == Entry(n, leaf, i2)
  {}

  /** Clones what one entry of a level-one table leads to; `r` is whether
      anything was copied yet. */
  method CloneEntry(child: AddressSpace, source: Pfn, copy: Pfn, index: nat, copied: bool, ghost m: Memory)
    returns (r: Result<bool>)
    requires Complete(m, source) && index < ENTRIES && Keyed(child.backend.Mem())
    requires CopiedUpto(m, source, child.backend.Mem(), copy, index, copied)
    modifies child`tablePfns, child.backend
    ensures r.Err? ==> r.error == OutOfMemory && child.backend.Mem() == old(child.backend.Mem())
    ensures r.Ok? ==> CopiedUpto(m, source, child.backend.Mem(), copy, index + 1, r.value)
    ensures r.Ok? ==> (copied ==> r.value) && (!r.value ==> child.tablePfns == old(child.tablePfns))
    ensures Keyed(child.backend.Mem())
    ensures child.backend.Drew(old(child.backend.Stock()), if IsTable(Entry(m, source, index)) then 1 else 0, r.Err?)
  {
    hide KeepsBut, SameBelow, EmptyAt, Level, Add, Put, Entry, TableDescriptor, FitsFrame, IsTable, CopiedUpto, Keyed,
      Complete, StockOf;
    ghost var n := child.backend.Mem();
    SourceLive(m, source, n, copy, index, copied);
    var descriptor := child.backend.ReadTableEntry(source, index);
    CopyKeptEntry(m, source, n, copy, index, copied);
    if descriptor == ZERO {
      EmptyEntry(m, source, index);
      return Ok(copied);
    }
    if !IsTable(descriptor) {
      CopiedMore(m, source, n, copy, index, copied);
      CopyRewritten(m, source, n, copy, index);
      var written := child.backend.WriteTableEntry(copy, index, descriptor);
      return Ok(true);
    }
    var leaf := CloneLeaf(child, descriptor.pfn);
    if leaf.Err? {
      return Err(leaf.error);
    }
    if leaf.value.None? {
      EmptyLeaf(m, source, n, copy, index);
      return Ok(copied);
    }
    ghost var o := child.backend.Mem();
    AddKeyed(n, leaf.value.value, 2, n.pages[descriptor.pfn]);
    PutKeyed(o, copy, index, TableDescriptor(leaf.value.value));
    PutSameKeys(o, copy, index, TableDescriptor(leaf.value.value));
    var written := child.backend.WriteTableEntry(copy, index, TableDescriptor(leaf.value.value));
    CopiedMore(m, source, n, copy, index, copied);
    CopyClonedLeaf(m, source, n, copy, index, descriptor.pfn, leaf.value.value);
    r := Ok(true);
  }

  /** Clones what the entries of a level-one table lead to. */
  method CloneEntries(child: AddressSpace, source: Pfn, copy: Pfn, ghost m: Memory) returns (r: Result<bool>)
    requires Complete(m, source) && Keyed(child.backend.Mem())
    requires CopiedUpto(m, source, child.backend.Mem(), copy, 0, false)
    modifies child`tablePfns, child.backend
    ensures r.Err? ==> r.error == OutOfMemory
    ensures r.Err? ==> KeepsBut(m, child.backend.Mem(), source) && source in child.backend.pages && source in m.pages
    ensures r.Err? ==> child.backend.pages[source] == m.pages[source]
    ensures r.Ok? ==> CopiedUpto(m, source, child.backend.Mem(), copy, ENTRIES, r.value)
    ensures r.Ok? && !r.value ==> child.tablePfns == old(child.tablePfns)
    ensures Keyed(child.backend.Mem())
    ensures child.backend.Drew(old(child.backend.Stock()), Links(m, source, ENTRIES), r.Err?)
  {
    hide KeepsBut, Entry, IsTable, CopiedUpto, Keyed, Complete, StockOf;
    CompleteParts(m, source);
    var copied, index := false, 0;
    while index < ENTRIES
      invariant 0 <= index <= ENTRIES && CopiedUpto(m, source, child.backend.Mem(), copy, index, copied)
      invariant (!copied ==> child.tablePfns == old(child.tablePfns)) && Keyed(child.backend.Mem())
      invariant child.backend.Spent(old(child.backend.Stock()), Links(m, source, index))
    {
      LinksMore(m, source, index + 1, ENTRIES);
      var entry := CloneEntry(child, source, copy, index, copied, m);
      if entry.Err? {
        CopyDone(m, source, child.backend.Mem(), copy, index, copied);
        return Err(entry.error);
      }
      copied := entry.value;
      index := index + 1;
    }
    r := Ok(copied);
  }

  /** Clones a level-one table, unless nothing is mapped below it. */
  method CloneLevelOne(child: AddressSpace, source: Pfn) returns (r: Result<Option<Pfn>>)
    requires Keyed(child.backend.Mem()) && Complete(child.backend.Mem(), source)
    modifies child`tablePfns, child.backend
    ensures r.Err? ==> r.error == OutOfMemory
    ensures child.backend.Drew(old(child.backend.Stock()), 1 + Links(old(child.backend.Mem()), source, ENTRIES), r.Err?)
    ensures KeepsBut(old(child.backend.Mem()), child.backend.Mem(), source) && Keyed(child.backend.Mem())
    ensures source in child.backend.pages && child.backend.pages[source] == old(child.backend.pages)[source]
    ensures r.Ok? && r.value.None? ==>
              && child.backend.Mem() == old(child.backend.Mem()) && child.tablePfns == old(child.tablePfns)
              && forall i: nat :: i < ENTRIES ==> EmptyAt(old(child.backend.Mem()), source, i)
    ensures r.Ok? && r.value.Some? ==>
              && r.value.value !in old(child.backend.pages) && r.value.value in child.backend.pages
                && FitsFrame(r.value.value)
              && CopiedUpto(old(child.backend.Mem()), source, child.backend.Mem(), r.value.value, ENTRIES, true)
  {
    hide KeepsBut, SameBelow, EmptyAt, Level, Add, Put, Entry, TableDescriptor, FitsFrame, IsTable, CopiedUpto, Keyed,
      Complete, StockOf;
    ghost var m := child.backend.Mem();
    CompleteParts(m, source);
    var destination := FreshCopy(child, source, 1);
    if destination.Err? {
      KeepsSame(m, source);
      return Err(destination.error);
    }
    var copy := destination.value;
    AddKeyed(m, copy, 1, m.pages[source]);
    CopyStart(m, source, copy);
    var all := CloneEntries(child, source, copy, m);
    if all.Err? {
      return Err(all.error);
    }
    CopyDone(m, source, child.backend.Mem(), copy, ENTRIES, all.value);
    if !all.value {
      AddedThenReleased(m, copy, m.pages[source]);
      child.tablePfns := child.tablePfns[..|child.tablePfns| - 1];
      ghost var used := child.backend.pages.Keys;
      child.backend.ReleaseTable(copy);
      StockLess(child.backend.supply, used, child.backend.pages.Keys);
      KeepsSame(m, source);
      return Ok(None);
    }
    r := Ok(Some(copy));
  }

  lemma CompleteParts(m: Memory, one: Pfn)
    requires Complete(m, one)
    ensures one in m.pages && |m.pages[one]| == ENTRIES
  {}

  lemma AddKeyed(m: Memory, q: Pfn, level: nat, t: seq<Descriptor>)
    requires Keyed(m)
    ensures Keyed(Add(m, q, level, t))
  {}

  lemma PutKeyed(m: Memory, q: Pfn, i: nat, d: Descriptor)
    requires Keyed(m)
    ensures Keyed(Put(m, q, i, d))
  {
    if q in m.pages && i < |m.pages[q]| { assert Put(m, q, i, d).pages.Keys == m.pages.Keys; }
  }

  lemma KeepsSame(m: Memory, q: Pfn)
    ensures KeepsBut(m, m, q)
  {}

  lemma CopiedMore(m: Memory, one: Pfn, n: Memory, copy: Pfn, index: nat, copied: bool)
    requires CopiedUpto(m, one, n, copy, index, copied)
    ensures CopiedUpto(m, one, n, copy, index, true)
  {
    hide KeepsBut, SameBelow, EmptyAt, Entry;
  }

  /** What the loop may read of the original. */
  lemma SourceLive(m: Memory, one: Pfn, n: Memory, copy: Pfn, index: nat, copied: bool)
    requires Complete(m, one) && index < ENTRIES && CopiedUpto(m, one, n, copy, index, copied)
    ensures one in n.pages && |n.pages[one]| == ENTRIES && n.pages[one][index] == Entry(m, one, index)
    ensures copy in n.pages && index < |n.pages[copy]| && copy !in m.pages
    ensures IsTable(Entry(m, one, index)) ==>
              var p := Entry(m, one, index).pfn;
              p in m.pages && p in n.pages && |n.pages[p]| == ENTRIES && n.pages[p] == m.pages[p]
  {
    hide SameBelow, EmptyAt;
  }

  lemma EmptyEntry(m: Memory, one: Pfn, index: nat)
    requires Entry(m, one, index) == ZERO
    ensures EmptyAt(m, one, index)
  {}

  lemma EmptyLeaf(m: Memory, one: Pfn, n: Memory, copy: Pfn, index: nat)
    requires IsTable(Entry(m, one, index)) && Entry(m, one, index).pfn in m.pages && Entry(m, one, index).pfn in n.pages
    requires var p := Entry(m, one, index).pfn;
             && |n.pages[p]| == ENTRIES && n.pages[p] == m.pages[p]
             && forall j :: 0 <= j < ENTRIES ==> n.pages[p][j] == ZERO
    ensures EmptyAt(m, one, index)
  {}

  lemma CopyDone(m: Memory, one: Pfn, n: Memory, copy: Pfn, index: nat, copied: bool)
    requires CopiedUpto(m, one, n, copy, index, copied)
    ensures KeepsBut(m, n, one) && one in n.pages && n.pages[one] == m.pages[one] && copy !in m.pages && copy in n.pages
    ensures !copied ==> n == Add(m, copy, 1, m.pages[one]) && forall i :: 0 <= i < index ==> EmptyAt(m, one, i)
  {
    hide SameBelow, EmptyAt, Entry;
    KeepsNew(m, n, copy, one);
  }

  lemma AddedThenReleased(m: Memory, q: Pfn, t: seq<Descriptor>)
    requires Keyed(m) && q !in m.pages
    ensures Release(Add(m, q, 1, t), q) == m
  {
    var n := Add(m, q, 1, t);
    assert Release(n, q) == Remove(n, q);
    assert n.pages - {q} == m.pages;
    assert n.refs - {q} == m.refs;
    assert n.level - {q} == m.level;
  }

  // ---------- the root ----------

  /** A row of the child's root is done: it shows what the source's row shows. */
  ghost predicate RowDone(m: Memory, root: Pfn, n: Memory, child: Pfn, i: nat) {
    && (forall i1: nat, i2: nat :: i1 < ENTRIES && i2 < ENTRIES ==>
      View(n, child, Index(i, i1, i2)) == View(m, root, Index(i, i1, i2)))
    && RowLive(n, child, i)
  }

  /** The tables the row leads to are there, and none is the child's root. */
  ghost predicate RowLive(n: Memory, child: Pfn, i: nat) {
    IsTable(Entry(n, child, i)) ==>
      var one := Entry(n, child, i).pfn;
      && one in n.pages && one != child
      && forall i1: nat :: i1 < ENTRIES && IsTable(Entry(n, one, i1)) ==>
        Entry(n, one, i1).pfn in n.pages && Entry(n, one, i1).pfn != child
  }

  ghost predicate ClonedUpto(m: Memory, root: Pfn, n: Memory, child: Pfn, index: nat) {
    && child in m.pages && KeepsBut(m, n, child)
    && (forall i :: 0 <= i < index ==> RowDone(m, root, n, child, i))
    && (forall i :: index <= i < ENTRIES ==> Entry(n, child, i) == ZERO)
  }

  lemma RowKept(m: Memory, root: Pfn, n: Memory, o: Memory, child: Pfn, i: nat)
    requires RowDone(m, root, n, child, i) && KeepsBut(n, o, child) && Entry(o, child, i) == Entry(n, child, i)
    ensures RowDone(m, root, o, child, i)
  {
    hide KeepsBut, Entry;
    var d := Entry(n, child, i);
    if IsTable(d) {
      forall j: nat ensures Entry(o, d.pfn, j) == Entry(n, d.pfn, j) { EntryKept(n, o, child, d.pfn, j); }
      forall i1: nat, i2: nat | i1 < ENTRIES && i2 < ENTRIES
        ensures View(o, child, Index(i, i1, i2)) == View(n, child, Index(i, i1, i2))
      {
        var e := Entry(n, d.pfn, i1);
        if IsTable(e) { EntryKept(n, o, child, e.pfn, i2); }
      }
      forall i1: nat | i1 < ENTRIES && IsTable(Entry(o, d.pfn, i1)) ensures Entry(o, d.pfn, i1).pfn in o.pages {
        PagesKept(n, o, child, Entry(n, d.pfn, i1).pfn);
      }
      PagesKept(n, o, child, d.pfn);
    }
  }

  lemma LevelKept(m: Memory, n: Memory, q: Pfn, p: Pfn)
    requires KeepsBut(m, n, q) && p in m.pages
    ensures p in n.pages && Level(n, p) == Level(m, p)
  {}

  lemma PagesKept(m: Memory, n: Memory, q: Pfn, p: Pfn)
    requires KeepsBut(m, n, q) && p in m.pages
    ensures p in n.pages
  {}

  lemma ClonedMore(m: Memory, root: Pfn, n: Memory, o: Memory, child: Pfn, index: nat)
    requires ClonedUpto(m, root, n, child, index) && index < ENTRIES && KeepsBut(n, o, child)
    requires forall i: nat :: i != index ==> Entry(o, child, i) == Entry(n, child, i)
    requires RowDone(m, root, o, child, index)
    ensures ClonedUpto(m, root, o, child, index + 1)
  {
    hide KeepsBut, RowDone, Entry;
    KeepsTrans(m, n, o, child);
    forall i | 0 <= i < index ensures RowDone(m, root, o, child, i) { RowKept(m, root, n, o, child, i); }
  }

  /** Nothing to clone: the row is empty on both sides. */
  lemma EmptyRowDone(m: Memory, root: Pfn, n: Memory, child: Pfn, i: nat)
    requires Entry(n, child, i) == ZERO
    requires Entry(m, root, i) == ZERO
             || (IsTable(Entry(m, root, i)) && forall j: nat :: j < ENTRIES ==> EmptyAt(m, Entry(m, root, i).pfn, j))
    ensures RowDone(m, root, n, child, i)
  {
    forall i1: nat, i2: nat | i1 < ENTRIES && i2 < ENTRIES ensures View(m, root, Index(i, i1, i2)) == ZERO {
      if IsTable(Entry(m, root, i)) {
        assert EmptyAt(m, Entry(m, root, i).pfn, i1);
        assert Below(m, Entry(m, root, i).pfn, i1, i2) == ZERO;
      }
    }
  }

  /** The clone of a level-one table is entered in the child's root. */
  lemma CopyRowDone(m: Memory, root: Pfn, n: Memory, o: Memory, p: Memory, child: Pfn, i: nat, one: Pfn, copy: Pfn)
    requires IsTable(Entry(m, root, i)) && one == Entry(m, root, i).pfn && KeepsBut(m, n, child) && Typed(m) && Shape(m)
    requires root in m.pages && Level(m, root) == 0 && child in m.pages && Level(m, child) == 0 && i < ENTRIES
    requires CopiedUpto(n, one, o, copy, ENTRIES, true) && child in o.pages && |o.pages[child]| == ENTRIES
             && FitsFrame(copy)
    requires p == Put(o, child, i, TableDescriptor(copy))
    ensures RowDone(m, root, p, child, i)
  {
    hide KeepsBut, SameBelow, EmptyAt, TableDescriptor, FitsFrame, Put, Typed, Shape, Level, CopiedUpto;
    TableDescriptorNames(copy);
    PutEntries(o, child, i, TableDescriptor(copy));
    WalkTyped(m, root, Index(i, 0, 0));
    CopyParts(n, one, o, copy);
    assert child != copy && child != one by { LevelsApart(m, n, child, one); PagesKept(m, n, child, child); }
    forall i1: nat, i2: nat | i1 < ENTRIES && i2 < ENTRIES
      ensures View(p, child, Index(i, i1, i2)) == View(m, root, Index(i, i1, i2))
    {
      CopyWalk(m, n, o, child, root, i, one, copy, i1, i2);
    }
    forall i1: nat | i1 < ENTRIES && IsTable(Entry(p, copy, i1))
      ensures Entry(p, copy, i1).pfn in p.pages && Entry(p, copy, i1).pfn != child {
      CopyWalk(m, n, o, child, root, i, one, copy, i1, 0);
    }
  }

  lemma LevelsApart(m: Memory, n: Memory, child: Pfn, one: Pfn)
    requires Level(m, child) == 0 && Level(m, one) == 1
    ensures child != one
  {}

  lemma CopyParts(n: Memory, one: Pfn, o: Memory, copy: Pfn)
    requires CopiedUpto(n, one, o, copy, ENTRIES, true)
    ensures copy !in n.pages && copy in o.pages && KeepsBut(n, o, copy) && forall i :: 0 <= i < ENTRIES ==>
            SameBelow(n, one, o, copy, i)
  {}

  /** A walk through the copy ends where the walk through the original ends. */
  lemma CopyWalk(m: Memory, n: Memory, o: Memory, child: Pfn, root: Pfn, i: nat, one: Pfn, copy: Pfn, i1: nat, i2: nat)
    requires Typed(m) && Shape(m) && KeepsBut(m, n, child) && i < ENTRIES && i1 < ENTRIES && i2 < ENTRIES
    requires root in m.pages && Level(m, root) == 0 && child in m.pages && Level(m, child) == 0
    requires IsTable(Entry(m, root, i)) && one == Entry(m, root, i).pfn && SameBelow(n, one, o, copy, i1)
             && KeepsBut(n, o, copy) && copy !in n.pages
    ensures Below(o, copy, i1, i2) == View(m, root, Index(i, i1, i2))
    ensures IsTable(Entry(o, copy, i1)) ==> Entry(o, copy, i1).pfn in o.pages && Entry(o, copy, i1).pfn != child
  {
    hide KeepsBut, Typed, Shape, Level, Entry;
    LevelKept(m, n, child, child);
    LevelKept(n, o, copy, child);
    WalkTyped(m, root, Index(i, i1, i2));
    LevelsApart(m, n, child, one);
    EntryKept(m, n, child, one, i1);
    var e := Entry(m, one, i1);
    if IsTable(e) {
      assert e.pfn != child;
      EntryKept(m, n, child, e.pfn, i2);
    }
  }

  lemma ClonedStart(m: Memory, root: Pfn, child: Pfn)
    requires child in m.pages && forall j: nat :: Entry(m, child, j) == ZERO
    ensures ClonedUpto(m, root, m, child, 0)
  {
    KeepsSame(m, child);
  }

  lemma ClonedParts(m: Memory, root: Pfn, n: Memory, child: Pfn, index: nat)
    requires ClonedUpto(m, root, n, child, index)
    ensures child in n.pages && |n.pages[child]| == |m.pages[child]| && KeepsBut(m, n, child)
  {
    hide RowDone, Entry;
  }

  lemma ClonedEntry(m: Memory, root: Pfn, n: Memory, child: Pfn, index: nat)
    requires ClonedUpto(m, root, n, child, index) && index < ENTRIES
    ensures Entry(n, child, index) == ZERO
  {}

  /** The views of the spaces that were there, and of the finished clone. */
  lemma ClonedViews(m: Memory, n: Memory, spaces: seq<Space>, c: nat)
    requires Inv(m, spaces) && c < |spaces| && KeepsBut(m, n, spaces[c].root)
    ensures OthersSame(m, n, spaces, c)
  {
    hide KeepsBut, Lists, PointersExact, Entry, Level;
    forall j, ix | 0 <= j < |spaces| && j != c && Within(ix)
      ensures View(n, spaces[j].root, ix) == View(m, spaces[j].root, ix) {
      InvParts(m, spaces, j);
      InvParts(m, spaces, c);
      OtherView(m, n, spaces[c].root, spaces[j].root, ix);
    }
  }

  lemma OtherView(m: Memory, n: Memory, child: Pfn, root: Pfn, ix: Index)
    requires Typed(m) && root in m.pages && Level(m, root) == 0 && child != root && Level(m, child) == 0 && Within(ix)
             && KeepsBut(m, n, child)
    ensures View(n, root, ix) == View(m, root, ix)
  {
    hide KeepsBut, Typed, Entry, Level;
    WalkTyped(m, root, ix);
    EntryKept(m, n, child, root, ix.i0);
    var d := Entry(m, root, ix.i0);
    if IsTable(d) {
      EntryKept(m, n, child, d.pfn, ix.i1);
      var e := Entry(m, d.pfn, ix.i1);
      if IsTable(e) { EntryKept(m, n, child, e.pfn, ix.i2); }
    }
  }

  /** The entry of the source's root, and the level-one table it names. */
  lemma SourceRow(m: Memory, n: Memory, root: Pfn, child: Pfn, i: nat)
    requires Shape(m) && Typed(m) && root in m.pages && Level(m, root) == 0 && child in m.pages && Level(m, child) == 0
             && root != child
    requires KeepsBut(m, n, child) && i < ENTRIES
    ensures root in n.pages && |n.pages[root]| == ENTRIES && n.pages[root][i] == Entry(m, root, i)
    ensures Entry(m, root, i) == ZERO || IsTable(Entry(m, root, i))
    ensures IsTable(Entry(m, root, i)) ==>
              var one := Entry(m, root, i).pfn; one in m.pages && one in n.pages && Complete(m, one) && Complete(n, one)
  {
    hide KeepsBut, Complete;
    ShapeAt(m, root);
    hide Shape;
    assert EntryTyped(m, root, Entry(m, root, i));
    RootKept(m, n, child, root);
    if IsTable(Entry(m, root, i)) {
      TypedComplete(m, Entry(m, root, i).pfn);
      CompleteKept(m, n, child, Entry(m, root, i).pfn);
      CompleteParts(n, Entry(m, root, i).pfn);
    }
  }

  lemma RootKept(m: Memory, n: Memory, q: Pfn, p: Pfn)
    requires KeepsBut(m, n, q) && p in m.pages && p != q
    ensures p in n.pages && n.pages[p] == m.pages[p]
  {}

  /** Emptiness of a leaf is the same before and during the clone. */
  lemma EmptyBefore(m: Memory, n: Memory, child: Pfn, one: Pfn)
    requires Complete(m, one) && KeepsBut(m, n, child) && child in m.pages && Level(m, child) == 0
    requires forall i: nat :: i < ENTRIES ==> EmptyAt(n, one, i)
    ensures forall i: nat :: i < ENTRIES ==> EmptyAt(m, one, i)
  {
    hide KeepsBut;
    forall i: nat, i2: nat | i < ENTRIES && i2 < ENTRIES ensures Below(m, one, i, i2) == ZERO {
      assert EmptyAt(n, one, i) && Below(n, one, i, i2) == ZERO;
      EntryKept(m, n, child, one, i);
      var d := Entry(m, one, i);
      if IsTable(d) { EntryKept(m, n, child, d.pfn, i2); }
    }
  }

  /** Everything but the entry in the root: from the child's root on, level one
      tables are cloned, and all that was there stays. */
  lemma CloneKeeps(n: Memory, o: Memory, one: Pfn, child: Pfn)
    requires KeepsBut(n, o, one) && one in o.pages && one in n.pages && o.pages[one] == n.pages[one]
    ensures KeepsBut(n, o, child) && forall j: nat :: child in n.pages ==> Entry(o, child, j) == Entry(n, child, j)
  {}

  ghost predicate TwoRoots(m: Memory, root: Pfn, child: Pfn) {
    && Shape(m) && Typed(m) && root in m.pages && Level(m, root) == 0 && child in m.pages && Level(m, child) == 0
      && root != child
  }

  /** The leaves of a row are counted alike before and during the clone. */
  lemma RowLinks(m: Memory, n: Memory, root: Pfn, child: Pfn, i: nat)
    requires TwoRoots(m, root, child) && KeepsBut(m, n, child) && i < ENTRIES && IsTable(Entry(m, root, i))
    ensures RowTables(m, root, i) == 1 + Links(n, Entry(m, root, i).pfn, ENTRIES)
  {
    hide KeepsBut, Links, Shape;
    WalkTyped(m, root, Index(i, 0, 0));
    LevelsApart(m, n, child, Entry(m, root, i).pfn);
    LinksKept(m, n, child, Entry(m, root, i).pfn, ENTRIES);
  }

  /** Clones what one entry of the source's root leads to. */
  method CloneRow(child: AddressSpace, root: Pfn, index: nat, ghost m: Memory) returns (r: Result<()>)
    requires TwoRoots(m, root, child.rootPfn) && index < ENTRIES && Keyed(child.backend.Mem())
    requires ClonedUpto(m, root, child.backend.Mem(), child.rootPfn, index)
    modifies child`tablePfns, child.backend
    ensures KeepsBut(m, child.backend.Mem(), child.rootPfn) && Keyed(child.backend.Mem())
    ensures r.Ok? ==> ClonedUpto(m, root, child.backend.Mem(), child.rootPfn, index + 1)
    ensures r.Err? ==> r.error == OutOfMemory
    ensures child.backend.Drew(old(child.backend.Stock()), RowTables(m, root, index), r.Err?)
  {
    hide KeepsBut, Complete, Keyed, Level, Entry, IsTable, Typed, Shape, CopiedUpto, RowDone, ClonedUpto, EmptyAt,
      TableDescriptor, Put, FitsFrame, StockOf, Links;
    ghost var n, q := child.backend.Mem(), child.rootPfn;
    ClonedParts(m, root, n, q, index);
    SourceRow(m, n, root, q, index);
    ClonedEntry(m, root, n, q, index);
    KeepsSame(n, q);
    var descriptor := child.backend.ReadTableEntry(root, index);
    if descriptor == ZERO {
      EmptyRowDone(m, root, n, q, index);
      ClonedMore(m, root, n, n, q, index);
      return Ok(());
    }
    RowLinks(m, n, root, q, index);
    var cloned := CloneLevelOne(child, descriptor.pfn);
    ghost var o := child.backend.Mem();
    CloneKeeps(n, o, descriptor.pfn, q);
    KeepsTrans(m, n, o, q);
    if cloned.Err? {
      return Err(cloned.error);
    }
    if cloned.value.None? {
      EmptyBefore(m, n, q, descriptor.pfn);
      EmptyRowDone(m, root, n, q, index);
      ClonedMore(m, root, n, n, q, index);
      return Ok(());
    }
    PutKeyed(o, q, index, TableDescriptor(cloned.value.value));
    PutSameKeys(o, q, index, TableDescriptor(cloned.value.value));
    var written := child.backend.WriteTableEntry(child.rootPfn, index, TableDescriptor(cloned.value.value));
    CloneEntered(m, root, n, o, q, index, descriptor.pfn, cloned.value.value);
    ClonedParts(m, root, child.backend.Mem(), q, index + 1);
    r := Ok(());
  }

  /** Clones all that `source` maps into a space that maps nothing. On success it
      sees exactly what the source sees; in any case no other space sees any
      difference. It takes at most one frame for each table of the source, and
      fails only if there are not as many or a vector cannot grow. */
  method CloneMappingsFrom(child: AddressSpace, source: AddressSpace, ghost spaces: seq<Space>, ghost k: nat,
                           ghost c: nat)
    returns (r: Result<()>)
    requires child.backend == source.backend && Inv(child.backend.Mem(), spaces) && k < |spaces| && c < |spaces|
             && k != c
    requires spaces[k] == source.Value() && spaces[c] == child.Value()
    requires forall j: nat :: Entry(child.backend.Mem(), child.rootPfn, j) == ZERO
    modifies child`tablePfns, child.backend
    ensures r.Err? ==> r.error == OutOfMemory
    ensures child.backend.Drew(old(child.backend.Stock()),
                               TablesBelow(old(child.backend.Mem()), source.rootPfn, ENTRIES), r.Err?)
    ensures OthersSame(old(child.backend.Mem()), child.backend.Mem(), spaces, c)
    ensures r.Ok? ==> forall ix :: Within(ix) ==>
              View(child.backend.Mem(), child.rootPfn, ix) == View(old(child.backend.Mem()), source.rootPfn, ix)
  {
    hide Inv, KeepsBut, Keyed, Level, Entry, Typed, Shape, ClonedUpto, View, OthersSame, StockOf, RowTables;
    ghost var m, root, q := child.backend.Mem(), source.rootPfn, child.rootPfn;
    InvParts(m, spaces, k);
    InvParts(m, spaces, c);
    DistinctRoots(m, spaces, k, c);
    ShapeKeyed(m);
    ClonedStart(m, root, q);
    var rootIndex := 0;
    while rootIndex < ENTRIES
      invariant 0 <= rootIndex <= ENTRIES && ClonedUpto(m, root, child.backend.Mem(), q, rootIndex)
                && Keyed(child.backend.Mem())
      invariant child.backend.Spent(old(child.backend.Stock()), TablesBelow(m, root, rootIndex))
    {
      TablesMore(m, root, rootIndex + 1, ENTRIES);
      r := CloneRow(child, source.rootPfn, rootIndex, m);
      if r.Err? {
        ClonedViews(m, child.backend.Mem(), spaces, c);
        return;
      }
      rootIndex := rootIndex + 1;
    }
    ClonedParts(m, root, child.backend.Mem(), q, rootIndex);
    ClonedViews(m, child.backend.Mem(), spaces, c);
    ClonedAll(m, root, child.backend.Mem(), q);
    r := Ok(());
  }

  lemma DistinctRoots(m: Memory, spaces: seq<Space>, k: nat, c: nat)
    requires Inv(m, spaces) && k < |spaces| && c < |spaces| && k != c
    ensures spaces[k].root != spaces[c].root
  {}

  lemma ShapeKeyed(m: Memory)
    requires Shape(m)
    ensures Keyed(m)
  {}

  lemma ClonedAll(m: Memory, root: Pfn, n: Memory, child: Pfn)
    requires ClonedUpto(m, root, n, child, ENTRIES)
    ensures forall ix :: Within(ix) ==> View(n, child, ix) == View(m, root, ix)
  {
    hide View, KeepsBut;
    forall ix | Within(ix) ensures View(n, child, ix) == View(m, root, ix) {
      assert RowDone(m, root, n, child, ix.i0) && ix == Index(ix.i0, ix.i1, ix.i2);
    }
  }

  lemma CloneEntered(m: Memory, root: Pfn, n: Memory, o: Memory, child: Pfn, i: nat, one: Pfn, copy: Pfn)
    requires Shape(m) && Typed(m) && root in m.pages && Level(m, root) == 0 && child in m.pages && Level(m, child) == 0
             && i < ENTRIES
    requires ClonedUpto(m, root, n, child, i) && IsTable(Entry(m, root, i)) && one == Entry(m, root, i).pfn
             && FitsFrame(copy)
    requires CopiedUpto(n, one, o, copy, ENTRIES, true) && KeepsBut(n, o, child)
             && forall j: nat :: Entry(o, child, j) == Entry(n, child, j)
    ensures ClonedUpto(m, root, Put(o, child, i, TableDescriptor(copy)), child, i + 1)
  {
    hide KeepsBut, Entry, Shape, Typed, Level, TableDescriptor, FitsFrame, Put, RowDone, CopiedUpto, ClonedUpto,
      IsTable;
    var p := Put(o, child, i, TableDescriptor(copy));
    ClonedParts(m, root, n, child, i);
    ShapeAt(m, child);
    KeptSize(n, o, child);
    CopyRowDone(m, root, n, o, p, child, i, one, copy);
    KeepsPut(o, child, i, TableDescriptor(copy));
    KeepsTrans(n, o, p, child);
    PutEntries(o, child, i, TableDescriptor(copy));
    ClonedMore(m, root, n, p, child, i);
  }

  lemma KeptSize(m: Memory, n: Memory, q: Pfn)
    requires KeepsBut(m, n, q) && q in m.pages
    ensures q in n.pages && |n.pages[q]| == |m.pages[q]|
  {}

  /** The clone of a level-one table keeps its pointers to leaves that hold
      nothing. Such a pointer is not counted: the clone shares that leaf with its
      source without a reference. */
  lemma StrayUncounted(m: Memory, n: Memory, spaces: seq<Space>, c: nat, copy: Pfn, i: nat, p: Pfn)
    requires Inv(m, spaces) && c < |spaces| && KeepsBut(m, n, spaces[c].root)
             && forall j: nat :: Entry(m, spaces[c].root, j) == ZERO
    requires p in m.pages && copy !in m.pages && Names(n, copy, i, p)
    ensures !PointersExact(n, spaces)
  {
    hide Lists, PointersFrom, Inv, Entry;
    var child := spaces[c].root;
    InvParts(m, spaces, c);
    var kept := m.pages.Keys - {child};
    var others := n.pages.Keys - kept;
    PickRow(m, m.pages.Keys, child, p);
    EmptyRow(m, child, p);
    assert kept <= n.pages.Keys by { KeptKeys(m, n, child); }
    assert n.pages.Keys == kept + others;
    PointersSplit(n, kept, others, p);
    forall q | q in kept ensures Row(m, q, p) == Row(n, q, p) { RowSame(m, n, child, q, p); }
    SameRows(m, n, kept, p);
    NamedRow(n, copy, i, p);
    PickRow(n, others, copy, p);
    CoreExact(m, spaces, p);
    LevelKept(m, n, child, p);
    assert RefsOf(n, p) == RefsOf(m, p) by { RefsKept(m, n, child, p); }
    assert RefsOf(n, p) != Pointers(n, p) + RootCount(spaces, p);
  }

  lemma KeptKeys(m: Memory, n: Memory, q: Pfn)
    requires KeepsBut(m, n, q)
    ensures m.pages.Keys <= n.pages.Keys
  {}

  lemma RowSame(m: Memory, n: Memory, child: Pfn, q: Pfn, p: Pfn)
    requires KeepsBut(m, n, child) && q in m.pages && q != child
    ensures Row(m, q, p) == Row(n, q, p)
  {}

  lemma RefsKept(m: Memory, n: Memory, q: Pfn, p: Pfn)
    requires KeepsBut(m, n, q) && p in m.pages
    ensures RefsOf(n, p) == RefsOf(m, p)
  {}

  lemma NamedRow(n: Memory, q: Pfn, i: nat, p: Pfn)
    requires Names(n, q, i, p)
    ensures q in n.pages && Row(n, q, p) > 0
  {
    CountUpdate(n.pages[q], i, ZERO, p);
  }

  lemma CoreExact(m: Memory, spaces: seq<Space>, p: Pfn)
    requires Inv(m, spaces)
    ensures RefsOf(m, p) == Pointers(m, p) + RootCount(spaces, p)
  {
    hide Lists, Shape, Typed;
  }
}

/** Translation tables as values: the memory that holds them, what each address
    space sees through them, and how reference counts, table descriptors and the
    spaces' own lists of tables agree. */
module TableMemory {
  import opened Descriptors

  /** Live tables, their reference counts, and (for the proofs) their level:
      0 for a root, 1 for a table named by a root, 2 for a leaf table. */
  datatype Memory = Memory(pages: map<Pfn, seq<Descriptor>>, refs: map<Pfn, nat>, level: map<Pfn, nat>)

  /** An address space: its root table and the table references it owns. */
  datatype Space = Space(root: Pfn, pfns: seq<Pfn>)

  const ENTRIES: nat := 512

  // ---------- counting the pointers to a table ----------

  function Points(d: Descriptor, p: Pfn): nat {
    if IsTable(d) && d.pfn == p then 1 else 0
  }

  /** How many entries of `t` name table `p`. */
  ghost function Count(t: seq<Descriptor>, p: Pfn): nat {
    if t == [] then 0 else Count(t[..|t| - 1], p) + Points(t[|t| - 1], p)
  }

  lemma {:induction false} CountUpdate(t: seq<Descriptor>, i: nat, d: Descriptor, p: Pfn)
    requires i < |t|
    ensures Count(t[i := d], p) + Points(t[i], p) == Count(t, p) + Points(d, p)
  {
    var n := |t| - 1;
    if i < n {
      assert t[i := d][..n] == t[..n][i := d];
      CountUpdate(t[..n], i, d, p);
    } else {
      assert t[i := d][..n] == t[..n];
    }
  }

  lemma CountTwo(t: seq<Descriptor>, i: nat, j: nat, p: Pfn)
    requires i < |t| && j < |t| && i != j && Points(t[i], p) == 1 && Points(t[j], p) == 1
    ensures Count(t, p) >= 2
  {
    CountUpdate(t, i, ZERO, p);
    CountUpdate(t[i := ZERO], j, ZERO, p);
  }

  lemma {:induction false} CountNone(t: seq<Descriptor>, p: Pfn)
    requires forall i :: 0 <= i < |t| ==> Points(t[i], p) == 0
    ensures Count(t, p) == 0
  {
    if t != [] { CountNone(t[..|t| - 1], p); }
  }

  /** The tables the entries of `t` name, in order. */
  function Targets(t: seq<Descriptor>): seq<Pfn> {
    if t == [] then []
    else
      var d := t[|t| - 1];
      Targets(t[..|t| - 1]) + if IsTable(d) then [d.pfn] else []
  }

  /** Entry `i` of table `q`; ZERO outside live tables. */
  function Entry(m: Memory, q: Pfn, i: nat): Descriptor {
    if q in m.pages && i < |m.pages[q]| then m.pages[q][i] else ZERO
  }

  function Level(m: Memory, q: Pfn): nat {
    if q in m.level then m.level[q] else 3
  }

  function RefsOf(m: Memory, p: Pfn): nat {
    if p in m.refs then m.refs[p] else 0
  }

  /** Pointers to `p` out of table `q`; leaf tables hold page descriptors only. */
  ghost function Row(m: Memory, q: Pfn, p: Pfn): nat {
    if q in m.pages && Level(m, q) < 2 then Count(m.pages[q], p) else 0
  }

  ghost function PointersFrom(m: Memory, keys: set<Pfn>, p: Pfn): nat
    decreases keys
  {
    if keys == {} then 0
    else
      var q :| q in keys;
      Row(m, q, p) + PointersFrom(m, keys - {q}, p)
  }

  /** The number of table descriptors in memory that name `p`. */
  ghost function Pointers(m: Memory, p: Pfn): nat {
    PointersFrom(m, m.pages.Keys, p)
  }

  lemma {:induction false} PickRow(m: Memory, keys: set<Pfn>, q: Pfn, p: Pfn)
    requires q in keys
    ensures PointersFrom(m, keys, p) == Row(m, q, p) + PointersFrom(m, keys - {q}, p)
    decreases keys
  {
    var r :| r in keys && PointersFrom(m, keys, p) == Row(m, r, p) + PointersFrom(m, keys - {r}, p);
    if r != q {
      PickRow(m, keys - {r}, q, p);
      PickRow(m, keys - {q}, r, p);
      assert keys - {r} - {q} == keys - {q} - {r};
    }
  }

  lemma {:induction false} SameRows(m: Memory, n: Memory, keys: set<Pfn>, p: Pfn)
    requires forall q :: q in keys ==> Row(m, q, p) == Row(n, q, p)
    ensures PointersFrom(m, keys, p) == PointersFrom(n, keys, p)
    decreases keys
  {
    if keys != {} {
      var q :| q in keys;
      PickRow(m, keys, q, p);
      PickRow(n, keys, q, p);
      SameRows(m, n, keys - {q}, p);
    }
  }

  /** Pointer counts depend on the tables only. */
  lemma SameTables(m: Memory, n: Memory, p: Pfn)
    requires m.pages == n.pages && m.level == n.level
    ensures Pointers(m, p) == Pointers(n, p)
  {
    SameRows(m, n, m.pages.Keys, p);
  }

  // ---------- elementary changes of the memory ----------

  ghost function Put(m: Memory, q: Pfn, i: nat, d: Descriptor): Memory {
    if q in m.pages && i < |m.pages[q]| then m.(pages := m.pages[q := m.pages[q][i := d]]) else m
  }

  ghost function Add(m: Memory, q: Pfn, level: nat, t: seq<Descriptor>): Memory {
    Memory(m.pages[q := t], m.refs[q := 1], m.level[q := level])
  }

  ghost function Remove(m: Memory, q: Pfn): Memory {
    Memory(m.pages - {q}, m.refs - {q}, m.level - {q})
  }

  ghost function Retain(m: Memory, q: Pfn): Memory {
    m.(refs := m.refs[q := RefsOf(m, q) + 1])
  }

  ghost function Release(m: Memory, q: Pfn): Memory {
    if RefsOf(m, q) > 1 then m.(refs := m.refs[q := m.refs[q] - 1]) else if q in m.refs then Remove(m, q) else m
  }

  /** All that `Put` changes. */
  lemma PutEntries(m: Memory, q: Pfn, i: nat, d: Descriptor)
    requires q in m.pages && i < |m.pages[q]|
    ensures forall r, j: nat :: Entry(Put(m, q, i, d), r, j) == if r == q && j == i then d else Entry(m, r, j)
    ensures forall r :: Level(Put(m, q, i, d), r) == Level(m, r) && RefsOf(Put(m, q, i, d), r) == RefsOf(m, r)
    ensures forall r :: r in Put(m, q, i, d).pages <==> r in m.pages
    ensures forall r :: r in m.pages ==> |Put(m, q, i, d).pages[r]| == |m.pages[r]|
  {}

  lemma AddEntries(m: Memory, q: Pfn, level: nat, t: seq<Descriptor>)
    requires q !in m.pages
    ensures forall r, j: nat :: Entry(Add(m, q, level, t), r, j) == if r == q && j < |t| then t[j] else Entry(m, r, j)
    ensures forall r :: Level(Add(m, q, level, t), r) == if r == q then level else Level(m, r)
    ensures forall r :: RefsOf(Add(m, q, level, t), r) == if r == q then 1 else RefsOf(m, r)
    ensures forall r :: r in Add(m, q, level, t).pages <==> r in m.pages || r == q
    ensures forall r :: r in m.pages ==> Add(m, q, level, t).pages[r] == m.pages[r]
  {}

  lemma RemoveEntries(m: Memory, q: Pfn)
    ensures forall r, j: nat :: Entry(Remove(m, q), r, j) == if r == q then ZERO else Entry(m, r, j)
    ensures forall r :: Level(Remove(m, q), r) == if r == q then 3 else Level(m, r)
    ensures forall r :: RefsOf(Remove(m, q), r) == if r == q then 0 else RefsOf(m, r)
    ensures forall r :: r in Remove(m, q).pages <==> r in m.pages && r != q
  {}

  lemma PutPointers(m: Memory, q: Pfn, i: nat, d: Descriptor, p: Pfn)
    requires q in m.pages && i < |m.pages[q]|
    ensures Level(m, q) < 2 ==>
            Pointers(Put(m, q, i, d), p) + Points(Entry(m, q, i), p) == Pointers(m, p) + Points(d, p)
    ensures Level(m, q) >= 2 ==> Pointers(Put(m, q, i, d), p) == Pointers(m, p)
  {
    var n := Put(m, q, i, d);
    assert n.pages.Keys == m.pages.Keys;
    PickRow(m, m.pages.Keys, q, p);
    PickRow(n, n.pages.Keys, q, p);
    SameRows(m, n, m.pages.Keys - {q}, p);
    CountUpdate(m.pages[q], i, d, p);
  }

  lemma AddPointers(m: Memory, q: Pfn, level: nat, t: seq<Descriptor>, p: Pfn)
    requires q !in m.pages
    ensures Pointers(Add(m, q, level, t), p) == Pointers(m, p) + if level < 2 then Count(t, p) else 0
  {
    var n := Add(m, q, level, t);
    assert n.pages.Keys - {q} == m.pages.Keys;
    PickRow(n, n.pages.Keys, q, p);
    SameRows(m, n, m.pages.Keys, p);
  }

  lemma RemovePointers(m: Memory, q: Pfn, p: Pfn)
    requires q in m.pages
    ensures Pointers(m, p) == Pointers(Remove(m, q), p) + Row(m, q, p)
  {
    var n := Remove(m, q);
    assert n.pages.Keys == m.pages.Keys - {q};
    PickRow(m, m.pages.Keys, q, p);
    SameRows(m, n, n.pages.Keys, p);
  }

  lemma EmptyRow(m: Memory, q: Pfn, p: Pfn)
    requires forall j: nat :: Entry(m, q, j) == ZERO
    ensures Row(m, q, p) == 0
  {
    if q in m.pages {
      forall j | 0 <= j < |m.pages[q]| ensures Points(m.pages[q][j], p) == 0 {
        assert Entry(m, q, j) == ZERO;
      }
      CountNone(m.pages[q], p);
    }
  }

  /** Entry `q[i]` is a table descriptor for `p` in a root or level-one table. */
  ghost predicate Names(m: Memory, q: Pfn, i: nat, p: Pfn) {
    Level(m, q) < 2 && IsTable(Entry(m, q, i)) && Entry(m, q, i).pfn == p
  }

  /** Two slots that name a table counted once are the same slot. */
  lemma OnePointer(m: Memory, q: Pfn, i: nat, r: Pfn, j: nat, p: Pfn)
    requires Pointers(m, p) <= 1 && Names(m, q, i, p) && Names(m, r, j, p)
    ensures q == r && i == j
  {
    CountUpdate(m.pages[q], i, ZERO, p);
    CountUpdate(m.pages[r], j, ZERO, p);
    PickRow(m, m.pages.Keys, q, p);
    if q != r {
      PickRow(m, m.pages.Keys - {q}, r, p);
    } else if i != j {
      CountTwo(m.pages[q], i, j, p);
    }
  }

  // ---------- the lists of tables the spaces own ----------

  ghost function Occurrences(s: seq<Pfn>, p: Pfn): nat {
    if s == [] then 0 else Occurrences(s[..|s| - 1], p) + if s[|s| - 1] == p then 1 else 0
  }

  lemma {:induction false} OccurrencesAppend(s: seq<Pfn>, t: seq<Pfn>, p: Pfn)
    ensures Occurrences(s + t, p) == Occurrences(s, p) + Occurrences(t, p)
  {
    if t == [] {
      assert s + t == s;
    } else {
      assert (s + t)[..|s + t| - 1] == s + t[..|t| - 1];
      OccurrencesAppend(s, t[..|t| - 1], p);
    }
  }

  lemma {:induction false} OccurrencesUpdate(s: seq<Pfn>, i: nat, x: Pfn, p: Pfn)
    requires i < |s|
    ensures Occurrences(s[i := x], p) + (if s[i] == p then 1 else 0) == Occurrences(s, p) + if x == p then 1 else 0
  {
    var n := |s| - 1;
    if i < n {
      assert s[i := x][..n] == s[..n][i := x];
      OccurrencesUpdate(s[..n], i, x, p);
    } else {
      assert s[i := x][..n] == s[..n];
    }
  }

  lemma {:induction false} OccurrencesPositive(s: seq<Pfn>, p: Pfn)
    ensures Occurrences(s, p) > 0 <==> p in s
  {
    if s != [] { OccurrencesPositive(s[..|s| - 1], p); }
  }

  lemma {:induction false} OccurrencesOfTargets(t: seq<Descriptor>, p: Pfn)
    ensures Occurrences(Targets(t), p) == Count(t, p)
  {
    if t != [] {
      var d := t[|t| - 1];
      OccurrencesOfTargets(t[..|t| - 1], p);
      OccurrencesAppend(Targets(t[..|t| - 1]), if IsTable(d) then [d.pfn] else [], p);
    }
  }

  /** The element at `i` replaced by the last one, which is dropped. */
  ghost function SwapRemove(s: seq<Pfn>, i: nat): seq<Pfn>
    requires i < |s|
  {
    s[i := s[|s| - 1]][..|s| - 1]
  }

  lemma OccurrencesSwapRemove(s: seq<Pfn>, i: nat, p: Pfn)
    requires i < |s|
    ensures Occurrences(SwapRemove(s, i), p) + (if s[i] == p then 1 else 0) == Occurrences(s, p)
  {
    OccurrencesUpdate(s, i, s[|s| - 1], p);
  }

  ghost function Listed(spaces: seq<Space>, p: Pfn): nat {
    if spaces == [] then 0 else Listed(spaces[..|spaces| - 1], p) + Occurrences(spaces[|spaces| - 1].pfns, p)
  }

  ghost function RootCount(spaces: seq<Space>, p: Pfn): nat {
    if spaces == [] then 0
    else RootCount(spaces[..|spaces| - 1], p) + if spaces[|spaces| - 1].root == p then 1 else 0
  }

  lemma {:induction false} ListedUpdate(spaces: seq<Space>, k: nat, s: Space, p: Pfn)
    requires k < |spaces|
    ensures Listed(spaces[k := s], p) + Occurrences(spaces[k].pfns, p) == Listed(spaces, p) + Occurrences(s.pfns, p)
    ensures s.root == spaces[k].root ==> RootCount(spaces[k := s], p) == RootCount(spaces, p)
  {
    var n := |spaces| - 1;
    if k < n {
      assert spaces[k := s][..n] == spaces[..n][k := s];
      ListedUpdate(spaces[..n], k, s, p);
    } else {
      assert spaces[k := s][..n] == spaces[..n];
    }
  }

  // ---------- the invariant of all live address spaces ----------

  ghost predicate Shape(m: Memory) {
    && m.pages.Keys == m.refs.Keys == m.level.Keys
    && (forall p :: p in m.pages ==> |m.pages[p]| == ENTRIES && FitsFrame(p))
    && (forall p :: p in m.refs ==> m.refs[p] > 0)
  }

  /** A table descriptor in a root or level-one table names a live table one
      level below; roots hold nothing else. */
  ghost predicate EntryTyped(m: Memory, q: Pfn, d: Descriptor) {
    && (Level(m, q) < 2 && IsTable(d) ==> d.pfn in m.pages && Level(m, d.pfn) == Level(m, q) + 1)
    && (Level(m, q) == 0 ==> d == ZERO || IsTable(d))
  }

  ghost predicate Typed(m: Memory) {
    && (forall q :: q in m.pages ==> Level(m, q) <= 2)
    && (forall q, i :: q in m.pages && 0 <= i < ENTRIES ==> EntryTyped(m, q, Entry(m, q, i)))
  }

  ghost predicate RootsDistinct(m: Memory, spaces: seq<Space>) {
    && (forall k :: 0 <= k < |spaces| ==> spaces[k].root in m.pages && Level(m, spaces[k].root) == 0)
    && (forall j, k :: 0 <= j < k < |spaces| ==> spaces[j].root != spaces[k].root)
  }

  /** A table's reference count is the number of table descriptors that name
      it, plus one if it is the root of a live space. */
  ghost predicate PointersExact(m: Memory, spaces: seq<Space>) {
    forall p :: RefsOf(m, p) == Pointers(m, p) + RootCount(spaces, p)
  }

  /** It is also the number of times the live spaces list the table. */
  ghost predicate ListsExact(m: Memory, spaces: seq<Space>) {
    forall p :: RefsOf(m, p) == Listed(spaces, p)
  }

  /** A space lists its root and the level-one tables it names, each named once. */
  ghost predicate OwnsLevelOne(m: Memory, s: Space) {
    && s.root in s.pfns
    && (forall i :: 0 <= i < ENTRIES && IsTable(Entry(m, s.root, i)) ==> Entry(m, s.root, i).pfn in s.pfns)
    && (forall i, j :: 0 <= i < j < ENTRIES && IsTable(Entry(m, s.root, i)) && IsTable(Entry(m, s.root, j))
          ==> Entry(m, s.root, i).pfn != Entry(m, s.root, j).pfn)
  }

  /** Supervisor blocks stay out of the user gigabyte's slots 128..255
      (0x1000_0000 up to 0x2000_0000). */
  ghost predicate UserSlotsClear(m: Memory, s: Space) {
    var d := Entry(m, s.root, 0);
    IsTable(d) ==> forall i :: 128 <= i < 256 ==> Entry(m, d.pfn, i) == ZERO || IsTable(Entry(m, d.pfn, i))
  }

  /** No two entries of a level-one table name the same leaf. */
  ghost predicate RowDistinct(m: Memory, q: Pfn) {
    forall i, j :: 0 <= i < j < ENTRIES && IsTable(Entry(m, q, i)) && IsTable(Entry(m, q, j)) ==>
      Entry(m, q, i).pfn != Entry(m, q, j).pfn
  }

  ghost predicate LeavesOnce(m: Memory) {
    forall q {:trigger RowDistinct(m, q)} :: q in m.pages && Level(m, q) == 1 ==> RowDistinct(m, q)
  }

  /** The tables themselves are in order. */
  ghost predicate Core(m: Memory, spaces: seq<Space>) {
    && Shape(m) && Typed(m) && LeavesOnce(m) && RootsDistinct(m, spaces) && PointersExact(m, spaces)
    && forall k :: 0 <= k < |spaces| ==> UserSlotsClear(m, spaces[k])
  }

  /** The spaces' lists account for every reference. */
  ghost predicate Lists(m: Memory, spaces: seq<Space>) {
    && ListsExact(m, spaces)
    && forall k :: 0 <= k < |spaces| ==> OwnsLevelOne(m, spaces[k])
  }

  ghost predicate Inv(m: Memory, spaces: seq<Space>) {
    Core(m, spaces) && Lists(m, spaces)
  }

  // ---------- what a space sees ----------

  datatype Index = Index(i0: nat, i1: nat, i2: nat)

  predicate Within(ix: Index) {
    ix.i0 < ENTRIES && ix.i1 < ENTRIES && ix.i2 < ENTRIES
  }

  /** The descriptor at which the walk from `root` ends: a leaf entry, or the
      first entry on the way that is not a table descriptor. */
  ghost function View(m: Memory, root: Pfn, ix: Index): Descriptor {
    var d0 := Entry(m, root, ix.i0);
    if !IsTable(d0) then d0
    else
      var d1 := Entry(m, d0.pfn, ix.i1);
      if !IsTable(d1) then d1 else Entry(m, d1.pfn, ix.i2)
  }
}

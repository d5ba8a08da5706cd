/** Mapping several pages as one transaction: what the rollback vectors `mapped`
    and `created` record, and that undoing what they record restores what every
    space sees, and, when no table had to be detached on the way, the very same
    tables, reference counts and lists. */
module Transactions {
  import opened Descriptors
  import opened TableMemory
  import opened TableSteps

  /** A table the transaction linked: `parent[index]` names `child`. */
  datatype Created = Created(parent: Pfn, index: nat, child: Pfn)

  ghost function Children(created: seq<Created>): seq<Pfn> {
    seq(|created|, i requires 0 <= i < |created| => created[i].child)
  }

  ghost predicate UserIndex(ix: Index) {
    Within(ix) && ix.i0 == 0
  }

  /** The slot of `c` still names its private child. */
  ghost predicate StillLinked(m: Memory, c: Created) {
    c.index < ENTRIES && Names(m, c.parent, c.index, c.child) && RefsOf(m, c.child) == 1
  }

  /** `c` is the user level-one table, and before the transaction nothing was
      mapped below it. */
  ghost predicate CreatedLevelOne(before: Memory, root: Pfn, c: Created) {
    && c.parent == root && c.index == 0
    && forall ix :: UserIndex(ix) ==> View(before, root, ix) == ZERO
  }

  /** `c` is a leaf of the user level-one table, and before the transaction
      nothing was mapped below it. */
  ghost predicate CreatedLeaf(before: Memory, m: Memory, root: Pfn, c: Created) {
    && IsTable(Entry(m, root, 0)) && c.parent == Entry(m, root, 0).pfn
    && forall i2: nat :: i2 < ENTRIES ==> View(before, root, Index(0, c.index, i2)) == ZERO
  }

  ghost predicate CreatedPlaced(before: Memory, m: Memory, root: Pfn, created: seq<Created>) {
    forall t :: 0 <= t < |created| ==>
      CreatedLeaf(before, m, root, created[t]) || (t == 0 && CreatedLevelOne(before, root, created[t]))
  }

  ghost predicate CreatedDistinct(created: seq<Created>) {
    forall t, u :: 0 <= t < u < |created| ==>
      created[t].child != created[u].child
        && (created[t].parent != created[u].parent || created[t].index != created[u].index)
  }

  /** If the transaction created the user level-one table, it created every leaf in it. */
  ghost predicate CreatedAllLeaves(m: Memory, root: Pfn, created: seq<Created>) {
    created != [] && created[0].parent == root ==>
      forall i: nat :: i < ENTRIES && IsTable(Entry(m, Entry(m, root, 0).pfn, i)) ==>
        exists u :: 1 <= u < |created| && created[u].index == i
  }

  ghost predicate CreatedOk(before: Memory, m: Memory, root: Pfn, created: seq<Created>) {
    && (forall t :: 0 <= t < |created| ==> StillLinked(m, created[t]))
    && CreatedDistinct(created) && CreatedPlaced(before, m, root, created) && CreatedAllLeaves(m, root, created)
    && (created != [] ==> IsTable(Entry(m, root, 0)) && RefsOf(m, Entry(m, root, 0).pfn) == 1)
  }

  /** A change that leaves the slots and children of `created` alone. */
  ghost predicate KeepsCreated(m: Memory, n: Memory, root: Pfn, created: seq<Created>) {
    && Entry(n, root, 0) == Entry(m, root, 0)
    && (created != [] ==> RefsOf(n, Entry(m, root, 0).pfn) == RefsOf(m, Entry(m, root, 0).pfn))
    && (forall t :: 0 <= t < |created| ==>
          && Entry(n, created[t].parent, created[t].index) == Entry(m, created[t].parent, created[t].index)
          && Level(n, created[t].parent) == Level(m, created[t].parent)
          && RefsOf(n, created[t].child) == RefsOf(m, created[t].child))
    && (created != [] ==>
          forall i: nat :: IsTable(Entry(n, Entry(m, root, 0).pfn, i)) ==> IsTable(Entry(m, Entry(m, root, 0).pfn, i)))
  }

  lemma CreatedKept(before: Memory, m: Memory, n: Memory, root: Pfn, created: seq<Created>)
    requires CreatedOk(before, m, root, created) && KeepsCreated(m, n, root, created)
    ensures CreatedOk(before, n, root, created)
  {
    hide Entry, Level, RefsOf, View, CreatedDistinct;
    forall t | 0 <= t < |created| ensures StillLinked(n, created[t]) { assert StillLinked(m, created[t]); }
    forall t | 0 <= t < |created|
      ensures CreatedLeaf(before, n, root, created[t]) || (t == 0 && CreatedLevelOne(before, root, created[t]))
    {
      assert CreatedLeaf(before, m, root, created[t]) || (t == 0 && CreatedLevelOne(before, root, created[t]));
    }
  }

  /** What was mapped so far: page `mapped[i]` got descriptor `ds[i]`. */
  ghost predicate MappedOk(before: Memory, m: Memory, root: Pfn, mapped: seq<Index>, ds: seq<Descriptor>) {
    && |mapped| == |ds|
    && (forall i, j :: 0 <= i < j < |mapped| ==> mapped[i] != mapped[j])
    && (forall i :: 0 <= i < |mapped| ==>
          UserIndex(mapped[i]) && View(before, root, mapped[i]) == ZERO && ds[i] != ZERO
          && View(m, root, mapped[i]) == ds[i] && PrivatePath(m, root, mapped[i]))
    && (forall ix :: Within(ix) && ix !in mapped ==> View(m, root, ix) == View(before, root, ix))
  }

  ghost predicate OthersSame(before: Memory, m: Memory, spaces: seq<Space>, k: nat) {
    forall j :: 0 <= j < |spaces| && j != k ==> SameView(before, m, spaces[j].root)
  }

  ghost predicate Transaction(before: Memory, m: Memory, spaces: seq<Space>, k: nat,
                              mapped: seq<Index>, ds: seq<Descriptor>, created: seq<Created>) {
    && k < |spaces| && Core(m, spaces) && OthersSame(before, m, spaces, k)
    && MappedOk(before, m, spaces[k].root, mapped, ds) && CreatedOk(before, m, spaces[k].root, created)
  }

  lemma Begin(m: Memory, spaces: seq<Space>, k: nat)
    requires k < |spaces| && Core(m, spaces)
    ensures Transaction(m, m, spaces, k, [], [], [])
  {}

  // ---------- one more page ----------

  lemma MapStep(before: Memory, m: Memory, n: Memory, spaces: seq<Space>, k: nat,
                mapped: seq<Index>, ds: seq<Descriptor>, created: seq<Created>, ix: Index, d: Descriptor)
    requires Transaction(before, m, spaces, k, mapped, ds, created)
    requires UserIndex(ix) && PrivatePath(m, spaces[k].root, ix) && View(m, spaces[k].root, ix) == ZERO
    requires d != ZERO
    requires n == Put(m, Leaf(m, spaces[k].root, ix), ix.i2, d)
    ensures Transaction(before, n, spaces, k, mapped + [ix], ds + [d], created)
  {
    hide Core, View, PrivatePath, Put, Leaf, CreatedOk;
    var root := spaces[k].root;
    PutPrivateLeaf(m, spaces, k, ix, d, n);
    forall j | 0 <= j < |spaces| && j != k ensures SameView(before, n, spaces[j].root) {
      assert SameView(before, m, spaces[j].root) && SameView(m, n, spaces[j].root);
    }
    PrivateReaches(m, root, ix);
    MapCreated(before, m, n, spaces, k, ix, d, created);
    assert ix !in mapped;
    var after := mapped + [ix];
    forall jx | Within(jx) && jx !in after ensures View(n, root, jx) == View(before, root, jx) {
      assert ix in after && (jx in mapped ==> jx in after);
    }
  }

  lemma MapCreated(before: Memory, m: Memory, n: Memory, spaces: seq<Space>, k: nat, ix: Index, d: Descriptor,
                   created: seq<Created>)
    requires k < |spaces| && Core(m, spaces) && CreatedOk(before, m, spaces[k].root, created)
    requires Within(ix) && Reaches(m, spaces[k].root, ix) && n == Put(m, Leaf(m, spaces[k].root, ix), ix.i2, d)
    ensures CreatedOk(before, n, spaces[k].root, created)
  {
    hide Core, Put, View, Typed, Shape, Level, CreatedOk, RefsOf, Leaf, IsTable, Names, Entry;
    var root, leaf := spaces[k].root, Leaf(m, spaces[k].root, ix);
    CoreParts(m, spaces, k);
    WalkTyped(m, root, ix);
    WalkTyped(m, root, Index(0, 0, 0));
    ShapeAt(m, leaf);
    PutEntries(m, leaf, ix.i2, d);
    forall t | 0 <= t < |created| ensures created[t].parent != leaf {
      StillLinkedAt(before, m, root, created, t);
    }
    if created != [] { CreatedRootEntry(before, m, root, created); }
    CreatedKept(before, m, n, root, created);
  }

  lemma CreatedRootEntry(before: Memory, m: Memory, root: Pfn, created: seq<Created>)
    requires CreatedOk(before, m, root, created) && created != []
    ensures IsTable(Entry(m, root, 0)) && RefsOf(m, Entry(m, root, 0).pfn) == 1
  {}

  lemma StillLinkedAt(before: Memory, m: Memory, root: Pfn, created: seq<Created>, t: nat)
    requires CreatedOk(before, m, root, created) && t < |created|
    ensures created[t].index < ENTRIES && Names(m, created[t].parent, created[t].index, created[t].child)
    ensures RefsOf(m, created[t].child) == 1 && Level(m, created[t].parent) < 2
  {
    assert StillLinked(m, created[t]);
  }

  lemma CoreParts(m: Memory, spaces: seq<Space>, k: nat)
    requires Core(m, spaces) && k < |spaces|
    ensures Shape(m) && Typed(m) && spaces[k].root in m.pages && Level(m, spaces[k].root) == 0
    ensures |m.pages[spaces[k].root]| == ENTRIES && PointersExact(m, spaces)
  {}

  // ---------- one more table ----------

  lemma LinkPrivatePath(m: Memory, n: Memory, root: Pfn, jx: Index, q: Pfn, i: nat, c: Pfn, d: Descriptor)
    requires Shape(m) && Typed(m) && LinkStep(m, n, q, i, c, d) && root in m.pages && Level(m, root) == 0 && Within(jx)
    requires PrivatePath(m, root, jx)
    ensures PrivatePath(n, root, jx) && Leaf(n, root, jx) == Leaf(m, root, jx)
  {
    hide Entry, Level, Pointers, RefsOf, Shape, Typed, FitsFrame;
    WalkTyped(m, root, jx);
  }

  lemma LinkMapped(before: Memory, m: Memory, n: Memory, spaces: seq<Space>, k: nat, mapped: seq<Index>,
                   ds: seq<Descriptor>,
                   q: Pfn, i: nat, c: Pfn, d: Descriptor)
    requires k < |spaces| && Core(m, spaces) && SameViews(m, n, spaces) && LinkStep(m, n, q, i, c, d)
    requires MappedOk(before, m, spaces[k].root, mapped, ds)
    ensures MappedOk(before, n, spaces[k].root, mapped, ds)
  {
    hide Core, View, PrivatePath, LinkStep, Level;
    var root := spaces[k].root;
    CoreParts(m, spaces, k);
    assert SameView(m, n, root);
    forall j | 0 <= j < |mapped| ensures PrivatePath(n, root, mapped[j]) {
      LinkPrivatePath(m, n, root, mapped[j], q, i, c, d);
    }
  }

  lemma LinkOthers(before: Memory, m: Memory, n: Memory, spaces: seq<Space>, after: seq<Space>, k: nat)
    requires OthersSame(before, m, spaces, k) && SameViews(m, n, spaces) && SameRoots(spaces, after)
    ensures OthersSame(before, n, after, k)
  {
    hide View;
    forall j | 0 <= j < |after| && j != k ensures SameView(before, n, after[j].root) {
      assert SameView(before, m, spaces[j].root) && SameView(m, n, spaces[j].root);
    }
  }

  lemma LinkCreatedLevelOne(before: Memory, m: Memory, n: Memory, root: Pfn, c: Pfn, d: Descriptor)
    requires LinkStep(m, n, root, 0, c, d) && Level(m, root) == 0
    requires MappedOk(before, m, root, [], [])
    ensures CreatedOk(before, n, root, [Created(root, 0, c)])
  {
    hide Level, Pointers, RefsOf, FitsFrame;
    var t := Created(root, 0, c);
    LinkNames(m, n, root, 0, c, d);
    assert StillLinked(n, t);
    forall ix | UserIndex(ix) ensures View(before, root, ix) == ZERO { assert View(m, root, ix) == ZERO; }
    assert forall j: nat :: Entry(n, c, j) == ZERO;
  }

  lemma LinkCreatedLeaf(before: Memory, m: Memory, n: Memory, root: Pfn, i: nat, c: Pfn, d: Descriptor,
                        mapped: seq<Index>, ds: seq<Descriptor>, created: seq<Created>)
    requires Typed(m) && root in m.pages && Level(m, root) == 0
    requires IsTable(Entry(m, root, 0)) && RefsOf(m, Entry(m, root, 0).pfn) == 1
    requires LinkStep(m, n, Entry(m, root, 0).pfn, i, c, d)
    requires MappedOk(before, m, root, mapped, ds) && CreatedOk(before, m, root, created)
    ensures CreatedOk(before, n, root, created + [Created(Entry(m, root, 0).pfn, i, c)])
  {
    hide Pointers, RefsOf, FitsFrame, Level, PrivatePath, Typed, Entry, CreatedLeaf, CreatedLevelOne;
    var one := Entry(m, root, 0).pfn;
    var t := Created(one, i, c);
    var after := created + [t];
    WalkTyped(m, root, Index(0, 0, 0));
    LinkNames(m, n, one, i, c, d);
    assert StillLinked(n, t);
    forall u | 0 <= u < |created|
      ensures StillLinked(n, created[u]) && (created[u].parent != one || created[u].index != i) && created[u].child != c
      ensures CreatedLeaf(before, n, root, created[u]) || (u == 0 && CreatedLevelOne(before, root, created[u]))
    {
      LinkKeepsSlot(before, m, n, root, one, i, c, d, created[u]);
      assert StillLinked(m, created[u]);
    }
    NothingBelow(before, m, n, root, one, i, c, mapped, ds);
    forall u | 0 <= u < |after|
      ensures CreatedLeaf(before, n, root, after[u]) || (u == 0 && CreatedLevelOne(before, root, after[u])) {
      if u < |created| { assert after[u] == created[u]; } else { assert after[u] == t; }
    }
    forall u | 0 <= u < |after| ensures StillLinked(n, after[u]) {
      if u < |created| { assert after[u] == created[u]; } else { assert after[u] == t; }
    }
    assert Entry(n, root, 0) == Entry(m, root, 0);
    if after[0].parent == root {
      if created != [] {
        assert after[0] == created[0];
        forall x: nat | x < ENTRIES && IsTable(Entry(n, one, x))
          ensures exists u :: 1 <= u < |after| && after[u].index == x {
          if x == i { assert after[|created|].index == x; }
          else {
            var u :| 1 <= u < |created| && created[u].index == x;
            assert after[u].index == x;
          }
        }
      }
    }
  }

  lemma LinkKeepsSlot(before: Memory, m: Memory, n: Memory, root: Pfn, one: Pfn, i: nat, c: Pfn, d: Descriptor,
                      t: Created)
    requires Typed(m) && LinkStep(m, n, one, i, c, d) && StillLinked(m, t) && Level(m, root) == 0 && Level(m, one) == 1
             && one == Entry(m, root, 0).pfn
    ensures StillLinked(n, t) && (t.parent != one || t.index != i) && t.child != c
    ensures CreatedLeaf(before, m, root, t) ==> CreatedLeaf(before, n, root, t)
  {
    hide Pointers, FitsFrame, View, Entry, Level, Typed;
    NamedLevel(m, t.parent, t.index, t.child);
  }

  lemma NothingBelow(before: Memory, m: Memory, n: Memory, root: Pfn, one: Pfn, i: nat, c: Pfn, mapped: seq<Index>,
                     ds: seq<Descriptor>)
    requires MappedOk(before, m, root, mapped, ds) && IsTable(Entry(m, root, 0)) && one == Entry(m, root, 0).pfn
    requires Entry(m, one, i) == ZERO && i < ENTRIES && Entry(n, root, 0) == Entry(m, root, 0)
    ensures CreatedLeaf(before, n, root, Created(one, i, c))
  {
    hide Entry, RefsOf;
    forall i2: nat | i2 < ENTRIES ensures View(before, root, Index(0, i, i2)) == ZERO {
      var ix := Index(0, i, i2);
      assert View(m, root, ix) == ZERO && !Reaches(m, root, ix);
    }
  }

  lemma MappedNeedsTable(before: Memory, m: Memory, root: Pfn, mapped: seq<Index>, ds: seq<Descriptor>)
    requires MappedOk(before, m, root, mapped, ds) && !IsTable(Entry(m, root, 0))
    ensures mapped == [] && ds == []
  {
    if mapped != [] {
      MappedReaches(before, m, root, mapped, ds, 0);
      assert false;
    }
  }

  lemma MappedReaches(before: Memory, m: Memory, root: Pfn, mapped: seq<Index>, ds: seq<Descriptor>, i: nat)
    requires MappedOk(before, m, root, mapped, ds) && i < |mapped|
    ensures UserIndex(mapped[i]) && PrivatePath(m, root, mapped[i]) && View(before, root, mapped[i]) == ZERO
    ensures IsTable(Entry(m, root, 0)) && RefsOf(m, Entry(m, root, 0).pfn) == 1
  {}

  /** Linking the user level-one table. */
  lemma LinkStepOne(before: Memory, m: Memory, n: Memory, spaces: seq<Space>, k: nat, mapped: seq<Index>,
                    ds: seq<Descriptor>,
                    created: seq<Created>, c: Pfn, d: Descriptor)
    requires Transaction(before, m, spaces, k, mapped, ds, created) && Shape(n)
    requires LinkStep(m, n, spaces[k].root, 0, c, d)
    ensures created == []
    ensures Transaction(before, n, spaces[k := Push(spaces[k], c)], k, mapped, ds,
            created + [Created(spaces[k].root, 0, c)])
  {
    hide Core, View, LinkStep, CreatedOk, MappedOk, Shape, Level, RefsOf;
    var root := spaces[k].root;
    CoreParts(m, spaces, k);
    LinkWas(m, n, root, 0, c, d);
    MappedNeedsTable(before, m, root, mapped, ds);
    if created != [] { CreatedRootEntry(before, m, root, created); }
    LinkKeeps(m, n, spaces, k, root, 0, c, d);
    LinkMapped(before, m, n, spaces, k, mapped, ds, root, 0, c, d);
    LinkOthers(before, m, n, spaces, spaces[k := Push(spaces[k], c)], k);
    LinkCreatedLevelOne(before, m, n, root, c, d);
    assert created + [Created(root, 0, c)] == [Created(root, 0, c)];
  }

  lemma LinkWas(m: Memory, n: Memory, q: Pfn, i: nat, c: Pfn, d: Descriptor)
    requires LinkStep(m, n, q, i, c, d)
    ensures Entry(m, q, i) == ZERO && !IsTable(Entry(m, q, i))
  {}

  /** Linking a leaf below a private user level-one table. */
  lemma LinkStepLeaf(before: Memory, m: Memory, n: Memory, spaces: seq<Space>, k: nat, mapped: seq<Index>,
                     ds: seq<Descriptor>,
                     created: seq<Created>, i: nat, c: Pfn, d: Descriptor)
    requires Transaction(before, m, spaces, k, mapped, ds, created) && Shape(n)
    requires IsTable(Entry(m, spaces[k].root, 0)) && RefsOf(m, Entry(m, spaces[k].root, 0).pfn) == 1
    requires LinkStep(m, n, Entry(m, spaces[k].root, 0).pfn, i, c, d)
    ensures Transaction(before, n, spaces[k := Push(spaces[k], c)], k, mapped, ds,
                        created + [Created(Entry(m, spaces[k].root, 0).pfn, i, c)])
  {
    hide Core, View, LinkStep, CreatedOk, MappedOk, Shape, Level, RefsOf, Entry;
    var root, one := spaces[k].root, Entry(m, spaces[k].root, 0).pfn;
    CoreParts(m, spaces, k);
    WalkTyped(m, root, Index(0, 0, 0));
    LinkKeeps(m, n, spaces, k, one, i, c, d);
    LinkMapped(before, m, n, spaces, k, mapped, ds, one, i, c, d);
    LinkOthers(before, m, n, spaces, spaces[k := Push(spaces[k], c)], k);
    LinkCreatedLeaf(before, m, n, root, i, c, d, mapped, ds, created);
  }

  // ---------- a leaf detached on the way ----------

  lemma DetachPrivatePath(m: Memory, n: Memory, root: Pfn, jx: Index, q: Pfn, i: nat, source: Pfn, copy: Pfn,
                          d: Descriptor)
    requires Shape(m) && Typed(m) && root in m.pages && Level(m, root) == 0 && Within(jx) && Level(m, q) == 1
    requires DetachStep(m, n, q, i, source, copy, d) && PrivatePath(m, root, jx)
    ensures PrivatePath(n, root, jx) && Leaf(n, root, jx) == Leaf(m, root, jx)
  {
    hide Pointers, Entry, Level, RefsOf, Shape, Typed, Row, FitsFrame;
    WalkTyped(m, root, jx);
    NamedLevel(m, q, i, source);
    LeafRow(m, source, LevelOne(m, root, jx));
    LeafRow(m, source, Leaf(m, root, jx));
  }

  lemma LeafRow(m: Memory, source: Pfn, p: Pfn)
    requires Level(m, source) == 2
    ensures Row(m, source, p) == 0
  {}

  lemma DetachCreated(before: Memory, m: Memory, n: Memory, root: Pfn, created: seq<Created>, i: nat, source: Pfn,
                      copy: Pfn, d: Descriptor)
    requires Shape(m) && Typed(m) && root in m.pages && Level(m, root) == 0 && created != []
    requires CreatedOk(before, m, root, created)
    requires DetachStep(m, n, Entry(m, root, 0).pfn, i, source, copy, d)
    ensures CreatedOk(before, n, root, created)
  {
    hide Pointers, Entry, Level, RefsOf, Shape, Typed, Row, FitsFrame, CreatedOk, Names;
    var one := Entry(m, root, 0).pfn;
    CreatedRootEntry(before, m, root, created);
    WalkTyped(m, root, Index(0, 0, 0));
    NamedLevel(m, one, i, source);
    NamesEntry(m, one, i, source);
    LeafRow(m, source, one);
    forall t | 0 <= t < |created|
      ensures Entry(n, created[t].parent, created[t].index) == Entry(m, created[t].parent, created[t].index)
      ensures Level(n, created[t].parent) == Level(m, created[t].parent)
              && RefsOf(n, created[t].child) == RefsOf(m, created[t].child)
    {
      StillLinkedAt(before, m, root, created, t);
      NamesEntry(m, created[t].parent, created[t].index, created[t].child);
      NamedLevel(m, created[t].parent, created[t].index, created[t].child);
      NamesLive(m, created[t].parent, created[t].index, created[t].child);
      LeafRow(m, source, created[t].child);
    }
    CreatedKept(before, m, n, root, created);
  }

  lemma NamesLive(m: Memory, q: Pfn, i: nat, p: Pfn)
    requires Names(m, q, i, p)
    ensures q in m.pages
  {}

  lemma DetachMapped(before: Memory, m: Memory, n: Memory, spaces: seq<Space>, k: nat, mapped: seq<Index>,
                     ds: seq<Descriptor>,
                     q: Pfn, i: nat, source: Pfn, copy: Pfn, d: Descriptor)
    requires k < |spaces| && Core(m, spaces) && SameViews(m, n, spaces) && DetachStep(m, n, q, i, source, copy, d)
             && Level(m, q) == 1
    requires MappedOk(before, m, spaces[k].root, mapped, ds)
    ensures MappedOk(before, n, spaces[k].root, mapped, ds)
  {
    hide Core, View, PrivatePath, DetachStep, Level;
    var root := spaces[k].root;
    CoreParts(m, spaces, k);
    assert SameView(m, n, root);
    forall j | 0 <= j < |mapped| ensures PrivatePath(n, root, mapped[j]) {
      DetachPrivatePath(m, n, root, mapped[j], q, i, source, copy, d);
    }
  }

  lemma DetachStepLeaf(before: Memory, m: Memory, n: Memory, spaces: seq<Space>, after: seq<Space>, k: nat,
                       mapped: seq<Index>, ds: seq<Descriptor>,
                       created: seq<Created>, ix: Index)
    requires Transaction(before, m, spaces, k, mapped, ds, created)
    requires UserIndex(ix) && IsTable(Entry(m, spaces[k].root, 0)) && LeafDetached(m, n, spaces[k].root, ix)
    requires Core(n, after) && SameViews(m, n, spaces) && SameRoots(spaces, after)
    ensures Transaction(before, n, after, k, mapped, ds, created)
  {
    hide Core, View, CreatedOk, MappedOk, Shape, Level, RefsOf, Entry, DetachStep, TableDescriptor;
    var root := spaces[k].root;
    var copy :| DetachStep(m, n, LevelOne(m, root, ix), ix.i1, Leaf(m, root, ix), copy, TableDescriptor(copy));
    CoreParts(m, spaces, k);
    WalkTyped(m, root, ix);
    LinkOthers(before, m, n, spaces, after, k);
    DetachMapped(before, m, n, spaces, k, mapped, ds, LevelOne(m, root, ix), ix.i1, Leaf(m, root, ix), copy,
      TableDescriptor(copy));
    if created != [] {
      DetachCreated(before, m, n, root, created, ix.i1, Leaf(m, root, ix), copy, TableDescriptor(copy));
    } else {
      CreatedNone(before, n, root);
    }
  }

  lemma CreatedNone(before: Memory, m: Memory, root: Pfn)
    ensures CreatedOk(before, m, root, [])
  {}

  // ---------- rolling back ----------

  /** Zeroing the page mapped last. */
  lemma UnmapStep(before: Memory, m: Memory, n: Memory, spaces: seq<Space>, k: nat,
                  mapped: seq<Index>, ds: seq<Descriptor>, created: seq<Created>, ix: Index)
    requires Transaction(before, m, spaces, k, mapped, ds, created) && mapped != [] && ix == mapped[|mapped| - 1]
    requires n == Put(m, Leaf(m, spaces[k].root, ix), ix.i2, ZERO)
    ensures UserIndex(ix) && PrivatePath(m, spaces[k].root, ix)
    ensures Transaction(before, n, spaces, k, mapped[..|mapped| - 1], ds[..|mapped| - 1], created)
  {
    hide Core, View, PrivatePath, Put, Leaf, CreatedOk;
    var root, fewer, less := spaces[k].root, mapped[..|mapped| - 1], ds[..|mapped| - 1];
    PutPrivateLeaf(m, spaces, k, ix, ZERO, n);
    PrivateReaches(m, root, ix);
    MapCreated(before, m, n, spaces, k, ix, ZERO, created);
    forall j | 0 <= j < |spaces| && j != k ensures SameView(before, n, spaces[j].root) {
      assert SameView(before, m, spaces[j].root) && SameView(m, n, spaces[j].root);
    }
    forall jx | Within(jx) && jx !in fewer ensures View(n, root, jx) == View(before, root, jx) {
      if jx in mapped { assert jx == ix; }
    }
    forall j | 0 <= j < |fewer| ensures View(n, root, fewer[j]) == less[j] && PrivatePath(n, root, fewer[j]) {
      assert fewer[j] == mapped[j] && mapped[j] != ix;
    }
  }

  /** A created table is empty once its pages are zeroed and its leaves unlinked. */
  lemma CreatedEmpty(before: Memory, m: Memory, root: Pfn, created: seq<Created>, c: Created)
    requires Shape(m) && Typed(m) && root in m.pages && Level(m, root) == 0
    requires created != [] && c == created[|created| - 1]
    requires CreatedOk(before, m, root, created) && MappedOk(before, m, root, [], [])
    ensures forall j: nat :: Entry(m, c.child, j) == ZERO
  {
    hide Shape, Typed, RefsOf, Level, Entry;
    var t := |created| - 1;
    StillLinkedAt(before, m, root, created, t);
    NamesEntry(m, c.parent, c.index, c.child);
    ShapeAt(m, c.child);
    forall j: nat | j < ENTRIES ensures Entry(m, c.child, j) == ZERO {
      if CreatedLeaf(before, m, root, c) {
        assert View(m, root, Index(0, c.index, j)) == View(before, root, Index(0, c.index, j));
      } else {
        assert t == 0 && CreatedLevelOne(before, root, c);
        assert View(m, root, Index(0, j, 0)) == View(before, root, Index(0, j, 0));
      }
    }
  }

  lemma UnlinkCreated(before: Memory, m: Memory, n: Memory, root: Pfn, created: seq<Created>, c: Created, d: Descriptor)
    requires Typed(m) && Level(m, root) == 0 && root in m.pages
    requires created != [] && c == created[|created| - 1] && CreatedOk(before, m, root, created)
    requires LinkStep(n, m, c.parent, c.index, c.child, d)
    ensures CreatedOk(before, n, root, created[..|created| - 1])
  {
    hide Pointers, RefsOf, FitsFrame, Level, Typed, Entry, CreatedLeaf, CreatedLevelOne, StillLinked, LinkStep;
    var fewer := created[..|created| - 1];
    WalkTyped(m, root, Index(0, 0, 0));
    LinkLevels(n, m, c.parent, c.index, c.child, d);
    forall t | 0 <= t < |fewer|
      ensures StillLinked(n, fewer[t])
      ensures CreatedLeaf(before, n, root, fewer[t]) || (t == 0 && CreatedLevelOne(before, root, fewer[t]))
      ensures IsTable(Entry(n, root, 0)) && RefsOf(n, Entry(n, root, 0).pfn) == 1
              && Entry(n, root, 0) == Entry(m, root, 0)
    {
      UnlinkKeepsSlot(before, m, n, root, created, c, d, t);
    }
    if fewer != [] && fewer[0].parent == root {
      forall x: nat | x < ENTRIES && IsTable(Entry(n, Entry(n, root, 0).pfn, x))
        ensures exists u :: 1 <= u < |fewer| && fewer[u].index == x
      {
        UnlinkKeepsSlot(before, m, n, root, created, c, d, 0);
        var u := OtherLeaf(before, m, n, root, created, c, d, x);
        assert fewer[u].index == x;
      }
    }
    UnlinkDistinct(before, m, root, created);
  }

  lemma UnlinkDistinct(before: Memory, m: Memory, root: Pfn, created: seq<Created>)
    requires CreatedOk(before, m, root, created) && created != []
    ensures CreatedDistinct(created[..|created| - 1])
  {
    hide StillLinked, CreatedPlaced, CreatedAllLeaves;
  }

  lemma LinkLevels(m: Memory, n: Memory, q: Pfn, i: nat, c: Pfn, d: Descriptor)
    requires LinkStep(m, n, q, i, c, d)
    ensures Level(n, c) == Level(n, q) + 1 && Level(n, q) < 2 && q != c && Level(m, q) == Level(n, q)
    ensures Entry(n, q, i) == d && Entry(m, q, i) == ZERO && IsTable(d) && d.pfn == c
    ensures forall r, j: nat :: r != q || j != i ==> Entry(m, r, j) == Entry(n, r, j)
    ensures forall r :: r != c ==> RefsOf(m, r) == RefsOf(n, r) && Level(m, r) == Level(n, r)
  {}

  lemma UnlinkKeepsSlot(before: Memory, m: Memory, n: Memory, root: Pfn, created: seq<Created>, c: Created,
                        d: Descriptor, t: nat)
    requires Typed(m) && Level(m, root) == 0 && root in m.pages
    requires created != [] && c == created[|created| - 1] && CreatedOk(before, m, root, created) && t < |created| - 1
    requires LinkStep(n, m, c.parent, c.index, c.child, d)
    ensures StillLinked(n, created[t])
    ensures CreatedLeaf(before, n, root, created[t]) || (t == 0 && CreatedLevelOne(before, root, created[t]))
    ensures IsTable(Entry(n, root, 0)) && RefsOf(n, Entry(n, root, 0).pfn) == 1
            && Entry(n, root, 0) == Entry(m, root, 0)
  {
    hide LinkStep, Pointers, RefsOf, Level, Typed, Entry, View;
    LinkLevels(n, m, c.parent, c.index, c.child, d);
    WalkTyped(m, root, Index(0, 0, 0));
    CreatedRootEntry(before, m, root, created);
    StillLinkedAt(before, m, root, created, t);
    NamesEntry(m, created[t].parent, created[t].index, created[t].child);
    NamedLevel(m, created[t].parent, created[t].index, created[t].child);
    assert CreatedLeaf(before, m, root, c);
    assert created[t].parent != c.parent || created[t].index != c.index;
    ParentIsHigh(before, m, root, created, t);
    ParentIsHigh(before, m, root, created, |created| - 1);
    assert CreatedLeaf(before, m, root, created[t]) || (t == 0 && CreatedLevelOne(before, root, created[t]));
  }

  lemma ParentIsHigh(before: Memory, m: Memory, root: Pfn, created: seq<Created>, t: nat)
    requires CreatedOk(before, m, root, created) && t < |created| && Typed(m) && Level(m, root) == 0 && root in m.pages
    ensures Level(m, created[t].parent) <= 1 && Level(m, created[t].child) == Level(m, created[t].parent) + 1
    ensures CreatedLeaf(before, m, root, created[t]) ==> Level(m, created[t].parent) == 1
  {
    hide Pointers, RefsOf, Typed, View;
    StillLinkedAt(before, m, root, created, t);
    NamedLevel(m, created[t].parent, created[t].index, created[t].child);
    WalkTyped(m, root, Index(0, 0, 0));
  }

  lemma OtherLeaf(before: Memory, m: Memory, n: Memory, root: Pfn, created: seq<Created>, c: Created, d: Descriptor,
                  x: nat) returns (u: nat)
    requires Typed(m) && Level(m, root) == 0 && root in m.pages
    requires |created| > 1 && c == created[|created| - 1] && CreatedOk(before, m, root, created)
             && created[0].parent == root
    requires LinkStep(n, m, c.parent, c.index, c.child, d)
    requires x < ENTRIES && IsTable(Entry(n, Entry(m, root, 0).pfn, x))
    ensures 1 <= u < |created| - 1 && created[u].index == x
  {
    hide LinkStep, Pointers, RefsOf, Level, Typed, Entry, View;
    LinkLevels(n, m, c.parent, c.index, c.child, d);
    assert CreatedLeaf(before, m, root, c);
    u :| 1 <= u < |created| && created[u].index == x;
  }

  lemma UnlinkMapped(before: Memory, m: Memory, n: Memory, spaces: seq<Space>, k: nat)
    requires k < |spaces| && MappedOk(before, m, spaces[k].root, [], []) && SameViews(m, n, spaces)
    ensures MappedOk(before, n, spaces[k].root, [], [])
  {
    hide View;
    assert SameView(m, n, spaces[k].root);
  }

  /** Unlinking the table created last. */
  lemma UnlinkStep(before: Memory, m: Memory, n: Memory, spaces: seq<Space>, k: nat, created: seq<Created>, c: Created)
    requires Transaction(before, m, spaces, k, [], [], created) && created != [] && c == created[|created| - 1]
    requires n == Unlinked(m, c.parent, c.index, c.child)
    ensures Transaction(before, n, spaces, k, [], [], created[..|created| - 1])
    ensures c.parent in m.pages && c.child in m.pages && c.index < ENTRIES && RefsOf(m, c.child) == 1
    ensures forall pfns :: spaces[k].pfns == pfns + [c.child] && Lists(m, spaces) ==>
            Lists(n, spaces[k := spaces[k].(pfns := pfns)])
  {
    hide Core, View, LinkStep, CreatedOk, MappedOk, Shape, Level, RefsOf, Entry, Typed, Unlinked, Lists;
    var root, d := spaces[k].root, Entry(m, c.parent, c.index);
    CoreParts(m, spaces, k);
    StillLinkedAt(before, m, root, created, |created| - 1);
    NamesLive(m, c.parent, c.index, c.child);
    NamedLevel(m, c.parent, c.index, c.child);
    CreatedEmpty(before, m, root, created, c);
    UnlinkedStep(m, c.parent, c.index, c.child);
    UnlinkKeeps(m, n, spaces, k, c.parent, c.index, c.child, d);
    UnlinkCreated(before, m, n, root, created, c, d);
    UnlinkMapped(before, m, n, spaces, k);
    LinkOthers(before, m, n, spaces, spaces, k);
  }

  /** With everything rolled back, every space sees what it saw before. */
  lemma RolledBack(before: Memory, m: Memory, spaces: seq<Space>, k: nat)
    requires Transaction(before, m, spaces, k, [], [], [])
    ensures SameViews(before, m, spaces) && Core(m, spaces)
  {
    hide View, Core;
    forall j | 0 <= j < |spaces| ensures SameView(before, m, spaces[j].root) {}
  }

  // ---------- when nothing was detached, rollback restores the tables exactly ----------

  /** The memory with the mapped pages zeroed, last one first. */
  ghost function ZeroAll(m: Memory, root: Pfn, mapped: seq<Index>): Memory
    decreases |mapped|
  {
    if mapped == [] then m
    else
      var ix := mapped[|mapped| - 1];
      ZeroAll(Put(m, Leaf(m, root, ix), ix.i2, ZERO), root, mapped[..|mapped| - 1])
  }

  /** The memory with the created tables unlinked, last one first. */
  ghost function UnlinkAll(m: Memory, created: seq<Created>): Memory
    decreases |created|
  {
    if created == [] then m
    else
      var c := created[|created| - 1];
      UnlinkAll(Unlinked(m, c.parent, c.index, c.child), created[..|created| - 1])
  }

  /** Undoing what is recorded gives back the memory and the list as they were. */
  ghost predicate Undoes(before: Memory, was: seq<Pfn>, m: Memory, s: Space, mapped: seq<Index>,
                         created: seq<Created>) {
    UnlinkAll(ZeroAll(m, s.root, mapped), created) == before && s.pfns == was + Children(created)
  }

  lemma UndoesNothing(m: Memory, s: Space)
    ensures Undoes(m, s.pfns, m, s, [], [])
  {
    assert s.pfns == s.pfns + Children([]);
  }

  lemma UndoesMap(before: Memory, was: seq<Pfn>, m: Memory, n: Memory, s: Space, mapped: seq<Index>,
                  created: seq<Created>, ix: Index, d: Descriptor)
    requires Undoes(before, was, m, s, mapped, created)
    requires n == Put(m, Leaf(m, s.root, ix), ix.i2, d) && Leaf(n, s.root, ix) == Leaf(m, s.root, ix)
    requires Leaf(m, s.root, ix) in m.pages && ix.i2 < |m.pages[Leaf(m, s.root, ix)]|
             && Entry(m, Leaf(m, s.root, ix), ix.i2) == ZERO
    ensures Undoes(before, was, n, s, mapped + [ix], created)
  {
    var leaf, more := Leaf(m, s.root, ix), mapped + [ix];
    PutBack(m, leaf, ix.i2, d);
    assert more[|more| - 1] == ix && more[..|more| - 1] == mapped;
  }

  lemma PutBack(m: Memory, q: Pfn, i: nat, d: Descriptor)
    requires q in m.pages && i < |m.pages[q]| && Entry(m, q, i) == ZERO
    ensures Put(Put(m, q, i, d), q, i, ZERO) == m
  {
    var row := m.pages[q];
    assert row[i := d][i := ZERO] == row;
    assert Put(Put(m, q, i, d), q, i, ZERO).pages == m.pages;
  }

  lemma LinkBack(m: Memory, q: Pfn, i: nat, c: Pfn, d: Descriptor)
    requires m.pages.Keys == m.refs.Keys == m.level.Keys
    requires q in m.pages && i < |m.pages[q]| && Entry(m, q, i) == ZERO && c !in m.pages
    ensures Unlinked(Linked(m, q, i, c, d), q, i, c) == m
  {
    var n := Unlinked(Linked(m, q, i, c, d), q, i, c);
    var row := m.pages[q];
    assert row[i := d][i := ZERO] == row;
    assert n.pages == m.pages && n.refs == m.refs && n.level == m.level;
  }

  lemma PutLinkCommute(m: Memory, l: Pfn, j: nat, q: Pfn, i: nat, c: Pfn, d: Descriptor)
    requires l != q && l != c && q != c && l in m.pages && q in m.pages && j < |m.pages[l]| && i < |m.pages[q]|
    ensures Put(Linked(m, q, i, c, d), l, j, ZERO) == Linked(Put(m, l, j, ZERO), q, i, c, d)
  {
    var level := Level(m, q) + 1;
    assert Level(Put(m, l, j, ZERO), q) == Level(m, q);
    PutPutCommute(Add(m, c, level, ZeroTable()), l, j, ZERO, q, i, d);
    PutAddCommute(m, l, j, c, level, ZeroTable());
  }

  lemma PutPutCommute(m: Memory, l: Pfn, j: nat, e: Descriptor, q: Pfn, i: nat, d: Descriptor)
    requires l != q && l in m.pages && q in m.pages && j < |m.pages[l]| && i < |m.pages[q]|
    ensures Put(Put(m, q, i, d), l, j, e) == Put(Put(m, l, j, e), q, i, d)
  {
    assert Put(Put(m, q, i, d), l, j, e).pages == Put(Put(m, l, j, e), q, i, d).pages;
  }

  lemma PutAddCommute(m: Memory, l: Pfn, j: nat, c: Pfn, level: nat, t: seq<Descriptor>)
    requires l != c && l in m.pages && j < |m.pages[l]|
    ensures Put(Add(m, c, level, t), l, j, ZERO) == Add(Put(m, l, j, ZERO), c, level, t)
  {
    assert Put(Add(m, c, level, t), l, j, ZERO).pages == Add(Put(m, l, j, ZERO), c, level, t).pages;
  }

  lemma {:induction false} ZeroAllLink(m: Memory, root: Pfn, mapped: seq<Index>, q: Pfn, i: nat, c: Pfn, d: Descriptor)
    requires Shape(m) && Typed(m) && root in m.pages && Level(m, root) == 0
    requires forall x :: x in mapped ==> Within(x) && Reaches(m, root, x)
    requires q in m.pages && i < ENTRIES && Level(m, q) < 2 && Entry(m, q, i) == ZERO
    requires IsTable(d) && d.pfn == c && c !in m.pages && FitsFrame(c)
    ensures ZeroAll(Linked(m, q, i, c, d), root, mapped) == Linked(ZeroAll(m, root, mapped), q, i, c, d)
    ensures Unlinked(Linked(ZeroAll(m, root, mapped), q, i, c, d), q, i, c) == ZeroAll(m, root, mapped)
    decreases |mapped|
  {
    hide Shape, Typed, Entry, Level, FitsFrame, Linked, Unlinked, Put, Leaf, Reaches, LinkStep;
    ShapeAt(m, q);
    ShapeKeys(m);
    if mapped == [] {
      LinkBack(m, q, i, c, d);
    } else {
      var x, fewer := mapped[|mapped| - 1], mapped[..|mapped| - 1];
      var l := Leaf(m, root, x);
      WalkTyped(m, root, x);
      LinkedStep(m, q, i, c, d);
      LinkLeaf(m, Linked(m, q, i, c, d), root, x, q, i, c, d);
      ShapeAt(m, l);
      PutEntries(m, l, x.i2, ZERO);
      PutLeafTyped(m, l, x.i2, ZERO);
      PutLinkCommute(m, l, x.i2, q, i, c, d);
      forall y | y in fewer ensures Within(y) && Reaches(Put(m, l, x.i2, ZERO), root, y) {
        assert y in mapped;
        PutLeafView(m, root, y, l, x.i2, ZERO);
      }
      ZeroAllLink(Put(m, l, x.i2, ZERO), root, fewer, q, i, c, d);
    }
  }

  lemma LinkLeaf(m: Memory, n: Memory, root: Pfn, x: Index, q: Pfn, i: nat, c: Pfn, d: Descriptor)
    requires LinkStep(m, n, q, i, c, d) && Reaches(m, root, x)
    ensures Leaf(n, root, x) == Leaf(m, root, x)
  {
    hide Entry, Level, Pointers, RefsOf, FitsFrame;
  }

  lemma UndoesLink(before: Memory, was: seq<Pfn>, m: Memory, s: Space, mapped: seq<Index>, created: seq<Created>,
                   q: Pfn, i: nat, c: Pfn, d: Descriptor)
    requires Undoes(before, was, m, s, mapped, created)
    requires Shape(m) && Typed(m) && s.root in m.pages && Level(m, s.root) == 0
    requires forall x :: x in mapped ==> Within(x) && Reaches(m, s.root, x)
    requires q in m.pages && i < ENTRIES && Level(m, q) < 2 && Entry(m, q, i) == ZERO
    requires IsTable(d) && d.pfn == c && c !in m.pages && FitsFrame(c)
    ensures Undoes(before, was, Linked(m, q, i, c, d), Push(s, c), mapped, created + [Created(q, i, c)])
  {
    hide Shape, Typed, Entry, Level, FitsFrame, Linked, Unlinked, Leaf, Reaches, ZeroAll;
    ZeroAllLink(m, s.root, mapped, q, i, c, d);
    var more := created + [Created(q, i, c)];
    assert more[|more| - 1] == Created(q, i, c) && more[..|more| - 1] == created;
    assert Children(more) == Children(created) + [c];
  }

  /** Making a path private keeps the transaction. */
  lemma PrivateStep(before: Memory, m: Memory, n: Memory, spaces: seq<Space>, after: seq<Space>, k: nat,
                    mapped: seq<Index>, ds: seq<Descriptor>,
                    created: seq<Created>, ix: Index)
    requires Transaction(before, m, spaces, k, mapped, ds, created) && UserIndex(ix)
    requires Core(n, after) && SameViews(m, n, spaces) && SameRoots(spaces, after)
    requires IsTable(Entry(m, spaces[k].root, 0)) && RefsOf(m, Entry(m, spaces[k].root, 0).pfn) == 1 ==>
               n == m || LeafDetached(m, n, spaces[k].root, ix)
    ensures Transaction(before, n, after, k, mapped, ds, created)
  {
    hide Core, View, CreatedOk, MappedOk, RefsOf, Entry, LeafDetached;
    var root := spaces[k].root;
    if mapped != [] || created != [] {
      if mapped != [] { MappedReaches(before, m, root, mapped, ds, 0); }
        else { CreatedRootEntry(before, m, root, created); }
      if n == m {
        LinkOthers(before, m, n, spaces, after, k);
      } else {
        DetachStepLeaf(before, m, n, spaces, after, k, mapped, ds, created, ix);
      }
    } else {
      FreshStart(before, m, n, spaces, after, k, ds);
    }
  }

  lemma FreshStart(before: Memory, m: Memory, n: Memory, spaces: seq<Space>, after: seq<Space>, k: nat,
                   ds: seq<Descriptor>)
    requires Transaction(before, m, spaces, k, [], ds, []) && Core(n, after) && SameViews(m, n, spaces)
             && SameRoots(spaces, after)
    ensures Transaction(before, n, after, k, [], ds, [])
  {
    hide Core, View;
    LinkOthers(before, m, n, spaces, after, k);
    assert SameView(m, n, spaces[k].root);
  }

  lemma TransactionParts(before: Memory, m: Memory, spaces: seq<Space>, k: nat, mapped: seq<Index>,
                         ds: seq<Descriptor>, created: seq<Created>)
    requires Transaction(before, m, spaces, k, mapped, ds, created)
    ensures Core(m, spaces) && k < |spaces| && |mapped| == |ds|
    ensures forall x :: x in mapped ==> Within(x) && Reaches(m, spaces[k].root, x)
    ensures forall ix :: Within(ix) && ix !in mapped ==> View(m, spaces[k].root, ix) == View(before, spaces[k].root, ix)
    ensures forall ix :: ix in mapped ==> View(before, spaces[k].root, ix) == ZERO
  {
    hide Core, View, Leaf, RefsOf, Entry;
  }

  // ---------- the walk that creates missing tables ----------

  /** What a mapping transaction started from and what it mapped so far. */
  datatype Ledger = Ledger(before: Memory, was: seq<Pfn>, mapped: seq<Index>, ds: seq<Descriptor>)

  ghost predicate Underway(l: Ledger, m: Memory, spaces: seq<Space>, k: nat, created: seq<Created>) {
    Transaction(l.before, m, spaces, k, l.mapped, l.ds, created)
  }

  ghost predicate Clean(l: Ledger, m: Memory, s: Space, created: seq<Created>) {
    Undoes(l.before, l.was, m, s, l.mapped, created)
  }

  lemma LinkedLevelOne(l: Ledger, m: Memory, n: Memory, spaces: seq<Space>, k: nat, created: seq<Created>, ix: Index,
                       c: Pfn)
    requires Underway(l, m, spaces, k, created) && UserIndex(ix)
    requires Entry(m, spaces[k].root, 0) == ZERO && c !in m.pages && FitsFrame(c)
    requires n == Linked(m, spaces[k].root, 0, c, TableDescriptor(c))
    ensures Underway(l, n, spaces[k := Push(spaces[k], c)], k, created + [Created(spaces[k].root, 0, c)])
    ensures Clean(l, m, spaces[k], created) ==>
            Clean(l, n, Push(spaces[k], c), created + [Created(spaces[k].root, 0, c)])
    ensures PrivateSoFar(n, spaces[k].root, ix) && IsTable(Entry(n, spaces[k].root, 0))
            && Entry(n, spaces[k].root, 0).pfn == c
    ensures KeepsPrivate(m, n, spaces[k].root)
  {
    hide Core, View, MappedOk, CreatedOk, OthersSame, Undoes, Linked, Level, Entry, Shape, Typed, FitsFrame,
      TableDescriptor, LinkStep;
    var root, d := spaces[k].root, TableDescriptor(c);
    TransactionParts(l.before, m, spaces, k, l.mapped, l.ds, created);
    CoreParts(m, spaces, k);
    TableDescriptorNames(c);
    LinkedStep(m, root, 0, c, d);
    LinkStepOne(l.before, m, n, spaces, k, l.mapped, l.ds, created, c, d);
    if Clean(l, m, spaces[k], created) { UndoesLink(l.before, l.was, m, spaces[k], l.mapped, created, root, 0, c, d); }
    LinkKeepsPrivate(m, n, root, root, 0, c, d);
    LinkLevels(m, n, root, 0, c, d);
    LinkNames(m, n, root, 0, c, d);
    FreshRow(m, c);
  }

  lemma FreshRow(m: Memory, c: Pfn)
    requires c !in m.pages
    ensures forall j: nat :: Entry(m, c, j) == ZERO
  {}

  lemma LinkedLeaf(l: Ledger, m: Memory, n: Memory, spaces: seq<Space>, k: nat, created: seq<Created>, ix: Index,
                   c: Pfn)
    requires Underway(l, m, spaces, k, created) && UserIndex(ix)
    requires IsTable(Entry(m, spaces[k].root, 0)) && RefsOf(m, Entry(m, spaces[k].root, 0).pfn) == 1
    requires Entry(m, Entry(m, spaces[k].root, 0).pfn, ix.i1) == ZERO && c !in m.pages && FitsFrame(c)
    requires n == Linked(m, Entry(m, spaces[k].root, 0).pfn, ix.i1, c, TableDescriptor(c))
    ensures Underway(l, n, spaces[k := Push(spaces[k], c)], k,
            created + [Created(Entry(m, spaces[k].root, 0).pfn, ix.i1, c)])
    ensures Clean(l, m, spaces[k], created) ==>
              Clean(l, n, Push(spaces[k], c), created + [Created(Entry(m, spaces[k].root, 0).pfn, ix.i1, c)])
    ensures PrivatePath(n, spaces[k].root, ix) && Leaf(n, spaces[k].root, ix) == c
    ensures KeepsPrivate(m, n, spaces[k].root)
  {
    hide Core, View, MappedOk, CreatedOk, OthersSame, Undoes, Linked, Level, Entry, Shape, Typed, FitsFrame,
      TableDescriptor, LinkStep, RefsOf;
    var root, one, d := spaces[k].root, Entry(m, spaces[k].root, 0).pfn, TableDescriptor(c);
    TransactionParts(l.before, m, spaces, k, l.mapped, l.ds, created);
    CoreParts(m, spaces, k);
    WalkTyped(m, root, ix);
    TableDescriptorNames(c);
    LinkedStep(m, one, ix.i1, c, d);
    LinkStepLeaf(l.before, m, n, spaces, k, l.mapped, l.ds, created, ix.i1, c, d);
    if Clean(l, m, spaces[k],
      created) { UndoesLink(l.before, l.was, m, spaces[k], l.mapped, created, one, ix.i1, c, d); }
    LinkKeepsPrivate(m, n, root, one, ix.i1, c, d);
    LinkLevels(m, n, one, ix.i1, c, d);
    LinkNames(m, n, one, ix.i1, c, d);
  }

  lemma UnlinkedIs(m: Memory, c: Created)
    requires c.parent in m.pages && c.index < |m.pages[c.parent]| && RefsOf(m, c.child) == 1 && c.child in m.refs
    ensures Release(Put(m, c.parent, c.index, ZERO), c.child) == Unlinked(m, c.parent, c.index, c.child)
    ensures c.child in Put(m, c.parent, c.index, ZERO).refs
  {}

  /** Popping (or not) the list does not touch the tables. */
  lemma TransactionLists(before: Memory, m: Memory, spaces: seq<Space>, k: nat, mapped: seq<Index>,
                         ds: seq<Descriptor>, created: seq<Created>, s: Space)
    requires Transaction(before, m, spaces, k, mapped, ds, created) && s.root == spaces[k].root
    ensures Transaction(before, m, spaces[k := s], k, mapped, ds, created)
  {
    hide Core, MappedOk, CreatedOk, View;
    CoreUpdate(m, spaces, k, s);
  }

  lemma ZeroAllLast(m: Memory, root: Pfn, mapped: seq<Index>, i: nat)
    requires 0 < i <= |mapped|
    ensures ZeroAll(m, root, mapped[..i])
            == ZeroAll(Put(m, Leaf(m, root, mapped[i - 1]), mapped[i - 1].i2, ZERO), root, mapped[..i - 1])
  {
    assert mapped[..i][..i - 1] == mapped[..i - 1];
  }

  lemma UnlinkAllLast(m: Memory, created: seq<Created>, t: nat)
    requires 0 < t <= |created|
    ensures UnlinkAll(m, created[..t])
         == UnlinkAll(Unlinked(m, created[t - 1].parent, created[t - 1].index, created[t - 1].child), created[..t - 1])
  {
    assert created[..t][..t - 1] == created[..t - 1];
  }

  /** The list after rollback: each created table is popped only when it is last. */
  ghost function PopCreated(pfns: seq<Pfn>, created: seq<Created>): seq<Pfn>
    decreases |created|
  {
    if created == [] then pfns
    else
      PopCreated(Popped(pfns, created[|created| - 1].child), created[..|created| - 1])
  }

  function Popped(pfns: seq<Pfn>, c: Pfn): seq<Pfn> {
    if pfns != [] && pfns[|pfns| - 1] == c then pfns[..|pfns| - 1] else pfns
  }

  lemma {:induction false} PopCreatedLast(pfns: seq<Pfn>, created: seq<Created>, t: nat)
    requires 0 < t <= |created|
    ensures PopCreated(pfns, created[..t]) == PopCreated(Popped(pfns, created[t - 1].child), created[..t - 1])
  {
    assert created[..t][..t - 1] == created[..t - 1];
  }

  /** The created tables are, in order, the end of the list. */
  ghost predicate Ends(pfns: seq<Pfn>, created: seq<Created>) {
    |created| <= |pfns| && pfns[|pfns| - |created|..] == Children(created)
  }

  lemma EndsNothing(pfns: seq<Pfn>)
    ensures Ends(pfns, [])
  {}

  lemma {:induction false} EndsPush(pfns: seq<Pfn>, created: seq<Created>, c: Created)
    requires Ends(pfns, created)
    ensures Ends(pfns + [c.child], created + [c])
  {
    assert Children(created + [c]) == Children(created) + [c.child];
    assert (pfns + [c.child])[|pfns| - |created|..] == pfns[|pfns| - |created|..] + [c.child];
  }

  lemma {:induction false} EndsSplit(was: seq<Pfn>, pfns: seq<Pfn>, created: seq<Created>)
    ensures pfns == was + Children(created) ==> Ends(pfns, created) && was == pfns[..|pfns| - |created|]
    ensures Ends(pfns, created) ==> pfns == pfns[..|pfns| - |created|] + Children(created)
  {}

  lemma {:induction false} PopKeeps(pfns: seq<Pfn>, created: seq<Created>, p: Pfn)
    requires p !in Children(created)
    ensures Occurrences(PopCreated(pfns, created), p) == Occurrences(pfns, p)
    decreases |created|
  {
    if created != [] {
      var c, fewer := created[|created| - 1].child, created[..|created| - 1];
      assert Children(created) == Children(fewer) + [c];
      PopKeeps(Popped(pfns, c), fewer, p);
    }
  }

  /** A created table that stays on the list. */
  ghost predicate Stays(pfns: seq<Pfn>, created: seq<Created>, c: Pfn) {
    c in Children(created) && Occurrences(PopCreated(pfns, created), c) == Occurrences(pfns, c)
  }

  /** Rollback takes every created table off the list, and nothing else, exactly
      when they end the list; otherwise one of them stays listed. */
  lemma {:induction false} PopsAllIff(pfns: seq<Pfn>, created: seq<Created>)
    requires CreatedDistinct(created)
    ensures Ends(pfns, created) ==> PopCreated(pfns, created) == pfns[..|pfns| - |created|]
    ensures !Ends(pfns, created) ==> exists c :: Stays(pfns, created, c)
    decreases |created|
  {
    hide Stays, Ends, PopCreated, Popped, CreatedDistinct;
    if created == [] {
      PopsNone(pfns);
    } else {
      var last, fewer := created[|created| - 1], created[..|created| - 1];
      FewerDistinct(created);
      if pfns != [] && pfns[|pfns| - 1] == last.child {
        PopsAllIff(pfns[..|pfns| - 1], fewer);
        if Ends(pfns[..|pfns| - 1], fewer) {
          PopsOneMore(pfns, created);
        } else {
          var c :| Stays(pfns[..|pfns| - 1], fewer, c);
          StaysPopped(pfns, created, c);
          if Ends(pfns, created) { EndsFewer(pfns, created); }
        }
      } else {
        StaysUnpopped(pfns, created);
        if Ends(pfns, created) { EndsLast(pfns, created); }
      }
    }
  }

  lemma {:induction false} PopsNone(pfns: seq<Pfn>)
    ensures Ends(pfns, []) && PopCreated(pfns, []) == pfns[..|pfns|]
  {
    assert pfns[..|pfns|] == pfns;
  }

  lemma {:induction false} FewerDistinct(created: seq<Created>)
    requires CreatedDistinct(created) && created != []
    ensures CreatedDistinct(created[..|created| - 1])
  {}

  lemma {:induction false} PopsOneMore(pfns: seq<Pfn>, created: seq<Created>)
    requires created != [] && pfns != [] && pfns[|pfns| - 1] == created[|created| - 1].child
    requires Ends(pfns[..|pfns| - 1], created[..|created| - 1])
    requires PopCreated(pfns[..|pfns| - 1], created[..|created| - 1]) == pfns[..|pfns| - 1][..|pfns| - |created|]
    ensures Ends(pfns, created) && PopCreated(pfns, created) == pfns[..|pfns| - |created|]
  {
    hide Ends, CreatedDistinct;
    var last, fewer, popped := created[|created| - 1], created[..|created| - 1], pfns[..|pfns| - 1];
    EndsPush(popped, fewer, last);
    assert popped + [last.child] == pfns && fewer + [last] == created;
    assert popped[..|pfns| - |created|] == pfns[..|pfns| - |created|];
  }

  lemma {:induction false} StaysPopped(pfns: seq<Pfn>, created: seq<Created>, c: Pfn)
    requires CreatedDistinct(created) && created != [] && pfns != [] && pfns[|pfns| - 1] == created[|created| - 1].child
    requires Stays(pfns[..|pfns| - 1], created[..|created| - 1], c)
    ensures Stays(pfns, created, c)
  {
    hide CreatedDistinct, Occurrences;
    var last, fewer, popped := created[|created| - 1], created[..|created| - 1], pfns[..|pfns| - 1];
    assert Children(created) == Children(fewer) + [last.child];
    ChildOther(created, c);
    PoppedOther(popped, last.child, c);
    assert popped + [last.child] == pfns;
  }

  lemma {:induction false} StaysUnpopped(pfns: seq<Pfn>, created: seq<Created>)
    requires CreatedDistinct(created) && created != []
             && (pfns == [] || pfns[|pfns| - 1] != created[|created| - 1].child)
    ensures Stays(pfns, created, created[|created| - 1].child)
  {
    hide CreatedDistinct, Occurrences;
    var last, fewer := created[|created| - 1], created[..|created| - 1];
    assert Children(created)[|created| - 1] == last.child;
    ChildOnce(created);
    PopKeeps(pfns, fewer, last.child);
  }

  lemma {:induction false} ChildOnce(created: seq<Created>)
    requires CreatedDistinct(created) && created != []
    ensures created[|created| - 1].child !in Children(created[..|created| - 1])
  {}

  lemma {:induction false} ChildOther(created: seq<Created>, x: Pfn)
    requires CreatedDistinct(created) && created != [] && x in Children(created[..|created| - 1])
    ensures x != created[|created| - 1].child
  {}

  lemma {:induction false} PoppedOther(popped: seq<Pfn>, c: Pfn, x: Pfn)
    requires x != c
    ensures Occurrences(popped + [c], x) == Occurrences(popped, x)
  {}

  lemma {:induction false} EndsLast(pfns: seq<Pfn>, created: seq<Created>)
    requires Ends(pfns, created) && created != []
    ensures pfns != [] && pfns[|pfns| - 1] == created[|created| - 1].child
  {
    assert pfns[|pfns| - |created|..][|created| - 1] == Children(created)[|created| - 1];
  }

  lemma {:induction false} EndsFewer(pfns: seq<Pfn>, created: seq<Created>)
    requires Ends(pfns, created) && created != []
    ensures Ends(pfns[..|pfns| - 1], created[..|created| - 1])
  {
    var n := |pfns| - |created|;
    assert pfns[..|pfns| - 1][n..] == pfns[n..][..|created| - 1];
    assert Children(created)[..|created| - 1] == Children(created[..|created| - 1]);
  }

  // ---------- when the lists survive a rollback ----------

  /** Nobody lists a table that is gone. */
  ghost predicate NoneFreed(m: Memory, spaces: seq<Space>) {
    forall i, p :: 0 <= i < |spaces| && p in spaces[i].pfns ==> p in m.refs
  }

  lemma {:induction false} ListedBy(spaces: seq<Space>, p: Pfn) returns (i: nat)
    requires Listed(spaces, p) > 0
    ensures i < |spaces| && p in spaces[i].pfns
  {
    var n := |spaces| - 1;
    OccurrencesPositive(spaces[n].pfns, p);
    if p in spaces[n].pfns { i := n; } else { i := ListedBy(spaces[..n], p); }
  }

  lemma {:induction false} ListedSome(spaces: seq<Space>, i: nat, p: Pfn)
    requires i < |spaces| && p in spaces[i].pfns
    ensures Listed(spaces, p) > 0
  {
    var n := |spaces| - 1;
    if i == n { OccurrencesPositive(spaces[n].pfns, p); } else { ListedSome(spaces[..n], i, p); }
  }

  lemma ListsNoneFreed(m: Memory, spaces: seq<Space>)
    requires Lists(m, spaces)
    ensures NoneFreed(m, spaces)
  {
    hide OwnsLevelOne, Listed;
    forall i, p | 0 <= i < |spaces| && p in spaces[i].pfns ensures p in m.refs {
      ListedSome(spaces, i, p);
      assert RefsOf(m, p) == Listed(spaces, p);
    }
  }

  lemma {:induction false} UnlinkAllFrees(m: Memory, created: seq<Created>, c: Pfn)
    requires c in Children(created) || c !in m.refs
    ensures c !in UnlinkAll(m, created).refs
    decreases |created|
  {
    if created != [] {
      var last, fewer := created[|created| - 1], created[..|created| - 1];
      assert Children(created) == Children(fewer) + [last.child];
      UnlinkAllFrees(Unlinked(m, last.parent, last.index, last.child), fewer, c);
    }
  }

  /** Created tables that do not end the list leave a freed table listed. */
  lemma {:induction false} RollbackFrees(m: Memory, spaces: seq<Space>, k: nat, created: seq<Created>)
    requires Lists(m, spaces) && k < |spaces| && CreatedDistinct(created) && !Ends(spaces[k].pfns, created)
    requires forall t :: 0 <= t < |created| ==> RefsOf(m, created[t].child) == 1
    ensures !NoneFreed(UnlinkAll(m, created), spaces[k := spaces[k].(pfns := PopCreated(spaces[k].pfns, created))])
  {
    hide OwnsLevelOne, Listed, Occurrences, PopCreated, UnlinkAll, Ends, CreatedDistinct;
    PopsAllIff(spaces[k].pfns, created);
    var after := spaces[k].(pfns := PopCreated(spaces[k].pfns, created));
    var c :| Stays(spaces[k].pfns, created, c);
    UnlinkAllFrees(m, created, c);
    ListedUpdate(spaces, k, after, c);
    assert RefsOf(m, c) == Listed(spaces, c);
    var i := ListedBy(spaces[k := after], c);
  }

  /** The tables a region needs: no shared one behind a missing one. A detach
      then never comes after a creation. */
  ghost predicate SharedFirst(m: Memory, root: Pfn, pages: seq<Index>) {
    forall i, j :: 0 <= i < j < |pages| && !Reaches(m, root, pages[i]) ==> PrivateSoFar(m, root, pages[j])
  }

  /** Otherwise there is a run that spoils the list: the missing leaf is linked,
      the shared one behind it is detached, which puts the copy last; and a
      rollback after that frees the linked table and keeps it listed. */
  lemma DetachSpoilsRollback(m: Memory, spaces: seq<Space>, k: nat, a: nat, b: nat, c: Pfn, linked: Memory,
                             copy: Pfn, detached: Memory, position: nat, pfns: seq<Pfn>)
    requires Inv(m, spaces) && k < |spaces| && a < ENTRIES && b < ENTRIES
    requires var root, one := spaces[k].root, Entry(m, spaces[k].root, 0).pfn;
             && IsTable(Entry(m, root, 0)) && RefsOf(m, one) == 1 && Entry(m, one, a) == ZERO
               && IsTable(Entry(m, one, b))
             && c !in m.pages && FitsFrame(c) && linked == Linked(m, one, a, c, TableDescriptor(c))
             && DetachStep(linked, detached, one, b, Entry(m, one, b).pfn, copy, TableDescriptor(copy))
             && position < |spaces[k].pfns| && spaces[k].pfns[position] == Entry(m, one, b).pfn
             && pfns == SwapRemove(spaces[k].pfns + [c], position) + [copy]
    ensures var one := Entry(m, spaces[k].root, 0).pfn;
            var created := [Created(one, a, c)];
            && PopCreated(pfns, created) == pfns && c in pfns && c !in UnlinkAll(detached, created).refs
  {
    hide Inv, DetachStep, FitsFrame, Typed, Shape, Level, UnlinkAll, TableDescriptor, PopCreated, SwapRemove, Linked;
    var one := Entry(m, spaces[k].root, 0).pfn;
    LinkedLive(m, one, a, c, TableDescriptor(c));
    DetachFresh(linked, detached, one, b, Entry(m, one, b).pfn, copy, TableDescriptor(copy), c);
    SwapKeepsLast(spaces[k].pfns, c, position, copy);
    KeptUnlessLast(pfns, Created(one, a, c));
    UnlinkAllFrees(detached, [Created(one, a, c)], c);
  }

  lemma LinkedLive(m: Memory, q: Pfn, i: nat, c: Pfn, d: Descriptor)
    ensures c in Linked(m, q, i, c, d).pages
  {}

  lemma SwapKeepsLast(pfns: seq<Pfn>, c: Pfn, position: nat, copy: Pfn)
    requires position < |pfns|
    ensures var list := SwapRemove(pfns + [c], position) + [copy]; c in list && list[|list| - 1] == copy
  {
    var list := SwapRemove(pfns + [c], position) + [copy];
    assert list[position] == c;
  }

  lemma {:induction false} KeptUnlessLast(pfns: seq<Pfn>, c: Created)
    requires pfns != [] && pfns[|pfns| - 1] != c.child
    ensures PopCreated(pfns, [c]) == pfns && Children([c]) == [c.child]
  {
    assert [c][..0] == [];
    assert PopCreated(pfns, [c]) == PopCreated(Popped(pfns, c.child), []);
  }

  lemma DetachFresh(m: Memory, n: Memory, q: Pfn, i: nat, source: Pfn, copy: Pfn, d: Descriptor, c: Pfn)
    requires DetachStep(m, n, q, i, source, copy, d) && c in m.pages
    ensures copy != c
  {}

  /** And the state it starts from is one that a fork leads to: when a space
      detaches from the level-one table it shares with its child, every leaf
      below is shared and listed. */
  lemma ForkThenDetach(m: Memory, forked: Memory, n: Memory, s: Space, child: Pfn, copy: Pfn, pfns: seq<Pfn>, b: nat)
    requires Shape(forked) && Typed(forked) && s.root in forked.pages && Level(forked, s.root) == 0 && b < ENTRIES
    requires ForkStep(m, forked, s.root, child) && IsTable(Entry(m, s.root, 0))
             && IsTable(Entry(m, Entry(m, s.root, 0).pfn, b))
    requires var one := Entry(m, s.root, 0).pfn;
             && DetachStep(forked, n, s.root, 0, one, copy, TableDescriptor(copy))
             && DetachList(forked, s.pfns, pfns, one, copy)
    ensures var leaf := Entry(m, Entry(m, s.root, 0).pfn, b).pfn;
            && IsTable(Entry(n, s.root, 0)) && Entry(n, s.root, 0).pfn == copy && RefsOf(n, copy) == 1
            && IsTable(Entry(n, copy, b)) && Entry(n, copy, b).pfn == leaf && RefsOf(n, leaf) > 1 && leaf in pfns
  {
    hide Shape, Typed, ForkStep, DetachStep, DetachList, TableDescriptor, Level;
    var one := Entry(m, s.root, 0).pfn;
    var leaf := Entry(m, one, b).pfn;
    ForkEntries(m, forked, s.root, child, one, b);
    var ix := Index(0, b, 0);
    DetachedLevelOne(forked, n, s.root, ix, one, copy, TableDescriptor(copy));
    NamesEntry(n, s.root, 0, copy);
    WalkTyped(forked, s.root, ix);
    NamesFrom(forked, one, b);
    NamedLevel(forked, one, b, leaf);
    ChildListed(forked, s.pfns, pfns, one, copy, b);
    ShapeAt(forked, leaf);
    DetachCounts(forked, n, s.root, 0, one, copy, TableDescriptor(copy), b);
  }

  lemma ForkEntries(m: Memory, n: Memory, parent: Pfn, child: Pfn, one: Pfn, b: nat)
    requires ForkStep(m, n, parent, child) && one == Entry(m, parent, 0).pfn && IsTable(Entry(m, one, b))
    ensures Entry(n, parent, 0) == Entry(m, parent, 0) && Entry(n, one, b) == Entry(m, one, b)
  {
    hide Pointers, RefsOf, Row, Level;
    assert Entry(m, child, b) == ZERO;
  }

  /** A level-one detach adds a reference to every leaf below. */
  lemma DetachCounts(m: Memory, n: Memory, q: Pfn, i: nat, source: Pfn, copy: Pfn, d: Descriptor, b: nat)
    requires DetachStep(m, n, q, i, source, copy, d) && Level(m, source) < 2 && IsTable(Entry(m, source, b))
    requires Entry(m, source, b).pfn != source
    ensures RefsOf(n, Entry(m, source, b).pfn) > RefsOf(m, Entry(m, source, b).pfn)
  {
    hide Pointers, FitsFrame;
    CountUpdate(m.pages[source], b, ZERO, Entry(m, source, b).pfn);
  }

  /** Paths that are private stay private, and leaves that are there stay there. */
  ghost predicate KeepsPrivate(m: Memory, n: Memory, root: Pfn) {
    forall jx :: UserIndex(jx) ==>
      (PrivateSoFar(m, root, jx) ==> PrivateSoFar(n, root, jx)) && (Reaches(m, root, jx) ==> Reaches(n, root, jx))
  }

  lemma LinkKeepsPrivate(m: Memory, n: Memory, root: Pfn, q: Pfn, i: nat, c: Pfn, d: Descriptor)
    requires Shape(m) && LinkStep(m, n, q, i, c, d)
    ensures KeepsPrivate(m, n, root)
  {
    hide Shape, Entry, Level, Pointers, FitsFrame, RefsOf;
    ShapeAt(m, c);
    LinkLevels(m, n, q, i, c, d);
    LinkNames(m, n, q, i, c, d);
    forall jx | UserIndex(jx)
      ensures (PrivateSoFar(m, root, jx) ==> PrivateSoFar(n, root, jx))
              && (Reaches(m, root, jx) ==> Reaches(n, root, jx))
    {}
  }

  lemma PutKeepsPrivate(m: Memory, n: Memory, root: Pfn, q: Pfn, i: nat, d: Descriptor)
    requires Typed(m) && root in m.pages && Level(m, root) == 0 && q in m.pages && i < |m.pages[q]| && Level(m, q) == 2
    requires n == Put(m, q, i, d)
    ensures KeepsPrivate(m, n, root)
  {
    hide Put, Entry, Level, RefsOf, Typed;
    PutEntries(m, q, i, d);
    forall jx | UserIndex(jx)
      ensures (PrivateSoFar(m, root, jx) ==> PrivateSoFar(n, root, jx))
              && (Reaches(m, root, jx) ==> Reaches(n, root, jx))
    {
      WalkTyped(m, root, jx);
    }
  }

  lemma LevelOneKeepsPrivate(m: Memory, n: Memory, root: Pfn, ix: Index)
    requires Typed(m) && root in m.pages && Level(m, root) == 0 && UserIndex(ix) && LevelOneDetached(m, n, root, ix)
    ensures KeepsPrivate(m, n, root) && Typed(n) && root in n.pages && Level(n, root) == 0
  {
    hide Entry, Level, Pointers, RefsOf, FitsFrame, Typed, Row, TableDescriptor;
    var one := LevelOne(m, root, ix);
    var copy :| DetachStep(m, n, root, ix.i0, one, copy, TableDescriptor(copy));
    DetachTyped(m, n, root, ix.i0, one, copy, TableDescriptor(copy));
    DetachStepNames(m, n, root, ix.i0, one, copy, TableDescriptor(copy));
    NamedLevel(m, root, ix.i0, one);
    forall jx | UserIndex(jx)
      ensures (PrivateSoFar(m, root, jx) ==> PrivateSoFar(n, root, jx))
              && (Reaches(m, root, jx) ==> Reaches(n, root, jx))
    {
      WalkTyped(m, root, jx);
    }
  }

  lemma LeafKeepsPrivate(m: Memory, n: Memory, root: Pfn, ix: Index)
    requires Typed(m) && root in m.pages && Level(m, root) == 0 && UserIndex(ix) && IsTable(Entry(m, root, 0))
             && LeafDetached(m, n, root, ix)
    ensures KeepsPrivate(m, n, root)
  {
    hide Entry, Level, Pointers, RefsOf, FitsFrame, Typed, Row, TableDescriptor;
    var one, leaf := LevelOne(m, root, ix), Leaf(m, root, ix);
    var copy :| DetachStep(m, n, one, ix.i1, leaf, copy, TableDescriptor(copy));
    DetachStepNames(m, n, one, ix.i1, leaf, copy, TableDescriptor(copy));
    WalkTyped(m, root, ix);
    forall jx | UserIndex(jx)
      ensures (PrivateSoFar(m, root, jx) ==> PrivateSoFar(n, root, jx))
              && (Reaches(m, root, jx) ==> Reaches(n, root, jx))
    {
      WalkTyped(m, root, jx);
      LeafRow(m, leaf, LevelOne(m, root, jx));
      LeafRow(m, leaf, Leaf(m, root, jx));
    }
  }

  /** Making one path private makes no other path less private. */
  lemma MadePrivateKeeps(m: Memory, n: Memory, root: Pfn, ix: Index)
    requires Typed(m) && root in m.pages && Level(m, root) == 0 && UserIndex(ix) && MadePrivate(m, n, root, ix)
    ensures KeepsPrivate(m, n, root)
  {
    hide Entry, Level, Typed, LevelOneDetached, LeafDetached, KeepsPrivate;
    var mid :| MadePrivateBy(m, mid, n, root, ix);
    KeepsPrivateRefl(m, root);
    if mid != m { LevelOneKeepsPrivate(m, mid, root, ix); }
    KeepsPrivateRefl(mid, root);
    if n != mid { LeafKeepsPrivate(mid, n, root, ix); }
    KeepsPrivateTrans(m, mid, n, root);
  }

  lemma {:induction false} UnlinkAllKeys(m: Memory, created: seq<Created>)
    ensures UnlinkAll(m, created).pages.Keys <= m.pages.Keys
    decreases |created|
  {
    if created != [] {
      var c := created[|created| - 1];
      UnlinkAllKeys(Unlinked(m, c.parent, c.index, c.child), created[..|created| - 1]);
    }
  }

  lemma {:induction false} ZeroAllKeys(m: Memory, root: Pfn, mapped: seq<Index>)
    ensures ZeroAll(m, root, mapped).pages.Keys == m.pages.Keys
    decreases |mapped|
  {
    if mapped != [] {
      var ix := mapped[|mapped| - 1];
      ZeroAllKeys(Put(m, Leaf(m, root, ix), ix.i2, ZERO), root, mapped[..|mapped| - 1]);
    }
  }

  /** What can be undone has only added tables. */
  lemma UndoesKeys(before: Memory, was: seq<Pfn>, m: Memory, s: Space, mapped: seq<Index>, created: seq<Created>)
    requires Undoes(before, was, m, s, mapped, created)
    ensures before.pages.Keys <= m.pages.Keys
  {
    hide ZeroAll, UnlinkAll;
    ZeroAllKeys(m, s.root, mapped);
    UnlinkAllKeys(ZeroAll(m, s.root, mapped), created);
  }

  /** No space loses a private path or a leaf. */
  ghost predicate AllKeepPrivate(m: Memory, n: Memory, spaces: seq<Space>) {
    forall j :: 0 <= j < |spaces| ==> KeepsPrivate(m, n, spaces[j].root)
  }

  lemma AllKeepRefl(m: Memory, spaces: seq<Space>)
    ensures AllKeepPrivate(m, m, spaces)
  {
    hide KeepsPrivate;
    forall j | 0 <= j < |spaces| ensures KeepsPrivate(m, m, spaces[j].root) { KeepsPrivateRefl(m, spaces[j].root); }
  }

  lemma AllKeepTrans(m: Memory, n: Memory, o: Memory, spaces: seq<Space>, after: seq<Space>)
    requires AllKeepPrivate(m, n, spaces) && AllKeepPrivate(n, o, after) && SameRoots(spaces, after)
    ensures AllKeepPrivate(m, o, spaces)
  {
    hide KeepsPrivate;
    forall j | 0 <= j < |spaces| ensures KeepsPrivate(m, o, spaces[j].root) {
      assert KeepsPrivate(n, o, after[j].root);
      KeepsPrivateTrans(m, n, o, spaces[j].root);
    }
  }

  lemma AllKeepPut(m: Memory, n: Memory, spaces: seq<Space>, q: Pfn, i: nat, d: Descriptor)
    requires Core(m, spaces) && q in m.pages && i < |m.pages[q]| && Level(m, q) == 2 && n == Put(m, q, i, d)
    ensures AllKeepPrivate(m, n, spaces)
  {
    hide KeepsPrivate, Put, Typed, Shape, PointersExact, Level, UserSlotsClear, LeavesOnce;
    forall j | 0 <= j < |spaces| ensures KeepsPrivate(m, n, spaces[j].root) {
      PutKeepsPrivate(m, n, spaces[j].root, q, i, d);
    }
  }

  lemma AllKeepLink(m: Memory, n: Memory, spaces: seq<Space>, q: Pfn, i: nat, c: Pfn, d: Descriptor)
    requires Shape(m) && LinkStep(m, n, q, i, c, d)
    ensures AllKeepPrivate(m, n, spaces)
  {
    hide KeepsPrivate, LinkStep, Shape;
    forall j | 0 <= j < |spaces| ensures KeepsPrivate(m, n, spaces[j].root) {
      LinkKeepsPrivate(m, n, spaces[j].root, q, i, c, d);
    }
  }

  /** No other table names a table that is referenced once. */
  lemma SoleRow(m: Memory, spaces: seq<Space>, q: Pfn, i: nat, p: Pfn, r: Pfn)
    requires PointersExact(m, spaces) && RefsOf(m, p) == 1 && Names(m, q, i, p) && r in m.pages && r != q
    ensures Row(m, r, p) == 0
  {
    hide Row, RefsOf, RootCount;
    assert RefsOf(m, p) == Pointers(m, p) + RootCount(spaces, p);
    NamesEntry(m, q, i, p);
    RowNames(m, q, i);
    NamesLive(m, q, i, p);
    PickRow(m, m.pages.Keys, q, p);
    PickRow(m, m.pages.Keys - {q}, r, p);
  }

  /** A path whose tables are referenced once gains no reference when whatever
      some foreign table names does. */
  lemma PrivateApart(m: Memory, spaces: seq<Space>, root: Pfn, jx: Index, r: Pfn)
    requires Core(m, spaces) && root in m.pages && Level(m, root) == 0 && Within(jx) && r in m.pages && r != root
    requires PrivateSoFar(m, root, jx) && IsTable(Entry(m, root, jx.i0)) && r != LevelOne(m, root, jx)
    ensures Row(m, r, LevelOne(m, root, jx)) == 0
    ensures IsTable(Entry(m, LevelOne(m, root, jx), jx.i1)) ==> Row(m, r, Leaf(m, root, jx)) == 0
  {
    hide Row, RefsOf, RootCount, Entry, Level, Shape, Typed, PointersExact, UserSlotsClear, LeavesOnce;
    WalkTyped(m, root, jx);
    var one := LevelOne(m, root, jx);
    NamesFrom(m, root, jx.i0);
    SoleRow(m, spaces, root, jx.i0, one, r);
    if IsTable(Entry(m, one, jx.i1)) {
      NamesFrom(m, one, jx.i1);
      SoleRow(m, spaces, one, jx.i1, Leaf(m, root, jx), r);
    }
  }

  lemma DetachKeepsPrivate(m: Memory, n: Memory, spaces: seq<Space>, root: Pfn, jx: Index, q: Pfn, i: nat, source: Pfn,
                           copy: Pfn, d: Descriptor)
    requires Core(m, spaces) && root in m.pages && Level(m, root) == 0 && Within(jx)
    requires DetachStep(m, n, q, i, source, copy, d) && PrivateSoFar(m, root, jx)
    ensures PrivateSoFar(n, root, jx)
  {
    hide Entry, Level, Pointers, RefsOf, FitsFrame, Typed, Row, Shape, PointersExact, UserSlotsClear, LeavesOnce,
      RootsDistinct;
    CoreTyped(m, spaces);
    DetachStepNames(m, n, q, i, source, copy, d);
    NamedLevel(m, q, i, source);
    WalkTyped(m, root, jx);
    if IsTable(Entry(m, root, jx.i0)) { PrivateApart(m, spaces, root, jx, source); }
  }

  lemma DetachKeepsReaching(m: Memory, n: Memory, root: Pfn, jx: Index, q: Pfn, i: nat, source: Pfn, copy: Pfn,
                            d: Descriptor)
    requires Typed(m) && root in m.pages && Level(m, root) == 0 && Within(jx)
    requires DetachStep(m, n, q, i, source, copy, d) && Reaches(m, root, jx)
    ensures Reaches(n, root, jx)
  {
    hide Entry, Level, Pointers, RefsOf, FitsFrame, Typed, Row;
    DetachStepNames(m, n, q, i, source, copy, d);
    WalkTyped(m, root, jx);
  }

  lemma CoreTyped(m: Memory, spaces: seq<Space>)
    requires Core(m, spaces)
    ensures Typed(m) && Shape(m)
  {}

  lemma AllKeepDetach(m: Memory, n: Memory, spaces: seq<Space>, q: Pfn, i: nat, source: Pfn, copy: Pfn, d: Descriptor)
    requires Core(m, spaces) && DetachStep(m, n, q, i, source, copy, d)
    ensures AllKeepPrivate(m, n, spaces)
  {
    hide Typed, Shape, PointersExact, UserSlotsClear, LeavesOnce, DetachStep, PrivateSoFar, Reaches, Level;
    forall j, jx | 0 <= j < |spaces| && UserIndex(jx)
      ensures (PrivateSoFar(m, spaces[j].root, jx) ==> PrivateSoFar(n, spaces[j].root, jx))
              && (Reaches(m, spaces[j].root, jx) ==> Reaches(n, spaces[j].root, jx))
    {
      CoreTyped(m, spaces);
      if PrivateSoFar(m, spaces[j].root, jx) {
        DetachKeepsPrivate(m, n, spaces, spaces[j].root, jx, q, i, source, copy, d);
      }
      if Reaches(m, spaces[j].root, jx) { DetachKeepsReaching(m, n, spaces[j].root, jx, q, i, source, copy, d); }
    }
  }

  /** A fresh empty table takes nothing from anybody, and all its paths are private. */
  lemma AllKeepAdd(m: Memory, spaces: seq<Space>, c: Pfn, level: nat)
    requires Core(m, spaces) && c !in m.pages
    ensures AllKeepPrivate(m, Add(m, c, level, ZeroTable()), spaces)
    ensures forall jx :: UserIndex(jx) ==> PrivateSoFar(Add(m, c, level, ZeroTable()), c, jx)
  {
    hide Typed, Shape, PointersExact, UserSlotsClear, LeavesOnce, Level, Entry, RefsOf, Add;
    CoreTyped(m, spaces);
    AddEntries(m, c, level, ZeroTable());
    FreshEntries(m, c);
    var n := Add(m, c, level, ZeroTable());
    forall j, jx | 0 <= j < |spaces| && UserIndex(jx)
      ensures (PrivateSoFar(m, spaces[j].root, jx) ==> PrivateSoFar(n, spaces[j].root, jx))
              && (Reaches(m, spaces[j].root, jx) ==> Reaches(n, spaces[j].root, jx))
    {
      WalkTyped(m, spaces[j].root, jx);
    }
  }

  lemma FreshEntries(m: Memory, c: Pfn)
    requires c !in m.pages
    ensures forall j: nat :: Entry(m, c, j) == ZERO
    ensures forall j :: 0 <= j < ENTRIES ==> ZeroTable()[j] == ZERO
  {}

  lemma ForkKeepsPrivate(m: Memory, n: Memory, spaces: seq<Space>, root: Pfn, jx: Index, parent: Pfn, child: Pfn)
    requires Core(m, spaces) && root in m.pages && Level(m, root) == 0 && Within(jx) && root != parent && root != child
    requires ForkStep(m, n, parent, child)
    ensures PrivateSoFar(m, root, jx) ==> PrivateSoFar(n, root, jx)
    ensures Reaches(m, root, jx) ==> Reaches(n, root, jx)
  {
    hide Entry, Level, Pointers, RefsOf, FitsFrame, Typed, Row, Shape, PointersExact, UserSlotsClear, LeavesOnce,
      RootsDistinct;
    CoreTyped(m, spaces);
    WalkTyped(m, root, jx);
    if PrivateSoFar(m, root, jx) && IsTable(Entry(m, root, jx.i0)) { PrivateApart(m, spaces, root, jx, parent); }
  }

  /** A fork takes no private path from anybody but the parent. */
  lemma AllKeepFork(m: Memory, n: Memory, spaces: seq<Space>, k: nat, c: nat)
    requires Core(m, spaces) && k < |spaces| && c < |spaces| && ForkStep(m, n, spaces[k].root, spaces[c].root)
    ensures forall j :: 0 <= j < |spaces| && j != k && j != c ==> KeepsPrivate(m, n, spaces[j].root)
  {
    hide Typed, Shape, PointersExact, UserSlotsClear, LeavesOnce, ForkStep, PrivateSoFar, Reaches, Level;
    forall j, jx | 0 <= j < |spaces| && j != k && j != c && UserIndex(jx)
      ensures (PrivateSoFar(m, spaces[j].root, jx) ==> PrivateSoFar(n, spaces[j].root, jx))
              && (Reaches(m, spaces[j].root, jx) ==> Reaches(n, spaces[j].root, jx))
    {
      ForkKeepsPrivate(m, n, spaces, spaces[j].root, jx, spaces[k].root, spaces[c].root);
    }
  }

  /** No path gets stuck that was not. */
  ghost predicate KeepsFree(m: Memory, s: Space, n: Memory, t: Space) {
    forall jx :: UserIndex(jx) && !Stuck(m, s, jx) ==> !Stuck(n, t, jx)
  }

  lemma KeepsFreeRefl(m: Memory, s: Space)
    ensures KeepsFree(m, s, m, s)
  {
    hide Stuck;
  }

  lemma KeepsFreeTrans(m: Memory, s: Space, n: Memory, t: Space, o: Memory, u: Space)
    requires KeepsFree(m, s, n, t) && KeepsFree(n, t, o, u)
    ensures KeepsFree(m, s, o, u)
  {
    hide Stuck;
  }

  lemma FreeAfterPut(m: Memory, n: Memory, s: Space, q: Pfn, i: nat, d: Descriptor)
    requires Typed(m) && s.root in m.pages && Level(m, s.root) == 0
    requires q in m.pages && i < |m.pages[q]| && Level(m, q) == 2 && n == Put(m, q, i, d)
    ensures KeepsFree(m, s, n, s)
  {
    hide Put, Entry, Level, RefsOf, Typed;
    PutEntries(m, q, i, d);
    forall jx | UserIndex(jx) && !Stuck(m, s, jx) ensures !Stuck(n, s, jx) { WalkTyped(m, s.root, jx); }
  }

  /** A fresh table that is linked and listed gets nobody stuck. */
  lemma FreeAfterLink(m: Memory, n: Memory, s: Space, q: Pfn, i: nat, c: Pfn, d: Descriptor)
    requires Typed(m) && Shape(m) && s.root in m.pages && Level(m, s.root) == 0 && LinkStep(m, n, q, i, c, d)
    ensures KeepsFree(m, s, n, Push(s, c))
  {
    hide Entry, Level, RefsOf, Typed, Pointers, FitsFrame, Shape;
    LinkNames(m, n, q, i, c, d);
    forall jx | UserIndex(jx) && !Stuck(m, s, jx) ensures !Stuck(n, Push(s, c), jx) { WalkTyped(m, s.root, jx); }
  }

  /** A detached level-one table lists the leaves it names. */
  lemma FreeAfterTop(m: Memory, n: Memory, s: Space, t: Space, i: nat, source: Pfn, copy: Pfn, d: Descriptor)
    requires Typed(m) && Shape(m) && s.root in m.pages && Level(m, s.root) == 0 && OwnsLevelOne(m, s)
             && t.root == s.root
    requires DetachStep(m, n, s.root, i, source, copy, d) && DetachList(m, s.pfns, t.pfns, source, copy)
    ensures KeepsFree(m, s, n, t)
  {
    hide Entry, Level, RefsOf, Typed, Pointers, FitsFrame, Row, Occurrences, DetachStep, DetachList, OwnsLevelOne,
      Shape;
    forall jx | UserIndex(jx) && !Stuck(m, s, jx) ensures !Stuck(n, t, jx) {
      FreeTopAt(m, n, s, t, i, source, copy, d, jx);
    }
  }

  lemma FreeTopAt(m: Memory, n: Memory, s: Space, t: Space, i: nat, source: Pfn, copy: Pfn, d: Descriptor, jx: Index)
    requires Typed(m) && Shape(m) && s.root in m.pages && Level(m, s.root) == 0 && OwnsLevelOne(m, s)
             && t.root == s.root
    requires DetachStep(m, n, s.root, i, source, copy, d) && DetachList(m, s.pfns, t.pfns, source, copy)
    requires UserIndex(jx) && !Stuck(m, s, jx)
    ensures !Stuck(n, t, jx)
  {
    hide Entry, Level, RefsOf, Typed, Pointers, FitsFrame, Row, Occurrences, DetachList;
    var root := s.root;
    DetachStepNames(m, n, root, i, source, copy, d);
    NamedLevel(m, root, i, source);
    DetachListMembers(m, s.pfns, t.pfns, source, copy);
    WalkTyped(m, root, jx);
    if Reaches(n, root, jx) {
      if i == 0 {
        ListedBelow(m, s, t, source, copy, jx.i1);
      } else if IsTable(Entry(m, root, 0)) && IsTable(Entry(m, LevelOne(m, root, jx), jx.i1)) {
        var one, leaf := LevelOne(m, root, jx), Leaf(m, root, jx);
        assert one != source;
        if Row(m, source, leaf) > 0 { ListedRow(m, s, t, source, copy, leaf); }
        ShapeAt(m, source);
        TopRow(m, source, one);
      }
    }
  }

  /** Whatever the detached table names is listed. */
  lemma ListedRow(m: Memory, s: Space, t: Space, source: Pfn, copy: Pfn, p: Pfn)
    requires DetachList(m, s.pfns, t.pfns, source, copy) && Row(m, source, p) > 0 && p != source
    ensures p in t.pfns
  {
    hide Row;
    OccurrencesPositive(t.pfns, p);
    assert Occurrences(t.pfns, p) + (if p == source then 1 else 0)
        == Occurrences(s.pfns, p) + Row(m, source, p) + if p == copy then 1 else 0;
  }

  lemma ListedBelow(m: Memory, s: Space, t: Space, source: Pfn, copy: Pfn, j: nat)
    requires Typed(m) && source in m.pages && Level(m, source) == 1 && j < ENTRIES
    requires DetachList(m, s.pfns, t.pfns, source, copy)
    ensures IsTable(Entry(m, source, j)) ==> Entry(m, source, j).pfn in t.pfns
  {
    hide Row, Typed, Level, DetachList;
    if IsTable(Entry(m, source, j)) {
      NamesFrom(m, source, j);
      NamedLevel(m, source, j, Entry(m, source, j).pfn);
      RowNames(m, source, j);
      ListedRow(m, s, t, source, copy, Entry(m, source, j).pfn);
    }
  }

  /** Tables of one level do not name each other. */
  lemma TopRow(m: Memory, q: Pfn, p: Pfn)
    requires Typed(m) && q in m.pages && p in m.pages && Level(m, q) == Level(m, p) && Level(m, q) < 2
    requires |m.pages[q]| <= ENTRIES
    ensures Row(m, q, p) == 0
  {
    forall j | 0 <= j < |m.pages[q]| ensures Points(m.pages[q][j], p) == 0 {
      assert EntryTyped(m, q, Entry(m, q, j));
    }
    CountNone(m.pages[q], p);
  }

  /** A detached leaf gets no other path stuck. */
  lemma FreeAfterLeaf(m: Memory, n: Memory, s: Space, t: Space, i: nat, source: Pfn, copy: Pfn, d: Descriptor)
    requires Typed(m) && Shape(m) && LeavesOnce(m) && s.root in m.pages && Level(m, s.root) == 0 && t.root == s.root
    requires IsTable(Entry(m, s.root, 0)) && DetachStep(m, n, Entry(m, s.root, 0).pfn, i, source, copy, d)
    requires DetachList(m, s.pfns, t.pfns, source, copy)
    ensures KeepsFree(m, s, n, t)
  {
    hide Entry, Level, RefsOf, Typed, Pointers, FitsFrame, Row, Occurrences, DetachList, LeavesOnce, Shape;
    var one := Entry(m, s.root, 0).pfn;
    WalkTyped(m, s.root, Index(0, 0, 0));
    DetachStepNames(m, n, one, i, source, copy, d);
    NamedLevel(m, one, i, source);
    DetachListMembers(m, s.pfns, t.pfns, source, copy);
    assert RowDistinct(m, one) by { OnceAt(m, one); }
    forall jx | UserIndex(jx) && !Stuck(m, s, jx) ensures !Stuck(n, t, jx) {
      WalkTyped(m, s.root, jx);
      LeafRow(m, source, one);
      LeafRow(m, source, Leaf(m, s.root, jx));
      LeafRow(m, source, copy);
    }
  }

  lemma OnceAt(m: Memory, q: Pfn)
    requires LeavesOnce(m) && q in m.pages && Level(m, q) == 1
    ensures RowDistinct(m, q)
  {}

  lemma KeepsPrivateTrans(m: Memory, n: Memory, o: Memory, root: Pfn)
    requires KeepsPrivate(m, n, root) && KeepsPrivate(n, o, root)
    ensures KeepsPrivate(m, o, root)
  {
    hide PrivateSoFar;
  }

  lemma KeepsPrivateRefl(m: Memory, root: Pfn)
    ensures KeepsPrivate(m, m, root)
  {
    hide PrivateSoFar;
  }
}

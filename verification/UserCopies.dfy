/** Translating user addresses and copying bytes through them. */
module UserCopies {
  import opened Descriptors
  import opened Options
  import opened TableMemory
  import opened TableSteps
  import opened TableBackend
  import opened VirtualAddress
  import opened AddressSpaces
  import opened ManySpaces

  newtype Byte = x: int | 0 <= x < 256

  /** A physical address, as its frame and the offset in it. */
  datatype Physical = Physical(frame: Pfn, offset: nat)

  type Translation = nat -> Option<Physical>

  /** What the tables make of a user address. */
  ghost function Translated(m: Memory, root: Pfn, vaddr: nat, write: bool): Option<Physical> {
    if !(USER_BASE <= vaddr < USER_LIMIT) then None
    else
      var d := View(m, root, IndexOf(vaddr));
      if !IsTable(d) || !d.user || (write && d.readOnly) then None
      else Some(Physical(d.pfn, vaddr % PAGE_SIZE))
  }

  method TranslateUser(space: AddressSpace, vaddr: nat, write: bool, ghost spaces: seq<Space>, ghost k: nat)
    returns (r: Option<Physical>)
    requires space.Live(spaces, k)
    ensures r == Translated(space.backend.Mem(), space.rootPfn, vaddr, write)
  {
    hide Inv, View, Reaches, Leaf;
    if !(USER_BASE <= vaddr < USER_LIMIT) {
      return None;
    }
    var leaf := space.LeafLocation(vaddr, spaces, k);
    if leaf.Err? {
      return None;
    }
    var (tablePfn, index) := leaf.value;
    var descriptor := space.backend.ReadTableEntry(tablePfn, index);
    if !IsTable(descriptor) || !descriptor.user || (write && descriptor.readOnly) {
      return None;
    }
    r := Some(Physical(descriptor.pfn, vaddr % PAGE_SIZE));
  }

  function PageBase(vaddr: nat): nat {
    vaddr - vaddr % PAGE_SIZE
  }

  lemma PageBaseIndex(vaddr: nat)
    requires USER_BASE <= vaddr < USER_LIMIT
    ensures UserRangeValid(PageBase(vaddr), PAGE_SIZE) && IndexOf(PageBase(vaddr)) == IndexOf(vaddr)
  {
    Recompose(vaddr);
    Recompose(PageBase(vaddr));
  }

  /** An address translates for reading iff its page is mapped with some
      permission, and for writing iff it is mapped writable. It translates to
      the frame it was mapped to exactly when that frame is below 2^36. */
  lemma TranslatedMapped(m: Memory, root: Pfn, pages: Pages, vaddr: nat, write: bool)
    requires Shows(m, root, pages)
    ensures var page := PageBase(vaddr);
            var t := Translated(m, root, vaddr, write);
            && (t.Some? <==>
                && USER_BASE <= vaddr < USER_LIMIT && page in pages.user
                && var p := pages.user[page].protection; if write then p.writable
                  else p.readable || p.writable || p.executable)
            && (t.Some? ==> t.value == Physical(Frame(pages.user[page].frame), vaddr % PAGE_SIZE))
            && (t.Some? ==> (t.value.frame == pages.user[page].frame <==> FitsFrame(pages.user[page].frame)))
  {
    hide Shows, View, Frame, FitsFrame;
    if USER_BASE <= vaddr < USER_LIMIT {
      PageBaseIndex(vaddr);
      ShowsAt(m, root, pages, PageBase(vaddr));
      if PageBase(vaddr) in pages.user { FrameExact(pages.user[PageBase(vaddr)].frame); }
    }
  }

  /** Whether the processor lets the user execute what `vaddr` shows: a page
      open to the user whose execute-never bit is clear. */
  ghost predicate Fetches(m: Memory, root: Pfn, vaddr: nat)
    requires USER_BASE <= vaddr < USER_LIMIT
  {
    var d := View(m, root, IndexOf(vaddr));
    IsTable(d) && d.user && !d.executeNever
  }

  /** The user executes exactly the pages that are mapped executable. */
  lemma FetchedMapped(m: Memory, root: Pfn, pages: Pages, vaddr: nat)
    requires Shows(m, root, pages) && USER_BASE <= vaddr < USER_LIMIT
    ensures Fetches(m, root, vaddr)
            <==> PageBase(vaddr) in pages.user && pages.user[PageBase(vaddr)].protection.executable
  {
    hide Shows, View, Frame;
    PageBaseIndex(vaddr);
    ShowsAt(m, root, pages, PageBase(vaddr));
  }

  /** What may be written may be read, at the same place. */
  lemma WritableReadable(m: Memory, root: Pfn, vaddr: nat)
    ensures Translated(m, root, vaddr, true).Some? ==>
            Translated(m, root, vaddr, false) == Translated(m, root, vaddr, true)
  {}

  /** Addresses of one page translate together. */
  ghost predicate PageWise(f: Translation) {
    && (forall a: nat :: f(a).Some? ==> f(a).value.offset == a % PAGE_SIZE)
    && (forall a: nat, b: nat :: PageBase(a) == PageBase(b) ==> (f(a).Some? <==> f(b).Some?))
    && (forall a: nat, b: nat :: PageBase(a) == PageBase(b) && f(a).Some? ==>
      f(b).Some? && f(a).value.frame == f(b).value.frame)
  }

  ghost function Through(m: Memory, root: Pfn, write: bool): Translation {
    (vaddr: nat) => Translated(m, root, vaddr, write)
  }

  lemma ThroughPageWise(m: Memory, root: Pfn, write: bool)
    ensures PageWise(Through(m, root, write))
  {
    var f := Through(m, root, write);
    forall a: nat, b: nat | PageBase(a) == PageBase(b)
      ensures (f(a).Some? <==> f(b).Some?) && (f(a).Some? ==> f(a).value.frame == f(b).value.frame)
    {
      if USER_BASE <= a < USER_LIMIT { PageBaseIndex(a); }
      if USER_BASE <= b < USER_LIMIT { PageBaseIndex(b); }
    }
  }

  // ---------- physical memory ----------

  type Data = map<Pfn, seq<Byte>>

  ghost predicate WholePages(data: Data) {
    forall p :: p in data ==> |data[p]| == PAGE_SIZE
  }

  ghost function Peek(data: Data, at: Physical): Byte {
    if at.frame in data && at.offset < |data[at.frame]| then data[at.frame][at.offset] else 0
  }

  ghost function Poke(data: Data, at: Physical, b: Byte): Data {
    if at.frame in data && at.offset < |data[at.frame]| then data[at.frame := data[at.frame][at.offset := b]] else data
  }

  /** Where an address leads; nowhere if it does not translate. */
  ghost function Place(f: Translation, vaddr: nat): Physical {
    if f(vaddr).Some? then f(vaddr).value else Physical(Pfn(0), PAGE_SIZE)
  }

  /** The bytes written one at a time, each through its own translation. */
  ghost function PokeAll(data: Data, f: Translation, vaddr: nat, bytes: seq<Byte>): Data {
    if bytes == [] then data
    else
      var n := |bytes| - 1;
      Poke(PokeAll(data, f, vaddr, bytes[..n]), Place(f, vaddr + n), bytes[n])
  }

  ghost function PeekAll(data: Data, f: Translation, vaddr: nat, len: nat): seq<Byte> {
    seq(len, i requires 0 <= i < len => Peek(data, Place(f, vaddr + i)))
  }

  ghost predicate Reachable(f: Translation, data: Data, vaddr: nat) {
    f(vaddr).Some? && f(vaddr).value.frame in data
  }

  /** All addresses translate, to pages that exist. */
  ghost predicate Copyable(f: Translation, data: Data, vaddr: nat, len: nat) {
    forall a: nat :: vaddr <= a < vaddr + len ==> Reachable(f, data, a)
  }

  lemma {:induction false} PokeAllPages(data: Data, f: Translation, vaddr: nat, bytes: seq<Byte>)
    requires WholePages(data)
    ensures WholePages(PokeAll(data, f, vaddr, bytes)) && PokeAll(data, f, vaddr, bytes).Keys == data.Keys
  {
    if bytes != [] { PokeAllPages(data, f, vaddr, bytes[..|bytes| - 1]); }
  }

  ghost function Patched(page: seq<Byte>, offset: nat, bytes: seq<Byte>): seq<Byte>
    requires offset + |bytes| <= |page|
  {
    page[..offset] + bytes + page[offset + |bytes|..]
  }

  lemma SamePage(a: nat, i: nat)
    requires a % PAGE_SIZE + i < PAGE_SIZE
    ensures PageBase(a + i) == PageBase(a) && (a + i) % PAGE_SIZE == a % PAGE_SIZE + i
  {}

  /** The next byte of a page goes right behind the last. */
  lemma PlaceNext(f: Translation, data: Data, a: nat, i: nat)
    requires PageWise(f) && Reachable(f, data, a) && a % PAGE_SIZE + i < PAGE_SIZE
    ensures Reachable(f, data, a + i) && Place(f, a + i) == Physical(Place(f, a).frame, a % PAGE_SIZE + i)
  {
    hide PageBase;
    SamePage(a, i);
  }

  lemma PatchedNext(page: seq<Byte>, offset: nat, bytes: seq<Byte>, b: Byte)
    requires offset + |bytes| < |page|
    ensures Patched(page, offset, bytes)[offset + |bytes| := b] == Patched(page, offset, bytes + [b])
  {}

  ghost function Overwritten(data: Data, at: Physical, bytes: seq<Byte>): Data {
    if at.frame in data && at.offset + |bytes| <= |data[at.frame]| then
      data[at.frame := Patched(data[at.frame], at.offset, bytes)]
    else data
  }

  lemma OverwrittenNext(data: Data, at: Physical, bytes: seq<Byte>, b: Byte)
    requires at.frame in data && at.offset + |bytes| < |data[at.frame]|
    ensures Poke(Overwritten(data, at, bytes), Physical(at.frame, at.offset + |bytes|), b)
            == Overwritten(data, at, bytes + [b])
  {
    PatchedNext(data[at.frame], at.offset, bytes, b);
  }

  lemma OverwrittenNothing(data: Data, at: Physical)
    ensures Overwritten(data, at, []) == data
  {
    if at.frame in data && at.offset <= |data[at.frame]| {
      assert Patched(data[at.frame], at.offset, []) == data[at.frame];
    }
  }

  /** A copy within one page is as good as byte by byte. */
  lemma {:induction false} PokeChunk(data: Data, f: Translation, vaddr: nat, bytes: seq<Byte>, done: nat, count: nat)
    requires WholePages(data) && PageWise(f) && done + count <= |bytes|
    requires count > 0 ==> Reachable(f, data, vaddr + done)
    requires (vaddr + done) % PAGE_SIZE + count <= PAGE_SIZE
    ensures PokeAll(data, f, vaddr, bytes[..done + count])
         == Overwritten(PokeAll(data, f, vaddr, bytes[..done]), Place(f, vaddr + done), bytes[done..done + count])
    decreases count
  {
    hide PageWise, Place, Reachable, Poke, Overwritten, WholePages;
    var before, at := PokeAll(data, f, vaddr, bytes[..done]), Place(f, vaddr + done);
    if count == 0 {
      OverwrittenNothing(before, at);
      assert bytes[done..done] == [];
    } else {
      var last := done + count - 1;
      PokeAllPages(data, f, vaddr, bytes[..done]);
      PokeChunk(data, f, vaddr, bytes, done, count - 1);
      PlaceNext(f, data, vaddr + done, 0);
      PlaceNext(f, data, vaddr + done, count - 1);
      PageWhole(before, data, f, vaddr + done);
      assert bytes[..done + count][..last] == bytes[..last];
      assert bytes[done..last] + [bytes[last]] == bytes[done..done + count];
      OverwrittenNext(before, at, bytes[done..last], bytes[last]);
    }
  }

  lemma PageWhole(before: Data, data: Data, f: Translation, a: nat)
    requires WholePages(before) && before.Keys == data.Keys && Reachable(f, data, a)
    ensures Place(f, a).frame in before && |before[Place(f, a).frame]| == PAGE_SIZE
  {}

  // ---------- what is read back ----------

  /** Reading where something else was written changes nothing. */
  lemma PeekPoke(data: Data, at: Physical, b: Byte, other: Physical)
    ensures other != at ==> Peek(Poke(data, at, b), other) == Peek(data, other)
    ensures at.frame in data && at.offset < |data[at.frame]| ==> Peek(Poke(data, at, b), at) == b
  {}

  /** Memory holds, at every place, the last byte written there. */
  lemma {:induction false} PeekPokeAll(data: Data, f: Translation, vaddr: nat, bytes: seq<Byte>, i: nat)
    requires WholePages(data) && PageWise(f) && Copyable(f, data, vaddr, |bytes|) && i < |bytes|
    requires forall a: nat :: vaddr + i < a < vaddr + |bytes| ==> Place(f, a) != Place(f, vaddr + i)
    ensures Peek(PokeAll(data, f, vaddr, bytes), Place(f, vaddr + i)) == bytes[i]
  {
    hide Place, Poke, Peek, PageWise;
    var n := |bytes| - 1;
    var before := PokeAll(data, f, vaddr, bytes[..n]);
    PeekPoke(before, Place(f, vaddr + n), bytes[n], Place(f, vaddr + i));
    PokeAllPages(data, f, vaddr, bytes[..n]);
    if i < n {
      PeekPokeAll(data, f, vaddr, bytes[..n], i);
    } else {
      assert Reachable(f, data, vaddr + n);
      PageWhole(before, data, f, vaddr + n);
      PlaceNext(f, data, vaddr + n, 0);
    }
  }

  /** No two pages of the range map to the same frame. */
  ghost predicate FramesDistinct(f: Translation, vaddr: nat, len: nat) {
    forall a: nat, b: nat :: vaddr <= a < vaddr + len && vaddr <= b < vaddr + len && PageBase(a) != PageBase(b)
      ==> Place(f, a).frame != Place(f, b).frame
  }

  lemma DistinctPlaces(f: Translation, data: Data, vaddr: nat, len: nat, a: nat, b: nat)
    requires PageWise(f) && Copyable(f, data, vaddr, len) && FramesDistinct(f, vaddr, len)
    requires vaddr <= a < b < vaddr + len
    ensures Place(f, a) != Place(f, b)
  {
    assert Reachable(f, data, a) && Reachable(f, data, b);
  }

  /** What was copied in is what is copied out, at any alignment and length. */
  lemma CopyRoundTrip(data: Data, f: Translation, g: Translation, vaddr: nat, bytes: seq<Byte>)
    requires WholePages(data) && PageWise(f) && Copyable(f, data, vaddr, |bytes|) && FramesDistinct(f, vaddr, |bytes|)
    requires forall a: nat :: f(a).Some? ==> g(a) == f(a)
    ensures PeekAll(PokeAll(data, f, vaddr, bytes), g, vaddr, |bytes|) == bytes
  {
    hide FramesDistinct, PageWise, Peek, PokeAll, Poke;
    var after := PokeAll(data, f, vaddr, bytes);
    forall i | 0 <= i < |bytes| ensures PeekAll(after, g, vaddr, |bytes|)[i] == bytes[i] {
      assert Reachable(f, data, vaddr + i);
      forall a: nat | vaddr + i < a < vaddr + |bytes| ensures Place(f, a) != Place(f, vaddr + i) {
        DistinctPlaces(f, data, vaddr, |bytes|, vaddr + i, a);
      }
      assert g(vaddr + i) == f(vaddr + i) && Place(g, vaddr + i) == Place(f, vaddr + i);
      PeekPokeAll(data, f, vaddr, bytes, i);
    }
  }

  /** The last of the bytes that goes where byte `i` goes. */
  lemma {:induction false} LastThere(f: Translation, vaddr: nat, len: nat, i: nat) returns (j: nat)
    requires i < len
    ensures i <= j < len && Place(f, vaddr + j) == Place(f, vaddr + i)
    ensures forall a: nat :: vaddr + j < a < vaddr + len ==> Place(f, a) != Place(f, vaddr + j)
    decreases len - i
  {
    hide Place;
    if a: nat :| vaddr + i < a < vaddr + len && Place(f, a) == Place(f, vaddr + i) {
      j := LastThere(f, vaddr, len, a - vaddr);
    } else {
      j := i;
    }
  }

  /** With frames mapped twice, the copy reads back as written exactly when
      bytes that share a place are equal. */
  lemma CopyRoundTripIff(data: Data, f: Translation, vaddr: nat, bytes: seq<Byte>)
    requires WholePages(data) && PageWise(f) && Copyable(f, data, vaddr, |bytes|)
    ensures PeekAll(PokeAll(data, f, vaddr, bytes), f, vaddr, |bytes|) == bytes <==>
            forall a: nat, b: nat :: vaddr <= a < b < vaddr + |bytes| && Place(f, a) == Place(f, b) ==>
              bytes[a - vaddr] == bytes[b - vaddr]
  {
    hide PageWise, Copyable, Place, Peek, PokeAll, WholePages;
    var after := PokeAll(data, f, vaddr, bytes);
    var read := PeekAll(after, f, vaddr, |bytes|);
    if forall a: nat, b: nat :: vaddr <= a < b < vaddr + |bytes| && Place(f, a) == Place(f, b) ==>
      bytes[a - vaddr] == bytes[b - vaddr] {
      forall i | 0 <= i < |bytes| ensures read[i] == bytes[i] {
        var j := LastThere(f, vaddr, |bytes|, i);
        PeekPokeAll(data, f, vaddr, bytes, j);
        if i != j { assert bytes[vaddr + i - vaddr] == bytes[vaddr + j - vaddr]; }
      }
      assert read == bytes;
    }
    if read == bytes {
      forall a: nat, b: nat | vaddr <= a < b < vaddr + |bytes| && Place(f, a) == Place(f, b)
        ensures bytes[a - vaddr] == bytes[b - vaddr]
      {
        assert read[a - vaddr] == Peek(after, Place(f, a)) && read[b - vaddr] == Peek(after, Place(f, b));
      }
    }
  }

  /** The two copies, through one set of tables. */
  lemma UserRoundTrip(m: Memory, root: Pfn, data: Data, vaddr: nat, bytes: seq<Byte>)
    requires WholePages(data)
    requires Copyable(Through(m, root, true), data, vaddr, |bytes|)
             && FramesDistinct(Through(m, root, true), vaddr, |bytes|)
    ensures var after := PokeAll(data, Through(m, root, true), vaddr, bytes);
            && Copyable(Through(m, root, false), after, vaddr, |bytes|)
            && PeekAll(after, Through(m, root, false), vaddr, |bytes|) == bytes
  {
    hide Translated, PageWise, FramesDistinct, PokeAll, PeekAll, WholePages;
    var f, g := Through(m, root, true), Through(m, root, false);
    ThroughPageWise(m, root, true);
    forall a: nat | f(a).Some? ensures g(a) == f(a) { WritableReadable(m, root, a); }
    PokeAllPages(data, f, vaddr, bytes);
    forall a: nat | vaddr <= a < vaddr + |bytes| ensures Reachable(g, PokeAll(data, f, vaddr, bytes), a) {
      assert Reachable(f, data, a);
    }
    CopyRoundTrip(data, f, g, vaddr, bytes);
  }

  // ---------- the copies themselves ----------

  /** The data pages of a backend. */
  class DataPages {
    var data: Data

    ghost predicate Valid()
      reads this
    {
      WholePages(data)
    }

    predicate PhysicalPageAccessible(pfn: Pfn)
      reads this
    {
      pfn in data
    }

    method CopyToPhysical(at: Physical, bytes: seq<Byte>) returns (ok: bool)
      modifies this
      ensures ok <==> at.frame in old(data) && at.offset + |bytes| <= |old(data)[at.frame]|
      ensures data == Overwritten(old(data), at, bytes)
    {
      if at.frame !in data || at.offset + |bytes| > |data[at.frame]| {
        return false;
      }
      var page := data[at.frame];
      data := data[at.frame := page[..at.offset] + bytes + page[at.offset + |bytes|..]];
      ok := true;
    }

    method CopyFromPhysical(at: Physical, len: nat) returns (bytes: Option<seq<Byte>>)
      ensures bytes.Some? <==> at.frame in data && at.offset + len <= |data[at.frame]|
      ensures bytes.Some? ==> bytes.value == data[at.frame][at.offset..at.offset + len]
    {
      if at.frame !in data || at.offset + len > |data[at.frame]| {
        return None;
      }
      bytes := Some(data[at.frame][at.offset..at.offset + len]);
    }
  }

  /** Which address stops a copy, and why. */
  ghost predicate Faults(error: Error, f: Translation, data: Data, vaddr: nat, len: nat) {
    exists a: nat :: vaddr <= a < vaddr + len && Copyable(f, data, vaddr, a - vaddr)
      && ((error == PermissionDenied && f(a).None?)
        || (error == InvalidAddress && f(a).Some? && f(a).value.frame !in data))
  }

  method ValidateCopy(space: AddressSpace, pages: DataPages, vaddr: nat, len: nat, write: bool,
                      ghost spaces: seq<Space>, ghost k: nat)
    returns (r: Result<()>)
    requires space.Live(spaces, k)
    ensures r.Ok? <==>
            vaddr + len < USIZE_LIMIT
            && Copyable(Through(space.backend.Mem(), space.rootPfn, write), pages.data, vaddr, len)
    ensures r.Err? ==>
              (vaddr + len >= USIZE_LIMIT && r.error == InvalidAddress)
              || Faults(r.error, Through(space.backend.Mem(), space.rootPfn, write), pages.data, vaddr, len)
  {
    hide Inv, Translated, PageWise, PageBase;
    if vaddr + len >= USIZE_LIMIT {
      return Err(InvalidAddress);
    }
    ghost var f := Through(space.backend.Mem(), space.rootPfn, write);
    ThroughPageWise(space.backend.Mem(), space.rootPfn, write);
    var end, current := vaddr + len, vaddr;
    while current < end
      invariant vaddr <= current <= end && Copyable(f, pages.data, vaddr, current - vaddr)
    {
      var physical := TranslateUser(space, current, write, spaces, k);
      assert physical == f(current);
      if physical.None? {
        assert !Reachable(f, pages.data, current);
        return Err(PermissionDenied);
      }
      if !pages.PhysicalPageAccessible(physical.value.frame) {
        assert !Reachable(f, pages.data, current);
        return Err(InvalidAddress);
      }
      var count := if PAGE_SIZE - current % PAGE_SIZE < end - current then PAGE_SIZE - current % PAGE_SIZE
        else end - current;
      forall a: nat | current <= a < current + count ensures Reachable(f, pages.data, a) {
        PlaceNext(f, pages.data, current, a - current);
      }
      current := current + count;
    }
    r := Ok(());
  }

  /** Copies bytes into user memory, all of them or none. */
  method CopyToUser(space: AddressSpace, pages: DataPages, vaddr: nat, bytes: seq<Byte>, ghost spaces: seq<Space>,
                    ghost k: nat)
    returns (r: Result<()>)
    requires space.Live(spaces, k) && pages.Valid()
    modifies pages
    ensures pages.Valid()
    ensures r.Ok? <==>
            vaddr + |bytes| < USIZE_LIMIT
            && Copyable(Through(space.backend.Mem(), space.rootPfn, true), old(pages.data), vaddr, |bytes|)
    ensures r.Err? ==> pages.data == old(pages.data)
    ensures r.Err? ==>
              (vaddr + |bytes| >= USIZE_LIMIT && r.error == InvalidAddress)
              || Faults(r.error, Through(space.backend.Mem(), space.rootPfn, true), old(pages.data), vaddr, |bytes|)
    ensures r.Ok? ==>
            pages.data == PokeAll(old(pages.data), Through(space.backend.Mem(), space.rootPfn, true), vaddr, bytes)
  {
    hide Inv, Translated, PageWise, PageBase, Overwritten, Place, Copyable, Reachable, Faults;
    var validated := ValidateCopy(space, pages, vaddr, |bytes|, true, spaces, k);
    if validated.Err? {
      return validated;
    }
    ghost var f, data := Through(space.backend.Mem(), space.rootPfn, true), pages.data;
    ThroughPageWise(space.backend.Mem(), space.rootPfn, true);
    var current, offset := vaddr, 0;
    assert bytes[..0] == [];
    while offset < |bytes|
      invariant 0 <= offset <= |bytes| && current == vaddr + offset
      invariant pages.data == PokeAll(data, f, vaddr, bytes[..offset])
    {
      // Validation has looked at every page, so neither step below can fail.
      CopyableAt(f, data, vaddr, |bytes|, current);
      PokeAllPages(data, f, vaddr, bytes[..offset]);
      PageWhole(pages.data, data, f, current);
      PlaceNext(f, data, current, 0);
      var physical := TranslateUser(space, current, true, spaces, k);
      PlaceIs(f, current, physical);
      var at := physical.value;
      var room := PAGE_SIZE - at.offset;
      var count := if room < |bytes| - offset then room else |bytes| - offset;
      PokeChunk(data, f, vaddr, bytes, offset, count);
      var copied := pages.CopyToPhysical(at, bytes[offset..offset + count]);
      assert copied;
      current, offset := current + count, offset + count;
    }
    assert bytes[..offset] == bytes;
    PokeAllPages(data, f, vaddr, bytes);
    r := Ok(());
  }

  method CopyFromUser(space: AddressSpace, pages: DataPages, vaddr: nat, len: nat, ghost spaces: seq<Space>,
                      ghost k: nat)
    returns (r: Result<seq<Byte>>)
    requires space.Live(spaces, k) && pages.Valid()
    ensures r.Ok? <==>
            vaddr + len < USIZE_LIMIT
            && Copyable(Through(space.backend.Mem(), space.rootPfn, false), pages.data, vaddr, len)
    ensures r.Ok? ==> r.value == PeekAll(pages.data, Through(space.backend.Mem(), space.rootPfn, false), vaddr, len)
    ensures r.Err? ==>
              (vaddr + len >= USIZE_LIMIT && r.error == InvalidAddress)
              || Faults(r.error, Through(space.backend.Mem(), space.rootPfn, false), pages.data, vaddr, len)
  {
    hide Inv, Translated, PageWise, PageBase, Place, Copyable, Reachable, Faults;
    var validated := ValidateCopy(space, pages, vaddr, len, false, spaces, k);
    if validated.Err? {
      return Err(validated.error);
    }
    ghost var f := Through(space.backend.Mem(), space.rootPfn, false);
    ThroughPageWise(space.backend.Mem(), space.rootPfn, false);
    var current, out: seq<Byte> := vaddr, [];
    while |out| < len
      invariant |out| <= len && current == vaddr + |out|
      invariant out == PeekAll(pages.data, f, vaddr, |out|)
    {
      CopyableAt(f, pages.data, vaddr, len, current);
      PageWhole(pages.data, pages.data, f, current);
      PlaceNext(f, pages.data, current, 0);
      var physical := TranslateUser(space, current, false, spaces, k);
      PlaceIs(f, current, physical);
      var at := physical.value;
      var room := PAGE_SIZE - at.offset;
      var count := if room < len - |out| then room else len - |out|;
      var chunk := pages.CopyFromPhysical(at, count);
      forall i | 0 <= i < count ensures chunk.value[i] == Peek(pages.data, Place(f, current + i)) {
        PlaceNext(f, pages.data, current, i);
      }
      PeekChunk(pages.data, f, vaddr, out, chunk.value);
      out := out + chunk.value;
      current := current + count;
    }
    r := Ok(out);
  }

  lemma PeekChunk(data: Data, f: Translation, vaddr: nat, out: seq<Byte>, chunk: seq<Byte>)
    requires out == PeekAll(data, f, vaddr, |out|)
    requires forall i :: 0 <= i < |chunk| ==> chunk[i] == Peek(data, Place(f, vaddr + |out| + i))
    ensures out + chunk == PeekAll(data, f, vaddr, |out + chunk|)
  {
    hide Peek, Place;
    forall i | 0 <= i < |out + chunk| ensures (out + chunk)[i] == PeekAll(data, f, vaddr, |out + chunk|)[i] {
      if i < |out| { assert out[i] == PeekAll(data, f, vaddr, |out|)[i]; }
    }
  }

  lemma CopyableAt(f: Translation, data: Data, vaddr: nat, len: nat, a: nat)
    requires Copyable(f, data, vaddr, len) && vaddr <= a < vaddr + len
    ensures Reachable(f, data, a)
  {}

  lemma PlaceIs(f: Translation, a: nat, physical: Option<Physical>)
    requires physical == f(a)
    ensures physical.Some? ==> physical.value == Place(f, a)
  {}
}

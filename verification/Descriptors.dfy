/** The 64-bit translation-table words of the AArch64 user address space
    (VMSAv8-64 stage-1 descriptors, 4 KiB granule), and the field record the
    page-table model works on. Every word unpacks to exactly one record, and
    every test and encoder of the source on words is the stated test or encoder
    on records.

    Bits: 0 valid, 1 table-or-page, 6 user access, 7 read-only, 8-9 inner
    shareable, 10 access flag, 12-47 output address, 53 privileged execute
    never, 54 user execute never. */
module Descriptors {

  /** A physical page frame number, as the source's u64. */
  datatype Pfn = Pfn(number: bv64)

  // ---------- words, as the source builds and tests them ----------

  function TableWord(paddr: bv64): bv64 {
    (paddr & 0x0000_ffff_ffff_f000) | 1 | 2
  }

  predicate WordIsTableOrPage(word: bv64) {
    word & (1 | 2) == 1 | 2
  }

  function UserPageWord(paddr: bv64, readable: bool, writable: bool, executable: bool): bv64 {
    var userAccess: bv64 := if readable || writable || executable then 0x40 else 0;
    var readOnly: bv64 := if writable then 0 else 0x80;
    var executeNever: bv64 := if executable then 0 else 0x40_0000_0000_0000;
    (paddr & 0x0000_ffff_ffff_f000) | 1 | 2 | 0x400 | userAccess | 0x300 | readOnly | executeNever
    | 0x20_0000_0000_0000
  }

  function BlockWord(paddr: bv64, device: bool, executable: bool): bv64 {
    var attrIndex: bv64 := if device then 4 else 0;
    var executeNever: bv64 := 0x40_0000_0000_0000 | (if executable then 0 else 0x20_0000_0000_0000);
    (paddr & 0x0000_ffff_ffe0_0000) | 1 | 0x400 | 0x300 | attrIndex | executeNever
  }

  /** The frame a word points at: its address part divided by the page size. */
  function WordPfn(word: bv64): Pfn {
    Pfn((word & 0x0000_ffff_ffff_f000) >> 12)
  }

  /** The source's checked product of frame number and page size: it overflows
      from frame 2^52 on. */
  predicate Addressable(pfn: Pfn) {
    pfn.number < 0x10_0000_0000_0000
  }

  function Address(pfn: Pfn): bv64 {
    pfn.number << 12
  }

  // ---------- the words bit by bit ----------

  /** Bit `k` of a word. */
  ghost predicate Bit(word: bv64, k: nat)
    requires k < 64
  {
    (word >> k) & 1 == 1
  }

  /** A user page: valid, a page, flagged as accessed, inner shareable, never
      executed by the kernel; open to the user if any permission is set, read
      only unless writable, and executed by the user exactly if executable. */
  lemma UserPageBits(paddr: bv64, readable: bool, writable: bool, executable: bool)
    ensures var word := UserPageWord(paddr, readable, writable, executable);
            && Bit(word, 0) && Bit(word, 1) && Bit(word, 8) && Bit(word, 9) && Bit(word, 10) && Bit(word, 53)
            && (Bit(word, 6) <==> readable || writable || executable)
            && (Bit(word, 7) <==> !writable)
            && (Bit(word, 54) <==> !executable)
    ensures var word := UserPageWord(paddr, readable, writable, executable);
            word & 0xffff_ffff_f000 == paddr & 0xffff_ffff_f000 && word & 0xff9f_0000_0000_083c == 0
  {}

  /** A block of the kernel: valid and no table, never executed by the user, by
      the kernel exactly if executable, and of device memory exactly if so. */
  lemma BlockBits(paddr: bv64, device: bool, executable: bool)
    ensures var word := BlockWord(paddr, device, executable);
            && Bit(word, 0) && !Bit(word, 1) && Bit(word, 8) && Bit(word, 9) && Bit(word, 10) && Bit(word, 54)
            && !Bit(word, 6) && !Bit(word, 7)
            && (Bit(word, 2) <==> device)
            && (Bit(word, 53) <==> !executable)
    ensures BlockWord(paddr, device, executable) & 0xffff_ffe0_0000 == paddr & 0xffff_ffe0_0000
  {}

  // ---------- the field record ----------

  /** The fields the source tests one by one, the frame number, and all
      remaining bits of the word. */
  datatype Descriptor = Descriptor(
    valid: bool, tableOrPage: bool, user: bool, readOnly: bool, executeNever: bool,
    pfn: Pfn, rest: bv64)

  const ZERO: Descriptor := Descriptor(false, false, false, false, false, Pfn(0), 0)

  function Unpack(word: bv64): Descriptor {
    Descriptor(
      word & 1 != 0, word & 2 != 0, word & 0x40 != 0, word & 0x80 != 0, word & 0x40_0000_0000_0000 != 0,
      WordPfn(word), word & 0xffbf_0000_0000_0f3c)
  }

  /** The frame number a descriptor keeps of the frame it is built for. */
  function Frame(pfn: Pfn): Pfn {
    Pfn(pfn.number & 0xf_ffff_ffff)
  }

  predicate FitsFrame(pfn: Pfn) {
    pfn.number <= 0xf_ffff_ffff
  }

  function TableDescriptor(pfn: Pfn): Descriptor {
    Descriptor(true, true, false, false, false, Frame(pfn), 0)
  }

  function UserPage(pfn: Pfn, readable: bool, writable: bool, executable: bool): Descriptor {
    Descriptor(true, true, readable || writable || executable, !writable, !executable, Frame(pfn),
               0x20_0000_0000_0700)
  }

  function Block(paddr: bv64, device: bool, executable: bool): Descriptor {
    Descriptor(true, false, false, false, true, Pfn((paddr & 0x0000_ffff_ffe0_0000) >> 12),
      0x700 | (if device then 4 else 0) | (if executable then 0 else 0x20_0000_0000_0000))
  }

  /** Both table descriptors and level-three page descriptors have both low bits set. */
  predicate IsTable(d: Descriptor) {
    d.valid && d.tableOrPage
  }

  // ---------- words and records agree ----------

  ghost predicate SameMasked(a: bv64, b: bv64, m: bv64) {
    a & m == b & m
  }

  lemma SameFields(a: bv64, b: bv64)
    requires Unpack(a) == Unpack(b)
    ensures SameMasked(a, b, 1) && SameMasked(a, b, 2) && SameMasked(a, b, 0x40) && SameMasked(a, b, 0x80)
    ensures SameMasked(a, b, 0x40_0000_0000_0000) && SameMasked(a, b, 0xffbf_0000_0000_0f3c)
    ensures SameMasked(a, b, 0x0000_ffff_ffff_f000)
  {
  }

  lemma SameWord(a: bv64, b: bv64)
    requires SameMasked(a, b, 1) && SameMasked(a, b, 2) && SameMasked(a, b, 0x40) && SameMasked(a, b, 0x80)
    requires SameMasked(a, b, 0x40_0000_0000_0000) && SameMasked(a, b, 0xffbf_0000_0000_0f3c)
    requires SameMasked(a, b, 0x0000_ffff_ffff_f000)
    ensures a == b
  {}

  /** Unpacking loses nothing, so equality of records is equality of words. */
  lemma UnpackInjective(a: bv64, b: bv64)
    requires Unpack(a) == Unpack(b)
    ensures a == b
  {
    SameFields(a, b);
    SameWord(a, b);
  }

  lemma UnpackZero(word: bv64)
    ensures word == 0 <==> Unpack(word) == ZERO
  {
    if Unpack(word) == ZERO {
      assert Unpack(0) == ZERO;
      UnpackInjective(word, 0);
    }
  }

  lemma UnpackTests(word: bv64)
    ensures WordIsTableOrPage(word) <==> IsTable(Unpack(word))
    ensures WordPfn(word) == Unpack(word).pfn && FitsFrame(WordPfn(word))
  {}

  lemma MaskedAddress(pfn: Pfn)
    requires Addressable(pfn)
    ensures Pfn((Address(pfn) & 0x0000_ffff_ffff_f000) >> 12) == Frame(pfn)
  {}

  lemma UnpackTable(pfn: Pfn)
    requires Addressable(pfn)
    ensures Unpack(TableWord(Address(pfn))) == TableDescriptor(pfn)
  {
    MaskedAddress(pfn);
  }

  lemma UnpackUserPage(pfn: Pfn, r: bool, w: bool, x: bool)
    requires Addressable(pfn)
    ensures Unpack(UserPageWord(Address(pfn), r, w, x)) == UserPage(pfn, r, w, x)
  {
    MaskedAddress(pfn);
  }

  lemma UnpackBlock(paddr: bv64, device: bool, executable: bool)
    ensures Unpack(BlockWord(paddr, device, executable)) == Block(paddr, device, executable)
  {}

  /** The frame survives the address mask exactly when it is below 2^36. */
  lemma FrameExact(pfn: Pfn)
    ensures Frame(pfn) == pfn <==> FitsFrame(pfn)
    ensures FitsFrame(Frame(pfn)) && Frame(Frame(pfn)) == Frame(pfn)
  {}
}

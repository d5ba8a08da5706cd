/** The two-slot journal of the stage publisher: its records, how a commit may
    be cut short, and what is read back afterwards. */
module StageJournal {
  import opened Decimals
  import opened Options

  /** The identity of a directory: device and inode number. */
  datatype Inode = Inode(dev: nat, ino: nat)

  datatype Value =
    | Idle
    | Building(work: Inode)
    | Initial(work: Inode)
    | Exchange(work: Inode, destination: Inode)

  const NUMBER_LIMIT: nat := 0x1_0000_0000_0000_0000

  predicate LegalInode(i: Inode) {
    i.dev < NUMBER_LIMIT && i.ino < NUMBER_LIMIT
  }

  predicate Legal(v: Value) {
    match v
    case Idle => true
    case Building(w) => LegalInode(w)
    case Initial(w) => LegalInode(w)
    case Exchange(w, d) => LegalInode(w) && LegalInode(d)
  }

  // ---------- numbers as text ----------

  /** The length of the run of digits at the front of `s`. */
  function Run(s: string): (k: nat)
    ensures k <= |s| && forall i :: 0 <= i < k ==> IsDigit(s[i])
    ensures k < |s| ==> !IsDigit(s[k])
  {
    if s == [] || !IsDigit(s[0]) then 0 else 1 + Run(s[1..])
  }

  lemma {:induction false} RunExact(digits: string, rest: string)
    requires forall c :: c in digits ==> IsDigit(c)
    requires rest == [] || !IsDigit(rest[0])
    ensures Run(digits + rest) == |digits|
  {
    if digits == [] {
      assert digits + rest == rest;
    } else {
      assert (digits + rest)[1..] == digits[1..] + rest;
      assert digits[0] in digits;
      RunExact(digits[1..], rest);
    }
  }

  // ---------- values as text ----------

  const SCHEMA: string := "\"schema\":1,\"state\":"

  function IdleText(): string { "{" + SCHEMA + "\"idle\"}\n" }
  function BuildingHead(): string { "{" + SCHEMA + "\"building\",\"work_dev\":" }
  function InitialHead(): string { "{" + SCHEMA + "\"initial\",\"work_dev\":" }
  function ExchangeHead(): string { "{\"destination_dev\":" }

  /** The text of a value: keys in order, no spaces, a newline at the end. */
  function Render(v: Value): string {
    match v
    case Idle => IdleText()
    case Building(w) => BuildingHead() + Tail(w)
    case Initial(w) => InitialHead() + Tail(w)
    case Exchange(w, d) => ExchangeHead() + ExchangeTail(w, d)
  }

  function ExchangeTail(w: Inode, d: Inode): string {
    Decimal(d.dev) + ",\"destination_ino\":" + Decimal(d.ino) + ("," + SCHEMA + "\"exchange\",\"work_dev\":") + Tail(w)
  }

  function Tail(w: Inode): string {
    Decimal(w.dev) + ",\"work_ino\":" + Decimal(w.ino) + "}\n"
  }

  /** A number at the front of `s`, and what follows it. */
  function TakeNumber(s: string): Option<(nat, string)> {
    var k := Run(s);
    if k == 0 then None
    else
      assert forall c :: c in s[..k] ==> IsDigit(c);
      Some((Number(s[..k]), s[k..]))
  }

  /** What follows `prefix`, if `s` starts with it. */
  function After(s: string, prefix: string): Option<string> {
    if prefix <= s then Some(s[|prefix|..]) else None
  }

  function TakeTail(s: string): Option<Inode> {
    var dev := TakeNumber(s);
    if dev.None? then None
    else
      var rest := After(dev.value.1, ",\"work_ino\":");
      if rest.None? then None
      else
        var ino := TakeNumber(rest.value);
        if ino.None? || ino.value.1 != "}\n" then None
        else Some(Inode(dev.value.0, ino.value.0))
  }

  function TakeExchange(s: string): Option<Value> {
    var dev := TakeNumber(s);
    if dev.None? then None
    else
      var rest := After(dev.value.1, ",\"destination_ino\":");
      if rest.None? then None
      else
        var ino := TakeNumber(rest.value);
        if ino.None? then None
        else
          var last := After(ino.value.1, "," + SCHEMA + "\"exchange\",\"work_dev\":");
          if last.None? then None
          else
            var work := TakeTail(last.value);
            if work.None? then None else Some(Exchange(work.value, Inode(dev.value.0, ino.value.0)))
  }

  /** The value a text stands for. Only the one text that renders a value is
      accepted for it. */
  function Parse(s: string): (r: Option<Value>)
    ensures r.Some? ==> Render(r.value) == s
  {
    var v := ParseAny(s);
    if v.Some? && Render(v.value) == s then v else None
  }

  function ParseAny(s: string): Option<Value> {
    var building, initial, exchange := After(s, BuildingHead()), After(s, InitialHead()), After(s, ExchangeHead());
    if s == IdleText() then Some(Idle)
    else if building.Some? then
      var w := TakeTail(building.value);
      if w.None? then None else Some(Building(w.value))
    else if initial.Some? then
      var w := TakeTail(initial.value);
      if w.None? then None else Some(Initial(w.value))
    else if exchange.Some? then TakeExchange(exchange.value)
    else None
  }

  lemma TakeNumberDecimal(n: nat, rest: string)
    requires rest == [] || !IsDigit(rest[0])
    ensures TakeNumber(Decimal(n) + rest) == Some((n, rest))
  {
    var d, s := Decimal(n), Decimal(n) + rest;
    RunExact(d, rest);
    assert s[..|d|] == d && s[|d|..] == rest;
    NumberDecimal(n);
  }

  lemma AfterPrefix(prefix: string, rest: string)
    ensures After(prefix + rest, prefix) == Some(rest)
  {
    assert prefix <= prefix + rest;
    assert (prefix + rest)[|prefix|..] == rest;
  }

  lemma TakeTailTail(w: Inode)
    ensures TakeTail(Tail(w)) == Some(w)
  {
    hide TakeNumber, After;
    var key, end := ",\"work_ino\":", "}\n";
    assert Tail(w) == Decimal(w.dev) + (key + (Decimal(w.ino) + end));
    TakeNumberDecimal(w.dev, key + (Decimal(w.ino) + end));
    AfterPrefix(key, Decimal(w.ino) + end);
    TakeNumberDecimal(w.ino, end);
  }

  lemma TakeExchangeText(w: Inode, d: Inode)
    ensures TakeExchange(ExchangeTail(w, d)) == Some(Exchange(w, d))
  {
    hide TakeNumber, After, TakeTail, Tail;
    var one, two := ",\"destination_ino\":", "," + SCHEMA + "\"exchange\",\"work_dev\":";
    var last := two + Tail(w);
    assert Decimal(d.dev) + one + Decimal(d.ino) + two + Tail(w) == Decimal(d.dev) + (one + (Decimal(d.ino) + last));
    TakeNumberDecimal(d.dev, one + (Decimal(d.ino) + last));
    AfterPrefix(one, Decimal(d.ino) + last);
    TakeNumberDecimal(d.ino, last);
    AfterPrefix(two, Tail(w));
    TakeTailTail(w);
  }

  /** The characters that tell the texts apart. */
  lemma Heads()
    ensures |IdleText()| > 22 && |BuildingHead()| > 22 && |InitialHead()| > 22 && |ExchangeHead()| > 2
    ensures IdleText()[2] == BuildingHead()[2] == InitialHead()[2] == 's' && ExchangeHead()[2] == 'd'
    ensures IdleText()[21] == 'i' && BuildingHead()[21] == 'b' && InitialHead()[21] == 'i'
    ensures IdleText()[22] == 'd' && InitialHead()[22] == 'n'
  {
    assert |SCHEMA| == 19 && SCHEMA[1] == 's';
  }

  lemma NotAfter(s: string, prefix: string, i: nat)
    requires i < |s| && i < |prefix| && s[i] != prefix[i]
    ensures After(s, prefix).None?
  {}

  /** Reading a rendered value gives it back. */
  lemma ParseRender(v: Value)
    ensures Parse(Render(v)) == Some(v)
  {
    hide TakeTail, TakeExchange, Tail, ExchangeTail, IdleText, BuildingHead, InitialHead, ExchangeHead, After;
    Heads();
    match v {
      case Idle =>
      case Building(w) =>
        AfterPrefix(BuildingHead(), Tail(w));
        TakeTailTail(w);
      case Initial(w) =>
        NotAfter(Render(v), BuildingHead(), 21);
        AfterPrefix(InitialHead(), Tail(w));
        TakeTailTail(w);
      case Exchange(w, d) =>
        NotAfter(Render(v), BuildingHead(), 2);
        NotAfter(Render(v), InitialHead(), 2);
        AfterPrefix(ExchangeHead(), ExchangeTail(w, d));
        TakeExchangeText(w, d);
    }
  }

  // ---------- records ----------

  /** Bytes of a record behind its header. */
  const BODY: nat := 417
  const GENERATION_DIGITS: nat := 16
  const LENGTH_DIGITS: nat := 4

  /** A checksum over generation and payload, taken to be one-to-one; or a
      text that is nobody's checksum. */
  datatype Checksum = Sum(generation: nat, payload: string) | Broken

  /** One slot of the journal, field by field as the header lays it out: whether
      the magic word, the separators and the final newline are all there, then
      generation and length in hexadecimal (16 stands for a byte that is no
      digit), the checksum, and the body. */
  datatype Record = Record(frame: bool, generation: seq<nat>, length: seq<nat>, checksum: Checksum, body: string)

  predicate AllDigits(s: seq<nat>) {
    forall i :: 0 <= i < |s| ==> s[i] < 16
  }

  /** Every field has its place in the file. */
  predicate Sized(r: Record) {
    |r.body| == BODY && |r.generation| == GENERATION_DIGITS && |r.length| == LENGTH_DIGITS
  }

  function Hex(n: nat, k: nat): (r: seq<nat>)
    ensures |r| == k && forall i :: 0 <= i < k ==> r[i] < 16
  {
    if k == 0 then [] else Hex(n / 16, k - 1) + [n % 16]
  }

  function HexValue(s: seq<nat>): nat {
    if s == [] then 0 else HexValue(s[..|s| - 1]) * 16 + s[|s| - 1]
  }

  function Pow16(k: nat): nat {
    if k == 0 then 1 else 16 * Pow16(k - 1)
  }

  lemma {:induction false} HexRoundTrip(n: nat, k: nat)
    requires n < Pow16(k)
    ensures HexValue(Hex(n, k)) == n
  {
    if k > 0 {
      HexRoundTrip(n / 16, k - 1);
      assert Hex(n, k)[..k - 1] == Hex(n / 16, k - 1);
    }
  }

  function Zeros(k: nat): string {
    seq(k, _ => '\0')
  }

  /** A payload and the zeros behind it. */
  function Padded(payload: string): (r: string)
    requires |payload| <= BODY
    ensures |r| == BODY && r[..|payload|] == payload && r[|payload|..] == Zeros(BODY - |payload|)
  {
    payload + Zeros(BODY - |payload|)
  }

  /** A record; None where the original refuses to make one. */
  function Encode(generation: nat, v: Value): Option<Record> {
    var payload := Render(v);
    if generation >= NUMBER_LIMIT || |payload| > BODY then None
    else Some(Record(true, Hex(generation, GENERATION_DIGITS), Hex(|payload|, LENGTH_DIGITS), Sum(generation, payload),
      Padded(payload)))
  }

  /** The generation and value of a record, if it is whole. */
  function Decode(r: Record): (d: Option<(nat, Value)>)
    ensures d.Some? ==> r.checksum == Sum(d.value.0, Render(d.value.1)) && |Render(d.value.1)| <= BODY
    ensures d.Some? ==> Sized(r) && r.body == Padded(Render(d.value.1))
  {
    var generation, length := HexValue(r.generation), HexValue(r.length);
    if !Sized(r) || !r.frame then None
    else if !AllDigits(r.generation) || !AllDigits(r.length) || length > BODY then None
    else if r.body[length..] != Zeros(BODY - length) then None
    else if r.checksum != Sum(generation, r.body[..length]) then None
    else
      var v := Parse(r.body[..length]);
      assert r.body == r.body[..length] + r.body[length..];
      if v.None? then None else Some((generation, v.value))
  }

  lemma Powers()
    ensures Pow10(20) > NUMBER_LIMIT && Pow16(GENERATION_DIGITS) == NUMBER_LIMIT && Pow16(LENGTH_DIGITS) == 65536
  {
    assert Pow10(5) == 100000;
    assert Pow10(10) == 10000000000;
    assert Pow10(15) == 1000000000000000;
    assert Pow10(20) == 100000000000000000000;
    assert Pow16(4) == 65536;
    assert Pow16(8) == 0x1_0000_0000;
    assert Pow16(12) == 0x1_0000_0000_0000;
  }

  /** Every legal value fits its record. */
  lemma RenderFits(v: Value)
    requires Legal(v)
    ensures |Render(v)| <= BODY
  {
    Powers();
    if !v.Idle? { DecimalLength(v.work.dev, 20); DecimalLength(v.work.ino, 20); }
    if v.Exchange? { DecimalLength(v.destination.dev, 20); DecimalLength(v.destination.ino, 20); }
    hide Decimal;
  }

  /** Decoding undoes encoding, for every legal value and generation. */
  lemma DecodeEncode(generation: nat, v: Value)
    requires Legal(v) && generation < NUMBER_LIMIT
    ensures Encode(generation, v).Some? && Decode(Encode(generation, v).value) == Some((generation, v))
  {
    hide Render, Parse, Hex, HexValue;
    var payload := Render(v);
    RenderFits(v);
    Powers();
    HexRoundTrip(generation, GENERATION_DIGITS);
    HexRoundTrip(|payload|, LENGTH_DIGITS);
    ParseRender(v);
    hide Padded;
  }

  lemma {:induction false} HexUnique(s: seq<nat>)
    requires AllDigits(s)
    ensures Hex(HexValue(s), |s|) == s && HexValue(s) < Pow16(|s|)
  {
    if s != [] {
      var n := |s| - 1;
      HexUnique(s[..n]);
      assert HexValue(s) / 16 == HexValue(s[..n]) && HexValue(s) % 16 == s[n];
      assert s == s[..n] + [s[n]];
    }
  }

  /** A record is read as a generation and a value exactly when it is the one
      record that is written for them. */
  lemma DecodeIff(r: Record, generation: nat, v: Value)
    ensures Decode(r) == Some((generation, v)) <==> Encode(generation, v) == Some(r)
  {
    hide Render, Parse, Hex, HexValue, Zeros;
    if Decode(r) == Some((generation, v)) {
      HexUnique(r.generation);
      HexUnique(r.length);
      Powers();
    } else if Encode(generation, v) == Some(r) {
      EncodedReads(generation, v);
    }
  }

  lemma EncodedReads(generation: nat, v: Value)
    requires Encode(generation, v).Some?
    ensures Decode(Encode(generation, v).value) == Some((generation, v))
  {
    hide Render, Parse, Hex, HexValue;
    Powers();
    HexRoundTrip(generation, GENERATION_DIGITS);
    HexRoundTrip(|Render(v)|, LENGTH_DIGITS);
    ParseRender(v);
    hide Padded;
  }

  // ---------- the two slots ----------

  /** The slot a generation belongs to, and the other one. */
  function Place(generation: nat): (index: nat)
    ensures index < 2
  {
    generation % 2
  }

  function Other(generation: nat): (index: nat)
    ensures index == 1 - Place(generation)
  {
    1 - generation % 2
  }

  lemma NextPlace(generation: nat)
    ensures Place(generation + 1) == Other(generation)
  {}

  datatype Reading = NoRecord | Ambiguous | Found(generation: nat, index: nat, value: Value)

  /** The valid record with the highest generation. */
  function Read(slots: seq<Record>): Reading
    requires |slots| == 2
  {
    Newer(Decode(slots[0]), Decode(slots[1]))
  }

  function Newer(a: Option<(nat, Value)>, b: Option<(nat, Value)>): Reading {
    if a.None? && b.None? then NoRecord
    else if b.None? then Found(a.value.0, 0, a.value.1)
    else if a.None? then Found(b.value.0, 1, b.value.1)
    else if a.value.0 == b.value.0 then Ambiguous
    else if a.value.0 > b.value.0 then Found(a.value.0, 0, a.value.1)
    else Found(b.value.0, 1, b.value.1)
  }

  /** A record is found exactly in the slot that is valid and newer than the
      other, if that is valid too; two of one generation are ambiguous. */
  lemma ReadIff(slots: seq<Record>, generation: nat, index: nat, v: Value)
    requires |slots| == 2
    ensures Read(slots) == Found(generation, index, v) <==>
              && index < 2 && Decode(slots[index]) == Some((generation, v))
              && var other := Decode(slots[1 - index]); other.Some? ==> other.value.0 < generation
    ensures Read(slots) == NoRecord <==> Decode(slots[0]).None? && Decode(slots[1]).None?
  {
    hide Decode, Newer;
    NewerIff(Decode(slots[0]), Decode(slots[1]), generation, index, v);
  }

  lemma NewerIff(a: Option<(nat, Value)>, b: Option<(nat, Value)>, generation: nat, index: nat, v: Value)
    ensures Newer(a, b) == Found(generation, index, v) <==>
              || (index == 0 && a == Some((generation, v)) && (b.Some? ==> b.value.0 < generation))
              || (index == 1 && b == Some((generation, v)) && (a.Some? ==> a.value.0 < generation))
    ensures Newer(a, b) == NoRecord <==> a.None? && b.None?
  {}

  /** The slot with the body its checksum belongs to: what its header is for. */
  function Filled(r: Record): Record {
    if r.checksum.Sum? && |r.checksum.payload| <= BODY then r.(body := Padded(r.checksum.payload)) else r
  }

  /** A valid record is what its own header is for. */
  lemma FilledValid(r: Record)
    requires Decode(r).Some?
    ensures Filled(r) == r
  {
    hide Parse, Render, HexValue, Padded;
  }

  /** The record in this slot, if there is one, is older than `generation`, and
      every checksum in it, even one left behind by an unfinished commit, has
      the parity of its place. */
  ghost predicate Stale(r: Record, index: nat, generation: nat) {
    Marked(r, index, generation) && (Decode(r).Some? ==> Decode(r).value.0 < generation)
  }

  ghost predicate Marked(r: Record, index: nat, generation: nat) {
    && Sized(r)
    && (r.checksum.Sum? ==> r.checksum.generation <= generation + 1 && Place(r.checksum.generation) == index)
  }

  /** The journal's value is `v`, in the slot its generation belongs to. */
  ghost predicate Says(slots: seq<Record>, generation: nat, v: Value) {
    && |slots| == 2 && Sized(slots[0]) && Sized(slots[1])
    && Decode(slots[Place(generation)]) == Some((generation, v))
    && Stale(slots[Other(generation)], Other(generation), generation)
  }

  /** A journal that was never initialized to the end. */
  ghost predicate Blank(slots: seq<Record>) {
    |slots| == 2 && forall i :: 0 <= i < 2 ==> Decode(slots[i]).None? && Sized(slots[i])
  }

  /** What a stale slot decodes to. */
  lemma StaleDecodes(r: Record, index: nat, generation: nat)
    requires Stale(r, index, generation)
    ensures Decode(r).Some? ==> Decode(r).value.0 < generation && Place(Decode(r).value.0) == index
  {
    hide Parse, Render, HexValue;
    if Decode(r).Some? { FilledValid(r); }
  }

  lemma ReadSays(slots: seq<Record>, generation: nat, v: Value)
    requires Says(slots, generation, v)
    ensures Read(slots) == Found(generation, Place(generation), v)
  {
    hide Decode, Stale, Place, Other, Render, Padded, Sized;
    StaleDecodes(slots[Other(generation)], Other(generation), generation);
    if Place(generation) == 0 { assert Other(generation) == 1; } else { assert Other(generation) == 0; }
  }

  lemma ReadBlank(slots: seq<Record>)
    requires Blank(slots)
    ensures Read(slots) == NoRecord
  {
    hide Decode;
    assert Decode(slots[0]).None? && Decode(slots[1]).None?;
  }

  /** In every reachable journal the record at place `i` has a generation of
      parity `i`, so no two records can claim the same generation. */
  lemma NeverAmbiguous(slots: seq<Record>, generation: nat, v: Value, i: nat)
    requires Says(slots, generation, v) && i < 2
    ensures Decode(slots[i]).Some? ==> Place(Decode(slots[i]).value.0) == i && Decode(slots[i]).value.0 <= generation
    ensures Read(slots) != Ambiguous
  {
    hide Decode, Stale, Place, Other, Read, Render, Padded, Sized;
    ReadSays(slots, generation, v);
    StaleDecodes(slots[Other(generation)], Other(generation), generation);
  }

  // ---------- commits and their tears ----------

  /** Each byte is the old one or the new one. */
  ghost predicate Mixed<T>(was: seq<T>, now: seq<T>, torn: seq<T>) {
    |torn| == |was| == |now| && forall i :: 0 <= i < |torn| ==> torn[i] == was[i] || torn[i] == now[i]
  }

  /** What a header write that stopped may leave: every field, and every digit,
      is the old one or the new one, each on its own. A mixture of two checksums
      is nobody's checksum. */
  ghost predicate Torn(was: Record, now: Record, torn: Record) {
    && torn.body == was.body == now.body && torn.frame in {was.frame, now.frame, false}
      && (was.frame && now.frame ==> torn.frame)
    && Mixed(was.generation, now.generation, torn.generation) && Mixed(was.length, now.length, torn.length)
    && torn.checksum in {was.checksum, now.checksum, Broken}
  }

  /** The header is whole and for a record at least this new, but another body
      is there. */
  ghost predicate Phantom(r: Record, generation: nat) {
    Decode(r).None? && Decode(Filled(r)).Some? && Decode(Filled(r)).value.0 >= generation
  }

  /** No commit after `generation` has left its checksum here. */
  ghost predicate Untouched(r: Record, generation: nat) {
    r.checksum.Sum? ==> r.checksum.generation != generation + 1
  }

  /** What commits of other values may have left in the slot does not get in the
      way of a commit of `w`: the checksum is for `w`, or the body is already
      that of `w`, or the header cannot be made whole by any body. */
  ghost predicate Harmless(r: Record, generation: nat, w: Value) {
    |Render(w)| <= BODY && (Untouched(r, generation)
      || r.checksum.payload == Render(w) || r.body == Padded(Render(w)) || Decode(Filled(r)).None?)
  }

  /** A body write that stops leaves the journal saying what it said, or the new
      value; and it can be tried again. */
  lemma TornBody(slots: seq<Record>, generation: nat, v: Value, w: Value, body: string)
    requires Says(slots, generation, v) && Harmless(slots[Other(generation)], generation, w)
    requires Mixed(slots[Other(generation)].body, Padded(Render(w)), body)
    ensures var torn := slots[Other(generation)].(body := body);
            SaysAfter(slots, generation, v, w, torn) && Harmless(torn, generation, w)
            && Marked(torn, Other(generation), generation)
  {
    hide Decode, Place, Other, Render, Padded, Says;
    SaysShape(slots, generation, v);
    var index := Other(generation);
    var r, torn := slots[index], slots[index].(body := body);
    SaysStale(slots, generation, v);
    BodyStale(r, index, generation, w, body);
    Settled(slots, generation, v, w, torn);
  }

  /** The new record is there, or the journal says what it said. */
  ghost predicate SaysAfter(slots: seq<Record>, generation: nat, v: Value, w: Value, torn: Record)
    requires |slots| == 2
  {
    var after := slots[Other(generation) := torn];
    if Decode(torn) == Some((generation + 1, w)) then Says(after, generation + 1, w) else Says(after, generation, v)
  }

  lemma SaysStale(slots: seq<Record>, generation: nat, v: Value)
    requires Says(slots, generation, v)
    ensures |slots| == 2 && Stale(slots[Other(generation)], Other(generation), generation)
  {}

  lemma SaysShape(slots: seq<Record>, generation: nat, v: Value)
    requires Says(slots, generation, v)
    ensures |slots| == 2 && Sized(slots[0]) && Sized(slots[1]) && |slots[0].body| == |slots[1].body| == BODY
  {}

  lemma BodyStale(r: Record, index: nat, generation: nat, w: Value, body: string)
    requires Stale(r, index, generation) && index == Other(generation) && Harmless(r, generation, w)
    requires Mixed(r.body, Padded(Render(w)), body)
    ensures var torn := r.(body := body);
            && (Decode(torn) == Some((generation + 1, w)) || Stale(torn, index, generation))
            && Harmless(torn, generation, w) && Marked(torn, index, generation)
  {
    hide Decode, Render, Padded, Mixed;
    var torn := r.(body := body);
    MixedSize(r.body, Padded(Render(w)), body);
    assert Filled(torn) == Filled(r) || !r.checksum.Sum? || |r.checksum.payload| > BODY;
    FilledGeneration(r);
    FilledGeneration(torn);
    if r.body == Padded(Render(w)) { MixedSelf(r.body, body); }
    if Decode(torn).Some? { FilledValid(torn); SamePayload(torn, w); }
  }

  /** Who decodes to the text of `w` decodes to `w`. */
  lemma SamePayload(r: Record, w: Value)
    requires Decode(r).Some? && |Render(w)| <= BODY
    ensures r.checksum.Sum? && (r.checksum.payload == Render(w) ==> Decode(r).value.1 == w)
    ensures r.body == Padded(Render(w)) ==> Decode(r).value.1 == w
  {
    hide Parse, Render, HexValue, Padded;
    if r.checksum.payload == Render(w) || r.body == Padded(Render(w)) { PaddedInjective(Decode(r).value.1, w); }
  }

  lemma MixedSelf<T>(was: seq<T>, torn: seq<T>)
    requires Mixed(was, was, torn)
    ensures torn == was
  {}

  lemma MixedSize<T>(was: seq<T>, now: seq<T>, torn: seq<T>)
    requires Mixed(was, now, torn)
    ensures |torn| == |was| == |now|
  {}

  /** What the slot holds decides what the journal says. */
  lemma Settled(slots: seq<Record>, generation: nat, v: Value, w: Value, torn: Record)
    requires Says(slots, generation, v)
    requires Decode(torn) == Some((generation + 1, w)) || Stale(torn, Other(generation), generation)
    ensures SaysAfter(slots, generation, v, w, torn)
  {
    hide Decode, Stale, Place, Other;
    if Decode(torn) == Some((generation + 1, w)) { Committed(slots, generation, v, w, torn); }
    else { StaleSized(torn, Other(generation), generation); }
  }

  lemma StaleSized(r: Record, index: nat, generation: nat)
    requires Stale(r, index, generation)
    ensures Sized(r)
  {}

  lemma RenderEnds(v: Value)
    ensures Render(v) != [] && Render(v)[|Render(v)| - 1] == '\n'
  {
    hide Decimal;
  }

  /** A body stands for one value only. */
  lemma PaddedInjective(v: Value, w: Value)
    requires |Render(v)| <= BODY && |Render(w)| <= BODY && Padded(Render(v)) == Padded(Render(w))
    ensures v == w
  {
    hide Render, Parse, Padded;
    var a, b := Render(v), Render(w);
    RenderEnds(v);
    RenderEnds(w);
    PaddedAt(a, |a| - 1);
    PaddedAt(a, |b| - 1);
    PaddedAt(b, |a| - 1);
    PaddedAt(b, |b| - 1);
    assert a == Padded(a)[..|a|] == b;
    ParseRender(v);
    ParseRender(w);
  }

  lemma PaddedAt(payload: string, i: nat)
    requires |payload| <= BODY && i < BODY
    ensures Padded(payload)[i] == if i < |payload| then payload[i] else '\0'
  {}

  /** A torn header over the finished body: the new record is there, or the slot
      is as stale as before, and the commit can be tried again. */
  lemma TornHeader(r: Record, index: nat, generation: nat, w: Value, torn: Record)
    requires Marked(r, index, generation) && index == Other(generation) && Encode(generation + 1, w).Some?
    requires Torn(r, Encode(generation + 1, w).value, torn)
    ensures Decode(torn) == Some((generation + 1, w)) || Stale(torn, index, generation)
    ensures Harmless(torn, generation, w)
  {
    hide Decode, Render, Hex, Padded, Encode, Mixed;
    EncodedFields(generation + 1, w);
    FilledGeneration(torn);
    TornSize(r, Encode(generation + 1, w).value, torn);
    NextPlace(generation);
    if Decode(torn).Some? { SamePayload(torn, w); }
  }

  lemma EncodedFields(generation: nat, w: Value)
    requires Encode(generation, w).Some?
    ensures |Render(w)| <= BODY && Encode(generation, w).value.checksum == Sum(generation, Render(w))
    ensures Encode(generation, w).value.body == Padded(Render(w)) && Encode(generation, w).value.frame
  {
    hide Render, Hex, Padded;
  }

  lemma FilledGeneration(r: Record)
    ensures Decode(r).Some? ==> r.checksum.Sum? && r.checksum.generation == Decode(r).value.0
    ensures Decode(r).Some? ==> |Render(Decode(r).value.1)| <= BODY && r.body == Padded(Render(Decode(r).value.1))
    ensures Decode(Filled(r)).Some? ==> r.checksum.Sum? && r.checksum.generation == Decode(Filled(r)).value.0
  {
    hide Parse, Render, HexValue, Padded;
  }

  /** Until the new record is there, the journal says what it said; and then it
      says the new value. */
  lemma UnfinishedCommit(slots: seq<Record>, generation: nat, v: Value, w: Value, half: Record, torn: Record)
    requires Says(slots, generation, v) && Encode(generation + 1, w).Some?
    requires Marked(half, Other(generation), generation) && Torn(half, Encode(generation + 1, w).value, torn)
    ensures SaysAfter(slots, generation, v, w, torn) && Harmless(torn, generation, w)
    ensures Untouched(half, generation) && Decode(torn) != Some((generation + 1, w)) ==>
              forall other :: Legal(other) ==> Harmless(torn, generation, other)
  {
    hide Decode, Encode, Stale, Torn, Place, Other, Harmless, Says, Untouched, Marked, Legal;
    var index := Other(generation);
    TornHeader(half, index, generation, w, torn);
    Settled(slots, generation, v, w, torn);
    if Untouched(half, generation) {
      forall other | Legal(other)
        ensures Decode(torn) == Some((generation + 1, w)) || Harmless(torn, generation, other)
      {
        RenderFits(other);
        OnceIsSafe(half, index, generation, w, torn, other);
      }
    }
  }

  /** The new record is there. */
  lemma Committed(slots: seq<Record>, generation: nat, v: Value, w: Value, r: Record)
    requires Says(slots, generation, v) && Decode(r) == Some((generation + 1, w))
    ensures Says(slots[Other(generation) := r], generation + 1, w)
  {
    hide Decode, Stale, Place, Other, Render, Padded;
    var index := Place(generation);
    NextPlace(generation);
    BecomesStale(slots[index], generation, v);
    if index == 0 { assert slots[1 := r][0] == slots[0]; } else { assert slots[0 := r][1] == slots[1]; }
  }

  lemma TornSize(was: Record, now: Record, torn: Record)
    requires Torn(was, now, torn)
    ensures Sized(torn) == Sized(was) == Sized(now)
  {}

  lemma EncodedBody(generation: nat, v: Value)
    requires Encode(generation, v).Some?
    ensures Sized(Encode(generation, v).value)
  {
    hide Render, Hex;
  }

  /** The slot that was current becomes the stale one. */
  lemma BecomesStale(r: Record, generation: nat, v: Value)
    requires Decode(r) == Some((generation, v))
    ensures Stale(r, Place(generation), generation + 1)
  {
    hide Parse, Render, HexValue;
    FilledValid(r);
    assert r.checksum == Sum(generation, Render(v));
  }

  /** Behind a new record nothing is underway. */
  lemma CommittedUntouched(slots: seq<Record>, generation: nat, v: Value, r: Record)
    requires Says(slots, generation, v)
    ensures Untouched(slots[Other(generation) := r][Other(generation + 1)], generation + 1)
  {
    hide Decode, Stale, Place, Other, Render, Padded, Sized;
    NextPlace(generation);
    FilledGeneration(slots[Place(generation)]);
  }

  /** Once the record is there, the journal says the new value. */
  lemma FinishedCommit(slots: seq<Record>, generation: nat, v: Value, w: Value)
    requires Says(slots, generation, v) && Legal(w) && generation + 1 < NUMBER_LIMIT
    ensures Encode(generation + 1, w).Some?
    ensures Says(slots[Other(generation) := Encode(generation + 1, w).value], generation + 1, w)
  {
    hide Decode, Encode, Stale, Says;
    DecodeEncode(generation + 1, w);
    EncodedBody(generation + 1, w);
    Committed(slots, generation, v, w, Encode(generation + 1, w).value);
  }

  /** A slot of a journal file that was just made. */
  function Empty(): (r: Record)
    ensures Sized(r) && Decode(r).None? && !r.checksum.Sum? && Filled(r) == r
  {
    Record(false, seq(GENERATION_DIGITS, _ => 16), seq(LENGTH_DIGITS, _ => 16), Broken, Zeros(BODY))
  }

  lemma FirstCommit()
    ensures Encode(0, Idle).Some? && Says([Encode(0, Idle).value, Empty()], 0, Idle)
  {
    hide Decode, Encode, Empty;
    DecodeEncode(0, Idle);
    EncodedBody(0, Idle);
  }

  /** The same for the very first record. */
  lemma UnfinishedFirst(r: Record, torn: Record)
    requires Encode(0, Idle).Some? && r == Empty().(body := r.body) && Torn(r, Encode(0, Idle).value, torn)
    ensures Sized(torn) && (Decode(torn).Some? ==> Says([torn, Empty()], 0, Idle))
  {
    hide Decode, Encode, Render, Padded, Empty, Mixed;
    EncodedFields(0, Idle);
    EncodedBody(0, Idle);
    FilledGeneration(torn);
    TornSize(r, Encode(0, Idle).value, torn);
    if Decode(torn).Some? { PaddedInjective(Decode(torn).value.1, Idle); }
  }

  // ---------- when a commit is atomic ----------

  /** Header bytes that reach the disk in order: no new checksum before the new
      generation and length, and the newline last of all. */
  ghost predicate InOrder(was: Record, now: Record, torn: Record) {
    && (torn.checksum == now.checksum && torn.checksum != was.checksum ==>
      torn.generation == now.generation && torn.length == now.length)
    && (torn.frame && !was.frame ==> torn == now)
  }

  /** A checksum left behind by an unfinished commit lacks its newline. */
  ghost predicate Tidy(r: Record, generation: nat) {
    r.checksum.Sum? && r.checksum.generation > generation ==> !r.frame
  }

  /** Header writes that are cut short in order never leave a phantom, however
      often that happens. */
  lemma InOrderIsSafe(r: Record, index: nat, generation: nat, w: Value, torn: Record)
    requires Stale(r, index, generation) && index == Other(generation) && Tidy(r, generation)
    requires Legal(w) && generation + 1 < NUMBER_LIMIT && Encode(generation + 1, w).Some?
    requires Torn(r, Encode(generation + 1, w).value, torn) && InOrder(r, Encode(generation + 1, w).value, torn)
    ensures !Phantom(torn, generation + 1) && (Decode(torn) == Some((generation + 1, w)) || Tidy(torn, generation))
  {
    hide Decode, Render, Hex, Padded, Encode, Mixed;
    DecodeEncode(generation + 1, w);
    EncodedFields(generation + 1, w);
    FilledGeneration(torn);
    FramedOnly(Filled(torn));
  }

  lemma FramedOnly(r: Record)
    ensures Decode(r).Some? ==> r.frame
  {}

  /** The first commit after `generation` that is cut short, in whatever way,
      leaves nothing that could get in the way of a commit of any other value. */
  lemma OnceIsSafe(r: Record, index: nat, generation: nat, w: Value, torn: Record, other: Value)
    requires Marked(r, index, generation) && index == Other(generation) && Encode(generation + 1, w).Some?
    requires Torn(r, Encode(generation + 1, w).value, torn) && Untouched(r, generation)
    requires |Render(other)| <= BODY
    ensures Decode(torn) == Some((generation + 1, w)) || Harmless(torn, generation, other)
  {
    hide Decode, Render, Hex, Padded, Encode, Mixed;
    EncodedFields(generation + 1, w);
    TornHeader(r, index, generation, w, torn);
    FilledGeneration(torn);
    if torn.checksum == Encode(generation + 1, w).value.checksum {
      assert Filled(torn) == torn;
      if Decode(torn).Some? { SamePayload(torn, w); }
    }
  }

  /** A slot that does not get in the way never makes a body write fall short of
      atomic. */
  lemma HarmlessAtomic(slots: seq<Record>, generation: nat, v: Value, w: Value)
    requires Says(slots, generation, v) && Harmless(slots[Other(generation)], generation, w)
    ensures forall body :: Mixed(slots[Other(generation)].body, Padded(Render(w)), body) ==>
              OldOrNew(slots, generation, v, w, body)
  {
    hide Decode, Render, Padded, Place, Other, Mixed, OldOrNew;
    var r := slots[Other(generation)];
    BodyAtomicIff(slots, generation, v, w);
    FilledGeneration(r);
    if Phantom(r, generation + 1) && Mixed(r.body, Padded(Render(w)), Filled(r).body) {
      if r.body == Padded(Render(w)) { MixedSelf(r.body, Filled(r).body); }
      SamePayload(Filled(r), w);
    }
  }

  /** Exactly when a commit's body write is atomic, for a stale slot in any
      condition: it is unless a phantom is there, for another value than the one
      to be written, and the bytes on disk can come together to its body. */
  lemma BodyAtomicIff(slots: seq<Record>, generation: nat, v: Value, w: Value)
    requires |slots| == 2 && Decode(slots[Place(generation)]) == Some((generation, v))
             && |slots[Other(generation)].body| == BODY
    requires |Render(w)| <= BODY
    requires var r := slots[Other(generation)];
             && (Decode(r).Some? ==> Decode(r).value.0 < generation)
             && (r.checksum.Sum? ==>
               r.checksum.generation <= generation + 1 && Place(r.checksum.generation) == Other(generation))
    ensures var r := slots[Other(generation)];
            (forall body :: Mixed(r.body, Padded(Render(w)), body) ==> OldOrNew(slots, generation, v, w, body))
            <==> (Phantom(r, generation + 1) && Mixed(r.body, Padded(Render(w)), Filled(r).body) ==>
              Decode(Filled(r)).value.1 == w)
  {
    hide Decode, Render, Padded, Place, Other;
    var r := slots[Other(generation)];
    FilledGeneration(r);
    if Decode(r).Some? { FilledValid(r); }
    forall body | Mixed(r.body, Padded(Render(w)), body)
      ensures OldOrNew(slots, generation, v, w, body)
              <==> !(Phantom(r, generation + 1) && body == Filled(r).body && Decode(Filled(r)).value.1 != w)
    {
      var s := r.(body := body);
      FilledGeneration(s);
      if Decode(s).Some? {
        FilledValid(s);
        assert Filled(s) == Filled(r);
      }
      if Phantom(r, generation + 1) && body == Filled(r).body { assert s == Filled(r); }
    }
  }

  /** The journal reads as the old value or the new one. */
  ghost predicate OldOrNew(slots: seq<Record>, generation: nat, v: Value, w: Value, body: string)
    requires |slots| == 2
  {
    var stale := Other(generation);
    Read(slots[stale := slots[stale].(body := body)]) in {Found(generation, Place(generation), v),
      Found(generation + 1, stale, w)}
  }

  // ---------- a journal that reads as neither ----------

  function Work(n: nat): Value { Building(Inode(1, n)) }

  function WorkHead(): string { BuildingHead() + "1" + ",\"work_ino\":" }

  lemma WorkText(n: nat)
    requires 10 <= n < 100
    ensures Render(Work(n)) == WorkHead() + [Digit(n / 10), Digit(n % 10)] + "}\n" && |Render(Work(n))| <= BODY
  {
    RenderFits(Work(n));
    hide BuildingHead;
    assert Decimal(1) == "1" && Decimal(n / 10) == [Digit(n / 10)];
    assert Decimal(n) == [Digit(n / 10), Digit(n % 10)];
  }

  /** Cut short once: the length is still missing, the checksum is there. */
  ghost function CutOnce(): Record
  {
    Record(true, Hex(1, GENERATION_DIGITS), Empty().length, Sum(1, Render(Work(22))), Empty().body)
  }

  /** Cut short again, over another body: the length is there, the checksum is
      still the one before. */
  ghost function CutTwice(): Record {
    CutOnce().(length := Hex(|Render(Work(12))|, LENGTH_DIGITS))
  }

  /** Byte by byte, the bodies differ in two digits only. */
  lemma WorkAt(n: nat, i: nat)
    requires 10 <= n < 100 && i < BODY
    ensures |Render(Work(n))| == |WorkHead()| + 4 <= BODY
    ensures Padded(Render(Work(n)))[i] ==
            if i < |WorkHead()| then WorkHead()[i]
            else if i == |WorkHead()| then Digit(n / 10)
            else if i == |WorkHead()| + 1 then Digit(n % 10)
            else if i < |WorkHead()| + 4 then "}\n"[i - |WorkHead()| - 2]
            else '\0'
  {
    hide Render, WorkHead, BuildingHead, Padded;
    WorkText(n);
    PaddedAt(Render(Work(n)), i);
  }

  lemma WorkTexts()
    ensures |Render(Work(22))| == |Render(Work(12))| == |Render(Work(21))| <= BODY
    ensures Work(22) != Work(12) && Work(22) != Work(21)
    ensures Mixed(Padded(Render(Work(12))), Padded(Render(Work(21))), Padded(Render(Work(22))))
  {
    hide Render, WorkHead, BuildingHead, Padded;
    WorkAt(12, 0);
    WorkAt(21, 0);
    WorkAt(22, 0);
    var a, b, c := Padded(Render(Work(12))), Padded(Render(Work(21))), Padded(Render(Work(22)));
    forall i | 0 <= i < BODY ensures c[i] == a[i] || c[i] == b[i] {
      WorkAt(12, i);
      WorkAt(21, i);
      WorkAt(22, i);
    }
  }

  lemma TornOnce()
    requires Encode(1, Work(22)).Some?
    ensures var body := Padded(Render(Work(22)));
            && Torn(Empty().(body := body), Encode(1, Work(22)).value, CutOnce().(body := body))
            && Decode(CutOnce().(body := body)).None?
  {
    hide Render, Padded, Hex;
    assert Empty().length[0] == 16;
  }

  lemma TornTwice()
    requires Encode(1, Work(12)).Some? && |Render(Work(12))| <= BODY
    ensures var body := Padded(Render(Work(12)));
            && Torn(CutOnce().(body := body), Encode(1, Work(12)).value, CutTwice().(body := body))
            && Decode(CutTwice().(body := body)).None?
  {
    hide Render, Hex, Padded, Parse;
    var r := CutTwice().(body := Padded(Render(Work(12))));
    FilledGeneration(r);
    if Decode(r).Some? {
      FilledValid(r);
      PaddedInjective(Decode(r).value.1, Work(12));
      RendersApart();
    }
  }

  lemma RendersApart()
    ensures Render(Work(22)) != Render(Work(12))
  {
    hide Render, Parse;
    ParseRender(Work(22));
    ParseRender(Work(12));
  }

  /** If header fields may reach the disk in any order, three stops in a row
      are enough for the journal to read as a value that is neither the old one
      nor the one being written: two headers cut short leave the checksum of the
      first with the length of the second, and a body cut short brings the first
      body back. */
  lemma NeitherOldNorNew()
    ensures |Render(Work(22))| == |Render(Work(12))| == |Render(Work(21))| <= BODY
    ensures Encode(0, Idle).Some? && Encode(1, Work(22)).Some? && Encode(1, Work(12)).Some?
    ensures var first, one, two := Encode(0, Idle).value, Padded(Render(Work(22))), Padded(Render(Work(12)));
            && Torn(Empty().(body := one), Encode(1, Work(22)).value, CutOnce().(body := one))
            && Read([first, CutOnce().(body := one)]) == Found(0, 0, Idle)
            && Torn(CutOnce().(body := two), Encode(1, Work(12)).value, CutTwice().(body := two))
            && Read([first, CutTwice().(body := two)]) == Found(0, 0, Idle)
            && Mixed(two, Padded(Render(Work(21))), one)
            && Read([first, CutTwice().(body := one)]) == Found(1, 1, Work(22))
  {
    hide Render, Hex, Padded, Decode, Torn, Mixed, Empty, CutOnce;
    WorkTexts();
    DecodeEncode(0, Idle);
    DecodeEncode(1, Work(22));
    DecodeEncode(1, Work(12));
    TornOnce();
    TornTwice();
    CutThenWhole();
  }

  lemma CutThenWhole()
    requires |Render(Work(22))| == |Render(Work(12))| <= BODY && Encode(1, Work(22)).Some?
    ensures CutTwice().(body := Padded(Render(Work(22)))) == Encode(1, Work(22)).value
  {
    hide Render, Hex, Padded, Empty;
  }
}

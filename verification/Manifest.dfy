/** The campaign manifest: rendering and parsing undo each other. */
module Manifest {
  import opened Decimals
  import opened Options

  // ---------- splitting and joining ----------

  function Join(parts: seq<string>, sep: char): string
    requires parts != []
  {
    if |parts| == 1 then parts[0] else parts[0] + [sep] + Join(parts[1..], sep)
  }

  function Split(s: string, sep: char): (r: seq<string>)
    ensures r != []
  {
    if s == [] then [[]]
    else
      var rest := Split(s[1..], sep);
      if s[0] == sep then [[]] + rest else [[s[0]] + rest[0]] + rest[1..]
  }

  ghost predicate Free(s: string, sep: char) {
    sep !in s
  }

  ghost predicate AllFree(parts: seq<string>, sep: char) {
    forall i :: 0 <= i < |parts| ==> Free(parts[i], sep)
  }

  lemma {:induction false} SplitFree(s: string, sep: char)
    requires Free(s, sep)
    ensures Split(s, sep) == [s]
  {
    if s != [] {
      SplitFree(s[1..], sep);
      assert [s[0]] + s[1..] == s;
    }
  }

  lemma {:induction false} SplitAt(a: string, rest: string, sep: char)
    requires Free(a, sep)
    ensures Split(a + [sep] + rest, sep) == [a] + Split(rest, sep)
  {
    var s := a + [sep] + rest;
    if a == [] {
      assert s[1..] == rest;
    } else {
      assert s[1..] == a[1..] + [sep] + rest;
      SplitAt(a[1..], rest, sep);
      assert [a[0]] + a[1..] == a;
    }
  }

  lemma {:induction false} SplitJoin(parts: seq<string>, sep: char)
    requires parts != [] && AllFree(parts, sep)
    ensures Split(Join(parts, sep), sep) == parts
  {
    if |parts| == 1 {
      SplitFree(parts[0], sep);
      assert [parts[0]] == parts;
    } else {
      SplitJoin(parts[1..], sep);
      SplitAt(parts[0], Join(parts[1..], sep), sep);
      assert [parts[0]] + parts[1..] == parts;
    }
  }

  /** A text entered in the middle has fewer fields, or is still in its first. */
  lemma {:induction false} SplitDrop(s: string, sep: char, i: nat)
    requires i <= |s|
    ensures var f, g := Split(s, sep), Split(s[i..], sep);
            |g| <= |f| && (|g| == |f| ==> i <= |f[0]| && g[0] == f[0][i..] && g[1..] == f[1..])
  {
    var f := Split(s, sep);
    if i == 0 {
      assert s[0..] == s && f[0][0..] == f[0];
    } else {
      var rest := s[1..];
      assert rest[i - 1..] == s[i..];
      SplitDrop(rest, sep, i - 1);
      if s[0] != sep {
        var h := Split(rest, sep);
        assert f[0] == [s[0]] + h[0] && f[1..] == h[1..];
        if i - 1 <= |h[0]| { assert f[0][i..] == h[0][i - 1..]; }
      }
    }
  }

  // ---------- metadata and tests ----------

  datatype Metadata = Metadata(
    source: string, revision: string, architecture: string, compiler: string, libc: string,
    patch: string, buildResults: string, manifest: string, commit: string)

  datatype Test = Test(
    id: string, group: string, api: string, kind: string, disposition: string, binary: string, timeout: nat,
      digest: string)

  const HEADER: string := "SMROS_POSIX_MANIFEST\t1"
  const MANIFEST_KEY: string := "manifest_sha256"
  const KEYS: seq<string> := ["source", "revision", "architecture", "compiler", "libc", "patch_sha256",
    "build_results_sha256",
    MANIFEST_KEY, "smros_commit"]
  const MANIFEST_INDEX: nat := 7
  const MAX_BYTES: nat := 2 * 1024 * 1024
  const MAX_TESTS: nat := 4096
  const MAX_TIMEOUT: nat := 0x7fff_ffff

  function Values(m: Metadata): seq<string> {
    [m.source, m.revision, m.architecture, m.compiler, m.libc, m.patch, m.buildResults, m.manifest, m.commit]
  }

  /** Nonempty and printable, so free of tabs and line ends. */
  predicate Atom(s: string) {
    s != [] && forall i :: 0 <= i < |s| ==> ' ' <= s[i] <= '~'
  }

  lemma AtomFree(s: string)
    requires Atom(s)
    ensures Free(s, '\t') && Free(s, '\n') && Free(s, '\r')
  {}

  predicate ValidMetadata(m: Metadata) {
    forall i :: 0 <= i < |Values(m)| ==> Atom(Values(m)[i])
  }

  predicate ValidTest(t: Test) {
    && Atom(t.id) && Atom(t.group) && Atom(t.api) && Atom(t.kind) && Atom(t.disposition) && Atom(t.binary)
      && Atom(t.digest)
    && 0 < t.timeout <= MAX_TIMEOUT
  }

  function Numeral(s: string): Option<nat> {
    if s == [] || exists c :: c in s && !IsDigit(c) then None else Some(Number(s))
  }

  lemma NumeralDecimal(n: nat)
    ensures Numeral(Decimal(n)) == Some(n) && Free(Decimal(n), '\t') && Free(Decimal(n), '\n') && Free(Decimal(n), '\r')
  {
    NumberDecimal(n);
  }

  function MetaLine(key: string, value: string): string {
    Join(["meta", key, value], '\t')
  }

  function TestLine(t: Test): string {
    Join(["test", t.id, t.group, t.api, t.kind, t.disposition, t.binary, Decimal(t.timeout), t.digest], '\t')
  }

  function MetaLines(m: Metadata): seq<string> {
    seq(|KEYS|, i requires 0 <= i < |KEYS| => MetaLine(KEYS[i], Values(m)[i]))
  }

  function TestLines(tests: seq<Test>): seq<string> {
    seq(|tests|, i requires 0 <= i < |tests| => TestLine(tests[i]))
  }

  function Lines(m: Metadata, tests: seq<Test>): seq<string> {
    [HEADER] + MetaLines(m) + TestLines(tests)
  }

  /** The text of a manifest: each line with its end. */
  function Text(m: Metadata, tests: seq<Test>): string {
    Join(Lines(m, tests), '\n') + "\n"
  }

  // ---------- taking the digest out of the text ----------

  ghost predicate Occurs(s: string, pattern: string, i: nat) {
    i + |pattern| <= |s| && s[i..i + |pattern|] == pattern
  }

  /** The first place at or after `i` where the pattern occurs. */
  function Find(s: string, pattern: string, i: nat): (r: Option<nat>)
    requires i <= |s|
    ensures r.Some? ==> i <= r.value && Occurs(s, pattern, r.value) && forall k :: i <= k < r.value ==>
            !Occurs(s, pattern, k)
    ensures r.None? ==> forall k :: i <= k <= |s| ==> !Occurs(s, pattern, k)
    decreases |s| - i
  {
    if i + |pattern| <= |s| && s[i..i + |pattern|] == pattern then Some(i)
    else if i == |s| then None
    else Find(s, pattern, i + 1)
  }

  /** The text with the first occurrence replaced. */
  function ReplaceFirst(s: string, pattern: string, replacement: string): string {
    var at := Find(s, pattern, 0);
    if at.None? then s else s[..at.value] + replacement + s[at.value + |pattern|..]
  }

  function FirstEnd(s: string): nat {
    if s == [] || s[0] == '\n' then 0 else 1 + FirstEnd(s[1..])
  }

  lemma {:induction false} FirstEndIs(line: string, rest: string)
    requires Free(line, '\n')
    ensures FirstEnd(line + "\n" + rest) == |line|
  {
    var s := line + "\n" + rest;
    if line != [] {
      assert s[1..] == line[1..] + "\n" + rest;
      FirstEndIs(line[1..], rest);
    }
  }

  /** A whole line can only occur at the end of a line. */
  lemma LineOccurs(line: string, rest: string, pattern: string, i: nat)
    requires Free(line, '\n') && Free(pattern, '\n') && i <= |line| && Occurs(line + "\n" + rest, pattern + "\n", i)
    ensures line[i..] == pattern
  {
    var s, p := line + "\n" + rest, pattern + "\n";
    var from := s[i..];
    assert from == line[i..] + "\n" + rest;
    assert from[..|p|] == p;
    assert from == pattern + "\n" + from[|p|..];
    FirstEndIs(line[i..], rest);
    FirstEndIs(pattern, from[|p|..]);
    assert line[i..] == from[..|line| - i] && pattern == from[..|pattern|];
  }

  /** Text lines with their ends. */
  function Ended(lines: seq<string>): string {
    if lines == [] then [] else lines[0] + "\n" + Ended(lines[1..])
  }

  lemma {:induction false} EndedConcat(a: seq<string>, b: seq<string>)
    ensures Ended(a + b) == Ended(a) + Ended(b)
  {
    if a == [] {
      assert a + b == b;
    } else {
      assert (a + b)[1..] == a[1..] + b;
      EndedConcat(a[1..], b);
    }
  }

  lemma {:induction false} JoinEnded(lines: seq<string>)
    requires lines != []
    ensures Join(lines, '\n') + "\n" == Ended(lines)
  {
    if |lines| == 1 {
      assert lines[1..] == [];
    } else {
      JoinEnded(lines[1..]);
    }
  }

  ghost predicate NoneEndsIn(lines: seq<string>, pattern: string) {
    forall j, o :: 0 <= j < |lines| && 0 <= o <= |lines[j]| ==> lines[j][o..] != pattern
  }

  /** Where a line first occurs in a text none of whose earlier lines ends in it. */
  lemma {:induction false} FirstLine(before: seq<string>, pattern: string, after: seq<string>, k: nat)
    requires AllFree(before, '\n') && Free(pattern, '\n') && NoneEndsIn(before, pattern) && k < |Ended(before)|
    ensures !Occurs(Ended(before) + Ended([pattern] + after), pattern + "\n", k)
  {
    var rest, p := Ended(before[1..]) + Ended([pattern] + after), pattern + "\n";
    var text := Ended(before) + Ended([pattern] + after);
    assert text == before[0] + "\n" + rest;
    if k <= |before[0]| {
      if Occurs(text, p, k) { LineOccurs(before[0], rest, pattern, k); }
    } else {
      var j := k - |before[0]| - 1;
      if k + |p| <= |text| { assert rest[j..j + |p|] == text[k..k + |p|]; }
      FirstLine(before[1..], pattern, after, j);
    }
  }

  lemma EndedSplit(before: seq<string>, line: string, after: seq<string>)
    ensures Ended([line] + after) == line + "\n" + Ended(after)
    ensures Ended(before + [line] + after) == Ended(before) + (line + "\n") + Ended(after)
  {
    assert ([line] + after)[1..] == after;
    EndedConcat(before, [line] + after);
    assert before + [line] + after == before + ([line] + after);
    assert Ended(before) + (line + "\n" + Ended(after)) == Ended(before) + (line + "\n") + Ended(after);
  }

  /** So replacing the first occurrence of the line replaces the line. */
  lemma ReplaceLine(before: seq<string>, pattern: string, replacement: string, after: seq<string>)
    requires AllFree(before, '\n') && Free(pattern, '\n') && NoneEndsIn(before, pattern)
    ensures ReplaceFirst(Ended(before + [pattern] + after), pattern + "\n", replacement + "\n")
            == Ended(before + [replacement] + after)
  {
    hide ReplaceFirst, Occurs, Ended, Free, AllFree, NoneEndsIn;
    EndedSplit(before, pattern, after);
    EndedSplit(before, replacement, after);
    var a, p, b := Ended(before), pattern + "\n", Ended(after);
    assert a + Ended([pattern] + after) == a + p + b;
    forall k | 0 <= k < |a| ensures !Occurs(a + p + b, p, k) { FirstLine(before, pattern, after, k); }
    ReplaceAt(a, p, replacement + "\n", b);
  }

  lemma ReplaceAt(a: string, p: string, r: string, b: string)
    requires forall k :: 0 <= k < |a| ==> !Occurs(a + p + b, p, k)
    ensures ReplaceFirst(a + p + b, p, r) == a + r + b
  {
    hide Find;
    var text := a + p + b;
    assert text[|a|..|a| + |p|] == p;
    assert Occurs(text, p, |a|);
    assert Find(text, p, 0) == Some(|a|);
    assert text[..|a|] == a && text[|a| + |p|..] == b;
  }

  /** A line that ends in the digest's own line has its key. */
  lemma OtherLine(key: string, value: string, digest: string, o: nat)
    requires Free(key, '\t') && Free(value, '\t') && Free(digest, '\t') && o <= |MetaLine(key, value)|
    ensures MetaLine(key, value)[o..] == MetaLine(MANIFEST_KEY, digest) ==> key == MANIFEST_KEY
  {
    hide Split, Join;
    var line, pattern := MetaLine(key, value), MetaLine(MANIFEST_KEY, digest);
    var f, g := ["meta", key, value], ["meta", MANIFEST_KEY, digest];
    SplitJoin(f, '\t');
    SplitJoin(g, '\t');
    SplitDrop(line, '\t', o);
    if line[o..] == pattern {
      assert g[1..] == f[1..];
      assert g[1..][0] == MANIFEST_KEY && f[1..][0] == key;
    }
  }

  lemma HeaderLine(digest: string, o: nat)
    requires Free(digest, '\t') && o <= |HEADER|
    ensures HEADER[o..] != MetaLine(MANIFEST_KEY, digest)
  {
    hide Split, Join;
    var g, h := ["meta", MANIFEST_KEY, digest], ["SMROS_POSIX_MANIFEST", "1"];
    SplitJoin(g, '\t');
    SplitJoin(h, '\t');
    assert HEADER == Join(h, '\t') by { HeaderText(); }
    SplitDrop(HEADER, '\t', o);
  }

  lemma HeaderText()
    ensures HEADER == Join(["SMROS_POSIX_MANIFEST", "1"], '\t')
  {
    assert ["SMROS_POSIX_MANIFEST", "1"][1..] == ["1"];
  }

  const EMPTY_DIGEST: string := seq(64, _ => '0')

  lemma {:induction false} JoinFree(parts: seq<string>, sep: char, c: char)
    requires parts != [] && sep != c && AllFree(parts, c)
    ensures Free(Join(parts, sep), c)
  {
    if |parts| > 1 { JoinFree(parts[1..], sep, c); }
  }

  lemma KeysFree(i: nat)
    requires i < |KEYS|
    ensures Atom(KEYS[i]) && Free(KEYS[i], '\t') && Free(KEYS[i], '\n') && Free(KEYS[i], '\r')
            && (KEYS[i] == MANIFEST_KEY <==> i == MANIFEST_INDEX)
  {
    assert |KEYS[0]| == 6 && |KEYS[1]| == 8 && |KEYS[2]| == 12 && |KEYS[5]| == 12 && |KEYS[6]| == 20;
  }

  lemma MetaLineFree(key: string, value: string, c: char)
    requires Free(key, c) && Free(value, c) && c in {'\n', '\r'}
    ensures Free(MetaLine(key, value), c)
  {
    JoinFree(["meta", key, value], '\t', c);
  }

  /** Zeroing the digest touches only the digest's own line. */
  lemma ZeroedDigest(m: Metadata, tests: seq<Test>)
    requires ValidMetadata(m)
    ensures ReplaceFirst(Text(m, tests), MetaLine(MANIFEST_KEY, m.manifest) + "\n",
            MetaLine(MANIFEST_KEY, EMPTY_DIGEST) + "\n")
         == Text(m.(manifest := EMPTY_DIGEST), tests)
  {
    hide MetaLine, ReplaceFirst, TestLines, Atom;
    var zeroed := m.(manifest := EMPTY_DIGEST);
    var metas, zeros := MetaLines(m), MetaLines(zeroed);
    var before, after := [HEADER] + metas[..MANIFEST_INDEX], metas[MANIFEST_INDEX + 1..] + TestLines(tests);
    assert forall i :: 0 <= i < |KEYS| && i != MANIFEST_INDEX ==> Values(m)[i] == Values(zeroed)[i];
    assert metas[..MANIFEST_INDEX] == zeros[..MANIFEST_INDEX]
      && metas[MANIFEST_INDEX + 1..] == zeros[MANIFEST_INDEX + 1..];
    var pattern, replacement := metas[MANIFEST_INDEX], zeros[MANIFEST_INDEX];
    assert pattern == MetaLine(MANIFEST_KEY, m.manifest) && replacement == MetaLine(MANIFEST_KEY, EMPTY_DIGEST);
    assert Lines(m, tests) == before + [pattern] + after && Lines(zeroed, tests) == before + [replacement] + after;
    BeforeDigest(m, before, pattern);
    JoinEnded(Lines(m, tests));
    JoinEnded(Lines(zeroed, tests));
    ReplaceLine(before, pattern, replacement, after);
  }

  lemma BeforeDigest(m: Metadata, before: seq<string>, pattern: string)
    requires ValidMetadata(m) && before == [HEADER] + MetaLines(m)[..MANIFEST_INDEX]
             && pattern == MetaLine(MANIFEST_KEY, m.manifest)
    ensures AllFree(before, '\n') && Free(pattern, '\n') && NoneEndsIn(before, pattern)
  {
    hide MetaLine, Atom;
    AtomFree(Values(m)[MANIFEST_INDEX]);
    KeysFree(MANIFEST_INDEX);
    MetaLineFree(MANIFEST_KEY, m.manifest, '\n');
    forall j | 0 <= j < |before| ensures Free(before[j], '\n') {
      if j > 0 {
        AtomFree(Values(m)[j - 1]);
        KeysFree(j - 1);
        MetaLineFree(KEYS[j - 1], Values(m)[j - 1], '\n');
      }
    }
    forall j, o | 0 <= j < |before| && 0 <= o <= |before[j]| ensures before[j][o..] != pattern {
      if j == 0 {
        HeaderLine(m.manifest, o);
      } else {
        AtomFree(Values(m)[j - 1]);
        KeysFree(j - 1);
        OtherLine(KEYS[j - 1], Values(m)[j - 1], m.manifest, o);
      }
    }
  }

  // ---------- reading the rows ----------

  datatype Rows = Rows(keys: seq<string>, values: seq<string>, tests: seq<Test>)

  function ReadTest(fields: seq<string>): Option<Test>
    requires |fields| == 9
  {
    var timeout := Numeral(fields[7]);
    if timeout.None? || Decimal(timeout.value) != fields[7] || !(0 < timeout.value <= MAX_TIMEOUT) then None
    else Some(Test(fields[1], fields[2], fields[3], fields[4], fields[5], fields[6], timeout.value, fields[8]))
  }

  function ReadRow(r: Rows, line: string): Option<Rows> {
    var fields := Split(line, '\t');
    if fields[0] == "meta" then
      if r.tests != [] || |fields| != 3 || fields[1] !in KEYS || fields[1] in r.keys then None
      else Some(Rows(r.keys + [fields[1]], r.values + [fields[2]], r.tests))
    else if fields[0] == "test" && |fields| == 9 then
      var t := ReadTest(fields);
      if t.None? then None else Some(r.(tests := r.tests + [t.value]))
    else None
  }

  function ReadRows(lines: seq<string>): Option<Rows> {
    if lines == [] then Some(Rows([], [], []))
    else
      var r := ReadRows(lines[..|lines| - 1]);
      if r.None? then None else ReadRow(r.value, lines[|lines| - 1])
  }

  lemma ReadMeta(r: Rows, i: nat, value: string)
    requires i < |KEYS| && r.tests == [] && r.keys == KEYS[..i] && Free(value, '\t')
    ensures ReadRow(r, MetaLine(KEYS[i], value)) == Some(Rows(KEYS[..i + 1], r.values + [value], []))
  {
    hide Split, Join;
    KeysFree(i);
    SplitJoin(["meta", KEYS[i], value], '\t');
    assert KEYS[..i] + [KEYS[i]] == KEYS[..i + 1];
    KeysDistinct(i);
  }

  lemma KeysDistinct(i: nat)
    requires i < |KEYS|
    ensures KEYS[i] !in KEYS[..i]
  {
    assert |KEYS[0]| == 6 && |KEYS[1]| == 8 && |KEYS[2]| == 12 && |KEYS[3]| == 8 && |KEYS[4]| == 4 && |KEYS[5]| == 12
        && |KEYS[6]| == 20 && |KEYS[7]| == 15 && |KEYS[8]| == 12;
    assert KEYS[1][0] == 'r' && KEYS[3][0] == 'c' && KEYS[2][0] == 'a' && KEYS[5][0] == 'p' && KEYS[8][0] == 's';
  }

  lemma ReadTestLine(r: Rows, t: Test)
    requires ValidTest(t)
    ensures ReadRow(r, TestLine(t)) == Some(r.(tests := r.tests + [t]))
  {
    hide Split, Join, Atom;
    var fields := ["test", t.id, t.group, t.api, t.kind, t.disposition, t.binary, Decimal(t.timeout), t.digest];
    AtomFree(t.id); AtomFree(t.group); AtomFree(t.api); AtomFree(t.kind);
    AtomFree(t.disposition); AtomFree(t.binary); AtomFree(t.digest);
    NumeralDecimal(t.timeout);
    SplitJoin(fields, '\t');
  }

  lemma {:induction false} ReadMetas(m: Metadata, i: nat)
    requires ValidMetadata(m) && i <= |KEYS|
    ensures ReadRows(MetaLines(m)[..i]) == Some(Rows(KEYS[..i], Values(m)[..i], []))
  {
    hide MetaLine, ReadRow, Atom;
    if i > 0 {
      ReadMetas(m, i - 1);
      var lines := MetaLines(m)[..i];
      assert lines[..i - 1] == MetaLines(m)[..i - 1] && lines[i - 1] == MetaLine(KEYS[i - 1], Values(m)[i - 1]);
      AtomFree(Values(m)[i - 1]);
      ReadMeta(Rows(KEYS[..i - 1], Values(m)[..i - 1], []), i - 1, Values(m)[i - 1]);
      assert Values(m)[..i - 1] + [Values(m)[i - 1]] == Values(m)[..i];
    }
  }

  lemma {:induction false} ReadTests(m: Metadata, tests: seq<Test>)
    requires ValidMetadata(m) && forall i :: 0 <= i < |tests| ==> ValidTest(tests[i])
    ensures ReadRows(MetaLines(m) + TestLines(tests)) == Some(Rows(KEYS, Values(m), tests))
  {
    hide MetaLine, TestLine, ReadRow, ValidTest, Values;
    if tests == [] {
      ReadMetas(m, |KEYS|);
      assert MetaLines(m) + TestLines(tests) == MetaLines(m)[..|KEYS|];
      AllValues(m);
    } else {
      var n := |tests| - 1;
      ReadTests(m, tests[..n]);
      var lines := MetaLines(m) + TestLines(tests);
      assert lines[..|lines| - 1] == MetaLines(m) + TestLines(tests[..n]);
      assert lines[|lines| - 1] == TestLine(tests[n]);
      ReadTestLine(Rows(KEYS, Values(m), tests[..n]), tests[n]);
      assert tests[..n] + [tests[n]] == tests;
    }
  }

  lemma AllValues(m: Metadata)
    ensures KEYS[..|KEYS|] == KEYS && |Values(m)| == |KEYS| && Values(m)[..|KEYS|] == Values(m)
  {}

  // ---------- the order of tests ----------

  predicate Less(a: string, b: string) {
    b != [] && (a == [] || a[0] < b[0] || (a[0] == b[0] && Less(a[1..], b[1..])))
  }

  lemma {:induction false} LessTotal(a: string, b: string)
    ensures !(Less(a, b) && Less(b, a)) && (Less(a, b) || Less(b, a) || a == b)
  {
    if a != [] && b != [] {
      LessTotal(a[1..], b[1..]);
      if a[0] == b[0] && a[1..] == b[1..] { assert a == [a[0]] + a[1..] && b == [b[0]] + b[1..]; }
    }
  }

  /** Ids are ordered by the first character in which they differ, a shorter one
      before all that it begins. */
  lemma {:induction false} LessIff(a: string, b: string)
    ensures Less(a, b) <==> exists k: nat :: Differs(a, b, k)
  {
    if a != [] && b != [] && a[0] == b[0] {
      LessIff(a[1..], b[1..]);
      if Less(a, b) {
        var k: nat :| Differs(a[1..], b[1..], k);
        assert a[..k + 1] == [a[0]] + a[1..][..k] && b[..k + 1] == [b[0]] + b[1..][..k];
        assert Differs(a, b, k + 1);
      }
      if exists k :: Differs(a, b, k) {
        var k: nat :| Differs(a, b, k);
        assert a[..k][1..] == a[1..][..k - 1] && b[..k][1..] == b[1..][..k - 1];
        assert Differs(a[1..], b[1..], k - 1);
      }
    } else if b != [] {
      if Less(a, b) {
        assert a[..0] == b[..0];
        assert Differs(a, b, 0);
      } else {
        forall k: nat ensures !Differs(a, b, k) {
          if 0 < k <= |a| && k <= |b| { assert a[..k][0] == a[0] && b[..k][0] == b[0]; }
        }
      }
    }
  }

  ghost predicate Differs(a: string, b: string, k: nat) {
    k <= |a| && k < |b| && a[..k] == b[..k] && (k == |a| || a[k] < b[k])
  }

  ghost predicate InOrder(tests: seq<Test>) {
    forall i :: 0 < i < |tests| ==> Less(tests[i - 1].id, tests[i].id)
  }

  function Insert(t: Test, tests: seq<Test>): seq<Test> {
    if tests == [] then [t]
    else
      var last := tests[|tests| - 1];
      if Less(t.id, last.id) then Insert(t, tests[..|tests| - 1]) + [last] else tests + [t]
  }

  function Sort(tests: seq<Test>): seq<Test> {
    if tests == [] then [] else Insert(tests[|tests| - 1], Sort(tests[..|tests| - 1]))
  }

  lemma {:induction false} InsertPermutes(t: Test, tests: seq<Test>)
    ensures multiset(Insert(t, tests)) == multiset(tests) + multiset{t} && |Insert(t, tests)| == |tests| + 1
  {
    hide Less;
    if tests != [] {
      var before, last := tests[..|tests| - 1], tests[|tests| - 1];
      InsertPermutes(t, before);
      assert multiset(before + [last]) == multiset(before) + multiset{last};
      assert tests == before + [last];
    }
  }

  lemma {:induction false} SortPermutes(tests: seq<Test>)
    ensures multiset(Sort(tests)) == multiset(tests)
  {
    hide Insert;
    if tests != [] {
      var before, last := tests[..|tests| - 1], tests[|tests| - 1];
      SortPermutes(before);
      InsertPermutes(last, Sort(before));
      assert multiset(before + [last]) == multiset(before) + multiset{last};
      assert tests == before + [last];
    }
  }

  ghost predicate Lacks(tests: seq<Test>, id: string) {
    forall i :: 0 <= i < |tests| ==> tests[i].id != id
  }

  lemma {:induction false} InsertSorts(t: Test, tests: seq<Test>)
    requires InOrder(tests) && Lacks(tests, t.id)
    ensures InOrder(Insert(t, tests)) && |Insert(t, tests)| == |tests| + 1
    ensures var last := Insert(t, tests)[|tests|]; last == t || (tests != [] && last == tests[|tests| - 1])
  {
    hide Less;
    InsertPermutes(t, tests);
    if tests != [] {
      var n := |tests| - 1;
      LessTotal(t.id, tests[n].id);
      if Less(t.id, tests[n].id) {
        InsertSorts(t, tests[..n]);
        InsertPermutes(t, tests[..n]);
      }
    }
  }

  ghost predicate DistinctIds(tests: seq<Test>) {
    forall i, j :: 0 <= i < j < |tests| ==> tests[i].id != tests[j].id
  }

  lemma SortLacks(tests: seq<Test>, id: string)
    ensures Lacks(Sort(tests), id) <==> Lacks(tests, id)
  {
    SortPermutes(tests);
    var sorted := Sort(tests);
    forall i | 0 <= i < |sorted| ensures sorted[i] in tests { assert sorted[i] in multiset(sorted); }
    forall i | 0 <= i < |tests| ensures tests[i] in sorted { assert tests[i] in multiset(tests); }
  }

  lemma {:induction false} SortSorts(tests: seq<Test>)
    requires DistinctIds(tests)
    ensures InOrder(Sort(tests))
  {
    if tests != [] {
      var n := |tests| - 1;
      SortSorts(tests[..n]);
      SortLacks(tests[..n], tests[n].id);
      InsertSorts(tests[n], Sort(tests[..n]));
    }
  }

  lemma {:induction false} InsertDistinct(t: Test, tests: seq<Test>)
    requires DistinctIds(Insert(t, tests))
    ensures DistinctIds(tests) && Lacks(tests, t.id)
  {
    hide Less;
    if tests != [] {
      var n := |tests| - 1;
      var now := Insert(t, tests);
      if Less(t.id, tests[n].id) {
        var inner := Insert(t, tests[..n]);
        assert now[..|inner|] == inner;
        InsertDistinct(t, tests[..n]);
        InsertMember(t, tests[..n]);
        forall i | 0 <= i < n ensures tests[i].id != tests[n].id {
          assert tests[..n][i] in inner;
          var k :| 0 <= k < |inner| && inner[k] == tests[i];
          assert now[k] == inner[k] && now[|inner|] == tests[n];
        }
        LessTotal(t.id, tests[n].id);
      } else {
        assert now[..n + 1] == tests && now[n + 1] == t;
      }
    }
  }

  lemma InsertMember(t: Test, tests: seq<Test>)
    ensures forall x :: x in tests ==> x in Insert(t, tests)
  {
    InsertPermutes(t, tests);
    forall x | x in tests
      ensures x in Insert(t, tests) { assert x in multiset(tests); assert x in multiset(Insert(t, tests)); }
  }

  /** A list whose sorted form has no id twice has none twice. */
  lemma {:induction false} SortDistinct(tests: seq<Test>)
    requires DistinctIds(Sort(tests))
    ensures DistinctIds(tests)
  {
    if tests != [] {
      var n := |tests| - 1;
      InsertDistinct(tests[n], Sort(tests[..n]));
      SortDistinct(tests[..n]);
      SortLacks(tests[..n], tests[n].id);
      assert forall i :: 0 <= i < n ==> tests[..n][i] == tests[i];
    }
  }

  lemma {:induction false} SortInOrder(tests: seq<Test>)
    requires InOrder(tests)
    ensures Sort(tests) == tests
  {
    if tests != [] {
      var n := |tests| - 1;
      SortInOrder(tests[..n]);
      assert tests == tests[..n] + [tests[n]];
      if n > 0 { LessTotal(tests[n - 1].id, tests[n].id); }
    }
  }

  // ---------- rendering and parsing ----------

  type Hash = string -> string

  /** What the digest function promises: a printable text. */
  ghost predicate HashOk(hash: Hash) {
    forall s :: Atom(hash(s))
  }

  predicate Unique(tests: seq<Test>) {
    && (forall i, j :: 0 <= i < j < |tests| ==> tests[i].id != tests[j].id)
    && (forall i, j :: 0 <= i < j < |tests| ==> tests[i].binary == "-" || tests[i].binary != tests[j].binary)
  }

  function Render(hash: Hash, metadata: Metadata, tests: seq<Test>): Option<(string, string)> {
    var canonical, ordered := metadata.(manifest := EMPTY_DIGEST), Sort(tests);
    if !ValidMetadata(canonical) || |ordered| > MAX_TESTS then None
    else if (exists i :: 0 <= i < |ordered| && !ValidTest(ordered[i])) || !Unique(ordered) then None
    else
      var digest := hash(Text(canonical, ordered));
      var text := Text(canonical.(manifest := digest), ordered);
      if |text| > MAX_BYTES then None else Some((text, digest))
  }

  /** Different ids, and different binaries where they have one. */
  ghost predicate Apart(a: Test, b: Test) {
    a.id != b.id && (a.binary == b.binary ==> a.binary == "-")
  }

  ghost predicate AllApart(tests: seq<Test>) {
    forall i, j :: 0 <= i < j < |tests| ==> Apart(tests[i], tests[j])
  }

  lemma ApartLast(tests: seq<Test>, t: Test)
    ensures AllApart(tests + [t]) <==> AllApart(tests) && forall x :: x in tests ==> Apart(x, t)
  {
    hide Apart;
    var more, n := tests + [t], |tests|;
    assert more[n] == t && forall i :: 0 <= i < n ==> more[i] == tests[i];
    if AllApart(more) {
      forall x | x in tests ensures Apart(x, t) {
        var i :| 0 <= i < n && tests[i] == x;
        assert Apart(more[i], more[n]);
      }
      forall i, j | 0 <= i < j < n ensures Apart(tests[i], tests[j]) { assert Apart(more[i], more[j]); }
    }
  }

  lemma {:induction false} InsertApart(t: Test, tests: seq<Test>)
    ensures AllApart(Insert(t, tests)) <==> AllApart(tests) && forall x :: x in tests ==> Apart(x, t)
  {
    hide AllApart;
    if tests == [] {
      ApartLast([], t);
      assert [] + [t] == [t];
    } else {
      var n := |tests| - 1;
      var before, last := tests[..n], tests[n];
      assert tests == before + [last];
      if Less(t.id, last.id) {
        InsertApart(t, before);
        ApartLast(Insert(t, before), last);
        ApartLast(before, last);
        InsertMembers(t, before);
        assert Apart(t, last) <==> Apart(last, t);
        assert (forall x :: x in tests ==> Apart(x, t))
            <==> (forall x :: x in before ==> Apart(x, t)) && Apart(last, t) by {
          assert forall x :: x in tests <==> x in before || x == last;
        }
      } else {
        ApartLast(tests, t);
      }
    }
  }

  lemma InsertMembers(t: Test, tests: seq<Test>)
    ensures forall x :: x in Insert(t, tests) <==> x in tests || x == t
  {
    hide Insert;
    InsertPermutes(t, tests);
    forall x ensures x in Insert(t, tests) <==> x in tests || x == t {
      assert x in Insert(t, tests) <==> x in multiset(Insert(t, tests));
      assert x in tests <==> x in multiset(tests);
    }
  }

  lemma {:induction false} SortApart(tests: seq<Test>)
    ensures AllApart(Sort(tests)) <==> AllApart(tests)
  {
    hide AllApart, Apart;
    if tests != [] {
      var n := |tests| - 1;
      var before, last := tests[..n], tests[n];
      assert tests == before + [last];
      SortApart(before);
      InsertApart(last, Sort(before));
      ApartLast(before, last);
      SortMembers(before);
    }
  }

  lemma SortMembers(tests: seq<Test>)
    ensures |Sort(tests)| == |tests| && forall x :: x in Sort(tests) <==> x in tests
  {
    hide Sort;
    SortPermutes(tests);
    assert |multiset(Sort(tests))| == |Sort(tests)| && |multiset(tests)| == |tests|;
    forall x ensures x in Sort(tests) <==> x in tests {
      assert x in Sort(tests) <==> x in multiset(Sort(tests));
      assert x in tests <==> x in multiset(tests);
    }
  }

  /** A manifest is rendered exactly when its metadata and its tests are valid,
      the tests are not too many, no two share an id or a binary, and the text
      with its digest is not too long. */
  lemma RenderIff(hash: Hash, metadata: Metadata, tests: seq<Test>)
    ensures var m := metadata.(manifest := EMPTY_DIGEST);
            Render(hash, metadata, tests).Some? <==>
              && ValidMetadata(m) && |tests| <= MAX_TESTS
              && (forall t :: t in tests ==> ValidTest(t)) && AllApart(tests)
              && |Text(m.(manifest := hash(Text(m, Sort(tests)))), Sort(tests))| <= MAX_BYTES
  {
    hide ValidMetadata, ValidTest, Text, Sort;
    var ordered := Sort(tests);
    SortMembers(tests);
    SortApart(tests);
    assert Unique(ordered) <==> AllApart(ordered);
    assert (exists i :: 0 <= i < |ordered| && !ValidTest(ordered[i])) <==> exists t :: t in ordered && !ValidTest(t);
  }

  function MetadataOf(v: seq<string>): Metadata
    requires |v| == |KEYS|
  {
    Metadata(v[0], v[1], v[2], v[3], v[4], v[5], v[6], v[7], v[8])
  }

  /** The metadata and tests of a text, if it is a manifest. */
  function Parse(hash: Hash, text: string): Option<(Metadata, seq<Test>)> {
    if |text| > MAX_BYTES || '\r' in text || text == [] || text[|text| - 1] != '\n' then None
    else
      var lines := Split(text[..|text| - 1], '\n');
      var rows := ReadRows(lines[1..]);
      if lines[0] != HEADER || rows.None? || rows.value.keys != KEYS || |rows.value.values| != |KEYS| then None
      else
        var m := MetadataOf(rows.value.values);
        var canonical := ReplaceFirst(text, MetaLine(MANIFEST_KEY, m.manifest) + "\n",
          MetaLine(MANIFEST_KEY, EMPTY_DIGEST) + "\n");
        if !ValidMetadata(m) || hash(canonical) != m.manifest then None
        else
          var again := Render(hash, m, rows.value.tests);
          if again != Some((text, m.manifest)) then None else Some((m, rows.value.tests))
  }

  lemma LinesFree(m: Metadata, tests: seq<Test>, c: char)
    requires ValidMetadata(m) && (forall i :: 0 <= i < |tests| ==> ValidTest(tests[i])) && c in {'\n', '\r'}
    ensures AllFree(Lines(m, tests), c)
  {
    hide MetaLine, TestLine, Atom;
    var lines := Lines(m, tests);
    forall j | 0 <= j < |lines| ensures Free(lines[j], c) {
      if 0 < j <= |KEYS| {
        AtomFree(Values(m)[j - 1]);
        KeysFree(j - 1);
        MetaLineFree(KEYS[j - 1], Values(m)[j - 1], c);
        assert lines[j] == MetaLine(KEYS[j - 1], Values(m)[j - 1]);
      } else if j > |KEYS| {
        assert lines[j] == TestLine(tests[j - 1 - |KEYS|]);
        TestLineFree(tests[j - 1 - |KEYS|], c);
      }
    }
  }

  lemma TestLineFree(t: Test, c: char)
    requires ValidTest(t) && c in {'\n', '\r'}
    ensures Free(TestLine(t), c)
  {
    hide Atom;
    AtomFree(t.id); AtomFree(t.group); AtomFree(t.api); AtomFree(t.kind);
    AtomFree(t.disposition); AtomFree(t.binary); AtomFree(t.digest);
    NumeralDecimal(t.timeout);
    JoinFree(["test", t.id, t.group, t.api, t.kind, t.disposition, t.binary, Decimal(t.timeout), t.digest], '\t', c);
  }

  /** The lines of a rendered text are read back as they were. */
  lemma TextLines(m: Metadata, tests: seq<Test>)
    requires ValidMetadata(m) && forall i :: 0 <= i < |tests| ==> ValidTest(tests[i])
    ensures var text := Text(m, tests);
            && text != [] && text[|text| - 1] == '\n' && '\r' !in text
            && Split(text[..|text| - 1], '\n') == Lines(m, tests)
  {
    hide ValidMetadata, ValidTest, Lines, Split, Join;
    LinesFree(m, tests, '\n');
    LinesFree(m, tests, '\r');
    assert Lines(m, tests) != [] by { LinesSome(m, tests); }
    var text := Text(m, tests);
    assert text[..|text| - 1] == Join(Lines(m, tests), '\n');
    SplitJoin(Lines(m, tests), '\n');
    JoinFree(Lines(m, tests), '\n', '\r');
  }

  lemma LinesSome(m: Metadata, tests: seq<Test>)
    ensures Lines(m, tests) != [] && Lines(m, tests)[0] == HEADER
            && Lines(m, tests)[1..] == MetaLines(m) + TestLines(tests)
  {}

  lemma MetadataValues(m: Metadata)
    ensures |Values(m)| == |KEYS| && MetadataOf(Values(m)) == m
  {}

  lemma ValidWithDigest(m: Metadata, digest: string)
    requires ValidMetadata(m) && Atom(digest)
    ensures ValidMetadata(m.(manifest := digest))
  {
    var n := m.(manifest := digest);
    forall i | 0 <= i < |Values(n)|
      ensures Atom(Values(n)[i]) { assert i == MANIFEST_INDEX || Values(n)[i] == Values(m)[i]; }
  }

  lemma RenderDistinct(hash: Hash, metadata: Metadata, tests: seq<Test>)
    requires Render(hash, metadata, tests).Some?
    ensures DistinctIds(tests)
  {
    hide Sort, Text, ValidMetadata, ValidTest;
    SortDistinct(tests);
  }

  /** Rendering in order what is already in order changes nothing. */
  lemma RenderAgain(hash: Hash, metadata: Metadata, tests: seq<Test>)
    requires DistinctIds(tests)
    ensures Render(hash, metadata, Sort(tests)) == Render(hash, metadata, tests)
  {
    SortSorts(tests);
    SortInOrder(Sort(tests));
  }

  /** Parsing a rendered manifest gives back the tests in order, and the
      metadata with the digest filled in. */
  lemma ParseRender(hash: Hash, metadata: Metadata, tests: seq<Test>)
    requires HashOk(hash) && Render(hash, metadata, tests).Some?
    ensures var (text, digest) := Render(hash, metadata, tests).value;
            Parse(hash, text) == Some((metadata.(manifest := digest), Sort(tests)))
    ensures InOrder(Sort(tests)) && multiset(Sort(tests)) == multiset(tests)
  {
    hide ValidMetadata, ValidTest, Lines, Split, Join, Text, ReplaceFirst, ReadRows, MetaLine, Sort, Unique, Values,
      Atom, MetadataOf;
    var (text, digest) := Render(hash, metadata, tests).value;
    var ordered, full := Sort(tests), metadata.(manifest := digest);
    RenderDistinct(hash, metadata, tests);
    SortSorts(tests);
    SortPermutes(tests);
    var canonical := metadata.(manifest := EMPTY_DIGEST);
    assert digest == hash(Text(canonical, ordered));
    ValidWithDigest(canonical, digest);
    assert canonical.(manifest := digest) == full && full.(manifest := EMPTY_DIGEST) == canonical;
    TextLines(full, ordered);
    LinesSome(full, ordered);
    ReadTests(full, ordered);
    MetadataValues(full);
    ZeroedDigest(full, ordered);
    RenderAgain(hash, metadata, tests);
    assert Render(hash, full, ordered) == Render(hash, metadata, ordered);
  }

  /** Different inputs render to different texts. */
  lemma RenderInjective(hash: Hash, m: Metadata, a: seq<Test>, n: Metadata, b: seq<Test>)
    requires HashOk(hash) && Render(hash, m, a).Some? && Render(hash, n, b).Some?
    requires Render(hash, m, a).value.0 == Render(hash, n, b).value.0
    ensures Sort(a) == Sort(b) && m.(manifest := EMPTY_DIGEST) == n.(manifest := EMPTY_DIGEST)
  {
    hide Render, Parse, Sort;
    ParseRender(hash, m, a);
    ParseRender(hash, n, b);
  }

  /** Only rendered texts are accepted. */
  lemma ParseAccepts(hash: Hash, text: string)
    requires Parse(hash, text).Some?
    ensures var (m, tests) := Parse(hash, text).value; Render(hash, m, tests) == Some((text, m.manifest))
  {
    hide Render, ReadRows, ReplaceFirst, Split;
  }
}

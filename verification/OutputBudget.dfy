/** How much of a test's output is kept, so that every report row and all of
    them together stay within their limits. */
module OutputBudget {

  const STREAM_MARKER: Text := Ascii("\n...[truncated]")
  const REASON_MARKER: Text := Ascii("...[truncated]")
  const MAX_STREAM: nat := 16 * 1024
  const MAX_ERROR: nat := 4 * 1024
  const MAX_LINE: nat := 512 * 1024
  const ATTEMPTS_BUDGET: nat := 120 * 1024 * 1024
  const FIXED_BUDGET: nat := 8 * 1024
  const ESCAPE_EXPANSION: nat := 6
  const MAX_SELECTED: nat := 4096

  /** A character and the number of bytes UTF-8 spends on it. */
  datatype Letter = Letter(code: nat, width: nat)

  type Text = seq<Letter>

  function Ascii(s: string): Text {
    seq(|s|, i requires 0 <= i < |s| => Letter(s[i] as nat, 1))
  }

  /** The length of the encoded text. */
  function Size(t: Text): nat {
    if t == [] then 0 else Size(t[..|t| - 1]) + t[|t| - 1].width
  }

  /** The first `limit` bytes of the encoded text, decoded, with an incomplete
      character at the end left out. */
  function Prefix(t: Text, limit: nat): (r: Text)
    ensures r <= t && Size(r) <= limit
  {
    if Size(t) <= limit then t else Prefix(t[..|t| - 1], limit)
  }

  lemma {:induction false} SizeConcat(a: Text, b: Text)
    ensures Size(a + b) == Size(a) + Size(b)
  {
    if b == [] {
      assert a + b == a;
    } else {
      assert (a + b)[..|a + b| - 1] == a + b[..|b| - 1];
      SizeConcat(a, b[..|b| - 1]);
    }
  }

  lemma {:induction false} SizeAscii(s: string)
    ensures Size(Ascii(s)) == |s|
  {
    if s != [] {
      assert Ascii(s)[..|s| - 1] == Ascii(s[..|s| - 1]);
      SizeAscii(s[..|s| - 1]);
    }
  }

  /** Nothing more would have fitted. */
  lemma {:induction false} PrefixLongest(t: Text, limit: nat, longer: Text)
    requires longer <= t && |longer| > |Prefix(t, limit)|
    ensures Size(longer) > limit
  {
    if Size(t) > limit {
      if |longer| == |t| {
        assert longer == t;
      } else {
        PrefixLongest(t[..|t| - 1], limit, longer);
      }
    }
  }

  datatype Limits = Limits(stream: nat, error: nat)

  function Min(a: nat, b: nat): nat {
    if a < b then a else b
  }

  /** The share of one attempt out of `selected`. */
  function LineBudget(selected: nat): nat
    requires 1 <= selected <= MAX_SELECTED
  {
    Min(MAX_LINE, ATTEMPTS_BUDGET / selected - 1)
  }

  lemma Share(selected: nat)
    requires 1 <= selected <= MAX_SELECTED
    ensures ATTEMPTS_BUDGET / selected >= 30720 && selected * (ATTEMPTS_BUDGET / selected) <= ATTEMPTS_BUDGET
  {
    var q := ATTEMPTS_BUDGET / selected;
    assert ATTEMPTS_BUDGET == selected * q + ATTEMPTS_BUDGET % selected;
    assert ATTEMPTS_BUDGET < selected * q + selected == selected * (q + 1);
    Monotone(q + 1, selected, MAX_SELECTED);
    assert (q + 1) * selected == selected * (q + 1);
  }

  function FieldLimits(selected: nat): Limits
    requires 1 <= selected <= MAX_SELECTED
  {
    Share(selected);
    var variable := (LineBudget(selected) - FIXED_BUDGET) / ESCAPE_EXPANSION;
    var error := Min(MAX_ERROR, variable / 4);
    Limits(Min(MAX_STREAM, (variable - 2 * error) / 2), error)
  }

  datatype Stream = Stream(text: Text, bytes: nat, truncated: bool)

  function BoundedStream(value: Text, maximum: nat): Stream
    requires maximum >= |STREAM_MARKER|
  {
    if Size(value) <= maximum then Stream(value, Size(value), false)
    else Stream(Prefix(value, maximum - |STREAM_MARKER|) + STREAM_MARKER, Size(value), true)
  }

  function BoundedReason(value: Text, maximum: nat): Text
    requires maximum >= |REASON_MARKER|
  {
    if Size(value) <= maximum then value else Prefix(value, maximum - |REASON_MARKER|) + REASON_MARKER
  }

  /** What a resuming campaign accepts as a stored stream. */
  predicate StreamValid(s: Stream, maximum: nat) {
    && Size(s.text) <= maximum
    && if s.truncated then s.bytes > Size(s.text) && |s.text| >= |STREAM_MARKER|
      && s.text[|s.text| - |STREAM_MARKER|..] == STREAM_MARKER
       else s.bytes == Size(s.text)
  }

  lemma Markers()
    ensures |STREAM_MARKER| == 15 && |REASON_MARKER| == 14 && Size(STREAM_MARKER) == 15 && Size(REASON_MARKER) == 14
  {
    SizeAscii("\n...[truncated]");
    SizeAscii("...[truncated]");
  }

  /** Every stored stream passes the check, whatever the guest printed. */
  lemma StreamsPass(value: Text, maximum: nat)
    requires maximum >= |STREAM_MARKER|
    ensures StreamValid(BoundedStream(value, maximum), maximum)
  {
    hide Prefix;
    Markers();
    if Size(value) > maximum {
      var kept := Prefix(value, maximum - |STREAM_MARKER|);
      SizeConcat(kept, STREAM_MARKER);
      assert (kept + STREAM_MARKER)[|kept|..] == STREAM_MARKER;
    }
  }

  /** `kept` is as much of `value` as goes into `limit` bytes. */
  ghost predicate Longest(kept: Text, value: Text, limit: nat) {
    kept <= value && Size(kept) <= limit
    && forall longer: Text :: longer <= value && |longer| > |kept| ==> Size(longer) > limit
  }

  lemma PrefixIsLongest(value: Text, limit: nat)
    ensures Longest(Prefix(value, limit), value, limit)
  {
    hide Prefix, Size;
    forall longer: Text | longer <= value && |longer| > |Prefix(value, limit)| ensures Size(longer) > limit {
      PrefixLongest(value, limit, longer);
    }
  }

  ghost predicate StreamOf(s: Stream, value: Text, maximum: nat) {
    && s.bytes == Size(value)
    && (s.truncated <==> Size(value) > maximum)
    && if s.truncated then
         && maximum >= |STREAM_MARKER|
         && exists kept :: Longest(kept, value, maximum - |STREAM_MARKER|) && s.text == kept + STREAM_MARKER
       else s.text == value
  }

  ghost predicate ReasonOf(r: Text, value: Text, maximum: nat) {
    if Size(value) > maximum then
      && maximum >= |REASON_MARKER|
      && exists kept :: Longest(kept, value, maximum - |REASON_MARKER|) && r == kept + REASON_MARKER
    else r == value
  }

  /** A text that fits is kept whole, and only that; of any other as much is
      kept as fits with the marker. The size is that of the whole text. */
  lemma StreamKept(value: Text, maximum: nat)
    requires maximum >= |STREAM_MARKER|
    ensures StreamOf(BoundedStream(value, maximum), value, maximum)
  {
    hide Size, Prefix, Longest;
    if Size(value) > maximum {
      var kept := Prefix(value, maximum - |STREAM_MARKER|);
      PrefixIsLongest(value, maximum - |STREAM_MARKER|);
      assert Longest(kept, value, maximum - |STREAM_MARKER|);
      assert BoundedStream(value, maximum).text == kept + STREAM_MARKER;
    }
  }

  lemma ReasonKept(value: Text, maximum: nat)
    requires maximum >= |REASON_MARKER|
    ensures ReasonOf(BoundedReason(value, maximum), value, maximum)
  {
    hide Size, Prefix, Longest;
    if Size(value) > maximum {
      var kept := Prefix(value, maximum - |REASON_MARKER|);
      PrefixIsLongest(value, maximum - |REASON_MARKER|);
      assert Longest(kept, value, maximum - |REASON_MARKER|) && BoundedReason(value, maximum) == kept + REASON_MARKER;
    }
  }

  lemma ReasonsPass(value: Text, maximum: nat)
    requires maximum >= |REASON_MARKER|
    ensures Size(BoundedReason(value, maximum)) <= maximum
  {
    hide Prefix;
    Markers();
    if Size(value) > maximum { SizeConcat(Prefix(value, maximum - |REASON_MARKER|), REASON_MARKER); }
  }

  /** The limits leave room for the markers, and four full fields, escaped at
      their worst, fit a line; all lines with their ends fit the budget. */
  lemma LimitsFit(selected: nat)
    requires 1 <= selected <= MAX_SELECTED
    ensures var l := FieldLimits(selected);
            && l.stream >= |STREAM_MARKER| && l.error >= |REASON_MARKER| && l.error <= MAX_ERROR
              && l.stream <= MAX_STREAM
            && FIXED_BUDGET + ESCAPE_EXPANSION * (2 * l.stream + 2 * l.error) <= LineBudget(selected) <= MAX_LINE
            && selected * (LineBudget(selected) + 1) <= ATTEMPTS_BUDGET
  {
    Markers();
    Share(selected);
    var q := ATTEMPTS_BUDGET / selected;
    assert LineBudget(selected) + 1 <= q;
    Monotone(selected, LineBudget(selected) + 1, q);
  }

  /** And they are as large as that allows: a byte more for each of the fields
      at the limit, or for each line, would not fit. */
  lemma LimitsTight(selected: nat)
    requires 1 <= selected <= MAX_SELECTED
    ensures var l, line := FieldLimits(selected), LineBudget(selected);
            && (l.error < MAX_ERROR ==> FIXED_BUDGET + ESCAPE_EXPANSION * 4 * (l.error + 1) > line)
            && (l.stream < MAX_STREAM ==> FIXED_BUDGET + ESCAPE_EXPANSION * (2 * (l.stream + 1) + 2 * l.error) > line)
            && (line < MAX_LINE ==> selected * (line + 2) > ATTEMPTS_BUDGET)
  {
    Share(selected);
    var q := ATTEMPTS_BUDGET / selected;
    assert ATTEMPTS_BUDGET == selected * q + ATTEMPTS_BUDGET % selected;
    assert selected * (q + 1) == selected * q + selected;
  }

  lemma Monotone(k: nat, a: nat, b: nat)
    requires a <= b
    ensures k * a <= k * b
  {}

  /** One attempt as it is stored. */
  datatype Row = Row(stdout: Stream, stderr: Stream, launchError: Text, infrastructureError: Text)

  function StoredRow(stdout: Text, stderr: Text, launch: Text, infrastructure: Text, selected: nat): Row
    requires 1 <= selected <= MAX_SELECTED
  {
    LimitsFit(selected);
    var l := FieldLimits(selected);
    Row(BoundedStream(stdout, l.stream), BoundedStream(stderr, l.stream), BoundedReason(launch, l.error),
      BoundedReason(infrastructure, l.error))
  }

  /** The most bytes a row can take up. */
  function RowBytes(r: Row): nat {
    FIXED_BUDGET + ESCAPE_EXPANSION
      * (Size(r.stdout.text) + Size(r.stderr.text) + Size(r.launchError) + Size(r.infrastructureError))
  }

  /** The rows of a report, each with its line end. */
  function ReportBytes(rows: seq<Row>): nat {
    if rows == [] then 0 else ReportBytes(rows[..|rows| - 1]) + RowBytes(rows[|rows| - 1]) + 1
  }

  /** A stored row passes every check of a resuming campaign and fits a line. */
  lemma RowsPass(stdout: Text, stderr: Text, launch: Text, infrastructure: Text, selected: nat)
    requires 1 <= selected <= MAX_SELECTED
    ensures var l, r := FieldLimits(selected), StoredRow(stdout, stderr, launch, infrastructure, selected);
            && StreamValid(r.stdout, l.stream) && StreamValid(r.stderr, l.stream)
            && Size(r.launchError) <= l.error && Size(r.infrastructureError) <= l.error
            && RowBytes(r) <= LineBudget(selected) <= MAX_LINE
  {
    hide BoundedStream, BoundedReason, FieldLimits, LineBudget;
    LimitsFit(selected);
    var l := FieldLimits(selected);
    StreamsPass(stdout, l.stream);
    StreamsPass(stderr, l.stream);
    ReasonsPass(launch, l.error);
    ReasonsPass(infrastructure, l.error);
  }

  /** Every text is in its own field, kept as far as it fits. */
  lemma RowsKept(stdout: Text, stderr: Text, launch: Text, infrastructure: Text, selected: nat)
    requires 1 <= selected <= MAX_SELECTED
    ensures var l, r := FieldLimits(selected), StoredRow(stdout, stderr, launch, infrastructure, selected);
            && StreamOf(r.stdout, stdout, l.stream) && StreamOf(r.stderr, stderr, l.stream)
            && ReasonOf(r.launchError, launch, l.error) && ReasonOf(r.infrastructureError, infrastructure, l.error)
  {
    hide BoundedStream, BoundedReason, FieldLimits, StreamOf, ReasonOf;
    LimitsFit(selected);
    var l := FieldLimits(selected);
    StreamKept(stdout, l.stream);
    StreamKept(stderr, l.stream);
    ReasonKept(launch, l.error);
    ReasonKept(infrastructure, l.error);
  }

  /** All rows of a campaign together stay within the budget. */
  lemma {:induction false} ReportFits(rows: seq<Row>, selected: nat)
    requires 1 <= selected <= MAX_SELECTED && |rows| <= selected
    requires forall i :: 0 <= i < |rows| ==> RowBytes(rows[i]) <= LineBudget(selected)
    ensures ReportBytes(rows) <= |rows| * (LineBudget(selected) + 1) && ReportBytes(rows) <= ATTEMPTS_BUDGET
  {
    hide LineBudget, RowBytes, FieldLimits;
    LimitsFit(selected);
    var line := LineBudget(selected) + 1;
    if rows != [] {
      ReportFits(rows[..|rows| - 1], selected);
      assert |rows| * line == (|rows| - 1) * line + line;
    }
    Monotone(line, |rows|, selected);
    assert line * |rows| == |rows| * line && line * selected == selected * line;
  }
}

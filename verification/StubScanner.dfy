/** Finding live uses of a macro in C sources: comments and literals are blanked
    out, and regions the preprocessor would drop are skipped. */
module StubScanner {
  import opened Options

  // ---------- comments and literals ----------

  datatype Mode = Code | LineComment | BlockComment | StringLiteral | CharacterLiteral

  function Blank(c: char): char {
    if c == '\n' then '\n' else ' '
  }

  function IsQuote(mode: Mode, c: char): bool {
    (mode == StringLiteral && c == '"') || (mode == CharacterLiteral && c == '\'')
  }

  /** The number of characters the stripper takes at once, what it puts out for
      them, and the mode it goes on in. */
  function Next(mode: Mode, c: char, following: string): (r: (nat, string, Mode))
    ensures 1 <= r.0 <= 1 + |following| && |r.1| == r.0
  {
    var next := if following == [] then ' ' else following[0];
    var more := following != [];
    match mode
    case Code =>
      if more && c == '/' && next == '/' then (2, "  ", LineComment)
      else if more && c == '/' && next == '*' then (2, "  ", BlockComment)
      else if c == '"' then (1, " ", StringLiteral)
      else if c == '\'' then (1, " ", CharacterLiteral)
      else (1, [c], Code)
    case LineComment => (1, [Blank(c)], if c == '\n' then Code else LineComment)
    case BlockComment =>
      if more && c == '*' && next == '/' then (2, "  ", Code) else (1, [Blank(c)], BlockComment)
    case _ =>
      if more && c == '\\' then (2, " " + [Blank(next)], mode)
      else if IsQuote(mode, c) then (1, " ", Code)
      else (1, [Blank(c)], mode)
  }

  function Strip(mode: Mode, s: string): (r: string)
    ensures |r| == |s|
    decreases |s|
  {
    if s == [] then []
    else
      var (taken, out, then_) := Next(mode, s[0], s[1..]);
      out + Strip(then_, s[taken..])
  }

  /** The stripper as a loop over an index and a mode. */
  method StripCommentsAndLiterals(source: string) returns (output: string)
    ensures output == Shown(Stripper, source)
    ensures output == Strip(Code, source)
  {
    hide Strip, Next, Shown;
    StripIsShown(source);
    var index, mode := 0, Code;
    output := [];
    assert source[0..] == source;
    StripNothing(Code);
    while index < |source|
      invariant 0 <= index <= |source| && |output| == index
      invariant output + Strip(mode, source[index..]) == Strip(Code, source)
    {
      var taken, out, then_ := StripOne(mode, source, index);
      StripStep(mode, source, index);
      assert output + (out + Strip(then_, source[index + taken..]))
        == (output + out) + Strip(then_, source[index + taken..]);
      output, index, mode := output + out, index + taken, then_;
    }
    StripNothing(mode);
    assert source[index..] == [] && output + [] == output;
  }

  /** One turn of the loop. */
  method StripOne(mode: Mode, source: string, index: nat) returns (taken: nat, out: string, then_: Mode)
    requires index < |source|
    ensures (taken, out, then_) == Next(mode, source[index], source[index + 1..])
  {
    var character, more := source[index], index + 1 < |source|;
    ghost var following := source[index + 1..];
    assert more ==> following[0] == source[index + 1];
    if mode == Code {
      if character == '/' && more && source[index + 1] == '/' {
        return 2, "  ", LineComment;
      }
      if character == '/' && more && source[index + 1] == '*' {
        return 2, "  ", BlockComment;
      }
      if character == '"' {
        return 1, " ", StringLiteral;
      }
      if character == '\'' {
        return 1, " ", CharacterLiteral;
      }
      return 1, [character], Code;
    }
    if mode == LineComment {
      return 1, if character == '\n' then "\n" else " ", if character == '\n' then Code else LineComment;
    }
    if mode == BlockComment {
      if character == '*' && more && source[index + 1] == '/' {
        return 2, "  ", Code;
      }
      return 1, if character == '\n' then "\n" else " ", BlockComment;
    }
    if character == '\\' && more {
      return 2, " " + if source[index + 1] == '\n' then "\n" else " ", mode;
    }
    if (mode == StringLiteral && character == '"') || (mode == CharacterLiteral && character == '\'') {
      return 1, " ", Code;
    }
    return 1, if character == '\n' then "\n" else " ", mode;
  }

  lemma StripStep(mode: Mode, source: string, index: nat)
    requires index < |source|
    ensures var (taken, out, then_) := Next(mode, source[index], source[index + 1..]);
            index + taken <= |source| && Strip(mode, source[index..]) == out + Strip(then_, source[index + taken..])
  {
    hide Next;
    var rest, taken := source[index..], Next(mode, source[index], source[index + 1..]).0;
    assert rest[0] == source[index] && rest[1..] == source[index + 1..] && rest[taken..] == source[index + taken..];
  }

  lemma StripNothing(mode: Mode)
    ensures Strip(mode, []) == []
  {}

  lemma NextKeeps(mode: Mode, c: char, following: string, i: nat)
    requires i < Next(mode, c, following).0
    ensures var out, from := Next(mode, c, following).1, if i == 0 then c else following[i - 1];
            i <= 1 && (out[i] == '\n' <==> from == '\n') && out[i] in {from, ' '}
  {}

  /** Every newline stays where it is, and nothing else becomes one; what is
      not blanked is kept. */
  lemma {:induction false} StripKeepsLines(mode: Mode, s: string, i: nat)
    requires i < |s|
    ensures Strip(mode, s)[i] == '\n' <==> s[i] == '\n'
    ensures Strip(mode, s)[i] in {s[i], ' '}
    decreases |s|
  {
    hide Next;
    var (taken, out, then_) := Next(mode, s[0], s[1..]);
    if i >= taken {
      StripKeepsLines(then_, s[taken..], i - taken);
      assert Strip(mode, s)[i] == Strip(then_, s[taken..])[i - taken];
    } else {
      NextKeeps(mode, s[0], s[1..], i);
      assert Strip(mode, s)[i] == out[i];
    }
  }

  /** Nothing in the text opens a comment or a literal. */
  ghost predicate Plain(s: string) {
    && (forall i :: 0 <= i < |s| ==> s[i] != '"' && s[i] != '\'')
    && (forall i :: 0 < i < |s| ==> !(s[i - 1] == '/' && (s[i] == '/' || s[i] == '*')))
  }

  lemma {:induction false} PlainStays(s: string)
    requires Plain(s)
    ensures Strip(Code, s) == s
    decreases |s|
  {
    if s != [] {
      var (taken, out, then_) := Next(Code, s[0], s[1..]);
      if |s| > 1 { assert s[1..][0] == s[1]; }
      assert taken == 1 && out == [s[0]] && then_ == Code;
      assert forall i :: 0 < i < |s| - 1 ==> s[1..][i - 1] == s[i] && s[1..][i] == s[i + 1];
      PlainStays(s[1..]);
    }
  }

  /** What one turn puts out opens nothing, not even with what comes next. */
  lemma NextPlain(mode: Mode, c: char, following: string)
    ensures var (taken, out, then_) := Next(mode, c, following);
            && (forall i :: 0 <= i < |out| ==> out[i] != '"' && out[i] != '\'')
            && taken <= 2 && (taken == 2 ==> out[0] == ' ')
            && (out[|out| - 1] == '/' ==>
              taken == 1 && then_ == Code && (following != [] ==> following[0] !in {'/', '*'}))
            && (out[0] in {c, ' '}) && (mode != Code ==> out[0] in {'\n', ' '})
  {}

  lemma {:induction false} StripPlain(mode: Mode, s: string)
    ensures Plain(Strip(mode, s))
    ensures s != [] ==> Strip(mode, s)[0] in {s[0], ' '}
    ensures mode != Code && s != [] ==> Strip(mode, s)[0] in {'\n', ' '}
    decreases |s|
  {
    hide Next;
    if s != [] {
      var (taken, out, then_) := Next(mode, s[0], s[1..]);
      var rest := Strip(then_, s[taken..]);
      NextPlain(mode, s[0], s[1..]);
      StripPlain(then_, s[taken..]);
      PlainJoin(out, rest);
    }
  }

  lemma PlainJoin(out: string, rest: string)
    requires 1 <= |out| <= 2 && Plain(rest) && (forall i :: 0 <= i < |out| ==> out[i] != '"' && out[i] != '\'')
    requires |out| == 2 ==> out[0] == ' '
    requires out[|out| - 1] == '/' && rest != [] ==> rest[0] !in {'/', '*'}
    ensures Plain(out + rest)
  {
    var r := out + rest;
    forall i | 0 < i < |r| ensures !(r[i - 1] == '/' && (r[i] == '/' || r[i] == '*')) {
      if i > |out| { assert r[i] == rest[i - |out|] && r[i - 1] == rest[i - |out| - 1]; }
    }
  }

  /** Stripping twice is stripping once. */
  lemma StripIdempotent(s: string)
    ensures Strip(Code, Strip(Code, s)) == Strip(Code, s)
  {
    StripPlain(Code, s);
    PlainStays(Strip(Code, s));
  }

  // ---------- comments and literals as regions ----------

  /** A region by what opens it. */
  datatype Kind = SlashSlash | SlashStar | Quoted(quote: char)

  /** Characters `from` to `to` are one comment or literal. */
  datatype Region = Region(kind: Kind, from: nat, to: nat)

  /** By whose rules a source is read: the language ends a literal with its
      line, and a line comment goes on over a line that ends in a backslash. The
      stripper knows neither. */
  datatype Reader = Language | Stripper

  ghost predicate PairAt(s: string, i: nat, a: char, b: char) {
    i + 1 < |s| && s[i] == a && s[i + 1] == b
  }

  /** What starts at a character that is code. */
  ghost function Opening(s: string, i: nat): (k: Option<Kind>)
    requires i < |s|
    ensures k.Some? ==> Behind(k.value, i) <= |s|
  {
    if PairAt(s, i, '/', '/') then Some(SlashSlash)
    else if PairAt(s, i, '/', '*') then Some(SlashStar)
    else if s[i] == '"' || s[i] == '\'' then Some(Quoted(s[i]))
    else None
  }

  /** The first character behind what opens a region. */
  ghost function Behind(k: Kind, from: nat): nat {
    if k.Quoted? then from + 1 else from + 2
  }

  /** A character is escaped by an unescaped backslash right before it. */
  ghost predicate Escaped(s: string, start: nat, i: nat)
    requires i <= |s|
  {
    start < i && s[i - 1] == '\\' && !Escaped(s, start, i - 1)
  }

  ghost predicate StopsAt(reader: Reader, k: Kind, s: string, start: nat, i: nat)
    requires i < |s|
  {
    match k
    case SlashSlash => s[i] == '\n' && !(reader == Language && start < i && s[i - 1] == '\\')
    case SlashStar => PairAt(s, i, '*', '/')
    case Quoted(quote) => !Escaped(s, start, i) && (s[i] == quote || (reader == Language && s[i] == '\n'))
  }

  /** The first place from `i` on where the region stops, or the end of the source. */
  ghost function Stop(reader: Reader, k: Kind, s: string, start: nat, i: nat): (j: nat)
    requires i <= |s|
    ensures i <= j <= |s| && (j < |s| ==> StopsAt(reader, k, s, start, j))
    ensures forall m :: i <= m < j ==> !StopsAt(reader, k, s, start, m)
    decreases |s| - i
  {
    if i == |s| || StopsAt(reader, k, s, start, i) then i else Stop(reader, k, s, start, i + 1)
  }

  /** The end of a region that stops at `j`: behind the closing mark, or before
      the newline. */
  ghost function Past(k: Kind, s: string, j: nat): nat
    requires j <= |s|
  {
    if j == |s| || s[j] == '\n' then j else if k.SlashStar? then j + 2 else j + 1
  }

  ghost function RegionAt(reader: Reader, k: Kind, s: string, from: nat): (r: Region)
    requires Behind(k, from) <= |s|
    ensures r.kind == k && r.from == from < Behind(k, from) <= r.to <= |s|
  {
    var start := Behind(k, from);
    Region(k, from, Past(k, s, Stop(reader, k, s, start, start)))
  }

  /** The regions from character `i` on, which is code. */
  ghost function Regions(reader: Reader, s: string, i: nat): (r: seq<Region>)
    requires i <= |s|
    ensures forall m :: 0 <= m < |r| ==> 
      i <= r[m].from < Behind(r[m].kind, r[m].from) <= r[m].to <= |s|
    decreases |s| - i
  {
    if i == |s| then []
    else if Opening(s, i).None? then Regions(reader, s, i + 1)
    else
      var first := RegionAt(reader, Opening(s, i).value, s, i);
      [first] + Regions(reader, s, first.to)
  }

  ghost predicate Inside(regions: seq<Region>, i: nat) {
    exists m :: 0 <= m < |regions| && regions[m].from <= i < regions[m].to
  }

  /** The source with every region blanked, newlines aside. */
  ghost function Shown(reader: Reader, s: string): string {
    seq(|s|, i requires 0 <= i < |s| => if Inside(Regions(reader, s, 0), i) && s[i] != '\n' then ' ' else s[i])
  }

  // ---------- the stripper blanks its regions ----------

  ghost function Blanked(s: string): string {
    seq(|s|, i requires 0 <= i < |s| => if s[i] == '\n' then '\n' else ' ')
  }

  lemma BlankedJoin(s: string, i: nat, j: nat, k: nat)
    requires i <= j <= k <= |s|
    ensures Blanked(s[i..j]) + Blanked(s[j..k]) == Blanked(s[i..k])
  {
    assert s[i..j] + s[j..k] == s[i..k];
  }

  ghost function ModeOf(k: Kind): Mode {
    match k
    case SlashSlash => LineComment
    case SlashStar => BlockComment
    case Quoted(quote) => if quote == '"' then StringLiteral else CharacterLiteral
  }

  /** One turn inside a region, before the place where it stops. */
  lemma InsideTurn(k: Kind, s: string, start: nat, i: nat)
    requires k.Quoted? ==> k.quote == '"' || k.quote == '\''
    requires start <= i < |s| && !StopsAt(Stripper, k, s, start, i) && (k.Quoted? ==> !Escaped(s, start, i))
    ensures var (taken, out, then_) := Next(ModeOf(k), s[i], s[i + 1..]);
            && i + taken <= |s| && out == Blanked(s[i..i + taken]) && then_ == ModeOf(k)
            && (taken == 2 ==> i + 1 < |s| && !StopsAt(Stripper, k, s, start, i + 1)) && taken <= 2
            && (k.Quoted? && i + taken < |s| ==> !Escaped(s, start, i + taken))
  {
    if i + 1 < |s| {
      assert s[i + 1..][0] == s[i + 1];
      assert s[i..i + 2] == [s[i], s[i + 1]];
    }
    assert s[i..i + 1] == [s[i]];
  }

  /** The turn at the place where a region stops. */
  lemma LastTurn(k: Kind, s: string, start: nat, i: nat)
    requires k.Quoted? ==> k.quote == '"' || k.quote == '\''
    requires start <= i < |s| && StopsAt(Stripper, k, s, start, i)
    ensures var to, turn := Past(k, s, i), Next(ModeOf(k), s[i], s[i + 1..]);
            if k.SlashSlash? then to == i && turn == (1, "\n", Code) && Next(Code, s[i], s[i + 1..]) == turn
            else i < to <= |s| && turn == (to - i, Blanked(s[i..to]), Code)
  {
    if i + 1 < |s| { assert s[i + 1..][0] == s[i + 1]; }
    if k.SlashStar? {
      assert Blanked(s[i..i + 2]) == "  ";
    } else {
      assert Blanked(s[i..i + 1]) == [Blank(s[i])];
    }
  }

  /** Inside a region the stripper blanks up to its end and goes on as in code. */
  lemma {:induction false} StripInside(k: Kind, s: string, start: nat, i: nat)
    requires k.Quoted? ==> k.quote == '"' || k.quote == '\''
    requires start <= i <= |s| && (k.Quoted? && i < |s| ==> !Escaped(s, start, i))
    ensures var to := Past(k, s, Stop(Stripper, k, s, start, i));
            i <= to <= |s| && Strip(ModeOf(k), s[i..]) == Blanked(s[i..to]) + Strip(Code, s[to..])
    decreases |s| - i
  {
    hide Strip, Next, Escaped, Blanked, StopsAt, Past, ModeOf;
    var mode, j := ModeOf(k), Stop(Stripper, k, s, start, i);
    var to := Past(k, s, j);
    if i == |s| {
      PastEnd(k, s);
      StripNothing(mode);
      StripNothing(Code);
      NothingBlanked();
      assert s[i..] == [] && s[i..to] == [];
    } else if StopsAt(Stripper, k, s, start, i) {
      StripStop(k, s, start, i);
    } else {
      InsideTurn(k, s, start, i);
      var taken := Next(mode, s[i], s[i + 1..]).0;
      assert j == Stop(Stripper, k, s, start, i + taken);
      StripInside(k, s, start, i + taken);
      StripTurn(k, s, start, i, to);
    }
  }

  /** One turn inside a region, and what is known to follow. */
  lemma StripTurn(k: Kind, s: string, start: nat, i: nat, to: nat)
    requires k.Quoted? ==> k.quote == '"' || k.quote == '\''
    requires start <= i < |s| && !StopsAt(Stripper, k, s, start, i) && (k.Quoted? ==> !Escaped(s, start, i))
    requires var n := i + Next(ModeOf(k), s[i], s[i + 1..]).0;
             n <= to <= |s| && Strip(ModeOf(k), s[n..]) == Blanked(s[n..to]) + Strip(Code, s[to..])
    ensures Strip(ModeOf(k), s[i..]) == Blanked(s[i..to]) + Strip(Code, s[to..])
  {
    hide Strip, Next, Escaped, Blanked, StopsAt, ModeOf;
    StripStep(ModeOf(k), s, i);
    InsideTurn(k, s, start, i);
    var (taken, out, then_) := Next(ModeOf(k), s[i], s[i + 1..]);
    BlankedJoin(s, i, i + taken, to);
    assert out + (Blanked(s[i + taken..to]) + Strip(Code, s[to..]))
      == (out + Blanked(s[i + taken..to])) + Strip(Code, s[to..]);
  }

  lemma StripStop(k: Kind, s: string, start: nat, i: nat)
    requires k.Quoted? ==> k.quote == '"' || k.quote == '\''
    requires start <= i < |s| && StopsAt(Stripper, k, s, start, i)
    ensures var to := Past(k, s, i);
            i <= to <= |s| && Strip(ModeOf(k), s[i..]) == Blanked(s[i..to]) + Strip(Code, s[to..])
  {
    hide Strip, Next, Escaped, StopsAt, ModeOf;
    LastTurn(k, s, start, i);
    StripStep(ModeOf(k), s, i);
    if k.SlashSlash? {
      StripStep(Code, s, i);
      assert Blanked(s[i..i]) == [];
    }
  }

  lemma PastEnd(k: Kind, s: string)
    ensures Past(k, s, |s|) == |s|
  {}

  lemma NothingBlanked()
    ensures Blanked([]) == []
  {}

  /** What the stripper does with a region that opens at `i`. */
  lemma StripRegion(s: string, i: nat)
    requires i < |s| && Opening(s, i).Some?
    ensures var r := RegionAt(Stripper, Opening(s, i).value, s, i);
            Strip(Code, s[i..]) == Blanked(s[i..r.to]) + Strip(Code, s[r.to..])
  {
    hide Strip, Stop, StopsAt;
    var k := Opening(s, i).value;
    var start, r := Behind(k, i), RegionAt(Stripper, k, s, i);
    StripStep(Code, s, i);
    OpeningTurn(s, i);
    StripInside(k, s, start, start);
    BlankedJoin(s, i, start, r.to);
    assert Blanked(s[i..start]) + (Blanked(s[start..r.to]) + Strip(Code, s[r.to..]))
      == (Blanked(s[i..start]) + Blanked(s[start..r.to])) + Strip(Code, s[r.to..]);
  }

  lemma OpeningTurn(s: string, i: nat)
    requires i < |s|
    ensures var k, turn := Opening(s, i), Next(Code, s[i], s[i + 1..]);
            if k.None? then turn == (1, [s[i]], Code)
            else
              && (k.value.Quoted? ==> k.value.quote == '"' || k.value.quote == '\'')
              && Behind(k.value, i) <= |s|
              && turn == (Behind(k.value, i) - i, Blanked(s[i..Behind(k.value, i)]), ModeOf(k.value))
  {
    if i + 1 < |s| {
      assert s[i + 1..][0] == s[i + 1];
      assert Blanked(s[i..i + 2]) == [Blank(s[i]), Blank(s[i + 1])];
    }
    assert Blanked(s[i..i + 1]) == [Blank(s[i])];
  }

  /** From a character that is code on, the stripper keeps a character exactly
      when it lies in none of its regions. */
  lemma {:induction false} StripShows(s: string, i: nat, n: nat)
    requires i <= n < |s|
    ensures Strip(Code, s[i..])[n - i] ==
            if Inside(Regions(Stripper, s, i), n) && s[n] != '\n' then ' ' else s[n]
    decreases |s| - i
  {
    hide Strip, Next, Stop, StopsAt, Opening;
    var regions := Regions(Stripper, s, i);
    if Opening(s, i).None? {
      StripStep(Code, s, i);
      OpeningTurn(s, i);
      if n > i {
        StripShows(s, i + 1, n);
      }
    } else {
      var r := RegionAt(Stripper, Opening(s, i).value, s, i);
      StripRegion(s, i);
      var rest := Regions(Stripper, s, r.to);
      InsideFirst(r, rest, n);
      if n >= r.to { StripShows(s, r.to, n); } else { assert Blanked(s[i..r.to])[n - i] == Blanked([s[n]])[0]; }
    }
  }

  lemma InsideFirst(first: Region, rest: seq<Region>, n: nat)
    requires forall m :: 0 <= m < |rest| ==> first.to <= rest[m].from
    ensures Inside([first] + rest, n) <==> first.from <= n < first.to || Inside(rest, n)
    ensures n < first.to ==> !Inside(rest, n)
  {
    var all := [first] + rest;
    if first.from <= n < first.to { assert all[0] == first; }
    if Inside(rest, n) {
      var m :| 0 <= m < |rest| && rest[m].from <= n < rest[m].to;
      assert all[m + 1] == rest[m];
    }
    if Inside(all, n) && !(first.from <= n < first.to) {
      var m :| 0 <= m < |all| && all[m].from <= n < all[m].to;
      assert rest[m - 1] == all[m];
    }
  }

  /** The stripped text is the source with the stripper's regions blanked. */
  lemma StripIsShown(s: string)
    ensures Strip(Code, s) == Shown(Stripper, s)
  {
    hide Strip, Regions, Inside;
    assert s[0..] == s;
    forall n | 0 <= n < |s| ensures Strip(Code, s)[n] == Shown(Stripper, s)[n] {
      StripShows(s, 0, n);
    }
  }

  // ---------- when the stripper reads as the language does ----------

  /** A literal stopped by its line, or a line comment that goes over its line. */
  ghost predicate Astray(s: string, r: Region)
    requires Behind(r.kind, r.from) <= r.to <= |s|
  {
    var start := Behind(r.kind, r.from);
    match r.kind
    case SlashStar => false
    case SlashSlash => '\n' in s[r.from..r.to]
    case Quoted(quote) =>
      var j := Stop(Language, r.kind, s, start, start);
      j < |s| && s[j] == '\n'
  }

  ghost predicate TidyFrom(s: string, i: nat)
    requires i <= |s|
  {
    var regions := Regions(Language, s, i);
    forall m :: 0 <= m < |regions| ==> !Astray(s, regions[m])
  }

  /** No literal runs over the end of its line, and no line comment is continued. */
  ghost predicate Tidy(s: string) {
    TidyFrom(s, 0)
  }

  lemma AstrayIff(s: string, i: nat)
    requires i < |s| && Opening(s, i).Some?
    ensures var k := Opening(s, i).value;
            RegionAt(Stripper, k, s, i) == RegionAt(Language, k, s, i) <==> !Astray(s, RegionAt(Language, k, s, i))
  {
    hide Stop, Escaped;
    var k := Opening(s, i).value;
    var start := Behind(k, i);
    var a, b := Stop(Stripper, k, s, start, start), Stop(Language, k, s, start, start);
    if k.SlashSlash? {
      var r := RegionAt(Language, k, s, i);
      if '\n' in s[i..r.to] {
        var m :| i <= m < r.to && s[m] == '\n';
        assert StopsAt(Stripper, k, s, start, m);
      }
    } else if a < |s| {
      assert StopsAt(Language, k, s, start, a);
    }
    if b < |s| && (k.SlashSlash? || s[b] != '\n') { assert StopsAt(Stripper, k, s, start, b); }
  }

  lemma {:induction false} TidyIffFrom(s: string, i: nat)
    requires i <= |s|
    ensures Regions(Stripper, s, i) == Regions(Language, s, i) <==> TidyFrom(s, i)
    decreases |s| - i
  {
    hide Stop, StopsAt, Opening, Astray, RegionAt;
    if i < |s| {
      if Opening(s, i).None? {
        TidyIffFrom(s, i + 1);
      } else {
        var k := Opening(s, i).value;
        var a, b := RegionAt(Stripper, k, s, i), RegionAt(Language, k, s, i);
        var as_, bs := Regions(Stripper, s, a.to), Regions(Language, s, b.to);
        AstrayIff(s, i);
        assert ([a] + as_)[0] == a && ([b] + bs)[0] == b && ([a] + as_)[1..] == as_ && ([b] + bs)[1..] == bs;
        TidyFirst(s, b, bs);
        if a == b { TidyIffFrom(s, a.to); }
      }
    }
  }

  lemma TidyFirst(s: string, first: Region, rest: seq<Region>)
    requires Behind(first.kind, first.from) <= first.to <= |s|
    requires forall m :: 0 <= m < |rest| ==> Behind(rest[m].kind, rest[m].from) <= rest[m].to <= |s|
    ensures var all := [first] + rest;
            && (forall m :: 0 <= m < |all| ==> Behind(all[m].kind, all[m].from) <= all[m].to <= |s|)
            && ((forall m :: 0 <= m < |all| ==> !Astray(s, all[m]))
                <==> !Astray(s, first) && forall m :: 0 <= m < |rest| ==> !Astray(s, rest[m]))
  {
    hide Astray;
    var all := [first] + rest;
    assert all[0] == first;
    forall m | 0 <= m < |rest| ensures all[m + 1] == rest[m] {}
    if forall m :: 0 <= m < |all| ==> !Astray(s, all[m]) {
      forall m | 0 <= m < |rest| ensures !Astray(s, rest[m]) { assert !Astray(s, all[m + 1]); }
    }
  }

  /** It takes the same comments and literals as the language exactly when the
      source is tidy. */
  lemma TidyIff(s: string)
    ensures Regions(Stripper, s, 0) == Regions(Language, s, 0) <==> Tidy(s)
  {
    TidyIffFrom(s, 0);
  }

  /** On tidy sources a character is kept exactly when it lies in none of the
      language's comments and literals. */
  lemma TidyText(s: string)
    requires Tidy(s)
    ensures Strip(Code, s) == Shown(Language, s)
  {
    hide Strip, Regions, Tidy, Inside;
    TidyIff(s);
    StripIsShown(s);
  }

  lemma {:induction false} PlainRegions(reader: Reader, s: string, i: nat, j: nat)
    requires i <= j <= |s| && forall m :: i <= m < j ==> s[m] !in {'/', '"', '\''}
    ensures Regions(reader, s, i) == Regions(reader, s, j)
    decreases j - i
  {
    hide Stop;
    if i < j { PlainRegions(reader, s, i + 1, j); }
  }

  /** An apostrophe in a message opens a literal that swallows the next line. */
  lemma ApostropheSwallows()
    ensures var s := "#error a" + "'\nX";
            Shown(Stripper, s) == "#error a" + " \n " && Shown(Language, s) == "#error a" + " \nX"
  {
    var s := "#error a" + "'\nX";
    assert |s| == 11 && s[8] == '\'' && s[9] == '\n' && s[10] == 'X';
    assert forall m :: 0 <= m < 8 ==> s[m] == "#error a"[m];
    forall reader ensures Regions(reader, s, 0) == [Region(Quoted('\''), 8, if reader == Stripper then 11 else 9)] {
      ApostropheRegion(reader, s);
    }
    hide Regions;
    assert Inside(Regions(Stripper, s, 0), 8) && Inside(Regions(Stripper, s, 0), 10) by {
      assert Regions(Stripper, s, 0)[0] == Region(Quoted('\''), 8, 11);
    }
    assert Inside(Regions(Language, s, 0), 8) by {
      assert Regions(Language, s, 0)[0] == Region(Quoted('\''), 8, 9);
    }
  }

  lemma ApostropheRegion(reader: Reader, s: string)
    requires |s| == 11 && s[8] == '\'' && s[9] == '\n' && s[10] == 'X'
    requires forall m :: 0 <= m < 8 ==> s[m] !in {'/', '"', '\''}
    ensures Regions(reader, s, 0) == [Region(Quoted('\''), 8, if reader == Stripper then 11 else 9)]
  {
    hide Regions;
    var k := Quoted('\'');
    PlainRegions(reader, s, 0, 8);
    assert Opening(s, 8) == Some(k) && !Escaped(s, 9, 9) && !Escaped(s, 9, 10);
    assert Stop(Stripper, k, s, 9, 9) == 11 && Stop(Language, k, s, 9, 9) == 9;
    FirstRegion(reader, s, 8);
    PlainRegions(reader, s, 9, 11);
    LastRegion(reader, s);
  }

  lemma FirstRegion(reader: Reader, s: string, i: nat)
    requires i < |s| && Opening(s, i).Some?
    ensures var r := RegionAt(reader, Opening(s, i).value, s, i);
            Regions(reader, s, i) == [r] + Regions(reader, s, r.to)
  {
    hide Stop, Opening;
  }

  lemma LastRegion(reader: Reader, s: string)
    ensures Regions(reader, s, |s|) == []
  {}

  // ---------- conditional regions ----------

  /** What stands behind a directive: the literals 0 and 1, or an expression
      the scanner does not evaluate (`ifdef` and `ifndef` included), with its
      place in the source. */
  datatype Condition = Zero | One | Undecided(place: nat, expression: string)

  datatype Line = If(condition: Condition) | Elif(condition: Condition) | Else | Endif | Text

  /** The scanner's frame for one open conditional. */
  datatype Frame = Frame(parentActive: bool, known: bool, branchTaken: bool, active: bool)

  function Active(stack: seq<Frame>): bool {
    stack == [] || stack[|stack| - 1].active
  }

  function Replace(stack: seq<Frame>, frame: Frame): seq<Frame>
    requires stack != []
  {
    stack[|stack| - 1 := frame]
  }

  /** The scanner's stack after one more line. */
  function Scan(stack: seq<Frame>, line: Line): seq<Frame> {
    match line
    case Text => stack
    case If(c) =>
      var known, taken := !c.Undecided?, c.One?;
      stack + [Frame(Active(stack), known, taken, Active(stack) && (if known then taken else true))]
    case Elif(c) =>
      if stack == [] then stack
      else
        var f := stack[|stack| - 1];
        if f.known && f.branchTaken then Replace(stack, f.(active := false))
        else if f.known && !c.Undecided? then
          var selected := !f.branchTaken && c.One?;
          Replace(stack, f.(active := f.parentActive && selected, branchTaken := f.branchTaken || selected))
        else Replace(stack, f.(known := false, active := f.parentActive))
    case Else =>
      if stack == [] then stack
      else
        var f := stack[|stack| - 1];
        if f.known then Replace(stack, f.(active := f.parentActive && !f.branchTaken, branchTaken := true))
        else Replace(stack, f.(active := f.parentActive))
    case Endif => if stack == [] then stack else stack[..|stack| - 1]
  }

  function ScanAll(lines: seq<Line>): seq<Frame> {
    if lines == [] then [] else Scan(ScanAll(lines[..|lines| - 1]), lines[|lines| - 1])
  }

  /** Which lines of text the scanner looks at; directives count as not looked at. */
  method LookedAt(lines: seq<Line>) returns (looked: seq<bool>)
    ensures |looked| == |lines|
    ensures forall i :: 0 <= i < |lines| ==> looked[i] == (lines[i].Text? && Active(ScanAll(lines[..i])))
  {
    hide Scan, Active;
    var stack: seq<Frame> := [];
    looked := [];
    var n := 0;
    assert lines[..0] == [];
    while n < |lines|
      invariant 0 <= n <= |lines| && |looked| == n && stack == ScanAll(lines[..n])
      invariant forall i :: 0 <= i < n ==> looked[i] == (lines[i].Text? && Active(ScanAll(lines[..i])))
    {
      assert lines[..n + 1][..n] == lines[..n];
      looked := looked + [lines[n].Text? && Active(stack)];
      stack := ScanLine(stack, lines[n]);
      n := n + 1;
    }
  }

  /** One line of the scan, frame by frame. Whatever the undecided conditions
      are, a stack that covers what the preprocessor has open covers it still. */
  method ScanLine(stack: seq<Frame>, line: Line) returns (after: seq<Frame>)
    ensures after == Scan(stack, line)
    ensures forall t: Truth, groups :: AllCover(stack, groups) ==> AllCover(after, Process(t, groups, line))
  {
    forall t: Truth, groups | AllCover(stack, groups) ensures AllCover(Scan(stack, line), Process(t, groups, line)) {
      StepCovers(t, stack, groups, line);
    }
    hide AllCover, Process;
    after := stack;
    if line.Text? {
      return;
    }
    var parentActive := if |stack| > 0 then stack[|stack| - 1].active else true;
    if line.If? {
      var known := !line.condition.Undecided?;
      var taken := known && line.condition.One?;
      after := stack + [Frame(parentActive, known, taken, parentActive && (if known then taken else true))];
    } else if |stack| > 0 {
      var frame := stack[|stack| - 1];
      if line.Elif? {
        if frame.known && frame.branchTaken {
          frame := frame.(active := false);
        } else if frame.known && !line.condition.Undecided? {
          var selected := !frame.branchTaken && line.condition.One?;
          frame := frame.(active := frame.parentActive && selected, branchTaken := frame.branchTaken || selected);
        } else {
          frame := frame.(known := false, active := frame.parentActive);
        }
      } else if line.Else? {
        if frame.known {
          frame := frame.(active := frame.parentActive && !frame.branchTaken, branchTaken := true);
        } else {
          frame := frame.(active := frame.parentActive);
        }
      }
      after := if line.Endif? then stack[..|stack| - 1] else stack[|stack| - 1 := frame];
    }
  }

  // ---------- the preprocessor ----------

  /** How the undecided conditions turn out, each on its own. */
  type Truth = (nat, string) -> bool

  function Holds(t: Truth, c: Condition): bool {
    match c
    case Zero => false
    case One => true
    case Undecided(place, expression) => t(place, expression)
  }

  /** The preprocessor's view of one open conditional: whether the enclosing
      region and this group are kept, and whether a group was chosen yet. */
  datatype Group = Group(enclosing: bool, chosen: bool, kept: bool)

  function Kept(groups: seq<Group>): bool {
    groups == [] || groups[|groups| - 1].kept
  }

  function Process(t: Truth, groups: seq<Group>, line: Line): seq<Group> {
    match line
    case Text => groups
    case If(c) => groups + [Group(Kept(groups), Holds(t, c), Kept(groups) && Holds(t, c))]
    case Elif(c) =>
      if groups == [] then groups
      else
        var g := groups[|groups| - 1];
        groups[|groups| - 1 := Group(g.enclosing, g.chosen || Holds(t, c), g.enclosing && !g.chosen && Holds(t, c))]
    case Else =>
      if groups == [] then groups
      else
        var g := groups[|groups| - 1];
        groups[|groups| - 1 := Group(g.enclosing, true, g.enclosing && !g.chosen)]
    case Endif => if groups == [] then groups else groups[..|groups| - 1]
  }

  function ProcessAll(t: Truth, lines: seq<Line>): seq<Group> {
    if lines == [] then [] else Process(t, ProcessAll(t, lines[..|lines| - 1]), lines[|lines| - 1])
  }

  ghost predicate Covers(f: Frame, g: Group) {
    && (g.enclosing ==> f.parentActive) && (g.kept ==> f.active)
    && (if f.known then f.branchTaken == g.chosen else f.active == f.parentActive)
    && (g.kept ==> g.enclosing)
  }

  ghost predicate AllCover(stack: seq<Frame>, groups: seq<Group>) {
    |stack| == |groups| && forall i :: 0 <= i < |stack| ==> Covers(stack[i], groups[i])
  }

  lemma StepCovers(t: Truth, stack: seq<Frame>, groups: seq<Group>, line: Line)
    requires AllCover(stack, groups)
    ensures AllCover(Scan(stack, line), Process(t, groups, line))
  {
    if stack != [] { assert Covers(stack[|stack| - 1], groups[|groups| - 1]); }
  }

  lemma {:induction false} ScanCovers(t: Truth, lines: seq<Line>)
    ensures AllCover(ScanAll(lines), ProcessAll(t, lines))
  {
    if lines != [] {
      ScanCovers(t, lines[..|lines| - 1]);
      StepCovers(t, ScanAll(lines[..|lines| - 1]), ProcessAll(t, lines[..|lines| - 1]), lines[|lines| - 1]);
    }
  }

  /** Whatever the undecided conditions turn out to be, a line the preprocessor
      keeps is looked at. */
  lemma NeverMissesLiveCode(t: Truth, lines: seq<Line>, i: nat)
    requires i < |lines|
    ensures Kept(ProcessAll(t, lines[..i])) ==> Active(ScanAll(lines[..i]))
  {
    ScanCovers(t, lines[..i]);
    var stack, groups := ScanAll(lines[..i]), ProcessAll(t, lines[..i]);
    if stack != [] { assert Covers(stack[|stack| - 1], groups[|groups| - 1]); }
  }

  ghost predicate Literal(lines: seq<Line>) {
    forall i :: 0 <= i < |lines| && (lines[i].If? || lines[i].Elif?) ==> !lines[i].condition.Undecided?
  }

  ghost predicate Matches(f: Frame, g: Group) {
    f.known && f.parentActive == g.enclosing && f.branchTaken == g.chosen && f.active == g.kept
  }

  lemma StepMatches(t: Truth, stack: seq<Frame>, groups: seq<Group>, line: Line)
    requires |stack| == |groups| && forall i :: 0 <= i < |stack| ==> Matches(stack[i], groups[i])
    requires line.If? || line.Elif? ==> !line.condition.Undecided?
    ensures var a, b := Scan(stack, line), Process(t, groups, line);
            |a| == |b| && forall i :: 0 <= i < |a| ==> Matches(a[i], b[i])
  {
    if stack != [] { assert Matches(stack[|stack| - 1], groups[|groups| - 1]); }
  }

  /** With literal conditions only, it looks at exactly the lines that are kept. */
  lemma {:induction false} ExactWhenLiteral(t: Truth, lines: seq<Line>)
    requires Literal(lines)
    ensures Kept(ProcessAll(t, lines)) <==> Active(ScanAll(lines))
    ensures var a, b := ScanAll(lines), ProcessAll(t, lines);
            |a| == |b| && forall i :: 0 <= i < |a| ==> Matches(a[i], b[i])
  {
    if lines != [] {
      var n := |lines| - 1;
      ExactWhenLiteral(t, lines[..n]);
      StepMatches(t, ScanAll(lines[..n]), ProcessAll(t, lines[..n]), lines[n]);
    }
    var a, b := ScanAll(lines), ProcessAll(t, lines);
    if a != [] { assert Matches(a[|a| - 1], b[|b| - 1]); }
  }

  // ---------- from the source to the lines looked at ----------

  predicate IsSpace(c: char) {
    c in {' ', '\t', '\r', '\U{0B}', '\U{0C}'}
  }

  predicate IsWord(c: char) {
    'a' <= c <= 'z' || 'A' <= c <= 'Z' || '0' <= c <= '9' || c == '_'
  }

  function SkipSpace(s: string): string {
    if s != [] && IsSpace(s[0]) then SkipSpace(s[1..]) else s
  }

  function Trimmed(s: string): string {
    if s != [] && IsSpace(s[|s| - 1]) then Trimmed(s[..|s| - 1]) else SkipSpace(s)
  }

  function WordLength(s: string): (n: nat)
    ensures n <= |s|
  {
    if s != [] && IsWord(s[0]) then 1 + WordLength(s[1..]) else 0
  }

  function ConditionOf(place: nat, argument: string): Condition {
    if argument == "0" then Zero else if argument == "1" then One else Undecided(place, argument)
  }

  /** What a line of code is to the preprocessor. */
  function Classified(place: nat, code: string): Line {
    var s := SkipSpace(code);
    if s == [] || s[0] != '#' then Text
    else
      var rest := SkipSpace(s[1..]);
      var word, argument := rest[..WordLength(rest)], Trimmed(rest[WordLength(rest)..]);
      if word == "if" then If(ConditionOf(place, argument))
      else if word == "ifdef" || word == "ifndef" then If(Undecided(place, word + " " + argument))
      else if word == "elif" then Elif(ConditionOf(place, argument))
      else if word == "else" then Else
      else if word == "endif" then Endif
      else Text
  }

  function LineLength(s: string): (n: nat)
    ensures n <= |s| && (n < |s| ==> s[n] == '\n') && forall i :: 0 <= i < n ==> s[i] != '\n'
  {
    if s == [] || s[0] == '\n' then 0 else 1 + LineLength(s[1..])
  }

  /** The lines of a text, without their newlines. */
  function Lines(s: string): seq<string>
    decreases |s|
  {
    if s == [] then []
    else
      var n := LineLength(s);
      if n == |s| then [s] else [s[..n]] + Lines(s[n + 1..])
  }

  function AsCode(lines: seq<string>): seq<Line> {
    seq(|lines|, i requires 0 <= i < |lines| => Classified(i, lines[i]))
  }

  // ---------- what a line spells ----------

  ghost predicate Spaces(s: string) {
    forall i :: 0 <= i < |s| ==> IsSpace(s[i])
  }

  ghost predicate Word(s: string) {
    s != [] && forall i :: 0 <= i < |s| ==> IsWord(s[i])
  }

  /** No space at either end. */
  ghost predicate Bare(s: string) {
    s != [] ==> !IsSpace(s[0]) && !IsSpace(s[|s| - 1])
  }

  /** A `#`, a word and an argument, with spaces around each. */
  ghost predicate Spells(code: string, word: string, argument: string, gaps: (string, string, string, string)) {
    var rest := gaps.2 + argument + gaps.3;
    && Spaces(gaps.0) && Spaces(gaps.1) && Spaces(gaps.2) && Spaces(gaps.3) && Bare(argument)
    && code == gaps.0 + ("#" + (gaps.1 + (word + rest))) && (rest != [] ==> !IsWord(rest[0]))
  }

  lemma {:induction false} SkipSpaces(gap: string, rest: string)
    requires Spaces(gap) && (rest != [] ==> !IsSpace(rest[0]))
    ensures SkipSpace(gap + rest) == rest
  {
    if gap == [] {
      assert gap + rest == rest;
    } else {
      SkipSpaces(gap[1..], rest);
      assert (gap + rest)[1..] == gap[1..] + rest;
    }
  }

  lemma {:induction false} SkipSplits(s: string) returns (gap: string)
    ensures s == gap + SkipSpace(s) && Spaces(gap) && (SkipSpace(s) != [] ==> !IsSpace(SkipSpace(s)[0]))
  {
    if s != [] && IsSpace(s[0]) {
      gap := SkipSplits(s[1..]);
      gap := [s[0]] + gap;
    } else {
      gap := [];
    }
  }

  lemma {:induction false} WordOf(word: string, rest: string)
    requires (forall i :: 0 <= i < |word| ==> IsWord(word[i])) && (rest != [] ==> !IsWord(rest[0]))
    ensures WordLength(word + rest) == |word|
  {
    if word == [] {
      assert word + rest == rest;
    } else {
      WordOf(word[1..], rest);
      assert (word + rest)[1..] == word[1..] + rest;
    }
  }

  lemma {:induction false} WordSplits(s: string)
    ensures var n := WordLength(s); (forall i :: 0 <= i < n ==> IsWord(s[i])) && (n < |s| ==> !IsWord(s[n]))
  {
    if s != [] && IsWord(s[0]) {
      WordSplits(s[1..]);
      forall i | 0 <= i < WordLength(s) ensures IsWord(s[i]) { assert i > 0 ==> s[i] == s[1..][i - 1]; }
    }
  }

  lemma {:induction false} TrimmedOf(before: string, argument: string, after: string)
    requires Spaces(before) && Spaces(after) && Bare(argument)
    ensures Trimmed(before + argument + after) == argument
    decreases |before| + |after|
  {
    var s := before + argument + after;
    if after != [] {
      var n := |after| - 1;
      assert s[|s| - 1] == after[n] && s[..|s| - 1] == before + argument + after[..n];
      TrimmedOf(before, argument, after[..n]);
    } else {
      assert s == before + argument;
      if argument == [] && before != [] {
        var n := |before| - 1;
        assert s[|s| - 1] == before[n] && s[..|s| - 1] == before[..n] + argument + [];
        TrimmedOf(before[..n], argument, []);
      } else {
        SkipSpaces(before, argument);
      }
    }
  }

  lemma {:induction false} TrimSplits(s: string) returns (before: string, after: string)
    ensures s == before + Trimmed(s) + after && Spaces(before) && Spaces(after) && Bare(Trimmed(s))
  {
    if s != [] && IsSpace(s[|s| - 1]) {
      before, after := TrimSplits(s[..|s| - 1]);
      after := after + [s[|s| - 1]];
    } else {
      before := SkipSplits(s);
      after := [];
    }
  }

  /** The condition an argument names. */
  ghost function Named(place: nat, argument: string): Condition {
    match argument
    case "0" => Zero
    case "1" => One
    case _ => Undecided(place, argument)
  }

  /** Every directive the scanner knows is taken for what it spells, and no
      other word is taken for one. */
  lemma DirectiveRead(place: nat, code: string, word: string, argument: string, gaps: (string, string, string, string))
    requires Word(word) && Spells(code, word, argument, gaps)
    ensures word == "if" ==> Classified(place, code) == If(Named(place, argument))
    ensures word == "ifdef" || word == "ifndef" ==>
              Classified(place, code) == If(Undecided(place, word + " " + argument))
    ensures word == "elif" ==> Classified(place, code) == Elif(Named(place, argument))
    ensures word == "else" ==> Classified(place, code) == Else
    ensures word == "endif" ==> Classified(place, code) == Endif
    ensures word !in {"if", "ifdef", "ifndef", "elif", "else", "endif"} ==> Classified(place, code) == Text
  {
    hide SkipSpace, WordLength, Trimmed;
    var rest := gaps.2 + argument + gaps.3;
    var tail := "#" + (gaps.1 + (word + rest));
    SkipSpaces(gaps.0, tail);
    assert tail[1..] == gaps.1 + (word + rest);
    SkipSpaces(gaps.1, word + rest);
    WordOf(word, rest);
    assert (word + rest)[..|word|] == word && (word + rest)[|word|..] == rest;
    TrimmedOf(gaps.2, argument, gaps.3);
  }

  lemma KnownWord(place: nat, code: string)
    requires Classified(place, code) != Text
    ensures var s := SkipSpace(code);
            && s != [] && s[0] == '#'
            && var inner := SkipSpace(s[1..]);
               var word := inner[..WordLength(inner)];
               word != "" && word in {"if", "ifdef", "ifndef", "elif", "else", "endif"}
  {
    hide SkipSpace, WordLength, Trimmed, ConditionOf;
  }

  lemma WordAndArgument(inner: string) returns (argument: string, before: string, after: string)
    ensures Spaces(before) && Spaces(after) && Bare(argument)
    ensures var word, rest := inner[..WordLength(inner)], before + argument + after;
            inner == word + rest && (rest != [] ==> !IsWord(rest[0])) && (word != [] ==> Word(word))
  {
    hide WordLength, Trimmed, IsSpace, IsWord, Spaces, Bare;
    var n := WordLength(inner);
    WordSplits(inner);
    before, after := TrimSplits(inner[n..]);
    argument := Trimmed(inner[n..]);
    assert inner == inner[..n] + inner[n..];
  }

  lemma LineSpelled(code: string, s: string, inner: string)
    returns (argument: string, gaps: (string, string, string, string))
    requires s == SkipSpace(code) && s != [] && s[0] == '#' && inner == SkipSpace(s[1..])
    ensures Spells(code, inner[..WordLength(inner)], argument, gaps)
    ensures inner[..WordLength(inner)] != "" ==> Word(inner[..WordLength(inner)])
  {
    hide SkipSpace, WordLength, IsSpace, IsWord, Spaces, Bare, Word;
    var outer, between, before, after;
    outer := SkipSplits(code);
    between := SkipSplits(s[1..]);
    argument, before, after := WordAndArgument(inner);
    gaps := (outer, between, before, after);
    assert s == "#" + s[1..];
  }

  /** A line taken for a directive spells it. */
  lemma DirectiveSpelled(place: nat, code: string)
    returns (word: string, argument: string, gaps: (string, string, string, string))
    requires Classified(place, code) != Text
    ensures word in {"if", "ifdef", "ifndef", "elif", "else", "endif"} && Word(word)
    ensures Spells(code, word, argument, gaps)
  {
    hide SkipSpace, WordLength, Classified, Spells, Word;
    KnownWord(place, code);
    var s := SkipSpace(code);
    var inner := SkipSpace(s[1..]);
    word := inner[..WordLength(inner)];
    argument, gaps := LineSpelled(code, s, inner);
  }

  /** The lines put together again, each with its newline. */
  ghost function Rejoined(lines: seq<string>): string {
    if lines == [] then "" else lines[0] + "\n" + Rejoined(lines[1..])
  }

  /** Splitting loses nothing but the newlines. */
  lemma {:induction false} LinesRejoin(s: string)
    ensures Rejoined(Lines(s)) == if s != [] && s[|s| - 1] != '\n' then s + "\n" else s
    decreases |s|
  {
    hide LineLength;
    if s != [] {
      var n := LineLength(s);
      if n == |s| {
        assert s[|s| - 1] != '\n' && [s][1..] == [] && Rejoined([]) == "";
      } else {
        var first, rest := s[..n], s[n + 1..];
        LinesRejoin(rest);
        RejoinedFirst(first, Lines(rest));
        assert s == first + "\n" + rest;
        if rest == [] { assert s[|s| - 1] == '\n'; } else { assert s[|s| - 1] == rest[|rest| - 1]; }
      }
    }
  }

  lemma RejoinedFirst(first: string, rest: seq<string>)
    ensures Rejoined([first] + rest) == first + "\n" + Rejoined(rest)
  {
    assert ([first] + rest)[1..] == rest;
  }

  /** No line holds a newline. */
  lemma {:induction false} LinesSingle(s: string, i: nat)
    requires i < |Lines(s)|
    ensures '\n' !in Lines(s)[i]
    decreases |s|
  {
    hide LineLength;
    var n := LineLength(s);
    if n < |s| && i > 0 { LinesSingle(s[n + 1..], i - 1); }
  }

  /** The whole scan: the lines after stripping, and which of them are looked at.
      On a tidy source they are the lines the language sees, and whatever the
      undecided conditions turn out to be, every line of text that is compiled
      is looked at; with literal conditions only, no other line is. */
  method ScanSource(source: string) returns (lines: seq<string>, looked: seq<bool>)
    ensures |looked| == |lines| && (Tidy(source) ==> lines == Lines(Shown(Language, source)))
    ensures forall t: Truth, i :: 0 <= i < |lines| ==>
              (AsCode(lines)[i].Text? && Kept(ProcessAll(t, AsCode(lines)[..i])) ==> looked[i])
    ensures Literal(AsCode(lines)) ==>
              forall t: Truth, i :: 0 <= i < |lines| ==>
                (looked[i] <==> AsCode(lines)[i].Text? && Kept(ProcessAll(t, AsCode(lines)[..i])))
  {
    hide Strip, Shown, Tidy, Active, ScanAll, Kept, ProcessAll, Classified, Lines;
    var stripped := StripCommentsAndLiterals(source);
    if Tidy(source) { TidyText(source); }
    lines := Lines(stripped);
    var code := AsCode(lines);
    looked := LookedAt(code);
    forall t: Truth, i | 0 <= i < |lines| && code[i].Text? && Kept(ProcessAll(t, code[..i])) ensures looked[i] {
      NeverMissesLiveCode(t, code, i);
    }
    if Literal(code) {
      forall t: Truth, i | 0 <= i < |lines| ensures looked[i] <==> code[i].Text? && Kept(ProcessAll(t, code[..i])) {
        LiteralPrefix(code, i);
        ExactWhenLiteral(t, code[..i]);
      }
    }
  }

  lemma LiteralPrefix(lines: seq<Line>, n: nat)
    requires Literal(lines) && n <= |lines|
    ensures Literal(lines[..n])
  {}
}

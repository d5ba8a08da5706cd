/** Reading the event lines of a serial log back into attempts, with every
    truncation made explicit. */
module SerialLog {
  import opened Options

  datatype Id = Id(test: string, group: string, api: string)

  /** Whose run an event belongs to. */
  datatype Run = Run(id: string, manifest: string, architecture: string, preflight: bool)

  datatype Body =
    | SuiteStart(selected: nat)
    | TestStart(id: Id)
    | TestEnd(id: Id, status: string, stdout: Option<string>, infrastructure: bool, wellFormed: bool)
    | SuiteEnd(complete: bool, selected: nat, completed: nat, counts: map<string, nat>)
    | InfrastructureError(test: Option<string>, group: Option<string>, api: Option<string>, detail: string)

  datatype Event = Event(seqno: nat, run: Run, body: Body)

  /** A line of the log: program output, an event, or an event line that is no
      valid event. */
  datatype Line = Output(text: string) | Logged(event: Event) | Malformed

  datatype Attempt = Attempt(id: Id, status: string, stdout: string, infrastructure: bool)

  /** What the parser knows between two lines. */
  datatype State = State(
    events: seq<Event>, attempts: seq<Attempt>, active: Option<Id>, output: string,
    terminal: Option<Event>, suite: Option<Event>, previous: Option<nat>)

  const START: State := State([], [], None, "", None, None, None)

  datatype Parsed = Parsed(attempts: seq<Attempt>, complete: bool, terminal: Option<Event>)

  function Interrupted(id: Id, output: string): Attempt {
    Attempt(id, "interrupted", output, true)
  }

  function Agrees(field: Option<string>, value: string): bool {
    field.None? || field.value == value
  }

  /** An infrastructure error may name the test it interrupts. */
  predicate IdentityFits(body: Body, active: Option<Id>)
    requires body.InfrastructureError?
  {
    if active.None? then body.test.None? && body.group.None? && body.api.None?
    else
      && Agrees(body.test, active.value.test) && Agrees(body.group, active.value.group)
      && Agrees(body.api, active.value.api)
  }

  function Counts(attempts: seq<Attempt>): map<string, nat> {
    if attempts == [] then map[]
    else
      var before, status := Counts(attempts[..|attempts| - 1]), attempts[|attempts| - 1].status;
      before[status := (if status in before then before[status] else 0) + 1]
  }

  function Names(attempts: seq<Attempt>): set<string> {
    set i | 0 <= i < |attempts| :: attempts[i].id.test
  }

  /** What a suite end has to say about the attempts before it. */
  predicate EndFits(body: Body, attempts: seq<Attempt>, selected: nat)
    requires body.SuiteEnd?
  {
    && body.selected == selected && body.completed == |attempts| && body.completed <= selected
    && (body.complete ==>
          && body.completed == selected && |Names(attempts)| == selected
          && (forall i :: 0 <= i < |attempts| ==> attempts[i].status != "interrupted" && !attempts[i].infrastructure))
    && body.counts == Counts(attempts)
  }

  function Ended(s: State, e: Event): State {
    s.(terminal := Some(e))
  }

  /** One event, after the checks every event has to pass. */
  function Admit(s: State, e: Event): Option<State> {
    if s.terminal.Some? then None
    else if e.body.SuiteStart? then
      if s.suite.Some? || s.events != [] then None else Some(s.(suite := Some(e)))
    else if s.suite.None? then
      if !e.body.InfrastructureError? || s.events != [] || e.seqno != 1 || !e.run.preflight
        || !IdentityFits(e.body, s.active) then None
      else Some(Ended(s, e))
    else match e.body
      case TestStart(id) => if s.active.Some? then None else Some(s.(active := Some(id), output := ""))
      case TestEnd(id, status, stdout, infrastructure, wellFormed) =>
        if s.active != Some(id) || !wellFormed then None
        else
          var text := if stdout.Some? then stdout.value else s.output;
          Some(s.(attempts := s.attempts + [Attempt(id, status, text, infrastructure)], active := None, output := ""))
      case SuiteEnd(_, _, _, _) =>
        if s.active.Some? || !s.suite.value.body.SuiteStart?
          || !EndFits(e.body, s.attempts, s.suite.value.body.selected) then None
        else Some(Ended(s, e))
      case InfrastructureError(_, _, _, _) =>
        if !IdentityFits(e.body, s.active) then None
        else if s.active.None? then Some(Ended(s, e))
        else Some(Ended(s.(attempts := s.attempts + [Interrupted(s.active.value, s.output)], active := None,
          output := ""), e))
      case SuiteStart(_) => None
  }

  function Take(s: State, line: Line): Option<State> {
    match line
    case Output(text) => Some(if s.active.Some? && s.terminal.None? then s.(output := s.output + text + "\n") else s)
    case Malformed => None
    case Logged(e) =>
      if s.previous.Some? && e.seqno <= s.previous.value then None
      else if s.suite.Some? && e.run != s.suite.value.run then None
      else
        var next := Admit(s, e);
        if next.None? then None else Some(next.value.(events := s.events + [e], previous := Some(e.seqno)))
  }

  function TakeAll(lines: seq<Line>): Option<State> {
    if lines == [] then Some(START)
    else
      var s := TakeAll(lines[..|lines| - 1]);
      if s.None? then None else Take(s.value, lines[|lines| - 1])
  }

  /** The end of the log. A test still running becomes an interrupted attempt. */
  function Finish(s: State): Option<Parsed> {
    if s.suite.None? then
      if s.terminal.None? then None else Some(Parsed([], false, s.terminal))
    else
      var attempts := if s.active.Some? then s.attempts + [Interrupted(s.active.value, s.output)] else s.attempts;
      Some(Parsed(attempts, s.terminal.Some? && s.terminal.value.body.SuiteEnd?
        && s.terminal.value.body.complete, s.terminal))
  }

  function Parse(lines: seq<Line>): Option<Parsed> {
    var s := TakeAll(lines);
    if s.None? then None else Finish(s.value)
  }

  /** The parser as one loop over the lines. */
  method ParseSerialLog(lines: seq<Line>) returns (r: Option<Parsed>)
    ensures r.Some? <==> Accepted(lines)
    ensures r.Some? ==> Recounts(lines, r.value)
    ensures r == Parse(lines)
  {
    hide Admit, Finish, Accepted, Recounts;
    ParseIff(lines);
    var state, i := START, 0;
    assert lines[..0] == [];
    while i < |lines|
      invariant 0 <= i <= |lines| && TakeAll(lines[..i]) == Some(state)
    {
      assert lines[..i + 1][..i] == lines[..i];
      match lines[i] {
        case Malformed =>
          RefusedStays(lines, i + 1);
          return None;
        case Output(text) =>
          if state.active.Some? && state.terminal.None? {
            state := state.(output := state.output + text + "\n");
          }
        case Logged(e) =>
          var ordered := state.previous.None? || e.seqno > state.previous.value;
          var sameRun := state.suite.None? || e.run == state.suite.value.run;
          var next := if ordered && sameRun then Admit(state, e) else None;
          if next.None? {
            RefusedStays(lines, i + 1);
            return None;
          }
          state := next.value.(events := state.events + [e], previous := Some(e.seqno));
      }
      i := i + 1;
    }
    assert lines[..i] == lines;
    r := Finish(state);
  }

  /** A line refused is a log refused. */
  lemma {:induction false} RefusedStays(lines: seq<Line>, i: nat)
    requires i <= |lines| && TakeAll(lines[..i]).None?
    ensures TakeAll(lines).None?
  {
    if i == |lines| {
      assert lines[..i] == lines;
    } else {
      assert lines[..|lines| - 1][..i] == lines[..i];
      RefusedStays(lines[..|lines| - 1], i);
    }
  }

  // ---------- truncation ----------

  ghost predicate Reachable(s: State) {
    && (s.active.Some? ==> s.suite.Some? && s.terminal.None?)
    && (s.suite.None? ==> s.attempts == [])
    && (s.events != [] ==> s.suite.Some? || s.terminal.Some?)
    && (s.suite.Some? || s.terminal.Some? ==> s.events != [])
    && (s.suite.Some? ==> s.suite.value.body.SuiteStart?)
  }

  lemma TakeReachable(s: State, line: Line)
    requires Reachable(s) && Take(s, line).Some?
    ensures Reachable(Take(s, line).value) && s.attempts <= Take(s, line).value.attempts
  {
    hide EndFits;
  }

  lemma {:induction false} AllReachable(lines: seq<Line>)
    requires TakeAll(lines).Some?
    ensures Reachable(TakeAll(lines).value)
  {
    hide Take, Reachable;
    if lines != [] {
      AllReachable(lines[..|lines| - 1]);
      TakeReachable(TakeAll(lines[..|lines| - 1]).value, lines[|lines| - 1]);
    } else {
      StartReachable();
    }
  }

  lemma StartReachable()
    ensures Reachable(START)
  {}

  /** The attempts finished so far only grow. */
  lemma {:induction false} AttemptsGrow(lines: seq<Line>, i: nat)
    requires i <= |lines| && TakeAll(lines).Some?
    ensures TakeAll(lines[..i]).Some? && TakeAll(lines[..i]).value.attempts <= TakeAll(lines).value.attempts
  {
    hide Take, Reachable;
    if i == |lines| {
      assert lines[..i] == lines;
    } else {
      var n := |lines| - 1;
      AttemptsGrow(lines[..n], i);
      assert lines[..n][..i] == lines[..i];
      AllReachable(lines[..n]);
      TakeReachable(TakeAll(lines[..n]).value, lines[n]);
    }
  }

  ghost predicate HasEvent(lines: seq<Line>) {
    exists i :: 0 <= i < |lines| && lines[i].Logged?
  }

  lemma {:induction false} EventsCounted(lines: seq<Line>)
    requires TakeAll(lines).Some?
    ensures TakeAll(lines).value.events != [] <==> HasEvent(lines)
  {
    hide Admit;
    if lines != [] {
      var n := |lines| - 1;
      EventsCounted(lines[..n]);
      if HasEvent(lines[..n]) {
        var i :| 0 <= i < n && lines[..n][i].Logged?;
        assert lines[i].Logged?;
      }
      if HasEvent(lines) && !lines[n].Logged? {
        var i :| 0 <= i < |lines| && lines[i].Logged?;
        assert lines[..n][i].Logged?;
      }
      if lines[n].Logged? { assert HasEvent(lines); }
      TakeEvents(TakeAll(lines[..n]).value, lines[n]);
    }
  }

  lemma TakeEvents(s: State, line: Line)
    requires Take(s, line).Some?
    ensures Take(s, line).value.events == if line.Logged? then s.events + [line.event] else s.events
  {
    hide Admit;
  }

  /** Cut an accepted log after any line from its first event on: it is still
      accepted, with the same finished attempts up to there and at most one
      interrupted attempt more. */
  lemma TruncationIsExplicit(lines: seq<Line>, i: nat)
    requires i <= |lines| && Parse(lines).Some? && HasEvent(lines[..i])
    ensures Parse(lines[..i]).Some?
    ensures var part, whole, s := Parse(lines[..i]).value.attempts, Parse(lines).value.attempts,
            TakeAll(lines[..i]).value;
            && s.attempts <= whole
            && part == if s.active.Some? then s.attempts + [Interrupted(s.active.value, s.output)] else s.attempts
  {
    hide Take, EndFits;
    AttemptsGrow(lines, i);
    AllReachable(lines[..i]);
    AllReachable(lines);
    EventsCounted(lines[..i]);
  }

  // ---------- one attempt per started test ----------

  /** The tests that were started, in order. */
  ghost function Started(events: seq<Event>): seq<Id> {
    if events == [] then []
    else
      var last := events[|events| - 1].body;
      Started(events[..|events| - 1]) + if last.TestStart? then [last.id] else []
  }

  ghost function Attempted(attempts: seq<Attempt>): seq<Id> {
    seq(|attempts|, i requires 0 <= i < |attempts| => attempts[i].id)
  }

  ghost predicate Balanced(s: State) {
    Reachable(s) && Started(s.events) == Attempted(s.attempts) + if s.active.Some? then [s.active.value] else []
  }

  /** A start makes a test active; any other event leaves attempts and active
      test alone, or turns the active test into one more attempt. */
  lemma AdmitMoves(s: State, e: Event)
    requires Admit(s, e).Some?
    ensures var after := Admit(s, e).value;
            if e.body.TestStart? then s.active.None? && after.active == Some(e.body.id) && after.attempts == s.attempts
            else || (after.attempts == s.attempts && after.active == s.active)
                 || (s.active.Some? && after.active.None? && |after.attempts| == |s.attempts| + 1
                     && after.attempts == s.attempts + [after.attempts[|s.attempts|]]
                       && after.attempts[|s.attempts|].id == s.active.value)
  {
    hide EndFits;
  }

  lemma StartedNext(events: seq<Event>, e: Event)
    ensures Started(events + [e]) == Started(events) + if e.body.TestStart? then [e.body.id] else []
  {
    assert (events + [e])[..|events|] == events;
  }

  lemma AttemptedNext(attempts: seq<Attempt>, a: Attempt)
    ensures Attempted(attempts + [a]) == Attempted(attempts) + [a.id]
  {}

  lemma TakeBalanced(s: State, line: Line)
    requires Balanced(s) && Take(s, line).Some?
    ensures Balanced(Take(s, line).value)
  {
    hide Admit, Started, Attempted, Reachable;
    TakeReachable(s, line);
    if line.Logged? {
      var after := Take(s, line).value;
      AdmitMoves(s, line.event);
      StartedNext(s.events, line.event);
      if |after.attempts| > |s.attempts| { AttemptedNext(s.attempts, after.attempts[|s.attempts|]); }
    }
  }

  lemma {:induction false} AllBalanced(lines: seq<Line>)
    requires TakeAll(lines).Some?
    ensures Balanced(TakeAll(lines).value)
  {
    hide Take;
    if lines != [] {
      AllBalanced(lines[..|lines| - 1]);
      TakeBalanced(TakeAll(lines[..|lines| - 1]).value, lines[|lines| - 1]);
    }
  }

  /** The attempts are the started tests, one each and in their order. */
  lemma OneAttemptPerStart(lines: seq<Line>)
    requires Parse(lines).Some?
    ensures Attempted(Parse(lines).value.attempts) == Started(TakeAll(lines).value.events)
  {
    hide Take;
    AllBalanced(lines);
  }

  // ---------- output ----------

  /** The lines after the last event line. */
  ghost function SinceEvent(lines: seq<Line>): string {
    if lines == [] || !lines[|lines| - 1].Output? then ""
    else SinceEvent(lines[..|lines| - 1]) + lines[|lines| - 1].text + "\n"
  }

  /** While a test runs, every line it printed is kept, in order: an attempt
      that is cut short or has no output of its own carries all of it. */
  lemma {:induction false} OutputRetained(lines: seq<Line>)
    requires TakeAll(lines).Some? && TakeAll(lines).value.active.Some?
    ensures TakeAll(lines).value.output == SinceEvent(lines)
  {
    hide Admit, Reachable;
    if lines != [] {
      var n := |lines| - 1;
      var s := TakeAll(lines[..n]).value;
      AllReachable(lines[..n]);
      if lines[n].Output? {
        OutputRetained(lines[..n]);
        ActiveOpen(s);
      } else {
        StartClears(s, lines[n]);
      }
    }
  }

  lemma ActiveOpen(s: State)
    requires Reachable(s) && s.active.Some?
    ensures s.terminal.None?
  {}

  lemma StartClears(s: State, line: Line)
    requires line.Logged? && Take(s, line).Some? && Take(s, line).value.active.Some? && Reachable(s)
    ensures Take(s, line).value.output == ""
  {
    hide EndFits;
  }

  // ---------- completeness ----------

  ghost predicate Settled(s: State) {
    s.terminal.Some? && s.terminal.value.body.SuiteEnd? ==>
      && s.suite.Some? && s.suite.value.body.SuiteStart? && s.active.None?
      && EndFits(s.terminal.value.body, s.attempts, s.suite.value.body.selected) && s.terminal.value in s.events
  }

  lemma TakeSettled(s: State, line: Line)
    requires Settled(s) && Reachable(s) && Take(s, line).Some?
    ensures Settled(Take(s, line).value)
  {
    hide EndFits;
  }

  lemma {:induction false} AllSettled(lines: seq<Line>)
    requires TakeAll(lines).Some?
    ensures Settled(TakeAll(lines).value)
  {
    hide Take, EndFits;
    if lines != [] {
      AllSettled(lines[..|lines| - 1]);
      AllReachable(lines[..|lines| - 1]);
      TakeSettled(TakeAll(lines[..|lines| - 1]).value, lines[|lines| - 1]);
    }
  }

  lemma {:induction false} NamesBound(attempts: seq<Attempt>)
    ensures |Names(attempts)| <= |attempts|
  {
    if attempts != [] {
      var n := |attempts| - 1;
      NamesBound(attempts[..n]);
      NamesLast(attempts);
    }
  }

  lemma NamesLast(attempts: seq<Attempt>)
    requires attempts != []
    ensures Names(attempts) == Names(attempts[..|attempts| - 1]) + {attempts[|attempts| - 1].id.test}
  {
    var n := |attempts| - 1;
    forall x | x in Names(attempts[..n]) ensures x in Names(attempts) {
      var i :| 0 <= i < n && attempts[..n][i].id.test == x;
      assert attempts[i].id.test == x;
    }
    forall x | x in Names(attempts) && x != attempts[n].id.test ensures x in Names(attempts[..n]) {
      var i :| 0 <= i < |attempts| && attempts[i].id.test == x;
      assert attempts[..n][i].id.test == x;
    }
  }

  /** As many names as attempts: no test was attempted twice. */
  lemma {:induction false} NamesDistinct(attempts: seq<Attempt>, i: nat, j: nat)
    requires |Names(attempts)| == |attempts| && i < j < |attempts|
    ensures attempts[i].id.test != attempts[j].id.test
  {
    var n := |attempts| - 1;
    var before := attempts[..n];
    NamesLast(attempts);
    NamesBound(before);
    if j < n {
      NamesDistinct(before, i, j);
    } else {
      assert before[i].id.test in Names(before);
    }
  }

  /** A complete run has read a suite end that covers the selection: as many
      attempts as were selected, all different, none interrupted. */
  lemma CompleteMeansAll(lines: seq<Line>)
    requires Parse(lines).Some? && Parse(lines).value.complete
    ensures var s, attempts := TakeAll(lines).value, Parse(lines).value.attempts;
            && s.suite.Some? && s.suite.value.body.SuiteStart? && |attempts| == s.suite.value.body.selected
            && s.terminal.Some? && s.terminal.value.body.SuiteEnd? && s.terminal.value in s.events
            && (forall i :: 0 <= i < |attempts| ==> attempts[i].status != "interrupted" && !attempts[i].infrastructure)
            && (forall i, j :: 0 <= i < j < |attempts| ==> attempts[i].id.test != attempts[j].id.test)
  {
    hide Take;
    AllSettled(lines);
    var attempts := Parse(lines).value.attempts;
    forall i, j | 0 <= i < j < |attempts|
      ensures attempts[i].id.test != attempts[j].id.test { NamesDistinct(attempts, i, j); }
  }

  // ---------- which logs are accepted, read from their events ----------

  /** The events of a log, in order. */
  ghost function Events(lines: seq<Line>): seq<Event> {
    if lines == [] then []
    else
      var last := lines[|lines| - 1];
      Events(lines[..|lines| - 1]) + if last.Logged? then [last.event] else []
  }

  ghost predicate Closes(body: Body) {
    body.SuiteEnd? || body.InfrastructureError?
  }

  /** The first event starts the suite, or is the error of a run that never
      reached one. */
  ghost predicate Opens(e: Event) {
    || e.body.SuiteStart?
    || (e.body.InfrastructureError? && e.seqno == 1 && e.run.preflight
        && e.body.test.None? && e.body.group.None? && e.body.api.None?)
  }

  ghost predicate SaysNothingElse(field: Option<string>, value: string) {
    field.Some? ==> field.value == value
  }

  /** One test runs at a time: a test that has started is the next event's, and
      only then can a test end. */
  ghost predicate Follows(before: Body, body: Body) {
    match body
    case SuiteStart(_) => false
    case TestStart(_) => !before.TestStart?
    case TestEnd(id, _, _, _, wellFormed) => wellFormed && before == TestStart(id)
    case SuiteEnd(_, _, _, _) => !before.TestStart?
    case InfrastructureError(test, group, api, _) =>
      if before.TestStart? then
        && SaysNothingElse(test, before.id.test) && SaysNothingElse(group, before.id.group)
        && SaysNothingElse(api, before.id.api)
      else test == group == api == None
  }

  /** The ends of tests among the events. */
  ghost function Ends(events: seq<Event>): (r: seq<Body>)
    ensures forall k :: 0 <= k < |r| ==> r[k].TestEnd?
  {
    if events == [] then []
    else
      var last := events[|events| - 1].body;
      Ends(events[..|events| - 1]) + if last.TestEnd? then [last] else []
  }

  ghost function Statuses(ends: seq<Body>): seq<string>
    requires forall k :: 0 <= k < |ends| ==> ends[k].TestEnd?
  {
    seq(|ends|, k requires 0 <= k < |ends| => ends[k].status)
  }

  /** Every status that occurred, with how often it did. */
  ghost predicate Tallies(counts: map<string, nat>, statuses: seq<string>) {
    && (forall status :: status in counts <==> status in statuses)
    && (forall status :: status in counts ==> counts[status] == multiset(statuses)[status])
  }

  /** A suite end repeats the selection and counts the tests that ended; one
      that calls the run complete has seen every selected test end once, and
      none of them interrupted or failed by the infrastructure. */
  ghost predicate Totals(body: Body, ends: seq<Body>, selected: nat)
    requires body.SuiteEnd? && forall k :: 0 <= k < |ends| ==> ends[k].TestEnd?
  {
    && body.selected == selected && body.completed == |ends| && |ends| <= selected
    && Tallies(body.counts, Statuses(ends))
    && (body.complete ==>
          && |ends| == selected
          && (forall j, k :: 0 <= j < k < |ends| ==> ends[j].id.test != ends[k].id.test)
          && (forall k :: 0 <= k < |ends| ==> ends[k].status != "interrupted" && !ends[k].infrastructure))
  }

  ghost predicate EndAgrees(events: seq<Event>, i: nat)
    requires 0 < i < |events|
  {
    events[i].body.SuiteEnd? ==>
      events[0].body.SuiteStart? && Totals(events[i].body, Ends(events[..i]), events[0].body.selected)
  }

  /** Order, run, one suite, one test at a time, one closing event and last,
      and a suite end that agrees with what went before. */
  ghost predicate Lawful(events: seq<Event>) {
    && (events != [] ==> Opens(events[0]))
    && (forall i, j :: 0 <= i < j < |events| ==> events[i].seqno < events[j].seqno)
    && (forall i :: 0 <= i < |events| && events[0].body.SuiteStart? ==> events[i].run == events[0].run)
    && (forall i :: 0 <= i < |events| - 1 ==> !Closes(events[i].body))
    && (forall i :: 0 < i < |events| ==> Follows(events[i - 1].body, events[i].body))
    && (forall i :: 0 < i < |events| ==> EndAgrees(events, i))
  }

  ghost predicate Readable(lines: seq<Line>) {
    forall i :: 0 <= i < |lines| ==> !lines[i].Malformed?
  }

  ghost predicate Accepted(lines: seq<Line>) {
    Readable(lines) && Events(lines) != [] && Lawful(Events(lines))
  }

  /** What one more event has to meet. */
  ghost predicate Continues(events: seq<Event>, e: Event) {
    if events == [] then Opens(e)
    else
      var last := events[|events| - 1];
      && last.seqno < e.seqno && (events[0].body.SuiteStart? ==> e.run == events[0].run)
      && !Closes(last.body) && Follows(last.body, e.body)
      && (e.body.SuiteEnd? ==>
            events[0].body.SuiteStart? && Totals(e.body, Ends(events), events[0].body.selected))
  }

  lemma EndAgreesMore(events: seq<Event>, e: Event, i: nat)
    requires 0 < i < |events|
    ensures EndAgrees(events + [e], i) <==> EndAgrees(events, i)
  {
    assert (events + [e])[..i] == events[..i];
  }

  lemma LawfulShorter(events: seq<Event>, e: Event)
    requires Lawful(events + [e])
    ensures Lawful(events) && Continues(events, e)
  {
    hide EndAgrees, Follows, Opens, Closes, Totals;
    var more, n := events + [e], |events|;
    forall i | 0 <= i < n ensures more[i] == events[i] {}
    forall i | 0 < i < n ensures EndAgrees(events, i) {
      EndAgreesMore(events, e, i);
      assert EndAgrees(more, i);
    }
    forall i | 0 < i < n ensures Follows(events[i - 1].body, events[i].body) {
      assert Follows(more[i - 1].body, more[i].body);
    }
    if n > 0 { LastContinues(events, e); }
  }

  lemma LastContinues(events: seq<Event>, e: Event)
    requires events != [] && Lawful(events + [e])
    ensures Continues(events, e)
  {
    hide Follows, Opens, Closes, Totals;
    var more, n := events + [e], |events|;
    assert more[n - 1] == events[n - 1] && more[n] == e && more[0] == events[0] && more[..n] == events;
    assert more[n - 1].seqno < more[n].seqno;
    assert Follows(more[n - 1].body, more[n].body) && EndAgrees(more, n);
  }

  lemma LawfulLonger(events: seq<Event>, e: Event)
    requires Lawful(events) && Continues(events, e)
    ensures Lawful(events + [e])
  {
    hide EndAgrees, Follows, Opens, Closes, Totals;
    var more, n := events + [e], |events|;
    assert more[n] == e && forall i :: 0 <= i < n ==> more[i] == events[i];
    forall i | 0 < i < |more| ensures EndAgrees(more, i) {
      if i < n { EndAgreesMore(events, e, i); } else { LastAgrees(events, e); }
    }
    forall i, j | 0 <= i < j < |more| ensures more[i].seqno < more[j].seqno {
      assert j == n ==> i == n - 1 || events[i].seqno < events[n - 1].seqno;
    }
    forall i | 0 < i < |more| ensures Follows(more[i - 1].body, more[i].body) {
      assert more[i - 1] == events[i - 1];
    }
  }

  lemma LastAgrees(events: seq<Event>, e: Event)
    requires events != [] && Continues(events, e)
    ensures EndAgrees(events + [e], |events|)
  {
    hide Follows, Opens, Closes, Totals;
    assert (events + [e])[..|events|] == events;
  }

  // ---------- the parser's state, read from the events ----------

  /** The attempts are the ended tests. */
  ghost predicate Matches(attempts: seq<Attempt>, ends: seq<Body>)
    requires forall k :: 0 <= k < |ends| ==> ends[k].TestEnd?
  {
    && |attempts| == |ends|
    && forall k :: 0 <= k < |attempts| ==>
      && attempts[k].id == ends[k].id && attempts[k].status == ends[k].status
      && attempts[k].infrastructure == ends[k].infrastructure
  }

  ghost function Closing(events: seq<Event>): Option<Event> {
    if events != [] && Closes(events[|events| - 1].body) then Some(events[|events| - 1]) else None
  }

  ghost predicate Told(events: seq<Event>, s: State) {
    && s.events == events && s.terminal == Closing(events)
    && s.suite == (if events != [] && events[0].body.SuiteStart? then Some(events[0]) else None)
    && s.previous == (if events != [] then Some(events[|events| - 1].seqno) else None)
    && s.active == (if events != [] && events[|events| - 1].body.TestStart?
                    then Some(events[|events| - 1].body.id) else None)
    && (s.terminal.None? ==> Matches(s.attempts, Ends(events)))
  }

  lemma {:induction false} CountsTally(attempts: seq<Attempt>, statuses: seq<string>)
    requires |attempts| == |statuses| && forall k :: 0 <= k < |attempts| ==> attempts[k].status == statuses[k]
    ensures Tallies(Counts(attempts), statuses)
  {
    if attempts != [] {
      var n := |attempts| - 1;
      CountsTally(attempts[..n], statuses[..n]);
      assert statuses == statuses[..n] + [statuses[n]];
      assert multiset(statuses) == multiset(statuses[..n]) + multiset{statuses[n]};
      assert forall status :: status in statuses <==> status in statuses[..n] || status == statuses[n];
    }
  }

  lemma TallyOnce(a: map<string, nat>, b: map<string, nat>, statuses: seq<string>)
    requires Tallies(a, statuses) && Tallies(b, statuses)
    ensures a == b
  {
    assert a.Keys == b.Keys;
    forall status | status in a ensures a[status] == b[status] {
      assert status in b;
    }
  }

  /** Different names, one for each attempt. */
  lemma {:induction false} NamesCount(attempts: seq<Attempt>)
    requires forall i, j :: 0 <= i < j < |attempts| ==> attempts[i].id.test != attempts[j].id.test
    ensures |Names(attempts)| == |attempts|
  {
    if attempts != [] {
      var n := |attempts| - 1;
      NamesCount(attempts[..n]);
      NamesLast(attempts);
      assert forall i :: 0 <= i < n ==> attempts[..n][i].id.test != attempts[n].id.test;
    }
  }

  lemma NamesIff(attempts: seq<Attempt>)
    ensures |Names(attempts)| == |attempts|
            <==> forall i, j :: 0 <= i < j < |attempts| ==> attempts[i].id.test != attempts[j].id.test
  {
    hide Names;
    if |Names(attempts)| == |attempts| {
      forall i, j | 0 <= i < j < |attempts|
        ensures attempts[i].id.test != attempts[j].id.test { NamesDistinct(attempts, i, j); }
    } else if forall i, j :: 0 <= i < j < |attempts| ==> attempts[i].id.test != attempts[j].id.test {
      NamesCount(attempts);
    }
  }

  lemma EndFitsIff(body: Body, attempts: seq<Attempt>, ends: seq<Body>, selected: nat)
    requires body.SuiteEnd? && (forall k :: 0 <= k < |ends| ==> ends[k].TestEnd?) && Matches(attempts, ends)
    ensures EndFits(body, attempts, selected) <==> Totals(body, ends, selected)
  {
    hide Names, Counts, Tallies;
    CountsTally(attempts, Statuses(ends));
    if Tallies(body.counts, Statuses(ends)) { TallyOnce(body.counts, Counts(attempts), Statuses(ends)); }
    NamesIff(attempts);
  }

  lemma EndsMore(events: seq<Event>, e: Event)
    ensures Ends(events + [e]) == Ends(events) + if e.body.TestEnd? then [e.body] else []
  {
    assert (events + [e])[..|events|] == events;
  }

  /** An event is taken exactly when it continues the events before it. */
  lemma TakenIff(events: seq<Event>, s: State, e: Event)
    requires Told(events, s) && Lawful(events)
    ensures Take(s, Logged(e)).Some? <==> Continues(events, e)
  {
    hide EndFits, Totals, Ends, Matches, EndAgrees;
    if events != [] && s.suite.Some? && s.terminal.None? && e.body.SuiteEnd? {
      EndFitsIff(e.body, s.attempts, Ends(events), events[0].body.selected);
    }
  }

  lemma TakenTold(events: seq<Event>, s: State, e: Event)
    requires Told(events, s) && Lawful(events) && Take(s, Logged(e)).Some?
    ensures Told(events + [e], Take(s, Logged(e)).value)
  {
    hide EndFits, Totals, Ends, EndAgrees;
    EndsMore(events, e);
    var more := events + [e];
    assert more[|more| - 1] == e && (events != [] ==> more[0] == events[0]);
  }

  /** What the parser's state is, if it has one. */
  ghost predicate Follower(lines: seq<Line>) {
    && (TakeAll(lines).Some? <==> Readable(lines) && Lawful(Events(lines)))
    && (TakeAll(lines).Some? ==> Told(Events(lines), TakeAll(lines).value))
  }

  lemma FollowEvent(lines: seq<Line>, e: Event)
    requires Follower(lines)
    ensures Follower(lines + [Logged(e)])
  {
    hide Admit, Lawful, Continues, Told, Take;
    var more := lines + [Logged(e)];
    assert more[..|lines|] == lines;
    assert Readable(more) <==> Readable(lines) by {
      assert forall i :: 0 <= i < |lines| ==> more[i] == lines[i];
    }
    if Lawful(Events(more)) { LawfulShorter(Events(lines), e); }
    if TakeAll(lines).Some? {
      TakenIff(Events(lines), TakeAll(lines).value, e);
      if Continues(Events(lines), e) {
        LawfulLonger(Events(lines), e);
        TakenTold(Events(lines), TakeAll(lines).value, e);
      }
    }
  }

  lemma FollowOther(lines: seq<Line>, line: Line)
    requires Follower(lines) && !line.Logged?
    ensures Follower(lines + [line])
  {
    hide Admit, Lawful, Told;
    var more := lines + [line];
    assert more[..|lines|] == lines && more[|lines|] == line;
    assert Readable(more) <==> Readable(lines) && line.Output? by {
      assert forall i :: 0 <= i < |lines| ==> more[i] == lines[i];
    }
    assert Events(more) == Events(lines);
    if line.Output? && TakeAll(lines).Some? { OutputTold(Events(lines), TakeAll(lines).value, line); }
  }

  /** The parser takes the lines exactly while they are readable and lawful,
      and its state is what their events say. */
  lemma {:induction false} TakenLawful(lines: seq<Line>)
    ensures Follower(lines)
  {
    hide Follower;
    if lines == [] {
      NothingFollowed();
    } else {
      var n := |lines| - 1;
      TakenLawful(lines[..n]);
      assert lines[..n] + [lines[n]] == lines;
      if lines[n].Logged? {
        FollowEvent(lines[..n], lines[n].event);
      } else {
        FollowOther(lines[..n], lines[n]);
      }
    }
  }

  lemma NothingFollowed()
    ensures Follower([])
  {}

  lemma OutputTold(events: seq<Event>, s: State, line: Line)
    requires Told(events, s) && line.Output?
    ensures Take(s, line).Some? && Told(events, Take(s, line).value)
  {}

  // ---------- what the attempts hold, read from the lines ----------

  ghost predicate StartsTest(line: Line) {
    line.Logged? && line.event.body.TestStart?
  }

  /** The lines that start a test, in order. */
  ghost function Starts(lines: seq<Line>): (r: seq<nat>)
    ensures forall k :: 0 <= k < |r| ==> r[k] < |lines| && StartsTest(lines[r[k]])
  {
    if lines == [] then []
    else
      var n := |lines| - 1;
      Starts(lines[..n]) + if StartsTest(lines[n]) then [n] else []
  }

  /** The first event from line `i` on, or the end of the log. */
  ghost function EventFrom(lines: seq<Line>, i: nat): (j: nat)
    requires i <= |lines|
    ensures i <= j <= |lines| && (j < |lines| ==> lines[j].Logged?)
    ensures forall k :: i <= k < j ==> !lines[k].Logged?
    decreases |lines| - i
  {
    if i == |lines| || lines[i].Logged? then i else EventFrom(lines, i + 1)
  }

  /** What lines `i` to `j` print. */
  ghost function Printed(lines: seq<Line>, i: nat, j: nat): string
    requires i <= j <= |lines|
  {
    if i == j then ""
    else Printed(lines, i, j - 1) + if lines[j - 1].Output? then lines[j - 1].text + "\n" else ""
  }

  /** The attempt of the test started by line `i`: as the test end that is the
      next event says, with what was printed in between if it has no output of
      its own; without such an end, interrupted with what was printed. */
  ghost function AttemptOf(lines: seq<Line>, i: nat): Attempt
    requires i < |lines| && StartsTest(lines[i])
  {
    var j := EventFrom(lines, i + 1);
    var printed := Printed(lines, i + 1, j);
    if j < |lines| && lines[j].event.body.TestEnd? then
      var end := lines[j].event.body;
      Attempt(end.id, end.status, if end.stdout.Some? then end.stdout.value else printed, end.infrastructure)
    else Attempt(lines[i].event.body.id, "interrupted", printed, true)
  }

  ghost predicate Complete(terminal: Option<Event>) {
    terminal.Some? && terminal.value.body.SuiteEnd? && terminal.value.body.complete
  }

  /** The attempts of the log, whether its run was complete, and what closed it. */
  ghost predicate Recounts(lines: seq<Line>, parsed: Parsed) {
    && |parsed.attempts| == |Starts(lines)|
    && (forall k :: 0 <= k < |parsed.attempts| ==> parsed.attempts[k] == AttemptOf(lines, Starts(lines)[k]))
    && parsed.terminal == Closing(Events(lines))
    && parsed.complete == Complete(parsed.terminal)
  }

  lemma {:induction false} EventFromMore(lines: seq<Line>, line: Line, i: nat)
    requires i <= |lines|
    ensures EventFrom(lines + [line], i) ==
            if EventFrom(lines, i) < |lines| || line.Logged? then EventFrom(lines, i) else |lines| + 1
    decreases |lines| - i
  {
    if i < |lines| {
      assert (lines + [line])[i] == lines[i];
      if !lines[i].Logged? { EventFromMore(lines, line, i + 1); }
    } else {
      assert (lines + [line])[i] == line;
    }
  }

  lemma {:induction false} PrintedMore(lines: seq<Line>, line: Line, i: nat, j: nat)
    requires i <= j <= |lines|
    ensures Printed(lines + [line], i, j) == Printed(lines, i, j)
  {
    if i < j {
      PrintedMore(lines, line, i, j - 1);
      assert (lines + [line])[j - 1] == lines[j - 1];
    }
  }

  /** An attempt that has ended is not changed by later lines. */
  lemma AttemptMore(lines: seq<Line>, line: Line, i: nat)
    requires i < |lines| && StartsTest(lines[i]) && EventFrom(lines, i + 1) < |lines|
    ensures EventFrom(lines + [line], i + 1) < |lines| && AttemptOf(lines + [line], i) == AttemptOf(lines, i)
  {
    hide EventFrom, Printed;
    EventFromMore(lines, line, i + 1);
    var j := EventFrom(lines, i + 1);
    PrintedMore(lines, line, i + 1, j);
    assert (lines + [line])[i] == lines[i] && (lines + [line])[j] == lines[j];
  }

  lemma StartsMore(lines: seq<Line>, line: Line)
    ensures Starts(lines + [line]) == Starts(lines) + if StartsTest(line) then [|lines|] else []
  {
    assert (lines + [line])[..|lines|] == lines;
  }

  /** The test started by line `i` is still running. */
  ghost predicate Running(lines: seq<Line>, i: nat, s: State) {
    && i < |lines| && StartsTest(lines[i]) && EventFrom(lines, i + 1) == |lines|
    && s.active == Some(lines[i].event.body.id) && s.output == Printed(lines, i + 1, |lines|)
  }

  ghost predicate Kept(lines: seq<Line>, starts: seq<nat>, attempts: seq<Attempt>) {
    && |attempts| == |starts|
    && forall k :: 0 <= k < |starts| ==>
      && starts[k] < |lines| && StartsTest(lines[starts[k]]) && EventFrom(lines, starts[k] + 1) < |lines|
      && attempts[k] == AttemptOf(lines, starts[k])
  }

  ghost predicate Holds(lines: seq<Line>, s: State) {
    var starts := Starts(lines);
    if s.active.None? then Kept(lines, starts, s.attempts)
    else
      && starts != [] && Running(lines, starts[|starts| - 1], s)
      && Kept(lines, starts[..|starts| - 1], s.attempts)
  }

  lemma KeptMore(lines: seq<Line>, line: Line, starts: seq<nat>, attempts: seq<Attempt>)
    requires Kept(lines, starts, attempts)
    ensures Kept(lines + [line], starts, attempts)
  {
    hide EventFrom, AttemptOf;
    forall k | 0 <= k < |starts|
      ensures
        && starts[k] < |lines + [line]| && StartsTest((lines + [line])[starts[k]])
        && EventFrom(lines + [line], starts[k] + 1) < |lines + [line]|
        && attempts[k] == AttemptOf(lines + [line], starts[k])
    {
      AttemptMore(lines, line, starts[k]);
    }
  }

  lemma KeptNext(lines: seq<Line>, starts: seq<nat>, attempts: seq<Attempt>, i: nat, a: Attempt)
    requires Kept(lines, starts, attempts) && i < |lines| && StartsTest(lines[i])
    requires EventFrom(lines, i + 1) < |lines| && a == AttemptOf(lines, i)
    ensures Kept(lines, starts + [i], attempts + [a])
  {
    hide EventFrom, AttemptOf, StartsTest;
  }

  /** A running test that prints. */
  lemma RunningPrints(lines: seq<Line>, line: Line, i: nat, s: State)
    requires Running(lines, i, s) && line.Output? && s.terminal.None?
    ensures Running(lines + [line], i, Take(s, line).value)
  {
    hide EventFrom;
    EventFromMore(lines, line, i + 1);
    PrintedMore(lines, line, i + 1, |lines|);
    assert (lines + [line])[i] == lines[i] && (lines + [line])[|lines|] == line;
  }

  /** A running test whose next event is there: this is its attempt. */
  lemma RunningEnds(lines: seq<Line>, line: Line, i: nat, s: State)
    requires Running(lines, i, s) && line.Logged? && Take(s, line).Some? && Reachable(s)
    ensures EventFrom(lines + [line], i + 1) == |lines|
    ensures Take(s, line).value.active.None?
    ensures i < |lines| && StartsTest((lines + [line])[i])
    ensures Take(s, line).value.attempts == s.attempts + [AttemptOf(lines + [line], i)]
  {
    hide EventFrom, Printed, EndFits;
    EventFromMore(lines, line, i + 1);
    PrintedMore(lines, line, i + 1, |lines|);
    assert (lines + [line])[i] == lines[i] && (lines + [line])[|lines|] == line;
  }

  lemma TakeHolds(lines: seq<Line>, line: Line, s: State)
    requires Holds(lines, s) && Reachable(s) && Take(s, line).Some?
    ensures Holds(lines + [line], Take(s, line).value)
  {
    hide Take, Reachable, Kept, Running, Starts;
    var starts, after := Starts(lines), Take(s, line).value;
    StartsMore(lines, line);
    if s.active.None? {
      KeptMore(lines, line, starts, s.attempts);
      IdleTakes(lines, line, s);
      if StartsTest(line) {
        assert (starts + [|lines|])[..|starts|] == starts;
      } else {
        assert starts + [] == starts;
      }
    } else {
      var i, before := starts[|starts| - 1], starts[..|starts| - 1];
      assert before + [i] == starts == starts + [];
      KeptMore(lines, line, before, s.attempts);
      if line.Output? {
        BusyPrints(s, line);
        RunningPrints(lines, line, i, s);
      } else {
        BusyTakes(s, line);
        RunningEnds(lines, line, i, s);
        KeptNext(lines + [line], before, s.attempts, i, AttemptOf(lines + [line], i));
      }
    }
  }

  /** No test running: only a test start changes that, and no attempt is added. */
  lemma IdleTakes(lines: seq<Line>, line: Line, s: State)
    requires s.active.None? && Reachable(s) && Take(s, line).Some?
    ensures var after := Take(s, line).value;
            && after.attempts == s.attempts
            && after.active.Some? == StartsTest(line)
            && (after.active.Some? ==> Running(lines + [line], |lines|, after))
  {
    hide EndFits;
  }

  lemma BusyPrints(s: State, line: Line)
    requires s.active.Some? && Reachable(s) && line.Output?
    ensures s.terminal.None? && Take(s, line).Some?
    ensures Take(s, line).value.active == s.active && Take(s, line).value.attempts == s.attempts
  {}

  lemma BusyTakes(s: State, line: Line)
    requires s.active.Some? && Reachable(s) && !line.Output? && Take(s, line).Some?
    ensures line.Logged? && !StartsTest(line)
  {
    hide EndFits;
  }

  lemma {:induction false} AllHold(lines: seq<Line>)
    requires TakeAll(lines).Some?
    ensures Holds(lines, TakeAll(lines).value)
  {
    hide Take, Holds;
    if lines == [] {
      NothingHeld();
    } else {
      var n := |lines| - 1;
      AllHold(lines[..n]);
      AllReachable(lines[..n]);
      TakeHolds(lines[..n], lines[n], TakeAll(lines[..n]).value);
      assert lines[..n] + [lines[n]] == lines;
    }
  }

  lemma NothingHeld()
    ensures Holds([], START)
  {}

  /** The log is accepted exactly when its events are lawful, and the answer is
      read off its lines. */
  lemma ParseIff(lines: seq<Line>)
    ensures Parse(lines).Some? <==> Accepted(lines)
    ensures Parse(lines).Some? ==> Recounts(lines, Parse(lines).value)
  {
    hide Take, TakeAll, Lawful, Holds, Told, Finish, Recounts;
    TakenLawful(lines);
    if TakeAll(lines).Some? {
      OpenedIff(lines);
      if Parse(lines).Some? {
        AllHold(lines);
        AllReachable(lines);
        FinishHolds(lines, TakeAll(lines).value);
      }
    }
  }

  lemma OpenedIff(lines: seq<Line>)
    requires TakeAll(lines).Some? && Told(Events(lines), TakeAll(lines).value) && Lawful(Events(lines))
    ensures Parse(lines).Some? <==> Events(lines) != []
  {
    hide Take, TakeAll, Matches, Ends;
  }

  lemma FinishHolds(lines: seq<Line>, s: State)
    requires Holds(lines, s) && Reachable(s) && Told(Events(lines), s) && Lawful(Events(lines)) && Finish(s).Some?
    ensures Recounts(lines, Finish(s).value)
  {
    hide AttemptOf, Starts, Events, Matches, Ends, Closing, Running, Kept, Reachable, StartsTest, Lawful;
    var starts := Starts(lines);
    FinishNames(s);
    NoSuiteNoEnd(Events(lines), s);
    if s.active.Some? {
      RunningStops(lines, starts[|starts| - 1], s);
      KeptAll(lines, starts[..|starts| - 1], s.attempts);
    } else {
      assert s.attempts + [] == s.attempts;
      KeptAll(lines, starts, s.attempts);
    }
  }

  /** Without a suite, only an error closes the log. */
  lemma NoSuiteNoEnd(events: seq<Event>, s: State)
    requires Told(events, s) && Lawful(events)
    ensures s.suite.None? ==> !Complete(s.terminal)
  {
    hide Ends, Matches, EndAgrees, Follows;
  }

  lemma FinishNames(s: State)
    requires Reachable(s) && Finish(s).Some?
    ensures Finish(s).value.attempts
            == s.attempts + if s.active.Some? then [Interrupted(s.active.value, s.output)] else []
  {}

  lemma KeptAll(lines: seq<Line>, starts: seq<nat>, attempts: seq<Attempt>)
    requires Kept(lines, starts, attempts)
    ensures |attempts| == |starts|
    ensures forall k :: 0 <= k < |starts| ==>
      starts[k] < |lines| && StartsTest(lines[starts[k]]) && attempts[k] == AttemptOf(lines, starts[k])
  {
    hide AttemptOf, EventFrom, StartsTest;
  }

  /** The log stops while a test runs. */
  lemma RunningStops(lines: seq<Line>, i: nat, s: State)
    requires Running(lines, i, s)
    ensures i < |lines| && StartsTest(lines[i]) && s.active.Some?
    ensures AttemptOf(lines, i) == Interrupted(s.active.value, s.output)
  {
    hide EventFrom, Printed;
  }
}

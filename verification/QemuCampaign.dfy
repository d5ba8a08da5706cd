/** The resumable campaign loop: tests run in order, a checkpoint after every
    change, and a crash at any point. */
module QemuCampaign {
  import opened Options
  import opened Outcomes

  /** What is found out about a test: its status, whether the infrastructure
      failed it, and whether the host's watchdog says so. */
  datatype Finding = Finding(status: string, infrastructure: bool, watchdog: bool)

  datatype Attempt = Attempt(id: string, finding: Finding)

  /** What a started test comes to: a finding, by its own account or by the
      watchdog's, with the prompt back or not; a report that the guest cannot go
      on, with or without a finding; or output that is no valid event stream. */
  datatype Guest =
    | Attempted(finding: Finding, ready: bool)
    | Unfit(reason: string, partial: Option<Finding>)
    | Invalid

  /** Nothing is heard until the deadline. */
  const SILENT: Guest := Attempted(Finding("timeout", true, true), false)

  function Told(guests: seq<Guest>, n: nat): Guest {
    if n < |guests| then guests[n] else SILENT
  }

  /** What the controller does not accept: no valid stream, or a report that
      gives no reason. */
  predicate Rejected(g: Guest) {
    g.Invalid? || (g.Unfit? && g.reason == "")
  }

  /** The emulator can run another test: the prompt is back, and the watchdog had
      no part in it. */
  predicate Back(g: Guest) {
    g.Attempted? && g.ready && !g.finding.watchdog
  }

  function Prompt(launches: seq<bool>, n: nat): bool {
    n < |launches| ==> launches[n]
  }

  function FindingOf(g: Guest): Option<Finding> {
    match g
    case Attempted(finding, _) => Some(finding)
    case Unfit(_, partial) => partial
    case Invalid => None
  }

  /** The attempts with the one this guest has made of test `id`, if it has. */
  ghost function WithAttempt(attempts: seq<Attempt>, id: string, g: Guest): seq<Attempt> {
    match g
    case Attempted(finding, _) => attempts + [Attempt(id, finding)]
    case Unfit(_, Some(finding)) => attempts + [Attempt(id, finding)]
    case Unfit(_, None) => attempts
    case Invalid => attempts
  }

  datatype Checkpoint = Checkpoint(
    selected: seq<string>, attempts: seq<Attempt>, current: Option<string>, boots: nat, restarts: nat,
      infrastructure: Option<string>)

  datatype Report = Report(attempts: seq<Attempt>, complete: bool, boots: nat, restarts: nat)

  function Ids(attempts: seq<Attempt>): seq<string> {
    seq(|attempts|, i requires 0 <= i < |attempts| => attempts[i].id)
  }

  predicate Distinct(ids: seq<string>) {
    forall i, j :: 0 <= i < j < |ids| ==> ids[i] != ids[j]
  }

  function RestartsFor(boots: nat): nat {
    if boots > 0 then boots - 1 else 0
  }

  /** The checks a checkpoint has to pass before a campaign resumes from it. */
  predicate Accepted(c: Checkpoint, selected: seq<string>) {
    && c.selected == selected
    && !(c.infrastructure.Some? && c.current.Some?) && (c.infrastructure.Some? ==> c.infrastructure.value != "")
    && c.restarts == RestartsFor(c.boots)
    && (c.boots == 0 ==> c.attempts == [] && c.current.None? && c.infrastructure.None?)
    && Distinct(Ids(c.attempts)) && |c.attempts| <= |selected| && Ids(c.attempts) == selected[..|c.attempts|]
    && (c.current.Some? ==> |c.attempts| < |selected| && c.current.value == selected[|c.attempts|])
  }

  /** Which reports may call themselves complete. */
  predicate Complete(attempts: seq<Attempt>, selected: seq<string>, infrastructure: Option<string>) {
    && Ids(attempts) == selected && infrastructure.None?
    && forall i :: 0 <= i < |attempts| ==> !attempts[i].finding.infrastructure || attempts[i].finding.watchdog
  }

  /** A report lists the selection in order, up to some test; all of it if it
      says it is complete. */
  ghost predicate Reported(report: Report, selected: seq<string>) {
    && |report.attempts| <= |selected| && Ids(report.attempts) == selected[..|report.attempts|]
    && (report.complete ==> Ids(report.attempts) == selected)
  }

  /** The checkpoint of a campaign that has nothing left to run. */
  predicate Terminal(c: Checkpoint) {
    c.current.None? && (c.infrastructure.Some? || Ids(c.attempts) == c.selected)
  }

  function ReportOf(c: Checkpoint): Report {
    Report(c.attempts, Complete(c.attempts, c.selected, c.infrastructure), c.boots, c.restarts)
  }

  // ---------- what happened, in order ----------

  /** A run began; the emulator was launched, and its prompt came or not; a test
      was started, by its place in the selection, and came to this; or these
      attempts were put on record, with the number of launches so far. */
  datatype Entry =
    | Began
    | Launched(ok: bool)
    | Started(place: nat, guest: Guest)
    | Saved(attempts: seq<Attempt>, boots: nat)

  /** The attempts on record. */
  ghost function OnFile(log: seq<Entry>): seq<Attempt> {
    if log == [] then []
    else
      var last := log[|log| - 1];
      if last.Saved? then last.attempts else OnFile(log[..|log| - 1])
  }

  /** The number of launches on record. */
  ghost function BootsOnFile(log: seq<Entry>): nat {
    if log == [] then 0
    else
      var last := log[|log| - 1];
      if last.Saved? then last.boots else BootsOnFile(log[..|log| - 1])
  }

  /** The launches a run knows of: those on record when it began, and its own. */
  ghost function Boots(log: seq<Entry>): nat {
    if log == [] then 0
    else
      var front, last := log[..|log| - 1], log[|log| - 1];
      match last
      case Began => BootsOnFile(front)
      case Launched(_) => Boots(front) + 1
      case Started(_, _) => Boots(front)
      case Saved(_, _) => Boots(front)
  }

  /** How things stand with the emulator: none was launched yet in this run; it
      waits at the prompt; the last test left it unusable; or there is nothing
      more to do with it in this run. */
  datatype Phase = Fresh | Waiting | Dead | Over

  ghost function PhaseOf(log: seq<Entry>): Phase {
    if log == [] then Over
    else
      match log[|log| - 1]
      case Began => Fresh
      case Launched(ok) => if ok then Waiting else Over
      case Started(_, guest) => if !guest.Attempted? then Over else if Back(guest) then Waiting else Dead
      case Saved(_, _) => PhaseOf(log[..|log| - 1])
  }

  /** The emulator is launched when there is none, or the last test left it
      unusable; the first test that is not on record is started when it waits at
      the prompt; one more attempt is put on record only right after its test
      was started, as it came out; and the launches are counted. */
  ghost predicate Follows(log: seq<Entry>, e: Entry) {
    var recorded := OnFile(log);
    match e
    case Began => true
    case Launched(_) => PhaseOf(log) == Fresh || PhaseOf(log) == Dead
    case Started(place, _) => place == |recorded| && PhaseOf(log) == Waiting
    case Saved(attempts, boots) =>
      && boots == Boots(log)
      && (attempts == recorded
          || (recorded <= attempts && |attempts| == |recorded| + 1 && log != []
              && Yields(log[|log| - 1], |recorded|, attempts[|recorded|])))
  }

  /** The test at this place was started and came to this attempt. */
  ghost predicate Yields(e: Entry, place: nat, a: Attempt) {
    e.Started? && e.place == place
      && ((e.guest.Attempted? && e.guest.finding == a.finding)
          || (e.guest.Unfit? && e.guest.partial == Some(a.finding)))
  }

  /** Some start came to this attempt. */
  ghost predicate Witnessed(log: seq<Entry>, place: nat, a: Attempt) {
    exists q :: 0 <= q < |log| && Yields(log[q], place, a)
  }

  /** A started test reported that the guest cannot go on, and why. */
  ghost predicate Blamed(log: seq<Entry>, reason: string) {
    exists q :: 0 <= q < |log| && log[q].Started? && log[q].guest.Unfit? && log[q].guest.reason == reason
  }

  /** What the started tests came to, and which launches reached the prompt, in
      order. */
  datatype Past = Past(guests: seq<Guest>, launches: seq<bool>)

  ghost function PastOf(log: seq<Entry>): Past {
    if log == [] then Past([], [])
    else
      var front := PastOf(log[..|log| - 1]);
      match log[|log| - 1]
      case Began => front
      case Launched(ok) => front.(launches := front.launches + [ok])
      case Started(_, guest) => front.(guests := front.guests + [guest])
      case Saved(_, _) => front
  }

  /** What the first launches and starts of a run add to the past. */
  ghost function Since(before: Past, launches: seq<bool>, launched: nat, guests: seq<Guest>, started: nat): Past {
    Past(
      before.guests + seq(started, i requires 0 <= i < started => if i < |guests| then guests[i] else SILENT),
      before.launches + seq(launched, i requires 0 <= i < launched => i >= |launches| || launches[i]))
  }

  lemma PastMore(log: seq<Entry>, e: Entry)
    ensures PastOf(log + [e]) == match e
                                 case Began => PastOf(log)
                                 case Launched(ok) => PastOf(log).(launches := PastOf(log).launches + [ok])
                                 case Started(_, guest) => PastOf(log).(guests := PastOf(log).guests + [guest])
                                 case Saved(_, _) => PastOf(log)
  {
    assert (log + [e])[..|log|] == log;
  }

  lemma SinceMore(before: Past, launches: seq<bool>, launched: nat, guests: seq<Guest>, started: nat)
    ensures var now := Since(before, launches, launched, guests, started);
            && now.(guests := now.guests + [Told(guests, started)])
               == Since(before, launches, launched, guests, started + 1)
            && now.(launches := now.launches + [Prompt(launches, launched)])
               == Since(before, launches, launched + 1, guests, started)
  {}

  lemma SinceNothing(before: Past, launches: seq<bool>, guests: seq<Guest>)
    ensures Since(before, launches, 0, guests, 0) == before
  {}

  ghost predicate Orderly(log: seq<Entry>) {
    log != [] ==> Orderly(log[..|log| - 1]) && Follows(log[..|log| - 1], log[|log| - 1])
  }

  lemma Appended(log: seq<Entry>, e: Entry)
    requires Orderly(log) && Follows(log, e)
    ensures Orderly(log + [e]) && OnFile(log + [e]) == if e.Saved? then e.attempts else OnFile(log)
    ensures BootsOnFile(log + [e]) == if e.Saved? then e.boots else BootsOnFile(log)
    ensures Boots(log + [e]) == if e.Began? then BootsOnFile(log) else Boots(log) + if e.Launched? then 1 else 0
    ensures e.Saved? ==> PhaseOf(log + [e]) == PhaseOf(log)
    ensures e.Began? ==> PhaseOf(log + [e]) == Fresh
    ensures e.Launched? ==> PhaseOf(log + [e]) == if e.ok then Waiting else Over
    ensures e.Started? ==>
              PhaseOf(log + [e]) == if !e.guest.Attempted? then Over else if Back(e.guest) then Waiting else Dead
  {
    hide Follows;
    assert (log + [e])[..|log|] == log;
  }

  /** What the controller may put down next. */
  lemma MayFollow(log: seq<Entry>, attempts: seq<Attempt>, boots: nat)
    requires OnFile(log) == attempts && boots == Boots(log)
    ensures Follows(log, Saved(attempts, boots))
    ensures PhaseOf(log) == Waiting ==> forall g :: Follows(log, Started(|attempts|, g))
    ensures PhaseOf(log) == Fresh || PhaseOf(log) == Dead ==> forall ok :: Follows(log, Launched(ok))
    ensures log != [] ==>
              forall x :: Yields(log[|log| - 1], |attempts|, x) ==> Follows(log, Saved(attempts + [x], boots))
  {
    hide OnFile, Boots, PhaseOf;
  }

  /** How the log of a new campaign begins. */
  ghost function Opening(): seq<Entry> {
    [Began, Saved([], 0)]
  }

  lemma FirstEntries()
    ensures Orderly(Opening()) && OnFile(Opening()) == [] && BootsOnFile(Opening()) == Boots(Opening()) == 0
    ensures PhaseOf(Opening()) == Fresh && PastOf(Opening()) == Past([], [])
  {
    assert Orderly([]);
    Appended([], Began);
    assert [] + [Began] == [Began] && [Began] + [Saved([], 0)] == Opening();
    PastMore([], Began);
    PastMore([Began], Saved([], 0));
    assert OnFile([Began]) == [] by { assert [Began][..0] == []; }
    Appended([Began], Saved([], 0));
  }

  /** A run may begin at any time, with what is on record. */
  lemma BeginsAgain(log: seq<Entry>)
    requires Orderly(log)
    ensures Orderly(log + [Began]) && OnFile(log + [Began]) == OnFile(log)
    ensures BootsOnFile(log + [Began]) == Boots(log + [Began]) == BootsOnFile(log)
    ensures PhaseOf(log + [Began]) == Fresh && PastOf(log + [Began]) == PastOf(log)
    ensures forall reason :: Blamed(log, reason) ==> Blamed(log + [Began], reason)
  {
    hide Orderly, OnFile, PastOf, Blamed, Boots, BootsOnFile, PhaseOf;
    Appended(log, Began);
    PastMore(log, Began);
    StillBlamed(log, Began);
  }

  /** What a longer log says about a shorter one. */
  lemma Extended(was: seq<Entry>, log: seq<Entry>)
    requires Orderly(log) && was <= log
    ensures OnFile(was) <= OnFile(log)
    ensures forall q :: |was| <= q < |log| && log[q].Started? ==> |OnFile(was)| <= log[q].place
  {
    hide OnFile, Orderly;
    assert log[..|was|] == was;
    RecordGrows(log, |was|);
    forall q | |was| <= q < |log| && log[q].Started? ensures |OnFile(was)| <= log[q].place {
      StartsAbove(log, |was|, q);
    }
  }

  /** The record only grows. */
  lemma {:induction false} RecordGrows(log: seq<Entry>, n: nat)
    requires Orderly(log) && n <= |log|
    ensures Orderly(log[..n]) && OnFile(log[..n]) <= OnFile(log)
  {
    if n == |log| {
      assert log[..n] == log;
    } else {
      var front := log[..|log| - 1];
      RecordGrows(front, n);
      assert front[..n] == log[..n];
    }
  }

  /** A test is never started again once it is on record. */
  lemma NeverAgain(log: seq<Entry>, p: nat, q: nat)
    requires Orderly(log) && p < q < |log| && log[p].Saved? && log[q].Started?
    ensures |log[p].attempts| <= log[q].place
  {
    RecordGrows(log, q + 1);
    assert log[..q + 1][..q] == log[..q];
    RecordGrows(log[..q], p + 1);
    assert log[..q][..p + 1] == log[..p + 1];
    assert OnFile(log[..p + 1]) == log[p].attempts;
  }

  /** Starts come after the record they extend. */
  lemma StartsAbove(log: seq<Entry>, n: nat, q: nat)
    requires Orderly(log) && n <= q < |log| && log[q].Started?
    ensures |OnFile(log[..n])| <= log[q].place
  {
    RecordGrows(log, q + 1);
    assert log[..q + 1][..q] == log[..q];
    RecordGrows(log[..q], n);
    assert log[..q][..n] == log[..n];
  }

  /** Whatever is on record is what a started test came to. */
  lemma {:induction false} RecordedWasStarted(log: seq<Entry>, i: nat)
    requires Orderly(log) && i < |OnFile(log)|
    ensures Witnessed(log, i, OnFile(log)[i])
  {
    var front, last := log[..|log| - 1], log[|log| - 1];
    if i < |OnFile(front)| {
      RecordedWasStarted(front, i);
      var q :| 0 <= q < |front| && Yields(front[q], i, OnFile(front)[i]);
      assert log[q] == front[q];
    } else {
      assert Yields(front[|front| - 1], i, OnFile(log)[i]);
      assert log[|front| - 1] == front[|front| - 1];
    }
  }

  /** Since entry `p` nothing but records. */
  ghost predicate OnlySaved(log: seq<Entry>, p: nat, q: nat) {
    forall t :: p < t < q && t < |log| ==> log[t].Saved?
  }

  /** The last thing before `q` is a launch that reached the prompt, or a test
      that left the emulator there. */
  ghost predicate AtPrompt(log: seq<Entry>, q: nat) {
    exists p :: 0 <= p < q && p < |log| && OnlySaved(log, p, q)
                && (log[p] == Launched(true) || (log[p].Started? && Back(log[p].guest)))
  }

  /** The last thing before `q` is the beginning of a run, or a test that left
      the emulator unusable. */
  ghost predicate WithoutPrompt(log: seq<Entry>, q: nat) {
    exists p :: 0 <= p < q && p < |log| && OnlySaved(log, p, q)
                && (log[p].Began? || (log[p].Started? && log[p].guest.Attempted? && !Back(log[p].guest)))
  }

  lemma {:induction false} PhaseFrom(log: seq<Entry>, n: nat)
    requires n <= |log|
    ensures PhaseOf(log[..n]) == Waiting ==> AtPrompt(log, n)
    ensures PhaseOf(log[..n]) in {Fresh, Dead} ==> WithoutPrompt(log, n)
  {
    if n > 0 {
      var front, last := log[..n][..n - 1], log[n - 1];
      assert front == log[..n - 1] && log[..n][n - 1] == last;
      PhaseFrom(log, n - 1);
      if last.Saved? {
        if PhaseOf(log[..n]) == Waiting {
          var p :| 0 <= p < n - 1 && OnlySaved(log, p, n - 1)
                   && (log[p] == Launched(true) || (log[p].Started? && Back(log[p].guest)));
          assert OnlySaved(log, p, n);
        }
        if PhaseOf(log[..n]) in {Fresh, Dead} {
          var p :| 0 <= p < n - 1 && OnlySaved(log, p, n - 1)
                   && (log[p].Began? || (log[p].Started? && log[p].guest.Attempted? && !Back(log[p].guest)));
          assert OnlySaved(log, p, n);
        }
      } else {
        assert OnlySaved(log, n - 1, n);
      }
    }
  }

  /** No test is started but at a prompt of the same run, and the emulator is
      launched again only when there is no prompt to be had. */
  lemma LaunchedWhenNeeded(log: seq<Entry>, q: nat)
    requires Orderly(log) && q < |log|
    ensures log[q].Started? ==> AtPrompt(log, q)
    ensures log[q].Launched? ==> WithoutPrompt(log, q)
  {
    hide AtPrompt, WithoutPrompt;
    RecordGrows(log, q + 1);
    assert log[..q + 1][..q] == log[..q];
    PhaseFrom(log, q);
  }

  /** The launches that were lost: made by a run that ended before it counted
      them. */
  ghost function Lost(log: seq<Entry>): nat
    requires Orderly(log)
  {
    if log == [] then 0
    else
      var front := log[..|log| - 1];
      Lost(front) + if log[|log| - 1].Began? then BootsLead(front); Boots(front) - BootsOnFile(front) else 0
  }

  lemma {:induction false} BootsLead(log: seq<Entry>)
    requires Orderly(log)
    ensures BootsOnFile(log) <= Boots(log)
  {
    if log != [] { BootsLead(log[..|log| - 1]); }
  }

  /** The launches counted and the launches lost are all there were. */
  lemma {:induction false} BootsCount(log: seq<Entry>)
    requires Orderly(log)
    ensures Boots(log) + Lost(log) == |PastOf(log).launches|
  {
    if log != [] {
      BootsLead(log[..|log| - 1]);
      BootsCount(log[..|log| - 1]);
    }
  }

  class Controller {
    const selected: seq<string>

    // In memory.
    var attempts: seq<Attempt>
    var current: Option<string>
    var boots: nat
    var restarts: nat
    var infrastructure: Option<string>

    // On disk.
    var checkpoint: Option<Checkpoint>
    var report: Option<Report>

    /** How many steps are left before the machine stops. */
    var fuel: nat
    /** Which launches of this run reach the prompt; all that are not listed do. */
    var launches: seq<bool>
    var launched: nat
    /** What the tests started in this run come to. */
    var guests: seq<Guest>
    var started: nat
    ghost var log: seq<Entry>

    constructor (selected: seq<string>)
      requires Distinct(selected)
      ensures this.selected == selected && Durable() && checkpoint == None && report == None && log == []
    {
      this.selected := selected;
      attempts, current, boots, restarts, infrastructure := [], None, 0, 0, None;
      checkpoint, report, fuel, log := None, None, 0, [];
      launches, launched, guests, started := [], 0, [], 0;
    }

    /** What holds on disk at every moment: the checkpoint passes its checks, and
        a report lists the selection, in order and up to some test, and all of
        it if it says it is complete. Everything that happened is in order, the
        checkpoint holds what was last put on record, and an infrastructure
        error is one that a started test reported. */
    ghost predicate Durable()
      reads this`checkpoint, this`report, this`log
    {
      && Distinct(selected)
      && (checkpoint.Some? ==>
            && Accepted(checkpoint.value, selected) && checkpoint.value.attempts == OnFile(log)
            && checkpoint.value.boots == BootsOnFile(log))
      && (checkpoint.Some? && checkpoint.value.infrastructure.Some? ==>
        Blamed(log, checkpoint.value.infrastructure.value))
      && (report.Some? ==> Reported(report.value, selected))
      && Orderly(log)
    }

    /** A report beside a checkpoint is the one that checkpoint leads to. */
    ghost predicate Paired()
      reads this`checkpoint, this`report
    {
      checkpoint.Some? && report.Some? ==> Terminal(checkpoint.value) && report.value == ReportOf(checkpoint.value)
    }

    /** What holds in memory while the campaign runs. */
    ghost predicate Running()
      reads this
    {
      && Durable() && report.None? && checkpoint.Some? && checkpoint.value.attempts == attempts
      && |attempts| <= |selected| && Ids(attempts) == selected[..|attempts|]
      && boots == Boots(log)
      && restarts == RestartsFor(boots) && (boots == 0 ==> attempts == [] && infrastructure.None?)
      && (infrastructure.Some? ==> infrastructure.value != "" && Blamed(log, infrastructure.value))
    }

    /** Every launch of this run reached the prompt, and everything a started
        test came to was accepted. */
    ghost predicate Smooth()
      reads this`launches, this`launched, this`guests, this`started
    {
      && (forall j :: 0 <= j < launched && j < |launches| ==> launches[j])
      && (forall j :: 0 <= j < started && j < |guests| ==> !Rejected(guests[j]))
    }

    lemma SoundSmooth(run: Conditions)
      requires launches == run.launches && guests == run.guests && run.Sound()
      ensures Smooth()
    {}

    /** If there is an infrastructure error that was not there before, the last
        test started in this run reported it. */
    ghost predicate Admitted(was: Option<string>)
      reads this`infrastructure, this`guests, this`started
    {
      || infrastructure == was
      || (started > 0 && Told(guests, started - 1).Unfit?
          && infrastructure == Some(Told(guests, started - 1).reason))
    }

    /** The launches and starts since came to what this run's are, in order. */
    ghost predicate Listened(before: Past)
      reads this`guests, this`started, this`launches, this`launched, this`log
    {
      PastOf(log) == Since(before, launches, launched, guests, started)
    }

    /** Boots and restarts are what the log says. */
    ghost predicate Counted()
      reads this`boots, this`restarts, this`log
    {
      boots == Boots(log) && restarts == if boots == 0 then 0 else boots - 1
    }

    /** The checkpoint knows of every launch. */
    ghost predicate Synced()
      reads this`checkpoint, this`boots
    {
      checkpoint.Some? && checkpoint.value.boots == boots
    }

    /** Between two tests, with everything on record. */
    ghost predicate Between()
      reads this
    {
      Running() && current.None? && checkpoint.value.current.None? && checkpoint.value.infrastructure == infrastructure
    }

    method Step() returns (alive: bool)
      modifies this`fuel
      ensures if alive then old(fuel) == fuel + 1 else old(fuel) == fuel == 0
    {
      if fuel == 0 {
        return false;
      }
      fuel := fuel - 1;
      alive := true;
    }

    /** Replaces the checkpoint in one step. */
    method PersistProgress() returns (alive: bool)
      requires Durable() && checkpoint.Some? && Follows(log, Saved(attempts, boots))
      requires |attempts| <= |selected| && Ids(attempts) == selected[..|attempts|]
      requires restarts == RestartsFor(boots)
               && (boots == 0 ==> attempts == [] && current.None? && infrastructure.None?)
      requires infrastructure.Some? ==>
                 infrastructure.value != "" && current.None? && Blamed(log, infrastructure.value)
      requires current.Some? ==> |attempts| < |selected| && current.value == selected[|attempts|]
      modifies this`checkpoint, this`fuel, this`log
      ensures Durable()
      ensures alive ==> checkpoint == Some(Checkpoint(selected, attempts, current, boots, restarts, infrastructure))
      ensures alive ==> log == old(log) + [Saved(attempts, boots)] && old(fuel) == fuel + 1
      ensures PastOf(log) == PastOf(old(log)) && PhaseOf(log) == PhaseOf(old(log)) && Boots(log) == Boots(old(log))
      ensures !alive ==> checkpoint == old(checkpoint) && log == old(log) && old(fuel) == fuel == 0
    {
      alive := Step();
      if alive {
        assert Distinct(Ids(attempts)) by { PrefixDistinct(attempts, selected); }
        Appended(log, Saved(attempts, boots));
        StillBlamed(log, Saved(attempts, boots));
        PastMore(log, Saved(attempts, boots));
        checkpoint := Some(Checkpoint(selected, attempts, current, boots, restarts, infrastructure));
        log := log + [Saved(attempts, boots)];
      }
    }

    /** A new emulator, which will reach its prompt or not. */
    method Boot(ghost before: Past) returns (ok: bool)
      requires Running() && Smooth() && Listened(before) && (PhaseOf(log) == Fresh || PhaseOf(log) == Dead)
      modifies this`launched, this`log
      ensures ok == Prompt(launches, old(launched)) && launched == old(launched) + 1
      ensures log == old(log) + [Launched(ok)] && Durable() && Boots(log) == Boots(old(log)) + 1 && Listened(before)
      ensures OnFile(log) == OnFile(old(log)) && PhaseOf(log) == if ok then Waiting else Over
      ensures forall reason :: Blamed(old(log), reason) ==> Blamed(log, reason)
      ensures Smooth() == ok
    {
      hide Orderly, Distinct, Accepted, Follows, OnFile, PastOf, Since, Blamed, Ids, Reported, Boots, PhaseOf,
        BootsOnFile;
      ok := Prompt(launches, launched);
      MayFollow(log, attempts, boots);
      Appended(log, Launched(ok));
      PastMore(log, Launched(ok));
      SinceMore(before, launches, launched, guests, started);
      StillBlamed(log, Launched(ok));
      log, launched := log + [Launched(ok)], launched + 1;
      if !ok { assert !launches[launched - 1]; }
    }

    /** Starts the emulator; all but the first start are restarts. */
    method LaunchReady(ghost before: Past) returns (r: Outcome)
      requires Between() && infrastructure.None? && Smooth() && Listened(before)
      requires PhaseOf(log) == Fresh || PhaseOf(log) == Dead
      modifies this`boots, this`restarts, this`checkpoint, this`fuel, this`launched, this`log
      ensures Durable() && checkpoint.Some? && boots == old(boots) + 1 && launched == old(launched) + 1
      ensures r == Done ==> Between() && PhaseOf(log) == Waiting
      ensures var ok := Prompt(launches, old(launched));
              && (r == Done ==> ok) && (r == Raised ==> !ok)
              && (log == old(log) + [Launched(ok)] || log == old(log) + [Launched(ok)] + [Saved(attempts, boots)])
      ensures fuel + 2 >= old(fuel) && (r == Crashed ==> old(fuel) < 2)
      ensures (r == Done ==> Smooth()) && (r == Raised ==> !Smooth()) && Listened(before)
    {
      hide Orderly, Distinct, Follows, OnFile, PastOf, Since, Blamed, Accepted, Ids, Reported, Smooth, Boots, PhaseOf,
        BootsOnFile;
      var ok := Boot(before);
      boots := boots + 1;
      MayFollow(log, attempts, boots);
      if boots > 1 {
        restarts := restarts + 1;
        var alive := PersistProgress();
        if !alive {
          return Crashed;
        }
      }
      var alive := Step();
      r := if !alive then Crashed else if ok then Done else Raised;
    }

    /** Runs one test, and takes what it comes to if that can be accepted. */
    method RunTest(i: nat, ghost before: Past) returns (r: Outcome, guest: Guest)
      requires Running() && i == |attempts| < |selected| && infrastructure.None? && boots > 0
      requires Smooth() && Listened(before) && PhaseOf(log) == Waiting
      modifies this`infrastructure, this`log, this`started
      ensures Running() && guest == Told(guests, old(started)) && started == old(started) + 1 && Listened(before)
      ensures log == old(log) + [Started(i, guest)]
      ensures PhaseOf(log) == if !guest.Attempted? then Over else if Back(guest) then Waiting else Dead
      ensures r == if guest.Invalid? || (guest.Unfit? && guest.reason == "") then Raised else Done
      ensures (r == Done ==> Smooth()) && (r == Raised ==> !Smooth())
      ensures infrastructure == if r == Done && guest.Unfit? then Some(guest.reason) else None
    {
      hide Orderly, Distinct, Accepted, Follows, OnFile, PastOf, Since, Boots, PhaseOf, BootsOnFile;
      guest := Told(guests, started);
      MayFollow(log, attempts, boots);
      Appended(log, Started(i, guest));
      PastMore(log, Started(i, guest));
      SinceMore(before, launches, launched, guests, started);
      StillBlamed(log, Started(i, guest));
      log, started := log + [Started(i, guest)], started + 1;
      if Rejected(guest) {
        return Raised, guest;
      }
      if guest.Unfit? {
        infrastructure := Some(guest.reason);
        assert log[|log| - 1] == Started(i, guest);
      }
      r := Done;
    }

    /** Puts on record what the test that was just started came to. */
    method Attach(guest: Guest) returns (alive: bool)
      requires Running() && boots > 0 && |attempts| < |selected|
      requires log != [] && log[|log| - 1] == Started(|attempts|, guest)
      modifies this`attempts, this`current, this`checkpoint, this`fuel, this`log
      ensures Durable() && checkpoint.Some? && (alive ==> Between() && Synced())
      ensures PastOf(log) == PastOf(old(log)) && PhaseOf(log) == PhaseOf(old(log))
      ensures attempts == WithAttempt(old(attempts), selected[|old(attempts)|], guest)
      ensures if alive then log == old(log) + [Saved(attempts, boots)] && old(fuel) == fuel + 1
              else log == old(log) && old(fuel) == fuel == 0
    {
      hide Orderly, Distinct, Accepted, Follows, OnFile, Ids, Reported, PastOf, Blamed, Terminal, Boots, PhaseOf,
        BootsOnFile;
      Attaches(log, attempts, boots, selected, guest);
      if FindingOf(guest).Some? {
        attempts := attempts + [Attempt(selected[|attempts|], FindingOf(guest).value)];
      }
      current := None;
      alive := PersistProgress();
    }

    /** One test: on record as current, run, on record as attempted. */
    method RunNext(i: nat, ghost before: Past) returns (r: Outcome, ready: bool)
      requires Between() && infrastructure.None? && boots > 0 && i == |attempts| < |selected|
      requires Smooth() && Listened(before) && PhaseOf(log) == Waiting
      modifies this`attempts, this`current, this`infrastructure, this`checkpoint, this`fuel, this`log, this`started
      ensures Durable() && checkpoint.Some?
      ensures r == Done ==> Between() && Synced() && started == old(started) + 1
      ensures r == Done && infrastructure.None? ==>
                |attempts| == i + 1 && PhaseOf(log) == if ready then Waiting else Dead
      ensures var guest := Told(guests, old(started));
              && (r == Done ==> attempts == WithAttempt(old(attempts), selected[i], guest))
              && (r == Done ==> infrastructure == if guest.Unfit? then Some(guest.reason) else None)
              && (r == Done ==> ready == Back(guest))
              && (r == Done ==>
                    log == old(log) + [Saved(old(attempts), boots)] + [Started(i, guest)] + [Saved(attempts, boots)])
              && (r == Raised ==> log == old(log) + [Saved(old(attempts), boots)] + [Started(i, guest)])
              && (r == Crashed ==> log in {old(log), old(log) + [Saved(old(attempts), boots)] + [Started(i, guest)]})
      ensures fuel + 2 >= old(fuel) && (r == Crashed ==> old(fuel) < 2)
      ensures (r == Done ==> Smooth()) && (r == Raised ==> !Smooth()) && Listened(before)
    {
      hide Orderly, Distinct, Accepted, Follows, OnFile, Ids, Reported, PastOf, Since, Blamed, Smooth, Terminal, Boots,
        PhaseOf, BootsOnFile;
      MayFollow(log, attempts, boots);
      ready := false;
      current := Some(selected[i]);
      var alive := PersistProgress();
      if !alive {
        return Crashed, ready;
      }
      var guest;
      r, guest := RunTest(i, before);
      if r != Done {
        return;
      }
      alive := Attach(guest);
      if !alive {
        return Crashed, ready;
      }
      ready := guest.Attempted? && guest.ready && !guest.finding.watchdog;
    }

    /** Runs every test that is not on record yet. */
    method RunSelected(ghost before: Past) returns (r: Outcome)
      requires Between() && Synced() && Smooth() && Listened(before) && PhaseOf(log) == Fresh
      modifies this`attempts, this`current, this`boots, this`restarts, this`infrastructure, this`checkpoint, this`fuel,
        this`launched, this`started, this`log
      ensures Durable() && checkpoint.Some? && old(log) <= log
      ensures r == Done ==>
                && Between() && old(attempts) <= attempts && (infrastructure.Some? || Ids(attempts) == selected)
                && Admitted(old(infrastructure)) && Synced()
      ensures fuel + 4 * |selected| >= old(fuel) && (r == Crashed ==> old(fuel) < 4 * |selected|)
      ensures (r == Done ==> Smooth()) && (r == Raised ==> !Smooth()) && Listened(before)
    {
      hide Orderly, Distinct, Accepted, OnFile, PastOf, Since, Blamed, Smooth, FindingOf, Boots, PhaseOf, BootsOnFile,
        Back;
      var ready := false;
      var i := 0;
      while i < |selected|
        invariant 0 <= i <= |selected| && Between() && old(attempts) <= attempts && old(log) <= log
        invariant (infrastructure.None? ==> i <= |attempts|) && (ready ==> boots > 0) && Admitted(old(infrastructure))
        invariant fuel + 4 * i >= old(fuel) && Smooth() && Listened(before) && Synced()
        invariant infrastructure.None? ==> if ready then PhaseOf(log) == Waiting else PhaseOf(log) in {Fresh, Dead}
      {
        if infrastructure.Some? {
          break;
        }
        OnRecord(attempts, selected, i);
        if selected[i] in Ids(attempts) {
          i := i + 1;
          continue;
        }
        if !ready {
          r := LaunchReady(before);
          if r != Done {
            return;
          }
        }
        r, ready := RunNext(i, before);
        if r != Done {
          return;
        }
        i := i + 1;
      }
      if infrastructure.None? { assert selected[..|attempts|] == selected; }
      r := Done;
    }

    /** A new campaign: the old report goes first, then the old checkpoint. */
    method Begin() returns (r: Outcome)
      requires Durable()
      modifies this`attempts, this`current, this`boots, this`restarts, this`infrastructure, this`checkpoint,
        this`report, this`fuel, this`log
      ensures Durable() && r != Raised && (old(Paired()) ==> Paired())
      ensures r == Done ==> Between() && Synced() && log == Opening() && infrastructure.None?
      ensures r == Crashed ==> log == old(log) && checkpoint == old(checkpoint) && old(fuel) < 2
      ensures fuel + 2 >= old(fuel)
    {
      hide Distinct, Accepted, Ids, Reported, Orderly, OnFile, Terminal, Complete, Blamed, Opening, Boots,
        BootsOnFile, PhaseOf, PastOf;
      FreshAccepted(selected);
      FirstEntries();
      attempts, current, boots, restarts, infrastructure := [], None, 0, 0, None;
      var alive := Step();
      if !alive {
        return Crashed;
      }
      report := None;
      alive := Step();
      if !alive {
        return Crashed;
      }
      checkpoint := Some(Checkpoint(selected, [], None, 0, 0, None));
      log := Opening();
      r := Done;
    }

    /** Takes up a campaign where its checkpoint left it. A report that was out
        too early goes. */
    method Reload() returns (r: Outcome)
      requires Durable() && checkpoint.Some? && (report.Some? ==> !Terminal(checkpoint.value))
      modifies this`attempts, this`current, this`boots, this`restarts, this`infrastructure, this`checkpoint,
        this`report, this`fuel, this`log
      ensures Durable() && checkpoint.Some? && old(log) <= log && r != Raised
      ensures r == Done ==> Between() && Synced() && PhaseOf(log) == Fresh
      ensures attempts == checkpoint.value.attempts == old(checkpoint.value.attempts)
      ensures boots == old(checkpoint.value.boots) && infrastructure == old(checkpoint.value.infrastructure)
      ensures old(report).None? ==> report.None?
      ensures fuel + 3 >= old(fuel) && (r == Crashed ==> old(fuel) < 3)
      ensures PastOf(log) == PastOf(old(log))
    {
      hide Orderly, Distinct, Reported, Follows, OnFile, Terminal, PastOf, Blamed, Boots, PhaseOf, BootsOnFile;
      var c := checkpoint.value;
      BeginsAgain(log);
      log := log + [Began];
      MayFollow(log, c.attempts, c.boots);
      attempts, boots, restarts, infrastructure := c.attempts, c.boots, c.restarts, c.infrastructure;
      current := None;
      var alive := PersistProgress();
      if !alive {
        return Crashed;
      }
      if report.Some? {
        alive := Step();
        if !alive {
          return Crashed;
        }
        report := None;
      }
      MayFollow(log, c.attempts, c.boots);
      alive := PersistProgress();
      r := if alive then Done else Crashed;
    }

    /** The steps a campaign needs at most. */
    static function Enough(selection: nat): nat {
      4 * selection + 5
    }

    /** There is nothing to resume, or a report that is not the checkpoint's. */
    ghost predicate Foreign(resume: bool)
      reads this`checkpoint, this`report
    {
      resume && (checkpoint.None?
        || (report.Some? && (checkpoint.value.current.Some? || report.value != ReportOf(checkpoint.value))))
    }

    /** The report is out already, and only the checkpoint is left to drop. */
    method TakeReport() returns (r: Outcome)
      requires Durable() && checkpoint.Some? && Terminal(checkpoint.value)
      requires report == Some(ReportOf(checkpoint.value))
      modifies this`attempts, this`current, this`boots, this`restarts, this`infrastructure, this`checkpoint, this`fuel,
        this`log
      ensures log == old(log) + [Began] && OnFile(log) == OnFile(old(log)) && PastOf(log) == PastOf(old(log))
      ensures Durable() && r != Raised && (r == Crashed ==> checkpoint == old(checkpoint) && old(fuel) == 0)
      ensures r == Done ==>
                && checkpoint.None?
                && report == Some(Report(attempts, Complete(attempts, selected, infrastructure), boots, restarts))
      ensures r == Done ==> attempts == OnFile(log) && Counted() && Accounted(attempts, selected, infrastructure, log)
      ensures r == Done ==> infrastructure == old(checkpoint).value.infrastructure
    {
      hide Distinct, Orderly, OnFile, Reported, Complete, Blamed, PastOf, Boots, BootsOnFile, PhaseOf;
      var c := checkpoint.value;
      BeginsAgain(log);
      log := log + [Began];
      attempts, current, boots, restarts, infrastructure := c.attempts, None, c.boots, c.restarts, c.infrastructure;
      r := Retire();
    }

    /** A campaign from the start, or from its checkpoint. */
    method Run(resume: bool) returns (r: Outcome)
      requires Durable() && launched == started == 0
      modifies this
      ensures Durable() && (old(Paired()) ==> Paired()) && guests == old(guests) && launches == old(launches)
      ensures r == Done ==>
                && checkpoint.None?
                && report == Some(Report(attempts, Complete(attempts, selected, infrastructure), boots, restarts))
      ensures r == Done ==> attempts == OnFile(log) && Counted() && Accounted(attempts, selected, infrastructure, log)
      ensures r == Crashed ==> old(fuel) < Enough(|selected|)
      ensures r == Done ==>
                Admitted(if resume && old(checkpoint).Some? then old(checkpoint).value.infrastructure else None)
      ensures (r == Raised ==> old(Foreign(resume)) || !Smooth()) && (r == Done ==> Smooth())
      ensures old(Foreign(resume)) ==> r == Raised && unchanged(this)
      ensures resume && !old(Foreign(resume)) && old(report).Some?
              && (old(checkpoint).value.infrastructure.Some? || Ids(old(checkpoint).value.attempts) == selected) ==>
                report == old(report) && r != Raised
      ensures resume && old(checkpoint).Some? ==>
                old(checkpoint.value.attempts) <= OnFile(log) && (r != Done ==> checkpoint.Some?)
      ensures resume ==> old(log) <= log
      ensures resume && old(checkpoint).Some? ==> forall q :: |old(log)| <= q < |log| && log[q].Started? ==>
                |old(checkpoint.value.attempts)| <= log[q].place
      ensures !resume ==> (log == old(log) && checkpoint == old(checkpoint) && old(fuel) < 2) || Opening() <= log
      ensures !resume && old(fuel) >= 2 && r != Done ==> checkpoint.Some?
      ensures resume || old(log) == [] ==> Listened(PastOf(old(log)))
    {
      hide Accepted, Distinct, Orderly, OnFile, Reported, Complete, PastOf, Since, Blamed, Accounted, Ids, Follows,
        Opening, Boots, BootsOnFile, PhaseOf, Controller.Counted;
      SinceNothing(PastOf(log), launches, guests);
      FirstEntries();
      assert PastOf([]) == Past([], []) by { PastNothing(); }
      if resume {
        if checkpoint.None? {
          return Raised;
        }
        var c := checkpoint.value;
        AcceptedFor(c, selected);
        if report.Some? && (c.current.Some? || report.value != ReportOf(c)) {
          return Raised;
        }
        if report.Some? && Terminal(c) {
          r := TakeReport();
          return;
        }
        r := Reload();
      } else {
        r := Begin();
      }
      if r == Done {
        SinceNothing(PastOf(log), launches, guests);
        r := Conclude(PastOf(log));
      }
      if resume { Extended(old(log), log); }
    }

    /** The tests, the report, and the end of the checkpoint. */
    method Conclude(ghost before: Past) returns (r: Outcome)
      requires Between() && Synced() && Smooth() && Listened(before) && PhaseOf(log) == Fresh
      modifies this
      ensures Durable() && Paired() && old(log) <= log && (r != Done ==> checkpoint.Some?)
      ensures guests == old(guests) && launches == old(launches)
      ensures r == Done ==>
                && checkpoint.None?
                && report == Some(Report(attempts, Complete(attempts, selected, infrastructure), boots, restarts))
      ensures r == Done ==> attempts == OnFile(log) && Counted() && Accounted(attempts, selected, infrastructure, log)
      ensures (r == Crashed ==> old(fuel) < 4 * |selected| + 2) && (r == Done ==> Admitted(old(infrastructure)))
      ensures (r == Done ==> Smooth()) && (r == Raised ==> !Smooth()) && Listened(before)
    {
      hide Accepted, Distinct, Orderly, OnFile, PastOf, Since, Blamed, Smooth, Boots, BootsOnFile, PhaseOf;
      r := RunSelected(before);
      if r != Done {
        return;
      }
      var alive := Step();
      if !alive {
        return Crashed;
      }
      AcceptedFor(checkpoint.value, selected);
      report := Some(Report(attempts, Complete(attempts, selected, infrastructure), boots, restarts));
      r := Retire();
    }

    /** Drops the checkpoint once the report is out. */
    method Retire() returns (r: Outcome)
      requires Durable() && report.Some?
      modifies this`checkpoint, this`fuel
      ensures Durable() && r != Raised && (r == Done ==> checkpoint.None?)
      ensures r == Crashed ==> checkpoint == old(checkpoint) && old(fuel) == 0
    {
      var alive := Step();
      if !alive {
        return Crashed;
      }
      checkpoint := None;
      r := Done;
    }
  }

  /** The whole selection was attempted, or a started test reported why not. */
  ghost predicate Accounted(attempts: seq<Attempt>, selected: seq<string>, infrastructure: Option<string>,
                            log: seq<Entry>)
  {
    if infrastructure.Some? then Blamed(log, infrastructure.value) else Ids(attempts) == selected
  }

  lemma StillBlamed(log: seq<Entry>, e: Entry)
    ensures forall reason :: Blamed(log, reason) ==> Blamed(log + [e], reason)
  {
    forall reason | Blamed(log, reason) ensures Blamed(log + [e], reason) {
      var q :| 0 <= q < |log| && log[q].Started? && log[q].guest.Unfit? && log[q].guest.reason == reason;
      assert (log + [e])[q] == log[q];
    }
  }

  lemma FreshAccepted(selected: seq<string>)
    ensures Accepted(Checkpoint(selected, [], None, 0, 0, None), selected) && Ids([]) == [] == selected[..0]
  {}

  lemma AcceptedFor(c: Checkpoint, selected: seq<string>)
    requires Accepted(c, selected)
    ensures c.selected == selected && c.restarts == RestartsFor(c.boots)
  {}

  /** What a test came to may be put on record right after it was started. */
  lemma Attaches(log: seq<Entry>, attempts: seq<Attempt>, boots: nat, selected: seq<string>, guest: Guest)
    requires |attempts| < |selected| && Ids(attempts) == selected[..|attempts|] && OnFile(log) == attempts
    requires boots == Boots(log) && log != [] && log[|log| - 1] == Started(|attempts|, guest)
    ensures var more := WithAttempt(attempts, selected[|attempts|], guest);
            && |more| <= |selected| && Ids(more) == selected[..|more|] && Follows(log, Saved(more, boots))
            && attempts <= more
  {
    hide OnFile, Follows, Ids, Boots, PhaseOf;
    MayFollow(log, attempts, boots);
    if FindingOf(guest).Some? {
      var attempt := Attempt(selected[|attempts|], FindingOf(guest).value);
      OneMore(attempts, attempt, selected);
      assert Yields(log[|log| - 1], |attempts|, attempt);
    }
  }

  lemma OneMore(attempts: seq<Attempt>, a: Attempt, selected: seq<string>)
    requires |attempts| < |selected| && Ids(attempts) == selected[..|attempts|] && a.id == selected[|attempts|]
    ensures Ids(attempts + [a]) == selected[..|attempts| + 1]
  {
    assert Ids(attempts + [a]) == Ids(attempts) + [a.id];
  }

  lemma PrefixDistinct(attempts: seq<Attempt>, selected: seq<string>)
    requires Distinct(selected) && |attempts| <= |selected| && Ids(attempts) == selected[..|attempts|]
    ensures Distinct(Ids(attempts))
  {}

  /** A test is on record exactly when its place is below the number recorded. */
  lemma OnRecord(attempts: seq<Attempt>, selected: seq<string>, i: nat)
    requires Distinct(selected) && |attempts| <= |selected| && Ids(attempts) == selected[..|attempts|] && i < |selected|
    ensures selected[i] in Ids(attempts) <==> i < |attempts|
  {
    if i < |attempts| { assert Ids(attempts)[i] == selected[i]; }
    if selected[i] in Ids(attempts) {
      var k :| 0 <= k < |attempts| && Ids(attempts)[k] == selected[i];
      assert selected[k] == selected[i];
    }
  }

  /** What one run is given: steps until the machine stops, launches that reach
      the prompt or not, and what the started tests come to. */
  datatype Conditions = Conditions(steps: nat, launches: seq<bool>, guests: seq<Guest>) {
    predicate Sound() {
      false !in launches && forall g :: g in guests ==> !g.Invalid? && (g.Unfit? ==> g.reason != "")
    }
  }

  /** What all runs were told, with this many launches and starts in each. */
  ghost function Said(runs: seq<Conditions>, boots: seq<nat>, starts: seq<nat>): Past
    requires |runs| == |boots| == |starts|
  {
    if runs == [] then Past([], [])
    else
      var n := |runs| - 1;
      Since(Said(runs[..n], boots[..n], starts[..n]), runs[n].launches, boots[n], runs[n].guests, starts[n])
  }

  lemma SaidMore(runs: seq<Conditions>, boots: seq<nat>, starts: seq<nat>, b: nat, n: nat)
    requires |boots| == |starts| < |runs|
    ensures Said(runs[..|starts| + 1], boots + [b], starts + [n])
            == Since(Said(runs[..|starts|], boots, starts), runs[|starts|].launches, b, runs[|starts|].guests, n)
  {
    hide Since;
    var k, more := |starts|, runs[..|starts| + 1];
    assert more[..k] == runs[..k] && (boots + [b])[..k] == boots && (starts + [n])[..k] == starts;
  }

  /** One of the first `k` runs finished. */
  ghost predicate DoneBefore(outcomes: seq<Outcome>, k: nat) {
    exists j :: 0 <= j < k && j < |outcomes| && outcomes[j] == Done
  }

  lemma DoneMore(outcomes: seq<Outcome>, r: Outcome)
    ensures forall k :: 0 <= k <= |outcomes| ==> DoneBefore(outcomes + [r], k) == DoneBefore(outcomes, k)
    ensures DoneBefore(outcomes + [r], |outcomes| + 1) == (DoneBefore(outcomes, |outcomes|) || r == Done)
  {
    var more := outcomes + [r];
    assert forall j :: 0 <= j < |outcomes| ==> more[j] == outcomes[j];
    assert more[|outcomes|] == r;
    forall k | 0 <= k <= |outcomes| ensures DoneBefore(more, k) == DoneBefore(outcomes, k) {
      if DoneBefore(outcomes, k) {
        var j :| 0 <= j < k && outcomes[j] == Done;
        assert more[j] == Done;
      }
    }
    if DoneBefore(outcomes, |outcomes|) {
      var j :| 0 <= j < |outcomes| && outcomes[j] == Done;
      assert more[j] == Done;
    }
  }

  /** Why run `k` did not finish. */
  ghost predicate Explained(runs: seq<Conditions>, outcomes: seq<Outcome>, selection: nat, k: nat)
    requires k < |outcomes| <= |runs|
  {
    && (outcomes[k] == Crashed ==> runs[k].steps < Controller.Enough(selection))
    && (outcomes[k] == Raised ==>
          !runs[k].Sound() || (k > 0 && (DoneBefore(outcomes, k) || runs[0].steps < 2)))
  }

  lemma ExplainedMore(runs: seq<Conditions>, outcomes: seq<Outcome>, selection: nat, r: Outcome)
    requires |outcomes| < |runs| && forall k :: 0 <= k < |outcomes| ==> Explained(runs, outcomes, selection, k)
    ensures forall k :: 0 <= k < |outcomes| ==> Explained(runs, outcomes + [r], selection, k)
  {
    hide DoneBefore;
    DoneMore(outcomes, r);
    forall k | 0 <= k < |outcomes| ensures Explained(runs, outcomes + [r], selection, k) {
      assert Explained(runs, outcomes, selection, k) && (outcomes + [r])[k] == outcomes[k];
    }
  }

  /** Any number of crashes and resumes of one campaign: no test is started once
      it is on record, and everything on record is what a started test came to,
      which is what the guests of these runs were, in order. No test is started
      but at a prompt of the same run, and the emulator is launched only when
      there is none; the launches counted and those lost by a run that ended too
      early are all there were. A run that stops
      had too few steps, and one that refuses was given a launch that failed or
      a guest that was rejected, or has nothing to resume; so any other
      finishes. A finished campaign's report is the record, and the record is
      the whole selection unless a started test reported why not. */
  method CampaignWithCrashes(selected: seq<string>, runs: seq<Conditions>)
    returns (c: Controller, outcomes: seq<Outcome>, boots: seq<nat>, starts: seq<nat>)
    requires Distinct(selected)
    ensures c.Durable() && c.selected == selected && |outcomes| == |boots| == |starts| == |runs|
    ensures forall p, q :: 0 <= p < q < |c.log| && c.log[p].Saved? && c.log[q].Started? ==>
              |c.log[p].attempts| <= c.log[q].place
    ensures forall i :: 0 <= i < |OnFile(c.log)| ==> Witnessed(c.log, i, OnFile(c.log)[i])
    ensures PastOf(c.log) == Said(runs, boots, starts) && Boots(c.log) + Lost(c.log) == |PastOf(c.log).launches|
    ensures forall q :: 0 <= q < |c.log| ==>
              (c.log[q].Started? ==> AtPrompt(c.log, q)) && (c.log[q].Launched? ==> WithoutPrompt(c.log, q))
    ensures forall k :: 0 <= k < |runs| ==> Explained(runs, outcomes, |selected|, k)
    ensures DoneBefore(outcomes, |outcomes|) ==>
              && c.report.Some? && c.report.value.attempts == OnFile(c.log)
              && c.report.value.boots == Boots(c.log) && c.report.value.restarts == RestartsFor(Boots(c.log))
              && (c.report.value.complete <==>
                    && c.infrastructure.None? && Ids(OnFile(c.log)) == selected
                    && forall i :: 0 <= i < |OnFile(c.log)| ==>
                         !OnFile(c.log)[i].finding.infrastructure || OnFile(c.log)[i].finding.watchdog)
              && Accounted(OnFile(c.log), selected, c.infrastructure, c.log)
  {
    hide Orderly, OnFile, Complete, Distinct, PastOf, Said, Since, Blamed, Accounted, Accepted, Reported, DoneBefore,
      Ids, Controller.Smooth, Boots, BootsOnFile, PhaseOf, AtPrompt, WithoutPrompt, Lost;
    c := new Controller(selected);
    outcomes, boots, starts := [], [], [];
    assert runs[..0] == [];
    SaidNothing();
    while |outcomes| < |runs|
      invariant |outcomes| == |boots| == |starts| <= |runs| && c.Durable() && c.Paired() && c.selected == selected
                && fresh(c)
      invariant |outcomes| > 0 ==> c.checkpoint.Some? || DoneBefore(outcomes, |outcomes|) || runs[0].steps < 2
      invariant DoneBefore(outcomes, |outcomes|) ==> c.checkpoint.None? && Finished(c)
      invariant |outcomes| == 0 ==> c.log == []
      invariant PastOf(c.log) == Said(runs[..|outcomes|], boots, starts)
      invariant forall k :: 0 <= k < |outcomes| ==> Explained(runs, outcomes, |selected|, k)
    {
      var k := |outcomes|;
      c.fuel, c.launches, c.launched := runs[k].steps, runs[k].launches, 0;
      c.guests, c.started := runs[k].guests, 0;
      var outcome := c.Run(k > 0);
      SaidMore(runs, boots, starts, c.launched, c.started);
      DoneMore(outcomes, outcome);
      ExplainedMore(runs, outcomes, |selected|, outcome);
      if runs[k].Sound() { c.SoundSmooth(runs[k]); }
      assert (outcomes + [outcome])[k] == outcome;
      assert Explained(runs, outcomes + [outcome], |selected|, k);
      outcomes, boots, starts := outcomes + [outcome], boots + [c.launched], starts + [c.started];
    }
    assert runs[..|runs|] == runs;
    WholeLog(c.log);
    CompleteIff(OnFile(c.log), selected, c.infrastructure);
  }

  /** All that order means for a whole log. */
  lemma WholeLog(log: seq<Entry>)
    requires Orderly(log)
    ensures Boots(log) + Lost(log) == |PastOf(log).launches|
    ensures forall p, q :: 0 <= p < q < |log| && log[p].Saved? && log[q].Started? ==> |log[p].attempts| <= log[q].place
    ensures forall i :: 0 <= i < |OnFile(log)| ==> Witnessed(log, i, OnFile(log)[i])
    ensures forall q :: 0 <= q < |log| ==>
              (log[q].Started? ==> AtPrompt(log, q)) && (log[q].Launched? ==> WithoutPrompt(log, q))
  {
    hide Orderly, OnFile, PastOf, Boots, Lost, AtPrompt, WithoutPrompt, Witnessed;
    BootsCount(log);
    forall q | 0 <= q < |log|
      ensures (log[q].Started? ==> AtPrompt(log, q)) && (log[q].Launched? ==> WithoutPrompt(log, q)) {
      LaunchedWhenNeeded(log, q);
    }
    forall p, q | 0 <= p < q < |log| && log[p].Saved? && log[q].Started? ensures |log[p].attempts| <= log[q].place {
      NeverAgain(log, p, q);
    }
    forall i | 0 <= i < |OnFile(log)| ensures Witnessed(log, i, OnFile(log)[i]) { RecordedWasStarted(log, i); }
  }

  lemma CompleteIff(attempts: seq<Attempt>, selected: seq<string>, infrastructure: Option<string>)
    ensures Complete(attempts, selected, infrastructure) <==>
              && infrastructure.None? && Ids(attempts) == selected
              && forall i :: 0 <= i < |attempts| ==> !attempts[i].finding.infrastructure || attempts[i].finding.watchdog
  {}

  lemma PastNothing()
    ensures PastOf([]) == Past([], [])
  {}

  lemma SaidNothing()
    ensures Said([], [], []) == Past([], []) == PastOf([]) && !DoneBefore([], 0)
  {}

  ghost predicate Finished(c: Controller)
    reads c
  {
    && c.report == Some(Report(OnFile(c.log), Complete(OnFile(c.log), c.selected, c.infrastructure), Boots(c.log),
      RestartsFor(Boots(c.log))))
    && Accounted(OnFile(c.log), c.selected, c.infrastructure, c.log)
  }
}

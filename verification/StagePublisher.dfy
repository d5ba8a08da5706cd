/** Publishing a stage: building in a work directory, moving it to its
    destination, and recovering from a stop at any point. */
module StagePublisher {
  import opened Options
  import opened Outcomes
  import opened StageJournal

  /** A directory's contents: a number of entries, or a complete stage that
      passed verification. */
  datatype Content = Entries(count: nat) | Complete(id: nat, files: nat)

  function Count(c: Content): nat {
    match c
    case Entries(n) => n
    case Complete(_, n) => n + 1
  }

  datatype Journal = Missing | File(slots: seq<Record>)

  /** The directories on disk. */
  datatype State = State(work: Option<Inode>, destination: Option<Inode>, dirs: map<Inode, Content>)

  /** The journal file, and what it says once it is initialized. */
  ghost predicate Recorded(journal: Journal, ready: bool, generation: nat, value: Value) {
    if ready then journal.File? && Says(journal.slots, generation, value) && generation < NUMBER_LIMIT && Legal(value)
    else value == Idle && (journal.File? ==> journal.slots == [] || Blank(journal.slots))
  }

  ghost predicate EmptyOrMissing(s: State) {
    s.work.Some? ==> s.work.value in s.dirs && Count(s.dirs[s.work.value]) == 0
  }

  /** The destination is absent or one complete stage; the directories are
      those the recorded state allows. */
  ghost predicate Consistent(s: State, value: Value) {
    && (s.work.Some? ==> s.work.value in s.dirs && LegalInode(s.work.value))
    && (s.destination.Some? ==>
      s.destination.value in s.dirs && LegalInode(s.destination.value) && s.dirs[s.destination.value].Complete?)
    && (s.work.Some? ==> s.work != s.destination)
    && (forall i :: i in s.dirs ==> s.work == Some(i) || s.destination == Some(i))
    && match value
       case Idle => EmptyOrMissing(s)
       case Building(w) => s.work == Some(w)
       case Initial(w) =>
         || (s.work == Some(w) && s.destination == None)
         || (s.destination == Some(w) && EmptyOrMissing(s))
       case Exchange(w, d) =>
         || (s.work == Some(w) && s.destination == Some(d))
         || (s.work == Some(d) && s.destination == Some(w))
  }

  /** What the destination holds. */
  function Published(s: State): Option<Content> {
    if s.destination.Some? && s.destination.value in s.dirs then Some(s.dirs[s.destination.value]) else None
  }

  /** What the work root holds. */
  function InWork(s: State): Option<Content> {
    if s.work.Some? && s.work.value in s.dirs then Some(s.dirs[s.work.value]) else None
  }

  function Size(c: Option<Content>): nat {
    if c.Some? then Count(c.value) else 0
  }

  /** The system calls a recovery needs at most, and those of a whole campaign. */
  function RecoverySteps(s: State): nat {
    Size(InWork(s)) + 3
  }

  function CampaignSteps(s: State, files: nat): nat {
    2 * Size(InWork(s)) + Size(Published(s)) + 2 * files + 19
  }

  /** What unfinished commits have left in the stale slot gets in the way of
      nothing the publisher may commit next. While the journal says idle, that
      is a build in the one work root there is; otherwise a recovery can always
      go back to idle. */
  ghost predicate Prepared(slots: seq<Record>, generation: nat, value: Value, work: Option<Inode>)
    requires |slots| == 2
  {
    var r := slots[Other(generation)];
    if !value.Idle? then Harmless(r, generation, Idle)
    else if work.Some? then Harmless(r, generation, Building(work.value))
    else Untouched(r, generation)
  }

  lemma UntouchedPrepared(slots: seq<Record>, generation: nat, value: Value, work: Option<Inode>)
    requires |slots| == 2 && Untouched(slots[Other(generation)], generation)
    requires work.Some? ==> LegalInode(work.value)
    ensures Prepared(slots, generation, value, work)
  {
    RenderFits(Idle);
    if work.Some? { RenderFits(Building(work.value)); }
    hide Render;
  }

  class Disk {
    var journal: Journal
    var work: Option<Inode>
    var destination: Option<Inode>
    var dirs: map<Inode, Content>

    /** The system calls until the machine stops, with those that fail, and how
        many were made. */
    var calls: seq<bool>
    var at: nat

    ghost var ready: bool
    ghost var generation: nat
    ghost var value: Value

    constructor ()
      ensures Valid() && destination == None && generation == 0
    {
      journal, work, destination, dirs, calls, at := Missing, None, None, map[], [], 0;
      ready, generation, value := false, 0, Idle;
    }

    function Now(): State
      reads this`work, this`destination, this`dirs
    {
      State(work, destination, dirs)
    }

    ghost predicate Valid()
      reads this
    {
      && Recorded(journal, ready, generation, value) && Consistent(Now(), value)
      && (ready ==> |journal.slots| == 2 && Prepared(journal.slots, generation, value, work))
    }

    /** At most `n` calls were made since, and if the machine stopped there were
        fewer left. */
    ghost predicate Spent(was: nat, n: nat, r: Outcome)
      reads this`at, this`calls
    {
      was <= at <= was + n && (r == Crashed ==> |calls| <= at < was + n)
    }

    /** A call made since has failed. */
    ghost predicate Failed(was: nat)
      reads this`at, this`calls
    {
      exists i :: was <= i < at && i < |calls| && !calls[i]
    }

    /** One system call: it happens, fails, or the machine stops. */
    method Step() returns (r: Outcome)
      modifies this`at
      ensures Spent(old(at), 1, r) && (r == Raised <==> Failed(old(at))) && (r == Done ==> at == old(at) + 1)
    {
      if at >= |calls| {
        return Crashed;
      }
      r := if calls[at] then Done else Raised;
      at := at + 1;
    }

    // ---------- the journal ----------

    /** Writes the body of a record; a stop may leave any mixture. */
    method WriteBody(index: nat, body: string) returns (r: Outcome)
      requires journal.File? && |journal.slots| == 2 && index < 2 && |body| == BODY
               && |journal.slots[index].body| == BODY
      modifies this`journal, this`at
      ensures journal.File? && |journal.slots| == 2
              && journal.slots
              == old(journal).slots[index := old(journal).slots[index].(body := journal.slots[index].body)]
      ensures Mixed(old(journal).slots[index].body, body, journal.slots[index].body)
      ensures Spent(old(at), 1, r) && (r == Raised ==> Failed(old(at)))
      ensures r == Done ==> journal.slots[index].body == body
    {
      r := Step();
      var slot, torn := journal.slots[index], body;
      if r != Done {
        torn := Mix(slot.body, body);
      }
      journal := File(journal.slots[index := slot.(body := torn)]);
    }

    /** Writes the header; a stop may leave any of its fields, and any digit, as
        it was. */
    method WriteHeader(index: nat, record: Record) returns (r: Outcome)
      requires journal.File? && |journal.slots| == 2 && index < 2 && journal.slots[index].body == record.body
      requires Sized(record) && Sized(journal.slots[index])
      modifies this`journal, this`at
      ensures journal.File? && |journal.slots| == 2
              && journal.slots == old(journal).slots[index := journal.slots[index]]
      ensures r != Done ==> Torn(old(journal).slots[index], record, journal.slots[index])
      ensures Spent(old(at), 1, r) && (r == Raised ==> Failed(old(at)))
      ensures r == Done ==> journal.slots[index] == record
    {
      hide Mixed;
      r := Step();
      var slot, torn := journal.slots[index], record;
      if r != Done {
        torn := Tear(slot, record);
      }
      journal := File(journal.slots[index := torn]);
    }

    /** Writes a record over the stale slot: its body first, then its header. */
    method CommitRecord(index: nat, record: Record, ghost v: Value) returns (r: Outcome)
      requires journal.File? && Says(journal.slots, generation, value) && Legal(v) && generation + 1 < NUMBER_LIMIT
      requires index == Other(generation) && Encode(generation + 1, v) == Some(record)
      requires |journal.slots| == 2 && Harmless(journal.slots[index], generation, v)
      modifies this`journal, this`at, this`generation, this`value
      ensures journal.File? && Says(journal.slots, generation, value) && |journal.slots| == 2
      ensures (generation == old(generation) && value == old(value))
              || (generation == old(generation) + 1 && value == v)
      ensures if generation == old(generation) then Harmless(journal.slots[index], generation, v)
              else Untouched(journal.slots[Other(generation)], generation)
      ensures generation == old(generation) && old(Untouched(journal.slots[index], generation)) ==>
              Harmless(journal.slots[index], generation, Idle)
      ensures Spent(old(at), 2, r) && (r == Raised ==> Failed(old(at)))
      ensures r == Done ==> generation == old(generation) + 1 && value == v
    {
      hide Decode, Says, Encode, Torn, Mixed, Sized, Place, Other, Harmless, Untouched, Render, Marked, SaysAfter;
      ghost var slots, g, was := journal.slots, generation, value;
      SaysShape(slots, g, was);
      FinishedCommit(slots, g, was, v);
      EncodedShape(g + 1, v);
      EncodedFields(g + 1, v);
      r := WriteBody(index, record.body);
      ghost var half := journal.slots[index];
      assert half == slots[index].(body := half.body) && journal.slots == slots[index := half];
      TornBody(slots, g, was, v, half.body);
      SameTouch(slots[index], half, g);
      if Untouched(half, g) { UntouchedHarmless(half, g, Idle); }
      if r != Done {
        Advance(slots, v, half);
        return;
      }
      MarkedSized(half, index, g);
      r := WriteHeader(index, record);
      ghost var last := journal.slots[index];
      assert journal.slots == slots[index := last];
      if r == Done {
        CommittedUntouched(slots, g, was, record);
        generation, value := g + 1, v;
      } else {
        UnfinishedCommit(slots, g, was, v, half, last);
        Advance(slots, v, last);
      }
    }

    /** What the stale slot decodes to is what happened. */
    ghost method Advance(slots: seq<Record>, w: Value, torn: Record)
      requires |slots| == 2 && Says(slots, generation, value) && SaysAfter(slots, generation, value, w, torn)
      requires journal == File(slots[Other(generation) := torn]) && Harmless(torn, generation, w)
      modifies this`generation, this`value
      ensures Says(journal.slots, generation, value)
      ensures (generation == old(generation) && value == old(value) && Decode(torn) != Some((generation + 1, w)))
              || (generation == old(generation) + 1 && value == w)
      ensures if generation == old(generation) then journal.slots[Other(generation)] == torn
              else Untouched(journal.slots[Other(generation)], generation)
    {
      hide Decode, Says, Place, Other, Harmless, Untouched, Render;
      CommittedUntouched(slots, generation, value, torn);
      if Decode(torn) == Some((generation + 1, w)) {
        generation, value := generation + 1, w;
      }
    }

    /** What the publisher commits next, if anything. */
    ghost predicate Next(v: Value)
      requires journal.File? && |journal.slots| == 2
      reads this`journal, this`generation, this`value, this`work
    {
      if value.Idle? then work.Some? && v == Building(work.value)
      else v.Idle? || Untouched(journal.slots[Other(generation)], generation)
    }

    /** The next record. Whenever it stops, the journal says the old value or
        the new one, and nothing else. */
    method WriteJournal(v: Value) returns (r: Outcome)
      requires Valid() && ready && Legal(v) && Consistent(Now(), v) && Next(v)
      modifies this`journal, this`at, this`generation, this`value
      ensures Valid() && |journal.slots| == 2
      ensures (generation == old(generation) && value == old(value))
              || (generation == old(generation) + 1 && value == v)
      ensures generation != old(generation) ==> Untouched(journal.slots[Other(generation)], generation)
      ensures r == Done ==> generation == old(generation) + 1 && value == v
      ensures Spent(old(at), 2, r) && (r == Raised ==> Failed(old(at)) || old(generation) + 1 >= NUMBER_LIMIT)
    {
      hide Says, Encode, Read, Harmless, Untouched, Render, Place, Other;
      ReadSays(journal.slots, generation, value);
      SaysShape(journal.slots, generation, value);
      LegalWork();
      var current := Read(journal.slots);
      if current.generation + 1 >= NUMBER_LIMIT {
        return Raised;
      }
      FinishedCommit(journal.slots, generation, value, v);
      NextHarmless(v);
      r := CommitRecord((current.index + 1) % 2, Encode(current.generation + 1, v).value, v);
      if generation != old(generation) { UntouchedPrepared(journal.slots, generation, value, work); }
    }

    lemma LegalWork()
      requires Valid()
      ensures work.Some? ==> LegalInode(work.value)
    {}

    lemma NextHarmless(v: Value)
      requires Valid() && ready && Legal(v) && Next(v)
      ensures Harmless(journal.slots[Other(generation)], generation, v)
    {
      hide Says, Render, Padded, Decode, Untouched;
      RenderFits(v);
    }

    /** The journal alone may come to read as a value nobody wrote last; under
        the publisher it never does. Whatever is committed next, its body is
        written as if at once, after any number of stops. */
    lemma NextIsAtomic(v: Value)
      requires Valid() && ready && Legal(v) && Next(v)
      ensures |Render(v)| <= BODY
      ensures forall body :: Mixed(journal.slots[Other(generation)].body, Padded(Render(v)), body) ==>
                OldOrNew(journal.slots, generation, value, v, body)
    {
      hide Says, Render, Padded, Decode, Harmless, Next, Consistent, Mixed, OldOrNew;
      RenderFits(v);
      NextHarmless(v);
      HarmlessAtomic(journal.slots, generation, value, v);
    }

    /** Sets up a journal that has no valid record. */
    method InitializeJournal() returns (r: Outcome)
      requires Valid() && !ready && journal.File?
      modifies this`journal, this`at, this`generation, this`value, this`ready
      ensures Valid() && value == Idle && (r == Done ==> ready) && generation <= old(generation)
      ensures Spent(old(at), 4, r) && (r == Raised ==> Failed(old(at)))
    {
      hide Says, Empty, Blank, Untouched, Other, Harmless;
      LegalWork();
      // The work root is empty or missing whenever the journal is not ready.
      r := Step();
      if r != Done {
        return;
      }
      journal := File([]);
      r := Step();
      if r != Done {
        return;
      }
      journal := File([Empty(), Empty()]);
      r, ready := CommitFirst();
      generation, value := 0, Idle;
      if ready { UntouchedPrepared(journal.slots, 0, Idle, work); }
    }

    /** Writes the first record of a new journal file. */
    method CommitFirst() returns (r: Outcome, there: bool)
      requires journal == File([Empty(), Empty()])
      modifies this`journal, this`at
      ensures journal.File? && |journal.slots| == 2
      ensures if there then Says(journal.slots, 0, Idle) && Untouched(journal.slots[Other(0)], 0)
              else Blank(journal.slots)
      ensures Spent(old(at), 2, r) && (r == Raised ==> Failed(old(at))) && (r == Done ==> there)
    {
      hide Decode, Says, Encode, Torn, Mixed, Empty, Filled, Sized;
      FirstCommit();
      var record := Encode(0, Idle).value;
      EncodedShape(0, Idle);
      EmptyShape();
      r := WriteBody(0, record.body);
      var slot := journal.slots[0];
      EmptyBody(slot.body);
      MixedSize(Empty().body, record.body, slot.body);
      there := false;
      if r != Done {
        return;
      }
      r := WriteHeader(0, record);
      assert journal.slots == [journal.slots[0], Empty()];
      if r == Done {
        there := true;
      } else {
        UnfinishedFirst(slot, journal.slots[0]);
        there := Decode(journal.slots[0]).Some?;
      }
    }

    /** Opens the journal, and initializes it unless it has a valid record. */
    method OpenJournal() returns (r: Outcome)
      requires Valid()
      modifies this`journal, this`at, this`generation, this`value, this`ready
      ensures Valid() && value == old(value) && (r == Done ==> ready) && generation <= old(generation)
      ensures Spent(old(at), 5, r) && (r == Raised ==> Failed(old(at)))
    {
      hide Decode, Says, Consistent, Read, Prepared;
      if journal.Missing? {
        r := Step();
        if r != Done {
          return;
        }
        journal := File([]);
      }
      if ready { SaysShape(journal.slots, generation, value); ReadSays(journal.slots, generation, value); }
      if !ready && journal.slots != [] { ReadBlank(journal.slots); }
      if journal.slots == [] || Read(journal.slots) == NoRecord {
        r := InitializeJournal();
        return;
      }
      r := Done;
    }

    // ---------- recovery ----------

    /** A new empty work root, under an inode number that is not in use. */
    method MakeWorkRoot() returns (r: Outcome)
      requires Valid() && ready && work == None && (value.Idle? || (value.Initial? && destination == Some(value.work)))
      modifies this`work, this`dirs, this`at
      ensures Valid() && Published(Now()) == old(Published(Now())) && Size(InWork(Now())) == 0
      ensures Spent(old(at), 1, r) && (r == Raised ==> Failed(old(at)))
      ensures r == Done ==> work.Some? && work != destination
    {
      hide Says, Decode, Untouched, Other, Prepared;
      r := Step();
      if r != Done {
        return;
      }
      var inode: Inode := *;
      if inode in dirs || !LegalInode(inode) {
        inode := if Inode(0, 0) in dirs then Inode(0, 1) else Inode(0, 0);
      }
      Rooted(inode);
      work, dirs := Some(inode), dirs[inode := Entries(0)];
    }

    lemma Rooted(inode: Inode)
      requires Valid() && ready && work == None && LegalInode(inode)
      ensures Prepared(journal.slots, generation, value, Some(inode))
    {
      hide Says, Decode, Untouched, Other, Harmless;
      if value.Idle? { UntouchedPrepared(journal.slots, generation, value, Some(inode)); }
    }

    /** Empties the work root, one entry at a time. */
    method ClearWorkRoot() returns (r: Outcome)
      requires Valid() && ready && work.Some? && !value.Idle? && work != destination
      requires value.Initial? ==> work == Some(value.work)
      modifies this`dirs, this`at
      ensures Valid() && Published(Now()) == old(Published(Now())) && Size(InWork(Now())) <= old(Size(InWork(Now())))
      ensures Spent(old(at), old(Size(InWork(Now()))), r) && (r == Raised ==> Failed(old(at)))
      ensures r == Done ==> Size(InWork(Now())) == 0
    {
      hide Says, Decode, Prepared;
      var w := work.value;
      while Count(dirs[w]) > 0
        invariant w in dirs && Valid() && Published(Now()) == old(Published(Now()))
        invariant old(at) <= at && at + Count(dirs[w]) == old(at) + old(Size(InWork(Now())))
        decreases Count(dirs[w])
      {
        r := Step();
        if r != Done {
          return;
        }
        dirs := dirs[w := Entries(Count(dirs[w]) - 1)];
      }
      r := Done;
    }

    lemma IdleEmpty()
      requires Valid() && value.Idle?
      ensures Size(InWork(Now())) == 0
    {}

    /** Leaves an empty work root, whatever was underway. */
    method Tidy(current: Value) returns (r: Outcome)
      requires Valid() && ready && current == value && !value.Idle?
      modifies this`work, this`dirs, this`at
      ensures Valid() && Published(Now()) == old(Published(Now())) && Size(InWork(Now())) <= old(Size(InWork(Now())))
      ensures Spent(old(at), old(Size(InWork(Now()))) + 1, r) && (r == Raised ==> Failed(old(at)))
      ensures r == Done ==> Size(InWork(Now())) == 0 && work.Some? && Consistent(Now(), Idle)
    {
      hide Recorded, Prepared, Failed;
      if work.None? {
        // Only a published first stage leaves no work root.
        assert current.Initial? && destination == Some(current.work);
        r := MakeWorkRoot();
        if r != Done {
          return;
        }
      }
      match current {
        case Building(w) =>
          assert work == Some(w);
          r := ClearWorkRoot();
        case Initial(w) =>
          if work == Some(w) {
            r := ClearWorkRoot();
          } else {
            assert destination == Some(w) && Count(dirs[work.value]) == 0;
            r := Done;
          }
        case Exchange(w, d) =>
          assert (work == Some(w) && destination == Some(d)) || (work == Some(d) && destination == Some(w));
          r := ClearWorkRoot();
      }
    }

    /** Brings the work root and the journal back to idle, from wherever the
        program or the machine stopped. The destination is not touched. It
        succeeds with enough calls unless one of them fails or generations run
        out. */
    method Recover() returns (r: Outcome)
      requires Valid() && ready
      modifies this`journal, this`work, this`dirs, this`at, this`generation, this`value
      ensures Valid() && Published(Now()) == old(Published(Now())) && Size(InWork(Now())) <= old(Size(InWork(Now())))
      ensures Spent(old(at), old(RecoverySteps(Now())), r) && old(generation) <= generation <= old(generation) + 1
      ensures r == Raised ==> Failed(old(at)) || old(generation) + 1 >= NUMBER_LIMIT
      ensures r == Done ==> value == Idle && work.Some? && Size(InWork(Now())) == 0
    {
      hide Says, Decode, Read, Prepared, Untouched, Consistent;
      ReadSays(journal.slots, generation, value);
      SaysShape(journal.slots, generation, value);
      var current := Read(journal.slots).value;
      if current.Idle? {
        IdleEmpty();
        if work.None? {
          r := MakeWorkRoot();
          return;
        }
        return Done;
      }
      r := Tidy(current);
      if r != Done {
        return;
      }
      r := WriteJournal(Idle);
    }

    // ---------- building and publishing ----------

    /** Fills the work root and verifies it. A build that is not sound may fail
        at any time. */
    method Build(id: nat, files: nat, sound: bool) returns (r: Outcome)
      requires Valid() && ready && value.Building?
      modifies this`dirs, this`at
      ensures Valid() && Published(Now()) == old(Published(Now()))
      ensures Size(InWork(Now())) <= old(Size(InWork(Now()))) + files + 1
      ensures Spent(old(at), files + 2, r) && (r == Raised ==> Failed(old(at)) || !sound)
      ensures r == Done ==> InWork(Now()) == Some(Complete(id, files))
    {
      hide Says, Decode, Prepared;
      var w := work.value;
      var n := 0;
      while n <= files
        invariant n <= files + 1 && w in dirs && Valid() && Published(Now()) == old(Published(Now()))
        invariant at == old(at) + n && Count(dirs[w]) == if n == 0 then old(Count(dirs[w])) else n
      {
        r := Step();
        var fails: bool := *;
        if r != Done {
          return;
        }
        if fails && !sound {
          return Raised;
        }
        n := n + 1;
        dirs := dirs[w := Entries(n)];
      }
      r := Step();
      if r != Done {
        return;
      }
      dirs := dirs[w := Complete(id, files)];
    }

    /** Moves the work root to the destination, or exchanges the two. */
    method Publish() returns (r: Outcome)
      requires Valid() && ready && value.Building? && work.value in dirs && dirs[work.value].Complete?
      requires Untouched(journal.slots[Other(generation)], generation)
      modifies this`journal, this`work, this`destination, this`at, this`generation, this`value
      ensures Valid() && generation <= old(generation) + 1
      ensures Now() == old(Now()) || Now() == State(old(destination), old(work), old(dirs))
      ensures r == Done ==> destination == old(work)
      ensures Spent(old(at), 3, r) && (r == Raised ==> Failed(old(at)) || old(generation) + 1 >= NUMBER_LIMIT)
    {
      hide Says, Decode, Prepared, Untouched;
      var w := work.value;
      if destination.None? {
        r := WriteJournal(Initial(w));
      } else {
        r := WriteJournal(Exchange(w, destination.value));
      }
      if r != Done {
        return;
      }
      r := Step();
      if r != Done {
        return;
      }
      PreparedAnyway(destination);
      work, destination := destination, Some(w);
    }

    /** Only while idle does it matter which work root there is. */
    lemma PreparedAnyway(inode: Option<Inode>)
      requires Valid() && ready && !value.Idle?
      ensures Prepared(journal.slots, generation, value, inode)
    {}

    /** A whole campaign, with the recovery that runs whether it succeeds or
        not. The destination ends as it was or as the new stage; it is the new
        stage unless the machine stops too early, a call fails, the build does,
        or generations run out. */
    method Campaign(id: nat, files: nat, sound: bool) returns (r: Outcome)
      requires Valid()
      modifies this
      ensures Valid() && calls == old(calls) && generation <= old(generation) + 4
      ensures Published(Now()) == old(Published(Now())) || Published(Now()) == Some(Complete(id, files))
      ensures r == Done ==> value == Idle && work.Some? && Published(Now()) == Some(Complete(id, files))
      ensures Spent(old(at), old(CampaignSteps(Now(), files)), r)
      ensures r == Raised ==> Failed(old(at)) || !sound || old(generation) + 4 >= NUMBER_LIMIT
      ensures r == Raised && !Failed(old(at)) && old(generation) + 4 < NUMBER_LIMIT ==> value == Idle && work.Some?
    {
      hide Says, Decode, Consistent, Recorded, Prepared;
      r := OpenJournal();
      if r != Done {
        return;
      }
      r := Recover();
      if r == Done {
        r := BuildAndPublish(id, files, sound);
      }
      if r == Crashed {
        return;
      }
      var cleanup := Recover();
      if cleanup == Crashed {
        return Crashed;
      }
      if r == Done && cleanup == Raised {
        return Raised;
      }
    }

    method BuildAndPublish(id: nat, files: nat, sound: bool) returns (r: Outcome)
      requires Valid() && ready && value == Idle && work.Some? && Size(InWork(Now())) == 0
      modifies this`journal, this`work, this`destination, this`dirs, this`at, this`generation, this`value
      ensures Valid() && generation <= old(generation) + 2
      ensures Published(Now()) == old(Published(Now())) || Published(Now()) == Some(Complete(id, files))
      ensures Size(InWork(Now())) <= files + 1 + old(Size(Published(Now())))
      ensures r == Done ==> Published(Now()) == Some(Complete(id, files))
      ensures Spent(old(at), files + 7, r)
      ensures r == Raised ==> Failed(old(at)) || !sound || old(generation) + 2 >= NUMBER_LIMIT
    {
      hide Says, Decode, Recorded, Prepared, Untouched;
      r := WriteJournal(Building(work.value));
      if r != Done {
        return;
      }
      r := Build(id, files, sound);
      if r != Done {
        return;
      }
      r := Publish();
    }
  }

  /** A campaign: the system calls before the machine stops in it, the stage to
      publish, and whether its build succeeds. */
  datatype Plan = Plan(calls: seq<bool>, id: nat, files: nat, sound: bool)

  /** What a campaign makes of the directories. The destination is absent or one
      complete stage: the one it was, or the one to publish, which it is after
      success. Enough calls without a failure, a sound build and generations
      left are enough to succeed. */
  ghost predicate Happened(s: State, plan: Plan, r: Outcome, t: State, generation: nat) {
    var stage := Some(Complete(plan.id, plan.files));
    && (Published(t).Some? ==> Published(t).value.Complete?)
    && (Published(t) == Published(s) || Published(t) == stage) && (r == Done ==> Published(t) == stage && t.work.Some?)
    && (r == Crashed ==> |plan.calls| < CampaignSteps(s, plan.files))
    && (r == Raised ==> false in plan.calls || !plan.sound || generation + 4 >= NUMBER_LIMIT)
  }

  /** Any number of campaigns, each stopped anywhere. The destination is never
      anything but absent or one complete stage, and it is the stage it was at
      first or one that a campaign was to publish. */
  method Restarts(disk: Disk, plans: seq<Plan>) returns (outcomes: seq<Outcome>, states: seq<State>)
    requires disk.Valid()
    modifies disk
    ensures disk.Valid() && |outcomes| == |plans| && |states| == |plans| + 1
    ensures states[0] == old(disk.Now()) && states[|plans|] == disk.Now()
    ensures forall i :: 0 <= i < |plans| ==>
              Happened(states[i], plans[i], outcomes[i], states[i + 1], old(disk.generation) + 4 * i)
    ensures disk.value == Idle ==> EmptyOrMissing(disk.Now())
    ensures
      || Published(disk.Now()) == old(Published(disk.Now()))
      || exists i :: 0 <= i < |plans| && Published(disk.Now()) == Some(Complete(plans[i].id, plans[i].files))
  {
    hide Says, Decode, Recorded, Prepared;
    outcomes, states := [], [disk.Now()];
    while |outcomes| < |plans|
      invariant |outcomes| <= |plans| && |states| == |outcomes| + 1 && disk.Valid()
      invariant states[0] == old(disk.Now()) && states[|outcomes|] == disk.Now()
      invariant disk.generation <= old(disk.generation) + 4 * |outcomes|
      invariant forall i :: 0 <= i < |outcomes| ==>
                  Happened(states[i], plans[i], outcomes[i], states[i + 1], old(disk.generation) + 4 * i)
      invariant
        || Published(disk.Now()) == old(Published(disk.Now()))
        || exists i :: 0 <= i < |outcomes| && Published(disk.Now()) == Some(Complete(plans[i].id, plans[i].files))
    {
      var plan := plans[|outcomes|];
      disk.calls, disk.at := plan.calls, 0;
      var r := disk.Campaign(plan.id, plan.files, plan.sound);
      outcomes, states := outcomes + [r], states + [disk.Now()];
    }
  }

  lemma UntouchedHarmless(r: Record, generation: nat, w: Value)
    requires Untouched(r, generation) && Legal(w)
    ensures Harmless(r, generation, w)
  {
    RenderFits(w);
  }

  lemma SameTouch(r: Record, s: Record, generation: nat)
    requires r.checksum == s.checksum
    ensures Untouched(r, generation) == Untouched(s, generation)
  {}

  lemma MarkedSized(r: Record, index: nat, generation: nat)
    requires Marked(r, index, generation)
    ensures Sized(r)
  {}

  /** Any mixture of old and new bytes. */
  method Mix<T>(was: seq<T>, now: seq<T>) returns (torn: seq<T>)
    requires |was| == |now|
    ensures Mixed(was, now, torn)
  {
    torn := [];
    while |torn| < |was|
      invariant |torn| <= |was| && forall i :: 0 <= i < |torn| ==> torn[i] == was[i] || torn[i] == now[i]
    {
      var written: bool := *;
      torn := torn + [if written then now[|torn|] else was[|torn|]];
    }
  }

  /** Any header a stop may leave. */
  method Tear(was: Record, now: Record) returns (torn: Record)
    requires |was.generation| == |now.generation| && |was.length| == |now.length| && was.body == now.body
    ensures Torn(was, now, torn)
  {
    hide Mixed;
    var generation := Mix(was.generation, now.generation);
    var length := Mix(was.length, now.length);
    var framed: bool, summed: bool, broken: bool := *, *, *;
    var frame := if was.frame && now.frame then true else framed && (was.frame || now.frame);
    torn := Record(frame, generation, length, if summed then now.checksum else if broken then Broken
      else was.checksum, was.body);
  }

  lemma EncodedShape(generation: nat, v: Value)
    requires Encode(generation, v).Some?
    ensures var r := Encode(generation, v).value;
            && Sized(r) && |r.body| == BODY && r.checksum.Sum? && r.checksum.generation == generation
  {
    hide Render, Hex, Padded;
  }

  lemma EmptyShape()
    ensures |Empty().body| == BODY && Empty() == Empty().(body := Empty().body)
  {}

  /** Without a frame there is no record, whatever the body. */
  lemma EmptyBody(body: string)
    ensures Decode(Empty().(body := body)).None? && (|body| == BODY ==> Sized(Empty().(body := body)))
  {}
}

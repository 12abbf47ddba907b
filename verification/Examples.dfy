// Concrete inputs on which a naive reading of the protocol fails.
module Examples {
  import opened Efi
  import opened DevicePath
  import opened PageMemory
  import opened FileReader
  import opened FileSearch
  import opened Capsule
  import opened Runtime
  import opened DebugLog
  import opened UpdateInfo
  import opened UpdateTable
  import opened Boot
  import opened Runs
  import opened History

  /** A store with one fwupd variable of one byte. */
  const ONE_BYTE: Store := [Variable(Key(Wide("x"), FWUPDATE_GUID), 7, [0])]

  /** fwup_delete_variable is called on the variable that does not parse, and leaves it where it is. */
  method MalformedIsKept(log: Logger) returns (rc: Status)
    requires log.rt.vars == ONE_BYTE && !log.debugging
    modifies log`once, log`formats, log.rt`vars, log.rt`sets, log.rt`trace, log.rt`refused, log.rt`gets, log.rt`faults
    ensures log.rt.vars == ONE_BYTE && log.rt.trace == old(log.rt.trace)
    ensures log.rt.faults == old(log.rt.faults) ==> rc == BufferTooSmall
  {
    ghost var key := Key(Wide("x"), FWUPDATE_GUID);
    assert ONE_BYTE[0].key == key;
    rc := log.DeleteVariable(Key(Wide("x"), FWUPDATE_GUID));
  }

  /** So it stops every boot. */
  lemma MalformedStopsBoot(p: Platform, run: Run, t: Store, events: seq<Event>)
    requires p.Valid() && RunOf(p, ONE_BYTE, run, t, events)
    ensures t == ONE_BYTE && (run.BadVariable? || run.Faulted?)
  {
    assert PendingOf(ONE_BYTE[..0]) == [];
    assert |Wide("x")| == 1 && |VERBOSE_NAME| > 1 && |LOG_NAME| > 1;
    assert Offending(ONE_BYTE, 0);
  }

  /** A name that does not fit the buffer traps the enumeration for ever. */
  lemma LongNameTraps(turns: nat)
    ensures ScanAfter([Variable(Key(seq(512, _ => 0x78), FWUPDATE_GUID), 7, [0])], turns).Running?
  {
    var s := [Variable(Key(seq(512, _ => 0x78), FWUPDATE_GUID), 7, [0])];
    assert Huge(s[0]);
    assert !Halting(s);
    HaltsIff(s);
  }

  // ---- an update that is marked attempted but was never handed to firmware ----------------------------

  /** An update of 68 bytes with the given status, whose device path is one file node, named by c, and the end. */
  function Info(c: uint8, status: uint8): (b: seq<uint8>)
    ensures |b| == 68 && b[48] == status && b[56] == c
  {
    seq(48, _ => 0) + [status, 0, 0, 0] + [4, 4, 12, 0, c, 0, 1, 0, 1, 0, 0, 0] + END_NODE
  }

  /** A capsule that is nothing but its header. */
  const BARE_CAPSULE: seq<uint8> := seq(16, _ => 0) + [28, 0, 0, 0] + [0, 0, 0, 0] + [28, 0, 0, 0]

  const BARE_IMAGE := Image(BARE_CAPSULE, _ => Success)

  /** On this disk the file of update 1 is a bare capsule and there is no other file. */
  const DISK := Disk(
    _ => Some((0, 0)),
    Err(NotFound),
    (_, _) => false,
    _ => Success,
    (_, name) => if name != [] && name[0] == 1 then Ok(BARE_IMAGE) else Err(NotFound))

  const PLATFORM := Platform(DISK, None, 0, WORD64)

  lemma InfoParses(c: uint8, status: uint8)
    ensures var b := Info(c, status);
            WellFormed(b) && Starts(b, DP_OFFSET, 16) == [52, 64] && IsFile(b, 52) && NodeLength(b, 52) == 12
  {
    var b := Info(c, status);
    assert b[52] == 4 && b[53] == 4 && b[54] == 12 && b[55] == 0;
    assert b[64] == END_TYPE && b[65] == END_ENTIRE_SUBTYPE && b[66] == 4 && b[67] == 0;
    assert ValidPath(b, 64, 4);
    assert ValidPath(b, 52, 16);
    assert Starts(b, 64, 4) == [64];
  }

  lemma InfoMarks(c: uint8)
    ensures AttemptBit(Info(c, 1)) && Marked(Info(c, 1), Info(c, 2))
  {
    var b, m := Info(c, 1), Info(c, 2);
    assert b[49] == 0 && b[50] == 0 && b[51] == 0 && m[49] == 0 && m[50] == 0 && m[51] == 0;
  }

  lemma InfoOpens(c: uint8)
    ensures OpenOutcome(DISK, Info(c, 2), DP_OFFSET, 16, WORD64,
                        if c == 1 then Ok(BARE_IMAGE) else Err(NotFound))
  {
    InfoParses(c, 2);
    var b := Info(c, 2);
    var name := FileName(b, 52, 8);
    assert name[0] == b[56] == c;
    var r: Result<Image> := DISK.open(0, name);
    assert LocatedOpen(DISK, b, DP_OFFSET, 16, WORD64, Ok((0, 52)), r);
  }

  /** The file of update 1 becomes a capsule; update 2 has no file. */
  lemma InfoOutcome(c: uint8)
    ensures CapsuleOutcome(PLATFORM, Info(c, 2), if c == 1 then Ok(BARE_CAPSULE) else Err(NotFound))
  {
    InfoOpens(c);
    var image: Result<Image> := if c == 1 then Ok(BARE_IMAGE) else Err(NotFound);
    var b := Info(c, 2);
    assert ImageSize(BARE_CAPSULE) == 28 && Flags(BARE_CAPSULE) == 0;
    assert b[4] == 0 && InfoGuid(b)[0] == b[4];
    assert InfoFlags(b) == 0;
    assert Patch(BARE_CAPSULE, 20, Bytes32(0)) == BARE_CAPSULE;
    assert BARE_IMAGE.Fault(0) == None;
    assert OutcomeOf(PLATFORM, b, image, if c == 1 then Ok(BARE_CAPSULE) else Err(NotFound));
  }

  function Update(name: String16, c: uint8, status: uint8): Variable {
    Variable(Key(name, FWUPDATE_GUID), 7, Info(c, status))
  }

  /** Two armed updates, of which only the first one has a file. */
  const ARMED: Store := [Update(Wide("a"), 1, 1), Update(Wide("b"), 2, 1)]
  const MARKED: seq<Variable> := [Update(Wide("a"), 1, 2), Update(Wide("b"), 2, 2)]
  const OUTCOMES: seq<Outcome> := [Ok(BARE_CAPSULE), Err(NotFound)]
  const RUN := Applied(MARKED, OUTCOMES, [0], Warm, Some(Success))

  lemma ArmedStore(c: uint8)
    requires c in {1, 2}
    ensures var name := if c == 1 then Wide("a") else Wide("b");
            Pending(Update(name, c, 1)) && MarkedCopy(Update(name, c, 1), Update(name, c, 2))
  {
    InfoParses(c, 1);
    InfoMarks(c);
    assert |Wide("a")| == 1 && |Wide("b")| == 1 && |VERBOSE_NAME| > 1 && |LOG_NAME| > 1;
  }

  lemma TwoSelected(s: Store)
    requires |s| == 2 && s[0].key != s[1].key && Pending(s[0]) && Pending(s[1])
    ensures Selection(s) == PendingOf(s) == s && Scannable(s)
  {
    assert s[..1][..0] == [] && s[..1] == [s[0]];
    assert PendingOf(s[..1]) == [s[0]];
    assert PendingOf(s) == [s[0]] + [s[1]] == s;
  }

  lemma ArmedSelection()
    ensures ValidStore(ARMED) && Scannable(ARMED) && Selection(ARMED) == ARMED && MarkedAll(ARMED, MARKED)
  {
    hide Info, Guid, Pending, MarkedCopy, Selection, PendingOf, Scannable;
    ArmedStore(1);
    ArmedStore(2);
    assert Wide("a")[0] != Wide("b")[0];
    TwoSelected(ARMED);
  }

  lemma TwoOutcomes(p: Platform, tbl: seq<Variable>, outcomes: seq<Outcome>)
    requires p.Valid() && |tbl| == |outcomes| == 2
    requires TrueOutcome(p, tbl[0], outcomes[0]) && TrueOutcome(p, tbl[1], outcomes[1])
    ensures Outcomes(p, tbl, outcomes, false)
  {
    hide TrueOutcome;
    forall k | 0 <= k < 2
      ensures TrueOutcome(p, tbl[k], outcomes[k])
    {
    }
  }

  lemma MarkedOutcome(c: uint8)
    ensures PLATFORM.Valid()
    ensures TrueOutcome(PLATFORM, Update(if c == 1 then Wide("a") else Wide("b"), c, 2),
                        if c == 1 then Ok(BARE_CAPSULE) else Err(NotFound))
  {
    InfoOutcome(c);
  }

  lemma ArmedSelected()
    ensures PLATFORM.Valid() && Selected(PLATFORM, ARMED, MARKED, OUTCOMES)
  {
    MarkedOutcome(1);
    MarkedOutcome(2);
    TwoOutcomes(PLATFORM, MARKED, OUTCOMES);
    ArmedSelection();
  }

  lemma OneAccepted()
    ensures Accepted(OUTCOMES) == [BARE_CAPSULE]
  {
    assert OUTCOMES[..1] == [Ok(BARE_CAPSULE)] && OUTCOMES[..1][..0] == [];
    assert Accepted(OUTCOMES[..1]) == [BARE_CAPSULE];
  }

  lemma ArmedRun(t: Store, events: seq<Event>)
    requires t == WriteBack(ARMED, MARKED)
    requires events == WriteEvents(MARKED) + ApplyEvents(Accepted(OUTCOMES), [0], Warm, true)
    ensures PLATFORM.Valid() && RunOf(PLATFORM, ARMED, RUN, t, events)
  {
    ArmedSelected();
    OneAccepted();
    assert Concluded(RUN, ARMED, t, events);
  }

  /** "Marked attempted" does not mean "handed to firmware": the second update is marked, but cannot be built. */
  lemma MarkedButNotSent() returns (t: Store, events: seq<Event>)
    ensures PLATFORM.Valid() && ValidStore(ARMED) && RunOf(PLATFORM, ARMED, RUN, t, events)
    ensures Armed(ARMED, ARMED[1].key) && !Armed(t, ARMED[1].key)
    ensures !Builds(PLATFORM, ARMED[1]) && Inclusions(RUN, events, ARMED[1].key) == 0
  {
    t, events := WriteBack(ARMED, MARKED), WriteEvents(MARKED) + ApplyEvents(Accepted(OUTCOMES), [0], Warm, true);
    ArmedSelection();
    ArmedRun(t, events);
    assert events[..|events|] == events;
    DisarmedIff(PLATFORM, ARMED, RUN, t, events, |events|, 1);
    RunReplays(PLATFORM, ARMED, RUN, t, events);
    InclusionsCut(PLATFORM, ARMED, RUN, t, events, |events|, 1);
    MarkedOutcome(2);
    OutcomeTellsBuilds(PLATFORM, ARMED[1], MARKED[1], OUTCOMES[1]);
  }

  const HALTED := Interrupted(MARKED, OUTCOMES, 1, Other(9))

  lemma HaltedRun(t: Store, events: seq<Event>)
    requires t == WriteBack(ARMED, MARKED[..1])
    requires events == WriteEvents(MARKED[..1]) + [SetRefused(MARKED[1].key, Other(9))]
    ensures PLATFORM.Valid() && RunOf(PLATFORM, ARMED, HALTED, t, events)
  {
    ArmedSelected();
    OneAccepted();
    assert Concluded(HALTED, ARMED, t, events);
  }

  /**
   * Nor does it when the update can be built: the first update is stored as attempted, the write of the second one
   * is refused, and the program returns. MarkedAndSent says for all runs which updates are marked and handed over.
   */
  lemma MarkedThenInterrupted() returns (t: Store, events: seq<Event>)
    ensures PLATFORM.Valid() && ValidStore(ARMED) && RunOf(PLATFORM, ARMED, HALTED, t, events)
    ensures Armed(ARMED, ARMED[0].key) && !Armed(t, ARMED[0].key)
    ensures Builds(PLATFORM, ARMED[0]) && Inclusions(HALTED, events, ARMED[0].key) == 0
  {
    t, events := WriteBack(ARMED, MARKED[..1]), WriteEvents(MARKED[..1]) + [SetRefused(MARKED[1].key, Other(9))];
    ArmedSelection();
    HaltedRun(t, events);
    assert events[..|events|] == events;
    DisarmedIff(PLATFORM, ARMED, HALTED, t, events, |events|, 0);
    RunReplays(PLATFORM, ARMED, HALTED, t, events);
    MarkedOutcome(1);
    OutcomeTellsBuilds(PLATFORM, ARMED[0], MARKED[0], OUTCOMES[0]);
  }

  // ---- a buffer that is never given back --------------------------------------------------------------

  /** Firmware that gives the reader one buffer and no second one. */
  function GrantOnce(call: nat): Option<nat> {
    if call == 0 then Some(0x1000) else None
  }

  /** A file of 4 MiB, of which every Read succeeds. */
  const FULL_BUFFER := Image(seq(FIRST_CAPACITY, _ => 0), _ => Success)

  /** When the buffer cannot be regrown, the error is returned and the buffer stays allocated. */
  method RegrowLeaks() returns (mem: Pages, r: Result<Span>)
    ensures r == Err(OutOfResources)
    ensures exists a :: a in mem.live && mem.live[a].data.Length >= FIRST_CAPACITY
  {
    mem := new Pages(WORD64, GrantOnce, _ => false);
    var fh := new File(FULL_BUFFER);
    FaultFree(FULL_BUFFER, 0);
    assert mem.Answers(FIRST_CAPACITY);
    r := ReadFile(mem, fh);
    if r.Err? {
      var a :| a in mem.live && mem.live[a].data.Length == fh.pos;
    }
  }
}

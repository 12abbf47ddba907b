// efi_main: one boot of the update program.
module Boot {
  import opened Efi
  import opened PageMemory
  import opened Capsule
  import opened CapsuleList
  import opened Descriptors
  import opened Runtime
  import opened DebugLog
  import opened UpdateInfo
  import opened UpdateTable

  // ---- writing the statuses back ---------------------------------------------------------------

  /** The last update of tbl with the key of v, else v. */
  function Latest(v: Variable, tbl: seq<Variable>): (r: Variable)
    ensures r.key == v.key
    ensures r == v || r in tbl
  {
    if tbl == [] then v
    else if tbl[|tbl| - 1].key == v.key then tbl[|tbl| - 1]
    else Latest(v, tbl[..|tbl| - 1])
  }

  /** The store with every variable named in tbl replaced by its entry there. */
  function WriteBack(s: Store, tbl: seq<Variable>): (t: Store)
    ensures |t| == |s| && forall i :: 0 <= i < |s| ==> t[i] == Latest(s[i], tbl)
  {
    seq(|s|, i requires 0 <= i < |s| => Latest(s[i], tbl))
  }

  ghost predicate RewritesOne(s: Store, w: Variable) {
    w.data != [] && !Appends(w.attrs) && Find(s, w.key).Some? && s[Find(s, w.key).value].attrs == w.attrs
  }

  /** Every entry of tbl is a stored variable with other data. */
  ghost predicate Rewrites(s: Store, tbl: seq<Variable>) {
    forall k {:trigger RewritesOne(s, tbl[k])} :: 0 <= k < |tbl| ==> RewritesOne(s, tbl[k])
  }

  lemma {:induction false} FindSameKeys(s: Store, t: Store, key: Key)
    requires |s| == |t| && forall i :: 0 <= i < |s| ==> s[i].key == t[i].key
    ensures Find(s, key) == Find(t, key)
    decreases |s|
  {
    if s != [] {
      FindSameKeys(s[..|s| - 1], t[..|t| - 1], key);
    }
  }

  lemma {:induction false} LatestAttrs(s: Store, i: nat, tbl: seq<Variable>)
    requires ValidStore(s) && i < |s| && Rewrites(s, tbl)
    ensures Latest(s[i], tbl).attrs == s[i].attrs
    decreases |tbl|
  {
    if tbl != [] {
      var w := tbl[|tbl| - 1];
      assert RewritesOne(s, w);
      if w.key == s[i].key {
        FindUnique(s, i);
      } else {
        LatestAttrs(s, i, tbl[..|tbl| - 1]);
      }
    }
  }

  /** One accepted SetVariable carries the write-back on by one entry. */
  lemma WriteBackStep(s: Store, tbl: seq<Variable>, k: nat)
    requires ValidStore(s) && Rewrites(s, tbl) && k < |tbl|
    ensures Set(WriteBack(s, tbl[..k]), tbl[k].key, tbl[k].data, tbl[k].attrs) == (WriteBack(s, tbl[..k + 1]), Success)
  {
    var w := tbl[k];
    var t := WriteBack(s, tbl[..k]);
    var u := WriteBack(s, tbl[..k + 1]);
    assert RewritesOne(s, w);
    FindSameKeys(s, t, w.key);
    var i := Find(s, w.key).value;
    LatestAttrs(s, i, tbl[..k]);
    assert tbl[..k + 1][..k] == tbl[..k];
    forall j | 0 <= j < |s|
      ensures u[j] == if j == i then w else t[j]
    {
      if s[j].key == w.key {
        FindUnique(s, j);
      }
    }
    assert u == t[i := t[i].(data := w.data)];
  }

  function WriteEvents(tbl: seq<Variable>): (e: seq<Event>)
    ensures |e| == |tbl| && forall k :: 0 <= k < |tbl| ==> e[k] == Event.SetVariable(tbl[k])
  {
    seq(|tbl|, k requires 0 <= k < |tbl| => Event.SetVariable(tbl[k]))
  }

  lemma WriteEventsStep(tbl: seq<Variable>, k: nat)
    requires k < |tbl|
    ensures WriteEvents(tbl[..k + 1]) == WriteEvents(tbl[..k]) + [Event.SetVariable(tbl[k])]
  {
  }

  /** Store one entry of the table; s is the store before the write-back began. */
  method WriteOne(rt: Firmware, update: UpdateEntry, ghost s: Store, ghost tbl: seq<Variable>, ghost k: nat)
    returns (rc: Status)
    requires ValidStore(s) && Rewrites(s, tbl) && k < |tbl| && rt.vars == WriteBack(s, tbl[..k])
    requires update.info != null && update.Value() == tbl[k]
    modifies rt`vars, rt`sets, rt`trace, rt`refused
    ensures rc.IsError() ==>
              && rt.vars == old(rt.vars) && rt.refused == old(rt.refused) + 1
              && rt.trace == old(rt.trace) + [SetRefused(tbl[k].key, rc)]
    ensures !rc.IsError() ==>
              && rt.vars == WriteBack(s, tbl[..k + 1]) && rt.refused == old(rt.refused)
              && rt.trace == old(rt.trace) + [Event.SetVariable(tbl[k])]
  {
    WriteBackStep(s, tbl, k);
    rc := rt.SetVariable(Key(update.name, FWUPDATE_GUID), update.info[..], update.attrs);
  }

  /** fwup_set_update_statuses; written counts the variables that were stored. */
  method SetUpdateStatuses(rt: Firmware, updates: array<UpdateEntry?>, ghost tbl: seq<Variable>)
    returns (rc: Status, ghost written: nat)
    requires ValidStore(rt.vars) && Rewrites(rt.vars, tbl)
    requires updates.Length == MAX_UPDATES && Table(updates[..], tbl)
    modifies rt`vars, rt`sets, rt`trace, rt`refused
    ensures written <= |tbl| && rt.vars == WriteBack(old(rt.vars), tbl[..written])
    ensures !rc.IsError() ==> rc == Success && written == |tbl| && rt.refused == old(rt.refused)
    ensures rc.IsError() ==> written < |tbl| && rt.refused == old(rt.refused) + 1
    ensures rt.trace == old(rt.trace) + WriteEvents(tbl[..written]) +
                        if rc.IsError() then [SetRefused(tbl[written].key, rc)] else []
  {
    ghost var s := rt.vars;
    written := 0;
    assert s == WriteBack(s, tbl[..0]);
    for i := 0 to MAX_UPDATES
      invariant written == i <= |tbl| <= MAX_UPDATES
      invariant Table(updates[..], tbl)
      invariant rt.vars == WriteBack(s, tbl[..i]) && rt.refused == old(rt.refused)
      invariant rt.trace == old(rt.trace) + WriteEvents(tbl[..i])
    {
      if updates[i] == null {
        break;
      }
      rc := WriteOne(rt, updates[i], s, tbl, i);
      if rc.IsError() {
        return;
      }
      WriteEventsStep(tbl, i);
      written := i + 1;
    }
    rc := Success;
  }

  // ---- building the capsules --------------------------------------------------------------------

  type Outcome = Result<seq<uint8>>

  /** The finished capsules among the outcomes, in order. */
  function Accepted(outcomes: seq<Outcome>): (blobs: seq<seq<uint8>>)
    ensures |blobs| <= |outcomes|
  {
    if outcomes == [] then []
    else
      Accepted(outcomes[..|outcomes| - 1]) +
      match outcomes[|outcomes| - 1]
      case Ok(sent) => [sent]
      case Err(_) => []
  }

  /** Outcome o is the one that update w has when no allocation fails. */
  ghost predicate TrueOutcome(p: Platform, w: Variable, o: Outcome)
    requires p.Valid()
  {
    |w.data| >= DP_OFFSET && CapsuleOutcome(p, w.data, o)
  }

  predicate Starved(o: Outcome) {
    o == Err(ShortOfMemory(true)) || o == Err(ShortOfMemory(false))
  }

  /** Out of memory, or a path that cannot be copied. */
  lemma StarvedIff(o: Outcome)
    ensures Starved(o) <==> o == Err(OutOfResources) || o == Err(InvalidParameter)
  {
  }

  /** Each outcome is the true one; unless memory was plenty, an update may also have failed for want of it. */
  ghost predicate Outcomes(p: Platform, tbl: seq<Variable>, outcomes: seq<Outcome>, plenty: bool)
    requires p.Valid()
  {
    && |outcomes| <= |tbl|
    && forall k {:trigger TrueOutcome(p, tbl[k], outcomes[k])} :: 0 <= k < |outcomes| ==>
         TrueOutcome(p, tbl[k], outcomes[k]) || (!plenty && Starved(outcomes[k]))
  }

  lemma OutcomesStep(p: Platform, tbl: seq<Variable>, outcomes: seq<Outcome>, o: Outcome, before: bool, after: bool)
    requires p.Valid() && |outcomes| < |tbl| && Outcomes(p, tbl, outcomes, before)
    requires TrueOutcome(p, tbl[|outcomes|], o) || (!after && Starved(o))
    requires after ==> before
    ensures Outcomes(p, tbl, outcomes + [o], after)
  {
  }

  predicate AllWellFormed(tbl: seq<Variable>) {
    forall k {:trigger WellFormed(tbl[k].data)} :: 0 <= k < |tbl| ==> WellFormed(tbl[k].data)
  }

  lemma AcceptedStep(outcomes: seq<Outcome>, o: Outcome)
    ensures Accepted(outcomes + [o]) == Accepted(outcomes) + if o.Ok? then [o.value] else []
  {
    assert (outcomes + [o])[..|outcomes|] == outcomes;
  }

  /** The first n capsules do not lie in the memory of the descriptor list. */
  ghost predicate Beside(live: map<nat, Block>, headers: seq<nat>, n: nat, cbd: array<uint8>) {
    && n <= |headers|
    && forall k {:trigger headers[k]} :: 0 <= k < n && headers[k] in live ==> live[headers[k]].data != cbd
  }

  /** No update is stored in the memory of the descriptor list. */
  ghost predicate InfosBeside(slots: seq<UpdateEntry?>, cbd: array<uint8>)
    reads slots
  {
    forall k {:trigger slots[k]} :: 0 <= k < |slots| && slots[k] != null ==> slots[k].info != cbd
  }

  /** One turn of the build loop: slot j is filled for an accepted capsule and left alone for a failed one. */
  method BuildOne(p: Platform, update: UpdateEntry, mem: Pages, capsules: array<nat>, cbd: array<uint8>, j: nat,
                  ghost tbl: seq<Variable>, ghost outcomes: seq<Outcome>, ghost plenty: bool)
    returns (rc: Status, ghost outcome: Outcome)
    requires p.Valid() && mem.Valid() && mem.word == p.word
    requires |outcomes| < |tbl| && WellFormed(tbl[|outcomes|].data)
    requires update.info != null && update.Value() == tbl[|outcomes|]
    requires Outcomes(p, tbl, outcomes, plenty)
    requires j == |Accepted(outcomes)| < capsules.Length && j < |List(cbd[..])| && update.info != cbd
    requires Describes(List(cbd[..]), capsules[..], mem.live, Accepted(outcomes)) && Capsules(Accepted(outcomes))
    requires Beside(mem.live, capsules[..], j, cbd)
    modifies mem`live, mem`calls, mem`pools, mem`failures, mem`copied, capsules, cbd
    ensures mem.Valid() && mem.failures >= old(mem.failures)
    ensures rc == (match outcome case Ok(_) => Success case Err(error) => error)
    ensures Outcomes(p, tbl, outcomes + [outcome], plenty && mem.failures == old(mem.failures))
    ensures var blobs := Accepted(outcomes + [outcome]);
            && Describes(List(cbd[..]), capsules[..], mem.live, blobs) && Capsules(blobs)
            && |blobs| == (if rc.IsError() then j else j + 1)
            && Beside(mem.live, capsules[..], |blobs|, cbd)
    ensures Extends(old(mem.live), mem.live)
  {
    hide Accepted, Outcomes, CapsuleOutcome;
    ghost var w, blobs := tbl[|outcomes|], Accepted(outcomes);
    ghost var list, headers, live := List(cbd[..]), capsules[..], mem.live;
    ghost var sent;
    label before:
    rc, sent := AddUpdateCapsule(p, update.info, mem, capsules, cbd, j);
    forall k | 0 <= k < |blobs|
      ensures list[k] == Descriptor(|blobs[k]|, headers[k]) && Holds(mem.live, headers[k], blobs[k])
    {
      assert old@before(Holds(live, headers[k], blobs[k]));
    }
    if rc.IsError() {
      outcome := Err(rc);
      assert List(cbd[..]) == list && capsules[..] == headers;
    } else {
      outcome := Ok(sent);
      AcceptedLength(p, update.info[..], sent);
    }
    AcceptedStep(outcomes, outcome);
    OutcomesStep(p, tbl, outcomes, outcome, plenty, plenty && mem.failures == old(mem.failures));
  }

  lemma NoOutcomes(p: Platform, tbl: seq<Variable>)
    requires p.Valid()
    ensures Outcomes(p, tbl, [], true)
  {
  }

  lemma NoCapsules(list: seq<Descriptor>, headers: seq<nat>, live: map<nat, Block>, cbd: array<uint8>)
    ensures Accepted([]) == [] && Capsules([])
    ensures Describes(list, headers, live, []) && Beside(live, headers, 0, cbd)
  {
  }

  /** The build loop; slots fill in table order, without gaps. */
  method BuildCapsules(p: Platform, updates: array<UpdateEntry?>, n: nat, ghost tbl: seq<Variable>, mem: Pages,
                       capsules: array<nat>, cbd: array<uint8>)
    returns (rc: Status, j: nat, ghost outcomes: seq<Outcome>)
    requires p.Valid() && mem.Valid() && mem.word == p.word
    requires n == |tbl| && Table(updates[..], tbl) && AllWellFormed(tbl)
    requires capsules.Length == n + 1 && n < |List(cbd[..])| && InfosBeside(updates[..], cbd)
    modifies mem`live, mem`calls, mem`pools, mem`failures, mem`copied, capsules, cbd
    ensures mem.Valid() && mem.failures >= old(mem.failures)
    ensures |outcomes| == n && j == |Accepted(outcomes)|
    ensures Outcomes(p, tbl, outcomes, mem.failures == old(mem.failures))
    ensures n > 0 ==> rc == (match outcomes[n - 1] case Ok(_) => Success case Err(error) => error)
    ensures Describes(List(cbd[..]), capsules[..], mem.live, Accepted(outcomes)) && Capsules(Accepted(outcomes))
    ensures Beside(mem.live, capsules[..], j, cbd) && Extends(old(mem.live), mem.live) && Table(updates[..], tbl)
  {
    hide Describes, Beside, Capsules, List, Accepted, Pages.Valid, Outcomes;
    NoCapsules(List(cbd[..]), capsules[..], mem.live, cbd);
    NoOutcomes(p, tbl);
    rc, j, outcomes := Success, 0, [];
    for i := 0 to n
      invariant mem.Valid() && mem.failures >= old(mem.failures)
      invariant |outcomes| == i && j == |Accepted(outcomes)|
      invariant Outcomes(p, tbl, outcomes, mem.failures == old(mem.failures))
      invariant i > 0 ==> rc == (match outcomes[i - 1] case Ok(_) => Success case Err(error) => error)
      invariant Describes(List(cbd[..]), capsules[..], mem.live, Accepted(outcomes)) && Capsules(Accepted(outcomes))
      invariant Beside(mem.live, capsules[..], j, cbd) && Extends(old(mem.live), mem.live)
      invariant Table(updates[..], tbl) && InfosBeside(updates[..], cbd)
    {
      ghost var outcome;
      ghost var plenty := mem.failures == old(mem.failures);
      assert updates[i].Value() == tbl[i];
      rc, outcome := BuildOne(p, updates[i], mem, capsules, cbd, j, tbl, outcomes, plenty);
      outcomes := outcomes + [outcome];
      if rc.IsError() {
        continue;
      }
      j := j + 1;
    }
  }

  // ---- efi_main -----------------------------------------------------------------------------------

  /**
   * How a boot ended. tbl holds the selected updates as they were marked, outcomes how each one was built, and
   * headers the pointers to the capsules that UpdateCapsule was given. back is None if that call reset the machine.
   */
  datatype Run =
    | Faulted(rc: Status)  // memory or the variable device failed
    | BadVariable          // a variable that had to be parsed is malformed
    | NothingPending
    | NothingBuilt(tbl: seq<Variable>, outcomes: seq<Outcome>)
    | Interrupted(tbl: seq<Variable>, outcomes: seq<Outcome>, written: nat, rc: Status)  // SetVariable failed
    | Applied(tbl: seq<Variable>, outcomes: seq<Outcome>, headers: seq<nat>, kind: ResetType, back: Option<Status>)
  {
    predicate Built() {
      NothingBuilt? || Interrupted? || Applied?
    }

    /** The status the program ends with, if it gets that far. */
    function Returned(): Option<Status> {
      match this
      case Faulted(rc) => Some(rc)
      case BadVariable => Some(InvalidParameter)
      case NothingPending => Some(InvalidParameter)
      case NothingBuilt(_, outcomes) =>
        Some(if outcomes != [] && outcomes[|outcomes| - 1].Err? then outcomes[|outcomes| - 1].error else Success)
      case Interrupted(_, _, _, rc) => Some(rc)
      case Applied(_, _, _, _, back) => back
    }
  }

  /** The table of a run is the marked selection of the store, and the outcomes are those of its updates. */
  ghost predicate Selected(p: Platform, s: Store, tbl: seq<Variable>, outcomes: seq<Outcome>)
    requires p.Valid()
  {
    && Scannable(s) && Selection(s) != [] && MarkedAll(Selection(s), tbl)
    && |outcomes| == |tbl| && Outcomes(p, tbl, outcomes, false)
  }

  /** The firmware calls once every status is written: ask, hand over the capsules, and reset if that came back. */
  function ApplyEvents(blobs: seq<seq<uint8>>, headers: seq<nat>, kind: ResetType, back: bool): seq<Event> {
    [QueryCapabilities(|blobs|), Event.UpdateCapsule(headers, Some(blobs))] +
    if back then [Event.ResetSystem(kind)] else []
  }

  /** The part of a run after its capsules were built. */
  ghost predicate Concluded(run: Run, s: Store, t: Store, events: seq<Event>)
    requires run.Built()
  {
    match run
    case NothingBuilt(tbl, outcomes) => Accepted(outcomes) == [] && t == s && events == []
    case Interrupted(tbl, outcomes, written, rc) =>
      && Accepted(outcomes) != []
      && rc.IsError() && written < |tbl| && t == WriteBack(s, tbl[..written])
      && events == WriteEvents(tbl[..written]) + [SetRefused(tbl[written].key, rc)]
    case Applied(tbl, outcomes, headers, kind, back) =>
      && Accepted(outcomes) != [] && |headers| == |Accepted(outcomes)|
      && t == WriteBack(s, tbl)
      && events == WriteEvents(tbl) + ApplyEvents(Accepted(outcomes), headers, kind, back.Some?)
    case _ => true
  }

  /** A run from store s to store t with the firmware calls events. */
  ghost predicate RunOf(p: Platform, s: Store, run: Run, t: Store, events: seq<Event>)
    requires p.Valid()
  {
    match run
    case Faulted(rc) => rc.IsError() && t == s && events == []
    case BadVariable => !Scannable(s) && t == s && events == []
    case NothingPending => Scannable(s) && Selection(s) == [] && t == s && events == []
    case _ => Selected(p, s, run.tbl, run.outcomes) && Concluded(run, s, t, events)
  }

  /** Nothing went wrong around the program: no fault, no refused write, and memory was plenty. */
  ghost predicate Quiet(p: Platform, run: Run)
    requires p.Valid()
  {
    && !run.Faulted? && !run.Interrupted?
    && (run.Built() ==> Outcomes(p, run.tbl, run.outcomes, true))
  }

  /** The runs that end in step 1. */
  lemma RunStopped(p: Platform, s: Store, run: Run)
    requires p.Valid()
    requires match run
             case Faulted(rc) => rc.IsError()
             case BadVariable => !Scannable(s)
             case NothingPending => Scannable(s) && MarkedAll(Selection(s), [])
             case _ => false
    ensures RunOf(p, s, run, s, [])
    ensures run.Returned() == Some(match run case Faulted(rc) => rc case _ => InvalidParameter)
    ensures !run.Faulted? ==> Quiet(p, run)
  {
  }

  lemma {:induction false} NoneOk(outcomes: seq<Outcome>)
    requires Accepted(outcomes) == []
    ensures forall k :: 0 <= k < |outcomes| ==> outcomes[k].Err?
  {
    if outcomes != [] {
      NoneOk(outcomes[..|outcomes| - 1]);
    }
  }

  /** The status of a run that did not get as far as UpdateCapsule is an error, and which one. */
  lemma ErrorReturned(p: Platform, s: Store, run: Run, t: Store, events: seq<Event>)
    requires p.Valid() && RunOf(p, s, run, t, events) && !run.Applied?
    ensures run.Returned().Some? && run.Returned().value.IsError()
    ensures run.NothingPending? || run.BadVariable? ==> run.Returned() == Some(InvalidParameter)
    ensures run.NothingBuilt? ==>
              && run.outcomes != [] && (forall k :: 0 <= k < |run.outcomes| ==> run.outcomes[k].Err?)
              && run.outcomes[|run.outcomes| - 1] == Err(run.Returned().value)
    ensures run.Interrupted? ==>
              && |events| == run.written + 1 && run.written < |run.tbl|
              && events[run.written] == SetRefused(run.tbl[run.written].key, run.Returned().value)
  {
    if run.NothingBuilt? {
      NoneOk(run.outcomes);
    }
  }

  /** Steps 2 to 5 complete a run whose table is the marked selection. */
  lemma RunAssembled(p: Platform, s: Store, tbl: seq<Variable>, run: Run, t: Store, events: seq<Event>, plenty: bool)
    requires p.Valid() && Scannable(s) && tbl != [] && MarkedAll(Selection(s), tbl)
    requires run.Built() && run.tbl == tbl && |run.outcomes| == |tbl| && Outcomes(p, tbl, run.outcomes, plenty)
    requires Concluded(run, s, t, events)
    ensures RunOf(p, s, run, t, events)
    ensures plenty && !run.Interrupted? ==> Quiet(p, run)
  {
  }

  lemma JoinTrace(trace: seq<Event>, a: seq<Event>, b: seq<Event>)
    ensures trace + a + b == trace + (a + b)
  {
  }

  /** The marked selection can be written back: its updates are stored, with these attributes. */
  lemma SelectionRewrites(s: Store, tbl: seq<Variable>)
    requires ValidStore(s) && MarkedAll(Selection(s), tbl)
    ensures Rewrites(s, tbl) && AllWellFormed(tbl)
  {
    PendingOfStore(s);
    forall k | 0 <= k < |tbl|
      ensures RewritesOne(s, tbl[k]) && WellFormed(tbl[k].data)
    {
      var v := Selection(s)[k];
      assert MarkedCopy(v, tbl[k]);
      assert v == PendingOf(s)[k];
      MarkedStaysWellFormed(v.data, tbl[k].data);
      var i :| 0 <= i < |s| && s[i] == v;
      FindUnique(s, i);
    }
  }

  /** What fwup_apply_capsules makes of the answer of UpdateCapsule. */
  function ApplyStatus(rt: Firmware): Option<Status> {
    match rt.updateStatus
    case None => None
    case Some(rc) => Some(if rc.IsError() then rc else Success)
  }

  /**
   * fwup_apply_capsules: the queried reset type, or a warm reset when the query does not succeed. There is no status
   * if UpdateCapsule resets the machine.
   */
  method ApplyCapsules(rt: Firmware, capsules: array<nat>, cbd: nat, count: nat, mem: Pages,
                       ghost blobs: seq<seq<uint8>>)
    returns (rc: Option<Status>, reset: ResetType)
    requires mem.Valid() && count == |blobs| < capsules.Length && count < |ListAt(mem.live, cbd)|
    requires Describes(ListAt(mem.live, cbd), capsules[..], mem.live, blobs) && Capsules(blobs)
    requires ListAt(mem.live, cbd)[count] == TERMINATOR
    modifies rt`trace
    ensures rc == ApplyStatus(rt)
    ensures rt.updateStatus.None? ==> rc == None
    ensures rt.updateStatus.Some? && rt.updateStatus.value.IsError() ==> rc == rt.updateStatus
    ensures rt.updateStatus.Some? && !rt.updateStatus.value.IsError() ==> rc == Some(Success)
    ensures reset == if rt.query.Some? then rt.query.value else Warm
    ensures rt.trace == old(rt.trace) + [QueryCapabilities(count), Event.UpdateCapsule(capsules[..count], Some(blobs))]
  {
    hide Capsules, BlockWalk, Pages.Valid, List;
    var ok;
    ghost var list := ListAt(mem.live, cbd);
    ok, reset := rt.QueryCapsuleCapabilities(capsules, count);
    if !ok {
      reset := Warm;
    }
    assert ListAt(mem.live, cbd) == list;
    forall k | 0 <= k < count
      ensures list[k] == Descriptor(|blobs[k]|, capsules[..][k]) && Holds(mem.live, capsules[..][k], blobs[k])
    {
      assert old(Holds(mem.live, capsules[..][k], blobs[k]));
    }
    WalkDescribed(list, capsules[..], mem.live, blobs);
    assert capsules[..][..count] == capsules[..count];
    rc := rt.UpdateCapsule(capsules, count, cbd, mem, blobs);
    if rc.Some? && !rc.value.IsError() {
      rc := Some(Success);
    }
  }

  /** Terminate the list behind its j entries. */
  method CloseList(mem: Pages, capsules: array<nat>, cbd: nat, j: nat, ghost blobs: seq<seq<uint8>>)
    requires mem.Valid() && cbd in mem.live && j == |blobs| < capsules.Length && j < |ListAt(mem.live, cbd)|
    requires Describes(ListAt(mem.live, cbd), capsules[..], mem.live, blobs)
    requires Beside(mem.live, capsules[..], j, mem.live[cbd].data)
    modifies mem.live[cbd].data
    ensures |ListAt(mem.live, cbd)| == old(|ListAt(mem.live, cbd)|) && ListAt(mem.live, cbd)[j] == TERMINATOR
    ensures Describes(ListAt(mem.live, cbd), capsules[..], mem.live, blobs)
  {
    ghost var list := ListAt(mem.live, cbd);
    label before:
    SetTerminator(mem.live[cbd].data, j);
    forall k | 0 <= k < j
      ensures ListAt(mem.live, cbd)[k] == Descriptor(|blobs[k]|, capsules[..][k])
      ensures Holds(mem.live, capsules[..][k], blobs[k])
    {
      assert old@before(Holds(mem.live, capsules[..][k], blobs[k]));
      assert list[k] == ListAt(mem.live, cbd)[k];
    }
  }

  /** Steps 3 to 5 of efi_main: write the statuses back, and unless that fails apply the capsules and reset. */
  method WriteAndApply(rt: Firmware, mem: Pages, updates: array<UpdateEntry?>, capsules: array<nat>, cbd: nat,
                       j: nat, ghost tbl: seq<Variable>, ghost blobs: seq<seq<uint8>>)
    returns (rc: Option<Status>, applied: bool, kind: ResetType, ghost written: nat, ghost headers: seq<nat>)
    requires mem.Valid() && ValidStore(rt.vars) && Rewrites(rt.vars, tbl)
    requires updates.Length == MAX_UPDATES && Table(updates[..], tbl)
    requires j == |blobs| < capsules.Length && j < |ListAt(mem.live, cbd)|
    requires Describes(ListAt(mem.live, cbd), capsules[..], mem.live, blobs) && Capsules(blobs)
    requires ListAt(mem.live, cbd)[j] == TERMINATOR
    modifies rt`vars, rt`sets, rt`trace, rt`refused
    ensures !applied ==>
              && rc.Some? && rc.value.IsError() && rt.refused > old(rt.refused) && written < |tbl|
              && rt.vars == WriteBack(old(rt.vars), tbl[..written])
              && rt.trace == old(rt.trace) + WriteEvents(tbl[..written]) + [SetRefused(tbl[written].key, rc.value)]
    ensures applied ==>
              && rt.refused == old(rt.refused)
              && rt.vars == WriteBack(old(rt.vars), tbl)
              && |headers| == j && Headed(headers, mem.live, blobs)
              && rt.trace == old(rt.trace) + WriteEvents(tbl) + ApplyEvents(blobs, headers, kind, rc.Some?)
              && kind == (if rt.query.Some? then rt.query.value else Warm)
              && rc == ApplyStatus(rt)
  {
    hide ListAt;
    kind, applied, headers := Warm, false, capsules[..j];
    assert Headed(headers, mem.live, blobs) by {
      forall k | 0 <= k < j
        ensures Holds(mem.live, headers[k], blobs[k])
      {
        assert Holds(mem.live, capsules[..][k], blobs[k]);
      }
    }
    var status;
    status, written := SetUpdateStatuses(rt, updates, tbl);
    if status.IsError() {
      rc := Some(status);
      return;
    }
    assert tbl[..written] == tbl;
    applied := true;
    ghost var trace := rt.trace;
    rc, kind := ApplyCapsules(rt, capsules, cbd, j, mem, blobs);
    ghost var calls := [QueryCapabilities(j), Event.UpdateCapsule(headers, Some(blobs))];
    if rc.Some? {
      rt.ResetSystem(kind);
      JoinTrace(trace, calls, [Event.ResetSystem(kind)]);
    } else {
      assert calls + [] == calls;
    }
  }

  lemma LastRejected(outcomes: seq<Outcome>)
    requires outcomes != [] && Accepted(outcomes) == []
    ensures outcomes[|outcomes| - 1].Err?
  {
  }

  /** Step 2 of efi_main: build the capsules, and close the descriptor list if there are any. */
  method BuildList(p: Platform, updates: array<UpdateEntry?>, n: nat, ghost tbl: seq<Variable>, mem: Pages,
                   capsules: array<nat>, cbd: nat)
    returns (rc: Status, j: nat, ghost outcomes: seq<Outcome>)
    requires p.Valid() && mem.Valid() && mem.word == p.word
    requires n == |tbl| > 0 && Table(updates[..], tbl) && AllWellFormed(tbl) && capsules.Length == n + 1
    requires cbd in mem.live && n < |ListAt(mem.live, cbd)| && InfosBeside(updates[..], mem.live[cbd].data)
    modifies mem`live, mem`calls, mem`pools, mem`failures, mem`copied, capsules, mem.live[cbd].data
    ensures mem.Valid() && mem.failures >= old(mem.failures) && Table(updates[..], tbl)
    ensures |outcomes| == n && j == |Accepted(outcomes)|
    ensures Outcomes(p, tbl, outcomes, mem.failures == old(mem.failures))
    ensures rc == match outcomes[n - 1] case Ok(_) => Success case Err(error) => error
    ensures j > 0 ==>
              && j < |ListAt(mem.live, cbd)| && ListAt(mem.live, cbd)[j] == TERMINATOR
              && Describes(ListAt(mem.live, cbd), capsules[..], mem.live, Accepted(outcomes))
              && Capsules(Accepted(outcomes))
  {
    hide Outcomes, AllWellFormed, Describes, Capsules, Beside, Pages.Valid, Accepted, List;
    rc, j, outcomes := BuildCapsules(p, updates, n, tbl, mem, capsules, mem.live[cbd].data);
    if j > 0 {
      CloseList(mem, capsules, cbd, j, Accepted(outcomes));
    }
  }

  lemma AppliedConcluded(s: Store, t: Store, tbl: seq<Variable>, outcomes: seq<Outcome>, headers: seq<nat>,
                         kind: ResetType, back: Option<Status>)
    requires Accepted(outcomes) != [] && |headers| == |Accepted(outcomes)| && t == WriteBack(s, tbl)
    ensures Concluded(Applied(tbl, outcomes, headers, kind, back), s, t,
                      WriteEvents(tbl) + ApplyEvents(Accepted(outcomes), headers, kind, back.Some?))
  {
  }

  lemma InterruptedConcluded(s: Store, t: Store, tbl: seq<Variable>, outcomes: seq<Outcome>, written: nat, rc: Status)
    requires Accepted(outcomes) != [] && rc.IsError() && written < |tbl| && t == WriteBack(s, tbl[..written])
    ensures Concluded(Interrupted(tbl, outcomes, written, rc), s, t,
                      WriteEvents(tbl[..written]) + [SetRefused(tbl[written].key, rc)])
  {
  }

  lemma NothingConcluded(s: Store, tbl: seq<Variable>, outcomes: seq<Outcome>)
    requires Accepted(outcomes) == []
    ensures Concluded(NothingBuilt(tbl, outcomes), s, s, [])
  {
  }

  /** The memory for n + 1 entries holds at least as many. */
  lemma ListRoom(mem: Pages, addr: nat, n: nat)
    requires mem.Valid() && addr in mem.live && mem.live[addr].pages == PagesFor(DESCRIPTOR_SIZE * (n + 1))
    ensures n < |ListAt(mem.live, addr)|
  {
  }

  /** Steps 2 to 5 of efi_main, for a table of at least one update. */
  method BuildAndApply(p: Platform, rt: Firmware, mem: Pages, updates: array<UpdateEntry?>, n: nat, cbd: nat,
                       ghost tbl: seq<Variable>)
    returns (rc: Option<Status>, ghost run: Run, ghost events: seq<Event>)
    requires p.Valid() && mem.Valid() && mem.word == p.word
    requires ValidStore(rt.vars) && Rewrites(rt.vars, tbl) && AllWellFormed(tbl)
    requires n == |tbl| > 0 && updates.Length == MAX_UPDATES && Table(updates[..], tbl)
    requires cbd in mem.live && n < |ListAt(mem.live, cbd)| && InfosBeside(updates[..], mem.live[cbd].data)
    modifies mem`live, mem`calls, mem`pools, mem`failures, mem`copied, mem.live[cbd].data
    modifies rt`vars, rt`sets, rt`trace, rt`refused
    ensures rt.trace == old(rt.trace) + events
    ensures run.Built() && run.tbl == tbl && |run.outcomes| == n
    ensures Concluded(run, old(rt.vars), rt.vars, events)
    ensures Outcomes(p, tbl, run.outcomes, mem.failures == old(mem.failures))
    ensures rc == run.Returned() && (run.Applied? ==> rc == run.back) && mem.failures >= old(mem.failures)
    ensures run.Interrupted? <==> rt.refused > old(rt.refused)
    ensures run.Applied? ==>
              && Headed(run.headers, mem.live, Accepted(run.outcomes))
              && run.kind == (if rt.query.Some? then rt.query.value else Warm)
              && run.back == ApplyStatus(rt)
  {
    hide Outcomes, Rewrites, AllWellFormed, Headed, ValidStore, WriteBack, Table, Pages.Valid, Describes, Capsules;
    hide Concluded, ApplyEvents, WriteEvents, Accepted, InfosBeside, ListAt;
    ghost var s, trace := rt.vars, rt.trace;
    var capsules := new nat[n + 1](_ => 0);
    var status, j;
    ghost var outcomes;
    status, j, outcomes := BuildList(p, updates, n, tbl, mem, capsules, cbd);
    ghost var blobs := Accepted(outcomes);
    if j == 0 {
      rc, run, events := Some(status), NothingBuilt(tbl, outcomes), [];
      LastRejected(outcomes);
      NothingConcluded(s, tbl, outcomes);
      return;
    }
    var applied, kind;
    ghost var written, headers;
    rc, applied, kind, written, headers := WriteAndApply(rt, mem, updates, capsules, cbd, j, tbl, blobs);
    if applied {
      run := Applied(tbl, outcomes, headers, kind, rc);
      events := WriteEvents(tbl) + ApplyEvents(blobs, headers, kind, rc.Some?);
      JoinTrace(trace, WriteEvents(tbl), ApplyEvents(blobs, headers, kind, rc.Some?));
      AppliedConcluded(s, rt.vars, tbl, outcomes, headers, kind, rc);
    } else {
      run := Interrupted(tbl, outcomes, written, rc.value);
      events := WriteEvents(tbl[..written]) + [SetRefused(tbl[written].key, rc.value)];
      JoinTrace(trace, WriteEvents(tbl[..written]), [SetRefused(tbl[written].key, rc.value)]);
      InterruptedConcluded(s, rt.vars, tbl, outcomes, written, rc.value);
    }
  }

  /** Step 1 of efi_main. The number of updates is 0 if the program ends here. */
  method SelectUpdates(p: Platform, rt: Firmware, log: Logger)
    returns (rc: Status, updates: array<UpdateEntry?>, n: nat, ghost tbl: seq<Variable>, ghost run: Run)
    requires p.Valid() && log.rt == rt && !log.debugging
    requires ValidStore(rt.vars) && Ends(rt, rt.vars, rt.gets, rt.pools, 2)
    modifies rt`ticks, rt`pools, rt`gets, rt`faults, rt`vars, rt`sets, rt`trace, rt`refused, log`once, log`formats
    ensures rt.vars == old(rt.vars) && rt.trace == old(rt.trace) && rt.refused == old(rt.refused)
    ensures fresh(updates) && updates.Length == MAX_UPDATES
    ensures n > 0 ==>
              && rt.faults == old(rt.faults) && n == |tbl| && Scannable(rt.vars)
              && MarkedAll(Selection(rt.vars), tbl) && Table(updates[..], tbl)
    ensures n == 0 ==>
              && (run.Faulted? || run.BadVariable? || run.NothingPending?)
              && RunOf(p, rt.vars, run, rt.vars, []) && run.Returned() == Some(rc) && rc.IsError()
              && (!run.Faulted? ==> rc == InvalidParameter && Quiet(p, run))
              && (run.Faulted? <==> rt.faults > old(rt.faults))
              && (run.Faulted? ==>
                    || (rc == OutOfResources && exists i :: old(rt.pools) <= i < rt.pools && rt.poolFull(i))
                    || (exists i :: old(rt.gets) <= i < rt.gets && rt.readFault(i) == Some(rc))
                    || (rc == InvalidParameter && !Scannable(rt.vars)))
              && (rt.faults == old(rt.faults) ==> (run.BadVariable? <==> !Scannable(rt.vars)))
  {
    hide RunOf, Scannable, Selection, MarkedAll, Ends, ValidStore, Table, Run.Returned, Firmware.Blames, Quiet;
    n, tbl, run := 0, [], Faulted(OutOfResources);
    ghost var s, g, q := rt.vars, rt.gets, rt.pools;
    RunStopped(p, s, run);
    updates := new UpdateEntry?[MAX_UPDATES](_ => null);
    var ok := rt.AllocatePool();
    if !ok {
      rt.BlamesIff(OutOfResources, g, q);
      rc := OutOfResources;
      return;
    }
    EndsAfterOne(rt, s, g, q);
    ghost var turns;
    rc, n, tbl, turns := PopulateUpdateTable(rt, log, updates);
    if rc.IsError() {
      if rt.Blames(rc, g, q + 1) {
        rt.BlamesEarlier(rc, g, q, g, q + 1);
        rt.BlamesIff(rc, g, q);
      }
      n, run := 0, if rt.faults == old(rt.faults) then BadVariable else Faulted(rc);
      RunStopped(p, s, run);
    } else if n == 0 {
      rc, run := InvalidParameter, NothingPending;
      RunStopped(p, s, run);
    }
  }

  method EfiMain(p: Platform, rt: Firmware, log: Logger, mem: Pages)
    returns (rc: Option<Status>, ghost run: Run, ghost events: seq<Event>)
    requires p.Valid() && mem.Valid() && mem.word == p.word
    requires ValidStore(rt.vars) && Ends(rt, rt.vars, rt.gets, rt.pools, 2) && log.rt == rt && !log.debugging
    modifies mem`live, mem`calls, mem`pools, mem`failures, mem`copied
    modifies rt`ticks, rt`pools, rt`gets, rt`faults, rt`vars, rt`sets, rt`trace, rt`refused, log`once, log`formats
    ensures rt.trace == old(rt.trace) + events
    ensures RunOf(p, old(rt.vars), run, rt.vars, events)
    // the status the program ends with
    ensures rc == run.Returned() && (!run.Applied? ==> rc.Some? && rc.value.IsError())
    ensures run.NothingPending? || run.BadVariable? ==> rc == Some(InvalidParameter)
    ensures run.NothingBuilt? ==> run.outcomes != [] && run.outcomes[|run.outcomes| - 1] == Err(rc.value)
    ensures run.Applied? && rt.updateStatus.None? ==> rc == None
    ensures run.Applied? && rt.updateStatus.Some? ==>
              rc == if rt.updateStatus.value.IsError() then rt.updateStatus else Some(Success)
    ensures run.Faulted? ==>
              || (rc.value == OutOfResources && exists i :: old(rt.pools) <= i < rt.pools && rt.poolFull(i))
              || (exists i :: old(rt.gets) <= i < rt.gets && rt.readFault(i) == Some(rc.value))
              || (rc.value == OutOfResources && mem.failures > old(mem.failures))
              || (rc.value == InvalidParameter && !Scannable(old(rt.vars)))
    // a run is only faulted by a fault, and only interrupted by a refused write
    ensures run.Faulted? ==> rt.faults > old(rt.faults) || mem.failures > old(mem.failures)
    ensures run.Interrupted? <==> rt.refused > old(rt.refused)
    // absent faults a malformed variable stops the boot exactly when it has to be parsed
    ensures rt.faults == old(rt.faults) && mem.failures == old(mem.failures) ==>
              (run.BadVariable? <==> !Scannable(old(rt.vars)))
    ensures run.Built() ==> Outcomes(p, run.tbl, run.outcomes, mem.failures == old(mem.failures))
    ensures rt.faults == old(rt.faults) && rt.refused == old(rt.refused) && mem.failures == old(mem.failures) ==>
              Quiet(p, run)
    ensures run.Applied? ==>
              && Headed(run.headers, mem.live, Accepted(run.outcomes))
              && run.kind == (if rt.query.Some? then rt.query.value else Warm)
              && run.back == ApplyStatus(rt)
  {
    hide RunOf, Concluded, Outcomes, Scannable, Selection, MarkedAll, Ends, Rewrites, AllWellFormed, Headed, ValidStore;
    hide Table, Pages.Valid, Accepted, Run.Returned, Quiet, Platform.Valid, ListAt;
    events := [];
    ghost var s := rt.vars;
    var status, updates, n;
    ghost var tbl;
    status, updates, n, tbl, run := SelectUpdates(p, rt, log);
    if n == 0 {
      return Some(status), run, events;
    }
    var cbd := mem.MallocRaw(DESCRIPTOR_SIZE * (n + 1));
    if cbd.None? {
      run := Faulted(OutOfResources);
      RunStopped(p, s, run);
      return Some(OutOfResources), run, events;
    }
    ListRoom(mem, cbd.value, n);
    SelectionRewrites(s, tbl);
    rc, run, events := BuildAndApply(p, rt, mem, updates, n, cbd.value, tbl);
    RunAssembled(p, s, tbl, run, rt.vars, events, mem.failures == old(mem.failures));
    if !run.Applied? {
      ErrorReturned(p, s, run, rt.vars, events);
    }
  }
}

// One run: what it keeps in the store, what its trace of firmware calls says, and which capsules it hands over.
module Runs {
  import opened Efi
  import opened FileReader
  import opened FileSearch
  import opened Capsule
  import opened Runtime
  import opened UpdateInfo
  import opened UpdateTable
  import opened Boot

  function One(b: bool): nat {
    if b then 1 else 0
  }

  /** The update key is stored and waits to be attempted. */
  ghost predicate Armed(s: Store, key: Key) {
    exists i :: 0 <= i < |s| && s[i].key == key && Pending(s[i])
  }

  // ---- selections ------------------------------------------------------------------------------

  /** Updates of a selection have different keys. */
  ghost predicate DistinctKeys(vs: seq<Variable>) {
    forall i, j :: 0 <= i < j < |vs| ==> vs[i].key != vs[j].key
  }

  lemma {:induction false} PendingOfDistinct(s: Store)
    requires ValidStore(s)
    ensures DistinctKeys(PendingOf(s))
  {
    if s != [] {
      var init, last := s[..|s| - 1], s[|s| - 1];
      PendingOfDistinct(init);
      PendingOfStore(init);
      forall k | 0 <= k < |PendingOf(init)|
        ensures PendingOf(init)[k].key != last.key
      {
        var i :| 0 <= i < |init| && init[i] == PendingOf(init)[k];
      }
    }
  }

  lemma {:induction false} LatestFinds(v: Variable, tbl: seq<Variable>, k: nat)
    requires DistinctKeys(tbl) && k < |tbl| && tbl[k].key == v.key
    ensures Latest(v, tbl) == tbl[k]
    decreases |tbl|
  {
    if k < |tbl| - 1 {
      LatestFinds(v, tbl[..|tbl| - 1], k);
    }
  }

  lemma {:induction false} LatestMisses(v: Variable, tbl: seq<Variable>)
    requires forall k :: 0 <= k < |tbl| ==> tbl[k].key != v.key
    ensures Latest(v, tbl) == v
    decreases |tbl|
  {
    if tbl != [] {
      LatestMisses(v, tbl[..|tbl| - 1]);
    }
  }

  lemma MarkedAllDistinct(s: Store, tbl: seq<Variable>)
    requires ValidStore(s) && MarkedAll(Selection(s), tbl)
    ensures DistinctKeys(Selection(s)) && DistinctKeys(tbl)
  {
    PendingOfDistinct(s);
    forall i, j | 0 <= i < j < |tbl|
      ensures tbl[i].key != tbl[j].key
    {
      assert MarkedCopy(Selection(s)[i], tbl[i]) && MarkedCopy(Selection(s)[j], tbl[j]);
    }
  }

  // ---- one run -----------------------------------------------------------------------------------

  /** The updates a run wrote back. */
  function Written(run: Run): seq<Variable> {
    match run
    case Applied(tbl, _, _, _, _) => tbl
    case Interrupted(tbl, _, written, _) => if written <= |tbl| then tbl[..written] else tbl
    case _ => []
  }

  lemma StoreAfter(p: Platform, s: Store, run: Run, t: Store, events: seq<Event>)
    requires p.Valid() && RunOf(p, s, run, t, events)
    ensures t == WriteBack(s, Written(run))
  {
    assert Written(run) == [] ==> WriteBack(s, []) == s;
  }

  /** What a run may do to variable v: nothing, or mark it if it was pending. */
  ghost predicate KeptOrMarked(v: Variable, w: Variable) {
    w == v || (Pending(v) && MarkedCopy(v, w))
  }

  /** A marked variable keeps its key, attributes and size; of its bytes only 32 to 51 change, and 48 to 51 hold 2. */
  lemma MarkedFields(v: Variable, w: Variable)
    requires KeptOrMarked(v, w) && w != v
    ensures w.key == v.key && w.attrs == v.attrs && |w.data| == |v.data| > 60
    ensures v.data[48] % 2 == 1 && w.data[48..52] == [2, 0, 0, 0]
    ensures w.data[..32] == v.data[..32] && w.data[52..] == v.data[52..]
  {
    var b := w.data;
    ReadsLittleEndian(b, 48, 0);
    ReadsLittleEndian(b, 48, 1);
    ReadsLittleEndian(b, 48, 2);
    ReadsLittleEndian(b, 48, 3);
    Digits(2);
  }

  /** Every variable of s is kept in its place, or was pending and is marked. */
  ghost predicate Kept(s: Store, t: Store) {
    |t| == |s| && forall i :: 0 <= i < |s| ==> KeptOrMarked(s[i], t[i])
  }

  lemma SameKeySame(s: Store, i: nat, v: Variable)
    requires ValidStore(s) && i < |s| && v in s && v.key == s[i].key
    ensures v == s[i]
  {
    var j :| 0 <= j < |s| && s[j] == v;
    if i != j {
      assert s[i].key == s[j].key;
    }
  }

  lemma KeptAt(s: Store, tbl: seq<Variable>, written: seq<Variable>, i: nat)
    requires ValidStore(s) && MarkedAll(Selection(s), tbl) && written <= tbl && i < |s|
    ensures KeptOrMarked(s[i], Latest(s[i], written))
  {
    var w := Latest(s[i], written);
    if w != s[i] {
      var k :| 0 <= k < |written| && written[k] == w;
      var v := Selection(s)[k];
      assert MarkedCopy(v, tbl[k]);
      PendingOfStore(s);
      assert v == PendingOf(s)[k];
      SameKeySame(s, i, v);
    }
  }

  /** The store as it is when the updates written have been stored. */
  lemma WrittenKeeps(s: Store, tbl: seq<Variable>, written: seq<Variable>)
    requires ValidStore(s) && MarkedAll(Selection(s), tbl) && written <= tbl
    ensures Kept(s, WriteBack(s, written)) && ValidStore(WriteBack(s, written))
  {
    var t := WriteBack(s, written);
    forall i | 0 <= i < |s|
      ensures KeptOrMarked(s[i], t[i])
      ensures t[i].key == s[i].key && t[i].attrs == s[i].attrs && |t[i].data| == |s[i].data|
    {
      KeptAt(s, tbl, written, i);
    }
  }

  /**
   * Write-back preserves validity: a run keeps the number, order, keys, attributes and sizes of the variables.
   * It keeps every byte of every variable but the pending ones, and of those it changes only time and status.
   */
  lemma RunKeepsStore(p: Platform, s: Store, run: Run, t: Store, events: seq<Event>)
    requires p.Valid() && ValidStore(s) && RunOf(p, s, run, t, events)
    ensures Kept(s, t) && ValidStore(t)
  {
    StoreAfter(p, s, run, t, events);
    if Written(run) != [] {
      WrittenKeeps(s, run.tbl, Written(run));
    }
  }

  /** A kept or marked variable parses exactly if it did before, and is pending only if it was not touched. */
  lemma KeptVerdict(v: Variable, w: Variable)
    requires KeptOrMarked(v, w)
    ensures Malformed(w) <==> Malformed(v)
    ensures Pending(w) ==> w == v
    ensures w.key == v.key
  {
    if w != v {
      MarkedKeepsVerdict(v.data, w.data);
      MarkedStaysWellFormed(v.data, w.data);
    }
  }

  /** No run arms an update. */
  lemma RunNeverArms(p: Platform, s: Store, run: Run, t: Store, events: seq<Event>, i: nat)
    requires p.Valid() && ValidStore(s) && RunOf(p, s, run, t, events) && i < |s|
    ensures |t| == |s| && (Pending(t[i]) ==> t[i] == s[i])
  {
    RunKeepsStore(p, s, run, t, events);
    assert KeptOrMarked(s[i], t[i]);
    KeptVerdict(s[i], t[i]);
  }

  /** Where the selected update k is stored after a run that got as far as UpdateCapsule. */
  lemma AppliedStores(p: Platform, s: Store, run: Run, t: Store, events: seq<Event>, k: nat) returns (i: nat)
    requires p.Valid() && ValidStore(s) && RunOf(p, s, run, t, events) && run.Applied? && k < |Selection(s)|
    ensures |run.tbl| == |Selection(s)|
    ensures i < |s| == |t| && s[i] == Selection(s)[k] && t[i] == run.tbl[k]
    ensures WellFormed(t[i].data) && U32(t[i].data, STATUS_OFFSET) == ATTEMPTED && !Pending(t[i])
  {
    MarkedAllDistinct(s, run.tbl);
    PendingOfStore(s);
    var v := Selection(s)[k];
    assert v == PendingOf(s)[k];
    i :| 0 <= i < |s| && s[i] == v;
    assert MarkedCopy(v, run.tbl[k]);
    LatestFinds(s[i], run.tbl, k);
    MarkedStaysWellFormed(v.data, run.tbl[k].data);
  }

  // ---- the trace of one run --------------------------------------------------------------------------

  function After(s: Store, e: Event): Store {
    match e
    case SetVariable(v) => Set(s, v.key, v.data, v.attrs).0
    case _ => s
  }

  /** The store after the writes in a trace. */
  function Replay(s: Store, events: seq<Event>): Store {
    if events == [] then s else After(Replay(s, events[..|events| - 1]), events[|events| - 1])
  }

  lemma ReplayLast(s: Store, events: seq<Event>, e: Event)
    ensures Replay(s, events + [e]) == After(Replay(s, events), e)
  {
    assert (events + [e])[..|events|] == events;
  }

  lemma NothingWritten(s: Store)
    ensures WriteBack(s, []) == s
  {
  }

  lemma {:induction false} ReplayWrites(s: Store, tbl: seq<Variable>, k: nat)
    requires ValidStore(s) && Rewrites(s, tbl) && k <= |tbl|
    ensures Replay(s, WriteEvents(tbl[..k])) == WriteBack(s, tbl[..k])
  {
    hide WriteBack, Rewrites, ValidStore, Set;
    if k > 0 {
      ReplayWrites(s, tbl, k - 1);
      WriteBackStep(s, tbl, k - 1);
      WriteEventsStep(tbl, k - 1);
      ReplayLast(s, WriteEvents(tbl[..k - 1]), Event.SetVariable(tbl[k - 1]));
    } else {
      NothingWritten(s);
    }
  }

  /** Events that are not writes change nothing. */
  lemma {:induction false} ReplayQuiet(s: Store, events: seq<Event>, n: nat)
    requires n <= |events| && forall k :: n <= k < |events| ==> !events[k].SetVariable?
    ensures Replay(s, events) == Replay(s, events[..n])
    decreases |events|
  {
    if n < |events| {
      var last := |events| - 1;
      ReplayQuiet(s, events[..last], n);
      assert events[..last][..n] == events[..n];
    } else {
      assert events[..n] == events;
    }
  }

  function Min(a: nat, b: nat): nat {
    if a <= b then a else b
  }

  /** The writes of a run come first, in table order. */
  lemma WritesFirst(p: Platform, s: Store, run: Run, t: Store, events: seq<Event>)
    requires p.Valid() && RunOf(p, s, run, t, events)
    ensures |Written(run)| <= |events| && events[..|Written(run)|] == WriteEvents(Written(run))
    ensures forall k :: |Written(run)| <= k < |events| ==> !events[k].SetVariable?
  {
    hide WriteBack, Outcomes, Accepted, Scannable, MarkedAll, Selection;
  }

  /** A run that is cut off after some of its calls has stored the updates it had got to. */
  lemma CutStores(p: Platform, s: Store, run: Run, t: Store, events: seq<Event>, cut: nat)
    requires p.Valid() && ValidStore(s) && RunOf(p, s, run, t, events) && cut <= |events|
    ensures Replay(s, events[..cut]) == WriteBack(s, Written(run)[..Min(cut, |Written(run)|)])
  {
    hide Concluded, WriteBack, Outcomes;
    WritesFirst(p, s, run, t, events);
    var w := Written(run);
    var k := Min(cut, |w|);
    ReplayQuiet(s, events[..cut], k);
    assert events[..cut][..k] == events[..|w|][..k] == WriteEvents(w[..k]);
    if w == [] {
      NothingWritten(s);
    } else {
      SelectionRewrites(s, run.tbl);
      ReplayWrites(s, run.tbl, k);
      assert w[..k] == run.tbl[..k];
    }
  }

  /** The trace of a run accounts for everything it does to the store. */
  lemma RunReplays(p: Platform, s: Store, run: Run, t: Store, events: seq<Event>)
    requires p.Valid() && ValidStore(s) && RunOf(p, s, run, t, events)
    ensures Replay(s, events) == t
  {
    WritesFirst(p, s, run, t, events);
    CutStores(p, s, run, t, events, |events|);
    StoreAfter(p, s, run, t, events);
    assert events[..|events|] == events && Written(run)[..|Written(run)|] == Written(run);
  }

  /** A run that is cut off anywhere keeps the store as a whole run does. */
  lemma CutKeepsStore(p: Platform, s: Store, run: Run, t: Store, events: seq<Event>, cut: nat)
    requires p.Valid() && ValidStore(s) && RunOf(p, s, run, t, events) && cut <= |events|
    ensures Kept(s, Replay(s, events[..cut])) && ValidStore(Replay(s, events[..cut]))
  {
    CutStores(p, s, run, t, events, cut);
    var w := Written(run);
    if w == [] {
      assert WriteBack(s, []) == s;
    } else {
      WrittenKeeps(s, run.tbl, w[..Min(cut, |w|)]);
    }
  }

  /** The update key is stored with status exactly ATTEMPTED. */
  ghost predicate StoredAttempted(s: Store, key: Key) {
    exists i :: 0 <= i < |s| && s[i].key == key && WellFormed(s[i].data) && U32(s[i].data, STATUS_OFFSET) == ATTEMPTED
  }

  /** From UpdateCapsule on every write of the run has been made. */
  lemma HandedOverLast(p: Platform, s: Store, run: Run, t: Store, events: seq<Event>, at: nat, cut: nat)
    requires p.Valid() && ValidStore(s) && RunOf(p, s, run, t, events)
    requires at < |events| && events[at].UpdateCapsule? && at <= cut <= |events|
    ensures run.Applied? && at == |run.tbl| + 1 && Replay(s, events[..cut]) == t
  {
    CutStores(p, s, run, t, events, cut);
    StoreAfter(p, s, run, t, events);
    assert Written(run)[..|Written(run)|] == Written(run);
  }

  /** When firmware is given the capsules every selected update is stored as attempted. */
  lemma AttemptedBefore(p: Platform, s: Store, run: Run, t: Store, events: seq<Event>, at: nat, k: nat)
    requires p.Valid() && ValidStore(s) && RunOf(p, s, run, t, events)
    requires at < |events| && events[at].UpdateCapsule? && k < |Selection(s)|
    ensures StoredAttempted(Replay(s, events[..at]), Selection(s)[k].key)
  {
    hide WriteBack, Replay, Outcomes, Scannable;
    HandedOverLast(p, s, run, t, events, at, at);
    var i := AppliedStores(p, s, run, t, events, k);
    assert MarkedCopy(Selection(s)[k], run.tbl[k]);
  }

  /**
   * Trace safety: UpdateCapsule happens at most once, with 1 to 128 capsules, and when it does every selected
   * update is already stored as attempted. ResetSystem happens exactly when UpdateCapsule came back, right after it.
   */
  lemma TraceSafety(p: Platform, s: Store, run: Run, t: Store, events: seq<Event>, at: nat)
    requires p.Valid() && ValidStore(s) && RunOf(p, s, run, t, events) && at < |events|
    ensures events[at].UpdateCapsule? ==>
              && run.Applied? && events[at].payload == Some(Accepted(run.outcomes))
              && 1 <= |events[at].headers| == |Accepted(run.outcomes)| <= MAX_UPDATES
              && (if run.back.Some? then at + 2 == |events| && events[at + 1] == Event.ResetSystem(run.kind)
                  else at + 1 == |events|)
              && forall k :: 0 <= k < |Selection(s)| ==> StoredAttempted(Replay(s, events[..at]), Selection(s)[k].key)
    ensures events[at].ResetSystem? ==>
              at > 0 && at + 1 == |events| && events[at - 1].UpdateCapsule? && events[at].kind == run.kind
    ensures events[at].SetVariable? ==> at < |Written(run)| && events[at].v == Written(run)[at]
  {
    hide WriteBack, Replay, Outcomes, Scannable, ValidStore, StoredAttempted, Accepted;
    SelectionSize(s);
    if events[at].UpdateCapsule? {
      forall k | 0 <= k < |Selection(s)|
        ensures StoredAttempted(Replay(s, events[..at]), Selection(s)[k].key)
      {
        AttemptedBefore(p, s, run, t, events, at, k);
      }
    }
  }

  /** How many UpdateCapsule calls, and how many resets, a trace contains. */
  function Handovers(events: seq<Event>): nat {
    if events == [] then 0
    else Handovers(events[..|events| - 1]) + One(events[|events| - 1].UpdateCapsule?)
  }

  function Resets(events: seq<Event>): nat {
    if events == [] then 0
    else Resets(events[..|events| - 1]) + One(events[|events| - 1].ResetSystem?)
  }

  /** Status writes are neither. */
  lemma {:induction false} WritesOnly(tbl: seq<Variable>)
    ensures Handovers(WriteEvents(tbl)) == Resets(WriteEvents(tbl)) == 0
    decreases |tbl|
  {
    if tbl != [] {
      var init := tbl[..|tbl| - 1];
      WritesOnly(init);
      assert WriteEvents(tbl)[..|tbl| - 1] == WriteEvents(init);
    }
  }

  lemma CountLast(events: seq<Event>, e: Event)
    ensures Handovers(events + [e]) == Handovers(events) + One(e.UpdateCapsule?)
    ensures Resets(events + [e]) == Resets(events) + One(e.ResetSystem?)
  {
    assert (events + [e])[..|events|] == events;
  }

  lemma TailCounts(tbl: seq<Variable>, last: Event)
    ensures Handovers(WriteEvents(tbl) + [last]) == One(last.UpdateCapsule?)
    ensures Resets(WriteEvents(tbl) + [last]) == One(last.ResetSystem?)
  {
    WritesOnly(tbl);
    CountLast(WriteEvents(tbl), last);
  }

  lemma ApplyCounts(tbl: seq<Variable>, ask: Event, apply: Event, reset: Event)
    requires ask.QueryCapabilities? && apply.UpdateCapsule? && reset.ResetSystem?
    ensures Handovers(WriteEvents(tbl) + [ask, apply]) == 1 && Resets(WriteEvents(tbl) + [ask, apply]) == 0
    ensures Handovers(WriteEvents(tbl) + [ask, apply, reset]) == Resets(WriteEvents(tbl) + [ask, apply, reset]) == 1
  {
    hide Handovers, Resets, WriteEvents;
    var writes := WriteEvents(tbl);
    TailCounts(tbl, ask);
    CountLast(writes + [ask], apply);
    CountLast(writes + [ask] + [apply], reset);
    assert writes + [ask, apply] == writes + [ask] + [apply];
    assert writes + [ask, apply, reset] == writes + [ask] + [apply] + [reset];
  }

  lemma NoCalls()
    ensures Handovers([]) == Resets([]) == 0
  {
  }

  /** One run hands capsules over once and then, if that comes back, resets once; no early return does either. */
  lemma HandsOverOnce(p: Platform, s: Store, run: Run, t: Store, events: seq<Event>)
    requires p.Valid() && RunOf(p, s, run, t, events)
    ensures Handovers(events) == One(run.Applied?)
    ensures Resets(events) == One(run.Applied? && run.back.Some?)
  {
    hide Handovers, Resets, WriteEvents, WriteBack, Outcomes, Accepted, Scannable, MarkedAll;
    if run.Applied? {
      var tail := ApplyEvents(Accepted(run.outcomes), run.headers, run.kind, run.back.Some?);
      ApplyCounts(run.tbl, tail[0], tail[1], Event.ResetSystem(run.kind));
      if run.back.Some? {
        assert tail == [tail[0], tail[1], Event.ResetSystem(run.kind)];
      } else {
        assert tail == [tail[0], tail[1]];
      }
    } else if run.Interrupted? {
      TailCounts(run.tbl[..run.written], SetRefused(run.tbl[run.written].key, run.rc));
    } else {
      NoCalls();
    }
  }

  // ---- which updates can be built ----------------------------------------------------------------------

  /** A capsule can be built from the stored update on this platform. */
  ghost predicate Builds(p: Platform, v: Variable)
    requires p.Valid()
  {
    exists sent :: TrueOutcome(p, v, Ok(sent))
  }

  /** A file that makes a capsule: read without error, long enough, of sane size, and with a sound UX header. */
  ghost predicate MakesCapsule(p: Platform, info: seq<uint8>, file: Image)
    requires p.Valid() && |info| >= DP_OFFSET
  {
    var b := file.contents;
    && file.Fault(0) == None
    && |b| >= CAPSULE_HEADER_SIZE && CAPSULE_HEADER_SIZE <= ImageSize(b) <= |b|
    && (IsUx(info) ==> UxHeaderOk(b, |b|, p.word) && p.gop.Some?)
  }

  ghost predicate FileOf(p: Platform, v: Variable, file: Image)
    requires p.Valid() && |v.data| >= DP_OFFSET
  {
    OpenOutcome(p.disk, v.data, DP_OFFSET, |v.data| - DP_OFFSET, p.word, Ok(file))
  }

  lemma MakesCapsuleIff(p: Platform, info: seq<uint8>, file: Image)
    requires p.Valid() && |info| >= DP_OFFSET
    ensures Read(p, info, Ok(file)).Ok? <==> MakesCapsule(p, info, file)
  {
  }

  lemma FileBuilds(p: Platform, v: Variable, file: Image)
    requires p.Valid() && |v.data| >= DP_OFFSET && FileOf(p, v, file) && MakesCapsule(p, v.data, file)
    ensures Builds(p, v)
  {
    hide OpenOutcome;
    MakesCapsuleIff(p, v.data, file);
    var sent := Read(p, v.data, Ok(file)).value;
    assert OutcomeOf(p, v.data, Ok(file), Ok(sent));
    assert TrueOutcome(p, v, Ok(sent));
  }

  lemma BuildsFromFile(p: Platform, v: Variable) returns (file: Image)
    requires p.Valid() && |v.data| >= DP_OFFSET && Builds(p, v)
    ensures FileOf(p, v, file) && MakesCapsule(p, v.data, file)
  {
    hide OpenOutcome, MakesCapsule;
    var sent :| TrueOutcome(p, v, Ok(sent));
    var image :| OutcomeOf(p, v.data, image, Ok(sent));
    file := image.value;
    MakesCapsuleIff(p, v.data, file);
  }

  /** A capsule can be built exactly when the device path of the update opens a file that makes one. */
  lemma BuildsIff(p: Platform, v: Variable)
    requires p.Valid() && |v.data| >= DP_OFFSET
    ensures Builds(p, v) <==> exists file :: FileOf(p, v, file) && MakesCapsule(p, v.data, file)
  {
    hide FileOf, MakesCapsule, Builds;
    if Builds(p, v) {
      var file := BuildsFromFile(p, v);
    }
    if file :| FileOf(p, v, file) && MakesCapsule(p, v.data, file) {
      FileBuilds(p, v, file);
    }
  }

  /** An update has the same outcome before and after it is marked. */
  lemma MarkedTrueOutcome(p: Platform, v: Variable, w: Variable, o: Outcome)
    requires p.Valid() && MarkedCopy(v, w)
    ensures TrueOutcome(p, v, o) <==> TrueOutcome(p, w, o)
  {
    MarkedKeepsOutcome(p, v.data, w.data, o);
  }

  lemma TrueOutcomeUnique(p: Platform, v: Variable, o: Outcome, o': Outcome)
    requires p.Valid() && TrueOutcome(p, v, o) && TrueOutcome(p, v, o')
    ensures o == o'
  {
    OutcomeUnique(p, v.data, o, o');
  }

  /** An outcome of a marked update that is the true one tells whether the stored update can be built. */
  lemma OutcomeTellsBuilds(p: Platform, v: Variable, w: Variable, o: Outcome)
    requires p.Valid() && MarkedCopy(v, w) && TrueOutcome(p, w, o)
    ensures o.Ok? <==> Builds(p, v)
  {
    hide TrueOutcome;
    MarkedTrueOutcome(p, v, w, o);
    if Builds(p, v) {
      var sent :| TrueOutcome(p, v, Ok(sent));
      TrueOutcomeUnique(p, v, o, Ok(sent));
    }
  }

  /** Some selected update can be built. */
  ghost predicate CanBuild(p: Platform, s: Store)
    requires p.Valid()
  {
    exists k :: 0 <= k < |Selection(s)| && Builds(p, Selection(s)[k])
  }

  lemma {:induction false} AcceptedSome(outcomes: seq<Outcome>)
    ensures Accepted(outcomes) != [] <==> exists k :: 0 <= k < |outcomes| && outcomes[k].Ok?
  {
    if outcomes != [] {
      AcceptedSome(outcomes[..|outcomes| - 1]);
    }
  }

  /** With memory to spare, something was accepted exactly if the store has something that can be built. */
  lemma AcceptedIffCanBuild(p: Platform, s: Store, tbl: seq<Variable>, outcomes: seq<Outcome>)
    requires p.Valid() && MarkedAll(Selection(s), tbl) && |outcomes| == |tbl| && Outcomes(p, tbl, outcomes, true)
    ensures Accepted(outcomes) != [] <==> CanBuild(p, s)
  {
    AcceptedSome(outcomes);
    forall k | 0 <= k < |tbl|
      ensures outcomes[k].Ok? <==> Builds(p, Selection(s)[k])
    {
      OutcomeTellsBuilds(p, Selection(s)[k], tbl[k], outcomes[k]);
    }
  }

  /**
   * How a quiet boot ends is decided by the store and the platform: a malformed variable that has to be parsed
   * stops it; else it applies capsules exactly when a selected update can be built.
   */
  lemma QuietVerdict(p: Platform, s: Store, run: Run, t: Store, events: seq<Event>)
    requires p.Valid() && RunOf(p, s, run, t, events) && Quiet(p, run)
    ensures run.BadVariable? <==> !Scannable(s)
    ensures run.NothingPending? <==> Scannable(s) && Selection(s) == []
    ensures run.NothingBuilt? <==> Scannable(s) && Selection(s) != [] && !CanBuild(p, s)
    ensures run.Applied? <==> Scannable(s) && CanBuild(p, s)
  {
    if run.Built() {
      AcceptedIffCanBuild(p, s, run.tbl, run.outcomes);
    }
  }

  /** Quiet boots from the same store on the same platform hand over the same capsules. */
  lemma SamePayload(p: Platform, s: Store, run: Run, t: Store, events: seq<Event>,
                    run': Run, t': Store, events': seq<Event>)
    requires p.Valid() && RunOf(p, s, run, t, events) && Quiet(p, run)
    requires RunOf(p, s, run', t', events') && Quiet(p, run')
    ensures run.Applied? <==> run'.Applied?
    ensures run.Applied? ==> Accepted(run.outcomes) == Accepted(run'.outcomes)
  {
    QuietVerdict(p, s, run, t, events);
    QuietVerdict(p, s, run', t', events');
    if run.Applied? {
      forall k | 0 <= k < |run.tbl|
        ensures run.outcomes[k] == run'.outcomes[k]
      {
        var v := Selection(s)[k];
        MarkedTrueOutcome(p, v, run.tbl[k], run.outcomes[k]);
        MarkedTrueOutcome(p, v, run'.tbl[k], run'.outcomes[k]);
        TrueOutcomeUnique(p, v, run.outcomes[k], run'.outcomes[k]);
      }
      assert run.outcomes == run'.outcomes;
    }
  }
}

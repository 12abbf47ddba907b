// Every sequence of boots, cut off anywhere, with anything happening in between: what is handed to firmware.
module History {
  import opened Capsule
  import opened Runtime
  import opened UpdateInfo
  import opened UpdateTable
  import opened Boot
  import opened Runs

  // ---- what one run hands over --------------------------------------------------------------------------

  /** How many capsules built for the update key a run handed to UpdateCapsule. */
  function SentFor(tbl: seq<Variable>, outcomes: seq<Outcome>, key: Key): nat
    requires |tbl| == |outcomes|
  {
    if tbl == [] then 0
    else
      SentFor(tbl[..|tbl| - 1], outcomes[..|tbl| - 1], key) +
      if tbl[|tbl| - 1].key == key && outcomes[|tbl| - 1].Ok? then 1 else 0
  }

  /** How often a run that got through this much of its trace included the update key in an UpdateCapsule call. */
  function Inclusions(run: Run, trace: seq<Event>, key: Key): nat {
    if run.Applied? && |run.tbl| == |run.outcomes| then Handovers(trace) * SentFor(run.tbl, run.outcomes, key) else 0
  }

  lemma {:induction false} SentForAbsent(tbl: seq<Variable>, outcomes: seq<Outcome>, key: Key)
    requires |tbl| == |outcomes| && forall k :: 0 <= k < |tbl| ==> tbl[k].key != key
    ensures SentFor(tbl, outcomes, key) == 0
    decreases |tbl|
  {
    if tbl != [] {
      SentForAbsent(tbl[..|tbl| - 1], outcomes[..|tbl| - 1], key);
    }
  }

  /** One call carries at most one capsule for an update, and none unless the update is in the table. */
  lemma {:induction false} SentForAtMostOne(tbl: seq<Variable>, outcomes: seq<Outcome>, key: Key)
    requires |tbl| == |outcomes| && DistinctKeys(tbl)
    ensures SentFor(tbl, outcomes, key) <= 1
    ensures SentFor(tbl, outcomes, key) == 1 ==> exists k :: 0 <= k < |tbl| && tbl[k].key == key && outcomes[k].Ok?
    decreases |tbl|
  {
    if tbl != [] {
      var init, last := tbl[..|tbl| - 1], |tbl| - 1;
      if tbl[last].key == key {
        SentForAbsent(init, outcomes[..last], key);
      } else {
        SentForAtMostOne(init, outcomes[..last], key);
        if SentFor(init, outcomes[..last], key) == 1 {
          var k :| 0 <= k < |init| && init[k].key == key && outcomes[..last][k].Ok?;
          assert tbl[k].key == key && outcomes[k].Ok?;
        }
      }
    }
  }

  /** After a run that got as far as UpdateCapsule no selected update is armed. */
  lemma AppliedDisarms(p: Platform, s: Store, run: Run, t: Store, events: seq<Event>, k: nat)
    requires p.Valid() && ValidStore(s) && RunOf(p, s, run, t, events) && run.Applied? && k < |Selection(s)|
    ensures |run.tbl| == |Selection(s)| && run.tbl[k].key == Selection(s)[k].key
    ensures Armed(s, run.tbl[k].key) && !Armed(t, run.tbl[k].key)
  {
    var key := Selection(s)[k].key;
    var i := AppliedStores(p, s, run, t, events, k);
    PendingOfStore(s);
    assert Selection(s)[k] == PendingOf(s)[k];
    assert MarkedCopy(Selection(s)[k], run.tbl[k]);
    assert s[i].key == key && Pending(s[i]);
    RunKeepsStore(p, s, run, t, events);
    forall j | 0 <= j < |t| && t[j].key == key
      ensures !Pending(t[j])
    {
      SameKeySame(t, j, t[i]);
    }
  }

  lemma {:induction false} HandoverSomewhere(events: seq<Event>) returns (at: nat)
    requires Handovers(events) > 0
    ensures at < |events| && events[at].UpdateCapsule?
    decreases |events|
  {
    at := |events| - 1;
    if !events[at].UpdateCapsule? {
      at := HandoverSomewhere(events[..at]);
    }
  }

  lemma {:induction false} HandoversGrow(events: seq<Event>, cut: nat)
    requires cut <= |events|
    ensures Handovers(events[..cut]) <= Handovers(events)
    decreases |events|
  {
    if cut < |events| {
      HandoversGrow(events[..|events| - 1], cut);
      assert events[..|events| - 1][..cut] == events[..cut];
    } else {
      assert events[..cut] == events;
    }
  }

  /** A run that was cut off after its UpdateCapsule call has handed over once, and its store is complete. */
  lemma CutHandover(p: Platform, s: Store, run: Run, t: Store, events: seq<Event>, cut: nat)
    requires p.Valid() && ValidStore(s) && RunOf(p, s, run, t, events) && cut <= |events|
    requires Handovers(events[..cut]) > 0
    ensures run.Applied? && Handovers(events[..cut]) == 1 && Replay(s, events[..cut]) == t
  {
    var at := HandoverSomewhere(events[..cut]);
    HandedOverLast(p, s, run, t, events, at, cut);
    HandsOverOnce(p, s, run, t, events);
    HandoversGrow(events, cut);
  }

  lemma KeptNeverArms(s: Store, t: Store, key: Key)
    requires Kept(s, t) && Armed(t, key)
    ensures Armed(s, key)
  {
    var i :| 0 <= i < |t| && t[i].key == key && Pending(t[i]);
    assert KeptOrMarked(s[i], t[i]);
    KeptVerdict(s[i], t[i]);
  }

  /** An update with a capsule among those handed over was armed, has one capsule there, and is armed no longer. */
  lemma IncludedDisarmed(p: Platform, s: Store, run: Run, t: Store, events: seq<Event>, key: Key)
    requires p.Valid() && ValidStore(s) && RunOf(p, s, run, t, events) && run.Applied?
    requires SentFor(run.tbl, run.outcomes, key) > 0
    ensures SentFor(run.tbl, run.outcomes, key) == 1 && Armed(s, key) && !Armed(t, key)
  {
    MarkedAllDistinct(s, run.tbl);
    SentForAtMostOne(run.tbl, run.outcomes, key);
    var k :| 0 <= k < |run.tbl| && run.tbl[k].key == key && run.outcomes[k].Ok?;
    AppliedDisarms(p, s, run, t, events, k);
  }

  lemma PositiveFactors(n: nat, m: nat)
    requires n * m > 0
    ensures n > 0 && m > 0
  {
  }

  /** One handover times one capsule. */
  lemma IncludedOnce(p: Platform, s: Store, run: Run, t: Store, events: seq<Event>, cut: nat, key: Key)
    requires p.Valid() && ValidStore(s) && RunOf(p, s, run, t, events) && cut <= |events|
    requires Inclusions(run, events[..cut], key) > 0
    ensures Inclusions(run, events[..cut], key) == 1
    ensures Armed(s, key) && !Armed(Replay(s, events[..cut]), key)
  {
    hide RunOf, ValidStore, Armed;
    var n, m := Handovers(events[..cut]), SentFor(run.tbl, run.outcomes, key);
    PositiveFactors(n, m);
    CutHandover(p, s, run, t, events, cut);
    IncludedDisarmed(p, s, run, t, events, key);
  }

  /**
   * A run includes an update at most once, only if it was armed, and then it is armed no longer, wherever the run
   * is cut off: by a reset inside UpdateCapsule, by a loss of power, or not at all.
   */
  lemma CutIncludes(p: Platform, s: Store, run: Run, t: Store, events: seq<Event>, cut: nat, key: Key)
    requires p.Valid() && ValidStore(s) && RunOf(p, s, run, t, events) && cut <= |events|
    ensures Inclusions(run, events[..cut], key) + One(Armed(Replay(s, events[..cut]), key)) <= One(Armed(s, key))
  {
    hide RunOf, ValidStore, Armed, Inclusions, Replay, Kept;
    if Armed(Replay(s, events[..cut]), key) {
      CutKeepsStore(p, s, run, t, events, cut);
      KeptNeverArms(s, Replay(s, events[..cut]), key);
    }
    if Inclusions(run, events[..cut], key) > 0 {
      IncludedOnce(p, s, run, t, events, cut, key);
    }
  }

  lemma {:induction false} SentForExactly(tbl: seq<Variable>, outcomes: seq<Outcome>, k: nat)
    requires |tbl| == |outcomes| && DistinctKeys(tbl) && k < |tbl|
    ensures SentFor(tbl, outcomes, tbl[k].key) == One(outcomes[k].Ok?)
    decreases |tbl|
  {
    var last := |tbl| - 1;
    if k == last {
      SentForAbsent(tbl[..last], outcomes[..last], tbl[k].key);
    } else {
      SentForExactly(tbl[..last], outcomes[..last], k);
    }
  }

  /** Storing the first m updates of the table disarms exactly those. */
  lemma WriteBackDisarms(s: Store, tbl: seq<Variable>, m: nat, k: nat)
    requires ValidStore(s) && MarkedAll(Selection(s), tbl) && m <= |tbl| && k < |tbl|
    ensures Armed(s, Selection(s)[k].key)
    ensures Armed(WriteBack(s, tbl[..m]), Selection(s)[k].key) <==> k >= m
  {
    var v, u := Selection(s)[k], WriteBack(s, tbl[..m]);
    PendingOfStore(s);
    assert v == PendingOf(s)[k];
    var i :| 0 <= i < |s| && s[i] == v;
    MarkedAllDistinct(s, tbl);
    assert MarkedCopy(v, tbl[k]);
    WrittenKeeps(s, tbl, tbl[..m]);
    if k < m {
      LatestFinds(s[i], tbl[..m], k);
      MarkedStaysWellFormed(v.data, tbl[k].data);
      forall j | 0 <= j < |u| && u[j].key == v.key
        ensures !Pending(u[j])
      {
        SameKeySame(u, j, u[i]);
      }
    } else {
      forall j | 0 <= j < m
        ensures tbl[..m][j].key != v.key
      {
        assert tbl[j].key != tbl[k].key;
      }
      LatestMisses(s[i], tbl[..m]);
      assert u[i] == v;
    }
  }

  lemma SelectedArmed(s: Store, k: nat)
    requires k < |Selection(s)|
    ensures Armed(s, Selection(s)[k].key)
  {
    PendingOfStore(s);
    var v := Selection(s)[k];
    assert v == PendingOf(s)[k];
    var i :| 0 <= i < |s| && s[i] == v;
  }

  /** A run that is cut off has disarmed exactly the selected updates it had stored by then. */
  lemma DisarmedIff(p: Platform, s: Store, run: Run, t: Store, events: seq<Event>, cut: nat, k: nat)
    requires p.Valid() && ValidStore(s) && RunOf(p, s, run, t, events) && cut <= |events| && k < |Selection(s)|
    ensures Armed(s, Selection(s)[k].key)
    ensures !Armed(Replay(s, events[..cut]), Selection(s)[k].key) <==> k < Min(cut, |Written(run)|)
  {
    hide WriteBack, Armed, Replay, ValidStore, Outcomes;
    CutStores(p, s, run, t, events, cut);
    var m := Min(cut, |Written(run)|);
    if run.Built() {
      WriteBackDisarms(s, run.tbl, m, k);
      assert Written(run)[..m] == run.tbl[..m];
    } else {
      NothingWritten(s);
      SelectedArmed(s, k);
    }
  }

  lemma {:induction false} HandoverCounted(events: seq<Event>, at: nat)
    requires at < |events| && events[at].UpdateCapsule?
    ensures Handovers(events) > 0
    decreases |events|
  {
    if at < |events| - 1 {
      HandoverCounted(events[..|events| - 1], at);
    }
  }

  /** A run that gets as far as UpdateCapsule makes that call second after its writes. */
  lemma CutHandovers(p: Platform, s: Store, run: Run, t: Store, events: seq<Event>, cut: nat)
    requires p.Valid() && ValidStore(s) && RunOf(p, s, run, t, events) && cut <= |events| && run.Applied?
    ensures |run.tbl| == |Selection(s)|
    ensures Handovers(events[..cut]) == One(cut >= |Selection(s)| + 2)
  {
    var at := |run.tbl| + 1;
    assert events[at].UpdateCapsule?;
    if cut > at {
      HandoverCounted(events[..cut], at);
      CutHandover(p, s, run, t, events, cut);
    } else if Handovers(events[..cut]) > 0 {
      var i := HandoverSomewhere(events[..cut]);
      HandedOverLast(p, s, run, t, events, i, cut);
    }
  }

  /** How often a run that is cut off has handed over the capsule of selected update k. */
  lemma InclusionsCut(p: Platform, s: Store, run: Run, t: Store, events: seq<Event>, cut: nat, k: nat)
    requires p.Valid() && ValidStore(s) && RunOf(p, s, run, t, events) && cut <= |events| && k < |Selection(s)|
    ensures run.Applied? ==> |run.tbl| == |run.outcomes| == |Selection(s)| && MarkedCopy(Selection(s)[k], run.tbl[k])
    ensures Inclusions(run, events[..cut], Selection(s)[k].key) ==
              One(run.Applied? && cut >= |Selection(s)| + 2 && run.outcomes[k].Ok?)
  {
    if run.Applied? {
      MarkedAllDistinct(s, run.tbl);
      assert MarkedCopy(Selection(s)[k], run.tbl[k]);
      SentForExactly(run.tbl, run.outcomes, k);
      CutHandovers(p, s, run, t, events, cut);
    }
  }

  /**
   * Marked attempted, and handed over? Wherever a run is cut off, it has marked exactly the selected updates that
   * it had stored by then. It has handed over only updates that can be built, and, if no allocation failed,
   * exactly those, provided that it got as far as UpdateCapsule.
   */
  lemma MarkedAndSent(p: Platform, s: Store, run: Run, t: Store, events: seq<Event>, cut: nat, k: nat)
    requires p.Valid() && ValidStore(s) && RunOf(p, s, run, t, events) && cut <= |events| && k < |Selection(s)|
    ensures var v, trace := Selection(s)[k], events[..cut];
            && Armed(s, v.key)
            && (!Armed(Replay(s, trace), v.key) <==> k < Min(cut, |Written(run)|))
            && (Inclusions(run, trace, v.key) > 0 ==> Builds(p, v))
            && ((run.Built() ==> Outcomes(p, run.tbl, run.outcomes, true)) ==>
                  Inclusions(run, trace, v.key) == One(run.Applied? && cut >= |Selection(s)| + 2 && Builds(p, v)))
  {
    hide ValidStore, Armed, Replay, Inclusions, Builds, WriteBack;
    DisarmedIff(p, s, run, t, events, cut, k);
    InclusionsCut(p, s, run, t, events, cut, k);
    if run.Applied? && TrueOutcome(p, run.tbl[k], run.outcomes[k]) {
      OutcomeTellsBuilds(p, Selection(s)[k], run.tbl[k], run.outcomes[k]);
    }
  }

  /**
   * In a boot in which nothing fails a selected update is marked exactly if some selected update can be built, and
   * handed over exactly if it can be built itself.
   */
  lemma QuietSent(p: Platform, s: Store, run: Run, t: Store, events: seq<Event>, k: nat)
    requires p.Valid() && ValidStore(s) && RunOf(p, s, run, t, events) && Quiet(p, run) && Scannable(s)
    requires k < |Selection(s)|
    ensures !Armed(t, Selection(s)[k].key) <==> CanBuild(p, s)
    ensures Inclusions(run, events, Selection(s)[k].key) == One(Builds(p, Selection(s)[k]))
  {
    hide ValidStore, Armed, Replay, Inclusions, Builds, Scannable, WriteBack, Outcomes;
    assert events[..|events|] == events;
    MarkedAndSent(p, s, run, t, events, |events|, k);
    RunReplays(p, s, run, t, events);
    QuietVerdict(p, s, run, t, events);
  }

  // ---- histories -------------------------------------------------------------------------------------------

  /**
   * What happens to the store: a boot on some platform, of which the first cut calls were made before the machine
   * reset or lost power, or anything at all done by others.
   */
  datatype Step = Boot(p: Platform, run: Run, events: seq<Event>, cut: nat) | Outside

  ghost predicate StepOk(s: Store, step: Step, t: Store) {
    match step
    case Boot(p, run, events, cut) =>
      && p.Valid() && RunOf(p, s, run, Replay(s, events), events)
      && cut <= |events| && t == Replay(s, events[..cut])
    case Outside => true
  }

  /** stores[k] and stores[k + 1] are the store before and after step k. */
  ghost predicate IsHistory(stores: seq<Store>, steps: seq<Step>) {
    && |stores| == |steps| + 1
    && (forall k :: 0 <= k < |stores| ==> ValidStore(stores[k]))
    && forall k :: 0 <= k < |steps| ==> StepOk(stores[k], steps[k], stores[k + 1])
  }

  /** A history goes on with any boot of its last store, cut off after any number of calls, or with any valid store. */
  lemma HistoryGrows(stores: seq<Store>, steps: seq<Step>, step: Step, t: Store)
    requires IsHistory(stores, steps)
    ensures IsHistory(stores + [t], steps + [step]) <==>
              && ValidStore(t)
              && match step
                 case Boot(p, run, events, cut) =>
                   && p.Valid() && cut <= |events| && t == Replay(stores[|steps|], events[..cut])
                   && RunOf(p, stores[|steps|], run, Replay(stores[|steps|], events), events)
                 case Outside => true
  {
    hide RunOf, ValidStore, Replay;
    var u, more := stores + [t], steps + [step];
    assert u[|steps|] == stores[|steps|] && u[|steps| + 1] == t && more[|steps|] == step;
    forall k | 0 <= k < |steps|
      ensures StepOk(u[k], more[k], u[k + 1])
    {
      assert StepOk(stores[k], steps[k], stores[k + 1]);
    }
  }

  /** What Boot.EfiMain does to the store is a step of a history, as a whole and cut off anywhere. */
  lemma RunIsStep(stores: seq<Store>, steps: seq<Step>, p: Platform, run: Run, t: Store, events: seq<Event>, cut: nat)
    requires IsHistory(stores, steps) && p.Valid() && RunOf(p, stores[|steps|], run, t, events) && cut <= |events|
    ensures var step := Step.Boot(p, run, events, cut);
            IsHistory(stores + [Replay(stores[|steps|], events[..cut])], steps + [step])
    ensures Replay(stores[|steps|], events[..|events|]) == t
  {
    hide RunOf, ValidStore;
    var s := stores[|steps|];
    RunReplays(p, s, run, t, events);
    CutKeepsStore(p, s, run, t, events, cut);
    assert events[..|events|] == events;
    HistoryGrows(stores, steps, Step.Boot(p, run, events, cut), Replay(s, events[..cut]));
  }

  /** How often the update key was handed to UpdateCapsule. */
  function TotalInclusions(steps: seq<Step>, key: Key): nat {
    if steps == [] then 0
    else
      TotalInclusions(steps[..|steps| - 1], key) +
      match steps[|steps| - 1]
      case Boot(_, run, events, cut) => if cut <= |events| then Inclusions(run, events[..cut], key) else 0
      case Outside => 0
  }

  /** How often something outside armed the update key. */
  ghost function TotalArmings(stores: seq<Store>, steps: seq<Step>, key: Key): nat
    requires |stores| == |steps| + 1
  {
    if steps == [] then One(Armed(stores[0], key))
    else
      var n := |steps|;
      TotalArmings(stores[..n], steps[..n - 1], key) +
      One(steps[n - 1].Outside? && !Armed(stores[n - 1], key) && Armed(stores[n], key))
  }

  /**
   * Safety over all histories: an update is handed to UpdateCapsule at most as often as it was armed from
   * outside, the state at the start counting as one arming if it was armed then.
   */
  lemma {:induction false} AtMostOncePerArming(stores: seq<Store>, steps: seq<Step>, key: Key)
    requires IsHistory(stores, steps)
    ensures TotalInclusions(steps, key) + One(Armed(stores[|steps|], key)) <= TotalArmings(stores, steps, key)
    decreases |steps|
  {
    hide RunOf, ValidStore, Armed, Inclusions, Replay;
    if steps != [] {
      var n := |steps|;
      var before, after := stores[n - 1], stores[n];
      assert IsHistory(stores[..n], steps[..n - 1]);
      AtMostOncePerArming(stores[..n], steps[..n - 1], key);
      assert StepOk(before, steps[n - 1], after);
      match steps[n - 1]
      case Boot(p, run, events, cut) => CutIncludes(p, before, run, Replay(before, events), events, cut, key);
      case Outside =>
    }
  }

  // ---- the same, counting steps ------------------------------------------------------------------------

  /** Step k is a boot that handed the update key to UpdateCapsule. */
  ghost predicate Hands(steps: seq<Step>, key: Key, k: nat) {
    k < |steps|
    && match steps[k]
       case Boot(_, run, events, cut) => cut <= |events| && Inclusions(run, events[..cut], key) > 0
       case Outside => false
  }

  /** In step k something outside armed the update key. */
  ghost predicate Arms(stores: seq<Store>, steps: seq<Step>, key: Key, k: nat) {
    k < |steps| && k + 1 < |stores| && steps[k].Outside? && !Armed(stores[k], key) && Armed(stores[k + 1], key)
  }

  lemma OneMore(a: set<nat>, b: set<nat>, n: nat)
    requires n !in a && forall k :: k in b <==> k in a || k == n
    ensures |b| == |a| + 1
  {
    assert b == a + {n};
  }

  lemma {:induction false} InclusionsCounted(stores: seq<Store>, steps: seq<Step>, key: Key)
    requires IsHistory(stores, steps)
    ensures TotalInclusions(steps, key) == |set k: nat | k < |steps| && Hands(steps, key, k)|
    decreases |steps|
  {
    hide RunOf, ValidStore, Armed, Inclusions, Replay;
    if steps != [] {
      var n := |steps| - 1;
      var init := steps[..n];
      assert IsHistory(stores[..n + 1], init);
      InclusionsCounted(stores[..n + 1], init, key);
      var a, b := set k: nat | k < n && Hands(init, key, k), set k: nat | k < n + 1 && Hands(steps, key, k);
      assert forall k: nat :: k < n ==> (Hands(init, key, k) <==> Hands(steps, key, k));
      assert StepOk(stores[n], steps[n], stores[n + 1]);
      if steps[n].Boot? {
        var Boot(p, run, events, cut) := steps[n];
        CutIncludes(p, stores[n], run, Replay(stores[n], events), events, cut, key);
      }
      if Hands(steps, key, n) {
        OneMore(a, b, n);
      } else {
        assert a == b;
      }
    }
  }

  lemma {:induction false} ArmingsCounted(stores: seq<Store>, steps: seq<Step>, key: Key)
    requires |stores| == |steps| + 1
    ensures TotalArmings(stores, steps, key) ==
              One(Armed(stores[0], key)) + |set k: nat | k < |steps| && Arms(stores, steps, key, k)|
    decreases |steps|
  {
    hide Armed;
    if steps != [] {
      var n := |steps| - 1;
      var u, init := stores[..n + 1], steps[..n];
      ArmingsCounted(u, init, key);
      var a, b := set k: nat | k < n && Arms(u, init, key, k), set k: nat | k < n + 1 && Arms(stores, steps, key, k);
      assert forall k: nat :: k < n ==> (Arms(u, init, key, k) <==> Arms(stores, steps, key, k));
      if Arms(stores, steps, key, n) {
        OneMore(a, b, n);
      } else {
        assert a == b;
      }
    }
  }

  /** Over every history the boots that hand over an update are no more than the steps that armed it. */
  lemma HandedAtMostAsArmed(stores: seq<Store>, steps: seq<Step>, key: Key)
    requires IsHistory(stores, steps)
    ensures |set k: nat | k < |steps| && Hands(steps, key, k)| <=
            One(Armed(stores[0], key)) + |set k: nat | k < |steps| && Arms(stores, steps, key, k)|
  {
    hide Armed;
    AtMostOncePerArming(stores, steps, key);
    InclusionsCounted(stores, steps, key);
    ArmingsCounted(stores, steps, key);
  }

  /**
   * The call that should delete a malformed variable never does: however many boots follow, the store stays as
   * it is and no capsule is applied, until something outside removes the variable.
   */
  lemma {:induction false} MalformedBlocks(stores: seq<Store>, steps: seq<Step>, k: nat)
    requires IsHistory(stores, steps) && k <= |steps|
    requires forall i :: 0 <= i < |steps| ==> steps[i].Boot?
    requires !Scannable(stores[0])
    ensures stores[k] == stores[0]
    ensures k < |steps| ==> !steps[k].run.Applied? && steps[k].events == []
    decreases k
  {
    if k > 0 {
      MalformedBlocks(stores, steps, k - 1);
      assert StepOk(stores[k - 1], steps[k - 1], stores[k]);
    }
    if k < |steps| {
      assert StepOk(stores[k], steps[k], stores[k + 1]);
    }
  }
}

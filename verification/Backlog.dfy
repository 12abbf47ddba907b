// A backlog of pending updates, worked off 128 a boot.
module Backlog {
  import opened Capsule
  import opened Runtime
  import opened UpdateInfo
  import opened UpdateTable
  import opened Boot
  import opened Runs
  import opened History

  /** The pending updates of a prefix come first among those of the whole store. */
  lemma {:induction false} PendingOfPrefix(s: Store, c: nat)
    requires c <= |s|
    ensures PendingOf(s[..c]) <= PendingOf(s)
    decreases |s|
  {
    if c < |s| {
      PendingOfPrefix(s[..|s| - 1], c);
      assert s[..|s| - 1][..c] == s[..c];
    } else {
      assert s[..c] == s;
    }
  }

  /** What is left of a sequence after its first 128 elements. */
  function BeyondCap(vs: seq<Variable>): seq<Variable> {
    if |vs| <= MAX_UPDATES then [] else vs[MAX_UPDATES..]
  }

  /** Writing back the whole table disarms variable c if it was selected, and else leaves it alone. */
  lemma WriteBackAt(s: Store, tbl: seq<Variable>, c: nat)
    requires ValidStore(s) && MarkedAll(Selection(s), tbl) && c < |s| && Pending(s[c])
    ensures if |PendingOf(s[..c])| < MAX_UPDATES then !Pending(Latest(s[c], tbl)) else Latest(s[c], tbl) == s[c]
  {
    var k := |PendingOf(s[..c])|;
    PendingOfPrefix(s, c + 1);
    SelectionStep(s, c);
    assert PendingOf(s)[k] == s[c];
    MarkedAllDistinct(s, tbl);
    PendingOfDistinct(s);
    if k < MAX_UPDATES {
      assert Selection(s)[k] == s[c];
      assert MarkedCopy(s[c], tbl[k]);
      LatestFinds(s[c], tbl, k);
      MarkedStaysWellFormed(s[c].data, tbl[k].data);
    } else {
      forall j | 0 <= j < |tbl|
        ensures tbl[j].key != s[c].key
      {
        assert MarkedCopy(Selection(s)[j], tbl[j]);
        assert Selection(s)[j] == PendingOf(s)[j];
      }
      LatestMisses(s[c], tbl);
    }
  }

  /** A variable that is not pending is not written. */
  lemma NotPendingKept(s: Store, tbl: seq<Variable>, c: nat)
    requires ValidStore(s) && MarkedAll(Selection(s), tbl) && c < |s| && !Pending(s[c])
    ensures Latest(s[c], tbl) == s[c]
  {
    PendingOfStore(s);
    forall j | 0 <= j < |tbl|
      ensures tbl[j].key != s[c].key
    {
      assert MarkedCopy(Selection(s)[j], tbl[j]);
      var v := PendingOf(s)[j];
      assert Selection(s)[j] == v;
      if v.key == s[c].key {
        SameKeySame(s, c, v);
      }
    }
    LatestMisses(s[c], tbl);
  }

  lemma PendingOfStep(s: Store, c: nat)
    requires c < |s|
    ensures PendingOf(s[..c + 1]) == PendingOf(s[..c]) + if Pending(s[c]) then [s[c]] else []
  {
    assert s[..c + 1][..c] == s[..c];
  }

  /** Taking in one variable more carries the backlog of the written store on like that of the old one. */
  lemma PendingAfterStep(s: Store, tbl: seq<Variable>, c: nat)
    requires ValidStore(s) && MarkedAll(Selection(s), tbl) && c < |s|
    requires PendingOf(WriteBack(s, tbl)[..c]) == BeyondCap(PendingOf(s[..c]))
    ensures PendingOf(WriteBack(s, tbl)[..c + 1]) == BeyondCap(PendingOf(s[..c + 1]))
  {
    PendingOfStep(WriteBack(s, tbl), c);
    PendingOfStep(s, c);
    if Pending(s[c]) {
      WriteBackAt(s, tbl, c);
    } else {
      NotPendingKept(s, tbl, c);
    }
  }

  lemma {:induction false} PendingAfter(s: Store, tbl: seq<Variable>, c: nat)
    requires ValidStore(s) && MarkedAll(Selection(s), tbl) && c <= |s|
    ensures PendingOf(WriteBack(s, tbl)[..c]) == BeyondCap(PendingOf(s[..c]))
    decreases c
  {
    if c > 0 {
      PendingAfter(s, tbl, c - 1);
      PendingAfterStep(s, tbl, c - 1);
    }
  }

  /** A run that applies capsules leaves pending exactly the updates beyond the first 128, in the same order. */
  lemma AppliedDrains(p: Platform, s: Store, run: Run, t: Store, events: seq<Event>)
    requires p.Valid() && ValidStore(s) && RunOf(p, s, run, t, events) && run.Applied?
    ensures PendingOf(t) == BeyondCap(PendingOf(s))
  {
    PendingAfter(s, run.tbl, |s|);
    assert t[..|s|] == t && s[..|s|] == s;
  }

  lemma InitOfRemove<T>(s: seq<T>, i: nat)
    requires i < |s| - 1
    ensures var u, init := s[..i] + s[i + 1..], s[..|s| - 1];
            u[..|u| - 1] == init[..i] + init[i + 1..] && u[|u| - 1] == s[|s| - 1]
  {
  }

  lemma {:induction false} PendingOfRemove(s: Store, i: nat)
    requires i < |s|
    ensures |PendingOf(s)| == |PendingOf(s[..i] + s[i + 1..])| + One(Pending(s[i]))
    decreases |s|
  {
    hide Pending;
    if i == |s| - 1 {
      assert s[..i] + s[i + 1..] == s[..i];
    } else {
      InitOfRemove(s, i);
      PendingOfRemove(s[..|s| - 1], i);
    }
  }

  lemma CancelOne<T>(a: multiset<T>, b: multiset<T>, x: T)
    requires a + multiset{x} == b + multiset{x}
    ensures a == b
  {
    forall v
      ensures a[v] == b[v]
    {
      assert (a + multiset{x})[v] == (b + multiset{x})[v];
    }
  }

  /** The number of pending updates does not depend on the enumeration order. */
  lemma {:induction false} PendingCountOrderFree(s: Store, t: Store)
    requires multiset(s) == multiset(t)
    ensures |PendingOf(s)| == |PendingOf(t)|
    decreases |s|
  {
    if s == [] {
      assert |multiset(t)| == 0;
    } else {
      var init, last := s[..|s| - 1], s[|s| - 1];
      assert s == init + [last];
      assert last in multiset(t);
      var i :| 0 <= i < |t| && t[i] == last;
      var u := t[..i] + t[i + 1..];
      assert t == t[..i] + [last] + t[i + 1..];
      assert multiset(s) == multiset(init) + multiset{last};
      assert multiset(t) == multiset(u) + multiset{last};
      CancelOne(multiset(u), multiset(init), last);
      PendingCountOrderFree(init, u);
      PendingOfRemove(t, i);
    }
  }

  /** No stored update is malformed. */
  ghost predicate AllParse(s: Store) {
    forall v :: v in s ==> !Malformed(v)
  }

  lemma RunKeepsAllParse(p: Platform, s: Store, run: Run, t: Store, events: seq<Event>)
    requires p.Valid() && ValidStore(s) && RunOf(p, s, run, t, events) && AllParse(s)
    ensures AllParse(t)
  {
    RunKeepsStore(p, s, run, t, events);
    forall v | v in t
      ensures !Malformed(v)
    {
      var i :| 0 <= i < |t| && t[i] == v;
      assert KeptOrMarked(s[i], t[i]);
      KeptVerdict(s[i], t[i]);
    }
  }

  /** Some selected update can be built, unless there is none. */
  ghost predicate Buildable(p: Platform, s: Store)
    requires p.Valid()
  {
    Selection(s) == [] || CanBuild(p, s)
  }

  /**
   * A quiet boot of a store without malformed updates works off 128 pending updates, or all of them, if one of
   * those it selects can be built; if none can, it leaves the store as it is.
   */
  lemma QuietDrains(p: Platform, s: Store, run: Run, t: Store, events: seq<Event>)
    requires p.Valid() && ValidStore(s) && RunOf(p, s, run, t, events) && Quiet(p, run) && Scannable(s)
    ensures if CanBuild(p, s) then PendingOf(t) == BeyondCap(PendingOf(s)) else t == s
  {
    QuietVerdict(p, s, run, t, events);
    if run.Applied? {
      AppliedDrains(p, s, run, t, events);
    }
  }

  /** A boot that met no fault and no refused write, from a store of which something can be built. */
  datatype CleanBoot = CleanBoot(p: Platform, before: Store, run: Run, after: Store, events: seq<Event>)
  {
    ghost predicate Ok() {
      && p.Valid() && ValidStore(before) && RunOf(p, before, run, after, events)
      && Quiet(p, run) && Buildable(p, before)
    }
  }

  /** Consecutive boots, between which firmware may reorder the store but nothing else happens. */
  ghost predicate Undisturbed(boots: seq<CleanBoot>) {
    && (forall k :: 0 <= k < |boots| ==> boots[k].Ok())
    && forall k :: 0 <= k < |boots| - 1 ==> multiset(boots[k + 1].before) == multiset(boots[k].after)
  }

  function Remaining(pending: nat, boots: nat): nat {
    if pending <= MAX_UPDATES * boots then 0 else pending - MAX_UPDATES * boots
  }

  lemma ParseScannable(s: Store)
    requires AllParse(s)
    ensures Scannable(s)
  {
  }

  lemma AllParseOrderFree(s: Store, t: Store)
    requires multiset(s) == multiset(t) && AllParse(s)
    ensures AllParse(t)
  {
    forall v | v in t
      ensures !Malformed(v)
    {
      assert v in multiset(s);
    }
  }

  /** One clean boot works off 128 pending updates, or all of them. */
  lemma DrainOne(b: CleanBoot)
    requires b.Ok() && AllParse(b.before)
    ensures AllParse(b.after)
    ensures |PendingOf(b.after)| == Remaining(|PendingOf(b.before)|, 1)
  {
    hide RunOf, Scannable, CanBuild, AllParse;
    ParseScannable(b.before);
    RunKeepsAllParse(b.p, b.before, b.run, b.after, b.events);
    QuietDrains(b.p, b.before, b.run, b.after, b.events);
  }

  /** Boot by boot a backlog of P updates shrinks by 128, down to none. */
  lemma {:induction false} Drains(boots: seq<CleanBoot>, k: nat)
    requires Undisturbed(boots) && k < |boots| && AllParse(boots[0].before)
    ensures AllParse(boots[k].before)
    ensures |PendingOf(boots[k].before)| == Remaining(|PendingOf(boots[0].before)|, k)
    ensures |PendingOf(boots[k].after)| == Remaining(|PendingOf(boots[0].before)|, k + 1)
    decreases k
  {
    hide AllParse, CleanBoot.Ok;
    if k > 0 {
      Drains(boots, k - 1);
      DrainOne(boots[k - 1]);
      PendingCountOrderFree(boots[k].before, boots[k - 1].after);
      AllParseOrderFree(boots[k - 1].after, boots[k].before);
    }
    DrainOne(boots[k]);
  }

  /** Once P <= 128 k updates have had k boots, the next boot finds nothing to do. */
  lemma BacklogClears(boots: seq<CleanBoot>, k: nat)
    requires Undisturbed(boots) && k < |boots| && AllParse(boots[0].before)
    requires |PendingOf(boots[0].before)| <= MAX_UPDATES * k
    ensures boots[k].run.NothingPending?
  {
    Drains(boots, k);
    var b := boots[k];
    ParseScannable(b.before);
    QuietVerdict(b.p, b.before, b.run, b.after, b.events);
  }

  // ---- every update is delivered once ---------------------------------------------------------------------

  /** A boot selects the update key. */
  ghost predicate Selects(s: Store, key: Key) {
    exists k :: 0 <= k < |Selection(s)| && Selection(s)[k].key == key
  }

  /** How often the boots handed the update key to UpdateCapsule. */
  function TotalSent(boots: seq<CleanBoot>, key: Key): nat {
    if boots == [] then 0
    else
      var b := boots[|boots| - 1];
      TotalSent(boots[..|boots| - 1], key) + Inclusions(b.run, b.events, key)
  }

  lemma TotalSentStep(boots: seq<CleanBoot>, n: nat, key: Key)
    requires n < |boots|
    ensures TotalSent(boots[..n + 1], key) ==
              TotalSent(boots[..n], key) + Inclusions(boots[n].run, boots[n].events, key)
  {
    assert boots[..n + 1][..n] == boots[..n];
  }

  /** The boot neither selects nor hands over the update key. */
  ghost predicate Idle(b: CleanBoot, key: Key) {
    !Selects(b.before, key) && Inclusions(b.run, b.events, key) == 0
  }

  /** The first 128 pending updates are selected. */
  lemma EarlySelected(s: Store, i: nat)
    requires i < |PendingOf(s)|
    ensures i < MAX_UPDATES ==> Selects(s, PendingOf(s)[i].key)
  {
    if i < MAX_UPDATES {
      assert Selection(s)[i] == PendingOf(s)[i];
    }
  }

  lemma WholeIncludes(b: CleanBoot, key: Key)
    requires b.Ok()
    ensures Inclusions(b.run, b.events, key) + One(Armed(b.after, key)) <= One(Armed(b.before, key))
  {
    hide RunOf, ValidStore, Armed, Inclusions, Replay;
    assert b.events[..|b.events|] == b.events;
    CutIncludes(b.p, b.before, b.run, b.after, b.events, |b.events|, key);
    RunReplays(b.p, b.before, b.run, b.after, b.events);
  }

  lemma PendingArmed(s: Store, v: Variable)
    requires v in PendingOf(s)
    ensures Armed(s, v.key)
  {
    PendingOfStore(s);
    var i :| 0 <= i < |s| && s[i] == v;
  }

  /** A pending update that a clean boot does not select stays as it is. */
  lemma NotYet(b: CleanBoot, v: Variable)
    requires b.Ok() && AllParse(b.before) && v in PendingOf(b.before) && !Selects(b.before, v.key)
    ensures Idle(b, v.key) && v in PendingOf(b.after)
  {
    hide RunOf, Scannable, CanBuild, AllParse;
    var i :| 0 <= i < |PendingOf(b.before)| && PendingOf(b.before)[i] == v;
    EarlySelected(b.before, i);
    ParseScannable(b.before);
    QuietDrains(b.p, b.before, b.run, b.after, b.events);
    assert BeyondCap(PendingOf(b.before))[i - MAX_UPDATES] == v;
    WholeIncludes(b, v.key);
    PendingArmed(b.after, v);
  }

  /** The update that a clean boot selects under this key is marked, and handed over exactly if it can be built. */
  lemma Now(b: CleanBoot, key: Key) returns (v: Variable)
    requires b.Ok() && AllParse(b.before) && Selects(b.before, key)
    ensures v in Selection(b.before) && v.key == key && b.p.Valid()
    ensures Inclusions(b.run, b.events, key) == One(Builds(b.p, v)) && !Armed(b.after, key)
  {
    hide RunOf, Scannable, AllParse, Armed, Inclusions, Builds;
    var k :| 0 <= k < |Selection(b.before)| && Selection(b.before)[k].key == key;
    v := Selection(b.before)[k];
    ParseScannable(b.before);
    QuietSent(b.p, b.before, b.run, b.after, b.events, k);
  }

  /** What is not armed is neither selected nor handed over, and stays so. */
  lemma NoLonger(b: CleanBoot, key: Key)
    requires b.Ok() && !Armed(b.before, key)
    ensures Idle(b, key) && !Armed(b.after, key)
  {
    hide RunOf, ValidStore;
    WholeIncludes(b, key);
    if Selects(b.before, key) {
      var k :| 0 <= k < |Selection(b.before)| && Selection(b.before)[k].key == key;
      SelectedArmed(b.before, k);
    }
  }

  lemma PendingOrderFree(s: Store, t: Store, v: Variable)
    requires multiset(s) == multiset(t) && v in PendingOf(s)
    ensures v in PendingOf(t)
  {
    PendingOfStore(s);
    PendingOfStore(t);
    assert v in multiset(s);
  }

  lemma ArmedOrderFree(s: Store, t: Store, key: Key)
    requires multiset(s) == multiset(t) && Armed(s, key)
    ensures Armed(t, key)
  {
    var i :| 0 <= i < |s| && s[i].key == key && Pending(s[i]);
    assert s[i] in multiset(t);
  }

  /** The store after the first n boots. */
  function StoreAt(boots: seq<CleanBoot>, n: nat): Store
    requires n <= |boots| && |boots| > 0
  {
    if n == 0 then boots[0].before else boots[n - 1].after
  }

  /** In the first n boots v has been waiting. */
  ghost predicate Waiting(boots: seq<CleanBoot>, n: nat, v: Variable)
    requires n <= |boots| && |boots| > 0
  {
    && v in PendingOf(StoreAt(boots, n))
    && TotalSent(boots[..n], v.key) == 0
    && forall i {:trigger boots[i]} :: 0 <= i < n ==> !Selects(boots[i].before, v.key)
  }

  /** Of the first n boots, boot j alone has selected v, and it was handed over once or not at all. */
  ghost predicate Served(boots: seq<CleanBoot>, n: nat, v: Variable, j: nat)
    requires n <= |boots| && |boots| > 0
  {
    && j < n && v in Selection(boots[j].before) && boots[j].p.Valid()
    && TotalSent(boots[..n], v.key) == One(Builds(boots[j].p, v))
    && !Armed(StoreAt(boots, n), v.key)
    && forall i {:trigger boots[i]} :: 0 <= i < n && i != j ==> !Selects(boots[i].before, v.key)
  }

  lemma ServedStep(boots: seq<CleanBoot>, n: nat, v: Variable, j: nat)
    requires Undisturbed(boots) && n < |boots| && Served(boots, n, v, j)
    ensures Served(boots, n + 1, v, j)
  {
    hide CleanBoot.Ok, Armed, Selects, Inclusions, Selection, Builds;
    var b := boots[n];
    if Armed(b.before, v.key) {
      ArmedOrderFree(b.before, StoreAt(boots, n), v.key);
    }
    NoLonger(b, v.key);
    TotalSentStep(boots, n, v.key);
  }

  lemma SelectedIs(b: CleanBoot, w: Variable, v: Variable)
    requires b.Ok() && w in Selection(b.before) && v in PendingOf(b.before) && w.key == v.key
    ensures w == v
  {
    hide RunOf, Quiet, Buildable, Platform.Valid, ValidStore;
    PendingOfDistinct(b.before);
    assert w in PendingOf(b.before);
  }

  lemma WaitingStep(boots: seq<CleanBoot>, n: nat, v: Variable)
    requires Undisturbed(boots) && n < |boots| && AllParse(boots[0].before) && Waiting(boots, n, v)
    ensures Waiting(boots, n + 1, v) || Served(boots, n + 1, v, n)
  {
    hide CleanBoot.Ok, Armed, Selects, Inclusions, Selection, Builds, AllParse;
    var b := boots[n];
    Drains(boots, n);
    PendingOrderFree(StoreAt(boots, n), b.before, v);
    TotalSentStep(boots, n, v.key);
    if Selects(b.before, v.key) {
      var w := Now(b, v.key);
      SelectedIs(b, w, v);
    } else {
      NotYet(b, v);
    }
  }

  lemma WaitingStart(boots: seq<CleanBoot>, v: Variable)
    requires |boots| > 0 && v in PendingOf(boots[0].before)
    ensures Waiting(boots, 0, v)
  {
  }

  lemma {:induction false} WaitingOrServed(boots: seq<CleanBoot>, n: nat, v: Variable) returns (j: nat)
    requires Undisturbed(boots) && n <= |boots| && |boots| > 0 && AllParse(boots[0].before)
    requires v in PendingOf(boots[0].before)
    ensures Waiting(boots, n, v) || Served(boots, n, v, j)
  {
    hide Waiting, Served, AllParse, Undisturbed;
    j := 0;
    if n == 0 {
      WaitingStart(boots, v);
    } else {
      j := WaitingOrServed(boots, n - 1, v);
      if Waiting(boots, n - 1, v) {
        WaitingStep(boots, n - 1, v);
        j := n - 1;
      } else {
        ServedStep(boots, n - 1, v, j);
      }
    }
  }

  /**
   * Liveness: when P <= 128 k updates have had k clean boots, each of them, as it was stored at the start, has been
   * selected by exactly one boot. It was handed over once if it could be built there, and else never.
   */
  lemma EachDelivered(boots: seq<CleanBoot>, v: Variable) returns (j: nat)
    requires Undisturbed(boots) && |boots| > 0 && AllParse(boots[0].before)
    requires v in PendingOf(boots[0].before) && |PendingOf(boots[0].before)| <= MAX_UPDATES * |boots|
    ensures j < |boots| && v in Selection(boots[j].before) && boots[j].p.Valid()
    ensures forall i {:trigger boots[i]} :: 0 <= i < |boots| && i != j ==> !Selects(boots[i].before, v.key)
    ensures TotalSent(boots, v.key) == One(Builds(boots[j].p, v))
  {
    hide AllParse, CleanBoot.Ok, Builds, Selection, Armed;
    j := WaitingOrServed(boots, |boots|, v);
    Drains(boots, |boots| - 1);
    assert boots[..|boots|] == boots;
  }
}

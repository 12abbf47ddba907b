// fwup_populate_update_table: which stored updates one boot selects.
module UpdateTable {
  import opened Efi
  import opened Runtime
  import opened DebugLog
  import opened UpdateInfo

  const MAX_UPDATES := 128
  const NAME_BUFFER := 1024

  /** A variable of fwupd's that is not a debug setting. */
  predicate Candidate(v: Variable) {
    && v.key.guid == FWUPDATE_GUID
    && v.key.name != VERBOSE_NAME && v.key.name != LOG_NAME
  }

  /** A candidate that parses and asks to be attempted. */
  predicate Pending(v: Variable) {
    Candidate(v) && WellFormed(v.data) && AttemptBit(v.data)
  }

  predicate Malformed(v: Variable) {
    Candidate(v) && !WellFormed(v.data)
  }

  /** A name that GetNextVariableName cannot return in the buffer it is given. */
  predicate Huge(v: Variable) {
    Firmware.NameBytes(v.key.name) > NAME_BUFFER
  }

  /** The pending updates of a store, in enumeration order. */
  function PendingOf(s: Store): seq<Variable> {
    if s == [] then []
    else PendingOf(s[..|s| - 1]) + if Pending(s[|s| - 1]) then [s[|s| - 1]] else []
  }

  /** The updates a boot takes: the first 128 pending ones. */
  function Selection(s: Store): seq<Variable> {
    var p := PendingOf(s);
    if |p| <= MAX_UPDATES then p else p[..MAX_UPDATES]
  }

  /** Variable i is malformed and is met while there is still room for another update. */
  predicate Offending(s: Store, i: nat) {
    i < |s| && Malformed(s[i]) && |PendingOf(s[..i])| < MAX_UPDATES
  }

  /** No candidate that has to be parsed is malformed. */
  ghost predicate Scannable(s: Store) {
    forall i :: 0 <= i < |s| ==> !Offending(s, i)
  }

  predicate MarkedCopy(v: Variable, w: Variable) {
    w.key == v.key && w.attrs == v.attrs && Marked(v.data, w.data)
  }

  /** tbl is sel with every update marked attempted. */
  ghost predicate MarkedAll(sel: seq<Variable>, tbl: seq<Variable>) {
    |sel| == |tbl| && forall k {:trigger MarkedCopy(sel[k], tbl[k])} :: 0 <= k < |sel| ==> MarkedCopy(sel[k], tbl[k])
  }

  lemma SelectionStep(s: Store, c: nat)
    requires c < |s|
    ensures s[..c + 1][..c] == s[..c]
    ensures |Selection(s[..c])| == MAX_UPDATES || |Selection(s[..c])| == |PendingOf(s[..c])| < MAX_UPDATES
    ensures Selection(s[..c + 1]) ==
              if Pending(s[c]) && |Selection(s[..c])| < MAX_UPDATES then Selection(s[..c]) + [s[c]]
              else Selection(s[..c])
  {
    assert s[..c + 1][..c] == s[..c];
  }

  /** Only pending updates are selected, each of them from the store. */
  lemma {:induction false} PendingOfStore(s: Store)
    ensures forall k :: 0 <= k < |PendingOf(s)| ==> Pending(PendingOf(s)[k]) && PendingOf(s)[k] in s
    ensures forall v :: v in s && Pending(v) ==> v in PendingOf(s)
  {
    if s != [] {
      PendingOfStore(s[..|s| - 1]);
    }
  }

  // ---- which variables count ------------------------------------------------------------------

  /** A variable of another vendor, or one of the two debug settings. */
  predicate Foreign(key: Key) {
    key.guid != FWUPDATE_GUID || key.name == Wide("FWUPDATE_VERBOSE") || key.name == Wide("FWUPDATE_DEBUG_LOG")
  }

  /** A foreign variable is neither pending nor malformed, whatever it holds; for any other its data decide. */
  lemma VariableCases(v: Variable)
    ensures Foreign(v.key) ==> !Pending(v) && !Malformed(v)
    ensures !Foreign(v.key) ==> (Malformed(v) <==> !WellFormed(v.data))
    ensures !Foreign(v.key) ==> (Pending(v) <==> WellFormed(v.data) && v.data[48] % 2 == 1)
  {
  }

  lemma {:induction false} PendingOfJoin(s: Store, t: Store)
    ensures PendingOf(s + t) == PendingOf(s) + PendingOf(t)
    decreases |t|
  {
    if t == [] {
      assert s + t == s;
    } else {
      PendingOfJoin(s, t[..|t| - 1]);
      assert (s + t)[..|s + t| - 1] == s + t[..|t| - 1];
    }
  }

  function Inserted(s: Store, i: nat, v: Variable): (u: Store)
    requires i <= |s|
    ensures |u| == |s| + 1
  {
    s[..i] + [v] + s[i..]
  }

  lemma PendingOfOne(v: Variable)
    ensures PendingOf([v]) == if Pending(v) then [v] else []
  {
    assert [v][..0] == [];
  }

  lemma PendingOfInserted(s: Store, i: nat, v: Variable)
    requires i <= |s|
    ensures PendingOf(Inserted(s, i, v)) == PendingOf(s[..i]) + (if Pending(v) then [v] else []) + PendingOf(s[i..])
    ensures PendingOf(s) == PendingOf(s[..i]) + PendingOf(s[i..])
  {
    hide PendingOf, Pending;
    var before, after := s[..i], s[i..];
    PendingOfOne(v);
    PendingOfJoin(before, [v]);
    PendingOfJoin(before + [v], after);
    PendingOfJoin(before, after);
    assert before + after == s;
  }

  lemma OffendingInserted(s: Store, i: nat, v: Variable, j: nat)
    requires i <= |s| && j < |s| && !Pending(v)
    ensures Offending(Inserted(s, i, v), if j < i then j else j + 1) <==> Offending(s, j)
  {
    var u := Inserted(s, i, v);
    if j < i {
      assert u[..j] == s[..j];
    } else {
      assert u[..j + 1] == Inserted(s[..j], i, v);
      PendingOfInserted(s[..j], i, v);
    }
  }

  lemma NotOffending(s: Store, i: nat)
    requires i < |s| && !Malformed(s[i])
    ensures !Offending(s, i)
  {
  }

  lemma ScannableInserted(s: Store, i: nat, v: Variable)
    requires i <= |s| && !Pending(v) && !Malformed(v)
    ensures Scannable(Inserted(s, i, v)) <==> Scannable(s)
  {
    hide Offending, Pending, Malformed;
    var u := Inserted(s, i, v);
    NotOffending(u, i);
    if Scannable(s) {
      forall j | 0 <= j < |u|
        ensures !Offending(u, j)
      {
        if j != i {
          OffendingInserted(s, i, v, if j < i then j else j - 1);
        }
      }
    }
    if Scannable(u) {
      forall j | 0 <= j < |s|
        ensures !Offending(s, j)
      {
        OffendingInserted(s, i, v, j);
      }
    }
  }

  /** Foreign variables make no difference, wherever they stand: to what is selected, or to whether the boot stops. */
  lemma ForeignIgnored(s: Store, i: nat, v: Variable)
    requires i <= |s| && Foreign(v.key)
    ensures PendingOf(Inserted(s, i, v)) == PendingOf(s) && Selection(Inserted(s, i, v)) == Selection(s)
    ensures Scannable(Inserted(s, i, v)) <==> Scannable(s)
  {
    hide Foreign, Pending, Malformed, PendingOf, Inserted;
    VariableCases(v);
    PendingOfInserted(s, i, v);
    assert PendingOf(s[..i]) + [] == PendingOf(s[..i]);
    ScannableInserted(s, i, v);
  }

  /** Any other variable of fwupd's does, wherever it stands: it is selected, ignored, or it stops the boot. */
  lemma OthersNoticed(s: Store, i: nat, v: Variable)
    requires i <= |s| && !Foreign(v.key)
    ensures WellFormed(v.data) && v.data[48] % 2 == 1 ==>
              PendingOf(Inserted(s, i, v)) == PendingOf(s[..i]) + [v] + PendingOf(s[i..])
    ensures WellFormed(v.data) && v.data[48] % 2 == 0 ==> PendingOf(Inserted(s, i, v)) == PendingOf(s)
    ensures !WellFormed(v.data) && |PendingOf(s[..i])| < 128 ==> !Scannable(Inserted(s, i, v))
  {
    VariableCases(v);
    PendingOfInserted(s, i, v);
    var u := Inserted(s, i, v);
    assert u[i] == v && u[..i] == s[..i];
    if !WellFormed(v.data) && |PendingOf(s[..i])| < 128 {
      assert Offending(u, i);
    }
  }

  /** At most 128 updates are taken, the first ones; what is malformed stops the boot only before they are full. */
  lemma SelectionCases(s: Store)
    ensures Selection(s) <= PendingOf(s)
    ensures |Selection(s)| == if |PendingOf(s)| <= 128 then |PendingOf(s)| else 128
    ensures Scannable(s) <==>
              forall i {:trigger Malformed(s[i])} :: 0 <= i < |s| && Malformed(s[i]) ==> |PendingOf(s[..i])| >= 128
  {
    if Scannable(s) {
      forall i | 0 <= i < |s| && Malformed(s[i])
        ensures |PendingOf(s[..i])| >= 128
      {
        assert !Offending(s, i);
      }
    }
  }

  /** A name is huge if it has more than 511 units, which with the NUL do not fit 1024 bytes. */
  lemma HugeIff(v: Variable)
    ensures Huge(v) <==> |v.key.name| > 511
  {
  }

  // ---- the loop as a machine ------------------------------------------------------------------

  /** The loop is about to ask for variable at, having selected count updates; or it has returned. */
  datatype Scan = Running(at: nat, count: nat) | Done(rc: Status)

  /** One turn of the loop. A huge name leaves the cursor where it was. */
  function ScanStep(s: Store, q: Scan): Scan {
    match q
    case Done(_) => q
    case Running(at, count) =>
      if at >= |s| then Done(Success)
      else if Huge(s[at]) then q
      else if !Candidate(s[at]) || count >= MAX_UPDATES then Running(at + 1, count)
      else if !WellFormed(s[at].data) then Done(InvalidParameter)
      else Running(at + 1, count + if AttemptBit(s[at].data) then 1 else 0)
  }

  function ScanAfter(s: Store, turns: nat): Scan {
    if turns == 0 then Running(0, 0) else ScanStep(s, ScanAfter(s, turns - 1))
  }

  /** Every huge name comes after a malformed variable that already stopped the loop. */
  ghost predicate Halting(s: Store) {
    forall i :: 0 <= i < |s| && Huge(s[i]) ==> exists j :: 0 <= j < i && Offending(s, j)
  }

  lemma SelectionSize(s: Store)
    ensures |Selection(s)| < MAX_UPDATES <==> |PendingOf(s)| < MAX_UPDATES
    ensures |Selection(s)| <= MAX_UPDATES
  {
  }

  /** Up to the first huge name or offending variable the loop advances one variable a turn. */
  lemma {:induction false} ScanPrefix(s: Store, c: nat)
    requires c <= |s| && forall i :: 0 <= i < c ==> !Huge(s[i]) && !Offending(s, i)
    ensures ScanAfter(s, c) == Running(c, |Selection(s[..c])|)
  {
    if c > 0 {
      ScanPrefix(s, c - 1);
      SelectionSize(s[..c - 1]);
      SelectionStep(s, c - 1);
      assert ScanAfter(s, c) == ScanStep(s, Running(c - 1, |Selection(s[..c - 1])|));
      assert !Offending(s, c - 1);
    }
  }

  /** Once it asks for a huge name the loop asks for it for ever. */
  lemma {:induction false} ScanStuck(s: Store, c: nat, turns: nat)
    requires c < |s| && Huge(s[c]) && ScanAfter(s, c).Running? && ScanAfter(s, c).at == c && turns >= c
    ensures ScanAfter(s, turns) == ScanAfter(s, c)
  {
    if turns > c {
      ScanStuck(s, c, turns - 1);
    }
  }

  /** The loop has no result before turn c if it is still running after c turns. */
  lemma {:induction false} ScanMonotone(s: Store, turns: nat, c: nat)
    requires turns <= c && ScanAfter(s, c).Running?
    ensures ScanAfter(s, turns).Running?
    decreases c - turns
  {
    if turns < c {
      ScanMonotone(s, turns + 1, c);
    }
  }

  /** The first variable from c on that stops or traps the loop, or the end of the store. */
  function FirstObstacle(s: Store, c: nat): (f: nat)
    requires c <= |s|
    ensures c <= f <= |s|
    ensures forall i :: c <= i < f ==> !Huge(s[i]) && !Offending(s, i)
    ensures f < |s| ==> Huge(s[f]) || Offending(s, f)
    decreases |s| - c
  {
    if c == |s| || Huge(s[c]) || Offending(s, c) then c else FirstObstacle(s, c + 1)
  }

  lemma ScanNext(s: Store, turns: nat, q: Scan)
    requires turns > 0 && ScanAfter(s, turns - 1) == q
    ensures ScanAfter(s, turns) == ScanStep(s, q)
  {
  }

  /** Where the loop stands at the first obstacle, and what it makes of it. */
  lemma ScanObstacle(s: Store)
    ensures var f := FirstObstacle(s, 0);
            && ScanAfter(s, f).Running? && ScanAfter(s, f).at == f
            && if f < |s| && Huge(s[f]) then ScanAfter(s, f + 1).Running?
               else ScanAfter(s, f + 1) == Done(if f == |s| then Success else InvalidParameter)
  {
    hide ScanAfter, PendingOf, Selection, WellFormed, AttemptBit, Huge, FirstObstacle;
    var f := FirstObstacle(s, 0);
    ScanPrefix(s, f);
    SelectionSize(s[..f]);
    ScanNext(s, f + 1, Running(f, |Selection(s[..f])|));
  }

  /** A huge name that is the first obstacle is asked for in every turn from then on. */
  lemma NeverDone(s: Store, turns: nat)
    requires FirstObstacle(s, 0) < |s| && Huge(s[FirstObstacle(s, 0)])
    ensures ScanAfter(s, turns).Running?
  {
    hide ScanAfter;
    var f := FirstObstacle(s, 0);
    ScanObstacle(s);
    if turns >= f {
      ScanStuck(s, f, turns);
    } else {
      ScanMonotone(s, turns, f);
    }
  }

  /** The first obstacle is a huge name exactly when one precedes every offending variable. */
  lemma HaltingIffNotTrapped(s: Store)
    ensures Halting(s) <==> FirstObstacle(s, 0) == |s| || !Huge(s[FirstObstacle(s, 0)])
  {
    hide Offending, Huge;
    var f := FirstObstacle(s, 0);
    if f < |s| && !Huge(s[f]) {
      forall i | 0 <= i < |s| && Huge(s[i])
        ensures exists j :: 0 <= j < i && Offending(s, j)
      {
        assert f < i && Offending(s, f);
      }
    }
  }

  /** The enumeration returns exactly when no huge name precedes the first offending variable. */
  lemma HaltsIff(s: Store)
    ensures (exists turns :: ScanAfter(s, turns).Done?) <==> Halting(s)
  {
    hide Halting, ScanAfter;
    HaltingIffNotTrapped(s);
    var f := FirstObstacle(s, 0);
    if f < |s| && Huge(s[f]) {
      forall turns: nat
        ensures ScanAfter(s, turns).Running?
      {
        NeverDone(s, turns);
      }
    } else {
      ScanObstacle(s);
      assert ScanAfter(s, f + 1).Done?;
    }
  }

  lemma {:induction false} ScanDone(s: Store, c: nat, turns: nat)
    requires c <= turns && ScanAfter(s, c).Done?
    ensures ScanAfter(s, turns) == ScanAfter(s, c)
  {
    if c < turns {
      ScanDone(s, c, turns - 1);
    }
  }

  /** When the loop returns, it returns success exactly on the stores without an offending variable. */
  lemma ScanVerdict(s: Store, turns: nat)
    requires ScanAfter(s, turns).Done?
    ensures ScanAfter(s, turns).rc == if Scannable(s) then Success else InvalidParameter
  {
    hide ScanAfter;
    var f := FirstObstacle(s, 0);
    ScanObstacle(s);
    if f < |s| && Huge(s[f]) {
      NeverDone(s, turns);
    } else if turns <= f {
      ScanMonotone(s, turns, f);
    } else {
      ScanDone(s, f + 1, turns);
    }
  }

  /** How many pool allocations it takes to pass variable c when count updates are selected. */
  function Allocations(s: Store, c: nat, count: nat): nat
    requires c < |s|
  {
    if Candidate(s[c]) && count < MAX_UPDATES then 3 else 0
  }

  /** How many it takes to pass the first c variables. */
  function AllAllocations(s: Store, c: nat): nat
    requires c <= |s|
  {
    if c == 0 then 0 else AllAllocations(s, c - 1) + Allocations(s, c - 1, |Selection(s[..c - 1])|)
  }

  /** The first huge name is the first obstacle if nothing before it is one. */
  lemma HugeIsFirst(s: Store, c: nat)
    requires c < |s| && Huge(s[c]) && forall i :: 0 <= i < c ==> !Huge(s[i]) && !Offending(s, i)
    ensures FirstObstacle(s, 0) == c
  {
  }

  // ---- fwup_populate_update_table -------------------------------------------------------------

  const EMPTY_GUID: seq<uint8> := seq(16, _ => 0)

  /** The cursor names the variable before c; the empty name stands before the first one. */
  ghost predicate CursorAt(s: Store, c: nat, cursor: Key) {
    c <= |s| && if c == 0 then cursor.name == [] else cursor == s[c - 1].key
  }

  /** One request for the next name, in terms of the position c of the cursor. */
  method NextName(rt: Firmware, cursor: Key, ghost c: nat) returns (rc: Status, next: Key)
    requires ValidStore(rt.vars) && CursorAt(rt.vars, c, cursor)
    modifies rt`gets, rt`faults
    ensures rt.faults >= old(rt.faults)
    ensures rt.gets == old(rt.gets) + 1
    ensures rt.faults != old(rt.faults) ==>
              rc.IsError() && rc != NotFound && rc != BufferTooSmall && rt.Blames(rc, old(rt.gets), old(rt.pools))
    ensures rt.faults == old(rt.faults) ==> rt.Clean(old(rt.gets), rt.pools)
    ensures rc.IsError() ==> next == cursor
    ensures rt.faults == old(rt.faults) ==>
              if c == |rt.vars| then rc == NotFound
              else if Huge(rt.vars[c]) then rc == BufferTooSmall
              else rc == Success && CursorAt(rt.vars, c + 1, next)
  {
    if c > 0 {
      FindUnique(rt.vars, c - 1);
    }
    rc, next := rt.GetNextVariableName(NAME_BUFFER, cursor);
  }

  /** Parse one candidate, and mark it if it is pending. */
  method Consider(rt: Firmware, log: Logger, name: String16, ghost v: Variable)
    returns (rc: Status, entry: UpdateEntry?)
    requires ValidStore(rt.vars) && log.rt == rt && !log.debugging
    requires v in rt.vars && v.key == Key(name, FWUPDATE_GUID)
    modifies rt`ticks, rt`pools, rt`gets, rt`faults, rt`vars, rt`sets, rt`trace, rt`refused, log`once, log`formats
    ensures rt.vars == old(rt.vars) && rt.trace == old(rt.trace) && rt.refused == old(rt.refused)
    ensures rt.faults >= old(rt.faults) && (rc.IsError() || rc == Success)
    ensures rc == Success ==>
              && rt.faults == old(rt.faults) && rt.Clean(old(rt.gets), old(rt.pools)) && rt.pools == old(rt.pools) + 3
              && WellFormed(v.data)
              && (entry != null <==> AttemptBit(v.data))
              && (entry != null ==>
                    && fresh(entry) && entry.info != null && fresh(entry.info)
                    && MarkedCopy(v, entry.Value()) && entry.size == |v.data|)
    ensures rc.IsError() && rt.faults == old(rt.faults) ==> rc == InvalidParameter && !WellFormed(v.data)
    ensures rc.IsError() ==>
              rt.Blames(rc, old(rt.gets), old(rt.pools)) || (rc == InvalidParameter && !WellFormed(v.data))
  {
    hide Find, WellFormed, Marked, Candidate, AttemptBit, U32, Firmware.Clean;
    entry := null;
    ghost var g, q := rt.gets, rt.pools;
    ghost var i :| 0 <= i < |rt.vars| && rt.vars[i] == v;
    FindUnique(rt.vars, i);
    var ok := rt.AllocatePool();
    if !ok {
      return OutOfResources, entry;
    }
    var update := new UpdateEntry();
    rc := PopulateUpdateInfo(rt, name, update);
    if rc.IsError() {
      var _ := log.DeleteVariable(Key(name, FWUPDATE_GUID));
      return;
    }
    rt.CleanEarlier(g, q);
    AttemptByte(v.data);
    if update.info[STATUS_OFFSET] % 2 == 1 {
      MarkAttempted(rt, update.info);
      entry := update;
    }
  }

  /** The first |tbl| slots hold the updates tbl. */
  ghost predicate Table(slots: seq<UpdateEntry?>, tbl: seq<Variable>)
    reads slots, set k | 0 <= k < |slots| && slots[k] != null :: slots[k].info
  {
    && |tbl| <= |slots|
    && (forall k :: 0 <= k < |tbl| ==>
          slots[k] != null && slots[k].info != null && slots[k].Value() == tbl[k] && slots[k].size == |tbl[k].data|)
    && forall k :: |tbl| <= k < |slots| ==> slots[k] == null
  }

  /** Put a new entry in the first free slot. */
  method AddEntry(updates: array<UpdateEntry?>, n: nat, entry: UpdateEntry, ghost tbl: seq<Variable>)
    requires n == |tbl| < updates.Length && Table(updates[..], tbl)
    requires entry.info != null && entry.size == entry.info.Length
    modifies updates
    ensures updates[..] == old(updates[..])[n := entry]
    ensures Table(updates[..], tbl + [entry.Value()])
  {
    ghost var before := updates[..];
    updates[n] := entry;
    ghost var t := tbl + [entry.Value()];
    forall k | 0 <= k < |t|
      ensures updates[k] != null && updates[k].info != null
      ensures updates[k].Value() == t[k] && updates[k].size == |t[k].data|
    {
      if k < n {
        assert updates[k] == before[k];
      }
    }
  }

  /** After c variables the table is the marked selection of those, and none of them had to stop the loop. */
  ghost predicate Progress(s: Store, c: nat, tbl: seq<Variable>) {
    c <= |s| && MarkedAll(Selection(s[..c]), tbl) && forall i :: 0 <= i < c ==> !Offending(s, i)
  }

  /** A variable that is not pending, or for which there is no room, leaves the selection as it was. */
  lemma Skipped(s: Store, c: nat, tbl: seq<Variable>)
    requires c < |s| && Progress(s, c, tbl)
    requires |tbl| >= MAX_UPDATES || (!Pending(s[c]) && !Malformed(s[c]))
    ensures Progress(s, c + 1, tbl)
  {
    SelectionStep(s, c);
    SelectionSize(s[..c]);
  }

  /** A pending variable for which there is room extends the selection. */
  lemma Taken(s: Store, c: nat, tbl: seq<Variable>, w: Variable)
    requires c < |s| && Progress(s, c, tbl)
    requires Pending(s[c]) && |tbl| < MAX_UPDATES && MarkedCopy(s[c], w)
    ensures Progress(s, c + 1, tbl + [w])
  {
    SelectionStep(s, c);
  }

  /** A malformed variable for which there is room stops the loop. */
  lemma Stopped(s: Store, c: nat, tbl: seq<Variable>)
    requires c < |s| && Progress(s, c, tbl) && Malformed(s[c]) && |tbl| < MAX_UPDATES
    ensures !Scannable(s)
  {
    SelectionSize(s[..c]);
    assert Offending(s, c);
  }

  lemma Completed(s: Store, tbl: seq<Variable>)
    requires Progress(s, |s|, tbl)
    ensures MarkedAll(Selection(s), tbl) && Scannable(s)
  {
    assert s[..|s|] == s;
  }

  /** The rest of the loop body for variable c, a candidate for which there is room. */
  method TakeCandidate(rt: Firmware, log: Logger, updates: array<UpdateEntry?>, n: nat, name: String16,
                       ghost c: nat, ghost tbl: seq<Variable>)
    returns (rc: Status, n': nat, ghost tbl': seq<Variable>)
    requires ValidStore(rt.vars) && log.rt == rt && !log.debugging
    requires n == |tbl| < updates.Length == MAX_UPDATES && Table(updates[..], tbl)
    requires c < |rt.vars| && rt.vars[c].key == Key(name, FWUPDATE_GUID) && Candidate(rt.vars[c])
    requires Progress(rt.vars, c, tbl)
    modifies updates, rt`ticks, rt`pools, rt`gets, rt`faults, rt`vars, rt`sets, rt`trace, rt`refused
    modifies log`once, log`formats
    ensures rt.vars == old(rt.vars) && rt.trace == old(rt.trace) && rt.refused == old(rt.refused)
    ensures rt.faults >= old(rt.faults) && (rc.IsError() || rc == Success)
    ensures n' == |tbl'| <= MAX_UPDATES
    ensures rc == Success ==>
              && rt.faults == old(rt.faults) && rt.Clean(old(rt.gets), old(rt.pools)) && rt.pools == old(rt.pools) + 3
              && Progress(rt.vars, c + 1, tbl') && Table(updates[..], tbl')
              && WellFormed(rt.vars[c].data) && n' == n + if AttemptBit(rt.vars[c].data) then 1 else 0
    ensures rc.IsError() && rt.faults == old(rt.faults) ==>
              rc == InvalidParameter && !Scannable(rt.vars) && !WellFormed(rt.vars[c].data)
    ensures rc.IsError() ==>
              rt.Blames(rc, old(rt.gets), old(rt.pools)) || (rc == InvalidParameter && !Scannable(rt.vars))
  {
    ghost var s := rt.vars;
    n', tbl' := n, tbl;
    var entry;
    rc, entry := Consider(rt, log, name, s[c]);
    if rc.IsError() {
      if !WellFormed(s[c].data) {
        Stopped(s, c, tbl);
      }
      return;
    }
    if entry != null {
      Taken(s, c, tbl, entry.Value());
      AddEntry(updates, n, entry, tbl);
      n', tbl' := n + 1, tbl + [entry.Value()];
    } else {
      Skipped(s, c, tbl);
    }
  }

  /**
   * One turn of the loop, which is one step of the machine: done with the status to return, or the cursor moves
   * on by one variable, or it stays where it is before a huge name.
   */
  method Turn(rt: Firmware, log: Logger, updates: array<UpdateEntry?>, cursor: Key, n: nat,
              ghost c: nat, ghost tbl: seq<Variable>)
    returns (done: bool, moved: bool, rc: Status, next: Key, n': nat, ghost tbl': seq<Variable>)
    requires ValidStore(rt.vars) && log.rt == rt && !log.debugging
    requires n == |tbl| <= updates.Length == MAX_UPDATES && Table(updates[..], tbl)
    requires CursorAt(rt.vars, c, cursor) && Progress(rt.vars, c, tbl)
    modifies updates, rt`ticks, rt`pools, rt`gets, rt`faults, rt`vars, rt`sets, rt`trace, rt`refused
    modifies log`once, log`formats
    ensures rt.vars == old(rt.vars) && rt.trace == old(rt.trace) && rt.refused == old(rt.refused)
    ensures rt.faults >= old(rt.faults) && n' == |tbl'| <= MAX_UPDATES
    ensures rt.faults == old(rt.faults) ==>
              ScanStep(rt.vars, Running(c, n)) == if done then Done(rc) else Running(if moved then c + 1 else c, n')
    ensures !done ==>
              && rt.faults == old(rt.faults) && Table(updates[..], tbl')
              && c < |rt.vars| && rt.gets > old(rt.gets) && rt.Clean(old(rt.gets), old(rt.pools))
              && rt.pools == old(rt.pools) + if moved then Allocations(rt.vars, c, n) else 0
    ensures !done && moved ==> !Huge(rt.vars[c]) && CursorAt(rt.vars, c + 1, next) && Progress(rt.vars, c + 1, tbl')
    ensures !done && !moved ==> Huge(rt.vars[c]) && next == cursor && tbl' == tbl
    ensures done && rc.IsError() && rt.faults == old(rt.faults) ==> rc == InvalidParameter && !Scannable(rt.vars)
    ensures done && rc.IsError() ==>
              rt.Blames(rc, old(rt.gets), old(rt.pools)) || (rc == InvalidParameter && !Scannable(rt.vars))
    ensures done && !rc.IsError() ==>
              && rc == Success && rt.faults == old(rt.faults) && Table(updates[..], tbl')
              && MarkedAll(Selection(rt.vars), tbl') && Scannable(rt.vars)
  {
    hide Scannable, Selection, MarkedAll, WellFormed, Table;
    ghost var s := rt.vars;
    n', tbl', moved := n, tbl, true;
    rc, next := NextName(rt, cursor, c);
    if rc == NotFound {
      Completed(s, tbl);
      return true, false, Success, next, n', tbl';
    }
    if rc == BufferTooSmall {
      done, moved := false, false;
    } else if rc.IsError() {
      done := true;
    } else if next.guid != FWUPDATE_GUID || next.name == VERBOSE_NAME || next.name == LOG_NAME || n >= MAX_UPDATES {
      Skipped(s, c, tbl);
      done := false;
    } else {
      rc, n', tbl' := TakeCandidate(rt, log, updates, n, next.name, c, tbl);
      done := rc.IsError();
    }
  }

  /** Why an enumeration comes to an end: no huge name traps it, or a read or an allocation fails. */
  datatype Way = Untrapped | FailingRead(i: nat) | FailingAllocation(i: nat)

  /**
   * The enumeration of s ends in this way. It starts with the read g and the allocation q. A failing read will do
   * at any time; a failing allocation has to be one of the others that come before the loop, or one that is made
   * before the first huge name is met.
   */
  ghost predicate EndsBy(rt: Firmware, s: Store, g: nat, q: nat, others: nat, way: Way) {
    match way
    case Untrapped => Halting(s)
    case FailingRead(i) => g <= i && rt.readFault(i).Some?
    case FailingAllocation(i) => q <= i < q + others + AllAllocations(s, FirstObstacle(s, 0)) && rt.poolFull(i)
  }

  ghost predicate Ends(rt: Firmware, s: Store, g: nat, q: nat, others: nat) {
    exists way :: EndsBy(rt, s, g, q, others, way)
  }

  /** The enumeration is known to end when no huge name traps it, or some read fails, or one of these allocations. */
  lemma EndsIff(rt: Firmware, s: Store, g: nat, q: nat, others: nat)
    ensures Ends(rt, s, g, q, others) <==>
              || Halting(s) || (exists i :: g <= i && rt.readFault(i).Some?)
              || exists i :: q <= i < q + others + AllAllocations(s, FirstObstacle(s, 0)) && rt.poolFull(i)
  {
    if Halting(s) {
      assert EndsBy(rt, s, g, q, others, Untrapped);
    }
    if i: nat :| g <= i && rt.readFault(i).Some? {
      assert EndsBy(rt, s, g, q, others, FailingRead(i));
    }
    if i: nat :| q <= i < q + others + AllAllocations(s, FirstObstacle(s, 0)) && rt.poolFull(i) {
      assert EndsBy(rt, s, g, q, others, FailingAllocation(i));
    }
  }

  /** Three allocations are made for every variable that is not foreign, until 128 updates are selected. */
  lemma AllocationsStep(s: Store, c: nat)
    requires c < |s|
    ensures AllAllocations(s, 0) == 0
    ensures AllAllocations(s, c + 1) ==
              AllAllocations(s, c) + if !Foreign(s[c].key) && |PendingOf(s[..c])| < 128 then 3 else 0
  {
    SelectionSize(s[..c]);
  }

  /** One allocation that succeeds leaves the end of the enumeration ahead. */
  lemma EndsAfterOne(rt: Firmware, s: Store, g: nat, q: nat)
    requires Ends(rt, s, g, q, 2) && !rt.poolFull(q)
    ensures Ends(rt, s, g, q + 1, 1)
  {
    var way :| EndsBy(rt, s, g, q, 2, way);
    assert EndsBy(rt, s, g, q + 1, 1, way);
  }

  /** A loop that is caught by a huge name and has met no fault has a failing read before it. */
  lemma FaultAhead(rt: Firmware, c: nat, g: nat, q: nat, way: Way)
    requires c < |rt.vars| && Huge(rt.vars[c]) && forall i :: 0 <= i < c ==> !Huge(rt.vars[i]) && !Offending(rt.vars, i)
    requires rt.Clean(g, q) && rt.pools == q + 1 + AllAllocations(rt.vars, c)
    requires EndsBy(rt, rt.vars, g, q, 1, way)
    ensures way.FailingRead? && way.i >= rt.gets
  {
    HugeIsFirst(rt.vars, c);
    assert !Halting(rt.vars);
  }

  /**
   * The loop has passed c variables without a fault since the read g and the allocation q: where the cursor is,
   * what has been selected, and how much memory was taken.
   */
  ghost predicate Passed(rt: Firmware, c: nat, cursor: Key, tbl: seq<Variable>, g: nat, q: nat)
    reads rt
  {
    && CursorAt(rt.vars, c, cursor) && Progress(rt.vars, c, tbl)
    && (forall i :: 0 <= i < c ==> !Huge(rt.vars[i]))
    && rt.Clean(g, q) && rt.pools == q + 1 + AllAllocations(rt.vars, c)
  }

  lemma NonePassed(rt: Firmware, cursor: Key, g: nat, q: nat)
    requires cursor.name == [] && rt.Clean(g, q) && rt.pools == q + 1
    ensures Passed(rt, 0, cursor, [], g, q)
    ensures ScanAfter(rt.vars, 0) == Running(0, 0)
  {
    assert rt.vars[..0] == [];
  }

  lemma ProgressCount(s: Store, c: nat, tbl: seq<Variable>)
    requires c < |s| && Progress(s, c, tbl)
    ensures AllAllocations(s, c + 1) == AllAllocations(s, c) + Allocations(s, c, |tbl|)
  {
  }

  /** The turn of the loop after c variables, as PopulateUpdateTable takes it; c' is how many are passed after it. */
  method Advance(rt: Firmware, log: Logger, updates: array<UpdateEntry?>, cursor: Key, n: nat,
                 ghost c: nat, ghost tbl: seq<Variable>, ghost g: nat, ghost q: nat, ghost way: Way)
    returns (done: bool, rc: Status, next: Key, n': nat, ghost c': nat, ghost tbl': seq<Variable>)
    requires ValidStore(rt.vars) && log.rt == rt && !log.debugging
    requires n == |tbl| <= updates.Length == MAX_UPDATES && Table(updates[..], tbl)
    requires Passed(rt, c, cursor, tbl, g, q) && EndsBy(rt, rt.vars, g, q, 1, way)
    modifies updates, rt`ticks, rt`pools, rt`gets, rt`faults, rt`vars, rt`sets, rt`trace, rt`refused
    modifies log`once, log`formats
    ensures rt.vars == old(rt.vars) && rt.trace == old(rt.trace) && rt.refused == old(rt.refused)
    ensures rt.faults >= old(rt.faults) && n' == |tbl'| <= MAX_UPDATES
    ensures rt.faults == old(rt.faults) ==>
              ScanStep(rt.vars, Running(c, n)) == if done then Done(rc) else Running(c', n')
    ensures !done ==>
              && rt.faults == old(rt.faults) && rt.gets > old(rt.gets) && rt.pools >= old(rt.pools)
              && Table(updates[..], tbl') && Passed(rt, c', next, tbl', g, q)
              && c <= c' <= |rt.vars|
              // a turn without progress has a failing read before it
              && (c' == c ==> way.FailingRead? && way.i >= rt.gets)
    ensures done && rc.IsError() && rt.faults == old(rt.faults) ==> rc == InvalidParameter && !Scannable(rt.vars)
    ensures done && rc.IsError() ==>
              rt.Blames(rc, old(rt.gets), old(rt.pools)) || (rc == InvalidParameter && !Scannable(rt.vars))
    ensures done && !rc.IsError() ==>
              && rc == Success && rt.faults == old(rt.faults) && Table(updates[..], tbl')
              && MarkedAll(Selection(rt.vars), tbl') && Scannable(rt.vars)
  {
    hide Halting, Scannable, Selection, MarkedAll;
    var moved;
    done, moved, rc, next, n', tbl' := Turn(rt, log, updates, cursor, n, c, tbl);
    c' := if moved then c + 1 else c;
    if !done {
      ProgressCount(rt.vars, c, tbl);
      if !moved {
        FaultAhead(rt, c, g, q, way);
      }
    }
  }

  method PopulateUpdateTable(rt: Firmware, log: Logger, updates: array<UpdateEntry?>)
    returns (rc: Status, nUpdates: nat, ghost tbl: seq<Variable>, ghost turns: nat)
    requires ValidStore(rt.vars) && log.rt == rt && !log.debugging
    requires Ends(rt, rt.vars, rt.gets, rt.pools, 1)
    requires updates.Length == MAX_UPDATES && forall k :: 0 <= k < MAX_UPDATES ==> updates[k] == null
    modifies updates, rt`ticks, rt`pools, rt`gets, rt`faults, rt`vars, rt`sets, rt`trace, rt`refused
    modifies log`once, log`formats
    ensures rt.vars == old(rt.vars) && rt.trace == old(rt.trace) && rt.refused == old(rt.refused)
    ensures rt.faults >= old(rt.faults) && (rc.IsError() || rc == Success)
    ensures rc == Success ==>
              && rt.faults == old(rt.faults) && Scannable(rt.vars)
              && MarkedAll(Selection(rt.vars), tbl) && nUpdates == |tbl|
              && Table(updates[..], tbl)
    ensures rc.IsError() && rt.faults == old(rt.faults) ==> rc == InvalidParameter && !Scannable(rt.vars)
    ensures rc.IsError() ==>
              rt.Blames(rc, old(rt.gets), old(rt.pools)) || (rc == InvalidParameter && !Scannable(rt.vars))
    // the method is the machine: turns is how often the loop body ran
    ensures rt.faults == old(rt.faults) ==> ScanAfter(rt.vars, turns) == Done(rc)
  {
    hide Halting, Scannable, FirstObstacle, AllAllocations, Selection, MarkedAll, Passed, ScanStep, ScanAfter;
    nUpdates, tbl, turns := 0, [], 0;
    ghost var s, g, q, c := rt.vars, rt.gets, rt.pools, 0;
    ghost var way :| EndsBy(rt, s, g, q, 1, way);
    var ok := rt.AllocatePool();
    if !ok {
      return OutOfResources, nUpdates, tbl, turns;
    }
    var cursor := Key([], EMPTY_GUID);
    NonePassed(rt, cursor, g, q);
    while true
      invariant ScanAfter(s, turns) == Running(c, nUpdates)
      invariant rt.vars == s && rt.trace == old(rt.trace)
      invariant rt.refused == old(rt.refused) && rt.faults == old(rt.faults)
      invariant Passed(rt, c, cursor, tbl, g, q) && g <= rt.gets && q <= rt.pools
      invariant nUpdates == |tbl| <= MAX_UPDATES && Table(updates[..], tbl) && !log.debugging
      decreases |s| - c, if way.FailingRead? then way.i - rt.gets else 0
    {
      ghost var before := Running(c, nUpdates);
      var done;
      done, rc, cursor, nUpdates, c, tbl := Advance(rt, log, updates, cursor, nUpdates, c, tbl, g, q, way);
      turns := turns + 1;
      ScanNext(s, turns, before);
      if done {
        return;
      }
    }
  }
}

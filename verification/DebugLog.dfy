// The debug log of efi/fwup-debug.c, and fwup_delete_variable of efi/fwup-efi.c, which logs while the log
// is being reset.
module DebugLog {
  import opened Efi
  import opened Runtime

  const VERBOSE_NAME := Wide("FWUPDATE_VERBOSE")
  const LOG_NAME := Wide("FWUPDATE_DEBUG_LOG")
  const LOG_KEY := Key(LOG_NAME, FWUPDATE_GUID)

  /** NON_VOLATILE, BOOTSERVICE_ACCESS and RUNTIME_ACCESS. */
  const LOG_ATTRS := 7

  /** A formatted log line; it is never empty. */
  type Message = m: seq<uint8> | m != [] witness [10]

  /** What the log variable holds, None if there is none. */
  function LogData(s: Store): Option<seq<uint8>> {
    match Find(s, LOG_KEY)
    case None => None
    case Some(i) => Some(s[i].data)
  }

  /** The log variable is absent, or has data and was made with the attributes the log uses. */
  ghost predicate LogUsable(s: Store) {
    match Find(s, LOG_KEY)
    case None => true
    case Some(i) => s[i].attrs == LOG_ATTRS && s[i].data != []
  }

  /** The log variable was made by someone else, with other attributes. */
  ghost predicate LogForeign(s: Store) {
    match Find(s, LOG_KEY)
    case None => false
    case Some(i) => s[i].attrs != LOG_ATTRS && s[i].data != []
  }

  /** Under key there is a variable without data, which UEFI does not allow. */
  ghost predicate EmptyAt(s: Store, key: Key) {
    match Find(s, key)
    case None => false
    case Some(i) => s[i].data == []
  }

  /** The variables other than the log, in order. */
  function Others(s: Store): Store {
    if s == [] then []
    else Others(s[..|s| - 1]) + if s[|s| - 1].key == LOG_KEY then [] else [s[|s| - 1]]
  }

  /** Every variable of the store is another one, except the log, and they keep their order. */
  lemma {:induction false} OthersJoin(s: Store, t: Store)
    ensures Others(s + t) == Others(s) + Others(t)
    decreases |t|
  {
    if t == [] {
      assert s + t == s;
    } else {
      OthersJoin(s, t[..|t| - 1]);
      assert (s + t)[..|s + t| - 1] == s + t[..|t| - 1];
    }
  }

  lemma OthersOne(v: Variable)
    ensures Others([v]) == if v.key == Key(Wide("FWUPDATE_DEBUG_LOG"), FWUPDATE_GUID) then [] else [v]
  {
    assert [v][..0] == [];
  }

  /** The static state of the log: whether this run has written to it, and what it holds. */
  datatype LogState = LogState(once: bool, data: Option<seq<uint8>>)

  /** The effect of one line: the first one of a run replaces the log, each later one extends it. */
  function Logged(s: LogState, msg: Message): LogState {
    LogState(false, Some(if s.once || s.data.None? then msg else s.data.value + msg))
  }

  function Concat(msgs: seq<Message>): seq<uint8> {
    if msgs == [] then [] else Concat(msgs[..|msgs| - 1]) + msgs[|msgs| - 1]
  }

  /** The text of some lines and then of others is the text of all of them, in that order. */
  lemma {:induction false} ConcatJoin(a: seq<Message>, b: seq<Message>)
    ensures Concat(a + b) == Concat(a) + Concat(b)
    decreases |b|
  {
    if b == [] {
      assert a + b == a;
    } else {
      ConcatJoin(a, b[..|b| - 1]);
      assert (a + b)[..|a + b| - 1] == a + b[..|b| - 1];
    }
  }

  /** One line is its own text. */
  lemma ConcatOne(msg: Message)
    ensures Concat([msg]) == msg
  {
    assert Concat([msg]) == Concat([]) + msg;
  }

  /** What became of a line: formatting it failed, the device refused its write, or it was written. */
  datatype Fate = Lost | Refused | Stored

  /** The lines that were written. */
  function StoredLines(msgs: seq<Message>, fates: seq<Fate>): (kept: seq<Message>)
    requires |msgs| == |fates|
    ensures |kept| <= |msgs|
  {
    if msgs == [] then []
    else
      var last := |msgs| - 1;
      StoredLines(msgs[..last], fates[..last]) + if fates[last].Stored? then [msgs[last]] else []
  }

  /** The stored lines, in order: those of a first part, and those of the rest. */
  lemma {:induction false} StoredLinesJoin(a: seq<Message>, b: seq<Message>, fa: seq<Fate>, fb: seq<Fate>)
    requires |a| == |fa| && |b| == |fb|
    ensures StoredLines(a + b, fa + fb) == StoredLines(a, fa) + StoredLines(b, fb)
    decreases |b|
  {
    if b == [] {
      assert a + b == a && fa + fb == fa;
    } else {
      var last := |b| - 1;
      StoredLinesJoin(a, b[..last], fa, fb[..last]);
      assert (a + b)[..|a| + last] == a + b[..last] && (fa + fb)[..|a| + last] == fa + fb[..last];
    }
  }

  lemma StoredLinesOne(msg: Message, fate: Fate)
    ensures StoredLines([msg], [fate]) == if fate == Stored then [msg] else []
  {
    assert [msg][..0] == [] && [fate][..0] == [];
  }

  /** One more line extends the text of the stored lines if it is stored. */
  lemma StoredLinesStep(msgs: seq<Message>, fates: seq<Fate>, i: nat, fate: Fate)
    requires i == |fates| < |msgs|
    ensures var text := Concat(StoredLines(msgs[..i], fates));
            Concat(StoredLines(msgs[..i + 1], fates + [fate])) == if fate.Stored? then text + msgs[i] else text
  {
    var kept := StoredLines(msgs[..i], fates);
    assert msgs[..i + 1][..i] == msgs[..i] && (fates + [fate])[..i] == fates;
    assert kept + [] == kept && (kept + [msgs[i]])[..|kept|] == kept;
  }

  /** The fate of the first line that could be formatted. */
  function FirstFate(fates: seq<Fate>): Option<Fate> {
    if fates == [] then None
    else
      match FirstFate(fates[..|fates| - 1])
      case Some(fate) => Some(fate)
      case None => if fates[|fates| - 1].Lost? then None else Some(fates[|fates| - 1])
  }

  lemma {:induction false} FirstFateIs(fates: seq<Fate>)
    ensures match FirstFate(fates)
            case None => forall k :: 0 <= k < |fates| ==> fates[k] == Lost
            case Some(fate) =>
              exists k :: 0 <= k < |fates| && fates[k] == fate != Lost && forall j :: 0 <= j < k ==> fates[j] == Lost
  {
    if fates != [] {
      var init := fates[..|fates| - 1];
      FirstFateIs(init);
      assert forall k :: 0 <= k < |init| ==> init[k] == fates[k];
      if FirstFate(init).Some? {
        var k :| 0 <= k < |init| && init[k] == FirstFate(init).value && forall j :: 0 <= j < k ==> init[j] == Lost;
        assert fates[k] == init[k];
      }
    }
  }

  lemma FirstFateStep(fates: seq<Fate>, fate: Fate)
    ensures FirstFate(fates + [fate]) ==
              if FirstFate(fates).Some? then FirstFate(fates) else if fate.Lost? then None else Some(fate)
  {
    assert (fates + [fate])[..|fates|] == fates;
  }

  /** Before the first line that could be formatted there are no stored ones. */
  lemma {:induction false} NoneStored(msgs: seq<Message>, fates: seq<Fate>)
    requires |msgs| == |fates| && FirstFate(fates).None?
    ensures StoredLines(msgs, fates) == []
  {
    if msgs != [] {
      NoneStored(msgs[..|msgs| - 1], fates[..|msgs| - 1]);
    }
  }

  /** Extending a log by one line. */
  function Extended(data: Option<seq<uint8>>, msg: Message): Option<seq<uint8>> {
    Logged(LogState(false, data), msg).data
  }

  lemma {:induction false} OthersUpdate(s: Store, i: nat, v: Variable)
    requires i < |s| && s[i].key == LOG_KEY == v.key
    ensures Others(s[i := v]) == Others(s)
    decreases |s|
  {
    var t := s[i := v];
    if i < |s| - 1 {
      OthersUpdate(s[..|s| - 1], i, v);
      assert t[..|t| - 1] == s[..|s| - 1][i := v];
    } else {
      assert t[..|t| - 1] == s[..|s| - 1];
    }
  }

  lemma {:induction false} FindUpdate(s: Store, i: nat, v: Variable, key: Key)
    requires i < |s| && s[i].key == v.key
    ensures Find(s[i := v], key) == Find(s, key)
    decreases |s|
  {
    var t := s[i := v];
    if i < |s| - 1 {
      FindUpdate(s[..|s| - 1], i, v, key);
      assert t[..|t| - 1] == s[..|s| - 1][i := v];
    } else {
      assert t[..|t| - 1] == s[..|s| - 1];
    }
  }

  lemma ReplacedLog(s: Store, i: nat, v: Variable)
    requires i < |s| && s[i].key == v.key == LOG_KEY && Find(s, LOG_KEY) == Some(i)
    ensures Find(s[i := v], LOG_KEY) == Some(i) && Others(s[i := v]) == Others(s)
  {
    FindUpdate(s, i, v, LOG_KEY);
    OthersUpdate(s, i, v);
  }

  lemma NewLog(s: Store, v: Variable)
    requires v.key == LOG_KEY && Find(s, LOG_KEY).None?
    ensures Find(s + [v], LOG_KEY) == Some(|s|) && Others(s + [v]) == Others(s)
  {
    assert (s + [v])[..|s|] == s;
  }

  /** A write to the log variable that the device accepts. */
  lemma SetLog(s: Store, msg: Message, append: bool)
    requires LogUsable(s)
    ensures var (t, rc) := Set(s, LOG_KEY, msg, if append then LOG_ATTRS + APPEND_WRITE else LOG_ATTRS);
            && rc == Success && LogUsable(t) && Others(t) == Others(s)
            && LogData(t) == Some(if append && LogData(s).Some? then LogData(s).value + msg else msg)
  {
    hide Find, Others;
    var t := Set(s, LOG_KEY, msg, if append then LOG_ATTRS + APPEND_WRITE else LOG_ATTRS).0;
    match Find(s, LOG_KEY)
    case Some(i) => ReplacedLog(s, i, t[i]);
    case None => NewLog(s, t[|s|]);
  }

  class Logger {
    const rt: Firmware
    // The lines fwup_delete_variable logs.
    const notFound: Message
    const notRead: Message
    // Whether formatting fails for want of memory, by the number of the line.
    const formatFails: nat -> bool
    var debugging: bool
    var once: bool
    var formats: nat

    constructor (rt: Firmware, notFound: Message, notRead: Message, formatFails: nat -> bool)
      ensures this.rt == rt && !debugging && once && formats == 0
      ensures this.notFound == notFound && this.notRead == notRead && this.formatFails == formatFails
    {
      this.rt, this.notFound, this.notRead, this.formatFails := rt, notFound, notRead, formatFails;
      debugging, once, formats := false, true, 0;
    }

    function State(): LogState
      reads this, rt
    {
      LogState(once, LogData(rt.vars))
    }

    /** All that a refused write, or fwup_delete_variable, can do to the log: a line of the latter may be in it. */
    ghost predicate Noted(before: Option<seq<uint8>>, after: Option<seq<uint8>>) {
      after == before || after == Extended(before, notFound) || after == Extended(before, notRead)
    }

    /**
     * What one line does to the log. If it was written the log is what Logged says. If not, the line is lost; only
     * when the device refused the first line of a run can a nested one have been added meanwhile.
     */
    ghost predicate LineLogged(before: LogState, after: LogState, msg: Message, fate: Fate) {
      match fate
      case Stored => after == Logged(before, msg)
      case Refused => !after.once && if before.once then Noted(before.data, after.data) else after.data == before.data
      case Lost => after == before
    }

    /** The fate of a line after whose formatting the last write was made. */
    function WriteFate(): Fate
      requires rt.sets > 0
      reads rt
    {
      if rt.setStatus(rt.sets - 1).IsError() then Refused else Stored
    }

    /**
     * fwup_log: a line that cannot be formatted is dropped. With debugging off nothing is stored; with it on the
     * line goes to the log variable.
     */
    method Log(msg: Message)
      modifies `once, `formats, rt`vars, rt`sets, rt`trace, rt`refused, rt`gets, rt`faults
      ensures rt.refused >= old(rt.refused) && rt.faults >= old(rt.faults) && (!old(once) ==> !once)
      ensures rt.sets >= old(rt.sets) && rt.gets >= old(rt.gets) && formats > old(formats)
      ensures !debugging || formatFails(old(formats)) ==>
                && once == old(once) && rt.vars == old(rt.vars) && rt.trace == old(rt.trace)
                && rt.refused == old(rt.refused) && rt.faults == old(rt.faults)
      ensures old(LogUsable(rt.vars)) ==>
                && LogUsable(rt.vars) && Others(rt.vars) == Others(old(rt.vars))
                && (debugging && !formatFails(old(formats)) ==>
                      && rt.sets > old(rt.sets) && (rt.refused == old(rt.refused) ==> WriteFate() == Stored)
                      && LineLogged(old(State()), State(), msg, WriteFate()))
      ensures old(LogForeign(rt.vars)) ==> rt.vars == old(rt.vars)
      decreases if once then 1 else 0, 2
    {
      var fails := formatFails(formats);
      formats := formats + 1;
      if fails {
        return;
      }
      if debugging {
        Append(msg);
      }
    }

    /** fwupd_debug_efivar_append; the flag is cleared before anything that can log again. */
    method Append(msg: Message)
      requires debugging
      modifies `once, `formats, rt`vars, rt`sets, rt`trace, rt`refused, rt`gets, rt`faults
      ensures rt.refused >= old(rt.refused) && rt.faults >= old(rt.faults) && (!old(once) ==> !once)
      ensures rt.sets >= old(rt.sets) && rt.gets >= old(rt.gets) && formats >= old(formats)
      ensures old(LogUsable(rt.vars)) ==>
                && LogUsable(rt.vars) && Others(rt.vars) == Others(old(rt.vars))
                && rt.sets > old(rt.sets) && (rt.refused == old(rt.refused) ==> WriteFate() == Stored)
                && LineLogged(old(State()), State(), msg, WriteFate())
      ensures old(LogForeign(rt.vars)) ==> rt.vars == old(rt.vars)
      decreases if once then 1 else 0, 1
    {
      hide Others, Find;
      var attrs := LOG_ATTRS;
      if once {
        once := false;
        var _ := DeleteVariable(LOG_KEY);
      } else {
        attrs := attrs + APPEND_WRITE;
      }
      if LogUsable(rt.vars) {
        SetLog(rt.vars, msg, attrs != LOG_ATTRS);
      }
      var _ := rt.SetVariable(LOG_KEY, msg, attrs);
    }

    /**
     * fwup_delete_variable. GetVariable with no room succeeds only on an empty variable, so a variable with
     * any data is reported as BufferTooSmall and is left in the store.
     */
    method DeleteVariable(key: Key) returns (rc: Status)
      modifies `once, `formats, rt`vars, rt`sets, rt`trace, rt`refused, rt`gets, rt`faults
      ensures rt.refused >= old(rt.refused) && rt.faults >= old(rt.faults) && (!old(once) ==> !once)
      ensures rt.sets >= old(rt.sets) && rt.gets >= old(rt.gets) && formats >= old(formats)
      ensures !EmptyAt(old(rt.vars), key) ==>
                && (old(LogUsable(rt.vars)) ==>
                      && LogUsable(rt.vars) && Others(rt.vars) == Others(old(rt.vars))
                      && (!old(once) ==> Noted(LogData(old(rt.vars)), LogData(rt.vars))))
                && (old(LogForeign(rt.vars)) ==> rt.vars == old(rt.vars))
                && (rt.faults == old(rt.faults) ==>
                      rc == if Find(old(rt.vars), key).None? then Success else BufferTooSmall)
                && (!debugging ==>
                      && once == old(once) && rt.vars == old(rt.vars) && rt.trace == old(rt.trace)
                      && rt.refused == old(rt.refused))
      decreases if once then 1 else 0, 3
    {
      var attrs, size;
      rc, attrs, size := rt.GetVariable(key, 0, null);
      if rc.IsError() {
        if rc == NotFound {
          Log(notFound);
          return Success;
        }
        Log(notRead);
        return rc;
      }
      rc := rt.SetVariable(key, [], attrs);
    }
  }

  /** What was in the log is still at its front. */
  predicate KeepsOld(before: Option<seq<uint8>>, after: Option<seq<uint8>>) {
    before.Some? ==> after.Some? && before.value <= after.value
  }

  /**
   * The log after some lines, which had these fates. If the first line that could be formatted was stored, the log
   * is the text of the stored lines and holds nothing older. If it was refused, a log that was there before is
   * still in front. If there was no such line nothing has changed.
   */
  ghost predicate LinesLogged(before: LogState, msgs: seq<Message>, fates: seq<Fate>, after: LogState) {
    && |fates| == |msgs|
    && match FirstFate(fates)
       case None => after == before
       case Some(Stored) => after == LogState(false, Some(Concat(StoredLines(msgs, fates))))
       case Some(_) => !after.once && KeepsOld(before.data, after.data)
  }

  /** One more line. */
  lemma LinesLoggedStep(log: Logger, before: LogState, msgs: seq<Message>, i: nat, fates: seq<Fate>,
                        mid: LogState, fate: Fate, after: LogState)
    requires before.once && i < |msgs| && LinesLogged(before, msgs[..i], fates, mid)
    requires log.LineLogged(mid, after, msgs[i], fate)
    ensures LinesLogged(before, msgs[..i + 1], fates + [fate], after)
  {
    hide StoredLines, FirstFate;
    StoredLinesStep(msgs, fates, i, fate);
    FirstFateStep(fates, fate);
    assert [] + msgs[i] == msgs[i];
    if FirstFate(fates).None? {
      NoneStored(msgs[..i], fates);
    }
  }

  /** When every line was written the log is exactly those lines, whatever it held before the run. */
  lemma {:induction false} AllStored(msgs: seq<Message>, fates: seq<Fate>)
    requires |msgs| == |fates| && forall i :: 0 <= i < |fates| ==> fates[i].Stored?
    ensures StoredLines(msgs, fates) == msgs
    ensures msgs != [] ==> FirstFate(fates) == Some(Stored)
  {
    if msgs != [] {
      AllStored(msgs[..|msgs| - 1], fates[..|msgs| - 1]);
    }
  }

  lemma LostKeeps(log: Logger, st: LogState, msg: Message)
    ensures log.LineLogged(st, st, msg, Lost)
  {
  }

  lemma AllWritten(before: LogState, msgs: seq<Message>, fates: seq<Fate>, after: LogState)
    requires LinesLogged(before, msgs, fates, after)
    ensures msgs != [] && Refused !in fates && Lost !in fates ==> after.data == Some(Concat(msgs))
  {
    if Refused !in fates && Lost !in fates {
      forall i | 0 <= i < |fates|
        ensures fates[i].Stored?
      {
        assert fates[i] in fates;
      }
      AllStored(msgs, fates);
    }
  }

  lemma NoLines(before: LogState)
    ensures LinesLogged(before, [], [], before)
  {
  }

  /** The top-level lines of a run and their fates. */
  method LogLines(log: Logger, msgs: seq<Message>) returns (ghost fates: seq<Fate>)
    requires log.debugging && log.once && LogUsable(log.rt.vars)
    modifies log`once, log`formats, log.rt`vars, log.rt`sets, log.rt`trace, log.rt`refused, log.rt`gets, log.rt`faults
    ensures Others(log.rt.vars) == Others(old(log.rt.vars))
    ensures LinesLogged(old(log.State()), msgs, fates, log.State())
    // without refused writes and failed allocations every line is written
    ensures log.rt.refused == old(log.rt.refused) ==> Refused !in fates
    ensures (forall c :: old(log.formats) <= c < log.formats ==> !log.formatFails(c)) ==> Lost !in fates
    ensures msgs != [] && Refused !in fates && Lost !in fates ==> LogData(log.rt.vars) == Some(Concat(msgs))
  {
    hide LogUsable, Others, LogData, Logger.LineLogged, LinesLogged;
    fates := [];
    ghost var before := log.State();
    NoLines(before);
    for i := 0 to |msgs|
      invariant LogUsable(log.rt.vars) && Others(log.rt.vars) == Others(old(log.rt.vars))
      invariant log.rt.refused >= old(log.rt.refused) && log.formats >= old(log.formats) && |fates| == i
      invariant log.rt.refused == old(log.rt.refused) ==> Refused !in fates
      invariant (forall c :: old(log.formats) <= c < log.formats ==> !log.formatFails(c)) ==> Lost !in fates
      invariant LinesLogged(before, msgs[..i], fates, log.State())
    {
      ghost var mid, lost := log.State(), log.formatFails(log.formats);
      log.Log(msgs[i]);
      ghost var fate := if lost then Lost else log.WriteFate();
      LostKeeps(log, mid, msgs[i]);
      LinesLoggedStep(log, before, msgs, i, fates, mid, fate, log.State());
      fates := fates + [fate];
    }
    assert msgs[..|msgs|] == msgs;
    AllWritten(before, msgs, fates, log.State());
  }
}

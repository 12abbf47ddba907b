// UEFI runtime services over the persistent variable store (section 8 of the UEFI Specification 2.10),
// and the wrappers of efi/fwup-efi.c that read and write variables.
module Runtime {
  import opened Efi
  import opened PageMemory
  import opened Capsule
  import opened CapsuleList
  import opened Descriptors

  /** A variable is named by a string and a vendor GUID. */
  datatype Key = Key(name: String16, guid: seq<uint8>)

  datatype Variable = Variable(key: Key, attrs: nat, data: seq<uint8>)

  /** The store, in the order in which GetNextVariableName enumerates it. */
  type Store = seq<Variable>

  const APPEND_WRITE := 0x40

  const FWUPDATE_GUID := Guid(0x0abba7dc, 0xe516, 0x4167, [0xbb, 0xf5, 0x4d, 0x9d, 0x1c, 0x73, 0x94, 0x16])

  /** The APPEND_WRITE bit of a set of attributes. */
  predicate Appends(attrs: nat) {
    attrs / APPEND_WRITE % 2 == 1
  }

  /** Keys are unique and named, no stored variable is empty, and APPEND_WRITE is never stored. */
  ghost predicate ValidStore(s: Store) {
    && (forall i :: 0 <= i < |s| ==> s[i].key.name != [] && s[i].data != [] && !Appends(s[i].attrs))
    && (forall i, j :: 0 <= i < j < |s| ==> s[i].key != s[j].key)
  }

  function Find(s: Store, key: Key): (r: Option<nat>)
    ensures r.Some? ==> r.value < |s| && s[r.value].key == key
    ensures r.None? ==> forall i :: 0 <= i < |s| ==> s[i].key != key
  {
    if s == [] then None
    else if s[|s| - 1].key == key then Some(|s| - 1)
    else Find(s[..|s| - 1], key)
  }

  /** Any variable under a new name can be added to a store, if it has data and lacks the APPEND_WRITE bit, bit 6. */
  lemma ValidStoreGrows(s: Store, v: Variable)
    ensures ValidStore([])
    ensures ValidStore(s + [v]) <==>
              && ValidStore(s) && Find(s, v.key).None?
              && v.key.name != [] && v.data != [] && v.attrs / 64 % 2 == 0
  {
    var t := s + [v];
    assert t[|s|] == v;
    if ValidStore(t) {
      forall i | 0 <= i < |s|
        ensures s[i] == t[i] && s[i].key != v.key
      {
        assert t[i].key != t[|s|].key;
      }
      forall i, j | 0 <= i < j < |s|
        ensures s[i].key != s[j].key
      {
        assert t[i].key != t[j].key;
      }
    }
  }

  lemma FindUnique(s: Store, i: nat)
    requires ValidStore(s) && i < |s|
    ensures Find(s, s[i].key) == Some(i)
  {
  }

  /** What a SetVariable that the device accepts does to the store, and its status. */
  function Set(s: Store, key: Key, data: seq<uint8>, attrs: nat): (Store, Status) {
    var append := Appends(attrs);
    var base := if append then attrs - APPEND_WRITE else attrs;
    match Find(s, key)
    case Some(i) =>
      if s[i].attrs != base then (s, InvalidParameter)
      else if append then (s[i := s[i].(data := s[i].data + data)], Success)
      else if data == [] then (s[..i] + s[i + 1..], Success)
      else (s[i := s[i].(data := data)], Success)
    case None =>
      if data == [] then (s, if append then Success else NotFound)
      else (s + [Variable(key, base, data)], Success)
  }

  datatype ResetType = Cold | Warm | Shutdown

  /** The calls to firmware that can have a lasting effect, in order. */
  datatype Event =
    | SetVariable(v: Variable)
    | SetRefused(key: Key, rc: Status)
    | QueryCapabilities(count: nat)
    | UpdateCapsule(headers: seq<nat>, payload: Option<seq<seq<uint8>>>)
    | ResetSystem(kind: ResetType)

  type EfiTime = t: seq<uint8> | |t| == 16 witness seq(16, _ => 0)

  /** An error of the variable device itself. */
  type ReadFault = e: Error | e != NotFound && e != BufferTooSmall witness Other(7)

  /** Firmware during one boot. The constants are its unknown answers, indexed by call. */
  class Firmware {
    const setStatus: nat -> Status
    const clock: nat -> Option<EfiTime>
    const poolFull: nat -> bool
    const readFault: nat -> Option<ReadFault>
    const query: Option<ResetType>
    // What UpdateCapsule returns; None if it resets the machine instead.
    const updateStatus: Option<Status>

    var vars: Store
    var sets: nat
    var ticks: nat
    var pools: nat
    var gets: nat
    var trace: seq<Event>
    // How many writes the device refused; how many pool allocations and variable reads failed.
    ghost var refused: nat
    ghost var faults: nat

    constructor (vars: Store, setStatus: nat -> Status, clock: nat -> Option<EfiTime>, poolFull: nat -> bool,
                 readFault: nat -> Option<ReadFault>, query: Option<ResetType>, updateStatus: Option<Status>)
      ensures this.vars == vars && trace == [] && refused == 0 && faults == 0
      ensures this.setStatus == setStatus && this.clock == clock && this.poolFull == poolFull
      ensures this.readFault == readFault
      ensures this.query == query && this.updateStatus == updateStatus
    {
      this.vars, this.setStatus, this.clock, this.poolFull := vars, setStatus, clock, poolFull;
      this.readFault, this.query, this.updateStatus := readFault, query, updateStatus;
      sets, ticks, pools, gets, trace, refused, faults := 0, 0, 0, 0, [], 0, 0;
    }

    /** No read from the g-th on, and no pool allocation from the q-th on, has failed so far. */
    ghost predicate Clean(g: nat, q: nat)
      reads `gets, `pools
    {
      && g <= gets && q <= pools
      && (forall i :: g <= i < gets ==> readFault(i).None?)
      && forall i :: q <= i < pools ==> !poolFull(i)
    }

    /** rc reports a fault since the read g and the allocation q: a full pool, or what a read failed with. */
    ghost predicate Blames(rc: Status, g: nat, q: nat)
      reads `gets, `pools
    {
      || (rc == OutOfResources && exists i :: q <= i < pools && poolFull(i))
      || exists i :: g <= i < gets && readFault(i).Some? && readFault(i).value == rc
    }

    /** A full pool is reported as such, and an error of the device as it is. */
    lemma BlamesIff(rc: Status, g: nat, q: nat)
      ensures Blames(rc, g, q) <==>
                || (rc == OutOfResources && exists i :: q <= i < pools && poolFull(i))
                || exists i :: g <= i < gets && readFault(i) == Some(rc)
    {
    }

    /** A fault since then is one since any earlier time. */
    lemma BlamesEarlier(rc: Status, g: nat, q: nat, g': nat, q': nat)
      requires Blames(rc, g', q') && g <= g' && q <= q'
      ensures Blames(rc, g, q)
    {
    }

    lemma CleanEarlier(g: nat, q: nat)
      requires Clean(g, q + 1) && !poolFull(q)
      ensures Clean(g, q)
    {
    }

    /** A name of UTF-16 units with its NUL, in bytes. */
    static function NameBytes(name: String16): nat {
      2 * (|name| + 1)
    }

    /** The variable after the one named by the cursor; the empty name stands before the first one. */
    method GetNextVariableName(size: nat, cursor: Key) returns (rc: Status, next: Key)
      requires ValidStore(vars)
      modifies `gets, `faults
      ensures gets == old(gets) + 1
      ensures rc.IsError() ==> next == cursor
      ensures readFault(old(gets)).Some? ==> rc == readFault(old(gets)).value && faults == old(faults) + 1
      ensures readFault(old(gets)).None? ==> faults == old(faults)
      ensures readFault(old(gets)).None? && cursor.name != [] && Find(vars, cursor).None? ==> rc == InvalidParameter
      ensures readFault(old(gets)).None? && (cursor.name == [] || Find(vars, cursor).Some?) ==>
                var i := if cursor.name == [] then 0 else Find(vars, cursor).value + 1;
                if i == |vars| then rc == NotFound
                else if NameBytes(vars[i].key.name) > size then rc == BufferTooSmall
                else rc == Success && next == vars[i].key
    {
      next := cursor;
      var fault := readFault(gets);
      gets := gets + 1;
      if fault.Some? {
        faults := faults + 1;
        return fault.value, next;
      }
      var i := 0;
      if cursor.name != [] {
        var at := Find(vars, cursor);
        if at.None? {
          return InvalidParameter, next;
        }
        i := at.value + 1;
      }
      if i == |vars| {
        return NotFound, next;
      }
      if NameBytes(vars[i].key.name) > size {
        return BufferTooSmall, next;
      }
      return Success, vars[i].key;
    }

    method GetVariable(key: Key, size: nat, buf: array?<uint8>) returns (rc: Status, attrs: nat, needed: nat)
      requires if buf == null then size == 0 else size <= buf.Length
      modifies `gets, `faults, buf
      ensures gets == old(gets) + 1
      ensures readFault(old(gets)).Some? ==> rc == readFault(old(gets)).value && faults == old(faults) + 1
      ensures readFault(old(gets)).None? ==>
                && faults == old(faults)
                && match Find(vars, key)
                   case None => rc == NotFound
                   case Some(i) =>
                     var v := vars[i];
                     && needed == |v.data|
                     && if size < |v.data| then rc == BufferTooSmall
                        else rc == Success && attrs == v.attrs && (buf != null ==> buf[..|v.data|] == v.data)
    {
      attrs, needed := 0, 0;
      var fault := readFault(gets);
      gets := gets + 1;
      if fault.Some? {
        faults := faults + 1;
        return fault.value, attrs, needed;
      }
      var at := Find(vars, key);
      if at.None? {
        return NotFound, attrs, needed;
      }
      var v := vars[at.value];
      needed := |v.data|;
      if size < |v.data| {
        return BufferTooSmall, attrs, needed;
      }
      forall i | 0 <= i < |v.data| {
        buf[i] := v.data[i];
      }
      return Success, v.attrs, needed;
    }

    method SetVariable(key: Key, data: seq<uint8>, attrs: nat) returns (rc: Status)
      modifies `vars, `sets, `trace, `refused
      ensures sets == old(sets) + 1
      ensures var device := setStatus(old(sets));
              var (s, status) := Set(old(vars), key, data, attrs);
              if device.IsError() then
                && rc == device && vars == old(vars) && refused == old(refused) + 1
                && trace == old(trace) + [SetRefused(key, rc)]
              else
                && refused == old(refused) && vars == s
                && (rc.IsError() <==> status.IsError())
                && trace == old(trace) +
                     [if rc.IsError() then SetRefused(key, rc) else Event.SetVariable(Variable(key, attrs, data))]
    {
      var device := setStatus(sets);
      sets := sets + 1;
      if device.IsError() {
        refused := refused + 1;
        trace := trace + [SetRefused(key, device)];
        return device;
      }
      var (s, status) := Set(vars, key, data, attrs);
      vars := s;
      rc := if status.IsError() then status else device;
      trace := trace + [if rc.IsError() then SetRefused(key, rc) else Event.SetVariable(Variable(key, attrs, data))];
    }

    method AllocatePool() returns (ok: bool)
      modifies `pools, `faults
      ensures pools == old(pools) + 1
      ensures faults == old(faults) + if ok then 0 else 1
      ensures ok <==> !poolFull(old(pools))
      ensures !ok ==> Blames(OutOfResources, gets, old(pools))
    {
      ok := !poolFull(pools);
      pools := pools + 1;
      faults := faults + if ok then 0 else 1;
    }

    /** GetTime into the sixteen bytes of buf from at; a clock that fails leaves them alone. */
    method GetTime(buf: array<uint8>, at: nat)
      requires at + 16 <= buf.Length
      modifies `ticks, buf
      ensures buf[..] == match clock(old(ticks)) case Some(t) => Patch(old(buf[..]), at, t) case None => old(buf[..])
    {
      var t := clock(ticks);
      ticks := ticks + 1;
      if t.Some? {
        forall i | 0 <= i < 16 {
          buf[at + i] := t.value[i];
        }
      }
    }

    method QueryCapsuleCapabilities(capsules: array<nat>, count: nat) returns (ok: bool, reset: ResetType)
      modifies `trace
      ensures trace == old(trace) + [QueryCapabilities(count)]
      ensures ok == query.Some? && (ok ==> reset == query.value)
    {
      trace := trace + [QueryCapabilities(count)];
      ok := query.Some?;
      reset := if ok then query.value else Cold;
    }

    /** The list at address cbd leads to exactly blobs, and so do the header pointers. */
    static ghost predicate Carries(capsules: array<nat>, count: nat, cbd: nat, mem: Pages, blobs: seq<seq<uint8>>)
      requires count <= capsules.Length
      reads capsules, mem, set a | a in mem.live :: mem.live[a].data
    {
      var list := ListAt(mem.live, cbd);
      && |blobs| <= |list| && BlockWalk(list, 0) == Some(list[..|blobs|])
      && Describes(list[..|blobs|], capsules[..count], mem.live, blobs)
    }

    /**
     * Firmware follows the descriptor list at address cbd and takes a copy of every block before anything else happens.
     * If the list is one that describes blobs, that is what firmware gets.
     */
    method UpdateCapsule(capsules: array<nat>, count: nat, cbd: nat, mem: Pages, ghost blobs: seq<seq<uint8>>)
      returns (rc: Option<Status>)
      requires count <= capsules.Length && mem.Valid()
      modifies `trace
      ensures rc == updateStatus
      ensures |trace| == |old(trace)| + 1 && old(trace) <= trace
      ensures trace[|old(trace)|].UpdateCapsule? && trace[|old(trace)|].headers == capsules[..count]
      ensures old(Carries(capsules, count, cbd, mem, blobs)) ==>
                trace == old(trace) + [Event.UpdateCapsule(capsules[..count], Some(blobs))]
    {
      var list := BlockWalk(ListAt(mem.live, cbd), 0);
      var payload := None;
      if list.Some? {
        payload := Collect(list.value, mem, capsules[..count], blobs);
      }
      trace := trace + [Event.UpdateCapsule(capsules[..count], payload)];
      return updateStatus;
    }

    /** The bytes of each data block, unless one of them is not in memory. */
    method Collect(list: seq<Descriptor>, mem: Pages, ghost headers: seq<nat>, ghost blobs: seq<seq<uint8>>)
      returns (payload: Option<seq<seq<uint8>>>)
      requires mem.Valid()
      ensures |blobs| == |list| && Describes(list, headers, mem.live, blobs) ==> payload == Some(blobs)
    {
      var taken: seq<seq<uint8>> := [];
      ghost var described := |blobs| == |list| && Describes(list, headers, mem.live, blobs);
      forall k | 0 <= k < |list| && described
        ensures list[k] == Descriptor(|blobs[k]|, headers[k]) && Holds(mem.live, list[k].pointer, blobs[k])
      {
        assert Holds(mem.live, headers[k], blobs[k]);
      }
      for k := 0 to |list|
        invariant |taken| == k && (described ==> taken == blobs[..k])
      {
        var d := list[k];
        if d.pointer !in mem.live || d.length > mem.live[d.pointer].data.Length {
          return None;
        }
        taken := taken + [mem.live[d.pointer].data[..d.length]];
      }
      assert described ==> blobs[..|list|] == blobs;
      return Some(taken);
    }

    method ResetSystem(kind: ResetType)
      modifies `trace
      ensures trace == old(trace) + [Event.ResetSystem(kind)]
    {
      trace := trace + [Event.ResetSystem(kind)];
    }
  }

  /** What fwup_get_variable hands back. */
  datatype Fetched = Fetched(buf: array<uint8>, size: nat, attrs: nat)

  /** fwup_get_variable: ask for the size, allocate, read. It never hands back part of a variable. */
  method FetchVariable(rt: Firmware, key: Key) returns (r: Result<Fetched>)
    modifies rt`pools, rt`gets, rt`faults
    ensures rt.faults >= old(rt.faults)
    ensures r.Ok? ==>
              && rt.faults == old(rt.faults) && rt.Clean(old(rt.gets), old(rt.pools)) && rt.pools == old(rt.pools) + 1
              && Find(rt.vars, key).Some?
              && var v := rt.vars[Find(rt.vars, key).value];
                 && v.data != []
                 && fresh(r.value.buf) && r.value.buf[..] == v.data
                 && r.value.size == |v.data| && r.value.attrs == v.attrs
    ensures rt.gets >= old(rt.gets) && rt.pools >= old(rt.pools)
    ensures r.Err? && rt.faults != old(rt.faults) ==> rt.Blames(r.error, old(rt.gets), old(rt.pools))
    ensures r.Err? && rt.faults == old(rt.faults) ==>
              match Find(rt.vars, key)
              case None => r.error == NotFound
              case Some(i) => r.error == InvalidParameter && rt.vars[i].data == []
  {
    hide Find;
    var buf: array?<uint8> := null;
    var rc, attrs, size := rt.GetVariable(key, 0, null);
    if rc.IsError() {
      if rc == BufferTooSmall {
        var ok := rt.AllocatePool();
        if !ok {
          return Err(OutOfResources);
        }
        buf := new uint8[size];
      } else if rc != NotFound {
        return Err(rc);
      }
    } else {
      return Err(InvalidParameter);
    }
    rc, attrs, size := rt.GetVariable(key, if buf == null then 0 else size, buf);
    if rc.IsError() {
      return Err(rc);
    }
    return Ok(Fetched(buf, size, attrs));
  }
}

// FWUP_UPDATE_INFO: parsing a stored update and marking it attempted.
module UpdateInfo {
  import opened Efi
  import opened DevicePath
  import opened Capsule
  import opened Runtime

  const STRUCT_SIZE := 56
  const TIME_OFFSET := 32
  const STATUS_OFFSET := 48
  const ATTEMPTED: uint32 := 2

  /** The variable is larger than 60 bytes and its device path fills exactly the tail from byte 52. */
  predicate WellFormed(data: seq<uint8>) {
    |data| > STRUCT_SIZE + 4 && ValidPath(data, DP_OFFSET, |data| - DP_OFFSET)
  }

  /** status & FWUPDATE_ATTEMPT_UPDATE */
  predicate AttemptBit(data: seq<uint8>) {
    |data| >= DP_OFFSET && U32(data, STATUS_OFFSET) % 2 == 1
  }

  /** The attempt bit is the lowest bit of one byte. */
  lemma AttemptByte(data: seq<uint8>)
    requires |data| >= DP_OFFSET
    ensures AttemptBit(data) <==> data[48] % 2 == 1
  {
  }

  /** Only the time and the status differ, and the status is ATTEMPTED. */
  predicate Marked(before: seq<uint8>, after: seq<uint8>) {
    && |after| == |before| >= DP_OFFSET
    && U32(after, STATUS_OFFSET) == ATTEMPTED
    && forall i :: 0 <= i < |before| && !(TIME_OFFSET <= i < DP_OFFSET) ==> after[i] == before[i]
  }

  /** A marked update keeps its GUID, flags and device path, parses again, and no longer asks to be attempted. */
  lemma MarkedStaysWellFormed(before: seq<uint8>, after: seq<uint8>)
    requires WellFormed(before) && Marked(before, after)
    ensures WellFormed(after) && !AttemptBit(after)
    ensures InfoGuid(after) == InfoGuid(before) && InfoFlags(after) == InfoFlags(before)
    ensures after[DP_OFFSET..] == before[DP_OFFSET..]
  {
    PathLocal(before, DP_OFFSET, after, DP_OFFSET, |before| - DP_OFFSET);
  }

  /** Marking does not repair or break anything: the parse verdict is unchanged. */
  lemma MarkedKeepsVerdict(before: seq<uint8>, after: seq<uint8>)
    requires Marked(before, after)
    ensures WellFormed(before) <==> WellFormed(after)
  {
    if WellFormed(before) {
      PathLocal(before, DP_OFFSET, after, DP_OFFSET, |before| - DP_OFFSET);
    }
    if WellFormed(after) {
      PathLocal(after, DP_OFFSET, before, DP_OFFSET, |before| - DP_OFFSET);
    }
  }

  /** Marking an update changes nothing about the capsule that is built from it, or the error of building it. */
  lemma MarkedKeepsOutcome(p: Platform, before: seq<uint8>, after: seq<uint8>, r: Result<seq<uint8>>)
    requires p.Valid() && Marked(before, after)
    ensures CapsuleOutcome(p, before, r) <==> CapsuleOutcome(p, after, r)
  {
    assert InfoGuid(after) == InfoGuid(before) && InfoFlags(after) == InfoFlags(before);
    if CapsuleOutcome(p, before, r) {
      OutcomeLocal(p, before, after, r);
    }
    if CapsuleOutcome(p, after, r) {
      OutcomeLocal(p, after, before, r);
    }
  }

  /** FWUP_UPDATE_TABLE, zeroed when it is allocated. */
  class UpdateEntry {
    var name: String16
    var attrs: nat
    var size: nat
    var info: array?<uint8>

    constructor ()
      ensures name == [] && attrs == 0 && size == 0 && info == null
    {
      name, attrs, size, info := [], 0, 0, null;
    }

    /** The variable that this entry would store. */
    ghost function Value(): Variable
      requires info != null
      reads this, info
    {
      Variable(Key(name, FWUPDATE_GUID), attrs, info[..])
    }
  }

  /** The measured size equals the room behind the header exactly when the path is valid. */
  lemma SizeIsVerdict(data: seq<uint8>, sz: int)
    requires |data| >= DP_OFFSET && sz == PathSize(data, DP_OFFSET, |data| - DP_OFFSET)
    ensures sz == |data| - DP_OFFSET && sz >= 0 <==> ValidPath(data, DP_OFFSET, |data| - DP_OFFSET)
  {
    if ValidPath(data, DP_OFFSET, |data| - DP_OFFSET) {
      PathSizeStable(data, DP_OFFSET, |data| - DP_OFFSET, |data| - DP_OFFSET);
    }
  }

  /** Absent faults, the update parses exactly when it is stored and well formed, and the entry is its copy. */
  method PopulateUpdateInfo(rt: Firmware, name: String16, entry: UpdateEntry) returns (rc: Status)
    modifies entry, rt`pools, rt`gets, rt`faults
    ensures rt.faults >= old(rt.faults) && (rc.IsError() || rc == Success)
    ensures rc == Success ==>
              && rt.faults == old(rt.faults) && rt.Clean(old(rt.gets), old(rt.pools)) && rt.pools == old(rt.pools) + 2
              && var i := Find(rt.vars, Key(name, FWUPDATE_GUID));
                 && i.Some? && WellFormed(rt.vars[i.value].data)
                 && entry.info != null && fresh(entry.info) && entry.info.Length > STRUCT_SIZE + 4
                 && entry.Value() == rt.vars[i.value] && entry.size == |rt.vars[i.value].data|
    ensures rt.gets >= old(rt.gets) && rt.pools >= old(rt.pools)
    ensures rc.IsError() && rt.faults != old(rt.faults) ==> rt.Blames(rc, old(rt.gets), old(rt.pools))
    ensures rc.IsError() && rt.faults == old(rt.faults) ==>
              match Find(rt.vars, Key(name, FWUPDATE_GUID))
              case None => rc == NotFound
              case Some(i) => rc == InvalidParameter && !WellFormed(rt.vars[i].data)
  {
    hide Find, ValidPath;
    var fetched := FetchVariable(rt, Key(name, FWUPDATE_GUID));
    if fetched.Err? {
      return fetched.error;
    }
    var Fetched(info, infoSize, attrs) := fetched.value;
    if infoSize < STRUCT_SIZE {
      return InvalidParameter;
    }
    if infoSize - 4 <= STRUCT_SIZE {
      return InvalidParameter;
    }
    var room := infoSize - DP_OFFSET;
    var sz := DpSize(info, DP_OFFSET, room);
    SizeIsVerdict(info[..], sz);
    if sz < 0 || room > infoSize || room != sz {
      return InvalidParameter;
    }
    entry.info := info;
    entry.size := infoSize;
    entry.attrs := attrs;
    var ok := rt.AllocatePool();
    if !ok {
      return OutOfResources;
    }
    entry.name := name;
    return Success;
  }

  /** The in-place update of a selected entry: the time of the attempt, then the status. */
  method MarkAttempted(rt: Firmware, info: array<uint8>)
    requires info.Length >= DP_OFFSET
    modifies rt`ticks, info
    ensures Marked(old(info[..]), info[..])
    ensures info[TIME_OFFSET..STATUS_OFFSET] ==
              match rt.clock(old(rt.ticks)) case Some(t) => t case None => old(info[TIME_OFFSET..STATUS_OFFSET])
  {
    rt.GetTime(info, TIME_OFFSET);
    WriteWord(info, STATUS_OFFSET, ATTEMPTED);
  }
}

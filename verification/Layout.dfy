// The packed structures of efi/fwup-efi.h and of the UEFI Specification, written down field by field, and what the
// accessors of the other modules read from them.
module Layout {
  import opened Efi
  import opened DevicePath
  import opened Capsule
  import opened Runtime
  import opened DebugLog
  import opened UpdateInfo

  /** The two GUIDs as they lie in memory. */
  lemma GuidBytes()
    ensures FWUPDATE_GUID ==
              [0xdc, 0xa7, 0xbb, 0x0a, 0x16, 0xe5, 0x67, 0x41, 0xbb, 0xf5, 0x4d, 0x9d, 0x1c, 0x73, 0x94, 0x16]
    ensures UX_CAPSULE_GUID ==
              [0x62, 0x81, 0x8c, 0x3b, 0x8c, 0x18, 0xa4, 0x46, 0xae, 0xc9, 0xbe, 0x43, 0xf1, 0xd6, 0x56, 0x97]
  {
  }

  /** FWUP_UPDATE_INFO; path is what follows the fixed part. */
  datatype Info = Info(version: uint32, guid: seq<uint8>, flags: uint32, hwInst: nat, time: seq<uint8>, status: uint32,
                       path: seq<uint8>)
  {
    predicate Valid() {
      |guid| == 16 && hwInst < WORD64 && |time| == 16
    }

    function Bytes(): (b: seq<uint8>)
      requires Valid()
      ensures |b| == 52 + |path|
    {
      Bytes32(version) + guid + Bytes32(flags) + Bytes64(hwInst) + time + Bytes32(status) + path
    }
  }

  /** Reading fields out of a stored update: every sequence of at least 52 bytes is one. */
  function ParseInfo(b: seq<uint8>): (i: Info)
    requires |b| >= 52
    ensures i.Valid()
  {
    Info(U32(b, 0), b[4..20], U32(b, 20), U64(b, 24), b[32..48], U32(b, 48), b[52..])
  }

  lemma ParsedInfo(b: seq<uint8>)
    requires |b| >= 52
    ensures ParseInfo(b).Bytes() == b
  {
    hide U32, U64, Bytes32, Bytes64;
    WrittenBack32(b, 0);
    WrittenBack32(b, 20);
    WrittenBack64(b, 24);
    WrittenBack32(b, 48);
    assert b == b[0..0 + 4] + b[4..20] + b[20..20 + 4] + b[24..24 + 8] + b[32..48] + b[48..48 + 4] + b[52..];
  }

  lemma WordAt(b: seq<uint8>, at: nat, v: uint32)
    requires at + 4 <= |b| && b[at..at + 4] == Bytes32(v)
    ensures U32(b, at) == v
  {
    var w := b[at..at + 4];
    assert w[0] == b[at] && w[1] == b[at + 1] && w[2] == b[at + 2] && w[3] == b[at + 3];
    assert U32(w, 0) == U32(b, at);
  }

  lemma LongAt(b: seq<uint8>, at: nat, v: nat)
    requires at + 8 <= |b| && v < WORD64 && b[at..at + 8] == Bytes64(v)
    ensures U64(b, at) == v
  {
    var w := b[at..at + 8];
    assert w[0] == b[at] && w[1] == b[at + 1] && w[2] == b[at + 2] && w[3] == b[at + 3];
    assert w[4] == b[at + 4] && w[5] == b[at + 5] && w[6] == b[at + 6] && w[7] == b[at + 7];
    assert U32(w, 0) == U32(b, at) && U32(w, 4) == U32(b, at + 4);
  }

  lemma InfoParsed(i: Info)
    requires i.Valid()
    ensures ParseInfo(i.Bytes()) == i
  {
    var b := i.Bytes();
    hide Bytes32, Bytes64;
    WordAt(b, 0, i.version);
    WordAt(b, 20, i.flags);
    LongAt(b, 24, i.hwInst);
    WordAt(b, 48, i.status);
  }

  /** What the program reads from an update are its fields. */
  lemma InfoFields(i: Info)
    requires i.Valid()
    ensures var b := i.Bytes();
            && InfoGuid(b) == i.guid && InfoFlags(b) == i.flags
            && (IsUx(b) <==> i.guid == UX_CAPSULE_GUID)
            && (AttemptBit(b) <==> i.status % 2 == 1)
            && b[DP_OFFSET..] == i.path
  {
    InfoParsed(i);
  }

  /** An update is well formed exactly when more than 8 bytes follow the fixed part, and they are a device path. */
  lemma WellFormedIff(i: Info)
    requires i.Valid()
    ensures WellFormed(i.Bytes()) <==> |i.path| > 8 && exists ns :: Sentence(ns) && Encode(ns) == i.path
  {
    var b := i.Bytes();
    ValidIffSentence(b, 52, |b| - 52);
    assert b[52..52 + (|b| - 52)] == i.path;
  }

  lemma SameOutside(i: Info, j: Info)
    requires i.Valid() && j.Valid() && j == i.(time := j.time, status := 2)
    ensures Marked(i.Bytes(), j.Bytes())
  {
    hide Bytes32, Bytes64;
    var head := Bytes32(i.version) + i.guid + Bytes32(i.flags) + Bytes64(i.hwInst);
    assert i.Bytes() == head + i.time + Bytes32(i.status) + i.path;
    assert j.Bytes() == head + j.time + Bytes32(2) + i.path;
    WordAt(j.Bytes(), 48, 2);
  }

  /** Marking sets the status to FWUPDATE_ATTEMPTED, 2, and the time, and changes no other field. */
  lemma MarkedIff(i: Info, after: seq<uint8>)
    requires i.Valid()
    ensures Marked(i.Bytes(), after) <==>
              |after| >= 52 && var j := ParseInfo(after); j == i.(time := j.time, status := 2)
  {
    var b := i.Bytes();
    InfoParsed(i);
    if Marked(b, after) {
      assert after[4..20] == b[4..20] && after[52..] == b[52..];
      assert U32(after, 0) == U32(b, 0) && U32(after, 20) == U32(b, 20);
      assert U32(after, 24) == U32(b, 24) && U32(after, 28) == U32(b, 28);
    }
    if |after| >= 52 && ParseInfo(after) == i.(time := ParseInfo(after).time, status := 2) {
      ParsedInfo(after);
      SameOutside(i, ParseInfo(after));
    }
  }

  /** EFI_CAPSULE_HEADER. */
  datatype CapsuleHeader = CapsuleHeader(guid: seq<uint8>, headerSize: uint32, flags: uint32, imageSize: uint32)
  {
    function Bytes(): (b: seq<uint8>)
      requires |guid| == 16
      ensures |b| == 28
    {
      guid + Bytes32(headerSize) + Bytes32(flags) + Bytes32(imageSize)
    }
  }

  lemma CapsuleFields(h: CapsuleHeader, body: seq<uint8>)
    requires |h.guid| == 16
    ensures var b := h.Bytes() + body;
            && HeaderSize(b) == h.headerSize && Flags(b) == h.flags && ImageSize(b) == h.imageSize
  {
    hide Bytes32;
    var b := h.Bytes() + body;
    WordAt(b, 16, h.headerSize);
    WordAt(b, 20, h.flags);
    WordAt(b, 24, h.imageSize);
  }

  /** UX_CAPSULE_HEADER. */
  datatype UxHeader = UxHeader(version: uint8, checksum: uint8, imageType: uint8, reserved: uint8, mode: uint32,
                               x: uint32, y: uint32)
  {
    function Bytes(): (b: seq<uint8>)
      ensures |b| == 16
    {
      [version, checksum, imageType, reserved] + Bytes32(mode) + Bytes32(x) + Bytes32(y)
    }
  }

  function ByteSum(b: seq<uint8>): nat {
    if b == [] then 0 else ByteSum(b[..|b| - 1]) + b[|b| - 1]
  }

  lemma {:induction false} SumIsByteSum(b: seq<uint8>, lo: nat, hi: nat)
    requires lo <= hi <= |b|
    ensures Sum(b, lo, hi) == ByteSum(b[lo..hi])
    decreases hi
  {
    if lo < hi {
      SumIsByteSum(b, lo, hi - 1);
      assert b[lo..hi][..hi - lo - 1] == b[lo..hi - 1];
    }
  }

  lemma ClearedHeader(b: seq<uint8>, h: nat, u: UxHeader, mode: uint32)
    requires h + 16 <= |b| && b[h..h + 16] == u.Bytes()
    ensures var c := Patch(b, h + 4, Bytes32(mode))[h + 1 := 0];
            var cleared := u.(mode := mode, checksum := 0);
            c == b[..h] + cleared.Bytes() + b[h + 16..] && c[h..h + 16] == cleared.Bytes()
  {
    hide Bytes32, Patch;
    var c := Patch(b, h + 4, Bytes32(mode))[h + 1 := 0];
    var e := u.(mode := mode, checksum := 0).Bytes();
    assert b == b[..h] + u.Bytes() + b[h + 16..];
    forall i | 0 <= i < |b|
      ensures c[i] == (b[..h] + e + b[h + 16..])[i]
    {
      if h <= i < h + 16 {
        assert b[i] == u.Bytes()[i - h];
      }
    }
    assert c == b[..h] + e + b[h + 16..];
  }

  /**
   * Patching a UX capsule sets the mode of the UX header, and its checksum so that it is the sum, modulo 256, of the
   * whole header with the checksum taken as zero. It changes nothing before the header or behind it.
   */
  lemma UxPatchedFields(b: seq<uint8>, u: UxHeader, mode: uint32)
    requires |b| >= 28 && HeaderSize(b) + 16 <= |b| && b[HeaderSize(b)..HeaderSize(b) + 16] == u.Bytes()
    ensures var h := HeaderSize(b);
            var cleared := u.(mode := mode, checksum := 0);
            UxPatched(b, mode) ==
              b[..h] + cleared.(checksum := ByteSum(cleared.Bytes()) % 0x100).Bytes() + b[h + 16..]
  {
    hide Bytes32, HeaderSize, Sum, ByteSum, Checksum, Checksummed;
    var h: nat := HeaderSize(b);
    var cleared := u.(mode := mode, checksum := 0);
    var d := Patch(b, h + 4, Bytes32(mode));
    var c := d[h + 1 := 0];
    ClearedHeader(b, h, u, mode);
    ChecksumStored(d, c, h);
    SumIsByteSum(c, h, h + 16);
    var sum: uint8 := ByteSum(cleared.Bytes()) % 0x100;
    assert cleared.(checksum := sum).Bytes() == cleared.Bytes()[1 := sum];
    assert c[h + 1 := sum] == b[..h] + cleared.(checksum := sum).Bytes() + b[h + 16..];
  }

  /** The log variable is FWUPDATE_DEBUG_LOG of fwupd, NON_VOLATILE (1), BOOTSERVICE_ACCESS (2), RUNTIME_ACCESS (4). */
  lemma LogVariable(s: Store)
    ensures LOG_KEY == Key(Wide("FWUPDATE_DEBUG_LOG"), FWUPDATE_GUID)
    ensures LogUsable(s) <==>
              match Find(s, Key(Wide("FWUPDATE_DEBUG_LOG"), FWUPDATE_GUID))
              case None => true
              case Some(i) => s[i].attrs == 1 + 2 + 4 && s[i].data != []
    ensures LogData(s) ==
              var i := Find(s, Key(Wide("FWUPDATE_DEBUG_LOG"), FWUPDATE_GUID));
              if i.None? then None else Some(s[i.value].data)
    ensures LogForeign(s) <==>
              match Find(s, Key(Wide("FWUPDATE_DEBUG_LOG"), FWUPDATE_GUID))
              case None => false
              case Some(i) => s[i].attrs != 1 + 2 + 4 && s[i].data != []
  {
  }
}

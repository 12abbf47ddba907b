// Building one capsule from an update: the UX payload patch, the size checks, the Flags word and the
// block descriptor list handed to UpdateCapsule (section 8.5.3 of the UEFI Specification 2.10).
module Capsule {
  import opened Efi
  import opened DevicePath
  import opened PageMemory
  import opened FileReader
  import opened FileSearch
  import opened Descriptors

  const CAPSULE_HEADER_SIZE := 28
  const UX_HEADER_SIZE := 16

  // FWUP_UPDATE_INFO is packed: its device path begins at byte 52.
  const DP_OFFSET := 52

  const UX_CAPSULE_GUID := Guid(0x3b8c8162, 0x188c, 0x46a4, [0xae, 0xc9, 0xbe, 0x43, 0xf1, 0xd6, 0x56, 0x97])

  // Fields of EFI_CAPSULE_HEADER at the start of b.

  function HeaderSize(b: seq<uint8>): uint32
    requires |b| >= CAPSULE_HEADER_SIZE
  {
    U32(b, 16)
  }

  function Flags(b: seq<uint8>): uint32
    requires |b| >= CAPSULE_HEADER_SIZE
  {
    U32(b, 20)
  }

  function ImageSize(b: seq<uint8>): uint32
    requires |b| >= CAPSULE_HEADER_SIZE
  {
    U32(b, 24)
  }

  // Fields of FWUP_UPDATE_INFO.

  function InfoGuid(info: seq<uint8>): seq<uint8>
    requires |info| >= DP_OFFSET
  {
    info[4..20]
  }

  function InfoFlags(info: seq<uint8>): uint32
    requires |info| >= DP_OFFSET
  {
    U32(info, 20)
  }

  predicate IsUx(info: seq<uint8>)
    requires |info| >= DP_OFFSET
  {
    InfoGuid(info) == UX_CAPSULE_GUID
  }

  // ---- checksum of the UX payload header ----------------------------------------------------

  /** The sum of the bytes from lo to hi. */
  function Sum(b: seq<uint8>, lo: nat, hi: nat): nat
    requires hi <= |b|
    decreases hi
  {
    if hi <= lo then 0 else Sum(b, lo, hi - 1) + b[hi - 1]
  }

  lemma {:induction false} SumLocal(b: seq<uint8>, c: seq<uint8>, lo: nat, hi: nat)
    requires hi <= |b| && hi <= |c| && forall i :: lo <= i < hi ==> b[i] == c[i]
    ensures Sum(b, lo, hi) == Sum(c, lo, hi)
    decreases hi
  {
    if lo < hi {
      SumLocal(b, c, lo, hi - 1);
    }
  }

  lemma {:induction false} SumSplit(b: seq<uint8>, lo: nat, mid: nat, hi: nat)
    requires lo <= mid <= hi <= |b|
    ensures Sum(b, lo, hi) == Sum(b, lo, mid) + Sum(b, mid, hi)
    decreases hi
  {
    if mid < hi {
      SumSplit(b, lo, mid, hi - 1);
    }
  }

  /** The checksum of the UX header at at: the other fifteen bytes, modulo 256. */
  function Checksum(b: seq<uint8>, at: nat): uint8
    requires at + UX_HEADER_SIZE <= |b|
  {
    (b[at] + Sum(b, at + 2, at + UX_HEADER_SIZE)) % 0x100
  }

  /** With its checksum byte cleared, the whole header sums to the sum of the other fifteen bytes. */
  lemma ClearedSum(b: seq<uint8>, at: nat)
    requires at + UX_HEADER_SIZE <= |b| && b[at + 1] == 0
    ensures Sum(b, at, at + UX_HEADER_SIZE) == b[at] + Sum(b, at + 2, at + UX_HEADER_SIZE)
  {
    SumSplit(b, at, at + 2, at + UX_HEADER_SIZE);
    assert Sum(b, at, at + 1) == b[at];
  }

  function Checksummed(b: seq<uint8>, at: nat): seq<uint8>
    requires at + UX_HEADER_SIZE <= |b|
  {
    Patch(b, at + 1, [Checksum(b, at)])
  }

  /** The checksum does not depend on the checksum byte, so writing it twice changes nothing more. */
  lemma ChecksumIdempotent(b: seq<uint8>, at: nat)
    requires at + UX_HEADER_SIZE <= |b|
    ensures Checksum(Checksummed(b, at), at) == Checksum(b, at)
    ensures Checksummed(Checksummed(b, at), at) == Checksummed(b, at)
  {
    SumLocal(b, Checksummed(b, at), at + 2, at + UX_HEADER_SIZE);
  }

  lemma EmptySum(b: seq<uint8>, at: nat)
    requires at <= |b|
    ensures Sum(b, at, at) == 0
  {
  }

  /** Summing modulo 256 step by step gives the sum modulo 256. */
  lemma SumStep(b: seq<uint8>, lo: nat, hi: nat)
    requires lo <= hi < |b|
    ensures (Sum(b, lo, hi) % 0x100 + b[hi] as int) % 0x100 == Sum(b, lo, hi + 1) % 0x100
  {
  }

  /** Clearing the checksum byte of a header, summing the header and storing the sum writes its checksum. */
  lemma ChecksumStored(before: seq<uint8>, cleared: seq<uint8>, at: nat)
    requires at + UX_HEADER_SIZE <= |before| && cleared == before[at + 1 := 0]
    ensures Sum(cleared, at, at + UX_HEADER_SIZE) % 0x100 == Checksum(before, at)
    ensures cleared[at + 1 := Checksum(before, at)] == Checksummed(before, at)
  {
    ClearedSum(cleared, at);
    SumLocal(before, cleared, at + 2, at + UX_HEADER_SIZE);
  }

  method UpdateUxChecksum(buf: array<uint8>, at: nat)
    requires at + UX_HEADER_SIZE <= buf.Length
    modifies buf
    ensures buf[..] == Checksummed(old(buf[..]), at)
  {
    hide Sum, Checksum, Checksummed;
    ghost var before := buf[..];
    var sum: uint8 := 0;
    buf[at + 1] := 0;
    ghost var cleared := buf[..];
    EmptySum(cleared, at);
    for i := 0 to UX_HEADER_SIZE
      invariant buf[..] == cleared
      invariant sum == Sum(cleared, at, at + i) % 0x100
    {
      SumStep(cleared, at, at + i);
      sum := (sum as int + buf[at + i] as int) % 0x100;
    }
    ChecksumStored(before, cleared, at);
    buf[at + 1] := sum;
  }

  // ---- fwup_check_gop_for_ux_capsule ---------------------------------------------------------

  /** HeaderSize + sizeof(UX_CAPSULE_HEADER) in UINTN arithmetic. */
  function PayloadEnd(header: uint32, word: nat): nat
    requires IsWord(word)
  {
    if header + UX_HEADER_SIZE >= word then header + UX_HEADER_SIZE - word else header + UX_HEADER_SIZE
  }

  /** None of the four header checks fails. */
  predicate UxHeaderOk(b: seq<uint8>, fsize: nat, word: nat)
    requires |b| >= CAPSULE_HEADER_SIZE && IsWord(word)
  {
    && HeaderSize(b) >= CAPSULE_HEADER_SIZE
    && ImageSize(b) >= HeaderSize(b)
    && ImageSize(b) - HeaderSize(b) >= UX_HEADER_SIZE
    && PayloadEnd(HeaderSize(b), word) <= fsize
  }

  /** The four checks pass exactly when the header is a header and the UX header fits the image and the file. */
  lemma UxHeaderIff(b: seq<uint8>, fsize: nat, word: nat)
    requires |b| >= CAPSULE_HEADER_SIZE && IsWord(word)
    ensures UxHeaderOk(b, fsize, word) <==>
              28 <= HeaderSize(b) && HeaderSize(b) + 16 <= ImageSize(b) && HeaderSize(b) + 16 <= fsize
  {
  }

  /**
   * The checks are enough at both word sizes: the end of the payload header does not wrap, and the payload
   * header lies after the capsule header and inside both the image and the file.
   */
  lemma UxPayloadInside(b: seq<uint8>, fsize: nat, word: nat)
    requires |b| >= CAPSULE_HEADER_SIZE && IsWord(word) && UxHeaderOk(b, fsize, word)
    ensures var h := HeaderSize(b);
            && PayloadEnd(h, word) == h + UX_HEADER_SIZE < word
            && CAPSULE_HEADER_SIZE <= h
            && h + UX_HEADER_SIZE <= ImageSize(b)
            && h + UX_HEADER_SIZE <= fsize
  {
  }

  /** The mode word and the checksum of the UX header are written. */
  function UxPatched(b: seq<uint8>, mode: uint32): seq<uint8>
    requires |b| >= CAPSULE_HEADER_SIZE && HeaderSize(b) + UX_HEADER_SIZE <= |b|
  {
    Checksummed(Patch(b, HeaderSize(b) + 4, Bytes32(mode)), HeaderSize(b))
  }

  /** Store a UINT32 field. */
  method WriteWord(buf: array<uint8>, at: nat, v: uint32)
    requires at + 4 <= buf.Length
    modifies buf
    ensures buf[..] == Patch(old(buf[..]), at, Bytes32(v))
  {
    var w := Bytes32(v);
    buf[at], buf[at + 1], buf[at + 2], buf[at + 3] := w[0], w[1], w[2], w[3];
  }

  /** gop is the mode fwup_get_gop_mode finds, None if no handle gives one. */
  method CheckGop(gop: Option<uint32>, buf: array<uint8>, fsize: nat, word: nat) returns (rc: Status)
    requires IsWord(word) && CAPSULE_HEADER_SIZE <= fsize <= buf.Length
    modifies buf
    ensures rc == if !UxHeaderOk(old(buf[..]), fsize, word) then InvalidParameter
                  else if gop.None? then Unsupported
                  else Success
    ensures rc != Success ==> buf[..] == old(buf[..])
    ensures rc == Success ==>
              && HeaderSize(old(buf[..])) + UX_HEADER_SIZE <= fsize
              && buf[..] == UxPatched(old(buf[..]), gop.value)
  {
    ghost var b := buf[..];
    var headerSize := U32(buf[..], 16);
    var imageSize := U32(buf[..], 24);
    if headerSize < CAPSULE_HEADER_SIZE || imageSize < headerSize || imageSize - headerSize < UX_HEADER_SIZE
       || PayloadEnd(headerSize, word) > fsize
    {
      return InvalidParameter;
    }
    assert headerSize == HeaderSize(b) && imageSize == ImageSize(b);
    UxPayloadInside(b, fsize, word);
    if gop.None? {
      return Unsupported;
    }
    WriteWord(buf, headerSize + 4, gop.value);
    UpdateUxChecksum(buf, headerSize);
    return Success;
  }

  // ---- fwup_add_update_capsule ---------------------------------------------------------------

  /** fwup_validate_capsule_size */
  function ValidateCapsuleSize(b: seq<uint8>, fsize: nat): Status
    requires |b| >= CAPSULE_HEADER_SIZE
  {
    if ImageSize(b) < CAPSULE_HEADER_SIZE || ImageSize(b) > fsize then InvalidParameter else Success
  }

  /** Everything outside the architecture and the environment that shapes a capsule. */
  datatype Platform = Platform(disk: Disk, gop: Option<uint32>, mask: uint32, word: nat)
  {
    predicate Valid() {
      IsWord(word)
    }
  }

  /** What becomes of the file of an update: the bytes to hand to firmware, or the error. */
  function Finished(p: Platform, info: seq<uint8>, file: seq<uint8>): Result<seq<uint8>>
    requires p.Valid() && |info| >= DP_OFFSET
  {
    if |file| < CAPSULE_HEADER_SIZE then Err(InvalidParameter)
    else if ValidateCapsuleSize(file, |file|).IsError() then Err(InvalidParameter)
    else if IsUx(info) then
      if !UxHeaderOk(file, |file|, p.word) || p.gop.None? then Err(Unsupported)
      else
        UxPayloadInside(file, |file|, p.word);
        Ok(UxPatched(file, p.gop.value))
    else if Flags(file) == 0 then Ok(Patch(file, 20, Bytes32(Or32(InfoFlags(info), p.mask))))
    else Ok(file)
  }

  /** What becomes of a file, case by case. */
  lemma FinishedCases(p: Platform, info: seq<uint8>, file: seq<uint8>)
    requires p.Valid() && |info| >= DP_OFFSET
    ensures |file| < 28 ==> Finished(p, info, file) == Err(InvalidParameter)
    ensures |file| >= 28 && !(28 <= ImageSize(file) <= |file|) ==> Finished(p, info, file) == Err(InvalidParameter)
    ensures |file| >= 28 && 28 <= ImageSize(file) <= |file| ==>
              var h := HeaderSize(file);
              var sound := 28 <= h && h + 16 <= ImageSize(file) && p.gop.Some?;
              if IsUx(info) && !sound then Finished(p, info, file) == Err(Unsupported) else Finished(p, info, file).Ok?
  {
    if |file| >= 28 {
      UxHeaderIff(file, |file|, p.word);
    }
  }

  /**
   * The exact frame of a finished capsule: same length, sane sizes, and no byte of the file changed other
   * than a zero Flags word (for a capsule that is not UX) or the mode and checksum of the UX header.
   */
  lemma FinishedFrame(p: Platform, info: seq<uint8>, file: seq<uint8>)
    requires p.Valid() && |info| >= DP_OFFSET && Finished(p, info, file).Ok?
    ensures var sent := Finished(p, info, file).value;
            && |sent| == |file| >= CAPSULE_HEADER_SIZE
            && HeaderSize(sent) == HeaderSize(file) && ImageSize(sent) == ImageSize(file)
            && CAPSULE_HEADER_SIZE <= ImageSize(sent) <= |sent|
            && (forall i :: 0 <= i < |file| && sent[i] != file[i] ==>
                  if IsUx(info) then
                    var h := HeaderSize(file);
                    CAPSULE_HEADER_SIZE <= h && (i == h + 1 || h + 4 <= i < h + 8)
                  else 20 <= i < 24 && Flags(file) == 0)
            && if IsUx(info) then
                && Flags(sent) == Flags(file)
                && U32(sent, HeaderSize(sent) + 4) == p.gop.value
                && sent[HeaderSize(sent) + 1] == Checksum(sent, HeaderSize(sent))
              else
                Flags(sent) == if Flags(file) == 0 then Or32(InfoFlags(info), p.mask) else Flags(file)
  {
    var sent := Finished(p, info, file).value;
    if IsUx(info) {
      UxPayloadInside(file, |file|, p.word);
      ChecksumIdempotent(Patch(file, HeaderSize(file) + 4, Bytes32(p.gop.value)), HeaderSize(file));
    }
  }

  lemma PrefixPatch(b: seq<uint8>, fsize: nat, at: nat, w: seq<uint8>)
    requires at + |w| <= fsize <= |b|
    ensures Patch(b, at, w)[..fsize] == Patch(b[..fsize], at, w)
  {
  }

  lemma PrefixChecksum(b: seq<uint8>, fsize: nat, at: nat)
    requires at + UX_HEADER_SIZE <= fsize <= |b|
    ensures Checksummed(b, at)[..fsize] == Checksummed(b[..fsize], at)
  {
    SumLocal(b, b[..fsize], at + 2, at + UX_HEADER_SIZE);
    PrefixPatch(b, fsize, at + 1, [Checksum(b, at)]);
  }

  /** The header fields of a buffer are those of the file at its start. */
  lemma PrefixWords(b: seq<uint8>, fsize: nat)
    requires CAPSULE_HEADER_SIZE <= fsize <= |b|
    ensures HeaderSize(b[..fsize]) == HeaderSize(b) && Flags(b[..fsize]) == Flags(b)
    ensures ImageSize(b[..fsize]) == ImageSize(b)
  {
  }

  /** Patching the UX header of a buffer patches the file at its start. */
  lemma PrefixPatched(b: seq<uint8>, fsize: nat, mode: uint32)
    requires CAPSULE_HEADER_SIZE <= fsize <= |b| && HeaderSize(b) + UX_HEADER_SIZE <= fsize
    ensures HeaderSize(b[..fsize]) == HeaderSize(b)
    ensures UxPatched(b, mode)[..fsize] == UxPatched(b[..fsize], mode)
  {
    var h := HeaderSize(b);
    var w := Bytes32(mode);
    PrefixWords(b, fsize);
    PrefixPatch(b, fsize, h as nat + 4, w);
    PrefixChecksum(Patch(b, h as nat + 4, w), fsize, h);
  }

  /** The part of fwup_add_update_capsule after the file is read into the first fsize bytes of buf. */
  method FinishCapsule(p: Platform, info: array<uint8>, buf: array<uint8>, fsize: nat) returns (rc: Status)
    requires p.Valid() && info.Length >= DP_OFFSET && fsize <= buf.Length && info != buf
    modifies buf
    ensures match Finished(p, info[..], old(buf[..fsize]))
            case Ok(sent) => rc == Success && buf[..fsize] == sent
            case Err(error) => rc == error
  {
    ghost var file := buf[..fsize];
    if fsize < CAPSULE_HEADER_SIZE {
      return InvalidParameter;
    }
    PrefixWords(buf[..], fsize);
    if ValidateCapsuleSize(buf[..], fsize).IsError() {
      return InvalidParameter;
    }
    var flags := U32(buf[..], 20);
    if flags == 0 && info[4..20] != UX_CAPSULE_GUID {
      PrefixPatch(buf[..], fsize, 20, Bytes32(Or32(flags, Or32(U32(info[..], 20), p.mask))));
      WriteWord(buf, 20, Or32(flags, Or32(U32(info[..], 20), p.mask)));
    }
    if info[4..20] == UX_CAPSULE_GUID {
      ghost var b := buf[..];
      if UxHeaderOk(b, fsize, p.word) && p.gop.Some? {
        UxPayloadInside(b, fsize, p.word);
        PrefixPatched(b, fsize, p.gop.value);
      }
      rc := CheckGop(p.gop, buf, fsize, p.word);
      if rc.IsError() {
        return Unsupported;
      }
    }
    return Success;
  }

  /** What the opened file becomes. */
  ghost function Read(p: Platform, info: seq<uint8>, image: Result<Image>): Result<seq<uint8>>
    requires p.Valid() && |info| >= DP_OFFSET
  {
    match image
    case Err(rc) => Err(rc)
    case Ok(file) =>
      match file.Fault(0)
      case Some(rc) => Err(rc)
      case None => Finished(p, info, file.contents)
  }

  ghost predicate OutcomeOf(p: Platform, info: seq<uint8>, image: Result<Image>, r: Result<seq<uint8>>)
    requires p.Valid() && |info| >= DP_OFFSET
  {
    OpenOutcome(p.disk, info, DP_OFFSET, |info| - DP_OFFSET, p.word, image) && r == Read(p, info, image)
  }

  /** When no allocation fails, the outcome of fwup_add_update_capsule for the update in info. */
  ghost predicate CapsuleOutcome(p: Platform, info: seq<uint8>, r: Result<seq<uint8>>)
    requires p.Valid() && |info| >= DP_OFFSET
  {
    exists image :: OutcomeOf(p, info, image, r)
  }

  lemma SameImage(p: Platform, info: seq<uint8>, image: Result<Image>, image': Result<Image>,
                  r: Result<seq<uint8>>, r': Result<seq<uint8>>)
    requires p.Valid() && |info| >= DP_OFFSET && OutcomeOf(p, info, image, r) && OutcomeOf(p, info, image', r')
    ensures image == image'
  {
    hide OpenOutcome, Read;
    OpenUnique(p.disk, info, DP_OFFSET, |info| - DP_OFFSET, p.word, image, image');
  }

  /** The environment and the update determine the outcome. */
  lemma OutcomeUnique(p: Platform, info: seq<uint8>, r: Result<seq<uint8>>, r': Result<seq<uint8>>)
    requires p.Valid() && |info| >= DP_OFFSET && CapsuleOutcome(p, info, r) && CapsuleOutcome(p, info, r')
    ensures r == r'
  {
    var image :| OutcomeOf(p, info, image, r);
    var image' :| OutcomeOf(p, info, image', r');
    SameImage(p, info, image, image', r, r');
  }

  lemma ReadLocal(p: Platform, info: seq<uint8>, info': seq<uint8>, image: Result<Image>)
    requires p.Valid() && |info| >= DP_OFFSET && |info'| >= DP_OFFSET
    requires InfoGuid(info) == InfoGuid(info') && InfoFlags(info) == InfoFlags(info')
    ensures Read(p, info, image) == Read(p, info', image)
  {
  }

  lemma OutcomeCarried(p: Platform, info: seq<uint8>, info': seq<uint8>, image: Result<Image>, r: Result<seq<uint8>>)
    requires p.Valid() && |info| == |info'| >= DP_OFFSET && OutcomeOf(p, info, image, r)
    requires OpenOutcome(p.disk, info', DP_OFFSET, |info'| - DP_OFFSET, p.word, image)
    requires Read(p, info, image) == Read(p, info', image)
    ensures CapsuleOutcome(p, info', r)
  {
    assert OutcomeOf(p, info', image, r);
  }

  /** The outcome depends on nothing in the update but its GUID, its flags and its device path. */
  lemma OutcomeLocal(p: Platform, info: seq<uint8>, info': seq<uint8>, r: Result<seq<uint8>>)
    requires p.Valid() && |info| == |info'| >= DP_OFFSET && CapsuleOutcome(p, info, r)
    requires Agree(info, DP_OFFSET, info', DP_OFFSET, |info| - DP_OFFSET)
    requires InfoGuid(info) == InfoGuid(info') && InfoFlags(info) == InfoFlags(info')
    ensures CapsuleOutcome(p, info', r)
  {
    hide OpenOutcome, Read;
    var image :| OutcomeOf(p, info, image, r);
    OpenLocal(p.disk, info, info', DP_OFFSET, |info| - DP_OFFSET, p.word, image);
    ReadLocal(p, info, info', image);
    OutcomeCarried(p, info, info', image, r);
  }

  /** An accepted capsule holds at least a capsule header. */
  lemma AcceptedLength(p: Platform, info: seq<uint8>, sent: seq<uint8>)
    requires p.Valid() && |info| >= DP_OFFSET && CapsuleOutcome(p, info, Ok(sent))
    ensures |sent| >= CAPSULE_HEADER_SIZE && CAPSULE_HEADER_SIZE <= ImageSize(sent) <= |sent|
  {
    var image :| OutcomeOf(p, info, image, Ok(sent));
    FinishedFrame(p, info, image.value.contents);
  }

  /** The memory m' still holds every block of m. */
  ghost predicate Extends(m: map<nat, Block>, m': map<nat, Block>) {
    forall a :: a in m ==> a in m' && m'[a] == m[a]
  }

  /** The capsule at addr is live in memory and is sent, from its first byte. */
  ghost predicate Holds(live: map<nat, Block>, addr: nat, sent: seq<uint8>)
    reads if addr in live then {live[addr].data} else {}
  {
    && addr in live && |sent| <= live[addr].data.Length
    && live[addr].data[..|sent|] == sent
  }

  /** A failed page allocation is reported as it is; a path that cannot be copied, before any, as a bad parameter. */
  function ShortOfMemory(pagesAsked: bool): Error {
    if pagesAsked then OutOfResources else InvalidParameter
  }

  /** Open the file named by an update and read it into a new block. */
  method LoadFile(p: Platform, info: array<uint8>, mem: Pages) returns (r: Result<Span>, ghost image: Result<Image>)
    requires p.Valid() && mem.Valid() && mem.word == p.word
    requires info.Length >= DP_OFFSET && ValidPath(info[..], DP_OFFSET, info.Length - DP_OFFSET)
    modifies mem`live, mem`calls, mem`pools, mem`failures, mem`copied
    ensures mem.Valid() && Extends(old(mem.live), mem.live) && mem.failures >= old(mem.failures)
    ensures forall a :: a in mem.live && a !in old(mem.live) ==> fresh(mem.live[a].data)
    ensures mem.failures == old(mem.failures) ==>
              OpenOutcome(p.disk, info[..], DP_OFFSET, info.Length - DP_OFFSET, p.word, image)
    ensures r.Ok? ==>
              && mem.failures == old(mem.failures)
              && image.Ok? && image.value.Fault(0) == None
              && r.value.addr !in old(mem.live)
              && r.value.size == |image.value.contents| && r.value.addr + r.value.size < mem.word
              && Holds(mem.live, r.value.addr, image.value.contents)
    ensures r.Err? && mem.failures == old(mem.failures) ==>
              if image.Err? then r.error == image.error else image.value.Fault(0) == Some(r.error)
    ensures r.Err? && mem.failures != old(mem.failures) ==> r.error == ShortOfMemory(mem.calls > old(mem.calls))
  {
    ghost var b := info[..];
    var fh := OpenFile(info, DP_OFFSET, info.Length - DP_OFFSET, p.disk, p.word, mem);
    image := if fh.Ok? then Ok(fh.value.image) else Err(fh.error);
    if fh.Err? {
      return Err(fh.error), image;
    }
    r := ReadFile(mem, fh.value);
    assert info[..] == b;
  }

  /** Load the file of an update and finish it in place. */
  method BuildCapsule(p: Platform, info: array<uint8>, mem: Pages) returns (r: Result<Span>, ghost sent: seq<uint8>)
    requires p.Valid() && mem.Valid() && mem.word == p.word
    requires info.Length >= DP_OFFSET && ValidPath(info[..], DP_OFFSET, info.Length - DP_OFFSET)
    modifies mem`live, mem`calls, mem`pools, mem`failures, mem`copied
    ensures mem.Valid() && Extends(old(mem.live), mem.live) && mem.failures >= old(mem.failures)
    ensures forall a :: a in mem.live && a !in old(mem.live) ==> fresh(mem.live[a].data)
    ensures r.Ok? ==>
              && mem.failures == old(mem.failures) && CapsuleOutcome(p, info[..], Ok(sent))
              && r.value.addr !in old(mem.live) && r.value.size == |sent| && Holds(mem.live, r.value.addr, sent)
              && r.value.addr + r.value.size < mem.word
    ensures r.Err? && mem.failures == old(mem.failures) ==> CapsuleOutcome(p, info[..], Err(r.error))
    ensures r.Err? && mem.failures != old(mem.failures) ==> r.error == ShortOfMemory(mem.calls > old(mem.calls))
  {
    hide OpenOutcome, Finished, ValidPath, Pages.Valid;
    sent := [];
    ghost var b := info[..];
    ghost var image;
    r, image := LoadFile(p, info, mem);
    assert info[..] == b;
    if r.Err? {
      if mem.failures == old(mem.failures) {
        assert OutcomeOf(p, b, image, Err(r.error));
      }
      return;
    }
    var Span(fbuf, fsize) := r.value;
    ghost var live := mem.live;
    var rc := FinishCapsule(p, info, mem.live[fbuf].data, fsize);
    assert info[..] == b;
    assert OutcomeOf(p, b, image, Finished(p, b, image.value.contents));
    if rc.IsError() {
      r := Err(rc);
      return;
    }
    sent := mem.live[fbuf].data[..fsize];
  }

  /**
   * On success slot j of the header pointers and entry j of the descriptor list describe the finished capsule, which
   * is built in a new block; on any error both are untouched. sent is the finished capsule for the proofs.
   */
  method AddUpdateCapsule(p: Platform, info: array<uint8>, mem: Pages, capsules: array<nat>, cbd: array<uint8>, j: nat)
    returns (rc: Status, ghost sent: seq<uint8>)
    requires p.Valid() && mem.Valid() && mem.word == p.word
    requires info.Length >= DP_OFFSET && ValidPath(info[..], DP_OFFSET, info.Length - DP_OFFSET)
    requires j < capsules.Length && j < |List(cbd[..])| && info != cbd
    modifies mem`live, mem`calls, mem`pools, mem`failures, mem`copied, capsules, cbd
    ensures mem.Valid() && Extends(old(mem.live), mem.live) && mem.failures >= old(mem.failures)
    ensures forall a :: a in mem.live && a !in old(mem.live) ==> fresh(mem.live[a].data)
    ensures rc.IsError() || rc == Success
    ensures rc == Success ==>
              && mem.failures == old(mem.failures) && CapsuleOutcome(p, info[..], Ok(sent))
              && capsules[j] !in old(mem.live) && Holds(mem.live, capsules[j], sent)
              && capsules[..] == old(capsules[..])[j := capsules[j]]
              && List(cbd[..]) == old(List(cbd[..]))[j := Descriptor(|sent|, capsules[j])]
              && |sent| < WORD64 && capsules[j] < WORD64
              && cbd[16 * j..16 * j + 16] == DescriptorBytes(Descriptor(|sent|, capsules[j]))
    ensures rc.IsError() ==> capsules[..] == old(capsules[..]) && cbd[..] == old(cbd[..])
    ensures rc.IsError() && mem.failures == old(mem.failures) ==> CapsuleOutcome(p, info[..], Err(rc))
    ensures mem.failures != old(mem.failures) ==> rc == ShortOfMemory(mem.calls > old(mem.calls))
  {
    hide List, CapsuleOutcome, Pages.Valid, ValidPath, DescriptorBytes;
    var span;
    span, sent := BuildCapsule(p, info, mem);
    if span.Err? {
      return span.error, sent;
    }
    WriteLength(cbd, j, span.value.size);
    WritePointer(cbd, j, span.value.addr);
    EntryBytes(cbd[..], j);
    assert cbd[..][16 * j..16 * j + 16] == cbd[16 * j..16 * j + 16];
    capsules[j] := span.value.addr;
    return Success, sent;
  }
}

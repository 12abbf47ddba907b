// EFI_CAPSULE_BLOCK_DESCRIPTOR as it lies in memory: two 64-bit words, the Length and the address of the data block or
// of the continuation list (section 8.5.3 of the UEFI Specification 2.10).
module Descriptors {
  import opened Efi

  const DESCRIPTOR_SIZE := 16

  /** pointer is the DataBlock or the ContinuationPointer. */
  datatype Descriptor = Descriptor(length: nat, pointer: nat)

  const TERMINATOR := Descriptor(0, 0)

  /** The descriptors that fit the bytes b. */
  function List(b: seq<uint8>): (list: seq<Descriptor>)
    ensures |list| == |b| / DESCRIPTOR_SIZE
  {
    seq(|b| / DESCRIPTOR_SIZE, k requires 0 <= k < |b| / DESCRIPTOR_SIZE =>
      Descriptor(U64(b, DESCRIPTOR_SIZE * k), U64(b, DESCRIPTOR_SIZE * k + 8)))
  }

  /** The sixteen bytes of a descriptor: its length and its address, each with the least significant byte first. */
  function DescriptorBytes(d: Descriptor): (e: seq<uint8>)
    requires d.length < WORD64 && d.pointer < WORD64
    ensures |e| == DESCRIPTOR_SIZE
    ensures forall i :: 0 <= i < 8 ==> e[i] == Digit(d.length, i) && e[8 + i] == Digit(d.pointer, i)
  {
    LittleEndian64(d.length);
    LittleEndian64(d.pointer);
    Bytes64(d.length) + Bytes64(d.pointer)
  }

  /** Entry k of a list in memory consists of these bytes. */
  lemma EntryBytes(b: seq<uint8>, k: nat)
    requires k < |List(b)|
    ensures var d := List(b)[k];
            d.length < WORD64 && d.pointer < WORD64 && b[16 * k..16 * k + 16] == DescriptorBytes(d)
  {
    hide U64, Bytes64, Digit;
    WrittenBack64(b, 16 * k);
    WrittenBack64(b, 16 * k + 8);
    assert b[16 * k..16 * k + 16] == b[16 * k..16 * k + 8] + b[16 * k + 8..16 * k + 8 + 8];
  }

  /** A word that is written is read back, and the words beside it are the old ones. */
  lemma WordPatched(b: seq<uint8>, at: nat, v: nat, where: nat)
    requires at + 8 <= |b| && where + 8 <= |b| && v < WORD64
    requires where == at || where + 8 <= at || at + 8 <= where
    ensures U64(Patch(b, at, Bytes64(v)), where) == if where == at then v else U64(b, where)
  {
  }

  /** Writing the Length of entry k changes that and nothing else in the list. */
  lemma LengthPatched(b: seq<uint8>, k: nat, v: nat)
    requires k < |List(b)| && v < WORD64
    ensures List(Patch(b, DESCRIPTOR_SIZE * k, Bytes64(v))) == List(b)[k := List(b)[k].(length := v)]
  {
    hide U64, Bytes64, Patch;
    var c := Patch(b, DESCRIPTOR_SIZE * k, Bytes64(v));
    forall i | 0 <= i < |List(b)|
      ensures List(c)[i] == if i == k then List(b)[i].(length := v) else List(b)[i]
    {
      WordPatched(b, DESCRIPTOR_SIZE * k, v, DESCRIPTOR_SIZE * i);
      WordPatched(b, DESCRIPTOR_SIZE * k, v, DESCRIPTOR_SIZE * i + 8);
    }
  }

  /** Writing its pointer likewise. */
  lemma PointerPatched(b: seq<uint8>, k: nat, v: nat)
    requires k < |List(b)| && v < WORD64
    ensures List(Patch(b, DESCRIPTOR_SIZE * k + 8, Bytes64(v))) == List(b)[k := List(b)[k].(pointer := v)]
  {
    hide U64, Bytes64, Patch;
    var c := Patch(b, DESCRIPTOR_SIZE * k + 8, Bytes64(v));
    forall i | 0 <= i < |List(b)|
      ensures List(c)[i] == if i == k then List(b)[i].(pointer := v) else List(b)[i]
    {
      WordPatched(b, DESCRIPTOR_SIZE * k + 8, v, DESCRIPTOR_SIZE * i);
      WordPatched(b, DESCRIPTOR_SIZE * k + 8, v, DESCRIPTOR_SIZE * i + 8);
    }
  }

  /** Store a UINT64 field. */
  method WriteWord64(buf: array<uint8>, at: nat, v: nat)
    requires at + 8 <= buf.Length && v < WORD64
    modifies buf
    ensures buf[..] == Patch(old(buf[..]), at, Bytes64(v))
  {
    var w := Bytes64(v);
    forall i | 0 <= i < 8 {
      buf[at + i] := w[i];
    }
  }

  method WriteLength(buf: array<uint8>, k: nat, v: nat)
    requires k < |List(buf[..])| && v < WORD64
    modifies buf
    ensures List(buf[..]) == old(List(buf[..]))[k := old(List(buf[..]))[k].(length := v)]
  {
    LengthPatched(buf[..], k, v);
    WriteWord64(buf, DESCRIPTOR_SIZE * k, v);
  }

  method WritePointer(buf: array<uint8>, k: nat, v: nat)
    requires k < |List(buf[..])| && v < WORD64
    modifies buf
    ensures List(buf[..]) == old(List(buf[..]))[k := old(List(buf[..]))[k].(pointer := v)]
  {
    PointerPatched(buf[..], k, v);
    WriteWord64(buf, DESCRIPTOR_SIZE * k + 8, v);
  }
}

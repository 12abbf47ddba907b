// The capsule block descriptor list: how firmware walks it, and why the walk sees exactly the capsules
// that were accepted (section 8.5.3 of the UEFI Specification 2.10).
module CapsuleList {
  import opened Efi
  import opened Capsule
  import opened Descriptors
  import opened PageMemory

  /**
   * Firmware's walk from entry at: data blocks until an entry with zero length. A zero length with a pointer
   * continues in another list; None stands for that, and for running past the end of this one.
   */
  function BlockWalk(list: seq<Descriptor>, at: nat): (r: Option<seq<Descriptor>>)
    decreases |list| - at
  {
    if at >= |list| then None
    else if list[at].length == 0 then (if list[at].pointer == 0 then Some([]) else None)
    else
      match BlockWalk(list, at + 1)
      case None => None
      case Some(rest) => Some([list[at]] + rest)
  }

  /** A list terminated at j whose earlier entries all have a length is walked to exactly those entries. */
  lemma {:induction false} WalkTo(list: seq<Descriptor>, at: nat, j: nat)
    requires at <= j < |list|
    requires forall k :: at <= k < j ==> list[k].length > 0
    requires list[j] == TERMINATOR
    ensures BlockWalk(list, at) == Some(list[at..j])
    decreases j - at
  {
    if at < j {
      WalkTo(list, at + 1, j);
      assert list[at..j] == [list[at]] + list[at + 1..j];
    } else {
      assert list[at..j] == [];
    }
  }

  /** Conversely a walk stops at the first terminator and nowhere else. */
  lemma {:induction false} WalkStops(list: seq<Descriptor>, at: nat)
    requires BlockWalk(list, at).Some?
    ensures var d := BlockWalk(list, at).value;
            && at + |d| < |list| && list[at + |d|] == TERMINATOR && d == list[at..at + |d|]
            && forall k :: at <= k < at + |d| ==> list[k].length > 0
    decreases |list| - at
  {
    if list[at].length != 0 {
      WalkStops(list, at + 1);
      var d := BlockWalk(list, at + 1).value;
      assert list[at..at + 1 + |d|] == [list[at]] + list[at + 1..at + 1 + |d|];
    }
  }

  /** Entry k of the list describes blob k, and so does capsule header pointer k. */
  ghost predicate Describes(list: seq<Descriptor>, headers: seq<nat>, live: map<nat, Block>, blobs: seq<seq<uint8>>)
    reads set a | a in live :: live[a].data
  {
    && |blobs| <= |list| && |blobs| <= |headers|
    && forall k {:trigger Holds(live, headers[k], blobs[k])} :: 0 <= k < |blobs| ==>
         list[k] == Descriptor(|blobs[k]|, headers[k]) && Holds(live, headers[k], blobs[k])
  }

  /** Header pointer k points at blob k. */
  ghost predicate Headed(headers: seq<nat>, live: map<nat, Block>, blobs: seq<seq<uint8>>)
    reads set a | a in live :: live[a].data
  {
    && |headers| == |blobs|
    && forall k {:trigger Holds(live, headers[k], blobs[k])} :: 0 <= k < |blobs| ==> Holds(live, headers[k], blobs[k])
  }

  /** Every accepted capsule is at least a capsule header long, so none of them can end the walk. */
  ghost predicate Capsules(blobs: seq<seq<uint8>>) {
    forall k :: 0 <= k < |blobs| ==> |blobs[k]| >= CAPSULE_HEADER_SIZE
  }

  /** A list that describes capsules is walked to exactly their entries, if a terminator follows those. */
  lemma WalkDescribed(list: seq<Descriptor>, headers: seq<nat>, live: map<nat, Block>, blobs: seq<seq<uint8>>)
    requires Describes(list, headers, live, blobs) && Capsules(blobs)
    requires |blobs| < |list| && list[|blobs|] == TERMINATOR
    ensures BlockWalk(list, 0) == Some(list[..|blobs|])
    ensures Describes(list[..|blobs|], headers[..|blobs|], live, blobs)
  {
    var n := |blobs|;
    forall k | 0 <= k < n
      ensures list[k].length > 0
      ensures list[..n][k] == Descriptor(|blobs[k]|, headers[..n][k]) && Holds(live, headers[..n][k], blobs[k])
    {
      assert Holds(live, headers[k], blobs[k]);
    }
    WalkTo(list, 0, n);
    assert list[0..n] == list[..n];
  }

  /** The list that begins at an address. */
  function ListAt(live: map<nat, Block>, addr: nat): seq<Descriptor>
    reads if addr in live then {live[addr].data} else {}
  {
    if addr in live then List(live[addr].data[..]) else []
  }

  lemma ZeroDescriptor()
    ensures DescriptorBytes(TERMINATOR) == seq(16, _ => 0)
  {
  }

  method SetTerminator(cbd: array<uint8>, index: nat)
    requires index < |List(cbd[..])|
    modifies cbd
    ensures List(cbd[..]) == old(List(cbd[..]))[index := TERMINATOR]
    ensures cbd[16 * index..16 * index + 16] == seq(16, _ => 0)
  {
    WriteLength(cbd, index, 0);
    WritePointer(cbd, index, 0);
    EntryBytes(cbd[..], index);
    ZeroDescriptor();
    assert cbd[..][16 * index..16 * index + 16] == cbd[16 * index..16 * index + 16];
  }
}

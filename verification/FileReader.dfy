// fwup_read_file: read a whole file into a page buffer that doubles when it is full.
module FileReader {
  import opened Efi
  import opened PageMemory

  const FIRST_CAPACITY := 0x40_0000

  /** What firmware finds on disk: the bytes of a file, and the status of a Read issued at each position. */
  datatype Image = Image(contents: seq<uint8>, readStatus: nat -> Status)
  {
    /** The status of the first failing Read at or after position at, when reading block by block past the end. */
    ghost function Fault(at: nat): (r: Option<Error>)
      decreases |contents| + 512 - at
    {
      if at > |contents| then None
      else if readStatus(at).IsError() then Some(readStatus(at))
      else if at + 512 > |contents| then None
      else Fault(at + 512)
    }
  }

  /** A file reads without fault exactly when every block position up to its end does. */
  lemma {:induction false} FaultFree(image: Image, at: nat)
    requires at % 512 == 0
    ensures image.Fault(at) == None <==>
            forall p: nat :: at <= p <= |image.contents| && p % 512 == 0 ==> !image.readStatus(p).IsError()
    decreases |image.contents| + 512 - at
  {
    if at + 512 <= |image.contents| {
      FaultFree(image, at + 512);
      assert forall p: nat :: at < p && p % 512 == 0 ==> p >= at + 512;
    }
  }

  /** The fault is that of the first failing block. */
  lemma {:induction false} FaultFirst(image: Image, at: nat)
    requires at % 512 == 0 && image.Fault(at).Some?
    ensures exists p: nat :: at <= p <= |image.contents| && p % 512 == 0 && image.readStatus(p) == image.Fault(at).value
                             && forall q: nat :: at <= q < p && q % 512 == 0 ==> !image.readStatus(q).IsError()
    decreases |image.contents| + 512 - at
  {
    if !image.readStatus(at).IsError() {
      FaultFirst(image, at + 512);
      var p: nat :| at + 512 <= p <= |image.contents| && p % 512 == 0
                    && image.readStatus(p) == image.Fault(at + 512).value
                    && forall q: nat :: at + 512 <= q < p && q % 512 == 0 ==> !image.readStatus(q).IsError();
      assert forall q: nat :: at < q && q % 512 == 0 ==> q >= at + 512;
    }
  }

  /** An open file: section 13.5 of the UEFI Specification 2.10 for Read. */
  class File {
    const image: Image
    var pos: nat

    constructor (image: Image)
      ensures this.image == image && pos == 0
    {
      this.image, this.pos := image, 0;
    }

    method Read(size: nat, data: array<uint8>, at: nat) returns (rc: Status, got: nat)
      requires pos <= |image.contents| && at + size <= data.Length
      modifies this`pos, data
      ensures rc == image.readStatus(old(pos))
      ensures rc.IsError() ==> pos == old(pos) && data[..] == old(data[..])
      ensures !rc.IsError() ==>
                && got == (if old(pos) + size <= |image.contents| then size else |image.contents| - old(pos))
                && pos == old(pos) + got <= |image.contents|
                && data[at..at + got] == image.contents[old(pos)..pos]
                && data[..at] == old(data[..at]) && data[at + got..] == old(data[at + got..])
    {
      rc := image.readStatus(pos);
      got := 0;
      if rc.IsError() {
        return;
      }
      var left := |image.contents| - pos;
      got := if size <= left then size else left;
      forall i | 0 <= i < got {
        data[at + i] := image.contents[pos + i];
      }
      pos := pos + got;
    }
  }

  /** Where a file was read to. */
  datatype Span = Span(addr: nat, size: nat)

  /** The power-of-two sizes of the buffer never wrap a UINTN except to exactly zero. */
  lemma DoublingWraps(word: nat, e: nat)
    requires IsWord(word) && Pow2(e) < word
    ensures 2 * Pow2(e) <= word
    ensures 2 * Pow2(e) % word == if 2 * Pow2(e) == word then 0 else 2 * Pow2(e)
  {
    Pow2Of32();
    Pow2Of64();
    var bits := if word == WORD32 then 32 else 64;
    if e >= bits {
      if e > bits {
        Pow2Grows(bits, e);
      }
    } else {
      Pow2Grows(e, bits);
    }
  }

  /** A whole number of pages is held in just as many pages. */
  lemma WholePages(q: nat)
    ensures PagesFor(4096 * q) == q
  {
  }

  /** Reading one more block extends the prefix of the file held in the buffer. */
  lemma PrefixGrows(before: seq<uint8>, after: seq<uint8>, contents: seq<uint8>, at: nat, got: nat)
    requires |before| == |after| && at + got <= |after| && at + got <= |contents|
    requires before[..at] == contents[..at] && after[..at] == before[..at]
    requires after[at..at + got] == contents[at..at + got]
    ensures after[..at + got] == contents[..at + got]
  {
    assert after[..at + got] == after[..at] + after[at..at + got];
    assert contents[..at + got] == contents[..at] + contents[at..at + got];
  }

  /**
   * The inner loop: read block by block until a Read fails, comes back short (sz is then less than a block),
   * or the buffer is full (i is then nBlocks).
   */
  method ReadBlocks(fh: File, data: array<uint8>, first: nat, nBlocks: nat) returns (rc: Status, i: nat, sz: nat)
    requires first < nBlocks && data.Length == 512 * nBlocks
    requires fh.pos == 512 * first <= |fh.image.contents|
    requires data[..512 * first] == fh.image.contents[..512 * first]
    modifies fh`pos, data
    ensures first <= i
    ensures rc.IsError() ==> fh.image.Fault(512 * first) == Some(rc)
    ensures !rc.IsError() ==>
              && fh.pos <= |fh.image.contents|
              && if sz != 512 then
                && i < nBlocks && 512 * i + sz == fh.pos == |fh.image.contents| < data.Length
                && fh.image.Fault(512 * first) == None
                && data[..fh.pos] == fh.image.contents
              else
                && i == nBlocks && fh.pos == 512 * i
                && fh.image.Fault(512 * first) == fh.image.Fault(512 * i)
                && data[..] == fh.image.contents[..512 * i]
  {
    var contents := fh.image.contents;
    i, rc, sz := first, Success, 512;
    while i < nBlocks
      invariant first <= i <= nBlocks && fh.pos == 512 * i <= |contents|
      invariant sz == 512 && !rc.IsError()
      invariant fh.image.Fault(512 * first) == fh.image.Fault(512 * i)
      invariant data[..512 * i] == contents[..512 * i]
    {
      ghost var before := data[..];
      rc, sz := fh.Read(512, data, i * 512);
      if rc.IsError() {
        return;
      }
      PrefixGrows(before, data[..], contents, i * 512, sz);
      if sz != 512 {
        assert contents[..i * 512 + sz] == contents;
        return;
      }
      i := i + 1;
    }
    assert data[..] == data[..512 * i];
  }

  /** The head of the outer loop: allocate a buffer of twice the size and move what was read into it. */
  method Regrow(mem: Pages, buf: nat, nBlocks: nat, ghost e: nat, ghost q: nat) returns (r: Option<nat>)
    requires mem.Valid() && nBlocks == 8 * q > 0 && 512 * nBlocks == Pow2(e) < mem.word
    requires buf != 0 ==> buf in mem.live && mem.live[buf].data.Length == 512 * nBlocks
    modifies mem`live, mem`calls, mem`failures, mem`copied
    ensures mem.Valid()
    ensures mem.calls == old(mem.calls) + 1
    ensures r.Some? ==> mem.grant(old(mem.calls)).Some?
    ensures 2 * 512 * nBlocks < mem.word && old(mem.Answers(2 * 512 * nBlocks)) ==> r.Some?
    ensures r.None? ==>
              mem.live == old(mem.live) && mem.failures == old(mem.failures) + 1 && mem.copied == old(mem.copied)
    ensures r.Some? ==>
              && var newb := r.value;
              && mem.failures == old(mem.failures)
              && newb > 0 && newb in mem.live && mem.live - {newb} == old(mem.live) - {buf}
              && fresh(mem.live[newb].data) && mem.live[newb].data.Length == 2 * 512 * nBlocks
              && newb + 2 * 512 * nBlocks <= mem.word
              && (buf != 0 ==> mem.live[newb].data[..512 * nBlocks] == old(mem.live[buf].data[..]))
              && mem.copied == old(mem.copied) + if buf == 0 then 0 else 512 * nBlocks
  {
    ghost var live := mem.live;
    var news := nBlocks * 512 * 2 % mem.word;
    DoublingWraps(mem.word, e);
    r := mem.MallocRaw(news);
    if r.None? {
      return;
    }
    assert news == 4096 * (2 * q);
    WholePages(q);
    WholePages(2 * q);
    ghost var block := mem.live[r.value];
    if buf != 0 {
      mem.Copy(r.value, buf, 512 * nBlocks);
      var _ := mem.FreeRaw(buf, 512 * nBlocks);
      RemoveOther(live, buf, r.value, block);
    } else {
      RemoveAbsent(live, buf);
    }
    RemoveAdded(live - {buf}, r.value, block);
  }

  /** One turn of the outer loop after the regrow: the whole file was read, a Read failed, or the buffer is full. */
  method Fill(mem: Pages, fh: File, buf: nat, first: nat, nBlocks: nat, ghost q: nat)
    returns (r: Option<Result<Span>>, i: nat)
    requires mem.Valid() && nBlocks == 8 * q && first < nBlocks && buf in mem.live
    requires mem.live[buf].data.Length == 512 * nBlocks
    requires fh.pos == 512 * first <= |fh.image.contents|
    requires mem.live[buf].data[..512 * first] == fh.image.contents[..512 * first]
    modifies mem`live, fh`pos, mem.live[buf].data
    ensures mem.Valid()
    ensures r.None? ==>
              && mem.live == old(mem.live) && i == nBlocks && fh.pos == 512 * i <= |fh.image.contents|
              && fh.image.Fault(512 * first) == fh.image.Fault(512 * i)
              && mem.live[buf].data[..] == fh.image.contents[..512 * i]
    ensures r.Some? && r.value.Err? ==>
              && mem.live == old(mem.live) - {buf} && fh.image.Fault(512 * first) == Some(r.value.error)
    ensures r.Some? && r.value.Ok? ==>
              && mem.live == old(mem.live) && fh.image.Fault(512 * first) == None
              && r.value.value == Span(buf, |fh.image.contents|)
              && |fh.image.contents| < 512 * nBlocks
              && mem.live[buf].data[..|fh.image.contents|] == fh.image.contents
  {
    var rc, sz;
    rc, i, sz := ReadBlocks(fh, mem.live[buf].data, first, nBlocks);
    if rc.IsError() {
      WholePages(q);
      var _ := mem.FreeRaw(buf, 512 * nBlocks);
      return Some(Err(rc)), i;
    }
    if sz != 512 {
      return Some(Ok(Span(buf, 512 * i + sz))), i;
    }
    return None, i;
  }

  function Max(a: int, b: int): int {
    if a >= b then a else b
  }

  lemma ZeroFree(mem: Pages)
    requires mem.Valid()
    ensures 0 !in mem.live && IsWord(mem.word)
  {
  }

  lemma Doubled(e: nat)
    ensures Pow2(e + 1) == 2 * Pow2(e)
  {
  }

  /** Half the first capacity, from which the doubling starts. */
  lemma HalfCapacity()
    ensures 2 * Pow2(21) == FIRST_CAPACITY
  {
    assert Pow2(7) == 128 && Pow2(14) == 128 * 128;
  }

  method ReadFile(mem: Pages, fh: File) returns (r: Result<Span>)
    requires mem.Valid() && fh.pos == 0
    modifies mem`live, mem`calls, mem`failures, mem`copied, fh`pos
    ensures mem.Valid()
    // a full read: exactly the file, in one new block
    ensures r.Ok? ==>
              && var Span(addr, size) := r.value;
              && fh.image.Fault(0) == None && mem.failures == old(mem.failures)
              && addr !in old(mem.live) && addr in mem.live && mem.live == old(mem.live)[addr := mem.live[addr]]
              && fresh(mem.live[addr].data) && addr + mem.live[addr].data.Length <= mem.word
              && size == |fh.image.contents| < mem.live[addr].data.Length
              && mem.live[addr].data[..size] == fh.image.contents
              // amortised cost
              && 4 * 1024 * 1024 <= mem.live[addr].data.Length <= Max(4 * 1024 * 1024, 2 * size)
              && mem.copied - old(mem.copied) == mem.live[addr].data.Length - FIRST_CAPACITY
    // a failed Read: nothing is left behind
    ensures r.Err? && mem.failures == old(mem.failures) ==>
              && fh.image.Fault(0) == Some(r.error)
              && mem.live == old(mem.live)
    ensures mem.calls > old(mem.calls)
    // a failed allocation: the buffer read so far, if there is one, stays allocated
    ensures r.Err? && mem.failures != old(mem.failures) ==>
              && r.error == OutOfResources && mem.failures == old(mem.failures) + 1
              && (fh.pos == 0 || fh.pos >= FIRST_CAPACITY)
              && (old(mem.Answers(FIRST_CAPACITY)) ==> fh.pos != 0)
              && if fh.pos == 0 then mem.live == old(mem.live)
                 else exists a :: a !in old(mem.live) && a in mem.live && mem.live == old(mem.live)[a := mem.live[a]]
                                  && fresh(mem.live[a].data) && mem.live[a].data.Length == fh.pos
    ensures mem.copied - old(mem.copied) <= 2 * |fh.image.contents|
    // a file that fills the first buffer takes a second allocation
    ensures r.Ok? && |fh.image.contents| >= FIRST_CAPACITY ==> mem.grant(old(mem.calls) + 1).Some?
  {
    hide Image.Fault, Pow2, Pages.Valid, Pages.Answers;
    ZeroFree(mem);
    var contents := fh.image.contents;
    var i, nBlocks := 0, 4096;
    var buf := 0;
    RemoveAbsent(mem.live, 0);
    ghost var e, q := 21, 512;
    HalfCapacity();
    while true
      invariant mem.Valid() && mem.failures == old(mem.failures) && mem.calls >= old(mem.calls)
      invariant nBlocks == 8 * q >= 4096 && 512 * nBlocks == Pow2(e) < mem.word
      invariant fh.pos == 512 * i <= |contents| && fh.image.Fault(0) == fh.image.Fault(512 * i)
      invariant mem.live - {buf} == old(mem.live)
      invariant buf == 0 ==>
                  && i == 0 && nBlocks == 4096 && mem.copied == old(mem.copied)
                  && mem.live == old(mem.live) && mem.calls == old(mem.calls)
                  && mem.Answers(FIRST_CAPACITY) == old(mem.Answers(FIRST_CAPACITY))
      invariant buf != 0 ==>
                  && i == nBlocks >= 8192 && mem.calls > old(mem.calls)
                  && (nBlocks > 8192 ==> mem.grant(old(mem.calls) + 1).Some?)
                  && (nBlocks == 8192 ==> mem.calls == old(mem.calls) + 1)
                  && buf in mem.live && fresh(mem.live[buf].data) && mem.live[buf].data.Length == 512 * nBlocks
                  && mem.live[buf].data[..] == contents[..512 * i]
                  && mem.copied - old(mem.copied) == 512 * nBlocks - FIRST_CAPACITY
      decreases if buf == 0 then 1 else 0, |contents| - 512 * i
    {
      if buf == 0 {
        RemoveAbsent(mem.live, buf);
      } else {
        AddBack(mem.live, buf);
      }
      var newb := Regrow(mem, buf, nBlocks, e, q);
      if newb.None? {
        return Err(OutOfResources);
      }
      buf := newb.value;
      nBlocks := nBlocks * 2;
      Doubled(e);
      e, q := e + 1, 2 * q;
      assert mem.live[buf].data[..512 * i] == contents[..512 * i];
      var done;
      done, i := Fill(mem, fh, buf, i, nBlocks, q);
      if done.Some? {
        return done.value;
      }
    }
  }
}

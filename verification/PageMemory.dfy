// Boot-services page memory and the raw page allocator of efi/fwup-common.c.
module PageMemory {
  import opened Efi

  /** An allocated run of pages and its bytes. */
  datatype Block = Block(pages: nat, data: array<uint8>)

  /** How many pages hold size bytes. */
  function PagesFor(size: nat): (pages: nat)
    ensures 4096 * (pages - 1) < size <= 4096 * pages
  {
    size / 4096 + if size % 4096 != 0 then 1 else 0
  }

  lemma RemoveAdded<K, V>(m: map<K, V>, a: K, x: V)
    requires a !in m
    ensures m[a := x] - {a} == m
  {
  }

  lemma RemoveOther<K, V>(m: map<K, V>, a: K, b: K, y: V)
    requires a != b
    ensures m[b := y] - {a} == (m - {a})[b := y]
  {
  }

  lemma RemoveAbsent<K, V>(m: map<K, V>, a: K)
    requires a !in m
    ensures m - {a} == m
  {
  }

  lemma AddBack<K, V>(m: map<K, V>, a: K)
    requires a in m
    ensures m == (m - {a})[a := m[a]]
  {
  }

  /**
   * The firmware's page allocator. Which address it answers to its k-th request is not known: grant is an
   * arbitrary answer, and an answer that is unusable (in use, not page aligned, not inside the address
   * space) stands for a refusal. poolFull says in the same way which pool allocations fail while capsules are built.
   */
  class Pages {
    const word: nat
    const grant: nat -> Option<nat>
    const poolFull: nat -> bool
    var live: map<nat, Block>
    var calls: nat
    var pools: nat
    // Bookkeeping for the proofs: requests the caller saw fail, and bytes copied between blocks.
    ghost var failures: nat
    ghost var copied: nat

    constructor (word: nat, grant: nat -> Option<nat>, poolFull: nat -> bool)
      requires IsWord(word)
      ensures Valid() && live == map[] && this.word == word && this.grant == grant && this.poolFull == poolFull
      ensures calls == 0 && pools == 0 && failures == 0 && copied == 0
    {
      this.word, this.grant, this.poolFull := word, grant, poolFull;
      live, calls, pools, failures, copied := map[], 0, 0, 0, 0;
    }

    ghost predicate Valid()
      reads this
    {
      && IsWord(word)
      && (forall a :: a in live ==> a > 0 && live[a].pages > 0 && live[a].data.Length == 4096 * live[a].pages)
      && forall a, b :: Apart(live, a, b)
    }

    /** Two live blocks share neither bytes nor addresses. */
    static ghost predicate Apart(live: map<nat, Block>, a: nat, b: nat) {
      a in live && b in live && a != b ==>
        live[a].data != live[b].data && !Overlap(a, live[a].pages, b, live[b].pages)
    }

    static predicate Overlap(a: nat, pages: nat, b: nat, pages': nat) {
      a < b + 4096 * pages' && b < a + 4096 * pages
    }

    /** The firmware may hand out pages at addr. */
    predicate Usable(addr: nat, pages: nat)
      reads this
    {
      && pages > 0 && 0 < addr && addr % 4096 == 0
      && OnOneSide(addr, pages)
      && forall a :: a in live ==> !Overlap(a, live[a].pages, addr, pages)
    }

    /** Pages lie inside the address space; on a 32-bit machine, wholly below or wholly above the 4 GiB line. */
    predicate OnOneSide(addr: nat, pages: nat)
      reads this
    {
      addr + 4096 * pages <= word || (word == WORD32 && addr >= word)
    }

    method AllocatePool() returns (ok: bool)
      modifies this`pools, this`failures
      ensures pools == old(pools) + 1 && (ok <==> !poolFull(old(pools)))
      ensures failures == old(failures) + if ok then 0 else 1
    {
      ok := !poolFull(pools);
      pools := pools + 1;
      failures := failures + if ok then 0 else 1;
    }

    /** The next request, for size bytes, will be met. */
    predicate Answers(size: nat)
      reads this
    {
      var answer := grant(calls);
      answer.Some? && Usable(answer.value, PagesFor(size)) && answer.value < word
    }

    /** A request is met when the answer is a free run of whole pages, other than page 0, below the address limit. */
    lemma AnswersIff(size: nat)
      requires Valid()
      ensures Answers(size) <==>
                && grant(calls).Some? && size > 0
                && var first, last := grant(calls).value, grant(calls).value + 4096 * PagesFor(size);
                   && 0 < first && first % 4096 == 0 && last <= word
                   && forall a :: a in live ==> last <= a || a + 4096 * live[a].pages <= first
    {
    }

    method AllocatePages(pages: nat) returns (r: Option<nat>)
      requires Valid()
      modifies this`live, this`calls
      ensures Valid() && calls == old(calls) + 1
      ensures r == if grant(old(calls)).Some? && old(Usable(grant(calls).value, pages)) then grant(old(calls)) else None
      ensures r.None? ==> live == old(live)
      ensures r.Some? ==>
                && pages > 0 && r.value > 0 && OnOneSide(r.value, pages)
                && r.value !in old(live)
                && r.value in live && live == old(live)[r.value := live[r.value]]
                && live[r.value].pages == pages && fresh(live[r.value].data)
    {
      ghost var before := live;
      var answer := grant(calls);
      calls := calls + 1;
      if answer.Some? && Usable(answer.value, pages) {
        var data := new uint8[4096 * pages];
        live := live[answer.value := Block(pages, data)];
        r := answer;
        forall a, b
          ensures Apart(live, a, b)
        {
          assert Apart(before, a, b);
        }
      } else {
        r := None;
      }
    }

    /** A block is given back only when both its address and its page count are those of an allocation. */
    method FreePages(addr: nat, pages: nat) returns (rc: Status)
      requires Valid()
      modifies this`live
      ensures Valid()
      ensures addr in old(live) && old(live)[addr].pages == pages ==> rc == Success && live == old(live) - {addr}
      ensures !(addr in old(live) && old(live)[addr].pages == pages) ==> rc == NotFound && live == old(live)
    {
      if addr in live && live[addr].pages == pages {
        ghost var before := live;
        live := live - {addr};
        forall a, b
          ensures Apart(live, a, b)
        {
          assert Apart(before, a, b);
        }
        rc := Success;
      } else {
        rc := NotFound;
      }
    }

    method MallocRaw(size: nat) returns (r: Option<nat>)
      requires Valid()
      modifies this`live, this`calls, this`failures
      ensures Valid() && calls == old(calls) + 1
      ensures r.Some? <==> old(Answers(size))
      ensures r.None? ==> live == old(live) && failures == old(failures) + 1
      ensures r.Some? ==>
                && size > 0 && r.value > 0 && r.value + size <= word
                && r.value !in old(live)
                && r.value in live && live == old(live)[r.value := live[r.value]]
                && live[r.value].pages == PagesFor(size) && fresh(live[r.value].data)
                && failures == old(failures)
    {
      var pages := size / 4096 + if size % 4096 != 0 then 1 else 0;
      assert pages == PagesFor(size);
      r := AllocatePages(pages);
      if r.None? {
        failures := failures + 1;
        return;
      }
      if word == WORD32 && r.value > 0xffff_ffff {
        ghost var block := live[r.value];
        var _ := FreePages(r.value, pages);
        RemoveAdded(old(live), r.value, block);
        failures := failures + 1;
        r := None;
      }
    }

    method FreeRaw(addr: nat, size: nat) returns (rc: Status)
      requires Valid()
      modifies this`live
      ensures Valid()
      ensures addr in old(live) && old(live)[addr].pages == PagesFor(size) ==>
                rc == Success && live == old(live) - {addr}
      ensures !(addr in old(live) && old(live)[addr].pages == PagesFor(size)) ==> rc == NotFound && live == old(live)
    {
      var pages := size / 4096 + if size % 4096 != 0 then 1 else 0;
      rc := FreePages(addr, pages);
    }

    /** CopyMem between two live blocks. */
    method Copy(to: nat, from: nat, n: nat)
      requires Valid() && to in live && from in live && to != from
      requires n <= live[to].data.Length && n <= live[from].data.Length
      modifies this`copied, live[to].data
      ensures copied == old(copied) + n
      ensures live[to].data[..n] == old(live[from].data[..n])
    {
      var dst, src := live[to].data, live[from].data;
      assert Apart(live, to, from);
      forall i | 0 <= i < n {
        dst[i] := src[i];
      }
      copied := copied + n;
      assert dst[..n] == src[..n];
    }
  }
}

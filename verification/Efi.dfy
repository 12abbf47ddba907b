// Vocabulary shared by every module: statuses, bytes, little-endian words and UTF-16 strings.
module Efi {

  type uint8 = x: int | 0 <= x < 0x100
  type uint16 = x: int | 0 <= x < 0x1_0000
  type uint32 = x: int | 0 <= x < 0x1_0000_0000

  datatype Option<+T> = None | Some(value: T)

  /** EFI_STATUS. A warning is neither EFI_SUCCESS nor an error; Other stands for every remaining error code. */
  datatype Status =
    | Success
    | Warning(code: nat)
    | InvalidParameter
    | Unsupported
    | BufferTooSmall
    | OutOfResources
    | NotFound
    | Other(code: nat)
  {
    /** The EFI_ERROR macro: the high bit of the status is set. */
    predicate IsError() {
      !Success? && !Warning?
    }

    /** The status as a number of a UINTN of word values (appendix D of the UEFI Specification 2.10). */
    function Number(word: nat): nat {
      match this
      case Success => 0
      case Warning(code) => 1 + code
      case InvalidParameter => word / 2 + 2
      case Unsupported => word / 2 + 3
      case BufferTooSmall => word / 2 + 5
      case OutOfResources => word / 2 + 9
      case NotFound => word / 2 + 14
      case Other(code) => word / 2 + code
    }
  }

  /** The statuses for which EFI_ERROR holds. */
  type Error = s: Status | s.IsError() witness NotFound

  datatype Result<+T> = Ok(value: T) | Err(error: Error)

  /** UINTN is 32 or 64 bits wide; word is the number of values it can hold. */
  const WORD32: nat := 0x1_0000_0000
  const WORD64: nat := 0x1_0000_0000_0000_0000

  predicate IsWord(word: nat) {
    word == WORD32 || word == WORD64
  }

  /** A string of UTF-16 units. */
  type String16 = seq<uint16>

  /** The UTF-16 units of an ASCII literal. */
  function Wide(s: string): (w: String16)
    requires forall i :: 0 <= i < |s| ==> s[i] < 128 as char
    ensures |w| == |s| && forall i :: 0 <= i < |s| ==> w[i] == s[i] as int
  {
    seq(|s|, i requires 0 <= i < |s| => s[i] as int)
  }

  function U16(b: seq<uint8>, at: nat): nat
    requires at + 2 <= |b|
  {
    b[at] as int + 0x100 * b[at + 1] as int
  }

  function U32(b: seq<uint8>, at: nat): uint32
    requires at + 4 <= |b|
  {
    b[at] as int + 0x100 * b[at + 1] as int + 0x1_0000 * b[at + 2] as int + 0x100_0000 * b[at + 3] as int
  }

  /** The little-endian bytes of a 32-bit word. */
  function Bytes32(v: uint32): (w: seq<uint8>)
    ensures |w| == 4 && U32(w, 0) == v
  {
    var v1 := v / 0x100;
    var v2 := v1 / 0x100;
    [v % 0x100, v1 % 0x100, v2 % 0x100, v2 / 0x100]
  }

  function U64(b: seq<uint8>, at: nat): (v: nat)
    requires at + 8 <= |b|
    ensures v < WORD64
  {
    U32(b, at) + WORD32 * U32(b, at + 4)
  }

  /** The little-endian bytes of a 64-bit word. */
  function Bytes64(v: nat): (w: seq<uint8>)
    requires v < WORD64
    ensures |w| == 8 && U64(w, 0) == v
  {
    var v1 := v / 0x100;
    var v2 := v1 / 0x100;
    var v3 := v2 / 0x100;
    var v4 := v3 / 0x100;
    var v5 := v4 / 0x100;
    var v6 := v5 / 0x100;
    [v % 0x100, v1 % 0x100, v2 % 0x100, v3 % 0x100, v4 % 0x100, v5 % 0x100, v6 % 0x100, v6 / 0x100]
  }

  /** Byte i of a number, counted from the least significant one. */
  function Digit(v: nat, i: nat): uint8 {
    if i == 0 then v % 0x100 else Digit(v / 0x100, i - 1)
  }

  lemma Digits(v: nat)
    ensures Digit(v, 0) == v % 0x100 && Digit(v, 1) == v / 0x100 % 0x100
    ensures Digit(v, 2) == v / 0x100 / 0x100 % 0x100 && Digit(v, 3) == v / 0x100 / 0x100 / 0x100 % 0x100
    ensures forall i: nat :: Digit(v, i + 4) == Digit(v / 0x100 / 0x100 / 0x100 / 0x100, i)
  {
    assert forall i: nat :: Digit(v, i + 2) == Digit(v / 0x100 / 0x100, i);
  }

  /** A word lies in memory with its least significant byte first. */
  lemma LittleEndian32(v: uint32)
    ensures Bytes32(v) == seq(4, i requires 0 <= i < 4 => Digit(v, i))
  {
    Digits(v);
  }

  lemma LittleEndian64(v: nat)
    requires v < WORD64
    ensures Bytes64(v) == seq(8, i requires 0 <= i < 8 => Digit(v, i))
  {
    Digits(v);
    Digits(v / 0x100 / 0x100 / 0x100 / 0x100);
  }

  /** Reading a word gives the number that has these bytes for its digits. */
  lemma ReadsLittleEndian(b: seq<uint8>, at: nat, i: nat)
    ensures at + 2 <= |b| && i < 2 ==> Digit(U16(b, at), i) == b[at + i]
    ensures at + 4 <= |b| && i < 4 ==> Digit(U32(b, at), i) == b[at + i]
  {
    if at + 4 <= |b| {
      var v := U32(b, at);
      Digits(v);
      assert v / 0x100 == b[at + 1] as int + 0x100 * b[at + 2] as int + 0x1_0000 * b[at + 3] as int;
      assert v / 0x100 / 0x100 == b[at + 2] as int + 0x100 * b[at + 3] as int;
      assert i < 4 ==> i == 0 || i == 1 || i == 2 || i == 3;
    }
    if at + 2 <= |b| {
      Digits(U16(b, at));
      assert i < 2 ==> i == 0 || i == 1;
    }
  }

  /** Equal words have equal bytes. */
  lemma SameBytes(a: seq<uint8>, i: nat, b: seq<uint8>, j: nat)
    requires i + 4 <= |a| && j + 4 <= |b| && U32(a, i) == U32(b, j)
    ensures a[i..i + 4] == b[j..j + 4]
  {
    var x, y := a[i..i + 4], b[j..j + 4];
    forall k | 0 <= k < 4
      ensures x[k] == y[k]
    {
      ReadsLittleEndian(a, i, k);
      ReadsLittleEndian(b, j, k);
    }
  }

  /** Writing a word back that was read gives the same bytes. */
  lemma WrittenBack32(b: seq<uint8>, at: nat)
    requires at + 4 <= |b|
    ensures Bytes32(U32(b, at)) == b[at..at + 4]
  {
    var w := Bytes32(U32(b, at));
    SameBytes(w, 0, b, at);
    assert w[0..0 + 4] == w;
  }

  lemma WrittenBack64(b: seq<uint8>, at: nat)
    requires at + 8 <= |b|
    ensures Bytes64(U64(b, at)) == b[at..at + 8]
  {
    hide U32, Bytes64;
    var w := Bytes64(U64(b, at));
    SameBytes(w, 0, b, at);
    SameBytes(w, 4, b, at + 4);
    assert w == w[0..0 + 4] + w[4..4 + 4];
    assert b[at..at + 8] == b[at..at + 4] + b[at + 4..at + 4 + 4];
  }

  function Pow2(k: nat): (p: nat)
    ensures p >= 1
  {
    if k == 0 then 1 else 2 * Pow2(k - 1)
  }

  lemma Pow2Of256(k: nat)
    ensures Pow2(k + 8) == 256 * Pow2(k)
  {
    assert Pow2(k + 2) == 2 * Pow2(k + 1) == 4 * Pow2(k);
    assert Pow2(k + 4) == 2 * Pow2(k + 3) == 4 * Pow2(k + 2);
    assert Pow2(k + 6) == 2 * Pow2(k + 5) == 4 * Pow2(k + 4);
    assert Pow2(k + 8) == 2 * Pow2(k + 7) == 4 * Pow2(k + 6);
  }

  lemma {:induction false} ProductsApart(d: nat, a: nat, b: nat)
    requires a < b
    ensures d * a + d <= d * b
    decreases b - a
  {
    assert d * b == d * (b - 1) + d;
    if a < b - 1 {
      ProductsApart(d, a, b - 1);
    }
  }

  lemma QuotientIs(v: nat, d: nat, q: nat, rest: nat)
    requires d > 0 && v == d * q + rest && rest < d
    ensures v / d == q
  {
    var e: nat := v / d;
    assert v == d * e + v % d;
    if e < q {
      ProductsApart(d, e, q);
    } else if e > q {
      ProductsApart(d, q, e);
    }
  }

  /** Dividing twice is dividing by the product. */
  lemma DivideTwice(v: nat, p: nat)
    requires p > 0
    ensures v / 0x100 / p == v / (0x100 * p)
  {
    var q := v / 0x100 / p;
    var rest := v - 0x100 * p * q;
    assert v / 0x100 == p * q + v / 0x100 % p;
    assert 0 <= rest < 0x100 * p;
    QuotientIs(v, 0x100 * p, q, rest);
  }

  /** Byte i is the number divided by 2 to the 8 i, modulo 256. */
  lemma {:induction false} DigitValue(v: nat, i: nat)
    ensures Digit(v, i) == v / Pow2(8 * i) % 0x100
  {
    if i > 0 {
      DigitValue(v / 0x100, i - 1);
      Pow2Of256(8 * (i - 1));
      DivideTwice(v, Pow2(8 * (i - 1)));
    }
  }

  /** EFI_ERROR looks at the high bit of the status and at nothing else. */
  lemma ErrorBit(rc: Status, word: nat)
    requires IsWord(word) && rc.Number(word) < word
    requires rc.Warning? ==> rc.Number(word) < word / 2
    ensures rc.IsError() <==> rc.Number(word) >= word / 2
  {
  }

  /** An EFI_GUID in memory, from its fields as C writes them. */
  function Guid(d1: uint32, d2: uint16, d3: uint16, d4: seq<uint8>): (g: seq<uint8>)
    requires |d4| == 8
    ensures |g| == 16
  {
    Bytes32(d1) + [d2 % 0x100, d2 / 0x100] + [d3 % 0x100, d3 / 0x100] + d4
  }

  /** b with the bytes from at replaced by w. */
  function Patch(b: seq<uint8>, at: nat, w: seq<uint8>): (r: seq<uint8>)
    requires at + |w| <= |b|
    ensures |r| == |b|
    ensures forall i :: 0 <= i < |b| ==> r[i] == if at <= i < at + |w| then w[i - at] else b[i]
  {
    seq(|b|, i requires 0 <= i < |b| => if at <= i < at + |w| then w[i - at] else b[i])
  }

  /** Bitwise or of two unsigned numbers. */
  function BitOr(a: nat, b: nat): (r: nat)
    ensures r >= a && r >= b
    decreases a
  {
    if a == 0 then b
    else 2 * BitOr(a / 2, b / 2) + (if a % 2 == 1 || b % 2 == 1 then 1 else 0)
  }

  /** Bit k of an unsigned number. */
  predicate Bit(a: nat, k: nat) {
    if k == 0 then a % 2 == 1 else Bit(a / 2, k - 1)
  }

  lemma {:induction false} BitOfZero(k: nat)
    ensures !Bit(0, k)
  {
    if k > 0 {
      BitOfZero(k - 1);
    }
  }

  lemma BitOrHalves(a: nat, b: nat)
    requires a > 0
    ensures BitOr(a, b) / 2 == BitOr(a / 2, b / 2)
    ensures BitOr(a, b) % 2 == 1 <==> a % 2 == 1 || b % 2 == 1
  {
  }

  lemma {:induction false} BitOrBits(a: nat, b: nat, k: nat)
    ensures Bit(BitOr(a, b), k) <==> Bit(a, k) || Bit(b, k)
    decreases k
  {
    if a == 0 {
      BitOfZero(k);
    } else {
      BitOrHalves(a, b);
      hide BitOr;
      if k > 0 {
        BitOrBits(a / 2, b / 2, k - 1);
      }
    }
  }

  lemma {:induction false} Pow2Grows(i: nat, j: nat)
    requires i < j
    ensures 2 * Pow2(i) <= Pow2(j)
  {
    if i + 1 < j {
      Pow2Grows(i, j - 1);
    }
  }

  lemma {:induction false} BitOrBound(a: nat, b: nat, k: nat)
    requires a < Pow2(k) && b < Pow2(k)
    ensures BitOr(a, b) < Pow2(k)
  {
    if k > 0 && a > 0 {
      BitOrBound(a / 2, b / 2, k - 1);
    }
  }

  lemma Pow2Of32()
    ensures Pow2(32) == WORD32
  {
    assert Pow2(8) == 256;
    assert Pow2(16) == 65536;
    assert Pow2(24) == 0x100_0000;
  }

  lemma Pow2Of64()
    ensures Pow2(64) == WORD64
  {
    Pow2Of32();
    assert Pow2(40) == 0x100_0000_0000;
    assert Pow2(48) == 0x1_0000_0000_0000;
    assert Pow2(56) == 0x100_0000_0000_0000;
  }

  /** UINTN has 32 or 64 bits. */
  lemma Words(word: nat)
    ensures IsWord(word) <==> word == Pow2(32) || word == Pow2(64)
  {
    Pow2Of32();
    Pow2Of64();
  }

  /** Bitwise or of two 32-bit words. */
  function Or32(a: uint32, b: uint32): (r: uint32)
    ensures r == BitOr(a, b)
  {
    assert Pow2(32) == WORD32 by { Pow2Of32(); }
    BitOrBound(a, b, 32);
    BitOr(a, b)
  }
}

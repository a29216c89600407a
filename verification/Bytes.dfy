/** Optional values: a C pointer that may be NULL, a call that may fail. */
module Options {
  datatype Option<+T> = None | Some(value: T)
}

/** Bytes, the 4-byte length header of a hybrid key, and C's integer conversions. */
module Bytes {

  type Byte = x: int | 0 <= x < 256

  const SIZE_OF_UINT32: nat := 4
  const TWO_TO_THE_31: int := 0x8000_0000
  const TWO_TO_THE_32: int := 0x1_0000_0000
  const TWO_TO_THE_64: int := 0x1_0000_0000_0000_0000

  /** The four bytes `ENCODE_UINT32` stores for the low 32 bits of `n`. */
  function EncodeUint32(n: nat): (r: seq<Byte>)
    ensures |r| == SIZE_OF_UINT32
  {
    [n / 0x100_0000 % 256, n / 0x1_0000 % 256, n / 0x100 % 256, n % 256]
  }

  /** The value `DECODE_UINT32` accumulates from the first four bytes, before any conversion to `int`. */
  function DecodeUint32(s: seq<Byte>): (r: nat)
    requires |s| >= SIZE_OF_UINT32
    ensures r < TWO_TO_THE_32
  {
    s[0] as int * 0x100_0000 + s[1] as int * 0x1_0000 + s[2] as int * 0x100 + s[3]
  }

  /** A header is read back as it was written, whatever follows it. */
  lemma HeaderReadsBack(n: nat, rest: seq<Byte>)
    requires n < TWO_TO_THE_32
    ensures DecodeUint32(EncodeUint32(n) + rest) == n
  {
    assert n == n / 0x100_0000 * 0x100_0000 + n / 0x1_0000 % 256 * 0x1_0000 + n / 0x100 % 256 * 0x100 + n % 256;
  }

  /** Every four bytes are the header of exactly one length. */
  lemma HeaderIsUnique(s: seq<Byte>)
    requires |s| >= SIZE_OF_UINT32
    ensures EncodeUint32(DecodeUint32(s)) == s[..SIZE_OF_UINT32]
  {
    DigitsOfSum(s[0], s[1], s[2], s[3]);
    assert EncodeUint32(DecodeUint32(s)) == [s[0], s[1], s[2], s[3]];
  }

  lemma DigitsOfSum(a: Byte, b: Byte, c: Byte, d: Byte)
    ensures var n := a as int * 0x100_0000 + b as int * 0x1_0000 + c as int * 0x100 + d;
            n / 0x100_0000 % 256 == a && n / 0x1_0000 % 256 == b && n / 0x100 % 256 == c && n % 256 == d
  {
    var n := a as int * 0x100_0000 + b as int * 0x1_0000 + c as int * 0x100 + d;
    assert n / 0x100 == a as int * 0x1_0000 + b as int * 0x100 + c;
    assert n / 0x1_0000 == a as int * 0x100 + b;
    assert n / 0x100_0000 == a;
  }

  /** Bitwise OR. */
  function Or(x: nat, y: nat): nat
    decreases x + y
  {
    if x == 0 && y == 0 then 0
    else 2 * Or(x / 2, y / 2) + if x % 2 == 1 || y % 2 == 1 then 1 else 0
  }

  function Power2(k: nat): (r: nat)
    ensures r > 0
  {
    if k == 0 then 1 else 2 * Power2(k - 1)
  }

  lemma {:induction false} OrWithZero(x: nat)
    ensures Or(x, 0) == x
  {
    if x > 0 {
      OrWithZero(x / 2);
    }
  }

  /** A value shifted left by `k` and one of `k` bits share no bit: their OR is their sum. */
  lemma {:induction false} OrOfShifted(x: nat, k: nat, low: nat)
    requires low < Power2(k)
    ensures Or(x * Power2(k), low) == x * Power2(k) + low
  {
    if k == 0 {
      OrWithZero(x);
    } else {
      OrOfShifted(x, k - 1, low / 2);
      Doubled(x, Power2(k - 1));
    }
  }

  lemma Doubled(x: nat, p: nat)
    ensures x * (2 * p) == 2 * (x * p)
  {
  }

  /** The OR-ed accumulation of the macro is the sum the model decodes with. */
  lemma OrIsSum(s: seq<Byte>)
    requires |s| >= SIZE_OF_UINT32
    ensures Or(Or(Or(s[0] as nat * 0x100_0000, s[1] as nat * 0x1_0000), s[2] as nat * 0x100), s[3]) == DecodeUint32(s)
  {
    Powers();
    var a, b, c, d := s[0] as nat, s[1] as nat, s[2] as nat, s[3] as nat;
    OrOfShifted(a, 24, b * 0x1_0000);
    OrOfShifted(a * 0x100 + b, 16, c * 0x100);
    OrOfShifted(a * 0x1_0000 + b * 0x100 + c, 8, d);
  }

  lemma Powers()
    ensures Power2(8) == 0x100 && Power2(16) == 0x1_0000 && Power2(24) == 0x100_0000
  {
    assert Power2(8) == 0x100;
    assert Power2(12) == 0x1000;
    assert Power2(16) == 0x1_0000;
    assert Power2(20) == 0x10_0000;
  }

  /** Conversion to a 32-bit `int`. */
  function AsInt(n: int): (r: int)
    ensures -TWO_TO_THE_31 <= r < TWO_TO_THE_31
    ensures -TWO_TO_THE_31 <= n < TWO_TO_THE_31 ==> r == n
  {
    var m := n % TWO_TO_THE_32;
    if m < TWO_TO_THE_31 then m else m - TWO_TO_THE_32
  }

  /** Conversion to a 64-bit `size_t`; a negative `int` becomes a huge value. */
  function AsSize(n: int): (r: nat)
    ensures r < TWO_TO_THE_64
    ensures 0 <= n < TWO_TO_THE_64 ==> r == n
    ensures -TWO_TO_THE_31 <= n < 0 ==> r >= TWO_TO_THE_32
  {
    n % TWO_TO_THE_64
  }

  function Zeros(n: nat): (r: seq<Byte>)
    ensures |r| == n
  {
    seq(n, _ => 0)
  }

  /** `s` after a copy of `data` to position `at`. */
  function Splice(s: seq<Byte>, at: nat, data: seq<Byte>): (r: seq<Byte>)
    requires at + |data| <= |s|
    ensures |r| == |s|
    ensures r[at..at + |data|] == data
  {
    s[..at] + data + s[at + |data|..]
  }

  /** `memcpy(dst + at, data, |data|)`. */
  method Memcpy(dst: array<Byte>, at: nat, data: seq<Byte>)
    requires at + |data| <= dst.Length
    modifies dst
    ensures dst[..] == Splice(old(dst[..]), at, data)
  {
    forall i | 0 <= i < |data| {
      dst[at + i] := data[i];
    }
  }

  /** `ENCODE_UINT32(dst, n)`. */
  method StoreUint32(dst: array<Byte>, n: nat)
    requires SIZE_OF_UINT32 <= dst.Length
    modifies dst
    ensures dst[..] == Splice(old(dst[..]), 0, EncodeUint32(n))
  {
    dst[0] := n / 0x100_0000 % 256;
    dst[1] := n / 0x1_0000 % 256;
    dst[2] := n / 0x100 % 256;
    dst[3] := n % 256;
    assert dst[4..] == old(dst[4..]);
  }
}

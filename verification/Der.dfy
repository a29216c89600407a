/** The OCTET STRING wrapper of a private key: sections 8.1.3 (length octets), 8.7 (octetstring)
    and 10.1 (minimal definite lengths) of X.690. */
module Der {
  import opened Options
  import opened Bytes

  const OCTET_STRING_TAG: Byte := 0x04

  /** The base-256 digits of `n`, most significant first, without leading zeros. */
  function Digits(n: nat): (d: seq<Byte>)
    ensures |d| > 0
    ensures n > 0 ==> d[0] != 0
  {
    if n < 256 then [n] else Digits(n / 256) + [n % 256]
  }

  function FromDigits(d: seq<Byte>): nat {
    if d == [] then 0 else FromDigits(d[..|d| - 1]) * 256 + d[|d| - 1]
  }

  lemma {:induction false} DigitsReadBack(n: nat)
    ensures FromDigits(Digits(n)) == n
  {
    if n >= 256 {
      DigitsReadBack(n / 256);
      assert Digits(n)[..|Digits(n)| - 1] == Digits(n / 256);
    }
  }

  /** Digits without a leading zero are the only such digits of their value. */
  lemma {:induction false} DigitsAreUnique(d: seq<Byte>)
    requires |d| > 0 && d[0] != 0
    ensures FromDigits(d) > 0 && Digits(FromDigits(d)) == d
  {
    var m := |d| - 1;
    if m == 0 {
      assert FromDigits(d[..0]) == 0;
    } else {
      DigitsAreUnique(d[..m]);
      assert FromDigits(d) / 256 == FromDigits(d[..m]);
      assert d == d[..m] + [d[m]];
    }
  }

  lemma {:induction false} DigitsAreFew(n: nat, k: nat)
    requires n < Power256(k) && k > 0
    ensures |Digits(n)| <= k
  {
    if k == 1 {
      assert Power256(0) == 1;
    } else if n >= 256 {
      DigitsAreFew(n / 256, k - 1);
    }
  }

  function Power256(k: nat): nat {
    if k == 0 then 1 else 256 * Power256(k - 1)
  }

  lemma FourDigits(n: nat)
    requires n < TWO_TO_THE_32
    ensures |Digits(n)| <= 4
  {
    assert Power256(1) == 256 && Power256(2) == 0x1_0000 && Power256(4) == 256 * Power256(3);
    DigitsAreFew(n, 4);
  }

  function EncodeLength(n: nat): (r: seq<Byte>)
    requires n < TWO_TO_THE_32
  {
    FourDigits(n);
    if n < 128 then [n] else [0x80 + |Digits(n)|] + Digits(n)
  }

  /** `i2d_ASN1_OCTET_STRING`. */
  function EncodeOctets(x: seq<Byte>): (r: seq<Byte>)
    requires |x| < TWO_TO_THE_31
  {
    [OCTET_STRING_TAG] + EncodeLength(|x|) + x
  }

  /** A length field: the value and how many bytes it takes. The indefinite form is not for primitive encodings. */
  function DecodeLength(b: seq<Byte>): (r: Option<(nat, nat)>)
    ensures r.Some? ==> 1 <= r.value.1 <= |b|
  {
    if |b| == 0 || b[0] == 0x80 || b[0] == 0xff then None
    else if b[0] < 128 then Some((b[0], 1))
    else if |b| < 1 + (b[0] - 128) then None
    else Some((FromDigits(b[1..1 + (b[0] - 128)]), 1 + (b[0] - 128)))
  }

  /** `d2i_ASN1_OCTET_STRING`: the contents, and the input after them. */
  function DecodeOctets(b: seq<Byte>): (r: Option<(seq<Byte>, seq<Byte>)>) {
    if |b| == 0 || b[0] != OCTET_STRING_TAG then None else
    match DecodeLength(b[1..])
    case None => None
    case Some((n, used)) =>
      if 1 + used + n > |b| then None
      else Some((b[1 + used..1 + used + n], b[1 + used + n..]))
  }

  /** The length field is the shortest one for its value. */
  predicate MinimalLength(b: seq<Byte>)
    requires |b| > 0 && DecodeLength(b).Some?
  {
    b[0] < 128 || (|b| > 1 && b[1] != 0 && DecodeLength(b).value.0 >= 128)
  }

  lemma LengthReadsBack(n: nat, rest: seq<Byte>)
    requires n < TWO_TO_THE_32
    ensures DecodeLength(EncodeLength(n) + rest) == Some((n, |EncodeLength(n)|))
    ensures MinimalLength(EncodeLength(n) + rest)
  {
    if n >= 128 {
      FourDigits(n);
      DigitsReadBack(n);
      var b := EncodeLength(n) + rest;
      assert b[1..1 + |Digits(n)|] == Digits(n);
    }
  }

  lemma LengthIsUnique(b: seq<Byte>)
    requires |b| > 0 && DecodeLength(b).Some? && DecodeLength(b).value.0 < TWO_TO_THE_32
    requires MinimalLength(b)
    ensures EncodeLength(DecodeLength(b).value.0) == b[..DecodeLength(b).value.1]
  {
    if b[0] >= 128 {
      var k := b[0] as int - 128;
      DigitsAreUnique(b[1..1 + k]);
      assert b[..1 + k] == [b[0]] + b[1..1 + k];
    }
  }

  /** What is wrapped is unwrapped, whatever follows it. */
  lemma OctetsReadBack(x: seq<Byte>, rest: seq<Byte>)
    requires |x| < TWO_TO_THE_31
    ensures DecodeOctets(EncodeOctets(x) + rest) == Some((x, rest))
    ensures MinimalLength((EncodeOctets(x) + rest)[1..])
  {
    var b := EncodeOctets(x) + rest;
    assert b[1..] == EncodeLength(|x|) + (x + rest);
    LengthReadsBack(|x|, x + rest);
  }

  /** Of all encodings the decoder accepts, the encoder's is exactly the one with a minimal length field. */
  lemma OctetsEncodingIsUnique(b: seq<Byte>)
    requires DecodeOctets(b).Some? && |DecodeOctets(b).value.0| < TWO_TO_THE_31
    ensures b == EncodeOctets(DecodeOctets(b).value.0) + DecodeOctets(b).value.1 <==> MinimalLength(b[1..])
  {
    var (x, rest) := DecodeOctets(b).value;
    var (n, used) := DecodeLength(b[1..]).value;
    if MinimalLength(b[1..]) {
      LengthIsUnique(b[1..]);
      assert b == [b[0]] + b[1..][..used] + x + rest;
    }
    if b == EncodeOctets(x) + rest {
      OctetsReadBack(x, rest);
    }
  }

  // ---- byte by byte ----

  /** The encoder's bytes: tag 4, the length in one octet below 128 and otherwise behind an octet that counts its
      base-256 digits, the contents. */
  lemma OctetsSpelledOut(x: seq<Byte>)
    requires |x| < TWO_TO_THE_31
    ensures var n := |x|;
            EncodeOctets(x)
            == (if n < 128 then [0x04, n]
                else if n < 0x100 then [0x04, 0x81, n]
                else if n < 0x1_0000 then [0x04, 0x82, n / 256, n % 256]
                else if n < 0x100_0000 then [0x04, 0x83, n / 0x1_0000, n / 256 % 256, n % 256]
                else [0x04, 0x84, n / 0x100_0000, n / 0x1_0000 % 256, n / 256 % 256, n % 256]) + x
  {
    var n := |x|;
    DigitsSpelledOut(n);
  }

  lemma DigitsSpelledOut(n: nat)
    requires n < TWO_TO_THE_32
    ensures Digits(n)
         == if n < 0x100 then [n]
            else if n < 0x1_0000 then [n / 256, n % 256]
            else if n < 0x100_0000 then [n / 0x1_0000, n / 256 % 256, n % 256]
            else [n / 0x100_0000, n / 0x1_0000 % 256, n / 256 % 256, n % 256]
  {
    if n >= 256 {
      DigitsSpelledOut(n / 256);
    }
  }

  /** What the parser makes of an input: another tag, the indefinite and the reserved length octet and contents that
      are not all there are refused; a length below 128 is the octet itself, and any number of digits counts whether
      or not they are the shortest way to write it. */
  lemma ParserSpelledOut(b: seq<Byte>)
    ensures |b| < 2 || b[0] != 0x04 ==> DecodeOctets(b).None?
    ensures |b| >= 2 && (b[1] == 0x80 || b[1] == 0xff) ==> DecodeOctets(b).None?
    ensures |b| >= 2 && b[0] == 0x04 && b[1] < 0x80 ==>
              DecodeOctets(b) == if |b| - 2 < b[1] then None else Some((b[2..2 + b[1]], b[2 + b[1]..]))
    ensures |b| >= 2 && b[0] == 0x04 && 0x80 < b[1] < 0xff ==>
              var k: int := b[1] - 0x80;
              DecodeOctets(b)
              == if |b| < 2 + k then None else
                 var n := FromDigits(b[2..2 + k]);
                 if |b| < 2 + k + n then None else Some((b[2 + k..2 + k + n], b[2 + k + n..]))
    ensures |b| >= 3 && b[0] == 0x04 && b[1] == 0x81 ==>
              DecodeOctets(b) == if |b| - 3 < b[2] then None else Some((b[3..3 + b[2]], b[3 + b[2]..]))
    ensures |b| >= 4 && b[0] == 0x04 && b[1] == 0x82 ==>
              var n := b[2] as int * 256 + b[3];
              DecodeOctets(b) == if |b| < 4 + n then None else Some((b[4..4 + n], b[4 + n..]))
  {
    if |b| >= 2 && 0x80 < b[1] < 0xff && |b| >= 2 + (b[1] as int - 0x80) {
      assert b[1..][1..1 + (b[1] as int - 0x80)] == b[2..2 + (b[1] as int - 0x80)];
    }
    if |b| >= 3 {
      OneOrTwoDigits(b[2..3]);
      assert b[1..][1..2] == b[2..3];
    }
    if |b| >= 4 {
      OneOrTwoDigits(b[2..4]);
      assert b[1..][1..3] == b[2..4];
    }
  }

  lemma OneOrTwoDigits(d: seq<Byte>)
    requires 1 <= |d| <= 2
    ensures FromDigits(d) == if |d| == 1 then d[0] else d[0] as int * 256 + d[1]
  {
    assert d[..|d| - 1] == if |d| == 1 then [] else [d[0]];
    assert FromDigits([]) == 0 && (|d| == 2 ==> [d[0]][..0] == [] && FromDigits([d[0]]) == d[0]);
  }
}

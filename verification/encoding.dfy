/** Bytes, 32-byte digests, fixed-width integer codecs (`to_be_bytes`,
    `from_be_bytes`, `from_le_bytes`) and decimal text. */
module Encoding {
  import opened Bits

  type byte = b: nat | b < 256
  type Bytes = seq<byte>

  /** A 32-byte hash value (`HashVal`, and the output of the MelPoW hasher). */
  type Digest = s: Bytes | |s| == 32 witness seq(32, _ => 0)

  /** `HashVal::default()`: 32 zero bytes. */
  function ZeroDigest(): Digest
  {
    seq(32, _ => 0)
  }

  /** The k-byte big-endian encoding of x modulo 256^k (`to_be_bytes`). */
  function ToBE(x: nat, k: nat): (r: Bytes)
    ensures |r| == k
  {
    if k == 0 then [] else ToBE(x / 256, k - 1) + [x % 256]
  }

  /** The number a big-endian byte string denotes (`from_be_bytes`). */
  function FromBE(s: Bytes): nat
  {
    if |s| == 0 then 0 else FromBE(s[..|s| - 1]) * 256 + s[|s| - 1]
  }

  /** The number a little-endian byte string denotes (`from_le_bytes`). */
  function FromLE(s: Bytes): nat
  {
    if |s| == 0 then 0 else s[0] + 256 * FromLE(s[1..])
  }

  lemma Pow2Bytes(k: nat)
    requires k > 0
    ensures Pow2(8 * k) == 256 * Pow2(8 * (k - 1))
  {
    var j := 8 * (k - 1);
    Pow2Shift8(j);
    assert 8 * k == j + 8;
  }

  lemma Pow2Shift8(j: nat)
    ensures Pow2(j + 8) == 256 * Pow2(j)
  {
    assert Pow2(j + 8) == 2 * Pow2(j + 7);
    assert Pow2(j + 7) == 2 * Pow2(j + 6);
    assert Pow2(j + 6) == 2 * Pow2(j + 5);
    assert Pow2(j + 5) == 2 * Pow2(j + 4);
    assert Pow2(j + 4) == 2 * Pow2(j + 3);
    assert Pow2(j + 3) == 2 * Pow2(j + 2);
    assert Pow2(j + 2) == 2 * Pow2(j + 1);
  }

  lemma {:induction false} FromBEBound(s: Bytes)
    ensures FromBE(s) < Pow2(8 * |s|)
  {
    if |s| > 0 {
      FromBEBound(s[..|s| - 1]);
      Pow2Bytes(|s|);
      MulLe(FromBE(s[..|s| - 1]) + 1, Pow2(8 * (|s| - 1)), 256);
    }
  }

  /** Decoding a big-endian encoding gives the number back. */
  lemma {:induction false} BERoundTrip(x: nat, k: nat)
    requires x < Pow2(8 * k)
    ensures FromBE(ToBE(x, k)) == x
  {
    if k > 0 {
      var s := ToBE(x, k);
      assert s[..k - 1] == ToBE(x / 256, k - 1);
      Pow2Bytes(k);
      BERoundTrip(x / 256, k - 1);
    }
  }

  /** Encoding a decoded byte string gives the bytes back. */
  lemma {:induction false} BEInverse(s: Bytes)
    ensures ToBE(FromBE(s), |s|) == s
  {
    if |s| > 0 {
      var init := s[..|s| - 1];
      var x := FromBE(s);
      DivModUnique(x, 256, FromBE(init), s[|s| - 1]);
      BEInverse(init);
      assert s == init + [s[|s| - 1]];
    }
  }

  /** Digit characters of n in base 10, most significant first, no leading
      zeros (Rust's `{}` on an unsigned integer). */
  function Decimal(n: nat): (r: string)
    ensures |r| >= 1
    ensures forall i :: 0 <= i < |r| ==> '0' <= r[i] <= '9'
  {
    if n < 10 then [DigitChar(n)] else Decimal(n / 10) + [DigitChar(n % 10)]
  }

  function DigitChar(d: nat): (c: char)
    requires d < 10
    ensures '0' <= c <= '9'
  {
    (48 + d) as char
  }

  /** The number a string of decimal digits denotes. */
  function DigitsValue(s: string): nat
    requires forall i :: 0 <= i < |s| ==> '0' <= s[i] <= '9'
  {
    if |s| == 0 then 0
    else DigitsValue(s[..|s| - 1]) * 10 + ((s[|s| - 1] as int) - 48)
  }

  /** Reading back the decimal text of n gives n. */
  lemma {:induction false} DecimalRoundTrip(n: nat)
    ensures DigitsValue(Decimal(n)) == n
  {
    if n >= 10 {
      var s := Decimal(n);
      assert s[..|s| - 1] == Decimal(n / 10);
      DecimalRoundTrip(n / 10);
    }
  }

  /** The ASCII bytes of a string of ASCII characters. */
  function Ascii(s: string): (r: Bytes)
    requires forall i :: 0 <= i < |s| ==> s[i] as int < 128
    ensures |r| == |s|
  {
    seq(|s|, i requires 0 <= i < |s| => s[i] as int)
  }

  /** Different ASCII strings have different bytes. */
  lemma AsciiInjective(s: string, t: string)
    requires forall i :: 0 <= i < |s| ==> s[i] as int < 128
    requires forall i :: 0 <= i < |t| ==> t[i] as int < 128
    ensures Ascii(s) == Ascii(t) ==> s == t
  {
    if Ascii(s) == Ascii(t) {
      forall i | 0 <= i < |s|
        ensures s[i] == t[i]
      {
        assert Ascii(s)[i] == Ascii(t)[i];
      }
    }
  }
}

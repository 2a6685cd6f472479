/** The multiprecision-integer (MPI) wire form of section 3.2 of RFC 4880:
    a two-octet big-endian bit count followed by the value as big-endian
    octets. Encoding follows the Python 2 code step by step: the bit count is
    the length of `bin(n)` without its `0b` prefix, and the value octets come
    from `hex(n)` with its `0x` prefix and `L` suffix cut off, padded to an even
    number of digits and decoded two digits to an octet. */
module Mpi {
  import opened Bytes

  /* ---------- Python 2 bin() and hex() of a non-negative long ---------- */

  /** The binary digits of `n`, most significant first, no leading zero ("0" for zero). */
  function BinDigits(n: nat): (s: string)
    ensures |s| >= 1
  {
    if n < 2 then [if n == 0 then '0' else '1']
    else BinDigits(n / 2) + [if n % 2 == 0 then '0' else '1']
  }

  /** `bin(n)`. */
  function Bin(n: nat): string { "0b" + BinDigits(n) }

  /** `len(bin(n)[2:])`: the bit count the encoder writes (1 for zero). */
  function BitLength(n: nat): nat { |Bin(n)[2..]| }

  predicate IsHexChar(c: char) { '0' <= c <= '9' || 'a' <= c <= 'f' }

  predicate AllHex(s: string) { forall i | 0 <= i < |s| :: IsHexChar(s[i]) }

  /** The lower-case hexadecimal digit for `d < 16`. */
  function HexChar(d: nat): (c: char)
    requires d < 16
    ensures IsHexChar(c)
  {
    if d < 10 then (48 + d) as char else (87 + d) as char
  }

  /** The value of a hexadecimal digit. */
  function HexCharValue(c: char): (d: nat)
    requires IsHexChar(c)
    ensures d < 16
  {
    if c <= '9' then c as int - 48 else c as int - 87
  }

  /** The hexadecimal digits of `n`, most significant first, no leading zero ("0" for zero). */
  function HexDigits(n: nat): (s: string)
    ensures |s| >= 1 && AllHex(s)
  {
    if n < 16 then [HexChar(n)] else HexDigits(n / 16) + [HexChar(n % 16)]
  }

  /** `hex(n)` in Python 2: a `long` prints with a trailing `L`, a plain `int` without. */
  function Hex(n: nat, isLong: bool): (s: string)
    ensures |s| >= 3
  {
    "0x" + HexDigits(n) + (if isLong then "L" else "")
  }

  /** The number a string of hexadecimal digits denotes. */
  function HexValue(s: string): nat
    requires AllHex(s)
  {
    if s == [] then 0 else HexValue(s[..|s| - 1]) * 16 + HexCharValue(s[|s| - 1])
  }

  /** `"0" + hexed` when `hexed` has an odd number of digits. */
  function PadEven(hexed: string): (s: string)
    requires AllHex(hexed)
    ensures AllHex(s) && |s| % 2 == 0
  {
    if |hexed| % 2 == 1 then "0" + hexed else hexed
  }

  /** `s.decode('hex')`: every two digits become one octet, in order. */
  function HexDecode(s: string): (r: seq<byte>)
    requires AllHex(s) && |s| % 2 == 0
    ensures |r| == |s| / 2
    ensures BeValue(r) == HexValue(s)
  {
    if s == [] then []
    else
      var prefix := HexDecode(s[..|s| - 2]);
      var last := HexCharValue(s[|s| - 2]) * 16 + HexCharValue(s[|s| - 1]);
      assert s[..|s| - 1][..|s| - 2] == s[..|s| - 2];
      assert (prefix + [last])[..|prefix|] == prefix;
      prefix + [last]
  }

  /* ---------- MPI._encode and MPI._decode ---------- */

  /** The number of value octets that follow a bit count: `int((bitlen + 7) / 8)`. */
  function ByteLength(bitlen: nat): nat { (bitlen + 7) / 8 }

  /** The value octets of `MPI._encode(n)` for a `long` `n`: `hex(n)` without
      `0x` and `L`, padded to an even number of digits, decoded from hex. */
  function ValueOctets(n: nat): (r: seq<byte>)
    ensures |r| == ByteLength(BitLength(n))
    ensures BeValue(r) == n
    ensures n == 0 ==> r == [0]
  {
    var literal := Hex(n, true);
    var hexed := literal[2..|literal| - 1];
    assert hexed == HexDigits(n);
    HexLengths(n);
    HexValueDigits(n);
    HexValuePad(hexed);
    HexDecode(PadEven(hexed))
  }

  /** `MPI._encode(n)` for a `long` `n` whose bit count fits the two-octet field. */
  function Encode(n: nat): (r: seq<byte>)
    requires BitLength(n) < 0x1_0000
    ensures |r| == 2 + ByteLength(BitLength(n))
    ensures BeValue(r[..2]) == BitLength(n)
    ensures BeValue(r[2..]) == n
    ensures n == 0 ==> r == [0, 1, 0]
  {
    var header := BeBytes(BitLength(n), 2);
    var octets := ValueOctets(n);
    var r := header + octets;
    assert r[..2] == header && r[2..] == octets;
    assert n == 0 ==> BitLength(n) == 1 && header == [0, 1] by {
      if n == 0 {
        assert Bin(0)[2..] == "0";
        BeBytes2(1);
      }
    }
    r
  }

  /** `MPI._decode(blob)`: the value and the octets after it. The value slice
      and the rest are Python slices, so a blob shorter than the bit count
      announces yields the octets that are there and an empty rest. */
  function Decoded(blob: seq<byte>): (r: (nat, seq<byte>))
    requires |blob| >= 2
    ensures |blob| - |r.1| == Min(2 + ByteLength(BeValue(blob[..2])), |blob|)
    ensures r.1 == blob[|blob| - |r.1|..]
    ensures r.0 < Pow256(|blob| - |r.1| - 2)
  {
    var stop := Min(2 + ByteLength(BeValue(blob[..2])), |blob|);
    (BeValue(blob[2..stop]), blob[stop..])
  }

  /** `MPI._decode` as the source runs it: unpack the bit count, then fold the
      value octets into an accumulator, shifting by eight bits each time. */
  method Decode(blob: seq<byte>) returns (num: nat, rest: seq<byte>)
    requires |blob| >= 2
    ensures (num, rest) == Decoded(blob)
  {
    var bitlen := (blob[0] as int) * 256 + blob[1];
    BeValue2(blob[..2]);
    var strlen := (bitlen + 7) / 8;
    var stop := Min(2 + strlen, |blob|);
    var mpi := blob[2..stop];
    num := 0;
    for k := 0 to |mpi|
      invariant num == BeValue(mpi[..k])
    {
      assert mpi[..k + 1][..k] == mpi[..k];
      num := num * 256;
      num := num + mpi[k];
    }
    assert mpi[..|mpi|] == mpi;
    rest := blob[stop..];
  }

  /** Round trip: decoding an encoded value gives the value back and leaves
      whatever followed it untouched. */
  lemma {:induction false} DecodeEncode(n: nat, rest: seq<byte>)
    requires BitLength(n) < 0x1_0000
    ensures Decoded(Encode(n) + rest) == (n, rest)
  {
    var e := Encode(n);
    var blob := e + rest;
    assert blob[..2] == e[..2];
    var stop := 2 + ByteLength(BitLength(n));
    assert stop == |e|;
    assert blob[2..stop] == e[2..];
    assert blob[stop..] == rest;
  }

  /* ---------- what the bit count and the digit strings mean ---------- */

  function Pow2(k: nat): (r: nat)
    ensures r >= 1
  {
    if k == 0 then 1 else 2 * Pow2(k - 1)
  }

  /** The bit count is one more than the position of the highest set bit
      (and 1 for zero): `n` needs exactly `BitLength(n)` binary digits. */
  lemma {:induction false} BitLengthBounds(n: nat)
    ensures BitLength(n) >= 1
    ensures n == 0 ==> BitLength(n) == 1
    ensures n < Pow2(BitLength(n))
    ensures n > 0 ==> Pow2(BitLength(n) - 1) <= n
  {
    if n >= 2 {
      BitLengthBounds(n / 2);
      assert BinDigits(n) == BinDigits(n / 2) + [if n % 2 == 0 then '0' else '1'];
    }
  }

  /** Four halvings are one division by sixteen: four more binary digits. */
  lemma BinDigitsBy16(n: nat)
    requires n >= 16
    ensures |BinDigits(n)| == |BinDigits(n / 16)| + 4
  {
    assert |BinDigits(n)| == |BinDigits(n / 2)| + 1;
    assert |BinDigits(n / 2)| == |BinDigits(n / 2 / 2)| + 1;
    assert |BinDigits(n / 2 / 2)| == |BinDigits(n / 2 / 2 / 2)| + 1;
    assert |BinDigits(n / 2 / 2 / 2)| == |BinDigits(n / 2 / 2 / 2 / 2)| + 1;
    assert n / 2 / 2 / 2 / 2 == n / 16;
  }

  lemma {:induction false} BinDigitsAtMost(n: nat, k: nat)
    requires 1 <= k && n < Pow2(k)
    ensures |BinDigits(n)| <= k
  {
    if n >= 2 {
      BinDigitsAtMost(n / 2, k - 1);
    }
  }

  /** One hexadecimal digit per four bits, rounded up. */
  lemma {:induction false} HexLengths(n: nat)
    ensures |HexDigits(n)| == (BitLength(n) + 3) / 4
  {
    if n < 16 {
      assert Pow2(4) == 16;
      BinDigitsAtMost(n, 4);
    } else {
      HexLengths(n / 16);
      BinDigitsBy16(n);
    }
  }

  /** The hexadecimal digits denote the number. */
  lemma {:induction false} HexValueDigits(n: nat)
    ensures HexValue(HexDigits(n)) == n
  {
    if n >= 16 {
      HexValueDigits(n / 16);
      var s := HexDigits(n);
      assert s[..|s| - 1] == HexDigits(n / 16);
    }
  }

  /** Padding with a leading zero digit changes neither the value nor the
      number of octets, rounded up. */
  lemma {:induction false} HexValueZero(s: string)
    requires AllHex(s)
    ensures AllHex("0" + s) && HexValue("0" + s) == HexValue(s)
  {
    var z := "0" + s;
    assert AllHex(z) by {
      forall i | 0 <= i < |z| ensures IsHexChar(z[i]) {
        if i > 0 { assert z[i] == s[i - 1]; }
      }
    }
    if s != [] {
      assert z[..|z| - 1] == "0" + s[..|s| - 1];
      HexValueZero(s[..|s| - 1]);
    } else {
      assert z[..|z| - 1] == [];
    }
  }

  lemma HexValuePad(hexed: string)
    requires AllHex(hexed)
    ensures HexValue(PadEven(hexed)) == HexValue(hexed)
    ensures |PadEven(hexed)| / 2 == (|hexed| + 1) / 2
  {
    if |hexed| % 2 == 1 { HexValueZero(hexed); }
  }

  /* ---------- the plain-int path ---------- */

  /** `MPI._encode(n)` as written, when `n` is a plain Python 2 `int`: `hex(n)`
      then has no `L`, so the `[2:-1]` slice cuts off the last digit, and the
      value octets denote `n / 16` instead of `n`. */
  function EncodeIntPath(n: nat): (r: seq<byte>)
    requires BitLength(n) < 0x1_0000
    ensures |r| == 2 + |HexDigits(n)| / 2
    ensures BeValue(r[..2]) == BitLength(n)
    ensures BeValue(r[2..]) == n / 16
  {
    var bitlen := BitLength(n);
    var literal := Hex(n, false);
    var hexed := literal[2..|literal| - 1];
    var digits := HexDigits(n);
    assert hexed == digits[..|digits| - 1];
    assert AllHex(hexed) by {
      forall i | 0 <= i < |hexed| ensures IsHexChar(hexed[i]) {
        assert hexed[i] == digits[i];
      }
    }
    assert HexValue(hexed) == n / 16 by {
      if n >= 16 {
        assert hexed == HexDigits(n / 16);
        HexValueDigits(n / 16);
      } else {
        assert hexed == [];
      }
    }
    HexValuePad(hexed);
    var octets := HexDecode(PadEven(hexed));
    var r := BeBytes(bitlen, 2) + octets;
    assert r[..2] == BeBytes(bitlen, 2) && r[2..] == octets;
    r
  }

  /** The plain-int path loses the value: 5 encodes as a bit count of 3 with no
      value octets, which decodes to 0. */
  lemma IntPathLosesValue()
    ensures BitLength(5) < 0x1_0000
    ensures EncodeIntPath(5) == [0, 3]
    ensures Decoded(EncodeIntPath(5)) == (0, [])
    ensures Decoded(Encode(5)) == (5, [])
  {
    assert BinDigits(5) == "101" by {
      assert BinDigits(2) == "10";
    }
    assert BitLength(5) == 3;
    assert HexDigits(5) == "5";
    var literal := Hex(5, false);
    assert literal == "0x5";
    assert literal[2..|literal| - 1] == [];
    BeBytes2(3);
    assert EncodeIntPath(5) == [0, 3];
    var e := [0, 3];
    assert e[..2] == e;
    BeValue2(e);
    DecodeEncode(5, []);
    assert Encode(5) + [] == Encode(5);
  }
}

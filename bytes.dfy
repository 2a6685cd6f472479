/** Octets and big-endian unsigned integers, as `struct.pack`/`struct.unpack`
    with the `!` (network order) prefix read and write them. */
module Bytes {

  /** One octet of a Python 2 byte string. */
  type byte = x: int | 0 <= x < 256

  function Min(a: nat, b: nat): nat { if a <= b then a else b }

  function Pow256(k: nat): (r: nat)
    ensures r >= 1
  {
    if k == 0 then 1 else 256 * Pow256(k - 1)
  }

  /** The unsigned integer a big-endian octet string denotes. */
  function BeValue(s: seq<byte>): (r: nat)
    ensures r < Pow256(|s|)
  {
    if s == [] then 0 else BeValue(s[..|s| - 1]) * 256 + s[|s| - 1]
  }

  /** `n` written as exactly `width` big-endian octets (`struct.pack("!H")` is
      width 2, `"!I"` width 4, `"B"` width 1). */
  function BeBytes(n: nat, width: nat): (r: seq<byte>)
    requires n < Pow256(width)
    ensures |r| == width
    ensures BeValue(r) == n
  {
    if width == 0 then []
    else
      var prefix := BeBytes(n / 256, width - 1);
      assert (prefix + [n % 256])[..width - 1] == prefix;
      prefix + [n % 256]
  }

  /** Reading two octets big-endian is the shift-and-add the parser writes out. */
  lemma BeValue2(s: seq<byte>)
    requires |s| == 2
    ensures BeValue(s) == (s[0] as int) * 256 + s[1]
  {
    assert s[..1][..0] == [];
  }

  /** Reading four octets big-endian is the shift-and-add the parser writes out. */
  lemma BeValue4(s: seq<byte>)
    requires |s| == 4
    ensures BeValue(s) == (((s[0] as int) * 256 + s[1]) * 256 + s[2]) * 256 + s[3]
  {
    assert s[..3][..2] == s[..2];
    assert BeValue(s) == BeValue(s[..3]) * 256 + s[3];
    assert BeValue(s[..3]) == BeValue(s[..2]) * 256 + s[2];
    BeValue2(s[..2]);
  }

  /** Two big-endian octets of `n < 65536`, one by one. */
  lemma BeBytes2(n: nat)
    requires n < 0x1_0000
    ensures Pow256(2) == 0x1_0000
    ensures BeBytes(n, 2) == [n / 256, n % 256]
  {
    var r := BeBytes(n, 2);
    BeValue2(r);
  }

  /** Four big-endian octets of `n < 2^32`, recovered by the shift-and-add chain. */
  lemma BeBytes4(n: nat)
    requires n < 0x1_0000_0000
    ensures Pow256(4) == 0x1_0000_0000
    ensures |BeBytes(n, 4)| == 4
    ensures var r := BeBytes(n, 4); (((r[0] as int) * 256 + r[1]) * 256 + r[2]) * 256 + r[3] == n
  {
    assert Pow256(4) == 0x1_0000_0000;
    BeValue4(BeBytes(n, 4));
  }
}

/** Packet header framing (section 4.2 of RFC 4880): `Packet._encodeNew`,
    `Packet._encodeOld`, `Packet._encode`, and the header-reading half of
    `Message._parse`.

    Octets are integers in 0..255, so the source's bit operations are written
    arithmetically: `x & 0x1f` is `x % 32`, `(x >> 2) & 0xf` is `(x / 4) % 16`,
    `x & 0b11` is `x % 4`, bit 7 is set when `x >= 128`, bit 6 when
    `(x / 64) % 2 == 1`, `x << 8` is `x * 256`, and for `tag < 32` the octet
    `0xc0 | tag` is `0xC0 + tag`. */
module Framing {
  import opened Bytes
  import opened Errors

  /** The largest body a two-octet new-format length can announce. */
  const MaxTwoOctetLength := 8383

  /** The `hint` argument of `Packet._encode`: `None` or a string. */
  datatype Hint = NoHint | Named(name: string)
  {
    /** Python truth of the hint: `None` and `''` are false. */
    predicate IsSet() { Named? && name != "" }
  }

  /** The old encoder is chosen: forced by 'old', or no hint and a tag below 15. */
  predicate UsesOld(tag: nat, hint: Hint)
  {
    if hint.IsSet() then hint.name == "old" else tag < 15
  }

  /** The new encoder is chosen: forced by 'new', or no hint and a tag of 15 or more. */
  predicate UsesNew(tag: nat, hint: Hint)
  {
    if hint.IsSet() then hint.name == "new" else tag >= 15
  }

  /** Header octets `_encodeNew` writes before a body of `l` octets. */
  function NewHeaderSize(l: nat): nat { if l < 192 then 2 else 3 }

  /** Header octets `_encodeOld` writes before a body of `l` octets. */
  function OldHeaderSize(l: nat): nat { if l < 255 then 2 else if l < 0xFFFF then 3 else 5 }

  /** The length type (low two bits of the first octet) `_encodeOld` picks. */
  function OldLengthType(l: nat): nat { if l < 255 then 0 else if l < 0xFFFF then 1 else 2 }

  /** `Packet._encodeNew(tag, body)`: the header followed by the body. */
  function EncodeNew(tag: nat, body: seq<byte>): (r: Result<seq<byte>>)
    requires tag < 32
    ensures r.Ok? <==> |body| <= MaxTwoOctetLength
    ensures r.Err? ==> r.error == PartialBodyLength
    ensures r.Ok? ==> var h := NewHeaderSize(|body|);
      && |r.value| == h + |body|
      && r.value[0] == 0xC0 + tag
      && r.value[h..] == body
    ensures r.Ok? && |body| < 192 ==> r.value[1] == |body|
    ensures r.Ok? && |body| >= 192 ==>
      && 192 <= r.value[1] <= 223
      && (r.value[1] as int) * 256 + r.value[2] == 48960 + |body|
  {
    var l := |body|;
    var t := [0xC0 + tag];
    if l < 192 then
      Ok(t + [l] + body)
    else if l <= MaxTwoOctetLength then
      var biased := (((l / 256) + 192) * 256) + l % 256 - 192;
      BeBytes2(biased);
      Ok(t + BeBytes(biased, 2) + body)
    else
      Err(PartialBodyLength)
  }

  /** `Packet._encodeOld(tag, body)`: the header followed by the body. */
  function EncodeOld(tag: nat, body: seq<byte>): (r: Result<seq<byte>>)
    requires tag < 16
    ensures r.Ok? <==> |body| < 0xFFFF_FFFF
    ensures r.Err? ==> r.error == UnsupportedOldLength
    ensures r.Ok? ==> var h := OldHeaderSize(|body|);
      && |r.value| == h + |body|
      && r.value[0] == 0x80 + tag * 4 + OldLengthType(|body|)
      && BeValue(r.value[1..h]) == |body|
      && r.value[h..] == body
  {
    var l := |body|;
    var t := 0x80 + tag * 4;
    if l < 255 then
      var r := [t] + BeBytes(l, 1) + body;
      assert r[1..2] == BeBytes(l, 1);
      Ok(r)
    else if l < 0xFFFF then
      BeBytes2(l);
      var r := [t + 1] + BeBytes(l, 2) + body;
      assert r[1..3] == BeBytes(l, 2);
      Ok(r)
    else if l < 0xFFFF_FFFF then
      BeBytes4(l);
      var r := [t + 2] + BeBytes(l, 4) + body;
      assert r[1..5] == BeBytes(l, 4);
      Ok(r)
    else
      Err(UnsupportedOldLength)
  }

  /** `Packet._encode(tag, body, hint)`: pick the encoder. */
  function Encode(tag: nat, body: seq<byte>, hint: Hint): (r: Result<seq<byte>>)
    requires (UsesOld(tag, hint) ==> tag < 16) && (UsesNew(tag, hint) ==> tag < 32)
    ensures UsesOld(tag, hint) ==> r == EncodeOld(tag, body)
    ensures UsesNew(tag, hint) ==> r == EncodeNew(tag, body)
    ensures !UsesOld(tag, hint) && !UsesNew(tag, hint) ==> r == Err(UnrecognizedHint)
    ensures r.Ok? ==> |r.value| > |body| && (r.value[0] < 0xC0 <==> UsesOld(tag, hint))
  {
    if hint.IsSet() then
      if hint.name == "old" then EncodeOld(tag, body)
      else if hint.name == "new" then EncodeNew(tag, body)
      else Err(UnrecognizedHint)
    else if tag < 15 then
      EncodeOld(tag, body)
    else
      EncodeNew(tag, body)
  }

  /* ---------- reading a header ---------- */

  /** What `_parse` reads from one header: the tag, the body length, and how
      many octets the header took. */
  datatype Header = Header(tag: nat, length: nat, size: nat)

  /** Every octet the header reader indexes is present; Python would raise
      IndexError otherwise, which this model does not follow. */
  predicate HeaderReadable(blob: seq<byte>)
  {
    && |blob| >= 1
    && (blob[0] >= 192 ==>
          && |blob| >= 2
          && (192 <= blob[1] <= 223 ==> |blob| >= 3)
          && (blob[1] == 255 ==> |blob| >= 6))
    && (128 <= blob[0] < 192 ==>
          && (blob[0] % 4 == 0 ==> |blob| >= 2)
          && (blob[0] % 4 == 1 ==> |blob| >= 3)
          && (blob[0] % 4 == 2 ==> |blob| >= 5))
  }

  /** The header-reading half of one `_parse` iteration. */
  function ReadHeader(blob: seq<byte>): (r: Result<Header>)
    requires HeaderReadable(blob)
    ensures r.Ok? ==> 2 <= r.value.size <= |blob| && r.value.tag < 32
    ensures r.Ok? && blob[0] < 192 ==> r.value.tag < 16
    ensures r == Err(MalformedHeader) <==> blob[0] < 128
    ensures r == Err(IndeterminateLength) <==> 128 <= blob[0] < 192 && blob[0] % 4 == 3
    ensures r == Err(PartialBodyLength) <==> blob[0] >= 192 && 224 <= blob[1] <= 254
  {
    var head := blob[0];
    if head < 128 then
      Err(MalformedHeader)
    else if (head / 64) % 2 == 1 then
      var tag := head % 32;
      var l := blob[1] as int;
      if l < 192 then
        Ok(Header(tag, l, 2))
      else if l <= 223 then
        Ok(Header(tag, (l - 192) * 256 + blob[2] + 192, 3))
      else if l == 255 then
        Ok(Header(tag, (((blob[2] as int) * 256 + blob[3]) * 256 + blob[4]) * 256 + blob[5], 6))
      else
        Err(PartialBodyLength)
    else
      var tag := (head / 4) % 16;
      var lengthType := head % 4;
      if lengthType == 0 then
        Ok(Header(tag, blob[1], 2))
      else if lengthType == 1 then
        Ok(Header(tag, (blob[1] as int) * 256 + blob[2], 3))
      else if lengthType == 2 then
        Ok(Header(tag, (((blob[1] as int) * 256 + blob[2]) * 256 + blob[3]) * 256 + blob[4], 5))
      else
        Err(IndeterminateLength)
  }

  /** The reader inverts `_encodeNew`: it recovers the tag and the body length,
      and the body starts right after the 2 or 3 header octets written. */
  lemma ReadEncodedNew(tag: nat, body: seq<byte>, rest: seq<byte>)
    requires tag < 32 && |body| <= MaxTwoOctetLength
    ensures EncodeNew(tag, body).Ok?
    ensures var blob := EncodeNew(tag, body).value + rest;
      && HeaderReadable(blob)
      && ReadHeader(blob) == Ok(Header(tag, |body|, NewHeaderSize(|body|)))
      && blob[NewHeaderSize(|body|)..] == body + rest
  {
    var e := EncodeNew(tag, body).value;
    var h := NewHeaderSize(|body|);
    var blob := e + rest;
    assert blob[..h] == e[..h];
    assert blob[h..] == body + rest;
  }

  /** The reader inverts `_encodeOld`: it recovers the tag and the body length,
      and the body starts right after the 2, 3 or 5 header octets written. */
  lemma ReadEncodedOld(tag: nat, body: seq<byte>, rest: seq<byte>)
    requires tag < 16 && |body| < 0xFFFF_FFFF
    ensures EncodeOld(tag, body).Ok?
    ensures var blob := EncodeOld(tag, body).value + rest;
      && HeaderReadable(blob)
      && ReadHeader(blob) == Ok(Header(tag, |body|, OldHeaderSize(|body|)))
      && blob[OldHeaderSize(|body|)..] == body + rest
  {
    var e := EncodeOld(tag, body).value;
    var h := OldHeaderSize(|body|);
    var blob := e + rest;
    assert blob[..h] == e[..h];
    assert blob[h..] == body + rest;
    var head := blob[0];
    var lengthType := OldLengthType(|body|);
    assert head == 0x80 + tag * 4 + lengthType;
    assert head < 192 && (head / 4) % 16 == tag && head % 4 == lengthType;
    var field := e[1..h];
    assert forall i | 0 <= i < |field| :: blob[1 + i] == field[i];
    if h == 2 {
      assert ReadHeader(blob) == Ok(Header(tag, blob[1], 2));
    } else if h == 3 {
      BeValue2(field);
      assert ReadHeader(blob) == Ok(Header(tag, (blob[1] as int) * 256 + blob[2], 3));
    } else {
      BeValue4(field);
      assert ReadHeader(blob) == Ok(Header(tag, (((blob[1] as int) * 256 + blob[2]) * 256 + blob[3]) * 256 + blob[4], 5));
    }
  }

  /** Whatever encoder `Packet._encode` picks, the reader recovers the tag and
      the body length and finds the body where the encoder put it. */
  lemma ReadEncoded(tag: nat, body: seq<byte>, hint: Hint, rest: seq<byte>)
    requires (UsesOld(tag, hint) ==> tag < 16) && (UsesNew(tag, hint) ==> tag < 32)
    requires Encode(tag, body, hint).Ok?
    ensures var blob := Encode(tag, body, hint).value + rest;
      && HeaderReadable(blob)
      && ReadHeader(blob).Ok?
      && var h := ReadHeader(blob).value;
      && h.tag == tag && h.length == |body|
      && h.size == (if UsesOld(tag, hint) then OldHeaderSize(|body|) else NewHeaderSize(|body|))
      && blob[h.size..] == body + rest
  {
    if UsesOld(tag, hint) {
      ReadEncodedOld(tag, body, rest);
    } else {
      ReadEncodedNew(tag, body, rest);
    }
  }

  /** The reader also takes the five-octet new-format length (`0xFF` and four
      big-endian octets, a six-octet header), which no encoder here writes. */
  lemma ReadFiveOctetLength(tag: nat, l: nat, rest: seq<byte>)
    requires tag < 32 && l < 0x1_0000_0000
    ensures Pow256(4) == 0x1_0000_0000
    ensures var blob := [0xC0 + tag, 255] + BeBytes(l, 4) + rest;
      && HeaderReadable(blob)
      && ReadHeader(blob) == Ok(Header(tag, l, 6))
  {
    BeBytes4(l);
  }
}

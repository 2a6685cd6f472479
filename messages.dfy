/** Packet classes, the tag registry `Message.tagToCls`, and messages: an
    ordered list of packets, written out by `Message.__str__` and read back by
    `Message._parse`. Packet bodies are opaque octet strings. */
module Messages {
  import opened Bytes
  import opened Errors
  import opened Framing

  /** The packet classes, each with the tag it declares. */
  datatype PacketClass =
    | BasePacket
    | PublicKeyPacket
    | PrivateKeyPacket
    | PublicSubkeyPacket
    | PrivateSubkeyPacket
    | UserIDPacket
    | SignaturePacket
  {
    function Tag(): nat
    {
      match this
      case BasePacket => 0
      case PublicKeyPacket => 6
      case PrivateKeyPacket => 5
      case PublicSubkeyPacket => 14
      case PrivateSubkeyPacket => 7
      case UserIDPacket => 13
      case SignaturePacket => 2
    }
  }

  /** An instance of a packet class built from one octet string. `UserIDPacket`
      keeps that string in a field named `uid` and writes it out; the others
      keep it in `body`; here it is `body` for all. */
  datatype Packet = Packet(cls: PacketClass, body: seq<byte>)
  {
    function Tag(): nat { cls.Tag() }

    /** `str(packet)`: `Packet._encode(tag, body)` with no hint. Every class
        has a tag below 15, so this is always the old format. */
    function ToBytes(): (r: Result<seq<byte>>)
      ensures r.Ok? <==> |body| < 0xFFFF_FFFF
      ensures r.Err? ==> r.error == UnsupportedOldLength
      ensures r.Ok? ==> r.value == EncodeOld(Tag(), body).value
    {
      Encode(Tag(), body, NoHint)
    }
  }

  /** `Message.tagToCls(tag)`: only signatures, public keys and user IDs are
      registered, although more classes exist. */
  function TagToCls(tag: nat): (r: Result<PacketClass>)
    ensures r.Ok? <==> tag in {2, 6, 13}
    ensures r.Ok? ==> r.value.Tag() == tag
    ensures r.Err? ==> r.error == UnimplementedTag(tag)
  {
    if tag == 2 then Ok(SignaturePacket)
    else if tag == 6 then Ok(PublicKeyPacket)
    else if tag == 13 then Ok(UserIDPacket)
    else Err(UnimplementedTag(tag))
  }

  /** A registered packet: its class is the one the registry gives for its tag. */
  predicate Registered(p: Packet) { p.Tag() in {2, 6, 13} }

  lemma RegisteredClass(p: Packet)
    requires Registered(p)
    ensures TagToCls(p.Tag()) == Ok(p.cls)
  {
  }

  /* ---------- writing ---------- */

  /** `Message.__str__`: every packet's octets, in order; the first packet
      that cannot be written raises. */
  function Serialize(packets: seq<Packet>): (r: Result<seq<byte>>)
    ensures r.Ok? <==> forall i | 0 <= i < |packets| :: |packets[i].body| < 0xFFFF_FFFF
    ensures r.Err? ==> r.error == UnsupportedOldLength
    ensures packets == [] ==> r == Ok([])
  {
    if packets == [] then Ok([])
    else
      match packets[0].ToBytes()
      case Err(e) => Err(e)
      case Ok(first) =>
        match Serialize(packets[1..])
        case Err(e) => Err(e)
        case Ok(others) => Ok(first + others)
  }

  /* ---------- reading ---------- */

  /** After a header: the body, cut short by Python slicing when the blob ends
      early, and the octets after it. */
  function SplitBody(blob: seq<byte>, h: Header): (r: (seq<byte>, seq<byte>))
    requires h.size <= |blob|
    ensures r.0 + r.1 == blob[h.size..]
    ensures |r.0| == Min(h.length, |blob| - h.size)
  {
    var after := blob[h.size..];
    var n := Min(h.length, |after|);
    (after[..n], after[n..])
  }

  /** Every header `_parse` reaches, up to the first raise, has all the octets
      it indexes. */
  predicate Readable(blob: seq<byte>)
    decreases |blob|
  {
    || blob == []
    || (&& HeaderReadable(blob)
        && match ReadHeader(blob)
           case Err(_) => true
           case Ok(h) => TagToCls(h.tag).Err? || Readable(SplitBody(blob, h).1))
  }

  /** The packets `_parse` returns for `blob`, or the first error it raises. */
  function Parsed(blob: seq<byte>): (r: Result<seq<Packet>>)
    requires Readable(blob)
    ensures blob == [] ==> r == Ok([])
    ensures r.Ok? ==> forall i | 0 <= i < |r.value| :: Registered(r.value[i])
    ensures r.Ok? ==> |r.value| <= |blob| / 2
    decreases |blob|
  {
    if blob == [] then Ok([])
    else
      match ReadHeader(blob)
      case Err(e) => Err(e)
      case Ok(h) =>
        match TagToCls(h.tag)
        case Err(e) => Err(e)
        case Ok(cls) =>
          var (body, next) := SplitBody(blob, h);
          match Parsed(next)
          case Err(e) => Err(e)
          case Ok(others) => Ok([Packet(cls, body)] + others)
  }

  /** Packets already read, ahead of what the rest of the blob parses to. */
  function Prepend(done: seq<Packet>, r: Result<seq<Packet>>): Result<seq<Packet>>
  {
    match r
    case Ok(others) => Ok(done + others)
    case Err(e) => Err(e)
  }

  /** The header-reading half of one `_parse` round, as the source writes it:
      the length is built by shift-and-add, and the blob is rebound past the
      header. Returns the header and the octets after it. */
  method ReadHeaderOctets(blob: seq<byte>) returns (r: Result<Header>, rest: seq<byte>)
    requires HeaderReadable(blob)
    ensures r == ReadHeader(blob)
    ensures r.Ok? ==> rest == blob[r.value.size..]
  {
    rest := blob;
    var head := rest[0];
    if head < 128 {
      return Err(MalformedHeader), rest;
    }
    var tag: nat;
    var l: nat;
    if (head / 64) % 2 == 1 {
      tag := head % 32;
      l := rest[1];
      if l < 192 {
        rest := rest[2..];
        r := Ok(Header(tag, l, 2));
      } else if l <= 223 {
        l := l - 192;
        l := l * 256;
        l := l + rest[2];
        l := l + 192;
        rest := rest[3..];
        r := Ok(Header(tag, l, 3));
      } else if l == 255 {
        l := rest[2];
        l := l * 256;
        l := l + rest[3];
        l := l * 256;
        l := l + rest[4];
        l := l * 256;
        l := l + rest[5];
        rest := rest[6..];
        r := Ok(Header(tag, l, 6));
      } else {
        r := Err(PartialBodyLength);
      }
    } else {
      tag := (head / 4) % 16;
      var lengthType := head % 4;
      l := 0;
      if lengthType == 0 {
        l := rest[1];
        rest := rest[2..];
        r := Ok(Header(tag, l, 2));
      } else if lengthType == 1 {
        l := rest[1];
        l := l * 256;
        l := l + rest[2];
        rest := rest[3..];
        r := Ok(Header(tag, l, 3));
      } else if lengthType == 2 {
        l := rest[1];
        l := l * 256;
        l := l + rest[2];
        l := l * 256;
        l := l + rest[3];
        l := l * 256;
        l := l + rest[4];
        rest := rest[5..];
        r := Ok(Header(tag, l, 5));
      } else {
        r := Err(IndeterminateLength);
      }
    }
  }

  /** One round of `_parse` that reads a registered header. */
  lemma ParsedStep(blob: seq<byte>, h: Header, cls: PacketClass)
    requires blob != [] && Readable(blob)
    requires ReadHeader(blob) == Ok(h) && TagToCls(h.tag) == Ok(cls)
    ensures Readable(SplitBody(blob, h).1)
    ensures Parsed(blob) == Prepend([Packet(cls, SplitBody(blob, h).0)], Parsed(SplitBody(blob, h).1))
  {
  }

  lemma PrependUnits(done: seq<Packet>, r: Result<seq<Packet>>)
    ensures Prepend([], r) == r
    ensures Prepend(done, Ok([])) == Ok(done)
  {
    assert done + [] == done;
    if r.Ok? {
      assert [] + r.value == r.value;
    }
  }

  lemma PrependTwice(done: seq<Packet>, more: seq<Packet>, r: Result<seq<Packet>>)
    ensures Prepend(done, Prepend(more, r)) == Prepend(done + more, r)
  {
    if r.Ok? {
      assert done + (more + r.value) == (done + more) + r.value;
    }
  }

  /** `Message._parse` as the source runs it: a `while blob:` loop that reads
      one header, looks the tag up, slices the body and rebinds the blob to
      what follows, appending each packet. Every round consumes at least the
      two header octets, so the loop ends. */
  method Parse(blob: seq<byte>) returns (r: Result<seq<Packet>>)
    requires Readable(blob)
    ensures r == Parsed(blob)
  {
    var ret: seq<Packet> := [];
    var rest := blob;
    PrependUnits(ret, Parsed(blob));
    while rest != []
      invariant Readable(rest)
      invariant Parsed(blob) == Prepend(ret, Parsed(rest))
      decreases |rest|
    {
      ghost var current := rest;
      var header;
      header, rest := ReadHeaderOctets(rest);
      if header.Err? {
        return Err(header.error);
      }
      var h := header.value;
      var cls: PacketClass;
      match TagToCls(h.tag) {
        case Err(e) => return Err(e);
        case Ok(c) => cls := c;
      }
      var n := Min(h.length, |rest|);
      var packet := Packet(cls, rest[..n]);
      ParsedStep(current, h, cls);
      PrependTwice(ret, [packet], Parsed(rest[n..]));
      ret := ret + [packet];
      rest := rest[n..];
    }
    PrependUnits(ret, Ok([]));
    return Ok(ret);
  }

  /* ---------- round trip ---------- */

  /** Parsing what a message writes gives back the same packets, in the same
      order, when every tag is registered and every body fits the old format. */
  lemma {:induction false} ParseSerialize(packets: seq<Packet>)
    requires forall i | 0 <= i < |packets| :: Registered(packets[i]) && |packets[i].body| < 0xFFFF_FFFF
    ensures Serialize(packets).Ok?
    ensures Readable(Serialize(packets).value)
    ensures Parsed(Serialize(packets).value) == Ok(packets)
  {
    if packets != [] {
      var p := packets[0];
      ParseSerialize(packets[1..]);
      var others := Serialize(packets[1..]).value;
      var first := EncodeOld(p.Tag(), p.body).value;
      var blob := first + others;
      assert Serialize(packets).value == blob;
      ReadEncodedOld(p.Tag(), p.body, others);
      var h := ReadHeader(blob).value;
      RegisteredClass(p);
      assert SplitBody(blob, h) == (p.body, others);
      assert [p] + packets[1..] == packets;
    }
  }

  /** A user ID of 22 octets is written with the old-format header `B4 16`
      (tag 13, length type 0, length 22) and reads back as the same packet. */
  lemma UserIDExample(uid: seq<byte>)
    requires |uid| == 22
    ensures Packet(UserIDPacket, uid).ToBytes() == Ok([0xB4, 0x16] + uid)
    ensures Readable([0xB4, 0x16] + uid)
    ensures Parsed([0xB4, 0x16] + uid) == Ok([Packet(UserIDPacket, uid)])
  {
    var p := Packet(UserIDPacket, uid);
    assert BeBytes(22, 1) == [0x16];
    assert EncodeOld(13, uid) == Ok([0xB4] + [0x16] + uid);
    assert p.ToBytes() == Encode(13, uid, NoHint) == EncodeOld(13, uid);
    assert [0xB4] + [0x16] + uid == [0xB4, 0x16] + uid;
    ParseSerialize([p]);
    assert [p][1..] == [];
    assert p.ToBytes().value + [] == [0xB4, 0x16] + uid;
  }

  /* ---------- errors ---------- */

  /** `_parse` raises on the first packet when its leading octet lacks bit 7,
      when a new-format length octet is 224..254, when an old-format length
      type is 3, or when the tag is not registered. */
  lemma ParseRejects(blob: seq<byte>)
    requires blob != [] && Readable(blob)
    ensures blob[0] < 128 ==> Parsed(blob) == Err(MalformedHeader)
    ensures blob[0] >= 192 && 224 <= blob[1] <= 254 ==> Parsed(blob) == Err(PartialBodyLength)
    ensures 128 <= blob[0] < 192 && blob[0] % 4 == 3 ==> Parsed(blob) == Err(IndeterminateLength)
    ensures ReadHeader(blob).Ok? && ReadHeader(blob).value.tag !in {2, 6, 13} ==>
      Parsed(blob) == Err(UnimplementedTag(ReadHeader(blob).value.tag))
  {
  }

  /** Packet classes that exist and can be written but that `_parse` refuses:
      private keys (5), private subkeys (7) and public subkeys (14). */
  lemma UnregisteredClassesRejected(p: Packet)
    requires p.cls in {PrivateKeyPacket, PrivateSubkeyPacket, PublicSubkeyPacket}
    requires |p.body| < 0xFFFF_FFFF
    ensures p.ToBytes().Ok?
    ensures Readable(p.ToBytes().value)
    ensures Parsed(p.ToBytes().value) == Err(UnimplementedTag(p.Tag()))
  {
    ReadEncodedOld(p.Tag(), p.body, []);
    var blob := p.ToBytes().value;
    assert blob + [] == blob;
    var h := ReadHeader(blob).value;
    assert h.tag == p.Tag() && p.Tag() !in {2, 6, 13};
    assert TagToCls(h.tag) == Err(UnimplementedTag(p.Tag()));
  }

  /* ---------- messages ---------- */

  /** A message: the packets, in stream order. */
  datatype Message = Message(packets: seq<Packet>)
  {
    /** `str(message)`. */
    function ToBytes(): Result<seq<byte>> { Serialize(packets) }
  }

  /** The argument of the `Message` constructor: an octet string, a list or
      tuple of packets, or nothing. */
  datatype Source = FromBytes(blob: seq<byte>) | FromList(list: seq<Packet>) | FromNothing

  /** `Message(body)`. */
  method NewMessage(source: Source) returns (r: Result<Message>)
    requires source.FromBytes? ==> Readable(source.blob)
    ensures source.FromList? ==> r == Ok(Message(source.list))
    ensures source.FromNothing? ==> r == Ok(Message([]))
    ensures source.FromBytes? ==> match Parsed(source.blob)
      case Ok(packets) => r == Ok(Message(packets))
      case Err(e) => r == Err(e)
  {
    match source
    case FromBytes(blob) =>
      var parsed := Parse(blob);
      match parsed {
        case Ok(packets) => r := Ok(Message(packets));
        case Err(e) => r := Err(e);
      }
    case FromList(list) => r := Ok(Message(list));
    case FromNothing => r := Ok(Message([]));
  }
}

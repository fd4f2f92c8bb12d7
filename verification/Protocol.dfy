// The wire protocol: integers, headers and the nine protocol objects.
module Protocol {
  import opened Optional
  import opened Words

  // ---- 32-bit little-endian integers ----

  function Octet(c: char): (o: nat)
    ensures o < 0x100
  {
    c as int % 0x100
  }

  function Encode(n: nat): (s: string)
    requires n < WORD
    ensures |s| == 4 && forall c | c in s :: c as int < 0x100
  {
    [(n % 0x100) as char, (n / 0x100 % 0x100) as char, (n / 0x1_0000 % 0x100) as char, (n / 0x100_0000) as char]
  }

  function Decode(s: string): (n: Word)
    requires |s| == 4
  {
    FromOctets(Octet(s[0]), Octet(s[1]), Octet(s[2]), Octet(s[3]))
  }

  lemma EncodedOctets(n: nat)
    requires n < WORD
    ensures var e := Encode(n);
            && Octet(e[0]) == n % 0x100 && Octet(e[1]) == n / 0x100 % 0x100
            && Octet(e[2]) == n / 0x1_0000 % 0x100 && Octet(e[3]) == n / 0x100_0000
  {
    OctetsOf(n);
  }

  lemma DecodeEncode(n: nat)
    requires n < WORD
    ensures Decode(Encode(n)) == n
  {
    OctetsOf(n);
    EncodedOctets(n);
  }

  lemma EncodeDecode(s: string)
    requires |s| == 4 && forall c | c in s :: c as int < 0x100
    ensures Encode(Decode(s)) == s
  {
    assert s[0] in s && s[1] in s && s[2] in s && s[3] in s;
    Digits(Octet(s[0]), Octet(s[1]), Octet(s[2]), Octet(s[3]));
  }

  // Four octets, the least significant first, make up n.
  ghost predicate LittleEndian(s: string, n: int) {
    && |s| == 4 && (forall i | 0 <= i < 4 :: s[i] as int < 0x100)
    && n == s[0] as int + 0x100 * s[1] as int + 0x1_0000 * s[2] as int + 0x100_0000 * s[3] as int
  }

  lemma DecodeExactly(s: string, n: int)
    requires |s| == 4 && forall i | 0 <= i < 4 :: s[i] as int < 0x100
    ensures Decode(s) == n <==> LittleEndian(s, n)
  {
  }

  lemma EncodeExactly(n: nat, s: string)
    requires n < WORD
    ensures s == Encode(n) <==> LittleEndian(s, n)
  {
    var e := Encode(n);
    assert forall i | 0 <= i < 4 :: e[i] in e;
    DecodeEncode(n);
    DecodeExactly(e, n);
    if LittleEndian(s, n) {
      DecodeExactly(s, n);
      EncodeDecode(s);
    }
  }

  method Encode32BitInt(integer: nat) returns (r: Option<string>)
    ensures r.None? <==> integer > 0xFFFF_FFFF
    ensures r.Some? ==> r.value == Encode(integer) && LittleEndian(r.value, integer)
  {
    if integer > 0xFFFF_FFFF {
      return None;
    }
    var encoded := "";
    for i := 0 to 4
      invariant encoded == Encode(integer)[..i]
    {
      assert Pow2(0) == 1 && Pow2(8) == 0x100 && Pow2(16) == 0x1_0000 && Pow2(24) == 0x100_0000;
      encoded := encoded + [(integer / Pow2(i * 8) % 0x100) as char];
    }
    EncodeExactly(integer, encoded);
    return Some(encoded);
  }

  method Decode32BitInt(encoded: string) returns (r: Option<Word>)
    ensures r.None? <==> |encoded| != 4
    ensures r.Some? ==> r.value == Decode(encoded)
    ensures r.Some? && (forall c | c in encoded :: c as int < 0x100) ==> LittleEndian(encoded, r.value)
  {
    if |encoded| != 4 {
      return None;
    }
    ghost var o := [Octet(encoded[0]), Octet(encoded[1]), Octet(encoded[2]), Octet(encoded[3])];
    var decoded: nat := 0;
    for i := 0 to 4
      invariant decoded == FirstOctets(o, i)
    {
      OrNextOctet(o, i);
      decoded := Or(decoded, Octet(encoded[i]) * Pow2(i * 8));
    }
    if forall c | c in encoded :: c as int < 0x100 {
      assert forall i | 0 <= i < 4 :: encoded[i] in encoded;
      DecodeExactly(encoded, decoded);
    }
    return Some(decoded);
  }

  // ---- headers ----

  datatype Kind =
    | FileKind | CloseFileKind | ClientKind | DisconnectKind | MessageKind
    | FileHandleKind | ClientHandleKind | AcknowledgedKind | NotAcknowledgedKind

  function Tag(k: Kind): (t: string)
    ensures |t| == 4
  {
    match k
    case FileKind => "open"
    case CloseFileKind => "clos"
    case ClientKind => "clnt"
    case DisconnectKind => "disc"
    case MessageKind => "mesg"
    case FileHandleKind => "filh"
    case ClientHandleKind => "clnh"
    case AcknowledgedKind => "ackn"
    case NotAcknowledgedKind => "nack"
  }

  // The payload length the factory insists on, if it does.
  function FixedLength(k: Kind): Option<nat> {
    match k
    case FileHandleKind => Some(4)
    case CloseFileKind => Some(4)
    case ClientHandleKind => Some(4)
    case DisconnectKind => Some(4)
    case AcknowledgedKind => Some(0)
    case _ => None
  }

  function Header(k: Kind, length: nat): (h: string)
    requires length < WORD
    ensures |h| == 12
  {
    "logs" + Tag(k) + Encode(length)
  }

  datatype HeaderError =
    | WrongSize
    | MissingStartSequence
    | UnknownType(typeSpec: string)
    | WrongPayloadLength(kind: Kind, actual: nat)

  datatype Creation = Created(kind: Kind, payloadLength: nat) | Refused(error: HeaderError)

  function LookUp(tag: string): Option<Kind> {
    if tag == "open" then Some(FileKind)
    else if tag == "mesg" then Some(MessageKind)
    else if tag == "filh" then Some(FileHandleKind)
    else if tag == "clos" then Some(CloseFileKind)
    else if tag == "clnh" then Some(ClientHandleKind)
    else if tag == "ackn" then Some(AcknowledgedKind)
    else if tag == "nack" then Some(NotAcknowledgedKind)
    else if tag == "clnt" then Some(ClientKind)
    else if tag == "disc" then Some(DisconnectKind)
    else None
  }

  // The receivable a header announces.
  function Create(header: string): Creation {
    if |header| != 12 then Refused(WrongSize)
    else if header[..4] != "logs" then Refused(MissingStartSequence)
    else
      var kind := LookUp(header[4..8]);
      if kind.None? then Refused(UnknownType(header[4..8]))
      else
        var length := Decode(header[8..]);
        var fixed := FixedLength(kind.value);
        if fixed.Some? && fixed.value != length then Refused(WrongPayloadLength(kind.value, length))
        else Created(kind.value, length)
  }

  predicate AllowedLength(k: Kind, length: nat) {
    length < WORD && (FixedLength(k).Some? ==> FixedLength(k).value == length)
  }

  lemma LookUpIsInverse(tag: string, k: Kind)
    ensures LookUp(tag) == Some(k) <==> tag == Tag(k)
  {
    assert Tag(k)[0] == 'o' || Tag(k)[0] == 'c' || Tag(k)[0] == 'd' || Tag(k)[0] == 'm' || Tag(k)[0] == 'f'
        || Tag(k)[0] == 'a' || Tag(k)[0] == 'n';
  }

  lemma HeaderAccepted(k: Kind, length: nat)
    requires AllowedLength(k, length)
    ensures Create(Header(k, length)) == Created(k, length)
  {
    var h := Header(k, length);
    assert h[..4] == "logs" && h[4..8] == Tag(k) && h[8..] == Encode(length);
    LookUpIsInverse(Tag(k), k);
    DecodeEncode(length);
  }

  lemma OnlyPrintedAccepted(header: string, k: Kind, length: nat)
    requires forall c | c in header :: c as int < 0x100
    requires Create(header) == Created(k, length)
    ensures AllowedLength(k, length) && header == Header(k, length)
  {
    var tag, size := header[4..8], header[8..];
    assert header == header[..4] + tag + size;
    assert forall c | c in size :: c in header;
    LookUpIsInverse(tag, k);
    EncodeDecode(size);
  }

  lemma CanonicalHeader(header: string, k: Kind, length: nat)
    requires forall c | c in header :: c as int < 0x100
    ensures Create(header) == Created(k, length) <==> AllowedLength(k, length) && header == Header(k, length)
  {
    if Create(header) == Created(k, length) { OnlyPrintedAccepted(header, k, length); }
    if AllowedLength(k, length) { HeaderAccepted(k, length); }
  }

  // The nine kinds by their four letters, and the lengths that go with them.
  ghost predicate Announces(tag: string, length: int, k: Kind) {
    match k
    case FileKind => tag == "open"
    case CloseFileKind => tag == "clos" && length == 4
    case ClientKind => tag == "clnt"
    case DisconnectKind => tag == "disc" && length == 4
    case MessageKind => tag == "mesg"
    case FileHandleKind => tag == "filh" && length == 4
    case ClientHandleKind => tag == "clnh" && length == 4
    case AcknowledgedKind => tag == "ackn" && length == 0
    case NotAcknowledgedKind => tag == "nack"
  }

  lemma AnnouncesExactly(tag: string, length: nat, k: Kind)
    requires length < WORD
    ensures Announces(tag, length, k) <==> tag == Tag(k) && AllowedLength(k, length)
  {
  }

  // Which byte strings are a header, of which kind and for which payload length; all others are
  // refused.
  lemma HeaderExactly(header: string, k: Kind, length: nat)
    requires forall c | c in header :: c as int < 0x100
    ensures Create(header) == Created(k, length)
       <==> && |header| == 12 && header[..4] == "logs" && LittleEndian(header[8..], length)
            && Announces(header[4..8], length, k)
  {
    if |header| == 12 {
      var tag, size := header[4..8], header[8..];
      assert forall i | 0 <= i < 4 :: size[i] == header[8 + i] && header[8 + i] in header;
      DecodeExactly(size, length);
      LookUpIsInverse(tag, k);
      AnnouncesExactly(tag, Decode(size), k);
    }
  }

  // Why a header is refused.
  lemma RefusedBecause(header: string)
    requires forall c | c in header :: c as int < 0x100
    ensures Create(header) == Refused(WrongSize) <==> |header| != 12
    ensures Create(header) == Refused(MissingStartSequence) <==> |header| == 12 && header[..4] != "logs"
    ensures |header| == 12 && header[..4] == "logs" ==>
              (Create(header) == Refused(UnknownType(header[4..8]))
               <==> header[4..8] !in ["open", "clos", "clnt", "disc", "mesg", "filh", "clnh", "ackn", "nack"])
  {
  }

  // The length is to blame where another length would do.
  lemma RefusedForLength(header: string, k: Kind, length: nat)
    requires |header| == 12 && header[..4] == "logs" && LittleEndian(header[8..], length)
    ensures Create(header) == Refused(WrongPayloadLength(k, length))
       <==> && !Announces(header[4..8], length, k)
            && Announces(header[4..8], if k == AcknowledgedKind then 0 else 4, k)
  {
    DecodeExactly(header[8..], length);
    LookUpIsInverse(header[4..8], k);
    AnnouncesExactly(header[4..8], length, k);
    AnnouncesExactly(header[4..8], if k == AcknowledgedKind then 0 else 4, k);
  }

  // ---- protocol objects ----

  datatype Address = V4(bytes: string) | V6(bytes: string)

  const LOOPBACK := V4("\U{7F}\0\0\U{01}")

  datatype ProtObj =
    | File(name: string)
    | CloseFile(fh: Word)
    | Client(name: string, ip: Address)
    | Disconnect(client: Word)
    | Message(fh: Word, text: string)
    | FileHandle(fh: Word)
    | ClientHandle(client: Word)
    | Acknowledged
    | NotAcknowledged(reason: string)

  function KindOf(m: ProtObj): Kind {
    match m
    case File(_) => FileKind
    case CloseFile(_) => CloseFileKind
    case Client(_, _) => ClientKind
    case Disconnect(_) => DisconnectKind
    case Message(_, _) => MessageKind
    case FileHandle(_) => FileHandleKind
    case ClientHandle(_) => ClientHandleKind
    case Acknowledged => AcknowledgedKind
    case NotAcknowledged(_) => NotAcknowledgedKind
  }

  function Payload(m: ProtObj): string {
    match m
    case File(name) => name
    case CloseFile(fh) => Encode(fh)
    case Client(name, V4(bytes)) => "v4" + bytes + name
    case Client(name, V6(bytes)) => "v6" + bytes + name
    case Disconnect(client) => Encode(client)
    case Message(fh, text) => Encode(fh) + text
    case FileHandle(fh) => Encode(fh)
    case ClientHandle(client) => Encode(client)
    case Acknowledged => ""
    case NotAcknowledged(reason) => reason
  }

  // The octets of an object, field by field, and the letters of its kind.
  ghost predicate Image(m: ProtObj, tag: string, p: string) {
    match m
    case File(name) => tag == "open" && p == name
    case CloseFile(fh) => tag == "clos" && LittleEndian(p, fh)
    case Client(name, V4(bytes)) => tag == "clnt" && p == "v4" + bytes + name
    case Client(name, V6(bytes)) => tag == "clnt" && p == "v6" + bytes + name
    case Disconnect(client) => tag == "disc" && LittleEndian(p, client)
    case Message(fh, text) => tag == "mesg" && |p| >= 4 && LittleEndian(p[..4], fh) && p[4..] == text
    case FileHandle(fh) => tag == "filh" && LittleEndian(p, fh)
    case ClientHandle(client) => tag == "clnh" && LittleEndian(p, client)
    case Acknowledged => tag == "ackn" && p == ""
    case NotAcknowledged(reason) => tag == "nack" && p == reason
  }

  lemma ImageExactly(m: ProtObj, tag: string, p: string)
    ensures Image(m, tag, p) <==> tag == Tag(KindOf(m)) && p == Payload(m)
  {
    match m
    case CloseFile(fh) => EncodeExactly(fh, p);
    case Disconnect(client) => EncodeExactly(client, p);
    case FileHandle(fh) => EncodeExactly(fh, p);
    case ClientHandle(client) => EncodeExactly(client, p);
    case Message(fh, text) =>
      if |p| >= 4 {
        EncodeExactly(fh, p[..4]);
        assert p == p[..4] + p[4..];
      }
      assert (Encode(fh) + text)[..4] == Encode(fh) && (Encode(fh) + text)[4..] == text;
    case _ =>
  }

  // A char of the payload as the int that shifting promotes it to, seen as unsigned: chars are
  // signed, so one from 0x80 up fills every higher octet of the word with ones.
  function Promoted(c: char, shift: nat): nat
    requires shift <= 3
  {
    var fill := if Octet(c) >= 0x80 then 0xFF else 0;
    match shift
    case 0 => FromOctets(Octet(c), fill, fill, fill)
    case 1 => FromOctets(0, Octet(c), fill, fill)
    case 2 => FromOctets(0, 0, Octet(c), fill)
    case _ => FromOctets(0, 0, 0, Octet(c))
  }

  // The handle as Message::read_payload puts it together.
  function MessageHandle(payload: string): nat
    requires |payload| >= 4
  {
    Or(Or(Or(Or(0, Promoted(payload[0], 0)), Promoted(payload[1], 1)), Promoted(payload[2], 2)),
       Promoted(payload[3], 3))
  }

  function Spread(b0: nat, b1: nat, b2: nat, b3: nat): (h: nat)
    requires b0 < 0x100 && b1 < 0x100 && b2 < 0x100 && b3 < 0x100
    ensures h < WORD
  {
    FromOctets(b0, if b0 >= 0x80 then 0xFF else b1, if b0 >= 0x80 || b1 >= 0x80 then 0xFF else b2,
               if b0 >= 0x80 || b1 >= 0x80 || b2 >= 0x80 then 0xFF else b3)
  }

  lemma MessageHandleSpreads(p: string)
    requires |p| >= 4
    ensures MessageHandle(p) == Spread(Octet(p[0]), Octet(p[1]), Octet(p[2]), Octet(p[3]))
  {
    var b0, b1, b2, b3 := Octet(p[0]), Octet(p[1]), Octet(p[2]), Octet(p[3]);
    var f0, f1, f2 := if b0 >= 0x80 then 0xFF else 0, if b1 >= 0x80 then 0xFF else 0, if b2 >= 0x80 then 0xFF else 0;
    var g1 := if b0 >= 0x80 then 0xFF else b1;
    var f01 := if b0 >= 0x80 then 0xFF else f1;
    var g2 := if b0 >= 0x80 || b1 >= 0x80 then 0xFF else b2;
    var f012 := if b0 >= 0x80 || b1 >= 0x80 then 0xFF else f2;
    OrFill(f0, b1);
    OrFill(f0, f1);
    OrOctets(b0, f0, f0, f0, 0, b1, f1, f1);
    assert Or(Promoted(p[0], 0), Promoted(p[1], 1)) == FromOctets(b0, g1, f01, f01);
    OrFill(f01, b2);
    OrFill(f01, f2);
    OrOctets(b0, g1, f01, f01, 0, 0, b2, f2);
    assert Or(FromOctets(b0, g1, f01, f01), Promoted(p[2], 2)) == FromOctets(b0, g1, g2, f012);
    OrFill(f012, b3);
    OrOctets(b0, g1, g2, f012, 0, 0, 0, b3);
  }

  lemma OrFill(fill: nat, b: nat)
    requires (fill == 0 || fill == 0xFF) && b < 0x100
    ensures Or(fill, b) == if fill == 0xFF then 0xFF else b
  {
    assert Pow2(8) == 0x100;
    OrOnes(8, b);
  }

  // The object a payload is read into, or None where an assertion of the code fails.
  function ReadPayload(k: Kind, p: string): Option<ProtObj>
    requires AllowedLength(k, |p|)
  {
    match k
    case FileKind => Some(File(p))
    case CloseFileKind => Some(CloseFile(Decode(p)))
    case ClientKind =>
      if |p| <= 2 then None
      else if p[..2] == "v4" then
        if |p| <= 6 then None else Some(Client(p[6..], V4(p[2..6])))
      else if p[..2] == "v6" then
        if |p| <= 18 then None else Some(Client(p[18..], V6(p[2..18])))
      else Some(Client("unnamed", LOOPBACK))
    case DisconnectKind => Some(Disconnect(Decode(p)))
    case MessageKind =>
      if |p| < 4 then None else
        MessageHandleSpreads(p);
        Some(Message(MessageHandle(p), p[4..]))
    case FileHandleKind => Some(FileHandle(Decode(p)))
    case ClientHandleKind => Some(ClientHandle(Decode(p)))
    case AcknowledgedKind => Some(Acknowledged)
    case NotAcknowledgedKind => Some(NotAcknowledged(p))
  }

  // Addresses have 4 or 16 octets, and the length field has room for the payload.
  predicate Sendable(m: ProtObj) {
    && |Payload(m)| < WORD
    && (m.Client? ==> |m.ip.bytes| == if m.ip.V4? then 4 else 16)
  }

  // The handles that sign extension leaves alone: below every octet with its top bit set, or
  // where all the bits that it sets were set already.
  predicate Survives(fh: Word) {
    && (fh % 0x100 < 0x80 || fh >= WORD - 0x80)
    && (fh % 0x1_0000 < 0x8000 || fh >= WORD - 0x8000)
    && (fh % 0x100_0000 < 0x80_0000 || fh >= WORD - 0x80_0000)
  }

  function Garbled(fh: Word): (h: Word) {
    MessageHandleSpreads(Encode(fh));
    MessageHandle(Encode(fh))
  }

  lemma GarbledExactly(fh: Word)
    ensures Garbled(fh) == fh <==> Survives(fh)
    ensures !Survives(fh) && fh < 0x100_0000 ==> Garbled(fh) >= 0xFF00_0000
    ensures fh < 0x80 ==> Survives(fh)
    ensures !Survives(0x80)
  {
    var b0, b1, b2, b3 := fh % 0x100, fh / 0x100 % 0x100, fh / 0x1_0000 % 0x100, fh / 0x100_0000;
    OctetsOf(fh);
    Digits(b0, b1, b2, b3);
    GarbledSpreads(fh);
    SpreadExactly(b0, b1, b2, b3);
  }

  lemma GarbledSpreads(fh: Word)
    ensures fh / 0x100_0000 < 0x100
    ensures Garbled(fh) == Spread(fh % 0x100, fh / 0x100 % 0x100, fh / 0x1_0000 % 0x100, fh / 0x100_0000)
  {
    OctetsOf(fh);
    EncodedOctets(fh);
    MessageHandleSpreads(Encode(fh));
  }

  lemma OneOctetGarbled(fh: Word)
    requires 0x80 <= fh < 0x100
    ensures Garbled(fh) == 0xFFFF_FF00 + fh
  {
    assert fh % 0x100 == fh && fh / 0x100 == fh / 0x1_0000 == fh / 0x100_0000 == 0;
    GarbledSpreads(fh);
    OneOctetSpreads(fh);
  }

  lemma OneOctetSpreads(b0: nat)
    requires 0x80 <= b0 < 0x100
    ensures Spread(b0, 0, 0, 0) == 0xFFFF_FF00 + b0
  {
  }

  lemma SpreadExactly(b0: nat, b1: nat, b2: nat, b3: nat)
    requires b0 < 0x100 && b1 < 0x100 && b2 < 0x100 && b3 < 0x100
    ensures var (h, n) := (Spread(b0, b1, b2, b3), FromOctets(b0, b1, b2, b3));
            && (h == n <==> && (b0 < 0x80 || n >= WORD - 0x80)
                            && (b0 + 0x100 * b1 < 0x8000 || n >= WORD - 0x8000)
                            && (b0 + 0x100 * b1 + 0x1_0000 * b2 < 0x80_0000 || n >= WORD - 0x80_0000))
            && (h != n && b3 == 0 ==> h >= 0xFF00_0000)
  {
  }

  // Writing then reading any object: the exact cases in which it comes back unchanged.
  lemma ObjectRoundTrip(m: ProtObj)
    requires Sendable(m)
    ensures AllowedLength(KindOf(m), |Payload(m)|)
    ensures ReadPayload(KindOf(m), Payload(m)) == Some(m)
       <==> match m {
         case Message(fh, _) => Survives(fh)
         case Client(name, _) => name != ""
         case _ => true
       }
    ensures m.Message? ==> ReadPayload(KindOf(m), Payload(m)) == Some(Message(Garbled(m.fh), m.text))
  {
    var p := Payload(m);
    match m
    case CloseFile(fh) => DecodeEncode(fh);
    case Disconnect(client) => DecodeEncode(client);
    case FileHandle(fh) => DecodeEncode(fh);
    case ClientHandle(client) => DecodeEncode(client);
    case Message(fh, text) =>
      GarbledExactly(fh);
      assert p[..4] == Encode(fh) && p[4..] == text;
      assert MessageHandle(p) == Garbled(fh);
    case Client(name, ip) =>
      var n := 2 + |ip.bytes|;
      assert p[..2] == (if ip.V4? then "v4" else "v6") && p[2..n] == ip.bytes && p[n..] == name;
    case _ =>
  }

  // What the payload of each kind is read as. A message's handle is not the integer of its first
  // four octets but the one in which an octet from 0x80 up fills all octets above it; a client of
  // an unknown address version is called "unnamed" and placed at 127.0.0.1.
  ghost predicate ReadAs(k: Kind, p: string, m: ProtObj) {
    match k
    case FileKind => m == File(p)
    case CloseFileKind => m.CloseFile? && LittleEndian(p, m.fh)
    case ClientKind =>
      && m.Client? && |p| > 2
      && (if p[..2] == "v4" then |p| > 6 && m.ip == V4(p[2..6]) && m.name == p[6..]
          else if p[..2] == "v6" then |p| > 18 && m.ip == V6(p[2..18]) && m.name == p[18..]
          else m.ip == V4([127 as char, 0 as char, 0 as char, 1 as char]) && m.name == "unnamed")
    case DisconnectKind => m.Disconnect? && LittleEndian(p, m.client)
    case MessageKind =>
      && m.Message? && |p| >= 4 && m.text == p[4..]
      && m.fh == FilledUp(p[0] as int, p[1] as int, p[2] as int, p[3] as int)
    case FileHandleKind => m.FileHandle? && LittleEndian(p, m.fh)
    case ClientHandleKind => m.ClientHandle? && LittleEndian(p, m.client)
    case AcknowledgedKind => m == Acknowledged
    case NotAcknowledgedKind => m == NotAcknowledged(p)
  }

  function FilledUp(b0: int, b1: int, b2: int, b3: int): int {
    if b0 >= 0x80 then 0xFFFF_FF00 + b0
    else if b1 >= 0x80 then 0xFFFF_0000 + 0x100 * b1 + b0
    else if b2 >= 0x80 then 0xFF00_0000 + 0x1_0000 * b2 + 0x100 * b1 + b0
    else 0x100_0000 * b3 + 0x1_0000 * b2 + 0x100 * b1 + b0
  }

  lemma SpreadFillsUp(b0: nat, b1: nat, b2: nat, b3: nat)
    requires b0 < 0x100 && b1 < 0x100 && b2 < 0x100 && b3 < 0x100
    ensures Spread(b0, b1, b2, b3) == FilledUp(b0, b1, b2, b3)
  {
  }

  lemma OctetIsChar(c: char)
    requires c as int < 0x100
    ensures Octet(c) == c as int
  {
  }

  lemma OctetsFillUp(a: char, b: char, c: char, d: char)
    requires a as int < 0x100 && b as int < 0x100 && c as int < 0x100 && d as int < 0x100
    ensures Spread(Octet(a), Octet(b), Octet(c), Octet(d)) == FilledUp(a as int, b as int, c as int, d as int)
  {
    OctetIsChar(a);
    OctetIsChar(b);
    OctetIsChar(c);
    OctetIsChar(d);
    SpreadFillsUp(a as int, b as int, c as int, d as int);
  }

  // Which object a payload is read into, for all octets.
  lemma ReadExactly(k: Kind, p: string, m: ProtObj)
    requires AllowedLength(k, |p|) && forall c | c in p :: c as int < 0x100
    ensures ReadPayload(k, p) == Some(m) <==> ReadAs(k, p, m)
  {
    assert forall i | 0 <= i < |p| :: p[i] in p;
    match k
    case CloseFileKind => if m.CloseFile? { DecodeExactly(p, m.fh); }
    case DisconnectKind => if m.Disconnect? { DecodeExactly(p, m.client); }
    case FileHandleKind => if m.FileHandle? { DecodeExactly(p, m.fh); }
    case ClientHandleKind => if m.ClientHandle? { DecodeExactly(p, m.client); }
    case MessageKind =>
      if |p| >= 4 {
        MessageHandleSpreads(p);
        OctetsFillUp(p[0], p[1], p[2], p[3]);
      }
    case _ =>
  }
}

/** The binary request that authenticates at the proxy, and how a receiver takes it apart again. */
module AuthFrame {
  import opened Encodings
  import opened Values

  // ---- Base64, section 4 of RFC 4648 ----

  function Base64Char(v: nat): (c: char)
    requires v < 64
    ensures (c as nat) < 0x80 && c != '=' && Base64Value(c) == v
  {
    if v < 26 then 'A' + v as char
    else if v < 52 then 'a' + (v - 26) as char
    else if v < 62 then '0' + (v - 52) as char
    else if v == 62 then '+'
    else '/'
  }

  /** The alphabet of table 1 of RFC 4648: capital letters, small letters, digits, plus and slash, each run in order. */
  lemma Base64Alphabet(v: nat)
    requires v < 64
    ensures (v == 0 ==> Base64Char(v) == 'A') && (v == 25 ==> Base64Char(v) == 'Z')
    ensures (v == 26 ==> Base64Char(v) == 'a') && (v == 51 ==> Base64Char(v) == 'z')
    ensures (v == 52 ==> Base64Char(v) == '0') && (v == 61 ==> Base64Char(v) == '9')
    ensures (v == 62 ==> Base64Char(v) == '+') && (v == 63 ==> Base64Char(v) == '/')
    ensures v < 63 && v !in {25, 51, 61, 62} ==> Base64Char(v + 1) as nat == Base64Char(v) as nat + 1
  {
  }

  function Base64Value(c: char): (v: nat)
    ensures v < 64
  {
    if 'A' <= c <= 'Z' then c as nat - 'A' as nat
    else if 'a' <= c <= 'z' then 26 + (c as nat - 'a' as nat)
    else if '0' <= c <= '9' then 52 + (c as nat - '0' as nat)
    else if c == '+' then 62
    else 63
  }

  /** Four characters for every three bytes, the last group padded. */
  function Base64(bytes: seq<Byte>): (s: string)
    ensures |s| == (|bytes| + 2) / 3 * 4 && forall i | 0 <= i < |s| :: (s[i] as nat) < 0x80
  {
    if bytes == [] then ""
    else if |bytes| == 1 then
      [Base64Char(bytes[0] / 4), Base64Char(bytes[0] % 4 * 16), '=', '=']
    else if |bytes| == 2 then
      [Base64Char(bytes[0] / 4), Base64Char(bytes[0] % 4 * 16 + bytes[1] / 16), Base64Char(bytes[1] % 16 * 4), '=']
    else
      [Base64Char(bytes[0] / 4), Base64Char(bytes[0] % 4 * 16 + bytes[1] / 16),
       Base64Char(bytes[1] % 16 * 4 + bytes[2] / 64), Base64Char(bytes[2] % 64)] + Base64(bytes[3..])
  }

  function FirstByte(p: nat, q: nat): Byte
    requires p < 64 && q < 64
  {
    p * 4 + q / 16
  }

  function SecondByte(q: nat, r: nat): Byte
    requires q < 64 && r < 64
  {
    q % 16 * 16 + r / 4
  }

  function ThirdByte(r: nat, s: nat): Byte
    requires r < 64 && s < 64
  {
    r % 4 * 64 + s
  }

  function DecodeBase64(s: string): seq<Byte> {
    if |s| < 4 then []
    else
      var p, q, r, t := Base64Value(s[0]), Base64Value(s[1]), Base64Value(s[2]), Base64Value(s[3]);
      if s[2] == '=' then [FirstByte(p, q)]
      else if s[3] == '=' then [FirstByte(p, q), SecondByte(q, r)]
      else [FirstByte(p, q), SecondByte(q, r), ThirdByte(r, t)] + DecodeBase64(s[4..])
  }

  lemma {:induction false} Base64Decodes(bytes: seq<Byte>)
    ensures DecodeBase64(Base64(bytes)) == bytes
  {
    if |bytes| >= 3 {
      var a, b, c := bytes[0], bytes[1], bytes[2];
      Base64Decodes(bytes[3..]);
      FullGroup(a / 4, a % 4 * 16 + b / 16, b % 16 * 4 + c / 64, c % 64, Base64(bytes[3..]));
      GroupDecodes(a, b, c);
      assert bytes == [a, b, c] + bytes[3..];
    } else if bytes != [] {
      LastGroup(bytes);
    }
  }

  lemma FullGroup(p: nat, q: nat, r: nat, t: nat, rest: string)
    requires p < 64 && q < 64 && r < 64 && t < 64
    ensures DecodeBase64([Base64Char(p), Base64Char(q), Base64Char(r), Base64Char(t)] + rest)
         == [FirstByte(p, q), SecondByte(q, r), ThirdByte(r, t)] + DecodeBase64(rest)
  {
    var s := [Base64Char(p), Base64Char(q), Base64Char(r), Base64Char(t)] + rest;
    assert s[4..] == rest;
  }

  lemma LastGroup(bytes: seq<Byte>)
    requires 1 <= |bytes| <= 2
    ensures DecodeBase64(Base64(bytes)) == bytes
  {
    if |bytes| == 2 {
      LastTwo(bytes[0], bytes[1]);
      assert bytes == [bytes[0], bytes[1]];
    } else {
      LastOne(bytes[0]);
      assert bytes == [bytes[0]];
    }
  }

  lemma LastTwo(a: Byte, b: Byte)
    ensures DecodeBase64(Base64([a, b])) == [a, b]
  {
    var p, q, r := a / 4, a % 4 * 16 + b / 16, b % 16 * 4;
    assert FirstByte(p, q) == a && SecondByte(q, r) == b by { GroupDecodes(a, b, 0); }
    assert Base64([a, b]) == [Base64Char(p), Base64Char(q), Base64Char(r), '='];
    PaddedOnce(p, q, r);
  }

  lemma LastOne(a: Byte)
    ensures DecodeBase64(Base64([a])) == [a]
  {
    var p, q := a / 4, a % 4 * 16;
    assert FirstByte(p, q) == a by { GroupDecodes(a, 0, 0); }
    assert Base64([a]) == [Base64Char(p), Base64Char(q), '=', '='];
    PaddedTwice(p, q);
  }

  lemma PaddedOnce(p: nat, q: nat, r: nat)
    requires p < 64 && q < 64 && r < 64
    ensures DecodeBase64([Base64Char(p), Base64Char(q), Base64Char(r), '=']) == [FirstByte(p, q), SecondByte(q, r)]
  {
  }

  lemma PaddedTwice(p: nat, q: nat)
    requires p < 64 && q < 64
    ensures DecodeBase64([Base64Char(p), Base64Char(q), '=', '=']) == [FirstByte(p, q)]
  {
  }

  lemma GroupDecodes(a: Byte, b: Byte, c: Byte)
    ensures FirstByte(a / 4, a % 4 * 16 + b / 16) == a
    ensures SecondByte(a % 4 * 16 + b / 16, b % 16 * 4 + c / 64) == b
    ensures ThirdByte(b % 16 * 4 + c / 64, c % 64) == c
  {
  }

  lemma {:induction false} AsciiBytes(s: string)
    requires forall i | 0 <= i < |s| :: (s[i] as nat) < 0x80
    ensures |Utf8(s)| == |s| && forall i | 0 <= i < |s| :: Utf8(s)[i] == s[i] as nat
  {
    if s != "" {
      AsciiBytes(s[1..]);
    }
  }

  // ---- The frame ----

  const VERSION: Byte := 1
  const MAX_UINT32 := 0x1_0000_0000

  lemma DividedTwice(n: nat)
    ensures n / 0x1_0000 == n / 0x100 / 0x100 && n / 0x100_0000 == n / 0x1_0000 / 0x100
  {
  }

  function BigEndian(n: nat): (bytes: seq<Byte>)
    requires n < MAX_UINT32
    ensures |bytes| == 4 && FromBigEndian(bytes) == n
  {
    DividedTwice(n);
    [n / 0x100_0000, n / 0x1_0000 % 0x100, n / 0x100 % 0x100, n % 0x100]
  }

  function FromBigEndian(bytes: seq<nat>): nat
    requires |bytes| == 4
  {
    bytes[0] * 0x100_0000 + bytes[1] * 0x1_0000 + bytes[2] * 0x100 + bytes[3]
  }

  /** The location id as it is sent; a missing or empty one is sent as nothing. */
  function LocationText(locationId: Option<string>): string {
    if locationId.Some? && locationId.value != "" then Base64(Utf8(locationId.value)) else ""
  }

  /** The request; writing a length that does not fit its field throws. */
  function Frame(jwt: string, locationId: Option<string>): Outcome<seq<Byte>> {
    var jwtBytes := Utf8(jwt);
    var location := Utf8(LocationText(locationId));
    if |jwtBytes| >= MAX_UINT32 || |location| > 255 then Thrown
    else Ok(Joined(jwtBytes, location))
  }

  function Joined(jwtBytes: seq<Byte>, location: seq<Byte>): seq<Byte>
    requires |jwtBytes| < MAX_UINT32 && |location| <= 255
  {
    [VERSION] + BigEndian(|jwtBytes|) + jwtBytes + [|location|] + location
  }

  /** `writeUInt32BE(value, 0)` */
  method WriteUInt32BE(buffer: array<Byte>, value: nat) returns (written: bool)
    requires buffer.Length == 4
    modifies buffer
    ensures written == (value < MAX_UINT32)
    ensures buffer[..] == if value < MAX_UINT32 then BigEndian(value) else old(buffer[..])
  {
    if value >= MAX_UINT32 { return false; }
    buffer[0] := value / 0x100_0000;
    buffer[1] := value / 0x1_0000 % 0x100;
    buffer[2] := value / 0x100 % 0x100;
    buffer[3] := value % 0x100;
    return true;
  }

  /** `writeUInt8(value)` */
  method WriteUInt8(buffer: array<Byte>, value: nat) returns (written: bool)
    requires buffer.Length == 1
    modifies buffer
    ensures written == (value < 256)
    ensures buffer[..] == if value < 256 then [value] else old(buffer[..])
  {
    if value >= 256 { return false; }
    buffer[0] := value;
    return true;
  }

  method CustomAuthRequest(jwt: string, locationId: Option<string>) returns (r: Outcome<seq<Byte>>)
    ensures r == Frame(jwt, locationId)
  {
    var jwtBytes := Utf8(jwt);
    var jwtLengthBuffer := new Byte[4](_ => 0);
    var written := WriteUInt32BE(jwtLengthBuffer, |jwtBytes|);
    if !written { return Thrown; }
    var location := LocationText(locationId);
    var locationLength := |Utf8(location)|;
    var locationLengthBuffer := new Byte[1](_ => 0);
    written := WriteUInt8(locationLengthBuffer, locationLength);
    if !written { return Thrown; }
    return Ok([VERSION] + jwtLengthBuffer[..] + jwtBytes + locationLengthBuffer[..] + Utf8(location));
  }

  /** The layout of the request: version 1, the token after its length, and the location after its length. */
  lemma FrameLayout(jwt: string, locationId: Option<string>)
    requires Frame(jwt, locationId).Ok?
    ensures var frame, n := Frame(jwt, locationId).value, |Utf8(jwt)|;
            && |frame| >= 6 + n && frame[0] == 1
            && frame[1] as int * 16777216 + frame[2] as int * 65536 + frame[3] as int * 256 + frame[4] as int == n
            && frame[5..5 + n] == Utf8(jwt)
            && frame[5 + n] == |frame| - 6 - n
            && (frame[5 + n] == 0 <==> locationId == None || locationId == Some(""))
  {
    var location := Utf8(LocationText(locationId));
    var frame, n := Frame(jwt, locationId).value, |Utf8(jwt)|;
    assert frame == Joined(Utf8(jwt), location);
    assert frame[1..5] == BigEndian(n);
    assert frame[5..5 + n] == Utf8(jwt);
    LocationDecodes(locationId);
    if locationId.Some? && locationId.value != "" { Utf8NotEmpty(locationId.value); }
  }

  lemma Utf8NotEmpty(s: string)
    requires s != ""
    ensures Utf8(s) != []
  {
  }

  /** How a receiver takes a frame apart. */
  function Split(frame: seq<Byte>): Option<(seq<Byte>, seq<Byte>)> {
    if |frame| < 6 || frame[0] != VERSION then None
    else
      var n := FromBigEndian(frame[1..5]);
      if |frame| < 6 + n || |frame| != 6 + n + frame[5 + n] then None
      else Some((frame[5..5 + n], frame[6 + n..]))
  }

  lemma JoinedSplits(jwtBytes: seq<Byte>, location: seq<Byte>)
    requires |jwtBytes| < MAX_UINT32 && |location| <= 255
    ensures Split(Joined(jwtBytes, location)) == Some((jwtBytes, location))
  {
    var frame, n := Joined(jwtBytes, location), |jwtBytes|;
    assert frame[1..5] == BigEndian(n);
    assert frame[5 + n] == |location|;
    assert frame[5..5 + n] == jwtBytes && frame[6 + n..] == location;
  }

  /** What a receiver makes of it: the bytes of the token and of the location id. */
  function Received(frame: seq<Byte>): Option<(seq<Byte>, seq<Byte>)> {
    match Split(frame)
    case None => None
    case Some((jwtBytes, location)) => Some((jwtBytes, DecodeBase64(Ascii(location))))
  }

  function Ascii(bytes: seq<Byte>): string {
    seq(|bytes|, i requires 0 <= i < |bytes| => bytes[i] as char)
  }

  function IdOf(locationId: Option<string>): string {
    if locationId.Some? then locationId.value else ""
  }

  lemma LocationDecodes(locationId: Option<string>)
    ensures DecodeBase64(Ascii(Utf8(LocationText(locationId)))) == Utf8(IdOf(locationId))
    ensures |Utf8(LocationText(locationId))| == (|Utf8(IdOf(locationId))| + 2) / 3 * 4
  {
    var text := LocationText(locationId);
    AsciiBytes(text);
    assert Ascii(Utf8(text)) == text;
    Base64Decodes(Utf8(IdOf(locationId)));
  }

  /** Reading a frame gives back the bytes that went in. */
  lemma FrameIsReceived(jwt: string, locationId: Option<string>)
    requires Frame(jwt, locationId).Ok?
    ensures Received(Frame(jwt, locationId).value) == Some((Utf8(jwt), Utf8(IdOf(locationId))))
  {
    JoinedSplits(Utf8(jwt), Utf8(LocationText(locationId)));
    LocationDecodes(locationId);
  }

  /** Equal frames come from the same token and the same location id. */
  lemma FramesAreUnique(jwt: string, locationId: Option<string>, jwt': string, locationId': Option<string>)
    requires Frame(jwt, locationId).Ok? && Frame(jwt, locationId) == Frame(jwt', locationId')
    ensures jwt == jwt' && IdOf(locationId) == IdOf(locationId')
  {
    FrameIsReceived(jwt, locationId);
    FrameIsReceived(jwt', locationId');
    Utf8Injective(jwt, jwt');
    Utf8Injective(IdOf(locationId), IdOf(locationId'));
  }

  /** The one-byte length is written exactly for location ids of at most 189 bytes. */
  lemma FrameIsBuiltExactly(jwt: string, locationId: Option<string>)
    ensures Frame(jwt, locationId).Ok? <==> |Utf8(jwt)| < MAX_UINT32 && |Utf8(IdOf(locationId))| <= 189
  {
    LocationDecodes(locationId);
    FitsByte(|Utf8(IdOf(locationId))|);
  }

  lemma FitsByte(n: nat)
    ensures (n + 2) / 3 * 4 <= 255 <==> n <= 189
  {
  }
}

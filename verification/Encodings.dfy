/** UTF-8 bytes of a text, and its percent-encoding for a URI component. */
module Encodings {
  import opened Sequences
  import opened Values

  type Byte = b: nat | b < 256

  /** The bytes of one character, section 3 of RFC 3629. */
  function Utf8Char(c: char): (bytes: seq<Byte>)
    ensures 1 <= |bytes| <= 4
  {
    var n := c as nat;
    if n < 0x80 then [n]
    else if n < 0x800 then [0xC0 + n / 0x40, 0x80 + n % 0x40]
    else if n < 0x10000 then [0xE0 + n / 0x1000, 0x80 + n / 0x40 % 0x40, 0x80 + n % 0x40]
    else [0xF0 + n / 0x40000, 0x80 + n / 0x1000 % 0x40, 0x80 + n / 0x40 % 0x40, 0x80 + n % 0x40]
  }

  function Utf8(s: string): seq<Byte> {
    if s == "" then [] else Utf8Char(s[0]) + Utf8(s[1..])
  }

  /** The code point that the bytes of a character stand for. */
  function CodePoint(bytes: seq<int>): int {
    if |bytes| == 1 then bytes[0]
    else if |bytes| == 2 then (bytes[0] - 0xC0) * 0x40 + (bytes[1] - 0x80)
    else if |bytes| == 3 then (bytes[0] - 0xE0) * 0x1000 + (bytes[1] - 0x80) * 0x40 + (bytes[2] - 0x80)
    else if |bytes| == 4 then
      (bytes[0] - 0xF0) * 0x40000 + (bytes[1] - 0x80) * 0x1000 + (bytes[2] - 0x80) * 0x40 + (bytes[3] - 0x80)
    else 0
  }

  /** The table of section 3 of RFC 3629: the shortest form, its first byte and the bytes that follow. */
  lemma Utf8CharIsShortest(c: char)
    ensures var n, bytes := c as nat, Utf8Char(c);
            && |bytes| == (if n <= 0x7F then 1 else if n <= 0x7FF then 2 else if n <= 0xFFFF then 3 else 4)
            && (|bytes| == 1 ==> bytes[0] <= 0x7F)
            && (|bytes| == 2 ==> 0xC0 <= bytes[0] <= 0xDF)
            && (|bytes| == 3 ==> 0xE0 <= bytes[0] <= 0xEF)
            && (|bytes| == 4 ==> 0xF0 <= bytes[0] <= 0xF7)
            && forall i | 0 < i < |bytes| :: 0x80 <= bytes[i] <= 0xBF
  {
  }

  lemma Utf8CharDecodes(c: char)
    ensures CodePoint(Utf8Char(c)) == c as int
  {
    var n := c as int;
    assert n == n / 0x40 * 0x40 + n % 0x40;
    assert n / 0x40 == n / 0x1000 * 0x40 + n / 0x40 % 0x40;
    assert n / 0x1000 == n / 0x40000 * 0x40 + n / 0x1000 % 0x40;
  }

  /** The first byte of a character tells how many there are. */
  function LengthByFirst(b: Byte): nat {
    if b < 0x80 then 1 else if b < 0xE0 then 2 else if b < 0xF0 then 3 else 4
  }

  lemma FirstByteTells(c: char)
    ensures |Utf8Char(c)| == LengthByFirst(Utf8Char(c)[0])
  {
  }

  lemma {:induction false} Utf8Injective(s: string, t: string)
    requires Utf8(s) == Utf8(t)
    ensures s == t
  {
    if s != "" && t != "" {
      var x, y := Utf8Char(s[0]), Utf8Char(t[0]);
      assert (x + Utf8(s[1..]))[0] == x[0] && (y + Utf8(t[1..]))[0] == y[0];
      FirstByteTells(s[0]);
      FirstByteTells(t[0]);
      assert Utf8(s)[..|x|] == x && Utf8(t)[..|y|] == y;
      assert Utf8(s)[|x|..] == Utf8(s[1..]) && Utf8(t)[|y|..] == Utf8(t[1..]);
      Utf8CharDecodes(s[0]);
      Utf8CharDecodes(t[0]);
      Utf8Injective(s[1..], t[1..]);
      assert s == [s[0]] + s[1..] && t == [t[0]] + t[1..];
    }
  }

  function HexDigit(v: nat): (c: char)
    requires v < 16
  {
    if v < 10 then '0' + v as char else 'A' + (v - 10) as char
  }

  /** The characters that `encodeURIComponent` leaves alone. */
  predicate IsUnescaped(c: char) {
    'A' <= c <= 'Z' || 'a' <= c <= 'z' || '0' <= c <= '9' || c in "-_.!~*'()"
  }

  function Escape(b: Byte): string {
    ['%', HexDigit(b / 16), HexDigit(b % 16)]
  }

  function EscapeBytes(bytes: seq<Byte>): string {
    if bytes == [] then ""
    else Escape(bytes[0]) + EscapeBytes(bytes[1..])
  }

  function EncodeURIComponent(s: string): string {
    if s == "" then ""
    else (if IsUnescaped(s[0]) then [s[0]] else EscapeBytes(Utf8Char(s[0]))) + EncodeURIComponent(s[1..])
  }

  /** What may occur in an encoded text: unescaped characters and escapes. */
  predicate IsEncodedChar(c: char) {
    IsUnescaped(c) || c == '%'
  }

  lemma {:induction false} EscapedIsEncoded(bytes: seq<Byte>)
    ensures forall c | c in EscapeBytes(bytes) :: IsEncodedChar(c)
  {
    if bytes != [] {
      EscapedIsEncoded(bytes[1..]);
    }
  }

  lemma {:induction false} EncodedHasNoDelimiters(s: string)
    ensures forall c | c in EncodeURIComponent(s) :: IsEncodedChar(c)
  {
    if s != "" {
      EscapedIsEncoded(Utf8Char(s[0]));
      EncodedHasNoDelimiters(s[1..]);
    }
  }

  // ---- The only text that decodes to the bytes ----

  /** A hexadecimal digit, upper case. */
  predicate IsHexDigit(c: char) {
    '0' <= c <= '9' || 'A' <= c <= 'F'
  }

  function HexValue(c: char): (v: nat)
    requires IsHexDigit(c)
    ensures v < 16
  {
    if c <= '9' then c as nat - 48 else c as nat - 55
  }

  /** The text starts with an escape: a percent sign and two digits. */
  predicate StartsWithEscape(t: string) {
    |t| >= 3 && t[0] == '%' && IsHexDigit(t[1]) && IsHexDigit(t[2])
  }

  /** What a receiver makes of a text: an escape is a byte, any other character below 128 stands for itself. */
  function PercentDecode(t: string): Option<seq<Byte>> {
    if t == "" then Some([])
    else if StartsWithEscape(t) then
      match PercentDecode(t[3..])
      case Some(rest) => Some([16 * HexValue(t[1]) + HexValue(t[2])] + rest)
      case None => None
    else if t[0] == '%' || t[0] as nat >= 128 then None
    else
      match PercentDecode(t[1..])
      case Some(rest) => Some([t[0] as nat] + rest)
      case None => None
  }

  /** Characters that may stand for themselves, and escapes of the bytes that have no such character. */
  predicate IsCanonical(t: string) {
    if t == "" then true
    else if StartsWithEscape(t) then
      !IsUnescaped((16 * HexValue(t[1]) + HexValue(t[2])) as char) && IsCanonical(t[3..])
    else IsUnescaped(t[0]) && IsCanonical(t[1..])
  }

  lemma EscapeIsHex(b: Byte)
    ensures var t := Escape(b); |t| == 3 && StartsWithEscape(t) && 16 * HexValue(t[1]) + HexValue(t[2]) == b
  {
  }

  lemma {:induction false} EscapedDecodes(bytes: seq<Byte>, t: string)
    requires PercentDecode(t).Some?
    ensures PercentDecode(EscapeBytes(bytes) + t) == Some(bytes + PercentDecode(t).value)
  {
    if bytes == [] {
      assert EscapeBytes(bytes) + t == t && bytes + PercentDecode(t).value == PercentDecode(t).value;
    } else {
      var rest := EscapeBytes(bytes[1..]) + t;
      EscapedDecodes(bytes[1..], t);
      Assoc(Escape(bytes[0]), EscapeBytes(bytes[1..]), t);
      EscapeFirst(bytes[0], rest);
      assert bytes == [bytes[0]] + bytes[1..];
      Assoc([bytes[0]], bytes[1..], PercentDecode(t).value);
    }
  }

  lemma EscapeFirst(b: Byte, rest: string)
    requires PercentDecode(rest).Some?
    ensures PercentDecode(Escape(b) + rest) == Some([b] + PercentDecode(rest).value)
  {
    EscapeIsHex(b);
    var t := Escape(b) + rest;
    assert t[..3] == Escape(b) && t[3..] == rest;
    assert StartsWithEscape(t);
  }

  /** Decoding gives back the bytes of the text. */
  lemma {:induction false} EncodedDecodes(s: string)
    ensures PercentDecode(EncodeURIComponent(s)) == Some(Utf8(s))
  {
    if s != "" {
      EncodedDecodes(s[1..]);
      if IsUnescaped(s[0]) {
        assert EncodeURIComponent(s)[1..] == EncodeURIComponent(s[1..]);
      } else {
        EscapedDecodes(Utf8Char(s[0]), EncodeURIComponent(s[1..]));
      }
    }
  }

  lemma EscapedBytes(c: char)
    requires !IsUnescaped(c)
    ensures var bytes := Utf8Char(c); forall i | 0 <= i < |bytes| :: !IsUnescaped(bytes[i] as char)
  {
    var bytes := Utf8Char(c);
    forall i | 0 <= i < |bytes| ensures !IsUnescaped(bytes[i] as char) {
      if |bytes| == 1 { assert bytes[i] as char == c; } else { assert bytes[i] >= 0x80; }
    }
  }

  lemma {:induction false} EscapedIsCanonical(bytes: seq<Byte>, t: string)
    requires IsCanonical(t) && forall i | 0 <= i < |bytes| :: !IsUnescaped(bytes[i] as char)
    ensures IsCanonical(EscapeBytes(bytes) + t)
  {
    if bytes == [] {
      assert EscapeBytes(bytes) + t == t;
    } else {
      var rest := EscapeBytes(bytes[1..]) + t;
      EscapedIsCanonical(bytes[1..], t);
      Assoc(Escape(bytes[0]), EscapeBytes(bytes[1..]), t);
      CanonicalFirst(bytes[0], rest);
    }
  }

  lemma CanonicalFirst(b: Byte, rest: string)
    requires IsCanonical(rest) && !IsUnescaped(b as char)
    ensures IsCanonical(Escape(b) + rest)
  {
    EscapeIsHex(b);
    var t := Escape(b) + rest;
    assert t[..3] == Escape(b) && t[3..] == rest;
    assert StartsWithEscape(t);
  }

  lemma {:induction false} EncodedIsCanonical(s: string)
    ensures IsCanonical(EncodeURIComponent(s))
  {
    if s != "" {
      EncodedIsCanonical(s[1..]);
      if IsUnescaped(s[0]) {
        assert EncodeURIComponent(s)[1..] == EncodeURIComponent(s[1..]);
      } else {
        EscapedBytes(s[0]);
        EscapedIsCanonical(Utf8Char(s[0]), EncodeURIComponent(s[1..]));
      }
    }
  }

  lemma {:induction false} CanonicalOnce(t: string, u: string)
    requires IsCanonical(t) && IsCanonical(u) && PercentDecode(t).Some? && PercentDecode(t) == PercentDecode(u)
    ensures t == u
    decreases |t|
  {
    if t != "" && u != "" {
      var m, n := if StartsWithEscape(t) then 3 else 1, if StartsWithEscape(u) then 3 else 1;
      SameFirst(t, u);
      CanonicalOnce(t[m..], u[n..]);
      assert t == t[..m] + t[m..] && u == u[..n] + u[n..];
    }
  }

  /** Texts that decode to the same start with the same character or escape. */
  lemma SameFirst(t: string, u: string)
    requires t != "" && u != "" && IsCanonical(t) && IsCanonical(u)
    requires PercentDecode(t).Some? && PercentDecode(t) == PercentDecode(u)
    ensures StartsWithEscape(t) <==> StartsWithEscape(u)
    ensures var n := if StartsWithEscape(t) then 3 else 1;
            && t[..n] == u[..n] && IsCanonical(t[n..]) && IsCanonical(u[n..])
            && PercentDecode(t[n..]).Some? && PercentDecode(t[n..]) == PercentDecode(u[n..])
  {
    DecodedFirst(t);
    DecodedFirst(u);
    if StartsWithEscape(t) && StartsWithEscape(u) {
      SameHex(t[1], t[2], u[1], u[2]);
      assert t[..3] == ['%', t[1], t[2]] && u[..3] == ['%', u[1], u[2]];
    } else {
      assert t[..1] == [t[0]] && u[..1] == [u[0]];
    }
  }

  lemma SameHex(a: char, b: char, c: char, d: char)
    requires IsHexDigit(a) && IsHexDigit(b) && IsHexDigit(c) && IsHexDigit(d)
    requires 16 * HexValue(a) + HexValue(b) == 16 * HexValue(c) + HexValue(d)
    ensures a == c && b == d
  {
    assert HexValue(a) == HexValue(c) && HexValue(b) == HexValue(d);
  }

  lemma DecodedFirst(t: string)
    requires t != "" && PercentDecode(t).Some?
    ensures var d, n := PercentDecode(t).value, if StartsWithEscape(t) then 3 else 1;
            && d != [] && PercentDecode(t[n..]) == Some(d[1..])
            && d[0] == (if StartsWithEscape(t) then 16 * HexValue(t[1]) + HexValue(t[2]) else t[0] as nat)
            && (IsCanonical(t) ==> IsCanonical(t[n..]) && (StartsWithEscape(t) <==> !IsUnescaped(d[0] as char)))
  {
  }

  /** The encoded text is the only canonical one that decodes to the bytes. */
  lemma EncodedIsOnly(s: string, t: string)
    ensures t == EncodeURIComponent(s) <==> IsCanonical(t) && PercentDecode(t) == Some(Utf8(s))
  {
    EncodedDecodes(s);
    EncodedIsCanonical(s);
    if IsCanonical(t) && PercentDecode(t) == Some(Utf8(s)) { CanonicalOnce(t, EncodeURIComponent(s)); }
  }

  /** So distinct texts are encoded to distinct ones. */
  lemma EncodeInjective(s: string, t: string)
    requires EncodeURIComponent(s) == EncodeURIComponent(t)
    ensures s == t
  {
    EncodedDecodes(s);
    EncodedDecodes(t);
    Utf8Injective(s, t);
  }

  /** A text is its own encoding exactly if it has letters, digits and these nine characters only. */
  lemma {:induction false} EncodedIsSameExactly(s: string)
    ensures EncodeURIComponent(s) == s <==> forall i | 0 <= i < |s| ::
              'A' <= s[i] <= 'Z' || 'a' <= s[i] <= 'z' || '0' <= s[i] <= '9' ||
              s[i] == '-' || s[i] == '_' || s[i] == '.' || s[i] == '!' || s[i] == '~' || s[i] == '*' ||
              s[i] == '\'' || s[i] == '(' || s[i] == ')'
  {
    if s != "" {
      var first := if IsUnescaped(s[0]) then [s[0]] else EscapeBytes(Utf8Char(s[0]));
      EncodedIsSameExactly(s[1..]);
      EncodedIsNotShorter(s[1..]);
      assert s == [s[0]] + s[1..];
      if !IsUnescaped(s[0]) { assert |first| > 1; }
    }
  }

  lemma {:induction false} EncodedIsNotShorter(s: string)
    ensures |EncodeURIComponent(s)| >= |s|
  {
    if s != "" { EncodedIsNotShorter(s[1..]); }
  }
}

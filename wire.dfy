/**
 * The text protocol: how commands are formatted (the `sprintf` calls) and how
 * reply lines are read back (the `sscanf` calls followed by the bound and
 * coordinate checks), as pure functions of bytes.
 */
module Wire {
  import opened Types

  const Newline: Byte := '\n'

  /** `s` holds no line terminator. */
  predicate NoNewline(s: seq<Byte>) {
    forall i :: 0 <= i < |s| ==> s[i] != Newline
  }

  lemma NoNewlineConcat(a: seq<Byte>, b: seq<Byte>)
    requires NoNewline(a) && NoNewline(b)
    ensures NoNewline(a + b)
  {
    forall i | 0 <= i < |a + b| ensures (a + b)[i] != Newline {
      if i >= |a| {
        assert (a + b)[i] == b[i - |a|];
      }
    }
  }

  /** `s` is exactly one protocol line: a terminator at the end and nowhere else. */
  predicate IsLine(s: seq<Byte>) {
    |s| >= 1 && s[|s| - 1] == Newline && NoNewline(s[..|s| - 1])
  }

  // ---------------------------------------------------------------- decimal

  predicate IsDigit(c: Byte) {
    '0' <= c <= '9'
  }

  predicate AllDigits(s: seq<Byte>) {
    forall i :: 0 <= i < |s| ==> IsDigit(s[i])
  }

  function DigitValue(c: Byte): (d: nat)
    requires IsDigit(c)
    ensures d < 10
  {
    c as int - '0' as int
  }

  function DigitChar(d: nat): (c: Byte)
    requires d < 10
    ensures IsDigit(c) && DigitValue(c) == d
  {
    ('0' as int + d) as char
  }

  /** `%d` / `%u` of a non-negative value: decimal digits, no sign, no padding. */
  function Decimal(n: nat): (s: seq<Byte>)
    ensures |s| >= 1 && AllDigits(s)
    decreases n
  {
    if n < 10 then [DigitChar(n)] else Decimal(n / 10) + [DigitChar(n % 10)]
  }

  /** The value of a string of decimal digits; the empty string is 0, as
      `strtoul` reports it. */
  function DecimalValue(s: seq<Byte>): nat
    requires AllDigits(s)
  {
    if s == [] then 0 else 10 * DecimalValue(s[..|s| - 1]) + DigitValue(s[|s| - 1])
  }

  lemma {:induction false} DecimalRoundTrip(n: nat)
    ensures DecimalValue(Decimal(n)) == n
  {
    if n >= 10 {
      var s := Decimal(n);
      assert s[..|s| - 1] == Decimal(n / 10);
      DecimalRoundTrip(n / 10);
    }
  }

  function Pow10(k: nat): (p: nat)
    ensures p >= 1
  {
    if k == 0 then 1 else 10 * Pow10(k - 1)
  }

  /** A value below 10^k needs at most k digits. */
  lemma {:induction false} DecimalWidth(n: nat, k: nat)
    requires 1 <= k && n < Pow10(k)
    ensures |Decimal(n)| <= k
  {
    if n >= 10 {
      assert Pow10(k) == 10 * Pow10(k - 1);
      assert n / 10 < Pow10(k - 1);
      DecimalWidth(n / 10, k - 1);
    }
  }

  /** A 16-bit coordinate has at most five decimal digits. */
  lemma CoordinateWidth(n: u16)
    ensures |Decimal(n)| <= 5
  {
    assert Pow10(5) == 100000;
    DecimalWidth(n, 5);
  }

  /** The length of the longest run of digits that `s` starts with. */
  function DigitRun(s: seq<Byte>): (k: nat)
    ensures k <= |s| && AllDigits(s[..k])
    ensures k < |s| ==> !IsDigit(s[k])
  {
    if s == [] || !IsDigit(s[0]) then 0 else 1 + DigitRun(s[1..])
  }

  lemma {:induction false} DigitRunOfDigits(d: seq<Byte>, rest: seq<Byte>)
    requires AllDigits(d)
    requires rest == [] || !IsDigit(rest[0])
    ensures DigitRun(d + rest) == |d|
  {
    if d != [] {
      assert (d + rest)[1..] == d[1..] + rest;
      DigitRunOfDigits(d[1..], rest);
    }
  }

  /** `%u`: the longest non-empty run of digits, and the bytes after it. */
  function ParseUnsigned(s: seq<Byte>): Option<(nat, seq<Byte>)>
  {
    var k := DigitRun(s);
    if k == 0 then None else Some((DecimalValue(s[..k]), s[k..]))
  }

  lemma ParseUnsignedDecimal(n: nat, rest: seq<Byte>)
    requires rest == [] || !IsDigit(rest[0])
    ensures ParseUnsigned(Decimal(n) + rest) == Some((n, rest))
  {
    var d := Decimal(n);
    DigitRunOfDigits(d, rest);
    assert (d + rest)[..|d|] == d;
    assert (d + rest)[|d|..] == rest;
    DecimalRoundTrip(n);
  }

  // ---------------------------------------------------------------- hex

  predicate IsHexDigit(c: Byte) {
    IsDigit(c) || 'a' <= c <= 'f' || 'A' <= c <= 'F'
  }

  /** Hex digits are read in either case, as `%x` does. */
  function HexValue(c: Byte): (v: nat)
    requires IsHexDigit(c)
    ensures v < 16
  {
    if IsDigit(c) then DigitValue(c)
    else if 'a' <= c <= 'f' then c as int - 'a' as int + 10
    else c as int - 'A' as int + 10
  }

  /** Hex digits are written in lower case, as `%x` does. */
  function HexChar(d: nat): (c: Byte)
    requires d < 16
    ensures IsHexDigit(c) && HexValue(c) == d
    ensures IsDigit(c) || 'a' <= c <= 'f'
  {
    if d < 10 then DigitChar(d) else ('a' as int + (d - 10)) as char
  }

  /** `%02x` of a channel: exactly two lower-case hex digits, zero-padded. */
  function Hex2(v: u8): (s: seq<Byte>)
    ensures |s| == 2
    ensures forall i :: 0 <= i < |s| ==> IsDigit(s[i]) || 'a' <= s[i] <= 'f'
  {
    [HexChar(v / 16), HexChar(v % 16)]
  }

  /** Two hex digits read as one channel value, and the bytes after them. */
  function ParseHex2(s: seq<Byte>): Option<(u8, seq<Byte>)>
  {
    if |s| >= 2 && IsHexDigit(s[0]) && IsHexDigit(s[1])
    then Some((16 * HexValue(s[0]) + HexValue(s[1]), s[2..]))
    else None
  }

  lemma Hex2RoundTrip(v: u8, rest: seq<Byte>)
    ensures ParseHex2(Hex2(v) + rest) == Some((v, rest))
  {
    assert (Hex2(v) + rest)[2..] == rest;
  }

  /** The bytes after the literal prefix `lit`, if `s` starts with it. */
  function Literal(s: seq<Byte>, lit: seq<Byte>): (r: Option<seq<Byte>>)
    ensures r.Some? <==> lit <= s
    ensures r.Some? ==> s == lit + r.value
  {
    if |lit| <= |s| && s[..|lit|] == lit then Some(s[|lit|..]) else None
  }

  lemma LiteralPrefix(lit: seq<Byte>, rest: seq<Byte>)
    ensures Literal(lit + rest, lit) == Some(rest)
  {
    assert (lit + rest)[..|lit|] == lit;
    assert (lit + rest)[|lit|..] == rest;
  }

  // ---------------------------------------------------------------- commands

  /** The colour channels of a set command: six hex digits, or eight with alpha. */
  function Channels(px: Pixel, useAlpha: bool): (s: seq<Byte>)
    ensures |s| == if useAlpha then 8 else 6
  {
    Hex2(px.r) + Hex2(px.g) + Hex2(px.b) + (if useAlpha then Hex2(px.a) else [])
  }

  /** `PX x y rrggbb` without its terminator: the body of a set command without
      alpha, and the reply the server sends to a read request. */
  function PxLine(x: nat, y: nat, c: Rgb): seq<Byte>
  {
    "PX " + Decimal(x) + " " + Decimal(y) + " " + Hex2(c.r) + Hex2(c.g) + Hex2(c.b)
  }

  /** The set command `PX x y rrggbb\n` or `PX x y rrggbbaa\n`. */
  function PutCommand(px: Pixel, useAlpha: bool): seq<Byte>
  {
    "PX " + Decimal(px.x) + " " + Decimal(px.y) + " " + Channels(px, useAlpha) + "\n"
  }

  /** The read request `PX x y\n`. */
  function GetCommand(x: u16, y: u16): seq<Byte>
  {
    "PX " + Decimal(x) + " " + Decimal(y) + "\n"
  }

  /** The size request. */
  const SizeCommand: seq<Byte> := "SIZE\n"

  /** The longest command, `PX 65535 65535 ffffffff\n`. */
  const MaxCommandLength: nat := 24

  lemma DigitsAreNotNewlines(s: seq<Byte>)
    requires AllDigits(s)
    ensures NoNewline(s)
  {
  }

  /** A set command is one protocol line of at most 24 bytes, so it fits the
      32-byte scratch array and every buffer of at least the minimum size. */
  lemma PutCommandFits(px: Pixel, useAlpha: bool)
    ensures IsLine(PutCommand(px, useAlpha))
    ensures 0 < |PutCommand(px, useAlpha)| <= MaxCommandLength < MinBufferSize
  {
    CoordinateWidth(px.x);
    CoordinateWidth(px.y);
    var cmd := PutCommand(px, useAlpha);
    var body := "PX " + Decimal(px.x) + " " + Decimal(px.y) + " " + Channels(px, useAlpha);
    assert cmd == body + "\n";
    assert cmd[..|cmd| - 1] == body;
    forall i | 0 <= i < |body| ensures body[i] != Newline {
      if i >= 3 + |Decimal(px.x)| + 1 + |Decimal(px.y)| + 1 {
        var k := i - (3 + |Decimal(px.x)| + 1 + |Decimal(px.y)| + 1);
        assert body[i] == Channels(px, useAlpha)[k];
        assert IsHexDigit(Channels(px, useAlpha)[k]);
      }
    }
  }

  /** A read request is one protocol line of at most 15 bytes. */
  lemma GetCommandFits(x: u16, y: u16)
    ensures IsLine(GetCommand(x, y))
    ensures 0 < |GetCommand(x, y)| <= 15
  {
    CoordinateWidth(x);
    CoordinateWidth(y);
    var cmd := GetCommand(x, y);
    var body := "PX " + Decimal(x) + " " + Decimal(y);
    assert cmd == body + "\n";
    assert cmd[..|cmd| - 1] == body;
  }

  /** Without alpha, the set command is the very line a server sends back for
      a read of the same pixel. */
  lemma PutCommandIsReplyLine(px: Pixel)
    ensures PutCommand(px, false) == PxLine(px.x, px.y, Rgb(px.r, px.g, px.b)) + "\n"
  {
  }

  // ---------------------------------------------------------------- command streams

  /** The bytes of the set commands for `pxs`, in order. */
  function PutStream(pxs: seq<Pixel>, useAlpha: bool): seq<Byte>
  {
    if pxs == [] then []
    else PutStream(pxs[..|pxs| - 1], useAlpha) + PutCommand(pxs[|pxs| - 1], useAlpha)
  }

  /** The bytes of the read requests for the coordinates of `pxs`, in order. */
  function RequestStream(pxs: seq<Pixel>): seq<Byte>
  {
    if pxs == [] then []
    else RequestStream(pxs[..|pxs| - 1]) + GetCommand(pxs[|pxs| - 1].x, pxs[|pxs| - 1].y)
  }

  /** Lines sent one after the other, each with its terminator. */
  function JoinLines(lines: seq<seq<Byte>>): seq<Byte>
  {
    if lines == [] then []
    else JoinLines(lines[..|lines| - 1]) + lines[|lines| - 1] + [Newline]
  }

  lemma PutStreamSnoc(pxs: seq<Pixel>, i: nat, useAlpha: bool)
    requires i < |pxs|
    ensures PutStream(pxs[..i + 1], useAlpha) == PutStream(pxs[..i], useAlpha) + PutCommand(pxs[i], useAlpha)
  {
    assert pxs[..i + 1][..i] == pxs[..i];
  }

  lemma RequestStreamSnoc(pxs: seq<Pixel>, i: nat)
    requires i < |pxs|
    ensures RequestStream(pxs[..i + 1]) == RequestStream(pxs[..i]) + GetCommand(pxs[i].x, pxs[i].y)
  {
    assert pxs[..i + 1][..i] == pxs[..i];
  }

  /** The commands for the first pixels start the commands for more. */
  lemma {:induction false} PutStreamPrefix(pxs: seq<Pixel>, i: nat, j: nat, useAlpha: bool)
    requires i <= j <= |pxs|
    ensures PutStream(pxs[..i], useAlpha) <= PutStream(pxs[..j], useAlpha)
    decreases j
  {
    if i < j {
      PutStreamPrefix(pxs, i, j - 1, useAlpha);
      PutStreamSnoc(pxs, j - 1, useAlpha);
      PrefixAppend(PutStream(pxs[..i], useAlpha), PutStream(pxs[..j - 1], useAlpha), PutCommand(pxs[j - 1], useAlpha));
    }
  }

  /** The requests for the first pixels start the requests for more. */
  lemma {:induction false} RequestStreamPrefix(pxs: seq<Pixel>, i: nat, j: nat)
    requires i <= j <= |pxs|
    ensures RequestStream(pxs[..i]) <= RequestStream(pxs[..j])
    decreases j
  {
    if i < j {
      RequestStreamPrefix(pxs, i, j - 1);
      RequestStreamSnoc(pxs, j - 1);
      PrefixAppend(RequestStream(pxs[..i]), RequestStream(pxs[..j - 1]), GetCommand(pxs[j - 1].x, pxs[j - 1].y));
    }
  }

  /** A prefix stays a prefix when more follows. */
  lemma PrefixAppend(a: seq<Byte>, b: seq<Byte>, c: seq<Byte>)
    requires a <= b
    ensures a <= b + c
  {
    assert (b + c)[..|a|] == b[..|a|];
  }

  /** A stream of commands is no longer than 24 bytes per pixel. */
  lemma {:induction false} PutStreamBound(pxs: seq<Pixel>, useAlpha: bool)
    ensures |PutStream(pxs, useAlpha)| <= MaxCommandLength * |pxs|
  {
    if pxs != [] {
      PutStreamBound(pxs[..|pxs| - 1], useAlpha);
      PutCommandFits(pxs[|pxs| - 1], useAlpha);
    }
  }

  /** Only the coordinates of the pixels make up their requests. */
  lemma {:induction false} RequestStreamCoordinates(pxs: seq<Pixel>, qxs: seq<Pixel>)
    requires |pxs| == |qxs|
    requires forall j :: 0 <= j < |pxs| ==> pxs[j].x == qxs[j].x && pxs[j].y == qxs[j].y
    ensures RequestStream(pxs) == RequestStream(qxs)
  {
    if pxs != [] {
      RequestStreamCoordinates(pxs[..|pxs| - 1], qxs[..|qxs| - 1]);
    }
  }

  lemma {:induction false} JoinLinesAppend(a: seq<seq<Byte>>, b: seq<seq<Byte>>)
    ensures JoinLines(a + b) == JoinLines(a) + JoinLines(b)
    decreases |b|
  {
    if b == [] {
      assert a + b == a;
    } else {
      var b' := b[..|b| - 1];
      assert (a + b)[..|a + b| - 1] == a + b';
      JoinLinesAppend(a, b');
    }
  }

  lemma JoinLinesSnoc(lines: seq<seq<Byte>>, line: seq<Byte>)
    ensures JoinLines(lines + [line]) == JoinLines(lines) + line + [Newline]
  {
    assert (lines + [line])[..|lines|] == lines;
  }

  // ---------------------------------------------------------------- replies

  /** The fields of `PX x y rrggbb` as the parser reads them, before any check. */
  datatype PxReply = PxReply(x: nat, y: nat, colour: Rgb)

  /** One element of an `sscanf` format: literal text, `%u` or `%02x`. */
  datatype Directive = Text(lit: seq<Byte>) | Unsigned | HexPair

  /** How many values a format stores. */
  function Conversions(fmt: seq<Directive>): nat
  {
    if fmt == [] then 0 else (if fmt[0].Text? then 0 else 1) + Conversions(fmt[1..])
  }

  /** `sscanf` of `s` against `fmt`, when every directive matches: the values
      stored, in order. Bytes after the format are ignored. */
  function Scan(fmt: seq<Directive>, s: seq<Byte>): (r: Option<seq<nat>>)
    ensures r.Some? ==> |r.value| == Conversions(fmt)
    decreases |fmt|, |s|
  {
    if fmt == [] then Some([])
    else match fmt[0]
      case Text(lit) =>
        var t :- Literal(s, lit);
        Scan(fmt[1..], t)
      case Unsigned =>
        var p :- ParseUnsigned(s);
        var vs :- Scan(fmt[1..], p.1);
        Some([p.0] + vs)
      case HexPair =>
        var p :- ParseHex2(s);
        var vs :- Scan(fmt[1..], p.1);
        Some([p.0 as nat] + vs)
  }

  /** The pixel reply format, `PX %u %u %02x%02x%02x`; its final newline
      directive matches anything. */
  const PxFormat: seq<Directive> := [Text("PX "), Unsigned, Text(" "), Unsigned, Text(" "), HexPair, HexPair, HexPair]

  /** The size reply format, `SIZE %lu %lu`. */
  const SizeFormat: seq<Directive> := [Text("SIZE "), Unsigned, Text(" "), Unsigned]

  /** `sscanf(line, "PX %u %u %02x%02x%02x\n", ...) == 5`. Each channel is
      stored into its byte as the C assignment does (two hex digits never
      exceed 0xff). */
  function ParsePxReply(line: seq<Byte>): Option<PxReply>
  {
    var vs :- Scan(PxFormat, line);
    assert Conversions(PxFormat) == 5;
    Some(PxReply(vs[0], vs[1], Rgb(Truncate8(vs[2]), Truncate8(vs[3]), Truncate8(vs[4]))))
  }

  /** The C assignment of an `unsigned int` to a `uint8_t`. */
  function Truncate8(v: nat): (b: u8)
    ensures v < 256 ==> b as nat == v
  {
    (v % 256) as u8
  }

  /** `sscanf(line, "SIZE %lu %lu\n", ...) == 2`. */
  function ParseSizeReply(line: seq<Byte>): Option<(nat, nat)>
  {
    var vs :- Scan(SizeFormat, line);
    assert Conversions(SizeFormat) == 2;
    Some((vs[0], vs[1]))
  }

  /** The bound `pf_get` puts on the echoed y coordinate. */
  const GetYBound: nat := 0xff
  /** The bound the batched read puts on the echoed y coordinate. */
  const RecvYBound: nat := 0xffff

  /** The checks after a size reply is scanned: both fields present and 16-bit. */
  function CheckSizeReply(line: seq<Byte>): (o: Outcome<(u16, u16)>)
    ensures o.Failure? ==> o.error == ProtocolError
    ensures o.Success? <==> (ParseSizeReply(line).Some?
                             && ParseSizeReply(line).value.0 <= 0xffff
                             && ParseSizeReply(line).value.1 <= 0xffff)
    ensures o.Success? ==> ParseSizeReply(line) == Some(o.value)
  {
    match ParseSizeReply(line)
    case None => Failure(ProtocolError)
    case Some((w, h)) =>
      if w > 0xffff || h > 0xffff then Failure(ProtocolError) else Success((w, h))
  }

  /** The checks after a pixel reply is scanned for a request of (x, y): the
      five fields present, x within 16 bits and y within `yBound`
      (malformed: `ProtocolError`), then the echoed coordinates equal to the
      requested ones (otherwise `GetUnexpectedCoords`). */
  function CheckPxReply(line: seq<Byte>, x: u16, y: u16, yBound: nat): (o: Outcome<Rgb>)
    ensures o.Failure? ==> o.error == ProtocolError || o.error == GetUnexpectedCoords
    ensures o.Success? ==> ParsePxReply(line) == Some(PxReply(x, y, o.value)) && y <= yBound
    ensures o.Success? <==>
              (ParsePxReply(line).Some?
               && ParsePxReply(line).value.x == x
               && ParsePxReply(line).value.y == y
               && y <= yBound)
    ensures o == Failure(GetUnexpectedCoords) <==>
              (ParsePxReply(line).Some?
               && ParsePxReply(line).value.x <= 0xffff
               && ParsePxReply(line).value.y <= yBound
               && (ParsePxReply(line).value.x, ParsePxReply(line).value.y) != (x, y))
  {
    match ParsePxReply(line)
    case None => Failure(ProtocolError)
    case Some(rep) =>
      if rep.x > 0xffff || rep.y > yBound then Failure(ProtocolError)
      else if rep.x != x || rep.y != y then Failure(GetUnexpectedCoords)
      else Success(rep.colour)
  }

  /** Scanning literal text that is there. */
  lemma ScanText(lit: seq<Byte>, fmt: seq<Directive>, rest: seq<Byte>, vs: seq<nat>)
    requires Scan(fmt, rest) == Some(vs)
    ensures Scan([Text(lit)] + fmt, lit + rest) == Some(vs)
  {
    assert ([Text(lit)] + fmt)[1..] == fmt;
    LiteralPrefix(lit, rest);
  }

  /** Scanning a `%u` of a number written in decimal, not followed by a digit. */
  lemma ScanUnsigned(n: nat, fmt: seq<Directive>, rest: seq<Byte>, vs: seq<nat>)
    requires rest == [] || !IsDigit(rest[0])
    requires Scan(fmt, rest) == Some(vs)
    ensures Scan([Unsigned] + fmt, Decimal(n) + rest) == Some([n] + vs)
  {
    assert ([Unsigned] + fmt)[1..] == fmt;
    ParseUnsignedDecimal(n, rest);
  }

  /** Scanning a `%02x` of a channel written as two hex digits. */
  lemma ScanHexPair(v: u8, fmt: seq<Directive>, rest: seq<Byte>, vs: seq<nat>)
    requires Scan(fmt, rest) == Some(vs)
    ensures Scan([HexPair] + fmt, Hex2(v) + rest) == Some([v as nat] + vs)
  {
    assert ([HexPair] + fmt)[1..] == fmt;
    Hex2RoundTrip(v, rest);
  }

  /** The canonical pixel reply parses back to its fields, whatever follows
      the channels. */
  lemma PxReplyRoundTrip(x: nat, y: nat, c: Rgb, tail: seq<Byte>)
    ensures ParsePxReply(PxLine(x, y, c) + tail) == Some(PxReply(x, y, c))
  {
    var f8: seq<Directive> := [];
    var f7 := [HexPair] + f8;
    var f6 := [HexPair] + f7;
    var f5 := [HexPair] + f6;
    var f4 := [Text(" ")] + f5;
    var f3 := [Unsigned] + f4;
    var f2 := [Text(" ")] + f3;
    var f1 := [Unsigned] + f2;
    var f0 := [Text("PX ")] + f1;
    assert f0 == PxFormat;
    var s7 := tail;
    var s6 := Hex2(c.b) + s7;
    var s5 := Hex2(c.g) + s6;
    var s4 := Hex2(c.r) + s5;
    var s3 := " " + s4;
    var s2 := Decimal(y) + s3;
    var s1 := " " + s2;
    var s0 := Decimal(x) + s1;
    assert PxLine(x, y, c) + tail == "PX " + s0;
    var v8: seq<nat> := [];
    var v7 := [c.b as nat] + v8;
    var v6 := [c.g as nat] + v7;
    var v5 := [c.r as nat] + v6;
    var v2 := [y] + v5;
    var v1 := [x] + v2;
    ScanHexPair(c.b, f8, s7, v8);
    ScanHexPair(c.g, f7, s6, v7);
    ScanHexPair(c.r, f6, s5, v6);
    ScanText(" ", f5, s4, v5);
    ScanUnsigned(y, f4, s3, v5);
    ScanText(" ", f3, s2, v2);
    ScanUnsigned(x, f2, s1, v2);
    ScanText("PX ", f1, s0, v1);
    ParsePxFields(PxLine(x, y, c) + tail, x, y, c);
  }

  /** A line whose scan stores these five values is that reply. */
  lemma ParsePxFields(line: seq<Byte>, x: nat, y: nat, c: Rgb)
    requires Scan(PxFormat, line) == Some([x] + ([y] + ([c.r as nat] + ([c.g as nat] + ([c.b as nat] + [])))))
    ensures ParsePxReply(line) == Some(PxReply(x, y, c))
  {
    FiveValues(x, y, c.r as nat, c.g as nat, c.b as nat);
  }

  lemma FiveValues(a: nat, b: nat, c: nat, d: nat, e: nat)
    ensures [a] + ([b] + ([c] + ([d] + ([e] + [])))) == [a, b, c, d, e]
  {
  }

  /** The canonical size reply parses back to its fields, whatever follows
      that does not extend the second number. */
  lemma SizeReplyRoundTrip(w: nat, h: nat, tail: seq<Byte>)
    requires tail == [] || !IsDigit(tail[0])
    ensures ParseSizeReply("SIZE " + Decimal(w) + " " + Decimal(h) + tail) == Some((w, h))
  {
    var f4: seq<Directive> := [];
    var f3 := [Unsigned] + f4;
    var f2 := [Text(" ")] + f3;
    var f1 := [Unsigned] + f2;
    var f0 := [Text("SIZE ")] + f1;
    assert f0 == SizeFormat;
    var s3 := tail;
    var s2 := Decimal(h) + s3;
    var s1 := " " + s2;
    var s0 := Decimal(w) + s1;
    assert "SIZE " + Decimal(w) + " " + Decimal(h) + tail == "SIZE " + s0;
    var v4: seq<nat> := [];
    var v3 := [h] + v4;
    var v1 := [w] + v3;
    ScanUnsigned(h, f4, s3, v4);
    ScanText(" ", f3, s2, v3);
    ScanUnsigned(w, f2, s1, v3);
    ScanText("SIZE ", f1, s0, v1);
  }

  /** A canonical reply echoing 16-bit coordinates within the y bound is
      accepted exactly when it echoes the requested coordinates, and then
      yields its colour; otherwise it is a coordinate mismatch. */
  lemma CheckEchoedReply(x: u16, y: u16, ex: u16, ey: u16, c: Rgb, tail: seq<Byte>, yBound: nat)
    requires ey <= yBound
    ensures CheckPxReply(PxLine(ex, ey, c) + tail, x, y, yBound)
            == if ex == x && ey == y then Success(c) else Failure(GetUnexpectedCoords)
  {
    PxReplyRoundTrip(ex, ey, c, tail);
  }

  /** With the bound `pf_get` uses, a reply that correctly echoes a requested
      y above 0xff is rejected as malformed. */
  lemma GetRejectsEchoedLargeY(x: u16, y: u16, c: Rgb, tail: seq<Byte>)
    requires y > GetYBound
    ensures CheckPxReply(PxLine(x, y, c) + tail, x, y, GetYBound) == Failure(ProtocolError)
  {
    PxReplyRoundTrip(x, y, c, tail);
  }

  /** The concrete case: a request for (3, 300) answered by `PX 3 300 00ff00`. */
  lemma GetRejectsEchoOf300()
    ensures CheckPxReply(PxLine(3, 300, Rgb(0, 0xff, 0)), 3, 300, GetYBound) == Failure(ProtocolError)
    ensures CheckPxReply(PxLine(3, 300, Rgb(0, 0xff, 0)), 3, 300, RecvYBound) == Success(Rgb(0, 0xff, 0))
  {
    GetRejectsEchoedLargeY(3, 300, Rgb(0, 0xff, 0), []);
    CheckEchoedReply(3, 300, 3, 300, Rgb(0, 0xff, 0), [], RecvYBound);
    assert PxLine(3, 300, Rgb(0, 0xff, 0)) + [] == PxLine(3, 300, Rgb(0, 0xff, 0));
  }

  /** With the 16-bit bound that `pf_get_many` applies, every reply that
      correctly echoes the requested coordinates is accepted with its colour,
      whatever follows the channels. */
  lemma RecvAcceptsEchoedReply(x: u16, y: u16, c: Rgb, tail: seq<Byte>)
    ensures CheckPxReply(PxLine(x, y, c) + tail, x, y, RecvYBound) == Success(c)
  {
    CheckEchoedReply(x, y, x, y, c, tail, RecvYBound);
  }

  /** A server that answers a read with the line the client used to set the
      pixel gives back the pixel's colour. */
  lemma PutThenGetRoundTrip(px: Pixel)
    ensures var cmd := PutCommand(px, false);
            CheckPxReply(cmd[..|cmd| - 1], px.x, px.y, RecvYBound) == Success(Rgb(px.r, px.g, px.b))
  {
    var c := Rgb(px.r, px.g, px.b);
    var cmd := PutCommand(px, false);
    assert cmd == PxLine(px.x, px.y, c) + "\n";
    assert cmd[..|cmd| - 1] == PxLine(px.x, px.y, c) + [];
    CheckEchoedReply(px.x, px.y, px.x, px.y, c, [], RecvYBound);
  }

  /** A canonical size reply with 16-bit fields is accepted with its fields. */
  lemma CheckCanonicalSizeReply(w: u16, h: u16)
    ensures CheckSizeReply("SIZE " + Decimal(w) + " " + Decimal(h)) == Success((w, h))
  {
    SizeReplyRoundTrip(w, h, []);
    assert "SIZE " + Decimal(w) + " " + Decimal(h) + [] == "SIZE " + Decimal(w) + " " + Decimal(h);
  }

  // ---------------------------------------------------------------- port

  /** The port check of `pf_connect_raw`: decimal digits up to the end of the
      string with a value of at most 0xffff; as with `strtoul`, the empty
      string reads as port 0. */
  function ParsePort(s: seq<Byte>): (p: Option<u16>)
    ensures p.Some? ==> AllDigits(s) && p.value == DecimalValue(s)
    ensures AllDigits(s) && DecimalValue(s) > 0xffff ==> p == None
  {
    if AllDigits(s) && DecimalValue(s) <= 0xffff then Some(DecimalValue(s)) else None
  }

  lemma PortRoundTrip(p: u16)
    ensures ParsePort(Decimal(p)) == Some(p)
  {
    DecimalRoundTrip(p);
  }

  /** The decimal form of a number beyond 16 bits is refused. */
  lemma PortRejectsLarge(n: nat)
    requires n > 0xffff
    ensures ParsePort(Decimal(n)) == None
  {
    DecimalRoundTrip(n);
  }
}

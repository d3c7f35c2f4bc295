/** ECMAScript `encodeURIComponent` over strings of Unicode scalar values:
    every character outside ECMA-262's `uriUnreserved` set (letters,
    digits and `- _ . ! ~ * ' ( )`, the unreserved characters of section
    2.3 of RFC 3986 plus `! * ' ( )`) is UTF-8 encoded and each byte written as a `%XX` triplet with upper-case
    hexadecimal digits (section 2.1 of RFC 3986). `Decode` is the matching
    `decodeURIComponent`: it accepts either case of hex digit and fails on
    a malformed escape or on bytes that are not well-formed UTF-8. */
module UriComponent {
  import opened Wrappers

  type Byte = b: int | 0 <= b < 256

  /** The characters `encodeURIComponent` leaves alone. */
  predicate Unreserved(c: char) {
    || ('A' <= c <= 'Z') || ('a' <= c <= 'z') || ('0' <= c <= '9')
    || c == '-' || c == '_' || c == '.' || c == '!' || c == '~'
    || c == '*' || c == '\'' || c == '(' || c == ')'
  }

  predicate UpperHex(c: char) {
    ('0' <= c <= '9') || ('A' <= c <= 'F')
  }

  function HexDigit(d: nat): (c: char)
    requires d < 16
    ensures UpperHex(c)
  {
    if d < 10 then ('0' as int + d) as char else ('A' as int + d - 10) as char
  }

  /** The value of one hexadecimal digit of either case. */
  function HexValue(c: char): (r: Option<nat>)
    ensures r.Some? ==> r.value < 16
  {
    if '0' <= c <= '9' then Some(c as int - '0' as int)
    else if 'A' <= c <= 'F' then Some(c as int - 'A' as int + 10)
    else if 'a' <= c <= 'f' then Some(c as int - 'a' as int + 10)
    else None
  }

  lemma HexRoundTrip(d: nat)
    requires d < 16
    ensures HexValue(HexDigit(d)) == Some(d)
  {
  }

  /** The UTF-8 encoding of one scalar value (section 3 of RFC 3629). */
  function Utf8(c: char): (bs: seq<Byte>)
    ensures 1 <= |bs| <= 4
  {
    var v := c as int;
    if v < 0x80 then [v]
    else if v < 0x800 then [0xC0 + v / 64, 0x80 + v % 64]
    else if v < 0x1_0000 then [0xE0 + v / 4096, 0x80 + v / 64 % 64, 0x80 + v % 64]
    else [0xF0 + v / 262144, 0x80 + v / 4096 % 64, 0x80 + v / 64 % 64, 0x80 + v % 64]
  }

  function Triplet(b: Byte): (s: string)
    ensures |s| == 3
  {
    ['%', HexDigit(b / 16), HexDigit(b % 16)]
  }

  function Escape(bs: seq<Byte>): (s: string)
    ensures |s| == 3 * |bs|
  {
    if bs == [] then [] else Triplet(bs[0]) + Escape(bs[1..])
  }

  function EncodeChar(c: char): string {
    if Unreserved(c) then [c] else Escape(Utf8(c))
  }

  /** `encodeURIComponent(m)`. */
  function Encode(m: string): string
    decreases |m|
  {
    if m == [] then [] else EncodeChar(m[0]) + Encode(m[1..])
  }

  // ---------------------------------------------------------------------
  // Decoding

  /** The byte written as a `%XX` triplet at position `i` of `s`, if any. */
  function ByteAt(s: string, i: nat): Option<Byte> {
    if i + 3 <= |s| && s[i] == '%' then
      var hi, lo := HexValue(s[i + 1]), HexValue(s[i + 2]);
      if hi.Some? && lo.Some? then Some(hi.value * 16 + lo.value) else None
    else None
  }

  /** The six payload bits of a UTF-8 continuation byte escaped at `i`. */
  function PayloadAt(s: string, i: nat): (r: Option<nat>)
    ensures r.Some? ==> r.value < 64
  {
    match ByteAt(s, i)
    case Some(b) => if 0x80 <= b < 0xC0 then Some(b - 0x80) else None
    case None => None
  }

  /** Decodes the escaped character that starts `s`: the character and the
      number of input characters it took. */
  function DecodeEscape(s: string): (r: Option<(char, nat)>)
    ensures r.Some? ==> 3 <= r.value.1 <= |s|
  {
    match ByteAt(s, 0)
    case None => None
    case Some(b0) =>
      if b0 < 0x80 then Some((b0 as char, 3))
      else if 0xC0 <= b0 < 0xE0 then
        var p1 := PayloadAt(s, 3);
        if p1.None? then None
        else
          var v := (b0 - 0xC0) * 64 + p1.value;
          if 0x80 <= v then Some((v as char, 6)) else None
      else if 0xE0 <= b0 < 0xF0 then
        var p1, p2 := PayloadAt(s, 3), PayloadAt(s, 6);
        if p1.None? || p2.None? then None
        else
          var v := (b0 - 0xE0) * 4096 + p1.value * 64 + p2.value;
          if 0x800 <= v && !(0xD800 <= v < 0xE000) then Some((v as char, 9)) else None
      else if 0xF0 <= b0 < 0xF8 then
        var p1, p2, p3 := PayloadAt(s, 3), PayloadAt(s, 6), PayloadAt(s, 9);
        if p1.None? || p2.None? || p3.None? then None
        else
          var v := (b0 - 0xF0) * 262144 + p1.value * 4096 + p2.value * 64 + p3.value;
          if 0x1_0000 <= v < 0x11_0000 then Some((v as char, 12)) else None
      else None
  }

  /** `decodeURIComponent(s)`; `None` stands for the `URIError` it throws. */
  function Decode(s: string): Option<string>
    decreases |s|
  {
    if s == [] then Some([])
    else if s[0] != '%' then
      match Decode(s[1..])
      case Some(t) => Some([s[0]] + t)
      case None => None
    else
      match DecodeEscape(s)
      case None => None
      case Some(e) =>
        match Decode(s[e.1..])
        case Some(t) => Some([e.0] + t)
        case None => None
  }

  // ---------------------------------------------------------------------
  // Round trip

  lemma ByteAtTriplet(p: string, b: Byte, q: string)
    ensures ByteAt(p + Triplet(b) + q, |p|) == Some(b)
  {
    var s := p + Triplet(b) + q;
    assert s[|p|] == '%' && s[|p| + 1] == HexDigit(b / 16) && s[|p| + 2] == HexDigit(b % 16);
    HexRoundTrip(b / 16);
    HexRoundTrip(b % 16);
  }

  lemma Split64(v: nat)
    ensures v / 64 / 64 == v / 4096 && v / 4096 / 64 == v / 262144
    ensures v / 4096 * 4096 + v / 64 % 64 * 64 + v % 64 == v
    ensures v / 262144 * 262144 + v / 4096 % 64 * 4096 + v / 64 % 64 * 64 + v % 64 == v
  {
    var q := v / 64;
    assert v == 64 * q + v % 64;
    var q2 := q / 64;
    assert q == 64 * q2 + q % 64;
    assert q2 == v / 4096;
    var q3 := q2 / 64;
    assert q2 == 64 * q3 + q2 % 64;
    assert q3 == v / 262144;
  }

  /** An escaped character decodes back to itself, whatever follows it. */
  lemma DecodeEscapeChar(c: char, rest: string)
    requires !Unreserved(c)
    ensures DecodeEscape(Escape(Utf8(c)) + rest) == Some((c, 3 * |Utf8(c)|))
  {
    var bs := Utf8(c);
    if |bs| == 1 {
      assert Escape(bs) + rest == [] + Triplet(bs[0]) + rest;
      ByteAtTriplet([], bs[0], rest);
    } else if |bs| == 2 {
      DecodeTwoBytes(c, rest);
    } else if |bs| == 3 {
      DecodeThreeBytes(c, rest);
    } else {
      DecodeFourBytes(c, rest);
    }
  }

  lemma DecodeTwoBytes(c: char, rest: string)
    requires 0x80 <= c as int < 0x800
    ensures DecodeEscape(Escape(Utf8(c)) + rest) == Some((c, 6))
  {
    var bs := Utf8(c);
    var t0, t1 := Triplet(bs[0]), Triplet(bs[1]);
    var s := Escape(bs) + rest;
    assert Escape(bs) == t0 + t1;
    assert s == [] + t0 + (t1 + rest);
    assert s == t0 + t1 + rest;
    ByteAtTriplet([], bs[0], t1 + rest);
    ByteAtTriplet(t0, bs[1], rest);
    var v := c as int;
    assert v / 64 * 64 + v % 64 == v;
  }

  lemma DecodeThreeBytes(c: char, rest: string)
    requires 0x800 <= c as int < 0x1_0000
    ensures DecodeEscape(Escape(Utf8(c)) + rest) == Some((c, 9))
  {
    var v, bs := c as int, Utf8(c);
    ThreeTriplets(bs, rest);
    Split64(v);
    DecodeThreeEscapes(Escape(bs) + rest, bs[0], bs[1], bs[2], v);
  }

  /** Where the three escapes of a three-byte sequence start. */
  lemma ThreeTriplets(bs: seq<Byte>, rest: string)
    requires |bs| == 3
    ensures ByteAt(Escape(bs) + rest, 0) == Some(bs[0]) && ByteAt(Escape(bs) + rest, 3) == Some(bs[1])
    ensures ByteAt(Escape(bs) + rest, 6) == Some(bs[2])
  {
    var t0, t1, t2 := Triplet(bs[0]), Triplet(bs[1]), Triplet(bs[2]);
    var s := Escape(bs) + rest;
    assert Escape(bs[2..]) == t2;
    assert Escape(bs) == t0 + (t1 + t2);
    assert s == [] + t0 + (t1 + t2 + rest);
    assert s == t0 + t1 + (t2 + rest);
    ByteAtTriplet([], bs[0], t1 + t2 + rest);
    ByteAtTriplet(t0, bs[1], t2 + rest);
    ByteAtTriplet(t0 + t1, bs[2], rest);
  }

  /** Three escaped bytes of the right shape decode to the scalar value
      they carry. */
  lemma DecodeThreeEscapes(s: string, b0: Byte, b1: Byte, b2: Byte, v: int)
    requires ByteAt(s, 0) == Some(b0) && ByteAt(s, 3) == Some(b1) && ByteAt(s, 6) == Some(b2)
    requires 0x800 <= v < 0x1_0000 && !(0xD800 <= v < 0xE000)
    requires b0 == 0xE0 + v / 4096 && b1 == 0x80 + v / 64 % 64 && b2 == 0x80 + v % 64
    requires v / 4096 * 4096 + v / 64 % 64 * 64 + v % 64 == v
    ensures DecodeEscape(s) == Some((v as char, 9))
  {
    assert v / 4096 < 16;
    assert PayloadAt(s, 3) == Some(v / 64 % 64);
    assert PayloadAt(s, 6) == Some(v % 64);
  }

  lemma DecodeFourBytes(c: char, rest: string)
    requires 0x1_0000 <= c as int
    ensures DecodeEscape(Escape(Utf8(c)) + rest) == Some((c, 12))
  {
    var v, bs := c as int, Utf8(c);
    FourTriplets(bs, rest);
    Split64(v);
    DecodeFourEscapes(Escape(bs) + rest, bs[0], bs[1], bs[2], bs[3], v);
  }

  /** Where the four escapes of a four-byte sequence start. */
  lemma FourTriplets(bs: seq<Byte>, rest: string)
    requires |bs| == 4
    ensures ByteAt(Escape(bs) + rest, 0) == Some(bs[0]) && ByteAt(Escape(bs) + rest, 3) == Some(bs[1])
    ensures ByteAt(Escape(bs) + rest, 6) == Some(bs[2]) && ByteAt(Escape(bs) + rest, 9) == Some(bs[3])
  {
    var t0, t1, t2, t3 := Triplet(bs[0]), Triplet(bs[1]), Triplet(bs[2]), Triplet(bs[3]);
    var s := Escape(bs) + rest;
    assert Escape(bs[3..]) == t3 + Escape(bs[4..]) == t3;
    assert Escape(bs[2..]) == t2 + t3;
    assert Escape(bs[1..]) == t1 + (t2 + t3);
    assert Escape(bs) == t0 + t1 + t2 + t3;
    assert s == [] + t0 + (t1 + t2 + t3 + rest);
    assert s == t0 + t1 + (t2 + t3 + rest);
    assert s == t0 + t1 + t2 + (t3 + rest);
    assert s == t0 + t1 + t2 + t3 + rest;
    ByteAtTriplet([], bs[0], t1 + t2 + t3 + rest);
    ByteAtTriplet(t0, bs[1], t2 + t3 + rest);
    ByteAtTriplet(t0 + t1, bs[2], t3 + rest);
    ByteAtTriplet(t0 + t1 + t2, bs[3], rest);
  }

  /** Four escaped bytes of the right shape decode to the scalar value they
      carry. */
  lemma DecodeFourEscapes(s: string, b0: Byte, b1: Byte, b2: Byte, b3: Byte, v: int)
    requires ByteAt(s, 0) == Some(b0) && ByteAt(s, 3) == Some(b1)
    requires ByteAt(s, 6) == Some(b2) && ByteAt(s, 9) == Some(b3)
    requires 0x1_0000 <= v < 0x11_0000
    requires b0 == 0xF0 + v / 262144 && b1 == 0x80 + v / 4096 % 64
    requires b2 == 0x80 + v / 64 % 64 && b3 == 0x80 + v % 64
    requires v / 262144 * 262144 + v / 4096 % 64 * 4096 + v / 64 % 64 * 64 + v % 64 == v
    ensures DecodeEscape(s) == Some((v as char, 12))
  {
    assert v / 262144 <= 4;
    assert PayloadAt(s, 3) == Some(v / 4096 % 64);
    assert PayloadAt(s, 6) == Some(v / 64 % 64);
    assert PayloadAt(s, 9) == Some(v % 64);
  }

  /** Decoding an encoded character followed by anything decodes the rest. */
  lemma DecodeEncodeChar(c: char, rest: string)
    ensures Decode(EncodeChar(c) + rest) == match Decode(rest) case Some(t) => Some([c] + t) case None => None
  {
    var s := EncodeChar(c) + rest;
    if Unreserved(c) {
      assert s[0] == c && s[1..] == rest;
    } else {
      DecodeEscapeChar(c, rest);
      assert s[0] == '%';
      assert s[3 * |Utf8(c)|..] == rest;
    }
  }

  /** `decodeURIComponent(encodeURIComponent(m)) == m`. */
  lemma {:induction false} DecodeEncode(m: string)
    ensures Decode(Encode(m)) == Some(m)
    decreases |m|
  {
    if m != [] {
      DecodeEncode(m[1..]);
      DecodeEncodeChar(m[0], Encode(m[1..]));
      assert [m[0]] + m[1..] == m;
    }
  }

  /** Distinct messages have distinct encodings. */
  lemma EncodeInjective(a: string, b: string)
    requires Encode(a) == Encode(b)
    ensures a == b
  {
    DecodeEncode(a);
    DecodeEncode(b);
  }

  // ---------------------------------------------------------------------
  // Shape of the output

  /** A string made of unreserved characters and `%XX` upper-case escapes. */
  predicate EncodedForm(s: string)
    decreases |s|
  {
    || s == []
    || (Unreserved(s[0]) && EncodedForm(s[1..]))
    || (|s| >= 3 && s[0] == '%' && UpperHex(s[1]) && UpperHex(s[2]) && EncodedForm(s[3..]))
  }

  lemma {:induction false} EncodedFormAppend(a: string, b: string)
    requires EncodedForm(a) && EncodedForm(b)
    ensures EncodedForm(a + b)
    decreases |a|
  {
    if a == [] {
      assert a + b == b;
    } else if Unreserved(a[0]) {
      assert (a + b)[1..] == a[1..] + b;
      EncodedFormAppend(a[1..], b);
    } else {
      assert (a + b)[3..] == a[3..] + b;
      EncodedFormAppend(a[3..], b);
    }
  }

  lemma {:induction false} EscapeEncodedForm(bs: seq<Byte>)
    ensures EncodedForm(Escape(bs))
    decreases |bs|
  {
    if bs != [] {
      EscapeEncodedForm(bs[1..]);
      var t := Triplet(bs[0]);
      assert t[3..] == [];
      assert EncodedForm(t);
      EncodedFormAppend(t, Escape(bs[1..]));
    }
  }

  lemma {:induction false} EncodeEncodedForm(m: string)
    ensures EncodedForm(Encode(m))
    decreases |m|
  {
    if m != [] {
      EncodeEncodedForm(m[1..]);
      if Unreserved(m[0]) {
        assert [m[0]][1..] == [];
      } else {
        EscapeEncodedForm(Utf8(m[0]));
      }
      EncodedFormAppend(EncodeChar(m[0]), Encode(m[1..]));
    }
  }

  /** Every character of an encoded-form string is unreserved or the `%` of
      an escape followed by two upper-case hex digits. */
  lemma {:induction false} EncodedFormAlphabet(s: string, i: nat)
    requires EncodedForm(s) && i < |s|
    ensures Unreserved(s[i]) || (s[i] == '%' && i + 2 < |s| && UpperHex(s[i + 1]) && UpperHex(s[i + 2]))
            || (i >= 1 && s[i - 1] == '%' && UpperHex(s[i])) || (i >= 2 && s[i - 2] == '%' && UpperHex(s[i]))
    decreases |s|
  {
    if Unreserved(s[0]) {
      if i > 0 {
        EncodedFormAlphabet(s[1..], i - 1);
      }
    } else if i >= 3 {
      EncodedFormAlphabet(s[3..], i - 3);
    }
  }

  /** The output of `Encode` never contains a character that would end or
      split a query-string value. */
  lemma EncodeAvoidsDelimiters(m: string)
    ensures forall i :: 0 <= i < |Encode(m)| ==>
      Encode(m)[i] !in {' ', '\n', '&', '=', '#', '+', '?', '/'}
    ensures forall i :: 0 <= i < |Encode(m)| ==> Unreserved(Encode(m)[i]) || Encode(m)[i] == '%'
  {
    var e := Encode(m);
    EncodeEncodedForm(m);
    forall i | 0 <= i < |e|
      ensures (Unreserved(e[i]) || e[i] == '%') && e[i] !in {' ', '\n', '&', '=', '#', '+', '?', '/'}
    {
      EncodedFormAlphabet(e, i);
      NotDelimiter(e[i]);
    }
  }

  /** Unreserved characters and `%` are none of the delimiters. */
  lemma NotDelimiter(c: char)
    requires Unreserved(c) || c == '%' || UpperHex(c)
    ensures c !in {' ', '\n', '&', '=', '#', '+', '?', '/'}
  {
  }


  lemma {:induction false} EncodeAppend(a: string, b: string)
    ensures Encode(a + b) == Encode(a) + Encode(b)
    decreases |a|
  {
    if a == [] {
      assert a + b == b;
    } else {
      assert (a + b)[1..] == a[1..] + b;
      EncodeAppend(a[1..], b);
    }
  }

  /** Unreserved text is left unchanged. */
  lemma {:induction false} EncodeUnreserved(s: string)
    requires forall i :: 0 <= i < |s| ==> Unreserved(s[i])
    ensures Encode(s) == s
    decreases |s|
  {
    if s != [] {
      EncodeUnreserved(s[1..]);
      assert [s[0]] + s[1..] == s;
    }
  }

  /** A space is escaped as `%20`. */
  lemma EncodeSpace()
    ensures Encode(" ") == "%20"
  {
    assert Utf8(' ') == [32];
    assert Triplet(32) == "%20";
    assert Escape([32]) == Triplet(32) + Escape([]);
    assert EncodeChar(' ') == "%20";
    assert Encode(" ") == EncodeChar(' ') + Encode([]);
  }

  /** Characters that appear in the order messages. */
  lemma EncodeLineBreak()
    ensures EncodeChar('\n') == "%0A"
  {
    assert Utf8('\n') == [10];
    assert Triplet(10) == "%0A";
    assert Escape([10]) == Triplet(10) + Escape([]);
  }

  lemma EncodeComma()
    ensures EncodeChar(',') == "%2C"
  {
    assert Utf8(',') == [44];
    assert Triplet(44) == "%2C";
    assert Escape([44]) == Triplet(44) + Escape([]);
  }

  lemma EncodeDash()
    ensures EncodeChar('—') == "%E2%80%94"
  {
    assert Utf8('—') == [0xE2, 0x80, 0x94];
    assert Triplet(0xE2) == "%E2" && Triplet(0x80) == "%80" && Triplet(0x94) == "%94";
    assert Escape([0x94]) == Triplet(0x94) + Escape([]);
    assert Escape([0x80, 0x94]) == Triplet(0x80) + Escape([0x94]);
    assert Escape([0xE2, 0x80, 0x94]) == Triplet(0xE2) + Escape([0x80, 0x94]);
  }

  lemma EncodeBullet()
    ensures EncodeChar('•') == "%E2%80%A2"
  {
    assert Utf8('•') == [0xE2, 0x80, 0xA2];
    assert Triplet(0xE2) == "%E2" && Triplet(0x80) == "%80" && Triplet(0xA2) == "%A2";
    assert Escape([0xA2]) == Triplet(0xA2) + Escape([]);
    assert Escape([0x80, 0xA2]) == Triplet(0x80) + Escape([0xA2]);
    assert Escape([0xE2, 0x80, 0xA2]) == Triplet(0xE2) + Escape([0x80, 0xA2]);
  }

}

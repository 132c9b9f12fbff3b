/**
 * The percent-encoding the URI template engine applies to every value:
 * application/x-www-form-urlencoded over UTF-8 (java.net.URLEncoder), after
 * which every '+' (an encoded space) is replaced by "%20".
 */
module Encoding {
  import opened Results
  import opened Text

  /** The characters URLEncoder passes through unchanged. */
  predicate Unreserved(c: char) {
    ('a' <= c <= 'z') || ('A' <= c <= 'Z') || ('0' <= c <= '9') || c == '-' || c == '_' || c == '.' || c == '*'
  }

  predicate IsByte(b: int) {
    0 <= b < 256
  }

  /** The UTF-8 encoding of a Unicode scalar value. */
  function Utf8(c: char): (bs: seq<int>)
    ensures 1 <= |bs| <= 4
    ensures forall i :: 0 <= i < |bs| ==> IsByte(bs[i])
  {
    var n := c as int;
    // n split into six-bit groups, lowest first
    var q1 := n / 64;
    var q2 := q1 / 64;
    if n < 0x80 then [n]
    else if n < 0x800 then [0xC0 + q1, 0x80 + n % 64]
    else if n < 0x10000 then [0xE0 + q2, 0x80 + q1 % 64, 0x80 + n % 64]
    else [0xF0 + q2 / 64, 0x80 + q2 % 64, 0x80 + q1 % 64, 0x80 + n % 64]
  }

  const HexDigits: string := "0123456789ABCDEF"

  /** One byte as `%XY`, upper-case hexadecimal. */
  function Escape(b: int): string
    requires IsByte(b)
  {
    ['%', HexDigits[b / 16], HexDigits[b % 16]]
  }

  function EscapeAll(bs: seq<int>): (r: string)
    requires forall i :: 0 <= i < |bs| ==> IsByte(bs[i])
    ensures |r| == 3 * |bs|
  {
    if bs == [] then "" else Escape(bs[0]) + EscapeAll(bs[1..])
  }

  /** URLEncoder.encode of one character: kept, '+' for a space, else its UTF-8 bytes escaped. */
  function FormEncodeChar(c: char): string {
    if Unreserved(c) then [c] else if c == ' ' then "+" else EscapeAll(Utf8(c))
  }

  /** URLEncoder.encode(s, "utf-8"). */
  function FormEncode(s: string): string {
    if s == [] then "" else FormEncodeChar(s[0]) + FormEncode(s[1..])
  }

  /** What UriTemplate.encode makes of one character: kept if unreserved, else its UTF-8 bytes escaped. */
  function EncodeChar(c: char): (r: string)
    ensures r != []
  {
    if Unreserved(c) then [c] else EscapeAll(Utf8(c))
  }

  /**
   * UriTemplate.encode, character by character; `EncodeIsUrlEncoderThenReplace`
   * proves it equal to URLEncoder.encode(s, "utf-8").replace("+", "%20").
   */
  function Encode(s: string): string {
    if s == [] then "" else EncodeChar(s[0]) + Encode(s[1..])
  }

  lemma EscapeNoPlus(bs: seq<int>)
    requires forall i :: 0 <= i < |bs| ==> IsByte(bs[i])
    ensures '+' !in EscapeAll(bs)
    ensures forall i :: 0 <= i < |EscapeAll(bs)| ==> EscapeAll(bs)[i] in "%0123456789ABCDEF"
  {
  }

  /** The '+' replacement touches exactly the encoded spaces. */
  lemma EncodeCharReplace(c: char)
    ensures ReplaceAll(FormEncodeChar(c), "+", "%20") == EncodeChar(c)
  {
    if Unreserved(c) {
      assert c != '+';
      NoCharNoOccurrence([c], '+');
      ReplaceAllAbsent([c], "+", "%20");
    } else if c == ' ' {
      assert Utf8(c) == [0x20];
      assert EscapeAll([0x20]) == "%20";
      assert "+"[..1] == "+" && "+"[1..] == "";
      assert ReplaceAll("+", "+", "%20") == "%20" + ReplaceAll("", "+", "%20");
    } else {
      EscapeNoPlus(Utf8(c));
      NoCharNoOccurrence(EscapeAll(Utf8(c)), '+');
      ReplaceAllAbsent(EscapeAll(Utf8(c)), "+", "%20");
    }
  }

  /** The character-wise definition is URLEncoder's encoding with every '+' replaced by "%20". */
  lemma {:induction false} EncodeIsUrlEncoderThenReplace(s: string)
    ensures Encode(s) == ReplaceAll(FormEncode(s), "+", "%20")
    decreases |s|
  {
    if s != [] {
      ReplaceCharAppend(FormEncodeChar(s[0]), FormEncode(s[1..]), '+', "%20");
      EncodeCharReplace(s[0]);
      EncodeIsUrlEncoderThenReplace(s[1..]);
    }
  }

  /** `Encode` distributes over concatenation. */
  lemma {:induction false} EncodeAppend(a: string, b: string)
    ensures Encode(a + b) == Encode(a) + Encode(b)
    decreases |a|
  {
    if a == [] {
      assert a + b == b;
    } else {
      assert (a + b)[0] == a[0];
      assert (a + b)[1..] == a[1..] + b;
      EncodeAppend(a[1..], b);
    }
  }

  /** The output never contains '+'; it holds unreserved characters, '%' and upper-case hex digits only. */
  lemma {:induction false} EncodeAlphabet(s: string)
    ensures '+' !in Encode(s)
    ensures forall i :: 0 <= i < |Encode(s)| ==> Encode(s)[i] in "%0123456789ABCDEF" || Unreserved(Encode(s)[i])
    decreases |s|
  {
    if s != [] {
      EncodeAlphabet(s[1..]);
      if !Unreserved(s[0]) {
        EscapeNoPlus(Utf8(s[0]));
      }
    }
  }

  /** A space becomes "%20". */
  lemma EncodeSpace()
    ensures Encode(" ") == "%20"
  {
    assert Utf8(' ') == [0x20];
    assert EscapeAll([0x20]) == "%20";
  }

  /** Text made only of unreserved characters is left unchanged. */
  lemma {:induction false} EncodeUnreserved(s: string)
    requires forall i :: 0 <= i < |s| ==> Unreserved(s[i])
    ensures Encode(s) == s
    decreases |s|
  {
    if s != [] {
      EncodeUnreserved(s[1..]);
    }
  }

  // ---------------------------------------------------------------------
  // Decoding, the inverse of Encode.

  function HexValue(c: char): Option<int> {
    if '0' <= c <= '9' then Some(c as int - '0' as int)
    else if 'A' <= c <= 'F' then Some(c as int - 'A' as int + 10)
    else None
  }

  /** The byte written `%XY` in a three-character string. */
  function ByteOf(e: string): Option<int>
    requires |e| == 3
  {
    if e[0] == '%' && HexValue(e[1]).Some? && HexValue(e[2]).Some? then
      Some(16 * HexValue(e[1]).value + HexValue(e[2]).value)
    else None
  }

  /** The byte escaped as `%XY` at position `i` of `t`. */
  function ByteAt(t: string, i: nat): Option<int> {
    if i + 3 <= |t| then ByteOf(t[i..i + 3]) else None
  }

  /** A continuation byte `10xxxxxx` at position `i`, as its six payload bits. */
  function ContinuationAt(t: string, i: nat): Option<int> {
    var b := ByteAt(t, i);
    if b.Some? && 0x80 <= b.value < 0xC0 then Some(b.value - 0x80) else None
  }

  function ScalarOf(n: int): Option<char> {
    if 0 <= n < 0xD800 || 0xE000 <= n < 0x11_0000 then Some(n as char) else None
  }

  /** The character whose escaped UTF-8 bytes start `t`, and how many characters of `t` they take. */
  function DecodeScalar(t: string): Option<(char, nat)> {
    var b0 := ByteAt(t, 0);
    if b0.None? then None
    else if b0.value < 0x80 then
      var c := ScalarOf(b0.value); if c.None? then None else Some((c.value, 3))
    else if 0xC0 <= b0.value < 0xE0 then
      var b1 := ContinuationAt(t, 3);
      if b1.None? then None
      else
        var c := ScalarOf((b0.value - 0xC0) * 64 + b1.value);
        if c.None? then None else Some((c.value, 6))
    else if 0xE0 <= b0.value < 0xF0 then
      var b1 := ContinuationAt(t, 3);
      var b2 := ContinuationAt(t, 6);
      if b1.None? || b2.None? then None
      else
        var c := ScalarOf((b0.value - 0xE0) * 4096 + b1.value * 64 + b2.value);
        if c.None? then None else Some((c.value, 9))
    else if 0xF0 <= b0.value < 0xF8 then
      var b1 := ContinuationAt(t, 3);
      var b2 := ContinuationAt(t, 6);
      var b3 := ContinuationAt(t, 9);
      if b1.None? || b2.None? || b3.None? then None
      else
        var c := ScalarOf((b0.value - 0xF0) * 262144 + b1.value * 4096 + b2.value * 64 + b3.value);
        if c.None? then None else Some((c.value, 12))
    else None
  }

  /** Percent-decoding followed by UTF-8 decoding; None for text `Encode` cannot produce. */
  function Decode(t: string): Option<string>
    decreases |t|
  {
    if t == [] then Some("")
    else if t[0] != '%' then
      if Unreserved(t[0]) then
        var rest := Decode(t[1..]);
        if rest.None? then None else Some([t[0]] + rest.value)
      else None
    else
      var d := DecodeScalar(t);
      if d.None? || d.value.1 == 0 || d.value.1 > |t| then None
      else
        var rest := Decode(t[d.value.1..]);
        if rest.None? then None else Some([d.value.0] + rest.value)
  }

  lemma HexDigitValue(k: int)
    requires 0 <= k < 16
    ensures HexValue(HexDigits[k]) == Some(k)
  {
  }

  lemma EscapedByte(b: int)
    requires IsByte(b)
    ensures ByteOf(Escape(b)) == Some(b)
  {
    HexDigitValue(b / 16);
    HexDigitValue(b % 16);
  }

  /** The k-th escaped byte sits at position 3k. */
  lemma {:induction false} EscapedByteAt(bs: seq<int>, k: nat, rest: string)
    requires forall i :: 0 <= i < |bs| ==> IsByte(bs[i])
    requires k < |bs|
    ensures ByteAt(EscapeAll(bs) + rest, 3 * k) == Some(bs[k])
    decreases k
  {
    var t := EscapeAll(bs) + rest;
    var u := EscapeAll(bs[1..]) + rest;
    assert t == Escape(bs[0]) + u;
    if k == 0 {
      assert t[0..3] == Escape(bs[0]);
      EscapedByte(bs[0]);
    } else {
      EscapedByteAt(bs[1..], k - 1, rest);
      assert t[3 * k..3 * k + 3] == u[3 * (k - 1)..3 * (k - 1) + 3];
    }
  }

  lemma DecodeOneByte(t: string, n: int)
    requires 0 <= n < 0x80
    requires ByteAt(t, 0) == Some(n)
    ensures ScalarOf(n) == Some(n as char)
    ensures DecodeScalar(t) == Some((n as char, 3))
  {
  }

  lemma DecodeTwoBytes(t: string, n: int)
    requires 0x80 <= n < 0x800
    requires ByteAt(t, 0) == Some(0xC0 + n / 64) && ByteAt(t, 3) == Some(0x80 + n % 64)
    ensures DecodeScalar(t) == Some((n as char, 6))
  {
    assert ContinuationAt(t, 3) == Some(n % 64);
  }

  lemma DecodeThreeBytes(t: string, n: int)
    requires 0x800 <= n < 0x10000 && (n < 0xD800 || 0xE000 <= n)
    requires ByteAt(t, 0) == Some(0xE0 + n / 64 / 64)
    requires ByteAt(t, 3) == Some(0x80 + (n / 64) % 64) && ByteAt(t, 6) == Some(0x80 + n % 64)
    ensures DecodeScalar(t) == Some((n as char, 9))
  {
    var q1 := n / 64;
    assert ContinuationAt(t, 3) == Some(q1 % 64);
    assert ContinuationAt(t, 6) == Some(n % 64);
    assert q1 == (q1 / 64) * 64 + q1 % 64;
    assert (q1 / 64) * 4096 + (q1 % 64) * 64 == q1 * 64;
  }

  /** Reassembling four six-bit groups gives the number back. */
  lemma FourGroups(n: int)
    requires 0 <= n
    ensures (n / 64 / 64 / 64) * 262144 + (n / 64 / 64 % 64) * 4096 + (n / 64 % 64) * 64 + n % 64 == n
  {
    var q1 := n / 64;
    var q2 := q1 / 64;
    var q3 := q2 / 64;
    assert q2 == q3 * 64 + q2 % 64;
    assert q1 == q2 * 64 + q1 % 64;
    assert q3 * 262144 + (q2 % 64) * 4096 == q2 * 4096;
    assert q2 * 4096 + (q1 % 64) * 64 == q1 * 64;
  }

  lemma DecodeFourBytes(t: string, n: int)
    requires 0x10000 <= n < 0x11_0000
    requires ByteAt(t, 0) == Some(0xF0 + n / 64 / 64 / 64)
    requires ByteAt(t, 3) == Some(0x80 + (n / 64 / 64) % 64)
    requires ByteAt(t, 6) == Some(0x80 + (n / 64) % 64) && ByteAt(t, 9) == Some(0x80 + n % 64)
    ensures DecodeScalar(t) == Some((n as char, 12))
  {
    assert ContinuationAt(t, 3) == Some((n / 64 / 64) % 64);
    assert ContinuationAt(t, 6) == Some((n / 64) % 64);
    assert ContinuationAt(t, 9) == Some(n % 64);
    FourGroups(n);
  }

  /** The escaped UTF-8 bytes of a character decode back to it. */
  lemma DecodeScalarOfEncoded(c: char, rest: string)
    requires !Unreserved(c)
    ensures DecodeScalar(EncodeChar(c) + rest) == Some((c, |EncodeChar(c)|))
  {
    var n := c as int;
    assert n as char == c;
    if n < 0x80 {
      EscapedByteAt(Utf8(c), 0, rest);
      DecodeOneByte(EncodeChar(c) + rest, n);
    } else if n < 0x800 {
      DecodeEncodedTwo(c, rest);
    } else if n < 0x10000 {
      DecodeEncodedThree(c, rest);
    } else {
      DecodeEncodedFour(c, rest);
    }
  }

  lemma DecodeEncodedTwo(c: char, rest: string)
    requires 0x80 <= c as int < 0x800
    ensures DecodeScalar(EscapeAll(Utf8(c)) + rest) == Some((c, 6))
  {
    var bs := Utf8(c);
    EscapedByteAt(bs, 0, rest);
    EscapedByteAt(bs, 1, rest);
    DecodeTwoBytes(EscapeAll(bs) + rest, c as int);
  }

  lemma DecodeEncodedThree(c: char, rest: string)
    requires 0x800 <= c as int < 0x10000
    ensures DecodeScalar(EscapeAll(Utf8(c)) + rest) == Some((c, 9))
  {
    var n := c as int;
    var bs := Utf8(c);
    assert bs == [0xE0 + n / 64 / 64, 0x80 + (n / 64) % 64, 0x80 + n % 64];
    EscapedByteAt(bs, 0, rest);
    EscapedByteAt(bs, 1, rest);
    EscapedByteAt(bs, 2, rest);
    DecodeThreeBytes(EscapeAll(bs) + rest, n);
  }

  lemma DecodeEncodedFour(c: char, rest: string)
    requires 0x10000 <= c as int
    ensures DecodeScalar(EscapeAll(Utf8(c)) + rest) == Some((c, 12))
  {
    var n := c as int;
    var bs := Utf8(c);
    assert bs == [0xF0 + n / 64 / 64 / 64, 0x80 + (n / 64 / 64) % 64, 0x80 + (n / 64) % 64, 0x80 + n % 64];
    EscapedByteAt(bs, 0, rest);
    EscapedByteAt(bs, 1, rest);
    EscapedByteAt(bs, 2, rest);
    EscapedByteAt(bs, 3, rest);
    DecodeFourBytes(EscapeAll(bs) + rest, n);
  }

  /** Round trip: decoding the encoding of any text gives the text back. */
  lemma {:induction false} DecodeEncode(s: string)
    ensures Decode(Encode(s)) == Some(s)
    decreases |s|
  {
    if s == [] {
    } else {
      DecodeEncode(s[1..]);
      assert Encode(s) == EncodeChar(s[0]) + Encode(s[1..]);
      DecodeCharThen(s[0], Encode(s[1..]), s[1..]);
      assert [s[0]] + s[1..] == s;
    }
  }

  /** Decoding one encoded character followed by decodable text. */
  lemma DecodeCharThen(c: char, u: string, x: string)
    requires Decode(u) == Some(x)
    ensures Decode(EncodeChar(c) + u) == Some([c] + x)
  {
    var e := EncodeChar(c);
    var t := e + u;
    if Unreserved(c) {
      assert t[1..] == u;
    } else {
      DecodeScalarOfEncoded(c, u);
      assert t[|e|..] == u;
    }
  }

  /** Encode is injective: different texts never encode alike. */
  lemma EncodeInjective(a: string, b: string)
    requires Encode(a) == Encode(b)
    ensures a == b
  {
    DecodeEncode(a);
    DecodeEncode(b);
  }
}

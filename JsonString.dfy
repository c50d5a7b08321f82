/**
 * `json_decode` applied, as in `FetchEvents::fetch`, to the text `"` + capture
 * + `"`: the capture is read as the body of a JSON string (section 7 of
 * RFC 8259), with PHP's error cases: a raw `"` ends the string early and leaves
 * trailing text, a raw control character, an unknown escape, a malformed
 * `\u` escape or an unpaired UTF-16 surrogate each make the whole decode fail.
 */
module JsonString {
  import opened Wrappers

  predicate IsHexDigit(c: char) {
    '0' <= c <= '9' || 'a' <= c <= 'f' || 'A' <= c <= 'F'
  }

  function HexDigitValue(c: char): (v: nat)
    requires IsHexDigit(c)
    ensures v < 16
  {
    if '0' <= c <= '9' then c as int - '0' as int
    else if 'a' <= c <= 'f' then c as int - 'a' as int + 10
    else c as int - 'A' as int + 10
  }

  /** Four hex digits start at position `i` of `s`. */
  predicate IsHex4At(s: string, i: nat) {
    i + 4 <= |s| && IsHexDigit(s[i]) && IsHexDigit(s[i + 1]) && IsHexDigit(s[i + 2]) && IsHexDigit(s[i + 3])
  }

  /** The code unit spelled by the four hex digits at position `i`. */
  function Hex4(s: string, i: nat): (v: nat)
    requires IsHex4At(s, i)
    ensures v < 0x10000
  {
    HexDigitValue(s[i]) * 0x1000 + HexDigitValue(s[i + 1]) * 0x100 +
    HexDigitValue(s[i + 2]) * 0x10 + HexDigitValue(s[i + 3])
  }

  predicate IsHighSurrogate(u: int) { 0xD800 <= u < 0xDC00 }
  predicate IsLowSurrogate(u: int) { 0xDC00 <= u < 0xE000 }

  /** The character a one-letter escape stands for. */
  const ShortEscapes: map<char, char> :=
    map['"' := '"', '\\' := '\\', '/' := '/', 'b' := '\U{08}', 'f' := '\U{0C}',
        'n' := '\n', 'r' := '\r', 't' := '\t']

  function Cons(c: char, rest: Option<string>): (r: Option<string>)
    ensures r.Some? <==> rest.Some?
  {
    if rest.Some? then Some([c] + rest.value) else None
  }

  /** The code point of a surrogate pair. */
  function Combine(high: int, low: int): (c: char)
    requires IsHighSurrogate(high) && IsLowSurrogate(low)
  {
    var v := 0x10000 + (high - 0xD800) * 0x400 + (low - 0xDC00);
    assert v < 0x110000 by {
      assert (high - 0xD800) * 0x400 <= 0x3FF * 0x400;
    }
    v as char
  }

  /** The decoded value of a JSON string whose body (the text between the
      quotes) is `s`, or None where `json_decode` gives null. */
  function Decode(s: string): Option<string>
    decreases |s|
  {
    if s == [] then Some("")
    else if s[0] == '"' || s[0] < ' ' then None
    else if s[0] != '\\' then Cons(s[0], Decode(s[1..]))
    else if |s| < 2 then None
    else if s[1] in ShortEscapes then Cons(ShortEscapes[s[1]], Decode(s[2..]))
    else if s[1] != 'u' || !IsHex4At(s, 2) then None
    else
      var u := Hex4(s, 2);
      if IsHighSurrogate(u) then
        if |s| >= 12 && s[6] == '\\' && s[7] == 'u' && IsHex4At(s, 8) && IsLowSurrogate(Hex4(s, 8))
        then Cons(Combine(u, Hex4(s, 8)), Decode(s[12..]))
        else None
      else if IsLowSurrogate(u) then None
      else Cons(u as char, Decode(s[6..]))
  }

  // ---------------------------------------------------------------------------
  // The encoder on the other side

  function HexChar(d: nat, upper: bool): (c: char)
    requires d < 16
    ensures IsHexDigit(c) && HexDigitValue(c) == d
  {
    if d < 10 then ('0' as int + d) as char
    else if upper then ('A' as int + d - 10) as char
    else ('a' as int + d - 10) as char
  }

  /** `\u` and four hex digits, in the chosen case, for a UTF-16 code unit. */
  function HexEscape(u: nat, upper: bool): (r: string)
    requires u < 0x10000
    ensures |r| == 6 && r[0] == '\\' && r[1] == 'u' && IsHex4At(r, 2) && Hex4(r, 2) == u
  {
    var d3, d2, d1, d0 := u / 0x1000, u / 0x100 % 0x10, u / 0x10 % 0x10, u % 0x10;
    HexSpelling(u);
    var r := ['\\', 'u', HexChar(d3, upper), HexChar(d2, upper), HexChar(d1, upper), HexChar(d0, upper)];
    assert Hex4(r, 2) == d3 * 0x1000 + d2 * 0x100 + d1 * 0x10 + d0;
    r
  }

  /** `\u` and four lower-case hex digits for a character of the basic plane. */
  function UnicodeEscape(c: char): (r: string)
    requires (c as int) < 0x10000
    ensures |r| == 6 && r[0] == '\\' && r[1] == 'u' && IsHex4At(r, 2) && Hex4(r, 2) == c as int
  {
    HexEscape(c as int, false)
  }

  /** A number below 0x10000 is the sum of its four hex digits at their weights. */
  lemma HexSpelling(v: nat)
    requires v < 0x10000
    ensures v / 0x1000 < 0x10
    ensures v == v / 0x1000 * 0x1000 + v / 0x100 % 0x10 * 0x100 + v / 0x10 % 0x10 * 0x10 + v % 0x10
  {
    var q1 := v / 0x10;
    var q2 := q1 / 0x10;
    var q3 := q2 / 0x10;
    assert v == q1 * 0x10 + v % 0x10;
    assert q1 == q2 * 0x10 + q1 % 0x10;
    assert q2 == q3 * 0x10 + q2 % 0x10;
    assert q2 == v / 0x100;
    assert q3 == v / 0x1000;
  }

  /** The letter of the short escape for a character that has one. */
  const ShortSpellings: map<char, char> :=
    map['"' := '"', '\\' := '\\', '/' := '/', '\U{08}' := 'b', '\U{0C}' := 'f',
        '\n' := 'n', '\r' := 'r', '\t' := 't']

  /** The high and low surrogates that spell a character outside the basic plane. */
  function HighSurrogate(c: char): (u: nat)
    requires c as int >= 0x10000
    ensures IsHighSurrogate(u)
  {
    0xD800 + (c as int - 0x10000) / 0x400
  }

  function LowSurrogate(c: char): (u: nat)
    requires c as int >= 0x10000
    ensures IsLowSurrogate(u)
  {
    0xDC00 + (c as int - 0x10000) % 0x400
  }

  /** How an encoder may write one character: as itself, as its short escape,
      as `\uXXXX` in either case, or as a surrogate pair in either case. */
  datatype Spelling = Plain | Short | Hex(upper: bool) | Pair(upper: bool)

  /** One character written with the chosen spelling where JSON allows it for
      that character; otherwise as JSON requires (quote and backslash escaped,
      control characters hex-escaped, the rest as itself). */
  function EscapeChar(c: char, sp: Spelling): string {
    if sp.Short? && c in ShortSpellings then ['\\', ShortSpellings[c]]
    else if sp.Hex? && (c as int) < 0x10000 then HexEscape(c as int, sp.upper)
    else if sp.Pair? && (c as int) >= 0x10000 then
      HexEscape(HighSurrogate(c), sp.upper) + HexEscape(LowSurrogate(c), sp.upper)
    else if c == '"' then "\\\""
    else if c == '\\' then "\\\\"
    else if c < ' ' then UnicodeEscape(c)
    else [c]
  }

  /** The body of a JSON string for `t`, each character written with the
      spelling chosen for its position. */
  function Encode(t: string, sp: seq<Spelling>): string
    requires |sp| == |t|
    decreases |t|
  {
    if t == [] then "" else EscapeChar(t[0], sp[0]) + Encode(t[1..], sp[1..])
  }

  // ---------------------------------------------------------------------------
  // Lemmas

  /** Decoding one written character yields the character followed by the
      decoding of the rest, whichever spelling was used. */
  lemma DecodeEscapeChar(c: char, sp: Spelling, rest: string)
    ensures Decode(EscapeChar(c, sp) + rest) == Cons(c, Decode(rest))
  {
    var e := EscapeChar(c, sp);
    var s := e + rest;
    if sp.Short? && c in ShortSpellings {
      ShortSpellingsInvert(c);
      assert s[1] == e[1] && s[2..] == rest;
    } else if sp.Hex? && (c as int) < 0x10000 {
      DecodeBasicEscape(e, rest);
    } else if sp.Pair? && (c as int) >= 0x10000 {
      DecodePair(c, sp.upper, rest);
    } else if c == '"' || c == '\\' {
      assert s[2..] == rest;
    } else if c < ' ' {
      DecodeBasicEscape(e, rest);
    } else {
      assert s[1..] == rest;
    }
  }

  /** The short spellings are the short escapes read backwards. */
  lemma ShortSpellingsInvert(c: char)
    requires c in ShortSpellings
    ensures ShortSpellings[c] in ShortEscapes && ShortEscapes[ShortSpellings[c]] == c
  {
  }

  /** A surrogate pair decodes to the character outside the basic plane it
      spells. */
  lemma DecodePair(c: char, upper: bool, rest: string)
    requires c as int >= 0x10000
    ensures Decode(HexEscape(HighSurrogate(c), upper) + HexEscape(LowSurrogate(c), upper) + rest)
      == Cons(c, Decode(rest))
  {
    var hi, lo := HexEscape(HighSurrogate(c), upper), HexEscape(LowSurrogate(c), upper);
    var s := hi + lo + rest;
    assert s[..6] == hi && s[6..12] == lo && s[12..] == rest;
    assert s[1] !in ShortEscapes;
    assert Hex4(s, 2) == Hex4(hi, 2);
    assert s[6] == lo[0] && s[7] == lo[1];
    assert Hex4(s, 8) == Hex4(lo, 2);
    CombineSurrogates(c);
  }

  /** Combining the two surrogates of a character gives the character back. */
  lemma CombineSurrogates(c: char)
    requires c as int >= 0x10000
    ensures Combine(HighSurrogate(c), LowSurrogate(c)) == c
  {
    var v := c as int - 0x10000;
    assert v == v / 0x400 * 0x400 + v % 0x400;
  }

  /** Decoding undoes encoding, whichever spelling is chosen for each character. */
  lemma {:induction false} DecodeEncode(t: string, sp: seq<Spelling>)
    requires |sp| == |t|
    ensures Decode(Encode(t, sp)) == Some(t)
    decreases |t|
  {
    if t != [] {
      DecodeEncode(t[1..], sp[1..]);
      DecodeEscapeChar(t[0], sp[0], Encode(t[1..], sp[1..]));
      assert [t[0]] + t[1..] == t;
    }
  }

  /** A capture without backslash, quote or control character decodes to itself. */
  lemma {:induction false} DecodePlain(s: string)
    requires forall k :: 0 <= k < |s| ==> s[k] != '\\' && s[k] != '"' && s[k] >= ' '
    ensures Decode(s) == Some(s)
    decreases |s|
  {
    if s != [] {
      DecodePlain(s[1..]);
      assert [s[0]] + s[1..] == s;
    }
  }

  /** Decoding works piece by piece: after a text that decodes on its own,
      the rest decodes as if it stood alone. */
  lemma {:induction false} DecodeAppend(a: string, r: string)
    requires Decode(a).Some?
    ensures Decode(a + r) ==
      if Decode(r).Some? then Some(Decode(a).value + Decode(r).value) else None
    decreases |a|
  {
    if a != [] {
      var (c, n) := DecodeHead(a);
      assert (a + r)[n..] == a[n..] + r;
      HeadOfAppend(a, r);
      DecodeAppend(a[n..], r);
      ConsAppend(c, Decode(a[n..]), Decode(r), Decode(a[n..] + r));
    } else {
      assert a + r == r;
      if Decode(r).Some? {
        assert Decode(a).value + Decode(r).value == Decode(r).value;
      }
    }
  }

  /** Putting a character in front of a concatenation. */
  lemma ConsAppend(c: char, x: Option<string>, y: Option<string>, z: Option<string>)
    requires x.Some? && z == if y.Some? then Some(x.value + y.value) else None
    ensures Cons(c, z) == if y.Some? then Some(Cons(c, x).value + y.value) else None
  {
    if y.Some? {
      assert [c] + (x.value + y.value) == ([c] + x.value) + y.value;
    }
  }

  /** The first character `Decode` produces from `s`, and how many characters
      of `s` it reads for it. */
  function DecodeHead(s: string): (h: (char, nat))
    requires s != [] && Decode(s).Some?
    ensures 1 <= h.1 <= |s|
    ensures Decode(s) == Cons(h.0, Decode(s[h.1..]))
  {
    if s[0] != '\\' then (s[0], 1)
    else if s[1] in ShortEscapes then (ShortEscapes[s[1]], 2)
    else if IsHighSurrogate(Hex4(s, 2)) then (Combine(Hex4(s, 2), Hex4(s, 8)), 12)
    else (Hex4(s, 2) as char, 6)
  }

  /** The first step of `Decode` reads the same on `a + r` as on `a`. */
  lemma HeadOfAppend(a: string, r: string)
    requires a != [] && Decode(a).Some?
    ensures Decode(a + r) == Cons(DecodeHead(a).0, Decode((a + r)[DecodeHead(a).1..]))
  {
    var s := a + r;
    if a[0] == '\\' {
      assert s[1] == a[1];
      if a[1] !in ShortEscapes {
        assert s[2..6] == a[2..6];
        assert IsHex4At(s, 2) && Hex4(s, 2) == Hex4(a, 2);
        if IsHighSurrogate(Hex4(a, 2)) {
          assert s[6..12] == a[6..12];
          assert IsHex4At(s, 8) && Hex4(s, 8) == Hex4(a, 8);
        }
      }
    }
  }

  /** A raw quote or a raw control character makes the decode fail, whatever
      well-formed text comes before it. */
  lemma DecodeRawQuoteFails(a: string, c: char, b: string)
    requires Decode(a).Some?
    requires c == '"' || c < ' '
    ensures Decode(a + [c] + b) == None
  {
    DecodeAppend(a, [c] + b);
    assert a + [c] + b == a + ([c] + b);
  }

  /** A `\u` escape of a character outside the surrogate range decodes to
      that character. */
  lemma DecodeBasicEscape(e: string, rest: string)
    requires |e| == 6 && e[0] == '\\' && e[1] == 'u' && IsHex4At(e, 2)
    requires !IsHighSurrogate(Hex4(e, 2)) && !IsLowSurrogate(Hex4(e, 2))
    ensures Decode(e + rest) == Cons(Hex4(e, 2) as char, Decode(rest))
  {
    var s := e + rest;
    assert s[..6] == e;
    assert s[6..] == rest;
    assert s[1] !in ShortEscapes;
    assert Hex4(s, 2) == Hex4(e, 2);
  }

  /** The escapes the widget writes for `<` and `>` decode to those characters. */
  lemma DecodeAngleBrackets(rest: string)
    ensures Decode("\\u003c" + rest) == Cons('<', Decode(rest))
    ensures Decode("\\u003e" + rest) == Cons('>', Decode(rest))
  {
    assert Hex4("\\u003c", 2) == 0x3c;
    DecodeBasicEscape("\\u003c", rest);
    assert Hex4("\\u003e", 2) == 0x3e;
    DecodeBasicEscape("\\u003e", rest);
  }

  lemma LoneHighSurrogateFails(s: string)
    requires |s| >= 6 && s[0] == '\\' && s[1] == 'u' && IsHex4At(s, 2) && IsHighSurrogate(Hex4(s, 2))
    requires |s| < 12 || s[6] != '\\'
    ensures Decode(s) == None
  {
    assert s[1] !in ShortEscapes;
  }
}

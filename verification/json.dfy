/** The two faces of JSON the importer touches: decoded values (what
    `json.loads` hands back from `gh` output, kept abstract) and the string
    literal encoding `json.dumps` uses when it writes a request body.

    `json.dumps` runs with its default `ensure_ascii=True`, so every string
    literal it writes is printable ASCII: `"` and `\` and the five short
    control escapes get a backslash, every other character outside space..`~`
    becomes `\uXXXX` in lower-case hex, and characters beyond the Basic
    Multilingual Plane become a UTF-16 surrogate pair of such escapes. */
module Json {
  import opened Wrappers

  /** A decoded JSON value. Objects map member names to values (a repeated
      name keeps its last value, as `json.loads` does). A non-integral number
      has no case of its own: it is decoded as `Null`, so it passes no test
      for an integer or a string. */
  datatype Value =
    | Null
    | Bool(b: bool)
    | Int(i: int)
    | Str(s: string)
    | Arr(items: seq<Value>)
    | Obj(members: map<string, Value>)

  predicate IsPrintableAscii(c: char) {
    ' ' <= c <= '~'
  }

  function HexDigit(d: nat): (c: char)
    requires d < 16
    ensures IsPrintableAscii(c)
  {
    if d < 10 then ('0' as int + d) as char else ('a' as int + d - 10) as char
  }

  predicate IsHexDigit(c: char) {
    ('0' <= c <= '9') || ('a' <= c <= 'f') || ('A' <= c <= 'F')
  }

  function HexValue(c: char): (d: nat)
    requires IsHexDigit(c)
    ensures d < 16
  {
    if '0' <= c <= '9' then c as int - '0' as int
    else if 'a' <= c <= 'f' then c as int - 'a' as int + 10
    else c as int - 'A' as int + 10
  }

  /** Four lower-case hex digits, most significant first (`'%04x' % v`). */
  function Hex4(v: nat): (r: string)
    requires v < 0x1_0000
    ensures |r| == 4
  {
    var q1 := v / 16;
    var q2 := q1 / 16;
    [HexDigit(q2 / 16), HexDigit(q2 % 16), HexDigit(q1 % 16), HexDigit(v % 16)]
  }

  predicate IsHex4(t: string) {
    |t| == 4 && IsHexDigit(t[0]) && IsHexDigit(t[1]) && IsHexDigit(t[2]) && IsHexDigit(t[3])
  }

  function Hex4Value(t: string): (v: nat)
    requires IsHex4(t)
    ensures v < 0x1_0000
  {
    ((HexValue(t[0]) * 16 + HexValue(t[1])) * 16 + HexValue(t[2])) * 16 + HexValue(t[3])
  }

  lemma HexDigitRoundTrip(d: nat)
    requires d < 16
    ensures IsHexDigit(HexDigit(d)) && HexValue(HexDigit(d)) == d
  {
  }

  lemma Hex4RoundTrip(v: nat)
    requires v < 0x1_0000
    ensures IsHex4(Hex4(v)) && Hex4Value(Hex4(v)) == v
  {
    var q1 := v / 16;
    var q2 := q1 / 16;
    HexDigitRoundTrip(q2 / 16);
    HexDigitRoundTrip(q2 % 16);
    HexDigitRoundTrip(q1 % 16);
    HexDigitRoundTrip(v % 16);
  }

  function UEscape(v: nat): (r: string)
    requires v < 0x1_0000
    ensures |r| == 6
  {
    "\\u" + Hex4(v)
  }

  /** The escape `json.dumps` writes for one character. */
  function EscapeChar(c: char): (r: string)
    ensures |r| > 0
    ensures forall k :: 0 <= k < |r| ==> IsPrintableAscii(r[k])
  {
    if c == '"' then "\\\""
    else if c == '\\' then "\\\\"
    else if c == '\n' then "\\n"
    else if c == '\r' then "\\r"
    else if c == '\t' then "\\t"
    else if c == '\U{8}' then "\\b"
    else if c == '\U{c}' then "\\f"
    else if IsPrintableAscii(c) then [c]
    else if c as int < 0x1_0000 then UEscape(c as int)
    else
      var n := c as int - 0x1_0000;
      UEscape(0xD800 + n / 1024) + UEscape(0xDC00 + n % 1024)
  }

  /** A character `json.dumps` copies as it is. */
  predicate IsPlain(c: char) {
    IsPrintableAscii(c) && c != '"' && c != '\\'
  }

  /** The body of the string literal `json.dumps` writes for `s`. */
  function Escape(s: string): (r: string)
    ensures forall k :: 0 <= k < |r| ==> IsPrintableAscii(r[k])
    ensures (forall k :: 0 <= k < |s| ==> IsPlain(s[k])) ==> r == s
  {
    if s == [] then [] else EscapeChar(s[0]) + Escape(s[1..])
  }

  /** `json.dumps` of a string: the escaped text between double quotes. */
  function Quote(s: string): string {
    "\"" + Escape(s) + "\""
  }

  function Cons(c: char, rest: Option<string>): Option<string> {
    match rest
    case Some(t) => Some([c] + t)
    case None => None
  }

  /** The character a two-character escape `\e` stands for. */
  function ShortEscape(e: char): Option<char> {
    if e == '"' then Some('"')
    else if e == '\\' then Some('\\')
    else if e == '/' then Some('/')
    else if e == 'n' then Some('\n')
    else if e == 'r' then Some('\r')
    else if e == 't' then Some('\t')
    else if e == 'b' then Some('\U{8}')
    else if e == 'f' then Some('\U{c}')
    else None
  }

  /** The character a high/low surrogate pair encodes. */
  function Astral(hi: nat, lo: nat): (c: char)
    requires 0xD800 <= hi < 0xDC00 && 0xDC00 <= lo < 0xE000
    ensures c as int == 0x1_0000 + (hi - 0xD800) * 1024 + (lo - 0xDC00)
  {
    (0x1_0000 + (hi - 0xD800) * 1024 + (lo - 0xDC00)) as char
  }

  /** The character a `\uXXXX` escape at the head of `t` stands for, and the
      length of the escape: six, or twelve for a surrogate pair. A lone or
      malformed surrogate escape gives None. */
  function UnicodeEscape(t: string): (r: Option<(char, nat)>)
    ensures r.Some? ==> (r.value.1 == 6 || r.value.1 == 12) && r.value.1 <= |t|
  {
    if |t| < 6 || !IsHex4(t[2..6]) then None
    else
      var v := Hex4Value(t[2..6]);
      if 0xD800 <= v < 0xDC00 then
        if |t| >= 12 && t[6] == '\\' && t[7] == 'u' && IsHex4(t[8..12])
           && 0xDC00 <= Hex4Value(t[8..12]) < 0xE000
        then
          Some((Astral(v, Hex4Value(t[8..12])), 12))
        else None
      else if 0xDC00 <= v < 0xE000 then None
      else Some((v as char, 6))
  }

  /** Reads the body of a JSON string literal back, as `json.loads` does for
      the escapes above (a lone surrogate escape, which has no character of
      its own here, reads as None). */
  function Unescape(t: string): Option<string>
    decreases |t|
  {
    if t == [] then Some([])
    else if t[0] != '\\' then Cons(t[0], Unescape(t[1..]))
    else if |t| < 2 then None
    else if ShortEscape(t[1]).Some? then Cons(ShortEscape(t[1]).value, Unescape(t[2..]))
    else if t[1] != 'u' then None
    else match UnicodeEscape(t)
      case None => None
      case Some(e) => Cons(e.0, Unescape(t[e.1..]))
  }

  /** Decoding one character's escape consumes exactly that escape. */
  lemma UnescapeStep(c: char, rest: string)
    ensures Unescape(EscapeChar(c) + rest) == Cons(c, Unescape(rest))
  {
    if c == '"' || c == '\\' || c == '\n' || c == '\r' || c == '\t' || c == '\U{8}' || c == '\U{c}' {
      UnescapeShort(c, rest);
    } else if IsPrintableAscii(c) {
      assert (EscapeChar(c) + rest)[1..] == rest;
    } else if c as int < 0x1_0000 {
      UnescapeBmp(c, rest);
    } else {
      UnescapeAstral(c, rest);
    }
  }

  lemma UnescapeShort(c: char, rest: string)
    requires c == '"' || c == '\\' || c == '\n' || c == '\r' || c == '\t' || c == '\U{8}' || c == '\U{c}'
    ensures Unescape(EscapeChar(c) + rest) == Cons(c, Unescape(rest))
  {
    var t := EscapeChar(c) + rest;
    assert t[0] == '\\' && ShortEscape(t[1]) == Some(c);
    assert t[2..] == rest;
  }

  lemma UnescapeBmp(c: char, rest: string)
    requires !IsPrintableAscii(c) && c != '\n' && c != '\r' && c != '\t' && c != '\U{8}' && c != '\U{c}'
    requires c as int < 0x1_0000
    ensures Unescape(EscapeChar(c) + rest) == Cons(c, Unescape(rest))
  {
    var t := EscapeChar(c) + rest;
    Hex4RoundTrip(c as int);
    assert t[0] == '\\' && t[1] == 'u' && ShortEscape(t[1]) == None;
    assert t[2..6] == Hex4(c as int);
    assert UnicodeEscape(t) == Some((c, 6));
    assert t[6..] == rest;
  }

  /** The UTF-16 surrogate pair of a code point beyond the Basic Multilingual
      Plane, and back. */
  lemma SurrogateSplit(n: nat)
    requires n < 0x10_0000
    ensures 0xD800 <= 0xD800 + n / 1024 < 0xDC00
    ensures 0xDC00 <= 0xDC00 + n % 1024 < 0xE000
    ensures (n / 1024) * 1024 + n % 1024 == n
  {
  }

  /** `json.dumps` writes a character beyond the Basic Multilingual Plane as
      the escapes of its surrogate pair. */
  lemma EscapeAstral(c: char)
    requires c as int >= 0x1_0000
    ensures var n := c as int - 0x1_0000;
      EscapeChar(c) == UEscape(0xD800 + n / 1024) + UEscape(0xDC00 + n % 1024)
  {
  }

  /** The surrogate pair of such a character encodes it back. */
  lemma AstralSplit(c: char)
    requires c as int >= 0x1_0000
    ensures var n := c as int - 0x1_0000;
      && 0xD800 <= 0xD800 + n / 1024 < 0xDC00 && 0xDC00 <= 0xDC00 + n % 1024 < 0xE000
      && Astral(0xD800 + n / 1024, 0xDC00 + n % 1024) == c
  {
    var n := c as int - 0x1_0000;
    SurrogateSplit(n);
    var hi, lo := 0xD800 + n / 1024, 0xDC00 + n % 1024;
    assert hi - 0xD800 == n / 1024 && lo - 0xDC00 == n % 1024;
    assert Astral(hi, lo) as int == c as int;
  }

  lemma UnescapeAstral(c: char, rest: string)
    requires c as int >= 0x1_0000
    ensures Unescape(EscapeChar(c) + rest) == Cons(c, Unescape(rest))
  {
    var n := c as int - 0x1_0000;
    EscapeAstral(c);
    AstralSplit(c);
    UnescapePair(0xD800 + n / 1024, 0xDC00 + n % 1024, rest);
  }

  /** A high/low surrogate escape pair reads as the one character it encodes. */
  lemma UnescapePair(hi: nat, lo: nat, rest: string)
    requires 0xD800 <= hi < 0xDC00 && 0xDC00 <= lo < 0xE000
    ensures Unescape(UEscape(hi) + UEscape(lo) + rest) == Cons(Astral(hi, lo), Unescape(rest))
  {
    var t := UEscape(hi) + UEscape(lo) + rest;
    Hex4RoundTrip(hi);
    Hex4RoundTrip(lo);
    assert t[0] == '\\' && t[1] == 'u' && ShortEscape(t[1]) == None;
    assert t[6] == '\\' && t[7] == 'u';
    assert t[2..6] == Hex4(hi);
    assert t[8..12] == Hex4(lo);
    assert UnicodeEscape(t).Some? && UnicodeEscape(t).value.1 == 12;
    assert t[12..] == rest;
  }

  /** The escaping `json.dumps` applies is undone by `json.loads`. */
  lemma {:induction false} EscapeRoundTrip(s: string)
    ensures Unescape(Escape(s)) == Some(s)
  {
    if s != [] {
      UnescapeStep(s[0], Escape(s[1..]));
      EscapeRoundTrip(s[1..]);
      assert s == [s[0]] + s[1..];
    }
  }
}

/** The part of Python's `json.dumps` the training-record builder uses: strings,
    `null`, objects and arrays, written with the default separators `", "` and `": "`
    and the default `ensure_ascii=True` escaping. Beside the encoder sits a reader
    of JSON string literals, used to state what the encoding preserves. */
module Json {
  import opened Wrappers
  import Text

  /** The value of a hexadecimal digit, in either case. */
  function HexValue(c: char): (r: Option<nat>)
    ensures r.Some? ==> r.value < 16
  {
    if '0' <= c <= '9' then Some(c as int - '0' as int)
    else if 'a' <= c <= 'f' then Some(c as int - 'a' as int + 10)
    else if 'A' <= c <= 'F' then Some(c as int - 'A' as int + 10)
    else None
  }

  /** A digit as `'{0:04x}'` writes it: a decimal digit or a lowercase letter. */
  predicate LowerHex(c: char)
  {
    '0' <= c <= '9' || 'a' <= c <= 'f'
  }

  /** The lower-case hexadecimal digit for `d`. */
  function HexDigit(d: nat): (c: char)
    requires d < 16
    ensures LowerHex(c)
    ensures ' ' <= c <= '~'
    ensures HexValue(c) == Some(d)
  {
    if d < 10 then ('0' as int + d) as char else ('a' as int + d - 10) as char
  }

  /** The number four hexadecimal digits spell. */
  function ParseHex4(s: string): (r: Option<nat>)
    requires |s| == 4
    ensures r.Some? ==> r.value < 0x10000
  {
    match (HexValue(s[0]), HexValue(s[1]), HexValue(s[2]), HexValue(s[3]))
    case (Some(a), Some(b), Some(c), Some(d)) => Some(((a * 16 + b) * 16 + c) * 16 + d)
    case _ => None
  }

  /** Python's `'{0:04x}'.format(n)`: four lower-case hexadecimal digits. */
  function Hex4(n: nat): (r: string)
    requires n < 0x10000
    ensures |r| == 4 && Text.Printable(r)
    ensures ParseHex4(r) == Some(n)
  {
    var q := n / 16;
    var q2 := q / 16;
    [HexDigit(q2 / 16), HexDigit(q2 % 16), HexDigit(q % 16), HexDigit(n % 16)]
  }

  /** What `json.dumps` writes for one character inside a string: a two-character
      escape for the quote, the backslash and five control characters, the character
      itself if it is other printable ASCII, `\uXXXX` for any other character of the
      Basic Multilingual Plane, and a UTF-16 surrogate pair of `\uXXXX` escapes for a
      character beyond it. */
  function EscapeChar(c: char): (r: string)
    ensures Text.Printable(r)
  {
    if c == '"' then "\\\""
    else if c == '\\' then "\\\\"
    else if c == '\n' then "\\n"
    else if c == '\r' then "\\r"
    else if c == '\t' then "\\t"
    else if c as int == 0x08 then "\\b"
    else if c as int == 0x0C then "\\f"
    else if ' ' <= c <= '~' then [c]
    else if c as int < 0x10000 then "\\u" + Hex4(c as int)
    else
      var (hi, lo) := SurrogatePair(c as int);
      "\\u" + Hex4(hi) + "\\u" + Hex4(lo)
  }

  /** The UTF-16 surrogate pair for a character beyond the Basic Multilingual Plane:
      with n = code - 0x10000, `0xd800 | ((n >> 10) & 0x3ff)` and `0xdc00 | (n & 0x3ff)`
      (the low ten bits of each constant are zero, so `|` is `+`). The two halves fall
      in the high and low surrogate ranges and recombine to the code point. */
  function SurrogatePair(code: int): (r: (nat, nat))
    requires 0x10000 <= code < 0x110000
    ensures 0xD800 <= r.0 < 0xDC00 && 0xDC00 <= r.1 < 0xE000
    ensures 0x10000 + (r.0 - 0xD800) * 0x400 + (r.1 - 0xDC00) == code
  {
    var n := code - 0x10000;
    (0xD800 + n / 0x400 % 0x400, 0xDC00 + n % 0x400)
  }

  /** The escaped body of a string, character by character. */
  function Escape(s: string): string
  {
    if s == [] then "" else EscapeChar(s[0]) + Escape(s[1..])
  }

  /** `json.dumps(s)` for a string. */
  function Quote(s: string): string
  {
    "\"" + Escape(s) + "\""
  }

  /** `json.dumps(v)` for a `str | None`. */
  function Nullable(v: Option<string>): string
  {
    match v
    case None => "null"
    case Some(s) => Quote(s)
  }

  /** A key as `json.dumps` writes it, for a key that needs no escaping (printable ASCII
      without a double quote or a backslash, as every key the scripts use is). */
  function Key(key: string): string
  {
    "\"" + key + "\""
  }

  /** A key that `json.dumps` writes as it is, between double quotes. */
  predicate PlainKey(key: string)
  {
    Text.Printable(key) && '"' !in key && '\\' !in key
  }

  /** For a plain key, `Key` is the general string encoding. */
  lemma KeyIsQuote(key: string)
    requires PlainKey(key)
    ensures Key(key) == Quote(key)
  {
    EscapePlain(key);
  }

  /** One `"key": value` entry of an object, the value already encoded. */
  function Member(key: string, value: string): string
  {
    Key(key) + ": " + value
  }

  /** An object, its entries already encoded, in insertion order. */
  function Object(members: seq<string>): string
  {
    "{" + Text.JoinWith(", ", members) + "}"
  }

  /** An array, its items already encoded. */
  function Array(items: seq<string>): string
  {
    "[" + Text.JoinWith(", ", items) + "]"
  }

  /** An object of three entries, spelled out as the text a reader meets from left to right. */
  lemma ObjectLayout3(k1: string, v1: string, k2: string, v2: string, k3: string, v3: string)
    ensures Object([Member(k1, v1), Member(k2, v2), Member(k3, v3)]) ==
      ("{" + Key(k1) + ": ") + (v1 + ((", " + Key(k2) + ": ") + (v2 + ((", " + Key(k3) + ": ") + (v3 + "}")))))
  {
    Join3(Member(k1, v1), Member(k2, v2), Member(k3, v3));
    var q1, q2, q3 := Key(k1), Key(k2), Key(k3);
    assert "{" + ((q1 + ": " + v1) + ", " + ((q2 + ": " + v2) + ", " + (q3 + ": " + v3))) + "}" ==
      ("{" + q1 + ": ") + (v1 + ((", " + q2 + ": ") + (v2 + ((", " + q3 + ": ") + (v3 + "}")))));
  }

  lemma Join3(m1: string, m2: string, m3: string)
    ensures Text.JoinWith(", ", [m1, m2, m3]) == m1 + ", " + (m2 + ", " + m3)
  {
    assert [m1, m2, m3][1..] == [m2, m3];
    assert [m2, m3][1..] == [m3];
    assert Text.JoinWith(", ", [m2, m3]) == m2 + ", " + m3;
  }

  /** An object of two entries, spelled out. */
  lemma ObjectLayout2(k1: string, v1: string, k2: string, v2: string)
    ensures Object([Member(k1, v1), Member(k2, v2)]) ==
      ("{" + Key(k1) + ": ") + (v1 + ((", " + Key(k2) + ": ") + (v2 + "}")))
  {
    var m1, m2 := Member(k1, v1), Member(k2, v2);
    assert [m1, m2][1..] == [m2];
    assert Text.JoinWith(", ", [m1, m2]) == m1 + ", " + m2;
    var q1, q2 := Key(k1), Key(k2);
    assert "{" + ((q1 + ": " + v1) + ", " + (q2 + ": " + v2)) + "}" ==
      ("{" + q1 + ": ") + (v1 + ((", " + q2 + ": ") + (v2 + "}")));
  }

  /** An object of one entry, spelled out. */
  lemma ObjectLayout1(k: string, v: string)
    ensures Object([Member(k, v)]) == ("{" + Key(k) + ": ") + (v + "}")
  {
    assert Text.JoinWith(", ", [Member(k, v)]) == Member(k, v);
    var q := Key(k);
    assert "{" + (q + ": " + v) + "}" == ("{" + q + ": ") + (v + "}");
  }

  /** An object whose keys and values are printable ASCII is printable ASCII. */
  lemma ObjectPrintable3(k1: string, v1: string, k2: string, v2: string, k3: string, v3: string)
    requires Text.Printable(k1) && Text.Printable(k2) && Text.Printable(k3)
    requires Text.Printable(v1) && Text.Printable(v2) && Text.Printable(v3)
    ensures Text.Printable(Object([Member(k1, v1), Member(k2, v2), Member(k3, v3)]))
  {
    MemberPrintable(k1, v1);
    MemberPrintable(k2, v2);
    MemberPrintable(k3, v3);
    ObjectPrintable([Member(k1, v1), Member(k2, v2), Member(k3, v3)]);
  }

  lemma ObjectPrintable2(k1: string, v1: string, k2: string, v2: string)
    requires Text.Printable(k1) && Text.Printable(k2)
    requires Text.Printable(v1) && Text.Printable(v2)
    ensures Text.Printable(Object([Member(k1, v1), Member(k2, v2)]))
  {
    MemberPrintable(k1, v1);
    MemberPrintable(k2, v2);
    ObjectPrintable([Member(k1, v1), Member(k2, v2)]);
  }

  lemma ObjectPrintable1(k: string, v: string)
    requires Text.Printable(k) && Text.Printable(v)
    ensures Text.Printable(Object([Member(k, v)]))
  {
    MemberPrintable(k, v);
    ObjectPrintable([Member(k, v)]);
  }

  // ---------------------------------------------------------------------------
  // Reading string literals back

  /** Reads one escape sequence at the head of `s`: the character it stands for and
      how many characters it spans. A high surrogate must be followed by a low one. */
  function ParseEscape(s: string): (r: Option<(char, nat)>)
    requires |s| > 0 && s[0] == '\\'
    ensures r.Some? ==> 2 <= r.value.1 <= |s|
  {
    if |s| < 2 then None
    else if s[1] == '"' then Some(('"', 2))
    else if s[1] == '\\' then Some(('\\', 2))
    else if s[1] == '/' then Some(('/', 2))
    else if s[1] == 'b' then Some((0x08 as char, 2))
    else if s[1] == 'f' then Some((0x0C as char, 2))
    else if s[1] == 'n' then Some(('\n', 2))
    else if s[1] == 'r' then Some(('\r', 2))
    else if s[1] == 't' then Some(('\t', 2))
    else if s[1] == 'u' && |s| >= 6 then
      match ParseHex4(s[2..6])
      case None => None
      case Some(hi) =>
        if hi < 0xD800 || 0xE000 <= hi then Some((hi as char, 6))
        else if 0xDC00 <= hi then None
        else if |s| >= 12 && s[6] == '\\' && s[7] == 'u' then
          match ParseHex4(s[8..12])
          case None => None
          case Some(lo) =>
            if 0xDC00 <= lo < 0xE000 then Some(((0x10000 + (hi - 0xD800) * 0x400 + (lo - 0xDC00)) as char, 12))
            else None
        else None
    else None
  }

  /** Puts `c` in front of the string a successful read returned. */
  function Prepend(c: char, r: Option<(string, string)>): Option<(string, string)>
  {
    match r
    case None => None
    case Some((t, rest)) => Some(([c] + t, rest))
  }

  /** Reads the body of a string literal up to its closing quote: the string it
      denotes and the text after that quote. */
  function ParseBody(s: string): (r: Option<(string, string)>)
    ensures r.Some? ==> |r.value.1| < |s|
    decreases |s|
  {
    if s == [] then None
    else if s[0] == '"' then Some(("", s[1..]))
    else if s[0] == '\\' then
      match ParseEscape(s)
      case None => None
      case Some((c, k)) => Prepend(c, ParseBody(s[k..]))
    else if s[0] < ' ' then None
    else Prepend(s[0], ParseBody(s[1..]))
  }

  /** Reads a string literal at the head of `s`. */
  function ParseString(s: string): (r: Option<(string, string)>)
    ensures r.Some? ==> |r.value.1| < |s|
  {
    if s != [] && s[0] == '"' then ParseBody(s[1..]) else None
  }

  /** Reads a string literal or `null` at the head of `s`. */
  function ParseNullable(s: string): (r: Option<(Option<string>, string)>)
    ensures r.Some? ==> |r.value.1| < |s|
  {
    if Text.StartsWith(s, "null") then Some((None, s[4..]))
    else match ParseString(s)
      case None => None
      case Some((x, rest)) => Some((Some(x), rest))
  }

  // ---------------------------------------------------------------------------
  // What the encoding guarantees

  /** A character's escape is read back as that character, whatever follows it. */
  lemma ParseEscapeChar(c: char, t: string)
    ensures ParseBody(EscapeChar(c) + t) == Prepend(c, ParseBody(t))
  {
    if c == '"' || c == '\\' || c == '\n' || c == '\r' || c == '\t' || c as int == 0x08 || c as int == 0x0C {
      ParseShortEscape(c, t);
    } else if ' ' <= c <= '~' {
      var s := EscapeChar(c) + t;
      assert s[0] == c && s[1..] == t;
    } else if c as int < 0x10000 {
      ParseUnicodeEscape(c, t);
    } else {
      ParseSurrogatePair(c, t);
    }
  }

  lemma ParseShortEscape(c: char, t: string)
    requires c == '"' || c == '\\' || c == '\n' || c == '\r' || c == '\t' || c as int == 0x08 || c as int == 0x0C
    ensures ParseBody(EscapeChar(c) + t) == Prepend(c, ParseBody(t))
  {
    var e := EscapeChar(c);
    var s := e + t;
    assert |e| == 2 && e[0] == '\\';
    assert s[0] == '\\' && s[1] == e[1] && s[2..] == t;
    assert ParseEscape(s) == Some((c, 2));
  }

  lemma ParseUnicodeEscape(c: char, t: string)
    requires !(' ' <= c <= '~') && c as int < 0x10000
    requires c != '\n' && c != '\r' && c != '\t' && c as int != 0x08 && c as int != 0x0C
    ensures ParseBody(EscapeChar(c) + t) == Prepend(c, ParseBody(t))
  {
    var h := Hex4(c as int);
    var s := EscapeChar(c) + t;
    assert EscapeChar(c) == "\\u" + h;
    assert s[0] == '\\' && s[1] == 'u' && s[2..6] == h && s[6..] == t;
    assert ParseEscape(s) == Some((c, 6));
  }

  lemma ParseSurrogatePair(c: char, t: string)
    requires c as int >= 0x10000
    ensures ParseBody(EscapeChar(c) + t) == Prepend(c, ParseBody(t))
  {
    var (hi, lo) := SurrogatePair(c as int);
    assert EscapeChar(c) == "\\u" + Hex4(hi) + "\\u" + Hex4(lo);
    ParseEscapePair(hi, lo, t);
  }

  lemma ParseEscapePair(hi: nat, lo: nat, t: string)
    requires 0xD800 <= hi < 0xDC00 && 0xDC00 <= lo < 0xE000
    ensures var s := "\\u" + Hex4(hi) + "\\u" + Hex4(lo) + t;
      ParseBody(s) == Prepend((0x10000 + (hi - 0xD800) * 0x400 + (lo - 0xDC00)) as char, ParseBody(t))
  {
    var s := "\\u" + Hex4(hi) + "\\u" + Hex4(lo) + t;
    assert s[0] == '\\' && s[1] == 'u' && s[2..6] == Hex4(hi);
    assert s[6] == '\\' && s[7] == 'u' && s[8..12] == Hex4(lo) && s[12..] == t;
    assert ParseEscape(s) == Some(((0x10000 + (hi - 0xD800) * 0x400 + (lo - 0xDC00)) as char, 12));
  }

  /** Round trip of string escaping: the escaped body of `x`, closed by a quote, reads back as `x`
      and leaves whatever followed untouched. */
  lemma {:induction false} ParseBodyEscape(x: string, rest: string)
    ensures ParseBody(Escape(x) + "\"" + rest) == Some((x, rest))
    decreases |x|
  {
    if x == [] {
      assert Escape(x) + "\"" + rest == "\"" + rest;
    } else {
      var tail := Escape(x[1..]) + "\"" + rest;
      assert Escape(x) + "\"" + rest == EscapeChar(x[0]) + tail;
      ParseEscapeChar(x[0], tail);
      ParseBodyEscape(x[1..], rest);
      assert Prepend(x[0], Some((x[1..], rest))) == Some((x, rest)) by {
        assert [x[0]] + x[1..] == x;
      }
    }
  }

  /** Round trip of `json.dumps` on a string. */
  lemma ParseStringQuote(x: string, rest: string)
    ensures ParseString(Quote(x) + rest) == Some((x, rest))
  {
    var s := Quote(x) + rest;
    assert s[1..] == Escape(x) + "\"" + rest;
    ParseBodyEscape(x, rest);
  }

  /** Round trip of `json.dumps` on a `str | None`. */
  lemma ParseNullableRoundTrip(v: Option<string>, rest: string)
    ensures ParseNullable(Nullable(v) + rest) == Some((v, rest))
  {
    var s := Nullable(v) + rest;
    match v
    case None =>
      assert s[..4] == "null" && s[4..] == rest;
    case Some(x) =>
      assert !Text.StartsWith(s, "null") by { assert s[0] == '"'; }
      ParseStringQuote(x, rest);
  }

  /** The escaped form of any string is printable ASCII: `ensure_ascii` leaves no
      line break and no non-ASCII character in the output. */
  lemma {:induction false} EscapePrintable(s: string)
    ensures Text.Printable(Escape(s))
    decreases |s|
  {
    if s != [] {
      EscapePrintable(s[1..]);
    }
  }

  /** Printable ASCII without a quote or a backslash is written unchanged. */
  lemma {:induction false} EscapePlain(s: string)
    requires Text.Printable(s) && '"' !in s && '\\' !in s
    ensures Escape(s) == s
    decreases |s|
  {
    if s != [] {
      EscapePlain(s[1..]);
      assert [s[0]] + s[1..] == s;
    }
  }

  lemma QuotePrintable(s: string)
    ensures Text.Printable(Quote(s))
  {
    EscapePrintable(s);
  }

  lemma NullablePrintable(v: Option<string>)
    ensures Text.Printable(Nullable(v))
  {
    if v.Some? { QuotePrintable(v.value); }
  }

  lemma MemberPrintable(key: string, value: string)
    requires Text.Printable(key) && Text.Printable(value)
    ensures Text.Printable(Member(key, value))
  {
  }

  lemma ObjectPrintable(members: seq<string>)
    requires forall i :: 0 <= i < |members| ==> Text.Printable(members[i])
    ensures Text.Printable(Object(members))
  {
    Text.JoinPrintable(", ", members);
  }

  lemma ArrayPrintable(items: seq<string>)
    requires forall i :: 0 <= i < |items| ==> Text.Printable(items[i])
    ensures Text.Printable(Array(items))
  {
    Text.JoinPrintable(", ", items);
  }
}

/**
 The JSON text helpers of lib/Lightnet/Utils/SimpleJson.hpp as functions of a text and a
 position. A character stands for a C `char`; the text runs up to `end`, and a read at `end`
 itself sees a NUL.
 */
module Json {
  datatype Option<+T> = None | Some(value: T)

  predicate IsWs(c: char) {
    c == ' ' || c == '\t' || c == '\n' || c == '\r'
  }

  /** The C string that starts `s`. */
  function CStr(s: string): string {
    if s == [] || s[0] == '\0' then [] else [s[0]] + CStr(s[1..])
  }

  /** Character `i` of `s` stands in `t` where it does when `s` stands at `p`. */
  ghost predicate CharAt(t: string, p: nat, s: string, i: nat) {
    p + i < |t| && i < |s| && t[p + i] == s[i]
  }

  /** `s` stands in `t` at `p`. */
  ghost predicate HasAt(t: string, p: nat, s: string) {
    p + |s| <= |t| && forall i: nat {:trigger CharAt(t, p, s, i)} :: i < |s| ==> CharAt(t, p, s, i)
  }

  lemma HasAtParts(t: string, p: nat, a: string, b: string)
    requires HasAt(t, p, a + b)
    ensures HasAt(t, p, a) && HasAt(t, p + |a|, b)
  {
    forall i: nat | i < |a| ensures CharAt(t, p, a, i) {
      assert CharAt(t, p, a + b, i);
    }
    var q := p + |a|;
    forall i: nat | i < |b| ensures CharAt(t, q, b, i) {
      assert CharAt(t, p, a + b, |a| + i);
    }
  }

  /** The middle part of a text stands where it does. */
  lemma PartHasAt(a: string, b: string, c: string)
    ensures HasAt(a + b + c, |a|, b)
  {
    forall i: nat | i < |b| ensures CharAt(a + b + c, |a|, b, i) {
    }
  }

  // ---------------------------------------------------------------- cursors

  function SkipWs(t: string, p: nat): (q: nat)
    requires p <= |t|
    ensures p <= q <= |t|
    ensures q < |t| ==> !IsWs(t[q])
    decreases |t| - p
  {
    if p < |t| && IsWs(t[p]) then SkipWs(t, p + 1) else p
  }

  function QuoteEnd(t: string, p: nat): (q: nat)
    requires p <= |t|
    ensures p <= q <= |t|
    ensures q < |t| ==> t[q] == '"'
    decreases |t| - p
  {
    if p == |t| || t[p] == '"' then p
    else QuoteEnd(t, if t[p] == '\\' && p + 1 < |t| then p + 2 else p + 1)
  }

  function SkipQuoted(t: string, p: nat): (q: nat)
    requires p <= |t|
    ensures p <= q <= |t|
    ensures p < |t| && t[p] == '"' ==> p < q
  {
    if p == |t| || t[p] != '"' then p
    else
      var q := QuoteEnd(t, p + 1);
      if q < |t| then q + 1 else q
  }

  // ---------------------------------------------------------------- finding a key

  /** The text at `p` is the quoted key, verbatim. */
  predicate KeyAt(t: string, key: string, p: nat) {
    p + 1 + |key| < |t| && t[p + 1..p + 1 + |key|] == key && t[p + 1 + |key|] == '"'
  }

  /** Where the value of the key at `p` starts, if a colon follows the key. */
  function ValueAt(t: string, key: string, p: nat): (v: Option<nat>)
    ensures v.Some? ==> p + |key| + 3 <= v.value <= |t|
  {
    if !KeyAt(t, key, p) then None
    else
      var q := SkipWs(t, p + |key| + 2);
      if q < |t| && t[q] == ':' then Some(SkipWs(t, q + 1)) else None
  }

  function FindFrom(t: string, key: string, p: nat, depth: int): (v: Option<nat>)
    requires p <= |t|
    ensures v.Some? ==> v.value <= |t|
    decreases |t| - p
  {
    if p == |t| then None
    else if t[p] == '{' || t[p] == '[' then FindFrom(t, key, p + 1, depth + 1)
    else if t[p] == '}' || t[p] == ']' then FindFrom(t, key, p + 1, depth - 1)
    else if depth != 0 || t[p] != '"' then FindFrom(t, key, p + 1, depth)
    else
      var v := ValueAt(t, key, p);
      if v.Some? then v else FindFrom(t, key, SkipQuoted(t, p), depth)
  }

  /** Where the search starts: inside the object, if the text is one. */
  function BodyStart(t: string): (p: nat)
    ensures p <= |t|
  {
    var p := SkipWs(t, 0);
    if p < |t| && t[p] == '{' then p + 1 else p
  }

  function FindKey(t: string, key: string): (v: Option<nat>)
    ensures v.Some? ==> v.value <= |t|
  {
    FindFrom(t, key, BodyStart(t), 0)
  }

  // ---------------------------------------------------------------- strings

  function HexVal(c: char): (v: int)
    ensures -1 <= v < 16
  {
    if '0' <= c <= '9' then c as int - '0' as int
    else if 'a' <= c <= 'f' then c as int - 'a' as int + 10
    else if 'A' <= c <= 'F' then c as int - 'A' as int + 10
    else -1
  }

  /** The character a two-character escape stands for. */
  function Unescape(letter: char): Option<char> {
    match letter
    case '"' => Some('"')
    case '\\' => Some('\\')
    case '/' => Some('/')
    case 'b' => Some('\U{08}')
    case 'f' => Some('\U{0C}')
    case 'n' => Some('\n')
    case 'r' => Some('\r')
    case 't' => Some('\t')
    case _ => None
  }

  /** The character an escape stands for, and where the escape ends; `p` is past the backslash. */
  function DecodeEscape(t: string, p: nat): (r: Option<(char, nat)>)
    requires p <= |t|
    ensures r.Some? ==> p < r.value.1 <= |t|
  {
    if p == |t| then None
    else if Unescape(t[p]).Some? then Some((Unescape(t[p]).value, p + 1))
    else if t[p] != 'u' || p + 5 > |t| then None
    else
      var h0, h1, h2, h3 := HexVal(t[p + 1]), HexVal(t[p + 2]), HexVal(t[p + 3]), HexVal(t[p + 4]);
      if h0 < 0 || h1 < 0 || h2 < 0 || h3 < 0 then None
      else
        var code := ((h0 * 16 + h1) * 16 + h2) * 16 + h3;
        if code > 0x7F then None else Some((code as char, p + 5))
  }

  /** The decoded text from `p` to the closing quote, and the position of that quote. */
  function DecodeBody(t: string, p: nat): (r: Option<(string, nat)>)
    requires p <= |t|
    ensures r.Some? ==> p <= r.value.1 < |t| && t[r.value.1] == '"'
    decreases |t| - p
  {
    if p == |t| then None
    else if t[p] == '"' then Some(([], p))
    else if t[p] == '\\' then
      match DecodeEscape(t, p + 1)
      case None => None
      case Some((c, q)) => Prepend(c, DecodeBody(t, q))
    else Prepend(t[p], DecodeBody(t, p + 1))
  }

  function Prepend(c: char, r: Option<(string, nat)>): Option<(string, nat)> {
    match r
    case None => None
    case Some((s, q)) => Some(([c] + s, q))
  }

  /** jsonParseString: the whole string, or nothing when it does not fit `outLen` with its NUL. */
  function ParseString(t: string, p: nat, outLen: nat): Option<string>
    requires p <= |t|
  {
    if p == |t| || t[p] != '"' then None
    else match DecodeBody(t, p + 1)
      case None => None
      case Some((s, _)) => if |s| < outLen then Some(s) else None
  }

  /** jsonReadString: cut to what fits, with the position past the closing quote. */
  function ReadString(t: string, p: nat, outLen: nat): (r: Option<(string, nat)>)
    requires p <= |t| && 0 < outLen
    ensures r.Some? ==> p < r.value.1 <= |t|
  {
    var q := SkipWs(t, p);
    if q == |t| || t[q] != '"' then None
    else match DecodeBody(t, q + 1)
      case None => None
      case Some((s, e)) => Some((if |s| < outLen then s else s[..outLen - 1], e + 1))
  }

  // ---------------------------------------------------------------- skipping a value

  /**
   How a skip ends. `Spinning` is the loop of jsonSkipArray that no longer moves: it meets a
   closing brace where it wants an element, and skips nothing, for ever.
   */
  datatype Skip = Skipped(ok: bool, p: nat) | Spinning

  function ScalarEnd(t: string, p: nat): (q: nat)
    requires p <= |t|
    ensures p <= q <= |t|
    decreases |t| - p
  {
    if p == |t| || t[p] == ',' || t[p] == '}' || t[p] == ']' || IsWs(t[p]) then p
    else ScalarEnd(t, p + 1)
  }

  function SkipValue(t: string, p: nat): (s: Skip)
    requires p <= |t|
    ensures s.Skipped? ==> p <= s.p <= |t|
    decreases |t| - p, 0
  {
    var q := SkipWs(t, p);
    if q == |t| then Skipped(false, q)
    else if t[q] == '"' then Skipped(true, SkipQuoted(t, q))
    else if t[q] == '{' then SkipObject(t, q + 1)
    else if t[q] == '[' then SkipArray(t, q + 1)
    else Skipped(true, ScalarEnd(t, q))
  }

  function SkipObject(t: string, p: nat): (s: Skip)
    requires p <= |t|
    ensures s.Skipped? ==> p <= s.p <= |t|
    decreases |t| - p, 1
  {
    var q := SkipWs(t, p);
    if q == |t| then Skipped(false, q)
    else if t[q] == '}' then Skipped(true, q + 1)
    else if t[q] == ',' then SkipObject(t, q + 1)
    else if t[q] == '"' then SkipObject(t, SkipQuoted(t, q))
    else if t[q] != ':' then Skipped(false, q)
    else
      var v := SkipValue(t, q + 1);
      if v.Skipped? && v.ok then SkipObject(t, v.p) else v
  }

  function SkipArray(t: string, p: nat): (s: Skip)
    requires p <= |t|
    ensures s.Skipped? ==> p <= s.p <= |t|
    decreases |t| - p, 1
  {
    var q := SkipWs(t, p);
    if q == |t| then Skipped(false, q)
    else if t[q] == ']' then Skipped(true, q + 1)
    else if t[q] == ',' then SkipArray(t, q + 1)
    else
      var v := SkipValue(t, q);
      if !v.Skipped? || !v.ok then v
      else if v.p == q then Spinning
      else SkipArray(t, v.p)
  }

  // ---------------------------------------------------------------- escaping

  function HexDigit(n: nat): (c: char)
    requires n < 16
    ensures c != '"' && c != '\\'
  {
    "0123456789abcdef"[n]
  }

  /** The letter of a two-character escape. */
  function ShortEscape(c: char): Option<char> {
    match c
    case '"' => Some('"')
    case '\\' => Some('\\')
    case '\U{08}' => Some('b')
    case '\U{0C}' => Some('f')
    case '\n' => Some('n')
    case '\r' => Some('r')
    case '\t' => Some('t')
    case _ => None
  }

  function EscapeChar(c: char): (s: string)
    ensures 1 <= |s| <= 6
  {
    if ShortEscape(c).Some? then ['\\', ShortEscape(c).value]
    else if c < ' ' then ['\\', 'u', '0', '0', HexDigit(c as int / 16), HexDigit(c as int % 16)]
    else [c]
  }

  function Escape(s: string): string {
    if s == [] then [] else EscapeChar(s[0]) + Escape(s[1..])
  }

  function Quote(s: string): string {
    "\"" + Escape(s) + "\""
  }

  /** jsonEscapedContentLen, character by character. */
  function EscapedLen(c: char): nat {
    if c == '"' || c == '\\' || c == '\U{08}' || c == '\U{0C}' || c == '\n' || c == '\r' || c == '\t' then 2
    else if c < ' ' then 6
    else 1
  }

  function QuotedLen(s: string): nat {
    2 + ContentLen(s)
  }

  function ContentLen(s: string): nat {
    if s == [] then 0 else EscapedLen(s[0]) + ContentLen(s[1..])
  }

  /** jsonQuotedLen is the exact written length, for every string. */
  lemma {:induction false} QuotedLenIsExact(s: string)
    ensures |Quote(s)| == QuotedLen(s)
    ensures |Escape(s)| == ContentLen(s)
  {
    if s != [] {
      QuotedLenIsExact(s[1..]);
    }
  }

  lemma HexDigitDecodes(n: nat)
    requires n < 16
    ensures HexVal(HexDigit(n)) == n
  {
  }

  /** Reading back the six characters of a control character. */
  lemma UnicodeEscapeDecodes(t: string, p: nat, n: nat)
    requires n < 32 && p + 5 <= |t|
    requires t[p] == 'u' && t[p + 1] == '0' && t[p + 2] == '0'
    requires t[p + 3] == HexDigit(n / 16) && t[p + 4] == HexDigit(n % 16)
    ensures DecodeEscape(t, p) == Some((n as char, p + 5))
  {
    HexDigitDecodes(n / 16);
    HexDigitDecodes(n % 16);
    assert HexVal('0') == 0;
  }

  lemma ShortEscapeDecodes(c: char)
    requires ShortEscape(c).Some?
    ensures Unescape(ShortEscape(c).value) == Some(c)
  {
  }

  /** Decoding undoes the escape of one character, wherever it stands. */
  lemma EscapedCharDecodes(t: string, p: nat, c: char, e: string)
    requires e == EscapeChar(c) && HasAt(t, p, e)
    ensures DecodeBody(t, p) == Prepend(c, DecodeBody(t, p + |e|))
  {
    assert CharAt(t, p, e, 0);
    if |e| > 1 {
      assert CharAt(t, p, e, 1);
      if |e| == 6 {
        assert CharAt(t, p, e, 2) && CharAt(t, p, e, 3) && CharAt(t, p, e, 4) && CharAt(t, p, e, 5);
        UnicodeEscapeDecodes(t, p + 1, c as int);
      } else {
        ShortEscapeDecodes(c);
      }
    }
  }

  /** Decoding undoes escaping, wherever the escaped text stands in a larger one. */
  lemma {:induction false} EscapedTextDecodes(t: string, p: nat, s: string)
    requires HasAt(t, p, Escape(s)) && p + |Escape(s)| < |t| && t[p + |Escape(s)|] == '"'
    ensures DecodeBody(t, p) == Some((s, p + |Escape(s)|))
    decreases |s|
  {
    if s != [] {
      var e, rest := EscapeChar(s[0]), s[1..];
      var q := p + |e|;
      HasAtParts(t, p, e, Escape(rest));
      EscapedTextDecodes(t, q, rest);
      EscapedCharDecodes(t, p, s[0], e);
      assert [s[0]] + rest == s;
    }
  }

  lemma QuoteParts(t: string, p: nat, s: string)
    requires HasAt(t, p, Quote(s))
    ensures p + 1 + |Escape(s)| < |t|
    ensures t[p] == '"' && t[p + 1 + |Escape(s)|] == '"'
    ensures HasAt(t, p + 1, Escape(s))
  {
    var e := Escape(s);
    assert Quote(s) == "\"" + (e + "\"");
    HasAtParts(t, p, "\"", e + "\"");
    HasAtParts(t, p + 1, e, "\"");
    assert CharAt(t, p, "\"", 0) && CharAt(t, p + 1 + |e|, "\"", 0);
  }

  /** Parsing a quoted string gives the string back exactly when it fits with its NUL. */
  lemma QuotedStringParses(t: string, p: nat, s: string, outLen: nat)
    requires HasAt(t, p, Quote(s))
    ensures ParseString(t, p, outLen) == if |s| < outLen then Some(s) else None
  {
    QuoteParts(t, p, s);
    EscapedTextDecodes(t, p + 1, s);
  }
}

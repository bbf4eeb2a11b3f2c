/**
 The loops of lib/Lightnet/Utils/SimpleJson.hpp and lib/Lightnet/Utils/JsonInject.hpp, which
 move cursors and fill character buffers, proved to compute the functions of Json and
 JsonUpsert.
 */
module JsonCode {
  import opened Json
  import U = JsonUpsert
  import Bytes

  method JsonFindKey(t: string, key: string) returns (v: Option<nat>)
    ensures v == FindKey(t, key)
  {
    var depth: int := 0;
    var p := SkipWs(t, 0);
    if p < |t| && t[p] == '{' {
      p := p + 1;
    }
    while p < |t|
      invariant p <= |t|
      invariant FindFrom(t, key, p, depth) == FindKey(t, key)
    {
      if t[p] == '{' || t[p] == '[' {
        depth, p := depth + 1, p + 1;
      } else if t[p] == '}' || t[p] == ']' {
        depth, p := depth - 1, p + 1;
      } else if depth != 0 || t[p] != '"' {
        p := p + 1;
      } else {
        if KeyAt(t, key, p) {
          var q := SkipWs(t, p + |key| + 2);
          if q < |t| && t[q] == ':' {
            return Some(SkipWs(t, q + 1));
          }
        }
        p := SkipQuoted(t, p);
      }
    }
    return None;
  }

  /** What a decode that already produced `done` gives in the end. */
  ghost function Resume(done: string, r: Option<(string, nat)>): Option<(string, nat)> {
    match r
    case None => None
    case Some((s, q)) => Some((done + s, q))
  }

  lemma ResumeOne(done: string, c: char, r: Option<(string, nat)>)
    ensures Resume(done, Prepend(c, r)) == Resume(done + [c], r)
  {
    if r.Some? {
      assert done + ([c] + r.value.0) == done + [c] + r.value.0;
    }
  }

  lemma ResumeNothing(r: Option<(string, nat)>)
    ensures Resume([], r) == r
  {
    if r.Some? {
      assert [] + r.value.0 == r.value.0;
    }
  }

  method JsonParseString(t: string, start: nat, out: array<char>) returns (ok: bool)
    requires start <= |t| && 0 < out.Length
    modifies out
    ensures ok <==> ParseString(t, start, out.Length).Some?
    ensures ok ==> var s := ParseString(t, start, out.Length).value;
      out[..|s|] == s && out[|s|] == '\0'
  {
    if start == |t| || t[start] != '"' {
      return false;
    }
    var p := start + 1;
    var i := 0;
    ResumeNothing(DecodeBody(t, p));
    assert out[..0] == [];
    while p < |t| && t[p] != '"'
      invariant p <= |t| && i < out.Length
      invariant Resume(out[..i], DecodeBody(t, p)) == DecodeBody(t, start + 1)
      decreases |t| - p
    {
      ghost var from := p;
      var ch: char;
      if t[p] == '\\' {
        var d := DecodeEscape(t, p + 1);
        if d.None? {
          return false;
        }
        ch, p := d.value.0, d.value.1;
      } else {
        ch, p := t[p], p + 1;
      }
      assert DecodeBody(t, from) == Prepend(ch, DecodeBody(t, p));
      ResumeOne(out[..i], ch, DecodeBody(t, p));
      if i + 1 >= out.Length {
        return false;
      }
      ghost var done := out[..i];
      out[i] := ch;
      i := i + 1;
      assert out[..i] == done + [ch];
    }
    if p == |t| {
      return false;
    }
    out[i] := '\0';
    assert out[..i] + [] == out[..i];
    return true;
  }

  method JsonQuotedLen(src: string) returns (n: nat)
    ensures n == |Quote(src)|
  {
    n := 0;
    for i := 0 to |src|
      invariant n + ContentLen(src[i..]) == ContentLen(src)
    {
      assert src[i..][1..] == src[i + 1..];
      n := n + EscapedLen(src[i]);
    }
    n := n + 2;
    QuotedLenIsExact(src);
  }

  /** The part of the escaped text that is still to be written. */
  lemma EscapeRest(s: string, i: nat)
    requires i < |s|
    ensures Escape(s[i..]) == EscapeChar(s[i]) + Escape(s[i + 1..])
    ensures ContentLen(s[i..]) == |EscapeChar(s[i])| + ContentLen(s[i + 1..])
  {
    assert s[i..][1..] == s[i + 1..];
  }

  /** `memcpy(out + at, src, |src|)`. */
  method Copy(out: array<char>, at: nat, src: string)
    requires at + |src| <= out.Length
    modifies out
    ensures out[..at + |src|] == old(out[..at]) + src
    ensures out[at + |src|..] == old(out[at + |src|..])
  {
    forall k | 0 <= k < |src| {
      out[at + k] := src[k];
    }
  }

  method Put(out: array<char>, at: nat, c: char)
    requires at < out.Length
    modifies out
    ensures out[..at] == old(out[..at]) && out[at] == c
    ensures out[..at + 1] == old(out[..at]) + [c]
  {
    out[at] := c;
  }

  /** One character, escaped, if it fits before `limit` with room for a NUL. */
  method WriteEscapedChar(out: array<char>, at: nat, limit: nat, c: char) returns (end: int)
    requires at < limit <= out.Length
    modifies out
    ensures end == if at + |EscapeChar(c)| < limit then at + |EscapeChar(c)| else -1
    ensures end >= 0 ==> out[..end] == old(out[..at]) + EscapeChar(c)
  {
    var esc := EscapeChar(c);
    if at + |esc| >= limit {
      return -1;
    }
    Copy(out, at, esc);
    return at + |esc|;
  }

  /** What has been written grows by one escaped character, and what is left shrinks by it. */
  lemma EscapeStep(pre: string, written: string, src: string, i: nat)
    requires i < |src| && written + Escape(src[i..]) == Escape(src)
    ensures (pre + written) + EscapeChar(src[i]) == pre + (written + EscapeChar(src[i]))
    ensures written + EscapeChar(src[i]) + Escape(src[i + 1..]) == Escape(src)
    ensures |written + EscapeChar(src[i])| <= ContentLen(src)
  {
    EscapeRest(src, i);
    QuotedLenIsExact(src);
    Bytes.Assoc(written, EscapeChar(src[i]), Escape(src[i + 1..]));
  }

  /** Writes at most `cap` characters from `off`, or returns -1. */
  method JsonWriteEscapedContent(out: array<char>, off: nat, cap: nat, src: string) returns (n: int)
    requires off + cap <= out.Length
    modifies out
    ensures n == if ContentLen(src) < cap then ContentLen(src) else -1
    ensures n >= 0 ==> out[..off + n] == old(out[..off]) + Escape(src) && out[off + n] == '\0'
  {
    if cap == 0 {
      return -1;
    }
    var at: nat := off;
    ghost var pre, written := out[..off], [];
    for i := 0 to |src|
      invariant at == off + |written| < off + cap
      invariant out[..at] == pre + written
      invariant written + Escape(src[i..]) == Escape(src)
    {
      EscapeStep(pre, written, src, i);
      var end := WriteEscapedChar(out, at, off + cap, src[i]);
      if end < 0 {
        return -1;
      }
      written := written + EscapeChar(src[i]);
      at := end;
    }
    assert written == Escape(src);
    QuotedLenIsExact(src);
    Put(out, at, '\0');
    return at - off;
  }

  method JsonWriteQuotedString(out: array<char>, off: nat, src: string) returns (n: int)
    requires off <= out.Length
    modifies out
    ensures n == if |Quote(src)| < out.Length - off then |Quote(src)| else -1
    ensures n >= 0 ==> out[..off + n] == old(out[..off]) + Quote(src) && out[off + n] == '\0'
  {
    QuotedLenIsExact(src);
    var cap := out.Length - off;
    if cap < 2 {
      return -1;
    }
    ghost var pre := out[..off];
    Put(out, off, '"');
    var len := JsonWriteEscapedContent(out, off + 1, cap - 1, src);
    if len < 0 {
      return -1;
    }
    var pos: nat := 1 + len;
    if pos + 1 >= cap {
      return -1;
    }
    Put(out, off + pos, '"');
    Put(out, off + pos + 1, '\0');
    Bytes.Assoc(pre, "\"", Escape(src));
    Bytes.Assoc(pre, "\"" + Escape(src), "\"");
    return pos + 1;
  }

  /** The length written, or -1; `hangs` stands for a call that does not return. */
  method JsonUpsertStringField(body: string, field: string, value: string, out: array<char>)
    returns (n: int, hangs: bool)
    requires 0 < out.Length
    modifies out
    ensures hangs <==> U.Upsert(body, field, value, out.Length).Hangs?
    ensures n >= 0 <==> U.Upsert(body, field, value, out.Length).Written?
    ensures n >= 0 ==> n < out.Length && out[n] == '\0'
    ensures n >= 0 ==> out[..n] == U.Upsert(body, field, value, out.Length).text
  {
    var valPtr := JsonFindKey(body, field);
    var quotedLen := JsonQuotedLen(value);
    if valPtr.Some? {
      var start := valPtr.value;
      var skip := SkipValue(body, start);
      if skip.Spinning? {
        return -1, true;
      }
      if !skip.ok {
        return -1, false;
      }
      n := WriteParts(out, body[..start], value, quotedLen, body[skip.p..]);
      return n, false;
    }
    var insertAt := SkipWs(body, 0);
    if insertAt == |body| || body[insertAt] != '{' {
      return -1, false;
    }
    insertAt := SkipWs(body, insertAt + 1);
    n := WriteParts(out, body[..insertAt] + ("\"" + field + "\":"), value, quotedLen, "," + body[insertAt..]);
    return n, false;
  }

  method WriteParts(out: array<char>, pre: string, value: string, quotedLen: nat, post: string) returns (n: int)
    requires quotedLen == |Quote(value)|
    modifies out
    ensures n == if |pre| + |Quote(value)| + |post| + 1 > out.Length then -1 else |pre| + |Quote(value)| + |post|
    ensures n >= 0 ==> out[..n] == pre + Quote(value) + post && out[n] == '\0'
  {
    if |pre| + quotedLen + |post| + 1 > out.Length {
      return -1;
    }
    Copy(out, 0, pre);
    var written := JsonWriteQuotedString(out, |pre|, value);
    assert out[..|pre| + quotedLen] == pre + Quote(value);
    Copy(out, |pre| + quotedLen, post);
    n := |pre| + quotedLen + |post|;
    out[n] := '\0';
  }
}

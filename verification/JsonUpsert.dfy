/**
 Insert or replace a top-level string field of a JSON object in place
 (lib/Lightnet/Utils/JsonInject.hpp), as a function of the text, and what reading the field
 back gives.
 */
module JsonUpsert {
  import opened Json

  /** The new text, -1, or a call that never returns because a skip spins (Json.Spinning). */
  datatype Outcome = Written(text: string) | Refused | Hangs

  /** Where a new entry goes: behind the opening brace and the whitespace after it. */
  function InsertAt(body: string): (at: nat)
    ensures at <= |body|
  {
    var brace := SkipWs(body, 0);
    if brace == |body| then brace else SkipWs(body, brace + 1)
  }

  /** The text in front of the new value. */
  function Before(body: string, field: string): string {
    match FindKey(body, field)
    case Some(start) => body[..start]
    case None => body[..InsertAt(body)] + ("\"" + field + "\":")
  }

  /** The text behind the new value. */
  function After(body: string, field: string): string {
    match FindKey(body, field)
    case Some(start) => (
      match SkipValue(body, start)
      case Skipped(_, end) => body[end..]
      case Spinning => ""
    )
    case None => "," + body[InsertAt(body)..]
  }

  /** Whether there is a value to replace, or an object to insert into. */
  function Site(body: string, field: string): Outcome {
    match FindKey(body, field)
    case Some(start) => (
      match SkipValue(body, start)
      case Spinning => Hangs
      case Skipped(ok, _) => if ok then Written(body) else Refused
    )
    case None =>
      var brace := SkipWs(body, 0);
      if brace < |body| && body[brace] == '{' then Written(body) else Refused
  }

  function Upsert(body: string, field: string, value: string, outCap: nat): Outcome {
    if !Site(body, field).Written? then Site(body, field)
    else
      var text := Before(body, field) + Quote(value) + After(body, field);
      if |text| + 1 > outCap then Refused else Written(text)
  }

  /** jsonReadTopLevelString. */
  function Read(text: string, field: string, outLen: nat): Option<string> {
    match FindKey(text, field)
    case None => None
    case Some(v) => ParseString(text, v, outLen)
  }

  // ---------------------------------------------------------------- scanning two texts alike

  /** The texts agree before position `v`. */
  ghost predicate Alike(t: string, u: string, v: nat) {
    v <= |t| && v <= |u| && forall i :: 0 <= i < v ==> t[i] == u[i]
  }

  lemma {:induction false} SkipWsStops(t: string, p: nat, c: nat)
    requires p <= c < |t| && !IsWs(t[c])
    ensures SkipWs(t, p) <= c
    decreases c - p
  {
    if IsWs(t[p]) {
      SkipWsStops(t, p + 1, c);
    }
  }

  lemma {:induction false} SkipWsAlike(t: string, u: string, v: nat, p: nat)
    requires Alike(t, u, v) && p <= |t| && SkipWs(t, p) < v
    ensures SkipWs(u, p) == SkipWs(t, p)
    decreases v - p
  {
    if IsWs(t[p]) {
      SkipWsAlike(t, u, v, p + 1);
    }
  }

  /** Whitespace up to `v` in one text, and a character at `v` in the other. */
  lemma {:induction false} SkipWsReaches(t: string, u: string, v: nat, p: nat)
    requires Alike(t, u, v) && p <= |t| && SkipWs(t, p) == v < |u| && !IsWs(u[v])
    ensures SkipWs(u, p) == v
    decreases v - p
  {
    if p < v {
      SkipWsReaches(t, u, v, p + 1);
    }
  }

  lemma {:induction false} QuoteEndAlike(t: string, u: string, v: nat, p: nat)
    requires Alike(t, u, v) && p <= |t| && QuoteEnd(t, p) < v
    ensures QuoteEnd(u, p) == QuoteEnd(t, p)
    decreases v - p
  {
    if t[p] != '"' {
      QuoteEndAlike(t, u, v, if t[p] == '\\' && p + 1 < |t| then p + 2 else p + 1);
    }
  }

  lemma KeyAtAlike(t: string, u: string, v: nat, key: string, p: nat)
    requires Alike(t, u, v) && p + 1 + |key| < v
    ensures KeyAt(t, key, p) == KeyAt(u, key, p)
  {
    assert t[p + 1..p + 1 + |key|] == u[p + 1..p + 1 + |key|];
  }

  /** A value that was found lies behind its key and a colon. */
  lemma {:induction false} FoundBehindColon(t: string, key: string, p: nat, depth: int) returns (colon: nat)
    requires p <= |t| && FindFrom(t, key, p, depth).Some?
    ensures p + |key| + 2 <= colon < FindFrom(t, key, p, depth).value
    ensures t[colon] == ':'
    decreases |t| - p
  {
    if t[p] == '{' || t[p] == '[' {
      colon := FoundBehindColon(t, key, p + 1, depth + 1);
    } else if t[p] == '}' || t[p] == ']' {
      colon := FoundBehindColon(t, key, p + 1, depth - 1);
    } else if depth != 0 || t[p] != '"' {
      colon := FoundBehindColon(t, key, p + 1, depth);
    } else if ValueAt(t, key, p).Some? {
      colon := SkipWs(t, p + |key| + 2);
    } else {
      colon := FoundBehindColon(t, key, SkipQuoted(t, p), depth);
    }
  }

  /** One candidate key, and what the search does next, look the same in both texts. */
  lemma CandidateAlike(t: string, u: string, key: string, p: nat, colon: nat, v: nat)
    requires Alike(t, u, v) && p + |key| + 2 <= colon < v && t[colon] == ':'
    ensures ValueAt(t, key, p).None? ==> ValueAt(u, key, p).None?
    ensures ValueAt(t, key, p) == Some(v) && v < |u| && !IsWs(u[v]) ==> ValueAt(u, key, p) == Some(v)
  {
    KeyAtAlike(t, u, v, key, p);
    if KeyAt(t, key, p) {
      SkipWsStops(t, p + |key| + 2, colon);
      SkipWsAlike(t, u, v, p + |key| + 2);
      var q := SkipWs(t, p + |key| + 2);
      if ValueAt(t, key, p) == Some(v) && v < |u| && !IsWs(u[v]) {
        SkipWsReaches(t, u, v, q + 1);
      }
    }
  }

  /**
   The search for a key depends on nothing at or behind the value it finds: a text that agrees
   up to there, and has some value there, gives the same position.
   */
  lemma {:induction false} FindFromAlike(t: string, u: string, key: string, p: nat, depth: int, v: nat)
    requires p <= |t| && FindFrom(t, key, p, depth) == Some(v)
    requires Alike(t, u, v) && p <= v < |u| && !IsWs(u[v])
    ensures FindFrom(u, key, p, depth) == Some(v)
    decreases |t| - p
  {
    var colon := FoundBehindColon(t, key, p, depth);
    if t[p] == '{' || t[p] == '[' {
      FindFromAlike(t, u, key, p + 1, depth + 1, v);
    } else if t[p] == '}' || t[p] == ']' {
      FindFromAlike(t, u, key, p + 1, depth - 1, v);
    } else if depth != 0 || t[p] != '"' {
      FindFromAlike(t, u, key, p + 1, depth, v);
    } else {
      CandidateAlike(t, u, key, p, colon, v);
      if ValueAt(t, key, p).None? {
        var q := SkipQuoted(t, p);
        colon := FoundBehindColon(t, key, q, depth);
        QuoteEndAlike(t, u, v, p + 1);
        FindFromAlike(t, u, key, q, depth, v);
      }
    }
  }

  lemma FindKeyAlike(t: string, u: string, key: string, v: nat)
    requires FindKey(t, key) == Some(v)
    requires Alike(t, u, v) && v < |u| && !IsWs(u[v])
    ensures FindKey(u, key) == Some(v)
  {
    var p := BodyStart(t);
    var colon := FoundBehindColon(t, key, p, 0);
    SkipWsAlike(t, u, v, 0);
    FindFromAlike(t, u, key, p, 0, v);
  }

  lemma {:induction false} FindSkipsWs(t: string, key: string, p: nat)
    requires p <= |t|
    ensures FindFrom(t, key, p, 0) == FindFrom(t, key, SkipWs(t, p), 0)
    decreases |t| - p
  {
    if p < |t| && IsWs(t[p]) {
      FindSkipsWs(t, key, p + 1);
    }
  }

  // ---------------------------------------------------------------- the two cases

  lemma StartAlike(body: string, text: string, at: nat)
    requires SkipWs(body, 0) < |body| && body[SkipWs(body, 0)] == '{' && at == InsertAt(body)
    requires Alike(body, text, at) && at < |text| && !IsWs(text[at])
    ensures BodyStart(text) == SkipWs(body, 0) + 1 && SkipWs(text, BodyStart(text)) == at
  {
    SkipWsAlike(body, text, at, 0);
    SkipWsReaches(body, text, at, SkipWs(body, 0) + 1);
  }

  lemma InsertedKeyMatches(head: string, field: string, text: string)
    requires HasAt(text, 0, head + ("\"" + field + "\":"))
    requires |head| + |field| + 3 < |text| && text[|head| + |field| + 3] == '"'
    ensures text[|head|] == '"'
    ensures ValueAt(text, field, |head|) == Some(|head| + |field| + 3)
    ensures Alike(head, text, |head|)
  {
    var at, entry := |head|, "\"" + field + "\":";
    HasAtParts(text, 0, head, entry);
    assert entry == "\"" + (field + "\":");
    HasAtParts(text, at, "\"", field + "\":");
    HasAtParts(text, at + 1, field, "\":");
    assert CharAt(text, at, "\"", 0);
    assert CharAt(text, at + 1 + |field|, "\":", 0) && CharAt(text, at + 1 + |field|, "\":", 1);
    forall i: nat | i < |field| ensures text[at + 1 + i] == field[i] {
      assert CharAt(text, at + 1, field, i);
    }
    assert text[at + 1..at + 1 + |field|] == field;
    forall i: nat | i < at ensures head[i] == text[i] {
      assert CharAt(text, 0, head, i);
    }
  }

  /** Any text that goes on with a quote behind `Before` has the field's value there. */
  lemma ValueFollowsBefore(body: string, field: string, text: string)
    requires Site(body, field).Written?
    requires HasAt(text, 0, Before(body, field))
    requires |Before(body, field)| < |text| && text[|Before(body, field)|] == '"'
    ensures FindKey(text, field) == Some(|Before(body, field)|)
  {
    match FindKey(body, field)
    case Some(start) =>
      forall i: nat | i < start ensures body[i] == text[i] {
        assert CharAt(text, 0, body[..start], i);
      }
      FindKeyAlike(body, text, field, start);
    case None =>
      var at := InsertAt(body);
      InsertedKeyMatches(body[..at], field, text);
      forall i: nat | i < at ensures body[i] == text[i] {
        assert body[..at][i] == body[i];
      }
      StartAlike(body, text, at);
      FindSkipsWs(text, field, BodyStart(text));
  }

  /** What an upsert writes, in three parts, and where the search finds its value. */
  lemma UpsertedText(body: string, field: string, value: string, text: string)
    requires Site(body, field).Written?
    requires text == Before(body, field) + Quote(value) + After(body, field)
    ensures FindKey(text, field) == Some(|Before(body, field)|)
    ensures HasAt(text, |Before(body, field)|, Quote(value))
  {
    var pre, mid, post := Before(body, field), Quote(value), After(body, field);
    PartHasAt(pre, mid, post);
    assert CharAt(text, |pre|, mid, 0);
    PartHasAt([], pre, mid + post);
    assert [] + pre + (mid + post) == text;
    ValueFollowsBefore(body, field, text);
  }

  /**
   After any successful upsert, in the replace and in the insert case and for any field name,
   reading the field gives the value, exactly when it fits the reader's buffer.
   */
  lemma UpsertedFieldReadsBack(body: string, field: string, value: string, outCap: nat, outLen: nat)
    requires Upsert(body, field, value, outCap).Written?
    ensures Read(Upsert(body, field, value, outCap).text, field, outLen)
            == if |value| < outLen then Some(value) else None
  {
    var text := Upsert(body, field, value, outCap).text;
    UpsertedText(body, field, value, text);
    QuotedStringParses(text, |Before(body, field)|, value, outLen);
  }

  // ---------------------------------------------------------------- upserting twice

  lemma PlainCharIsSkipped(t: string, p: nat)
    requires p < |t| && t[p] != '"' && t[p] != '\\'
    ensures QuoteEnd(t, p) == QuoteEnd(t, p + 1)
  {
  }

  lemma EscapedCharIsSkipped(t: string, p: nat, c: char, e: string)
    requires e == EscapeChar(c) && HasAt(t, p, e) && p + |e| < |t|
    ensures QuoteEnd(t, p) == QuoteEnd(t, p + |e|)
  {
    assert CharAt(t, p, e, 0);
    if |e| == 6 {
      assert CharAt(t, p, e, 2) && CharAt(t, p, e, 3) && CharAt(t, p, e, 4) && CharAt(t, p, e, 5);
      PlainCharIsSkipped(t, p + 2);
      PlainCharIsSkipped(t, p + 3);
      PlainCharIsSkipped(t, p + 4);
      PlainCharIsSkipped(t, p + 5);
    }
  }

  lemma {:induction false} EscapedTextEnds(t: string, p: nat, s: string)
    requires HasAt(t, p, Escape(s)) && p + |Escape(s)| < |t| && t[p + |Escape(s)|] == '"'
    ensures QuoteEnd(t, p) == p + |Escape(s)|
    decreases |s|
  {
    if s != [] {
      var e, rest := EscapeChar(s[0]), s[1..];
      var q := p + |e|;
      HasAtParts(t, p, e, Escape(rest));
      EscapedTextEnds(t, q, rest);
      EscapedCharIsSkipped(t, p, s[0], e);
    }
  }

  lemma QuotedStringIsSkipped(t: string, p: nat, s: string)
    requires HasAt(t, p, Quote(s))
    ensures SkipValue(t, p) == Skipped(true, p + |Quote(s)|)
  {
    QuoteParts(t, p, s);
    EscapedTextEnds(t, p + 1, s);
  }

  /** An upserted text splits, for the same field, where it was put together. */
  lemma UpsertedTextSplits(text: string, field: string, pre: string, value: string, post: string)
    requires text == pre + Quote(value) + post
    requires FindKey(text, field) == Some(|pre|) && HasAt(text, |pre|, Quote(value))
    ensures Site(text, field).Written?
    ensures Before(text, field) == pre && After(text, field) == post
  {
    QuotedStringIsSkipped(text, |pre|, value);
  }

  /** A second upsert of the same field leaves no trace of the first. */
  lemma LastUpsertWins(body: string, field: string, first: string, second: string, cap1: nat, cap2: nat)
    requires Upsert(body, field, first, cap1).Written?
    ensures Upsert(Upsert(body, field, first, cap1).text, field, second, cap2) == Upsert(body, field, second, cap2)
  {
    var text := Upsert(body, field, first, cap1).text;
    UpsertedText(body, field, first, text);
    UpsertedTextSplits(text, field, Before(body, field), first, After(body, field));
  }
}

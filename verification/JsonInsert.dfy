/**
 What inserting a field does to the rest of a JSON object (lib/Lightnet/Utils/JsonInject.hpp): every
 other field reads as before, and an object without fields gets a comma too many.
 */
module JsonInserts {
  import opened Json
  import opened JsonSkips
  import U = JsonUpsert

  // ---------------------------------------------------------------- reading a text further back

  /** From `at` on, `u` is `t` moved back by `k`, or forth. */
  ghost predicate Moved(t: string, u: string, at: nat, k: int) {
    at <= |t| && 0 <= at + k && |u| == |t| + k && forall i {:trigger t[i]} :: at <= i < |t| ==> u[i + k] == t[i]
  }

  lemma {:induction false} SkipWsMoves(t: string, u: string, at: nat, k: int, p: nat)
    requires Moved(t, u, at, k) && at <= p <= |t|
    ensures SkipWs(u, p + k) == SkipWs(t, p) + k
    decreases |t| - p
  {
    if p < |t| && IsWs(t[p]) {
      SkipWsMoves(t, u, at, k, p + 1);
    }
  }

  lemma {:induction false} QuoteEndMoves(t: string, u: string, at: nat, k: int, p: nat)
    requires Moved(t, u, at, k) && at <= p <= |t|
    ensures QuoteEnd(u, p + k) == QuoteEnd(t, p) + k
    decreases |t| - p
  {
    if p < |t| && t[p] != '"' {
      QuoteEndMoves(t, u, at, k, if t[p] == '\\' && p + 1 < |t| then p + 2 else p + 1);
    }
  }

  lemma KeyAtMoves(t: string, u: string, at: nat, k: int, key: string, p: nat)
    requires Moved(t, u, at, k) && at <= p
    ensures KeyAt(u, key, p + k) == KeyAt(t, key, p)
  {
    var e := p + 1 + |key|;
    if e < |t| {
      assert u[e + k] == t[e];
      forall i | p + 1 <= i < e ensures u[i + k] == t[i] {
      }
      assert u[p + k + 1..e + k] == t[p + 1..e];
    }
  }

  lemma ValueAtMoves(t: string, u: string, at: nat, k: int, key: string, p: nat)
    requires Moved(t, u, at, k) && at <= p
    ensures ValueAt(t, key, p).None? ==> ValueAt(u, key, p + k).None?
    ensures ValueAt(t, key, p).Some? ==> ValueAt(u, key, p + k) == Some(ValueAt(t, key, p).value + k)
  {
    hide KeyAt;
    KeyAtMoves(t, u, at, k, key, p);
    if KeyAt(t, key, p) {
      assert p + |key| + 2 <= |t| by {
        KeyFits(t, key, p);
      }
      SkipWsMoves(t, u, at, k, p + |key| + 2);
      var q := SkipWs(t, p + |key| + 2);
      if q < |t| && t[q] == ':' {
        SkipWsMoves(t, u, at, k, q + 1);
      }
    }
  }

  lemma KeyFits(t: string, key: string, p: nat)
    requires KeyAt(t, key, p)
    ensures p + |key| + 2 <= |t|
  {
  }

  lemma {:induction false} SearchMoves(t: string, u: string, at: nat, k: int, key: string, p: nat, depth: int)
    requires Moved(t, u, at, k) && at <= p <= |t|
    ensures FindFrom(t, key, p, depth).None? ==> FindFrom(u, key, p + k, depth).None?
    ensures FindFrom(t, key, p, depth).Some? ==>
      at <= FindFrom(t, key, p, depth).value && FindFrom(u, key, p + k, depth) == Some(FindFrom(t, key, p, depth).value + k)
    decreases |t| - p
  {
    hide ValueAt, QuoteEnd;
    if p < |t| {
      if t[p] == '{' || t[p] == '[' {
        SearchMoves(t, u, at, k, key, p + 1, depth + 1);
      } else if t[p] == '}' || t[p] == ']' {
        SearchMoves(t, u, at, k, key, p + 1, depth - 1);
      } else if depth != 0 || t[p] != '"' {
        SearchMoves(t, u, at, k, key, p + 1, depth);
      } else {
        ValueAtMoves(t, u, at, k, key, p);
        ValueIsBehind(t, key, p);
        SkipQuotedMoves(t, u, at, k, p);
        if ValueAt(t, key, p).None? {
          SearchMoves(t, u, at, k, key, SkipQuoted(t, p), depth);
        }
      }
    }
  }

  lemma ValueIsBehind(t: string, key: string, p: nat)
    ensures ValueAt(t, key, p).Some? ==> p <= ValueAt(t, key, p).value <= |t|
  {
  }

  lemma SkipQuotedMoves(t: string, u: string, at: nat, k: int, p: nat)
    requires Moved(t, u, at, k) && at <= p < |t| && t[p] == '"'
    ensures SkipQuoted(u, p + k) == SkipQuoted(t, p) + k && p < SkipQuoted(t, p) <= |t|
  {
    QuoteEndMoves(t, u, at, k, p + 1);
  }

  lemma EscapeMoves(t: string, u: string, at: nat, k: int, p: nat)
    requires Moved(t, u, at, k) && at <= p <= |t|
    ensures DecodeEscape(t, p).None? ==> DecodeEscape(u, p + k).None?
    ensures DecodeEscape(t, p).Some? ==>
      DecodeEscape(u, p + k) == Some((DecodeEscape(t, p).value.0, DecodeEscape(t, p).value.1 + k))
  {
  }

  lemma {:induction false} DecodeMoves(t: string, u: string, at: nat, k: int, p: nat)
    requires Moved(t, u, at, k) && at <= p <= |t|
    ensures DecodeBody(t, p).None? ==> DecodeBody(u, p + k).None?
    ensures DecodeBody(t, p).Some? ==> DecodeBody(u, p + k).Some? && DecodeBody(u, p + k).value.0 == DecodeBody(t, p).value.0
    decreases |t| - p
  {
    hide DecodeEscape;
    if p < |t| && t[p] != '"' {
      if t[p] != '\\' {
        DecodeMoves(t, u, at, k, p + 1);
      } else {
        EscapeMoves(t, u, at, k, p + 1);
        EscapeEnds(t, p + 1);
        if DecodeEscape(t, p + 1).Some? {
          DecodeMoves(t, u, at, k, DecodeEscape(t, p + 1).value.1);
        }
      }
    }
  }

  lemma EscapeEnds(t: string, p: nat)
    requires p <= |t|
    ensures DecodeEscape(t, p).Some? ==> p < DecodeEscape(t, p).value.1 <= |t|
  {
  }

  // ---------------------------------------------------------------- the other fields

  ghost predicate PlainName(key: string) {
    '"' !in key && '\\' !in key
  }

  /** What an insert writes into an object that does not have the field. */
  function Entry(field: string, value: string): string {
    "\"" + field + "\":" + Quote(value) + ","
  }

  lemma InsertedText(body: string, field: string, value: string, outCap: nat)
    requires U.Upsert(body, field, value, outCap).Written? && FindKey(body, field).None?
    ensures var at := U.InsertAt(body);
      && SkipWs(body, 0) < |body| && body[SkipWs(body, 0)] == '{'
      && U.Upsert(body, field, value, outCap).text == body[..at] + Entry(field, value) + body[at..]
      && BodyStart(body) == SkipWs(body, 0) + 1 && SkipWs(body, BodyStart(body)) == at
  {
    var at := U.InsertAt(body);
    var head, entry, rest := body[..at], "\"" + field + "\":", body[at..];
    JoinFive(head, entry, Quote(value), ",", rest);
  }

  lemma JoinFive(a: string, b: string, c: string, d: string, e: string)
    ensures (a + b) + c + (d + e) == a + (b + c + d) + e
  {
  }

  /** What stands where in the entry. */
  ghost predicate EntryAt(t: string, at: nat, field: string, value: string) {
    && at + |Entry(field, value)| <= |t| && t[at] == '"' && HasAt(t, at + 1, field) && t[at + 1 + |field|] == '"'
    && t[at + 2 + |field|] == ':' && HasAt(t, at + 3 + |field|, Quote(value)) && t[at + |Entry(field, value)| - 1] == ','
  }

  lemma EntryParts(t: string, at: nat, field: string, value: string)
    requires HasAt(t, at, Entry(field, value))
    ensures EntryAt(t, at, field, value)
  {
    var mid, tail := field + ("\":" + (Quote(value) + ",")), "\":" + (Quote(value) + ",");
    assert Entry(field, value) == "\"" + mid;
    HasAtParts(t, at, "\"", mid);
    HasAtParts(t, at + 1, field, tail);
    HasAtParts(t, at + 1 + |field|, "\":", Quote(value) + ",");
    HasAtParts(t, at + 3 + |field|, Quote(value), ",");
    assert CharAt(t, at, "\"", 0) && CharAt(t, at + 1 + |field|, "\":", 0) && CharAt(t, at + 1 + |field|, "\":", 1);
    assert CharAt(t, at + 3 + |field| + |Quote(value)|, ",", 0);
  }

  /** The search for another key passes over the entry. */
  lemma SearchPassesEntry(t: string, at: nat, field: string, value: string, key: string)
    requires EntryAt(t, at, field, value) && PlainName(field) && PlainName(key) && key != field
    ensures FindFrom(t, key, at, 0) == FindFrom(t, key, at + |Entry(field, value)|, 0)
  {
    hide Entry, HasAt, KeyAt, ValueAt, SkipQuoted;
    EntryLength(field, value);
    NameIsSkipped(t, at, field);
    var colon := at + 2 + |field|;
    var v := colon + 1;
    OtherNameDiffers(t, at, field, key);
    assert FindFrom(t, key, at, 0) == FindFrom(t, key, colon, 0);
    assert FindFrom(t, key, colon, 0) == FindFrom(t, key, v, 0);
    ValueIsNoKey(t, v, value, key);
    assert FindFrom(t, key, v, 0) == FindFrom(t, key, v + |Quote(value)|, 0);
  }

  lemma EntryLength(field: string, value: string)
    ensures |Entry(field, value)| == |field| + 4 + |Quote(value)|
  {
  }

  lemma NameIsSkipped(t: string, at: nat, field: string)
    requires at + 1 + |field| < |t| && t[at] == '"' && t[at + 1 + |field|] == '"'
    requires HasAt(t, at + 1, field) && PlainName(field)
    ensures SkipQuoted(t, at) == at + 2 + |field|
  {
    var e := at + 1 + |field|;
    forall i: nat | at + 1 <= i < e ensures t[i] != '"' && t[i] != '\\' {
      assert CharAt(t, at + 1, field, i - at - 1) && field[i - at - 1] in field;
    }
    PlainKeyEnds(t, at + 1, e);
  }

  lemma KeyIsName(t: string, at: nat, field: string, key: string)
    requires at + 1 + |field| < |t| && t[at] == '"' && t[at + 1 + |field|] == '"'
    requires HasAt(t, at + 1, field) && PlainName(field) && PlainName(key) && KeyAt(t, key, at)
    ensures key == field
  {
    NameIsSkipped(t, at, field);
    KeyIsString(t, key, at);
    assert |key| == |field|;
    forall i: nat | i < |field| ensures key[i] == field[i] {
      assert CharAt(t, at + 1, field, i);
      assert key[i] == t[at + 1..at + 1 + |key|][i];
    }
  }

  lemma OtherNameDiffers(t: string, at: nat, field: string, key: string)
    requires at + 1 + |field| < |t| && t[at] == '"' && t[at + 1 + |field|] == '"'
    requires HasAt(t, at + 1, field) && PlainName(field) && PlainName(key) && key != field
    ensures ValueAt(t, key, at).None?
  {
    hide HasAt;
    if KeyAt(t, key, at) {
      KeyIsName(t, at, field, key);
    }
  }

  /** A value is not taken for a key: what follows it is a comma. */
  lemma ValueIsNoKey(t: string, v: nat, value: string, key: string)
    requires HasAt(t, v, Quote(value)) && v + |Quote(value)| < |t| && t[v + |Quote(value)|] == ',' && PlainName(key)
    ensures t[v] == '"' && ValueAt(t, key, v).None? && SkipQuoted(t, v) == v + |Quote(value)|
  {
    hide HasAt, QuoteEnd, KeyAt;
    QuoteParts(t, v, value);
    U.EscapedTextEnds(t, v + 1, value);
    QuoteLength(value);
    if KeyAt(t, key, v) {
      KeyIsString(t, key, v);
    }
  }

  lemma QuoteLength(value: string)
    ensures |Quote(value)| == |Escape(value)| + 2
  {
  }

  /** Behind the entry the search goes on as it did in the old text. */
  lemma InsertedSearch(body: string, text: string, field: string, value: string, other: string)
    requires SkipWs(body, 0) < |body| && body[SkipWs(body, 0)] == '{'
    requires BodyStart(body) == SkipWs(body, 0) + 1 && SkipWs(body, BodyStart(body)) == U.InsertAt(body)
    requires text == body[..U.InsertAt(body)] + Entry(field, value) + body[U.InsertAt(body)..]
    requires PlainName(field) && PlainName(other) && other != field
    ensures FindKey(body, other) == FindFrom(body, other, U.InsertAt(body), 0)
    ensures FindKey(text, other) == FindFrom(text, other, U.InsertAt(body) + |Entry(field, value)|, 0)
  {
    hide Entry, HasAt, FindFrom, EntryAt;
    var at, entry := U.InsertAt(body), Entry(field, value);
    PartHasAt(body[..at], entry, body[at..]);
    EntryParts(text, at, field, value);
    EntryStartsWithQuote(text, at, field, value);
    HeadIsAlike(body, text, at, entry);
    U.StartAlike(body, text, at);
    U.FindSkipsWs(text, other, BodyStart(text));
    U.FindSkipsWs(body, other, BodyStart(body));
    SearchPassesEntry(text, at, field, value, other);
  }

  lemma HeadIsAlike(body: string, text: string, at: nat, entry: string)
    requires at <= |body| && text == body[..at] + entry + body[at..]
    ensures U.Alike(body, text, at)
  {
  }

  /** Inserting a field leaves every other field as it was, whether it is there or not. */
  lemma InsertKeepsOthers(body: string, field: string, value: string, outCap: nat, other: string, outLen: nat)
    requires U.Upsert(body, field, value, outCap).Written? && FindKey(body, field).None?
    requires PlainName(field) && PlainName(other) && other != field
    ensures U.Read(U.Upsert(body, field, value, outCap).text, other, outLen) == U.Read(body, other, outLen)
  {
    hide Entry, FindFrom, U.Upsert, DecodeBody, FindKey, ParseString, SkipWs, BodyStart, U.InsertAt, PlainName;
    InsertIsInText(body);
    var text, at, k := U.Upsert(body, field, value, outCap).text, U.InsertAt(body), |Entry(field, value)|;
    InsertedText(body, field, value, outCap);
    InsertedSearch(body, text, field, value, other);
    RestIsMoved(body, text, at, Entry(field, value));
    SearchMoves(body, text, at, k, other, at, 0);
    KeyIsInText(body, other);
    if FindKey(body, other).Some? {
      ParsingMoves(body, text, at, k, FindKey(body, other).value, outLen);
    }
  }

  lemma InsertIsInText(body: string)
    ensures U.InsertAt(body) <= |body|
  {
  }

  lemma KeyIsInText(t: string, key: string)
    ensures FindKey(t, key).Some? ==> FindKey(t, key).value <= |t|
  {
  }

  lemma ParsingMoves(t: string, u: string, at: nat, k: int, p: nat, outLen: nat)
    requires Moved(t, u, at, k) && at <= p <= |t|
    ensures ParseString(u, p + k, outLen) == ParseString(t, p, outLen)
  {
    hide DecodeBody;
    if p < |t| && t[p] == '"' {
      DecodeMoves(t, u, at, k, p + 1);
    }
  }

  lemma EntryStartsWithQuote(t: string, at: nat, field: string, value: string)
    requires EntryAt(t, at, field, value)
    ensures at < |t| && t[at] == '"'
  {
  }

  lemma RestIsMoved(body: string, text: string, at: nat, entry: string)
    requires at <= |body| && text == body[..at] + entry + body[at..]
    ensures Moved(body, text, at, |entry|)
  {
    forall i | at <= i < |body| ensures text[i + |entry|] == body[i] {
      assert body[at..][i - at] == body[i];
    }
  }

  // ---------------------------------------------------------------- the comma

  /** The comma behind the new entry is the last thing in the object exactly if that had no fields. */
  lemma CommaTrailsIff(body: string, field: string, value: string, outCap: nat)
    requires U.Upsert(body, field, value, outCap).Written? && FindKey(body, field).None?
    ensures var at, text := U.InsertAt(body), U.Upsert(body, field, value, outCap).text;
      var e := at + |Entry(field, value)|;
      && e <= |text| && text[e - 1] == ','
      && ((e < |text| && text[e] == '}') <==> (at < |body| && body[at] == '}'))
  {
    hide U.Upsert, Quote;
    InsertedText(body, field, value, outCap);
  }

  lemma EmptyObjectGetsComma()
    ensures U.Upsert("{}", "a", "b", 100) == U.Written("{\"a\":\"b\",}")
  {
    var body := "{}";
    assert FindFrom(body, "a", 1, 0) == None;
    assert U.InsertAt(body) == 1;
    assert Escape("b"[1..]) == [] && Quote("b") == "\"b\"";
    assert body[..1] == "{" && body[1..] == "}";
  }
}

/**
 What replacing a field's value does to the rest of a JSON object (lib/Lightnet/Utils/JsonInject.hpp),
 and what the search for a key finds (jsonFindKey of lib/Lightnet/Utils/SimpleJson.hpp): it counts
 brackets, which is reading the fields one after the other.
 */
module JsonReplaces {
  import opened Json
  import opened JsonSkips
  import opened JsonInserts
  import U = JsonUpsert

  // ---------------------------------------------------------------- the search reads on

  lemma {:induction false} SearchPassesWs(t: string, key: string, p: nat, depth: int)
    requires p <= |t|
    ensures FindFrom(t, key, p, depth) == FindFrom(t, key, SkipWs(t, p), depth)
    decreases |t| - p
  {
    if p < |t| && IsWs(t[p]) {
      SearchPassesWs(t, key, p + 1, depth);
    }
  }

  lemma {:induction false} SearchPassesPlain(t: string, key: string, p: nat, e: nat, depth: int)
    requires p <= e <= |t| && Plain(t, p, e)
    ensures FindFrom(t, key, p, depth) == FindFrom(t, key, e, depth)
    decreases e - p
  {
    if p < e {
      assert !IsBracket(t[p]) && t[p] != '"';
      SearchPassesPlain(t, key, p + 1, e, depth);
    }
  }

  /** A mark that is no bracket and no quote. */
  lemma SearchPassesMark(t: string, key: string, p: nat, depth: int)
    requires p < |t| && !IsBracket(t[p]) && t[p] != '"'
    ensures FindFrom(t, key, p, depth) == FindFrom(t, key, SkipWs(t, p + 1), depth)
  {
    SearchPassesWs(t, key, p + 1, depth);
  }

  lemma SearchPassesString(t: string, key: string, p: nat, depth: int, open: seq<Bracket>)
    requires p < |t| && t[p] == '"' && Tidy(t, p, open, Unbracketed) && |open| == depth + 1
    requires depth == 0 ==> ValueAt(t, key, p).None?
    ensures FindFrom(t, key, p, depth) == FindFrom(t, key, SkipQuoted(t, p), depth)
    ensures Tidy(t, SkipQuoted(t, p), open, Unbracketed)
  {
    if depth != 0 {
      SearchReadsOn(t, key, p, SkipQuoted(t, p), depth);
    }
  }

  /** The search passes over a value as the skip does, unless it is the key. */
  lemma {:induction false} SearchPassesValue(t: string, key: string, v: nat, depth: nat, open: seq<Bracket>, e: nat)
    requires v < |t| && !IsWs(t[v]) && t[v] != ':' && Tidy(t, v, open, Unbracketed) && |open| == depth + 1
    requires SkipValue(t, v) == Skipped(true, e)
    requires depth == 0 && t[v] == '"' ==> ValueAt(t, key, v).None?
    ensures FindFrom(t, key, v, depth) == FindFrom(t, key, e, depth) && Tidy(t, e, open, Unbracketed)
    decreases |t| - v, 0
  {
    hide StringFits, FindFrom, ValueAt, SkipQuoted;
    if t[v] == '"' {
      SearchPassesString(t, key, v, depth, open);
    } else if t[v] == '{' {
      SearchOpens(t, key, v, depth);
      SearchPassesObject(t, key, v + 1, depth, open, e);
    } else if t[v] == '[' {
      SearchOpens(t, key, v, depth);
      SearchPassesArray(t, key, v + 1, depth, open, e);
    } else {
      ScalarSkips(t, key, v, depth, open, e);
    }
  }

  lemma SearchOpens(t: string, key: string, p: nat, depth: int)
    requires p < |t|
    ensures t[p] == '{' || t[p] == '[' ==> FindFrom(t, key, p, depth) == FindFrom(t, key, p + 1, depth + 1)
    ensures t[p] == '}' || t[p] == ']' ==> FindFrom(t, key, p, depth) == FindFrom(t, key, p + 1, depth - 1)
  {
  }

  lemma ScalarSkips(t: string, key: string, v: nat, depth: nat, open: seq<Bracket>, e: nat)
    requires v < |t| && !IsWs(t[v]) && t[v] != ':' && Tidy(t, v, open, Unbracketed) && |open| == depth + 1
    requires t[v] != '{' && t[v] != '[' && t[v] != '"' && SkipValue(t, v) == Skipped(true, e)
    ensures FindFrom(t, key, v, depth) == FindFrom(t, key, e, depth) && Tidy(t, e, open, Unbracketed)
  {
    if !IsBracket(t[v]) && t[v] != ',' {
      SearchPassesPlain(t, key, v, e, depth);
    }
  }

  lemma {:induction false} SearchPassesObject(t: string, key: string, p: nat, depth: nat, open: seq<Bracket>, e: nat)
    requires p <= |t| && Tidy(t, p, [Curly] + open, Unbracketed) && |open| == depth + 1
    requires SkipObject(t, p) == Skipped(true, e)
    ensures FindFrom(t, key, p, depth + 1) == FindFrom(t, key, e, depth) && Tidy(t, e, open, Unbracketed)
    decreases |t| - p, 1
  {
    hide StringFits, FindFrom, SkipArray, SkipValue, ScalarEnd, Plain, SkipQuoted;
    var all, q := [Curly] + open, SkipWs(t, p);
    assert all[0] == Curly && all[1..] == open;
    TidyPastWs(t, p, all, Unbracketed);
    SearchPassesWs(t, key, p, depth + 1);
    if t[q] == '}' {
      SearchOpens(t, key, q, depth + 1);
    } else if t[q] == ',' {
      SearchPassesMark(t, key, q, depth + 1);
      SearchPassesWs(t, key, q + 1, depth + 1);
      SearchPassesObject(t, key, q + 1, depth, open, e);
    } else if t[q] == '"' {
      QuotedMoves(t, q);
      SearchPassesString(t, key, q, depth + 1, all);
      SearchPassesObject(t, key, SkipQuoted(t, q), depth, open, e);
    } else {
      ColonSkips(t, p);
      SearchPassesField(t, key, q, depth, open, e);
    }
  }

  lemma ColonSkips(t: string, p: nat)
    requires p <= |t|
    ensures SkipObject(t, p) == SkipObject(t, SkipWs(t, p))
  {
    assert SkipWs(t, SkipWs(t, p)) == SkipWs(t, p);
  }

  /** The same, at the colon of a field. */
  lemma {:induction false} SearchPassesField(t: string, key: string, q: nat, depth: nat, open: seq<Bracket>, e: nat)
    requires q < |t| && t[q] == ':' && Tidy(t, q, [Curly] + open, Unbracketed) && |open| == depth + 1
    requires SkipObject(t, q) == Skipped(true, e)
    ensures FindFrom(t, key, q, depth + 1) == FindFrom(t, key, e, depth) && Tidy(t, e, open, Unbracketed)
    decreases |t| - q, 0
  {
    hide StringFits, FindFrom, SkipArray, SkipValue, ScalarEnd, Plain, SkipQuoted;
    var all, v := [Curly] + open, SkipWs(t, q + 1);
    assert SkipWs(t, q) == q;
    SkipPastWs(t, q + 1);
    SkipAtEnd(t);
    SearchPassesMark(t, key, q, depth + 1);
    var w := SkipValue(t, v).p;
    SkipMoves(t, v);
    SearchPassesValue(t, key, v, depth + 1, all, w);
    SearchPassesObject(t, key, w, depth, open, e);
  }

  lemma QuotedMoves(t: string, q: nat)
    requires q < |t| && t[q] == '"'
    ensures q < SkipQuoted(t, q) <= |t|
  {
  }

  lemma SkipMoves(t: string, v: nat)
    requires v <= |t|
    ensures SkipValue(t, v).Skipped? ==> v <= SkipValue(t, v).p <= |t|
  {
  }

  lemma {:induction false} SearchPassesArray(t: string, key: string, p: nat, depth: nat, open: seq<Bracket>, e: nat)
    requires p <= |t| && Tidy(t, p, [Square] + open, Unbracketed) && |open| == depth + 1
    requires SkipArray(t, p) == Skipped(true, e)
    ensures FindFrom(t, key, p, depth + 1) == FindFrom(t, key, e, depth) && Tidy(t, e, open, Unbracketed)
    decreases |t| - p, 1
  {
    hide StringFits, FindFrom, SkipObject, SkipValue, ScalarEnd, Plain, SkipQuoted;
    var all, q := [Square] + open, SkipWs(t, p);
    assert all[0] == Square && all[1..] == open;
    TidyPastWs(t, p, all, Unbracketed);
    SearchPassesWs(t, key, p, depth + 1);
    if t[q] == ']' {
      SearchOpens(t, key, q, depth + 1);
    } else if t[q] == ',' {
      SearchPassesMark(t, key, q, depth + 1);
      SearchPassesWs(t, key, q + 1, depth + 1);
      SearchPassesArray(t, key, q + 1, depth, open, e);
    } else {
      var w := SkipValue(t, q).p;
      SkipMoves(t, q);
      SearchPassesValue(t, key, q, depth + 1, all, w);
      SearchPassesArray(t, key, w, depth, open, e);
    }
  }

  // ---------------------------------------------------------------- the search up to the replaced value

  lemma TwoNames(t: string, key: string, other: string, p: nat)
    requires p < |t| && t[p] == '"' && KeyAt(t, key, p) && PlainName(key) && PlainName(other) && key != other
    ensures !KeyAt(t, other, p)
  {
    if KeyAt(t, other, p) {
      KeyIsString(t, key, p);
      KeyIsString(t, other, p);
    }
  }

  /** Behind a key's colon the search goes on at the value. */
  lemma SearchPassesKey(t: string, key: string, other: string, p: nat)
    requires p < |t| && t[p] == '"' && PlainName(key) && ValueAt(t, key, p).Some? && ValueAt(t, other, p).None?
    ensures p < ValueAt(t, key, p).value <= |t|
    ensures FindFrom(t, other, p, 0) == FindFrom(t, other, ValueAt(t, key, p).value, 0)
  {
    hide KeyAt;
    KeyIsString(t, key, p);
    var q := p + |key| + 2;
    var c := SkipWs(t, q);
    assert FindFrom(t, other, p, 0) == FindFrom(t, other, q, 0);
    SearchPassesWs(t, other, q, 0);
    SearchPassesMark(t, other, c, 0);
  }

  lemma OtherKeyIsNone(t: string, key: string, other: string, p: nat)
    requires p < |t| && t[p] == '"' && ValueAt(t, key, p).Some? && PlainName(key) && PlainName(other) && key != other
    ensures ValueAt(t, other, p).None?
  {
    TwoNames(t, key, other, p);
  }

  /** The string at `w`, if there is one, ends before `v`. */
  ghost predicate EndsBefore(t: string, w: nat, v: nat) {
    w < v <= |t| && (t[w] == '"' ==> QuoteEnd(t, w + 1) < v)
  }

  lemma {:induction false} EndsBeforeFound(t: string, key: string, w: nat, v: nat)
    requires w <= |t| && PlainName(key) && FindFrom(t, key, w, 0) == Some(v)
    ensures EndsBefore(t, w, v)
  {
    var colon := U.FoundBehindColon(t, key, w, 0);
    if t[w] == '"' {
      if ValueAt(t, key, w).Some? {
        KeyIsString(t, key, w);
      } else {
        var q := SkipQuoted(t, w);
        colon := U.FoundBehindColon(t, key, q, 0);
      }
    }
  }

  /** A key that stands before `v` stands in both texts, and no other does. */
  lemma KeysAlike(t: string, u: string, key: string, p: nat, v: nat)
    requires U.Alike(t, u, v) && p < v && t[p] == '"' && QuoteEnd(t, p + 1) < v && PlainName(key)
    ensures KeyAt(t, key, p) == KeyAt(u, key, p) && (KeyAt(t, key, p) ==> QuoteEnd(t, p + 1) == p + 1 + |key|)
  {
    hide KeyAt, U.Alike;
    AlikeAt(t, u, v, p);
    AlikeAt(t, u, v, QuoteEnd(t, p + 1));
    U.QuoteEndAlike(t, u, v, p + 1);
    if KeyAt(u, key, p) {
      KeyIsString(u, key, p);
      KeyFits(u, key, p);
      U.KeyAtAlike(t, u, v, key, p);
    }
    if KeyAt(t, key, p) {
      KeyIsString(t, key, p);
      KeyFits(t, key, p);
      U.KeyAtAlike(t, u, v, key, p);
    }
  }

  lemma AlikeAt(t: string, u: string, v: nat, p: nat)
    requires U.Alike(t, u, v) && p < v
    ensures p < |t| && p < |u| && t[p] == u[p]
  {
  }

  /** A key with its colon that is read in `t` before `v` is read in `u`; one that is not, is not. */
  lemma ValuesAlike(t: string, u: string, key: string, p: nat, v: nat, colon: nat)
    requires U.Alike(t, u, v) && p < v && t[p] == '"' && QuoteEnd(t, p + 1) < colon < v && t[colon] == ':' && PlainName(key)
    ensures ValueAt(t, key, p).None? ==> ValueAt(u, key, p).None?
    ensures ValueAt(t, key, p).Some? && ValueAt(t, key, p).value < v ==> ValueAt(u, key, p) == ValueAt(t, key, p)
  {
    hide KeyAt, QuoteEnd, U.Alike, SkipWs;
    KeysAlike(t, u, key, p, v);
    AlikeAt(t, u, v, colon);
    if KeyAt(t, key, p) {
      BehindKeyAlike(t, u, p + |key| + 2, colon, v);
      var q := SkipWs(t, p + |key| + 2);
      if t[q] == ':' && SkipWs(t, q + 1) < v {
        U.SkipWsAlike(t, u, v, q + 1);
      }
    }
  }

  lemma BehindKeyAlike(t: string, u: string, a: nat, colon: nat, v: nat)
    requires U.Alike(t, u, v) && a <= colon < v && t[colon] == ':'
    ensures a <= |t| && a <= |u| && SkipWs(u, a) == SkipWs(t, a) < v
    ensures var q := SkipWs(t, a); t[q] == u[q] && q + 1 <= |t| && q + 1 <= |u|
  {
    U.SkipWsStops(t, a, colon);
    U.SkipWsAlike(t, u, v, a);
  }

  /** Another key is found before `v`, in both texts alike, or both searches go on at `v`. */
  ghost predicate Met(t: string, u: string, other: string, p: nat, depth: int, v: nat)
    requires p <= |t| && p <= |u| && v <= |t| && v <= |u|
  {
    || (&& FindFrom(t, other, p, depth).Some? && FindFrom(u, other, p, depth) == FindFrom(t, other, p, depth)
        && EndsBefore(t, FindFrom(t, other, p, depth).value, v))
    || (&& FindFrom(t, other, p, depth) == FindFrom(t, other, v, 0)
        && FindFrom(u, other, p, depth) == FindFrom(u, other, v, 0))
  }

  lemma {:induction false} SearchMeets(t: string, u: string, field: string, other: string, p: nat, depth: int, v: nat)
    requires p <= |t| && FindFrom(t, field, p, depth) == Some(v) && U.Alike(t, u, v) && v < |u| && !IsWs(u[v])
    requires PlainName(field) && PlainName(other) && other != field
    ensures p <= v && Met(t, u, other, p, depth, v)
    decreases |t| - p
  {
    hide ValueAt, KeyAt, SkipQuoted, QuoteEnd, EndsBefore;
    var colon := U.FoundBehindColon(t, field, p, depth);
    assert t[p] == u[p];
    if t[p] == '{' || t[p] == '[' {
      SearchMeets(t, u, field, other, p + 1, depth + 1, v);
    } else if t[p] == '}' || t[p] == ']' {
      SearchMeets(t, u, field, other, p + 1, depth - 1, v);
    } else if depth != 0 || t[p] != '"' {
      SearchMeets(t, u, field, other, p + 1, depth, v);
    } else if ValueAt(t, field, p).Some? {
      MeetsField(t, u, field, other, p, v);
    } else {
      MeetsString(t, u, field, other, p, v);
      QuotedMoves(t, p);
      if ValueAt(t, other, p).None? {
        SearchMeets(t, u, field, other, SkipQuoted(t, p), 0, v);
      }
    }
  }

  lemma MeetsField(t: string, u: string, field: string, other: string, p: nat, v: nat)
    requires U.Alike(t, u, v) && v < |u| && !IsWs(u[v]) && p < v && t[p] == '"' && ValueAt(t, field, p) == Some(v)
    requires PlainName(field) && PlainName(other) && other != field
    ensures Met(t, u, other, p, 0, v)
  {
    hide FindFrom, KeyAt;
    OtherKeyIsNone(t, field, other, p);
    SearchPassesKey(t, field, other, p);
    ValueIsFoundAlike(t, u, field, p, v);
    OtherKeyIsNone(u, field, other, p);
    SearchPassesKey(u, field, other, p);
  }

  lemma ValueIsFoundAlike(t: string, u: string, field: string, p: nat, v: nat)
    requires U.Alike(t, u, v) && v < |u| && !IsWs(u[v]) && p < v && t[p] == '"' && ValueAt(t, field, p) == Some(v)
    ensures ValueAt(u, field, p) == Some(v)
  {
    U.CandidateAlike(t, u, field, p, SkipWs(t, p + |field| + 2), v);
  }

  /** At a string that is not the field's key. */
  lemma MeetsString(t: string, u: string, field: string, other: string, p: nat, v: nat)
    requires p < |t| && t[p] == '"' && ValueAt(t, field, p).None? && FindFrom(t, field, p, 0) == Some(v)
    requires U.Alike(t, u, v) && v < |u| && PlainName(field) && PlainName(other) && other != field
    ensures p < v && FindFrom(t, field, SkipQuoted(t, p), 0) == Some(v) && SkipQuoted(u, p) == SkipQuoted(t, p) < v
    ensures ValueAt(t, other, p).Some? ==>
      ValueAt(u, other, p) == ValueAt(t, other, p) && EndsBefore(t, ValueAt(t, other, p).value, v)
    ensures ValueAt(t, other, p).None? ==> ValueAt(u, other, p).None?
  {
    hide ValueAt, KeyAt, EndsBefore;
    QuotedMoves(t, p);
    var q := SkipQuoted(t, p);
    assert FindFrom(t, field, q, 0) == Some(v);
    var colon := U.FoundBehindColon(t, field, q, 0);
    U.QuoteEndAlike(t, u, v, p + 1);
    ValuesAlike(t, u, other, p, v, colon);
    if ValueAt(t, other, p).Some? {
      SearchPassesKey(t, other, field, p);
      EndsBeforeFound(t, field, ValueAt(t, other, p).value, v);
      EndIsBehind(t, ValueAt(t, other, p).value, v);
    }
  }

  lemma EndIsBehind(t: string, w: nat, v: nat)
    requires EndsBefore(t, w, v)
    ensures w < v
  {
  }

  // ---------------------------------------------------------------- a string before the value

  /** A string that ends before `v` is decoded alike, or in neither text. */
  lemma {:induction false} DecodeAlike(t: string, u: string, p: nat, v: nat)
    requires U.Alike(t, u, v) && p <= |t| && QuoteEnd(t, p) < v
    ensures p <= |u| && DecodeBody(u, p) == DecodeBody(t, p)
    decreases |t| - p
  {
    hide DecodeEscape;
    if t[p] != '"' {
      if t[p] != '\\' {
        DecodeAlike(t, u, p + 1, v);
      } else {
        EscapeAlike(t, u, p, v);
        if DecodeEscape(t, p + 1).Some? {
          EscapeEnds(t, p + 1);
          EscapeIsSkipped(t, p);
          DecodeAlike(t, u, DecodeEscape(t, p + 1).value.1, v);
        }
      }
    }
  }

  lemma EscapeAlike(t: string, u: string, p: nat, v: nat)
    requires U.Alike(t, u, v) && p < v && t[p] == '\\' && QuoteEnd(t, p) < v
    ensures DecodeEscape(u, p + 1) == DecodeEscape(t, p + 1)
  {
    var q := QuoteEnd(t, p);
    assert q == QuoteEnd(t, p + 2) && t[q] == u[q] == '"';
    if q < p + 6 {
      assert HexVal('"') < 0;
    } else {
      assert t[p + 1] == u[p + 1] && t[p + 2] == u[p + 2] && t[p + 3] == u[p + 3] && t[p + 4] == u[p + 4] && t[p + 5] == u[p + 5];
    }
  }

  lemma ParsesAlike(t: string, u: string, w: nat, v: nat, outLen: nat)
    requires U.Alike(t, u, v) && EndsBefore(t, w, v)
    ensures w <= |u| && ParseString(u, w, outLen) == ParseString(t, w, outLen)
  {
    assert t[w] == u[w];
    if t[w] == '"' {
      DecodeAlike(t, u, w + 1, v);
    }
  }

  // ---------------------------------------------------------------- the other fields

  /** A colon is the next thing behind `e`. */
  predicate ColonBehind(t: string, e: nat)
    requires e <= |t|
  {
    SkipWs(t, e) < |t| && t[SkipWs(t, e)] == ':'
  }

  lemma NoKeyWithoutColon(t: string, key: string, v: nat)
    requires v < |t| && t[v] == '"' && PlainName(key) && !ColonBehind(t, SkipQuoted(t, v))
    ensures ValueAt(t, key, v).None?
  {
    hide KeyAt;
    if KeyAt(t, key, v) {
      KeyIsString(t, key, v);
    }
  }

  /** What a replacement writes: the value and nothing else has changed. */
  lemma ReplacedText(body: string, field: string, value: string, outCap: nat)
    requires U.Upsert(body, field, value, outCap).Written? && FindKey(body, field).Some?
    ensures var v, s := FindKey(body, field).value, SkipValue(body, FindKey(body, field).value);
      && v < |body| && s.Skipped? && s.ok && v <= s.p <= |body|
      && U.Upsert(body, field, value, outCap).text == body[..v] + Quote(value) + body[s.p..]
  {
    SkipAtEnd(body);
  }

  lemma ReplacedParts(body: string, text: string, v: nat, value: string, e: nat)
    requires v <= e <= |body| && text == body[..v] + Quote(value) + body[e..]
    ensures U.Alike(body, text, v) && HasAt(text, v, Quote(value)) && v < |text| && text[v] == '"'
    ensures Moved(body, text, e, v + |Quote(value)| - e)
  {
    var q := Quote(value);
    PartHasAt(body[..v], q, body[e..]);
    assert CharAt(text, v, q, 0);
    var k := v + |q| - e;
    forall i | e <= i < |body| ensures text[i + k] == body[i] {
      assert body[e..][i - e] == body[i];
    }
  }

  /** Behind the value both searches go on where it ends. */
  lemma SearchesGoOn(body: string, text: string, v: nat, value: string, e: nat, other: string, open: seq<Bracket>)
    requires v < |body| && v <= e <= |body| && text == body[..v] + Quote(value) + body[e..]
    requires SkipValue(body, v) == Skipped(true, e) && !IsWs(body[v]) && body[v] != ':'
    requires |open| == 1 && Tidy(body, v, open, Unbracketed) && PlainName(other) && !ColonBehind(body, e)
    ensures FindFrom(body, other, v, 0) == FindFrom(body, other, e, 0)
    ensures v + |Quote(value)| <= |text| && v <= |text|
    ensures FindFrom(text, other, v, 0) == FindFrom(text, other, v + |Quote(value)|, 0)
  {
    hide FindFrom, ValueAt, Tidy, SkipValue, Quote, ColonBehind, SkipQuoted;
    ReplacedParts(body, text, v, value, e);
    if body[v] == '"' {
      StringIsSkipped(body, v);
      NoKeyWithoutColon(body, other, v);
    }
    SearchPassesValue(body, other, v, 0, open, e);
    U.QuotedStringIsSkipped(text, v, value);
    StringIsSkipped(text, v);
    ColonMoves(body, text, e, v + |Quote(value)| - e);
    NoKeyWithoutColon(text, other, v);
    StringIsPassed(text, other, v);
  }

  lemma StringIsSkipped(t: string, v: nat)
    requires v < |t| && t[v] == '"'
    ensures SkipValue(t, v) == Skipped(true, SkipQuoted(t, v)) && SkipQuoted(t, v) <= |t|
  {
  }

  lemma StringIsPassed(t: string, key: string, v: nat)
    requires v < |t| && t[v] == '"' && ValueAt(t, key, v).None?
    ensures FindFrom(t, key, v, 0) == FindFrom(t, key, SkipQuoted(t, v), 0)
  {
  }

  lemma ColonMoves(t: string, u: string, e: nat, k: int)
    requires Moved(t, u, e, k)
    ensures ColonBehind(u, e + k) == ColonBehind(t, e)
  {
    SkipWsMoves(t, u, e, k, e);
    var q := SkipWs(t, e);
    if q < |t| {
      assert u[q + k] == t[q];
    }
  }

  /** A colon is the next thing behind the field's value, as in no JSON text. */
  predicate ColonFollows(body: string, field: string) {
    FindKey(body, field).Some? && var s := SkipValue(body, FindKey(body, field).value); s.Skipped? && ColonBehind(body, s.p)
  }

  /** The other field is there as before, and reads as before. */
  ghost predicate Same(body: string, text: string, other: string) {
    && (FindKey(text, other).Some? <==> FindKey(body, other).Some?)
    && forall outLen: nat :: U.Read(text, other, outLen) == U.Read(body, other, outLen)
  }

  /** Replacing a field's value leaves every other field as it was, whether it is there or not. */
  lemma ReplaceKeepsOthers(body: string, field: string, value: string, outCap: nat, other: string)
    requires U.Upsert(body, field, value, outCap).Written? && FindKey(body, field).Some? && TidyObject(body)
    requires PlainName(field) && PlainName(other) && other != field && !ColonFollows(body, field)
    ensures Same(body, U.Upsert(body, field, value, outCap).text, other)
  {
    hide FindFrom, U.Upsert, DecodeBody, Tidy, SkipValue, ColonBehind, Quote, ParseString;
    var text, v := U.Upsert(body, field, value, outCap).text, FindKey(body, field).value;
    ReplacedText(body, field, value, outCap);
    var e, p := SkipValue(body, v).p, BodyStart(body);
    ReplacedParts(body, text, v, value, e);
    var open := SearchStaysTidy(body, field, p, 0, [Curly]);
    SameStart(body, text, field, v);
    SearchMeets(body, text, field, other, p, 0, v);
    SearchesGoOn(body, text, v, value, e, other, open);
    var k := v + |Quote(value)| - e;
    SearchMoves(body, text, e, k, other, e, 0);
    forall outLen: nat ensures U.Read(text, other, outLen) == U.Read(body, other, outLen) {
      if FindKey(body, other).Some? {
        KeyIsInText(body, other);
        if FindKey(body, other) == FindFrom(body, other, v, 0) && FindKey(text, other) == FindFrom(text, other, v, 0) {
          ParsingMoves(body, text, e, k, FindKey(body, other).value, outLen);
        } else {
          ParsesAlike(body, text, FindKey(body, other).value, v, outLen);
        }
      }
    }
  }

  // ---------------------------------------------------------------- a colon behind the value

  /** A name that is in no text of up to `n` characters. */
  function Fresh(n: nat): (s: string)
    ensures |s| == n + 1 && PlainName(s)
  {
    seq(n + 1, i => 'x')
  }

  lemma {:induction false} FreshQuoted(s: string)
    requires forall i :: 0 <= i < |s| ==> s[i] == 'x'
    ensures Escape(s) == s
  {
    if s != [] {
      FreshQuoted(s[1..]);
      assert s == [s[0]] + s[1..];
    }
  }

  lemma LongKeyIsAbsent(t: string, key: string)
    requires |t| < |key|
    ensures FindKey(t, key).None?
  {
    if FindKey(t, key).Some? {
      var colon := U.FoundBehindColon(t, key, BodyStart(t), 0);
    }
  }

  lemma FreshValueIsKey(text: string, v: nat, n: nat)
    requires HasAt(text, v, Quote(Fresh(n))) && ColonBehind(text, v + |Quote(Fresh(n))|)
    ensures v < |text| && text[v] == '"' && ValueAt(text, Fresh(n), v).Some?
  {
    var x := Fresh(n);
    FreshQuoted(x);
    QuoteParts(text, v, x);
    forall i: nat | i < |x| ensures text[v + 1 + i] == x[i] {
      assert CharAt(text, v + 1, x, i);
    }
    assert text[v + 1..v + 1 + |x|] == x;
  }

  /** With a colon behind the value, a new value is taken for a field's name. */
  lemma ColonMakesKey(body: string, field: string, outCap: nat)
    requires U.Upsert(body, field, Fresh(|body|), outCap).Written? && ColonFollows(body, field) && PlainName(field)
    requires field != Fresh(|body|)
    ensures FindKey(body, Fresh(|body|)).None?
    ensures FindKey(U.Upsert(body, field, Fresh(|body|), outCap).text, Fresh(|body|)).Some?
  {
    hide U.Upsert, SkipValue, ColonBehind, Quote, Fresh, HasAt, ValueAt;
    var x, v := Fresh(|body|), FindKey(body, field).value;
    var text := U.Upsert(body, field, x, outCap).text;
    ReplacedText(body, field, x, outCap);
    var e := SkipValue(body, v).p;
    ReplacedParts(body, text, v, x, e);
    LongKeyIsAbsent(body, x);
    SameStart(body, text, field, v);
    SearchMeets(body, text, field, x, BodyStart(body), 0, v);
    ColonMoves(body, text, e, v + |Quote(x)| - e);
    FreshValueIsKey(text, v, |body|);
  }

  ghost predicate KeepsOthers(body: string, field: string) {
    forall value: string, outCap: nat, other: string
      {:trigger Same(body, U.Upsert(body, field, value, outCap).text, other)} ::
      U.Upsert(body, field, value, outCap).Written? && PlainName(other) && other != field ==>
        Same(body, U.Upsert(body, field, value, outCap).text, other)
  }

  /** Replacing a value keeps all the other fields, whatever the new value, exactly if no colon follows the old one. */
  lemma KeepsOthersIff(body: string, field: string)
    requires TidyObject(body) && PlainName(field) && FindKey(body, field).Some? && U.Site(body, field).Written?
    ensures KeepsOthers(body, field) <==> !ColonFollows(body, field)
  {
    hide Same, ColonFollows, TidyObject, FindKey, U.Site;
    if !ColonFollows(body, field) {
      forall value: string, outCap: nat, other: string
        | U.Upsert(body, field, value, outCap).Written? && PlainName(other) && other != field
        ensures Same(body, U.Upsert(body, field, value, outCap).text, other)
      {
        ReplaceKeepsOthers(body, field, value, outCap, other);
      }
    } else {
      ShortField(body, field);
      var x := Fresh(|body|);
      var outCap := |U.Before(body, field) + Quote(x) + U.After(body, field)| + 1;
      assert U.Upsert(body, field, x, outCap).Written?;
      ColonMakesKey(body, field, outCap);
      assert !Same(body, U.Upsert(body, field, x, outCap).text, x) by {
        NotSame(body, U.Upsert(body, field, x, outCap).text, x);
      }
    }
  }

  lemma NotSame(body: string, text: string, other: string)
    requires FindKey(body, other).None? && FindKey(text, other).Some?
    ensures !Same(body, text, other)
  {
  }

  lemma ShortField(body: string, field: string)
    requires FindKey(body, field).Some?
    ensures |field| <= |body|
  {
    if |body| < |field| {
      LongKeyIsAbsent(body, field);
    }
  }

  /** {"f":"x":"y"} has a field `x`, until `f` gets another value. */
  lemma ColonTextLosesField(t: string)
    requires t == "{\"f\":\"x\":\"y\"}"
    ensures TidyObject(t) && ColonFollows(t, "f")
    ensures FindKey(t, "x").Some? && !KeepsOthers(t, "f")
  {
    hide Tidy, KeyAt, FindFrom, KeepsOthers, TidyObject;
    ColonTextIsTidy(t);
    ColonTextKeys(t);
    FindsAt(t, "f", 1);
    ShortString(t, 1, 3);
    ShortString(t, 5, 7);
    assert ValueAt(t, "f", 1) == Some(5);
    OtherKeyIsNone(t, "f", "x", 1);
    SearchPassesKey(t, "f", "x", 1);
    FindsAt(t, "x", 5);
    KeepsOthersIff(t, "f");
  }

  lemma FindsAt(t: string, key: string, p: nat)
    requires p < |t| && t[p] == '"' && ValueAt(t, key, p).Some?
    ensures FindFrom(t, key, p, 0) == ValueAt(t, key, p)
  {
  }

  lemma ColonTextKeys(t: string)
    requires t == "{\"f\":\"x\":\"y\"}"
    ensures KeyAt(t, "f", 1) && KeyAt(t, "x", 5)
  {
  }

  lemma ColonTextIsTidy(t: string)
    requires t == "{\"f\":\"x\":\"y\"}"
    ensures TidyObject(t)
  {
    hide ScalarEnd, SkipQuoted;
    var open := [Curly];
    assert Tidy(t, 13, [], Unbracketed) && open[1..] == [];
    assert Tidy(t, 12, open, Unbracketed);
    ShortString(t, 9, 11);
    assert Tidy(t, 9, open, Unbracketed);
    assert SkipWs(t, 9) == 9 && Tidy(t, 8, open, Unbracketed);
    ShortString(t, 5, 7);
    assert Tidy(t, 5, open, Unbracketed);
    assert SkipWs(t, 5) == 5 && Tidy(t, 4, open, Unbracketed);
    ShortString(t, 1, 3);
    assert Tidy(t, 1, open, Unbracketed);
  }

  lemma SameStart(t: string, u: string, key: string, v: nat)
    requires FindKey(t, key) == Some(v) && U.Alike(t, u, v)
    ensures BodyStart(u) == BodyStart(t) <= v
  {
    var p := BodyStart(t);
    var colon := U.FoundBehindColon(t, key, p, 0);
    U.SkipWsAlike(t, u, v, 0);
  }

  // ---------------------------------------------------------------- the search is reading fields

  /** Fields one after the other: each a string, a colon and a value; and no bracket behind the object. */
  predicate Fields(t: string, p: nat)
    requires p <= |t|
    decreases |t| - p
  {
    var q := SkipWs(t, p);
    && q < |t|
    && if t[q] == '}' then NoBracket(t, q + 1, |t|)
       else if t[q] == ',' then Fields(t, q + 1)
       else
         && t[q] == '"' && ColonBehind(t, SkipQuoted(t, q))
         && var v := ValueBehind(t, q);
            v < |t| && SkipValue(t, v).Skipped? && SkipValue(t, v).ok && Fields(t, SkipValue(t, v).p)
  }

  /** Where the value of the field at `q` begins. */
  function ValueBehind(t: string, q: nat): (v: nat)
    requires q < |t| && t[q] == '"' && ColonBehind(t, SkipQuoted(t, q))
    ensures q < v <= |t| && SkipWs(t, v) == v
  {
    SkipWs(t, SkipWs(t, SkipQuoted(t, q)) + 1)
  }

  /** The value of the first field with this name. */
  function FieldAt(t: string, key: string, p: nat): Option<nat>
    requires p <= |t| && Fields(t, p)
    decreases |t| - p
  {
    var q := SkipWs(t, p);
    if t[q] == '}' then None
    else if t[q] == ',' then FieldAt(t, key, q + 1)
    else if t[q..SkipQuoted(t, q)] == "\"" + key + "\"" then Some(ValueBehind(t, q))
    else FieldAt(t, key, SkipValue(t, ValueBehind(t, q)).p)
  }

  lemma NameIsKey(t: string, key: string, q: nat)
    requires q < |t| && t[q] == '"' && PlainName(key)
    ensures KeyAt(t, key, q) <==> t[q..SkipQuoted(t, q)] == "\"" + key + "\""
  {
    var e, s := SkipQuoted(t, q), "\"" + key + "\"";
    QuotedMoves(t, q);
    if KeyAt(t, key, q) {
      KeyIsString(t, key, q);
      assert t[q..e] == [t[q]] + t[q + 1..q + 1 + |key|] + [t[q + 1 + |key|]];
    }
    if t[q..e] == s {
      assert e == q + |key| + 2;
      assert t[q + 1..e - 1] == s[1..|s| - 1] == key;
      assert t[e - 1] == s[|s| - 1];
    }
  }

  /** Counting brackets finds the same value as reading the fields, and none but the object's own. */
  lemma {:induction false} SearchReadsFields(t: string, key: string, p: nat)
    requires p <= |t| && Tidy(t, p, [Curly], Unbracketed) && Fields(t, p) && PlainName(key)
    ensures FindFrom(t, key, p, 0) == FieldAt(t, key, p)
    decreases |t| - p
  {
    hide StringFits, FindFrom, SkipValue, ScalarEnd, Plain, SkipQuoted, KeyAt;
    var q := SkipWs(t, p);
    SearchPassesWs(t, key, p, 0);
    TidyPastWs(t, p, [Curly], Unbracketed);
    if t[q] == '}' {
      SearchOpens(t, key, q, 0);
      SearchReadsOn(t, key, q + 1, |t|, -1);
      SearchEnds(t, key, -1);
    } else if t[q] == ',' {
      SearchPassesMark(t, key, q, 0);
      SearchPassesWs(t, key, q + 1, 0);
      SearchReadsFields(t, key, q + 1);
    } else {
      NameIsKey(t, key, q);
      FieldIsRead(t, key, q);
      if !KeyAt(t, key, q) {
        SearchReadsFields(t, key, SkipValue(t, ValueBehind(t, q)).p);
      }
    }
  }

  lemma SearchEnds(t: string, key: string, depth: int)
    ensures FindFrom(t, key, |t|, depth) == None
  {
  }

  lemma FieldIsRead(t: string, key: string, q: nat)
    requires q < |t| && t[q] == '"' && Tidy(t, q, [Curly], Unbracketed) && Fields(t, q) && PlainName(key)
    ensures KeyAt(t, key, q) ==> FindFrom(t, key, q, 0) == Some(ValueBehind(t, q))
    ensures var e := SkipValue(t, ValueBehind(t, q)).p;
      && Tidy(t, e, [Curly], Unbracketed)
      && (!KeyAt(t, key, q) ==> FindFrom(t, key, q, 0) == FindFrom(t, key, e, 0))
  {
    hide FindFrom, SkipValue, ScalarEnd, Plain, SkipQuoted, KeyAt;
    var k := SkipQuoted(t, q);
    var c, v, e := SkipWs(t, k), ValueBehind(t, q), SkipValue(t, ValueBehind(t, q)).p;
    ValueIsTidy(t, q);
    QuotedMoves(t, q);
    SkipMoves(t, v);
    if KeyAt(t, key, q) {
      KeyIsString(t, key, q);
      FindsAt(t, key, q);
    } else {
      StringIsPassed(t, key, q);
      SearchPassesWs(t, key, k, 0);
      SearchPassesMark(t, key, c, 0);
    }
    if t[v] == '"' {
      StringIsSkipped(t, v);
      NoColonAfter(t, e);
      NoKeyWithoutColon(t, key, v);
    }
    SearchPassesValue(t, key, v, 0, [Curly], e);
  }

  lemma NoColonAfter(t: string, e: nat)
    requires e <= |t| && Fields(t, e)
    ensures !ColonBehind(t, e)
  {
  }

  lemma ValueIsTidy(t: string, q: nat)
    requires q < |t| && t[q] == '"' && Tidy(t, q, [Curly], Unbracketed) && ColonBehind(t, SkipQuoted(t, q))
    ensures var v := ValueBehind(t, q);
      Tidy(t, v, [Curly], Unbracketed) && (v < |t| ==> !IsWs(t[v]) && t[v] != ':')
  {
    TidyPastWs(t, SkipQuoted(t, q), [Curly], Unbracketed);
  }

  /** On an object whose nested strings hold no brackets, jsonFindKey gives the value of the first field with the name. */
  lemma FindKeyReadsFields(t: string, key: string)
    requires TidyObject(t) && Fields(t, BodyStart(t)) && PlainName(key)
    ensures FindKey(t, key) == FieldAt(t, key, BodyStart(t))
  {
    SearchReadsFields(t, key, BodyStart(t));
  }
}

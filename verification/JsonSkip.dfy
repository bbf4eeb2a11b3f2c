/**
 When skipping a JSON value never ends (jsonSkipValue, jsonSkipObject and jsonSkipArray of
 lib/Lightnet/Utils/SimpleJson.hpp), and texts on which it always does.
 */
module JsonSkips {
  import opened Json
  import U = JsonUpsert

  datatype Bracket = Curly | Square

  // ---------------------------------------------------------------- one pass with a stack

  /** Behind the value at `v`, if it is a string or a scalar; else inside it, with its bracket open. */
  function Enter(t: string, v: nat, open: seq<Bracket>): (r: (nat, seq<Bracket>))
    requires v < |t|
    ensures v <= r.0 <= |t|
    ensures v == r.0 ==> t[v] == ',' || t[v] == '}' || t[v] == ']' || IsWs(t[v])
  {
    if t[v] == '"' then (SkipQuoted(t, v), open)
    else if t[v] == '{' then (v + 1, [Curly] + open)
    else if t[v] == '[' then (v + 1, [Square] + open)
    else (ScalarEnd(t, v), open)
  }

  /**
   Reading on from `p` with these brackets open, the innermost first: a closing brace is met
   where the innermost open bracket is a square one. The pass ends when all are closed, at the end
   of the text, and where an object goes on with neither a string nor a colon.
   */
  predicate MeetsStray(t: string, p: nat, open: seq<Bracket>)
    requires p <= |t|
    decreases |t| - p
  {
    var q := SkipWs(t, p);
    if open == [] || q == |t| then false
    else if t[q] == ',' then MeetsStray(t, q + 1, open)
    else if open[0] == Square then
      if t[q] == '}' then true
      else if t[q] == ']' then MeetsStray(t, q + 1, open[1..])
      else MeetsStray(t, Enter(t, q, open).0, Enter(t, q, open).1)
    else if t[q] == '}' then MeetsStray(t, q + 1, open[1..])
    else if t[q] == '"' then MeetsStray(t, SkipQuoted(t, q), open)
    else if t[q] != ':' then false
    else
      var v := SkipWs(t, q + 1);
      v < |t| && MeetsStray(t, Enter(t, v, open).0, Enter(t, v, open).1)
  }

  /** A stray closing brace in the value behind `p`. */
  predicate Stray(t: string, p: nat)
    requires p <= |t|
  {
    var v := SkipWs(t, p);
    v < |t| && MeetsStray(t, Enter(t, v, []).0, Enter(t, v, []).1)
  }

  /** What is still to come of a pass when a skip has ended like this. */
  predicate Onward(t: string, s: Skip, open: seq<Bracket>)
    requires s.Skipped? ==> s.p <= |t|
  {
    match s
    case Spinning => true
    case Skipped(ok, e) => ok && MeetsStray(t, e, open)
  }

  lemma SkipPastWs(t: string, p: nat)
    requires p <= |t|
    ensures SkipValue(t, p) == SkipValue(t, SkipWs(t, p))
  {
    var v := SkipWs(t, p);
    assert SkipWs(t, v) == v;
  }

  lemma {:induction false} ValueFollowsStack(t: string, v: nat, open: seq<Bracket>)
    requires v < |t| && !IsWs(t[v])
    ensures Onward(t, SkipValue(t, v), open) <==> MeetsStray(t, Enter(t, v, open).0, Enter(t, v, open).1)
    decreases |t| - v, 0
  {
    if t[v] == '{' {
      ObjectFollowsStack(t, v + 1, open);
    } else if t[v] == '[' {
      ArrayFollowsStack(t, v + 1, open);
    }
  }

  lemma {:induction false} ObjectFollowsStack(t: string, p: nat, open: seq<Bracket>)
    requires p <= |t|
    ensures Onward(t, SkipObject(t, p), open) <==> MeetsStray(t, p, [Curly] + open)
    decreases |t| - p, 1
  {
    hide Enter, SkipValue, SkipArray;
    var all, q := [Curly] + open, SkipWs(t, p);
    assert all[0] == Curly && all[1..] == open;
    if q == |t| {
    } else if t[q] == ',' {
      ObjectFollowsStack(t, q + 1, open);
    } else if t[q] == '"' {
      ObjectFollowsStack(t, SkipQuoted(t, q), open);
    } else if t[q] == ':' {
      FieldFollowsStack(t, p, open);
    }
  }

  /** The same, at the colon of a field. */
  lemma {:induction false} FieldFollowsStack(t: string, p: nat, open: seq<Bracket>)
    requires p <= |t| && SkipWs(t, p) < |t| && t[SkipWs(t, p)] == ':'
    ensures Onward(t, SkipObject(t, p), open) <==> MeetsStray(t, p, [Curly] + open)
    decreases |t| - p, 0
  {
    hide Enter, SkipArray, ScalarEnd, SkipQuoted;
    var all, q := [Curly] + open, SkipWs(t, p);
    assert all[0] == Curly;
    SkipPastWs(t, q + 1);
    var v := SkipWs(t, q + 1);
    if v < |t| {
      ValueFollowsStack(t, v, all);
      var s := SkipValue(t, v);
      if s.Skipped? && s.ok {
        ObjectFollowsStack(t, s.p, open);
      }
    }
  }

  lemma {:induction false} ArrayFollowsStack(t: string, p: nat, open: seq<Bracket>)
    requires p <= |t|
    ensures Onward(t, SkipArray(t, p), open) <==> MeetsStray(t, p, [Square] + open)
    decreases |t| - p, 1
  {
    var all, q := [Square] + open, SkipWs(t, p);
    assert all[0] == Square && all[1..] == open;
    if q == |t| {
    } else if t[q] == ',' {
      ArrayFollowsStack(t, q + 1, open);
    } else if t[q] == '}' {
      assert ScalarEnd(t, q) == q && SkipWs(t, q) == q;
    } else if t[q] != ']' {
      ValueFollowsStack(t, q, all);
      ElementMoves(t, q);
      var s := SkipValue(t, q);
      if s.Skipped? && s.ok {
        ArrayFollowsStack(t, s.p, open);
      }
    }
  }

  lemma ElementMoves(t: string, q: nat)
    requires q < |t| && !IsWs(t[q]) && t[q] != ',' && t[q] != '}' && t[q] != ']'
    ensures SkipWs(t, q) == q
    ensures SkipValue(t, q).Skipped? ==> q < SkipValue(t, q).p
  {
  }

  /** A skip goes on for ever exactly when one pass with a stack of brackets meets a stray brace. */
  lemma SpinsIffStray(t: string, p: nat)
    requires p <= |t|
    ensures SkipValue(t, p) == Spinning <==> Stray(t, p)
  {
    var v := SkipWs(t, p);
    if v < |t| {
      SkipPastWs(t, p);
      ValueFollowsStack(t, v, []);
    }
  }

  /** So an upsert hangs exactly when the field is found and a stray brace is in its value. */
  lemma UpsertHangsIff(body: string, field: string, value: string, outCap: nat)
    ensures U.Upsert(body, field, value, outCap).Hangs?
       <==> FindKey(body, field).Some? && Stray(body, FindKey(body, field).value)
  {
    if FindKey(body, field).Some? {
      SpinsIffStray(body, FindKey(body, field).value);
    }
  }

  /** Decoding a string and skipping it end at the same quote. */
  lemma {:induction false} DecodedEnd(t: string, p: nat)
    requires p <= |t| && DecodeBody(t, p).Some?
    ensures QuoteEnd(t, p) == DecodeBody(t, p).value.1
    decreases |t| - p
  {
    if t[p] == '\\' {
      var q := DecodeEscape(t, p + 1).value.1;
      EscapeIsSkipped(t, p);
      DecodedEnd(t, q);
    } else if t[p] != '"' {
      DecodedEnd(t, p + 1);
    }
  }

  lemma EscapeIsSkipped(t: string, p: nat)
    requires p < |t| && t[p] == '\\' && DecodeEscape(t, p + 1).Some?
    ensures QuoteEnd(t, p) == QuoteEnd(t, DecodeEscape(t, p + 1).value.1)
  {
    if Unescape(t[p + 1]).None? {
      HexIsSkipped(t, p + 2);
      HexIsSkipped(t, p + 3);
      HexIsSkipped(t, p + 4);
      HexIsSkipped(t, p + 5);
    }
  }

  lemma HexIsSkipped(t: string, p: nat)
    requires p < |t| && HexVal(t[p]) >= 0
    ensures QuoteEnd(t, p) == QuoteEnd(t, p + 1)
  {
  }

  // ---------------------------------------------------------------- texts on which a skip always ends

  /** What is asked of the strings of a text, beside their closing quotes. */
  datatype Strings = AnyString | Decodable | Unbracketed

  predicate StringFits(t: string, p: nat, open: seq<Bracket>, strings: Strings)
    requires p < |t|
  {
    match strings
    case AnyString => true
    case Decodable => DecodeBody(t, p + 1).Some?
    case Unbracketed => |open| != 1 ==> NoBracket(t, p, SkipQuoted(t, p))
  }

  predicate IsBracket(c: char) {
    c == '{' || c == '[' || c == '}' || c == ']'
  }

  predicate NoBracket(t: string, p: nat, e: nat)
    requires e <= |t|
  {
    forall i :: p <= i < e ==> !IsBracket(t[i])
  }

  predicate Plain(t: string, p: nat, e: nat)
    requires e <= |t|
  {
    forall i :: p <= i < e ==> !IsBracket(t[i]) && t[i] != '"' && t[i] != ':'
  }

  /**
   From `p` on, with these brackets open: each closing bracket outside strings matches the innermost
   open one, colons stand one at a time and directly in objects, and scalars hold no quote, colon
   or bracket. Every JSON text is of this kind, and so is any beginning of one.
   */
  predicate Tidy(t: string, p: nat, open: seq<Bracket>, strings: Strings)
    requires p <= |t|
    decreases |t| - p
  {
    if p == |t| then true
    else if IsWs(t[p]) || t[p] == ',' then Tidy(t, p + 1, open, strings)
    else if t[p] == '"' then StringFits(t, p, open, strings) && Tidy(t, SkipQuoted(t, p), open, strings)
    else if t[p] == '{' then Tidy(t, p + 1, [Curly] + open, strings)
    else if t[p] == '[' then Tidy(t, p + 1, [Square] + open, strings)
    else if t[p] == '}' then open != [] && open[0] == Curly && Tidy(t, p + 1, open[1..], strings)
    else if t[p] == ']' then open != [] && open[0] == Square && Tidy(t, p + 1, open[1..], strings)
    else if t[p] == ':' then
      var v := SkipWs(t, p + 1);
      open != [] && open[0] == Curly && (v < |t| ==> t[v] != ':') && Tidy(t, v, open, strings)
    else
      var e := ScalarEnd(t, p);
      Plain(t, p, e) && Tidy(t, e, open, strings)
  }

  lemma {:induction false} TidyPastWs(t: string, p: nat, open: seq<Bracket>, strings: Strings)
    requires p <= |t|
    ensures Tidy(t, p, open, strings) <==> Tidy(t, SkipWs(t, p), open, strings)
    decreases |t| - p
  {
    if p < |t| && IsWs(t[p]) {
      TidyPastWs(t, p + 1, open, strings);
    }
  }

  /** Tidy from `p` on, whatever is open there. */
  ghost predicate InPhase(t: string, p: nat, strings: Strings) {
    p <= |t| && exists open :: Tidy(t, p, open, strings)
  }

  /** The skip has ended, and a successful one with the same brackets open as before. */
  ghost predicate Ended(t: string, s: Skip, open: seq<Bracket>, strings: Strings) {
    s.Skipped? && InPhase(t, s.p, strings) && (s.ok ==> Tidy(t, s.p, open, strings))
  }

  lemma {:induction false} TidyValueEnds(t: string, v: nat, open: seq<Bracket>, strings: Strings)
    requires v < |t| && !IsWs(t[v]) && t[v] != ':' && Tidy(t, v, open, strings)
    ensures Ended(t, SkipValue(t, v), open, strings)
    decreases |t| - v, 0
  {
    hide StringFits;
    if t[v] == '{' {
      TidyObjectEnds(t, v + 1, open, strings);
    } else if t[v] == '[' {
      TidyArrayEnds(t, v + 1, open, strings);
    }
  }

  lemma {:induction false} TidyObjectEnds(t: string, p: nat, open: seq<Bracket>, strings: Strings)
    requires p <= |t| && Tidy(t, p, [Curly] + open, strings)
    ensures Ended(t, SkipObject(t, p), open, strings)
    decreases |t| - p, 1
  {
    hide StringFits, SkipArray, SkipValue, ScalarEnd, Plain;
    var all, q := [Curly] + open, SkipWs(t, p);
    assert all[0] == Curly && all[1..] == open;
    TidyPastWs(t, p, all, strings);
    if q == |t| {
    } else if t[q] == ',' {
      TidyObjectEnds(t, q + 1, open, strings);
    } else if t[q] == '"' {
      TidyObjectEnds(t, SkipQuoted(t, q), open, strings);
    } else if t[q] == ':' {
      var v := SkipWs(t, q + 1);
      SkipPastWs(t, q + 1);
      SkipAtEnd(t);
      if v < |t| {
        TidyValueEnds(t, v, all, strings);
        if SkipValue(t, v).ok {
          TidyObjectEnds(t, SkipValue(t, v).p, open, strings);
        }
      }
    }
  }

  lemma SkipAtEnd(t: string)
    ensures SkipValue(t, |t|) == Skipped(false, |t|)
  {
  }

  lemma {:induction false} TidyArrayEnds(t: string, p: nat, open: seq<Bracket>, strings: Strings)
    requires p <= |t| && Tidy(t, p, [Square] + open, strings)
    ensures Ended(t, SkipArray(t, p), open, strings)
    decreases |t| - p, 1
  {
    hide StringFits, ScalarEnd, Plain, SkipObject;
    var all, q := [Square] + open, SkipWs(t, p);
    assert all[0] == Square && all[1..] == open;
    TidyPastWs(t, p, all, strings);
    if q == |t| {
      SkipAtEnd(t);
    } else if t[q] == ',' {
      TidyArrayEnds(t, q + 1, open, strings);
    } else if t[q] != ']' {
      TidyValueEnds(t, q, all, strings);
      ElementMoves(t, q);
      if SkipValue(t, q).ok {
        TidyArrayEnds(t, SkipValue(t, q).p, open, strings);
      }
    }
  }

  /** Wherever a value begins in a tidy text, its skip ends, and a successful one right behind it. */
  lemma TidySkipEnds(t: string, p: nat, open: seq<Bracket>, strings: Strings)
    requires p <= |t| && Tidy(t, p, open, strings) && (SkipWs(t, p) < |t| ==> t[SkipWs(t, p)] != ':')
    ensures Ended(t, SkipValue(t, p), open, strings)
  {
    TidyPastWs(t, p, open, strings);
    SkipPastWs(t, p);
    SkipAtEnd(t);
    if SkipWs(t, p) < |t| {
      TidyValueEnds(t, SkipWs(t, p), open, strings);
    }
  }

  // ---------------------------------------------------------------- when an upsert returns

  /** An object in which only the strings of its own fields hold brackets. */
  predicate TidyObject(t: string) {
    var p := SkipWs(t, 0);
    p < |t| && t[p] == '{' && Tidy(t, p + 1, [Curly], Unbracketed)
  }

  /** Below the top level the search for a key reads strings like anything else. */
  lemma {:induction false} SearchReadsOn(t: string, key: string, p: nat, e: nat, depth: int)
    requires p <= e <= |t| && depth != 0 && NoBracket(t, p, e)
    ensures FindFrom(t, key, p, depth) == FindFrom(t, key, e, depth)
    decreases e - p
  {
    if p < e {
      assert !IsBracket(t[p]);
      SearchReadsOn(t, key, p + 1, e, depth);
    }
  }

  lemma {:induction false} PlainKeyEnds(t: string, p: nat, e: nat)
    requires p <= e < |t| && t[e] == '"'
    requires forall i :: p <= i < e ==> t[i] != '"' && t[i] != '\\'
    ensures QuoteEnd(t, p) == e
    decreases e - p
  {
    if p < e {
      PlainKeyEnds(t, p + 1, e);
    }
  }

  lemma KeyIsString(t: string, key: string, p: nat)
    requires p < |t| && t[p] == '"' && KeyAt(t, key, p) && '"' !in key && '\\' !in key
    ensures SkipQuoted(t, p) == p + |key| + 2
  {
    var e := p + 1 + |key|;
    forall i | p + 1 <= i < e ensures t[i] != '"' && t[i] != '\\' {
      assert t[i] == t[p + 1..e][i - p - 1] && key[i - p - 1] in key;
    }
    PlainKeyEnds(t, p + 1, e);
  }

  /** The value of a key that the text holds verbatim is behind a string and a colon. */
  lemma FoundValueIsTidy(t: string, key: string, p: nat, open: seq<Bracket>)
    requires p < |t| && t[p] == '"' && Tidy(t, p, open, Unbracketed)
    requires '"' !in key && '\\' !in key && ValueAt(t, key, p).Some?
    ensures var v := ValueAt(t, key, p).value;
      Tidy(t, v, open, Unbracketed) && SkipWs(t, v) == v && (v < |t| ==> t[v] != ':')
  {
    KeyIsString(t, key, p);
    TidyPastWs(t, p + |key| + 2, open, Unbracketed);
  }

  /** Inside a scalar the text is still tidy. */
  lemma TidyInScalar(t: string, p: nat, open: seq<Bracket>, strings: Strings)
    requires p < |t| && Tidy(t, p, open, strings) && !IsWs(t[p]) && t[p] != ',' && t[p] != ':'
    requires !IsBracket(t[p]) && t[p] != '"'
    ensures Tidy(t, p + 1, open, strings)
  {
    var e := ScalarEnd(t, p);
    if p + 1 < e {
      assert Plain(t, p, e) && ScalarEnd(t, p + 1) == e;
      assert !IsBracket(t[p + 1]) && t[p + 1] != '"' && t[p + 1] != ':';
    }
  }

  /** The search finds a value of the top level, where the text is still tidy. */
  lemma {:induction false} SearchStaysTidy(t: string, key: string, p: nat, depth: int, open: seq<Bracket>)
    returns (there: seq<Bracket>)
    requires p <= |t| && Tidy(t, p, open, Unbracketed) && |open| == depth + 1
    requires '"' !in key && '\\' !in key && FindFrom(t, key, p, depth).Some?
    ensures |there| == 1 && Tidy(t, FindFrom(t, key, p, depth).value, there, Unbracketed)
    ensures var v := FindFrom(t, key, p, depth).value;
      SkipWs(t, v) == v && (v < |t| ==> t[v] != ':')
    decreases |t| - p
  {
    if t[p] == '{' {
      there := SearchStaysTidy(t, key, p + 1, depth + 1, [Curly] + open);
    } else if t[p] == '[' {
      there := SearchStaysTidy(t, key, p + 1, depth + 1, [Square] + open);
    } else if t[p] == '}' || t[p] == ']' {
      there := SearchStaysTidy(t, key, p + 1, depth - 1, open[1..]);
    } else if t[p] == '"' {
      if depth == 0 && ValueAt(t, key, p).Some? {
        FoundValueIsTidy(t, key, p, open);
        there := open;
      } else {
        if depth != 0 {
          SearchReadsOn(t, key, p, SkipQuoted(t, p), depth);
        }
        there := SearchStaysTidy(t, key, SkipQuoted(t, p), depth, open);
      }
    } else {
      if t[p] == ':' {
        TidyPastWs(t, p + 1, open, Unbracketed);
      } else if !IsWs(t[p]) && t[p] != ',' {
        TidyInScalar(t, p, open, Unbracketed);
      }
      there := SearchStaysTidy(t, key, p + 1, depth, open);
    }
  }

  /** On such an object an upsert always returns. */
  lemma UpsertReturns(body: string, field: string, value: string, outCap: nat)
    requires TidyObject(body) && '"' !in field && '\\' !in field
    ensures !U.Upsert(body, field, value, outCap).Hangs?
  {
    if FindKey(body, field).Some? {
      var open := SearchStaysTidy(body, field, BodyStart(body), 0, [Curly]);
      TidySkipEnds(body, FindKey(body, field).value, open, Unbracketed);
    }
  }

  // ---------------------------------------------------------------- texts on which it does not

  /** The brackets outside strings match, but the scalar `a{` ends at the brace: a stray one. */
  lemma MatchedBracketsCanSpin()
    ensures SkipValue("[a{}]", 0) == Spinning
    ensures !Tidy("[a{}]", 0, [], AnyString)
  {
    var t := "[a{}]";
    assert ScalarEnd(t, 3) == 3 && ScalarEnd(t, 2) == 3 && ScalarEnd(t, 1) == 3;
    assert SkipArray(t, 3) == Spinning;
    assert t[2] == '{' && !Plain(t, 1, 3);
  }

  lemma StrayBraceHangs(value: string, outCap: nat)
    ensures U.Upsert("{\"a\":[}]}", "a", value, outCap).Hangs?
  {
    var t := "{\"a\":[}]}";
    assert KeyAt(t, "a", 1) && ValueAt(t, "a", 1) == Some(5);
    assert FindKey(t, "a") == Some(5);
    assert SkipArray(t, 6) == Spinning;
  }

  /**
   A JSON object on which an upsert hangs. The search counts the bracket inside the first string,
   takes the comma between the strings for a key, and the text of the second string for its value.
   */
  lemma NestedBracketHangs(value: string, outCap: nat)
    ensures Tidy("{\"x\":[\"]\",\":[}\"]}", 0, [], AnyString)
    ensures U.Upsert("{\"x\":[\"]\",\":[}\"]}", ",", value, outCap).Hangs?
  {
    var t := "{\"x\":[\"]\",\":[}\"]}";
    NestedTextIsTidy(t);
    NestedTextSearch(t);
    assert SkipArray(t, 13) == Spinning;
  }

  lemma NestedTextSearch(t: string)
    requires t == "{\"x\":[\"]\",\":[}\"]}"
    ensures FindKey(t, ",") == Some(12)
  {
    hide KeyAt;
    assert ValueAt(t, ",", 8) == Some(12) by {
      assert KeyAt(t, ",", 8) by {
        CommaKey(t, 8);
      }
      assert SkipWs(t, 11) == 11 && SkipWs(t, 12) == 12;
    }
    assert FindFrom(t, ",", 8, 0) == Some(12);
    assert FindFrom(t, ",", 6, 1) == Some(12) by {
      assert FindFrom(t, ",", 7, 1) == Some(12);
    }
    assert FindFrom(t, ",", 4, 0) == Some(12) by {
      assert FindFrom(t, ",", 5, 0) == Some(12);
    }
    ShortString(t, 1, 3);
    assert !KeyAt(t, ",", 1) by {
      CommaKey(t, 1);
    }
    assert FindFrom(t, ",", 1, 0) == Some(12);
    assert SkipWs(t, 0) == 0 && BodyStart(t) == 1;
  }

  lemma CommaKey(t: string, p: nat)
    requires p + 2 < |t|
    ensures KeyAt(t, ",", p) <==> t[p + 1] == ',' && t[p + 2] == '"'
  {
    assert t[p + 1..p + 2] == [t[p + 1]];
  }

  lemma ShortString(t: string, p: nat, e: nat)
    requires p < e < |t| && t[p] == '"' && t[e] == '"'
    requires forall i :: p < i < e ==> t[i] != '"' && t[i] != '\\'
    ensures SkipQuoted(t, p) == e + 1
  {
    PlainKeyEnds(t, p + 1, e);
  }

  lemma NestedTextIsTidy(t: string)
    requires t == "{\"x\":[\"]\",\":[}\"]}"
    ensures Tidy(t, 0, [], AnyString)
  {
    hide ScalarEnd, SkipQuoted;
    var outer, inner := [Curly] + [], [Square] + ([Curly] + []);
    assert Tidy(t, 17, [], AnyString);
    assert Tidy(t, 16, outer, AnyString) by {
      assert outer[1..] == [];
    }
    assert Tidy(t, 15, inner, AnyString) by {
      assert inner[1..] == outer;
    }
    ShortString(t, 10, 14);
    assert Tidy(t, 10, inner, AnyString) && Tidy(t, 9, inner, AnyString);
    ShortString(t, 6, 8);
    assert Tidy(t, 6, inner, AnyString) && Tidy(t, 5, outer, AnyString);
    assert SkipWs(t, 5) == 5 && Tidy(t, 4, outer, AnyString);
    ShortString(t, 1, 3);
    assert Tidy(t, 1, outer, AnyString);
  }
}

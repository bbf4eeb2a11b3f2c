/**
 When reading a selector always returns: its unknown keys are skipped with jsonSkipValue
 (lib/Lightnet/Core/Controller/PanelSelectorParser.hpp), which may go on for ever.
 */
module SelectorSkips {
  import opened Bytes
  import opened Json
  import opened JsonSkips
  import opened Selector
  import opened SelectorGrammar

  // ---------------------------------------------------------------- the cursor stays in phase

  ghost predicate At(t: string, p: nat) {
    InPhase(t, p, Decodable)
  }

  lemma AtWs(t: string, p: nat)
    requires At(t, p)
    ensures At(t, SkipWs(t, p))
  {
    var open :| Tidy(t, p, open, Decodable);
    TidyPastWs(t, p, open, Decodable);
  }

  lemma AtMark(t: string, p: nat)
    requires At(t, p) && p < |t| && (IsBracket(t[p]) || t[p] == ',')
    ensures At(t, p + 1)
  {
    var open :| Tidy(t, p, open, Decodable);
    if t[p] == '{' {
      assert Tidy(t, p + 1, [Curly] + open, Decodable);
    } else if t[p] == '[' {
      assert Tidy(t, p + 1, [Square] + open, Decodable);
    } else if t[p] == ',' {
      assert Tidy(t, p + 1, open, Decodable);
    } else {
      assert Tidy(t, p + 1, open[1..], Decodable);
    }
  }

  lemma AtColon(t: string, p: nat)
    requires At(t, p) && p < |t| && t[p] == ':'
    ensures At(t, SkipWs(t, p + 1))
    ensures SkipWs(t, p + 1) < |t| ==> t[SkipWs(t, p + 1)] != ':'
  {
    var open :| Tidy(t, p, open, Decodable);
    assert Tidy(t, SkipWs(t, p + 1), open, Decodable);
  }

  lemma AtString(t: string, p: nat, len: nat)
    requires At(t, p) && 0 < len && SkipWs(t, p) < |t| && t[SkipWs(t, p)] == '"'
    ensures ReadString(t, p, len).Some? && At(t, ReadString(t, p, len).value.1)
  {
    var q := SkipWs(t, p);
    AtWs(t, p);
    var open :| Tidy(t, q, open, Decodable);
    assert Tidy(t, SkipQuoted(t, q), open, Decodable);
    DecodedEnd(t, q + 1);
  }

  lemma {:induction false} AtDigits(t: string, p: nat, v: nat)
    requires At(t, p) && Digits(t, p, v).Some?
    ensures At(t, Digits(t, p, v).value.1)
    decreases |t| - p
  {
    if p < |t| && IsDigit(t[p]) {
      var open :| Tidy(t, p, open, Decodable);
      TidyInScalar(t, p, open, Decodable);
      AtDigits(t, p + 1, v * 10 + DigitVal(t[p]));
    }
  }

  lemma {:induction false} AtElement(t: string, p: nat)
    requires At(t, p)
    ensures At(t, NextElement(t, p).1)
    decreases |t| - p
  {
    AtWs(t, p);
    var q := SkipWs(t, p);
    if q < |t| && (t[q] == ']' || t[q] == ',') {
      AtMark(t, q);
      if t[q] == ',' {
        AtElement(t, q + 1);
      }
    }
  }

  lemma {:induction false} AtKey(t: string, p: nat)
    requires At(t, p)
    ensures var (key, v) := NextKey(t, p);
      At(t, v) && (key.Some? ==> SkipWs(t, v) == v && (v < |t| ==> t[v] != ':'))
    decreases |t| - p
  {
    AtWs(t, p);
    var q := SkipWs(t, p);
    if q == |t| {
    } else if t[q] == '}' {
      AtMark(t, q);
    } else if t[q] == ',' {
      AtMark(t, q);
      AtKey(t, q + 1);
    } else {
      assert SkipWs(t, q) == q;
      if t[q] == '"' {
        AtString(t, q, KEY_SIZE);
        var c := SkipWs(t, ReadString(t, q, KEY_SIZE).value.1);
        AtWs(t, ReadString(t, q, KEY_SIZE).value.1);
        if c < |t| && t[c] == ':' {
          AtColon(t, c);
        }
      }
    }
  }

  lemma AtSkipped(t: string, v: nat)
    requires At(t, v) && SkipWs(t, v) == v && (v < |t| ==> t[v] != ':')
    ensures SkipValue(t, v).Skipped? && At(t, SkipValue(t, v).p)
  {
    var open :| Tidy(t, v, open, Decodable);
    TidySkipEnds(t, v, open, Decodable);
  }

  lemma {:induction false} AtIndices(t: string, p: nat, room: nat)
    requires At(t, p) && ParseIndices(t, p, room).Some?
    ensures At(t, ParseIndices(t, p, room).value.1)
    decreases |t| - p
  {
    AtElement(t, p);
    var (more, q) := NextElement(t, p);
    if more {
      AtDigits(t, q, 0);
      AtIndices(t, ReadUInt(t, q).value.1, room - 1);
    }
  }

  lemma AtIndexList(t: string, p: nat)
    requires At(t, p) && ParseIndexList(t, p).Some?
    ensures At(t, ParseIndexList(t, p).value.1)
  {
    AtIndices(t, p, SEL_MAX_INDEX_LIST);
  }

  // ---------------------------------------------------------------- reading a selector

  /** The parser has returned, and a tree ends in phase. */
  ghost predicate Returned(t: string, r: Parse) {
    !r.Spin? && (r.Tree? ==> At(t, r.p))
  }

  lemma {:induction false} SelReturns(t: string, p: nat, depth: nat)
    requires At(t, p)
    ensures Returned(t, ParseSel(t, p, depth))
    decreases |t| - p, 1
  {
    hide TokenLeaf, ParseObject;
    AtWs(t, p);
    var q := SkipWs(t, p);
    assert SkipWs(t, q) == q;
    if depth > SEL_STACK_MAX || q == |t| {
    } else if t[q] == '"' {
      AtString(t, q, TOKEN_SIZE);
    } else if t[q] == '[' {
      AtMark(t, q);
      if ParseIndexList(t, q + 1).Some? {
        AtIndexList(t, q + 1);
      }
    } else if t[q] == '{' {
      AtMark(t, q);
      ObjectReturns(t, q + 1, depth, None);
    }
  }

  lemma {:induction false} ObjectReturns(t: string, p: nat, depth: nat, got: Option<Sel>)
    requires At(t, p)
    ensures Returned(t, ParseObject(t, p, depth, got))
    decreases |t| - p, 2
  {
    AtKey(t, p);
    var (key, v) := NextKey(t, p);
    if key.None? {
    } else if key.value.OtherKey? {
      AtSkipped(t, v);
      ObjectReturns(t, SkipValue(t, v).p, depth, got);
    } else if got.None? {
      MemberReturns(t, v, depth, key.value);
      var member := ParseMember(t, v, depth, key.value);
      if member.Tree? {
        ObjectReturns(t, member.p, depth, Some(member.sel));
      }
    }
  }

  lemma {:induction false} MemberReturns(t: string, v: nat, depth: nat, key: Key)
    requires At(t, v)
    ensures Returned(t, ParseMember(t, v, depth, key))
    decreases |t| - v, 3
  {
    if key.NotKey? {
      SelReturns(t, v, depth + 1);
    } else if EnterArray(t, v).Some? {
      AtWs(t, v);
      AtMark(t, SkipWs(t, v));
      var a := EnterArray(t, v).value;
      if !key.ExcludeKey? {
        ListReturns(t, a, depth + 1);
      } else if ParseIndexList(t, a).Some? {
        AtIndexList(t, a);
      }
    }
  }

  lemma {:induction false} ListReturns(t: string, p: nat, depth: nat)
    requires At(t, p)
    ensures var r := ParseList(t, p, depth); !r.SpinAll? && (r.Trees? ==> At(t, r.p))
    decreases |t| - p, 2
  {
    AtElement(t, p);
    var (more, q) := NextElement(t, p);
    if more {
      SelReturns(t, q, depth);
      var first := ParseSel(t, q, depth);
      if first.Tree? {
        ListReturns(t, first.p, depth);
      }
    }
  }

  /** On a tidy text whose strings the reader can decode, reading a selector always returns. */
  lemma ParsingReturns(t: string, p: nat, depth: nat, open: seq<Bracket>)
    requires p <= |t| && Tidy(t, p, open, Decodable)
    ensures !ParseSel(t, p, depth).Spin?
  {
    SelReturns(t, p, depth);
  }

  // ---------------------------------------------------------------- texts on which it does not

  lemma UnknownKeySpins(t: string, p: nat, depth: nat, got: Option<Sel>, v: nat)
    requires p <= v <= |t| && NextKey(t, p) == (Some(OtherKey), v) && SkipValue(t, v) == Spinning
    ensures ParseObject(t, p, depth, got) == Spin
  {
  }

  /** A key of one plain string, with its colon and its value right behind it. */
  lemma PlainKeyReads(t: string, p: nat, key: string)
    requires HasAt(t, p, "\"" + (key + "\"")) && |key| < KEY_SIZE && CStr(key) == key
    requires forall i :: 0 <= i < |key| ==> key[i] != '"' && key[i] != '\\'
    requires p + |key| + 3 < |t| && t[p + |key| + 2] == ':' && !IsWs(t[p + |key| + 3])
    ensures NextKey(t, p) == (Some(KeyOf(key)), p + |key| + 3)
  {
    PlainStringReads(t, p, key, KEY_SIZE);
    assert CharAt(t, p, "\"" + (key + "\""), 0);
    var e := p + |key| + 2;
    assert SkipWs(t, e) == e && SkipWs(t, e + 1) == e + 1;
  }

  lemma ObjectEnters(t: string, p: nat, depth: nat)
    requires p < |t| && t[p] == '{' && depth <= SEL_STACK_MAX
    ensures ParseSel(t, p, depth) == ParseObject(t, p + 1, depth, None)
  {
    hide ParseObject, TokenLeaf, ReadString, ParseIndexList;
  }

  lemma StrayArraySpins(t: string, p: nat)
    requires p + 1 < |t| && t[p] == '[' && t[p + 1] == '}'
    ensures SkipValue(t, p) == Spinning
  {
    SpinsIffStray(t, p);
  }

  lemma StrayBraceSpins()
    ensures ParseSel("{\"x\":[}]}", 0, 0) == Spin
  {
    hide ParseSel, ParseObject, NextKey, HasAt, SkipValue;
    var t := "{\"x\":[}]}";
    var key := "\"" + ("x" + "\"");
    assert t == "{" + key + ":[}]}";
    PartHasAt("{", key, ":[}]}");
    NoNulKept("x");
    PlainKeyReads(t, 1, "x");
    StrayArraySpins(t, 5);
    UnknownKeySpins(t, 1, 0, None, 5);
    ObjectEnters(t, 0, 0);
  }

  lemma {:induction false} NoNulKept(s: string)
    requires forall i :: 0 <= i < |s| ==> s[i] != '\0'
    ensures CStr(s) == s
  {
    if s != [] {
      NoNulKept(s[1..]);
      assert s[0] != '\0' && [s[0]] + s[1..] == s;
    }
  }

  /** {"not":{"any":["all"],"\u00e9,":0,":[}":0}} */
  function UnreadableKey(): string {
    "{" + ("\"not\"" + (":{" + ("\"any\":[" + ("\"all\"" + ("],\"" + ("\\u00e9" + ("," + ("\":0,\"" + ":[}\":0}}"))))))))
  }

  /** What stands where in this text. */
  ghost predicate Unreadable(t: string) {
    && |t| == 43 && HasAt(t, 0, "{") && HasAt(t, 1, "\"not\"") && HasAt(t, 6, ":{") && HasAt(t, 8, "\"any\":[")
    && HasAt(t, 15, "\"all\"") && HasAt(t, 20, "],\"") && HasAt(t, 23, "\\u00e9") && HasAt(t, 29, ",")
    && HasAt(t, 30, "\":0,\"") && HasAt(t, 35, ":[}\":0}}")
  }

  lemma UnreadableParts()
    ensures Unreadable(UnreadableKey())
  {
    hide HasAt;
    var t := UnreadableKey();
    var s9 := "\":0,\"" + ":[}\":0}}";
    var s8 := "," + s9;
    var s7 := "\\u00e9" + s8;
    var s6 := "],\"" + s7;
    var s5 := "\"all\"" + s6;
    var s4 := "\"any\":[" + s5;
    var s3 := ":{" + s4;
    var s2 := "\"not\"" + s3;
    PartHasAt([], t, []);
    assert [] + t + [] == t;
    HasAtParts(t, 0, "{", s2);
    HasAtParts(t, 1, "\"not\"", s3);
    HasAtParts(t, 6, ":{", s4);
    HasAtParts(t, 8, "\"any\":[", s5);
    HasAtParts(t, 15, "\"all\"", s6);
    HasAtParts(t, 20, "],\"", s7);
    HasAtParts(t, 23, "\\u00e9", s8);
    HasAtParts(t, 29, ",", s9);
    HasAtParts(t, 30, "\":0,\"", ":[}\":0}}");
  }

  lemma UnreadableMarks(t: string)
    requires Unreadable(t)
    ensures t[0] == '{' && t[6] == ':' && t[7] == '{' && t[15] == '"' && t[20] == ']' && t[21] == ',' && t[22] == '"'
    ensures t[29] == ',' && t[30] == '"' && t[35] == ':' && t[36] == '[' && t[37] == '}'
  {
    assert CharAt(t, 0, "{", 0) && CharAt(t, 6, ":{", 0) && CharAt(t, 6, ":{", 1) && CharAt(t, 15, "\"all\"", 0);
    assert CharAt(t, 20, "],\"", 0) && CharAt(t, 20, "],\"", 1) && CharAt(t, 20, "],\"", 2) && CharAt(t, 29, ",", 0);
    assert CharAt(t, 30, "\":0,\"", 0);
    assert CharAt(t, 35, ":[}\":0}}", 0) && CharAt(t, 35, ":[}\":0}}", 1) && CharAt(t, 35, ":[}\":0}}", 2);
  }

  /** The object inside: its second key cannot be read, and it ends in the middle of that key. */
  lemma UnreadableInner(t: string)
    requires Unreadable(t)
    ensures ParseObject(t, 8, 1, None) == Tree(Any([Basic(All)] + []), 29)
  {
    hide ParseSel, ParseMember, NextKey, HasAt;
    AnyKeyReads(t, 8);
    UnreadableList(t);
    AnyMemberParses(t, 14, 1, 15, [Basic(All)] + [], 21);
    UnreadableEscape(t);
    assert ParseObject(t, 21, 1, Some(Any([Basic(All)] + []))) == Tree(Any([Basic(All)] + []), 29);
  }

  lemma UnreadableList(t: string)
    requires Unreadable(t)
    ensures ParseList(t, 15, 2) == Trees([Basic(All)] + [], 21)
  {
    hide ParseSel, HasAt;
    UnreadableMarks(t);
    AllTokenParses(t, 15, 2);
    assert NextElement(t, 15) == (true, 15) && NextElement(t, 20) == (false, 21);
    ListParses(t, 15, 15, 2, Basic(All), 20, [], 21);
  }

  lemma UnreadableEscape(t: string)
    requires Unreadable(t)
    ensures NextKey(t, 21) == (None, 29)
  {
    var e := "\\u00e9";
    assert CharAt(t, 23, e, 0) && CharAt(t, 23, e, 1) && CharAt(t, 23, e, 2) && CharAt(t, 23, e, 3);
    assert CharAt(t, 23, e, 4) && CharAt(t, 23, e, 5);
    assert DecodeEscape(t, 24).None? && EscapeStop(t, 24) == 29;
    assert DecodeBody(t, 23).None? && BodyStop(t, 23) == 29;
    UnreadableMarks(t);
    assert NextKey(t, 22) == (None, 29);
  }

  /** Then the text outside the strings is taken for a key, and the inside of a string for its value. */
  lemma UnreadableTail(t: string, got: Sel)
    requires Unreadable(t)
    ensures ParseObject(t, 29, 0, Some(got)) == Spin
  {
    hide ParseSel, ParseObject, HasAt, SkipValue;
    UnreadableMarks(t);
    assert "\":0,\"" == "\"" + (":0," + "\"");
    NoNulKept(":0,");
    PlainKeyReads(t, 30, ":0,");
    assert NextKey(t, 29) == NextKey(t, 30);
    StrayArraySpins(t, 36);
    UnknownKeySpins(t, 29, 0, Some(got), 36);
  }

  lemma MemberThenSpins(t: string, p: nat, depth: nat, v: nat, sel: Sel, e: nat)
    requires p <= v <= |t| && NextKey(t, p) == (Some(NotKey), v) && p <= e <= |t|
    requires ParseMember(t, v, depth, NotKey) == Tree(sel, e) && ParseObject(t, e, depth, Some(sel)) == Spin
    ensures ParseObject(t, p, depth, None) == Spin
  {
  }

  /**
   A JSON text on which reading a selector never returns. The reader does not decode the key with
   an accent and takes the object for finished in the middle of it, so that from there on it
   exchanges the insides and the outsides of strings.
   */
  lemma UnreadableKeySpins()
    ensures ParseSel(UnreadableKey(), 0, 0) == Spin
  {
    hide ParseSel, ParseObject, NextKey, HasAt, SkipValue;
    var t := UnreadableKey();
    UnreadableParts();
    UnreadableMarks(t);
    assert "\"not\"" == "\"" + ("not" + "\"");
    NoNulKept("not");
    PlainKeyReads(t, 1, "not");
    ObjectEnters(t, 7, 1);
    UnreadableInner(t);
    var got := Not(Any([Basic(All)] + []));
    assert ParseMember(t, 7, 0, NotKey) == Tree(got, 29);
    UnreadableTail(t, got);
    MemberThenSpins(t, 1, 0, 7, got, 29);
    ObjectEnters(t, 0, 0);
  }
}

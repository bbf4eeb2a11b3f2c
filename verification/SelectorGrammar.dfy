/**
 The JSON grammar of selectors, as the parser reads it
 (lib/Lightnet/Core/Controller/PanelSelectorParser.hpp): which texts give which tree.
 */
module SelectorGrammar {
  import opened Bytes
  import opened Json
  import opened Selector

  const TOKEN_SIZE := 40
  const KEY_SIZE := 12
  const SEL_MAX_INDEX_LIST := 32

  // ---------------------------------------------------------------- tokens

  predicate IsDigit(c: char) {
    '0' <= c <= '9'
  }

  function DigitVal(c: char): nat
    requires IsDigit(c)
  {
    c as int - '0' as int
  }

  /** The digits from `p` on top of `v`; None past 65535. */
  function Digits(s: string, p: nat, v: nat): (r: Option<(nat, nat)>)
    requires p <= |s|
    ensures r.Some? ==> p <= r.value.1 <= |s|
    decreases |s| - p
  {
    if p == |s| || !IsDigit(s[p]) then Some((v, p))
    else if v * 10 + DigitVal(s[p]) > 65535 then None
    else Digits(s, p + 1, v * 10 + DigitVal(s[p]))
  }

  /** selTokUInt, and jsonReadUInt behind its whitespace: a value and the position after it. */
  function ReadUInt(s: string, p: nat): (r: Option<(nat, nat)>)
    requires p <= |s|
    ensures r.Some? ==> p <= r.value.1 <= |s|
  {
    if p == |s| || !IsDigit(s[p]) then None else Digits(s, p, 0)
  }

  function WholePart(s: string, p: nat, v: nat): (r: (nat, nat))
    requires p <= |s|
    ensures p <= r.1 <= |s|
    decreases |s| - p
  {
    if p == |s| || !IsDigit(s[p]) then (v, p) else WholePart(s, p + 1, v * 10 + DigitVal(s[p]))
  }

  function FracPart(s: string, p: nat, unit: real): (r: (real, nat))
    requires p <= |s|
    ensures p <= r.1 <= |s|
    decreases |s| - p
  {
    if p == |s| || !IsDigit(s[p]) then (0.0, p)
    else
      var rest := FracPart(s, p + 1, unit / 10.0);
      (DigitVal(s[p]) as real * unit + rest.0, rest.1)
  }

  /** selTokFloat, over the reals. */
  function ReadDecimal(s: string, p: nat): (r: Option<(real, nat)>)
    requires p <= |s|
    ensures r.Some? ==> p <= r.value.1 <= |s|
  {
    if p == |s| || !IsDigit(s[p]) then None
    else
      var (whole, q) := WholePart(s, p, 0);
      if q == |s| || s[q] != '.' then Some((whole as real, q))
      else
        var (frac, e) := FracPart(s, q + 1, 0.1);
        Some((whole as real + frac, e))
  }

  /**
   `(uint8_t)(x * 255.0f + 0.5f)`. An upper bound has been cut to 1 before; a lower bound may be
   larger, where C++ leaves the conversion undefined and this function wraps.
   */
  function FractionByte(x: real): byte {
    (x * 255.0 + 0.5).Floor % 256
  }

  function NamedLeaf(name: string): Option<Leaf> {
    if name == "all" then Some(All)
    else if name == "root" then Some(Root)
    else if name == "leaves" then Some(Leaves)
    else if name == "branches" then Some(Branches)
    else if name == "even" then Some(Even)
    else if name == "odd" then Some(Odd)
    else None
  }

  function DepthLeaf(arg: string): Option<Leaf> {
    match ReadUInt(arg, 0)
    case None => None
    case Some((lo, p)) =>
      var hi := if p < |arg| && arg[p] == '-' then ReadUInt(arg, p + 1) else Some((lo, p));
      if hi.None? || lo > 255 || hi.value.0 > 255 then None else Some(Depth(lo, hi.value.0))
  }

  function CountLeaf(name: string, arg: string): Option<Leaf> {
    match ReadUInt(arg, 0)
    case None => None
    case Some((v, _)) =>
      if v == 0 || v > 255 then None
      else if name == "subtree" then Some(Subtree(v))
      else if name == "neighbors" then Some(Neighbors(v))
      else if name == "first" then Some(First(v))
      else Some(Last(v))
  }

  function FractionLeaf(arg: string): Option<Leaf> {
    match ReadDecimal(arg, 0)
    case None => None
    case Some((lo, p)) =>
      if p == |arg| || arg[p] != '-' then None
      else match ReadDecimal(arg, p + 1)
        case None => None
        case Some((hi, _)) => Some(Fraction(FractionByte(lo), FractionByte(if hi > 1.0 then 1.0 else hi)))
  }

  function Colon(s: string): (p: nat)
    ensures p <= |s|
    ensures p < |s| ==> s[p] == ':'
  {
    if s == [] || s[0] == ':' then 0 else 1 + Colon(s[1..])
  }

  /** selEmitToken: what a token selects. */
  function TokenLeaf(tok: string): (leaf: Option<Leaf>)
    ensures leaf.Some? ==> !leaf.value.Indices?
  {
    var colon := Colon(tok);
    if colon == |tok| then NamedLeaf(tok)
    else
      var name, arg := tok[..colon], tok[colon + 1..];
      if name == "depth" then DepthLeaf(arg)
      else if name == "subtree" || name == "neighbors" || name == "first" || name == "last" then CountLeaf(name, arg)
      else if name == "fraction" then FractionLeaf(arg)
      else None
  }

  // ---------------------------------------------------------------- containers

  /** jsonNextElement: whether an element follows, and where the cursor then is. */
  function NextElement(t: string, p: nat): (r: (bool, nat))
    requires p <= |t|
    ensures p <= r.1 <= |t|
    ensures r.0 ==> r.1 < |t|
    decreases |t| - p
  {
    var q := SkipWs(t, p);
    if q == |t| then (false, q)
    else if t[q] == ']' then (false, q + 1)
    else if t[q] == ',' then NextElement(t, q + 1)
    else (true, q)
  }

  /** Where a failed escape leaves the cursor; `p` is past the backslash. */
  function EscapeStop(t: string, p: nat): (q: nat)
    requires p <= |t|
    ensures p <= q <= |t|
  {
    if p == |t| then p
    else if t[p] != 'u' || p + 5 > |t| then p + 1
    else if HexVal(t[p + 1]) < 0 || HexVal(t[p + 2]) < 0 || HexVal(t[p + 3]) < 0 || HexVal(t[p + 4]) < 0 then p + 1
    else p + 5
  }

  /** Where a failed read of a string leaves the cursor. */
  function BodyStop(t: string, p: nat): (q: nat)
    requires p <= |t|
    ensures p <= q <= |t|
    decreases |t| - p
  {
    if p == |t| || t[p] == '"' then p
    else if t[p] != '\\' then BodyStop(t, p + 1)
    else match DecodeEscape(t, p + 1)
      case None => EscapeStop(t, p + 1)
      case Some((_, q)) => BodyStop(t, q)
  }

  function StringStop(t: string, p: nat): (q: nat)
    requires p <= |t|
    ensures p <= q <= |t|
  {
    var q := SkipWs(t, p);
    if q == |t| || t[q] != '"' then q else BodyStop(t, q + 1)
  }

  /** jsonNextKey: the key, cut to its buffer, and where the cursor then is. */
  function NextKey(t: string, p: nat): (r: (Option<Key>, nat))
    requires p <= |t|
    ensures p <= r.1 <= |t|
    ensures r.0.Some? ==> p < r.1
    decreases |t| - p
  {
    var q := SkipWs(t, p);
    if q == |t| then (None, q)
    else if t[q] == '}' then (None, q + 1)
    else if t[q] == ',' then NextKey(t, q + 1)
    else match ReadString(t, q, KEY_SIZE)
      case None => (None, StringStop(t, q))
      case Some((key, e)) =>
        var c := SkipWs(t, e);
        if c == |t| || t[c] != ':' then (None, c)
        else (Some(KeyOf(CStr(key))), SkipWs(t, c + 1))
  }

  datatype Key = AnyKey | AllKey | NotKey | ExcludeKey | OtherKey

  function KeyOf(key: string): Key {
    if key == "any" then AnyKey
    else if key == "all" then AllKey
    else if key == "not" then NotKey
    else if key == "exclude" then ExcludeKey
    else OtherKey
  }

  /** jsonEnterArray: the position behind the bracket. */
  function EnterArray(t: string, p: nat): (r: Option<nat>)
    requires p <= |t|
    ensures r.Some? ==> p < r.value <= |t|
  {
    var q := SkipWs(t, p);
    if q == |t| || t[q] != '[' then None else Some(q + 1)
  }

  // ---------------------------------------------------------------- selectors

  /** The elements of an index list from `p`, at most `room` of them. */
  function ParseIndices(t: string, p: nat, room: nat): (r: Option<(seq<byte>, nat)>)
    requires p <= |t|
    ensures r.Some? ==> p <= r.value.1 <= |t| && |r.value.0| <= room
    decreases |t| - p
  {
    var (more, q) := NextElement(t, p);
    if !more then Some(([], q))
    else match ReadUInt(t, q)
      case None => None
      case Some((v, e)) =>
        if v == 0 || v > 255 || room == 0 then None
        else match ParseIndices(t, e, room - 1)
          case None => None
          case Some((rest, end)) => Some(([v] + rest, end))
  }

  function ParseIndexList(t: string, p: nat): (r: Option<(seq<byte>, nat)>)
    requires p <= |t|
    ensures r.Some? ==> p <= r.value.1 <= |t| && 0 < |r.value.0| <= SEL_MAX_INDEX_LIST
  {
    match ParseIndices(t, p, SEL_MAX_INDEX_LIST)
    case None => None
    case Some((list, e)) => if list == [] then None else Some((list, e))
  }

  /** A tree and where it ends; an error; or a skip that never ends (Json.Spinning). */
  datatype Parse = Tree(sel: Sel, p: nat) | Reject | Spin

  datatype ParseAll = Trees(sels: seq<Sel>, p: nat) | RejectAll | SpinAll

  /** selAppend, without the program: what the text at `p` selects. */
  function ParseSel(t: string, p: nat, depth: nat): (r: Parse)
    requires p <= |t|
    ensures r.Tree? ==> p < r.p <= |t|
    decreases |t| - p, 1
  {
    var q := SkipWs(t, p);
    if depth > SEL_STACK_MAX || q == |t| then Reject
    else if t[q] == '"' then
      match ReadString(t, q, TOKEN_SIZE)
      case None => Reject
      case Some((tok, e)) =>
        var leaf := TokenLeaf(CStr(tok));
        if leaf.None? then Reject else Tree(Basic(leaf.value), e)
    else if t[q] == '[' then
      match ParseIndexList(t, q + 1)
      case None => Reject
      case Some((list, e)) => Tree(Basic(Indices(list)), e)
    else if t[q] == '{' then ParseObject(t, q + 1, depth, None)
    else Reject
  }

  function Composite(key: Key, sels: seq<Sel>): Sel {
    if key.AnyKey? then Any(sels) else Every(sels)
  }

  /** The rest of an object whose composition key, if it came, gave `got`. */
  function ParseObject(t: string, p: nat, depth: nat, got: Option<Sel>): (r: Parse)
    requires p <= |t|
    ensures r.Tree? ==> p <= r.p <= |t|
    decreases |t| - p, 2
  {
    var (key, v) := NextKey(t, p);
    if key.None? then
      if got.Some? then Tree(got.value, v) else Reject
    else if key.value.OtherKey? then
      match SkipValue(t, v)
      case Spinning => Spin
      case Skipped(_, e) => ParseObject(t, e, depth, got)
    else if got.Some? then Reject
    else
      match ParseMember(t, v, depth, key.value)
      case Tree(s, e) => ParseObject(t, e, depth, Some(s))
      case other => other
  }

  /** The value of a composition key. */
  function ParseMember(t: string, v: nat, depth: nat, key: Key): (r: Parse)
    requires v <= |t|
    ensures r.Tree? ==> v <= r.p <= |t|
    decreases |t| - v, 3
  {
    if key.NotKey? then
      match ParseSel(t, v, depth + 1)
      case Tree(s, e) => Tree(Not(s), e)
      case other => other
    else if EnterArray(t, v).None? then Reject
    else
      var a := EnterArray(t, v).value;
      if key.ExcludeKey? then
        match ParseIndexList(t, a)
        case None => Reject
        case Some((list, e)) => Tree(Not(Basic(Indices(list))), e)
      else match ParseList(t, a, depth + 1)
        case SpinAll => Spin
        case RejectAll => Reject
        case Trees(sels, e) => if sels == [] then Reject else Tree(Composite(key, sels), e)
  }

  function ParseList(t: string, p: nat, depth: nat): (r: ParseAll)
    requires p <= |t|
    ensures r.Trees? ==> p <= r.p <= |t|
    decreases |t| - p, 2
  {
    match NextElement(t, p)
    case (false, e) => Trees([], e)
    case (true, q) =>
      match ParseSel(t, q, depth)
      case Spin => SpinAll
      case Reject => RejectAll
      case Tree(s, e) =>
        match ParseList(t, e, depth)
        case Trees(rest, end) => Trees([s] + rest, end)
        case other => other
  }

  // ---------------------------------------------------------------- what parsing guarantees

  /** Well formed, and of a need that the depth guard bounds. */
  predicate Guarded(sel: Sel, depth: nat) {
    WellFormed(sel) && depth + Need(sel) <= SEL_STACK_MAX + 1
  }

  predicate GuardedTail(sels: seq<Sel>, depth: nat) {
    (forall i :: 0 <= i < |sels| ==> WellFormed(sels[i])) && depth + NeedTail(sels) <= SEL_STACK_MAX + 2
  }

  lemma CompositeIsGuarded(key: Key, sels: seq<Sel>, depth: nat)
    requires sels != [] && Guarded(sels[0], depth + 1) && GuardedTail(sels[1..], depth + 1)
    ensures Guarded(Composite(key, sels), depth)
  {
    forall i | 0 < i < |sels| ensures WellFormed(sels[i]) {
      assert sels[i] == sels[1..][i - 1];
    }
  }

  /**
   Every tree the parser builds is well formed. The depth guard bounds the stack its program
   needs, but only by one more than the stack holds.
   */
  lemma {:induction false} ParsedTree(t: string, p: nat, depth: nat)
    requires p <= |t| && ParseSel(t, p, depth).Tree?
    ensures Guarded(ParseSel(t, p, depth).sel, depth)
    decreases |t| - p, 1
  {
    var q := SkipWs(t, p);
    if t[q] == '{' {
      ParsedObject(t, q + 1, depth, None);
    }
  }

  lemma {:induction false} ParsedObject(t: string, p: nat, depth: nat, got: Option<Sel>)
    requires p <= |t| && depth <= SEL_STACK_MAX && ParseObject(t, p, depth, got).Tree?
    requires got.Some? ==> Guarded(got.value, depth)
    ensures Guarded(ParseObject(t, p, depth, got).sel, depth)
    decreases |t| - p, 2
  {
    var (key, v) := NextKey(t, p);
    if key.Some? {
      if key.value.OtherKey? {
        ParsedObject(t, SkipValue(t, v).p, depth, got);
      } else {
        ParsedMember(t, v, depth, key.value);
        var member := ParseMember(t, v, depth, key.value);
        ParsedObject(t, member.p, depth, Some(member.sel));
      }
    }
  }

  lemma {:induction false} ParsedMember(t: string, v: nat, depth: nat, key: Key)
    requires v <= |t| && depth <= SEL_STACK_MAX && ParseMember(t, v, depth, key).Tree?
    ensures Guarded(ParseMember(t, v, depth, key).sel, depth)
    decreases |t| - v, 3
  {
    if key.NotKey? {
      ParsedTree(t, v, depth + 1);
    } else if !key.ExcludeKey? {
      var a := EnterArray(t, v).value;
      ParsedList(t, a, depth + 1);
      CompositeIsGuarded(key, ParseList(t, a, depth + 1).sels, depth);
    }
  }

  lemma {:induction false} ParsedList(t: string, p: nat, depth: nat)
    requires p <= |t| && 0 < depth <= SEL_STACK_MAX + 1 && ParseList(t, p, depth).Trees?
    ensures var sels := ParseList(t, p, depth).sels;
      GuardedTail(sels, depth) && (sels != [] ==> Guarded(sels[0], depth) && GuardedTail(sels[1..], depth))
    decreases |t| - p, 2
  {
    var (more, q) := NextElement(t, p);
    if more {
      ParsedTree(t, q, depth);
      var first := ParseSel(t, q, depth);
      ParsedList(t, first.p, depth);
      var sels := ParseList(t, p, depth).sels;
      assert sels[1..] == ParseList(t, first.p, depth).sels;
    }
  }

  // ---------------------------------------------------------------- the guard is one too wide

  function Nest(inner: string): string {
    "{" + ("\"any\":[" + ("\"all\"" + ("," + (inner + "]}"))))
  }

  lemma NestLength(inner: string)
    ensures |Nest(inner)| == 16 + |inner|
  {
  }

  /** `all` inside `n` any-lists, each of which holds another `all` in front. */
  function DeepText(n: nat): (s: string)
    ensures s != [] && (s[0] == '"' || s[0] == '{')
  {
    if n == 0 then "\"all\"" else Nest(DeepText(n - 1))
  }

  lemma PairNeed(a: Sel, b: Sel)
    requires WellFormed(a) && WellFormed(b)
    ensures WellFormed(Any([a] + [b])) && Need(Any([a] + [b])) == Max(Need(a), 1 + Need(b))
  {
    var sels := [a] + [b];
    assert sels[1..] == [b] && [b][1..] == [];
    assert NeedTail([b]) == 1 + Need(b);
  }

  function DeepTree(n: nat): (sel: Sel)
    ensures WellFormed(sel) && Need(sel) == n + 1
  {
    if n == 0 then Basic(All)
    else
      PairNeed(Basic(All), DeepTree(n - 1));
      Any([Basic(All)] + [DeepTree(n - 1)])
  }

  lemma {:induction false} PlainBodyReads(t: string, p: nat, s: string)
    requires HasAt(t, p, s + "\"")
    requires forall i :: 0 <= i < |s| ==> s[i] != '"' && s[i] != '\\'
    ensures DecodeBody(t, p) == Some((s, p + |s|))
    decreases |s|
  {
    assert CharAt(t, p, s + "\"", 0);
    if s != [] {
      var q := p + 1;
      assert s + "\"" == [s[0]] + (s[1..] + "\"");
      HasAtParts(t, p, [s[0]], s[1..] + "\"");
      PlainBodyReads(t, q, s[1..]);
      assert CharAt(t, p, [s[0]], 0);
      assert [s[0]] + s[1..] == s;
    }
  }

  /** A short plain string in quotes reads as itself. */
  lemma PlainStringReads(t: string, p: nat, s: string, size: nat)
    requires HasAt(t, p, "\"" + (s + "\"")) && |s| < size
    requires forall i :: 0 <= i < |s| ==> s[i] != '"' && s[i] != '\\'
    ensures SkipWs(t, p) == p && ReadString(t, p, size) == Some((s, p + |s| + 2))
  {
    HasAtParts(t, p, "\"", s + "\"");
    assert CharAt(t, p, "\"", 0);
    PlainBodyReads(t, p + 1, s);
  }

  lemma AllTokenParses(t: string, p: nat, depth: nat)
    requires HasAt(t, p, "\"all\"") && depth <= SEL_STACK_MAX
    ensures ParseSel(t, p, depth) == Tree(Basic(All), p + 5)
  {
    assert "\"all\"" == "\"" + ("all" + "\"");
    PlainStringReads(t, p, "all", TOKEN_SIZE);
    assert CharAt(t, p, "\"all\"", 0);
    assert CStr("all") == "all" by {
      assert CStr("all"[3..]) == [];
      assert CStr("all"[2..]) == "l";
      assert CStr("all"[1..]) == "ll";
    }
    assert Colon("all") == 3 by {
      assert Colon("all"[3..]) == 0;
      assert Colon("all"[2..]) == 1;
      assert Colon("all"[1..]) == 2;
    }
  }

  lemma AnyKeyReads(t: string, p: nat)
    requires HasAt(t, p, "\"any\":[")
    ensures NextKey(t, p) == (Some(AnyKey), p + 6) && EnterArray(t, p + 6) == Some(p + 7)
  {
    assert "\"any\":[" == ("\"" + ("any" + "\"")) + ":[";
    HasAtParts(t, p, "\"" + ("any" + "\""), ":[");
    PlainStringReads(t, p, "any", KEY_SIZE);
    assert CharAt(t, p + 5, ":[", 0) && CharAt(t, p + 5, ":[", 1);
    assert CharAt(t, p, "\"any\":[", 0);
    AnyHasNoNul();
  }

  lemma AnyHasNoNul()
    ensures CStr("any") == "any"
  {
    assert CStr("any"[3..]) == [];
    assert CStr("any"[2..]) == "y";
    assert CStr("any"[1..]) == "ny";
  }

  /** What stands where in one nesting level around `inner`. */
  ghost predicate Level(t: string, p: nat, inner: string) {
    && p + 16 + |inner| <= |t|
    && HasAt(t, p + 1, "\"any\":[") && HasAt(t, p + 8, "\"all\"") && HasAt(t, p + 14, inner)
    && t[p] == '{' && t[p + 8] == '"' && t[p + 13] == ','
    && (t[p + 14] == '"' || t[p + 14] == '{')
    && t[p + 14 + |inner|] == ']' && t[p + 15 + |inner|] == '}'
  }

  /** The parser accepts these texts as long as their depth passes its guard. */
  lemma {:induction false} DeepTextParses(t: string, p: nat, depth: nat, n: nat)
    requires HasAt(t, p, DeepText(n)) && depth + n <= SEL_STACK_MAX
    ensures ParseSel(t, p, depth) == Tree(DeepTree(n), p + |DeepText(n)|)
    decreases n, 3
  {
    if n == 0 {
      AllTokenParses(t, p, depth);
    } else {
      DeepParts(t, p, DeepText(n - 1));
      NestLength(DeepText(n - 1));
      LevelParses(t, p, depth, n, |DeepText(n - 1)|);
    }
  }

  lemma {:induction false} LevelParses(t: string, p: nat, depth: nat, n: nat, len: nat)
    requires 0 < n && Level(t, p, DeepText(n - 1)) && depth + n <= SEL_STACK_MAX && len == |DeepText(n - 1)|
    ensures ParseSel(t, p, depth) == Tree(DeepTree(n), p + 16 + len)
    decreases n, 2
  {
    hide ParseSel, ParseObject, ParseMember, HasAt, DeepTree, DeepText;
    AnyKeyReads(t, p + 1);
    LevelMemberParses(t, p, depth, n, len);
    ObjectParses(t, p + 1, depth, AnyKey, p + 7, DeepTree(n), p + 15 + len);
  }

  lemma {:induction false} LevelMemberParses(t: string, p: nat, depth: nat, n: nat, len: nat)
    requires 0 < n && Level(t, p, DeepText(n - 1)) && depth + n <= SEL_STACK_MAX && len == |DeepText(n - 1)|
    requires EnterArray(t, p + 7) == Some(p + 8)
    ensures ParseMember(t, p + 7, depth, AnyKey) == Tree(DeepTree(n), p + 15 + len)
    decreases n, 1
  {
    hide ParseSel, ParseObject;
    LevelTailParses(t, p, depth + 1, n, len);
    LevelListParses(t, p, depth + 1, DeepTree(n - 1), p + 15 + len);
    AnyMemberParses(t, p + 7, depth, p + 8, [Basic(All)] + [DeepTree(n - 1)], p + 15 + len);
  }

  lemma {:induction false} LevelTailParses(t: string, p: nat, depth: nat, n: nat, len: nat)
    requires 0 < n && Level(t, p, DeepText(n - 1)) && depth + n <= SEL_STACK_MAX + 1 && len == |DeepText(n - 1)|
    ensures ParseList(t, p + 13, depth) == Trees([DeepTree(n - 1)], p + 15 + len)
    decreases n, 0
  {
    hide ParseSel, ParseObject, ParseMember, HasAt, DeepTree, DeepText;
    var c := p + 14 + len;
    DeepTextParses(t, p + 14, depth, n - 1);
    assert NextElement(t, c) == (false, c + 1);
    assert NextElement(t, p + 13) == (true, p + 14);
    ListParses(t, p + 13, p + 14, depth, DeepTree(n - 1), c, [], c + 1);
  }

  lemma LevelListParses(t: string, p: nat, depth: nat, sel: Sel, e: nat)
    requires p + 13 <= |t| && HasAt(t, p + 8, "\"all\"") && t[p + 8] == '"' && depth <= SEL_STACK_MAX
    requires ParseList(t, p + 13, depth) == Trees([sel], e)
    ensures ParseList(t, p + 8, depth) == Trees([Basic(All)] + [sel], e)
  {
    hide ParseSel, ParseObject;
    AllTokenParses(t, p + 8, depth);
    ListParses(t, p + 8, p + 8, depth, Basic(All), p + 13, [sel], e);
  }

  lemma AnyMemberParses(t: string, v: nat, depth: nat, a: nat, sels: seq<Sel>, e: nat)
    requires v <= a <= |t| && EnterArray(t, v) == Some(a) && sels != []
    requires ParseList(t, a, depth + 1) == Trees(sels, e)
    ensures ParseMember(t, v, depth, AnyKey) == Tree(Any(sels), e)
  {
  }

  /** An object with one composition key. */
  lemma ObjectParses(t: string, p: nat, depth: nat, key: Key, v: nat, sel: Sel, e: nat)
    requires 0 < p <= v <= |t| && NextKey(t, p) == (Some(key), v) && !key.OtherKey?
    requires e < |t| && t[e] == '}' && ParseMember(t, v, depth, key) == Tree(sel, e)
    requires t[p - 1] == '{' && depth <= SEL_STACK_MAX
    ensures ParseSel(t, p - 1, depth) == Tree(sel, e + 1)
  {
    hide TokenLeaf, ParseMember, ReadString, ParseIndexList, SkipValue;
    assert NextKey(t, e) == (None, e + 1);
    assert ParseObject(t, e, depth, Some(sel)) == Tree(sel, e + 1);
    assert ParseObject(t, p, depth, None) == Tree(sel, e + 1);
  }

  lemma ListParses(t: string, p: nat, q: nat, depth: nat, sel: Sel, e: nat, rest: seq<Sel>, end: nat)
    requires p <= q <= |t| && e <= |t| && NextElement(t, p) == (true, q)
    requires ParseSel(t, q, depth) == Tree(sel, e)
    requires ParseList(t, e, depth) == Trees(rest, end)
    ensures ParseList(t, p, depth) == Trees([sel] + rest, end)
  {
  }

  /** Where the pieces of one nesting level stand. */
  lemma DeepParts(t: string, p: nat, inner: string)
    requires HasAt(t, p, Nest(inner)) && inner != [] && (inner[0] == '"' || inner[0] == '{')
    ensures Level(t, p, inner)
  {
    var s4 := inner + "]}";
    var s3 := "," + s4;
    var s2 := "\"all\"" + s3;
    var s1 := "\"any\":[" + s2;
    HasAtParts(t, p, "{", s1);
    HasAtParts(t, p + 1, "\"any\":[", s2);
    HasAtParts(t, p + 8, "\"all\"", s3);
    HasAtParts(t, p + 13, ",", s4);
    var q := p + 14 + |inner|;
    HasAtParts(t, p + 14, inner, "]}");
    assert CharAt(t, p, "{", 0) && CharAt(t, p + 8, "\"all\"", 0) && CharAt(t, p + 13, ",", 0);
    assert CharAt(t, p + 14, inner, 0) && CharAt(t, q, "]}", 0) && CharAt(t, q, "]}", 1);
  }
}

/**
 What selector texts mean, said of the texts themselves
 (lib/Lightnet/Core/Controller/PanelSelectorParser.hpp): tokens, numbers, index lists, and the four
 composition keys over any element texts.
 */
module SelectorTexts {
  import opened Bytes
  import opened Json
  import opened Selector
  import opened SelectorGrammar
  import opened SelectorSkips
  import U = JsonUpsert

  /** Wherever this text stands, it is read as this tree, to its last character. */
  ghost predicate Reads(s: string, sel: Sel, depth: nat) {
    && s != [] && (s[0] == '"' || s[0] == '[' || s[0] == '{')
    && forall t, p: nat {:trigger HasAt(t, p, s)} :: HasAt(t, p, s) ==> ParseSel(t, p, depth) == Tree(sel, p + |s|)
  }

  /** Wherever this text stands, it is refused. */
  ghost predicate Refused(s: string, depth: nat) {
    forall t, p: nat {:trigger HasAt(t, p, s)} :: HasAt(t, p, s) ==> ParseSel(t, p, depth) == Reject
  }

  function Quoted(s: string): string {
    "\"" + (s + "\"")
  }

  /** Text that needs no escapes. */
  ghost predicate PlainText(s: string) {
    forall i :: 0 <= i < |s| ==> s[i] != '"' && s[i] != '\\' && s[i] != '\0'
  }

  lemma PlainJoins(a: string, b: string)
    requires PlainText(a) && PlainText(b)
    ensures PlainText(a + b)
  {
  }

  // ---------------------------------------------------------------- numbers

  function Digit(d: nat): (c: char)
    requires d < 10
    ensures IsDigit(c) && DigitVal(c) == d
  {
    '0' + d as char
  }

  /** A number in decimal, without leading zeros. */
  function Dec(n: nat): (s: string)
    ensures s != [] && AllDigits(s)
  {
    (if n < 10 then [] else Dec(n / 10)) + [Digit(n % 10)]
  }

  predicate AllDigits(s: string) {
    forall i :: 0 <= i < |s| ==> IsDigit(s[i])
  }

  /** The number that digits make behind `v`. */
  function Value(s: string, v: nat): nat
    requires AllDigits(s)
  {
    if s == [] then v else Value(s[1..], v * 10 + DigitVal(s[0]))
  }

  lemma {:induction false} ValueAppend(s: string, c: char, v: nat)
    requires AllDigits(s) && IsDigit(c)
    ensures Value(s + [c], v) == Value(s, v) * 10 + DigitVal(c)
  {
    if s != [] {
      assert (s + [c])[1..] == s[1..] + [c];
      ValueAppend(s[1..], c, v * 10 + DigitVal(s[0]));
    } else {
      assert (s + [c])[1..] == [];
    }
  }

  lemma {:induction false} DecIsValue(n: nat)
    ensures Value(Dec(n), 0) == n
  {
    if n >= 10 {
      DecIsValue(n / 10);
      ValueAppend(Dec(n / 10), Digit(n % 10), 0);
    } else {
      assert Dec(n) == [] + [Digit(n)];
      ValueAppend([], Digit(n), 0);
    }
  }

  lemma {:induction false} ValueGrows(s: string, v: nat)
    requires AllDigits(s)
    ensures v <= Value(s, v)
  {
    if s != [] {
      ValueGrows(s[1..], v * 10 + DigitVal(s[0]));
    }
  }

  /** The digits stand at `p`, and no other behind them. */
  ghost predicate NumberAt(t: string, p: nat, s: string) {
    HasAt(t, p, s) && AllDigits(s) && (p + |s| < |t| ==> !IsDigit(t[p + |s|]))
  }

  lemma NumberRest(t: string, p: nat, s: string)
    requires NumberAt(t, p, s) && s != []
    ensures p < |t| && t[p] == s[0] && NumberAt(t, p + 1, s[1..])
  {
    assert s == [s[0]] + s[1..];
    HasAtParts(t, p, [s[0]], s[1..]);
    assert CharAt(t, p, [s[0]], 0);
  }

  lemma {:induction false} DigitsAreRead(t: string, p: nat, s: string, v: nat)
    requires NumberAt(t, p, s) && v <= 65535
    ensures Digits(t, p, v) == if Value(s, v) <= 65535 then Some((Value(s, v), p + |s|)) else None
    decreases |s|
  {
    hide HasAt;
    EndIsInText(t, p, s);
    if s != [] {
      NumberRest(t, p, s);
      assert IsDigit(s[0]);
      var next := v * 10 + DigitVal(s[0]);
      ValueGrows(s[1..], next);
      if next <= 65535 {
        DigitsAreRead(t, p + 1, s[1..], next);
      }
    }
  }

  lemma EndIsInText(t: string, p: nat, s: string)
    requires HasAt(t, p, s)
    ensures p + |s| <= |t|
  {
  }

  lemma NumberIsRead(t: string, p: nat, n: nat)
    requires NumberAt(t, p, Dec(n))
    ensures ReadUInt(t, p) == if n <= 65535 then Some((n, p + |Dec(n)|)) else None
  {
    hide HasAt, Dec;
    DecIsNotEmpty(n);
    NumberRest(t, p, Dec(n));
    DigitsAreRead(t, p, Dec(n), 0);
    DecIsValue(n);
    EndIsInText(t, p, Dec(n));
  }

  lemma DecIsNotEmpty(n: nat)
    ensures Dec(n) != [] && AllDigits(Dec(n)) && PlainText(Dec(n)) && ':' !in Dec(n)
  {
  }

  // ---------------------------------------------------------------- tokens

  /** A string is read as its token says. */
  lemma TokenParses(t: string, p: nat, tok: string, depth: nat)
    requires HasAt(t, p, Quoted(tok)) && PlainText(tok) && |tok| < TOKEN_SIZE && depth <= SEL_STACK_MAX
    ensures ParseSel(t, p, depth)
         == if TokenLeaf(tok).None? then Reject else Tree(Basic(TokenLeaf(tok).value), p + |Quoted(tok)|)
  {
    hide TokenLeaf;
    PlainStringReads(t, p, tok, TOKEN_SIZE);
    NoNulKept(tok);
    assert CharAt(t, p, Quoted(tok), 0);
  }

  lemma TokenReads(tok: string, leaf: Leaf, depth: nat)
    requires PlainText(tok) && |tok| < TOKEN_SIZE && depth <= SEL_STACK_MAX && TokenLeaf(tok) == Some(leaf)
    ensures Reads(Quoted(tok), Basic(leaf), depth)
  {
    hide TokenLeaf;
    forall t, p: nat | HasAt(t, p, Quoted(tok)) ensures ParseSel(t, p, depth) == Tree(Basic(leaf), p + |Quoted(tok)|) {
      TokenParses(t, p, tok, depth);
    }
  }

  lemma TokenRefused(tok: string, depth: nat)
    requires PlainText(tok) && |tok| < TOKEN_SIZE && depth <= SEL_STACK_MAX && TokenLeaf(tok) == None
    ensures Refused(Quoted(tok), depth)
  {
    hide TokenLeaf;
    forall t, p: nat | HasAt(t, p, Quoted(tok)) ensures ParseSel(t, p, depth) == Reject {
      TokenParses(t, p, tok, depth);
    }
  }

  lemma {:induction false} NoColon(s: string)
    requires ':' !in s
    ensures Colon(s) == |s|
  {
    if s != [] {
      assert s[0] in s;
      NoColon(s[1..]);
    }
  }

  lemma {:induction false} FirstColon(name: string, arg: string)
    requires ':' !in name
    ensures Colon(name + (":" + arg)) == |name|
  {
    if name != [] {
      assert name[0] in name;
      assert (name + (":" + arg))[1..] == name[1..] + (":" + arg);
      FirstColon(name[1..], arg);
    } else {
      assert name + (":" + arg) == ":" + arg;
    }
  }

  /** The six names, and what each of them selects. */
  lemma BareTokens(depth: nat)
    requires depth <= SEL_STACK_MAX
    ensures Reads(Quoted("all"), Basic(All), depth) && Reads(Quoted("root"), Basic(Root), depth)
    ensures Reads(Quoted("leaves"), Basic(Leaves), depth) && Reads(Quoted("branches"), Basic(Branches), depth)
    ensures Reads(Quoted("even"), Basic(Even), depth) && Reads(Quoted("odd"), Basic(Odd), depth)
  {
    hide Reads, Quoted, TokenLeaf;
    NamedLeaves();
    TokenReads("all", All, depth);
    TokenReads("root", Root, depth);
    TokenReads("leaves", Leaves, depth);
    TokenReads("branches", Branches, depth);
    TokenReads("even", Even, depth);
    TokenReads("odd", Odd, depth);
  }

  lemma NamedLeaves()
    ensures TokenLeaf("all") == Some(All) && TokenLeaf("root") == Some(Root) && TokenLeaf("leaves") == Some(Leaves)
    ensures TokenLeaf("branches") == Some(Branches) && TokenLeaf("even") == Some(Even) && TokenLeaf("odd") == Some(Odd)
  {
    hide Colon;
    NoColon("all");
    NoColon("root");
    NoColon("leaves");
    NoColon("branches");
    NoColon("even");
    NoColon("odd");
  }

  /** Any other name is refused. */
  lemma OtherNamesAreRefused(name: string, depth: nat)
    requires PlainText(name) && ':' !in name && |name| < TOKEN_SIZE && depth <= SEL_STACK_MAX
    requires name != "all" && name != "root" && name != "leaves" && name != "branches" && name != "even" && name != "odd"
    ensures Refused(Quoted(name), depth)
  {
    NoColon(name);
    TokenRefused(name, depth);
  }

  /** `name:arg`. */
  function With(name: string, arg: string): string {
    name + (":" + arg)
  }

  lemma WithSplits(name: string, arg: string)
    requires ':' !in name
    ensures Colon(With(name, arg)) == |name| < |With(name, arg)|
    ensures With(name, arg)[..|name|] == name && With(name, arg)[|name| + 1..] == arg
    ensures PlainText(name) && PlainText(arg) ==> PlainText(With(name, arg))
  {
    FirstColon(name, arg);
  }

  /** What may follow a number: nothing, or text that does not go on with a digit. It is not read. */
  ghost predicate Rest(s: string) {
    PlainText(s) && (s != [] ==> !IsDigit(s[0]))
  }

  lemma NumberInFront(n: nat, rest: string)
    requires Rest(rest)
    ensures var s := Dec(n) + rest;
      && ReadUInt(s, 0) == (if n <= 65535 then Some((n, |Dec(n)|)) else None)
      && PlainText(s) && |s| == |Dec(n)| + |rest| && (rest != [] ==> s[|Dec(n)|] == rest[0])
  {
    hide Dec;
    PartHasAt([], Dec(n), rest);
    assert [] + Dec(n) + rest == Dec(n) + rest;
    DecIsNotEmpty(n);
    NumberIsRead(Dec(n) + rest, 0, n);
  }

  /** `a-b`. */
  function Range(a: string, b: string): string {
    a + ("-" + b)
  }

  lemma RangeParts(a: string, b: string)
    ensures var s := Range(a, b);
      && HasAt(s, 0, a) && |s| == |a| + 1 + |b| && s[|a|] == '-' && HasAt(s, |a| + 1, b)
      && (PlainText(a) && PlainText(b) ==> PlainText(s))
  {
    var s := Range(a, b);
    PartHasAt([], a, "-" + b);
    assert [] + a + ("-" + b) == s;
    PartHasAt(a + "-", b, []);
    assert a + "-" + b + [] == s;
  }

  /** `depth:a-b` for any two numbers. */
  lemma DepthRanges(a: nat, b: nat, rest: string, depth: nat)
    requires depth <= SEL_STACK_MAX && Rest(rest) && |With("depth", Range(Dec(a), Dec(b) + rest))| < TOKEN_SIZE
    ensures var s := Quoted(With("depth", Range(Dec(a), Dec(b) + rest)));
      if a <= 255 && b <= 255 then Reads(s, Basic(Depth(a, b)), depth) else Refused(s, depth)
  {
    hide Reads, Refused, Quoted, With, Dec, Range, Colon, DepthLeaf;
    var arg := Range(Dec(a), Dec(b) + rest);
    DepthLeafOfRange(a, b, rest);
    WithSplits("depth", arg);
    if a <= 255 && b <= 255 {
      TokenReads(With("depth", arg), Depth(a, b), depth);
    } else {
      TokenRefused(With("depth", arg), depth);
    }
  }

  /** `depth:a` is `depth:a-a`. */
  lemma SingleDepths(a: nat, rest: string, depth: nat)
    requires depth <= SEL_STACK_MAX && Rest(rest) && |With("depth", Dec(a) + rest)| < TOKEN_SIZE
    requires rest != [] ==> rest[0] != '-'
    ensures var s := Quoted(With("depth", Dec(a) + rest));
      if a <= 255 then Reads(s, Basic(Depth(a, a)), depth) else Refused(s, depth)
  {
    hide Reads, Refused, Quoted, With, Dec, Colon, DepthLeaf;
    DepthLeafOfOne(a, rest);
    WithSplits("depth", Dec(a) + rest);
    if a <= 255 {
      TokenReads(With("depth", Dec(a) + rest), Depth(a, a), depth);
    } else {
      TokenRefused(With("depth", Dec(a) + rest), depth);
    }
  }

  lemma RangeIsRead(a: nat, b: nat, rest: string)
    requires Rest(rest)
    ensures var s := Range(Dec(a), Dec(b) + rest);
      && ReadUInt(s, 0) == (if a <= 65535 then Some((a, |Dec(a)|)) else None)
      && |Dec(a)| < |s| && s[|Dec(a)|] == '-' && PlainText(s)
      && ReadUInt(s, |Dec(a)| + 1) == (if b <= 65535 then Some((b, |Dec(a)| + 1 + |Dec(b)|)) else None)
  {
    hide Dec, HasAt, ReadUInt;
    var s := Range(Dec(a), Dec(b) + rest);
    DecIsNotEmpty(a);
    DecIsNotEmpty(b);
    NumberInFront(a, "-" + (Dec(b) + rest));
    RangeParts(Dec(a), Dec(b) + rest);
    HasAtParts(s, |Dec(a)| + 1, Dec(b), rest);
    if rest != [] {
      FirstStands(s, |Dec(a)| + 1 + |Dec(b)|, rest);
    }
    NumberIsRead(s, |Dec(a)| + 1, b);
  }

  lemma DepthLeafOfRange(a: nat, b: nat, rest: string)
    requires Rest(rest)
    ensures PlainText(Range(Dec(a), Dec(b) + rest))
    ensures DepthLeaf(Range(Dec(a), Dec(b) + rest)) == if a <= 255 && b <= 255 then Some(Depth(a, b)) else None
  {
    hide Dec, Range, ReadUInt;
    RangeIsRead(a, b, rest);
  }

  lemma DepthLeafOfOne(a: nat, rest: string)
    requires Rest(rest) && (rest != [] ==> rest[0] != '-')
    ensures PlainText(Dec(a) + rest)
    ensures DepthLeaf(Dec(a) + rest) == if a <= 255 then Some(Depth(a, a)) else None
  {
    hide Dec, ReadUInt;
    NumberInFront(a, rest);
  }

  /** `subtree:n`, `neighbors:n`, `first:n` and `last:n`, for any number. */
  lemma CountTokens(n: nat, rest: string, depth: nat)
    requires depth <= SEL_STACK_MAX && Rest(rest) && |Dec(n) + rest| < 30
    ensures 1 <= n <= 255 ==>
      && Reads(Quoted(With("subtree", Dec(n) + rest)), Basic(Subtree(n)), depth)
      && Reads(Quoted(With("neighbors", Dec(n) + rest)), Basic(Neighbors(n)), depth)
      && Reads(Quoted(With("first", Dec(n) + rest)), Basic(First(n)), depth)
      && Reads(Quoted(With("last", Dec(n) + rest)), Basic(Last(n)), depth)
    ensures !(1 <= n <= 255) ==>
      && Refused(Quoted(With("subtree", Dec(n) + rest)), depth) && Refused(Quoted(With("neighbors", Dec(n) + rest)), depth)
      && Refused(Quoted(With("first", Dec(n) + rest)), depth) && Refused(Quoted(With("last", Dec(n) + rest)), depth)
  {
    hide Reads, Refused, Quoted, Dec;
    CountToken("subtree", n, rest, depth);
    CountToken("neighbors", n, rest, depth);
    CountToken("first", n, rest, depth);
    CountToken("last", n, rest, depth);
  }

  predicate Counts(name: string) {
    name == "subtree" || name == "neighbors" || name == "first" || name == "last"
  }

  lemma CountToken(name: string, n: nat, rest: string, depth: nat)
    requires depth <= SEL_STACK_MAX && Rest(rest) && |Dec(n) + rest| < 30 && Counts(name)
    ensures 1 <= n <= 255 && name == "subtree" ==> Reads(Quoted(With(name, Dec(n) + rest)), Basic(Subtree(n)), depth)
    ensures 1 <= n <= 255 && name == "neighbors" ==> Reads(Quoted(With(name, Dec(n) + rest)), Basic(Neighbors(n)), depth)
    ensures 1 <= n <= 255 && name == "first" ==> Reads(Quoted(With(name, Dec(n) + rest)), Basic(First(n)), depth)
    ensures 1 <= n <= 255 && name == "last" ==> Reads(Quoted(With(name, Dec(n) + rest)), Basic(Last(n)), depth)
    ensures !(1 <= n <= 255) ==> Refused(Quoted(With(name, Dec(n) + rest)), depth)
  {
    hide Reads, Refused, Quoted, Dec, Colon, ReadUInt;
    NumberInFront(n, rest);
    WithSplits(name, Dec(n) + rest);
    var tok := With(name, Dec(n) + rest);
    if 1 <= n <= 255 {
      if name == "subtree" {
        TokenReads(tok, Subtree(n), depth);
      } else if name == "neighbors" {
        TokenReads(tok, Neighbors(n), depth);
      } else if name == "first" {
        TokenReads(tok, First(n), depth);
      } else {
        TokenReads(tok, Last(n), depth);
      }
    } else {
      TokenRefused(tok, depth);
    }
  }

  /** Without a number where one must stand, the token is refused. */
  lemma NumberlessTokens(name: string, rest: string, depth: nat)
    requires depth <= SEL_STACK_MAX && Rest(rest) && |With(name, rest)| < TOKEN_SIZE
    requires Counts(name) || name == "depth" || name == "fraction"
    ensures Refused(Quoted(With(name, rest)), depth)
  {
    hide Refused, Quoted, With, Colon, Digits, WholePart;
    WithSplits(name, rest);
    TokenRefused(With(name, rest), depth);
  }

  lemma OpenDepths(n: nat, rest: string, depth: nat)
    requires depth <= SEL_STACK_MAX && Rest(rest) && |With("depth", Range(Dec(n), rest))| < TOKEN_SIZE
    ensures Refused(Quoted(With("depth", Range(Dec(n), rest))), depth)
  {
    hide Refused, Quoted, With, Dec, Colon, DepthLeaf;
    DepthLeafWithoutEnd(n, rest);
    WithSplits("depth", Range(Dec(n), rest));
    TokenRefused(With("depth", Range(Dec(n), rest)), depth);
  }

  lemma DepthLeafWithoutEnd(n: nat, rest: string)
    requires Rest(rest)
    ensures PlainText(Range(Dec(n), rest)) && DepthLeaf(Range(Dec(n), rest)) == None
  {
    hide Dec, Digits;
    NumberInFront(n, "-" + rest);
  }

  /** Any other name in front of a colon is refused. */
  lemma OtherPrefixesAreRefused(name: string, arg: string, depth: nat)
    requires PlainText(name) && PlainText(arg) && ':' !in name && depth <= SEL_STACK_MAX && |With(name, arg)| < TOKEN_SIZE
    requires name != "depth" && name != "subtree" && name != "neighbors" && name != "first" && name != "last"
    requires name != "fraction"
    ensures Refused(Quoted(With(name, arg)), depth)
  {
    hide With, Colon, Refused, Quoted;
    WithSplits(name, arg);
    TokenRefused(With(name, arg), depth);
  }

  // ---------------------------------------------------------------- fractions

  /** The decimal fraction 0.d1d2... of these digits. */
  function Fractional(digits: string): real
    requires AllDigits(digits)
  {
    if digits == [] then 0.0 else (DigitVal(digits[0]) as real + Fractional(digits[1..])) / 10.0
  }

  lemma {:induction false} WholeIsRead(t: string, p: nat, s: string, v: nat)
    requires NumberAt(t, p, s)
    ensures WholePart(t, p, v) == (Value(s, v), p + |s|)
    decreases |s|
  {
    hide HasAt;
    EndIsInText(t, p, s);
    if s != [] {
      NumberRest(t, p, s);
      assert IsDigit(s[0]);
      WholeIsRead(t, p + 1, s[1..], v * 10 + DigitVal(s[0]));
    }
  }

  lemma {:induction false} FractionalIsRead(t: string, p: nat, s: string, unit: real)
    requires NumberAt(t, p, s)
    ensures FracPart(t, p, unit).0 == 10.0 * unit * Fractional(s) && FracPart(t, p, unit).1 == p + |s|
    decreases |s|
  {
    hide HasAt;
    EndIsInText(t, p, s);
    if s != [] {
      NumberRest(t, p, s);
      assert IsDigit(s[0]);
      FractionalIsRead(t, p + 1, s[1..], unit / 10.0);
      TenthOfUnit(DigitVal(s[0]) as real, unit, Fractional(s[1..]));
    }
  }

  lemma TenthOfUnit(d: real, unit: real, rest: real)
    ensures d * unit + 10.0 * (unit / 10.0) * rest == 10.0 * unit * ((d + rest) / 10.0)
  {
  }

  /** `whole.digits`, or `whole` alone. */
  function Decimal(whole: nat, digits: string): string {
    Dec(whole) + if digits == [] then [] else "." + digits
  }

  /** What may follow a decimal. */
  ghost predicate DecimalRest(digits: string, rest: string) {
    Rest(rest) && (digits == [] && rest != [] ==> rest[0] != '.')
  }

  /** A decimal at `p`, with something behind it that does not go on with it. */
  lemma DecimalIsRead(t: string, p: nat, whole: nat, digits: string)
    requires AllDigits(digits) && HasAt(t, p, Decimal(whole, digits))
    requires var e := p + |Decimal(whole, digits)|; e < |t| ==> !IsDigit(t[e]) && (digits == [] ==> t[e] != '.')
    ensures ReadDecimal(t, p) == Some((whole as real + Fractional(digits), p + |Decimal(whole, digits)|))
  {
    hide HasAt, Dec, Fractional, WholePart, FracPart;
    var s := Dec(whole);
    var q := p + |s|;
    DecIsNotEmpty(whole);
    EndIsInText(t, p, Decimal(whole, digits));
    if digits == [] {
      assert Decimal(whole, digits) == s;
      NoFraction();
    } else {
      HasAtParts(t, p, s, "." + digits);
      HasAtParts(t, q, ".", digits);
      FirstStands(t, q, ".");
      FractionalIsRead(t, q + 1, digits, 0.1);
    }
    NumberRest(t, p, s);
    WholeIsRead(t, p, s, 0);
    DecIsValue(whole);
  }

  lemma NoFraction()
    ensures Fractional([]) == 0.0
  {
  }

  lemma FirstStands(t: string, p: nat, s: string)
    requires HasAt(t, p, s) && s != []
    ensures p < |t| && t[p] == s[0]
  {
    assert CharAt(t, p, s, 0);
  }

  /** The byte nearest to 255 times a number, halves going up. */
  predicate Nearest(b: byte, x: real) {
    b as real <= 255.0 * x + 0.5 < b as real + 1.0
  }

  lemma NearestIsByte(b: byte, x: real)
    requires Nearest(b, x)
    ensures FractionByte(x) == b
  {
  }

  /** `fraction:a-b`, for any two decimals with the lower one in range; an upper one past 1 counts as 1. */
  lemma FractionTokens(w1: nat, f1: string, w2: nat, f2: string, rest: string, lo: byte, hi: byte, depth: nat)
    requires depth <= SEL_STACK_MAX && AllDigits(f1) && AllDigits(f2) && DecimalRest(f2, rest)
    requires |With("fraction", Range(Decimal(w1, f1), Decimal(w2, f2) + rest))| < TOKEN_SIZE
    requires Nearest(lo, w1 as real + Fractional(f1))
    requires var x := w2 as real + Fractional(f2); Nearest(hi, if x > 1.0 then 1.0 else x)
    ensures Reads(Quoted(With("fraction", Range(Decimal(w1, f1), Decimal(w2, f2) + rest))), Basic(Fraction(lo, hi)), depth)
  {
    hide Reads, Quoted, With, Colon, ReadDecimal, HasAt, Range, Decimal, Fractional, Nearest;
    var arg := Range(Decimal(w1, f1), Decimal(w2, f2) + rest);
    DecimalsAreRead(w1, f1, w2, f2, rest);
    NearestIsByte(lo, w1 as real + Fractional(f1));
    var x := w2 as real + Fractional(f2);
    NearestIsByte(hi, if x > 1.0 then 1.0 else x);
    WithSplits("fraction", arg);
    TokenReads(With("fraction", arg), Fraction(lo, hi), depth);
  }

  lemma DecimalsAreRead(w1: nat, f1: string, w2: nat, f2: string, rest: string)
    requires AllDigits(f1) && AllDigits(f2) && DecimalRest(f2, rest)
    ensures var s := Range(Decimal(w1, f1), Decimal(w2, f2) + rest);
      && ReadDecimal(s, 0) == Some((w1 as real + Fractional(f1), |Decimal(w1, f1)|))
      && |Decimal(w1, f1)| < |s| && s[|Decimal(w1, f1)|] == '-' && PlainText(s)
      && ReadDecimal(s, |Decimal(w1, f1)| + 1)
         == Some((w2 as real + Fractional(f2), |Decimal(w1, f1)| + 1 + |Decimal(w2, f2)|))
  {
    hide HasAt, Range, Decimal, Fractional, ReadDecimal;
    var a, b := Decimal(w1, f1), Decimal(w2, f2);
    var s := Range(a, b + rest);
    PlainDecimal(w1, f1);
    PlainDecimal(w2, f2);
    RangeParts(a, b + rest);
    HasAtParts(s, |a| + 1, b, rest);
    if rest != [] {
      FirstStands(s, |a| + 1 + |b|, rest);
    }
    DecimalIsRead(s, 0, w1, f1);
    DecimalIsRead(s, |a| + 1, w2, f2);
  }

  lemma PlainDecimal(whole: nat, digits: string)
    requires AllDigits(digits)
    ensures PlainText(Decimal(whole, digits))
  {
    DecIsNotEmpty(whole);
  }

  lemma DecimalInFront(w: nat, f: string, rest: string)
    requires AllDigits(f) && DecimalRest(f, rest)
    ensures var s := Decimal(w, f) + rest;
      && ReadDecimal(s, 0) == Some((w as real + Fractional(f), |Decimal(w, f)|)) && PlainText(s)
      && |s| == |Decimal(w, f)| + |rest| && (rest != [] ==> s[|Decimal(w, f)|] == rest[0])
  {
    hide HasAt, Decimal, Fractional, ReadDecimal;
    PlainDecimal(w, f);
    PartHasAt([], Decimal(w, f), rest);
    assert [] + Decimal(w, f) + rest == Decimal(w, f) + rest;
    DecimalIsRead(Decimal(w, f) + rest, 0, w, f);
  }

  /** A fraction without its dash, or without its second number, is refused. */
  lemma HalfFractions(w: nat, f: string, rest: string, depth: nat)
    requires depth <= SEL_STACK_MAX && AllDigits(f) && Rest(rest)
    ensures DecimalRest(f, rest) && (rest != [] ==> rest[0] != '-') && |With("fraction", Decimal(w, f) + rest)| < TOKEN_SIZE ==>
      Refused(Quoted(With("fraction", Decimal(w, f) + rest)), depth)
    ensures |With("fraction", Range(Decimal(w, f), rest))| < TOKEN_SIZE ==>
      Refused(Quoted(With("fraction", Range(Decimal(w, f), rest))), depth)
  {
    hide Refused, Quoted, With, Colon, Decimal, FractionLeaf;
    if DecimalRest(f, rest) && (rest != [] ==> rest[0] != '-') && |With("fraction", Decimal(w, f) + rest)| < TOKEN_SIZE {
      FractionWithoutDash(w, f, rest);
      WithSplits("fraction", Decimal(w, f) + rest);
      TokenRefused(With("fraction", Decimal(w, f) + rest), depth);
    }
    if |With("fraction", Range(Decimal(w, f), rest))| < TOKEN_SIZE {
      FractionWithoutEnd(w, f, rest);
      WithSplits("fraction", Range(Decimal(w, f), rest));
      TokenRefused(With("fraction", Range(Decimal(w, f), rest)), depth);
    }
  }

  lemma FractionWithoutDash(w: nat, f: string, rest: string)
    requires AllDigits(f) && DecimalRest(f, rest) && (rest != [] ==> rest[0] != '-')
    ensures PlainText(Decimal(w, f) + rest) && FractionLeaf(Decimal(w, f) + rest) == None
  {
    hide Decimal, ReadDecimal;
    DecimalInFront(w, f, rest);
  }

  lemma FractionWithoutEnd(w: nat, f: string, rest: string)
    requires AllDigits(f) && Rest(rest)
    ensures PlainText(Range(Decimal(w, f), rest)) && FractionLeaf(Range(Decimal(w, f), rest)) == None
  {
    hide Decimal, WholePart, FracPart;
    DecimalInFront(w, f, "-" + rest);
  }

  // ---------------------------------------------------------------- long tokens

  /** A token is cut to 39 characters. */
  lemma LongTokens(tok: string, depth: nat)
    requires PlainText(tok) && |tok| > 39 && depth <= SEL_STACK_MAX
    ensures TokenLeaf(tok[..39]).Some? ==> Reads(Quoted(tok), Basic(TokenLeaf(tok[..39]).value), depth)
    ensures TokenLeaf(tok[..39]).None? ==> Refused(Quoted(tok), depth)
  {
    hide TokenLeaf, ParseSel;
    forall t, p: nat | HasAt(t, p, Quoted(tok))
      ensures ParseSel(t, p, depth)
           == if TokenLeaf(tok[..39]).None? then Reject else Tree(Basic(TokenLeaf(tok[..39]).value), p + |Quoted(tok)|)
    {
      LongTokenParses(t, p, tok, depth);
    }
  }

  lemma LongTokenParses(t: string, p: nat, tok: string, depth: nat)
    requires HasAt(t, p, Quoted(tok)) && PlainText(tok) && |tok| > 39 && depth <= SEL_STACK_MAX
    ensures p <= |t| && ParseSel(t, p, depth)
         == if TokenLeaf(tok[..39]).None? then Reject else Tree(Basic(TokenLeaf(tok[..39]).value), p + |Quoted(tok)|)
  {
    hide TokenLeaf, HasAt, DecodeBody;
    PlainStringIsCut(t, p, tok, TOKEN_SIZE);
    NoNulKept(tok[..39]);
    FirstStands(t, p, Quoted(tok));
  }

  lemma PlainStringIsCut(t: string, p: nat, s: string, size: nat)
    requires HasAt(t, p, Quoted(s)) && PlainText(s) && 0 < size <= |s|
    ensures SkipWs(t, p) == p && ReadString(t, p, size) == Some((s[..size - 1], p + |s| + 2))
  {
    hide HasAt, DecodeBody;
    HasAtParts(t, p, "\"", s + "\"");
    FirstStands(t, p, "\"");
    EndIsInText(t, p + 1, s + "\"");
    PlainBodyReads(t, p + 1, s);
  }

  // ---------------------------------------------------------------- lists

  /** The parts with commas between them. */
  function Join(parts: seq<string>): string
    requires parts != []
  {
    if |parts| == 1 then parts[0] else parts[0] + ("," + Join(parts[1..]))
  }

  /** Where the first part ends there is a comma and the rest, or, behind the last part, `close`. */
  lemma JoinParts(t: string, p: nat, parts: seq<string>, close: char)
    requires parts != [] && HasAt(t, p, Join(parts)) && p + |Join(parts)| < |t| && t[p + |Join(parts)|] == close
    ensures HasAt(t, p, parts[0])
    ensures var e := p + |parts[0]|;
      if |parts| == 1 then e < |t| && t[e] == close && e == p + |Join(parts)|
      else
        && e + 1 + |Join(parts[1..])| == p + |Join(parts)|
        && e < |t| && t[e] == ',' && HasAt(t, e + 1, Join(parts[1..]))
  {
    if |parts| > 1 {
      var e := p + |parts[0]|;
      HasAtParts(t, p, parts[0], "," + Join(parts[1..]));
      HasAtParts(t, e, ",", Join(parts[1..]));
      assert CharAt(t, e, ",", 0);
    }
  }

  function Texts(ns: seq<nat>): (s: seq<string>)
    ensures |s| == |ns|
  {
    seq(|ns|, i requires 0 <= i < |ns| => Dec(ns[i]))
  }

  predicate AllIndices(ns: seq<nat>) {
    forall i :: 0 <= i < |ns| ==> 1 <= ns[i] <= 255
  }

  /** Numbers between commas, up to the bracket: read exactly if they are panel numbers and no more than there is room for. */
  lemma {:induction false} IndicesAreRead(t: string, p: nat, ns: seq<nat>, room: nat)
    requires ns != [] && HasAt(t, p, Join(Texts(ns)))
    requires p + |Join(Texts(ns))| < |t| && t[p + |Join(Texts(ns))|] == ']'
    ensures var r := ParseIndices(t, p, room);
      && (r.Some? <==> |ns| <= room && AllIndices(ns))
      && (r.Some? ==> r.value.0 == ns && r.value.1 == p + |Join(Texts(ns))| + 1)
    decreases |ns|
  {
    hide HasAt, Dec, ReadUInt, Join, NextElement, ParseIndices;
    var n, e := ns[0], p + |Dec(ns[0])|;
    JoinParts(t, p, Texts(ns), ']');
    assert Texts(ns)[0] == Dec(n) && Texts(ns)[1..] == Texts(ns[1..]);
    DecIsNotEmpty(n);
    NumberIsRead(t, p, n);
    FirstStands(t, p, Dec(n));
    ElementStands(t, p);
    FirstIndex(t, p, n, e, room);
    if 1 <= n <= 255 && room > 0 {
      if |ns| == 1 {
        IndicesEnd(t, e, room - 1);
        assert ns == [n] + [];
      } else {
        CommaBetweenIndices(t, e, room - 1);
        IndicesAreRead(t, e + 1, ns[1..], room - 1);
        assert ns == [n] + ns[1..];
      }
    }
  }

  lemma FirstIndex(t: string, p: nat, n: nat, e: nat, room: nat)
    requires p <= e <= |t| && NextElement(t, p) == (true, p)
    requires ReadUInt(t, p) == if n <= 65535 then Some((n, e)) else None
    ensures 1 <= n <= 255 && room > 0 ==>
      ParseIndices(t, p, room) == match ParseIndices(t, e, room - 1)
                                  case None => None
                                  case Some((rest, end)) => Some(([n] + rest, end))
    ensures !(1 <= n <= 255 && room > 0) ==> ParseIndices(t, p, room) == None
  {
  }

  lemma IndicesEnd(t: string, e: nat, room: nat)
    requires e < |t| && t[e] == ']'
    ensures ParseIndices(t, e, room) == Some(([], e + 1))
  {
    assert NextElement(t, e) == (false, e + 1);
  }

  lemma CommaBetweenIndices(t: string, e: nat, room: nat)
    requires e < |t| && t[e] == ','
    ensures ParseIndices(t, e, room) == ParseIndices(t, e + 1, room)
  {
    assert NextElement(t, e) == NextElement(t, e + 1);
  }

  /** A list of panel numbers is read exactly if it has 1 to 32 of them, each from 1 to 255. */
  lemma IndexLists(ns: seq<nat>, depth: nat)
    requires ns != [] && depth <= SEL_STACK_MAX
    ensures |ns| <= 32 && AllIndices(ns) ==> Reads("[" + (Join(Texts(ns)) + "]"), Basic(Indices(ns)), depth)
    ensures !(|ns| <= 32 && AllIndices(ns)) ==> Refused("[" + (Join(Texts(ns)) + "]"), depth)
  {
    hide ParseSel, Join, Texts;
    var s := "[" + (Join(Texts(ns)) + "]");
    forall t, p: nat | HasAt(t, p, s) ensures ParseSel(t, p, depth) == IndexOutcome(ns, p + |s|) {
      IndexListIsRead(t, p, ns, depth);
    }
  }

  function IndexOutcome(ns: seq<nat>, e: nat): Parse {
    if |ns| <= SEL_MAX_INDEX_LIST && AllIndices(ns) then Tree(Basic(Indices(ns)), e) else Reject
  }

  lemma IndexListIsRead(t: string, p: nat, ns: seq<nat>, depth: nat)
    requires ns != [] && depth <= SEL_STACK_MAX && HasAt(t, p, "[" + (Join(Texts(ns)) + "]"))
    ensures p <= |t| && ParseSel(t, p, depth) == IndexOutcome(ns, p + 2 + |Join(Texts(ns))|)
  {
    hide HasAt, Join, ParseIndices, Texts;
    var list := Join(Texts(ns));
    HasAtParts(t, p, "[", list + "]");
    HasAtParts(t, p + 1, list, "]");
    FirstStands(t, p, "[");
    FirstStands(t, p + 1 + |list|, "]");
    IndicesAreRead(t, p + 1, ns, SEL_MAX_INDEX_LIST);
  }

  /** Element texts between commas are read as their trees, up to the bracket. */
  lemma {:induction false} ListIsRead(t: string, p: nat, elems: seq<string>, sels: seq<Sel>, depth: nat)
    requires elems != [] && |elems| == |sels| && HasAt(t, p, Join(elems))
    requires p + |Join(elems)| < |t| && t[p + |Join(elems)|] == ']'
    requires forall i :: 0 <= i < |elems| ==> Reads(elems[i], sels[i], depth)
    ensures ParseList(t, p, depth) == Trees(sels, p + |Join(elems)| + 1)
    decreases |elems|
  {
    hide HasAt, ParseSel, ParseList, Join, NextElement;
    var e := p + |elems[0]|;
    JoinParts(t, p, elems, ']');
    assert Reads(elems[0], sels[0], depth);
    FirstStands(t, p, elems[0]);
    ElementStands(t, p);
    if |elems| == 1 {
      ListEnds(t, e, depth);
      ListParses(t, p, p, depth, sels[0], e, [], e + 1);
      assert sels == [sels[0]] + [];
    } else {
      CommaBetweenElements(t, e, depth);
      ListIsRead(t, e + 1, elems[1..], sels[1..], depth);
      ListParses(t, p, p, depth, sels[0], e, sels[1..], p + |Join(elems)| + 1);
      assert sels == [sels[0]] + sels[1..];
    }
  }

  lemma ElementStands(t: string, p: nat)
    requires p < |t| && !IsWs(t[p]) && t[p] != ']' && t[p] != ','
    ensures NextElement(t, p) == (true, p)
  {
  }

  lemma ListEnds(t: string, e: nat, depth: nat)
    requires e < |t| && t[e] == ']'
    ensures ParseList(t, e, depth) == Trees([], e + 1)
  {
    assert NextElement(t, e) == (false, e + 1);
  }

  lemma CommaBetweenElements(t: string, e: nat, depth: nat)
    requires e < |t| && t[e] == ','
    ensures ParseList(t, e, depth) == ParseList(t, e + 1, depth)
  {
    assert NextElement(t, e) == NextElement(t, e + 1);
  }

  // ---------------------------------------------------------------- objects

  /** A field that composes: it gives this tree, and is refused behind another that composes. */
  ghost predicate Composes(f: string, sel: Sel, depth: nat) {
    && (forall t, p: nat {:trigger HasAt(t, p, f)} :: HasAt(t, p, f) ==>
         ParseObject(t, p, depth, None) == ParseObject(t, p + |f|, depth, Some(sel)))
    && (forall t, p: nat, got: Sel {:trigger HasAt(t, p, f), ParseObject(t, p, depth, Some(got))} :: HasAt(t, p, f) ==>
         ParseObject(t, p, depth, Some(got)) == Reject)
  }

  /** A field that is passed over. */
  ghost predicate Ignored(f: string, depth: nat) {
    forall t, p: nat, got: Option<Sel> {:trigger HasAt(t, p, f), ParseObject(t, p, depth, got)} :: HasAt(t, p, f) ==>
      ParseObject(t, p, depth, got) == ParseObject(t, p + |f|, depth, got)
  }

  function Field(key: string, value: string): string {
    Quoted(key) + (":" + value)
  }

  /** The key is read, cut to its buffer, and the value begins behind the colon. */
  lemma FieldParts(t: string, p: nat, key: string, value: string)
    requires HasAt(t, p, Field(key, value)) && PlainText(key)
    requires value != [] && !IsWs(value[0])
    ensures var v := p + |key| + 3;
      && NextKey(t, p) == (Some(KeyOf(if |key| <= 11 then key else key[..11])), v)
      && HasAt(t, v, value) && v + |value| == p + |Field(key, value)| <= |t| && t[v] == value[0]
  {
    hide KeyOf, NextKey, DecodeBody;
    HasAtParts(t, p, Quoted(key), ":" + value);
    var c := p + |key| + 2;
    HasAtParts(t, c, ":", value);
    FirstStands(t, c, ":");
    FirstStands(t, c + 1, value);
    EndIsInText(t, c + 1, value);
    if |key| < KEY_SIZE {
      NoNulKept(key);
      PlainKeyReads(t, p, key);
    } else {
      LongKeyReads(t, p, key);
    }
  }

  lemma LongKeyReads(t: string, p: nat, key: string)
    requires HasAt(t, p, Quoted(key)) && PlainText(key) && |key| > 11
    requires p + |key| + 3 < |t| && t[p + |key| + 2] == ':' && !IsWs(t[p + |key| + 3])
    ensures NextKey(t, p) == (Some(KeyOf(key[..11])), p + |key| + 3)
  {
    hide HasAt, KeyOf;
    PlainStringIsCut(t, p, key, KEY_SIZE);
    NoNulKept(key[..11]);
    FirstStands(t, p, Quoted(key));
    var e := p + |key| + 2;
    assert SkipWs(t, e) == e && SkipWs(t, e + 1) == e + 1;
  }

  function List(elems: seq<string>): string
    requires elems != []
  {
    "[" + (Join(elems) + "]")
  }

  lemma ListParts(t: string, v: nat, elems: seq<string>)
    requires elems != [] && HasAt(t, v, List(elems))
    ensures EnterArray(t, v) == Some(v + 1) && HasAt(t, v + 1, Join(elems))
    ensures v + |List(elems)| == v + 1 + |Join(elems)| + 1 <= |t| && t[v + 1 + |Join(elems)|] == ']'
  {
    hide HasAt, Join;
    HasAtParts(t, v, "[", Join(elems) + "]");
    HasAtParts(t, v + 1, Join(elems), "]");
    FirstStands(t, v, "[");
    FirstStands(t, v + 1 + |Join(elems)|, "]");
  }

  /** `all` over any element texts is the intersection, `any` the union. */
  lemma AllAndAny(elems: seq<string>, sels: seq<Sel>, depth: nat)
    requires elems != [] && |elems| == |sels|
    requires forall i :: 0 <= i < |elems| ==> Reads(elems[i], sels[i], depth + 1)
    ensures Composes(Field("all", List(elems)), Every(sels), depth)
    ensures Composes(Field("any", List(elems)), Any(sels), depth)
  {
    hide Reads;
    ListComposes("all", elems, sels, depth);
    ListComposes("any", elems, sels, depth);
  }

  lemma ListComposes(key: string, elems: seq<string>, sels: seq<Sel>, depth: nat)
    requires key == "all" || key == "any"
    requires elems != [] && |elems| == |sels|
    requires forall i :: 0 <= i < |elems| ==> Reads(elems[i], sels[i], depth + 1)
    ensures Composes(Field(key, List(elems)), if key == "all" then Every(sels) else Any(sels), depth)
  {
    hide Field, List, Reads, ParseObject;
    var f, sel := Field(key, List(elems)), if key == "all" then Every(sels) else Any(sels);
    forall t, p: nat, got: Option<Sel> | HasAt(t, p, f)
      ensures ParseObject(t, p, depth, got) == AfterMember(t, p + |f|, depth, sel, got)
    {
      ListStep(t, p, key, elems, sels, depth, got);
    }
  }

  /** The object behind a composing field. */
  function AfterMember(t: string, e: nat, depth: nat, sel: Sel, got: Option<Sel>): Parse {
    if got.Some? || e > |t| then Reject else ParseObject(t, e, depth, Some(sel))
  }

  lemma ListStep(t: string, p: nat, key: string, elems: seq<string>, sels: seq<Sel>, depth: nat, got: Option<Sel>)
    requires elems != [] && |elems| == |sels| && (key == "all" || key == "any")
    requires HasAt(t, p, Field(key, List(elems)))
    requires forall i :: 0 <= i < |elems| ==> Reads(elems[i], sels[i], depth + 1)
    ensures p <= |t| && ParseObject(t, p, depth, got)
         == AfterMember(t, p + |Field(key, List(elems))|, depth, if key == "all" then Every(sels) else Any(sels), got)
  {
    hide Field, List, Reads, HasAt, ParseObject, ParseMember, NextKey;
    ListField(t, p, key, elems, sels, depth);
    MemberThenObject(t, p, p + |key| + 3, depth, KeyOf(key), if key == "all" then Every(sels) else Any(sels),
      p + |Field(key, List(elems))|, got);
  }

  lemma ListField(t: string, p: nat, key: string, elems: seq<string>, sels: seq<Sel>, depth: nat)
    requires elems != [] && |elems| == |sels| && (key == "all" || key == "any")
    requires HasAt(t, p, Field(key, List(elems)))
    requires forall i :: 0 <= i < |elems| ==> Reads(elems[i], sels[i], depth + 1)
    ensures var v := p + |key| + 3;
      && v <= p + |Field(key, List(elems))| <= |t|
      && NextKey(t, p) == (Some(KeyOf(key)), v) && !KeyOf(key).OtherKey?
      && ParseMember(t, v, depth, KeyOf(key))
         == Tree(if key == "all" then Every(sels) else Any(sels), p + |Field(key, List(elems))|)
  {
    hide HasAt, List, Join, Field, Reads, ParseList, ParseMember, NextKey, EnterArray;
    var v := p + |key| + 3;
    ListStarts(elems);
    FieldParts(t, p, key, List(elems));
    ListParts(t, v, elems);
    ListIsRead(t, v + 1, elems, sels, depth + 1);
    ListMember(t, v, depth, key, v + 1, sels, p + |Field(key, List(elems))|);
  }

  lemma ListMember(t: string, v: nat, depth: nat, key: string, a: nat, sels: seq<Sel>, e: nat)
    requires v <= a <= |t| && EnterArray(t, v) == Some(a) && sels != [] && (key == "all" || key == "any")
    requires ParseList(t, a, depth + 1) == Trees(sels, e)
    ensures ParseMember(t, v, depth, KeyOf(key)) == Tree(if key == "all" then Every(sels) else Any(sels), e)
  {
    hide ParseList, EnterArray;
  }

  lemma ListStarts(elems: seq<string>)
    requires elems != []
    ensures List(elems) != [] && List(elems)[0] == '['
  {
  }

  lemma MemberThenObject(t: string, p: nat, v: nat, depth: nat, key: Key, sel: Sel, e: nat, got: Option<Sel>)
    requires p <= v <= |t| && NextKey(t, p) == (Some(key), v) && !key.OtherKey?
    requires ParseMember(t, v, depth, key) == Tree(sel, e) && p <= e <= |t|
    ensures ParseObject(t, p, depth, got) == AfterMember(t, e, depth, sel, got)
  {
  }

  /** `not` over any element text is the complement. */
  lemma NotOf(elem: string, sel: Sel, depth: nat)
    requires Reads(elem, sel, depth + 1)
    ensures Composes(Field("not", elem), Not(sel), depth)
  {
    hide Field, Reads, ParseObject;
    var f := Field("not", elem);
    forall t, p: nat, got: Option<Sel> | HasAt(t, p, f)
      ensures ParseObject(t, p, depth, got) == AfterMember(t, p + |f|, depth, Not(sel), got)
    {
      NotStep(t, p, elem, sel, depth, got);
    }
  }

  lemma NotStep(t: string, p: nat, elem: string, sel: Sel, depth: nat, got: Option<Sel>)
    requires HasAt(t, p, Field("not", elem)) && Reads(elem, sel, depth + 1)
    ensures p <= |t|
    ensures ParseObject(t, p, depth, got) == AfterMember(t, p + |Field("not", elem)|, depth, Not(sel), got)
  {
    hide Field, Reads, HasAt, ParseObject, ParseMember, NextKey;
    NotField(t, p, elem, sel, depth);
    MemberThenObject(t, p, p + 6, depth, NotKey, Not(sel), p + |Field("not", elem)|, got);
  }

  lemma NotField(t: string, p: nat, elem: string, sel: Sel, depth: nat)
    requires HasAt(t, p, Field("not", elem)) && Reads(elem, sel, depth + 1)
    ensures p + 6 <= p + |Field("not", elem)| <= |t| && NextKey(t, p) == (Some(NotKey), p + 6)
    ensures ParseMember(t, p + 6, depth, NotKey) == Tree(Not(sel), p + |Field("not", elem)|)
  {
    hide HasAt, Field, NextKey;
    FieldParts(t, p, "not", elem);
    assert ParseSel(t, p + 6, depth + 1) == Tree(sel, p + 6 + |elem|);
  }

  /** `exclude` is the complement of its list. */
  lemma ExcludeOf(ns: seq<nat>, depth: nat)
    requires 0 < |ns| <= SEL_MAX_INDEX_LIST && AllIndices(ns)
    ensures Composes(Field("exclude", List(Texts(ns))), Not(Basic(Indices(ns))), depth)
  {
    hide Field, List, Texts, ParseObject;
    var f, sel := Field("exclude", List(Texts(ns))), Not(Basic(Indices(ns)));
    forall t, p: nat, got: Option<Sel> | HasAt(t, p, f)
      ensures ParseObject(t, p, depth, got) == AfterMember(t, p + |f|, depth, sel, got)
    {
      ExcludeStep(t, p, ns, depth, got);
    }
  }

  lemma ExcludeStep(t: string, p: nat, ns: seq<nat>, depth: nat, got: Option<Sel>)
    requires 0 < |ns| <= SEL_MAX_INDEX_LIST && AllIndices(ns) && HasAt(t, p, Field("exclude", List(Texts(ns))))
    ensures p <= |t| && ParseObject(t, p, depth, got)
         == AfterMember(t, p + |Field("exclude", List(Texts(ns)))|, depth, Not(Basic(Indices(ns))), got)
  {
    hide Field, List, HasAt, ParseObject, ParseMember, NextKey;
    ExcludeField(t, p, ns, depth);
    MemberThenObject(t, p, p + 10, depth, ExcludeKey, Not(Basic(Indices(ns))), p + |Field("exclude", List(Texts(ns)))|, got);
  }

  lemma ExcludeField(t: string, p: nat, ns: seq<nat>, depth: nat)
    requires 0 < |ns| <= SEL_MAX_INDEX_LIST && AllIndices(ns) && HasAt(t, p, Field("exclude", List(Texts(ns))))
    ensures p + 10 <= p + |Field("exclude", List(Texts(ns)))| <= |t| && NextKey(t, p) == (Some(ExcludeKey), p + 10)
    ensures ParseMember(t, p + 10, depth, ExcludeKey)
         == Tree(Not(Basic(Indices(ns))), p + |Field("exclude", List(Texts(ns)))|)
  {
    hide HasAt, List, Join, Field, ParseIndices, NextKey;
    var elems, v := Texts(ns), p + 10;
    ListStarts(elems);
    FieldParts(t, p, "exclude", List(elems));
    ListParts(t, v, elems);
    IndicesAreRead(t, v + 1, ns, SEL_MAX_INDEX_LIST);
  }

  /** A field with any other key and a quoted string is passed over. */
  lemma OtherFieldsAreIgnored(key: string, value: string, depth: nat)
    requires PlainText(key) && key != "any" && key != "all" && key != "not" && key != "exclude"
    ensures Ignored(Field(key, Quote(value)), depth)
  {
    hide Field, Quote, ParseObject;
    forall t, p: nat, got: Option<Sel> | HasAt(t, p, Field(key, Quote(value)))
      ensures ParseObject(t, p, depth, got) == ParseObject(t, p + |Field(key, Quote(value))|, depth, got)
    {
      OtherStep(t, p, key, value, depth, got);
    }
  }

  lemma OtherStep(t: string, p: nat, key: string, value: string, depth: nat, got: Option<Sel>)
    requires PlainText(key) && key != "any" && key != "all" && key != "not" && key != "exclude"
    requires HasAt(t, p, Field(key, Quote(value)))
    ensures p <= p + |Field(key, Quote(value))| <= |t|
    ensures ParseObject(t, p, depth, got) == ParseObject(t, p + |Field(key, Quote(value))|, depth, got)
  {
    hide Field, Quote, HasAt, SkipValue, ParseObject, NextKey;
    QuoteStarts(value);
    FieldParts(t, p, key, Quote(value));
    U.QuotedStringIsSkipped(t, p + |key| + 3, value);
    SkippedThenObject(t, p, p + |key| + 3, depth, p + |Field(key, Quote(value))|, got);
  }

  lemma SkippedThenObject(t: string, p: nat, v: nat, depth: nat, e: nat, got: Option<Sel>)
    requires p <= v <= e <= |t| && NextKey(t, p) == (Some(OtherKey), v) && SkipValue(t, v) == Skipped(true, e)
    ensures ParseObject(t, p, depth, got) == ParseObject(t, e, depth, got)
  {
  }

  lemma QuoteStarts(value: string)
    ensures Quote(value) != [] && Quote(value)[0] == '"'
  {
  }

  /** What is composed after these fields: nothing yet, a tree, or an error for a second composition key. */
  datatype Composed = Nothing | One(sel: Sel) | Twice

  /** One more field: `kind` is the tree it composes, or none for one that is passed over. */
  function Add(c: Composed, kind: Option<Sel>): Composed {
    if kind.None? || c.Twice? then c else if c.One? then Twice else One(kind.value)
  }

  function Compose(c: Composed, kinds: seq<Option<Sel>>): Composed
    decreases |kinds|
  {
    if kinds == [] then c else Compose(Add(c, kinds[0]), kinds[1..])
  }

  /** Each field is of its kind. */
  ghost predicate Kinds(fields: seq<string>, kinds: seq<Option<Sel>>, depth: nat) {
    && |fields| == |kinds|
    && forall i :: 0 <= i < |fields| ==>
         if kinds[i].Some? then Composes(fields[i], kinds[i].value, depth) else Ignored(fields[i], depth)
  }

  function Outcome(c: Composed, e: nat): Parse {
    if c.One? then Tree(c.sel, e) else Reject
  }

  lemma {:induction false} TwiceStays(kinds: seq<Option<Sel>>)
    ensures Compose(Twice, kinds) == Twice
    decreases |kinds|
  {
    if kinds != [] {
      TwiceStays(kinds[1..]);
    }
  }

  function Got(c: Composed): Option<Sel>
    requires !c.Twice?
  {
    if c.One? then Some(c.sel) else None
  }

  /** The fields of an object, up to its brace. */
  lemma {:induction false} FieldsAreRead(t: string, p: nat, fields: seq<string>, kinds: seq<Option<Sel>>, depth: nat, c: Composed)
    requires fields != [] && Kinds(fields, kinds, depth) && HasAt(t, p, Join(fields)) && !c.Twice?
    requires p + |Join(fields)| < |t| && t[p + |Join(fields)|] == '}'
    ensures p <= |t| && ParseObject(t, p, depth, Got(c)) == Outcome(Compose(c, kinds), p + |Join(fields)| + 1)
    decreases |fields|
  {
    hide HasAt, ParseObject, Join, Composes, Ignored;
    var e, d := p + |fields[0]|, Add(c, kinds[0]);
    JoinParts(t, p, fields, '}');
    FirstField(t, p, fields[0], kinds[0], depth, c);
    if d.Twice? {
      TwiceStays(kinds[1..]);
    } else if |fields| == 1 {
      assert kinds[1..] == [];
      BraceEnds(t, e, depth, Got(d));
    } else {
      CommaBetweenFields(t, e, depth, Got(d));
      FieldsAreRead(t, e + 1, fields[1..], kinds[1..], depth, d);
    }
  }

  lemma FirstField(t: string, p: nat, field: string, kind: Option<Sel>, depth: nat, c: Composed)
    requires HasAt(t, p, field) && !c.Twice?
    requires if kind.Some? then Composes(field, kind.value, depth) else Ignored(field, depth)
    ensures p <= p + |field| <= |t|
    ensures ParseObject(t, p, depth, Got(c))
         == if Add(c, kind).Twice? then Reject else ParseObject(t, p + |field|, depth, Got(Add(c, kind)))
  {
    EndIsInText(t, p, field);
    hide ParseObject;
  }

  lemma BraceEnds(t: string, e: nat, depth: nat, got: Option<Sel>)
    requires e < |t| && t[e] == '}'
    ensures ParseObject(t, e, depth, got) == if got.Some? then Tree(got.value, e + 1) else Reject
  {
    assert NextKey(t, e) == (None, e + 1);
  }

  lemma CommaBetweenFields(t: string, e: nat, depth: nat, got: Option<Sel>)
    requires e < |t| && t[e] == ','
    ensures ParseObject(t, e, depth, got) == ParseObject(t, e + 1, depth, got)
  {
    assert NextKey(t, e) == NextKey(t, e + 1);
  }

  function Object(fields: seq<string>): string
    requires fields != []
  {
    "{" + (Join(fields) + "}")
  }

  /** An object is what its one composing field is; with none or two of them it is refused. */
  lemma Objects(fields: seq<string>, kinds: seq<Option<Sel>>, depth: nat)
    requires fields != [] && Kinds(fields, kinds, depth) && depth <= SEL_STACK_MAX
    ensures Compose(Nothing, kinds).One? ==> Reads(Object(fields), Compose(Nothing, kinds).sel, depth)
    ensures !Compose(Nothing, kinds).One? ==> Refused(Object(fields), depth)
  {
    hide Kinds, ParseSel, Join;
    var c, s := Compose(Nothing, kinds), Object(fields);
    forall t, p: nat | HasAt(t, p, s) ensures ParseSel(t, p, depth) == Outcome(c, p + |s|) {
      ObjectIsRead(t, p, fields, kinds, depth);
    }
  }

  lemma ObjectIsRead(t: string, p: nat, fields: seq<string>, kinds: seq<Option<Sel>>, depth: nat)
    requires fields != [] && Kinds(fields, kinds, depth) && depth <= SEL_STACK_MAX && HasAt(t, p, Object(fields))
    ensures p <= |t| && ParseSel(t, p, depth) == Outcome(Compose(Nothing, kinds), p + |Object(fields)|)
  {
    hide Kinds, HasAt, Join, ParseObject, ParseSel, Compose;
    HasAtParts(t, p, "{", Join(fields) + "}");
    HasAtParts(t, p + 1, Join(fields), "}");
    FirstStands(t, p, "{");
    FirstStands(t, p + 1 + |Join(fields)|, "}");
    FieldsAreRead(t, p + 1, fields, kinds, depth, Nothing);
    ObjectEnters(t, p, depth);
  }

  /** Exactly one composing field, anywhere among the others. */
  lemma {:induction false} OneComposes(kinds: seq<Option<Sel>>, m: nat)
    requires m < |kinds| && kinds[m].Some? && forall i :: 0 <= i < |kinds| && i != m ==> kinds[i].None?
    ensures Compose(Nothing, kinds) == One(kinds[m].value)
    decreases |kinds|
  {
    if m == 0 {
      NoneComposes(One(kinds[0].value), kinds[1..]);
    } else {
      OneComposes(kinds[1..], m - 1);
    }
  }

  lemma {:induction false} NoneComposes(c: Composed, kinds: seq<Option<Sel>>)
    requires forall i :: 0 <= i < |kinds| ==> kinds[i].None?
    ensures Compose(c, kinds) == c
    decreases |kinds|
  {
    if kinds != [] {
      NoneComposes(c, kinds[1..]);
    }
  }

  /** Two composing fields, with anything between, before and behind them. */
  lemma {:induction false} TwoCompose(c: Composed, kinds: seq<Option<Sel>>, m: nat, n: nat)
    requires m < n < |kinds| && kinds[m].Some? && kinds[n].Some?
    ensures Compose(c, kinds) == Twice
    decreases |kinds|
  {
    if m == 0 {
      OneMoreComposes(Add(c, kinds[0]), kinds[1..], n - 1);
    } else {
      TwoCompose(Add(c, kinds[0]), kinds[1..], m - 1, n - 1);
    }
  }

  lemma {:induction false} OneMoreComposes(c: Composed, kinds: seq<Option<Sel>>, n: nat)
    requires n < |kinds| && kinds[n].Some? && !c.Nothing?
    ensures Compose(c, kinds) == Twice
    decreases |kinds|
  {
    if n == 0 {
      TwiceStays(kinds[1..]);
    } else {
      OneMoreComposes(Add(c, kinds[0]), kinds[1..], n - 1);
    }
  }

  /** The four compositions as whole texts, over any element texts. */
  lemma CompositionTexts(elems: seq<string>, sels: seq<Sel>, depth: nat)
    requires elems != [] && |elems| == |sels| && depth <= SEL_STACK_MAX
    requires forall i :: 0 <= i < |elems| ==> Reads(elems[i], sels[i], depth + 1)
    ensures Reads(Object([Field("all", List(elems))]), Every(sels), depth)
    ensures Reads(Object([Field("any", List(elems))]), Any(sels), depth)
    ensures Reads(Object([Field("not", elems[0])]), Not(sels[0]), depth)
  {
    hide Reads, Composes;
    AllAndAny(elems, sels, depth);
    NotOf(elems[0], sels[0], depth);
    OnlyField(Field("all", List(elems)), Every(sels), depth);
    OnlyField(Field("any", List(elems)), Any(sels), depth);
    OnlyField(Field("not", elems[0]), Not(sels[0]), depth);
  }

  lemma OnlyField(field: string, sel: Sel, depth: nat)
    requires Composes(field, sel, depth) && depth <= SEL_STACK_MAX
    ensures Reads(Object([field]), sel, depth)
  {
    hide Composes, Reads, Object;
    OneComposes([Some(sel)], 0);
    Objects([field], [Some(sel)], depth);
  }

  lemma ExcludeText(ns: seq<nat>, depth: nat)
    requires 0 < |ns| <= SEL_MAX_INDEX_LIST && AllIndices(ns) && depth <= SEL_STACK_MAX
    ensures Reads(Object([Field("exclude", List(Texts(ns)))]), Not(Basic(Indices(ns))), depth)
  {
    hide Reads, Composes, Object;
    ExcludeOf(ns, depth);
    OnlyField(Field("exclude", List(Texts(ns))), Not(Basic(Indices(ns))), depth);
  }

  /** Below the seventh level everything is refused. */
  lemma TooDeep(s: string, depth: nat)
    requires depth > SEL_STACK_MAX
    ensures Refused(s, depth)
  {
    forall t, p: nat | HasAt(t, p, s) ensures ParseSel(t, p, depth) == Reject {
      EndIsInText(t, p, s);
    }
  }

  // ---------------------------------------------------------------- whitespace

  /** The whitespace of JSON (section 2 of RFC 8259): space, tab, line feed and carriage return. */
  predicate Blank(s: string) {
    forall i :: 0 <= i < |s| ==> s[i] as int == 0x20 || s[i] as int == 0x09 || s[i] as int == 0x0A || s[i] as int == 0x0D
  }

  lemma {:induction false} BlankIsSkipped(t: string, p: nat, ws: string)
    requires HasAt(t, p, ws) && Blank(ws)
    ensures p + |ws| <= |t| && SkipWs(t, p) == SkipWs(t, p + |ws|)
    decreases |ws|
  {
    if ws != [] {
      assert ws == [ws[0]] + ws[1..];
      HasAtParts(t, p, [ws[0]], ws[1..]);
      FirstStands(t, p, ws);
      BlankIsSkipped(t, p + 1, ws[1..]);
    }
  }

  /** Whitespace in front of a selector, a field or an element changes nothing. */
  lemma BlankInFront(t: string, p: nat, ws: string, depth: nat, got: Option<Sel>)
    requires HasAt(t, p, ws) && Blank(ws)
    ensures p <= p + |ws| <= |t| && ParseSel(t, p, depth) == ParseSel(t, p + |ws|, depth)
    ensures ParseObject(t, p, depth, got) == ParseObject(t, p + |ws|, depth, got)
    ensures ParseList(t, p, depth) == ParseList(t, p + |ws|, depth)
    ensures ParseIndexList(t, p) == ParseIndexList(t, p + |ws|)
    ensures EnterArray(t, p) == EnterArray(t, p + |ws|)
  {
    hide HasAt, ParseSel, ParseObject, ParseList, ParseIndexList, EnterArray;
    BlankIsSkipped(t, p, ws);
    SelBehindBlank(t, p, p + |ws|, depth);
    ObjectBehindBlank(t, p, p + |ws|, depth, got);
    ListBehindBlank(t, p, p + |ws|, depth);
    IndicesBehindBlank(t, p, p + |ws|);
  }

  lemma SelBehindBlank(t: string, p: nat, q: nat, depth: nat)
    requires p <= q <= |t| && SkipWs(t, p) == SkipWs(t, q)
    ensures ParseSel(t, p, depth) == ParseSel(t, q, depth) && EnterArray(t, p) == EnterArray(t, q)
  {
    hide SkipWs, ReadString, TokenLeaf, ParseObject, ParseIndexList;
  }

  lemma ObjectBehindBlank(t: string, p: nat, q: nat, depth: nat, got: Option<Sel>)
    requires p <= q <= |t| && SkipWs(t, p) == SkipWs(t, q)
    ensures ParseObject(t, p, depth, got) == ParseObject(t, q, depth, got)
  {
    hide SkipWs, SkipValue, ParseMember;
    KeyBehindBlank(t, p, q);
  }

  lemma KeyBehindBlank(t: string, p: nat, q: nat)
    requires p <= q <= |t| && SkipWs(t, p) == SkipWs(t, q)
    ensures NextKey(t, p) == NextKey(t, q)
  {
    hide SkipWs, ReadString, KeyOf;
  }

  lemma ListBehindBlank(t: string, p: nat, q: nat, depth: nat)
    requires p <= q <= |t| && SkipWs(t, p) == SkipWs(t, q)
    ensures ParseList(t, p, depth) == ParseList(t, q, depth)
  {
    hide SkipWs, ParseSel;
    assert NextElement(t, p) == NextElement(t, q);
  }

  lemma IndicesBehindBlank(t: string, p: nat, q: nat)
    requires p <= q <= |t| && SkipWs(t, p) == SkipWs(t, q)
    ensures ParseIndexList(t, p) == ParseIndexList(t, q)
  {
    hide SkipWs, ReadUInt;
    assert NextElement(t, p) == NextElement(t, q);
  }

  // ---------------------------------------------------------------- refused members

  /** Text that starts as a selector does. */
  predicate Starts(s: string) {
    s != [] && (s[0] == '"' || s[0] == '[' || s[0] == '{')
  }

  lemma RefusedMember(t: string, p: nat, key: string, value: string, rest: string, depth: nat)
    requires HasAt(t, p, "{" + (Field(key, value) + rest)) && PlainText(key) && |key| <= 11 && depth <= SEL_STACK_MAX
    requires Starts(value) && !KeyOf(key).OtherKey?
    ensures var v := p + |key| + 4;
      v <= |t| && HasAt(t, v, value) && (ParseMember(t, v, depth, KeyOf(key)) == Reject ==> ParseSel(t, p, depth) == Reject)
  {
    hide HasAt, Field, NextKey, ParseMember, KeyOf;
    HasAtParts(t, p, "{", Field(key, value) + rest);
    HasAtParts(t, p + 1, Field(key, value), rest);
    FirstStands(t, p, "{");
    FieldParts(t, p + 1, key, value);
    ObjectEnters(t, p, depth);
  }

  /** `any`, `all` and `exclude` need a list that is not empty. */
  lemma EmptyListsAreRefused(key: string, value: string, rest: string, depth: nat)
    requires (key == "any" || key == "all" || key == "exclude") && depth <= SEL_STACK_MAX
    requires value == "[]" || (value != [] && (value[0] == '"' || value[0] == '{'))
    ensures Refused("{" + (Field(key, value) + rest), depth)
  {
    hide Field, ParseSel;
    forall t, p: nat | HasAt(t, p, "{" + (Field(key, value) + rest)) ensures ParseSel(t, p, depth) == Reject {
      RefusedMember(t, p, key, value, rest, depth);
      NoElements(t, p + |key| + 4, key, value, depth);
    }
  }

  lemma NoElements(t: string, v: nat, key: string, value: string, depth: nat)
    requires (key == "any" || key == "all" || key == "exclude") && HasAt(t, v, value)
    requires value == "[]" || (value != [] && (value[0] == '"' || value[0] == '{'))
    ensures ParseMember(t, v, depth, KeyOf(key)) == Reject
  {
    FirstStands(t, v, value);
    if value == "[]" {
      assert CharAt(t, v, value, 1);
      assert NextElement(t, v + 1) == (false, v + 2);
    }
  }

  /** What is refused inside `not` is refused. */
  lemma RefusedUnderNot(elem: string, rest: string, depth: nat)
    requires Refused(elem, depth + 1) && Starts(elem) && depth <= SEL_STACK_MAX
    ensures Refused("{" + (Field("not", elem) + rest), depth)
  {
    hide Field, ParseSel;
    forall t, p: nat | HasAt(t, p, "{" + (Field("not", elem) + rest)) ensures ParseSel(t, p, depth) == Reject {
      RefusedMember(t, p, "not", elem, rest, depth);
      assert ParseSel(t, p + 7, depth + 1) == Reject;
      assert ParseMember(t, p + 7, depth, NotKey) == Reject;
    }
  }

  /** One refused element behind any number of others refuses the list. */
  lemma RefusedElement(key: string, elems: seq<string>, sels: seq<Sel>, rest: string, depth: nat)
    requires (key == "any" || key == "all") && |sels| < |elems| && depth <= SEL_STACK_MAX
    requires forall i :: 0 <= i < |sels| ==> Reads(elems[i], sels[i], depth + 1)
    requires Refused(elems[|sels|], depth + 1) && Starts(elems[|sels|])
    ensures Refused("{" + (Field(key, List(elems)) + rest), depth)
  {
    hide Field, ParseSel, List, Reads, Refused;
    ListStarts(elems);
    forall t, p: nat | HasAt(t, p, "{" + (Field(key, List(elems)) + rest)) ensures ParseSel(t, p, depth) == Reject {
      RefusedMember(t, p, key, List(elems), rest, depth);
      RefusedMemberList(t, p + |key| + 4, key, elems, sels, depth);
    }
    UnfoldRefused("{" + (Field(key, List(elems)) + rest), depth);
  }

  lemma UnfoldRefused(s: string, depth: nat)
    requires forall t, p: nat {:trigger HasAt(t, p, s)} :: HasAt(t, p, s) ==> ParseSel(t, p, depth) == Reject
    ensures Refused(s, depth)
  {
  }

  lemma RefusedMemberList(t: string, v: nat, key: string, elems: seq<string>, sels: seq<Sel>, depth: nat)
    requires (key == "any" || key == "all") && |sels| < |elems| && depth <= SEL_STACK_MAX && HasAt(t, v, List(elems))
    requires forall i :: 0 <= i < |sels| ==> Reads(elems[i], sels[i], depth + 1)
    requires Refused(elems[|sels|], depth + 1) && Starts(elems[|sels|])
    ensures ParseMember(t, v, depth, KeyOf(key)) == Reject
  {
    hide HasAt, List, Join, Reads, Refused, ParseList;
    ListParts(t, v, elems);
    ListIsRefused(t, v + 1, elems, sels, depth + 1);
  }

  lemma {:induction false} ListIsRefused(t: string, p: nat, elems: seq<string>, sels: seq<Sel>, depth: nat)
    requires |sels| < |elems| && HasAt(t, p, Join(elems))
    requires p + |Join(elems)| < |t| && t[p + |Join(elems)|] == ']'
    requires forall i :: 0 <= i < |sels| ==> Reads(elems[i], sels[i], depth)
    requires Refused(elems[|sels|], depth) && Starts(elems[|sels|])
    ensures ParseList(t, p, depth) == RejectAll
    decreases |elems|
  {
    hide HasAt, Join, NextElement;
    var e := p + |elems[0]|;
    JoinParts(t, p, elems, ']');
    if sels != [] {
      assert Reads(elems[0], sels[0], depth);
      FirstStands(t, p, elems[0]);
      ElementStands(t, p);
      CommaBetweenElements(t, e, depth);
      ListIsRefused(t, e + 1, elems[1..], sels[1..], depth);
    } else {
      FirstStands(t, p, elems[0]);
      ElementStands(t, p);
    }
  }

  // ---------------------------------------------------------------- the trees that texts give

  predicate WritableLeaf(leaf: Leaf) {
    match leaf
    case Subtree(n) => n > 0
    case Neighbors(n) => n > 0
    case First(n) => n > 0
    case Last(n) => n > 0
    case Indices(ns) => 0 < |ns| <= SEL_MAX_INDEX_LIST && AllIndices(ns)
    case _ => true
  }

  /** The trees for which there is a text: panel numbers and counts from 1, and at most seven levels. */
  predicate Writable(sel: Sel, depth: nat)
    ensures Writable(sel, depth) ==> WellFormed(sel)
  {
    && depth <= SEL_STACK_MAX
    && match sel
       case Basic(leaf) => WritableLeaf(leaf)
       case Not(s) => if IsList(s) then WritableLeaf(s.leaf) else Writable(s, depth + 1)
       case Any(sels) => sels != [] && forall i :: 0 <= i < |sels| ==> Writable(sels[i], depth + 1)
       case Every(sels) => sels != [] && forall i :: 0 <= i < |sels| ==> Writable(sels[i], depth + 1)
  }

  predicate IsList(sel: Sel) {
    sel.Basic? && sel.leaf.Indices?
  }

  /** Thousandths. */
  function Three(m: nat): (s: string)
    requires m < 1000
    ensures AllDigits(s) && |s| == 3
  {
    [Digit(m / 100), Digit(m / 10 % 10), Digit(m % 10)]
  }

  /** A decimal for `b` parts of 255. */
  function Part(b: byte): string {
    var k := (b * 1000 + 127) / 255;
    Decimal(k / 1000, Three(k % 1000))
  }

  function LeafText(leaf: Leaf): string
    requires WellFormed(Basic(leaf))
  {
    match leaf
    case All => Quoted("all")
    case Root => Quoted("root")
    case Leaves => Quoted("leaves")
    case Branches => Quoted("branches")
    case Even => Quoted("even")
    case Odd => Quoted("odd")
    case Depth(lo, hi) => Quoted(With("depth", Range(Dec(lo), Dec(hi))))
    case Subtree(n) => Quoted(With("subtree", Dec(n)))
    case Neighbors(n) => Quoted(With("neighbors", Dec(n)))
    case Fraction(lo, hi) => Quoted(With("fraction", Range(Part(lo), Part(hi))))
    case First(n) => Quoted(With("first", Dec(n)))
    case Last(n) => Quoted(With("last", Dec(n)))
    case Indices(ns) => List(Texts(ns))
  }

  /** A text for a tree. */
  function SelText(sel: Sel): string
    requires WellFormed(sel)
  {
    match sel
    case Basic(leaf) => LeafText(leaf)
    case Not(s) => Object([if IsList(s) then Field("exclude", LeafText(s.leaf)) else Field("not", SelText(s))])
    case Any(sels) => Object([Field("any", List(seq(|sels|, i requires 0 <= i < |sels| => SelText(sels[i]))))])
    case Every(sels) => Object([Field("all", List(seq(|sels|, i requires 0 <= i < |sels| => SelText(sels[i]))))])
  }

  lemma ShortDec(b: byte)
    ensures |Dec(b)| <= 3
  {
    assert |Dec(b / 10 / 10)| == 1;
    assert |Dec(b / 10)| <= 2;
  }

  lemma ThreeDigits(a: char, b: char, c: char)
    requires IsDigit(a) && IsDigit(b) && IsDigit(c)
    ensures Fractional([a, b, c]) == (DigitVal(a) * 100 + DigitVal(b) * 10 + DigitVal(c)) as real / 1000.0
  {
    var s := [a, b, c];
    assert s[1..] == [b, c] && [b, c][1..] == [c] && [c][1..] == [];
    assert Fractional([c]) == DigitVal(c) as real / 10.0;
    assert Fractional([b, c]) == (DigitVal(b) as real + Fractional([c])) / 10.0;
  }

  lemma Decimals(m: nat)
    requires m < 1000
    ensures m / 100 < 10 && m / 100 * 100 + m / 10 % 10 * 10 + m % 10 == m
  {
  }

  lemma ThreeIsThousandths(m: nat)
    requires m < 1000
    ensures Fractional(Three(m)) == m as real / 1000.0
  {
    hide Fractional;
    var a, b, c := m / 100, m / 10 % 10, m % 10;
    Decimals(m);
    ThreeDigits(Digit(a), Digit(b), Digit(c));
  }

  /** The decimal of a byte is nearest to that byte. */
  lemma PartIsNearest(b: byte)
    ensures var k: nat := (b * 1000 + 127) / 255;
      && k <= 1000 && Nearest(b, (k / 1000) as real + Fractional(Three(k % 1000)))
      && (k / 1000) as real + Fractional(Three(k % 1000)) <= 1.0
  {
    hide Fractional, Three;
    var k: nat := (b * 1000 + 127) / 255;
    ThreeIsThousandths(k % 1000);
    assert k == k / 1000 * 1000 + k % 1000;
    assert (k / 1000) as real + (k % 1000) as real / 1000.0 == k as real / 1000.0;
  }

  lemma ShortPart(b: byte)
    ensures |Part(b)| == 5
  {
    var k: nat := (b * 1000 + 127) / 255;
    assert |Dec(k / 1000)| == 1;
  }

  lemma NothingBehind(s: string)
    ensures s + [] == s && Rest([]) && DecimalRest(s, [])
  {
  }

  lemma FractionReads(lo: byte, hi: byte, depth: nat)
    requires depth <= SEL_STACK_MAX
    ensures Reads(LeafText(Fraction(lo, hi)), Basic(Fraction(lo, hi)), depth)
  {
    hide Reads, Nearest, Fractional, Decimal, Three, Quoted;
    var j: nat, k: nat := (lo * 1000 + 127) / 255, (hi * 1000 + 127) / 255;
    PartIsNearest(lo);
    PartIsNearest(hi);
    ShortPart(lo);
    ShortPart(hi);
    ThreeIsDigits(j % 1000);
    ThreeIsDigits(k % 1000);
    NothingBehind(Three(k % 1000));
    NothingBehind(Part(hi));
    FractionTokens(j / 1000, Three(j % 1000), k / 1000, Three(k % 1000), [], lo, hi, depth);
  }

  lemma ThreeIsDigits(m: nat)
    requires m < 1000
    ensures AllDigits(Three(m))
  {
  }

  lemma LeafTextReads(leaf: Leaf, depth: nat)
    requires WritableLeaf(leaf) && depth <= SEL_STACK_MAX
    ensures WellFormed(Basic(leaf)) && Reads(LeafText(leaf), Basic(leaf), depth)
  {
    hide Reads, Quoted, Dec, List, Texts;
    match leaf
    case Depth(lo, hi) =>
      ShortDec(lo);
      ShortDec(hi);
      NothingBehind(Dec(hi));
      DepthRanges(lo, hi, [], depth);
    case Subtree(n) =>
      ShortDec(n);
      NothingBehind(Dec(n));
      CountTokens(n, [], depth);
    case Neighbors(n) =>
      ShortDec(n);
      NothingBehind(Dec(n));
      CountTokens(n, [], depth);
    case First(n) =>
      ShortDec(n);
      NothingBehind(Dec(n));
      CountTokens(n, [], depth);
    case Last(n) =>
      ShortDec(n);
      NothingBehind(Dec(n));
      CountTokens(n, [], depth);
    case Fraction(lo, hi) =>
      FractionReads(lo, hi, depth);
    case Indices(ns) =>
      IndexListReads(ns, depth);
    case _ =>
      BareTokens(depth);
  }

  lemma IndexListReads(ns: seq<byte>, depth: nat)
    requires 0 < |ns| <= SEL_MAX_INDEX_LIST && AllIndices(ns) && depth <= SEL_STACK_MAX
    ensures Reads(List(Texts(ns)), Basic(Indices(ns)), depth)
  {
    hide Reads, Join;
    IndexLists(ns, depth);
  }

  /** The text of a tree is read as the tree. */
  lemma {:induction false} TextIsRead(sel: Sel, depth: nat)
    requires Writable(sel, depth)
    ensures Reads(SelText(sel), sel, depth)
    decreases sel
  {
    hide Reads, Composes, LeafText, Object;
    match sel
    case Basic(leaf) => LeafTextReads(leaf, depth);
    case Not(s) =>
      if IsList(s) {
        ExcludedText(s.leaf.panels, depth);
      } else {
        TextIsRead(s, depth + 1);
        NotOf(SelText(s), s, depth);
        OnlyField(Field("not", SelText(s)), sel, depth);
      }
    case Any(sels) =>
      forall i | 0 <= i < |sels| ensures Reads(SelText(sels[i]), sels[i], depth + 1) {
        TextIsRead(sels[i], depth + 1);
      }
      var elems := seq(|sels|, i requires 0 <= i < |sels| => SelText(sels[i]));
      CompositionTexts(elems, sels, depth);
    case Every(sels) =>
      forall i | 0 <= i < |sels| ensures Reads(SelText(sels[i]), sels[i], depth + 1) {
        TextIsRead(sels[i], depth + 1);
      }
      var elems := seq(|sels|, i requires 0 <= i < |sels| => SelText(sels[i]));
      CompositionTexts(elems, sels, depth);
  }

  lemma ExcludedText(ns: seq<byte>, depth: nat)
    requires 0 < |ns| <= SEL_MAX_INDEX_LIST && AllIndices(ns) && depth <= SEL_STACK_MAX
    ensures Reads(Object([Field("exclude", LeafText(Indices(ns)))]), Not(Basic(Indices(ns))), depth)
  {
    hide Reads, Object, Field, List, Texts;
    ExcludeText(ns, depth);
  }

  // ---------------------------------------------------------------- and no others

  lemma TokenLeafIsWritable(tok: string)
    requires TokenLeaf(tok).Some?
    ensures WritableLeaf(TokenLeaf(tok).value)
  {
  }

  lemma {:induction false} IndicesAreWritable(t: string, p: nat, room: nat)
    requires p <= |t| && ParseIndices(t, p, room).Some?
    ensures AllIndices(ParseIndices(t, p, room).value.0)
    decreases |t| - p
  {
    var (more, q) := NextElement(t, p);
    if more {
      IndicesAreWritable(t, ReadUInt(t, q).value.1, room - 1);
    }
  }

  lemma {:induction false} ParsedIsWritable(t: string, p: nat, depth: nat)
    requires p <= |t| && ParseSel(t, p, depth).Tree?
    ensures Writable(ParseSel(t, p, depth).sel, depth)
    decreases |t| - p, 1
  {
    hide TokenLeaf, ParseIndices, ParseObject;
    var q := SkipWs(t, p);
    if t[q] == '"' {
      TokenLeafIsWritable(CStr(ReadString(t, q, TOKEN_SIZE).value.0));
    } else if t[q] == '[' {
      IndicesAreWritable(t, q + 1, SEL_MAX_INDEX_LIST);
    } else {
      WritableObject(t, q + 1, depth, None);
    }
  }

  lemma {:induction false} WritableObject(t: string, p: nat, depth: nat, got: Option<Sel>)
    requires p <= |t| && depth <= SEL_STACK_MAX && ParseObject(t, p, depth, got).Tree?
    requires got.Some? ==> Writable(got.value, depth)
    ensures Writable(ParseObject(t, p, depth, got).sel, depth)
    decreases |t| - p, 2
  {
    hide Writable, ParseMember;
    var (key, v) := NextKey(t, p);
    if key.Some? {
      if key.value.OtherKey? {
        WritableObject(t, SkipValue(t, v).p, depth, got);
      } else {
        WritableMember(t, v, depth, key.value);
        var member := ParseMember(t, v, depth, key.value);
        WritableObject(t, member.p, depth, Some(member.sel));
      }
    }
  }

  lemma {:induction false} WritableMember(t: string, v: nat, depth: nat, key: Key)
    requires v <= |t| && depth <= SEL_STACK_MAX && ParseMember(t, v, depth, key).Tree?
    ensures Writable(ParseMember(t, v, depth, key).sel, depth)
    decreases |t| - v, 3
  {
    hide ParseIndices, ParseSel, ParseList;
    if key.NotKey? {
      ParsedIsWritable(t, v, depth + 1);
    } else {
      var a := EnterArray(t, v).value;
      if key.ExcludeKey? {
        IndicesAreWritable(t, a, SEL_MAX_INDEX_LIST);
      } else {
        WritableList(t, a, depth + 1);
      }
    }
  }

  lemma {:induction false} WritableList(t: string, p: nat, depth: nat)
    requires p <= |t| && ParseList(t, p, depth).Trees?
    ensures forall i :: 0 <= i < |ParseList(t, p, depth).sels| ==> Writable(ParseList(t, p, depth).sels[i], depth)
    decreases |t| - p, 2
  {
    hide Writable, ParseSel;
    var (more, q) := NextElement(t, p);
    if more {
      ParsedIsWritable(t, q, depth);
      WritableList(t, ParseSel(t, q, depth).p, depth);
    }
  }

  /** A tree is the reading of some text exactly if it is writable; its own text is one. */
  lemma TreesOfTexts(sel: Sel, depth: nat)
    ensures Writable(sel, depth) ==> ParseSel(SelText(sel), 0, depth) == Tree(sel, |SelText(sel)|)
    ensures Writable(sel, depth) <==> exists t :: ParseSel(t, 0, depth).Tree? && ParseSel(t, 0, depth).sel == sel
  {
    hide Writable, ParseSel, SelText;
    if Writable(sel, depth) {
      var t := SelText(sel);
      TextIsRead(sel, depth);
      WholeStands(t);
    }
    forall t | ParseSel(t, 0, depth).Tree? && ParseSel(t, 0, depth).sel == sel ensures Writable(sel, depth) {
      ParsedIsWritable(t, 0, depth);
    }
  }

  lemma WholeStands(t: string)
    ensures HasAt(t, 0, t)
  {
    PartHasAt([], t, []);
    assert [] + t + [] == t;
  }
}

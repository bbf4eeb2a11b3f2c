/**
 The selector compiler and its evaluator as the code has them: a parser that appends to a
 fixed-size program while it moves its cursor (lib/Lightnet/Core/Controller/PanelSelectorParser.hpp),
 and a loop over a fixed-size stack (lib/Lightnet/Core/Controller/PanelSelector.hpp).
 */
module SelectorCode {
  import opened Bytes
  import opened Json
  import opened Selector
  import opened SelectorGrammar

  class PanelSelector {
    const ops: array<byte>
    var len: nat

    ghost predicate Valid()
      reads this
    {
      ops.Length == CAP && len <= CAP
    }

    ghost function Code(): seq<byte>
      reads this, ops
      requires Valid()
    {
      ops[..len]
    }

    constructor ()
      ensures Valid() && fresh(ops) && Code() == []
    {
      ops := new byte[CAP];
      len := 0;
    }

    method Clear()
      requires Valid()
      modifies this`len
      ensures Valid() && Code() == []
    {
      len := 0;
    }

    method Emit(b: byte) returns (ok: bool)
      requires Valid()
      modifies this`len, ops
      ensures Valid()
      ensures ok <==> |old(Code())| < CAP
      ensures Code() == if ok then old(Code()) + [b] else old(Code())
    {
      if len >= CAP {
        return false;
      }
      ops[len] := b;
      len := len + 1;
      return true;
    }

    /** Emits of consecutive bytes, up to the first that fails. */
    method EmitAll(bytes: seq<byte>) returns (ok: bool)
      requires Valid()
      modifies this`len, ops
      ensures Valid()
      ensures ok <==> |old(Code())| + |bytes| <= CAP
      ensures ok ==> Code() == old(Code()) + bytes
    {
      for i := 0 to |bytes|
        invariant Valid()
        invariant Code() == old(Code()) + bytes[..i]
      {
        ok := Emit(bytes[i]);
        if !ok {
          return;
        }
      }
      assert bytes[..|bytes|] == bytes;
      return true;
    }
  }

  // ---------------------------------------------------------------- the parser

  datatype Status = Accepted(p: nat) | Rejected | Hung

  /** A parse that emits: accepted exactly when the text gives a tree whose program fits. */
  ghost predicate Emits(s: Status, parse: Parse, before: seq<byte>, after: seq<byte>) {
    && (parse.Tree? ==> WellFormed(parse.sel))
    && (s.Accepted? <==> parse.Tree? && |before| + |Compile(parse.sel)| <= CAP)
    && (s.Accepted? ==> s.p == parse.p && after == before + Compile(parse.sel))
    && (s.Hung? ==> parse.Spin?)
    && (parse.Reject? ==> s.Rejected?)
  }

  /** selEmitIndexArray, behind the bracket; `complement` adds a NOT. */
  method SelEmitIndexArray(t: string, start: nat, complement: bool, out: PanelSelector) returns (s: Status)
    requires start <= |t| && out.Valid()
    modifies out, out.ops
    ensures out.Valid()
    ensures s.Accepted? <==> FitsIndices(ParseIndexList(t, start), complement, |old(out.Code())|)
    ensures s.Accepted? ==> s.p == ParseIndexList(t, start).value.1
    ensures s.Accepted? ==>
      out.Code() == old(out.Code()) + IndexCode(ParseIndexList(t, start).value.0, complement)
    ensures !s.Hung?
  {
    var p := start;
    var tmp: seq<byte> := [];
    BehindNothing(ParseIndices(t, start, SEL_MAX_INDEX_LIST));
    while true
      invariant p <= |t| && |tmp| <= SEL_MAX_INDEX_LIST
      invariant ParseIndices(t, start, SEL_MAX_INDEX_LIST)
             == Behind(tmp, ParseIndices(t, p, SEL_MAX_INDEX_LIST - |tmp|))
      invariant unchanged(out) && unchanged(out.ops)
      decreases |t| - p
    {
      var (more, q) := NextElement(t, p);
      if !more {
        p := q;
        break;
      }
      var v := ReadUInt(t, q);
      if v.None? || v.value.0 == 0 || v.value.0 > 255 || |tmp| >= SEL_MAX_INDEX_LIST {
        return Rejected;
      }
      BehindOne(tmp, v.value.0, ParseIndices(t, v.value.1, SEL_MAX_INDEX_LIST - |tmp| - 1));
      p := v.value.1;
      tmp := tmp + [v.value.0];
    }
    assert tmp + [] == tmp;
    if tmp == [] {
      return Rejected;
    }
    var ok := out.EmitAll(IndexCode(tmp, complement));
    return if ok then Accepted(p) else Rejected;
  }

  predicate FitsIndices(r: Option<(seq<byte>, nat)>, complement: bool, before: nat)
    requires r.Some? ==> |r.value.0| < 256
  {
    r.Some? && before + |IndexCode(r.value.0, complement)| <= CAP
  }

  function IndexCode(list: seq<byte>, complement: bool): seq<byte>
    requires |list| < 256
  {
    LeafCode(Indices(list)) + if complement then [SEL_NOT] else []
  }

  ghost function Behind(done: seq<byte>, r: Option<(seq<byte>, nat)>): Option<(seq<byte>, nat)> {
    match r
    case None => None
    case Some((list, e)) => Some((done + list, e))
  }

  lemma BehindNothing(r: Option<(seq<byte>, nat)>)
    ensures Behind([], r) == r
  {
    if r.Some? {
      assert [] + r.value.0 == r.value.0;
    }
  }

  lemma BehindOne(done: seq<byte>, v: byte, r: Option<(seq<byte>, nat)>)
    ensures r.Some? ==> Behind(done, Some(([v] + r.value.0, r.value.1))) == Behind(done + [v], r)
  {
    if r.Some? {
      assert done + ([v] + r.value.0) == done + [v] + r.value.0;
    }
  }

  method SelAppend(t: string, start: nat, depth: nat, out: PanelSelector) returns (s: Status)
    requires start <= |t| && out.Valid()
    modifies out, out.ops
    ensures out.Valid()
    ensures Emits(s, ParseSel(t, start, depth), old(out.Code()), out.Code())
    decreases |t| - start, 1
  {
    if depth > SEL_STACK_MAX {
      return Rejected;
    }
    var p := SkipWs(t, start);
    if p == |t| {
      return Rejected;
    }
    if t[p] == '"' {
      var tok := ReadString(t, p, TOKEN_SIZE);
      if tok.None? {
        return Rejected;
      }
      var leaf := TokenLeaf(CStr(tok.value.0));
      if leaf.None? {
        return Rejected;
      }
      var ok := out.EmitAll(LeafCode(leaf.value));
      return if ok then Accepted(tok.value.1) else Rejected;
    }
    if t[p] == '[' {
      s := SelEmitIndexArray(t, p + 1, false, out);
      return;
    }
    if t[p] == '{' {
      s := SelObject(t, p + 1, depth, out);
      return;
    }
    return Rejected;
  }

  lemma {:induction false} GotIsKept(t: string, p: nat, depth: nat, got: Sel)
    requires p <= |t| && ParseObject(t, p, depth, Some(got)).Tree?
    ensures ParseObject(t, p, depth, Some(got)).sel == got
    decreases |t| - p
  {
    var (key, v) := NextKey(t, p);
    if key.Some? && key.value.OtherKey? {
      GotIsKept(t, SkipValue(t, v).p, depth, got);
    }
  }

  ghost function GotCode(got: Option<Sel>): seq<byte>
    requires got.Some? ==> WellFormed(got.value)
  {
    if got.Some? then Compile(got.value) else []
  }

  /** The object branch of selAppend, behind the brace. */
  method SelObject(t: string, start: nat, depth: nat, out: PanelSelector) returns (s: Status)
    requires start <= |t| && depth <= SEL_STACK_MAX && out.Valid()
    modifies out, out.ops
    ensures out.Valid()
    ensures Emits(s, ParseObject(t, start, depth, None), old(out.Code()), out.Code())
    decreases |t| - start, 2
  {
    var p := start;
    var got := false;
    ghost var tree: Option<Sel> := None;
    while true
      invariant start <= p <= |t| && out.Valid() && got == tree.Some?
      invariant tree.Some? ==> WellFormed(tree.value)
      invariant ParseObject(t, p, depth, tree) == ParseObject(t, start, depth, None)
      invariant out.Code() == old(out.Code()) + GotCode(tree)
      decreases |t| - p
    {
      var (key, v) := NextKey(t, p);
      if key.None? {
        return if got then Accepted(v) else Rejected;
      }
      if key.value.OtherKey? {
        var skip := SkipValue(t, v);
        if skip.Spinning? {
          return Hung;
        }
        p := skip.p;
      } else {
        if got {
          return Rejected;
        }
        got := true;
        ghost var member := ParseMember(t, v, depth, key.value);
        var m := SelMember(t, v, depth, key.value, out);
        if !m.Accepted? {
          if member.Tree? && ParseObject(t, member.p, depth, Some(member.sel)).Tree? {
            GotIsKept(t, member.p, depth, member.sel);
          }
          if ParseObject(t, start, depth, None).Tree? {
            ParsedObject(t, start, depth, None);
          }
          return m;
        }
        tree := Some(member.sel);
        p := m.p;
      }
    }
  }

  /** The value of a composition key. */
  method SelMember(t: string, v: nat, depth: nat, key: Key, out: PanelSelector) returns (s: Status)
    requires v <= |t| && depth <= SEL_STACK_MAX && out.Valid() && !key.OtherKey?
    modifies out, out.ops
    ensures out.Valid()
    ensures Emits(s, ParseMember(t, v, depth, key), old(out.Code()), out.Code())
    decreases |t| - v, 4
  {
    if key.NotKey? {
      s := SelAppend(t, v, depth + 1, out);
      if !s.Accepted? {
        return;
      }
      var ok := out.Emit(SEL_NOT);
      return if ok then s else Rejected;
    }
    var enter := EnterArray(t, v);
    if enter.None? {
      return Rejected;
    }
    if key.ExcludeKey? {
      s := SelEmitIndexArray(t, enter.value, true, out);
      return;
    }
    s := SelList(t, enter.value, depth + 1, key, out);
  }

  // ---------------------------------------------------------------- lists

  function OpOf(key: Key): byte {
    if key.AnyKey? then SEL_OR else SEL_AND
  }

  /** The program of a list, as far as it has been read. */
  function ListCode(sels: seq<Sel>, op: byte): seq<byte>
    requires forall i :: 0 <= i < |sels| ==> WellFormed(sels[i])
  {
    if sels == [] then [] else Compile(sels[0]) + CompileTail(sels[1..], op)
  }

  /** What one element adds. */
  function ElementCode(sel: Sel, op: byte, first: bool): seq<byte>
    requires WellFormed(sel)
  {
    Compile(sel) + if first then [] else [op]
  }

  lemma {:induction false} CompileTailAppend(sels: seq<Sel>, sel: Sel, op: byte)
    requires WellFormed(sel) && forall i :: 0 <= i < |sels| ==> WellFormed(sels[i])
    ensures CompileTail(sels + [sel], op) == CompileTail(sels, op) + Compile(sel) + [op]
    decreases |sels|
  {
    if sels == [] {
      assert (sels + [sel])[1..] == [];
    } else {
      assert (sels + [sel])[1..] == sels[1..] + [sel];
      CompileTailAppend(sels[1..], sel, op);
    }
  }

  lemma ListCodeAppend(sels: seq<Sel>, sel: Sel, op: byte)
    requires WellFormed(sel) && forall i :: 0 <= i < |sels| ==> WellFormed(sels[i])
    ensures ListCode(sels + [sel], op)
            == ListCode(sels, op) + ElementCode(sel, op, sels == [])
  {
    hide Compile, CompileTail;
    var all := sels + [sel];
    if sels == [] {
      assert all[1..] == [];
      assert CompileTail([], op) == [] by { EmptyTail(op); }
    } else {
      assert all[1..] == sels[1..] + [sel];
      CompileTailAppend(sels[1..], sel, op);
      RegroupPairs(Compile(sels[0]), CompileTail(sels[1..], op), Compile(sel), [op]);
    }
  }

  lemma EmptyTail(op: byte)
    ensures CompileTail([], op) == []
  {
  }

  lemma RegroupPairs(a: seq<byte>, b: seq<byte>, c: seq<byte>, d: seq<byte>)
    ensures a + (b + c + d) == (a + b) + (c + d)
  {
  }

  /** More elements never make the program of a list shorter. */
  lemma {:induction false} ListCodeGrows(sels: seq<Sel>, more: seq<Sel>, op: byte)
    requires forall i :: 0 <= i < |sels| ==> WellFormed(sels[i])
    requires forall i :: 0 <= i < |more| ==> WellFormed(more[i])
    ensures |ListCode(sels, op)| <= |ListCode(sels + more, op)|
    decreases |more|
  {
    if more == [] {
      assert sels + more == sels;
    } else {
      assert sels + more == (sels + [more[0]]) + more[1..];
      ListCodeAppend(sels, more[0], op);
      ListCodeGrows(sels + [more[0]], more[1..], op);
    }
  }

  ghost function After(done: seq<Sel>, r: ParseAll): ParseAll {
    match r
    case Trees(sels, e) => Trees(done + sels, e)
    case other => other
  }

  lemma AfterNothing(r: ParseAll)
    ensures After([], r) == r
  {
    if r.Trees? {
      assert [] + r.sels == r.sels;
    }
  }

  lemma AfterOne(done: seq<Sel>, sel: Sel, r: ParseAll)
    ensures r.Trees? ==> After(done, Trees([sel] + r.sels, r.p)) == After(done + [sel], r)
  {
    if r.Trees? {
      assert done + ([sel] + r.sels) == (done + [sel]) + r.sels;
    }
  }

  /** One element of any or all, and the operator behind every element but the first. */
  method SelElement(t: string, q: nat, depth: nat, op: byte, first: bool, out: PanelSelector) returns (s: Status)
    requires q <= |t| && out.Valid()
    modifies out, out.ops
    ensures out.Valid()
    ensures ParseSel(t, q, depth).Tree? ==> WellFormed(ParseSel(t, q, depth).sel)
    ensures s.Accepted? <==> ParseSel(t, q, depth).Tree?
                             && |old(out.Code())| + |ElementCode(ParseSel(t, q, depth).sel, op, first)| <= CAP
    ensures s.Accepted? ==> s.p == ParseSel(t, q, depth).p
    ensures s.Accepted? ==> out.Code() == old(out.Code()) + ElementCode(ParseSel(t, q, depth).sel, op, first)
    ensures s.Hung? ==> ParseSel(t, q, depth).Spin?
    ensures ParseSel(t, q, depth).Reject? ==> s.Rejected?
    decreases |t| - q, 2
  {
    s := SelAppend(t, q, depth, out);
    if s.Accepted? && !first {
      var ok := out.Emit(op);
      if !ok {
        return Rejected;
      }
    }
  }

  /** The loop over the elements of any and all, behind the bracket. */
  method SelList(t: string, start: nat, depth: nat, key: Key, out: PanelSelector) returns (s: Status)
    requires start <= |t| && 0 < depth <= SEL_STACK_MAX + 1 && out.Valid() && (key.AnyKey? || key.AllKey?)
    modifies out, out.ops
    ensures out.Valid()
    ensures Emits(s, ListParse(t, start, depth, key), old(out.Code()), out.Code())
    decreases |t| - start, 3
  {
    hide ParseSel, Compile, ListCode, ElementCode;
    var p, cnt := start, 0;
    ghost var done: seq<Sel> := [];
    ghost var before := out.Code();
    EmptyListCode(OpOf(key));
    AfterNothing(ParseList(t, start, depth));
    while true
      invariant start <= p <= |t| && out.Valid() && cnt == |done|
      invariant forall i :: 0 <= i < |done| ==> WellFormed(done[i])
      invariant ParseList(t, start, depth) == After(done, ParseList(t, p, depth))
      invariant out.Code() == before + ListCode(done, OpOf(key))
      decreases |t| - p
    {
      var (more, q) := NextElement(t, p);
      if !more {
        ListDone(t, start, depth, key, done, q, before);
        return if cnt == 0 then Rejected else Accepted(q);
      }
      ghost var child := ParseSel(t, q, depth);
      s := SelElement(t, q, depth, OpOf(key), cnt == 0, out);
      if child.Tree? {
        ListCodeAppend(done, child.sel, OpOf(key));
        AfterOne(done, child.sel, ParseList(t, child.p, depth));
      }
      if !s.Accepted? {
        DoesNotFit(t, start, depth, key, done, child, |before|);
        return;
      }
      cnt := cnt + 1;
      done := done + [child.sel];
      p := s.p;
    }
  }

  lemma EmptyListCode(op: byte)
    ensures ListCode([], op) == []
  {
  }

  lemma ListDone(t: string, start: nat, depth: nat, key: Key, done: seq<Sel>, q: nat, before: seq<byte>)
    requires start <= q <= |t| && (key.AnyKey? || key.AllKey?)
    requires forall i :: 0 <= i < |done| ==> WellFormed(done[i])
    requires ParseList(t, start, depth) == After(done, Trees([], q))
    requires |before| + |ListCode(done, OpOf(key))| <= CAP
    ensures Emits(if done == [] then Rejected else Accepted(q), ListParse(t, start, depth, key),
                  before, before + ListCode(done, OpOf(key)))
  {
    hide ParseList;
    assert done + [] == done;
    if done != [] {
      assert Compile(Composite(key, done)) == ListCode(done, OpOf(key));
    }
  }

  ghost function ListParse(t: string, p: nat, depth: nat, key: Key): Parse
    requires p <= |t|
  {
    match ParseList(t, p, depth)
    case SpinAll => Spin
    case RejectAll => Reject
    case Trees(sels, e) => if sels == [] then Reject else Tree(Composite(key, sels), e)
  }

  /** An element that does not fit keeps every list it belongs to from fitting. */
  lemma DoesNotFit(t: string, start: nat, depth: nat, key: Key, done: seq<Sel>, child: Parse, before: nat)
    requires start <= |t| && 0 < depth <= SEL_STACK_MAX + 1 && (key.AnyKey? || key.AllKey?)
    requires forall i :: 0 <= i < |done| ==> WellFormed(done[i])
    requires child.Tree? ==> WellFormed(child.sel)
    requires child.Tree? ==> before + |ListCode(done + [child.sel], OpOf(key))| > CAP
    requires ParseList(t, start, depth).Trees? ==>
      child.Tree? && done + [child.sel] <= ParseList(t, start, depth).sels
    ensures var parse := ListParse(t, start, depth, key);
      parse.Tree? ==> WellFormed(parse.sel) && before + |Compile(parse.sel)| > CAP
  {
    var list := ParseList(t, start, depth);
    if list.Trees? {
      ParsedList(t, start, depth);
      var sels := list.sels;
      var more := sels[|done| + 1..];
      assert sels == (done + [child.sel]) + more;
      ListCodeGrows(done + [child.sel], more, OpOf(key));
    }
  }
}

/**
 Running a selector program over a live topology: the loop of resolveSelector with its
 fixed-size stack (lib/Lightnet/Core/Controller/PanelSelector.hpp), and what compiling and
 running together give.
 */
module SelectorEval {
  import opened Bytes
  import opened Json
  import opened Selector
  import opened SelectorGrammar
  import opened SelectorCode

  /** selEvalLeaf's loop over an explicit index list; missing indices are skipped. */
  method EvalIndices(topo: Topology, panels: seq<byte>) returns (s: set<nat>)
    requires topo.Valid()
    ensures s == LeafMeaning(topo, Indices(panels))
  {
    s := {};
    for k := 0 to |panels|
      invariant forall x :: x in s <==> exists i :: 0 <= i < k && panels[i] in topo.slotOf && topo.slotOf[panels[i]] == x
    {
      if panels[k] in topo.slotOf {
        s := s + {topo.slotOf[panels[k]]};
      }
    }
    assert forall x :: x in s <==> x in LeafMeaning(topo, Indices(panels));
  }

  /** The leaves that are evaluated slot by slot. */
  predicate PerSlot(leaf: Leaf) {
    !leaf.Root? && !leaf.Subtree? && !leaf.Neighbors? && !leaf.Indices?
  }

  /** selEvalLeaf's test of one slot. */
  method TestSlot(topo: Topology, leaf: Leaf, x: nat) returns (picked: bool)
    requires topo.Valid() && x < topo.count && PerSlot(leaf)
    ensures picked == Picks(topo, leaf, x)
  {
    var pos := topo.position[x];
    match leaf
    case All =>
      picked := true;
    case Leaves =>
      picked := x in topo.leaves;
    case Branches =>
      picked := x in topo.branches;
    case Even =>
      picked := pos % 2 == 0;
    case Odd =>
      picked := pos % 2 != 0;
    case Depth(a, b) =>
      var d := topo.depth[x];
      picked := d >= a && d <= b;
    case Fraction(a, b) =>
      if topo.count <= 1 {
        picked := a == 0;
      } else {
        var span, np255 := topo.count - 1, pos * 255;
        picked := np255 >= a * span && np255 <= b * span;
      }
    case First(k) =>
      picked := pos < k;
    case Last(k) =>
      var from := if k >= topo.count then 0 else topo.count - k;
      picked := pos >= from;
  }

  /** selEvalLeaf's loops over the slots. */
  method EvalBySlot(topo: Topology, leaf: Leaf) returns (s: set<nat>)
    requires topo.Valid() && PerSlot(leaf)
    ensures s == LeafMeaning(topo, leaf)
  {
    hide Picks;
    s := {};
    for x := 0 to topo.count
      invariant forall y: nat :: y in s <==> y < x && Picks(topo, leaf, y)
    {
      var picked := TestSlot(topo, leaf, x);
      if picked {
        s := s + {x};
      }
    }
  }

  method EvalLeaf(topo: Topology, leaf: Leaf) returns (s: set<nat>)
    requires topo.Valid()
    ensures s == LeafMeaning(topo, leaf)
  {
    s := {};
    match leaf
    case Root =>
      s := {topo.root};
      assert forall x :: x in s <==> x in LeafMeaning(topo, leaf);
    case Subtree(panel) =>
      if panel in topo.slotOf {
        s := topo.subtree[topo.slotOf[panel]];
      }
      assert forall x :: x in s <==> x in LeafMeaning(topo, leaf);
    case Neighbors(panel) =>
      if panel in topo.slotOf {
        s := topo.neighbors[topo.slotOf[panel]];
      }
      assert forall x :: x in s <==> x in LeafMeaning(topo, leaf);
    case Indices(panels) =>
      s := EvalIndices(topo, panels);
    case other =>
      s := EvalBySlot(topo, other);
  }

  /** Replaces the top entry of a stack of `sp` entries. */
  method SetTop(stack: array<set<nat>>, sp: nat, s: set<nat>)
    requires 0 < sp <= stack.Length
    modifies stack
    ensures stack[..sp] == old(stack[..sp - 1]) + [s]
  {
    stack[sp - 1] := s;
  }

  /** What is left after a leaf is a suffix of the program. */
  lemma DecodedRest(code: seq<byte>)
    requires code != [] && DecodeLeaf(code).Some?
    ensures var rest := DecodeLeaf(code).value.1;
      |rest| < |code| && rest == code[|code| - |rest|..]
  {
  }

  /** The leaf at `i`, evaluated, and where the program goes on. */
  method NextLeaf(sel: PanelSelector, topo: Topology, i: nat) returns (found: bool, top: set<nat>, next: nat)
    requires sel.Valid() && topo.Valid() && i < sel.len
    ensures found == DecodeLeaf(sel.Code()[i..]).Some?
    ensures found ==> i < next <= sel.len && top == LeafMeaning(topo, DecodeLeaf(sel.Code()[i..]).value.0)
    ensures found ==> sel.Code()[next..] == DecodeLeaf(sel.Code()[i..]).value.1
  {
    hide DecodeLeaf, LeafMeaning;
    assert sel.ops[i..sel.len] == sel.Code()[i..];
    var leaf := DecodeLeaf(sel.ops[i..sel.len]);
    if leaf.None? {
      return false, {}, i;
    }
    DecodedRest(sel.Code()[i..]);
    top := EvalLeaf(topo, leaf.value.0);
    found, next := true, sel.len - |leaf.value.1|;
  }

  lemma EmptyProgram(topo: Topology)
    requires topo.Valid()
    ensures forall stack: seq<set<nat>> :: Exec(topo, [], stack) == Some(stack)
  {
  }

  /** One operator of a program. */
  lemma OperatorStep(topo: Topology, code: seq<byte>, stack: seq<set<nat>>)
    requires topo.Valid() && code != [] && (code[0] == SEL_AND || code[0] == SEL_OR || code[0] == SEL_NOT)
    ensures var n := |stack|;
      Exec(topo, code, stack) ==
        if code[0] != SEL_NOT && n >= 2 then
          Exec(topo, code[1..], stack[..n - 2] + [Combine(code[0], stack[n - 2], stack[n - 1])])
        else if code[0] == SEL_NOT && n >= 1 then Exec(topo, code[1..], stack[..n - 1] + [Invert(topo, stack[n - 1])])
        else None
  {
  }

  lemma LeafStep(topo: Topology, code: seq<byte>, stack: seq<set<nat>>)
    requires topo.Valid() && code != [] && code[0] != SEL_AND && code[0] != SEL_OR && code[0] != SEL_NOT
    ensures |stack| >= SEL_STACK_MAX || DecodeLeaf(code).None? ==> Exec(topo, code, stack) == None
    ensures |stack| < SEL_STACK_MAX && DecodeLeaf(code).Some? ==>
      Exec(topo, code, stack) == Exec(topo, DecodeLeaf(code).value.1, stack + [LeafMeaning(topo, DecodeLeaf(code).value.0)])
  {
  }

  method ResolveSelector(sel: PanelSelector, topo: Topology) returns (ok: bool, res: set<nat>)
    requires sel.Valid() && topo.Valid()
    ensures ok <==> Resolve(topo, sel.Code()).Some?
    ensures ok ==> res == Resolve(topo, sel.Code()).value
  {
    hide DecodeLeaf, LeafMeaning, Invert, Combine, Exec;
    EmptyProgram(topo);
    var stack := new set<nat>[SEL_STACK_MAX](_ => {});
    var sp, i := 0, 0;
    res := {};
    ghost var code := sel.Code();
    ghost var todo, entries := code, [];
    while i < sel.len
      invariant sp == |entries| <= stack.Length == SEL_STACK_MAX && i <= sel.len && code == sel.Code()
      invariant stack[..sp] == entries && todo == code[i..]
      invariant Exec(topo, todo, entries) == Exec(topo, code, [])
    {
      var op := sel.ops[i];
      assert todo[0] == op && todo[1..] == code[i + 1..];
      if op == SEL_AND || op == SEL_OR {
        OperatorStep(topo, todo, entries);
        if sp < 2 {
          return false, {};
        }
        var top := Combine(op, stack[sp - 2], stack[sp - 1]);
        sp, i := sp - 1, i + 1;
        SetTop(stack, sp, top);
        todo, entries := todo[1..], entries[..sp - 1] + [top];
      } else if op == SEL_NOT {
        OperatorStep(topo, todo, entries);
        if sp < 1 {
          return false, {};
        }
        var top := Invert(topo, stack[sp - 1]);
        i := i + 1;
        SetTop(stack, sp, top);
        todo, entries := todo[1..], entries[..sp - 1] + [top];
      } else {
        LeafStep(topo, todo, entries);
        if sp >= SEL_STACK_MAX {
          return false, {};
        }
        var found, top, next := NextLeaf(sel, topo, i);
        if !found {
          return false, {};
        }
        sp, i := sp + 1, next;
        SetTop(stack, sp, top);
        todo, entries := code[next..], entries + [top];
      }
    }
    assert todo == [];
    if sp != 1 {
      return false, {};
    }
    return true, stack[0];
  }

  method ParsePanelSelector(t: string, start: nat, out: PanelSelector) returns (s: Status)
    requires start <= |t| && out.Valid()
    modifies out, out.ops
    ensures out.Valid()
    ensures Emits(s, ParseSel(t, start, 0), [], out.Code())
  {
    out.Clear();
    s := SelAppend(t, start, 0, out);
  }

  /**
   Compiling and running together, for every text and topology: an accepted text resolves to
   the plain meaning of its tree, unless the tree needs the one stack entry that the parser's
   guard allows and the stack does not have.
   */
  method CompileAndResolve(t: string, start: nat, topo: Topology) returns (s: Status, ok: bool, res: set<nat>)
    requires start <= |t| && topo.Valid()
    ensures s.Accepted? ==> ParseSel(t, start, 0).Tree? && WellFormed(ParseSel(t, start, 0).sel)
    ensures s.Accepted? ==> Need(ParseSel(t, start, 0).sel) <= SEL_STACK_MAX + 1
    ensures s.Accepted? ==> (ok <==> Need(ParseSel(t, start, 0).sel) <= SEL_STACK_MAX)
    ensures s.Accepted? && ok ==> res == Meaning(topo, ParseSel(t, start, 0).sel)
  {
    hide ParseSel, Meaning, Need, Compile, Resolve;
    var out := new PanelSelector();
    s := ParsePanelSelector(t, start, out);
    ok, res := false, {};
    if s.Accepted? {
      assert out.Code() == Compile(ParseSel(t, start, 0).sel);
      ParsedTree(t, start, 0);
      ResolvesIffItFits(topo, ParseSel(t, start, 0).sel);
      ok, res := ResolveSelector(out, topo);
    }
  }

  lemma {:induction false} DeepTreeIsSmall(n: nat)
    ensures |Compile(DeepTree(n))| == 2 * n + 1
  {
    if n > 0 {
      DeepTreeIsSmall(n - 1);
      var sels := [Basic(All)] + [DeepTree(n - 1)];
      assert sels[1..] == [DeepTree(n - 1)] && [DeepTree(n - 1)][1..] == [];
      assert CompileTail([DeepTree(n - 1)], SEL_OR) == Compile(DeepTree(n - 1)) + [SEL_OR] + [];
    }
  }

  /**
   The guard of the parser is one level too wide: six nested lists are accepted and their
   program fits, but it never resolves, on any topology.
   */
  lemma AcceptedButUnresolvable(topo: Topology)
    requires topo.Valid()
    ensures var parse := ParseSel(DeepText(SEL_STACK_MAX), 0, 0);
      && parse.Tree? && WellFormed(parse.sel) && |Compile(parse.sel)| <= CAP
      && Need(parse.sel) == SEL_STACK_MAX + 1
      && Resolve(topo, Compile(parse.sel)) == None
  {
    hide ParseSel, DeepText, Compile, Resolve;
    var t := DeepText(SEL_STACK_MAX);
    assert HasAt(t, 0, t) by {
      forall i: nat | i < |t| ensures CharAt(t, 0, t, i) {
      }
    }
    DeepTextParses(t, 0, 0, SEL_STACK_MAX);
    DeepTreeIsSmall(SEL_STACK_MAX);
    ResolvesIffItFits(topo, DeepTree(SEL_STACK_MAX));
  }
}

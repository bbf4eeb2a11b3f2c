/**
 Panel selectors: trees of set operations over panels, the byte programs they compile to, and
 what running such a program on a bounded stack gives
 (lib/Lightnet/Core/Controller/PanelSelector.hpp).
 */
module Selector {
  import opened Bytes
  import opened Json

  const SEL_ALL: byte := 1
  const SEL_ROOT: byte := 2
  const SEL_LEAVES: byte := 3
  const SEL_BRANCHES: byte := 4
  const SEL_EVEN: byte := 5
  const SEL_ODD: byte := 6
  const SEL_DEPTH: byte := 7
  const SEL_SUBTREE: byte := 8
  const SEL_NEIGHBORS: byte := 9
  const SEL_FRACTION: byte := 10
  const SEL_FIRST: byte := 11
  const SEL_LAST: byte := 12
  const SEL_INDICES: byte := 13
  const SEL_AND: byte := 15
  const SEL_OR: byte := 16
  const SEL_NOT: byte := 17

  const SEL_STACK_MAX := 6
  const CAP := 64

  // ---------------------------------------------------------------- topology

  /** What a selector can ask of the rooted panel tree. Slots are 0..count. */
  datatype Topology = Topology(
    count: nat,
    root: nat,
    leaves: set<nat>,
    branches: set<nat>,
    depth: seq<nat>,
    position: seq<nat>,        // canonical position of a slot
    order: seq<nat>,           // slot at a canonical position
    subtree: seq<set<nat>>,
    neighbors: seq<set<nat>>,
    slotOf: map<nat, nat>)     // 1-based panel index to slot
  {
    ghost predicate Valid() {
      && 0 < count <= 100 && root < count
      && |depth| == |position| == |order| == |subtree| == |neighbors| == count
      && leaves <= Slots() && branches <= Slots()
      && (forall x: nat :: x < count ==> position[x] < count && order[position[x]] == x)
      && (forall p: nat :: p < count ==> order[p] < count && position[order[p]] == p)
      && (forall x: nat :: x < count ==> subtree[x] <= Slots() && neighbors[x] <= Slots())
      && (forall i :: i in slotOf ==> slotOf[i] < count)
    }

    predicate IsSlot(x: nat) {
      x < count
    }

    function Slots(): set<nat> {
      set x: nat | x < count && IsSlot(x)
    }
  }

  // ---------------------------------------------------------------- trees and their meaning

  datatype Leaf =
    | All | Root | Leaves | Branches | Even | Odd
    | Depth(lo: byte, hi: byte)
    | Subtree(panel: byte)
    | Neighbors(panel: byte)
    | Fraction(lo: byte, hi: byte)
    | First(k: byte)
    | Last(k: byte)
    | Indices(panels: seq<byte>)

  datatype Sel =
    | Basic(leaf: Leaf)
    | Not(sel: Sel)
    | Any(sels: seq<Sel>)
    | Every(sels: seq<Sel>)

  /** Whether a basic selector picks slot `x`. */
  predicate Picks(topo: Topology, leaf: Leaf, x: nat)
    requires topo.Valid() && x < topo.count
  {
    match leaf
    case All => true
    case Root => x == topo.root
    case Leaves => x in topo.leaves
    case Branches => x in topo.branches
    case Even => topo.position[x] % 2 == 0
    case Odd => topo.position[x] % 2 == 1
    case Depth(lo, hi) => lo <= topo.depth[x] <= hi
    case Subtree(panel) => panel in topo.slotOf && x in topo.subtree[topo.slotOf[panel]]
    case Neighbors(panel) => panel in topo.slotOf && x in topo.neighbors[topo.slotOf[panel]]
    case Fraction(lo, hi) =>
      if topo.count == 1 then lo == 0
      else lo * (topo.count - 1) <= topo.position[x] * 255 <= hi * (topo.count - 1)
    case First(k) => topo.position[x] < k
    case Last(k) => topo.position[x] + k >= topo.count
    case Indices(panels) => exists i :: 0 <= i < |panels| && panels[i] in topo.slotOf && topo.slotOf[panels[i]] == x
  }

  /** Whether a selector tree picks slot `x`: the plain reading of any, all and not. */
  predicate Selects(topo: Topology, sel: Sel, x: nat)
    requires topo.Valid() && x < topo.count
  {
    match sel
    case Basic(leaf) => Picks(topo, leaf, x)
    case Not(s) => !Selects(topo, s, x)
    case Any(sels) => exists i :: 0 <= i < |sels| && Selects(topo, sels[i], x)
    case Every(sels) => forall i :: 0 <= i < |sels| ==> Selects(topo, sels[i], x)
  }

  function LeafMeaning(topo: Topology, leaf: Leaf): set<nat>
    requires topo.Valid()
  {
    set x: nat | x < topo.count && Picks(topo, leaf, x)
  }

  function Meaning(topo: Topology, sel: Sel): set<nat>
    requires topo.Valid()
  {
    set x: nat | x < topo.count && Selects(topo, sel, x)
  }

  /** What the grammar can produce. */
  predicate WellFormed(sel: Sel) {
    match sel
    case Basic(leaf) => leaf.Indices? ==> 0 < |leaf.panels| < 256
    case Not(s) => WellFormed(s)
    case Any(sels) => sels != [] && forall i :: 0 <= i < |sels| ==> WellFormed(sels[i])
    case Every(sels) => sels != [] && forall i :: 0 <= i < |sels| ==> WellFormed(sels[i])
  }

  // ---------------------------------------------------------------- programs

  function LeafCode(leaf: Leaf): seq<byte>
    requires leaf.Indices? ==> |leaf.panels| < 256
  {
    match leaf
    case All => [SEL_ALL]
    case Root => [SEL_ROOT]
    case Leaves => [SEL_LEAVES]
    case Branches => [SEL_BRANCHES]
    case Even => [SEL_EVEN]
    case Odd => [SEL_ODD]
    case Depth(lo, hi) => [SEL_DEPTH, lo, hi]
    case Subtree(panel) => [SEL_SUBTREE, panel]
    case Neighbors(panel) => [SEL_NEIGHBORS, panel]
    case Fraction(lo, hi) => [SEL_FRACTION, lo, hi]
    case First(k) => [SEL_FIRST, k]
    case Last(k) => [SEL_LAST, k]
    case Indices(panels) => [SEL_INDICES, |panels|] + panels
  }

  /** The program the parser emits: operands in order, a list folded from the left. */
  function Compile(sel: Sel): (code: seq<byte>)
    requires WellFormed(sel)
    ensures code != []
    decreases sel, 0
  {
    match sel
    case Basic(leaf) => LeafCode(leaf)
    case Not(s) => Compile(s) + [SEL_NOT]
    case Any(sels) => Compile(sels[0]) + CompileTail(sels[1..], SEL_OR)
    case Every(sels) => Compile(sels[0]) + CompileTail(sels[1..], SEL_AND)
  }

  function CompileTail(sels: seq<Sel>, op: byte): seq<byte>
    requires forall i :: 0 <= i < |sels| ==> WellFormed(sels[i])
    decreases sels, 0
  {
    if sels == [] then [] else Compile(sels[0]) + [op] + CompileTail(sels[1..], op)
  }

  /** Stack entries the program of a tree needs. */
  function Need(sel: Sel): (n: nat)
    requires WellFormed(sel)
    ensures n >= 1
    decreases sel, 0
  {
    match sel
    case Basic(_) => 1
    case Not(s) => Need(s)
    case Any(sels) => Max(Need(sels[0]), NeedTail(sels[1..]))
    case Every(sels) => Max(Need(sels[0]), NeedTail(sels[1..]))
  }

  function NeedTail(sels: seq<Sel>): nat
    requires forall i :: 0 <= i < |sels| ==> WellFormed(sels[i])
    decreases sels, 0
  {
    if sels == [] then 0 else Max(1 + Need(sels[0]), NeedTail(sels[1..]))
  }

  /** How deep a tree nests any, all and not. */
  function Nesting(sel: Sel): nat
    decreases sel, 0
  {
    match sel
    case Basic(_) => 0
    case Not(s) => 1 + Nesting(s)
    case Any(sels) => 1 + NestingAll(sels)
    case Every(sels) => 1 + NestingAll(sels)
  }

  function NestingAll(sels: seq<Sel>): nat
    decreases sels, 0
  {
    if sels == [] then 0 else Max(Nesting(sels[0]), NestingAll(sels[1..]))
  }

  // ---------------------------------------------------------------- running a program

  /** The leaf at the front of a program, and the rest; None when it is truncated or no leaf. */
  function DecodeLeaf(code: seq<byte>): (r: Option<(Leaf, seq<byte>)>)
    requires code != []
    ensures r.Some? ==> |r.value.1| < |code|
  {
    var op, args := code[0], code[1..];
    if op == SEL_ALL then Some((All, args))
    else if op == SEL_ROOT then Some((Root, args))
    else if op == SEL_LEAVES then Some((Leaves, args))
    else if op == SEL_BRANCHES then Some((Branches, args))
    else if op == SEL_EVEN then Some((Even, args))
    else if op == SEL_ODD then Some((Odd, args))
    else if op == SEL_DEPTH || op == SEL_FRACTION then
      if |args| < 2 then None
      else Some((if op == SEL_DEPTH then Depth(args[0], args[1]) else Fraction(args[0], args[1]), args[2..]))
    else if SEL_SUBTREE <= op <= SEL_LAST then
      if |args| < 1 then None
      else Some((
        if op == SEL_SUBTREE then Subtree(args[0])
        else if op == SEL_NEIGHBORS then Neighbors(args[0])
        else if op == SEL_FIRST then First(args[0]) else Last(args[0]), args[1..]))
    else if op == SEL_INDICES then
      if |args| < 1 || |args| - 1 < args[0] then None
      else Some((Indices(args[1..1 + args[0]]), args[1 + args[0]..]))
    else None
  }

  /** PanelSet::invert: every slot in range flips, nothing else does. */
  function Invert(topo: Topology, s: set<nat>): set<nat> {
    (s - topo.Slots()) + (topo.Slots() - s)
  }

  /** The loop of resolveSelector from a given stack; None is its `return false`. */
  function Exec(topo: Topology, code: seq<byte>, stack: seq<set<nat>>): Option<seq<set<nat>>>
    requires topo.Valid()
    decreases |code|
  {
    var n := |stack|;
    if code == [] then Some(stack)
    else if code[0] == SEL_AND || code[0] == SEL_OR then
      if n < 2 then None
      else
        Exec(topo, code[1..], stack[..n - 2] + [Combine(code[0], stack[n - 2], stack[n - 1])])
    else if code[0] == SEL_NOT then
      if n < 1 then None
      else Exec(topo, code[1..], stack[..n - 1] + [Invert(topo, stack[n - 1])])
    else if n >= SEL_STACK_MAX then None
    else match DecodeLeaf(code)
      case None => None
      case Some((leaf, rest)) => Exec(topo, rest, stack + [LeafMeaning(topo, leaf)])
  }

  function Resolve(topo: Topology, code: seq<byte>): Option<set<nat>>
    requires topo.Valid()
  {
    match Exec(topo, code, [])
    case None => None
    case Some(stack) => if |stack| == 1 then Some(stack[0]) else None
  }

  // ---------------------------------------------------------------- compiling keeps the meaning

  lemma LeafDecodes(leaf: Leaf, rest: seq<byte>)
    requires leaf.Indices? ==> |leaf.panels| < 256
    ensures DecodeLeaf(LeafCode(leaf) + rest) == Some((leaf, rest))
  {
    var code := LeafCode(leaf) + rest;
    assert code[1..] == LeafCode(leaf)[1..] + rest;
    if leaf.Indices? {
      assert code[1..] == [|leaf.panels|] + leaf.panels + rest;
    }
  }

  lemma NotMeaning(topo: Topology, sel: Sel)
    requires topo.Valid()
    ensures Meaning(topo, Not(sel)) == Invert(topo, Meaning(topo, sel))
  {
  }

  lemma ExecNot(topo: Topology, rest: seq<byte>, stack: seq<set<nat>>, m: set<nat>)
    requires topo.Valid()
    ensures Exec(topo, [SEL_NOT] + rest, stack + [m]) == Exec(topo, rest, stack + [Invert(topo, m)])
  {
    assert (stack + [m])[..|stack|] == stack;
    assert ([SEL_NOT] + rest)[1..] == rest;
  }

  function Combine(op: byte, a: set<nat>, b: set<nat>): set<nat> {
    if op == SEL_AND then a * b else a + b
  }

  lemma ExecCombine(topo: Topology, op: byte, rest: seq<byte>, stack: seq<set<nat>>, a: set<nat>, b: set<nat>)
    requires topo.Valid() && (op == SEL_AND || op == SEL_OR)
    ensures Exec(topo, [op] + rest, stack + [a] + [b]) == Exec(topo, rest, stack + [Combine(op, a, b)])
  {
    assert (stack + [a] + [b])[..|stack|] == stack;
    assert ([op] + rest)[1..] == rest;
  }

  /** The left fold of a list, one operand at a time. */
  function Fold(topo: Topology, acc: set<nat>, sels: seq<Sel>, op: byte): set<nat>
    requires topo.Valid()
    decreases |sels|
  {
    if sels == [] then acc
    else
      Fold(topo, Combine(op, acc, Meaning(topo, sels[0])), sels[1..], op)
  }

  lemma {:induction false} FoldAnd(topo: Topology, acc: set<nat>, sels: seq<Sel>)
    requires topo.Valid()
    ensures Fold(topo, acc, sels, SEL_AND)
            == set x | x in acc && forall i :: 0 <= i < |sels| ==> x in Meaning(topo, sels[i])
    decreases |sels|
  {
    if sels != [] {
      FoldAnd(topo, acc * Meaning(topo, sels[0]), sels[1..]);
      forall x ensures (forall i :: 0 <= i < |sels| ==> x in Meaning(topo, sels[i]))
        <==> x in Meaning(topo, sels[0]) && forall i :: 0 <= i < |sels[1..]| ==> x in Meaning(topo, sels[1..][i])
      {
        assert forall i :: 0 < i < |sels| ==> sels[i] == sels[1..][i - 1];
      }
    }
  }

  lemma {:induction false} FoldOr(topo: Topology, acc: set<nat>, sels: seq<Sel>)
    requires topo.Valid()
    ensures forall x :: (x in Fold(topo, acc, sels, SEL_OR)
                         <==> x in acc || exists i :: 0 <= i < |sels| && x in Meaning(topo, sels[i]))
    decreases |sels|
  {
    if sels != [] {
      FoldOr(topo, acc + Meaning(topo, sels[0]), sels[1..]);
      forall x ensures (exists i :: 0 <= i < |sels| && x in Meaning(topo, sels[i]))
        <==> x in Meaning(topo, sels[0]) || exists i :: 0 <= i < |sels[1..]| && x in Meaning(topo, sels[1..][i])
      {
        assert forall i :: 0 < i < |sels| ==> sels[i] == sels[1..][i - 1];
        assert forall i :: 0 <= i < |sels[1..]| ==> sels[1..][i] == sels[i + 1];
      }
    }
  }

  lemma EveryMeaning(topo: Topology, sels: seq<Sel>)
    requires topo.Valid() && sels != []
    ensures Meaning(topo, Every(sels)) == Fold(topo, Meaning(topo, sels[0]), sels[1..], SEL_AND)
  {
    FoldAnd(topo, Meaning(topo, sels[0]), sels[1..]);
    forall x: nat | x < topo.count
      ensures Selects(topo, Every(sels), x)
        <==> x in Meaning(topo, sels[0]) && forall i :: 0 <= i < |sels[1..]| ==> x in Meaning(topo, sels[1..][i])
    {
      assert forall i :: 0 < i < |sels| ==> sels[i] == sels[1..][i - 1];
    }
  }

  lemma AnyMeaning(topo: Topology, sels: seq<Sel>)
    requires topo.Valid() && sels != []
    ensures Meaning(topo, Any(sels)) == Fold(topo, Meaning(topo, sels[0]), sels[1..], SEL_OR)
  {
    FoldOr(topo, Meaning(topo, sels[0]), sels[1..]);
    forall x: nat | x < topo.count
      ensures Selects(topo, Any(sels), x)
        <==> x in Meaning(topo, sels[0]) || exists i :: 0 <= i < |sels[1..]| && x in Meaning(topo, sels[1..][i])
    {
      assert forall i :: 0 < i < |sels| ==> sels[i] == sels[1..][i - 1];
      assert forall i :: 0 <= i < |sels[1..]| ==> sels[1..][i] == sels[i + 1];
    }
  }

  lemma Regroup(a: seq<byte>, b: seq<byte>, c: seq<byte>, d: seq<byte>)
    ensures a + b + c + d == a + (b + (c + d))
  {
  }

  /**
   Running the program of a tree, from any stack and before any other code: it never underflows,
   it pushes exactly the tree's meaning when the tree's need fits the stack, and it fails
   otherwise.
   */
  lemma {:induction false} CompiledTreeRuns(topo: Topology, sel: Sel, rest: seq<byte>, stack: seq<set<nat>>)
    requires topo.Valid() && WellFormed(sel)
    ensures Exec(topo, Compile(sel) + rest, stack)
            == if |stack| + Need(sel) <= SEL_STACK_MAX then Exec(topo, rest, stack + [Meaning(topo, sel)]) else None
    decreases sel, 0
  {
    match sel
    case Basic(leaf) =>
      LeafDecodes(leaf, rest);
      assert LeafMeaning(topo, leaf) == Meaning(topo, sel);
    case Not(s) =>
      var m := Meaning(topo, s);
      Assoc(Compile(s), [SEL_NOT], rest);
      CompiledTreeRuns(topo, s, [SEL_NOT] + rest, stack);
      NotMeaning(topo, s);
      ExecNot(topo, rest, stack, m);
    case Any(sels) =>
      var tail := CompileTail(sels[1..], SEL_OR);
      Assoc(Compile(sels[0]), tail, rest);
      CompiledTreeRuns(topo, sels[0], tail + rest, stack);
      CompiledTailRuns(topo, sels[1..], SEL_OR, rest, stack, Meaning(topo, sels[0]));
      AnyMeaning(topo, sels);
    case Every(sels) =>
      var tail := CompileTail(sels[1..], SEL_AND);
      Assoc(Compile(sels[0]), tail, rest);
      CompiledTreeRuns(topo, sels[0], tail + rest, stack);
      CompiledTailRuns(topo, sels[1..], SEL_AND, rest, stack, Meaning(topo, sels[0]));
      EveryMeaning(topo, sels);
  }

  lemma {:induction false} CompiledTailRuns(
      topo: Topology, sels: seq<Sel>, op: byte, rest: seq<byte>, stack: seq<set<nat>>, acc: set<nat>)
    requires topo.Valid() && (op == SEL_AND || op == SEL_OR)
    requires forall i :: 0 <= i < |sels| ==> WellFormed(sels[i])
    ensures Exec(topo, CompileTail(sels, op) + rest, stack + [acc])
            == if sels == [] || |stack| + NeedTail(sels) <= SEL_STACK_MAX
               then Exec(topo, rest, stack + [Fold(topo, acc, sels, op)]) else None
    decreases sels, 0
  {
    if sels == [] {
      assert CompileTail(sels, op) + rest == rest;
    } else {
      var m := Meaning(topo, sels[0]);
      var first, tail := Compile(sels[0]), CompileTail(sels[1..], op);
      var after := [op] + (tail + rest);
      Regroup(first, [op], tail, rest);
      CompiledTreeRuns(topo, sels[0], after, stack + [acc]);
      ExecCombine(topo, op, tail + rest, stack, acc, m);
      CompiledTailRuns(topo, sels[1..], op, rest, stack, Combine(op, acc, m));
    }
  }

  /** Resolution succeeds exactly when the need fits the stack, and then gives the tree's set. */
  lemma ResolvesIffItFits(topo: Topology, sel: Sel)
    requires topo.Valid() && WellFormed(sel)
    ensures Resolve(topo, Compile(sel))
            == if Need(sel) <= SEL_STACK_MAX then Some(Meaning(topo, sel)) else None
  {
    CompiledTreeRuns(topo, sel, [], []);
    assert Compile(sel) + [] == Compile(sel);
    assert [] + [Meaning(topo, sel)] == [Meaning(topo, sel)];
  }

  /** A tree needs at most one entry more than it nests. */
  lemma {:induction false} NeedIsBoundedByNesting(sel: Sel)
    requires WellFormed(sel)
    ensures Need(sel) <= Nesting(sel) + 1
    decreases sel, 0
  {
    match sel
    case Basic(_) =>
    case Not(s) => NeedIsBoundedByNesting(s);
    case Any(sels) =>
      NeedIsBoundedByNesting(sels[0]);
      NeedTailIsBounded(sels[1..]);
    case Every(sels) =>
      NeedIsBoundedByNesting(sels[0]);
      NeedTailIsBounded(sels[1..]);
  }

  lemma {:induction false} NeedTailIsBounded(sels: seq<Sel>)
    requires forall i :: 0 <= i < |sels| ==> WellFormed(sels[i])
    ensures NeedTail(sels) <= NestingAll(sels) + 2
    decreases sels, 0
  {
    if sels != [] {
      NeedIsBoundedByNesting(sels[0]);
      NeedTailIsBounded(sels[1..]);
    }
  }

  // ---------------------------------------------------------------- first and last

  function SlotsAt(topo: Topology, from: nat, until: nat): set<nat>
    requires topo.Valid() && from <= until <= topo.count
  {
    set p: nat | from <= p < until :: topo.order[p]
  }

  lemma {:induction false} SlotsAtSize(topo: Topology, from: nat, until: nat)
    requires topo.Valid() && from <= until <= topo.count
    ensures |SlotsAt(topo, from, until)| == until - from
    decreases until
  {
    if from < until {
      SlotsAtSize(topo, from, until - 1);
      var smaller := SlotsAt(topo, from, until - 1);
      assert SlotsAt(topo, from, until) == smaller + {topo.order[until - 1]};
    } else {
      assert SlotsAt(topo, from, until) == {};
    }
  }

  /** `first:k` and `last:k` pick k panels, or all of them, from the two ends of the order. */
  lemma FirstAndLastPickK(topo: Topology, k: byte)
    requires topo.Valid()
    ensures var n := if k <= topo.count then k else topo.count;
      && LeafMeaning(topo, First(k)) == SlotsAt(topo, 0, n)
      && LeafMeaning(topo, Last(k)) == SlotsAt(topo, topo.count - n, topo.count)
      && |LeafMeaning(topo, First(k))| == |LeafMeaning(topo, Last(k))| == n
  {
    var n := if k <= topo.count then k else topo.count;
    forall x: nat | x < topo.count ensures topo.order[topo.position[x]] == x {
    }
    SlotsAtSize(topo, 0, n);
    SlotsAtSize(topo, topo.count - n, topo.count);
    assert LeafMeaning(topo, First(k)) == SlotsAt(topo, 0, n);
    assert LeafMeaning(topo, Last(k)) == SlotsAt(topo, topo.count - n, topo.count);
  }
}

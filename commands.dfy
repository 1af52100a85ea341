/** Lowering of the command tree to a flat command vector with resolved
    jump targets (`src/commands.rs`).

    Each loop becomes a `LoopBegin` holding the index of its `LoopEnd`, the
    body's commands, and a `LoopEnd` holding the index of its `LoopBegin`.
    The begin entry is first pushed as a placeholder and patched once the end
    index is known. */
module Commands {
  import opened Prelude
  import CommandAst

  datatype Command =
    | Move(offset: int)
    | Add(n: u8)
    | Zero
    | Output
    | Input
    | LoopBegin(target: nat)
    | LoopEnd(target: nat)

  /** How many commands a node lowers to. */
  function Size(node: CommandAst.Node): nat
    decreases node
  {
    match node
    case Loop(body) => 2 + SizeAll(body)
    case _ => 1
  }

  function SizeAll(nodes: seq<CommandAst.Node>): nat
    decreases nodes
  {
    if nodes == [] then 0 else Size(nodes[0]) + SizeAll(nodes[1..])
  }

  /** The commands `node` lowers to when its first command lands at index
      `base`: exactly `Size(node)` of them. */
  function LowerNode(node: CommandAst.Node, base: nat): (r: seq<Command>)
    ensures |r| == Size(node)
    decreases node
  {
    match node
    case Move(offset) => [Move(offset)]
    case Add(n) => [Add(n)]
    case Output => [Output]
    case Input => [Input]
    case Loop(body) =>
      [LoopBegin(base + 1 + SizeAll(body))] + LowerAll(body, base + 1) + [LoopEnd(base)]
  }

  /** The commands a list of nodes lowers to from index `base` on. */
  function LowerAll(nodes: seq<CommandAst.Node>, base: nat): (r: seq<Command>)
    ensures |r| == SizeAll(nodes)
    decreases nodes
  {
    if nodes == [] then []
    else LowerNode(nodes[0], base) + LowerAll(nodes[1..], base + Size(nodes[0]))
  }

  predicate NoZero(cs: seq<Command>)
  {
    forall i :: 0 <= i < |cs| ==> !cs[i].Zero?
  }

  lemma NoZeroConcat(a: seq<Command>, b: seq<Command>)
    requires NoZero(a) && NoZero(b)
    ensures NoZero(a + b)
  {
    forall i | 0 <= i < |a + b| ensures !(a + b)[i].Zero? {
      if i < |a| {
        assert (a + b)[i] == a[i];
      } else {
        assert (a + b)[i] == b[i - |a|];
      }
    }
  }

  /** Lowering never produces a `Zero`: the tree has no such node. */
  lemma {:induction false} LowerNodeNoZero(node: CommandAst.Node, base: nat)
    ensures NoZero(LowerNode(node, base))
    decreases node
  {
    match node
    case Loop(body) =>
      LowerAllNoZero(body, base + 1);
      NoZeroConcat([LoopBegin(base + 1 + SizeAll(body))], LowerAll(body, base + 1));
      NoZeroConcat([LoopBegin(base + 1 + SizeAll(body))] + LowerAll(body, base + 1), [LoopEnd(base)]);
    case _ =>
  }

  lemma {:induction false} LowerAllNoZero(nodes: seq<CommandAst.Node>, base: nat)
    ensures NoZero(LowerAll(nodes, base))
    decreases nodes
  {
    if nodes != [] {
      LowerNodeNoZero(nodes[0], base);
      LowerAllNoZero(nodes[1..], base + Size(nodes[0]));
      NoZeroConcat(LowerNode(nodes[0], base), LowerAll(nodes[1..], base + Size(nodes[0])));
    }
  }

  /** Overwriting the placeholder at the front of a lowered loop gives the
      loop's lowering. */
  lemma PatchPlaceholder(before: seq<Command>, inner: seq<Command>, e: nat)
    ensures (before + [LoopBegin(0)] + inner + [LoopEnd(|before|)])[|before| := LoopBegin(e)]
         == before + ([LoopBegin(e)] + inner + [LoopEnd(|before|)])
  {
  }

  /** Lowering what is left of `ast` from entry `i` on is lowering entry `i`
      and then what is left after it. */
  lemma LowerNext(before: seq<Command>, base: nat, ast: seq<CommandAst.Node>, i: nat)
    requires i < |ast| && base == |before|
    ensures before + LowerAll(ast[i..], base)
         == (before + LowerNode(ast[i], base)) + LowerAll(ast[i + 1..], base + Size(ast[i]))
  {
    LowerSuffix(ast, i, base);
    ConcatAssoc(before, LowerNode(ast[i], base), LowerAll(ast[i + 1..], base + Size(ast[i])));
  }

  lemma LowerSuffix(ast: seq<CommandAst.Node>, i: nat, base: nat)
    requires i < |ast|
    ensures LowerAll(ast[i..], base) == LowerNode(ast[i], base) + LowerAll(ast[i + 1..], base + Size(ast[i]))
  {
    LowerFirst(ast[i..], base);
    assert ast[i..][1..] == ast[i + 1..];
  }

  lemma LowerFirst(nodes: seq<CommandAst.Node>, base: nat)
    requires nodes != []
    ensures LowerAll(nodes, base) == LowerNode(nodes[0], base) + LowerAll(nodes[1..], base + Size(nodes[0]))
  {
  }

  lemma ConcatAssoc<T>(a: seq<T>, b: seq<T>, c: seq<T>)
    ensures a + (b + c) == (a + b) + c
  {
  }

  /** One pass of the loop in `commands_from_ast`: once entry `i` is
      lowered onto `before`, what is left to lower starts after it. */
  lemma LowerAdvance(goal: seq<Command>, ast: seq<CommandAst.Node>, i: nat,
                     before: seq<Command>, base: nat, out: seq<Command>, next: nat)
    requires i < |ast| && base == |before| && next == base + Size(ast[i])
    requires before + LowerAll(ast[i..], base) == goal
    requires out == before + LowerNode(ast[i], base)
    ensures out + LowerAll(ast[i + 1..], next) == goal
  {
    LowerNext(before, base, ast, i);
  }

  /** The loop branch of `commands_from_ast`: the placeholder, the body and
      the `LoopEnd`, with the placeholder then patched, are the loop's
      lowering. */
  lemma LowerLoopPatched(before: seq<Command>, base: nat, contents: seq<CommandAst.Node>,
                         out: seq<Command>, e: nat)
    requires base == |before| && e == base + 1 + SizeAll(contents)
    requires out == before + [LoopBegin(0)] + LowerAll(contents, base + 1) + [LoopEnd(base)]
    ensures out[base := LoopBegin(e)] == before + LowerNode(CommandAst.Loop(contents), base)
  {
    PatchPlaceholder(before, LowerAll(contents, base + 1), e);
  }

  /** `commands_from_ast`: appends the lowering of `ast` to `commands`,
      leaving the entries already there untouched. */
  method CommandsFromAst(commands: seq<Command>, ast: seq<CommandAst.Node>) returns (out: seq<Command>)
    ensures out == commands + LowerAll(ast, |commands|)
    decreases ast
  {
    ghost var goal := commands + LowerAll(ast, |commands|);
    out := commands;
    assert ast[0..] == ast;
    for i := 0 to |ast|
      invariant out + LowerAll(ast[i..], |out|) == goal
    {
      ghost var before := out;
      ghost var base := |out|;
      match ast[i] {
        case Move(offset) => out := out + [Move(offset)];
        case Add(n) => out := out + [Add(n)];
        case Output => out := out + [Output];
        case Input => out := out + [Input];
        case Loop(contents) =>
          var beginIndex := |out|;
          ghost var inner := LowerAll(contents, base + 1);
          out := out + [LoopBegin(0)];
          out := CommandsFromAst(out, contents);
          assert out == before + [LoopBegin(0)] + inner;
          var endIndex := |out|;
          out := out + [LoopEnd(beginIndex)];
          // the entry at beginIndex is still the placeholder, so the
          // "corrupted command vector" panic cannot happen
          assert out[beginIndex] == LoopBegin(0);
          LowerLoopPatched(before, base, contents, out, endIndex);
          out := out[beginIndex := LoopBegin(endIndex)];
      }
      LowerAdvance(goal, ast, i, before, base, out, |out|);
    }
    assert ast[|ast|..] == [];
  }

  // ---------------------------------------------------------------------
  // Jump pairing

  /** The jump at index `base + i` of the vector (entry `i` of `cs`) has
      its partner inside `cs`: a `LoopBegin` targets a later `LoopEnd` that
      targets it back, a `LoopEnd` an earlier `LoopBegin` that does. */
  ghost predicate JumpOk(cs: seq<Command>, base: nat, i: nat)
    requires i < |cs|
  {
    match cs[i]
    case LoopBegin(t) => base + i < t < base + |cs| && cs[t - base] == LoopEnd(base + i)
    case LoopEnd(t) => base <= t < base + i && cs[t - base] == LoopBegin(base + i)
    case _ => true
  }

  /** `cs` occupies indices `base ..` of the vector and every jump in it is
      paired with its partner, both ways round. */
  ghost predicate Paired(cs: seq<Command>, base: nat)
  {
    forall i: nat :: i < |cs| ==> JumpOk(cs, base, i)
  }

  lemma PairedConcat(a: seq<Command>, b: seq<Command>, base: nat)
    requires Paired(a, base) && Paired(b, base + |a|)
    ensures Paired(a + b, base)
  {
    var ab := a + b;
    forall i: nat | i < |ab|
      ensures JumpOk(ab, base, i)
    {
      if i < |a| {
        assert JumpOk(a, base, i);
        assert ab[i] == a[i];
        match a[i]
        case LoopBegin(t) => assert ab[t - base] == a[t - base];
        case LoopEnd(t) => assert ab[t - base] == a[t - base];
        case _ =>
      } else {
        var k: nat := i - |a|;
        assert JumpOk(b, base + |a|, k);
        assert ab[i] == b[k];
        match b[k]
        case LoopBegin(t) => assert ab[t - base] == b[t - base - |a|];
        case LoopEnd(t) => assert ab[t - base] == b[t - base - |a|];
        case _ =>
      }
    }
  }

  lemma PairedWrap(body: seq<Command>, base: nat)
    requires Paired(body, base + 1)
    ensures Paired([LoopBegin(base + 1 + |body|)] + body + [LoopEnd(base)], base)
  {
    var w := [LoopBegin(base + 1 + |body|)] + body + [LoopEnd(base)];
    forall i: nat | i < |w|
      ensures JumpOk(w, base, i)
    {
      if i == 0 {
        assert w[|w| - 1] == LoopEnd(base);
      } else if i == |w| - 1 {
        assert w[0] == LoopBegin(base + 1 + |body|);
      } else {
        var k: nat := i - 1;
        assert JumpOk(body, base + 1, k);
        assert w[i] == body[k];
        match body[k]
        case LoopBegin(t) => assert w[t - base] == body[t - base - 1];
        case LoopEnd(t) => assert w[t - base] == body[t - base - 1];
        case _ =>
      }
    }
  }

  lemma {:induction false} LowerNodePaired(node: CommandAst.Node, base: nat)
    ensures Paired(LowerNode(node, base), base)
    decreases node
  {
    match node
    case Loop(body) =>
      LowerAllPaired(body, base + 1);
      PairedWrap(LowerAll(body, base + 1), base);
    case _ =>
      assert JumpOk(LowerNode(node, base), base, 0);
  }

  /** Every jump the lowering produces is paired with its partner, both
      ways round. */
  lemma {:induction false} LowerAllPaired(nodes: seq<CommandAst.Node>, base: nat)
    ensures Paired(LowerAll(nodes, base), base)
    decreases nodes
  {
    if nodes != [] {
      LowerNodePaired(nodes[0], base);
      LowerAllPaired(nodes[1..], base + Size(nodes[0]));
      PairedConcat(LowerNode(nodes[0], base), LowerAll(nodes[1..], base + Size(nodes[0])), base);
    }
  }

  /** Appending a lowering to a paired vector leaves the whole vector
      paired. */
  lemma CommandsFromAstPaired(commands: seq<Command>, ast: seq<CommandAst.Node>)
    requires Paired(commands, 0)
    ensures Paired(commands + LowerAll(ast, |commands|), 0)
  {
    LowerAllPaired(ast, |commands|);
    PairedConcat(commands, LowerAll(ast, |commands|), 0);
  }

  // ---------------------------------------------------------------------
  // Nothing is lost: the tree can be read back from the commands

  function Cons(node: CommandAst.Node, rest: Option<seq<CommandAst.Node>>): Option<seq<CommandAst.Node>>
  {
    match rest
    case None => None
    case Some(nodes) => Some([node] + nodes)
  }

  /** Rebuilds the tree from the commands at indices `lo .. hi` of the
      vector `cs`, following each `LoopBegin` to the index it holds. */
  function RaiseRange(cs: seq<Command>, lo: nat, hi: nat): Option<seq<CommandAst.Node>>
    requires lo <= hi <= |cs|
    decreases hi - lo
  {
    if lo == hi then Some([])
    else match cs[lo]
      case Move(offset) => Cons(CommandAst.Move(offset), RaiseRange(cs, lo + 1, hi))
      case Add(n) => Cons(CommandAst.Add(n), RaiseRange(cs, lo + 1, hi))
      case Output => Cons(CommandAst.Output, RaiseRange(cs, lo + 1, hi))
      case Input => Cons(CommandAst.Input, RaiseRange(cs, lo + 1, hi))
      case Zero => None
      case LoopEnd(_) => None
      case LoopBegin(target) =>
        if lo < target < hi && cs[target] == LoopEnd(lo) then
          match (RaiseRange(cs, lo + 1, target), RaiseRange(cs, target + 1, hi))
          case (Some(body), Some(rest)) => Some([CommandAst.Loop(body)] + rest)
          case _ => None
        else None
  }

  /** The tree a whole command vector encodes, if it encodes one. */
  function Raise(cs: seq<Command>): Option<seq<CommandAst.Node>>
  {
    RaiseRange(cs, 0, |cs|)
  }

  lemma SliceSplit(cs: seq<Command>, lo: nat, hi: nat, a: seq<Command>, b: seq<Command>)
    requires lo <= hi <= |cs| && cs[lo..hi] == a + b
    ensures lo + |a| <= hi
    ensures cs[lo..lo + |a|] == a && cs[lo + |a|..hi] == b
  {
    assert |cs[lo..hi]| == |a| + |b|;
    forall k | 0 <= k < |a| ensures cs[lo..lo + |a|][k] == a[k] {
      assert cs[lo + k] == cs[lo..hi][k] == (a + b)[k];
    }
    forall k | 0 <= k < |b| ensures cs[lo + |a|..hi][k] == b[k] {
      assert cs[lo + |a| + k] == cs[lo..hi][|a| + k] == (a + b)[|a| + k];
    }
  }

  /** Where the lowering of `nodes` sits at indices `lo ..` of `cs`, those
      commands read back as `nodes`: a loop body's commands sit exactly
      between its begin and its end, and every other node maps to the
      same-named command. */
  lemma {:induction false} RaiseLowered(cs: seq<Command>, nodes: seq<CommandAst.Node>, lo: nat)
    requires lo + SizeAll(nodes) <= |cs|
    requires cs[lo..lo + SizeAll(nodes)] == LowerAll(nodes, lo)
    ensures RaiseRange(cs, lo, lo + SizeAll(nodes)) == Some(nodes)
    decreases nodes, 1
  {
    if nodes != [] {
      var mid := lo + Size(nodes[0]);
      var hi := mid + SizeAll(nodes[1..]);
      assert hi == lo + SizeAll(nodes);
      SliceSplit(cs, lo, hi, LowerNode(nodes[0], lo), LowerAll(nodes[1..], mid));
      RaiseLowered(cs, nodes[1..], mid);
      RaiseLoweredHead(cs, nodes, lo, mid, hi);
    }
  }

  /** The inductive step of `RaiseLowered`: the first node's commands sit
      at `lo .. mid` and the rest reads back from `mid` on. */
  lemma {:induction false} RaiseLoweredHead(cs: seq<Command>, nodes: seq<CommandAst.Node>, lo: nat, mid: nat, hi: nat)
    requires nodes != [] && mid == lo + Size(nodes[0]) && mid <= hi <= |cs|
    requires cs[lo..mid] == LowerNode(nodes[0], lo)
    requires RaiseRange(cs, mid, hi) == Some(nodes[1..])
    ensures RaiseRange(cs, lo, hi) == Some(nodes)
    decreases nodes, 0
  {
    if nodes[0].Loop? {
      var body := nodes[0].body;
      var t := lo + 1 + SizeAll(body);
      assert mid == t + 1;
      LoopSlice(cs, nodes[0], lo, mid);
      RaiseLowered(cs, body, lo + 1);
      RaiseHeadLoop(cs, lo, t, mid, hi, nodes);
    } else {
      assert [cs[lo]] == cs[lo..mid];
      RaiseHeadSimple(cs, lo, mid, hi, nodes);
    }
  }

  /** Where a lowered loop sits at indices `lo .. mid` of `cs`: its begin,
      its body's commands and its end. */
  lemma LoopSlice(cs: seq<Command>, node: CommandAst.Node, lo: nat, mid: nat)
    requires node.Loop? && mid == lo + Size(node) <= |cs|
    requires cs[lo..mid] == LowerNode(node, lo)
    ensures cs[lo] == LoopBegin(lo + 1 + SizeAll(node.body))
    ensures cs[lo + 1 + SizeAll(node.body)] == LoopEnd(lo)
    ensures cs[lo + 1..lo + 1 + SizeAll(node.body)] == LowerAll(node.body, lo + 1)
  {
    var inner := LowerAll(node.body, lo + 1);
    assert cs[lo..mid] == [LoopBegin(mid - 1)] + inner + [LoopEnd(lo)];
    assert cs[lo] == cs[lo..mid][0];
    assert cs[mid - 1] == cs[lo..mid][mid - 1 - lo];
    SliceSplit(cs, lo + 1, mid, inner, [LoopEnd(lo)]);
  }

  /** A `LoopBegin` at `lo` whose target `t` holds the matching `LoopEnd`
      reads back as a loop over what lies between them, followed by what
      lies after the end (from `mid = t + 1` on). */
  lemma RaiseHeadLoop(cs: seq<Command>, lo: nat, t: nat, mid: nat, hi: nat, nodes: seq<CommandAst.Node>)
    requires lo < t < mid <= hi <= |cs| && mid == t + 1
    requires nodes != [] && nodes[0].Loop?
    requires cs[lo] == LoopBegin(t) && cs[t] == LoopEnd(lo)
    requires RaiseRange(cs, lo + 1, t) == Some(nodes[0].body)
    requires RaiseRange(cs, mid, hi) == Some(nodes[1..])
    ensures RaiseRange(cs, lo, hi) == Some(nodes)
  {
    assert [nodes[0]] + nodes[1..] == nodes;
  }

  /** The command a non-loop node lowers to reads back as that node. */
  lemma RaiseHeadSimple(cs: seq<Command>, lo: nat, mid: nat, hi: nat, nodes: seq<CommandAst.Node>)
    requires lo < mid <= hi <= |cs| && mid == lo + 1
    requires nodes != [] && !nodes[0].Loop?
    requires [cs[lo]] == LowerNode(nodes[0], lo)
    requires RaiseRange(cs, mid, hi) == Some(nodes[1..])
    ensures RaiseRange(cs, lo, hi) == Some(nodes)
  {
    assert [nodes[0]] + nodes[1..] == nodes;
    match nodes[0]
    case Move(offset) => assert cs[lo] == Move(offset);
    case Add(n) => assert cs[lo] == Add(n);
    case Output => assert cs[lo] == Output;
    case Input => assert cs[lo] == Input;
  }

  /** Lowering loses nothing: the vector `commands_from_ast` builds for a
      tree decodes back to that tree. */
  lemma RaiseLowerAll(ast: seq<CommandAst.Node>)
    ensures Raise(LowerAll(ast, 0)) == Some(ast)
  {
    var cs := LowerAll(ast, 0);
    assert cs[0..|cs|] == cs;
    RaiseLowered(cs, ast, 0);
  }
}

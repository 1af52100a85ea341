/** The tree optimizer (`src/optimizer.rs`): the command tree is copied into
    the optimized node type, then the top level of the copy is rewritten in
    place, turning every loop whose body is a single `Add` into `Zero`. */
module Optimizer {
  import opened Prelude
  import CommandAst

  datatype OptNode =
    | Move(offset: int)
    | Add(n: u8)
    | AddWithOffset(n: u8, offset: int)
    | Zero
    | Output
    | Input
    | Loop(body: seq<OptNode>)

  // ---------------------------------------------------------------------
  // optimized_ast_from_ast

  function FromNode(node: CommandAst.Node): OptNode
    decreases node
  {
    match node
    case Move(offset) => Move(offset)
    case Add(n) => Add(n)
    case Output => Output
    case Input => Input
    case Loop(contents) => Loop(FromAst(contents))
  }

  /** `optimized_ast_from_ast`: the same list, node by node. */
  function FromAst(ast: seq<CommandAst.Node>): (r: seq<OptNode>)
    ensures |r| == |ast|
    ensures forall i :: 0 <= i < |ast| ==> r[i] == FromNode(ast[i])
    decreases ast
  {
    if ast == [] then [] else [FromNode(ast[0])] + FromAst(ast[1..])
  }

  /** Reads an optimized tree back as a command tree; `None` when it holds
      a node the command tree has no counterpart for. */
  function ToNode(node: OptNode): Option<CommandAst.Node>
    decreases node
  {
    match node
    case Move(offset) => Some(CommandAst.Move(offset))
    case Add(n) => Some(CommandAst.Add(n))
    case Output => Some(CommandAst.Output)
    case Input => Some(CommandAst.Input)
    case Loop(body) =>
      (match ToAst(body)
       case Some(nodes) => Some(CommandAst.Loop(nodes))
       case None => None)
    case _ => None
  }

  function ToAst(nodes: seq<OptNode>): Option<seq<CommandAst.Node>>
    decreases nodes
  {
    if nodes == [] then Some([])
    else match (ToNode(nodes[0]), ToAst(nodes[1..]))
      case (Some(head), Some(tail)) => Some([head] + tail)
      case _ => None
  }

  lemma {:induction false} ToNodeFromNode(node: CommandAst.Node)
    ensures ToNode(FromNode(node)) == Some(node)
    decreases node
  {
    match node
    case Loop(contents) => ToAstFromAst(contents);
    case _ =>
  }

  /** The conversion keeps the tree's shape: each node becomes the
      same-named node, recursively, so reading it back gives the original
      tree. */
  lemma {:induction false} ToAstFromAst(ast: seq<CommandAst.Node>)
    ensures ToAst(FromAst(ast)) == Some(ast)
    decreases ast
  {
    if ast != [] {
      var r := FromAst(ast);
      assert r[0] == FromNode(ast[0]);
      assert r[1..] == FromAst(ast[1..]);
      ToNodeFromNode(ast[0]);
      ToAstFromAst(ast[1..]);
      assert [ast[0]] + ast[1..] == ast;
    }
  }

  /** No `AddWithOffset` anywhere in the tree. */
  predicate NoOffsetAdd(node: OptNode)
    decreases node
  {
    match node
    case AddWithOffset(_, _) => false
    case Loop(body) => NoOffsetAddAll(body)
    case _ => true
  }

  predicate NoOffsetAddAll(nodes: seq<OptNode>)
    decreases nodes
  {
    nodes == [] || (NoOffsetAdd(nodes[0]) && NoOffsetAddAll(nodes[1..]))
  }

  lemma {:induction false} NoOffsetAddAllAt(nodes: seq<OptNode>)
    ensures NoOffsetAddAll(nodes) <==> forall i :: 0 <= i < |nodes| ==> NoOffsetAdd(nodes[i])
    decreases nodes
  {
    if nodes != [] {
      NoOffsetAddAllAt(nodes[1..]);
      assert forall i :: 1 <= i < |nodes| ==> nodes[i] == nodes[1..][i - 1];
    }
  }

  lemma {:induction false} FromNodeNoOffsetAdd(node: CommandAst.Node)
    ensures NoOffsetAdd(FromNode(node))
    decreases node
  {
    match node
    case Loop(contents) => FromAstNoOffsetAdd(contents);
    case _ =>
  }

  lemma {:induction false} FromAstNoOffsetAdd(ast: seq<CommandAst.Node>)
    ensures NoOffsetAddAll(FromAst(ast))
    decreases ast
  {
    if ast != [] {
      var r := FromAst(ast);
      assert r[1..] == FromAst(ast[1..]);
      FromNodeNoOffsetAdd(ast[0]);
      FromAstNoOffsetAdd(ast[1..]);
    }
  }

  // ---------------------------------------------------------------------
  // is_zero_operation and optimize_ast

  /** `is_zero_operation`: a loop whose body is exactly one `Add`, whatever
      its amount. */
  function IsZeroOperation(node: OptNode): (r: bool)
    ensures r <==> node.Loop? && |node.body| == 1 && node.body[0].Add?
  {
    match node
    case Loop(contents) =>
      if |contents| > 1 then false
      else if contents == [] then false
      else contents[|contents| - 1].Add?
    case _ => false
  }

  /** What one step of the `iter_mut` pass leaves at a position. */
  function Rewritten(node: OptNode): OptNode
  {
    if IsZeroOperation(node) then Zero else node
  }

  /** The list `optimize_ast` leaves behind: each top-level zero operation
      replaced with `Zero`, every other node (loop bodies included) kept. */
  function ZeroLoops(nodes: seq<OptNode>): (r: seq<OptNode>)
    ensures |r| == |nodes|
    ensures forall i :: 0 <= i < |nodes| ==>
              (IsZeroOperation(nodes[i]) ==> r[i] == Zero) &&
              (!IsZeroOperation(nodes[i]) ==> r[i] == nodes[i])
    decreases nodes
  {
    if nodes == [] then [] else [Rewritten(nodes[0])] + ZeroLoops(nodes[1..])
  }

  /** `optimize_ast`: overwrites each top-level zero operation with `Zero`,
      in place. */
  method OptimizeAst(ast: array<OptNode>)
    modifies ast
    ensures ast[..] == ZeroLoops(old(ast[..]))
  {
    for i := 0 to ast.Length
      invariant forall j :: 0 <= j < i ==> ast[j] == Rewritten(old(ast[j]))
      invariant forall j :: i <= j < ast.Length ==> ast[j] == old(ast[j])
    {
      if IsZeroOperation(ast[i]) {
        ast[i] := Zero;
      }
    }
  }

  /** `optimize`: converts the tree and applies the in-place pass to a
      fresh working copy. */
  method Optimize(ast: seq<CommandAst.Node>) returns (r: seq<OptNode>)
    ensures r == ZeroLoops(FromAst(ast))
  {
    var converted := FromAst(ast);
    var working := new OptNode[|converted|](i requires 0 <= i < |converted| => converted[i]);
    assert working[..] == converted;
    OptimizeAst(working);
    r := working[..];
  }

  /** A second pass changes nothing, since `Zero` is not a loop. */
  lemma ZeroLoopsIdempotent(nodes: seq<OptNode>)
    ensures ZeroLoops(ZeroLoops(nodes)) == ZeroLoops(nodes)
  {
    var once := ZeroLoops(nodes);
    var twice := ZeroLoops(once);
    forall i | 0 <= i < |nodes| ensures twice[i] == once[i] {
      assert !IsZeroOperation(once[i]) by {
        if IsZeroOperation(nodes[i]) { assert once[i] == Zero; }
      }
    }
  }

  /** The optimizer's result is the converted tree with only its top-level
      zero operations replaced, and it holds no `AddWithOffset`. */
  lemma OptimizeResult(ast: seq<CommandAst.Node>)
    ensures |ZeroLoops(FromAst(ast))| == |ast|
    ensures forall i :: 0 <= i < |ast| ==>
              ZeroLoops(FromAst(ast))[i] == Rewritten(FromNode(ast[i]))
    ensures NoOffsetAddAll(ZeroLoops(FromAst(ast)))
  {
    var converted := FromAst(ast);
    var r := ZeroLoops(converted);
    FromAstNoOffsetAdd(ast);
    NoOffsetAddAllAt(converted);
    NoOffsetAddAllAt(r);
    forall i | 0 <= i < |r| ensures NoOffsetAdd(r[i]) {
      assert NoOffsetAdd(converted[i]);
    }
  }

  // ---------------------------------------------------------------------
  // What a single-`Add` loop does to its cell

  /** The cell after the body of `[Add(n)]` has run `k` times from `c`. */
  function AddRepeatedly(c: u8, n: u8, k: nat): u8
  {
    if k == 0 then c else WrappingAdd(AddRepeatedly(c, n, k - 1), n)
  }

  lemma AddRepeatedlyClosed(c: u8, n: u8, k: nat)
    ensures AddRepeatedly(c, n, k) as int == (c as int + k * n as int) % 256
  {
    AddRepeatedlySum(c, n, k);
    SumIsProduct(k, n as int);
  }

  /** `k` copies of `n` added up. */
  function Sum(k: nat, n: int): int
  {
    if k == 0 then 0 else Sum(k - 1, n) + n
  }

  lemma {:induction false} SumIsProduct(k: nat, n: int)
    ensures Sum(k, n) == k * n
  {
    if k > 0 {
      SumIsProduct(k - 1, n);
      MulPred(k, n);
    }
  }

  lemma MulPred(k: int, n: int)
    ensures (k - 1) * n + n == k * n
  {
  }

  lemma {:induction false} AddRepeatedlySum(c: u8, n: u8, k: nat)
    ensures AddRepeatedly(c, n, k) as int == (c as int + Sum(k, n as int)) % 256
  {
    if k > 0 {
      AddRepeatedlySum(c, n, k - 1);
      ModAdd(c as int + Sum(k - 1, n as int), n as int);
    }
  }

  /** The loop `[Add(n)]` entered with cell `c` ends, leaving the cell at
      zero, exactly when some number of iterations brings the cell to 0. */
  ghost predicate Clears(c: u8, n: u8)
  {
    exists k: nat :: AddRepeatedly(c, n, k) == 0
  }

  lemma FactorOddSquare(n: int) returns (q: int)
    requires n % 2 == 1
    ensures n * n - 1 == 8 * q
  {
    var j := n / 2;
    assert n == 2 * j + 1;
    assert n * n - 1 == 4 * (j * (j + 1));
    var t := j / 2;
    if j % 2 == 0 {
      assert j == 2 * t;
      q := t * (2 * t + 1);
    } else {
      assert j == 2 * t + 1;
      q := (2 * t + 1) * (t + 1);
    }
    assert j * (j + 1) == 2 * q;
  }

  /** One Newton step for the inverse of `n`: an inverse modulo `m` becomes
      one modulo `m * m`. */
  lemma NewtonStep(n: int, x: int, m: int, q: int) returns (q2: int)
    requires n * x - 1 == m * q
    ensures n * (x * (2 - n * x)) - 1 == (m * m) * q2
  {
    var e := n * x;
    assert n * (x * (2 - e)) == e * (2 - e);
    assert e * (2 - e) - 1 == -((e - 1) * (e - 1));
    assert (e - 1) * (e - 1) == (m * q) * (m * q);
    assert (m * q) * (m * q) == (m * m) * (q * q);
    q2 := -(q * q);
  }

  /** An odd `m` has an inverse modulo 256: two Newton steps from `m`, which
      is its own inverse modulo 8, give one modulo 4096. */
  lemma InverseMod256(m: int) returns (x: int, q: int)
    requires m % 2 == 1
    ensures m * x == 1 + 256 * q
  {
    var q0 := FactorOddSquare(m);
    var x1 := m * (2 - m * m);
    var q1 := NewtonStep(m, m, 8, q0);
    x := x1 * (2 - m * x1);
    var q2 := NewtonStep(m, x1, 64, q1);
    q := 16 * q2;
  }

  /** With `x` an inverse of `m` modulo 256, the remainder `k` of
      `(256 - c) * x` satisfies `c + k * m == 0` modulo 256. */
  lemma ClearingCount(c: int, m: int, x: int, q: int) returns (k: nat)
    requires m * x == 1 + 256 * q
    ensures (c + k * m) % 256 == 0
  {
    var a := (256 - c) * x;
    k := a % 256;
    var t := a / 256;
    assert k == a - 256 * t;
    assert k * m == a * m - 256 * (t * m);
    assert a * m == (256 - c) * (m * x);
    assert (256 - c) * (m * x) == (256 - c) + 256 * ((256 - c) * q);
    assert c + k * m == 256 * (1 + (256 - c) * q - t * m);
  }

  /** An odd amount reaches zero from every cell: `n` has an inverse modulo
      256, so some number of steps brings `c` to 0. */
  lemma OddAddClears(c: u8, n: u8) returns (k: nat)
    requires n as int % 2 == 1
    ensures AddRepeatedly(c, n, k) == 0
  {
    var x, q := InverseMod256(n as int);
    k := ClearingCount(c as int, n as int, x, q);
    AddRepeatedlyClosed(c, n, k);
  }

  /** An even amount never clears an odd cell: the cell stays odd. */
  lemma EvenAddNeverClears(c: u8, n: u8, k: nat)
    requires n as int % 2 == 0 && c as int % 2 == 1
    ensures AddRepeatedly(c, n, k) != 0
  {
    EvenAddKeepsOdd(c, n, k);
  }

  lemma {:induction false} EvenAddKeepsOdd(c: u8, n: u8, k: nat)
    requires n as int % 2 == 0 && c as int % 2 == 1
    ensures AddRepeatedly(c, n, k) as int % 2 == 1
  {
    if k > 0 {
      EvenAddKeepsOdd(c, n, k - 1);
      var x := AddRepeatedly(c, n, k - 1) as int + n as int;
      var q := x / 256;
      assert x == 256 * q + x % 256;
      assert AddRepeatedly(c, n, k) as int == x % 256;
    }
  }

  /** As written, `is_zero_operation` accepts `[Add(2)]`, yet that loop run
      on a cell holding 1 never ends, so rewriting it to `Zero` changes what
      the program does. */
  lemma ZeroOperationMisfires(k: nat)
    ensures IsZeroOperation(Loop([Add(2)]))
    ensures ZeroLoops([Loop([Add(2)])]) == [Zero]
    ensures AddRepeatedly(1, 2, k) != 0
  {
    EvenAddNeverClears(1, 2, k);
  }

  /** The rewrite the optimizer evidently intends: a single-`Add` loop whose
      amount is odd, such as `[-]` or `[+]`. */
  predicate IsClearingLoop(node: OptNode)
  {
    IsZeroOperation(node) && node.body[0].n as int % 2 == 1
  }

  /** The corrected test picks out exactly the single-`Add` loops that end
      with a zero cell from every starting value. */
  lemma ClearingLoopIff(node: OptNode)
    requires IsZeroOperation(node)
    ensures IsClearingLoop(node) <==> forall c: u8 :: Clears(c, node.body[0].n)
  {
    var n := node.body[0].n;
    if IsClearingLoop(node) {
      forall c: u8 ensures Clears(c, n) {
        var k := OddAddClears(c, n);
      }
    } else {
      EvenNeverClearsOne(n);
    }
  }

  lemma EvenNeverClearsOne(n: u8)
    requires n as int % 2 == 0
    ensures !Clears(1, n)
  {
    forall k: nat ensures AddRepeatedly(1, n, k) != 0 {
      EvenAddNeverClears(1, n, k);
    }
  }

  /** The pass with the corrected test: each top-level clearing loop
      replaced with `Zero`, every other node kept. */
  function ClearingLoops(nodes: seq<OptNode>): (r: seq<OptNode>)
    ensures |r| == |nodes|
    ensures forall i :: 0 <= i < |nodes| ==>
              (IsClearingLoop(nodes[i]) ==> r[i] == Zero) &&
              (!IsClearingLoop(nodes[i]) ==> r[i] == nodes[i])
    decreases nodes
  {
    if nodes == [] then []
    else [if IsClearingLoop(nodes[0]) then Zero else nodes[0]] + ClearingLoops(nodes[1..])
  }

  /** The corrected pass only rewrites loops that end with a zero cell
      whatever the cell holds on entry, and it rewrites all of those. */
  lemma ClearingLoopsSound(nodes: seq<OptNode>)
    ensures forall i :: 0 <= i < |nodes| && ClearingLoops(nodes)[i] != nodes[i] ==>
              IsZeroOperation(nodes[i]) && forall c: u8 :: Clears(c, nodes[i].body[0].n)
    ensures forall i :: 0 <= i < |nodes| && IsZeroOperation(nodes[i]) ==>
              (forall c: u8 :: Clears(c, nodes[i].body[0].n)) ==> ClearingLoops(nodes)[i] == Zero
  {
    forall i | 0 <= i < |nodes| && IsZeroOperation(nodes[i])
      ensures IsClearingLoop(nodes[i]) <==> forall c: u8 :: Clears(c, nodes[i].body[0].n)
    {
      ClearingLoopIff(nodes[i]);
    }
  }
}

/** The command tree and its parser and printer (`src/command_ast.rs`).

    The parser scans the source once, keeping a stack of sibling lists (one
    per open `[`).  Runs of `>`/`<` fold into one `Move`, runs of `+`/`-`
    into one `Add` with wrapping byte arithmetic; every other character that
    is not one of `><+-.,[]` is skipped.  The printer turns a tree back into
    canonical source text. */
module CommandAst {
  import opened Prelude
  import opened Brackets

  datatype Node =
    | Move(offset: int)
    | Add(n: u8)
    | Output
    | Input
    | Loop(body: seq<Node>)

  datatype ParserError = IncompleteLoop

  /** The parser's stack of in-progress sibling lists; the last one is the
      innermost open scope, the first one the top level. */
  type Stack = seq<seq<Node>>

  // ---------------------------------------------------------------------
  // The scan, one character at a time

  /** `last_mut()` of a sibling list. */
  function Last(scope: seq<Node>): (r: Option<Node>)
    ensures r.Some? <==> scope != []
    ensures r.Some? ==> r.value == scope[|scope| - 1]
  {
    if scope == [] then None else Some(scope[|scope| - 1])
  }

  /** Append `node` to the innermost scope. */
  function Push(stack: Stack, node: Node): Stack
    requires stack != []
  {
    stack[..|stack| - 1] + [stack[|stack| - 1] + [node]]
  }

  /** Overwrite the last node of the innermost scope with `node`. */
  function ReplaceLast(stack: Stack, node: Node): Stack
    requires stack != [] && stack[|stack| - 1] != []
  {
    var scope := stack[|stack| - 1];
    stack[..|stack| - 1] + [scope[..|scope| - 1] + [node]]
  }

  /** What one character of the source does to the stack.  The scope stack
      only grows on `[` and only shrinks on `]`; a `]` that closes the top
      level is the one way a non-empty stack makes the scan fail. */
  function Step(stack: Stack, c: char): (r: Result<Stack, ParserError>)
    ensures stack != [] ==> (r.Err? <==> c == ']' && |stack| == 1)
    ensures stack != [] && r.Ok? ==> |r.value| == |stack| + Delta(c)
  {
    if stack == [] then Err(IncompleteLoop)
    else
      var scope := stack[|stack| - 1];
      match (Last(scope), c)
      case (Some(Move(offset)), '>') => Ok(ReplaceLast(stack, Move(offset + 1)))
      case (Some(Move(offset)), '<') => Ok(ReplaceLast(stack, Move(offset - 1)))
      case (Some(Add(n)), '+') => Ok(ReplaceLast(stack, Add(WrappingAdd(n, 1))))
      case (Some(Add(n)), '-') => Ok(ReplaceLast(stack, Add(WrappingSub(n, 1))))
      case (_, '>') => Ok(Push(stack, Move(1)))
      case (_, '<') => Ok(Push(stack, Move(-1)))
      case (_, '+') => Ok(Push(stack, Add(1)))
      case (_, '-') => Ok(Push(stack, Add(WrappingSub(0, 1))))
      case (_, '.') => Ok(Push(stack, Output))
      case (_, ',') => Ok(Push(stack, Input))
      case (_, '[') => Ok(stack + [[]])
      case (_, ']') =>
        var contents := stack[|stack| - 1];
        var rest := stack[..|stack| - 1];
        if rest == [] then Err(IncompleteLoop) else Ok(Push(rest, Loop(contents)))
      case _ => Ok(stack)
  }

  /** The scan of `s` starting from `stack`. */
  function Run(stack: Stack, s: string): Result<Stack, ParserError>
    decreases |s|
  {
    if s == [] then Ok(stack)
    else
      match Step(stack, s[0])
      case Err(e) => Err(e)
      case Ok(next) => Run(next, s[1..])
  }

  /** The end-of-input check: exactly one (the top-level) list may be left. */
  function Finish(stack: Stack): Result<seq<Node>, ParserError>
  {
    if |stack| > 1 then Err(IncompleteLoop)
    else if stack == [] then Err(IncompleteLoop)
    else Ok(stack[0])
  }

  /** The tree `parse_source` returns for `source`. */
  function Parsed(source: string): Result<seq<Node>, ParserError>
  {
    match Run([[]], source)
    case Err(e) => Err(e)
    case Ok(stack) => Finish(stack)
  }

  /** `parse_source`: the single pass over the characters, mutating the
      innermost scope in place. */
  method ParseSource(source: string) returns (r: Result<seq<Node>, ParserError>)
    ensures r == Parsed(source)
  {
    var ast: Stack := [[]];
    for i := 0 to |source|
      invariant Run(ast, source[i..]) == Run([[]], source)
    {
      assert source[i..][1..] == source[i + 1..];
      if ast == [] {
        return Err(IncompleteLoop);
      }
      var next := ScanChar(ast, source[i]);
      if next.Err? {
        return Err(next.error);
      }
      ast := next.value;
    }
    if |ast| > 1 {
      return Err(IncompleteLoop);
    }
    if ast == [] {
      return Err(IncompleteLoop);
    }
    return Ok(ast[0]);
  }

  /** The body of `parse_source`'s loop for the character `c`: the match on
      the innermost scope's last node and `c`.  It is the same match as the
      function `Step`, arm for arm, written as statements on the stack. */
  method ScanChar(ast: Stack, c: char) returns (r: Result<Stack, ParserError>)
    requires ast != []
    ensures r == Step(ast, c)
  {
    var ast := ast;
    var scope := ast[|ast| - 1];
    match (Last(scope), c) {
    case (Some(Move(offset)), '>') =>
      ast := ast[..|ast| - 1] + [scope[..|scope| - 1] + [Move(offset + 1)]];
    case (Some(Move(offset)), '<') =>
      ast := ast[..|ast| - 1] + [scope[..|scope| - 1] + [Move(offset - 1)]];
    case (Some(Add(n)), '+') =>
      ast := ast[..|ast| - 1] + [scope[..|scope| - 1] + [Add(WrappingAdd(n, 1))]];
    case (Some(Add(n)), '-') =>
      ast := ast[..|ast| - 1] + [scope[..|scope| - 1] + [Add(WrappingSub(n, 1))]];
    case (_, '>') => ast := ast[..|ast| - 1] + [scope + [Move(1)]];
    case (_, '<') => ast := ast[..|ast| - 1] + [scope + [Move(-1)]];
    case (_, '+') => ast := ast[..|ast| - 1] + [scope + [Add(1)]];
    case (_, '-') => ast := ast[..|ast| - 1] + [scope + [Add(WrappingSub(0, 1))]];
    case (_, '.') => ast := ast[..|ast| - 1] + [scope + [Output]];
    case (_, ',') => ast := ast[..|ast| - 1] + [scope + [Input]];
    case (_, '[') => ast := ast + [[]];
    case (_, ']') =>
      var contents := ast[|ast| - 1];
      ast := ast[..|ast| - 1];
      if ast == [] {
        return Err(IncompleteLoop);
      }
      ast := ast[..|ast| - 1] + [ast[|ast| - 1] + [Loop(contents)]];
    case _ =>
    }
    return Ok(ast);
  }

  // ---------------------------------------------------------------------
  // The printer (`impl Display for CommandASTNode`)

  function Repeat(c: char, n: nat): (r: string)
    ensures |r| == n && forall i :: 0 <= i < n ==> r[i] == c
  {
    seq(n, _ => c)
  }

  /** The canonical text of one node; its brackets always balance out. */
  function Display(node: Node): (r: string)
    ensures Depth(r) == 0
    decreases node
  {
    match node
    case Move(offset) =>
      if offset > 0 then DepthRepeat('>', offset); Repeat('>', offset)
      else if offset < 0 then DepthRepeat('<', -offset); Repeat('<', -offset)
      else ""
    case Add(n) =>
      // for n > 128 the source prints `!n + 1`, i.e. 256 - n, minus signs
      if n <= 128 then DepthRepeat('+', n as int); Repeat('+', n as int)
      else DepthRepeat('-', (255 - n) as int + 1); Repeat('-', (255 - n) as int + 1)
    case Output => "."
    case Input => ","
    case Loop(contents) =>
      var inner := DisplayAll(contents);
      DepthConcat("[", inner);
      DepthConcat("[" + inner, "]");
      "[" + inner + "]"
  }

  /** The texts of a list of nodes, one after the other. */
  function DisplayAll(nodes: seq<Node>): (r: string)
    ensures Depth(r) == 0
    decreases nodes
  {
    if nodes == [] then ""
    else
      DepthConcat(Display(nodes[0]), DisplayAll(nodes[1..]));
      Display(nodes[0]) + DisplayAll(nodes[1..])
  }

  /** A run of a character other than a bracket has depth 0. */
  lemma {:induction false} DepthRepeat(c: char, k: nat)
    requires c != '[' && c != ']'
    ensures Depth(Repeat(c, k)) == 0
    decreases k
  {
    if k > 0 {
      assert Repeat(c, k)[1..] == Repeat(c, k - 1);
      DepthRepeat(c, k - 1);
    }
  }

  // ---------------------------------------------------------------------
  // Normal forms

  /** Two nodes the parser would have folded into one. */
  predicate Foldable(a: Node, b: Node)
  {
    (a.Move? && b.Move?) || (a.Add? && b.Add?)
  }

  /** No two neighbouring siblings are both moves or both adds. */
  predicate NoFoldableNeighbours(nodes: seq<Node>)
  {
    forall i :: 0 < i < |nodes| ==> !Foldable(nodes[i - 1], nodes[i])
  }

  /** `NoFoldableNeighbours` at every nesting level. */
  predicate Folded(nodes: seq<Node>)
    decreases nodes
  {
    NoFoldableNeighbours(nodes) && forall i :: 0 <= i < |nodes| ==> FoldedNode(nodes[i])
  }

  predicate FoldedNode(node: Node)
    decreases node
  {
    match node
    case Loop(body) => Folded(body)
    case _ => true
  }

  /** The trees that printing and parsing back reproduces: folded at every
      level and free of `Move(0)` and `Add(0)`, which print as nothing. */
  predicate Canonical(nodes: seq<Node>)
    decreases nodes
  {
    NoFoldableNeighbours(nodes) && forall i :: 0 <= i < |nodes| ==> CanonicalNode(nodes[i])
  }

  predicate CanonicalNode(node: Node)
    decreases node
  {
    match node
    case Move(offset) => offset != 0
    case Add(n) => n != 0
    case Loop(body) => Canonical(body)
    case _ => true
  }

  // ---------------------------------------------------------------------
  // Facts about the scan

  lemma PushOnto(rest: Stack, top: seq<Node>, node: Node)
    ensures Push(rest + [top], node) == rest + [top + [node]]
  {
    assert (rest + [top])[..|rest|] == rest;
  }

  lemma ReplaceLastOf(rest: Stack, init: seq<Node>, was: Node, node: Node)
    ensures ReplaceLast(rest + [init + [was]], node) == rest + [init + [node]]
  {
    assert (rest + [init + [was]])[..|rest|] == rest;
    assert (init + [was])[..|init|] == init;
  }

  lemma {:induction false} RunConcat(stack: Stack, a: string, b: string)
    ensures Run(stack, a + b) ==
            match Run(stack, a)
            case Err(e) => Err(e)
            case Ok(next) => Run(next, b)
    decreases |a|
  {
    if a == [] {
      assert a + b == b;
    } else {
      assert (a + b)[0] == a[0];
      assert (a + b)[1..] == a[1..] + b;
      match Step(stack, a[0])
      case Err(_) =>
      case Ok(next) => RunConcat(next, a[1..], b);
    }
  }

  lemma RunOne(stack: Stack, c: char)
    ensures Run(stack, [c]) == Step(stack, c)
  {
    assert [c][1..] == [];
  }

  /** Net count of `>` minus `<`. */
  function MoveNet(s: string): int
  {
    if s == [] then 0 else (if s[0] == '>' then 1 else if s[0] == '<' then -1 else 0) + MoveNet(s[1..])
  }

  /** Net count of `+` minus `-`. */
  function AddNet(s: string): int
  {
    if s == [] then 0 else (if s[0] == '+' then 1 else if s[0] == '-' then -1 else 0) + AddNet(s[1..])
  }

  predicate MoveChars(s: string)
  {
    forall i :: 0 <= i < |s| ==> s[i] == '>' || s[i] == '<'
  }

  predicate AddChars(s: string)
  {
    forall i :: 0 <= i < |s| ==> s[i] == '+' || s[i] == '-'
  }

  /** A run of `>`/`<` after a `Move(k)` folds into it: the net count is added. */
  lemma {:induction false} RunMoves(rest: Stack, init: seq<Node>, k: int, s: string)
    requires MoveChars(s)
    ensures Run(rest + [init + [Move(k)]], s) == Ok(rest + [init + [Move(k + MoveNet(s))]])
    decreases |s|
  {
    if s != [] {
      var d := if s[0] == '>' then 1 else -1;
      ReplaceLastOf(rest, init, Move(k), Move(k + d));
      assert Step(rest + [init + [Move(k)]], s[0]) == Ok(rest + [init + [Move(k + d)]]);
      assert MoveChars(s[1..]) by {
        forall i | 0 <= i < |s[1..]| ensures s[1..][i] == '>' || s[1..][i] == '<' {
          assert s[1..][i] == s[i + 1];
        }
      }
      RunMoves(rest, init, k + d, s[1..]);
    }
  }

  /** A run of `+`/`-` after an `Add(n)` folds into it: the net count is
      added modulo 256. */
  lemma {:induction false} RunAdds(rest: Stack, init: seq<Node>, n: u8, s: string)
    requires AddChars(s)
    ensures Run(rest + [init + [Add(n)]], s) == Ok(rest + [init + [Add(((n as int + AddNet(s)) % 256) as u8)]])
    decreases |s|
  {
    if s == [] {
      assert ((n as int + AddNet(s)) % 256) as u8 == n;
    } else {
      var n' := if s[0] == '+' then WrappingAdd(n, 1) else WrappingSub(n, 1);
      AddStep(rest, init, n, s[0], n');
      AddCharsTail(s);
      RunAdds(rest, init, n', s[1..]);
      AddNetStep(n, n', s);
    }
  }

  lemma AddStep(rest: Stack, init: seq<Node>, n: u8, c: char, n': u8)
    requires c == '+' || c == '-'
    requires n' == if c == '+' then WrappingAdd(n, 1) else WrappingSub(n, 1)
    ensures Step(rest + [init + [Add(n)]], c) == Ok(rest + [init + [Add(n')]])
  {
    ReplaceLastOf(rest, init, Add(n), Add(n'));
  }

  lemma AddNetStep(n: u8, n': u8, s: string)
    requires s != [] && (s[0] == '+' || s[0] == '-')
    requires n' == if s[0] == '+' then WrappingAdd(n, 1) else WrappingSub(n, 1)
    ensures (n' as int + AddNet(s[1..])) % 256 == (n as int + AddNet(s)) % 256
  {
    var d := if s[0] == '+' then 1 else -1;
    assert n' as int == (n as int + d) % 256;
    assert AddNet(s) == d + AddNet(s[1..]);
    ModAdd(n as int + d, AddNet(s[1..]));
  }

  lemma AddCharsTail(s: string)
    requires s != [] && AddChars(s)
    ensures AddChars(s[1..])
  {
    forall i | 0 <= i < |s[1..]| ensures s[1..][i] == '+' || s[1..][i] == '-' {
      assert s[1..][i] == s[i + 1];
    }
  }

  /** A source made only of `>`/`<` parses to one `Move` holding the net
      count. */
  lemma MoveRunFolds(s: string)
    requires s != [] && MoveChars(s)
    ensures Parsed(s) == Ok([Move(MoveNet(s))])
  {
    var none: Stack, nil: seq<Node> := [], [];
    var d := if s[0] == '>' then 1 else -1;
    assert none + [nil] == [[]];
    PushOnto(none, nil, Move(d));
    assert nil + [Move(d)] == [Move(d)];
    assert none + [nil + [Move(d)]] == [[Move(d)]];
    assert MoveChars(s[1..]) by {
      forall i | 0 <= i < |s[1..]| ensures s[1..][i] == '>' || s[1..][i] == '<' {
        assert s[1..][i] == s[i + 1];
      }
    }
    RunMoves(none, nil, d, s[1..]);
    assert nil + [Move(MoveNet(s))] == [Move(MoveNet(s))];
    assert none + [nil + [Move(d + MoveNet(s[1..]))]] == [[Move(MoveNet(s))]];
  }

  /** A source made only of `+`/`-` parses to one `Add` holding the net
      count modulo 256. */
  lemma AddRunFolds(s: string)
    requires s != [] && AddChars(s)
    ensures Parsed(s) == Ok([Add((AddNet(s) % 256) as u8)])
  {
    var n: u8 := if s[0] == '+' then 1 else 255;
    var m := ((n as int + AddNet(s[1..])) % 256) as u8;
    AddRunScan(s, n, m);
    assert n == if s[0] == '+' then WrappingAdd(0, 1) else WrappingSub(0, 1);
    AddNetStep(0, n, s);
    assert m == (AddNet(s) % 256) as u8;
  }

  /** Scanning a run of `+`/`-` from the empty top level leaves one `Add`. */
  lemma AddRunScan(s: string, n: u8, m: u8)
    requires s != [] && AddChars(s)
    requires n == if s[0] == '+' then 1 else 255
    requires m as int == (n as int + AddNet(s[1..])) % 256
    ensures Run([[]], s) == Ok([[Add(m)]])
  {
    var none: Stack, nil: seq<Node> := [], [];
    var tail := s[1..];
    assert s == [s[0]] + tail;
    OpenAdd(s[0], n);
    RunFirst([[]], s[0], tail, [[Add(n)]]);
    AddCharsTail(s);
    assert none + [nil + [Add(n)]] == [[Add(n)]];
    RunAdds(none, nil, n, tail);
    assert nil + [Add(m)] == [Add(m)];
    assert none + [nil + [Add(m)]] == [[Add(m)]];
  }

  /** The first `+` or `-` of the text starts an `Add` node. */
  lemma OpenAdd(c: char, n: u8)
    requires c == '+' || c == '-'
    requires n == if c == '+' then 1 else 255
    ensures Step([[]], c) == Ok([[Add(n)]])
  {
    var none: Stack, nil: seq<Node> := [], [];
    assert none + [nil] == [[]];
    PushOnto(none, nil, Add(n));
    assert nil + [Add(n)] == [Add(n)];
    assert none + [nil + [Add(n)]] == [[Add(n)]];
  }

  // ---------------------------------------------------------------------
  // Printing then parsing gives the tree back

  lemma CanonicalTail(nodes: seq<Node>)
    requires nodes != [] && Canonical(nodes)
    ensures CanonicalNode(nodes[0]) && Canonical(nodes[1..])
    ensures |nodes| > 1 ==> !Foldable(nodes[0], nodes[1])
  {
    forall i | 0 < i < |nodes[1..]| ensures !Foldable(nodes[1..][i - 1], nodes[1..][i]) {
      assert nodes[1..][i - 1] == nodes[i] && nodes[1..][i] == nodes[i + 1];
    }
    forall i | 0 <= i < |nodes[1..]| ensures CanonicalNode(nodes[1..][i]) {
      assert nodes[1..][i] == nodes[i + 1];
    }
  }

  lemma MoveNetRepeat(c: char, k: nat)
    requires c == '>' || c == '<'
    ensures MoveChars(Repeat(c, k))
    ensures MoveNet(Repeat(c, k)) == if c == '>' then k as int else -(k as int)
  {
    if k > 0 {
      assert Repeat(c, k)[1..] == Repeat(c, k - 1);
      MoveNetRepeat(c, k - 1);
    }
  }

  lemma AddNetRepeat(c: char, k: nat)
    requires c == '+' || c == '-'
    ensures AddChars(Repeat(c, k))
    ensures AddNet(Repeat(c, k)) == if c == '+' then k as int else -(k as int)
  {
    if k > 0 {
      assert Repeat(c, k)[1..] == Repeat(c, k - 1);
      AddNetRepeat(c, k - 1);
    }
  }

  /** The text of a `Move(offset)`, offset nonzero, scanned after a node that
      is not a move, appends exactly that node. */
  lemma RunDisplayMove(rest: Stack, top: seq<Node>, offset: int)
    requires offset != 0
    requires top != [] ==> !top[|top| - 1].Move?
    ensures Run(rest + [top], Display(Move(offset))) == Ok(rest + [top + [Move(offset)]])
  {
    var c := if offset > 0 then '>' else '<';
    var d := if offset > 0 then 1 else -1;
    var k: nat := if offset > 0 then offset else -offset;
    var text := Repeat(c, k);
    assert Display(Move(offset)) == text;
    assert text == [c] + Repeat(c, k - 1);
    PushOnto(rest, top, Move(d));
    assert Step(rest + [top], c) == Ok(rest + [top + [Move(d)]]);
    RunOne(rest + [top], c);
    RunConcat(rest + [top], [c], Repeat(c, k - 1));
    MoveNetRepeat(c, k - 1);
    RunMoves(rest, top, d, Repeat(c, k - 1));
  }

  /** Likewise for an `Add(n)`, n nonzero, after a node that is not an add. */
  lemma RunDisplayAdd(rest: Stack, top: seq<Node>, n: u8)
    requires n != 0
    requires top != [] ==> !top[|top| - 1].Add?
    ensures Run(rest + [top], Display(Add(n))) == Ok(rest + [top + [Add(n)]])
  {
    var c := if n <= 128 then '+' else '-';
    var first: u8 := if n <= 128 then 1 else 255;
    var k: nat := if n <= 128 then n as int else 256 - n as int;
    var tail := Repeat(c, k - 1);
    DisplayAddSplit(n, c, first, k);
    StartAdd(rest, top, c, first);
    RunFirst(rest + [top], c, tail, rest + [top + [Add(first)]]);
    RunAdds(rest, top, first, tail);
  }

  /** The text of `Add(n)` is one `+` or `-` that starts the node, then the
      rest of the run, whose net count completes `n`. */
  lemma DisplayAddSplit(n: u8, c: char, first: u8, k: nat)
    requires n != 0
    requires c == (if n <= 128 then '+' else '-')
    requires first == (if n <= 128 then 1 else 255)
    requires k == (if n <= 128 then n as int else 256 - n as int)
    ensures Display(Add(n)) == [c] + Repeat(c, k - 1)
    ensures AddChars(Repeat(c, k - 1))
    ensures ((first as int + AddNet(Repeat(c, k - 1))) % 256) as u8 == n
  {
    assert Repeat(c, k) == [c] + Repeat(c, k - 1);
    AddNetRepeat(c, k - 1);
  }

  /** A `+` or `-` after a node that is not an add pushes a new `Add`. */
  lemma StartAdd(rest: Stack, top: seq<Node>, c: char, first: u8)
    requires top != [] ==> !top[|top| - 1].Add?
    requires c == '+' || c == '-'
    requires first == (if c == '+' then 1 else 255)
    ensures Step(rest + [top], c) == Ok(rest + [top + [Add(first)]])
  {
    PushOnto(rest, top, Add(first));
  }

  /** Scanning a text that starts with `c` is scanning the rest from where
      `c` leads. */
  lemma RunFirst(stack: Stack, c: char, tail: string, next: Stack)
    requires Step(stack, c) == Ok(next)
    ensures Run(stack, [c] + tail) == Run(next, tail)
  {
    var text := [c] + tail;
    assert text[0] == c && text[1..] == tail;
  }

  /** The text of a canonical node, scanned after a node it cannot fold
      into, appends exactly that node to the innermost scope. */
  lemma {:induction false} RunDisplay(rest: Stack, top: seq<Node>, node: Node)
    requires CanonicalNode(node)
    requires top != [] ==> !Foldable(top[|top| - 1], node)
    ensures Run(rest + [top], Display(node)) == Ok(rest + [top + [node]])
    decreases node, 1
  {
    match node
    case Move(offset) => RunDisplayMove(rest, top, offset);
    case Add(n) => RunDisplayAdd(rest, top, n);
    case Output =>
      PushOnto(rest, top, Output);
      RunOne(rest + [top], '.');
    case Input =>
      PushOnto(rest, top, Input);
      RunOne(rest + [top], ',');
    case Loop(body) => RunDisplayLoop(rest, top, body);
  }

  /** The text of `Loop(body)`: `[` opens a scope, the body's text fills it,
      and `]` closes it into one `Loop` node. */
  lemma {:induction false} RunDisplayLoop(rest: Stack, top: seq<Node>, body: seq<Node>)
    requires Canonical(body)
    ensures Run(rest + [top], Display(Loop(body))) == Ok(rest + [top + [Loop(body)]])
    decreases Loop(body), 0
  {
    var outer := rest + [top];
    var nil: seq<Node> := [];
    var text := DisplayAll(body);
    var tail := text + [']'];
    assert Display(Loop(body)) == ['['] + tail;
    RunOpen(outer);
    RunConcat(outer, ['['], tail);
    RunDisplayAll(outer, nil, body);
    assert nil + body == body;
    RunConcat(outer + [nil], text, [']']);
    RunClose(rest, top, body);
  }

  lemma RunOpen(stack: Stack)
    requires stack != []
    ensures Run(stack, ['[']) == Ok(stack + [[]])
  {
    RunOne(stack, '[');
  }

  lemma RunClose(rest: Stack, top: seq<Node>, body: seq<Node>)
    ensures Run((rest + [top]) + [body], [']']) == Ok(rest + [top + [Loop(body)]])
  {
    RunOne((rest + [top]) + [body], ']');
    assert ((rest + [top]) + [body])[..|rest| + 1] == rest + [top];
    PushOnto(rest, top, Loop(body));
  }

  /** The text of a canonical list, scanned after a node the list's first
      node cannot fold into, appends exactly that list. */
  lemma {:induction false} RunDisplayAll(rest: Stack, top: seq<Node>, nodes: seq<Node>)
    requires Canonical(nodes)
    requires top != [] && nodes != [] ==> !Foldable(top[|top| - 1], nodes[0])
    ensures Run(rest + [top], DisplayAll(nodes)) == Ok(rest + [top + nodes])
    decreases nodes, 2
  {
    if nodes == [] {
      assert top + nodes == top;
    } else {
      CanonicalTail(nodes);
      RunDisplay(rest, top, nodes[0]);
      RunConcat(rest + [top], Display(nodes[0]), DisplayAll(nodes[1..]));
      RunDisplayAll(rest, top + [nodes[0]], nodes[1..]);
      assert top + [nodes[0]] + nodes[1..] == top + nodes;
    }
  }

  lemma {:induction false} DisplayAllConcat(a: seq<Node>, b: seq<Node>)
    ensures DisplayAll(a + b) == DisplayAll(a) + DisplayAll(b)
    decreases |a|
  {
    if a == [] {
      assert a + b == b;
    } else {
      assert (a + b)[0] == a[0] && (a + b)[1..] == a[1..] + b;
      DisplayAllConcat(a[1..], b);
    }
  }

  /** Round trip: parsing the printed text of a canonical tree returns that
      tree. */
  lemma ParseDisplayAll(nodes: seq<Node>)
    requires Canonical(nodes)
    ensures Parsed(DisplayAll(nodes)) == Ok(nodes)
  {
    var none: Stack, nil: seq<Node> := [], [];
    assert none + [nil] == [[]];
    RunDisplayAll(none, nil, nodes);
    assert nil + nodes == nodes;
    assert none + [nil + nodes] == [nodes];
  }

  // ---------------------------------------------------------------------
  // Every parse result is folded

  predicate StackFolded(stack: Stack)
  {
    forall k :: 0 <= k < |stack| ==> Folded(stack[k])
  }

  /** Appending `node` to a folded list keeps it folded, provided the node
      cannot fold into the last one. */
  lemma FoldedSnoc(nodes: seq<Node>, node: Node)
    requires Folded(nodes) && FoldedNode(node)
    requires nodes != [] ==> !Foldable(nodes[|nodes| - 1], node)
    ensures Folded(nodes + [node])
  {
    var r := nodes + [node];
    forall i | 0 < i < |r| ensures !Foldable(r[i - 1], r[i]) {
      if i < |nodes| { assert r[i - 1] == nodes[i - 1] && r[i] == nodes[i]; }
    }
    forall i | 0 <= i < |r| ensures FoldedNode(r[i]) {
      if i < |nodes| { assert r[i] == nodes[i]; }
    }
  }

  /** Overwriting the last node of a folded list with a node of the same
      kind keeps it folded. */
  lemma FoldedReplaceLast(nodes: seq<Node>, node: Node)
    requires Folded(nodes) && nodes != [] && !node.Loop?
    requires nodes[|nodes| - 1].Move? == node.Move? && nodes[|nodes| - 1].Add? == node.Add?
    ensures Folded(nodes[..|nodes| - 1] + [node])
  {
    var init := nodes[..|nodes| - 1];
    assert Folded(init) by {
      forall i | 0 < i < |init| ensures !Foldable(init[i - 1], init[i]) {
        assert init[i - 1] == nodes[i - 1] && init[i] == nodes[i];
      }
      forall i | 0 <= i < |init| ensures FoldedNode(init[i]) {
        assert init[i] == nodes[i];
      }
    }
    if init != [] {
      assert init[|init| - 1] == nodes[|nodes| - 2];
      assert !Foldable(nodes[|nodes| - 2], nodes[|nodes| - 1]);
    }
    FoldedSnoc(init, node);
  }

  lemma StackPush(stack: Stack, node: Node)
    requires stack != [] && StackFolded(stack) && FoldedNode(node)
    requires stack[|stack| - 1] != [] ==> !Foldable(stack[|stack| - 1][|stack[|stack| - 1]| - 1], node)
    ensures StackFolded(Push(stack, node))
  {
    FoldedSnoc(stack[|stack| - 1], node);
    var r := Push(stack, node);
    forall k | 0 <= k < |r| ensures Folded(r[k]) {
      if k < |stack| - 1 { assert r[k] == stack[k]; }
    }
  }

  lemma StackReplaceLast(stack: Stack, node: Node)
    requires stack != [] && stack[|stack| - 1] != [] && StackFolded(stack) && !node.Loop?
    requires var last := stack[|stack| - 1][|stack[|stack| - 1]| - 1];
             last.Move? == node.Move? && last.Add? == node.Add?
    ensures StackFolded(ReplaceLast(stack, node))
  {
    FoldedReplaceLast(stack[|stack| - 1], node);
    var r := ReplaceLast(stack, node);
    forall k | 0 <= k < |r| ensures Folded(r[k]) {
      if k < |stack| - 1 { assert r[k] == stack[k]; }
    }
  }

  /** One character keeps every scope on the stack folded: a move or add
      only folds into a node of its own kind, and otherwise is pushed after
      a node of another kind. */
  lemma StepFolded(stack: Stack, c: char)
    requires StackFolded(stack)
    ensures Step(stack, c).Ok? ==> StackFolded(Step(stack, c).value)
  {
    if stack != [] {
      var scope := stack[|stack| - 1];
      match (Last(scope), c)
      case (Some(Move(offset)), '>') => StackReplaceLast(stack, Move(offset + 1));
      case (Some(Move(offset)), '<') => StackReplaceLast(stack, Move(offset - 1));
      case (Some(Add(n)), '+') => StackReplaceLast(stack, Add(WrappingAdd(n, 1)));
      case (Some(Add(n)), '-') => StackReplaceLast(stack, Add(WrappingSub(n, 1)));
      case (_, '>') => StackPush(stack, Move(1));
      case (_, '<') => StackPush(stack, Move(-1));
      case (_, '+') => StackPush(stack, Add(1));
      case (_, '-') => StackPush(stack, Add(WrappingSub(0, 1)));
      case (_, '.') => StackPush(stack, Output);
      case (_, ',') => StackPush(stack, Input);
      case (_, '[') =>
        var nil: seq<Node> := [];
        var r := stack + [nil];
        forall k | 0 <= k < |r| ensures Folded(r[k]) {
          if k < |stack| { assert r[k] == stack[k]; }
        }
      case (_, ']') =>
        var rest := stack[..|stack| - 1];
        if rest != [] {
          assert StackFolded(rest) by {
            forall k | 0 <= k < |rest| ensures Folded(rest[k]) { assert rest[k] == stack[k]; }
          }
          StackPush(rest, Loop(scope));
        }
      case _ =>
    }
  }

  lemma {:induction false} RunFolded(stack: Stack, s: string)
    requires StackFolded(stack)
    ensures Run(stack, s).Ok? ==> StackFolded(Run(stack, s).value)
    decreases |s|
  {
    if s != [] {
      StepFolded(stack, s[0]);
      match Step(stack, s[0])
      case Err(_) =>
      case Ok(next) => RunFolded(next, s[1..]);
    }
  }

  /** No successful parse has two neighbouring moves or two neighbouring
      adds at any nesting level. */
  lemma ParsedIsFolded(source: string)
    ensures Parsed(source).Ok? ==> Folded(Parsed(source).value)
  {
    var nil: seq<Node> := [];
    assert StackFolded([nil]);
    RunFolded([nil], source);
  }

  // ---------------------------------------------------------------------
  // Bracket errors

  /** Every `]` closes a `[` entered before it, and none is left open. */
  predicate Balanced(s: string)
  {
    Depth(s) == 0 && forall k :: 0 <= k <= |s| ==> Depth(s[..k]) >= 0
  }

  /** Scanning from a stack of `|stack|` scopes succeeds exactly when no
      prefix closes more scopes than are open, and it then leaves
      `|stack| + Depth(s)` scopes. */
  lemma {:induction false} RunSucceedsIff(stack: Stack, s: string)
    requires stack != []
    ensures Run(stack, s).Ok? <==> forall k :: 0 <= k <= |s| ==> |stack| - 1 + Depth(s[..k]) >= 0
    ensures Run(stack, s).Ok? ==> |Run(stack, s).value| == |stack| + Depth(s)
    decreases |s|
  {
    if s == [] {
      assert s[..0] == [];
    } else {
      var c := s[0];
      assert s[..1] == [c];
      assert Depth([c]) == Delta(c);
      forall k | 1 <= k <= |s| ensures Depth(s[..k]) == Delta(c) + Depth(s[1..][..k - 1]) {
        assert s[..k][1..] == s[1..][..k - 1];
      }
      match Step(stack, c)
      case Err(_) =>
      case Ok(next) =>
        RunSucceedsIff(next, s[1..]);
        if Run(next, s[1..]).Ok? {
          forall k | 0 <= k <= |s| ensures |stack| - 1 + Depth(s[..k]) >= 0 {
            if k == 0 { assert s[..0] == []; }
          }
        } else {
          var k' :| 0 <= k' <= |s[1..]| && |next| - 1 + Depth(s[1..][..k']) < 0;
          assert |stack| - 1 + Depth(s[..k' + 1]) < 0;
        }
    }
  }

  /** Parsing fails with `IncompleteLoop` exactly when the brackets are
      unbalanced: a `]` without an open `[`, or a `[` never closed. */
  lemma ParsedOkIffBalanced(source: string)
    ensures Parsed(source).Ok? <==> Balanced(source)
    ensures Parsed(source).Err? ==> Parsed(source).error == IncompleteLoop
  {
    var nil: seq<Node> := [];
    RunSucceedsIff([nil], source);
    assert source[..|source|] == source;
  }

  // ---------------------------------------------------------------------
  // Characters outside the instruction set

  predicate IsCommand(c: char)
  {
    c in "><+-.,[]"
  }

  /** The command characters of `s`, in order. */
  function Commands(s: string): (r: string)
    ensures forall i :: 0 <= i < |r| ==> IsCommand(r[i])
  {
    if s == [] then [] else (if IsCommand(s[0]) then [s[0]] else []) + Commands(s[1..])
  }

  lemma {:induction false} RunIgnoresComments(stack: Stack, s: string)
    requires stack != []
    ensures Run(stack, s) == Run(stack, Commands(s))
    decreases |s|
  {
    if s != [] {
      if IsCommand(s[0]) {
        var t := [s[0]] + Commands(s[1..]);
        assert t[0] == s[0] && t[1..] == Commands(s[1..]);
        match Step(stack, s[0])
        case Err(_) =>
        case Ok(next) => RunIgnoresComments(next, s[1..]);
      } else {
        assert Step(stack, s[0]) == Ok(stack);
        assert Commands(s) == [] + Commands(s[1..]) == Commands(s[1..]);
        RunIgnoresComments(stack, s[1..]);
      }
    }
  }

  /** Inserting or removing non-command characters does not change the
      parse; in particular text without command characters parses to the
      empty tree. */
  lemma ParsedIgnoresComments(source: string)
    ensures Parsed(source) == Parsed(Commands(source))
    ensures Commands(source) == [] ==> Parsed(source) == Ok([])
  {
    var nil: seq<Node> := [];
    RunIgnoresComments([nil], source);
  }

  // ---------------------------------------------------------------------
  // Loops mirror the brackets

  /** The `[` and `]` of `s`, in order. */
  function BracketsOf(s: string): (r: string)
    ensures forall i :: 0 <= i < |r| ==> r[i] == '[' || r[i] == ']'
  {
    if s == [] then [] else (if s[0] == '[' || s[0] == ']' then [s[0]] else []) + BracketsOf(s[1..])
  }

  /** The bracket skeleton of a node: a loop is its body's skeleton between
      `[` and `]`; every other node has none. */
  function NodeBrackets(node: Node): string
    decreases node
  {
    match node
    case Loop(body) => "[" + ListBrackets(body) + "]"
    case _ => ""
  }

  function ListBrackets(nodes: seq<Node>): string
    decreases nodes
  {
    if nodes == [] then "" else NodeBrackets(nodes[0]) + ListBrackets(nodes[1..])
  }

  /** The skeleton of the whole parser stack: the scopes from the top level
      inwards, each inner one opened by the `[` not yet closed. */
  function StackBrackets(stack: Stack): string
    requires stack != []
    decreases |stack|
  {
    if |stack| == 1 then ListBrackets(stack[0])
    else StackBrackets(stack[..|stack| - 1]) + "[" + ListBrackets(stack[|stack| - 1])
  }

  lemma {:induction false} BracketsOfConcat(a: string, b: string)
    ensures BracketsOf(a + b) == BracketsOf(a) + BracketsOf(b)
    decreases |a|
  {
    if a == [] {
      assert a + b == b;
    } else {
      assert (a + b)[0] == a[0] && (a + b)[1..] == a[1..] + b;
      BracketsOfConcat(a[1..], b);
    }
  }

  lemma {:induction false} BracketsOfRepeat(c: char, k: nat)
    requires c != '[' && c != ']'
    ensures BracketsOf(Repeat(c, k)) == ""
    decreases k
  {
    if k > 0 {
      assert Repeat(c, k)[1..] == Repeat(c, k - 1);
      BracketsOfRepeat(c, k - 1);
    }
  }

  lemma {:induction false} ListBracketsSnoc(nodes: seq<Node>, node: Node)
    ensures ListBrackets(nodes + [node]) == ListBrackets(nodes) + NodeBrackets(node)
    decreases |nodes|
  {
    if nodes == [] {
      assert nodes + [node] == [node];
      assert [node][1..] == [];
    } else {
      assert (nodes + [node])[0] == nodes[0] && (nodes + [node])[1..] == nodes[1..] + [node];
      ListBracketsSnoc(nodes[1..], node);
    }
  }

  /** The printed text of a node has exactly the node's bracket skeleton. */
  lemma {:induction false} DisplayBrackets(node: Node)
    ensures BracketsOf(Display(node)) == NodeBrackets(node)
    decreases node, 1
  {
    match node
    case Move(offset) =>
      if offset > 0 {
        BracketsOfRepeat('>', offset);
      } else if offset < 0 {
        BracketsOfRepeat('<', -offset);
      }
    case Add(n) =>
      if n <= 128 {
        BracketsOfRepeat('+', n as int);
      } else {
        BracketsOfRepeat('-', (255 - n) as int + 1);
      }
    case Output =>
    case Input =>
    case Loop(body) =>
      DisplayAllBrackets(body);
      BracketsOfConcat("[", DisplayAll(body));
      BracketsOfConcat("[" + DisplayAll(body), "]");
  }

  lemma {:induction false} DisplayAllBrackets(nodes: seq<Node>)
    ensures BracketsOf(DisplayAll(nodes)) == ListBrackets(nodes)
    decreases nodes, 2
  {
    if nodes != [] {
      DisplayBrackets(nodes[0]);
      DisplayAllBrackets(nodes[1..]);
      BracketsOfConcat(Display(nodes[0]), DisplayAll(nodes[1..]));
    }
  }

  /** Growing the innermost scope's skeleton by `t` grows the stack's by `t`. */
  lemma StackBracketsLast(rest: Stack, a: seq<Node>, b: seq<Node>, t: string)
    requires ListBrackets(b) == ListBrackets(a) + t
    ensures StackBrackets(rest + [b]) == StackBrackets(rest + [a]) + t
  {
    assert (rest + [a])[..|rest|] == rest && (rest + [b])[..|rest|] == rest;
  }

  /** One character extends the stack's skeleton by that character if it is
      a bracket, and by nothing otherwise. */
  lemma StepBrackets(stack: Stack, c: char)
    requires stack != [] && Step(stack, c).Ok?
    ensures Step(stack, c).value != []
    ensures StackBrackets(Step(stack, c).value) == StackBrackets(stack) + BracketsOf([c])
  {
    BracketsOfOne(c);
    if c == '[' {
      BracketsOpen(stack);
    } else if c == ']' {
      BracketsClose(stack);
    } else {
      StepKeepsBrackets(stack, c);
    }
  }

  /** A character other than a bracket folds into or pushes a node that is
      not a loop, or is skipped. */
  lemma StepKeepsBrackets(stack: Stack, c: char)
    requires stack != [] && c != '[' && c != ']'
    ensures Step(stack, c).Ok?
    ensures StackBrackets(Step(stack, c).value) == StackBrackets(stack)
  {
    var scope := stack[|stack| - 1];
    match (Last(scope), c)
    case (Some(Move(offset)), '>') => BracketsReplaceLast(stack, Move(offset + 1));
    case (Some(Move(offset)), '<') => BracketsReplaceLast(stack, Move(offset - 1));
    case (Some(Add(n)), '+') => BracketsReplaceLast(stack, Add(WrappingAdd(n, 1)));
    case (Some(Add(n)), '-') => BracketsReplaceLast(stack, Add(WrappingSub(n, 1)));
    case (_, '>') => BracketsPush(stack, Move(1));
    case (_, '<') => BracketsPush(stack, Move(-1));
    case (_, '+') => BracketsPush(stack, Add(1));
    case (_, '-') => BracketsPush(stack, Add(WrappingSub(0, 1)));
    case (_, '.') => BracketsPush(stack, Output);
    case (_, ',') => BracketsPush(stack, Input);
    case _ =>
  }

  lemma BracketsOfOne(c: char)
    ensures BracketsOf([c]) == if c == '[' || c == ']' then [c] else []
  {
    assert [c][1..] == [];
  }

  lemma BracketsOpen(stack: Stack)
    requires stack != []
    ensures StackBrackets(stack + [[]]) == StackBrackets(stack) + "["
  {
    var nil: seq<Node> := [];
    assert (stack + [nil])[..|stack|] == stack;
  }

  lemma BracketsPush(stack: Stack, node: Node)
    requires stack != [] && !node.Loop?
    ensures StackBrackets(Push(stack, node)) == StackBrackets(stack)
  {
    var rest := stack[..|stack| - 1];
    var scope := stack[|stack| - 1];
    assert stack == rest + [scope];
    ListBracketsSnoc(scope, node);
    StackBracketsLast(rest, scope, scope + [node], "");
  }

  lemma BracketsReplaceLast(stack: Stack, node: Node)
    requires stack != [] && stack[|stack| - 1] != [] && !node.Loop?
    requires !stack[|stack| - 1][|stack[|stack| - 1]| - 1].Loop?
    ensures StackBrackets(ReplaceLast(stack, node)) == StackBrackets(stack)
  {
    var rest := stack[..|stack| - 1];
    var scope := stack[|stack| - 1];
    var init := scope[..|scope| - 1];
    assert scope == init + [scope[|scope| - 1]];
    assert stack == rest + [init + [scope[|scope| - 1]]];
    ListBracketsSnoc(init, scope[|scope| - 1]);
    ListBracketsSnoc(init, node);
    StackBracketsLast(rest, init + [scope[|scope| - 1]], init + [node], "");
  }

  /** `]` turns the innermost scope into a loop of the scope around it; the
      `[` that opened it and this `]` now surround the loop's body. */
  lemma BracketsClose(stack: Stack)
    requires |stack| > 1
    ensures StackBrackets(Push(stack[..|stack| - 1], Loop(stack[|stack| - 1]))) == StackBrackets(stack) + "]"
  {
    var rest := stack[..|stack| - 1];
    var contents := stack[|stack| - 1];
    var outer := rest[..|rest| - 1];
    var top := rest[|rest| - 1];
    assert rest == outer + [top];
    ListBracketsSnoc(top, Loop(contents));
    StackBracketsLast(outer, top, top + [Loop(contents)], "[" + ListBrackets(contents) + "]");
  }

  lemma {:induction false} RunBrackets(stack: Stack, s: string)
    requires stack != [] && Run(stack, s).Ok?
    ensures Run(stack, s).value != []
    ensures StackBrackets(Run(stack, s).value) == StackBrackets(stack) + BracketsOf(s)
    decreases |s|
  {
    if s != [] {
      RunTail(stack, s);
      var next := Step(stack, s[0]).value;
      StepBrackets(stack, s[0]);
      RunBrackets(next, s[1..]);
      BracketsOfCons(s);
    }
  }

  /** A successful scan of a non-empty text is its first step followed by
      the scan of the rest. */
  lemma RunTail(stack: Stack, s: string)
    requires s != [] && Run(stack, s).Ok?
    ensures Step(stack, s[0]).Ok? && Run(stack, s) == Run(Step(stack, s[0]).value, s[1..])
  {
  }

  lemma BracketsOfCons(s: string)
    requires s != []
    ensures BracketsOf(s) == BracketsOf([s[0]]) + BracketsOf(s[1..])
  {
    BracketsOfOne(s[0]);
  }

  /** Every successful parse mirrors the brackets of its source: its loops,
      read as `[` body `]`, spell the source's brackets in order, and so do
      the brackets of its printed text.  Each `]` thus closes exactly the
      nodes parsed since its `[`. */
  lemma ParsedMirrorsBrackets(source: string)
    requires Parsed(source).Ok?
    ensures ListBrackets(Parsed(source).value) == BracketsOf(source)
    ensures BracketsOf(DisplayAll(Parsed(source).value)) == BracketsOf(source)
  {
    var nil: seq<Node> := [];
    RunBrackets([nil], source);
    DisplayAllBrackets(Parsed(source).value);
  }
}

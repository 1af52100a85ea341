/** The unit tests of `src/command_ast.rs`, as lemmas about `Parsed`. */
module CommandAstExamples {
  import opened Prelude
  import opened CommandAst

  /** Text without command characters parses to the empty tree. */
  lemma ParsesCommentToEmpty()
    ensures Parsed("test") == Ok([])
  {
    ParsedIgnoresComments("test");
    assert Commands("test") == [];
  }

  /** Runs fold to their net count; `-` wraps round to 255. */
  lemma FoldsMinusRun(s: string)
    requires s == "---"
    ensures Parsed(s) == Ok([Add(253)])
  {
    assert AddChars(s);
    AddRunFolds(s);
    NetOfMinusRun(s);
  }

  lemma NetOfMinusRun(s: string)
    requires s == "---"
    ensures AddNet(s) == -3
  {
    assert AddNet("---") == -3;
  }

  lemma FoldsMixedAddRun(s: string)
    requires s == "+++----"
    ensures Parsed(s) == Ok([Add(255)])
  {
    assert AddChars(s);
    AddRunFolds(s);
    NetOfMixedAddRun(s);
  }

  lemma NetOfMixedAddRun(s: string)
    requires s == "+++----"
    ensures AddNet(s) == -1
  {
    assert AddNet("+++----") == -1;
  }

  lemma FoldsShortAddRuns(s: string, t: string)
    requires s == "-+--" && t == "--++++"
    ensures Parsed(s) == Ok([Add(254)])
    ensures Parsed(t) == Ok([Add(2)])
  {
    assert AddChars(s) && AddChars(t);
    AddRunFolds(s);
    AddRunFolds(t);
    NetOfShortAddRuns(s, t);
  }

  lemma NetOfShortAddRuns(s: string, t: string)
    requires s == "-+--" && t == "--++++"
    ensures AddNet(s) == -2 && AddNet(t) == 2
  {
    assert AddNet("-+--") == -2;
    assert AddNet("--++++") == 2;
  }

  lemma FoldsMixedMoveRun(s: string)
    requires s == ">>><<<<"
    ensures Parsed(s) == Ok([Move(-1)])
  {
    assert MoveChars(s);
    MoveRunFolds(s);
    NetOfMixedMoveRun(s);
  }

  lemma NetOfMixedMoveRun(s: string)
    requires s == ">>><<<<"
    ensures MoveNet(s) == -1
  {
    assert MoveNet(">>><<<<") == -1;
  }

  /** Loops nest and follow each other as the brackets do. */
  lemma ParsesLoops()
    ensures Parsed("[[]][]") == Ok([Loop([Loop([])]), Loop([])])
  {
    var t := [Loop([Loop([])]), Loop([])];
    assert Canonical(t);
    ParseDisplayAll(t);
    assert DisplayAll(t) == "[[]][]";
  }

  /** The simplest loops: one, one inside another, and two in a row. */
  lemma ParsesSimpleLoops()
    ensures Parsed("[]") == Ok([Loop([])])
    ensures Parsed("[[]]") == Ok([Loop([Loop([])])])
    ensures Parsed("[][]") == Ok([Loop([]), Loop([])])
  {
    EmptyLoopText();
    ParseDisplayAll([Loop([])]);
    var nested := [Loop([Loop([])])];
    assert Canonical(nested);
    ParseDisplayAll(nested);
    assert DisplayAll(nested) == "[[]]";
    var twice := [Loop([]), Loop([])];
    assert Canonical(twice);
    ParseDisplayAll(twice);
    assert DisplayAll(twice) == "[][]";
  }

  /** A loop whose body cancels out keeps an `Add(0)`, which prints as
      nothing; its loops still mirror the source's brackets. */
  lemma ParsesCancellingLoop(s: string)
    requires s == "[+-]"
    ensures Parsed(s) == Ok([Loop([Add(0)])])
    ensures ListBrackets(Parsed(s).value) == "[]"
  {
    var nil: seq<Node> := [];
    CancellingOpen();
    CancellingPlus();
    CancellingMinus();
    CancellingClose();
    assert s == ['['] + (['+'] + (['-'] + [']']));
    RunFirst([nil], '[', ['+'] + (['-'] + [']']), [nil, nil]);
    RunFirst([nil, nil], '+', ['-'] + [']'], [nil, [Add(1)]]);
    RunFirst([nil, [Add(1)]], '-', [']'], [nil, [Add(0)]]);
    RunOne([nil, [Add(0)]], ']');
    assert ListBrackets([Loop([Add(0)])]) == "[]" by {
      assert ListBrackets([Add(0)]) == "";
    }
  }

  lemma CancellingOpen()
    ensures Step([[]], '[') == Ok([[], []])
  {
    var nil: seq<Node> := [];
    assert [nil] + [nil] == [nil, nil];
  }

  lemma CancellingPlus()
    ensures Step([[], []], '+') == Ok([[], [Add(1)]])
  {
    var nil: seq<Node> := [];
    PushOnto([nil], nil, Add(1));
    assert [nil] + [nil] == [nil, nil] && nil + [Add(1)] == [Add(1)];
    assert [nil] + [nil + [Add(1)]] == [nil, [Add(1)]];
  }

  lemma CancellingMinus()
    ensures Step([[], [Add(1)]], '-') == Ok([[], [Add(0)]])
  {
    var nil: seq<Node> := [];
    ReplaceLastOf([nil], nil, Add(1), Add(0));
    assert nil + [Add(1)] == [Add(1)] && nil + [Add(0)] == [Add(0)];
    assert [nil] + [nil + [Add(1)]] == [nil, [Add(1)]];
    assert [nil] + [nil + [Add(0)]] == [nil, [Add(0)]];
    assert WrappingSub(1, 1) == 0;
  }

  lemma CancellingClose()
    ensures Step([[], [Add(0)]], ']') == Ok([[Loop([Add(0)])]])
  {
    var nil: seq<Node> := [];
    var none: Stack := [];
    PushOnto(none, nil, Loop([Add(0)]));
    assert none + [nil] == [nil] && nil + [Loop([Add(0)])] == [Loop([Add(0)])];
    assert none + [nil + [Loop([Add(0)])]] == [[Loop([Add(0)])]];
    assert [nil, [Add(0)]][..1] == [nil];
  }

  /** The text inside a loop that is not a command leaves it empty. */
  lemma ParsesCommentLoop(s: string)
    requires s == "[test]"
    ensures Parsed(s) == Ok([Loop([])])
  {
    ParsedIgnoresComments(s);
    CommandsOfCommentLoop(s);
    EmptyLoopText();
    ParseDisplayAll([Loop([])]);
  }

  /** A blank inside a loop is skipped like any other comment. */
  lemma ParsesBlankLoop(s: string)
    requires s == "[ ]"
    ensures Parsed(s) == Ok([Loop([])])
  {
    ParsedIgnoresComments(s);
    assert s[2..] == "]";
    assert Commands(s[2..]) == "]";
    assert Commands(s[1..]) == Commands(s[2..]);
    assert Commands(s) == "[]";
    EmptyLoopText();
    ParseDisplayAll([Loop([])]);
  }

  lemma CommandsOfCommentLoop(s: string)
    requires s == "[test]"
    ensures Commands(s) == "[]"
  {
    var inner := s[1..];
    assert inner == "test]";
    CommandsOfCommentClose(inner);
    assert s[0] == '[';
  }

  lemma CommandsOfCommentClose(s: string)
    requires s == "test]"
    ensures Commands(s) == "]"
  {
    assert s[4..] == "]";
    assert Commands(s[4..]) == "]";
    assert Commands(s[3..]) == Commands(s[4..]);
    assert Commands(s[2..]) == Commands(s[3..]);
    assert Commands(s[1..]) == Commands(s[2..]);
  }

  lemma EmptyLoopText()
    ensures DisplayAll([Loop([])]) == "[]"
  {
    assert Display(Loop([])) == "[]";
  }

  /** An unmatched bracket on either side is an error. */
  lemma RejectsUnmatched()
    ensures Parsed("]") == Err(IncompleteLoop)
    ensures Parsed("[") == Err(IncompleteLoop)
    ensures Parsed("[]]") == Err(IncompleteLoop)
  {
    ParsedOkIffBalanced("[");
    assert Brackets.Depth("[") == 1;
    ParsedOkIffBalanced("[]]");
    assert Brackets.Depth("[]]") == -1;
  }

  const HiSource := "-[--->+<]>-.-[----->+++<]>.[--->+<]>----.+."
  const HiLoop1 := Loop([Add(253), Move(1), Add(1), Move(-1)])
  const HiLoop2 := Loop([Add(251), Move(1), Add(3), Move(-1)])
  const HiPart1 := [Add(255), HiLoop1, Move(1), Add(255), Output, Add(255)]
  const HiPart2 := [HiLoop2, Move(1), Output]
  const HiPart3 := [HiLoop1, Move(1), Add(252), Output, Add(1), Output]

  lemma HiLoop1Text()
    ensures Display(HiLoop1) == "[--->+<]"
  {
    assert Display(Add(253)) == "---";
    DisplayAllConcat([Add(253)], [Move(1), Add(1), Move(-1)]);
  }

  lemma HiLoop2Text()
    ensures Display(HiLoop2) == "[----->+++<]"
  {
    assert Display(Add(251)) == "-----";
    assert Display(Add(3)) == "+++";
    DisplayAllConcat([Add(251)], [Move(1), Add(3), Move(-1)]);
  }

  lemma HiPart1Text()
    ensures DisplayAll(HiPart1) == "-[--->+<]>-.-"
  {
    HiLoop1Text();
    assert Display(Add(255)) == "-";
    DisplayAllConcat([Add(255), HiLoop1], [Move(1), Add(255), Output, Add(255)]);
  }

  lemma HiPart2Text()
    ensures DisplayAll(HiPart2) == "[----->+++<]>."
  {
    HiLoop2Text();
    assert Display(Move(1)) == ">" && Display(Output) == ".";
    DisplayAllConcat([HiLoop2], [Move(1), Output]);
  }

  lemma HiPart3Text()
    ensures DisplayAll(HiPart3) == "[--->+<]>----.+."
  {
    HiPart3Head();
    HiPart3Tail();
    DisplayAllConcat([HiLoop1, Move(1), Add(252)], [Output, Add(1), Output]);
    assert HiPart3 == [HiLoop1, Move(1), Add(252)] + [Output, Add(1), Output];
    assert "[--->+<]>----" + ".+." == "[--->+<]>----.+.";
  }

  lemma HiPart3Head()
    ensures DisplayAll([HiLoop1, Move(1), Add(252)]) == "[--->+<]>----"
  {
    HiLoop1Text();
    assert Display(Add(252)) == "----";
    assert DisplayAll([Move(1), Add(252)]) == ">----";
    DisplayAllConcat([HiLoop1], [Move(1), Add(252)]);
  }

  lemma HiPart3Tail()
    ensures DisplayAll([Output, Add(1), Output]) == ".+."
  {
    assert Display(Add(1)) == "+";
    assert DisplayAll([Output]) == ".";
  }

  lemma HiText()
    ensures DisplayAll(HiPart1 + HiPart2 + HiPart3) == HiSource
  {
    HiPart1Text();
    HiPart2Text();
    HiPart3Text();
    DisplayAllConcat(HiPart1, HiPart2);
    DisplayAllConcat(HiPart1 + HiPart2, HiPart3);
    HiSourceSplits();
  }

  lemma HiSourceSplits()
    ensures "-[--->+<]>-.-" + "[----->+++<]>." + "[--->+<]>----.+." == HiSource
  {
  }

  lemma HiCanonical()
    ensures Canonical(HiPart1 + HiPart2 + HiPart3)
  {
    assert Canonical(HiLoop1.body) && Canonical(HiLoop2.body);
    var t := HiPart1 + HiPart2 + HiPart3;
    assert forall i :: 0 <= i < |t| ==> CanonicalNode(t[i]);
  }

  /** The tree of the program that prints "Hi" (the last test of the file). */
  lemma ParsesHiProgram()
    ensures Parsed(HiSource) == Ok(HiPart1 + HiPart2 + HiPart3)
  {
    HiText();
    HiCanonical();
    ParseDisplayAll(HiPart1 + HiPart2 + HiPart3);
  }
}

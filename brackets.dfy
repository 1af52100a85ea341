/** The bracket-depth counter shared by the parser's scope stack and the
    program cursor's loop search: `[` opens one level, `]` closes one. */
module Brackets {

  function Delta(c: char): int
  {
    if c == '[' then 1 else if c == ']' then -1 else 0
  }

  /** Number of `[` minus number of `]` in `s`. */
  function Depth(s: seq<char>): int
  {
    if s == [] then 0 else Delta(s[0]) + Depth(s[1..])
  }

  lemma {:induction false} DepthConcat(a: seq<char>, b: seq<char>)
    ensures Depth(a + b) == Depth(a) + Depth(b)
  {
    if a == [] {
      assert a + b == b;
    } else {
      assert (a + b)[1..] == a[1..] + b;
      DepthConcat(a[1..], b);
    }
  }

  /** Appending one character moves the depth by that character's delta. */
  lemma DepthSnoc(s: seq<char>, c: char)
    ensures Depth(s + [c]) == Depth(s) + Delta(c)
  {
    DepthConcat(s, [c]);
    assert [c][1..] == [];
  }
}

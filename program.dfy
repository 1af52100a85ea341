/** The character-level program cursor (`src/program.rs`) and the errors the
    interpreter reports (`src/errors.rs`). Loops are found by scanning the
    source text with a bracket-depth counter. */
module Program {
  import opened Prelude
  import opened Brackets

  datatype InterpreterError = LoopTraversalError(pc: nat) | InputError

  function ShiftBy(o: Option<nat>, k: nat): Option<nat>
  {
    match o
    case Some(p) => Some(p + k)
    case None => None
  }

  // ---------------------------------------------------------------------
  // Forward search (skip_loop)

  /** The search `skip_loop` performs over `s` from position `k` on, with
      the counter starting at `depth`: the first offset from `k` at which
      the counter reads 0 after taking that character into account. */
  function ForwardMatch(s: seq<char>, k: nat, depth: int): (r: Option<nat>)
    requires k <= |s|
    ensures r.Some? ==> k + r.value < |s|
    decreases |s| - k
  {
    if k == |s| then None
    else
      var d := depth + Delta(s[k]);
      if d == 0 then Some(0) else ShiftBy(ForwardMatch(s, k + 1, d), 1)
  }

  /** The counter, started at `depth` on `s[k]`, reads 0 right after
      `s[k + q]`. */
  predicate ClosesAt(s: seq<char>, k: nat, depth: int, q: nat)
    requires k + q < |s|
  {
    depth + Depth(s[k..k + q + 1]) == 0
  }

  lemma ClosesAtFirst(s: seq<char>, k: nat, depth: int)
    requires k < |s|
    ensures ClosesAt(s, k, depth, 0) <==> depth + Delta(s[k]) == 0
  {
    var one := s[k..k + 1];
    assert one == [s[k]];
    assert one[1..] == [];
    assert Depth(one) == Delta(s[k]) + Depth(one[1..]);
  }

  lemma ClosesAtShift(s: seq<char>, k: nat, depth: int, q: nat)
    requires 0 < q && k + q < |s|
    ensures ClosesAt(s, k, depth, q) <==> ClosesAt(s, k + 1, depth + Delta(s[k]), q - 1)
  {
    var run := s[k..k + q + 1];
    assert run[0] == s[k];
    assert run[1..] == s[k + 1..k + 1 + (q - 1) + 1];
  }

  /** `ForwardMatch` finds exactly the first offset at which the counter is
      back to 0, and reports `None` exactly when there is none. */
  lemma {:induction false} ForwardMatchSpec(s: seq<char>, k: nat, depth: int)
    requires k <= |s|
    ensures ForwardMatch(s, k, depth).Some? ==>
              ClosesAt(s, k, depth, ForwardMatch(s, k, depth).value) &&
              forall q: nat :: q < ForwardMatch(s, k, depth).value ==> !ClosesAt(s, k, depth, q)
    ensures ForwardMatch(s, k, depth).None? ==>
              forall q: nat :: k + q < |s| ==> !ClosesAt(s, k, depth, q)
    decreases |s| - k
  {
    if k < |s| {
      var d := depth + Delta(s[k]);
      ClosesAtFirst(s, k, depth);
      if d != 0 {
        ForwardMatchSpec(s, k + 1, d);
        forall q: nat | 0 < q && k + q < |s|
          ensures ClosesAt(s, k, depth, q) <==> ClosesAt(s, k + 1, d, q - 1)
        {
          ClosesAtShift(s, k, depth, q);
        }
      }
    }
  }

  /** Before the counter first returns to 0, a search started on `[` stays
      at depth 1 or more. */
  lemma {:induction false} OpenStaysPositive(s: seq<char>, k: nat, p: nat, q: nat)
    requires k + p < |s| && s[k] == '['
    requires forall q': nat :: q' < p ==> !ClosesAt(s, k, 0, q')
    requires q < p
    ensures Depth(s[k..k + q + 1]) >= 1
    decreases q
  {
    if q == 0 {
      ClosesAtFirst(s, k, 0);
    } else {
      OpenStaysPositive(s, k, p, q - 1);
      assert s[k..k + q + 1] == s[k..k + q] + [s[k + q]];
      DepthSnoc(s[k..k + q], s[k + q]);
      assert !ClosesAt(s, k, 0, q);
    }
  }

  /** Started on a `[`, the search stops on its matching `]`: the first
      position after which the brackets from the `[` on balance. */
  lemma SkipFindsClosing(s: seq<char>, k: nat)
    requires k < |s| && s[k] == '['
    requires ForwardMatch(s, k, 0).Some?
    ensures 0 < ForwardMatch(s, k, 0).value
    ensures s[k + ForwardMatch(s, k, 0).value] == ']'
    ensures Depth(s[k..k + ForwardMatch(s, k, 0).value + 1]) == 0
  {
    var p := ForwardMatch(s, k, 0).value;
    ForwardMatchSpec(s, k, 0);
    ClosesAtFirst(s, k, 0);
    OpenStaysPositive(s, k, p, p - 1);
    assert s[k..k + p + 1] == s[k..k + p] + [s[k + p]];
    DepthSnoc(s[k..k + p], s[k + p]);
  }

  /** Started on anything but a bracket, the search stops at once. */
  lemma SkipStaysOnNonBracket(s: seq<char>, k: nat)
    requires k < |s| && s[k] != '[' && s[k] != ']'
    ensures ForwardMatch(s, k, 0) == Some(0)
  {
  }

  // ---------------------------------------------------------------------
  // Backward search (repeat_loop)

  /** The search `repeat_loop` performs over the first `k` characters of
      `s`, from `s[k - 1]` backwards, with the counter starting at
      `depth`. */
  function BackMatch(s: seq<char>, k: nat, depth: int): (r: Option<nat>)
    requires k <= |s|
    ensures r.Some? ==> r.value < k
    decreases k
  {
    if k == 0 then None
    else
      var d := depth + Delta(s[k - 1]);
      if d == 0 then Some(0) else ShiftBy(BackMatch(s, k - 1, d), 1)
  }

  /** The counter, started at `depth` on `s[k - 1]`, reads 0 once it has
      gone back to `s[k - 1 - q]`. */
  predicate ClosesBackAt(s: seq<char>, k: nat, depth: int, q: nat)
    requires q < k <= |s|
  {
    depth + Depth(s[k - 1 - q..k]) == 0
  }

  lemma ClosesBackAtFirst(s: seq<char>, k: nat, depth: int)
    requires 0 < k <= |s|
    ensures ClosesBackAt(s, k, depth, 0) <==> depth + Delta(s[k - 1]) == 0
  {
    var one := s[k - 1..k];
    assert one == [s[k - 1]];
    assert one[1..] == [];
    assert Depth(one) == Delta(s[k - 1]) + Depth(one[1..]);
  }

  lemma ClosesBackAtShift(s: seq<char>, k: nat, depth: int, q: nat)
    requires 0 < q < k <= |s|
    ensures ClosesBackAt(s, k, depth, q) <==> ClosesBackAt(s, k - 1, depth + Delta(s[k - 1]), q - 1)
  {
    var j := k - 1 - q;
    assert s[j..k] == s[j..k - 1] + [s[k - 1]];
    DepthSnoc(s[j..k - 1], s[k - 1]);
  }

  /** `BackMatch` finds exactly the first offset, counting back from
      `s[k - 1]`, at which the counter is back to 0. */
  lemma {:induction false} BackMatchSpec(s: seq<char>, k: nat, depth: int)
    requires k <= |s|
    ensures BackMatch(s, k, depth).Some? ==>
              ClosesBackAt(s, k, depth, BackMatch(s, k, depth).value) &&
              forall q: nat :: q < BackMatch(s, k, depth).value ==> !ClosesBackAt(s, k, depth, q)
    ensures BackMatch(s, k, depth).None? ==>
              forall q: nat :: q < k ==> !ClosesBackAt(s, k, depth, q)
    decreases k
  {
    if k > 0 {
      var d := depth + Delta(s[k - 1]);
      ClosesBackAtFirst(s, k, depth);
      if d != 0 {
        BackMatchSpec(s, k - 1, d);
        forall q: nat | 0 < q < k
          ensures ClosesBackAt(s, k, depth, q) <==> ClosesBackAt(s, k - 1, d, q - 1)
        {
          ClosesBackAtShift(s, k, depth, q);
        }
      }
    }
  }

  /** Before the counter first returns to 0, a backward search started on
      `]` stays at depth -1 or less. */
  lemma {:induction false} CloseStaysNegative(s: seq<char>, k: nat, p: nat, q: nat)
    requires p < k <= |s| && s[k - 1] == ']'
    requires forall q': nat :: q' < p ==> !ClosesBackAt(s, k, 0, q')
    requires q < p
    ensures Depth(s[k - 1 - q..k]) <= -1
    decreases q
  {
    if q == 0 {
      ClosesBackAtFirst(s, k, 0);
    } else {
      CloseStaysNegative(s, k, p, q - 1);
      var j := k - 1 - q;
      assert s[j..k][1..] == s[j + 1..k];
      assert !ClosesBackAt(s, k, 0, q);
    }
  }

  /** Started on a `]`, the backward search stops on its matching `[`: the
      nearest position from which the brackets up to the `]` balance. */
  lemma RepeatFindsOpening(s: seq<char>, k: nat)
    requires 0 < k <= |s| && s[k - 1] == ']'
    requires BackMatch(s, k, 0).Some?
    ensures 0 < BackMatch(s, k, 0).value
    ensures s[k - 1 - BackMatch(s, k, 0).value] == '['
    ensures Depth(s[k - 1 - BackMatch(s, k, 0).value..k]) == 0
  {
    var p := BackMatch(s, k, 0).value;
    BackMatchSpec(s, k, 0);
    ClosesBackAtFirst(s, k, 0);
    CloseStaysNegative(s, k, p, p - 1);
    var j := k - 1 - p;
    assert s[j..k][1..] == s[j + 1..k];
  }

  /** Started on anything but a bracket, the backward search stops at once. */
  lemma RepeatStaysOnNonBracket(s: seq<char>, k: nat)
    requires 0 < k <= |s| && s[k - 1] != '[' && s[k - 1] != ']'
    ensures BackMatch(s, k, 0) == Some(0)
  {
  }

  lemma SliceAround<T>(s: seq<T>, lo: nat, i: nat, hi: nat)
    requires lo <= i < hi <= |s|
    ensures s[lo..i] + [s[i]] + s[i + 1..hi] == s[lo..hi]
  {
  }

  // ---------------------------------------------------------------------
  // The cursor

  class Program {
    const chars: seq<char>
    var index: nat

    /** `Program::new`: the source's characters, cursor at 0. */
    constructor(source: seq<char>)
      ensures chars == source && index == 0
    {
      chars := source;
      index := 0;
    }

    /** `next`: one character on; nothing else changes. */
    method Next()
      modifies this
      ensures index == old(index) + 1
    {
      index := index + 1;
    }

    /** `get`: the character under the cursor, `None` past the end. */
    function Get(): (r: Option<char>)
      reads this
      ensures r.None? <==> index >= |chars|
      ensures r.Some? ==> r.value == chars[index]
    {
      if index >= |chars| then None else Some(chars[index])
    }

    /** `skip_loop`: moves the cursor forward to the first position at which
        the bracket count from the old position is balanced; fails, and
        stays, when there is none. The `offset`-th character of
        `chars[index..]` is `chars[index + offset]`. */
    method SkipLoop() returns (r: Result<(), InterpreterError>)
      requires index <= |chars|
      modifies this
      ensures match ForwardMatch(chars, old(index), 0)
              case Some(p) => r == Ok(()) && index == old(index) + p
              case None => r == Err(LoopTraversalError(old(index))) && index == old(index)
    {
      var loopDepth := 0;
      for offset := 0 to |chars| - index
        invariant index == old(index)
        invariant ForwardMatch(chars, index, 0) == ShiftBy(ForwardMatch(chars, index + offset, loopDepth), offset)
      {
        var c := chars[index + offset];
        match c {
          case '[' => loopDepth := loopDepth + 1;
          case ']' => loopDepth := loopDepth - 1;
          case _ =>
        }
        if loopDepth == 0 {
          index := index + offset;
          return Ok(());
        }
      }
      return Err(LoopTraversalError(index));
    }

    /** `repeat_loop`: moves the cursor back to the nearest position at
        which the bracket count up to the old position is balanced; fails,
        and stays, when there is none. The `offset`-th character of
        `chars[..=index]` reversed is `chars[index - offset]`. */
    method RepeatLoop() returns (r: Result<(), InterpreterError>)
      requires index < |chars|
      modifies this
      ensures match BackMatch(chars, old(index) + 1, 0)
              case Some(p) => r == Ok(()) && index == old(index) - p
              case None => r == Err(LoopTraversalError(old(index))) && index == old(index)
    {
      var loopDepth := 0;
      for offset := 0 to index + 1
        invariant index == old(index)
        invariant BackMatch(chars, index + 1, 0) == ShiftBy(BackMatch(chars, index + 1 - offset, loopDepth), offset)
      {
        var c := chars[index - offset];
        match c {
          case '[' => loopDepth := loopDepth + 1;
          case ']' => loopDepth := loopDepth - 1;
          case _ =>
        }
        if loopDepth == 0 {
          index := index - offset;
          return Ok(());
        }
      }
      return Err(LoopTraversalError(index));
    }

    /** The slice `get_range_clamped` may take without panicking: it is
        empty-or-later, or its start does not pass its clamped end by more
        than one. */
    predicate RangeInBounds(start: int, end: int)
    {
      chars == [] || end < 0 || Max(start, 0) > |chars| - 1 ||
      Max(start, 0) <= Min(end, |chars| - 1) + 1
    }

    /** `get_range_clamped`: the characters from `start` to `end` inclusive,
        with a negative start read as 0 and the end clamped to the last
        character. */
    function GetRangeClamped(start: int, end: int): (r: seq<char>)
      requires RangeInBounds(start, end)
      ensures chars == [] || end < 0 || Max(start, 0) > |chars| - 1 ==> r == []
      ensures !(chars == [] || end < 0 || Max(start, 0) > |chars| - 1) ==>
                |r| == Min(end, |chars| - 1) - Max(start, 0) + 1 &&
                forall k :: 0 <= k < |r| ==> r[k] == chars[Max(start, 0) + k]
    {
      if chars == [] || end < 0 then []
      else
        var start: nat := if start < 0 then 0 else start;
        var end: nat := end;
        var lastIndex := |chars| - 1;
        if start > lastIndex then []
        else
          var start := Min(start, lastIndex);
          var end := Min(end, lastIndex);
          chars[start..end + 1]
    }

    /** The three ranges `get_window` asks for around a cursor on the text
        join up into the clamped window of `radius` characters either side. */
    lemma WindowRanges(i: nat, radius: nat)
      requires i < |chars|
      ensures RangeInBounds(i - radius, i - 1)
      ensures RangeInBounds(i, i)
      ensures RangeInBounds(i + 1, i + radius)
      ensures GetRangeClamped(i - radius, i - 1) + GetRangeClamped(i, i) + GetRangeClamped(i + 1, i + radius)
           == chars[Max(i - radius, 0)..Min(i + radius, |chars| - 1) + 1]
    {
      WindowBefore(i, radius);
      WindowAfter(i, radius);
      WindowMiddle(i);
      SliceAround(chars, Max(i - radius, 0), i, Min(i + radius, |chars| - 1) + 1);
    }

    lemma WindowMiddle(i: nat)
      requires i < |chars|
      ensures RangeInBounds(i, i)
      ensures GetRangeClamped(i, i) == [chars[i]]
    {
    }

    lemma WindowBefore(i: nat, radius: nat)
      requires i < |chars|
      ensures RangeInBounds(i - radius, i - 1)
      ensures GetRangeClamped(i - radius, i - 1) == chars[Max(i - radius, 0)..i]
    {
      var r := GetRangeClamped(i - radius, i - 1);
      if i > 0 {
        assert r == chars[Max(i - radius, 0)..i];
      }
    }

    lemma WindowAfter(i: nat, radius: nat)
      requires i < |chars|
      ensures RangeInBounds(i + 1, i + radius)
      ensures GetRangeClamped(i + 1, i + radius) == chars[i + 1..Min(i + radius, |chars| - 1) + 1]
    {
      var r := GetRangeClamped(i + 1, i + radius);
      if i + 1 <= |chars| - 1 {
        assert r == chars[i + 1..Min(i + radius, |chars| - 1) + 1];
      }
    }
  }
}

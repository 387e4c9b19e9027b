/** Commands a robot can be programmed with, and the list logic of building a
    program: a sequence of indices into the hand of commands dealt for the turn. */
module Commands {
  import opened Wrappers

  /** `None` is the sentinel for "no command at this step"; it is never dealt. */
  datatype Command =
    | CommandMove1 | CommandMove2 | CommandMove3 | CommandBack
    | CommandTurnLeft | CommandTurnRight | CommandTurnAround
    | None

  /** The command a program holds at step `index`: the hand entry its index
      names, `None` past the end of the program, and the list indexer's
      exception for a negative step or an index outside the hand. */
  function SelectedCommand(available: seq<Command>, selected: seq<int>, index: int): (r: Result<Command, Exception>)
    ensures index >= |selected| ==> r == Success(Command.None)
    ensures 0 <= index < |selected| && 0 <= selected[index] < |available| ==>
      r == Success(available[selected[index]])
    ensures r.Failure? <==> index < |selected| && (index < 0 || selected[index] < 0 || selected[index] >= |available|)
    ensures r.Failure? ==> r.error == ArgumentOutOfRange
  {
    if index < |selected| then
      if index < 0 || selected[index] < 0 || selected[index] >= |available| then Failure(ArgumentOutOfRange)
      else Success(available[selected[index]])
    else
      Success(Command.None)
  }

  /** A program the picker can produce from a hand of `n` commands: indices
      into the hand, none of them twice. */
  predicate ValidPicks(selected: seq<int>, n: int)
  {
    && (forall k :: 0 <= k < |selected| ==> 0 <= selected[k] < n)
    && (forall j, k :: 0 <= j < k < |selected| ==> selected[j] != selected[k])
  }

  /** On a program built by the picker the accessor never throws, and step i
      of the program is the hand entry picked i-th. */
  lemma ValidPicksNeverThrow(available: seq<Command>, selected: seq<int>, index: int)
    requires ValidPicks(selected, |available|) && 0 <= index
    ensures SelectedCommand(available, selected, index).Success?
    ensures index < |selected| ==> SelectedCommand(available, selected, index).value == available[selected[index]]
  {
  }

  /** The digit keys pressed in one frame: indices 0 .. n-1 are visited in
      increasing order, and a pressed index not yet in the program is appended.
      The length of the program is not re-checked between indices. */
  function SelectPressed(selected: seq<int>, pressed: set<int>, n: nat): (r: seq<int>)
    ensures |selected| <= |r| <= |selected| + n
    decreases n
  {
    if n == 0 then selected
    else
      var r := SelectPressed(selected, pressed, n - 1);
      if n - 1 in pressed && n - 1 !in r then r + [n - 1] else r
  }

  /** Selecting extends the program: what was there stays in front, and every
      index appended was pressed, lies below n and was not yet in the program,
      so a program of distinct hand indices stays one. */
  lemma {:induction false} SelectPressedExtends(selected: seq<int>, pressed: set<int>, n: nat, handSize: int)
    requires ValidPicks(selected, handSize) && n <= handSize
    ensures var r := SelectPressed(selected, pressed, n);
      && |selected| <= |r|
      && r[..|selected|] == selected
      && (forall k :: |selected| <= k < |r| ==> r[k] in pressed && 0 <= r[k] < n)
      && ValidPicks(r, handSize)
  {
    if n > 0 {
      SelectPressedExtends(selected, pressed, n - 1, handSize);
      var r := SelectPressed(selected, pressed, n - 1);
      if n - 1 in pressed && n - 1 !in r {
        var r' := r + [n - 1];
        assert r'[..|selected|] == r[..|selected|];
      }
    }
  }

  /** With one digit key pressed, at most that index is appended. */
  lemma {:induction false} SelectPressedOneKey(selected: seq<int>, i: int, n: nat)
    ensures SelectPressed(selected, {i}, n) ==
      if 0 <= i < n && i !in selected then selected + [i] else selected
  {
    if n > 0 {
      SelectPressedOneKey(selected, i, n - 1);
    }
  }

  /** With no digit key pressed, the program is left as it is. */
  lemma {:induction false} SelectPressedNoKey(selected: seq<int>, n: nat)
    ensures SelectPressed(selected, {}, n) == selected
  {
    if n > 0 {
      SelectPressedNoKey(selected, n - 1);
    }
  }

  /** With at most one digit key pressed, at most one index is appended,
      and it is the pressed one. */
  lemma {:induction false} SelectPressedAtMostOneKey(selected: seq<int>, pressed: set<int>, n: nat)
    requires |pressed| <= 1
    ensures var r := SelectPressed(selected, pressed, n);
      && |selected| <= |r| <= |selected| + 1
      && r[..|selected|] == selected
      && (|r| == |selected| + 1 ==> r[|selected|] in pressed && r[|selected|] < n)
  {
    if n > 0 {
      SelectPressedAtMostOneKey(selected, pressed, n - 1);
      var r := SelectPressed(selected, pressed, n - 1);
      if |r| == |selected| + 1 {
        // the one pressed key is already taken, and lies below n - 1
        var j := r[|selected|];
        assert |pressed - {j}| == |pressed| - 1;
        assert n - 1 !in pressed;
      }
      if n - 1 in pressed && n - 1 !in r {
        assert (r + [n - 1])[..|selected|] == r[..|selected|];
      }
    }
  }

  /** Two new digit keys in the same frame are both appended, in index order. */
  lemma {:induction false} SelectPressedTwoKeys(selected: seq<int>, i: int, j: int, n: nat)
    requires 0 <= i < j < n && i !in selected && j !in selected
    ensures SelectPressed(selected, {i, j}, n) == selected + [i, j]
  {
    if n - 1 == j {
      SelectPressedOneKeyOf(selected, {i, j}, i, j);
    } else {
      SelectPressedTwoKeys(selected, i, j, n - 1);
    }
  }

  /** Below the larger of two pressed keys only the smaller one is seen. */
  lemma {:induction false} SelectPressedOneKeyOf(selected: seq<int>, pressed: set<int>, i: int, j: int)
    requires 0 <= i < j && pressed == {i, j} && i !in selected && j !in selected
    ensures SelectPressed(selected, pressed, j) == selected + [i]
    ensures SelectPressed(selected, pressed, j + 1) == selected + [i, j]
  {
    SelectPressedBelow(selected, pressed, {i}, j);
    SelectPressedOneKey(selected, i, j);
  }

  /** The picker as its length guard intends it: a pressed index is appended
      only while the program is shorter than count, so several digit keys in
      one frame cannot take it past count. */
  function SelectPressedCapped(selected: seq<int>, pressed: set<int>, n: nat, count: int): (r: seq<int>)
    ensures |selected| <= |r| <= |selected| + n
    decreases n
  {
    if n == 0 then selected
    else
      var r := SelectPressedCapped(selected, pressed, n - 1, count);
      if n - 1 in pressed && n - 1 !in r && |r| < count then r + [n - 1] else r
  }

  /** The capped picker never takes a program past count. */
  lemma {:induction false} SelectPressedCappedBounded(selected: seq<int>, pressed: set<int>, n: nat, count: int)
    requires |selected| <= count
    ensures |SelectPressedCapped(selected, pressed, n, count)| <= count
  {
    if n > 0 {
      SelectPressedCappedBounded(selected, pressed, n - 1, count);
    }
  }

  /** Wherever the picker as written stays within count, the capped picker
      picks exactly the same indices. */
  lemma {:induction false} SelectPressedCappedAgrees(selected: seq<int>, pressed: set<int>, n: nat, count: int)
    requires |SelectPressed(selected, pressed, n)| <= count
    ensures SelectPressedCapped(selected, pressed, n, count) == SelectPressed(selected, pressed, n)
  {
    if n > 0 {
      assert |SelectPressed(selected, pressed, n - 1)| <= |SelectPressed(selected, pressed, n)|;
      SelectPressedCappedAgrees(selected, pressed, n - 1, count);
    }
  }

  /** A program one short of count and two new digit keys in one frame: the
      picker as written ends one past count, the capped picker at count. */
  lemma SelectPressedOverfill(selected: seq<int>, i: int, j: int, n: nat, count: int)
    requires 0 <= i < j < n && i !in selected && j !in selected && |selected| + 1 == count
    ensures |SelectPressed(selected, {i, j}, n)| == count + 1
    ensures SelectPressedCapped(selected, {i, j}, n, count) == selected + [i]
  {
    SelectPressedTwoKeys(selected, i, j, n);
    SelectPressedCappedTwoKeys(selected, i, j, n, count);
  }

  /** The capped picker takes the smaller of two new keys into the last free
      place and drops the larger. */
  lemma {:induction false} SelectPressedCappedTwoKeys(selected: seq<int>, i: int, j: int, n: nat, count: int)
    requires 0 <= i < j < n && i !in selected && j !in selected && |selected| + 1 == count
    ensures SelectPressedCapped(selected, {i, j}, n, count) == selected + [i]
  {
    if n - 1 == j {
      SelectPressedOneKeyOf(selected, {i, j}, i, j);
      SelectPressedCappedAgrees(selected, {i, j}, j, count);
    } else {
      SelectPressedCappedTwoKeys(selected, i, j, n - 1, count);
    }
  }

  /** Only the pressed indices below n matter. */
  lemma {:induction false} SelectPressedBelow(selected: seq<int>, pressed: set<int>, pressed': set<int>, n: nat)
    requires forall k :: 0 <= k < n ==> (k in pressed <==> k in pressed')
    ensures SelectPressed(selected, pressed, n) == SelectPressed(selected, pressed', n)
  {
    if n > 0 {
      SelectPressedBelow(selected, pressed, pressed', n - 1);
    }
  }
}

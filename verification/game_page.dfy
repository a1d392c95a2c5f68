/** Guess selection and the turn countdown of the play screen
    (src/pages/GamePage.tsx).

    The player builds a guess by pressing number buttons: pressing a selected
    number deselects it, pressing an unselected one appends it while fewer
    than four are selected. A one-second timer counts the remaining time down
    to zero and stays there. Submitting needs exactly four numbers. */
module GamePage {
  import opened Sequences

  /** Most numbers a guess can hold. */
  const MAX_SELECTED: nat := 4
  /** Seconds on the clock when the screen opens. */
  const INITIAL_TIME_LEFT: int := 20

  // ---------------------------------------------------------------------
  // Selection

  /** `s` with every occurrence of `x` filtered out. What is kept stays in
      order; for a selection without repeats `WithoutAt` states the result
      position by position. */
  function Without(s: seq<int>, x: int): (r: seq<int>)
    ensures |r| <= |s|
    ensures forall y :: y in r <==> y in s && y != x
    ensures x !in s ==> r == s
    ensures Distinct(s) ==> Distinct(r)
  {
    if s == [] then []
    else
      var tail := Without(s[1..], x);
      if s[0] == x then tail
      else
        assert x !in s ==> [s[0]] + tail == s by {
          if x !in s {
            NotInTail(s, x);
            assert s == [s[0]] + s[1..];
          }
        }
        assert Distinct(s) ==> Distinct([s[0]] + tail) by {
          if Distinct(s) {
            DistinctTail(s);
            ConsDistinct(s[0], tail);
          }
        }
        [s[0]] + tail
  }

  /** `toggleNumber`: deselect a selected number, otherwise select it if
      there is room, otherwise ignore the press. */
  function ToggleNumber(selected: seq<int>, num: int): (r: seq<int>)
    ensures num in selected ==> num !in r
    ensures num in selected ==> forall y :: y != num ==> (y in r <==> y in selected)
    ensures num !in selected && |selected| < MAX_SELECTED ==> r == selected + [num]
    ensures num !in selected && |selected| >= MAX_SELECTED ==> r == selected
    ensures |selected| <= MAX_SELECTED ==> |r| <= MAX_SELECTED
    ensures Distinct(selected) ==> Distinct(r)
  {
    if num in selected then
      Without(selected, num)
    else if |selected| < MAX_SELECTED then
      assert Distinct(selected) ==> Distinct(selected + [num]) by {
        var r := selected + [num];
        forall i, j | 0 <= i < j < |r| && Distinct(selected)
          ensures r[i] != r[j]
        {
          assert r[i] == selected[i];
          if j == |selected| {
            assert r[i] in selected;
          }
        }
      }
      selected + [num]
    else
      selected
  }

  /** In a selection without repeats, deselecting the number at position
      `k` removes exactly that position and keeps the others in order. */
  lemma {:induction false} DeselectKeepsOrder(selected: seq<int>, k: int)
    requires Distinct(selected)
    requires 0 <= k < |selected|
    ensures ToggleNumber(selected, selected[k]) == RemoveAt(selected, k)
  {
    WithoutAt(selected, k);
  }

  lemma {:induction false} WithoutAt(s: seq<int>, k: int)
    requires Distinct(s)
    requires 0 <= k < |s|
    ensures Without(s, s[k]) == s[..k] + s[k + 1..]
    decreases |s|
  {
    var tail := s[1..];
    DistinctTail(s);
    if k > 0 {
      assert s[0] != s[k];
      WithoutAt(tail, k - 1);
      assert tail[k - 1] == s[k];
      assert s[..k] == [s[0]] + tail[..k - 1];
      assert s[k + 1..] == tail[k..];
    }
  }

  /** Selecting an unselected number and pressing it again restores the
      selection, as long as there was room for it. */
  lemma ToggleTwiceRestores(selected: seq<int>, num: int)
    requires num !in selected
    requires |selected| < MAX_SELECTED
    ensures ToggleNumber(ToggleNumber(selected, num), num) == selected
  {
    WithoutLastAbsent(selected, num);
  }

  /** Filtering out a value appended to a sequence that lacks it gives back
      the sequence. */
  lemma {:induction false} WithoutLastAbsent(s: seq<int>, x: int)
    requires x !in s
    ensures Without(s + [x], x) == s
    decreases |s|
  {
    if s == [] {
      assert Without([x], x) == Without([], x);
    } else {
      assert (s + [x])[1..] == s[1..] + [x];
      NotInTail(s, x);
      WithoutLastAbsent(s[1..], x);
      assert s == [s[0]] + s[1..];
    }
  }

  /** The selection after pressing the buttons `presses` in order. */
  function ToggleAll(selected: seq<int>, presses: seq<int>): seq<int>
    decreases |presses|
  {
    if presses == [] then selected
    else ToggleAll(ToggleNumber(selected, presses[0]), presses[1..])
  }

  /** A selection the screen can show: at most four numbers, none twice. */
  predicate ValidSelection(selected: seq<int>) {
    |selected| <= MAX_SELECTED && Distinct(selected)
  }

  /** Starting from the empty selection, no sequence of presses yields more
      than four numbers or a repeated number. */
  lemma {:induction false} PressesKeepSelectionValid(selected: seq<int>, presses: seq<int>)
    requires ValidSelection(selected)
    ensures ValidSelection(ToggleAll(selected, presses))
    decreases |presses|
  {
    if presses != [] {
      PressesKeepSelectionValid(ToggleNumber(selected, presses[0]), presses[1..]);
    }
  }

  /** `disabled={selectedNumbers.length !== 4}` on the submit button. A
      selection the screen can show may be submitted exactly when it is full:
      then pressing an unselected number is ignored, and otherwise that press
      appends the number. */
  predicate CanSubmit(selected: seq<int>)
    ensures ValidSelection(selected) && CanSubmit(selected) ==>
              forall n :: n !in selected ==> ToggleNumber(selected, n) == selected
    ensures ValidSelection(selected) && !CanSubmit(selected) ==>
              forall n :: n !in selected ==> ToggleNumber(selected, n) == selected + [n]
  {
    |selected| == MAX_SELECTED
  }

  /** Pressing distinct numbers, at most four, from the empty selection
      selects exactly them in press order; submitting becomes possible
      exactly when four were pressed. */
  lemma SubmitAfterDistinctPresses(presses: seq<int>)
    requires Distinct(presses) && |presses| <= MAX_SELECTED
    ensures ToggleAll([], presses) == presses
    ensures CanSubmit(ToggleAll([], presses)) <==> |presses| == MAX_SELECTED
  {
    AppendPresses([], presses);
  }

  lemma {:induction false} AppendPresses(selected: seq<int>, presses: seq<int>)
    requires Distinct(selected + presses)
    requires |selected + presses| <= MAX_SELECTED
    ensures ToggleAll(selected, presses) == selected + presses
    decreases |presses|
  {
    if presses == [] {
      assert selected + presses == selected;
    } else {
      var p := presses[0];
      var all := selected + presses;
      assert p !in selected by {
        forall i | 0 <= i < |selected|
          ensures selected[i] != p
        {
          assert all[i] == selected[i] && all[|selected|] == p;
        }
      }
      assert (selected + [p]) + presses[1..] == all;
      AppendPresses(selected + [p], presses[1..]);
    }
  }

  // ---------------------------------------------------------------------
  // Countdown

  /** One timer tick: a positive count goes down by one, anything else
      becomes zero. */
  function Tick(timeLeft: int): (r: int)
    ensures r >= 0
    ensures timeLeft > 0 ==> r == timeLeft - 1
    ensures timeLeft <= 0 ==> r == 0
  {
    if timeLeft > 0 then timeLeft - 1 else 0
  }

  /** The count after `k` ticks. */
  function TickN(timeLeft: int, k: nat): int
    decreases k
  {
    if k == 0 then timeLeft else TickN(Tick(timeLeft), k - 1)
  }

  /** After `k` ticks a non-negative count has gone down by `k`, stopping at
      zero. */
  lemma {:induction false} TicksSaturate(timeLeft: int, k: nat)
    requires timeLeft >= 0
    ensures TickN(timeLeft, k) == if k <= timeLeft then timeLeft - k else 0
    decreases k
  {
    if k > 0 {
      TicksSaturate(Tick(timeLeft), k - 1);
    }
  }

  /** The clock that starts at 20 reads zero after 20 ticks and stays there. */
  lemma ClockRunsOut(k: nat)
    requires k >= INITIAL_TIME_LEFT
    ensures TickN(INITIAL_TIME_LEFT, k) == 0
  {
    TicksSaturate(INITIAL_TIME_LEFT, k);
  }
}

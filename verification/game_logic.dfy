/** Hit & Blow scoring and secret generation (src/utils/gameLogic.ts).

    Scoring walks the guess position by position: a value equal to the
    answer's value at the same position is a hit; otherwise a value that
    occurs anywhere in the answer is a blow. The meaning of the two counts is
    given independently as sets of guess positions (`HitIndices`,
    `BlowIndices`); the loop in `CalculateHitAndBlow` is proved to count
    exactly those sets.

    The secret is drawn without replacement from the pool 1..13. The random
    index of each draw is a parameter (`picks[i]`, which the source computes
    as `floor(random() * numbers.length)`); `Draw` is the reference
    definition of what a sequence of such indices selects. */
module GameLogic {
  import opened Sequences

  /** The score of one guess. */
  datatype Score = Score(hit: nat, blow: nat)

  /** Number of values in a secret and in a guess. */
  const ANSWER_LENGTH: nat := 4
  /** The secret is drawn from 1..POOL_SIZE. */
  const POOL_SIZE: nat := 13

  // ---------------------------------------------------------------------
  // Scoring: what a hit and a blow are

  /** Position `i` of the guess is a hit. Past the end of the answer the
      source compares with `undefined`, which equals no number. */
  predicate IsHit(answer: seq<int>, guess: seq<int>, i: int)
    requires 0 <= i < |guess|
  {
    i < |answer| && guess[i] == answer[i]
  }

  /** Position `i` of the guess is a blow: not a hit, but the value occurs
      somewhere in the answer. */
  predicate IsBlow(answer: seq<int>, guess: seq<int>, i: int)
    requires 0 <= i < |guess|
  {
    !IsHit(answer, guess, i) && guess[i] in answer
  }

  /** Hit positions among the first `n` positions of the guess. */
  ghost function HitsBefore(answer: seq<int>, guess: seq<int>, n: nat): set<int>
    requires n <= |guess|
  {
    set i | 0 <= i < n && IsHit(answer, guess, i)
  }

  /** Blow positions among the first `n` positions of the guess. */
  ghost function BlowsBefore(answer: seq<int>, guess: seq<int>, n: nat): set<int>
    requires n <= |guess|
  {
    set i | 0 <= i < n && IsBlow(answer, guess, i)
  }

  ghost function HitIndices(answer: seq<int>, guess: seq<int>): set<int> {
    HitsBefore(answer, guess, |guess|)
  }

  ghost function BlowIndices(answer: seq<int>, guess: seq<int>): set<int> {
    BlowsBefore(answer, guess, |guess|)
  }

  /** Extending the prefix by one position adds that position to at most
      one of the two sets. */
  lemma CountStep(answer: seq<int>, guess: seq<int>, n: nat)
    requires 0 < n <= |guess|
    ensures |HitsBefore(answer, guess, n)| ==
      |HitsBefore(answer, guess, n - 1)| + (if IsHit(answer, guess, n - 1) then 1 else 0)
    ensures |BlowsBefore(answer, guess, n)| ==
      |BlowsBefore(answer, guess, n - 1)| + (if IsBlow(answer, guess, n - 1) then 1 else 0)
  {
    var hits, blows := HitsBefore(answer, guess, n - 1), BlowsBefore(answer, guess, n - 1);
    if IsHit(answer, guess, n - 1) {
      assert HitsBefore(answer, guess, n) == hits + {n - 1};
    } else {
      assert HitsBefore(answer, guess, n) == hits;
    }
    if IsBlow(answer, guess, n - 1) {
      assert BlowsBefore(answer, guess, n) == blows + {n - 1};
    } else {
      assert BlowsBefore(answer, guess, n) == blows;
    }
  }

  /** `calculateHitAndBlow`: one pass over the guess, counting hits and
      blows. */
  method CalculateHitAndBlow(answer: seq<int>, guess: seq<int>) returns (r: Score)
    ensures r.hit == |HitIndices(answer, guess)|
    ensures r.blow == |BlowIndices(answer, guess)|
    ensures r.hit + r.blow <= |guess|
  {
    var hit: nat := 0;
    var blow: nat := 0;
    var index := 0;
    while index < |guess|
      invariant 0 <= index <= |guess|
      invariant hit == |HitsBefore(answer, guess, index)|
      invariant blow == |BlowsBefore(answer, guess, index)|
      invariant hit + blow <= index
    {
      var num := guess[index];
      if index < |answer| && num == answer[index] {
        hit := hit + 1;
      } else if num in answer {
        blow := blow + 1;
      }
      CountStep(answer, guess, index + 1);
      index := index + 1;
    }
    r := Score(hit, blow);
  }

  // ---------------------------------------------------------------------
  // Properties of the scoring rule

  /** Each position is counted at most once, so hits and blows together
      never exceed the guess length (4 for a well-formed guess). */
  lemma {:induction false} ScoreBounded(answer: seq<int>, guess: seq<int>)
    ensures |HitIndices(answer, guess)| + |BlowIndices(answer, guess)| <= |guess|
  {
    PrefixScoreBounded(answer, guess, |guess|);
  }

  lemma {:induction false} PrefixScoreBounded(answer: seq<int>, guess: seq<int>, n: nat)
    requires n <= |guess|
    ensures |HitsBefore(answer, guess, n)| + |BlowsBefore(answer, guess, n)| <= n
  {
    if n > 0 {
      PrefixScoreBounded(answer, guess, n - 1);
      CountStep(answer, guess, n);
    }
  }

  /** The winning case: guessing the answer itself gives a hit at every
      position and no blow. */
  lemma {:induction false} PerfectGuess(answer: seq<int>)
    ensures |HitIndices(answer, answer)| == |answer|
    ensures |BlowIndices(answer, answer)| == 0
  {
    PerfectPrefix(answer, |answer|);
  }

  lemma {:induction false} PerfectPrefix(answer: seq<int>, n: nat)
    requires n <= |answer|
    ensures |HitsBefore(answer, answer, n)| == n
    ensures BlowsBefore(answer, answer, n) == {}
  {
    if n > 0 {
      PerfectPrefix(answer, n - 1);
      CountStep(answer, answer, n);
    }
  }

  /** Values the guess shares with the answer. */
  ghost function Shared(answer: seq<int>, guess: seq<int>): set<int> {
    set x | x in guess && x in answer
  }

  /** "Hit: icon and position / Blow: icon only": for a guess without
      repeated values, hits plus blows is exactly the number of values the
      guess has in common with the answer. The answer need not be distinct. */
  lemma {:induction false} DistinctGuessCountsShared(answer: seq<int>, guess: seq<int>)
    requires Distinct(guess)
    ensures |HitIndices(answer, guess)| + |BlowIndices(answer, guess)| == |Shared(answer, guess)|
  {
    SharedPrefix(answer, guess, |guess|);
    assert guess[..|guess|] == guess;
  }

  lemma {:induction false} SharedPrefix(answer: seq<int>, guess: seq<int>, n: nat)
    requires n <= |guess|
    requires Distinct(guess)
    ensures |HitsBefore(answer, guess, n)| + |BlowsBefore(answer, guess, n)|
         == |Shared(answer, guess[..n])|
  {
    if n > 0 {
      SharedPrefix(answer, guess, n - 1);
      CountStep(answer, guess, n);
      SharedStep(answer, guess, n);
    }
  }

  lemma SharedStep(answer: seq<int>, guess: seq<int>, n: nat)
    requires 0 < n <= |guess|
    requires Distinct(guess)
    ensures |Shared(answer, guess[..n])| ==
      |Shared(answer, guess[..n - 1])| + (if guess[n - 1] in answer then 1 else 0)
  {
    var x := guess[n - 1];
    var pre := guess[..n - 1];
    assert guess[..n] == pre + [x];
    assert x !in pre by {
      forall i | 0 <= i < |pre|
        ensures pre[i] != x
      {
        assert guess[i] != guess[n - 1];
      }
    }
    if x in answer {
      assert Shared(answer, guess[..n]) == Shared(answer, pre) + {x};
    } else {
      assert Shared(answer, guess[..n]) == Shared(answer, pre);
    }
  }

  /** Worked example: answer [1,2,3,4], guess [1,3,2,5] scores 1 hit and
      2 blows. */
  lemma ExampleMixed()
    ensures |HitIndices([1, 2, 3, 4], [1, 3, 2, 5])| == 1
    ensures |BlowIndices([1, 2, 3, 4], [1, 3, 2, 5])| == 2
  {
    assert HitIndices([1, 2, 3, 4], [1, 3, 2, 5]) == {0};
    assert BlowIndices([1, 2, 3, 4], [1, 3, 2, 5]) == {1, 2};
  }

  /** Worked example: answer [1,2,3,4], guess [4,3,2,1] scores 0 hits and
      4 blows. */
  lemma ExampleReversed()
    ensures |HitIndices([1, 2, 3, 4], [4, 3, 2, 1])| == 0
    ensures |BlowIndices([1, 2, 3, 4], [4, 3, 2, 1])| == 4
  {
    assert HitIndices([1, 2, 3, 4], [4, 3, 2, 1]) == {};
    assert BlowIndices([1, 2, 3, 4], [4, 3, 2, 1]) == {0, 1, 2, 3};
  }

  /** The rule itself does not guard against repeated guess values: each
      repetition of a value in the answer is a blow again, so hits plus blows
      can exceed the number of shared values (here 4 against 1). */
  lemma ExampleRepeatedGuess()
    ensures |HitIndices([1, 2, 3, 4], [2, 2, 2, 2])| == 1
    ensures |BlowIndices([1, 2, 3, 4], [2, 2, 2, 2])| == 3
    ensures |Shared([1, 2, 3, 4], [2, 2, 2, 2])| == 1
  {
    assert HitIndices([1, 2, 3, 4], [2, 2, 2, 2]) == {1};
    assert BlowIndices([1, 2, 3, 4], [2, 2, 2, 2]) == {0, 2, 3};
    assert Shared([1, 2, 3, 4], [2, 2, 2, 2]) == {2};
  }

  // ---------------------------------------------------------------------
  // Secret generation

  /** The pool `[1, 2, ..., 13]` that `generateAnswer` starts from. */
  function InitialPool(): (pool: seq<int>)
    ensures |pool| == POOL_SIZE
    ensures forall i :: 0 <= i < |pool| ==> pool[i] == i + 1
    ensures Distinct(pool)
    ensures forall x :: x in pool <==> 1 <= x <= POOL_SIZE
  {
    var pool := seq(POOL_SIZE, i => i + 1);
    assert forall x :: 1 <= x <= POOL_SIZE ==> x in pool by {
      forall x | 1 <= x <= POOL_SIZE
        ensures x in pool
      {
        assert pool[x - 1] == x;
      }
    }
    pool
  }

  /** The `i`-th random index is within the pool that is left after `i`
      draws from a pool of `size` values. */
  predicate PicksFit(picks: seq<int>, size: int) {
    forall i :: 0 <= i < |picks| ==> 0 <= picks[i] < size - i
  }

  /** Reference definition: the values that the indices `picks` select when
      each selected value is removed from the pool before the next draw. */
  function Draw(pool: seq<int>, picks: seq<int>): (r: seq<int>)
    requires PicksFit(picks, |pool|)
    ensures |r| == |picks|
    ensures forall x :: x in r ==> x in pool
    ensures Distinct(pool) ==> Distinct(r)
    decreases |picks|
  {
    if picks == [] then []
    else
      var k := picks[0];
      var rest := RemoveAt(pool, k);
      assert PicksFit(picks[1..], |rest|) by {
        forall i | 0 <= i < |picks[1..]|
          ensures 0 <= picks[1..][i] < |rest| - i
        {
          assert picks[1..][i] == picks[i + 1];
        }
      }
      var tail := Draw(rest, picks[1..]);
      DrawStep(pool, k, tail);
      [pool[k]] + tail
  }

  /** The step of `Draw`: prefixing the drawn value to what is drawn from the
      rest keeps values in the pool and, for a distinct pool, distinct. */
  lemma DrawStep(pool: seq<int>, k: int, tail: seq<int>)
    requires 0 <= k < |pool|
    requires forall x :: x in tail ==> x in RemoveAt(pool, k)
    requires Distinct(RemoveAt(pool, k)) ==> Distinct(tail)
    ensures forall x :: x in [pool[k]] + tail ==> x in pool
    ensures Distinct(pool) ==> Distinct([pool[k]] + tail)
  {
    forall x | x in tail
      ensures x in pool
    {
      RemoveAtSubset(pool, k, x);
    }
    if Distinct(pool) {
      RemoveAtDistinct(pool, k);
      ConsDistinct(pool[k], tail);
    }
  }

  /** `generateAnswer`: four draws without replacement from 1..13. The pool
      loses the drawn value on every iteration. */
  method GenerateAnswer(picks: seq<int>) returns (answer: seq<int>)
    requires |picks| == ANSWER_LENGTH
    requires PicksFit(picks, POOL_SIZE)
    ensures answer == Draw(InitialPool(), picks)
    ensures |answer| == ANSWER_LENGTH
    ensures forall x :: x in answer ==> 1 <= x <= POOL_SIZE
    ensures Distinct(answer)
  {
    var numbers := InitialPool();
    answer := [];
    var i := 0;
    while i < ANSWER_LENGTH
      invariant 0 <= i <= ANSWER_LENGTH
      invariant |numbers| == POOL_SIZE - i
      invariant PicksFit(picks[i..], |numbers|)
      invariant answer + Draw(numbers, picks[i..]) == Draw(InitialPool(), picks)
    {
      var randomIndex := picks[i];
      assert picks[i..][0] == randomIndex && picks[i..][1..] == picks[i + 1..];
      answer := answer + [numbers[randomIndex]];
      numbers := RemoveAt(numbers, randomIndex);
      i := i + 1;
    }
    assert picks[i..] == [];
  }

  /** `generateRandomGuess`: the automatic guess is produced exactly as a
      secret is, so for the same random indices it is the same sequence. */
  method GenerateRandomGuess(picks: seq<int>) returns (guess: seq<int>)
    requires |picks| == ANSWER_LENGTH
    requires PicksFit(picks, POOL_SIZE)
    ensures guess == Draw(InitialPool(), picks)
    ensures |guess| == ANSWER_LENGTH
    ensures forall x :: x in guess ==> 1 <= x <= POOL_SIZE
    ensures Distinct(guess)
  {
    guess := GenerateAnswer(picks);
  }

  // ---------------------------------------------------------------------
  // Every secret is reachable

  /** Position of `x` in `s`. */
  function IndexOf(s: seq<int>, x: int): (k: nat)
    requires x in s
    ensures k < |s| && s[k] == x
  {
    if s[0] == x then 0 else 1 + IndexOf(s[1..], x)
  }

  /** The random indices that make `Draw` select `target` from `pool`. */
  function PicksFor(pool: seq<int>, target: seq<int>): (picks: seq<int>)
    requires Distinct(target)
    requires forall x :: x in target ==> x in pool
    ensures |picks| == |target|
    ensures PicksFit(picks, |pool|)
    ensures Draw(pool, picks) == target
    decreases |target|
  {
    if target == [] then []
    else
      var k := IndexOf(pool, target[0]);
      var rest := RemoveAt(pool, k);
      var later := target[1..];
      DistinctTail(target);
      assert forall x :: x in later ==> x in rest by {
        forall x | x in later
          ensures x in rest
        {
          var j :| 0 <= j < |later| && later[j] == x;
          assert target[j + 1] == x && target[0] != target[j + 1];
          RemoveAtKeeps(pool, k, x);
        }
      }
      var tail := PicksFor(rest, later);
      var picks := [k] + tail;
      assert picks[0] == k && picks[1..] == tail;
      assert PicksFit(picks, |pool|) by {
        forall i | 0 <= i < |picks|
          ensures 0 <= picks[i] < |pool| - i
        {
          if i > 0 {
            assert picks[i] == tail[i - 1];
          }
        }
      }
      picks
  }

  /** Every sequence of four distinct values from 1..13 is a secret that
      `generateAnswer` can produce: some choice of random indices yields it. */
  lemma EverySecretReachable(target: seq<int>)
    requires |target| == ANSWER_LENGTH
    requires Distinct(target)
    requires forall x :: x in target ==> 1 <= x <= POOL_SIZE
    ensures exists picks :: |picks| == ANSWER_LENGTH && PicksFit(picks, POOL_SIZE)
                            && Draw(InitialPool(), picks) == target
  {
    var picks := PicksFor(InitialPool(), target);
    assert |picks| == ANSWER_LENGTH && PicksFit(picks, POOL_SIZE);
  }
}

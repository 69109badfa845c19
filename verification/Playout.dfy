/** The Monte-Carlo leaf evaluation of game.cpp: `select_random_move`,
    `rollout_mc` and `evaluate`. Each call of `std::rand()` is a draw
    `rand(i)` from an explicit oracle; functions take the index of the next
    unused draw and return the index after the draws they consumed. */
module Playout {
  import opened Cells
  import opened BoardState
  import opened WinDetection

  /** `top_value` (game.cpp:11): rollouts per evaluation. */
  const TopValue: int := 200

  /** `RAND_MAX` of the GNU C library. */
  const RandMax: int := 0x7FFF_FFFF

  /** A value `std::rand()` can return. */
  type RandValue = r: int | 0 <= r <= RandMax

  lemma MulLe(x: int, y: int, d: int)
    requires x <= y && d >= 0
    ensures x * d <= y * d
  {
    assert y * d - x * d == (y - x) * d;
  }

  /** For a positive divisor, the quotient is below `n` exactly when the
      dividend is below `n * d`. */
  lemma DivBelowIff(a: int, d: int, n: int)
    requires a >= 0 && d > 0
    ensures a / d < n <==> a < n * d
  {
    var q := a / d;
    assert a == q * d + a % d;
    if q < n {
      MulLe(q, n - 1, d);
      assert (n - 1) * d + d == n * d;
    } else {
      MulLe(n, q, d);
    }
  }

  /** The index formula of game.cpp:229 as written:
      `rand() / ((RAND_MAX + 1u) / size)`. The divisor is zero once
      `n` exceeds `RAND_MAX + 1`. */
  function RandomIndexAsWritten(r: RandValue, n: int): int
    requires 1 <= n <= RandMax + 1
  {
    r / ((RandMax + 1) / n)
  }

  /** As written, the index stays below `n` exactly for the draws below
      `n * ((RAND_MAX + 1) / n)`; the others land past the end. */
  lemma AsWrittenIndexInRange(r: RandValue, n: int)
    requires 1 <= n <= RandMax + 1
    ensures RandomIndexAsWritten(r, n) < n <==> r < n * ((RandMax + 1) / n)
  {
    DivBelowIff(r, (RandMax + 1) / n, n);
  }

  /** Seven available columns and the draw `RAND_MAX`: the index is 7, and
      `std::next(begin, 7)` is the end of the list. */
  lemma AsWrittenIndexOnePastEnd()
    ensures RandomIndexAsWritten(RandMax, 7) == 7
  {
  }

  /** As written, each index inside the list is reached by exactly the
      `(RAND_MAX + 1) / n` draws of one slice, so the in-range indices are
      equally likely. */
  lemma AsWrittenIndexSlices(r: RandValue, n: int, i: int)
    requires 1 <= n <= RandMax + 1 && 0 <= i < n
    ensures var d := (RandMax + 1) / n;
      RandomIndexAsWritten(r, n) == i <==> i * d <= r < (i + 1) * d
  {
    var d := (RandMax + 1) / n;
    assert d >= 1;
    DivBelowIff(r, d, i + 1);
    DivBelowIff(r, d, i);
    assert (i + 1) * d == i * d + d;
  }

  /** The index of game.cpp:229 wherever the code defines it, and the last
      position for the few draws that the code sends past the end (and for
      lists longer than `RAND_MAX + 1`, where the code divides by zero). */
  function RandomIndex(r: RandValue, n: int): (i: int)
    requires n >= 1
    ensures 0 <= i < n
    ensures n <= RandMax + 1 && RandomIndexAsWritten(r, n) < n ==> i == RandomIndexAsWritten(r, n)
  {
    if n <= RandMax + 1 && RandomIndexAsWritten(r, n) < n then RandomIndexAsWritten(r, n) else n - 1
  }

  /** `select_random_move` (game.cpp:226-232): the element at the drawn
      index of the available-move list. */
  function SelectRandomMove(moves: seq<int>, r: RandValue): (m: int)
    requires |moves| > 0
    ensures m in moves
  {
    moves[RandomIndex(r, |moves|)]
  }

  /** Wherever the code's index lies inside the list, the selected column is
      the one the code picks; only the draws at or above
      `n * ((RAND_MAX + 1) / n)` differ, where the code reads past the end. */
  lemma SelectRandomMoveAsWritten(moves: seq<int>, r: RandValue)
    requires 0 < |moves| <= RandMax + 1
    ensures r < |moves| * ((RandMax + 1) / |moves|) ==>
      SelectRandomMove(moves, r) == moves[RandomIndexAsWritten(r, |moves|)]
    ensures r >= |moves| * ((RandMax + 1) / |moves|) ==>
      SelectRandomMove(moves, r) == moves[|moves| - 1]
  {
    AsWrittenIndexInRange(r, |moves|);
  }

  /** The loop of `rollout_mc` (game.cpp:213-222) with `player` to move and
      `rand(next)` the next draw: drop a random available column, stop on a
      winner, otherwise hand over to the other player; a full board ends it
      with -1. Returns the outcome and the index of the first unused draw. */
  function RolloutFrom(b: Board, player: int, rand: nat -> RandValue, next: nat): (r: (int, nat))
    requires Valid(b) && IsPlayer(player)
    ensures r.0 == Empty || r.0 == player || r.0 == NextPlayer(player)
    ensures next <= r.1 <= next + FreeCells(b)
    ensures r.0 == Empty ==> r.1 == next + FreeCells(b)
    ensures r.0 != Empty ==> r.1 > next
    ensures WinnerMadeLastDrop(r, player, next)
    decreases FreeCells(b)
  {
    FullIffNoFreeCells(b);
    if IsFull(b) then (Empty, next)
    else
      NoMovesIffFull(b);
      var move := SelectRandomMove(AvailableMoves(b), rand(next));
      RolloutStep(b, player, move);
      var placed := DoMove(b, player, move);
      var w := Winner(placed);
      if w != Empty then
        DropByNext(player, 1);
        (w, next + 1)
      else
        var rest := RolloutFrom(placed, NextPlayer(player), rand, next + 1);
        DropByNext(player, rest.1 - next);
        rest
  }

  /** One drop of the rollout into an available column: the board stays
      valid, one free cell is used up, and the winner, if any, is the
      player who dropped. */
  lemma RolloutStep(b: Board, player: int, move: int)
    requires Valid(b) && IsPlayer(player) && move in AvailableMoves(b)
    ensures Valid(DoMove(b, player, move))
    ensures FreeCells(DoMove(b, player, move)) + 1 == FreeCells(b)
    ensures Winner(DoMove(b, player, move)) == Empty || Winner(DoMove(b, player, move)) == player
  {
    WinnerIsMover(b, player, move);
  }

  /** The player who makes the `k`-th drop, counting from 1, of a rollout
      that `first` opens: the opener on odd drops, the other player on even
      ones. */
  function DropBy(first: int, k: int): int {
    if OddDrop(k) then first else NextPlayer(first)
  }

  /** `k` is odd, counted out one drop at a time. */
  predicate OddDrop(k: int)
    decreases k
  {
    k > 0 && !OddDrop(k - 1)
  }

  /** The counted-out parity is the remainder modulo 2. */
  lemma {:induction false} OddDropIsRemainder(k: nat)
    ensures OddDrop(k) <==> k % 2 == 1
    decreases k
  {
    if k > 0 {
      OddDropIsRemainder(k - 1);
    }
  }

  /** The outcome `r` of a rollout that `first` opened at draw `next`: if
      someone won, it is whoever made the last of the `r.1 - next` drops. */
  predicate WinnerMadeLastDrop(r: (int, int), first: int, next: int) {
    r.0 != Empty ==> r.0 == DropBy(first, r.1 - next)
  }

  /** The winner of a rollout by parity: the opener makes the odd drops and
      the other player the even ones. */
  lemma DropByParity(first: int, k: nat)
    ensures DropBy(first, k) == if k % 2 == 1 then first else NextPlayer(first)
  {
    OddDropIsRemainder(k);
  }

  /** The opener makes the first drop, and the `k`-th drop of a rollout
      `first` opens is the `(k - 1)`-th of the rollout that starts after the
      opening drop. */
  lemma DropByNext(first: int, k: int)
    requires IsPlayer(first)
    ensures DropBy(first, 1) == first
    ensures k > 1 ==> DropBy(first, k) == DropBy(NextPlayer(first), k - 1)
  {
    assert !OddDrop(0);
    NextPlayerAlternates(first);
  }

  /** The side `rollout_mc` starts with (game.cpp:210):
      `(get_last_player() + 1) % 2`. As the player history holds columns,
      this is the parity of the last column played, plus one. */
  function FirstRolloutPlayer(b: Board): (p: int)
    requires Valid(b) && |b.moveHistory| > 0
    ensures IsPlayer(p)
    ensures p == (LastMove(b) + 1) % 2
  {
    NextPlayer(LastPlayer(b))
  }

  /** `rollout_mc` (game.cpp:206-224). It plays on its own copy of the board,
      so the caller's board is untouched, and opens with
      `(get_last_player() + 1) % 2`, which is `FirstRolloutPlayer(b)`. It uses
      at most one draw per free cell (so at most `cols * height`, by
      `FreeCellsBound`), all of them exactly when no one wins, and a winner
      is whoever made the last of the drops. */
  function Rollout(b: Board, rand: nat -> RandValue, next: nat): (r: (int, nat))
    requires Valid(b) && |b.moveHistory| > 0
    ensures r.0 == Empty || IsPlayer(r.0)
    ensures next <= r.1 <= next + FreeCells(b)
    ensures r.0 == Empty ==> r.1 == next + FreeCells(b)
    ensures WinnerMadeLastDrop(r, FirstRolloutPlayer(b), next)
  {
    RolloutFrom(b, FirstRolloutPlayer(b), rand, next)
  }

  /** The evaluation loop of game.cpp:195-202 with `n` rollouts left to run:
      the numbers of rollouts won by `player` and by its opponent
      `(player + 1) % 2`, and the index of the first unused draw. */
  function Tally(b: Board, player: int, rand: nat -> RandValue, next: nat, n: nat): (r: (nat, nat, nat))
    requires Valid(b) && |b.moveHistory| > 0
    ensures r.0 + r.1 <= n
    ensures next <= r.2
    decreases n
  {
    if n == 0 then (0, 0, next)
    else
      var outcome := Rollout(b, rand, next);
      var rest := Tally(b, player, rand, outcome.1, n - 1);
      if outcome.0 == player then (rest.0 + 1, rest.1, rest.2)
      else if outcome.0 == NextPlayer(player) then (rest.0, rest.1 + 1, rest.2)
      else rest
  }

  /** `evaluate` (game.cpp:189-204): wins minus losses over `top_value`
      rollouts, so the score lies in [-200, 200], strictly inside the
      terminal values +-400 of the search. */
  function Evaluate(b: Board, player: int, rand: nat -> RandValue, next: nat): (r: (int, nat))
    requires Valid(b) && |b.moveHistory| > 0
    ensures -TopValue <= r.0 <= TopValue
    ensures next <= r.1
  {
    var t := Tally(b, player, rand, next, TopValue);
    (t.0 - t.1, t.2)
  }

  /** The quirk of game.cpp:210 in a concrete game: player 0 drops into
      column 1 of an empty board, and the rollout starts with player 0
      again rather than with player 1. */
  lemma RolloutRepeatsLastMover()
    ensures var b := DoMove(New(7, 6), 0, 1);
      && Valid(b)
      && b.grid[1][0] == 0
      && FirstRolloutPlayer(b) == 0
  {
    var b0 := New(7, 6);
    DoMovePreservesValid(b0, 0, 1);
  }
}

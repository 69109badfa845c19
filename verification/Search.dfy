/** `alphabeta` (game.cpp:113-187): depth-limited fail-soft alpha-beta search
    over the game tree, with `evaluate` at the horizon. The board is passed
    by reference in the code; here each drop is followed by `undo_last_move`
    on the board the recursive call hands back, and the search returns the
    board it ends with. `Minimax` is the same search without pruning, the
    reference the alpha-beta search is proved against. */
module Search {
  import opened Cells
  import opened BoardState
  import opened WinDetection
  import opened Playout

  /** `infinity` (game.cpp:10): the value the incumbent starts from. */
  const Infinity: int := 999999

  /** The value of a board someone has won: `2*top_value`. */
  const WinValue: int := 2 * TopValue

  /** `ai_move` (game.cpp:24-27): a value and the column that achieves it,
      -1 when no column is chosen. */
  datatype Choice = Choice(value: int, move: int)

  /** `std::max` and `std::min` on ints. */
  function Max(x: int, y: int): int {
    if x < y then y else x
  }

  function Min(x: int, y: int): int {
    if y < x then y else x
  }

  /** A leaf evaluator with the range of `evaluate`: wins minus losses over
      `top_value` rollouts. */
  ghost predicate LeafBounded(eval: (Board, int) -> int) {
    forall b, p :: -TopValue <= eval(b, p) <= TopValue
  }

  /** Neither side of the search drops the empty marker: the caller moves on
      max plies and `(caller + 1) % 2` on min plies. */
  predicate CanMove(caller: int) {
    caller != Empty && NextPlayer(caller) != Empty
  }

  /** The player whose piece is dropped on a ply (game.cpp:142, 169). */
  function Mover(caller: int, maxPlayer: bool): (p: int)
    ensures CanMove(caller) ==> p != Empty
    ensures IsPlayer(caller) ==> IsPlayer(p) && (p == caller <==> maxPlayer)
  {
    if maxPlayer then caller else NextPlayer(caller)
  }

  /** The incumbent before any child is searched: `-infinity` and -1 on max
      plies, `infinity` and -1 on min plies. */
  function Sentinel(maxPlayer: bool): Choice {
    if maxPlayer then Choice(-Infinity, -1) else Choice(Infinity, -1)
  }

  /** `x` is strictly better than `y` for the side to move. */
  predicate Better(x: int, y: int, maxPlayer: bool) {
    if maxPlayer then x > y else x < y
  }

  /** The incumbent update of game.cpp:146-149 and game.cpp:173-176: a child
      replaces the incumbent only when strictly better, so the earliest of
      equal children is kept. */
  function Improve(best: Choice, value: int, move: int, maxPlayer: bool): (r: Choice)
    ensures r == best || r == Choice(value, move)
    ensures r.value == if maxPlayer then Max(best.value, value) else Min(best.value, value)
    ensures r == best <==> !Better(value, best.value, maxPlayer) || best == Choice(value, move)
  {
    if Better(value, best.value, maxPlayer) then Choice(value, move) else best
  }

  /** The value of a won board for the caller (game.cpp:117-127). */
  function TerminalValue(w: int, caller: int): (v: int)
    ensures v == WinValue <==> w == caller
    ensures v == -WinValue <==> w != caller
  {
    if w == caller then WinValue else -WinValue
  }

  /** `alphabeta` (game.cpp:113-187). A board with a winner is scored
      +-400 for the caller; at the horizon or on a full board the leaf
      evaluator scores it; otherwise every available column is tried in the
      order `get_available_moves` lists them, until the window closes. */
  function AlphaBeta(b: Board, depth: int, alpha: int, beta: int, caller: int, maxPlayer: bool,
                     eval: (Board, int) -> int): (r: (Board, Choice))
    requires Valid(b) && CanMove(caller) && LeafBounded(eval)
    ensures r.0 == b
    ensures -WinValue <= r.1.value <= WinValue
    ensures Winner(b) != Empty ==> r.1 == Choice(TerminalValue(Winner(b), caller), -1)
    ensures Winner(b) == Empty && (depth == 0 || IsFull(b)) ==> r.1 == Choice(eval(b, caller), -1)
    ensures Winner(b) == Empty && depth != 0 && !IsFull(b) ==> r.1.move in AvailableMoves(b)
    decreases FreeCells(b), 1
  {
    var w := Winner(b);
    if w != Empty then (b, Choice(TerminalValue(w, caller), -1))
    else if depth == 0 || IsFull(b) then (b, Choice(eval(b, caller), -1))
    else
      NoMovesIffFull(b);
      SearchMoves(b, depth, alpha, beta, caller, maxPlayer, eval, AvailableMoves(b), Sentinel(maxPlayer))
  }

  /** The loop over `possible_moves` (game.cpp:140-160 on max plies,
      game.cpp:167-183 on min plies) with `todo` still to try and `best` the
      incumbent: drop, search the child one ply shallower with the other
      side to move, undo, keep a strictly better child, narrow the window,
      and stop once `alpha >= beta`. */
  function SearchMoves(b: Board, depth: int, alpha: int, beta: int, caller: int, maxPlayer: bool,
                       eval: (Board, int) -> int, todo: seq<int>, best: Choice): (r: (Board, Choice))
    requires Valid(b) && CanMove(caller) && LeafBounded(eval)
    requires forall m :: m in todo ==> m in AvailableMoves(b)
    ensures r.0 == b
    ensures r.1 == best || r.1.move in todo
    ensures -WinValue <= best.value <= WinValue ==> -WinValue <= r.1.value <= WinValue
    ensures todo != [] && best == Sentinel(maxPlayer) ==>
      r.1.move in todo && -WinValue <= r.1.value <= WinValue
    decreases FreeCells(b), 0, |todo|
  {
    if todo == [] then (b, best)
    else
      var m := todo[0];
      assert m in todo;
      var mover := Mover(caller, maxPlayer);
      DropAndUndo(b, mover, m);
      var sub := AlphaBeta(DoMove(b, mover, m), depth - 1, alpha, beta, caller, !maxPlayer, eval);
      var back := Undo(sub.0);
      var best' := Improve(best, sub.1.value, m, maxPlayer);
      var alpha' := if maxPlayer then Max(alpha, sub.1.value) else alpha;
      var beta' := if maxPlayer then beta else Min(beta, sub.1.value);
      if alpha' >= beta' then (back, best')
      else SearchMoves(back, depth, alpha', beta', caller, maxPlayer, eval, todo[1..], best')
  }

  /** A drop into an available column keeps the board valid, fills one free
      cell, and is undone exactly by `undo_last_move`. */
  lemma DropAndUndo(b: Board, p: int, m: int)
    requires Valid(b) && p != Empty && m in AvailableMoves(b)
    ensures Valid(DoMove(b, p, m))
    ensures FreeCells(DoMove(b, p, m)) < FreeCells(b)
    ensures Undo(DoMove(b, p, m)) == b
  {
    DoMovePreservesValid(b, p, m);
    UndoDoMove(b, p, m);
  }

  // ---------------------------------------------------------------------
  // The reference: the same search without pruning
  // ---------------------------------------------------------------------

  /** Depth-limited minimax with the terminal and leaf scoring of
      `alphabeta`, every available column searched, and the earliest of
      equally good columns kept. */
  function Minimax(b: Board, depth: int, caller: int, maxPlayer: bool, eval: (Board, int) -> int): (r: Choice)
    requires Valid(b) && CanMove(caller) && LeafBounded(eval)
    ensures -WinValue <= r.value <= WinValue
    decreases FreeCells(b), 1
  {
    var w := Winner(b);
    if w != Empty then Choice(TerminalValue(w, caller), -1)
    else if depth == 0 || IsFull(b) then Choice(eval(b, caller), -1)
    else
      NoMovesIffFull(b);
      MinimaxMoves(b, depth, caller, maxPlayer, eval, AvailableMoves(b), Sentinel(maxPlayer))
  }

  /** The minimax value of dropping in column `m`. */
  function ChildValue(b: Board, depth: int, caller: int, maxPlayer: bool, eval: (Board, int) -> int, m: int): (v: int)
    requires Valid(b) && CanMove(caller) && LeafBounded(eval)
    requires m in AvailableMoves(b)
    ensures -WinValue <= v <= WinValue
    decreases FreeCells(b), 0, 0
  {
    DropAndUndo(b, Mover(caller, maxPlayer), m);
    Minimax(DoMove(b, Mover(caller, maxPlayer), m), depth - 1, caller, !maxPlayer, eval).value
  }

  /** The unpruned loop over `todo` with incumbent `best`. */
  function MinimaxMoves(b: Board, depth: int, caller: int, maxPlayer: bool, eval: (Board, int) -> int,
                        todo: seq<int>, best: Choice): (r: Choice)
    requires Valid(b) && CanMove(caller) && LeafBounded(eval)
    requires forall m :: m in todo ==> m in AvailableMoves(b)
    ensures r == best || (r.move in todo && Better(r.value, best.value, maxPlayer))
    ensures -WinValue <= best.value <= WinValue ==> -WinValue <= r.value <= WinValue
    ensures todo != [] && best == Sentinel(maxPlayer) ==>
      r.move in todo && -WinValue <= r.value <= WinValue
    decreases FreeCells(b), 0, |todo|
  {
    if todo == [] then best
    else
      var m := todo[0];
      assert m in todo;
      var v := ChildValue(b, depth, caller, maxPlayer, eval, m);
      MinimaxMoves(b, depth, caller, maxPlayer, eval, todo[1..], Improve(best, v, m, maxPlayer))
  }

  // ---------------------------------------------------------------------
  // Pruning does not change the answer
  // ---------------------------------------------------------------------

  /** The fail-soft window property: against the minimax choice `m` and the
      window `(alpha, beta)`, a result `r` is at most `alpha` when `m` is,
      at least `beta` when `m` is, and is `m` itself, value and column, when
      `m` lies strictly inside the window. */
  predicate Agrees(r: Choice, m: Choice, alpha: int, beta: int) {
    && (m.value <= alpha ==> r.value <= alpha)
    && (beta <= m.value ==> beta <= r.value)
    && (alpha < m.value < beta ==> r == m)
  }

  /** `alphabeta` with any open window inside `(-infinity, infinity)`
      agrees with minimax. */
  lemma {:induction false} AlphaBetaWindow(b: Board, depth: int, alpha: int, beta: int, caller: int,
                                           maxPlayer: bool, eval: (Board, int) -> int)
    requires Valid(b) && CanMove(caller) && LeafBounded(eval)
    requires -Infinity <= alpha < beta <= Infinity
    ensures Agrees(AlphaBeta(b, depth, alpha, beta, caller, maxPlayer, eval).1,
                   Minimax(b, depth, caller, maxPlayer, eval), alpha, beta)
    decreases FreeCells(b), 1
  {
    if Winner(b) == Empty && depth != 0 && !IsFull(b) {
      NoMovesIffFull(b);
      var moves := AvailableMoves(b);
      if maxPlayer {
        SearchMaxWindow(b, depth, alpha, alpha, beta, caller, eval, moves, Sentinel(true), Sentinel(true));
      } else {
        SearchMinWindow(b, depth, alpha, beta, beta, caller, eval, moves, Sentinel(false), Sentinel(false));
      }
    }
  }

  /** One iteration of the search loop: the first column is tried on the
      board as given, and the loop either stops with the updated incumbent
      or carries on with the rest of the columns and the narrowed window. */
  lemma SearchMovesStep(b: Board, depth: int, alpha: int, beta: int, caller: int, maxPlayer: bool,
                        eval: (Board, int) -> int, todo: seq<int>, best: Choice)
    requires Valid(b) && CanMove(caller) && LeafBounded(eval)
    requires forall m :: m in todo ==> m in AvailableMoves(b)
    requires todo != []
    ensures todo[0] in AvailableMoves(b)
    ensures Valid(DoMove(b, Mover(caller, maxPlayer), todo[0]))
    ensures var a := AlphaBeta(DoMove(b, Mover(caller, maxPlayer), todo[0]), depth - 1, alpha, beta,
                               caller, !maxPlayer, eval).1.value;
      var best' := Improve(best, a, todo[0], maxPlayer);
      var alpha' := if maxPlayer then Max(alpha, a) else alpha;
      var beta' := if maxPlayer then beta else Min(beta, a);
      SearchMoves(b, depth, alpha, beta, caller, maxPlayer, eval, todo, best)
        == if alpha' >= beta' then (b, best')
           else SearchMoves(b, depth, alpha', beta', caller, maxPlayer, eval, todo[1..], best')
  {
    assert todo[0] in todo;
    DropAndUndo(b, Mover(caller, maxPlayer), todo[0]);
  }

  /** One iteration of the unpruned loop. */
  lemma MinimaxMovesStep(b: Board, depth: int, caller: int, maxPlayer: bool, eval: (Board, int) -> int,
                         todo: seq<int>, best: Choice)
    requires Valid(b) && CanMove(caller) && LeafBounded(eval)
    requires forall m :: m in todo ==> m in AvailableMoves(b)
    requires todo != []
    ensures todo[0] in AvailableMoves(b)
    ensures Valid(DoMove(b, Mover(caller, maxPlayer), todo[0]))
    ensures ChildValue(b, depth, caller, maxPlayer, eval, todo[0])
         == Minimax(DoMove(b, Mover(caller, maxPlayer), todo[0]), depth - 1, caller, !maxPlayer, eval).value
    ensures MinimaxMoves(b, depth, caller, maxPlayer, eval, todo, best)
         == MinimaxMoves(b, depth, caller, maxPlayer, eval, todo[1..],
                         Improve(best, ChildValue(b, depth, caller, maxPlayer, eval, todo[0]), todo[0], maxPlayer))
  {
    assert todo[0] in todo;
    DropAndUndo(b, Mover(caller, maxPlayer), todo[0]);
  }

  /** The max-ply loop against the unpruned loop, `alpha0` being the
      window's lower end on entry to the node: the two incumbents are equal
      once the reference's rises above `alpha0`, and both stay at or below
      `alpha0` until then. */
  lemma {:induction false} SearchMaxWindow(b: Board, depth: int, alpha0: int, alpha: int, beta: int, caller: int,
                                           eval: (Board, int) -> int, todo: seq<int>, best: Choice, mbest: Choice)
    requires Valid(b) && CanMove(caller) && LeafBounded(eval)
    requires forall m :: m in todo ==> m in AvailableMoves(b)
    requires -Infinity <= alpha0 < beta <= Infinity
    requires alpha == Max(alpha0, best.value) && alpha < beta
    requires alpha0 < mbest.value ==> best == mbest
    requires mbest.value <= alpha0 ==> best.value <= alpha0
    ensures Agrees(SearchMoves(b, depth, alpha, beta, caller, true, eval, todo, best).1,
                   MinimaxMoves(b, depth, caller, true, eval, todo, mbest), alpha0, beta)
    decreases FreeCells(b), 0, |todo|
  {
    if todo != [] {
      var m := todo[0];
      SearchMovesStep(b, depth, alpha, beta, caller, true, eval, todo, best);
      MinimaxMovesStep(b, depth, caller, true, eval, todo, mbest);
      DropAndUndo(b, caller, m);
      var child := DoMove(b, caller, m);
      AlphaBetaWindow(child, depth - 1, alpha, beta, caller, false, eval);
      var a := AlphaBeta(child, depth - 1, alpha, beta, caller, false, eval).1.value;
      var c := ChildValue(b, depth, caller, true, eval, m);
      MaxStep(alpha0, alpha, beta, best, mbest, a, c, m);
      var alpha' := Max(alpha, a);
      if alpha' < beta {
        SearchMaxWindow(b, depth, alpha0, alpha', beta, caller, eval, todo[1..],
                        Improve(best, a, m, true), Improve(mbest, c, m, true));
      }
    }
  }

  /** The min-ply loop against the unpruned loop, `beta0` being the window's
      upper end on entry to the node. */
  lemma {:induction false} SearchMinWindow(b: Board, depth: int, alpha: int, beta0: int, beta: int, caller: int,
                                           eval: (Board, int) -> int, todo: seq<int>, best: Choice, mbest: Choice)
    requires Valid(b) && CanMove(caller) && LeafBounded(eval)
    requires forall m :: m in todo ==> m in AvailableMoves(b)
    requires -Infinity <= alpha < beta0 <= Infinity
    requires beta == Min(beta0, best.value) && alpha < beta
    requires mbest.value < beta0 ==> best == mbest
    requires beta0 <= mbest.value ==> beta0 <= best.value
    ensures Agrees(SearchMoves(b, depth, alpha, beta, caller, false, eval, todo, best).1,
                   MinimaxMoves(b, depth, caller, false, eval, todo, mbest), alpha, beta0)
    decreases FreeCells(b), 0, |todo|
  {
    if todo != [] {
      var m := todo[0];
      var mover := NextPlayer(caller);
      SearchMovesStep(b, depth, alpha, beta, caller, false, eval, todo, best);
      MinimaxMovesStep(b, depth, caller, false, eval, todo, mbest);
      DropAndUndo(b, mover, m);
      var child := DoMove(b, mover, m);
      AlphaBetaWindow(child, depth - 1, alpha, beta, caller, true, eval);
      var a := AlphaBeta(child, depth - 1, alpha, beta, caller, true, eval).1.value;
      var c := ChildValue(b, depth, caller, false, eval, m);
      MinStep(alpha, beta0, beta, best, mbest, a, c, m);
      var beta' := Min(beta, a);
      if alpha < beta' {
        SearchMinWindow(b, depth, alpha, beta0, beta', caller, eval, todo[1..],
                        Improve(best, a, m, false), Improve(mbest, c, m, false));
      }
    }
  }

  /** The bookkeeping of one max-ply step, given that the child's search
      value `a` agrees with its minimax value `c` on the window
      `(alpha, beta)`: the new `alpha` is again the larger of `alpha0` and
      the incumbent; a cut-off leaves both incumbents at `beta` or above;
      otherwise the loop invariant carries over. */
  lemma MaxStep(alpha0: int, alpha: int, beta: int, best: Choice, mbest: Choice, a: int, c: int, m: int)
    requires alpha == Max(alpha0, best.value) && alpha < beta
    requires alpha0 < mbest.value ==> best == mbest
    requires mbest.value <= alpha0 ==> best.value <= alpha0
    requires c <= alpha ==> a <= alpha
    requires beta <= c ==> beta <= a
    requires alpha < c < beta ==> a == c
    ensures var best', mbest' := Improve(best, a, m, true), Improve(mbest, c, m, true);
      && Max(alpha, a) == Max(alpha0, best'.value)
      && (beta <= Max(alpha, a) ==> beta <= best'.value && beta <= mbest'.value)
      && (Max(alpha, a) < beta ==>
            && (alpha0 < mbest'.value ==> best' == mbest')
            && (mbest'.value <= alpha0 ==> best'.value <= alpha0))
  {
  }

  /** The bookkeeping of one min-ply step, the mirror image of `MaxStep`. */
  lemma MinStep(alpha: int, beta0: int, beta: int, best: Choice, mbest: Choice, a: int, c: int, m: int)
    requires beta == Min(beta0, best.value) && alpha < beta
    requires mbest.value < beta0 ==> best == mbest
    requires beta0 <= mbest.value ==> beta0 <= best.value
    requires c <= alpha ==> a <= alpha
    requires beta <= c ==> beta <= a
    requires alpha < c < beta ==> a == c
    ensures var best', mbest' := Improve(best, a, m, false), Improve(mbest, c, m, false);
      && Min(beta, a) == Min(beta0, best'.value)
      && (Min(beta, a) <= alpha ==> best'.value <= alpha && mbest'.value <= alpha)
      && (alpha < Min(beta, a) ==>
            && (mbest'.value < beta0 ==> best' == mbest')
            && (beta0 <= mbest'.value ==> beta0 <= best'.value))
  {
  }

  /** With the full window the search of game.cpp:105-106 uses, alpha-beta
      returns exactly the minimax choice, value and column, and hands the
      board back unchanged. */
  lemma AlphaBetaIsMinimax(b: Board, depth: int, caller: int, maxPlayer: bool, eval: (Board, int) -> int)
    requires Valid(b) && CanMove(caller) && LeafBounded(eval)
    ensures AlphaBeta(b, depth, -Infinity, Infinity, caller, maxPlayer, eval)
         == (b, Minimax(b, depth, caller, maxPlayer, eval))
  {
    AlphaBetaWindow(b, depth, -Infinity, Infinity, caller, maxPlayer, eval);
  }

  // ---------------------------------------------------------------------
  // What the search chooses
  // ---------------------------------------------------------------------

  /** The unpruned loop over a strictly descending list of columns ends with
      a child no other child beats, and among equally good children with
      the earliest one, that is the highest column. */
  lemma {:induction false} MinimaxMovesBest(b: Board, depth: int, caller: int, maxPlayer: bool,
                                            eval: (Board, int) -> int, todo: seq<int>, best: Choice)
    requires Valid(b) && CanMove(caller) && LeafBounded(eval)
    requires forall m :: m in todo ==> m in AvailableMoves(b)
    requires forall i, j :: 0 <= i < j < |todo| ==> todo[i] > todo[j]
    requires best == Sentinel(maxPlayer) || forall m :: m in todo ==> m < best.move
    ensures var r := MinimaxMoves(b, depth, caller, maxPlayer, eval, todo, best);
      && (r == best || (r.move in todo && r.value == ChildValue(b, depth, caller, maxPlayer, eval, r.move)))
      && (forall m :: m in todo ==> !Better(ChildValue(b, depth, caller, maxPlayer, eval, m), r.value, maxPlayer))
      && (forall m :: m in todo && ChildValue(b, depth, caller, maxPlayer, eval, m) == r.value ==> m <= r.move)
    decreases |todo|
  {
    if todo != [] {
      var m := todo[0];
      MinimaxMovesStep(b, depth, caller, maxPlayer, eval, todo, best);
      var c := ChildValue(b, depth, caller, maxPlayer, eval, m);
      var best' := Improve(best, c, m, maxPlayer);
      TailBelowHead(todo);
      MinimaxMovesBest(b, depth, caller, maxPlayer, eval, todo[1..], best');
    }
  }

  /** In a strictly descending list every later entry is below the first. */
  lemma TailBelowHead(s: seq<int>)
    requires s != [] && forall i, j :: 0 <= i < j < |s| ==> s[i] > s[j]
    ensures forall t :: t in s[1..] ==> t in s && t < s[0]
  {
    forall t | t in s[1..]
      ensures t in s && t < s[0]
    {
      var k :| 0 <= k < |s[1..]| && s[1..][k] == t;
      assert s[k + 1] == t;
    }
  }

  /** At a node that is neither won nor at the horizon, the minimax choice
      is an available column whose child value it carries; no available
      column is better, and every equally good one is a lower column. */
  lemma MinimaxChoosesBest(b: Board, depth: int, caller: int, maxPlayer: bool, eval: (Board, int) -> int)
    requires Valid(b) && CanMove(caller) && LeafBounded(eval)
    requires Winner(b) == Empty && depth != 0 && !IsFull(b)
    ensures var r := Minimax(b, depth, caller, maxPlayer, eval);
      && r.move in AvailableMoves(b)
      && r.value == ChildValue(b, depth, caller, maxPlayer, eval, r.move)
      && (forall m :: m in AvailableMoves(b) ==>
            !Better(ChildValue(b, depth, caller, maxPlayer, eval, m), r.value, maxPlayer))
      && (forall m :: m in AvailableMoves(b) && ChildValue(b, depth, caller, maxPlayer, eval, m) == r.value ==>
            m <= r.move)
  {
    NoMovesIffFull(b);
    MinimaxMovesBest(b, depth, caller, maxPlayer, eval, AvailableMoves(b), Sentinel(maxPlayer));
  }

  /** Dropping `p`'s piece in column `m` wins the game for `p`. */
  predicate WinsWith(b: Board, p: int, m: int)
    requires Valid(b) && p != Empty && m in AvailableMoves(b)
  {
    DropAndUndo(b, p, m);
    Winner(DoMove(b, p, m)) == p
  }

  /** When the caller can win with one drop, `alphabeta` from the root
      values the position at +400; searching one or two plies deep it also
      picks a winning column. From three plies on, a higher column that
      forces a win later is also worth +400 and is kept first. */
  lemma WinningDropIsFound(b: Board, depth: int, caller: int, eval: (Board, int) -> int, m: int)
    requires Valid(b) && IsPlayer(caller) && LeafBounded(eval)
    requires Winner(b) == Empty && depth != 0
    requires m in AvailableMoves(b) && WinsWith(b, caller, m)
    ensures var r := AlphaBeta(b, depth, -Infinity, Infinity, caller, true, eval).1;
      && r.value == WinValue
      && r.move in AvailableMoves(b)
      && (depth == 1 || depth == 2 ==> WinsWith(b, caller, r.move))
  {
    NoMovesIffFull(b);
    AlphaBetaIsMinimax(b, depth, caller, true, eval);
    MinimaxChoosesBest(b, depth, caller, true, eval);
    ChildWinValue(b, depth, caller, eval, m);
    ChildWinValue(b, depth, caller, eval, Minimax(b, depth, caller, true, eval).move);
  }

  /** On a max ply a winning drop is worth +400. One or two plies above the
      horizon nothing else is: a leaf scores within +-200, and after a drop
      that does not win, the opponent's best reply leads to a leaf or to the
      opponent's win. */
  lemma ChildWinValue(b: Board, depth: int, caller: int, eval: (Board, int) -> int, m: int)
    requires Valid(b) && IsPlayer(caller) && LeafBounded(eval) && m in AvailableMoves(b)
    ensures WinsWith(b, caller, m) ==> ChildValue(b, depth, caller, true, eval, m) == WinValue
    ensures depth == 1 || depth == 2 ==>
      (ChildValue(b, depth, caller, true, eval, m) == WinValue <==> WinsWith(b, caller, m))
  {
    DropAndUndo(b, caller, m);
    if depth == 2 && !WinsWith(b, caller, m) {
      ReplyBelowWin(b, caller, eval, m);
    }
  }

  /** Two plies above the horizon, a drop that does not win is worth at
      most `top_value`. */
  lemma ReplyBelowWin(b: Board, caller: int, eval: (Board, int) -> int, m: int)
    requires Valid(b) && IsPlayer(caller) && LeafBounded(eval) && m in AvailableMoves(b)
    requires !WinsWith(b, caller, m)
    ensures ChildValue(b, 2, caller, true, eval, m) <= TopValue
  {
    WinnerIsMover(b, caller, m);
    var child := DoMove(b, caller, m);
    if !IsFull(child) {
      MinimaxChoosesBest(child, 1, caller, false, eval);
      var reply := Minimax(child, 1, caller, false, eval).move;
      WinnerIsMover(child, NextPlayer(caller), reply);
    }
  }

  /** The leaf evaluator `evaluate` gives when every evaluation draws from
      `rand` starting at index `next`; a board with no history, where the
      code has no last player to read, scores 0. */
  function RolloutLeaf(rand: nat -> RandValue, next: nat): (eval: (Board, int) -> int)
    ensures LeafBounded(eval)
  {
    (b: Board, p: int) => if Valid(b) && |b.moveHistory| > 0 then Evaluate(b, p, rand, next).0 else 0
  }
}

/** Minimax search over the game tree, with the memo of the boards already
    scored. X maximises the score, O minimises it. */
module Search {
  import opened Game

  function Max(x: int, y: int): int
  {
    if x < y then y else x
  }

  function Min(x: int, y: int): int
  {
    if y < x then y else x
  }

  /** Cell number `k` of the board in row-major order. */
  function At(k: nat): Action
    requires k < 9
  {
    (k / 3, k % 3)
  }

  lemma AtIndex(a: Action)
    ensures 3 * a.0 + a.1 < 9 && At(3 * a.0 + a.1) == a
  {
  }

  predicate OpenAt(b: Board, k: nat)
    requires k < 9
  {
    b[At(k).0][At(k).1] == Empty
  }

  /** The score a search starts from before any move is scored: worse for
      the player to move than any score a board can have. */
  function Sentinel(b: Board): int
  {
    if ToMove(b) == X then -2 else 2
  }

  // ---------------------------------------------------------------------
  // The game value: the reference the search is proved against

  /** The minimax value of `b`: its utility once the game is over, and
      otherwise the best value among the boards one move away for the
      player to move. */
  ghost function Value(b: Board): int
    decreases Count(b, Empty), 2, 0
  {
    if IsTerminal(b) then Utility(b) else Best(b, 0)
  }

  /** The value of the board reached by the player to move marking `a`. */
  ghost function ChildValue(b: Board, a: Action): int
    requires b[a.0][a.1] == Empty
    decreases Count(b, Empty), 0, 0
  {
    CountPlace(b, a, ToMove(b));
    Value(Successor(b, a))
  }

  /** The best child value over the cells `k` to 8, starting from the
      sentinel. */
  ghost function Best(b: Board, k: nat): int
    requires k <= 9
    decreases Count(b, Empty), 1, 9 - k
  {
    if k == 9 then Sentinel(b)
    else
      var rest := Best(b, k + 1);
      var a := At(k);
      if b[a.0][a.1] != Empty then rest
      else if ToMove(b) == X then Max(ChildValue(b, a), rest)
      else Min(ChildValue(b, a), rest)
  }

  /** `Best(b, k)` bounds every child value from cell `k` on, and is either
      the sentinel or one of them. */
  lemma {:induction false} BestBounds(b: Board, k: nat)
    requires k <= 9
    ensures forall k' :: k <= k' < 9 && OpenAt(b, k') ==>
      if ToMove(b) == X then ChildValue(b, At(k')) <= Best(b, k) else Best(b, k) <= ChildValue(b, At(k'))
    ensures Best(b, k) == Sentinel(b) ||
      exists k' :: k <= k' < 9 && OpenAt(b, k') && ChildValue(b, At(k')) == Best(b, k)
    decreases 9 - k
  {
    if k < 9 {
      BestBounds(b, k + 1);
    }
  }

  /** Every board has a value in {-1, 0, 1}. */
  lemma {:induction false} ValueRange(b: Board)
    ensures -1 <= Value(b) <= 1
    decreases Count(b, Empty), 1
  {
    if !IsTerminal(b) {
      ValueOptimal(b);
      var a: Action :| b[a.0][a.1] == Empty && ChildValue(b, a) == Value(b);
      CountPlace(b, a, ToMove(b));
      ValueRange(Successor(b, a));
    }
  }

  /** On a board where play goes on, the value is the maximum (X to move) or
      the minimum (O to move) of the values of the moves available. */
  lemma {:induction false} ValueOptimal(b: Board)
    requires !IsTerminal(b)
    ensures forall a: Action :: b[a.0][a.1] == Empty ==>
      if ToMove(b) == X then ChildValue(b, a) <= Value(b) else Value(b) <= ChildValue(b, a)
    ensures exists a: Action :: b[a.0][a.1] == Empty && ChildValue(b, a) == Value(b)
    decreases Count(b, Empty), 0
  {
    BestBounds(b, 0);
    forall a: Action | b[a.0][a.1] == Empty
      ensures -1 <= ChildValue(b, a) <= 1
      ensures if ToMove(b) == X then ChildValue(b, a) <= Value(b) else Value(b) <= ChildValue(b, a)
    {
      CountPlace(b, a, ToMove(b));
      ValueRange(Successor(b, a));
      AtIndex(a);
      assert OpenAt(b, 3 * a.0 + a.1);
    }
    var i: Index, j: Index :| b[i][j] == Empty;
    assert Best(b, 0) != Sentinel(b) by {
      AtIndex((i, j));
      assert OpenAt(b, 3 * i + j);
    }
    var k :| 0 <= k < 9 && OpenAt(b, k) && ChildValue(b, At(k)) == Best(b, 0);
    assert b[At(k).0][At(k).1] == Empty;
  }

  /** A move that reaches the best score possible for the player to move
      (1 for X, -1 for O) gives the board its value: looking further cannot
      change it. */
  lemma EarlyExit(b: Board, a: Action)
    requires !IsTerminal(b) && b[a.0][a.1] == Empty
    requires ChildValue(b, a) == (if ToMove(b) == X then 1 else -1)
    ensures Value(b) == ChildValue(b, a)
  {
    ValueOptimal(b);
    ValueRange(b);
  }

  // ---------------------------------------------------------------------
  // The search and its memo

  class Solver {
    /** Each board scored by a recursive search, with its score, in the
        order they were scored. */
    var explored: seq<(Board, int)>

    /** Every remembered board is one where play goes on, paired with its
        value. */
    ghost predicate Valid()
      reads this
    {
      forall k :: 0 <= k < |explored| ==> !IsTerminal(explored[k].0) && explored[k].1 == Value(explored[k].0)
    }

    constructor ()
      ensures Valid() && explored == []
    {
      explored := [];
    }

    /** Scans the memo from the start and stops at the first entry for
        `board`. */
    method Lookup(board: Board) returns (found: bool, score: int)
      ensures found <==> exists k :: 0 <= k < |explored| && explored[k].0 == board
      ensures found ==> exists k :: 0 <= k < |explored| && explored[k] == (board, score) &&
                                    forall k' :: 0 <= k' < k ==> explored[k'].0 != board
      ensures found && Valid() ==> score == Value(board)
    {
      found, score := false, 0;
      for k := 0 to |explored|
        invariant !found
        invariant forall k' :: 0 <= k' < k ==> explored[k'].0 != board
      {
        if explored[k].0 == board {
          found, score := true, explored[k].1;
          break;
        }
      }
    }

    /** The score of the move `a` on `b` (one turn of the loops of the
        search): the utility of the board it leads to if the game is over
        there, else the score remembered for that board, else the score
        found by searching it for the other player (`childMax` when that is
        X), which is then remembered. `hit` tells that the score came from
        the memo. */
    method Score(b: Board, a: Action, childMax: bool) returns (hit: bool, s: int)
      requires Valid() && b[a.0][a.1] == Empty
      requires if childMax then Count(b, X) == Count(b, O) + 1 else Count(b, X) == Count(b, O)
      modifies this
      ensures Valid()
      ensures old(explored) <= explored
      ensures s == ChildValue(b, a) && -1 <= s <= 1
      ensures hit <==> !IsTerminal(Successor(b, a)) &&
                       exists k :: 0 <= k < |old(explored)| && old(explored)[k].0 == Successor(b, a)
      ensures hit || IsTerminal(Successor(b, a)) ==> explored == old(explored)
      ensures !hit && !IsTerminal(Successor(b, a)) ==>
                |explored| > |old(explored)| && explored[|explored| - 1] == (Successor(b, a), s)
      decreases Count(b, Empty), 0
    {
      var child := Result(b, a);
      assert Count(child, Empty) < Count(b, Empty) by {
        CountPlace(b, a, ToMove(b));
      }
      assert -1 <= Value(child) <= 1 by {
        ValueRange(child);
      }
      var over := Terminal(child);
      if over {
        return false, Utility(child);
      }
      hit, s := Lookup(child);
      if !hit {
        var reply;
        if childMax {
          assert Count(child, X) == Count(child, O) by {
            CountPlace(b, a, O);
          }
          reply, s := MaxValue(child);
        } else {
          assert Count(child, X) == Count(child, O) + 1 by {
            CountPlace(b, a, X);
          }
          reply, s := MinValue(child);
        }
        explored := explored + [(child, s)];
      }
    }

    /** The best move for X and its score. Moves are taken from the set of
        actions in no fixed order; the first one to reach a new best score
        is kept, and the scan stops at a score of 1. */
    method MaxValue(b: Board) returns (best: Option<Action>, score: int)
      requires Valid() && !IsTerminal(b) && Count(b, X) == Count(b, O)
      modifies this
      ensures Valid()
      ensures old(explored) <= explored
      ensures score == Value(b)
      ensures best.Some? && b[best.value.0][best.value.1] == Empty && ChildValue(b, best.value) == score
      decreases Count(b, Empty), 1
    {
      best, score := None, -2;
      var acts := Actions(b);
      var todo := acts;
      ghost var done: set<Action> := {};
      while todo != {}
        invariant todo <= acts && done == acts - todo
        invariant Valid() && old(explored) <= explored
        invariant best.None? ==> score == -2 && done == {}
        invariant best.Some? ==> best.value in done && ChildValue(b, best.value) == score
        invariant forall a :: a in done ==> ChildValue(b, a) <= score
        decreases todo
      {
        var a :| a in todo;
        todo, done := todo - {a}, done + {a};
        var hit, s := Score(b, a, false);
        if score < s {
          best, score := Some(a), s;
        }
        if hit {
          continue;
        }
        if score == 1 {
          break;
        }
      }
      assert score == Value(b) by {
        ValueOptimal(b);
        ValueRange(b);
      }
    }

    /** The best move for O and its score, symmetric to MaxValue: the scan
        stops at a score of -1. */
    method MinValue(b: Board) returns (best: Option<Action>, score: int)
      requires Valid() && !IsTerminal(b) && Count(b, X) == Count(b, O) + 1
      modifies this
      ensures Valid()
      ensures old(explored) <= explored
      ensures score == Value(b)
      ensures best.Some? && b[best.value.0][best.value.1] == Empty && ChildValue(b, best.value) == score
      decreases Count(b, Empty), 1
    {
      best, score := None, 2;
      var acts := Actions(b);
      var todo := acts;
      ghost var done: set<Action> := {};
      while todo != {}
        invariant todo <= acts && done == acts - todo
        invariant Valid() && old(explored) <= explored
        invariant best.None? ==> score == 2 && done == {}
        invariant best.Some? ==> best.value in done && ChildValue(b, best.value) == score
        invariant forall a :: a in done ==> score <= ChildValue(b, a)
        decreases todo
      {
        var a :| a in todo;
        todo, done := todo - {a}, done + {a};
        var hit, s := Score(b, a, true);
        if score > s {
          best, score := Some(a), s;
        }
        if hit {
          continue;
        }
        if score == -1 {
          break;
        }
      }
      assert score == Value(b) by {
        ValueOptimal(b);
        ValueRange(b);
      }
    }

    /** No move once the game is over; otherwise a move that keeps the
        board's value, found by the search for the player to move. */
    method Minimax(b: Board) returns (move: Option<Action>)
      requires Valid() && Balanced(b)
      modifies this
      ensures Valid()
      ensures old(explored) <= explored
      ensures move.None? <==> IsTerminal(b)
      ensures move.Some? ==> b[move.value.0][move.value.1] == Empty && ChildValue(b, move.value) == Value(b)
    {
      var over := Terminal(b);
      if over {
        return None;
      }
      var p := Player(b);
      var score;
      if p == X {
        move, score := MaxValue(b);
      } else {
        move, score := MinValue(b);
      }
    }
  }
}

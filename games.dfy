/**
 * One tic-tac-toe session (`Game_i` in gameServer.py): a 3x3 board that is
 * mutated in place, two player slots, a player count, the side whose turn it
 * is and the list of spectators. The game lock is erased: every method runs
 * as one atomic step.
 */
module Games {
  import opened Wrappers

  /** `TicTacToe.Nobody/Noughts/Crosses`: the owner of a cell, and the side whose go it is. */
  datatype Side = Nobody | Noughts | Crosses

  /** Opaque remote reference to a player or spectator. */
  type PlayerRef = nat

  /** A move handed to the spectator notifier (the remote fan-out itself is not modelled). */
  datatype Move = Move(side: Side, x: int, y: int)

  /**
   * The turn update of a successful move as the source writes it: after Noughts
   * moves nobody has the turn; after any other side, Crosses has it.
   */
  function NextTurn(side: Side): (next: Side)
    ensures next != Noughts
    ensures next == Nobody <==> side == Noughts
  {
    if side == Noughts then Nobody else Crosses
  }

  /** Python's `list.remove(x)`: drop the first occurrence of `x`, if any. */
  function RemoveFirst<T(==)>(s: seq<T>, x: T): (r: seq<T>)
    ensures x in s ==> |r| == |s| - 1 && multiset(r) == multiset(s) - multiset{x}
    ensures x !in s ==> r == s
  {
    if s == [] then []
    else if s[0] == x then
      assert s == [s[0]] + s[1..];
      s[1..]
    else
      assert s == [s[0]] + s[1..];
      [s[0]] + RemoveFirst(s[1..], x)
  }

  /** `list.remove` deletes exactly the first position that holds `x`. */
  lemma {:induction false} RemoveFirstAt<T>(s: seq<T>, x: T, i: nat)
    requires i < |s| && s[i] == x && x !in s[..i]
    ensures RemoveFirst(s, x) == s[..i] + s[i + 1..]
  {
    if i > 0 {
      assert s[1..][..i - 1] == s[1..i];
      assert x !in s[1..][..i - 1];
      RemoveFirstAt(s[1..], x, i - 1);
      assert s[1..][i - 1 + 1..] == s[i + 1..];
      assert s[..i] == [s[0]] + s[1..i];
    }
  }

  /**
   * A reference appended to a list it was not in is removed again by
   * `list.remove`: joining as a spectator and then leaving restores the list.
   */
  lemma {:induction false} RemoveFirstAppended<T>(s: seq<T>, x: T)
    requires x !in s
    ensures RemoveFirst(s + [x], x) == s
  {
    assert (s + [x])[|s|] == x;
    assert (s + [x])[..|s|] == s;
    RemoveFirstAt(s + [x], x, |s|);
    assert (s + [x])[|s| + 1..] == [];
  }

  class Game {
    const name: string
    /** `self.state`: the list of rows is never rebound, only its cells are written. */
    const board: array2<Side>
    var pNoughts: Option<PlayerRef>
    var pCrosses: Option<PlayerRef>
    var whoseGo: Side
    /** A Python int: `leave` decrements it unconditionally, so it can go below 0. */
    var players: int
    var spectators: seq<PlayerRef>
    /** The moves handed to `SpectatorNotifier.notifyMove`, in order. */
    var notified: seq<Move>

    /**
     * The board is 3x3, and no operation ever gives the turn to Noughts:
     * it starts as Nobody and `makeMove` only ever sets Nobody or Crosses.
     */
    ghost predicate Valid()
      reads this
    {
      board.Length0 == 3 && board.Length1 == 3 && whoseGo != Noughts
    }

    constructor (name: string)
      ensures Valid() && fresh(board)
      ensures this.name == name
      ensures forall i, j :: 0 <= i < 3 && 0 <= j < 3 ==> board[i, j] == Nobody
      ensures pNoughts == None && pCrosses == None && whoseGo == Nobody
      ensures players == 0 && spectators == [] && notified == []
    {
      this.name := name;
      board := new Side[3, 3]((_, _) => Nobody);
      pNoughts, pCrosses := None, None;
      whoseGo := Nobody;
      players := 0;
      spectators := [];
      notified := [];
    }

    /**
     * `join`: while fewer than two players are counted, the caller takes the
     * first empty slot (noughts before crosses; none if both are taken) and the
     * count goes up; otherwise the caller becomes a spectator. There is no
     * "game full" error and the turn is never handed out here.
     */
    method Join(p: PlayerRef) returns (asPlayer: bool)
      requires Valid()
      modifies this
      ensures Valid()
      ensures asPlayer == (old(players) < 2)
      ensures asPlayer ==> players == old(players) + 1 && spectators == old(spectators)
      ensures asPlayer && old(pNoughts).None? ==> pNoughts == Some(p) && pCrosses == old(pCrosses)
      ensures asPlayer && old(pNoughts).Some? && old(pCrosses).None? ==>
                pNoughts == old(pNoughts) && pCrosses == Some(p)
      ensures asPlayer && old(pNoughts).Some? && old(pCrosses).Some? ==>
                pNoughts == old(pNoughts) && pCrosses == old(pCrosses)
      ensures !asPlayer ==> spectators == old(spectators) + [p] && players == old(players)
      ensures !asPlayer ==> pNoughts == old(pNoughts) && pCrosses == old(pCrosses)
      ensures whoseGo == old(whoseGo) && notified == old(notified)
    {
      if players < 2 {
        if pNoughts.None? {
          pNoughts := Some(p);
        } else if pCrosses.None? {
          pCrosses := Some(p);
        }
        players := players + 1;
        asPlayer := true;
      } else {
        spectators := spectators + [p];
        asPlayer := false;
      }
    }

    /**
     * `leave`: clears the noughts slot if it holds `p`, else the crosses slot if
     * it holds `p`; decrements the count whatever `p` was; then removes `p` from
     * the spectators. `removed` is false when that removal raises ValueError,
     * which happens after the earlier updates have been made.
     */
    method Leave(p: PlayerRef) returns (removed: bool)
      requires Valid()
      modifies this
      ensures Valid()
      ensures pNoughts == (if old(pNoughts) == Some(p) then None else old(pNoughts))
      ensures pCrosses == (if old(pNoughts) != Some(p) && old(pCrosses) == Some(p) then None
                           else old(pCrosses))
      ensures players == old(players) - 1
      ensures removed == (p in old(spectators))
      ensures spectators == RemoveFirst(old(spectators), p)
      ensures whoseGo == old(whoseGo) && notified == old(notified)
    {
      if pNoughts == Some(p) {
        pNoughts := None;
      } else if pCrosses == Some(p) {
        pCrosses := None;
      }
      players := players - 1;
      removed := p in spectators;
      spectators := RemoveFirst(spectators, p);
    }

    /**
     * `makeMove`: succeeds exactly when it is `side`'s go and the cell is empty;
     * then it writes that one cell, updates the turn by `NextTurn` and hands the
     * move to the spectator notifier. The cell is only read on the mover's own
     * turn, so out of turn any coordinates give false. There is no win or draw detection. Since
     * the turn is never Noughts, a Noughts move always fails.
     */
    method MakeMove(side: Side, x: int, y: int) returns (ok: bool)
      requires Valid()
      requires whoseGo == side ==> 0 <= x < 3 && 0 <= y < 3
      modifies this, board
      ensures Valid()
      ensures ok == (old(whoseGo) == side && old(board[x, y]) == Nobody)
      ensures side == Noughts ==> !ok
      ensures ok ==> board[x, y] == side && whoseGo == NextTurn(side)
      ensures ok ==> notified == old(notified) + [Move(side, x, y)]
      ensures !ok ==> whoseGo == old(whoseGo)
      ensures !ok ==> forall i, j :: 0 <= i < 3 && 0 <= j < 3 ==> board[i, j] == old(board[i, j])
      ensures !ok ==> notified == old(notified)
      ensures forall i, j :: 0 <= i < 3 && 0 <= j < 3 && (i != x || j != y) ==>
                board[i, j] == old(board[i, j])
      ensures pNoughts == old(pNoughts) && pCrosses == old(pCrosses)
      ensures players == old(players) && spectators == old(spectators)
    {
      if whoseGo == side && board[x, y] == Nobody {
        board[x, y] := side;
        whoseGo := NextTurn(side);
        notified := notified + [Move(side, x, y)];
        ok := true;
      } else {
        ok := false;
      }
    }

    /** `getState`: the board, row by row (the model returns a copy, not the live rows). */
    function GetState(): (rows: seq<seq<Side>>)
      requires Valid()
      reads this, board
      ensures |rows| == 3
      ensures forall i :: 0 <= i < 3 ==> |rows[i]| == 3
      ensures forall i, j :: 0 <= i < 3 && 0 <= j < 3 ==> rows[i][j] == board[i, j]
    {
      seq(3, i requires 0 <= i < 3 reads this, board =>
        seq(3, j requires 0 <= j < 3 reads this, board => board[i, j]))
    }
  }
}

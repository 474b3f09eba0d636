/**
 * Walk-throughs over the classes, in the order a client would make the calls.
 * Each states what the source does with that sequence of calls, with the
 * locks erased (a successful move would block on the game lock in the source).
 */
module Scenarios {
  import opened Wrappers
  import opened Registry
  import opened Scavenging
  import opened Games
  import opened Factory

  /** A removed game's name stays taken: its adapter is never destroyed. */
  method RemovedNameStaysTaken() returns (first: NewGameResult, second: NewGameResult, listed: seq<GameInfo>)
    ensures first.Created? && second == NameInUse && listed == []
  {
    var f := new GameFactory();
    first := f.NewGame("g1");
    f.RemoveGame("g1");
    second := f.NewGame("g1");
    var cursor;
    listed, cursor := f.ListGames(10);
  }

  /**
   * Two players join; no turn is handed out, so Noughts cannot move. A move by
   * Nobody succeeds while the turn is Nobody and hands the turn to Crosses, who
   * then keeps it for every later move.
   */
  method TurnsAsWritten(a: PlayerRef, b: PlayerRef)
    returns (noughtsFirst: bool, nobody: bool, crosses1: bool, crosses2: bool, noughtsLater: bool)
    ensures !noughtsFirst && nobody && crosses1 && crosses2 && !noughtsLater
  {
    var g := new Game("g1");
    var joinedA := g.Join(a);
    var joinedB := g.Join(b);
    assert g.pNoughts == Some(a) && g.pCrosses == Some(b) && g.whoseGo == Nobody;
    noughtsFirst := g.MakeMove(Noughts, 1, 1);
    nobody := g.MakeMove(Nobody, 0, 0);
    crosses1 := g.MakeMove(Crosses, 1, 1);
    crosses2 := g.MakeMove(Crosses, 2, 2);
    noughtsLater := g.MakeMove(Noughts, 0, 1);
  }

  /**
   * A third joiner becomes a spectator; when it leaves, the player count drops
   * although no player left, and the next joiner is counted as a player
   * without getting a slot.
   */
  method SpectatorLeaveFreesCount(a: PlayerRef, b: PlayerRef, c: PlayerRef, d: PlayerRef)
    returns (asPlayerC: bool, removedC: bool, asPlayerD: bool, count: int)
    requires a != c && b != c
    ensures !asPlayerC && removedC && asPlayerD && count == 2
  {
    var g := new Game("g1");
    var joinedA := g.Join(a);
    var joinedB := g.Join(b);
    asPlayerC := g.Join(c);
    removedC := g.Leave(c);
    assert g.players == 1 && g.pNoughts == Some(a) && g.pCrosses == Some(b);
    asPlayerD := g.Join(d);
    count := g.players;
  }

  /**
   * Three games listed one per page: the first page and the cursor's page give
   * all three in registration order, and the cursor is then exhausted.
   */
  method ListThenPage() returns (first: seq<GameInfo>, second: seq<GameInfo>, more: int)
    ensures |first| == 1 && |second| == 2 && more == 0
    ensures first[0].name == "a" && second[0].name == "b" && second[1].name == "c"
  {
    var f := new GameFactory();
    var ra := f.NewGame("a");
    assert f.games[0].name == "a";
    var rb := f.NewGame("b");
    assert f.games[1].name == "b";
    var rc := f.NewGame("c");
    assert |f.games| == 3 && f.games[2].name == "c";
    var cursor;
    first, cursor := f.ListGames(1);
    var it := f.iterators[cursor.value];
    second, more := it.NextN(5);
    assert first + second == Infos(f.games);
  }

  /** Two sweeps with no `next_n` in between reap any cursor. */
  method IdleCursorGone(scavenger: IteratorScavenger, iid: IterId)
    requires scavenger.factory.Valid()
    modifies scavenger.factory, scavenger.factory.iterators.Values
    ensures scavenger.factory.Valid()
    ensures iid !in scavenger.factory.iterators
  {
    scavenger.Scavenge();
    scavenger.Scavenge();
    assert iid !in scavenger.factory.Ticks();
  }
}

/**
 * The game factory (`GameFactory_i`), its listing cursors (`GameIterator_i`)
 * and the scavenger that reaps idle cursors (`IteratorScavenger`). The
 * factory lock is erased; each method is one atomic step. Object adapters
 * are modelled by a counter that mints fresh references and by the set of
 * game names whose adapter already exists.
 */
module Factory {
  import opened Wrappers
  import opened Registry
  import opened Scavenging
  import Games

  /** The outcome of `newGame`: a reference to the new game, or `NameInUse`. */
  datatype NewGameResult = Created(ref: ObjRef) | NameInUse

  /** A cursor over a snapshot of the registry (`GameIterator_i`). */
  class GameIterator {
    /** The entries not yet returned. */
    var games: seq<GameEntry>
    /** 1 if used since the last sweep (or just created), 0 once a sweep has seen it idle. */
    var tick: int

    constructor (games: seq<GameEntry>)
      ensures this.games == games && tick == 1
    {
      this.games := games;
      tick := 1;
    }

    /**
     * `next_n`: returns the first `howMany` remaining entries (all of them if
     * fewer remain), keeps the rest, marks the cursor as used, and reports 1
     * when entries remain, 0 otherwise. An exhausted cursor returns an empty
     * page and 0.
     */
    method NextN(howMany: nat) returns (page: seq<GameInfo>, more: int)
      modifies this
      ensures tick == 1
      ensures |page| == Min(howMany, |old(games)|)
      ensures page + Infos(games) == Infos(old(games))
      ensures games == Rest(old(games), howMany)
      ensures more == 1 <==> games != []
      ensures more == 0 <==> games == []
      ensures old(games) == [] ==> page == [] && more == 0
    {
      tick := 1;
      var front := Front(games, howMany);
      games := Rest(games, howMany);
      page := Infos(front);
      more := if games != [] then 1 else 0;
      InfosConcat(front, games);
    }
  }

  class GameFactory {
    /** The registry, in registration order. */
    var games: seq<GameEntry>
    /** The live cursors, by iterator id. */
    var iterators: map<IterId, GameIterator>
    /** Names whose per-game adapter exists; adapters are never destroyed. */
    var usedNames: set<string>
    /** The next fresh reference the object adapters hand out. */
    var nextHandle: nat

    /**
     * Registered names are distinct and taken; every reference and iterator id
     * was minted; distinct ids denote distinct cursor objects.
     */
    ghost predicate Valid()
      reads this
    {
      NamesDistinct(games)
      && (forall i :: 0 <= i < |games| ==> games[i].name in usedNames && games[i].ref < nextHandle)
      && (forall id :: id in iterators ==> id < nextHandle)
      && (forall a, b :: a in iterators && b in iterators && a != b ==> iterators[a] != iterators[b])
    }

    /** The tick of every live cursor: the map the scavenger sweeps. */
    ghost function Ticks(): map<IterId, int>
      reads this, iterators.Values
    {
      map id | id in iterators :: iterators[id].tick
    }

    constructor ()
      ensures Valid()
      ensures games == [] && iterators == map[] && usedNames == {}
    {
      games := [];
      iterators := map[];
      usedNames := {};
      nextHandle := 0;
    }

    /**
     * `newGame`: a name whose adapter already exists is refused with
     * `NameInUse` and nothing changes (this includes names of games that
     * were removed); otherwise a fresh game is appended at the end of the
     * registry and its reference returned.
     */
    method NewGame(name: string) returns (r: NewGameResult)
      requires Valid()
      modifies this
      ensures Valid()
      ensures r == NameInUse <==> name in old(usedNames)
      ensures r == NameInUse ==> games == old(games) && usedNames == old(usedNames)
      ensures r.Created? ==> usedNames == old(usedNames) + {name}
      ensures r.Created? ==> |games| == |old(games)| + 1 && games[..|old(games)|] == old(games)
      ensures r.Created? ==> games[|old(games)|].name == name && games[|old(games)|].ref == r.ref
      ensures r.Created? ==> r.ref !in old(set i | 0 <= i < |games| :: games[i].ref)
      ensures r.Created? ==> fresh(games[|old(games)|].servant)
      ensures r.Created? ==> games[|old(games)|].servant.Valid()
      ensures r.Created? ==> games[|old(games)|].servant.name == name
      ensures r.Created? ==> games[|old(games)|].servant.players == 0
      ensures r.Created? ==> games[|old(games)|].servant.whoseGo == Games.Nobody
      ensures r.Created? ==> games[|old(games)|].servant.pNoughts == None
      ensures r.Created? ==> games[|old(games)|].servant.pCrosses == None
      ensures r.Created? ==> games[|old(games)|].servant.spectators == []
      ensures r.Created? ==> games[|old(games)|].servant.notified == []
      ensures r.Created? ==> var g := games[|old(games)|].servant;
                forall i, j :: 0 <= i < 3 && 0 <= j < 3 ==> g.board[i, j] == Games.Nobody
      ensures iterators == old(iterators)
    {
      if name in usedNames {
        return NameInUse;
      }
      usedNames := usedNames + {name};
      var servant := new Games.Game(name);
      var ref := nextHandle;
      nextHandle := nextHandle + 1;
      games := games + [GameEntry(name, servant, ref)];
      r := Created(ref);
    }

    /**
     * `listGames`: returns the first `howMany` entries of the registry as
     * `GameInfo`s; when entries remain, registers a fresh cursor over exactly
     * those (with tick 1) and returns its id, otherwise returns no cursor.
     */
    method ListGames(howMany: nat) returns (page: seq<GameInfo>, cursor: Option<IterId>)
      requires Valid()
      modifies this
      ensures Valid()
      ensures games == old(games) && usedNames == old(usedNames)
      ensures page == Infos(Front(games, howMany))
      ensures cursor.Some? <==> |games| > howMany
      ensures cursor.None? ==> iterators == old(iterators)
      ensures cursor.Some? ==> cursor.value !in old(iterators) && cursor.value in iterators
      ensures cursor.Some? ==> iterators == old(iterators)[cursor.value := iterators[cursor.value]]
      ensures cursor.Some? ==> fresh(iterators[cursor.value])
      ensures cursor.Some? ==> iterators[cursor.value].games == Rest(games, howMany)
      ensures Ticks() == if cursor.Some? then Step(old(Ticks()), Register(cursor.value)) else old(Ticks())
    {
      var front := Front(games, howMany);
      var rest := Rest(games, howMany);
      page := Infos(front);
      if rest != [] {
        var it := new GameIterator(rest);
        var iid := ActivateIterator(it);
        cursor := Some(iid);
      } else {
        cursor := None;
      }
    }

    /** Activates a new cursor under a fresh id and registers it. */
    method ActivateIterator(it: GameIterator) returns (iid: IterId)
      requires Valid()
      requires it !in iterators.Values
      modifies this
      ensures Valid()
      ensures iid !in old(iterators) && iterators == old(iterators)[iid := it]
      ensures Ticks() == old(Ticks())[iid := it.tick]
      ensures games == old(games) && usedNames == old(usedNames)
    {
      iid := nextHandle;
      nextHandle := nextHandle + 1;
      iterators := iterators[iid := it];
      assert Ticks().Keys == old(Ticks()).Keys + {iid};
    }

    /**
     * `next_n` called on the cursor registered under `iid`: the cursor's page
     * and flag, and on the tick map exactly the `Touch` step.
     */
    method NextOnCursor(iid: IterId, howMany: nat) returns (page: seq<GameInfo>, more: int)
      requires Valid() && iid in iterators
      modifies iterators[iid]
      ensures Valid()
      ensures Ticks() == Step(old(Ticks()), Touch(iid))
      ensures page + Infos(iterators[iid].games) == Infos(old(iterators[iid].games))
      ensures iterators[iid].games == Rest(old(iterators[iid].games), howMany)
      ensures more == 1 <==> iterators[iid].games != []
    {
      page, more := iterators[iid].NextN(howMany);
    }

    /**
     * `_removeGame`: keeps every entry whose name differs, in order. The
     * name stays taken.
     */
    method RemoveGame(name: string)
      requires Valid()
      modifies this
      ensures Valid()
      ensures games == WithoutName(old(games), name)
      ensures forall i :: 0 <= i < |games| ==> games[i].name != name
      ensures iterators == old(iterators) && usedNames == old(usedNames)
    {
      WithoutNameDistinct(games, name);
      WithoutNameSubset(games, name);
      ghost var before := games;
      games := WithoutName(games, name);
      forall i | 0 <= i < |games|
        ensures games[i].name in usedNames && games[i].ref < nextHandle
      {
        assert games[i] in before;
      }
    }

    /**
     * `_removeIterator`: deletes that id from the live cursors; `found` is false
     * when the id is not registered (the source's KeyError), and then nothing
     * changes.
     */
    method RemoveIterator(iid: IterId) returns (found: bool)
      requires Valid()
      modifies this
      ensures Valid()
      ensures found == (iid in old(iterators))
      ensures iterators == old(iterators) - {iid}
      ensures Ticks() == Step(old(Ticks()), Unregister(iid))
      ensures games == old(games) && usedNames == old(usedNames)
    {
      found := iid in iterators;
      iterators := iterators - {iid};
    }
  }

  /** The background sweep over the factory's cursors (`IteratorScavenger`). */
  class IteratorScavenger {
    const factory: GameFactory

    constructor (factory: GameFactory)
      ensures this.factory == factory
    {
      this.factory := factory;
    }

    /**
     * One wake-up of the scavenger's loop: every cursor with tick 1 is kept
     * with tick 0, every other cursor is unregistered; nothing else changes.
     */
    method Scavenge()
      requires factory.Valid()
      modifies factory, factory.iterators.Values
      ensures factory.Valid()
      ensures factory.Ticks() == Sweep(old(factory.Ticks()))
      ensures forall id :: id in factory.iterators ==>
                id in old(factory.iterators) && factory.iterators[id] == old(factory.iterators[id])
      ensures forall id :: id in old(factory.iterators) ==>
                old(factory.iterators)[id].games == old(factory.iterators[id].games)
      ensures factory.games == old(factory.games) && factory.usedNames == old(factory.usedNames)
      ensures factory.nextHandle == old(factory.nextHandle)
    {
      var pending := factory.iterators.Keys;
      while pending != {}
        invariant pending <= old(factory.iterators).Keys
        invariant factory.games == old(factory.games) && factory.usedNames == old(factory.usedNames)
        invariant factory.nextHandle == old(factory.nextHandle)
        invariant forall id :: id in factory.iterators <==>
                    id in old(factory.iterators) && (id in pending || old(factory.iterators[id].tick) == 1)
        invariant forall id :: id in factory.iterators ==> factory.iterators[id] == old(factory.iterators)[id]
        invariant forall id :: id in pending ==>
                    old(factory.iterators)[id].tick == old(factory.iterators[id].tick)
        invariant forall id :: id in factory.iterators && id !in pending ==> factory.iterators[id].tick == 0
        invariant forall id :: id in old(factory.iterators) ==>
                    old(factory.iterators)[id].games == old(factory.iterators[id].games)
        decreases pending
      {
        var id :| id in pending;
        var it := factory.iterators[id];
        if it.tick == 1 {
          it.tick := 0;
        } else {
          factory.iterators := factory.iterators - {id};
        }
        pending := pending - {id};
      }
    }
  }
}

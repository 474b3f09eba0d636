# Tic-tac-toe game server: registry, cursors, scavenger and game state

This project models the in-memory bookkeeping of a CORBA tic-tac-toe game
server (`gameServer.py`, the Python 3 copy at lines 131-317) and proves
properties of it. The locks are erased, so each operation is one atomic step.

- **Game factory** (`Factory.GameFactory`): an ordered registry of
  `(name, servant, ref)` entries and a map of live listing cursors. `NewGame`
  refuses a name whose object adapter already exists (`NameInUse`); adapters
  are never destroyed, so a removed game's name stays taken. `ListGames(n)`
  returns the first `n` entries as `GameInfo`s and registers a cursor over the
  rest only when the rest is non-empty. `RemoveGame` filters the registry by
  name; `RemoveIterator` deletes a cursor id and reports the source's KeyError.
- **Listing cursor** (`Factory.GameIterator`): `NextN(n)` pops the front of
  its snapshot, sets `tick` to 1 and reports 1 while entries remain.
- **Scavenger** (`Factory.IteratorScavenger.Scavenge`): one wake-up of the
  scavenger loop, a loop over the live cursors that demotes tick 1 to 0 and
  unregisters the rest. `Scavenging` models it as a step on the map from
  cursor id to tick, together with what happens between sweeps (touch,
  register, unregister), and proves the lifetime of a cursor: one that sees
  no `next_n` between two consecutive sweeps is gone after the second, and
  one touched in every interval survives.
- **Game** (`Games.Game`): a 3x3 board updated in place, two player slots,
  a player count, the side to move and the spectator list, with `Join`,
  `Leave`, `MakeMove` and `GetState` as the code writes them.

The model follows the code where the code differs from the design the game
was meant to have. There is no win or draw detection and no "game full"
error: a third joiner becomes a spectator. The second join does not hand the
turn to Noughts. After a successful move the turn becomes Nobody if Noughts
moved and Crosses otherwise (gameServer.py:288). So the turn is never
Noughts (an invariant of `Games.Game.Valid`), and a Noughts move always
fails. While the turn is Nobody, a move by Nobody succeeds and hands the turn
to Crosses, who then keeps it. `leave` decrements the player count whoever
leaves, so a spectator leaving frees a player place. Cursor removal is not
idempotent: a second `_removeIterator` raises KeyError.
`Scenarios` walks through these behaviours call by call, with the locks
erased (see Left out).

Object references and cursor ids are opaque numbers minted by a counter
(`nextHandle`), standing for the object adapter's `activate_object`. The
moves handed to the spectator notifier are recorded, in order, in the field
`Games.Game.notified`.

## Model

| member | source | states |
|---|---|---|
| `Games.NextTurn` | gameServer.py:288 | the turn after a successful move is never Noughts; it is Nobody exactly when Noughts moved |
| `Games.RemoveFirst` | gameServer.py:281 | `list.remove` drops one occurrence of a present element (length and multiset drop by one) and changes nothing when it is absent |
| `Games.RemoveFirstAt` | gameServer.py:281 | the element removed is the first occurrence: the result is the list without that position |
| `Games.RemoveFirstAppended` | gameServer.py:271-281 | for a reference not already a spectator, appending it as a spectator and then removing it leaves the spectator list as it was |
| `Games.Game.constructor` | gameServer.py:247-259 | a new game has an all-Nobody 3x3 board, no players, turn Nobody, count 0 and no spectators |
| `Games.Game.Join` | gameServer.py:261-272 | below two players the caller takes the first empty slot (noughts first) and the count rises, returning true; otherwise it is appended to the spectators, false is returned and nothing else changes; the turn never changes |
| `Games.Game.Leave` | gameServer.py:274-281 | clears the noughts slot if it holds the caller, else the crosses slot; decrements the count unconditionally; removes the caller's first spectator entry, reporting failure when there is none, after the other updates |
| `Games.Game.MakeMove` | gameServer.py:283-294 | succeeds iff it is that side's turn and the cell is empty (out of turn, for any coordinates, it fails); on success writes exactly that cell, sets the turn to `NextTurn(side)` and notifies the move; on failure the board and turn are unchanged; a Noughts move always fails |
| `Games.Game.GetState` | gameServer.py:296-298 | returns the 3x3 board cell by cell |
| `Registry.Infos` | gameServer.py:175 | one `GameInfo(name, ref)` per entry, position by position |
| `Registry.Front` | gameServer.py:172 | slicing `[:n]` yields the first `min(n, len)` entries, a prefix of the list |
| `Registry.Rest` | gameServer.py:173 | slicing `[n:]` yields the remaining entries, and front followed by rest is the whole list |
| `Registry.ListingSplits` | gameServer.py:170-186 | the page returned by `listGames(n)` followed by the cursor's snapshot is the whole registry; the page has `min(n, len)` entries; a cursor exists iff more than `n` games are registered |
| `Registry.Paginate` | gameServer.py:208-216 | successive `next_n(sizes[k])` calls: one page per call, page `k` holds at most `sizes[k]` entries, and what remains is no longer than the snapshot |
| `Registry.PaginateLosesNothing` | gameServer.py:208-216 | the pages of successive `next_n` calls, in order, followed by what remains, are the cursor's snapshot: nothing lost, duplicated or reordered |
| `Registry.PaginateGreedy` | gameServer.py:208-216 | each page holds exactly what was asked for unless the cursor ran out: a short page leaves nothing, and every later page is empty; with `PaginateLosesNothing` this fixes every page at `min(n, remaining)` entries |
| `Registry.PaginateEmpty` | gameServer.py:208-216 | `next_n` on an exhausted cursor returns only empty pages |
| `Registry.PaginateDrains` | gameServer.py:208-216 | a cursor asked for at least one entry per call is empty after as many calls as it had entries |
| `Registry.ListingThenPaging` | gameServer.py:170-216 | the first listing page, the cursor's pages and its remainder together are the registry at the time of the listing, in registration order |
| `Registry.WithoutName` | gameServer.py:188-190 | the filtered registry has no entry with the removed name and is no longer than before |
| `Registry.WithoutNameCounts` | gameServer.py:188-190 | every entry with another name is kept as often as it occurred; entries with the name are dropped |
| `Registry.WithoutNameSubset` | gameServer.py:188-190 | the filter only keeps entries that were registered |
| `Registry.WithoutNameConcat` | gameServer.py:188-190 | the filter distributes over concatenation, so kept entries stay in their relative order |
| `Registry.WithoutNameAbsent` | gameServer.py:188-190 | removing a name no entry has is a no-op |
| `Registry.WithoutNameIdempotent` | gameServer.py:188-190 | removing a name twice equals removing it once |
| `Registry.WithoutNameDistinct` | gameServer.py:188-190 | removal keeps registered names distinct |
| `Registry.WithoutNameRemovesOne` | gameServer.py:188-190 | with distinct names, removing entry `i`'s name removes exactly entry `i` and keeps the rest in order |
| `Scavenging.Sweep` | gameServer.py:236-243 | a sweep keeps exactly the cursors whose tick is 1, each now with tick 0, and removes every other one |
| `Scavenging.Step` | gameServer.py:170-216 | `next_n` sets a registered cursor's tick to 1, `listGames` registers a cursor with tick 1, `_removeIterator` removes the id; every other cursor keeps its tick |
| `Scavenging.Run` | gameServer.py:232-243 | each wake-up of the scavenger follows an interval of activity; after at least one sweep every surviving cursor has tick 0 |
| `Scavenging.IdleStaysCold` | gameServer.py:202-243 | a cursor nobody touches or registers keeps tick 0 or stays gone |
| `Scavenging.IdleCursorReaped` | gameServer.py:236-243 | a cursor with no `next_n` between two consecutive sweeps is gone after the second |
| `Scavenging.TwoIdleSweepsReapAll` | gameServer.py:236-243 | with no activity, two sweeps remove every cursor |
| `Scavenging.HotStaysHot` | gameServer.py:202-216 | a cursor with tick 1 keeps tick 1 until a sweep, unless it is removed |
| `Scavenging.TouchMakesHot` | gameServer.py:209 | a registered cursor that is used in an interval ends the interval with tick 1 |
| `Scavenging.TouchedCursorSurvives` | gameServer.py:209-243 | a cursor used in every interval and never removed survives any number of sweeps |
| `Factory.GameIterator.constructor` | gameServer.py:198-203 | a new cursor holds its snapshot and starts with tick 1 |
| `Factory.GameIterator.NextN` | gameServer.py:208-216 | returns the infos of the first `min(n, len)` remaining entries, keeps the rest, sets tick to 1, and reports 1 iff entries remain; an exhausted cursor returns an empty page and 0 |
| `Factory.GameFactory.constructor` | gameServer.py:142-152 | a new factory has no games, no cursors and no used names |
| `Factory.GameFactory.NewGame` | gameServer.py:154-168 | a used name gives `NameInUse` and leaves the registry unchanged; otherwise exactly one entry for a fresh game with that name and a fresh reference is appended and earlier entries are unchanged; the new game has an empty board, turn Nobody, empty slots, count 0 and no spectators; names stay distinct |
| `Factory.GameFactory.ListGames` | gameServer.py:170-186 | returns the infos of the first `n` entries; registers a fresh cursor with tick 1 over exactly the rest iff the rest is non-empty; the registry is unchanged |
| `Factory.GameFactory.ActivateIterator` | gameServer.py:178-182 | registers a cursor under an id not in use, leaving other cursors as they were |
| `Factory.GameFactory.NextOnCursor` | gameServer.py:208-216 | `next_n` on the cursor registered under an id performs exactly the `Touch` step on the tick map, returns that cursor's front page and keeps its rest |
| `Factory.GameFactory.RemoveGame` | gameServer.py:188-190 | the registry becomes the name filter of the old one; cursors and used names are unchanged |
| `Factory.GameFactory.RemoveIterator` | gameServer.py:192-194 | deletes exactly that id from the cursors, reporting when it was not registered |
| `Factory.IteratorScavenger.constructor` | gameServer.py:225-228 | the scavenger is bound to its factory (the thread start is not modelled) |
| `Factory.IteratorScavenger.Scavenge` | gameServer.py:236-243 | the cursors' ticks become `Sweep` of the old ticks; kept cursors are the same objects with the same snapshots; the registry is untouched |
| `Scenarios.RemovedNameStaysTaken` | gameServer.py:154-190 | creating, removing and re-creating a game name gives `NameInUse`, and the removed game is no longer listed |
| `Scenarios.TurnsAsWritten` | gameServer.py:261-294 | with the locks erased, after two joins Noughts cannot move; a Nobody move succeeds; Crosses then moves repeatedly; Noughts still cannot move |
| `Scenarios.SpectatorLeaveFreesCount` | gameServer.py:261-281 | a spectator leaving lowers the player count, so the next joiner counts as a player without a slot |
| `Scenarios.ListThenPage` | gameServer.py:170-216 | listing three games one per page and paging the cursor returns them all, in registration order, and exhausts it |
| `Scenarios.IdleCursorGone` | gameServer.py:236-243 | two consecutive sweeps with no use in between leave no cursor under a given id |

## Left out

- CORBA object adapters and naming (`create_POA`, `activate_object`, `id_to_reference`, `servant_to_id`, `deactivate_object`, POA manager activation): foreign calls. References and ids are fresh numbers from a counter, and an existing adapter is a name in `usedNames`.
- `GameIterator_i.destroy` (gameServer.py:218-221): it looks up its own id in the adapter and then calls `_removeIterator`, which `RemoveIterator` models.
- Locks, the scavenger's daemon thread and `time.sleep(SCAVENGER_INTERVAL)`: concurrency and wall-clock time. Sweeps are modelled as steps with the activity between them. In the source, `makeMove` calls `notifyMove` while holding the game lock, and `notifyMove` takes the same non-reentrant lock again (gameServer.py:284, 315). A successful move would therefore block; the sequential model does not show this.
- `SpectatorNotifier.notifyMove` remote calls (gameServer.py:314-317): foreign calls. A successful move is only recorded in the log `notified`.
- `getPlayers` and `getSpectators` (gameServer.py:300-306): plain reads of the fields `pNoughts`, `pCrosses` and `spectators`, which the model exposes directly.
- `print` output and `__del__`: no effect on state.
- The older copy at gameServer.py:1-131 is not part of this model.
- Games.Game.MakeMove: on the mover's own turn it requires `0 <= x, y < 3`. There the source would read the cell at an index from -3 to -1 by counting from the end, and raise IndexError for any other index outside 0..2; neither is modelled. Out of turn the cell is never read, and the model, like the source, returns false for any coordinates.
- Games.Game.GetState: returns a copy of the board; the source returns the live nested list, so a caller could change the board through it.
- Games.Game.Leave: the ValueError from `list.remove` is reported as `removed == false` rather than raised; the updates made before it are kept, as in the source.
- Games.Game.Join: player references are never nil; comparisons with a nil reference are not modelled.
- Factory.GameFactory.ListGames: `howMany` is a natural number; a negative count, which Python slicing would count from the end, is not modelled.
- Factory.GameIterator.NextN: `howMany` is a natural number, as for `ListGames`.
- Factory.GameFactory.RemoveIterator: the KeyError is reported as `found == false` rather than raised.

/**
 * The iterator scavenger as a step on the map from iterator id to `tick`.
 * A sweep demotes every iterator whose tick is 1 to 0 and removes every other
 * one. Between two sweeps the factory and the iterators act on the same map:
 * `next_n` touches an iterator, `listGames` registers one, `_removeIterator`
 * unregisters one. From these the two-interval lifetime of an idle cursor
 * follows.
 */
module Scavenging {

  /** Opaque id of an activated iterator. */
  type IterId = nat

  /** One pass of the scavenger's loop over `iterators`. */
  function Sweep(ticks: map<IterId, int>): (swept: map<IterId, int>)
    ensures forall id :: id in swept <==> id in ticks && ticks[id] == 1
    ensures forall id :: id in swept ==> swept[id] == 0
  {
    map id | id in ticks && ticks[id] == 1 :: 0
  }

  /** What can happen to the map between two sweeps. */
  datatype Activity =
    | Touch(id: IterId)       // next_n on a registered iterator sets its tick to 1
    | Register(id: IterId)    // listGames registers a new iterator with tick 1
    | Unregister(id: IterId)  // _removeIterator deletes the key

  function Step(ticks: map<IterId, int>, a: Activity): (r: map<IterId, int>)
    ensures forall k :: k in ticks && k != a.id ==> k in r && r[k] == ticks[k]
    ensures forall k :: k in r && k != a.id ==> k in ticks
    ensures a.Touch? ==> (a.id in r <==> a.id in ticks) && (a.id in r ==> r[a.id] == 1)
    ensures a.Register? ==> a.id in r && r[a.id] == 1
    ensures a.Unregister? ==> a.id !in r
  {
    match a
    case Touch(id) => if id in ticks then ticks[id := 1] else ticks
    case Register(id) => ticks[id := 1]
    case Unregister(id) => ticks - {id}
  }

  function Apply(ticks: map<IterId, int>, acts: seq<Activity>): map<IterId, int>
    decreases |acts|
  {
    if acts == [] then ticks else Apply(Step(ticks, acts[0]), acts[1..])
  }

  /** Each interval's activity followed by a sweep. */
  function Run(ticks: map<IterId, int>, intervals: seq<seq<Activity>>): (r: map<IterId, int>)
    decreases |intervals|
    ensures intervals != [] ==> forall id :: id in r ==> r[id] == 0
  {
    if intervals == [] then ticks else Run(Sweep(Apply(ticks, intervals[0])), intervals[1..])
  }

  /** An iterator nobody touches or registers keeps a tick of 0, or stays gone. */
  lemma {:induction false} IdleStaysCold(ticks: map<IterId, int>, acts: seq<Activity>, id: IterId)
    requires id in ticks ==> ticks[id] == 0
    requires forall k :: 0 <= k < |acts| ==> acts[k] != Touch(id) && acts[k] != Register(id)
    ensures id in Apply(ticks, acts) ==> Apply(ticks, acts)[id] == 0
    decreases |acts|
  {
    if acts != [] {
      IdleStaysCold(Step(ticks, acts[0]), acts[1..], id);
    }
  }

  /**
   * An iterator that sees no `next_n` between two consecutive sweeps is gone
   * after the second, whatever happened before the first.
   */
  lemma IdleCursorReaped(ticks: map<IterId, int>, before: seq<Activity>, between: seq<Activity>,
                         id: IterId)
    requires forall k :: 0 <= k < |between| ==> between[k] != Touch(id) && between[k] != Register(id)
    ensures id !in Run(ticks, [before, between])
  {
    var afterFirst := Sweep(Apply(ticks, before));
    IdleStaysCold(afterFirst, between, id);
    calc {
      Run(ticks, [before, between]);
      { assert [before, between][1..] == [between]; }
      Run(afterFirst, [between]);
      { assert [between][1..] == []; }
      Sweep(Apply(afterFirst, between));
    }
  }

  /** Without any activity, two sweeps empty the map. */
  lemma TwoIdleSweepsReapAll(ticks: map<IterId, int>)
    ensures Run(ticks, [[], []]) == map[]
  {
    forall id | true
      ensures id !in Run(ticks, [[], []])
    {
      IdleCursorReaped(ticks, [], [], id);
    }
  }

  /** A hot iterator (tick 1) that is not unregistered stays hot. */
  lemma {:induction false} HotStaysHot(ticks: map<IterId, int>, acts: seq<Activity>, id: IterId)
    requires id in ticks && ticks[id] == 1
    requires forall k :: 0 <= k < |acts| ==> acts[k] != Unregister(id)
    ensures id in Apply(ticks, acts) && Apply(ticks, acts)[id] == 1
    decreases |acts|
  {
    if acts != [] {
      HotStaysHot(Step(ticks, acts[0]), acts[1..], id);
    }
  }

  /** A registered iterator that is touched and not unregistered ends the interval hot. */
  lemma {:induction false} TouchMakesHot(ticks: map<IterId, int>, acts: seq<Activity>, id: IterId)
    requires id in ticks
    requires Touch(id) in acts
    requires forall k :: 0 <= k < |acts| ==> acts[k] != Unregister(id)
    ensures id in Apply(ticks, acts) && Apply(ticks, acts)[id] == 1
    decreases |acts|
  {
    if acts[0] == Touch(id) {
      HotStaysHot(Step(ticks, acts[0]), acts[1..], id);
    } else {
      TouchMakesHot(Step(ticks, acts[0]), acts[1..], id);
    }
  }

  /**
   * A cursor that is used at least once in every interval, and not destroyed,
   * survives any number of sweeps.
   */
  lemma {:induction false} TouchedCursorSurvives(ticks: map<IterId, int>, intervals: seq<seq<Activity>>,
                                                 id: IterId)
    requires id in ticks
    requires forall n :: 0 <= n < |intervals| ==> Touch(id) in intervals[n]
    requires forall n, k :: 0 <= n < |intervals| && 0 <= k < |intervals[n]| ==>
               intervals[n][k] != Unregister(id)
    ensures id in Run(ticks, intervals)
    decreases |intervals|
  {
    if intervals != [] {
      TouchMakesHot(ticks, intervals[0], id);
      TouchedCursorSurvives(Sweep(Apply(ticks, intervals[0])), intervals[1..], id);
    }
  }
}

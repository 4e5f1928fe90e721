/**
 * Properties of the batch driver's fold: what one timestamp does to the visits and the
 * active set, the fire clock, the layout of the rows, the burnout, the intensity, when
 * the run aborts, and the ranges of the readings it emits.
 */
module SimulationFacts {
  import opened Wrappers
  import opened Seasons
  import opened Sensors
  import opened Simulation

  // ---------------------------------------------------------------------------------
  // Neighbours

  /** The neighbour ids of node among the first m nodes are exactly the ids of those near it. */
  lemma {:induction false} NearIdsMembers(nodes: seq<Node>, node: Node, m: nat)
    requires m <= |nodes|
    ensures forall id :: id in NearIds(nodes, node, m) <==>
              exists j :: 0 <= j < m && nodes[j].id == id && Near(nodes[j], node)
  {
    if m > 0 {
      NearIdsMembers(nodes, node, m - 1);
    }
  }

  /** Being neighbours is symmetric, and every node of the list is among its own neighbours. */
  lemma SpreadReachesSelf(nodes: seq<Node>, k: nat)
    requires k < |nodes|
    ensures nodes[k].id in NearIds(nodes, nodes[k], |nodes|)
    ensures forall j :: 0 <= j < |nodes| ==> Near(nodes[j], nodes[k]) == Near(nodes[k], nodes[j])
  {
    NearIdsMembers(nodes, nodes[k], |nodes|);
    assert Near(nodes[k], nodes[k]);
  }

  // ---------------------------------------------------------------------------------
  // One timestamp

  /** The visits of the first k nodes at ts: appended in node order, and the clock untouched. */
  lemma {:induction false} VisitNodesShape(b: Batch, ts: int, k: nat, s: Sim)
    requires k <= |b.nodes| && VisitNodes(b, ts, k, s).Ok?
    ensures var s' := VisitNodes(b, ts, k, s).value;
            && s'.elapsed == s.elapsed
            && |s'.visits| == |s.visits| + k
            && s'.visits[..|s.visits|] == s.visits
            && (forall j :: |s.visits| <= j < |s'.visits| ==>
                  && s'.visits[j].timestamp == ts
                  && s'.visits[j].index == j - |s.visits|
                  && s'.visits[j].node == b.nodes[j - |s.visits|])
            && s.active <= s'.active
  {
    if k > 0 {
      VisitNodesShape(b, ts, k - 1, s);
      var p := VisitNodes(b, ts, k - 1, s).value;
      var s' := VisitNodes(b, ts, k, s).value;
      assert s'.visits[..|p.visits|] == p.visits;
      assert s'.visits[..|s.visits|] == p.visits[..|s.visits|];
    }
  }

  /**
   * A node of the tick burns only once the fire has started and when the active set, as
   * the tick leaves it, holds its id; a node whose id was active when the tick began burns
   * once the fire has started. A burning node has the intensity of the tick's fire time,
   * any other node intensity 0.
   */
  lemma {:induction false} VisitNodesFire(b: Batch, ts: int, k: nat, s: Sim)
    requires k <= |b.nodes| && VisitNodes(b, ts, k, s).Ok?
    ensures var s' := VisitNodes(b, ts, k, s).value;
            forall j :: |s.visits| <= j < |s'.visits| ==>
              var v := s'.visits[j];
              && (v.fire ==> ts >= b.fire.startTime && v.node.id in s'.active && FireDuration(b) != 0
                             && v.intensity == Intensity(s.elapsed, FireDuration(b)))
              && (!v.fire ==> v.intensity == 0.0 && !(ts >= b.fire.startTime && v.node.id in s.active))
  {
    if k > 0 {
      VisitNodesFire(b, ts, k - 1, s);
      VisitNodesShape(b, ts, k - 1, s);
      VisitNodesShape(b, ts, k, s);
    }
  }

  /**
   * The active set grows during a tick only when the fire time is a multiple of the spread
   * period, and then only by neighbours of nodes that burned in that tick; every
   * neighbour of a node that burned at such a time joins it.
   */
  lemma {:induction false} VisitNodesSpread(b: Batch, ts: int, k: nat, s: Sim)
    requires k <= |b.nodes| && VisitNodes(b, ts, k, s).Ok?
    ensures var s' := VisitNodes(b, ts, k, s).value;
            && (s.elapsed % SpreadPeriod != 0 ==> s'.active == s.active)
            && (forall id :: id in s'.active && id !in s.active ==>
                  exists j :: |s.visits| <= j < |s'.visits| && s'.visits[j].fire
                              && id in NearIds(b.nodes, s'.visits[j].node, |b.nodes|))
            && (forall j :: |s.visits| <= j < |s'.visits| && s'.visits[j].fire && s.elapsed % SpreadPeriod == 0 ==>
                  NearIds(b.nodes, s'.visits[j].node, |b.nodes|) <= s'.active)
  {
    if k > 0 {
      VisitNodesSpread(b, ts, k - 1, s);
      VisitNodesShape(b, ts, k - 1, s);
      VisitNodesShape(b, ts, k, s);
      var p := VisitNodes(b, ts, k - 1, s).value;
      var s' := VisitNodes(b, ts, k, s).value;
      forall id | id in s'.active && id !in s.active
        ensures exists j :: |s.visits| <= j < |s'.visits| && s'.visits[j].fire
                            && id in NearIds(b.nodes, s'.visits[j].node, |b.nodes|)
      {
        if id in p.active {
          var j :| |s.visits| <= j < |p.visits| && p.visits[j].fire
                   && id in NearIds(b.nodes, p.visits[j].node, |b.nodes|);
          assert s'.visits[j] == p.visits[j];
        } else {
          assert s'.visits[|p.visits|].fire && id in NearIds(b.nodes, s'.visits[|p.visits|].node, |b.nodes|);
        }
      }
    }
  }

  /**
   * A tick in which none of the first k nodes is burning at the start (the fire has not
   * started, or none of their ids is active) visits them all without fire and leaves the
   * active set as it was.
   */
  lemma {:induction false} VisitNodesQuiet(b: Batch, ts: int, k: nat, s: Sim)
    requires k <= |b.nodes|
    requires forall j :: 0 <= j < k ==> !Burning(b, ts, s.active, b.nodes[j])
    ensures VisitNodes(b, ts, k, s).Ok?
    ensures var s' := VisitNodes(b, ts, k, s).value;
            && s'.active == s.active
            && forall j :: |s.visits| <= j < |s'.visits| ==> !s'.visits[j].fire
  {
    if k > 0 {
      VisitNodesQuiet(b, ts, k - 1, s);
      VisitNodesShape(b, ts, k - 1, s);
    }
  }

  /**
   * Nodes visited later in a tick see the neighbours that earlier burning nodes of the
   * same tick added: when node j burns at a fire time that is a multiple of the spread
   * period, every later node of the tick that is near node j burns too.
   */
  lemma SpreadWithinTick(b: Batch, ts: int, s: Sim, j: nat, j': nat)
    requires j < j' < |b.nodes| && VisitNodes(b, ts, |b.nodes|, s).Ok?
    requires s.elapsed % SpreadPeriod == 0 && Near(b.nodes[j'], b.nodes[j])
    requires |VisitNodes(b, ts, |b.nodes|, s).value.visits| == |s.visits| + |b.nodes|
    requires VisitNodes(b, ts, |b.nodes|, s).value.visits[|s.visits| + j].fire
    ensures VisitNodes(b, ts, |b.nodes|, s).value.visits[|s.visits| + j'].fire
  {
    var full := VisitNodes(b, ts, |b.nodes|, s).value;
    VisitNodesPrefix(b, ts, j + 1, |b.nodes|, s);
    VisitNodesPrefix(b, ts, j' + 1, |b.nodes|, s);
    VisitNodesPrefix(b, ts, j', j' + 1, s);
    VisitNodesPrefix(b, ts, j + 1, j', s);
    var after := VisitNodes(b, ts, j + 1, s).value;
    assert after.visits[|s.visits| + j] == full.visits[|s.visits| + j];
    assert b.nodes[j'].id in VisitNodes(b, ts, j', s).value.active by {
      VisitNodesSpread(b, ts, j + 1, s);
      VisitNodesFire(b, ts, j + 1, s);
      NearIdsMembers(b.nodes, b.nodes[j], |b.nodes|);
      assert b.nodes[j'].id in NearIds(b.nodes, after.visits[|s.visits| + j].node, |b.nodes|);
    }
    assert ts >= b.fire.startTime by {
      VisitNodesFire(b, ts, j + 1, s);
    }
    BurnsIffActive(b, ts, j', s);
  }

  /**
   * Node k burns exactly when the fire has started and its id is in the active set as the
   * nodes before it in the same tick left it: the set is read mid-scan, so ids added by
   * earlier nodes count and ids added by later nodes do not.
   */
  lemma BurnsIffActive(b: Batch, ts: int, k: nat, s: Sim)
    requires k < |b.nodes| && VisitNodes(b, ts, k + 1, s).Ok?
    ensures VisitNodes(b, ts, k, s).Ok?
    ensures |VisitNodes(b, ts, k + 1, s).value.visits| == |s.visits| + k + 1
    ensures VisitNodes(b, ts, k + 1, s).value.visits[|s.visits| + k].fire
            <==> ts >= b.fire.startTime && b.nodes[k].id in VisitNodes(b, ts, k, s).value.active
  {
    VisitNodesPrefix(b, ts, k, k + 1, s);
    VisitNodesShape(b, ts, k, s);
  }

  /** The visits of an earlier part of a tick are a prefix of those of a later part. */
  lemma {:induction false} VisitNodesPrefix(b: Batch, ts: int, m: nat, k: nat, s: Sim)
    requires m <= k <= |b.nodes| && VisitNodes(b, ts, k, s).Ok?
    ensures VisitNodes(b, ts, m, s).Ok?
    ensures |VisitNodes(b, ts, k, s).value.visits| == |s.visits| + k
    ensures VisitNodes(b, ts, m, s).value.visits
            == VisitNodes(b, ts, k, s).value.visits[..|s.visits| + m]
    ensures VisitNodes(b, ts, m, s).value.active <= VisitNodes(b, ts, k, s).value.active
    decreases k - m
  {
    if m < k {
      if VisitNodes(b, ts, m, s).Err? {
        VisitNodesErrPersists(b, ts, m, k, s);
        assert false;
      }
      VisitNodesPrefix(b, ts, m + 1, k, s);
      VisitNodesShape(b, ts, m, s);
      VisitNodesShape(b, ts, m + 1, s);
      var p := VisitNodes(b, ts, m, s).value;
      var q := VisitNodes(b, ts, m + 1, s).value;
      var full := VisitNodes(b, ts, k, s).value.visits;
      assert q.visits[..|s.visits| + m] == p.visits;
      assert full[..|s.visits| + m] == full[..|s.visits| + m + 1][..|s.visits| + m];
    } else {
      VisitNodesShape(b, ts, k, s);
    }
  }

  // ---------------------------------------------------------------------------------
  // The whole run

  /** The first timestamp of the run at or after the start of the fire. */
  function FireOrigin(b: Batch): int {
    if b.fire.startTime <= b.start then b.start else b.fire.startTime
  }

  /** The fire time, in seconds, when the timestamp ts is reached: 0 up to the origin. */
  function ElapsedAt(b: Batch, ts: int): int {
    if ts <= FireOrigin(b) then 0 else ts - FireOrigin(b)
  }

  /** The position of node k of the i-th timestamp in a timestamp-major layout of n nodes. */
  function Slot(n: int, i: int, k: int): int {
    i * n + k
  }

  lemma MulNonNegative(a: int, b: int)
    requires 0 <= a && 0 <= b
    ensures 0 <= a * b
  {
  }

  lemma SlotBounds(n: int, i: int, k: int, t: int)
    requires 0 <= i < t && 0 <= k < n
    ensures 0 <= Slot(n, i, k) < t * n
  {
    MulNonNegative(i, n);
    MulNonNegative(t - 1 - i, n);
    assert t * n == (t - 1 - i) * n + i * n + n;
  }

  /** A run that gets through t timestamps got through every earlier one, with a prefix of its visits. */
  lemma {:induction false} RunTicksPrefix(b: Batch, t: nat, m: nat)
    requires t <= m <= Count(b) && RunTicks(b, m).Ok?
    ensures RunTicks(b, t).Ok?
    ensures |RunTicks(b, t).value.visits| <= |RunTicks(b, m).value.visits|
    ensures RunTicks(b, t).value.visits == RunTicks(b, m).value.visits[..|RunTicks(b, t).value.visits|]
    decreases m - t
  {
    if t < m {
      RunTicksPrefix(b, t + 1, m);
      var s := RunTicks(b, t).value;
      var s' := RunTicks(b, t + 1).value;
      VisitNodesShape(b, b.start + t, |b.nodes|, s);
      var vs := RunTicks(b, m).value.visits;
      assert vs[..|s'.visits|][..|s.visits|] == vs[..|s.visits|];
    }
  }

  /**
   * The fire time after t timestamps counts the timestamps from the fire's origin on:
   * it stays 0 until the first timestamp at or after the fire start, then grows by one per
   * timestamp.
   */
  lemma {:induction false} RunTicksClock(b: Batch, t: nat)
    requires t <= Count(b) && RunTicks(b, t).Ok?
    ensures RunTicks(b, t).value.elapsed == ElapsedAt(b, b.start + t)
  {
    if t > 0 {
      RunTicksClock(b, t - 1);
      VisitNodesShape(b, b.start + t - 1, |b.nodes|, RunTicks(b, t - 1).value);
    }
  }

  /**
   * After t timestamps there is one visit per (timestamp, node), timestamp-major with the
   * nodes in list order: slot Slot(|nodes|, i, k) holds node k at the i-th timestamp.
   */
  lemma {:induction false} RunTicksLayout(b: Batch, t: nat)
    requires t <= Count(b) && RunTicks(b, t).Ok?
    ensures var vs := RunTicks(b, t).value.visits;
            && |vs| == t * |b.nodes|
            && (forall j :: 0 <= j < |vs| ==>
                  && b.start <= vs[j].timestamp < b.start + t
                  && 0 <= vs[j].index < |b.nodes|
                  && vs[j].node == b.nodes[vs[j].index])
            && (forall j, j' :: 0 <= j <= j' < |vs| ==> vs[j].timestamp <= vs[j'].timestamp)
            && (forall i, k :: 0 <= i < t && 0 <= k < |b.nodes| ==>
                  && 0 <= Slot(|b.nodes|, i, k) < |vs|
                  && vs[Slot(|b.nodes|, i, k)].timestamp == b.start + i
                  && vs[Slot(|b.nodes|, i, k)].index == k
                  && vs[Slot(|b.nodes|, i, k)].node == b.nodes[k])
  {
    if t > 0 {
      RunTicksLayout(b, t - 1);
      var s := RunTicks(b, t - 1).value;
      var vs := RunTicks(b, t).value.visits;
      var n := |b.nodes|;
      VisitNodesShape(b, b.start + t - 1, n, s);
      assert |vs| == t * n by {
        assert t * n == (t - 1) * n + n;
      }
      forall i, k | 0 <= i < t && 0 <= k < n
        ensures && 0 <= Slot(n, i, k) < |vs|
                && vs[Slot(n, i, k)].timestamp == b.start + i
                && vs[Slot(n, i, k)].index == k
                && vs[Slot(n, i, k)].node == b.nodes[k]
      {
        SlotBounds(n, i, k, t);
        if i < t - 1 {
          SlotBounds(n, i, k, t - 1);
          assert vs[Slot(n, i, k)] == s.visits[Slot(n, i, k)];
        } else {
          assert Slot(n, i, k) == |s.visits| + k;
        }
      }
    }
  }

  /**
   * The active set after t timestamps: the start node alone while the fire time is 0,
   * and empty once the fire time has exceeded the fire duration.
   */
  lemma {:induction false} RunTicksActive(b: Batch, t: nat)
    requires t <= Count(b) && RunTicks(b, t).Ok?
    ensures var s := RunTicks(b, t).value;
            && (s.elapsed == 0 ==> s.active == {b.fire.startNode})
            && (s.elapsed > 0 && s.elapsed > FireDuration(b) ==> s.active == {})
  {
    if t > 0 {
      RunTicksActive(b, t - 1);
      RunTicksClock(b, t - 1);
      var ts := b.start + t - 1;
      var s := RunTicks(b, t - 1).value;
      VisitNodesShape(b, ts, |b.nodes|, s);
      if ts < b.fire.startTime || s.active == {} {
        VisitNodesQuiet(b, ts, |b.nodes|, s);
      }
    }
  }

  /** A burning node with a fire time of 0, or of at most the fire duration, has an intensity in [0, 1]. */
  lemma IntensityInUnit(elapsed: int, duration: int)
    requires duration != 0 && (elapsed == 0 || 0 <= elapsed <= duration)
    ensures 0.0 <= Intensity(elapsed, duration) <= 1.0
  {
    if elapsed != 0 {
      assert elapsed as real / duration as real >= 0.0;
    }
  }

  /** The intensity does not rise as the fire time advances within the fire duration. */
  lemma IntensityAntitone(elapsed: int, elapsed': int, duration: int)
    requires duration != 0 && 0 <= elapsed <= elapsed' && (elapsed' == 0 || elapsed' <= duration)
    ensures Intensity(elapsed', duration) <= Intensity(elapsed, duration)
  {
    if elapsed' != 0 {
      assert elapsed as real / duration as real <= elapsed' as real / duration as real;
    }
  }

  /**
   * Every visit of a run that gets through t timestamps: a burning node is visited at or
   * after the fire start, with a nonzero fire duration, at a fire time that is 0 or within
   * the fire duration, and with the intensity of that fire time, which lies in [0, 1]; any
   * other node has intensity 0.
   */
  lemma {:induction false} RunTicksBurning(b: Batch, t: nat)
    requires t <= Count(b) && RunTicks(b, t).Ok?
    ensures var vs := RunTicks(b, t).value.visits;
            forall j :: 0 <= j < |vs| ==>
              && (vs[j].fire ==>
                    && vs[j].timestamp >= b.fire.startTime
                    && FireDuration(b) != 0
                    && (ElapsedAt(b, vs[j].timestamp) == 0 || ElapsedAt(b, vs[j].timestamp) <= FireDuration(b))
                    && vs[j].intensity == Intensity(ElapsedAt(b, vs[j].timestamp), FireDuration(b))
                    && 0.0 <= vs[j].intensity <= 1.0)
              && (!vs[j].fire ==> vs[j].intensity == 0.0)
  {
    if t > 0 {
      RunTicksBurning(b, t - 1);
      RunTicksActive(b, t - 1);
      RunTicksClock(b, t - 1);
      var ts := b.start + t - 1;
      var s := RunTicks(b, t - 1).value;
      var vs := RunTicks(b, t).value.visits;
      VisitNodesShape(b, ts, |b.nodes|, s);
      VisitNodesFire(b, ts, |b.nodes|, s);
      if s.active == {} {
        VisitNodesQuiet(b, ts, |b.nodes|, s);
      }
      forall j | |s.visits| <= j < |vs| && vs[j].fire
        ensures 0.0 <= vs[j].intensity <= 1.0
      {
        IntensityInUnit(s.elapsed, FireDuration(b));
      }
      assert forall j :: 0 <= j < |s.visits| ==> vs[j] == s.visits[j];
    }
  }

  /**
   * One timestamp's effect on the active set: it is cleared when the fire time passes the
   * fire duration; otherwise it only gains ids, only when the fire time is a multiple of
   * the spread period, and each id it gains belongs to a neighbour of a node that burned
   * during the timestamp.
   */
  lemma TickActive(b: Batch, ts: int, s: Sim)
    requires Tick(b, ts, s).Ok?
    ensures var s' := Tick(b, ts, s).value;
            && (ts >= b.fire.startTime && s.elapsed + 1 > FireDuration(b) ==> s'.active == {})
            && (!(ts >= b.fire.startTime && s.elapsed + 1 > FireDuration(b)) ==>
                  && s.active <= s'.active
                  && (s.elapsed % SpreadPeriod != 0 ==> s'.active == s.active)
                  && forall id :: id in s'.active && id !in s.active ==>
                       exists j :: |s.visits| <= j < |s'.visits| && s'.visits[j].fire
                                   && id in NearIds(b.nodes, s'.visits[j].node, |b.nodes|))
  {
    VisitNodesShape(b, ts, |b.nodes|, s);
    VisitNodesSpread(b, ts, |b.nodes|, s);
  }

  /**
   * An empty active set stays empty for the rest of the run, and no node burns from then
   * on; with RunTicksActive, this holds from the first timestamp at which the fire time
   * exceeds the fire duration.
   */
  lemma {:induction false} StaysEmpty(b: Batch, t: nat, m: nat)
    requires t <= m <= Count(b) && RunTicks(b, m).Ok?
    ensures RunTicks(b, t).Ok?
    ensures var s := RunTicks(b, t).value;
            var s' := RunTicks(b, m).value;
            s.active == {} ==>
              && s'.active == {}
              && forall j :: |s.visits| <= j < |s'.visits| ==> !s'.visits[j].fire
  {
    if t < m {
      StaysEmpty(b, t, m - 1);
      var s := RunTicks(b, t).value;
      var p := RunTicks(b, m - 1).value;
      if s.active == {} {
        VisitNodesQuiet(b, b.start + m - 1, |b.nodes|, p);
        VisitNodesShape(b, b.start + m - 1, |b.nodes|, p);
        var vs := RunTicks(b, m).value.visits;
        assert forall j :: |s.visits| <= j < |p.visits| ==> vs[j] == p.visits[j];
      }
    }
  }

  /**
   * Before the fire start no node burns; while every timestamp so far precedes it the fire
   * time stays 0 and only the start node is active.
   */
  lemma NoFireBeforeStart(b: Batch, t: nat)
    requires t <= Count(b) && RunTicks(b, t).Ok?
    ensures var s := RunTicks(b, t).value;
            && (forall j :: 0 <= j < |s.visits| && s.visits[j].timestamp < b.fire.startTime ==> !s.visits[j].fire)
            && (b.start + t <= b.fire.startTime ==> s.elapsed == 0 && s.active == {b.fire.startNode})
  {
    RunTicksBurning(b, t);
    RunTicksClock(b, t);
    RunTicksActive(b, t);
  }

  /** Along the visits of a run, the intensity of the burning nodes never rises. */
  lemma IntensityNonIncreasing(b: Batch, t: nat)
    requires t <= Count(b) && RunTicks(b, t).Ok?
    ensures var vs := RunTicks(b, t).value.visits;
            forall j, j' :: 0 <= j <= j' < |vs| && vs[j].fire && vs[j'].fire ==>
              vs[j'].intensity <= vs[j].intensity
  {
    var vs := RunTicks(b, t).value.visits;
    RunTicksBurning(b, t);
    RunTicksLayout(b, t);
    forall j, j' | 0 <= j <= j' < |vs| && vs[j].fire && vs[j'].fire
      ensures vs[j'].intensity <= vs[j].intensity
    {
      IntensityAntitone(ElapsedAt(b, vs[j].timestamp), ElapsedAt(b, vs[j'].timestamp), FireDuration(b));
    }
  }

  // ---------------------------------------------------------------------------------
  // When the run aborts

  /**
   * A run aborts only with ZeroDivisionError, and only for a zero fire duration: the
   * failing visit is that of a node with the start node's id, at a timestamp from the
   * fire's origin to the end.
   */
  lemma OutputErrCause(b: Batch)
    requires Output(b).Err?
    ensures Output(b).error == ZeroDivisionError
    ensures FireDuration(b) == 0 && FireOrigin(b) <= b.end
    ensures exists k :: 0 <= k < |b.nodes| && b.nodes[k].id == b.fire.startNode
  {
    RunTicksErrCause(b, Count(b));
  }

  /**
   * A run that aborts within its first m timestamps does so with ZeroDivisionError, for
   * a zero fire duration, at one of those timestamps at or after the fire's origin, and
   * at a node with the start node's id.
   */
  lemma {:induction false} RunTicksErrCause(b: Batch, m: nat)
    requires m <= Count(b) && RunTicks(b, m).Err?
    ensures RunTicks(b, m).error == ZeroDivisionError
    ensures FireDuration(b) == 0 && FireOrigin(b) <= b.start + m - 1
    ensures exists k :: 0 <= k < |b.nodes| && b.nodes[k].id == b.fire.startNode
  {
    if RunTicks(b, m - 1).Err? {
      RunTicksErrCause(b, m - 1);
    } else {
      var s := RunTicks(b, m - 1).value;
      var ts := b.start + m - 1;
      VisitNodesErrCause(b, ts, |b.nodes|, s);
      var k :| 0 <= k < |b.nodes| && b.nodes[k].id in s.active;
      RunTicksActive(b, m - 1);
      RunTicksClock(b, m - 1);
      assert s.active == {b.fire.startNode};
    }
  }

  /**
   * A tick aborts only with ZeroDivisionError, for a zero fire duration once the fire has
   * started, at a node whose id was active when the tick began.
   */
  lemma {:induction false} VisitNodesErrCause(b: Batch, ts: int, m: nat, s: Sim)
    requires m <= |b.nodes| && VisitNodes(b, ts, m, s).Err?
    ensures VisitNodes(b, ts, m, s).error == ZeroDivisionError
    ensures FireDuration(b) == 0 && ts >= b.fire.startTime
    ensures exists k :: 0 <= k < m && b.nodes[k].id in s.active
  {
    if VisitNodes(b, ts, m - 1, s).Err? {
      VisitNodesErrCause(b, ts, m - 1, s);
    } else {
      assert FireDuration(b) == 0;
      VisitNodesNoDuration(b, ts, m - 1, s);
    }
  }

  /** With a zero fire duration, a tick that gets through its first k nodes burns none of them. */
  lemma {:induction false} VisitNodesNoDuration(b: Batch, ts: int, k: nat, s: Sim)
    requires FireDuration(b) == 0 && k <= |b.nodes| && VisitNodes(b, ts, k, s).Ok?
    ensures VisitNodes(b, ts, k, s).value.active == s.active
  {
    if k > 0 {
      VisitNodesNoDuration(b, ts, k - 1, s);
    }
  }

  /**
   * With a zero fire duration, a node with the start node's id and a timestamp at or
   * after the fire start within the run, the run aborts: the first visit of the start
   * node at the fire's origin divides by zero.
   */
  lemma OutputErrWhen(b: Batch)
    requires FireDuration(b) == 0 && FireOrigin(b) <= b.end
    requires exists k :: 0 <= k < |b.nodes| && b.nodes[k].id == b.fire.startNode
    ensures Output(b).Err?
  {
    var t0 := FireOrigin(b) - b.start;
    if RunTicks(b, t0).Err? {
      RunTicksErrPersists(b, t0, Count(b));
    } else {
      RunTicksClock(b, t0);
      RunTicksActive(b, t0);
      var s := RunTicks(b, t0).value;
      var k :| 0 <= k < |b.nodes| && b.nodes[k].id == b.fire.startNode;
      VisitNodesAbort(b, FireOrigin(b), s, k);
      assert RunTicks(b, t0 + 1).Err?;
      RunTicksErrPersists(b, t0 + 1, Count(b));
    }
  }

  /** With a zero fire duration, once the fire has started, a tick in which some node's id is
      active when it begins aborts. */
  lemma VisitNodesAbort(b: Batch, ts: int, s: Sim, k: nat)
    requires FireDuration(b) == 0 && ts >= b.fire.startTime
    requires k < |b.nodes| && b.nodes[k].id in s.active
    ensures VisitNodes(b, ts, |b.nodes|, s).Err?
  {
    if VisitNodes(b, ts, |b.nodes|, s).Ok? {
      VisitNodesFireAt(b, ts, s, k);
      assert false;
    }
  }

  /** In a tick that completes, node k burns if it was burning when the tick began, and a
      burning node implies a nonzero fire duration. */
  lemma VisitNodesFireAt(b: Batch, ts: int, s: Sim, k: nat)
    requires k < |b.nodes| && VisitNodes(b, ts, |b.nodes|, s).Ok?
    ensures |VisitNodes(b, ts, |b.nodes|, s).value.visits| == |s.visits| + |b.nodes|
    ensures var v := VisitNodes(b, ts, |b.nodes|, s).value.visits[|s.visits| + k];
            && v.node == b.nodes[k]
            && (Burning(b, ts, s.active, b.nodes[k]) ==> v.fire)
            && (v.fire ==> FireDuration(b) != 0)
  {
    VisitNodesShape(b, ts, |b.nodes|, s);
    VisitNodesFire(b, ts, |b.nodes|, s);
  }

  /**
   * The run aborts exactly when the fire duration is zero, the start node's id belongs to
   * a node, and some timestamp of the run is at or after the fire start; the exception is
   * always ZeroDivisionError.
   */
  lemma OutputFailsIff(b: Batch)
    ensures Output(b).Err? <==>
              && FireDuration(b) == 0
              && FireOrigin(b) <= b.end
              && exists k :: 0 <= k < |b.nodes| && b.nodes[k].id == b.fire.startNode
    ensures Output(b).Err? ==> Output(b).error == ZeroDivisionError
  {
    if Output(b).Err? {
      OutputErrCause(b);
    } else if FireDuration(b) == 0 && FireOrigin(b) <= b.end
              && exists k :: 0 <= k < |b.nodes| && b.nodes[k].id == b.fire.startNode {
      OutputErrWhen(b);
    }
  }

  // ---------------------------------------------------------------------------------
  // The rows

  /** The rows of a completed run: one per (timestamp, node), timestamp-major with the nodes in
      list order, each carrying its node's id and coordinates and a fire flag of 0 or 1 that
      is 1 only at or after the fire start. */
  lemma OutputLayout(b: Batch)
    requires Output(b).Ok?
    ensures var rows := Output(b).value;
            && |rows| == Count(b) * |b.nodes|
            && (forall i, k :: 0 <= i < Count(b) && 0 <= k < |b.nodes| ==>
                  && 0 <= Slot(|b.nodes|, i, k) < |rows|
                  && rows[Slot(|b.nodes|, i, k)].timestamp == b.start + i
                  && rows[Slot(|b.nodes|, i, k)].nodeId == b.nodes[k].id
                  && rows[Slot(|b.nodes|, i, k)].latitude == b.nodes[k].latitude
                  && rows[Slot(|b.nodes|, i, k)].longitude == b.nodes[k].longitude)
            && (forall j :: 0 <= j < |rows| ==>
                  && (rows[j].fire == 0 || rows[j].fire == 1)
                  && (rows[j].fire == 1 ==> rows[j].timestamp >= b.fire.startTime))
  {
    RunTicksLayout(b, Count(b));
    RunTicksBurning(b, Count(b));
  }

  /** Every row of a completed run has humidity in [0, 100] %, oxygen in [10, 21] % and
      non-negative CO2, whatever the draws. */
  lemma OutputReadingsInRange(b: Batch)
    requires Output(b).Ok?
    ensures var rows := Output(b).value;
            forall j :: 0 <= j < |rows| ==>
              0.0 <= rows[j].humidity <= 100.0 && 10.0 <= rows[j].oxygen <= 21.0 && 0.0 <= rows[j].co2
  {
    var vs := RunTicks(b, Count(b)).value.visits;
    forall j | 0 <= j < |vs|
      ensures var r := RowOf(b, vs[j]);
              0.0 <= r.humidity <= 100.0 && 10.0 <= r.oxygen <= 21.0 && 0.0 <= r.co2
    {
      var v := vs[j];
      ReadingInPhysicalRange(SeasonAt(v.timestamp), v.fire, v.intensity, b.draw(v.timestamp, v.index));
    }
  }

  /**
   * The readings of one visit whose draws come from their intervals and whose intensity,
   * when it burns, lies in [0, 1]: without fire, within the noise of the season's bands;
   * on fire, above the season's temperature band by at most 50 °C, humidity in [20, 80] %,
   * oxygen in [17, 21] % and CO2 in [300, 600] ppm.
   */
  lemma VisitReading(b: Batch, v: Visit)
    requires WellDrawn(SeasonAt(v.timestamp), b.draw(v.timestamp, v.index))
    requires v.fire ==> 0.0 <= v.intensity <= 1.0
    ensures var r := RowOf(b, v);
            var band := TempRange(SeasonAt(v.timestamp));
            && (!v.fire ==>
                  && band.0 as real - 2.0 <= r.temperature <= band.1 as real + 2.0
                  && 35.0 <= r.humidity <= 85.0 && 18.8 <= r.oxygen <= 21.0 && 280.0 <= r.co2 <= 420.0)
            && (v.fire ==>
                  && band.0 as real <= r.temperature <= band.1 as real + 50.0
                  && 20.0 <= r.humidity <= 80.0 && 17.0 <= r.oxygen <= 21.0 && 300.0 <= r.co2 <= 600.0)
  {
    var season := SeasonAt(v.timestamp);
    var d := b.draw(v.timestamp, v.index);
    if v.fire {
      FireTemperature(season, v.intensity, d);
      FireHumidity(season, v.intensity, d);
      FireGases(season, v.intensity, d);
    } else {
      CalmReading(season, v.intensity, d);
    }
  }

  /**
   * With every draw from its interval, each row of a completed run lies in the bands of
   * its timestamp's season: a calm row within the noise of the baseline bands, a burning
   * row above the temperature band by at most 50 °C, with humidity in [20, 80] %, oxygen
   * in [17, 21] % and CO2 in [300, 600] ppm.
   */
  lemma OutputSeasonalReadings(b: Batch)
    requires Output(b).Ok? && ValidDraws(b)
    ensures var rows := Output(b).value;
            forall j :: 0 <= j < |rows| ==>
              var r := rows[j];
              var band := TempRange(SeasonAt(r.timestamp));
              && (r.fire == 0 ==>
                    && band.0 as real - 2.0 <= r.temperature <= band.1 as real + 2.0
                    && 35.0 <= r.humidity <= 85.0 && 18.8 <= r.oxygen <= 21.0 && 280.0 <= r.co2 <= 420.0)
              && (r.fire == 1 ==>
                    && band.0 as real <= r.temperature <= band.1 as real + 50.0
                    && 20.0 <= r.humidity <= 80.0 && 17.0 <= r.oxygen <= 21.0 && 300.0 <= r.co2 <= 600.0)
  {
    var vs := RunTicks(b, Count(b)).value.visits;
    RunTicksLayout(b, Count(b));
    RunTicksBurning(b, Count(b));
    forall j | 0 <= j < |vs|
      ensures var r := RowOf(b, vs[j]);
              var band := TempRange(SeasonAt(r.timestamp));
              && (r.fire == 0 ==>
                    && band.0 as real - 2.0 <= r.temperature <= band.1 as real + 2.0
                    && 35.0 <= r.humidity <= 85.0 && 18.8 <= r.oxygen <= 21.0 && 280.0 <= r.co2 <= 420.0)
              && (r.fire == 1 ==>
                    && band.0 as real <= r.temperature <= band.1 as real + 50.0
                    && 20.0 <= r.humidity <= 80.0 && 17.0 <= r.oxygen <= 21.0 && 300.0 <= r.co2 <= 600.0)
    {
      VisitReading(b, vs[j]);
    }
  }
}

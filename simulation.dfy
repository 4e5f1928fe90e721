/**
 * The batch fire-propagation driver. For every second from start to end and for every
 * node in input order it decides whether the node burns, synthesizes the node's reading
 * and, every 30 seconds of fire time, sets the neighbours of each burning node alight.
 *
 * The driver is specified by a fold over the same steps (VisitNode, VisitNodes, EndTick,
 * Tick, RunTicks) that records, per visit, the node, whether it burned and with what
 * intensity; the rows are those visits passed through the sensor synthesizer in the
 * season of their day (Rows). The method GenerateDataset runs the loops of the source and
 * is proved equal to that fold. The properties of the fold are proved in module
 * SimulationFacts.
 */
module Simulation {
  import opened Wrappers
  import Calendar
  import opened Seasons
  import opened Sensors

  /** 0.001 degree in micro-degrees: the neighbour tolerance on each axis. */
  const Tolerance := 1000
  /** Propagation happens when the fire time is a multiple of this many seconds. */
  const SpreadPeriod := 30
  const SecondsPerMinute := 60

  /** A sensor node; coordinates in micro-degrees. */
  datatype Node = Node(id: int, latitude: int, longitude: int)

  /** The fire to simulate; duration in minutes. */
  datatype FireDetails = FireDetails(startTime: int, duration: int, startNode: int)

  /** One output row; fire is 1 or 0. */
  datatype Row = Row(
    timestamp: int, nodeId: int, latitude: int, longitude: int,
    temperature: real, humidity: real, oxygen: real, co2: real, fire: int)

  /**
   * The inputs of one batch run: the node list, the first and last timestamp in seconds
   * since the epoch, the fire, and the random draws for each (timestamp, node index).
   */
  datatype Batch = Batch(
    nodes: seq<Node>, start: int, end: int, fire: FireDetails, draw: (int, int) -> Draws)

  /** The season of the calendar day of a timestamp. */
  function SeasonAt(ts: int): Season
  {
    var date := Calendar.CivilDate(ts);
    Calendar.CivilDateValid(ts);
    SeasonCalendar(date.1, date.2);
    GetSeason(date.1, date.2).value
  }

  /** Every draw of the run comes from its distribution's interval. */
  ghost predicate ValidDraws(b: Batch) {
    forall ts, i :: b.start <= ts <= b.end && 0 <= i < |b.nodes| ==>
      WellDrawn(SeasonAt(ts), b.draw(ts, i))
  }

  function FireDuration(b: Batch): int {
    b.fire.duration * SecondsPerMinute
  }

  /** Number of timestamps from start to end inclusive. */
  function Count(b: Batch): nat {
    if b.end < b.start then 0 else b.end - b.start + 1
  }

  function Abs(x: int): int {
    if x < 0 then -x else x
  }

  /** Two nodes are neighbours when they lie within the tolerance on both axes. */
  predicate Near(a: Node, b: Node) {
    Abs(a.latitude - b.latitude) <= Tolerance && Abs(a.longitude - b.longitude) <= Tolerance
  }

  /** The ids of those of the first m nodes that are neighbours of node. */
  function NearIds(nodes: seq<Node>, node: Node, m: nat): set<int>
    requires m <= |nodes|
  {
    if m == 0 then {}
    else NearIds(nodes, node, m - 1) + (if Near(nodes[m - 1], node) then {nodes[m - 1].id} else {})
  }

  /** A node burns at ts when the fire has started and its id is in the active set. */
  predicate Burning(b: Batch, ts: int, active: set<int>, node: Node) {
    ts >= b.fire.startTime && node.id in active
  }

  /** Intensity after elapsed seconds of fire: 1 - elapsed / duration, but never below 0. */
  function Intensity(elapsed: int, duration: int): real
    requires duration != 0
  {
    Max(1.0 - elapsed as real / duration as real, 0.0)
  }

  /**
   * One visit of a node at a timestamp: the node's index in the node list, whether it
   * burned, and how hard.
   */
  datatype Visit = Visit(timestamp: int, index: int, node: Node, fire: bool, intensity: real)

  /** The row a visit emits: the node, its synthesized reading and the fire flag. */
  function RowOf(b: Batch, v: Visit): Row {
    var reading := GenerateDataForNode(SeasonAt(v.timestamp), v.fire, v.intensity, b.draw(v.timestamp, v.index));
    Row(v.timestamp, v.node.id, v.node.latitude, v.node.longitude,
        reading.temperature, reading.humidity, reading.oxygen, reading.co2,
        if v.fire then 1 else 0)
  }

  /** The rows of a sequence of visits, in the same order. */
  function Rows(b: Batch, vs: seq<Visit>): seq<Row> {
    seq(|vs|, i requires 0 <= i < |vs| => RowOf(b, vs[i]))
  }

  /** The state of a run: visits made so far, active node ids and fire time in seconds. */
  datatype Sim = Sim(visits: seq<Visit>, active: set<int>, elapsed: int)

  function Initial(b: Batch): Sim {
    Sim([], {b.fire.startNode}, 0)
  }

  /**
   * Visiting node k at ts: record the visit and, when the node burns on a multiple of
   * the spread period, add the ids of all its neighbours to the active set. Computing the
   * intensity of a burning node with a zero fire duration raises ZeroDivisionError.
   */
  function VisitNode(b: Batch, ts: int, k: nat, s: Sim): Result<Sim>
    requires k < |b.nodes|
  {
    var node := b.nodes[k];
    var fire := Burning(b, ts, s.active, node);
    if fire && FireDuration(b) == 0 then Err(ZeroDivisionError)
    else
      var intensity := if fire then Intensity(s.elapsed, FireDuration(b)) else 0.0;
      var active :=
        if fire && s.elapsed % SpreadPeriod == 0 then s.active + NearIds(b.nodes, node, |b.nodes|)
        else s.active;
      Ok(Sim(s.visits + [Visit(ts, k, node, fire, intensity)], active, s.elapsed))
  }

  /** Visiting the first k nodes in order at ts, each seeing the set as the earlier ones left it. */
  function VisitNodes(b: Batch, ts: int, k: nat, s: Sim): Result<Sim>
    requires k <= |b.nodes|
  {
    if k == 0 then Ok(s)
    else
      match VisitNodes(b, ts, k - 1, s)
      case Err(e) => Err(e)
      case Ok(s') => VisitNode(b, ts, k - 1, s')
  }

  /** After all nodes: once the fire has started, advance its time and clear it when over. */
  function EndTick(b: Batch, ts: int, s: Sim): Sim {
    if ts >= b.fire.startTime then
      var elapsed := s.elapsed + 1;
      Sim(s.visits, if elapsed > FireDuration(b) then {} else s.active, elapsed)
    else s
  }

  /** One timestamp: visit every node, then advance the fire time. */
  function Tick(b: Batch, ts: int, s: Sim): Result<Sim> {
    match VisitNodes(b, ts, |b.nodes|, s)
    case Err(e) => Err(e)
    case Ok(s') => Ok(EndTick(b, ts, s'))
  }

  /** The state after the first t timestamps. */
  function RunTicks(b: Batch, t: nat): Result<Sim>
    requires t <= Count(b)
  {
    if t == 0 then Ok(Initial(b))
    else
      match RunTicks(b, t - 1)
      case Err(e) => Err(e)
      case Ok(s) => Tick(b, b.start + t - 1, s)
  }

  /** The rows of a whole run, or the exception that aborts it. */
  function Output(b: Batch): Result<seq<Row>> {
    match RunTicks(b, Count(b))
    case Err(e) => Err(e)
    case Ok(s) => Ok(Rows(b, s.visits))
  }

  lemma {:induction false} VisitNodesErrPersists(b: Batch, ts: int, k: nat, m: nat, s: Sim)
    requires k <= m <= |b.nodes|
    requires VisitNodes(b, ts, k, s).Err?
    ensures VisitNodes(b, ts, m, s) == VisitNodes(b, ts, k, s)
    decreases m - k
  {
    if k < m {
      VisitNodesErrPersists(b, ts, k + 1, m, s);
    }
  }

  lemma {:induction false} RunTicksErrPersists(b: Batch, t: nat, m: nat)
    requires t <= m <= Count(b)
    requires RunTicks(b, t).Err?
    ensures RunTicks(b, m) == RunTicks(b, t)
    decreases m - t
  {
    if t < m {
      RunTicksErrPersists(b, t + 1, m);
    }
  }

  /** Adds the ids of node's neighbours to active, scanning the node list in order. */
  method SpreadFire(nodes: seq<Node>, node: Node, active: set<int>) returns (r: set<int>)
    ensures r == active + NearIds(nodes, node, |nodes|)
  {
    r := active;
    var j := 0;
    while j < |nodes|
      invariant 0 <= j <= |nodes|
      invariant r == active + NearIds(nodes, node, j)
    {
      var neighbour := nodes[j];
      if Abs(neighbour.latitude - node.latitude) <= Tolerance
         && Abs(neighbour.longitude - node.longitude) <= Tolerance {
        r := r + {neighbour.id};
      }
      j := j + 1;
    }
  }

  /**
   * The visit of node k at ts: whether it burns, its intensity, its row appended to rows,
   * and the active set after spreading from it. A burning node with a zero fire duration
   * raises ZeroDivisionError when its intensity is computed.
   */
  method VisitOne(b: Batch, ts: int, season: Season, k: nat, rows: seq<Row>, ghost visits: seq<Visit>,
                  active: set<int>, elapsed: int)
      returns (r: Result<(seq<Row>, set<int>)>, ghost visit: Visit)
    requires k < |b.nodes| && season == SeasonAt(ts) && rows == Rows(b, visits)
    ensures r.Err? ==> r == Err(ZeroDivisionError)
                       && VisitNode(b, ts, k, Sim(visits, active, elapsed)) == Err(ZeroDivisionError)
    ensures r.Ok? ==>
              && VisitNode(b, ts, k, Sim(visits, active, elapsed))
                   == Ok(Sim(visits + [visit], r.value.1, elapsed))
              && r.value.0 == Rows(b, visits + [visit])
  {
    var fireDuration := b.fire.duration * SecondsPerMinute;
    var node := b.nodes[k];
    var fire := false;
    var intensity := 0.0;
    if ts >= b.fire.startTime && node.id in active {
      fire := true;
      if fireDuration == 0 {
        return Err(ZeroDivisionError), Visit(ts, k, node, fire, intensity);
      }
      intensity := 1.0 - elapsed as real / fireDuration as real;
      intensity := Max(intensity, 0.0);
    }
    visit := Visit(ts, k, node, fire, intensity);
    var reading := GenerateDataForNode(season, fire, intensity, b.draw(ts, k));
    var row := Row(ts, node.id, node.latitude, node.longitude,
                   reading.temperature, reading.humidity, reading.oxygen, reading.co2,
                   if fire then 1 else 0);
    assert row == RowOf(b, visit);
    assert rows + [row] == Rows(b, visits + [visit]);
    var burning := active;
    if fire && elapsed % SpreadPeriod == 0 {
      burning := SpreadFire(b.nodes, node, burning);
    }
    r := Ok((rows + [row], burning));
  }

  /**
   * One timestamp of the batch driver: every node in order, each seeing the active set
   * as the earlier nodes of the same timestamp left it. Returns the rows so far and the
   * new active set, or the exception that aborts the run.
   */
  method VisitTick(b: Batch, ts: int, season: Season, rows: seq<Row>, ghost visits: seq<Visit>,
                   active: set<int>, elapsed: int)
      returns (r: Result<(seq<Row>, set<int>)>, ghost tickVisits: seq<Visit>)
    requires season == SeasonAt(ts) && rows == Rows(b, visits)
    ensures r.Err? ==> r == Err(ZeroDivisionError)
                       && VisitNodes(b, ts, |b.nodes|, Sim(visits, active, elapsed)) == Err(ZeroDivisionError)
    ensures r.Ok? ==>
              && VisitNodes(b, ts, |b.nodes|, Sim(visits, active, elapsed))
                   == Ok(Sim(tickVisits, r.value.1, elapsed))
              && r.value.0 == Rows(b, tickVisits)
  {
    var out := rows;
    var burning := active;
    tickVisits := visits;
    var k := 0;
    while k < |b.nodes|
      invariant 0 <= k <= |b.nodes|
      invariant VisitNodes(b, ts, k, Sim(visits, active, elapsed)) == Ok(Sim(tickVisits, burning, elapsed))
      invariant out == Rows(b, tickVisits)
    {
      var step, visit := VisitOne(b, ts, season, k, out, tickVisits, burning, elapsed);
      if step.Err? {
        VisitNodesErrPersists(b, ts, k + 1, |b.nodes|, Sim(visits, active, elapsed));
        return Err(ZeroDivisionError), tickVisits;
      }
      out := step.value.0;
      tickVisits := tickVisits + [visit];
      burning := step.value.1;
      k := k + 1;
    }
    r := Ok((out, burning));
  }

  /** After a timestamp: advance the fire time once the fire has started, and clear the
      active set once that time exceeds the fire duration. */
  method AdvanceClock(b: Batch, ts: int, ghost visits: seq<Visit>, active: set<int>, elapsed: int)
      returns (active': set<int>, elapsed': int)
    ensures Sim(visits, active', elapsed') == EndTick(b, ts, Sim(visits, active, elapsed))
  {
    var fireDuration := b.fire.duration * SecondsPerMinute;
    active', elapsed' := active, elapsed;
    if ts >= b.fire.startTime {
      elapsed' := elapsed' + 1;
      if elapsed' > fireDuration {
        active' := {};
      }
    }
  }

  /** One timestamp of the batch driver: all node visits, then the clock. */
  method SimulateTick(b: Batch, ts: int, season: Season, rows: seq<Row>, ghost visits: seq<Visit>,
                      active: set<int>, elapsed: int)
      returns (r: Result<(seq<Row>, set<int>, int)>, ghost visits': seq<Visit>)
    requires season == SeasonAt(ts) && rows == Rows(b, visits)
    ensures r.Err? ==> Tick(b, ts, Sim(visits, active, elapsed)) == Err(r.error)
    ensures r.Ok? ==> Tick(b, ts, Sim(visits, active, elapsed)) == Ok(Sim(visits', r.value.1, r.value.2))
                      && r.value.0 == Rows(b, visits')
  {
    var tick;
    tick, visits' := VisitTick(b, ts, season, rows, visits, active, elapsed);
    if tick.Err? {
      return Err(tick.error), visits';
    }
    var active', elapsed' := AdvanceClock(b, ts, visits', tick.value.1, elapsed);
    r := Ok((tick.value.0, active', elapsed'));
  }

  /**
   * The batch driver: the loop over the timestamps from start to end, each in the season
   * of its calendar day, with the fire time advanced after each timestamp once the fire
   * has started and the active set cleared once that time exceeds the fire duration.
   */
  method GenerateDataset(b: Batch) returns (r: Result<seq<Row>>)
    ensures r == Output(b)
  {
    var active: set<int> := {b.fire.startNode};
    var elapsed := 0;
    var rows: seq<Row> := [];
    ghost var visits: seq<Visit> := [];
    var count := if b.end < b.start then 0 else b.end - b.start + 1;
    var t := 0;
    while t < count
      invariant 0 <= t <= count && count == Count(b)
      invariant RunTicks(b, t) == Ok(Sim(visits, active, elapsed))
      invariant rows == Rows(b, visits)
    {
      var ts := b.start + t;
      var season := SeasonAt(ts);
      var tick;
      tick, visits := SimulateTick(b, ts, season, rows, visits, active, elapsed);
      if tick.Err? {
        RunTicksErrPersists(b, t + 1, count);
        return Err(tick.error);
      }
      rows, active, elapsed := tick.value.0, tick.value.1, tick.value.2;
      t := t + 1;
    }
    r := Ok(rows);
  }
}

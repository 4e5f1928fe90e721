# Batch fire-sensor data generator

This project models the batch data generator of a sensor network for detecting forest fires.
Its input is a list of sensor nodes, a span of timestamps and one fire. It has three parts:

- **Season table.** There are four seasons. Each has an inclusive calendar interval and an
  ambient temperature band. `get_season` tests the intervals in table order. A day that lies
  in no interval is winter.
- **Reading synthesizer.** `generate_data_for_node` makes a temperature, humidity, oxygen
  and CO2 reading for a node:
  - it draws baselines from uniform distributions;
  - a calm node adds noise to them;
  - a burning node shifts them by amounts scaled by the fire intensity;
  - finally humidity is clamped to [0, 100], oxygen to [10, 21] and CO2 to non-negative
    values.
- **Driver.** `generate_dataset` steps through every second from start to end, and within
  each second through every node in list order. For each node it:
  - decides whether the node burns: the fire has started and the node's id is in the
    active set;
  - computes the intensity `max(1 - elapsed / duration, 0)`;
  - emits one row.

  When the fire time is a multiple of 30 seconds, each burning node adds the ids of all
  nodes within 0.001 degree of it, on both axes, to the active set. That set is mutated
  while the same second's node scan is still running. After each second that is at or after
  the fire start, the fire time advances by one. Once it exceeds the duration, the active
  set is cleared.

The project has these modules:

- `Wrappers`: `Result` and the two exceptions the code can raise.
- `Calendar`: epoch seconds to civil dates. It stands in for the month and day of a pandas
  timestamp.
- `Seasons`: the table, `get_season` and the temperature band.
- `Sensors`: the synthesizer. Its random draws are parameters.
- `Simulation`: the driver. There are two forms of it:
  - a functional fold, `Output`, which records one `Visit` per (timestamp, node);
  - the imperative method `GenerateDataset`, with the source's two loops, the neighbour
    scan and the mutable active set.

  The method is proved equal to the fold.
- `SimulationFacts`: the properties of the fold.

Timestamps are whole seconds since 1970-01-01 (no time zone). Coordinates are integer
micro-degrees, so the 0.001-degree tolerance is exactly 1000. Sensor values are reals.

Points of the code's behaviour that the model reproduces as written:

- The fire duration is given in minutes; line 99 of `src/generation/generation_module.py`
  multiplies it by 60.
- The fire time counts seconds from the first simulated timestamp at or after the fire
  start, so the active set is cleared once more than `duration·60` seconds have passed
  since `max(start, fire start)`.
- A duration of zero makes line 117 divide by zero as soon as a node burns. The model
  returns `Err(ZeroDivisionError)`, and `OutputFailsIff` says exactly when that happens.
- An interval test `start <= current <= end` on winter's (Dec 1, Feb 28) never succeeds. So
  every winter day, February 29 included, is winter only through the fallback.
- `datetime.date(2000, month, day)` raises `ValueError` for a day that does not exist. The
  model returns `Err(ValueError)`.

## Model

| member | source | states |
|---|---|---|
| Seasons.GetSeason | src/generation/generation_module.py:20-30 | the season lookup: the first table entry whose interval holds the day, winter otherwise, ValueError for a day that does not exist; its properties are SeasonCalendar and FirstMatchIsFirst |
| Sensors.GenerateDataForNode | src/generation/generation_module.py:38-61 | the reading of one node from its draws, calm or burning, with the three clamps; its properties are ReadingInPhysicalRange, CalmReading, FireTemperature, FireHumidity, FireGases and FireAtZeroIntensity |
| Calendar.CivilDate | src/generation/generation_module.py:108 | the calendar date of a timestamp, for `ts.month` and `ts.day`; its properties are CivilDateValid, CivilDateNumber and CivilDateOfDayNumber |
| Calendar.CivilDateNumber | src/generation/generation_module.py:108 | the date of a timestamp is the day whose independently counted day number is the number of whole days since 1970-01-01, and timestamp 0 is 1970-01-01 |
| Calendar.DayNumberInjective | src/generation/generation_module.py:108 | distinct valid dates have distinct day numbers |
| Calendar.CivilDateOfDayNumber | src/generation/generation_module.py:108 | round trip: every second of the day numbered for a valid date has that date as its calendar date |
| Simulation.SeasonAt | src/generation/generation_module.py:108 | the season of a timestamp's calendar day, which always exists (CivilDateValid with SeasonCalendar) |
| Simulation.NearIds | src/generation/generation_module.py:134-139 | the ids the neighbour scan adds for a node; NearIdsMembers characterises it and SpreadFire computes it |
| Simulation.VisitNode | src/generation/generation_module.py:111-139 | one node of a timestamp: the burn test on the set as it stands, the intensity or ZeroDivisionError, and the spread at multiples of 30; VisitOne computes it, BurnsIffActive and VisitNodesFire state its burn condition |
| Simulation.VisitNodes | src/generation/generation_module.py:110-139 | the node loop of one timestamp, each node seeing the set the earlier ones left; VisitTick computes it, VisitNodesShape, VisitNodesFire, VisitNodesSpread and SpreadWithinTick state its properties |
| Simulation.EndTick | src/generation/generation_module.py:141-146 | the clock step after a timestamp; AdvanceClock computes it, RunTicksClock and TickActive state its effect |
| Simulation.Tick | src/generation/generation_module.py:106-146 | one timestamp: all node visits, then the clock step; SimulateTick computes it, TickActive states its effect on the set |
| Simulation.RunTicks | src/generation/generation_module.py:102-146 | the state after the first t timestamps; RunTicksLayout, RunTicksClock, RunTicksActive, RunTicksBurning and StaysEmpty state its properties |
| Simulation.Output | src/generation/generation_module.py:71-149 | the rows of the whole run or its exception; GenerateDataset computes it, OutputLayout, OutputFailsIff and OutputSeasonalReadings state its properties |
| Seasons.SeasonCalendar | src/generation/generation_module.py:8-30 | get_season succeeds exactly on the days of the leap reference year and otherwise raises ValueError; a valid day is spring iff March–May, summer iff June–August, autumn iff September–November, and winter iff December–February; the winter interval holds no day, so winter days (Feb 29 included) reach the fallback |
| Seasons.FirstMatchIsFirst | src/generation/generation_module.py:21-30 | the table scan returns the season of the first entry whose inclusive interval holds the day, or winter exactly when no entry holds it |
| Seasons.FindEntry | src/generation/generation_module.py:34-35 | the lookup by season finds an entry of the table belonging to that season |
| Seasons.TempRange | src/generation/generation_module.py:8-13 | the band of a season is the (low, high) pair of its table entry, and low < high |
| Calendar.CivilDateValid | src/generation/generation_module.py:108 | the month and day of every timestamp form an existing date |
| Sensors.ReadingInPhysicalRange | src/generation/generation_module.py:56-61 | for any draws and any intensity: humidity in [0, 100], oxygen in [10, 21], CO2 ≥ 0 |
| Sensors.CalmReading | src/generation/generation_module.py:38-54 | without fire, and with draws from their intervals: temperature within 2 °C of the season's band, humidity in [35, 85], oxygen in [18.8, 21], CO2 in [280, 420] |
| Sensors.FireTemperature | src/generation/generation_module.py:39-46 | on fire at intensity in [0, 1]: temperature between the band's low and its high plus 50 °C |
| Sensors.FireHumidity | src/generation/generation_module.py:40-58 | on fire at intensity in [0, 1]: humidity between half the baseline and the baseline |
| Sensors.DryingBounds | src/generation/generation_module.py:47-58 | drying a humidity in [0, 80] at intensity in [0, 1] keeps between half and all of it, and the clamp leaves it unchanged |
| Sensors.FireGases | src/generation/generation_module.py:41-60 | on fire at intensity i in [0, 1]: oxygen is exactly baseline − 2i and CO2 exactly baseline + 200i (the clamps do not bite); at i = 1 oxygen is in [17, 19] |
| Sensors.FireAtZeroIntensity | src/generation/generation_module.py:45-61 | on fire at intensity 0 the reading equals the baseline draws |
| Simulation.SpreadFire | src/generation/generation_module.py:134-139 | the neighbour scan adds exactly the ids of the nodes within tolerance of the node |
| Simulation.VisitOne | src/generation/generation_module.py:111-139 | visiting one node: either ZeroDivisionError exactly when the fold's step raises it, or the row appended and the active set after spreading, both as in the fold's step |
| Simulation.VisitTick | src/generation/generation_module.py:110-139 | the node loop of one timestamp computes the fold's visits of all nodes in order, or its ZeroDivisionError |
| Simulation.AdvanceClock | src/generation/generation_module.py:141-146 | the clock step equals the fold's end-of-tick step |
| Simulation.SimulateTick | src/generation/generation_module.py:106-146 | one timestamp of the driver equals the fold's tick, including its rows and errors |
| Simulation.GenerateDataset | src/generation/generation_module.py:71-149 | the driver's result equals the fold's output (rows, or the exception that aborts it) |
| Simulation.VisitNodesErrPersists | src/generation/generation_module.py:110-117 | an exception raised at one node of a timestamp aborts the rest of that timestamp unchanged |
| Simulation.RunTicksErrPersists | src/generation/generation_module.py:106-117 | an exception raised at one timestamp is the result of the whole run |
| SimulationFacts.NearIdsMembers | src/generation/generation_module.py:134-139 | an id is added by the scan iff it belongs to a listed node within tolerance on both axes |
| SimulationFacts.SpreadReachesSelf | src/generation/generation_module.py:135-139 | every node is its own neighbour, and being neighbours is symmetric |
| SimulationFacts.VisitNodesShape | src/generation/generation_module.py:110-130 | a timestamp appends one visit per node in list order, with that timestamp; the fire time is untouched and the active set only grows |
| SimulationFacts.VisitNodesFire | src/generation/generation_module.py:111-118 | a node burns only at or after the fire start with its id active; a node active when the timestamp began burns; a burning node has intensity max(1 − elapsed/duration, 0) and a nonzero duration, any other 0 |
| SimulationFacts.VisitNodesSpread | src/generation/generation_module.py:133-139 | within a timestamp the active set grows only on a fire time that is a multiple of 30, only by neighbours of nodes that burned, and all neighbours of each such node join it |
| SimulationFacts.VisitNodesQuiet | src/generation/generation_module.py:115 | if no node is burning when a timestamp begins, none burns and the active set is unchanged |
| SimulationFacts.BurnsIffActive | src/generation/generation_module.py:115-116 | a node burns iff the fire has started and its id is in the active set as the earlier nodes of the same timestamp left it (ids added later in the scan do not count) |
| SimulationFacts.SpreadWithinTick | src/generation/generation_module.py:110-139 | because the set is mutated during the scan, a later node of the same timestamp near a node that burned at a multiple of 30 burns in that same timestamp |
| SimulationFacts.VisitNodesPrefix | src/generation/generation_module.py:110-130 | the visits of the first m nodes of a timestamp are a prefix of those of the first k, with a smaller active set |
| SimulationFacts.RunTicksPrefix | src/generation/generation_module.py:106-130 | the visits after t timestamps are a prefix of those after any later count |
| SimulationFacts.RunTicksClock | src/generation/generation_module.py:103-143 | the fire time is 0 up to the first timestamp at or after the fire start and then counts seconds from it |
| SimulationFacts.RunTicksLayout | src/generation/generation_module.py:106-130 | t timestamps give t·N visits, timestamp-major, non-decreasing in time, with node k of the i-th timestamp at position i·N + k |
| SimulationFacts.RunTicksActive | src/generation/generation_module.py:102-146 | while the fire time is 0 only the start node is active; once it is positive and exceeds the duration the active set is empty (with a negative duration, fire time 0 already exceeds it but the set is only cleared after the first increment) |
| SimulationFacts.IntensityInUnit | src/generation/generation_module.py:117-118 | at fire time 0, or within the duration, the intensity is in [0, 1] |
| SimulationFacts.IntensityAntitone | src/generation/generation_module.py:117-118 | the intensity does not rise as the fire time advances within the duration |
| SimulationFacts.RunTicksBurning | src/generation/generation_module.py:111-118 | every burning visit is at or after the fire start, with a nonzero duration and a fire time of 0 or within the duration, and has the intensity of that fire time, in [0, 1]; every other visit has intensity 0 |
| SimulationFacts.TickActive | src/generation/generation_module.py:133-146 | one timestamp clears the set when the fire time passes the duration; otherwise the set only grows, only at multiples of 30, and only by neighbours of nodes that burned |
| SimulationFacts.StaysEmpty | src/generation/generation_module.py:133-146 | once the active set is empty it stays empty and no node burns again |
| SimulationFacts.NoFireBeforeStart | src/generation/generation_module.py:103-143 | no visit before the fire start burns; until then the fire time is 0 and only the start node is active |
| SimulationFacts.IntensityNonIncreasing | src/generation/generation_module.py:117-118 | along the run the intensity of burning visits never rises |
| SimulationFacts.OutputErrCause | src/generation/generation_module.py:99-117 | a run aborts only with ZeroDivisionError, only for a zero duration, a start node present in the list and a timestamp at or after the fire start |
| SimulationFacts.RunTicksErrCause | src/generation/generation_module.py:99-117 | the same, after any number of timestamps |
| SimulationFacts.VisitNodesErrCause | src/generation/generation_module.py:111-117 | a timestamp aborts only with ZeroDivisionError, for a zero duration at or after the fire start, at a node active when it began |
| SimulationFacts.VisitNodesNoDuration | src/generation/generation_module.py:115-117 | with a zero duration, a timestamp that completes spreads nothing |
| SimulationFacts.OutputErrWhen | src/generation/generation_module.py:99-117 | with a zero duration, the start node in the list and a timestamp at or after the fire start, the run aborts |
| SimulationFacts.VisitNodesAbort | src/generation/generation_module.py:115-117 | with a zero duration after the fire start, a timestamp with an active node in the list aborts |
| SimulationFacts.VisitNodesFireAt | src/generation/generation_module.py:110-117 | in a completed timestamp the k-th visit is node k, it burns if the node was burning when the timestamp began, and burning implies a nonzero duration |
| SimulationFacts.OutputFailsIff | src/generation/generation_module.py:99-117 | the run aborts iff the duration is zero, the start node is in the list and some timestamp is at or after the fire start; the exception is ZeroDivisionError |
| SimulationFacts.OutputLayout | src/generation/generation_module.py:106-130 | a completed run has Count·N rows, timestamp-major, each with its node's id and coordinates, fire in {0, 1}, and fire 1 only at or after the fire start |
| SimulationFacts.OutputReadingsInRange | src/generation/generation_module.py:56-61 | every row has humidity in [0, 100], oxygen in [10, 21] and CO2 ≥ 0 |
| SimulationFacts.VisitReading | src/generation/generation_module.py:38-61 | one visit's row, with draws from their intervals: calm within the noise of the bands, burning within the fire bounds |
| SimulationFacts.OutputSeasonalReadings | src/generation/generation_module.py:33-61 | with draws from their intervals, every calm row is within the noise of its season's bands, and every burning row is at most 50 °C above its season's band, with humidity in [20, 80], oxygen in [17, 21] and CO2 in [300, 600] |

## Left out

- `read_nodes`, the module's entry point and the CSV export: file I/O. The node list is a
  parameter.
- `print` of the dates and timestamps: console output with no effect on the result.
- pandas plumbing (`to_datetime`, `date_range`, `DataFrame`, `iterrows`): timestamps are
  integer seconds, the node table is a sequence and the result is a sequence of rows.
  Because `iterrows` turns every all-numeric node row into floats, the source's `node_id`
  column holds floats (125.0) where `Row.nodeId` is an integer; the test at line 115 is
  unaffected, since 125.0 and 125 are equal and hash alike.
- `np.random.uniform`: each call's draws are given by `Batch.draw(timestamp, node index)`.
  `WellDrawn` and `ValidDraws` state the interval each draw comes from. Distributions are not
  modelled, only their ranges.
- `round(x, 2)` on the readings, and floating-point rounding in general: values are exact
  reals. So the ranges proved hold for the unrounded values.
- The coordinate tolerance compares floating-point degrees in the source. In the model it is
  exact on integer micro-degrees.
- `FIRE_TEMP_MIN` and `FIRE_TEMP_MAX`: they are declared but never used.
- Calling `generate_dataset` without fire details: the source then fails with a TypeError.
  The model always takes a `FireDetails`.
- The default `start_date`/`end_date` of `generate_dataset` (line 71): the model always
  takes both bounds as inputs. A fractional duration in minutes (line 99 multiplies any
  number by 60): `FireDetails.duration` is a whole number of minutes.
- Time zones, and timestamps as pandas parses them from strings.
- `setup_database.py`, `seed_points.py`, `models.py` and the real-time driver are not part of
  this model.

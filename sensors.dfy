/**
 * Synthesis of one sensor reading. Every uniform random draw of the source is a field of
 * Draws, and WellDrawn states the interval each draw comes from.
 */
module Sensors {
  import opened Seasons

  /** The random draws one call consumes; the fire branch uses fireHeat, the calm branch the noises. */
  datatype Draws = Draws(
    baseTemperature: real,
    baseHumidity: real,
    baseOxygen: real,
    baseCo2: real,
    fireHeat: real,
    temperatureNoise: real,
    humidityNoise: real,
    oxygenNoise: real,
    co2Noise: real)

  predicate Within(x: real, lo: real, hi: real) {
    lo <= x <= hi
  }

  /** Each draw lies in the interval of its uniform distribution. */
  predicate WellDrawn(season: Season, d: Draws) {
    && Within(d.baseTemperature, TempRange(season).0 as real, TempRange(season).1 as real)
    && Within(d.baseHumidity, 40.0, 80.0)
    && Within(d.baseOxygen, 19.0, 21.0)
    && Within(d.baseCo2, 300.0, 400.0)
    && Within(d.fireHeat, 30.0, 50.0)
    && Within(d.temperatureNoise, -2.0, 2.0)
    && Within(d.humidityNoise, -5.0, 5.0)
    && Within(d.oxygenNoise, -0.2, 0.2)
    && Within(d.co2Noise, -20.0, 20.0)
  }

  /** Temperature in °C, humidity and oxygen in %, CO2 in ppm. */
  datatype Reading = Reading(temperature: real, humidity: real, oxygen: real, co2: real)

  function Max(a: real, b: real): real {
    if a >= b then a else b
  }

  function Min(a: real, b: real): real {
    if a <= b then a else b
  }

  /** A fraction of a non-negative bounded quantity stays within the same bounds. */
  lemma FractionBounds(a: real, b: real, bMax: real)
    ensures 0.0 <= a <= 1.0 && 0.0 <= b <= bMax ==> 0.0 <= a * b <= b <= bMax
  {
    if 0.0 <= a <= 1.0 && 0.0 <= b <= bMax {
      assert (1.0 - a) * b >= 0.0;
    }
  }

  /**
   * Drying at an intensity in [0, 1] keeps between half and all of a humidity in [0, 80],
   * so the clamp to [0, 100] leaves the dried value unchanged.
   */
  lemma DryingBounds(h: real, intensity: real)
    requires 0.0 <= intensity <= 1.0 && 0.0 <= h <= 80.0
    ensures h / 2.0 <= Max(Min(h * (1.0 - intensity * 0.5), 100.0), 0.0) <= h
  {
    var loss := h * intensity;
    var dried := h * (1.0 - intensity * 0.5);
    FractionBounds(intensity, h, h);
    assert 0.0 <= loss <= h;
    assert dried == h - loss * 0.5;
    assert h / 2.0 <= dried <= h;
    assert Min(dried, 100.0) == dried;
    assert Max(dried, 0.0) == dried;
  }

  /**
   * The reading of a node in the given season, on fire with the given intensity or not:
   * baseline draws plus either noise or intensity-scaled fire offsets, then humidity and
   * oxygen clamped to their ranges and CO2 to non-negative values.
   */
  function GenerateDataForNode(season: Season, fire: bool, intensity: real, d: Draws): Reading {
    var temperature :=
      if fire then d.baseTemperature + intensity * d.fireHeat
      else d.baseTemperature + d.temperatureNoise;
    var humidity :=
      if fire then d.baseHumidity * (1.0 - intensity * 0.5)
      else d.baseHumidity + d.humidityNoise;
    var oxygen :=
      if fire then d.baseOxygen - intensity * 2.0
      else d.baseOxygen + d.oxygenNoise;
    var co2 :=
      if fire then d.baseCo2 + intensity * 200.0
      else d.baseCo2 + d.co2Noise;
    Reading(temperature, Max(Min(humidity, 100.0), 0.0), Max(Min(oxygen, 21.0), 10.0), Max(co2, 0.0))
  }

  /** Humidity, oxygen and CO2 end in their physical ranges whatever the draws and the intensity. */
  lemma ReadingInPhysicalRange(season: Season, fire: bool, intensity: real, d: Draws)
    ensures var r := GenerateDataForNode(season, fire, intensity, d);
            0.0 <= r.humidity <= 100.0 && 10.0 <= r.oxygen <= 21.0 && 0.0 <= r.co2
  {
  }

  /**
   * Without fire each value stays within its noise of the baseline band, and the clamps
   * do not bite except that oxygen is capped at 21%.
   */
  lemma CalmReading(season: Season, intensity: real, d: Draws)
    requires WellDrawn(season, d)
    ensures var r := GenerateDataForNode(season, false, intensity, d);
            && TempRange(season).0 as real - 2.0 <= r.temperature <= TempRange(season).1 as real + 2.0
            && 35.0 <= r.humidity <= 85.0
            && 18.8 <= r.oxygen <= 21.0
            && 280.0 <= r.co2 <= 420.0
  {
  }

  /** On fire with an intensity in [0, 1] the temperature rises by at most 50 °C over the band. */
  lemma FireTemperature(season: Season, intensity: real, d: Draws)
    requires WellDrawn(season, d) && 0.0 <= intensity <= 1.0
    ensures var r := GenerateDataForNode(season, true, intensity, d);
            TempRange(season).0 as real <= r.temperature <= TempRange(season).1 as real + 50.0
  {
    var heat := intensity * d.fireHeat;
    var band := TempRange(season);
    FractionBounds(intensity, d.fireHeat, 50.0);
    assert 0.0 <= heat <= 50.0;
    assert band.0 as real <= d.baseTemperature <= band.1 as real;
    assert GenerateDataForNode(season, true, intensity, d).temperature == d.baseTemperature + heat;
  }

  /** On fire with an intensity in [0, 1] humidity keeps between half and all of its baseline. */
  lemma FireHumidity(season: Season, intensity: real, d: Draws)
    requires WellDrawn(season, d) && 0.0 <= intensity <= 1.0
    ensures var r := GenerateDataForNode(season, true, intensity, d);
            d.baseHumidity / 2.0 <= r.humidity <= d.baseHumidity
  {
    DryingBounds(d.baseHumidity, intensity);
  }

  /**
   * On fire with an intensity in [0, 1] oxygen falls by exactly twice the intensity and CO2
   * rises by exactly 200 times it, the clamps leaving both unchanged; at full intensity
   * oxygen lies in [17, 19].
   */
  lemma FireGases(season: Season, intensity: real, d: Draws)
    requires WellDrawn(season, d) && 0.0 <= intensity <= 1.0
    ensures var r := GenerateDataForNode(season, true, intensity, d);
            && r.oxygen == d.baseOxygen - 2.0 * intensity
            && r.co2 == d.baseCo2 + 200.0 * intensity
            && (intensity == 1.0 ==> 17.0 <= r.oxygen <= 19.0)
  {
  }

  /** On fire at zero intensity the baseline draws pass through unchanged. */
  lemma FireAtZeroIntensity(season: Season, d: Draws)
    requires WellDrawn(season, d)
    ensures GenerateDataForNode(season, true, 0.0, d)
            == Reading(d.baseTemperature, d.baseHumidity, d.baseOxygen, d.baseCo2)
  {
  }
}

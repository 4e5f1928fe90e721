/**
 * The season table and the season lookup: a calendar day is tested against each
 * season's inclusive (start, end) interval in table order, and a day that lies in
 * none of them is winter.
 */
module Seasons {
  import opened Wrappers
  import Calendar

  datatype Season = Winter | Spring | Summer | Autumn

  /** A day of the reference year, compared as a (month, day) pair. */
  datatype Day = Day(month: int, day: int)

  predicate NotAfter(a: Day, b: Day) {
    a.month < b.month || (a.month == b.month && a.day <= b.day)
  }

  /** One row of the season table: its interval and its ambient temperature band in °C. */
  datatype SeasonEntry = SeasonEntry(season: Season, start: Day, end: Day, low: int, high: int)

  /** Every date is placed in the leap year 2000, so February 29 is a valid day. */
  const ReferenceYear := 2000

  /** The season table, in the iteration order of the source's dictionary. */
  const SeasonTable: seq<SeasonEntry> := [
    SeasonEntry(Winter, Day(12, 1), Day(2, 28), -10, 5),
    SeasonEntry(Spring, Day(3, 1), Day(5, 31), 5, 20),
    SeasonEntry(Summer, Day(6, 1), Day(8, 31), 15, 35),
    SeasonEntry(Autumn, Day(9, 1), Day(11, 30), 5, 20)
  ]

  predicate InInterval(e: SeasonEntry, d: Day) {
    NotAfter(e.start, d) && NotAfter(d, e.end)
  }

  /** The season of the first entry whose interval holds d, or winter when none does. */
  function FirstMatch(table: seq<SeasonEntry>, d: Day): Season {
    if |table| == 0 then Winter
    else if InInterval(table[0], d) then table[0].season
    else FirstMatch(table[1..], d)
  }

  /**
   * FirstMatch returns the season of the first entry holding d, and falls back to winter
   * exactly when no entry holds d.
   */
  lemma {:induction false} FirstMatchIsFirst(table: seq<SeasonEntry>, d: Day)
    ensures var r := FirstMatch(table, d);
            || (exists i :: 0 <= i < |table| && InInterval(table[i], d) && table[i].season == r
                          && forall j :: 0 <= j < i ==> !InInterval(table[j], d))
            || (r == Winter && forall i :: 0 <= i < |table| ==> !InInterval(table[i], d))
  {
    if |table| > 0 && !InInterval(table[0], d) {
      FirstMatchIsFirst(table[1..], d);
      assert forall i :: 1 <= i < |table| ==> table[i] == table[1..][i - 1];
      var r := FirstMatch(table[1..], d);
      if exists i :: 0 <= i < |table[1..]| && InInterval(table[1..][i], d) && table[1..][i].season == r
                     && forall j :: 0 <= j < i ==> !InInterval(table[1..][j], d) {
        var i :| 0 <= i < |table[1..]| && InInterval(table[1..][i], d) && table[1..][i].season == r
                 && forall j :: 0 <= j < i ==> !InInterval(table[1..][j], d);
        assert forall j :: 0 <= j < i + 1 ==> !InInterval(table[j], d) by {
          forall j | 0 <= j < i + 1 ensures !InInterval(table[j], d) {
            if j > 0 { assert table[j] == table[1..][j - 1]; }
          }
        }
      }
    }
  }

  /** The season of a (month, day) pair; a day that does not exist raises ValueError. */
  function GetSeason(month: int, day: int): Result<Season> {
    if Calendar.ValidDate(ReferenceYear, month, day) then Ok(FirstMatch(SeasonTable, Day(month, day)))
    else Err(ValueError)
  }

  /** The table entry of a season, as the dictionary lookup by season name finds it. */
  function FindEntry(table: seq<SeasonEntry>, s: Season): (e: SeasonEntry)
    requires exists i :: 0 <= i < |table| && table[i].season == s
    ensures e in table && e.season == s
  {
    if table[0].season == s then table[0]
    else
      assert forall i :: 1 <= i < |table| ==> table[i] == table[1..][i - 1];
      FindEntry(table[1..], s)
  }

  /** The ambient temperature band (low, high) of a season. */
  function TempRange(s: Season): (r: (int, int))
    ensures exists i :: 0 <= i < |SeasonTable| && SeasonTable[i].season == s
                        && r == (SeasonTable[i].low, SeasonTable[i].high)
    ensures r.0 < r.1
  {
    assert SeasonTable[0].season == Winter && SeasonTable[1].season == Spring;
    assert SeasonTable[2].season == Summer && SeasonTable[3].season == Autumn;
    var e := FindEntry(SeasonTable, s);
    (e.low, e.high)
  }

  /**
   * GetSeason is defined on exactly the days that exist in the reference year, and there
   * it gives the season of every day: March to May is spring, June to August
   * summer, September to November autumn, and December to February winter. The winter entry
   * starts after it ends, so no day lies in its interval and every winter day, February
   * 29 included, reaches the fallback.
   */
  lemma {:induction false} SeasonCalendar(month: int, day: int)
    ensures GetSeason(month, day).Ok? <==> Calendar.ValidDate(ReferenceYear, month, day)
    ensures GetSeason(month, day).Err? ==> GetSeason(month, day).error == ValueError
    ensures !InInterval(SeasonTable[0], Day(month, day))
    ensures Calendar.ValidDate(ReferenceYear, month, day) ==>
              && (GetSeason(month, day) == Ok(Spring) <==> 3 <= month <= 5)
              && (GetSeason(month, day) == Ok(Summer) <==> 6 <= month <= 8)
              && (GetSeason(month, day) == Ok(Autumn) <==> 9 <= month <= 11)
              && (GetSeason(month, day) == Ok(Winter) <==> (month == 12 || month <= 2))
    ensures (month == 12 || month <= 2) ==>
              forall i :: 0 <= i < |SeasonTable| ==> !InInterval(SeasonTable[i], Day(month, day))
  {
    var d := Day(month, day);
    var t := SeasonTable;
    assert t[1..][1..][1..][1..] == [];
    assert FirstMatch(t, d) == if InInterval(t[0], d) then Winter else FirstMatch(t[1..], d);
    assert FirstMatch(t[1..], d) == if InInterval(t[1], d) then Spring else FirstMatch(t[1..][1..], d);
    assert FirstMatch(t[1..][1..], d) == if InInterval(t[2], d) then Summer else FirstMatch(t[1..][1..][1..], d);
    assert FirstMatch(t[1..][1..][1..], d) == if InInterval(t[3], d) then Autumn else Winter;
  }
}

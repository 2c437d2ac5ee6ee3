/** UTC calendar fields of an instant, as the JavaScript `Date` getters report them:
    `getSeconds`, `getMinutes`, `getHours`, `getDate`, `getMonth() + 1` and `getDay`.
    Instants are whole seconds since 1970-01-01T00:00:00Z, which was a Thursday. */
module Civil {

  const SecondsPerDay: int := 86400

  /** The fields a cron rule is matched against, in rule order. */
  datatype DateTime = DateTime(second: int, minute: int, hour: int, day: int, month: int, weekday: int)

  /** Year, month (1-12) and day of month (1-31) of a day counted from 1970-01-01 in the
      proleptic Gregorian calendar. Years are counted from March 1 so that the leap day
      closes its year: a 400-year era has 146097 days, its first three centuries 36524
      days and the last 36525, a 4-year block 1461 days, and a year 365 or 366. */
  function CivilFromDays(days: int): (r: (int, int, int))
    ensures 1 <= r.1 <= 12 && 1 <= r.2 <= 31
  {
    var z := days + 719468;                      // days since 0000-03-01
    var era := z / 146097;
    var doe := z % 146097;                       // day of era, 0..146096
    var c := if doe / 36524 < 3 then doe / 36524 else 3;
    var doc := doe - 36524 * c;                  // day of century, 0..36524
    var q := doc / 1461;
    var doq := doc % 1461;                       // day of 4-year block, 0..1460
    var yq := if doq / 365 < 3 then doq / 365 else 3;
    var doy := doq - 365 * yq;                   // day of year (from March 1), 0..365
    var mp := (5 * doy + 2) / 153;               // month from March, 0..11
    var d := doy - (153 * mp + 2) / 5 + 1;
    var m := if mp < 10 then mp + 3 else mp - 9;
    var y := era * 400 + 100 * c + 4 * q + yq;
    (if m <= 2 then y + 1 else y, m, d)
  }

  /** The calendar fields of instant `t` (seconds since the epoch). */
  function DateOf(t: int): (d: DateTime)
    ensures 0 <= d.second < 60 && 0 <= d.minute < 60 && 0 <= d.hour < 24
    ensures 1 <= d.day <= 31 && 1 <= d.month <= 12 && 0 <= d.weekday < 7
  {
    var days := t / SecondsPerDay;
    var sod := t % SecondsPerDay;
    var ymd := CivilFromDays(days);
    DateTime(sod % 60, (sod / 60) % 60, sod / 3600, ymd.2, ymd.1, (days + 4) % 7)
  }
}

/** set_uptime of libzsr/uptime.c: a mixed-radix reading of the seconds since the start. */
module Uptime {
  import opened Words

  const MINUTE := 60
  const HOUR := 3600
  const DAY := 86400
  const MONTH := 2592000
  const YEAR := 31536000

  class UptimeStat {
    var totalSec: u64
    var year: u64
    var month: u64
    var day: u64
    var hour: u64
    var minute: u64
  }

  /** The stored fields, and the seconds that are left over. */
  datatype Parts = Parts(year: nat, month: nat, day: nat, hour: nat, minute: nat, second: nat)

  /** Twelve months of 30 days leave five days of a year over, which count as a thirteenth month. */
  predicate WellFormed(p: Parts) {
    && p.month <= 12 && p.day < 30 && p.hour < 24 && p.minute < 60 && p.second < 60
    && (p.month == 12 ==> p.day <= 4)
  }

  function Total(p: Parts): nat {
    (((p.year * 365 + p.month * 30 + p.day) * 24 + p.hour) * 60 + p.minute) * 60 + p.second
  }

  /** The only well-formed reading of a number of seconds. */
  function Split(total: nat): (p: Parts)
    ensures WellFormed(p) && Total(p) == total
  {
    var inYear := total % YEAR;
    var inMonth := inYear % MONTH;
    var inDay := inMonth % DAY;
    var inHour := inDay % HOUR;
    Parts(total / YEAR, inYear / MONTH, inMonth / DAY, inDay / HOUR, inHour / MINUTE, inHour % MINUTE)
  }

  method SetUptime(totalSec: u64, up: UptimeStat)
    modifies up
    ensures up.totalSec == totalSec
    ensures var p := Split(totalSec);
      up.year == p.year && up.month == p.month && up.day == p.day && up.hour == p.hour && up.minute == p.minute
  {
    up.totalSec := totalSec;
    up.year := totalSec / YEAR;
    var tmpSec := totalSec % YEAR;
    up.month := tmpSec / MONTH;
    tmpSec := tmpSec % MONTH;
    up.day := tmpSec / DAY;
    tmpSec := tmpSec % DAY;
    up.hour := tmpSec / HOUR;
    tmpSec := tmpSec % HOUR;
    up.minute := tmpSec / MINUTE;
  }

  predicate Before(a: Parts, b: Parts) {
    || a.year < b.year
    || (a.year == b.year
        && (|| a.month < b.month
            || (a.month == b.month
                && (|| a.day < b.day
                    || (a.day == b.day
                        && (|| a.hour < b.hour
                            || (a.hour == b.hour
                                && (|| a.minute < b.minute
                                    || (a.minute == b.minute && a.second < b.second)))))))))
  }

  /** Within a year, the parts after the year stay below a year. */
  lemma BelowYear(p: Parts)
    requires WellFormed(p)
    ensures Total(p) - p.year * YEAR < YEAR
  {
  }

  /** Well-formed parts are in lexicographic order exactly when their totals are in order. */
  lemma OrderIsLexicographic(a: Parts, b: Parts)
    requires WellFormed(a) && WellFormed(b)
    ensures Before(a, b) <==> Total(a) < Total(b)
  {
    if Before(a, b) {
      BeforeIsLess(a, b);
    } else if a != b {
      BeforeIsLess(b, a);
    }
  }

  lemma BeforeIsLess(a: Parts, b: Parts)
    requires WellFormed(a) && WellFormed(b) && Before(a, b)
    ensures Total(a) < Total(b)
  {
    BelowYear(a);
    if a.year < b.year {
      assert (a.year + 1) * YEAR <= b.year * YEAR;
    }
  }

  /** Reading the total of well-formed parts gives the parts back: set_uptime loses only the seconds. */
  lemma SplitOfTotal(p: Parts)
    requires WellFormed(p)
    ensures Split(Total(p)) == p
  {
    var q := Split(Total(p));
    OrderIsLexicographic(p, q);
    OrderIsLexicographic(q, p);
  }
}

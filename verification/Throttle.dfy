/** The table of rate-limited upstream URLs (pkg/api/throttle.go): every 429 in a row doubles the time
    a URL is left alone, up to a cap, and a success forgets it. */
module Throttle {
  import opened Common

  /** Go's `time.Duration`: nanoseconds in a signed 64-bit word. */
  newtype Duration = d: int | -0x8000_0000_0000_0000 <= d < 0x8000_0000_0000_0000

  /** An instant, in nanoseconds. */
  type Time = int

  /** 30 seconds and 10 minutes. */
  const BASE: Duration := 30_000_000_000
  const MAX_BACKOFF: Duration := 600_000_000_000

  /** `BASE` doubled `k` times, without a cap and without a word size. */
  function Doubled(k: nat): int {
    if k == 0 then BASE as int else 2 * Doubled(k - 1)
  }

  /** The pause after the `n`-th rate limit in a row: min(30s * 2^(n-1), 600s). */
  function Backoff(n: nat): int {
    var d := if n == 0 then 0 else Doubled(n - 1);
    if d <= MAX_BACKOFF as int then d else MAX_BACKOFF as int
  }

  lemma {:induction false} DoubledMonotone(j: nat, k: nat)
    requires j <= k
    ensures 0 < Doubled(j) <= Doubled(k)
  {
    if j < k {
      DoubledMonotone(j, k - 1);
    } else if j > 0 {
      DoubledMonotone(j - 1, k - 1);
    }
  }

  lemma BackoffMonotone(m: nat, n: nat)
    requires m <= n
    ensures 0 <= Backoff(m) <= Backoff(n)
  {
    if m > 0 {
      DoubledMonotone(m - 1, n - 1);
    } else if n > 0 {
      DoubledMonotone(0, n - 1);
    }
  }

  /** The pauses in nanoseconds: half a minute first, each next one twice as long, at most ten minutes. */
  lemma BackoffSchedule(n: nat)
    ensures Backoff(1) == 30_000_000_000 && Backoff(2) == 60_000_000_000 && Backoff(3) == 120_000_000_000
    ensures Backoff(4) == 240_000_000_000 && Backoff(5) == 480_000_000_000
    ensures n >= 6 ==> Backoff(n) == 600_000_000_000
    ensures n >= 1 ==> Backoff(n + 1) == if 2 * Backoff(n) <= 600_000_000_000 then 2 * Backoff(n) else 600_000_000_000
  {
    assert Doubled(0) == 30_000_000_000 && Doubled(1) == 2 * Doubled(0) && Doubled(2) == 2 * Doubled(1);
    assert Doubled(3) == 2 * Doubled(2) && Doubled(4) == 2 * Doubled(3) && Doubled(5) == 2 * Doubled(4);
    if n >= 6 {
      DoubledMonotone(5, n - 1);
      DoubledMonotone(5, n);
    }
  }

  /** What happened to the throttler, oldest first. */
  datatype Event = Marked(url: string, at: Time) | Cleared(url: string)

  datatype Table = Table(until: map<string, Time>, backoffs: map<string, nat>)

  function Count(t: Table, url: string): nat {
    if url in t.backoffs then t.backoffs[url] else 0
  }

  function After(t: Table, e: Event): Table {
    match e
    case Marked(url, at) =>
      var n := Count(t, url) + 1;
      Table(t.until[url := at + Backoff(n)], t.backoffs[url := n])
    case Cleared(url) => Table(t.until - {url}, t.backoffs - {url})
  }

  function Replay(log: seq<Event>): Table {
    if log == [] then Table(map[], map[]) else After(Replay(log[..|log| - 1]), log[|log| - 1])
  }

  /** So a throttler that starts empty always holds the replay of its calls. */
  lemma ReplaySnoc(log: seq<Event>, e: Event)
    ensures Replay(log + [e]) == After(Replay(log), e)
  {
    SnocInit(log, e);
  }

  class Throttler {
    var until: map<string, Time>
    var backoffs: map<string, nat>

    ghost function Now(): Table
      reads this
    {
      Table(until, backoffs)
    }

    constructor ()
      ensures Now() == Replay([])
    {
      until := map[];
      backoffs := map[];
    }

    /** `now` is the clock reading of the call. */
    method IsThrottled(url: string, now: Time) returns (b: bool)
      ensures b <==> Throttled(Now(), url, now)
    {
      if url in until {
        return now < until[url];
      }
      return false;
    }

    /** The doubling loop stays below twice the cap, so it never leaves the 64-bit range, for any count. */
    method Mark429(url: string, now: Time)
      modifies this
      ensures Now() == After(old(Now()), Marked(url, now))
    {
      backoffs := backoffs[url := (if url in backoffs then backoffs[url] else 0) + 1];
      var n := backoffs[url];
      var backoff := BASE;
      for i := 1 to n
        invariant 0 < backoff as int == Doubled(i - 1) <= MAX_BACKOFF as int
      {
        backoff := backoff * 2;
        if backoff >= MAX_BACKOFF {
          backoff := MAX_BACKOFF;
          DoubledMonotone(i, n - 1);
          break;
        }
      }
      assert backoff as int == Backoff(n);
      until := until[url := now + backoff as int];
    }

    method Reset(url: string)
      modifies this
      ensures Now() == After(old(Now()), Cleared(url))
    {
      until := until - {url};
      backoffs := backoffs - {url};
    }
  }

  predicate Throttled(t: Table, url: string, now: Time) {
    url in t.until && now < t.until[url]
  }

  // ----- What the table means in terms of its log -----

  /** `log[i]` marked `url` and nothing has cleared it since. */
  predicate Live(log: seq<Event>, url: string, i: nat) {
    i < |log| && log[i].Marked? && log[i].url == url && forall j :: i < j < |log| ==> log[j] != Cleared(url)
  }

  ghost function LiveMarks(log: seq<Event>, url: string): set<nat> {
    set i: nat | i < |log| && Live(log, url, i)
  }

  lemma LiveMarksSnoc(log: seq<Event>, url: string)
    requires log != []
    ensures var n := |log| - 1;
            LiveMarks(log, url) ==
            if log[n] == Cleared(url) then {}
            else if log[n].Marked? && log[n].url == url then LiveMarks(log[..n], url) + {n}
            else LiveMarks(log[..n], url)
  {
    var n := |log| - 1;
    forall i: nat | i < n && log[n] != Cleared(url)
      ensures Live(log, url, i) <==> Live(log[..n], url, i)
    {
      assert forall j :: 0 <= j < n ==> log[..n][j] == log[j];
    }
  }

  /** A URL's count is the number of marks since its last reset, and it has a deadline exactly when that
      number is positive. */
  lemma {:induction false} CountMeansLog(log: seq<Event>, url: string)
    ensures Count(Replay(log), url) == |LiveMarks(log, url)|
    ensures url in Replay(log).until <==> LiveMarks(log, url) != {}
    ensures url in Replay(log).backoffs <==> LiveMarks(log, url) != {}
  {
    if log != [] {
      CountMeansLog(log[..|log| - 1], url);
      LiveMarksSnoc(log, url);
    }
  }

  /** A URL's deadline is its last mark plus min(30s * 2^(count-1), 600s). */
  lemma {:induction false} DeadlineMeansLog(log: seq<Event>, url: string) returns (last: nat)
    requires url in Replay(log).until
    ensures last in LiveMarks(log, url) && forall j :: j in LiveMarks(log, url) ==> j <= last
    ensures Replay(log).until[url] == log[last].at + Backoff(|LiveMarks(log, url)|)
  {
    var n := |log| - 1;
    LiveMarksSnoc(log, url);
    CountMeansLog(log, url);
    if log[n].Marked? && log[n].url == url {
      last := n;
    } else {
      last := DeadlineMeansLog(log[..n], url);
      assert log[..n][last] == log[last];
    }
  }

  /** In seconds: the first mark of a URL since its last reset throttles it for 30, the next for 60, then 120,
      240 and 480, and every later one for 600. It is throttled exactly until that time has passed since the
      last mark. */
  lemma ThrottledIff(log: seq<Event>, url: string, now: Time) returns (last: nat)
    ensures LiveMarks(log, url) == {} ==> !Throttled(Replay(log), url, now)
    ensures LiveMarks(log, url) != {} ==>
              && last in LiveMarks(log, url) && (forall j :: j in LiveMarks(log, url) ==> j <= last)
              && var n := |LiveMarks(log, url)|;
                 var pause := if n == 1 then 30_000_000_000 else if n == 2 then 60_000_000_000
                              else if n == 3 then 120_000_000_000 else if n == 4 then 240_000_000_000
                              else if n == 5 then 480_000_000_000 else 600_000_000_000;
                 Throttled(Replay(log), url, now) <==> now < log[last].at + pause
  {
    CountMeansLog(log, url);
    if LiveMarks(log, url) != {} {
      last := DeadlineMeansLog(log, url);
      BackoffSchedule(|LiveMarks(log, url)|);
      LiveSomewhere(log, url);
    } else {
      last := 0;
    }
  }

  lemma LiveSomewhere(log: seq<Event>, url: string)
    requires LiveMarks(log, url) != {}
    ensures |LiveMarks(log, url)| >= 1
  {
  }

  /** Marks carry non-decreasing clock readings. */
  predicate Clocked(log: seq<Event>) {
    forall i, j :: 0 <= i < j < |log| && log[i].Marked? && log[j].Marked? ==> log[i].at <= log[j].at
  }

  lemma DeadlineStep(log: seq<Event>, url: string)
    requires Clocked(log) && log != [] && log[|log| - 1] != Cleared(url)
    requires url in Replay(log[..|log| - 1]).until
    ensures url in Replay(log).until && Replay(log[..|log| - 1]).until[url] <= Replay(log).until[url]
  {
    var n := |log| - 1;
    var init := log[..n];
    var i := DeadlineMeansLog(init, url);
    CountMeansLog(init, url);
    if log[n].Marked? && log[n].url == url {
      assert init[i] == log[i];
      BackoffMonotone(|LiveMarks(init, url)|, |LiveMarks(init, url)| + 1);
    }
  }

  /** As long as a URL is not reset, its deadline never moves earlier. */
  lemma {:induction false} DeadlinesNeverMoveEarlier(log: seq<Event>, url: string, m: nat)
    requires Clocked(log) && m <= |log| && url in Replay(log[..m]).until
    requires forall j :: m <= j < |log| ==> log[j] != Cleared(url)
    ensures url in Replay(log).until && Replay(log[..m]).until[url] <= Replay(log).until[url]
    decreases |log|
  {
    if m == |log| {
      assert log[..m] == log;
    } else {
      var init := log[..|log| - 1];
      assert init[..m] == log[..m];
      DeadlinesNeverMoveEarlier(init, url, m);
      DeadlineStep(log, url);
    }
  }

  // ----- Marks that respect the deadlines are spread out -----

  /** Every mark happened at or after the deadline its URL had at that moment. */
  ghost predicate Spaced(log: seq<Event>) {
    forall i {:trigger Due(log[..i], log[i])} :: 0 <= i < |log| && log[i].Marked? ==> Due(log[..i], log[i])
  }

  predicate Due(log: seq<Event>, e: Event)
    requires e.Marked?
  {
    !Throttled(Replay(log), e.url, e.at)
  }

  /** The sum of the first `m` pauses. */
  function Pauses(m: nat): int {
    if m == 0 then 0 else Pauses(m - 1) + Backoff(m)
  }

  /** In seconds: 30, 90, 210, 450 and 930 after one to five pauses, and 600 more for every further one. */
  lemma {:induction false} PausesSum(m: nat)
    ensures Pauses(0) == 0 && Pauses(1) == 30_000_000_000 && Pauses(2) == 90_000_000_000
    ensures Pauses(3) == 210_000_000_000 && Pauses(4) == 450_000_000_000
    ensures m >= 5 ==> Pauses(m) == 930_000_000_000 + 600_000_000_000 * (m - 5)
  {
    BackoffSchedule(m);
    assert Pauses(0) == 0 && Pauses(1) == Backoff(1) && Pauses(2) == Pauses(1) + Backoff(2);
    assert Pauses(3) == Pauses(2) + Backoff(3) && Pauses(4) == Pauses(3) + Backoff(4);
    assert Pauses(5) == Pauses(4) + Backoff(5);
    if m > 5 {
      PausesSum(m - 1);
    }
  }

  /** How often `log[a..b]` marks `url`. */
  function Marks(log: seq<Event>, url: string, a: nat, b: nat): nat
    requires a <= b <= |log|
  {
    if a == b then 0
    else Marks(log, url, a, b - 1) + if log[b - 1].Marked? && log[b - 1].url == url then 1 else 0
  }

  /** The positions from `a` to `b` at which the log marks `url`. */
  function MarkedAt(log: seq<Event>, url: string, a: nat, b: nat): set<nat> {
    set i: nat | a <= i < b && i < |log| && log[i].Marked? && log[i].url == url
  }

  lemma {:induction false} MarksAreCounted(log: seq<Event>, url: string, a: nat, b: nat)
    requires a <= b <= |log|
    ensures Marks(log, url, a, b) == |MarkedAt(log, url, a, b)|
    decreases b
  {
    if a < b {
      MarksAreCounted(log, url, a, b - 1);
      if log[b - 1].Marked? && log[b - 1].url == url {
        assert MarkedAt(log, url, a, b) == MarkedAt(log, url, a, b - 1) + {b - 1};
      } else {
        assert MarkedAt(log, url, a, b) == MarkedAt(log, url, a, b - 1);
      }
    } else {
      assert MarkedAt(log, url, a, b) == {};
    }
  }

  /** The deadline of `url` is at least `k` pauses after `start`, and its count at least `k`. */
  predicate Behind(t: Table, url: string, start: Time, k: nat) {
    url in t.until && url in t.backoffs && k <= t.backoffs[url] && t.until[url] >= start + Pauses(k)
  }

  lemma BehindStep(t: Table, e: Event, url: string, start: Time, k: nat)
    requires Behind(t, url, start, k) && e != Cleared(url)
    requires e.Marked? && e.url == url ==> !Throttled(t, url, e.at)
    ensures Behind(After(t, e), url, start, if e.Marked? && e.url == url then k + 1 else k)
  {
    if e.Marked? && e.url == url {
      BackoffMonotone(k + 1, t.backoffs[url] + 1);
    }
  }

  lemma {:induction false} DeadlineAfterMarks(log: seq<Event>, url: string, a: nat, b: nat)
    requires a < b <= |log| && Spaced(log) && log[a].Marked? && log[a].url == url
    requires forall j :: a < j < b ==> log[j] != Cleared(url)
    ensures Behind(Replay(log[..b]), url, log[a].at, Marks(log, url, a, b))
    decreases b
  {
    assert log[..b][..b - 1] == log[..b - 1];
    if b == a + 1 {
      BackoffMonotone(1, Count(Replay(log[..a]), url) + 1);
      assert Marks(log, url, a, a) == 0 && Pauses(1) == Pauses(0) + Backoff(1);
    } else {
      DeadlineAfterMarks(log, url, a, b - 1);
      assert log[b - 1].Marked? ==> Due(log[..b - 1], log[b - 1]);
      BehindStep(Replay(log[..b - 1]), log[b - 1], url, log[a].at, Marks(log, url, a, b - 1));
    }
  }

  /** Events `a` and `b` mark `url`, and nothing resets it between them. */
  predicate KeepsFailing(log: seq<Event>, url: string, a: nat, b: nat) {
    && a < b < |log|
    && log[a].Marked? && log[a].url == url && log[b].Marked? && log[b].url == url
    && forall j :: a < j < b ==> log[j] != Cleared(url)
  }

  /** `k` marks of a URL with no reset between span at least the first `k - 1` pauses: for two marks half a
      minute, for three a minute and a half, and so on. */
  lemma {:induction false} MarksAreSpread(log: seq<Event>, url: string, a: nat, b: nat)
    requires Spaced(log) && KeepsFailing(log, url, a, b)
    ensures var k := |MarkedAt(log, url, a, b + 1)|;
            k >= 2 && log[b].at - log[a].at >= Pauses(k - 1) && Wide(log[b].at - log[a].at, k)
  {
    DeadlineAfterMarks(log, url, a, b);
    assert Due(log[..b], log[b]);
    MarksAreCounted(log, url, a, b);
    MarksAreCounted(log, url, a, b + 1);
    AtLeastOneMark(log, url, a, b);
    PausesSum(|MarkedAt(log, url, a, b + 1)| - 1);
  }

  lemma {:induction false} AtLeastOneMark(log: seq<Event>, url: string, a: nat, b: nat)
    requires a < b <= |log| && log[a].Marked? && log[a].url == url
    ensures |MarkedAt(log, url, a, b)| >= 1
  {
    assert a in MarkedAt(log, url, a, b);
  }

  /** A time in nanoseconds that `k` rate limits in a row take at least: 30, 90, 210, 450 and 930 seconds for
      two to six of them, and 600 more for every further one. */
  predicate Wide(time: int, k: nat) {
    && (k == 2 ==> time >= 30_000_000_000) && (k == 3 ==> time >= 90_000_000_000)
    && (k == 4 ==> time >= 210_000_000_000) && (k == 5 ==> time >= 450_000_000_000)
    && (k >= 6 ==> time >= 930_000_000_000 + 600_000_000_000 * (k - 6))
  }
}

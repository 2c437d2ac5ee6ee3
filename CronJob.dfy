/** The in-repository `CronJob`: the bounded search for the next instant a rule matches
    (`_getNextDate`) and the start/stop/reschedule life cycle of one job. Instants are
    integer milliseconds since the epoch, as `Date.now()` gives them; the clock reading
    is a parameter, and a pending `setTimeout` is a slot holding its deadline. */
module CronJobs {
  import opened Wrappers
  import opened JsText
  import opened CronMatch

  /** The most candidates the forward scan tries: four 365-day years of seconds. */
  const MaxIterations: int := 4 * 365 * 24 * 60 * 60

  /** The first whole second (in seconds) at or after instant `from` (in milliseconds). */
  function FirstCandidate(from: int): int {
    if from % 1000 == 0 then from / 1000 else from / 1000 + 1
  }

  /** One past the last second the scan tries. */
  function SearchEnd(from: int): int {
    from / 1000 + 1 + MaxIterations
  }

  /** No second in `lo..hi-1` stops the search: each one evaluates to a plain mismatch. */
  ghost predicate NoneStop(f: seq<Option<string>>, lo: int, hi: int)
    requires |f| == 6
  {
    forall k :: lo <= k < hi ==> EvalAt(f, k) == Ok(false)
  }

  /** What `_getNextDate(from)` returns or throws for the fields `f`: it tries the whole
      seconds from the first one at or after `from` onwards, in order, and stops at the
      first that matches (returning it) or that reaches an `undefined` field (throwing);
      when none of them stops it, it throws 'Could not find next execution time'. */
  ghost predicate NextDateSpec(f: seq<Option<string>>, from: int, r: Result<int, CronError>)
    requires |f| == 6
  {
    var lo, hi := FirstCandidate(from), SearchEnd(from);
    match r
    case Ok(t) =>
      t % 1000 == 0 && lo <= t / 1000 < hi && EvalAt(f, t / 1000) == Ok(true) && NoneStop(f, lo, t / 1000)
    case Err(SearchExhausted) =>
      NoneStop(f, lo, hi)
    case Err(UndefinedField) =>
      exists k :: lo <= k < hi && EvalAt(f, k) == Err(UndefinedField) && NoneStop(f, lo, k)
  }

  /** The scan as a recursive definition: the outcome of trying seconds `k..hi-1` in
      order, stopping at the first match or `undefined` field. */
  ghost function Scan(f: seq<Option<string>>, k: int, hi: int): Result<int, CronError>
    requires |f| == 6
    decreases hi - k
  {
    if k >= hi then Err(SearchExhausted)
    else match EvalAt(f, k)
      case Ok(true) => Ok(k * 1000)
      case Ok(false) => Scan(f, k + 1, hi)
      case Err(e) => Err(e)
  }

  /** What `_getNextDate(from)` returns or throws, as one value. */
  ghost function NextDateOf(f: seq<Option<string>>, from: int): (r: Result<int, CronError>)
    requires |f| == 6
    ensures r.Ok? ==> r.value % 1000 == 0 && FirstCandidate(from) <= r.value / 1000 < SearchEnd(from)
    ensures r.Ok? ==> EvalAt(f, r.value / 1000) == Ok(true)
  {
    ScanMeetsSpec(f, from, FirstCandidate(from));
    Scan(f, FirstCandidate(from), SearchEnd(from))
  }

  /** Scanning on from `k`, after a stretch of mismatches from the first candidate,
      meets the description of the search. */
  lemma {:induction false} ScanMeetsSpec(f: seq<Option<string>>, from: int, k: int)
    requires |f| == 6 && FirstCandidate(from) <= k <= SearchEnd(from)
    requires NoneStop(f, FirstCandidate(from), k)
    ensures NextDateSpec(f, from, Scan(f, k, SearchEnd(from)))
    decreases SearchEnd(from) - k
  {
    var lo, hi := FirstCandidate(from), SearchEnd(from);
    if k < hi {
      match EvalAt(f, k)
      case Ok(true) =>
        StopsWithMatch(f, from, k);
      case Ok(false) =>
        NoneStopExtend(f, lo, k);
        ScanMeetsSpec(f, from, k + 1);
      case Err(e) =>
        StopsWithError(f, from, k);
    }
  }

  /** The description of the search pins down one outcome, the one `NextDateOf` gives. */
  lemma NextDateOfMeetsSpec(f: seq<Option<string>>, from: int, r: Result<int, CronError>)
    requires |f| == 6
    ensures NextDateSpec(f, from, r) <==> r == NextDateOf(f, from)
  {
    ScanMeetsSpec(f, from, FirstCandidate(from));
    if NextDateSpec(f, from, r) {
      NextDateUnique(f, from, r, NextDateOf(f, from));
    }
  }

  /** `_getNextDate(from)`: `from` itself when it is on a whole second and matches;
      otherwise the scan from the next whole second, one second at a time. */
  method NextDate(rule: string, from: int) returns (r: Result<int, CronError>)
    ensures NextDateSpec(Fields(rule), from, r)
    ensures r.Ok? ==> from <= r.value && r.value % 1000 == 0
  {
    var f := Fields(rule);
    var current := from / 1000;
    if from % 1000 == 0 {
      var hit := EvalAt(f, current);
      if hit.Err? {
        StopsWithError(f, from, current);
        return Err(hit.error);
      }
      if hit.value {
        StopsWithMatch(f, from, current);
        assert from == current * 1000;
        return Ok(from);
      }
      NoneStopExtend(f, current, current);
    }
    current := from / 1000 + 1;
    assert NoneStop(f, FirstCandidate(from), current);
    var iterations := 0;
    while iterations < MaxIterations
      invariant 0 <= iterations <= MaxIterations
      invariant current == from / 1000 + 1 + iterations
      invariant NoneStop(f, FirstCandidate(from), current)
    {
      var hit := EvalAt(f, current);
      if hit.Err? {
        StopsWithError(f, from, current);
        return Err(hit.error);
      }
      if hit.value {
        StopsWithMatch(f, from, current);
        return Ok(current * 1000);
      }
      NoneStopExtend(f, FirstCandidate(from), current);
      current := current + 1;
      iterations := iterations + 1;
    }
    return Err(SearchExhausted);
  }

  /** The scan that reaches a matching second `k` returns it. */
  lemma StopsWithMatch(f: seq<Option<string>>, from: int, k: int)
    requires |f| == 6 && FirstCandidate(from) <= k < SearchEnd(from)
    requires NoneStop(f, FirstCandidate(from), k) && EvalAt(f, k) == Ok(true)
    ensures NextDateSpec(f, from, Ok(k * 1000))
    ensures from <= k * 1000 && k * 1000 % 1000 == 0
  {
    assert k * 1000 / 1000 == k;
  }

  /** The scan that reaches a second `k` whose evaluation throws, throws that. */
  lemma StopsWithError(f: seq<Option<string>>, from: int, k: int)
    requires |f| == 6 && FirstCandidate(from) <= k < SearchEnd(from)
    requires NoneStop(f, FirstCandidate(from), k) && EvalAt(f, k).Err?
    ensures NextDateSpec(f, from, Err(EvalAt(f, k).error))
  {
  }

  /** A mismatch at `hi` extends a stretch of mismatches by one second. */
  lemma NoneStopExtend(f: seq<Option<string>>, lo: int, hi: int)
    requires |f| == 6 && lo <= hi
    requires (lo == hi || NoneStop(f, lo, hi)) && EvalAt(f, hi) == Ok(false)
    ensures NoneStop(f, lo, hi + 1)
  {
    forall k | lo <= k < hi + 1 ensures EvalAt(f, k) == Ok(false) {
      if k < hi {
        assert NoneStop(f, lo, hi);
      }
    }
  }

  // ---------------------------------------------------------------------------
  // The job life cycle

  /** A pending `setTimeout`: the instant it is due and the delay it was armed with. */
  datatype Timer = Timer(due: int, delay: int)

  /** `Math.max(a, b)` on integers. */
  function Max(a: int, b: int): int {
    if a < b then b else a
  }

  /** One cron job. Calls of `onTick` and `onComplete` are counted rather than made. */
  class CronJob {
    const cronRule: string
    const hasOnTick: bool
    const hasOnComplete: bool
    var isRunning: bool
    var timeout: Option<Timer>
    var ticks: nat
    var completions: nat

    /** A stopped job has no pending timer. */
    ghost predicate Valid()
      reads this
    {
      !isRunning ==> timeout == None
    }

    /** The outcome of `_scheduleNext` at clock reading `now`: either a timer armed for
        the next date with the delay up to it, or the exception of the search with the
        timer slot left as it was. */
    ghost predicate Rescheduled(now: int, thrown: Option<CronError>, before: Option<Timer>)
      reads this
    {
      match thrown
      case None =>
        timeout.Some? && NextDateOf(Fields(cronRule), now) == Ok(timeout.value.due)
        && timeout.value.delay == timeout.value.due - now
      case Some(e) =>
        NextDateOf(Fields(cronRule), now) == Err(e) && timeout == before
    }

    /** `new CronJob(cronRule, onTick, onComplete, start)`; with `start` it starts at
        once, and an exception from that first search is lost to the caller. */
    constructor (cronRule: string, hasOnTick: bool, hasOnComplete: bool, start: bool, now: int)
      ensures Valid()
      ensures this.cronRule == cronRule && this.hasOnTick == hasOnTick && this.hasOnComplete == hasOnComplete
      ensures ticks == 0 && completions == 0 && isRunning == start
      ensures !start ==> timeout == None
      ensures start ==> exists thrown :: Rescheduled(now, thrown, None)
    {
      this.cronRule := cronRule;
      this.hasOnTick := hasOnTick;
      this.hasOnComplete := hasOnComplete;
      isRunning := false;
      timeout := None;
      ticks := 0;
      completions := 0;
      new;
      if start {
        var thrown := Start(now);
        assert Rescheduled(now, thrown, None);
      }
    }

    /** `start()`: does nothing when already running; otherwise marks the job running and
        schedules the next execution. */
    method Start(now: int) returns (thrown: Option<CronError>)
      requires Valid()
      modifies this
      ensures Valid()
      ensures old(isRunning) ==> timeout == old(timeout) && isRunning && thrown == None
      ensures !old(isRunning) ==> isRunning && Rescheduled(now, thrown, old(timeout))
      ensures ticks == old(ticks) && completions == old(completions)
    {
      if isRunning {
        return None;
      }
      isRunning := true;
      thrown := ScheduleNext(now);
    }

    /** `stop()`: marks the job stopped, cancels the pending timer and calls
        `onComplete` if there is one, every time it is called. */
    method Stop()
      modifies this
      ensures Valid()
      ensures !isRunning && timeout == None
      ensures ticks == old(ticks)
      ensures completions == old(completions) + (if hasOnComplete then 1 else 0)
    {
      isRunning := false;
      if timeout.Some? {
        timeout := None;
      }
      if hasOnComplete {
        completions := completions + 1;
      }
    }

    /** `_scheduleNext()` with the clock reading `now`: when running, arms a timer for the
        next date with delay `max(0, next - now)`, which is never clamped because the
        next date is never before `now`. */
    method ScheduleNext(now: int) returns (thrown: Option<CronError>)
      requires Valid()
      modifies this
      ensures Valid()
      ensures isRunning == old(isRunning) && ticks == old(ticks) && completions == old(completions)
      ensures !isRunning ==> timeout == old(timeout) && thrown == None
      ensures isRunning ==> Rescheduled(now, thrown, old(timeout))
      ensures isRunning && thrown == None ==> 0 <= timeout.value.delay
    {
      if !isRunning {
        return None;
      }
      var next := NextDate(cronRule, now);
      NextDateOfMeetsSpec(Fields(cronRule), now, next);
      match next
      case Ok(t) =>
        timeout := Some(Timer(t, Max(0, t - now)));
        thrown := None;
      case Err(e) =>
        thrown := Some(e);
    }

    /** The timer callback, at clock reading `now`: ignored once stopped; otherwise calls
        `onTick` if there is one and schedules the next execution. */
    method Fire(now: int) returns (thrown: Option<CronError>)
      modifies this
      ensures old(Valid()) ==> Valid()
      ensures isRunning == old(isRunning) && completions == old(completions)
      ensures !old(isRunning) ==> timeout == old(timeout) && ticks == old(ticks) && thrown == None
      ensures old(isRunning) ==> ticks == old(ticks) + (if hasOnTick then 1 else 0)
      ensures old(isRunning) ==> Rescheduled(now, thrown, old(timeout))
    {
      if !isRunning {
        return None;
      }
      if hasOnTick {
        ticks := ticks + 1;
      }
      thrown := ScheduleNext(now);
    }
  }

  // ---------------------------------------------------------------------------
  // What the search result means

  /** A second that stops the search cannot lie inside a stretch of mismatches. */
  lemma FirstStop(f: seq<Option<string>>, lo: int, a: int, b: int)
    requires |f| == 6 && lo <= b
    requires NoneStop(f, lo, a) && EvalAt(f, b) != Ok(false)
    ensures a <= b
  {
  }

  /** Two whole-millisecond instants on the same second are equal. */
  lemma SameSecond(t: int, u: int)
    requires t % 1000 == 0 && u % 1000 == 0 && t / 1000 == u / 1000
    ensures t == u
  {
  }

  lemma TwoMatches(f: seq<Option<string>>, from: int, t: int, u: int)
    requires |f| == 6 && NextDateSpec(f, from, Ok(t)) && NextDateSpec(f, from, Ok(u))
    ensures t == u
  {
    var lo := FirstCandidate(from);
    FirstStop(f, lo, t / 1000, u / 1000);
    FirstStop(f, lo, u / 1000, t / 1000);
    SameSecond(t, u);
  }

  lemma UniqueFromOk(f: seq<Option<string>>, from: int, t: int, r: Result<int, CronError>)
    requires |f| == 6 && NextDateSpec(f, from, Ok(t)) && NextDateSpec(f, from, r)
    ensures r == Ok(t)
  {
    match r
    case Ok(u) =>
      TwoMatches(f, from, t, u);
    case Err(e) =>
      assert false;
  }

  /** `_getNextDate` has exactly one outcome for a given rule and start instant:
      the specification above pins the result down. */
  lemma NextDateUnique(f: seq<Option<string>>, from: int, r1: Result<int, CronError>, r2: Result<int, CronError>)
    requires |f| == 6 && NextDateSpec(f, from, r1) && NextDateSpec(f, from, r2)
    ensures r1 == r2
  {
    var lo, hi := FirstCandidate(from), SearchEnd(from);
    if r1.Ok? {
      UniqueFromOk(f, from, r1.value, r2);
    } else if r2.Ok? {
      UniqueFromOk(f, from, r2.value, r1);
    } else if r1 != r2 {
      assert false;
    }
  }

  /** When `from` is on a whole second and the rule matches it, `from` itself is next. */
  lemma NextDateImmediate(f: seq<Option<string>>, from: int, r: Result<int, CronError>)
    requires |f| == 6 && NextDateSpec(f, from, r)
    requires from % 1000 == 0 && EvalAt(f, from / 1000) == Ok(true)
    ensures r == Ok(from)
  {
    StopsWithMatch(f, from, from / 1000);
    NextDateUnique(f, from, r, Ok(from / 1000 * 1000));
  }

  /** The next date is the earliest matching whole second at or after `from`; it lies
      strictly after `from` unless `from` is itself a matching whole second. */
  lemma NextDateEarliest(f: seq<Option<string>>, from: int, t: int)
    requires |f| == 6 && NextDateSpec(f, from, Ok(t))
    ensures from <= t && t % 1000 == 0 && EvalAt(f, t / 1000) == Ok(true)
    ensures forall u :: from <= u < t && u % 1000 == 0 ==> EvalAt(f, u / 1000) == Ok(false)
    ensures t == from <==> from % 1000 == 0 && EvalAt(f, from / 1000) == Ok(true)
  {
    var lo := FirstCandidate(from);
    forall u | from <= u < t && u % 1000 == 0
      ensures EvalAt(f, u / 1000) == Ok(false)
    {
      assert lo <= u / 1000 < t / 1000;
    }
  }

  /** With at least five parts every field is defined, so the search can only end in a
      match or in 'Could not find next execution time', never in a `TypeError`. */
  lemma WellFormedRuleNeverUndefined(rule: string, from: int, r: Result<int, CronError>)
    requires |SplitWs(Trim(rule))| >= 5
    requires NextDateSpec(Fields(rule), from, r)
    ensures r != Err(UndefinedField)
  {
    var f := Fields(rule);
    FieldsDefined(SplitWs(Trim(rule)));
    forall k ensures EvalAt(f, k).Ok? {
    }
  }

  /** A rule that matches no instant exhausts the search. */
  lemma NeverMatchingExhausts(f: seq<Option<string>>, from: int, r: Result<int, CronError>)
    requires |f| == 6 && NextDateSpec(f, from, r)
    requires forall k :: EvalAt(f, k) == Ok(false)
    ensures r == Err(SearchExhausted)
  {
    NextDateUnique(f, from, r, Err(SearchExhausted));
  }

  /** A rule of one to four `*` parts reaches the missing field at the first candidate
      and throws a `TypeError` (`undefined.includes`). */
  lemma ShortRuleThrows(tokens: seq<string>, from: int, r: Result<int, CronError>)
    requires 1 <= |tokens| < 5 && forall i :: 0 <= i < |tokens| ==> tokens[i] == "*"
    requires NextDateSpec(Fields(JoinSpace(tokens)), from, r)
    ensures r == Err(UndefinedField)
  {
    var f := Fields(JoinSpace(tokens));
    var lo := FirstCandidate(from);
    ShortRuleEval(tokens, lo);
    StopsWithError(f, from, lo);
    NextDateUnique(f, from, r, Err(UndefinedField));
  }

  lemma ShortRuleEval(tokens: seq<string>, k: int)
    requires 1 <= |tokens| < 5 && forall i :: 0 <= i < |tokens| ==> tokens[i] == "*"
    ensures EvalAt(Fields(JoinSpace(tokens)), k) == Err(UndefinedField)
  {
    forall t | t in tokens ensures t != [] && NoSpace(t) { }
    RuleParts(tokens);
    var f := FieldsOf(tokens);
    assert Fields(JoinSpace(tokens)) == f;
    ShortFields(tokens);
    var v := FieldValues(k);
    forall i | 0 <= i < |tokens| ensures f[i].Some? && MatchField(v[i], f[i].value) {
      AnyMatches(v[i]);
    }
    ReachesUndefined(v, f, |tokens|);
  }

  lemma ShortFields(parts: seq<string>)
    requires |parts| < 5
    ensures forall i :: 0 <= i < |parts| ==> FieldsOf(parts)[i] == Some(parts[i])
    ensures FieldsOf(parts)[|parts|] == None
  {
  }

  /** A blank rule is one empty field that `parseInt` turns into NaN, so it never
      matches and the search throws 'Could not find next execution time'. */
  lemma BlankRuleExhausts(from: int, r: Result<int, CronError>)
    requires NextDateSpec(Fields(""), from, r)
    ensures r == Err(SearchExhausted)
  {
    var f := Fields("");
    assert Trim("") == "" && SplitWs("") == [""];
    assert f[0] == Some("");
    assert ParseInt("") == None;
    forall k ensures EvalAt(f, k) == Ok(false) {
      assert !MatchField(FieldValues(k)[0], "");
    }
    NeverMatchingExhausts(f, from, r);
  }

  // ---------------------------------------------------------------------------
  // Worked examples (instants in UTC)

  /** The literal tokens of the examples below are plain, non-blank text. */
  lemma PlainTokens()
    ensures "*" != [] && NoSpace("*") && "0" != [] && NoSpace("0")
    ensures NatStr(0) == "0" && NatStr(5) == "5" && "*/5" != [] && NoSpace("*/5")
    ensures "*/5" == "*/" + NatStr(5)
  {
    assert NatStr(5) == "5";
  }

  lemma EverySecondRule(rule: string)
    requires rule == "* * * * * *"
    ensures Fields(rule) == [Some("*"), Some("*"), Some("*"), Some("*"), Some("*"), Some("*")]
  {
    assert rule == "*" + " " + "*" + " " + "*" + " " + "*" + " " + "*" + " " + "*";
    PlainTokens();
    SixTokenRule(rule, "*", "*", "*", "*", "*", "*");
  }

  lemma EveryMinuteRule(rule: string)
    requires rule == "0 * * * * *"
    ensures Fields(rule) == [Some("0"), Some("*"), Some("*"), Some("*"), Some("*"), Some("*")]
  {
    assert rule == "0" + " " + "*" + " " + "*" + " " + "*" + " " + "*" + " " + "*";
    PlainTokens();
    SixTokenRule(rule, "0", "*", "*", "*", "*", "*");
  }

  lemma EveryFiveSecondsRule(rule: string)
    requires rule == "*/5 * * * * *"
    ensures Fields(rule) == [Some("*/" + NatStr(5)), Some("*"), Some("*"), Some("*"), Some("*"), Some("*")]
  {
    FiveSecondsTokens(rule);
    PlainTokens();
    SixTokenRule(rule, "*/5", "*", "*", "*", "*", "*");
  }

  lemma FiveSecondsTokens(rule: string)
    requires rule == "*/5 * * * * *"
    ensures rule == "*/5" + " " + "*" + " " + "*" + " " + "*" + " " + "*" + " " + "*"
  {
  }

  lemma DailyMidnightRule(rule: string)
    requires rule == "0 0 * * *"
    ensures Fields(rule) == [Some("0"), Some("0"), Some("0"), Some("*"), Some("*"), Some("*")]
  {
    assert rule == "0" + " " + "0" + " " + "*" + " " + "*" + " " + "*";
    PlainTokens();
    FiveTokenRule(rule, "0", "0", "*", "*", "*");
  }

  /** `* * * * * *` fires at the first whole second at or after `from`, so less than
      a second later. */
  lemma EverySecondNext(rule: string, from: int, r: Result<int, CronError>)
    requires rule == "* * * * * *"
    requires NextDateSpec(Fields(rule), from, r)
    ensures r == Ok(FirstCandidate(from) * 1000)
    ensures from <= FirstCandidate(from) * 1000 < from + 1000
  {
    EverySecondRule(rule);
    EverySecondFields(Fields(rule), from, r);
  }

  lemma EverySecondFields(f: seq<Option<string>>, from: int, r: Result<int, CronError>)
    requires f == [Some("*"), Some("*"), Some("*"), Some("*"), Some("*"), Some("*")]
    requires NextDateSpec(f, from, r)
    ensures r == Ok(FirstCandidate(from) * 1000)
    ensures from <= FirstCandidate(from) * 1000 < from + 1000
  {
    var lo := FirstCandidate(from);
    StarsEval(f, lo);
    StopsWithMatch(f, from, lo);
    NextDateUnique(f, from, r, Ok(lo * 1000));
  }

  /** Six `*` fields match every second. */
  lemma StarsEval(f: seq<Option<string>>, k: int)
    requires f == [Some("*"), Some("*"), Some("*"), Some("*"), Some("*"), Some("*")]
    ensures EvalAt(f, k) == Ok(true)
  {
    EvalDefined(f, k);
    forall i | 0 <= i < 6 ensures MatchField(FieldValues(k)[i], f[i].value) {
      AnyMatches(FieldValues(k)[i]);
    }
  }

  /** A rule whose fields are all defined evaluates to whether every field matches. */
  lemma EvalDefined(f: seq<Option<string>>, k: int)
    requires |f| == 6 && forall i :: 0 <= i < 6 ==> f[i].Some?
    ensures EvalAt(f, k).Ok?
    ensures EvalAt(f, k).value <==> forall i :: 0 <= i < 6 ==> MatchField(FieldValues(k)[i], f[i].value)
  {
  }

  /** The second of the minute on 2024-01-01 (UTC), which is day 19723. */
  lemma SecondOnNewYear(k: int)
    requires 19723 * 86400 <= k < 19724 * 86400
    ensures Civil.DateOf(k).second == (k - 19723 * 86400) % 60
  {
    assert k % 86400 == k - 19723 * 86400;
  }

  lemma NextMinuteArith(k: int)
    requires 1704112245 <= k <= 1704112260
    ensures Civil.DateOf(k).second == 0 <==> k == 1704112260
  {
    SecondOnNewYear(k);
  }

  lemma NextFiveArith(k: int)
    requires 1704112207 <= k <= 1704112210
    ensures Civil.DateOf(k).second % 5 == 0 <==> k == 1704112210
  {
    SecondOnNewYear(k);
    var x := k - 1704112200;
    MinuteRemainder(k - 19723 * 86400, 750, x);
    FiveStepWindow(x);
  }

  lemma MinuteRemainder(y: int, q: int, x: int)
    requires y == q * 60 + x && 0 <= x < 60
    ensures y % 60 == x
  {
  }

  lemma FiveStepWindow(x: int)
    requires 7 <= x <= 10
    ensures x % 5 == 0 <==> x == 10
  {
  }

  lemma NextMidnightArith(k: int)
    requires 1704112200 <= k <= 1704153600
    ensures k % 86400 == 0 <==> k == 1704153600
  {
    assert k % 86400 == k - 19723 * 86400 || k == 19724 * 86400;
  }

  /** 1704153600 seconds after the epoch is 2 January (2024). */
  lemma SecondOfJanuary()
    ensures Civil.DateOf(1704153600).day == 2 && Civil.DateOf(1704153600).month == 1
  {
    assert 1704153600 / 86400 == 19724 && 1704153600 % 86400 == 0;
    assert 739192 / 146097 == 5 && 739192 % 146097 == 8707 && 8707 / 36524 == 0;
    assert 8707 / 1461 == 5 && 8707 % 1461 == 1402 && 1402 / 365 == 3;
    assert (5 * 307 + 2) / 153 == 10 && (153 * 10 + 2) / 5 == 306;
    assert Civil.CivilFromDays(19724) == (2024, 1, 2);
  }

  /** `0 * * * * *` from 2024-01-01T12:30:45Z next fires at 12:31:00. */
  lemma EveryMinuteExample(rule: string, r: Result<int, CronError>)
    requires rule == "0 * * * * *"
    requires NextDateSpec(Fields(rule), 1704112245000, r)
    ensures r == Ok(1704112260000)
  {
    EveryMinuteRule(rule);
    EveryMinuteFields(Fields(rule), r);
  }

  lemma MinuteAt(f: seq<Option<string>>, k: int)
    requires f == [Some("0"), Some("*"), Some("*"), Some("*"), Some("*"), Some("*")]
    requires 1704112245 <= k <= 1704112260
    ensures EvalAt(f, k) == Ok(k == 1704112260)
  {
    var v := FieldValues(k);
    ZeroSecondFields(v, f);
    assert v[0] == Civil.DateOf(k).second;
    NextMinuteArith(k);
  }

  lemma EveryMinuteFields(f: seq<Option<string>>, r: Result<int, CronError>)
    requires f == [Some("0"), Some("*"), Some("*"), Some("*"), Some("*"), Some("*")]
    requires NextDateSpec(f, 1704112245000, r)
    ensures r == Ok(1704112260000)
  {
    forall k | 1704112245 <= k <= 1704112260 ensures EvalAt(f, k) == Ok(k == 1704112260) {
      MinuteAt(f, k);
    }
    StopsWithMatch(f, 1704112245000, 1704112260);
    NextDateUnique(f, 1704112245000, r, Ok(1704112260000));
  }

  /** Every five seconds (a step of 5 on the second) from 2024-01-01T12:30:07Z next fires
      at 12:30:10. */
  lemma EveryFiveSecondsExample(rule: string, r: Result<int, CronError>)
    requires rule == "*/5 * * * * *"
    requires NextDateSpec(Fields(rule), 1704112207000, r)
    ensures r == Ok(1704112210000)
  {
    EveryFiveSecondsRule(rule);
    EveryFiveSecondsFields(Fields(rule), r);
  }

  lemma FiveSecondsAt(f: seq<Option<string>>, k: int)
    requires f == [Some("*/" + NatStr(5)), Some("*"), Some("*"), Some("*"), Some("*"), Some("*")]
    requires 1704112207 <= k <= 1704112210
    ensures EvalAt(f, k) == Ok(k == 1704112210)
  {
    var v := FieldValues(k);
    ZerosThenStepFields(v, f, 0, 5);
    assert v[0] == Civil.DateOf(k).second;
    NextFiveArith(k);
  }

  lemma EveryFiveSecondsFields(f: seq<Option<string>>, r: Result<int, CronError>)
    requires f == [Some("*/" + NatStr(5)), Some("*"), Some("*"), Some("*"), Some("*"), Some("*")]
    requires NextDateSpec(f, 1704112207000, r)
    ensures r == Ok(1704112210000)
  {
    forall k | 1704112207 <= k <= 1704112210 ensures EvalAt(f, k) == Ok(k == 1704112210) {
      FiveSecondsAt(f, k);
    }
    StopsWithMatch(f, 1704112207000, 1704112210);
    NextDateUnique(f, 1704112207000, r, Ok(1704112210000));
  }

  /** Second, minute and hour are all zero exactly at the start of a day. */
  lemma MidnightArith(k: int)
    ensures (Civil.DateOf(k).second == 0 && Civil.DateOf(k).minute == 0 && Civil.DateOf(k).hour == 0)
        <==> k % 86400 == 0
  {
    var sod := k % 86400;
    if sod / 3600 == 0 && (sod / 60) % 60 == 0 && sod % 60 == 0 {
      assert sod < 3600;
      assert sod / 60 < 60;
    }
  }

  /** `0 0 * * *` from 2024-01-01T12:30:00Z next fires at midnight starting 2 January. */
  lemma DailyMidnightExample(rule: string, r: Result<int, CronError>)
    requires rule == "0 0 * * *"
    requires NextDateSpec(Fields(rule), 1704112200000, r)
    ensures r == Ok(1704153600000)
    ensures Civil.DateOf(1704153600).day == 2 && Civil.DateOf(1704153600).month == 1
  {
    DailyMidnightRule(rule);
    DailyMidnightFields(Fields(rule), r);
  }

  lemma MidnightAt(f: seq<Option<string>>, k: int)
    requires f == [Some("0"), Some("0"), Some("0"), Some("*"), Some("*"), Some("*")]
    requires 1704112200 <= k <= 1704153600
    ensures EvalAt(f, k) == Ok(k == 1704153600)
  {
    var v, d := FieldValues(k), Civil.DateOf(k);
    ZeroClockFields(v, f);
    assert v[0] == d.second && v[1] == d.minute && v[2] == d.hour;
    MidnightArith(k);
    NextMidnightArith(k);
  }

  lemma DailyMidnightFields(f: seq<Option<string>>, r: Result<int, CronError>)
    requires f == [Some("0"), Some("0"), Some("0"), Some("*"), Some("*"), Some("*")]
    requires NextDateSpec(f, 1704112200000, r)
    ensures r == Ok(1704153600000)
    ensures Civil.DateOf(1704153600).day == 2 && Civil.DateOf(1704153600).month == 1
  {
    forall k | 1704112200 <= k <= 1704153600 ensures EvalAt(f, k) == Ok(k == 1704153600) {
      MidnightAt(f, k);
    }
    SecondOfJanuary();
    StopsWithMatch(f, 1704112200000, 1704153600);
    NextDateUnique(f, 1704112200000, r, Ok(1704153600000));
  }
}

/** The `Kronos` event bus: `subscribe(timeframe)` turns a timeframe such as `10s` into a
    cron rule, registers and starts a job for it, and the job's tick emits `TIME/<tf>` and
    then the wildcard `TIME` event; `unsubscribeAll` stops every job. `emit` is modelled as
    appending to an event log, and each job is the `CronJob` model. */
module Subscriptions {
  import opened Wrappers
  import opened JsText
  import opened CronMatch
  import opened CronJobs

  /** The errors `subscribe` can throw: the unit is not one of `s`, `m`, `h`, `d`; or the
      first search of the new job throws. */
  datatype SubscribeError = UnhandledTimeframe | StartFailed(error: CronError)

  // ---------------------------------------------------------------------------
  // From timeframe to cron rule

  /** The last character of `timeframe` (`slice(-1)`), empty for an empty timeframe. */
  function UnitOf(timeframe: string): (u: string)
    ensures |u| <= 1 && |u| <= |timeframe| && u == timeframe[|timeframe| - |u|..]
    ensures timeframe != [] ==> |u| == 1
  {
    if timeframe == [] then [] else timeframe[|timeframe| - 1..]
  }

  /** The text before the unit (`substr(0, length - unit.length)`). */
  function NumOf(timeframe: string): (num: string)
    ensures timeframe == num + UnitOf(timeframe)
  {
    timeframe[..|timeframe| - |UnitOf(timeframe)|]
  }

  /** The `switch` in `subscribe` that builds the cron rule for a timeframe. */
  function CronRuleFor(timeframe: string): (r: Result<string, SubscribeError>)
    ensures r.Err? <==> timeframe == [] || timeframe[|timeframe| - 1] !in "smhd"
    ensures r.Err? ==> r.error == UnhandledTimeframe
  {
    var unit := UnitOf(timeframe);
    var num := NumOf(timeframe);
    // `unit` has at most one character, so comparing it with a one-letter case label is
    // comparing that character
    if unit == [] then Err(UnhandledTimeframe)
    else match unit[0]
      case 's' => Ok("*/" + num + " * * * * *")
      case 'm' => Ok("*/" + num + " * * * *")
      case 'h' => Ok("0 */" + num + " * * *")
      // `num === 1` compares a string with a number, which is never true, so the daily
      // rule is never chosen and `1d` takes the step branch
      case 'd' => Ok("0 0 */" + num + " * *")
      case _ => Err(UnhandledTimeframe)
  }

  /** The number text and unit of a timeframe written as a number and a unit. */
  lemma TimeframeParts(num: string, unit: char)
    ensures UnitOf(num + [unit]) == [unit] && NumOf(num + [unit]) == num
  {
    assert (num + [unit])[..|num|] == num;
  }

  /** A wildcard step token by `N` has no white space when `N` has none. */
  lemma StepToken(num: string)
    requires NoSpace(num)
    ensures "*/" + num != [] && NoSpace("*/" + num)
  {
  }

  lemma SecondsRuleFields(num: string)
    requires NoSpace(num)
    ensures Fields("*/" + num + " * * * * *")
         == [Some("*/" + num), Some("*"), Some("*"), Some("*"), Some("*"), Some("*")]
  {
    StepToken(num);
    var step := "*/" + num;
    assert " * * * * *" == " " + "*" + " " + "*" + " " + "*" + " " + "*" + " " + "*";
    assert "*/" + num + " * * * * *" == step + " " + "*" + " " + "*" + " " + "*" + " " + "*" + " " + "*";
    assert "*" != [] && NoSpace("*");
    SixTokenRule("*/" + num + " * * * * *", step, "*", "*", "*", "*", "*");
  }

  lemma MinutesRuleFields(num: string)
    requires NoSpace(num)
    ensures Fields("*/" + num + " * * * *")
         == [Some("0"), Some("*/" + num), Some("*"), Some("*"), Some("*"), Some("*")]
  {
    StepToken(num);
    var step := "*/" + num;
    assert " * * * *" == " " + "*" + " " + "*" + " " + "*" + " " + "*";
    assert "*/" + num + " * * * *" == step + " " + "*" + " " + "*" + " " + "*" + " " + "*";
    assert "*" != [] && NoSpace("*");
    FiveTokenRule("*/" + num + " * * * *", step, "*", "*", "*", "*");
  }

  lemma HoursRuleFields(num: string)
    requires NoSpace(num)
    ensures Fields("0 */" + num + " * * *")
         == [Some("0"), Some("0"), Some("*/" + num), Some("*"), Some("*"), Some("*")]
  {
    StepToken(num);
    var step := "*/" + num;
    assert " * * *" == " " + "*" + " " + "*" + " " + "*";
    assert "0 */" + num + " * * *" == "0" + " " + step + " " + "*" + " " + "*" + " " + "*";
    assert "*" != [] && NoSpace("*") && "0" != [] && NoSpace("0");
    FiveTokenRule("0 */" + num + " * * *", "0", step, "*", "*", "*");
  }

  lemma DaysRuleFields(num: string)
    requires NoSpace(num)
    ensures Fields("0 0 */" + num + " * *")
         == [Some("0"), Some("0"), Some("0"), Some("*/" + num), Some("*"), Some("*")]
  {
    StepToken(num);
    var step := "*/" + num;
    assert " * *" == " " + "*" + " " + "*";
    assert "0 0 */" + num + " * *" == "0" + " " + "0" + " " + step + " " + "*" + " " + "*";
    assert "*" != [] && NoSpace("*") && "0" != [] && NoSpace("0");
    FiveTokenRule("0 0 */" + num + " * *", "0", "0", step, "*", "*");
  }

  /** `Ns` fires at the seconds divisible by `N`; `0s` never fires. */
  lemma SecondsTimeframe(n: nat, k: int)
    ensures CronRuleFor(NatStr(n) + "s") == Ok("*/" + NatStr(n) + " * * * * *")
    ensures EvalAt(Fields(CronRuleFor(NatStr(n) + "s").value), k)
         == Ok(n != 0 && Civil.DateOf(k).second % n == 0)
  {
    var rule := "*/" + NatStr(n) + " * * * * *";
    TimeframeParts(NatStr(n), 's');
    assert CronRuleFor(NatStr(n) + "s") == Ok(rule);
    SecondsRuleEval(n, rule, k);
  }

  lemma SecondsRuleEval(n: nat, rule: string, k: int)
    requires rule == "*/" + NatStr(n) + " * * * * *"
    ensures EvalAt(Fields(rule), k) == Ok(n != 0 && Civil.DateOf(k).second % n == 0)
  {
    NatStrNoSpace(n);
    SecondsRuleFields(NatStr(n));
    SecondsFieldsEval(Fields(rule), n, k);
  }

  lemma SecondsFieldsEval(f: seq<Option<string>>, n: nat, k: int)
    requires f == [Some("*/" + NatStr(n)), Some("*"), Some("*"), Some("*"), Some("*"), Some("*")]
    ensures EvalAt(f, k) == Ok(n != 0 && Civil.DateOf(k).second % n == 0)
  {
    var v := FieldValues(k);
    ZerosThenStepAt(f, 0, n, k);
    assert v[0] == Civil.DateOf(k).second;
  }

  /** `Nm` fires at second 0 of the minutes divisible by `N`. */
  lemma MinutesTimeframe(n: nat, k: int)
    ensures CronRuleFor(NatStr(n) + "m") == Ok("*/" + NatStr(n) + " * * * *")
    ensures EvalAt(Fields(CronRuleFor(NatStr(n) + "m").value), k)
         == Ok(Civil.DateOf(k).second == 0 && n != 0 && Civil.DateOf(k).minute % n == 0)
  {
    var rule := "*/" + NatStr(n) + " * * * *";
    TimeframeParts(NatStr(n), 'm');
    assert CronRuleFor(NatStr(n) + "m") == Ok(rule);
    MinutesRuleEval(n, rule, k);
  }

  lemma MinutesRuleEval(n: nat, rule: string, k: int)
    requires rule == "*/" + NatStr(n) + " * * * *"
    ensures EvalAt(Fields(rule), k)
         == Ok(Civil.DateOf(k).second == 0 && n != 0 && Civil.DateOf(k).minute % n == 0)
  {
    NatStrNoSpace(n);
    MinutesRuleFields(NatStr(n));
    MinutesFieldsEval(Fields(rule), n, k);
  }

  lemma MinutesFieldsEval(f: seq<Option<string>>, n: nat, k: int)
    requires f == [Some("0"), Some("*/" + NatStr(n)), Some("*"), Some("*"), Some("*"), Some("*")]
    ensures EvalAt(f, k) == Ok(Civil.DateOf(k).second == 0 && n != 0 && Civil.DateOf(k).minute % n == 0)
  {
    var v := FieldValues(k);
    ZerosThenStepAt(f, 1, n, k);
    assert v[0] == Civil.DateOf(k).second && v[1] == Civil.DateOf(k).minute;
  }

  /** `Nh` fires at the start of the hours divisible by `N`. */
  lemma HoursTimeframe(n: nat, k: int)
    ensures CronRuleFor(NatStr(n) + "h") == Ok("0 */" + NatStr(n) + " * * *")
    ensures EvalAt(Fields(CronRuleFor(NatStr(n) + "h").value), k)
         == Ok(Civil.DateOf(k).second == 0 && Civil.DateOf(k).minute == 0
               && n != 0 && Civil.DateOf(k).hour % n == 0)
  {
    var rule := "0 */" + NatStr(n) + " * * *";
    TimeframeParts(NatStr(n), 'h');
    assert CronRuleFor(NatStr(n) + "h") == Ok(rule);
    HoursRuleEval(n, rule, k);
  }

  lemma HoursRuleEval(n: nat, rule: string, k: int)
    requires rule == "0 */" + NatStr(n) + " * * *"
    ensures EvalAt(Fields(rule), k)
         == Ok(Civil.DateOf(k).second == 0 && Civil.DateOf(k).minute == 0
               && n != 0 && Civil.DateOf(k).hour % n == 0)
  {
    NatStrNoSpace(n);
    HoursRuleFields(NatStr(n));
    HoursFieldsEval(Fields(rule), n, k);
  }

  lemma HoursFieldsEval(f: seq<Option<string>>, n: nat, k: int)
    requires f == [Some("0"), Some("0"), Some("*/" + NatStr(n)), Some("*"), Some("*"), Some("*")]
    ensures EvalAt(f, k) == Ok(Civil.DateOf(k).second == 0 && Civil.DateOf(k).minute == 0
                               && n != 0 && Civil.DateOf(k).hour % n == 0)
  {
    var v, d := FieldValues(k), Civil.DateOf(k);
    ZerosThenStepAt(f, 2, n, k);
    assert (forall i :: 0 <= i < 2 ==> v[i] == 0) <==> v[0] == 0 && v[1] == 0;
    assert v[0] == d.second && v[1] == d.minute && v[2] == d.hour;
  }

  /** `Nd` fires at midnight of the days of the month divisible by `N`. */
  lemma DaysTimeframe(n: nat, k: int)
    ensures CronRuleFor(NatStr(n) + "d") == Ok("0 0 */" + NatStr(n) + " * *")
    ensures EvalAt(Fields(CronRuleFor(NatStr(n) + "d").value), k)
         == Ok(Civil.DateOf(k).second == 0 && Civil.DateOf(k).minute == 0 && Civil.DateOf(k).hour == 0
               && n != 0 && Civil.DateOf(k).day % n == 0)
  {
    var rule := "0 0 */" + NatStr(n) + " * *";
    TimeframeParts(NatStr(n), 'd');
    assert CronRuleFor(NatStr(n) + "d") == Ok(rule);
    DaysRuleEval(n, rule, k);
  }

  lemma DaysRuleEval(n: nat, rule: string, k: int)
    requires rule == "0 0 */" + NatStr(n) + " * *"
    ensures EvalAt(Fields(rule), k)
         == Ok(Civil.DateOf(k).second == 0 && Civil.DateOf(k).minute == 0 && Civil.DateOf(k).hour == 0
               && n != 0 && Civil.DateOf(k).day % n == 0)
  {
    NatStrNoSpace(n);
    DaysRuleFields(NatStr(n));
    DaysFieldsEval(Fields(rule), n, k);
  }

  lemma DaysFieldsEval(f: seq<Option<string>>, n: nat, k: int)
    requires f == [Some("0"), Some("0"), Some("0"), Some("*/" + NatStr(n)), Some("*"), Some("*")]
    ensures EvalAt(f, k) == Ok(Civil.DateOf(k).second == 0 && Civil.DateOf(k).minute == 0
                               && Civil.DateOf(k).hour == 0 && n != 0 && Civil.DateOf(k).day % n == 0)
  {
    var v, d := FieldValues(k), Civil.DateOf(k);
    ZerosThenStepAt(f, 3, n, k);
    assert (forall i :: 0 <= i < 3 ==> v[i] == 0) <==> v[0] == 0 && v[1] == 0 && v[2] == 0;
    assert v[0] == d.second && v[1] == d.minute && v[2] == d.hour && v[3] == d.day;
  }

  /** `1d` takes the step branch with step 1: the `num === 1` test compares the text `1`
      with a number. */
  lemma OneDayRule(tf: string)
    requires tf == "1d"
    ensures CronRuleFor(tf) == Ok("0 0 */1 * *")
  {
    assert tf == "1" + ['d'];
    TimeframeParts("1", 'd');
    assert "0 0 */" + "1" + " * *" == "0 0 */1 * *";
  }

  lemma OneDayFields(rule: string)
    requires rule == "0 0 */1 * *"
    ensures Fields(rule) == [Some("0"), Some("0"), Some("0"), Some("*/" + NatStr(1)), Some("*"), Some("*")]
  {
    assert NatStr(1) == "1";
    assert rule == "0 0 */" + NatStr(1) + " * *";
    NatStrNoSpace(1);
    DaysRuleFields(NatStr(1));
  }

  /** Fields `0 0 0 * * *` (the rule `0 0 * * *`) match exactly at midnight. */
  lemma MidnightFieldsEval(f: seq<Option<string>>, k: int)
    requires f == [Some("0"), Some("0"), Some("0"), Some("*"), Some("*"), Some("*")]
    ensures EvalAt(f, k) == Ok(Civil.DateOf(k).second == 0 && Civil.DateOf(k).minute == 0
                               && Civil.DateOf(k).hour == 0)
  {
    var v, d := FieldValues(k), Civil.DateOf(k);
    ZeroClockFields(v, f);
    assert v[0] == d.second && v[1] == d.minute && v[2] == d.hour;
  }

  /** The rule `1d` produces, a step of 1 on the day of the month, fires exactly when
      `0 0 * * *` does: every midnight, since every day of the month is divisible by 1. */
  lemma OneDayIsDaily(oneDay: string, daily: string, k: int)
    requires oneDay == "0 0 */1 * *" && daily == "0 0 * * *"
    ensures EvalAt(Fields(oneDay), k) == EvalAt(Fields(daily), k)
  {
    OneDayFields(oneDay);
    DaysFieldsEval(Fields(oneDay), 1, k);
    DailyMidnightRule(daily);
    MidnightFieldsEval(Fields(daily), k);
  }

  /** A step of 60 or more seconds divides only second 0, so `Ns` with `N >= 60` fires
      once a minute at second 0, as `1m` does (e.g. `999s`). */
  lemma LongSecondsStep(n: nat, k: int)
    requires n >= 60
    ensures EvalAt(Fields(CronRuleFor(NatStr(n) + "s").value), k) == Ok(Civil.DateOf(k).second == 0)
  {
    SecondsTimeframe(n, k);
    SmallRemainder(Civil.DateOf(k).second, n);
  }

  lemma SmallRemainder(s: int, n: int)
    requires 0 <= s < n
    ensures s % n == s
  {
  }

  /** `0s` never matches, so the first search of its job exhausts. */
  lemma ZeroSecondsExhausts(from: int, r: Result<int, CronError>)
    requires NextDateSpec(Fields(CronRuleFor(NatStr(0) + "s").value), from, r)
    ensures r == Err(SearchExhausted)
  {
    var f := Fields(CronRuleFor(NatStr(0) + "s").value);
    forall k ensures EvalAt(f, k) == Ok(false) {
      SecondsTimeframe(0, k);
    }
    NeverMatchingExhausts(f, from, r);
  }

  // ---------------------------------------------------------------------------
  // Events

  /** The payloads `subscribe` emits: a tick's `{timestamp, timeframe}` (the timestamp
      in milliseconds, cut to the second) and a subscription's `{timeframe}`. */
  datatype Payload = TickPayload(timestamp: int, timeframe: string) | SubscribedPayload(timeframe: string)

  /** `emit(name, {type: kind, payload})` */
  datatype Event = Event(name: string, kind: string, payload: Payload)

  /** The two events of one tick of the job for `tf` at clock reading `now`. */
  function TickEvents(tf: string, now: int): (es: seq<Event>)
    requires tf != [] && tf[|tf| - 1] != '*'
    ensures |es| == 2 && TickPair(es[0], es[1])
    ensures es[0].name == "TIME/" + tf && es[1].name == "TIME/*"
    ensures es[0].payload == TickPayload(now / 1000 * 1000, tf)
  {
    var name := "TIME/" + tf;
    var payload := TickPayload(now / 1000 * 1000, tf);
    assert name[|name| - 1] == tf[|tf| - 1];
    [Event(name, name, payload), Event("TIME/*", name, payload)]
  }

  /** A timeframe `subscribe` accepts ends in its unit, never in `*`. */
  lemma ListedTimeframe(tf: string)
    requires CronRuleFor(tf).Ok?
    ensures tf != [] && tf[|tf| - 1] != '*'
  {
  }

  /** The event `subscribe` emits after starting the job. */
  function SubscribedEvent(tf: string): Event {
    Event("SUBSCRIPTIONS", "SUBSCRIBED", SubscribedPayload(tf))
  }

  /** A tick's pair: a specific event, then a wildcard `TIME` event of the same type and
      payload. */
  predicate TickPair(e1: Event, e2: Event) {
    e1.name == e1.kind && e1.name != "TIME/*" && e1.payload.TickPayload?
    && e2.name == "TIME/*" && e2.kind == e1.kind && e2.payload == e1.payload
  }

  /** An event log made of subscription events and whole tick pairs. */
  predicate PairedLog(events: seq<Event>)
    decreases |events|
  {
    events == []
    || (events[0] == SubscribedEvent(events[0].payload.timeframe) && PairedLog(events[1..]))
    || (|events| >= 2 && TickPair(events[0], events[1]) && PairedLog(events[2..]))
  }

  /** A single `SUBSCRIPTIONS` event forms a paired log. */
  lemma SubscribedPaired(tf: string)
    ensures PairedLog([SubscribedEvent(tf)])
  {
    assert PairedLog([SubscribedEvent(tf)][1..]);
  }

  /** One tick's events form a paired log. */
  lemma TickPaired(tf: string, now: int)
    requires tf != [] && tf[|tf| - 1] != '*'
    ensures PairedLog(TickEvents(tf, now))
  {
    var tick := TickEvents(tf, now);
    assert PairedLog(tick[2..]);
  }

  /** What a wildcard `TIME` listener receives: type and payload of each wildcard event. */
  function Wildcard(events: seq<Event>): (r: seq<(string, Payload)>)
    ensures |r| <= |events|
    ensures forall p :: p in r ==>
      exists j :: 0 <= j < |events| && events[j].name == "TIME/*" && p == (events[j].kind, events[j].payload)
  {
    if events == [] then []
    else
      assert forall j :: 0 <= j < |events| - 1 ==> events[1..][j] == events[j + 1];
      (if events[0].name == "TIME/*" then [(events[0].kind, events[0].payload)] else [])
      + Wildcard(events[1..])
  }

  /** What the listeners of all the specific `TIME/<tf>` names receive, together. */
  function Specific(events: seq<Event>): (r: seq<(string, Payload)>)
    ensures |r| <= |events|
    ensures forall p :: p in r ==>
      exists j :: 0 <= j < |events| && events[j].name == events[j].kind && events[j].name != "TIME/*"
        && events[j].payload.TickPayload? && p == (events[j].kind, events[j].payload)
  {
    if events == [] then []
    else
      assert forall j :: 0 <= j < |events| - 1 ==> events[1..][j] == events[j + 1];
      (if events[0].name == events[0].kind && events[0].name != "TIME/*" && events[0].payload.TickPayload?
       then [(events[0].kind, events[0].payload)] else [])
      + Specific(events[1..])
  }

  /** Logs of subscriptions and tick pairs stay so when joined. */
  lemma {:induction false} PairedLogAppend(a: seq<Event>, b: seq<Event>)
    requires PairedLog(a) && PairedLog(b)
    ensures PairedLog(a + b)
    decreases |a|
  {
    if a != [] {
      if a[0] == SubscribedEvent(a[0].payload.timeframe) && PairedLog(a[1..]) {
        PairedLogAppend(a[1..], b);
        assert (a + b)[1..] == a[1..] + b;
      } else {
        PairedLogAppend(a[2..], b);
        assert (a + b)[2..] == a[2..] + b;
      }
    } else {
      assert a + b == b;
    }
  }

  /** In a log of subscriptions and tick pairs, a wildcard `TIME` listener receives exactly
      the (type, payload) stream the specific listeners receive together, in order. */
  lemma {:induction false} WildcardMirrorsSpecific(events: seq<Event>)
    requires PairedLog(events)
    ensures Wildcard(events) == Specific(events)
    decreases |events|
  {
    if events != [] {
      if events[0] == SubscribedEvent(events[0].payload.timeframe) && PairedLog(events[1..]) {
        WildcardMirrorsSpecific(events[1..]);
      } else {
        var rest := events[2..];
        assert events[1..][1..] == rest;
        WildcardMirrorsSpecific(rest);
        assert Wildcard(events[1..]) == [(events[1].kind, events[1].payload)] + Wildcard(rest);
        assert Specific(events[1..]) == Specific(rest);
      }
    }
  }

  // ---------------------------------------------------------------------------
  // The bus

  /** `job` is the one `subscribe(tf)` builds: an `onTick`, no `onComplete`, and the
      rule translated from `tf`. */
  ghost predicate BuiltFor(job: CronJob, tf: string) {
    job.hasOnTick && !job.hasOnComplete && CronRuleFor(tf).Ok? && job.cronRule == CronRuleFor(tf).value
  }

  /** `Kronos`: the job list, the timeframe each job's `onTick` emits under, and the
      log of emitted events. */
  class Kronos {
    var jobList: seq<CronJob>
    var frames: seq<string>
    var events: seq<Event>

    /** One timeframe per job, distinct jobs, each built by `subscribe` for its timeframe;
        the log holds subscription events and whole tick pairs. */
    ghost predicate Valid()
      reads this
    {
      |frames| == |jobList|
      && (forall i, j :: 0 <= i < j < |jobList| ==> jobList[i] != jobList[j])
      && (forall i :: 0 <= i < |jobList| ==> BuiltFor(jobList[i], frames[i]))
      && PairedLog(events)
    }

    /** `new Kronos()`: no jobs and nothing emitted. */
    constructor ()
      ensures Valid()
      ensures jobList == [] && frames == [] && events == []
    {
      jobList := [];
      frames := [];
      events := [];
    }

    /** `subscribe(timeframe)` at clock reading `now`. An unknown unit throws before
        anything changes. Otherwise a new job is appended and started, even when the
        timeframe is already subscribed; if its first search throws, the exception
        propagates and no `SUBSCRIPTIONS` event is emitted, but the job stays listed. */
    method Subscribe(timeframe: string, now: int) returns (thrown: Option<SubscribeError>)
      requires Valid()
      modifies this
      ensures Valid()
      ensures CronRuleFor(timeframe).Err? ==>
        thrown == Some(UnhandledTimeframe) && jobList == old(jobList) && frames == old(frames)
        && events == old(events)
      ensures CronRuleFor(timeframe).Ok? ==>
        |jobList| == |old(jobList)| + 1 && jobList[..|old(jobList)|] == old(jobList)
        && frames == old(frames) + [timeframe]
        && fresh(jobList[|old(jobList)|])
        && jobList[|old(jobList)|].isRunning
        && jobList[|old(jobList)|].cronRule == CronRuleFor(timeframe).value
        && jobList[|old(jobList)|].ticks == 0 && jobList[|old(jobList)|].completions == 0
      ensures CronRuleFor(timeframe).Ok? ==>
        (thrown == None ==> events == old(events) + [SubscribedEvent(timeframe)])
        && (thrown != None ==> thrown.value.StartFailed? && events == old(events))
      ensures CronRuleFor(timeframe).Ok? ==>
        jobList[|old(jobList)|].Rescheduled(now, if thrown.Some? then Some(thrown.value.error) else None, None)
    {
      var rule := CronRuleFor(timeframe);
      if rule.Err? {
        return Some(UnhandledTimeframe);
      }
      thrown := AddJob(rule.value, timeframe, now);
    }

    /** The rest of `subscribe` once the switch has produced `cronRule`: the job is
        built, pushed, started, and `SUBSCRIPTIONS` is emitted unless starting threw. */
    method AddJob(cronRule: string, timeframe: string, now: int) returns (thrown: Option<SubscribeError>)
      requires Valid() && CronRuleFor(timeframe) == Ok(cronRule)
      modifies this
      ensures Valid()
      ensures |jobList| == |old(jobList)| + 1 && jobList[..|old(jobList)|] == old(jobList)
      ensures frames == old(frames) + [timeframe]
      ensures fresh(jobList[|old(jobList)|])
      ensures jobList[|old(jobList)|].isRunning && jobList[|old(jobList)|].cronRule == cronRule
      ensures jobList[|old(jobList)|].ticks == 0 && jobList[|old(jobList)|].completions == 0
      ensures thrown == None ==> events == old(events) + [SubscribedEvent(timeframe)]
      ensures thrown != None ==> thrown.value.StartFailed? && events == old(events)
      ensures jobList[|old(jobList)|].Rescheduled(now, if thrown.Some? then Some(thrown.value.error) else None, None)
    {
      var job := new CronJob(cronRule, true, false, false, now);
      Push(job, timeframe);
      var failure := job.Start(now);
      if failure.Some? {
        thrown := Some(StartFailed(failure.value));
      } else {
        SubscribedPaired(timeframe);
        Emit([SubscribedEvent(timeframe)]);
        thrown := None;
      }
    }

    /** `this.jobList.push(job)` for a job built for `timeframe` and not yet listed. */
    method Push(job: CronJob, timeframe: string)
      requires Valid() && BuiltFor(job, timeframe) && job !in jobList
      modifies this
      ensures Valid()
      ensures jobList == old(jobList) + [job] && frames == old(frames) + [timeframe]
      ensures events == old(events)
    {
      jobList := jobList + [job];
      frames := frames + [timeframe];
    }

    /** `emit`: appends to the log whole subscription events or tick pairs. */
    method Emit(es: seq<Event>)
      requires Valid() && PairedLog(es)
      modifies this
      ensures Valid()
      ensures events == old(events) + es && jobList == old(jobList) && frames == old(frames)
    {
      PairedLogAppend(events, es);
      events := events + es;
    }

    /** The timer of job `i` fires at clock reading `now`: when the job is running its
        `onTick` emits `TIME/<tf>` and then the wildcard `TIME` event with one payload, and
        the job schedules its next execution; a stopped job does nothing, and keeps its
        state, counters and timer. */
    method FireJob(i: nat, now: int) returns (thrown: Option<CronError>)
      requires Valid() && i < |jobList|
      modifies this, jobList[i]
      ensures Valid()
      ensures jobList == old(jobList) && frames == old(frames)
      ensures jobList[i].isRunning == old(jobList[i].isRunning)
      ensures jobList[i].completions == old(jobList[i].completions)
      ensures !old(jobList[i].isRunning) ==>
        events == old(events) && thrown == None && jobList[i].timeout == old(jobList[i].timeout)
        && jobList[i].ticks == old(jobList[i].ticks)
      ensures old(jobList[i].isRunning) ==>
        events == old(events) + TickEvents(frames[i], now)
        && jobList[i].ticks == old(jobList[i].ticks) + 1
        && jobList[i].Rescheduled(now, thrown, old(jobList[i].timeout))
    {
      var job := jobList[i];
      if job.isRunning {
        ListedTimeframe(frames[i]);
        TickPaired(frames[i], now);
        Emit(TickEvents(frames[i], now));
      }
      thrown := job.Fire(now);
    }

    /** `unsubscribeAll()`: stops every listed job, then empties the list; the event log
        is untouched and an empty list makes it a no-op. */
    method UnsubscribeAll()
      requires Valid()
      modifies this, jobList
      ensures Valid()
      ensures jobList == [] && frames == [] && events == old(events)
      ensures forall j :: j in old(jobList) ==>
        !j.isRunning && j.timeout == None && j.ticks == old(j.ticks) && j.completions == old(j.completions)
    {
      ListedWithoutComplete();
      StopEach(jobList);
      jobList := [];
      frames := [];
    }

    /** Jobs built by `subscribe` have no `onComplete`. */
    lemma ListedWithoutComplete()
      requires Valid()
      ensures forall j :: j in jobList ==> !j.hasOnComplete
    {
      forall j | j in jobList ensures !j.hasOnComplete {
        var k :| 0 <= k < |jobList| && jobList[k] == j;
        assert BuiltFor(jobList[k], frames[k]);
      }
    }
  }

  /** The `forEach` of `unsubscribeAll`: `stop()` on each job in turn. Without
      `onComplete`, stopping a job again leaves it as the first `stop()` did. */
  method StopEach(jobs: seq<CronJob>)
    requires forall j :: j in jobs ==> !j.hasOnComplete
    modifies set j | j in jobs
    ensures forall j :: j in jobs ==>
      !j.isRunning && j.timeout == None && j.ticks == old(j.ticks) && j.completions == old(j.completions)
  {
    var i := 0;
    while i < |jobs|
      invariant 0 <= i <= |jobs|
      invariant forall k :: 0 <= k < i ==> !jobs[k].isRunning && jobs[k].timeout == None
      invariant forall j :: j in jobs ==> j.ticks == old(j.ticks) && j.completions == old(j.completions)
    {
      jobs[i].Stop();
      i := i + 1;
    }
  }

  /** Subscribing the same timeframe twice lists two separate running jobs for it. */
  method SubscribeTwice(bus: Kronos, timeframe: string, now: int)
    requires bus.Valid() && CronRuleFor(timeframe).Ok?
    modifies bus
    ensures bus.Valid()
    ensures |bus.jobList| == |old(bus.jobList)| + 2
    ensures bus.frames == old(bus.frames) + [timeframe, timeframe]
    ensures bus.jobList[|bus.jobList| - 2] != bus.jobList[|bus.jobList| - 1]
  {
    var first := bus.Subscribe(timeframe, now);
    var second := bus.Subscribe(timeframe, now);
  }
}

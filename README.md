# kronos-js scheduler core, modelled in Dafny

This project models the two components that hold the logic of kronos-js:

- **`CronJob`** (`src/CronJob.js`) covers three things:
  - the field matcher `_matchField`;
  - the next-occurrence search `_getNextDate`, including the 5-field normalisation and the bounded forward scan;
  - the `start` / `stop` / `_scheduleNext` life cycle over `isRunning` and `timeout`.
- **`Kronos`** (`src/Kronos.js`) covers:
  - the unit-suffix translation from a timeframe such as `10s` to a cron rule;
  - the job registry (`subscribe`, `unsubscribeAll`);
  - the two events each tick emits, `TIME/<tf>` and then `TIME/*`.

The modules are:

| module | file | contents |
|---|---|---|
| `Wrappers` | `Wrappers.dfy` | `Option` and `Result`. |
| `JsText` | `JsText.dfy` | The JavaScript string built-ins the code relies on: `trim`, `split(c)`, `split(/\s+/)`, `parseInt(s, 10)`. `NaN` is `None`. |
| `Civil` | `Civil.dfy` | The calendar fields of an instant, decomposed in UTC: second, minute, hour, day of month, month 1-12, and weekday, where 1970-01-01 is a Thursday. |
| `CronMatch` | `CronMatch.dfy` | `_matchField` as a pure recursive function, dispatching `*`, then `,`, then `/`, then `-`, then an exact number. Also the split of a rule into six fields (`undefined` is `None`) and the short-circuit `&&` chain over those fields. |
| `CronJobs` | `CronJob.dfy` | `_getNextDate` as a method with the source's `while` loop, proved against `NextDateSpec`, a declarative description of the search. Also `NextDateOf`, a recursive reference definition, and the class `CronJob` with its life-cycle methods. |
| `Subscriptions` | `Kronos.dfy` | The `switch` as the function `CronRuleFor`, the event log, and the class `Kronos`. |

The model makes these representation choices:

- **Time.** Instants are integer milliseconds, which is what `Date.now()` gives. A candidate second is a count of seconds since the epoch.
- **Clock.** The clock reading is a method parameter.
- **Timer.** A pending `setTimeout` is the slot `timeout: Option<Timer>`, which holds its due instant and its delay.
- **Callbacks.** Calls to `onTick` and `onComplete` are counted (`ticks`, `completions`) rather than made.
- **Events.** `emit` appends to the `events` log.
- **Jobs.** Each Kronos job is the in-repository `CronJob` model.

## What the code does, as against its tests

The model follows the code in `src/Kronos.js`. The tests in `src/Kronos.spec.js` describe a different Kronos, and the model does not follow them:

| behaviour | tests | code, and so the model |
|---|---|---|
| `jobList` | a keyed object (Kronos.spec.js:17) | A sequence (Kronos.js:10). `Kronos.jobList` is a `seq<CronJob>`. |
| subscribing a timeframe twice | de-duplicated (Kronos.spec.js:304-313) | Each call appends a new job (Kronos.js:50). `SubscribeTwice` proves that two distinct jobs are listed. |
| 5- and 6-field cron strings | passed through (Kronos.spec.js:30-34, 108-125) | There is no passthrough. A string that ends in `*` has no known unit and throws. The `CronRuleFor` contract covers this. |
| `1d` | gives `0 0 * * *` (Kronos.spec.js:97-101, 149-152) | `num===1` compares a string with a number, so it is never true (Kronos.js:28). `1d` gives `0 0 */1 * *` (`OneDayRule`). `OneDayIsDaily` proves that this rule fires at exactly the same instants as `0 0 * * *`. |
| error message | "Invalid timeframe or cron string" (Kronos.spec.js:27) | "Unhandled timeframe" (Kronos.js:35), which is `SubscribeError.UnhandledTimeframe`. |

Other behaviour of the code that the model makes explicit:

- `0s` produces `*/0 * * * * *`. That rule never matches, because `value % 0` is `NaN` (`ZeroSecondsExhausts`).
  - With the in-repository `CronJob` as the job, which is how this model builds jobs, the first search of the new job exhausts its four years and throws, and the exception escapes `subscribe`. By then the job has already been pushed and marked running, and no `SUBSCRIPTIONS` event is emitted. `Subscribe` states this through `StartFailed`.
  - `src/Kronos.js` itself builds its jobs with the external `cron` package (Kronos.js:3 and :49), and calls `new CronJob` before `push`. What that package does with a step of 0, and whether it throws already in its constructor, is not part of this model, so for the real package the order above is an assumption.
- A rule with one to four parts leaves later fields `undefined`. `undefined.includes` throws a `TypeError` once the `&&` chain reaches such a field (`ShortRuleThrows`).
- In a pattern such as `5/10`, the range before the `/` is neither `*` nor contains `-`, so the step branch falls through to the exact match. The pattern then matches 5 (`NumberSlashIsExact`).
- `lo-/s` has no upper bound, because the end parses to `NaN` and `value > NaN` is false (`OpenEndedStepRange`).

## Model

| member | source | states |
|---|---|---|
| JsText.SplitJoin | src/CronJob.js:116 | `split(',')` of comma-free items joined by commas gives back the items. |
| JsText.JoinSplit | src/CronJob.js:121 | Joining the pieces of `split(c)` gives back the string: the split loses nothing. |
| JsText.SplitWsJoinSpace | src/CronJob.js:52 | `split(/\s+/)` of non-blank tokens joined by single spaces gives back the tokens. |
| JsText.ParseNatStr | src/CronJob.js:122 | `parseInt` reads a number back from its decimal text, whatever non-digit text follows. |
| JsText.TrimStart | src/CronJob.js:52 | `trimStart` drops exactly the leading white space. |
| JsText.Trim | src/CronJob.js:52 | `trim()` is the prefix of `trimStart()` that leaves only white space after it and does not itself end in white space: exactly the leading and the trailing white space go, and the middle is kept. |
| JsText.TrimStartRun | src/CronJob.js:52 | `trimStart()` of any white-space run followed by text that does not start with white space gives that text. |
| JsText.TrimRuns | src/CronJob.js:52 | `trim()` of any text that starts and ends with something other than white space, surrounded by any white space, gives that text. |
| JsText.SplitWs | src/CronJob.js:52 | `split(/\s+/)` gives at least one part, and no part holds white space. It gives one part exactly when the input has no white space, and that part is the input. |
| JsText.SplitWsRun | src/CronJob.js:52 | For any input: a white-space-free `a`, then any non-empty run of white space, then text `rest` not starting with white space, splits into `a` followed by the parts of `rest`. With the one-part case this gives the split of every input. |
| JsText.SplitWsJoinRuns | src/CronJob.js:52 | Non-blank tokens separated by any non-empty runs of white space (spaces, tabs, line breaks, several at once) split back into exactly those tokens. |
| JsText.ParseInt | src/CronJob.js:122 | `parseInt(s, 10)`: leading white space, an optional sign, then the longest run of decimal digits, and `NaN` when there is none. A definition without a contract of its own; `JsText.ParseNatStr` and `CronMatch.EmptyIsNaN` state what it gives. |
| JsText.Split | src/CronJob.js:121 | Every piece of `split(c)` is free of `c` and shorter than the input when the input holds `c`. |
| Civil.DateOf | src/CronJob.js:72-77 | The `Date` getters in UTC: second and minute below 60, hour below 24, day of month 1-31, month 1-12 and weekday 0-6. |
| CronMatch.MatchField | src/CronJob.js:110-143 | `_matchField`, with its branches in the source's order. A definition without a contract of its own; `CronMatch.AtomMatches` and `CronMatch.ListMatches` state what each pattern matches. |
| CronMatch.MatchStep | src/CronJob.js:120-132 | The `/` branch, when it returns, matches nothing unless the step parses to a non-zero number: `NaN` and 0 steps never match. |
| CronMatch.MatchRange | src/CronJob.js:136-139 | The `-` branch matches only when both bounds parse to numbers, and then only values between them. |
| CronMatch.Fields | src/CronJob.js:52-63 | Any rule, even a blank or short one, yields exactly six field patterns, some possibly `undefined`. |
| CronMatch.FieldsOf | src/CronJob.js:53-63 | Five parts give second `'0'` followed by the five parts in order. Any other number of parts gives the first six, in order, with `undefined` past the end. |
| CronMatch.FieldValues | src/CronJob.js:93-98 | The six values the chain tests, in rule order, each within its calendar range. |
| CronMatch.EvalAt | src/CronJob.js:92-98 | The chain at an instant is `Ok(true)` exactly when every field is defined and matches that instant's value, and never throws when every field is defined. |
| CronMatch.EvalFields | src/CronJob.js:92-98 | The chain is `Ok(true)` exactly when every field is defined and matches. It throws only the `TypeError`, and only after every earlier field matched. With all fields defined it never throws. |
| CronMatch.ReachesUndefined | src/CronJob.js:71-77 | Reaching an `undefined` field, with every earlier field matching, throws. |
| CronMatch.AtomMatches | src/CronJob.js:110-143 | Each pattern form (`*`, `n`, `lo-hi`, `*/s`, `lo-hi/s`) matches exactly the values it stands for. A step of 0 stands for none. |
| CronMatch.AnyMatches | src/CronJob.js:112 | `*` matches every value. |
| CronMatch.ExactMatches | src/CronJob.js:141-142 | A number matches exactly the value it denotes. |
| CronMatch.ExactPattern | src/CronJob.js:141-142 | A pattern that is not `*`, a list, a step or a range matches exactly the value `parseInt` reads from it, and matches nothing when that is `NaN`. |
| CronMatch.SpanMatches | src/CronJob.js:136-139 | `lo-hi` matches exactly the values with `lo <= value <= hi`. |
| CronMatch.EveryMatches | src/CronJob.js:120-126 | `*/s` matches exactly the multiples of `s`, and nothing when `s` is 0. |
| CronMatch.SpanEveryMatches | src/CronJob.js:128-132 | `lo-hi/s` matches exactly `lo <= value <= hi` with `(value - lo) % s == 0`, and nothing when `s` is 0. |
| CronMatch.ListMatches | src/CronJob.js:115-117 | A comma list matches exactly when at least one of its items does. |
| CronMatch.ListBranch | src/CronJob.js:115-117 | The list branch splits the joined text back into its items, and matches when one of the trimmed items matches. |
| CronMatch.StepZeroNeverMatches | src/CronJob.js:120-132 | A step that parses to 0 never matches when the range is `*` or contains `-`. |
| CronMatch.NumberSlashIsExact | src/CronJob.js:119-142 | `n/...` with a plain number before the `/` falls through to the exact match and matches only `n`. |
| CronMatch.OpenEndedStepRange | src/CronJob.js:128-131 | `lo-/s` matches every `s`-th value from `lo` upwards, with no upper bound. |
| CronMatch.EvalStars | src/CronJob.js:92-98 | Fields that are `*` never decide the chain: the leading fields alone do. |
| CronMatch.ZerosThenStepFields | src/CronJob.js:92-98 | Zeros, then `*/n`, then wildcards: the chain matches when the leading values are 0 and the next one is a multiple of `n`. |
| CronMatch.ZeroClockFields | src/CronJob.js:92-98 | `0 0 0 * * *` matches exactly when second, minute and hour are 0. |
| CronMatch.ZeroSecondFields | src/CronJob.js:92-98 | `0 * * * * *` matches exactly at second 0. |
| CronMatch.RuleParts | src/CronJob.js:52 | A rule of single-spaced tokens trims to itself and splits into those tokens. |
| CronMatch.SpacedRuleParts | src/CronJob.js:52 | A rule written with any white space before, between and after its tokens trims and splits into exactly those tokens. |
| CronMatch.SpacedRuleFields | src/CronJob.js:52-63 | The six fields of such a rule are those of its tokens, whatever white space separates and surrounds them. |
| CronMatch.SixFieldRule | src/CronJob.js:52-53 | A rule of six or more parts is read field by field, in order. |
| CronMatch.FiveFieldRule | src/CronJob.js:55-63 | A 5-part rule gets second `'0'`, and its parts move up to minute through day of week. |
| CronMatch.FieldsDefined | src/CronJob.js:52-63 | Every field is defined exactly when the rule has at least five parts; otherwise the first missing part is `undefined`. |
| CronJobs.NextDateSpec | src/CronJob.js:65-107 | The description of `_getNextDate`: the first whole second from the first candidate on that matches, or the `TypeError` of the first that reaches an `undefined` field, or 'Could not find next execution time' when none of the 4·365·24·3600 candidates stops the scan. A predicate; `CronJobs.NextDateOfMeetsSpec` and `CronJobs.NextDateUnique` state its meaning. |
| CronJobs.NextDateOf | src/CronJob.js:65-107 | The recursive reference scan. A result it returns is a matching whole second inside the search window. |
| CronJobs.NextDate | src/CronJob.js:51-108 | The loop meets `NextDateSpec`: `from` itself when it is a matching whole second, else the first matching whole second of the scan. Otherwise it throws: the `TypeError` from the first second reaching an `undefined` field, or 'Could not find next execution time' after `4*365*24*3600` candidates. A result is a whole second, not before `from`. |
| CronJobs.NextDateOfMeetsSpec | src/CronJob.js:65-107 | The description of the search holds of a result exactly when it equals the recursive scan `NextDateOf`. |
| CronJobs.ScanMeetsSpec | src/CronJob.js:91-107 | Scanning on from any second after a run of mismatches meets the description of the search. |
| CronJobs.NextDateUnique | src/CronJob.js:51-108 | The description pins down one outcome. |
| CronJobs.StopsWithMatch | src/CronJob.js:92-101 | The scan that reaches a matching second after only mismatches returns that second. |
| CronJobs.StopsWithError | src/CronJob.js:92-98 | The scan that reaches a second whose chain throws, after only mismatches, throws that. |
| CronJobs.NextDateImmediate | src/CronJob.js:69-81 | When `from` is a whole second and all six fields match, the result is `from` unchanged. |
| CronJobs.NextDateEarliest | src/CronJob.js:83-105 | The result is a matching whole second at or after `from`, and no earlier whole second from `from` on matches. It equals `from` exactly when `from` is itself a matching whole second. |
| CronJobs.WellFormedRuleNeverUndefined | src/CronJob.js:52-63 | A rule of at least five parts never throws the `TypeError`. |
| CronJobs.NeverMatchingExhausts | src/CronJob.js:88-107 | A rule that matches no instant ends in 'Could not find next execution time'. |
| CronJobs.ShortRuleThrows | src/CronJob.js:53 | A rule of one to four `*` parts throws the `TypeError` at the first candidate. |
| CronJobs.BlankRuleExhausts | src/CronJob.js:141-142 | A blank rule is one empty field that parses to `NaN`, so the search exhausts. |
| CronJobs.EverySecondNext | src/CronJob.js:65-105 | `* * * * * *` next fires at the first whole second at or after `from`, less than a second later. |
| CronJobs.EveryMinuteExample | src/CronJob.js:83-105 | `0 * * * * *` from 2024-01-01T12:30:45Z next fires at 12:31:00. |
| CronJobs.EveryFiveSecondsExample | src/CronJob.js:120-126 | `*/5 * * * * *` from 12:30:07 next fires at 12:30:10. |
| CronJobs.DailyMidnightExample | src/CronJob.js:55-63 | `0 0 * * *` (five parts) from 2024-01-01T12:30Z next fires at midnight on 2 January. |
| CronJobs.CronJob.constructor | src/CronJob.js:2-12 | A new job has no calls counted. With `start` false it is not running and has no timeout. With `start` true it is running and rescheduled as `start` does. |
| CronJobs.CronJob.Start | src/CronJob.js:14-18 | On a running job nothing changes. On a stopped job it is running afterwards, with a timer armed for the next date or the search's exception. |
| CronJobs.CronJob.Stop | src/CronJob.js:20-29 | Always ends not running with no timeout. `onComplete` is counted once per call, even on a stopped job. |
| CronJobs.CronJob.ScheduleNext | src/CronJob.js:31-38 | When running, the timer's due instant is the next date and its delay is `next - now`, never negative. When the search throws, the timer slot is unchanged. When stopped, nothing changes. |
| CronJobs.CronJob.Fire | src/CronJob.js:38-48 | A timeout that fires while not running does nothing. Otherwise `onTick` is counted once and the job reschedules. |
| Subscriptions.UnitOf | src/Kronos.js:15 | The unit is the last character, or empty for an empty timeframe. |
| Subscriptions.NumOf | src/Kronos.js:16 | `num` followed by the unit gives back the timeframe. |
| Subscriptions.CronRuleFor | src/Kronos.js:15-36 | The `switch` throws exactly when the timeframe is empty or its last character is not `s`, `m`, `h` or `d`, and then with "Unhandled timeframe". |
| Subscriptions.ListedTimeframe | src/Kronos.js:34-36 | An accepted timeframe is non-empty and ends in its unit, never in `*`. |
| Subscriptions.SecondsTimeframe | src/Kronos.js:18-20 | `Ns` gives `*/N * * * * *`, which fires at the seconds divisible by `N`. |
| Subscriptions.MinutesTimeframe | src/Kronos.js:21-23 | `Nm` gives `*/N * * * *`, which fires at second 0 of the minutes divisible by `N`. |
| Subscriptions.HoursTimeframe | src/Kronos.js:24-26 | `Nh` gives `0 */N * * *`, which fires at the start of the hours divisible by `N`. |
| Subscriptions.DaysTimeframe | src/Kronos.js:27-33 | `Nd` gives `0 0 */N * *`, which fires at midnight of the days of the month divisible by `N`. |
| Subscriptions.OneDayRule | src/Kronos.js:28-31 | `1d` takes the `*/1` branch, giving `0 0 */1 * *`. |
| Subscriptions.OneDayIsDaily | src/Kronos.js:27-33 | `0 0 */1 * *` fires at exactly the instants `0 0 * * *` does. |
| Subscriptions.LongSecondsStep | src/Kronos.js:18-20 | `Ns` with `N >= 60`, such as `999s`, fires once a minute at second 0. |
| Subscriptions.ZeroSecondsExhausts | src/Kronos.js:18-20 | The rule for `0s` never matches, so the job's search exhausts. |
| Subscriptions.TickEvents | src/Kronos.js:37-45 | A tick emits two events: `TIME/<tf>`, then `TIME/*`. Both have type `TIME/<tf>` and the same payload `{timestamp, timeframe}`. |
| Subscriptions.PairedLog | src/Kronos.js:43-52 | The logs the bus emits: `SUBSCRIPTIONS` events and whole tick pairs, each pair a `TIME/<tf>` event followed by the `TIME/*` event with the same type and payload. A predicate; `Subscriptions.PairedLogAppend` and `Subscriptions.WildcardMirrorsSpecific` state its consequences. |
| Subscriptions.Wildcard | src/Kronos.js:44 | What a `TIME/*` listener receives: the type and payload of `TIME/*` events only, at most one item per event. |
| Subscriptions.Specific | src/Kronos.js:43 | What the `TIME/<tf>` listeners receive together: the type and payload of tick events under their own name only, at most one item per event. |
| Subscriptions.TickPaired | src/Kronos.js:43-44 | One tick's events form a well-formed log. |
| Subscriptions.SubscribedPaired | src/Kronos.js:52 | A `SUBSCRIPTIONS` event forms a well-formed log. |
| Subscriptions.PairedLogAppend | src/Kronos.js:43-52 | A well-formed log stays well-formed when more subscription events or tick pairs are emitted. |
| Subscriptions.WildcardMirrorsSpecific | src/Kronos.js:43-44 | In any log the bus can produce, a `TIME/*` listener receives exactly the (type, payload) stream that the specific `TIME/<tf>` listeners receive together, in order. |
| Subscriptions.Kronos.constructor | src/Kronos.js:7-11 | A new bus has an empty job list and has emitted nothing. |
| Subscriptions.Kronos.Subscribe | src/Kronos.js:12-53 | An unknown unit throws and changes nothing. Otherwise exactly one new running job with the translated rule is appended, and earlier jobs are untouched. One `SUBSCRIPTIONS`/`SUBSCRIBED` event carries the timeframe, unless starting threw. The new job starts with no tick and no completion counted. |
| Subscriptions.Kronos.AddJob | src/Kronos.js:46-52 | The new job is pushed, then started, then `SUBSCRIPTIONS` is emitted; the job stays listed when starting throws. The new job is running, with no tick and no completion counted. |
| Subscriptions.Kronos.Push | src/Kronos.js:50 | `push` appends the job and its timeframe and keeps the registry invariant. |
| Subscriptions.Kronos.Emit | src/Kronos.js:52 | `emit` appends to the log and changes nothing else. |
| Subscriptions.Kronos.FireJob | src/Kronos.js:37-45 | A running job's tick appends exactly its two events, counts one tick and reschedules; the job stays running and `onComplete` is not counted. A stopped job's timer does nothing: the job stays stopped, with its timer slot, tick count and completion count unchanged, and the log is unchanged. |
| Subscriptions.Kronos.UnsubscribeAll | src/Kronos.js:54-59 | Every listed job ends stopped with no timeout and nothing called, the list ends empty, and the log is unchanged. On an empty list it is a no-op, and repeating it is safe. |
| Subscriptions.StopEach | src/Kronos.js:55-57 | `stop()` on each job leaves each one stopped with no timeout. |
| Subscriptions.Kronos.ListedWithoutComplete | src/Kronos.js:46 | Jobs built by `subscribe` have no `onComplete`. |
| Subscriptions.SubscribeTwice | src/Kronos.js:50 | Subscribing the same timeframe twice lists two distinct jobs and grows the list by two. |

## Left out

- **Real timers and the clock.** `setTimeout`, `clearTimeout` and `Date.now` become a clock parameter plus a pending-deadline slot. Asynchronous firing is the caller invoking `Fire` or `FireJob` with a later clock reading. Neither requires a pending or due timer: they may be called in any state, including a running job with no timer armed (after its first search threw, as for `0s`), where the program would never fire. The model therefore allows more firings than the program, and what it proves about firing holds for the program's firings too.
- **`setTimeout` overflow.** Node does not clamp a delay above 2^31-1 ms (about 24.8 days): it replaces it with 1 ms. A next date further away than that, for example under `30d`, therefore fires almost at once, and then keeps firing as each new search again finds a date that is too far away. The model does not capture this: the delay is kept as the exact integer `next - now`, and the timer is due at the next date.
- **Time zones.** The JavaScript `Date` getters and `setSeconds` use the host's local time zone and daylight-saving rules. The model decomposes instants in UTC instead.
- **Timestamp formatting.** `moment.utc().startOf('second').toISOString()` is modelled as the clock reading in milliseconds, cut to the second. The ISO text is not modelled.
- **Number semantics.** `parseInt` and the arithmetic on its result use unbounded integers, so precision loss above 2^53 is not modelled. Text is a sequence of characters, with no UTF-16 surrogate pairs.
- **The external `cron` package.** `Kronos.js` builds jobs with the `cron` package's `CronJob`, whose `utcOffset` argument is also not modelled. That package is not part of this model; the in-repository `CronJob` model takes its place. Its call passes `onComplete = null` and `start = false`, and those are kept.
- **`EventEmitter` bookkeeping.** Listener registration, `listenerCount` and `removeAllListeners` are not modelled. `emit` is an append to the log. What a listener receives is a filter of the log (`Wildcard`, `Specific`).
- CronJobs.CronJob.constructor: with `start` true, the constructor calls `start()`, and an exception from that first search reaches the caller of the constructor. The model does not return that exception. Its contract states only that some outcome of rescheduling holds.
- **`NextDateSpec` and `NextDateOf` are ghost.** The checks the source makes at run time are the executable `NextDate` loop. `NextDateSpec` and `NextDateOf` are ghost definitions that describe what that loop computes.
- **Out of scope.** The timing-accuracy tests, `src/utils/EventCollector.js`, `src/utils/CallbackTracker.js`, `src/utils/TestTimer.js` and `example.js` are test scaffolding and entry points, and are not part of this model.

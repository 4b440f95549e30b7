# PrayerTimeWidget in Dafny

This project models the logic of the PrayerTimeWidget browser script and of its Aladhan provider:

- the widget's time-string rules:
  - `to24h` turns a free-form clock time such as `"6:01 pm"` into `"HH:MM"`;
  - `minutesFromHHMM` and `format12h` convert `"HH:MM"` text to minutes and into a 12-hour label;
- the five-prayer map (`normalizeTimes`);
- the choice of the next prayer (`nextPrayer`) and the countdown to it (`countdown`);
- the widget instance that `init` returns, and the `destroy` that clears it;
- the `autoDaily` refresher, which keeps one instance current with a timer armed shortly after midnight;
- the provider's request helpers (`pad`, `formatDDMMYYYY`, `resolveMethod`, `toQuery`, the two params lists);
- the provider's response checks (`res.ok`, `json.code === 200`, `extractTimes`).

The modules of the project:

| module | file | what it holds |
|---|---|---|
| `JsBuiltins` | `js_builtins.dfy` | The JavaScript built-ins the code relies on: `trim`, ASCII `toLowerCase`, `parseInt(_, 10)`, number-to-text, the truncating `%`, and `split`/`join` on one character. JavaScript numbers are `NaN` or an integer (`JsNumber`). |
| `TimeFormat` | `time_format.dfy` | `to24h`, `minutesFromHHMM` and `format12h`, and the theorems that tie them together. |
| `Prayers` | `prayers.dfy` | `normalizeTimes` and `nextPrayer`, modelled as the loops they are, each proved against a specification function. Also `countdown`. |
| `Widget` | `widget.dfy` | `init` and its instance, as classes over a container. `msUntilNextRefresh`. The `autoDaily` closure, as a class `Scheduler` with one method per event. |
| `Aladhan` | `aladhan.dfy` | The provider's date, method, query and response rules, over a small JSON datatype. |

## How the refresher is modelled

The refresher's callbacks are split at their awaits, so each event is one method of `Widget.Scheduler`:

- `BootstrapSettles`: `bootstrap`'s fetch settles.
- `TimerFires`: the pending timeout goes off; this is the daily refresh or the five-minute retry.
- `RefreshSettles`: the daily refresh's fetch settles.
- `Destroy`: the refresher's `destroy()`.

`Widget.AutoDaily` checks the arguments and constructs the refresher. A fetch outcome is an input (`FetchResult`). The milliseconds to the next local midnight are an input as well. Pending timeouts are a sequence of `Timeout` records, and `clearTimeout` is `Cleared`.

The invariant `Valid` holds between any two events. Part of it, `Frame`, says:

- at most one timeout is pending, and it is the one `timer` names;
- once destroyed, no daily refresh is pending;
- each instance the refresher has replaced has stopped ticking.

The rest of `Valid` says that a live refresher has exactly one thing under way: a fetch in flight or a timeout pending.

## Model

| member | source | states |
|---|---|---|
| `TimeFormat.To24h` | src/prayertime-widget.js:57-70 | The result is empty exactly when the input is empty (falsy); otherwise it is never empty. |
| `TimeFormat.To24hOfTime` | src/prayertime-widget.js:57-69 | Input shape: hour digits, then optionally `:` and minute digits, then optionally whitespace and an `am`/`pm` marker in any letter case. The result is then the hour and the minute, each zero-padded below 10. A missing or empty minute is 0. The hour follows the marker rule: `pm` with an hour below 12 adds 12; `am` with hour 12 gives 0; no marker keeps the hour. |
| `TimeFormat.HourMinuteOfValues` | src/prayertime-widget.js:65-69 | Once both parts are read as numbers, the result is the marker-adjusted hour, `:`, and the minute, each padded. |
| `TimeFormat.To24hOfClock` | src/prayertime-widget.js:59-69 | `to24h` is the identity on canonical `"HH:MM"` text. |
| `TimeFormat.MinutesOfClock` | src/prayertime-widget.js:78-81 | Canonical `"HH:MM"` text reads as `HH * 60 + MM`. |
| `TimeFormat.Format12hOfClock` | src/prayertime-widget.js:83-90 | For a time of day `h:m`, the label is `d:MM SUFFIX`. `d` is in 1..12, agrees with `h` modulo 12, and is 12 for hours 0 and 12. The minutes keep two digits. The suffix is `PM` exactly when `h >= 12`, and `AM` otherwise. |
| `TimeFormat.To24hOfFormat12h` | src/prayertime-widget.js:57-90 | Reading a 12-hour label back with `to24h` gives the original canonical time. |
| `Prayers.NormalizeTimes` | src/prayertime-widget.js:100-109 | Null input gives null. Otherwise the loop over the five keys builds exactly `Normalized(times, Order)`. |
| `Prayers.NormalizedEntries` | src/prayertime-widget.js:100-109 | A prayer is in the output exactly when it is among the visited keys and its input value is truthy. Its value is `to24h` of the input value. No other key appears. |
| `Prayers.NormalizedCanonical` | src/prayertime-widget.js:100-109 | A value already in `"HH:MM"` form comes out unchanged. |
| `Prayers.Next` | src/prayertime-widget.js:111-128 | When some prayer's minutes exceed now, the result is such a prayer with its own minutes, and no earlier prayer in order qualifies. When none does, the result is Fajr with its minutes plus 1440. |
| `Prayers.NextPrayer` | src/prayertime-widget.js:111-128 | The scan that breaks at the first match returns exactly `Next`. |
| `Prayers.NextIsAhead` | src/prayertime-widget.js:111-128 | For `0 <= nowMins < 1440`, with Fajr readable and not negative, the chosen minutes exceed now. |
| `Prayers.EqualTimeSkipped` | src/prayertime-widget.js:119 | A prayer whose time equals now is never returned with that time. |
| `Prayers.FirstLater` | src/prayertime-widget.js:116-122 | The first position whose time is strictly later than now, or the end; every position before it is not later. |
| `Prayers.MinutesSinceMidnight` | src/prayertime-widget.js:72-76 | A time of day is a minute of the day, in `[0, 1440)`, from which its hour (`/ 60`) and minute (the remainder) read back. |
| `Prayers.Countdown` | src/prayertime-widget.js:130-137 | A NaN target gives NaN hours and minutes; an integer target gives integers. |
| `Prayers.CountdownSplit` | src/prayertime-widget.js:130-137 | When the target is at most a day behind now: hours >= 0, `0 <= minutes < 60`, and `hours * 60 + minutes` is the difference, plus 1440 when it was negative. |
| `Prayers.CountdownModDay` | src/prayertime-widget.js:130-137 | Within one day either side, the total is the difference modulo 1440. |
| `Prayers.CountdownToNext` | src/prayertime-widget.js:111-137 | Take "now" as a time of day, a readable Fajr, and every readable prayer time a minute of the day (in `[0, 1440)`). Counting down to the prayer `nextPrayer` picks then gives a total in `(0, 1440]` minutes. |
| `Widget.Instance.constructor` | src/prayertime-widget.js:222-227 | The container shows the instance's display and the interval is running. |
| `Widget.Instance.Tick` | src/prayertime-widget.js:225-227 | The interval renders again; if rendering throws, the interval is cleared and the container is left as it was. |
| `Widget.Instance.Destroy` | src/prayertime-widget.js:229 | Clears the interval and empties the container. |
| `Widget.Init` | src/prayertime-widget.js:210-230 | A missing target fails first, with `TargetNotFound`. Missing times fail with `TimesRequired` and the target is left unchanged. Otherwise a fresh, ticking instance shows the normalized times, and the normalized congregation times when they are given. |
| `Widget.RefreshAfterMidnight` | src/prayertime-widget.js:233-239 | The refresh delay is never before midnight. It is exactly midnight when the offset is not positive, and later when it is positive. |
| `Widget.AutoDaily` | src/prayertime-widget.js:241-247 | Missing options, a missing target option or a missing `getTimes` make `autoDaily` throw its one message, and then no refresher exists. Otherwise a fresh, valid refresher exists on the element the target resolves to. Its offset defaults to 1 when none is given. Nothing is armed yet, no instance exists, and the bootstrap fetch is in flight. |
| `Widget.FirstDailyRefresh` | src/prayertime-widget.js:233-298 | Whatever the initial fetch gives, a new refresher arms its first daily refresh at: midnight plus 60000 ms when no offset is given; midnight plus the offset in minutes when that is positive; midnight itself when it is not. |
| `Widget.Cleared` | src/prayertime-widget.js:270 | `clearTimeout` removes exactly the timeouts the cleared id names: every other pending timeout stays, and none is added. |
| `Widget.Scheduler.constructor` | src/prayertime-widget.js:243-247 | A fresh refresher is valid. Nothing is armed and no instance exists. The offset is resolved. The bootstrap fetch is in flight. |
| `Widget.Scheduler.Arm` | src/prayertime-widget.js:270-271 | Clear then set: afterwards exactly one timeout is pending, the new one, and `timer` names it. |
| `Widget.Scheduler.ScheduleNext` | src/prayertime-widget.js:268-287 | Once destroyed it changes nothing, so no timer is re-armed after `destroy`. Otherwise the one pending timeout is the daily refresh, with delay `MsUntilNextRefresh`. Validity is kept. |
| `Widget.Scheduler.BootstrapSettles` | src/prayertime-widget.js:289-299 | A successful fetch with times and a target gives a fresh, ticking instance, and afterwards no fetch is in flight. It shows the normalized times and congregation times, and the target shows it. Any failure leaves no instance and the target as it was. `scheduleNext` runs either way, so a live refresher then has the daily refresh pending and a destroyed one has nothing pending. `destroyed` is not consulted. |
| `Widget.Scheduler.TimerFires` | src/prayertime-widget.js:271-274 | The daily refresh starts its fetch and leaves nothing pending. The five-minute retry runs `scheduleNext`: it arms the daily refresh when live and nothing when destroyed. The retry does not fetch, so afterwards no fetch is in flight. |
| `Widget.Scheduler.RefreshSettles` | src/prayertime-widget.js:274-285 | On fetched data, the old instance is destroyed and retired before `init` runs; nothing else is retired. If `init` succeeds, a fresh ticking instance replaces it. The new instance shows the normalized times and the target shows it; when live, the daily refresh is armed. If the fetch or `init` fails, `instance` keeps its old value and exactly one timeout is pending: the 300000 ms retry, whose action is `scheduleNext`. A failed `init` leaves the target empty when an old instance was destroyed, and as it was when there was none. A failed fetch leaves the target and the old instance as they were. |
| `Widget.Scheduler.Destroy` | src/prayertime-widget.js:302-306 | Sets `destroyed`, leaves no timeout pending, and destroys the current instance: it stops ticking and its container is emptied. With no current instance the target is left as it was. `timer`, the timeout ids and the replaced instances are unchanged. |
| `Widget.Scheduler.BootstrapSettlesRechecked` | src/prayertime-widget.js:289-299 | The bootstrap with a `destroyed` check after its await. After `destroy` it creates nothing, arms nothing and leaves the target as it was. When live, it does what `BootstrapSettles` does: the same instance and display, the same target content, and the daily refresh armed at `MsUntilNextRefresh`. Either way no fetch is in flight afterwards. |
| `Widget.Scheduler.RefreshSettlesRechecked` | src/prayertime-widget.js:274-285 | The refresh with a `destroyed` check after its await. After `destroy` it leaves the instance and the target as they were, retires nothing and arms nothing. When live, it does what `RefreshSettles` does. On success: the new instance, its display and the target content, with the daily refresh armed. On failure: the old instance kept, the five-minute retry armed, and the target emptied or kept as in `RefreshSettles`. Either way no fetch is in flight afterwards. |
| `Widget.LiveInstanceAfterDestroy` | src/prayertime-widget.js:274-278 | As written: `destroy()` during the daily fetch, then the fetch succeeds. The result is a destroyed refresher holding a new, ticking instance. |
| `Widget.LiveInstanceAfterDestroyedBootstrap` | src/prayertime-widget.js:291-294 | As written: `destroy()` during the initial fetch, then it succeeds. The result is a ticking instance after `destroy`. |
| `Widget.RetryArmedAfterDestroy` | src/prayertime-widget.js:279-283 | As written: a refresh failure after `destroy()` still arms the retry timeout. |
| `Widget.QuietWhenRechecked` | src/prayertime-widget.js:272-294 | With the re-checks, the same two event orders leave nothing ticking and nothing pending. |
| `Aladhan.PadWidth` | src/aladhan-provider.js:18 | Below 100, `pad` gives exactly two digits, which read back as the number. From 10 on, it is the plain decimal text. |
| `Aladhan.FormatDDMMYYYYRoundTrip` | src/aladhan-provider.js:19-22 | For a valid date the text is `DD-MM-YYYY`, with dashes at positions 2 and 5. It reads back as the given date (or today), with the month being the 0-based month plus one. |
| `Aladhan.FormatIsJoin` | src/aladhan-provider.js:21 | The date text is the two-digit day, the two-digit month and the year, joined by `-`. |
| `Aladhan.ResolveMethod` | src/aladhan-provider.js:24-29 | Null gives undefined. A number is returned unchanged. A string resolves exactly when its lower-case form is `"karachi"`, and then to 2. |
| `Aladhan.ResolveMethodAsWritten` | src/aladhan-provider.js:27-28 | As written, a lookup may also hit a name inherited from `Object.prototype`; only a string argument whose lower-case form is that name does so. |
| `Aladhan.ConstructorResolves` | src/aladhan-provider.js:28 | As written, `"Constructor"` resolves to the inherited `constructor` instead of undefined; the corrected lookup gives undefined. |
| `Aladhan.ResolveMethodAgrees` | src/aladhan-provider.js:24-29 | The corrected and the written lookup agree wherever the written one yields a number or undefined. |
| `Aladhan.ToQuery` | src/aladhan-provider.js:31-35 | The loop builds the `key=value` pieces of `QueryParts`, joined by `&`. |
| `Aladhan.QueryPartsDefined` | src/aladhan-provider.js:33 | There is one piece per entry whose value is not null/undefined, in enumeration order, made of the encoded key and the encoded value. |
| `Aladhan.QueryRoundTrip` | src/aladhan-provider.js:31-35 | Take an encoder that never emits `&` or `=`, and its inverse, and at least one defined entry. The query string then parses back into exactly the defined entries, in order. |
| `Aladhan.DefinedKeys` | src/aladhan-provider.js:33 | A key is sent exactly when some entry with that key has a defined value. |
| `Aladhan.CoordsKeys` | src/aladhan-provider.js:53-60 | The coordinates request sends only latitude, longitude, method, school and date. The date is always sent. Latitude, longitude, method and school are sent exactly when defined; an unresolved method is dropped. City, country and state are never sent. |
| `Aladhan.CityKeys` | src/aladhan-provider.js:72-80 | The city request sends only city, country, state, method, school and date, at most six keys. The date is always sent. City, country, state, method and school are sent exactly when defined. |
| `Aladhan.CoordsUrl` | src/aladhan-provider.js:60 | The URL is the `timings` endpoint followed by the query string of the coordinates params. |
| `Aladhan.CityUrl` | src/aladhan-provider.js:80 | The URL is the `timingsByCity` endpoint followed by the query string of the city params. |
| `Aladhan.ExtractTimes` | src/aladhan-provider.js:37-47 | It throws `Invalid Aladhan response` exactly when `json`, `json.data` or `json.data.timings` is falsy. Otherwise the result has exactly the five prayers, each copied unchanged (undefined when absent). |
| `Aladhan.TimesFromResponse` | src/aladhan-provider.js:61-65 | A response that is not ok fails with its status. An ok response with a null body fails when its `code` is read. A body whose `code` is not the number 200 fails with its `status`, or with its `code` when the status is falsy. A response is accepted exactly when `res.ok`, `code === 200` and the timings are present. Once ok with code 200, the result is `extractTimes` of the body. |
| `Aladhan.StrictCode` | src/aladhan-provider.js:64 | A `code` of the string `"200"` is rejected with the service error: the comparison is strict. |

## Left out

- DOM work is not modelled: `el`, `render`'s table, `injectStyles`, `resolveTarget`, `resolveTheme` and `window.matchMedia`.
  - A container is a `Container` object holding what it shows.
  - `init` takes the element its target resolves to, or null.
  - `Widget.Scheduler` resolves its target once, when `autoDaily` is called; the code resolves `opts.target` again at each `init`, which differs only if the document changes in between.
  - `Widget.AutoDaily` takes only whether the options, a target option and `getTimes` are given (truthy), and the element the target resolves to.
- `Widget.Init` does not model a `render` that throws during `init`. Because of this, `RefreshSettles` and `BootstrapSettles` treat only `TargetNotFound` and `TimesRequired` as `init` failures.
- `merge`, `DEFAULTS` and the options other than target, times, congregation times and the refresh offset are not modelled, because they only copy configuration.
- `Date`, the local time zone, DST and `toDateString` are not modelled.
  - The milliseconds to the next midnight are an input.
  - The hour and minute of "now" are inputs.
  - `formatDDMMYYYY` takes the date's fields and, for a missing date, today's.
  - The `new Date(d)` parsing of a non-`Date` value is not modelled.
- `fetch`, `res.json()`, `Promise.all`, `fetchJamaatIfAny` and `console` are I/O and are not modelled. A fetch outcome is an event input, and a response is a `Response` value.
- `encodeURIComponent`, and its inverse, are function parameters; only "emits no `&` or `=`" is assumed of them.
- `Aladhan.TimesFromResponse`: the text of the service error (`json.status || json.code` turned into a string) is not built; the error carries the JSON value instead.
- Values of other types are not modelled; times are strings, and truthy means non-empty.
  - `String(t)` on a non-string is not modelled.
  - `to24h` on numbers is not modelled.
- JavaScript numbers are `NaN` or an integer. Fractions, infinities and the 2^53 limit are not modelled, and neither is the exponent form of very large numbers in `'' + n`.
- `toLowerCase` is modelled on ASCII letters only.
- Timers run to completion; concurrency between callbacks is only the interleaving of events.
- src/adhanjs-provider.js and src/index.d.ts are not part of this model. The first only wraps a library; the second only declares types.
- A secondary-only refresh interval does not appear in the code and is not modelled.
- The five-minute retry runs `scheduleNext`, as the code does: it arms the next daily timeout and does not fetch again. The model does not shorten this to an immediate re-fetch.
- `Aladhan.CoordsUrl` and `Aladhan.CityUrl` use the corrected `ResolveMethod`. For the method names `"constructor"` and `"__proto__"` (in any letter case) they send no `method=` param, where the code as written sends the text of the inherited prototype value.
- `Aladhan.QueryRoundTrip` needs at least one defined entry. With none, the query string is empty, and splitting the empty string on `&` gives one empty piece, not zero pieces.
- `Prayers.CountdownToNext` assumes every readable prayer time is a minute of the day. `to24h` passes an out-of-range hour such as `30:00` through, and then the countdown can exceed a day.
- `Prayers.CountdownToNext` states the total is in `(0, 1440]`, not `[0, 1440)`. With every prayer at now or earlier and Fajr equal to now, the countdown is exactly 24 hours, and the model follows the code.

## Findings

| source | as written | input that shows it | evidently intended | confidence | as-written member | corrected member |
|---|---|---|---|---|---|---|
| src/prayertime-widget.js:274-278 | After `await Promise.all(...)` the daily refresh does not check `destroyed` before `init`. | `destroy()` while the daily fetch is in flight, then the fetch succeeds with times. | A destroyed refresher creates no new instance; the checks at lines 269 and 272 show the intent. | not executed | `Widget.LiveInstanceAfterDestroy` | `Widget.Scheduler.RefreshSettlesRechecked` |
| src/prayertime-widget.js:289-294 | `bootstrap` never checks `destroyed`. | `destroy()` while the initial fetch is in flight, then it succeeds with times. | No instance is created after `destroy`. | not executed | `Widget.LiveInstanceAfterDestroyedBootstrap` | `Widget.Scheduler.BootstrapSettlesRechecked` |
| src/aladhan-provider.js:28 | `METHOD_MAP[key] != null` also holds for names inherited from `Object.prototype`. | `resolveMethod("Constructor")` returns the `Object` function instead of undefined. | Only names listed in the map resolve. | not executed | `Aladhan.ConstructorResolves` | `Aladhan.ResolveMethod` |

The request params (`CoordsParams`, `CityParams`) use the corrected `ResolveMethod`.

/** The widget instances and the daily refresher of src/prayertime-widget.js:
    `init` renders into a container and keeps a one-minute interval that its
    `destroy` clears, and `autoDaily` keeps one instance up to date with a
    timer armed for shortly after midnight. Timers and fetches are events:
    each method below is one callback or one settled promise. */
module Widget {
  import opened JsBuiltins
  import opened Prayers

  /** What a rendered widget shows, as far as this model follows it: the
      normalized prayer and congregation times. */
  datatype Display = Display(times: map<Prayer, string>, jamaat: Option<map<Prayer, string>>)

  /** A DOM element the widget renders into; `content` is None when empty. */
  class Container {
    var content: Option<Display>

    constructor ()
      ensures content == None
    {
      content := None;
    }
  }

  /** The object `init` returns, with the closure state it keeps: its
      container, its options and whether its interval is still set. */
  class Instance {
    const container: Container
    const display: Display
    var ticking: bool

    /** `render(container, opt)` followed by `setInterval`. */
    constructor (c: Container, d: Display)
      modifies c
      ensures container == c && display == d && ticking
      ensures c.content == Some(d)
    {
      container := c;
      display := d;
      ticking := true;
      new;
      c.content := Some(d);
    }

    /** The interval callback: render again; when rendering throws, the
        interval is cleared. */
    method Tick(renders: bool)
      requires ticking
      modifies this, container
      ensures ticking == renders
      ensures container.content == if renders then Some(display) else old(container.content)
    {
      if renders {
        container.content := Some(display);
      } else {
        ticking := false;
      }
    }

    /** `destroy()`: clear the interval and empty the container. */
    method Destroy()
      modifies this, container
      ensures !ticking && container.content == None
    {
      ticking := false;
      container.content := None;
    }
  }

  datatype InitError = TargetNotFound | TimesRequired

  /** What `init` shows for the given times and congregation times. */
  function Shown(times: map<string, string>, jamaat: Option<map<string, string>>): Display {
    Display(Normalized(times, Order), if jamaat.Some? then Some(Normalized(jamaat.value, Order)) else None)
  }

  /** `init(options)`, with `target` the element the target option resolves
      to (null when there is none). The target is checked before the times;
      missing times are an error, missing congregation times are not. */
  method Init(target: Container?, times: Option<map<string, string>>, jamaat: Option<map<string, string>>)
    returns (r: Result<Instance, InitError>)
    modifies target
    ensures target == null ==> r == Err(TargetNotFound)
    ensures target != null && times.None? ==> r == Err(TimesRequired) && unchanged(target)
    ensures target != null && times.Some? ==>
              r.Ok? && fresh(r.value) && r.value.container == target && r.value.ticking
              && r.value.display == Shown(times.value, jamaat)
              && target.content == Some(r.value.display)
  {
    if target == null {
      return Err(TargetNotFound);
    }
    var t := NormalizeTimes(times);
    if t.None? {
      return Err(TimesRequired);
    }
    var j := NormalizeTimes(jamaat);
    var w := new Instance(target, Display(t.value, j));
    return Ok(w);
  }

  // ---------------------------------------------------------------------
  // autoDaily

  /** `msUntilNextRefresh(offsetMinutes)`, with the milliseconds from now to
      the next local midnight given: the offset is added only when positive. */
  function MsUntilNextRefresh(msToMidnight: int, offsetMinutes: int): (ms: int)
    ensures offsetMinutes > 0 ==> ms == msToMidnight + offsetMinutes * 60000
    ensures offsetMinutes <= 0 ==> ms == msToMidnight
  {
    if offsetMinutes > 0 then msToMidnight + offsetMinutes * 60 * 1000 else msToMidnight
  }

  /** A positive offset only ever delays the refresh past midnight. */
  lemma RefreshAfterMidnight(msToMidnight: int, offsetMinutes: int)
    ensures MsUntilNextRefresh(msToMidnight, offsetMinutes) >= msToMidnight
    ensures MsUntilNextRefresh(msToMidnight, offsetMinutes) == msToMidnight <==> offsetMinutes <= 0
  {
  }

  /** The `target` option: absent (falsy), or given and resolving to an
      element or to nothing. */
  datatype TargetOption = NoTarget | TargetGiven(element: Container?)

  const OptionsErrorMessage := "PrayerTimeWidget.autoDaily: target and getTimes are required"

  /** `refreshOffsetMinutes == null ? 1 : refreshOffsetMinutes`. */
  function RefreshOffset(option: Option<int>): (offset: int)
    ensures option.None? ==> offset == 1
    ensures option.Some? ==> offset == option.value
  {
    if option.None? then 1 else option.value
  }

  /** What a pending timeout will run: the daily refresh, or the five-minute
      retry, which calls `scheduleNext` (and does not fetch). */
  datatype Action = Refresh | Reschedule

  datatype Timeout = Timeout(id: nat, delay: int, action: Action)

  /** How `Promise.all([getTimes(), fetchJamaatIfAny()])` settles. */
  datatype FetchResult =
    | Fetched(times: Option<map<string, string>>, jamaat: Option<map<string, string>>)
    | FetchFailed

  /** The fetch gave times and the target resolves, so `init` succeeds. */
  predicate Renders(result: FetchResult, target: Container?) {
    result.Fetched? && result.times.Some? && target != null
  }

  const RetryDelay: int := 5 * 60 * 1000

  /** `clearTimeout(id)` on a list of pending timeouts: the one `id` names
      goes, every other stays. */
  function Cleared(pending: seq<Timeout>, id: Option<nat>): (r: seq<Timeout>)
    ensures |r| <= |pending|
    ensures forall k :: 0 <= k < |r| ==> r[k] in pending && Some(r[k].id) != id
    ensures forall x :: x in pending && Some(x.id) != id ==> x in r
  {
    if pending == [] then []
    else
      var rest := Cleared(pending[1..], id);
      if Some(pending[0].id) == id then rest else [pending[0]] + rest
  }

  /** The closure of one `autoDaily` call: `destroyed`, `timer` and
      `instance`, together with the pending timeouts and the fetches in flight
      (the initial one of `bootstrap`, or one started by the daily timer). */
  class Scheduler {
    const target: Container?
    const offset: int
    var destroyed: bool
    var timer: Option<nat>
    var instance: Instance?
    var pending: seq<Timeout>
    var nextId: nat
    var bootstrapping: bool
    var refreshing: bool
    /** The instances the refresher has replaced. */
    ghost var retired: set<Instance>

    /** How many things are under way: fetches in flight and timeouts pending. */
    function Busy(): nat
      reads this
    {
      (if bootstrapping then 1 else 0) + (if refreshing then 1 else 0) + |pending|
    }

    /** The structural part of the invariant: at most one timeout is pending
        and it is the one `timer` names; after `destroy` no daily refresh is
        pending; the current instance renders into the target; replaced
        instances no longer tick. */
    ghost predicate Frame()
      reads this, retired
    {
      |pending| <= 1
      && (pending != [] ==> timer == Some(pending[0].id) && pending[0].id < nextId)
      && (destroyed ==> forall k :: 0 <= k < |pending| ==> pending[k].action == Reschedule)
      && (bootstrapping ==> instance == null)
      && (instance != null ==> instance.container == target)
      && (forall w :: w in retired ==> !w.ticking)
    }

    /** The scheduler's invariant: the frame, and exactly one thing under way
        while it is alive (at most one after `destroy`). */
    ghost predicate Valid()
      reads this, retired
    {
      Frame() && Busy() <= 1 && (!destroyed ==> Busy() == 1)
    }

    /** `autoDaily(opts)` once its arguments are checked: nothing is armed
        yet and the bootstrap fetch is in flight. */
    constructor (target: Container?, refreshOffsetMinutes: Option<int>)
      ensures Valid()
      ensures this.target == target && offset == RefreshOffset(refreshOffsetMinutes)
      ensures !destroyed && timer.None? && instance == null && pending == []
      ensures bootstrapping && !refreshing
    {
      this.target := target;
      offset := RefreshOffset(refreshOffsetMinutes);
      destroyed := false;
      timer := None;
      instance := null;
      pending := [];
      nextId := 0;
      bootstrapping := true;
      refreshing := false;
      retired := {};
    }

    /** `clearTimeout(timer); timer = setTimeout(action, delay)`. */
    method Arm(delay: int, action: Action)
      requires Frame() && Busy() == 0
      requires !destroyed || action == Reschedule
      modifies this
      ensures pending == [Timeout(old(nextId), delay, action)] && timer == Some(old(nextId))
      ensures nextId == old(nextId) + 1
      ensures destroyed == old(destroyed) && instance == old(instance) && retired == old(retired)
      ensures bootstrapping == old(bootstrapping) && refreshing == old(refreshing)
      ensures Valid()
    {
      pending := Cleared(pending, timer);
      pending := pending + [Timeout(nextId, delay, action)];
      timer := Some(nextId);
      nextId := nextId + 1;
    }

    /** `scheduleNext()`: nothing once destroyed; otherwise the daily refresh
        is armed for midnight plus the offset. */
    method ScheduleNext(msToMidnight: int)
      requires Frame() && Busy() == 0
      modifies this
      ensures Valid()
      ensures old(destroyed) ==> unchanged(this)
      ensures !old(destroyed) ==>
                pending == [Timeout(old(nextId), MsUntilNextRefresh(msToMidnight, offset), Refresh)]
                && timer == Some(old(nextId))
      ensures destroyed == old(destroyed) && instance == old(instance) && retired == old(retired)
      ensures !bootstrapping && !refreshing
    {
      if destroyed {
        return;
      }
      Arm(MsUntilNextRefresh(msToMidnight, offset), Refresh);
    }

    /** The end of `bootstrap`: a successful fetch initializes the first
        instance (an `init` error is caught like a failed fetch), and
        `scheduleNext` runs either way. `destroyed` is not consulted. */
    method BootstrapSettles(result: FetchResult, msToMidnight: int)
      requires Valid() && bootstrapping
      modifies this, target
      ensures Valid()
      ensures !bootstrapping && !refreshing && destroyed == old(destroyed) && retired == old(retired)
      ensures !Renders(result, target) ==> instance == null
      ensures !Renders(result, target) && target != null ==> target.content == old(target.content)
      ensures Renders(result, target) ==>
                instance != null && fresh(instance) && instance.ticking
                && instance.display == Shown(result.times.value, result.jamaat)
                && target.content == Some(instance.display)
      ensures !destroyed ==> |pending| == 1 && pending[0].action == Refresh
                             && pending[0].delay == MsUntilNextRefresh(msToMidnight, offset)
      ensures destroyed ==> pending == []
    {
      bootstrapping := false;
      if result.Fetched? {
        var r := Init(target, result.times, result.jamaat);
        if r.Ok? {
          instance := r.value;
        }
      }
      ScheduleNext(msToMidnight);
    }

    /** A timeout goes off. The daily refresh returns at once when destroyed,
        and otherwise starts its fetch; the retry runs `scheduleNext`. */
    method TimerFires(msToMidnight: int)
      requires Valid() && pending != []
      modifies this
      ensures Valid()
      ensures old(pending[0].action) == Refresh ==>
                pending == [] && refreshing && instance == old(instance)
      ensures old(pending[0].action) == Reschedule && !destroyed ==>
                pending == [Timeout(old(nextId), MsUntilNextRefresh(msToMidnight, offset), Refresh)]
      ensures old(pending[0].action) == Reschedule && destroyed ==> pending == []
      ensures old(pending[0].action) == Reschedule ==> !refreshing
      ensures !bootstrapping
      ensures destroyed == old(destroyed) && instance == old(instance) && retired == old(retired)
    {
      var fired := pending[0];
      pending := pending[1..];
      if fired.action == Refresh {
        if destroyed {
          return;
        }
        refreshing := true;
      } else {
        ScheduleNext(msToMidnight);
      }
    }

    /** The end of the daily refresh. On success the old instance is
        destroyed before `init` builds the new one, and `scheduleNext` arms
        the next day; on failure (of the fetch or of `init`) a five-minute
        retry of `scheduleNext` is armed. `destroyed` is not consulted. */
    method RefreshSettles(result: FetchResult, msToMidnight: int)
      requires Valid() && refreshing
      modifies this, target, instance
      ensures Valid()
      ensures !refreshing && !bootstrapping && destroyed == old(destroyed)
      ensures retired == old(retired) + (if result.Fetched? && old(instance) != null then {old(instance)} else {})
      ensures result.Fetched? && old(instance) != null ==> !old(instance).ticking
      ensures Renders(result, target) ==>
                instance != null && fresh(instance) && instance.ticking
                && instance.display == Shown(result.times.value, result.jamaat)
                && target.content == Some(instance.display)
                && (!destroyed ==> |pending| == 1 && pending[0].action == Refresh
                                   && pending[0].delay == MsUntilNextRefresh(msToMidnight, offset))
      ensures destroyed && Renders(result, target) ==> pending == []
      ensures !Renders(result, target) ==>
                instance == old(instance) && pending == [Timeout(old(nextId), RetryDelay, Reschedule)]
      ensures result.Fetched? && !Renders(result, target) && old(instance) != null ==> target.content == None
      ensures result.Fetched? && !Renders(result, target) && old(instance) == null && target != null ==>
                target.content == old(target.content)
      ensures result.FetchFailed? && target != null ==> target.content == old(target.content)
      ensures result.FetchFailed? && old(instance) != null ==> instance.ticking == old(instance.ticking)
    {
      refreshing := false;
      if result.Fetched? {
        if instance != null {
          instance.Destroy();
          retired := retired + {instance};
        }
        var r := Init(target, result.times, result.jamaat);
        if r.Ok? {
          instance := r.value;
          ScheduleNext(msToMidnight);
          return;
        }
      }
      Arm(RetryDelay, Reschedule);
    }

    /** `destroy()` of the refresher: note it, clear the pending timeout and
        destroy the current instance. */
    method Destroy()
      requires Valid()
      modifies this, instance, target
      ensures Valid()
      ensures destroyed && pending == [] && instance == old(instance)
      ensures instance != null ==> !instance.ticking && instance.container.content == None
      ensures instance == null && target != null ==> target.content == old(target.content)
      ensures retired == old(retired) && timer == old(timer) && nextId == old(nextId)
      ensures bootstrapping == old(bootstrapping) && refreshing == old(refreshing)
    {
      destroyed := true;
      pending := Cleared(pending, timer);
      assert pending == [];
      if instance != null {
        instance.Destroy();
      }
    }

    /** Nothing is left running for a destroyed refresher: no timeout is
        pending and the current instance does not tick. */
    ghost predicate Quiet()
      reads this, instance
    {
      destroyed ==> pending == [] && (instance != null ==> !instance.ticking)
    }

    /** `bootstrap` with `if (destroyed) return;` after its await. */
    method BootstrapSettlesRechecked(result: FetchResult, msToMidnight: int)
      requires Valid() && bootstrapping
      modifies this, target
      ensures Valid()
      ensures !bootstrapping && !refreshing && destroyed == old(destroyed) && retired == old(retired)
      ensures old(destroyed) ==> instance == null && pending == []
      ensures old(destroyed) ==> Quiet()
      ensures old(destroyed) && target != null ==> target.content == old(target.content)
      ensures !old(destroyed) && !Renders(result, target) ==> instance == null
      ensures !old(destroyed) && !Renders(result, target) && target != null ==>
                target.content == old(target.content)
      ensures !old(destroyed) && Renders(result, target) ==>
                instance != null && fresh(instance) && instance.ticking
                && instance.display == Shown(result.times.value, result.jamaat)
                && target.content == Some(instance.display)
      ensures !destroyed ==> |pending| == 1 && pending[0].action == Refresh
                             && pending[0].delay == MsUntilNextRefresh(msToMidnight, offset)
    {
      if destroyed {
        bootstrapping := false;
        return;
      }
      BootstrapSettles(result, msToMidnight);
    }

    /** The daily refresh with `if (destroyed) return;` after its await. */
    method RefreshSettlesRechecked(result: FetchResult, msToMidnight: int)
      requires Valid() && refreshing
      modifies this, target, instance
      ensures Valid()
      ensures !refreshing && !bootstrapping && destroyed == old(destroyed)
      ensures old(destroyed) ==> instance == old(instance) && pending == []
      ensures old(destroyed) && old(instance) != null ==> unchanged(old(instance))
      ensures old(destroyed) && old(Quiet()) ==> Quiet()
      ensures old(destroyed) && target != null ==> target.content == old(target.content)
      ensures retired == old(retired) + (if !old(destroyed) && result.Fetched? && old(instance) != null
                                         then {old(instance)} else {})
      ensures !old(destroyed) && result.Fetched? && old(instance) != null ==> !old(instance).ticking
      ensures !old(destroyed) && Renders(result, target) ==>
                instance != null && fresh(instance) && instance.ticking
                && instance.display == Shown(result.times.value, result.jamaat)
                && target.content == Some(instance.display)
                && |pending| == 1 && pending[0].action == Refresh
                && pending[0].delay == MsUntilNextRefresh(msToMidnight, offset)
      ensures !old(destroyed) && !Renders(result, target) ==>
                instance == old(instance) && pending == [Timeout(old(nextId), RetryDelay, Reschedule)]
      ensures !old(destroyed) && result.Fetched? && !Renders(result, target) && old(instance) != null ==>
                target.content == None
      ensures !old(destroyed) && result.Fetched? && !Renders(result, target) && old(instance) == null && target != null ==>
                target.content == old(target.content)
      ensures !old(destroyed) && result.FetchFailed? && target != null ==> target.content == old(target.content)
      ensures !old(destroyed) && result.FetchFailed? && old(instance) != null ==>
                instance.ticking == old(instance.ticking)
    {
      if destroyed {
        refreshing := false;
        return;
      }
      RefreshSettles(result, msToMidnight);
    }
  }

  /** `autoDaily(opts)`: without options, a target option or `getTimes` it
      throws its one message and starts nothing; otherwise it returns a fresh
      refresher, on the element the target resolves to, whose bootstrap fetch
      is in flight. */
  method AutoDaily(given: bool, target: TargetOption, hasGetTimes: bool, refreshOffsetMinutes: Option<int>)
    returns (r: Result<Scheduler, string>)
    ensures r.Err? <==> !given || target.NoTarget? || !hasGetTimes
    ensures r.Err? ==> r.error == OptionsErrorMessage
    ensures r.Ok? ==>
              fresh(r.value) && r.value.Valid() && r.value.target == target.element
              && r.value.offset == (if refreshOffsetMinutes.None? then 1 else refreshOffsetMinutes.value)
              && !r.value.destroyed && r.value.timer.None? && r.value.instance == null
              && r.value.pending == [] && r.value.bootstrapping && !r.value.refreshing
  {
    if !given || target.NoTarget? || !hasGetTimes {
      return Err(OptionsErrorMessage);
    }
    var s := new Scheduler(target.element, refreshOffsetMinutes);
    return Ok(s);
  }

  /** The first daily refresh a new refresher arms, whatever its initial
      fetch gives: one minute past midnight when no offset is given, the given
      offset past midnight when it is positive, and midnight itself otherwise. */
  method FirstDailyRefresh(result: FetchResult, msToMidnight: int, refreshOffsetMinutes: Option<int>)
    returns (delay: int)
    ensures refreshOffsetMinutes.None? ==> delay == msToMidnight + 60000
    ensures refreshOffsetMinutes.Some? && refreshOffsetMinutes.value > 0 ==>
              delay == msToMidnight + refreshOffsetMinutes.value * 60000
    ensures refreshOffsetMinutes.Some? && refreshOffsetMinutes.value <= 0 ==> delay == msToMidnight
  {
    var c := new Container();
    var r := AutoDaily(true, TargetGiven(c), true, refreshOffsetMinutes);
    var s := r.value;
    s.BootstrapSettles(result, msToMidnight);
    delay := s.pending[0].delay;
  }

  /** As written: `destroy()` while the daily refresh is fetching, then the
      fetch succeeds. The continuation builds a new, ticking instance for the
      destroyed refresher, which no timer or callback destroys. */
  method LiveInstanceAfterDestroy() returns (live: bool)
    ensures live
  {
    var c := new Container();
    var s := new Scheduler(c, None);
    s.BootstrapSettles(FetchFailed, 1000);
    s.TimerFires(1000);
    s.Destroy();
    s.RefreshSettles(Fetched(Some(map[]), None), 1000);
    live := s.destroyed && s.instance != null && s.instance.ticking;
  }

  /** As written: `destroy()` while the initial fetch is in flight, then it
      succeeds: `bootstrap` creates a ticking instance after `destroy`. */
  method LiveInstanceAfterDestroyedBootstrap() returns (live: bool)
    ensures live
  {
    var c := new Container();
    var s := new Scheduler(c, None);
    s.Destroy();
    s.BootstrapSettles(Fetched(Some(map[]), None), 1000);
    live := s.destroyed && s.instance != null && s.instance.ticking;
  }

  /** As written: a failure after `destroy()` still arms the five-minute
      retry (which then does nothing, as `scheduleNext` checks `destroyed`). */
  method RetryArmedAfterDestroy() returns (armed: bool)
    ensures armed
  {
    var c := new Container();
    var s := new Scheduler(c, None);
    s.BootstrapSettles(FetchFailed, 1000);
    s.TimerFires(1000);
    s.Destroy();
    s.RefreshSettles(FetchFailed, 1000);
    armed := s.destroyed && s.pending != [];
  }

  /** With the re-check, the same two event orders leave nothing running. */
  method QuietWhenRechecked() returns (live: bool)
    ensures !live
  {
    var c := new Container();
    var s := new Scheduler(c, None);
    s.BootstrapSettlesRechecked(Fetched(Some(map[]), None), 1000);
    s.TimerFires(1000);
    s.Destroy();
    s.RefreshSettlesRechecked(Fetched(Some(map[]), None), 1000);
    var t := new Scheduler(c, None);
    t.Destroy();
    t.BootstrapSettlesRechecked(Fetched(Some(map[]), None), 1000);
    live := s.instance == null || s.instance.ticking || s.pending != []
            || t.instance != null || t.pending != [];
  }
}

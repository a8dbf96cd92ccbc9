/** `SecondaryModelCheckpoint`: after every `period`-th epoch, either save a
    secondary model unconditionally, or (with `save_best_only`) save it only
    when the monitored metric strictly improves on the best value seen so
    far. Saving is recorded as an abstract save action. */
module Checkpoint {
  import opened Values
  import opened Text
  import opened PyFormat

  // ---------------------------------------------------------------------
  // Mode resolution (the constructor)
  // ---------------------------------------------------------------------

  /** `np.less` (minimize) or `np.greater` (maximize). */
  datatype Direction = Minimize | Maximize

  const KnownModes: set<string> := {"auto", "min", "max"}

  /** The `auto` heuristic: names containing "acc" or starting with
      "fmeasure" are maximized, everything else is minimized. */
  function AutoDirection(monitor: string): Direction
  {
    if Contains(monitor, "acc") || StartsWith(monitor, "fmeasure") then Maximize else Minimize
  }

  /** The heuristic stated without the search: "acc" occurs at some offset. */
  lemma AutoDirectionIff(monitor: string)
    ensures AutoDirection(monitor) == Maximize <==>
            (exists i :: 0 <= i <= |monitor| && StartsWith(monitor[i..], "acc")) ||
            StartsWith(monitor, "fmeasure")
  {
    ContainsIff(monitor, "acc");
  }

  /** `val_acc` is maximized. */
  lemma AccuracyIsMaximized()
    ensures AutoDirection("val_acc") == Maximize
  {
    assert StartsWith("val_acc"[4..], "acc");
    AutoDirectionIff("val_acc");
  }

  /** `fmeasure_foo` is maximized. */
  lemma FmeasureIsMaximized()
    ensures AutoDirection("fmeasure_foo") == Maximize
  {
    assert StartsWith("fmeasure_foo", "fmeasure");
  }

  /** `val_loss` is minimized. */
  lemma LossIsMinimized()
    ensures AutoDirection("val_loss") == Minimize
  {
    var loss := "val_loss";
    AutoDirectionIff(loss);
    assert !StartsWith(loss, "fmeasure") by { assert loss[0] != "fmeasure"[0]; }
    forall i | 0 <= i <= |loss| ensures !StartsWith(loss[i..], "acc") {
      if i + 3 <= |loss| {
        assert loss[i..][..3] == [loss[i], loss[i + 1], loss[i + 2]];
        assert loss[i] != 'a' || loss[i + 1] != 'c';
      }
    }
  }

  /** `best` starts at the worst possible value for the direction. */
  function InitialBest(d: Direction): Ext
  {
    if d == Minimize then PosInf else NegInf
  }

  datatype Settings = Settings(direction: Direction, best: Ext, warned: bool)

  /** What the constructor derives from `mode` and `monitor`: a direction,
      the initial best, and whether a RuntimeWarning names an unknown mode. */
  function ResolveMode(mode: string, monitor: string): Settings
  {
    var d := if mode == "min" then Minimize else if mode == "max" then Maximize else AutoDirection(monitor);
    Settings(d, InitialBest(d), mode !in KnownModes)
  }

  /** `min` and `max` fix the direction and the starting infinity; `auto`
      defers to the name heuristic. */
  lemma ModeTable(monitor: string)
    ensures ResolveMode("min", monitor) == Settings(Minimize, PosInf, false)
    ensures ResolveMode("max", monitor) == Settings(Maximize, NegInf, false)
    ensures ResolveMode("auto", monitor) ==
            Settings(AutoDirection(monitor), InitialBest(AutoDirection(monitor)), false)
  {
  }

  /** An unknown mode warns and then behaves exactly as `auto`; it is never
      an error. */
  lemma UnknownModeIsAuto(mode: string, monitor: string)
    requires mode !in KnownModes
    ensures ResolveMode(mode, monitor) == ResolveMode("auto", monitor).(warned := true)
  {
  }

  // ---------------------------------------------------------------------
  // One epoch end
  // ---------------------------------------------------------------------

  /** `monitor_op(current, best)`: a strict improvement. */
  predicate Beats(d: Direction, current: real, best: Ext)
  {
    if d == Minimize then Less(Fin(current), best) else Less(best, Fin(current))
  }

  /** `a` is at least as good as `b` under `d`. */
  predicate NoWorse(d: Direction, a: Ext, b: Ext)
  {
    if d == Minimize then !Less(b, a) else !Less(a, b)
  }

  /** The two Keras calls: `save_weights(path)` or `save(path)`. */
  datatype Save = SaveWeights(path: string) | SaveModel(path: string)

  function SaveFor(weightsOnly: bool, path: string): Save
  {
    if weightsOnly then SaveWeights(path) else SaveModel(path)
  }

  /** How one call to `on_epoch_end` ends. */
  datatype Decision =
    | Skip                                              // not yet `period` epochs
    | Failed(error: FormatError)                        // building the path raised
    | Periodic(save: Save)                              // saved without comparing
    | MissingMetric                                     // warned: monitor not in logs
    | Improved(previous: Ext, current: real, save: Save) // saved the new best
    | NotImproved(best: Ext)                            // compared, kept the old best

  /** The save actions a decision performs. */
  function SavesOf(d: Decision): seq<Save>
  {
    if d.Periodic? || d.Improved? then [d.save] else []
  }

  /** The constructor arguments and what was derived from them. */
  datatype Config = Config(filepath: string, monitor: string, saveBestOnly: bool,
                           saveWeightsOnly: bool, period: int, direction: Direction,
                           render: Render)

  /** The fields `on_epoch_end` updates. */
  datatype State = State(since: int, best: Ext)

  /** The keyword arguments of `filepath.format(epoch=epoch + 1, **logs)`. */
  function PathEnv(epoch: nat, logs: Logs): (env: Env)
    ensures |env| == |logs| + 1 && env[0] == ("epoch", IntVal(epoch + 1))
    ensures forall i :: 0 <= i < |logs| ==> env[i + 1] == (logs[i].0, RealVal(logs[i].1))
  {
    if logs == [] then [("epoch", IntVal(epoch + 1))]
    else
      var rest := PathEnv(epoch, logs[1..]);
      [rest[0], (logs[0].0, RealVal(logs[0].1))] + rest[1..]
  }

  /** The path of the save, 1-based in the epoch. An `epoch` entry in the
      logs makes the call itself fail, before any formatting. */
  function FormatPath(template: string, epoch: nat, logs: Logs, render: Render): Result<string, FormatError>
  {
    if Lookup(logs, "epoch").Some? then Err(DuplicateKeyword)
    else Format(template, PathEnv(epoch, logs), render)
  }

  lemma EpochIsKeywordName()
    ensures KeywordName("epoch")
  {
    assert !('0' <= "epoch"[0] <= '9');
  }

  /** The path has the epoch number counted from 1 wherever the template
      says `{epoch}` (or `{epoch:02d}` and the like, rendered under that
      spec), after any well-formed text and before any other fields. */
  lemma PathEpochIsOneBased(pre: string, tail: string, post: string, epoch: nat, logs: Logs, render: Render)
    requires FieldTail(tail) && Lookup(logs, "epoch").None?
    requires Format(pre, PathEnv(epoch, logs), render).Ok?
    ensures var env := PathEnv(epoch, logs);
            FormatPath(pre + "{epoch" + tail + "}" + post, epoch, logs, render) ==
            Prepend(Format(pre, env, render).value + render(IntVal(epoch + 1), tail), Format(post, env, render))
    ensures NoBraces(pre) && NoBraces(post) ==>
            FormatPath(pre + "{epoch" + tail + "}" + post, epoch, logs, render) ==
            Ok(pre + render(IntVal(epoch + 1), tail) + post)
  {
    var env := PathEnv(epoch, logs);
    assert pre + "{epoch" + tail + "}" + post == pre + "{" + "epoch" + tail + "}" + post;
    EpochIsKeywordName();
    assert LookupArg(env, "epoch") == Some(IntVal(epoch + 1));
    FieldSubstituted(pre, "epoch", tail, post, env, render);
    if NoBraces(pre) && NoBraces(post) {
      LiteralUnchanged(pre, env, render);
      LiteralUnchanged(post, env, render);
    }
  }

  /** A template naming a key that is neither `epoch` nor in the logs is an
      error, even where the call would otherwise only warn: a KeyError
      naming it, wherever the field stands after well-formed text. */
  lemma PathMissingKeyFails(pre: string, name: string, tail: string, post: string,
                            epoch: nat, logs: Logs, render: Render)
    requires KeywordName(name) && FieldTail(tail)
    requires Format(pre, PathEnv(epoch, logs), render).Ok?
    requires name != "epoch" && Lookup(logs, name).None?
    ensures FormatPath(pre + "{" + name + tail + "}" + post, epoch, logs, render).Err?
    ensures Lookup(logs, "epoch").None? ==>
            FormatPath(pre + "{" + name + tail + "}" + post, epoch, logs, render) == Err(MissingKey(name))
  {
    var env := PathEnv(epoch, logs);
    FieldSubstituted(pre, name, tail, post, env, render);
    forall i | 0 <= i < |env| ensures env[i].0 != name {
      if i > 0 {
        assert env[i].0 == logs[i - 1].0;
      }
    }
  }

  /** `on_epoch_end(epoch, logs)` as a transition of the two mutable fields. */
  function Transition(c: Config, s: State, epoch: nat, logs: Option<Logs>): (Decision, State)
  {
    var l := OrEmpty(logs);
    var since := s.since + 1;
    if since < c.period then (Skip, State(since, s.best))
    else
      match FormatPath(c.filepath, epoch, l, c.render)
      case Err(e) => (Failed(e), State(0, s.best))
      case Ok(path) =>
        if !c.saveBestOnly then (Periodic(SaveFor(c.saveWeightsOnly, path)), State(0, s.best))
        else
          match Lookup(l, c.monitor)
          case None => (MissingMetric, State(0, s.best))
          case Some(v) =>
            if Beats(c.direction, v, s.best) then
              (Improved(s.best, v, SaveFor(c.saveWeightsOnly, path)), State(0, Fin(v)))
            else (NotImproved(s.best), State(0, s.best))
  }

  /** Before the counter reaches `period`, only the counter moves. */
  lemma NonTriggerChangesOnlyCounter(c: Config, s: State, epoch: nat, logs: Option<Logs>)
    requires s.since + 1 < c.period
    ensures Transition(c, s, epoch, logs) == (Skip, State(s.since + 1, s.best))
  {
  }

  /** On reaching `period` the counter restarts from zero and the call does
      something other than skip; the counter stays within `[0, period)`. */
  lemma TriggerResetsCounter(c: Config, s: State, epoch: nat, logs: Option<Logs>)
    requires 0 <= s.since && (c.period >= 1 ==> s.since < c.period)
    ensures var r := Transition(c, s, epoch, logs);
            0 <= r.1.since && (c.period >= 1 ==> r.1.since < c.period) &&
            (r.0.Skip? <==> s.since + 1 < c.period) &&
            (!r.0.Skip? ==> r.1.since == 0)
  {
  }

  /** Building the path comes first: a template error surfaces even when the
      monitored metric is missing. */
  lemma FormatErrorComesFirst(c: Config, s: State, epoch: nat, logs: Option<Logs>)
    requires s.since + 1 >= c.period
    requires FormatPath(c.filepath, epoch, OrEmpty(logs), c.render).Err?
    ensures Transition(c, s, epoch, logs) ==
            (Failed(FormatPath(c.filepath, epoch, OrEmpty(logs), c.render).error), State(0, s.best))
  {
  }

  /** Without `save_best_only`, every triggered epoch saves exactly once, in
      the requested form, and `best` stays put. */
  lemma PeriodicSaveOnce(c: Config, s: State, epoch: nat, logs: Option<Logs>)
    requires !c.saveBestOnly && s.since + 1 >= c.period
    requires FormatPath(c.filepath, epoch, OrEmpty(logs), c.render).Ok?
    ensures var path := FormatPath(c.filepath, epoch, OrEmpty(logs), c.render).value;
            var r := Transition(c, s, epoch, logs);
            SavesOf(r.0) == [if c.saveWeightsOnly then SaveWeights(path) else SaveModel(path)] &&
            r.1.best == s.best
  {
  }

  /** With `save_best_only` and no monitored value in the logs: a warning,
      no save, `best` unchanged. */
  lemma MissingMetricSavesNothing(c: Config, s: State, epoch: nat, logs: Option<Logs>)
    requires c.saveBestOnly && s.since + 1 >= c.period
    requires FormatPath(c.filepath, epoch, OrEmpty(logs), c.render).Ok?
    requires Lookup(OrEmpty(logs), c.monitor).None?
    ensures Transition(c, s, epoch, logs) == (MissingMetric, State(0, s.best))
    ensures SavesOf(Transition(c, s, epoch, logs).0) == []
  {
  }

  /** With `save_best_only` and a monitored value: a save happens, and `best`
      becomes that value, exactly when it strictly beats `best`; the save is
      `save_weights` or `save`, as configured, to the formatted path. An
      equal value is not an improvement. */
  lemma SaveIffStrictImprovement(c: Config, s: State, epoch: nat, logs: Option<Logs>)
    requires c.saveBestOnly && s.since + 1 >= c.period
    requires FormatPath(c.filepath, epoch, OrEmpty(logs), c.render).Ok?
    requires Lookup(OrEmpty(logs), c.monitor).Some?
    ensures var v := Lookup(OrEmpty(logs), c.monitor).value;
            var r := Transition(c, s, epoch, logs);
            (|SavesOf(r.0)| == 1 <==> Beats(c.direction, v, s.best)) &&
            (r.0.Improved? ==>
               r.0.save == SaveFor(c.saveWeightsOnly, FormatPath(c.filepath, epoch, OrEmpty(logs), c.render).value) &&
               r.0.previous == s.best && r.0.current == v) &&
            (r.1.best == (if Beats(c.direction, v, s.best) then Fin(v) else s.best)) &&
            (s.best == Fin(v) ==> r.0 == NotImproved(s.best))
  {
  }

  /** `best` never gets worse, and only an improvement changes it. */
  lemma BestNeverRegresses(c: Config, s: State, epoch: nat, logs: Option<Logs>)
    ensures var r := Transition(c, s, epoch, logs);
            NoWorse(c.direction, r.1.best, s.best) && (r.1.best != s.best ==> r.0.Improved?)
  {
  }

  // ---------------------------------------------------------------------
  // Many epoch ends
  // ---------------------------------------------------------------------

  function Run(c: Config, s: State, events: seq<Event>): State
    decreases |events|
  {
    if events == [] then s
    else Run(c, Transition(c, s, events[0].0, events[0].1).1, events[1..])
  }

  function Trace(c: Config, s: State, events: seq<Event>): (ds: seq<Decision>)
    ensures |ds| == |events|
    decreases |events|
  {
    if events == [] then []
    else
      var r := Transition(c, s, events[0].0, events[0].1);
      [r.0] + Trace(c, r.1, events[1..])
  }

  /** Whether the call that follows `calls` earlier calls of a fresh
      checkpoint saves or compares: every `period`-th call does. */
  predicate Fires(period: int, calls: nat)
  {
    period <= 1 || (calls + 1) % period == 0
  }

  /** The counter of a fresh checkpoint after `calls` calls. */
  function CounterAfter(period: int, calls: nat): int
  {
    if period <= 1 then 0 else calls % period
  }

  /** The better of `b` and `v`, keeping `b` on a tie. */
  function Pick(d: Direction, b: Ext, v: real): Ext
  {
    if Beats(d, v, b) then Fin(v) else b
  }

  /** The best of `b` and the values `vs`, taken left to right. */
  function Extremum(d: Direction, b: Ext, vs: seq<real>): Ext
    decreases |vs|
  {
    if vs == [] then b else Extremum(d, Pick(d, b, vs[0]), vs[1..])
  }

  /** What one call adds to the values `best` has been compared with. */
  function Observed(c: Config, e: Event, calls: nat): seq<real>
  {
    var l := OrEmpty(e.1);
    if Fires(c.period, calls) && c.saveBestOnly && FormatPath(c.filepath, e.0, l, c.render).Ok?
       && Lookup(l, c.monitor).Some?
    then [Lookup(l, c.monitor).value]
    else []
  }

  /** The monitored values at the triggered epochs among `events`, which start
      after `calls` earlier calls. */
  function Seen(c: Config, events: seq<Event>, calls: nat): seq<real>
    decreases |events|
  {
    if events == [] then [] else Observed(c, events[0], calls) + Seen(c, events[1..], calls + 1)
  }

  /** `Extremum` is a running minimum under `Minimize` and a running
      maximum under `Maximize`: no worse than its start or any value, and
      equal to its start or one of the values. */
  lemma {:induction false} ExtremumIsBest(d: Direction, b: Ext, vs: seq<real>)
    ensures NoWorse(d, Extremum(d, b, vs), b)
    ensures forall i :: 0 <= i < |vs| ==> NoWorse(d, Extremum(d, b, vs), Fin(vs[i]))
    ensures Extremum(d, b, vs) == b || exists i :: 0 <= i < |vs| && Extremum(d, b, vs) == Fin(vs[i])
    decreases |vs|
  {
    if vs != [] {
      var p := Pick(d, b, vs[0]);
      ExtremumIsBest(d, p, vs[1..]);
      var r := Extremum(d, b, vs);
      assert r == Extremum(d, p, vs[1..]);
      LessIsStrictTotalOrder(r, p, b);
      LessIsStrictTotalOrder(b, p, r);
      LessIsStrictTotalOrder(r, p, Fin(vs[0]));
      LessIsStrictTotalOrder(Fin(vs[0]), p, r);
      forall i | 0 <= i < |vs| ensures NoWorse(d, r, Fin(vs[i])) {
        if i > 0 { assert vs[i] == vs[1..][i - 1]; }
      }
      if r != p {
        var i :| 0 <= i < |vs[1..]| && r == Fin(vs[1..][i]);
        assert r == Fin(vs[i + 1]);
      } else if p != b {
        assert r == Fin(vs[0]);
      }
    }
  }

  /** Starting from the initial infinity, the result is one of the values as
      soon as there is any. */
  lemma ExtremumFromInitial(d: Direction, vs: seq<real>)
    requires vs != []
    ensures exists i :: 0 <= i < |vs| && Extremum(d, InitialBest(d), vs) == Fin(vs[i])
  {
    ExtremumIsBest(d, Pick(d, InitialBest(d), vs[0]), vs[1..]);
    var r := Extremum(d, InitialBest(d), vs);
    if r == Fin(vs[0]) {
    } else {
      var i :| 0 <= i < |vs[1..]| && r == Fin(vs[1..][i]);
      assert r == Fin(vs[i + 1]);
    }
  }

  lemma ExtremumSnoc(d: Direction, b: Ext, vs: seq<real>, ws: seq<real>)
    ensures Extremum(d, b, vs + ws) == Extremum(d, Extremum(d, b, vs), ws)
    decreases |vs|
  {
    if vs != [] {
      assert (vs + ws)[1..] == vs[1..] + ws;
      ExtremumSnoc(d, Pick(d, b, vs[0]), vs[1..], ws);
    } else {
      assert vs + ws == ws;
    }
  }

  lemma SeenSnoc(c: Config, events: seq<Event>, e: Event, calls: nat)
    ensures Seen(c, events + [e], calls) == Seen(c, events, calls) + Observed(c, e, calls + |events|)
    decreases |events|
  {
    if events == [] {
      assert events + [e] == [e];
    } else {
      assert (events + [e])[1..] == events[1..] + [e];
      SeenSnoc(c, events[1..], e, calls + 1);
    }
  }

  lemma {:induction false} MulAtLeast(k: int, p: int)
    requires k >= 1 && p > 0
    ensures k * p >= p
    decreases k
  {
    if k > 1 {
      MulAtLeast(k - 1, p);
      assert k * p == (k - 1) * p + p;
    }
  }

  lemma ModUnique(x: int, p: int, q: int, r: int)
    requires p > 0 && 0 <= r < p && x == q * p + r
    ensures x % p == r
  {
    var q', r' := x / p, x % p;
    assert x == q' * p + r';
    assert (q - q') * p == r' - r;
    if q > q' {
      MulAtLeast(q - q', p);
    } else if q < q' {
      MulAtLeast(q' - q, p);
    }
  }

  lemma ModSucc(a: nat, p: int)
    requires p >= 2
    ensures (a + 1) % p == if a % p == p - 1 then 0 else a % p + 1
  {
    var q, r := a / p, a % p;
    assert a == q * p + r;
    if r == p - 1 {
      ModUnique(a + 1, p, q + 1, 0);
    } else {
      ModUnique(a + 1, p, q, r + 1);
    }
  }

  /** One call from a counter that has seen `calls` calls: it fires exactly
      when `Fires` says, moves the counter on by one call, and leaves as
      `best` the better of the old best and what it observed. */
  lemma StepFollowsCalls(c: Config, s: State, e: Event, calls: nat)
    requires s.since == CounterAfter(c.period, calls)
    ensures var r := Transition(c, s, e.0, e.1);
            r.1.since == CounterAfter(c.period, calls + 1) &&
            (r.0.Skip? <==> !Fires(c.period, calls)) &&
            r.1.best == Extremum(c.direction, s.best, Observed(c, e, calls))
  {
    if c.period >= 2 {
      ModSucc(calls, c.period);
    }
  }

  /** One call extends the history by one event and keeps the counter and
      `best` in step with it. */
  lemma StepKeepsRunningBest(c: Config, h: seq<Event>, s: State, e: Event)
    requires s.since == CounterAfter(c.period, |h|)
    requires s.best == Extremum(c.direction, InitialBest(c.direction), Seen(c, h, 0))
    ensures var r := Transition(c, s, e.0, e.1).1;
            r.since == CounterAfter(c.period, |h + [e]|) &&
            r.best == Extremum(c.direction, InitialBest(c.direction), Seen(c, h + [e], 0))
  {
    StepFollowsCalls(c, s, e, |h|);
    SeenSnoc(c, h, e, 0);
    ExtremumSnoc(c.direction, InitialBest(c.direction), Seen(c, h, 0), Observed(c, e, |h|));
  }

  /** Over a run of calls the counter tracks the number of calls modulo
      `period`, and `best` is the running best of the monitored values seen
      at triggered epochs. */
  lemma {:induction false} RunFollowsCalls(c: Config, s: State, events: seq<Event>, calls: nat)
    requires s.since == CounterAfter(c.period, calls)
    ensures Run(c, s, events).since == CounterAfter(c.period, calls + |events|)
    ensures Run(c, s, events).best == Extremum(c.direction, s.best, Seen(c, events, calls))
    decreases |events|
  {
    if events != [] {
      var e := events[0];
      var r := Transition(c, s, e.0, e.1);
      assert Run(c, s, events) == Run(c, r.1, events[1..]);
      assert Seen(c, events, calls) == Observed(c, e, calls) + Seen(c, events[1..], calls + 1);
      StepFollowsCalls(c, s, e, calls);
      RunFollowsCalls(c, r.1, events[1..], calls + 1);
      ExtremumSnoc(c.direction, s.best, Observed(c, e, calls), Seen(c, events[1..], calls + 1));
    }
  }

  /** Exactly every `period`-th call does something other than skip. */
  lemma {:induction false} TriggersEveryPeriod(c: Config, s: State, events: seq<Event>, calls: nat)
    requires s.since == CounterAfter(c.period, calls)
    ensures forall k :: 0 <= k < |events| ==>
              (Trace(c, s, events)[k].Skip? <==> !Fires(c.period, calls + k))
    decreases |events|
  {
    if events != [] {
      var e := events[0];
      var r := Transition(c, s, e.0, e.1);
      var ds := Trace(c, s, events);
      assert ds == [r.0] + Trace(c, r.1, events[1..]);
      StepFollowsCalls(c, s, e, calls);
      TriggersEveryPeriod(c, r.1, events[1..], calls + 1);
      forall k | 0 <= k < |events| ensures ds[k].Skip? <==> !Fires(c.period, calls + k) {
        if k > 0 {
          assert ds[k] == Trace(c, r.1, events[1..])[k - 1];
        }
      }
    }
  }

  /** From construction: `best` is exactly the running minimum (or
      maximum) of the monitored values seen at period-aligned epochs, and
      the initial infinity until there is one. */
  lemma BestIsRunningExtremum(c: Config, events: seq<Event>)
    ensures var best := Run(c, State(0, InitialBest(c.direction)), events).best;
            var seen := Seen(c, events, 0);
            (forall i :: 0 <= i < |seen| ==> NoWorse(c.direction, best, Fin(seen[i]))) &&
            (seen == [] ==> best == InitialBest(c.direction)) &&
            (seen != [] ==> exists i :: 0 <= i < |seen| && best == Fin(seen[i]))
  {
    var b0 := InitialBest(c.direction);
    RunFollowsCalls(c, State(0, b0), events, 0);
    var seen := Seen(c, events, 0);
    ExtremumIsBest(c.direction, b0, seen);
    if seen != [] {
      ExtremumFromInitial(c.direction, seen);
    }
  }

  /** A triggered epoch whose logs hold only the monitored value, with a
      template that has no fields. */
  lemma SingleMetricStep(c: Config, s: State, epoch: nat, v: real)
    requires c.saveBestOnly && s.since + 1 >= c.period
    requires NoBraces(c.filepath) && c.monitor != "epoch"
    ensures Transition(c, s, epoch, Some([(c.monitor, v)])) ==
            if Beats(c.direction, v, s.best)
            then (Improved(s.best, v, SaveFor(c.saveWeightsOnly, c.filepath)), State(0, Fin(v)))
            else (NotImproved(s.best), State(0, s.best))
  {
    LiteralUnchanged(c.filepath, PathEnv(epoch, [(c.monitor, v)]), c.render);
  }

  /** Monitoring `val_loss` with period 1 and minimizing (what auto mode
      gives for that name, by `LossIsMinimized`), the values 0.9, 0.5, 0.7,
      0.5 improve, improve, do not improve, do not improve. */
  lemma LossSequenceExample(path: string, render: Render)
    requires NoBraces(path)
    ensures var c := Config(path, "val_loss", true, false, 1, Minimize, render);
            var events: seq<Event> := [(0, Some([("val_loss", 0.9)])), (1, Some([("val_loss", 0.5)])),
                                       (2, Some([("val_loss", 0.7)])), (3, Some([("val_loss", 0.5)]))];
            Trace(c, State(0, InitialBest(Minimize)), events) ==
              [Improved(PosInf, 0.9, SaveModel(path)), Improved(Fin(0.9), 0.5, SaveModel(path)),
               NotImproved(Fin(0.5)), NotImproved(Fin(0.5))]
  {
    var c := Config(path, "val_loss", true, false, 1, Minimize, render);
    var events: seq<Event> := [(0, Some([("val_loss", 0.9)])), (1, Some([("val_loss", 0.5)])),
                               (2, Some([("val_loss", 0.7)])), (3, Some([("val_loss", 0.5)]))];
    var s0 := State(0, PosInf);
    SingleMetricStep(c, s0, 0, 0.9);
    var s1 := State(0, Fin(0.9));
    SingleMetricStep(c, s1, 1, 0.5);
    var s2 := State(0, Fin(0.5));
    SingleMetricStep(c, s2, 2, 0.7);
    SingleMetricStep(c, s2, 3, 0.5);
    assert Trace(c, s2, events[3..]) == [NotImproved(Fin(0.5))];
    assert Trace(c, s2, events[2..]) == [NotImproved(Fin(0.5))] + Trace(c, s2, events[3..]);
    assert Trace(c, s1, events[1..]) == [Improved(Fin(0.9), 0.5, SaveModel(path))] + Trace(c, s2, events[2..]);
    assert Trace(c, s0, events) == [Improved(PosInf, 0.9, SaveModel(path))] + Trace(c, s1, events[1..]);
  }

  // ---------------------------------------------------------------------
  // The callback object
  // ---------------------------------------------------------------------

  class SecondaryModelCheckpoint {
    const filepath: string
    const monitor: string
    const saveBestOnly: bool
    const saveWeightsOnly: bool
    const period: int
    const direction: Direction
    const render: Render
    /** Whether construction raised the unknown-mode RuntimeWarning. */
    const modeWarned: bool

    var epochsSinceLastSave: int
    var best: Ext
    /** The save actions performed so far, oldest first. */
    var saves: seq<Save>
    /** Every call to `OnEpochEnd` so far. */
    ghost var history: seq<Event>

    function AsConfig(): Config
    {
      Config(filepath, monitor, saveBestOnly, saveWeightsOnly, period, direction, render)
    }

    function AsState(): State
      reads this
    {
      State(epochsSinceLastSave, best)
    }

    /** The counter follows the number of calls, and `best` is the running
        best of everything compared so far. */
    ghost predicate Valid()
      reads this
    {
      epochsSinceLastSave == CounterAfter(period, |history|) &&
      best == Extremum(direction, InitialBest(direction), Seen(AsConfig(), history, 0))
    }

    constructor (filepath: string, monitor: string, saveBestOnly: bool, saveWeightsOnly: bool,
                 mode: string, period: int, render: Render)
      ensures this.filepath == filepath && this.monitor == monitor
      ensures this.saveBestOnly == saveBestOnly && this.saveWeightsOnly == saveWeightsOnly
      ensures this.period == period && this.render == render
      ensures var st := ResolveMode(mode, monitor);
              direction == st.direction && best == st.best && modeWarned == st.warned
      ensures epochsSinceLastSave == 0 && saves == [] && history == []
      ensures Valid()
    {
      this.filepath := filepath;
      this.monitor := monitor;
      this.saveBestOnly := saveBestOnly;
      this.saveWeightsOnly := saveWeightsOnly;
      this.period := period;
      this.render := render;
      epochsSinceLastSave := 0;
      saves := [];
      history := [];
      var m := mode;
      if m != "auto" && m != "min" && m != "max" {
        modeWarned := true;
        m := "auto";
      } else {
        modeWarned := false;
      }
      if m == "min" {
        direction := Minimize;
        best := PosInf;
      } else if m == "max" {
        direction := Maximize;
        best := NegInf;
      } else if Contains(monitor, "acc") || StartsWith(monitor, "fmeasure") {
        direction := Maximize;
        best := NegInf;
      } else {
        direction := Minimize;
        best := PosInf;
      }
    }

    /** `on_epoch_end(epoch, logs)`. */
    method OnEpochEnd(epoch: nat, logs: Option<Logs>) returns (d: Decision)
      requires Valid()
      modifies this
      ensures Valid() && history == old(history) + [(epoch, logs)]
      ensures (d, AsState()) == Transition(AsConfig(), old(AsState()), epoch, logs)
      ensures saves == old(saves) + SavesOf(d)
    {
      StepKeepsRunningBest(AsConfig(), history, AsState(), (epoch, logs));
      history := history + [(epoch, logs)];

      var l := OrEmpty(logs);
      epochsSinceLastSave := epochsSinceLastSave + 1;
      if epochsSinceLastSave >= period {
        epochsSinceLastSave := 0;
        var path := FormatPath(filepath, epoch, l, render);
        if path.Err? {
          return Failed(path.error);
        }
        var save := SaveFor(saveWeightsOnly, path.value);
        if saveBestOnly {
          var current := Lookup(l, monitor);
          if current.None? {
            d := MissingMetric;
          } else if Beats(direction, current.value, best) {
            d := Improved(best, current.value, save);
            best := Fin(current.value);
            saves := saves + [save];
          } else {
            d := NotImproved(best);
          }
        } else {
          d := Periodic(save);
          saves := saves + [save];
        }
      } else {
        d := Skip;
      }
    }
  }
}

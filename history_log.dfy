/** `HistoryLog`: writes the Keras training log to a delimited text file,
    one row per epoch, with a header row before the first. The file is
    modelled as its sequence of lines. */
module History {
  import opened Values
  import opened Text

  /** How one call to `on_epoch_end` ends. */
  datatype Status =
    | Written       // a row was written
    | NotIterable   // TypeError: `list(None)` on a call that writes the header
    | NoValues      // AttributeError: `None.values()` on a later call

  /** The header: "epoch", then the keys of the logs. */
  function HeaderLine(delim: string, logs: Logs): string
  {
    Join(["epoch"] + Keys(logs), delim)
  }

  /** `[str(x) for x in values]` for the floats of one row. */
  function Rendered(render: Render, vs: seq<real>): (r: seq<string>)
    ensures |r| == |vs|
    ensures forall i :: 0 <= i < |vs| ==> r[i] == render(RealVal(vs[i]), "")
  {
    if vs == [] then [] else [render(RealVal(vs[0]), "")] + Rendered(render, vs[1..])
  }

  /** The fields of one row: the 1-based epoch, then the values of the logs. */
  function RowFields(render: Render, epoch: nat, logs: Logs): seq<string>
  {
    [render(IntVal(epoch + 1), "")] + Rendered(render, ValuesOf(logs))
  }

  function RowLine(delim: string, render: Render, epoch: nat, logs: Logs): string
  {
    Join(RowFields(render, epoch, logs), delim)
  }

  /** `header_written` and the lines of the file. */
  datatype LogState = LogState(written: bool, file: seq<string>)

  /** `on_epoch_end(epoch, logs)` as a transition. Opening with "w+" empties
      the file before the header is built, so a failing first call still
      leaves an empty file. */
  function LogStep(delim: string, render: Render, s: LogState, epoch: nat, logs: Option<Logs>): (Status, LogState)
  {
    if !s.written then
      if logs.None? then (NotIterable, LogState(false, []))
      else (Written, LogState(true, [HeaderLine(delim, logs.value), RowLine(delim, render, epoch, logs.value)]))
    else if logs.None? then (NoValues, s)
    else (Written, LogState(true, s.file + [RowLine(delim, render, epoch, logs.value)]))
  }

  /** `header_written` goes from false to true only on a call that writes
      the header, and never back. */
  lemma HeaderWrittenOnce(delim: string, render: Render, s: LogState, epoch: nat, logs: Option<Logs>)
    ensures var r := LogStep(delim, render, s, epoch, logs);
            (s.written ==> r.1.written) &&
            (!s.written && r.1.written ==> r.0 == Written && r.1.file[0] == HeaderLine(delim, logs.value)) &&
            (r.0 == Written <==> logs.Some?)
  {
  }

  /** A call after the header appends exactly one row and leaves every
      earlier line alone. */
  lemma LaterCallAppendsRow(delim: string, render: Render, s: LogState, epoch: nat, logs: Logs)
    requires s.written
    ensures var r := LogStep(delim, render, s, epoch, Some(logs)).1;
            |r.file| == |s.file| + 1 && r.file[..|s.file|] == s.file &&
            r.file[|s.file|] == RowLine(delim, render, epoch, logs)
  {
    var r := LogStep(delim, render, s, epoch, Some(logs)).1;
    assert r.file == s.file + [RowLine(delim, render, epoch, logs)];
  }

  function LogRun(delim: string, render: Render, s: LogState, events: seq<Event>): LogState
    decreases |events|
  {
    if events == [] then s
    else LogRun(delim, render, LogStep(delim, render, s, events[0].0, events[0].1).1, events[1..])
  }

  /** The rows the events produce, in order. */
  function Rows(delim: string, render: Render, events: seq<Event>): seq<string>
  {
    seq(|events|, k requires 0 <= k < |events| => RowLine(delim, render, events[k].0, OrEmpty(events[k].1)))
  }

  predicate AllLogged(events: seq<Event>)
  {
    forall k :: 0 <= k < |events| ==> events[k].1.Some?
  }

  lemma AllLoggedTail(events: seq<Event>)
    requires |events| >= 1 && AllLogged(events)
    ensures AllLogged(events[1..])
  {
    forall k | 0 <= k < |events[1..]| ensures events[1..][k].1.Some? {
      assert events[1..][k] == events[k + 1];
    }
  }

  lemma {:induction false} AppendsRows(delim: string, render: Render, file: seq<string>, events: seq<Event>)
    requires AllLogged(events)
    ensures LogRun(delim, render, LogState(true, file), events) ==
            LogState(true, file + Rows(delim, render, events))
    decreases |events|
  {
    if events == [] {
      assert file + Rows(delim, render, events) == file;
    } else {
      var row := RowLine(delim, render, events[0].0, OrEmpty(events[0].1));
      AppendsRows(delim, render, file + [row], events[1..]);
      assert Rows(delim, render, events) == [row] + Rows(delim, render, events[1..]);
      assert file + [row] + Rows(delim, render, events[1..]) == file + Rows(delim, render, events);
    }
  }

  /** After N calls with logs, whatever the file held before, it holds the
      header of the first call's keys and then exactly the N rows: N + 1
      lines. */
  lemma LinesAfterCalls(delim: string, render: Render, existing: seq<string>, events: seq<Event>)
    requires |events| >= 1 && AllLogged(events)
    ensures var r := LogRun(delim, render, LogState(false, existing), events);
            r.written && |r.file| == |events| + 1 &&
            r.file == [HeaderLine(delim, OrEmpty(events[0].1))] + Rows(delim, render, events)
  {
    var first := events[0];
    var s1 := LogStep(delim, render, LogState(false, existing), first.0, first.1).1;
    var header := HeaderLine(delim, OrEmpty(first.1));
    var row := RowLine(delim, render, first.0, OrEmpty(first.1));
    assert s1 == LogState(true, [header] + [row]);
    AllLoggedTail(events);
    AppendsRows(delim, render, [header] + [row], events[1..]);
    assert Rows(delim, render, events) == [row] + Rows(delim, render, events[1..]);
  }

  /** With a one-character delimiter that occurs in no key, splitting the
      header gives back "epoch" and the keys. */
  lemma HeaderSplits(c: char, logs: Logs)
    requires c !in "epoch"
    requires forall i :: 0 <= i < |logs| ==> c !in logs[i].0
    ensures Split(HeaderLine([c], logs), c) == ["epoch"] + Keys(logs)
  {
    var parts := ["epoch"] + Keys(logs);
    forall i | 0 <= i < |parts| ensures c !in parts[i] {
      if i > 0 { assert parts[i] == logs[i - 1].0; }
    }
    SplitJoin(parts, c);
  }

  /** With a one-character delimiter that no rendering produces, splitting a
      row gives back the epoch and one field per value. */
  lemma RowSplits(c: char, render: Render, epoch: nat, logs: Logs)
    requires c !in render(IntVal(epoch + 1), "")
    requires forall i :: 0 <= i < |logs| ==> c !in render(RealVal(logs[i].1), "")
    ensures Split(RowLine([c], render, epoch, logs), c) == RowFields(render, epoch, logs)
    ensures |RowFields(render, epoch, logs)| == |logs| + 1
  {
    var parts := RowFields(render, epoch, logs);
    forall i | 0 <= i < |parts| ensures c !in parts[i] {
      if i > 0 { assert parts[i] == render(RealVal(logs[i - 1].1), ""); }
    }
    SplitJoin(parts, c);
  }

  class HistoryLog {
    const path: string
    const delimiter: string
    const render: Render

    var headerWritten: bool
    /** The lines of the file at `path`. */
    var file: seq<string>

    function AsState(): LogState
      reads this
    {
      LogState(headerWritten, file)
    }

    /** `existing` is whatever the file at `path` held before training. */
    constructor (path: string, delimiter: string, render: Render, existing: seq<string>)
      ensures this.path == path && this.delimiter == delimiter && this.render == render
      ensures !headerWritten && file == existing
    {
      this.path := path;
      this.delimiter := delimiter;
      this.render := render;
      headerWritten := false;
      file := existing;
    }

    /** `on_epoch_end(epoch, logs)`. */
    method OnEpochEnd(epoch: nat, logs: Option<Logs>) returns (status: Status)
      modifies this
      ensures (status, AsState()) == LogStep(delimiter, render, old(AsState()), epoch, logs)
    {
      if !headerWritten {
        file := [];
        if logs.None? {
          return NotIterable;
        }
        var headings := ["epoch"] + Keys(logs.value);
        file := [Join(headings, delimiter)];
        headerWritten := true;
      } else if logs.None? {
        return NoValues;
      }
      var values := [render(IntVal(epoch + 1), "")] + Rendered(render, ValuesOf(logs.value));
      file := file + [Join(values, delimiter)];
      status := Written;
      if old(headerWritten) {
        assert file == old(file) + [RowLine(delimiter, render, epoch, logs.value)];
      } else {
        assert file == [HeaderLine(delimiter, logs.value), RowLine(delimiter, render, epoch, logs.value)];
      }
    }
  }
}

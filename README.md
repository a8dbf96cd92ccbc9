# metricks training callbacks, modelled in Dafny

This project models the two stateful Keras callbacks of `metricks/callbacks.py`.

- **`SecondaryModelCheckpoint`** saves a secondary model during training. The constructor turns
  `mode` and `monitor` into a comparison direction and an initial `best`. An unknown mode warns
  and then behaves as `auto`. In `auto` mode, names containing `acc` or starting with `fmeasure`
  are maximized and everything else is minimized. Each `on_epoch_end` bumps
  `epochs_since_last_save`. Until that counter reaches `period`, nothing else happens. When it
  does, the counter resets and the path `filepath.format(epoch=epoch + 1, **logs)` is built. The
  call then does one of three things. It saves unconditionally. Or, with `save_best_only`, it
  warns that the monitored metric is missing. Or it compares the metric with `best` and saves
  and updates `best` only on a strict improvement.
- **`HistoryLog`** writes the training log as delimited text. The first call truncates the file
  and writes a header (`epoch` and the log keys). Every call then appends one row: the 1-based
  epoch and the log values, each passed through `str`.

Files:

| file | module | contents |
|---|---|---|
| `values.dfy` | `Values` | `Option`/`Result`; extended reals `NegInf \| Fin(v) \| PosInf` with numpy's strict order; the `logs` dictionary as an ordered list of pairs; the abstract `Render` |
| `text.dfy` | `Text` | `startswith`, the substring test `in`, `str.join`, and `str.split` on one character as the inverse of joining |
| `py_format.dfy` | `PyFormat` | `str.format` with keyword arguments: literal text, `{{`/`}}`, `{name}`, `{name:spec}`, `{name!conv}`, and its errors |
| `checkpoint.dfy` | `Checkpoint` | mode resolution, the transition `Transition` of one epoch end, runs of epoch ends, and the class `SecondaryModelCheckpoint` |
| `history_log.dfy` | `History` | the transition `LogStep`, runs of it, and the class `HistoryLog` |

Each class keeps the source's fields and updates them in place. Its `OnEpochEnd` method is
written step by step like the Python. Its `ensures` ties the result and the new fields to the
pure transition function (`Transition`, `LogStep`), and the lemmas state what the source
promises about those functions. `SecondaryModelCheckpoint` also keeps a ghost history of its
calls. Its invariant `Valid()` says two things: the counter is the number of calls modulo
`period`, and `best` is the running best of the monitored values compared so far.

Parameters stand in for what the model cannot see:
- The Keras save calls become recorded `Save` actions: `SaveWeights(path)` or `SaveModel(path)`.
  They are kept in the field `saves` and carried in the returned `Decision`.
- Rendering a value is the function parameter `render`, passed to each constructor. It receives
  the value and the text of the format field after its name: `""` for `{name}` (Python's
  `str(value)`, also used for the `HistoryLog` rows), `":spec"` for `{name:spec}`
  (`format(value, spec)`), or `"!conv…"` for a conversion.
- The contents of the `HistoryLog` file before training are the constructor argument
  `existing`.
- Python exceptions and warnings are values. A checkpoint call returns `Failed(error)` for a
  path that cannot be built and `MissingMetric` for the missing-metric warning. The constructor
  sets `modeWarned` for the unknown-mode warning. `HistoryLog.OnEpochEnd` returns `NotIterable`
  or `NoValues` when `logs` is `None`.

Edge cases of the code that the model keeps:
- The path is formatted before the missing-metric check. So a template naming a key absent from
  `logs` raises even on a call that would otherwise only warn.
- `period` is any integer. With `period <= 1` every call triggers.
- A `logs` entry named `epoch` makes `format(epoch=..., **logs)` raise a TypeError before any
  formatting.
- A first `HistoryLog` call with `logs=None` has already truncated the file when it raises.

## Model

| member | source | states |
|---|---|---|
| `Values.Lookup` | metricks/callbacks.py:76 | `logs.get(monitor)` is present exactly when some entry has that key, and the value found belongs to such an entry |
| `Values.Keys` | metricks/callbacks.py:131 | `list(logs)`: the keys in insertion order, one per entry |
| `Values.ValuesOf` | metricks/callbacks.py:138 | `list(logs.values())`: the values in insertion order, one per entry |
| `Values.LessIsStrictTotalOrder` | metricks/callbacks.py:56-67 | the order `np.less`/`np.greater` use on non-NaN floats and the two infinities is irreflexive, asymmetric, transitive and total |
| `Text.ContainsIff` | metricks/callbacks.py:62 | the search for `'acc' in monitor` succeeds exactly when "acc" occurs at some offset of the name |
| `Text.SplitJoin` | metricks/callbacks.py:131-141 | joining fields with a one-character delimiter that no field contains is undone by splitting on it |
| `PyFormat.FormatAppend` | metricks/callbacks.py:74 | a template that formats on its own formats the same way in front of any other text, so the path is the concatenation of the formatted parts |
| `PyFormat.LiteralUnchanged` | metricks/callbacks.py:74 | a path template without braces formats to itself, whatever the keyword arguments |
| `PyFormat.FieldSubstituted` | metricks/callbacks.py:8-13 | after any well-formed text, a `{name}`/`{name:spec}` field becomes the rendering of its argument under the spec and the rest of the template is formatted as on its own; a name with no argument is a KeyError naming it |
| `Checkpoint.AutoDirectionIff` | metricks/callbacks.py:62-67 | auto mode maximizes exactly when the monitor name contains "acc" at some offset or starts with "fmeasure" |
| `Checkpoint.AccuracyIsMaximized` | metricks/callbacks.py:62-64 | auto mode maximizes `val_acc` |
| `Checkpoint.FmeasureIsMaximized` | metricks/callbacks.py:62-64 | auto mode maximizes `fmeasure_foo` |
| `Checkpoint.LossIsMinimized` | metricks/callbacks.py:65-67 | auto mode minimizes `val_loss` |
| `Checkpoint.ModeTable` | metricks/callbacks.py:55-67 | `min` gives minimize from +inf, `max` gives maximize from -inf, `auto` takes the name heuristic's direction and matching infinity; none of them warns |
| `Checkpoint.UnknownModeIsAuto` | metricks/callbacks.py:49-53 | a mode outside {auto, min, max} warns and otherwise resolves exactly as `auto` |
| `Checkpoint.PathEnv` | metricks/callbacks.py:74 | the keyword arguments are `epoch=epoch + 1` followed by every log entry, in order |
| `Checkpoint.PathEpochIsOneBased` | metricks/callbacks.py:74 | a `{epoch}` field (with or without a spec) standing after any well-formed text renders the 1-based epoch number, and the rest of the template is formatted as on its own; a template whose only field is the epoch becomes the text around it with the number in between |
| `Checkpoint.PathMissingKeyFails` | metricks/callbacks.py:10-13 | a template field, after any well-formed text, naming neither `epoch` nor a log key makes building the path fail, with a KeyError naming it unless `logs` itself holds `epoch` |
| `Checkpoint.NonTriggerChangesOnlyCounter` | metricks/callbacks.py:71-72 | below `period` the call skips, raises the counter by one, and leaves `best` and the saves alone |
| `Checkpoint.TriggerResetsCounter` | metricks/callbacks.py:71-73 | the call skips iff the incremented counter is below `period`; otherwise the counter restarts at 0; the counter stays in `[0, period)` |
| `Checkpoint.FormatErrorComesFirst` | metricks/callbacks.py:72-76 | on a triggered call a path error is raised before the monitored metric is looked at; the counter is already 0 and `best` is unchanged |
| `Checkpoint.PeriodicSaveOnce` | metricks/callbacks.py:96-102 | without `save_best_only` a triggered call whose path formats performs exactly one save, `save_weights` if weights-only else `save`, and keeps `best` |
| `Checkpoint.MissingMetricSavesNothing` | metricks/callbacks.py:75-79 | with `save_best_only`, the path formatted and the monitor absent from the logs, the call warns, saves nothing and keeps `best` |
| `Checkpoint.SaveIffStrictImprovement` | metricks/callbacks.py:80-95 | with `save_best_only` and a monitored value, a save happens iff the value strictly beats `best`; that save is `save_weights` if weights-only else `save`, to the formatted path, and records the old `best` and the value; `best` becomes the value exactly then; an equal value is not an improvement |
| `Checkpoint.BestNeverRegresses` | metricks/callbacks.py:80-91 | `best` never gets worse under the direction, and it changes only on an improvement |
| `Checkpoint.ExtremumIsBest` | metricks/callbacks.py:81-87 | the left-to-right best of a start value and a list is no worse than the start and every element, and equals the start or one element |
| `Checkpoint.ExtremumFromInitial` | metricks/callbacks.py:55-67 | from the initial infinity, the best of a non-empty list is one of its elements |
| `Checkpoint.StepFollowsCalls` | metricks/callbacks.py:71-87 | after n earlier calls, one call fires exactly when (n + 1) is a multiple of `period`, moves the counter to its value after n + 1 calls, and leaves as `best` the better of `best` and what it observed |
| `Checkpoint.StepKeepsRunningBest` | metricks/callbacks.py:71-87 | one call keeps the counter equal to the call count modulo `period` and `best` equal to the running best of the whole history |
| `Checkpoint.RunFollowsCalls` | metricks/callbacks.py:71-87 | over any run, the counter is the number of calls modulo `period`, and `best` is the running best of the monitored values seen at triggered epochs |
| `Checkpoint.TriggersEveryPeriod` | metricks/callbacks.py:71-73 | over any run, the k-th call skips exactly when it is not a `period`-th call |
| `Checkpoint.BestIsRunningExtremum` | metricks/callbacks.py:55-91 | from construction, `best` is the running minimum (or maximum) of the monitored values at period-aligned epochs, and the initial infinity while there is none |
| `Checkpoint.SingleMetricStep` | metricks/callbacks.py:72-95 | with a template without fields and a monitor other than `epoch`, a triggered best-only call on logs holding just the monitored value either saves to that template and stores the value as `best` (strict improvement) or reports no improvement |
| `Checkpoint.LossSequenceExample` | metricks/callbacks.py:80-95 | minimizing `val_loss` with period 1 and a template without fields, the values 0.9, 0.5, 0.7, 0.5 give improve, improve, no improvement, no improvement |
| `Checkpoint.SecondaryModelCheckpoint.constructor` | metricks/callbacks.py:36-67 | keeps the arguments, starts the counter at 0 with no saves, and takes direction, initial `best` and the warning from the mode resolution |
| `Checkpoint.SecondaryModelCheckpoint.OnEpochEnd` | metricks/callbacks.py:69-102 | the decision and new counter and `best` are those of `Transition`, the decision's save is appended to `saves`, and the invariant tying counter and `best` to the call history is kept |
| `History.HeaderWrittenOnce` | metricks/callbacks.py:126-135 | `header_written` never goes back to false; it becomes true only on a call that writes a header of that call's keys; a call writes iff it has logs |
| `History.LaterCallAppendsRow` | metricks/callbacks.py:136-141 | once the header is written, a call appends exactly one row and leaves the earlier lines as they were |
| `History.LinesAfterCalls` | metricks/callbacks.py:126-141 | after N calls with logs, the file, whatever it held before, is the header of the first call's keys followed by exactly the N rows: N + 1 lines |
| `History.HeaderSplits` | metricks/callbacks.py:131-132 | with a one-character delimiter that no key contains and that is not a letter of "epoch", the header splits back into "epoch" followed by the keys |
| `History.RowSplits` | metricks/callbacks.py:138-139 | with a one-character delimiter that no rendering contains, a row splits back into the 1-based epoch and one field per log value |
| `History.HistoryLog.constructor` | metricks/callbacks.py:122-126 | keeps path and delimiter, starts with `header_written` false, and leaves the file as it was |
| `History.HistoryLog.OnEpochEnd` | metricks/callbacks.py:128-142 | the status, the new `header_written` and the new file lines are those of `LogStep`: truncate and write a header on the first call, append one row on every call |

## Left out

- The `tf.keras.callbacks.Callback` base class and its lifecycle: the hooks are plain methods that a caller invokes.
- `secondary_model.save` / `save_weights`, which only Keras can run: they are recorded as `Save` actions and not executed.
- The `verbose` argument and its `print` messages with `%0.5f` formatting: console output only.
- Float semantics: NaN, the representation of `np.Inf`, and how `str` and `format` render a float. Monitored values are reals, `best` is an extended real, and rendering is the parameter `render`.
- `PyFormat.Format` covers only part of the format mini-language. It hands what follows a field's name (`:spec` or `!conv…`) to `render` whole, and nothing forces `render` to give `{x}` and `{x:}` the same text, as Python does. It never rejects a spec or a conversion, although Python raises a ValueError for a spec such as `{val_loss:d}` and for a bad conversion such as `{x!}`, `{x!rr}` or `{x!z}`. It does not model replacement fields nested in a spec, or attribute and index access in a field name (`{a.b}`, `{a[0]}`): `Format` looks such a name up as a plain key, and the lemmas about fields (`KeywordName`) exclude these names. Every stray-brace or `{`-in-a-field error is the single error `Malformed`.
- A Python dict cannot repeat a key, while `Logs` is a list of pairs that could. Lookups take the first entry with the key.
- The file I/O of `HistoryLog` (`open`, `write`, `close`, the path on disk): only the resulting list of lines is modelled. The model assumes that keys, rendered values and delimiters contain no newline, since a line is one list entry.
- `Checkpoint.LossSequenceExample`: states its configuration with the direction `Minimize`. It does not state it as the result of resolving `auto` for `val_loss`. That result is `Checkpoint.LossIsMinimized`, kept in a separate lemma so that the solver does not have to evaluate the substring search inside the example.
- Default arguments (callbacks.py:36-38 and :122: `monitor='val_loss'`, `verbose=0`, `save_best_only=False`, `save_weights_only=False`, `mode='auto'`, `period=1`, `delimiter=','`): both constructors take every argument explicitly, and a default is just one value of that argument.
- `TimeHistory` (callbacks.py:104-113): the difference of two wall-clock readings, with nothing to state beyond a subtraction.
- `metricks/display.py`: direct calls into Keras evaluation and pandas/matplotlib plotting, which are not part of this model.
- `setup.py`: packaging metadata.

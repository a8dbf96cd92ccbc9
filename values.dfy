/** Values that flow through the training callbacks: optional and failing
    results, the extended reals used for the best monitored value, and the
    per-epoch `logs` dictionary. */
module Values {

  datatype Option<+T> = None | Some(value: T)

  datatype Result<+T, +E> = Ok(value: T) | Err(error: E)

  /** A monitored quantity, or one of the two infinities that the
      checkpoint starts from. NaN is not representable. */
  datatype Ext = NegInf | Fin(v: real) | PosInf

  /** Strict order on extended reals (numpy's `less` on non-NaN floats). */
  predicate Less(a: Ext, b: Ext)
  {
    match a
    case NegInf => !b.NegInf?
    case Fin(x) => b.PosInf? || (b.Fin? && x < b.v)
    case PosInf => false
  }

  lemma LessIsStrictTotalOrder(a: Ext, b: Ext, c: Ext)
    ensures !Less(a, a)
    ensures Less(a, b) ==> !Less(b, a)
    ensures Less(a, b) && Less(b, c) ==> Less(a, c)
    ensures a == b || Less(a, b) || Less(b, a)
  {
  }

  /** A value a callback can hand to Python's formatting: the 1-based epoch
      number is an int, every entry of `logs` is a float. */
  datatype Num = IntVal(i: int) | RealVal(r: real)

  /** How a value is rendered into text. The string is what follows a
      format field's name: `""` for `{name}` (Python's `str(value)`, which
      is also what `HistoryLog` writes), `":" + spec` for `{name:spec}`
      (`format(value, spec)`), or `"!" + conv` and what follows it for a
      conversion. Float rendering is not modelled, so this is a parameter
      of the model. */
  type Render = (Num, string) -> string

  /** The Keras `logs` dictionary, in insertion order. */
  type Logs = seq<(string, real)>

  /** `logs.get(key)`: the value of the first entry with that key. */
  function Lookup(logs: Logs, key: string): (r: Option<real>)
    ensures r.Some? <==> exists i :: 0 <= i < |logs| && logs[i].0 == key
    ensures r.Some? ==> (key, r.value) in logs
  {
    if logs == [] then None
    else if logs[0].0 == key then Some(logs[0].1)
    else Lookup(logs[1..], key)
  }

  /** `list(logs)`: the keys in order. */
  function Keys(logs: Logs): (ks: seq<string>)
    ensures |ks| == |logs|
    ensures forall i :: 0 <= i < |logs| ==> ks[i] == logs[i].0
  {
    if logs == [] then [] else [logs[0].0] + Keys(logs[1..])
  }

  /** `list(logs.values())`: the values in order. */
  function ValuesOf(logs: Logs): (vs: seq<real>)
    ensures |vs| == |logs|
    ensures forall i :: 0 <= i < |logs| ==> vs[i] == logs[i].1
  {
    if logs == [] then [] else [logs[0].1] + ValuesOf(logs[1..])
  }

  /** One call to a callback's `on_epoch_end`: the 0-based epoch and the
      logs, which Keras may pass as `None`. */
  type Event = (nat, Option<Logs>)

  /** `logs or {}`: a missing dictionary reads as the empty one. */
  function OrEmpty(logs: Option<Logs>): Logs
  {
    if logs.Some? then logs.value else []
  }
}

/** Python's `str.format` with keyword arguments only, as the checkpoint uses
    it to build a file path: literal text, the escapes `{{` and `}}`, and
    replacement fields `{name}`, `{name:spec}` or `{name!conv...}`. How a
    value is rendered is the abstract `Render`, which receives the text of
    the field after its name: empty, `:spec`, or `!conv` and what follows. */
module PyFormat {
  import opened Values

  datatype FormatError =
    | Malformed              // ValueError: a stray brace, or '{' inside a field
    | PositionalField        // IndexError: `{}` or `{0}`, and no positional arguments
    | MissingKey(key: string) // KeyError: the field names no keyword argument
    | DuplicateKeyword       // TypeError: `epoch` given twice, once through `**logs`

  /** The keyword arguments of one `format` call, in order. */
  type Env = seq<(string, Num)>

  function LookupArg(env: Env, key: string): (r: Option<Num>)
    ensures r.Some? <==> exists i :: 0 <= i < |env| && env[i].0 == key
  {
    if env == [] then None
    else if env[0].0 == key then Some(env[0].1)
    else LookupArg(env[1..], key)
  }

  /** Index of the first `c` in `s`, or `|s|` when there is none. */
  function Find(s: string, c: char): (k: nat)
    ensures k <= |s|
    ensures k < |s| ==> s[k] == c
    ensures forall j :: 0 <= j < k ==> s[j] != c
  {
    if s == [] then 0 else if s[0] == c then 0 else 1 + Find(s[1..], c)
  }

  /** Where a field's name ends: at the first ':' (format spec) or '!'
      (conversion), or at the end of the field. */
  function NameEnd(field: string): (k: nat)
    ensures k <= |field|
    ensures k < |field| ==> field[k] == ':' || field[k] == '!'
    ensures forall j :: 0 <= j < k ==> field[j] != ':' && field[j] != '!'
  {
    if field == [] then 0
    else if field[0] == ':' || field[0] == '!' then 0
    else 1 + NameEnd(field[1..])
  }

  /** A field name Python reads as a positional index: empty (automatic
      numbering) or all decimal digits. */
  predicate IsPositional(name: string)
  {
    forall i :: 0 <= i < |name| ==> '0' <= name[i] <= '9'
  }

  predicate NoBraces(s: string)
  {
    '{' !in s && '}' !in s
  }

  /** A name that selects a keyword argument and ends where the field's
      name ends: no attribute (`.`) or index (`[`) access either, which
      Python would apply to the argument rather than to the name. */
  predicate KeywordName(name: string)
  {
    NoBraces(name) && ':' !in name && '!' !in name && '.' !in name && '[' !in name &&
    !IsPositional(name)
  }

  /** What may follow a name inside its field: nothing, or a spec or
      conversion without nested fields. */
  predicate FieldTail(tail: string)
  {
    NoBraces(tail) && (tail == "" || tail[0] == ':' || tail[0] == '!')
  }

  function Prepend(s: string, r: Result<string, FormatError>): Result<string, FormatError>
  {
    if r.Ok? then Ok(s + r.value) else r
  }

  /** `template.format(**env)`. */
  function Format(t: string, env: Env, render: Render): Result<string, FormatError>
    decreases |t|
  {
    if t == [] then Ok("")
    else if t[0] == '{' then
      if |t| >= 2 && t[1] == '{' then Prepend("{", Format(t[2..], env, render))
      else
        var j := Find(t[1..], '}');
        if j == |t| - 1 then Err(Malformed)
        else
          var field := t[1..j + 1];
          if '{' in field then Err(Malformed)
          else
            var k := NameEnd(field);
            var name := field[..k];
            if IsPositional(name) then Err(PositionalField)
            else
              match LookupArg(env, name)
              case None => Err(MissingKey(name))
              case Some(v) => Prepend(render(v, field[k..]), Format(t[j + 2..], env, render))
    else if t[0] == '}' then
      if |t| >= 2 && t[1] == '}' then Prepend("}", Format(t[2..], env, render))
      else Err(Malformed)
    else Prepend(t[..1], Format(t[1..], env, render))
  }

  /** Text without braces is copied through unchanged. */
  lemma {:induction false} LiteralPrefix(pre: string, rest: string, env: Env, render: Render)
    requires NoBraces(pre)
    ensures Format(pre + rest, env, render) == Prepend(pre, Format(rest, env, render))
    decreases |pre|
  {
    if pre == [] {
      assert pre + rest == rest;
      var r := Format(rest, env, render);
      if r.Ok? {
        assert pre + r.value == r.value;
      }
    } else {
      var t := pre + rest;
      assert t[0] == pre[0] && t[1..] == pre[1..] + rest;
      assert NoBraces(pre[1..]) by {
        forall ch | ch in pre[1..] ensures ch in pre { }
      }
      LiteralPrefix(pre[1..], rest, env, render);
      assert t[0] != '{' && t[0] != '}';
      assert Format(t, env, render) == Prepend(t[..1], Format(t[1..], env, render));
      assert t[..1] + pre[1..] == pre;
      var r := Format(rest, env, render);
      if r.Ok? {
        assert t[..1] + (pre[1..] + r.value) == pre + r.value;
      }
    }
  }

  lemma PrependAssoc(x: string, y: string, r: Result<string, FormatError>)
    ensures Prepend(x, Prepend(y, r)) == Prepend(x + y, r)
  {
    if r.Ok? {
      assert x + (y + r.value) == x + y + r.value;
    }
  }

  /** Once `s` holds a `c`, text appended after it does not move the first one. */
  lemma {:induction false} FindPrefix(s: string, rest: string, c: char)
    requires Find(s, c) < |s|
    ensures Find(s + rest, c) == Find(s, c)
    decreases |s|
  {
    if s[0] != c {
      assert (s + rest)[1..] == s[1..] + rest;
      FindPrefix(s[1..], rest, c);
    }
  }

  /** A template that formats on its own formats the same way in front of
      any other text: formatting works token by token, and no token of a
      well-formed template reaches past its end. */
  lemma {:induction false} FormatAppend(a: string, b: string, env: Env, render: Render)
    requires Format(a, env, render).Ok?
    ensures Format(a + b, env, render) == Prepend(Format(a, env, render).value, Format(b, env, render))
    decreases |a|
  {
    var t := a + b;
    if a == [] {
      assert t == b;
      var r := Format(b, env, render);
      if r.Ok? { assert "" + r.value == r.value; }
    } else if a[0] == '{' {
      if |a| >= 2 && a[1] == '{' {
        assert t[0] == '{' && t[1] == '{' && t[2..] == a[2..] + b;
        FormatAppend(a[2..], b, env, render);
        PrependAssoc("{", Format(a[2..], env, render).value, Format(b, env, render));
      } else {
        var j := Find(a[1..], '}');
        assert j < |a| - 1;
        assert t[0] == '{' && t[1..] == a[1..] + b;
        FindPrefix(a[1..], b, '}');
        assert t[1..j + 1] == a[1..j + 1];
        var field := a[1..j + 1];
        var k := NameEnd(field);
        var v := LookupArg(env, field[..k]).value;
        assert t[j + 2..] == a[j + 2..] + b;
        FormatAppend(a[j + 2..], b, env, render);
        PrependAssoc(render(v, field[k..]), Format(a[j + 2..], env, render).value, Format(b, env, render));
      }
    } else if a[0] == '}' {
      assert t[0] == '}' && t[1] == '}' && t[2..] == a[2..] + b;
      FormatAppend(a[2..], b, env, render);
      PrependAssoc("}", Format(a[2..], env, render).value, Format(b, env, render));
    } else {
      assert t[0] == a[0] && t[..1] == a[..1] && t[1..] == a[1..] + b;
      FormatAppend(a[1..], b, env, render);
      PrependAssoc(a[..1], Format(a[1..], env, render).value, Format(b, env, render));
    }
  }

  /** A template without braces formats to itself, whatever the arguments. */
  lemma LiteralUnchanged(t: string, env: Env, render: Render)
    requires NoBraces(t)
    ensures Format(t, env, render) == Ok(t)
  {
    LiteralPrefix(t, "", env, render);
    assert t + "" == t;
  }

  /** A keyword field after any well-formed text is replaced by the
      rendering of its argument, or fails with a KeyError naming it when
      there is none; the rest of the template is formatted as on its own. */
  lemma FieldSubstituted(pre: string, name: string, tail: string, post: string, env: Env, render: Render)
    requires Format(pre, env, render).Ok? && KeywordName(name) && FieldTail(tail)
    ensures Format(pre + "{" + name + tail + "}" + post, env, render) ==
            match LookupArg(env, name)
            case None => Err(MissingKey(name))
            case Some(v) => Prepend(Format(pre, env, render).value + render(v, tail), Format(post, env, render))
  {
    var t := "{" + name + tail + "}" + post;
    assert pre + "{" + name + tail + "}" + post == pre + t;
    FormatAppend(pre, t, env, render);
    FieldAtFront(name, tail, post, env, render);
    match LookupArg(env, name)
    case None =>
    case Some(v) =>
      PrependAssoc(Format(pre, env, render).value, render(v, tail), Format(post, env, render));
  }

  lemma FieldAtFront(name: string, tail: string, post: string, env: Env, render: Render)
    requires KeywordName(name) && FieldTail(tail)
    ensures Format("{" + name + tail + "}" + post, env, render) ==
            match LookupArg(env, name)
            case None => Err(MissingKey(name))
            case Some(v) => Prepend(render(v, tail), Format(post, env, render))
  {
    var t := "{" + name + tail + "}" + post;
    var field := name + tail;
    FieldSplit(name, tail);
    assert t[1..] == field + ("}" + post);
    FindStops(field, "}" + post, '}');
    assert t[1..Find(t[1..], '}') + 1] == field;
    assert t[Find(t[1..], '}') + 2..] == post;
    assert t[1] == field[0];
  }

  /** The text between the braces of such a field splits back into its
      name and its tail. */
  lemma FieldSplit(name: string, tail: string)
    requires KeywordName(name) && FieldTail(tail)
    ensures |name + tail| > 0 && (name + tail)[0] != '{'
    ensures '{' !in name + tail && '}' !in name + tail
    ensures NameEnd(name + tail) == |name|
    ensures (name + tail)[..|name|] == name && (name + tail)[|name|..] == tail
  {
    var field := name + tail;
    if |name| == 0 {
      assert IsPositional(name);
    }
    forall i | 0 <= i < |field| ensures field[i] != '{' && field[i] != '}' {
      if i < |name| { assert field[i] == name[i]; } else { assert field[i] == tail[i - |name|]; }
    }
    NameEndStops(name, tail);
  }

  lemma {:induction false} FindStops(s: string, rest: string, c: char)
    requires c !in s && |rest| > 0 && rest[0] == c
    ensures Find(s + rest, c) == |s|
    decreases |s|
  {
    if s != [] {
      assert (s + rest)[1..] == s[1..] + rest;
      FindStops(s[1..], rest, c);
    } else {
      assert s + rest == rest;
    }
  }

  lemma {:induction false} NameEndStops(name: string, tail: string)
    requires ':' !in name && '!' !in name
    requires tail == "" || tail[0] == ':' || tail[0] == '!'
    ensures NameEnd(name + tail) == |name|
    decreases |name|
  {
    if name != [] {
      assert (name + tail)[1..] == name[1..] + tail;
      NameEndStops(name[1..], tail);
    } else {
      assert name + tail == tail;
    }
  }
}

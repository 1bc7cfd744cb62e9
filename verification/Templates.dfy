/** Template expansion (`templates.rs`): the recursive evaluator with its memo table, its
    stack of active names and its depth limit, next to a plain evaluator without any of the
    three. Objects are visited in some fixed order of their keys; nothing here depends on
    which. */
module Templates {
  import opened Prelude
  import opened Sets

  /** A JSON value. Null, booleans and numbers are kept as their text. */
  datatype Value = Scalar(text: string) | Text(s: string) | Arr(items: seq<Value>) | Obj(fields: map<string, Value>)

  datatype Error =
    | BadUse
    | BadTemplates
    | NotObject(name: string)
    | Unknown(name: string)
    | Cycle(names: seq<string>)
    | TooDeep

  const USE: string := "use"
  const TEMPLATES: string := "templates"
  const MAX_DEPTH: nat := 64

  /** The templates, and the order in which the keys of an object are visited. */
  datatype Env = Env(templates: map<string, Value>, order: set<string> -> seq<string>)

  ghost predicate Enumerates(order: set<string> -> seq<string>) {
    forall keys :: NoRepeats(order(keys)) && Elements(order(keys)) == keys
  }

  // ---------------------------------------------------------------- merging

  /** `merge_objects`: the overlay wins, except that objects merge key by key. */
  function Merge(target: map<string, Value>, overlay: map<string, Value>): map<string, Value>
    decreases Obj(overlay)
  {
    map k | k in target.Keys + overlay.Keys ::
      if k !in overlay then target[k]
      else if k in target && target[k].Obj? && overlay[k].Obj? then
        assert overlay[k] < Obj(overlay);
        Obj(Merge(target[k].fields, overlay[k].fields))
      else overlay[k]
  }

  // ---------------------------------------------------------------- `use` markers

  predicate AllText(items: seq<Value>) {
    forall i :: 0 <= i < |items| ==> items[i].Text?
  }

  function Names(items: seq<Value>): seq<string>
    requires AllText(items)
  {
    seq(|items|, i requires 0 <= i < |items| => items[i].s)
  }

  /** `parse_uses`. */
  function ParseUses(fields: map<string, Value>): Result<seq<string>, Error> {
    if USE !in fields then Ok([])
    else match fields[USE]
      case Text(name) => Ok([name])
      case Arr(items) => if AllText(items) then Ok(Names(items)) else Err(BadUse)
      case _ => Err(BadUse)
  }

  function LocalKeys(env: Env, fields: map<string, Value>): seq<string> {
    env.order(fields.Keys - {USE})
  }

  // ---------------------------------------------------------------- plain expansion

  /** Left-to-right expansion with no memo and no stack; `n` bounds how far templates may use
      templates. */
  function PlainValue(env: Env, v: Value, n: nat): Result<Value, Error>
    decreases 2 * n + 1, v, 2
  {
    match v
    case Obj(_) => PlainObject(env, v, n)
    case Arr(items) =>
      var r := PlainItems(env, v, 0, n);
      if r.Ok? then Ok(Arr(r.value)) else Err(r.error)
    case _ => Ok(v)
  }

  function PlainItems(env: Env, v: Value, i: nat, n: nat): Result<seq<Value>, Error>
    requires v.Arr? && i <= |v.items|
    decreases 2 * n + 1, v, 1, |v.items| - i
  {
    if i == |v.items| then Ok([])
    else
      var first := PlainValue(env, v.items[i], n);
      if first.Err? then Err(first.error)
      else
        var rest := PlainItems(env, v, i + 1, n);
        if rest.Err? then rest else Ok([first.value] + rest.value)
  }

  function PlainObject(env: Env, v: Value, n: nat): Result<Value, Error>
    requires v.Obj?
    decreases 2 * n + 1, v, 1
  {
    var uses := ParseUses(v.fields);
    if uses.Err? then Err(uses.error)
    else
      var merged := PlainUses(env, uses.value, map[], n);
      if merged.Err? then Err(merged.error)
      else
        var local := PlainFields(env, v, LocalKeys(env, v.fields), map[], n);
        if local.Err? then Err(local.error) else Ok(Obj(Merge(merged.value, local.value)))
  }

  function PlainUses(env: Env, names: seq<string>, merged: map<string, Value>,
                     n: nat): Result<map<string, Value>, Error>
    decreases 2 * n, |names|
  {
    if names == [] then Ok(merged)
    else if n == 0 then Err(TooDeep)
    else
      var first := PlainTemplate(env, names[0], n - 1);
      if first.Err? then Err(first.error)
      else if !first.value.Obj? then Err(NotObject(names[0]))
      else PlainUses(env, names[1..], Merge(merged, first.value.fields), n)
  }

  function PlainFields(env: Env, v: Value, keys: seq<string>, local: map<string, Value>,
                       n: nat): Result<map<string, Value>, Error>
    requires v.Obj?
    decreases 2 * n + 1, v, 0, |keys|
  {
    if keys == [] then Ok(local)
    else if keys[0] !in v.fields then PlainFields(env, v, keys[1..], local, n)
    else
      var first := PlainValue(env, v.fields[keys[0]], n);
      if first.Err? then Err(first.error)
      else PlainFields(env, v, keys[1..], local[keys[0] := first.value], n)
  }

  function PlainTemplate(env: Env, name: string, n: nat): Result<Value, Error>
    decreases 2 * n + 1
  {
    if name !in env.templates then Err(Unknown(name))
    else if !env.templates[name].Obj? then Err(NotObject(name))
    else PlainObject(env, env.templates[name], n)
  }

  // ---------------------------------------------------------------- the expander

  type Memo = map<string, Value>

  datatype Out<T> = Good(value: T, memo: Memo) | Bad(error: Error)

  /** `expand_value`, with the memo table passed along and the stack of active names. */
  function ExpandValue(env: Env, v: Value, depth: nat, stack: seq<string>, memo: Memo): Out<Value>
    requires depth <= MAX_DEPTH
    decreases 2 * (MAX_DEPTH - depth) + 3, v, 2
  {
    match v
    case Obj(_) => ExpandObject(env, v, depth, stack, memo)
    case Arr(items) =>
      var r := ExpandItems(env, v, 0, depth, stack, memo);
      if r.Good? then Good(Arr(r.value), r.memo) else Bad(r.error)
    case _ => Good(v, memo)
  }

  function ExpandItems(env: Env, v: Value, i: nat, depth: nat, stack: seq<string>, memo: Memo): Out<seq<Value>>
    requires depth <= MAX_DEPTH && v.Arr? && i <= |v.items|
    decreases 2 * (MAX_DEPTH - depth) + 3, v, 1, |v.items| - i
  {
    if i == |v.items| then Good([], memo)
    else
      var first := ExpandValue(env, v.items[i], depth, stack, memo);
      if first.Bad? then Bad(first.error)
      else
        var rest := ExpandItems(env, v, i + 1, depth, stack, first.memo);
        if rest.Bad? then rest else Good([first.value] + rest.value, rest.memo)
  }

  /** `expand_object`. */
  function ExpandObject(env: Env, v: Value, depth: nat, stack: seq<string>, memo: Memo): Out<Value>
    requires depth <= MAX_DEPTH && v.Obj?
    decreases 2 * (MAX_DEPTH - depth) + 3, v, 1
  {
    var uses := ParseUses(v.fields);
    if uses.Err? then Bad(uses.error)
    else
      var merged := ExpandUses(env, uses.value, map[], depth, stack, memo);
      if merged.Bad? then Bad(merged.error)
      else
        var local := ExpandFields(env, v, LocalKeys(env, v.fields), map[], depth, stack, merged.memo);
        if local.Bad? then Bad(local.error) else Good(Obj(Merge(merged.value, local.value)), local.memo)
  }

  function ExpandUses(env: Env, names: seq<string>, merged: map<string, Value>, depth: nat, stack: seq<string>,
                      memo: Memo): Out<map<string, Value>>
    requires depth <= MAX_DEPTH
    decreases 2 * (MAX_DEPTH - depth) + 2, |names|
  {
    if names == [] then Good(merged, memo)
    else
      var first := Resolve(env, names[0], depth + 1, stack, memo);
      if first.Bad? then Bad(first.error)
      else if !first.value.Obj? then Bad(NotObject(names[0]))
      else ExpandUses(env, names[1..], Merge(merged, first.value.fields), depth, stack, first.memo)
  }

  function ExpandFields(env: Env, v: Value, keys: seq<string>, local: map<string, Value>, depth: nat,
                        stack: seq<string>, memo: Memo): Out<map<string, Value>>
    requires depth <= MAX_DEPTH && v.Obj?
    decreases 2 * (MAX_DEPTH - depth) + 3, v, 0, |keys|
  {
    if keys == [] then Good(local, memo)
    else if keys[0] !in v.fields then ExpandFields(env, v, keys[1..], local, depth, stack, memo)
    else
      var first := ExpandValue(env, v.fields[keys[0]], depth, stack, memo);
      if first.Bad? then Bad(first.error)
      else ExpandFields(env, v, keys[1..], local[keys[0] := first.value], depth, stack, first.memo)
  }

  /** Where the name first stands on the stack, and what follows it. */
  function From(stack: seq<string>, name: string): seq<string> {
    if stack == [] || stack[0] == name then stack else From(stack[1..], name)
  }

  /** `resolve_template`: the depth limit, the memo, the active names, the table, in that
      order. */
  function Resolve(env: Env, name: string, depth: nat, stack: seq<string>, memo: Memo): Out<Value>
    requires depth <= MAX_DEPTH + 1
    decreases 2 * (MAX_DEPTH - depth) + 3
  {
    if depth > MAX_DEPTH then Bad(TooDeep)
    else if name in memo then Good(memo[name], memo)
    else if name in stack then Bad(Cycle(From(stack, name) + [name]))
    else if name !in env.templates then Bad(Unknown(name))
    else if !env.templates[name].Obj? then Bad(NotObject(name))
    else
      var r := ExpandObject(env, env.templates[name], depth, stack + [name], memo);
      if r.Bad? then r else Good(r.value, r.memo[name := r.value])
  }
}

/** The expander object of `templates.rs`: the memo table and the stack of active names are
    updated in place. Each method is proved against the function of the same name. */
module Expander {
  import opened Prelude
  import opened Sets
  import opened Templates
  import opened TemplateFacts
  import opened TemplateMeaning
  import T = Templates

  /** `merge_objects`: goes through the overlay key by key. */
  method MergeObjects(target: map<string, Value>, overlay: map<string, Value>) returns (merged: map<string, Value>)
    ensures merged == Merge(target, overlay)
    decreases Obj(overlay)
  {
    merged := target;
    var rest := overlay.Keys;
    ghost var done: set<string> := {};
    NothingMerged(target, overlay);
    while rest != {}
      invariant done + rest == overlay.Keys && done !! rest && merged == MergeSome(target, overlay, done)
      decreases |rest|
    {
      var k :| k in rest;
      MoveOne(done, rest, k);
      OneMoreMerged(target, overlay, done, k);
      var value := overlay[k];
      if k in merged && merged[k].Obj? && value.Obj? {
        assert value < Obj(overlay) && value == Obj(value.fields);
        var inner := MergeObjects(merged[k].fields, value.fields);
        merged := merged[k := Obj(inner)];
      } else {
        merged := merged[k := value];
      }
      rest, done := rest - {k}, done + {k};
    }
    AllMerged(target, overlay, done);
  }

  /** Only some keys of the overlay have been merged. */
  ghost function MergeSome(target: map<string, Value>, overlay: map<string, Value>,
                           done: set<string>): map<string, Value>
    requires done <= overlay.Keys
  {
    map k | k in target.Keys + done :: if k in done then Merge(target, overlay)[k] else target[k]
  }

  lemma NothingMerged(target: map<string, Value>, overlay: map<string, Value>)
    ensures MergeSome(target, overlay, {}) == target
  {
  }

  lemma AllMerged(target: map<string, Value>, overlay: map<string, Value>, done: set<string>)
    requires done == overlay.Keys
    ensures MergeSome(target, overlay, done) == Merge(target, overlay)
  {
  }

  lemma OneMoreMerged(target: map<string, Value>, overlay: map<string, Value>, done: set<string>, k: string)
    requires done <= overlay.Keys && k in overlay && k !in done
    ensures var now := MergeSome(target, overlay, done);
            && (k in now <==> k in target) && (k in target ==> now[k] == target[k])
            && MergeSome(target, overlay, done + {k}) ==
               now[k := if k in target && target[k].Obj?
                   && overlay[k].Obj? then Obj(Merge(target[k].fields, overlay[k].fields)) else overlay[k]]
  {
  }

  /** The method's result and the new memo are those of the function. */
  ghost predicate Agrees<X>(out: Out<X>, r: Result<X, Error>, memo: Memo) {
    if out.Good? then r == Ok(out.value) && memo == out.memo else r == Err(out.error)
  }

  class Expander {
    const env: Env
    var resolved: Memo
    var stack: seq<string>

    constructor (env: Env)
      ensures this.env == env && resolved == map[] && stack == []
    {
      this.env := env;
      resolved := map[];
      stack := [];
    }

    method ExpandValue(v: Value, depth: nat) returns (r: Result<Value, Error>)
      requires depth <= MAX_DEPTH
      modifies this
      ensures stack == old(stack)
      ensures Agrees(T.ExpandValue(env, v, depth, old(stack), old(resolved)), r, resolved)
      decreases 2 * (MAX_DEPTH - depth) + 3, v, 2
    {
      match v {
        case Obj(_) =>
          r := ExpandObject(v, depth);
        case Arr(items) =>
          var expanded: seq<Value> := [];
          ghost var whole := T.ExpandItems(env, v, 0, depth, stack, resolved);
          JoinNothing(whole);
          for i := 0 to |items|
            invariant stack == old(stack)
            invariant whole == Join(expanded, T.ExpandItems(env, v, i, depth, stack, resolved))
          {
            ghost var next := T.ExpandValue(env, items[i], depth, stack, resolved);
            var item := ExpandValue(items[i], depth);
            if item.Err? {
              return Err(item.error);
            }
            JoinOne(expanded, item.value, T.ExpandItems(env, v, i + 1, depth, stack, next.memo));
            expanded := expanded + [item.value];
          }
          JoinAll(expanded, resolved);
          r := Ok(Arr(expanded));
        case _ =>
          r := Ok(v);
      }
    }

    method ExpandObject(v: Value, depth: nat) returns (r: Result<Value, Error>)
      requires depth <= MAX_DEPTH && v.Obj?
      modifies this
      ensures stack == old(stack)
      ensures Agrees(T.ExpandObject(env, v, depth, old(stack), old(resolved)), r, resolved)
      decreases 2 * (MAX_DEPTH - depth) + 3, v, 1
    {
      var uses := ParseUses(v.fields);
      if uses.Err? {
        return Err(uses.error);
      }
      var merged := ApplyUses(uses.value, depth);
      if merged.Err? {
        return Err(merged.error);
      }
      var local := ExpandLocal(v, depth);
      if local.Err? {
        return Err(local.error);
      }
      var all := MergeObjects(merged.value, local.value);
      r := Ok(Obj(all));
    }

    /** The loop over the `use` names, left to right. */
    method ApplyUses(names: seq<string>, depth: nat) returns (r: Result<map<string, Value>, Error>)
      requires depth <= MAX_DEPTH
      modifies this
      ensures stack == old(stack)
      ensures Agrees(T.ExpandUses(env, names, map[], depth, old(stack), old(resolved)), r, resolved)
      ensures forall n: nat :: r.Ok? && Enumerates(env.order) && MemoSound(env, old(resolved), n) ==>
                Stacks(env.templates, names, Obj(r.value))
      decreases 2 * (MAX_DEPTH - depth) + 2
    {
      var merged := map[];
      ghost var whole := T.ExpandUses(env, names, map[], depth, stack, resolved);
      for i := 0 to |names|
        invariant stack == old(stack) && T.ExpandUses(env, names[i..], merged, depth, stack, resolved) == whole
      {
        assert names[i..][0] == names[i] && names[i..][1..] == names[i + 1..];
        var template := ResolveTemplate(names[i], depth + 1);
        if template.Err? {
          return Err(template.error);
        }
        if !template.value.Obj? {
          return Err(NotObject(names[i]));
        }
        merged := MergeObjects(merged, template.value.fields);
      }
      r := Ok(merged);
      forall n: nat | Enumerates(env.order) && MemoSound(env, old(resolved), n)
        ensures Stacks(env.templates, names, Obj(merged))
      {
        UsesStack(env, names, depth, stack, old(resolved), n);
      }
    }

    /** The loop over the other fields. */
    method ExpandLocal(v: Value, depth: nat) returns (r: Result<map<string, Value>, Error>)
      requires depth <= MAX_DEPTH && v.Obj?
      modifies this
      ensures stack == old(stack)
      ensures Agrees(T.ExpandFields(env, v, LocalKeys(env, v.fields), map[], depth, old(stack), old(resolved)), r,
                     resolved)
      decreases 2 * (MAX_DEPTH - depth) + 3, v, 0
    {
      var keys, local := LocalKeys(env, v.fields), map[];
      ghost var whole := T.ExpandFields(env, v, keys, map[], depth, stack, resolved);
      for i := 0 to |keys|
        invariant stack == old(stack) && T.ExpandFields(env, v, keys[i..], local, depth, stack, resolved) == whole
      {
        assert keys[i..][0] == keys[i] && keys[i..][1..] == keys[i + 1..];
        if keys[i] in v.fields {
          var value := ExpandValue(v.fields[keys[i]], depth);
          if value.Err? {
            return Err(value.error);
          }
          local := local[keys[i] := value.value];
        }
      }
      r := Ok(local);
    }

    method ResolveTemplate(name: string, depth: nat) returns (r: Result<Value, Error>)
      requires depth <= MAX_DEPTH + 1
      modifies this
      ensures stack == old(stack)
      ensures Agrees(T.Resolve(env, name, depth, old(stack), old(resolved)), r, resolved)
      decreases 2 * (MAX_DEPTH - depth) + 3
    {
      if depth > MAX_DEPTH {
        return Err(TooDeep);
      }
      if name in resolved {
        return Ok(resolved[name]);
      }
      if name in stack {
        return Err(Cycle(From(stack, name) + [name]));
      }
      if name !in env.templates {
        return Err(Unknown(name));
      }
      if !env.templates[name].Obj? {
        return Err(NotObject(name));
      }
      stack := stack + [name];
      var expanded := ExpandObject(env.templates[name], depth);
      stack := stack[..|stack| - 1];
      if expanded.Err? {
        return expanded;
      }
      resolved := resolved[name := expanded.value];
      r := expanded;
    }
  }

  /** Values already expanded, before those still to come. */
  ghost function Join(done: seq<Value>, rest: Out<seq<Value>>): Out<seq<Value>> {
    if rest.Good? then Good(done + rest.value, rest.memo) else rest
  }

  lemma JoinNothing(rest: Out<seq<Value>>)
    ensures Join([], rest) == rest
  {
    assert rest.Good? ==> [] + rest.value == rest.value;
  }

  lemma JoinOne(done: seq<Value>, x: Value, rest: Out<seq<Value>>)
    ensures Join(done, if rest.Bad? then rest else Good([x] + rest.value, rest.memo)) == Join(done + [x], rest)
  {
    assert rest.Good? ==> done + ([x] + rest.value) == done + [x] + rest.value;
  }

  lemma JoinAll(done: seq<Value>, memo: Memo)
    ensures Join(done, Good([], memo)) == Good(done, memo)
  {
    assert done + [] == done;
  }

  // ---------------------------------------------------------------- documents

  /** Errors of `expand_templates`. The structural limits of `limits.rs` are parameters. */
  datatype DocError = OutOfBounds | OutputTooLarge | InTemplate(error: Error)

  /** The document without its templates. */
  function RootOf(value: Value): Value {
    if value.Obj? then Obj(value.fields - {TEMPLATES}) else value
  }

  function TemplatesOf(value: Value): map<string, Value> {
    if value.Obj? && TEMPLATES in value.fields && value.fields[TEMPLATES].Obj? then value.fields[TEMPLATES].fields
    else map[]
  }

  predicate TemplatesProper(value: Value) {
    && (value.Obj? && TEMPLATES in value.fields ==> value.fields[TEMPLATES].Obj?)
    && forall name :: name in TemplatesOf(value) ==> TemplatesOf(value)[name].Obj?
  }

  /** The parts of a document: the value without its `templates`, and those templates. */
  ghost predicate Parts(document: Value, root: Value, templates: map<string, Value>) {
    if document.Obj? then
      && root.Obj? && (forall k :: k in root.fields <==> k in document.fields && k != "templates")
      && (forall k :: k in root.fields ==> root.fields[k] == document.fields[k])
      && if "templates" in document.fields then document.fields["templates"] == Obj(templates) else templates == map[]
    else root == document && templates == map[]
  }

  /** What the document means; templates may use templates so many levels deep. */
  ghost predicate DocumentMeans(document: Value, out: Value, levels: nat) {
    exists root: Value, templates: map<string, Value> ::
      && Parts(document, root, templates) && (forall name :: name in templates ==> templates[name].Obj?)
      && Means(templates, root, out, levels)
  }

  lemma DocumentIs(document: Value, order: set<string> -> seq<string>, out: Value, levels: nat)
    requires Enumerates(order)
    ensures DocumentMeans(document, out, levels) <==>
              && TemplatesProper(document)
              && PlainValue(Env(TemplatesOf(document), order), RootOf(document), levels) == Ok(out)
  {
    hide Means, PlainValue;
    PlainIffMeans(Env(TemplatesOf(document), order), RootOf(document), out, levels);
    if TemplatesProper(document) {
      assert Parts(document, RootOf(document), TemplatesOf(document));
    }
    forall root, templates | Parts(document, root, templates)
      ensures root == RootOf(document) && templates == TemplatesOf(document)
    {
      if document.Obj? {
        assert root.fields == document.fields - {TEMPLATES};
      }
    }
  }

  /** `expand_templates`: it returns only what the document means, free of markers; and it
      returns that whenever templates use templates no more than 64 levels deep and the limits
      allow. */
  method ExpandTemplates(value: Value, order: set<string> -> seq<string>, valid: Value -> bool, fits: Value -> bool)
    returns (r: Result<Value, DocError>)
    requires Enumerates(order)
    ensures r.Ok? ==> valid(value) && valid(r.value) && fits(r.value) && NoUse(r.value)
    ensures r.Ok? ==> exists levels: nat :: DocumentMeans(value, r.value, levels)
    ensures forall out :: valid(value) && DocumentMeans(value, out, 64) && valid(out) && fits(out) ==> r == Ok(out)
    ensures r.Err? && r.error.InTemplate? && r.error.error != BadTemplates && TemplatesProper(value) ==>
              Justified(Env(TemplatesOf(value), order), RootOf(value), r.error.error)
  {
    hide DocumentMeans;
    forall out, levels
      ensures DocumentMeans(value, out, levels) <==>
                && TemplatesProper(value)
                && PlainValue(Env(TemplatesOf(value), order), RootOf(value), levels) == Ok(out)
    {
      DocumentIs(value, order, out, levels);
    }
    if !valid(value) {
      return Err(OutOfBounds);
    }
    if value.Obj? && TEMPLATES in value.fields && !value.fields[TEMPLATES].Obj? {
      return Err(InTemplate(BadTemplates));
    }
    var env := Env(TemplatesOf(value), order);
    var names := order(env.templates.Keys);
    for i := 0 to |names|
      invariant forall j :: 0 <= j < i ==> env.templates[names[j]].Obj?
    {
      assert names[i] in Elements(names);
      if !env.templates[names[i]].Obj? {
        return Err(InTemplate(NotObject(names[i])));
      }
    }
    assert TemplatesProper(value) by {
      assert forall name :: name in env.templates ==> name in Elements(names);
    }
    var resolver := new Expander(env);
    var expanded := resolver.ExpandValue(RootOf(value), 0);
    ghost var out := T.ExpandValue(env, RootOf(value), 0, [], map[]);
    if PlainValue(env, RootOf(value), MAX_DEPTH).Ok? {
      PlainSucceeds(env, RootOf(value));
    }
    if expanded.Err? {
      ErrorsAreJustified(env, RootOf(value));
      return Err(InTemplate(expanded.error));
    }
    ghost var n := ExpansionIsPlain(env, RootOf(value));
    assert DocumentMeans(value, expanded.value, n);
    if !valid(expanded.value) {
      return Err(OutOfBounds);
    }
    if !fits(expanded.value) {
      return Err(OutputTooLarge);
    }
    r := Ok(expanded.value);
  }

  // ---------------------------------------------------------------- the merge

  /** The value at a path of keys. */
  function At(v: Value, path: seq<string>): Option<Value> {
    if path == [] then Some(v)
    else if v.Obj? && path[0] in v.fields then At(v.fields[path[0]], path[1..])
    else None
  }

  /** Both values are objects all the way along the path, the end included. */
  predicate BothObjects(a: Value, b: Value, path: seq<string>) {
    && a.Obj? && b.Obj?
    && (path != [] ==> path[0] in a.fields && path[0] in b.fields
                       && BothObjects(a.fields[path[0]], b.fields[path[0]], path[1..]))
  }

  /** What a merge holds at a path: where the two sides part, the overlay wins if it has
      anything there, and the target remains otherwise. */
  lemma {:induction false} MergeAt(target: map<string, Value>, overlay: map<string, Value>, path: seq<string>)
    requires path != []
    ensures var merged := At(Obj(Merge(target, overlay)), path);
            var over := At(Obj(overlay), path);
            && (over.Some? && !BothObjects(Obj(target), Obj(overlay), path) ==> merged == over)
            && (over.None? && BothObjects(Obj(target), Obj(overlay), path[..|path| - 1]) ==>
                  merged == At(Obj(target), path))
    decreases path
  {
    var k, rest, merged := path[0], path[1..], Merge(target, overlay);
    assert At(Obj(merged), path) == if k in merged then At(merged[k], rest) else None;
    assert At(Obj(overlay), path) == if k in overlay then At(overlay[k], rest) else None;
    assert At(Obj(target), path) == if k in target then At(target[k], rest) else None;
    if k in target && k in overlay && target[k].Obj? && overlay[k].Obj? {
      assert target[k] == Obj(target[k].fields) && overlay[k] == Obj(overlay[k].fields);
      assert BothObjects(Obj(target), Obj(overlay), path) == BothObjects(target[k], overlay[k], rest);
      if rest != [] {
        assert path[..|path| - 1][1..] == rest[..|rest| - 1];
        MergeAt(target[k].fields, overlay[k].fields, rest);
      }
    } else if k !in overlay {
      assert |path| > 1 ==> path[..|path| - 1][0] == k;
    } else {
      assert merged[k] == overlay[k];
      assert |path| > 1 ==> path[..|path| - 1][0] == k;
      assert |path| > 1 ==> !BothObjects(Obj(target), Obj(overlay), path[..|path| - 1]);
    }
  }

  lemma {:induction false} SeenAt(v: Value, path: seq<string>)
    ensures At(v, path).Some? <==> See(v, path).Leaf? || See(v, path).Branch?
    ensures At(v, path).Some? ==> At(v, path).value.Obj? == See(v, path).Branch?
    ensures See(v, path).Leaf? ==> At(v, path) == Some(See(v, path).value)
    decreases path
  {
    if path != [] && v.Obj? && path[0] in v.fields {
      SeenAt(v.fields[path[0]], path[1..]);
    }
  }

  /** What an object made of layers holds at a path: what the last layer that speaks of the path
      holds there. */
  lemma LastLayerAt(v: Value, layers: seq<Value>, path: seq<string>, i: nat)
    requires MadeOf(v, layers) && path != [] && i < |layers| && See(layers[i], path) != Nothing
    requires forall j :: i < j < |layers| ==> See(layers[j], path) == Nothing
    ensures At(layers[i], path).Some? && !At(layers[i], path).value.Obj? ==> At(v, path) == At(layers[i], path)
    ensures At(layers[i], path).Some? && At(layers[i], path).value.Obj? ==>
              At(v, path).Some? && At(v, path).value.Obj?
    ensures At(layers[i], path).None? ==> At(v, path).None?
  {
    TopmostIs(layers, i, path);
    assert Alike(See(v, path), Topmost(layers, path));
    SeenAt(v, path);
    SeenAt(layers[i], path);
  }

  /** Merging is not associative: the fold over `use` names must run from left to right. */
  lemma MergeIsNotAssociative(k: string, a: string, b: string)
    requires a != b
    ensures var x := map[k := Obj(map[a := Scalar("1")])];
            var y := map[k := Scalar("2")];
            var z := map[k := Obj(map[b := Scalar("3")])];
            Merge(Merge(x, y), z) != Merge(x, Merge(y, z))
  {
    var x := map[k := Obj(map[a := Scalar("1")])];
    var y := map[k := Scalar("2")];
    var z := map[k := Obj(map[b := Scalar("3")])];
    assert Merge(y, z)[k] == z[k];
    assert Merge(x, Merge(y, z))[k] == Obj(Merge(x[k].fields, z[k].fields));
    assert a in Merge(x, Merge(y, z))[k].fields;
    assert Merge(x, y)[k] == y[k];
    assert Merge(Merge(x, y), z)[k] == z[k];
  }
}

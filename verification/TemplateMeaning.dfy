/** What a document with templates means, said without saying how to expand it: an object is
    its layers, one for each name in its `use` marker and its own fields on top, and at every
    path of keys the topmost layer that speaks of the path decides. */
module TemplateMeaning {
  import opened Prelude
  import opened Sets
  import opened Templates
  import opened TemplateFacts

  // ---------------------------------------------------------------- paths

  /** What stands at a path of keys: nothing, something in the way, an object, or a value. */
  datatype Seen = Nothing | Blocked | Branch | Leaf(value: Value)

  function See(v: Value, path: seq<string>): Seen {
    if path == [] then (if v.Obj? then Branch else Leaf(v))
    else if !v.Obj? then Blocked
    else if path[0] !in v.fields then Nothing
    else See(v.fields[path[0]], path[1..])
  }

  /** The same, up to why there is nothing. */
  predicate Alike(a: Seen, b: Seen) {
    a == b || (a in {Nothing, Blocked} && b in {Nothing, Blocked})
  }

  /** What the topmost layer that speaks of the path shows. */
  function Topmost(layers: seq<Value>, path: seq<string>): Seen {
    if layers == [] then Nothing
    else
      var top := See(layers[|layers| - 1], path);
      if top != Nothing then top else Topmost(layers[..|layers| - 1], path)
  }

  /** The object is made of these layers, later ones over earlier ones. */
  ghost predicate MadeOf(v: Value, layers: seq<Value>) {
    v.Obj? && forall path :: path != [] ==> Alike(See(v, path), Topmost(layers, path))
  }

  /** One layer over another. */
  lemma {:induction false} MergeSees(target: map<string, Value>, overlay: map<string, Value>, path: seq<string>)
    requires path != []
    ensures var over := See(Obj(overlay), path);
            Alike(See(Obj(Merge(target, overlay)), path), if over == Nothing then See(Obj(target), path) else over)
    decreases |path|
  {
    var k, rest, merged := path[0], path[1..], Merge(target, overlay);
    assert See(Obj(merged), path) == if k in merged then See(merged[k], rest) else Nothing;
    assert See(Obj(overlay), path) == if k in overlay then See(overlay[k], rest) else Nothing;
    assert See(Obj(target), path) == if k in target then See(target[k], rest) else Nothing;
    if k in target && k in overlay && target[k].Obj? && overlay[k].Obj? {
      assert target[k] == Obj(target[k].fields) && overlay[k] == Obj(overlay[k].fields);
      if rest != [] {
        MergeSees(target[k].fields, overlay[k].fields, rest);
      }
    }
  }

  lemma OneMoreLayer(target: map<string, Value>, layers: seq<Value>, top: map<string, Value>)
    requires MadeOf(Obj(target), layers)
    ensures MadeOf(Obj(Merge(target, top)), layers + [Obj(top)])
  {
    hide See, Merge;
    forall path: seq<string> | path != []
      ensures Alike(See(Obj(Merge(target, top)), path), Topmost(layers + [Obj(top)], path))
    {
      MergeSees(target, top, path);
      assert (layers + [Obj(top)])[..|layers|] == layers;
      assert Alike(See(Obj(target), path), Topmost(layers, path));
    }
  }

  /** The layers leave no choice. */
  lemma {:induction false} MadeOfOnce(a: Value, b: Value, layers: seq<Value>)
    requires MadeOf(a, layers) && MadeOf(b, layers)
    ensures a == b
  {
    hide Topmost;
    forall path: seq<string> | path != []
      ensures Alike(See(a, path), See(b, path))
    {
      assert Alike(See(a, path), Topmost(layers, path)) && Alike(See(b, path), Topmost(layers, path));
    }
    SameToSee(a, b);
  }

  lemma SeeUnder(v: Value, k: string, path: seq<string>)
    requires v.Obj?
    ensures See(v, [k] + path) == if k in v.fields then See(v.fields[k], path) else Nothing
  {
    assert ([k] + path)[1..] == path;
  }

  lemma {:induction false} SameToSee(a: Value, b: Value)
    requires a.Obj? && b.Obj? && forall path :: path != [] ==> Alike(See(a, path), See(b, path))
    ensures a == b
    decreases a
  {
    forall k, path: seq<string>
      ensures Alike(if k in a.fields then See(a.fields[k], path) else Nothing,
                    if k in b.fields then See(b.fields[k], path) else Nothing)
    {
      SeeUnder(a, k, path);
      SeeUnder(b, k, path);
      assert Alike(See(a, [k] + path), See(b, [k] + path));
    }
    forall k
      ensures k in a.fields <==> k in b.fields
    {
      assert k in a.fields ==> See(a.fields[k], []) in {Branch, Leaf(a.fields[k])};
      assert k in b.fields ==> See(b.fields[k], []) in {Branch, Leaf(b.fields[k])};
    }
    forall k | k in a.fields
      ensures a.fields[k] == b.fields[k]
    {
      assert Alike(See(a.fields[k], []), See(b.fields[k], []));
      if a.fields[k].Obj? {
        SameToSee(a.fields[k], b.fields[k]);
      }
    }
    assert a.fields == b.fields;
  }

  // ---------------------------------------------------------------- meaning

  /** The templates an object uses, in the order of its marker: none, one, or a list. */
  ghost predicate UsesInOrder(fields: map<string, Value>, names: seq<string>) {
    if "use" !in fields then names == []
    else
      || (|names| == 1 && fields["use"] == Text(names[0]))
      || (fields["use"].Arr? && |fields["use"].items| == |names|
          && forall i :: 0 <= i < |names| ==> fields["use"].items[i] == Text(names[i]))
  }

  /** The value means this value without templates; `n` bounds how far templates use templates. */
  ghost predicate Means(templates: map<string, Value>, v: Value, out: Value, n: nat)
    decreases n, v, 1
  {
    match v
    case Obj(fields) =>
      exists names, layers ::
        UsesInOrder(fields, names) && LayersOf(templates, v, names, layers, n) && MadeOf(out, layers)
    case Arr(items) =>
      && out.Arr? && |out.items| == |items|
      && forall i :: 0 <= i < |items| ==> Means(templates, items[i], out.items[i], n)
    case _ => out == v
  }

  /** A layer for what each used template means, in order, and one for the object's own fields. */
  ghost predicate LayersOf(templates: map<string, Value>, v: Value, names: seq<string>, layers: seq<Value>, n: nat)
    requires v.Obj?
    decreases n, v, 0
  {
    && |layers| == |names| + 1
    && (forall i :: 0 <= i < |names| ==>
          && n > 0 && names[i] in templates && templates[names[i]].Obj?
          && Means(templates, templates[names[i]], layers[i], n - 1))
    && layers[|names|].Obj?
    && (forall k :: k in layers[|names|].fields <==> k in v.fields && k != "use")
    && forall k :: k in v.fields && k != "use" ==> Means(templates, v.fields[k], layers[|names|].fields[k], n)
  }

  lemma ParsedInOrder(fields: map<string, Value>, names: seq<string>)
    ensures ParseUses(fields) == Ok(names) <==> UsesInOrder(fields, names)
  {
    assert |names| == 1 ==> names == [names[0]];
    if USE in fields && fields[USE].Arr? {
      var items := fields[USE].items;
      if UsesInOrder(fields, names) {
        assert AllText(items) && Names(items) == names;
      }
      if ParseUses(fields) == Ok(names) {
        assert forall i :: 0 <= i < |names| ==> items[i] == Text(names[i]);
      }
    }
  }

  // ---------------------------------------------------------------- plain expansion

  /** The fields of an object, each expanded. */
  lemma {:induction false} FieldsMade(env: Env, v: Value, keys: seq<string>, local: map<string, Value>, n: nat)
    requires v.Obj? && PlainFields(env, v, keys, local, n).Ok?
    ensures var made := PlainFields(env, v, keys, local, n).value;
            && (forall k :: k in made <==> k in local || (k in keys && k in v.fields))
            && (forall k :: k in keys && k in v.fields ==>
                  PlainValue(env, v.fields[k], n).Ok? && made[k] == PlainValue(env, v.fields[k], n).value)
            && (forall k :: k in local && k !in keys ==> made[k] == local[k])
    decreases |keys|
  {
    if keys != [] {
      var more := if keys[0] in v.fields then local[keys[0] := PlainValue(env, v.fields[keys[0]], n).value] else local;
      FieldsMade(env, v, keys[1..], more, n);
      assert forall k :: k in keys <==> k == keys[0] || k in keys[1..];
    }
  }

  /** The expansions of the named templates. */
  function Expansions(env: Env, names: seq<string>, n: nat): seq<Value>
    requires forall i :: 0 <= i < |names| ==> PlainTemplate(env, names[i], n).Ok?
  {
    seq(|names|, i requires 0 <= i < |names| => PlainTemplate(env, names[i], n).value)
  }

  lemma {:induction false} UsesMade(env: Env, names: seq<string>, merged: map<string, Value>, below: seq<Value>, n: nat)
    requires PlainUses(env, names, merged, n).Ok? && MadeOf(Obj(merged), below)
    ensures names != [] ==> n > 0
    ensures forall i :: 0 <= i < |names| ==> PlainTemplate(env, names[i], n - 1).Ok?
    ensures names != [] ==>
              MadeOf(Obj(PlainUses(env, names, merged, n).value), below + Expansions(env, names, n - 1))
    decreases |names|
  {
    hide MadeOf, Merge, PlainTemplate;
    if names != [] {
      var first := PlainTemplate(env, names[0], n - 1).value;
      var next := Merge(merged, first.fields);
      OneMoreLayer(merged, below, first.fields);
      UsesMade(env, names[1..], next, below + [first], n);
      var all := Expansions(env, names, n - 1);
      forall i | 0 <= i < |names|
        ensures PlainTemplate(env, names[i], n - 1).Ok?
      {
        assert i > 0 ==> names[i] == names[1..][i - 1];
      }
      if names[1..] == [] {
        assert all == [first];
      } else {
        assert all == [first] + Expansions(env, names[1..], n - 1);
        assert below + [first] + Expansions(env, names[1..], n - 1) == below + all;
      }
    }
  }

  lemma EmptyMadeOf()
    ensures MadeOf(Obj(map[]), [])
  {
  }

  /** Every plain expansion is what the value means. */
  lemma {:induction false} PlainMeans(env: Env, v: Value, n: nat)
    requires Enumerates(env.order) && PlainValue(env, v, n).Ok?
    ensures Means(env.templates, v, PlainValue(env, v, n).value, n)
    decreases n, v, 1
  {
    match v
    case Obj(fields) =>
      var names, layers := ObjectLayers(env, v, n);
    case Arr(items) =>
      ItemsMade(env, v, 0, n);
      forall i | 0 <= i < |items|
        ensures Means(env.templates, items[i], PlainValue(env, v, n).value.items[i], n)
      {
        PlainMeans(env, items[i], n);
      }
    case _ =>
  }

  lemma {:induction false} ItemsMade(env: Env, v: Value, i: nat, n: nat)
    requires v.Arr? && i <= |v.items| && PlainItems(env, v, i, n).Ok?
    ensures var made := PlainItems(env, v, i, n).value;
            && |made| == |v.items| - i
            && forall j :: i <= j < |v.items| ==> PlainValue(env, v.items[j], n) == Ok(made[j - i])
    decreases |v.items| - i
  {
    if i < |v.items| {
      ItemsMade(env, v, i + 1, n);
    }
  }

  lemma {:induction false} ObjectLayers(env: Env, v: Value, n: nat) returns (names: seq<string>, layers: seq<Value>)
    requires Enumerates(env.order) && v.Obj? && PlainObject(env, v, n).Ok?
    ensures UsesInOrder(v.fields, names) && LayersOf(env.templates, v, names, layers, n)
    ensures MadeOf(PlainObject(env, v, n).value, layers)
    decreases n, v, 0
  {
    hide MadeOf, Merge, UsesInOrder, Means, PlainUses, PlainFields;
    names := ParseUses(v.fields).value;
    ParsedInOrder(v.fields, names);
    var merged, local := PlainUses(env, names, map[], n).value, PlainFields(env, v, LocalKeys(env, v.fields), map[],
                                                                            n).value;
    EmptyMadeOf();
    UsesMade(env, names, map[], [], n);
    var under := if names == [] then [] else Expansions(env, names, n - 1);
    assert names != [] ==> [] + under == under;
    assert names == [] ==> merged == map[] by {
      NoUses(env, n);
    }
    OneMoreLayer(merged, under, local);
    layers := under + [Obj(local)];
    forall i | 0 <= i < |names|
      ensures names[i] in env.templates && env.templates[names[i]].Obj?
      ensures Means(env.templates, env.templates[names[i]], layers[i], n - 1)
    {
      TemplateMade(env, names[i], n - 1);
      PlainMeans(env, env.templates[names[i]], n - 1);
    }
    LocalMade(env, v, n);
    forall k | k in v.fields && k != "use"
      ensures Means(env.templates, v.fields[k], local[k], n)
    {
      PlainMeans(env, v.fields[k], n);
    }
  }

  lemma NoUses(env: Env, n: nat)
    ensures PlainUses(env, [], map[], n) == Ok(map[])
  {
  }

  lemma TemplateMade(env: Env, name: string, n: nat)
    requires PlainTemplate(env, name, n).Ok?
    ensures name in env.templates && env.templates[name].Obj?
    ensures PlainValue(env, env.templates[name], n) == PlainTemplate(env, name, n)
  {
    hide PlainObject;
  }

  lemma LocalMade(env: Env, v: Value, n: nat)
    requires Enumerates(env.order) && v.Obj? && PlainFields(env, v, LocalKeys(env, v.fields), map[], n).Ok?
    ensures var local := PlainFields(env, v, LocalKeys(env, v.fields), map[], n).value;
            && (forall k :: k in local <==> k in v.fields && k != "use")
            && forall k :: k in v.fields && k != "use" ==> PlainValue(env, v.fields[k], n) == Ok(local[k])
  {
    hide PlainValue, PlainFields;
    var keys := LocalKeys(env, v.fields);
    FieldsMade(env, v, keys, map[], n);
    assert forall k :: k in keys <==> k in Elements(keys);
  }

  /** A value means one thing only, whatever the bounds. */
  lemma {:induction false} MeansOnce(templates: map<string, Value>, v: Value, a: Value, n: nat, b: Value, m: nat)
    requires Means(templates, v, a, n) && Means(templates, v, b, m)
    ensures a == b
    decreases n, v, 1
  {
    match v
    case Obj(fields) =>
      hide LayersOf, MadeOf;
      var names: seq<string>, layers: seq<Value> :|
        UsesInOrder(fields, names) && LayersOf(templates, v, names, layers, n) && MadeOf(a, layers);
      var names': seq<string>, layers': seq<Value> :|
        UsesInOrder(fields, names') && LayersOf(templates, v, names', layers', m) && MadeOf(b, layers');
      SameNames(fields, names, names');
      LayersOnce(templates, v, names, layers, n, layers', m);
      MadeOfOnce(a, b, layers);
    case Arr(items) =>
      forall i | 0 <= i < |items|
        ensures a.items[i] == b.items[i]
      {
        MeansOnce(templates, items[i], a.items[i], n, b.items[i], m);
      }
      assert a.items == b.items;
    case _ =>
  }

  lemma {:induction false} LayersOnce(templates: map<string, Value>, v: Value, names: seq<string>, a: seq<Value>,
                                      n: nat,
                                      b: seq<Value>, m: nat)
    requires v.Obj? && LayersOf(templates, v, names, a, n) && LayersOf(templates, v, names, b, m)
    ensures a == b
    decreases n, v, 0
  {
    hide Means;
    forall i | 0 <= i < |names|
      ensures a[i] == b[i]
    {
      MeansOnce(templates, templates[names[i]], a[i], n - 1, b[i], m - 1);
    }
    var own, own' := a[|names|], b[|names|];
    forall k | k in v.fields && k != "use"
      ensures own.fields[k] == own'.fields[k]
    {
      MeansOnce(templates, v.fields[k], own.fields[k], n, own'.fields[k], m);
    }
    assert own.fields == own'.fields;
    assert own == own';
  }

  lemma SameNames(fields: map<string, Value>, a: seq<string>, b: seq<string>)
    requires UsesInOrder(fields, a) && UsesInOrder(fields, b)
    ensures a == b
  {
    ParsedInOrder(fields, a);
    ParsedInOrder(fields, b);
  }

  // ---------------------------------------------------------------- what has a meaning expands

  lemma {:induction false} UsesOk(env: Env, names: seq<string>, merged: map<string, Value>, n: nat)
    requires names != [] ==> n > 0
    requires forall i :: 0 <= i < |names| ==>
               PlainTemplate(env, names[i], n - 1).Ok? && PlainTemplate(env, names[i], n - 1).value.Obj?
    ensures PlainUses(env, names, merged, n).Ok?
    decreases |names|
  {
    hide PlainTemplate, Merge;
    if names != [] {
      forall i | 0 <= i < |names[1..]|
        ensures PlainTemplate(env, names[1..][i], n - 1).Ok? && PlainTemplate(env, names[1..][i], n - 1).value.Obj?
      {
        assert names[1..][i] == names[i + 1];
      }
      UsesOk(env, names[1..], Merge(merged, PlainTemplate(env, names[0], n - 1).value.fields), n);
    }
  }

  lemma {:induction false} FieldsOk(env: Env, v: Value, keys: seq<string>, local: map<string, Value>, n: nat)
    requires v.Obj? && forall k :: k in keys && k in v.fields ==> PlainValue(env, v.fields[k], n).Ok?
    ensures PlainFields(env, v, keys, local, n).Ok?
    decreases |keys|
  {
    if keys != [] {
      var more := if keys[0] in v.fields then local[keys[0] := PlainValue(env, v.fields[keys[0]], n).value] else local;
      FieldsOk(env, v, keys[1..], more, n);
    }
  }

  lemma {:induction false} ItemsOk(env: Env, v: Value, i: nat, n: nat)
    requires v.Arr? && i <= |v.items| && forall j :: i <= j < |v.items| ==> PlainValue(env, v.items[j], n).Ok?
    ensures PlainItems(env, v, i, n).Ok?
    decreases |v.items| - i
  {
    if i < |v.items| {
      ItemsOk(env, v, i + 1, n);
    }
  }

  lemma {:induction false} MeaningExpands(env: Env, v: Value, out: Value, n: nat)
    requires Enumerates(env.order) && Means(env.templates, v, out, n)
    ensures PlainValue(env, v, n).Ok?
    decreases n, v
  {
    match v
    case Obj(fields) =>
      var names: seq<string>, layers: seq<Value> :|
        UsesInOrder(fields, names) && LayersOf(env.templates, v, names, layers, n) && MadeOf(out, layers);
      hide MadeOf, Merge;
      ParsedInOrder(fields, names);
      forall i | 0 <= i < |names|
        ensures PlainTemplate(env, names[i], n - 1).Ok? && PlainTemplate(env, names[i], n - 1).value.Obj?
      {
        MeaningExpands(env, env.templates[names[i]], layers[i], n - 1);
      }
      UsesOk(env, names, map[], n);
      var keys := LocalKeys(env, fields);
      forall k | k in keys && k in fields
        ensures PlainValue(env, fields[k], n).Ok?
      {
        assert k in Elements(keys);
        MeaningExpands(env, fields[k], layers[|names|].fields[k], n);
      }
      FieldsOk(env, v, keys, map[], n);
    case Arr(items) =>
      forall i | 0 <= i < |items|
        ensures PlainValue(env, items[i], n).Ok?
      {
        MeaningExpands(env, items[i], out.items[i], n);
      }
      ItemsOk(env, v, 0, n);
    case _ =>
  }

  /** Plain expansion gives exactly what the value means. */
  lemma PlainIffMeans(env: Env, v: Value, out: Value, n: nat)
    requires Enumerates(env.order)
    ensures PlainValue(env, v, n) == Ok(out) <==> Means(env.templates, v, out, n)
  {
    hide PlainValue, Means;
    if PlainValue(env, v, n).Ok? {
      PlainMeans(env, v, n);
    }
    if Means(env.templates, v, out, n) {
      MeaningExpands(env, v, out, n);
      MeansOnce(env.templates, v, out, n, PlainValue(env, v, n).value, n);
    }
  }

  /** Whatever the expander returns, with its memo and its stack, is what the document means; and
      what a document means, it returns, if templates use templates at most 64 levels deep. */
  lemma ExpansionIffMeaning(env: Env, root: Value)
    requires Enumerates(env.order)
    ensures var out := ExpandValue(env, root, 0, [], map[]);
            out.Good? ==> exists n: nat :: Means(env.templates, root, out.value, n)
    ensures forall v :: Means(env.templates, root, v, 64) ==>
              ExpandValue(env, root, 0, [], map[]).Good? && ExpandValue(env, root, 0, [], map[]).value == v
  {
    hide Means, ExpandValue, PlainValue;
    if ExpandValue(env, root, 0, [], map[]).Good? {
      var n := ExpansionIsPlain(env, root);
      PlainIffMeans(env, root, ExpandValue(env, root, 0, [], map[]).value, n);
    }
    forall v | Means(env.templates, root, v, 64)
      ensures ExpandValue(env, root, 0, [], map[]).Good? && ExpandValue(env, root, 0, [], map[]).value == v
    {
      PlainIffMeans(env, root, v, 64);
      PlainSucceeds(env, root);
    }
  }

  /** The object is what the named templates mean, later ones over earlier ones. */
  ghost predicate Stacks(templates: map<string, Value>, names: seq<string>, v: Value) {
    exists layers, n: nat :: EachMeans(templates, names, layers, n) && MadeOf(v, layers)
  }

  ghost predicate EachMeans(templates: map<string, Value>, names: seq<string>, layers: seq<Value>, n: nat) {
    && |layers| == |names|
    && forall i :: 0 <= i < |names| ==> names[i] in templates && Means(templates, templates[names[i]], layers[i], n)
  }

  /** The fold over the names of a marker, with whatever was resolved before. */
  lemma UsesStack(env: Env, names: seq<string>, depth: nat, stack: seq<string>, memo: Memo, n: nat)
    requires Enumerates(env.order) && depth <= MAX_DEPTH && MemoSound(env, memo, n)
    requires ExpandUses(env, names, map[], depth, stack, memo).Good?
    ensures Stacks(env.templates, names, Obj(ExpandUses(env, names, map[], depth, stack, memo).value))
  {
    hide MadeOf, Means, ExpandUses, PlainUses, PlainTemplate, MemoSound;
    var m := UsesRefine(env, names, map[], depth, stack, memo, n);
    EmptyMadeOf();
    if names == [] {
      NoUses(env, m);
      assert EachMeans(env.templates, names, [], 0);
    } else {
      UsesMade(env, names, map[], [], m);
      var layers := Expansions(env, names, m - 1);
      assert [] + layers == layers;
      forall i | 0 <= i < |names|
        ensures names[i] in env.templates && Means(env.templates, env.templates[names[i]], layers[i], m - 1)
      {
        TemplateMade(env, names[i], m - 1);
        PlainMeans(env, env.templates[names[i]], m - 1);
      }
      assert EachMeans(env.templates, names, layers, m - 1);
    }
  }

  // ---------------------------------------------------------------- who wins

  predicate Atom(v: Value) {
    v.Scalar? || v.Text?
  }

  lemma AtomMeansItself(templates: map<string, Value>, v: Value, out: Value, n: nat)
    requires Atom(v) && Means(templates, v, out, n)
    ensures out == v
  {
  }

  /** What the object says itself stands, over all templates. */
  lemma OwnFieldWins(templates: map<string, Value>, v: Value, out: Value, n: nat, k: string)
    requires v.Obj? && Means(templates, v, out, n) && k in v.fields && k != "use" && Atom(v.fields[k])
    ensures out.Obj? && k in out.fields && out.fields[k] == v.fields[k]
  {
    var names: seq<string>, layers: seq<Value> :|
      UsesInOrder(v.fields, names) && LayersOf(templates, v, names, layers, n) && MadeOf(out, layers);
    hide UsesInOrder;
    var own := layers[|names|];
    AtomMeansItself(templates, v.fields[k], own.fields[k], n);
    assert Alike(See(out, [k]), Topmost(layers, [k]));
    SeeOne(own, k);
    SeeOne(out, k);
  }

  lemma SeeOne(v: Value, k: string)
    requires v.Obj?
    ensures See(v, [k]) == if k !in v.fields then Nothing else if v.fields[k].Obj? then Branch else Leaf(v.fields[k])
  {
    assert [k][1..] == [];
  }

  /** The template says nothing of the key. */
  ghost predicate SilentOn(templates: map<string, Value>, name: string, k: string) {
    forall w, m: nat :: name in templates && Means(templates, templates[name], w, m) ==> w.Obj? && k !in w.fields
  }

  /** Otherwise the last template in the list that has the key decides. */
  lemma LastListedWins(templates: map<string, Value>, v: Value, out: Value, n: nat, k: string, i: nat, part: Value,
                       m: nat)
    requires v.Obj? && Means(templates, v, out, n) && k !in v.fields
    requires "use" in v.fields && v.fields["use"].Arr? && i < |v.fields["use"].items|
    requires var items := v.fields["use"].items;
             && items[i].Text? && items[i].s in templates
             && Means(templates, templates[items[i].s], part, m)
             && part.Obj? && k in part.fields && !part.fields[k].Obj?
             && forall j :: i < j < |items| && items[j].Text? ==> SilentOn(templates, items[j].s, k)
    ensures out.Obj? && k in out.fields && out.fields[k] == part.fields[k]
  {
    var names: seq<string>, layers: seq<Value> :|
      UsesInOrder(v.fields, names) && LayersOf(templates, v, names, layers, n) && MadeOf(out, layers);
    var items := v.fields["use"].items;
    assert forall j :: 0 <= j < |names| ==> items[j] == Text(names[j]);
    hide UsesInOrder, Means;
    MeansOnce(templates, templates[names[i]], part, m, layers[i], n - 1);
    forall j | i < j < |layers|
      ensures See(layers[j], [k]) == Nothing
    {
      if j < |names| {
        assert items[j].Text? && SilentOn(templates, items[j].s, k);
        assert Means(templates, templates[names[j]], layers[j], n - 1);
      }
      SeeOne(layers[j], k);
    }
    SeeOne(part, k);
    TopmostIs(layers, i, [k]);
    assert Alike(See(out, [k]), Topmost(layers, [k]));
    SeeOne(out, k);
  }

  lemma {:induction false} TopmostIs(layers: seq<Value>, i: nat, path: seq<string>)
    requires i < |layers| && See(layers[i], path) != Nothing
    requires forall j :: i < j < |layers| ==> See(layers[j], path) == Nothing
    ensures Topmost(layers, path) == See(layers[i], path)
    decreases |layers|
  {
    if i < |layers| - 1 {
      TopmostIs(layers[..|layers| - 1], i, path);
    }
  }
}

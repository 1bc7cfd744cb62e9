/** What template expansion guarantees: memoisation does not change results, no marker is
    left, every error has a cause, and every reachable cycle is an error. */
module TemplateFacts {
  import opened Prelude
  import opened Sets
  import opened Templates

  // ---------------------------------------------------------------- more room changes nothing

  lemma {:induction false} ValueUp(env: Env, v: Value, n: nat, m: nat)
    requires n <= m && PlainValue(env, v, n).Ok?
    ensures PlainValue(env, v, m) == PlainValue(env, v, n)
    decreases 2 * n + 1, v, 2
  {
    match v
    case Obj(_) => ObjectUp(env, v, n, m);
    case Arr(_) => ItemsUp(env, v, 0, n, m);
    case _ =>
  }

  lemma {:induction false} ItemsUp(env: Env, v: Value, i: nat, n: nat, m: nat)
    requires n <= m && v.Arr? && i <= |v.items| && PlainItems(env, v, i, n).Ok?
    ensures PlainItems(env, v, i, m) == PlainItems(env, v, i, n)
    decreases 2 * n + 1, v, 1, |v.items| - i
  {
    if i < |v.items| {
      ValueUp(env, v.items[i], n, m);
      ItemsUp(env, v, i + 1, n, m);
    }
  }

  lemma {:induction false} ObjectUp(env: Env, v: Value, n: nat, m: nat)
    requires n <= m && v.Obj? && PlainObject(env, v, n).Ok?
    ensures PlainObject(env, v, m) == PlainObject(env, v, n)
    decreases 2 * n + 1, v, 1
  {
    UsesUp(env, ParseUses(v.fields).value, map[], n, m);
    FieldsUp(env, v, LocalKeys(env, v.fields), map[], n, m);
  }

  lemma {:induction false} UsesUp(env: Env, names: seq<string>, merged: map<string, Value>, n: nat, m: nat)
    requires n <= m && PlainUses(env, names, merged, n).Ok?
    ensures PlainUses(env, names, merged, m) == PlainUses(env, names, merged, n)
    decreases 2 * n, |names|
  {
    if names != [] {
      TemplateUp(env, names[0], n - 1, m - 1);
      UsesUp(env, names[1..], Merge(merged, PlainTemplate(env, names[0], n - 1).value.fields), n, m);
    }
  }

  lemma {:induction false} FieldsUp(env: Env, v: Value, keys: seq<string>, local: map<string, Value>, n: nat, m: nat)
    requires n <= m && v.Obj? && PlainFields(env, v, keys, local, n).Ok?
    ensures PlainFields(env, v, keys, local, m) == PlainFields(env, v, keys, local, n)
    decreases 2 * n + 1, v, 0, |keys|
  {
    if keys != [] {
      if keys[0] in v.fields {
        ValueUp(env, v.fields[keys[0]], n, m);
        FieldsUp(env, v, keys[1..], local[keys[0] := PlainValue(env, v.fields[keys[0]], n).value], n, m);
      } else {
        FieldsUp(env, v, keys[1..], local, n, m);
      }
    }
  }

  lemma {:induction false} TemplateUp(env: Env, name: string, n: nat, m: nat)
    requires n <= m && PlainTemplate(env, name, n).Ok?
    ensures PlainTemplate(env, name, m) == PlainTemplate(env, name, n)
    decreases 2 * n + 1
  {
    ObjectUp(env, env.templates[name], n, m);
  }

  // ---------------------------------------------------------------- the memo is harmless

  /** Every memoised value is the plain expansion of its template. */
  ghost predicate MemoSound(env: Env, memo: Memo, n: nat) {
    forall name :: name in memo ==> PlainTemplate(env, name, n) == Ok(memo[name])
  }

  lemma MemoUp(env: Env, memo: Memo, n: nat, m: nat)
    requires n <= m && MemoSound(env, memo, n)
    ensures MemoSound(env, memo, m)
  {
    forall name | name in memo
      ensures PlainTemplate(env, name, m) == Ok(memo[name])
    {
      TemplateUp(env, name, n, m);
    }
  }

  /** What the expander returns is the plain expansion, for some room. */
  lemma {:induction false} ValueRefines(env: Env, v: Value, depth: nat, stack: seq<string>, memo: Memo, n: nat)
    returns (m: nat)
    requires depth <= MAX_DEPTH && MemoSound(env, memo, n) && ExpandValue(env, v, depth, stack, memo).Good?
    ensures var out := ExpandValue(env, v, depth, stack, memo);
            n <= m && MemoSound(env, out.memo, m) && PlainValue(env, v, m) == Ok(out.value)
    decreases 2 * (MAX_DEPTH - depth) + 3, v, 2
  {
    match v
    case Obj(_) => m := ObjectRefines(env, v, depth, stack, memo, n);
    case Arr(_) => m := ItemsRefine(env, v, 0, depth, stack, memo, n);
    case _ => m := n;
  }

  lemma {:induction false} ItemsRefine(env: Env, v: Value, i: nat, depth: nat, stack: seq<string>, memo: Memo, n: nat)
    returns (m: nat)
    requires depth <= MAX_DEPTH && v.Arr? && i <= |v.items| && MemoSound(env, memo, n)
             && ExpandItems(env, v, i, depth, stack, memo).Good?
    ensures var out := ExpandItems(env, v, i, depth, stack, memo);
            n <= m && MemoSound(env, out.memo, m) && PlainItems(env, v, i, m) == Ok(out.value)
    decreases 2 * (MAX_DEPTH - depth) + 3, v, 1, |v.items| - i
  {
    if i == |v.items| {
      m := n;
    } else {
      var k := ValueRefines(env, v.items[i], depth, stack, memo, n);
      m := ItemsRefine(env, v, i + 1, depth, stack, ExpandValue(env, v.items[i], depth, stack, memo).memo, k);
      ValueUp(env, v.items[i], k, m);
    }
  }

  lemma {:induction false} ObjectRefines(env: Env, v: Value, depth: nat, stack: seq<string>, memo: Memo, n: nat)
    returns (m: nat)
    requires depth <= MAX_DEPTH && v.Obj? && MemoSound(env, memo, n) && ExpandObject(env, v, depth, stack, memo).Good?
    ensures var out := ExpandObject(env, v, depth, stack, memo);
            n <= m && MemoSound(env, out.memo, m) && PlainObject(env, v, m) == Ok(out.value)
    decreases 2 * (MAX_DEPTH - depth) + 3, v, 1
  {
    var names, keys := ParseUses(v.fields).value, LocalKeys(env, v.fields);
    var k := UsesRefine(env, names, map[], depth, stack, memo, n);
    m := FieldsRefine(env, v, keys, map[], depth, stack, ExpandUses(env, names, map[], depth, stack, memo).memo, k);
    UsesUp(env, names, map[], k, m);
  }

  lemma {:induction false} UsesRefine(env: Env, names: seq<string>, merged: map<string, Value>, depth: nat,
                                      stack: seq<string>, memo: Memo, n: nat) returns (m: nat)
    requires depth <= MAX_DEPTH && MemoSound(env, memo, n) && ExpandUses(env, names, merged, depth, stack, memo).Good?
    ensures var out := ExpandUses(env, names, merged, depth, stack, memo);
            n <= m && MemoSound(env, out.memo, m) && PlainUses(env, names, merged, m) == Ok(out.value)
    decreases 2 * (MAX_DEPTH - depth) + 2, |names|
  {
    if names == [] {
      m := n;
    } else {
      var first := Resolve(env, names[0], depth + 1, stack, memo);
      var k := ResolveRefines(env, names[0], depth + 1, stack, memo, n);
      var rest := UsesRefine(env, names[1..], Merge(merged, first.value.fields), depth, stack, first.memo, k);
      m := rest + 1;
      TemplateUp(env, names[0], k, rest);
      UsesUp(env, names[1..], Merge(merged, first.value.fields), rest, m);
      MemoUp(env, ExpandUses(env, names, merged, depth, stack, memo).memo, rest, m);
    }
  }

  lemma {:induction false} FieldsRefine(env: Env, v: Value, keys: seq<string>, local: map<string, Value>, depth: nat,
                                        stack: seq<string>, memo: Memo, n: nat) returns (m: nat)
    requires depth <= MAX_DEPTH && v.Obj? && MemoSound(env, memo, n)
             && ExpandFields(env, v, keys, local, depth, stack, memo).Good?
    ensures var out := ExpandFields(env, v, keys, local, depth, stack, memo);
            n <= m && MemoSound(env, out.memo, m) && PlainFields(env, v, keys, local, m) == Ok(out.value)
    decreases 2 * (MAX_DEPTH - depth) + 3, v, 0, |keys|
  {
    if keys == [] {
      m := n;
    } else if keys[0] !in v.fields {
      m := FieldsRefine(env, v, keys[1..], local, depth, stack, memo, n);
    } else {
      var first := ExpandValue(env, v.fields[keys[0]], depth, stack, memo);
      var k := ValueRefines(env, v.fields[keys[0]], depth, stack, memo, n);
      m := FieldsRefine(env, v, keys[1..], local[keys[0] := first.value], depth, stack, first.memo, k);
      ValueUp(env, v.fields[keys[0]], k, m);
    }
  }

  lemma {:induction false} ResolveRefines(env: Env, name: string, depth: nat, stack: seq<string>, memo: Memo, n: nat)
    returns (m: nat)
    requires depth <= MAX_DEPTH + 1 && MemoSound(env, memo, n) && Resolve(env, name, depth, stack, memo).Good?
    ensures var out := Resolve(env, name, depth, stack, memo);
            n <= m && MemoSound(env, out.memo, m) && PlainTemplate(env, name, m) == Ok(out.value)
    decreases 2 * (MAX_DEPTH - depth) + 3
  {
    if name in memo {
      m := n;
    } else {
      m := ObjectRefines(env, env.templates[name], depth, stack + [name], memo, n);
    }
  }

  // ---------------------------------------------------------------- no marker is left

  /** No object anywhere in the value has a `use` key. */
  predicate NoUse(v: Value) {
    match v
    case Obj(fields) => USE !in fields && forall k :: k in fields ==> NoUse(fields[k])
    case Arr(items) => forall i :: 0 <= i < |items| ==> NoUse(items[i])
    case _ => true
  }

  lemma {:induction false} MergeNoUse(target: map<string, Value>, overlay: map<string, Value>)
    requires NoUse(Obj(target)) && NoUse(Obj(overlay))
    ensures NoUse(Obj(Merge(target, overlay)))
    decreases Obj(overlay)
  {
    forall k | k in Merge(target, overlay)
      ensures NoUse(Merge(target, overlay)[k])
    {
      if k in overlay && k in target && target[k].Obj? && overlay[k].Obj? {
        assert overlay[k] < Obj(overlay);
        assert target[k] == Obj(target[k].fields) && overlay[k] == Obj(overlay[k].fields);
        MergeNoUse(target[k].fields, overlay[k].fields);
      }
    }
  }

  lemma {:induction false} ValueNoUse(env: Env, v: Value, n: nat)
    requires Enumerates(env.order) && PlainValue(env, v, n).Ok?
    ensures NoUse(PlainValue(env, v, n).value)
    decreases 2 * n + 1, v, 2
  {
    match v
    case Obj(_) => ObjectNoUse(env, v, n);
    case Arr(_) => ItemsNoUse(env, v, 0, n);
    case _ =>
  }

  lemma {:induction false} ItemsNoUse(env: Env, v: Value, i: nat, n: nat)
    requires Enumerates(env.order) && v.Arr? && i <= |v.items| && PlainItems(env, v, i, n).Ok?
    ensures NoUse(Arr(PlainItems(env, v, i, n).value))
    decreases 2 * n + 1, v, 1, |v.items| - i
  {
    if i < |v.items| {
      ValueNoUse(env, v.items[i], n);
      ItemsNoUse(env, v, i + 1, n);
    }
  }

  lemma {:induction false} ObjectNoUse(env: Env, v: Value, n: nat)
    requires Enumerates(env.order) && v.Obj? && PlainObject(env, v, n).Ok?
    ensures PlainObject(env, v, n).value.Obj? && NoUse(PlainObject(env, v, n).value)
    decreases 2 * n + 1, v, 1
  {
    var names, keys := ParseUses(v.fields).value, LocalKeys(env, v.fields);
    UsesNoUse(env, names, map[], n);
    assert USE !in Elements(keys);
    FieldsNoUse(env, v, keys, map[], n);
    MergeNoUse(PlainUses(env, names, map[], n).value, PlainFields(env, v, keys, map[], n).value);
  }

  lemma {:induction false} UsesNoUse(env: Env, names: seq<string>, merged: map<string, Value>, n: nat)
    requires Enumerates(env.order) && PlainUses(env, names, merged, n).Ok? && NoUse(Obj(merged))
    ensures NoUse(Obj(PlainUses(env, names, merged, n).value))
    decreases 2 * n, |names|
  {
    if names != [] {
      var first := PlainTemplate(env, names[0], n - 1).value;
      ObjectNoUse(env, env.templates[names[0]], n - 1);
      assert first == Obj(first.fields);
      MergeNoUse(merged, first.fields);
      UsesNoUse(env, names[1..], Merge(merged, first.fields), n);
    }
  }

  lemma {:induction false} FieldsNoUse(env: Env, v: Value, keys: seq<string>, local: map<string, Value>, n: nat)
    requires Enumerates(env.order) && v.Obj? && PlainFields(env, v, keys, local, n).Ok? && NoUse(Obj(local))
             && USE !in Elements(keys)
    ensures NoUse(Obj(PlainFields(env, v, keys, local, n).value))
    decreases 2 * n + 1, v, 0, |keys|
  {
    if keys != [] {
      assert keys[0] in Elements(keys) && Elements(keys[1..]) <= Elements(keys);
      if keys[0] in v.fields {
        ValueNoUse(env, v.fields[keys[0]], n);
        FieldsNoUse(env, v, keys[1..], local[keys[0] := PlainValue(env, v.fields[keys[0]], n).value], n);
      } else {
        FieldsNoUse(env, v, keys[1..], local, n);
      }
    }
  }

  // ---------------------------------------------------------------- who uses whom

  /** Some object in the value names the template in its marker. */
  predicate Mentions(v: Value, name: string) {
    match v
    case Obj(fields) =>
      || (ParseUses(fields).Ok? && name in ParseUses(fields).value)
      || exists k :: k in fields && k != USE && Mentions(fields[k], name)
    case Arr(items) => exists i :: 0 <= i < |items| && Mentions(items[i], name)
    case _ => false
  }

  /** Some object in the value has a marker that cannot be parsed. */
  predicate Malformed(v: Value) {
    match v
    case Obj(fields) => ParseUses(fields).Err? || exists k :: k in fields && k != USE && Malformed(fields[k])
    case Arr(items) => exists i :: 0 <= i < |items| && Malformed(items[i])
    case _ => false
  }

  /** Each template mentions the next. */
  ghost predicate IsPath(env: Env, names: seq<string>) {
    forall i :: 0 <= i < |names| - 1 ==> Follows(env, names, i)
  }

  ghost predicate Follows(env: Env, names: seq<string>, i: nat)
    requires i + 1 < |names|
  {
    names[i] in env.templates && Mentions(env.templates[names[i]], names[i + 1])
  }

  lemma {:induction false} UsesEach(env: Env, names: seq<string>, merged: map<string, Value>, n: nat, name: string)
    requires PlainUses(env, names, merged, n).Ok? && name in names
    ensures n > 0 && PlainTemplate(env, name, n - 1).Ok?
    decreases |names|
  {
    if names[0] != name {
      UsesEach(env, names[1..], Merge(merged, PlainTemplate(env, names[0], n - 1).value.fields), n, name);
    }
  }

  lemma {:induction false} FieldsEach(env: Env, v: Value, keys: seq<string>, local: map<string, Value>, n: nat,
                                      k: string)
    requires v.Obj? && PlainFields(env, v, keys, local, n).Ok? && k in keys && k in v.fields
    ensures PlainValue(env, v.fields[k], n).Ok?
    decreases |keys|
  {
    if keys[0] != k {
      var more := if keys[0] in v.fields then local[keys[0] := PlainValue(env, v.fields[keys[0]], n).value] else local;
      FieldsEach(env, v, keys[1..], more, n, k);
    }
  }

  lemma {:induction false} ItemsEach(env: Env, v: Value, i: nat, n: nat, j: nat)
    requires v.Arr? && i <= j < |v.items| && PlainItems(env, v, i, n).Ok?
    ensures PlainValue(env, v.items[j], n).Ok?
    decreases j - i
  {
    if i < j {
      ItemsEach(env, v, i + 1, n, j);
    }
  }

  /** An expansion that succeeds has expanded everything it mentions, with one level less. */
  lemma {:induction false} MentionedOk(env: Env, v: Value, n: nat, name: string)
    requires Enumerates(env.order) && PlainValue(env, v, n).Ok? && Mentions(v, name)
    ensures n > 0 && PlainTemplate(env, name, n - 1).Ok?
    decreases v
  {
    match v
    case Obj(fields) =>
      var names, keys := ParseUses(fields).value, LocalKeys(env, fields);
      if name in names {
        UsesEach(env, names, map[], n, name);
      } else {
        var k :| k in fields && k != USE && Mentions(fields[k], name);
        assert k in Elements(keys);
        FieldsEach(env, v, keys, map[], n, k);
        MentionedOk(env, fields[k], n, name);
      }
    case Arr(items) =>
      var i :| 0 <= i < |items| && Mentions(items[i], name);
      ItemsEach(env, v, 0, n, i);
      MentionedOk(env, items[i], n, name);
  }

  /** An expansion that succeeds has met no malformed marker. */
  lemma {:induction false} WellFormedOk(env: Env, v: Value, n: nat)
    requires Enumerates(env.order) && PlainValue(env, v, n).Ok?
    ensures !Malformed(v)
    decreases v
  {
    match v
    case Obj(fields) =>
      var keys := LocalKeys(env, fields);
      forall k | k in fields && k != USE
        ensures !Malformed(fields[k])
      {
        assert k in Elements(keys);
        FieldsEach(env, v, keys, map[], n, k);
        WellFormedOk(env, fields[k], n);
      }
    case Arr(items) =>
      forall i | 0 <= i < |items|
        ensures !Malformed(items[i])
      {
        ItemsEach(env, v, 0, n, i);
        WellFormedOk(env, items[i], n);
      }
    case _ =>
  }

  // ---------------------------------------------------------------- cycles

  lemma {:induction false} PathOk(env: Env, names: seq<string>, n: nat)
    requires Enumerates(env.order) && IsPath(env, names) && names != [] && PlainTemplate(env, names[0], n).Ok?
    ensures |names| - 1 <= n && PlainTemplate(env, names[|names| - 1], n - (|names| - 1)).Ok?
    decreases |names|
  {
    if |names| > 1 {
      assert Follows(env, names, 0);
      MentionedOk(env, env.templates[names[0]], n, names[1]);
      forall i | 0 <= i < |names[1..]| - 1
        ensures Follows(env, names[1..], i)
      {
        assert Follows(env, names, i + 1);
      }
      PathOk(env, names[1..], n - 1);
    }
  }

  /** A template on a cycle has no plain expansion, however much room there is. */
  lemma {:induction false} CycleNeverOk(env: Env, names: seq<string>, n: nat)
    requires Enumerates(env.order) && IsPath(env, names) && |names| >= 2 && names[0] == names[|names| - 1]
    ensures PlainTemplate(env, names[0], n).Err?
    decreases n
  {
    if PlainTemplate(env, names[0], n).Ok? {
      PathOk(env, names, n);
      CycleNeverOk(env, names, n - (|names| - 1));
    }
  }

  /** The value mentions the first name, and each template the next. */
  ghost predicate ChainFrom(env: Env, root: Value, chain: seq<string>) {
    IsPath(env, chain) && (chain != [] ==> Mentions(root, chain[0]))
  }

  lemma ChainOk(env: Env, root: Value, chain: seq<string>, n: nat)
    requires Enumerates(env.order) && ChainFrom(env, root, chain) && chain != [] && PlainValue(env, root, n).Ok?
    ensures |chain| <= n && PlainTemplate(env, chain[|chain| - 1], n - |chain|).Ok?
  {
    MentionedOk(env, root, n, chain[0]);
    PathOk(env, chain, n - 1);
  }

  /** A use cycle that can be reached from the document makes expansion fail. */
  lemma ReachableCycleFails(env: Env, root: Value, chain: seq<string>, cycle: seq<string>)
    requires Enumerates(env.order) && ChainFrom(env, root, chain) && chain != []
    requires IsPath(env, cycle) && |cycle| >= 2 && chain[|chain| - 1] == cycle[0] == cycle[|cycle| - 1]
    ensures ExpandValue(env, root, 0, [], map[]).Bad?
  {
    if ExpandValue(env, root, 0, [], map[]).Good? {
      var m := ValueRefines(env, root, 0, [], map[], 0);
      ChainOk(env, root, chain, m);
      CycleNeverOk(env, cycle, m - |chain|);
    }
  }

  // ---------------------------------------------------------------- every error has a cause

  /** The value being expanded: the document, or the template on top of the stack. */
  function Body(env: Env, root: Value, stack: seq<string>): Value {
    if stack == [] || stack[|stack| - 1] !in env.templates then root else env.templates[stack[|stack| - 1]]
  }

  /** `chain` leads to the defect the error reports. */
  ghost predicate Shows(env: Env, root: Value, error: Error, chain: seq<string>) {
    ChainFrom(env, root, chain)
    && match error
       case BadUse => (chain == [] || chain[|chain| - 1] in env.templates) && Malformed(Body(env, root, chain))
       case Unknown(name) => chain != [] && chain[|chain| - 1] == name && name !in env.templates
       case NotObject(name) => chain != [] && chain[|chain| - 1] == name && name in env.templates
                               && !env.templates[name].Obj?
       case Cycle(names) =>
         chain != [] && |names| >= 2 && IsPath(env, names) && chain[|chain| - 1] == names[0] == names[|names| - 1]
       case TooDeep => |chain| == MAX_DEPTH + 1
       case BadTemplates => false
  }

  ghost predicate Justified(env: Env, root: Value, error: Error) {
    exists chain :: Shows(env, root, error, chain)
  }

  /** `v` is part of the body on top of the stack, and the stack is a chain from the root. */
  ghost predicate Within(env: Env, root: Value, stack: seq<string>, v: Value) {
    && ChainFrom(env, root, stack) && (forall i :: 0 <= i < |stack| ==> stack[i] in env.templates)
    && (forall name :: Mentions(v, name) ==> Mentions(Body(env, root, stack), name))
    && (Malformed(v) ==> Malformed(Body(env, root, stack)))
  }

  lemma ChainMore(env: Env, root: Value, stack: seq<string>, name: string)
    requires ChainFrom(env, root, stack) && (forall i :: 0 <= i < |stack| ==> stack[i] in env.templates)
    requires Mentions(Body(env, root, stack), name)
    ensures ChainFrom(env, root, stack + [name])
  {
    var chain := stack + [name];
    forall i | 0 <= i < |chain| - 1
      ensures Follows(env, chain, i)
    {
      if i < |stack| - 1 {
        assert Follows(env, stack, i);
      }
    }
  }

  lemma {:induction false} FromIsSuffix(stack: seq<string>, name: string) returns (p: nat)
    requires name in stack
    ensures p < |stack| && stack[p] == name && From(stack, name) == stack[p..]
  {
    if stack[0] == name {
      p := 0;
    } else {
      var q := FromIsSuffix(stack[1..], name);
      p := q + 1;
      assert stack[1..][q..] == stack[p..];
    }
  }

  /** A name met again while active closes a cycle that the stack shows. */
  lemma ActiveIsCycle(env: Env, root: Value, stack: seq<string>, name: string)
    requires ChainFrom(env, root, stack) && (forall i :: 0 <= i < |stack| ==> stack[i] in env.templates)
    requires Mentions(Body(env, root, stack), name) && name in stack
    ensures Justified(env, root, Cycle(From(stack, name) + [name]))
  {
    var p := FromIsSuffix(stack, name);
    ChainMore(env, root, stack, name);
    var chain, cycle := stack[..p + 1], stack[p..] + [name];
    forall i | 0 <= i < |chain| - 1
      ensures Follows(env, chain, i)
    {
      assert Follows(env, stack, i);
    }
    forall i | 0 <= i < |cycle| - 1
      ensures Follows(env, cycle, i)
    {
      assert Follows(env, stack + [name], p + i);
    }
    assert Shows(env, root, Cycle(From(stack, name) + [name]), chain);
  }

  lemma {:induction false} ValueJustified(env: Env, root: Value, v: Value, stack: seq<string>, memo: Memo, n: nat)
    requires Enumerates(env.order) && |stack| <= MAX_DEPTH && Within(env, root, stack, v) && MemoSound(env, memo, n)
    requires ExpandValue(env, v, |stack|, stack, memo).Bad?
    ensures Justified(env, root, ExpandValue(env, v, |stack|, stack, memo).error)
    decreases 2 * (MAX_DEPTH - |stack|) + 3, v, 2
  {
    match v
    case Obj(_) => ObjectJustified(env, root, v, stack, memo, n);
    case Arr(_) => ItemsJustified(env, root, v, 0, stack, memo, n);
    case _ =>
  }

  lemma {:induction false} ItemsJustified(env: Env, root: Value, v: Value, i: nat, stack: seq<string>, memo: Memo,
                                          n: nat)
    requires Enumerates(env.order) && |stack| <= MAX_DEPTH && v.Arr? && i <= |v.items| && Within(env, root, stack, v)
             && MemoSound(env, memo, n)
    requires ExpandItems(env, v, i, |stack|, stack, memo).Bad?
    ensures Justified(env, root, ExpandItems(env, v, i, |stack|, stack, memo).error)
    decreases 2 * (MAX_DEPTH - |stack|) + 3, v, 1, |v.items| - i
  {
    assert Within(env, root, stack, v.items[i]);
    var first := ExpandValue(env, v.items[i], |stack|, stack, memo);
    if first.Bad? {
      ValueJustified(env, root, v.items[i], stack, memo, n);
    } else {
      var m := ValueRefines(env, v.items[i], |stack|, stack, memo, n);
      ItemsJustified(env, root, v, i + 1, stack, first.memo, m);
    }
  }

  lemma {:induction false} ObjectJustified(env: Env, root: Value, v: Value, stack: seq<string>, memo: Memo, n: nat)
    requires Enumerates(env.order) && |stack| <= MAX_DEPTH && v.Obj? && Within(env, root, stack, v)
             && MemoSound(env, memo, n)
    requires ExpandObject(env, v, |stack|, stack, memo).Bad?
    ensures Justified(env, root, ExpandObject(env, v, |stack|, stack, memo).error)
    decreases 2 * (MAX_DEPTH - |stack|) + 3, v, 1
  {
    var uses := ParseUses(v.fields);
    if uses.Err? {
      assert Malformed(v);
      assert Shows(env, root, uses.error, stack);
    } else {
      var merged := ExpandUses(env, uses.value, map[], |stack|, stack, memo);
      if merged.Bad? {
        UsesJustified(env, root, v, uses.value, map[], stack, memo, n);
      } else {
        var m := UsesRefine(env, uses.value, map[], |stack|, stack, memo, n);
        var keys := LocalKeys(env, v.fields);
        assert USE !in Elements(keys);
        FieldsJustified(env, root, v, keys, map[], stack, merged.memo, m);
      }
    }
  }

  lemma {:induction false} UsesJustified(env: Env, root: Value, v: Value, names: seq<string>,
                                         merged: map<string, Value>, stack: seq<string>, memo: Memo, n: nat)
    requires Enumerates(env.order) && |stack| <= MAX_DEPTH && Within(env, root, stack, v) && MemoSound(env, memo, n)
    requires (forall name :: name in names ==> Mentions(v, name))
             && ExpandUses(env, names, merged, |stack|, stack, memo).Bad?
    ensures Justified(env, root, ExpandUses(env, names, merged, |stack|, stack, memo).error)
    decreases 2 * (MAX_DEPTH - |stack|) + 2, |names|
  {
    var first := Resolve(env, names[0], |stack| + 1, stack, memo);
    assert Mentions(v, names[0]);
    if first.Bad? {
      ResolveJustified(env, root, names[0], stack, memo, n);
    } else {
      var m := ResolveRefines(env, names[0], |stack| + 1, stack, memo, n);
      ObjectNoUse(env, env.templates[names[0]], m);
      UsesJustified(env, root, v, names[1..], Merge(merged, first.value.fields), stack, first.memo, m);
    }
  }

  lemma {:induction false} FieldsJustified(env: Env, root: Value, v: Value, keys: seq<string>,
                                           local: map<string, Value>, stack: seq<string>, memo: Memo, n: nat)
    requires Enumerates(env.order) && |stack| <= MAX_DEPTH && v.Obj? && Within(env, root, stack, v)
             && MemoSound(env, memo, n)
    requires USE !in Elements(keys) && ExpandFields(env, v, keys, local, |stack|, stack, memo).Bad?
    ensures Justified(env, root, ExpandFields(env, v, keys, local, |stack|, stack, memo).error)
    decreases 2 * (MAX_DEPTH - |stack|) + 3, v, 0, |keys|
  {
    assert keys[0] in Elements(keys) && Elements(keys[1..]) <= Elements(keys);
    if keys[0] !in v.fields {
      FieldsJustified(env, root, v, keys[1..], local, stack, memo, n);
    } else {
      var part := v.fields[keys[0]];
      assert Within(env, root, stack, part);
      var first := ExpandValue(env, part, |stack|, stack, memo);
      if first.Bad? {
        ValueJustified(env, root, part, stack, memo, n);
      } else {
        var m := ValueRefines(env, part, |stack|, stack, memo, n);
        FieldsJustified(env, root, v, keys[1..], local[keys[0] := first.value], stack, first.memo, m);
      }
    }
  }

  lemma {:induction false} ResolveJustified(env: Env, root: Value, name: string, stack: seq<string>, memo: Memo, n: nat)
    requires Enumerates(env.order) && |stack| <= MAX_DEPTH && MemoSound(env, memo, n)
    requires ChainFrom(env, root, stack) && (forall i :: 0 <= i < |stack| ==> stack[i] in env.templates)
             && Mentions(Body(env, root, stack), name)
    requires Resolve(env, name, |stack| + 1, stack, memo).Bad?
    ensures Justified(env, root, Resolve(env, name, |stack| + 1, stack, memo).error)
    decreases 2 * (MAX_DEPTH - |stack| - 1) + 3
  {
    var chain := stack + [name];
    ChainMore(env, root, stack, name);
    if |stack| + 1 > MAX_DEPTH {
      assert Shows(env, root, TooDeep, chain);
    } else if name in stack {
      ActiveIsCycle(env, root, stack, name);
    } else if name !in env.templates {
      assert Shows(env, root, Unknown(name), chain);
    } else if !env.templates[name].Obj? {
      assert Shows(env, root, NotObject(name), chain);
    } else {
      assert Within(env, root, chain, env.templates[name]);
      ObjectJustified(env, root, env.templates[name], chain, memo, n);
    }
  }

  // ---------------------------------------------------------------- the main results

  /** Whenever expansion returns a value, it is the plain left-to-right expansion, and no
      `use` marker is left in it. */
  lemma ExpansionIsPlain(env: Env, root: Value) returns (n: nat)
    requires Enumerates(env.order) && ExpandValue(env, root, 0, [], map[]).Good?
    ensures PlainValue(env, root, n) == Ok(ExpandValue(env, root, 0, [], map[]).value)
    ensures NoUse(ExpandValue(env, root, 0, [], map[]).value)
  {
    n := ValueRefines(env, root, 0, [], map[], 0);
    ValueNoUse(env, root, n);
  }

  /** Every error reports a defect that the document has. */
  lemma ErrorsAreJustified(env: Env, root: Value)
    requires Enumerates(env.order) && ExpandValue(env, root, 0, [], map[]).Bad?
    ensures Justified(env, root, ExpandValue(env, root, 0, [], map[]).error)
  {
    ValueJustified(env, root, root, [], map[], 0);
  }

  /** Whatever the plain expansion can do within the depth limit, the expander does too, with
      the same result: the memo and the stack cost nothing. */
  lemma PlainSucceeds(env: Env, root: Value)
    requires Enumerates(env.order) && PlainValue(env, root, MAX_DEPTH).Ok?
    ensures var out := ExpandValue(env, root, 0, [], map[]);
            out.Good? && Ok(out.value) == PlainValue(env, root, MAX_DEPTH)
  {
    var out := ExpandValue(env, root, 0, [], map[]);
    if out.Bad? {
      ErrorsAreJustified(env, root);
      NotJustified(env, root, out.error, MAX_DEPTH);
    } else {
      var n := ExpansionIsPlain(env, root);
      ValueUp(env, root, MAX_DEPTH, if n < MAX_DEPTH then MAX_DEPTH else n);
      ValueUp(env, root, n, if n < MAX_DEPTH then MAX_DEPTH else n);
    }
  }

  /** A document with a plain expansion within the depth limit has none of the defects. */
  lemma NotJustified(env: Env, root: Value, error: Error, n: nat)
    requires Enumerates(env.order) && PlainValue(env, root, n).Ok? && n <= MAX_DEPTH
    ensures !Justified(env, root, error)
  {
    forall chain
      ensures !Shows(env, root, error, chain)
    {
      if ChainFrom(env, root, chain) {
        WellFormedOk(env, root, n);
        if chain != [] {
          ChainOk(env, root, chain, n);
          var last := chain[|chain| - 1];
          WellFormedOk(env, env.templates[last], n - |chain|);
          if error.Cycle? && |error.names| >= 2 && IsPath(env, error.names)
          && last == error.names[0] == error.names[|error.names| - 1] {
            CycleNeverOk(env, error.names, n - |chain|);
          }
        }
      }
    }
  }

  // ---------------------------------------------------------------- clean documents

  /** Going round a cycle makes chains as long as one likes. */
  lemma {:induction false} LongChain(env: Env, root: Value, chain: seq<string>, cycle: seq<string>)
    returns (long: seq<string>)
    requires ChainFrom(env, root, chain) && chain != []
    requires IsPath(env, cycle) && |cycle| >= 2 && chain[|chain| - 1] == cycle[0] == cycle[|cycle| - 1]
    ensures ChainFrom(env, root, long) && |long| > MAX_DEPTH
    decreases MAX_DEPTH + 1 - |chain|
  {
    if |chain| > MAX_DEPTH {
      long := chain;
    } else {
      var more := chain + cycle[1..];
      forall i | 0 <= i < |more| - 1
        ensures Follows(env, more, i)
      {
        if i < |chain| - 1 {
          assert Follows(env, chain, i);
        } else {
          assert Follows(env, cycle, i - (|chain| - 1));
        }
      }
      long := LongChain(env, root, more, cycle);
    }
  }

  ghost predicate SoundAt(env: Env, root: Value, chain: seq<string>) {
    && |chain| <= MAX_DEPTH && !Malformed(Body(env, root, chain))
    && (chain != [] ==> chain[|chain| - 1] in env.templates && env.templates[chain[|chain| - 1]].Obj?)
  }

  /** If all names that can be reached are known, all markers on the way are well formed and
      no chain is longer than the limit, expansion succeeds. Such documents are acyclic. */
  lemma CleanDocumentExpands(env: Env, root: Value)
    requires Enumerates(env.order) && forall chain :: ChainFrom(env, root, chain) ==> SoundAt(env, root, chain)
    ensures ExpandValue(env, root, 0, [], map[]).Good?
  {
    var out := ExpandValue(env, root, 0, [], map[]);
    if out.Bad? {
      ErrorsAreJustified(env, root);
      CleanHasNoDefect(env, root, out.error);
    }
  }

  lemma CleanHasNoDefect(env: Env, root: Value, error: Error)
    requires forall chain :: ChainFrom(env, root, chain) ==> SoundAt(env, root, chain)
    ensures !Justified(env, root, error)
  {
    forall chain
      ensures !Shows(env, root, error, chain)
    {
      if ChainFrom(env, root, chain) && chain != [] && error.Cycle? && |error.names| >= 2 && IsPath(env, error.names)
         && chain[|chain| - 1] == error.names[0] == error.names[|error.names| - 1] {
        var long := LongChain(env, root, chain, error.names);
      }
    }
  }
}

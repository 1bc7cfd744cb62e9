/** The memo table changes which documents hit the depth limit: a document that the expander
    accepts although its longest chain of templates is one too long. */
module TemplateDepth {
  import opened Prelude
  import opened Sets
  import opened Templates

  /** The name of the i-th template. */
  function Tag(i: nat): string {
    seq(i, _ => 'a')
  }

  function Tags(n: nat): set<string> {
    set i | 1 <= i <= n :: Tag(i)
  }

  const LAST: nat := MAX_DEPTH + 1

  function Using(i: nat): Value {
    Obj(map[USE := Text(Tag(i))])
  }

  const EMPTY: Value := Obj(map[])

  /** Each template uses the next; the last is empty. */
  function ChainEnv(order: set<string> -> seq<string>): Env {
    Env(map s | s in Tags(LAST) :: if |s| < LAST then Using(|s| + 1) else EMPTY, order)
  }

  lemma TemplateAt(order: set<string> -> seq<string>, i: nat)
    requires 1 <= i <= LAST
    ensures Tag(i) in ChainEnv(order).templates
    ensures ChainEnv(order).templates[Tag(i)] == if i < LAST then Using(i + 1) else EMPTY
  {
    assert Tag(i) in Tags(LAST) && |Tag(i)| == i;
  }

  lemma NoLocalKeys(env: Env, fields: map<string, Value>)
    requires Enumerates(env.order) && fields.Keys - {USE} == {}
    ensures LocalKeys(env, fields) == []
  {
    NoElements(LocalKeys(env, fields));
  }

  lemma UsingParts(env: Env, i: nat)
    requires Enumerates(env.order)
    ensures ParseUses(Using(i).fields) == Ok([Tag(i)]) && LocalKeys(env, Using(i).fields) == []
    ensures ParseUses(EMPTY.fields) == Ok([]) && LocalKeys(env, EMPTY.fields) == []
  {
    assert Using(i).fields.Keys - {USE} == {};
    assert EMPTY.fields.Keys - {USE} == {};
    NoLocalKeys(env, Using(i).fields);
    NoLocalKeys(env, EMPTY.fields);
  }

  lemma MergeEmpty(m: map<string, Value>)
    ensures Merge(map[], m) == m && Merge(m, map[]) == m
  {
  }

  lemma PlainUsing(env: Env, i: nat, n: nat)
    requires Enumerates(env.order)
    ensures PlainObject(env, EMPTY, n) == Ok(EMPTY)
    ensures n == 0 ==> PlainObject(env, Using(i), n) == Err(TooDeep)
    ensures n > 0 && PlainTemplate(env, Tag(i), n - 1) == Ok(EMPTY) ==> PlainObject(env, Using(i), n) == Ok(EMPTY)
    ensures n > 0 && PlainTemplate(env, Tag(i), n - 1) == Err(TooDeep) ==> PlainObject(env, Using(i), n) == Err(TooDeep)
  {
    UsingParts(env, i);
    MergeEmpty(map[]);
    var names := [Tag(i)];
    assert names[1..] == [];
    assert PlainFields(env, Using(i), [], map[], n) == Ok(map[]);
    assert PlainFields(env, EMPTY, [], map[], n) == Ok(map[]);
    if n > 0 && PlainTemplate(env, Tag(i), n - 1) == Ok(EMPTY) {
      assert PlainUses(env, names, map[], n) == PlainUses(env, [], Merge(map[], map[]), n);
    }
  }

  lemma ExpandUsing(env: Env, i: nat, depth: nat, stack: seq<string>, memo: Memo)
    requires Enumerates(env.order) && depth <= MAX_DEPTH
    ensures ExpandObject(env, EMPTY, depth, stack, memo) == Good(EMPTY, memo)
    ensures var r := Resolve(env, Tag(i), depth + 1, stack, memo);
            r.Good? && r.value == EMPTY ==> ExpandObject(env, Using(i), depth, stack, memo) == Good(EMPTY, r.memo)
  {
    UsingParts(env, i);
    MergeEmpty(map[]);
    var names, r := [Tag(i)], Resolve(env, Tag(i), depth + 1, stack, memo);
    assert names[1..] == [];
    assert ExpandFields(env, EMPTY, [], map[], depth, stack, memo) == Good(map[], memo);
    if r.Good? && r.value == EMPTY {
      assert ExpandFields(env, Using(i), [], map[], depth, stack, r.memo) == Good(map[], r.memo);
      assert ExpandUses(env, names, map[], depth, stack, memo) == ExpandUses(env, [], Merge(map[], map[]), depth, stack,
                                                                             r.memo);
    }
  }

  /** Without the memo the i-th template needs as many levels as there are templates after it. */
  lemma {:induction false} PlainChain(order: set<string> -> seq<string>, i: nat, n: nat)
    requires Enumerates(order) && 1 <= i <= LAST
    ensures PlainTemplate(ChainEnv(order), Tag(i), n) == if LAST - i <= n then Ok(EMPTY) else Err(TooDeep)
    decreases n
  {
    TemplateAt(order, i);
    PlainUsing(ChainEnv(order), i + 1, n);
    if i < LAST && n > 0 {
      PlainChain(order, i + 1, n - 1);
    }
  }

  /** With room to spare the expander resolves the whole chain and remembers it. */
  lemma {:induction false} ResolveChain(order: set<string> -> seq<string>, i: nat, depth: nat, stack: seq<string>)
    requires Enumerates(order) && 1 <= i <= LAST && 1 <= depth && depth + (LAST - i) <= MAX_DEPTH
    requires forall s :: s in stack ==> |s| < i
    ensures var out := Resolve(ChainEnv(order), Tag(i), depth, stack, map[]);
            && out.Good? && out.value == EMPTY && Tag(i) in out.memo && out.memo[Tag(i)] == EMPTY
            && forall s :: s in out.memo ==> |s| >= i
    decreases LAST - i
  {
    TemplateAt(order, i);
    assert |Tag(i)| == i;
    ExpandUsing(ChainEnv(order), i + 1, depth, stack + [Tag(i)], map[]);
    if i < LAST {
      ResolveChain(order, i + 1, depth + 1, stack + [Tag(i)]);
    }
  }

  /** The first template, once the second is in the memo. */
  lemma ResolveFirst(order: set<string> -> seq<string>, memo: Memo)
    requires Enumerates(order) && Tag(2) in memo && memo[Tag(2)] == EMPTY && Tag(1) !in memo
    ensures Resolve(ChainEnv(order), Tag(1), 1, [], memo) == Good(EMPTY, memo[Tag(1) := EMPTY])
  {
    TemplateAt(order, 1);
    ExpandUsing(ChainEnv(order), 2, 1, [Tag(1)], memo);
    assert [] + [Tag(1)] == [Tag(1)];
  }

  /** First a shorter chain, then the whole one. */
  function Document(): Value {
    Obj(map["b" := Using(2), "c" := Using(1)])
  }

  lemma DocumentParts(env: Env)
    requires Enumerates(env.order) && env.order({"b", "c"}) == ["b", "c"]
    ensures ParseUses(Document().fields) == Ok([]) && LocalKeys(env, Document().fields) == ["b", "c"]
  {
    assert Document().fields.Keys - {USE} == {"b", "c"};
  }

  /** The plain expansion of the document is too deep; the expander accepts it. */
  lemma MemoReachesDeeper(order: set<string> -> seq<string>)
    requires Enumerates(order) && order({"b", "c"}) == ["b", "c"]
    ensures PlainValue(ChainEnv(order), Document(), MAX_DEPTH) == Err(TooDeep)
    ensures ExpandValue(ChainEnv(order), Document(), 0, [], map[]).Good?
  {
    DocumentParts(ChainEnv(order));
    DocumentTooDeep(order);
    DocumentExpands(order);
  }

  lemma DocumentTooDeep(order: set<string> -> seq<string>)
    requires Enumerates(order) && order({"b", "c"}) == ["b", "c"]
    ensures PlainValue(ChainEnv(order), Document(), MAX_DEPTH) == Err(TooDeep)
  {
    var env, doc := ChainEnv(order), Document();
    DocumentParts(env);
    PlainChain(order, 2, MAX_DEPTH - 1);
    PlainChain(order, 1, MAX_DEPTH - 1);
    PlainUsing(env, 2, MAX_DEPTH);
    PlainUsing(env, 1, MAX_DEPTH);
    hide PlainObject, PlainTemplate, ParseUses, LocalKeys;
    var keys := ["b", "c"];
    assert keys[1..] == ["c"];
    assert PlainFields(env, doc, ["c"], map["b" := EMPTY], MAX_DEPTH) == Err(TooDeep);
    assert PlainFields(env, doc, keys, map[], MAX_DEPTH) == Err(TooDeep);
    assert PlainUses(env, [], map[], MAX_DEPTH) == Ok(map[]);
  }

  lemma DocumentExpands(order: set<string> -> seq<string>)
    requires Enumerates(order) && order({"b", "c"}) == ["b", "c"]
    ensures ExpandValue(ChainEnv(order), Document(), 0, [], map[]).Good?
  {
    hide Resolve, ChainEnv, ExpandObject, ExpandFields, ExpandValue, Using, Document, ParseUses, LocalKeys;
    var env := ChainEnv(order);
    SameOrder(order);
    DocumentParts(env);
    ResolveChain(order, 2, 1, []);
    ExpandUsing(env, 2, 0, [], map[]);
    var memo := Resolve(env, Tag(2), 1, [], map[]).memo;
    assert |Tag(1)| == 1;
    ResolveFirst(order, memo);
    ExpandUsing(env, 1, 0, [], memo);
    FieldsExpand(env, memo);
    ObjectExpands(env);
  }

  lemma SameOrder(order: set<string> -> seq<string>)
    ensures ChainEnv(order).order == order
  {
  }

  lemma FieldsExpand(env: Env, memo: Memo)
    requires ExpandObject(env, Using(2), 0, [], map[]) == Good(EMPTY, memo)
             && ExpandObject(env, Using(1), 0, [], memo).Good?
    ensures ExpandFields(env, Document(), ["b", "c"], map[], 0, [], map[]).Good?
  {
    hide ExpandObject;
    var keys, doc := ["b", "c"], Document();
    assert keys[1..] == ["c"] && ["c"][1..] == [];
    assert ExpandFields(env, doc, ["c"], map["b" := EMPTY], 0, [], memo).Good?;
  }

  lemma ObjectExpands(env: Env)
    requires ParseUses(Document().fields) == Ok([]) && LocalKeys(env, Document().fields) == ["b", "c"]
    requires ExpandFields(env, Document(), ["b", "c"], map[], 0, [], map[]).Good?
    ensures ExpandValue(env, Document(), 0, [], map[]).Good?
  {
    hide ExpandFields, ParseUses, LocalKeys;
    assert ExpandUses(env, [], map[], 0, [], map[]) == Good(map[], map[]);
  }
}

/** `Mutation.create_parent` and `Query.node`: the nodes the walk yields are
    written one by one into the module-level `database` dict, each new node
    under `"<table>:<n>"`, and the root last under `"parents:foo"`. */
module Creation {
  import opened Values
  import opened Children
  import opened Search
  import opened Tables

  /** Pydantic's `to_pydantic()` followed by `dict()`: the attributes of the
      validated model, or None when validation fails. */
  type Validator = Obj -> Option<seq<Field>>

  /** The pending entries of the `database` dict. */
  type Entries = map<string, seq<Field>>

  /** One assignment `database[key] = payload`. */
  datatype Write = Write(key: string, payload: seq<Field>)

  /** The writes a run makes, in order, and the exception that ended it, if any. */
  datatype Outcome = Outcome(writes: seq<Write>, error: Option<Error>)

  /** The fixed key the root is stored under. */
  const ParentsKey := "parents:foo"

  /** The `nodes` registry `Query.node` resolves type names with. */
  const NodeTypes: set<string> := {"parent", "child"}

  /** `getattr(node, "id", None)` */
  function IdOf(o: Obj): (r: Value)
    ensures r != Null ==> Field("id", r) in o.fields
    ensures (forall f | f in o.fields :: f.name != "id") ==> r == Null
    ensures (exists f | f in o.fields :: f.name == "id") ==> Field("id", r) in o.fields
  {
    match Get(o.fields, "id")
    case Some(v) => v
    case None => Null
  }

  predicate InArena(g: Arena, items: seq<nat>)
  {
    forall k | 0 <= k < |items| :: items[k] < |g|
  }

  /** Python class names are identifiers: none holds a colon. */
  predicate IdentifierClasses(g: Arena)
  {
    forall i | 0 <= i < |g| :: ':' !in g[i].cls
  }

  // ---------------------------------------------------------------------------
  // What the creation loop does, as a function of the walk's output

  /** The nodes the loop creates: those without an id, in the order yielded. */
  function NewNodes(g: Arena, items: seq<nat>): (r: seq<nat>)
    requires InArena(g, items)
    ensures |r| <= |items| && InArena(g, r)
    ensures forall x | x in r :: x in items && IdOf(g[x]) == Null
    ensures forall k | 0 <= k < |items| :: items[k] in r <==> IdOf(g[items[k]]) == Null
  {
    if items == [] then []
    else
      assert forall k | 1 <= k < |items| :: items[1..][k - 1] == items[k];
      (if IdOf(g[items[0]]) == Null then [items[0]] else []) + NewNodes(g, items[1..])
  }

  /** The nodes to create from two stretches of the walk's output are those of
      the first stretch followed by those of the second: walk order and
      multiplicity are kept. */
  lemma {:induction false} NewNodesAppend(g: Arena, a: seq<nat>, b: seq<nat>)
    requires InArena(g, a) && InArena(g, b)
    ensures InArena(g, a + b)
    ensures NewNodes(g, a + b) == NewNodes(g, a) + NewNodes(g, b)
  {
    if a == [] {
      assert a + b == b;
    } else {
      assert (a + b)[1..] == a[1..] + b && (a + b)[0] == a[0];
      assert InArena(g, a[1..]) by {
        assert forall k | 0 <= k < |a| - 1 :: a[1..][k] == a[k + 1];
      }
      NewNodesAppend(g, a[1..], b);
      var head := if IdOf(g[a[0]]) == Null then [a[0]] else [];
      assert head + (NewNodes(g, a[1..]) + NewNodes(g, b)) == (head + NewNodes(g, a[1..])) + NewNodes(g, b);
    }
  }

  /** One more walked node adds itself at the end exactly when it has no id. */
  lemma NewNodesSnoc(g: Arena, s: seq<nat>, last: nat)
    requires InArena(g, s) && last < |g|
    ensures InArena(g, s + [last])
    ensures NewNodes(g, s + [last]) == NewNodes(g, s) + (if IdOf(g[last]) == Null then [last] else [])
  {
    NewNodesAppend(g, s, [last]);
    assert [last][1..] == [];
  }

  /** The write the loop makes for node `i` when its validation succeeded and
      `draw` was the number `random.randint(1, 100)` returned. */
  function NodeWrite(g: Arena, validate: Validator, i: nat, draw: nat): Write
    requires i < |g| && validate(g[i]).Some?
  {
    Write(Key(TableName(g[i].cls), draw), DropNone(validate(g[i]).value))
  }

  /** One turn of the loop, for node `i`, after the turns that produced `o`:
      nothing once an exception was raised or when the node has an id;
      otherwise the next number is drawn and the node is validated, and
      either the validated dict without its None values is stored or the
      validation error is raised. */
  function LoopStep(g: Arena, o: Outcome, i: nat, validate: Validator, draws: seq<nat>): (r: Outcome)
    requires i < |g| && |o.writes| < |draws|
    ensures o.error.Some? ==> r == o
    ensures |o.writes| <= |r.writes| <= |o.writes| + 1 && r.writes[..|o.writes|] == o.writes
    ensures |r.writes| > |o.writes| <==> o.error.None? && IdOf(g[i]) == Null && validate(g[i]).Some?
    ensures r.error.Some? ==> r.error == o.error || (r.error == Some(ValidationError) && validate(g[i]).None?)
  {
    if o.error.Some? || IdOf(g[i]) != Null then o
    else if validate(g[i]).None? then Outcome(o.writes, Some(ValidationError))
    else Outcome(o.writes + [NodeWrite(g, validate, i, draws[|o.writes|])], None)
  }

  /** The loop over the walk's output. What was stored before a raised
      exception stays stored. */
  function LoopWrites(g: Arena, items: seq<nat>, validate: Validator, draws: seq<nat>): (o: Outcome)
    requires InArena(g, items) && |items| <= |draws|
    ensures |o.writes| <= |items|
    decreases |items|
  {
    if items == [] then Outcome([], None)
    else LoopStep(g, LoopWrites(g, items[..|items| - 1], validate, draws), items[|items| - 1], validate, draws)
  }

  /** The whole mutation after the walk: the loop, then the root validated once
      more and stored under `"parents:foo"`. */
  function CreationWrites(g: Arena, root: nat, items: seq<nat>, validate: Validator, draws: seq<nat>)
    : (o: Outcome)
    requires root < |g| && InArena(g, items) && |items| <= |draws|
    ensures o.error == None || o.error == Some(ValidationError)
    ensures forall w | w in o.writes :: NoneFree(w.payload)
    ensures o.error == None ==> o.writes != [] && o.writes[|o.writes| - 1].key == ParentsKey
  {
    var loop := LoopWrites(g, items, validate, draws);
    LoopWritesMatchNewNodes(g, items, validate, draws);
    if loop.error.Some? then loop
    else match validate(g[root])
      case None => Outcome(loop.writes, Some(ValidationError))
      case Some(fs) => Outcome(loop.writes + [Write(ParentsKey, DropNone(fs))], None)
  }

  /** The writes `o` are those for the first nodes of `nn`, in order, the j-th
      under the j-th draw; when `o` ended in an exception, it is the validation
      error of the next node of `nn`. */
  predicate Matches(g: Arena, validate: Validator, draws: seq<nat>, o: Outcome, nn: seq<nat>)
    requires InArena(g, nn) && |nn| <= |draws|
  {
    && |o.writes| <= |nn|
    && (o.error == None ==> |o.writes| == |nn|)
    && (o.error != None ==>
          o.error == Some(ValidationError) && |o.writes| < |nn| && validate(g[nn[|o.writes|]]).None?)
    && forall j | 0 <= j < |o.writes| ::
         validate(g[nn[j]]).Some? && o.writes[j] == NodeWrite(g, validate, nn[j], draws[j])
  }

  lemma MatchStep(g: Arena, validate: Validator, draws: seq<nat>, o: Outcome, nn: seq<nat>, i: nat)
    requires InArena(g, nn) && i < |g| && |nn| < |draws|
    requires Matches(g, validate, draws, o, nn)
    ensures var nn' := nn + (if IdOf(g[i]) == Null then [i] else []);
      InArena(g, nn') && Matches(g, validate, draws, LoopStep(g, o, i, validate, draws), nn')
  {
    var nn' := nn + (if IdOf(g[i]) == Null then [i] else []);
    var o' := LoopStep(g, o, i, validate, draws);
    assert forall j | 0 <= j < |nn| :: nn'[j] == nn[j];
    if o.error.Some? || IdOf(g[i]) != Null {
      assert o' == o;
    } else if validate(g[i]).None? {
      assert o' == Outcome(o.writes, Some(ValidationError));
      assert nn'[|nn|] == i;
    } else {
      var w := NodeWrite(g, validate, i, draws[|o.writes|]);
      assert o' == Outcome(o.writes + [w], None);
      assert nn'[|nn|] == i;
      forall j | 0 <= j < |o'.writes|
        ensures validate(g[nn'[j]]).Some? && o'.writes[j] == NodeWrite(g, validate, nn'[j], draws[j])
      {
        if j < |o.writes| {
          assert o'.writes[j] == o.writes[j];
        }
      }
    }
  }

  /** The loop makes exactly one write per node without an id, in order, the
      j-th to the node's table under the j-th drawn number; it stops at the
      first node whose validation fails, after the writes for the nodes before it. */
  lemma {:induction false} LoopWritesMatchNewNodes(g: Arena, items: seq<nat>, validate: Validator,
                                                   draws: seq<nat>)
    requires InArena(g, items) && |items| <= |draws|
    ensures Matches(g, validate, draws, LoopWrites(g, items, validate, draws), NewNodes(g, items))
  {
    if items != [] {
      var init, last := items[..|items| - 1], items[|items| - 1];
      assert items == init + [last];
      LoopWritesMatchNewNodes(g, init, validate, draws);
      MatchStep(g, validate, draws, LoopWrites(g, init, validate, draws), NewNodes(g, init), last);
      NewNodesSnoc(g, init, last);
    }
  }

  /** Once the loop has raised, the rest of the walk's output is not looked at. */
  lemma {:induction false} LoopStopsAtError(g: Arena, items: seq<nat>, validate: Validator, draws: seq<nat>,
                                            k: nat)
    requires InArena(g, items) && |items| <= |draws| && k <= |items|
    requires LoopWrites(g, items[..k], validate, draws).error.Some?
    ensures LoopWrites(g, items, validate, draws) == LoopWrites(g, items[..k], validate, draws)
    decreases |items| - k
  {
    if k < |items| {
      var init := items[..|items| - 1];
      assert init[..k] == items[..k];
      LoopStopsAtError(g, init, validate, draws, k);
    } else {
      assert items[..k] == items;
    }
  }

  /** What the loop has done after `n` copies of the root: nothing when the root
      has an id, one write of the root's payload per copy, each under its own
      draw, when it validates, and a validation error at once when it does not. */
  predicate RootOnly(g: Arena, root: nat, n: nat, validate: Validator, draws: seq<nat>, o: Outcome)
    requires root < |g| && n <= |draws|
  {
    && |o.writes| <= n
    && (IdOf(g[root]) != Null || n == 0 ==> o == Outcome([], None))
    && (IdOf(g[root]) == Null && n > 0 && validate(g[root]).None? ==>
          o == Outcome([], Some(ValidationError)))
    && (IdOf(g[root]) == Null && validate(g[root]).Some? ==>
          o.error == None && |o.writes| == n &&
          forall j | 0 <= j < n :: o.writes[j] == NodeWrite(g, validate, root, draws[j]))
  }

  lemma RootOnlyStep(g: Arena, root: nat, n: nat, validate: Validator, draws: seq<nat>, prev: Outcome)
    requires root < |g| && 0 < n <= |draws| && RootOnly(g, root, n - 1, validate, draws, prev)
    ensures |prev.writes| < |draws|
    ensures RootOnly(g, root, n, validate, draws, LoopStep(g, prev, root, validate, draws))
  {
    var o := LoopStep(g, prev, root, validate, draws);
    if IdOf(g[root]) == Null && validate(g[root]).Some? {
      assert o.writes == prev.writes + [NodeWrite(g, validate, root, draws[n - 1])];
      forall j | 0 <= j < n ensures o.writes[j] == NodeWrite(g, validate, root, draws[j]) {
        if j < n - 1 {
          assert o.writes[j] == prev.writes[j];
        }
      }
    }
  }

  /** As written, the walk yields the root once per recorded node, so the loop
      only ever stores the root: nothing when it has an id, one write of the
      root's payload per recorded node (each under a fresh draw) when it has
      none, and nothing at all when its validation fails. */
  lemma {:induction false} AsWrittenOnlyRootStored(g: Arena, root: nat, n: nat, validate: Validator,
                                                   draws: seq<nat>)
    requires root < |g| && n <= |draws|
    ensures InArena(g, seq(n, _ => root))
    ensures var o := LoopWrites(g, seq(n, _ => root), validate, draws);
      && (IdOf(g[root]) != Null || n == 0 ==> o == Outcome([], None))
      && (IdOf(g[root]) == Null && n > 0 && validate(g[root]).None? ==>
            o == Outcome([], Some(ValidationError)))
      && (IdOf(g[root]) == Null && validate(g[root]).Some? ==>
            o.error == None && |o.writes| == n &&
            forall j | 0 <= j < n :: o.writes[j] == NodeWrite(g, validate, root, draws[j]))
  {
    RootCopies(g, root, n, validate, draws);
  }

  lemma {:induction false} RootCopies(g: Arena, root: nat, n: nat, validate: Validator, draws: seq<nat>)
    requires root < |g| && n <= |draws|
    ensures InArena(g, seq(n, _ => root))
    ensures RootOnly(g, root, n, validate, draws, LoopWrites(g, seq(n, _ => root), validate, draws))
  {
    if n > 0 {
      var items := seq(n, _ => root);
      assert items[..n - 1] == seq(n - 1, _ => root) && items[n - 1] == root;
      RootCopies(g, root, n - 1, validate, draws);
      RootOnlyStep(g, root, n, validate, draws, LoopWrites(g, items[..n - 1], validate, draws));
    }
  }

  // ---------------------------------------------------------------------------
  // The dict after a sequence of writes

  /** Assigning the writes in order: a later write to the same key wins. */
  function Apply(m: Entries, ws: seq<Write>): (r: Entries)
    ensures forall k | k in m :: k in r
    ensures forall k | k in r && k !in m :: exists w | w in ws :: w.key == k
    ensures forall w | w in ws :: w.key in r
  {
    if ws == [] then m
    else Apply(m, ws[..|ws| - 1])[ws[|ws| - 1].key := ws[|ws| - 1].payload]
  }

  lemma ApplySnoc(m: Entries, ws: seq<Write>, w: Write)
    ensures Apply(m, ws + [w]) == Apply(m, ws)[w.key := w.payload]
  {
    assert (ws + [w])[..|ws|] == ws;
  }

  /** The payload of the last write to `key`, if any. */
  function LastWrite(ws: seq<Write>, key: string): (r: Option<seq<Field>>)
    ensures r.Some? <==> exists w | w in ws :: w.key == key
    ensures r.Some? ==> Write(key, r.value) in ws
    ensures r.Some? ==> exists j | 0 <= j < |ws| ::
              ws[j] == Write(key, r.value) && forall j' | j < j' < |ws| :: ws[j'].key != key
  {
    if ws == [] then None
    else if ws[|ws| - 1].key == key then Some(ws[|ws| - 1].payload)
    else
      var r := LastWrite(ws[..|ws| - 1], key);
      assert forall w | w in ws[..|ws| - 1] :: w in ws;
      assert ws == ws[..|ws| - 1] + [ws[|ws| - 1]];
      assert forall j | 0 <= j < |ws| - 1 :: ws[..|ws| - 1][j] == ws[j];
      r
  }

  /** A written key holds the payload of its last write; every other key is
      untouched. */
  lemma {:induction false} ApplyLookup(m: Entries, ws: seq<Write>, key: string)
    ensures LastWrite(ws, key).Some? ==>
              key in Apply(m, ws) && Apply(m, ws)[key] == LastWrite(ws, key).value
    ensures LastWrite(ws, key).None? ==>
              (key in Apply(m, ws) <==> key in m) && (key in m ==> Apply(m, ws)[key] == m[key])
  {
    if ws != [] {
      ApplyLookup(m, ws[..|ws| - 1], key);
    }
  }

  // ---------------------------------------------------------------------------
  // Query.node

  /** `Query.node(id)`: the type name is the part of `id` before the first
      colon; the entry is looked up first, then the type name. Either lookup
      raises KeyError when the key is missing. */
  function QueryNode(entries: Entries, id: string): (r: Result<(string, seq<Field>)>)
    ensures r.Ok? <==> id in entries && Prefix(id) in NodeTypes
    ensures r.Ok? ==> r.value == (Prefix(id), entries[id])
    ensures id !in entries ==> r == Err(MissingKey)
    ensures id in entries && Prefix(id) !in NodeTypes ==> r == Err(UnknownType)
  {
    var typename := Prefix(id);
    if id !in entries then Err(MissingKey)
    else if typename !in NodeTypes then Err(UnknownType)
    else Ok((typename, entries[id]))
  }

  /** The type name `Query.node` recovers from a key the loop writes is the
      node's table name, which ends in "s". */
  lemma LoopKeyTypeName(g: Arena, items: seq<nat>, validate: Validator, draws: seq<nat>, j: nat)
    requires InArena(g, items) && |items| <= |draws| && IdentifierClasses(g)
    requires j < |LoopWrites(g, items, validate, draws).writes|
    ensures var t := Prefix(LoopWrites(g, items, validate, draws).writes[j].key);
      t != [] && t[|t| - 1] == 's'
  {
    LoopWritesMatchNewNodes(g, items, validate, draws);
    var cls := g[NewNodes(g, items)[j]].cls;
    TableNameHasNoColon(cls);
    PrefixOfKey(TableName(cls), draws[j]);
  }

  /** No key the mutation writes can be read back through `Query.node`: the
      type name recovered from any of them is a table name, which ends in "s",
      or "parents", and neither is a key of `nodes`. */
  lemma WrittenKeysNotResolvable(g: Arena, root: nat, items: seq<nat>, validate: Validator,
                                 draws: seq<nat>, m: Entries, w: Write)
    requires root < |g| && InArena(g, items) && |items| <= |draws| && IdentifierClasses(g)
    requires w in CreationWrites(g, root, items, validate, draws).writes
    ensures QueryNode(Apply(m, CreationWrites(g, root, items, validate, draws).writes), w.key)
              == Err(UnknownType)
  {
    var ws := CreationWrites(g, root, items, validate, draws).writes;
    ApplyLookup(m, ws, w.key);
    assert w.key in Apply(m, ws);
    assert Prefix(w.key) !in NodeTypes by {
      WrittenKeyTypeName(g, root, items, validate, draws, w);
    }
  }

  /** The mutation's writes are the loop's writes, then at most the root's. */
  lemma CreationWritesExtendLoop(g: Arena, root: nat, items: seq<nat>, validate: Validator, draws: seq<nat>)
    requires root < |g| && InArena(g, items) && |items| <= |draws|
    ensures var ws := CreationWrites(g, root, items, validate, draws).writes;
      var loop := LoopWrites(g, items, validate, draws).writes;
      && |loop| <= |ws| <= |loop| + 1 && ws[..|loop|] == loop
      && (|ws| > |loop| ==> ws[|loop|].key == ParentsKey)
  {
  }

  /** The type name recovered from a written key is a table name or "parents". */
  lemma WrittenKeyTypeName(g: Arena, root: nat, items: seq<nat>, validate: Validator,
                           draws: seq<nat>, w: Write)
    requires root < |g| && InArena(g, items) && |items| <= |draws| && IdentifierClasses(g)
    requires w in CreationWrites(g, root, items, validate, draws).writes
    ensures var t := Prefix(w.key); t == "parents" || (t != [] && t[|t| - 1] == 's')
  {
    var ws := CreationWrites(g, root, items, validate, draws).writes;
    var loop := LoopWrites(g, items, validate, draws).writes;
    CreationWritesExtendLoop(g, root, items, validate, draws);
    var j :| 0 <= j < |ws| && ws[j] == w;
    if j < |loop| {
      assert w == ws[..|loop|][j] == loop[j];
      LoopKeyTypeName(g, items, validate, draws, j);
    } else {
      assert w.key == ParentsKey;
      ParentsKeyTypeName();
    }
  }

  lemma ParentsKeyTypeName()
    ensures Prefix(ParentsKey) == "parents"
  {
    assert ParentsKey == "parents" + ":" + "foo";
    PrefixOfJoin("parents", "foo");
  }

  // ---------------------------------------------------------------------------
  // The database

  class Database {
    /** The module-level `database` dict. */
    var entries: Entries

    constructor ()
      ensures entries == map[]
    {
      entries := map[];
    }

    /** The loop of `create_parent` over the walk's output `items`: it stores
        every node without an id, and reports whether a validation failed. */
    method StoreNewNodes(g: Arena, items: seq<nat>, validate: Validator, draws: seq<nat>)
        returns (failed: bool)
      requires InArena(g, items) && |items| <= |draws|
      modifies this
      ensures failed <==> LoopWrites(g, items, validate, draws).error.Some?
      ensures entries == Apply(old(entries), LoopWrites(g, items, validate, draws).writes)
    {
      var written := 0;
      for k := 0 to |items|
        invariant LoopWrites(g, items[..k], validate, draws).error == None
        invariant written == |LoopWrites(g, items[..k], validate, draws).writes|
        invariant entries == Apply(old(entries), LoopWrites(g, items[..k], validate, draws).writes)
      {
        ghost var before := LoopWrites(g, items[..k], validate, draws);
        assert items[..k + 1][..k] == items[..k];
        assert LoopWrites(g, items[..k + 1], validate, draws) == LoopStep(g, before, items[k], validate, draws);
        var node := g[items[k]];
        if IdOf(node) == Null {
          var table := TableName(node.cls);
          var id := draws[written];
          var validated := validate(node);
          if validated.None? {
            LoopStopsAtError(g, items, validate, draws, k + 1);
            return true;
          }
          ApplySnoc(old(entries), before.writes, NodeWrite(g, validate, items[k], id));
          entries := entries[Key(table, id) := DropNone(validated.value)];
          written := written + 1;
        }
      }
      assert items[..|items|] == items;
      failed := false;
    }

    /** `create_parent(input)` for the input object `root`. `depth` is the
        recursion depth the interpreter allows the walk, `validate` stands for
        pydantic, and `draws` are the numbers `random.randint(1, 100)` returns,
        in order. The ghost outputs are the walk's result and its recorded keys. */
    method CreateParent(g: Arena, root: nat, depth: nat, validate: Validator, draws: seq<nat>)
        returns (r: Result<seq<Field>>, ghost walk: Result<seq<nat>>, ghost keys: seq<nat>)
      requires WellFormed(g) && root < |g|
      requires Ceiling <= |draws| && forall k | 0 <= k < |draws| :: 1 <= draws[k] <= 100
      modifies this
      ensures keys != [] && keys[0] == root && Distinct(keys)
      ensures forall n | n in keys :: Reachable(g, depth, root, n)
      ensures walk == Err(TooManyNodes) ==> |keys| == Ceiling + 1
      ensures walk.Err? && walk.error != TooManyNodes ==>
                exists n | n in keys && n < |g| :: Successors(g, depth, n).raised == Some(walk.error)
      ensures walk.Err? ==> r == Err(walk.error) && entries == old(entries)
      ensures walk.Ok? ==>
                && |keys| <= Ceiling && walk.value == seq(|keys|, _ => root)
                && Closed(g, depth, keys)
                && (forall n :: n in keys <==> Reachable(g, depth, root, n))
                && var o := CreationWrites(g, root, walk.value, validate, draws);
                   && entries == Apply(old(entries), o.writes)
                   && r == (if o.error.Some? then Err(o.error.value) else Ok(o.writes[|o.writes| - 1].payload))
      ensures r.Ok? ==> ParentsKey in entries && entries[ParentsKey] == r.value
    {
      var walked;
      ghost var found, expanded;
      walked, keys, found, expanded := DepthFirstSearch(g, root, depth);
      walk := walked;
      forall n | n in keys ensures Reachable(g, depth, root, n) {
        var k :| 0 <= k < |keys| && keys[k] == n;
        var p := DiscoveredPath(g, depth, keys, found, k);
      }
      if walked.Err? {
        return Err(walked.error), walk, keys;
      }
      var failed := StoreNewNodes(g, walked.value, validate, draws);
      if failed {
        return Err(ValidationError), walk, keys;
      }
      var result := validate(g[root]);
      if result.None? {
        return Err(ValidationError), walk, keys;
      }
      entries := entries[ParentsKey := DropNone(result.value)];
      r := Ok(entries[ParentsKey]);
    }
  }
}

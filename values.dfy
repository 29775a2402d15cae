/** Python values as the deep-mutation prototype sees them.
    Objects live in an arena (a sequence of objects); a reference to an object is
    its index there, which stands for Python's object identity (`id()`). */
module Values {

  datatype Option<+T> = None | Some(value: T)

  datatype Result<+T> = Ok(value: T) | Err(error: Error)

  /** The exceptions the modelled code can raise. */
  datatype Error =
    | TooManyNodes     // ValueError("Graph has too many nodes")
    | NoAttributes     // TypeError: vars() of a list, a string, a number or None
    | RecursionDepth   // RecursionError: the interpreter's recursion limit was reached
    | ValidationError  // pydantic refused the node in to_pydantic()
    | MissingKey       // KeyError on the `database` dict
    | UnknownType      // KeyError on the `nodes` dict

  /** A field value: a reference to an object, a list, a scalar, or None (`Null`). */
  datatype Value =
    | Ref(index: nat)
    | List(items: seq<Value>)
    | Text(s: string)
    | Num(n: int)
    | Null

  /** One attribute of an object, as `vars(obj)` lists it. */
  datatype Field = Field(name: string, value: Value)

  /** An object: the name of its class and its attributes in definition order. */
  datatype Obj = Obj(cls: string, fields: seq<Field>)

  type Arena = seq<Obj>

  /** Every reference inside `v` names an object of an arena of `n` objects. */
  predicate ValueIn(v: Value, n: nat)
  {
    match v
    case Ref(i) => i < n
    case List(items) => forall x | x in items :: ValueIn(x, n)
    case _ => true
  }

  /** No reference dangles: Python references always name a live object. */
  predicate WellFormed(g: Arena)
  {
    forall i, f | 0 <= i < |g| && f in g[i].fields :: ValueIn(f.value, |g|)
  }

  predicate UniqueNames(fs: seq<Field>)
  {
    forall i, j | 0 <= i < j < |fs| :: fs[i].name != fs[j].name
  }

  predicate NoneFree(fs: seq<Field>)
  {
    forall f | f in fs :: f.value != Null
  }

  /** `d[name]` on the dict the fields stand for, or None when the key is absent. */
  function Get(fs: seq<Field>, name: string): (r: Option<Value>)
    ensures r.Some? <==> exists f | f in fs :: f.name == name
    ensures r.Some? ==> Field(name, r.value) in fs
  {
    if fs == [] then None
    else if fs[0].name == name then Some(fs[0].value)
    else Get(fs[1..], name)
  }

  /** `{k: v for k, v in d.items() if v is not None}`, which is also what
      pydantic's `dict(exclude_none=True)` does to a flat model. */
  function DropNone(fs: seq<Field>): (r: seq<Field>)
    ensures forall f :: f in r <==> f in fs && f.value != Null
    ensures |r| <= |fs|
  {
    if fs == [] then []
    else (if fs[0].value == Null then [] else [fs[0]]) + DropNone(fs[1..])
  }

  /** Filtering keeps the dict's key order: it distributes over concatenation. */
  lemma {:induction false} DropNoneAppend(a: seq<Field>, b: seq<Field>)
    ensures DropNone(a + b) == DropNone(a) + DropNone(b)
  {
    if a != [] {
      var head := if a[0].value == Null then [] else [a[0]];
      assert (a + b)[0] == a[0];
      assert (a + b)[1..] == a[1..] + b;
      DropNoneAppend(a[1..], b);
      assert DropNone(a + b) == head + DropNone(a[1..] + b);
      assert DropNone(a) == head + DropNone(a[1..]);
    } else {
      assert a + b == b;
    }
  }

  lemma UniqueNamesTail(fs: seq<Field>)
    requires fs != [] && UniqueNames(fs)
    ensures UniqueNames(fs[1..])
    ensures Get(fs[1..], fs[0].name) == None
  {
    forall i, j | 0 <= i < j < |fs[1..]| ensures fs[1..][i].name != fs[1..][j].name {
      assert fs[1..][i] == fs[i + 1] && fs[1..][j] == fs[j + 1];
    }
  }

  /** Looking a key up in the filtered dict gives the original value unless it was None. */
  lemma {:induction false} DropNoneGet(fs: seq<Field>, name: string)
    requires UniqueNames(fs)
    ensures Get(DropNone(fs), name) ==
              if Get(fs, name) == Some(Null) then None else Get(fs, name)
  {
    if fs != [] {
      UniqueNamesTail(fs);
      DropNoneGet(fs[1..], name);
      var d := DropNone(fs);
      if fs[0].value != Null {
        assert d == [fs[0]] + DropNone(fs[1..]);
        assert d[0] == fs[0] && d[1..] == DropNone(fs[1..]);
      } else {
        assert d == DropNone(fs[1..]);
      }
    }
  }

  lemma {:induction false} DropNoneIdempotent(fs: seq<Field>)
    ensures DropNone(DropNone(fs)) == DropNone(fs)
  {
    if fs != [] {
      DropNoneIdempotent(fs[1..]);
      var d := DropNone(fs);
      if fs[0].value != Null {
        assert d == [fs[0]] + DropNone(fs[1..]);
        assert d[0] == fs[0] && d[1..] == DropNone(fs[1..]);
        assert DropNone(d) == [d[0]] + DropNone(d[1..]);
      } else {
        assert d == DropNone(fs[1..]);
      }
    }
  }
}

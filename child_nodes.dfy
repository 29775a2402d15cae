/** `get_child_nodes`: the input-node instances visible from one value.
    Python's generator is modelled by what it produced before it stopped: the
    items it yielded, in order, and the exception that ended it, if any. The
    depth argument is the recursion depth the interpreter still allows; every
    nested call of the generator uses one level. */
module Children {
  import opened Values

  /** The `input_nodes` registry: the classes of the deep-mutation inputs. */
  const InputNodes: set<string> := {"ParentInput", "ChildInput"}

  datatype Yield = Yield(nodes: seq<nat>, raised: Option<Error>)

  /** Running one generator after another: a raised exception ends the whole run. */
  function Then(a: Yield, b: Yield): Yield
  {
    if a.raised.Some? then a else Yield(a.nodes + b.nodes, b.raised)
  }

  /** Only input-node objects are yielded, and the only exceptions are the
      TypeError of `vars()` and the interpreter's RecursionError. */
  predicate OnlyInputNodes(g: Arena, y: Yield)
  {
    && (forall n | n in y.nodes :: n < |g| && g[n].cls in InputNodes)
    && y.raised in {None, Some(NoAttributes), Some(RecursionDepth)}
  }

  /** Lists are walked item by item; an object is yielded when its class is an
      input node, and then every attribute of it is looked at. `vars()` of a list
      or of a scalar raises TypeError, so a value that is not an object always
      ends in an exception. */
  function ChildNodes(g: Arena, v: Value, depth: nat): (y: Yield)
    requires WellFormed(g) && ValueIn(v, |g|)
    ensures OnlyInputNodes(g, y)
    ensures depth > 0 && v.Ref? && g[v.index].cls in InputNodes ==>
              y.nodes != [] && y.nodes[0] == v.index
    ensures !v.Ref? ==> y.raised.Some?
    decreases depth, 0, 0
  {
    if depth == 0 then Yield([], Some(RecursionDepth))
    else match v
      case List(items) => Then(ItemNodes(g, items, depth - 1), Yield([], Some(NoAttributes)))
      case Ref(i) =>
        Then(if g[i].cls in InputNodes then Yield([i], None) else Yield([], None),
             FieldNodes(g, g[i].fields, depth - 1))
      case _ => Yield([], Some(NoAttributes))
  }

  /** `for item in items: yield from get_child_nodes(item)` */
  function ItemNodes(g: Arena, items: seq<Value>, depth: nat): (y: Yield)
    requires WellFormed(g) && forall x | x in items :: ValueIn(x, |g|)
    ensures OnlyInputNodes(g, y)
    decreases depth, 1, |items|
  {
    if items == [] then Yield([], None)
    else Then(ChildNodes(g, items[0], depth), ItemNodes(g, items[1..], depth))
  }

  /** The loop over `vars(node).values()`: an input-node attribute is yielded
      itself (its own attributes are not looked at); a list attribute is walked. */
  function FieldNodes(g: Arena, fields: seq<Field>, depth: nat): (y: Yield)
    requires WellFormed(g) && forall f | f in fields :: ValueIn(f.value, |g|)
    ensures OnlyInputNodes(g, y)
    decreases depth, 2, |fields|
  {
    if fields == [] then Yield([], None)
    else
      assert fields[0] in fields && ValueIn(fields[0].value, |g|);
      var here := match fields[0].value
        case Ref(j) => if g[j].cls in InputNodes then Yield([j], None) else Yield([], None)
        case List(items) => ItemNodes(g, items, depth)
        case _ => Yield([], None);
      Then(here, FieldNodes(g, fields[1..], depth))
  }

  // ---------------------------------------------------------------------------
  // A reference description for objects without list attributes

  predicate HasNoList(o: Obj)
  {
    forall f | f in o.fields :: !f.value.List?
  }

  /** The input nodes among the direct attributes, in attribute order. */
  function DirectInputRefs(g: Arena, fields: seq<Field>): seq<nat>
    requires forall f | f in fields :: ValueIn(f.value, |g|)
  {
    if fields == [] then []
    else
      assert fields[0] in fields && ValueIn(fields[0].value, |g|);
      (if fields[0].value.Ref? && g[fields[0].value.index].cls in InputNodes
       then [fields[0].value.index] else [])
      + DirectInputRefs(g, fields[1..])
  }

  /** What one list item that refers to an object without list attributes gives:
      the object itself when it is an input node, then its input-node attributes. */
  function Visible(g: Arena, i: nat): seq<nat>
    requires WellFormed(g) && i < |g|
  {
    (if g[i].cls in InputNodes then [i] else []) + DirectInputRefs(g, g[i].fields)
  }

  predicate FlatItems(g: Arena, items: seq<Value>)
  {
    forall x | x in items :: x.Ref? && x.index < |g| && HasNoList(g[x.index])
  }

  function VisibleAll(g: Arena, items: seq<Value>): seq<nat>
    requires WellFormed(g) && FlatItems(g, items)
  {
    if items == [] then [] else Visible(g, items[0].index) + VisibleAll(g, items[1..])
  }

  lemma {:induction false} FieldNodesWithoutLists(g: Arena, fields: seq<Field>, depth: nat)
    requires WellFormed(g) && forall f | f in fields :: ValueIn(f.value, |g|) && !f.value.List?
    ensures FieldNodes(g, fields, depth) == Yield(DirectInputRefs(g, fields), None)
  {
    if fields != [] {
      FieldNodesWithoutLists(g, fields[1..], depth);
    }
  }

  /** An object without list attributes yields itself (when it is an input node)
      and then the input nodes among its attributes, and raises nothing. */
  lemma ObjectWithoutLists(g: Arena, i: nat, depth: nat)
    requires WellFormed(g) && i < |g| && HasNoList(g[i]) && depth > 0
    ensures ChildNodes(g, Ref(i), depth) == Yield(Visible(g, i), None)
  {
    FieldNodesWithoutLists(g, g[i].fields, depth - 1);
  }

  /** A list of such objects is walked in list order, and each item that is an
      input node is followed by its own input-node attributes. */
  lemma {:induction false} ListOfFlatObjects(g: Arena, items: seq<Value>, depth: nat)
    requires WellFormed(g) && FlatItems(g, items) && depth > 0
    ensures forall x | x in items :: ValueIn(x, |g|)
    ensures ItemNodes(g, items, depth) == Yield(VisibleAll(g, items), None)
  {
    if items != [] {
      assert items[0] in items;
      ObjectWithoutLists(g, items[0].index, depth);
      ListOfFlatObjects(g, items[1..], depth);
    }
  }

  /** A list holding anything but objects (a nested list, a string, None) makes
      the walk raise: `vars()` is reached on a value that has no attributes. */
  lemma {:induction false} NonObjectItemRaises(g: Arena, items: seq<Value>, depth: nat, k: nat)
    requires WellFormed(g) && forall x | x in items :: ValueIn(x, |g|)
    requires k < |items| && !items[k].Ref?
    ensures ItemNodes(g, items, depth).raised.Some?
  {
    if k > 0 {
      NonObjectItemRaises(g, items[1..], depth, k - 1);
    }
  }

  /** An object whose first attribute is a list that starts with the object
      itself is re-entered until the interpreter's recursion limit is hit. */
  lemma {:induction false} SelfListRecursesForever(g: Arena, i: nat, depth: nat)
    requires WellFormed(g) && i < |g|
    requires g[i].fields != [] && g[i].fields[0].value.List?
    requires g[i].fields[0].value.items != [] && g[i].fields[0].value.items[0] == Ref(i)
    ensures ChildNodes(g, Ref(i), depth).raised == Some(RecursionDepth)
  {
    if depth > 0 {
      SelfListRecursesForever(g, i, depth - 1);
      var items := g[i].fields[0].value.items;
      assert g[i].fields[0] in g[i].fields;
      assert ItemNodes(g, items, depth - 1).raised == Some(RecursionDepth);
    }
  }
}

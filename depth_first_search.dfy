/** `depth_first_search`: the walk over the input graph with an explicit stack
    and an insertion-ordered `explored` dict keyed by object identity. */
module Search {
  import opened Values
  import opened Children

  /** The most nodes, the root included, that one walk may record. */
  const Ceiling := 100

  /** What `get_child_nodes` yields for the object at index `n`. */
  function Successors(g: Arena, depth: nat, n: nat): Yield
    requires WellFormed(g) && n < |g|
  {
    ChildNodes(g, Ref(n), depth)
  }

  predicate Distinct(s: seq<nat>)
  {
    forall i, j | 0 <= i < j < |s| :: s[i] != s[j]
  }

  function Reversed(s: seq<nat>): (r: seq<nat>)
    ensures |r| == |s|
    ensures forall k | 0 <= k < |s| :: r[k] == s[|s| - 1 - k]
  {
    if s == [] then [] else Reversed(s[1..]) + [s[0]]
  }

  /** Every recorded node but the first was recorded while expanding a node
      recorded before it: `found[k]` is the position of that earlier node. */
  ghost predicate Discovered(g: Arena, depth: nat, keys: seq<nat>, found: seq<nat>)
    requires WellFormed(g)
  {
    && |found| == |keys|
    && (forall k | 0 <= k < |keys| :: keys[k] < |g|)
    && forall k | 0 < k < |keys| ::
         found[k] < k && keys[k] in Successors(g, depth, keys[found[k]]).nodes
  }

  /** Every node of `s` yields without raising, and only nodes of `t`. */
  ghost predicate ClosedIn(g: Arena, depth: nat, s: seq<nat>, t: seq<nat>)
    requires WellFormed(g)
  {
    forall n | n in s ::
      && n < |g|
      && Successors(g, depth, n).raised == None
      && forall c | c in Successors(g, depth, n).nodes :: c in t
  }

  ghost predicate Closed(g: Arena, depth: nat, s: seq<nat>)
    requires WellFormed(g)
  {
    ClosedIn(g, depth, s, s)
  }

  /** A chain of objects, each yielded by `get_child_nodes` of the one before. */
  ghost predicate IsPath(g: Arena, depth: nat, p: seq<nat>)
    requires WellFormed(g)
  {
    && |p| > 0
    && forall i | 0 <= i < |p| - 1 :: p[i] < |g| && p[i + 1] in Successors(g, depth, p[i]).nodes
  }

  ghost predicate Reachable(g: Arena, depth: nat, root: nat, n: nat)
    requires WellFormed(g)
  {
    exists p :: IsPath(g, depth, p) && p[0] == root && p[|p| - 1] == n
  }

  /** The yielded nodes that are not in `seen`, each once, in the order they
      were first yielded: what the inner loop adds to `explored`. */
  function Unseen(ys: seq<nat>, seen: seq<nat>): seq<nat>
  {
    if ys == [] then []
    else
      var u := Unseen(ys[..|ys| - 1], seen);
      var last := ys[|ys| - 1];
      assert ys == ys[..|ys| - 1] + [last];
      u + (if last in seen || last in u then [] else [last])
  }

  lemma {:induction false} UnseenIsFresh(ys: seq<nat>, seen: seq<nat>)
    ensures forall x :: x in Unseen(ys, seen) <==> x in ys && x !in seen
    ensures Distinct(Unseen(ys, seen))
  {
    if ys != [] {
      var init, last := ys[..|ys| - 1], ys[|ys| - 1];
      UnseenIsFresh(init, seen);
      assert ys == init + [last];
      var u := Unseen(init, seen);
      if !(last in seen || last in u) {
        DistinctAppend(u, [last]);
      }
    }
  }

  /** The loop over one node's `get_child_nodes`: every yielded node not yet
      explored is recorded (with the root as its value, as written) and pushed;
      the walk stops with ValueError as soon as more than `Ceiling` nodes are
      recorded. `stop` is how many yielded items were consumed. */
  method RecordChildren(ys: seq<nat>, root: nat, explored: seq<nat>, values: seq<nat>, stack: seq<nat>)
      returns (explored': seq<nat>, values': seq<nat>, stack': seq<nat>, overflow: bool, ghost stop: nat)
    requires |explored| <= Ceiling
    ensures stop <= |ys|
    ensures explored' == explored + Unseen(ys[..stop], explored)
    ensures |values'| == |values| + |Unseen(ys[..stop], explored)|
    ensures values'[..|values|] == values && forall k | |values| <= k < |values'| :: values'[k] == root
    ensures !overflow ==> stop == |ys| && |explored'| <= Ceiling
    ensures !overflow ==> stack' == stack + Unseen(ys, explored)
    ensures overflow ==> 0 < stop && |explored + Unseen(ys[..stop - 1], explored)| <= Ceiling
    ensures overflow ==> |explored'| == Ceiling + 1
  {
    explored', values', stack', overflow := explored, values, stack, false;
    var j := 0;
    while j < |ys|
      invariant 0 <= j <= |ys|
      invariant explored' == explored + Unseen(ys[..j], explored)
      invariant |values'| == |values| + |Unseen(ys[..j], explored)|
      invariant values'[..|values|] == values && forall k | |values| <= k < |values'| :: values'[k] == root
      invariant stack' == stack + Unseen(ys[..j], explored)
      invariant |explored'| <= Ceiling
    {
      var child := ys[j];
      ghost var before := Unseen(ys[..j], explored);
      assert ys[..j + 1][..j] == ys[..j] && ys[..j + 1][j] == child;
      assert Unseen(ys[..j + 1], explored) ==
               before + (if child in explored || child in before then [] else [child]);
      assert child in explored' <==> child in explored || child in before;
      if child !in explored' {
        explored' := explored' + [child];
        values' := values' + [root];
        if |explored'| > Ceiling {
          overflow, stop := true, j + 1;
          return;
        }
        stack' := stack' + [child];
      }
      j := j + 1;
    }
    assert ys[..j] == ys;
    stop := j;
  }

  /** What holds of the record at the head of the walk's loop: the keys of
      `explored` are distinct and discovered, and every value is the root. */
  ghost predicate Recorded(g: Arena, depth: nat, root: nat, explored: seq<nat>, found: seq<nat>,
                           values: seq<nat>)
    requires WellFormed(g)
  {
    && 0 < |explored| <= Ceiling && explored[0] == root && Distinct(explored)
    && Discovered(g, depth, explored, found)
    && |values| == |explored| && (forall k | 0 <= k < |values| :: values[k] == root)
  }

  /** What holds of the stack at the head of the walk's loop. `expanded` lists
      the popped nodes; every recorded node is either popped or on the stack,
      and every popped node yielded only recorded nodes. */
  ghost predicate Frontier(g: Arena, depth: nat, explored: seq<nat>, expanded: seq<nat>, stack: seq<nat>)
    requires WellFormed(g)
  {
    && Distinct(expanded) && Distinct(stack)
    && (forall n | n in expanded :: n !in stack)
    && (forall n :: n in explored <==> n in expanded || n in stack)
    && ClosedIn(g, depth, expanded, explored)
  }

  /** The walk. The result is the sequence it yields and `keys` the keys of
      `explored` in insertion order; the ghost outputs expose which recorded
      node each key was found from, and the order in which nodes were popped. As written,
      every value stored in `explored` is the root, so the walk yields the root
      once per recorded node. */
  method DepthFirstSearch(g: Arena, root: nat, depth: nat)
      returns (r: Result<seq<nat>>, keys: seq<nat>, ghost found: seq<nat>,
               ghost expanded: seq<nat>)
    requires WellFormed(g) && root < |g|
    ensures keys != [] && keys[0] == root && Distinct(keys)
    ensures Discovered(g, depth, keys, found)
    ensures Distinct(expanded) && forall n | n in expanded :: n in keys
    ensures r.Ok? ==> |keys| <= Ceiling && Closed(g, depth, keys)
    ensures r.Ok? ==> forall n | n in keys :: n in expanded
    ensures r.Ok? ==> r.value == seq(|keys|, _ => root)
    ensures r.Ok? ==> forall n :: n in keys <==> Reachable(g, depth, root, n)
    ensures r == Err(TooManyNodes) ==> |keys| == Ceiling + 1
    ensures r.Err? && r.error != TooManyNodes ==>
              |keys| <= Ceiling && exists n | n in expanded :: Successors(g, depth, n).raised == Some(r.error)
  {
    var stack: seq<nat> := [root];
    var explored: seq<nat> := [root];   // the keys of `explored`, in insertion order
    var values: seq<nat> := [root];     // its values
    found, expanded := [0], [];
    while stack != []
      invariant Recorded(g, depth, root, explored, found, values)
      invariant Frontier(g, depth, explored, expanded, stack)
      decreases Ceiling - |explored|, |stack|
    {
      var current := stack[|stack| - 1];
      ghost var at := PoppedIsRecorded(g, depth, explored, expanded, stack);
      var ys := Successors(g, depth, current);
      var explored', values', stack', overflow, stop :=
        RecordChildren(ys.nodes, root, explored, values, stack[..|stack| - 1]);
      ghost var u := Unseen(ys.nodes[..stop], explored);
      if overflow {
        RecordedPrefix(g, depth, explored, found, expanded, at, ys.nodes, stop);
        keys, found := explored', found + seq(|u|, _ => at);
        r := Err(TooManyNodes);
        return;
      }
      assert ys.nodes[..stop] == ys.nodes;
      if ys.raised.Some? {
        RecordedPrefix(g, depth, explored, found, expanded, at, ys.nodes, stop);
        keys, found, expanded := explored', found + seq(|u|, _ => at), expanded + [current];
        r := Err(ys.raised.value);
        return;
      }
      StepRecorded(g, depth, root, explored, found, values, expanded, at, u, values');
      StepFrontier(g, depth, explored, expanded, stack, u);
      explored, values, stack := explored', values', stack';
      found, expanded := found + seq(|u|, _ => at), expanded + [current];
    }
    WalkFinished(g, depth, root, explored, found, values, expanded);
    keys := explored;
    r := Ok(Reversed(values));
  }

  /** The node on top of the stack has been recorded; `at` is its position. */
  lemma PoppedIsRecorded(g: Arena, depth: nat, explored: seq<nat>, expanded: seq<nat>, stack: seq<nat>)
      returns (at: nat)
    requires WellFormed(g) && Frontier(g, depth, explored, expanded, stack)
    requires forall k | 0 <= k < |explored| :: explored[k] < |g|
    requires stack != []
    ensures at < |explored| && explored[at] == stack[|stack| - 1] && explored[at] < |g|
    ensures explored[at] !in expanded
  {
    assert stack[|stack| - 1] in stack;
    at :| 0 <= at < |explored| && explored[at] == stack[|stack| - 1];
  }

  /** When the walk stops in the middle of a node (too many nodes, or an
      exception from `get_child_nodes`), what has been recorded so far is still
      distinct and discovered, and the node is not among the popped ones. */
  lemma RecordedPrefix(g: Arena, depth: nat, explored: seq<nat>, found: seq<nat>, expanded: seq<nat>,
                       at: nat, ys: seq<nat>, stop: nat)
    requires WellFormed(g) && Discovered(g, depth, explored, found) && Distinct(explored)
    requires Distinct(expanded) && forall n | n in expanded :: n in explored
    requires at < |explored| && explored[at] !in expanded
    requires ys == Successors(g, depth, explored[at]).nodes && stop <= |ys|
    ensures Distinct(explored + Unseen(ys[..stop], explored))
    ensures Discovered(g, depth, explored + Unseen(ys[..stop], explored),
                       found + seq(|Unseen(ys[..stop], explored)|, _ => at))
    ensures Distinct(expanded + [explored[at]])
    ensures forall n | n in expanded + [explored[at]] :: n in explored + Unseen(ys[..stop], explored)
  {
    var u := Unseen(ys[..stop], explored);
    UnseenIsFresh(ys[..stop], explored);
    DistinctAppend(explored, u);
    DistinctAppend(expanded, [explored[at]]);
    assert forall x | x in u :: x in ys by {
      forall x | x in u ensures x in ys {
        var k :| 0 <= k < stop && ys[..stop][k] == x;
      }
    }
    DiscoveredExtend(g, depth, explored, found, at, u);
  }

  /** One iteration of the loop keeps the record's invariant. */
  lemma StepRecorded(g: Arena, depth: nat, root: nat, explored: seq<nat>, found: seq<nat>,
                     values: seq<nat>, expanded: seq<nat>, at: nat, u: seq<nat>, values': seq<nat>)
    requires WellFormed(g) && Recorded(g, depth, root, explored, found, values)
    requires Distinct(expanded) && forall n | n in expanded :: n in explored
    requires at < |explored| && explored[at] !in expanded
    requires u == Unseen(Successors(g, depth, explored[at]).nodes, explored)
    requires |explored| + |u| <= Ceiling
    requires |values'| == |values| + |u| && values'[..|values|] == values
    requires forall k | |values| <= k < |values'| :: values'[k] == root
    ensures Recorded(g, depth, root, explored + u, found + seq(|u|, _ => at), values')
  {
    var ys := Successors(g, depth, explored[at]).nodes;
    assert ys[..|ys|] == ys;
    RecordedPrefix(g, depth, explored, found, expanded, at, ys, |ys|);
    StepValues(root, values, values');
  }

  lemma StepValues(root: nat, values: seq<nat>, values': seq<nat>)
    requires forall k | 0 <= k < |values| :: values[k] == root
    requires |values| <= |values'| && values'[..|values|] == values
    requires forall k | |values| <= k < |values'| :: values'[k] == root
    ensures forall k | 0 <= k < |values'| :: values'[k] == root
  {
    forall k | 0 <= k < |values| ensures values'[k] == root {
      assert values'[k] == values'[..|values|][k];
    }
  }

  /** One iteration of the loop that raised nothing keeps the stack's invariant. */
  lemma StepFrontier(g: Arena, depth: nat, explored: seq<nat>, expanded: seq<nat>, stack: seq<nat>,
                     u: seq<nat>)
    requires WellFormed(g) && Frontier(g, depth, explored, expanded, stack) && stack != []
    requires stack[|stack| - 1] < |g|
    requires u == Unseen(Successors(g, depth, stack[|stack| - 1]).nodes, explored)
    requires Successors(g, depth, stack[|stack| - 1]).raised == None
    ensures Frontier(g, depth, explored + u, expanded + [stack[|stack| - 1]], stack[..|stack| - 1] + u)
  {
    var current := stack[|stack| - 1];
    UnseenIsFresh(Successors(g, depth, current).nodes, explored);
    StepStack(explored, expanded, stack, u);
    StepClosed(g, depth, explored, expanded, current, u);
    DistinctAppend(expanded, [current]);
  }

  /** Popping the top of the stack and pushing the newly recorded nodes keeps
      the stack distinct, apart from the popped nodes, and covering the rest. */
  lemma StepStack(explored: seq<nat>, expanded: seq<nat>, stack: seq<nat>, u: seq<nat>)
    requires stack != [] && Distinct(stack) && Distinct(u)
    requires forall n | n in expanded :: n !in stack
    requires forall n :: n in explored <==> n in expanded || n in stack
    requires forall x | x in u :: x !in explored
    ensures Distinct(stack[..|stack| - 1] + u)
    ensures forall n | n in expanded :: n !in stack[..|stack| - 1] + u
    ensures stack[|stack| - 1] !in stack[..|stack| - 1] + u
    ensures forall n :: n in explored + u <==> n in expanded + [stack[|stack| - 1]] || n in stack[..|stack| - 1] + u
  {
    var current, rest := stack[|stack| - 1], stack[..|stack| - 1];
    assert stack == rest + [current];
    assert current !in rest by {
      forall k | 0 <= k < |rest| ensures rest[k] != current {
        assert rest[k] == stack[k];
      }
    }
    assert Distinct(rest) by {
      forall i, j | 0 <= i < j < |rest| ensures rest[i] != rest[j] {
        assert rest[i] == stack[i] && rest[j] == stack[j];
      }
    }
    DistinctAppend(rest, u);
  }

  /** Expanding a node that raised nothing keeps the popped nodes closed within
      the (grown) record. */
  lemma StepClosed(g: Arena, depth: nat, explored: seq<nat>, expanded: seq<nat>, current: nat, u: seq<nat>)
    requires WellFormed(g) && current < |g|
    requires ClosedIn(g, depth, expanded, explored)
    requires Successors(g, depth, current).raised == None
    requires u == Unseen(Successors(g, depth, current).nodes, explored)
    ensures ClosedIn(g, depth, expanded + [current], explored + u)
  {
    UnseenIsFresh(Successors(g, depth, current).nodes, explored);
    assert forall c | c in Successors(g, depth, current).nodes :: c in explored + u;
    ClosedExtend(g, depth, expanded, current, explored, explored + u);
  }

  /** An empty stack ends the walk: every recorded node was expanded. */
  lemma WalkFinished(g: Arena, depth: nat, root: nat, explored: seq<nat>, found: seq<nat>,
                     values: seq<nat>, expanded: seq<nat>)
    requires WellFormed(g) && Recorded(g, depth, root, explored, found, values)
    requires Frontier(g, depth, explored, expanded, [])
    ensures Closed(g, depth, explored) && forall n | n in explored :: n in expanded
    ensures Reversed(values) == seq(|explored|, _ => root)
    ensures forall n :: n in explored <==> Reachable(g, depth, root, n)
  {
    assert ClosedIn(g, depth, expanded, explored);
    RecordedSetIsReachableSet(g, depth, explored, found);
  }

  lemma DistinctAppend(a: seq<nat>, b: seq<nat>)
    requires Distinct(a) && Distinct(b) && forall x | x in b :: x !in a
    ensures Distinct(a + b)
  {
    forall i, j | 0 <= i < j < |a + b| ensures (a + b)[i] != (a + b)[j] {
      if j >= |a| {
        assert (a + b)[j] == b[j - |a|] && b[j - |a|] in b;
        if i >= |a| {
          assert (a + b)[i] == b[i - |a|];
        }
      }
    }
  }

  lemma DiscoveredExtend(g: Arena, depth: nat, keys: seq<nat>, found: seq<nat>, at: nat, u: seq<nat>)
    requires WellFormed(g) && Discovered(g, depth, keys, found) && at < |keys|
    requires forall x | x in u :: x in Successors(g, depth, keys[at]).nodes
    ensures Discovered(g, depth, keys + u, found + seq(|u|, _ => at))
  {
    var keys', found' := keys + u, found + seq(|u|, _ => at);
    forall k | |keys| <= k < |keys'|
      ensures keys'[k] < |g| && found'[k] < k && keys'[k] in Successors(g, depth, keys'[found'[k]]).nodes
    {
      assert keys'[k] == u[k - |keys|] && u[k - |keys|] in u;
      assert found'[k] == at && keys'[at] == keys[at];
    }
    forall k | 0 <= k < |keys| ensures keys'[k] == keys[k] && found'[k] == found[k] { }
  }

  /** Expanding one more node that raised nothing and whose children are all
      recorded keeps the expanded nodes closed within the record. */
  lemma ClosedExtend(g: Arena, depth: nat, expanded: seq<nat>, current: nat, explored: seq<nat>,
                     explored': seq<nat>)
    requires WellFormed(g) && current < |g|
    requires ClosedIn(g, depth, expanded, explored)
    requires forall x | x in explored :: x in explored'
    requires Successors(g, depth, current).raised == None
    requires forall c | c in Successors(g, depth, current).nodes :: c in explored'
    ensures ClosedIn(g, depth, expanded + [current], explored')
  {
  }

  lemma {:induction false} PathStaysInClosedSet(g: Arena, depth: nat, s: seq<nat>, p: seq<nat>)
    requires WellFormed(g) && Closed(g, depth, s) && IsPath(g, depth, p) && p[0] in s
    ensures p[|p| - 1] in s
    decreases |p|
  {
    if |p| > 1 {
      var q := p[..|p| - 1];
      assert IsPath(g, depth, q);
      PathStaysInClosedSet(g, depth, s, q);
      assert q[|q| - 1] == p[|p| - 2];
    }
  }

  lemma {:induction false} DiscoveredPath(g: Arena, depth: nat, keys: seq<nat>, found: seq<nat>, k: nat)
      returns (p: seq<nat>)
    requires WellFormed(g) && Discovered(g, depth, keys, found) && k < |keys|
    ensures IsPath(g, depth, p) && p[0] == keys[0] && p[|p| - 1] == keys[k]
    decreases k
  {
    if k == 0 {
      p := [keys[0]];
    } else {
      var q := DiscoveredPath(g, depth, keys, found, found[k]);
      p := q + [keys[k]];
      assert forall i | 0 <= i < |q| :: p[i] == q[i];
    }
  }

  /** A discovered, closed record is exactly the set of nodes reachable from
      its first node. */
  lemma RecordedSetIsReachableSet(g: Arena, depth: nat, keys: seq<nat>, found: seq<nat>)
    requires WellFormed(g) && keys != [] && Discovered(g, depth, keys, found) && Closed(g, depth, keys)
    ensures forall n :: n in keys <==> Reachable(g, depth, keys[0], n)
  {
    forall n ensures n in keys <==> Reachable(g, depth, keys[0], n) {
      if n in keys {
        var k :| 0 <= k < |keys| && keys[k] == n;
        var p := DiscoveredPath(g, depth, keys, found, k);
      }
      if Reachable(g, depth, keys[0], n) {
        var p :| IsPath(g, depth, p) && p[0] == keys[0] && p[|p| - 1] == n;
        PathStaysInClosedSet(g, depth, keys, p);
      }
    }
  }

  /** In the reversed key order the root comes last, and a recorded node that
      only one other recorded node yields comes before that node: children before
      parents whenever no object is reachable along two paths. Positions are
      those of `keys`; position `n - 1 - k` of the reversal holds `keys[k]`. */
  lemma ChildBeforeParent(g: Arena, depth: nat, keys: seq<nat>, found: seq<nat>, child: nat, parent: nat)
    requires WellFormed(g) && Discovered(g, depth, keys, found)
    requires 0 < child < |keys| && parent < |keys|
    requires forall k | 0 <= k < |keys| && k != child && keys[child] in Successors(g, depth, keys[k]).nodes ::
               k == parent
    ensures Reversed(keys)[|keys| - 1] == keys[0]
    ensures Reversed(keys)[|keys| - 1 - child] == keys[child]
    ensures Reversed(keys)[|keys| - 1 - parent] == keys[parent]
    ensures |keys| - 1 - child < |keys| - 1 - parent
  {
    assert found[child] < child;
  }
}

# Deep-mutation prototype and berry payload builders, modelled in Dafny

This project models the deep-mutation prototype in `tesmod.py` and the payload
builders of the `berry` GraphQL schema.

A deep mutation takes one nested input graph, a `ParentInput` whose
`children` list holds `ChildInput` objects. `depth_first_search` walks the graph
with an explicit stack and an insertion-ordered `explored` dict keyed by object
identity. It stops with `ValueError` past 100 nodes and yields the recorded
entries in reverse. `get_child_nodes` supplies the successors of each node: the
input-node instances visible through its attributes and through (nested) lists.
`Mutation.create_parent` then writes every yielded node that has no `id` into
the module-level `database` dict. The key is `"<table>:<n>"`, where the table
comes from `lower().strip("Model") + "s"` and `n` is a random number. The root
is written last under `"parents:foo"`. `Query.node` reads an entry back and
recovers its type name with `split(":")[0]`. In `berry/schema.py`, the two
create mutations store their input's attributes without the None values, and
`Experiment.files` lists one placeholder file per file id.

How the model is built:

- **Objects.** Python objects live in an arena (`Values.Arena`, a sequence of
  objects). A reference is an index into it, which stands for Python's `id()`.
  Cycles between objects can therefore be represented.
- **Generators.** A generator is modelled by what it produces before it stops
  (`Children.Yield`): the items, in order, and the exception that ended it, if
  any. The `depth` parameter is the recursion depth the interpreter still
  allows.
- **Walk and dict.** The walk (`Search.DepthFirstSearch`) and the `database`
  dict (`Creation.Database`) are imperative, as in the source. The table-name,
  key and prefix expressions (`Tables`) and the payload builders (`Berry`) are
  functions.

Quirks of the code are kept as written and stated as lemmas:

- **Root stored as every value.** `explored[id(child_node)] = node` stores the
  root as the value of every key (line 209). The walk therefore yields the root
  once per recorded node, and the creation loop only ever stores the root.
- **Strip removes characters.** `strip("Model")` removes leading and trailing
  characters of the set {M, o, d, e, l}, not a suffix. The capital M never
  matches after `lower()`.
- **Written keys cannot be read back.** No key the mutation writes can be read
  back through `Query.node`. Its type name ends in "s" or is "parents", and
  neither is a key of `nodes`.
- **`vars()` on a non-object.** `get_child_nodes` ends with `vars(node)`, so a
  list, or a list item that is not an object, raises TypeError.

The code has no cycle error, no transaction and no substitution of child ids
into parent payloads, and the model claims none of these. The docstring of
`create_parent` (tesmod.py:140-175) names the missing transaction as a TODO
and explains why the whole input is not validated up front; the model follows
the code, not those intentions.

## Model

| member | source | states |
|---|---|---|
| Values.Get | tesmod.py:178 | a lookup finds a value exactly when some attribute has that name, and the value found is that attribute's own value |
| Values.DropNone | berry/schema.py:68 | the filtered dict holds exactly the attributes whose value is not None, and is no longer than the input |
| Values.DropNoneAppend | berry/schema.py:68 | the filter keeps key order: it distributes over concatenation |
| Values.DropNoneGet | berry/schema.py:68 | after filtering, a key maps to its original value, unless that value was None, in which case it is absent |
| Values.DropNoneIdempotent | berry/schema.py:68 | filtering a filtered dict changes nothing |
| Children.ChildNodes | tesmod.py:217-233 | only input-node instances are yielded; an input-node argument is yielded first; a list or scalar argument always ends in an exception (TypeError of `vars`, or the recursion limit) |
| Children.ItemNodes | tesmod.py:221-223 | walking a list's items yields only input-node instances, and raises only TypeError or the recursion limit |
| Children.FieldNodes | tesmod.py:226-233 | walking the attributes yields only input-node instances, and raises only TypeError or the recursion limit |
| Children.FieldNodesWithoutLists | tesmod.py:226-233 | with no list attribute, the attribute loop yields exactly the input-node attributes, in attribute order, and raises nothing |
| Children.ObjectWithoutLists | tesmod.py:224-233 | an object without list attributes yields itself if it is an input node, then its input-node attributes, and raises nothing |
| Children.ListOfFlatObjects | tesmod.py:231-233 | a list of such objects is walked in list order, and each item is followed by its own input-node attributes |
| Children.NonObjectItemRaises | tesmod.py:221-226 | a list holding a nested list, a string or None makes the walk raise |
| Children.SelfListRecursesForever | tesmod.py:221-233 | an object whose first attribute is a list starting with the object itself hits the recursion limit, however deep the limit is |
| Search.Reversed | tesmod.py:213-214 | position k of the reversal holds position n-1-k of the input |
| Search.UnseenIsFresh | tesmod.py:206-209 | the nodes the inner loop records are exactly the yielded nodes not yet in `explored`, each once |
| Search.RecordChildren | tesmod.py:206-212 | the inner loop appends the fresh yielded nodes to `explored` (with the root as value) and to the stack, and stops with ValueError exactly when a 101st key is recorded |
| Search.DepthFirstSearch | tesmod.py:191-214 | the root is the first key; no key is recorded twice and no node is popped twice; each key was yielded by an earlier key. On success: at most 100 keys, every key popped, the keys are exactly the nodes reachable from the root, and the result is the root once per key. ValueError means exactly 101 keys. Any other error was raised by `get_child_nodes` of a popped node |
| Search.RecordedSetIsReachableSet | tesmod.py:204-212 | a record in which each key was found from an earlier one, and which is closed under `get_child_nodes`, is exactly the set of nodes reachable from its first key |
| Search.ChildBeforeParent | tesmod.py:192-195 | in the reversed key order the root is last, and a node yielded by only one other recorded node comes before that node |
| Search.DiscoveredPath | tesmod.py:204-212 | every recorded key is reachable from the root along a chain of `get_child_nodes` calls |
| Search.PathStaysInClosedSet | tesmod.py:204-212 | a chain of `get_child_nodes` results starting inside a closed record never leaves it |
| Tables.LowerChar | tesmod.py:179 | an upper-case letter becomes the matching lower-case letter, and any other character is unchanged |
| Tables.Lower | tesmod.py:179 | lowercasing keeps the length and maps each character |
| Tables.StripLeft | tesmod.py:179 | `lstrip` leaves a suffix of the string, cuts only characters of the set, and what is left does not start with one of them |
| Tables.StripRight | tesmod.py:179 | `rstrip` leaves a prefix of the string, cuts only characters of the set, and what is left does not end with one of them |
| Tables.Strip | tesmod.py:179 | `strip` never lengthens the string, and what is left neither starts nor ends with a character of the set |
| Tables.TableName | tesmod.py:179 | the table name ends in "s", is at most one longer than the class name, and its stem neither starts nor ends with a character of "Model" |
| Tables.LeadLength | tesmod.py:179 | the leading run of characters from the set is maximal |
| Tables.KeptLength | tesmod.py:179 | the trailing run of characters from the set is maximal |
| Tables.StripShape | tesmod.py:179 | `strip` leaves a stretch of the string, and cuts only characters of the set; what is left neither starts nor ends with one of them |
| Tables.TableNameShape | tesmod.py:179 | the table name is a stretch of the lowercased class name with only characters of {M,o,d,e,l} cut from either end, followed by "s" |
| Tables.CapitalMNeverStripped | tesmod.py:179 | because the name is lowercased first, stripping with "Model" is the same as stripping with "odel" |
| Tables.StripIgnoresAbsent | tesmod.py:179 | set characters that do not occur in the string make no difference to `strip` |
| Tables.WholeNameKept | tesmod.py:179 | a name that neither starts nor ends with one of those characters keeps its whole lowercased form (`ChildInput` gives "childinputs") |
| Tables.ModelClassTable | tesmod.py:179 | a class named `<base>Model` loses "odel" but keeps the 'm' |
| Tables.LowerAppend | tesmod.py:179 | lowercasing distributes over concatenation |
| Tables.DecimalText | tesmod.py:184 | the decimal text of a number is a non-empty string of digits |
| Tables.DecimalRoundTrip | tesmod.py:184 | reading the decimal text back gives the number |
| Tables.Key | tesmod.py:184 | a key is the table, a colon, then a non-empty run of decimal digits |
| Tables.Prefix | tesmod.py:130 | `split(":")[0]` is the longest colon-free prefix of the id, and is followed by a colon unless it is the whole id |
| Tables.PrefixOfJoin | tesmod.py:130 | the prefix of `head + ":" + rest` is `head` when `head` has no colon |
| Tables.PrefixOfKey | tesmod.py:184 | `split(":")[0]` recovers the table of every key built from a colon-free table name |
| Tables.TableNameHasNoColon | tesmod.py:179 | a table name has a colon only when the class name has one |
| Tables.KeyInjective | tesmod.py:184 | two keys are equal exactly when table and number are, so a colliding key comes from the same table and the same draw |
| Creation.IdOf | tesmod.py:178 | a node's id is the value of its `id` attribute whenever it has one, and None when it has no such attribute |
| Creation.NewNodes | tesmod.py:176-178 | the nodes the loop creates are walked nodes without an id, and every walked node without an id is among them |
| Creation.NewNodesAppend | tesmod.py:176-178 | the nodes to create from two stretches of the walk are those of the first followed by those of the second, so walk order and repetitions are kept |
| Creation.NewNodesSnoc | tesmod.py:176-178 | one more walked node is added at the end of the nodes to create exactly when it has no id |
| Creation.LoopStep | tesmod.py:177-184 | one turn never undoes earlier writes and adds at most one; it writes exactly when no exception was raised before, the node has no id and its validation succeeds; once an exception was raised nothing changes, and the only new exception is a failed validation |
| Creation.LoopWrites | tesmod.py:176-184 | the loop makes at most one write per walked node |
| Creation.CreationWrites | tesmod.py:176-186 | the mutation raises only a validation error; every stored payload is free of None; without an error, the last write is to "parents:foo" |
| Creation.MatchStep | tesmod.py:177-184 | one turn of the loop keeps its writes in step with the nodes it has to create |
| Creation.LoopWritesMatchNewNodes | tesmod.py:176-184 | the loop makes one write per node without an id, in order: the j-th write goes to that node's table under the j-th draw, with the node's validated payload without None values. It stops at the first node whose validation fails, after the writes for the nodes before it |
| Creation.LoopStopsAtError | tesmod.py:176-184 | once the loop has raised, the rest of the walk's output is not looked at |
| Creation.AsWrittenOnlyRootStored | tesmod.py:176-184 | with the walk yielding only the root, the loop writes nothing when the root has an id. When it has none, the loop writes the root's payload once per recorded node, each under a fresh draw, or raises at once if validation fails |
| Creation.Apply | tesmod.py:184-186 | assigning the writes keeps every existing key, adds every written key, and adds no other key |
| Creation.ApplySnoc | tesmod.py:184 | one more write updates exactly its own key |
| Creation.LastWrite | tesmod.py:184-186 | a key has a last write exactly when some write targets it, and that write is among the writes with no later write to the same key |
| Creation.ApplyLookup | tesmod.py:184-186 | after the writes, a written key holds its last write's payload, so a colliding key is overwritten; every other key is untouched |
| Creation.QueryNode | tesmod.py:130-133 | the lookup succeeds exactly when the id is in the dict and its prefix is a type name of `nodes`; a missing id is a KeyError, and a stored id with any other prefix is a KeyError of `nodes` |
| Creation.CreationWritesExtendLoop | tesmod.py:176-186 | the mutation's writes are the loop's writes followed by at most one more, which goes to "parents:foo" |
| Creation.LoopKeyTypeName | tesmod.py:179-184 | the type name recovered from a key the loop writes ends in "s" |
| Creation.WrittenKeyTypeName | tesmod.py:179-186 | the type name recovered from any written key is a table name or "parents" |
| Creation.ParentsKeyTypeName | tesmod.py:186 | the type name recovered from "parents:foo" is "parents" |
| Creation.WrittenKeysNotResolvable | tesmod.py:130-133 | every key the mutation writes is found in the dict, and `Query.node` still fails on it with an unknown type name |
| Creation.Database.constructor | tesmod.py:118 | the dict starts empty |
| Creation.Database.StoreNewNodes | tesmod.py:176-184 | the dict afterwards is the old dict with the loop's writes applied in order, and a failure is reported exactly when a validation failed |
| Creation.Database.CreateParent | tesmod.py:176-188 | the walk records the root first, no node twice, and only nodes reachable from the root; it fails with ValueError exactly at 101 recorded nodes, and any other failure was raised by `get_child_nodes` of a recorded node. A failed walk leaves the dict unchanged. After a successful walk, no recorded node raised in `get_child_nodes`, the walk yielded the root once per reachable node, and the dict holds the mutation's writes. The result is the error raised or the payload last written; on success it is the "parents:foo" entry |
| Berry.CreateFileData | berry/schema.py:64-71 | the stored file data has no None value and unique keys; `s3_uri` is always stored; `file_format` is stored exactly when given |
| Berry.FileWithoutFormat | berry/schema.py:28-31 | a file input without a format stores `s3_uri` and nothing else |
| Berry.FileWithFormat | berry/schema.py:28-31 | a file input with a format stores both attributes, in declaration order |
| Berry.CreateExperimentData | berry/schema.py:74-83 | the stored experiment data has no None value |
| Berry.ExperimentDataKeepsFileIds | berry/schema.py:78-80 | the list of file ids is always stored, under `file_ids`, unchanged |
| Berry.Files | berry/schema.py:39-41 | one `File` per file id, each with `s3_uri` "foo" and uuid 2 |

## Left out

- Strawberry, graphene and pydantic are not modelled. `to_pydantic()` followed by `dict()` is a caller-supplied function that returns the attributes, or nothing when validation fails. `parse_obj` and `from_pydantic` return the stored entry unchanged. The PageInfo and Connection types and `Parent.children` are not modelled.
- `random.randint(1, 100)` is the caller-supplied sequence `draws`, each value in 1..100, consumed one per created node.
- Python's recursion limit is the `depth` parameter of `Children.ChildNodes`; the interpreter's actual limit is not modelled.
- Tables.LowerChar: lowercases only the ASCII letters A–Z. Class names in the source are ASCII, and `str.lower()`'s full Unicode case mapping is not modelled.
- Creation.IdentifierClasses: class names are taken to contain no colon, as Python identifiers cannot.
- `exclude_none=True` on nested models is modelled on the top-level attributes only; nested input nodes reach the validator unchanged.
- The asynchronous database calls of `berry/schema.py` (`database.execute`, `fetch_one`, `inserted_primary_key`), and hence the returned primary keys and `Query.get_experiment`, are I/O against a library outside the model.
- `get_books` and `get_files` return constants and are not modelled.
- Transactions, cycle rejection and substitution of child ids into parent payloads are not in the code (the TODO at tesmod.py:152), so the model has none of them. A cycle that passes through a direct input-node attribute is deduplicated and the walk ends normally. A cycle made only of list attributes is not: `get_child_nodes` re-enters list items without a visited set (tesmod.py:231-233), so it recurses until the interpreter's recursion limit (`Children.SelfListRecursesForever`).
- Lists are values, not arena objects, so they have no identity: a list that contains itself (`l.append(l)`), on which `get_child_nodes` recurses until RecursionError, cannot be represented.
- The demo code at the end of tesmod.py, berry/database.py, berry/settings.py, main.py, app/main.py, app/models.py and app/graphql.py are not part of this model.

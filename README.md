# failure — a Dafny model of structured error chains

This project models the core of the Go package `failure`, a library of
structured errors. An error is a **node** holding a message, a map of named
fields and an optional **inner** node (its cause). Following `Inner` gives a
finite chain. The model covers:

- the node operations (`field`, `isParentOf`, `origin`, `same`, `like`,
  `copy`, `depth`);
- the fluent **builder**, which mutates one node in place;
- **impersonation**, which turns any error value into a node chain;
- the package-level entry points and queries (`New`, `Build`, `Buildc`,
  `Field`, `FieldOrDefault`, `TestField`, `TestFieldRecursively`, `Inner`,
  `Origin`, `IsParentOf`, `Same`, `Like`, `Message`, `Depth`).

Layout, one module per source file:

| file | module | models |
|---|---|---|
| `values.dfy` | `Values` | field values, the reserved name `"message"`, `%v` rendering |
| `node.dfy` | `Nodes` | `node.go`: the `Node` class and its chain operations |
| `builder.dfy` | `Builders` | `builder.go`, plus `impersonate` from `node.go` (the two call each other) |
| `failure.dfy` | `Facade` | `failure.go`: entry points and queries |
| `scenarios.dfy` | `Scenarios` | whole uses of the package, as its test suite exercises them (the formatted messages of `Buildf` appear as their resulting text) |

Modelling choices:

- **Node** is a class with mutable `Message`, `Fields` and `Inner`. A ghost
  `Spine` lists the chain from the node down. `Valid()` makes `Spine` exactly
  the nodes reached by `Inner`, with no node repeated. Every loop that walks a
  chain uses the spine as its termination measure.
- **Operations with a nil receiver** take a `Node?` parameter, because Go allows
  methods on a nil pointer.
- **An error value** is the datatype `Error`. Its cases are `Nil`, a native
  node, a `Plain` foreign error (display string only), and an `Impersonator`
  foreign error (display string plus its callback). The callback is arbitrary
  code; the model represents it as the script of builder calls it makes on
  the builder it is handed.
- **Shape(e)** (ghost) is the list of message/field pairs, head first, of the
  chain that impersonating `e` yields. **Existing(e)** is the list of
  already-existing nodes that chain ends in. Every query's contract is stated
  with these two functions. `Impersonate` is proved to build a chain with
  exactly that shape, made of fresh nodes followed by `Existing(e)`.
- A Go nil field map and an empty one are the same value, `map[]`. No
  operation distinguishes them, and the JSON rendering (left out) omits both,
  since the field map is tagged `omitempty` (node.go:25). The package never
  makes an empty non-nil map anyway: the builder allocates a map only to store
  a key in it, and the copy copies only a non-nil map.
- `Field(nil, "")` answers `NoSuchField`, not `InvalidFieldName`. This follows
  the code: the façade tests for nil before the node tests the name
  (failure.go:51-53).

## Model

| member | source | states |
|---|---|---|
| `Nodes.Node.constructor` | node.go:157 | `&node{Message: m}`: the given message, no fields, no inner node; a valid one-node chain |
| `Nodes.LayersCons` | node.go:23-27 | the message/field pairs of a chain are the head's pair followed by those of its inner chain |
| `Nodes.SpineSuffix` | node.go:23-27 | every node on a valid chain is valid and heads the matching suffix of the chain |
| `Nodes.SpineShape` | node.go:23-27 | a valid chain repeats no node, each node's `Inner` is the next node in the list, and the last node's `Inner` is nil |
| `Nodes.Field` | node.go:73-98 | an empty name is `InvalidFieldName` whatever the node; a nil node gives `NoSuchField(name)`; otherwise the answer is `Get` on the node's message and fields (the reserved name yields the message, a missing key `NoSuchField`) |
| `Nodes.IsParentOf` | node.go:40-59 | false for a nil receiver; true for a nil candidate; otherwise true exactly when the candidate is reached by one or more `Inner` steps (pointer identity) |
| `Nodes.DescendsAsymmetric` | node.go:40-59 | on a valid chain, if b is below a then a is not below b; so no node is its own parent |
| `Nodes.DescendsTransitive` | node.go:40-59 | a node below a node below a is itself below a |
| `Nodes.Origin` | node.go:61-71 | nil gives nil; otherwise the last node of the chain, whose `Inner` is nil (a lone node is its own origin) |
| `Nodes.Depth` | node.go:188-198 | the number of nodes on the chain, 0 for nil |
| `Nodes.DepthUnfolds` | node.go:188-198 | the depth of a node is one more than the depth of its inner chain |
| `Nodes.SameFields` | node.go:112-127 | the size test followed by the key-by-key test answers exactly whether the two field maps are equal |
| `Nodes.SameSizeSubmap` | node.go:112-127 | two maps of equal size, where every entry of the first is in the second, are equal |
| `Nodes.Same` | node.go:100-134 | true exactly when both chains have the same length and the same message and fields at every position; an identical node met on both sides ends the walk with true |
| `Nodes.Like` | node.go:136-147 | two nils are alike; a nil and a node are not; two nodes are alike exactly when their messages are equal |
| `Nodes.CopyFields` | node.go:162-169 | the entry-by-entry copy of a field map equals the source map |
| `Nodes.CopyBelow` | node.go:171-182 | one step of the copy loop: a fresh node with the source node's message and fields, linked below the previous copy |
| `Nodes.CopyNodes` | node.go:155-183 | the copy loop makes one fresh node per source node, carrying the same message and fields position by position, all linked and none on the source chain |
| `Nodes.Copy` | node.go:149-186 | nil copies to nil; otherwise a valid chain of freshly allocated nodes with the source's messages and fields at every position |
| `Nodes.LayersEqual` | node.go:149-186 | two node lists that agree position by position on message and fields have equal shapes |
| `Builders.UserFields` | builder.go:64-77 | definition (its ensures restates the body): the entries `WithFields` stores as fields: every key except `""` and `"message"`, with its value |
| `Builders.LastParent` | builder.go:84-95 | the position of a callback's last `ParentOf` call; later calls are not `ParentOf` |
| `Builders.ImpersonatorShape` | node.go:218-221 | the chain of an impersonator is the seeded node, after its callback's calls, above the chain of its last `ParentOf` argument |
| `Builders.ShapeNonEmpty` | node.go:200-222 | impersonating a non-nil error yields at least one node |
| `Builders.ExistingInReach` | node.go:200-222 | the existing nodes of an impersonation are among the nodes the error value refers to |
| `Builders.Builder.constructor` | node.go:218 | a builder over the given node |
| `Builders.Builder.Done` | builder.go:29-31 | definition (its ensures restates the body): the built error is the builder's node itself |
| `Builders.Builder.WithMessage` | builder.go:98-101 | sets the message only; fields, inner node and chain validity stay; returns the same builder |
| `Builders.Builder.WithField` | builder.go:35-53 | an empty name changes nothing; `"message"` sets the message to the value's `%v` text and leaves the fields; any other name sets that one field; the inner node never changes; returns the same builder |
| `Builders.Builder.WithFields` | builder.go:56-81 | the node ends up as `MergeFields` of its old message/fields with the map (so an empty map changes nothing); the inner node is unchanged; returns the same builder |
| `Builders.MergeStep` | builder.go:62-78 | applying one more entry by `WithField` to the closed form `MergeFields` gives the closed form of the larger map |
| `Builders.PutAllIsMerge` | builder.go:62-78 | applying a map's entries by `WithField` in any order that visits each chosen key once gives `MergeFields` of those entries |
| `Builders.EveryOrderMerges` | builder.go:62-78 | `WithFields` does not depend on map iteration order: every order that visits all keys once gives `MergeFields` of the whole map |
| `Builders.RunKeepsClean` | builder.go:37-50 | no sequence of builder calls puts `""` or `"message"` into a node's field map |
| `Builders.Builder.ParentOf` | builder.go:84-95 | the inner chain is replaced by the impersonation of the argument (nil for nil, the native node itself when native); message and fields stay; returns the same builder |
| `Builders.Attach` | builder.go:92 | linking a chain below a node that is not on it keeps both valid and leaves the chain as it was |
| `Builders.Play` | node.go:219 | one non-`ParentOf` call of a callback: the node's message/fields become `Apply` of the call; its inner chain, and every error the node is not part of, stay as they were |
| `Builders.Replay` | node.go:219 | a callback's calls leave the seeded node with `Run` of its message/fields, above the chain of its last `ParentOf` argument |
| `Builders.Extend` | node.go:219 | one more call of a callback extends what `Replay` states to the longer script |
| `Builders.Seed` | node.go:218 | `&builder{n: &node{Message: text}}`: a fresh valid node with the display string, no fields, no inner |
| `Builders.Seeded` | node.go:218-221 | the impersonator case: the seeded and replayed chain has the impersonator's shape |
| `Builders.Impersonate` | node.go:200-222 | nil gives nil; a native node is returned itself; otherwise the result is fresh nodes followed by the existing ones, with exactly the shape `Shape(e)` (a plain foreign error gives one fresh node with its display string and no fields) |
| `Facade.FieldOf` | failure.go:49-56 | definition (its ensures restates the body): what `Field` answers: `NoSuchField(name)` for nil, whatever the name; otherwise `Get` on the head of the impersonated chain |
| `Facade.Build` | failure.go:26-28 | a fresh builder over a fresh valid node with the message, no fields and no inner |
| `Facade.New` | failure.go:8-10 | a fresh native node whose shape is one node with the message and no fields |
| `Facade.Buildc` | failure.go:38-45 | for a non-nil error: a builder over a chain of fresh nodes, none of them reachable from the source, with the source's shape; the source keeps its shape |
| `Facade.Field` | failure.go:49-56 | answers `FieldOf(err, name)` |
| `Facade.FieldOrDefault` | failure.go:60-69 | the value `Field` finds, and the default exactly when `Field` reports an error |
| `Facade.TestField` | failure.go:73-82 | true exactly when `Field` finds a value equal to the one given |
| `Facade.Search` | failure.go:90-98 | the loop answers whether some node of the chain holds the value under the name |
| `Facade.TestFieldRecursively` | failure.go:86-99 | true exactly when some node of the impersonated chain, head first, holds the value under the name; false for nil |
| `Facade.Inner` | failure.go:102-111 | for a non-nil error: nil exactly when the chain has one node; otherwise a native error whose shape is the rest of the chain; for a native error, its own inner node; for a foreign error whose chain is one fresh node above existing nodes, the first existing node itself |
| `Facade.InnerOfImpersonator` | builder.go:84-95 | when a callback's last `ParentOf` attaches a native error X, the impersonated chain is one fresh node directly above X's chain, so `Inner` answers X itself |
| `Facade.Origin` | failure.go:114-116 | nil gives nil; otherwise a lone native node carrying the last message/fields of the chain, and the last existing node itself when the chain ends in one |
| `Facade.OriginShape` | node.go:61-71 | the last node of an impersonated chain carries its last message/fields and is the last existing node, if there is one |
| `Facade.IsParentOf` | failure.go:119-121 | false for nil; true for a nil candidate; otherwise true exactly when the candidate is a native node strictly below the head of the impersonated chain (fresh nodes of a foreign candidate never are) |
| `Facade.DescendsBelow` | node.go:40-59 | on an impersonated chain, an existing node is strictly below the head exactly when it is in `Below(err)` |
| `Facade.ImpersonatePair` | failure.go:120 | impersonating two errors in turn: both chains have their shapes, and the second's fresh nodes are not on the first chain |
| `Facade.ImpersonateKeeping` | failure.go:120 | impersonating one error leaves another error and another chain as they were, and adds none of its fresh nodes to them |
| `Facade.Same` | failure.go:125-136 | true exactly when the two impersonated chains have the same shape, so two nils are Same and a nil and a non-nil are not |
| `Facade.Like` | failure.go:140-151 | two nils are alike; a nil and a non-nil are not; otherwise alike exactly when the head messages are equal |
| `Facade.Message` | failure.go:154-161 | for a non-nil error, the message of the head of the impersonated chain |
| `Facade.Depth` | failure.go:164-166 | the number of nodes of the impersonated chain, 0 for nil |
| `Scenarios.DistinctButSame` | failure_test.go:8-27 | two `New` calls with one message give distinct nodes (Test001), which are nonetheless `Same`, as Test011 expects of errors with one message and no fields (failure_test.go:306-312) |
| `Scenarios.PlainIsSame` | failure_test.go:306-312 | a plain foreign error and an error made by `New` with the same message are `Same` (Test011's `Same(err0, err2)`) |
| `Scenarios.Parented` | failure_test.go:122-126 | `Build(m1).ParentOf(New(m0)).Done()` heads a two-node chain over the first error |
| `Scenarios.ParentOfLinks` | failure_test.go:120-155 | the built node is a parent of the inner error, and the inner error is not a parent of it |
| `Scenarios.Grandparented` | failure_test.go:122-134 | one more `ParentOf` generation gives a three-node chain |
| `Scenarios.GrandparentLinks` | failure_test.go:120-155 | the grandparent is a parent of both below it, and neither of them is a parent of it |
| `Scenarios.Detached` | failure_test.go:175-183 | `ParentOf(err)` followed by `ParentOf(nil)` leaves no inner node |
| `Scenarios.ReplacedInner` | failure_test.go:175-191 | after the second `ParentOf`, the node is a parent of nil but not of err |
| `Scenarios.CopyIsSame` | failure_test.go:403-413 | the copy `Buildc(err)` is done with at once is `Same` as err and is not reachable from it |
| `Scenarios.Changed` | failure_test.go:415-419 | `Buildc(err).WithField(name, v)` gives err's shape with that field set on the head; err keeps its shape |
| `Scenarios.CopyIsIndependent` | failure_test.go:415-423 | a field absent from or different in err, set on the copy, makes the copy not `Same` as err, while err stays as it was |
| `Scenarios.ImpersonatedOrigin` | failure_test.go:448-468 | a foreign error whose callback sets `"message"`, attached by `ParentOf`, makes the chain's origin carry that message |
| `Scenarios.Leaf` | failure_test.go:195-197 | `Build(m).WithField("id", v).Done()` is a lone node with that one field |
| `Scenarios.Attached` | failure_test.go:199-202 | `ParentOf(e).Done()` heads the chain of e with the builder's message and fields |
| `Scenarios.IdsAndOrigin` | failure_test.go:193-226 | the four generations with ids 0 to 3: the test loop passes after four rounds, and `Origin(err0)` is `err3` itself |
| `Scenarios.IdsHeld` | failure_test.go:193-212 | in the chain of the four generations, the i-th node holds id i |
| `Scenarios.Fourfold` | failure_test.go:193-212 | `err3` to `err0`, each built with its id and `ParentOf` the one before, form a four-node chain with exactly the expected messages and ids, ending in `err3`'s own node |
| `Scenarios.EveryId` | failure_test.go:214-221 | the test loop over any chain, `TestField(err, "id", i)` then `err = Inner(err)` until nil or a failure: it passes exactly when the i-th node holds id i, after one round per node |
| `Scenarios.IdRound` | failure_test.go:216-220 | one round of that loop: the test answers whether the head holds id i, and when it does, `Inner` gives the rest of the chain, nil exactly at the last node |
| `Scenarios.Generation` | failure_test.go:199-202 | `Build(m).WithField(name, v).ParentOf(below).Done()` is a node with that one field directly above the chain of `below`, which keeps its shape |
| `Scenarios.Finds` | failure.go:86-99 | on the four generations, the recursive test finds id 2, held by a node below the head, and does not find id 4, held by no node |
| `Scenarios.ThreeDeep` | failure_test.go:470-490 | `Depth` of the three generations built in Test016 is 3 |

## Left out

- `node.Error()` (node.go:29-38) is not modelled: it is JSON rendering by `encoding/json`, a library outside the package. A foreign error's display string is a field of the `Error` datatype.
- `Newf`, `Errorf`, `Buildf` and `WithMessagef` are `New`, `Build` and `WithMessage` applied to a `fmt.Sprintf` result. String formatting is not modelled, so they add nothing.
- `%v` rendering (`Values.Sprint`) covers only nil, `bool`, Go `int` and `string`. A single `Int` case cannot tell `int(5)` from `int64(5)`, which Go's `==` on interfaces does. Field values of other Go types are outside the model. So is the run-time panic on comparing incomparable values with `==`.
- Go's 64-bit `int` for `Depth` is an unbounded `nat`. A chain long enough to overflow it could not fit in memory.
- A `*node` that is nil but held in a non-nil `error` interface is not modelled. `Origin(nil)` returns such a typed nil in Go; the model returns `Nil`.
- The panics of `Buildc(nil)` and `Message(nil)`, and the nil dereference in `Inner(nil)`, are preconditions (`err != Nil`).
- How the sentinel errors are built is not modelled (`ErrNoSuchField` copied and given a `"name"` field by `newNoSuchFieldError`, node.go:224-226). Lookups answer `NoSuchField(name)` or `InvalidFieldName` instead.
- An `Impersonate` callback runs arbitrary code. The model represents it as the sequence of builder calls it makes, and nothing else it might do. The sequence has no `Done` step, so a callback that passes the seeded node to its own `ParentOf` (`b.ParentOf(b.Done())`, a one-node cycle in Go) cannot be written. Because `Error` is an inductive datatype, a callback that attaches the very error value it belongs to (an impersonation that recurses without end in Go) cannot be written either.
- `Builders.Builder.ParentOf` requires that the builder's node is not reachable from its argument, where `Reach` counts the argument of every `ParentOf` call of a callback script. When the node lies on the chain that is finally attached, Go closes a cycle. `Depth`, `Origin` and `Buildc` (whose copy allocates one node per round) then loop forever; `IsParentOf` and `TestFieldRecursively` loop unless they find their target; `Same` stops once either side reaches nil, so it loops only when both chains are cyclic, no difference turns up and no node is met on both sides at once; `Field`, `Like`, `Message` and `Inner` do not walk. The requirement also excludes a node that an earlier `ParentOf` of the callback attaches and a later one replaces, which closes no cycle in Go (for example a script `[SetParent(Native(node)), SetParent(Nil)]`). The model leaves that case out, because `Shape` reads every node a script mentions.
- Concurrency and "immutable after `Done`" are only a usage discipline in the package, with no code behind them. They are not modelled.
- `Builders.Builder.ParentOf` on a node that already lies below another node (for example `b.ParentOf(New("y"))` after `a := Build("a").ParentOf(b.Done()).Done()`) relinks it in place, and Go sees the relinked chain a → b → y. In the model the ghost `Spine` of the outer node `a` is then stale, `a` is no longer `Wf`, and no query on it can be stated. Message and field updates on such a node keep the outer chain `Wf`, since they do not change any spine.
- Map iteration order in `WithFields`, `same` and `copy` is a nondeterministic choice of the next key, so every order is covered. `EveryOrderMerges` proves that the result of `WithFields` does not depend on it.
- The ghost `made` outputs of `Impersonate`, `ParentOf` and `Replay` exist only for the proofs. They say which nodes are fresh.
- Facade.Inner: for a foreign error whose chain has two or more fresh nodes at its top, the returned node is described only by its shape, because it is itself a fresh node made by impersonation. When it is an existing node, the contract names it.
- Facade.Origin: when the chain has no existing nodes (a foreign error that attaches nothing), the returned node is described only by its shape, for the same reason.

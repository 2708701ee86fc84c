/**
 * The fluent builder over one node under construction, and impersonation:
 * the conversion of any error value, native or foreign, into a node chain.
 * The two live together because they call each other: impersonating an
 * error that opts in runs its callback on a seeded builder, and the
 * builder's ParentOf impersonates its argument.
 */
module Builders {
  import opened Values
  import opened Nodes

  /**
   * One call a foreign error's Impersonate callback makes on the builder it
   * is handed. The callback is third-party code; the model takes it as the
   * sequence of builder calls it performs.
   */
  datatype Step =
    | SetField(name: string, value: Value)
    | SetFields(fields: Fields)
    | SetMessage(message: string)
    | SetParent(inner: Error)

  /**
   * An error value: nil, a native node, a foreign error that only has a
   * display string, or a foreign error that also implements Impersonator.
   */
  datatype Error =
    | Nil
    | Native(node: Node)
    | Plain(text: string)
    | Impersonator(text: string, script: seq<Step>)

  // ---------------------------------------------------------------------
  // The effect of the builder calls on a node's message and fields

  /** WithField: an empty name is ignored, the reserved name sets the message, any other name sets a field. */
  function PutField(l: Layer, name: string, v: Value): Layer
  {
    if name == "" then l
    else if name == MessageField then l.(message := Sprint(v))
    else l.(fields := l.fields[name := v])
  }

  /** The entries of a map that WithFields stores as fields. */
  function UserFields(m: Fields): (r: Fields)
    ensures r.Keys == m.Keys - {"", MessageField}
    ensures forall k :: k in r ==> r[k] == m[k]
  {
    m - {"", MessageField}
  }

  /** WithFields in closed form: every entry of m applied as by WithField. */
  function MergeFields(l: Layer, m: Fields): Layer
  {
    Layer(if MessageField in m then Sprint(m[MessageField]) else l.message,
          l.fields + UserFields(m))
  }

  function Apply(l: Layer, step: Step): Layer
  {
    match step
    case SetField(name, v) => PutField(l, name, v)
    case SetFields(m) => MergeFields(l, m)
    case SetMessage(message) => l.(message := message)
    case SetParent(_) => l
  }

  /** The message and fields of the seeded node after a callback's calls. */
  function Run(l: Layer, script: seq<Step>): Layer
  {
    if script == [] then l
    else Apply(Run(l, script[..|script| - 1]), script[|script| - 1])
  }

  /** The position of a script's last ParentOf call, or -1. */
  function LastParent(script: seq<Step>): (j: int)
    ensures -1 <= j < |script|
    ensures j >= 0 ==> script[j].SetParent?
    ensures forall k :: j < k < |script| ==> !script[k].SetParent?
  {
    if script == [] then -1
    else if script[|script| - 1].SetParent? then |script| - 1
    else LastParent(script[..|script| - 1])
  }

  /** The error a script leaves attached below the seeded node: its last ParentOf argument. */
  function Lead(script: seq<Step>): Error
  {
    var j := LastParent(script);
    if j < 0 then Nil else script[j].inner
  }

  /** A field map the builder can produce: the empty and the reserved names are never keys. */
  ghost predicate Clean(l: Layer)
  {
    "" !in l.fields && MessageField !in l.fields
  }

  // ---------------------------------------------------------------------
  // Native nodes an error value refers to, and what impersonating it yields

  /** The native nodes an error value mentions, at any depth of its scripts. */
  function Roots(e: Error): set<Node>
  {
    match e
    case Nil => {}
    case Native(n) => {n}
    case Plain(_) => {}
    case Impersonator(_, s) =>
      set i, x | 0 <= i < |s| && s[i].SetParent? && x in Roots(s[i].inner) :: x
  }

  /** The native nodes together with the chains below them. */
  ghost function Reach(e: Error): (r: set<Node>)
    reads Roots(e)
    ensures Roots(e) <= r
    ensures forall n, x :: n in Roots(e) && x in n.Spine ==> x in r
  {
    Roots(e) + set n, x | n in Roots(e) && x in n.Spine :: x
  }

  /** An error value whose native nodes all head valid chains. */
  ghost predicate Wf(e: Error)
    reads Reach(e)
  {
    forall n :: n in Roots(e) ==> n.Valid()
  }

  lemma StepRoots(e: Error, j: int)
    requires e.Impersonator? && 0 <= j < |e.script| && e.script[j].SetParent?
    ensures Roots(e.script[j].inner) <= Roots(e)
    ensures Reach(e.script[j].inner) <= Reach(e)
  {
  }

  /** Every native node an error value mentions is an allocated object. */
  lemma {:induction false} RootsAllocated(e: Error)
    ensures forall x :: x in Roots(e) ==> allocated(x)
  {
    if e.Impersonator? {
      forall i | 0 <= i < |e.script| && e.script[i].SetParent?
        ensures forall x :: x in Roots(e.script[i].inner) ==> allocated(x)
      {
        RootsAllocated(e.script[i].inner);
      }
    }
  }

  /** Every node an error value reaches is an allocated object. */
  lemma ReachAllocated(e: Error)
    ensures forall x :: x in Reach(e) ==> allocated(x)
  {
    RootsAllocated(e);
  }

  /** An error value whose reached nodes are as they were evaluates as it did. */
  twostate lemma Stable(e: Error)
    requires forall x :: x in old(Reach(e)) ==> old(allocated(x))
    requires unchanged(old(Reach(e)))
    ensures Reach(e) == old(Reach(e)) && Wf(e) == old(Wf(e))
    ensures Shape(e) == old(Shape(e)) && Existing(e) == old(Existing(e))
  {
  }

  /** The messages and fields, head first, of the chain impersonating e yields. */
  ghost function Shape(e: Error): seq<Layer>
    reads Reach(e)
  {
    match e
    case Nil => []
    case Native(n) => Layers(n.Spine)
    case Plain(text) => [Layer(text, map[])]
    case Impersonator(text, s) =>
      var j := LastParent(s);
      [Run(Layer(text, map[]), s)] +
      if j < 0 then [] else StepRoots(e, j); Shape(s[j].inner)
  }

  /** The already existing nodes at the bottom of the chain impersonating e yields. */
  ghost function Existing(e: Error): seq<Node>
    reads Roots(e)
  {
    match e
    case Nil => []
    case Native(n) => n.Spine
    case Plain(_) => []
    case Impersonator(_, s) =>
      var j := LastParent(s);
      if j < 0 then [] else StepRoots(e, j); Existing(s[j].inner)
  }

  /** The chain of an Impersonator: the seeded node above the chain of its last ParentOf argument. */
  lemma ImpersonatorShape(e: Error)
    requires e.Impersonator?
    ensures Shape(e) == [Run(Layer(e.text, map[]), e.script)] + Shape(Lead(e.script))
    ensures Existing(e) == Existing(Lead(e.script))
  {
  }

  /** The existing nodes of an impersonation are among the nodes the error reaches. */
  lemma {:induction false} ExistingInReach(e: Error)
    requires Wf(e)
    ensures forall x :: x in Existing(e) ==> x in Reach(e)
  {
    match e
    case Nil =>
    case Native(n) =>
    case Plain(_) =>
    case Impersonator(_, s) =>
      var j := LastParent(s);
      if j >= 0 {
        StepRoots(e, j);
        ExistingInReach(s[j].inner);
      }
  }

  /** Impersonating a non-nil error yields at least one node. */
  lemma {:induction false} ShapeNonEmpty(e: Error)
    requires Wf(e) && e != Nil
    ensures |Shape(e)| > 0
  {
    if e.Native? {
      assert e.node in Roots(e);
    }
  }

  // ---------------------------------------------------------------------
  // The builder

  class Builder {
    /** The node under construction; it never changes for a given builder. */
    const node: Node

    constructor (n: Node)
      ensures node == n
    {
      node := n;
    }

    /** Done: the built error is the builder's node itself. */
    function Done(): (e: Error)
      ensures e == Native(node)
    {
      Native(node)
    }

    /** WithMessage: replaces the message and nothing else. */
    method WithMessage(message: string) returns (b: Builder)
      modifies node
      ensures b == this
      ensures node.Message == message && node.Fields == old(node.Fields)
      ensures node.Inner == old(node.Inner) && node.Spine == old(node.Spine)
      ensures old(node.Valid()) ==> node.Valid()
    {
      node.Message := message;
      return this;
    }

    /** WithField: the reserved name rewrites the message; an empty name changes nothing. */
    method WithField(name: string, value: Value) returns (b: Builder)
      modifies node
      ensures b == this
      ensures name == "" ==> node.Message == old(node.Message) && node.Fields == old(node.Fields)
      ensures name == MessageField ==>
                node.Message == Sprint(value) && node.Fields == old(node.Fields)
      ensures name != "" && name != MessageField ==>
                node.Message == old(node.Message) && node.Fields == old(node.Fields)[name := value]
      ensures node.Inner == old(node.Inner) && node.Spine == old(node.Spine)
      ensures old(node.Valid()) ==> node.Valid()
    {
      if name == "" {
        return this;
      }
      if name == MessageField {
        node.Message := Sprint(value);
        return this;
      }
      node.Fields := node.Fields[name := value];
      return this;
    }

    /**
     * WithFields: each entry as by WithField, visited in no particular
     * order; the outcome is the same whatever the order, as the closed form
     * MergeFields states.
     */
    method WithFields(fields: Fields) returns (b: Builder)
      modifies node
      ensures b == this
      ensures LayerOf(node) == MergeFields(old(LayerOf(node)), fields)
      ensures node.Inner == old(node.Inner) && node.Spine == old(node.Spine)
      ensures old(node.Valid()) ==> node.Valid()
    {
      if |fields| == 0 {
        assert fields == map[];
        assert UserFields(fields) == map[];
        return this;
      }
      var keys := fields.Keys;
      while keys != {}
        invariant keys <= fields.Keys
        invariant LayerOf(node) == MergeFields(old(LayerOf(node)), fields - keys)
        invariant node.Inner == old(node.Inner) && node.Spine == old(node.Spine)
        invariant old(node.Valid()) ==> node.Valid()
        decreases keys
      {
        var k :| k in keys;
        MergeStep(old(LayerOf(node)), fields - keys, k, fields[k]);
        var _ := WithField(k, fields[k]);
        VisitKey(fields, keys, k);
        keys := keys - {k};
      }
      assert fields - {} == fields;
      return this;
    }

    /**
     * ParentOf: attaches the impersonation of inner (nothing for nil) below
     * the node, replacing any previous inner chain; message and fields stay.
     * The node must not already lie on the chain being attached.
     */
    method ParentOf(inner: Error) returns (b: Builder, ghost made: seq<Node>)
      requires Wf(inner) && node !in Reach(inner)
      modifies node
      decreases inner, 2
      ensures b == this && node.Valid()
      ensures LayerOf(node) == old(LayerOf(node))
      ensures Layers(Chain(node.Inner)) == Shape(inner)
      ensures Chain(node.Inner) == made + Existing(inner)
      ensures forall x :: x in made ==> fresh(x)
      ensures inner == Nil ==> node.Inner == null
      ensures inner.Native? ==> node.Inner == inner.node
    {
      ExistingInReach(inner);
      ReachAllocated(inner);
      ghost var reach := Reach(inner);
      var n: Node? := null;
      made := [];
      if inner != Nil {
        n, made := Impersonate(inner);
      }
      forall x | x in Chain(n)
        ensures x != node
      {
        if x !in made {
          assert x in Existing(inner);
        }
      }
      Attach(node, n);
      assert unchanged(reach);
      b := this;
    }
  }

  /** Links chain c below node n, which must not lie on it. */
  method Attach(n: Node, c: Node?)
    requires ValidChain(c) && n !in Chain(c)
    modifies n
    ensures n.Inner == c && n.Valid() && LayerOf(n) == old(LayerOf(n))
    ensures Chain(c) == old(Chain(c)) && Layers(Chain(c)) == old(Layers(Chain(c)))
  {
    n.Inner := c;
    n.Spine := [n] + Chain(c);
  }

  /** Visiting key k moves its entry from the unvisited part of m to the visited part. */
  lemma VisitKey(m: Fields, keys: set<string>, k: string)
    requires k in keys && keys <= m.Keys
    ensures (m - keys)[k := m[k]] == m - (keys - {k})
  {
  }

  /** Applying one more entry to the closed form is WithField on the closed form. */
  lemma MergeStep(l: Layer, m: Fields, k: string, v: Value)
    requires k !in m
    ensures MergeFields(l, m[k := v]) == PutField(MergeFields(l, m), k, v)
  {
    var u := UserFields(m);
    if k == "" || k == MessageField {
      assert UserFields(m[k := v]) == u;
    } else {
      assert UserFields(m[k := v]) == u[k := v];
      assert l.fields + u[k := v] == (l.fields + u)[k := v];
    }
  }

  /** WithField applied for each key of m, in the given order. */
  function PutAll(l: Layer, m: Fields, order: seq<string>): Layer
    requires forall i :: 0 <= i < |order| ==> order[i] in m
  {
    if order == [] then l
    else
      var k := order[|order| - 1];
      PutField(PutAll(l, m, order[..|order| - 1]), k, m[k])
  }

  /**
   * Map iteration order does not matter: applying the entries of m one by
   * one, in any order that visits each key once, gives the closed form of
   * the entries visited.
   */
  lemma {:induction false} PutAllIsMerge(l: Layer, m: Fields, order: seq<string>)
    requires forall i :: 0 <= i < |order| ==> order[i] in m
    requires forall i, j :: 0 <= i < j < |order| ==> order[i] != order[j]
    ensures PutAll(l, m, order) == MergeFields(l, m - (m.Keys - set k | k in order))
  {
    if order == [] {
      assert m - (m.Keys - set k | k in order) == map[];
      assert UserFields(map[]) == map[];
    } else {
      var front, k := order[..|order| - 1], order[|order| - 1];
      PutAllIsMerge(l, m, front);
      var done := m - (m.Keys - set x | x in front);
      assert k !in done;
      MergeStep(l, done, k, m[k]);
      assert done[k := m[k]] == m - (m.Keys - set x | x in order);
    }
  }

  /** Visiting every key of m once, in any order, is WithFields(m). */
  lemma EveryOrderMerges(l: Layer, m: Fields, order: seq<string>)
    requires forall i, j :: 0 <= i < j < |order| ==> order[i] != order[j]
    requires forall k :: k in m <==> k in order
    ensures PutAll(l, m, order) == MergeFields(l, m)
  {
    PutAllIsMerge(l, m, order);
    assert m - (m.Keys - set k | k in order) == m;
  }

  /** The builder calls never put the empty or the reserved name into the field map. */
  lemma {:induction false} RunKeepsClean(l: Layer, script: seq<Step>)
    requires Clean(l)
    ensures Clean(Run(l, script))
  {
    if script != [] {
      RunKeepsClean(l, script[..|script| - 1]);
    }
  }

  /**
   * One builder call of a script other than ParentOf. The error kept, whose
   * nodes the call must not touch, evaluates as before.
   */
  method Play(b: Builder, step: Step, ghost kept: Error)
    requires b.node.Valid() && !step.SetParent? && b.node !in Reach(kept)
    modifies b.node
    ensures b.node.Valid()
    ensures LayerOf(b.node) == Apply(old(LayerOf(b.node)), step)
    ensures b.node.Inner == old(b.node.Inner) && b.node.Spine == old(b.node.Spine)
    ensures Chain(b.node.Inner) == old(Chain(b.node.Inner))
    ensures Layers(Chain(b.node.Inner)) == old(Layers(Chain(b.node.Inner)))
    ensures Shape(kept) == old(Shape(kept)) && Existing(kept) == old(Existing(kept))
    ensures Wf(kept) == old(Wf(kept))
  {
    ReachAllocated(kept);
    match step {
    case SetField(name, v) =>
      var _ := b.WithField(name, v);
    case SetFields(m) =>
      var _ := b.WithFields(m);
    case SetMessage(message) =>
      var _ := b.WithMessage(message);
    }
    Stable(kept);
  }

  /**
   * The calls of an Impersonate callback, made one after the other on the
   * builder b, whose node starts with no inner chain.
   */
  method Replay(b: Builder, script: seq<Step>, ghost e: Error) returns (ghost made: seq<Node>)
    requires e.Impersonator? && |script| <= |e.script| && script == e.script[..|script|]
    requires b.node.Valid() && b.node.Inner == null
    requires Wf(e) && b.node !in Reach(e)
    modifies b.node
    decreases e, 0, |script|, 1
    ensures b.node.Valid()
    ensures LayerOf(b.node) == Run(old(LayerOf(b.node)), script)
    ensures Layers(Chain(b.node.Inner)) == Shape(Lead(script))
    ensures Chain(b.node.Inner) == made + Existing(Lead(script))
    ensures forall x :: x in made ==> fresh(x)
  {
    if script == [] {
      made := [];
      return;
    }
    var n := |script| - 1;
    ReachAllocated(e);
    assert script[..n] == e.script[..n];
    ghost var before := Replay(b, script[..n], e);
    Stable(e);
    made := Extend(b, script, e, before);
  }

  /**
   * The last call of a script, made once the calls before it have been
   * replayed; before holds the fresh nodes their ParentOf calls attached.
   */
  method Extend(b: Builder, script: seq<Step>, ghost e: Error, ghost before: seq<Node>)
    returns (ghost made: seq<Node>)
    requires e.Impersonator? && 0 < |script| <= |e.script| && script == e.script[..|script|]
    requires b.node.Valid() && Wf(e) && b.node !in Reach(e)
    requires Layers(Chain(b.node.Inner)) == Shape(Lead(script[..|script| - 1]))
    requires Chain(b.node.Inner) == before + Existing(Lead(script[..|script| - 1]))
    modifies b.node
    decreases e, 0, |script|, 0
    ensures b.node.Valid()
    ensures LayerOf(b.node) == Apply(old(LayerOf(b.node)), script[|script| - 1])
    ensures Layers(Chain(b.node.Inner)) == Shape(Lead(script))
    ensures Chain(b.node.Inner) == made + Existing(Lead(script))
    ensures forall x :: x in made ==> fresh(x) || x in before
  {
    var n := |script| - 1;
    var step := script[n];
    if step.SetParent? {
      StepRoots(e, n);
      var _, added := b.ParentOf(step.inner);
      made := added;
      assert Lead(script) == step.inner;
    } else {
      ghost var j := LastParent(script[..n]);
      if j >= 0 {
        StepRoots(e, j);
      }
      Play(b, step, Lead(script[..n]));
      made := before;
      assert Lead(script) == Lead(script[..n]);
    }
  }

  /**
   * impersonate: nil stays nil, a native node is returned as it is, a plain
   * foreign error becomes one fresh node carrying its display string, and an
   * Impersonator's callback runs on a builder seeded with that string.
   * The resulting chain is the already existing chain of Existing(e) below
   * freshly allocated nodes, and carries the layers Shape(e).
   */
  method Impersonate(e: Error) returns (r: Node?, ghost made: seq<Node>)
    requires Wf(e)
    decreases e, 1
    ensures ValidChain(r)
    ensures Layers(Chain(r)) == Shape(e)
    ensures Chain(r) == made + Existing(e)
    ensures forall x :: x in made ==> fresh(x)
    ensures e == Nil ==> r == null
    ensures e.Native? ==> r == e.node
    ensures (e.Plain? || e.Impersonator?) ==> |made| > 0
  {
    match e
    case Nil =>
      r, made := null, [];
    case Native(n) =>
      assert n in Roots(e);
      r, made := n, [];
    case Plain(text) =>
      r := new Node(text);
      made := [r];
    case Impersonator(text, script) =>
      r, made := Seeded(text, script, e);
  }

  /** A builder over a fresh node carrying message text, outside everything e reaches. */
  method Seed(text: string, ghost e: Error) returns (b: Builder)
    requires Wf(e)
    ensures fresh(b.node)
    ensures b.node.Valid() && b.node.Inner == null && LayerOf(b.node) == Layer(text, map[])
    ensures Wf(e) && b.node !in Reach(e)
  {
    ReachAllocated(e);
    var seed := new Node(text);
    Stable(e);
    b := new Builder(seed);
  }

  /** impersonate on an Impersonator: a builder seeded with the display string, handed to the callback. */
  method Seeded(text: string, script: seq<Step>, ghost e: Error) returns (r: Node, ghost made: seq<Node>)
    requires e == Impersonator(text, script) && Wf(e)
    decreases e, 0, |script| + 1
    ensures r.Valid()
    ensures Layers(Chain(r)) == Shape(e)
    ensures Chain(r) == made + Existing(e)
    ensures forall x :: x in made ==> fresh(x)
    ensures |made| > 0
  {
    var b := Seed(text, e);
    ghost var below := Replay(b, script, e);
    ImpersonatorShape(e);
    LayersCons(b.node);
    r, made := b.node, [b.node] + below;
    assert Chain(r) == made + Existing(e) by {
      assert [r] + (below + Existing(e)) == made + Existing(e);
    }
  }
}

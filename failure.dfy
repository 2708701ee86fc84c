/**
 * The package's entry points: constructors of builders and errors, and the
 * queries on any error value. Every query first impersonates its error
 * arguments, so its contract is stated in terms of Shape, the messages and
 * fields of the chain impersonation yields, and of Existing and Below, the
 * already existing nodes that chain ends in.
 */
module Facade {
  import opened Values
  import Nodes
  import opened Builders

  type Node = Nodes.Node
  type Layer = Nodes.Layer
  type Lookup = Nodes.Lookup

  // ---------------------------------------------------------------------
  // Specification functions

  /** What Field answers: nil has no fields, whatever the name; otherwise the head node's lookup. */
  ghost function FieldOf(err: Error, name: string): (r: Lookup)
    requires Wf(err)
    reads Reach(err)
    ensures err == Nil ==> r == Nodes.NoSuchField(name)
    ensures err != Nil ==> |Shape(err)| > 0 && r == Nodes.Get(Shape(err)[0], name)
  {
    if err == Nil then Nodes.NoSuchField(name)
    else ShapeNonEmpty(err); Nodes.Get(Shape(err)[0], name)
  }

  /**
   * The already existing nodes strictly below the head of the chain err
   * impersonates to: those below a native node, and the whole existing part
   * below the fresh head of an Impersonator.
   */
  ghost function Below(err: Error): seq<Node>
    requires Wf(err)
    reads Reach(err)
  {
    match err
    case Native(n) => assert n in Roots(err); n.Spine[1..]
    case Impersonator(_, _) => Existing(err)
    case _ => []
  }

  /** Nodes of a chain that stay as they were keep their chain and its layers. */
  twostate lemma ChainStable(n: Nodes.Node?)
    requires old(Nodes.ValidChain(n))
    requires n != null ==> old(allocated(n))
    requires forall x :: x in old(Nodes.Chain(n)) ==> old(allocated(x))
    requires unchanged(old(Nodes.Chain(n)))
    ensures Nodes.Chain(n) == old(Nodes.Chain(n)) && Nodes.ValidChain(n)
    ensures Nodes.Layers(Nodes.Chain(n)) == old(Nodes.Layers(Nodes.Chain(n)))
  {
  }

  // ---------------------------------------------------------------------
  // Constructors

  /** Build: a builder over a fresh node with the given message, no fields and no inner node. */
  method Build(message: string) returns (b: Builder)
    ensures fresh(b) && fresh(b.node)
    ensures b.node.Valid() && b.node.Inner == null
    ensures Nodes.LayerOf(b.node) == Nodes.Layer(message, map[])
  {
    var n := new Nodes.Node(message);
    b := new Builder(n);
  }

  /** New: the error a fresh builder is done with at once. */
  method New(message: string) returns (e: Error)
    ensures e.Native? && fresh(e.node)
    ensures e.node.Valid() && e.node.Inner == null
    ensures Shape(e) == [Nodes.Layer(message, map[])]
  {
    var b := Build(message);
    e := b.Done();
  }

  /**
   * Buildc: a builder over a deep copy of the impersonation of err, which
   * must not be nil. The copy consists of fresh nodes only and carries the
   * same messages and fields as err.
   */
  method Buildc(err: Error) returns (b: Builder)
    requires err != Nil && Wf(err)
    ensures fresh(b) && b.node.Valid() && fresh(Nodes.Chain(b.node))
    ensures Wf(err) && Nodes.Layers(Nodes.Chain(b.node)) == Shape(err)
    ensures Shape(err) == old(Shape(err)) && Existing(err) == old(Existing(err))
    ensures forall x :: x in Nodes.Chain(b.node) ==> x !in Reach(err)
  {
    ShapeNonEmpty(err);
    ReachAllocated(err);
    var n, _ := Impersonate(err);
    Stable(err);
    label impersonated:
    ReachAllocated(err);
    var c := Nodes.Copy(n);
    ChainStable@impersonated(n);
    Stable@impersonated(err);
    assert c != null;
    label copied:
    ReachAllocated(err);
    b := new Builder(c);
    ChainStable@copied(c);
    Stable@copied(err);
  }

  // ---------------------------------------------------------------------
  // Queries

  /** Field: the lookup of name in the head node of err; nil answers NoSuchField. */
  method Field(err: Error, name: string) returns (r: Lookup)
    requires Wf(err)
    ensures Wf(err)
    ensures r == FieldOf(err, name)
  {
    if err == Nil {
      return Nodes.NoSuchField(name);
    }
    ReachAllocated(err);
    ShapeNonEmpty(err);
    var n, _ := Impersonate(err);
    r := Nodes.Field(n, name);
    Stable(err);
  }

  /** FieldOrDefault: the value Field finds, or def when Field reports an error. */
  method FieldOrDefault(err: Error, name: string, def: Value) returns (v: Value)
    requires Wf(err)
    ensures Wf(err)
    ensures FieldOf(err, name).Found? ==> v == FieldOf(err, name).value
    ensures !FieldOf(err, name).Found? ==> v == def
  {
    var r := Field(err, name);
    if !r.Found? {
      return def;
    }
    v := r.value;
  }

  /** TestField: whether Field finds exactly the given value. */
  method TestField(err: Error, name: string, value: Value) returns (t: bool)
    requires Wf(err)
    ensures Wf(err)
    ensures t == (FieldOf(err, name) == Nodes.Found(value))
  {
    var r := Field(err, name);
    if !r.Found? {
      return false;
    }
    t := r.value == value;
  }

  /** TestFieldRecursively: whether some node of the chain, head first, holds the value under name. */
  method TestFieldRecursively(err: Error, name: string, value: Value) returns (t: bool)
    requires Wf(err)
    ensures t == exists i :: 0 <= i < |Shape(err)| && Nodes.Get(Shape(err)[i], name) == Nodes.Found(value)
  {
    var n, _ := Impersonate(err);
    label impersonated:
    ReachAllocated(err);
    t := Search(n, name, value);
    ChainStable@impersonated(n);
    Stable@impersonated(err);
  }

  /** The loop of TestFieldRecursively: walks the chain from its head down. */
  method Search(n: Nodes.Node?, name: string, value: Value) returns (t: bool)
    requires Nodes.ValidChain(n)
    ensures t == exists i :: 0 <= i < |Nodes.Chain(n)| &&
                             Nodes.Get(Nodes.Layers(Nodes.Chain(n))[i], name) == Nodes.Found(value)
  {
    ghost var s := Nodes.Chain(n);
    var c := n;
    ghost var i := 0;
    while c != null
      invariant i <= |s|
      invariant c == null <==> i == |s|
      invariant c != null ==> c.Valid() && c.Spine == s[i..]
      invariant forall k :: 0 <= k < i ==> Nodes.Get(Nodes.LayerOf(s[k]), name) != Nodes.Found(value)
      decreases |s| - i
    {
      if Nodes.Field(c, name) == Nodes.Found(value) {
        assert Nodes.Layers(s)[i] == Nodes.LayerOf(c);
        return true;
      }
      c := c.Inner;
      i := i + 1;
    }
    t := false;
  }

  /**
   * Inner: the inner node of the head of err's chain, or nil when the head
   * has none. err must not be nil.
   */
  method Inner(err: Error) returns (r: Error)
    requires err != Nil && Wf(err)
    ensures |Shape(err)| > 0
    ensures r == Nil <==> |Shape(err)| == 1
    ensures r != Nil ==> r.Native? && Wf(r) && Shape(r) == Shape(err)[1..]
    ensures err.Native? ==> r == if err.node.Inner == null then Nil else Native(err.node.Inner)
    ensures !err.Native? && |Existing(err)| == |Shape(err)| - 1 > 0 ==> r == Native(Existing(err)[0])
  {
    ReachAllocated(err);
    ShapeNonEmpty(err);
    ghost var made;
    var n;
    n, made := Impersonate(err);
    Nodes.LayersCons(n);
    Nodes.SpineShape(n);
    if n.Inner == null {
      r := Nil;
    } else {
      r := Native(n.Inner);
    }
    Stable(err);
  }

  /**
   * An Impersonator whose callback last attached a native node X: the chain
   * is the seeded node directly above X's own chain, so Inner answers X.
   */
  lemma InnerOfImpersonator(err: Error)
    requires err.Impersonator? && Wf(err) && Lead(err.script).Native?
    ensures |Existing(err)| == |Shape(err)| - 1 > 0
    ensures Existing(err)[0] == Lead(err.script).node
  {
    var j := LastParent(err.script);
    StepRoots(err, j);
    var x := Lead(err.script).node;
    assert x in Roots(Lead(err.script));
    ImpersonatorShape(err);
  }

  /**
   * Origin: the last node of err's chain. When that chain ends in already
   * existing nodes, the origin is the last of them itself.
   */
  method Origin(err: Error) returns (r: Error)
    requires Wf(err)
    ensures err == Nil ==> r == Nil
    ensures err != Nil ==> |Shape(err)| > 0
    ensures err != Nil ==> r.Native? && r.node.Valid() && r.node.Inner == null
    ensures err != Nil ==> Shape(r) == [Shape(err)[|Shape(err)| - 1]]
    ensures err != Nil && |Existing(err)| > 0 ==> r == Native(Existing(err)[|Existing(err)| - 1])
  {
    if err == Nil {
      return Nil;
    }
    ghost var made;
    var n;
    n, made := Impersonate(err);
    label impersonated:
    ReachAllocated(err);
    var o := Nodes.Origin(n);
    ChainStable@impersonated(n);
    Stable@impersonated(err);
    OriginShape(err, n, made, o);
    r := Native(o);
  }

  /** The last node of the chain impersonating err carries its last layer, and is the last existing node if any. */
  lemma OriginShape(err: Error, n: Node, made: seq<Node>, o: Node)
    requires n.Valid() && Nodes.Layers(Nodes.Chain(n)) == Shape(err)
    requires Nodes.Chain(n) == made + Existing(err)
    requires o == n.Spine[|n.Spine| - 1] && o.Spine == [o]
    ensures |Shape(err)| > 0
    ensures Shape(Native(o)) == [Shape(err)[|Shape(err)| - 1]]
    ensures |Existing(err)| > 0 ==> o == Existing(err)[|Existing(err)| - 1]
  {
    assert Nodes.Layers(o.Spine) == [Nodes.LayerOf(o)];
    assert Nodes.Chain(n) == n.Spine;
    assert Shape(err)[|Shape(err)| - 1] == Nodes.LayerOf(o);
    if |Existing(err)| > 0 {
      LastOfAppend(made, Existing(err));
    }
  }

  lemma LastOfAppend(a: seq<Node>, b: seq<Node>)
    requires |b| > 0
    ensures (a + b)[|a + b| - 1] == b[|b| - 1]
  {
  }

  /**
   * IsParentOf: whether inner impersonates to a node below err's head.
   * Only an existing native node can be: impersonating anything else gives
   * fresh nodes, which err's chain cannot contain. A nil inner is below
   * every non-nil err, and nothing is below nil.
   */
  method IsParentOf(err: Error, inner: Error) returns (r: bool)
    requires Wf(err) && Wf(inner)
    ensures Wf(err) && Wf(inner)
    ensures r == (err != Nil && (inner == Nil || (inner.Native? && inner.node in Below(err))))
  {
    ghost var made0, made1;
    var n0, n1;
    n0, n1, made0, made1 := ImpersonatePair(err, inner);
    label pair:
    ReachAllocated(err);
    ReachAllocated(inner);
    r := Nodes.IsParentOf(n0, n1);
    ChainStable@pair(n0);
    ChainStable@pair(n1);
    Stable@pair(err);
    Stable@pair(inner);
    if inner.Native? {
      DescendsBelow(err, n0, made0, inner.node);
      assert r == (err != Nil && inner.node in Below(err));
    } else if inner != Nil {
      assert n1 == made1[0];
      assert n1 !in Nodes.Chain(n0);
      assert !r;
    } else {
      assert r == (err != Nil);
    }
  }

  /**
   * A chain made of the nodes made above the existing nodes of err, where
   * the head is err's own node when err is native: an existing node x is
   * strictly below its head exactly when x is in Below(err).
   */
  lemma DescendsBelow(err: Error, n: Nodes.Node?, made: seq<Node>, x: Node)
    requires Wf(err) && Nodes.ValidChain(n) && Nodes.Chain(n) == made + Existing(err)
    requires err == Nil ==> n == null
    requires err.Native? ==> n == err.node
    requires (err.Plain? || err.Impersonator?) ==> |made| > 0
    requires x !in made
    ensures (n != null && Nodes.Descends(n, x)) == (err != Nil && x in Below(err))
  {
    if err.Impersonator? {
      assert n.Spine[1..] == made[1..] + Existing(err);
    }
  }

  /**
   * Impersonation of two error values, first e0 then e1, as the two-argument
   * queries do it. The nodes made for e1 are fresh, so not on e0's chain.
   */
  method ImpersonatePair(e0: Error, e1: Error) returns (n0: Nodes.Node?, n1: Nodes.Node?,
                                                      ghost made0: seq<Node>, ghost made1: seq<Node>)
    requires Wf(e0) && Wf(e1)
    ensures Wf(e0) && Wf(e1)
    ensures Nodes.ValidChain(n0) && Nodes.Layers(Nodes.Chain(n0)) == Shape(e0)
    ensures Nodes.ValidChain(n1) && Nodes.Layers(Nodes.Chain(n1)) == Shape(e1)
    ensures Nodes.Chain(n0) == made0 + Existing(e0) && Nodes.Chain(n1) == made1 + Existing(e1)
    ensures e0 == Nil <==> n0 == null
    ensures e1 == Nil <==> n1 == null
    ensures e0.Native? ==> n0 == e0.node
    ensures e1.Native? ==> n1 == e1.node
    ensures (e0.Plain? || e0.Impersonator?) ==> |made0| > 0
    ensures (e1.Plain? || e1.Impersonator?) ==> |made1| > 0
    ensures e1.Native? ==> e1.node !in made0
    ensures forall x :: x in made1 ==> x !in Nodes.Chain(n0)
  {
    n0, made0 := ImpersonateKeeping(e0, e1, null);
    n1, made1 := ImpersonateKeeping(e1, e0, n0);
  }

  /**
   * Impersonation of e, with what the caller already holds, another error
   * value k and a chain from kn, left as it was: the nodes made are fresh.
   */
  method ImpersonateKeeping(e: Error, ghost k: Error, ghost kn: Nodes.Node?) returns (n: Nodes.Node?, ghost made: seq<Node>)
    requires Wf(e) && Wf(k) && Nodes.ValidChain(kn)
    ensures Wf(e) && Wf(k)
    ensures Nodes.ValidChain(n) && Nodes.Layers(Nodes.Chain(n)) == Shape(e)
    ensures Nodes.Chain(n) == made + Existing(e)
    ensures forall x :: x in made ==> fresh(x)
    ensures e == Nil <==> n == null
    ensures e.Native? ==> n == e.node
    ensures (e.Plain? || e.Impersonator?) ==> |made| > 0
    ensures Shape(k) == old(Shape(k)) && Existing(k) == old(Existing(k))
    ensures k.Native? ==> k.node !in made
    ensures Nodes.ValidChain(kn) && Nodes.Chain(kn) == old(Nodes.Chain(kn))
    ensures Nodes.Layers(Nodes.Chain(kn)) == old(Nodes.Layers(Nodes.Chain(kn)))
    ensures forall x :: x in made ==> x !in Nodes.Chain(kn)
  {
    ReachAllocated(e);
    ReachAllocated(k);
    if e != Nil {
      ShapeNonEmpty(e);
    }
    assert k.Native? ==> k.node in Roots(k);
    n, made := Impersonate(e);
    Stable(e);
    Stable(k);
    ChainStable(kn);
  }

  /** Same: whether both chains carry the same messages and fields, position by position. */
  method Same(err0: Error, err1: Error) returns (r: bool)
    requires Wf(err0) && Wf(err1)
    ensures r == (Shape(err0) == Shape(err1))
  {
    if err0 == Nil && err1 == Nil {
      return true;
    }
    if err0 == Nil || err1 == Nil {
      if err0 != Nil {
        ShapeNonEmpty(err0);
      } else {
        ShapeNonEmpty(err1);
      }
      return false;
    }
    var n0, n1, _, _ := ImpersonatePair(err0, err1);
    label pair:
    ReachAllocated(err0);
    ReachAllocated(err1);
    r := Nodes.Same(n0, n1);
    ChainStable@pair(n0);
    ChainStable@pair(n1);
    Stable@pair(err0);
    Stable@pair(err1);
  }

  /** Like: both nil, or both not nil with the same message at the head; fields and inner nodes do not count. */
  method Like(err0: Error, err1: Error) returns (r: bool)
    requires Wf(err0) && Wf(err1)
    ensures err0 != Nil ==> |Shape(err0)| > 0
    ensures err1 != Nil ==> |Shape(err1)| > 0
    ensures r == ((err0 == Nil && err1 == Nil) ||
                  (err0 != Nil && err1 != Nil && Shape(err0)[0].message == Shape(err1)[0].message))
  {
    if err0 == Nil && err1 == Nil {
      return true;
    }
    if err0 == Nil || err1 == Nil {
      if err0 != Nil {
        ShapeNonEmpty(err0);
      } else {
        ShapeNonEmpty(err1);
      }
      return false;
    }
    ShapeNonEmpty(err0);
    ShapeNonEmpty(err1);
    var n0, n1, _, _ := ImpersonatePair(err0, err1);
    Nodes.LayersCons(n0);
    Nodes.LayersCons(n1);
    r := Nodes.Like(n0, n1);
  }

  /** Message: the message of the head of err's chain; err must not be nil. */
  method Message(err: Error) returns (m: string)
    requires err != Nil && Wf(err)
    ensures |Shape(err)| > 0 && m == Shape(err)[0].message
  {
    ReachAllocated(err);
    ShapeNonEmpty(err);
    var n, _ := Impersonate(err);
    Nodes.LayersCons(n);
    m := n.Message;
    Stable(err);
  }

  /** Depth: the number of nodes of err's chain, 0 for nil. */
  method Depth(err: Error) returns (d: nat)
    requires Wf(err)
    ensures d == |Shape(err)|
  {
    ReachAllocated(err);
    var n, _ := Impersonate(err);
    d := Nodes.Depth(n);
    Stable(err);
  }
}

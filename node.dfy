/**
 * The node chain: an error is a node holding a message, a field map and an
 * optional inner ("caused by") node. Following `Inner` gives a finite chain.
 *
 * Every operation here takes its node as a possibly-null first parameter,
 * because Go defines them on a pointer receiver that may be nil.
 */
module Nodes {
  import opened Values

  class Node {
    var Message: string
    var Fields: Fields
    var Inner: Node?

    /** The chain from this node down to the last one, this node first. */
    ghost var Spine: seq<Node>

    /**
     * The chain invariant: Spine lists the nodes reached by following Inner,
     * every node on it states its own suffix of it, and no node is revisited.
     */
    ghost predicate Valid()
      reads this, Spine
      decreases |Spine|
    {
      && |Spine| > 0 && Spine[0] == this
      && (Inner == null ==> |Spine| == 1)
      && (Inner != null ==>
            && |Spine| > 1 && Spine[1] == Inner && this !in Spine[1..]
            && Inner.Spine == Spine[1..] && Inner.Valid())
    }

    /** `&node{Message: message}`: no fields, no inner node. */
    constructor (message: string)
      ensures Message == message && Fields == map[] && Inner == null
      ensures Valid() && Spine == [this]
    {
      Message := message;
      Fields := map[];
      Inner := null;
      Spine := [this];
    }
  }

  /** What a node carries besides its link: its message and its fields. */
  datatype Layer = Layer(message: string, fields: Fields)

  /** The outcome of a field lookup: a value, or one of the two lookup errors. */
  datatype Lookup =
    | Found(value: Value)
    | NoSuchField(name: string)
    | InvalidFieldName

  function LayerOf(n: Node): Layer
    reads n
  {
    Layer(n.Message, n.Fields)
  }

  /** The nodes of the chain headed by n; empty for nil. */
  ghost function Chain(n: Node?): seq<Node>
    reads n
  {
    if n == null then [] else n.Spine
  }

  ghost predicate ValidChain(n: Node?)
    reads n, Chain(n)
  {
    n == null || n.Valid()
  }

  /** The message and fields of each node of a chain, in chain order. */
  ghost function Layers(chain: seq<Node>): (r: seq<Layer>)
    reads chain
  {
    seq(|chain|, i requires 0 <= i < |chain| reads chain => LayerOf(chain[i]))
  }

  lemma LayersEqual(a: seq<Node>, b: seq<Node>)
    requires |a| == |b|
    requires forall j :: 0 <= j < |a| ==> LayerOf(a[j]) == LayerOf(b[j])
    ensures Layers(a) == Layers(b)
  {
  }

  /** A chain's layers are its head's layer followed by the layers below it. */
  lemma LayersCons(n: Node)
    requires n.Valid()
    ensures Chain(n) == [n] + Chain(n.Inner)
    ensures Layers(Chain(n)) == [LayerOf(n)] + Layers(Chain(n.Inner))
  {
  }

  /**
   * Looking a name up in one node: the reserved name yields the message
   * whatever the field map holds, an empty name is invalid.
   */
  function Get(l: Layer, name: string): Lookup
  {
    if name == "" then InvalidFieldName
    else if name == MessageField then Found(Str(l.message))
    else if name in l.fields then Found(l.fields[name])
    else NoSuchField(name)
  }

  /** Every node on a valid chain is valid and its spine is the matching suffix. */
  lemma {:induction false} SpineSuffix(n: Node, i: nat)
    requires n.Valid() && i < |n.Spine|
    ensures n.Spine[i].Valid() && n.Spine[i].Spine == n.Spine[i..]
    decreases |n.Spine|
  {
    if i > 0 {
      SpineSuffix(n.Inner, i - 1);
    }
  }

  /** A valid chain visits no node twice and ends in a node without inner. */
  lemma SpineShape(n: Node)
    requires n.Valid()
    ensures forall i, j :: 0 <= i < j < |n.Spine| ==> n.Spine[i] != n.Spine[j]
    ensures forall i :: 0 <= i < |n.Spine| - 1 ==> n.Spine[i].Inner == n.Spine[i + 1]
    ensures n.Spine[|n.Spine| - 1].Inner == null
  {
    forall i | 0 <= i < |n.Spine|
      ensures n.Spine[i] !in n.Spine[i + 1..]
      ensures i < |n.Spine| - 1 ==> n.Spine[i].Inner == n.Spine[i + 1]
      ensures i == |n.Spine| - 1 ==> n.Spine[i].Inner == null
    {
      SpineSuffix(n, i);
    }
    forall i, j | 0 <= i < j < |n.Spine|
      ensures n.Spine[i] != n.Spine[j]
    {
      assert n.Spine[j] in n.Spine[i + 1..];
    }
  }

  /** The descendant relation `isParentOf` decides: one or more Inner steps. */
  ghost predicate Descends(n: Node?, d: Node?)
    reads n
  {
    n != null && |n.Spine| > 0 && d in n.Spine[1..]
  }

  /** Being a descendant is transitive along valid chains. */
  lemma DescendsTransitive(a: Node, b: Node, c: Node)
    requires a.Valid() && Descends(a, b) && Descends(b, c)
    ensures Descends(a, c)
  {
    var i :| 1 <= i < |a.Spine| && a.Spine[i] == b;
    SpineSuffix(a, i);
    assert c in a.Spine[i + 1..];
  }

  /** No node of a valid chain descends from one of its own descendants. */
  lemma DescendsAsymmetric(a: Node, b: Node)
    requires a.Valid() && Descends(a, b)
    ensures !Descends(b, a)
  {
    var i :| 1 <= i < |a.Spine| && a.Spine[i] == b;
    SpineSuffix(a, i);
    SpineShape(a);
  }

  /**
   * node.field: an empty name is invalid before anything else, a nil node has
   * no fields, otherwise the node's Layer answers.
   */
  function Field(n: Node?, name: string): (r: Lookup)
    reads n
    ensures name == "" ==> r == InvalidFieldName
    ensures name != "" && n == null ==> r == NoSuchField(name)
    ensures n != null ==> r == Get(LayerOf(n), name)
  {
    if name == "" then InvalidFieldName
    else if n == null then NoSuchField(name)
    else if name == MessageField then Found(Str(n.Message))
    else if name !in n.Fields then NoSuchField(name)
    else Found(n.Fields[name])
  }

  /**
   * node.isParentOf: false for a nil receiver, true for a nil candidate,
   * otherwise whether the candidate is reached by one or more Inner steps.
   */
  method IsParentOf(n: Node?, inner: Node?) returns (r: bool)
    requires ValidChain(n)
    ensures r == (n != null && (inner == null || Descends(n, inner)))
  {
    if n == null {
      return false;
    }
    if inner == null {
      return true;
    }
    ghost var s := n.Spine;
    var c := n.Inner;
    ghost var i := 1;
    r := c == inner;
    while c != null && !r
      invariant 1 <= i <= |s|
      invariant c == null <==> i == |s|
      invariant c != null ==> c.Valid() && c.Spine == s[i..]
      invariant r == (c == inner)
      invariant inner !in s[1..i]
      decreases |s| - i
    {
      assert s[1..i + 1] == s[1..i] + [c];
      c := c.Inner;
      i := i + 1;
      r := c == inner;
    }
    assert r ==> inner == s[i];
    assert !r ==> s[1..i] == s[1..];
  }

  /** node.origin: the last node of the chain, the one without inner. */
  method Origin(n: Node?) returns (o: Node?)
    requires ValidChain(n)
    ensures n == null ==> o == null
    ensures n != null ==> o == n.Spine[|n.Spine| - 1]
    ensures n != null ==> o.Valid() && o.Inner == null && o.Spine == [o]
  {
    ghost var s := Chain(n);
    var c := n;
    o := n;
    ghost var i := 0;
    while c != null
      invariant 0 <= i <= |s|
      invariant c == null <==> i == |s|
      invariant c != null ==> c.Valid() && c.Spine == s[i..]
      invariant i == 0 ==> o == n
      invariant i > 0 ==> o == s[i - 1] && o.Valid() && o.Spine == s[i - 1..] && o.Inner == c
      decreases |s| - i
    {
      o := c;
      c := c.Inner;
      i := i + 1;
    }
  }

  /** node.depth: the number of nodes on the chain, 0 for nil. */
  method Depth(n: Node?) returns (d: nat)
    requires ValidChain(n)
    ensures d == |Chain(n)|
  {
    ghost var s := Chain(n);
    var c := n;
    d := 0;
    while c != null
      invariant d <= |s|
      invariant c == null <==> d == |s|
      invariant c != null ==> c.Valid() && c.Spine == s[d..]
      decreases |s| - d
    {
      c := c.Inner;
      d := d + 1;
    }
  }

  /** The depth of a chain is one more than the depth of its inner chain. */
  lemma DepthUnfolds(n: Node)
    requires n.Valid()
    ensures |Chain(n)| == 1 + |Chain(n.Inner)|
    ensures ValidChain(n.Inner)
  {
  }

  /** Two field maps of equal size with the keys of one mapped alike by the other are equal. */
  lemma SameSizeSubmap(a: Fields, b: Fields)
    requires |a| == |b|
    requires forall k :: k in a ==> k in b && b[k] == a[k]
    ensures a == b
  {
    assert b.Keys == a.Keys + (b.Keys - a.Keys);
    assert |b.Keys| == |a.Keys| + |b.Keys - a.Keys|;
    assert b.Keys - a.Keys == {};
  }

  /**
   * The field comparison inside node.same: equal sizes, then every key of the
   * first map found in the second with an equal value.
   */
  method SameFields(a: Fields, b: Fields) returns (r: bool)
    ensures r == (a == b)
  {
    if |a| != |b| {
      return false;
    }
    var keys := a.Keys;
    while keys != {}
      invariant keys <= a.Keys
      invariant forall k :: k in a && k !in keys ==> k in b && b[k] == a[k]
      decreases keys
    {
      var k :| k in keys;
      if k !in b || a[k] != b[k] {
        return false;
      }
      keys := keys - {k};
    }
    SameSizeSubmap(a, b);
    return true;
  }

  /**
   * node.same: both chains have the same length and agree, position by
   * position, on message and fields. Meeting one node on both sides ends the
   * walk early, since the rest of the two chains is then the same chain.
   */
  method Same(n: Node?, other: Node?) returns (r: bool)
    requires ValidChain(n) && ValidChain(other)
    ensures r == (Layers(Chain(n)) == Layers(Chain(other)))
  {
    ghost var a, b := Chain(n), Chain(other);
    var x, y := n, other;
    ghost var i := 0;
    while x != null && y != null
      invariant i <= |a| && i <= |b|
      invariant x == null <==> i == |a|
      invariant y == null <==> i == |b|
      invariant x != null ==> x.Valid() && x.Spine == a[i..]
      invariant y != null ==> y.Valid() && y.Spine == b[i..]
      invariant forall j :: 0 <= j < i ==> LayerOf(a[j]) == LayerOf(b[j])
      decreases |a| - i
    {
      if x == y {
        assert a[i..] == b[i..];
        assert forall j :: i <= j < |a| ==> a[j] == a[i..][j - i];
        assert Layers(a) == Layers(b);
        return true;
      }
      if x.Message != y.Message {
        assert Layers(a)[i] != Layers(b)[i];
        return false;
      }
      var eq := SameFields(x.Fields, y.Fields);
      if !eq {
        assert Layers(a)[i] != Layers(b)[i];
        return false;
      }
      x, y := x.Inner, y.Inner;
      i := i + 1;
    }
    r := x == null && y == null;
    if r {
      assert Layers(a) == Layers(b);
    } else {
      assert |Layers(a)| != |Layers(b)|;
    }
  }

  /**
   * node.like: two nils are alike, a nil and a node are not, two nodes are
   * alike when their messages are equal; fields and inner nodes are ignored.
   */
  function Like(n: Node?, other: Node?): (r: bool)
    reads n, other
    ensures r == ((n == null && other == null) ||
                  (n != null && other != null && n.Message == other.Message))
  {
    if n == other then true
    else if n == null || other == null then false
    else n.Message == other.Message
  }

  /** The entry-by-entry map copy inside node.copy. */
  method CopyFields(m: Fields) returns (c: Fields)
    ensures c == m
  {
    c := map[];
    var keys := m.Keys;
    while keys != {}
      invariant keys <= m.Keys
      invariant c == m - keys
      decreases keys
    {
      var k :| k in keys;
      c := c[k := m[k]];
      keys := keys - {k};
    }
  }

  /** Distinct nodes, each linked by Inner to the next, the last without inner. */
  ghost predicate Linked(made: seq<Node>)
    reads made
  {
    && |made| > 0
    && (forall j, k :: 0 <= j < k < |made| ==> made[j] != made[k])
    && (forall j :: 0 <= j < |made| - 1 ==> made[j].Inner == made[j + 1])
    && made[|made| - 1].Inner == null
  }

  /** A linked sequence whose nodes all state their own suffix as spine is made of valid nodes. */
  lemma {:induction false} LinkedValid(made: seq<Node>, j: nat)
    requires Linked(made) && j < |made|
    requires forall i :: j <= i < |made| ==> made[i].Spine == made[i..]
    ensures made[j].Valid()
    decreases |made| - j
  {
    if j < |made| - 1 {
      LinkedValid(made, j + 1);
      assert made[j] !in made[j + 1..];
    }
  }

  /** Gives each node of a linked sequence its suffix as spine, so that all become valid. */
  ghost method Relink(made: seq<Node>)
    requires Linked(made)
    modifies made
    ensures forall j :: 0 <= j < |made| ==> made[j].Valid() && made[j].Spine == made[j..]
    ensures forall j :: 0 <= j < |made| ==>
              LayerOf(made[j]) == old(LayerOf(made[j])) && made[j].Inner == old(made[j].Inner)
  {
    var k := |made|;
    while k > 0
      invariant 0 <= k <= |made|
      invariant forall j :: k <= j < |made| ==> made[j].Spine == made[j..]
      invariant forall j :: 0 <= j < |made| ==>
                  made[j].Message == old(made[j].Message) && made[j].Fields == old(made[j].Fields) &&
                  made[j].Inner == old(made[j].Inner)
      decreases k
    {
      k := k - 1;
      made[k].Spine := made[k..];
    }
    assert Linked(made);
    forall j | 0 <= j < |made|
      ensures made[j].Valid()
    {
      LinkedValid(made, j);
    }
  }

  /**
   * node.copy: a chain of freshly allocated nodes with the same messages and
   * fields, position by position, as the source chain; nil copies to nil.
   */
  method Copy(n: Node?) returns (r: Node?)
    requires ValidChain(n)
    ensures ValidChain(r)
    ensures Layers(Chain(r)) == Layers(Chain(n))
    ensures fresh(Chain(r))
  {
    if n == null {
      return null;
    }
    ghost var made;
    r, made := CopyNodes(n);
    Relink(made);
    assert Chain(r) == made;
    LayersEqual(made, n.Spine);
  }

  /**
   * One round of the loop of node.copy: a fresh copy of src's message and
   * fields, linked below c, the last node copied so far.
   */
  method CopyBelow(c: Node, src: Node, ghost made: seq<Node>, ghost ls: seq<Layer>) returns (d: Node)
    requires Linked(made) && c == made[|made| - 1] && |made| < |ls|
    requires forall j :: 0 <= j < |made| ==> LayerOf(made[j]) == ls[j]
    requires LayerOf(src) == ls[|made|]
    modifies c
    ensures fresh(d) && LayerOf(d) == LayerOf(src)
    ensures Linked(made + [d])
    ensures forall j :: 0 <= j <= |made| ==> LayerOf((made + [d])[j]) == ls[j]
  {
    d := new Node(src.Message);
    d.Fields := CopyFields(src.Fields);
    c.Inner := d;
    LinkedSnoc(made, d);
    assert forall j :: 0 <= j < |made| ==> (made + [d])[j] == made[j];
  }

  /** A linked sequence whose last node has just been linked to a new node d stays linked with d added. */
  lemma LinkedSnoc(made: seq<Node>, d: Node)
    requires |made| > 0 && d !in made && d.Inner == null
    requires forall j, k :: 0 <= j < k < |made| ==> made[j] != made[k]
    requires forall j :: 0 <= j < |made| - 1 ==> made[j].Inner == made[j + 1]
    requires made[|made| - 1].Inner == d
    ensures Linked(made + [d])
  {
  }

  /**
   * The loop of node.copy: allocates one node per source node, fills its
   * field map entry by entry and links it below the previous copy.
   */
  method CopyNodes(n: Node) returns (r: Node, ghost made: seq<Node>)
    requires n.Valid()
    ensures Linked(made) && made[0] == r && |made| == |n.Spine|
    ensures fresh(made) && forall j :: 0 <= j < |made| ==> made[j] !in n.Spine
    ensures forall j :: 0 <= j < |made| ==> LayerOf(made[j]) == LayerOf(n.Spine[j])
  {
    ghost var s := n.Spine;
    ghost var ls := Layers(s);
    SpineShape(n);
    r := new Node(n.Message);
    r.Fields := CopyFields(n.Fields);
    var c := r;
    var src := n.Inner;
    made := [r];
    while src != null
      invariant 0 < |made| <= |s|
      invariant src == if |made| < |s| then s[|made|] else null
      invariant c == made[|made| - 1] && r == made[0]
      invariant fresh(made) && unchanged(s)
      invariant Linked(made)
      invariant forall j :: 0 <= j < |made| ==> LayerOf(made[j]) == ls[j]
      decreases |s| - |made|
    {
      assert LayerOf(src) == ls[|made|];
      var d := CopyBelow(c, src, made, ls);
      made := made + [d];
      c := d;
      src := src.Inner;
    }
  }
}

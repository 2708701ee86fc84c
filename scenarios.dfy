/**
 * Whole uses of the package, as its test suite exercises them: the entry
 * points, the builder and the queries combined, with the answers the
 * queries must give.
 */
module Scenarios {
  import opened Values
  import Nodes
  import opened Builders
  import Facade

  /** Two errors made by New with one message are distinct nodes, yet Same. */
  method DistinctButSame(message: string) returns (e0: Error, e1: Error, same: bool)
    ensures e0.Native? && e1.Native? && e0.node != e1.node
    ensures same
  {
    e0 := Facade.New(message);
    label first:
    ReachAllocated(e0);
    e1 := Facade.New(message);
    Stable@first(e0);
    same := Facade.Same(e0, e1);
  }

  /** A plain foreign error and an error made by New, with one message, are Same. */
  method PlainIsSame(message: string) returns (same: bool)
    ensures same
  {
    var e := Facade.New(message);
    label made:
    ReachAllocated(e);
    same := Facade.Same(Plain(message), e);
    Stable@made(e);
  }

  /**
   * A node built as ParentOf(err) is a parent of err, and err, whose own
   * chain ends at once, is no parent of it.
   */
  method ParentOfLinks(m0: string, m1: string) returns (err: Error, parent: Error, down: bool, up: bool)
    ensures err.Native? && parent.Native? && parent.node.Inner == err.node
    ensures down && !up
  {
    err, parent := Parented(m0, m1);
    label linked:
    ReachAllocated(err);
    down := Facade.IsParentOf(parent, err);
    Stable@linked(err);
    up := Facade.IsParentOf(err, parent);
  }

  /** New(m0), and a node with message m1 built as ParentOf it. */
  method Parented(m0: string, m1: string) returns (err: Error, parent: Error)
    ensures err.Native? && parent.Native? && parent.node.Inner == err.node
    ensures Wf(err) && Wf(parent)
    ensures Facade.Below(parent) == [err.node] && Facade.Below(err) == []
    ensures parent.node.Spine == [parent.node, err.node] && err.node.Spine == [err.node]
  {
    var b;
    err, b := Linking(m0, m1);
    parent := b.Done();
    Nodes.LayersCons(parent.node);
    assert parent.node in Roots(parent);
    assert err.node in Roots(err);
  }

  /** New(m0), and a builder with message m1 made ParentOf it. */
  method Linking(m0: string, m1: string) returns (err: Error, b: Builder)
    ensures err.Native? && Wf(err) && err.node.Inner == null && err.node.Spine == [err.node]
    ensures fresh(b.node) && b.node.Valid() && b.node.Inner == err.node
  {
    err := Facade.New(m0);
    label made:
    ReachAllocated(err);
    b := Facade.Build(m1);
    Stable@made(err);
    label built:
    ReachAllocated(err);
    ghost var added;
    b, added := b.ParentOf(err);
    Stable@built(err);
  }

  /**
   * One more generation: a node built as ParentOf(parent) is a parent of
   * parent and of err alike, and neither of those is a parent of it.
   */
  method GrandparentLinks(m0: string, m1: string, m2: string)
    returns (err: Error, parent: Error, grand: Error, ofParent: bool, ofErr: bool, parentOf: bool, errOf: bool)
    ensures err.Native? && parent.Native? && grand.Native?
    ensures grand.node.Inner == parent.node && parent.node.Inner == err.node
    ensures ofParent && ofErr && !parentOf && !errOf
  {
    err, parent, grand := Grandparented(m0, m1, m2);
    label linked:
    ReachAllocated(grand);
    ofParent := Facade.IsParentOf(grand, parent);
    Stable@linked(grand);
    ofErr := Facade.IsParentOf(grand, err);
    Stable@linked(grand);
    parentOf := Facade.IsParentOf(parent, grand);
    errOf := Facade.IsParentOf(err, grand);
  }

  /** New(m0), a node with message m1 built as ParentOf it, and one with message m2 built as ParentOf that. */
  method Grandparented(m0: string, m1: string, m2: string) returns (err: Error, parent: Error, grand: Error)
    ensures err.Native? && parent.Native? && grand.Native?
    ensures grand.node.Inner == parent.node && parent.node.Inner == err.node
    ensures Wf(err) && Wf(parent) && Wf(grand)
    ensures Facade.Below(grand) == [parent.node, err.node]
    ensures Facade.Below(parent) == [err.node] && Facade.Below(err) == []
  {
    err, parent := Parented(m0, m1);
    label made:
    ReachAllocated(parent);
    var b := Facade.Build(m2);
    Stable@made(parent);
    label built:
    ReachAllocated(parent);
    ghost var added;
    b, added := b.ParentOf(parent);
    Stable@built(parent);
    grand := b.Done();
    Nodes.LayersCons(grand.node);
    assert grand.node in Roots(grand);
    assert parent.node in Roots(parent);
    assert err.node in Roots(err);
  }

  /**
   * ParentOf replaces the inner chain: after ParentOf(err) then
   * ParentOf(nil) the node is a parent of nil only, not of err.
   */
  method ReplacedInner(m0: string, m1: string) returns (err: Error, parent: Error, ofErr: bool, ofNil: bool)
    ensures err.Native? && parent.Native? && parent.node.Inner == null
    ensures !ofErr && ofNil
  {
    err, parent := Detached(m0, m1);
    label linked:
    ReachAllocated(err);
    ofErr := Facade.IsParentOf(parent, err);
    Stable@linked(err);
    ofNil := Facade.IsParentOf(parent, Nil);
  }

  /** New(m0), and a node with message m1 built as ParentOf it, then as ParentOf(nil). */
  method Detached(m0: string, m1: string) returns (err: Error, parent: Error)
    ensures err.Native? && parent.Native? && parent.node.Inner == null
    ensures Wf(err) && Wf(parent) && Facade.Below(parent) == []
  {
    var b;
    err, b := Linking(m0, m1);
    assert err.node in Roots(err);
    ghost var added;
    b, added := b.ParentOf(Nil);
    parent := b.Done();
    Nodes.LayersCons(parent.node);
    assert parent.node in Roots(parent);
  }

  /** The error Buildc(err) is done with at once is Same as err, and lies outside what err reaches. */
  method CopyIsSame(err: Error) returns (c: Error, same: bool)
    requires err != Nil && Wf(err)
    ensures Wf(err) && c.Native? && c.node !in Reach(err)
    ensures same
  {
    var b := Facade.Buildc(err);
    c := b.Done();
    Nodes.LayersCons(c.node);
    assert c.node in Roots(c);
    label copied:
    ReachAllocated(err);
    same := Facade.Same(err, c);
    Stable@copied(err);
  }

  /**
   * Setting a field on the copy Buildc(err) makes it differ from err, which
   * stays as it was: the copy holds the new value, err does not.
   */
  method CopyIsIndependent(err: Error, name: string, v: Value, ghost before: seq<Nodes.Layer>)
    returns (c: Error, same: bool)
    requires err != Nil && Wf(err) && Shape(err) == before
    requires Facade.FieldOf(err, name) != Nodes.Found(v)
    requires name != "" && name != MessageField
    ensures Wf(err) && Shape(err) == before
    ensures Wf(c) && Facade.FieldOf(c, name) == Nodes.Found(v)
    ensures !same
  {
    c := Changed(err, name, v, before);
    assert Shape(c)[0] != Shape(err)[0] by {
      assert Nodes.Get(Shape(c)[0], name) == Nodes.Found(v);
    }
    label changed:
    ReachAllocated(err);
    same := Facade.Same(err, c);
    Stable@changed(err);
  }

  /** Buildc(err).WithField(name, v).Done(). */
  method Changed(err: Error, name: string, v: Value, ghost before: seq<Nodes.Layer>) returns (c: Error)
    requires err != Nil && Wf(err) && Shape(err) == before
    requires name != "" && name != MessageField
    ensures Wf(err) && Shape(err) == before
    ensures c.Native? && Wf(c) && |before| > 0
    ensures Shape(c) == [before[0].(fields := before[0].fields[name := v])] + before[1..]
  {
    ShapeNonEmpty(err);
    var b := Facade.Buildc(err);
    Nodes.LayersCons(b.node);
    assert Nodes.LayerOf(b.node) == before[0];
    Play(b, SetField(name, v), err);
    c := b.Done();
    Nodes.LayersCons(c.node);
    assert c.node in Roots(c);
  }

  /**
   * A foreign error whose callback sets the reserved field: attached below
   * a native node, the chain's origin is the seeded node, and its message
   * is the value the callback gave.
   */
  method ImpersonatedOrigin(m: string, text: string, msg: string) returns (err: Error, message: string)
    ensures err.Native? && err.node.Inner != null
    ensures message == msg
  {
    var ext := Impersonator(text, [SetField(MessageField, Str(msg))]);
    assert Shape(ext) == [Nodes.Layer(msg, map[])] by {
      ImpersonatorShape(ext);
    }
    var b := Facade.Build(m);
    ghost var added;
    b, added := b.ParentOf(ext);
    err := b.Done();
    Nodes.LayersCons(err.node);
    assert err.node in Roots(err);
    assert Shape(err) == [Nodes.LayerOf(err.node), Nodes.Layer(msg, map[])];
    var origin := Facade.Origin(err);
    message := Facade.Message(origin);
  }

  /**
   * The four generations of ids 0 to 3: walking the chain from its head by
   * Inner, the i-th node holds id i, and the origin is the first error
   * built, itself.
   */
  method IdsAndOrigin() returns (ok: bool, steps: nat, origin: bool)
    ensures ok && steps == 4 && origin
  {
    var err0, err3 := Fourfold();
    label built:
    ReachAllocated(err0);
    ok, steps := EveryId(err0);
    Stable@built(err0);
    IdsHeld();
    var o := Facade.Origin(err0);
    origin := o == err3;
  }

  /** The messages and fields of the four generations, head first. */
  ghost function Ids(): seq<Nodes.Layer>
  {
    [Nodes.Layer("something went wrong 0", map["id" := Int(0)]),
     Nodes.Layer("something went wrong 1", map["id" := Int(1)]),
     Nodes.Layer("something went wrong 2", map["id" := Int(2)]),
     Nodes.Layer("something went wrong 3", map["id" := Int(3)])]
  }

  /** In the chain of Ids, the i-th node holds id i. */
  lemma IdsHeld()
    ensures IdsFrom(Ids(), |Ids()|)
  {
    forall i | 0 <= i < |Ids()|
      ensures Nodes.Get(Ids()[i], "id") == Nodes.Found(Int(i))
    {
      assert "id" != "" && "id" != MessageField;
    }
  }

  /**
   * err3, then err2, err1 and err0 built above it, each with its id and
   * ParentOf the one before.
   */
  method Fourfold() returns (err0: Error, err3: Error)
    ensures err0.Native? && err3.Native? && Wf(err0)
    ensures Shape(err0) == Ids()
    ensures |err0.node.Spine| == 4 && err0.node.Spine[3] == err3.node
  {
    err3 := Leaf("something went wrong 3", Int(3));
    assert err3.node in Roots(err3);
    var err2 := Generation("something went wrong 2", "id", Int(2), err3);
    var err1 := Generation("something went wrong 1", "id", Int(1), err2);
    err0 := Generation("something went wrong 0", "id", Int(0), err1);
  }

  /** The first n nodes of a chain's layers hold ids 0 to n - 1 in turn. */
  ghost predicate IdsFrom(s: seq<Nodes.Layer>, n: nat)
    requires n <= |s|
  {
    forall k :: 0 <= k < n ==> Nodes.Get(s[k], "id") == Nodes.Found(Int(k))
  }

  /**
   * The loop of Test009 over the chain of err0: while the error is not
   * nil, TestField(err, "id", i), then err = Inner(err). It stops at the
   * first failed test; it passes exactly when the i-th node of the chain
   * holds id i, and then it has taken one step per node.
   */
  method EveryId(err0: Error) returns (ok: bool, steps: nat)
    requires Wf(err0)
    ensures ok == IdsFrom(Shape(err0), |Shape(err0)|)
    ensures ok ==> steps == |Shape(err0)|
  {
    ghost var s := Shape(err0);
    if err0 != Nil {
      ShapeNonEmpty(err0);
    }
    ReachAllocated(err0);
    label start:
    var err := err0;
    steps := 0;
    ok := true;
    while err != Nil && ok
      invariant steps <= |s|
      invariant err == Nil <==> steps == |s|
      invariant Wf(err) && Shape(err) == s[steps..]
      invariant ok ==> IdsFrom(s, steps)
      invariant !ok ==> steps < |s| && Nodes.Get(s[steps], "id") != Nodes.Found(Int(steps))
      decreases |s| - steps, ok
    {
      var t, next := IdRound(err, steps, s[steps..]);
      assert s[steps..][0] == s[steps];
      if !t {
        ok := false;
      } else {
        assert s[steps..][1..] == s[steps + 1..];
        assert IdsFrom(s, steps + 1);
        err := next;
        steps := steps + 1;
      }
    }
    Stable@start(err0);
  }

  /** One round of that loop: TestField(err, "id", i), and Inner(err) when the test passes. */
  method IdRound(err: Error, i: int, ghost s: seq<Nodes.Layer>) returns (t: bool, next: Error)
    requires err != Nil && Wf(err) && Shape(err) == s
    ensures |s| > 0 && t == (Nodes.Get(s[0], "id") == Nodes.Found(Int(i)))
    ensures t ==> (next == Nil <==> |s| == 1) && Wf(next) && Shape(next) == s[1..]
    ensures !t ==> Wf(err) && Shape(err) == s
  {
    ReachAllocated(err);
    label tested:
    t := Facade.TestField(err, "id", Int(i));
    Stable@tested(err);
    ShapeNonEmpty(err);
    next := Nil;
    if t {
      next := Facade.Inner(err);
    }
  }

  /** Build(message).WithField(name, v).ParentOf(below).Done(). */
  method Generation(message: string, name: string, v: Value, below: Error) returns (e: Error)
    requires Wf(below) && below.Native? && name != "" && name != MessageField
    ensures e.Native? && Wf(e) && Wf(below)
    ensures Shape(below) == old(Shape(below))
    ensures Shape(e) == [Nodes.Layer(message, map[name := v])] + Shape(below)
    ensures e.node.Spine == [e.node] + below.node.Spine
  {
    label first:
    ReachAllocated(below);
    var b := Facade.Build(message);
    b := b.WithField(name, v);
    assert Nodes.LayerOf(b.node) == Nodes.Layer(message, map[name := v]);
    Stable@first(below);
    e := Attached(b, below);
    assert e.node in Roots(e) && below.node in Roots(below);
  }

  /**
   * The recursive test on the four generations finds id 2, held by a node
   * below the head, and does not find id 4, held by no node.
   */
  method Finds() returns (has2: bool, has4: bool)
    ensures has2 && !has4
  {
    var err0, _ := Fourfold();
    label built:
    ReachAllocated(err0);
    has2 := Facade.TestFieldRecursively(err0, "id", Int(2));
    Stable@built(err0);
    label first:
    ReachAllocated(err0);
    has4 := Facade.TestFieldRecursively(err0, "id", Int(4));
    Stable@first(err0);
    assert Nodes.Get(Ids()[2], "id") == Nodes.Found(Int(2));
    forall i | 0 <= i < |Ids()|
      ensures Nodes.Get(Ids()[i], "id") != Nodes.Found(Int(4))
    {
      IdsHeld();
    }
  }

  /**
   * Three generations, the lowest with two fields, the others with one:
   * Depth counts three nodes.
   */
  method ThreeDeep() returns (depth: nat)
    ensures depth == 3
  {
    var b := Facade.Build("something went wrong 2");
    b := b.WithField("id", Int(1));
    b := b.WithField("type", Str("fatal"));
    var err2 := b.Done();
    Nodes.LayersCons(err2.node);
    assert err2.node in Roots(err2);
    var err1 := Generation("something went wrong 1", "type", Str("normal"), err2);
    var err0 := Generation("something went wrong 0", "id", Int(5), err1);
    depth := Facade.Depth(err0);
  }

  /** b.ParentOf(e).Done(): the built node above the chain of e. */
  method Attached(b: Builder, e: Error) returns (r: Error)
    requires b.node.Valid() && Wf(e) && b.node !in Reach(e)
    modifies b.node
    ensures r == Native(b.node) && Wf(r)
    ensures Wf(e) && Shape(e) == old(Shape(e))
    ensures Shape(r) == [old(Nodes.LayerOf(b.node))] + Shape(e)
    ensures e.Native? ==> b.node.Inner == e.node
  {
    ReachAllocated(e);
    ghost var added;
    var p;
    p, added := b.ParentOf(e);
    Stable(e);
    r := p.Done();
    Nodes.LayersCons(r.node);
    assert r.node in Roots(r);
  }

  /** Build(message).WithField("id", v).Done(). */
  method Leaf(message: string, v: Value) returns (e: Error)
    ensures e.Native? && Wf(e) && e.node.Inner == null
    ensures Shape(e) == [Nodes.Layer(message, map["id" := v])]
  {
    var b := Facade.Build(message);
    b := b.WithField("id", v);
    e := b.Done();
    Nodes.LayersCons(e.node);
    assert e.node in Roots(e);
  }
}

/** The depth-first walk of `VoidVisitorAdapter` as the four visitors use it:
    each overridden `visit` first lets the adapter visit the node's children
    (`super.visit`) and then does its own work, so a node's rows follow all of
    its descendants' rows. An exception that escapes a `visit` ends the walk. */
module Traversal {
  import opened Base
  import opened Syntax
  import opened Reports

  /** What a walk produced: the writes in order, and the exception that ended
      it early, if any. */
  datatype Trace = Trace(events: seq<Event>, fault: Option<Exc>)

  const Empty: Trace := Trace([], None)

  /** Running `b` after `a`: nothing of `b` happens once `a` threw. */
  function Then(a: Trace, b: Trace): (r: Trace)
    ensures a.fault.Some? ==> r == a
    ensures a.fault.None? ==> r == Trace(a.events + b.events, b.fault)
  {
    if a.fault.Some? then a else Trace(a.events + b.events, b.fault)
  }

  lemma ThenAssoc(a: Trace, b: Trace, c: Trace)
    ensures Then(Then(a, b), c) == Then(a, Then(b, c))
  {
    if a.fault.None? && b.fault.None? {
      assert a.events + b.events + c.events == a.events + (b.events + c.events);
    }
  }

  /** A node being visited, with its ancestors from the root down to its parent
      (`getParentNode()` repeatedly). */
  datatype Visit = Visit(node: Node, ancestors: seq<Node>)

  /** The walk. A strict visitor overrides `visit(UnparsableStmt)` to throw
      before the statement's children are visited; `own` is the node's own work
      after its children. */
  function Walk(own: Visit -> Trace, strict: bool, n: Node, anc: seq<Node>): Trace
    decreases n, 1
  {
    if strict && n.kind.UnparsableStmt? then Trace([], Some(Exc(IllegalState, Some("Cannot parse " + n.text))))
    else Then(WalkAll(own, strict, n.visitOrder, anc + [n]), own(Visit(n, anc)))
  }

  function WalkAll(own: Visit -> Trace, strict: bool, cs: seq<Node>, anc: seq<Node>): Trace
    decreases cs, 0
  {
    if |cs| == 0 then Empty
    else Then(Walk(own, strict, cs[0], anc), WalkAll(own, strict, cs[1..], anc))
  }

  /** The order of `own` calls: the children's subtrees in visiting order,
      then the node. */
  function PostOrder(n: Node, anc: seq<Node>): (r: seq<Visit>)
    ensures |r| > 0 && r[|r| - 1] == Visit(n, anc)
    ensures forall k :: 0 <= k < |r| - 1 ==>
      |r[k].ancestors| > |anc| && r[k].ancestors[..|anc| + 1] == anc + [n]
    decreases n, 1
  {
    PostOrderAll(n.visitOrder, anc + [n]) + [Visit(n, anc)]
  }

  function PostOrderAll(cs: seq<Node>, anc: seq<Node>): (r: seq<Visit>)
    ensures forall k :: 0 <= k < |r| ==>
      |r[k].ancestors| >= |anc| && r[k].ancestors[..|anc|] == anc
    decreases cs, 0
  {
    if |cs| == 0 then []
    else
      var first := PostOrder(cs[0], anc);
      var rest := PostOrderAll(cs[1..], anc);
      assert forall k :: 0 <= k < |first| - 1 ==> first[k].ancestors[..|anc|] == (anc + [cs[0]])[..|anc|];
      first + rest
  }

  /** Running `own` over visits in order. */
  function Run(own: Visit -> Trace, vs: seq<Visit>): Trace
    decreases |vs|
  {
    if |vs| == 0 then Empty else Then(own(vs[0]), Run(own, vs[1..]))
  }

  lemma {:induction false} RunConcat(own: Visit -> Trace, a: seq<Visit>, b: seq<Visit>)
    ensures Run(own, a + b) == Then(Run(own, a), Run(own, b))
    decreases |a|
  {
    if |a| == 0 {
      assert a + b == b;
    } else {
      assert (a + b)[1..] == a[1..] + b;
      RunConcat(own, a[1..], b);
      ThenAssoc(own(a[0]), Run(own, a[1..]), Run(own, b));
    }
  }

  /** Some node of the tree is an unparsable statement. */
  predicate HasUnparsable(n: Node)
    decreases n
  {
    n.kind.UnparsableStmt? || exists k :: 0 <= k < |n.visitOrder| && HasUnparsable(n.visitOrder[k])
  }

  /** Children before parents: a walk that meets no unparsable statement (or
      whose visitor does not abort on one) is `own` run over the post-order of
      the tree. */
  lemma {:induction false} WalkIsPostOrder(own: Visit -> Trace, strict: bool, n: Node, anc: seq<Node>)
    requires !strict || !HasUnparsable(n)
    ensures Walk(own, strict, n, anc) == Run(own, PostOrder(n, anc))
    decreases n, 1
  {
    WalkAllIsPostOrder(own, strict, n.visitOrder, anc + [n]);
    RunConcat(own, PostOrderAll(n.visitOrder, anc + [n]), [Visit(n, anc)]);
    assert Run(own, [Visit(n, anc)]) == Then(own(Visit(n, anc)), Empty);
  }

  lemma {:induction false} WalkAllIsPostOrder(own: Visit -> Trace, strict: bool, cs: seq<Node>, anc: seq<Node>)
    requires !strict || forall k :: 0 <= k < |cs| ==> !HasUnparsable(cs[k])
    ensures WalkAll(own, strict, cs, anc) == Run(own, PostOrderAll(cs, anc))
    decreases cs, 0
  {
    if |cs| > 0 {
      WalkIsPostOrder(own, strict, cs[0], anc);
      assert forall k :: 0 <= k < |cs[1..]| ==> cs[1..][k] == cs[k + 1];
      WalkAllIsPostOrder(own, strict, cs[1..], anc);
      RunConcat(own, PostOrder(cs[0], anc), PostOrderAll(cs[1..], anc));
    }
  }

  /** A strict visitor never completes a tree holding an unparsable statement. */
  lemma {:induction false} UnparsableAborts(own: Visit -> Trace, n: Node, anc: seq<Node>)
    requires HasUnparsable(n)
    ensures Walk(own, true, n, anc).fault.Some?
    decreases n, 1
  {
    if !n.kind.UnparsableStmt? {
      var k :| 0 <= k < |n.visitOrder| && HasUnparsable(n.visitOrder[k]);
      UnparsableAbortsAll(own, n.visitOrder, anc + [n], k);
    }
  }

  lemma {:induction false} UnparsableAbortsAll(own: Visit -> Trace, cs: seq<Node>, anc: seq<Node>, k: nat)
    requires k < |cs| && HasUnparsable(cs[k])
    ensures WalkAll(own, true, cs, anc).fault.Some?
    decreases cs, 0
  {
    if k == 0 {
      UnparsableAborts(own, cs[0], anc);
    } else if Walk(own, true, cs[0], anc).fault.None? {
      assert cs[1..][k - 1] == cs[k];
      UnparsableAbortsAll(own, cs[1..], anc, k - 1);
    }
  }

  /** The writes of the visits in order, when none of them throws. */
  function EventsOf(own: Visit -> Trace, vs: seq<Visit>): seq<Event>
    decreases |vs|
  {
    if |vs| == 0 then [] else own(vs[0]).events + EventsOf(own, vs[1..])
  }

  lemma {:induction false} RunWithoutFaults(own: Visit -> Trace, vs: seq<Visit>)
    requires forall k :: 0 <= k < |vs| ==> own(vs[k]).fault.None?
    ensures Run(own, vs) == Trace(EventsOf(own, vs), None)
    decreases |vs|
  {
    if |vs| > 0 {
      assert forall k :: 0 <= k < |vs[1..]| ==> vs[1..][k] == vs[k + 1];
      RunWithoutFaults(own, vs[1..]);
    }
  }
}

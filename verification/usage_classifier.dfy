/**
  ForLoopIndexUseVisitor: walks a loop body and decides whether the loop's
  index variable is used only to subscript arrays.

  The visitor is modelled twice over. `Traverse` follows the visitor's own
  recursion, threading its state (`Classification`) through the walk.
  `Reached` lists the nodes the walk reaches, in pre-order, where a subscript
  indexed by the loop variable is reached but its children are not. The
  lemmas show that the walk is a left fold of one step per reached node, and
  from that derive what the visitor's three results mean.
 */
module UsageClassifier {
  import opened Optional
  import opened Ast

  /** The visitor's state: OnlyUsedAsIndex, Usages and ContainersIndexed. */
  datatype Classification = Classification(onlyUsedAsIndex: bool, usages: seq<Expr>, containers: seq<Expr>)

  /** The state the visitor is constructed with. */
  const Start := Classification(true, [], [])

  /** isIndexInSubscriptExpr: the base exists and the index is an integer reference to the loop variable. */
  predicate IsIndexInSubscript(index: Expr, indexVar: ValueDecl, base: Option<Expr>) {
    var idx := GetDeclRef(index);
    base.Some? && idx.Some? && IsIntegerType(idx.value.ty)
    && AreSameVariable(Some(indexVar), Some(idx.value.node.decl))
  }

  /** A subscript the visitor records as a usage and does not descend into. */
  predicate IsPrunedSubscript(e: Expr, v: ValueDecl) {
    e.node.ArraySubscript? && IsIndexInSubscript(e.node.index, v, e.node.base)
  }

  /** A subscript the visitor descends into. */
  predicate IsUnprunedSubscript(e: Expr, v: ValueDecl) {
    e.node.ArraySubscript? && !IsIndexInSubscript(e.node.index, v, e.node.base)
  }

  /** A reference that VisitDeclRefExpr counts against the loop. */
  predicate IsIndexReference(e: Expr, v: ValueDecl) {
    e.node.DeclRef? && AreSameVariable(Some(v), Some(e.node.decl))
  }

  /** The container a recorded subscript indexes: its base without parentheses and casts. */
  function ContainerOf(sub: Expr): Expr {
    if sub.node.ArraySubscript? && sub.node.base.Some? then IgnoreParenCasts(sub.node.base.value) else sub
  }

  /** containsExpr: whether some stored container has the profile of `e`. */
  function ContainsExpr(containers: seq<Expr>, e: Expr): (r: bool)
    ensures r <==> exists k | 0 <= k < |containers| :: Profile(containers[k]) == Profile(e)
  {
    if containers == [] then false
    else AreSameExpr(Some(e), Some(containers[0])) || ContainsExpr(containers[1..], e)
  }

  /** The pruned branch of TraverseArraySubscriptExpr: note the container once, append the usage. */
  function Record(acc: Classification, sub: Expr): Classification {
    var reduced := ContainerOf(sub);
    var containers := if ContainsExpr(acc.containers, reduced) then acc.containers else acc.containers + [reduced];
    acc.(containers := containers, usages := acc.usages + [sub])
  }

  /** VisitDeclRefExpr: a reference to the loop variable clears the flag; nothing else changes. */
  function Visit(acc: Classification, e: Expr, v: ValueDecl): Classification {
    if IsIndexReference(e, v) then acc.(onlyUsedAsIndex := false) else acc
  }

  /**
    The traversal as the visitor performs it: a recorded subscript returns at
    once; any other node is visited and then its children are traversed in order.
   */
  function Traverse(e: Expr, v: ValueDecl, acc: Classification): Classification
    decreases e, 1
  {
    if IsPrunedSubscript(e, v) then Record(acc, e)
    else TraverseSeq(Children(e), e, v, Visit(acc, e, v))
  }

  function TraverseSeq(cs: seq<Expr>, ghost parent: Expr, v: ValueDecl, acc: Classification): Classification
    requires forall i | 0 <= i < |cs| :: cs[i] < parent
    decreases parent, 0, |cs|
  {
    if cs == [] then acc else TraverseSeq(cs[1..], parent, v, Traverse(cs[0], v, acc))
  }

  /** The nodes the traversal reaches, in pre-order, with recorded subscripts as leaves. */
  function Reached(e: Expr, v: ValueDecl): (r: seq<Expr>)
    ensures |r| >= 1 && r[0] == e
    ensures IsPrunedSubscript(e, v) ==> r == [e]
    decreases e, 1
  {
    if IsPrunedSubscript(e, v) then [e] else [e] + ReachedSeq(Children(e), e, v)
  }

  function ReachedSeq(cs: seq<Expr>, ghost parent: Expr, v: ValueDecl): seq<Expr>
    requires forall i | 0 <= i < |cs| :: cs[i] < parent
    decreases parent, 0, |cs|
  {
    if cs == [] then [] else Reached(cs[0], v) + ReachedSeq(cs[1..], parent, v)
  }

  /** What the visitor does on reaching one node. */
  function Step(acc: Classification, n: Expr, v: ValueDecl): Classification {
    if IsPrunedSubscript(n, v) then Record(acc, n) else Visit(acc, n, v)
  }

  function Fold(ns: seq<Expr>, v: ValueDecl, acc: Classification): Classification {
    if ns == [] then acc else Fold(ns[1..], v, Step(acc, ns[0], v))
  }

  /** The recorded subscripts among some reached nodes, in order. */
  function PrunedSubscripts(ns: seq<Expr>, v: ValueDecl): (r: seq<Expr>)
    ensures forall k | 0 <= k < |r| :: IsPrunedSubscript(r[k], v)
    ensures |r| <= |ns|
  {
    if ns == [] then []
    else (if IsPrunedSubscript(ns[0], v) then [ns[0]] else []) + PrunedSubscripts(ns[1..], v)
  }

  /** No two stored containers have the same profile. */
  predicate NoProfileDuplicates(cs: seq<Expr>) {
    forall i, j | 0 <= i < j < |cs| :: Profile(cs[i]) != Profile(cs[j])
  }

  /** `c` is the container of one of the usages. */
  predicate IsContainerOfSome(c: Expr, us: seq<Expr>) {
    exists k | 0 <= k < |us| :: c == ContainerOf(us[k])
  }

  /** Every stored container is the container of some usage. */
  predicate ContainersFromUsages(cs: seq<Expr>, us: seq<Expr>) {
    forall i | 0 <= i < |cs| :: IsContainerOfSome(cs[i], us)
  }

  /** Every usage's container is stored, up to profile. */
  predicate UsagesCovered(cs: seq<Expr>, us: seq<Expr>) {
    forall k | 0 <= k < |us| :: ContainsExpr(cs, ContainerOf(us[k]))
  }

  /** What the visitor's state means, kept by every step. */
  predicate Consistent(acc: Classification, v: ValueDecl) {
    && (forall k | 0 <= k < |acc.usages| :: IsPrunedSubscript(acc.usages[k], v))
    && NoProfileDuplicates(acc.containers)
    && ContainersFromUsages(acc.containers, acc.usages)
    && UsagesCovered(acc.containers, acc.usages)
  }

  lemma RecordKeepsContainersFromUsages(acc: Classification, n: Expr)
    requires ContainersFromUsages(acc.containers, acc.usages)
    ensures ContainersFromUsages(Record(acc, n).containers, Record(acc, n).usages)
  {
    var r := Record(acc, n);
    assert r.usages == acc.usages + [n];
    forall i | 0 <= i < |r.containers| ensures IsContainerOfSome(r.containers[i], r.usages) {
      if i < |acc.containers| {
        assert r.containers[i] == acc.containers[i];
        var k :| 0 <= k < |acc.usages| && acc.containers[i] == ContainerOf(acc.usages[k]);
        assert r.usages[k] == acc.usages[k];
      } else {
        assert r.containers[i] == ContainerOf(r.usages[|acc.usages|]);
      }
    }
  }

  lemma RecordKeepsUsagesCovered(acc: Classification, n: Expr)
    requires UsagesCovered(acc.containers, acc.usages)
    ensures UsagesCovered(Record(acc, n).containers, Record(acc, n).usages)
  {
    var r := Record(acc, n);
    var reduced := ContainerOf(n);
    assert r.usages == acc.usages + [n];
    forall k | 0 <= k < |r.usages| ensures ContainsExpr(r.containers, ContainerOf(r.usages[k])) {
      if k < |acc.usages| {
        assert r.usages[k] == acc.usages[k];
        var i :| 0 <= i < |acc.containers| && Profile(acc.containers[i]) == Profile(ContainerOf(acc.usages[k]));
        assert r.containers[i] == acc.containers[i];
      } else if !ContainsExpr(acc.containers, reduced) {
        assert r.containers[|acc.containers|] == reduced;
      }
    }
  }

  lemma RecordKeepsNoProfileDuplicates(acc: Classification, n: Expr)
    requires NoProfileDuplicates(acc.containers)
    ensures NoProfileDuplicates(Record(acc, n).containers)
  {
    var r := Record(acc, n);
    var reduced := ContainerOf(n);
    if !ContainsExpr(acc.containers, reduced) {
      forall i, j | 0 <= i < j < |r.containers| ensures Profile(r.containers[i]) != Profile(r.containers[j]) {
        assert r.containers[i] == acc.containers[i];
        if j == |acc.containers| {
          assert r.containers[j] == reduced;
        } else {
          assert r.containers[j] == acc.containers[j];
        }
      }
    }
  }

  lemma RecordConsistent(acc: Classification, n: Expr, v: ValueDecl)
    requires Consistent(acc, v)
    requires IsPrunedSubscript(n, v)
    ensures Consistent(Record(acc, n), v)
  {
    RecordKeepsContainersFromUsages(acc, n);
    RecordKeepsUsagesCovered(acc, n);
    RecordKeepsNoProfileDuplicates(acc, n);
    var r := Record(acc, n);
    assert r.usages == acc.usages + [n];
    assert forall k | 0 <= k < |r.usages| :: IsPrunedSubscript(r.usages[k], v) by {
      forall k | 0 <= k < |r.usages| ensures IsPrunedSubscript(r.usages[k], v) {
        if k < |acc.usages| { assert r.usages[k] == acc.usages[k]; }
      }
    }
  }

  lemma StepConsistent(acc: Classification, n: Expr, v: ValueDecl)
    requires Consistent(acc, v)
    ensures Consistent(Step(acc, n, v), v)
  {
    if IsPrunedSubscript(n, v) {
      RecordConsistent(acc, n, v);
    }
  }

  lemma {:induction false} FoldAppend(a: seq<Expr>, b: seq<Expr>, v: ValueDecl, acc: Classification)
    ensures Fold(a + b, v, acc) == Fold(b, v, Fold(a, v, acc))
    decreases |a|
  {
    if a == [] {
      assert a + b == b;
    } else {
      var next := Step(acc, a[0], v);
      assert (a + b)[0] == a[0];
      assert (a + b)[1..] == a[1..] + b;
      assert Fold(a + b, v, acc) == Fold(a[1..] + b, v, next);
      assert Fold(a, v, acc) == Fold(a[1..], v, next);
      FoldAppend(a[1..], b, v, next);
    }
  }

  /** The visitor's recursion is the fold of `Step` over the reached nodes. */
  lemma {:induction false} TraverseIsFold(e: Expr, v: ValueDecl, acc: Classification)
    ensures Traverse(e, v, acc) == Fold(Reached(e, v), v, acc)
    decreases e, 1
  {
    if !IsPrunedSubscript(e, v) {
      var cs := Children(e);
      TraverseSeqIsFold(cs, e, v, Visit(acc, e, v));
      assert ([e] + ReachedSeq(cs, e, v))[1..] == ReachedSeq(cs, e, v);
    }
  }

  lemma {:induction false} TraverseSeqIsFold(cs: seq<Expr>, parent: Expr, v: ValueDecl, acc: Classification)
    requires forall i | 0 <= i < |cs| :: cs[i] < parent
    ensures TraverseSeq(cs, parent, v, acc) == Fold(ReachedSeq(cs, parent, v), v, acc)
    decreases parent, 0, |cs|
  {
    if cs != [] {
      TraverseIsFold(cs[0], v, acc);
      TraverseSeqIsFold(cs[1..], parent, v, Traverse(cs[0], v, acc));
      FoldAppend(Reached(cs[0], v), ReachedSeq(cs[1..], parent, v), v, acc);
    }
  }

  /** Over a run of reached nodes the flag ends true iff it started true and no node referred to the loop variable. */
  lemma {:induction false} FoldVerdict(ns: seq<Expr>, v: ValueDecl, acc: Classification)
    ensures Fold(ns, v, acc).onlyUsedAsIndex <==>
              acc.onlyUsedAsIndex && forall k | 0 <= k < |ns| :: !IsIndexReference(ns[k], v)
  {
    if ns != [] {
      var next := Step(acc, ns[0], v);
      FoldVerdict(ns[1..], v, next);
      assert next.onlyUsedAsIndex <==> acc.onlyUsedAsIndex && !IsIndexReference(ns[0], v);
      if forall k | 0 <= k < |ns[1..]| :: !IsIndexReference(ns[1..][k], v) {
        forall k | 0 <= k < |ns| ensures !IsIndexReference(ns[k], v) || k == 0 {
          if k > 0 { assert ns[k] == ns[1..][k - 1]; }
        }
      }
    }
  }

  /** One usage is appended per recorded subscript, in order, whatever the flag says. */
  lemma {:induction false} FoldUsages(ns: seq<Expr>, v: ValueDecl, acc: Classification)
    ensures Fold(ns, v, acc).usages == acc.usages + PrunedSubscripts(ns, v)
  {
    if ns != [] {
      var next := Step(acc, ns[0], v);
      var head := if IsPrunedSubscript(ns[0], v) then [ns[0]] else [];
      assert next.usages == acc.usages + head;
      FoldUsages(ns[1..], v, next);
      assert PrunedSubscripts(ns, v) == head + PrunedSubscripts(ns[1..], v);
      assert Fold(ns, v, acc) == Fold(ns[1..], v, next);
      assert acc.usages + head + PrunedSubscripts(ns[1..], v) == acc.usages + (head + PrunedSubscripts(ns[1..], v));
    }
  }

  lemma {:induction false} FoldConsistent(ns: seq<Expr>, v: ValueDecl, acc: Classification)
    requires Consistent(acc, v)
    ensures Consistent(Fold(ns, v, acc), v)
  {
    if ns != [] {
      StepConsistent(acc, ns[0], v);
      FoldConsistent(ns[1..], v, Step(acc, ns[0], v));
    }
  }

  /**
    findUsages: traverses the body from the visitor's initial state. The flag
    says no reached node refers to the loop variable; the usages are the
    recorded subscripts in traversal order; the containers are the usages'
    containers, one per profile.
   */
  function FindUsages(body: Expr, v: ValueDecl): (r: Classification)
    ensures r.onlyUsedAsIndex <==>
              forall k | 0 <= k < |Reached(body, v)| :: !IsIndexReference(Reached(body, v)[k], v)
    ensures r.usages == PrunedSubscripts(Reached(body, v), v)
    ensures NoProfileDuplicates(r.containers)
    ensures ContainersFromUsages(r.containers, r.usages)
    ensures UsagesCovered(r.containers, r.usages)
  {
    TraverseIsFold(body, v, Start);
    FoldVerdict(Reached(body, v), v, Start);
    FoldUsages(Reached(body, v), v, Start);
    FoldConsistent(Reached(body, v), v, Start);
    Traverse(body, v, Start)
  }

  lemma FirstTwoDiffer(cs: seq<Expr>)
    requires NoProfileDuplicates(cs)
    requires |cs| >= 2
    ensures Profile(cs[0]) != Profile(cs[1])
  {
  }

  lemma AtMostOneWithProfile(cs: seq<Expr>, p: Fingerprint)
    requires NoProfileDuplicates(cs)
    requires forall i | 0 <= i < |cs| :: Profile(cs[i]) == p
    ensures |cs| <= 1
  {
    if |cs| >= 2 {
      FirstTwoDiffer(cs);
      assert false;
    }
  }

  /**
    Exactly one container is indexed iff there is at least one usage and all
    usages index containers with the same profile.
   */
  lemma SingleContainer(body: Expr, v: ValueDecl)
    ensures var r := FindUsages(body, v);
      |r.containers| == 1 <==>
        |r.usages| > 0 && forall k | 0 <= k < |r.usages| ::
                            Profile(ContainerOf(r.usages[k])) == Profile(ContainerOf(r.usages[0]))
  {
    var r := FindUsages(body, v);
    var cs, us := r.containers, r.usages;
    if |cs| == 1 {
      var k0 :| 0 <= k0 < |us| && cs[0] == ContainerOf(us[k0]);
      forall k | 0 <= k < |us| ensures Profile(ContainerOf(us[k])) == Profile(cs[0]) {
        assert ContainsExpr(cs, ContainerOf(us[k]));
      }
    }
    if |us| > 0 && forall k | 0 <= k < |us| :: Profile(ContainerOf(us[k])) == Profile(ContainerOf(us[0])) {
      assert ContainsExpr(cs, ContainerOf(us[0]));
      forall i | 0 <= i < |cs| ensures Profile(cs[i]) == Profile(ContainerOf(us[0])) {
        assert IsContainerOfSome(cs[i], us);
      }
      AtMostOneWithProfile(cs, Profile(ContainerOf(us[0])));
    }
  }

  /**
    Once a reference has cleared the flag it stays cleared, and the walk goes
    on: later subscripts are still recorded.
   */
  lemma FlagStaysCleared(e: Expr, v: ValueDecl, acc: Classification)
    requires !acc.onlyUsedAsIndex
    ensures !Traverse(e, v, acc).onlyUsedAsIndex
    ensures Traverse(e, v, acc).usages == acc.usages + PrunedSubscripts(Reached(e, v), v)
  {
    TraverseIsFold(e, v, acc);
    FoldVerdict(Reached(e, v), v, acc);
    FoldUsages(Reached(e, v), v, acc);
  }

  // The traversal as written: TraverseArraySubscriptExpr's fall-back calls
  // VisitorBase::TraverseStmt(ASE), which dispatches on the node's class back
  // to the derived TraverseArraySubscriptExpr, i.e. to itself on the same node.
  // `fuel` bounds the recursion depth; None means it was exhausted.

  function TraverseAsWritten(e: Expr, v: ValueDecl, acc: Classification, fuel: nat): Option<Classification>
    decreases fuel, 0
  {
    if fuel == 0 then None
    else if IsPrunedSubscript(e, v) then Some(Record(acc, e))
    else if e.node.ArraySubscript? then TraverseAsWritten(e, v, acc, fuel - 1)
    else TraverseSeqAsWritten(Children(e), v, Visit(acc, e, v), fuel - 1)
  }

  function TraverseSeqAsWritten(cs: seq<Expr>, v: ValueDecl, acc: Classification, fuel: nat): Option<Classification>
    decreases fuel, 1, |cs|
  {
    if cs == [] then Some(acc)
    else
      match TraverseAsWritten(cs[0], v, acc, fuel)
      case None => None
      case Some(next) => TraverseSeqAsWritten(cs[1..], v, next, fuel)
  }

  /** As written, the walk never finishes once it reaches a subscript not indexed by the loop variable. */
  lemma {:induction false} AsWrittenDiverges(e: Expr, v: ValueDecl, acc: Classification, fuel: nat)
    requires exists k | 0 <= k < |Reached(e, v)| :: IsUnprunedSubscript(Reached(e, v)[k], v)
    ensures TraverseAsWritten(e, v, acc, fuel).None?
    decreases e, 1, fuel
  {
    if fuel > 0 && !IsPrunedSubscript(e, v) {
      if e.node.ArraySubscript? {
        assert TraverseAsWritten(e, v, acc, fuel) == TraverseAsWritten(e, v, acc, fuel - 1);
        AsWrittenDiverges(e, v, acc, fuel - 1);
      } else {
        var cs := Children(e);
        assert TraverseAsWritten(e, v, acc, fuel) == TraverseSeqAsWritten(cs, v, Visit(acc, e, v), fuel - 1);
        var reached := Reached(e, v);
        assert reached == [e] + ReachedSeq(cs, e, v);
        var k :| 0 <= k < |reached| && IsUnprunedSubscript(reached[k], v);
        assert !IsUnprunedSubscript(e, v);
        assert k > 0;
        assert reached[k] == ReachedSeq(cs, e, v)[k - 1];
        AsWrittenSeqDiverges(cs, e, v, Visit(acc, e, v), fuel - 1);
      }
    }
  }

  lemma {:induction false} AsWrittenSeqDiverges(cs: seq<Expr>, parent: Expr, v: ValueDecl, acc: Classification, fuel: nat)
    requires forall i | 0 <= i < |cs| :: cs[i] < parent
    requires exists k | 0 <= k < |ReachedSeq(cs, parent, v)| :: IsUnprunedSubscript(ReachedSeq(cs, parent, v)[k], v)
    ensures TraverseSeqAsWritten(cs, v, acc, fuel).None?
    decreases parent, 0, |cs|
  {
    var k :| 0 <= k < |ReachedSeq(cs, parent, v)| && IsUnprunedSubscript(ReachedSeq(cs, parent, v)[k], v);
    var head := Reached(cs[0], v);
    if k < |head| {
      assert ReachedSeq(cs, parent, v)[k] == head[k];
      AsWrittenDiverges(cs[0], v, acc, fuel);
    } else {
      assert ReachedSeq(cs, parent, v)[k] == ReachedSeq(cs[1..], parent, v)[k - |head|];
      var first := TraverseAsWritten(cs[0], v, acc, fuel);
      if first.Some? {
        AsWrittenSeqDiverges(cs[1..], parent, v, first.value, fuel);
      }
    }
  }

  /** Where the walk reaches no such subscript, the code as written computes what `Traverse` does. */
  lemma {:induction false} AsWrittenAgrees(e: Expr, v: ValueDecl, acc: Classification, fuel: nat)
    requires forall k | 0 <= k < |Reached(e, v)| :: !IsUnprunedSubscript(Reached(e, v)[k], v)
    requires fuel >= Size(e)
    ensures TraverseAsWritten(e, v, acc, fuel) == Some(Traverse(e, v, acc))
    decreases e, 1
  {
    if !IsPrunedSubscript(e, v) {
      assert !e.node.ArraySubscript? by { assert Reached(e, v)[0] == e; }
      var cs := Children(e);
      forall k | 0 <= k < |ReachedSeq(cs, e, v)| ensures !IsUnprunedSubscript(ReachedSeq(cs, e, v)[k], v) {
        assert ReachedSeq(cs, e, v)[k] == Reached(e, v)[k + 1];
      }
      AsWrittenSeqAgrees(cs, e, v, Visit(acc, e, v), fuel - 1);
    }
  }

  lemma {:induction false} AsWrittenSeqAgrees(cs: seq<Expr>, parent: Expr, v: ValueDecl, acc: Classification, fuel: nat)
    requires forall i | 0 <= i < |cs| :: cs[i] < parent
    requires forall k | 0 <= k < |ReachedSeq(cs, parent, v)| :: !IsUnprunedSubscript(ReachedSeq(cs, parent, v)[k], v)
    requires fuel >= SizeSeq(cs, parent)
    ensures TraverseSeqAsWritten(cs, v, acc, fuel) == Some(TraverseSeq(cs, parent, v, acc))
    decreases parent, 0, |cs|
  {
    if cs != [] {
      var head := Reached(cs[0], v);
      var tail := ReachedSeq(cs[1..], parent, v);
      forall k | 0 <= k < |head| ensures !IsUnprunedSubscript(head[k], v) {
        assert ReachedSeq(cs, parent, v)[k] == head[k];
      }
      forall k | 0 <= k < |tail| ensures !IsUnprunedSubscript(tail[k], v) {
        assert ReachedSeq(cs, parent, v)[|head| + k] == tail[k];
      }
      AsWrittenAgrees(cs[0], v, acc, fuel);
      AsWrittenSeqAgrees(cs[1..], parent, v, Traverse(cs[0], v, acc), fuel);
    }
  }
}

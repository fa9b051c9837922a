/**
  Loops from the converter's array tests, built as ASTs, and what `run` does
  with each. Every tree lies in the main file 0; offsets only need to keep
  ranges apart.
 */
module LoopFixerExamples {
  import opened Optional
  import opened Ast
  import opened UsageClassifier
  import opened LoopFixer

  function At(a: nat, b: nat): SourceRange {
    SourceRange(Loc(0, a), Loc(0, b))
  }

  const I := ValueDecl(1, "i", None)
  const Arr := ValueDecl(2, "arr", None)
  /** `const int N = 6;` */
  const N := ValueDecl(3, "N", Some(6))
  /** `const int NMinusOne = N - 1;` */
  const NMinusOne := ValueDecl(4, "NMinusOne", Some(5))
  const Sum := ValueDecl(5, "sum", None)
  const X := ValueDecl(6, "x", None)
  const Other_ := ValueDecl(7, "other", None)
  const ArrField := ValueDecl(8, "Arr", None)

  const ArrTy := ConstantArrayTy(IntegerTy, 6)

  function Ref(d: ValueDecl, t: Ty, at: nat): Expr {
    Expr(DeclRef(d), t, At(at, at))
  }

  function Rvalue(e: Expr): Expr {
    Expr(ImplicitCast(e), e.ty, e.range)
  }

  /** `base[i]` whose base is `container` decayed to a pointer, the index token at offset `at + 4`. */
  function IndexedBy(container: Expr, index: ValueDecl, at: nat): Expr {
    var decayed := Expr(ImplicitCast(container), PointerTy(IntegerTy), container.range);
    Expr(ArraySubscript(Some(decayed), Rvalue(Ref(index, IntegerTy, at + 4))), IntegerTy, At(at, at + 5))
  }

  function CompoundAssign(lhs: Expr, rhs: Expr): Expr {
    Expr(Other("CompoundAssignOperator", [lhs, rhs]), IntegerTy, SourceRange(lhs.range.begin, rhs.range.end))
  }

  function Block(stmts: seq<Expr>, at: nat): Expr {
    Expr(Other("CompoundStmt", stmts), IntegerTy, At(at, at + 100))
  }

  /** `for (int i = 0; i < BOUND; ++i) BODY` with `(` at offset 4 and `)` at offset 30. */
  function Loop(bound: Expr, body: Expr): MatchResult {
    MatchResult(ForLoop(Loc(0, 0), Loc(0, 4), Loc(0, 30), body), Some(I), Some(I), Some(I), bound)
  }

  /** `sum += arr[i];` with the subscript at offset 50. */
  const SumArr := CompoundAssign(Ref(Sum, IntegerTy, 40), Rvalue(IndexedBy(Ref(Arr, ArrTy, 50), I, 50)))

  const BoundN := Rvalue(Ref(N, IntegerTy, 20))

  const Header := Replacement(At(4, 30), "(auto & elem : arr)")

  /** The subscript `arr[i]` of `SumArr`. */
  const SumArrSub := IndexedBy(Ref(Arr, ArrTy, 50), I, 50)

  // The walk over each shape of node used below, stated for any arguments.

  lemma TraverseRvalue(e: Expr, v: ValueDecl, acc: Classification)
    ensures Traverse(Rvalue(e), v, acc) == Traverse(e, v, acc)
  {
    var w := Rvalue(e);
    assert Children(w) == [e];
    assert TraverseSeq([e], w, v, acc) == TraverseSeq([], w, v, Traverse(e, v, acc));
  }

  lemma TraverseOtherVariable(d: ValueDecl, t: Ty, at: nat, v: ValueDecl, acc: Classification)
    requires d.canonical != v.canonical
    ensures Traverse(Ref(d, t, at), v, acc) == acc
  {
  }

  lemma TraverseIndexVariable(t: Ty, at: nat, v: ValueDecl, acc: Classification)
    ensures Traverse(Ref(v, t, at), v, acc) == acc.(onlyUsedAsIndex := false)
  {
  }

  lemma TraverseIndexedBy(container: Expr, v: ValueDecl, at: nat, acc: Classification)
    ensures Traverse(IndexedBy(container, v, at), v, acc) == Record(acc, IndexedBy(container, v, at))
    ensures ContainerOf(IndexedBy(container, v, at)) == IgnoreParenCasts(container)
  {
    assert IsPrunedSubscript(IndexedBy(container, v, at), v);
  }

  lemma TraversePair(e: Expr, v: ValueDecl, acc: Classification)
    requires !e.node.DeclRef? && !e.node.ArraySubscript?
    requires |Children(e)| == 2
    ensures Traverse(e, v, acc) == Traverse(Children(e)[1], v, Traverse(Children(e)[0], v, acc))
  {
    var cs := Children(e);
    assert Traverse(e, v, acc) == TraverseSeq(cs, e, v, acc);
    var mid := Traverse(cs[0], v, acc);
    assert TraverseSeq(cs, e, v, acc) == TraverseSeq(cs[1..], e, v, mid);
    assert cs[1..][0] == cs[1] && cs[1..][1..] == [];
    assert TraverseSeq(cs[1..], e, v, mid) == TraverseSeq([], e, v, Traverse(cs[1], v, mid));
  }

  lemma TraverseBlockOne(a: Expr, at: nat, v: ValueDecl, acc: Classification)
    ensures Traverse(Block([a], at), v, acc) == Traverse(a, v, acc)
  {
    var b := Block([a], at);
    assert TraverseSeq([a], b, v, acc) == TraverseSeq([], b, v, Traverse(a, v, acc));
  }

  lemma TraverseBlockTwo(a: Expr, c: Expr, at: nat, v: ValueDecl, acc: Classification)
    ensures Traverse(Block([a, c], at), v, acc) == Traverse(c, v, Traverse(a, v, acc))
  {
    var b := Block([a, c], at);
    assert [a, c][1..] == [c];
    assert TraverseSeq([a, c], b, v, acc) == TraverseSeq([c], b, v, Traverse(a, v, acc));
    assert TraverseSeq([c], b, v, Traverse(a, v, acc)) == TraverseSeq([], b, v, Traverse(c, v, Traverse(a, v, acc)));
  }

  /** `run` once every gate is known to pass: doConversion on the single container. */
  lemma RunPassingAllGates(m: MatchResult, text: SourceText, finder: Classification)
    requires m.loop.forLoc.file == 0 && m.initVar == Some(I) && m.conditionVar == Some(I) && m.incrementVar == Some(I)
    requires FindUsages(m.loop.body, I) == finder
    requires finder.onlyUsedAsIndex && |finder.containers| == 1
    requires ArrayMatchesConditionExpr(finder.containers[0].ty, m.bound)
    requires finder.containers[0].range.begin.file == finder.containers[0].range.end.file
    ensures Run(m, 0, text)
            == Converted(UsageEdits(finder.usages)
                         + [Replacement(ParenRange(m.loop), RangeHeader(text(finder.containers[0].range)))])
  {
    assert Run(m, 0, text) == DoConversion(finder.containers[0], finder.usages, m.loop, text);
  }

  /** The headers the tests expect. */
  lemma HeaderTexts()
    ensures RangeHeader("arr") == "(auto & elem : arr)"
    ensures RangeHeader("this->Arr") == "(auto & elem : this->Arr)"
  {
  }

  /** What the visitor makes of `{ sum += arr[i]; }`: one usage, one container. */
  lemma SumArrUsages()
    ensures FindUsages(Block([SumArr], 35), I) == Classification(true, [SumArrSub], [Ref(Arr, ArrTy, 50)])
  {
    TraverseBlockOne(SumArr, 35, I, Start);
    TraversePair(SumArr, I, Start);
    TraverseOtherVariable(Sum, IntegerTy, 40, I, Start);
    TraverseRvalue(SumArrSub, I, Start);
    TraverseIndexedBy(Ref(Arr, ArrTy, 50), I, 50, Start);
  }

  /** loop-convert-array.cpp, the loop at line 23: `for (int i = 0; i < N; ++i) { sum += arr[i]; }`. */
  lemma ConvertsSumOverArray()
    ensures Run(Loop(BoundN, Block([SumArr], 35)), 0, r => "arr")
            == Converted([Replacement(At(50, 55), "elem"), Header])
  {
    SumArrUsages();
    assert IntegerConstantValue(BoundN) == Some(6);
    RunPassingAllGates(Loop(BoundN, Block([SumArr], 35)), r => "arr", Classification(true, [SumArrSub], [Ref(Arr, ArrTy, 50)]));
    assert UsageEdits([SumArrSub]) == [Replacement(At(50, 55), "elem")];
    HeaderTexts();
  }

  /** The loop at line 75: the bound `NMinusOne + 1` is a constant expression of value 6. */
  lemma ConvertsComputedBound()
    ensures var bound := Expr(Binary(Add, Rvalue(Ref(NMinusOne, IntegerTy, 20)), Expr(IntegerLiteral(1), IntegerTy, At(32, 32))),
                              IntegerTy, At(20, 33));
            Run(Loop(bound, Block([SumArr], 35)), 0, r => "arr")
            == Converted([Replacement(At(50, 55), "elem"), Header])
  {
    var bound := Expr(Binary(Add, Rvalue(Ref(NMinusOne, IntegerTy, 20)), Expr(IntegerLiteral(1), IntegerTy, At(32, 32))),
                      IntegerTy, At(20, 33));
    SumArrUsages();
    assert IntegerConstantValue(bound) == Some(6);
    RunPassingAllGates(Loop(bound, Block([SumArr], 35)), r => "arr", Classification(true, [SumArrSub], [Ref(Arr, ArrTy, 50)]));
    assert UsageEdits([SumArrSub]) == [Replacement(At(50, 55), "elem")];
    HeaderTexts();
  }

  /** A second `sum += arr[i];` with the subscript at offset 70. */
  const SecondSub := IndexedBy(Ref(Arr, ArrTy, 70), I, 70)
  const SecondSumArr := CompoundAssign(Ref(Sum, IntegerTy, 60), Rvalue(SecondSub))

  /** Two subscripts of `arr` at different places: two usages, and the container noted once. */
  lemma TwoUsagesUsages()
    ensures FindUsages(Block([SumArr, SecondSumArr], 35), I)
            == Classification(true, [SumArrSub, SecondSub], [Ref(Arr, ArrTy, 50)])
  {
    var first := Classification(true, [SumArrSub], [Ref(Arr, ArrTy, 50)]);
    TraverseBlockTwo(SumArr, SecondSumArr, 35, I, Start);
    TraversePair(SumArr, I, Start);
    TraverseOtherVariable(Sum, IntegerTy, 40, I, Start);
    TraverseRvalue(SumArrSub, I, Start);
    TraverseIndexedBy(Ref(Arr, ArrTy, 50), I, 50, Start);
    assert Traverse(SumArr, I, Start) == first;
    TraversePair(SecondSumArr, I, first);
    TraverseOtherVariable(Sum, IntegerTy, 60, I, first);
    TraverseRvalue(SecondSub, I, first);
    TraverseIndexedBy(Ref(Arr, ArrTy, 70), I, 70, first);
    assert Profile(Ref(Arr, ArrTy, 70)) == Profile(Ref(Arr, ArrTy, 50));
  }

  /** Two subscripts of one array in the body: both are replaced, one header edit. */
  lemma ConvertsEveryUsage()
    ensures Run(Loop(BoundN, Block([SumArr, SecondSumArr], 35)), 0, r => "arr")
            == Converted([Replacement(At(50, 55), "elem"), Replacement(At(70, 75), "elem"), Header])
  {
    TwoUsagesUsages();
    assert IntegerConstantValue(BoundN) == Some(6);
    RunPassingAllGates(Loop(BoundN, Block([SumArr, SecondSumArr], 35)), r => "arr",
                       Classification(true, [SumArrSub, SecondSub], [Ref(Arr, ArrTy, 50)]));
    assert UsageEdits([SumArrSub, SecondSub]) == [Replacement(At(50, 55), "elem"), Replacement(At(70, 75), "elem")];
    HeaderTexts();
  }

  /** `x = i;` */
  const CopyIndex := Expr(Binary(Assign, Ref(X, IntegerTy, 36), Rvalue(Ref(I, IntegerTy, 38))), IntegerTy, At(36, 38))

  /** `{ x = i; sum += arr[i]; }`: the index is read outside a subscript. */
  lemma RejectsEscapingIndex()
    ensures Run(Loop(BoundN, Block([CopyIndex, SumArr], 35)), 0, r => "arr") == Rejected(IndexEscapes)
  {
    var cleared := Start.(onlyUsedAsIndex := false);
    TraverseBlockTwo(CopyIndex, SumArr, 35, I, Start);
    TraversePair(CopyIndex, I, Start);
    TraverseOtherVariable(X, IntegerTy, 36, I, Start);
    TraverseRvalue(Ref(I, IntegerTy, 38), I, Start);
    TraverseIndexVariable(IntegerTy, 38, I, Start);
    assert Traverse(CopyIndex, I, Start) == cleared;
    FlagStaysCleared(SumArr, I, cleared);
  }

  /** `arr[i] + other[i]` */
  const OtherSub := IndexedBy(Ref(Other_, ArrTy, 60), I, 60)
  const BothArrays := Expr(Binary(Add, Rvalue(SumArrSub), Rvalue(OtherSub)), IntegerTy, At(50, 65))
  const SumBoth := CompoundAssign(Ref(Sum, IntegerTy, 40), BothArrays)

  /** `sum += arr[i] + other[i];`: two containers are indexed. */
  lemma RejectsTwoContainers()
    ensures Run(Loop(BoundN, Block([SumBoth], 35)), 0, r => "arr") == Rejected(NotOneContainer)
  {
    var first := Classification(true, [SumArrSub], [Ref(Arr, ArrTy, 50)]);
    TraverseBlockOne(SumBoth, 35, I, Start);
    TraversePair(SumBoth, I, Start);
    TraverseOtherVariable(Sum, IntegerTy, 40, I, Start);
    TraversePair(BothArrays, I, Start);
    TraverseRvalue(SumArrSub, I, Start);
    TraverseIndexedBy(Ref(Arr, ArrTy, 50), I, 50, Start);
    assert Traverse(Rvalue(SumArrSub), I, Start) == first;
    TraverseRvalue(OtherSub, I, first);
    TraverseIndexedBy(Ref(Other_, ArrTy, 60), I, 60, first);
    assert Profile(Ref(Other_, ArrTy, 60)) != Profile(Ref(Arr, ArrTy, 50));
    assert |Traverse(Block([SumBoth], 35), I, Start).containers| == 2;
  }

  /** `i < NMinusOne` against `int arr[6]`: the bound is not the array's size. */
  lemma RejectsShorterBound()
    ensures Run(Loop(Rvalue(Ref(NMinusOne, IntegerTy, 20)), Block([SumArr], 35)), 0, r => "arr")
            == Rejected(BoundMismatch)
  {
    SumArrUsages();
    assert IntegerConstantValue(Rvalue(Ref(NMinusOne, IntegerTy, 20))) == Some(5);
  }

  /** `this->Arr` */
  const ThisArr := Expr(Member(Expr(This, PointerTy(RecordTy("HasArr")), At(50, 50)), ArrField, true), ArrTy, At(50, 56))
  const ThisArrSub := IndexedBy(ThisArr, I, 50)

  /** The container of `this->Arr[i]` is the member expression itself. */
  lemma ThisMemberUsages()
    ensures FindUsages(Block([Rvalue(ThisArrSub)], 35), I) == Classification(true, [ThisArrSub], [ThisArr])
  {
    TraverseBlockOne(Rvalue(ThisArrSub), 35, I, Start);
    TraverseRvalue(ThisArrSub, I, Start);
    TraverseIndexedBy(ThisArr, I, 50, Start);
  }

  /** The loop at line 119: `this->Arr[i]`; the header repeats the container's text verbatim. */
  lemma ConvertsExplicitThisMember()
    ensures Run(Loop(BoundN, Block([Rvalue(ThisArrSub)], 35)), 0, r => "this->Arr")
            == Converted([Replacement(At(50, 55), "elem"), Replacement(At(4, 30), "(auto & elem : this->Arr)")])
  {
    ThisMemberUsages();
    assert IntegerConstantValue(BoundN) == Some(6);
    RunPassingAllGates(Loop(BoundN, Block([Rvalue(ThisArrSub)], 35)), r => "this->Arr",
                       Classification(true, [ThisArrSub], [ThisArr]));
    assert UsageEdits([ThisArrSub]) == [Replacement(At(50, 55), "elem")];
    HeaderTexts();
  }
}

/**
  LoopFixer::run: the gates a matched counting loop must pass before it is
  rewritten to a range-based for loop, and doConversion, which produces the
  rewrite as text replacements.
 */
module LoopFixer {
  import opened Optional
  import opened Ast
  import opened UsageClassifier

  /** The matched for statement: where `for` is, its parentheses, and its body. */
  datatype ForLoop = ForLoop(forLoc: Loc, lParenLoc: Loc, rParenLoc: Loc, body: Expr)

  /**
    What LoopMatcher binds for a loop shaped `for (int i = 0; i < BOUND; ++i) BODY`:
    the loop, the variables named by the initialiser, the condition and the
    increment, and the bound expression.
   */
  datatype MatchResult = MatchResult(
    loop: ForLoop,
    initVar: Option<ValueDecl>,
    conditionVar: Option<ValueDecl>,
    incrementVar: Option<ValueDecl>,
    bound: Expr)

  /** A tooling::Replacement: the token range to replace and the text to put there. */
  datatype Replacement = Replacement(range: SourceRange, text: string)

  /** The gates of `run`, named after what makes them fail. */
  datatype Rejection = NotInMainFile | DifferentVariables | IndexEscapes | NotOneContainer | BoundMismatch

  datatype Outcome =
    | Rejected(reason: Rejection)
    | Converted(edits: seq<Replacement>)
      /** The container's range spans two files: the source builds a StringRef from a null pointer. */
    | ContainerTextUnavailable

  /** The name doConversion gives the element variable. */
  const ElementName := "elem"

  /** AutoRefType.getAsString(): an lvalue reference to `auto`. */
  const AutoRefType := "auto &"

  /** The gates, in the order `run` tries them. */
  const GateOrder := [NotInMainFile, DifferentVariables, IndexEscapes, NotOneContainer, BoundMismatch]

  /**
    arrayMatchesConditionExpr: the canonical type is a constant-size array and
    the bound is an integer constant expression with the same value as its size.
   */
  function ArrayMatchesConditionExpr(arrayType: Ty, condition: Expr): (r: bool)
    ensures r ==> Canonical(arrayType).ConstantArrayTy? && IsIntegerType(condition.ty)
    ensures r <==> Canonical(arrayType).ConstantArrayTy?
                   && IntegerConstantValue(condition) == Some(Canonical(arrayType).size)
  {
    match Canonical(arrayType)
    case ConstantArrayTy(_, size) =>
      var value := IntegerConstantValue(condition);
      value.Some? && value.value == size
    case _ => false
  }

  /** getCanonicalType looks through a typedef: an array behind one is judged as the array itself. */
  lemma TypedefIsTransparent(name: string, aliased: Ty, condition: Expr)
    ensures ArrayMatchesConditionExpr(TypedefTy(name, aliased), condition)
            == ArrayMatchesConditionExpr(aliased, condition)
  {
  }

  /** Only a constant-size array has a size to compare: pointers and variable-length arrays never match. */
  lemma OnlyConstantArraysMatch(t: Ty, condition: Expr)
    ensures !ArrayMatchesConditionExpr(PointerTy(t), condition)
    ensures !ArrayMatchesConditionExpr(VariableArrayTy(t), condition)
    ensures !ArrayMatchesConditionExpr(IntegerTy, condition)
  {
  }

  /** A bound one short of the size, or one past it, is rejected for every array. */
  lemma OffByOneBoundRejected(element: Ty, size: nat, condition: Expr)
    requires IntegerConstantValue(condition) == Some(size - 1) || IntegerConstantValue(condition) == Some(size + 1)
    ensures !ArrayMatchesConditionExpr(ConstantArrayTy(element, size), condition)
  {
  }

  /** The bound is judged by its value, not its spelling: bounds with the same constant value get the same verdict. */
  lemma SameValueSameVerdict(arrayType: Ty, first: Expr, second: Expr)
    requires IntegerConstantValue(first) == IntegerConstantValue(second)
    ensures ArrayMatchesConditionExpr(arrayType, first) == ArrayMatchesConditionExpr(arrayType, second)
  {
  }

  /** Whether a match gets past one gate, each gate judged on its own. */
  function Passes(gate: Rejection, m: MatchResult, mainFile: FileId): bool {
    match gate
    case NotInMainFile => m.loop.forLoc.file == mainFile
    case DifferentVariables =>
      AreSameVariable(m.incrementVar, m.conditionVar) && AreSameVariable(m.incrementVar, m.initVar)
    case IndexEscapes =>
      m.incrementVar.Some? && FindUsages(m.loop.body, m.incrementVar.value).onlyUsedAsIndex
    case NotOneContainer =>
      m.incrementVar.Some? && |FindUsages(m.loop.body, m.incrementVar.value).containers| == 1
    case BoundMismatch =>
      m.incrementVar.Some? &&
      var containers := FindUsages(m.loop.body, m.incrementVar.value).containers;
      |containers| == 1 && ArrayMatchesConditionExpr(containers[0].ty, m.bound)
  }

  /** The range doConversion replaces by the new loop header: the parentheses and all between. */
  function ParenRange(loop: ForLoop): SourceRange {
    SourceRange(loop.lParenLoc, loop.rParenLoc)
  }

  /** The header of the range-based loop over the container's verbatim text. */
  function RangeHeader(containerText: string): string {
    "(" + AutoRefType + " " + ElementName + " : " + containerText + ")"
  }

  /** The loop over Usages in doConversion: one replacement by the element name per usage. */
  function UsageEdits(usages: seq<Expr>): (r: seq<Replacement>)
    ensures |r| == |usages|
    ensures forall k | 0 <= k < |usages| :: r[k] == Replacement(usages[k].range, ElementName)
  {
    if usages == [] then [] else [Replacement(usages[0].range, ElementName)] + UsageEdits(usages[1..])
  }

  /**
    doConversion: every usage's subscript range is replaced by the element
    name, and the parenthesised header by a range-based header over the
    container's source text.
   */
  function DoConversion(container: Expr, usages: seq<Expr>, loop: ForLoop, text: SourceText): (r: Outcome)
    ensures !r.Rejected?
    ensures r.ContainerTextUnavailable? <==> container.range.begin.file != container.range.end.file
    ensures r.Converted? ==>
              && |r.edits| == |usages| + 1
              && (forall k | 0 <= k < |usages| :: r.edits[k] == Replacement(usages[k].range, ElementName))
              && r.edits[|usages|] == Replacement(ParenRange(loop), RangeHeader(text(container.range)))
  {
    var containerText := GetStringFromRange(container.range, text);
    if containerText.None? then ContainerTextUnavailable
    else Converted(UsageEdits(usages) + [Replacement(ParenRange(loop), RangeHeader(containerText.value))])
  }

  /**
    LoopFixer::run. The gates are tried in `GateOrder`; the first that fails
    decides the rejection, and doConversion runs only when every gate passes.
   */
  function Run(m: MatchResult, mainFile: FileId, text: SourceText): (r: Outcome)
    ensures r.Rejected? <==> exists k | 0 <= k < |GateOrder| :: !Passes(GateOrder[k], m, mainFile)
    ensures r.Rejected? ==>
              exists k | 0 <= k < |GateOrder| ::
                && r.reason == GateOrder[k]
                && !Passes(GateOrder[k], m, mainFile)
                && forall j | 0 <= j < k :: Passes(GateOrder[j], m, mainFile)
  {
    assert GateOrder[0] == NotInMainFile && GateOrder[1] == DifferentVariables && GateOrder[2] == IndexEscapes;
    assert GateOrder[3] == NotOneContainer && GateOrder[4] == BoundMismatch;
    if m.loop.forLoc.file != mainFile then Rejected(NotInMainFile)
    else if !AreSameVariable(m.incrementVar, m.conditionVar) || !AreSameVariable(m.incrementVar, m.initVar) then
      Rejected(DifferentVariables)
    else
      var finder := FindUsages(m.loop.body, m.incrementVar.value);
      if !finder.onlyUsedAsIndex then Rejected(IndexEscapes)
      else if |finder.containers| != 1 then Rejected(NotOneContainer)
      else
        var container := finder.containers[0];
        if !ArrayMatchesConditionExpr(container.ty, m.bound) then Rejected(BoundMismatch)
        else DoConversion(container, finder.usages, m.loop, text)
  }

  /** The Replacements set after `run`: the edits of a conversion are inserted, nothing otherwise. */
  function ApplyOutcome(replace: set<Replacement>, o: Outcome): set<Replacement> {
    if o.Converted? then replace + set e | e in o.edits else replace
  }

  /** When the loop is converted, its edits are one per usage of the container plus the header, and only those. */
  lemma ConvertedEdits(m: MatchResult, mainFile: FileId, text: SourceText)
    requires Run(m, mainFile, text).Converted?
    ensures m.incrementVar.Some?
    ensures var finder := FindUsages(m.loop.body, m.incrementVar.value);
      && |finder.containers| == 1
      && finder.onlyUsedAsIndex
      && ArrayMatchesConditionExpr(finder.containers[0].ty, m.bound)
      && Run(m, mainFile, text).edits ==
           UsageEdits(finder.usages) + [Replacement(ParenRange(m.loop), RangeHeader(text(finder.containers[0].range)))]
  {
  }

  /** A rejected loop leaves the Replacements set untouched, whichever gate failed. */
  lemma {:induction false} RejectedLeavesReplaceUntouched(replace: set<Replacement>, m: MatchResult, mainFile: FileId, text: SourceText, k: nat)
    requires k < |GateOrder| && !Passes(GateOrder[k], m, mainFile)
    ensures ApplyOutcome(replace, Run(m, mainFile, text)) == replace
  {
    assert Run(m, mainFile, text).Rejected?;
  }

  /**
    A conversion grows the Replacements set by exactly |Usages| + 1 when the
    subscript ranges are distinct, differ from the header range, and were not
    already replaced.
   */
  lemma {:induction false} ConversionEditCount(replace: set<Replacement>, container: Expr, usages: seq<Expr>, loop: ForLoop, text: SourceText)
    requires container.range.begin.file == container.range.end.file
    requires forall j, k | 0 <= j < k < |usages| :: usages[j].range != usages[k].range
    requires forall k | 0 <= k < |usages| :: usages[k].range != ParenRange(loop)
    requires forall e | e in replace :: e.range != ParenRange(loop) && forall k | 0 <= k < |usages| :: e.range != usages[k].range
    ensures |ApplyOutcome(replace, DoConversion(container, usages, loop, text))| == |replace| + |usages| + 1
  {
    var edits := DoConversion(container, usages, loop, text).edits;
    forall j, k | 0 <= j < k < |edits| ensures edits[j] != edits[k] {
      if k == |usages| {
        assert edits[j].range == usages[j].range;
      } else {
        assert edits[j].range == usages[j].range && edits[k].range == usages[k].range;
      }
    }
    DistinctCard(edits);
    var added := set e | e in edits;
    assert replace !! added by {
      forall e | e in added ensures e !in replace {
        var k :| 0 <= k < |edits| && edits[k] == e;
        if k < |usages| {
          assert e.range == usages[k].range;
        }
      }
    }
  }

  lemma {:induction false} DistinctCard<T>(s: seq<T>)
    requires forall j, k | 0 <= j < k < |s| :: s[j] != s[k]
    ensures |set e | e in s| == |s|
  {
    if s != [] {
      var rest := s[1..];
      forall j, k | 0 <= j < k < |rest| ensures rest[j] != rest[k] {
        assert rest[j] == s[j + 1] && rest[k] == s[k + 1];
      }
      DistinctCard(rest);
      assert (set e | e in s) == {s[0]} + (set e | e in rest);
      assert s[0] !in (set e | e in rest) by {
        forall k | 0 <= k < |rest| ensures rest[k] != s[0] {
          assert rest[k] == s[k + 1];
        }
      }
    }
  }
}

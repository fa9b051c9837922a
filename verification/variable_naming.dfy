/**
  VariableNamer: picks a name for the element variable of a converted loop,
  trying a fixed chain of candidates until one collides with nothing.
 */
module VariableNaming {
  import opened Optional

  /** The identity of a statement node (a `const Stmt *` in the source). */
  type StmtId = nat

  /**
    Everything declarationExists consults.
    `lookupChain` holds the names declared in LoopContext and then in each of
    its lookup parents, innermost first. `ancestry` is SourceStmt followed by
    its ancestors as the ReverseAST map yields them. `ledger` is
    GeneratedDecls, the names the converter generated for loops. `bodyNames`
    are the names DeclFinderASTVisitor finds in SourceStmt.
   */
  datatype NamingContext = NamingContext(
    lookupChain: seq<set<string>>,
    ancestry: seq<StmtId>,
    ledger: map<StmtId, string>,
    bodyNames: set<string>)

  /** Every name declarationExists reports as taken. */
  function Taken(ctx: NamingContext): set<string> {
    (set k, s | 0 <= k < |ctx.lookupChain| && s in ctx.lookupChain[k] :: s)
    + (set k | 0 <= k < |ctx.ancestry| && ctx.ancestry[k] in ctx.ledger :: ctx.ledger[ctx.ancestry[k]])
    + ctx.bodyNames
  }

  /** The first loop of declarationExists: a lookup in the loop's context or any lookup parent. */
  function FoundInContexts(chain: seq<set<string>>, symbol: string): (r: bool)
    ensures r <==> exists k | 0 <= k < |chain| :: symbol in chain[k]
  {
    if chain == [] then false
    else symbol in chain[0] || FoundInContexts(chain[1..], symbol)
  }

  /** The second loop: the ledger names `symbol` for SourceStmt or one of its ancestors. */
  function GeneratedAbove(ancestry: seq<StmtId>, ledger: map<StmtId, string>, symbol: string): (r: bool)
    ensures r <==> exists k | 0 <= k < |ancestry| :: ancestry[k] in ledger && ledger[ancestry[k]] == symbol
  {
    if ancestry == [] then false
    else (ancestry[0] in ledger && ledger[ancestry[0]] == symbol) || GeneratedAbove(ancestry[1..], ledger, symbol)
  }

  /** declarationExists: the three checks, in the source's order. */
  function DeclarationExists(ctx: NamingContext, symbol: string): (r: bool)
    ensures r <==> symbol in Taken(ctx)
  {
    var inContexts := FoundInContexts(ctx.lookupChain, symbol);
    var generated := GeneratedAbove(ctx.ancestry, ctx.ledger, symbol);
    assert inContexts ==> symbol in Taken(ctx) by {
      if inContexts {
        var k :| 0 <= k < |ctx.lookupChain| && symbol in ctx.lookupChain[k];
      }
    }
    assert generated ==> symbol in Taken(ctx) by {
      if generated {
        var k :| 0 <= k < |ctx.ancestry| && ctx.ancestry[k] in ctx.ledger && ctx.ledger[ctx.ancestry[k]] == symbol;
      }
    }
    inContexts || generated || symbol in ctx.bodyNames
  }

  function Repeat(c: char, k: nat): (r: string)
    ensures |r| == k
    ensures forall i | 0 <= i < k :: r[i] == c
  {
    if k == 0 then [] else [c] + Repeat(c, k - 1)
  }

  /** The name of TheContainer, or the empty string when there is none. */
  function ContainerName(container: Option<string>): string {
    if container.Some? then container.value else ""
  }

  /**
    The j-th name of the chain: the singular-looking container name, then
    Container_OldIndex, Container_elem, Container_elem_elem, and from j = 4 on
    "_elem_" followed by j - 4 letters 'i'.
   */
  function Candidate(containerName: string, oldIndex: string, j: nat): string {
    if j == 0 then
      (if |containerName| > 1 && containerName[|containerName| - 1] == 's'
       then containerName[..|containerName| - 1] else "elem")
    else if j == 1 then containerName + "_" + oldIndex
    else if j == 2 then containerName + "_elem"
    else if j == 3 then containerName + "_elem" + "_elem"
    else "_elem_" + Repeat('i', j - 4)
  }

  /** The names at least `n` characters long that are taken. */
  function TakenAtLeast(ctx: NamingContext, n: nat): set<string> {
    set t | t in Taken(ctx) && |t| >= n
  }

  /**
    The loop `while (declarationExists(IteratorName)) IteratorName += "i"`.
    The taken names are finitely many, so some length is free of them.
   */
  function AppendUntilFree(ctx: NamingContext, name: string): (r: string)
    ensures !DeclarationExists(ctx, r)
    ensures exists k: nat :: r == name + Repeat('i', k)
                            && forall j | 0 <= j < k :: DeclarationExists(ctx, name + Repeat('i', j))
    decreases |TakenAtLeast(ctx, |name|)|
  {
    if !DeclarationExists(ctx, name) then
      assert name == name + Repeat('i', 0);
      name
    else
      var longer := name + "i";
      assert name in TakenAtLeast(ctx, |name|) && name !in TakenAtLeast(ctx, |longer|);
      ProperSubsetSmaller(TakenAtLeast(ctx, |longer|), TakenAtLeast(ctx, |name|));
      var r := AppendUntilFree(ctx, longer);
      var k: nat :| r == longer + Repeat('i', k)
                    && forall j | 0 <= j < k :: DeclarationExists(ctx, longer + Repeat('i', j));
      assert r == name + Repeat('i', k + 1) by {
        assert Repeat('i', k + 1) == "i" + Repeat('i', k);
      }
      forall j | 0 <= j < k + 1 ensures DeclarationExists(ctx, name + Repeat('i', j)) {
        if j == 0 {
          assert name + Repeat('i', 0) == name;
        } else {
          assert Repeat('i', j) == "i" + Repeat('i', j - 1);
          assert name + Repeat('i', j) == longer + Repeat('i', j - 1);
        }
      }
      r
  }

  lemma ProperSubsetSmaller<T>(a: set<T>, b: set<T>)
    requires a < b
    ensures |a| < |b|
  {
    var x :| x in b && x !in a;
    assert b == a + (b - a) && a !! (b - a);
    assert x in b - a;
  }

  /** `name` is the j-th candidate, it is free, and every earlier candidate is taken. */
  predicate FirstFree(ctx: NamingContext, containerName: string, oldIndex: string, j: nat, name: string) {
    && name == Candidate(containerName, oldIndex, j)
    && !DeclarationExists(ctx, name)
    && forall i | 0 <= i < j :: DeclarationExists(ctx, Candidate(containerName, oldIndex, i))
  }

  /** createIndexName: the first candidate of the chain that declarationExists rejects. */
  function CreateIndexName(ctx: NamingContext, container: Option<string>, oldIndex: string): (r: string)
    ensures !DeclarationExists(ctx, r)
    ensures exists j: nat :: FirstFree(ctx, ContainerName(container), oldIndex, j, r)
  {
    var c := ContainerName(container);
    if !DeclarationExists(ctx, Candidate(c, oldIndex, 0)) then
      assert FirstFree(ctx, c, oldIndex, 0, Candidate(c, oldIndex, 0));
      Candidate(c, oldIndex, 0)
    else if !DeclarationExists(ctx, Candidate(c, oldIndex, 1)) then
      assert FirstFree(ctx, c, oldIndex, 1, Candidate(c, oldIndex, 1));
      Candidate(c, oldIndex, 1)
    else if !DeclarationExists(ctx, Candidate(c, oldIndex, 2)) then
      assert FirstFree(ctx, c, oldIndex, 2, Candidate(c, oldIndex, 2));
      Candidate(c, oldIndex, 2)
    else if !DeclarationExists(ctx, Candidate(c, oldIndex, 3)) then
      assert FirstFree(ctx, c, oldIndex, 3, Candidate(c, oldIndex, 3));
      Candidate(c, oldIndex, 3)
    else
      var r := AppendUntilFree(ctx, "_elem_");
      var k: nat :| r == "_elem_" + Repeat('i', k)
                    && forall j | 0 <= j < k :: DeclarationExists(ctx, "_elem_" + Repeat('i', j));
      assert r == Candidate(c, oldIndex, k + 4);
      forall i | 0 <= i < k + 4 ensures DeclarationExists(ctx, Candidate(c, oldIndex, i)) {
        if i >= 4 {
          assert Candidate(c, oldIndex, i) == "_elem_" + Repeat('i', i - 4);
        }
      }
      assert FirstFree(ctx, c, oldIndex, k + 4, r);
      r
  }

  /** The position of the first free candidate is unique. */
  lemma {:induction false} FirstFreeUnique(ctx: NamingContext, containerName: string, oldIndex: string,
                                           j1: nat, n1: string, j2: nat, n2: string)
    requires FirstFree(ctx, containerName, oldIndex, j1, n1)
    requires FirstFree(ctx, containerName, oldIndex, j2, n2)
    ensures j1 == j2 && n1 == n2
  {
  }

  /**
    The name depends on nothing but the container's name, the old index's
    name and which names are taken: two contexts that take the same names
    yield the same name, however their scopes, ledgers and bodies differ.
   */
  lemma {:induction false} NameDependsOnlyOnTaken(ctx1: NamingContext, ctx2: NamingContext,
                                                  container: Option<string>, oldIndex: string)
    requires Taken(ctx1) == Taken(ctx2)
    ensures CreateIndexName(ctx1, container, oldIndex) == CreateIndexName(ctx2, container, oldIndex)
  {
    var c := ContainerName(container);
    var n1 := CreateIndexName(ctx1, container, oldIndex);
    var n2 := CreateIndexName(ctx2, container, oldIndex);
    var j1: nat :| FirstFree(ctx1, c, oldIndex, j1, n1);
    var j2: nat :| FirstFree(ctx2, c, oldIndex, j2, n2);
    forall i | 0 <= i < j1 ensures DeclarationExists(ctx2, Candidate(c, oldIndex, i)) {
      assert DeclarationExists(ctx1, Candidate(c, oldIndex, i));
    }
    assert FirstFree(ctx2, c, oldIndex, j1, n1);
    FirstFreeUnique(ctx2, c, oldIndex, j1, n1, j2, n2);
  }

  /** The chain is exhausted only past its four fixed names: from then on the result is "_elem_" and k letters 'i'. */
  lemma {:induction false} FallbackShape(ctx: NamingContext, container: Option<string>, oldIndex: string)
    requires forall j | 0 <= j < 4 :: DeclarationExists(ctx, Candidate(ContainerName(container), oldIndex, j))
    ensures exists k: nat :: CreateIndexName(ctx, container, oldIndex) == "_elem_" + Repeat('i', k)
                            && forall i | 0 <= i < k :: ("_elem_" + Repeat('i', i)) in Taken(ctx)
  {
    var c := ContainerName(container);
    var r := CreateIndexName(ctx, container, oldIndex);
    var j: nat :| FirstFree(ctx, c, oldIndex, j, r);
    if j < 4 {
      assert false;
    }
    forall i | 0 <= i < j - 4 ensures ("_elem_" + Repeat('i', i)) in Taken(ctx) {
      assert Candidate(c, oldIndex, i + 4) == "_elem_" + Repeat('i', i);
      assert DeclarationExists(ctx, Candidate(c, oldIndex, i + 4));
    }
    assert r == "_elem_" + Repeat('i', j - 4);
  }

  /** A lone "s" is not treated as a plural: the first candidate is "elem". */
  lemma SingleLetterS()
    ensures Candidate("s", "i", 0) == "elem"
  {
  }

  /** Without a container the chain starts "elem", "_i", "_elem". */
  lemma NoContainerChain(ctx: NamingContext)
    requires "elem" in Taken(ctx) && "_i" !in Taken(ctx)
    ensures CreateIndexName(ctx, None, "i") == "_i"
  {
    assert Candidate("", "i", 0) == "elem";
    assert Candidate("", "i", 1) == "_i";
  }

  /**
    Nested loops: the outer loop (statement 1) has generated "elem"; the inner
    loop (statement 2) over `elems` with index `i` finds its first candidate
    "elem" in the ledger and falls through to "elems_i".
   */
  lemma NestedLoopSkipsGeneratedName()
    ensures CreateIndexName(NamingContext([{"sum"}, {"elems"}], [2, 1], map[1 := "elem"], {"i"}), Some("elems"), "i")
            == "elems_i"
  {
    var ctx := NamingContext([{"sum"}, {"elems"}], [2, 1], map[1 := "elem"], {"i"});
    assert Candidate("elems", "i", 0) == "elem";
    assert GeneratedAbove(ctx.ancestry, ctx.ledger, "elem");
    assert Candidate("elems", "i", 1) == "elems_i";
    assert !FoundInContexts(ctx.lookupChain, "elems_i") by {
      assert "elems_i" != "sum" && "elems_i" != "elems";
    }
    assert !GeneratedAbove(ctx.ancestry, ctx.ledger, "elems_i") by {
      assert "elems_i" != "elem";
    }
  }
}

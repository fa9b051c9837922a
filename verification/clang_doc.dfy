/**
  The bookkeeping of Clang_Doc: the include paths taken from the compiler
  arguments, the table of definitions with external linkage that the
  generated pages link to, and the lines of the tag file written so that
  other runs can link against this one.
 */
module ClangDoc {
  import opened Optional
  import opened DocUtils

  // ---------------------------------------------------------------- parse_include_directives

  /**
    An argument that starts with "-I". Arguments are NUL-terminated C
    strings holding no NUL, so a read one past the end meets the terminator
    and never matches a letter.
   */
  predicate StartsWithInclude(p: string) {
    |p| >= 2 && p[0] == '-' && p[1] == 'I'
  }

  /** An argument spelled exactly "-I": its path is the next argument. */
  predicate IsBareInclude(p: string) {
    StartsWithInclude(p) && |p| == 2
  }

  /** The include paths the arguments name, in argument order: a reference definition. */
  function IncludesOf(args: seq<string>): (r: seq<string>)
    ensures |r| <= |args|
    decreases |args|
  {
    if args == [] then []
    else if IsBareInclude(args[0]) then
      if |args| == 1 then [] else [args[1]] + IncludesOf(args[2..])
    else if StartsWithInclude(args[0]) then [args[0][2..]] + IncludesOf(args[1..])
    else IncludesOf(args[1..])
  }

  /**
    parse_include_directives: one pass over argv with the flags `getnext`
    (the previous argument was a bare "-I") and `found` (this argument
    contributes), and `index`, where in the argument the path starts.
   */
  method ParseIncludeDirectives(args: seq<string>) returns (includes: seq<string>)
    ensures includes == IncludesOf(args)
  {
    var getnext := false;
    var found := false;
    var index := 0;
    includes := [];
    var i := 0;
    while i < |args|
      invariant 0 <= i <= |args|
      invariant !found
      invariant getnext ==> 0 < i && IsBareInclude(args[i - 1]) && index == 0
      invariant getnext ==> includes + IncludesOf(args[i - 1..]) == IncludesOf(args)
      invariant !getnext ==> includes + IncludesOf(args[i..]) == IncludesOf(args)
    {
      var p := args[i];
      if getnext {
        assert args[i - 1..][2..] == args[i + 1..];
        assert IncludesOf(args[i - 1..]) == [p] + IncludesOf(args[i + 1..]);
        found := true;
        getnext := false;
      } else if StartsWithInclude(p) {
        if |p| == 2 {
          index := 0;
          getnext := true;
          i := i + 1;
          continue;
        }
        assert args[i..][1..] == args[i + 1..];
        assert IncludesOf(args[i..]) == [p[2..]] + IncludesOf(args[i + 1..]);
        index := 2;
        found := true;
      } else {
        assert args[i..][1..] == args[i + 1..];
        assert IncludesOf(args[i..]) == IncludesOf(args[i + 1..]);
      }
      if found {
        found := false;
        includes := includes + [p[index..]];
      }
      i := i + 1;
    }
    if getnext {
      assert args[i - 1..] == [args[i - 1]];
    }
  }

  /** Every index moved up by `d`. */
  function Shift(s: seq<nat>, d: nat): (r: seq<nat>)
    ensures |r| == |s|
    ensures forall k | 0 <= k < |s| :: r[k] == s[k] + d
  {
    seq(|s|, k requires 0 <= k < |s| => s[k] + d)
  }

  /**
    Where each include path comes from: the index of its argument. The
    indices increase, so the paths keep argv order.
   */
  function IncludeSources(args: seq<string>): (src: seq<nat>)
    ensures |src| == |IncludesOf(args)|
    ensures forall k | 0 <= k < |src| :: src[k] < |args|
    ensures forall j, k | 0 <= j < k < |src| :: src[j] < src[k]
    decreases |args|
  {
    if args == [] then []
    else if IsBareInclude(args[0]) then
      if |args| == 1 then [] else [1] + Shift(IncludeSources(args[2..]), 2)
    else if StartsWithInclude(args[0]) then [0] + Shift(IncludeSources(args[1..]), 1)
    else Shift(IncludeSources(args[1..]), 1)
  }

  /**
    A path is either a whole argument following a bare "-I", whatever that
    argument looks like, or the rest of an argument "-I<path>" past its
    first two characters.
   */
  predicate TakenFrom(args: seq<string>, path: string, j: nat)
    requires j < |args|
  {
    || (0 < j && IsBareInclude(args[j - 1]) && path == args[j])
    || (StartsWithInclude(args[j]) && !IsBareInclude(args[j]) && path == args[j][2..])
  }

  lemma {:induction false} TakenFromShift(args: seq<string>, d: nat, path: string, j: nat)
    requires d <= |args| && j < |args| - d
    requires TakenFrom(args[d..], path, j)
    ensures TakenFrom(args, path, j + d)
  {
    assert args[d..][j] == args[j + d];
    if 0 < j {
      assert args[d..][j - 1] == args[j + d - 1];
    }
  }

  /** Each include path is taken from the argument IncludeSources names, in the way TakenFrom allows. */
  lemma {:induction false} IncludesFollowArguments(args: seq<string>)
    ensures forall k | 0 <= k < |IncludesOf(args)| :: TakenFrom(args, IncludesOf(args)[k], IncludeSources(args)[k])
    decreases |args|
  {
    var r, src := IncludesOf(args), IncludeSources(args);
    if args == [] {
    } else if IsBareInclude(args[0]) {
      if |args| > 1 {
        var rest := args[2..];
        IncludesFollowArguments(rest);
        forall k | 0 <= k < |r| ensures TakenFrom(args, r[k], src[k]) {
          if k > 0 {
            TakenFromShift(args, 2, r[k], IncludeSources(rest)[k - 1]);
          }
        }
      }
    } else {
      var rest := args[1..];
      IncludesFollowArguments(rest);
      var first := if StartsWithInclude(args[0]) then 1 else 0;
      forall k | 0 <= k < |r| ensures TakenFrom(args, r[k], src[k]) {
        if k >= first {
          TakenFromShift(args, 1, r[k], IncludeSources(rest)[k - first]);
        }
      }
    }
  }

  /** A trailing bare "-I" names nothing, and a bare "-I" takes the next argument whole even when it is an option. */
  lemma IncludesExample()
    ensures IncludesOf(["-Ia", "x.cpp", "-I"]) == ["a"]
    ensures IncludesOf(["-I", "-DX"]) == ["-DX"]
  {
    var args := ["-Ia", "x.cpp", "-I"];
    assert args[1..] == ["x.cpp", "-I"] && args[1..][1..] == ["-I"];
    assert IncludesOf(["-I"]) == [];
    assert IncludesOf(["x.cpp", "-I"]) == [];
    assert "-Ia"[2..] == "a";
    assert ["-I", "-DX"][2..] == [];
  }

  // ---------------------------------------------------------------- the visitor's USR test

  /** std::string::substr(pos, n): at most n characters from pos. */
  function Substr(s: string, pos: nat, n: nat): (r: string)
    requires pos <= |s|
    ensures |r| <= n && pos + |r| <= |s| && r == s[pos..pos + |r|]
    ensures pos + n <= |s| ==> |r| == n
  {
    if pos + n <= |s| then s[pos..pos + n] else s[pos..]
  }

  /**
    The test the visitor applies to a definition's USR: external linkage
    shows as '@' right after the two-character lead "c:", and "@aN" there
    marks an anonymous namespace instead. On a two-character USR, susr[2]
    is the terminating NUL.
   */
  function IsExternalUsr(usr: string): (r: bool)
    ensures |usr| >= 2 ==> (r <==> |usr| >= 3 && usr[2] == '@' && !(|usr| >= 5 && usr[2..5] == "@aN"))
    ensures |usr| < 2 ==> !r
  {
    if |usr| < 2 then false
    else
      var third := if |usr| == 2 then '\0' else usr[2];
      third == '@' && Substr(usr, 2, 3) != "@aN"
  }

  lemma UsrExamples()
    ensures IsExternalUsr("c:@F@main")
    ensures !IsExternalUsr("c:@aN@x")
    ensures !IsExternalUsr("c:a.c@F@x")
    ensures IsExternalUsr("c:@a")
  {
    assert "c:@F@main"[2..5] == "@F@";
    assert "c:@aN@x"[2..5] == "@aN";
  }

  // ---------------------------------------------------------------- the definition map

  /** A definition the generated pages can link to. */
  datatype Definition = Definition(
    key: string,
    file: string,
    htmlPath: string,
    line: nat,
    column: nat,
    offset: nat,
    fromTagFile: bool)

  /** std::string's operator<: lexicographic, character by character. */
  predicate Less(a: string, b: string)
    decreases |a|
  {
    if a == [] then b != []
    else b != [] && (a[0] < b[0] || (a[0] == b[0] && Less(a[1..], b[1..])))
  }

  lemma {:induction false} LessIrreflexive(a: string)
    ensures !Less(a, a)
  {
    if a != [] {
      LessIrreflexive(a[1..]);
    }
  }

  lemma {:induction false} LessTransitive(a: string, b: string, c: string)
    requires Less(a, b) && Less(b, c)
    ensures Less(a, c)
    decreases |a|
  {
    if a != [] && a[0] == b[0] && b[0] == c[0] {
      LessTransitive(a[1..], b[1..], c[1..]);
    }
  }

  lemma {:induction false} LessTotal(a: string, b: string)
    ensures a == b || Less(a, b) || Less(b, a)
    decreases |a|
  {
    if a != [] && b != [] && a[0] == b[0] {
      LessTotal(a[1..], b[1..]);
      if a[1..] == b[1..] {
        assert a == [a[0]] + a[1..] && b == [b[0]] + b[1..];
      }
    }
  }

  /** std::map<std::string, Definition>, as its entries in iteration order. */
  type DefMap = seq<Definition>

  /** The map's keys are strictly increasing, hence distinct. */
  predicate Sorted(m: DefMap) {
    forall i, j | 0 <= i < j < |m| :: Less(m[i].key, m[j].key)
  }

  function Keys(m: DefMap): set<string> {
    set e | e in m :: e.key
  }

  /** std::map::find. */
  function Get(m: DefMap, key: string): (r: Option<Definition>)
    ensures r.Some? ==> r.value in m && r.value.key == key
    ensures r.None? <==> key !in Keys(m)
  {
    if m == [] then None
    else if m[0].key == key then Some(m[0])
    else
      var rest := Get(m[1..], key);
      assert Keys(m) == {m[0].key} + Keys(m[1..]);
      rest
  }

  /** In a sorted map an entry is the one its key finds. */
  lemma {:induction false} GetSorted(m: DefMap, e: Definition)
    requires Sorted(m) && e in m
    ensures Get(m, e.key) == Some(e)
  {
    if m[0] != e {
      assert e in m[1..];
      var j :| 0 <= j < |m[1..]| && m[1..][j] == e;
      assert Less(m[0].key, e.key) by { assert m[j + 1] == e; }
      LessIrreflexive(e.key);
      GetSorted(m[1..], e);
    }
  }

  lemma {:induction false} BelowAll(m: DefMap, k: string)
    requires Sorted(m) && m != [] && Less(k, m[0].key)
    ensures forall e | e in m :: Less(k, e.key)
  {
    forall e | e in m ensures Less(k, e.key) {
      var j :| 0 <= j < |m| && m[j] == e;
      if j > 0 {
        LessTransitive(k, m[0].key, e.key);
      }
    }
  }

  lemma {:induction false} ConsSorted(x: Definition, rest: DefMap)
    requires Sorted(rest)
    requires forall e | e in rest :: Less(x.key, e.key)
    ensures Sorted([x] + rest)
  {
    var m := [x] + rest;
    forall i, j | 0 <= i < j < |m| ensures Less(m[i].key, m[j].key) {
      if i == 0 {
        assert m[j] == rest[j - 1];
      } else {
        assert m[i] == rest[i - 1] && m[j] == rest[j - 1];
      }
    }
  }

  lemma SortedTail(m: DefMap)
    requires Sorted(m) && m != []
    ensures Sorted(m[1..])
  {
    forall i, j | 0 <= i < j < |m[1..]| ensures Less(m[1..][i].key, m[1..][j].key) {
      assert m[1..][i] == m[i + 1] && m[1..][j] == m[j + 1];
    }
  }

  /**
    std::map::insert: a new key gets its entry in key order; an existing
    key keeps the entry it has and the offered one is dropped.
   */
  function Insert(m: DefMap, d: Definition): (r: DefMap)
    requires Sorted(m)
    ensures Sorted(r)
    ensures forall e :: e in r <==> e in m || (e == d && d.key !in Keys(m))
  {
    if m == [] then [d]
    else if m[0].key == d.key then m
    else if Less(d.key, m[0].key) then
      BelowAll(m, d.key);
      LessIrreflexive(d.key);
      ConsSorted(d, m);
      [d] + m
    else
      SortedTail(m);
      var rest := Insert(m[1..], d);
      LessTotal(d.key, m[0].key);
      assert forall e | e in m[1..] :: Less(m[0].key, e.key) by {
        forall e | e in m[1..] ensures Less(m[0].key, e.key) {
          var j :| 0 <= j < |m[1..]| && m[1..][j] == e;
          assert m[j + 1] == e;
        }
      }
      ConsSorted(m[0], rest);
      assert m == [m[0]] + m[1..];
      assert Keys(m) == {m[0].key} + Keys(m[1..]);
      [m[0]] + rest
  }

  /** What a lookup finds after an insertion: the old entry if there was one, otherwise the inserted one. */
  lemma {:induction false} GetInsert(m: DefMap, d: Definition, k: string)
    requires Sorted(m)
    ensures Get(Insert(m, d), k) == if k == d.key && Get(m, k).None? then Some(d) else Get(m, k)
  {
    var r := Insert(m, d);
    var before := Get(m, k);
    if before.Some? {
      GetSorted(r, before.value);
    } else if k == d.key {
      GetSorted(r, d);
    } else {
      assert k !in Keys(r);
    }
  }

  /** Entries offered one after the other. */
  function InsertAll(m: DefMap, ds: seq<Definition>): (r: DefMap)
    requires Sorted(m)
    ensures Sorted(r)
    decreases |ds|
  {
    if ds == [] then m else InsertAll(Insert(m, ds[0]), ds[1..])
  }

  /** The first of `ds` with key `k`. */
  function FirstWithKey(ds: seq<Definition>, k: string): (r: Option<Definition>)
    ensures r.Some? ==> r.value in ds && r.value.key == k
    ensures r.None? <==> forall i | 0 <= i < |ds| :: ds[i].key != k
  {
    if ds == [] then None
    else if ds[0].key == k then Some(ds[0])
    else FirstWithKey(ds[1..], k)
  }

  lemma {:induction false} FirstWithKeyAppend(a: seq<Definition>, b: seq<Definition>, k: string)
    ensures FirstWithKey(a + b, k) == if FirstWithKey(a, k).Some? then FirstWithKey(a, k) else FirstWithKey(b, k)
  {
    if a != [] {
      assert (a + b)[0] == a[0] && (a + b)[1..] == a[1..] + b;
      FirstWithKeyAppend(a[1..], b, k);
    } else {
      assert a + b == b;
    }
  }

  /** Insertion never overwrites: for every key the entry already there, or else the first one offered, wins. */
  lemma {:induction false} FirstInsertWins(m: DefMap, ds: seq<Definition>, k: string)
    requires Sorted(m)
    ensures Get(InsertAll(m, ds), k) == if Get(m, k).Some? then Get(m, k) else FirstWithKey(ds, k)
    decreases |ds|
  {
    if ds != [] {
      GetInsert(m, ds[0], k);
      FirstInsertWins(Insert(m, ds[0]), ds[1..], k);
    }
  }

  // ---------------------------------------------------------------- the visitor

  /** What the visitor learns about a cursor through libclang. */
  datatype Cursor = Cursor(
    file: nat,
    line: nat,
    column: nat,
    offset: nat,
    isDeclaration: bool,
    isDefinition: bool,
    usr: string,
    scope: ScopeCursor,
    children: seq<Cursor>)

  /** The definition the visitor records for one cursor of `filename`, if any. */
  function Recorded(c: Cursor, filename: string): (r: Option<Definition>)
    ensures r.Some? <==> c.isDeclaration && c.isDefinition && IsExternalUsr(c.usr)
    ensures r.Some? ==> && r.value.key == FullyScopedName(c.scope)
                        && r.value.file == filename
                        && (r.value.line, r.value.column, r.value.offset) == (c.line, c.column, c.offset)
                        && !r.value.fromTagFile
  {
    if c.isDeclaration && c.isDefinition && IsExternalUsr(c.usr) then
      Some(Definition(FullyScopedName(c.scope), filename, "", c.line, c.column, c.offset, false))
    else None
  }

  /** The scanned file's own definitions: none from the scan carries a space in its key or claims to come from a tag file. */
  predicate FromScan(ds: seq<Definition>, filename: string) {
    forall k | 0 <= k < |ds| :: ' ' !in ds[k].key && ds[k].file == filename && ds[k].htmlPath == "" && !ds[k].fromTagFile
  }

  /**
    clang_visitChildren with the visitor: a cursor outside the scanned file
    is passed over together with everything below it
    (CXChildVisit_Continue); any other is examined and then its children are
    visited (CXChildVisit_Recurse). The result is the definitions offered to
    the map, in the order they are offered.
   */
  function Visit(c: Cursor, file: nat, filename: string): (r: seq<Definition>)
    ensures c.file != file ==> r == []
    ensures FromScan(r, filename)
    decreases c, 1
  {
    if c.file != file then []
    else
      var own := Recorded(c, filename);
      (if own.Some? then [own.value] else []) + VisitSeq(c.children, c, file, filename)
  }

  function VisitSeq(cs: seq<Cursor>, ghost parent: Cursor, file: nat, filename: string): (r: seq<Definition>)
    requires forall i | 0 <= i < |cs| :: cs[i] < parent
    ensures FromScan(r, filename)
    decreases parent, 0, |cs|
  {
    if cs == [] then [] else Visit(cs[0], file, filename) + VisitSeq(cs[1..], parent, file, filename)
  }

  /**
    The cursors the visitor examines, in the order it meets them: `c` and
    then, child by child, everything below it; a cursor of another file
    hides itself and its whole subtree.
   */
  function InFile(c: Cursor, file: nat): (r: seq<Cursor>)
    ensures c.file != file ==> r == []
    ensures c.file == file ==> |r| >= 1 && r[0] == c
    decreases c, 1
  {
    if c.file != file then [] else [c] + InFileSeq(c.children, c, file)
  }

  function InFileSeq(cs: seq<Cursor>, ghost parent: Cursor, file: nat): seq<Cursor>
    requires forall i | 0 <= i < |cs| :: cs[i] < parent
    decreases parent, 0, |cs|
  {
    if cs == [] then [] else InFile(cs[0], file) + InFileSeq(cs[1..], parent, file)
  }

  /** The definitions a run of cursors yields, in order: each cursor's recorded definition, when it has one. */
  function Collect(ns: seq<Cursor>, filename: string): (r: seq<Definition>)
    ensures |r| <= |ns|
  {
    if ns == [] then []
    else
      var own := Recorded(ns[0], filename);
      (if own.Some? then [own.value] else []) + Collect(ns[1..], filename)
  }

  lemma {:induction false} CollectAppend(a: seq<Cursor>, b: seq<Cursor>, filename: string)
    ensures Collect(a + b, filename) == Collect(a, filename) + Collect(b, filename)
    decreases |a|
  {
    if a == [] {
      assert a + b == b;
    } else {
      assert (a + b)[0] == a[0] && (a + b)[1..] == a[1..] + b;
      CollectAppend(a[1..], b, filename);
    }
  }

  /** A definition is collected exactly when some cursor of the run records it. */
  lemma {:induction false} CollectMembers(ns: seq<Cursor>, filename: string, d: Definition)
    ensures d in Collect(ns, filename) <==> exists n | n in ns :: Recorded(n, filename) == Some(d)
    decreases |ns|
  {
    if ns != [] {
      CollectMembers(ns[1..], filename, d);
      assert forall n | n in ns :: n == ns[0] || n in ns[1..];
      assert forall n | n in ns[1..] :: n in ns;
    }
  }

  /** The visitor offers the recorded definitions of the cursors it examines, in pre-order, and nothing else. */
  lemma {:induction false} VisitIsCollect(c: Cursor, file: nat, filename: string)
    ensures Visit(c, file, filename) == Collect(InFile(c, file), filename)
    decreases c, 1
  {
    if c.file == file {
      VisitSeqIsCollect(c.children, c, file, filename);
      CollectAppend([c], InFileSeq(c.children, c, file), filename);
      assert [c][1..] == [];
    }
  }

  lemma {:induction false} VisitSeqIsCollect(cs: seq<Cursor>, parent: Cursor, file: nat, filename: string)
    requires forall i | 0 <= i < |cs| :: cs[i] < parent
    ensures VisitSeq(cs, parent, file, filename) == Collect(InFileSeq(cs, parent, file), filename)
    decreases parent, 0, |cs|
  {
    if cs != [] {
      VisitIsCollect(cs[0], file, filename);
      VisitSeqIsCollect(cs[1..], parent, file, filename);
      CollectAppend(InFile(cs[0], file), InFileSeq(cs[1..], parent, file), filename);
    }
  }

  /** Every cursor of the file below the root that passes the tests is offered, and only those are. */
  lemma VisitOffersExactly(c: Cursor, file: nat, filename: string, d: Definition)
    ensures d in Visit(c, file, filename) <==> exists n | n in InFile(c, file) :: Recorded(n, filename) == Some(d)
  {
    VisitIsCollect(c, file, filename);
    CollectMembers(InFile(c, file), filename, d);
  }

  /** A definition of the scanned file is offered to the map exactly when its own tests pass. */
  lemma VisitRecordsDefinition(c: Cursor, file: nat, filename: string)
    requires c.file == file
    ensures var r := Visit(c, file, filename);
      && (c.isDeclaration && c.isDefinition && IsExternalUsr(c.usr) ==>
            r[0] == Definition(FullyScopedName(c.scope), filename, "", c.line, c.column, c.offset, false))
      && (!(c.isDeclaration && c.isDefinition && IsExternalUsr(c.usr)) ==>
            r == VisitSeq(c.children, c, file, filename))
  {
  }

  // ---------------------------------------------------------------- generate_symbol_table

  /** One record of a tag file, read with "%s %s %u". */
  datatype TagRecord = TagRecord(symbol: string, file: string, line: nat)

  /** A tag file that opened: the directory part of its path, and its records in file order. */
  datatype TagFile = TagFile(dir: string, records: seq<TagRecord>)

  /** A source file of the run, with the cursor of its translation unit when it parsed. */
  datatype Source = Source(name: string, fileId: nat, tu: Option<Cursor>)

  /** add_symbols: every record of every tag file, in order, as a definition from a tag file. */
  function TagDefinitions(tags: seq<TagFile>): (r: seq<Definition>)
    ensures forall k | 0 <= k < |r| :: r[k].fromTagFile
    ensures forall d :: d in r <==> exists t | t in tags :: d in RecordDefinitions(t)
  {
    if tags == [] then []
    else
      var first := RecordDefinitions(tags[0]);
      var rest := TagDefinitions(tags[1..]);
      assert forall t | t in tags :: t == tags[0] || t in tags[1..];
      assert forall t | t in tags[1..] :: t in tags;
      first + rest
  }

  function RecordDefinitions(t: TagFile): (r: seq<Definition>)
    ensures |r| == |t.records|
    ensures forall k | 0 <= k < |r| ::
              r[k] == Definition(t.records[k].symbol, t.records[k].file, t.dir, t.records[k].line, 0, 0, true)
  {
    seq(|t.records|, k requires 0 <= k < |t.records| =>
      Definition(t.records[k].symbol, t.records[k].file, t.dir, t.records[k].line, 0, 0, true))
  }

  /** The scan of the sources, in order; a file that failed to parse adds nothing. */
  function SourceDefinitions(sources: seq<Source>): (r: seq<Definition>)
    ensures forall k | 0 <= k < |r| :: !r[k].fromTagFile && ' ' !in r[k].key
  {
    if sources == [] then []
    else
      var s := sources[0];
      var own := if s.tu.Some? then VisitSeq(s.tu.value.children, s.tu.value, s.fileId, s.name) else [];
      own + SourceDefinitions(sources[1..])
  }

  /** A definition found in a parsed source, at or below any of its translation unit's top-level cursors, is offered to the map. */
  lemma {:induction false} SourceDefinitionsOffer(sources: seq<Source>, i: nat, n: Cursor, d: Definition)
    requires i < |sources| && sources[i].tu.Some?
    requires n in InFileSeq(sources[i].tu.value.children, sources[i].tu.value, sources[i].fileId)
    requires Recorded(n, sources[i].name) == Some(d)
    ensures d in SourceDefinitions(sources)
    decreases i
  {
    var s := sources[0];
    if i == 0 {
      VisitSeqIsCollect(s.tu.value.children, s.tu.value, s.fileId, s.name);
      CollectMembers(InFileSeq(s.tu.value.children, s.tu.value, s.fileId), s.name, d);
    } else {
      assert sources[1..][i - 1] == sources[i];
      SourceDefinitionsOffer(sources[1..], i - 1, n, d);
    }
  }

  /** generate_symbol_table: the tag files' symbols first, then the definitions found in the sources. */
  function SymbolTable(tags: seq<TagFile>, sources: seq<Source>): (r: DefMap)
    ensures Sorted(r)
  {
    InsertAll(InsertAll([], TagDefinitions(tags)), SourceDefinitions(sources))
  }

  /**
    A key gets the first definition offered for it, and the tag files'
    records are offered before any source is scanned: a symbol a tag file
    names keeps its tag-file entry even when a source defines it too.
   */
  lemma {:induction false} TagFilesTakePrecedence(tags: seq<TagFile>, sources: seq<Source>, k: string)
    ensures Get(SymbolTable(tags, sources), k) == FirstWithKey(TagDefinitions(tags) + SourceDefinitions(sources), k)
    ensures FirstWithKey(TagDefinitions(tags), k).Some? ==>
              Get(SymbolTable(tags, sources), k) == FirstWithKey(TagDefinitions(tags), k)
  {
    var fromTags := InsertAll([], TagDefinitions(tags));
    FirstInsertWins([], TagDefinitions(tags), k);
    FirstInsertWins(fromTags, SourceDefinitions(sources), k);
    FirstWithKeyAppend(TagDefinitions(tags), SourceDefinitions(sources), k);
  }
  /**
    Every external definition a parsed source makes gets an entry in the
    table; when no tag file names the symbol, the entry is one the sources
    found.
   */
  lemma SourceSymbolEntered(tags: seq<TagFile>, sources: seq<Source>, i: nat, n: Cursor, d: Definition)
    requires i < |sources| && sources[i].tu.Some?
    requires n in InFileSeq(sources[i].tu.value.children, sources[i].tu.value, sources[i].fileId)
    requires Recorded(n, sources[i].name) == Some(d)
    ensures Get(SymbolTable(tags, sources), d.key).Some?
    ensures FirstWithKey(TagDefinitions(tags), d.key).None? ==> !Get(SymbolTable(tags, sources), d.key).value.fromTagFile
  {
    var fromTags := TagDefinitions(tags);
    var fromSources := SourceDefinitions(sources);
    SourceDefinitionsOffer(sources, i, n, d);
    TagFilesTakePrecedence(tags, sources, d.key);
    FirstWithKeyAppend(fromTags, fromSources, d.key);
    var k :| 0 <= k < |fromSources| && fromSources[k] == d;
    assert (fromTags + fromSources)[|fromTags| + k] == d;
  }


  // ---------------------------------------------------------------- generate_tag_file

  function DigitChar(d: nat): char
    requires d < 10
  {
    "0123456789"[d]
  }

  /** "%u": the decimal digits of n, without leading zeros. */
  function NatToString(n: nat): (r: string)
    ensures |r| >= 1
    ensures forall i | 0 <= i < |r| :: '0' <= r[i] <= '9'
    decreases n
  {
    if n < 10 then [DigitChar(n)] else NatToString(n / 10) + [DigitChar(n % 10)]
  }

  /** The value of a string of decimal digits. */
  function ParseDigits(s: string): nat
    requires forall i | 0 <= i < |s| :: '0' <= s[i] <= '9'
    decreases |s|
  {
    if s == [] then 0 else 10 * ParseDigits(s[..|s| - 1]) + (s[|s| - 1] as int - '0' as int)
  }

  lemma {:induction false} ParseNatToString(n: nat)
    ensures ParseDigits(NatToString(n)) == n
    decreases n
  {
    if n >= 10 {
      ParseNatToString(n / 10);
      var s := NatToString(n);
      assert s[..|s| - 1] == NatToString(n / 10);
    }
  }

  /** One line as fprintf writes it with "%s %s %u\n". */
  function TagLine(symbol: string, file: string, line: nat): (r: string)
    ensures |r| == |symbol| + |file| + |NatToString(line)| + 3
  {
    symbol + " " + file + " " + NatToString(line) + "\n"
  }

  /** The text before the first space and the text after it; None without a space. */
  function SplitAtSpace(s: string): (r: Option<(string, string)>)
    ensures r.None? <==> ' ' !in s
    ensures r.Some? ==> ' ' !in r.value.0 && s == r.value.0 + " " + r.value.1
  {
    match FindFirstOf(s, ' ', 0)
    case None => None
    case Some(p) =>
      assert s == s[..p] + " " + s[p + 1..];
      Some((s[..p], s[p + 1..]))
  }

  lemma SplitAtSpaceConcat(x: string, y: string)
    requires ' ' !in x
    ensures SplitAtSpace(x + " " + y) == Some((x, y))
  {
    var s := x + " " + y;
    assert s[|x|] == ' ';
    assert s[..|x|] == x && s[|x| + 1..] == y;
  }

  /** Reading one line back as add_symbols does, with fields separated by single spaces. */
  function ParseTagLine(s: string): (r: Option<TagRecord>)
    ensures r.Some? ==> ' ' !in r.value.symbol && ' ' !in r.value.file && r.value.symbol != [] && r.value.file != []
  {
    match SplitAtSpace(s)
    case None => None
    case Some((symbol, rest)) =>
      match SplitAtSpace(rest)
      case None => None
      case Some((file, digits)) =>
        if symbol == [] || file == [] || |digits| < 2 || digits[|digits| - 1] != '\n' then None
        else
          var number := digits[..|digits| - 1];
          if forall i | 0 <= i < |number| :: '0' <= number[i] <= '9' then
            Some(TagRecord(symbol, file, ParseDigits(number)))
          else None
  }

  /** A line written for the tag file reads back as the record it was written from. */
  lemma TagLineRoundTrip(symbol: string, file: string, line: nat)
    requires symbol != [] && file != []
    requires ' ' !in symbol && ' ' !in file
    ensures ParseTagLine(TagLine(symbol, file, line)) == Some(TagRecord(symbol, file, line))
  {
    var number := NatToString(line);
    var digits := number + "\n";
    var rest := file + " " + digits;
    assert TagLine(symbol, file, line) == symbol + " " + rest;
    SplitAtSpaceConcat(symbol, rest);
    SplitAtSpaceConcat(file, digits);
    assert digits[..|digits| - 1] == number;
    ParseNatToString(line);
  }

  /** The entries generate_tag_file lists: named, and found by this run rather than read from a tag file. */
  function Listed(m: DefMap): (r: DefMap)
    ensures forall e :: e in r <==> e in m && e.key != [] && !e.fromTagFile
    ensures Sorted(m) ==> Sorted(r)
  {
    if m == [] then []
    else
      var rest := Listed(m[1..]);
      assert m == [m[0]] + m[1..];
      if m[0].key != [] && !m[0].fromTagFile then
        if Sorted(m) then
          SortedTail(m);
          assert forall e | e in rest :: Less(m[0].key, e.key) by {
            forall e | e in rest ensures Less(m[0].key, e.key) {
              var j :| 0 <= j < |m[1..]| && m[1..][j] == e;
              assert m[j + 1] == e;
            }
          }
          ConsSorted(m[0], rest);
          [m[0]] + rest
        else [m[0]] + rest
      else
        if Sorted(m) then SortedTail(m); rest else rest
  }

  function FileLines(files: seq<string>, htmlDir: string, prefix: string): (r: Option<seq<string>>)
    ensures r.None? <==> exists i | 0 <= i < |files| :: |files[i]| < Dropped(prefix)
    ensures r.Some? ==> |r.value| == |files|
    ensures r.Some? ==> forall i | 0 <= i < |files| ::
              r.value[i] == TagLine(files[i], MakeFilename(files[i], htmlDir, prefix, ".html", true).value, 0)
  {
    if files == [] then Some([])
    else
      var html := MakeFilename(files[0], htmlDir, prefix, ".html", true);
      var rest := FileLines(files[1..], htmlDir, prefix);
      assert forall i | 1 <= i < |files| :: files[i] == files[1..][i - 1];
      if html.None? || rest.None? then None
      else Some([TagLine(files[0], html.value, 0)] + rest.value)
  }

  function EntryLines(m: DefMap): (r: seq<string>)
    ensures |r| == |m|
    ensures forall k | 0 <= k < |m| :: r[k] == TagLine(m[k].key, m[k].file, m[k].line)
  {
    seq(|m|, k requires 0 <= k < |m| => TagLine(m[k].key, m[k].file, m[k].line))
  }

  /**
    generate_tag_file: a line "<file> <html page> 0" per source file, in
    the set's order, then a line per listed map entry, in key order. None:
    make_filename threw for a file name shorter than the prefix it cuts.
   */
  function TagFileLines(files: seq<string>, htmlDir: string, prefix: string, m: DefMap): (r: Option<seq<string>>)
    ensures r.None? <==> exists i | 0 <= i < |files| :: |files[i]| < Dropped(prefix)
    ensures r.Some? ==> |r.value| == |files| + |Listed(m)|
    ensures r.Some? ==> r.value[..|files|] == FileLines(files, htmlDir, prefix).value
    ensures r.Some? ==> forall k | 0 <= k < |Listed(m)| ::
              var e := Listed(m)[k];
              r.value[|files| + k] == TagLine(e.key, e.file, e.line)
  {
    var head := FileLines(files, htmlDir, prefix);
    if head.None? then None
    else
      var entries := EntryLines(Listed(m));
      var lines := head.value + entries;
      assert lines[..|files|] == head.value;
      assert forall k | 0 <= k < |entries| :: lines[|files| + k] == entries[k];
      Some(lines)
  }

  /** Every entry line of the tag file reads back as the entry's key, file and line. */
  lemma {:induction false} TagFileReadsBack(files: seq<string>, htmlDir: string, prefix: string, m: DefMap, k: nat)
    requires TagFileLines(files, htmlDir, prefix, m).Some?
    requires k < |Listed(m)|
    requires Listed(m)[k].file != [] && ' ' !in Listed(m)[k].file && ' ' !in Listed(m)[k].key
    ensures var e := Listed(m)[k];
      ParseTagLine(TagFileLines(files, htmlDir, prefix, m).value[|files| + k]) == Some(TagRecord(e.key, e.file, e.line))
  {
    var e := Listed(m)[k];
    assert e in Listed(m);
    TagLineRoundTrip(e.key, e.file, e.line);
  }
}

/**
  The string helpers of the documentation generator (Utils.cpp): stripping
  trailing separators, building output file names, and fully scoped names.
 */
module DocUtils {
  import opened Optional

  /** std::string::find_first_of(c, from): the first index at or after `from` that holds `c`. */
  function FindFirstOf(s: string, c: char, from: nat): (r: Option<nat>)
    ensures r.Some? ==> from <= r.value < |s| && s[r.value] == c
    ensures r.Some? ==> forall i | from <= i < r.value :: s[i] != c
    ensures r.None? ==> forall i | from <= i < |s| :: s[i] != c
    decreases |s| - from
  {
    if from >= |s| then None
    else if s[from] == c then Some(from)
    else FindFirstOf(s, c, from + 1)
  }

  /** `s` with every `from` turned into `to`. */
  function ReplaceChar(s: string, from: char, to: char): (r: string)
    ensures |r| == |s|
    ensures forall i | 0 <= i < |s| :: r[i] == (if s[i] == from then to else s[i])
  {
    if s == [] then [] else [if s[0] == from then to else s[0]] + ReplaceChar(s[1..], from, to)
  }

  /**
    The find_first_of loop of fullyScopedName and make_filename: find the
    first `from`, overwrite it, search again one past it, until none is left.
   */
  method ReplaceEach(s: string, from: char, to: char) returns (r: string)
    ensures r == ReplaceChar(s, from, to)
  {
    r := s;
    var pos := FindFirstOf(r, from, 0);
    while pos.Some?
      invariant |r| == |s|
      invariant pos.Some? ==> pos.value < |s| && s[pos.value] == from
      invariant forall i | 0 <= i < |s| && pos.Some? && i < pos.value :: r[i] == (if s[i] == from then to else s[i])
      invariant forall i | 0 <= i < |s| && pos.Some? && i >= pos.value :: r[i] == s[i]
      invariant pos.None? ==> forall i | 0 <= i < |s| :: r[i] == (if s[i] == from then to else s[i])
      decreases if pos.Some? then |s| - pos.value else 0
    {
      var p := pos.value;
      r := r[p := to];
      pos := FindFirstOf(r, from, p + 1);
      forall i | p < i < |s| && (pos.None? || i < pos.value) ensures s[i] != from {
        assert r[i] == s[i];
      }
    }
    assert forall i | 0 <= i < |s| :: r[i] == ReplaceChar(s, from, to)[i];
  }

  lemma {:induction false} ReplaceCharAppend(a: string, b: string, from: char, to: char)
    ensures ReplaceChar(a + b, from, to) == ReplaceChar(a, from, to) + ReplaceChar(b, from, to)
  {
    assert forall i | 0 <= i < |a + b| :: ReplaceChar(a + b, from, to)[i] == (ReplaceChar(a, from, to) + ReplaceChar(b, from, to))[i];
  }

  /** Replacing a character that is no longer there changes nothing. */
  lemma ReplaceCharIdempotent(s: string, from: char, to: char)
    requires from != to
    ensures ReplaceChar(ReplaceChar(s, from, to), from, to) == ReplaceChar(s, from, to)
  {
    var once := ReplaceChar(s, from, to);
    assert forall i | 0 <= i < |s| :: ReplaceChar(once, from, to)[i] == once[i];
  }

  // ---------------------------------------------------------------- strip_final_seps

  /**
    strip_final_seps as written: `last` starts at the length and steps back
    while str[last-1] is '/'. Once `last` is 0 the test reads str[-1] (an
    unsigned wrap-around to the largest index), which is undefined; None
    stands for that read.
   */
  function StripFinalSepsAsWritten(s: string): Option<string> {
    ScanBackAsWritten(s, |s|)
  }

  function ScanBackAsWritten(s: string, last: nat): Option<string>
    requires last <= |s|
  {
    if last == 0 then None
    else if s[last - 1] == '/' then ScanBackAsWritten(s, last - 1)
    else Some(s[..last])
  }

  /** strip_final_seps with the scan stopping at the start: the trailing run of '/' removed. */
  function StripFinalSeps(s: string): (r: string)
    ensures |r| <= |s| && r == s[..|r|]
    ensures |r| > 0 ==> r[|r| - 1] != '/'
    ensures forall i | |r| <= i < |s| :: s[i] == '/'
  {
    if |s| > 0 && s[|s| - 1] == '/' then StripFinalSeps(s[..|s| - 1]) else s
  }

  /** The result is exactly the input with its trailing '/' run cut off: nothing else is removed. */
  lemma {:induction false} StripFinalSepsKeepsLastNonSeparator(s: string, i: nat)
    requires i < |s| && s[i] != '/'
    ensures i < |StripFinalSeps(s)|
  {
  }

  lemma StripFinalSepsIdempotent(s: string)
    ensures StripFinalSeps(StripFinalSeps(s)) == StripFinalSeps(s)
  {
  }

  lemma {:induction false} ScanBackAgrees(s: string, last: nat)
    requires last <= |s|
    requires forall i | last <= i < |s| :: s[i] == '/'
    ensures ScanBackAsWritten(s, last).None? <==> forall i | 0 <= i < last :: s[i] == '/'
    ensures ScanBackAsWritten(s, last).Some? ==> ScanBackAsWritten(s, last).value == StripFinalSeps(s)
    decreases last
  {
    if last > 0 {
      if s[last - 1] == '/' {
        ScanBackAgrees(s, last - 1);
      } else {
        StripFinalSepsKeepsLastNonSeparator(s, last - 1);
        assert ScanBackAsWritten(s, last).Some?;
      }
    }
  }

  /** As written, the scan runs off the front exactly when the input holds nothing but '/'; otherwise it agrees with the corrected function. */
  lemma StripFinalSepsAsWrittenAgrees(s: string)
    ensures StripFinalSepsAsWritten(s).None? <==> forall i | 0 <= i < |s| :: s[i] == '/'
    ensures StripFinalSepsAsWritten(s).Some? ==> StripFinalSepsAsWritten(s).value == StripFinalSeps(s)
  {
    ScanBackAgrees(s, |s|);
  }

  /** The default root directory "" is passed as prefix: as written the first read is already str[-1]. */
  lemma StripFinalSepsAsWrittenFailsOnEmpty()
    ensures StripFinalSepsAsWritten("").None?
    ensures StripFinalSepsAsWritten("/").None?
    ensures StripFinalSeps("") == "" && StripFinalSeps("/") == ""
  {
    assert "/"[0] == '/';
    assert ScanBackAsWritten("/", 1) == ScanBackAsWritten("/", 0);
    assert "/"[..0] == "";
  }

  // ---------------------------------------------------------------- make_filename

  /** How many leading characters make_filename cuts from `file`: the prefix and one separator, if any. */
  function Dropped(prefix: string): nat {
    if |prefix| > 0 then |prefix| + 1 else 0
  }

  /**
    make_filename: cut `Dropped(prefix)` characters from the front of the
    file name whether or not they spell the prefix, append the suffix, turn
    every '/' into '_', and put "directory/" in front when a full path is
    asked for. None: the cut is longer than the name, where substr throws
    std::out_of_range.
   */
  function MakeFilename(file: string, directory: string, prefix: string, suffix: string, fullPath: bool): (r: Option<string>)
    ensures r.None? <==> |file| < Dropped(prefix)
    ensures r.Some? ==> |r.value| == (if fullPath then |directory| + 1 else 0) + |file| - Dropped(prefix) + |suffix|
    ensures r.Some? && !fullPath ==> '/' !in r.value
    ensures r.Some? && fullPath ==> r.value[..|directory| + 1] == directory + "/"
    ensures r.Some? && fullPath ==> '/' !in r.value[|directory| + 1..]
  {
    var len := Dropped(prefix);
    if |file| < len then None
    else
      var sub := ReplaceChar(file[len..] + suffix, '/', '_');
      assert forall i | 0 <= i < |sub| :: sub[i] != '/';
      if fullPath then
        var out := directory + "/" + sub;
        assert out[|directory| + 1..] == sub;
        Some(out)
      else Some(sub)
  }

  /** Apart from '/' turning into '_', the munged part is the file name past the cut, then the suffix, character for character. */
  lemma MakeFilenameKeepsCharacters(file: string, directory: string, prefix: string, suffix: string, fullPath: bool, i: nat)
    requires Dropped(prefix) <= |file|
    requires i < |file| - Dropped(prefix) + |suffix|
    ensures var out := MakeFilename(file, directory, prefix, suffix, fullPath).value;
            var start := if fullPath then |directory| + 1 else 0;
            var c := (file[Dropped(prefix)..] + suffix)[i];
            out[start + i] == (if c == '/' then '_' else c)
  {
  }

  /** The cut does not look at the prefix's characters: a file outside the prefix is cut just the same. */
  lemma MakeFilenameIgnoresPrefixText()
    ensures MakeFilename("s/a/b", "h", "s", "", true) == Some("h/a_b")
    ensures MakeFilename("t/a/b", "h", "s", "", true) == Some("h/a_b")
    ensures MakeFilename("a", "h", "s", "", false) == None
  {
    assert "s/a/b"[2..] + "" == "a/b";
    assert "t/a/b"[2..] + "" == "a/b";
    assert ReplaceChar("a/b", '/', '_') == "a_b";
    assert "h" + "/" + "a_b" == "h/a_b";
  }

  lemma ReplaceCharAbsent(s: string, from: char, to: char)
    requires from !in s
    ensures ReplaceChar(s, from, to) == s
  {
  }

  // ---------------------------------------------------------------- fullyScopedName

  /**
    A cursor as fullyScopedName sees it: its display name and its semantic
    parent, None when the parent is null or the translation unit. Display
    names are C strings and hold no NUL.
   */
  datatype ScopeCursor = ScopeCursor(displayName: string, parent: Option<ScopeCursor>)

  /** fullyScopedName_i: the parent's fully scoped name, then "::" and the display name when both are non-empty. */
  function FullyScopedNameInner(c: ScopeCursor): (r: string)
    ensures c.displayName == [] ==> r == (if c.parent.Some? then FullyScopedName(c.parent.value) else "")
    ensures c.parent.None? ==> r == c.displayName
    decreases c, 0
  {
    var str := if c.parent.Some? then FullyScopedName(c.parent.value) else "";
    if c.displayName != [] then
      (if str != [] then str + "::" else str) + c.displayName
    else str
  }

  /** fullyScopedName: fullyScopedName_i with every space turned into '@'. */
  function FullyScopedName(c: ScopeCursor): (r: string)
    ensures |r| == |FullyScopedNameInner(c)|
    ensures ' ' !in r
    decreases c, 1
  {
    ReplaceChar(FullyScopedNameInner(c), ' ', '@')
  }

  /** The display names from the outermost scope down to the cursor. */
  function ScopeNames(c: ScopeCursor): (r: seq<string>)
    ensures |r| >= 1 && r[|r| - 1] == c.displayName
  {
    (if c.parent.Some? then ScopeNames(c.parent.value) else []) + [c.displayName]
  }

  function NonEmpty(names: seq<string>): (r: seq<string>)
    ensures forall k | 0 <= k < |r| :: r[k] != []
  {
    if names == [] then []
    else NonEmpty(names[..|names| - 1]) + (if names[|names| - 1] != [] then [names[|names| - 1]] else [])
  }

  /** The names separated by `sep`. */
  function JoinWith(names: seq<string>, sep: string): string {
    if names == [] then ""
    else if |names| == 1 then names[0]
    else names[0] + sep + JoinWith(names[1..], sep)
  }

  lemma {:induction false} JoinWithSnoc(names: seq<string>, sep: string, last: string)
    requires names != []
    ensures JoinWith(names + [last], sep) == JoinWith(names, sep) + sep + last
    decreases |names|
  {
    if |names| == 1 {
      assert names + [last] == [names[0], last];
    } else {
      assert (names + [last])[1..] == names[1..] + [last];
      JoinWithSnoc(names[1..], sep, last);
    }
  }

  lemma {:induction false} JoinWithNonEmpty(names: seq<string>, sep: string)
    requires forall k | 0 <= k < |names| :: names[k] != []
    ensures JoinWith(names, sep) == [] <==> names == []
    decreases |names|
  {
    if |names| > 1 {
      JoinWithNonEmpty(names[1..], sep);
    }
  }

  /** Turning spaces into '@' before or after appending "::" and a name comes to the same. */
  lemma {:induction false} ReplaceSpacesAroundSeparator(x: string, d: string)
    ensures ReplaceChar(ReplaceChar(x, ' ', '@') + "::" + d, ' ', '@') == ReplaceChar(x + "::" + d, ' ', '@')
  {
    var str := ReplaceChar(x, ' ', '@');
    ReplaceCharAppend(x + "::", d, ' ', '@');
    ReplaceCharAppend(x, "::", ' ', '@');
    ReplaceCharAppend(str + "::", d, ' ', '@');
    ReplaceCharAppend(str, "::", ' ', '@');
    ReplaceCharIdempotent(x, ' ', '@');
    assert ReplaceChar("::", ' ', '@') == "::";
  }

  lemma {:induction false} NonEmptySnoc(names: seq<string>, d: string)
    ensures NonEmpty(names + [d]) == NonEmpty(names) + (if d != [] then [d] else [])
  {
    assert (names + [d])[..|names + [d]| - 1] == names;
  }

  /**
    The fully scoped name is the non-empty display names of every enclosing
    scope joined by "::", with spaces turned into '@': the post-pass at each
    level of the recursion amounts to one pass over the whole name.
   */
  lemma {:induction false} FullyScopedNameIsJoin(c: ScopeCursor)
    ensures FullyScopedName(c) == ReplaceChar(JoinWith(NonEmpty(ScopeNames(c)), "::"), ' ', '@')
    decreases c
  {
    var d := c.displayName;
    var parentNames := if c.parent.Some? then ScopeNames(c.parent.value) else [];
    assert ScopeNames(c) == parentNames + [d];
    NonEmptySnoc(parentNames, d);
    var xs := NonEmpty(parentNames);
    var x := JoinWith(xs, "::");
    var str := if c.parent.Some? then FullyScopedName(c.parent.value) else "";
    if c.parent.Some? {
      FullyScopedNameIsJoin(c.parent.value);
    }
    assert str == ReplaceChar(x, ' ', '@');
    JoinWithNonEmpty(xs, "::");
    if d == [] {
      assert NonEmpty(ScopeNames(c)) == xs;
      ReplaceCharIdempotent(x, ' ', '@');
    } else if xs == [] {
      assert NonEmpty(ScopeNames(c)) == [d];
      assert |str| == 0;
      assert FullyScopedNameInner(c) == d;
      assert JoinWith([d], "::") == d;
    } else {
      assert NonEmpty(ScopeNames(c)) == xs + [d];
      JoinWithSnoc(xs, "::", d);
      assert FullyScopedNameInner(c) == str + "::" + d;
      ReplaceSpacesAroundSeparator(x, d);
    }
  }

  /** An anonymous scope (empty display name) between two named ones adds no "::" of its own. */
  lemma AnonymousScopeAddsNoSeparator(ns: string, x: string)
    requires ns != [] && x != []
    requires ' ' !in ns && ' ' !in x
    ensures FullyScopedName(ScopeCursor(x, Some(ScopeCursor("", Some(ScopeCursor(ns, None)))))) == ns + "::" + x
  {
    var outer := ScopeCursor(ns, None);
    var anonymous := ScopeCursor("", Some(outer));
    ReplaceCharAbsent(ns, ' ', '@');
    assert FullyScopedName(outer) == ns;
    assert FullyScopedName(anonymous) == ns;
    var inner := ns + "::" + x;
    assert FullyScopedNameInner(ScopeCursor(x, Some(anonymous))) == inner;
    assert ' ' !in inner by {
      forall i | 0 <= i < |inner| ensures inner[i] != ' ' {
        if i < |ns| {
          assert inner[i] == ns[i];
        } else if i >= |ns| + 2 {
          assert inner[i] == x[i - |ns| - 2];
        }
      }
    }
    ReplaceCharAbsent(inner, ' ', '@');
  }
}

/**
  The pure parts of Html_File: `fix`, which escapes the characters HTML
  reserves, and munge_fullyscopedname, which rewrites a fully scoped name
  into the form used for link targets.
 */
module HtmlFile {
  import opened Optional

  const Nul: char := '\0'

  /** The text `fix` writes for one character. */
  function Escape(c: char): string {
    match c
    case '<' => "&lt;"
    case '>' => "&gt;"
    case '&' => "&amp;"
    case '"' => "&quot;"
    case _ => [c]
  }

  predicate IsSpecial(c: char) {
    c == '<' || c == '>' || c == '&' || c == '"'
  }

  /** fix: walks the C string up to its terminating NUL and escapes each character. */
  function Fix(s: string): (r: string)
    ensures '<' !in r && '>' !in r && '"' !in r
    ensures |r| <= 6 * |s|
  {
    if s == [] || s[0] == Nul then []
    else Escape(s[0]) + Fix(s[1..])
  }

  /** Fix works character by character: escaping a concatenation escapes its halves. */
  lemma {:induction false} FixAppend(a: string, b: string)
    requires Nul !in a
    ensures Fix(a + b) == Fix(a) + Fix(b)
  {
    if a != [] {
      assert a[0] in a;
      assert (a + b)[0] == a[0] && (a + b)[1..] == a[1..] + b;
      FixAppend(a[1..], b);
      assert Fix(a + b) == Escape(a[0]) + Fix(a[1..] + b);
      assert Fix(a) == Escape(a[0]) + Fix(a[1..]);
    } else {
      assert a + b == b;
    }
  }

  /** Nothing after the terminator is read. */
  lemma {:induction false} FixStopsAtNul(a: string, b: string)
    requires Nul !in a
    ensures Fix(a + [Nul] + b) == Fix(a)
  {
    FixAppend(a, [Nul] + b);
    assert a + [Nul] + b == a + ([Nul] + b);
  }

  function SpecialCount(s: string): nat {
    if s == [] then 0 else (if IsSpecial(s[0]) then 1 else 0) + SpecialCount(s[1..])
  }

  /** The output is at least as long as the input, and exactly as long when nothing needs escaping. */
  lemma {:induction false} FixLength(s: string)
    requires Nul !in s
    ensures |Fix(s)| >= |s| + 3 * SpecialCount(s)
    ensures |Fix(s)| == |s| <==> SpecialCount(s) == 0
    ensures SpecialCount(s) == 0 ==> Fix(s) == s
  {
    if s != [] {
      FixLength(s[1..]);
      assert |Fix(s)| <= |s| + 5 * SpecialCount(s) by { FixLengthAtMost(s); }
    }
  }

  lemma {:induction false} FixLengthAtMost(s: string)
    requires Nul !in s
    ensures |Fix(s)| <= |s| + 5 * SpecialCount(s)
  {
    if s != [] {
      FixLengthAtMost(s[1..]);
    }
  }

  /** Decoding the four entities, the reverse of `fix`. */
  function Unescape(t: string): string {
    if t == [] then []
    else if |t| >= 4 && t[..4] == "&lt;" then "<" + Unescape(t[4..])
    else if |t| >= 4 && t[..4] == "&gt;" then ">" + Unescape(t[4..])
    else if |t| >= 5 && t[..5] == "&amp;" then "&" + Unescape(t[5..])
    else if |t| >= 6 && t[..6] == "&quot;" then "\"" + Unescape(t[6..])
    else [t[0]] + Unescape(t[1..])
  }

  lemma UnescapeLt(rest: string)
    ensures Unescape("&lt;" + rest) == "<" + Unescape(rest)
  {
    var t := "&lt;" + rest;
    assert t[..4] == "&lt;" && t[4..] == rest;
  }

  lemma UnescapeGt(rest: string)
    ensures Unescape("&gt;" + rest) == ">" + Unescape(rest)
  {
    var t := "&gt;" + rest;
    assert t[..4] == "&gt;" && t[4..] == rest;
  }

  lemma UnescapeAmp(rest: string)
    ensures Unescape("&amp;" + rest) == "&" + Unescape(rest)
  {
    var t := "&amp;" + rest;
    assert t[..4] == "&amp";
    assert t[..5] == "&amp;" && t[5..] == rest;
  }

  lemma UnescapeQuot(rest: string)
    ensures Unescape("&quot;" + rest) == "\"" + Unescape(rest)
  {
    var t := "&quot;" + rest;
    assert t[..4] == "&quo" && t[..5] == "&quot";
    assert t[..6] == "&quot;" && t[6..] == rest;
  }

  lemma UnescapeStep(c: char, rest: string)
    ensures Unescape(Escape(c) + rest) == [c] + Unescape(rest)
  {
    if c == '<' {
      UnescapeLt(rest);
    } else if c == '>' {
      UnescapeGt(rest);
    } else if c == '&' {
      UnescapeAmp(rest);
    } else if c == '"' {
      UnescapeQuot(rest);
    } else {
      var t := [c] + rest;
      assert t[0] == c && t[1..] == rest;
    }
  }

  /** Decoding the entities in fix's output gives back the input. */
  lemma {:induction false} UnescapeFix(s: string)
    requires Nul !in s
    ensures Unescape(Fix(s)) == s
  {
    if s != [] {
      UnescapeFix(s[1..]);
      UnescapeStep(s[0], Fix(s[1..]));
    }
  }

  // ---------------------------------------------------------------- munge_fullyscopedname

  predicate OccursAt(s: string, pat: string, i: nat) {
    i + |pat| <= |s| && s[i..i + |pat|] == pat
  }

  predicate Contains(s: string, pat: string) {
    exists i | 0 <= i <= |s| :: OccursAt(s, pat, i)
  }

  /** std::string::find(pat, from): the first position at or after `from` where `pat` occurs. */
  function FindFrom(s: string, pat: string, from: nat): (r: Option<nat>)
    requires |pat| > 0
    ensures r.Some? ==> from <= r.value && OccursAt(s, pat, r.value)
    ensures r.Some? ==> forall i: nat | from <= i < r.value :: !OccursAt(s, pat, i)
    ensures r.None? ==> forall i: nat | from <= i :: !OccursAt(s, pat, i)
    decreases |s| - from
  {
    if from + |pat| > |s| then None
    else if s[from..from + |pat|] == pat then Some(from)
    else FindFrom(s, pat, from + 1)
  }

  /** One replacement: the first occurrence of `pat` replaced by `rep`; None when there is none. */
  function ReplaceFirst(s: string, pat: string, rep: string): (r: Option<string>)
    requires |pat| > 0
    ensures r.None? <==> !Contains(s, pat)
    ensures r.Some? ==> |r.value| == |s| - |pat| + |rep|
    ensures r.Some? ==> exists p | 0 <= p <= |s| ::
                          && OccursAt(s, pat, p)
                          && (forall i | 0 <= i < p :: !OccursAt(s, pat, i))
                          && r.value == s[..p] + rep + s[p + |pat|..]
  {
    var pos := FindFrom(s, pat, 0);
    if pos.None? then None
    else
      var p := pos.value;
      assert OccursAt(s, pat, p);
      Some(s[..p] + rep + s[p + |pat|..])
  }

  /**
    One loop of munge_fullyscopedname: replace the first `pat` by `rep` and
    search again from the start, until `pat` no longer occurs. Every
    replacement shortens the string by |pat| - |rep|, so the loop ends.
   */
  function ReplaceAll(s: string, pat: string, rep: string): (r: string)
    requires |rep| < |pat|
    ensures !Contains(r, pat)
    ensures |r| <= |s|
    ensures Contains(s, pat) ==> |r| < |s|
    decreases |s|
  {
    match ReplaceFirst(s, pat, rep)
    case None => s
    case Some(next) => ReplaceAll(next, pat, rep)
  }

  /** A string without `pat` goes through unchanged. */
  lemma ReplaceAllAbsent(s: string, pat: string, rep: string)
    requires |rep| < |pat|
    ensures !Contains(s, pat) ==> ReplaceAll(s, pat, rep) == s
  {
  }

  /** The pass removing "class@". */
  function StripClass(s: string): (r: string)
    ensures !Contains(r, "class@")
    ensures Contains(s, "class@") ==> |r| < |s|
  {
    ReplaceAll(s, "class@", "")
  }

  /** The pass removing "enum@". The "struct@" pass of the source is compiled out and is not here. */
  function StripEnum(s: string): (r: string)
    ensures !Contains(r, "enum@")
    ensures !Contains(s, "enum@") ==> r == s
  {
    ReplaceAllAbsent(s, "enum@", "");
    ReplaceAll(s, "enum@", "")
  }

  /** The pass turning "@_Bool" into "@bool". */
  function RenameBool(s: string): (r: string)
    ensures !Contains(r, "@_Bool")
    ensures |r| <= |s|
  {
    ReplaceAll(s, "@_Bool", "@bool")
  }

  /** munge_fullyscopedname: the three passes in order. */
  function Munge(s: string): (r: string)
    ensures !Contains(r, "@_Bool")
    ensures |r| <= |s|
    ensures !Contains(s, "class@") && !Contains(s, "enum@") && !Contains(s, "@_Bool") ==> r == s
  {
    var noClass := StripClass(s);
    var noEnum := StripEnum(noClass);
    ReplaceAllAbsent(s, "class@", "");
    ReplaceAllAbsent(noClass, "enum@", "");
    ReplaceAllAbsent(noEnum, "@_Bool", "@bool");
    RenameBool(noEnum)
  }

  /** A pattern whose first character never appears does not occur. */
  lemma FirstCharAbsent(s: string, pat: string)
    requires |pat| > 0 && pat[0] !in s
    ensures !Contains(s, pat)
  {
    forall i | 0 <= i <= |s| ensures !OccursAt(s, pat, i) {
      if i + |pat| <= |s| {
        assert s[i..i + |pat|][0] == s[i];
      }
    }
  }

  lemma NoClassInExample()
    ensures !Contains("claenum@ss@x", "class@")
  {
    var s := "claenum@ss@x";
    forall i | 0 <= i <= |s| ensures !OccursAt(s, "class@", i) {
      if i + 6 <= |s| {
        assert s[i..i + 6][0] == s[i] && s[i..i + 6][3] == s[i + 3];
      }
    }
  }

  lemma EnumRemovedInExample()
    ensures ReplaceFirst("claenum@ss@x", "enum@", "") == Some("class@x")
  {
    var s := "claenum@ss@x";
    assert OccursAt(s, "enum@", 3);
    forall i | 0 <= i < 3 ensures !OccursAt(s, "enum@", i) {
      assert s[i..i + 5][0] == s[i];
    }
    assert s[..3] + "" + s[8..] == "class@x";
  }

  lemma NoBoolInExample()
    ensures !Contains("class@x", "@_Bool")
  {
    var s := "class@x";
    forall i | 0 <= i <= |s| ensures !OccursAt(s, "@_Bool", i) {
      if i + 6 <= |s| {
        assert s[i..i + 6][0] == s[i];
      }
    }
  }

  /** Munge on a name where only the enum pass finds work, and finds it once. */
  lemma MungeOneEnum(s: string, t: string)
    requires !Contains(s, "class@")
    requires ReplaceFirst(s, "enum@", "") == Some(t)
    requires !Contains(t, "enum@") && !Contains(t, "@_Bool")
    ensures Munge(s) == t
  {
    ReplaceAllAbsent(s, "class@", "");
    ReplaceAllAbsent(t, "enum@", "");
    ReplaceAllAbsent(t, "@_Bool", "@bool");
  }

  /**
    The passes run one after the other, so removing "enum@" can put together
    a "class@" that the first pass never saw: the munged name can still
    hold "class@".
   */
  lemma EnumPassCanFormClass()
    ensures Munge("claenum@ss@x") == "class@x"
    ensures Contains(Munge("claenum@ss@x"), "class@")
  {
    NoClassInExample();
    EnumRemovedInExample();
    FirstCharAbsent("class@x", "enum@");
    NoBoolInExample();
    MungeOneEnum("claenum@ss@x", "class@x");
    assert OccursAt("class@x", "class@", 0);
  }
}

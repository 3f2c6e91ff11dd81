/** The rewrites `main` applies to the text of `build_readme` before printing
    it: rename the binary, retitle the first heading, trim every line, and
    one pass of blank-line collapsing. */
module ReadmePostProcess {
  import opened Strings

  /** The clap command name of the binary. */
  const BinaryName: string := "azure-storage-cli"
  /** The public alias it is renamed to. */
  const Alias: string := "azs"
  /** The alias with its Windows executable suffix. */
  const WindowsAlias: string := "azs.exe"
  /** The root heading after renaming. */
  const RootHeading: string := "# azs"
  const TitleLine: string := "# Azure Storage CLI"
  const BlankRun: string := "\n\n\n"

  /** What replaces the root heading: the title, a blank line and the package
      description (a build-time constant, a parameter here). */
  function TitleBlock(description: string): (t: string)
    ensures |t| == |TitleLine| + 2 + |description|
    ensures t[..|TitleLine|] == TitleLine && t[|TitleLine|..|TitleLine| + 2] == "\n\n"
    ensures t[|TitleLine| + 2..] == description
  {
    TitleLine + "\n\n" + description
  }

  function TrimAll(ls: seq<string>): (ts: seq<string>)
    ensures |ts| == |ls|
    ensures forall i :: 0 <= i < |ls| ==> ts[i] == TrimEnd(ls[i])
  {
    seq(|ls|, i requires 0 <= i < |ls| => TrimEnd(ls[i]))
  }

  /** Split the text into lines, trim the end of each, and join them back
      with single line breaks (a final line break is not restored). */
  function TrimLines(s: string): (t: string)
    ensures '\n' !in s ==> t == TrimEnd(s)
  {
    Join(TrimAll(Lines(s)), "\n")
  }

  /** No line of `s` ends in whitespace: a whitespace character is never the
      last one of the text nor followed by a line break. */
  predicate NoLineEndsInWhitespace(s: string) {
    forall i :: 0 <= i < |s| && IsWhitespace(s[i]) && s[i] != '\n' ==> i + 1 < |s| && s[i + 1] != '\n'
  }

  /** Every run of three line breaks, found left to right without overlap,
      becomes one line break, in a single pass. It never makes the
      text longer, never puts whitespace back at the end of a line, and leaves
      a text without line breaks alone. */
  function CollapseBlankLines(s: string): (r: string)
    ensures |r| <= |s|
    ensures NoLineEndsInWhitespace(s) ==> NoLineEndsInWhitespace(r)
    ensures '\n' !in s ==> r == s
  {
    CollapseKeepsClean(s);
    NoBreakNoRun(s);
    ReplaceAll(s, BlankRun, "\n")
  }

  lemma NoBreakNoRun(s: string)
    ensures '\n' !in s ==> NoOccurrenceBefore(s, BlankRun, |s|)
  {
    if '\n' !in s {
      forall j: nat | j < |s| ensures !OccursAt(s, BlankRun, j) {
        assert j + 3 <= |s| ==> s[j..j + 3][0] == s[j] && s[j] in s;
      }
    }
  }

  /** The two renames: the binary name, then its Windows form, become the
      alias everywhere. */
  function Rename(doc: string): (r: string)
    ensures Absent(doc, BinaryName) && Absent(doc, WindowsAlias) ==> r == doc
  {
    ReplaceAll(ReplaceAll(doc, BinaryName, Alias), WindowsAlias, Alias)
  }

  /** The whole chain of `main` for the `readme` subcommand. */
  function PostProcess(doc: string, description: string): (r: string)
    ensures NoLineEndsInWhitespace(r)
  {
    var renamed := Rename(doc);
    var titled := ReplaceFirst(renamed, RootHeading, TitleBlock(description));
    TrimLinesSpec(titled);
    CollapseBlankLines(TrimLines(titled))
  }

  /** No occurrence of the binary name can overlap an inserted alias. */
  lemma AliasCannotCompleteBinaryName()
    ensures CannotStraddle(BinaryName, Alias)
  {
    forall j | 1 <= j < |BinaryName| ensures Diverge(BinaryName[j..], Alias) {
      if j == 10 {
        assert BinaryName[j..][1] != Alias[1];
      } else {
        assert BinaryName[j..][0] != Alias[0];
      }
    }
    forall i | 0 <= i < |Alias| ensures Diverge(Alias[i..], BinaryName) {
      if i == 0 {
        assert Alias[i..][2] != BinaryName[2];
      } else {
        assert Alias[i..][0] != BinaryName[0];
      }
    }
  }

  /** After the renames no `azure-storage-cli` is left anywhere in the text:
      the first rename removes every occurrence without forming new ones, and
      the second cannot form one. */
  lemma RenameLeavesNoBinaryName(doc: string)
    ensures Absent(Rename(doc), BinaryName)
  {
    AliasCannotCompleteBinaryName();
    ReplaceAllAvoids(doc, BinaryName, Alias, BinaryName);
    ReplaceAllAvoids(ReplaceAll(doc, BinaryName, Alias), WindowsAlias, Alias, BinaryName);
  }

  // ---------------------------------------------------------------------------
  // Trailing whitespace

  /** A line that is clean on its own: no line break inside, no whitespace
      at its end. */
  predicate CleanLine(l: string) {
    '\n' !in l && (l == [] || !IsWhitespace(l[|l| - 1]))
  }

  lemma CleanLineAlone(l: string)
    requires CleanLine(l)
    ensures NoLineEndsInWhitespace(l)
  {
    forall j | 0 <= j < |l| ensures l[j] != '\n' {
      assert l[j] in l;
    }
  }

  lemma CleanLineBefore(l: string, rest: string)
    requires CleanLine(l) && NoLineEndsInWhitespace(rest)
    ensures NoLineEndsInWhitespace(l + "\n" + rest)
  {
    var s := l + "\n" + rest;
    forall i | 0 <= i < |s| && IsWhitespace(s[i]) && s[i] != '\n'
      ensures i + 1 < |s| && s[i + 1] != '\n'
    {
      if i < |l| - 1 {
        assert s[i + 1] == l[i + 1] && l[i + 1] in l;
      } else if i > |l| {
        assert s[i] == rest[i - |l| - 1];
        if i + 1 < |s| {
          assert s[i + 1] == rest[i - |l|];
        }
      }
    }
  }

  /** Joining clean lines with `"\n"` gives a text where no line ends in
      whitespace. */
  lemma {:induction false} JoinCleanLines(ls: seq<string>)
    requires forall i :: 0 <= i < |ls| ==> CleanLine(ls[i])
    ensures NoLineEndsInWhitespace(Join(ls, "\n"))
    decreases |ls|
  {
    if |ls| == 1 {
      CleanLineAlone(ls[0]);
    } else if |ls| > 1 {
      JoinCleanLines(ls[1..]);
      CleanLineBefore(ls[0], Join(ls[1..], "\n"));
    }
  }

  /** A trimmed line of `lines()` is clean. */
  lemma TrimmedLinesClean(s: string)
    ensures forall i :: 0 <= i < |Lines(s)| ==> CleanLine(TrimAll(Lines(s))[i])
  {
    var ls := Lines(s);
    forall i | 0 <= i < |ls| ensures CleanLine(TrimAll(ls)[i]) {
      var t := TrimEnd(ls[i]);
      assert forall c :: c in t ==> c in ls[i];
    }
  }

  /** After the trim step no line ends in whitespace, and splitting the result
      at its line breaks gives back exactly one trimmed line per line of the
      input: the number of lines is kept. */
  lemma TrimLinesSpec(s: string)
    ensures NoLineEndsInWhitespace(TrimLines(s))
    ensures s != [] ==> Split(TrimLines(s), '\n') == TrimAll(Lines(s))
    ensures s != [] ==> |Split(TrimLines(s), '\n')| == |Lines(s)|
  {
    TrimmedLinesClean(s);
    JoinCleanLines(TrimAll(Lines(s)));
    if s != [] {
      SplitJoin(TrimAll(Lines(s)), '\n');
    }
  }

  /** Removing a prefix keeps the property. */
  lemma CleanSuffix(s: string, k: nat)
    requires k <= |s| && NoLineEndsInWhitespace(s)
    ensures NoLineEndsInWhitespace(s[k..])
  {
    var t := s[k..];
    forall i | 0 <= i < |t| && IsWhitespace(t[i]) && t[i] != '\n'
      ensures i + 1 < |t| && t[i + 1] != '\n'
    {
      assert t[i] == s[i + k];
    }
  }

  lemma NewlineBeforeClean(t: string)
    requires NoLineEndsInWhitespace(t)
    ensures NoLineEndsInWhitespace("\n" + t)
  {
    var s := "\n" + t;
    forall i | 0 <= i < |s| && IsWhitespace(s[i]) && s[i] != '\n'
      ensures i + 1 < |s| && s[i + 1] != '\n'
    {
      assert s[i] == t[i - 1];
    }
  }

  /** The collapsing pass only ever writes `"\n"`, and a character it copies
      keeps the character that followed it unless that character starts a run
      of three line breaks, in which case a line break follows it still. */
  lemma {:induction false} CollapseKeepsClean(s: string)
    ensures NoLineEndsInWhitespace(s) ==> NoLineEndsInWhitespace(ReplaceAll(s, BlankRun, "\n"))
    decreases |s|
  {
    if NoLineEndsInWhitespace(s) && |s| >= |BlankRun| {
      if StartsWith(s, BlankRun) {
        CleanSuffix(s, 3);
        CollapseKeepsClean(s[3..]);
        NewlineBeforeClean(ReplaceAll(s[3..], BlankRun, "\n"));
      } else {
        var t := s[1..];
        CleanSuffix(s, 1);
        CollapseKeepsClean(t);
        var rt := ReplaceAll(t, BlankRun, "\n");
        var r := [s[0]] + rt;
        assert ReplaceAll(s, BlankRun, "\n") == r;
        if IsWhitespace(s[0]) && s[0] != '\n' {
          assert t[0] == s[1] && s[1] != '\n';
          ReplaceAllKeepsHead(t, BlankRun, "\n");
        }
        forall i | 0 <= i < |r| && IsWhitespace(r[i]) && r[i] != '\n'
          ensures i + 1 < |r| && r[i + 1] != '\n'
        {
          if i > 0 {
            assert r[i] == rt[i - 1];
          }
        }
      }
    }
  }

  /** One pass, not a fixed point: five line breaks in a row leave three. */
  lemma CollapseIsSinglePass()
    ensures CollapseBlankLines("\n\n\n\n\n") == "\n\n\n"
  {
    ReplaceAllMatch(BlankRun, "\n\n", "\n");
    assert BlankRun + "\n\n" == "\n\n\n\n\n";
  }

  // ---------------------------------------------------------------------------
  // The title replaces the root heading

  /** The start of `build_readme`'s text for the root command, before its
      help text. */
  function RootSectionStart(): string {
    "# " + BinaryName + "\n\n```\n"
  }

  /** Renaming turns the root heading `# azure-storage-cli` into `# azs` and
      keeps the fence that follows it. */
  lemma RenameRootHeading(rest: string)
    ensures ReplaceAll(ReplaceAll(RootSectionStart() + rest, BinaryName, Alias), WindowsAlias, Alias)
         == RootHeading + "\n\n```\n" + ReplaceAll(ReplaceAll(rest, BinaryName, Alias), WindowsAlias, Alias)
  {
    var r1 := ReplaceAll(rest, BinaryName, Alias);
    RenameBinary(rest);
    RenameWindowsAlias(r1);
  }

  lemma RenameBinary(rest: string)
    ensures ReplaceAll(RootSectionStart() + rest, BinaryName, Alias)
         == "# " + Alias + "\n\n```\n" + ReplaceAll(rest, BinaryName, Alias)
  {
    ReplaceAllAround("# ", "\n\n```\n", rest, BinaryName, Alias);
  }

  lemma RenameWindowsAlias(r1: string)
    ensures ReplaceAll("# " + Alias + "\n\n```\n" + r1, WindowsAlias, Alias)
         == RootHeading + "\n\n```\n" + ReplaceAll(r1, WindowsAlias, Alias)
  {
    var fence := "\n\n```\n";
    var a := Alias + fence;
    var r2 := ReplaceAll(r1, WindowsAlias, Alias);
    assert a[1..] == "zs\n\n```\n";
    assert !StartsWith(a + r1, WindowsAlias) by {
      assert (a + r1)[3] == a[3] == '\n';
    }
    ReplaceAllPast("# ", a, r1, WindowsAlias, Alias);
    ConcatAssoc("# ", Alias, fence);
    assert "# " + Alias == RootHeading;
  }

  /** `replacen` of the root heading at the very start of the text. */
  lemma RetitleAtStart(rest: string, description: string)
    ensures ReplaceFirst(RootHeading + rest, RootHeading, TitleBlock(description))
         == TitleBlock(description) + rest
  {
    var s := RootHeading + rest;
    assert OccursAt(s, RootHeading, 0) by {
      assert s[0..|RootHeading|] == RootHeading;
    }
    assert s[|RootHeading|..] == rest;
  }

  lemma TrimCarriageReturn(l: string)
    ensures TrimEnd(StripCarriageReturn(l)) == TrimEnd(l)
  {
  }

  /** The trim step on a first line, its line break and a non-empty rest. */
  lemma TrimLinesCons(line: string, rest: string)
    requires '\n' !in line && rest != []
    ensures TrimLines(line + "\n" + rest) == TrimEnd(line) + "\n" + TrimLines(rest)
  {
    LinesCons(line, rest);
    var ls := Lines(rest);
    TrimCarriageReturn(line);
    TrimAllCons(StripCarriageReturn(line), ls);
    JoinCons(TrimEnd(line), TrimAll(ls), "\n");
  }

  lemma TrimAllCons(l: string, ls: seq<string>)
    ensures TrimAll([l] + ls) == [TrimEnd(l)] + TrimAll(ls)
  {
    var a := TrimAll([l] + ls);
    var b := [TrimEnd(l)] + TrimAll(ls);
    forall i | 0 <= i < |a| ensures a[i] == b[i] {
      if i > 0 {
        assert ([l] + ls)[i] == ls[i - 1];
      }
    }
  }

  /** Trimming a first line, a blank line, a third line and a non-empty rest. */
  lemma TrimThreeLines(t: string, d: string, rest: string)
    requires '\n' !in t && '\n' !in d && rest != []
    ensures TrimLines(t + "\n\n" + d + "\n" + rest)
         == TrimEnd(t) + "\n\n" + TrimEnd(d) + "\n" + TrimLines(rest)
  {
    var x := d + "\n" + rest;
    TrimLinesCons(d, rest);
    TrimBlankLine(x);
    TrimLinesCons(t, "\n" + x);
    BlankLineBetween(t, d, rest);
    BlankLineBetween(TrimEnd(t), TrimEnd(d), TrimLines(rest));
  }

  /** An empty first line stays empty. */
  lemma TrimBlankLine(x: string)
    requires x != []
    ensures TrimLines("\n" + x) == "\n" + TrimLines(x)
  {
    TrimLinesCons([], x);
    assert [] + "\n" + x == "\n" + x;
    assert TrimEnd([]) + "\n" + TrimLines(x) == "\n" + TrimLines(x);
  }

  /** A line, a blank line, a line and the rest, as three breaks. */
  lemma BlankLineBetween(a: string, b: string, c: string)
    ensures a + "\n\n" + b + "\n" + c == a + "\n" + ("\n" + (b + "\n" + c))
  {
    var y := b + "\n" + c;
    Regroup(a, "\n\n", b, "\n", c);
    assert "\n\n" + y == "\n" + ("\n" + y);
    ConcatAssoc(a, "\n", "\n" + y);
  }

  /** `a + b + c + e + f` with the last three grouped. */
  lemma Regroup(a: string, b: string, c: string, e: string, f: string)
    ensures a + b + c + e + f == a + (b + (c + e + f))
  {
  }

  /** Trimming a text that starts with the title line, a blank line and a
      one-line description. */
  lemma TrimTitleBlock(description: string, rest: string)
    requires '\n' !in description && rest != []
    ensures TrimLines(TitleBlock(description) + "\n" + rest)
         == TitleLine + "\n\n" + TrimEnd(description) + "\n" + TrimLines(rest)
  {
    TitleLineIsOneCleanLine();
    TrimThreeLines(TitleLine, description, rest);
  }

  /** A line break, a non-empty line and the rest: the pass copies the
      break and the line. */
  lemma CollapseOneBreak(d: string, tail: string)
    requires d != [] && '\n' !in d
    ensures ReplaceAll("\n" + d + tail, BlankRun, "\n") == "\n" + d + ReplaceAll(tail, BlankRun, "\n")
  {
    var a := "\n" + d;
    assert a[1..] == d;
    assert !StartsWith(a + tail, BlankRun) by {
      assert (a + tail)[1] == d[0] && d[0] in d;
    }
    ReplaceAllPast([], a, tail, BlankRun, "\n");
    assert [] + a == a;
  }

  /** Two line breaks before a non-empty line: both are copied. */
  lemma CollapseTwoBreaks(d: string, tail: string)
    requires d != [] && '\n' !in d
    ensures ReplaceAll("\n" + ("\n" + d + tail), BlankRun, "\n")
         == "\n" + ("\n" + d + ReplaceAll(tail, BlankRun, "\n"))
  {
    var x := "\n" + d + tail;
    assert !StartsWith("\n" + x, BlankRun) by {
      assert ("\n" + x)[2] == d[0] && d[0] in d;
    }
    ReplaceAllNoMatchStep("\n" + x, BlankRun, "\n");
    assert ("\n" + x)[1..] == x;
    CollapseOneBreak(d, tail);
  }

  /** Collapsing leaves a first line, its blank line and a non-empty third
      line untouched. */
  lemma CollapseKeepsThreeLines(t: string, d: string, rest: string)
    requires '\n' !in t && d != [] && '\n' !in d
    ensures StartsWith(CollapseBlankLines(t + "\n\n" + d + "\n" + rest), t + "\n\n" + d + "\n")
  {
    var tail := "\n" + rest;
    var r := ReplaceAll(tail, BlankRun, "\n");
    var prefix := t + "\n\n" + d + "\n";
    ThreeLinesRegrouped(t, d, rest);
    assert ReplaceAll(t + ("\n" + ("\n" + d + tail)), BlankRun, "\n") == t + ("\n" + ("\n" + d + r)) by {
      CollapseTwoBreaks(d, tail);
      ReplaceAllSkipPrefix(t, "\n" + ("\n" + d + tail), BlankRun, "\n");
    }
    assert r == "\n" + r[1..] by {
      ReplaceAllKeepsHead(tail, BlankRun, "\n");
    }
    ThreeLinesRegrouped(t, d, r[1..]);
    PrefixStartsWith(prefix, r[1..]);
  }

  lemma ThreeLinesRegrouped(t: string, d: string, x: string)
    ensures t + "\n\n" + d + "\n" + x == t + ("\n" + ("\n" + d + ("\n" + x)))
  {
    BlankLineBetween(t, d, x);
    ConcatAssoc(t, "\n", "\n" + (d + "\n" + x));
    ConcatAssoc("\n" + d, "\n", x);
  }

  lemma PrefixStartsWith(a: string, b: string)
    ensures StartsWith(a + b, a)
  {
    assert (a + b)[..|a|] == a;
  }

  /** Trimming the lines forms no occurrence of a pattern without line
      breaks: every trimmed line is a prefix of a line of the text. */
  lemma TrimLinesKeepsAbsent(s: string, p: string)
    requires |p| > 0 && '\n' !in p && Absent(s, p)
    ensures Absent(TrimLines(s), p)
  {
    AbsentFromLines(s, p);
    var ls := Lines(s);
    forall l | l in TrimAll(ls) ensures Absent(l, p) {
      var i :| 0 <= i < |TrimAll(ls)| && TrimAll(ls)[i] == l;
      assert ls[i] in ls;
      assert ls[i] == l + ls[i][|l|..];
      AbsentInParts(l, ls[i][|l|..], p);
    }
    AbsentFromJoin(TrimAll(ls), p);
  }

  lemma BinaryNameHasNoBreak()
    ensures |BinaryName| > 0 && '\n' !in BinaryName
    ensures Absent(TitleLine, BinaryName) && Absent("```", BinaryName)
  {
    forall j: nat | j < |TitleLine| ensures !OccursAt(TitleLine, BinaryName, j) {
      if j + |BinaryName| <= |TitleLine| {
        assert TitleLine[j..j + |BinaryName|][0] == TitleLine[j] != BinaryName[0];
      }
    }
  }

  /** The retitled text: the title block, then what followed the root
      heading. No binary name is in it unless the description brings one. */
  lemma TitledHasNoBinaryName(description: string, after: string)
    requires Absent(description, BinaryName) && Absent(after, BinaryName)
    ensures Absent(TitleBlock(description) + "\n\n```\n" + after, BinaryName)
  {
    BinaryNameHasNoBreak();
    var x1 := "```" + "\n" + after;
    AbsentAroundBreak("```", after, BinaryName);
    var x2 := [] + "\n" + x1;
    AbsentAroundBreak([], x1, BinaryName);
    var x3 := description + "\n" + x2;
    AbsentAroundBreak(description, x2, BinaryName);
    var x4 := [] + "\n" + x3;
    AbsentAroundBreak([], x3, BinaryName);
    AbsentAroundBreak(TitleLine, x4, BinaryName);
    assert TitleBlock(description) + "\n\n```\n" + after == TitleLine + "\n" + x4;
  }

  /** The printed README never names the binary `azure-storage-cli`, though
      every heading of the rendered tree starts with it, as long as the
      package description does not. */
  lemma ReadmeNeverNamesBinary(rest: string, description: string)
    requires Absent(description, BinaryName)
    ensures Absent(PostProcess(RootSectionStart() + rest, description), BinaryName)
  {
    BinaryNameHasNoBreak();
    var doc := RootSectionStart() + rest;
    var renamedRest := Rename(rest);
    var after := "\n\n```\n" + renamedRest;
    assert Rename(doc) == RootHeading + after by {
      RenameRootHeading(rest);
      ConcatAssoc(RootHeading, "\n\n```\n", renamedRest);
    }
    RenameLeavesNoBinaryName(doc);
    AbsentInParts(RootHeading, after, BinaryName);
    AbsentInParts("\n\n```\n", renamedRest, BinaryName);
    var titled := ReplaceFirst(Rename(doc), RootHeading, TitleBlock(description));
    assert titled == TitleBlock(description) + "\n\n```\n" + renamedRest by {
      RetitleAtStart(after, description);
      ConcatAssoc(TitleBlock(description), "\n\n```\n", renamedRest);
    }
    TitledHasNoBinaryName(description, renamedRest);
    TrimLinesKeepsAbsent(titled, BinaryName);
    BreakCannotStraddle(BinaryName);
    ReplaceAllAvoids(TrimLines(titled), BlankRun, "\n", BinaryName);
  }

  /** The printed README of a command tree whose root is `azure-storage-cli`
      opens with the title line, a blank line and the description, trimmed,
      followed by a line break. */
  lemma TitleComesFirst(rest: string, description: string)
    requires '\n' !in description && TrimEnd(description) != []
    ensures StartsWith(PostProcess(RootSectionStart() + rest, description),
                       TitleLine + "\n\n" + TrimEnd(description) + "\n")
  {
    var renamedRest := ReplaceAll(ReplaceAll(rest, BinaryName, Alias), WindowsAlias, Alias);
    var afterHeading := "\n\n```\n" + renamedRest;
    var tail := "\n```\n" + renamedRest;
    var tb := TitleBlock(description);
    var renamed := ReplaceAll(ReplaceAll(RootSectionStart() + rest, BinaryName, Alias), WindowsAlias, Alias);
    assert renamed == RootHeading + afterHeading by {
      RenameRootHeading(rest);
      ConcatAssoc(RootHeading, "\n\n```\n", renamedRest);
    }
    var titled := ReplaceFirst(renamed, RootHeading, tb);
    assert titled == tb + "\n" + tail by {
      RetitleAtStart(afterHeading, description);
      FenceStartsWithBreak(renamedRest);
      ConcatAssoc(tb, "\n", tail);
    }
    var d := TrimEnd(description);
    var trimmed := TrimLines(titled);
    assert trimmed == TitleLine + "\n\n" + d + "\n" + TrimLines(tail) by {
      TrimTitleBlock(description, tail);
    }
    assert '\n' !in d by {
      assert forall c :: c in d ==> c in description;
    }
    TitleLineIsOneCleanLine();
    CollapseKeepsThreeLines(TitleLine, d, TrimLines(tail));
  }

  lemma FenceStartsWithBreak(x: string)
    ensures "\n\n```\n" + x == "\n" + ("\n```\n" + x)
  {
    assert "\n\n```\n" == "\n" + "\n```\n";
    ConcatAssoc("\n", "\n```\n", x);
  }

  lemma TitleLineIsOneCleanLine()
    ensures '\n' !in TitleLine && TrimEnd(TitleLine) == TitleLine
  {
  }
}

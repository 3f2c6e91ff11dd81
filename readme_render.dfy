/** `build_readme`: the recursive walk that turns the command tree into one
    Markdown section per command, in pre-order. */
module ReadmeRender {
  import opened Strings
  import opened CommandTree

  /** The README text for `n` and the subcommands below it, when the path
      above it is `inherited`: the node's own section, then its children's
      texts in declaration order. */
  function Render(n: Node, inherited: seq<string>): (r: string)
    ensures StartsWith(r, Section(DisplayPath(n, inherited), n.help))
    ensures r != []
    decreases n, 0
  {
    var names := DisplayPath(n, inherited);
    Section(names, n.help) + RenderChildren(n.children, names)
  }

  /** The children's texts, each rendered below the same path `names`;
      a child named `readme` contributes nothing. */
  function RenderChildren(cs: seq<Node>, names: seq<string>): (r: string)
    ensures r == [] <==> forall i :: 0 <= i < |cs| ==> cs[i].name == SkippedName
    decreases cs
  {
    if cs == [] then "" else ChildText(cs[0], names) + RenderChildren(cs[1..], names)
  }

  /** What one child adds to its parent's text. */
  function ChildText(c: Node, names: seq<string>): (r: string)
    ensures r == [] <==> c.name == SkippedName
    decreases c, 1
  {
    if c.name == SkippedName then "" else Render(c, names)
  }

  /** Rendering the children one more child at a time, as the loop does. */
  lemma {:induction false} RenderChildrenSnoc(cs: seq<Node>, c: Node, names: seq<string>)
    ensures RenderChildren(cs + [c], names) == RenderChildren(cs, names) + ChildText(c, names)
    decreases |cs|
  {
    if cs == [] {
      assert [c][1..] == [];
    } else {
      assert (cs + [c])[0] == cs[0];
      assert (cs + [c])[1..] == cs[1..] + [c];
      RenderChildrenSnoc(cs[1..], c, names);
      ConcatAssoc(ChildText(cs[0], names), RenderChildren(cs[1..], names), ChildText(c, names));
    }
  }

  /** `build_readme(cmd, names)`: pushes the node's name and positional tokens
      onto the path, writes the heading `#`s one at a time, the display name and
      the fenced help, then appends the text of every subcommand not named
      `readme`, each built from a copy of the path. */
  method BuildReadme(cmd: Node, names: seq<string>) returns (readme: string)
    ensures readme == Render(cmd, names)
    decreases cmd
  {
    readme := "";
    var path := names + [cmd.name];
    for i := 0 to |cmd.positionals|
      invariant path == names + [cmd.name] + PositionalTokens(cmd.positionals[..i])
    {
      assert PositionalTokens(cmd.positionals[..i + 1])
          == PositionalTokens(cmd.positionals[..i]) + [PositionalToken(cmd.positionals[i])];
      path := path + [PositionalToken(cmd.positionals[i])];
    }
    assert cmd.positionals[..|cmd.positionals|] == cmd.positionals;
    var name := Join(path, " ");
    for k := 0 to Min(|path|, MaxHeadingLevel)
      invariant readme == Hashes(k)
    {
      assert Hashes(k + 1) == Hashes(k) + "#";
      readme := readme + "#";
    }
    readme := readme + " " + name + "\n\n```\n" + cmd.help + "\n```\n";
    SectionAsWritten(path, cmd.help);
    for i := 0 to |cmd.children|
      invariant readme == Section(path, cmd.help) + RenderChildren(cmd.children[..i], path)
    {
      var child := cmd.children[i];
      if child.name == SkippedName {
        ChildAppended(Section(path, cmd.help), cmd.children, i, path, "");
        continue;
      }
      var text := BuildReadme(child, path);
      ChildAppended(Section(path, cmd.help), cmd.children, i, path, text);
      readme := readme + text;
    }
    assert cmd.children[..|cmd.children|] == cmd.children;
  }

  /** One turn of the loop over the subcommands: the text so far grows by
      what child `i` adds. */
  lemma ChildAppended(prefix: string, cs: seq<Node>, i: nat, names: seq<string>, text: string)
    requires i < |cs| && text == ChildText(cs[i], names)
    ensures prefix + RenderChildren(cs[..i + 1], names) == prefix + RenderChildren(cs[..i], names) + text
  {
    assert cs[..i + 1] == cs[..i] + [cs[i]];
    RenderChildrenSnoc(cs[..i], cs[i], names);
    ConcatAssoc(prefix, RenderChildren(cs[..i], names), text);
  }

  /** The pieces `build_readme` pushes, in order, make up the section. */
  lemma SectionAsWritten(path: seq<string>, help: string)
    ensures Section(path, help)
         == Hashes(Min(|path|, MaxHeadingLevel)) + " " + Join(path, " ") + "\n\n```\n" + help + "\n```\n"
  {
  }

  // ---------------------------------------------------------------------------
  // Shape of the output

  /** The text for a node starts with its heading: exactly as many `#` as its
      heading level (one to six), then a space. */
  lemma RenderStartsWithHeading(n: Node, inherited: seq<string>)
    ensures var level := Min(|inherited| + 1 + |n.positionals|, MaxHeadingLevel);
      && 1 <= level <= MaxHeadingLevel
      && |Render(n, inherited)| > level
      && Render(n, inherited)[..level] == Hashes(level)
      && Render(n, inherited)[level] == ' '
  {
    var names := DisplayPath(n, inherited);
    var level := HeadingLevel(|names|);
    var sec := Section(names, n.help);
    var r := Render(n, inherited);
    assert r[..|sec|] == sec;
    assert r[..level] == sec[..level];
    assert r[level] == sec[level];
  }

  /** The children that are rendered: every child not named `readme`, in
      declaration order. */
  function Visible(cs: seq<Node>): (vs: seq<Node>)
    ensures forall i :: 0 <= i < |vs| ==> vs[i] in cs && vs[i].name != SkippedName
    ensures forall i :: 0 <= i < |cs| && cs[i].name != SkippedName ==> cs[i] in vs
    decreases |cs|
  {
    if cs == [] then []
    else
      var tail := Visible(cs[1..]);
      assert forall i :: 1 <= i < |cs| ==> cs[i] == cs[1..][i - 1];
      if cs[0].name == SkippedName then tail else [cs[0]] + tail
  }

  /** Each of the given children rendered below `names`, concatenated in order. */
  function RenderEach(cs: seq<Node>, names: seq<string>): string
    decreases cs
  {
    if cs == [] then "" else Render(cs[0], names) + RenderEach(cs[1..], names)
  }

  /** Skipping is only by name: the children's text is exactly one full text
      per child not named `readme`, in declaration order, all below the same
      path; a `readme` child and its whole subtree contribute nothing. */
  lemma {:induction false} RenderChildrenIsVisible(cs: seq<Node>, names: seq<string>)
    ensures RenderChildren(cs, names) == RenderEach(Visible(cs), names)
    decreases |cs|
  {
    if cs != [] {
      RenderChildrenIsVisible(cs[1..], names);
      if cs[0].name != SkippedName {
        assert ([cs[0]] + Visible(cs[1..]))[1..] == Visible(cs[1..]);
      }
    }
  }

  // ---------------------------------------------------------------------------
  // The walk as a list of visits

  /** A node reached by the walk, with the path it inherits. */
  datatype Visit = Visit(node: Node, inherited: seq<string>)

  /** The nodes `build_readme` writes a section for, in the order it writes them. */
  function Walk(n: Node, inherited: seq<string>): (vs: seq<Visit>)
    ensures |vs| >= 1 && vs[0] == Visit(n, inherited)
    decreases n
  {
    [Visit(n, inherited)] + WalkChildren(n.children, DisplayPath(n, inherited))
  }

  function WalkChildren(cs: seq<Node>, names: seq<string>): seq<Visit>
    decreases cs
  {
    if cs == [] then []
    else (if cs[0].name == SkippedName then [] else Walk(cs[0], names))
         + WalkChildren(cs[1..], names)
  }

  /** The sections of a list of visits, one after the other. */
  function Sections(vs: seq<Visit>): string
    decreases |vs|
  {
    if vs == [] then ""
    else Section(DisplayPath(vs[0].node, vs[0].inherited), vs[0].node.help) + Sections(vs[1..])
  }

  lemma {:induction false} SectionsAppend(a: seq<Visit>, b: seq<Visit>)
    ensures Sections(a + b) == Sections(a) + Sections(b)
    decreases |a|
  {
    if a == [] {
      assert a + b == b;
    } else {
      assert (a + b)[0] == a[0];
      assert (a + b)[1..] == a[1..] + b;
      SectionsAppend(a[1..], b);
      var v := a[0];
      ConcatAssoc(Section(DisplayPath(v.node, v.inherited), v.node.help), Sections(a[1..]), Sections(b));
    }
  }

  /** The README is the walk's sections in pre-order: a node's section comes
      first, then its subtrees, each exactly once. */
  lemma {:induction false} RenderIsWalk(n: Node, inherited: seq<string>)
    ensures Render(n, inherited) == Sections(Walk(n, inherited))
    decreases n
  {
    var names := DisplayPath(n, inherited);
    RenderChildrenIsWalk(n.children, names);
    var rest := WalkChildren(n.children, names);
    assert ([Visit(n, inherited)] + rest)[1..] == rest;
  }

  lemma {:induction false} RenderChildrenIsWalk(cs: seq<Node>, names: seq<string>)
    ensures RenderChildren(cs, names) == Sections(WalkChildren(cs, names))
    decreases cs
  {
    if cs != [] {
      RenderChildrenIsWalk(cs[1..], names);
      if cs[0].name == SkippedName {
        assert WalkChildren(cs, names) == WalkChildren(cs[1..], names);
      } else {
        RenderIsWalk(cs[0], names);
        SectionsAppend(Walk(cs[0], names), WalkChildren(cs[1..], names));
      }
    }
  }

  /** Everything the walk visits below a node: no visited node is named
      `readme`, and every one inherits a path that starts with the node's
      whole display path. */
  lemma {:induction false} WalkChildrenShape(cs: seq<Node>, names: seq<string>)
    ensures forall v :: v in WalkChildren(cs, names) ==>
              v.node.name != SkippedName && names <= v.inherited
    decreases cs
  {
    if cs != [] {
      WalkChildrenShape(cs[1..], names);
      if cs[0].name != SkippedName {
        WalkShape(cs[0], names);
      }
    }
  }

  /** The walk from `n`: `n` itself comes first, whatever its name; every later
      visit is a node not named `readme` whose inherited path extends `n`'s
      display path, so its heading level is at least `n`'s. */
  lemma {:induction false} WalkShape(n: Node, inherited: seq<string>)
    ensures Walk(n, inherited)[0] == Visit(n, inherited)
    ensures forall v :: v in Walk(n, inherited) ==> inherited <= v.inherited
    ensures forall k :: 0 < k < |Walk(n, inherited)| ==>
              && Walk(n, inherited)[k].node.name != SkippedName
              && DisplayPath(n, inherited) <= Walk(n, inherited)[k].inherited
              && HeadingLevel(|DisplayPath(n, inherited)|)
                 <= HeadingLevel(|DisplayPath(Walk(n, inherited)[k].node, Walk(n, inherited)[k].inherited)|)
    decreases n
  {
    var names := DisplayPath(n, inherited);
    var rest := WalkChildren(n.children, names);
    WalkChildrenShape(n.children, names);
    var vs := Walk(n, inherited);
    assert forall k :: 0 < k < |vs| ==> vs[k] == rest[k - 1];
    assert inherited <= names;
  }

  /** Every child not named `readme` is visited, with its parent's display
      path as its inherited path (siblings inherit identical paths), and so is
      everything its own walk visits. */
  lemma {:induction false} ChildVisited(n: Node, inherited: seq<string>, i: nat)
    requires i < |n.children| && n.children[i].name != SkippedName
    ensures Visit(n.children[i], DisplayPath(n, inherited)) in Walk(n, inherited)
    ensures forall v :: v in Walk(n.children[i], DisplayPath(n, inherited)) ==> v in Walk(n, inherited)
  {
    ChildWalkInWalkChildren(n.children, DisplayPath(n, inherited), i);
  }

  lemma {:induction false} ChildWalkInWalkChildren(cs: seq<Node>, names: seq<string>, i: nat)
    requires i < |cs| && cs[i].name != SkippedName
    ensures forall v :: v in Walk(cs[i], names) ==> v in WalkChildren(cs, names)
    decreases i
  {
    if i > 0 {
      ChildWalkInWalkChildren(cs[1..], names, i - 1);
    }
  }

  /** A grandchild reached through two children not named `readme` is visited
      below its parent's display path. */
  lemma GrandchildVisited(n: Node, inherited: seq<string>, i: nat, j: nat)
    requires i < |n.children| && n.children[i].name != SkippedName
    requires j < |n.children[i].children| && n.children[i].children[j].name != SkippedName
    ensures var c := n.children[i];
            Visit(c.children[j], DisplayPath(c, DisplayPath(n, inherited))) in Walk(n, inherited)
  {
    var c := n.children[i];
    ChildVisited(n, inherited, i);
    ChildVisited(c, DisplayPath(n, inherited), j);
  }
}

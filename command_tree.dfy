/** The clap command tree as the README builder sees it, and the naming and
    heading rules it applies to one node. */
module CommandTree {
  import opened Strings

  /** One clap `Command`: its name, the ids of its positional arguments in
      declaration order, its long help text (rendered by clap, opaque here)
      and its subcommands in declaration order. */
  datatype Node = Node(name: string, positionals: seq<string>, help: string, children: seq<Node>)

  /** Subcommands with this name are not rendered. */
  const SkippedName: string := "readme"

  /** GitHub and crates.io show at most six heading levels. */
  const MaxHeadingLevel: nat := 6

  /** The smaller of two integers. */
  function Min(a: int, b: int): (m: int)
    ensures m <= a && m <= b && (m == a || m == b)
  {
    if a < b then a else b
  }

  /** The display token of a positional argument: `<ID>` with the id
      upper-cased. */
  function PositionalToken(id: string): (t: string)
    ensures |t| == |id| + 2 && t[0] == '<' && t[|t| - 1] == '>'
    ensures t[1..|t| - 1] == ToUpper(id)
  {
    "<" + ToUpper(id) + ">"
  }

  function PositionalTokens(ids: seq<string>): (ts: seq<string>)
    ensures |ts| == |ids|
    ensures forall i :: 0 <= i < |ids| ==> ts[i] == PositionalToken(ids[i])
  {
    seq(|ids|, i requires 0 <= i < |ids| => PositionalToken(ids[i]))
  }

  /** The words pushed onto `names` for node `n` below the path `inherited`:
      the inherited words, the node's name, then one token per positional. */
  function DisplayPath(n: Node, inherited: seq<string>): (names: seq<string>)
    ensures |names| == |inherited| + 1 + |n.positionals|
    ensures names[..|inherited|] == inherited && names[|inherited|] == n.name
    ensures forall i :: 0 <= i < |n.positionals| ==>
              names[|inherited| + 1 + i] == PositionalToken(n.positionals[i])
  {
    inherited + [n.name] + PositionalTokens(n.positionals)
  }

  /** Number of `#` in the heading of a section whose path has `depth` words. */
  function HeadingLevel(depth: nat): (level: nat)
    ensures level <= MaxHeadingLevel && level <= depth
    ensures level == depth || level == MaxHeadingLevel
  {
    Min(depth, MaxHeadingLevel)
  }

  function Hashes(k: nat): (h: string)
    ensures |h| == k && forall i :: 0 <= i < k ==> h[i] == '#'
  {
    seq(k, _ => '#')
  }

  /** One section of the README: heading, display name, fenced help text. */
  function Section(names: seq<string>, help: string): (sec: string)
    ensures var level := HeadingLevel(|names|);
      |sec| > level && sec[..level] == Hashes(level) && sec[level] == ' '
    ensures |sec| >= 4 && sec[|sec| - 4..] == "```\n"
  {
    Hashes(HeadingLevel(|names|)) + " " + Join(names, " ") + "\n\n```\n" + help + "\n```\n"
  }

  /** Every node's heading has between one and six `#`: the count is the
      length of its display path, capped at six, and it is six for every node
      whose inherited path already has five or more words. */
  lemma NodeHeadingLevel(n: Node, inherited: seq<string>)
    ensures var level := HeadingLevel(|DisplayPath(n, inherited)|);
      && 1 <= level <= MaxHeadingLevel
      && level == Min(|inherited| + 1 + |n.positionals|, MaxHeadingLevel)
      && (|inherited| + 1 >= MaxHeadingLevel ==> level == MaxHeadingLevel)
  {
  }

  /** The display name of a node extends the display name of the path it
      inherits by one space and its own words. */
  lemma DisplayNameExtends(n: Node, inherited: seq<string>)
    requires inherited != []
    ensures Join(DisplayPath(n, inherited), " ")
         == Join(inherited, " ") + " " + Join([n.name] + PositionalTokens(n.positionals), " ")
  {
    assert DisplayPath(n, inherited) == inherited + ([n.name] + PositionalTokens(n.positionals));
    JoinAppend(inherited, [n.name] + PositionalTokens(n.positionals), " ");
  }

  /** The path below a one-word path and a command with one positional. */
  lemma DisplayPathOnePositional(word: string, name: string, id: string, help: string, children: seq<Node>)
    ensures DisplayPath(Node(name, [id], help, children), [word]) == [word, name, PositionalToken(id)]
  {
    var p := DisplayPath(Node(name, [id], help, children), [word]);
    assert |p| == 3 && p[0] == word && p[1] == name && p[2] == PositionalToken(id);
  }
}

/** `main`: the parsed invocation, the choice of storage credential, and the
    choice of service client (or README rendering) per subcommand family. */
module Cli {
  import opened Strings
  import opened CommandTree
  import opened ReadmeRender
  import opened ReadmePostProcess

  datatype Option<T> = None | Some(value: T)

  /** `StorageCredentials` as `main` builds it: a shared access key bound to the
      account, or a token credential from the default Azure credential chain. */
  datatype Credential = AccessKey(account: string, key: string) | TokenCredential

  /** The access key given on the command line or in `STORAGE_ACCESS_KEY`
      selects key authentication; without one, the token credential is used. */
  function SelectCredential(account: string, accessKey: Option<string>): (c: Credential)
    ensures c.AccessKey? <==> accessKey.Some?
    ensures c.AccessKey? ==> c.account == account && c.key == accessKey.value
  {
    match accessKey
    case Some(key) => AccessKey(account, key)
    case None => TokenCredential
  }

  /** The key a credential carries, if any. */
  function SuppliedKey(c: Credential): Option<string> {
    match c
    case AccessKey(_, key) => Some(key)
    case TokenCredential => None
  }

  /** The credential keeps exactly the key that was supplied, and is bound to
      the account named on the command line. */
  lemma {:induction false} SelectCredentialRoundTrip(account: string, accessKey: Option<string>)
    ensures SuppliedKey(SelectCredential(account, accessKey)) == accessKey
    ensures SelectCredential(account, accessKey).AccessKey? ==>
              SelectCredential(account, accessKey).account == account
  {
    match accessKey
    case Some(_) =>
    case None =>
  }

  /** One leaf operation of a family (its subcommand enums live in modules
      that are not part of this model). */
  datatype Operation = Operation(name: string, args: seq<string>)

  /** `SubCommands`: one variant per family, and the hidden `readme`. */
  datatype SubCommand =
    | Account(op: Operation)
    | Container(op: Operation, containerName: string)
    | Queues(op: Operation)
    | Datalake(op: Operation)
    | Tables(op: Operation)
    | Readme

  /** The parsed `Args`. */
  datatype Invocation = Invocation(account: string, accessKey: Option<string>, subcommand: SubCommand)

  datatype ServiceKind = BlobService | QueueService | DataLakeService | TableService

  /** A constructed client: which service, for which account, with which
      credential, and, for a container client, which container. */
  datatype Client = Client(kind: ServiceKind, account: string, credential: Credential, container: Option<string>)

  datatype Family = AccountFamily | ContainerFamily | QueuesFamily | DatalakeFamily | TablesFamily

  /** What `main` does after parsing: print the README, or hand a client and
      the operation to the family's command handler. */
  datatype Action = PrintReadme(text: string) | Forward(family: Family, client: Client, op: Operation)

  /** The credential `main` builds (before it looks at the subcommand) and
      what it then does. */
  datatype Outcome = Outcome(credential: Credential, action: Action)

  /** `main` after `Args::parse()`. `tree` is `Args::command()` and
      `description` the package description. */
  function Run(inv: Invocation, tree: Node, description: string): (o: Outcome)
    ensures o.credential == SelectCredential(inv.account, inv.accessKey)
    ensures o.action.PrintReadme? <==> inv.subcommand.Readme?
    ensures o.action.PrintReadme? ==> o.action.text == PostProcess(Render(tree, []), description)
    ensures o.action.Forward? ==>
              && o.action.op == inv.subcommand.op
              && o.action.client.account == inv.account
              && o.action.client.credential == o.credential
              && (o.action.client.container.Some? <==> inv.subcommand.Container?)
              && (inv.subcommand.Container? ==> o.action.client.container.value == inv.subcommand.containerName)
  {
    var credential := SelectCredential(inv.account, inv.accessKey);
    var action := match inv.subcommand
      case Readme =>
        PrintReadme(PostProcess(Render(tree, []), description))
      case Account(op) =>
        Forward(AccountFamily, Client(BlobService, inv.account, credential, None), op)
      case Container(op, containerName) =>
        Forward(ContainerFamily, Client(BlobService, inv.account, credential, Some(containerName)), op)
      case Queues(op) =>
        Forward(QueuesFamily, Client(QueueService, inv.account, credential, None), op)
      case Datalake(op) =>
        Forward(DatalakeFamily, Client(DataLakeService, inv.account, credential, None), op)
      case Tables(op) =>
        Forward(TablesFamily, Client(TableService, inv.account, credential, None), op);
    Outcome(credential, action)
  }

  /** The service each family's client talks to. */
  function ServiceOf(f: Family): ServiceKind {
    match f
    case AccountFamily => BlobService
    case ContainerFamily => BlobService
    case QueuesFamily => QueueService
    case DatalakeFamily => DataLakeService
    case TablesFamily => TableService
  }

  /** The family a (non-`readme`) subcommand belongs to. */
  function FamilyOf(sc: SubCommand): Family
    requires !sc.Readme?
  {
    match sc
    case Account(_) => AccountFamily
    case Container(_, _) => ContainerFamily
    case Queues(_) => QueuesFamily
    case Datalake(_) => DatalakeFamily
    case Tables(_) => TablesFamily
  }

  /** Every family subcommand is forwarded to its own handler with a client of
      that family's service: `account` and `container` both get a blob service
      client, only `container`'s scoped to the named container. */
  lemma RunPicksFamilyClient(inv: Invocation, tree: Node, description: string)
    requires !inv.subcommand.Readme?
    ensures var a := Run(inv, tree, description).action;
      && a.Forward?
      && a.family == FamilyOf(inv.subcommand)
      && a.client.kind == ServiceOf(a.family)
  {
  }

  /** The credential does not depend on the subcommand, `readme` included. */
  lemma CredentialIndependentOfSubcommand(account: string, accessKey: Option<string>,
                                          s1: SubCommand, s2: SubCommand, tree: Node, description: string)
    ensures Run(Invocation(account, accessKey, s1), tree, description).credential
         == Run(Invocation(account, accessKey, s2), tree, description).credential
  {
  }

  /** The README is the same whatever account and access key are given: no
      secret reaches the printed text. */
  lemma ReadmeIgnoresCredentials(a1: string, k1: Option<string>, a2: string, k2: Option<string>,
                                 tree: Node, description: string)
    ensures Run(Invocation(a1, k1, Readme), tree, description).action
         == Run(Invocation(a2, k2, Readme), tree, description).action
  {
  }

  /** An `account` and a `container` invocation with the same account and key
      build the same blob service client; the container one narrows it to the
      named container. */
  lemma ContainerNarrowsAccountClient(account: string, accessKey: Option<string>, op1: Operation,
                                      op2: Operation, containerName: string, tree: Node, description: string)
    ensures var c1 := Run(Invocation(account, accessKey, Account(op1)), tree, description).action.client;
            var c2 := Run(Invocation(account, accessKey, Container(op2, containerName)), tree, description).action.client;
            c2 == c1.(container := Some(containerName))
  {
  }

  /** `--account acct1 --access-key K container c1 exists`: key
      authentication for `acct1`, a blob client narrowed to `c1`, and the
      `exists` operation forwarded; nothing is rendered. */
  lemma ContainerExistsScenario(key: string, tree: Node, description: string)
    ensures Run(Invocation("acct1", Some(key), Container(Operation("exists", []), "c1")), tree, description)
         == Outcome(AccessKey("acct1", key),
                    Forward(ContainerFamily,
                            Client(BlobService, "acct1", AccessKey("acct1", key), Some("c1")),
                            Operation("exists", [])))
  {
  }

  // ---------------------------------------------------------------------------
  // The command tree clap derives from `Args`

  /** Help text and subcommands clap gives one family; they come from the
      family modules, which are not part of this model. */
  datatype FamilyDoc = FamilyDoc(help: string, children: seq<Node>)

  /** Long help of every command clap builds from `Args`, with the families'
      subtrees. */
  datatype ClapDocs = ClapDocs(
    rootHelp: string,
    account: FamilyDoc, container: FamilyDoc, queues: FamilyDoc,
    datalake: FamilyDoc, tables: FamilyDoc,
    readmeHelp: string)

  const ContainerNameId: string := "container_name"

  /** The `container` family: it takes the container's name as a positional
      before its operation. */
  function ContainerCommand(doc: FamilyDoc): (c: Node)
    ensures c.name == "container" && c.children == doc.children
    ensures c.positionals == [ContainerNameId]
  {
    Node("container", [ContainerNameId], doc.help, doc.children)
  }

  /** `Args::command()`: the binary, no positionals of its own (`--account`
      and `--access-key` are options), and the `SubCommands` variants in
      declaration order; `container` takes the `container_name` positional. */
  function ArgsCommand(docs: ClapDocs): (root: Node)
    ensures root.name == BinaryName && root.positionals == [] && |root.children| == 6
    ensures forall i :: 0 <= i < 5 ==> root.children[i].name != SkippedName
    ensures root.children[5].name == SkippedName
  {
    Node(BinaryName, [], docs.rootHelp, [
      Node("account", [], docs.account.help, docs.account.children),
      ContainerCommand(docs.container),
      Node("queues", [], docs.queues.help, docs.queues.children),
      Node("datalake", [], docs.datalake.help, docs.datalake.children),
      Node("tables", [], docs.tables.help, docs.tables.children),
      Node(SkippedName, [], docs.readmeHelp, [])
    ])
  }

  /** The README of `Args::command()` has a section for each of the five
      families and none for `readme`. */
  lemma ArgsFamiliesRendered(docs: ClapDocs)
    ensures forall i :: 0 <= i < 5 ==>
              Visit(ArgsCommand(docs).children[i], [BinaryName]) in Walk(ArgsCommand(docs), [])
    ensures forall v :: v in Walk(ArgsCommand(docs), []) ==> v.node.name != SkippedName
  {
    var root := ArgsCommand(docs);
    assert DisplayPath(root, []) == [BinaryName];
    forall i | 0 <= i < 5
      ensures Visit(root.children[i], [BinaryName]) in Walk(root, [])
    {
      ChildVisited(root, [], i);
    }
    WalkShape(root, []);
    forall v | v in Walk(root, []) ensures v.node.name != SkippedName {
      var k :| 0 <= k < |Walk(root, [])| && Walk(root, [])[k] == v;
      if k == 0 {
        assert v.node == root;
      }
    }
  }

  /** The operations under `container <CONTAINER_NAME>` (the token of the
      `container_name` positional) are one level deeper
      than under the other families: each gets four `#` plus one per
      positional of its own, up to six. */
  lemma ContainerOperationsHeading(docs: ClapDocs, i: nat)
    requires i < |docs.container.children| && docs.container.children[i].name != SkippedName
    ensures var c := docs.container.children[i];
            var inherited := [BinaryName, "container", PositionalToken(ContainerNameId)];
            && Visit(c, inherited) in Walk(ArgsCommand(docs), [])
            && HeadingLevel(|DisplayPath(c, inherited)|) == Min(4 + |c.positionals|, MaxHeadingLevel)
  {
    ArgsRootPath(docs);
    ContainerPath(BinaryName, docs.container);
    GrandchildVisited(ArgsCommand(docs), [], 1, i);
  }

  /** The root's path is the binary name alone, and `container` is its
      second subcommand. */
  lemma ArgsRootPath(docs: ClapDocs)
    ensures DisplayPath(ArgsCommand(docs), []) == [BinaryName]
    ensures ArgsCommand(docs).children[1] == ContainerCommand(docs.container)
  {
  }

  /** Below a one-word path, `container`'s subcommands inherit the path word,
      `container` and the `<CONTAINER_NAME>` token. */
  lemma ContainerPath(word: string, doc: FamilyDoc)
    ensures DisplayPath(ContainerCommand(doc), [word]) == [word, "container", PositionalToken(ContainerNameId)]
  {
    DisplayPathOnePositional(word, "container", ContainerNameId, doc.help, doc.children);
  }

  /** The printed README of `Args::command()` opens with the title and the
      description line. */
  lemma ArgsReadmeTitle(docs: ClapDocs, account: string, accessKey: Option<string>, description: string)
    requires '\n' !in description && TrimEnd(description) != []
    ensures var o := Run(Invocation(account, accessKey, Readme), ArgsCommand(docs), description);
            && o.action.PrintReadme?
            && StartsWith(o.action.text, TitleLine + "\n\n" + TrimEnd(description) + "\n")
  {
    var root := ArgsCommand(docs);
    var names := DisplayPath(root, []);
    assert names == [BinaryName];
    var rest := docs.rootHelp + "\n```\n" + RenderChildren(root.children, names);
    assert Render(root, []) == RootSectionStart() + rest by {
      RootSection(docs.rootHelp, RenderChildren(root.children, names));
    }
    TitleComesFirst(rest, description);
  }

  /** The printed README of `Args::command()` never names the binary
      `azure-storage-cli`, although every section heading of the rendered
      tree starts with it, as long as the package description does not. */
  lemma ArgsReadmeNeverNamesBinary(docs: ClapDocs, account: string, accessKey: Option<string>,
                                   description: string)
    requires Absent(description, BinaryName)
    ensures var o := Run(Invocation(account, accessKey, Readme), ArgsCommand(docs), description);
            && o.action.PrintReadme?
            && Absent(o.action.text, BinaryName)
  {
    var root := ArgsCommand(docs);
    var names := DisplayPath(root, []);
    assert names == [BinaryName];
    var rest := docs.rootHelp + "\n```\n" + RenderChildren(root.children, names);
    assert Render(root, []) == RootSectionStart() + rest by {
      RootSection(docs.rootHelp, RenderChildren(root.children, names));
    }
    ReadmeNeverNamesBinary(rest, description);
  }

  lemma RootSection(help: string, children: string)
    ensures Section([BinaryName], help) + children == RootSectionStart() + (help + "\n```\n" + children)
  {
    assert Hashes(HeadingLevel(1)) == "#";
    assert Join([BinaryName], " ") == BinaryName;
  }
}

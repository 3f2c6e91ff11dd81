# Azure Storage CLI (`azs`): README generation and command dispatch

This project models the core of `azs`, a command-line client for Azure Storage,
in Dafny. The model covers `src/main.rs`:

- **`build_readme`** walks clap's command tree in pre-order. For every command
  it writes one Markdown section: a heading of `min(path length, 6)` `#`s, then
  the display path, where each positional shows as `<ID>` upper-cased. After
  that comes the long help, fenced. Subcommands named `readme` are skipped.
  The model has the recursive specification `ReadmeRender.Render` and the
  imperative `ReadmeRender.BuildReadme`, which has the source's three loops and
  is proved equal to it.
- **The `readme` post-processing chain**:
  - the binary name `azure-storage-cli` and then `azs.exe` become `azs`;
  - the first `# azs` becomes the title `# Azure Storage CLI`, a blank line
    and the package description;
  - every line has its trailing whitespace trimmed;
  - one pass of `"\n\n\n"` → `"\n"`.
  
  The Rust string operations involved (`replace`, `replacen`, `lines`,
  `trim_end`, `join`, ASCII `to_uppercase`) are defined in module `Strings`.
- **Credential selection and dispatch in `main`**:
  - an access key selects key authentication for the account, otherwise the
    token credential is used;
  - `account` and `container` get a blob service client, and only
    `container`'s is narrowed to the named container;
  - `queues`, `datalake` and `tables` each get their own service's client;
  - `readme` prints the processed README and builds no client.
- **The command tree clap derives from `Args`** (`Cli.ArgsCommand`): the
  binary, then the subcommands in declaration order. `container` takes the
  `container_name` positional, and `readme` is hidden.

Files:
- `strings.dfy`: the Rust string operations.
- `command_tree.dfy`: the command node and the naming and heading rules.
- `readme_render.dfy`: `build_readme` and the shape of its output.
- `post_process.dfy`: the README rewrite chain.
- `cli.dfy`: credentials, dispatch and the `Args` tree.

## Model

| member | source | states |
|---|---|---|
| Strings.ReplaceAll | src/main.rs:144-145 | `str::replace`. A text with no occurrence comes back unchanged. A replacement no longer than the pattern never lengthens the text. |
| Strings.ReplaceAllAtFirst | src/main.rs:144-145 | The left-to-right scan: the text before the first occurrence is copied, that occurrence is replaced, and the scan resumes after it, so matches never overlap. Together with `ReplaceAll`'s contract this determines the result. |
| Strings.ReplaceAllAvoids | src/main.rs:144-145 | A replacement that no occurrence of `p` can straddle leaves no `p` in the result. With `p` the pattern itself, every occurrence is gone. With another `p` absent from the input, none is formed. |
| Strings.AbsentFromLines | src/main.rs:151 | No line of a text contains a pattern the text does not contain. |
| Strings.AbsentFromJoin | src/main.rs:154 | Joining lines at line breaks forms no occurrence of a pattern without line breaks. |
| Strings.ReplaceAllSkipPrefix | src/main.rs:144-145 | A prefix that holds no pattern's first character passes through unchanged, and the replacement continues after it. |
| Strings.ReplaceAllAround | src/main.rs:144-145 | A match between two stretches that cannot start a match is replaced. The stretches are kept, and the rest is processed independently. |
| Strings.ReplaceAllKeepsHead | src/main.rs:155 | When no match starts at the first character, or the replacement starts with that character, the result starts with it. |
| Strings.FindFirst | src/main.rs:146-150 | The first-match index: an occurrence at that index and none before it, or the length when there is none. |
| Strings.ReplaceFirst | src/main.rs:146-150 | `replacen(_, _, 1)`. With no occurrence the text is unchanged. Otherwise it is the text before the first occurrence, then the replacement, then the text after it. |
| Strings.TrimEnd | src/main.rs:152 | `trim_end` keeps a prefix. Everything removed is whitespace, and the kept part is empty or does not end in whitespace. |
| Strings.TrimEndIdempotent | src/main.rs:152 | Trimming twice is the same as trimming once. |
| Strings.Lines | src/main.rs:151 | `lines()`: no line holds a line break, and there are no lines exactly when the text is empty. |
| Strings.LinesJoinRoundTrip | src/main.rs:151-154 | For text without `'\r'`, joining the lines with `"\n"` and adding back a final line break if there was one gives back the text. |
| Strings.Split | src/main.rs:154 | Splitting at a separator gives at least one part, and no part contains the separator. |
| Strings.SplitJoin | src/main.rs:154 | Splitting `join("\n")` of one or more lines that hold no line break gives back the lines. |
| Strings.Join | src/main.rs:104 | `join`: the parts with the separator between neighbours. Its length is the parts' lengths plus one separator per gap, it starts with the first part, and no parts give the empty string. |
| Strings.IsWhitespace | src/main.rs:152 | `char::is_whitespace`, the Unicode `White_Space` set that `trim_end` strips. On ASCII it is exactly space and tab to carriage return. It never holds for `#`, a backquote or a lower-case letter. |
| Strings.JoinAppend | src/main.rs:104 | Joining two non-empty word lists equals joining each and gluing them with the separator. |
| Strings.ToUpper | src/main.rs:101 | `to_uppercase` keeps the length and upper-cases position by position. No lower-case letter remains. |
| Strings.ToUpperIdempotent | src/main.rs:101 | Upper-casing twice is the same as upper-casing once. |
| CommandTree.PositionalToken | src/main.rs:101 | The token is `<`, the upper-cased id, `>`: two characters longer than the id. |
| CommandTree.PositionalTokens | src/main.rs:100-102 | One token per positional, in declaration order. |
| CommandTree.DisplayPath | src/main.rs:95-102 | The path is the inherited words, then the command's name, then one token per positional. |
| CommandTree.HeadingLevel | src/main.rs:106-110 | The heading level is the path length capped at six. |
| CommandTree.Hashes | src/main.rs:108-110 | Exactly `k` characters, all `#`. |
| CommandTree.Section | src/main.rs:106-115 | One section: the heading's `#`s, a space, the joined display name, a blank line and the help inside a code fence. It starts with exactly the heading level in `#`s and a space, and ends with the closing fence and a line break. |
| CommandTree.NodeHeadingLevel | src/main.rs:106-110 | Every heading has between one and six `#`, namely `min(inherited + 1 + positionals, 6)`. It is always six once the inherited path has five words. |
| CommandTree.DisplayNameExtends | src/main.rs:104 | A child's display name is the parent's path joined, a space, then its own words. |
| ReadmeRender.Render | src/main.rs:93-124 | `build_readme`'s result: the command's section, then its children's text. It is never empty and starts with that section. |
| ReadmeRender.RenderChildren | src/main.rs:117-122 | The children's texts one after the other. They are empty exactly when every child is named `readme`. |
| ReadmeRender.ChildText | src/main.rs:117-122 | A child named `readme` contributes nothing; any other child contributes its full, non-empty text. |
| ReadmeRender.BuildReadme | src/main.rs:93-124 | The imperative walk (push name and tokens, emit the hashes, the name and the fenced help, then recurse into every child not named `readme`) returns exactly `Render`. |
| ReadmeRender.RenderStartsWithHeading | src/main.rs:106-115 | Every command's text begins with its heading level in `#`s, followed by a space. |
| ReadmeRender.Visible | src/main.rs:117-120 | Only children not named `readme` are kept, and all of them are. |
| ReadmeRender.RenderChildrenIsVisible | src/main.rs:117-122 | The children's text is the full text of each child not named `readme`, in declaration order. A `readme` child and its whole subtree add nothing. |
| ReadmeRender.Walk | src/main.rs:93-124 | The walk visits the command first, with its own inherited path. |
| ReadmeRender.RenderIsWalk | src/main.rs:93-124 | The README is the sections of the pre-order walk, one after the other. |
| ReadmeRender.WalkShape | src/main.rs:117-122 | Every visit after the first is a command not named `readme`. Its inherited path extends the start's display path, so its heading level is at least the start's. |
| ReadmeRender.ChildVisited | src/main.rs:117-122 | Every child not named `readme` is visited below its parent's path, and so is its whole subtree. Siblings inherit the same path. |
| ReadmeRender.GrandchildVisited | src/main.rs:117-122 | A grandchild reached through two children not named `readme` is visited below its parent's path. |
| ReadmePostProcess.TrimAll | src/main.rs:152 | One trimmed line per line, in order. |
| ReadmePostProcess.CollapseBlankLines | src/main.rs:155 | The collapse never lengthens the text and adds no trailing whitespace to text whose lines are clean. Text without line breaks is unchanged. |
| ReadmePostProcess.CollapseKeepsClean | src/main.rs:155 | Replacing `"\n\n\n"` by `"\n"` keeps every line free of trailing whitespace. |
| ReadmePostProcess.CollapseIsSinglePass | src/main.rs:155 | It is one pass, not a fixed point: five line breaks in a row become three. |
| ReadmePostProcess.TrimLinesSpec | src/main.rs:151-154 | After trimming, no line ends in whitespace. For non-empty text, splitting the result at line breaks gives the trimmed lines, so the line count is kept. |
| ReadmePostProcess.PostProcess | src/main.rs:143-155 | The whole chain: rename, retitle the first `# azs`, trim each line and rejoin, collapse `"\n\n\n"` once. No line of the result ends in whitespace, whatever the tree and description. |
| ReadmePostProcess.Rename | src/main.rs:144-145 | `azure-storage-cli`, then `azs.exe`, becomes `azs` everywhere. A text holding neither is returned unchanged. |
| ReadmePostProcess.TitleBlock | src/main.rs:148 | The replacement for the root heading: `# Azure Storage CLI`, two line breaks, then the description, and nothing else. |
| ReadmePostProcess.TrimLines | src/main.rs:151-154 | `lines()`, `trim_end` on each, `join("\n")`. A text without line breaks is just trimmed at its end. |
| ReadmePostProcess.RenameLeavesNoBinaryName | src/main.rs:144-145 | After the two renames no `azure-storage-cli` is left anywhere in the text. |
| ReadmePostProcess.TrimLinesKeepsAbsent | src/main.rs:151-154 | Trimming the lines forms no occurrence of a pattern without line breaks. |
| ReadmePostProcess.ReadmeNeverNamesBinary | src/main.rs:143-155 | The printed README of a tree rooted at `azure-storage-cli` contains that name nowhere, whenever the description does not contain it. |
| ReadmePostProcess.RenameRootHeading | src/main.rs:144-145 | The two renames turn the root heading `# azure-storage-cli` into `# azs`. They keep the fence after it and rename the rest independently. |
| ReadmePostProcess.RetitleAtStart | src/main.rs:146-150 | A text starting with `# azs` gets the title block in place of that first heading, and the rest is kept. |
| ReadmePostProcess.TrimTitleBlock | src/main.rs:151-154 | Trimming keeps the title line and blank line. It trims the one-line description and trims the rest line by line. |
| ReadmePostProcess.CollapseKeepsThreeLines | src/main.rs:155 | The collapse leaves a first line, its blank line and a non-empty third line untouched. |
| ReadmePostProcess.TitleComesFirst | src/main.rs:143-155 | For a one-line, non-blank description, the README of a tree rooted at `azure-storage-cli` starts with `# Azure Storage CLI`, a blank line, the trimmed description and a line break. |
| Cli.SelectCredential | src/main.rs:135-138 | Key authentication is chosen exactly when a key is given, bound to the account and that key. Otherwise the token credential is used. |
| Cli.SelectCredentialRoundTrip | src/main.rs:135-138 | The credential carries exactly the key supplied, or none. |
| Cli.Run | src/main.rs:135-182 | The credential is selected before the match. The README is printed exactly for `readme`, as the processed rendering of the tree. Any other subcommand forwards its operation with a client for the given account and that credential, narrowed to a container exactly for `container` and to the named container. |
| Cli.RunPicksFamilyClient | src/main.rs:158-181 | Each family is forwarded to its own handler with a client of its service: blob for `account` and `container`, then queue, data lake and table. |
| Cli.CredentialIndependentOfSubcommand | src/main.rs:135-140 | The credential does not depend on the subcommand. |
| Cli.ReadmeIgnoresCredentials | src/main.rs:141-157 | The printed README is the same for every account and key. |
| Cli.ContainerNarrowsAccountClient | src/main.rs:158-168 | With the same account and key, the `container` client is the `account` client narrowed to the named container. |
| Cli.ContainerExistsScenario | src/main.rs:162-168 | `--account acct1 --access-key K container c1 exists` uses key authentication for `acct1` and a blob client for container `c1`, and forwards `exists`. |
| Cli.ContainerCommand | src/main.rs:66-73 | The `container` command is named `container`, takes the one positional `container_name` (so its operations sit one heading level deeper) and keeps its family's subcommands. |
| Cli.ArgsCommand | src/main.rs:36-91 | `Args::command()` is rooted at the binary name with no positionals and six subcommands. The first five are not named `readme`; the sixth is. |
| Cli.ArgsFamiliesRendered | src/main.rs:117-122 | The README of `Args::command()` has a section for each of the five families and none for `readme`. |
| Cli.ArgsRootPath | src/main.rs:95-97 | The root's path is the binary name alone, and `container` is its second subcommand. |
| Cli.ContainerPath | src/main.rs:100-102 | Below a one-word path, `container`'s subcommands inherit that word, `container` and the `<CONTAINER_NAME>` token. |
| Cli.ContainerOperationsHeading | src/main.rs:106-110 | Every operation under `container <CONTAINER_NAME>` that is not named `readme` is visited. Its heading level is `min(4 + its positionals, 6)`. |
| Cli.ArgsReadmeNeverNamesBinary | src/main.rs:141-156 | The printed README of `Args::command()` never contains `azure-storage-cli`, whenever the description does not. |
| Cli.ArgsReadmeTitle | src/main.rs:141-156 | For a one-line, non-blank description, the printed README of `Args::command()` opens with the title line, a blank line and the trimmed description. |

## Left out

- **Argument parsing**: clap's parsing of `Args`, the `STORAGE_ACCOUNT` and `STORAGE_ACCESS_KEY` environment variables and their hiding are not modelled. `Cli.Invocation` is the already-parsed result.
- **Help text**: `render_long_help` is clap's and is opaque. Each command's help text is a field of `CommandTree.Node`, and clap's own `--help`/`--version` options appear only inside it.
- **Family subtrees and handlers**: the family subcommand trees (`account.rs`, `container.rs`, `queue.rs`, `datalake.rs`, `tables.rs`) and their handlers are not part of this model. Their trees are parameters (`Cli.FamilyDoc`), and their operations are an opaque `Cli.Operation`. The `async` calls, their errors propagated by `?`, and the final `Ok(())` are left out too.
- **SDK objects**: the Azure SDK client constructors, `DefaultAzureCredential` and `Secret` are reduced to the `Cli.Client` and `Cli.Credential` values. The key is a plain string.
- **Side effects**: `env_logger::init` and `print!` are left out. `Cli.Run` returns the text to print.
- **Package description**: `CARGO_PKG_DESCRIPTION` is a build-time constant and is a parameter here.
- Strings.ToUpper: upper-cases ASCII letters only. Rust's `to_uppercase` also maps non-ASCII letters, and some of them to several characters. Identifiers of clap arguments are ASCII here.
- Strings.ReplaceAll: requires a non-empty pattern. Rust's `replace` with an empty pattern inserts between characters, but every pattern in `main` is a non-empty literal.
- Strings.ReplaceFirst: requires a non-empty pattern, for the same reason.
- Strings.Lines: strips one `'\r'` before each `'\n'`, and a final line without `'\n'` keeps its `'\r'`, as current Rust does. Older Rust versions also stripped that `'\r'`, but `trim_end` removes it either way, so `TrimLines` is unaffected.
- Strings.LinesJoinRoundTrip: stated only for text without `'\r'`, because `lines()` drops the `'\r'` of a `"\r\n"` ending.
- ReadmePostProcess.ReadmeNeverNamesBinary: assumes the description does not contain `azure-storage-cli`. The description is inserted after the renames and is not renamed itself.
- Cli.ArgsReadmeNeverNamesBinary: assumes the same of the description, for the same reason.
- ReadmePostProcess.TitleComesFirst: stated only for a one-line description that is not blank. For an empty description, the line breaks after the title collapse and the fence follows the blank line directly. For a description over several lines, each of its lines is trimmed separately.
- Cli.ArgsReadmeTitle: the same condition on the description, for the same reason.
- ReadmePostProcess.CollapseBlankLines: is a single left-to-right pass, as `replace` is. A run of five or more line breaks therefore still leaves blank lines (`CollapseIsSinglePass`). The model does not claim that every run of blank lines is collapsed.
- **Tree details**: subcommands clap adds on its own at build time are not modelled. `Cli.ArgsCommand` lists only the declared ones; `disable_help_subcommand` removes `help` at the root, and clap passes that setting down to every subcommand, so no family gets a `help` subcommand either.

# make-profiler: the Makefile reader and its dependency graph

This project models the core of `make_profiler/parser.py`. That core turns the lines of a Makefile into a list of AST entries. It then derives the dependency graph the profiler draws. It has three stages:

- **Tokenizer** (`tokenizer`, `glue_multiline`). Every raw line is classified by the first rule that matches:
  - blank lines and `#` comments are skipped;
  - a line that starts with a tab is a command;
  - a line with `:` and no `=` is a target;
  - anything else is an expression.

  Command and target lines may carry on over following lines ending in `\`. Those lines are spliced into one text. Running out of input, or meeting a blank line, while a line is still carrying on is an error.
- **Parser** (`parse`, `parse_target`, `parse_body`, `next_belongs_to_target`). A target token becomes a record. The record holds:
  - the name;
  - the sorted required dependencies and the sorted order-only dependencies;
  - the `##` documentation;
  - the body: the run of command tokens that immediately follows the target.

  Every other token is kept as it is, including a command that follows no target.
- **Graph** (`get_dependencies_influences`, `recurse_indirect_influences`). It computes four results:
  - `dependencies`: the last definition's `[deps, order_deps]` per target;
  - `influences`: the reverse edges of the required dependencies;
  - `order_only`: the union of the order-only dependencies;
  - `indirect_influences`: everything two or more influence edges away.

  Records named `.PHONY` take no part.

Modules:

- `Results` (`results.dfy`): the `Option` type. Every Python exception the core can raise becomes `None`.
- `Text` (`text.dfy`): the Python string operations the parser uses. These are `strip`/`lstrip`/`rstrip` with and without a character set, `split()`, `' '.join`, `str` ordering and `sorted`. Each one comes with lemmas about what it means.
- `Tokenizer` (`tokenizer.dfy`): the imperative `Tokenize` / `ReadToken` / `GlueMultiline` methods. They share one line cursor and are proved equal to the recursive functions `Tokens`, `NextToken`, `Glue` and `Glued`. Those functions are in turn characterised by lemmas.
- `TargetLine` (`target_line.dfy`): the regular expression of `parse_target`, as a deterministic left-to-right scan. Every group after the `:` is optional, so the first match attempt succeeds. `ParseTargetLine` gives the header of a target line, or `None` when the pattern does not match (`re.match` returns `None`, so `.groups()` raises).
- `Parser` (`parser.dfy`): the imperative `Parse` / `ParseBody` methods, proved equal to the index-form function `ParseAt`. The lemmas characterise `ParseAt` completely: it succeeds exactly when every target text matches. Its AST is then the only well-formed AST that reads back as the token stream and has the targets' headers in order.
- `Graph` (`graph.dfy`): the first loop of `get_dependencies_influences`, as the method `BuildDirect`, proved against index folds over the AST. The closure is done two ways:
  - `IndirectFrom` / `IndirectInfluences`: a visited-set worklist, proved to give exactly the names reachable by a path of at least two edges;
  - `RecurseIndirect` / `IndirectInfluencesRecursive`: the recursion as written, with a recursion budget. It is proved to fail exactly when a path as long as the budget exists, and so on every cyclic graph.

What the code does in the cases a reader might expect otherwise:

- **Chain.** For `A: B`, `B: C`, `C:` the code gives `indirect_influences["C"] == {"A"}`: direct influences are not part of the closure (`Graph.ChainExample`).
- **Keys of the closure.** The code creates a key in `indirect_influences` only for names whose influence set is not empty; a `defaultdict` read of any other name gives the empty set (`Graph.IndirectInfluences`).
- **Cycles.** On the cycle `A: B` / `B: A` the recursion as written never reaches a base case, so CPython stops it with `RecursionError`; see Findings (`Graph.RecursionFailsOnCycle`). The visited-set version gives `indirect_influences["A"] == {"A", "B"}`, because `A` is two edges away from itself (`Graph.CycleExample`).
- **Errors.** A command token that follows no target is kept in the AST; it is not an error (`Parser.StrayCommand`). A target defined twice raises no warning: the last definition wins (`Graph.DependenciesLastWins`).

## Model

| member | source | states |
|---|---|---|
| Tokenizer.Tokenize | make_profiler/parser.py:18-46 | The tokenizer run to the end returns exactly the token stream `Tokens(lines)`, or `None` when the generator raises |
| Tokenizer.ReadToken | make_profiler/parser.py:31-46 | One pass of the loop: the tokens yielded for `lines[i]` (none or one) and the next unread index. The rest of the stream is whatever the remaining lines give; a failure here fails the whole stream |
| Tokenizer.GlueMultiline | make_profiler/parser.py:21-29 | The shared-cursor splice of a logical line equals `Glue`: the joined pieces and the next unread line, or `None` |
| Tokenizer.NextToken | make_profiler/parser.py:31-46 | A logical line consumes at least one physical line, never more than remain, and yields at most one token |
| Tokenizer.Glued | make_profiler/parser.py:21-29 | A successful splice consumes between one line and all remaining lines |
| Tokenizer.GluedSpec | make_profiler/parser.py:21-29 | A splice consumes exactly `n` lines and yields their pieces if and only if the first `n - 1` lines end in `\` and line `n` is non-blank without `\` |
| Tokenizer.GluedFails | make_profiler/parser.py:24-27 | A splice fails if and only if the input ends, or a blank line comes, while every line so far ends in `\` |
| Tokenizer.GluedAppend | make_profiler/parser.py:21-29 | A splice that succeeds does not look past its last line: lines appended after the input do not change it |
| Tokenizer.NextTokenAppend | make_profiler/parser.py:31-46 | Reading one logical line does not depend on the lines after it |
| Tokenizer.TokensAppend | make_profiler/parser.py:31-46 | Tokenizing a concatenation is tokenizing the parts one after the other. Consumed continuation lines never yield tokens of their own |
| Tokenizer.TokensSkip | make_profiler/parser.py:34-40 | A blank or comment line yields nothing and consumes one line |
| Tokenizer.TokensExpression | make_profiler/parser.py:45-46 | An expression line yields its raw text stripped of spaces, `;` and tabs only, and consumes one line |
| Tokenizer.TokensGlued | make_profiler/parser.py:41-44 | A tab-led line yields a command, and a `:`-without-`=` line a target, carrying the spliced text. A failed splice fails the stream |
| Tokenizer.TabIndentedComment | make_profiler/parser.py:38-41 | A tab-indented comment `\t# x` is skipped, not taken as a command |
| Tokenizer.GlueMore | make_profiler/parser.py:24-27 | A line ending in `\` adds its piece, and the splice carries on at the next line |
| Tokenizer.GlueLast | make_profiler/parser.py:24-28 | A line that does not end in `\` ends the splice with its piece, or fails it when blank |
| Tokenizer.GlueOutOfLines | make_profiler/parser.py:26 | Running out of lines while carrying on fails the splice |
| Tokenizer.Classify | make_profiler/parser.py:31-46 | Definition: the rules in source order (blank, comment, tab, `:` without `=`, other); characterised by `TokensSkip`, `TokensGlued`, `TokensExpression` and `TabIndentedComment` |
| Tokenizer.Tokens | make_profiler/parser.py:18-46 | Definition of the token stream; the loop `Tokenize` is proved equal to it, and `TokensAppend` and the per-rule lemmas characterise it |
| Tokenizer.Piece | make_profiler/parser.py:25-28 | Definition: `strip_line.rstrip('\\').strip()`; characterised through `Text.RStripSpec` and `Text.StripSetSpec` |
| Tokenizer.Glue | make_profiler/parser.py:21-29 | Definition of `glue_multiline`'s result; `GlueMultiline` is proved equal to it, and `GluedSpec` / `GluedFails` characterise it |
| Text.Strip | make_profiler/parser.py:23-32 | Definition of `str.strip()`; characterised by `StripSetSpec` |
| Text.Join | make_profiler/parser.py:29 | Definition of `' '.join`; characterised by `SplitJoin` |
| Text.Sort | make_profiler/parser.py:66-67 | Definition of `sorted`; characterised by `SortSpec` and `SortedUnique` |
| Text.LStripSpec | make_profiler/parser.py:46 | `lstrip` removes exactly the longest prefix made of the given characters |
| Text.RStripSpec | make_profiler/parser.py:25 | `rstrip` removes exactly the longest suffix made of the given characters |
| Text.StripSetSpec | make_profiler/parser.py:46 | `strip(chars)` keeps a contiguous slice: everything outside it is in the set, and neither end of it is |
| Text.Split | make_profiler/parser.py:66-67 | Every word `split()` returns is non-empty and free of whitespace |
| Text.WordLen | make_profiler/parser.py:66 | A word runs up to the first whitespace character |
| Text.SplitJoin | make_profiler/parser.py:29 | Joining words with single spaces and splitting again gives the words back |
| Text.SplitStrip | make_profiler/parser.py:66-67 | `s.strip().split()` is `s.split()` |
| Text.SplitTrailingSpaces | make_profiler/parser.py:66-67 | Trailing whitespace does not change the words |
| Text.SplitLStrip | make_profiler/parser.py:66-67 | Leading whitespace does not change the words |
| Text.LexLeTotal | make_profiler/parser.py:66-67 | Python's string order is total |
| Text.LexLeTrans | make_profiler/parser.py:66-67 | Python's string order is transitive |
| Text.LexLeAntisym | make_profiler/parser.py:66-67 | Python's string order is antisymmetric |
| Text.InsertSorted | make_profiler/parser.py:66-67 | Inserting into a sorted list keeps it sorted |
| Text.InsertPerm | make_profiler/parser.py:66-67 | Inserting adds exactly one copy of the element |
| Text.SortSpec | make_profiler/parser.py:66-67 | `sorted` returns a sorted permutation of its input; duplicates are kept |
| Text.SortedUnique | make_profiler/parser.py:66-67 | Two sorted permutations of the same list are equal, so any correct sort gives the same dependency lists |
| TargetLine.ParseTargetLine | make_profiler/parser.py:53-69 | Definition of `parse_target`'s extraction; characterised by `TargetLineFields` / `TargetLineFails` |
| TargetLine.DepList | make_profiler/parser.py:66-67 | Definition of `sorted(deps.strip().split()) if deps else []`; characterised by `DepListWords` and `Text.SortSpec` |
| TargetLine.DocText | make_profiler/parser.py:69 | Definition of `docstring.strip().strip('#').strip() if docstring else ''`; characterised by `Text.StripSetSpec` and `ExampleDoc` |
| TargetLine.ColonFrom | make_profiler/parser.py:55-56 | The scan for the lazy name finds the first `:` with no `:` or newline before it, or reports that a newline comes first |
| TargetLine.NameEnd | make_profiler/parser.py:55-59 | The name ends at the first `:` at index 1 or later, with no newline before it. The pattern fails exactly when there is no such `:` |
| TargetLine.RunEnd | make_profiler/parser.py:56 | A greedy run of `[^|#]`, `[^#]` or `.` ends at a stopping character or at the end of the text |
| TargetLine.RunEndFirst | make_profiler/parser.py:56 | No character before the end of a greedy run stops it, so the run ends at the first stopping character |
| TargetLine.SkipSpaceHarmless | make_profiler/parser.py:56 | An optional `\s?` before a group changes neither where the group ends nor its words |
| TargetLine.HashIsFirstStop | make_profiler/parser.py:56 | When the required group is not ended by `|`, it ends where the first `#` is |
| TargetLine.FirstHashAfterPipe | make_profiler/parser.py:56 | When the required group is ended by `|`, the order-only group runs to the first `#` after the name |
| TargetLine.CutsSpec | make_profiler/parser.py:56 | The group boundaries: the required group ends at the first `|` or `#`, and the documentation starts at the first `#`. The order-only group exists exactly when a `|` comes first |
| TargetLine.TargetLineFields | make_profiler/parser.py:55-69 | A matching line gives four fields. The name is the stripped text before the `:`. The required dependencies are the sorted words up to the first `|` or `#`. The order-only dependencies are the sorted words between that `|` and the first `#`, or none without a `|`. The documentation is the stripped `##` tail |
| TargetLine.TargetLineFails | make_profiler/parser.py:55-59 | `parse_target` fails exactly when the pattern has no name end |
| TargetLine.DepListWords | make_profiler/parser.py:66-67 | An absent dependency group gives the same empty list as an empty one, and stripping before splitting changes nothing |
| TargetLine.FullLine | make_profiler/parser.py:55-69 | A line with name `b`, dependencies `y x`, a bar, order-only `o` and the tail `## d` gives name `b`, dependencies `[x, y]`, order-only `[o]` and documentation `d` |
| Parser.NextBelongsToTarget | make_profiler/parser.py:74-76 | Definition: the next token is a command; used by `CommandEnd` and `ParseBody` |
| Parser.ParseAt | make_profiler/parser.py:87-94 | Definition of the parse loop from index `i`; `Parse` is proved equal to it, and `ParseCharacterized` characterises it |
| Parser.ParseLines | make_profiler/parser.py:49-94 | Definition of `parse` on lines: tokenize, then parse; `Parse` is proved equal to it |
| Parser.CommandEnd | make_profiler/parser.py:74-85 | The body run ends at the first token that is not a command, or at the end of the stream, and holds only commands |
| Parser.ParseBody | make_profiler/parser.py:78-85 | `parse_body` takes exactly the maximal run of command tokens after the cursor, in order, and leaves the cursor on the first non-command |
| Parser.Parse | make_profiler/parser.py:49-94 | `parse` on the lines of a file returns `ParseLines`: tokenizing then parsing, failing when either fails |
| Parser.ParseAtTarget | make_profiler/parser.py:87-89 | A target token becomes one record: its header, and the command run after it as the body. Parsing goes on after the body, and an unreadable target text fails the parse |
| Parser.ParseAtPlain | make_profiler/parser.py:90-92 | Any other token, including a stray command, is appended unchanged |
| Parser.ParseAtFails | make_profiler/parser.py:55-59 | Parsing succeeds if and only if every target text in the stream matches the pattern |
| Parser.ParseAtFlatten | make_profiler/parser.py:87-94 | Reading the AST back as tokens gives the token stream, with target texts blanked. No token is lost, duplicated or reordered |
| Parser.ParseAtWellFormed | make_profiler/parser.py:74-94 | Every record's body is made of commands; a passed-through token is never a target, and is not a command when it directly follows a record |
| Parser.ParseAtHeaders | make_profiler/parser.py:87-89 | The records' headers are the target tokens' headers, one per target token, in order |
| Parser.ParseAtUnique | make_profiler/parser.py:87-94 | A well-formed AST that reads back as the stream and carries the headers in order is the one `parse` returns |
| Parser.ParseCharacterized | make_profiler/parser.py:87-94 | `parse` succeeds if and only if every target matches. It then returns an AST if and only if that AST is well-formed, reads back as the stream and carries the headers |
| Parser.StrayCommand | make_profiler/parser.py:87-94 | In `t:`, `x` (command), `e` (expression), `y` (command), the record takes `x`; `e` and `y` are passed through |
| Parser.EmptyTarget | make_profiler/parser.py:55-69 | `t:` gives name `t`, no dependencies and empty documentation |
| Graph.DependenciesUpTo | make_profiler/parser.py:103-112 | Definition of `dependencies` after `n` entries; characterised by `DependenciesKeys` and `DependenciesLastWins` |
| Graph.InfluencesUpTo | make_profiler/parser.py:103-119 | Definition of `influences` after `n` entries; characterised by `InfluencesKeys`, `InfluencesEdges` and `InfluencesClosed` |
| Graph.OrderOnlyUpTo | make_profiler/parser.py:103-120 | Definition of `order_only` after `n` entries; characterised by `OrderOnlySpec` |
| Graph.BuildDirect | make_profiler/parser.py:103-120 | The first loop leaves `dependencies`, `influences` and `order_only` equal to the folds over the whole AST |
| Graph.Elements | make_profiler/parser.py:120 | `set(xs)` holds exactly the elements of `xs` |
| Graph.DependenciesKeys | make_profiler/parser.py:103-112 | The keys of `dependencies` are exactly the names of the non-`.PHONY` target records |
| Graph.DependenciesLastWins | make_profiler/parser.py:112 | The entry for a name is the `[deps, order_deps]` of its last definition |
| Graph.PhonyNotADependency | make_profiler/parser.py:109-110 | `.PHONY` never becomes a key of `dependencies` |
| Graph.AddEdgesSpec | make_profiler/parser.py:116-117 | The required-dependency loop adds a key and an edge to the target for each dependency, and nothing else |
| Graph.TouchAllSpec | make_profiler/parser.py:118-119 | The order-only loop adds keys but no edges |
| Graph.RecordInfluencesSpec | make_profiler/parser.py:114-119 | One record adds a key for every name it mentions, and an edge from each required dependency to the target |
| Graph.InfluencesKeys | make_profiler/parser.py:114-119 | `influences` has a key for exactly every non-`.PHONY` target, required dependency and order-only dependency |
| Graph.InfluencesEdges | make_profiler/parser.py:116-117 | `t` is in `influences[d]` if and only if some non-`.PHONY` definition of `t` requires `d`. Edges accumulate across duplicate definitions |
| Graph.OrderOnlySpec | make_profiler/parser.py:120 | `order_only` is exactly the union of the non-`.PHONY` records' order-only dependencies |
| Graph.InfluencesClosed | make_profiler/parser.py:114-119 | Every influenced name is itself a key of `influences` |
| Graph.IndirectFrom | make_profiler/parser.py:122-125 | The closure of one origin, with a visited set, holds exactly the names two or more edges away |
| Graph.IndirectInfluences | make_profiler/parser.py:127-129 | Keys exist exactly for the names with a non-empty influence set. Every lookup holds exactly the names two or more edges away |
| Graph.GetDependenciesInfluences | make_profiler/parser.py:97-131 | All four results: the three folds, and the closure of `influences` computed with visited sets |
| Graph.RecurseIndirect | make_profiler/parser.py:122-125 | The recursion as written, with a budget, fails exactly when a path as long as the budget leaves the start. Otherwise it collects everything one or more edges away |
| Graph.IndirectInfluencesRecursive | make_profiler/parser.py:127-129 | The closure loop as written fails exactly when a path as long as the budget starts at an influenced name. Otherwise it agrees with `IndirectInfluences` |
| Graph.RecursionFailsOnCycle | make_profiler/parser.py:122-129 | On a graph with a cycle the recursion as written fails, whatever the recursion limit |
| Graph.RecursionFailsIffCycle | make_profiler/parser.py:122-129 | With a recursion limit of at least the number of names, the recursion as written fails if and only if the graph has a cycle |
| Graph.AcyclicPathsAreShort | make_profiler/parser.py:122-125 | On an acyclic graph no path is as long as the number of names |
| Graph.ChainExample | make_profiler/parser.py:103-129 | `A: B`, `B: C`, `C:` gives `influences` `{A: {}, B: {A}, C: {B}}`, and the closure of `C` is exactly `{A}` |
| Graph.CycleExample | make_profiler/parser.py:103-129 | `A: B`, `B: A` gives `influences` `{A: {B}, B: {A}}`. The closure of `A` is `{A, B}`, and the recursion as written fails at every limit |

## Left out

- `check_include_instruction` is not part of this model. It is file I/O: existence checks, `open` and temporary files.
- Reading the file: the model starts from the list of lines.
- Generator laziness and `peekable`: the token stream is a sequence, and any error fails the whole run. A lazy consumer could see the tokens before the error; the model does not capture that.
- Error kinds: `IndexError` on a blank continuation line, `StopIteration`/`RuntimeError` at the end of input, `AttributeError` when the pattern does not match, and `RecursionError` all become `None`. The position of the offending line is not reported.
- The general regular-expression engine: only this one pattern is modelled, as a deterministic scan.
- Graph.RecurseIndirect: Python's recursion limit is modelled as an explicit budget (`fuel`) on the depth of nested calls. The interpreter's real limit also counts the frames of the callers.
- Graph.AcyclicPathsAreShort: the bound on path length assumes every influenced name is a key (`Closed`), which `Graph.InfluencesClosed` proves for the `influences` the code builds.
- Dictionary and set iteration order: results are finite maps and sets. The order in which `influences.items()` or a set is walked does not change any result.
- The `str` subclassing of the `Tokens` enum: a plain three-constructor datatype.
- The parser's lemmas are stated for any function from target text to header (`Parser.LineReader`); `Parse` and `ParseCharacterized` instantiate them with `TargetLine.ParseTargetLine`.
- Python `str` is modelled as a sequence of code points; `isspace` is the fixed set of Unicode whitespace code points Python recognises.

## Findings

| source | as written | input that shows it | evidently intended | confidence | as-written member | corrected member |
|---|---|---|---|---|---|---|
| make_profiler/parser.py:122-129 | `recurse_indirect_influences` recurses into every influence with no visited set | `A: B` and `B: A` (influences `A -> B -> A`) | the closure terminates on cyclic graphs; `indirect_influences["A"] == {"A", "B"}` | not executed | Graph.IndirectInfluencesRecursive | Graph.IndirectInfluences |

# update-docs in Dafny

A model of `UpdateDocs`, the class at the heart of update-docs. It keeps a
project's documentation examples in step with its tests. It does four things:

- It reads the documentation files and the test files into memory.
- It collects the code between `// start docs NAME` and `// end docs NAME`
  comments in the test files. Such blocks may be nested, and blocks with the
  same name are concatenated.
- It rewrites every fenced code block anchored with `<!---NAME-->` in the
  documentation with the code collected under that name.
- It replaces a token in the anchored blocks with a value that a test
  computed. The token must occur exactly once in each such block.

Changed documentation files are written back on request.

The model has eight modules:

- `Wrappers` holds `Option` and `Result`.
- `Text` holds the character classes of the JavaScript patterns and helpers
  on strings and lines.
- `ExampleMaps` models the `DefaultMap` from example name to collected blocks.
- `TestBlocks` models the test-side pattern `codeBlockInTests`. It is a
  scanner that tries each position leftmost first, with the lazy code group
  and the back-reference to the name. It also models the dedent of a captured
  block and the recursive `scan` of `collectExamples`.
- `DocBlocks` models the documentation-side pattern `exampleRegex` and the
  rewrite that `replaceExamples` makes to one file.
- `TokenReplacer` models what `replaceToken` does to one file: counting,
  replacing and the error it throws.
- `UpdateDocs` models the class itself:
  - `File` objects whose `contents` are updated in place;
  - `Read`, which shares one `File` between the two lists when a path is
    matched by both globs;
  - the loops over the files.
- `StableRewrite` proves that `replaceExamples` is idempotent on one file.

Each pattern is written as a scanner function, and three kinds of lemma
tie the scanner to the pattern:

- "Sound" lemmas say that whatever the scanner returns at a position
  matches the pattern there.
- "Priority" and "choice" lemmas say that, among all the matches standing
  at a position, the scanner returns the one that JavaScript's
  backtracking tries first.
  - On the test side, that is the one with the shortest code.
  - On the documentation side, it is the shortest name, then the same
    white space, then the longest tag, then the shortest body.
- "Leftmost" lemmas say that no match starts at a position the search
  skipped.

The file system is a set of parameters:

- `glob` stands for `globSync`.
- `readFile` stands for `fs.readFileSync(path).toString()`.
- `Write` returns the disk after the writes as a map from path to contents.

## Model

| member | source | states |
|---|---|---|
| UpdateDocs.UpdateDocs.constructor | lib/index.ts:49-62 | keeps the three settings and reads the files. Each list holds the glob's paths in order, a path shared by both lists is one object, and every file is fresh with its contents read from disk |
| UpdateDocs.UpdateDocs.Read | lib/index.ts:67-83 | both lists are replaced by fresh files, one per path the globs return, in order. Each file holds what was read from its path. A file matched by both globs is the same object in both lists (`Valid`) |
| UpdateDocs.ReadFiles | lib/index.ts:69-80 | one file per path, in order. A path read before is taken from the loaded map unchanged. A new path gets a fresh file holding what was read, and the map keeps every earlier entry |
| UpdateDocs.UpdateDocs.Write | lib/index.ts:89-93 | afterwards every documentation file's path holds its contents. No other path on disk changes, and test files are not written |
| UpdateDocs.UpdateDocs.CollectExamples | lib/index.ts:116-134 | the map holds the pushes of every test file's blocks in file order, nested blocks included; nothing changes |
| UpdateDocs.ExamplesAcrossFiles | lib/index.ts:116-134 | blocks with the same name are concatenated: under each name, the blocks of the first test file come first, then those of the second, and so on |
| UpdateDocs.UpdateDocs.ReplaceExamples | lib/index.ts:142-150 | every documentation file becomes its own contents rewritten with the given examples |
| UpdateDocs.UpdateDocs.UpdateExamples | lib/index.ts:155-157 | every documentation file is rewritten with the examples collected from the test files as they stood before the call |
| UpdateDocs.UpdateDocs.ReplaceToken | lib/index.ts:184-202 | files are rewritten in order until one throws. Earlier files hold their rewritten text. The failing file and every later file keep their contents, with no rollback. The error is the failing file's error, and there is no error only when every file was rewritten |
| ExampleMaps.Push | lib/index.ts:124 | pushing appends the code under its name and leaves every other name's list alone; a missing name starts from the empty list |
| ExampleMaps.AddEntriesGet | lib/index.ts:117-125 | after a run of pushes, each name holds its earlier list followed by that name's pushed codes in order |
| ExampleMaps.AddEntriesConcat | lib/index.ts:119-131 | pushing two runs one after the other equals pushing their concatenation |
| TestBlocks.CodeEndFirst | lib/index.ts:108 | the lazy code group ends at the first closing line that repeats the name, at or after the given position |
| TestBlocks.PairAtSound | lib/index.ts:108 | a pair found at a position satisfies the pattern: an indent, the start marker, a name, a newline, the code, a newline, an indent, and the end marker repeating the name |
| TestBlocks.PairAtShortest | lib/index.ts:108 | when any pair stands at a position, the scanner finds one there, and its code is no longer than that pair's code |
| TestBlocks.MatchLayout | lib/index.ts:108 | every match starts the text or follows a newline. It reads `INDENT// start docs NAME`, a newline, CODE, a newline, `INDENT2// end docs NAME` |
| TestBlocks.MatchParts | lib/index.ts:108 | in every match both indents are white space without newlines, the name is non-empty and has no newline, and the code is non-empty |
| TestBlocks.MatchesFromOrdered | lib/index.ts:120-122 | the matches come in text order, and each starts after the end of the one before |
| TestBlocks.MatchesFromGaps | lib/index.ts:120-122 | no pair stands at a line start the search tries before the first match, between one match's end and the next match, or after the last match |
| TestBlocks.PairCovered | lib/index.ts:120-122 | every pair at a line start is a match or starts inside the text of one, so a second block in the same file is found |
| TestBlocks.FirstMatchLeftmost | lib/index.ts:120-122 | whenever a pair stands at some line start, there is a match, and the first one starts no later |
| TestBlocks.MatchShortest | lib/index.ts:108 | each match takes the shortest code of any pair at its start |
| TestBlocks.NoEndMarkerNoEntries | lib/index.ts:108 | a text without `// end docs ` has no matches and yields no blocks |
| TestBlocks.DedentLines | lib/index.ts:123 | dedenting removes the indent from the start of every line that begins with it, and changes nothing else |
| TestBlocks.DedentJoin | lib/index.ts:123 | dedenting is splitting into lines, stripping the indent from each line that starts with it, and joining the lines with newlines |
| TestBlocks.Scan | lib/index.ts:119-127 | scanning a text pushes exactly the blocks collected from it, into the map it is given |
| TestBlocks.OuterBeforeNested | lib/index.ts:119-127 | each match's block is pushed after the blocks of the matches before it and right before the blocks nested in its own dedented code |
| DocBlocks.FenceFromSound | lib/index.ts:97 | a fence is found at the first position at or after the given one where a fence stands, and nowhere before it: the lazy body ends there |
| DocBlocks.TailAtSound | lib/index.ts:97 | a tail found after `-->` is white space, a fence, a tag, a non-empty body and a closing fence, with no fence inside the body after its first character |
| DocBlocks.AnchorAtSound | lib/index.ts:95-100 | a block found at a position matches the pattern there, with the anchor, a name without newlines, `-->`, the tail and the shortest body |
| DocBlocks.NamedAtSound | lib/index.ts:189 | a block found for a given name is anchored with exactly that name and has the shortest body |
| DocBlocks.BlocksFromLaid | lib/index.ts:145 | the matches lie in the text in order, without overlapping |
| DocBlocks.BlocksFromFound | lib/index.ts:143-145 | every match of the search stands in the text with the shortest body |
| DocBlocks.BlocksFromLeftmost | lib/index.ts:145 | no block standing in the text (the pattern with any one-line name) starts at a position skipped before a match, between two matches or after the last one: the search is leftmost first |
| DocBlocks.FenceFromFirst | lib/index.ts:97 | whenever a fence stands at or after a position, the fence search finds one, no later than that fence |
| DocBlocks.TagFromPriority | lib/index.ts:97 | whenever some shorter or equal tag is followed by a non-empty body and a fence, the backtracking tag search finds a tail, and it has a longer tag, or the same tag and a body no longer |
| DocBlocks.TailAtPriority | lib/index.ts:97 | whenever a tail stands after `-->`, the tail scanner finds one with the same white space that comes first in the backtracking order: the longest tag, then the shortest body |
| DocBlocks.NameFromPriority | lib/index.ts:95-100 | whenever a block with a name on the anchor's line stands at a position, trying names from a given length upwards finds a block there that comes no later in the backtracking order |
| DocBlocks.AnchorAtPriority | lib/index.ts:143 | whenever a block stands at a position, the scanner finds one there that comes first in the backtracking order: a shorter name, or the same name with a preferred tail |
| DocBlocks.AnchorAtChoice | lib/index.ts:143 | the scanner's answer at a position is a block exactly when that block stands there and comes first in the backtracking order among all blocks standing there |
| DocBlocks.AnchorAtFromChoice | lib/index.ts:143 | a block standing in the text that comes first in the backtracking order among the blocks at its start is exactly what the scanner answers there |
| DocBlocks.NamedAtPriority | lib/index.ts:189 | whenever a block with the given name stands at a position, the named scanner finds one there with that name and a preferred tail |
| DocBlocks.NamedAtChoice | lib/index.ts:189 | the named scanner's answer at a position is a block exactly when that block stands there with the name and its tail comes first among all such blocks |
| DocBlocks.NamedAtFromChoice | lib/index.ts:189 | a block with the given name whose tail comes first among the blocks with that name at its start is exactly what the named scanner answers there |
| DocBlocks.BlocksFromChosen | lib/index.ts:145 | every match of the search is the scanner's answer at its start |
| DocBlocks.NamedBlocksFromChosen | lib/index.ts:192 | every match of the named search is the named scanner's answer at its start |
| DocBlocks.BlocksPreferred | lib/index.ts:143-145 | each match comes first in the backtracking order among all blocks standing at its start |
| DocBlocks.NamedBlocksPreferred | lib/index.ts:189-192 | each match for a name has the tail that comes first among all blocks with that name at its start |
| DocBlocks.NamedBlocksFromLaid | lib/index.ts:192 | the matches for one name lie in the text in order, without overlapping |
| DocBlocks.NamedBlocksFromFound | lib/index.ts:192 | every match for one name stands in the text with exactly that name |
| DocBlocks.NamedBlocksFromLeftmost | lib/index.ts:192 | no block standing in the text with that name starts at a position skipped before a match, between two matches or after the last one |
| DocBlocks.BlockLayout | lib/index.ts:95-100 | each match's header is `<!---NAME-->`, white space, a fence and a tag. The name is non-empty and has no newline, the body is non-empty and ends at the first fence, and the end group is the fence |
| DocBlocks.NamedLayout | lib/index.ts:95-100 | the same layout holds for each match of a given name, and its name group is that name |
| DocBlocks.SpliceOwnBodies | lib/index.ts:145-148 | putting every block's own body back reproduces the text, so a rewrite changes only the bodies |
| DocBlocks.RewriteIsSplice | lib/index.ts:145-148 | the rewrite keeps the text between matches and each header and end group, and replaces each body by a new one |
| DocBlocks.ReplaceExamplesBodies | lib/index.ts:142-150 | the rewrite of one file replaces each anchored block's body by a newline, the collected blocks joined with newlines, and a newline; everything else is kept |
| DocBlocks.NewBodiesEmpty | lib/index.ts:147 | a block whose name has no examples gets the body of two newlines, because the map's default is the empty list |
| StableRewrite.ReplaceExamplesIdempotent | lib/index.ts:142-150 | rewriting a file's contents a second time with the same examples gives them back unchanged, when no collected code contains a fence |
| StableRewrite.RewrittenBlocks | lib/index.ts:142-150 | the search over a rewritten file finds as many blocks as in the original, with the same names, and each body is the one written for its name |
| StableRewrite.HeaderBound | lib/index.ts:97 | when a block's body starts with a newline, no block standing at or before its start has a header that runs past that newline |
| StableRewrite.NewBodyFresh | lib/index.ts:147 | the body written for a name starts and ends with a newline and contains no fence when none of the name's codes does |
| TokenReplacer.CountZeroIff | lib/index.ts:194 | the count is zero exactly when the token does not occur in the body |
| TokenReplacer.CountEmpty | lib/index.ts:194 | an empty token is counted once per position, ends included |
| TokenReplacer.EmptyTokenThrows | lib/index.ts:194-197 | an empty token always throws when the name has a block: the first block's body is never empty, so the token is counted there once more than the body's length, at least twice, and the error carries that count |
| TokenReplacer.CountZero | lib/index.ts:194-198 | a token counted zero times occurs nowhere, and replacing changes nothing |
| TokenReplacer.CountOnce | lib/index.ts:194-195 | a token counted once occurs at some position, nowhere before it, and is counted once from there |
| TokenReplacer.OnceHere | lib/index.ts:194-198 | the occurrence counted last has no further non-overlapping occurrence after it, and replacing from it yields the value followed by the rest of the body |
| TokenReplacer.ReplaceBefore | lib/index.ts:198 | replacing copies the body unchanged up to the first occurrence |
| TokenReplacer.ReplaceOnce | lib/index.ts:198 | when the token is counted once, the replaced body is the text before the occurrence, the value as given, and the text after it |
| TokenReplacer.DollarPatternsExpanded | lib/index.ts:198 | with the token counted once, the replacement as written turns the value `$$` into `$` and `$&` into the token, not the value as given |
| TokenReplacer.TokenReplacementParts | lib/index.ts:198-199 | a block whose token is counted once keeps its header and end group, and its body is replaced |
| TokenReplacer.TokenFromSuccess | lib/index.ts:192-200 | rewriting a file succeeds exactly when the token is counted once in every anchored body. The result then keeps the text between blocks and the headers and end groups, and replaces each body |
| TokenReplacer.TokenFromFailure | lib/index.ts:192-197 | on failure, the first block whose count is not one gives the error, with that count |
| TokenReplacer.ReplaceTokenFailure | lib/index.ts:189-197 | a file's rewrite throws exactly when some block with the name has a count other than one. The error names the token and the count of the first such block |
| TokenReplacer.ReplaceTokenSuccess | lib/index.ts:189-200 | when a file's rewrite succeeds, every block with the name counts the token once. Only those blocks' bodies change, each by the literal replacement |
| TokenReplacer.ExpandPlain | lib/index.ts:198 | a replacement string without `$` is inserted by the source's replacement exactly as written |
| TokenReplacer.AsWrittenWithoutDollar | lib/index.ts:198 | for a value without `$`, the source's `replaceAll` gives the same text as the literal replacement the model uses |
| TokenReplacer.TokenBodiesOnce | lib/index.ts:198 | when the token is counted once in every body, each new body is its old body with one occurrence of the token replaced by the value |
| UpdateDocs.UpdateDocs.StringValueInserted | lib/index.ts:167-199 | a string value is used as it is: when the rewrite succeeds, each block with the name keeps everything but its body, and its body is the text before the token, the string, and the text after the token |

## Left out

- File system. `globSync`, `fs.readFileSync` and `fs.writeFileSync` are parameters and a returned map, and their I/O errors are not modelled.
- UpdateDocs.UpdateDocs.Read: requires each glob's result to name every path once, as `globSync` returns it; path normalisation by `glob` is not modelled.
- UpdateDocs.UpdateDocs.StringifyValue: the pretty-compact JSON printer is a function-valued setting. Only the string/non-string choice and the indent it receives are modelled, and the `margins` option is folded into that function.
- UpdateDocs.Value: JSON numbers are integers; floating point is not modelled.
- The `id` field from `Math.random()` is never used by the class and is left out.
- Overriding `codeBlockInTests`, `exampleRegex` or `stringifyValue` in a subclass is not modelled; the patterns are fixed.
- TokenReplacer.Count: counts the string token literally, but `content.matchAll(token)` compiles a string token into a regular expression. A token with regular-expression metacharacters is counted differently from how it is replaced, and an invalid one throws a `SyntaxError`. `RegExp` tokens are not modelled at all.
- DocBlocks.NamedBlocks: the example name is matched literally, but the source splices it into the pattern unescaped, so metacharacters in a name change what it matches.
- DocBlocks.Blocks: the name group `(.+?)` is tried only within the anchor's line. With the `s` flag the source goes on to names that cross a newline whenever no name on the anchor's line is followed by `-->`, white space and a fenced block. For `<!---a--> x` followed on the next line by `<!---b-->` and a fenced block, the source matches from the first anchor with the name `a--> x`, a newline and `<!---b`; the model finds no block at that anchor and finds the block named `b`.
- TestBlocks.PairAt: the name group is the rest of the start marker's line. With the `s` flag the source could backtrack into a name that spans lines.
- TestBlocks.Dedent: only `\n` ends a line. The `m` flag also treats `\r`, U+2028 and U+2029 as line terminators.
- StableRewrite.ReplaceExamplesIdempotent: requires that no collected code contains three backticks in a row. Such a code would close its block early on the second search, and the second rewrite would then differ from the first.
- TokenReplacer.CountEmpty: strings are sequences of Unicode scalar values, while JavaScript counts UTF-16 code units. An empty token is counted once per code unit boundary in the source, so a body with characters outside the Basic Multilingual Plane gets a larger count in the thrown error than in the model. Both counts are above one, so both throw.
- TokenReplacer.EmptyTokenThrows: the count in the error is the number of scalar-value positions; see TokenReplacer.CountEmpty.
- TokenReplacer.TokenReplacement: inserts the value literally. This is the corrected behaviour of the finding at lib/index.ts:198. The source's `replaceAll` expands `$$`, `$&`, `` $` `` and `$'` in the value. TokenReplacer.AsWrittenWithoutDollar proves the two agree whenever the value holds no `$`.
- TokenReplacer.TokenReplacementParts: the replaced body is the literal replacement; see TokenReplacer.TokenReplacement.
- TokenReplacer.TokenFromSuccess: the replaced bodies are literal replacements; see TokenReplacer.TokenReplacement.
- TokenReplacer.ReplaceTokenSuccess: the replaced bodies are literal replacements; see TokenReplacer.TokenReplacement.
- TokenReplacer.TokenBodiesOnce: the value is inserted literally; see TokenReplacer.TokenReplacement.
- UpdateDocs.UpdateDocs.ReplaceToken: each file's rewrite inserts the value literally; see TokenReplacer.TokenReplacement.
- UpdateDocs.UpdateDocs.StringValueInserted: the string is inserted literally; see TokenReplacer.TokenReplacement.

## Findings

| source | as written | input that shows it | evidently intended | confidence | as-written member | corrected member |
|---|---|---|---|---|---|---|
| lib/index.ts:198 | `content.replaceAll(token, stringValue)` uses the value as a replacement pattern, so `$$`, `$&`, `` $` `` and `$'` in it are expanded (GetSubstitution, section 22.1.3.19.1 of ECMA-262) | body `x = T`, token `T`, value `$$` gives `x = $`; value `$&` gives `x = T` | the value is inserted exactly as given, e.g. `x = $$` | high; not executed | TokenReplacer.DollarPatternsExpanded | TokenReplacer.ReplaceOnce |

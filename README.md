# peek.nvim preview server: command loop and rendering rules

peek.nvim previews Markdown from Neovim in a webview. Its Deno process has two pieces of logic of its own, and this project models both in Dafny and proves properties about them.

1. **Command loop** (`main.ts`). It reads frames from standard input:
   - A `show`, `scroll` or `base` discriminator takes the next frame as its payload and sends one JSON reply over the webview's socket.
   - Any other frame is skipped.
   - A failing send is caught. Only an `InvalidStateError` ends the process.
2. **Rendering rules** (`markdownit.ts`). These run on top of markdown-it:
   - a pass that puts `data-line-begin` on every document-level block;
   - rewritten links;
   - heading ids derived from the heading text;
   - Mermaid diagram placeholders for fenced blocks that start with a diagram keyword;
   - `div` wrappers around display math;
   - the syntax-highlighting callback.

Modules:

| module | file | contents |
|---|---|---|
| `Wrappers` | `wrappers.dfy` | `Option` |
| `Text` | `text.dfy` | the JavaScript string operations the rules use: `trim` with ECMAScript's whitespace set, `split` on one character, `join`, `filter(a => a)`, `startsWith`, `String(n)`, markdown-it's `escapeHtml`, plus an HTML attribute decoder to state the escape's round trip |
| `Tokens` | `tokens.dfy` | markdown-it's `Token` (`level`, `map`, `content`, `attrs`) with `attrIndex`, `attrGet` and `attrSet` |
| `MarkdownIt` | `markdownit.dfy` | the rules and the annotation pass of `render` |
| `Dispatcher` | `dispatcher.dfy` | the dispatch loop, `lcount`, and the `catch` classification |

### How foreign behaviour enters the model

Foreign code is passed in as function-typed parameters:
- markdown-it's parser, `renderToken`, default rules and `renderer.render`;
- highlight.js;
- std/path's `normalize`;
- `env.genId(hashCode(...))`, passed as the id string it would return.

The token list of `render` is an `array<Token>`, and the pass updates it in place. `link_open` and `heading_open` also update `tokens[idx]` in place.

The socket enters as the first failing `socket.send`: its position and its error name.

### Behaviour worth knowing

- **An input that ends where a payload is due does not fail.** `(await generator.next()).value!` is then `undefined`, and `TextDecoder.decode(undefined)` is `""`. The command gets a normal reply with an empty payload (`TruncatedCommand`).
- **Only an `InvalidStateError` ends the process.** Any other error from a send is logged, and the loop stops while the process keeps running (`Classify`, `Serve`).
- **The end of the input does not end the process either.** The loop returns (`Finished`) and nothing calls `Deno.exit()` (`app/src/main.ts:47-93`). The process lives on until the webview exits or one of the listened-for signals arrives (`app/src/main.ts:119-136`).
- **Heading ids can start or end with `-`.** The split is on `' '` and the deletion of characters outside `[A-Za-z0-9-]` comes after the join. A first or last word made only of deleted characters therefore leaves its hyphen behind: `** multi **` gets the id `-multi-` (`SlugKeepsEdgeHyphens`, `EdgeHyphenExample`).
- **Heading text is split on spaces only.** A tab or line feed between two words is not a split point. It is deleted and the words run together (`SlugDeletesInnerWhitespace`, `SlugDeletesTab`).
- **A nested block's wrapper prints `null`.** A display-math block or diagram inside a list or quote gets no annotation, so its wrapper prints `data-line-begin="null"` (`NestedBlockLineIsNull`).
- **The diagram keyword test has no word boundary.** `pieces = …` counts as a `pie` diagram (`KeywordPrefixWithoutBoundary`).

## Model

| member | source | states |
|---|---|---|
| `Dispatcher.Serve` | app/src/main.ts:42-93 | The replies sent are the loop's reference replies, in order, cut off at the first failing send. Without a failure the loop finishes normally; with one, the outcome is what the `catch` makes of that error. |
| `Dispatcher.ParseAction` | app/src/main.ts:50-80 | A frame is a command exactly when it reads `show`, `scroll` or `base`, and the action named is the frame's text. |
| `Dispatcher.ParseActionName` | app/src/main.ts:50-77 | Each action's discriminator parses back to that action. |
| `Dispatcher.NewlineMatches` | app/src/main.ts:57 | The left-to-right global `\r?\n` match count; `NewlineMatchesCountsLineFeeds` shows it counts line feeds. |
| `Dispatcher.NewlineMatchesCountsLineFeeds` | app/src/main.ts:57 | The global `\r?\n` match count equals the number of line feeds: a CRLF counts once, a lone CR not at all. |
| `Dispatcher.LineCount` | app/src/main.ts:57 | `lcount` is the line-feed count plus one, so it is at least 1. |
| `Dispatcher.BaseArgument` | app/src/main.ts:72-74 | The string given to `normalize` is the payload followed by one `/`. |
| `Dispatcher.Respond` | app/src/main.ts:51-77 | `show` replies with `render` of the payload and its line count; `scroll` echoes the payload verbatim; `base` replies with `normalize(payload + "/")`. |
| `Dispatcher.DispatchSkip` | app/src/main.ts:78-80 | A frame that is not a command produces no reply and consumes only itself. |
| `Dispatcher.DispatchStep` | app/src/main.ts:51-77 | A command produces exactly one reply. It consumes the frame after it as its payload, or the empty string at the end of the input, and dispatch continues after that payload. |
| `Dispatcher.Classify` | app/src/main.ts:83-93 | The outcome is an exit exactly when the error is named `InvalidStateError`; every other error is logged under its name. |
| `Dispatcher.Frames` | app/src/main.ts:47-52 | The editor sends two frames per command. |
| `Dispatcher.Replies` | app/src/main.ts:51-77 | One reply per command, the k-th being the k-th command's response. |
| `Dispatcher.DispatchFrames` | app/src/main.ts:47-82 | Commands in front of any frames yield their replies in order. Each takes its own payload even when that payload reads like a discriminator, and the frames after them are dispatched as if alone. |
| `Dispatcher.DispatchCommand` | app/src/main.ts:50-77 | A command frame followed by its payload yields that command's reply, and dispatch resumes right after the payload. |
| `Dispatcher.DispatchRoundTrip` | app/src/main.ts:47-82 | A well-formed stream yields exactly the replies its commands ask for. |
| `Dispatcher.UnknownFrameSkipped` | app/src/main.ts:78-80 | An unrecognised frame between commands changes nothing about the replies. |
| `Dispatcher.RepliesConcat` | app/src/main.ts:47-82 | The replies to two command lists in a row are the two reply lists in a row. |
| `Dispatcher.TruncatedCommand` | app/src/main.ts:52 | An input that ends right after a discriminator still gives that command a reply, with an empty payload. |
| `Dispatcher.ShowExample` | app/src/main.ts:51-58 | `show` with `"# Title\nBody"` yields one `show` reply: the rendered HTML and `lcount` 2. |
| `Dispatcher.NextPayload` | app/src/main.ts:52 | The payload is the next frame, or `""` once the input has ended; `DispatchStep` and `TruncatedCommand` state this for the loop. |
| `Dispatcher.Dispatch` | app/src/main.ts:47-82 | The reference for the replies the loop sends, characterised by `DispatchSkip`, `DispatchStep`, `DispatchFrames`, `UnknownFrameSkipped` and `TruncatedCommand`, and matched by `Serve`. |
| `Tokens.AttrIndex` | app/src/markdownit.ts:41 | The result is -1 exactly when no attribute has the name. Otherwise it is the position of the first attribute with that name. |
| `Tokens.AttrGet` | app/src/markdownit.ts:41 | `null` exactly when no attribute has the name; otherwise the value of the first attribute with that name. |
| `Tokens.AttrSet` | app/src/markdownit.ts:132 | The name then reads as the new value and every other name reads as before. No other field changes. The list grows by one exactly when the name was absent. |
| `Tokens.AttrIndexAfterSet` | app/src/markdownit.ts:132 | After `attrSet`, the name is found where it was, or at the end if it was new; every other name is found where it was. |
| `Tokens.AttrSetIdempotent` | app/src/markdownit.ts:132 | Setting the same value twice equals setting it once. |
| `Text.LeadingSpaces` | app/src/markdownit.ts:56 | Counts the whitespace at the start: all of it is whitespace, and the character after it is not. |
| `Text.TrailingSpaces` | app/src/markdownit.ts:56 | Counts the whitespace at the end in the same way. |
| `Text.Trim` | app/src/markdownit.ts:56 | `trim()`; `TrimInfix`, `TrimTrailing` and `TrimEnds` pin down its result, and `TrimAfterSpaces` and `TrimBetween` say what leading and missing whitespace do to it. |
| `Text.TrimEnd` | app/src/markdownit.ts:56 | The trailing-whitespace cut that `trim()` applies after the leading cut; the `Trim` lemmas characterise the combination. |
| `Text.TrimInfix` | app/src/markdownit.ts:56 | The trim is the part of the string that starts right after the leading whitespace. |
| `Text.TrimTrailing` | app/src/markdownit.ts:56 | Everything after the trim is whitespace. |
| `Text.TrimEnds` | app/src/markdownit.ts:56 | A non-empty trim neither starts nor ends with whitespace. |
| `Text.TrimBetween` | app/src/markdownit.ts:56 | A string whose ends are not whitespace is its own trim. |
| `Text.LeadingSpacesConcat` | app/src/markdownit.ts:56 | Whitespace in front adds its length to the leading whitespace. |
| `Text.TrimAfterSpaces` | app/src/markdownit.ts:104 | Whitespace in front of a string does not change its trim. |
| `Text.TrimNoSpace` | app/src/markdownit.ts:104 | A string without whitespace is its own trim. |
| `Text.Split` | app/src/markdownit.ts:57 | `split` never returns an empty list. |
| `Text.JoinSplit` | app/src/markdownit.ts:57 | Joining the pieces of a split with the separator gives back the string. |
| `Text.SplitAt` | app/src/markdownit.ts:57 | Splitting at a separator gives the pieces of the left part followed by those of the right part. |
| `Text.SplitWithout` | app/src/markdownit.ts:57 | A string without the separator splits into just itself. |
| `Text.Join` | app/src/markdownit.ts:59 | `join('-')`; `JoinSplit` shows it undoes a split, `JoinNonEmptySingle` that one piece joins to itself. |
| `Text.NonEmpty` | app/src/markdownit.ts:58 | Keeps only pieces of the input, none of them empty, and keeps everything when nothing is empty. |
| `Text.NonEmptySingle` | app/src/markdownit.ts:58 | The filter drops a single empty piece and keeps any other. |
| `Text.NonEmptyConcat` | app/src/markdownit.ts:58 | The filter works piece by piece: it distributes over concatenation, so every non-empty piece is kept, in order. |
| `Text.JoinNonEmptySingle` | app/src/markdownit.ts:58-59 | Filtering and joining a single piece gives the piece. |
| `Text.CountConcat` | app/src/main.ts:57 | The line-feed count of two strings in a row is the sum of their counts. |
| `Text.InfixOfConcat` | app/src/markdownit.ts:71-77 | A text placed between two others occurs in the whole. |
| `Text.InfixExtend` | app/src/markdownit.ts:71-77 | Text that occurs in a string still occurs once more follows. |
| `Text.NatToString` | app/src/markdownit.ts:132 | Decimal digits only, at least one, with no leading zero. |
| `Text.NatToStringValue` | app/src/markdownit.ts:132 | The digits denote the number. |
| `Text.IntToString` | app/src/markdownit.ts:132 | `String(n)` is never empty. |
| `Text.IntToStringRoundTrip` | app/src/markdownit.ts:132 | Reading `String(n)` back gives `n`, so different first lines give different annotations. |
| `Text.EscapeHtml` | app/src/markdownit.ts:115 | The escaped text holds no `"`, `<` or `>`. |
| `Text.UnescapeEscapeChar` | app/src/markdownit.ts:115 | One escaped character decodes back to itself, whatever follows it. |
| `Text.UnescapeEscape` | app/src/markdownit.ts:115 | The escaped text decodes back to the original. |
| `MarkdownIt.Highlight` | app/src/markdownit.ts:19-29 | There is no callback without the `syntax` flag. An empty or unknown language gives `''`; a known one gives the highlighted markup, or the raw code when highlight.js throws. |
| `MarkdownIt.SandboxLink` | app/src/markdownit.ts:40-47 | `href` is always `javascript:return`, even when it was absent. `onclick` becomes `location.hash='<href>'` exactly when the old href starts with `#`, and is untouched otherwise. No other attribute or field changes. |
| `MarkdownIt.ExternalLinkExample` | app/src/markdownit.ts:41-47 | An external link keeps only the neutral `href`. |
| `MarkdownIt.AnchorLinkExample` | app/src/markdownit.ts:41-47 | An anchor link `#section` gets the neutral `href` and the hash jump, and has just those two attributes. |
| `MarkdownIt.LinkOpen` | app/src/markdownit.ts:39-50 | Only `tokens[idx]` changes, as above, and the rule returns `renderToken` of the updated list. |
| `MarkdownIt.StripDisallowed` | app/src/markdownit.ts:60 | `.replace(/[^a-z0-9-]/gi, '')`; `StripKeepsOnlyKept`, `StripAllKept`, `StripConcat` and `StripNoneKept` characterise it. |
| `MarkdownIt.StripKeepsOnlyKept` | app/src/markdownit.ts:60 | After the `/[^a-z0-9-]/gi` deletion, only ASCII letters, digits and `-` remain. |
| `MarkdownIt.StripAllKept` | app/src/markdownit.ts:60 | The deletion leaves a string of such characters alone. |
| `MarkdownIt.StripConcat` | app/src/markdownit.ts:60 | The deletion distributes over concatenation. |
| `MarkdownIt.StripNoneKept` | app/src/markdownit.ts:60 | Text made only of deleted characters is deleted entirely. |
| `MarkdownIt.StripDropsChar` | app/src/markdownit.ts:60 | A whitespace character never survives the deletion. |
| `MarkdownIt.LowerChar` | app/src/markdownit.ts:61 | Lowercasing a kept character gives `[a-z0-9-]`, and `[a-z0-9-]` is left as it is. |
| `MarkdownIt.ToLower` | app/src/markdownit.ts:61 | `.toLowerCase()` on the ASCII text the deletion leaves; `LowerPointwise`, `LowerConcat` and `LowerOfKept` characterise it. |
| `MarkdownIt.LowerPointwise` | app/src/markdownit.ts:61 | Lowercasing keeps the length and maps each character on its own. |
| `MarkdownIt.LowerConcat` | app/src/markdownit.ts:61 | Lowercasing distributes over concatenation. |
| `MarkdownIt.LowerOfKept` | app/src/markdownit.ts:61 | Lowercasing what the deletion leaves gives only `[a-z0-9-]`, and text already in `[a-z0-9-]` is unchanged. |
| `MarkdownIt.HeadingSlug` | app/src/markdownit.ts:55-61 | A heading id holds only characters in `[a-z0-9-]`. |
| `MarkdownIt.SlugCharsAreWords` | app/src/markdownit.ts:56-59 | Trimming, splitting, filtering and re-joining leave a `[a-z0-9-]` string as it is. |
| `MarkdownIt.SlugOfSlugChars` | app/src/markdownit.ts:55-61 | A `[a-z0-9-]` string is its own id. |
| `MarkdownIt.SlugIdempotent` | app/src/markdownit.ts:55-61 | The id of an id is the id itself. |
| `MarkdownIt.SlugTwoWords` | app/src/markdownit.ts:55-61 | Two whitespace-free words around one space become the words joined by `-`, with disallowed characters deleted and the rest lowercased. |
| `MarkdownIt.SlugHelloWorld` | app/src/markdownit.ts:55-61 | `Hello, World!` gets the id `hello-world`. |
| `MarkdownIt.SlugDeletesTab` | app/src/markdownit.ts:55-61 | Example: a tab inside a heading is not a split point, so `a\tb` gets the id `ab`. |
| `MarkdownIt.SlugDeletesInnerWhitespace` | app/src/markdownit.ts:55-61 | Between two words without whitespace, any whitespace character other than a space is deleted. The id is that of the two words run together. |
| `MarkdownIt.NoJsSpaceWithout` | app/src/markdownit.ts:57 | Text without whitespace holds no space. |
| `MarkdownIt.SlugOfSpaceFree` | app/src/markdownit.ts:55-61 | For text without spaces whose ends are not whitespace, the id is the deletion followed by the lowercasing. |
| `MarkdownIt.SlugKeepsEdgeHyphens` | app/src/markdownit.ts:55-61 | A word of deleted characters on both sides of a word `w` gives the id `-` + id of `w` + `-`. The hyphens the join put there survive the deletion. |
| `MarkdownIt.EdgeSplit` | app/src/markdownit.ts:56-57 | The trimmed heading `p w p` splits into exactly the pieces `p`, `w`, `p`. |
| `MarkdownIt.EdgeJoin` | app/src/markdownit.ts:58-59 | Those three non-empty pieces are all kept and joined with `-`. |
| `MarkdownIt.EdgeStrip` | app/src/markdownit.ts:60 | The deletion removes the outer words and leaves both joining hyphens. |
| `MarkdownIt.EdgeLower` | app/src/markdownit.ts:61 | Lowercasing leaves the hyphens at both ends. |
| `MarkdownIt.EdgeHyphenExample` | app/src/markdownit.ts:55-61 | `** multi **` gets the id `-multi-`. |
| `MarkdownIt.HeadingOpen` | app/src/markdownit.ts:52-65 | `id` is set on `tokens[idx]` from the next token's content and nothing else changes, so equal texts give equal ids. When there is no next token, the access fails and nothing changes. |
| `MarkdownIt.DisplayMath` | app/src/markdownit.ts:67-93 | The wrapper of both display-math rules embeds the token's `data-line-begin` value (`null` when it is absent) and the default rule's output. |
| `MarkdownIt.StartsWithAny` | app/src/markdownit.ts:98-100 | True exactly when the text starts with one of the keywords. |
| `MarkdownIt.IsDiagram` | app/src/markdownit.ts:104-106 | `regex.test(content.trim())`; `Fence` is stated in terms of it, and `KeywordPrefixWithoutBoundary` and `IndentedDiagram` are instances. |
| `MarkdownIt.DiagramPlaceholder` | app/src/markdownit.ts:107-120 | The placeholder embeds the block's `data-line-begin`, the generated `graph-mermaid-` id and the escaped definition as `data-graph-definition`. |
| `MarkdownIt.Fence` | app/src/markdownit.ts:102-124 | A block whose trimmed content starts with one of the eleven keywords becomes the placeholder for the trimmed content, and the default fence rule plays no part. Any other block gets the default rule's output unchanged. |
| `MarkdownIt.DiagramDefinitionRecoverable` | app/src/markdownit.ts:104-115 | A diagram's `data-graph-definition` value holds no `"` and decodes back to the trimmed content. |
| `MarkdownIt.KeywordPrefixWithoutBoundary` | app/src/markdownit.ts:98-106 | `pieces = [1, 2]` counts as a diagram. |
| `MarkdownIt.IndentedDiagram` | app/src/markdownit.ts:104-106 | Leading blank lines and indentation do not hide a diagram keyword. |
| `MarkdownIt.Annotate` | app/src/markdownit.ts:131-133 | A document-level block with a source range gets `data-line-begin` = `String(map[0] + 1)`, and its other attributes and fields stay as they were. Any other token is unchanged. |
| `MarkdownIt.Annotated` | app/src/markdownit.ts:130-134 | The pass keeps the token count and order, and annotates each token on its own. |
| `MarkdownIt.AnnotateLines` | app/src/markdownit.ts:130-134 | The in-place `forEach` leaves the array equal to the annotated list. |
| `MarkdownIt.AnnotatedSnoc` | app/src/markdownit.ts:130-134 | Annotating a list with one more token at the end adds that token's annotation at the end. |
| `MarkdownIt.AnnotatedStep` | app/src/markdownit.ts:130-134 | Annotating token `i` after the first `i` extends the annotated prefix by one. |
| `MarkdownIt.Render` | app/src/markdownit.ts:127-137 | `render` hands markdown-it's renderer the annotated token list of the parse. |
| `MarkdownIt.AnnotateIdempotent` | app/src/markdownit.ts:131-133 | Annotating a token twice equals annotating it once. |
| `MarkdownIt.AnnotatedIdempotent` | app/src/markdownit.ts:130-134 | Running the pass twice equals running it once. |
| `MarkdownIt.AnnotatedLineAttr` | app/src/markdownit.ts:131-132 | After the pass, a document-level block reads its 1-based first line. |
| `MarkdownIt.DisplayMathNamesLine` | app/src/markdownit.ts:73 | After the pass, a document-level math block's wrapper embeds its 1-based first line. |
| `MarkdownIt.NestedBlockLineIsNull` | app/src/markdownit.ts:73 | A nested block with no `data-line-begin` of its own gets a wrapper that embeds `null`. |
| `MarkdownIt.NullLineText` | app/src/markdownit.ts:73 | The missing attribute prints as `data-line-begin="null"`. |

## Left out

- markdown-it itself is a foreign library: parsing, `renderToken`, `renderer.render`, the default `fence`/`math_block`/`math_block_eqno` rules, and the emoji, footnote, task-list and texmath/KaTeX plugins. They are function parameters.
- highlight.js is foreign. `getLanguage` is a predicate parameter, and `highlight` a function parameter whose `None` stands for a thrown exception.
- `hashCode` and `uniqueIdGen` (`util.ts`) are not part of this model. The diagram id is the string parameter `graphId`.
- `readChunks` (`read.ts`) is not part of this model. The input is an already framed and decoded `seq<string>`.
- The choice between decoding `chunk.buffer` and decoding the chunk itself is a `TextDecoder` detail and is not modelled.
- std/path's `normalize` is foreign and is a function parameter.
- The rest of `main.ts` is not modelled:
  - the HTTP and WebSocket upgrade, and the `onopen` callback;
  - the development-mode `ipc_dev.ts` branch;
  - logging, CLI flag parsing, the webview process and the signal handlers.
  These are I/O and asynchronous code.
- `Deno.exit()` is the outcome value `Exit`.
- JSON serialisation and `TextEncoder`: a reply is a datatype, not the encoded bytes.
- `scripts/build.js` is bundling tooling and is not modelled.
- `Render`, `LinkOpen` and `HeadingOpen` treat tokens as values in an array. One token object reached through two references is not modelled.
- `Serve`: the only failure modelled is a `socket.send` that throws. `render` and `normalize` throwing are not modelled.
- `MarkdownIt.ToLower`: only ASCII letters are lowercased, not full Unicode `toLowerCase`. This is exact here, because it is only applied after the deletion has left ASCII characters alone.
- Strings are sequences of Unicode scalar values, while JavaScript strings are UTF-16. So a lone surrogate cannot be represented, and an astral character is one element where JavaScript has two. This changes no result here: `TextDecoder` output is well formed, and `trim`, `split(' ')` and `/[^a-z0-9-]/gi` treat both halves of a surrogate pair alike.
- `Text.Split` and `Text.Join` cover only the one-character separator and plain joiner the rules use, not general `split`/`join`.

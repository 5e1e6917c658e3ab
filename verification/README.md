# dumi block assets and text utilities in Dafny

A Dafny model of two pieces of dumi, the documentation tool:

- **The block-asset dependency collector** (`src/assetParsers/block.ts`).
  - `parseCodeFrontmatter` finds the leading `/** … */` comment of a demo's code, strips its delimiters and line stars, and hands the rest to a YAML loader. Only when the loaded value is truthy does it return the code without the comment; otherwise it returns the raw text, comment included.
  - The collector plugin has two callbacks, `onResolve` and `onLoad`.
    - `onResolve` makes every specifier external unless it is the entry point or starts with `.`. Bare package names and absolute paths such as `/x/y.js` are treated alike. It records `Npm(version)` under the specifier only when `pkgUp` finds a manifest above the resolved file.
    - `onLoad` classifies each loaded file by its extension. It stores each supported file under a dependency key and records the file's path, except for the entry when a non-empty `entryPointCode` is supplied. Files with other extensions are neither stored nor recorded. For the entry file it also parses the frontmatter. Only when that frontmatter is truthy does it store the code without its comment, keep the frontmatter, and mirror four metadata fields onto the asset.
  - The callbacks are pure steps over the record `(asset, sources, frontmatter)`. `Collect` folds them over a sequence of bundler events and stops at the first fatal error.
- **Two string utilities** (`src/utils.ts`).
  - `getFileRangeLines` cuts the lines named by an `L<a>[-L<b>]` range out of a text. JavaScript `slice` semantics are modelled, including the negative start that `L0` produces.
  - The part of `getRoutePathFromFsPath` before kebab-casing:
    - backslashes become slashes;
    - a trailing `.` followed by word characters up to the end goes, together with a directly preceding `index` segment; `a/b.c-d` keeps its `.c-d`, since `-` is not a word character.

Modules:

- `Wrappers`: `Option` and `Result`.
- `JsText`: JavaScript's `\s`, `\d` and `\w` classes, and greedy runs of them.
- `Frontmatter`: `parseCodeFrontmatter`.
  - The regular expressions are specified as a unique "well cut" of the text: a lead, a comment, a gap and the code, with their greediness and laziness.
  - The parser's cut is proved to be that cut.
- `BlockCollector`: the callbacks, the fold, and the record's invariants.
- `RangeLines`: `getFileRangeLines`, with a parser for the range grammar and a line splitter.
- `RoutePath`: the path part of `getRoutePathFromFsPath`.

The program's collaborators are parameters.

- In the collector they are gathered in a `Host` record:
  - file reads;
  - `require.resolve`;
  - `pkgUp`;
  - the manifest's version;
  - Node's `path.join`, `path.relative`, `path.dirname` and `path.extname`;
  - `yaml.load`.
- A YAML value is `YamlDoc(truthy, props)`. The loader returns `None` when it throws, which the source turns into a `null` frontmatter.
- In `RoutePath`, `lodash.kebabCase` is the parameter `kebab`.

What the code does that its names do not suggest (the model follows the code):

- `opts.entryPointCode ?? readFileSync(...)` is applied to every loaded file, not only the entry (`OverrideReachesEveryFile`).
- Any specifier that starts with `.` is internal, whatever follows the dot. Internal specifiers resolve with `path.join(resolveDir, specifier)`.
- Plain-text files hand empty contents to the bundler, with the `text` loader.
- The four metadata keys are assigned even when the frontmatter lacks them, which makes them `undefined` (`None` in `meta`).
- An empty `entryPointCode` still replaces the file text, because `??` keeps `""`. The entry's source path is still recorded, because `!""` is true (`CodeSupplied`).

## Model

| member | source | states |
|---|---|---|
| Frontmatter.HeadBreakLength | src/assetParsers/block.ts:17 | `^\n\s*` removes nothing unless the text starts with a newline; otherwise it removes the newline and the whole white-space run after it |
| Frontmatter.CommentEnd | src/assetParsers/block.ts:19 | the lazy comment group ends at the least position where a `*/` closes a `/**` opening after a newline and white space; `None` exactly when no such close exists |
| Frontmatter.Dissect | src/assetParsers/block.ts:15-19 | the text splits into lead, comment, gap and code exactly as the two regular expressions split it |
| Frontmatter.WellCutUnique | src/assetParsers/block.ts:19 | the regular expressions determine the split uniquely |
| Frontmatter.StripSlashes | src/assetParsers/block.ts:23 | a leading slash and a trailing slash are each removed when present, and nothing else; a lone `/` becomes empty |
| Frontmatter.StarReplaceFromKeepsInk | src/assetParsers/block.ts:25 | removing the line-leading star runs keeps every significant character (neither white space nor a star) in order |
| Frontmatter.StarReplaceKeepsInk | src/assetParsers/block.ts:25 | the same holds for the whole replacement, including a match through the `^` alternative |
| Frontmatter.StarReplaceFromUnmatched | src/assetParsers/block.ts:25 | where no line break is followed by `\s*\*+`, the rest of the text comes through unchanged, inner stars, line breaks and indentation included |
| Frontmatter.StarReplaceUnmatched | src/assetParsers/block.ts:25 | a text where the pattern matches neither at the start nor after any line break is returned as it is |
| Frontmatter.LineStep | src/assetParsers/block.ts:25 | a line written as line break, white space, stars and a text that does not start with a star is replaced by the line break and that text, verbatim |
| Frontmatter.YamlTextOfComment | src/assetParsers/block.ts:21-25 | the YAML text of a recognised comment holds exactly the significant characters between `/**` and `*/` |
| Frontmatter.YamlTextOfStarLines | src/assetParsers/block.ts:21-25 | a comment written as `/**`, then lines of indentation, stars and text, then `*/` on its own line, gives the loader each text verbatim after a line break, with a final line break |
| Frontmatter.ParseCodeFrontmatter | src/assetParsers/block.ts:14-33 | the loader sees the YAML text of the comment the regular expressions capture; falsy frontmatter returns the raw text; truthy frontmatter returns the code group |
| Frontmatter.SingleLineHasNoFrontmatter | src/assetParsers/block.ts:15-32 | a text without a newline has no comment, so the loader sees the empty text; if that is falsy the code is the raw text |
| Frontmatter.CommentNeverInCode | src/assetParsers/block.ts:15-32 | with truthy frontmatter the code is what follows the lead, the comment and the white space, so none of the comment is in it |
| BlockCollector.OnResolve | src/assetParsers/block.ts:68-89 | internal specifiers resolve by join and keep their kind, with the record unchanged; external ones fail exactly when resolution fails; otherwise they are returned as external and only `dependencies[specifier]` can change, to `Npm(version)` exactly when a manifest is found |
| BlockCollector.Classify | src/assetParsers/block.ts:92-101 | module iff the extension is one of the four script extensions; plain text iff it is one of the six asset extensions; unsupported otherwise |
| BlockCollector.LoadKey | src/assetParsers/block.ts:102-107 | the entry's key is `index` plus its extension; any other key is the relative path with every backslash made a slash, and holds no backslash |
| BlockCollector.MirrorMeta | src/assetParsers/block.ts:127-132 | exactly the four metadata keys are assigned, each to the frontmatter's value, or `undefined` when it has none |
| BlockCollector.Register | src/assetParsers/block.ts:109-140 | the key maps to the stored text and no other dependency changes; the source is recorded when asked; merged frontmatter replaces the result's frontmatter and fills the metadata, otherwise both stay |
| BlockCollector.OnLoad | src/assetParsers/block.ts:91-148 | unsupported files change nothing and return nothing; supported ones fail exactly when no text can be read; otherwise the file is registered (entry frontmatter merged only when truthy, source kept unless a non-empty code was supplied for the entry); modules return the stored text with the extension as loader, plain text returns `''` with `text` |
| BlockCollector.EntryStoredWithoutComment | src/assetParsers/block.ts:113-124 | with truthy frontmatter the entry is stored as the code after its comment; otherwise it is stored as it was loaded |
| BlockCollector.SuppliedEntryHasNoSource | src/assetParsers/block.ts:113-140 | a supplied non-empty entry code is what the entry is stored as, minus its comment when the frontmatter is truthy, and no source path is recorded for it |
| BlockCollector.OverrideReachesEveryFile | src/assetParsers/block.ts:110-114 | with `entryPointCode` given, every other supported file is also stored with that code, and its path is recorded |
| BlockCollector.StepKeepsConsistent | src/assetParsers/block.ts:68-148 | each callback step keeps every source registered and the metadata mirroring the frontmatter; identity is kept and no key disappears |
| BlockCollector.CollectKeepsConsistent | src/assetParsers/block.ts:68-148 | the same holds after any sequence of events |
| BlockCollector.ParseBlockAssetConsistent | src/assetParsers/block.ts:41-154 | a finished parse is a `BLOCK` asset with the caller's id and atom ids; its sources are all registered; its metadata is untouched (frontmatter `{}`) or mirrors the frontmatter |
| BlockCollector.NoEntryNoFrontmatter | src/assetParsers/block.ts:117-133 | events without an entry load never change the frontmatter or the metadata |
| BlockCollector.CollectProvenance | src/assetParsers/block.ts:68-140 | every recorded source is the path of a load, and every npm dependency is a specifier that was resolved as external |
| BlockCollector.ParseBlockAssetProvenance | src/assetParsers/block.ts:41-154 | a whole parse records only loaded paths as sources, and only external specifiers as npm dependencies |
| RangeLines.DecimalValueOfDecimal | src/utils.ts:17 | `parseInt(…, 10)` reads back the decimal spelling of any number |
| RangeLines.ParseRange | src/utils.ts:14 | a recognised range satisfies the grammar `L<digits>[-L<digits>]`, and its groups render back to the input |
| RangeLines.RangeGrammar | src/utils.ts:14 | a range is recognised exactly when it is in the grammar |
| RangeLines.SplitLines | src/utils.ts:21 | splitting on `\r\n` or `\n` gives at least one piece, and no piece contains a newline |
| RangeLines.JoinSplit | src/utils.ts:20-23 | splitting and joining with `\n` gives the text back with `\r\n` turned into `\n` |
| RangeLines.SplitJoin | src/utils.ts:20-23 | joining lines that hold no `\n`, none but the last ending in `\r`, and splitting again gives the lines back |
| RangeLines.JsSlice | src/utils.ts:22 | `slice` with in-range indices is the subsequence; a reversed range is empty; the result is never longer than the range |
| RangeLines.GetFileRangeLines | src/utils.ts:13-27 | an absent range, or one outside the grammar, gives the content unchanged |
| RangeLines.SingleLine | src/utils.ts:17-23 | `L<n>` with `1 <= n <= line count`, the number spelt with any digits (leading zeros too), gives exactly the n-th line |
| RangeLines.LineSpan | src/utils.ts:17-23 | `L<a>-L<b>` with `1 <= a <= b`, numbers spelt with any digits, gives lines a to b, clipped to the line count and joined by `\n`; there are at most `b - a + 1` of them |
| RangeLines.ReversedSpan | src/utils.ts:17-23 | `L<a>-L<b>` with `b < a`, numbers spelt with any digits, gives the empty text |
| RangeLines.ZeroAlone | src/utils.ts:17-23 | `L0` gives the empty text, because `slice(-1, 0)` is empty |
| RangeLines.ZeroStart | src/utils.ts:17-23 | `L0-L<b>` gives the last line when `b` reaches it, and the empty text otherwise |
| RangeLines.WholeText | src/utils.ts:20-23 | `L1-L<line count>` gives the whole text with `\n` line ends |
| RoutePath.WinPath | src/utils.ts:7 | each backslash becomes a slash, and every other character stays in place |
| RoutePath.WinPathNormalises | src/utils.ts:7 | a normalised path has no backslash, and normalising it again changes nothing |
| RoutePath.WinPathSeparator | src/utils.ts:7 | a Windows separator between two segments becomes a slash |
| RoutePath.StripRouteSuffix | src/utils.ts:7 | the text is unchanged exactly when `((\/\|^)index)?\.\w+$` does not match; otherwise everything from the leftmost match on is cut |
| RoutePath.NoExtensionKeepsPath | src/utils.ts:7 | a path with no trailing `.word` keeps its tail |
| RoutePath.RouteIgnoresSeparatorStyle | src/utils.ts:6-8 | Windows and POSIX spellings of a path give the same route |
| RoutePath.ExampleIndexInFolder | src/utils.ts:7 | `a/index.md` becomes `a` |
| RoutePath.ExampleTopIndex | src/utils.ts:7 | `index.md` becomes the empty path |
| RoutePath.ExampleFile | src/utils.ts:7 | `a/b.tsx` becomes `a/b` |
| RoutePath.ExampleNoExtension | src/utils.ts:7 | `a/b.c-d` stays as it is |

## Left out

- The bundler's `build()` call, its options, its traversal order and its async hooks (`src/assetParsers/block.ts:53-63`). These belong to a foreign engine. The model takes the events as an abstract sequence.
- What the bundler does when `onLoad` returns `undefined` for an unsupported file. The model returns `NoContents` and leaves the record as it was.
- `fs.readFileSync`, `require.resolve`, `pkgUp.pkgUpSync` and Node's `path` helpers are oracles. A failing read or resolution is a `Fatal` result with no further detail.
- Reading the manifest's `version` is a total oracle.
  - A manifest with no `version` field is not modelled.
  - Neither is one that `require` cannot load.
- `js-yaml` is an oracle from text to an optional YAML value. Only its truthiness and its top-level properties are used.
- `lodash.kebabCase` is the parameter `kebab`.
- Frontmatter.YamlTextOfComment: for a comment in any layout it states only the significant characters. The exact text, with its line breaks, indentation and inner stars, is stated only for the usual layout (`YamlTextOfStarLines`) and for comments with no line-leading star run (`StarReplaceUnmatched`). For other layouts it follows from the definition of `StarReplaceFrom` alone.
- `winPath` keeps Windows extended-length paths (`\\?\…`) as they are. `RoutePath.WinPath` does not model that exception and replaces every backslash.
- RangeLines.GetFileRangeLines: numbers are exact. JavaScript's `parseInt` loses precision above 2^53, and that loss is not modelled.
- `getFileContentByRegExp` (`src/utils.ts:35-50`) is not modelled. It evaluates a regular expression from text with `eval`, and it logs errors.
- `src/preset.ts` and `src/client/theme-api/types.ts` are not part of this model. They hold a plugin list and type declarations, with no behaviour.

# sentryext: a verified model of the Sentry documentation extension's core

`sentryext.py` is a Sphinx extension used to build the Sentry
documentation. This project models its computational core in Dafny and
proves properties about it:

- **URL templates.** `iter_url_parts` splits an API path such as
  `/projects/{org}/{proj}/` into literal text and `{variable}` parts
  (module `UrlTemplate`).
- **Source preprocessing.** `preprocess_source` is the handler of the
  source-read event. It does three things:
  - expands `###name###` variables from the per-directory configuration;
  - drops `.. sentry:docedition::` lines;
  - keeps the indented block under `.. sentry:edition:: tags` only when the
    build variant is one of the tags, de-indenting it (`_find_block`).

  The regular expressions are modelled exactly as Python 2's `re` reads
  them (module `SourceSyntax`). This covers the greedy `(\s*)` that gives
  characters back, `.` stopping at a newline, `$` before a final newline,
  and `..` matching any two characters other than a newline. The line loop is modelled in
  module `Preprocess`. The Python string built-ins it relies on (`strip`,
  `split`, `expandtabs`, `splitlines`, `join`) are in module `PyStr`.
- **The reference map.** `sentry_referenced_docs` maps a document to the
  documents whose toctree lists it. It is built by
  `track_references_and_orphan_doc`, combined by `merge_info` and cleaned
  by `purge_info`. `is_referenced` searches it for a backlink chain to
  `index`. All of this is in module `References`: the environment is a
  class whose methods update the map in place.
- **The `auth` field label** of an API endpoint (`AuthField.make_entry`,
  module `AuthField`).
- **The table-of-contents selector** `extract_toc.matches`, and the test
  that keeps an entry by its container's classes (module `TocSelector`).
- **The platform index** written by the builder
  (`__process_platform_index`, module `PlatformIndex`).

Variable expansion depends on whether a configuration file was found.
With a configuration that has no `vars` table, every `###name###` expands
to the empty string. With no configuration at all, `cfg` is `None`, and
the first `###name###` on a line raises `AttributeError`. The model returns
`Err(MissingConfig)` in that case (`ExpandLine`), and `preprocess_source`
then leaves the source untouched and fails.

A block line indented by tabs is cut by the width of its expanded
indentation but as raw characters, so `_find_block` can cut away text
(`Preprocess.TabIndentedLineLost`). The model keeps this behaviour.

## Model

| member | source | states |
|---|---|---|
| PyStr.IsSpace | sentryext.py:557 | `unicode.isspace` of Python 2.7, which `strip` and `lstrip` use: the whitespace characters listed one by one. |
| PyStr.IsReSpace | sentryext.py:32 | The regular-expression class `\s` without the Unicode flag: space, tab, newline, carriage return, form feed and vertical tab. |
| PyStr.IsLineBreak | sentryext.py:548 | The line boundaries `unicode.splitlines` cuts at. |
| PyStr.Strip | sentryext.py:368-370 | `strip()` removes exactly the leading and trailing whitespace. The result is a slice of the input. It is empty iff the input is blank. A non-empty result neither starts nor ends with whitespace. |
| PyStr.StripClean | sentryext.py:368-370 | A text that neither starts nor ends with whitespace strips to itself. |
| PyStr.LeadingSpaceRun | sentryext.py:561 | `len(l) - len(l.lstrip())` is the length of the longest all-whitespace prefix. |
| PyStr.TrailingSpace | sentryext.py:368-370 | The trailing run is all whitespace and maximal. |
| PyStr.Split | sentryext.py:369 | `split(',')` always gives at least one piece, and no piece holds the separator. |
| PyStr.SplitJoin | sentryext.py:369 | Joining the pieces of a split with the separator gives the text back. |
| PyStr.JoinSplit | sentryext.py:369 | Splitting pieces joined by a separator they do not contain gives the pieces back. |
| PyStr.CommaSetOfJoin | sentryext.py:599 | A comma-separated list of clean, non-empty items reads back as exactly the set of the items. |
| PyStr.IndexOf | sentryext.py:788 | `split('.', 1)` cuts at the first dot: the dot is there and not before. |
| PyStr.LastIndexOf | sentryext.py:259 | `rsplit('/', 1)` cuts at the last slash: the slash is there and not after. |
| PyStr.LeadingSpace | sentryext.py:561 | The length of the leading whitespace of a line; never longer than the line. Its meaning is proved by `LeadingSpaceRun`. |
| PyStr.Join | sentryext.py:381 | `sep.join(pieces)`; `SplitJoin` and `JoinSplit` prove it is the inverse of `split`. |
| PyStr.CommaSet | sentryext.py:368-370 | The set of non-empty stripped items of a comma-separated list; `CommaSetOfJoin` proves it reads a clean list back as its items. |
| PyStr.ExpandTabsFrom | sentryext.py:551 | `expandtabs()` leaves no tab and never shortens the text. |
| PyStr.ExpandTabs | sentryext.py:551 | `expandtabs()` with tab size 8 starting at column 0; its lemmas below fix its result on indentation. |
| PyStr.Column | sentryext.py:560 | The column a run of spaces and tabs ends at: a space advances one column, a tab to the next multiple of 8. It is never left of the start. |
| PyStr.ExpandTabsWithoutTabs | sentryext.py:551 | Text without a tab is left unchanged by `expandtabs()`. |
| PyStr.ExpandTabsBlank | sentryext.py:560 | A leading space becomes one space and a leading tab becomes `TabWidth(col)` spaces, then expansion goes on from the new column. |
| PyStr.ExpandTabsRunIndent | sentryext.py:560-561 | After a run of spaces and tabs followed by a non-space, the expanded line's leading whitespace is exactly the columns the run spans. |
| PyStr.ExpandTabsRunWidth | sentryext.py:551 | A run of spaces and tabs expands to as many spaces as the columns it spans. |
| PyStr.TabWidth | sentryext.py:560 | A tab advances to the next multiple of 8 columns. |
| PyStr.ReplaceChar | sentryext.py:797 | `replace('.', '/')` replaces every dot and changes nothing else. |
| PyStr.BreakIndex | sentryext.py:548 | The first line boundary, and none before it. |
| PyStr.SplitLines | sentryext.py:548 | `splitlines()`: `\r\n` is one boundary, and no empty line follows a final boundary. `SplitLinesNoBreak` and `SplitLinesJoin` prove its meaning. |
| PyStr.SplitLinesNoBreak | sentryext.py:548 | No line from `splitlines()` holds a line boundary. |
| PyStr.SplitLinesJoin | sentryext.py:548 | For text whose only boundaries are newlines, joining its lines with newlines gives the text back, less one final newline. |
| UrlTemplate.MatchAt | sentryext.py:34 | `\{(.*?)\}` spans an opening brace, characters other than a newline or `}`, and the first closing brace. |
| UrlTemplate.CloseFrom | sentryext.py:34 | The non-greedy `.*?\}` ends just past the first `}` that no newline precedes, or there is none. |
| UrlTemplate.FindVar | sentryext.py:79 | `finditer` finds the leftmost match at or after the cursor, or no match exists from there on. |
| UrlTemplate.PartsFrom | sentryext.py:79-87 | The parts the generator yields from position `last` on; `RenderPartsFrom` proves they render back to the text scanned. |
| UrlTemplate.UrlParts | sentryext.py:77-87 | The parts of a whole template; `RenderUrlParts` and `UrlPartsWellFormed` prove the round trip and their shape. |
| UrlTemplate.IterUrlParts | sentryext.py:77-87 | The generator's loop yields exactly the parts of the scan: the text before each match when non-empty, the match's group, and the non-empty rest. |
| UrlTemplate.RenderPartsFrom | sentryext.py:77-87 | Writing each part back, variables inside braces, gives the text scanned from the cursor. |
| UrlTemplate.RenderUrlParts | sentryext.py:77-87 | Round trip: the parts of a template render back to the template. |
| UrlTemplate.RenderAppend | sentryext.py:77-87 | Rendering distributes over concatenation of part lists. |
| UrlTemplate.UrlPartsWellFormed | sentryext.py:80-87 | No literal part is empty, and two literal parts are never adjacent. |
| UrlTemplate.LiteralRescans | sentryext.py:34 | A literal part contains no match, so scanning it alone yields that one literal. |
| UrlTemplate.VariableRescans | sentryext.py:34 | A variable written back in braces scans as that one variable. |
| UrlTemplate.UrlPartsRescan | sentryext.py:77-87 | Every part of a template, rendered alone, scans back to itself. |
| SourceSyntax.TailGroup | sentryext.py:32-33 | `\s*(.*?)$` at a position: skip the whitespace run, then capture up to the end or a final newline; no match when a newline comes earlier. |
| SourceSyntax.DirectiveAt | sentryext.py:32-33 | `..\s+keyword\s*(.*?)$` at a position: two non-newline characters, at least one whitespace character, the keyword, then the tail group. |
| SourceSyntax.EditionFrom | sentryext.py:32 | The greedy `(\s*)` of `_edition_re` giving back one character at a time until the rest of the pattern matches. |
| SourceSyntax.ReSpaceRun | sentryext.py:32 | The run of regex `\s` characters at a position is all `\s` and maximal. |
| SourceSyntax.EditionFromIsLongest | sentryext.py:32 | Backtracking from column k finds the directive at the largest column not beyond k, or at no column up to k. |
| SourceSyntax.EditionMatch | sentryext.py:32 | `_edition_re.match(line)` as its indentation and tags groups; its meaning is proved by `EditionMatchIsLongest`, `EditionMatchAtRun` and `EditionLineParses`. |
| SourceSyntax.EditionMatchIsLongest | sentryext.py:32 | `_edition_re.match` succeeds iff the directive follows some whitespace prefix. The captured indentation is the longest such prefix. |
| SourceSyntax.EditionMatchAtRun | sentryext.py:32 | A directive just after the whole whitespace run is the match, with that run as indentation. |
| SourceSyntax.TailGroupOfLine | sentryext.py:32-33 | `\s*(.*?)$` always matches a tail without newlines, capturing the tail when it does not start with whitespace. |
| SourceSyntax.DirectiveAtLayout | sentryext.py:32-33 | `..\s+keyword\s*(.*?)$` matches `.. keyword text` and captures the text. |
| SourceSyntax.DirectiveAtSpelled | sentryext.py:32-33 | The same after any prefix, at the prefix's end. |
| SourceSyntax.EditionLineParses | sentryext.py:32 | `<indent>.. sentry:edition:: <tags>` parses back into its indentation and its tags. |
| SourceSyntax.DocEditionMatch | sentryext.py:33 | `_docedition_re.match(line)` succeeds: the directive at column 0 only. |
| SourceSyntax.DocEditionLineParses | sentryext.py:33 | `.. sentry:docedition:: <text>` is recognised at column 0. |
| SourceSyntax.IsWordChar | sentryext.py:35 | The class `[a-zA-Z0-9_]`. |
| SourceSyntax.WordRun | sentryext.py:35 | The run of `[a-zA-Z0-9_]` characters at a position is maximal. |
| SourceSyntax.RefAt | sentryext.py:35 | A match of `###([a-zA-Z0-9_]+)###` spans `###`, a non-empty name of word characters, then `###`. Conversely, `###` followed by a non-empty word run and `###` is a match. |
| SourceSyntax.WordRunFrom | sentryext.py:35 | A word run ends at the first non-word character. |
| SourceSyntax.RefAtFinds | sentryext.py:35 | A `###name###` written at a position is matched there, with exactly that name and end. |
| SourceSyntax.RefNames | sentryext.py:35 | The names of the references `re.sub` replaces, left to right, non-overlapping. |
| SourceSyntax.Lookup | sentryext.py:579 | `(cfg.get('vars') or {}).get(key) or u''`: a missing table or key gives the empty string. |
| SourceSyntax.ExpandFrom | sentryext.py:576-580 | `re.sub` from a position: each reference replaced by its value, other characters copied. |
| SourceSyntax.ExpandVars | sentryext.py:576-580 | `_expand_vars(line)` when a configuration is present. |
| SourceSyntax.ExpandRef | sentryext.py:576-580 | A reference at the cursor is replaced by the value of its name, and expansion goes on after it. |
| SourceSyntax.ExpandPlain | sentryext.py:580 | A character other than `#` is copied unchanged. |
| SourceSyntax.ExpandSingle | sentryext.py:576-580 | `###name###` alone expands to the name's value, or to the empty string when there is no table or the name is missing from it. |
| SourceSyntax.ExpandWithoutHash | sentryext.py:580 | Text without `#` expands to itself. |
| SourceSyntax.ExpandLine | sentryext.py:576-580 | Expansion fails iff there is no configuration and the line holds a reference. |
| SourceSyntax.ExpandFromSelf | sentryext.py:576-580 | If every referenced name maps to its own `###name###` text, `re.sub` returns the line unchanged. |
| SourceSyntax.ExpandWithoutRefs | sentryext.py:576-580 | A line without references expands to itself, whatever the table. |
| SourceSyntax.ExpandFromLocal | sentryext.py:577-579 | Only the values of the names a line references affect its expansion. |
| Preprocess.Indent | sentryext.py:560-561 | The indentation of a line, counted on its tab-expanded form. |
| Preprocess.IndentOfRun | sentryext.py:560-561 | A line starting with spaces and tabs is indented by the column that run reaches. |
| Preprocess.BlockIndentWidth | sentryext.py:551 | `len(indent.expandtabs())` of a directive's indentation is the column it reaches. |
| Preprocess.InBlock | sentryext.py:557-567 | `_find_block` takes a line iff it is blank or indented deeper than the directive. |
| Preprocess.BlockEnd | sentryext.py:555-568 | `_find_block` stops at the first line that is neither blank nor indented deeper than the directive, or at the end. |
| Preprocess.BlockEndUnique | sentryext.py:555-568 | That stopping rule determines the stop. |
| Preprocess.MinIndent | sentryext.py:563-564 | `actual_indent` after the collected lines, updated line by line. |
| Preprocess.Track | sentryext.py:557-564 | One collected line's update of `actual_indent`: blank lines leave it, a shallower line lowers it. |
| Preprocess.MinIndentNone | sentryext.py:563-564 | `actual_indent` stays None iff every collected line is blank. |
| Preprocess.MinIndentIsLower | sentryext.py:563-564 | No non-blank collected line is indented less than `actual_indent`. |
| Preprocess.MinIndentAttained | sentryext.py:563-564 | `actual_indent` is the indentation of some non-blank collected line. |
| Preprocess.DedentShape | sentryext.py:570-573 | An empty collection gives an empty block. Otherwise, blank lines come out empty, every other line loses `actual_indent` characters, and one empty line ends the block. |
| Preprocess.Blanked | sentryext.py:557-566 | What `rv` holds for a collected line: `u''` for a blank line, the line itself otherwise. |
| Preprocess.Collected | sentryext.py:556-566 | `rv` after the collected lines, in order. |
| Preprocess.Drop | sentryext.py:573 | `x[n:]`, empty when n is past the end. |
| Preprocess.DropAll | sentryext.py:573 | `[x[n:] for x in rv]`. |
| Preprocess.FinishBlock | sentryext.py:570-574 | An empty `rv` stays empty; otherwise an empty line is appended and, when `actual_indent` is set and non-zero, every line loses that many characters. |
| Preprocess.Dedent | sentryext.py:569-573 | What `_find_block` returns for the lines it collected; `DedentShape` proves its shape. |
| Preprocess.DedentOneLine | sentryext.py:560-573 | A one-line block loses as many raw characters as its indentation spans in columns, then ends with an empty line. |
| Preprocess.TabIndentedLineLost | sentryext.py:570-573 | The block of the single line `\tfoo` is two empty lines: the tab counts for 8 characters and the text is cut away. |
| Preprocess.FindBlock | sentryext.py:550-574 | The loop returns the block end and the de-indented block of the lines it took. |
| Preprocess.EmitSegment | sentryext.py:592-603 | What one step adds to `result`: a plain line itself, a docedition line nothing, an edition block only when the variant is among its tags. |
| Preprocess.Emit | sentryext.py:586-603 | The steps' contributions concatenated in order. |
| Preprocess.PreprocessFrom | sentryext.py:586-603 | The output from a line on: the emitted steps of a successful scan, or its failure. |
| Preprocess.Scan | sentryext.py:586-603 | The main loop's steps from a line on, or the failure of the first line that cannot be expanded; `ScanTiles` proves they tile the source. |
| Preprocess.Preprocess | sentryext.py:582-605 | The lines `preprocess_source` keeps before joining them; `PreprocessFromStep`, `PreprocessWithConfig` and `PreprocessPlainText` prove its meaning. |
| Preprocess.ScanStep | sentryext.py:586-601 | One pass of the main loop starts at its line and moves strictly forward, staying within the source. |
| Preprocess.PreprocessFromStep | sentryext.py:586-603 | The output of a pass comes before the output of the rest, and a failing expansion fails the whole. |
| Preprocess.PreprocessFromPlain | sentryext.py:589-596 | A line that is not an edition directive is kept, unless it is a docedition line, and the scan moves to the next line. |
| Preprocess.PreprocessFromEdition | sentryext.py:597-603 | An edition directive contributes its de-indented block iff the variant is one of its tags, and scanning resumes where the block ends. |
| Preprocess.ScanTiles | sentryext.py:586-603 | A successful scan splits the source into steps without gap or overlap. Each step is what the code makes of the line it starts at. |
| Preprocess.ScanWithConfig | sentryext.py:576-580 | With a configuration present the scan never fails. |
| Preprocess.PreprocessWithConfig | sentryext.py:546-605 | Only a missing configuration makes preprocessing fail. |
| Preprocess.PreprocessWithoutRefs | sentryext.py:576-580 | Without references, a missing configuration gives the same result as an empty table, and succeeds. |
| Preprocess.ExpandAll | sentryext.py:588 | Each line expanded on its own. |
| Preprocess.PreprocessPlainText | sentryext.py:586-596 | A source without directives comes out line for line, each line with its variables expanded. |
| Preprocess.ProcessLine | sentryext.py:586-603 | The loop body appends what the specification emits for its step and advances past it, or reports the failure. |
| Preprocess.PreprocessLines | sentryext.py:582-603 | The main loop computes the specification `Preprocess`. |
| Preprocess.PreprocessSource | sentryext.py:546-605 | The source becomes the kept lines joined by newlines. On failure it is left unchanged. |
| References.Get | sentryext.py:650-656 | `references.get(name) or ()`: a missing key has no backlinks. |
| References.AddRef | sentryext.py:620 | `setdefault(...).add(docname)` adds the key if new and adds `docname` to its set, leaving other keys unchanged. |
| References.Tracked | sentryext.py:618-620 | The map after a document's toctree entries were recorded in order; `TrackedClosedForm` gives its closed form. |
| References.TrackedClosedForm | sentryext.py:618-620 | After tracking, the keys are the old keys plus the entries. Each set is its old members plus `docname` exactly when the key is an entry. |
| References.TrackedNoEmpty | sentryext.py:618-620 | Tracking never introduces an empty set. |
| References.MergedNoEmpty | sentryext.py:625-630 | Merging two maps without empty sets introduces none. |
| References.Purged | sentryext.py:633-643 | `purge_info` as one map: `docname` leaves every set and keys left empty are dropped; `PurgedSpec` proves it. |
| References.PurgedSpec | sentryext.py:633-643 | After a purge `docname` is in no set and no set is empty. Sets that held neither `docname` nor nothing are unchanged, and no key or member is added. |
| References.PurgedIdempotent | sentryext.py:633-643 | Purging twice is purging once. |
| References.BuildEnv.BuilderInited | sentryext.py:608-612 | Creates an empty map unless one exists, which is kept. |
| References.BuildEnv.TrackReferences | sentryext.py:615-620 | The loop leaves the map tracked with the doctree's entries in order. |
| References.BuildEnv.MergeInfo | sentryext.py:625-630 | Nothing changes when the other environment has no map. Otherwise the map becomes this map (empty if absent) updated with the other, the other's set winning per key. |
| References.BuildEnv.PurgeInfo | sentryext.py:633-643 | The discard pass and the pop pass together leave exactly `Purged`, and no map stays no map. |
| References.IsReferenced | sentryext.py:646-661 | True iff the document is `index` or a chain of backlinks leads from it to `index`. |
| References.ClosedUnreachable | sentryext.py:646-661 | If the search ends without meeting `index`, the names it saw are closed under backlinks, so `index` is unreachable. |
| References.IndexEntriesReferenced | sentryext.py:615-620 | Once `index` has been read, every entry of its toctree is referenced. |
| AuthField.MakeEntry | sentryext.py:366-384 | The entry keeps the field argument, and its text is `Label` of the flags read from the content. Its text starts with the level word the flags select, and ends with the user-context note iff that flag is among them. |
| AuthField.LevelWord | sentryext.py:371-376 | The words `required`, `optional` and `unauthenticated` for the three levels. |
| AuthField.Flags | sentryext.py:368-370 | The flag set read from the field's content. |
| AuthField.LevelOf | sentryext.py:371-376 | `required` wins over `optional`, and neither means unauthenticated. |
| AuthField.Label | sentryext.py:371-381 | `', '.join(rv)` of the level word and the optional note. |
| AuthField.LabelShape | sentryext.py:371-381 | The label is the level word, followed by `, user context needed` exactly when the flag is present. |
| AuthField.LabelLevel | sentryext.py:371-376 | The label starts with `required` iff that flag is set. It starts with `optional` iff that flag is set without `required`. It starts with `unauthenticated` iff neither is set. |
| AuthField.LabelNote | sentryext.py:378-381 | The label ends with `, user context needed` iff the flag is set. |
| AuthField.LabelInjective | sentryext.py:371-381 | Two labels are equal iff they agree on the level and on the user-context flag. |
| AuthField.FlagsOfList | sentryext.py:368-370 | A clean comma-separated flag list is read as the set of its items. |
| TocSelector.Parent | sentryext.py:259 | `rsplit('/', 1)[0]` is the text before the last slash, or the whole reference without one. |
| TocSelector.IsWildcard | sentryext.py:258 | `selector.endswith('/*')`. |
| TocSelector.Matches | sentryext.py:257-260 | `matches(ref, selector)`; `MatchesPlain` and `MatchesWildcard` prove what each selector form picks. |
| TocSelector.MatchesPlain | sentryext.py:260 | A selector without the wildcard matches only itself. |
| TocSelector.MatchesWildcard | sentryext.py:258-259 | `dir/*` matches a reference iff it is `dir/name` with no slash in `name`, or it is `dir` itself without any slash. |
| TocSelector.ChildMatches | sentryext.py:258-259 | Every document directly under a directory matches its wildcard. |
| TocSelector.ClassSelected | sentryext.py:265-266 | `cls[:4] == 'ref-'` and some selector matches `cls[4:]`. |
| TocSelector.AnyMatch | sentryext.py:265-267 | The inner `any` over the selectors. |
| TocSelector.ContainerSelected | sentryext.py:264-269 | The outer `any` over the container's classes. |
| TocSelector.AnyMatchExists | sentryext.py:266-267 | The inner `any` holds iff some selector matches. |
| TocSelector.ContainerSelectedExists | sentryext.py:264-269 | An entry is kept iff some class is `ref-` followed by a reference that some selector matches. |
| PlatformIndex.Details | sentryext.py:797 | The details path is the uid with dots turned into slashes, plus `.json`. |
| PlatformIndex.EntryOf | sentryext.py:796-801 | The entry filed for a uid: its details path and the platform's name, type and doc link. |
| PlatformIndex.Place | sentryext.py:786-795 | A kept dotted uid is filed under a dot-free base that is a platform; a uid that is itself a platform is filed under a platform too. A uid without a dot is filed as `(uid, '_self')`. A dotted uid that is kept is its base and local name joined by the dot. |
| PlatformIndex.File | sentryext.py:796 | `tree.setdefault(base, {})[local_name] = entry`. |
| PlatformIndex.PlaceDropped | sentryext.py:787-792 | `base.rest` is dropped iff `base` is not a platform, and otherwise filed under `(base, rest)`. |
| PlatformIndex.PlaceCollision | sentryext.py:786-795 | Two different uids share a place only as `b` and `b._self`. |
| PlatformIndex.ProcessPlatformIndex | sentryext.py:783-803 | The loop builds the specification `Index` and reports each missing base, in iteration order. |
| PlatformIndex.Index | sentryext.py:783-803 | The tree after the uids were filed in iteration order; `IndexSpec` proves what it holds. |
| PlatformIndex.Missing | sentryext.py:788-791 | The `Missing platform` reports, in order, as `(base, uid)` pairs. |
| PlatformIndex.IndexSpec | sentryext.py:783-803 | A place holds an entry iff some uid is filed there, and the entry is that of the last such uid. |
| PlatformIndex.IndexBases | sentryext.py:786-796 | Every base in the index is a platform. |
| PlatformIndex.IndexEntry | sentryext.py:783-803 | Without a `b`/`b._self` pair, every kept uid's own entry is at its place, whatever the order. |

## Left out

- `find_config` walks the filesystem to find the configuration. The
  configuration it returns is a parameter (`Option<Config>`), and only its
  `vars` table is modelled.
- SourceSyntax.Lookup: the `vars` values are strings. The source accepts
  any JSON value there: a falsy non-string value (0, false, an empty list)
  also becomes `u''`, and a truthy non-string value makes `re.sub` raise.
  Neither case is modelled.
- The build variant `app.env.config.sentry_doc_variant` is a parameter.
  `None` is in no tag set.
- Sphinx's document tree is not modelled.
  - A doctree's toctree entries are given as the sequence of their
    reference strings.
  - The `str()` conversion of an entry is not modelled.
  - The `orphan` metadata that `track_references_and_orphan_doc` writes is
    not modelled.
  - `extract_toc`'s node copying (`deepcopy`, re-parenting) is not
    modelled. Only the selection rule is.
- `__process_platform_index` makes outside effects that become values:
  - Its `Missing platform` messages to stderr are returned as a list of
    `(base, uid)` pairs.
  - The dict's iteration order is the parameter `order`, a sequence of
    distinct keys that covers the dict.
  - The JSON values are strings.
- `AuthField.make_entry` builds an inline node. The model returns its text.
- References.BuildEnv.MergeInfo: the source's dict update shares the other
  environment's set objects. The model copies values, so later in-place
  changes through one map are not seen in the other.
- References.BuildEnv.TrackReferences requires the map to exist. Without
  it, the source raises `AttributeError` reading the attribute, and that
  crash is not modelled.
- `is_referenced` takes names out of a Python set with `pop()`, in an
  order the source does not fix. The model chooses any pending name, and
  its contract holds for every choice.
- Strings are sequences of Unicode scalar values. The UTF-16 surrogate
  pairs of a narrow Python 2 build are not modelled. Whitespace and line
  boundaries follow Python 2.7's character tables.
- The rest of `sentryext.py` is not part of this model:
  - the directives
  - toctree resolution and HTML rendering
  - the wizard and platform JSON writers
  - the sitemap

# Expensely Pro: admin dashboard and English-site tools

Expensely Pro is an expense-tracking product. This project models two parts of its
repository.

The first is the **admin dashboard**, admin/app.js together with `getAdminStatus` from
admin/auth.js. The page waits for the identity provider to report a user and checks the
user's admin claim. It signs out and later redirects anyone who is not an admin. For an
admin, on the first admin event only, it loads the eight newest `weekly_reports`
documents. It then shows summary tiles for the newest report, a table (newest first) and
a line chart (oldest first).

The second is three **maintenance scripts** that rewrite every `.html` file under `en/`.
Each file is backed up once (`<file>.bak`, never overwritten) before its first rewrite:

- `inject_schema_en.py` removes the old Article and FAQPage JSON-LD blocks of an article
  page. It builds a new Article record and, when the page has an FAQ section, a FAQPage
  record of at most eight questions. It inserts both before the first `</head>`.
- `inject_header_footer_en.py` replaces the marked header and footer blocks with the
  shared partials. Where a page has neither the marker nor the tag, it injects the
  partial after `<body…>` or before `</body>`. A page where that injection finds no body
  tag is counted as a problem and left alone.
- `add_last_updated_en.py` adds a "Last updated" paragraph with a `<time datetime>` after
  the first `</h1>` of article pages that have no time tag yet.

## Structure

| file | module | contents |
|---|---|---|
| text.dfy | `Text` | Python's whitespace class and `str.strip`, ASCII case folding, first-occurrence search, `str.replace(…, 1)`, `re.sub(r"\s+", " ", …)`, `re.sub(r"<[^>]+>", "", …)` and `strip_tags` |
| site.dfy | `SiteFiles` | the `en/` tree as a class `SiteDir` holding the page texts and the backups. It includes the backup-once write and the specification functions for a whole run: the texts after it, the files written and the backups. |
| dashboard.dfy | `Dashboard` | the report shaping as functions, and the page as a class `DashboardPage` whose methods update its state as the handlers do |
| schema.dfy | `SchemaInject` | `inject_schema_en.py` |
| header_footer.dfy | `HeaderFooter` | `inject_header_footer_en.py` |
| last_updated.dfy | `LastUpdated` | `add_last_updated_en.py` |

How each part is modelled:

- **Run loops.** Each script's `main` loop is a method over a `SiteDir`. It is proved
  against `Rewrite`, `Written` and `BackupsAfter`, and lemmas state what a run promises.
- **Searches.** Each regular-expression search that decides a branch is a hand-written
  scanner over `seq<char>`. Each scanner is proved equivalent to a predicate that says
  where the pattern matches.
- **Whole-page regexes.** Substitutions over the whole page (the JSON-LD blocks, the FAQ
  captures and the meta, paragraph, time and image captures) take their captures as
  input.

One quirk is modelled as the code has it. `en/index.html` gets the canonical fallback
path `/en//` (`SchemaInject.IndexCanonical`): line 181 of `inject_schema_en.py` drops the ten characters
`index.html` and then appends `/`.

## Model

| member | source | states |
|---|---|---|
| Text.Find | tools/inject_schema_en.py:142 | the search succeeds exactly when the pattern occurs, and then it gives the first occurrence |
| Text.FindFromIgnoreCase | tools/add_last_updated_en.py:38 | a case-insensitive search from a position finds the first match at or after it, or reports that there is none |
| Text.ReplaceFirst | tools/inject_schema_en.py:143 | without an occurrence the text is unchanged; with one, its length changes by the replacement's length minus the pattern's |
| Text.ReplaceFirstSplit | tools/inject_schema_en.py:143 | replacing once cuts the text at the first occurrence and puts the replacement in its place, leaving the rest as it was |
| Text.InsertAfterFirst | tools/add_last_updated_en.py:27 | replacing the first marker by the marker plus a tail inserts the tail right after the first marker |
| Text.Strip | tools/inject_header_footer_en.py:18 | the stripped text is a slice of the input with only whitespace before and after it, and it neither starts nor ends with whitespace |
| Text.StripAppendSpace | tools/inject_header_footer_en.py:18 | stripping an already stripped text followed by a newline gives the stripped text back |
| Text.CollapseCollapsed | tools/inject_schema_en.py:37 | after collapsing whitespace runs, no two whitespace characters are adjacent and every whitespace is a single space |
| Text.CollapseNonSpace | tools/inject_schema_en.py:37 | collapsing whitespace keeps every non-whitespace character, in order |
| Text.WordsAreWords | tools/inject_schema_en.py:37 | every piece of the whitespace split (`str.split()`, the reference for the normalisation) is a non-empty run of non-whitespace |
| Text.NormalizeSpace | tools/inject_schema_en.py:37 | the result is `" ".join(s.split())`: the words of the input, in order, one space apart. So it has single spaces only, none at either end, and the same non-whitespace characters in the same order |
| Text.NormalizeSpaceIdempotent | tools/inject_schema_en.py:37 | an already normal text is unchanged |
| Text.RemoveTags | tools/inject_schema_en.py:36 | removing tags never lengthens the text, introduces no new character, and keeps a first character that is not `<` |
| Text.RemoveTagsTagFree | tools/inject_schema_en.py:36 | no complete `<…>` tag is left after removal |
| Text.RemoveTagsPlainText | tools/inject_schema_en.py:36 | a text without `<` is unchanged |
| Text.RemoveTagsKeepsText | tools/inject_schema_en.py:36 | text without `<` in front of anything is kept as it is, and removal goes on after it |
| Text.RemoveTagsDropsTag | tools/inject_schema_en.py:36 | a complete tag `<t>` with a non-empty inside free of `>` is dropped, and removal goes on after it |
| Text.RemoveTagsKeepsStrayOpen | tools/inject_schema_en.py:36 | a `<` that opens no tag (no `>` after it, or `>` right after it) is kept, and removal goes on after it; with RemoveTagsKeepsText and RemoveTagsDropsTag this fixes the result on every input |
| Text.StripTags | tools/inject_schema_en.py:35-38 | the result is the words of the tag-removed text joined by single spaces; it is tag-free and space-normal and no longer than the input |
| SiteFiles.BackupName | tools/inject_header_footer_en.py:21 | the backup path starts with the file path and ends with `.bak`, and has no other character |
| SiteFiles.BackupNameInjective | tools/inject_header_footer_en.py:21 | two different files never share a backup |
| SiteFiles.Rewrite | tools/add_last_updated_en.py:34-57 | a run creates and removes no page: the set of paths is unchanged |
| SiteFiles.RewriteResult | tools/add_last_updated_en.py:34-57 | after a run, every listed page holds its rewrite of the original text and every other page is unchanged |
| SiteFiles.Written | tools/add_last_updated_en.py:50-57 | the files a run writes are among the listed ones, and there are no more of them than listed files |
| SiteFiles.WrittenMembers | tools/add_last_updated_en.py:50 | a file is written exactly when it is listed and its new text differs from its original text |
| SiteFiles.BackupsAfterKeepsExisting | tools/inject_header_footer_en.py:22 | an existing backup is never overwritten |
| SiteFiles.BackupsAfterHoldsOriginal | tools/inject_header_footer_en.py:22-23 | a written file that had no backup ends with its original text as the backup |
| SiteFiles.BackupsAfterOnlyWritten | tools/inject_header_footer_en.py:20-23 | every backup after a run existed before it or belongs to a written file |
| SiteFiles.CommitStep | tools/add_last_updated_en.py:50-57 | one loop iteration extends the run so far by one file: the file still held its original text, and the new texts, backups and changed count are those of the run one file longer |
| SiteFiles.SiteDir.EnsureBackup | tools/inject_header_footer_en.py:20-23 | the backup is created with the original text only when it does not exist; nothing else changes |
| SiteFiles.SiteDir.Commit | tools/inject_schema_en.py:200-208 | an unchanged text writes nothing. A changed text is written, after a backup of the original if none exists. The result says whether it wrote. |
| SiteFiles.SiteDir.WriteText | tools/inject_schema_en.py:205 | only the written page changes |
| Dashboard.OrZero | admin/app.js:28-31 | a truthy field stays as it is, and any falsy one becomes 0 |
| Dashboard.FormatNumber | admin/app.js:21-23 | the literal "0" exactly for a non-finite value; a finite number is shown as itself |
| Dashboard.TileReadsZero | admin/app.js:25-31 | a tile reads 0 exactly when the field is not a non-zero finite number |
| Dashboard.KpisOf | admin/app.js:25-31 | the "total users" tile repeats active users. No report gives four zeros. Otherwise each tile reads its finite field, or 0. |
| Dashboard.LabelOrDash | admin/app.js:39 | a week label that is missing or empty is shown as "-"; any other is shown as is |
| Dashboard.TableOf | admin/app.js:34-46 | one row per report, in the given order, each built from its own report |
| Dashboard.ReverseReverse | admin/app.js:142 | reversing the copy twice gives the reports back |
| Dashboard.SeriesOf | admin/app.js:48-52 | the four chart series have one entry per report, each copied from that report |
| Dashboard.ChartIsChronological | admin/app.js:138-143 | the k-th chart point is the k-th report counted from the end of the newest-first batch |
| Dashboard.ChartNewestLast | admin/app.js:138-143 | the newest report is the chart's last point and the oldest its first |
| Dashboard.GetAdminStatus | admin/auth.js:18-22 | admin exactly when a user exists and the refreshed token carries the claim; a failed refresh propagates only for an existing user |
| Dashboard.FailureMessage | admin/app.js:146-152 | the rules message exactly for `permission-denied`, the retry message for every other code |
| Dashboard.EmailText | admin/app.js:177 | the shown email is the user's email when it is present and non-empty, and "Admin" otherwise |
| Dashboard.DashboardPage.constructor | admin/app.js:9-10 | nothing loaded, no chart, an empty user email, both chart counters at zero, no calls made; the status reports a missing identity wrapper (lines 190-194) |
| Dashboard.DashboardPage.SetStatus | admin/app.js:15-19 | the status text and kind are the given ones |
| Dashboard.DashboardPage.UpdateKpis | admin/app.js:25-31 | the tiles show the tile values of the given report |
| Dashboard.DashboardPage.RenderTable | admin/app.js:34-46 | the table holds exactly the rows of the given reports |
| Dashboard.DashboardPage.DestroyChart | admin/app.js:55-57 | the current chart is marked destroyed, counted once if it was live, and the chart invariant holds |
| Dashboard.DashboardPage.RenderChart | admin/app.js:48-101 | a new live chart of the given series replaces the old one, which is destroyed first; at most one chart is ever live |
| Dashboard.DashboardPage.ShowEmpty | admin/app.js:119-125 | zero tiles, an empty table, the chart destroyed but kept, and the success status |
| Dashboard.DashboardPage.ShowReports | admin/app.js:127-145 | the tiles show the newest report, the table runs newest first, the chart runs oldest first, and the status is cleared |
| Dashboard.DashboardPage.ShowFailure | admin/app.js:146-153 | the error status carries the message for the error code |
| Dashboard.DashboardPage.Deny | admin/app.js:170-174 | the error status, one sign-out and one delayed redirect |
| Dashboard.DashboardPage.LoadReports | admin/app.js:103-154 | Without a store: an error status and no fetch. With one: exactly one fetch, and then the state of the failure, empty or reports branch. |
| Dashboard.DashboardPage.HandleAuth | admin/app.js:160-188 | No user: a redirect, and the status, tiles, table, chart and email are unchanged. A non-admin or failed check: sign out, delayed redirect, the matching error, no load, and the email, tiles, table and chart unchanged. An admin: the email is shown, and the reports load on the first admin event only. |
| Dashboard.DashboardPage.Logout | admin/app.js:196-201 | a sign-out when the wrapper exists, then a redirect, except that a rejected sign-out ends the handler before the redirect (it is awaited without a catch) |
| SchemaInject.StripArticleFaq | tools/inject_schema_en.py:15-33 | stripping never adds a piece |
| SchemaInject.StripArticleFaqKeeps | tools/inject_schema_en.py:15-33 | a piece survives exactly when it is not a parsable JSON-LD block whose `@type` names Article or FAQPage |
| SchemaInject.StripArticleFaqAppend | tools/inject_schema_en.py:33 | every block is judged on its own: stripping a concatenation strips each part |
| SchemaInject.StripArticleFaqIdempotent | tools/inject_schema_en.py:15-33 | stripping twice is stripping once |
| SchemaInject.StripArticleFaqNothingToRemove | tools/inject_schema_en.py:15-33 | a page without Article or FAQPage blocks is unchanged |
| SchemaInject.KeptBlocks | tools/inject_schema_en.py:22-31 | an unparsable block, and a block typed neither Article nor FAQPage, is kept |
| SchemaInject.InjectIntoHead | tools/inject_schema_en.py:141-145 | The scripts and a newline go right before the first `</head>`. Without one, they are prepended. |
| SchemaInject.InjectIntoHeadInverse | tools/inject_schema_en.py:141-145 | cutting the inserted scripts back out gives the page back: nothing else changed |
| SchemaInject.CleanBlock | tools/inject_schema_en.py:99-102 | a block keeps at most its own pairs, only pairs with a non-empty cleaned question and answer, and every captured pair whose cleaned question and answer are both non-empty |
| SchemaInject.CleanBlockFrom | tools/inject_schema_en.py:99-101 | every kept pair is the cleaned form of a captured pair |
| SchemaInject.CleanBlockClean | tools/inject_schema_en.py:100-101 | every kept question and answer is tag-free and space-normal |
| SchemaInject.CleanPairs | tools/inject_schema_en.py:98-110 | all kept pairs of all blocks are non-empty, and every captured pair of every block whose cleaned question and answer are both non-empty is kept |
| SchemaInject.CleanPairsClean | tools/inject_schema_en.py:98-110 | all kept pairs of all blocks are tag-free and space-normal |
| SchemaInject.CleanPairsPrefix | tools/inject_schema_en.py:98 | the pairs of the first blocks come first: blocks are taken in document order |
| SchemaInject.Entities | tools/inject_schema_en.py:103-110 | one Question entity per pair, in order, naming the question and the answer |
| SchemaInject.FaqEntities | tools/inject_schema_en.py:79-112 | exactly min(8, number of kept pairs) entities, the i-th being the Question entity of the i-th kept pair: the first eight, as `faq_entities[:8]` |
| SchemaInject.FaqEntitiesAreCleanPairs | tools/inject_schema_en.py:79-112 | the i-th entity is built from the i-th kept pair, which is non-empty, tag-free and space-normal |
| SchemaInject.AppendBlock | tools/inject_schema_en.py:99-110 | the inner loop appends exactly the entities of the block's kept pairs |
| SchemaInject.DetectFaqPairs | tools/inject_schema_en.py:79-112 | the nested loops and the cap return exactly the first eight entities of the kept pairs |
| SchemaInject.ArticleSchemaKeys | tools/inject_schema_en.py:114-132 | the Article record has no key twice, and has an image exactly when an image URL is given |
| SchemaInject.ArticleSchemaFields | tools/inject_schema_en.py:114-132 | the record is typed Article and carries the headline, description, both dates, the canonical page and the image as given |
| SchemaInject.FaqSchemaShape | tools/inject_schema_en.py:134-139 | the FAQPage record has distinct keys and carries the entities, in order, as its main entity list |
| SchemaInject.MetaDescription | tools/inject_schema_en.py:48-54 | the meta content when there is one, else the first paragraph, else empty, as the words of the tag-removed text joined by single spaces; always tag-free and space-normal |
| SchemaInject.Description | tools/inject_schema_en.py:168-169 | the words of the first 300 characters joined by single spaces; hence at most 300 characters, space-normal, with the non-whitespace characters of the first 300 |
| SchemaInject.Slashes | tools/inject_schema_en.py:178 | every backslash becomes a slash and nothing else changes |
| SchemaInject.CanonicalPathShape | tools/inject_schema_en.py:177-182 | The fallback path is rooted and has no backslash. An index page ends in `//`. Any other path keeps its slashes as they are. |
| SchemaInject.IndexCanonical | tools/inject_schema_en.py:179-181 | `en/index.html` gets the canonical path `/en//`, whichever separator the walk reports |
| SchemaInject.FirstImageAbs | tools/inject_schema_en.py:67-77 | No image: empty. An absolute `http(s)://` src (any case) comes back exactly as the stripped src, the middle slice of the capture. Any other src is joined to the canonical URL, or to `DOMAIN + "/en/"` without one. |
| SchemaInject.Scripts | tools/inject_schema_en.py:188-196 | The scripts start with a newline and the Article script and end with a newline. Between them is exactly the FAQPage script, `"\n"` plus the script tags around `dumps` of the FAQPage record of the entities, when there are FAQ entities, and nothing otherwise. |
| SchemaInject.UpdatedPage | tools/inject_schema_en.py:158-198 | a page without a headline is left as it is; any other page grows by the scripts and one newline over its cleaned text |
| SchemaInject.ArticleForFields | tools/inject_schema_en.py:167-187 | Both dates are the page's `<time datetime>` value, or the file date if there is none. The headline is the cleaned h1. The description is bounded and space-normal. |
| SchemaInject.UpdatedPageIsCleanedPlusScripts | tools/inject_schema_en.py:164-198 | a page with a headline becomes its cleaned text with the scripts inserted, and removing them gives back the cleaned text |
| SchemaInject.InjectPage | tools/inject_schema_en.py:156-198 | the per-file steps compute exactly the page text the run specification assigns |
| SchemaInject.RunPage | tools/inject_schema_en.py:153-208 | one file is committed with its updated text: written and backed up once when it changed |
| SchemaInject.Run | tools/inject_schema_en.py:147-210 | the site ends as the rewrite of every listed page, with backups for exactly the written ones; the changed count is the written count, and changed plus skipped is the number of files |
| HeaderFooter.FirstBlockUnique | tools/inject_header_footer_en.py:29 | the first marked block is unique |
| HeaderFooter.FindBlock | tools/inject_header_footer_en.py:29-30 | the scan finds the first marked block exactly when one exists |
| HeaderFooter.ReplaceBlock | tools/inject_header_footer_en.py:25-32 | The flag is set exactly when a marked block exists. The first block, from the first start marker to the nearest end marker, is replaced by the stripped partial. Otherwise nothing changes. |
| HeaderFooter.HasTag | tools/inject_header_footer_en.py:34-35 | true exactly when `<tag` occurs, case-insensitively, followed by a word boundary |
| HeaderFooter.InjectAfterBodyOpen | tools/inject_header_footer_en.py:37-45 | It succeeds exactly when a `<body…>` tag exists. The snippet then goes right after the first one's `>`. Otherwise the page is unchanged. |
| HeaderFooter.InjectBeforeBodyClose | tools/inject_header_footer_en.py:47-55 | It succeeds exactly when a `</body >` tag exists. The snippet then goes right before the first one. Otherwise the page is unchanged. |
| HeaderFooter.ProcessPage | tools/inject_header_footer_en.py:68-90 | A written page grows by at most the two stripped partials and the six newlines an injection adds. The header is needed exactly when no header block was replaced and the page has no `<header` tag; the footer exactly when no footer block was replaced and the text after the header step has no `<footer` tag. A page is a problem exactly when the header is needed and there is no `<body…>` tag, or the footer is needed and the text after the header step has no `</body>`. A written page had the header injected (length + partial + 3) only when needed, and otherwise keeps the text after the block replacements; the footer is injected before `</body>` only when needed, and otherwise the text after the header step is written. |
| HeaderFooter.MarkedPageIsReplaced | tools/inject_header_footer_en.py:72-90 | a page with both marked blocks gets both replaced and nothing injected |
| HeaderFooter.TaggedPageIsUntouched | tools/inject_header_footer_en.py:76-90 | a page without markers that already has header and footer tags is left as it is |
| HeaderFooter.MissingBodyIsProblem | tools/inject_header_footer_en.py:76-82 | a page that needs the header but has no `<body…>` is a problem |
| HeaderFooter.MissingBodyCloseIsProblem | tools/inject_header_footer_en.py:84-90 | a failed footer injection makes the page a problem even after its header block was replaced |
| HeaderFooter.Pages | tools/inject_header_footer_en.py:61 | the processed files are exactly the listed ones outside the partials directory, without repeats |
| HeaderFooter.ProblemCount | tools/inject_header_footer_en.py:80 | there are no more problems than files |
| HeaderFooter.ReadPartial | tools/inject_header_footer_en.py:15-18 | a partial ends in a newline, and stripping it again gives the stripped file text |
| HeaderFooter.SplicePage | tools/inject_header_footer_en.py:68-90 | reassigning the text step by step, as the loop body does, gives the per-page result |
| HeaderFooter.RunPage | tools/inject_header_footer_en.py:67-97 | a problem page is reported and never written; any other page is committed with its new text |
| HeaderFooter.RunKeepsPartialsAndProblems | tools/inject_header_footer_en.py:61-97 | a run never changes a partial, and never changes a problem page |
| HeaderFooter.Run | tools/inject_header_footer_en.py:57-99 | Without both partials nothing changes. Otherwise every non-partial page is rewritten, backups exist for exactly the written pages, and the changed and problem counts are the written and problem pages. |
| LastUpdated.AddLastUpdated | tools/add_last_updated_en.py:16-27 | A page without a lower-case `</h1>` is returned unchanged. Otherwise the paragraph is inserted right after the first one. |
| LastUpdated.QuoteFromSpec | tools/add_last_updated_en.py:14 | the quote scan succeeds exactly when a quote character follows |
| LastUpdated.AttributeFromSpec | tools/add_last_updated_en.py:14 | from inside a `<time` tag, the scan succeeds exactly when a `datetime="…"` attribute follows within the tag |
| LastUpdated.TimeTagFromSpec | tools/add_last_updated_en.py:14 | the scan succeeds exactly when the pattern matches at or after the position |
| LastUpdated.HasTimeTagSpec | tools/add_last_updated_en.py:12-14 | the time-tag test is true exactly when the pattern matches somewhere |
| LastUpdated.H1FromSpec | tools/add_last_updated_en.py:38 | the h1 test is true exactly when `<h1…>` is followed later by `</h1>`, case-insensitively |
| LastUpdated.UpdatedPage | tools/add_last_updated_en.py:38-48 | a page without an h1, or with a time tag, is left as it is; a changed page had a lower-case `</h1>` and grew by exactly the paragraph |
| LastUpdated.UpdatedPageChanges | tools/add_last_updated_en.py:38-52 | a page is rewritten exactly when it has an h1, no time tag and a lower-case `</h1>` |
| LastUpdated.UppercasePageHasH1 | tools/add_last_updated_en.py:38 | `<H1>News</H1>` counts as an article |
| LastUpdated.UppercasePageNoClose | tools/add_last_updated_en.py:18-20 | `<H1>News</H1>` has no lower-case `</h1>` |
| LastUpdated.UppercasePageNoTimeTag | tools/add_last_updated_en.py:43 | `<H1>News</H1>` has no time tag |
| LastUpdated.UppercaseCloseExample | tools/add_last_updated_en.py:38-57 | an article whose closing tag is upper-case passes both tests and is still left unchanged |
| LastUpdated.SnippetHasTimeTag | tools/add_last_updated_en.py:24-25 | the inserted paragraph matches the time-tag pattern for any non-empty date that does not start with a quote |
| LastUpdated.InsertedTimeTagIsDetected | tools/add_last_updated_en.py:43-48 | after an insertion, the page has a time tag |
| LastUpdated.SecondRunSkips | tools/add_last_updated_en.py:43-45 | a rewritten page has a time tag, so a second run leaves it alone whatever the date |
| LastUpdated.UnwrittenStaysUnwritten | tools/add_last_updated_en.py:38-52 | a page a run leaves alone is left alone by every later run |
| LastUpdated.RunTwiceIsRunOnce | tools/add_last_updated_en.py:29-59 | the tool is idempotent: a second run over the site changes no page |
| LastUpdated.RunPage | tools/add_last_updated_en.py:34-57 | one file is committed with its updated text: written and backed up once when it changed |
| LastUpdated.Run | tools/add_last_updated_en.py:29-59 | the site ends as the rewrite of every listed page, with backups for exactly the written ones; the changed count is the written count, and changed plus skipped is the number of files |

## Left out

- The JSON-LD block regex of `strip_article_faq_ldjson` is not modelled. A page is given
  as a sequence of pieces: markup, and script blocks with their parsed payload. The
  removal rule is modelled exactly.
- `json.loads` is an input. A payload that parses to something other than an object, or
  whose `@type` list holds unhashable items, makes the tool raise; those crashes are not
  modelled.
- SchemaInject.KeptBlocks: an `@type` whose value is an object is modelled as
  `OtherValue`, and its block is kept. Line 28 of `inject_schema_en.py` instead raises
  `TypeError` on it (a dict is unhashable), which stops the run; that crash is not modelled.
- The other regex captures of `inject_schema_en.py` are inputs. These are the FAQ block
  and question/answer regexes and the `get_canonical`, `get_h1`, `get_meta_description`,
  `get_time_datetime` and `<img>` captures. What the tool does with each capture is
  modelled.
- `json.dumps`, `urljoin` and the file dates are parameters. The canonical fallback
  joins `DOMAIN + "/"` with a rooted path, which is modelled as `Domain` followed by that
  path.
- Case-insensitive matching folds ASCII letters only, and `\w` is its ASCII form.
  Python's Unicode case folds and its Unicode word characters (for example in the Arabic
  keyword of the FAQ heading) are not modelled. Whitespace (`\s` and `str.strip`) is
  Python's full Unicode whitespace set.
- The replacement string of `pattern.sub` in `replace_block` is treated as plain text.
  Backslash escapes in a partial are not processed.
- File I/O is not modelled: `rglob`, reading with `errors="ignore"`, encodings, the
  existence test of the backup and the final `print`. The `en/` tree is a map from paths
  to texts, and a missing partial stops the run before any write.
- SchemaInject.Run: requires the walked paths to be distinct and present in the tree, which `rglob` guarantees.
- HeaderFooter.Run: requires the walked paths to be distinct and present in the tree, which `rglob` guarantees.
- LastUpdated.Run: requires the walked paths to be distinct and present in the tree, which `rglob` guarantees.
- The DOM, `toLocaleString`, Chart.js options and colours, and `console.error` are not
  modelled. A rendered number is `Localized(n)` and a chart is the series it plots.
- The identity provider, the document store and the browser location are oracles or
  counters. The 1200 ms redirect is a counted scheduled redirect. The `weekly_reports`
  query is an input, with its order (`createdAt` descending) and its limit of 8 taken as
  given.
- A failure of `signOutUser` inside `handleAuth` (the logout handler's failure is modelled), and the asynchronous interleaving of
  auth events with a running load, are not modelled. Each handler runs to completion.
- JavaScript numbers are integers or NaN, an infinity or absent. Fractions are not
  modelled.
- The rest of the repository (cms/, assets/, the other admin pages and scripts) is not
  part of this model.

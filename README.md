# Contribution-by-category counter, modelled in Dafny

The program reads a wiki user name and a comma-separated list of category
names from a form. It fetches the user's contributions and, for each requested
category, the titles of the pages in that category. It then counts how many
contributions edited a page in at least one of the categories and how many did
not, and shows the two counts as text and as a pie chart.

This project models the two pieces of logic in `script.js`:

- `CategoryParsing` (`parsing.dfy`) models the category field parsing,
  `split(',').map(cat => cat.trim())`. It has functions for splitting on
  commas, joining again, trimming and parsing, and lemmas for the split/join
  round trip both ways, the piece count (one more than the commas), and trim's
  characterisation, uniqueness and idempotence.
- `Classifier` (`classifier.dfy`) models `analyzeContributions` after its
  fetches. `BuildCategoryPages` is the loop that fills the category map;
  `Classify` is the nested loop with the `foundInCategory` flag and the
  early `break`. Both are methods proved against pure specification
  functions (`FetchedPages`, `CountIn`, `CountNotIn`). Lemmas about those
  functions state the properties of the counts.

The fetched data are inputs. `contributions` is a sequence of records of
which only `title` is kept. `fetched[i]` is the page list returned for
`categories[i]`. The map-filling loop issues one fetch per requested name,
duplicates included, so a duplicated name keeps the list of its last fetch.
Page-list membership (`Array.prototype.includes` on strings) is exact string
equality, which is Dafny's `in` on `seq<string>`.

## Model

| member | source | states |
|---|---|---|
| CategoryParsing.Split | script.js:4 | `split(',')` yields exactly one piece more than the input has commas, and no piece contains a comma; the empty input yields one empty piece |
| CategoryParsing.JoinSplit | script.js:4 | joining the split pieces with commas gives back the original field, so splitting loses nothing |
| CategoryParsing.SplitJoin | script.js:4 | splitting a comma-join of comma-free pieces gives back those pieces, so `Split` and `Join` are inverses |
| CategoryParsing.SkipWhite | script.js:4 | the leading scan of `trim()` stops at the first non-white position (or the end), and everything it passes is white space |
| CategoryParsing.SkipWhiteBack | script.js:4 | the trailing scan of `trim()` stops just after the last non-white position (or at the start bound), and everything it passes is white space |
| CategoryParsing.Trim | script.js:4 | `trim()` returns a string with no white space at either end, obtained from the input by removing white space only at its two ends |
| CategoryParsing.TrimUnique | script.js:4 | any trimmed string obtained from `s` by stripping white space at its ends equals `Trim(s)`, so Trim's contract fully determines it |
| CategoryParsing.TrimFixedPoints | script.js:4 | `Trim(s) == s` holds exactly when `s` has no white space at either end |
| CategoryParsing.TrimIdempotent | script.js:4 | trimming an already trimmed entry leaves it unchanged |
| CategoryParsing.ParseCategories | script.js:4 | the parsed list has one entry more than the field has commas; entry k is the trimmed k-th comma-separated piece; no entry contains a comma or has white space at either end |
| CategoryParsing.ParseEmptyField | script.js:4 | an empty field yields a single empty category name |
| CategoryParsing.ParseReparse | script.js:4 | re-parsing the parsed names joined with commas gives the same list |
| Classifier.CountIn | script.js:52-65 | the in-category count never exceeds the number of contributions: each contribution adds at most one |
| Classifier.CountNotIn | script.js:52-65 | the out-of-category count never exceeds the number of contributions |
| Classifier.FetchedPages | script.js:43-47 | the filled map has exactly the requested categories as keys; each key holds the list fetched for its last occurrence in the request |
| Classifier.BuildCategoryPages | script.js:43-47 | the fill loop produces `FetchedPages(categories, fetched)` |
| Classifier.Classify | script.js:49-70 | the nested loops with the flag and `break` return `CountIn` contributions in the categories and `CountNotIn` outside; the two sum to the number of contributions; no contributions gives (0, 0) |
| Classifier.AnalyzeContributions | script.js:41-70 | classification over the map built from the fetched lists returns the specified counts, which sum to the number of contributions |
| Classifier.CountsPartition | script.js:52-65 | every contribution increments exactly one counter: `CountIn + CountNotIn` is the number of contributions |
| Classifier.CountOne | script.js:53-59 | a single contribution is counted in the categories exactly when some requested category's list contains its title, and it counts once even if several do |
| Classifier.CountsAppend | script.js:52-65 | both counts add up over concatenated contribution lists, so each contribution's verdict depends on it alone |
| Classifier.NoPagesCountsNothing | script.js:53-64 | with no requested categories, or only empty page lists, nothing is in the categories and every contribution is counted outside |
| Classifier.AllListedCountsAll | script.js:60-64 | when every title is on some requested category's list, nothing is counted outside |
| Classifier.CountsIgnoreCategoryOrder | script.js:54-59 | reordering or repeating the requested categories changes neither count |
| Classifier.ThreeContributionsExample | script.js:49-70 | contributions A, B, C with category X listing A and C give 2 in and 1 out; `Main_Page` does not match `Main Page` |

## Left out

- `fetchContributions` and `fetchCategoryPages` (script.js:13-39) send HTTP requests, decode JSON and log to the console. Their results are the model's inputs. Their error wrapping (lines 17, 23, 31, 37) only adds a prefix to exception messages, so it has no logic to verify. A failed fetch aborts the whole run before any counting, and that is not modelled.
- The request URLs (lines 15 and 29) interpolate the user name and category without encoding. That belongs to the network layer.
- `generateSummary` and `generateChart` (lines 73-97) write HTML and call the Chart.js library. The form submit handler and `init` (lines 1-11, 99-103) are event and `async` plumbing around the parsing at line 4 and the analysis.
- Only the `title` of a contribution is modelled. The other fields of the API record are never read.
- JavaScript strings are sequences of UTF-16 code units, but Dafny's `string` is a sequence of Unicode scalar values. Every character `trim()` removes lies in the Basic Multilingual Plane, so this matters only for unpaired surrogates, which the model cannot represent.
- The category map is a plain JavaScript object in the source. It is modelled as a Dafny `map`. The prototype keys of the object (for instance `__proto__`) are not modelled.
- The white-space set of `CategoryParsing.IsWhitespace` lists ECMAScript's WhiteSpace and LineTerminator code points as of Unicode 15. Future space separators are not tracked.
- Idempotence of classification (same inputs, same counts) is not a separate lemma: every model member is a deterministic function or method of its inputs.

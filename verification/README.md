# GitHub repositories collector, modelled in Dafny

This project models the core of `GithubRepositoriesCollector`, the class that
mines GitHub's GraphQL search API for repositories matching some criteria. The
class does three things:

- **It builds the search query once.** The `QUERY` template holds the
  placeholders `MIN_STARS`, `SINCE`, `UNTIL`, `PUSHED_AFTER` and
  `LANGUAGE:LANGUAGE`. Each is replaced in turn: the minimum stars with
  `str(min_stars)`, the three dates with their `%Y-%m-%dT%H:%M:%SZ`
  rendering, and the language slot with `language:<name>` or nothing.
- **It fills the `AFTER` slot anew for every page.** The first page gets
  nothing there. Every later page gets `, after: "<str(endCursor)>"` from the
  page before it, unless that string is empty: then the slot is left empty
  again, and the first page is asked for once more.
- **It filters every page of results.** A node is dropped when:
  - it is missing;
  - its counts of issues, releases or watchers fall below the minimums;
  - issue tracking is off while issues are asked for;
  - it is disabled, locked, a template or a fork;
  - it has no tree on `master`.

  Every other node becomes a record. The record has defaulted counts, a
  lower-cased language and the names of the root directories.

The paging loop `collect_repositories` sends one request per page. It
updates the collector's `quota` and `quota_reset_at` from each page's rate
limit. It stops at:

- a page without a next page;
- a failed request;
- a body without `data` or `data.search`.

Modules, one per file:

- `Wrappers` (`wrappers.dfy`): `Option`, and `Member`, which captures the
  three outcomes of Python's `dict.get` on decoded JSON: the key is missing,
  its value is `null`, or it holds a value. It also models truthiness of
  such a member.
- `Text` (`text.dfy`) holds the string functions:
  - `re.sub` with a literal pattern, as a leftmost, non-overlapping
    replace-all;
  - laying pieces of text end to end;
  - ASCII `str.lower()`;
  - `str` and `int` of integers.
- `Timestamp` (`timestamp.dfy`): `strftime('%Y-%m-%dT%H:%M:%SZ')` and a
  parser that reads its output back.
- `QueryText` (`query_text.dfy`): the `QUERY` template as short literal
  pieces, and the facts about which characters each piece contains.
- `Query` (`query.dfy`):
  - the template as pieces with the six slots between them;
  - the query a collector builds from its criteria;
  - the query of each page.
- `Filter` (`filter.dfy`): the raw nodes, the checks of
  `filter_repositories` in their order, and the records.
- `Collector` (`collector.dfy`):
  - the collector's state;
  - the responses;
  - `collect_repositories`, both as a recursive function over the sequence
    of replies the server gives and as the loop it is written as.

The network is a parameter: a collection runs on a finite sequence of
replies, the `k`-th answering the `k`-th request. A reply is `None` when
`run_query` returns `None`, and the decoded body otherwise.

Two shapes follow directly from the code:

- `filter_repositories` builds no `full_name`, so `Record` has none
  (`repocollector/github.py:139-154`).
- A search result without `pageInfo` raises `KeyError` at
  `repocollector/github.py:180`. So `Search` always carries `pageInfo`, and
  `Collect` is defined only on readable replies.

## Model

| member | source | states |
|---|---|---|
| Text.ReplaceAllFree | repocollector/github.py:64-72 | `re.sub` returns a text in which the pattern does not occur unchanged |
| Text.ReplaceAllSame | repocollector/github.py:64-72 | replacing a pattern by itself changes no text |
| Text.ReplaceAllWhole | repocollector/github.py:64-72 | the pattern on its own is replaced by the replacement |
| Text.ReplaceAllSplit | repocollector/github.py:64-72 | when no occurrence can straddle the seam of `a + b`, replacing in `a + b` is replacing in `a` and in `b` separately |
| Text.Lower | repocollector/github.py:113 | the lower-cased language has the length of the original, no upper-case letter, and every character is the original or its lower-case partner |
| Text.LowerIdempotent | repocollector/github.py:113 | lower-casing a lower-cased name changes nothing |
| Text.NatToString | repocollector/github.py:64 | `str` of a non-negative count is a non-empty run of digits without a leading zero |
| Text.IntToString | repocollector/github.py:64 | `str(min_stars)` is non-empty and made of digits and the minus sign only |
| Text.ParseNatToString | repocollector/github.py:64 | the decimal digits of a count read back as that count |
| Text.IntToStringRoundTrip | repocollector/github.py:64 | `int(str(n)) == n` for every integer, so the stars threshold is rendered without loss |
| Timestamp.Format | repocollector/github.py:56-58 | a rendered date is non-empty, starts with a digit, ends in `Z` and holds only digits, `-`, `:`, `T` and `Z` |
| Timestamp.FormatRoundTrip | repocollector/github.py:56-58 | every valid date and time is read back from its rendering: no two dates render alike |
| Query.BuildShape | repocollector/github.py:64-72 | the five substitutions in order give the template with each slot holding its value, and every literal piece of the template untouched |
| Query.BuildFree | repocollector/github.py:64-72 | no placeholder is left in the built query, as long as the language contains none |
| Query.LanguagePresent | repocollector/github.py:69-70 | with a non-empty language the query contains `language:` followed by the name, its case preserved |
| Query.LanguageAbsent | repocollector/github.py:71-72 | without a language, or with an empty one, the query contains no `language:` clause |
| Query.LanguageTagIff | repocollector/github.py:69-72 | the query has a `language:` clause exactly when a non-empty language was given |
| Query.PageQueryShape | repocollector/github.py:163-165 | a page's query is the built query with the `AFTER` slot, and nothing else, replaced by the cursor clause |
| Query.AfterClauseCases | repocollector/github.py:163-165 | the cursor clause is empty exactly when there is no cursor or it is empty; otherwise it quotes the cursor verbatim |
| Filter.JudgeSound | repocollector/github.py:97-135 | a node is kept exactly when it passes every check, and each reason for dropping it names a check it fails |
| Filter.MissingSkipped | repocollector/github.py:99-102 | an edge without a node is dropped whatever the thresholds |
| Filter.FlagsReject | repocollector/github.py:127-131 | a disabled, locked, template or forked repository is dropped whatever the thresholds |
| Filter.ForkFlips | repocollector/github.py:130-131 | marking a kept repository as a fork drops it, and marking it as no fork keeps it |
| Filter.NullMetricIsZero | repocollector/github.py:105-125 | a `null` count structure acts as a count of zero: it passes a threshold of at most zero and fails a positive one |
| Filter.IssuesFlag | repocollector/github.py:104-116 | the issue-tracking flag matters only when issues are asked for; then `null` or `false` drops the node; a missing flag acts as `true` |
| Filter.NoTreeRejected | repocollector/github.py:133-135 | a node whose object is missing or empty is dropped |
| Filter.StarsIgnored | repocollector/github.py:107 | the number of stars plays no part in keeping a node |
| Filter.EligibleMonotone | repocollector/github.py:115-125 | lowering the thresholds keeps every node the higher ones keep, unless issues become asked for |
| Filter.DirsAppend | repocollector/github.py:137 | the directories of consecutive entry lists are those of each list, in order |
| Filter.DirsMember | repocollector/github.py:137 | a name is a directory exactly when some entry of type `tree` has that name |
| Filter.RecordDirs | repocollector/github.py:133-137 | a kept node's object without `entries` gives no directories, and otherwise its directories are exactly its `tree` entries' names |
| Filter.RecordFields | repocollector/github.py:139-154 | a record holds the counts with `null` read as zero, the description or `''`, the lower-cased language or `''`, `str` of each timestamp (`"None"` when it is `null`), and `''` for a missing owner or name |
| Filter.FilterPage | repocollector/github.py:95-154 | a page gives at most one record per edge |
| Filter.KeptAt | repocollector/github.py:97-137 | the positions of kept edges are increasing, each is eligible, and every eligible edge is among them |
| Filter.FilterKeeps | repocollector/github.py:97-154 | the records of a page are, in page order, the records of exactly its eligible nodes |
| Filter.FilterAppend | repocollector/github.py:97-154 | filtering a page is filtering its parts and joining the results |
| Filter.FilterNone | repocollector/github.py:97-135 | a page without an eligible node gives no record |
| Filter.FilterMonotone | repocollector/github.py:115-125 | every record produced under higher thresholds is produced under lower ones too |
| Filter.SingleNodePage | repocollector/github.py:95-154 | a qualifying node with `null` issues and a `src` directory beside a file gives one record with zero issues and `dirs == ["src"]` |
| Collector.Span | repocollector/github.py:161-175 | a collection consumes no more replies than it is given, and at least one when it is given any |
| Collector.SpanFacts | repocollector/github.py:161-175 | the replies consumed run up to and including the first one that is not a page with a next page, or through all of them |
| Collector.New | repocollector/github.py:52-72 | a new collector has quota 0, no reset time, the given thresholds, and the built query |
| Collector.CollectRepositories | repocollector/github.py:156-186 | the paging loop computes exactly the outcome of the recursive definition of the collection |
| Collector.CollectEnds | repocollector/github.py:161-180 | one request per consumed reply; the collection ends on a page without a next page, a reply that is no page, or when the replies run out, and says which |
| Collector.CollectRequests | repocollector/github.py:163-181 | the first request continues from the initial cursor, and each later one from `str` of the previous page's `endCursor` |
| Collector.CollectHarvest | repocollector/github.py:183-186 | the records produced are the filtered edges of every consumed page, page after page, with nothing from a failed or malformed reply |
| Collector.CollectQuota | repocollector/github.py:177-178 | quota and reset time are those of the last page read; a collection that reads no page leaves them unchanged |
| Collector.CollectIgnoresLater | repocollector/github.py:161-175 | replies after the one that ends a collection change nothing: no request is sent for them |
| Collector.FirstRequest | repocollector/github.py:163 | a new collector's first request is the built query with the `AFTER` slot emptied |
| Collector.SecondRequestFails | repocollector/github.py:166-169 | when the second request fails, the collection yields exactly the first page's records and keeps the first page's quota |
| Collector.CursorQuirks | repocollector/github.py:181 | a page with a next page but no `endCursor` makes the next request ask for the page after `"None"`; an empty `endCursor` makes it ask for the first page again |

## Left out

- The HTTP request of `run_query` is left out. This covers the access token, the status-code test and `print`. The model takes the server's replies as a given sequence instead.
- Generator laziness is left out: a consumer that stops reading early sends fewer requests. The model runs every collection to its end.
- The outcome of the filter, and so idempotence, is a pure function of its inputs. Filtering a page twice gives the same records by definition, so the model has no separate lemma for it.
- Text.ReplaceAll: models `re.sub` only for literal patterns and replacements without backslash escapes. The patterns here have no metacharacters. The values put in hold no backslash, except possibly a language name or a cursor.
- Query.PageQueryShape: assumes the language name does not contain `AFTER`. The code would replace that part of the name with the cursor clause too.
- Query.BuildFree: assumes the language name contains no placeholder. The language is substituted last, so a placeholder inside its name stays in the built query.
- Text.Lower: lower-cases ASCII letters only. Python's `str.lower()` also maps other Unicode letters.
- Timestamp.Format: renders `%Y` as the year's decimal digits. For years below 1000 the C library may pad the year or not, depending on the platform.
- Filter.FilterPage: defined only for pages in which no kept node has a `null` `defaultBranchRef`. On such a node the code raises `AttributeError` (`None.get`).
- Other `KeyError`, `TypeError` and `AttributeError` paths are excluded by the shape of the data:
  - a node without `issues`, `releases`, `stargazers`, `watchers`, `primaryLanguage` or `description`;
  - a `null` element of `edges`, on which `node.get` raises `AttributeError` (`repocollector/github.py:99`);
  - a `primaryLanguage` whose `name` is `null`, on which `.lower()` raises `AttributeError` (`repocollector/github.py:113`);
  - a `null` owner;
  - `null` `entries`;
  - a `null` `totalCount` of issues, releases or watchers, which raises `TypeError` when it is compared with a minimum (`repocollector/github.py:118-125`);
  - a search result without `pageInfo`.
- A `null` `stargazers.totalCount` is no error: the code sets `stars` to `None` (`repocollector/github.py:107`) and puts it into the record (`repocollector/github.py:148`). The model's `Record.stars` is an integer and cannot hold `None`, so this record is not modelled.
- An entry of type `tree` without a `name` puts `None` into `dirs` (`repocollector/github.py:137`). The model's `Entry` always has a name, so this case is not modelled.
- Collector.Collect: defined only for replies whose consumed pages carry a rate limit and no `null` edges. Without them the code raises.
- `int()` of `rateLimit.remaining` is taken as the identity, since the API sends an integer.
- The command-line layer is not part of this model: `repocollector/cli.py`, `collector/command_line.py`, the HTML report of `reposcollector/report.py` and `setup.py`. They are argument parsing, file I/O and presentation.

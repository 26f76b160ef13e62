# gh-ops: verified model of the pull-request helpers

gh-ops is a set of small command-line tools around the GitHub REST API. They:

- resolve a pull-request web address to its owner, repository and number;
- fetch the changed files and reviews of the pull request;
- print each file's patch with added and removed lines highlighted;
- run six heuristic quality checks on the patches of source files;
- summarise the pull request with a table of file extensions.

This project models the logic of those tools in Dafny and proves what the code promises about it. HTTP traffic and printing are not modelled. The fetched files are an input sequence of `FileChange` records: file name, additions, deletions and an optional patch. A request is described by the address and headers it would be sent with.

Modules:

- `Text`: Python's `split`, `join`, `startswith`, `endswith` and `in` on strings. `Split` keeps Python's behaviour: at least one piece, and a trailing separator gives an empty last piece.
- `Records`: `Option`, `Result` and the `FileChange` record. A missing patch reads as `""`, as `file.get('patch', '')` does.
- `PrUrl`: the pattern `github\.com/([^/]+)/([^/]+)/pull/(\d+)` under `re.search`. The matcher is written stage by stage, as the regex engine runs it. It is proved to return the leftmost occurrence of the pattern, with the number's digit run taken whole.
- `Patch`: the line conventions of a unified diff (a `+`/`-` change line that is not a `+++`/`---` file header), and the list of changes of one kind.
- `Fetcher`: `parse_pr_url` and `extract_code_changes` of `GitHubPRDiffFetcher` in pull-request.py.
- `Client`: `GitHubClient` in src/github_client.py, with its headers, base address, address parser and the two endpoint requests.
- `Formatters`: `format_diff` in src/utils/formatters.py. The colours are tags on the printed lines.
- `CodeReviewer`: `check_code_quality` and the file loop of `process` in src/features/code_reviewer.py. Each regex is an ASCII predicate, and each is proved equal to a description of what the pattern matches.
- `StatsGenerator`: the extension `Counter`, `most_common()` and the totals of `process` in src/features/stats_generator.py.

## Model

| member | source | states |
|---|---|---|
| Fetcher.ParsePrUrl | pull-request.py:30-34 | Succeeds exactly when the address contains `github.com/` + owner + `/` + repo + `/pull/` + digits. On success it returns the leftmost match, with non-empty slash-free owner and repo and a non-empty all-digit number. Otherwise it returns the error "Invalid GitHub PR URL format". |
| PrUrl.MatchAtIff | pull-request.py:30-31 | The staged matcher succeeds at a position exactly when the pattern occurs there. |
| PrUrl.MatchAtSound | pull-request.py:30-31 | What the matcher returns at a position is an occurrence of the pattern, and no digit follows the number. |
| PrUrl.MatchAtComplete | pull-request.py:30-31 | Wherever the pattern occurs, the matcher succeeds with the same owner and repo, and its number extends the occurrence's number. |
| PrUrl.ResolveFindsPattern | pull-request.py:31-34 | The search finds something exactly when the pattern occurs, and what it finds is the leftmost match. |
| PrUrl.FirstMatchIsLeftmost | pull-request.py:31 | The first position where the matcher succeeds gives the leftmost match. |
| PrUrl.LeftmostMatchUnique | pull-request.py:31-34 | The leftmost match is unique, so the three groups are determined by the address. |
| PrUrl.ResolveWebUrl | pull-request.py:30-34 | Round trip: `https://github.com/owner/repo/pull/number`, followed by anything that does not start with a digit, resolves to that owner, repo and number. |
| PrUrl.ResolveExample | pull-request.py:30-34 | `https://github.com/acme/widgets/pull/42#x` resolves to `("acme", "widgets", "42")`. |
| Fetcher.ExtractCodeChanges | pull-request.py:54-81 | The loop returns exactly the added and the deleted lines of the patch, in order, each without its marker. This includes the early return for an empty patch and the skip of metadata lines. |
| Fetcher.EmptyPatchChanges | pull-request.py:67-68 | An empty patch gives two empty lists, the same as the loop would. |
| Fetcher.ExtractedLines | pull-request.py:70-79 | A text is in the added list exactly when some line starts with `+`, not `+++`, and reads that text after the `+`. The same holds for deleted lines and `-`. |
| Fetcher.ExtractedCount | pull-request.py:70-79 | The two lists together hold no more entries than the patch has lines, and the patch has one more line than it has line feeds. |
| Fetcher.ExtractExample | pull-request.py:72-79 | File headers and hunk markers contribute nothing. A bare `+` line adds `""`, and `--x` deletes `-x`: only one character is stripped. |
| Patch.ChangesMember | pull-request.py:76-79 | Membership in the change list of one marker, in terms of the lines. |
| Patch.ChangesShareLines | pull-request.py:76-79 | Each line feeds at most one of the two lists, so together they are no longer than the line sequence. |
| Patch.MetadataIsNoChange | pull-request.py:72-79 | Skipping metadata lines drops nothing: no metadata line is a change line. |
| Patch.ChangesAppend | pull-request.py:70-79 | The change list of two stretches of lines is the concatenation of their change lists. |
| Client.GitHubClient.constructor | src/github_client.py:6-11 | Headers are `Authorization: token <token>` and `Accept: application/vnd.github.v3+json`, the base address is `https://api.github.com`, and the token is used unchanged. |
| Client.ParsePrUrl | src/github_client.py:13-18 | The same success condition and leftmost result as the fetcher's parser, with the error "Invalid GitHub PR URL". |
| Client.ParsersAgree | src/github_client.py:13-18 | The two parsers accept the same addresses and return the same triple. Only their error messages differ. |
| Client.GitHubClient.GetPrFiles | src/github_client.py:20-21 | The request goes to the base address + `/repos/{owner}/{repo}/pulls/{number}/files`, ends in `/files` and carries the client's headers. |
| Client.GitHubClient.GetPrReviews | src/github_client.py:26-27 | The same request, but ending in `/reviews`. |
| Client.EndpointPathJoin | src/github_client.py:21-27 | The endpoint path is its seven segments joined with `/`. |
| Client.EndpointPathSplits | src/github_client.py:21-27 | For a resolved reference, splitting the path at `/` gives back owner, repo, number and resource. |
| Client.EndpointPathInjective | src/github_client.py:21-27 | Different references or resources are requested at different paths. |
| Formatters.Classify | src/utils/formatters.py:16-21 | A line is tagged added exactly when it is a `+` change line, and removed exactly when it is a `-` change line. Otherwise it is plain. The three tags exclude each other. |
| Formatters.Rendered | src/utils/formatters.py:15-21 | One displayed line per piece of the patch, in order, with the piece's text unchanged. |
| Formatters.FormatDiff | src/utils/formatters.py:1-21 | The output is the header (rule, file name, `+additions -deletions`, rule) as given in the record. It is followed by nothing for an empty or missing patch, and otherwise by exactly the rendered lines of the patch. |
| Formatters.RenderedRestoresPatch | src/utils/formatters.py:15-21 | Nothing is lost: joining the printed lines with line feeds gives back the patch. |
| Formatters.AgreesWithExtractor | src/utils/formatters.py:16-19 | The lines tagged added (removed), without their first character, are exactly the extractor's added (deleted) lines. |
| Formatters.FormatExample | src/utils/formatters.py:15-21 | `+a\n-b\n c` is shown as added `+a`, removed `-b` and plain ` c`. |
| CodeReviewer.CheckCodeQuality | src/features/code_reviewer.py:8-24 | The six sequential appends give exactly the issues whose test fires, in the order of the tests. |
| CodeReviewer.IssuesOfMembers | src/features/code_reviewer.py:9-24 | An issue is listed exactly when its test fires, and at most six are listed. |
| CodeReviewer.IssuesOfOrdered | src/features/code_reviewer.py:9-24 | Issues come in the fixed order too long, print, TODO/FIXME, import, short names, magic numbers. So none is listed twice. |
| CodeReviewer.MessageInjective | src/features/code_reviewer.py:12-22 | Different issues are reported with different messages. |
| CodeReviewer.QualityIssuesExplained | src/features/code_reviewer.py:11-18 | Too long exactly when the content has at least 300 line feeds. Print exactly when it contains `print(`. TODO exactly when it contains `TODO` or `FIXME`. Import exactly when `import\s+\w+\s*$` matches. |
| CodeReviewer.WordIssuesExplained | src/features/code_reviewer.py:19-22 | Short names exactly when some whole word is one or two letters. Magic numbers exactly when some whole word is all digits. |
| CodeReviewer.TooLongIffLineFeeds | src/features/code_reviewer.py:11 | More than 300 pieces exactly when there are at least 300 line feeds. |
| CodeReviewer.ShortNameIffWordRun | src/features/code_reviewer.py:19 | `\b[a-zA-Z]{1,2}\b` finds a match exactly when some maximal run of word characters is one or two letters. |
| CodeReviewer.MagicNumberIffWordRun | src/features/code_reviewer.py:21 | `\b\d+\b` finds a match exactly when some maximal run of word characters is all digits. |
| CodeReviewer.ImportTailIff | src/features/code_reviewer.py:17 | Peeling trailing whitespace, a word and whitespace off the end, then finding `import`, agrees with `re.search(r'import\s+\w+\s*$')`. This includes `$` matching before a final line feed. |
| CodeReviewer.EmptyContentIsClean | src/features/code_reviewer.py:9-24 | Empty content raises no issue. |
| CodeReviewer.ReviewExample | src/features/code_reviewer.py:9-24 | `x = 42` raises exactly the short-name and magic-number issues. |
| CodeReviewer.ReviewFiles | src/features/code_reviewer.py:30-33 | The loop yields one report per `.py`/`.js`/`.java` file, in order. Each report holds the issues of the file's patch, with a missing patch read as `""`. |
| CodeReviewer.ReportsMember | src/features/code_reviewer.py:30-33 | A report exists exactly for each changed source file and lists that file's issues. |
| StatsGenerator.Extension | src/features/stats_generator.py:14 | The key is a dot-free suffix of the name, preceded by a `.`, or the whole name when it has no `.`. |
| StatsGenerator.TrailingDotExtension | src/features/stats_generator.py:14 | A name ending in `.` is counted under the empty key. |
| StatsGenerator.ExtensionsCount | src/features/stats_generator.py:13-16 | Exactly the names containing a `.` contribute a key. |
| StatsGenerator.TallyKeys | src/features/stats_generator.py:13-16 | The counter has one row per distinct key, in first-seen order, and its counts add up to the number of keys. |
| StatsGenerator.TallyCounts | src/features/stats_generator.py:13-16 | Every row counts the occurrences of its key, which is at least one. |
| StatsGenerator.BumpRows | src/features/stats_generator.py:13-16 | Counting one key adds one to its row only, or opens a new row at the end. |
| StatsGenerator.MostCommonSorts | src/features/stats_generator.py:21 | `most_common()` is a permutation of the rows in non-increasing count order. Rows with equal counts keep their counter order. |
| StatsGenerator.MostCommonSum | src/features/stats_generator.py:21 | Sorting keeps the total of the counts. |
| StatsGenerator.FileTypesShape | src/features/stats_generator.py:13-22 | The listed types are ordered, dot-free and counted at least once. Their counts add up to the number of names containing a `.`, which is at most the number of files. |
| StatsGenerator.Statistics | src/features/stats_generator.py:13-23 | Total files is the number of files and total reviews is the number of reviews. The table's counts add up to at most the total files, and the table is ordered. |
| StatsGenerator.StatisticsExample | src/features/stats_generator.py:13-23 | `a.py`, `b.py` and `README` give three files and the single row `py: 2`. |

## Left out

- HTTP: `requests.get`, `raise_for_status` and `.json()` are not modelled. The fetched files are an input sequence, and a request is its address and headers (src/github_client.py:22-24,28-30; pull-request.py:49-52).
- `GitHubPRDiffFetcher.__init__` and `get_pr_changes` (pull-request.py:7-18,36-52) are not modelled. They duplicate the client's headers and files request.
- `main` of pull-request.py, main.py, src/core/app.py, src/utils/config.py and src/utils/constants.py are not modelled. They are argument parsing, environment lookup, an interactive menu and console output.
- src/features/dependency_checker.py is not part of this model. Its only logic is a call to a YAML parser.
- src/features/pr_analyzer.py is not part of this model. It orchestrates the client and `format_diff`.
- Terminal colours and the separator lines are not modelled as text. A printed line carries a tag (added, removed, plain) and each separator is `Rule`. The blank line printed before the first separator is not represented.
- Printing is not modelled: the formatter and the code reviewer return the lines and issues they would print.
- Character classes are ASCII: `\w` is letters, digits and `_`, and `\s` is the ASCII whitespace Python accepts. Non-ASCII letters, digits and spaces, which Python's Unicode classes also accept, are treated as other characters.
- The `CodeReviewer` and `StatsGenerator` classes hold a client only to fetch data. Their constructors and the `..core.github_client` import path are not modelled.
- CodeReviewer.CheckCodeQuality: the issues are values of an `Issue` type rather than the message strings. `Message` maps each issue to its exact text, and MessageInjective shows that no information is lost.
- StatsGenerator.Statistics: the reviews are an opaque sequence, because only their number is used.

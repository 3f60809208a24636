# Bug pattern frequency analysis, modelled in Dafny

This project models the keyword-frequency core of `BugPatternsAnalysis.run` in
`bug_pattern_analysis.py`. The analyzer takes a list of GitHub issues. For each
issue it builds one lower-cased text: the title, a single space, then the labels
joined with single spaces. It tests that text for each of seven fixed bug
keywords (`bug`, `error`, `fail`, `exception`, `crash`, `not working`,
`unexpected`). A per-keyword counter goes up by one for each issue containing
the keyword. The counters live in a dictionary that starts empty. The
`(keyword, count)` pairs are then ranked by count, largest first. The run ends
with a bar chart, or with the message "No bug patterns found." when the ranking
is empty.

Modules, one file each:

- `Collections` (collections.dfy): lists without repetitions, and `IndexOf`.
- `PyStrings` (pystrings.dfy): the Python string operations line 33 and line 35
  use. These are `str.lower()` on ASCII, `sep.join(parts)` and the substring
  test `pattern in text`.
- `Ranking` (ranking.dfy): the `(keyword, count)` item and the stable
  descending sort of line 38.
- `BugPatterns` (bug_patterns.dfy): the issue record, the keyword list, the
  counting loops as imperative methods, and the whole run.

The dictionary is modelled as two local variables that the loops reassign. A
`map<string, nat>` holds the counts. A `seq<string>` holds the keys in
insertion order, because Python dictionaries iterate in that order and
`sorted` keeps that order among equal counts. The counting method is proved
against `CountTable`, a separate definition: a key is present exactly when some
issue mentions the keyword, and its value is the number of issues that do. The
insertion order is proved against `SeenBefore`: keyword a comes before keyword b
when a first matches in an earlier issue, or in the same issue with a earlier
in the keyword list.

## Model

| member | source | states |
|---|---|---|
| `PyStrings.Lower` | bug_pattern_analysis.py:33 | the lowered text agrees with the input up to letter case and contains no capital letter (ASCII) |
| `PyStrings.LowerAgreesWith` | bug_pattern_analysis.py:33 | two strings that differ only in letter case lower to the same string |
| `PyStrings.Contains` | bug_pattern_analysis.py:35 | `pattern in text` holds exactly when the pattern occurs at some offset of the text |
| `PyStrings.Join` | bug_pattern_analysis.py:33 | `' '.join` of no labels is the empty string; otherwise the joined text starts with the first label and ends with the last. `JoinContainsPart` and `JoinIgnoresCase` below state what the count relies on |
| `PyStrings.JoinIgnoresCase` | bug_pattern_analysis.py:33 | label lists that agree label by label up to letter case join to texts that agree up to letter case |
| `PyStrings.JoinContainsPart` | bug_pattern_analysis.py:33 | a pattern found in one lowered part is found in the lowered join of all parts |
| `BugPatterns.BugKeywordsDistinct` | bug_pattern_analysis.py:28 | the keyword list `BugKeywords` has seven entries, all distinct, none empty, and each already lower case, so each can occur in a lowered text |
| `BugPatterns.IssueText` | bug_pattern_analysis.py:33 | the issue text agrees up to letter case with the title, one space and the labels joined by spaces, and holds no capital letter. `TitleKeywordDetected`, `LabelKeywordDetected` and `IssueTextIgnoresCase` below state what the count relies on |
| `BugPatterns.Mentions` | bug_pattern_analysis.py:35 | `keyword in issue_text` is true whenever the lowered title, or any one lowered label, contains the keyword (proved with `TitleKeywordDetected` and `LabelKeywordDetected`) |
| `BugPatterns.IssueTextIgnoresCase` | bug_pattern_analysis.py:33 | issues whose titles and labels agree up to letter case produce the same issue text |
| `BugPatterns.MatchCountIgnoresCase` | bug_pattern_analysis.py:32-36 | issue lists that agree up to letter case give every keyword the same count |
| `BugPatterns.MatchCount` | bug_pattern_analysis.py:32-36 | the number of issues mentioning a keyword is at most the number of issues (one issue adds at most one) |
| `BugPatterns.MatchCountZeroIff` | bug_pattern_analysis.py:35-36 | a keyword's count is zero exactly when no issue mentions it |
| `BugPatterns.CountTable` | bug_pattern_analysis.py:28-36 | every key of the table is one of the seven keywords, with a count between 1 and the number of issues |
| `BugPatterns.FirstMatch` | bug_pattern_analysis.py:32-36 | the index of the first issue that mentions the keyword: that issue mentions it and no earlier one does |
| `BugPatterns.CountKeywords` | bug_pattern_analysis.py:29-36 | the dictionary built in place by the nested loops equals `CountTable(issues)`; its key order lists each key once, in first-seen order |
| `BugPatterns.TallyIssue` | bug_pattern_analysis.py:33-36 | one pass of the inner loop turns the table and key order for the first n issues into those for the first n+1 |
| `BugPatterns.NewKeywordGoesLast` | bug_pattern_analysis.py:36 | a keyword first matched by the current issue is inserted after every key already present |
| `BugPatterns.EmptyTableIff` | bug_pattern_analysis.py:32-36 | the table is empty exactly when no issue mentions any keyword (an empty issue list included) |
| `BugPatterns.Items` | bug_pattern_analysis.py:38 | `table.items()` has one entry per key, in insertion order, each carrying that key's count. `RankedEntries` and `ItemsInInsertionOrder` state what the ranking relies on |
| `BugPatterns.ItemsInInsertionOrder` | bug_pattern_analysis.py:38 | when the keys are in first-seen order, the items with equal counts are in first-seen order too |
| `BugPatterns.RankedEntries` | bug_pattern_analysis.py:38 | a permutation of `table.items()` holds exactly the table's entries, one per key |
| `BugPatterns.RankedKeywordsDistinct` | bug_pattern_analysis.py:38 | when ties are ordered by first sighting, no keyword occurs twice in the ranking |
| `BugPatterns.Run` | bug_pattern_analysis.py:28-70 | the ranking is sorted by count, descending. It holds exactly the table's entries, each keyword once, and ties appear in first-seen order. It has at most 7 entries, summing to at most 7 times the number of issues. The report is "No bug patterns found." exactly when the ranking is empty, which happens exactly when no issue mentions any keyword |
| `BugPatterns.CountTableIgnoresCase` | bug_pattern_analysis.py:33 | issue lists that agree up to the letter case of titles and labels give the same table |
| `BugPatterns.UpperCasedSameTable` | bug_pattern_analysis.py:33 | upper-casing every title and label leaves the table unchanged |
| `BugPatterns.TitleKeywordDetected` | bug_pattern_analysis.py:31-35 | a keyword contained in the lowered title is counted for that issue |
| `BugPatterns.LabelKeywordDetected` | bug_pattern_analysis.py:31-35 | a keyword contained in any one lowered label is counted for that issue |
| `BugPatterns.KeywordAcrossTitleAndLabel` | bug_pattern_analysis.py:33-35 | "not working" is in neither the title "App not" nor the label "working", yet the issue with both matches it, because of the joining space |
| `Ranking.InsertByCount` | bug_pattern_analysis.py:38 | inserting adds exactly one entry (multiset) and keeps a descending list descending |
| `Ranking.SortByCountDesc` | bug_pattern_analysis.py:38 | the ranking is a permutation of its input and is sorted by count, largest first |
| `Ranking.SortKeepsTies` | bug_pattern_analysis.py:38 | the sort is stable: entries with equal counts keep the relative order they had in the input |
| `Ranking.TotalCountBound` | bug_pattern_analysis.py:32-36 | at most len entries, none above the bound, total at most len times the bound |

## Left out

- Printing and plotting (lines 41-43 and 48-67) are left out. This covers the console listing, `capitalize()`, the pandas DataFrame, the matplotlib bar chart with its annotations, and `plt.show()`. They are presentation through external libraries. The model keeps only which branch line 47 takes, as the `Report` value.
- Data loading (line 24, `DataLoader().get_issues()`) is I/O; the issues are a parameter of `Run`.
- The constructor (line 18) reads `config.get_parameter('label')` into `LABEL`, which `run` never uses. Global configuration is not modelled.
- Titles and labels that are `None` are not modelled: `title` is a plain string and `labels` a `seq<string>`, neither of which has a null value. On line 33, a `None` title makes the concatenation raise `TypeError`, and a `None` label list makes `' '.join` raise `TypeError`. The commented-out tests at test_bug_pattern_analysis.py:127-154 set a title to `None` and fail if `TypeError` is raised, so their authors expected a missing title to be handled without an error. Those tests call methods this file does not have. The model follows the code, and has no null case to decide.
- `PyStrings.Lower` and `PyStrings.Upper` change only the ASCII letters. Python's `str.lower()` maps all of Unicode. For example, it maps the Kelvin sign (U+212A) to `k`, so "not wor", then U+212A, then "ing" matches "not working" in Python but not in the model. Keyword matching is exactly modelled for ASCII text only.
- `BugPatterns.CountTableIgnoresCase` and `BugPatterns.UpperCasedSameTable` state case-insensitivity for ASCII letter case only. Beyond ASCII, Python itself breaks the property, so no stronger statement holds of the source. 'ſ' (U+017F) is already lower case, but `upper()` maps it to 'S': the title "craſh" never matches "crash", while its upper-cased form "CRASH" does. The dotless 'ı' (U+0131) does the same to "fail": "faıl" upper-cases to "FAIL".
- `Ranking.SortByCountDesc` is an insertion sort. Python's `sorted` uses Timsort. The two agree on the result: a stable descending sort is unique. They do not agree on the steps.
- The test files test_bug_pattern_analysis.py, test_severity_impact_analysis.py, coverage/test_severity_impact_analysis.py and coverage/test_contributor_and_assignee_analysis.py are not modelled. They hold only mocks and assertions. The tests in test_bug_pattern_analysis.py are all commented out, and they call methods this source file does not have. The severity, impact and contributor analyzers they exercise are not part of this model.

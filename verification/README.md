# DeepLieDetector data pipeline — a Dafny model

This project models the pure part of `data.py` in DeepLieDetector. That part turns scraped fact-check records into labelled token lists. It has four pieces:

- **Page URLs** (`Scrape._get_links`). The bare PolitiFact listing URL, then `?page=2` … `?page=664`. Modelled in `scrape.dfy` as the finite sequence `Scrape.Links()`.
- **Rating scale** (`class Truth`). The ordered list `both` of eight labels, the position map `to_int`, and the halves `lies` and `truth`. Modelled in `truth.dfy`.
- **Record cleaning** (`Process._get_truth_and_convert_to_number`, `_get_statement_and_strip`, `clean_data_and_split_statement`). Modelled in `process.dfy` on top of the string operations in `text.dfy`:
  - the label is resolved through the scale;
  - the statement is stripped, lower-cased and rid of `string.punctuation`, then split on single spaces;
  - each record becomes a `(code, tokens)` pair, in input order.
- **Vocabulary** (`Process.all_words`). The set of all tokens and the length of the longest token, computed by the same nested loop as the source.

`wrappers.dfy` holds `Option`, `Result` and `MapAll`. `MapAll` is the list comprehension: it maps a fallible function over a sequence in order and stops at the first exception.

Python exceptions are modelled as `Result.Failure`. Here is how each failure case is handled:

- A record is a JSON object, so each field is an `Option`. `None` means the key is missing, which is what `dict.get` returns.
- A missing or unknown `truth` gives `UnknownLabel`. In Python, `to_int.get` returns `None` and `int(None)` raises.
- A missing `statement` gives `MissingStatement`. In Python, `None.strip()` raises.
- The label is converted before the statement is read, so when both are bad the label error is the one reported.

## Deviations from the code as written

The code as written cannot run. The model follows the evident intent at each of these points:

- `data.py:164`: `puncutation_set` is used without the `Process.` prefix, which raises `NameError`. The model deletes the characters of `string.punctuation`, which is the set that line means.
- `data.py:166`: `statement_without_puncutation` misspells the variable bound at line 164. The model splits the punctuation-free string.
- `data.py:188`: `for statement in statement` reads the loop variable before it is bound, which raises `UnboundLocalError`. The model iterates over `statements`.
- `data.py:192`: `words |= word` unions a set with a string, which raises `TypeError`. The model adds the token to the set.

Other behaviour of `data.py` that the model keeps as written:

- `data.py:166` splits with `split(" ")`, on single spaces. A run of spaces therefore produces empty tokens, and an empty statement produces the one token `""`.
- The maximum that `all_words` returns is the length of the longest token, as the doc comment at `data.py:179` says.
- `all_words` collects the vocabulary into a set (`data.py:184`), so it has no order.
- The scale `both` at `data.py:120-129` has eight labels, from 'Pants on Fire!' to 'True'.

## Model

| member | source | states |
|---|---|---|
| Scrape.PageUrl | data.py:35 | the URL for page i is the base URL, then `?page=`, then `Decimal(i)`; it has no contract of its own, and `Scrape.PageUrlPageNumber` states what it yields |
| Scrape.PageUrlPageNumber | data.py:35 | reading the page number back out of the URL for page i gives i |
| Scrape.PageUrls | data.py:34-35 | the URLs for `range(lo, hi)`: hi − lo of them (none when hi ≤ lo), the k-th asking for page lo + k |
| Scrape.Links | data.py:33-35 | the generator yields exactly 664 URLs: the bare base URL first, then base + `?page=` + decimal(k + 1) at position k |
| Scrape.LinksPageNumbers | data.py:33-35 | reading the page number back out of each yielded URL gives none for the first and k + 1 for the k-th after it, so pages run 2..664 |
| Scrape.LinksDistinct | data.py:33-35 | no URL is yielded twice |
| Text.Decimal | data.py:35 | `format` renders a page number as a non-empty string of digits with no leading zero |
| Text.ParseDecimalOfDecimal | data.py:35 | reading a rendered number gives back the number |
| Text.DecimalOfParseDecimal | data.py:35 | rendering the value of a canonical digit string gives back the string |
| Text.DecimalInjective | data.py:35 | distinct page numbers render differently |
| Truth.Both | data.py:120-129 | `both`, the eight labels from 'Pants on Fire!' to 'True' in order; it has no contract of its own, and `Truth.BothDistinct` and `Truth.ToIntIsPosition` state its properties |
| Truth.Lies | data.py:117 | `lies`, the four false labels; it has no contract of its own, and `Truth.LiesAndTruthsCover` states how it splits `both` |
| Truth.Truths | data.py:118 | `truth`, the four true labels; it has no contract of its own, and `Truth.LiesAndTruthsCover` states how it splits `both` |
| Truth.PositionMap | data.py:131 | the dict comprehension over `enumerate` has exactly the listed labels as keys, each mapped to a position holding that label, and to its last such position |
| Truth.PositionMapOfDistinct | data.py:131 | over a list without repeats, every label maps to its own index |
| Truth.BothDistinct | data.py:120-129 | `both` lists no label twice |
| Truth.ToInt | data.py:131 | `to_int`, built by the position map over `both`; it has no contract of its own, and `Truth.ToIntIsPosition` states its contents |
| Truth.ToIntIsPosition | data.py:120-131 | `to_int` knows exactly the labels of `both`, maps each to its index, gives codes below 8, and gives distinct labels distinct codes |
| Truth.ToIntEnds | data.py:120-131 | 'Pants on Fire!' has code 0 and 'True' has code 7 |
| Truth.LiesAndTruthsCover | data.py:117-129 | `lies` and `truth` are disjoint and their union is exactly the labels of `both` |
| Truth.HalvesByPosition | data.py:117-129 | the first four entries of `both` are in `lies`, the last four are in `truth` |
| Truth.LiesAndTruthsSplitAtFour | data.py:117-131 | a known label is in `lies` iff its code is below 4, and in `truth` iff its code is 4 or more |
| Process.Record | data.py:150-163 | a scraped record read through `x.get('truth')` and `x.get('statement')`, each field absent or a string; it has no contract of its own, and `Process.TruthCode` and `Process.StatementTokens` state how each field is read |
| Process.TruthCode | data.py:138-150 | conversion succeeds iff the record has a `truth` value listed in `both`; the code then indexes back to that label; otherwise it is an `UnknownLabel` error, never a default code |
| Process.TruthCodeOfPosition | data.py:138-150 | the label at position i of the scale converts to i |
| Text.IsSpace | data.py:163 | the whitespace class of `strip()`: space, tab, LF, VT, FF, CR and 0x1C–0x1F; it has no contract of its own |
| Text.FirstNonSpace | data.py:163 | scanning right from i stops at the first non-whitespace character, or at the end, with only whitespace passed over |
| Text.LastNonSpace | data.py:163 | scanning left from j, never below lo, stops just after the last non-whitespace character, with only whitespace passed over |
| Text.Strip | data.py:163 | `strip()` removes a whitespace run from each end and leaves a result that neither starts nor ends with whitespace |
| Text.StripUnique | data.py:163 | any string meeting the strip description of s equals `Strip(s)` |
| Text.StripIdempotent | data.py:163 | stripping twice is stripping once |
| Text.Lower | data.py:163 | `lower()` keeps the length, maps each A–Z to its lower-case letter, leaves every other character unchanged, and leaves no upper-case letter |
| Text.LowerIdempotent | data.py:163 | a string without upper-case letters is unchanged by lower-casing, so a second pass changes nothing |
| Text.IsPunctuation | data.py:135 | membership in `puncutation_set`, the set of `string.punctuation`; it has no contract of its own, and `Text.PunctuationRanges` states that it agrees with the 32-character literal |
| Text.PunctuationRanges | data.py:135 | `string.punctuation` has 32 characters, which are exactly the ASCII codes 33–47, 58–64, 91–96 and 123–126 |
| Text.RemovePunctuation | data.py:164 | the filtered string is no longer than the input and contains no punctuation character |
| Text.RemovePunctuationWithin | data.py:164 | the filter adds nothing: the result's characters are a sub-multiset of the input's |
| Text.RemovePunctuationCounts | data.py:164 | every non-punctuation character occurs as often after the filter as before |
| Text.RemovePunctuationSubsequence | data.py:164 | the filtered string is the input with some characters deleted and the rest kept in their order |
| Text.RemovePunctuationAppend | data.py:164 | the filter distributes over concatenation, so it keeps the order of what remains |
| Text.RemovePunctuationKeeps | data.py:164 | a string without punctuation passes through unchanged |
| Text.Split | data.py:166 | `split(" ")` gives one more field than the string has separators, and no field contains the separator |
| Text.SplitFieldWithin | data.py:166 | every field is made of characters of the split string |
| Text.JoinSplit | data.py:166 | joining the fields with the separator gives back the split string |
| Text.SplitJoin | data.py:166 | splitting the join of separator-free fields gives back the fields |
| Process.CleanStatement | data.py:163-164 | the cleaned statement has no punctuation and no upper-case letter, every other character occurs in it exactly as often as in the stripped, lower-cased statement, and the characters that remain keep their order |
| Process.StatementTokens | data.py:152-166 | tokenising fails only when the statement is missing; otherwise the tokens join with " " back into the cleaned statement, number one more than its spaces (never zero), and contain no punctuation, upper-case letter or space |
| Process.StatementTokensFromJoin | data.py:163-166 | a non-empty list of clean tokens whose join is the cleaned statement is exactly the tokens produced |
| Process.CleanRecord | data.py:171-173 | a record cleans iff its label is on the scale and its statement is present; the code indexes back to the label, the tokens join to the cleaned statement and number one more than its spaces (never zero), and each token is clean; a bad label is reported before a missing statement |
| Wrappers.MapAll | data.py:171-173 | the comprehension succeeds iff every element does, giving one result per element in order; otherwise it fails with the error of the first failing element |
| Process.CleanData | data.py:168-173 | one pair per record in input order, pair i being record i's cleaned pair; otherwise the first failing record's error |
| Process.AllWords | data.py:175-196 | the returned set is exactly the union of all tokens; the maximum is unset iff there is no token, and is otherwise at least the length of every token and equal to the length of some token |
| Process.CleanedWordsAreClean | data.py:163-192 | every word collected from a cleaned corpus has no punctuation, upper-case letter or space |
| Process.CleanedCorpusHasWords | data.py:166-196 | a non-empty cleaned corpus has at least one word, so the `-inf` start value of the maximum is always replaced |

## Left out

- `Scrape._write_data` and `Scrape.read`: HTTP fetches, the `sleep` between requests, `print`, the JSON file write and read, and the file-exists cache check. All of this is I/O.
- `Scrape._parse_page` and `Scrape._process_info_div`: CSS selectors evaluated by BeautifulSoup/lxml, a library outside this model.
- `Process.stopwords_set`: loaded from nltk and never used.
- `Text.Strip`: handles only ASCII whitespace (space, tab, LF, VT, FF, CR and 0x1C–0x1F); Python's `str.strip()` also removes Unicode whitespace such as U+00A0 and U+2028.
- `Text.Lower`: maps only ASCII A–Z; Python's `str.lower()` also lower-cases non-ASCII letters.
- `Process.AllWords`: the `-float("inf")` start value is modelled as `None`, not as a float.
- `Process.Record`: JSON values are taken to be strings or absent; a non-string `statement` or `truth` is not modelled.
- Word index, padding and one-hot label encoding are not part of this code, so they are not modelled.

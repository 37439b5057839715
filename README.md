# TREC field extraction and the `SimpleSimilarity` scoring dispatch

This project models two small pieces of a TREC retrieval system built on Lucene.

1. **The indexer.** `parse_document` takes the raw text of a TREC-style SGML document and returns four fields.
   - `doc_no` and `ht` come from `re.search(r"<TAG>\s*(.*?)\s*</TAG>", content)`, compiled without DOTALL.
   - `header` and `text` come from `re.search(r"<TAG>(.*?)</TAG>", content, re.DOTALL)`.
   - If a search finds nothing, `doc_no` and `ht` default to `"UNKNOWN"` and `header` and `text` default to `""`.
   - `index_document` also builds a `contents` field: the header, one space, then the text.
2. **The searcher.** The custom Lucene similarity `SimpleSimilarity` provides three pieces:
   - `F_t` picks one of three divergence formulas by the shape parameter `m`, or raises `ValueError`.
   - `score` computes `nf1`, `nf2` and `f0_t`, calls `F_t` twice and blends the two results with equal weights.
   - `lengthNorm` is the constant `1.0`.

The model has seven modules.

- `Text` holds `IsSpace`, the set of characters Python's `\s` matches in a `str` pattern (those for which `str.isspace()` is true). It also holds `StartsAt`, which says a string occurs at an index.
- `Regex` is a backtracking matcher for the patterns the indexer uses: literals, greedy `\s*`, lazy `.*?` with and without DOTALL, and the marks of group 1. It tries alternatives in the same order as Python's `re` engine:
  - a greedy star takes its longest run first;
  - a lazy star takes nothing first;
  - `re.search` tries start positions left to right.
- `TagSpec` states what the extractor returns without mentioning the matcher.
  - `Admits(i, j)` holds when an opening tag at `i` and a closing tag at `j` delimit a value. For DOCNO and HT, the stripped value must also contain no newline.
  - `FirstAdmitted` picks the least such pair: earliest opening tag first, then earliest closing tag.
  - `Value` is the text between the two tags. For DOCNO and HT it is stripped as `str.strip()` would strip it.
- `TagMatch` proves that the matcher, run on both pattern shapes, returns exactly `Value` of the `FirstAdmitted` pair, and `None` when no pair is admitted.
- `Indexer` holds `parse_document`, `contents`, and the facts about each field.
- `Searcher` models the similarity's fields as an immutable record.
  - `math.log`, `math.exp` and `**` are function-valued parameters that may raise.
  - Python's `/` raises `ZeroDivisionError` on a zero divisor.
  - Exceptions are the error half of a `Result`.
  - Floats are modelled as reals.
  - Only branch selection, the order of evaluation and the shape of each formula are stated. The numeric values of the math functions are never examined.
- `Wrappers` holds `Option` and `Result`.

Facts about the scoring code that the model keeps:
- `F_t` raises `ValueError("Unsupported value for m")` when it is called. Nothing checks `m` when `SimpleSimilarity` is built.
- `F_t` checks none of `x`, `f0_t` or `lambda_param`. A zero `lambda_param` raises `ZeroDivisionError` from the leading `1 / ...`. Every other failure comes from `math.log`, `math.exp` or `**`.
- `score` catches nothing.

## Model

| member | source | states |
|---|---|---|
| Indexer.FieldFound | mtcs2318-indexer.py:39-50 | when `(i, j)` is the first admitted pair of a field's tags, that field of `parse_document`, `m.group(1)` of the match, is the value the pair delimits |
| Indexer.FieldDefault | mtcs2318-indexer.py:40-48 | when a field's tags admit no pair, `re.search` finds nothing and the field is `"UNKNOWN"` for DOCNO and HT and `""` for HEADER and TEXT |
| Indexer.FieldMatched | mtcs2318-indexer.py:40-43 | the search for a field succeeds if and only if its tags admit some pair |
| Indexer.VerbatimFieldBetweenFirstTags | mtcs2318-indexer.py:42-43 | `header` and `text` are exactly the characters between the first opening tag and the first closing tag after it, with newlines kept and nothing trimmed |
| Indexer.FieldHasNoClose | mtcs2318-indexer.py:40-48 | no field, found or defaulted, ever contains its own closing tag |
| Indexer.TrimmedFieldClean | mtcs2318-indexer.py:40-46 | `doc_no` and `ht` never contain a newline and neither begin nor end with whitespace, whether found or `"UNKNOWN"` |
| Indexer.FieldIgnoresSuffix | mtcs2318-indexer.py:40-43 | once some pair of a field's tags is admitted, text appended to the document does not change that field |
| Indexer.FieldIgnoresPrefix | mtcs2318-indexer.py:40-43 | text in front in which no opening tag of the field begins, not even one that runs on into the rest, does not change that field, whatever the rest of the document holds, so other fields' tags may come before it in any order |
| Indexer.Contents | mtcs2318-indexer.py:77 | `contents` is the header, then one space, then the text: its length is the two lengths plus one, and its pieces are the header, `' '` and the text |
| TagMatch.FindFirst | mtcs2318-indexer.py:40-43 | both pattern shapes, run through Python's search order, return group 1 equal to the value of the first admitted pair, so `re.search` reports the leftmost candidate |
| TagMatch.FindNone | mtcs2318-indexer.py:40-43 | both pattern shapes find no match when no pair of tags is admitted |
| TagMatch.SearchSuffix | mtcs2318-indexer.py:40-43 | a search over a string equals the search over its suffix when no opening tag begins in the skipped prefix, not even one that runs on into the suffix |
| TagMatch.SearchAppend | mtcs2318-indexer.py:40-43 | appending text after an admitted pair does not change the search result |
| TagSpec.VerbatimFirstIff | mtcs2318-indexer.py:42-43 | under DOTALL the first admitted pair is exactly the first opening tag together with the first closing tag after it (both directions) |
| TagSpec.FirstCloseAfterOpening | mtcs2318-indexer.py:40-43 | the lazy group stops at the first closing tag after the opening tag: no closing tag lies between them |
| TagSpec.ValueHasNoClose | mtcs2318-indexer.py:40-43 | the value of the first admitted pair never contains the closing tag |
| TagSpec.TrimmedValueClean | mtcs2318-indexer.py:40-41 | a trimmed value contains no newline and has no leading or trailing whitespace |
| TagSpec.FirstAdmittedExists | mtcs2318-indexer.py:40-43 | some admitted pair implies a least admitted pair |
| TagSpec.FirstAdmittedUnique | mtcs2318-indexer.py:40-43 | the least admitted pair is unique |
| TagSpec.StripSlice | mtcs2318-indexer.py:40-41 | stripping removes exactly the whitespace before the first and after the last non-whitespace character, which is what `\s*` around the lazy group absorbs |
| TagSpec.StripHasNoOuterSpace | mtcs2318-indexer.py:40-41 | a stripped value neither begins nor ends with whitespace |
| Regex.GreedyFinds | mtcs2318-indexer.py:40-41 | a greedy `\s*` yields the match at the longest run length for which the rest of the pattern matches |
| Regex.GreedyFails | mtcs2318-indexer.py:40-41 | a greedy `\s*` fails when the rest fails at every run length |
| Regex.LazyFinds | mtcs2318-indexer.py:40-43 | a lazy `.*?` yields the match at the shortest length for which the rest of the pattern matches |
| Regex.LazyFails | mtcs2318-indexer.py:40-43 | a lazy `.*?` fails when the rest fails at every permitted length |
| Regex.SearchFinds | mtcs2318-indexer.py:40-43 | `re.search` returns the match at the leftmost start position that has one |
| Regex.SearchFails | mtcs2318-indexer.py:40-43 | `re.search` returns nothing when no start position has a match |
| Searcher.UnsupportedRaises | mtcs2318-searcher.py:83-84 | for every `m` other than `m > 2`, `m == 2` and `m == 1`, `F_t` raises `ValueError("Unsupported value for m")`, whatever `x`, `f0_t` and the math functions are |
| Searcher.UnsupportedRange | mtcs2318-searcher.py:76-84 | the unsupported values of `m` are exactly `m < 1` and `1 < m < 2` |
| Searcher.PowerBranchOk | mtcs2318-searcher.py:77-78 | for `m > 2`, `F_t` succeeds if and only if `lambda_param != 0` and both powers succeed; `m` itself never divides by zero |
| Searcher.PowerBranchValue | mtcs2318-searcher.py:77-78 | for `m > 2`, a successful `F_t` is `(1 / (lambda (2 - m))) * (f0_t^(2-m) - x^((2-m)/(1-m)))` in terms of the two power results |
| Searcher.PowerBranchUsesPow | mtcs2318-searcher.py:77-78 | for `m > 2`, `F_t` depends on `**` only, not on `log` or `exp` |
| Searcher.LogBranchOk | mtcs2318-searcher.py:79-80 | for `m == 2`, `F_t` succeeds if and only if `lambda_param != 0` and both logarithms succeed |
| Searcher.LogBranchValue | mtcs2318-searcher.py:79-80 | for `m == 2`, a successful `F_t` is `(1 / lambda) * (log f0_t + log x)`, because `-(1 / (1 - m))` is `+1` |
| Searcher.LogBranchUsesLog | mtcs2318-searcher.py:79-80 | for `m == 2`, `F_t` depends on `log` only |
| Searcher.ExpBranchOk | mtcs2318-searcher.py:81-82 | for `m == 1`, `F_t` succeeds if and only if `lambda_param != 0` and `exp(-lambda x)` succeeds |
| Searcher.ExpBranchValue | mtcs2318-searcher.py:81-82 | for `m == 1`, a successful `F_t` is `(1 / lambda) * f0_t * (1 - exp(-lambda x))` |
| Searcher.ExpBranchUsesExp | mtcs2318-searcher.py:81-82 | for `m == 1`, `F_t` depends on `exp` only |
| Searcher.ZeroLambdaRaises | mtcs2318-searcher.py:77-82 | with a supported `m` and `lambda_param == 0`, `F_t` raises `ZeroDivisionError` before any math function runs |
| Searcher.Div | mtcs2318-searcher.py:76-82 | Python's `/` raises `ZeroDivisionError` exactly when the divisor is zero, and otherwise returns the quotient |
| Searcher.ScoreBlend | mtcs2318-searcher.py:48-61 | `score` succeeds if and only if its inputs and both calls of `F_t` (on `nf1` and `nf2`, with the same `f0_t`) succeed, and then it returns `0.5 * F_t(nf1) + 0.5 * F_t(nf2)` |
| Searcher.ScoreUnsupportedRaises | mtcs2318-searcher.py:56-61 | with an unsupported `m`, `score` raises whatever the stats, freq and docLen; once its inputs are computed, the error is the unsupported-`m` `ValueError` |
| Searcher.ShippedSettingsAlwaysRaise | mtcs2318-searcher.py:40-48 | the constructor's default `m = 0.9`, which `search` also installs (line 107), makes every document score raise |
| Searcher.ZeroTokensRaises | mtcs2318-searcher.py:48-50 | with `numberOfFieldTokens == 0`, `mtf` raises `ZeroDivisionError` before any math function runs, and so does `score` |
| Searcher.LengthNorm | mtcs2318-searcher.py:37-38 | `lengthNorm` is `1.0` for every `numTerms` |

## Left out

- Lucene and PyLucene are not part of this model. That covers `IndexWriter`, `Document`, `Field`, `FieldType`, `IndexSearcher`, the query parser, the analyzer, `DirectoryReader` and `setSimilarity`. These are foreign library calls. In particular, the model does not say whether Lucene calls `score`, or with which statistics, frequency and length.
- File-system traversal (`os.walk`, `open` with `errors='replace'`), the `tqdm` progress bars and all printed output are left out. They are I/O. The model starts from the decoded document text.
- `read_queries` is left out. It is XML parsing in `xml.etree.ElementTree`.
- The broad `except Exception` handlers, the `argparse` entry points and `lucene.initVM()` are left out. They are process plumbing around the modelled functions.
- `explain` and `toString` are left out. `toString` returns a fixed string; `explain` formats `freq` and `docLen` into one; only Lucene calls them.
- Searcher.PowerBranchValue: the numeric results of `math.log`, `math.exp` and `**` are parameters and are never examined. In particular the model does not force `log` to raise at `x <= 0`, where `math.log` raises `ValueError`; and `**` on a negative base with a non-integer exponent gives a complex number in Python, which a real cannot hold. So this lemma, LogBranchValue and ExpBranchValue state each formula's shape in terms of those results, not a number.
- Python floats are modelled as reals, with no rounding, overflow, infinities or NaN. A float division is therefore exact.
- `mtf` calls no math function: it fails, with `ZeroDivisionError`, exactly when `numberOfFieldTokens` is zero (the first `Div` in `Searcher.Inputs`, stated by `Searcher.ZeroTokensRaises`). Whether `nf1`, `nf2` and `f0_t` succeed also depends on the math parameters; for them only the order of evaluation and the exceptions passed on are modelled.
- Python's `\s` is modelled as the fixed table of the 29 code points for which `str.isspace()` is true, as of the Unicode version of current Python releases.
- A group span outside the string cannot arise from a successful match. The model returns `""` for it, where Python has no such case.

# Stable-matching input reader and matching validator, modelled in Dafny

The system reads stable-matching instances (n hospitals, n students, a
preference list per agent) and checks candidate matchings. This project
models the two parts of it that carry logic:

- `verifier.dfy`, module `Verifier`: the validity check of a candidate
  matching (`verify_validity`) and the builder of the two lookup arrays
  hospital -> student and student -> hospital (`get_match`).
- `reader.dfy`, module `Reader`: the layout reader for preference files
  (`data_reader`). Blank lines are dropped and the rest stripped. The first
  line gives `n`. Lines `1..n` are the hospital rows and lines `n+1..2n` the
  student rows.

How the model is built:

- `VerifyValidity` is a method. It has two local `bool` arrays of length
  `n + 1` as the "seen" sets, and a `for` loop with early returns, as in the
  source.
- Its result is a `Verdict` datatype with one case per reason: `BadN`,
  `WrongCount(got)`, `HospOutOfRange(h)`, `StudOutOfRange(s)`, `DupHosp(h)`,
  `DupStud(s)` or `Valid`. The message strings are not modelled.
- The method is proved equal to the function `Validity`. Lemmas about that
  function prove three things. It accepts exactly the one-to-one matchings
  over `1..n`. A failure names the first faulty pair, in the order the code
  checks. An accepted matching is a permutation on both sides.
- The loop invariant says that `seen[x]` holds exactly when `x` occurs in the
  pairs already scanned. Array bounds are proved at each access, because the
  range checks come before the indexing.
- `GetMatch` returns two fresh arrays. They equal the functions `HospView` and
  `StudView`: a row of zeros in which each pair, in order, writes its entry,
  so the last write wins. For an accepted matching, the two views restricted
  to `1..n` are mutually inverse permutations.
- `ReadData` follows the source step by step: filter, empty check, read `n`,
  then two row loops. The two loops are the same code with different bounds.
  Here they are one method, `ReadRows`, called once for `1..n+1` and once for
  `n+1..2n+1`.
- `ReadData` is proved equal to the function `ReadSpec`. Lemmas about
  `ReadSpec` give the layout of a successful read, the exact conditions
  under which reading fails, and which error it then reports. They also
  show that lines after the first `2n+1` non-blank ones change nothing.
- Python's `str.isspace`, `str.strip()` and `str.split()` are modelled
  directly. The whitespace set is Python's: U+0009–U+000D, U+001C–U+0020,
  U+0085, U+00A0, U+1680, U+2000–U+200A, U+2028, U+2029, U+202F, U+205F and
  U+3000.
- Python's `int` on one token is a parameter `parse: string -> Option<int>`.
  `None` stands for the `ValueError` it raises.
- Reader errors form a datatype. `EmptyInput` and `BadInteger(index)` are the
  two `ValueError` cases. `MissingLine(index)` is the `IndexError` from
  reading past the last non-blank line.

The reader checks less than a well-formed instance needs:

- It does not check that there are exactly `1 + 2n` non-blank lines. It
  needs at least `2n + 1` and ignores the rest
  (`Reader.ReadIgnoresTrailingLines`).
- It does not check that a row is a permutation of `1..n`. A row may have
  any length.
- For `n <= 0` it returns two empty tables without reading any further line.

## Model

| member | source | states |
|---|---|---|
| `Verifier.VerifyValidity` | src/verifier.py:3-41 | The result equals the specification `Validity`. It is `BadN` exactly when n <= 0, and `WrongCount(len(pairs))` when n >= 1 and the count differs. It is `Valid` exactly when the pairs form a one-to-one matching over 1..n. |
| `Verifier.ValidityValidIff` | src/verifier.py:14-41 | The check accepts exactly when n >= 1, there are n pairs, every hospital and student ID is in [1,n], no hospital repeats and no student repeats. |
| `Verifier.ValidityFirstFault` | src/verifier.py:24-35 | A failure blamed on a pair comes after the size checks passed. It names the first pair in input order that has a fault. Every earlier pair is in range and repeats nothing. |
| `Verifier.PairFaultMeaning` | src/verifier.py:26-35 | Within one pair the checks run in a fixed order: hospital range, student range, duplicate hospital, duplicate student. A range report happens exactly when that ID is out of range and the earlier checks passed. For an in-range pair, an earlier pair with the same hospital gives `DupHosp` of that hospital. Otherwise an earlier pair with the same student gives `DupStud` of that student. Otherwise the pair is `Valid`. Conversely, a duplicate report means such an earlier pair exists. |
| `Verifier.ScanFromValid` | src/verifier.py:24-41 | The scan from index k returns Valid exactly when no pair at k or later has a fault given the pairs before it. |
| `Verifier.ScanFromFirstFault` | src/verifier.py:24-39 | A failing scan from k returns the fault of the first faulty pair at or after k. |
| `Verifier.MatchingIsPermutation` | src/verifier.py:20-41 | In an accepted matching the hospital IDs are exactly {1..n}, and so are the student IDs. |
| `Verifier.GetMatch` | src/verifier.py:43-64 | Returns two fresh arrays of length n+1, equal to `HospView` and `StudView`. For an accepted matching, matchS[matchH[h]] == h and matchH[matchS[s]] == s for all h and s in 1..n, with every entry in 1..n. |
| `Verifier.HospViewAt` | src/verifier.py:57-62 | A hospital slot that no pair names stays 0. The slot of a hospital holds the student of the last pair that names it. |
| `Verifier.StudViewAt` | src/verifier.py:57-62 | A student slot that no pair names stays 0. The slot of a student holds the hospital of the last pair that names it. |
| `Verifier.HospInverseAt` | src/verifier.py:57-62 | For a matching and a hospital h in 1..n, the student looked up for h is in 1..n, and looking that student up gives h back. |
| `Verifier.StudInverseAt` | src/verifier.py:57-62 | For a matching and a student s in 1..n, the hospital looked up for s is in 1..n, and looking that hospital up gives s back. |
| `Verifier.ViewsAreInverse` | src/verifier.py:57-62 | When the pairs form a matching, the two lookups restricted to 1..n are mutually inverse permutations, and slot 0 of each stays 0. |
| `Reader.ReadData` | src/matcher.py:12-29 | The result equals the specification `ReadSpec`. It is the empty-input error exactly when every line is whitespace only. On success the two tables have n rows each, or none when n <= 0. |
| `Reader.ReadRows` | src/matcher.py:21-27 | One row loop over lo..hi-1. The result is the rows in order, or the error of the first line that is missing (IndexError) or does not parse (ValueError). |
| `Reader.ReadLayout` | src/matcher.py:17-29 | On success, n is the integer on the first non-blank line. There are at least 2n+1 non-blank lines when n > 0. Hospital row i is non-blank line 1+i parsed, and student row j is non-blank line n+1+j parsed. |
| `Reader.ReadFailsIff` | src/matcher.py:14-27 | Reading fails exactly when every line is blank, or the first non-blank line is not an integer, or some non-blank line among 1..2n is missing or does not parse. The empty-input error occurs exactly when every line is blank. |
| `Reader.ReadFirstError` | src/matcher.py:17-27 | Which error a failed read reports. A first non-blank line that is not an integer gives ValueError at line 0 (`BadInteger(0)`). Otherwise the error names the first non-blank line i among 1..2n that does not read, and every line before it reads. It is IndexError (`MissingLine(i)`) when line i is past the end and ValueError (`BadInteger(i)`) when it does not parse. |
| `Reader.ReadIgnoresTrailingLines` | src/matcher.py:21-29 | Appending any lines to a file that reads successfully leaves the result unchanged. |
| `Reader.NonBlankLayout` | src/matcher.py:17-29 | The layout of a successful read, stated on the already filtered lines. |
| `Reader.NonBlankFailsIff` | src/matcher.py:14-27 | The failure conditions, stated on the already filtered lines. |
| `Reader.NonBlankFirstError` | src/matcher.py:17-27 | The reported error of a failed read, stated on the already filtered lines: `BadInteger(0)` for a bad first line, otherwise the error of the first line among 1..2n that is missing or does not parse. |
| `Reader.NonBlankIgnoresTail` | src/matcher.py:21-29 | Filtered lines after the 2n+1 that were read do not change a successful read. |
| `Reader.TablesOk` | src/matcher.py:21-27 | For n > 0 the tables are read exactly when rows 1..2n all exist and parsed. Then there are n hospital rows taken from rows 1..n and n student rows taken from rows n+1..2n. The empty-input error never comes from this step. |
| `Reader.TablesIgnoreTail` | src/matcher.py:21-27 | Rows after row 2n do not change tables that were read successfully. |
| `Reader.RowsOk` | src/matcher.py:21-27 | Reading rows lo..hi-1 succeeds exactly when each of them exists and parsed. The result then has hi-lo rows, and row k is line lo+k. |
| `Reader.RowsFirstError` | src/matcher.py:21-27 | A failed row read names the first failing line: IndexError past the end, ValueError when the line does not parse. Every line before it exists and parsed. |
| `Reader.RowsErrorPersists` | src/matcher.py:21-27 | Once a row read has failed, reading further lines reports the same error. |
| `Reader.RowsIgnoreTail` | src/matcher.py:21-27 | Rows after the last one read do not change a successful row read. |
| `Reader.NonBlank` | src/matcher.py:12 | The filtered list is no longer than the input, and none of its entries is empty. |
| `Reader.NonBlankAppend` | src/matcher.py:12 | Filtering the concatenation of two line lists gives the concatenation of the filtered lists. |
| `Reader.NonBlankEmptyIff` | src/matcher.py:12-15 | No line survives the filter exactly when every line is whitespace only. |
| `Reader.StripShape` | src/matcher.py:12 | `strip()` keeps a contiguous middle part of the line. What it removes in front and behind is whitespace only. |
| `Reader.StripEmptyIffBlank` | src/matcher.py:12 | A line strips to the empty string exactly when it is whitespace only. |
| `Reader.Strip` | src/matcher.py:12 | A stripped line neither starts nor ends with whitespace. |
| `Reader.IsSpaceAscii` | src/matcher.py:12 | Describes `IsSpace`, the model of `str.isspace` that `strip()` and `split()` use. Among ASCII characters, exactly tab, line feed, vertical tab, form feed, carriage return, U+001C..U+001F and space are whitespace. The zero-width space U+200B is not. |
| `Reader.Split` | src/matcher.py:22 | Every token of `split()` is non-empty and free of whitespace. |
| `Reader.SplitEmptyIffBlank` | src/matcher.py:22 | `split()` gives no tokens exactly when the line is whitespace only. |
| `Reader.ParseAll` | src/matcher.py:22 | Converting the tokens succeeds exactly when every token converts. The result then has one integer per token, in order. |
| `Reader.ParseRow` | src/matcher.py:22 | One row, `list(map(int, line.split()))`, read token by token. It is the empty row exactly when the line is whitespace only. A row that reads has at most as many integers as the line has characters. |
| `Reader.ParseRowSplits` | src/matcher.py:22 | Reading a row token by token equals converting every token of `split()`, failing if any one fails. |
| `Reader.ParseLinesAt` | src/matcher.py:22 | Entry i of the parsed lines is the parse of line i. |

## Left out

- File I/O in `data_reader` (`open` and `readlines`, src/matcher.py:8-9): the reader takes the list of lines as it comes from `readlines()`.
- The module-level `print(data_reader(...))` in src/matcher.py:31: an I/O side effect.
- Python's `int()` on a token or on the first line: it is the parameter `parse`. Its acceptance rules are not modelled, such as signs, underscores and non-ASCII digits.
- The message strings of `verify_validity`: the reasons are the `Verdict` cases, which carry the same data (the offending ID or the count).
- Verifier.GetMatch: requires n >= 0 and every ID in the pairs to lie in 1..n. It does not model what Python does otherwise, where both lists have max(0, n + 1) entries. ID 0 silently writes slot 0. An ID in -(n+1)..-1 silently writes a slot counted from the end. An ID above n or below -(n+1) raises IndexError. For n < 0 both lists are empty, so any pair raises IndexError, and no pairs gives two empty lists. The requirement holds for every list of pairs that `verify_validity` accepts (`Verifier.ValidityValidIff`).
- Gale-Shapley matching and the blocking-pair stability check: the repository files that are part of this model contain no code for either (src/matcher.py holds only the reader).
- scripts/generate_in.py and scripts/generate_out.py: random test-data generators that write files. scripts/task_c.py: a timing and plotting harness around subprocess calls. None of them is part of this model.

# Vacancy search client: record model, filter engine and file managers

This project models the core of a small job-search client. The client turns
the search API's response into `Vacancy` records. It keeps the records that
satisfy a set of optional criteria, or all of them when none does. It
serializes records to five-key mappings and compares two records by the
upper bound of their salary. It persists lists of records through a JSON
manager or a CSV manager.

Modules, one per source concern:

- `Wrappers` (wrappers.dfy): `Option` for Python's `None`, `Result` and `Outcome` for raised exceptions.
- `Sequences` (sequences.dfy): `Keep`, the filtering list comprehension, and `IsSubsequence`, with their lemmas.
- `PyInt` (py_int.dfy): Python's `int(text)` in base 10, which parses the salary criterion.
- `Integration` (integration.dfy): the `Vacancy` record. Its `__init__` is `NewVacancy`, which builds the datatype value `Vacancy(...)`. The module also holds `json_to_object`, `is_filter_by_salary`, `filter_by_fields`, the two serializers and `__gt__` / `__lt__`.
- `FileManager` (file_manager.dfy): `JsonFileManager` and `CsvFileManager` as classes. Each has a `file` field: the collection stored at the output path, or `None` when no file exists there.
- `Workflow` (workflow.dfy): the slice `filtered_vacancies[:top_vacancies]` of main.py.

Python truthiness is explicit. `TruthyText` is false for `None` and `""`.
`TruthyNumber` is false for `None` and `0`. The fall-through of
`is_filter_by_salary`, a range with neither bound truthy, returns Python's
`None`; the model treats it as `false`.

Three behaviours of the code worth knowing:

- An item without a `snippet` makes `json_to_object` fail. The `.get` call is made on `None` and raises `AttributeError`. It does not yield an absent `requirements`.
- A negative count in main.py's slice drops elements from the end. It does not yield an empty list.
- `delete_object` of the JSON manager removes only the first equal element (`list.remove`). It raises `ValueError` when there is none. Only the CSV manager removes all equal rows.

## Model

| member | source | states |
|---|---|---|
| `Integration.NewVacancy` | src/integration.py:50-59 | each of the five slots holds the argument given for it |
| `Integration.FromRaw` | src/integration.py:74-80 | an item becomes a record iff it has a snippet; the record takes the item's name, url, salary and description and the snippet's requirement |
| `Integration.ConvertItems` | src/integration.py:73-82 | succeeds iff every item has a snippet; then one record per item, in order, with `salary` from `salary` and `requirements` from `snippet.requirement` |
| `Integration.JsonToObject` | src/integration.py:61-82 | with `items` present it succeeds iff every item has a snippet, giving one record per item in order, field by field; a missing `items` fails with `ItemsMissing`, a missing snippet with `SnippetMissing` |
| `Integration.IsFilterBySalary` | src/integration.py:84-114 | passes iff the threshold is falsy, or the salary is present and has a truthy bound, with the threshold `>= from` when `from` is truthy and `<= to` when `to` is truthy |
| `Integration.SalaryThresholdsConvex` | src/integration.py:100-114 | the non-zero thresholds a salary admits form an interval |
| `Integration.Threshold` | src/integration.py:131-138 | a threshold exists iff the text is non-empty and `int()` accepts it, and then it is what `int()` reads |
| `Integration.NoSalaryConstraint` | src/integration.py:135-138 | missing, empty, unparseable and zero salary text let every record pass the salary test |
| `Integration.ThresholdOfShow` | src/integration.py:135-138 | the decimal text of any number, with whitespace before or after it, imposes exactly that number |
| `PyInt.ParseInt` | src/integration.py:136 | `int()` succeeds only on text that contains a digit and holds nothing but whitespace, digits, underscores and signs |
| `PyInt.InnerSpaceRejected` | src/integration.py:136 | whitespace with other characters on both sides makes `int()` fail: only the ends are stripped |
| `PyInt.SpacedThousandsRejected` | src/integration.py:136 | `int("50 000")` fails |
| `PyInt.ParseShow` | src/integration.py:136 | `int(str(n)) == n` for every integer |
| `PyInt.ParsePadded` | src/integration.py:136 | whitespace around the number does not change what `int()` reads |
| `Integration.Matches` | src/integration.py:142-146 | a record matches iff every truthy text criterion equals its field and its salary passes the range test; with no truthy criterion every record matches, and a salary criterion rejects a record without salary |
| `Integration.Filtered` | src/integration.py:149 | every returned record is from the input, a non-empty input never gives an empty result, and a result other than the input holds only matching records |
| `Integration.FilterByFields` | src/integration.py:116-149 | the loop returns the records matching every truthy criterion, in order, or the input list when none matches |
| `Integration.KeptExactly` | src/integration.py:140-147 | a record is kept iff it matches, and as many times as it occurs |
| `Integration.FilteredShape` | src/integration.py:140-149 | the result is a subsequence of the input, never longer, and empty only for an empty input |
| `Integration.FilteredFallback` | src/integration.py:149 | no match gives back the input unchanged; otherwise every returned record matches |
| `Integration.FilteredIdempotent` | src/integration.py:140-149 | filtering the result again with the same criteria gives the same list |
| `Integration.Serialized` | src/integration.py:151-169 | the mapping has exactly the keys name, url, salary, description, requirements |
| `Integration.SerializedRoundTrip` | src/integration.py:163-169 | each key holds its field: the record reads back from its mapping |
| `Integration.SerializedInjective` | src/integration.py:163-169 | distinct records have distinct mappings |
| `Integration.ConvertedSerializedKeys` | src/integration.py:163-169 | every converted record serializes to the five keys, whatever its raw item omitted |
| `Integration.SerializedVacancies` | src/integration.py:171-183 | one mapping per record, same length and order, each exactly that record's five-key mapping and reading back as the record |
| `Integration.SerializedVacanciesRoundTrip` | src/integration.py:183 | the serialized list reads back as the original list |
| `Integration.Greater` | src/integration.py:185-194 | sentinel iff a salary is `None`; otherwise one of the two records, having the largest `to`, and `b` on a tie |
| `Integration.Less` | src/integration.py:196-205 | sentinel iff a salary is `None`; otherwise one of the two records, having the smallest `to`, and `b` on a tie |
| `Integration.CompareSymmetric` | src/integration.py:189-205 | with distinct `to` values the operand order does not matter and the two operators pick different records |
| `FileManager.RemoveFirst` | src/file_manager.py:67 | fails iff the element is absent; otherwise the list is one element shorter |
| `FileManager.RemoveFirstAt` | src/file_manager.py:67 | what is removed is the element at `IndexOf`; the elements before and after it stay in order |
| `FileManager.IndexOfFirst` | src/file_manager.py:67 | no element before `IndexOf` equals the removed one, so the first occurrence is removed |
| `FileManager.RemoveFirstCount` | src/file_manager.py:67 | exactly one occurrence of the element is removed and every other element keeps its count |
| `FileManager.RemoveAll` | src/file_manager.py:128 | no row equal to the argument is left, the result is no longer than the input, and every row in it comes from the input |
| `FileManager.RemoveAllExactly` | src/file_manager.py:128 | no equal row is left, every other row keeps its count and order, and nothing changes when none is equal |
| `FileManager.WritablePrefix` | src/file_manager.py:89 | `writerows` writes rows up to the first row with a key outside the header |
| `FileManager.JsonFileManager.constructor` | src/file_manager.py:10-17 | the manager starts from whatever is stored at its path |
| `FileManager.JsonFileManager.Save` | src/file_manager.py:34-42 | the file holds exactly the given list |
| `FileManager.JsonFileManager.AddObject` | src/file_manager.py:44-56 | a missing file fails with nothing written; otherwise the stored list gains the object at its end |
| `FileManager.JsonFileManager.DeleteObject` | src/file_manager.py:58-70 | a missing file or absent object fails with nothing written; otherwise the first equal element is removed |
| `FileManager.CsvFileManager.constructor` | src/file_manager.py:10-17 | the manager starts from whatever is stored at its path |
| `FileManager.CsvFileManager.Write` | src/file_manager.py:130-134 | truncates, writes the header, then the rows up to the first that does not fit, failing if one did not |
| `FileManager.CsvFileManager.Save` | src/file_manager.py:75-89 | empty data fails before the file is touched; otherwise the header is the first row's keys and the rows are written up to the first one with a key outside that header, which fails with `ValueError`; with no such row all of the data is written |
| `FileManager.CsvFileManager.AddObject` | src/file_manager.py:91-114 | a missing file fails; otherwise the header is kept and the row appended, or the file is left as it was with `ValueError` when the row has an extra key |
| `FileManager.CsvFileManager.DeleteObject` | src/file_manager.py:116-134 | a missing file fails; otherwise the header is kept and every equal row removed |
| `FileManager.JsonScenario` | src/file_manager.py:34-70 | save `[r1, r2]`, add `r3`, delete `r2` leaves `[r1, r2]`, `[r1, r2, r3]`, `[r1, r3]` |
| `FileManager.CsvScenario` | src/file_manager.py:75-134 | the same sequence on the CSV manager, for distinct rows that fit the header |
| `FileManager.CsvSaveEmpty` | src/file_manager.py:85 | saving no rows fails with `IndexError` and leaves the file as it was |
| `Workflow.Take` | main.py:23 | the result is a prefix of the list, as long as the slice bounds say |
| `Workflow.TakeCases` | main.py:23 | zero keeps nothing, a count at least the length keeps all, a negative count drops that many from the end |

## Left out

- `HHVacancyParser.get_vacancies` and the abstract `VacancyParser` stand for the HTTP request to the search API. That is network I/O, so the response comes in as a `Payload` value.
- main.py apart from its slice: it reads `input()` prompts and prints.
- src/logger.py: process-wide logging configuration with no logic.
- The default argument values of `Vacancy.__init__`: `json_to_object` always passes every argument.
- JSON and CSV encoding, `Path` resolution of the output location, and file handles. A file is the collection it holds, or `None` when it does not exist.
- Write errors for unwritable paths. Only the read-before-write failure of a missing file is modelled.
- `BaseFileManager` as a shared interface: the two managers are separate classes.
- CSV column order: a header is the set of the first row's keys.
- CSV `DictReader` behaviour: values are not turned into strings, missing cells are not filled with defaults, and empty rows are not skipped. A row reads back as it was written. In the source, a `delete_object` argument with non-string values therefore never equals a row read back; the model compares rows as written.
- CSV files this manager did not write: `Valid()` assumes every stored row fits its header.
- Records whose salary or `items` has another JSON type (a float, a string, a non-list). Salary bounds are integers.
- Keys of the salary object other than `from` and `to` (such as `currency`): `Salary` keeps only those two, so `serialized_vacancy`, which copies the whole salary dict, is modelled without the other keys.
- `__gt__` / `__lt__`: comparing a `None` `to` raises `TypeError` in Python, and a salary without a `to` key raises `KeyError`. The model reads both as a `None` `to`, and the precondition `Comparable` excludes that case.
- `PyInt.ParseInt`: Unicode digits and non-ASCII whitespace, which Python's `int()` also accepts, are not read, and neither is the limit on the number of digits.
- Concurrency: every manager call is a full read-modify-write, and nothing protects two calls on the same file from each other.

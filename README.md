# Weed species name validation — a Dafny model

`scrape_species.py` gathers candidate scientific names of weeds from many
Australian public sources. It then reduces them to a sorted, deduplicated
list of names that Kew's Plants of the World Online (POWO) accepts. This
project models that reduction and proves its properties:

- `validate_species_name` turns one candidate into an accepted name or
  into no result (module `Powo`).
- The main block deduplicates and sorts the raw names, validates each one,
  collects the results in a set and emits the set sorted (module `Pipeline`).
- The anchored binomial shape filter, which two scrapers apply to names
  before they reach the raw list (module `Shape`).

Supporting modules:

- `Text` models Python's `str.isspace`, `str.strip()` and `str.split()`.
- `Ordering` models Python's `<` on `str` (code point by code point, a
  proper prefix first) and `sorted` applied to a set of strings.
- `Wrappers` holds `Option`.

The authority is a parameter of type `Powo.Lookup`. It maps the
(genus, species) pair that is asked for to `Failure` (the search raised)
or to `Records(rs)`, the records the search yields, in order. Each record
has:

- `rank: Option<string>`;
- `accepted: Option<bool>`;
- `name: Option<string>`;
- `synonymOf`, which is one of:
  - `Absent` (no such key);
  - `Entry(name)`, a mapping with or without a `name`;
  - `NotAMapping`, a value such as `null`. For this value, `.get("name")`
    raises inside the `try`, and the function returns `None` at once.

The classification of one record follows the `if`/`elif` chain of the loop
exactly:

- A record whose rank is not `"Species"` is skipped.
- `accepted is True` with a truthy `name` returns that name. With a falsy
  or absent name, the loop goes on to the next record.
- `accepted is False` with a `synonymOf` key returns `synonymOf.name` when
  that name is truthy, and otherwise goes on.
- Any other record is skipped.

The first record that decides fixes the result. Running out of records, or
a failed search, gives no result. A name counts as truthy when it is
present and not the empty string.

## Model

| member | source | states |
|---|---|---|
| `Text.Split` | scrape_species.py:83 | `split()` returns only non-empty tokens that contain no whitespace |
| `Text.SplitKeepsNonSpace` | scrape_species.py:83 | the tokens, concatenated, are exactly the non-whitespace characters of the candidate, in order |
| `Text.SplitJoin` | scrape_species.py:83 | `split()` of non-empty whitespace-free tokens joined by single spaces gives the tokens back |
| `Text.SplitAppendSpace` | scrape_species.py:83 | trailing whitespace does not change the tokens |
| `Text.Strip` | scrape_species.py:83 | definition, no contract: `strip()`, the candidate with leading and then trailing whitespace removed (its meaning is pinned down by `Text.StripSlice`) |
| `Text.StripSlice` | scrape_species.py:83 | `strip()` cuts only whitespace, and only from the two ends, and leaves no whitespace at either end |
| `Text.SplitIgnoresStrip` | scrape_species.py:83 | `name.strip().split()` equals `name.split()`: the strip changes nothing |
| `Ordering.Less` | scrape_species.py:308 | definition, no contract: Python's `<` on `str`, comparing code point by code point, with a proper prefix ordered first; both calls to `sorted` (lines 308 and 317) use it |
| `Ordering.LessTotal` | scrape_species.py:308 | Python's string order is total: two different strings are ordered one way or the other |
| `Ordering.LessTransitive` | scrape_species.py:308 | Python's string order is transitive |
| `Ordering.Insert` | scrape_species.py:308 | inserting into a strictly ascending list keeps it strictly ascending and adds exactly the new element |
| `Ordering.Sorted` | scrape_species.py:308 | `sorted` of a set lists every element exactly once, strictly ascending |
| `Ordering.SortedDistinct` | scrape_species.py:317 | a strictly ascending list holds as many distinct elements as it is long |
| `Ordering.SortedUnique` | scrape_species.py:317 | a set has exactly one strictly ascending listing |
| `Powo.Classify` | scrape_species.py:92-110 | what one record makes the loop do. A record of another rank is skipped. It returns its `name` exactly when it is an accepted Species record with a truthy `name`. It returns its `synonymOf.name` exactly when it is a non-accepted Species record whose `synonymOf` mapping has a truthy `name`. It raises exactly when it is a non-accepted Species record whose `synonymOf` is not a mapping. Every other record is skipped |
| `Powo.Scan` | scrape_species.py:91-113 | a scan result is a non-empty string copied from the `name` or `synonymOf.name` of a Species-rank record |
| `Powo.QueryFor` | scrape_species.py:83-88 | the genus and species asked for are non-empty and free of whitespace (`Powo.QueryIsFirstTwoTokens` says they are the first two tokens) |
| `Powo.Validate` | scrape_species.py:80-117 | `validate_species_name` returns either no result or a non-empty name |
| `Powo.ValidateSpeciesName` | scrape_species.py:80-117 | the early-exit loop returns exactly what the first-decision rule `Validate` gives, on every path |
| `Powo.DecidedAt` | scrape_species.py:91-110 | when every earlier record is skipped, the first deciding record fixes the result |
| `Powo.LaterRecordsIgnored` | scrape_species.py:95-110 | records after the first deciding one are never examined: appending any records changes nothing |
| `Powo.NoDecisionNoResult` | scrape_species.py:112-113 | when no record decides, the result is "no result" |
| `Powo.ScanFirstMatch` | scrape_species.py:91-113 | the scan returns `n` if and only if some record that returns `n` has only skipped records before it |
| `Powo.AcceptedRecordWins` | scrape_species.py:95-99 | the first accepted Species record with a non-empty name gives exactly that name |
| `Powo.SynonymRecordWins` | scrape_species.py:101-110 | the first non-accepted Species record with a non-empty `synonymOf.name` gives exactly that name, with no score check |
| `Powo.BrokenSynonymEndsScan` | scrape_species.py:101-117 | a non-mapping `synonymOf` on a deciding record raises, and the result is "no result" whatever follows |
| `Powo.IncompleteRecordContinues` | scrape_species.py:95-104 | these Species records do not end the scan: accepted with no usable name, `accepted` absent, or a synonym with no usable `synonymOf.name` |
| `Powo.OtherRanksIgnored` | scrape_species.py:91-93 | dropping every record whose rank is not `"Species"` leaves the result unchanged |
| `Powo.OtherRankInsertedIgnored` | scrape_species.py:91-93 | inserting a non-Species record anywhere leaves the result unchanged, whatever its other fields say |
| `Powo.MalformedNotQueried` | scrape_species.py:83-86 | with fewer than two tokens no query is made and the result is "no result", for every authority |
| `Powo.QueryIsFirstTwoTokens` | scrape_species.py:83-88 | a query is made exactly when there are at least two tokens, and it is for the first two |
| `Powo.OnlyTheQueryMatters` | scrape_species.py:88-89 | two authorities that answer the one pair asked for alike give the same result |
| `Powo.ResultOfRecords` | scrape_species.py:89-91 | when the search yields records, the result is the scan of those records |
| `Powo.FailureNoResult` | scrape_species.py:115-117 | a failed search gives "no result"; nothing propagates |
| `Powo.ResultFromAuthority` | scrape_species.py:96-110 | every result is copied from a record returned for this candidate's own pair, never built from the candidate |
| `Pipeline.AcceptedSpecies` | scrape_species.py:308-317 | the output is strictly ascending, holds exactly the validation results of the distinct raw names, and is no longer than the number of distinct raw names |
| `Pipeline.AcceptedNamesAdd` | scrape_species.py:312-315 | validating one more candidate adds its own result, if any, and nothing else |
| `Pipeline.AcceptedNamesBound` | scrape_species.py:311-317 | there are at most as many accepted names as distinct candidates |
| `Pipeline.AcceptedMembership` | scrape_species.py:311-317 | a name is in the output if and only if some raw name validates to it |
| `Pipeline.NoDuplicates` | scrape_species.py:317 | no name appears twice in the output |
| `Pipeline.OrderIndependent` | scrape_species.py:308-317 | raw lists with the same distinct names, in any order or with any repetition, give the same output |
| `Pipeline.PermutationInvariant` | scrape_species.py:308-317 | a permutation of the raw list gives the same output |
| `Pipeline.OutputFromAuthority` | scrape_species.py:313-315 | every output name is the validation result of some raw name |
| `Pipeline.OneAcceptedName` | scrape_species.py:311-315 | when every candidate gives `x` or nothing, and one gives `x`, the accepted set is `{x}` |
| `Pipeline.LantanaScenario` | scrape_species.py:308-317 | worked example: a direct match and a synonym that both resolve to "Lantana camara", an unknown name, a one-word name and a repeated name give exactly `["Lantana camara"]` |
| `Shape.Fields` | scrape_species.py:130 | helper for deciding the line-130/230 pattern (the source itself does not split on single spaces): cutting at single spaces gives at least one piece, and no piece contains a space |
| `Shape.JoinFields` | scrape_species.py:130 | helper for deciding the line-130/230 pattern: joining the pieces with single spaces gives the string back |
| `Shape.FieldsJoin` | scrape_species.py:130 | helper for deciding the line-130/230 pattern: cutting a space-joined list of space-free pieces gives the pieces back |
| `Shape.FullMatch` | scrape_species.py:130 | definition, no contract: the pattern `^[A-Z][a-z]+ [a-z\-]+(?: [a-z\-]+)?$` without the newline that `$` allows. The string cut at single spaces gives two or three pieces: a genus `[A-Z][a-z]+` followed by one or two epithets `[a-z\-]+` |
| `Shape.MatchesBinomial` | scrape_species.py:230 | definition, no contract: the filter as `re.match` evaluates it. The string matches `FullMatch`, or it ends in one newline and matches `FullMatch` without that newline |
| `Shape.FullMatchIsBinomialParts` | scrape_species.py:230 | the executable shape test holds iff the string is `[A-Z][a-z]+ [a-z\-]+` with an optional ` [a-z\-]+`, and nothing else |
| `Shape.ShapedNameIsQueried` | scrape_species.py:130 | a name that passes the filter (including the trailing newline that `$` allows) has two or three tokens and is queried by its genus and first epithet |

## Left out

- The scrapers (`scrape_qld_html` through `scrape_lucid_key`, scrape_species.py:121-287): HTTP, HTML, CSV, PDF and browser I/O with source-specific extraction. Only the anchored shape filter they share (lines 130 and 230) is modelled.
- `download_pdf` and `extract_text_from_pdf` (scrape_species.py:57-76): network and file I/O through PyPDF2.
- `powo.search` (scrape_species.py:89): a remote service. It is the `Lookup` parameter. `pykew` may fetch results page by page, so the search can also raise part-way through the records. That case gives the same result as `Records(prefix)` on the records yielded before the failure, because a failure and running out of records both end in `None`. It is therefore not a separate case in the model. `Lookup` is a function, so the model assumes the authority answers the same (genus, species) pair the same way every time within one run. Distinct raw names that share their first two tokens, such as "Acacia nilotica" and "Acacia nilotica indica", are queried separately in the source. A transient failure on only one of those queries cannot be expressed in the model. `Pipeline.OrderIndependent` and `Pipeline.PermutationInvariant` rely on this assumption.
- The `difflib.SequenceMatcher` ratio and its 0.8 threshold (scrape_species.py:105-109): floating-point work in a library heuristic. It only chooses the log level, never the returned value.
- Logging, the Rich console and the `[i/total]` progress prefix (scrape_species.py:47-53 and 81): presentation only. They are why the loop index is not modelled.
- Writing `accepted_species.json` (scrape_species.py:318-319): file I/O. The model stops at the sorted list.
- Record field values of unexpected types: a non-boolean `accepted`, or a `name` that is neither a string nor absent. Only `synonymOf` values that are not mappings are modelled. Such values are the ones that change the control flow (they raise).
- Python's `sorted` is Timsort. `Ordering.Sorted` produces the same list by insertion. The output is fixed by its contract alone, because a set has exactly one strictly ascending listing.

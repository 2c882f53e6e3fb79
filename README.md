# lenu legal-form detection core, in Dafny

lenu predicts the ISO 20275 Entity Legal Form (ELF) code of a company from its
legal name and its jurisdiction. This project models the deterministic part
around the statistical model and proves properties of it:

- company-name harmonisation and tokenisation (`CompanyNames`, `cnames.dfy`);
- the ELF code list, expanded to US states and indexed by jurisdiction and
  abbreviation, with the abbreviation matcher (`ElfCodes`, `elf_codes.dfy`);
- the abbreviation feature transformer (`Features`, `features.dfy`);
- the rule classifier that picks the most frequent code among the
  abbreviations a name matches (`Models`, `models.dfy`);
- the training-data filters, the ranking `detect` returns and the naming of
  model files (`Pipelines`, `pipelines.dfy`);
- the jurisdiction of an LEI record (`Lei`, `lei.dfy`).

Supporting modules model the Python and pandas operations the core relies on:
`Text` (`str.replace`, `split`, `endswith`, `in`, `lower`, `strip`), `StringOrder`
(string comparison, `sorted`, `numpy.unique`), `Seqs` (boolean masks,
`Series.unique`, concatenation) and `Wrappers` (`Option`, `Result`).

Data frames become sequences of records, and missing values become `Option`.
Exceptions become `Result` or a failure constructor that names the error.
The two ELF index maps become a datatype with a validity invariant. The two
classes whose methods loop or set fields become Dafny classes:
`Features.ElfAbbreviationTransformer` and `Models.ElfAbbreviationClassifier`.
The loops of `harmonize`, `purge`, `_replace_multi_spaces`,
`_replace_trailing_non_alphanumeric_chars`, `transform` and `predict` are
methods with loop invariants. Each method is proved against the function that
specifies it.

## Model

| member | source | states |
|---|---|---|
| CompanyNames.ReplaceDiacritics | lenu/ml/cnames.py:7-10 | the result is exactly the ASCII characters of the decomposition, in their order and with their multiplicities |
| CompanyNames.AsciiOnly | lenu/ml/cnames.py:10 | ASCII encoding with "ignore" drops exactly the non-ASCII characters: the result is a subsequence of the input holding every ASCII character as often as the input does and no other character, so ASCII text is unchanged |
| CompanyNames.CollapseSpaces | lenu/ml/cnames.py:13-16 | the repeated replacement terminates with no double space left, never lengthens the text, and equals `Squeeze`, a one-pass definition that shortens every run of spaces to a single space |
| CompanyNames.ReplaceMultiSpaces | lenu/ml/cnames.py:13-16 | the while loop computes the collapse and leaves no double space |
| CompanyNames.CollapseSpacesKeepsNonSpaces | lenu/ml/cnames.py:13-16 | only spaces are removed: the other characters survive in order |
| CompanyNames.CollapseSpacesChars | lenu/ml/cnames.py:13-16 | the collapse adds no character |
| CompanyNames.CollapseSpacesKeepsLast | lenu/ml/cnames.py:13-16 | a final non-space character is kept |
| CompanyNames.ReplaceDoubleQuotationMarks | lenu/ml/cnames.py:19-20 | each `"` becomes a space and every other character stays in place |
| CompanyNames.WithoutTrailingNonAlnum | lenu/ml/cnames.py:23-26 | the result is the longest prefix that is empty or ends in a letter or digit; everything cut is neither |
| CompanyNames.ReplaceTrailingNonAlphanumericChars | lenu/ml/cnames.py:23-26 | the while loop computes that prefix |
| CompanyNames.CorrectCommasAndPeriods | lenu/ml/cnames.py:29-34 | the three replacements only delete spaces: the non-space characters are the same and in the same order, the text is not longer, and a final letter or digit is kept |
| CompanyNames.ReplaceKeepsNonSpaces | lenu/ml/cnames.py:13-34 | `replace` with a replacement that has the same non-space characters as the pattern keeps the non-space characters of the text, in order |
| CompanyNames.PurgeRulesShape | lenu/ml/cnames.py:40-51 | every rule pattern is non-empty and ends in a non-alphanumeric character; the replacements are made of spaces and the letters of " l " and " and " |
| CompanyNames.ApplyRulesRemoves | lenu/ml/cnames.py:54-57 | a rule that replaces one character by text without it removes that character for good unless a later rule writes it back |
| CompanyNames.ApplyRulesChars | lenu/ml/cnames.py:54-57 | a character no rule writes appears in the output only if it was in the input |
| CompanyNames.ApplyRulesKeepsLast | lenu/ml/cnames.py:54-57 | rules whose patterns end in a non-alphanumeric character keep a final letter or digit |
| CompanyNames.Purged | lenu/ml/cnames.py:40-57 | after `purge` no `-`, `(`, `)`, `;`, `/` or `,` is left, every other character comes from the input or a replacement, and a final letter or digit is kept |
| CompanyNames.Purge | lenu/ml/cnames.py:54-57 | the loop over the rule list applies the rules in order |
| CompanyNames.RunStepsIsChain | lenu/ml/cnames.py:60-69 | running the step list in order is the composition of the eight steps, with the space collapse twice |
| CompanyNames.HarmonizeText | lenu/ml/cnames.py:72-82 | a harmonised name is ASCII, has no double space, no `"`, none of the purged separators, and is empty or ends in a letter or digit |
| CompanyNames.Harmonize | lenu/ml/cnames.py:72-82 | the step loop reports a failing step with its input, fails at the first step for a value that is not text, and otherwise returns the harmonised name |
| CompanyNames.SourceSynonymsDisagree | lenu/ml/cnames.py:85-101 | in the table as written (`SourceSynonyms`), "int" and "int." map to different tokens |
| CompanyNames.SynonymVariantsAgree | lenu/ml/cnames.py:85-101 | in the corrected table (`Synonyms`) a word and the same word with a final period map to the same token |
| CompanyNames.SynonymValuesAreNotKeys | lenu/ml/cnames.py:85-101 | in the table as written and in the corrected one, no replacement is itself a key, so one lookup per token is final |
| CompanyNames.SynonymTablesDiffer | lenu/ml/cnames.py:96 | the two tables give a different token for a word iff the word is "int." |
| CompanyNames.MapSynonyms | lenu/ml/cnames.py:115 | for a given table, each token is replaced by its synonym when it has one, position by position |
| CompanyNames.Tokenize | lenu/ml/cnames.py:104-115 | for a given table (the code's is `SourceSynonyms`), the tokens are sorted without duplicates, are exactly the synonyms of the words of the stripped harmonised name, and contain no key of a table that replaces once |
| CompanyNames.TokenizersAgree | lenu/ml/cnames.py:95-99 | tokenizing with the table as written and with the corrected one gives the same tokens for every name without the word "int." |
| CompanyNames.TokenizeLtdLtd | lenu/ml/cnames.py:98-115 | `Ltd. Ltd.` tokenizes to the single token `limited`: the final period is cut, both spellings map to `limited`, and `unique` keeps one |
| CompanyNames.TokenizeIntCo | lenu/ml/cnames.py:88-115 | with the table as written `Int. Co` tokenizes to `company`, `internatinal` and `Int Co` to `company`, `international`; with the corrected table `Int. Co` gives `company`, `international` |
| CompanyNames.HarmonizeNotIdempotent | lenu/ml/cnames.py:19-82 | harmonising `'a " .b'` gives `'a .b'`, and harmonising that again gives `'a.b'` |
| Text.Split | lenu/ml/cnames.py:109 | `str.split` on one character gives at least one part and no part contains the separator |
| Text.JoinSplit | lenu/ml/cnames.py:109 | joining the parts with the separator gives the text back |
| Text.Strip | lenu/ml/cnames.py:108 | `strip` returns the slice left after removing whitespace at both ends, and that slice neither starts nor ends with whitespace |
| StringOrder.Unique | lenu/ml/cnames.py:115 | `numpy.unique` of strings is strictly ascending with the same members |
| StringOrder.StrictlyAscendingUnique | lenu/ml/cnames.py:115 | a strictly ascending sequence is determined by its members |
| ElfCodes.GetJurisdiction | lenu/data/elf_codes.py:20-27 | the sub-division code when present, otherwise the country code |
| ElfCodes.StateCodes | lenu/data/elf_codes.py:54 | the distinct sub-divisions of the US state rows, each once |
| ElfCodes.ExpandUSStatesCount | lenu/data/elf_codes.py:30-56 | the expansion has the non-US rows, the US state rows and one copy of each federal row per distinct state |
| ElfCodes.ExpandUSStatesMembership | lenu/data/elf_codes.py:30-56 | a row is in the expansion iff it is a non-US or US state row of the input, or a federal row of the input with its sub-division set to one of the states |
| ElfCodes.ExpandUSStatesHasNoFederalRow | lenu/data/elf_codes.py:30-56 | no US row without a sub-division is left |
| ElfCodes.ExpandWithoutStates | lenu/data/elf_codes.py:30-56 | without US state rows the federal rows disappear and nothing else changes |
| ElfCodes.FederalCodeUnderEveryState | lenu/data/elf_codes.py:44-56 | a federal code with abbreviations is listed under every US state that has its own rows |
| ElfCodes.AbbreviationsForJurisdiction | lenu/data/elf_codes.py:68-69 | `[]` for an unknown jurisdiction; sorted without duplicates in a valid index |
| ElfCodes.ElfCodesForAbbreviation | lenu/data/elf_codes.py:71-72 | `[]` for an unknown pair; sorted without duplicates; in a valid index non-empty exactly for the abbreviations listed under the jurisdiction |
| ElfCodes.BuildIndex | lenu/data/elf_codes.py:60-66 | the grouped index is valid, lists exactly the abbreviations of each jurisdiction, and lists a code under a pair exactly when the entry is present |
| ElfCodes.DropIncomplete | lenu/data/elf_codes.py:93-95 | `dropna` keeps exactly the rows with jurisdiction, code and abbreviations |
| ElfCodes.Explode | lenu/data/elf_codes.py:97-101 | each `;`-separated piece of the abbreviations becomes one entry |
| ElfCodes.EntriesOf | lenu/data/elf_codes.py:93-103 | an entry is produced exactly when a complete row explodes to it |
| ElfCodes.FromElfCodeListCodes | lenu/data/elf_codes.py:89-105 | code `c` is listed under (`j`, `a`) iff some expanded row has jurisdiction `j`, code `c` and abbreviation piece `a` |
| ElfCodes.Matches | lenu/data/elf_codes.py:74-87 | an ends-with match needs a name longer than the abbreviation (ASCII case folding, see Left out) |
| ElfCodes.EndsWithMatchIsSuffix | lenu/data/elf_codes.py:74-87 | with `use_endswith` a name matches iff its folded form is some text, a space and the folded abbreviation |
| ElfCodes.ContainsMatchIsInfix | lenu/data/elf_codes.py:74-87 | without `use_endswith` a name matches iff the folded abbreviation occurs in the folded name |
| ElfCodes.EndsWithMatchIsContainsMatch | lenu/data/elf_codes.py:74-87 | every ends-with match is also a substring match |
| ElfCodes.NameEqualToAbbreviationDoesNotMatch | lenu/data/elf_codes.py:82 | with `use_endswith` a name equal to the abbreviation does not match |
| Features.ElfAbbreviationTransformer.Fit | lenu/ml/features.py:20-22 | `fit` returns the transformer itself |
| Features.ElfAbbreviationTransformer.Transform | lenu/ml/features.py:24-44 | one row per name with one cell per abbreviation of the jurisdiction, 1 iff the name matches it; columns labelled `abbr(...)` in the same order; empty rows for an unknown jurisdiction |
| Features.ElfAbbreviationTransformer.GetParams | lenu/ml/features.py:46-52 | the four constructor parameters |
| Features.GermanExample | lenu/ml/test/test_features.py:10-37 | the German example gives `[[1,0,0],[0,0,1]]` with columns `abbr(GmbH)`, `abbr(OHG)`, `abbr(OHG mbH)` |
| Models.MaxIndex | lenu/ml/models.py:36-38 | Python `max` with a key: an element of greatest key, and the first one when several tie |
| Models.Rules.BestElfCodeForAbbr | lenu/ml/models.py:29-41 | `None` iff the name does not match; otherwise the first code of the pair whose frequency is at least that of every code of the pair, or the error `max` raises when the pair has no codes |
| Models.Rules.Candidates | lenu/ml/models.py:54-61 | the non-`None` results over the abbreviations, exactly the codes some abbreviation yields, or the first error |
| Models.PredictNameSucceeds | lenu/ml/models.py:54-62 | with a valid index no prediction fails |
| Models.PredictNameFallsBack | lenu/ml/models.py:59-63 | when no abbreviation matches, the prediction is the most frequent label |
| Models.PredictNameIsBest | lenu/ml/models.py:54-62 | when some abbreviation matches, the prediction is a code of a matching abbreviation and is at least as frequent as every code listed under any matching abbreviation |
| Models.PredictNameTieBreak | lenu/ml/models.py:59-62 | among equally frequent candidates the earliest one wins |
| Models.ValueCounts | lenu/ml/models.py:25 | the counts cover exactly the labels of `y`, each with its number of occurrences |
| Models.MostFrequentLabel | lenu/ml/models.py:26 | `idxmax` of the counts is a label of `y` occurring at least as often as every other |
| Models.ElfAbbreviationClassifier.Fit | lenu/ml/models.py:24-27 | the counts are stored first; an empty `y` then fails and keeps the earlier most frequent label; otherwise the most frequent label is stored |
| Models.ElfAbbreviationClassifier.JurisdictionFromInput | lenu/ml/models.py:21-22 | the jurisdiction of the first row, or an error for an empty frame |
| Models.ElfAbbreviationClassifier.Predict | lenu/ml/models.py:43-66 | not fitted and empty input are errors; otherwise one prediction per name, in order, under the first row's jurisdiction; with a valid index it never fails |
| Pipelines.FilterInfrequentElfCodesKeeps | lenu/ml/pipelines.py:49-61 | the kept rows are exactly those whose code occurs at least twice, in the original order, each code group kept whole |
| Pipelines.RemovedElfCodesOccurOnce | lenu/ml/pipelines.py:54-56 | the reported codes are exactly the codes occurring once, without repetition |
| Pipelines.InfrequentWarningIffSingleton | lenu/ml/pipelines.py:55-59 | a warning is logged iff some code occurs once, and it lists the removed codes |
| Pipelines.FilterInfrequentElfCodesIdempotent | lenu/ml/pipelines.py:49-61 | filtering infrequent codes twice removes nothing more |
| Pipelines.FilterInactiveElfCodesKeeps | lenu/ml/pipelines.py:64-67 | the kept rows are exactly those with an active code, in the original order |
| Pipelines.FilterInactiveElfCodesIdempotent | lenu/ml/pipelines.py:64-67 | filtering inactive codes twice removes nothing more |
| Pipelines.TrainingDataRows | lenu/ml/pipelines.py:119-120 | the training data holds exactly the rows of active codes occurring at least twice, whole groups at a time; every code left occurs at least twice and none is inactive |
| Pipelines.FiltersCommute | lenu/ml/pipelines.py:119-120 | the two filters give the same data in either order |
| Pipelines.SortDescending | lenu/ml/pipelines.py:104 | `sort_values(ascending=False)` gives a permutation by non-increasing score |
| Pipelines.Head | lenu/ml/pipelines.py:105 | `head(n)` is the first `n` entries, or all but the last `-n` for a negative `n` |
| Pipelines.DetectIsTopK | lenu/ml/pipelines.py:95-108 | at most `top` entries (exactly `top` when there are enough), by non-increasing score, drawn from the scores, and no entry left out scores higher than one returned |
| Pipelines.Stem | lenu/ml/pipelines.py:150 | the stem is a prefix of the file name |
| Pipelines.StemOfSuffixed | lenu/ml/pipelines.py:150 | the stem of a `.joblib` file name drops exactly the suffix |
| Pipelines.ModelJurisdictionOfFileName | lenu/ml/pipelines.py:130-150 | the jurisdiction read off a model file is the last `_`-separated part of the jurisdiction it was written for |
| Pipelines.ModelFileNameRoundTrip | lenu/ml/pipelines.py:130-150 | for a jurisdiction without `_`, the name of its model file gives it back |
| Pipelines.ListModelsOfTrained | lenu/ml/pipelines.py:146-154 | listing the files written for some jurisdictions gives those jurisdictions, sorted |
| Lei.GetLegalJurisdiction | lenu/data/lei.py:23-31 | the region for a US entity that has one, otherwise the stated jurisdiction; always one of the two fields |
| Lei.USRecordsMatchElfCodeKeys | lenu/data/lei.py:23-31 | a US record gets the same jurisdiction key as a US code-list row with that sub-division |

## Left out

- Unicode NFKD decomposition is not modelled. `_replace_diacritics` takes the decomposition as a parameter, and the ASCII filter applied after it is modelled exactly.
- `Text.Lower`, `Text.IsAlnum`, `Text.Strip`: modelled on ASCII only. Python's `lower`, `isalnum` and `strip` also act on non-ASCII characters. In `harmonize`, `lower` runs before the decomposition and the ASCII filter, so a non-ASCII capital that decomposes to an ASCII letter (such as `Ä`) keeps its capital base letter in the model. `isalnum` and `strip` run after the ASCII filter, where the two agree.
- `ElfCodes.Matches`: matching uses ASCII case folding only. Python's `lower` in `matches` also folds non-ASCII text, with no ASCII filter, so `Matches("Χ ΑΕ", "αε", true, true)` is false in the model and true in Python. The bound that an ends-with match needs a name longer than the abbreviation holds only for ASCII: Python's `"İ".lower()` is two code points, so `" İ"` matches `"i̇"` at equal length.
- The `@lru_cache` on `matches` is a cache and is left out.
- Logging, `joblib` dump and load, `Path.exists`, `glob` and the `DataRepo` loaders are I/O and are left out. `ListModels` takes the file names the glob yields.
- A jurisdiction containing `/` would make `joinpath` point into a subdirectory. This is not modelled.
- `DefaultPipeline`, `train_for_jurisdiction`, `ComplementNB`, `CountVectorizer`, `train_test_split` and `predict_proba` are statistical code over floating point and are left out. `test_size` is never passed on to `train_test_split`.
- `Detect` ranks a given list of (code, score) pairs.
- `Pipelines.SortDescending`: keeps ties in input order (a stable sort). numpy's default quicksort does not guarantee any order among equal scores. `DetectIsTopK` holds for every tie order.
- `ELFCodeList` (`get_inactive_elf_codes`, `get_abbreviations`) is not part of this model. The inactive codes and the index are parameters.
- `Pipelines.FilterInfrequentElfCodesKeeps`: codes are modelled as always present. Rows whose code is missing, which `groupby` drops, are not modelled.
- `Models.MostFrequentLabel`: breaks ties by first appearance. `value_counts` sorts by count and leaves the order among equal counts to pandas.
- `Models.ElfAbbreviationClassifier.Predict`: a frame without a `Jurisdiction` or `Entity.LegalName` column is not modelled. Frames are records with both fields.
- The checks `check_is_fitted` does beyond the two fitted fields are not modelled.
- The construction of the result `DataFrame` in `transform` is not modelled. With no names, the numpy array has no column dimension to match the abbreviation labels, and pandas may reject the frame. `Transform` returns the labels regardless.
- `harmonize` is not idempotent: `'a " .b'` harmonises to `'a .b'`, which harmonises to `'a.b'`, because the quotation mark becomes a space before the period and the comma and period step removes only one of the two spaces before it. `CompanyNames.HarmonizeNotIdempotent` proves this. The model follows the code and proves no idempotence.
- The feature test at lenu/ml/test/test_features.py departs from the model in two ways, and `Features.GermanExample` follows the model in both:
  - line 24 builds the transformer without a jurisdiction, which the constructor requires. `GermanExample` builds it for jurisdiction `DE`, which the expected output describes;
  - lines 26-33 pass `transform` a two-column frame, and `for name in X` (lenu/ml/features.py:30) iterates a frame's column labels, `Entity.LegalName` and `Jurisdiction`. Neither label matches a German abbreviation, so the test as written would get all-zero rows. `GermanExample` passes the column of legal names, which is what the `ColumnTransformer` at lenu/ml/pipelines.py:23-35 hands to `transform` (column 0 as a one-dimensional selection).
- lenu/ml/eval.py, lenu/data/goldencopyfiles.py, lenu/modelhub.py, lenu/remote.py, lenu/console.py and lenu/util.py are outside this model: evaluation, downloads, remote models and the command line.

## Findings

| source | as written | input that shows it | evidently intended | confidence | as-written member | corrected member |
|---|---|---|---|---|---|---|
| lenu/ml/cnames.py:96 | `"int."` maps to `"internatinal"` | the name `Int. Co` tokenizes to `company`, `internatinal`, while `Int Co` gives `company`, `international` (a final `Int.` loses its period in the trailing-character step, so it is not affected) | `"int."` maps to `"international"`, like `"int"` and `"intl."` | high (not executed) | CompanyNames.TokenizeIntCo | CompanyNames.SynonymVariantsAgree |

# AI-LLIU dashboard ETL, modelled in Dafny

The dashboard's data preparation is the function `load_and_process_data`
(app.py:34-85) followed by the executive KPIs (app.py:98-101). This project
models it in four stages, one module each, joined by a fifth:

- **Assembly** (`assembly.dfy`): the working directory is a map from file
  names to bytes, held by the class `WorkingDirectory`. If
  `full_conversations.json` is absent and some name matches the glob
  `*ConversationTable*.part*`, the method `AssembleFragments` creates it with
  the bytes of the fragments in `sorted` name order. It is proved against the
  function `Assembled`. Lemmas cover the rest: an existing file is never
  touched, nothing is written without fragments, the content is the
  concatenation in ascending order, and a second run is a no-op. The glob is
  a recursive matcher proved equal to the shell reading of `*A*B*`. Python's
  string order and `in` on strings are in `strings.dfy`.
- **Extraction** (`extraction.dfy`): the loop over the JSON objects is the
  method `ExtractInteractions`, proved equal to the function `Extract`. An
  object is kept when `PK` is non-empty and `SK` has no `BOT_ALIAS`. It
  becomes a record with `UserId`, `Fecha` (epoch ms, absent when
  `CreateTime` is missing or 0), `Titulo` (default "Interacción General")
  and `Costo` (default 0). `ExtractIsFilteredProjection` states that the
  records are the kept objects, in input order, field by field.
- **Enrichment** (`enrichment.dfy`): the pandas left join on
  `UserId == sub`, the `fillna` of `region` ("Desconocida") and `jobTitle`
  ("Sin especificar"), and the guard that skips both when either table is
  empty. Every interaction gives one row per matching user row, or one
  unmatched row. With a unique `sub` the master table is the interaction
  table row for row.
- **Metrics** (`metrics.dfy`): distinct users (`nunique`), total rows, and
  35 × distinct users. The join does not change the distinct users.
- **Pipeline** (`pipeline.dfy`): the whole function. The user directory is
  read after assembly and a missing one stops the run. It also holds the
  finding below and a worked three-object scenario.

Where the documented behaviour and the code disagree, the model follows
the code:
- The code has no job-title normalizer. `jobTitle` is only filled with
  "Sin especificar" (app.py:81).
- When the user directory is empty, the code returns the interaction table
  with no `region` or `jobTitle` columns. It does not fill them with
  sentinels (app.py:82-83).
- When no interaction is extracted, the code fails (see Findings). It does
  not return an empty table.
- A missing `jobTitle` column is not replaced by a placeholder: reading
  `df_master['jobTitle']` (app.py:81) raises a KeyError when the join runs
  and the user directory has no such column. The model's user rows always carry the
  column (see Left out).

## Model

| member | source | states |
|---|---|---|
| Strings.Contains | app.py:62 | `pat in s` is false when `pat` is longer than `s`, and true when `s` starts with `pat` |
| Strings.ContainsIff | app.py:62 | `pat in s` holds exactly when `pat` occurs at some index of `s` |
| Strings.LexLess | app.py:36 | Python's string `<`: a proper prefix comes before the longer string |
| Strings.LexLessIff | app.py:36 | `a < b` exactly when `a` is a proper prefix of `b`, or at the first position where they differ `a` has the smaller code point |
| Strings.SortedOf | app.py:36 | the sorted listing of a set of names is strictly ascending and has exactly the set's members |
| Strings.SortedUnique | app.py:36 | two strictly ascending listings with the same members are equal, so the sorted order is unique |
| Strings.LeastExists | app.py:36 | every non-empty finite set of names has a least name in string order |
| Assembly.IsFragmentName | app.py:36 | `glob` selects a name exactly when it matches `*ConversationTable*.part*` and does not start with a dot |
| Assembly.MatchesFromIff | app.py:36 | a name matches `*ConversationTable*.part*` exactly when `ConversationTable` occurs and `.part` occurs at or after its end |
| Assembly.OutputIsNotAFragment | app.py:35-36 | `full_conversations.json` is never selected by the fragment glob |
| Assembly.SortedFragmentNames | app.py:36 | returns the names the glob selects (non-hidden, matching), in ascending order without repeats |
| Assembly.ConcatParts | app.py:40-43 | writing a single part gives exactly that part's bytes |
| Assembly.ConcatPartsFront | app.py:41-43 | the written bytes start with the first part's bytes, followed by those of the remaining parts in order |
| Assembly.ConcatPartsFrame | app.py:41-43 | the written bytes depend only on the bytes of the parts listed |
| Assembly.Assembled | app.py:36-43 | after assembly the consolidated file exists exactly when it existed before or some fragment exists; no other file appears; every existing file keeps its bytes |
| Assembly.AssembledByParts | app.py:36-43 | every sorted fragment is an existing file other than the output; the output is their concatenation when it was absent and the listing is non-empty, else nothing changes |
| Assembly.WorkingDirectory.AppendParts | app.py:41-43 | the loop appends the bytes of the parts, in order, to the consolidated file and changes no other file |
| Assembly.WorkingDirectory.AssembleFragments | app.py:36-43 | the new directory is `Assembled` of the old one: output created from the sorted fragments only when absent and fragments exist |
| Assembly.ExistingOutputUntouched | app.py:39 | an existing consolidated file leaves the whole directory unchanged |
| Assembly.NoFragmentsNoOutput | app.py:39 | with no fragments nothing is written and the consolidated file stays absent |
| Assembly.AssembledContent | app.py:39-43 | when written, the consolidated file is the concatenation of the fragments in ascending name order, and every other file is unchanged |
| Assembly.AssemblyKeepsFragments | app.py:35-43 | the set of fragments is the same after assembly |
| Assembly.AssemblyIdempotent | app.py:39-43 | a second assembly changes nothing |
| Extraction.IsInteraction | app.py:58-62 | an object is kept exactly when it has a non-empty `PK` and `BOT_ALIAS` occurs nowhere in its `SK` (an absent `SK` counts as "") |
| Extraction.Fecha | app.py:63-64 | the timestamp is absent exactly when `CreateTime` is missing or 0, and otherwise equals it |
| Extraction.ToInteraction | app.py:63-71 | a kept object's record has UserId = PK, Titulo = Title or "Interacción General", Costo = TotalPrice or 0, and Fecha absent exactly when CreateTime is missing or 0, else equal to it |
| Extraction.Extract | app.py:57-71 | the interaction table never has more records than the objects read |
| Extraction.KeptIndicesExact | app.py:57-62 | the kept positions are ascending, in range, and exactly the objects with a non-empty PK and no `BOT_ALIAS` in SK |
| Extraction.ExtractAtKept | app.py:57-71 | record k is the projection of the object at the k-th kept position |
| Extraction.ExtractIsFilteredProjection | app.py:57-71 | one record per kept object, in input order, each related field by field to its object; no other object yields a record |
| Extraction.RecordsComeFromInteractions | app.py:58-71 | every record comes from an object with PK equal to its UserId, a non-empty PK and no `BOT_ALIAS` in SK |
| Extraction.ExtractInteractions | app.py:53-71 | the append loop returns exactly the interaction table `Extract` |
| Enrichment.Matching | app.py:78 | the user rows joined to an id are exactly those whose `sub` equals it, each as many times as it occurs in the directory, and no other row |
| Enrichment.MatchingAppend | app.py:78 | the matches keep directory order: those of two consecutive stretches of the directory are the first stretch's followed by the second's |
| Enrichment.MergeOne | app.py:78 | an interaction gives one row per matching user row, and one row when none matches |
| Enrichment.MergeOneRows | app.py:78 | each such row carries a matching user's columns, or NaN when no user matches; every matching user has its row |
| Enrichment.MergeAppend | app.py:78 | the join is row-wise: joining two parts of the interaction table gives the two parts of the result, in order |
| Enrichment.Merge | app.py:78 | the left join has at least as many rows as the interaction table |
| Enrichment.UniqueSubMatchesOnce | app.py:78 | with a unique `sub`, an id matches at most one user row |
| Enrichment.MergeOneUnique | app.py:78 | with a unique `sub`, one interaction gives exactly one row, carrying it |
| Enrichment.MergeUniqueKeepsRows | app.py:78 | with a unique `sub`, the join's interaction column is the interaction table itself |
| Enrichment.MergeRowsFrom | app.py:78 | every joined row belongs to an interaction of the table and is matched or NaN |
| Enrichment.MergeCoversInteractions | app.py:78 | every interaction, and every pairing with a matching user row, appears in the join |
| Enrichment.FillNa | app.py:80-81 | row for row, a present `region` or `jobTitle` is kept and a null one becomes "Desconocida" or "Sin especificar"; the interaction and `sub` are unchanged |
| Enrichment.BuildMaster | app.py:77-83 | no join exactly when either table is empty, and then the interaction table is returned; otherwise no row is lost |
| Enrichment.JoinedRowsFilled | app.py:77-81 | after the join every row has region and jobTitle: a matched user's non-null values unchanged, "Desconocida" and "Sin especificar" otherwise |
| Enrichment.JoinWithUniqueSub | app.py:77-81 | with a unique `sub`, the master table has one row per interaction, in order, enriched as above |
| Enrichment.EmptyTableSkipsJoin | app.py:82-83 | with either table empty the master table is the interaction table, neither joined nor filled |
| Metrics.Distinct | app.py:98 | the distinct ids are exactly the column's values and never outnumber the rows |
| Metrics.ComputeKpis | app.py:98-101 | distinct users = size of the set of UserIds, total = row count, distinct <= total, distinct = 0 exactly when the table is empty, students = 35 × distinct |
| Metrics.JoinKeepsDistinctUsers | app.py:98 | the joined table has the same distinct UserIds as the interaction table |
| Metrics.JoinKeepsUserKpis | app.py:98-101 | distinct users and the students estimate are unchanged by the join |
| Metrics.UniqueSubKeepsKpis | app.py:98-101 | with a unique `sub`, all three KPIs equal those of the interaction table |
| Pipeline.ProcessAsWritten | app.py:73-83 | as written, building the table succeeds exactly when some record was extracted |
| Pipeline.BotOnlyLogFailsAsWritten | app.py:73-74 | a log with only a bot row fails as written, where the intended result has all KPIs 0 |
| Pipeline.NoInteractionsGiveZeroKpis | app.py:77-83 | with no interactions the master table is empty and every KPI is 0 |
| Pipeline.LoadSpec | app.py:45-85 | with the corrected stage when no record is extracted, a run fails exactly when the user directory is missing; otherwise it returns that directory, a table left unjoined exactly when no interaction was extracted or the directory is empty (then the interaction table itself, empty without a consolidated file), and the same table as the code as written whenever an interaction was extracted |
| Pipeline.LoadAndProcessData | app.py:34-85 | the directory ends up assembled, and the result is `LoadSpec` of the assembled directory (the corrected stage when no record is extracted) |
| Pipeline.SecondRunSameResult | app.py:36-56 | a second run sees the same consolidated file and returns the same tables |
| Pipeline.LoadKpis | app.py:98-101 | with a unique `sub`, a run's KPIs are those of the extracted interactions, and the total is at most the objects read (with the corrected stage when no record is extracted) |
| Pipeline.ScenarioExtraction | app.py:57-71 | in the worked scenario the bot row is dropped and the two other objects become records with their values or defaults |
| Pipeline.ScenarioJoin | app.py:77-81 | in the worked scenario the known user gets directory values and the unknown one both sentinels |
| Pipeline.EndToEndScenario | app.py:98-101 | the worked scenario yields 2 distinct users, 2 interactions and 70 students |

## Findings

`Pipeline.BotOnlyLogFailsAsWritten` exhibits the failure of the code as
written. `Pipeline.NoInteractionsGiveZeroKpis` proves the intended result
about `Enrichment.BuildMaster`, which the rest of the model uses.

| source | as written | input that shows it | evidently intended | confidence | as-written member | corrected member |
|---|---|---|---|---|---|---|
| app.py:73-74 | `df_conv` is built from an empty record list, so it has no columns, and reading `df_conv['Fecha']` raises a missing-column error | a consolidated file whose only object has `SK` = "BOT_ALIAS", or no consolidated file at all | an empty interaction table with every KPI 0, as the `df_conv.empty` test on line 77 expects | not executed; high | Pipeline.ProcessAsWritten | Enrichment.BuildMaster |

## Left out

- Pipeline.LoadSpec: it describes the corrected stage, so a run that extracts no record (no consolidated file, an empty array, or only bot rows) succeeds with the empty unjoined table, where the code as written raises a KeyError at app.py:74 (see Findings). Its last ensures states that it agrees with `Pipeline.ProcessAsWritten` whenever a record is extracted.
- Pipeline.LoadAndProcessData: when no record is extracted it returns the corrected, empty unjoined table, where the code as written raises a KeyError at app.py:74 (see Findings). `Pipeline.ProcessAsWritten` models that failure, and `Pipeline.LoadSpec` states that both agree whenever a record is extracted.
- Pipeline.LoadKpis: it is stated over the corrected stage, so for a run that extracts no record it gives KPIs of 0 where the code as written stops at app.py:74.
- Page configuration, CSS, layout and metric widgets (app.py:9-29, 92-110). These are presentation only.
- Charts, `value_counts` per region and per role, and the daily `resample` (app.py:113-143). These are rendering and pandas date handling.
- `@st.cache_data` (app.py:33). It is a framework memoization and does not change the result.
- Reading files, `json.load` and `pd.read_csv` (app.py:42, 47, 55-56). The JSON parser is the parameter `parse`, and the parsed user rows are a parameter. A missing CSV is `None`, which gives `Failure(MissingUserDirectory)` and models `st.error` plus `st.stop`. Malformed JSON or CSV is not modelled.
- JSON values other than the expected types. An object field is either absent or a string or integer. A `null` value is not modelled: the source would skip a null `PK`, fail on a null `SK`, and keep a null `Title` as a missing title.
- `CreateTime` given as a string or float. `int(...)` parsing is not modelled; the timestamp is an integer.
- `float(TotalPrice)` and the cost sum (app.py:70, 102). `Costo` is an integer and sums are not modelled, because both are floating point.
- `pd.to_datetime` (app.py:64, 74). `Fecha` stays in epoch milliseconds; calendar conversion and out-of-range timestamps are not modelled.
- CSV columns other than `sub`, `region` and `jobTitle`, and pandas' NaN parsing rules. A CSV without a `region` or `jobTitle` column, where app.py:80-81 raises a KeyError, is not modelled: every user row has both columns. Column-name clashes in the merge (suffixes) are not modelled either.
- Case-insensitive matching. `IsFragmentName` matches the glob case-sensitively, as `glob` does on POSIX systems; on Windows `fnmatch` ignores case.
- Directory entries that are not regular files. `glob` would also list a directory whose name matches.
- Line 106 shows the same value as distinct users under another label. It is presentation.

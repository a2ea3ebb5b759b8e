# Carbon-emission government dashboard — list rules of three screens

This project models, in Dafny, the logic of three screens of the government
dashboard of a carbon-emission tracking web application. Everything else in
the screens is rendering.

- **Emission limits** (`SetEmission.tsx`). Companies have an emission figure
  (`current`) and a `limit`. The three-way compliance classifier gives
  Exceeded, Approaching (ratio at least 0.85) or Compliant. The screen
  computes a view filtered by status, sector and name, a list of the distinct
  sectors, and the CSV text of the export. Two in-memory updates change the
  list: editing one company, and setting a new limit for every company of a
  sector.
- **Registration verification** (`VerifyCompany.tsx`). A case-insensitive
  search runs over pending registrations. A confirmation dialog approves or
  rejects one registration; either way, every entry with that email is
  dropped from the list.
- **Query management** (`Queries_Gov.tsx`). A search-and-status filter runs
  over support queries. Pure mappings turn a status or priority into a badge
  class and an icon.

The React state of the emission-limit screen and of the registration
screen each becomes an explicit immutable record (`Emission.Screen`,
`Registrations.Screen`), and each event handler becomes a function from
record to record. `Step`/`Run` replay a sequence of handler calls. That is
how the "whatever the user does" invariants are stated. The query screen
keeps no state the model needs: its search term and status filter are
parameters of the view, and its selected query only drives rendering.

Modules:

| file | module | contents |
|---|---|---|
| `wrappers.dfy` | `Wrappers` | `Option`, for JavaScript's `null`-or-value slots |
| `seqs.dfy` | `Seqs` | order-preserving subsequences, `Filter` (JavaScript `filter`) with a complete specification, first-occurrence de-duplication (`Array.from(new Set(xs))`) |
| `text.dfy` | `Text` | ASCII `toLowerCase`, `includes`, `split`/`join` on one character |
| `csv.dfy` | `Csv` | integer `toString`, the quoted-cell line and document format of the export, and a reader for it |
| `emission.dfy` | `Emission` | the emission-limit screen |
| `registrations.dfy` | `Registrations` | the registration-verification screen |
| `queries.dfy` | `Queries` | the query-management screen |

Notes on the model:

- The classifier divides only when `current <= limit`, so the precondition
  of `StatusOf` is `current > limit || limit != 0`. It does not ask for
  `limit > 0`. `applyNewLimits` refuses only an empty value or 0, so a
  negative limit can be entered. The model therefore carries "no limit is
  zero" as its invariant, and the ratio test flips its inequality for a
  negative limit. With `current <= limit < 0`, the ratio is at least 1, so
  the company is Approaching.
- The export reads back to the same rows only when no name or sector
  contains a double quote or a line break, because nothing is escaped.
  `Emission.ExportRoundTrip` states both directions. The line structure needs
  less: only line breaks break it (`Emission.ExportLines`).
- As the screen is written, only the name search has a control. Nothing
  calls `setStatusFilter` or `setSectorFilter`
  (government/frontend/src/utils/SetEmission.tsx:28-29), so in the running
  screen both the status test and the sector test always see "all". The
  Filter button (line 119) only toggles `showFilter`, which nothing reads.
  The `sectors` list (lines 37-40) is never read either: the sector `<select>`
  of the new-limit dialog (line 189) builds its own list, without "all". The
  model deliberately treats the status filter, the sector filter and the
  sector list as free parameters, so its properties hold for every value the
  state could take.
- The edit row renders an input for the name only
  (government/frontend/src/utils/SetEmission.tsx:153-160). The emissions
  draft is therefore only ever set by `startEdit` (to the company's own value)
  or by `cancelEdit`. Through the screen's handlers, a company's emissions
  never change; only names and limits do (`Emission.EmissionsNeverEdited`).

## Model

The functions that write the export text (`Csv.Quote`, `Csv.Line`,
`Csv.Document` and `Emission.ExportCsv`) only compute, so they carry no
contract of their own. What they produce is stated by the lemmas about
them: `Csv.QuoteReadsBack`, `Csv.LineKeepsCellChars`,
`Csv.ParseLineRoundTrip`, `Csv.LineCount`, `Csv.DocumentRoundTrip`,
`Emission.ExportLines` and `Emission.ExportRoundTrip`.

| member | source | states |
|---|---|---|
| `Text.IncludesIffOccurs` | government/frontend/src/utils/SetEmission.tsx:57 | `includes` holds exactly when some position of the haystack starts a copy of the needle. The empty needle is always found. |
| `Text.Includes` | government/frontend/src/utils/SetEmission.tsx:57 | An occurrence needs a haystack at least as long as the needle. The empty needle is found in every string. |
| `Text.Lower` | government/frontend/src/utils/VerifyCompany.tsx:41-43 | `toLowerCase` keeps the length and maps each character on its own: an upper-case ASCII letter goes to its lower-case partner, and every other character stays. |
| `Text.IncludesLower` | government/frontend/src/utils/VerifyCompany.tsx:41-43 | A case-sensitive occurrence is also an occurrence after lower-casing both strings. |
| `Text.Split` | government/frontend/src/utils/SetEmission.tsx:64 | Splitting on a separator gives at least one separator-free piece. Joining the pieces with that separator gives back the text. |
| `Text.SplitJoin` | government/frontend/src/utils/SetEmission.tsx:64 | Splitting a `join` gives back the parts when no part contains the separator. |
| `Text.Join` | government/frontend/src/utils/SetEmission.tsx:64 | A `join` of at least one part begins with the first part. |
| `Seqs.Filter` | government/frontend/src/utils/VerifyCompany.tsx:39-44 | `filter` returns an order-preserving subsequence. It holds exactly the elements passing the test. Each kept element occurs as often as in the input. |
| `Seqs.FilterUnique` | government/frontend/src/utils/VerifyCompany.tsx:39-44 | Any subsequence with those three properties is the filter's result, so the contract of `Filter` determines it. |
| `Seqs.DistinctInOrder` | government/frontend/src/utils/SetEmission.tsx:38-39 | `Array.from(new Set(xs))` holds the same elements as `xs`, has no duplicates, and is ordered by first appearance in `xs`. |
| `Csv.IntToString` | government/frontend/src/utils/SetEmission.tsx:63 | `toString` of an integer is non-empty. It starts with `-` exactly for negatives, and the rest is all digits. There is never a leading zero, except for 0 itself. |
| `Csv.IntRoundTrip` | government/frontend/src/utils/SetEmission.tsx:63 | Reading back a number's decimal text gives the number. |
| `Csv.IntTextSafe` | government/frontend/src/utils/SetEmission.tsx:63-64 | The decimal text of a number contains neither a quote nor a line break, so the number cells of the export never disturb it. |
| `Csv.QuoteReadsBack` | government/frontend/src/utils/SetEmission.tsx:64 | A cell wrapped as `"${cell}"` starts with a quote. When the cell has no quote of its own, reading up to the closing quote gives back exactly the cell, with nothing left over. |
| `Csv.LineKeepsCellChars` | government/frontend/src/utils/SetEmission.tsx:64 | Any character other than a quote or a comma occurs in a written line exactly when it occurs in one of the line's cells. |
| `Csv.ParseLine` | government/frontend/src/utils/SetEmission.tsx:64 | A line the reader accepts is exactly the quoted, comma-joined line of the cells it returns. No returned cell contains a quote. |
| `Csv.ParseLineRoundTrip` | government/frontend/src/utils/SetEmission.tsx:64 | Reading a written line gives back its cells when none contains a quote. Commas inside cells are fine. |
| `Csv.LineCount` | government/frontend/src/utils/SetEmission.tsx:64 | When no cell contains a line break, the text splits into exactly the lines of the rows, one per row. Quotes in cells do not matter. |
| `Csv.DocumentRoundTrip` | government/frontend/src/utils/SetEmission.tsx:64 | Reading the written text gives back the rows if and only if no cell contains a quote or a line break. |
| `Emission.ThresholdIsRatio` | government/frontend/src/utils/SetEmission.tsx:44-45 | The integer cross-multiplication test agrees with `current / limit >= 0.85` in exact arithmetic, for either sign of the limit. |
| `Emission.StatusOf` | government/frontend/src/utils/SetEmission.tsx:42-47 | The result is Exceeded exactly when `current > limit`. Otherwise it is Approaching exactly when `current/limit >= 0.85`, and Compliant when the ratio is below 0.85. |
| `Emission.ExactThresholdApproaches` | government/frontend/src/utils/SetEmission.tsx:45 | A ratio of exactly 0.85 classifies as Approaching, not Compliant. |
| `Emission.SampleStatuses` | government/frontend/src/utils/SetEmission.tsx:14-21 | The eight sample companies classify as their ratios say. For example, 850/800 is Exceeded and 780/800 is Approaching. |
| `Emission.SampleWellFormed` | government/frontend/src/utils/SetEmission.tsx:14-21 | The sample ids are distinct and no sample limit is zero. |
| `Emission.StatusTestMeaning` | government/frontend/src/utils/SetEmission.tsx:50-55 | Comparing the lower-cased label with the `statusFilter` value keeps exactly the companies of the chosen status. |
| `Emission.NameTestIsIncludes` | government/frontend/src/utils/SetEmission.tsx:57 | The `search &&` guard is redundant: an empty search passes every name anyway. |
| `Emission.Filtered` | government/frontend/src/utils/SetEmission.tsx:49-59 | The view is an order-preserving subsequence of the list. A company is in it exactly when the status, sector and name tests all pass. Each kept company occurs as often as in the list. |
| `Emission.FilteredDefault` | government/frontend/src/utils/SetEmission.tsx:49-59 | With status "all", sector "all" and an empty search, the view is the whole list. |
| `Emission.StatusNarrows` | government/frontend/src/utils/SetEmission.tsx:50-55 | A status choice gives a subsequence of the all-statuses view with the same sector and search. |
| `Emission.FiltersCompose` | government/frontend/src/utils/SetEmission.tsx:49-59 | The status test and the sector/name tests commute. Applying either first, then the other, gives the combined view. |
| `Emission.SearchIgnoresCase` | government/frontend/src/utils/SetEmission.tsx:57 | Searches that differ only in letter case give the same view. |
| `Emission.Sectors` | government/frontend/src/utils/SetEmission.tsx:37-40 | The list is "all" followed by every company's sector. Each sector appears once, in order of first appearance, and nothing else appears. |
| `Emission.Row` | government/frontend/src/utils/SetEmission.tsx:63 | A row has one cell per header column: name, sector, the emissions and the limit as their canonical decimal text (the `IntToString` form: optional `-`, digits, no leading zero), which reads back to the company's numbers, and the status label. |
| `Emission.ExportRows` | government/frontend/src/utils/SetEmission.tsx:62-64 | The rows are the header followed by one row per company of the whole list (not the filtered view), in list order. |
| `Emission.ExportLines` | government/frontend/src/utils/SetEmission.tsx:61-64 | The text has `|companies| + 1` lines: the header line, then one line per company of the whole list (not the filtered view), in order. This holds when no name or sector contains a line break. |
| `Emission.ExportRoundTrip` | government/frontend/src/utils/SetEmission.tsx:62-64 | Reading the export back gives the header and rows if and only if no name or sector contains a quote or a line break. Both numbers of every row read back to the company's values. |
| `Emission.StartEdit` | government/frontend/src/utils/SetEmission.tsx:74-78 | `startEdit` records the company's id and copies its name and emissions into the drafts. Nothing else changes. |
| `Emission.CancelEdit` | government/frontend/src/utils/SetEmission.tsx:79-83 | `cancelEdit` clears the edited id and both drafts. Nothing else changes. |
| `Emission.EditCompanies` | government/frontend/src/utils/SetEmission.tsx:86 | The length is preserved. Ids, sectors and limits are unchanged. Companies with the edited id take the draft name and emissions, and every other company is unchanged. |
| `Emission.SaveEdit` | government/frontend/src/utils/SetEmission.tsx:84-88 | With no edited id, nothing happens. Otherwise the drafts are written into the companies with that id (`Number("")` is 0), and the edit state is cleared afterwards. |
| `Emission.SetSectorLimit` | government/frontend/src/utils/SetEmission.tsx:94 | The length is preserved. Exactly the companies of the chosen sector take the new limit. All other fields and all other companies are unchanged. |
| `Emission.ApplyNewLimits` | government/frontend/src/utils/SetEmission.tsx:92-96 | An empty or zero value changes nothing, and the dialog stays open. Otherwise the sector's limits are set and the dialog closes. |
| `Emission.StartThenSaveKeepsList` | government/frontend/src/utils/SetEmission.tsx:74-88 | Starting an edit and saving it with the drafts untouched leaves the list as it was, when ids are unique. |
| `Emission.SaveEditIdempotent` | government/frontend/src/utils/SetEmission.tsx:84-88 | A second save changes nothing, because the first one cleared the edited id. |
| `Emission.ApplyNewLimitsIdempotent` | government/frontend/src/utils/SetEmission.tsx:92-96 | Applying the same sector limit twice is the same as applying it once. |
| `Emission.Step` | government/frontend/src/utils/SetEmission.tsx:74-96 | No handler adds, removes or reorders companies, or changes an id or a sector. Every limit afterwards is either the old one or the nonzero value typed into the new-limit dialog. |
| `Emission.NoZeroLimitsClassifiable` | government/frontend/src/utils/SetEmission.tsx:42-44 | A list without zero limits can be classified throughout. |
| `Emission.LimitsStayNonzero` | government/frontend/src/utils/SetEmission.tsx:84-96 | No sequence of the screen's handlers introduces a zero limit. |
| `Emission.EmissionsNeverEdited` | government/frontend/src/utils/SetEmission.tsx:153-160 | For any legal sequence of handler calls, every company keeps its id, sector and emissions, because the emissions draft only ever holds the edited company's own value. |
| `Emission.SessionFromSampleData` | government/frontend/src/utils/SetEmission.tsx:13-96 | From the sample data, after any legal session, all limits are nonzero, every company can be classified, and ids, sectors and emissions are unchanged. |
| `Registrations.FilteredCompanies` | government/frontend/src/utils/VerifyCompany.tsx:39-44 | The view is an order-preserving subsequence. A registration is kept exactly when the lower-cased term occurs in its lower-cased name, email or organization. Each kept registration occurs as often as in the list. |
| `Registrations.EmptySearchKeepsAll` | government/frontend/src/utils/VerifyCompany.tsx:39-44 | An empty term keeps every registration, in order. |
| `Registrations.SearchIgnoresCase` | government/frontend/src/utils/VerifyCompany.tsx:39-44 | Terms differing only in letter case give the same view. |
| `Registrations.VerbatimMatchFound` | government/frontend/src/utils/VerifyCompany.tsx:39-44 | A term occurring verbatim in a name, email or organization is found by the search. |
| `Registrations.HandleAction` | government/frontend/src/utils/VerifyCompany.tsx:55-58 | `handleAction` sets the selection and the action type and leaves the list unchanged. |
| `Registrations.Cancel` | government/frontend/src/utils/VerifyCompany.tsx:200-203 | Cancel clears the selection and the action type and leaves the list unchanged. |
| `Registrations.WithoutEmail` | government/frontend/src/utils/VerifyCompany.tsx:63 | The result is an order-preserving subsequence holding exactly the entries whose email differs, each as often as before. |
| `Registrations.ConfirmAction` | government/frontend/src/utils/VerifyCompany.tsx:60-67 | With both a selection and an action, entries with the selected email are removed, both are cleared, and the alert text is reported. With either missing, nothing changes and nothing is reported. |
| `Registrations.AlertText` | government/frontend/src/utils/VerifyCompany.tsx:62 | The alert names the registration and its organization, ends with a full stop, and its verb begins with `a` exactly for an approval. |
| `Registrations.Step` | government/frontend/src/utils/VerifyCompany.tsx:55-67 | One click only ever removes entries, keeping the rest in order. It keeps the dialog either fully open or fully closed. |
| `Registrations.ConfirmRemovesExactlyEmail` | government/frontend/src/utils/VerifyCompany.tsx:63 | After confirming, no entry has the selected email. All others are kept in order, with their multiplicities. |
| `Registrations.ConfirmShrinks` | government/frontend/src/utils/VerifyCompany.tsx:63 | Confirming a registration that is on the list makes the list strictly shorter. |
| `Registrations.ApproveRejectSameEffect` | government/frontend/src/utils/VerifyCompany.tsx:62-65 | Approve and reject leave the same list and dialog state. Only the alert text differs. |
| `Registrations.RunOnlyRemoves` | government/frontend/src/utils/VerifyCompany.tsx:55-67 | Over any clicks, selection and action stay set or cleared together, and the list stays an order-preserving subsequence of the starting list. |
| `Queries.FilteredQueries` | government/frontend/src/utils/Queries_Gov.tsx:80-86 | The view is an order-preserving subsequence. A query is kept exactly when the term occurs case-insensitively in its company or category, and the status filter is "All" or equals its status. Each kept query occurs as often as in the list. |
| `Queries.DefaultShowsAll` | government/frontend/src/utils/Queries_Gov.tsx:80-86 | "All" with an empty search shows every query, in order. |
| `Queries.StatusNarrows` | government/frontend/src/utils/Queries_Gov.tsx:80-86 | The view for a specific status is a subsequence of the "All" view with the same search. |
| `Queries.StatusAfterSearch` | government/frontend/src/utils/Queries_Gov.tsx:80-86 | The view is the "All" view filtered once more by status. |
| `Queries.SearchIgnoresCase` | government/frontend/src/utils/Queries_Gov.tsx:81-83 | Terms differing only in letter case give the same view. |
| `Queries.StatusIsCaseSensitive` | government/frontend/src/utils/Queries_Gov.tsx:84 | The status comparison is exact: the value "open" selects none of the queries with status Open, In Progress or Resolved. |
| `Queries.StatusColor` | government/frontend/src/utils/Queries_Gov.tsx:101-112 | The result is the gray default exactly when the status is not Open, In Progress or Resolved. |
| `Queries.PriorityColor` | government/frontend/src/utils/Queries_Gov.tsx:114-125 | The result is the gray default exactly when the priority is not High, Medium or Low. |
| `Queries.StatusIcon` | government/frontend/src/utils/Queries_Gov.tsx:88-99 | There is an icon exactly for Open, In Progress and Resolved, and `null` for anything else. |
| `Queries.StatusStylesDistinguish` | government/frontend/src/utils/Queries_Gov.tsx:88-112 | The three known statuses have pairwise different classes and icons. |
| `Queries.IconIffColored` | government/frontend/src/utils/Queries_Gov.tsx:88-112 | A status gets an icon exactly when its class is not the gray default. |
| `Queries.PriorityStylesDistinguish` | government/frontend/src/utils/Queries_Gov.tsx:114-125 | The three known priorities have pairwise different classes. |

## Left out

- Rendering: JSX, Tailwind classes other than the three style mappings,
  sidebars and navigation, framer-motion, `StatusPill`, `SidebarItem`, the
  `showFilter` toggle, and the query detail panel's `selectedQuery`.
- `SectorRow` and `RangeBar` (government/frontend/src/utils/SetEmission.tsx:229-262)
  are left out because they only do floating-point rounding for bar widths.
  Since `pct` is capped at 100 by `Math.min`, the `pct > 100` branch at
  line 256 is dead.
- The file download in `exportCSV` (Blob, object URL, anchor click) is I/O.
  Only the CSV text is modelled.
- The spreadsheet export at government/frontend/src/utils/VerifyCompany.tsx:46-53
  is a call into the `xlsx` and `file-saver` libraries.
- `alert()` is I/O. The model returns the alert text from `ConfirmAction`
  instead of showing it.
- The hardcoded statistics at government/frontend/src/utils/Queries_Gov.tsx:73-78
  are not derived from the query list, so they satisfy no property.
- government/frontend/src/dashboard/GoveDash.tsx (random chart data, charts,
  map, counters) and government/frontend/src/App.tsx (routes) are not part of
  this model.
- Numbers are unbounded integers. The model leaves out IEEE-754 division
  (rounding, NaN and infinities for a zero limit), fractional values,
  `Number()` of non-numeric text, and the exponent form that `toString` uses
  from 1e21 up.
- Emission.StatusOf: requires `current > limit || limit != 0`. It does not
  reproduce what the source does with a zero limit (NaN or -Infinity, which
  gives Compliant).
- `toLowerCase` is modelled for ASCII letters only. Unicode case mapping is
  out of scope.
- The search, status, sector and search-term inputs are parameters of the
  view functions, not fields of the screen records.
- Emission.EmissionsNeverEdited: assumes unique ids, as in the sample data.
  With duplicate ids, `saveEdit` copies one company's emissions onto the
  others that share its id. It also assumes an Edit click is on a company
  that is on the list, as the table only shows such rows.
- Emission.ExportLines: states the first line as the quoted, comma-joined
  header cells, not as the spelled-out literal text.
- The sample lists of the registration and query screens are not modelled.
  Their properties hold for every list.

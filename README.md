# Seismic event dashboard: country column and event-type frequency table

The dashboard reads a cleaned table of seismic events. Each row has an event
type, a magnitude, a depth, a review status, a position and a combined
location string `state_country`. It derives a `country` column once, when
the table is loaded, and builds a type/count table each time it draws the
event-type bar chart. This project models both computations.

* **The `country` column.** Each row gets a `country` cell computed from its
  own `state_country` string. If the string contains a comma, the country is
  the text after the last comma, with whitespace stripped from both ends.
  Otherwise it is the whole string, stripped. The model writes out the two
  Python string operations it uses:
  * `str.split` with a one-character separator, in `PyStr.Split`, with
    `PyStr.Join` as its inverse.
  * `str.strip()` with no argument, in `PyStr.Strip`, using Python's own
    whitespace set.
* **The event-type frequency table.** The first chart is a bar chart of how
  many events there are of each type. Its table is `value_counts` on the
  `type` column, turned into two columns `type` and `count`. The model builds
  the table in two steps:
  * a tally of the distinct types in order of first appearance
    (`TypeCounts.Tally`);
  * a stable sort by count, largest first (`TypeCounts.SortByCount`).

One might expect every country to be non-empty and an empty table to be
rejected. The code does neither, and the model follows the code:

* **The country can be empty.** This happens for `"Japan,"` or for an
  all-whitespace location, and nothing rejects it.
* **The frequency table can be empty.** On an empty table it is simply empty.

The model is in three modules:

* `PyStr` (`py_str.dfy`): the string operations.
* `Prepare` (`prepare.dfy`): the row type and the country column.
* `TypeCounts` (`type_counts.dfy`): the frequency table.

## Model

| member | source | states |
|---|---|---|
| PyStr.Strip | app.py:37 | `strip()` gives an infix of its input with only whitespace before and after it. The result is trimmed at both ends, and it is empty exactly when the input is all whitespace. |
| PyStr.StripFixedPoint | app.py:37 | `strip()` leaves a string unchanged if and only if the string is already trimmed. |
| PyStr.StripIdempotent | app.py:37 | Stripping twice is the same as stripping once. |
| PyStr.StripSurrounded | app.py:37 | Whitespace on either side of a non-empty trimmed string is exactly what `strip()` removes. |
| PyStr.Split | app.py:37 | `split(sep)` always gives at least one piece, and no piece contains the separator. |
| PyStr.SplitWithoutSeparator | app.py:37 | A string without the separator splits into a one-piece list holding itself. |
| PyStr.SplitAtSeparator | app.py:37 | Splitting `a + sep + b` gives the pieces of `a` followed by the pieces of `b`. |
| PyStr.JoinSplit | app.py:37 | Joining the pieces of a split with the separator gives back the original string. |
| PyStr.SplitJoin | app.py:37 | Splitting the join of separator-free pieces gives back those pieces. |
| PyStr.SplitLastPiece | app.py:37 | The last piece (`[-1]`) is the text after the last separator. |
| Prepare.Country | app.py:37 | The derived country never contains a comma and never starts or ends with whitespace. |
| Prepare.CountryAfterLastComma | app.py:37 | With a comma, the country is the text after the last comma, stripped. |
| Prepare.CountryWithoutComma | app.py:37 | Without a comma, the country is the whole location, stripped. |
| Prepare.CountryIsLastPieceStripped | app.py:37 | In both branches, the country is the last comma-separated piece, stripped. |
| Prepare.CountryIdempotent | app.py:37 | Applying the rule to a derived country returns that country unchanged. |
| Prepare.CountryEmptyIff | app.py:37 | The country is empty if and only if everything after the last comma is whitespace. When there is no comma, that means the whole string. |
| Prepare.CountryOfStateAndCountry | app.py:37 | `state,country` gives back `country` when `country` is comma-free and trimmed. The state may contain anything, commas included. |
| Prepare.CountryOfHokkaido | app.py:37 | `"Hokkaido,Japan"` gives `"Japan"`. |
| Prepare.CountryAfterCommaSpace | app.py:37 | A space after the comma is removed: `state, country` gives `country`. With nothing after the space, the result is the empty country. |
| Prepare.CountryWithoutState | app.py:37 | `" Chile "` (no comma) gives `"Chile"`. |
| Prepare.CountryOfTrailingComma | app.py:37 | A location ending in a comma gives the empty country, and no error. |
| Prepare.CountryOfBlank | app.py:37 | An all-whitespace location gives the empty country. |
| Prepare.AddCountryColumn | app.py:37 | Adding the column keeps the row count and row order. Each row keeps its cells and gains the country of its own location. |
| Prepare.DropAfterAdd | app.py:37 | Removing the added column gives back the original table exactly. |
| Prepare.AddCountryColumnConcat | app.py:37 | The column is computed row by row: adding it to `a + b` is the same as adding it to `a` and to `b` separately. |
| TypeCounts.Occurrences | app.py:77 | A count is at most the number of rows, and it is zero exactly when the type does not occur. |
| TypeCounts.OccurrencesIsMultiplicity | app.py:77 | The count of a type is its multiplicity in the column's multiset. |
| TypeCounts.Tally | app.py:77 | The tally has one row per distinct type. Each row's count is the number of occurrences of that type, and the counts add up to the number of rows. |
| TypeCounts.InsertByCount | app.py:77 | Inserting into a list ordered by count, largest first, keeps it ordered. The result is one longer and holds the new row and the old rows, and nothing else. |
| TypeCounts.InsertByCountPermutes | app.py:77 | As a multiset, the result of an insertion is the old list plus the one new row. |
| TypeCounts.SortByCount | app.py:77 | Sorting by count gives a list ordered largest first, with the same length and the same set of rows. |
| TypeCounts.SortByCountPermutes | app.py:77 | Sorting is a permutation: the result has the same multiset of rows as the input. |
| TypeCounts.SortByCountSum | app.py:77 | Sorting does not change the sum of the counts. |
| TypeCounts.SortByCountDistinct | app.py:77 | Sorting keeps the types distinct. |
| TypeCounts.ValueCounts | app.py:77-78 | The `type`/`count` table has distinct types. Each row's count is the number of occurrences of its type and is at least 1. Every type in the column has its row. Counts are in non-increasing order and sum to the number of rows. There is one row per distinct type, and the table is empty exactly when the column is. |
| TypeCounts.ValueCountsOrderIndependent | app.py:77-78 | Shuffling the column does not change which rows the table holds or how many there are. Only the order of tied rows may differ. |
| TypeCounts.ValueCountsTwoLabels | app.py:77-78 | For a column `[a, a, b]` the table is exactly `[(a, 2), (b, 1)]`. |
| TypeCounts.EventTypeCounts | app.py:77-78 | The bar chart's table for the prepared data has distinct types and counts in non-increasing order. Each bar's count is the number of occurrences of its type in the `type` column and is at least 1. Every row's type has a bar, and the bars add up to the number of rows. There are no bars exactly when the table is empty. |

## Left out

* Reading the CSV file (app.py:34). The model's input is the table itself.
* Missing cells:
  * A missing `state_country` value would make the country rule raise an error in the source.
  * `value_counts` drops missing types by default.
  * The model types every text column as a string, so neither case arises.
* Columns of the CSV that the dashboard does not use are not modelled. Numeric columns (magnitude, depth, latitude, longitude) are carried through as `real` and never inspected.
* The charts are not modelled: the Plotly bar chart styling, box plot, histogram, pie chart and map. They draw the data and compute nothing the model could state.
* The Shiny page layout, the caption texts, the server function and the app object are not modelled. They are user interface with no logic over the data.
* TypeCounts.ValueCounts: its contract gives only non-increasing order by count. It does not fix the order of types with equal counts, because pandas does not promise one. The model's tally breaks ties by first appearance.
* Whitespace follows Python's `str.isspace()` character set. Unicode normalisation and surrogate handling are not modelled.

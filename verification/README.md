# S-tog station reconciliation, in Dafny

This project models the station reconciliation script of the S-tog cycling
tool (`scripts/stations.py`). The script reads the rows of the S-train station
table and checks each row against the DSB station registry. It produces two
snapshots: stations keyed by name, and for every line the stations on it.

The model keeps the script's logic and drops its I/O:

- `Text` (`text.dfy`) gives the Python string operations the script relies on
  their Python meaning: `str.strip()` (with Python's whitespace set), `in` on
  strings, `str.index` of a character, and `str.replace(pattern, "")`.
- `Stations` (`stations.dfy`) holds the registry entry, the scraped row, the
  station and its dictionary form (`Station.dict`). It also holds the per-row
  step `FromRow` (`Station.from_row` together with the driver's
  `except KeyError`). That step returns `Skip`, `Fatal(name)` or `Ok(station)`.
- `Reconcile` (`reconcile.dfy`) holds the driver loop. `Fold` runs the loop
  for any row step. `Run` drops the header row and uses `FromRow` against the
  registry. Next to the loop sit reference descriptions of its result:
  `Kept` (the stations of the rows that were not skipped, in order), `Names`,
  `Labels`, `Gathered` (the list a line should hold) and `LastWins`. The lemmas
  prove that the loop produces exactly that.
- `Wrappers` (`wrappers.dfy`) holds `Option` and `Result`.

A scraped row is the text of its first cell plus, for each link in its third
cell, the link's `title` attribute. That attribute is `None` when the link has
no title. The source reads titles with `link["title"]`, which raises `KeyError`
when the attribute is missing. The driver catches every `KeyError`, so such a
row is skipped exactly like the excluded station. The model keeps that
behaviour.

Three behaviours of the code are easy to misread:

- A station's lines are a list in link order, so a repeated label is appended
  twice. A row without line links still yields a station: it goes into the
  station index and adds no line list (`Reconcile.StationWithoutLines`).
- The exclusion is a substring test: any cleaned name containing "Høvelte"
  anywhere is skipped.
- The footnote cut is not followed by another strip, so "A [1]" becomes "A "
  with its trailing space (`Stations.FootnoteKeepsSpace`). The registry lookup
  then searches for that string, space included.

## Model

| member | source | states |
|---|---|---|
| Text.Strip | scripts/stations.py:57 | the stripped name is a slice of the cell text, only whitespace (Python's set) is cut at either end, and it neither starts nor ends with whitespace |
| Text.StripIdempotent | scripts/stations.py:57 | stripping an already stripped name changes nothing |
| Text.IndexOf | scripts/stations.py:58-59 | `None` exactly when the marker is absent; otherwise the position of its first occurrence |
| Stations.CleanName | scripts/stations.py:57-59 | the cleaned name is a prefix of the stripped text, holds no `[`, stops right before the first `[`, and is the whole stripped text when there is no `[` |
| Stations.FootnoteKeepsSpace | scripts/stations.py:57-59 | "A [1]" cleans to "A ": the space in front of the marker is kept |
| Text.ContainsIffOccurs | scripts/stations.py:60 | the substring test used for the exclusion and the registry lookup holds exactly when the pattern occurs at some position |
| Text.EmptyOccursEverywhere | scripts/stations.py:67 | the empty name is a substring of every registry name |
| Stations.ExcludedRowSkipped | scripts/stations.py:60-61 | a row whose cleaned name contains "Høvelte" is skipped whatever its links and the registry hold |
| Stations.LineLabels | scripts/stations.py:63-65 | no labels when some link has no title; otherwise one label per link, in link order, each the title with the prefix removed |
| Text.RemoveAllAbsent | scripts/stations.py:65 | a title that does not contain the prefix is left unchanged |
| Text.RemoveAllJoin | scripts/stations.py:65 | for a border-free pattern, removing every occurrence from pieces joined by the pattern gives the pieces joined with nothing |
| Stations.LineLabelOfJoin | scripts/stations.py:65 | a title made of pieces separated by "Linje " labels the line with those pieces run together |
| Stations.LineLabelWithoutPrefix | scripts/stations.py:65 | a title without "Linje " is its own label |
| Stations.LinjeA | scripts/stations.py:65 | the title "Linje A" gives the label "A" |
| Stations.FindFirst | scripts/stations.py:66-67 | the chosen entry is the first in registry order whose name contains the cleaned name; `None` exactly when no entry does |
| Stations.EmptyNameResolvesToFirst | scripts/stations.py:66-71 | an empty cleaned name resolves to the first registry entry's name and coordinates when the registry is non-empty |
| Stations.FromRow | scripts/stations.py:55-72 | skip exactly when the name is excluded or a title is missing; fatal with the cleaned name exactly when otherwise no entry matches; otherwise the station has the first match's name and coordinates and the row's labels |
| Stations.OkStationFromRegistry | scripts/stations.py:66-71 | a station's name and coordinates are those of a registry entry, never the scraped text |
| Stations.RecordRoundTrip | scripts/stations.py:46-52 | the dictionary form of a station has its four keys and reads back to the same station |
| Stations.ToRecordInjective | scripts/stations.py:46-52 | two different stations never have the same dictionary form |
| Reconcile.AppendLines | scripts/stations.py:86-89 | each label's list is created if absent and gains one record per occurrence of the label, appended at the end; the key set grows by exactly the labels; other lists are untouched |
| Reconcile.Aggregate | scripts/stations.py:85-89 | the station's record replaces any earlier one under its name, other names keep their records, and every label's list is extended at its end |
| Reconcile.AggregateDescribes | scripts/stations.py:85-89 | recording one more station keeps the index equal to the reference description of all stations recorded so far |
| Reconcile.FoldDescribes | scripts/stations.py:79-89 | a successful run's station keys are exactly the names of the rows not skipped, each holding the last record with that name; line keys are exactly their labels, each list holding the records in row order |
| Reconcile.FoldFailsIff | scripts/stations.py:79-83 | the run fails exactly when some row is fatal, and it reports the cleaned name of the first fatal row |
| Reconcile.RunAbortsIff | scripts/stations.py:66-83 | the whole run aborts exactly when some data row is fatal, and the reported name matches no registry entry |
| Reconcile.FatalRowAborts | scripts/stations.py:72-83 | after a fatal row the result is that row's failure whatever rows follow |
| Reconcile.SkippedRowInvisible | scripts/stations.py:80-83 | a skipped row anywhere in the input leaves the run's result exactly as if it were absent |
| Reconcile.ExcludedRowInvisible | scripts/stations.py:60-61 | a row naming the excluded station leaves the run's result exactly as if it were absent |
| Reconcile.LinesNeverEmpty | scripts/stations.py:86-89 | no line list of a successful run is empty |
| Reconcile.GatheredEmptyIff | scripts/stations.py:86-89 | a line's reference list is empty exactly when no kept station carries that label |
| Reconcile.StationsFromRegistry | scripts/stations.py:66-85 | every key of the station index is a registry name, and its record has that entry's name and coordinates |
| Reconcile.HeaderIgnored | scripts/stations.py:76 | the first body row is never processed: replacing it changes nothing |
| Reconcile.StationWithoutLines | scripts/stations.py:85-89 | a station without line links is recorded under its name and creates no line list |
| Reconcile.GroupingExample | scripts/stations.py:85-89 | stations on lines A and C, then A: line A lists both in row order, line C only the first |

## Left out

- Network I/O: the fetches of the Wikipedia page and of the DSB station list (`scripts/stations.py:10`, `:30`). The registry is an input sequence.
- HTML parsing: finding the table, `tbody`, `tr`, `td` and `a`, and reading `.text` and `title` (`scripts/stations.py:13-16`, `:56`, `:64`, `:75`). Rows arrive already extracted. A missing table aborts the source before any row is read. That case is outside the model.
- Short rows. A row with no cells raises `IndexError` at `cols[0]`
  (`scripts/stations.py:57`). A row that is not excluded and has fewer than
  three cells raises `IndexError` at `cols[2]` (`scripts/stations.py:64`).
  Neither error is a `KeyError`, so the run aborts. An excluded row with one or
  two cells raises its `KeyError` first (`scripts/stations.py:60-61`) and is
  skipped. In the model every row carries both fields, so the two aborts are
  not modelled. The skip of an excluded row is modelled.
- Registry entries with missing fields. The scan reads `stationName` of each
  entry up to and including the first match (`scripts/stations.py:66-67`). It
  reads `stationLatitude` and `stationLongitude` only of the matched entry
  (`scripts/stations.py:69-70`). A missing field among those reads raises
  `KeyError`, and the driver skips the row. Fields of entries the scan does not
  reach are never read. The model assumes every registry entry has all three
  fields.
- The `float(...)` parse of the coordinates (`scripts/stations.py:69-70`). Coordinates are carried as the registry's text. The `ValueError` a bad number would raise is not modelled.
- The progress bar and the JSON writes (`scripts/stations.py:78`, `:91-95`). The maps are unordered, so the insertion order the JSON output would show is not modelled.
- All of `src/stog_cykling/main.py`. Geocoding and routing are HTTP calls, and the command is CLI glue. Polyline decoding, the line colour table and map rendering are not part of this model.

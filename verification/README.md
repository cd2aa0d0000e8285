# ETL of taxi trip records from CSV into SQL Server — verified model

The loader reads a CSV file of taxi trips and turns each row into a typed trip
record. A row whose fields do not convert is reported and skipped. Accepted
rows are bulk-written to the `Staging_CabTrips` table in batches of 10,000.
The loader then deduplicates staging on the key (pickup time, dropoff time,
passenger count). One row per key is inserted into the permanent `CabTrips`
table, and every other row goes to `duplicates.csv`.

The model has six modules:

- `Results`: the `Ok`/`Err` result that stands for the source's exceptions.
- `Trips`: the trip record, its field types and the deduplication key.
- `Normalise`: `String.Trim`, `MapFlag`, and the per-row conversion (`NormaliseRow`).
  The timestamp, integer and decimal conversions are parameters (`Parsers`).
- `Batching`: the `ProcessCsv` loop as a pure fold (`Step`, `Fold`, `Finish`, `Load`),
  plus an imperative `ProcessCsv` whose loop invariant ties it to the fold.
  Whether each numbered bulk write succeeds is a parameter (`flushOk`).
- `Dedup`: the `ROW_NUMBER() OVER (PARTITION BY … ORDER BY (SELECT NULL))`
  numbering and the two statements that use it.
  The engine's reading order of staging is a parameter (`scan`), which can be any reordering of the staged rows.
- `Pipeline`: one run of `Main` after its argument check (`RunEtl`).

Two behaviours of the code differ from what the pipeline is meant to do; the model follows the code:

- A bulk-write failure is meant to be fatal to the run.
  In the code, a bulk write that fails inside the row loop (`Program.cs:85`) happens inside the per-row `try`.
  The exception is reported as a skipped row, the buffer is kept, and the run goes on.
  Only the final write after the loop (`Program.cs:97`) aborts the run.
- A passenger count is meant to be non-negative.
  In the code, `passenger_count` is any 32-bit integer that converts; there is no such check.

## Model

| member | source | states |
|---|---|---|
| Normalise.MapFlag | ETLProject_CSVtoSQLServer.CLI/Program.cs:125-133 | exactly "N" and "Y" are accepted; the result is "No" or "Yes", and the input is its first letter; anything else fails with the invalid-flag message |
| Normalise.MapFlagRoundTrip | ETLProject_CSVtoSQLServer.CLI/Program.cs:125-133 | each stored flag value is recovered from its one-letter code |
| Normalise.MapFlagTrimmed | ETLProject_CSVtoSQLServer.CLI/Program.cs:74 | a flag field made of white space, then "N" or "Y", then white space, is accepted after the single trim, and maps to the value with that initial |
| Normalise.MapFlagCaseSensitive | ETLProject_CSVtoSQLServer.CLI/Program.cs:74 | lower-case "n" and "y" are rejected, even after trimming |
| Normalise.Trim | ETLProject_CSVtoSQLServer.CLI/Program.cs:74 | the result is the infix of the input between its leading and trailing white space; it neither starts nor ends with white space |
| Normalise.TrimUnique | ETLProject_CSVtoSQLServer.CLI/Program.cs:74 | white space, then a core without white space at either end, then white space, trims to exactly that core |
| Normalise.TrimIdempotent | ETLProject_CSVtoSQLServer.CLI/Program.cs:74 | trimming twice is the same as trimming once |
| Normalise.NormaliseRow | ETLProject_CSVtoSQLServer.CLI/Program.cs:69-78 | a row becomes a record exactly when all nine columns are present and every one converts; each field of the record is its column's conversion; the stored flag is always "No" or "Yes" |
| Normalise.NormaliseRoundTrip | ETLProject_CSVtoSQLServer.CLI/Program.cs:69-78 | given conversions that read back what printers write, rendering any record as an input row and normalising it gives back the record |
| Batching.Step | ETLProject_CSVtoSQLServer.CLI/Program.cs:67-92 | a failed row leaves the loader state unchanged (not buffered, not counted); an accepted row is counted; the written rows followed by the buffer grow by exactly that row; a bulk write is attempted exactly when the count reaches a multiple of the batch size; staging gains a batch exactly when that write succeeds, the batch is the whole buffer with the new row, and the buffer is then cleared; when nothing is written (no multiple, or a failed write) the buffer keeps its rows plus the new one; earlier batches are kept |
| Batching.Fold | ETLProject_CSVtoSQLServer.CLI/Program.cs:65-93 | the row loop: the count never exceeds the rows read, and every batch written used one bulk-write call, each made for an accepted row (its meaning is stated by FoldInvariant, FoldAllFlushed and FailureIsolated) |
| Batching.Finish | ETLProject_CSVtoSQLServer.CLI/Program.cs:95-98 | a non-empty remainder is written once as the last batch, and an empty one is not written; the run aborts exactly when a non-empty remainder's write fails |
| Batching.Load | ETLProject_CSVtoSQLServer.CLI/Program.cs:54-101 | `ProcessCsv` on the rows' outcomes: it always completes when every bulk write succeeds; when it completes, the buffer is empty, staging is the accepted rows in input order and the count is their number |
| Batching.FoldInvariant | ETLProject_CSVtoSQLServer.CLI/Program.cs:63-93 | whatever the bulk writes do, the rows written so far followed by the buffer are the accepted rows in input order; the counter is their number; one write is attempted per completed batch |
| Batching.FoldAllFlushed | ETLProject_CSVtoSQLServer.CLI/Program.cs:79-87 | when writes succeed, the buffer holds rowCount mod batchSize rows, so always fewer than a batch between rows; every in-loop write carries exactly batchSize rows; there is one write per completed batch |
| Batching.FailureIsolated | ETLProject_CSVtoSQLServer.CLI/Program.cs:67-92 | removing a failed row from anywhere in the input leaves the loader's final state unchanged |
| Batching.LoadAllFlushed | ETLProject_CSVtoSQLServer.CLI/Program.cs:83-98 | when writes succeed, the load completes with ceil(n / batchSize) writes for n accepted rows; every write but the last carries a full batch and the last carries 1 to batchSize rows; the concatenation is the accepted rows in input order |
| Batching.FlushCountBoundaries | ETLProject_CSVtoSQLServer.CLI/Program.cs:83-98 | N, N+1 and 2N-1 accepted rows take 1, 2 and 2 writes |
| Batching.ConfiguredFlushBoundaries | ETLProject_CSVtoSQLServer.CLI/Program.cs:11 | with the configured batch size of 10,000: 10,000, 10,001 and 19,999 accepted rows take 1, 2 and 2 writes |
| Batching.AcceptRow | ETLProject_CSVtoSQLServer.CLI/Program.cs:79-87 | the loop body on the source's locals (data table, rowCount, batches written, calls) performs one step of the fold |
| Batching.ProcessCsv | ETLProject_CSVtoSQLServer.CLI/Program.cs:54-101 | the loop computes the fold's result; if it completes, staging is the accepted rows in order and rowCount is their number; it always completes when the writes succeed |
| Dedup.RowNumber | ETLProject_CSVtoSQLServer.CLI/Program.cs:151-152 | a row's number lies between 1 and its partition's size, and is 1 exactly when no earlier row of the scan has its key |
| Dedup.RowNumbersIncrease | ETLProject_CSVtoSQLServer.CLI/Program.cs:151-152 | within a partition the numbers strictly increase in scan order, so they number the partition 1..size without repeats |
| Dedup.Promoted | ETLProject_CSVtoSQLServer.CLI/Program.cs:151-155 | the rows with rn = 1, in scan order: never more than the staged rows, and the first row read is always among them, first (its meaning is stated by PartitionCovers, PromotedOnePerKey, PromotedSize and PromotedFromScan) |
| Dedup.PromotedFromScan | ETLProject_CSVtoSQLServer.CLI/Program.cs:147-155 | every promoted row is a staged row, with multiplicity |
| Dedup.Duplicates | ETLProject_CSVtoSQLServer.CLI/Program.cs:169-173 | the rows with rn > 1, in scan order: never more than the staged rows, and every one has a key that at least two staged rows share (its meaning is stated by PartitionCovers, DuplicatesPerKey, DuplicatesSize and DuplicatesFromScan) |
| Dedup.DuplicatesFromScan | ETLProject_CSVtoSQLServer.CLI/Program.cs:166-173 | every exported duplicate is a staged row, with multiplicity |
| Dedup.RowNumbers | ETLProject_CSVtoSQLServer.CLI/Program.cs:151-153 | a single pass with a running counter per key assigns every row its ROW_NUMBER |
| Dedup.PartitionCovers | ETLProject_CSVtoSQLServer.CLI/Program.cs:151-173 | the rows numbered 1 and the rows numbered above 1 together form exactly the staged multiset: none is lost and none is counted twice |
| Dedup.PromotedOnePerKey | ETLProject_CSVtoSQLServer.CLI/Program.cs:146-155 | the rows numbered 1 contain exactly one row for each key present in staging and none for any other key |
| Dedup.DuplicatesPerKey | ETLProject_CSVtoSQLServer.CLI/Program.cs:165-173 | each key contributes its partition size minus one duplicates |
| Dedup.PromotedSize | ETLProject_CSVtoSQLServer.CLI/Program.cs:146-155 | the number of promoted rows is the number of distinct keys |
| Dedup.DuplicatesSize | ETLProject_CSVtoSQLServer.CLI/Program.cs:165-173 | the number of duplicates is the number of staged rows minus the number of distinct keys |
| Dedup.AnyRowCanBePromoted | ETLProject_CSVtoSQLServer.CLI/Program.cs:152 | because of ORDER BY (SELECT NULL), any staged row is the representative under some reading order, so the model claims no tie-break |
| Dedup.SameRowsSameKeys | ETLProject_CSVtoSQLServer.CLI/Program.cs:151-153 | keys and partition sizes depend only on the staged rows, not on their reading order |
| Dedup.CountKeyPermutation | ETLProject_CSVtoSQLServer.CLI/Program.cs:151 | partition sizes are unchanged by reordering staging |
| Dedup.InsertUniqueRecords | ETLProject_CSVtoSQLServer.CLI/Program.cs:144-161 | the permanent table keeps its rows and gains one row per key present in staging, no more, and every row it gains is a staged row |
| Dedup.ExportDuplicates | ETLProject_CSVtoSQLServer.CLI/Program.cs:163-200 | the exported rows are those numbered above 1; the printed count is their number, which is staged rows minus distinct keys, and each key contributes its partition size minus one |
| Dedup.Deduplicate | ETLProject_CSVtoSQLServer.CLI/Program.cs:146-173 | when promotion and export share one numbering, the promoted rows and the duplicates partition staging exactly, with one promoted row per key |
| Dedup.DedupAsWritten | ETLProject_CSVtoSQLServer.CLI/Program.cs:146-173 | the two statements as issued, each with its own reading order: the promoted rows come from the insert's reading of staging and the exported rows from the export's (AsWrittenCountsHold and AsWrittenCanLoseRows say what this does and does not guarantee) |
| Dedup.AsWrittenCountsHold | ETLProject_CSVtoSQLServer.CLI/Program.cs:146-173 | with the two statements numbering staging independently, the promoted and exported counts are still right |
| Dedup.AsWrittenCanLoseRows | ETLProject_CSVtoSQLServer.CLI/Program.cs:151-173 | with independent numberings, a row can be both promoted and exported while another is neither |
| Pipeline.RunEtl | ETLProject_CSVtoSQLServer.CLI/Program.cs:13-52 | staging holds exactly the accepted rows in input order, whatever is already in the permanent table, so two runs on one file leave the same staging; the permanent table keeps its rows and gains one row per distinct key; the new rows and the export partition staging; the printed counts agree; the run aborts only when the final bulk write fails |

## Left out

- The SQL Server connection, `TRUNCATE TABLE`, `SqlBulkCopy` and `SELECT COUNT(*)` are database I/O.
  Staging is modelled as the sequence of batches written to it, starting empty.
  The permanent table is modelled as a sequence the insert appends to.
- A bulk write that fails is modelled as writing nothing.
  Whether `SqlBulkCopy` can leave part of a batch behind depends on the server.
- `ParseDateTime` is a parameter: a partial function from text to a UTC instant.
  It covers `DateTime.ParseExact` and the conversion from US Eastern time.
  The time-zone rules, including gaps and overlaps at daylight-saving changes, come from the operating system.
- `GetField<int>` and `GetField<decimal>` are parameters: partial conversions that may fail.
  Decimals are carried as their representation and never computed with.
- CSV decoding is not modelled: `CsvReader`, the header read (`Program.cs:59-60`) and the failure on an empty or missing file.
  The decoder's `csv.Read()` at `Program.cs:65` is outside the per-row `try`.
  A decoder error, such as a malformed quoted field, therefore ends the run instead of skipping the row.
  The model takes the decoded rows as given, so it has no such abort path.
  Decoded rows are given as maps from header name to field text.
  CSV writing of `duplicates.csv` is not modelled either: its header, value formatting and file handling.
  Exported rows are modelled as records.
- Console diagnostics are not modelled: "Skipping row due to error", the exception messages, and the usage message.
  `Main`'s argument handling is also left out.
- Batching.ProcessCsv: `rowCount` is an unbounded count. The source's 32-bit `int` would wrap after 2^31-1 accepted rows, which no realistic file reaches.
- Pipeline.RunEtl: promotion and export share one reading order of staging. This is the corrected behaviour under Findings. The as-written form is `Dedup.DedupAsWritten`.
- Pipeline.RunEtl: a failure of the insert, the export or the final count aborts the run in the source. The model assumes these statements succeed.
- The staging table's column types are not part of this model. Keys are compared at tick precision.
  A coarser SQL `datetime` column could merge keys that differ below its precision.

## Findings

| source | as written | input that shows it | evidently intended | confidence | as-written member | corrected member |
|---|---|---|---|---|---|---|
| ETLProject_CSVtoSQLServer.CLI/Program.cs:146-173 | `InsertUniqueRecords` and `ExportDuplicates` each compute their own `ROW_NUMBER() … ORDER BY (SELECT NULL)`. Nothing makes the two statements order a partition the same way. | Staging holds trips A and B with the same pickup, dropoff and passenger count but different fares. The insert reads [A, B] and promotes A. The export reads [B, A] and exports A. A is both promoted and exported; B is in neither. | Every staged row is either promoted or exported, exactly once. This holds when both statements use one numbering. | low; not executed. It needs the engine to choose different orders for the two statements. | Dedup.AsWrittenCanLoseRows | Dedup.Deduplicate |

# llm-mito-scanner data-preparation utilities, modelled in Dafny

This project models the two data-preparation functions of llm-mito-scanner:

- **`insert_genome_into_sqlite`** loads the records of a reference-genome FASTA file into
  the sequence database in batches. Module `Genome` (`genome.dfy`) models it. The batch
  shapes are specified in module `Batching` (`batching.dfy`).
- **`break_proteins_into_fasta_files`** splits a protein FASTA file into one `{id}.fasta`
  file per record. It skips files that already exist and advances a progress bar once per
  record. Module `Protein` (`protein.dfy`) models it.

Module `Fasta` (`fasta.dfy`) holds the two shared data types:

- a parsed record: identifier, description and residues;
- the content of a FASTA file: the list of records it was written from.

**Genome loader.** The parsed file is a `seq<SequenceRecord>`. The database is a class,
`SequenceDatabase`, whose only state is the log of the batches passed to
`InsertSequences`. `InsertGenomeIntoSqlite` keeps the source's loop: append the record to
the pending list, flush the list when the 0-based index is a multiple of the batch size,
and flush a non-empty remainder at the end.

The method is proved to make exactly the calls `Batches(records, abs(b))`, where `b` is the
configured batch size. `Batches` is a plain grouping of the input: the first record alone,
then groups of `abs(b)`, then what is left over. The flush test `0 % b == 0` fires on the first
record, so the first batch is a single record. The model keeps this behaviour of the source.
The lemmas about `Batches` state the rest:

- nothing is lost, duplicated or reordered;
- the batch sizes;
- the number of calls, which is 1 + ceil((N - 1) / |b|);
- one call per record when `b` is 1.

A batch size of zero raises Python's `ZeroDivisionError` on the first record, before any
insert. The model returns `DivisionByZero` in that case. With no records there is no error
and no call.

**Protein splitter.** The input file is seen twice, as the source reads it twice:

- as its lines, for the header pre-count (`CountHeaderLines`, specified by `HeaderCount`);
- as the records the FASTA parser yields.

The output directory is a class, `OutputDirectory`. It holds a map from file name to
content, and a log of the names written (a ghost field). The progress bar is a class,
`ProgressBar`, with a total and a counter. `BreakProteinsIntoFastaFiles` is proved to leave
the directory equal to `Split(old files, records)` and to write exactly
`Writes(old files, records)`. The lemmas about `Split` state the rest:

- existing files are kept, and the only new files are the records' own;
- every record's file is present afterwards;
- when identifiers repeat, the first occurrence wins;
- a second run writes nothing and changes nothing;
- into an empty directory, N distinct identifiers give N files.

Two consequences of the code that are easy to miss:

- The code does not check that the batch size is positive. For a negative `b`, Python's
  `i % b == 0` holds exactly when `abs(b)` divides `i`. Dafny's `%` gives the same zero test,
  so a negative size batches like `abs(b)` (`Batching.Stride`).
- For N >= 1 records there are 1 + ceil((N - 1) / B) insert calls (`Batching.BatchesShape`).

The batch size defaults to 10, as in the source.

## Model

| member | source | states |
|---|---|---|
| `Genome.InsertGenomeIntoSqlite` | llm_mito_scanner/features/genome.py:13-29 | For a non-zero batch size b, the insert calls made are exactly `Batches(records, abs(b))`, appended to the database's log in call order. An empty input makes no call. A zero batch size with at least one record fails with `DivisionByZero` before any insert. Otherwise the load ends `Done`. The batch size defaults to 10. |
| `Genome.SequenceDatabase.InsertSequences` | llm_mito_scanner/features/genome.py:26 | One bulk insert appends exactly its batch to the call log. |
| `Batching.FlushTest` | llm_mito_scanner/features/genome.py:25 | At index `k*abs(b) + r` with 1 <= r <= abs(b), the test `i % b == 0` holds exactly when the pending list has reached abs(b) records. So every in-loop flush after the first carries a full batch. |
| `Batching.Batches` | llm_mito_scanner/features/genome.py:22-29 | The reference grouping of the loader's calls: the first record alone, then groups of n, then the remainder. Its contract: the batches, concatenated in call order, equal the parsed record sequence, so nothing is dropped, duplicated or reordered. |
| `Batching.Stride` | llm_mito_scanner/features/genome.py:25 | A non-zero batch size b groups by abs(b) >= 1, because the zero test `i % b == 0` holds exactly when abs(b) divides i. |
| `Batching.BatchesShape` | llm_mito_scanner/features/genome.py:23-29 | There are no calls exactly when there are no records. For N >= 1 the first call carries the first record alone, and there are 1 + ceil((N - 1) / n) calls. Every call is non-empty and at most n long. Every call strictly between the first and the last has exactly n records. |
| `Batching.BatchesLast` | llm_mito_scanner/features/genome.py:25-29 | With N >= 2, the last call holds (N - 1) mod n records, which is between 1 and n - 1, when there is a remainder. Otherwise it holds a full batch of n. |
| `Batching.BatchesOfOne` | llm_mito_scanner/features/genome.py:25-27 | With batch size 1 there is exactly one call per record, in file order. |
| `Batching.LoaderStep` | llm_mito_scanner/features/genome.py:24-27 | One loop step after the first record: the flush test fires exactly when the pending records make a full batch of abs(b), and then the calls grow by exactly that batch. |
| `Batching.LoaderRemainder` | llm_mito_scanner/features/genome.py:28-29 | The final guarded flush: the 1..n-1 pending records make the last call. |
| `Batching.BatchesExtend` | llm_mito_scanner/features/genome.py:24-29 | After the first record and k full batches, flushing a further 1..n records adds exactly that batch. This is the loop step of the flush and of the final remainder flush. |
| `Protein.IsHeader` | llm_mito_scanner/features/protein.py:25 | A line is a header exactly when it has `>` as a prefix, as `line.startswith(">")` tests. |
| `Protein.HeaderCount` | llm_mito_scanner/features/protein.py:22-26 | The reference count of header lines. Its contract: the count is at most the number of lines. |
| `Protein.CountHeaderLines` | llm_mito_scanner/features/protein.py:22-26 | The pre-pass returns `HeaderCount(lines)`, the number of lines starting with `>`. |
| `Protein.HeaderCountIsHeaderPositions` | llm_mito_scanner/features/protein.py:22-27 | The progress total equals the number of positions whose line starts with `>`. |
| `Protein.HeaderCountBounds` | llm_mito_scanner/features/protein.py:22-26 | The count is at most the number of lines. It is zero exactly when no line is a header. It equals the number of lines exactly when every line is a header. |
| `Protein.FileNameInjective` | llm_mito_scanner/features/protein.py:29 | Two identifiers map to the same `{id}.fasta` name exactly when they are equal. |
| `Protein.FileName` | llm_mito_scanner/features/protein.py:29 | A record's file name is its identifier followed by the suffix `.fasta`. |
| `Protein.OutputDirectory.Exists` | llm_mito_scanner/features/protein.py:30 | A name exists exactly when it is in the directory's map. This is the same test `Place` makes: it is true exactly when placing a record under that name changes nothing. |
| `Protein.OutputDirectory.Write` | llm_mito_scanner/features/protein.py:31-32 | Writing sets that one file's content (creating or truncating it), logs the write and changes nothing else. |
| `Protein.ProgressBar.constructor` | llm_mito_scanner/features/protein.py:27 | The bar starts at 0 with the given total. |
| `Protein.ProgressBar.Update` | llm_mito_scanner/features/protein.py:33 | Each update advances the counter by exactly one. |
| `Protein.BreakProteinsIntoFastaFiles` | llm_mito_scanner/features/protein.py:13-34 | The progress total is the header count of the lines, and the counter ends at the number of parsed records. The directory ends as `Split(old files, records)`. The files written are exactly `Writes(old files, records)`: a record is written exactly when its file is absent at that moment. |
| `Protein.Place` | llm_mito_scanner/features/protein.py:29-32 | One record's step: afterwards the directory's names are the old ones plus `{id}.fasta`. Every old file keeps its content. If that name was absent, it now holds the record alone, `FastaContent([r])`. |
| `Protein.Split` | llm_mito_scanner/features/protein.py:28-32 | The reference directory after the records are processed in file order, one `Place` step each. Its contract: every file present before is still present with its content. |
| `Protein.Writes` | llm_mito_scanner/features/protein.py:28-32 | The reference list of files written, in order: a record's name is written exactly when it is absent from the directory at that step. Its contract: there is at most one write per record. |
| `Protein.SplitKeys` | llm_mito_scanner/features/protein.py:28-32 | The names after splitting are the old names plus the records' `{id}.fasta` names. |
| `Protein.WritesAreNewFiles` | llm_mito_scanner/features/protein.py:29-32 | The names written are exactly the names that were not present before, each written once. |
| `Protein.SplitFiles` | llm_mito_scanner/features/protein.py:28-32 | Files present before keep their content. The new file set is the old one plus the records' `{id}.fasta` names, so no other name is touched. The files written are exactly the ones not present before, each written once. |
| `Protein.SplitCoversRecords` | llm_mito_scanner/features/protein.py:28-32 | Afterwards, every parsed record's `{id}.fasta` is present. |
| `Protein.SplitFirstOccurrence` | llm_mito_scanner/features/protein.py:28-32 | If a record's file was absent and no earlier record has its identifier, the file holds that record. With duplicate identifiers, the first occurrence in file order wins. |
| `Protein.SplitSettled` | llm_mito_scanner/features/protein.py:30 | When every record's file already exists, nothing is written and the directory is unchanged. |
| `Protein.SplitIdempotent` | llm_mito_scanner/features/protein.py:28-32 | A second run on the same records and the resulting directory writes nothing and leaves the directory unchanged. |
| `Protein.SplitSize` | llm_mito_scanner/features/protein.py:30-32 | Each write adds exactly one file: the directory grows by the number of writes. |
| `Protein.SplitDistinctIntoEmpty` | llm_mito_scanner/features/protein.py:28-32 | On a first run into an empty directory, N records with distinct identifiers give exactly N files. Each file holds just its own record. |

## Left out

- FASTA parsing (`SeqIO.parse`) is a library call. The parsed records are an input
  sequence. The model does not assume that the number of parsed records equals the header
  count, and neither does the code.
- FASTA serialisation (`SeqIO.write`) is a library call. A file's content is kept as the
  list of records it was written from (`Fasta.FastaContent`), not as text.
- The sqlite connection and the `database` module are not part of this model. A bulk
  insert is modelled only as an append to a call log. Its schema, transactions and errors
  are not modelled.
- Real file I/O is replaced by values: opening and reading the input, `Path.exists`, and
  opening files for writing. The input file becomes its sequence of lines (`readlines`
  keeps line endings, which do not affect the `>` test). The output directory becomes a
  map from file name to content.
- Path joining is not modelled. The model treats the whole `{id}.fasta` as one name in the
  directory. In the source, an identifier containing `/` names a file in a subdirectory of
  the output directory, and the write fails when that subdirectory is missing. An absolute
  identifier, or one containing `..`, names a file outside the directory.
- File names are compared as exact strings. This is a case-sensitive file system and
  identifiers without path separators. The source compares paths as pathlib and the file
  system do: pathlib turns `a//b` into `a/b`, and on a case-insensitive file system
  `P1.fasta` and `p1.fasta` are one file, so the second record is skipped. The model writes
  both. `Protein.FileNameInjective` and `Protein.SplitDistinctIntoEmpty` ("distinct
  identifiers give distinct files") hold only for exact, case-sensitive names.
- Progress-bar rendering and `progress_bar.close()` are left out because they are display
  only. Only the total and the counter are kept.
- Errors raised by I/O, parsing or the database propagate unchanged in the source, with no
  handling to model. Only the `ZeroDivisionError` of a zero batch size comes from the
  functions' own logic, and it is modelled.
- A process stopped mid-write can leave a truncated output file that later runs treat as
  present. Interruption is not modelled.

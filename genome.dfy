/** Loading a reference genome into the sequence database in batches
    (llm_mito_scanner/features/genome.py). The parsed FASTA file is the input
    sequence of records; the database module's bulk insert is a class whose
    only observable effect is the log of the batches it was called with. */
module Genome {
  import opened Fasta
  import opened Batching

  /** How a load ends: normally, or with Python's ZeroDivisionError when the
      batch size is zero and there is a record to test against it. */
  datatype Outcome = Done | DivisionByZero

  /** The sqlite database behind `database.insert_sequences`, seen through the
      calls it receives. */
  class SequenceDatabase {
    var insertCalls: seq<seq<SequenceRecord>>

    constructor ()
      ensures insertCalls == []
    {
      insertCalls := [];
    }

    /** One bulk insert of `records`. */
    method InsertSequences(records: seq<SequenceRecord>)
      modifies this
      ensures insertCalls == old(insertCalls) + [records]
    {
      insertCalls := insertCalls + [records];
    }
  }

  /** Appends each record to an accumulator and flushes the accumulator to the
      database whenever the record's 0-based index is a multiple of the batch
      size, then flushes a non-empty remainder. The calls made are exactly
      `Batches(records, |insertBatchSize|)`: the first record alone, then full
      batches, then the remainder. A zero batch size fails on the first
      record, before any insert. */
  method InsertGenomeIntoSqlite(records: seq<SequenceRecord>, db: SequenceDatabase, insertBatchSize: int := 10)
    returns (outcome: Outcome)
    modifies db
    ensures outcome == DivisionByZero <==> insertBatchSize == 0 && records != []
    ensures records == [] ==> db.insertCalls == old(db.insertCalls)
    ensures outcome == DivisionByZero ==> db.insertCalls == old(db.insertCalls)
    ensures insertBatchSize != 0 ==> db.insertCalls == old(db.insertCalls) + Batches(records, Stride(insertBatchSize))
  {
    var pending: seq<SequenceRecord> := [];
    ghost var n := if insertBatchSize == 0 then 1 else Stride(insertBatchSize);
    ghost var flushed := 0;  // records handed to the database so far
    ghost var full := 0;     // full batches flushed after the first record
    var i := 0;
    while i < |records|
      invariant 0 <= i <= |records|
      invariant insertBatchSize == 0 ==> i == 0
      invariant i == 0 ==> pending == [] && full == 0 && db.insertCalls == old(db.insertCalls)
      invariant i > 0 ==> && flushed == 1 + full * n && flushed <= i
                          && pending == records[flushed..i] && |pending| < n
                          && db.insertCalls == old(db.insertCalls) + Batches(records[..flushed], n)
    {
      pending := pending + [records[i]];
      if insertBatchSize == 0 {
        return DivisionByZero;
      }
      if i == 0 {
        assert 0 % insertBatchSize == 0;
        FirstBatchStep(records, n);
        assert pending == [records[0]];
      } else {
        LoaderStep(records, insertBatchSize, full, flushed, i);
        assert pending == records[flushed..i + 1];
      }
      if i % insertBatchSize == 0 {
        if i > 0 {
          full := full + 1;
        }
        db.InsertSequences(pending);
        pending := [];
        flushed := i + 1;
      }
      i := i + 1;
    }
    if |pending| > 0 {
      LoaderRemainder(records, n, full, flushed);
      assert pending == records[flushed..];
      db.InsertSequences(pending);
    } else if records != [] {
      assert records[..flushed] == records;
    }
    return Done;
  }
}

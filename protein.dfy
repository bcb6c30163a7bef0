/** Splitting a protein FASTA file into one file per record
    (llm_mito_scanner/features/protein.py). The input file is seen twice, as
    the source does: as its lines, for the header pre-count that sizes the
    progress bar, and as the records the FASTA parser yields. The output
    directory is a map from file name to content. */
module Protein {
  import opened Fasta

  // ---------------------------------------------------------------------
  // The header pre-count.

  /** A line that starts a FASTA record: it begins with `>`. */
  function IsHeader(line: string): (b: bool)
    ensures b <==> ">" <= line
  {
    |line| > 0 && line[0] == '>'
  }

  /** The number of header lines, counted from the front. */
  function HeaderCount(lines: seq<string>): (c: nat)
    ensures c <= |lines|
  {
    if lines == [] then 0
    else HeaderCount(lines[..|lines| - 1]) + (if IsHeader(lines[|lines| - 1]) then 1 else 0)
  }

  /** The positions of the header lines. */
  function HeaderPositions(lines: seq<string>): set<nat>
  {
    set k: nat | k < |lines| && IsHeader(lines[k])
  }

  /** The pre-pass: one pass over the file's lines, counting the headers. */
  method CountHeaderLines(lines: seq<string>) returns (sequences: nat)
    ensures sequences == HeaderCount(lines)
  {
    sequences := 0;
    for i := 0 to |lines|
      invariant sequences == HeaderCount(lines[..i])
    {
      if IsHeader(lines[i]) {
        sequences := sequences + 1;
      }
      assert lines[..i + 1][..i] == lines[..i];
    }
    assert lines[..|lines|] == lines;
  }

  /** The count is the number of header positions. */
  lemma {:induction false} HeaderCountIsHeaderPositions(lines: seq<string>)
    ensures HeaderCount(lines) == |HeaderPositions(lines)|
    decreases |lines|
  {
    if lines != [] {
      var init := lines[..|lines| - 1];
      HeaderCountIsHeaderPositions(init);
      var last := |lines| - 1;
      assert HeaderPositions(lines) == HeaderPositions(init) + (if IsHeader(lines[last]) then {last} else {});
      assert last !in HeaderPositions(init);
    }
  }

  /** No header line gives a count of zero, and a count equal to the number of
      lines means every line is a header. */
  lemma {:induction false} HeaderCountBounds(lines: seq<string>)
    ensures HeaderCount(lines) <= |lines|
    ensures HeaderCount(lines) == 0 <==> forall k :: 0 <= k < |lines| ==> !IsHeader(lines[k])
    ensures HeaderCount(lines) == |lines| <==> forall k :: 0 <= k < |lines| ==> IsHeader(lines[k])
    decreases |lines|
  {
    if lines != [] {
      var init := lines[..|lines| - 1];
      HeaderCountBounds(init);
      assert forall k :: 0 <= k < |init| ==> init[k] == lines[k];
    }
  }

  // ---------------------------------------------------------------------
  // The output directory and the progress bar.

  /** The file a record goes to: its identifier with the `.fasta` suffix. */
  function FileName(id: string): (name: string)
    ensures id <= name && name[|id|..] == ".fasta"
  {
    id + ".fasta"
  }

  /** Different identifiers give different file names. */
  lemma FileNameInjective(a: string, b: string)
    ensures FileName(a) == FileName(b) <==> a == b
  {
    // Follows from FileName's contract: the identifier is the name minus its suffix.
  }

  /** The directory written into, as file names and their contents, with a
      log of the files written, in order. */
  class OutputDirectory {
    var files: map<string, FastaContent>
    ghost var writeLog: seq<string>

    constructor (files: map<string, FastaContent>)
      ensures this.files == files && writeLog == []
    {
      this.files := files;
      writeLog := [];
    }

    /** Whether a file of that name is present: the test `Place` makes,
        true exactly when placing a record under that name changes nothing. */
    function Exists(name: string): (b: bool)
      reads this
      ensures forall r: SequenceRecord :: FileName(r.id) == name ==> (b <==> Place(files, r) == files)
    {
      name in files
    }

    /** Open `name` for writing (creating or truncating it) and write `content`. */
    method Write(name: string, content: FastaContent)
      modifies this
      ensures files == old(files)[name := content]
      ensures writeLog == old(writeLog) + [name]
    {
      files := files[name := content];
      writeLog := writeLog + [name];
    }
  }

  /** A progress indicator: a total and a count of the steps reported. */
  class ProgressBar {
    const total: nat
    var n: nat

    constructor (total: nat)
      ensures this.total == total && n == 0
    {
      this.total := total;
      n := 0;
    }

    /** Report one more step done. */
    method Update()
      modifies this
      ensures n == old(n) + 1
    {
      n := n + 1;
    }
  }

  // ---------------------------------------------------------------------
  // The effect of splitting, stated on the directory's contents.

  /** One record's step: write it to its file unless that file exists. */
  function Place(files: map<string, FastaContent>, r: SequenceRecord): (out: map<string, FastaContent>)
    ensures out.Keys == files.Keys + {FileName(r.id)}
    ensures forall name :: name in files ==> out[name] == files[name]
    ensures FileName(r.id) !in files ==> out[FileName(r.id)] == FastaContent([r])
  {
    if FileName(r.id) in files then files else files[FileName(r.id) := FastaContent([r])]
  }

  /** The directory after the records have been processed in file order. */
  function Split(files: map<string, FastaContent>, rs: seq<SequenceRecord>): (out: map<string, FastaContent>)
    ensures forall name :: name in files ==> name in out && out[name] == files[name]
    decreases |rs|
  {
    if rs == [] then files
    else Place(Split(files, rs[..|rs| - 1]), rs[|rs| - 1])
  }

  /** The files written while processing the records, in order. */
  function Writes(files: map<string, FastaContent>, rs: seq<SequenceRecord>): (w: seq<string>)
    ensures |w| <= |rs|
    decreases |rs|
  {
    if rs == [] then []
    else
      var init := rs[..|rs| - 1];
      var name := FileName(rs[|rs| - 1].id);
      Writes(files, init) + (if name in Split(files, init) then [] else [name])
  }

  /** The file names the records map to. */
  function NamesOf(rs: seq<SequenceRecord>): set<string>
  {
    set r | r in rs :: FileName(r.id)
  }

  /** Files present before are kept with their contents, and the only new
      files are the records' own. */
  lemma {:induction false} SplitKeys(files: map<string, FastaContent>, rs: seq<SequenceRecord>)
    ensures Split(files, rs).Keys == files.Keys + NamesOf(rs)
    decreases |rs|
  {
    if rs != [] {
      var init, last := rs[..|rs| - 1], rs[|rs| - 1];
      SplitKeys(files, init);
      assert rs == init + [last];
      assert NamesOf(rs) == NamesOf(init) + {FileName(last.id)};
    }
  }

  /** The files written are exactly the new ones, each written once. */
  lemma {:induction false} WritesAreNewFiles(files: map<string, FastaContent>, rs: seq<SequenceRecord>)
    ensures var out, w := Split(files, rs), Writes(files, rs);
      && (forall k :: 0 <= k < |w| ==> w[k] !in files)
      && (forall name :: name in out && name !in files <==> name in w)
      && (forall j, k :: 0 <= j < k < |w| ==> w[j] != w[k])
    decreases |rs|
  {
    if rs != [] {
      var init, last := rs[..|rs| - 1], rs[|rs| - 1];
      WritesAreNewFiles(files, init);
      var before, w := Split(files, init), Writes(files, init);
      var name := FileName(last.id);
      if name in before {
        assert Split(files, rs) == before && Writes(files, rs) == w;
      } else {
        assert Split(files, rs) == before[name := FastaContent([last])];
        assert Writes(files, rs) == w + [name];
        assert name !in w;
      }
    }
  }

  /** Files present before are kept with their contents, and the only new
      files are the records' own; the files written are exactly the new ones,
      each written once. */
  lemma SplitFiles(files: map<string, FastaContent>, rs: seq<SequenceRecord>)
    ensures var out, w := Split(files, rs), Writes(files, rs);
      && out.Keys == files.Keys + NamesOf(rs)
      && (forall name :: name in files ==> out[name] == files[name])
      && (forall k :: 0 <= k < |w| ==> w[k] !in files)
      && (forall name :: name in out && name !in files <==> name in w)
      && (forall j, k :: 0 <= j < k < |w| ==> w[j] != w[k])
  {
    SplitKeys(files, rs);
    WritesAreNewFiles(files, rs);
  }

  /** After splitting, every record's file is present. */
  lemma {:induction false} SplitCoversRecords(files: map<string, FastaContent>, rs: seq<SequenceRecord>)
    ensures forall k :: 0 <= k < |rs| ==> FileName(rs[k].id) in Split(files, rs)
  {
    SplitFiles(files, rs);
    forall k | 0 <= k < |rs|
      ensures FileName(rs[k].id) in NamesOf(rs)
    {
      assert rs[k] in rs;
    }
  }

  /** When several records share an identifier and its file did not exist,
      the file holds the first of them. */
  lemma {:induction false} SplitFirstOccurrence(files: map<string, FastaContent>, rs: seq<SequenceRecord>, j: nat)
    requires j < |rs| && FileName(rs[j].id) !in files
    requires forall k :: 0 <= k < j ==> rs[k].id != rs[j].id
    ensures FileName(rs[j].id) in Split(files, rs)
    ensures Split(files, rs)[FileName(rs[j].id)] == FastaContent([rs[j]])
    decreases |rs|
  {
    SplitCoversRecords(files, rs);
    var init, last := rs[..|rs| - 1], rs[|rs| - 1];
    var name := FileName(rs[j].id);
    if j == |rs| - 1 {
      assert name !in Split(files, init) by {
        SplitKeys(files, init);
      }
      assert Split(files, rs) == Split(files, init)[name := FastaContent([last])];
    } else {
      SplitFirstOccurrence(files, init, j);
      assert name in Split(files, init);
    }
  }

  /** When every record's file already exists, splitting writes nothing and
      changes nothing. */
  lemma {:induction false} SplitSettled(files: map<string, FastaContent>, rs: seq<SequenceRecord>)
    requires forall k :: 0 <= k < |rs| ==> FileName(rs[k].id) in files
    ensures Split(files, rs) == files && Writes(files, rs) == []
    decreases |rs|
  {
    if rs != [] {
      SplitSettled(files, rs[..|rs| - 1]);
    }
  }

  /** A second run on the same records and the resulting directory writes
      nothing and leaves the directory as it is. */
  lemma SplitIdempotent(files: map<string, FastaContent>, rs: seq<SequenceRecord>)
    ensures Split(Split(files, rs), rs) == Split(files, rs)
    ensures Writes(Split(files, rs), rs) == []
  {
    SplitCoversRecords(files, rs);
    SplitSettled(Split(files, rs), rs);
  }

  /** Each file written adds one file to the directory. */
  lemma {:induction false} SplitSize(files: map<string, FastaContent>, rs: seq<SequenceRecord>)
    ensures |Split(files, rs)| == |files| + |Writes(files, rs)|
    decreases |rs|
  {
    if rs != [] {
      SplitSize(files, rs[..|rs| - 1]);
    }
  }

  /** Into an empty directory, records with distinct identifiers are each
      written, in order, each to a file of its own. */
  lemma {:induction false} WritesDistinctIntoEmpty(rs: seq<SequenceRecord>)
    requires forall j, k :: 0 <= j < k < |rs| ==> rs[j].id != rs[k].id
    ensures Writes(map[], rs) == seq(|rs|, k requires 0 <= k < |rs| => FileName(rs[k].id))
    decreases |rs|
  {
    if rs != [] {
      var init, last := rs[..|rs| - 1], rs[|rs| - 1];
      assert forall k :: 0 <= k < |init| ==> init[k] == rs[k];
      WritesDistinctIntoEmpty(init);
      var name := FileName(last.id);
      assert name !in Split(map[], init) by {
        SplitFiles(map[], init);
      }
      assert Writes(map[], rs) == Writes(map[], init) + [name];
    }
  }

  /** On a first run into an empty directory, N records with distinct
      identifiers give N files, each holding just its own record. */
  lemma SplitDistinctIntoEmpty(rs: seq<SequenceRecord>)
    requires forall j, k :: 0 <= j < k < |rs| ==> rs[j].id != rs[k].id
    ensures |Split(map[], rs)| == |rs|
    ensures forall k :: 0 <= k < |rs| ==>
      FileName(rs[k].id) in Split(map[], rs) && Split(map[], rs)[FileName(rs[k].id)] == FastaContent([rs[k]])
  {
    WritesDistinctIntoEmpty(rs);
    SplitSize(map[], rs);
    forall k | 0 <= k < |rs|
      ensures FileName(rs[k].id) in Split(map[], rs) && Split(map[], rs)[FileName(rs[k].id)] == FastaContent([rs[k]])
    {
      SplitFirstOccurrence(map[], rs, k);
    }
  }

  // ---------------------------------------------------------------------
  // The splitter itself.

  /** Counts the header lines to size the progress bar, then, for each parsed
      record in file order, writes it to `{id}.fasta` unless that file exists
      and advances the progress bar either way. */
  method BreakProteinsIntoFastaFiles(lines: seq<string>, parsed: seq<SequenceRecord>, dir: OutputDirectory)
    returns (progress: ProgressBar)
    modifies dir
    ensures fresh(progress)
    ensures progress.total == HeaderCount(lines) && progress.n == |parsed|
    ensures dir.files == Split(old(dir.files), parsed)
    ensures dir.writeLog == old(dir.writeLog) + Writes(old(dir.files), parsed)
  {
    var sequences := CountHeaderLines(lines);
    progress := new ProgressBar(sequences);
    for i := 0 to |parsed|
      invariant progress.total == sequences && progress.n == i
      invariant dir.files == Split(old(dir.files), parsed[..i])
      invariant dir.writeLog == old(dir.writeLog) + Writes(old(dir.files), parsed[..i])
    {
      assert parsed[..i + 1][..i] == parsed[..i];
      var name := FileName(parsed[i].id);
      if !dir.Exists(name) {
        dir.Write(name, FastaContent([parsed[i]]));
      }
      progress.Update();
    }
    assert parsed[..|parsed|] == parsed;
  }
}

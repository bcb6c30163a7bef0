/** Sequence records as the FASTA parser hands them over, and the content of a
    FASTA file written from a list of records. Parsing and serialisation
    themselves belong to the sequence library and are not modelled. */
module Fasta {

  /** One parsed FASTA record: identifier, free-text description, residues. */
  datatype SequenceRecord = SequenceRecord(id: string, description: string, residues: string)

  /** What writing a list of records in FASTA format puts into a file. The text
      itself is the library's business; the model keeps the records it was
      written from. */
  datatype FastaContent = FastaContent(records: seq<SequenceRecord>)
}

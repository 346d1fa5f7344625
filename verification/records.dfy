/** The plain records of the k-mer index header. They carry no behaviour of their
    own; they are declared so that the positional record has its context. */
module Records {
  import opened FixedWidth

  /** Version of the on-disk index layout. */
  const IndexVersion: nat := 12

  /** Construction-time record: transcript `trid` covers the half-open range
      [start, stop) of a contig, and the contig begins at `pos` within the
      transcript, in sense (`sense == true`) or antisense orientation. */
  datatype TRInfo = TRInfo(trid: uint32, start: uint32, stop: uint32, pos: uint32, sense: bool)

  /** One visit of a transcript to a contig. */
  datatype ContigToTranscript = ContigToTranscript(trid: int32, pos: int32, sense: bool)

  /** A unitig of the de Bruijn graph: its id, length in k-mers, equivalence
      class, sequence, and every transcript visit. */
  datatype Contig = Contig(id: int32, length: int32, ec: int32, sequence: string,
                           transcripts: seq<ContigToTranscript>)

  /** Contig id to equivalence-class id, and contig id to contig. */
  datatype DBGraph = DBGraph(ecs: seq<int32>, contigs: seq<Contig>)
}

/** The chunk-assembly loop: every loaded document is split with the default
    window (1000 characters, 20 of overlap) and piece i of it becomes the
    record `{"id": "<document id>_chunk<i+1>", "text": piece}`. */
module Assembly {
  import opened Strings
  import Splitter
  import opened Loader

  datatype Chunk = Chunk(id: string, text: string)

  const ChunkTag: string := "_chunk"

  /** The id `f"{document_id}_chunk{n}"`. */
  function ChunkId(documentId: string, n: nat): string
  {
    documentId + ChunkTag + NatToDecimal(n)
  }

  /** Reads a chunk id back: the part before the last '_' is the document id,
      and the part after it must be "chunk" followed by a decimal number. */
  function ParseChunkId(id: string): Option<(string, nat)>
  {
    match LastIndexOf(id, '_')
    case None => None
    case Some(k) =>
      var tag := id[k + 1..];
      if 5 < |tag| && tag[..5] == "chunk" && IsDigits(tag[5..])
      then Some((id[..k], ParseDecimal(tag[5..])))
      else None
  }

  /** The decimal index holds no '_', so the last '_' of a chunk id is the one
      the tag starts with, and the id reads back as its document id and index. */
  lemma ChunkIdRoundTrip(documentId: string, n: nat)
    ensures ParseChunkId(ChunkId(documentId, n)) == Some((documentId, n))
  {
    var id, digits := ChunkId(documentId, n), NatToDecimal(n);
    var k := |documentId|;
    assert id[k] == '_';
    assert id[k + 1..] == "chunk" + digits;
    assert forall j :: k < j < |id| ==> id[j] != '_' by {
      forall j | k < j < |id|
        ensures id[j] != '_'
      {
        if j > k + 5 {
          assert id[j] == digits[j - k - 6];
        }
      }
    }
    assert LastIndexOf(id, '_') == Some(k);
    assert id[..k] == documentId;
    DecimalRoundTrip(n);
  }

  /** Different documents or different indexes never share a chunk id. */
  lemma ChunkIdInjective(a: string, m: nat, b: string, n: nat)
    ensures ChunkId(a, m) == ChunkId(b, n) <==> a == b && m == n
  {
    ChunkIdRoundTrip(a, m);
    ChunkIdRoundTrip(b, n);
  }

  /** The records of one document: piece i gets the 1-based index i + 1. */
  function LabelChunks(documentId: string, pieces: seq<string>): seq<Chunk>
  {
    seq(|pieces|, i requires 0 <= i < |pieces| => Chunk(ChunkId(documentId, i + 1), pieces[i]))
  }

  /** The pieces `split_text(doc["text"])` of one document. */
  function Pieces(d: Document): seq<string>
  {
    Splitter.Split(d.text, Splitter.DefaultChunkSize, Splitter.DefaultChunkOverlap)
  }

  /** `chunked_documents` for the documents `documents`. */
  function Assemble(documents: seq<Document>): seq<Chunk>
  {
    if documents == [] then []
    else LabelChunks(documents[0].id, Pieces(documents[0])) + Assemble(documents[1..])
  }

  /** The assembly loop. */
  method AssembleChunks(documents: seq<Document>) returns (chunked: seq<Chunk>)
    ensures chunked == Assemble(documents)
  {
    chunked := [];
    for d := 0 to |documents|
      invariant chunked == Assemble(documents[..d])
    {
      var doc := documents[d];
      var pieces := Splitter.SplitText(doc.text, Splitter.DefaultChunkSize, Splitter.DefaultChunkOverlap);
      ghost var before := chunked;
      for i := 0 to |pieces|
        invariant chunked == before + LabelChunks(doc.id, pieces[..i])
      {
        chunked := chunked + [Chunk(ChunkId(doc.id, i + 1), pieces[i])];
        LabelChunksStep(doc.id, pieces, i);
      }
      assert pieces[..|pieces|] == pieces;
      AssembleStep(documents, d);
    }
    assert documents[..|documents|] == documents;
  }

  /** Labelling one more piece adds its record at the end. */
  lemma LabelChunksStep(documentId: string, pieces: seq<string>, i: nat)
    requires i < |pieces|
    ensures LabelChunks(documentId, pieces[..i + 1])
            == LabelChunks(documentId, pieces[..i]) + [Chunk(ChunkId(documentId, i + 1), pieces[i])]
  {
  }

  /** Assembling one more document adds its labelled pieces at the end. */
  lemma AssembleStep(documents: seq<Document>, d: nat)
    requires d < |documents|
    ensures Assemble(documents[..d + 1])
            == Assemble(documents[..d]) + LabelChunks(documents[d].id, Pieces(documents[d]))
  {
    var doc := documents[d];
    assert documents[..d + 1] == documents[..d] + [doc];
    AssembleAppend(documents[..d], [doc]);
    assert [doc][1..] == [];
  }

  /** Document order is kept: assembling a concatenation concatenates the parts. */
  lemma {:induction false} AssembleAppend(a: seq<Document>, b: seq<Document>)
    ensures Assemble(a + b) == Assemble(a) + Assemble(b)
  {
    if a == [] {
      assert a + b == b;
    } else {
      assert (a + b)[1..] == a[1..] + b;
      AssembleAppend(a[1..], b);
    }
  }

  /** One record per piece: the assembly has as many records as all documents
      have pieces. */
  lemma {:induction false} AssembleLength(documents: seq<Document>)
    ensures |Assemble(documents)| == SumLengths(seq(|documents|, k requires 0 <= k < |documents| => Pieces(documents[k])))
  {
    var all := seq(|documents|, k requires 0 <= k < |documents| => Pieces(documents[k]));
    if documents != [] {
      AssembleLength(documents[1..]);
      assert all[1..] == seq(|documents[1..]|, k requires 0 <= k < |documents[1..]| => Pieces(documents[1..][k]));
    }
  }

  /** Piece i of document k is the record right after the records of the
      documents before k and the first i pieces of k; it carries the piece as
      its text and "<id of k>_chunk<i+1>" as its id. */
  lemma AssembleAt(documents: seq<Document>, k: nat, i: nat)
    requires k < |documents| && i < |Pieces(documents[k])|
    ensures |Assemble(documents[..k])| + i < |Assemble(documents)|
    ensures Assemble(documents)[|Assemble(documents[..k])| + i]
            == Chunk(ChunkId(documents[k].id, i + 1), Pieces(documents[k])[i])
  {
    var d := documents[k];
    assert documents == documents[..k] + ([d] + documents[k + 1..]);
    AssembleAppend(documents[..k], [d] + documents[k + 1..]);
    AssembleAppend([d], documents[k + 1..]);
    assert [d][1..] == [];
  }

  /** Every id of one document's chunks reads back as that document's id and
      the chunk's 1-based index. */
  lemma LabelledIdsParse(documentId: string, pieces: seq<string>)
    ensures forall i :: 0 <= i < |LabelChunks(documentId, pieces)|
              ==> ParseChunkId(LabelChunks(documentId, pieces)[i].id) == Some((documentId, i + 1))
  {
    var first := LabelChunks(documentId, pieces);
    forall i | 0 <= i < |first|
      ensures ParseChunkId(first[i].id) == Some((documentId, i + 1))
    {
      ChunkIdRoundTrip(documentId, i + 1);
    }
  }

  /** Every assembled id reads back as the id of one of the documents and a
      1-based index. */
  lemma {:induction false} AssembledIdsParse(documents: seq<Document>)
    ensures forall c :: c in Assemble(documents) ==>
              && ParseChunkId(c.id).Some?
              && ParseChunkId(c.id).value.0 in IdSet(documents)
              && ParseChunkId(c.id).value.1 >= 1
  {
    if documents != [] {
      var d, rest := documents[0], documents[1..];
      var first := LabelChunks(d.id, Pieces(d));
      assert Assemble(documents) == first + Assemble(rest);
      AssembledIdsParse(rest);
      LabelledIdsParse(d.id, Pieces(d));
      forall c | c in Assemble(documents)
        ensures && ParseChunkId(c.id).Some?
                && ParseChunkId(c.id).value.0 in IdSet(documents)
                && ParseChunkId(c.id).value.1 >= 1
      {
        if c in first {
          var i :| 0 <= i < |first| && first[i] == c;
          assert ParseChunkId(c.id) == Some((d.id, i + 1));
          assert d in documents;
        } else {
          assert c in Assemble(rest);
          var x := ParseChunkId(c.id).value.0;
          var e :| e in rest && e.id == x;
          assert e in documents;
        }
      }
    }
  }

  predicate DistinctChunkIds(chunks: seq<Chunk>)
  {
    forall i, j :: 0 <= i < j < |chunks| ==> chunks[i].id != chunks[j].id
  }

  /** Distinct document ids give pairwise distinct chunk ids. */
  lemma {:induction false} AssembledIdsDistinct(documents: seq<Document>)
    requires DistinctIds(documents)
    ensures DistinctChunkIds(Assemble(documents))
  {
    if documents != [] {
      var d, rest := documents[0], documents[1..];
      AssembledIdsDistinct(rest);
      FirstIdNotInRest(documents);
      LabelledIdsDistinct(d.id, Pieces(d));
      LabelledIdsApart(d.id, Pieces(d), rest);
      DistinctChunkIdsAppend(LabelChunks(d.id, Pieces(d)), Assemble(rest));
    }
  }

  /** Within one document the 1-based indexes tell the chunk ids apart. */
  lemma LabelledIdsDistinct(documentId: string, pieces: seq<string>)
    ensures DistinctChunkIds(LabelChunks(documentId, pieces))
  {
    var first := LabelChunks(documentId, pieces);
    forall i, j | 0 <= i < j < |first|
      ensures first[i].id != first[j].id
    {
      ChunkIdInjective(documentId, i + 1, documentId, j + 1);
    }
  }

  /** The chunk ids of a document are not those of other documents. */
  lemma LabelledIdsApart(documentId: string, pieces: seq<string>, rest: seq<Document>)
    requires documentId !in IdSet(rest)
    ensures forall i, j :: 0 <= i < |LabelChunks(documentId, pieces)| && 0 <= j < |Assemble(rest)|
              ==> LabelChunks(documentId, pieces)[i].id != Assemble(rest)[j].id
  {
    var first, tail := LabelChunks(documentId, pieces), Assemble(rest);
    AssembledIdsParse(rest);
    forall i, j | 0 <= i < |first| && 0 <= j < |tail|
      ensures first[i].id != tail[j].id
    {
      var c := tail[j];
      assert c in tail;
      var parsed := ParseChunkId(c.id);
      assert parsed.Some? && parsed.value.0 in IdSet(rest);
      assert first[i].id == ChunkId(documentId, i + 1);
      ChunkIdRoundTrip(documentId, i + 1);
    }
  }

  lemma FirstIdNotInRest(documents: seq<Document>)
    requires documents != [] && DistinctIds(documents)
    ensures documents[0].id !in IdSet(documents[1..])
  {
    forall e | e in documents[1..]
      ensures e.id != documents[0].id
    {
      var k :| 0 <= k < |documents[1..]| && documents[1..][k] == e;
      assert documents[k + 1] == e;
    }
  }

  lemma DistinctChunkIdsAppend(a: seq<Chunk>, b: seq<Chunk>)
    requires DistinctChunkIds(a) && DistinctChunkIds(b)
    requires forall i, j :: 0 <= i < |a| && 0 <= j < |b| ==> a[i].id != b[j].id
    ensures DistinctChunkIds(a + b)
  {
    var ab := a + b;
    forall i, j | 0 <= i < j < |ab|
      ensures ab[i].id != ab[j].id
    {
      if j < |a| {
      } else if i < |a| {
        assert ab[j] == b[j - |a|];
      } else {
        assert ab[i] == b[i - |a|] && ab[j] == b[j - |a|];
      }
    }
  }

  /** Loading a listing that names each file once and assembling its
      documents gives pairwise distinct chunk ids. */
  lemma PipelineIdsDistinct(listing: seq<DirEntry>)
    requires DistinctNames(listing)
    ensures DistinctChunkIds(Assemble(TxtDocuments(listing)))
  {
    TxtDocumentsIdsDistinct(listing);
    AssembledIdsDistinct(TxtDocuments(listing));
  }
}

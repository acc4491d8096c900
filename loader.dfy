/** `load_documents_from_directory`: walks a directory listing and keeps one
    document per file whose name ends with ".txt", with the file's name as its
    id and the file's contents as its text. The directory listing is given as
    an ordered sequence of entries; reading the file system is not modelled. */
module Loader {
  import opened Strings

  /** One file of the listing: its name and what reading it returns. */
  datatype DirEntry = DirEntry(name: string, contents: string)

  /** The record `{"id": filename, "text": contents}`. */
  datatype Document = Document(id: string, text: string)

  const TextSuffix: string := ".txt"

  predicate IsTextFile(e: DirEntry)
  {
    EndsWith(e.name, TextSuffix)
  }

  /** What one pass of the loop adds: the entry's document, or nothing. */
  function LoadEntry(e: DirEntry): seq<Document>
  {
    if IsTextFile(e) then [Document(e.name, e.contents)] else []
  }

  /** The documents the loader returns for `listing`. */
  function TxtDocuments(listing: seq<DirEntry>): seq<Document>
  {
    if listing == [] then [] else LoadEntry(listing[0]) + TxtDocuments(listing[1..])
  }

  /** The loader's loop, over an abstract listing. */
  method LoadDocuments(listing: seq<DirEntry>) returns (documents: seq<Document>)
    ensures documents == TxtDocuments(listing)
  {
    documents := [];
    for k := 0 to |listing|
      invariant documents == TxtDocuments(listing[..k])
    {
      var entry := listing[k];
      if IsTextFile(entry) {
        documents := documents + [Document(entry.name, entry.contents)];
      }
      assert listing[..k + 1] == listing[..k] + [entry];
      TxtDocumentsAppend(listing[..k], [entry]);
      assert [entry][1..] == [];
    }
    assert listing[..|listing|] == listing;
  }

  /** The filter keeps listing order: filtering a concatenation concatenates
      the filtered parts. */
  lemma {:induction false} TxtDocumentsAppend(a: seq<DirEntry>, b: seq<DirEntry>)
    ensures TxtDocuments(a + b) == TxtDocuments(a) + TxtDocuments(b)
  {
    if a == [] {
      assert a + b == b;
    } else {
      var head, ab := LoadEntry(a[0]), a + b;
      assert ab[0] == a[0] && ab[1..] == a[1..] + b;
      assert TxtDocuments(ab) == head + TxtDocuments(a[1..] + b);
      TxtDocumentsAppend(a[1..], b);
      assert head + (TxtDocuments(a[1..]) + TxtDocuments(b))
             == (head + TxtDocuments(a[1..])) + TxtDocuments(b);
    }
  }

  /** A document is loaded exactly when the listing holds a ".txt" entry with
      that name and those contents. */
  lemma {:induction false} TxtDocumentsMembership(listing: seq<DirEntry>, d: Document)
    ensures d in TxtDocuments(listing)
            <==> EndsWith(d.id, TextSuffix) && DirEntry(d.id, d.text) in listing
  {
    if listing != [] {
      TxtDocumentsMembership(listing[1..], d);
      assert listing == [listing[0]] + listing[1..];
    }
  }

  /** The ids of a sequence of documents. */
  function IdSet(documents: seq<Document>): set<string>
  {
    set d | d in documents :: d.id
  }

  predicate DistinctIds(documents: seq<Document>)
  {
    forall i, j :: 0 <= i < j < |documents| ==> documents[i].id != documents[j].id
  }

  /** A directory names each file once. */
  predicate DistinctNames(listing: seq<DirEntry>)
  {
    forall i, j :: 0 <= i < j < |listing| ==> listing[i].name != listing[j].name
  }

  /** Every loaded id is the name of some ".txt" entry of the listing. */
  lemma {:induction false} TxtDocumentsIdsFromNames(listing: seq<DirEntry>, x: string)
    requires x in IdSet(TxtDocuments(listing))
    ensures exists j :: 0 <= j < |listing| && listing[j].name == x
  {
    var d :| d in TxtDocuments(listing) && d.id == x;
    TxtDocumentsMembership(listing, d);
    var j :| 0 <= j < |listing| && listing[j] == DirEntry(x, d.text);
  }

  /** A listing that names each file once gives documents with distinct ids. */
  lemma {:induction false} TxtDocumentsIdsDistinct(listing: seq<DirEntry>)
    requires DistinctNames(listing)
    ensures DistinctIds(TxtDocuments(listing))
  {
    if listing != [] {
      var e, rest := listing[0], listing[1..];
      TxtDocumentsIdsDistinct(rest);
      var tail := TxtDocuments(rest);
      if IsTextFile(e) {
        var docs := TxtDocuments(listing);
        assert docs == [Document(e.name, e.contents)] + tail;
        forall j | 0 <= j < |tail|
          ensures tail[j].id != e.name
        {
          assert tail[j] in tail;
          TxtDocumentsIdsFromNames(rest, tail[j].id);
        }
      }
    }
  }
}

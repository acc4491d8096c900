/** The post-processing of `query_documents`: the vector store answers with
    one ranked list of matching texts per query text (`results["documents"]`),
    and the function flattens those lists into one list, keeping their order.
    The query itself (ranking, the `n_results` bound) belongs to the store and
    is not modelled. */
module Retrieval {
  import opened Strings

  /** `[doc for sublist in documents for doc in sublist]`. */
  function RelevantChunks(documents: seq<seq<string>>): seq<string>
  {
    if documents == [] then [] else documents[0] + RelevantChunks(documents[1..])
  }

  /** Flattening a concatenation of groups concatenates their flattenings. */
  lemma {:induction false} RelevantChunksAppend(a: seq<seq<string>>, b: seq<seq<string>>)
    ensures RelevantChunks(a + b) == RelevantChunks(a) + RelevantChunks(b)
  {
    if a == [] {
      assert a + b == b;
    } else {
      assert (a + b)[1..] == a[1..] + b;
      RelevantChunksAppend(a[1..], b);
    }
  }

  /** A single query's ranked list comes back unchanged, closest match first. */
  lemma RelevantChunksSingleQuery(ranked: seq<string>)
    ensures RelevantChunks([ranked]) == ranked
  {
    assert [ranked][1..] == [];
  }

  /** The result holds as many texts as all groups together. */
  lemma {:induction false} RelevantChunksLength(documents: seq<seq<string>>)
    ensures |RelevantChunks(documents)| == SumLengths(documents)
  {
    if documents != [] {
      RelevantChunksLength(documents[1..]);
    }
  }

  /** The result is empty exactly when every group is empty. */
  lemma {:induction false} RelevantChunksEmpty(documents: seq<seq<string>>)
    ensures RelevantChunks(documents) == [] <==> forall i :: 0 <= i < |documents| ==> documents[i] == []
  {
    if documents != [] {
      RelevantChunksEmpty(documents[1..]);
      assert forall i :: 1 <= i < |documents| ==> documents[i] == documents[1..][i - 1];
    }
  }

  /** A text is in the result exactly when it is in one of the groups. */
  lemma {:induction false} RelevantChunksMembership(documents: seq<seq<string>>, x: string)
    ensures x in RelevantChunks(documents) <==> exists i :: 0 <= i < |documents| && x in documents[i]
  {
    if documents != [] {
      RelevantChunksMembership(documents[1..], x);
      if x in documents[0] {
        assert 0 < |documents| && x in documents[0];
      }
      if exists i :: 1 <= i < |documents| && x in documents[i] {
        var i :| 1 <= i < |documents| && x in documents[i];
        assert x in documents[1..][i - 1];
      }
    }
  }

  /** When the store returns at most k texts per query, the result holds at
      most k texts per query. */
  lemma {:induction false} RelevantChunksBound(documents: seq<seq<string>>, k: nat)
    requires forall i :: 0 <= i < |documents| ==> |documents[i]| <= k
    ensures |RelevantChunks(documents)| <= k * |documents|
  {
    if documents != [] {
      RelevantChunksBound(documents[1..], k);
      assert k * |documents| == k + k * |documents[1..]|;
    }
  }
}

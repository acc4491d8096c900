# Chunking and prompt assembly of a retrieval-augmented QA script

This project models the logic that `chat_1.py` writes itself, leaving out the
parts that call external services. The script loads the `.txt` files of a
directory, cuts every file into overlapping fixed-size chunks, and gives each
chunk the id `<filename>_chunk<n>`. It embeds and stores the chunks in a vector
store, asks the store for the chunks closest to a question, flattens what the
store returns, and builds a prompt and a two-message chat request around the
question.

Modules (one per component, all strings are `seq<char>`):

- `Strings` (strings.dfy): the Python primitives the script uses: `str.endswith`,
  `str.join` and `str(n)` for a natural number. It also holds two things the
  script never does: finding the last index of a character, and reading a
  decimal string back as a number. They exist only to read chunk ids back
  and so prove that the ids are unique.
- `Splitter` (splitter.dfy): `split_text`. The method `SplitText` is the loop
  itself. It is proved equal to the recursive function `Split`, and the lemmas
  prove the properties of `Split`.
- `Loader` (loader.dfy): the `.txt` filter of `load_documents_from_directory`.
  It works over an ordered listing of `(name, contents)` entries, not over the
  file system.
- `Assembly` (assembly.dfy): the loop that splits every document and labels its
  chunks. It also reads a chunk id back into (document id, index), which
  proves that the ids are unique.
- `Retrieval` (retrieval.dfy): the flattening of `results["documents"]` in
  `query_documents`.
- `Prompt` (prompt.dfy): the context, the prompt and the message list of
  `generate_response`.

How the splitter behaves (the model follows the code):

- With size S and overlap O, the cursor moves by S - O on each pass. Text of
  length n gives ceil(n / (S - O)) chunks.
- Non-empty text gives a single chunk only when n ≤ S - O. So with the
  defaults 1000/20, a text of exactly 1000 characters gives two chunks: [0, 1000)
  and [980, 1000). The second lies wholly inside the first.
- The last chunk is not the only one that can be shorter than S. With the
  defaults, a 990-character text gives [0, 990) and [980, 990).
- The code has no guard for O ≥ S. Then it loops forever on non-empty text,
  while empty text gives `[]` because the loop test fails at once. The model
  makes `ValidParams` (0 < S and O < S) a precondition; the only call site
  uses the defaults 1000/20, which meet it. A negative overlap terminates in
  the code (the chunks then leave gaps), so the model allows it. Only the
  round trip, the overlap lemma and the whole-text clause of `SplitSingle` need
  O ≥ 0. With a negative overlap, a text longer than S but no longer than S - O
  gives the single chunk `text[0:S]`.

## Model

| member | source | states |
|---|---|---|
| `Splitter.Split` | chat_1.py:72-78 | defined as the chunks the loop emits from cursor 0: the slice `text[start:start + size]`, then the chunks from `start + size - overlap`, until the cursor passes the end; no contract of its own, see `SplitText` and the lemmas below |
| `Splitter.SplitText` | chat_1.py:71-78 | the loop returns exactly `Split(text, size, overlap)`, and as many chunks as ceil(len(text) / (size - overlap)); it terminates whenever 0 < size and overlap < size |
| `Splitter.SplitCount` | chat_1.py:72-78 | the splitter returns ceil(len(text) / (size - overlap)) chunks, and none exactly when the text is empty |
| `Splitter.SplitChunks` | chat_1.py:73-77 | chunk i is `text[start:start + size]`, where start is the loop's i-th cursor position; start lies inside the text; every chunk is non-empty and at most `size` long |
| `Splitter.ChunkStartIsProduct` | chat_1.py:75-77 | the loop's i-th cursor position is i * (size - overlap) |
| `Splitter.SplitOverlap` | chat_1.py:75-77 | with overlap ≥ 0, every chunk except the last is at least size - overlap long; after its first size - overlap characters it equals the first min(overlap, length of the next chunk) characters of the next chunk |
| `Splitter.SplitSingle` | chat_1.py:74-78 | non-empty text gives exactly one chunk if and only if its length is at most size - overlap; with overlap ≥ 0 that chunk is the whole text |
| `Splitter.DefaultSplitExamples` | chat_1.py:71-78 | with the defaults 1000/20, a 1000-character text gives `[text, text[980:]]` and a 1050-character text gives `[text[:1000], text[980:]]` |
| `Splitter.SplitRoundTrip` | chat_1.py:73-78 | with 0 ≤ overlap < size, the first chunk followed by every later chunk with its first `overlap` characters dropped is the original text |
| `Splitter.ChunkCountStep` | chat_1.py:74-77 | a non-empty remainder of m characters takes one chunk plus the chunks of the remaining m - (size - overlap) characters (the ceiling recurrence behind the count) |
| `Loader.TxtDocuments` | chat_1.py:61-66 | defined as, for each entry in listing order, `{"id": name, "text": contents}` when the name ends in ".txt" and nothing otherwise; no contract of its own, see `LoadDocuments` and the lemmas below |
| `Strings.EndsWith` | chat_1.py:62 | defined as Python's `s.endswith(suffix)`: the suffix is no longer than s and equals its last characters; no contract of its own, see `Loader.TxtDocumentsMembership` |
| `Loader.LoadDocuments` | chat_1.py:58-67 | the loop over the listing returns exactly `TxtDocuments(listing)` |
| `Loader.TxtDocumentsAppend` | chat_1.py:61-66 | the filter keeps listing order: filtering two listings one after the other gives the two results one after the other |
| `Loader.TxtDocumentsMembership` | chat_1.py:62-66 | a document is returned exactly when the listing holds an entry whose name ends in ".txt", with the document's id as its name and the document's text as its contents |
| `Loader.TxtDocumentsIdsFromNames` | chat_1.py:61-66 | every returned id is the name of an entry of the listing |
| `Loader.TxtDocumentsIdsDistinct` | chat_1.py:61-66 | a listing that names each file once gives documents with pairwise distinct ids |
| `Assembly.ChunkId` | chat_1.py:96 | defined as the f-string `f"{doc['id']}_chunk{i+1}"`: the document id, "_chunk", and the decimal digits of the index; no contract of its own, see `ChunkIdRoundTrip` and `ChunkIdInjective` |
| `Strings.NatToDecimal` | chat_1.py:96 | `str(n)` is a non-empty string of decimal digits, starts with '0' only for 0, and has one digit exactly when n < 10 |
| `Strings.DecimalRoundTrip` | chat_1.py:96 | reading `str(n)` back as a decimal number gives n |
| `Strings.LastIndexOf` | chat_1.py:96 | the result is the position of the last occurrence of the character, and None exactly when the character does not occur (the script never searches like this; it is used only to read the ids of line 96 back) |
| `Assembly.Assemble` | chat_1.py:91-96 | defined as, for each document in order, its chunks labelled `<id>_chunk<i+1>`; no contract of its own, see `AssembleChunks` and the lemmas below |
| `Assembly.AssembleChunks` | chat_1.py:91-96 | the nested loops return exactly `Assemble(documents)`, splitting each document with the defaults 1000/20 |
| `Assembly.AssembleAppend` | chat_1.py:92-96 | document order is kept: assembling two lists of documents one after the other gives the two results one after the other |
| `Assembly.AssembleLength` | chat_1.py:93-96 | the result has one record per chunk: its length is the total number of chunks of all documents |
| `Assembly.AssembleAt` | chat_1.py:92-96 | chunk i of document k sits right after the records of documents 0..k-1 and the first i chunks of k; its text is that chunk and its id is `<id of k>_chunk<i+1>` |
| `Assembly.ChunkIdRoundTrip` | chat_1.py:96 | cutting the id `<id>_chunk<n>` at its last '_' gives back the document id and n, because the decimal index holds no '_' |
| `Assembly.ChunkIdInjective` | chat_1.py:96 | two chunk ids are equal if and only if they have the same document id and the same index |
| `Assembly.LabelledIdsParse` | chat_1.py:95-96 | the id of chunk i of a document reads back as that document's id and the 1-based index i + 1 |
| `Assembly.AssembledIdsParse` | chat_1.py:91-96 | every assembled id reads back as the id of one of the documents and an index ≥ 1 |
| `Assembly.LabelledIdsDistinct` | chat_1.py:95-96 | the chunks of one document have pairwise distinct ids |
| `Assembly.LabelledIdsApart` | chat_1.py:92-96 | no chunk id of a document equals a chunk id of the documents after it when its id is not theirs |
| `Assembly.AssembledIdsDistinct` | chat_1.py:91-96 | documents with pairwise distinct ids give chunks with pairwise distinct ids |
| `Assembly.PipelineIdsDistinct` | chat_1.py:61-96 | loading a listing that names each file once and assembling its documents gives pairwise distinct chunk ids |
| `Retrieval.RelevantChunks` | chat_1.py:125 | defined as the comprehension `[doc for sublist in documents for doc in sublist]`, one group after the other; no contract of its own, see the lemmas below |
| `Retrieval.RelevantChunksAppend` | chat_1.py:125 | flattening keeps order: flattening two lists of result groups one after the other gives the two results one after the other |
| `Retrieval.RelevantChunksSingleQuery` | chat_1.py:122-125 | for a single query the flattened result is that query's ranked list, unchanged |
| `Retrieval.RelevantChunksLength` | chat_1.py:125 | the result's length is the sum of the groups' lengths |
| `Retrieval.RelevantChunksEmpty` | chat_1.py:125 | the result is empty exactly when every group is empty |
| `Retrieval.RelevantChunksMembership` | chat_1.py:125 | a text is in the result exactly when it is in one of the groups |
| `Retrieval.RelevantChunksBound` | chat_1.py:122-125 | if the store returns at most k texts per query, the result has at most k texts per query |
| `Strings.Join` | chat_1.py:137 | defined as Python's `sep.join(parts)`: "" for no parts, the part itself for one, otherwise the first part, sep and the join of the rest; no contract of its own, see `JoinAppend` and `JoinLength` |
| `Prompt.BuildContext` | chat_1.py:137 | defined as `"\n\n".join(relevant_chunks)`; no contract of its own, see `ContextCases` and `ContextLength` |
| `Prompt.BuildPrompt` | chat_1.py:138-143 | defined as the instruction text, "\n\nContext:\n", the context, "\n\nQuestion:\n" and the question; no contract of its own, see `PromptLayout` and `NoMatchesPrompt` |
| `Prompt.BuildMessages` | chat_1.py:147-156 | defined as `[system: prompt, user: question]`; no contract of its own, see `MessagesLayout` |
| `Strings.JoinAppend` | chat_1.py:137 | joining two non-empty lists one after the other gives the two joins with one separator between them |
| `Strings.JoinLength` | chat_1.py:137 | a join of non-empty parts is as long as all parts plus one separator between each two |
| `Prompt.ContextCases` | chat_1.py:137 | no chunks give the empty context, one chunk gives that chunk, and each further chunk comes after "\n\n" |
| `Prompt.ContextLength` | chat_1.py:137 | the context has every chunk's characters plus two per separator |
| `Prompt.PromptLayout` | chat_1.py:138-143 | the prompt starts with the fixed instruction and "\n\nContext:\n", ends with "\n\nQuestion:\n" and the question, and has the context exactly in between |
| `Prompt.MessagesLayout` | chat_1.py:147-156 | the request is a system message followed by a user message; the user message is the question; the system message ends with the question and carries the context |
| `Prompt.NoMatchesPrompt` | chat_1.py:122-143 | when every result group is empty, the flattened list is empty and the prompt is the full template around an empty context |

## Left out

- The embedding function `OllamaEmbeddingFunction` (chat_1.py:20-42) is an HTTP call to a local server that returns floating-point vectors. On any failure it prints and returns `[]`. This is network I/O and floating point.
- The embedding loop (chat_1.py:103-105) and the upsert loop (chat_1.py:112-116) only call the embedding service and the vector store, and the store's upsert semantics are not visible here.
- `collection.query` (chat_1.py:122): its nearest-neighbour ranking and its `n_results` bound belong to the vector store. Only the flattening of its answer is modelled. `Retrieval.RelevantChunksBound` assumes the per-query bound; it does not prove it.
- The chat-completion call and reading `response.choices[0].message` (chat_1.py:145-160) are a foreign API. Only the `messages` argument is modelled.
- The file system (chat_1.py:61-66): `os.listdir`, its listing order, `open` and `read` are not modelled. The listing is a sequence of (name, contents) pairs given in some order. A file whose UTF-8 decoding fails raises an exception and stops the whole load; the model has no read errors.
- Module-level setup (chat_1.py:11-55), the hard-coded directory and question (chat_1.py:82-83, 166-170) and every `print` are left out.
- chat.py is not part of this model. It makes one fixed chat-completion call and prints the reply.
- Splitter.SplitText: calls outside `ValidParams` are not modelled. With chunk_overlap ≥ chunk_size the source loops forever on non-empty text and returns `[]` for empty text. With chunk_size == 0 the loop ends only for a negative overlap; every slice is then `text[start:start]` with start ≥ 0, so the result is ceil(len(text) / -overlap) empty strings. With chunk_size < 0 the end index `start + chunk_size` can be negative, and Python then counts it from the end of the text. Only the defaults 1000/20 are ever used.
- Splitter.SplitText: its contract gives the chunks as `Split(text, size, overlap)` and their count. The per-chunk slice formula is stated by `Splitter.SplitChunks` and not repeated on the method.
- Assembly.AssembleChunks: like the source, it always splits with the defaults 1000/20.
- Prompt.MessagesLayout: the chat API also allows the role "assistant", but the script never sends it, so `Role` has only `System` and `User`.

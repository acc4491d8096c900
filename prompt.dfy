/** The request that `generate_response` sends to the chat-completion service:
    the retrieved chunks are joined into a context block, the context block is
    placed in a fixed instruction template, and the result becomes the system
    message, followed by the question as the user message. The service call
    and the reading of its reply are not modelled. */
module Prompt {
  import opened Strings
  import Retrieval

  const Instruction: string :=
    "You are an assistant for question-answering tasks. Use the following pieces of "
    + "retrieved context to answer the question. If you don't know the answer, say that you "
    + "don't know. Use three sentences maximum and keep the answer concise."
  const ContextHeader: string := "\n\nContext:\n"
  const QuestionHeader: string := "\n\nQuestion:\n"
  const ChunkSeparator: string := "\n\n"

  /** `"\n\n".join(relevant_chunks)`. */
  function BuildContext(chunks: seq<string>): string
  {
    Join(ChunkSeparator, chunks)
  }

  /** The prompt: instruction, context header, context, question header, question. */
  function BuildPrompt(question: string, chunks: seq<string>): string
  {
    Instruction + ContextHeader + BuildContext(chunks) + QuestionHeader + question
  }

  datatype Role = System | User

  datatype Message = Message(role: Role, content: string)

  /** The `messages` argument of the chat-completion call. */
  function BuildMessages(question: string, chunks: seq<string>): seq<Message>
  {
    [Message(System, BuildPrompt(question, chunks)), Message(User, question)]
  }

  /** No chunks give the empty context, one chunk gives that chunk, and each
      further chunk is added after a blank line. */
  lemma ContextCases(chunks: seq<string>, c: string)
    ensures BuildContext([]) == ""
    ensures BuildContext([c]) == c
    ensures chunks != [] ==> BuildContext(chunks + [c]) == BuildContext(chunks) + "\n\n" + c
  {
    if chunks != [] {
      JoinAppend(ChunkSeparator, chunks, [c]);
    }
  }

  /** The context holds every chunk's characters and two per separator. */
  lemma ContextLength(chunks: seq<string>)
    requires chunks != []
    ensures |BuildContext(chunks)| == SumLengths(chunks) + 2 * (|chunks| - 1)
  {
    JoinLength(ChunkSeparator, chunks);
  }

  /** The prompt starts with the instruction and the context header, ends with
      the question header and the question, and the context lies exactly in
      between, so it can be cut back out of the prompt. */
  lemma PromptLayout(question: string, chunks: seq<string>)
    ensures var p, pre, post := BuildPrompt(question, chunks), Instruction + ContextHeader, QuestionHeader + question;
      && |p| == |pre| + |BuildContext(chunks)| + |post|
      && p[..|pre|] == pre
      && p[|p| - |post|..] == post
      && p[|pre|..|p| - |post|] == BuildContext(chunks)
      && EndsWith(p, question)
  {
    var p, pre, post := BuildPrompt(question, chunks), Instruction + ContextHeader, QuestionHeader + question;
    assert p == pre + BuildContext(chunks) + post;
  }

  /** The system message carries the prompt built from the chunks and the user
      message repeats the question, which the system message also ends with. */
  lemma MessagesLayout(question: string, chunks: seq<string>)
    ensures var m := BuildMessages(question, chunks);
      && |m| == 2
      && m[0].role == System && m[1].role == User
      && m[1].content == question
      && EndsWith(m[0].content, question)
      && m[0].content[|Instruction + ContextHeader|..|m[0].content| - |QuestionHeader + question|]
         == BuildContext(chunks)
  {
    PromptLayout(question, chunks);
  }

  /** When the store finds nothing, the context is empty and the prompt is
      still the full template around an empty context. */
  lemma NoMatchesPrompt(question: string, documents: seq<seq<string>>)
    requires forall i :: 0 <= i < |documents| ==> documents[i] == []
    ensures Retrieval.RelevantChunks(documents) == []
    ensures BuildPrompt(question, Retrieval.RelevantChunks(documents))
            == Instruction + ContextHeader + QuestionHeader + question
  {
    Retrieval.RelevantChunksEmpty(documents);
    var pre := Instruction + ContextHeader;
    assert BuildContext([]) == [];
    assert pre + [] == pre;
  }
}

/** What the question button does before calling the model: the guard on the question
    and the stored chunks, then the context made of every chunk, cut to a fixed size. */
module Context {
  import opened Text

  /** `max_context_chars = 30000 * 4`: a rough character budget for the model's input. */
  const MaxContextChars: nat := 30000 * 4

  /** The context sent with the question, and whether it was cut (the truncation warning). */
  datatype Built = Built(context: string, truncated: bool)

  /** `"\n\n".join(chunks)`, cut to its first `MaxContextChars` characters when longer. */
  function BuildContext(chunks: seq<string>): (b: Built)
    ensures b.truncated <==> |Join(Separator, chunks)| > MaxContextChars
    ensures b.context <= Join(Separator, chunks)
    ensures !b.truncated ==> b.context == Join(Separator, chunks)
    ensures b.truncated ==> |b.context| == MaxContextChars
  {
    var joined := Join(Separator, chunks);
    if |joined| > MaxContextChars then Built(joined[..MaxContextChars], true) else Built(joined, false)
  }

  /** Chunks whose lengths and separators fit the budget are sent whole. */
  lemma SmallCollectionIsSentWhole(chunks: seq<string>)
    requires |chunks| > 0 && TotalLength(chunks) + |Separator| * (|chunks| - 1) <= MaxContextChars
    ensures BuildContext(chunks) == Built(Join(Separator, chunks), false)
  {
    JoinLength(Separator, chunks);
  }

  /** The context always starts with the first chunk, or with its first `MaxContextChars`
      characters when that chunk alone is longer. */
  lemma ContextStartsWithFirstChunk(chunks: seq<string>)
    requires |chunks| > 0
    ensures var b := BuildContext(chunks);
      if |chunks[0]| <= MaxContextChars then chunks[0] <= b.context
      else b.context == chunks[0][..MaxContextChars]
  {
    var joined := Join(Separator, chunks);
    JoinStartsWithFirst(Separator, chunks);
    if |joined| > MaxContextChars {
      assert joined[..MaxContextChars] == (if |chunks[0]| <= MaxContextChars then chunks[0] + joined[|chunks[0]|..MaxContextChars] else chunks[0][..MaxContextChars]);
    }
  }

  /** What the question button leads to. */
  datatype Ask =
    | NeedQuestion              // "Veuillez poser une question."
    | NeedDocuments             // "Veuillez d'abord charger et traiter vos documents."
    | Send(built: Built, question: string)

  /** The guard in front of the model call: a blank question is refused first, then an
      empty collection; otherwise the context is built and sent with the question as typed. */
  function Guard(question: string, chunks: seq<string>): (a: Ask)
    ensures a.NeedQuestion? <==> Blank(question)
    ensures a.NeedDocuments? <==> !Blank(question) && chunks == []
    ensures a.Send? ==> a.question == question && a.built == BuildContext(chunks)
  {
    StripBlank(question);
    if Strip(question) == [] then NeedQuestion
    else if chunks == [] then NeedDocuments
    else Send(BuildContext(chunks), question)
  }
}

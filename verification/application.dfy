/** The two buttons of the page and the state they change: the stored chunks, the saves
    made to the document store and the last answer shown. */
module Application {
  import opened Text
  import Chunker
  import Context
  import GeminiClient

  /** The answer shown before any question is asked. */
  const InitialResponse: string := "La réponse de l'IA apparaîtra ici."

  /** Every uploaded file's text, stripped. */
  function StrippedAll(files: seq<string>): (r: seq<string>)
    ensures |r| == |files| && forall k :: 0 <= k < |files| ==> r[k] == Strip(files[k])
  {
    if |files| == 0 then [] else StrippedAll(files[..|files| - 1]) + [Strip(files[|files| - 1])]
  }

  /** `parts` without its leading empty strings. */
  function DropLeadingEmpty(parts: seq<string>): seq<string>
  {
    if |parts| == 0 then []
    else if parts[0] == [] then DropLeadingEmpty(parts[1..])
    else parts
  }

  /** What is left is a suffix that starts with a non-empty string, and everything dropped
      was empty. */
  lemma {:induction false} DropLeadingEmptyShape(parts: seq<string>)
    ensures var r := DropLeadingEmpty(parts);
      |r| <= |parts| && r == parts[|parts| - |r|..]
      && (r != [] ==> r[0] != [])
      && forall k :: 0 <= k < |parts| - |r| ==> parts[k] == []
  {
    if |parts| > 0 && parts[0] == [] {
      DropLeadingEmptyShape(parts[1..]);
      var r := DropLeadingEmpty(parts);
      assert parts[|parts| - |r|..] == parts[1..][|parts| - 1 - |r|..];
      forall k | 0 <= k < |parts| - |r| ensures parts[k] == [] {
        if k > 0 {
          assert parts[k] == parts[1..][k - 1];
        }
      }
    }
  }

  /** The text the upload button hands on: the typed text and then each file, stripped,
      joined with blank lines, starting from the first one that is not empty. A later
      empty file still adds a separator. */
  function Submission(input: string, files: seq<string>): string
  {
    Join(Separator, DropLeadingEmpty([Strip(input)] + StrippedAll(files)))
  }

  /** Dropping leading empties from a list with one more element at the end. */
  lemma {:induction false} DropLeadingEmptySnoc(parts: seq<string>, x: string)
    ensures DropLeadingEmpty(parts + [x])
      == if DropLeadingEmpty(parts) == [] then (if x == [] then [] else [x]) else DropLeadingEmpty(parts) + [x]
  {
    if |parts| > 0 {
      assert (parts + [x])[1..] == parts[1..] + [x];
      if parts[0] == [] {
        DropLeadingEmptySnoc(parts[1..], x);
      }
    } else {
      assert parts + [x] == [x];
      assert [x][1..] == [];
    }
  }

  /** A join of a list whose first element is not empty is not empty. */
  lemma JoinNotEmpty(xs: seq<string>)
    requires xs != [] ==> xs[0] != []
    ensures Join(Separator, xs) == [] <==> xs == []
  {
    if xs != [] {
      JoinStartsWithFirst(Separator, xs);
    }
  }

  /** One more file: a separator and the stripped file after what was gathered, or the
      stripped file alone when nothing was. */
  lemma SubmissionSnoc(input: string, files: seq<string>, file: string)
    ensures var before := Submission(input, files);
      Submission(input, files + [file])
      == if before != [] then before + Separator + Strip(file) else Strip(file)
  {
    var parts := [Strip(input)] + StrippedAll(files);
    assert StrippedAll(files + [file]) == StrippedAll(files) + [Strip(file)] by {
      assert (files + [file])[..|files|] == files;
    }
    assert [Strip(input)] + StrippedAll(files + [file]) == parts + [Strip(file)];
    DropLeadingEmptySnoc(parts, Strip(file));
    var kept := DropLeadingEmpty(parts);
    DropLeadingEmptyShape(parts);
    JoinNotEmpty(kept);
    if kept != [] {
      JoinSnoc(Separator, kept, Strip(file));
    }
  }

  /** The same step, stated on the prefixes the loop walks through. */
  lemma GatherStep(input: string, files: seq<string>, k: nat, before: string, data: string)
    requires k < |files| && before == Submission(input, files[..k]) && data == Strip(files[k])
    ensures Submission(input, files[..k + 1]) == if before != [] then before + Separator + data else data
  {
    assert files[..k + 1] == files[..k] + [files[k]];
    SubmissionSnoc(input, files[..k], files[k]);
  }

  /** Before any file, the typed text alone, stripped. */
  lemma SubmissionOfNoFiles(input: string)
    ensures Submission(input, []) == Strip(input)
  {
    assert [Strip(input)] + StrippedAll([]) == [Strip(input)];
    DropLeadingEmptyShape([Strip(input)]);
    JoinNotEmpty(DropLeadingEmpty([Strip(input)]));
  }

  /** The loop of the upload button: the typed text stripped, then each file's text
      stripped and added after a blank line, or taken alone when nothing came before. */
  method GatherSubmission(input: string, files: seq<string>) returns (combined: string)
    ensures combined == Submission(input, files)
  {
    combined := Strip(input);
    SubmissionOfNoFiles(input);
    assert files[..0] == [];
    var k := 0;
    while k < |files|
      invariant k <= |files| && combined == Submission(input, files[..k])
    {
      var data := Strip(files[k]);
      GatherStep(input, files, k, combined, data);
      if combined != [] {
        combined := combined + Separator + data;
      } else {
        combined := data;
      }
      k := k + 1;
    }
    assert files[..|files|] == files;
  }

  /** Nothing is gathered exactly when the typed text and every file are blank. */
  lemma {:induction false} SubmissionEmptyIffAllBlank(input: string, files: seq<string>)
    ensures Submission(input, files) == [] <==> Blank(input) && forall f <- files :: Blank(f)
  {
    var parts := [Strip(input)] + StrippedAll(files);
    var kept := DropLeadingEmpty(parts);
    DropLeadingEmptyShape(parts);
    JoinNotEmpty(kept);
    StripBlank(input);
    forall f <- files ensures Strip(f) == [] <==> Blank(f) {
      StripBlank(f);
    }
    if kept == [] {
      forall f <- files ensures Blank(f) {
        var k :| 0 <= k < |files| && files[k] == f;
        assert parts[k + 1] == Strip(f);
      }
    } else {
      var j := |parts| - |kept|;
      assert parts[j] != [];
      if j > 0 {
        assert Strip(files[j - 1]) != [];
        assert files[j - 1] in files;
      }
    }
  }

  /** Whatever the button gathers starts with a character that is not whitespace, so the
      blank check of the merge never refuses it. */
  lemma SubmissionIsNotBlank(input: string, files: seq<string>)
    requires Submission(input, files) != []
    ensures !Blank(Submission(input, files))
  {
    var parts := [Strip(input)] + StrippedAll(files);
    var kept := DropLeadingEmpty(parts);
    DropLeadingEmptyShape(parts);
    JoinNotEmpty(kept);
    JoinStartsWithFirst(Separator, kept);
    var j := |parts| - |kept|;
    assert kept[0] == parts[j];
    if j == 0 {
      StripEnds(input);
    } else {
      StripEnds(files[j - 1]);
    }
  }

  /** The stored chunks after a merge: the old chunks joined with blank lines, a blank line,
      the addition, all cut again with the default size and overlap. */
  function Merge(documents: seq<string>, addition: string): (r: seq<string>)
  {
    Chunker.Chunks(Join(Separator, documents) + Separator + addition,
                   Chunker.DefaultChunkSize, Chunker.DefaultOverlap)
  }

  /** Leading whitespace does not change what `Strip` gives. */
  lemma StripAfterSpaces(s: string)
    ensures Strip(Separator + s) == Strip(s)
  {
    assert (Separator + s)[1..] == "\n" + s;
    assert ("\n" + s)[1..] == s;
  }

  /** The first addition to an empty collection, if short, is stored as one stripped chunk. */
  lemma FirstShortAdditionIsOneChunk(addition: string)
    requires !Blank(addition) && |addition| + |Separator| <= Chunker.DefaultChunkSize - Chunker.DefaultOverlap
    ensures Merge([], addition) == [Strip(addition)]
  {
    var combined := Join(Separator, []) + Separator + addition;
    assert combined == Separator + addition;
    Chunker.ShortTextIsOneChunk(combined, Chunker.DefaultChunkSize, Chunker.DefaultOverlap);
    StripAfterSpaces(addition);
    StripBlank(combined);
    StripBlank(addition);
  }

  /** Adding "b" to the collection ["a"] cuts "a\n\nb" again, which is one chunk holding
      both. */
  lemma MergeOfTwoShortTexts()
    ensures Merge(["a"], "b") == ["a\n\nb"]
  {
    var combined := Join(Separator, ["a"]) + Separator + "b";
    assert combined == "a\n\nb";
    Chunker.ShortTextIsOneChunk(combined, Chunker.DefaultChunkSize, Chunker.DefaultOverlap);
    StripTrimmed(combined);
    assert !IsSpace(combined[0]);
  }

  /** The page's state: `st.session_state.processed_documents`, the saves made to the
      document store, and `st.session_state.ai_response`. */
  class Session {
    var documents: seq<string>
    /** Each save writes the whole collection as it is at that moment. */
    var saves: seq<seq<string>>
    var aiResponse: GeminiClient.Json

    /** A fresh page: no chunks, nothing saved, the placeholder answer. */
    constructor()
      ensures documents == [] && saves == [] && aiResponse == GeminiClient.JStr(InitialResponse)
    {
      documents := [];
      saves := [];
      aiResponse := GeminiClient.JStr(InitialResponse);
    }

    /** `process_and_save_new_content(new_content)`: a blank addition is refused and
        nothing changes; otherwise the collection is merged and re-cut, then saved. */
    method ProcessAndSaveNewContent(content: string) returns (accepted: bool)
      modifies this
      ensures accepted <==> !Blank(content)
      ensures !accepted ==> documents == old(documents) && saves == old(saves)
      ensures accepted ==> documents == Merge(old(documents), content) && saves == old(saves) + [documents]
      ensures aiResponse == old(aiResponse)
    {
      StripBlank(content);
      if Strip(content) == [] {
        return false;
      }
      var combined := Join(Separator, documents) + Separator + content;
      var chunks := Chunker.ChunkText(combined, Chunker.DefaultChunkSize, Chunker.DefaultOverlap);
      documents := chunks;
      saves := saves + [documents];
      accepted := true;
    }

    /** The upload button: gather the typed text and the files, then merge them unless
        nothing was gathered. */
    method SubmitDocuments(input: string, files: seq<string>) returns (accepted: bool)
      modifies this
      ensures accepted <==> !(Blank(input) && forall f <- files :: Blank(f))
      ensures !accepted ==> documents == old(documents) && saves == old(saves)
      ensures accepted ==> documents == Merge(old(documents), Submission(input, files))
                           && saves == old(saves) + [documents]
      ensures aiResponse == old(aiResponse)
    {
      var combined := GatherSubmission(input, files);
      SubmissionEmptyIffAllBlank(input, files);
      if combined != [] {
        SubmissionIsNotBlank(input, files);
        accepted := ProcessAndSaveNewContent(combined);
      } else {
        accepted := false;
      }
    }

    /** The question button: the guard, then the context and the model call; the answer
        replaces the one shown. The collection is never changed. */
    method AskQuestion(question: string, key: string, replies: seq<GeminiClient.Reply>)
      returns (ask: Context.Ask, requests: nat, delays: seq<nat>)
      requires GeminiClient.MaxRetries <= |replies|
      modifies this
      ensures ask == Context.Guard(question, documents)
      ensures documents == old(documents) && saves == old(saves)
      ensures ask.Send? ==>
        GeminiClient.Call(aiResponse, requests, delays) == GeminiClient.Expected(key, replies)
      ensures !ask.Send? ==> aiResponse == old(aiResponse) && requests == 0 && delays == []
    {
      ask := Context.Guard(question, documents);
      requests, delays := 0, [];
      if ask.Send? {
        var answer;
        answer, requests, delays := GeminiClient.CallGeminiApi(key, replies);
        aiResponse := answer;
      }
    }
  }
}

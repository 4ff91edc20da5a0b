/** The two guards of the page and the query path they protect: URL fields are
    collected only when filled in, and a question is answered only when the
    button is pressed and the question is non-empty. */
module Pipeline {
  import opened Documents
  import opened ContextFormat
  import opened SourceAttribution
  import opened PromptTemplate

  /** Number of URL fields in the sidebar. */
  const UrlFieldCount: nat := 1

  /** Number of documents the retriever is configured to return. */
  const RetrievalK: nat := 4

  /** The filled-in field values, in the order of the fields. */
  function NonEmptyInputs(values: seq<string>): (r: seq<string>)
    ensures forall i :: 0 <= i < |r| ==> r[i] != ""
    ensures |r| <= |values|
  {
    if values == [] then []
    else if values[0] != "" then [values[0]] + NonEmptyInputs(values[1..])
    else NonEmptyInputs(values[1..])
  }

  /** The sidebar loop: each field's value is appended to `urls` when it is non-empty. */
  method CollectUrls(values: seq<string>) returns (urls: seq<string>)
    ensures urls == NonEmptyInputs(values)
  {
    urls := [];
    var i := 0;
    while i < |values|
      invariant 0 <= i <= |values|
      invariant urls + NonEmptyInputs(values[i..]) == NonEmptyInputs(values)
    {
      assert values[i..] == [values[i]] + values[i + 1..];
      var url := values[i];
      if url != "" {
        urls := urls + [url];
      }
      i := i + 1;
    }
  }

  /** A URL is collected exactly when it was entered in some field and is non-empty. */
  lemma {:induction false} CollectedUrlsAreEnteredNonEmpty(values: seq<string>, u: string)
    ensures u in NonEmptyInputs(values) <==> u in values && u != ""
  {
    if values != [] {
      CollectedUrlsAreEnteredNonEmpty(values[1..], u);
      assert values == [values[0]] + values[1..];
    }
  }

  /** Collecting keeps the order of entry: it distributes over consecutive groups of fields. */
  lemma {:induction false} CollectedUrlsKeepEntryOrder(a: seq<string>, b: seq<string>)
    ensures NonEmptyInputs(a + b) == NonEmptyInputs(a) + NonEmptyInputs(b)
  {
    if a == [] {
      assert a + b == b;
    } else {
      assert (a + b)[1..] == a[1..] + b;
      CollectedUrlsKeepEntryOrder(a[1..], b);
    }
  }

  /** Fields that are all filled in are collected unchanged. */
  lemma {:induction false} CollectUrlsKeepsFilledFields(values: seq<string>)
    requires forall i :: 0 <= i < |values| ==> values[i] != ""
    ensures NonEmptyInputs(values) == values
  {
    if values != [] {
      CollectUrlsKeepsFilledFields(values[1..]);
    }
  }

  /** At most one URL per field; with the page's single field, at most one URL. */
  lemma {:induction false} CollectedUrlsAtMostOnePerField(values: seq<string>)
    ensures |NonEmptyInputs(values)| <= |values|
    ensures |values| == UrlFieldCount ==> |NonEmptyInputs(values)| <= 1
  {
    if values != [] {
      CollectedUrlsAtMostOnePerField(values[1..]);
    }
  }

  /** What one press of the answer button produces. */
  datatype QueryOutcome =
    | NotRun
    | Answered(prompt: string, sources: seq<string>)

  /** The query path, with the retriever's documents as a parameter: format the
      context, build the prompt for the model, and list the citations. */
  function RunQuery(clicked: bool, question: string, retrieved: seq<Document>): (r: QueryOutcome)
    ensures r.Answered? <==> clicked && question != ""
    ensures r.Answered? ==> r.prompt == BuildPrompt(FormatDocs(retrieved), question)
    ensures r.Answered? ==> r.sources == ExtractSources(retrieved)
  {
    if clicked && question != "" then
      var context := FormatDocs(retrieved);
      Answered(BuildPrompt(context, question), ExtractSources(retrieved))
    else NotRun
  }

  /** The prompt of an answered question reads back as exactly the formatted
      context and the question, so every passage reaches the model in retrieval
      order (see `ContextFormat.JoinKeepsPassage`) and nothing else is in those sections. */
  lemma AnsweredPromptSections(question: string, retrieved: seq<Document>)
    requires question != ""
    ensures var r := RunQuery(true, question, retrieved);
      ParsePrompt(r.prompt, |FormatDocs(retrieved)|) == Some(Sections(FormatDocs(retrieved), question))
  {
  }

  /** The guard is Python truthiness: any non-empty question runs, even one of blanks only. */
  lemma BlankQuestionStillRuns(retrieved: seq<Document>)
    ensures RunQuery(true, " ", retrieved).Answered?
    ensures !RunQuery(true, "", retrieved).Answered?
  {
  }

  /** The citations shown are sorted, distinct, and no more than the retriever's k
      when it returns at most k documents. */
  lemma SourcesShownBounded(question: string, retrieved: seq<Document>)
    requires question != "" && |retrieved| <= RetrievalK
    ensures var r := RunQuery(true, question, retrieved);
      StrictlySorted(r.sources) && |r.sources| <= RetrievalK
  {
  }
}

/**
 * The guard branches of the "Get Answer" button handler: validate the
 * inputs, extract the slides' text, and stop early when there is none.
 * Encoding and scoring happen only after `Proceed` and are not modelled.
 */
module Handler {
  import opened Lists
  import opened Deck
  import opened Knowledge

  /** How the handler leaves the guards: the "upload a file and enter a
      question" warning, the "No content found" error, or going on to
      encode and score the extracted blocks. */
  datatype Outcome = Warning | NoContent | Proceed(slides: seq<string>)

  /** `upload` is the uploaded presentation, `None` when no file was
      uploaded; `question` is the text typed by the user. */
  method GetAnswer(upload: Option<seq<Slide>>, question: string) returns (outcome: Outcome)
    ensures outcome == Warning <==> upload.None? || question == ""
    ensures outcome == NoContent <==>
      upload.Some? && question != "" && forall i :: 0 <= i < |upload.value| ==> !Emits(upload.value[i])
    ensures outcome.Proceed? ==>
      upload.Some? && outcome.slides == Extract(upload.value) && outcome.slides != []
  {
    if upload.None? || question == "" {
      outcome := Warning;
    } else {
      var slides := ExtractSlideKnowledge(upload.value);
      ExtractEmptyIff(upload.value);
      if slides == [] {
        outcome := NoContent;
      } else {
        outcome := Proceed(slides);
      }
    }
  }
}

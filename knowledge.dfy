/**
 * `extract_slide_knowledge`: turn a deck into one text block per slide that
 * has a title or some other text, in slide order.
 */
module Knowledge {
  import opened Lists
  import opened PyStr
  import opened Deck

  /** A shape adds to the slide's content when it has a text frame and its
      text is not exactly the (untrimmed) title. */
  predicate Contributes(shape: Shape, title: string) {
    shape.hasTextFrame && shape.text != title
  }

  /** What one shape adds to the content buffer. */
  function Piece(shape: Shape, title: string): string {
    if Contributes(shape, title) then Strip(shape.text) + "\n" else ""
  }

  /** The content buffer after the shapes `shapes`, in order. */
  function Content(shapes: seq<Shape>, title: string): string {
    ConcatMap(shapes, s => Piece(s, title))
  }

  /** What one slide adds to the result: a block when the raw title or the
      raw content buffer is non-empty, nothing otherwise. */
  function Entry(slide: Slide): Option<string> {
    var title := TitleText(slide);
    var content := Content(slide.shapes, title);
    if title != "" || content != "" then Some(Strip(title) + "\n" + Strip(content)) else None
  }

  predicate Emits(slide: Slide) {
    Entry(slide).Some?
  }

  /** The result list for the slides `deck`, in order. */
  function Extract(deck: seq<Slide>): seq<string> {
    FilterMap(deck, Entry)
  }

  /** The code's loops: `for slide in prs.slides` with a nested
      `for shape in slide.shapes` growing `content`. */
  method ExtractSlideKnowledge(deck: seq<Slide>) returns (knowledge: seq<string>)
    ensures knowledge == Extract(deck)
  {
    knowledge := [];
    for n := 0 to |deck|
      invariant knowledge == Extract(deck[..n])
    {
      var slide := deck[n];
      var title := TitleText(slide);
      var content := "";
      for m := 0 to |slide.shapes|
        invariant content == Content(slide.shapes[..m], title)
      {
        var shape := slide.shapes[m];
        assert slide.shapes[..m + 1][..m] == slide.shapes[..m];
        if shape.hasTextFrame && shape.text != title {
          content := content + Strip(shape.text) + "\n";
        }
      }
      assert slide.shapes[..|slide.shapes|] == slide.shapes;
      if title != "" || content != "" {
        knowledge := knowledge + [Strip(title) + "\n" + Strip(content)];
      }
      assert deck[..n + 1][..n] == deck[..n];
    }
    assert deck[..|deck|] == deck;
  }

  // ---------------------------------------------------------------------
  // The content buffer

  /** The content buffer is built in shape order: the buffer for `a + b` is
      the buffer for `a` followed by the buffer for `b`. */
  lemma ContentSplit(a: seq<Shape>, b: seq<Shape>, title: string)
    ensures Content(a + b, title) == Content(a, title) + Content(b, title)
  {
    ConcatMapAppend(a, b, s => Piece(s, title));
  }

  /** A single shape adds its trimmed text and a newline exactly when it
      contributes. */
  lemma ContentOne(shape: Shape, title: string)
    ensures Content([shape], title) == if Contributes(shape, title) then Strip(shape.text) + "\n" else ""
  {
    ConcatMapSingle(shape, s => Piece(s, title));
  }

  /** A contributing shape whose text is whitespace only still adds "\n". */
  lemma BlankShapeAddsNewline(shape: Shape, title: string)
    requires Contributes(shape, title) && AllSpace(shape.text)
    ensures Content([shape], title) == "\n"
  {
    ContentOne(shape, title);
    StripSpec(shape.text);
  }

  /** The content buffer is empty exactly when no shape contributes. */
  lemma ContentEmptyIff(shapes: seq<Shape>, title: string)
    ensures Content(shapes, title) == "" <==>
      forall j :: 0 <= j < |shapes| ==> !Contributes(shapes[j], title)
  {
    ConcatMapEmptyIff(shapes, s => Piece(s, title));
  }

  /** The trimmed content is empty exactly when every contributing shape's
      text is whitespace only. */
  lemma StrippedContentEmptyIff(shapes: seq<Shape>, title: string)
    ensures Strip(Content(shapes, title)) == "" <==>
      forall j :: 0 <= j < |shapes| && Contributes(shapes[j], title) ==> AllSpace(shapes[j].text)
  {
    var f := s => Piece(s, title);
    StripSpec(Content(shapes, title));
    AllSpaceIn(Content(shapes, title));
    ConcatMapAll(shapes, f, IsSpace);
    forall j | 0 <= j < |shapes|
      ensures (forall c :: c in f(shapes[j]) ==> IsSpace(c))
          <==> (Contributes(shapes[j], title) ==> AllSpace(shapes[j].text))
    {
      var t := shapes[j].text;
      if Contributes(shapes[j], title) {
        StripSpec(t);
        AllSpaceIn(Strip(t));
        assert f(shapes[j]) == Strip(t) + "\n";
        assert forall c :: c in Strip(t) + "\n" <==> c in Strip(t) || c == '\n';
        if !AllSpace(t) {
          assert Strip(t)[0] in Strip(t);
        }
      }
    }
  }

  // ---------------------------------------------------------------------
  // One slide

  /** The title placeholder never adds to the content, nor does any other
      shape whose text is exactly the title: leaving it out changes nothing. */
  lemma TitleShapeDropped(slide: Slide, i: nat)
    requires i < |slide.shapes| && slide.shapes[i].text == TitleText(slide)
    ensures !Contributes(slide.shapes[i], TitleText(slide))
    ensures Content(slide.shapes, TitleText(slide))
         == Content(slide.shapes[..i] + slide.shapes[i + 1..], TitleText(slide))
  {
    var t := TitleText(slide);
    ConcatMapSkip(slide.shapes, i, s => Piece(s, t));
  }

  /** A slide produces a block exactly when its untrimmed title is
      non-empty or some shape contributes to the content buffer. */
  lemma EmitsIff(slide: Slide)
    ensures Emits(slide) <==>
      TitleText(slide) != ""
      || exists j :: 0 <= j < |slide.shapes| && Contributes(slide.shapes[j], TitleText(slide))
  {
    ContentEmptyIff(slide.shapes, TitleText(slide));
  }

  /** A block always holds "\n" right after its trimmed title; the
      slide's block is "\n" alone exactly when the slide emits
      and its title and the text of every contributing shape are whitespace
      only. */
  lemma EntryShape(slide: Slide)
    ensures Emits(slide) ==> '\n' in Entry(slide).value
    ensures Emits(slide) ==>
      |Strip(TitleText(slide))| < |Entry(slide).value|
      && Entry(slide).value[|Strip(TitleText(slide))|] == '\n'
    ensures Entry(slide) == Some("\n") <==>
      AllSpace(TitleText(slide))
      && (TitleText(slide) != ""
          || exists j :: 0 <= j < |slide.shapes| && Contributes(slide.shapes[j], TitleText(slide)))
      && forall j :: 0 <= j < |slide.shapes| && Contributes(slide.shapes[j], TitleText(slide))
           ==> AllSpace(slide.shapes[j].text)
  {
    var t := TitleText(slide);
    EmitsIff(slide);
    if Emits(slide) {
      var c := Strip(Content(slide.shapes, t));
      var e := Entry(slide).value;
      assert e == Strip(t) + "\n" + c;
      assert e[|Strip(t)|] == '\n';
      StripSpec(t);
      StrippedContentEmptyIff(slide.shapes, t);
      if e == "\n" {
        assert |Strip(t)| == 0 && |c| == 0;
      }
    }
  }

  /** A slide whose title is whitespace only still produces a block, even
      when nothing else on it contributes. */
  lemma BlankTitleEmitted(slide: Slide)
    requires TitleText(slide) != "" && AllSpace(TitleText(slide))
    requires forall j :: 0 <= j < |slide.shapes| ==> !Contributes(slide.shapes[j], TitleText(slide))
    ensures Entry(slide) == Some("\n")
  {
    var t := TitleText(slide);
    ContentEmptyIff(slide.shapes, t);
    StripSpec(t);
    StripSpec("");
    assert Strip(t) + "\n" + Strip(Content(slide.shapes, t)) == "\n";
  }

  /** With an empty title, a slide whose only text-frame shape is the
      title placeholder produces nothing. */
  lemma EmptyTitleOnlySlideSkipped(slide: Slide, i: nat)
    requires IsFirstTitle(slide.shapes, i) && slide.shapes[i].text == ""
    requires forall j :: 0 <= j < |slide.shapes| && j != i ==> !slide.shapes[j].hasTextFrame
    ensures Entry(slide) == None
  {
    ContentEmptyIff(slide.shapes, TitleText(slide));
  }

  // ---------------------------------------------------------------------
  // The whole deck

  /** Slides are processed independently and in order. */
  lemma ExtractSplit(a: seq<Slide>, b: seq<Slide>)
    ensures Extract(a + b) == Extract(a) + Extract(b)
  {
    FilterMapAppend(a, b, Entry);
  }

  /** The k-th block is the block of the k-th emitting slide: at most one
      block per slide, in slide order, and skipped slides leave no gap. */
  lemma ExtractOrder(deck: seq<Slide>)
    ensures |Extract(deck)| == |PresentPositions(deck, Entry)| <= |deck|
    ensures forall k :: 0 <= k < |Extract(deck)| ==>
      Entry(deck[PresentPositions(deck, Entry)[k]]) == Some(Extract(deck)[k])
  {
    FilterMapAt(deck, Entry);
  }

  /** Every block contains a newline. */
  lemma EveryBlockHasNewline(deck: seq<Slide>)
    ensures forall e :: e in Extract(deck) ==> '\n' in e
  {
    FilterMapAt(deck, Entry);
    var at := PresentPositions(deck, Entry);
    forall e | e in Extract(deck) ensures '\n' in e {
      var k :| 0 <= k < |Extract(deck)| && Extract(deck)[k] == e;
      assert Emits(deck[at[k]]);
      EntryShape(deck[at[k]]);
    }
  }

  /** The result is empty exactly when no slide emits. */
  lemma ExtractEmptyIff(deck: seq<Slide>)
    ensures Extract(deck) == [] <==> forall i :: 0 <= i < |deck| ==> !Emits(deck[i])
  {
    FilterMapEmptyIff(deck, Entry);
  }
}

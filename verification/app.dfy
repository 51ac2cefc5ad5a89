/**
 * The page's button handler: the ordered checks on the typed word, the
 * hand-off of the trimmed word to the generator, and the splitting of
 * the returned poem into the boxes shown on screen.
 */
module App {
  import opened Wrappers
  import opened PyStr
  import opened Hangul
  import opened GeminiClient

  // ---------------------------------------------------------------------
  // Input checks
  // ---------------------------------------------------------------------

  /** Which branch of the if/elif chain the typed word takes. */
  datatype Outcome = Empty | NonKorean | TooShort | TooLong | Valid(word: string)

  /** The minimum and maximum number of syllables the page accepts. */
  const MinLength: nat := 2
  const MaxLength: nat := 6

  /**
   * The checks in the order the page makes them: the raw text for
   * emptiness, then the trimmed text for syllables, then its length.
   */
  function Validate(raw: string): (o: Outcome)
    ensures o.Valid? ==> AllSyllables(o.word) && MinLength <= |o.word| <= MaxLength
    ensures o.Valid? ==> HasNoEdgeSpace(o.word) && |o.word| <= |raw|
  {
    if raw == [] then Empty
    else if !AllSyllables(Strip(raw)) then NonKorean
    else if |Strip(raw)| < MinLength then TooShort
    else if |Strip(raw)| > MaxLength then TooLong
    else Valid(Strip(raw))
  }

  /** Only the empty text is reported as empty. */
  lemma EmptyIffNothingTyped(raw: string)
    ensures Validate(raw) == Empty <==> raw == []
  {
  }

  /** A single non-syllable anywhere in the trimmed text rejects it, whatever its length. */
  lemma NonKoreanWhateverLength(raw: string, i: nat)
    requires i < |Strip(raw)| && !IsSyllable(Strip(raw)[i])
    ensures Validate(raw) == NonKorean
  {
  }

  /** Text made only of whitespace is not "empty": it trims to "", passes the syllable check vacuously, and is too short. */
  lemma WhitespaceOnlyIsTooShort(raw: string)
    requires raw != [] && AllSpace(raw)
    ensures Validate(raw) == TooShort
  {
    StripEmptyIff(raw);
  }

  /** Syllables only, but fewer than two or more than six of them. */
  lemma LengthOutOfRange(raw: string)
    requires raw != [] && AllSyllables(Strip(raw))
    ensures |Strip(raw)| < MinLength <==> Validate(raw) == TooShort
    ensures |Strip(raw)| > MaxLength <==> Validate(raw) == TooLong
  {
  }

  /** The word is accepted exactly when every check passes, and the accepted word is the trimmed text. */
  lemma ValidIff(raw: string)
    ensures Validate(raw).Valid? <==>
      raw != [] && AllSyllables(Strip(raw)) && MinLength <= |Strip(raw)| <= MaxLength
    ensures Validate(raw).Valid? ==> Validate(raw).word == Strip(raw)
  {
  }

  /** Typing the accepted word again is accepted with the same word. */
  lemma ValidWordRevalidates(raw: string)
    requires Validate(raw).Valid?
    ensures Validate(Validate(raw).word) == Validate(raw)
  {
    StripSyllables(Strip(raw));
  }

  /**
   * The page accepts exactly the words `validate_korean_word` accepts that
   * have two to six syllables; the one input the helper rejects and the
   * page does not call empty is whitespace, which the page calls too short.
   */
  lemma AgreesWithKoreanWordCheck(raw: string)
    ensures Validate(raw).Valid? <==> IsKoreanWord(raw) && MinLength <= |Strip(raw)| <= MaxLength
    ensures !IsKoreanWord(raw) && Validate(raw) != NonKorean ==>
      Validate(raw) == Empty || (AllSpace(raw) && Validate(raw) == TooShort)
  {
    StripEmptyIff(raw);
  }

  // ---------------------------------------------------------------------
  // Showing the poem
  // ---------------------------------------------------------------------

  /** The boxes for some lines: each line trimmed, blank ones skipped, in order. */
  function RenderLines(lines: seq<string>): (blocks: seq<string>)
    ensures |blocks| <= |lines|
  {
    if lines == [] then []
    else
      var rest := RenderLines(lines[..|lines| - 1]);
      var line := Strip(lines[|lines| - 1]);
      if line != [] then rest + [line] else rest
  }

  /** Every box holds a non-blank line with no whitespace at either end. */
  lemma {:induction false} RenderedBlocksAreTrimmed(lines: seq<string>)
    ensures forall i :: 0 <= i < |RenderLines(lines)| ==>
      RenderLines(lines)[i] != [] && HasNoEdgeSpace(RenderLines(lines)[i])
  {
    if lines != [] {
      RenderedBlocksAreTrimmed(lines[..|lines| - 1]);
    }
  }

  /** Lines that are already trimmed and non-blank are shown one box each, unchanged. */
  lemma {:induction false} RenderCleanLines(lines: seq<string>)
    requires forall i :: 0 <= i < |lines| ==> lines[i] != [] && HasNoEdgeSpace(lines[i])
    ensures RenderLines(lines) == lines
  {
    if lines != [] {
      var n := |lines| - 1;
      RenderCleanLines(lines[..n]);
      StripNoEdgeSpace(lines[n]);
      assert lines[..n] + [lines[n]] == lines;
    }
  }

  /** The boxes for a poem: the trimmed poem split at '\n', rendered line by line. */
  function DisplayBlocks(poem: string): seq<string> {
    RenderLines(Split(Strip(poem), '\n'))
  }

  /** A poem built by the generator is shown as exactly its cleaned lines, in order. */
  lemma DisplayCleanText(text: string)
    ensures DisplayBlocks(CleanText(text)) == ReplyLines(text)
  {
    CleanTextLines(text);
    StripNoEdgeSpace(CleanText(text));
    if ReplyLines(text) != [] {
      RenderCleanLines(ReplyLines(text));
    } else {
      StripEmptyIff([]);
    }
  }

  /** Showing a text made of clean lines gives those lines back. */
  lemma DisplayJoinedLines(blocks: seq<string>)
    requires |blocks| >= 1
    requires forall i :: 0 <= i < |blocks| ==>
      blocks[i] != [] && HasNoEdgeSpace(blocks[i]) && '\n' !in blocks[i]
    ensures DisplayBlocks(Join(blocks, "\n")) == blocks
  {
    JoinNoEdgeSpace(blocks, "\n");
    StripNoEdgeSpace(Join(blocks, "\n"));
    SplitJoin(blocks, '\n');
    RenderCleanLines(blocks);
  }

  // ---------------------------------------------------------------------
  // The button handler
  // ---------------------------------------------------------------------

  /** What the page ends up showing. */
  datatype View =
    | Rejected(outcome: Outcome)   // a warning or error for a failed check
    | Poem(blocks: seq<string>)    // the success notice and one box per line
    | NoPoem                       // the poem came back empty
    | Failed(error: GenError)      // the generator raised

  /**
   * Ask the generator for a poem for `word` and decide what to show: its
   * failure, the "no poem" message for an empty poem, or the boxes.
   */
  method GenerateAndShow(word: string, service: Request -> ServiceReply)
    returns (view: View, request: Request)
    ensures request == BuildRequest(word)
    ensures match service(request)
      case Raised(cause) => view == Failed(CallFailed(cause))
      case Returned(None) => view == Failed(EmptyResponse)
      case Returned(Some(text)) =>
        if text == [] then view == Failed(EmptyResponse)
        else if ReplyLines(text) == [] then view == NoPoem
        else view == Poem(ReplyLines(text))
  {
    var result;
    result, request := GenerateAcrosticPoem(word, service);
    match result
    case Failure(error) =>
      view := Failed(error);
    case Success(poem) =>
      if poem != [] {
        view := Poem(DisplayBlocks(poem));
        ghost var text := service(request).text.value;
        DisplayCleanText(text);
      } else {
        view := NoPoem;
        ghost var text := service(request).text.value;
        CleanTextLines(text);
      }
  }

  /**
   * The "generate" button: a rejected word is reported and no request is
   * sent; an accepted word is trimmed and sent exactly once.
   */
  method Submit(raw: string, service: Request -> ServiceReply)
    returns (view: View, sent: seq<Request>)
    ensures !Validate(raw).Valid? ==> view == Rejected(Validate(raw)) && sent == []
    ensures Validate(raw).Valid? ==> sent == [BuildRequest(Strip(raw))]
    ensures Validate(raw).Valid? ==> match service(BuildRequest(Strip(raw)))
      case Raised(cause) => view == Failed(CallFailed(cause))
      case Returned(None) => view == Failed(EmptyResponse)
      case Returned(Some(text)) =>
        if text == [] then view == Failed(EmptyResponse)
        else if ReplyLines(text) == [] then view == NoPoem
        else view == Poem(ReplyLines(text))
  {
    var outcome := Validate(raw);
    if !outcome.Valid? {
      view, sent := Rejected(outcome), [];
    } else {
      var request;
      view, request := GenerateAndShow(outcome.word, service);
      sent := [request];
    }
  }

  /**
   * A suggested-word button: the word goes to the generator as it is,
   * without the checks, and the result is shown the same way.
   */
  method SubmitExample(word: string, service: Request -> ServiceReply)
    returns (view: View, sent: seq<Request>)
    ensures sent == [BuildRequest(word)]
    ensures match service(BuildRequest(word))
      case Raised(cause) => view == Failed(CallFailed(cause))
      case Returned(None) => view == Failed(EmptyResponse)
      case Returned(Some(text)) =>
        if text == [] then view == Failed(EmptyResponse)
        else if ReplyLines(text) == [] then view == NoPoem
        else view == Poem(ReplyLines(text))
  {
    var request;
    view, request := GenerateAndShow(word, service);
    sent := [request];
  }

  // ---------------------------------------------------------------------
  // The suggested words
  // ---------------------------------------------------------------------

  /** Two Hangul syllables pass every check. */
  lemma TwoSyllablesValid(w: string)
    requires |w| == 2 && IsSyllable(w[0]) && IsSyllable(w[1])
    ensures Validate(w) == Valid(w)
  {
    StripSyllables(w);
  }

  /**
   * Of the twelve suggested words, eleven would pass the checks; "꿈" has
   * one syllable and would be too short, but the suggestion buttons skip
   * the checks.
   */
  lemma SuggestedWords(words: seq<string>)
    requires words == ["사랑", "희망", "친구", "가족", "꿈", "행복",
                       "봄날", "여행", "커피", "독서", "음악", "자연"]
    ensures |words| == 12
    ensures forall i :: 0 <= i < |words| && i != 4 ==> Validate(words[i]) == Valid(words[i])
    ensures Validate(words[4]) == TooShort
  {
    forall i | 0 <= i < |words| && i != 4
      ensures Validate(words[i]) == Valid(words[i])
    {
      TwoSyllablesValid(words[i]);
    }
    StripSyllables(words[4]);
  }
}

/**
 * The generator: it splits the word into characters, writes the per-word
 * instruction, asks the text service once, and cleans the reply into
 * poem lines. Also the stand-alone Korean-word check.
 */
module GeminiClient {
  import opened Wrappers
  import opened PyStr
  import opened Hangul

  // ---------------------------------------------------------------------
  // Prompt construction
  // ---------------------------------------------------------------------

  /** `list(word)`: one one-character string per character, in order. */
  function Characters(word: string): (chars: seq<string>)
    ensures |chars| == |word|
    ensures forall i :: 0 <= i < |word| ==> chars[i] == [word[i]]
  {
    if word == [] then [] else [[word[0]]] + Characters(word[1..])
  }

  /** Gluing the characters back together gives the word: `''.join(list(word)) == word`. */
  lemma {:induction false} CharactersConcat(word: string)
    ensures Join(Characters(word), "") == word
  {
    if |word| > 1 {
      CharactersConcat(word[1..]);
      assert Characters(word)[1..] == Characters(word[1..]);
      assert word == [word[0]] + word[1..];
    }
  }

  /** `', '.join(characters)` */
  function CharList(word: string): string {
    Join(Characters(word), ", ")
  }

  lemma {:induction false} CharListLength(word: string)
    ensures |CharList(word)| == if word == [] then 0 else 3 * |word| - 2
  {
    if |word| > 1 {
      CharListLength(word[1..]);
      assert Characters(word)[1..] == Characters(word[1..]);
    }
  }

  /**
   * The comma-joined list has exactly one entry per character, in word
   * order: character `i` sits at position `3 * i`, followed by ", " unless
   * it is the last one.
   */
  lemma {:induction false} CharListAt(word: string, i: nat)
    requires i < |word|
    ensures |CharList(word)| == 3 * |word| - 2
    ensures CharList(word)[3 * i] == word[i]
    ensures i + 1 < |word| ==> CharList(word)[3 * i + 1] == ',' && CharList(word)[3 * i + 2] == ' '
  {
    CharListLength(word);
    if |word| > 1 {
      assert Characters(word)[1..] == Characters(word[1..]);
      assert CharList(word) == [word[0]] + ", " + CharList(word[1..]);
      if i > 0 {
        CharListAt(word[1..], i - 1);
        assert CharList(word)[3 * i] == CharList(word[1..])[3 * (i - 1)];
      }
      if 0 < i && i + 1 < |word| {
        assert CharList(word)[3 * i + 1] == CharList(word[1..])[3 * (i - 1) + 1];
        assert CharList(word)[3 * i + 2] == CharList(word[1..])[3 * (i - 1) + 2];
      }
    }
  }

  // The literal parts of the per-word instruction, with the indentation the
  // triple-quoted template carries.
  const PromptOpening := "\n        다음 단어로 N행시를 만들어주세요: \""
  const PromptBeforeCharacters := "\"\n        \n        각 글자: "
  const PromptBeforeCount := "\n        \n        위의 규칙을 따라서 "
  const PromptClosing := "줄의 N행시를 작성해주세요.\n        "

  /** Where the list of characters starts in the instruction for `word`. */
  function CharListOffset(word: string): nat {
    |PromptOpening| + |word| + |PromptBeforeCharacters|
  }

  /** Where the requested line count starts in the instruction for `word`. */
  function CountOffset(word: string): nat {
    CharListOffset(word) + |CharList(word)| + |PromptBeforeCount|
  }

  /** `len(characters)`: the number of lines the instruction asks for. */
  function LineCount(word: string): nat {
    |Characters(word)|
  }

  /**
   * The per-word instruction: it quotes the word, lists its characters and
   * asks for `len(characters)` lines.
   */
  function UserPrompt(word: string): string {
    PromptOpening + word + PromptBeforeCharacters + CharList(word)
      + PromptBeforeCount + NatToString(LineCount(word)) + PromptClosing
  }

  /** The instruction holds the word, right after the opening text. */
  lemma PromptHoldsWord(word: string)
    ensures |UserPrompt(word)| >= |PromptOpening| + |word|
    ensures UserPrompt(word)[|PromptOpening|..|PromptOpening| + |word|] == word
  {
    var o, n := |PromptOpening|, |PromptOpening| + |word|;
    var p1 := PromptOpening + word;
    var p2 := p1 + PromptBeforeCharacters;
    var p3 := p2 + CharList(word);
    var p4 := p3 + PromptBeforeCount;
    var p5 := p4 + NatToString(LineCount(word));
    SliceWithin(p5, PromptClosing, o, n);
    SliceWithin(p4, NatToString(LineCount(word)), o, n);
    SliceWithin(p3, PromptBeforeCount, o, n);
    SliceWithin(p2, CharList(word), o, n);
    SliceWithin(p1, PromptBeforeCharacters, o, n);
    assert p1[o..n] == word;
  }

  /** The instruction holds the comma-joined character list. */
  lemma PromptHoldsCharList(word: string)
    ensures |UserPrompt(word)| >= CharListOffset(word) + |CharList(word)|
    ensures UserPrompt(word)[CharListOffset(word)..CharListOffset(word) + |CharList(word)|] == CharList(word)
  {
    var rest := PromptBeforeCount + NatToString(LineCount(word)) + PromptClosing;
    var p := PromptOpening + word + PromptBeforeCharacters + CharList(word) + rest;
    assert p == UserPrompt(word);
    PieceAt(PromptOpening + word + PromptBeforeCharacters, CharList(word), rest);
  }

  /** The instruction holds the numeral of the line count. */
  lemma PromptHoldsCount(word: string)
    ensures |UserPrompt(word)| >= CountOffset(word) + |NatToString(LineCount(word))|
    ensures UserPrompt(word)[CountOffset(word)..CountOffset(word) + |NatToString(LineCount(word))|]
      == NatToString(LineCount(word))
  {
    var head := PromptOpening + word + PromptBeforeCharacters + CharList(word) + PromptBeforeCount;
    PieceAt(head, NatToString(LineCount(word)), PromptClosing);
  }

  /** Every character of the word appears, in order, in the instruction's character list. */
  lemma PromptListsEveryCharacter(word: string, i: nat)
    requires i < |word|
    ensures CharListOffset(word) + 3 * i < |UserPrompt(word)|
    ensures UserPrompt(word)[CharListOffset(word) + 3 * i] == word[i]
  {
    CharListAt(word, i);
    PromptHoldsCharList(word);
    var p := UserPrompt(word);
    assert p[CharListOffset(word) + 3 * i]
        == p[CharListOffset(word)..CharListOffset(word) + |CharList(word)|][3 * i];
  }

  /** The line count the instruction asks for, read back as a number, is the word's length. */
  lemma PromptRequestsOneLinePerCharacter(word: string)
    ensures var count := UserPrompt(word)[CountOffset(word)..CountOffset(word) + |NatToString(LineCount(word))|];
      (forall i :: 0 <= i < |count| ==> IsDigit(count[i])) && DecimalValue(count) == |word|
  {
    PromptHoldsCount(word);
    DecimalRoundTrip(|word|);
  }

  /** Sampling temperature and output budget passed through to the service unchanged. */
  const Temperature: real := 0.8
  const MaxOutputTokens: nat := 1000

  /** What is sent to the text service (the fixed system instruction is not modelled). */
  datatype Request = Request(userPrompt: string, temperature: real, maxOutputTokens: nat)

  function BuildRequest(word: string): Request {
    Request(UserPrompt(word), Temperature, MaxOutputTokens)
  }

  // ---------------------------------------------------------------------
  // Response cleanup
  // ---------------------------------------------------------------------

  const ResultMarker := "결과:"
  const WordMarker := "단어:"

  /** A stripped reply line survives cleanup when it is not blank and is no echoed label. */
  predicate Keep(line: string) {
    line != [] && !StartsWith(line, ResultMarker) && !StartsWith(line, WordMarker)
  }

  /**
   * The lines the cleanup loop collects from `lines`: each line stripped,
   * kept when it passes `Keep`, in input order.
   */
  function CleanLines(lines: seq<string>): (kept: seq<string>)
    ensures |kept| <= |lines|
  {
    if lines == [] then []
    else
      var line := Strip(lines[|lines| - 1]);
      CleanLines(lines[..|lines| - 1]) + (if Keep(line) then [line] else [])
  }

  /** Every kept line is non-blank, has no label prefix and no surrounding whitespace. */
  lemma {:induction false} CleanLinesAreClean(lines: seq<string>)
    ensures forall k :: 0 <= k < |CleanLines(lines)| ==>
      Keep(CleanLines(lines)[k]) && HasNoEdgeSpace(CleanLines(lines)[k])
  {
    if lines != [] {
      CleanLinesAreClean(lines[..|lines| - 1]);
    }
  }

  /**
   * `idx` picks out what cleanup keeps from `lines`: the `k`-th kept line
   * is the stripped line at `idx[k]`, which passes `Keep`, the indices
   * increase, and every line that passes `Keep` once stripped is among
   * them.
   */
  ghost predicate SelectsKept(lines: seq<string>, idx: seq<nat>) {
    |idx| == |CleanLines(lines)|
    && (forall k :: 0 <= k < |idx| ==> idx[k] < |lines| && CleanLines(lines)[k] == Strip(lines[idx[k]]))
    && (forall k :: 0 <= k < |idx| ==> idx[k] < |lines| && Keep(Strip(lines[idx[k]])))
    && (forall k, m :: 0 <= k < m < |idx| ==> idx[k] < idx[m])
    && (forall i :: 0 <= i < |lines| && Keep(Strip(lines[i])) ==> i in idx)
  }

  /** The positions of the lines cleanup keeps, in increasing order. */
  ghost function KeptIndices(lines: seq<string>): seq<nat> {
    if lines == [] then []
    else
      var n := |lines| - 1;
      KeptIndices(lines[..n]) + (if Keep(Strip(lines[n])) then [n] else [])
  }

  lemma {:induction false} KeptIndicesSelect(lines: seq<string>)
    ensures |KeptIndices(lines)| == |CleanLines(lines)|
    ensures forall k :: 0 <= k < |KeptIndices(lines)| ==>
      KeptIndices(lines)[k] < |lines| && CleanLines(lines)[k] == Strip(lines[KeptIndices(lines)[k]])
  {
    if lines != [] {
      var n := |lines| - 1;
      var init := lines[..n];
      KeptIndicesSelect(init);
      var prev, idx := KeptIndices(init), KeptIndices(lines);
      forall k | 0 <= k < |idx|
        ensures idx[k] < |lines| && CleanLines(lines)[k] == Strip(lines[idx[k]])
      {
        if k < |prev| {
          assert idx[k] == prev[k] && CleanLines(lines)[k] == CleanLines(init)[k];
          assert init[prev[k]] == lines[prev[k]];
        }
      }
    }
  }

  lemma {:induction false} KeptIndicesIncreasing(lines: seq<string>)
    ensures forall k :: 0 <= k < |KeptIndices(lines)| ==> KeptIndices(lines)[k] < |lines|
    ensures forall k, m :: 0 <= k < m < |KeptIndices(lines)| ==> KeptIndices(lines)[k] < KeptIndices(lines)[m]
  {
    if lines != [] {
      var n := |lines| - 1;
      KeptIndicesIncreasing(lines[..n]);
      var prev, idx := KeptIndices(lines[..n]), KeptIndices(lines);
      assert forall k :: 0 <= k < |prev| ==> idx[k] == prev[k];
    }
  }

  lemma {:induction false} KeptIndicesComplete(lines: seq<string>)
    ensures forall i :: 0 <= i < |lines| && Keep(Strip(lines[i])) ==> i in KeptIndices(lines)
  {
    if lines != [] {
      var n := |lines| - 1;
      var init := lines[..n];
      KeptIndicesComplete(init);
      forall i | 0 <= i < n && Keep(Strip(lines[i])) ensures i in KeptIndices(lines) {
        assert init[i] == lines[i];
      }
    }
  }

  /** Cleanup keeps exactly the stripped lines that pass `Keep`, in their original order. */
  lemma CleanLinesSubsequence(lines: seq<string>)
    ensures SelectsKept(lines, KeptIndices(lines))
  {
    KeptIndicesSelect(lines);
    CleanLinesAreClean(lines);
    KeptIndicesIncreasing(lines);
    KeptIndicesComplete(lines);
  }

  /** Lines without a newline stay without one after cleanup. */
  lemma {:induction false} CleanLinesNoNewline(lines: seq<string>)
    requires forall i :: 0 <= i < |lines| ==> '\n' !in lines[i]
    ensures forall k :: 0 <= k < |CleanLines(lines)| ==> '\n' !in CleanLines(lines)[k]
  {
    if lines != [] {
      var n := |lines| - 1;
      CleanLinesNoNewline(lines[..n]);
    }
  }

  /** Lines that are already clean pass through cleanup unchanged. */
  lemma {:induction false} CleanLinesOfClean(lines: seq<string>)
    requires forall i :: 0 <= i < |lines| ==> Keep(lines[i]) && HasNoEdgeSpace(lines[i])
    ensures CleanLines(lines) == lines
  {
    if lines != [] {
      var n := |lines| - 1;
      CleanLinesOfClean(lines[..n]);
      StripNoEdgeSpace(lines[n]);
      assert lines[..n] + [lines[n]] == lines;
    }
  }

  /** The reply lines cleanup keeps for `text`. */
  function ReplyLines(text: string): seq<string> {
    CleanLines(Split(Strip(text), '\n'))
  }

  /** The cleaned reply: the kept lines joined with newlines. */
  function CleanText(text: string): string {
    Join(ReplyLines(text), "\n")
  }

  /**
   * The cleaned text is empty exactly when no line was kept; otherwise it
   * splits back into the kept lines, each non-blank, without surrounding
   * whitespace, without a newline and without a label prefix.
   */
  lemma CleanTextLines(text: string)
    ensures CleanText(text) == [] <==> ReplyLines(text) == []
    ensures ReplyLines(text) != [] ==> Split(CleanText(text), '\n') == ReplyLines(text)
    ensures forall k :: 0 <= k < |ReplyLines(text)| ==>
      Keep(ReplyLines(text)[k]) && HasNoEdgeSpace(ReplyLines(text)[k]) && '\n' !in ReplyLines(text)[k]
    ensures HasNoEdgeSpace(CleanText(text))
  {
    var lines := ReplyLines(text);
    CleanLinesNoNewline(Split(Strip(text), '\n'));
    CleanLinesAreClean(Split(Strip(text), '\n'));
    JoinNoEdgeSpace(lines, "\n");
    if lines != [] {
      SplitJoin(lines, '\n');
    }
  }

  /** Cleaning an already cleaned reply changes nothing. */
  lemma CleanTextIdempotent(text: string)
    ensures CleanText(CleanText(text)) == CleanText(text)
  {
    var poem := CleanText(text);
    CleanTextLines(text);
    StripNoEdgeSpace(poem);
    if ReplyLines(text) == [] {
      assert Split(Strip(poem), '\n') == [[]];
      StripEmptyIff([]);
      assert CleanLines([[]]) == [];
    } else {
      CleanLinesAreClean(Split(Strip(text), '\n'));
      CleanLinesOfClean(ReplyLines(text));
    }
  }

  /** Cleaning a reply that is already split into lines works line by line. */
  lemma CleanTextOfLines(lines: seq<string>)
    requires |lines| >= 1 && forall i :: 0 <= i < |lines| ==> '\n' !in lines[i]
    requires HasNoEdgeSpace(Join(lines, "\n"))
    ensures CleanText(Join(lines, "\n")) == Join(CleanLines(lines), "\n")
  {
    StripNoEdgeSpace(Join(lines, "\n"));
    SplitJoin(lines, '\n');
  }

  lemma ExampleKept(l0: string, l2: string, l3: string)
    requires l0 == "[바]람이 분다" && l2 == "단어: 바다" && l3 == "[다]정한 하루"
    ensures CleanLines([l0, [], l2, l3]) == [l0, l3]
  {
    var lines := [l0, [], l2, l3];
    StripNoEdgeSpace(l0);
    StripNoEdgeSpace(l2);
    StripNoEdgeSpace(l3);
    StripEmptyIff([]);
    assert l0[0] != ResultMarker[0] && l0[0] != WordMarker[0];
    assert l3[0] != ResultMarker[0] && l3[0] != WordMarker[0];
    assert l2[..|WordMarker|] == WordMarker;
    assert Keep(l0) && !Keep([]) && !Keep(l2) && Keep(l3);
    assert CleanLines([l0]) == [l0];
    assert lines[..2][..1] == [l0];
    assert CleanLines(lines[..2]) == [l0];
    assert lines[..3][..2] == lines[..2];
    assert CleanLines(lines[..3]) == [l0];
  }

  /** A reply with a blank line and an echoed "단어:" label loses both. */
  lemma CleanTextDropsBlankAndLabel(l0: string, l2: string, l3: string)
    requires l0 == "[바]람이 분다" && l2 == "단어: 바다" && l3 == "[다]정한 하루"
    ensures CleanText(Join([l0, [], l2, l3], "\n")) == Join([l0, l3], "\n")
  {
    var lines := [l0, [], l2, l3];
    var text := Join(lines, "\n");
    assert lines[1..] == [[], l2, l3] && lines[1..][1..] == [l2, l3] && [l2, l3][1..] == [l3];
    assert Join([l2, l3], "\n") == l2 + "\n" + l3;
    assert Join([[], l2, l3], "\n") == [] + "\n" + Join([l2, l3], "\n");
    assert text == l0 + "\n" + Join([[], l2, l3], "\n");
    assert text[0] == l0[0] && text[|text| - 1] == l3[|l3| - 1];
    CleanTextOfLines(lines);
    ExampleKept(l0, l2, l3);
  }

  /** The cleanup loop: strip the reply, split it into lines, keep the good ones, re-join. */
  method CleanResponse(text: string) returns (poem: string)
    ensures poem == CleanText(text)
  {
    var lines := Split(Strip(text), '\n');
    var cleaned: seq<string> := [];
    for i := 0 to |lines|
      invariant cleaned == CleanLines(lines[..i])
    {
      assert lines[..i + 1][..i] == lines[..i];
      var line := Strip(lines[i]);
      if line != [] && !StartsWith(line, ResultMarker) && !StartsWith(line, WordMarker) {
        cleaned := cleaned + [line];
      }
    }
    assert lines[..|lines|] == lines;
    poem := Join(cleaned, "\n");
  }

  // ---------------------------------------------------------------------
  // Generation
  // ---------------------------------------------------------------------

  /** What the text service does with a request: it raises, or it returns a reply whose text may be absent. */
  datatype ServiceReply = Raised(cause: string) | Returned(text: Option<string>)

  /** The two failures the generator reports. */
  datatype GenError = EmptyResponse | CallFailed(cause: string)

  /**
   * Generate a poem for `word`: one request to `service`, returned in
   * `request`, then the reply is either a failure (raised, absent or
   * empty) or its cleaned text.
   */
  method GenerateAcrosticPoem(word: string, service: Request -> ServiceReply)
    returns (result: Result<string, GenError>, request: Request)
    ensures request == BuildRequest(word)
    ensures match service(request)
      case Raised(cause) => result == Failure(CallFailed(cause))
      case Returned(None) => result == Failure(EmptyResponse)
      case Returned(Some(text)) =>
        result == if text == [] then Failure(EmptyResponse) else Success(CleanText(text))
  {
    request := BuildRequest(word);
    var reply := service(request);
    match reply
    case Raised(cause) =>
      result := Failure(CallFailed(cause));
    case Returned(text) =>
      if text.Some? && text.value != [] {
        var poem := CleanResponse(text.value);
        result := Success(poem);
      } else {
        result := Failure(EmptyResponse);
      }
  }

  // ---------------------------------------------------------------------
  // Stand-alone word check
  // ---------------------------------------------------------------------

  /** Accepted by `validate_korean_word`: something besides whitespace, and every trimmed character a syllable. */
  predicate IsKoreanWord(word: string) {
    word != [] && Strip(word) != [] && AllSyllables(Strip(word))
  }

  /** `validate_korean_word`: early returns for an empty or blank word and at the first non-syllable. */
  method ValidateKoreanWord(word: string) returns (ok: bool)
    ensures ok == IsKoreanWord(word)
  {
    if word == [] || Strip(word) == [] {
      return false;
    }
    var trimmed := Strip(word);
    for i := 0 to |trimmed|
      invariant forall j :: 0 <= j < i ==> IsSyllable(trimmed[j])
    {
      if !IsSyllable(trimmed[i]) {
        return false;
      }
    }
    return true;
  }
}

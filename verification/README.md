# Korean acrostic-poem generator (N행시 생성기) in Dafny

This project models the logic of a small web page that writes Korean
acrostic poems (N행시). In such a poem, each line starts with one
syllable of a given word.

- The page takes a word and runs an ordered chain of checks on it: empty,
  not Hangul, too short, too long. An accepted word is trimmed and handed
  to the generator.
- The generator splits the word into characters and builds a per-word
  instruction. The instruction quotes the word, lists its characters
  joined with ", ", and asks for one line per character. The generator
  sends the instruction to a text service once and cleans the reply: it
  strips the whole reply, strips each line, drops blank lines and lines
  that start with the echoed labels `결과:` and `단어:`, and joins the rest
  with newlines.
- The page splits the poem again and shows each trimmed, non-blank line
  in a box of its own.

Modules, one per file:

- `Wrappers` (`wrappers.dfy`): `Option` and `Result`.
- `PyStr` (`pystr.dfy`): the Python string operations the code uses. These
  are `strip()`, `split('\n')`, `'\n'.join`, `startswith` and `str(n)`,
  each with its defining property. The whitespace predicate is the exact
  set `str.strip()` removes.
- `Hangul` (`hangul.dfy`): the syllable range U+AC00 '가' .. U+D7A3 '힣'.
- `GeminiClient` (`gemini_client.dfy`): covers
  - prompt construction,
  - the cleanup (a loop method proved against the `CleanLines`/`CleanText`
    specification functions),
  - the generator, with the text service as a function parameter,
  - `validate_korean_word`.
- `App` (`app.py`'s logic, in `app.dfy`): covers the check chain, the
  display splitting, and the button handlers that tie the checks, the
  generator and the display together.

The text service is a parameter `service: Request -> ServiceReply`. Its
reply either raises (with a message) or returns a text that may be
absent. The methods that call it return the requests they sent, so
"rejected words send nothing" and "an accepted word is sent once" are
part of their contracts.

The page tests emptiness on the raw text, so a word made only of
whitespace is not reported as empty. Its trimmed form is "", which passes
the syllable check vacuously, so it is reported as too short
(`App.WhitespaceOnlyIsTooShort`).

## Model

| member | source | states |
|---|---|---|
| PyStr.IsSpace | gemini_client.py:70 | the characters `str.strip()` removes (Python's `isspace` set); `StripEmptyIff`, `StripSurrounds` and `StripUnique` state what stripping them does |
| PyStr.StartsWith | gemini_client.py:78 | `line.startswith(label)`; `CleanLinesAreClean` states that no kept line starts with a label |
| PyStr.LeadingSpace | gemini_client.py:70 | the whitespace run `strip()` removes at the front: all whitespace, and followed by a non-whitespace character or the end |
| PyStr.TrimRight | gemini_client.py:70 | `rstrip()` gives a prefix of the input, the rest is whitespace, and the prefix does not end in whitespace |
| PyStr.Strip | gemini_client.py:70 | `strip()` never lengthens, and its result has no whitespace at either end |
| PyStr.StripSurrounds | gemini_client.py:70 | the input is the stripped text with a whitespace run before it and one after it |
| PyStr.StripUnique | gemini_client.py:77 | any whitespace around a text without edge whitespace is exactly what `strip()` removes |
| PyStr.StripEmptyIff | gemini_client.py:99 | `strip()` gives "" if and only if the input is all whitespace |
| PyStr.StripIdempotent | gemini_client.py:77 | stripping twice is stripping once |
| PyStr.StripNoEdgeSpace | gemini_client.py:77 | a text without edge whitespace is unchanged by `strip()` |
| PyStr.Split | gemini_client.py:73 | `split('\n')` always gives at least one piece, and no piece holds the separator |
| PyStr.Join | gemini_client.py:81 | the join of n ≥ 1 parts is as long as the parts together plus n−1 separators; no parts give "" (its round trips with `split` are `JoinSplit` and `SplitJoin`) |
| PyStr.JoinSplit | gemini_client.py:73 | joining the pieces of a split with the separator gives back the text |
| PyStr.SplitJoin | app.py:70 | splitting a join of separator-free lines gives back the lines |
| PyStr.JoinNoEdgeSpace | gemini_client.py:81 | a join of non-empty lines without edge whitespace has no edge whitespace, and is non-empty when there is a line |
| PyStr.NatToString | gemini_client.py:49 | `str(n)` is a non-empty string of decimal digits without a leading zero |
| PyStr.DecimalRoundTrip | gemini_client.py:49 | reading back `str(n)` as a decimal number gives `n` |
| Hangul.IsSyllable | app.py:47 | `ord('가') <= ord(c) <= ord('힣')`; `App.NonKoreanWhateverLength` states that one character outside it rejects the word |
| Hangul.AllSyllables | app.py:47 | the `all(...)` over the trimmed word, true of ""; `App.WhitespaceOnlyIsTooShort` states the vacuous case |
| Hangul.StripSyllables | app.py:47-54 | a string of Hangul syllables is unchanged by `strip()` |
| GeminiClient.Characters | gemini_client.py:21 | `list(word)` has one entry per character, and entry `i` is the `i`-th character alone |
| GeminiClient.CharactersConcat | gemini_client.py:21 | the characters joined back together give the word |
| GeminiClient.CharList | gemini_client.py:47 | `', '.join(characters)`; `CharListLength` and `CharListAt` state its length and every position |
| GeminiClient.CharListLength | gemini_client.py:47 | the ", "-joined list is 3·n−2 characters long for a word of n characters (0 for "") |
| GeminiClient.CharListAt | gemini_client.py:47 | character `i` of the word is at position 3·i of the list, followed by ", " unless it is the last |
| GeminiClient.LineCount | gemini_client.py:49 | `len(characters)`; `PromptRequestsOneLinePerCharacter` states that it is the word's length as requested |
| GeminiClient.UserPrompt | gemini_client.py:44-50 | the per-word instruction; `PromptHoldsWord`, `PromptHoldsCharList`, `PromptHoldsCount`, `PromptListsEveryCharacter` and `PromptRequestsOneLinePerCharacter` state what it holds and where |
| GeminiClient.BuildRequest | gemini_client.py:53-66 | the call's arguments: the instruction, temperature 0.8, 1000 output tokens; `GenerateAcrosticPoem` states that it is the one request sent |
| GeminiClient.PromptHoldsWord | gemini_client.py:44-45 | the instruction quotes the word right after its opening text |
| GeminiClient.PromptHoldsCharList | gemini_client.py:47 | the instruction holds the ", "-joined character list |
| GeminiClient.PromptHoldsCount | gemini_client.py:49 | the instruction holds the numeral of `len(characters)` |
| GeminiClient.PromptListsEveryCharacter | gemini_client.py:44-47 | every character of the word appears in the instruction, in word order |
| GeminiClient.PromptRequestsOneLinePerCharacter | gemini_client.py:44-50 | the line count the instruction asks for is a decimal numeral whose value is the word's length |
| GeminiClient.Keep | gemini_client.py:78 | the filter on a stripped line; `KeptIndicesComplete` and `CleanLinesAreClean` state that exactly the lines passing it are kept |
| GeminiClient.CleanLines | gemini_client.py:74-79 | cleanup keeps at most as many lines as it is given |
| GeminiClient.CleanLinesAreClean | gemini_client.py:76-79 | every kept line is non-blank, starts with neither `결과:` nor `단어:`, and has no edge whitespace |
| GeminiClient.KeptIndicesSelect | gemini_client.py:76-79 | the k-th kept line is the stripped input line at the k-th kept position |
| GeminiClient.KeptIndicesIncreasing | gemini_client.py:76-79 | the kept positions increase, so input order is preserved |
| GeminiClient.KeptIndicesComplete | gemini_client.py:76-79 | every input line that is non-blank and label-free once stripped is kept |
| GeminiClient.CleanLinesSubsequence | gemini_client.py:74-79 | the kept lines are exactly the stripped, non-blank, label-free input lines, in their original order |
| GeminiClient.CleanLinesNoNewline | gemini_client.py:73-79 | lines split at '\n' stay free of '\n' after cleanup |
| GeminiClient.CleanLinesOfClean | gemini_client.py:76-79 | lines that are already clean pass through unchanged |
| GeminiClient.ReplyLines | gemini_client.py:70-79 | the kept lines of the stripped, split reply; `CleanLinesSubsequence` states which lines they are |
| GeminiClient.CleanText | gemini_client.py:70-81 | the cleaned reply; `CleanTextLines`, `CleanTextIdempotent` and `CleanResponse` state its properties |
| GeminiClient.CleanTextLines | gemini_client.py:70-81 | the cleaned text is empty iff no line is kept; otherwise it splits back into the kept lines, and each is non-blank, label-free, trimmed and newline-free |
| GeminiClient.CleanTextIdempotent | gemini_client.py:70-81 | cleaning a cleaned reply changes nothing |
| GeminiClient.CleanTextOfLines | gemini_client.py:70-81 | for a reply without edge whitespace made of lines, cleaning works line by line |
| GeminiClient.ExampleKept | gemini_client.py:76-79 | of the lines "[바]람이 분다", "", "단어: 바다", "[다]정한 하루", only the first and last are kept |
| GeminiClient.CleanTextDropsBlankAndLabel | gemini_client.py:70-81 | "[바]람이 분다\n\n단어: 바다\n[다]정한 하루" cleans to "[바]람이 분다\n[다]정한 하루" |
| GeminiClient.CleanResponse | gemini_client.py:70-81 | the cleanup loop computes exactly `CleanText` of the reply |
| GeminiClient.GenerateAcrosticPoem | gemini_client.py:9-87 | exactly one request, built from the word; a raised call fails with its cause; an absent or empty reply fails as an empty response; otherwise the result is the cleaned text |
| GeminiClient.IsKoreanWord | gemini_client.py:99-107 | what `validate_korean_word` accepts; `App.AgreesWithKoreanWordCheck` relates it to the page's checks |
| GeminiClient.ValidateKoreanWord | gemini_client.py:99-107 | the early-return loop returns exactly `IsKoreanWord`: true iff the trimmed word is non-empty and every character of it is a Hangul syllable, with no length bound |
| App.Validate | app.py:44-54 | an accepted word is all syllables, two to six long, trimmed, and no longer than the typed text |
| App.EmptyIffNothingTyped | app.py:45-46 | the outcome is `Empty` exactly when the raw text is empty |
| App.NonKoreanWhateverLength | app.py:47-48 | one non-syllable in the trimmed text gives `NonKorean`, whatever the length |
| App.WhitespaceOnlyIsTooShort | app.py:45-50 | non-empty whitespace-only text is `TooShort`, not `Empty` |
| App.LengthOutOfRange | app.py:49-52 | for syllable-only text, fewer than two gives `TooShort` and more than six gives `TooLong`, both ways |
| App.ValidIff | app.py:53-54 | `Valid` iff the raw text is non-empty, the trimmed text is all syllables, and its length is two to six; the accepted word is the trimmed text |
| App.ValidWordRevalidates | app.py:47-54 | an accepted word typed again is accepted unchanged |
| App.AgreesWithKoreanWordCheck | gemini_client.py:99-107 | the page accepts exactly the words `validate_korean_word` accepts that have two to six syllables; the only other case where they disagree is whitespace, which the page calls too short |
| App.RenderLines | app.py:71-72 | there are no more boxes than lines |
| App.RenderedBlocksAreTrimmed | app.py:72-86 | every box holds a non-blank line without edge whitespace |
| App.RenderCleanLines | app.py:71-72 | trimmed non-blank lines are shown one box each, unchanged and in order |
| App.DisplayBlocks | app.py:70-72 | the boxes for a poem; `DisplayCleanText` and `DisplayJoinedLines` state which lines they are |
| App.DisplayCleanText | app.py:70-72 | a generated poem is shown as exactly its cleaned lines, in order |
| App.DisplayJoinedLines | app.py:70-72 | a poem joined from clean lines is shown as exactly those lines |
| App.GenerateAndShow | app.py:58-99 | a generator failure is shown as a failure; an empty poem gives the "no poem" message and no boxes; otherwise one box per cleaned line |
| App.Submit | app.py:44-99 | a rejected word is reported and sends no request; an accepted word is trimmed and sent exactly once, and the result is shown as above |
| App.SubmitExample | app.py:120-154 | a suggested word is sent as it is, without the checks, and the result is shown the same way |
| App.TwoSyllablesValid | app.py:47-54 | any two-syllable word passes every check unchanged |
| App.SuggestedWords | app.py:107-110 | eleven of the twelve suggested words would pass the checks; "꿈" would be too short |

## Left out

- The Streamlit page itself is not modelled. That covers the page setup, titles, help text, HTML box markup, the spinner, the "generate again" button, `st.rerun`, and the column layout of the suggestion buttons. `View` records only which message or which boxes appear.
- The suggestion buttons' round trip through `st.session_state.example_word` is not modelled. `App.SubmitExample` takes the chosen word as an explicit, unchecked input.
- The API-key check at start-up (app.py:31-33) and the construction of the client from the environment (gemini_client.py:7) are configuration and environment I/O.
- The network call (gemini_client.py:53-66) is the `service` parameter. The model name and the fixed system instruction (gemini_client.py:24-42) are not part of `Request`, because they are constant and carry no logic. Temperature 0.8 and the 1000-token output budget are passed through as constants only. How the service uses them is not modelled.
- Logging and the exact wording of the warning and error messages are left out. Only the kind of outcome is kept. An exception raised anywhere inside the generator becomes `CallFailed` with its message, and the empty-reply `ValueError` becomes `EmptyResponse`.
- The input widget's `max_chars=10` limit (app.py:39) is a widget-level guard. The checks are modelled for text of any length.

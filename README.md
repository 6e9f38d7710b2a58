# MovLingo core in Dafny

MovLingo is a small React language-learning app. Its rule-based logic is modelled here and
proved about:

- **Lesson screen** (`LessonProgress`, from components/LessonView.tsx):
  - the per-lesson state: question index, score, hearts starting at 5, selected answer and answer status;
  - the three handlers that update that state;
  - the answer evaluator, which uses exact option match for image-choice questions and joined-string match for sentence-construction questions.
- **Sentence card** (`WordBank`, from components/SentenceConstructionCard.tsx):
  - two lists of id-tagged word tiles;
  - the tap handlers that move a tile between the lists;
  - the reset when the question changes;
  - the speech-recognition language tag;
  - the greedy matcher that turns a speech transcript into a selection drawn from the bank.
- **Lesson content** (`LessonContent`, from services/geminiService.ts):
  - the number of topics per difficulty;
  - the "at least three questions" check on a generated lesson;
  - the repair loop that appends missing answer words to a sentence question's word bank.
- **Screen state machine** (`Navigation`, from App.tsx): the requested screen, the four optional selections and the last score, the `handle*` callbacks, and the guards of `renderContent`.
- **Results** (`Results`, from components/ResultScreen.tsx): the percentage and the three message tiers.
- **Shared modules**:
  - `Types` holds the records of types.ts;
  - `JsText` models the JavaScript string built-ins the components use (`join`, `split`, `trim`, `toLowerCase`, the punctuation `replace`);
  - `Wrappers` holds `Option` and `Result`.

Stateful components are classes:
- `LessonProgress.Session` holds the lesson screen's state;
- `WordBank.Card` holds the card's two lists;
- `Navigation.App` holds the app state.

Their methods state the complete new state, and they keep an invariant:
- for `Session`: the score counts the correct checks, the hearts are 5 minus the wrong checks floored at 0, and the index lies inside the lesson;
- for `Card`: the two lists together are a permutation of the question's tiles, whose ids are distinct;
- for `App`: reachability, meaning every screen's prerequisites are set and the requested screen is the one shown. Each handler keeps it when it fires from the component it is wired to (the component shown before the call); `HandleResetApp` keeps it from any state.

Loops of the source are methods with loop invariants, proved against specification functions. These are the transcript matcher (`MatchSpoken` against `Match`), the word-bank repair (`AppendMissing` against `NotIn`) and the `forEach` over the questions (`RepairQuestions`, entry by entry against `Repaired`).

The handlers are modelled as written. Where the source relies on the page to keep a handler from running, the model leaves that guard out of the handler. For example, the Check button only exists before an answer is judged, yet `CheckAnswer` does not require an unanswered status.

Where the page guard is part of the caller's obligation, it appears as a `requires`. For example, a tile can only be tapped in the list it is drawn in, so `TapBankWord` requires the tile to be in the bank and `TapSelectedWord` requires it to be in the selection.

## Model

| member | source | states |
|---|---|---|
| LessonProgress.IsTruthy | components/LessonView.tsx:67 | the selection counts as given iff there is one and it is not the empty option string; an empty word list counts |
| LessonProgress.IsCorrect | components/LessonView.tsx:70-76 | an image-choice answer is right iff it equals `correctAnswer`; a sentence answer iff its space-join equals the correct order's; any other pairing is wrong |
| LessonProgress.SentenceCorrectIffSameWords | components/LessonView.tsx:74-75 | for words that are non-empty and contain no space, a sentence answer is right iff it is exactly the correct word sequence, in order |
| LessonProgress.WrongOrderIsIncorrect | components/LessonView.tsx:74-75 | `["eat","I"]` is wrong against `["I","eat"]`: the check is order-sensitive |
| LessonProgress.JoinedStringsAreCompared | components/LessonView.tsx:75 | `["a b"]` is judged right against `["a","b"]` because joined strings are compared |
| LessonProgress.ImageChoiceIsCaseSensitive | components/LessonView.tsx:73 | `"chat"` is wrong against `"Chat"`: no case folding |
| LessonProgress.WrongKindIsIncorrect | components/LessonView.tsx:71-76 | an array answer to an image question, or a string answer to a sentence question, is wrong |
| LessonProgress.Session.Valid | components/LessonView.tsx:37-39 | hearts stay in [0,5] and score never exceeds the number of checks made |
| LessonProgress.Session.constructor | components/LessonView.tsx:33-42 | initial state: no lesson, index 0, score 0, 5 hearts, no selection, unanswered |
| LessonProgress.Session.LoadLesson | components/LessonView.tsx:49-50 | the fetched lesson becomes current and the invariant is kept |
| LessonProgress.Session.SelectAnswer | components/LessonView.tsx:60-64 | the selection changes only while unanswered, otherwise it stays as it was |
| LessonProgress.Session.CheckAnswer | components/LessonView.tsx:66-85 | no selection (null or "") or no lesson changes nothing; right adds 1 to score and sets correct with hearts kept; wrong sets hearts to max(0, hearts-1) and incorrect with score kept; a judged check adds one to the checks counted, an unjudged one leaves the counters alone |
| LessonProgress.Session.Continue | components/LessonView.tsx:87-103 | after a wrong answer at 0 hearts the lesson completes with (score, number of questions); otherwise it advances and resets the answer, or completes after the last question |
| WordBank.LanguageCode | components/SentenceConstructionCard.tsx:19-25 | the six listed languages get their tags, any other name gets `en-US`; the result is always one of the listed tags |
| WordBank.CatalogCodesDistinct | components/SentenceConstructionCard.tsx:19-25 | each language of the target catalog gets a tag of its own |
| WordBank.Indexed | components/SentenceConstructionCard.tsx:29 | the tiles of a bank have pairwise distinct ids and their texts are exactly the bank's words, in order |
| WordBank.Texts | components/SentenceConstructionCard.tsx:110 | the reported answer has one text per tile |
| WordBank.TextsAppend | components/SentenceConstructionCard.tsx:110 | the texts of two lists one after the other are the two lists' texts one after the other: the map keeps the tiles' order, and a single tile reports its own text |
| WordBank.RemoveId | components/SentenceConstructionCard.tsx:109 | a tile is in the result iff it is in the list and has a different id; the list never grows |
| WordBank.RemoveUniqueId | components/SentenceConstructionCard.tsx:109 | with unique ids the filter removes exactly the tapped tile at its position and keeps the others in order |
| WordBank.PermutationKeepsIdsUnique | components/SentenceConstructionCard.tsx:105-119 | moving tiles between the lists never creates two tiles with one id |
| WordBank.FindIndex | components/SentenceConstructionCard.tsx:87 | the first tile whose lower-cased text equals the token, or -1 when none does |
| WordBank.SpokenWords | components/SentenceConstructionCard.tsx:81 | lower-casing, stripping and splitting the transcript gives at least one piece, and no piece holds a space or a punctuation character |
| WordBank.TranscriptTokensAreClean | components/SentenceConstructionCard.tsx:81-85 | every token looked up is non-empty and has no space and no punctuation character |
| WordBank.MatchStep | components/SentenceConstructionCard.tsx:84-92 | one piece: the selection only grows, at its end and by at most one tile, and the two lists keep their total size (that the tile comes from the bank is `StepIsPermutation`) |
| WordBank.StepIsPermutation | components/SentenceConstructionCard.tsx:89-92 | one piece only moves a tile: the selection followed by the bank holds the same tiles before and after |
| WordBank.Match | components/SentenceConstructionCard.tsx:83-92 | after the loop no more tiles are selected than pieces were spoken, and selection plus leftover bank have the size of the initial bank |
| WordBank.MatchTakesTileIffAvailable | components/SentenceConstructionCard.tsx:84-92 | at each piece, a non-empty token is appended to the selection's lower-cased texts iff a tile still in the bank spells it; an empty or unmatched token changes nothing |
| WordBank.MatchIsPermutation | components/SentenceConstructionCard.tsx:78-96 | selection followed by the leftover tiles is a permutation of the initial bank: each tile used at most once |
| WordBank.MatchFollowsTranscript | components/SentenceConstructionCard.tsx:83-92 | the selected tiles' lower-cased texts are a subsequence of the transcript's non-empty trimmed tokens: tokens kept in transcript order, unmatched ones dropped |
| WordBank.MatchPiece | components/SentenceConstructionCard.tsx:84-92 | one pass of the loop body (trim, findIndex, splice, push) computes `MatchStep` on the two lists |
| WordBank.MatchSpoken | components/SentenceConstructionCard.tsx:83-93 | the trim/findIndex/splice/push loop computes `Match` of the initial bank over the spoken pieces |
| WordBank.MatchTranscript | components/SentenceConstructionCard.tsx:76-93 | the transcript's pieces are matched from a copy of the initial bank; the two lists are a permutation of it |
| WordBank.Card.constructor | components/SentenceConstructionCard.tsx:28-30 | a mounted card has an empty selection and the question's tiles in the bank |
| WordBank.Card.ChangeQuestion | components/SentenceConstructionCard.tsx:37-42 | a new question empties the selection, rebuilds the bank with ids 0..n-1 and reports `[]` |
| WordBank.Card.TapBankWord | components/SentenceConstructionCard.tsx:105-111 | while unanswered, the tile goes to the end of the selection, leaves the bank at its position, and the reported texts are the old selection's texts followed by the tile's text; otherwise nothing changes |
| WordBank.Card.TapSelectedWord | components/SentenceConstructionCard.tsx:113-119 | while unanswered, the tile leaves the selection at its position, goes to the end of the bank, and the selection's texts are reported; otherwise nothing changes |
| WordBank.Card.HearTranscript | components/SentenceConstructionCard.tsx:74-99 | the selection is rebuilt from the initial bank, discarding earlier taps, and the card's tiles stay a permutation of the question's |
| WordBank.Card.UniqueOnCard | components/SentenceConstructionCard.tsx:105-119 | each of the two lists has distinct ids |
| JsText.Join | components/LessonView.tsx:75 | an empty array joins to ""; otherwise the result is as long as all pieces together plus one separator between each two neighbours |
| JsText.SplitOn | components/SentenceConstructionCard.tsx:81 | `split(' ')` gives at least one piece and no piece contains the separator |
| JsText.SplitOnJoins | components/SentenceConstructionCard.tsx:81 | joining the pieces of a split with the separator gives the string back |
| JsText.JoinInjective | components/LessonView.tsx:75 | non-empty lists of separator-free pieces with equal joins are equal |
| JsText.SplitOnUnique | components/SentenceConstructionCard.tsx:81 | the split is the only separator-free list that joins to the string |
| JsText.Trim | components/SentenceConstructionCard.tsx:84 | the result is a contiguous slice of the input, everything before and after it is white space, and it neither starts nor ends with white space |
| JsText.TrimKeepsChars | components/SentenceConstructionCard.tsx:84 | every character of the trimmed string occurs in the input |
| JsText.LowerChar | components/SentenceConstructionCard.tsx:81 | a character changes iff it is one of the modelled capitals, and what it becomes is not such a capital |
| JsText.Lower | components/SentenceConstructionCard.tsx:81 | lower-casing keeps the length |
| JsText.LowerChangesOnlyCapitals | components/SentenceConstructionCard.tsx:81 | lower-casing changes exactly the capitals, each in its own position |
| JsText.LowerHasNoCapital | components/SentenceConstructionCard.tsx:81 | no character of a lower-cased string is a capital |
| JsText.LowerIdempotent | components/SentenceConstructionCard.tsx:81 | lower-casing twice is lower-casing once |
| JsText.StripPunctuation | components/SentenceConstructionCard.tsx:81 | no punctuation character is left and the result is no longer than the input |
| JsText.StripPunctuationKeepsOthers | components/SentenceConstructionCard.tsx:81 | each character outside the punctuation class occurs in the result exactly as many times as in the input |
| JsText.StripPunctuationKeepsChars | components/SentenceConstructionCard.tsx:81 | every character of the result occurs in the input |
| JsText.StripPunctuationAppend | components/SentenceConstructionCard.tsx:81 | stripping a concatenation gives the concatenation of the stripped parts, so the kept characters keep their order |
| LessonContent.TopicCount | services/geminiService.ts:53 | 5 topics iff Beginner, 7 iff Intermediary, 10 iff Expert |
| LessonContent.TopicCountGrowsWithLevel | services/geminiService.ts:53 | a harder level asks for more topics |
| LessonContent.Distinct | services/geminiService.ts:126 | `new Set(...)` in iteration order: the same words, each once, in the order of their first occurrences |
| LessonContent.DistinctOfDistinctWords | services/geminiService.ts:126 | a word list without duplicates iterates as its own set |
| LessonContent.Missing | services/geminiService.ts:126-130 | the appended words are exactly the answer words the bank lacks, each once, in the order of their first occurrence in the answer |
| LessonContent.RepairCoversAnswer | services/geminiService.ts:126-131 | after the missing words are appended, every word of the correct answer is in the bank |
| LessonContent.RepairAddsNoCopies | services/geminiService.ts:126-130 | a word already in the bank gains no tile however often the answer repeats it, and each missing word gets exactly one tile |
| LessonContent.RepeatedWordGetsOneTile | services/geminiService.ts:126-130 | bank `["la","fille","mange","pomme"]` with answer `["la","fille","mange","la","pomme"]` is not repaired: the answer needs two `la` tiles and the bank keeps one |
| LessonContent.RepairIdempotent | services/geminiService.ts:128 | a second repair appends nothing |
| LessonContent.RepairExample | services/geminiService.ts:124-133 | bank `["a","x","y"]` with answer `["a","b"]` gains exactly `["b"]` |
| LessonContent.AppendMissing | services/geminiService.ts:127-131 | for a word list without duplicates, the loop appends exactly the words the bank lacks, in order, after the unchanged bank |
| LessonContent.RepairWordBank | services/geminiService.ts:126-131 | the loop only appends (the old bank is a prefix) the missing words, and then every answer word is in the bank |
| LessonContent.Repaired | services/geminiService.ts:124-133 | an image question is untouched; a sentence question keeps every field but its bank, the old bank is a prefix of the new one, and every answer word is in the new bank |
| LessonContent.RepairQuestions | services/geminiService.ts:124-133 | question count and order are kept, image questions are untouched, every sentence question is repaired and has every answer word in its bank at least once |
| LessonContent.CheckAndRepair | services/geminiService.ts:119-138 | fails with the lesson error iff `questions` is missing or has fewer than 3 entries; otherwise returns the repaired lesson |
| Navigation.Render | App.tsx:87-127 | the requested screen when its prerequisites are set, the language selector otherwise |
| Navigation.RenderFallsBackToLanguageSelector | App.tsx:87-127 | the only screen ever shown instead of the requested one is the language selector |
| Navigation.App.ReachableShowsRequested | App.tsx:87-127 | in a reachable state the requested screen is shown |
| Navigation.App.constructor | App.tsx:12-17 | the app starts on the native-language screen with nothing selected |
| Navigation.App.HandleNativeLanguageSelect | App.tsx:21-24 | sets the native language and moves to the language screen, keeping reachability |
| Navigation.App.HandleLanguageSelect | App.tsx:26-29 | sets the language and moves to the difficulty screen, keeping reachability |
| Navigation.App.HandleDifficultySelect | App.tsx:31-34 | sets the difficulty and moves to the lesson plan, keeping reachability |
| Navigation.App.HandleTopicSelect | App.tsx:36-39 | sets the topic and moves to the lesson, keeping reachability |
| Navigation.App.HandleLessonComplete | App.tsx:41-44 | stores (score, total) and moves to the results, keeping reachability |
| Navigation.App.HandleRestartLesson | App.tsx:46-53 | back to the lesson iff all four selections are set, otherwise the main-menu reset; from a reachable results screen always the lesson |
| Navigation.App.HandleBackToPlan | App.tsx:55-58 | moves to the lesson plan and clears only the topic |
| Navigation.App.HandleGoToMainMenu | App.tsx:60-66 | clears language, difficulty, topic and last score, keeps the native language, moves to the language screen |
| Navigation.App.HandleResetApp | App.tsx:68-75 | clears all five fields and returns to the native-language screen |
| Navigation.App.HandleBackToLanguageSelect | App.tsx:77-80 | clears only the language and moves to the language screen |
| Navigation.App.HandleBackToDifficultySelect | App.tsx:82-85 | clears only the difficulty and moves to the difficulty screen |
| Results.Percentage | components/ResultScreen.tsx:20 | 0 for no questions; otherwise the integer nearest to 100·score/total, a half rounding up |
| Results.PercentageBounded | components/ResultScreen.tsx:20 | a score not above the total gives a percentage in [0,100] |
| Results.MessageFor | components/ResultScreen.tsx:21 | excellent iff above 80, good iff above 50 and at most 80, keep practicing iff at most 50 |
| Results.PerfectScoreIsExcellent | components/ResultScreen.tsx:20-21 | all answers right gives 100 and the excellent tier |
| Results.FourOfFiveIsGood | components/ResultScreen.tsx:20-21 | 4 of 5 gives exactly 80, only the good tier since the comparison is strict |
| Results.PercentageMonotone | components/ResultScreen.tsx:20 | for a fixed total, a higher score never gives a lower percentage |
| Results.MessageMonotone | components/ResultScreen.tsx:20-21 | for a fixed total, a higher score never gives a lower tier |

## Left out

- The Gemini calls are not modelled. This covers the prompts, the response schemas, `generateContent`, `generateImages`, `JSON.parse` and the error wrapping (services/geminiService.ts:5-118, 135-163). They are a foreign network API. `CheckAndRepair` starts from an already-parsed lesson, whose `questions` field may be missing.
- The word-bank repair tests membership only (services/geminiService.ts:126-129), so an answer that repeats a word the bank holds once keeps a single tile for it and cannot be built by tapping. The model follows the code and states the limit in `RepeatedWordGetsOneTile` and `RepairAddsNoCopies`.
- CheckAndRepair: a parsed sentence question without a `wordBank` is not modelled. The response schema requires only `type` and `questionTitle` (services/geminiService.ts:45). For a non-empty answer, `q.wordBank.includes` then throws (services/geminiService.ts:128), and the catch reports the lesson failure (services/geminiService.ts:136-138). The model's questions always carry a word bank, so that failure path is missing.
- `generateLessonPlan` is modelled only through its topic count (`TopicCount`). The rest of it is a Gemini call.
- The browser speech APIs are not modelled: recognition set-up, `onstart`/`onend`/`onerror`, `handleMicClick`, the speech status and `SpeakButton`. They are browser I/O. `HearTranscript` takes the transcript as a parameter.
- The asynchronous lesson and plan fetches are not modelled, nor their loading and error states. They are I/O and concurrency. `LoadLesson` stands for the moment the fetch resolves.
- Rendering is not modelled: class strings, `ProgressBar`, the icons, the selector components and the translation tables, including the translation choice in App.tsx:19. None of these has rule-based behaviour.
- Session.CheckAnswer: the transient 'checking' status is folded into the single atomic step, because the handler overwrites it before React renders.
- Session.CheckAnswer: there is no requirement on the answer status. An empty word list is truthy in JavaScript, so the handler judges it (as wrong, unless the correct order also joins to the empty string, as `[]` and `[""]` do). The page disables the Check button for an empty list (components/LessonView.tsx:194) and does not render it once an answer is judged (components/LessonView.tsx:189). Those guards belong to the page, not to the handler.
- Session.Continue: there is no requirement on the answer status. The Continue button is only rendered after an answer is judged (components/LessonView.tsx:128), but the handler itself does not check.
- Card.HearTranscript: the model does not require an unanswered status. `onresult` never tests `answerStatus` (components/SentenceConstructionCard.tsx:74-99). The disabled microphone button (components/SentenceConstructionCard.tsx:170) stops a new recognition after the check, but a recognition started before the check still delivers its transcript.
- Card.TapBankWord and Card.TapSelectedWord require the tapped tile to be in the list it is drawn from. The page only renders a tile in its own list.
- Results.Percentage: the result is exact integer half-up rounding, `(200·score + total) / (2·total)`, in place of floating-point division followed by `Math.round`. The two agree except where binary floating point itself misrounds.
- JsText.Lower: only the capitals of Basic Latin, Latin-1 Supplement and Latin Extended-A are lower-cased, `Ÿ` (U+0178) and `Œ` (U+0152) included. Other capitals that JavaScript lower-cases are kept as they are: for example Latin Extended-B and Latin Extended Additional (German `ẞ`, U+1E9E, which JavaScript lower-cases to `ß`), fullwidth Latin, Greek, Cyrillic, and `İ` (U+0130, which lower-cases to two characters). This applies to tile texts and transcripts alike, so for such capitals the model's match can differ from the browser's.
- WordBank.LanguageCode: a lookup in a JavaScript object also finds inherited keys such as `constructor`, which yields a function rather than a tag. The model treats every name outside the six as "other". Names only come from the language catalog, so those keys do not occur.
- Card.ChangeQuestion: the model runs the reset only for a new question. In the source the reset effect also depends on `onAnswer` (components/SentenceConstructionCard.tsx:37-42). `onAnswer` is `handleAnswerSelect`, a `useCallback` keyed on the answer status (components/LessonView.tsx:60-64), so it gets a new identity at every Check and every Continue. The reset therefore also fires on every answer-status change: once an answer is judged, the source's card empties its selection and puts every tile back in the bank. The model's `Card` keeps its selection after a check and does not capture this.
- A second check of an answer that is already judged is not a no-op in the handler. Only the absent button prevents it. The model follows the code, as described for `CheckAnswer` above.

/** The entities of types.ts that the modelled components share. */
module Types {

  /** types.ts:42-64: the two question shapes, as a sum type with an explicit discriminant. */
  datatype Question =
    | ImageChoice(questionTitle: string, questionText: string, imagePrompt: string,
                  options: seq<string>, correctAnswer: string)
    | SentenceConstruction(questionTitle: string, phraseToTranslate: string,
                           correctAnswerInOrder: seq<string>, wordBank: seq<string>)

  /** types.ts:66-69 */
  datatype Lesson = Lesson(title: string, questions: seq<Question>)

  /** types.ts:71-75 */
  datatype LessonTopic = LessonTopic(title: string, level: int, icon: string)

  /** types.ts:77: the screen the application asks to show. */
  datatype AppState =
    | NativeLanguageSelectScreen  // 'native_language_select'
    | LanguageSelectScreen        // 'language_select'
    | DifficultySelectScreen      // 'difficulty_select'
    | LessonPlanScreen            // 'lesson_plan'
    | LessonScreen                // 'lesson'
    | ResultsScreen               // 'results'

  /** types.ts:79 */
  datatype AnswerStatus = Unanswered | Checking | Correct | Incorrect

  /** types.ts:81-84 */
  datatype Language = Language(name: string, flag: string)

  /** types.ts:86 */
  datatype Difficulty = Beginner | Intermediary | Expert

  /** The `{ score, total }` pair a finished lesson reports (App.tsx:17, LessonView.tsx:15). */
  datatype ScoreReport = ScoreReport(score: nat, total: nat)
}

/** The screen state machine of App.tsx: the requested screen (`appState`), the four
    optional selections and the last score, the `handle*` callbacks that set or clear
    them, and the guards of `renderContent` that fall back to the language selector. */
module Navigation {
  import opened Wrappers
  import opened Types

  /** The component `renderContent` shows. */
  datatype Component =
    | NativeLanguageSelector
    | LanguageSelector
    | DifficultySelector
    | LessonPlan
    | LessonView
    | ResultScreen

  /** The component each requested screen stands for. */
  function Requested(s: AppState): Component
  {
    match s
    case NativeLanguageSelectScreen => NativeLanguageSelector
    case LanguageSelectScreen => LanguageSelector
    case DifficultySelectScreen => DifficultySelector
    case LessonPlanScreen => LessonPlan
    case LessonScreen => LessonView
    case ResultsScreen => ResultScreen
  }

  /** The selections a screen needs before it can be shown. */
  predicate PrerequisitesMet(s: AppState, hasNative: bool, hasLanguage: bool, hasDifficulty: bool,
                             hasTopic: bool, hasScore: bool)
  {
    match s
    case NativeLanguageSelectScreen => true
    case LanguageSelectScreen => true
    case DifficultySelectScreen => hasLanguage
    case LessonPlanScreen => hasLanguage && hasDifficulty
    case LessonScreen => hasNative && hasLanguage && hasTopic && hasDifficulty
    case ResultsScreen => hasScore
  }

  /** The `switch` of `renderContent`: the requested component when its prerequisites are
      set, otherwise the language selector. */
  function Render(s: AppState, hasNative: bool, hasLanguage: bool, hasDifficulty: bool,
                  hasTopic: bool, hasScore: bool): (c: Component)
    ensures PrerequisitesMet(s, hasNative, hasLanguage, hasDifficulty, hasTopic, hasScore) ==> c == Requested(s)
    ensures !PrerequisitesMet(s, hasNative, hasLanguage, hasDifficulty, hasTopic, hasScore) ==> c == LanguageSelector
  {
    match s
    case LanguageSelectScreen => LanguageSelector
    case DifficultySelectScreen =>
      if hasLanguage then DifficultySelector else LanguageSelector
    case LessonPlanScreen =>
      if hasLanguage && hasDifficulty then LessonPlan else LanguageSelector
    case LessonScreen =>
      if hasNative && hasLanguage && hasTopic && hasDifficulty then LessonView else LanguageSelector
    case ResultsScreen =>
      if hasScore then ResultScreen else LanguageSelector
    case NativeLanguageSelectScreen => NativeLanguageSelector
  }

  /** The only screen that can be shown instead of the requested one is the language selector. */
  lemma RenderFallsBackToLanguageSelector(s: AppState, hasNative: bool, hasLanguage: bool,
                                          hasDifficulty: bool, hasTopic: bool, hasScore: bool)
    ensures var c := Render(s, hasNative, hasLanguage, hasDifficulty, hasTopic, hasScore);
      c == Requested(s) || c == LanguageSelector
  {
  }

  class App {
    var appState: AppState
    var nativeLanguage: Option<Language>
    var selectedLanguage: Option<Language>
    var selectedDifficulty: Option<Difficulty>
    var selectedTopic: Option<LessonTopic>
    var lastScore: Option<ScoreReport>

    /** The component on screen. */
    function Shown(): Component
      reads this
    {
      Render(appState, nativeLanguage.Some?, selectedLanguage.Some?, selectedDifficulty.Some?,
             selectedTopic.Some?, lastScore.Some?)
    }

    /** The states the callbacks reach from the first screen: past the first screen a native
        language is chosen, every screen has its prerequisites, and the results screen
        still has the selections of the lesson just finished. */
    ghost predicate Reachable()
      reads this
    {
      && (appState != NativeLanguageSelectScreen ==> nativeLanguage.Some?)
      && PrerequisitesMet(appState, nativeLanguage.Some?, selectedLanguage.Some?, selectedDifficulty.Some?,
                          selectedTopic.Some?, lastScore.Some?)
      && (appState == ResultsScreen ==>
            selectedLanguage.Some? && selectedDifficulty.Some? && selectedTopic.Some?)
    }

    /** In a reachable state the fallback never shows: the requested screen is on screen. */
    lemma ReachableShowsRequested()
      requires Reachable()
      ensures Shown() == Requested(appState)
    {
    }

    /** The initial `useState` values (App.tsx:12-17). */
    constructor ()
      ensures appState == NativeLanguageSelectScreen
      ensures nativeLanguage.None? && selectedLanguage.None? && selectedDifficulty.None?
      ensures selectedTopic.None? && lastScore.None?
      ensures Reachable()
    {
      appState := NativeLanguageSelectScreen;
      nativeLanguage := None;
      selectedLanguage := None;
      selectedDifficulty := None;
      selectedTopic := None;
      lastScore := None;
    }

    /** `handleNativeLanguageSelect`, wired to the native-language selector. */
    method HandleNativeLanguageSelect(language: Language)
      modifies this`nativeLanguage, this`appState
      ensures nativeLanguage == Some(language) && appState == LanguageSelectScreen
      ensures old(Reachable()) && old(Shown()) == NativeLanguageSelector ==> Reachable()
    {
      nativeLanguage := Some(language);
      appState := LanguageSelectScreen;
    }

    /** `handleLanguageSelect`, wired to the language selector. */
    method HandleLanguageSelect(language: Language)
      modifies this`selectedLanguage, this`appState
      ensures selectedLanguage == Some(language) && appState == DifficultySelectScreen
      ensures old(Reachable()) && old(Shown()) == LanguageSelector ==> Reachable()
    {
      selectedLanguage := Some(language);
      appState := DifficultySelectScreen;
    }

    /** `handleDifficultySelect`, wired to the difficulty selector. */
    method HandleDifficultySelect(difficulty: Difficulty)
      modifies this`selectedDifficulty, this`appState
      ensures selectedDifficulty == Some(difficulty) && appState == LessonPlanScreen
      ensures old(Reachable()) && old(Shown()) == DifficultySelector ==> Reachable()
    {
      selectedDifficulty := Some(difficulty);
      appState := LessonPlanScreen;
    }

    /** `handleTopicSelect`, wired to the lesson plan. */
    method HandleTopicSelect(topic: LessonTopic)
      modifies this`selectedTopic, this`appState
      ensures selectedTopic == Some(topic) && appState == LessonScreen
      ensures old(Reachable()) && old(Shown()) == LessonPlan ==> Reachable()
    {
      selectedTopic := Some(topic);
      appState := LessonScreen;
    }

    /** `handleLessonComplete`, wired to the lesson view. */
    method HandleLessonComplete(score: nat, total: nat)
      modifies this`lastScore, this`appState
      ensures lastScore == Some(ScoreReport(score, total)) && appState == ResultsScreen
      ensures old(Reachable()) && old(Shown()) == LessonView ==> Reachable()
    {
      lastScore := Some(ScoreReport(score, total));
      appState := ResultsScreen;
    }

    /** `handleRestartLesson`, wired to the results screen: back into the lesson when all four
        selections are set, otherwise the main-menu fallback. From the results screen of a
        reachable state the fallback is never taken. */
    method HandleRestartLesson()
      modifies this
      ensures old(nativeLanguage.Some? && selectedLanguage.Some? && selectedTopic.Some? && selectedDifficulty.Some?) ==>
        appState == LessonScreen && unchanged(this`nativeLanguage, this`selectedLanguage, this`selectedDifficulty,
                                              this`selectedTopic, this`lastScore)
      ensures !old(nativeLanguage.Some? && selectedLanguage.Some? && selectedTopic.Some? && selectedDifficulty.Some?) ==>
        && appState == LanguageSelectScreen && nativeLanguage == old(nativeLanguage)
        && selectedLanguage.None? && selectedDifficulty.None? && selectedTopic.None? && lastScore.None?
      ensures old(Reachable()) && old(Shown()) == ResultScreen ==> Reachable() && appState == LessonScreen
    {
      if nativeLanguage.Some? && selectedLanguage.Some? && selectedTopic.Some? && selectedDifficulty.Some? {
        appState := LessonScreen;
      } else {
        HandleGoToMainMenu();
      }
    }

    /** `handleBackToPlan`, the lesson view's exit: clears only the topic. */
    method HandleBackToPlan()
      modifies this`selectedTopic, this`appState
      ensures appState == LessonPlanScreen && selectedTopic.None?
      ensures old(Reachable()) && old(Shown()) == LessonView ==> Reachable()
    {
      appState := LessonPlanScreen;
      selectedTopic := None;
    }

    /** `handleGoToMainMenu`, wired to the results screen: clears the language, difficulty,
        topic and last score, and keeps the native language. */
    method HandleGoToMainMenu()
      modifies this`selectedLanguage, this`selectedDifficulty, this`selectedTopic, this`lastScore, this`appState
      ensures selectedLanguage.None? && selectedDifficulty.None? && selectedTopic.None? && lastScore.None?
      ensures appState == LanguageSelectScreen
      ensures old(Reachable()) && old(Shown()) == ResultScreen ==> Reachable()
    {
      selectedLanguage := None;
      selectedDifficulty := None;
      selectedTopic := None;
      lastScore := None;
      appState := LanguageSelectScreen;
    }

    /** `handleResetApp`, the language selector's back button: clears all five fields. */
    method HandleResetApp()
      modifies this
      ensures nativeLanguage.None? && selectedLanguage.None? && selectedDifficulty.None?
      ensures selectedTopic.None? && lastScore.None?
      ensures appState == NativeLanguageSelectScreen
      ensures Reachable()
    {
      nativeLanguage := None;
      selectedLanguage := None;
      selectedDifficulty := None;
      selectedTopic := None;
      lastScore := None;
      appState := NativeLanguageSelectScreen;
    }

    /** `handleBackToLanguageSelect`, the difficulty selector's back button: clears only the language. */
    method HandleBackToLanguageSelect()
      modifies this`selectedLanguage, this`appState
      ensures selectedLanguage.None? && appState == LanguageSelectScreen
      ensures old(Reachable()) && old(Shown()) == DifficultySelector ==> Reachable()
    {
      selectedLanguage := None;
      appState := LanguageSelectScreen;
    }

    /** `handleBackToDifficultySelect`, the lesson plan's back button: clears only the difficulty. */
    method HandleBackToDifficultySelect()
      modifies this`selectedDifficulty, this`appState
      ensures selectedDifficulty.None? && appState == DifficultySelectScreen
      ensures old(Reachable()) && old(Shown()) == LessonPlan ==> Reachable()
    {
      selectedDifficulty := None;
      appState := DifficultySelectScreen;
    }
  }
}

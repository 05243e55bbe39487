/**
 * The values the game engine stores and exchanges: one session per game kind,
 * the AI output each generator consumes (already parsed), the replies each
 * handler sends, and the answer mapping of the Hoax game.
 */
module Games {
  import opened Wrappers
  import opened Str
  import opened Keywords
  import opened Blanking
  import opened Scoring

  /** A cached game, by kind, with the fields its handlers read back. */
  datatype Session =
    | Reading(title: string, questions: seq<string>, answers: seq<string>)
    | Hoax(isHoax: bool, explanation: string, sourceUrl: string)
    | Library(fullText: string, correctAnswers: seq<string>)
    | Grammar(correctSentences: seq<string>, originalSentences: seq<string>)

  /**
   * How a handler fails: 404 for an unknown or foreign id, 400 for a wrong
   * answer count, 500 for an AI failure, a blanking mismatch, or an
   * exception the handler does not catch.
   */
  datatype Error = NotFound | BadInput | AiFailure | BlankMismatch | Crash

  function Status(e: Error): (code: nat)
    ensures e == NotFound <==> code == 404
    ensures e == BadInput <==> code == 400
    ensures code == 404 || code == 400 || code == 500
  {
    match e
    case NotFound => 404
    case BadInput => 400
    case _ => 500
  }

  /**
   * The parsed AI output of each generator. The reading text and the news
   * snippet are read only after the session is filed, so their absence is
   * modelled apart from a failure that stops the handler before that point.
   */
  datatype MissionContent = MissionContent(readingText: Option<string>, quizQuestions: seq<string>, correctAnswers: seq<string>)
  datatype HoaxContent = HoaxContent(newsSnippet: Option<string>, isHoax: bool, explanation: string, sourceUrl: Option<string>)
  datatype LibraryContent = LibraryContent(fullText: string, blanks: seq<string>)
  datatype GrammarContent = GrammarContent(sentencesToFix: seq<string>, correctSentences: seq<string>)

  /** One graded answer of the reading quiz, as the AI judge returns it. */
  datatype JudgedItem = JudgedItem(question: string, userAnswer: string, score: real, feedback: string)

  /**
   * The AI judge of the reading quiz: the call or the decoding failed, the
   * decoded object lacks `total_score` or `results`, or a usable verdict.
   */
  datatype Judgement = JudgeFailed | JudgeIncomplete | Judged(totalScore: real, results: seq<JudgedItem>)

  /** The replies. None of them carries a stored answer key before grading. */
  datatype MissionReply = MissionReply(missionId: string, title: string, readingText: string, quizQuestions: seq<string>)
  datatype MissionVerdict = MissionVerdict(title: string, totalScore: real, results: seq<JudgedItem>)
  datatype HoaxQuiz = HoaxQuiz(missionId: string, newsSnippet: string)
  datatype HoaxVerdict = HoaxVerdict(isCorrect: bool, correctAnswer: string, explanation: string, sourceUrl: string)
  datatype LibraryText = LibraryText(gameId: string, fullText: string, title: string)
  datatype QuizText = QuizText(gameId: string, textWithBlanks: string, totalQuestions: nat)
  datatype LibraryVerdict = LibraryVerdict(totalScore: nat, results: seq<BlankResult>, fullText: string)
  datatype GrammarGame = GrammarGame(gameId: string, genre: string, sentencesToFix: seq<string>)
  datatype GrammarVerdict = GrammarVerdict(totalScore: nat, results: seq<GrammarResult>)

  /** What every stored Library session satisfies: one to five verified keywords. */
  predicate WellFormed(s: Session) {
    s.Library? ==> 0 < |s.correctAnswers| <= MaxKeywords && AllVerified(s.correctAnswers, Lower(s.fullText))
  }

  /** The session a Library generator stores, once its keyword list survived. */
  lemma LibrarySessionWellFormed(fullText: string, blanks: seq<string>)
    requires VerifiedBlanks(fullText, blanks) != []
    ensures WellFormed(Library(fullText, VerifiedBlanks(fullText, blanks)))
  {
    VerifiedBlanksSpec(fullText, blanks);
  }

  /**
   * For a stored Library session whose text and keywords hold no brackets, the
   * quiz check passes exactly when every keyword found something to replace.
   */
  lemma LibraryQuizCheck(s: Session)
    requires s.Library? && WellFormed(s)
    requires NoBrackets(s.fullText)
    requires forall k :: 0 <= k < |s.correctAnswers| ==> NoBrackets(s.correctAnswers[k])
    ensures PlaceholderCount(BlankAll(s.fullText, s.correctAnswers).text) == |s.correctAnswers|
        <==> BlankAll(s.fullText, s.correctAnswers).count == |s.correctAnswers|
  {
    forall k | 0 <= k < |s.correctAnswers|
      ensures NoBrackets(s.correctAnswers[k]) && Passes(s.correctAnswers[k], Lower(s.fullText))
    {
    }
    QuizCheckDetectsMisses(s.fullText, s.correctAnswers);
  }

  /** The expected choice of the Hoax game, lower-case. */
  function HoaxAnswer(isHoax: bool): string {
    if isHoax then "hoax" else "fakta"
  }

  /** The comparison of main.py:313: the lower-cased choice against the expected word. */
  predicate ChoiceIsCorrect(choice: string, isHoax: bool) {
    Lower(choice) == HoaxAnswer(isHoax)
  }

  /** `correct_answer_str.capitalize()`, the answer shown to the player. */
  function DisplayedAnswer(isHoax: bool): string {
    Capitalize(HoaxAnswer(isHoax))
  }

  lemma HoaxWordsDiffer()
    ensures HoaxAnswer(true) != HoaxAnswer(false)
  {
    assert HoaxAnswer(true)[0] != HoaxAnswer(false)[0];
  }

  lemma DisplayedHoax()
    ensures DisplayedAnswer(true) == "Hoax" && Lower("Hoax") == "hoax"
  {
    assert Lower("oax") == "oax";
    assert Lower("Hoax") == "hoax";
  }

  lemma DisplayedFakta()
    ensures DisplayedAnswer(false) == "Fakta" && Lower("Fakta") == "fakta"
  {
    assert Lower("akta") == "akta";
    assert Lower("Fakta") == "fakta";
  }

  /**
   * The Hoax verdict: the word shown is "Hoax" or "Fakta", a choice is correct
   * for at most one of the two truths, a choice is correct exactly when it
   * spells the shown word in any mix of letter case, and typing the shown word
   * is judged correct while typing the other one is judged wrong.
   */
  lemma HoaxChoiceSpec(choice: string, isHoax: bool)
    ensures DisplayedAnswer(isHoax) == (if isHoax then "Hoax" else "Fakta")
    ensures !(ChoiceIsCorrect(choice, true) && ChoiceIsCorrect(choice, false))
    ensures ChoiceIsCorrect(choice, isHoax) <==> Lower(choice) == Lower(DisplayedAnswer(isHoax))
    ensures ChoiceIsCorrect(DisplayedAnswer(isHoax), isHoax)
    ensures !ChoiceIsCorrect(DisplayedAnswer(!isHoax), isHoax)
  {
    HoaxWordsDiffer();
    DisplayedHoax();
    DisplayedFakta();
  }
}

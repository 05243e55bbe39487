/**
 * The in-memory game store and the handlers that read and change it. Every
 * generator files one session under a fresh id; every grader looks the id up,
 * answers from the stored session, and removes it once the game is over.
 */
module GameStore {
  import opened Wrappers
  import opened Str
  import opened Keywords
  import opened Blanking
  import opened Scoring
  import opened Games

  class GameCache {
    /** `GAME_CACHE`: session id to session. */
    var sessions: map<string, Session>

    ghost predicate Valid()
      reads this
    {
      forall id :: id in sessions ==> WellFormed(sessions[id])
    }

    constructor()
      ensures sessions == map[] && Valid()
    {
      sessions := map[];
    }

    /**
     * `generate_reading_mission` (main.py:148-167): files the questions and the
     * ideal answers. The reading text is read only afterwards, so a reply
     * without it fails with the mission already filed.
     */
    method GenerateMission(id: string, topic: string, ai: Option<MissionContent>) returns (r: Result<MissionReply, Error>)
      requires Valid() && id !in sessions
      modifies this
      ensures Valid()
      ensures ai.None? ==> r == Failure(AiFailure) && sessions == old(sessions)
      ensures ai.Some? ==> sessions == old(sessions)[id := Reading(topic, ai.value.quizQuestions, ai.value.correctAnswers)]
      ensures ai.Some? && ai.value.readingText.None? ==> r == Failure(AiFailure)
      ensures ai.Some? && ai.value.readingText.Some? ==>
                r == Success(MissionReply(id, topic, ai.value.readingText.value, ai.value.quizQuestions))
    {
      if ai.None? {
        return Failure(AiFailure);
      }
      var data := ai.value;
      sessions := sessions[id := Reading(topic, data.quizQuestions, data.correctAnswers)];
      if data.readingText.None? {
        return Failure(AiFailure);
      }
      r := Success(MissionReply(id, topic, data.readingText.value, data.quizQuestions));
    }

    /**
     * `validate_reading_mission_quiz` (main.py:170-237): the verdict is the AI
     * judge's, passed through; the session goes as soon as the judge's reply is
     * decoded, even when that reply then lacks a field.
     */
    method ValidateMission(id: string, userAnswers: seq<string>, judge: Judgement) returns (r: Result<MissionVerdict, Error>)
      requires Valid()
      modifies this
      ensures Valid()
      ensures id !in old(sessions) ==> r == Failure(NotFound) && sessions == old(sessions)
      ensures id in old(sessions) && !old(sessions)[id].Reading? ==> r == Failure(Crash) && sessions == old(sessions)
      ensures id in old(sessions) && old(sessions)[id].Reading? ==>
                var s := old(sessions)[id];
                if |userAnswers| != |s.answers| then r == Failure(BadInput) && sessions == old(sessions)
                else if |s.questions| > |s.answers| then r == Failure(Crash) && sessions == old(sessions)
                else match judge
                  case JudgeFailed => r == Failure(AiFailure) && sessions == old(sessions)
                  case JudgeIncomplete => r == Failure(AiFailure) && sessions == old(sessions) - {id}
                  case Judged(total, results) =>
                    r == Success(MissionVerdict(s.title, total, results)) && sessions == old(sessions) - {id}
    {
      if id !in sessions {
        return Failure(NotFound);
      }
      var s := sessions[id];
      if !s.Reading? {
        return Failure(Crash);
      }
      if |userAnswers| != |s.answers| {
        return Failure(BadInput);
      }
      if |s.questions| > |s.answers| {
        return Failure(Crash);
      }
      match judge
      case JudgeFailed =>
        r := Failure(AiFailure);
      case JudgeIncomplete =>
        sessions := sessions - {id};
        r := Failure(AiFailure);
      case Judged(total, results) =>
        sessions := sessions - {id};
        r := Success(MissionVerdict(s.title, total, results));
    }

    /**
     * `generate_hoax_quiz` (main.py:281-299): a missing source URL is stored as
     * "N/A". The snippet is read only after the quiz is filed, so a reply
     * without it fails with the quiz already filed.
     */
    method GenerateHoax(id: string, ai: Option<HoaxContent>) returns (r: Result<HoaxQuiz, Error>)
      requires Valid() && id !in sessions
      modifies this
      ensures Valid()
      ensures ai.None? ==> r == Failure(AiFailure) && sessions == old(sessions)
      ensures ai.Some? ==>
                sessions == old(sessions)[id := Hoax(ai.value.isHoax, ai.value.explanation, ai.value.sourceUrl.GetOr("N/A"))]
      ensures ai.Some? && ai.value.newsSnippet.None? ==> r == Failure(AiFailure)
      ensures ai.Some? && ai.value.newsSnippet.Some? ==> r == Success(HoaxQuiz(id, ai.value.newsSnippet.value))
    {
      if ai.None? {
        return Failure(AiFailure);
      }
      var data := ai.value;
      var sourceUrl := if data.sourceUrl.Some? then data.sourceUrl.value else "N/A";
      sessions := sessions[id := Hoax(data.isHoax, data.explanation, sourceUrl)];
      if data.newsSnippet.None? {
        return Failure(AiFailure);
      }
      r := Success(HoaxQuiz(id, data.newsSnippet.value));
    }

    /** `check_hoax_answer`: one answer per quiz, right or wrong (main.py:302-321). */
    method CheckHoax(id: string, userChoice: string) returns (r: Result<HoaxVerdict, Error>)
      requires Valid()
      modifies this
      ensures Valid()
      ensures id !in old(sessions) ==> r == Failure(NotFound) && sessions == old(sessions)
      ensures id in old(sessions) && !old(sessions)[id].Hoax? ==> r == Failure(Crash) && sessions == old(sessions)
      ensures id in old(sessions) && old(sessions)[id].Hoax? ==>
                var s := old(sessions)[id];
                r == Success(HoaxVerdict(ChoiceIsCorrect(userChoice, s.isHoax), DisplayedAnswer(s.isHoax), s.explanation, s.sourceUrl))
                && sessions == old(sessions) - {id}
    {
      var userChoiceStr := Lower(userChoice);
      if id !in sessions {
        return Failure(NotFound);
      }
      var s := sessions[id];
      if !s.Hoax? {
        return Failure(Crash);
      }
      var correctAnswerStr := HoaxAnswer(s.isHoax);
      var isCorrect := userChoiceStr == correctAnswerStr;
      sessions := sessions - {id};
      r := Success(HoaxVerdict(isCorrect, Capitalize(correctAnswerStr), s.explanation, s.sourceUrl));
    }

    /**
     * `generate_library_full_text` (main.py:365-410): a session is filed exactly
     * when some keyword survives verification, with the surviving list as its
     * answer key; the reply carries the text and the title only.
     */
    method GenerateLibrary(id: string, format: string, genre: string, ai: Option<LibraryContent>)
      returns (r: Result<LibraryText, Error>)
      requires Valid() && id !in sessions
      modifies this
      ensures Valid()
      ensures ai.None? ==> r == Failure(AiFailure) && sessions == old(sessions)
      ensures ai.Some? && VerifiedBlanks(ai.value.fullText, ai.value.blanks) == [] ==>
                r == Failure(AiFailure) && sessions == old(sessions)
      ensures ai.Some? && VerifiedBlanks(ai.value.fullText, ai.value.blanks) != [] ==>
                r == Success(LibraryText(id, ai.value.fullText, format + " (" + genre + ")"))
                && sessions == old(sessions)[id := Library(ai.value.fullText, VerifiedBlanks(ai.value.fullText, ai.value.blanks))]
    {
      if ai.None? {
        return Failure(AiFailure);
      }
      var data := ai.value;
      var verifiedBlanks := VerifyBlanks(data.fullText, data.blanks);
      if verifiedBlanks == [] {
        return Failure(AiFailure);
      }
      LibrarySessionWellFormed(data.fullText, data.blanks);
      sessions := sessions[id := Library(data.fullText, verifiedBlanks)];
      r := Success(LibraryText(id, data.fullText, format + " (" + genre + ")"));
    }

    /**
     * `get_library_quiz_text` (main.py:413-476): blanks the stored keywords and
     * counts the placeholders; a count that differs from the number of answers
     * discards the game, otherwise the store is left as it was.
     */
    method GetLibraryQuizText(id: string) returns (r: Result<QuizText, Error>)
      requires Valid()
      modifies this
      ensures Valid()
      ensures id !in old(sessions) || !old(sessions)[id].Library? ==> r == Failure(NotFound) && sessions == old(sessions)
      ensures id in old(sessions) && old(sessions)[id].Library? ==>
                var s := old(sessions)[id];
                var blanked := BlankAll(s.fullText, s.correctAnswers).text;
                if PlaceholderCount(blanked) == |s.correctAnswers| then
                  r == Success(QuizText(id, blanked, |s.correctAnswers|)) && sessions == old(sessions)
                else
                  r == Failure(BlankMismatch) && sessions == old(sessions) - {id}
    {
      if id !in sessions || !sessions[id].Library? {
        return Failure(NotFound);
      }
      var s := sessions[id];
      var answers := s.correctAnswers;
      var textWithBlanks, blanksCreated := BlankOut(s.fullText, answers);
      var actualBlanksCreated := PlaceholderCount(textWithBlanks);
      if actualBlanksCreated != |answers| {
        sessions := sessions - {id};
        return Failure(BlankMismatch);
      }
      r := Success(QuizText(id, textWithBlanks, |answers|));
    }

    /**
     * `validate_library_blanks` (main.py:479-520): grades a submission of the
     * right size and removes the game; the stored key is never empty, so the
     * division by its length cannot fail.
     */
    method ValidateLibrary(id: string, userAnswers: seq<string>) returns (r: Result<LibraryVerdict, Error>)
      requires Valid()
      modifies this
      ensures Valid()
      ensures id !in old(sessions) || !old(sessions)[id].Library? ==> r == Failure(NotFound) && sessions == old(sessions)
      ensures id in old(sessions) && old(sessions)[id].Library? ==>
                var s := old(sessions)[id];
                if |userAnswers| != |s.correctAnswers| then
                  r == Failure(BadInput) && sessions == old(sessions)
                else
                  && sessions == old(sessions) - {id}
                  && r.Success?
                  && r.value.fullText == s.fullText
                  && r.value.totalScore == TotalScore(CorrectCount(userAnswers, s.correctAnswers), |s.correctAnswers|)
                  && |r.value.results| == |s.correctAnswers|
                  && forall i :: 0 <= i < |s.correctAnswers| ==>
                       r.value.results[i]
                       == BlankResult(i + 1, userAnswers[i], s.correctAnswers[i], SameAnswer(userAnswers[i], s.correctAnswers[i]))
    {
      if id !in sessions || !sessions[id].Library? {
        return Failure(NotFound);
      }
      var s := sessions[id];
      var correctAnswers := s.correctAnswers;
      if |userAnswers| != |correctAnswers| {
        return Failure(BadInput);
      }
      assert WellFormed(sessions[id]);
      var results, totalScore := GradeLibrary(userAnswers, correctAnswers);
      sessions := sessions - {id};
      r := Success(LibraryVerdict(totalScore, results, s.fullText));
    }

    /** `generate_grammar_game`: files the corrected and the original sentences (main.py:565-582). */
    method GenerateGrammar(id: string, genre: string, ai: Option<GrammarContent>) returns (r: Result<GrammarGame, Error>)
      requires Valid() && id !in sessions
      modifies this
      ensures Valid()
      ensures ai.None? ==> r == Failure(AiFailure) && sessions == old(sessions)
      ensures ai.Some? ==>
                r == Success(GrammarGame(id, genre, ai.value.sentencesToFix))
                && sessions == old(sessions)[id := Grammar(ai.value.correctSentences, ai.value.sentencesToFix)]
    {
      if ai.None? {
        return Failure(AiFailure);
      }
      var data := ai.value;
      sessions := sessions[id := Grammar(data.correctSentences, data.sentencesToFix)];
      r := Success(GrammarGame(id, genre, data.sentencesToFix));
    }

    /**
     * `submit_grammar_game` (main.py:585-619): grades a submission of the right
     * size and removes the game. An empty answer key divides by zero and an
     * original list shorter than the key runs off its end; both escape the
     * handler and leave the store as it was.
     */
    method SubmitGrammar(id: string, userCorrections: seq<string>) returns (r: Result<GrammarVerdict, Error>)
      requires Valid()
      modifies this
      ensures Valid()
      ensures id !in old(sessions) || !old(sessions)[id].Grammar? ==> r == Failure(NotFound) && sessions == old(sessions)
      ensures id in old(sessions) && old(sessions)[id].Grammar? ==>
                var s := old(sessions)[id];
                if |userCorrections| != |s.correctSentences| then
                  r == Failure(BadInput) && sessions == old(sessions)
                else if |s.correctSentences| == 0 || |s.originalSentences| < |s.correctSentences| then
                  r == Failure(Crash) && sessions == old(sessions)
                else
                  && sessions == old(sessions) - {id}
                  && r.Success?
                  && r.value.totalScore == TotalScore(CorrectCount(userCorrections, s.correctSentences), |s.correctSentences|)
                  && |r.value.results| == |s.correctSentences|
                  && forall i :: 0 <= i < |s.correctSentences| ==>
                       r.value.results[i]
                       == GrammarResult(s.originalSentences[i], userCorrections[i], s.correctSentences[i],
                                        SameAnswer(userCorrections[i], s.correctSentences[i]))
    {
      if id !in sessions || !sessions[id].Grammar? {
        return Failure(NotFound);
      }
      var s := sessions[id];
      var correctSentences, originalSentences := s.correctSentences, s.originalSentences;
      if |userCorrections| != |correctSentences| {
        return Failure(BadInput);
      }
      if |correctSentences| == 0 || |originalSentences| < |correctSentences| {
        return Failure(Crash);
      }
      var results, totalScore := GradeGrammar(originalSentences, userCorrections, correctSentences);
      sessions := sessions - {id};
      r := Success(GrammarVerdict(totalScore, results));
    }
  }

  /**
   * A Hoax quiz answers once: the first check reports whether the choice
   * matches and shows "Hoax" or "Fakta"; a second check of the same id is
   * not found (404). A quiz whose generation failed for want of a snippet is
   * filed all the same, and answers like any other.
   */
  method HoaxIsSingleUse(id: string, content: HoaxContent, choice: string)
    returns (quiz: Result<HoaxQuiz, Error>, first: Result<HoaxVerdict, Error>, second: Result<HoaxVerdict, Error>)
    ensures content.newsSnippet.Some? ==> quiz == Success(HoaxQuiz(id, content.newsSnippet.value))
    ensures content.newsSnippet.None? ==> quiz == Failure(AiFailure) && Status(quiz.error) == 500
    ensures first.Success?
    ensures first.value.isCorrect <==> Lower(choice) == (if content.isHoax then "hoax" else "fakta")
    ensures first.value.correctAnswer == (if content.isHoax then "Hoax" else "Fakta")
    ensures first.value.sourceUrl == content.sourceUrl.GetOr("N/A")
    ensures second == Failure(NotFound) && Status(second.error) == 404
  {
    var cache := new GameCache();
    quiz := cache.GenerateHoax(id, Some(content));
    first := cache.CheckHoax(id, choice);
    second := cache.CheckHoax(id, choice);
    HoaxChoiceSpec(choice, content.isHoax);
  }

  /**
   * A Grammar submission of the wrong size is refused and leaves the game in
   * place, so a later submission of the right size is graded; submitting the
   * reference sentences scores 100, and the game is gone afterwards.
   */
  method GrammarRetry(id: string, genre: string, content: GrammarContent, wrongSize: seq<string>)
    returns (game: Result<GrammarGame, Error>, refused: Result<GrammarVerdict, Error>,
             graded: Result<GrammarVerdict, Error>, again: Result<GrammarVerdict, Error>)
    requires 0 < |content.correctSentences| <= |content.sentencesToFix|
    requires |wrongSize| != |content.correctSentences|
    ensures game == Success(GrammarGame(id, genre, content.sentencesToFix))
    ensures refused == Failure(BadInput) && Status(refused.error) == 400
    ensures graded.Success? && graded.value.totalScore == 100
    ensures forall i :: 0 <= i < |graded.value.results| ==> graded.value.results[i].isCorrect
    ensures again == Failure(NotFound)
  {
    var cache := new GameCache();
    game := cache.GenerateGrammar(id, genre, Some(content));
    refused := cache.SubmitGrammar(id, wrongSize);
    graded := cache.SubmitGrammar(id, content.correctSentences);
    again := cache.SubmitGrammar(id, content.correctSentences);
    GradeSpec(content.correctSentences, content.correctSentences);
  }

  /**
   * A Library game from start to end: it is created exactly when a keyword
   * survives verification; the quiz text can be read again with the same
   * result; submitting the stored answers scores 100; and the game is gone
   * once graded, or once its quiz text showed a keyword mismatch.
   */
  method LibraryPlaythrough(id: string, format: string, genre: string, content: LibraryContent)
    returns (created: Result<LibraryText, Error>, quiz: Result<QuizText, Error>, quizAgain: Result<QuizText, Error>,
             graded: Result<LibraryVerdict, Error>, again: Result<LibraryVerdict, Error>)
    ensures created.Success? <==> VerifiedBlanks(content.fullText, content.blanks) != []
    ensures created.Failure? ==> created == Failure(AiFailure) && quiz == Failure(NotFound)
    ensures quiz.Success? ==> quizAgain == quiz && quiz.value.totalQuestions == |VerifiedBlanks(content.fullText, content.blanks)|
    ensures quiz.Success? ==> graded.Success? && graded.value.totalScore == 100
    ensures created.Success? && quiz.Failure? ==>
              quiz == Failure(BlankMismatch) && Status(quiz.error) == 500 && graded == Failure(NotFound)
    ensures again == Failure(NotFound)
  {
    var cache := new GameCache();
    created := cache.GenerateLibrary(id, format, genre, Some(content));
    quiz := cache.GetLibraryQuizText(id);
    quizAgain := cache.GetLibraryQuizText(id);
    var key := VerifiedBlanks(content.fullText, content.blanks);
    graded := cache.ValidateLibrary(id, key);
    again := cache.ValidateLibrary(id, key);
    if key != [] {
      GradeSpec(key, key);
    }
  }

  /**
   * A reading quiz whose judge fails stays in the store and can be submitted
   * again; once judged it is gone. A mission whose generation failed for want
   * of a reading text is filed all the same, and is judged like any other.
   */
  method MissionRetryAfterJudgeFailure(id: string, topic: string, content: MissionContent, total: real, items: seq<JudgedItem>)
    returns (mission: Result<MissionReply, Error>, failed: Result<MissionVerdict, Error>,
             judged: Result<MissionVerdict, Error>, again: Result<MissionVerdict, Error>)
    requires |content.quizQuestions| <= |content.correctAnswers|
    ensures content.readingText.Some? ==>
              mission == Success(MissionReply(id, topic, content.readingText.value, content.quizQuestions))
    ensures content.readingText.None? ==> mission == Failure(AiFailure)
    ensures failed == Failure(AiFailure)
    ensures judged == Success(MissionVerdict(topic, total, items))
    ensures again == Failure(NotFound)
  {
    var cache := new GameCache();
    mission := cache.GenerateMission(id, topic, Some(content));
    failed := cache.ValidateMission(id, content.correctAnswers, JudgeFailed);
    judged := cache.ValidateMission(id, content.correctAnswers, Judged(total, items));
    again := cache.ValidateMission(id, content.correctAnswers, Judged(total, items));
  }
}

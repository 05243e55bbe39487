# Game-session engine of the Literise AI service

This project models the core of a small FastAPI service behind four reading
mini-games: Reading Mission, Hoax or Not?, the Library fill-in-the-blank
game and the Grammar Zone. Each game runs in two phases:

1. A *generate* handler asks an AI model for content. It files a hidden
   answer key in an in-memory dictionary, `GAME_CACHE`, under a fresh id.
2. A *validate* or *check* handler looks the id up, grades the submission
   against the key and removes the entry.

The Library game has an extra read in between. It replaces the answer
keywords in the text with the placeholder `[.....]`, and it discards the
game if the placeholders do not add up.

The model is in Dafny. It is split into these files:

- `str.dfy` (module `Str`): the Python string operations the handlers use:
  - `strip`, built from a left strip and a right strip, and
    `rstrip(chars)`, with the full `isspace` set;
  - ASCII `lower` and `capitalize`;
  - the substring test `in`.
- `keywords.dfy` (module `Keywords`): verification of the AI's keyword list.
  - The list is cut to five.
  - Each keyword is stripped, lower-cased and trimmed of trailing `.,?!`.
  - A keyword is kept, as its stripped original, when the cleaned form is
    non-empty and occurs in the lower-cased text.
  - The loop is the method `VerifyBlanks`, proved against the function
    `VerifiedBlanks`.
- `blanking.dfy` (module `Blanking`): blanking the text.
  - `re.subn` with `count=1`, `re.escape` and `IGNORECASE` is modelled as
    `SubstituteFirst`: the first case-insensitive literal occurrence.
  - The blanking loop is `BlankOut`, proved against the fold `BlankAll`.
  - `str.count` is `PlaceholderCount`.
  - Main theorem: when neither the text nor the keywords contain brackets,
    the placeholder count equals the number of replacements made. So the
    fail-closed check fires exactly when some keyword found nothing to
    replace.
  - Two concrete inputs show that check firing:
    - a keyword nested in an earlier one;
    - a keyword whose trailing dot verification ignores but blanking does
      not.
- `scoring.dfy` (module `Scoring`): the exact-match grader of the Library and
  Grammar games.
  - Each correct item is worth `100 / n`.
  - The sum is rounded once with Python's `round`, which rounds half to
    even.
  - The grading loops are `GradeLibrary` and `GradeGrammar`.
- `games.dfy` (module `Games`) holds the plain values:
  - the sessions, one variant per game;
  - the parsed AI outputs and the replies;
  - the error kinds and their HTTP statuses;
  - the Hoax answer mapping.
- `game_cache.dfy` (module `GameStore`): the class `GameCache`. Its field
  `sessions: map<string, Session>` is `GAME_CACHE`, and it has one method
  per handler. Each method states the reply and the whole new store for
  every branch:
  - unknown id or wrong game;
  - wrong answer count;
  - AI failure;
  - exception;
  - success.
  The class invariant `Valid` says that every stored Library game has one to
  five verified keywords. Because of it, the division by the key length in
  the Library grader cannot fail. Four scenario methods run handlers in
  sequence on a fresh store.

Behaviours of the handlers worth knowing, all of them part of the model:

- **Hoax check** deletes the quiz on every check, right or wrong.
- **Reading validation** deletes the mission as soon as the judge's reply is
  decoded. If that reply then lacks `total_score` or `results`, the handler
  fails with the mission already gone (`JudgeIncomplete`).
- **A wrong answer count** (400) and **a failed judge call** both leave the
  session in place, so the game can be submitted again.
- **Wrong session kind.** A Reading or Hoax handler reached with another
  kind of session fails on a missing dictionary key, outside any `try`. This
  is the uncaught error `Crash`, and the store is unchanged.
- **Grammar crashes.** The Grammar grader crashes, with the store
  unchanged, in two cases:
  - on an empty key, by division by zero;
  - when the stored original sentences are fewer than the key, by an index
    error.
- **Half-filed games.** The Reading and Hoax generators file the session
  before they read the reading text or the news snippet. A decoded reply
  without that field fails with 500, yet its session stays in the store and
  can be played.
- **Strict decoding.** The AI reply is decoded with `json.loads` alone, so
  a reply that is not pure JSON fails the generator with 500.

## Model

| member | source | states |
|---|---|---|
| Str.LStripSpec | main.py:381 | the left half of `strip()` keeps a suffix of its input, drops only characters of the set, and what it keeps starts with a character outside the set |
| Str.RStripSpec | main.py:381 | `rstrip(chars)` keeps a prefix of its input, drops only characters of the set, and what it keeps ends with a character outside the set |
| Str.StripSpec | main.py:386 | `strip()` returns a slice of the input with only whitespace around it; the result has no whitespace at either end, and stripping it again changes nothing |
| Str.Lower | main.py:372 | `lower()` on ASCII letters; no contract of its own: `Str.LowerSpec` specifies it |
| Str.LowerSpec | main.py:372 | lower-casing keeps the length, leaves no upper-case letter, is idempotent, and distributes over concatenation |
| Str.Strip | main.py:381 | `strip()`; no contract of its own: `Str.StripSpec` and `Str.StripPadded` specify it |
| Str.RStrip | main.py:381 | `rstrip(".,?!")` and the right half of `strip()`; no contract of its own: `Str.RStripSpec` and `Str.RStripPast` specify it |
| Str.Contains | main.py:384 | `p in s`: defined as the existence of a position where `p` occurs in `s`, so it needs no contract of its own |
| Str.StrippedFixed | main.py:502 | a string with no whitespace at either end is its own `strip()` |
| Str.LStripPast | main.py:381 | the left half of `strip()` removes exactly a leading run of the set when the next character is outside it |
| Str.RStripPast | main.py:381 | `rstrip(chars)` removes exactly a trailing run of the set when the character before it is outside it |
| Str.StripPadded | main.py:502 | `strip()` of whitespace, then a string with no whitespace at its ends, then whitespace, is that string |
| Str.Capitalize | main.py:318 | `capitalize()`; no contract of its own: `Games.HoaxChoiceSpec` states the words it shows |
| Keywords.Candidates | main.py:376 | `blanks[:5]`; no contract of its own: `Keywords.VerifiedBlanksSpec` states the cap of five and that only the first five entries are examined |
| Keywords.CheckForm | main.py:381 | the cleaned form `strip().lower().rstrip(".,?!")`; no contract of its own: `Keywords.StripKeepsPassing` and `Blanking.VerifiedHasNonDot` state its properties |
| Keywords.Passes | main.py:384 | the keyword test; no contract of its own: `Keywords.KeepSound`, `Keywords.KeepComplete` and `Keywords.KeepEmpty` state how the filter follows it |
| Keywords.Keep | main.py:378-389 | the filter; no contract of its own: `Keywords.KeepLength`, `KeepSound`, `KeepOrdered`, `KeepComplete` and `KeepEmpty` specify it |
| Keywords.VerifiedBlanks | main.py:372-389 | the stored key; no contract of its own: `Keywords.VerifiedBlanksSpec` specifies it |
| Keywords.StripKeepsPassing | main.py:381-386 | the stored form of a passing keyword (`blank.strip()`) is itself stripped and passes the same check |
| Keywords.KeepLength | main.py:378-389 | the filter keeps at most as many keywords as it is given |
| Keywords.KeepSound | main.py:381-386 | every kept keyword is stripped and has a non-empty cleaned form occurring in the lower-cased text |
| Keywords.KeepOrdered | main.py:378-386 | the kept keywords are the stripped inputs in their original order, some left out |
| Keywords.KeepComplete | main.py:384-386 | every keyword that passes the check is kept |
| Keywords.PassCount | main.py:378-386 | the number of entries that pass the check, a repeated entry counted each time; no contract of its own: `Keywords.KeepCount` relates it to the filter |
| Keywords.KeepCount | main.py:378-386 | the filter keeps exactly one entry per passing input, so a repeated passing keyword is kept as often as it appears |
| Keywords.KeepEmpty | main.py:384-394 | nothing is kept exactly when no keyword passes |
| Keywords.VerifiedBlanksSpec | main.py:372-394 | the verified list has at most 5 entries, in AI order, each stripped and found in the text; every passing keyword among the first five is in it, and its length is the number of passing entries among them, repeats included; it is empty exactly when none of them passes |
| Keywords.VerifyBlanks | main.py:372-389 | the loop returns exactly the verified list, with at most 5 entries, all verified |
| Blanking.FindFrom | main.py:438-444 | the search returns the leftmost case-insensitive literal match at or after the start, or reports that there is none |
| Blanking.SubstituteFirst | main.py:438-444 | `re.subn(..., count=1)` replaces at most once; the count is 0 exactly when the keyword does not occur, and the text is then unchanged; otherwise the placeholder replaces the leftmost occurrence |
| Blanking.BlankAll | main.py:434-453 | the keywords are substituted in order, each on the text the earlier ones left; the count of successes is at most the number of keywords |
| Blanking.BlankAllSnoc | main.py:434-453 | blanking one more keyword continues from the text and count of the earlier ones, which is the loop's step |
| Blanking.BlankOut | main.py:433-453 | the loop's `text_with_blanks` and `blanks_created` are exactly the in-order substitution of all answers; `blanks_created` is at most the number of answers |
| Blanking.PlaceholderCount | main.py:460 | `count("[.....]")` scans left to right and skips each occurrence it finds; seven characters per placeholder fit in the text |
| Blanking.NoOccurrenceInside | main.py:460 | no occurrence of the placeholder starts inside another one |
| Blanking.PlaceholderCountSpec | main.py:460 | the left-to-right count equals the number of positions where the placeholder occurs, so it misses no occurrence |
| Blanking.MatchesAt | main.py:438-444 | the escaped, case-insensitive pattern matches at a position; no contract of its own: `Blanking.MatchedChar`, `Blanking.FindFrom` and `Blanking.SubstituteFirst` state its use |
| Blanking.MatchedChar | main.py:438-444 | a case-insensitive match agrees with the keyword letter by letter up to case |
| Blanking.MatchAvoidsPlaceholder | main.py:438-444 | a keyword without brackets and not made only of dots cannot match inside or across a placeholder |
| Blanking.SpliceAddsOne | main.py:438-450 | each successful substitution in a text whose brackets all belong to placeholders adds exactly one placeholder and keeps that property |
| Blanking.BlankAllCounts | main.py:433-460 | after blanking such keywords, the placeholder count is the count before plus the number of successful substitutions |
| Blanking.PlainTextIsMarked | main.py:460 | a text without brackets holds no placeholder |
| Blanking.VerifiedHasNonDot | main.py:381-384 | a keyword that passes verification has a character other than a dot |
| Blanking.QuizCheckDetectsMisses | main.py:460-470 | for a text and verified keywords without brackets, the placeholder count equals `blanks_created`, so the mismatch check fires exactly when some keyword was not replaced |
| Blanking.NestedKeywordsFault | main.py:433-470 | keywords "kupu-kupu" then "kupu" in "kupu-kupu terbang": one placeholder for two answers, so the check fires |
| Blanking.TrailingDotFault | main.py:381-386 | "terbang." passes verification against "kupu-kupu terbang" (the dot is trimmed), yet the literal search for "terbang." finds nothing |
| Scoring.SameAnswer | main.py:502 | the per-item comparison; no contract of its own: `Scoring.SameAnswerSpec` states what it ignores |
| Scoring.SameAnswerSpec | main.py:502 | for an answer and a key that are each whitespace around a core with no whitespace at its ends, the comparison is symmetric and holds exactly when the two cores differ at most in letter case |
| Scoring.CorrectCount | main.py:501-505 | the number of correct items; no contract of its own: `Scoring.CorrectCountEnds` and `Scoring.CorrectCountMonotone` specify it |
| Scoring.CountBelow | main.py:501-505 | the number of correct items among the first k is at most k |
| Scoring.CorrectCountEnds | main.py:501-505 | the count is n exactly when every answer matches, and 0 exactly when none does |
| Scoring.CorrectCountMonotone | main.py:501-505 | a submission right wherever another is right has at least as many correct items |
| Scoring.RoundHalfEven | main.py:517 | `round` gives the integer nearest to the quotient, and the even neighbour on an exact tie |
| Scoring.RoundMonotone | main.py:517 | rounding preserves order |
| Scoring.TotalScore | main.py:499-517 | `round` of the summed item scores; no contract of its own: `Scoring.ScoreRange`, `ScoreMonotone` and `ScoreEndsExact` specify it |
| Scoring.ScoreRange | main.py:499-517 | the total is at most 100; it is 100 when all items are correct and 0 when none is |
| Scoring.ScoreMonotone | main.py:499-517 | more correct items never lower the total |
| Scoring.ScoreEndsExact | main.py:499-517 | with fewer than 200 items, the total is 100 only when all are correct and 0 only when none is |
| Scoring.ScoreRoundsUpAt200 | main.py:600-617 | with 200 items, 199 correct answers round to 100, since 99.5 rounds to the even 100 |
| Scoring.GradeSpec | main.py:497-517 | the graded total of a submission is at most 100, 100 when every answer matches, and 0 when none does |
| Scoring.GradeMonotone | main.py:497-517 | a submission right wherever another is right scores at least as much |
| Scoring.GradeLibrary | main.py:497-511 | one result per blank, in order, numbered from 1, with user answer, correct answer and verdict; the total is the rounded score of the correct count |
| Scoring.GradeGrammar | main.py:598-612 | one result per sentence, in order, with original, correction, correct sentence and verdict; the total is the rounded score of the correct count |
| Games.Status | main.py:173 | not found is 404, a wrong count is 400, and every other failure is 500 |
| Games.LibrarySessionWellFormed | main.py:393-401 | a Library session filed with a non-empty verified list holds one to five verified keywords |
| Games.LibraryQuizCheck | main.py:460-470 | for a stored Library game whose text and keywords hold no brackets, the quiz check passes exactly when every keyword was replaced |
| Games.HoaxAnswer | main.py:312 | the expected word; no contract of its own: `Games.HoaxChoiceSpec` states its properties |
| Games.ChoiceIsCorrect | main.py:305-313 | the choice test; no contract of its own: `Games.HoaxChoiceSpec` states its properties |
| Games.DisplayedAnswer | main.py:318 | the word shown; no contract of its own: `Games.HoaxChoiceSpec` states its properties |
| Games.HoaxChoiceSpec | main.py:310-318 | the answer shown is "Hoax" or "Fakta"; no choice is correct for both truths; a choice is correct exactly when it spells the shown word in any letter case; the shown word itself is judged correct and the other word wrong |
| GameStore.GameCache.constructor | main.py:26 | the store starts empty |
| GameStore.GameCache.GenerateMission | main.py:148-167 | once the reply is decoded with its questions and answers, the mission's title, questions and answers are filed under the fresh id; the reply then carries the reading text and questions but no answers, or fails when the reading text is missing, with the mission left filed; a failure before that point leaves the store unchanged |
| GameStore.GameCache.ValidateMission | main.py:170-239 | the outcomes, in source order: unknown id gives 404; a session of another kind gives an uncaught error; a wrong answer count gives 400; more questions than answers gives an uncaught error; all of these leave the store unchanged. A failed judge call leaves the session. An incomplete verdict removes the session and fails. A verdict is passed through and removes exactly this id |
| GameStore.GameCache.GenerateHoax | main.py:281-299 | once the reply is decoded with its truth and explanation, these and the source URL ("N/A" when missing) are filed; the reply then carries only the snippet, or fails when the snippet is missing, with the quiz left filed; a failure before that point leaves the store unchanged |
| GameStore.GameCache.CheckHoax | main.py:302-321 | unknown id gives 404 and a session of another kind an uncaught error, both with the store unchanged; for a Hoax quiz the verdict compares the lower-cased choice with "hoax" or "fakta", shows the capitalised answer, and removes exactly this id |
| GameStore.GameCache.GenerateLibrary | main.py:365-410 | a session is filed exactly when the verified list is non-empty, with that list as its key; the reply carries id, text and "format (genre)" only; otherwise the store is unchanged |
| GameStore.GameCache.GetLibraryQuizText | main.py:413-476 | unknown id or another game gives 404. A matching placeholder count returns the blanked text and the number of answers, store unchanged. Otherwise exactly this id is removed and the call fails |
| GameStore.GameCache.ValidateLibrary | main.py:479-520 | unknown id or another game gives 404. A wrong answer count gives 400, session kept. Otherwise the verdict grades every answer in order, returns the text, and removes exactly this id |
| GameStore.GameCache.GenerateGrammar | main.py:565-582 | on AI success, the correct and the original sentences are filed, and the sentences to fix are returned |
| GameStore.GameCache.SubmitGrammar | main.py:585-619 | unknown id or another game gives 404. A wrong count gives 400. An empty key or too few originals crashes. Each of these leaves the store unchanged. Otherwise every correction is graded in order and exactly this id is removed |
| GameStore.HoaxIsSingleUse | main.py:281-321 | a hoax quiz answers once, with the right verdict and the shown answer; the second check is 404; a quiz whose generation failed for want of a snippet (500) still answers |
| GameStore.GrammarRetry | main.py:585-619 | a wrong-size submission is refused with 400 and the game stays; the reference sentences then score 100; a resubmission is 404 |
| GameStore.LibraryPlaythrough | main.py:365-520 | a game is created iff some keyword survives; the quiz text read is repeatable; submitting the key scores 100; the game is gone after grading or after a mismatch, which is a 500 |
| GameStore.MissionRetryAfterJudgeFailure | main.py:148-239 | a failed judge call keeps the mission for a retry; a judged retry returns the verdict; a resubmission is 404; a mission whose generation failed for want of a reading text is judged all the same |

## Left out

- The call to the AI model is left out: `call_gemini_api`, with its HTTP
  client, status mapping and blocked-content check, and the prompts and
  response schemas. Each generator receives the parsed AI output as an
  `Option`, where `None` stands for any failure inside the handler's `try`
  before the session is filed. The reading text and the news snippet, which
  are read after filing, are `Option` fields of their own. The reading judge
  is a `Judgement` value.
- JSON decoding (`json.loads`) is left out, and so is the request body
  validation by pydantic, including the extraction of `answer` from each
  submitted reading answer.
- `uuid.uuid4()` is left out: the fresh id is a parameter with a freshness
  precondition.
- Routing, the server start-up, the `print` logging and the configured API
  key are left out.
- Concurrency between requests is left out: each handler runs as one atomic
  step on the store.
- Scoring.TotalScore: the total is computed exactly, from the number of
  correct items, instead of from a sum of floating-point `100 / n`.
  - For up to five items this gives the same rounded total.
  - For long grammar lists, floating-point error could move a value that
    lies exactly on a half.
- Str.Lower, Blanking.MatchesAt: lower-casing and `IGNORECASE` fold ASCII
  letters only. The Unicode case mappings of Python are not modelled.
- `re.subn` is modelled only for the escaped, literal patterns the handler
  builds; general regular expressions are not part of this model.
- GameStore.GameCache.ValidateMission: the judge's scores and feedback are
  passed through without being modelled. So is the title that goes into the
  prompt.

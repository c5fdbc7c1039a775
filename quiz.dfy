/** `play_quiz`: validate the request body, filter out the questions already
    served and, unless the category type is `'click'`, those outside the quiz
    category, then serve the question at a random index of what is left. */
module Quiz {
  import opened Records
  import opened Errors
  import Search

  /** The `quiz_category` object of the body; `None` stands for a missing key. */
  datatype QuizCategory = QuizCategory(id: Option<int>, kind: Option<string>)

  /** The parsed JSON body. For an object: whether it has a `'category'` key
      (whose value is never read), its `quiz_category` (`None`: absent or not
      an object) and its `previous_questions` (`None`: absent or not a list of
      ids). A body that is a JSON string, such as `''`, is `JsonText`. */
  datatype QuizBody =
    | JsonObject(hasCategory: bool, quizCategory: Option<QuizCategory>, previousQuestions: Option<seq<int>>)
    | JsonText(text: string)

  /** Which categories a quiz draws from: every one (type `'click'`) or one id. */
  datatype Scope = AnyCategory | OnlyCategory(id: int)

  /** The quiz category as the `try` block reads it: `category['type']` first,
      then `category['id']` unless the type is `'click'`; a missing key raises. */
  function ScopeOf(qc: QuizCategory): (r: Option<Scope>)
    ensures r == Some(AnyCategory) <==> qc.kind == Some("click")
    ensures r.Some? && r.value.OnlyCategory? <==> qc.kind.Some? && qc.kind != Some("click") && qc.id.Some?
    ensures r.Some? && r.value.OnlyCategory? ==> r.value.id == qc.id.value
  {
    match qc.kind
    case None => None
    case Some(k) =>
      if k == "click" then Some(AnyCategory)
      else match qc.id
        case None => None
        case Some(id) => Some(OnlyCategory(id))
  }

  /** A question may be served: not served before and inside the scope. */
  predicate Eligible(q: Question, scope: Scope, previous: seq<int>)
  {
    q.id !in previous && (scope.OnlyCategory? ==> q.category == scope.id)
  }

  /** The rows the query at lines 231-237 returns. */
  function EligibleQuestions(questions: seq<Question>, scope: Scope, previous: seq<int>): (r: seq<Question>)
    ensures forall q :: q in r <==> q in questions && Eligible(q, scope, previous)
    ensures r == [] <==> forall q :: q in questions ==> !Eligible(q, scope, previous)
  {
    Filter(questions, (q: Question) => Eligible(q, scope, previous))
  }

  /** The check at line 224: abort when the body has neither a `'category'` nor
      a `'previous_questions'` key (for a string body, `in` tests substrings). */
  predicate GuardAborts(body: QuizBody)
  {
    match body
    case JsonObject(hasCategory, _, previousQuestions) => !hasCategory && previousQuestions.None?
    case JsonText(text) => !Search.Contains(text, "category") && !Search.Contains(text, "previous_questions")
  }

  /** Validation and filtering, lines 224-237. A string body that passes the
      guard fails in `body.get`, outside the `try`: a 500. */
  function QuizPool(questions: seq<Question>, body: QuizBody): (r: Response<seq<Question>>)
    ensures GuardAborts(body) ==> r == Err(Unprocessable)
    ensures body.JsonText? && !GuardAborts(body) ==> r == Err(InternalServerError)
    ensures body.JsonObject? ==>
      (r.Ok? <==> body.quizCategory.Some? && body.previousQuestions.Some? && ScopeOf(body.quizCategory.value).Some?)
    ensures body.JsonObject? && r.Err? ==> r.status == Unprocessable
    ensures r.Ok? ==> (body.JsonObject? &&
      r.payload == EligibleQuestions(questions, ScopeOf(body.quizCategory.value).value, body.previousQuestions.value))
  {
    if GuardAborts(body) then Err(Unprocessable)
    else match body
      case JsonText(_) => Err(InternalServerError)
      case JsonObject(_, quizCategory, previousQuestions) =>
        if quizCategory.None? || previousQuestions.None? then Err(Unprocessable)
        else match ScopeOf(quizCategory.value)
          case None => Err(Unprocessable)
          case Some(scope) => Ok(EligibleQuestions(questions, scope, previousQuestions.value))
  }

  /** `random.randrange(0, len(questions))` is the parameter `index`. */
  predicate IndexInRange(questions: seq<Question>, body: QuizBody, index: nat)
  {
    var pool := QuizPool(questions, body);
    pool.Ok? && pool.payload != [] ==> index < |pool.payload|
  }

  /** `play_quiz`: the served question, `None` when nothing is eligible. */
  function PlayQuiz(questions: seq<Question>, body: QuizBody, index: nat): (r: Response<Option<Question>>)
    requires IndexInRange(questions, body, index)
    ensures r.Err? <==> QuizPool(questions, body).Err?
    ensures r.Err? ==> r.status == QuizPool(questions, body).status
    ensures r.Ok? ==>
      var scope, previous := ScopeOf(body.quizCategory.value).value, body.previousQuestions.value;
      && (r.payload.Some? ==>
            && r.payload.value in questions
            && r.payload.value.id !in previous
            && (body.quizCategory.value.kind != Some("click") ==> r.payload.value.category == body.quizCategory.value.id.value))
      && (r.payload.None? <==> forall q :: q in questions ==> !Eligible(q, scope, previous))
  {
    match QuizPool(questions, body)
    case Err(status) => Err(status)
    case Ok(pool) => if |pool| > 0 then Ok(Some(pool[index])) else Ok(None)
  }

  /** The `'category'` key only matters to the guard, and there only when
      `previous_questions` is missing, which fails later anyway: it never
      changes the outcome for an object body. */
  lemma CategoryKeyNeverDecides(questions: seq<Question>, qc: Option<QuizCategory>, previous: Option<seq<int>>)
    ensures QuizPool(questions, JsonObject(true, qc, previous)) == QuizPool(questions, JsonObject(false, qc, previous))
  {
  }

  /** The empty string body of a request without fields is a 422. */
  lemma EmptyTextBodyIsUnprocessable(questions: seq<Question>)
    ensures QuizPool(questions, JsonText("")) == Err(Unprocessable)
  {
  }

  /** Every eligible question is served for some index in range. */
  lemma EveryEligibleCanBeServed(questions: seq<Question>, body: QuizBody, q: Question)
    requires QuizPool(questions, body).Ok?
    requires q in questions && Eligible(q, ScopeOf(body.quizCategory.value).value, body.previousQuestions.value)
    ensures exists index: nat :: IndexInRange(questions, body, index) && PlayQuiz(questions, body, index) == Ok(Some(q))
  {
    var pool := QuizPool(questions, body).payload;
    var index :| 0 <= index < |pool| && pool[index] == q;
    assert IndexInRange(questions, body, index);
  }

  /** Over rows with distinct ids, in whatever order the query returns them,
      different indices serve different questions, so a uniform index gives
      every eligible question the same chance. */
  lemma DistinctIndicesServeDistinctQuestions(questions: seq<Question>, body: QuizBody, i: nat, j: nat)
    requires IdsDistinct(questions)
    requires IndexInRange(questions, body, i) && IndexInRange(questions, body, j)
    requires PlayQuiz(questions, body, i).Ok? && PlayQuiz(questions, body, i).payload.Some?
    requires i != j
    ensures PlayQuiz(questions, body, j).payload.Some?
    ensures PlayQuiz(questions, body, i).payload.value.id != PlayQuiz(questions, body, j).payload.value.id
  {
    var pool := QuizPool(questions, body).payload;
    FilterKeepsDistinct(questions, (q: Question) => Eligible(q, ScopeOf(body.quizCategory.value).value, body.previousQuestions.value));
    assert IdsDistinct(pool);
  }

  /** The ids of the served questions, in order. */
  function ServedIds(served: seq<Question>): (ids: seq<int>)
    ensures |ids| == |served|
    ensures forall i :: 0 <= i < |served| ==> ids[i] == served[i].id
  {
    if served == [] then [] else [served[0].id] + ServedIds(served[1..])
  }

  /** A client playing a quiz: each round posts the ids served so far and the
      same category; `draws` are the random source's numbers, reduced into range.
      The session stops when a round serves no question or the draws run out. */
  function Session(questions: seq<Question>, qc: QuizCategory, previous: seq<int>, draws: seq<nat>): seq<Question>
    decreases |draws|
  {
    var body := JsonObject(true, Some(qc), Some(previous));
    var pool := QuizPool(questions, body);
    if draws == [] || pool.Err? || pool.payload == [] then []
    else
      match PlayQuiz(questions, body, draws[0] % |pool.payload|)
      case Ok(Some(q)) => [q] + Session(questions, qc, previous + [q.id], draws[1..])
      case _ => []
  }

  /** One round of a session, unfolded. */
  lemma SessionStep(questions: seq<Question>, qc: QuizCategory, previous: seq<int>, draws: seq<nat>)
    requires ScopeOf(qc).Some?
    ensures var pool := EligibleQuestions(questions, ScopeOf(qc).value, previous);
      if draws == [] || pool == [] then Session(questions, qc, previous, draws) == []
      else
        var q := pool[draws[0] % |pool|];
        Session(questions, qc, previous, draws) == [q] + Session(questions, qc, previous + [q.id], draws[1..])
  {
  }

  /** Every question a session serves is a row, inside the scope, and was not
      served before the session. */
  lemma {:induction false} SessionServesEligible(questions: seq<Question>, qc: QuizCategory, previous: seq<int>, draws: seq<nat>)
    requires ScopeOf(qc).Some?
    decreases |draws|
    ensures var served := Session(questions, qc, previous, draws);
      && |served| <= |draws|
      && forall i :: 0 <= i < |served| ==> served[i] in questions && Eligible(served[i], ScopeOf(qc).value, previous)
  {
    var pool := EligibleQuestions(questions, ScopeOf(qc).value, previous);
    SessionStep(questions, qc, previous, draws);
    if draws != [] && pool != [] {
      var q := pool[draws[0] % |pool|];
      SessionServesEligible(questions, qc, previous + [q.id], draws[1..]);
      var rest := Session(questions, qc, previous + [q.id], draws[1..]);
      var served := [q] + rest;
      forall i | 0 <= i < |served| ensures served[i] in questions && Eligible(served[i], ScopeOf(qc).value, previous) {
        if i > 0 {
          assert served[i] == rest[i - 1];
        }
      }
    }
  }

  /** No session serves the same question id twice. */
  lemma {:induction false} SessionNeverRepeats(questions: seq<Question>, qc: QuizCategory, previous: seq<int>, draws: seq<nat>)
    requires ScopeOf(qc).Some?
    decreases |draws|
    ensures var served := Session(questions, qc, previous, draws);
      forall i, j :: 0 <= i < j < |served| ==> served[i].id != served[j].id
  {
    var pool := EligibleQuestions(questions, ScopeOf(qc).value, previous);
    SessionStep(questions, qc, previous, draws);
    if draws != [] && pool != [] {
      var q := pool[draws[0] % |pool|];
      var rest := Session(questions, qc, previous + [q.id], draws[1..]);
      SessionNeverRepeats(questions, qc, previous + [q.id], draws[1..]);
      SessionServesEligible(questions, qc, previous + [q.id], draws[1..]);
      assert forall k :: 0 <= k < |rest| ==> rest[k].id != q.id by {
        forall k | 0 <= k < |rest| ensures rest[k].id != q.id {
          assert Eligible(rest[k], ScopeOf(qc).value, previous + [q.id]);
          assert q.id in previous + [q.id];
        }
      }
      ConsDistinct(q, rest);
    }
  }

  /** A session that stops before its draws run out has served every eligible
      question: none is left once the served ids join the previous ones. */
  lemma {:induction false} SessionStopsOnlyWhenExhausted(questions: seq<Question>, qc: QuizCategory, previous: seq<int>, draws: seq<nat>)
    requires ScopeOf(qc).Some?
    decreases |draws|
    ensures var served := Session(questions, qc, previous, draws);
      |served| < |draws| ==> forall q :: q in questions ==> !Eligible(q, ScopeOf(qc).value, previous + ServedIds(served))
  {
    var pool := EligibleQuestions(questions, ScopeOf(qc).value, previous);
    SessionStep(questions, qc, previous, draws);
    var served := Session(questions, qc, previous, draws);
    if draws == [] || pool == [] {
      assert previous + ServedIds(served) == previous;
    } else {
      var q := pool[draws[0] % |pool|];
      SessionStopsOnlyWhenExhausted(questions, qc, previous + [q.id], draws[1..]);
      var rest := Session(questions, qc, previous + [q.id], draws[1..]);
      assert served == [q] + rest;
      var ids := ServedIds(rest);
      assert ServedIds(served) == [q.id] + ids;
    }
  }
}

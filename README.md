# Trivia API: query and selection logic

A Dafny model of the request handlers of a small trivia-question web API
(`backend/flaskr/__init__.py`). The database tables become in-memory
sequences of `Question(id, question, answer, difficulty, category)` and
`Category(id, kind)` rows (`kind` is the column the source calls `type`).
Every endpoint body is a function or method that returns
`Ok(payload)` or `Err(status)`, so the `abort(404)` / `abort(422)` paths and the
Python exceptions that turn into a 422 or a 500 are part of the contracts.

Modules, one per component of the handler file:

- `Records` — the rows, an order-keeping `Filter` (a `.filter(...)` query),
  SQLAlchemy's `one_or_none()` as the `OneOrNone` datatype, the primary-key
  invariants (`IdsDistinct`, `IdsAscending` for rows fetched with
  `order_by(id)`, `CategoryIdsDistinct`) and the foreign-key invariant
  `CategoriesExist`.
- `Errors` — the status codes, their handler messages, the error envelope.
- `Pagination` — `paginate_questions` with Python's slice semantics written
  out, so page numbers below 1 behave exactly as the source does.
- `CategoryIndex` — the two loops that build the id→type map and the type list
  (a method with loop invariants), and the `get_categories` and `get_questions` endpoints.
- `Search` — `ilike '%term%'` as ASCII case-insensitive substring containment,
  and `search_questions`.
- `CategoryFilter` — `get_question_with_category`.
- `Quiz` — `play_quiz`: body validation, eligibility, the pick at an index, and
  a multi-round session built from it.
- `Store` — a `QuestionStore` class whose `Delete` method removes a row in place.

The model follows the code as written, including where it behaves differently
from what the endpoints' descriptions suggest:

- A search answers 422 whenever the requested page of matches is empty (not
  only for zero matches), and also when the first question's category does not
  resolve to exactly one row.
- The category endpoint answers 404 only when no question has that category.
  The handler has no `try`, so several category rows with the id give
  a 500 even before the 404 check, and questions whose category row is missing
  give a 500. Under the primary-key and foreign-key invariants an unknown id is
  a 404 (`CategoryFilter.NotFoundIffNoQuestion`).
- Page numbers are not clamped: page 0 is empty and a negative page counts
  back from the end of the selection (`Pagination.NegativePageCountsFromEnd`).
- The quiz scope is the string sentinel `'click'`, read from `quiz_category['type']`.
  The guard at line 224 tests the key `'category'`, whereas the handler reads
  `'quiz_category'`. The model keeps this as written and proves that the
  `'category'` key never changes the outcome (`Quiz.CategoryKeyNeverDecides`).
- A missing `searchTerm` is formatted by Python as the text `None`, so the
  search looks for `none` (`Search.SearchTerm`).

The random index of `random.randrange` is the parameter `index` of
`Quiz.PlayQuiz`, required to be below the number of eligible questions.
The request's `page`, search term, category id, question id and quiz body
are parameters.

## Model

Helpers without a contract of their own are covered by the rows that use
them: `Pagination.SliceBound` and `Pagination.PySlice` (line 18) by
`Pagination.Paginate`, `Pagination.PageContents` and
`Pagination.NegativePageCountsFromEnd`; `Search.Matches` (the `ilike` of lines
175-176) by `Search.SearchMatches` and `Search.ContainsIffOccurs`;
`Search.SearchTerm` (lines 170 and 176) by `Search.SearchQuestions`;
`Quiz.GuardAborts` (line 224) by `Quiz.QuizPool`; and `Quiz.Session`, a
client's successive rounds, by the three `Quiz.Session…` lemmas.

| member | source | states |
|---|---|---|
| `Records.Filter` | backend/flaskr/__init__.py:197-198 | the kept rows are exactly the rows satisfying the condition; the result is empty iff no row satisfies it; never longer than the input |
| `Records.FilterKeepsAscending` | backend/flaskr/__init__.py:173-176 | filtering id-ordered rows leaves them in ascending id order |
| `Records.FilterKeepsDistinct` | backend/flaskr/__init__.py:231-237 | filtering rows with distinct ids, in any order, leaves their ids distinct |
| `Records.CategoryById` | backend/flaskr/__init__.py:199-200 | `one_or_none()` on categories: a found row has the id and is in the table; no row iff no category has the id |
| `Records.CategoryByIdDistinct` | backend/flaskr/__init__.py:179-180 | with distinct ids, looking up an existing category's id finds exactly that category |
| `Records.CategoryByIdNeverMany` | backend/flaskr/__init__.py:199-200 | with distinct ids, the lookup never finds several rows |
| `Records.QuestionById` | backend/flaskr/__init__.py:110-111 | `one_or_none()` on questions: a found row has the id; no row iff no question has the id |
| `Records.QuestionByIdAscending` | backend/flaskr/__init__.py:110-111 | with ascending ids, looking up an existing question's id finds exactly that question |
| `Errors.Code` | backend/flaskr/__init__.py:256-294 | every handled status has an HTTP error code in the 4xx/5xx range |
| `Errors.Message` | backend/flaskr/__init__.py:256-294 | every handler reports a non-empty message |
| `Errors.HandlerFor` | backend/flaskr/__init__.py:256-294 | `abort(code)` reaches a handler exactly for 400, 404, 405, 422 and 500, and that handler carries the same code |
| `Errors.Envelope` | backend/flaskr/__init__.py:280-286 | an error body has `success` false, the status's code and message, and its code leads back to the same handler |
| `Errors.HandlerTableIsOneToOne` | backend/flaskr/__init__.py:256-294 | the code of each status selects that status; distinct statuses differ in code and in message |
| `Pagination.Paginate` | backend/flaskr/__init__.py:12-20 | a page never holds more than 10 items, all from the selection, for any page number |
| `Pagination.PageContents` | backend/flaskr/__init__.py:14-18 | for page ≥ 1 the page is the items from index `(page-1)*10` on, at most 10, in selection order |
| `Pagination.PageEmptyIff` | backend/flaskr/__init__.py:14-18 | for page ≥ 1 the page is empty iff `(page-1)*10 ≥ len(selection)` |
| `Pagination.PagesCover` | backend/flaskr/__init__.py:14-18 | consecutive pages concatenate to one contiguous slice of the selection, with no gap or overlap |
| `Pagination.PagesPartition` | backend/flaskr/__init__.py:14-18 | pages 1..ceil(n/10) concatenate to the whole selection, each is non-empty, and the next page is empty |
| `Pagination.PageZeroIsEmpty` | backend/flaskr/__init__.py:14-18 | page 0 (Python `s[-10:0]`) is always empty |
| `Pagination.NegativePageCountsFromEnd` | backend/flaskr/__init__.py:14-18 | for every page ≤ -1 the page is the slice from `max(0, n + (page-1)*10)` to `max(0, n + page*10)` of a selection of `n` items: negative pages count from the end |
| `CategoryIndex.BuildIndex` | backend/flaskr/__init__.py:81-89 | the loops yield the map of the category rows folded in order and their type list |
| `CategoryIndex.IndexMapKeys` | backend/flaskr/__init__.py:54-60 | the map's keys are exactly the category ids |
| `CategoryIndex.IndexMapValue` | backend/flaskr/__init__.py:54-60 | with distinct ids, each category's id maps to that category's type |
| `CategoryIndex.LabelsInOrder` | backend/flaskr/__init__.py:81-86 | the type list has one entry per category, the i-th being the i-th category's type |
| `CategoryIndex.LabelsAgreeWithMap` | backend/flaskr/__init__.py:81-89 | with distinct ids, the i-th label is what the map gives for the i-th category's id |
| `CategoryIndex.GetCategories` | backend/flaskr/__init__.py:47-66 | 404 iff there is no category; otherwise the id→type map with exactly the ids as keys and the number of categories |
| `CategoryIndex.GetQuestions` | backend/flaskr/__init__.py:74-100 | 404 iff the requested page is empty; otherwise the page, the number of all questions, the map and the type list |
| `Search.ContainsIffOccurs` | backend/flaskr/__init__.py:175-176 | the containment scan succeeds iff the term occurs at some position of the text |
| `Search.MatchesIgnoresCaseOfTerm` | backend/flaskr/__init__.py:175-176 | a question matches a term iff it matches the lower-cased term |
| `Search.LiteralOccurrenceMatches` | backend/flaskr/__init__.py:175-176 | a question whose text contains the term verbatim matches it |
| `Search.SearchMatches` | backend/flaskr/__init__.py:173-176 | a question is a match iff it is a row whose text contains the term case-insensitively (sound and complete) |
| `Search.SearchMatchesAscending` | backend/flaskr/__init__.py:173-174 | over id-ordered rows the matches are in ascending id order |
| `Search.SearchEmptyTermMatchesAll` | backend/flaskr/__init__.py:173-176 | the empty term matches every question, in order |
| `Search.SearchQuestions` | backend/flaskr/__init__.py:166-190 | errors are 422; an empty page of matches is an error; on success the page of matches, the count of all matches, and the type of a category with the first question's category id |
| `Search.SearchPageSound` | backend/flaskr/__init__.py:178-186 | every question a successful search lists is a row that matches the term |
| `Search.SearchSucceedsIffPageNonEmpty` | backend/flaskr/__init__.py:178-190 | with distinct category ids and existing categories, success iff the page is non-empty, reporting the first question's category type |
| `Search.NoMatchIsUnprocessable` | backend/flaskr/__init__.py:178-190 | a term no question matches yields 422 with message "Unprocessable entry" |
| `CategoryFilter.QuestionsOf` | backend/flaskr/__init__.py:197-198 | a question is kept iff it is a row of that category; empty iff no row has it |
| `CategoryFilter.QuestionsByCategory` | backend/flaskr/__init__.py:195-210 | errors are 404 or 500; on success exactly the category's questions, their number (positive), and the type of a category with that id |
| `CategoryFilter.NotFoundIffNoQuestion` | backend/flaskr/__init__.py:197-203 | with distinct ids and existing categories: 404 iff no question has the category, no other error, and an unknown id is a 404 |
| `CategoryFilter.CategoryPageReportsItsType` | backend/flaskr/__init__.py:197-210 | for an existing category with questions the answer is its questions, their number and its own type |
| `Quiz.ScopeOf` | backend/flaskr/__init__.py:231-237 | type `'click'` means every category; another type with an id means that id; a missing key is a failure |
| `Quiz.EligibleQuestions` | backend/flaskr/__init__.py:231-237 | a question is eligible iff it is a row, not served before and in scope; empty iff no row qualifies |
| `Quiz.QuizPool` | backend/flaskr/__init__.py:224-237 | the guard gives 422; a string body past the guard gives 500; an object body succeeds iff its quiz category and previous ids are readable, else 422 |
| `Quiz.PlayQuiz` | backend/flaskr/__init__.py:219-250 | fails exactly when validation does; a served question is a row, not previously served, and in the category unless the type is `'click'`; `None` iff nothing is eligible |
| `Quiz.CategoryKeyNeverDecides` | backend/flaskr/__init__.py:224-228 | for an object body the presence of the `'category'` key never changes the outcome |
| `Quiz.EmptyTextBodyIsUnprocessable` | backend/flaskr/__init__.py:224-225 | the body `''` is answered with 422 |
| `Quiz.EveryEligibleCanBeServed` | backend/flaskr/__init__.py:239-241 | every eligible question is served for some index in range |
| `Quiz.DistinctIndicesServeDistinctQuestions` | backend/flaskr/__init__.py:232-241 | over rows with distinct ids in any order (the quiz queries have no `order_by`), distinct indices serve distinct questions, so a uniform index is a uniform pick |
| `Quiz.SessionServesEligible` | backend/flaskr/__init__.py:231-243 | over rounds that feed back the served ids, every served question is a row in scope and not served before the session |
| `Quiz.SessionNeverRepeats` | backend/flaskr/__init__.py:231-243 | over such rounds no question id is served twice |
| `Quiz.SessionStopsOnlyWhenExhausted` | backend/flaskr/__init__.py:239-243 | a session ends early only once no eligible question is left |
| `Store.QuestionStore.Delete` | backend/flaskr/__init__.py:106-124 | an absent id gives 422 and changes nothing; a present id is reported as deleted, only that row is removed, the others keep their order, and the id invariant holds |
| `Store.RemoveOne` | backend/flaskr/__init__.py:110-116 | removing an existing id from id-ordered rows removes exactly one row |

## Left out

- Flask routing, `request.args` / `request.get_json`, `jsonify`, CORS and the
  `after_request` headers (lines 23-41): transport, no behaviour of the core.
- The database and `models.py`, which is not part of this model: queries are sequence
  filters over the given rows. Only the queries with `order_by(id)` (lines 49,
  76, 78 and 173) assume rows in ascending id order; the category filter and
  the quiz queries (lines 197-198, 231-237) keep the order of the given rows,
  and their contracts promise no order and need only distinct ids. The store
  behind `delete_question` keeps its rows in primary-key order.
  `Question.category` is modelled as an integer category id.
- Database failures inside the `try` blocks (for example `question.delete()`
  raising), which the source also turns into 422: not modelled.
- `add_question` (lines 131-159): its validation and id assignment happen in the
  database model, which is not shown.
- The `type=int` parsing of `page` and its default of 1 (line 13): the page
  number is an integer parameter.
- `ilike` wildcards (`%`, `_`) inside the search term and Unicode case folding:
  the model matches plain substrings after ASCII lower-casing.
- `random.randrange` (line 240): the index is a parameter; `Quiz.Session`
  reduces arbitrary draws into range with `%`.
- Quiz bodies that are JSON numbers, lists or `null`, a `quiz_category['type']`
  that is not a string, a `null` category id, and non-integer previous ids: the
  body is either a JSON object with these optional fields or a JSON string. A
  `previous_questions` key with a non-list value is treated like a missing key;
  both end in 422.
- A search body that is not a JSON object, and a `searchTerm` that is not a
  string: the term is a string or absent.
- The test file `backend/test_flaskr.py` needs a live Postgres; its expected
  outcomes are stated as lemmas instead.

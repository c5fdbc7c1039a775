/** `search_questions`: a case-insensitive substring search over question texts
    (`ilike '%term%'`), paginated, reporting the number of matches and the type
    of the first listed question's category. */
module Search {
  import opened Records
  import opened Errors
  import opened Pagination

  /** ASCII lower-casing of one character. */
  function LowerChar(c: char): (d: char)
    ensures 'A' <= c <= 'Z' ==> d as int == c as int + 32
    ensures !('A' <= c <= 'Z') ==> d == c
  {
    if 'A' <= c <= 'Z' then (c as int + 32) as char else c
  }

  function Lower(s: string): (r: string)
    ensures |r| == |s|
    ensures forall i :: 0 <= i < |s| ==> r[i] == LowerChar(s[i])
  {
    if s == [] then [] else [LowerChar(s[0])] + Lower(s[1..])
  }

  /** `term` occurs in `text`, scanning start positions from the left. */
  predicate Contains(text: string, term: string)
    decreases |text|
  {
    term <= text || (text != [] && Contains(text[1..], term))
  }

  /** The reference meaning of containment: there is a position at which `term` occurs. */
  ghost predicate OccursAt(text: string, term: string, i: int)
  {
    0 <= i && i + |term| <= |text| && text[i..i + |term|] == term
  }

  /** A successful scan stops at a position where `term` occurs. */
  lemma {:induction false} ContainsHasOccurrence(text: string, term: string)
    requires Contains(text, term)
    ensures exists i :: OccursAt(text, term, i)
    decreases |text|
  {
    if term <= text {
      assert OccursAt(text, term, 0);
    } else {
      ContainsHasOccurrence(text[1..], term);
      var i :| OccursAt(text[1..], term, i);
      assert text[i + 1..i + 1 + |term|] == text[1..][i..i + |term|];
      assert OccursAt(text, term, i + 1);
    }
  }

  /** The scan reaches every position where `term` occurs. */
  lemma {:induction false} OccurrenceIsContained(text: string, term: string, i: int)
    requires OccursAt(text, term, i)
    ensures Contains(text, term)
    decreases i
  {
    if i > 0 {
      assert text[1..][i - 1..i - 1 + |term|] == text[i..i + |term|];
      OccurrenceIsContained(text[1..], term, i - 1);
    }
  }

  /** The left-to-right scan finds `term` exactly when it occurs somewhere. */
  lemma ContainsIffOccurs(text: string, term: string)
    ensures Contains(text, term) <==> exists i :: OccursAt(text, term, i)
  {
    if Contains(text, term) {
      ContainsHasOccurrence(text, term);
    }
    forall i | OccursAt(text, term, i) ensures Contains(text, term) {
      OccurrenceIsContained(text, term, i);
    }
  }

  /** `Question.question.ilike('%' + term + '%')`, without wildcards in `term`. */
  predicate Matches(q: Question, term: string)
  {
    Contains(Lower(q.question), Lower(term))
  }

  /** Lower-casing twice is lower-casing once. */
  lemma LowerIdempotent(s: string)
    ensures Lower(Lower(s)) == Lower(s)
  {
    assert forall i :: 0 <= i < |s| ==> Lower(Lower(s))[i] == Lower(s)[i];
  }

  /** The search ignores the case of the term. */
  lemma MatchesIgnoresCaseOfTerm(q: Question, term: string)
    ensures Matches(q, term) <==> Matches(q, Lower(term))
  {
    LowerIdempotent(term);
  }

  /** Lower-casing commutes with taking a slice. */
  lemma LowerSlice(s: string, i: nat, j: nat)
    requires i <= j <= |s|
    ensures Lower(s)[i..j] == Lower(s[i..j])
  {
    assert forall k :: 0 <= k < j - i ==> Lower(s)[i..j][k] == Lower(s[i..j])[k];
  }

  /** A question whose text contains the term literally matches it. */
  lemma LiteralOccurrenceMatches(q: Question, term: string)
    requires Contains(q.question, term)
    ensures Matches(q, term)
  {
    var text := q.question;
    ContainsHasOccurrence(text, term);
    var i :| OccursAt(text, term, i);
    LowerSlice(text, i, i + |term|);
    OccurrenceIsContained(Lower(text), Lower(term), i);
  }

  /** The matching questions, in the order of the question rows. */
  function SearchMatches(questions: seq<Question>, term: string): (r: seq<Question>)
    ensures forall q :: q in r <==> q in questions && Matches(q, term)
    ensures |r| <= |questions|
  {
    Filter(questions, (q: Question) => Matches(q, term))
  }

  /** Over id-ordered rows, the matches come in ascending id order. */
  lemma SearchMatchesAscending(questions: seq<Question>, term: string)
    requires IdsAscending(questions)
    ensures IdsAscending(SearchMatches(questions, term))
  {
    FilterKeepsAscending(questions, (q: Question) => Matches(q, term));
  }

  /** Every text contains the empty string. */
  lemma {:induction false} ContainsEmpty(text: string)
    ensures Contains(text, [])
  {
  }

  /** The empty search term matches every question. */
  lemma SearchEmptyTermMatchesAll(questions: seq<Question>)
    ensures SearchMatches(questions, "") == questions
  {
    forall q | q in questions ensures Matches(q, "") {
      ContainsEmpty(Lower(q.question));
    }
    FilterAll(questions, (q: Question) => Matches(q, ""));
  }

  /** Python formats a missing `searchTerm` (`None`) into the pattern as `'None'`. */
  function SearchTerm(searchTerm: Option<string>): string
  {
    match searchTerm
    case Some(t) => t
    case None => "None"
  }

  /** The body of `/search_question`. */
  datatype SearchPayload = SearchPayload(questions: seq<Question>, totalQuestions: nat, currentCategory: string)

  /** `search_questions` over the id-ordered question rows: any failure inside
      the `try` (an empty page, so `current_questions[0]` fails, or a category
      lookup that does not give one row) is a 422. */
  function SearchQuestions(questions: seq<Question>, cats: seq<Category>, searchTerm: Option<string>, page: int)
    : (r: Response<SearchPayload>)
    ensures r.Err? ==> r.status == Unprocessable
    ensures Paginate(SearchMatches(questions, SearchTerm(searchTerm)), page) == [] ==> r.Err?
    ensures r.Ok? ==>
      && r.payload.questions == Paginate(SearchMatches(questions, SearchTerm(searchTerm)), page)
      && r.payload.totalQuestions == |SearchMatches(questions, SearchTerm(searchTerm))|
      && r.payload.questions != []
      && exists c :: c in cats && c.id == r.payload.questions[0].category && c.kind == r.payload.currentCategory
  {
    var results := SearchMatches(questions, SearchTerm(searchTerm));
    var current := Paginate(results, page);
    if current == [] then Err(Unprocessable)
    else
      match CategoryById(cats, current[0].category)
      case OneRow(c) => Ok(SearchPayload(current, |results|, c.kind))
      case _ => Err(Unprocessable)
  }

  /** Every listed question matches the term, and comes from the rows. */
  lemma SearchPageSound(questions: seq<Question>, cats: seq<Category>, searchTerm: Option<string>, page: int)
    ensures var r := SearchQuestions(questions, cats, searchTerm, page);
      r.Ok? ==> forall q :: q in r.payload.questions ==> q in questions && Matches(q, SearchTerm(searchTerm))
  {
  }

  /** With well-formed categories, the search succeeds exactly when the page of
      matches is non-empty, and then reports the type of the first question's category. */
  lemma SearchSucceedsIffPageNonEmpty(questions: seq<Question>, cats: seq<Category>, searchTerm: Option<string>, page: int)
    requires CategoryIdsDistinct(cats)
    requires CategoriesExist(questions, cats)
    ensures var current := Paginate(SearchMatches(questions, SearchTerm(searchTerm)), page);
      var r := SearchQuestions(questions, cats, searchTerm, page);
      && (r.Ok? <==> current != [])
      && (r.Ok? ==> forall c :: c in cats && c.id == current[0].category ==> r.payload.currentCategory == c.kind)
  {
    var current := Paginate(SearchMatches(questions, SearchTerm(searchTerm)), page);
    if current != [] {
      var q := current[0];
      assert q in questions;
      var c :| c in cats && c.id == q.category;
      CategoryByIdDistinct(cats, c);
      forall c' | c' in cats && c'.id == q.category ensures c'.kind == c.kind {
        CategoryByIdDistinct(cats, c');
      }
    }
  }

  /** A term that no question text contains is answered with the 422 envelope
      "Unprocessable entry". */
  lemma NoMatchIsUnprocessable(questions: seq<Question>, cats: seq<Category>, term: string, page: int)
    requires forall q :: q in questions ==> !Matches(q, term)
    ensures SearchQuestions(questions, cats, Some(term), page) == Err(Unprocessable)
    ensures Envelope(Unprocessable).message == "Unprocessable entry"
  {
    assert SearchMatches(questions, term) == [];
  }
}

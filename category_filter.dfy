/** `get_question_with_category`: the questions of one category. */
module CategoryFilter {
  import opened Records
  import opened Errors

  /** The questions whose category is `categoryId`, in the order the rows are
      given; the query has no `order_by`, so no order is promised. */
  function QuestionsOf(questions: seq<Question>, categoryId: int): (r: seq<Question>)
    ensures forall q :: q in r <==> q in questions && q.category == categoryId
    ensures r == [] <==> forall q :: q in questions ==> q.category != categoryId
  {
    Filter(questions, (q: Question) => q.category == categoryId)
  }

  /** The body of `/categories/<id>/questions`. */
  datatype CategoryPayload = CategoryPayload(questions: seq<Question>, totalQuestions: nat, currentCategory: string)

  /** `get_question_with_category`, step by step as written: the category lookup
      runs first and outside any `try`, so several rows with that id raise and
      give a 500; no question gives a 404; a missing category row makes
      `category.type` raise, also a 500. */
  function QuestionsByCategory(questions: seq<Question>, cats: seq<Category>, categoryId: int)
    : (r: Response<CategoryPayload>)
    ensures r.Err? ==> r.status in {NotFound, InternalServerError}
    ensures r.Ok? ==>
      && (forall q :: q in r.payload.questions <==> q in questions && q.category == categoryId)
      && r.payload.totalQuestions == |r.payload.questions| > 0
      && exists c :: c in cats && c.id == categoryId && c.kind == r.payload.currentCategory
  {
    var qs := QuestionsOf(questions, categoryId);
    var category := CategoryById(cats, categoryId);
    if category.ManyRows? then Err(InternalServerError)
    else if |qs| == 0 then Err(NotFound)
    else if category.NoRow? then Err(InternalServerError)
    else Ok(CategoryPayload(qs, |qs|, category.row.kind))
  }

  /** With distinct category ids, the endpoint answers 404 exactly when no
      question belongs to the category, which is the case for an id no category has. */
  lemma NotFoundIffNoQuestion(questions: seq<Question>, cats: seq<Category>, categoryId: int)
    requires CategoryIdsDistinct(cats)
    requires CategoriesExist(questions, cats)
    ensures var r := QuestionsByCategory(questions, cats, categoryId);
      && (r == Err(NotFound) <==> forall q :: q in questions ==> q.category != categoryId)
      && (r.Err? ==> r.status == NotFound)
      && ((forall c :: c in cats ==> c.id != categoryId) ==> r == Err(NotFound))
  {
    var qs := QuestionsOf(questions, categoryId);
    if qs != [] {
      var q := qs[0];
      var c :| c in cats && c.id == q.category;
      CategoryByIdDistinct(cats, c);
    } else {
      CategoryByIdNeverMany(cats, categoryId);
    }
  }

  /** With well-formed rows, a category's page reports its own type and
      exactly the questions that reference it. */
  lemma CategoryPageReportsItsType(questions: seq<Question>, cats: seq<Category>, c: Category)
    requires CategoryIdsDistinct(cats)
    requires c in cats
    requires exists q :: q in questions && q.category == c.id
    ensures QuestionsByCategory(questions, cats, c.id)
         == Ok(CategoryPayload(QuestionsOf(questions, c.id), |QuestionsOf(questions, c.id)|, c.kind))
  {
    CategoryByIdDistinct(cats, c);
  }
}

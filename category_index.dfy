/** The category index that `get_categories` and `get_questions` build from the
    id-ordered category rows: a map from id to type and the list of types, and
    the two endpoints that report them. */
module CategoryIndex {
  import opened Records
  import opened Errors
  import opened Pagination

  /** The map that merging the one-entry maps `{id: type}` into an empty dict, in
      row order, produces (a later row overrides an earlier one with the same id). */
  function IndexMap(cats: seq<Category>): map<int, string>
  {
    if cats == [] then map[]
    else IndexMap(cats[..|cats| - 1])[cats[|cats| - 1].id := cats[|cats| - 1].kind]
  }

  /** The category types in row order: `current_category_arr`. */
  function Labels(cats: seq<Category>): seq<string>
  {
    if cats == [] then [] else Labels(cats[..|cats| - 1]) + [cats[|cats| - 1].kind]
  }

  /** The ids of the category rows. */
  function CategoryIds(cats: seq<Category>): set<int>
  {
    set c | c in cats :: c.id
  }

  /** The map has exactly the category ids as keys. */
  lemma {:induction false} IndexMapKeys(cats: seq<Category>)
    ensures IndexMap(cats).Keys == CategoryIds(cats)
  {
    if cats != [] {
      var init, last := cats[..|cats| - 1], cats[|cats| - 1];
      IndexMapKeys(init);
      assert cats == init + [last];
      assert CategoryIds(cats) == CategoryIds(init) + {last.id};
    }
  }

  /** With distinct ids, every category's id maps to that category's type. */
  lemma {:induction false} IndexMapValue(cats: seq<Category>, i: nat)
    requires CategoryIdsDistinct(cats)
    requires i < |cats|
    ensures cats[i].id in IndexMap(cats) && IndexMap(cats)[cats[i].id] == cats[i].kind
  {
    var init, last := cats[..|cats| - 1], cats[|cats| - 1];
    if i < |cats| - 1 {
      assert CategoryIdsDistinct(init);
      assert init[i] == cats[i];
      IndexMapValue(init, i);
      assert cats[i].id != last.id;
    }
  }

  /** The label list has one entry per category, in row order. */
  lemma {:induction false} LabelsInOrder(cats: seq<Category>)
    ensures |Labels(cats)| == |cats|
    ensures forall i :: 0 <= i < |cats| ==> Labels(cats)[i] == cats[i].kind
  {
    if cats != [] {
      LabelsInOrder(cats[..|cats| - 1]);
    }
  }

  /** The label at position `i` is what the map gives for the `i`-th category's id. */
  lemma LabelsAgreeWithMap(cats: seq<Category>, i: nat)
    requires CategoryIdsDistinct(cats)
    requires i < |cats|
    ensures |Labels(cats)| == |cats| && cats[i].id in IndexMap(cats)
    ensures Labels(cats)[i] == IndexMap(cats)[cats[i].id]
  {
    LabelsInOrder(cats);
    IndexMapValue(cats, i);
  }

  /** The two loops of `get_questions` (lines 81-89); `get_categories` runs the
      same loops without the label list. */
  method BuildIndex(cats: seq<Category>) returns (categoryObj: map<int, string>, labels: seq<string>)
    ensures categoryObj == IndexMap(cats)
    ensures labels == Labels(cats)
  {
    var newCategory: seq<map<int, string>> := [];
    labels := [];
    for i := 0 to |cats|
      invariant |newCategory| == i
      invariant forall k :: 0 <= k < i ==> newCategory[k] == map[cats[k].id := cats[k].kind]
      invariant labels == Labels(cats[..i])
    {
      newCategory := newCategory + [map[cats[i].id := cats[i].kind]];
      labels := labels + [cats[i].kind];
      assert cats[..i + 1][..i] == cats[..i];
    }
    assert cats[..|cats|] == cats;
    categoryObj := map[];
    for j := 0 to |newCategory|
      invariant categoryObj == IndexMap(cats[..j])
    {
      categoryObj := categoryObj + newCategory[j];
      assert cats[..j + 1][..j] == cats[..j];
    }
  }

  /** The body of `/categories`. */
  datatype CategoriesPayload = CategoriesPayload(categories: map<int, string>, totalCategories: nat)

  /** `get_categories`: 404 when there is no category, else the id→type map of
      all of them and their number. */
  method GetCategories(cats: seq<Category>) returns (r: Response<CategoriesPayload>)
    ensures r.Err? <==> cats == []
    ensures r.Err? ==> r.status == NotFound
    ensures r.Ok? ==> r.payload.categories == IndexMap(cats) && r.payload.totalCategories == |cats|
    ensures r.Ok? ==> r.payload.categories.Keys == CategoryIds(cats)
  {
    if |cats| == 0 {
      return Err(NotFound);
    }
    var categoryObj, _ := BuildIndex(cats);
    IndexMapKeys(cats);
    r := Ok(CategoriesPayload(categoryObj, |cats|));
  }

  /** The body of `/questions`. */
  datatype QuestionsPayload = QuestionsPayload(
    questions: seq<Question>,
    totalQuestions: nat,
    categories: map<int, string>,
    currentCategory: seq<string>)

  /** `get_questions` for the page number `page`, over the id-ordered question
      and category rows: 404 exactly when the page is empty; else the page, the
      number of all questions, the id→type map and the list of types. */
  method GetQuestions(questions: seq<Question>, cats: seq<Category>, page: int)
    returns (r: Response<QuestionsPayload>)
    ensures r.Err? <==> Paginate(questions, page) == []
    ensures r.Err? ==> r.status == NotFound
    ensures r.Ok? ==> r.payload == QuestionsPayload(Paginate(questions, page), |questions|, IndexMap(cats), Labels(cats))
  {
    var current := Paginate(questions, page);
    var categoryObj, labels := BuildIndex(cats);
    if |current| == 0 {
      return Err(NotFound);
    }
    r := Ok(QuestionsPayload(current, |questions|, categoryObj, labels));
  }
}

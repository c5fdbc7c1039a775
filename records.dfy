/** The rows the trivia API reads from its database, and the two query shapes
    every endpoint uses on them: a filter that keeps the order of the rows, and
    SQLAlchemy's `one_or_none()` lookup. */
module Records {

  datatype Option<+T> = None | Some(value: T)

  /** A question row, with the fields `Question.format()` reports.
      `category` is the id of the category the question belongs to. */
  datatype Question = Question(id: int, question: string, answer: string, difficulty: int, category: int)

  /** A category row. The column called `type` in the database is `kind` here. */
  datatype Category = Category(id: int, kind: string)

  /** What `one_or_none()` finds: no row (Python `None`), exactly one row, or
      several rows (SQLAlchemy raises `MultipleResultsFound`). */
  datatype OneOrNone<+T> = NoRow | OneRow(row: T) | ManyRows

  /** The rows of `s` that satisfy `p`, in the order of `s`: a `.filter(...)`
      query run over a table already fetched in that order. */
  function Filter<T(!new)>(s: seq<T>, p: T -> bool): (r: seq<T>)
    ensures |r| <= |s|
    ensures forall x :: x in r <==> x in s && p(x)
    ensures forall i :: 0 <= i < |r| ==> p(r[i])
    ensures r == [] <==> forall x :: x in s ==> !p(x)
  {
    if s == [] then []
    else if p(s[0]) then [s[0]] + Filter(s[1..], p)
    else Filter(s[1..], p)
  }

  /** A filter that rejects nothing returns its input unchanged. */
  lemma {:induction false} FilterAll<T(!new)>(s: seq<T>, p: T -> bool)
    requires forall x :: x in s ==> p(x)
    ensures Filter(s, p) == s
  {
    if s != [] {
      assert s == [s[0]] + s[1..];
      FilterAll(s[1..], p);
    }
  }

  /** Question rows in strictly ascending id order, as `order_by(Question.id)`
      returns them from a table whose ids are primary keys. */
  ghost predicate IdsAscending(qs: seq<Question>)
  {
    forall i, j :: 0 <= i < j < |qs| ==> qs[i].id < qs[j].id
  }

  /** Dropping the first row keeps ascending id order. */
  lemma AscendingTail(qs: seq<Question>)
    requires IdsAscending(qs) && qs != []
    ensures IdsAscending(qs[1..])
    ensures forall x :: x in qs[1..] ==> qs[0].id < x.id
  {
    forall i, j | 0 <= i < j < |qs[1..]| ensures qs[1..][i].id < qs[1..][j].id {
      assert qs[1..][i] == qs[i + 1] && qs[1..][j] == qs[j + 1];
    }
    forall x | x in qs[1..] ensures qs[0].id < x.id {
      var k :| 0 <= k < |qs[1..]| && qs[1..][k] == x;
      assert qs[k + 1] == x;
    }
  }

  /** A row with a smaller id than every row of an ascending sequence can be put in front. */
  lemma AscendingCons(q: Question, rest: seq<Question>)
    requires IdsAscending(rest)
    requires forall x :: x in rest ==> q.id < x.id
    ensures IdsAscending([q] + rest)
  {
    var s := [q] + rest;
    forall i, j | 0 <= i < j < |s| ensures s[i].id < s[j].id {
      assert s[j] == rest[j - 1];
      if i > 0 {
        assert s[i] == rest[i - 1];
      }
    }
  }

  /** Filtering keeps ascending id order. */
  lemma {:induction false} FilterKeepsAscending(qs: seq<Question>, p: Question -> bool)
    requires IdsAscending(qs)
    ensures IdsAscending(Filter(qs, p))
  {
    if qs != [] {
      AscendingTail(qs);
      FilterKeepsAscending(qs[1..], p);
      if p(qs[0]) {
        AscendingCons(qs[0], Filter(qs[1..], p));
      }
    }
  }

  /** No two question rows share an id, as for a primary key, in whatever order
      the rows come. */
  ghost predicate IdsDistinct(qs: seq<Question>)
  {
    forall i, j :: 0 <= i < j < |qs| ==> qs[i].id != qs[j].id
  }

  /** Dropping the first row keeps the ids distinct, and none of the later rows
      has the first row's id. */
  lemma DistinctTail(qs: seq<Question>)
    requires IdsDistinct(qs) && qs != []
    ensures IdsDistinct(qs[1..])
    ensures forall x :: x in qs[1..] ==> x.id != qs[0].id
  {
    forall i, j | 0 <= i < j < |qs[1..]| ensures qs[1..][i].id != qs[1..][j].id {
      assert qs[1..][i] == qs[i + 1] && qs[1..][j] == qs[j + 1];
    }
    forall x | x in qs[1..] ensures x.id != qs[0].id {
      var k :| 0 <= k < |qs[1..]| && qs[1..][k] == x;
      assert qs[k + 1] == x;
    }
  }

  /** A row whose id no later row has can be put in front of rows with distinct ids. */
  lemma ConsDistinct(q: Question, rest: seq<Question>)
    requires IdsDistinct(rest)
    requires forall k :: 0 <= k < |rest| ==> rest[k].id != q.id
    ensures IdsDistinct([q] + rest)
  {
    var s := [q] + rest;
    forall i, j | 0 <= i < j < |s| ensures s[i].id != s[j].id {
      assert s[j] == rest[j - 1];
      if i > 0 {
        assert s[i] == rest[i - 1];
      }
    }
  }

  /** Filtering keeps the ids distinct. */
  lemma {:induction false} FilterKeepsDistinct(qs: seq<Question>, p: Question -> bool)
    requires IdsDistinct(qs)
    ensures IdsDistinct(Filter(qs, p))
  {
    if qs != [] {
      DistinctTail(qs);
      FilterKeepsDistinct(qs[1..], p);
      if p(qs[0]) {
        var rest := Filter(qs[1..], p);
        forall k | 0 <= k < |rest| ensures rest[k].id != qs[0].id {
          assert rest[k] in qs[1..];
        }
        ConsDistinct(qs[0], rest);
      }
    }
  }

  /** No two categories share an id, as for a primary key. */
  ghost predicate CategoryIdsDistinct(cats: seq<Category>)
  {
    forall i, j :: 0 <= i < j < |cats| ==> cats[i].id != cats[j].id
  }

  /** Every question's category reference names an existing category. */
  ghost predicate CategoriesExist(qs: seq<Question>, cats: seq<Category>)
  {
    forall q :: q in qs ==> exists c :: c in cats && c.id == q.category
  }

  /** Classify the rows that matched an equality filter the way `one_or_none()` does. */
  function OneOrNoneOf<T>(rows: seq<T>): (r: OneOrNone<T>)
    ensures r == NoRow <==> rows == []
    ensures r.OneRow? <==> |rows| == 1
    ensures r.OneRow? ==> r.row == rows[0]
  {
    if |rows| == 0 then NoRow
    else if |rows| == 1 then OneRow(rows[0])
    else ManyRows
  }

  /** `Category.query.filter(Category.id == id).one_or_none()`. */
  function CategoryById(cats: seq<Category>, id: int): (r: OneOrNone<Category>)
    ensures r.OneRow? ==> r.row in cats && r.row.id == id
    ensures r == NoRow <==> forall c :: c in cats ==> c.id != id
  {
    OneOrNoneOf(Filter(cats, (c: Category) => c.id == id))
  }

  /** `Question.query.filter(Question.id == id).one_or_none()`. */
  function QuestionById(qs: seq<Question>, id: int): (r: OneOrNone<Question>)
    ensures r.OneRow? ==> r.row in qs && r.row.id == id
    ensures r == NoRow <==> forall q :: q in qs ==> q.id != id
  {
    OneOrNoneOf(Filter(qs, (q: Question) => q.id == id))
  }

  /** With distinct category ids, a lookup by an existing id finds exactly that row. */
  lemma {:induction false} CategoryByIdDistinct(cats: seq<Category>, c: Category)
    requires CategoryIdsDistinct(cats)
    requires c in cats
    ensures CategoryById(cats, c.id) == OneRow(c)
  {
    if cats[0] == c {
      forall x | x in cats[1..] ensures x.id != c.id {
        var k :| 0 <= k < |cats[1..]| && cats[1..][k] == x;
        assert cats[k + 1] == x;
      }
      assert Filter(cats[1..], (x: Category) => x.id == c.id) == [];
    } else {
      assert cats[0].id != c.id by {
        var k :| 0 <= k < |cats| && cats[k] == c;
        assert k != 0;
      }
      assert CategoryIdsDistinct(cats[1..]) by {
        forall i, j | 0 <= i < j < |cats[1..]| ensures cats[1..][i].id != cats[1..][j].id {
          assert cats[1..][i] == cats[i + 1] && cats[1..][j] == cats[j + 1];
        }
      }
      CategoryByIdDistinct(cats[1..], c);
    }
  }

  /** With distinct category ids, a lookup never finds several rows. */
  lemma {:induction false} CategoryByIdNeverMany(cats: seq<Category>, id: int)
    requires CategoryIdsDistinct(cats)
    ensures !CategoryById(cats, id).ManyRows?
  {
    if cats != [] {
      assert CategoryIdsDistinct(cats[1..]) by {
        forall i, j | 0 <= i < j < |cats[1..]| ensures cats[1..][i].id != cats[1..][j].id {
          assert cats[1..][i] == cats[i + 1] && cats[1..][j] == cats[j + 1];
        }
      }
      CategoryByIdNeverMany(cats[1..], id);
      if cats[0].id == id {
        forall x | x in cats[1..] ensures x.id != id {
          var k :| 0 <= k < |cats[1..]| && cats[1..][k] == x;
          assert cats[k + 1] == x;
        }
        assert CategoryById(cats[1..], id) == NoRow;
      }
    }
  }

  /** Ascending ids make a lookup by an existing id find exactly that row. */
  lemma {:induction false} QuestionByIdAscending(qs: seq<Question>, q: Question)
    requires IdsAscending(qs)
    requires q in qs
    ensures QuestionById(qs, q.id) == OneRow(q)
  {
    if qs[0] == q {
      forall x | x in qs[1..] ensures x.id != q.id {
        var k :| 0 <= k < |qs[1..]| && qs[1..][k] == x;
        assert qs[k + 1] == x;
      }
      assert Filter(qs[1..], (x: Question) => x.id == q.id) == [];
    } else {
      assert qs[0].id != q.id by {
        var k :| 0 <= k < |qs| && qs[k] == q;
        assert k != 0;
      }
      QuestionByIdAscending(qs[1..], q);
    }
  }
}

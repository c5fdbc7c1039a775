/** The question and category tables, as a store object whose question rows
    `delete_question` removes in place. */
module Store {
  import opened Records
  import opened Errors

  class QuestionStore {
    /** The question rows, in ascending id order (`order_by(Question.id)`). */
    var questions: seq<Question>
    /** The category rows, in ascending id order; never changed by the core. */
    var categories: seq<Category>

    /** Ids are primary keys: ascending question ids, distinct category ids. */
    ghost predicate Valid()
      reads this
    {
      IdsAscending(questions) && CategoryIdsDistinct(categories)
    }

    constructor (questions: seq<Question>, categories: seq<Category>)
      requires IdsAscending(questions) && CategoryIdsDistinct(categories)
      ensures Valid()
      ensures this.questions == questions && this.categories == categories
    {
      this.questions := questions;
      this.categories := categories;
    }

    /** `delete_question(question_id)`: a lookup that does not find exactly one
        row is a 422 and changes nothing; otherwise that row is removed, every
        other row stays in place, and the response reports the deleted id. */
    method Delete(questionId: int) returns (r: Response<int>)
      requires Valid()
      modifies this
      ensures Valid()
      ensures categories == old(categories)
      ensures r.Ok? <==> exists q :: q in old(questions) && q.id == questionId
      ensures r.Err? ==> r.status == Unprocessable && questions == old(questions)
      ensures r.Ok? ==> r.payload == questionId
      ensures r.Ok? ==> questions == Filter(old(questions), (q: Question) => q.id != questionId)
      ensures forall q :: q in questions <==> q in old(questions) && q.id != questionId
      ensures r.Ok? ==> |questions| == |old(questions)| - 1
    {
      if q :| q in questions && q.id == questionId {
        QuestionByIdAscending(questions, q);
      }
      var question := QuestionById(questions, questionId);
      if !question.OneRow? {
        return Err(Unprocessable);
      }
      ghost var before := questions;
      RemoveOne(before, question.row);
      FilterKeepsAscending(before, (q: Question) => q.id != questionId);
      questions := Filter(questions, (q: Question) => q.id != questionId);
      r := Ok(questionId);
    }
  }

  /** Removing the one row with an id from id-ordered rows shortens them by one. */
  lemma {:induction false} RemoveOne(qs: seq<Question>, q: Question)
    requires IdsAscending(qs)
    requires q in qs
    ensures |Filter(qs, (x: Question) => x.id != q.id)| == |qs| - 1
  {
    if qs[0] == q {
      forall x | x in qs[1..] ensures x.id != q.id {
        var k :| 0 <= k < |qs[1..]| && qs[1..][k] == x;
        assert qs[k + 1] == x;
      }
      FilterAll(qs[1..], (x: Question) => x.id != q.id);
    } else {
      assert qs[0].id != q.id by {
        var k :| 0 <= k < |qs| && qs[k] == q;
        assert k != 0;
      }
      RemoveOne(qs[1..], q);
    }
  }
}

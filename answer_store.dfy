/**
 * The answer store of the application form (ApplicationForm.handleFieldChange):
 * a list of answers keyed by question id, written by upsert.
 */
module AnswerStore {
  import opened Wrappers

  /** One captured answer; `questionId` is the text taken from the field id. */
  datatype Answer = Answer(questionId: string, value: string)

  /** The composite id every field control carries: "question_" followed by the question id. */
  function FieldId(questionId: string): string {
    "question_" + questionId
  }

  /** String.prototype.lastIndexOf for one character: the last position of `c` in `s`, or -1. */
  function LastIndexOf(s: string, c: char): (r: int)
    ensures -1 <= r < |s|
    ensures r >= 0 ==> s[r] == c
    ensures forall i | r < i < |s| :: s[i] != c
  {
    if s == [] then -1
    else if s[|s| - 1] == c then |s| - 1
    else LastIndexOf(s[..|s| - 1], c)
  }

  /**
   * The question id carried by a field id: the text after its last '_', or
   * the whole field id when it has no '_'.
   */
  function ExtractId(fieldId: string): (id: string)
    ensures '_' !in id
    ensures |id| <= |fieldId| && id == fieldId[|fieldId| - |id|..]
    ensures |id| < |fieldId| ==> fieldId[|fieldId| - |id| - 1] == '_'
  {
    var cut := LastIndexOf(fieldId, '_');
    NoneAfter(fieldId, '_', cut);
    fieldId[cut + 1..]
  }

  lemma NoneAfter(s: string, c: char, cut: int)
    requires -1 <= cut < |s|
    requires forall i | cut < i < |s| :: s[i] != c
    ensures c !in s[cut + 1..]
  {
  }

  /** Extracting the id from a field id built for a question whose id has no '_' gives that id back. */
  lemma ExtractIdOfFieldId(questionId: string)
    requires '_' !in questionId
    ensures ExtractId(FieldId(questionId)) == questionId
  {
  }

  /** The answers whose id differs from `id`, in their original order (`answers.filter(a => a.question_id != id)`). */
  function Without(answers: seq<Answer>, id: string): seq<Answer> {
    if answers == [] then []
    else (if answers[0].questionId != id then [answers[0]] else []) + Without(answers[1..], id)
  }

  /** handleFieldChange's update: drop every answer for `id`, then append the new one. */
  function Upsert(answers: seq<Answer>, id: string, value: string): seq<Answer> {
    Without(answers, id) + [Answer(id, value)]
  }

  /** Number of answers recorded for `id`. */
  function Count(answers: seq<Answer>, id: string): nat {
    if answers == [] then 0
    else (if answers[0].questionId == id then 1 else 0) + Count(answers[1..], id)
  }

  /** The value recorded for `id` (the first one, should there be several). */
  function Lookup(answers: seq<Answer>, id: string): Option<string> {
    if answers == [] then None
    else if answers[0].questionId == id then Some(answers[0].value)
    else Lookup(answers[1..], id)
  }

  /** No two answers share a question id. */
  ghost predicate UniqueIds(answers: seq<Answer>) {
    forall i, j | 0 <= i < j < |answers| :: answers[i].questionId != answers[j].questionId
  }

  /** The filter keeps exactly the answers whose id differs from `id`. */
  lemma {:induction false} WithoutMembers(answers: seq<Answer>, id: string, a: Answer)
    ensures a in Without(answers, id) <==> a in answers && a.questionId != id
  {
    if answers != [] {
      WithoutMembers(answers[1..], id, a);
      assert answers == [answers[0]] + answers[1..];
    }
  }

  /** Filtering distributes over concatenation, so it keeps the relative order of what it keeps. */
  lemma {:induction false} WithoutAppend(xs: seq<Answer>, ys: seq<Answer>, id: string)
    ensures Without(xs + ys, id) == Without(xs, id) + Without(ys, id)
  {
    if xs == [] {
      assert xs + ys == ys;
    } else {
      var head := if xs[0].questionId != id then [xs[0]] else [];
      assert (xs + ys)[0] == xs[0] && (xs + ys)[1..] == xs[1..] + ys;
      assert Without(xs + ys, id) == head + Without(xs[1..] + ys, id);
      WithoutAppend(xs[1..], ys, id);
      assert Without(xs, id) == head + Without(xs[1..], id);
    }
  }

  lemma {:induction false} CountWithout(answers: seq<Answer>, id: string, q: string)
    ensures Count(Without(answers, id), q) == if q == id then 0 else Count(answers, q)
  {
    if answers != [] {
      CountWithout(answers[1..], id, q);
      var head := if answers[0].questionId != id then [answers[0]] else [];
      assert (head + Without(answers[1..], id))[|head|..] == Without(answers[1..], id);
      CountAppend(head, Without(answers[1..], id), q);
    }
  }

  lemma {:induction false} CountAppend(xs: seq<Answer>, ys: seq<Answer>, q: string)
    ensures Count(xs + ys, q) == Count(xs, q) + Count(ys, q)
  {
    if xs != [] {
      assert (xs + ys)[1..] == xs[1..] + ys;
      CountAppend(xs[1..], ys, q);
    } else {
      assert xs + ys == ys;
    }
  }

  /** After an upsert exactly one answer carries `id`; every other id keeps its number of answers. */
  lemma UpsertCount(answers: seq<Answer>, id: string, value: string, q: string)
    ensures Count(Upsert(answers, id, value), q) == if q == id then 1 else Count(answers, q)
  {
    CountWithout(answers, id, q);
    CountAppend(Without(answers, id), [Answer(id, value)], q);
  }

  lemma {:induction false} LookupAppend(xs: seq<Answer>, ys: seq<Answer>, q: string)
    ensures Lookup(xs + ys, q) == if Lookup(xs, q).Some? then Lookup(xs, q) else Lookup(ys, q)
  {
    if xs != [] {
      assert (xs + ys)[1..] == xs[1..] + ys;
      LookupAppend(xs[1..], ys, q);
    } else {
      assert xs + ys == ys;
    }
  }

  lemma {:induction false} LookupWithout(answers: seq<Answer>, id: string, q: string)
    ensures Lookup(Without(answers, id), q) == if q == id then None else Lookup(answers, q)
  {
    if answers != [] {
      LookupWithout(answers[1..], id, q);
      var head := if answers[0].questionId != id then [answers[0]] else [];
      LookupAppend(head, Without(answers[1..], id), q);
    }
  }

  /** Last write wins: the upserted id reads back the new value, every other id reads as before. */
  lemma UpsertLookup(answers: seq<Answer>, id: string, value: string, q: string)
    ensures Lookup(Upsert(answers, id, value), q) == if q == id then Some(value) else Lookup(answers, q)
  {
    LookupWithout(answers, id, q);
    LookupAppend(Without(answers, id), [Answer(id, value)], q);
  }

  lemma {:induction false} WithoutKeepsUnique(answers: seq<Answer>, id: string)
    requires UniqueIds(answers)
    ensures UniqueIds(Without(answers, id))
  {
    if answers != [] {
      var rest := Without(answers[1..], id);
      WithoutKeepsUnique(answers[1..], id);
      if answers[0].questionId != id {
        forall a | a in rest ensures a.questionId != answers[0].questionId {
          WithoutMembers(answers[1..], id, a);
          var k :| 0 <= k < |answers[1..]| && answers[1..][k] == a;
          assert answers[k + 1] == a;
        }
        var r := [answers[0]] + rest;
        forall i, j | 0 <= i < j < |r| ensures r[i].questionId != r[j].questionId {
          if i > 0 {
            assert r[i] == rest[i - 1] && r[j] == rest[j - 1];
          } else {
            assert r[j] == rest[j - 1];
            assert r[j] in rest;
          }
        }
      }
    }
  }

  /** The store invariant: an upsert never leaves two answers for one question id. */
  lemma UpsertKeepsUnique(answers: seq<Answer>, id: string, value: string)
    requires UniqueIds(answers)
    ensures UniqueIds(Upsert(answers, id, value))
  {
    var rest := Without(answers, id);
    WithoutKeepsUnique(answers, id);
    var r := Upsert(answers, id, value);
    forall i, j | 0 <= i < j < |r| ensures r[i].questionId != r[j].questionId {
      if j == |r| - 1 {
        assert r[i] == rest[i];
        assert r[i] in rest;
        WithoutMembers(answers, id, r[i]);
      } else {
        assert r[i] == rest[i] && r[j] == rest[j];
      }
    }
  }
}

/** The question endpoints: asking (storing) a question, reading one with
    all its answers, and the newest-first feed with each question's latest
    answer. */
module QuestionRouter {
  import opened Wrappers
  import opened Domain
  import opened Listing
  import opened Pagination
  import opened Store
  import opened AnswerRouter

  const MaxQuestionLength: nat := 1000
  const DefaultQuestionLimit: nat := 10

  /** Store a question of 1..1000 characters for the session user, in English unless a language is given. */
  function Create(db: Db, userId: string, text: string, lang: Option<Language>): (r: (Db, Result<Question>))
    ensures r.1.Ok? <==> 1 <= |text| <= MaxQuestionLength
    ensures r.1.Err? ==> r.0 == db
    ensures r.1.Ok? ==> var q := r.1.value;
              && q.text == text && q.userId == userId
              && q.lang == (if lang.Some? then lang.value else EN)
              && q.id == db.nextId
              && r.0 == db.(questions := db.questions[q.id := q], nextId := db.nextId + 1)
    ensures Valid(db) ==> Valid(r.0)
  {
    if !(1 <= |text| <= MaxQuestionLength) then (db, Err("invalid input"))
    else
      var (db', q) := InsertQuestion(db, text, if lang.Some? then lang.value else EN, userId);
      (db', Ok(q))
  }

  /** A question with its answers, newest first, each with its approved notes. */
  datatype QuestionView = QuestionView(question: Question, answers: seq<AnswerView>)

  function GetById(db: Db, id: nat): (r: Option<QuestionView>)
    ensures r.Some? <==> id in db.questions
    ensures r.Some? ==> r.value.question == db.questions[id] && r.value.answers == GetByQuestionId(db, id)
  {
    if id in db.questions then Some(QuestionView(db.questions[id], GetByQuestionId(db, id))) else None
  }

  /** A feed entry: the question and at most one answer, its newest. */
  datatype QuestionSummary = QuestionSummary(question: Question, latest: seq<Answer>)

  function Summary(db: Db, q: Question): (s: QuestionSummary)
    ensures |s.latest| <= 1
    ensures s.question == q
  {
    var ids := AnswersOf(db, q.id);
    QuestionSummary(q, if |ids| == 0 then [] else [db.answers[ids[0]]])
  }

  /** The feed's latest answer is the newest answer of that question, and
      there is one whenever the question has any answer. */
  lemma SummaryIsNewestAnswer(db: Db, q: Question, i: nat)
    requires Valid(db) && i in db.answers && db.answers[i].questionId == q.id
    ensures |Summary(db, q).latest| == 1
    ensures Summary(db, q).latest[0].questionId == q.id
    ensures Summary(db, q).latest[0].id >= i
    ensures Summary(db, q).latest[0] in db.answers.Values
  {
    NewestFirstComplete(db.answers, (a: Answer) => a.questionId == q.id, db.nextId, i);
    var ids := AnswersOf(db, q.id);
    var k :| 0 <= k < |ids| && ids[k] == i;
  }

  function QuestionIds(db: Db): seq<nat> {
    NewestFirst(db.questions, (q: Question) => true, db.nextId)
  }

  /** The feed: questions newest first, a page at a time. */
  function GetAll(db: Db, limit: Option<int>, cursor: Option<nat>): (r: Result<RowPage<QuestionSummary>>)
    ensures r.Ok? <==> CheckLimit(limit, DefaultQuestionLimit).Ok?
    ensures r.Ok? ==> |r.value.rows| <= (if limit.Some? then limit.value else DefaultQuestionLimit)
    ensures r.Ok? ==> forall k :: 0 <= k < |r.value.rows| ==>
              r.value.rows[k].question in db.questions.Values && |r.value.rows[k].latest| <= 1
  {
    var page := ListPage(db.questions, QuestionIds(db), Newer, limit, DefaultQuestionLimit, cursor);
    if page.Err? then Err(page.message)
    else
      var rows := page.value.rows;
      Ok(RowPage(seq(|rows|, k requires 0 <= k < |rows| => Summary(db, rows[k])), page.value.nextCursor))
  }

  /** Following nextCursor through the feed shows every question once, newest first. */
  lemma FeedCoversQuestions(db: Db, limit: nat)
    requires limit >= 1
    ensures StrictlyDescending(QuestionIds(db))
    ensures Follow(QuestionIds(db), None, limit) == QuestionIds(db)
    ensures forall i :: i in db.questions && i < db.nextId ==> i in QuestionIds(db)
  {
    DescendingIsDistinct(QuestionIds(db));
    PagesCoverList(QuestionIds(db), limit);
    forall i | i in db.questions && i < db.nextId ensures i in QuestionIds(db) {
      NewestFirstComplete(db.questions, (q: Question) => true, db.nextId, i);
    }
  }
}

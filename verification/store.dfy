/** The database as the routers and workers see it: one map per table,
    keyed by id, and one id counter shared by all tables, so a larger id
    means a later insert. Creates check the foreign key they carry, and
    updates fail on a missing row, as the database does. */
module Store {
  import opened Wrappers
  import opened Domain
  import opened Listing

  datatype Question = Question(id: nat, text: string, lang: Language, userId: string)

  datatype Answer = Answer(
    id: nat,
    questionId: nat,
    summary: string,
    citations: seq<Citation>,
    confidence: real,
    controversy: real,
    persona: Persona)

  datatype Note = Note(
    id: nat,
    userId: string,
    answerId: nat,
    note: string,
    citations: seq<Citation>,
    status: CommunityStatus)

  datatype Source = Source(
    id: nat,
    title: string,
    publisher: Option<string>,
    url: Option<string>,
    lang: Language,
    year: Option<int>,
    authority: AuthorityLevel,
    credibility: int,
    status: SourceStatus)

  /** A chunk of a source's text. */
  datatype Doc = Doc(id: nat, sourceId: nat, content: string)

  datatype Db = Db(
    questions: map<nat, Question>,
    answers: map<nat, Answer>,
    notes: map<nat, Note>,
    sources: map<nat, Source>,
    docs: map<nat, Doc>,
    nextId: nat)

  const EmptyDb: Db := Db(map[], map[], map[], map[], map[], 0)

  /** Every row sits under its own id, every id was handed out by the
      counter, and every foreign key points at an existing row. */
  predicate Valid(db: Db) {
    && (forall i :: i in db.questions ==> i < db.nextId && db.questions[i].id == i)
    && (forall i :: i in db.answers ==> i < db.nextId && db.answers[i].id == i && db.answers[i].questionId in db.questions)
    && (forall i :: i in db.notes ==> i < db.nextId && db.notes[i].id == i && db.notes[i].answerId in db.answers)
    && (forall i :: i in db.sources ==> i < db.nextId && db.sources[i].id == i)
    && (forall i :: i in db.docs ==> i < db.nextId && db.docs[i].id == i && db.docs[i].sourceId in db.sources)
  }

  lemma EmptyValid()
    ensures Valid(EmptyDb)
  {
  }

  /** The rows of one table whose ids are listed, in that order. */
  function Rows<T>(m: map<nat, T>, ids: seq<nat>): (r: seq<T>)
    requires forall k :: 0 <= k < |ids| ==> ids[k] in m
    ensures |r| == |ids| && forall k :: 0 <= k < |ids| ==> r[k] == m[ids[k]]
  {
    seq(|ids|, k requires 0 <= k < |ids| => m[ids[k]])
  }

  function InsertQuestion(db: Db, text: string, lang: Language, userId: string): (r: (Db, Question))
    ensures r.1 == Question(db.nextId, text, lang, userId)
    ensures r.0 == db.(questions := db.questions[db.nextId := r.1], nextId := db.nextId + 1)
    ensures Valid(db) ==> Valid(r.0)
  {
    var q := Question(db.nextId, text, lang, userId);
    (db.(questions := db.questions[db.nextId := q], nextId := db.nextId + 1), q)
  }

  /** An answer insert; it fails when the question it points at is missing. */
  function InsertAnswer(db: Db, questionId: nat, summary: string, citations: seq<Citation>,
                        confidence: real, controversy: real, persona: Persona): (r: (Db, Result<Answer>))
    ensures r.1.Ok? <==> questionId in db.questions
    ensures r.1.Err? ==> r.0 == db
    ensures r.1.Ok? ==> r.1.value == Answer(db.nextId, questionId, summary, citations, confidence, controversy, persona)
                        && r.0 == db.(answers := db.answers[db.nextId := r.1.value], nextId := db.nextId + 1)
    ensures Valid(db) ==> Valid(r.0)
  {
    if questionId !in db.questions then (db, Err("foreign key violation: question"))
    else
      var a := Answer(db.nextId, questionId, summary, citations, confidence, controversy, persona);
      (db.(answers := db.answers[db.nextId := a], nextId := db.nextId + 1), Ok(a))
  }

  /** A note insert; it fails when the answer it annotates is missing. */
  function InsertNote(db: Db, userId: string, answerId: nat, note: string, citations: seq<Citation>,
                      status: CommunityStatus): (r: (Db, Result<Note>))
    ensures r.1.Ok? <==> answerId in db.answers
    ensures r.1.Err? ==> r.0 == db
    ensures r.1.Ok? ==> r.1.value == Note(db.nextId, userId, answerId, note, citations, status)
                        && r.0 == db.(notes := db.notes[db.nextId := r.1.value], nextId := db.nextId + 1)
    ensures Valid(db) ==> Valid(r.0)
  {
    if answerId !in db.answers then (db, Err("foreign key violation: answer"))
    else
      var n := Note(db.nextId, userId, answerId, note, citations, status);
      (db.(notes := db.notes[db.nextId := n], nextId := db.nextId + 1), Ok(n))
  }

  function InsertSource(db: Db, s: Source): (r: (Db, Source))
    ensures r.1 == s.(id := db.nextId)
    ensures r.0 == db.(sources := db.sources[db.nextId := r.1], nextId := db.nextId + 1)
    ensures Valid(db) ==> Valid(r.0)
  {
    var row := s.(id := db.nextId);
    (db.(sources := db.sources[db.nextId := row], nextId := db.nextId + 1), row)
  }

  /** The ids of a question's answers, newest first. */
  function AnswersOf(db: Db, questionId: nat): seq<nat> {
    NewestFirst(db.answers, (a: Answer) => a.questionId == questionId, db.nextId)
  }

  /** Listing a table newest first after an insert: the new row, if it
      passes the filter, comes first, followed by the earlier listing. */
  lemma {:induction false} NewestFirstAfterInsert<T>(m: map<nat, T>, keep: T -> bool, n: nat, v: T)
    ensures NewestFirst(m[n := v], keep, n + 1) == (if keep(v) then [n] else []) + NewestFirst(m, keep, n)
  {
    NewestFirstBelow(m, n, v, keep, n);
  }

  lemma {:induction false} NewestFirstBelow<T>(m: map<nat, T>, n: nat, v: T, keep: T -> bool, k: nat)
    requires k <= n
    ensures NewestFirst(m[n := v], keep, k) == NewestFirst(m, keep, k)
    decreases k
  {
    if k > 0 {
      NewestFirstBelow(m, n, v, keep, k - 1);
    }
  }

  /** An update of a row that does not change which rows pass the filter
      leaves the listing as it was. */
  lemma {:induction false} NewestFirstAfterUpdate<T>(m: map<nat, T>, keep: T -> bool, n: nat, i: nat, v: T)
    requires i in m && keep(v) == keep(m[i])
    ensures NewestFirst(m[i := v], keep, n) == NewestFirst(m, keep, n)
    decreases n
  {
    if n > 0 {
      NewestFirstAfterUpdate(m, keep, n - 1, i, v);
    }
  }
}

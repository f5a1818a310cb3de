/** The answer endpoints: storing an answer, reading a question's answers
    with their approved community notes, and switching an answer's persona. */
module AnswerRouter {
  import opened Wrappers
  import opened Domain
  import opened Listing
  import opened Store

  /** An answer together with the community notes shown under it. */
  datatype AnswerView = AnswerView(answer: Answer, notes: seq<Note>)

  /** The approved notes of an answer, newest first. */
  function ApprovedNotes(db: Db, answerId: nat): (r: seq<Note>)
    ensures forall k :: 0 <= k < |r| ==> r[k].answerId == answerId && r[k].status == Approved && r[k] in db.notes.Values
  {
    Rows(db.notes, NewestFirst(db.notes, (n: Note) => n.answerId == answerId && n.status == Approved, db.nextId))
  }

  /** Pending and rejected notes are never shown; every approved one is. */
  lemma ApprovedNotesExact(db: Db, answerId: nat, i: nat)
    requires i in db.notes && db.notes[i].answerId == answerId && i < db.nextId
    ensures db.notes[i] in ApprovedNotes(db, answerId) <==> db.notes[i].status == Approved
  {
    var keep := (n: Note) => n.answerId == answerId && n.status == Approved;
    if db.notes[i].status == Approved {
      NewestFirstComplete(db.notes, keep, db.nextId, i);
      var ids := NewestFirst(db.notes, keep, db.nextId);
      var k :| 0 <= k < |ids| && ids[k] == i;
      assert ApprovedNotes(db, answerId)[k] == db.notes[i];
    }
  }

  function View(db: Db, a: Answer): AnswerView {
    AnswerView(a, ApprovedNotes(db, a.id))
  }

  /** A question's answers, newest first, each with its approved notes. */
  function GetByQuestionId(db: Db, questionId: nat): (r: seq<AnswerView>)
    ensures |r| == |AnswersOf(db, questionId)|
    ensures forall k :: 0 <= k < |r| ==>
              && r[k].answer == db.answers[AnswersOf(db, questionId)[k]]
              && r[k].answer.questionId == questionId
              && r[k].notes == ApprovedNotes(db, r[k].answer.id)
              && forall j :: 0 <= j < |r[k].notes| ==> r[k].notes[j].status == Approved
  {
    var ids := AnswersOf(db, questionId);
    seq(|ids|, k requires 0 <= k < |ids| => View(db, db.answers[ids[k]]))
  }

  /** Every answer of the question is listed, newest first. */
  lemma AnswersNewestFirst(db: Db, questionId: nat)
    requires Valid(db)
    ensures var r := GetByQuestionId(db, questionId);
            && (forall k, l :: 0 <= k < l < |r| ==> r[k].answer.id > r[l].answer.id)
            && (forall i :: i in db.answers && db.answers[i].questionId == questionId ==>
                  exists k :: 0 <= k < |r| && r[k].answer == db.answers[i])
  {
    var ids := AnswersOf(db, questionId);
    var r := GetByQuestionId(db, questionId);
    assert forall k :: 0 <= k < |r| ==> r[k].answer.id == ids[k];
    forall i | i in db.answers && db.answers[i].questionId == questionId
      ensures exists k :: 0 <= k < |r| && r[k].answer == db.answers[i]
    {
      NewestFirstComplete(db.answers, (a: Answer) => a.questionId == questionId, db.nextId, i);
      var k :| 0 <= k < |ids| && ids[k] == i;
      assert r[k].answer == db.answers[i];
    }
  }

  /** An answer as submitted; the persona may be left out. */
  datatype AnswerInput = AnswerInput(
    questionId: nat,
    summary: string,
    citations: seq<Citation>,
    confidence: real,
    controversy: real,
    persona: Option<Persona>)

  /** The schema: a non-empty summary, both scores in [0,100], citation scores in [0,1]. */
  predicate ValidAnswerInput(input: AnswerInput) {
    && |input.summary| >= 1
    && AllCitationsValid(input.citations)
    && 0.0 <= input.confidence <= 100.0
    && 0.0 <= input.controversy <= 100.0
  }

  /** Store an answer exactly as submitted, with the neutral persona unless one is given. */
  function Create(db: Db, input: AnswerInput): (r: (Db, Result<Answer>))
    ensures r.1.Ok? <==> ValidAnswerInput(input) && input.questionId in db.questions
    ensures r.1.Err? ==> r.0 == db
    ensures r.1.Ok? ==> var a := r.1.value;
              && a.questionId == input.questionId && a.summary == input.summary
              && a.citations == input.citations
              && a.confidence == input.confidence && a.controversy == input.controversy
              && a.persona == (if input.persona.Some? then input.persona.value else Neutral)
              && a.id == db.nextId
              && r.0 == db.(answers := db.answers[a.id := a], nextId := db.nextId + 1)
    ensures Valid(db) ==> Valid(r.0)
  {
    if !ValidAnswerInput(input) then (db, Err("invalid input"))
    else
      var persona := if input.persona.Some? then input.persona.value else Neutral;
      InsertAnswer(db, input.questionId, input.summary, input.citations, input.confidence, input.controversy, persona)
  }

  /** A stored answer becomes the first one listed for its question. */
  lemma CreatedAnswerListedFirst(db: Db, input: AnswerInput)
    requires Create(db, input).1.Ok?
    ensures var (db', r) := Create(db, input);
            AnswersOf(db', input.questionId) == [r.value.id] + AnswersOf(db, input.questionId)
  {
    var (db', r) := Create(db, input);
    NewestFirstAfterInsert(db.answers, (a: Answer) => a.questionId == input.questionId, db.nextId, r.value);
  }

  /** Switch an answer's persona; nothing else about it changes. */
  function UpdatePersona(db: Db, answerId: nat, persona: Persona): (r: (Db, Result<Answer>))
    ensures r.1.Ok? <==> answerId in db.answers
    ensures r.1.Err? ==> r.0 == db
    ensures r.1.Ok? ==> r.1.value == db.answers[answerId].(persona := persona)
                        && r.0 == db.(answers := db.answers[answerId := r.1.value])
    ensures Valid(db) ==> Valid(r.0)
  {
    if answerId !in db.answers then (db, Err("record to update not found"))
    else
      var a := db.answers[answerId].(persona := persona);
      (db.(answers := db.answers[answerId := a]), Ok(a))
  }

  /** Switching persona keeps the answer where it was in its question's list. */
  lemma UpdatePersonaKeepsListing(db: Db, answerId: nat, persona: Persona, questionId: nat)
    requires UpdatePersona(db, answerId, persona).1.Ok?
    ensures AnswersOf(UpdatePersona(db, answerId, persona).0, questionId) == AnswersOf(db, questionId)
  {
    NewestFirstAfterUpdate(db.answers, (a: Answer) => a.questionId == questionId, db.nextId, answerId,
                           db.answers[answerId].(persona := persona));
  }
}

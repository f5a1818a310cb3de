/** The ask endpoint, which stores the question, generates an answer and
    stores it, and the placeholder debate endpoint. */
module RagRouter {
  import opened Wrappers
  import opened Domain
  import opened Listing
  import opened Generator
  import opened Store

  const MaxQuestionLength: nat := 1000

  datatype AskInput = AskInput(question: string, lang: Option<Language>, persona: Option<Persona>)

  function LangOf(input: AskInput): Language {
    if input.lang.Some? then input.lang.value else EN
  }

  function PersonaOf(input: AskInput): Persona {
    if input.persona.Some? then input.persona.value else Neutral
  }

  function RequestOf(input: AskInput, userId: string): RagRequest {
    RagRequest(input.question, LangOf(input), PersonaOf(input), userId)
  }

  /** Ask a question. The question is stored first; then the answer is
      generated (retrieval outcome and completion are parameters) and
      stored under it with the requested persona. The two writes are not
      one transaction: when generation fails the question stays stored. */
  function AskQuestion(db: Db, userId: string, input: AskInput, retrieved: Option<seq<Candidate>>,
                       reply: LlmReply, currentYear: int): (r: (Db, Result<(Question, Answer)>))
    ensures !(1 <= |input.question| <= MaxQuestionLength) ==> r.1.Err? && r.0 == db
    ensures 1 <= |input.question| <= MaxQuestionLength ==>
              r.0.questions == db.questions[db.nextId := Question(db.nextId, input.question, LangOf(input), userId)]
    ensures r.1.Ok? <==> 1 <= |input.question| <= MaxQuestionLength
                         && GenerateAnswer(RequestOf(input, userId), retrieved, reply, currentYear).Ok?
    ensures r.0.notes == db.notes && r.0.sources == db.sources && r.0.docs == db.docs
    ensures r.1.Err? ==> r.0.answers == db.answers
    ensures 1 <= |input.question| <= MaxQuestionLength ==>
              r.0.nextId == db.nextId + (if r.1.Ok? then 2 else 1)
    ensures r.1.Ok? ==> var (q, a) := r.1.value;
              var res := GenerateAnswer(RequestOf(input, userId), retrieved, reply, currentYear).value;
              && q.id == db.nextId && a.questionId == q.id && a.id == db.nextId + 1
              && a.summary == res.summary && a.citations == res.citations
              && a.confidence == res.confidence as real && a.controversy == res.controversy
              && a.persona == PersonaOf(input)
              && r.0.answers == db.answers[a.id := a]
    ensures Valid(db) ==> Valid(r.0)
  {
    if !(1 <= |input.question| <= MaxQuestionLength) then (db, Err("invalid input"))
    else
      var (db1, q) := InsertQuestion(db, input.question, LangOf(input), userId);
      var generated := GenerateAnswer(RequestOf(input, userId), retrieved, reply, currentYear);
      if generated.Err? then (db1, Err(generated.message))
      else
        var res := generated.value;
        var (db2, created) := InsertAnswer(db1, q.id, res.summary, res.citations, res.confidence as real,
                                           res.controversy, PersonaOf(input));
        assert created.Ok?;
        (db2, Ok((q, created.value)))
  }

  /** When generation fails the new question is left behind with no answer. */
  lemma FailedAskLeavesUnansweredQuestion(db: Db, userId: string, input: AskInput,
                                          retrieved: Option<seq<Candidate>>, reply: LlmReply, currentYear: int)
    requires Valid(db) && 1 <= |input.question| <= MaxQuestionLength
    requires GenerateAnswer(RequestOf(input, userId), retrieved, reply, currentYear).Err?
    ensures var db' := AskQuestion(db, userId, input, retrieved, reply, currentYear).0;
            db.nextId in db'.questions && db.nextId !in db.questions && AnswersOf(db', db.nextId) == []
  {
    var db' := AskQuestion(db, userId, input, retrieved, reply, currentYear).0;
    var keep := (a: Answer) => a.questionId == db.nextId;
    assert forall i :: i in db'.answers ==> !keep(db'.answers[i]);
    NewestFirstNone(db'.answers, keep, db'.nextId);
  }

  /** With no candidate documents the stored answer is the fixed
      no-evidence answer, with no citations and both scores zero. */
  lemma AskWithoutEvidence(db: Db, userId: string, input: AskInput, reply: LlmReply, currentYear: int)
    requires 1 <= |input.question| <= MaxQuestionLength
    ensures var r := AskQuestion(db, userId, input, Some([]), reply, currentYear).1;
            r.Ok? && r.value.1.summary == NoEvidenceSummary && r.value.1.citations == []
            && r.value.1.confidence == 0.0 && r.value.1.controversy == 0.0
  {
  }

  /** The placeholder debate result: the same verdict, scores and nuance for any two claims. */
  datatype Evidence = Evidence(score: real, sources: seq<nat>)

  datatype DebateResult = DebateResult(verdict: string, evidence1: Evidence, evidence2: Evidence, nuance: string)

  const FixedDebate: DebateResult := DebateResult(
    "Both claims have merit based on available evidence",
    Evidence(0.7, []),
    Evidence(0.6, []),
    "The evidence suggests multiple perspectives on this topic")

  /** Both claims must be non-empty; the language is accepted and unused. */
  function DebateClaims(claim1: string, claim2: string, lang: Option<Language>): (r: Result<DebateResult>)
    ensures r.Ok? <==> |claim1| >= 1 && |claim2| >= 1
  {
    if |claim1| >= 1 && |claim2| >= 1 then Ok(FixedDebate) else Err("invalid input")
  }

  /** Any two accepted debates return the same result, whatever the claims and language. */
  lemma DebateIgnoresClaims(a1: string, a2: string, l1: Option<Language>, b1: string, b2: string, l2: Option<Language>)
    requires DebateClaims(a1, a2, l1).Ok? && DebateClaims(b1, b2, l2).Ok?
    ensures DebateClaims(a1, a2, l1) == DebateClaims(b1, b2, l2)
    ensures DebateClaims(a1, a2, l1).value.evidence1.score > DebateClaims(a1, a2, l1).value.evidence2.score
  {
  }
}

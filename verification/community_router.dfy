/** The community-notes endpoints: submitting a note on an answer, reading
    the notes of an answer, the moderation queue, a user's own notes, and
    moderation itself. */
module CommunityRouter {
  import opened Wrappers
  import opened Domain
  import opened Listing
  import opened Pagination
  import opened Store

  const MaxNoteLength: nat := 2000
  const DefaultNoteLimit: nat := 20

  /** A note as submitted; the citation list may be left out. */
  datatype NoteInput = NoteInput(targetAnswerId: nat, note: string, citations: Option<seq<Citation>>)

  /** The schema: a note of 1..2000 characters and citation scores in [0,1]. */
  predicate ValidNoteInput(input: NoteInput) {
    && 1 <= |input.note| <= MaxNoteLength
    && (input.citations.Some? ==> AllCitationsValid(input.citations.value))
  }

  /** Submit a note. It is always stored as pending, by the session user,
      with no citations when none were sent. */
  function CreateNote(db: Db, userId: string, input: NoteInput): (r: (Db, Result<Note>))
    ensures r.1.Ok? <==> ValidNoteInput(input) && input.targetAnswerId in db.answers
    ensures r.1.Err? ==> r.0 == db
    ensures r.1.Ok? ==> var n := r.1.value;
              && n.status == Pending && n.userId == userId
              && n.answerId == input.targetAnswerId && n.note == input.note
              && n.citations == (if input.citations.Some? then input.citations.value else [])
              && n.id == db.nextId
              && r.0 == db.(notes := db.notes[n.id := n], nextId := db.nextId + 1)
    ensures Valid(db) ==> Valid(r.0)
  {
    if !ValidNoteInput(input) then (db, Err("invalid input"))
    else
      var citations := if input.citations.Some? then input.citations.value else [];
      InsertNote(db, userId, input.targetAnswerId, input.note, citations, Pending)
  }

  /** A note without a citation list is stored with the empty list, and a
      well-formed note on an existing answer is never rejected. */
  lemma CreateNoteDefaults(db: Db, userId: string, answerId: nat, note: string)
    requires 1 <= |note| <= MaxNoteLength && answerId in db.answers
    ensures CreateNote(db, userId, NoteInput(answerId, note, None)).1.Ok?
    ensures CreateNote(db, userId, NoteInput(answerId, note, None)).1.value.citations == []
    ensures CreateNote(db, userId, NoteInput(answerId, note, Some([]))).1.value.citations == []
  {
  }

  /** The ids of the notes on an answer, newest first. */
  function NoteIdsFor(db: Db, answerId: nat): seq<nat> {
    NewestFirst(db.notes, (n: Note) => n.answerId == answerId, db.nextId)
  }

  /** The notes on one answer, newest first. */
  function GetNotesForAnswer(db: Db, answerId: nat): (r: seq<Note>)
    ensures forall k :: 0 <= k < |r| ==> r[k].answerId == answerId && r[k] in db.notes.Values
  {
    Rows(db.notes, NoteIdsFor(db, answerId))
  }

  /** Every note on the answer is listed, once, newest first. */
  lemma NotesForAnswerComplete(db: Db, answerId: nat)
    requires Valid(db)
    ensures var r := GetNotesForAnswer(db, answerId);
            && (forall k, l :: 0 <= k < l < |r| ==> r[k].id > r[l].id)
            && (forall i :: i in db.notes && db.notes[i].answerId == answerId ==> db.notes[i] in r)
  {
    var ids := NoteIdsFor(db, answerId);
    var r := GetNotesForAnswer(db, answerId);
    assert forall k :: 0 <= k < |r| ==> r[k].id == ids[k];
    forall i | i in db.notes && db.notes[i].answerId == answerId ensures db.notes[i] in r {
      NewestFirstComplete(db.notes, (n: Note) => n.answerId == answerId, db.nextId, i);
      var k :| 0 <= k < |ids| && ids[k] == i;
      assert r[k] == db.notes[i];
    }
  }

  /** The moderation queue: pending notes, newest first. */
  function PendingIds(db: Db): seq<nat> {
    NewestFirst(db.notes, (n: Note) => n.status == Pending, db.nextId)
  }

  function GetPendingNotes(db: Db, limit: Option<int>, cursor: Option<nat>): (r: Result<RowPage<Note>>)
    ensures r.Ok? <==> CheckLimit(limit, DefaultNoteLimit).Ok?
    ensures r.Ok? ==> |r.value.rows| <= (if limit.Some? then limit.value else DefaultNoteLimit)
    ensures r.Ok? ==> forall k :: 0 <= k < |r.value.rows| ==> r.value.rows[k].status == Pending && r.value.rows[k] in db.notes.Values
  {
    ListPage(db.notes, PendingIds(db), Newer, limit, DefaultNoteLimit, cursor)
  }

  /** When the note a cursor names has left the queue (moderated after the
      page that handed it out), the next page continues with the pending
      notes older than it: each note shown is older, and the first one is
      the newest of them, so none is skipped. */
  lemma PendingAfterModeratedCursor(db: Db, limit: Option<int>, c: nat, i: nat)
    requires Valid(db) && c in db.notes && db.notes[c].status != Pending
    requires GetPendingNotes(db, limit, Some(c)).Ok?
    ensures var rows := GetPendingNotes(db, limit, Some(c)).value.rows;
            forall k :: 0 <= k < |rows| ==> rows[k].id < c
    ensures i in db.notes && i < c && db.notes[i].status == Pending ==>
              var rows := GetPendingNotes(db, limit, Some(c)).value.rows;
              |rows| > 0 && rows[0].id >= i
  {
    var ordered := PendingIds(db);
    var j := 0;
    if i in db.notes && i < c && db.notes[i].status == Pending {
      NewestFirstComplete(db.notes, (n: Note) => n.status == Pending, db.nextId, i);
      j :| 0 <= j < |ordered| && ordered[j] == i;
    }
    var id := (n: Note) => n.id;
    assert forall i :: i in db.notes ==> id(db.notes[i]) == i;
    assert c !in ordered;
    assert GetPendingNotes(db, limit, Some(c)) == ListPage(db.notes, ordered, Newer, limit, DefaultNoteLimit, Some(c));
    ListPageExcludedNewestFirst(db.notes, ordered, limit, DefaultNoteLimit, c, j, id);
  }

  /** The caller's own notes, newest first. */
  function UserNoteIds(db: Db, userId: string): seq<nat> {
    NewestFirst(db.notes, (n: Note) => n.userId == userId, db.nextId)
  }

  function GetUserNotes(db: Db, userId: string, limit: Option<int>, cursor: Option<nat>): (r: Result<RowPage<Note>>)
    ensures r.Ok? <==> CheckLimit(limit, DefaultNoteLimit).Ok?
    ensures r.Ok? ==> |r.value.rows| <= (if limit.Some? then limit.value else DefaultNoteLimit)
    ensures r.Ok? ==> forall k :: 0 <= k < |r.value.rows| ==> r.value.rows[k].userId == userId && r.value.rows[k] in db.notes.Values
  {
    ListPage(db.notes, UserNoteIds(db, userId), Newer, limit, DefaultNoteLimit, cursor)
  }

  /** Paging through the moderation queue or a user's notes by following
      nextCursor visits every such note exactly once, newest first. */
  lemma NotePagesCover(db: Db, userId: string, limit: nat)
    requires limit >= 1
    ensures Distinct(PendingIds(db)) && Follow(PendingIds(db), None, limit) == PendingIds(db)
    ensures Distinct(UserNoteIds(db, userId)) && Follow(UserNoteIds(db, userId), None, limit) == UserNoteIds(db, userId)
  {
    DescendingIsDistinct(PendingIds(db));
    DescendingIsDistinct(UserNoteIds(db, userId));
    PagesCoverList(PendingIds(db), limit);
    PagesCoverList(UserNoteIds(db, userId), limit);
  }

  predicate MayModerate(role: UserRole) {
    role == Moderator || role == Admin
  }

  /** Set a note's status; only moderators and admins may, and any status may be set. */
  function ModerateNote(db: Db, role: UserRole, noteId: nat, status: CommunityStatus): (r: (Db, Result<Note>))
    ensures !MayModerate(role) ==> r.1 == Err("Unauthorized: Only moderators can moderate notes")
    ensures r.1.Ok? <==> MayModerate(role) && noteId in db.notes
    ensures r.1.Err? ==> r.0 == db
    ensures r.1.Ok? ==> r.1.value == db.notes[noteId].(status := status)
    ensures r.1.Ok? ==> r.0 == db.(notes := db.notes[noteId := r.1.value])
    ensures Valid(db) ==> Valid(r.0)
  {
    if !MayModerate(role) then (db, Err("Unauthorized: Only moderators can moderate notes"))
    else if noteId !in db.notes then (db, Err("record to update not found"))
    else
      var n := db.notes[noteId].(status := status);
      (db.(notes := db.notes[noteId := n]), Ok(n))
  }

  /** Moderation moves a note into or out of the moderation queue and
      leaves every other note where it was. */
  lemma ModerationAndQueue(db: Db, role: UserRole, noteId: nat, status: CommunityStatus, other: nat)
    requires ModerateNote(db, role, noteId, status).1.Ok?
    ensures var db' := ModerateNote(db, role, noteId, status).0;
            (noteId < db.nextId ==> (noteId in PendingIds(db') <==> status == Pending))
            && (other != noteId ==> (other in PendingIds(db') <==> other in PendingIds(db)))
  {
    var db' := ModerateNote(db, role, noteId, status).0;
    var keep := (n: Note) => n.status == Pending;
    if noteId < db.nextId && status == Pending {
      NewestFirstComplete(db'.notes, keep, db.nextId, noteId);
    }
    if other != noteId && other in PendingIds(db) {
      NewestFirstComplete(db'.notes, keep, db.nextId, other);
    }
    if other != noteId && other in PendingIds(db') {
      NewestFirstComplete(db.notes, keep, db.nextId, other);
    }
  }
}

/** The session notes store: the `notes` table and the three operations the
    documentation handlers call on it. The clock reading that stamps a note
    is a parameter. */
module Sessions {
  import opened JsValues
  import opened Json
  import opened Text
  import opened Tables

  /** Milliseconds since the epoch: the instant `new Date().toISOString()`
      writes into createdAt. */
  type Timestamp = nat

  /** The columns of `notes` besides its id. A snapshot column holds JSON
      text or NULL. */
  datatype NoteColumns = NoteColumns(
    sessionId: int,
    userId: int,
    content: string,
    vitalsSnapshot: Option<JsonText>,
    createdAt: Timestamp)

  type NoteRow = Row<NoteColumns>

  /** A note as the store hands it back to its callers. */
  datatype Note = Note(
    id: nat,
    sessionId: int,
    userId: int,
    content: string,
    vitalsSnapshot: JsValue,
    createdAt: Timestamp)

  const ContentRequired: string := "Note content is required"
  const NoteNotFound: string := "Note not found"
  const NotPermitted: string := "You do not have permission to delete this note"

  /** The column value written for a snapshot: its JSON text when the
      snapshot is truthy, NULL otherwise. */
  function StoredSnapshot(snapshot: JsValue): (t: Option<JsonText>)
    ensures t.Some? <==> Truthy(snapshot)
    ensures t.Some? ==> IsJson(Decode(t.value))
  {
    if Truthy(snapshot) then Encode(snapshot) else None
  }

  /** A row with its snapshot column parsed, as every reader returns it. */
  function NoteOf(row: NoteRow): Note
  {
    Note(row.id, row.cols.sessionId, row.cols.userId, row.cols.content,
         ParseColumn(row.cols.vitalsSnapshot), row.cols.createdAt)
  }

  /** What a snapshot reads back as after being stored: null when it was
      falsy (null, 0, "", false, NaN), else its JSON projection, which is
      the snapshot itself when it is plain JSON data. */
  lemma SnapshotRoundTrip(snapshot: JsValue)
    ensures ParseColumn(StoredSnapshot(snapshot)) ==
              if Truthy(snapshot) then Project(snapshot) else Null
    ensures Truthy(snapshot) && IsJson(snapshot) ==>
              ParseColumn(StoredSnapshot(snapshot)) == snapshot
  {
    if Truthy(snapshot) {
      RoundTrip(snapshot);
    }
  }

  // Listing order

  /** SQLite's datetime() keeps whole seconds of the ISO timestamp. */
  function Second(t: Timestamp): (s: nat)
    ensures s * 1000 <= t < s * 1000 + 1000
  {
    t / 1000
  }

  /** `ORDER BY datetime(createdAt) ASC, id ASC`, between two notes with
      different ids: earlier second first, and within one second lower id
      first. */
  predicate ListedBefore(t1: Timestamp, id1: int, t2: Timestamp, id2: int)
  {
    Second(t1) < Second(t2) || (Second(t1) == Second(t2) && id1 < id2)
  }

  /** Listing order is a strict total order on notes with distinct ids:
      never before itself, transitive, and of two distinct ids exactly one
      comes first. Timestamps within the same second are interchangeable. */
  lemma ListedBeforeStrictTotal(t1: Timestamp, id1: int, t2: Timestamp, id2: int, t3: Timestamp, id3: int)
    ensures !ListedBefore(t1, id1, t1, id1)
    ensures ListedBefore(t1, id1, t2, id2) && ListedBefore(t2, id2, t3, id3) ==> ListedBefore(t1, id1, t3, id3)
    ensures id1 != id2 ==> (ListedBefore(t1, id1, t2, id2) <==> !ListedBefore(t2, id2, t1, id1))
    ensures Second(t1) == Second(t2) ==>
              (ListedBefore(t1, id1, t3, id3) <==> ListedBefore(t2, id1, t3, id3))
  {
  }

  predicate RowBefore(a: NoteRow, b: NoteRow)
  {
    ListedBefore(a.cols.createdAt, a.id, b.cols.createdAt, b.id)
  }

  predicate InListingOrder(s: seq<NoteRow>)
  {
    forall i, j :: 0 <= i < j < |s| ==> RowBefore(s[i], s[j])
  }

  predicate DistinctIds(s: seq<NoteRow>)
  {
    forall i, j :: 0 <= i < j < |s| ==> s[i].id != s[j].id
  }

  /** `WHERE sessionId = ?`: the session's rows, in table order. */
  function OfSession(rows: seq<NoteRow>, sessionId: int): (r: seq<NoteRow>)
    ensures forall i :: 0 <= i < |r| ==> r[i] in rows && r[i].cols.sessionId == sessionId
    ensures forall i :: 0 <= i < |rows| && rows[i].cols.sessionId == sessionId ==> rows[i] in r
  {
    if rows == [] then []
    else (if rows[0].cols.sessionId == sessionId then [rows[0]] else []) + OfSession(rows[1..], sessionId)
  }

  lemma {:induction false} OfSessionAscending(rows: seq<NoteRow>, sessionId: int)
    requires Ascending(rows)
    ensures Ascending(OfSession(rows, sessionId))
  {
    if rows != [] {
      var tail := rows[1..];
      TailAscending(rows);
      OfSessionAscending(tail, sessionId);
      var rest := OfSession(tail, sessionId);
      if rows[0].cols.sessionId != sessionId {
        assert OfSession(rows, sessionId) == rest;
      } else {
        KeptAbove(tail, rest, rows[0].id);
        PrependAscending(rows[0], rest);
        assert OfSession(rows, sessionId) == [rows[0]] + rest;
      }
    }
  }

  lemma {:induction false} OfSessionAppend(a: seq<NoteRow>, b: seq<NoteRow>, sessionId: int)
    ensures OfSession(a + b, sessionId) == OfSession(a, sessionId) + OfSession(b, sessionId)
  {
    if a == [] {
      assert a + b == b;
    } else {
      assert (a + b)[0] == a[0];
      assert (a + b)[1..] == a[1..] + b;
      OfSessionAppend(a[1..], b, sessionId);
    }
  }

  /** Places x among rows already in listing order. */
  function InsertListed(x: NoteRow, s: seq<NoteRow>): (r: seq<NoteRow>)
    ensures multiset(r) == multiset(s) + multiset{x}
  {
    if s == [] then [x]
    else if RowBefore(x, s[0]) then [x] + s
    else
      assert [s[0]] + s[1..] == s;
      [s[0]] + InsertListed(x, s[1..])
  }

  lemma {:induction false} InsertListedOrder(x: NoteRow, s: seq<NoteRow>)
    requires InListingOrder(s)
    requires forall i :: 0 <= i < |s| ==> s[i].id != x.id
    ensures InListingOrder(InsertListed(x, s))
  {
    if s != [] && !RowBefore(x, s[0]) {
      var tail := s[1..];
      InsertListedOrder(x, tail);
      var rest := InsertListed(x, tail);
      forall k | 0 <= k < |rest| ensures RowBefore(s[0], rest[k]) {
        assert rest[k] in multiset(rest);
        if rest[k] != x {
          assert rest[k] in tail;
        }
      }
    }
  }

  /** The ORDER BY: the rows rearranged into listing order. */
  function SortListed(s: seq<NoteRow>): (r: seq<NoteRow>)
    ensures multiset(r) == multiset(s)
  {
    if s == [] then []
    else
      assert [s[0]] + s[1..] == s;
      InsertListed(s[0], SortListed(s[1..]))
  }

  lemma {:induction false} SortListedOrder(s: seq<NoteRow>)
    requires DistinctIds(s)
    ensures InListingOrder(SortListed(s))
  {
    if s != [] {
      var tail := s[1..];
      SortListedOrder(tail);
      var rest := SortListed(tail);
      forall k | 0 <= k < |rest| ensures rest[k].id != s[0].id {
        assert rest[k] in multiset(tail);
      }
      InsertListedOrder(s[0], rest);
    }
  }

  function NotesOf(rows: seq<NoteRow>): (r: seq<Note>)
    ensures |r| == |rows|
    ensures forall i :: 0 <= i < |rows| ==> r[i] == NoteOf(rows[i])
  {
    seq(|rows|, i requires 0 <= i < |rows| => NoteOf(rows[i]))
  }

  /** getSessionNotes: the notes of one session, each with its snapshot
      parsed. Every note listed is the row stored under its id and belongs to
      the session; every row of the session is listed; and the list runs in
      strictly increasing (second of createdAt, id) order, so no note is
      listed twice. */
  function GetSessionNotes(rows: seq<NoteRow>, sessionId: int): (notes: seq<Note>)
    requires Ascending(rows)
    ensures forall i :: 0 <= i < |notes| ==>
              notes[i].sessionId == sessionId
              && Find(rows, notes[i].id).Some?
              && NoteOf(Find(rows, notes[i].id).value) == notes[i]
    ensures forall i :: 0 <= i < |rows| && rows[i].cols.sessionId == sessionId ==>
              NoteOf(rows[i]) in notes
    ensures forall i, j :: 0 <= i < j < |notes| ==>
              ListedBefore(notes[i].createdAt, notes[i].id, notes[j].createdAt, notes[j].id)
  {
    var selected := OfSession(rows, sessionId);
    OfSessionAscending(rows, sessionId);
    var sorted := SortListed(selected);
    SortListedOrder(selected);
    ListedRowsStored(rows, sessionId, sorted);
    ListedRowsComplete(rows, sessionId, sorted);
    NotesOf(sorted)
  }

  lemma ListedRowsStored(rows: seq<NoteRow>, sessionId: int, sorted: seq<NoteRow>)
    requires Ascending(rows)
    requires multiset(sorted) == multiset(OfSession(rows, sessionId))
    ensures forall i :: 0 <= i < |sorted| ==>
              sorted[i].cols.sessionId == sessionId && Find(rows, sorted[i].id) == Some(sorted[i])
  {
    var selected := OfSession(rows, sessionId);
    forall i | 0 <= i < |sorted|
      ensures sorted[i].cols.sessionId == sessionId && Find(rows, sorted[i].id) == Some(sorted[i])
    {
      assert sorted[i] in multiset(selected);
      var k :| 0 <= k < |selected| && selected[k] == sorted[i];
      var j :| 0 <= j < |rows| && rows[j] == selected[k];
      FindUnique(rows, j);
    }
  }

  lemma ListedRowsComplete(rows: seq<NoteRow>, sessionId: int, sorted: seq<NoteRow>)
    requires multiset(sorted) == multiset(OfSession(rows, sessionId))
    ensures forall i :: 0 <= i < |rows| && rows[i].cols.sessionId == sessionId ==>
              NoteOf(rows[i]) in NotesOf(sorted)
  {
    var notes := NotesOf(sorted);
    forall i | 0 <= i < |rows| && rows[i].cols.sessionId == sessionId
      ensures NoteOf(rows[i]) in notes
    {
      assert rows[i] in multiset(sorted);
      var k :| 0 <= k < |sorted| && sorted[k] == rows[i];
      assert notes[k] == NoteOf(rows[i]);
    }
  }

  /** A row added to one session shows up in that session's listing and
      leaves every other session's listing as it was. */
  lemma ListingAfterInsert(rows: seq<NoteRow>, cols: NoteColumns)
    requires Ascending(rows)
    ensures NoteOf(Insert(rows, cols)[|rows|]) in GetSessionNotes(Insert(rows, cols), cols.sessionId)
    ensures forall s :: s != cols.sessionId ==>
              GetSessionNotes(Insert(rows, cols), s) == GetSessionNotes(rows, s)
  {
    var rows' := Insert(rows, cols);
    assert rows' == rows + [rows'[|rows|]];
    forall s | s != cols.sessionId
      ensures GetSessionNotes(rows', s) == GetSessionNotes(rows, s)
    {
      OfSessionAppend(rows, [rows'[|rows|]], s);
      assert OfSession([rows'[|rows|]], s) == [];
      assert OfSession(rows', s) == OfSession(rows, s);
    }
  }

  /** A truthy user id in the delete request, that is any id but 0;
      undefined, null and 0 skip the owner check. */
  predicate ClaimsUser(userId: Option<int>)
  {
    userId.Some? && userId.value != 0
  }

  /** The id as the request carries it: a number, or undefined when absent. */
  function UserIdValue(userId: Option<int>): JsValue
  {
    if userId.Some? then Num(Finite(userId.value as real)) else Undefined
  }

  /** The owner check runs exactly when the request's user id is truthy in
      JavaScript's sense. */
  lemma ClaimsUserIffTruthy(userId: Option<int>)
    ensures ClaimsUser(userId) <==> Truthy(UserIdValue(userId))
  {
    if userId.Some? {
      assert (userId.value as real == 0.0) <==> userId.value == 0;
    }
  }

  /** The notes table, kept in rowid order. */
  class NotesTable {
    var rows: seq<NoteRow>

    ghost predicate Valid()
      reads this
    {
      Ascending(rows)
    }

    constructor ()
      ensures Valid() && rows == []
    {
      rows := [];
    }

    /** addSessionNote: content that is missing or all whitespace is refused
        and nothing is written; otherwise exactly one row is appended under
        the next rowid, holding the trimmed content, the caller's ids, the
        clock reading and the snapshot's JSON (NULL for a falsy snapshot).
        The note returned carries the snapshot as given, null when omitted. */
    method AddSessionNote(sessionId: int, userId: int, content: Option<string>,
                          vitalsSnapshot: JsValue, now: Timestamp)
      returns (r: Outcome<Note>)
      requires Valid()
      modifies this
      ensures Valid()
      ensures r.Threw? <==> AllWhitespace(content.GetOr(""))
      ensures r.Threw? ==> r.message == ContentRequired && rows == old(rows)
      ensures r.Returned? ==>
                && r.value == Note(NextRowId(old(rows)), sessionId, userId,
                                   Trim(content.GetOr("")), Coalesce(vitalsSnapshot, Null), now)
                && rows == old(rows) + [Row(r.value.id,
                     NoteColumns(sessionId, userId, r.value.content,
                                 StoredSnapshot(r.value.vitalsSnapshot), now))]
    {
      var snapshot := Coalesce(vitalsSnapshot, Null);
      var sanitized := Trim(content.GetOr(""));
      TrimEmptyIffBlank(content.GetOr(""));
      if sanitized == "" {
        return Threw(ContentRequired);
      }
      var id := NextRowId(rows);
      rows := Insert(rows, NoteColumns(sessionId, userId, sanitized, StoredSnapshot(snapshot), now));
      r := Returned(Note(id, sessionId, userId, sanitized, snapshot, now));
    }

    /** deleteSessionNote: an unknown id is refused with "Note not found"; a
        caller who names a user other than the note's owner is refused; in
        both cases nothing changes. Otherwise exactly that row is deleted and
        returned with its snapshot parsed. */
    method DeleteSessionNote(noteId: int, userId: Option<int>) returns (r: Outcome<Note>)
      requires Valid()
      modifies this
      ensures Valid()
      ensures Find(old(rows), noteId).None? ==> r == Threw(NoteNotFound) && rows == old(rows)
      ensures Find(old(rows), noteId).Some? ==>
                var note := Find(old(rows), noteId).value;
                if ClaimsUser(userId) && note.cols.userId != userId.value then
                  r == Threw(NotPermitted) && rows == old(rows)
                else
                  r == Returned(NoteOf(note)) && rows == Without(old(rows), noteId)
    {
      var found := Find(rows, noteId);
      if found.None? {
        return Threw(NoteNotFound);
      }
      var note := found.value;
      if ClaimsUser(userId) && note.cols.userId != userId.value {
        return Threw(NotPermitted);
      }
      WithoutAscending(rows, noteId);
      rows := Without(rows, noteId);
      r := Returned(NoteOf(note));
    }
  }
}

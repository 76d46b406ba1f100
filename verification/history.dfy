/**
 The change-log walk of `convert_issues` (direct mode): a ticket's change
 log, a sequence of `(time, author, field, old, new)` entries, becomes the
 ordered list of notes posted on the GitLab issue.

 The walk is a fold over an explicit two-state machine. An `attachment`
 entry makes the machine remember it (a later attachment replaces an earlier
 one); a `comment` entry yields a note when its text is non-empty or an
 attachment is pending, the note carries the pending attachment's file name,
 and the machine returns to idle. Every other entry is ignored.
 */
module History {
  import opened Common
  import opened Identity

  /** One entry of a Trac ticket change log. */
  datatype ChangeEntry = ChangeEntry(time: Timestamp, author: string, field: string, oldValue: string, newValue: string)

  /**
   A GitLab note: rendered body, resolved author, creation and update time
   (both the change's time) and the file name of the attachment it carries.
   The attachment's bytes are fetched from the tracker by ticket id and this
   file name.
   */
  datatype Note = Note(body: string, author: string, createdAt: Timestamp, updatedAt: Timestamp, attachment: Option<string>)

  /** The walk's state: idle, or holding the attachment entry a note is still to carry. */
  datatype WalkState = Idle | Pending(entry: ChangeEntry)

  /** What turns a comment into a note: the identity table and the markup rendering of comment text. */
  datatype NoteContext = NoteContext(users: UserMap, render: string -> string)

  predicate IsComment(e: ChangeEntry) { e.field == "comment" }

  predicate IsAttachment(e: ChangeEntry) { e.field == "attachment" }

  /** A comment emits a note when it has text or an attachment is pending. */
  predicate Emits(st: WalkState, e: ChangeEntry) {
    IsComment(e) && (e.newValue != "" || st.Pending?)
  }

  /** The note a comment entry becomes in state `st`. */
  function MakeNote(ctx: NoteContext, st: WalkState, e: ChangeEntry): Note {
    Note(ctx.render(e.newValue), Resolve(ctx.users, e.author), e.time, e.time,
         if st.Pending? then Some(st.entry.newValue) else None)
  }

  /** The transition of the walk on one entry. */
  function Next(st: WalkState, e: ChangeEntry): WalkState {
    if IsAttachment(e) then Pending(e)
    else if Emits(st, e) then Idle
    else st
  }

  /** The notes the walk emits on `log`, starting in state `st`. */
  function Walk(ctx: NoteContext, st: WalkState, log: seq<ChangeEntry>): seq<Note>
    decreases |log|
  {
    if log == [] then []
    else
      (if Emits(st, log[0]) then [MakeNote(ctx, st, log[0])] else [])
      + Walk(ctx, Next(st, log[0]), log[1..])
  }

  /** The state the walk is in after `log`. */
  function Final(st: WalkState, log: seq<ChangeEntry>): WalkState
    decreases |log|
  {
    if log == [] then st else Final(Next(st, log[0]), log[1..])
  }

  /** The notes of a ticket: the walk from the idle state. */
  function Notes(ctx: NoteContext, log: seq<ChangeEntry>): seq<Note> {
    Walk(ctx, Idle, log)
  }

  // ---------------------------------------------------------------------------
  // the transition table

  /**
   One step of the walk: a note exactly for a comment with text or with a
   pending attachment; after a note the machine is idle; an attachment
   becomes (or replaces) the pending one; anything else leaves the state as it
   was.
   */
  lemma StepTable(ctx: NoteContext, st: WalkState, e: ChangeEntry)
    ensures Walk(ctx, st, [e]) != [] <==> IsComment(e) && (e.newValue != "" || st.Pending?)
    ensures Walk(ctx, st, [e]) != [] ==> Walk(ctx, st, [e]) == [MakeNote(ctx, st, e)] && Final(st, [e]) == Idle
    ensures IsAttachment(e) ==> Final(st, [e]) == Pending(e)
    ensures !IsAttachment(e) && Walk(ctx, st, [e]) == [] ==> Final(st, [e]) == st
  {
    assert [e][1..] == [];
  }

  // ---------------------------------------------------------------------------
  // the reference: which attachment is pending at a position

  /** An entry that neither comments nor attaches. */
  predicate Quiet(e: ChangeEntry) { !IsComment(e) && !IsAttachment(e) }

  /**
   The attachment at position `j` is still pending when position `i` is
   reached: no comment and no other attachment lies in between.
   */
  ghost predicate PendingSince(log: seq<ChangeEntry>, i: int, j: int) {
    0 <= j < i <= |log| && IsAttachment(log[j])
    && forall k :: j < k < i ==> Quiet(log[k])
  }

  /**
   The attachment pending before position `i`: the nearest earlier
   attachment, unless a comment comes first.
   */
  function PendingAt(log: seq<ChangeEntry>, i: nat): Option<ChangeEntry>
    requires i <= |log|
    decreases i
  {
    if i == 0 then None
    else if IsAttachment(log[i - 1]) then Some(log[i - 1])
    else if IsComment(log[i - 1]) then None
    else PendingAt(log, i - 1)
  }

  /**
   `PendingAt` picks exactly the attachment that is still pending: there is a
   pending attachment iff some attachment has only quiet entries after it, and
   then it is that one.
   */
  lemma {:induction false} PendingAtCharacterized(log: seq<ChangeEntry>, i: nat)
    requires i <= |log|
    ensures PendingAt(log, i).Some? <==> exists j :: PendingSince(log, i, j)
    ensures forall j :: PendingSince(log, i, j) ==> PendingAt(log, i) == Some(log[j])
    decreases i
  {
    if i > 0 && !IsAttachment(log[i - 1]) && !IsComment(log[i - 1]) {
      PendingAtCharacterized(log, i - 1);
      if PendingAt(log, i).Some? {
        var j :| PendingSince(log, i - 1, j);
        assert PendingSince(log, i, j);
      }
      forall j | PendingSince(log, i, j)
        ensures PendingSince(log, i - 1, j)
      {
        assert j != i - 1;
      }
    } else if i > 0 && IsAttachment(log[i - 1]) {
      assert PendingSince(log, i, i - 1);
      assert !Quiet(log[i - 1]);
    } else if i > 0 {
      assert !Quiet(log[i - 1]);
    }
  }

  /** The state of the walk before position `i`, read off the log. */
  function StateAt(log: seq<ChangeEntry>, i: nat): WalkState
    requires i <= |log|
  {
    match PendingAt(log, i)
    case None => Idle
    case Some(a) => Pending(a)
  }

  /**
   The note the comment at position `i` becomes: its rendered text, resolved
   author and time, and the file name of the pending attachment if any.
   */
  function NoteAt(ctx: NoteContext, log: seq<ChangeEntry>, i: nat): Note
    requires i < |log|
  {
    var e := log[i];
    Note(ctx.render(e.newValue), Resolve(ctx.users, e.author), e.time, e.time,
         match PendingAt(log, i) case None => None case Some(a) => Some(a.newValue))
  }

  /** Whether the entry at position `i` yields a note. */
  predicate NoteIsDue(log: seq<ChangeEntry>, i: nat)
    requires i < |log|
  {
    IsComment(log[i]) && (log[i].newValue != "" || PendingAt(log, i).Some?)
  }

  /** The notes due from position `i` on, in log order. */
  function DueNotes(ctx: NoteContext, log: seq<ChangeEntry>, i: nat): seq<Note>
    requires i <= |log|
    decreases |log| - i
  {
    if i == |log| then []
    else (if NoteIsDue(log, i) then [NoteAt(ctx, log, i)] else []) + DueNotes(ctx, log, i + 1)
  }

  /** The walk's state after position `i` is the state read off the log at `i + 1`. */
  lemma NextMatchesLog(log: seq<ChangeEntry>, i: nat)
    requires i < |log|
    ensures Next(StateAt(log, i), log[i]) == StateAt(log, i + 1)
  {
  }

  /** From any position on, the walk emits exactly the notes due there. */
  lemma {:induction false} WalkFromMatchesDue(ctx: NoteContext, log: seq<ChangeEntry>, i: nat)
    requires i <= |log|
    ensures Walk(ctx, StateAt(log, i), log[i..]) == DueNotes(ctx, log, i)
    decreases |log| - i
  {
    if i < |log| {
      var st := StateAt(log, i);
      assert log[i..][0] == log[i];
      assert log[i..][1..] == log[i + 1..];
      NextMatchesLog(log, i);
      WalkFromMatchesDue(ctx, log, i + 1);
      assert Emits(st, log[i]) == NoteIsDue(log, i);
      assert MakeNote(ctx, st, log[i]) == NoteAt(ctx, log, i);
    }
  }

  /**
   The walk agrees with the reference: the notes are, in log order, one per
   comment entry that has text or follows a pending attachment, each carrying
   the file name of the attachment pending at that comment.
   */
  lemma NotesMatchDue(ctx: NoteContext, log: seq<ChangeEntry>)
    ensures Notes(ctx, log) == DueNotes(ctx, log, 0)
  {
    WalkFromMatchesDue(ctx, log, 0);
    assert log[0..] == log;
  }

  // ---------------------------------------------------------------------------
  // composition and the trailing entries

  /** Walking a concatenation is walking the first part, then the second from where the first left off. */
  lemma {:induction false} WalkAppend(ctx: NoteContext, st: WalkState, a: seq<ChangeEntry>, b: seq<ChangeEntry>)
    ensures Walk(ctx, st, a + b) == Walk(ctx, st, a) + Walk(ctx, Final(st, a), b)
    decreases |a|
  {
    if a == [] {
      assert a + b == b;
    } else {
      assert (a + b)[0] == a[0];
      assert (a + b)[1..] == a[1..] + b;
      WalkAppend(ctx, Next(st, a[0]), a[1..], b);
    }
  }

  /**
   An entry that is not a comment emits nothing at the end of a log; in
   particular an attachment that no comment follows yields no note.
   */
  lemma TrailingEntryEmitsNothing(ctx: NoteContext, st: WalkState, log: seq<ChangeEntry>, e: ChangeEntry)
    requires !IsComment(e)
    ensures Walk(ctx, st, log + [e]) == Walk(ctx, st, log)
  {
    WalkAppend(ctx, st, log, [e]);
    assert Walk(ctx, Final(st, log), [e]) == [];
  }

  /** Every note stems from a comment entry: its text, author and time are that entry's. */
  lemma {:induction false} NotesComeFromComments(ctx: NoteContext, log: seq<ChangeEntry>, i: nat, n: Note)
    requires i <= |log|
    requires n in DueNotes(ctx, log, i)
    ensures exists k :: i <= k < |log| && IsComment(log[k]) && n == NoteAt(ctx, log, k)
    decreases |log| - i
  {
    if n != NoteAt(ctx, log, i) || !NoteIsDue(log, i) {
      NotesComeFromComments(ctx, log, i + 1, n);
    }
  }

  /** There are never more notes than comment entries. */
  function CommentCount(log: seq<ChangeEntry>): nat {
    if log == [] then 0 else (if IsComment(log[0]) then 1 else 0) + CommentCount(log[1..])
  }

  lemma {:induction false} AtMostOneNotePerComment(ctx: NoteContext, st: WalkState, log: seq<ChangeEntry>)
    ensures |Walk(ctx, st, log)| <= CommentCount(log)
    decreases |log|
  {
    if log != [] {
      AtMostOneNotePerComment(ctx, Next(st, log[0]), log[1..]);
    }
  }

  // ---------------------------------------------------------------------------
  // worked examples

  /** An attachment followed by an empty comment gives one empty note carrying the file. */
  lemma AttachmentThenEmptyComment(ctx: NoteContext, t: Timestamp, who: string, file: string)
    ensures Notes(ctx, [ChangeEntry(t, who, "attachment", "", file), ChangeEntry(t, who, "comment", "", "")])
         == [Note(ctx.render(""), Resolve(ctx.users, who), t, t, Some(file))]
  {
    var a := ChangeEntry(t, who, "attachment", "", file);
    var c := ChangeEntry(t, who, "comment", "", "");
    assert [a, c][1..] == [c];
    assert [c][1..] == [];
    assert Walk(ctx, Pending(a), [c]) == [MakeNote(ctx, Pending(a), c)];
    assert Walk(ctx, Idle, [a, c]) == Walk(ctx, Pending(a), [c]);
  }

  /** A comment with text and no attachment before it gives one plain note. */
  lemma PlainComment(ctx: NoteContext, t: Timestamp, who: string, text: string)
    requires text != ""
    ensures Notes(ctx, [ChangeEntry(t, who, "comment", "", text)])
         == [Note(ctx.render(text), Resolve(ctx.users, who), t, t, None)]
  {
    var c := ChangeEntry(t, who, "comment", "", text);
    assert [c][1..] == [];
    assert Walk(ctx, Idle, [c]) == [MakeNote(ctx, Idle, c)];
  }

  /** Of two attachments in a row, the comment that follows carries the second. */
  lemma LaterAttachmentWins(ctx: NoteContext, t: Timestamp, who: string, first: string, second: string)
    ensures Notes(ctx, [ChangeEntry(t, who, "attachment", "", first), ChangeEntry(t, who, "attachment", "", second),
                        ChangeEntry(t, who, "comment", "", "")])
         == [Note(ctx.render(""), Resolve(ctx.users, who), t, t, Some(second))]
  {
    var a := ChangeEntry(t, who, "attachment", "", first);
    var b := ChangeEntry(t, who, "attachment", "", second);
    var c := ChangeEntry(t, who, "comment", "", "");
    assert [a, b, c][1..] == [b, c];
    assert [b, c][1..] == [c];
    assert [c][1..] == [];
    assert Walk(ctx, Pending(b), [c]) == [MakeNote(ctx, Pending(b), c)];
    assert Walk(ctx, Pending(a), [b, c]) == Walk(ctx, Pending(b), [c]);
    assert Walk(ctx, Idle, [a, b, c]) == Walk(ctx, Pending(a), [b, c]);
  }
}

/**
 The ticket phase of `convert_issues` (direct mode), as a pure function
 from the tracker's data to the sequence of operations performed on the
 GitLab project: clearing it under overwrite, creating the milestones,
 then, ticket by ticket in query order, creating the issue and posting its
 notes. A ticket naming an unknown milestone aborts the run; the operations
 performed up to that point stay performed.
 */
module Issues {
  import opened Common
  import opened Text
  import opened Identity
  import opened Settings
  import opened Classifier
  import opened History
  import opened Milestones

  /**
   A Trac ticket as the batched `ticket.get` returns it: id, creation and
   change time, and the fields the migration reads. `component` and
   `milestone` are absent when the ticket has no such field.
   */
  datatype Ticket = Ticket(
    id: int, created: Timestamp, updated: Timestamp,
    summary: string, description: string,
    priority: string, resolution: string, status: string,
    component: Option<string>, version: string,
    owner: string, reporter: string,
    milestone: Option<string>)

  /** The GitLab issue created for a ticket; `labels` is the comma-joined label list. */
  datatype Issue = Issue(
    title: string, description: string, state: string, labels: string,
    assignee: Option<string>, author: string,
    createdAt: Timestamp, updatedAt: Timestamp,
    iid: int, milestone: Option<int>)

  /**
   The operations performed on the GitLab project. A note is posted on the
   issue created last; `ticket` is the Trac ticket id, by which an attached
   file is fetched from the tracker.
   */
  datatype Op =
    | ClearIssues
    | CreateMilestone(milestone: DestMilestone)
    | CreateIssue(ticket: int, issue: Issue)
    | CommentIssue(ticket: int, note: Note)

  /**
   The ids GitLab hands out: the `k`-th milestone created gets
   `milestoneId(k)`, and the `k`-th issue created is given
   `issueIid(k)` when the destination chooses the iid.
   */
  datatype Allocator = Allocator(milestoneId: nat -> int, issueIid: nat -> int)

  /** What the tracker provides to the ticket phase. */
  datatype TicketSource = TicketSource(
    milestoneNames: seq<string>,
    milestone: string -> SourceMilestone,
    tickets: seq<Ticket>,
    changeLog: int -> seq<ChangeEntry>)

  /** The operations performed, and the error that stopped the run, if any. */
  datatype IssueRun = IssueRun(ops: seq<Op>, error: Option<MigrationError>)

  // ---------------------------------------------------------------------------
  // selection

  /** A ticket is migrated unless a non-empty allow-list leaves its id out. */
  predicate Wanted(only: Option<seq<int>>, id: int) {
    only.None? || only.value == [] || id in only.value
  }

  /** `a` is `b` with some elements left out, the rest kept in order. */
  predicate IsSubsequence<T(==)>(a: seq<T>, b: seq<T>)
    decreases |b|
  {
    a == [] || (b != [] && if a[0] == b[0] then IsSubsequence(a[1..], b[1..]) else IsSubsequence(a, b[1..]))
  }

  /**
   The tickets that are migrated: those the allow-list wants, in query
   order; all of them when the list is absent or empty.
   */
  function SelectTickets(only: Option<seq<int>>, tickets: seq<Ticket>): (sel: seq<Ticket>)
    ensures forall k :: 0 <= k < |sel| ==> Wanted(only, sel[k].id)
    ensures only.None? || only.value == [] ==> sel == tickets
    decreases |tickets|
  {
    if tickets == [] then []
    else
      var rest := SelectTickets(only, tickets[1..]);
      if Wanted(only, tickets[0].id) then
        assert tickets == [tickets[0]] + tickets[1..];
        [tickets[0]] + rest
      else rest
  }

  /**
   Selection drops exactly the unwanted tickets: a wanted ticket keeps its
   multiplicity and an unwanted one does not remain.
   */
  lemma {:induction false} SelectionKeepsWanted(only: Option<seq<int>>, tickets: seq<Ticket>, t: Ticket)
    ensures multiset(SelectTickets(only, tickets))[t] == if Wanted(only, t.id) then multiset(tickets)[t] else 0
    decreases |tickets|
  {
    if tickets != [] {
      var rest := SelectTickets(only, tickets[1..]);
      SelectionKeepsWanted(only, tickets[1..], t);
      assert tickets == [tickets[0]] + tickets[1..];
      assert multiset(tickets) == multiset{tickets[0]} + multiset(tickets[1..]);
      if Wanted(only, tickets[0].id) {
        assert SelectTickets(only, tickets) == [tickets[0]] + rest;
        assert multiset([tickets[0]] + rest) == multiset{tickets[0]} + multiset(rest);
      } else {
        assert SelectTickets(only, tickets) == rest;
      }
    }
  }

  /** Selection keeps the query order. */
  lemma {:induction false} SelectionKeepsOrder(only: Option<seq<int>>, tickets: seq<Ticket>)
    ensures IsSubsequence(SelectTickets(only, tickets), tickets)
    decreases |tickets|
  {
    if tickets != [] {
      var rest := SelectTickets(only, tickets[1..]);
      SelectionKeepsOrder(only, tickets[1..]);
      if Wanted(only, tickets[0].id) {
        assert SelectTickets(only, tickets) == [tickets[0]] + rest;
        assert ([tickets[0]] + rest)[1..] == rest;
      } else {
        assert SelectTickets(only, tickets) == rest;
        assert rest == [] || rest[0] != tickets[0] by {
          if rest != [] {
            assert Wanted(only, rest[0].id);
          }
        }
      }
    }
  }

  /** The example allow-list: of tickets 4 to 7, only 5 and 7 are migrated. */
  lemma AllowListExample(t4: Ticket, t5: Ticket, t6: Ticket, t7: Ticket)
    requires t4.id == 4 && t5.id == 5 && t6.id == 6 && t7.id == 7
    ensures SelectTickets(Some([5, 7]), [t4, t5, t6, t7]) == [t5, t7]
  {
    var only := Some([5, 7]);
    assert Wanted(only, 5) && Wanted(only, 7);
    assert !Wanted(only, 4) && !Wanted(only, 6);
    assert [t7][1..] == [];
    assert SelectTickets(only, [t7]) == [t7];
    assert [t6, t7][1..] == [t7];
    assert SelectTickets(only, [t6, t7]) == [t7];
    assert [t5, t6, t7][1..] == [t6, t7];
    assert SelectTickets(only, [t5, t6, t7]) == [t5, t7];
    assert [t4, t5, t6, t7][1..] == [t5, t6, t7];
  }

  // ---------------------------------------------------------------------------
  // one ticket

  /** `src_ticket_data.get('component', '')`. */
  function ComponentOf(t: Ticket): string {
    match t.component
    case None => ""
    case Some(c) => c
  }

  function ClassifyTicket(t: Ticket): Classification {
    Classify(t.priority, t.resolution, t.version, ComponentOf(t), t.status)
  }

  /**
   The issue for a ticket: summary as title, rendered description, the
   classifier's state and comma-joined labels, the owner as assignee unless
   empty, the reporter as author (both resolved with the default-user
   fallback), the ticket's times, and as iid the ticket id under overwrite or
   the id the destination gave otherwise.
   */
  function ConvertTicket(cfg: Config, m: Markup, t: Ticket, given: int, milestone: Option<int>): (issue: Issue)
    ensures issue.iid == (if cfg.overwrite then t.id else given)
    ensures issue.assignee.None? <==> t.owner == ""
    ensures issue.assignee.Some? ==> issue.assignee.value == Resolve(cfg.users, t.owner)
    ensures issue.author == Resolve(cfg.users, t.reporter)
    ensures issue.state == ClassifyTicket(t).state
    ensures issue.labels == EncodeLabels(ClassifyTicket(t).labels)
    ensures issue.title == t.summary && issue.createdAt == t.created && issue.updatedAt == t.updated
    ensures issue.milestone == milestone
    ensures issue.description == RenderIssueText(m, t.description)
  {
    var c := ClassifyTicket(t);
    Issue(t.summary, RenderIssueText(m, t.description), c.state, EncodeLabels(c.labels),
          Assignee(cfg.users, t.owner), Resolve(cfg.users, t.reporter),
          t.created, t.updated,
          if cfg.overwrite then t.id else given,
          milestone)
  }

  /** Comment text is rendered like descriptions; authors resolve with the same table. */
  function NoteContextOf(cfg: Config, m: Markup): NoteContext {
    NoteContext(cfg.users, text => RenderIssueText(m, text))
  }

  /** One note-posting operation per note, in order. */
  function NoteOps(ticket: int, notes: seq<Note>): (ops: seq<Op>)
    ensures |ops| == |notes|
    ensures forall k :: 0 <= k < |ops| ==> ops[k] == CommentIssue(ticket, notes[k])
  {
    seq(|notes|, k requires 0 <= k < |notes| => CommentIssue(ticket, notes[k]))
  }

  // ---------------------------------------------------------------------------
  // the phase

  /**
   How one ticket becomes operations: the issue for a ticket given its iid
   and milestone id, and the notes of its change log. The ticket loop below
   is stated for any such rules; `RulesOf` gives the migration's.
   */
  datatype TicketRules = TicketRules(issueOf: (Ticket, int, Option<int>) -> Issue, notesOf: Ticket -> seq<Note>)

  function RulesOf(cfg: Config, m: Markup, src: TicketSource): TicketRules {
    TicketRules((t: Ticket, iid: int, ms: Option<int>) => ConvertTicket(cfg, m, t, iid, ms),
                (t: Ticket) => Notes(NoteContextOf(cfg, m), src.changeLog(t.id)))
  }

  /** The operations for one ticket whose milestone resolved to `ms`: create the issue, then post its notes. */
  function TicketHead(rules: TicketRules, t: Ticket, iid: int, ms: Option<int>): seq<Op> {
    [CreateIssue(t.id, rules.issueOf(t, iid, ms))] + NoteOps(t.id, rules.notesOf(t))
  }

  /**
   The tickets `ts` in order, the `created`-th issue being the next to
   create: create each issue, then post its notes; stop at the first ticket
   whose milestone is unknown.
   */
  function TicketOps(rules: TicketRules, alloc: Allocator, idOf: map<string, int>, ts: seq<Ticket>, created: nat): IssueRun
    decreases |ts|
  {
    if ts == [] then IssueRun([], None)
    else
      match LookupMilestone(idOf, ts[0].milestone)
      case Failure(e) => IssueRun([], Some(e))
      case Success(ms) =>
        var rest := TicketOps(rules, alloc, idOf, ts[1..], created + 1);
        IssueRun(TicketHead(rules, ts[0], alloc.issueIid(created), ms) + rest.ops, rest.error)
  }

  /** One milestone creation per listed milestone, in listing order. */
  function MilestoneOps(m: Markup, src: TicketSource): (ops: seq<Op>)
    ensures |ops| == |src.milestoneNames|
    ensures forall k :: 0 <= k < |ops| ==> ops[k] == CreateMilestone(ConvertMilestone(m, src.milestone(src.milestoneNames[k])))
  {
    seq(|src.milestoneNames|, k requires 0 <= k < |src.milestoneNames| =>
      CreateMilestone(ConvertMilestone(m, src.milestone(src.milestoneNames[k]))))
  }

  /** The operations of the clearing step: one under overwrite, none otherwise. */
  function ClearOps(cfg: Config): seq<Op> {
    if cfg.overwrite then [ClearIssues] else []
  }

  /**
   The phase for given per-ticket rules: clear under overwrite, create the
   milestones, then the selected tickets. The properties below hold for any
   rules.
   */
  function IssuePhase(cfg: Config, rules: TicketRules, m: Markup, src: TicketSource, alloc: Allocator): IssueRun {
    var idOf := MilestoneIds(src.milestoneNames, alloc.milestoneId);
    var tickets := TicketOps(rules, alloc, idOf, SelectTickets(cfg.onlyIssues, src.tickets), 0);
    IssueRun(ClearOps(cfg) + MilestoneOps(m, src) + tickets.ops, tickets.error)
  }

  /** `convert_issues`: the phase with the migration's own rules. */
  function ConvertIssues(cfg: Config, m: Markup, src: TicketSource, alloc: Allocator): IssueRun {
    IssuePhase(cfg, RulesOf(cfg, m, src), m, src, alloc)
  }

  // ---------------------------------------------------------------------------
  // properties of the phase

  /** Every note is posted right after its issue's creation or after another note of the same ticket. */
  predicate NotesFollowTheirIssue(ops: seq<Op>) {
    forall j :: 0 <= j < |ops| && ops[j].CommentIssue? ==>
      j > 0 && (ops[j - 1].CreateIssue? || ops[j - 1].CommentIssue?) && ops[j - 1].ticket == ops[j].ticket
  }

  /** Only issue creations and notes. */
  predicate OnlyTicketOps(ops: seq<Op>) {
    forall j :: 0 <= j < |ops| ==> ops[j].CreateIssue? || ops[j].CommentIssue?
  }

  /** Gluing two well-formed stretches keeps every note after its issue: the second cannot start with a note. */
  lemma NotesFollowConcat(a: seq<Op>, b: seq<Op>)
    requires NotesFollowTheirIssue(a) && NotesFollowTheirIssue(b)
    ensures NotesFollowTheirIssue(a + b)
  {
    forall j | 0 <= j < |a + b| && (a + b)[j].CommentIssue?
      ensures j > 0 && ((a + b)[j - 1].CreateIssue? || (a + b)[j - 1].CommentIssue?)
              && (a + b)[j - 1].ticket == (a + b)[j].ticket
    {
      if j >= |a| {
        assert (a + b)[j] == b[j - |a|];
        if j > |a| {
          assert (a + b)[j - 1] == b[j - 1 - |a|];
        }
      } else {
        assert (a + b)[j] == a[j];
      }
    }
  }

  /** The issue creations among the operations, in order. */
  function Creations(ops: seq<Op>): (cs: seq<Op>)
    ensures forall k :: 0 <= k < |cs| ==> cs[k].CreateIssue?
    ensures |cs| <= |ops|
  {
    if ops == [] then []
    else (if ops[0].CreateIssue? then [ops[0]] else []) + Creations(ops[1..])
  }

  lemma {:induction false} CreationsAppend(a: seq<Op>, b: seq<Op>)
    ensures Creations(a + b) == Creations(a) + Creations(b)
    decreases |a|
  {
    if a == [] {
      assert a + b == b;
    } else {
      assert (a + b)[0] == a[0];
      assert (a + b)[1..] == a[1..] + b;
      CreationsAppend(a[1..], b);
    }
  }

  lemma {:induction false} NoCreationsIn(ops: seq<Op>)
    requires forall j :: 0 <= j < |ops| ==> !ops[j].CreateIssue?
    ensures Creations(ops) == []
    decreases |ops|
  {
    if ops != [] {
      NoCreationsIn(ops[1..]);
    }
  }

  /** One ticket's operations: its issue first, its notes after it, and no other creation. */
  lemma TicketHeadShape(rules: TicketRules, t: Ticket, iid: int, ms: Option<int>)
    ensures var head := TicketHead(rules, t, iid, ms);
            OnlyTicketOps(head) && NotesFollowTheirIssue(head)
            && Creations(head) == [CreateIssue(t.id, rules.issueOf(t, iid, ms))]
  {
    var first := [CreateIssue(t.id, rules.issueOf(t, iid, ms))];
    var notes := NoteOps(t.id, rules.notesOf(t));
    var head := first + notes;
    forall j | 0 <= j < |head| && head[j].CommentIssue?
      ensures j > 0 && (head[j - 1].CreateIssue? || head[j - 1].CommentIssue?) && head[j - 1].ticket == head[j].ticket
    {
      if j > 0 {
        assert head[j] == notes[j - 1];
        if j > 1 {
          assert head[j - 1] == notes[j - 2];
        }
      }
    }
    forall j | 0 <= j < |head|
      ensures head[j].CreateIssue? || head[j].CommentIssue?
    {
      if j > 0 {
        assert head[j] == notes[j - 1];
      }
    }
    CreationsAppend(first, notes);
    NoCreationsIn(notes);
    assert Creations(first) == first by {
      assert first[1..] == [];
    }
  }

  /** The position of the first ticket whose milestone lookup fails, or `|ts|`. */
  function FirstFailure(idOf: map<string, int>, ts: seq<Ticket>): (n: nat)
    ensures n <= |ts|
    ensures forall k :: 0 <= k < n ==> LookupMilestone(idOf, ts[k].milestone).Success?
    ensures n < |ts| ==> LookupMilestone(idOf, ts[n].milestone).Failure?
    decreases |ts|
  {
    if ts == [] || LookupMilestone(idOf, ts[0].milestone).Failure? then 0
    else 1 + FirstFailure(idOf, ts[1..])
  }

  /** A ticket whose milestone resolves contributes its head, then the loop carries on with the next iid. */
  lemma TicketOpsStep(rules: TicketRules, alloc: Allocator, idOf: map<string, int>, ts: seq<Ticket>, created: nat)
    requires ts != [] && LookupMilestone(idOf, ts[0].milestone).Success?
    ensures var rest := TicketOps(rules, alloc, idOf, ts[1..], created + 1);
            TicketOps(rules, alloc, idOf, ts, created)
            == IssueRun(TicketHead(rules, ts[0], alloc.issueIid(created), LookupMilestone(idOf, ts[0].milestone).value)
                        + rest.ops, rest.error)
  {
  }

  /** The ticket loop performs issue creations and notes only, each note right after its issue. */
  lemma {:induction false} TicketOpsShape(rules: TicketRules, alloc: Allocator,
                                          idOf: map<string, int>, ts: seq<Ticket>, created: nat)
    ensures var r := TicketOps(rules, alloc, idOf, ts, created);
            OnlyTicketOps(r.ops) && NotesFollowTheirIssue(r.ops)
    decreases |ts|
  {
    if ts != [] && LookupMilestone(idOf, ts[0].milestone).Success? {
      var ms := LookupMilestone(idOf, ts[0].milestone).value;
      var head := TicketHead(rules, ts[0], alloc.issueIid(created), ms);
      var rest := TicketOps(rules, alloc, idOf, ts[1..], created + 1).ops;
      TicketHeadShape(rules, ts[0], alloc.issueIid(created), ms);
      TicketOpsShape(rules, alloc, idOf, ts[1..], created + 1);
      NotesFollowConcat(head, rest);
      TicketOpsStep(rules, alloc, idOf, ts, created);
      forall j | 0 <= j < |head + rest|
        ensures (head + rest)[j].CreateIssue? || (head + rest)[j].CommentIssue?
      {
        if j >= |head| {
          assert (head + rest)[j] == rest[j - |head|];
        }
      }
    }
  }

  /**
   The ticket loop stops exactly when some ticket's milestone is unknown, and
   then reports the first such milestone.
   */
  lemma {:induction false} TicketOpsError(rules: TicketRules, alloc: Allocator,
                                          idOf: map<string, int>, ts: seq<Ticket>, created: nat)
    ensures var r := TicketOps(rules, alloc, idOf, ts, created);
            var n := FirstFailure(idOf, ts);
            (r.error.Some? <==> n < |ts|)
            && (n < |ts| ==> r.error == Some(UnknownMilestone(ts[n].milestone.value)))
    decreases |ts|
  {
    if ts != [] && LookupMilestone(idOf, ts[0].milestone).Success? {
      TicketOpsError(rules, alloc, idOf, ts[1..], created + 1);
    }
  }

  /**
   The issues a ticket loop is expected to create: one per ticket before the
   first whose milestone lookup fails, the `k`-th converted with the `k`-th
   allocated iid and its ticket's milestone id.
   */
  function Issued(rules: TicketRules, alloc: Allocator, idOf: map<string, int>, ts: seq<Ticket>, created: nat): seq<Op>
    decreases |ts|
  {
    if ts == [] then []
    else
      match LookupMilestone(idOf, ts[0].milestone)
      case Failure(_) => []
      case Success(ms) =>
        [CreateIssue(ts[0].id, rules.issueOf(ts[0], alloc.issueIid(created), ms))]
          + Issued(rules, alloc, idOf, ts[1..], created + 1)
  }

  /** One issue is expected per ticket before the first failing lookup. */
  lemma {:induction false} IssuedLength(rules: TicketRules, alloc: Allocator, idOf: map<string, int>, ts: seq<Ticket>, created: nat)
    ensures |Issued(rules, alloc, idOf, ts, created)| == FirstFailure(idOf, ts)
    decreases |ts|
  {
    if ts != [] && LookupMilestone(idOf, ts[0].milestone).Success? {
      IssuedLength(rules, alloc, idOf, ts[1..], created + 1);
    }
  }

  /** The `k`-th expected issue converts the `k`-th ticket with the `k`-th allocated iid. */
  lemma {:induction false} IssuedAt(rules: TicketRules, alloc: Allocator, idOf: map<string, int>, ts: seq<Ticket>,
                                    created: nat, k: nat)
    requires k < FirstFailure(idOf, ts)
    ensures var made := Issued(rules, alloc, idOf, ts, created);
            k < |made|
            && made[k] == CreateIssue(ts[k].id,
                 rules.issueOf(ts[k], alloc.issueIid(created + k), LookupMilestone(idOf, ts[k].milestone).value))
    decreases k
  {
    IssuedLength(rules, alloc, idOf, ts, created);
    var ms := LookupMilestone(idOf, ts[0].milestone).value;
    var rest := Issued(rules, alloc, idOf, ts[1..], created + 1);
    assert Issued(rules, alloc, idOf, ts, created)
        == [CreateIssue(ts[0].id, rules.issueOf(ts[0], alloc.issueIid(created), ms))] + rest;
    if k > 0 {
      IssuedAt(rules, alloc, idOf, ts[1..], created + 1, k - 1);
      assert ts[1..][k - 1] == ts[k];
      assert created + 1 + (k - 1) == created + k;
    }
  }

  /** The ticket loop creates exactly the expected issues, in order. */
  lemma {:induction false} TicketOpsCreations(rules: TicketRules, alloc: Allocator,
                                              idOf: map<string, int>, ts: seq<Ticket>, created: nat)
    ensures Creations(TicketOps(rules, alloc, idOf, ts, created).ops) == Issued(rules, alloc, idOf, ts, created)
    decreases |ts|
  {
    if ts != [] && LookupMilestone(idOf, ts[0].milestone).Success? {
      var ms := LookupMilestone(idOf, ts[0].milestone).value;
      var head := TicketHead(rules, ts[0], alloc.issueIid(created), ms);
      var rest := TicketOps(rules, alloc, idOf, ts[1..], created + 1).ops;
      TicketHeadShape(rules, ts[0], alloc.issueIid(created), ms);
      TicketOpsCreations(rules, alloc, idOf, ts[1..], created + 1);
      TicketOpsStep(rules, alloc, idOf, ts, created);
      CreationsAppend(head, rest);
    }
  }

  /** The migration's rules number issues by ticket id under overwrite, by the allocated iid otherwise. */
  ghost predicate IidPolicy(rules: TicketRules, overwrite: bool) {
    forall t, iid, ms :: rules.issueOf(t, iid, ms).iid == if overwrite then t.id else iid
  }

  lemma RulesFollowIidPolicy(cfg: Config, m: Markup, src: TicketSource)
    ensures IidPolicy(RulesOf(cfg, m, src), cfg.overwrite)
  {
    forall t, iid, ms
      ensures RulesOf(cfg, m, src).issueOf(t, iid, ms).iid == if cfg.overwrite then t.id else iid
    {
      assert RulesOf(cfg, m, src).issueOf(t, iid, ms) == ConvertTicket(cfg, m, t, iid, ms);
    }
  }

  /**
   Under rules with that iid policy, the `k`-th expected issue is for the
   `k`-th ticket and carries the ticket id as iid under overwrite, the
   `k`-th allocated iid otherwise.
   */
  lemma IssuedIids(rules: TicketRules, overwrite: bool, alloc: Allocator, idOf: map<string, int>, ts: seq<Ticket>)
    requires IidPolicy(rules, overwrite)
    ensures var made := Issued(rules, alloc, idOf, ts, 0);
            |made| == FirstFailure(idOf, ts)
            && forall k :: 0 <= k < |made| ==>
                 made[k].CreateIssue? && made[k].ticket == ts[k].id
                 && made[k].issue.iid == (if overwrite then ts[k].id else alloc.issueIid(k))
  {
    var made := Issued(rules, alloc, idOf, ts, 0);
    IssuedLength(rules, alloc, idOf, ts, 0);
    forall k | 0 <= k < |made|
      ensures made[k].CreateIssue? && made[k].ticket == ts[k].id
              && made[k].issue.iid == (if overwrite then ts[k].id else alloc.issueIid(k))
    {
      IssuedAt(rules, alloc, idOf, ts, 0, k);
      var milestone := LookupMilestone(idOf, ts[k].milestone).value;
      var iid := alloc.issueIid(0 + k);
      assert iid == alloc.issueIid(k);
      assert made[k] == CreateIssue(ts[k].id, rules.issueOf(ts[k], iid, milestone));
      assert rules.issueOf(ts[k], iid, milestone).iid == if overwrite then ts[k].id else iid;
    }
  }

  /** The three stretches of a run: clearing, milestones, tickets. */
  lemma IssuePhaseParts(cfg: Config, rules: TicketRules, m: Markup, src: TicketSource, alloc: Allocator)
    ensures var idOf := MilestoneIds(src.milestoneNames, alloc.milestoneId);
            var tk := TicketOps(rules, alloc, idOf, SelectTickets(cfg.onlyIssues, src.tickets), 0);
            IssuePhase(cfg, rules, m, src, alloc) == IssueRun(ClearOps(cfg) + MilestoneOps(m, src) + tk.ops, tk.error)
  {
  }

  /** Where each kind of operation sits in a clearing stretch, a milestone stretch and a ticket stretch laid end to end. */
  lemma Layout(c: seq<Op>, ms: seq<Op>, tk: seq<Op>)
    requires c == [] || c == [ClearIssues]
    requires forall k :: 0 <= k < |ms| ==> ms[k].CreateMilestone?
    requires OnlyTicketOps(tk)
    ensures forall j :: 0 <= j < |c + ms + tk| ==> ((c + ms + tk)[j].ClearIssues? <==> c != [] && j == 0)
    ensures (c + ms + tk)[|c|..|c| + |ms|] == ms
    ensures (c + ms + tk)[|c| + |ms|..] == tk
  {
    var ops := c + ms + tk;
    forall j | 0 <= j < |ops|
      ensures ops[j].ClearIssues? <==> c != [] && j == 0
    {
      if j >= |c| + |ms| {
        assert ops[j] == tk[j - |c| - |ms|];
      } else if j >= |c| {
        assert ops[j] == ms[j - |c|];
      }
    }
  }

  /** The stretch before the tickets holds no note and no issue creation. */
  lemma Preamble(c: seq<Op>, ms: seq<Op>)
    requires c == [] || c == [ClearIssues]
    requires forall k :: 0 <= k < |ms| ==> ms[k].CreateMilestone?
    ensures NotesFollowTheirIssue(c + ms)
    ensures Creations(c + ms) == []
  {
    assert forall j :: 0 <= j < |c + ms| ==> !(c + ms)[j].CommentIssue? && !(c + ms)[j].CreateIssue? by {
      forall j | 0 <= j < |c + ms|
        ensures !(c + ms)[j].CommentIssue? && !(c + ms)[j].CreateIssue?
      {
        if j >= |c| {
          assert (c + ms)[j] == ms[j - |c|];
        }
      }
    }
    NoCreationsIn(c + ms);
  }

  /** Clearing happens first, and exactly when overwrite is set. */
  lemma ClearOnlyFirstUnderOverwrite(cfg: Config, rules: TicketRules, m: Markup, src: TicketSource, alloc: Allocator)
    ensures var ops := IssuePhase(cfg, rules, m, src, alloc).ops;
            forall j :: 0 <= j < |ops| ==> (ops[j].ClearIssues? <==> cfg.overwrite && j == 0)
    ensures cfg.overwrite ==> IssuePhase(cfg, rules, m, src, alloc).ops[0] == ClearIssues
  {
    var idOf := MilestoneIds(src.milestoneNames, alloc.milestoneId);
    var sel := SelectTickets(cfg.onlyIssues, src.tickets);
    IssuePhaseParts(cfg, rules, m, src, alloc);
    TicketOpsShape(rules, alloc, idOf, sel, 0);
    Layout(ClearOps(cfg), MilestoneOps(m, src), TicketOps(rules, alloc, idOf, sel, 0).ops);
  }

  /**
   All milestones are created, one per listed name in listing order, before
   any issue is created or any note posted.
   */
  lemma MilestonesBeforeTickets(cfg: Config, rules: TicketRules, m: Markup, src: TicketSource, alloc: Allocator)
    ensures var ops := IssuePhase(cfg, rules, m, src, alloc).ops;
            var c := |ClearOps(cfg)|;
            c + |src.milestoneNames| <= |ops|
            && ops[c..c + |src.milestoneNames|] == MilestoneOps(m, src)
            && OnlyTicketOps(ops[c + |src.milestoneNames|..])
  {
    var idOf := MilestoneIds(src.milestoneNames, alloc.milestoneId);
    var sel := SelectTickets(cfg.onlyIssues, src.tickets);
    var tk := TicketOps(rules, alloc, idOf, sel, 0).ops;
    IssuePhaseParts(cfg, rules, m, src, alloc);
    TicketOpsShape(rules, alloc, idOf, sel, 0);
    Layout(ClearOps(cfg), MilestoneOps(m, src), tk);
  }

  /** Notes are posted only right after their own issue or another note of the same ticket. */
  lemma NotesFollowIssues(cfg: Config, rules: TicketRules, m: Markup, src: TicketSource, alloc: Allocator)
    ensures NotesFollowTheirIssue(IssuePhase(cfg, rules, m, src, alloc).ops)
  {
    var idOf := MilestoneIds(src.milestoneNames, alloc.milestoneId);
    var sel := SelectTickets(cfg.onlyIssues, src.tickets);
    var pre := ClearOps(cfg) + MilestoneOps(m, src);
    var tk := TicketOps(rules, alloc, idOf, sel, 0).ops;
    IssuePhaseParts(cfg, rules, m, src, alloc);
    TicketOpsShape(rules, alloc, idOf, sel, 0);
    Preamble(ClearOps(cfg), MilestoneOps(m, src));
    NotesFollowConcat(pre, tk);
  }

  /**
   A run fails exactly when a migrated ticket names a non-empty milestone the
   tracker did not list.
   */
  lemma FailsIffUnlistedMilestone(cfg: Config, rules: TicketRules, m: Markup, src: TicketSource, alloc: Allocator)
    ensures var sel := SelectTickets(cfg.onlyIssues, src.tickets);
            IssuePhase(cfg, rules, m, src, alloc).error.Some?
            <==> exists k :: 0 <= k < |sel| && sel[k].milestone.Some? && sel[k].milestone.value != ""
                                          && sel[k].milestone.value !in src.milestoneNames
  {
    var idOf := MilestoneIds(src.milestoneNames, alloc.milestoneId);
    var sel := SelectTickets(cfg.onlyIssues, src.tickets);
    IssuePhaseParts(cfg, rules, m, src, alloc);
    TicketOpsError(rules, alloc, idOf, sel, 0);
    forall k | 0 <= k < |sel|
      ensures LookupMilestone(idOf, sel[k].milestone).Failure?
          <==> sel[k].milestone.Some? && sel[k].milestone.value != "" && sel[k].milestone.value !in src.milestoneNames
    {
      LookupFailsIffUnlisted(src.milestoneNames, alloc.milestoneId, sel[k].milestone);
    }
  }

  /**
   Under rules with the migration's iid policy, a run that completes creates
   one issue per migrated ticket, in query order, with the ticket id as iid
   under overwrite and the destination's `k`-th iid otherwise.
   */
  lemma NumberingUnderIidPolicy(cfg: Config, rules: TicketRules, m: Markup, src: TicketSource, alloc: Allocator)
    requires IidPolicy(rules, cfg.overwrite)
    ensures var r := IssuePhase(cfg, rules, m, src, alloc);
            var sel := SelectTickets(cfg.onlyIssues, src.tickets);
            r.error.None? ==>
              |Creations(r.ops)| == |sel|
              && forall k :: 0 <= k < |sel| ==>
                   Creations(r.ops)[k].ticket == sel[k].id
                   && Creations(r.ops)[k].issue.iid == (if cfg.overwrite then sel[k].id else alloc.issueIid(k))
  {
    var idOf := MilestoneIds(src.milestoneNames, alloc.milestoneId);
    var sel := SelectTickets(cfg.onlyIssues, src.tickets);
    var tk := TicketOps(rules, alloc, idOf, sel, 0);
    var c := ClearOps(cfg);
    var ms := MilestoneOps(m, src);
    IssuePhaseParts(cfg, rules, m, src, alloc);
    TicketOpsError(rules, alloc, idOf, sel, 0);
    TicketOpsCreations(rules, alloc, idOf, sel, 0);
    CreationsAppend(c + ms, tk.ops);
    Preamble(c, ms);
    IssuedIids(rules, cfg.overwrite, alloc, idOf, sel);
    assert Creations(c + ms + tk.ops) == Issued(rules, alloc, idOf, sel, 0);
  }

  /**
   The migration's own phase numbers its issues that way: one issue per
   migrated ticket, in query order, with the ticket id as iid under
   overwrite and the destination's `k`-th iid otherwise.
   */
  lemma SelectionAndNumbering(cfg: Config, m: Markup, src: TicketSource, alloc: Allocator)
    ensures var r := ConvertIssues(cfg, m, src, alloc);
            var sel := SelectTickets(cfg.onlyIssues, src.tickets);
            r.error.None? ==>
              |Creations(r.ops)| == |sel|
              && forall k :: 0 <= k < |sel| ==>
                   Creations(r.ops)[k].ticket == sel[k].id
                   && Creations(r.ops)[k].issue.iid == (if cfg.overwrite then sel[k].id else alloc.issueIid(k))
  {
    RulesFollowIidPolicy(cfg, m, src);
    NumberingUnderIidPolicy(cfg, RulesOf(cfg, m, src), m, src, alloc);
  }

  // ---------------------------------------------------------------------------
  // a completed run, ticket by ticket

  /** Blocks of operations laid end to end. */
  function Flatten(blocks: seq<seq<Op>>): seq<Op>
    decreases |blocks|
  {
    if blocks == [] then [] else blocks[0] + Flatten(blocks[1..])
  }

  /** The milestone id a ticket's lookup gives, none when the lookup fails. */
  function ResolvedMilestone(idOf: map<string, int>, t: Ticket): Option<int> {
    match LookupMilestone(idOf, t.milestone)
    case Failure(_) => None
    case Success(ms) => ms
  }

  /**
   Per ticket of `ts`, the operations a completed loop performs for it: its
   issue, with the `k`-th iid from `created` on and its milestone id, then
   its notes.
   */
  function ExpectedBlocks(rules: TicketRules, alloc: Allocator, idOf: map<string, int>, ts: seq<Ticket>, created: nat): seq<seq<Op>> {
    seq(|ts|, k requires 0 <= k < |ts| => TicketHead(rules, ts[k], alloc.issueIid(created + k), ResolvedMilestone(idOf, ts[k])))
  }

  /** The first ticket's block, then the blocks of the rest from the next iid on. */
  lemma ExpectedBlocksShift(rules: TicketRules, alloc: Allocator, idOf: map<string, int>, ts: seq<Ticket>, created: nat)
    requires ts != []
    ensures ExpectedBlocks(rules, alloc, idOf, ts, created)
         == [TicketHead(rules, ts[0], alloc.issueIid(created), ResolvedMilestone(idOf, ts[0]))]
            + ExpectedBlocks(rules, alloc, idOf, ts[1..], created + 1)
  {
    var blocks := ExpectedBlocks(rules, alloc, idOf, ts, created);
    var tail := ExpectedBlocks(rules, alloc, idOf, ts[1..], created + 1);
    assert blocks[0] == TicketHead(rules, ts[0], alloc.issueIid(created), ResolvedMilestone(idOf, ts[0])) by {
      assert created + 0 == created;
    }
    forall k | 0 <= k < |tail|
      ensures blocks[k + 1] == tail[k]
    {
      assert ts[1..][k] == ts[k + 1];
      assert created + (k + 1) == created + 1 + k;
    }
  }

  /**
   Whether or not it stops, the loop performs the expected blocks of the
   tickets before the first whose milestone lookup fails, in order, and
   nothing for that ticket or any after it.
   */
  lemma {:induction false} PartialLoop(rules: TicketRules, alloc: Allocator, idOf: map<string, int>, ts: seq<Ticket>, created: nat)
    ensures TicketOps(rules, alloc, idOf, ts, created).ops
         == Flatten(ExpectedBlocks(rules, alloc, idOf, ts[..FirstFailure(idOf, ts)], created))
    decreases |ts|
  {
    var n := FirstFailure(idOf, ts);
    if ts != [] && LookupMilestone(idOf, ts[0].milestone).Success? {
      var ms := LookupMilestone(idOf, ts[0].milestone).value;
      var head := TicketHead(rules, ts[0], alloc.issueIid(created), ms);
      var done := ts[..n];
      assert n == 1 + FirstFailure(idOf, ts[1..]);
      assert done[0] == ts[0];
      assert done[1..] == ts[1..][..n - 1];
      var tail := ExpectedBlocks(rules, alloc, idOf, done[1..], created + 1);
      PartialLoop(rules, alloc, idOf, ts[1..], created + 1);
      ExpectedBlocksShift(rules, alloc, idOf, done, created);
      assert ([head] + tail)[1..] == tail;
      assert Flatten([head] + tail) == head + Flatten(tail);
      TicketOpsStep(rules, alloc, idOf, ts, created);
    } else {
      assert n == 0;
      assert ExpectedBlocks(rules, alloc, idOf, ts[..0], created) == [];
    }
  }

  /** A loop in which every lookup succeeds performs the expected blocks in order, and no error. */
  lemma CompletedLoop(rules: TicketRules, alloc: Allocator, idOf: map<string, int>, ts: seq<Ticket>, created: nat)
    requires FirstFailure(idOf, ts) == |ts|
    ensures TicketOps(rules, alloc, idOf, ts, created) == IssueRun(Flatten(ExpectedBlocks(rules, alloc, idOf, ts, created)), None)
  {
    PartialLoop(rules, alloc, idOf, ts, created);
    TicketOpsError(rules, alloc, idOf, ts, created);
    assert ts[..|ts|] == ts;
  }

  /**
   What the migration performs for one ticket: the issue converted with the
   given iid and milestone id, then one note-posting per note of the
   ticket's change log.
   */
  function MigratedTicket(cfg: Config, m: Markup, src: TicketSource, t: Ticket, iid: int, ms: Option<int>): seq<Op> {
    [CreateIssue(t.id, ConvertTicket(cfg, m, t, iid, ms))] + NoteOps(t.id, Notes(NoteContextOf(cfg, m), src.changeLog(t.id)))
  }

  /** The migration's per-ticket rules perform exactly that. */
  lemma RulesOfHead(cfg: Config, m: Markup, src: TicketSource, t: Ticket, iid: int, ms: Option<int>)
    ensures TicketHead(RulesOf(cfg, m, src), t, iid, ms) == MigratedTicket(cfg, m, src, t, iid, ms)
  {
    var rules := RulesOf(cfg, m, src);
    assert rules.issueOf(t, iid, ms) == ConvertTicket(cfg, m, t, iid, ms);
    assert rules.notesOf(t) == Notes(NoteContextOf(cfg, m), src.changeLog(t.id));
  }

  /** Per migrated ticket `ts[k]`, what the migration performs for it, the `k`-th allocated iid being offered. */
  function MigratedBlocks(cfg: Config, m: Markup, src: TicketSource, alloc: Allocator, idOf: map<string, int>, ts: seq<Ticket>): seq<seq<Op>> {
    seq(|ts|, k requires 0 <= k < |ts| => MigratedTicket(cfg, m, src, ts[k], alloc.issueIid(k), ResolvedMilestone(idOf, ts[k])))
  }

  lemma RulesOfBlocks(cfg: Config, m: Markup, src: TicketSource, alloc: Allocator, idOf: map<string, int>, ts: seq<Ticket>)
    ensures ExpectedBlocks(RulesOf(cfg, m, src), alloc, idOf, ts, 0) == MigratedBlocks(cfg, m, src, alloc, idOf, ts)
  {
    var blocks := ExpectedBlocks(RulesOf(cfg, m, src), alloc, idOf, ts, 0);
    var migrated := MigratedBlocks(cfg, m, src, alloc, idOf, ts);
    forall k | 0 <= k < |ts|
      ensures blocks[k] == migrated[k]
    {
      assert 0 + k == k;
      RulesOfHead(cfg, m, src, ts[k], alloc.issueIid(k), ResolvedMilestone(idOf, ts[k]));
    }
  }

  /**
   Whatever the per-ticket rules, a phase that completes performs the
   clearing step, the milestone creations, then the expected block of each
   migrated ticket in query order.
   */
  lemma CompletedPhase(cfg: Config, rules: TicketRules, m: Markup, src: TicketSource, alloc: Allocator)
    ensures var r := IssuePhase(cfg, rules, m, src, alloc);
            var sel := SelectTickets(cfg.onlyIssues, src.tickets);
            var idOf := MilestoneIds(src.milestoneNames, alloc.milestoneId);
            r.error.None? ==> r.ops == ClearOps(cfg) + MilestoneOps(m, src) + Flatten(ExpectedBlocks(rules, alloc, idOf, sel, 0))
  {
    var sel := SelectTickets(cfg.onlyIssues, src.tickets);
    var idOf := MilestoneIds(src.milestoneNames, alloc.milestoneId);
    IssuePhaseParts(cfg, rules, m, src, alloc);
    TicketOpsError(rules, alloc, idOf, sel, 0);
    if IssuePhase(cfg, rules, m, src, alloc).error.None? {
      CompletedLoop(rules, alloc, idOf, sel, 0);
    }
  }

  /**
   Whatever the per-ticket rules, a phase performs the clearing step, the
   milestone creations, then the expected block of each migrated ticket
   before the first whose milestone is unknown; those operations stay
   performed when it stops there.
   */
  lemma PartialPhase(cfg: Config, rules: TicketRules, m: Markup, src: TicketSource, alloc: Allocator)
    ensures var r := IssuePhase(cfg, rules, m, src, alloc);
            var sel := SelectTickets(cfg.onlyIssues, src.tickets);
            var idOf := MilestoneIds(src.milestoneNames, alloc.milestoneId);
            r.ops == ClearOps(cfg) + MilestoneOps(m, src) + Flatten(ExpectedBlocks(rules, alloc, idOf, sel[..FirstFailure(idOf, sel)], 0))
  {
    var sel := SelectTickets(cfg.onlyIssues, src.tickets);
    var idOf := MilestoneIds(src.milestoneNames, alloc.milestoneId);
    IssuePhaseParts(cfg, rules, m, src, alloc);
    PartialLoop(rules, alloc, idOf, sel, 0);
  }

  /**
   Any run of the migration, completed or stopped at an unknown milestone,
   has cleared, created the milestones, and then, for each migrated ticket
   before the first with an unknown milestone, created its issue and posted
   the notes derived from its own change log.
   */
  lemma RunFollowsChangeLogs(cfg: Config, m: Markup, src: TicketSource, alloc: Allocator)
    ensures var sel := SelectTickets(cfg.onlyIssues, src.tickets);
            var idOf := MilestoneIds(src.milestoneNames, alloc.milestoneId);
            ConvertIssues(cfg, m, src, alloc).ops
              == ClearOps(cfg) + MilestoneOps(m, src) + Flatten(MigratedBlocks(cfg, m, src, alloc, idOf, sel[..FirstFailure(idOf, sel)]))
  {
    var sel := SelectTickets(cfg.onlyIssues, src.tickets);
    var idOf := MilestoneIds(src.milestoneNames, alloc.milestoneId);
    PartialPhase(cfg, RulesOf(cfg, m, src), m, src, alloc);
    RulesOfBlocks(cfg, m, src, alloc, idOf, sel[..FirstFailure(idOf, sel)]);
  }

  /**
   A run of the migration that completes performs the clearing step, the
   milestone creations, and then, for each migrated ticket in query order,
   the creation of its issue (offered the `k`-th allocated iid) followed by
   the notes the change-log walk derives from that ticket's own change log.
   */
  lemma CompletedRunFollowsChangeLogs(cfg: Config, m: Markup, src: TicketSource, alloc: Allocator)
    ensures var r := ConvertIssues(cfg, m, src, alloc);
            var sel := SelectTickets(cfg.onlyIssues, src.tickets);
            var idOf := MilestoneIds(src.milestoneNames, alloc.milestoneId);
            r.error.None? ==> r.ops == ClearOps(cfg) + MilestoneOps(m, src) + Flatten(MigratedBlocks(cfg, m, src, alloc, idOf, sel))
  {
    var sel := SelectTickets(cfg.onlyIssues, src.tickets);
    var idOf := MilestoneIds(src.milestoneNames, alloc.milestoneId);
    CompletedPhase(cfg, RulesOf(cfg, m, src), m, src, alloc);
    RulesOfBlocks(cfg, m, src, alloc, idOf, sel);
  }
}

/**
 The milestone phase of `convert_issues`: every Trac milestone becomes a
 GitLab milestone, and the name-to-id map that tickets consult afterwards is
 filled in before any ticket is looked at.
 */
module Milestones {
  import opened Common
  import opened Settings

  /**
   A Trac milestone as `ticket.milestone.get` returns it; `completed` is the
   `str()` of the completion field and `due` is absent when the field is
   falsy.
   */
  datatype SourceMilestone = SourceMilestone(name: string, description: string, completed: string, due: Option<Timestamp>)

  datatype MilestoneState = Active | Closed

  /** The GitLab milestone created for a Trac milestone. */
  datatype DestMilestone = DestMilestone(title: string, description: string, state: MilestoneState, dueDate: Option<Timestamp>)

  /** A milestone is active exactly when its completion field reads `0`. */
  function LifecycleState(completed: string): MilestoneState {
    if completed == "0" then Active else Closed
  }

  /**
   The GitLab milestone keeps the Trac name as title and the due date,
   renders the description, and is active iff the milestone is not
   completed.
   */
  function ConvertMilestone(m: Markup, ms: SourceMilestone): (d: DestMilestone)
    ensures d.title == ms.name
    ensures d.state == Active <==> ms.completed == "0"
    ensures d.dueDate == ms.due
    ensures d.description == RenderMilestoneText(m, ms.description)
  {
    DestMilestone(ms.name, RenderMilestoneText(m, ms.description), LifecycleState(ms.completed), ms.due)
  }

  /**
   The name-to-id map after creating the milestones `names` in order, the
   `k`-th creation returning `ids(k)`: `milestone_map_id` filled by the
   milestone loop, starting empty.
   */
  function MilestoneIds(names: seq<string>, ids: nat -> int): map<string, int> {
    Record(names, ids, 0, map[])
  }

  /** The loop from the `k`-th milestone on, `recorded` holding what the earlier ones left. */
  function Record(names: seq<string>, ids: nat -> int, k: nat, recorded: map<string, int>): map<string, int>
    requires k <= |names|
    decreases |names| - k
  {
    if k == |names| then recorded else Record(names, ids, k + 1, recorded[names[k] := ids(k)])
  }

  /** The loop only adds names: what was recorded stays a key, every remaining name becomes one. */
  lemma {:induction false} RecordKeys(names: seq<string>, ids: nat -> int, k: nat, recorded: map<string, int>)
    requires k <= |names|
    ensures forall n :: n in Record(names, ids, k, recorded) <==> n in recorded || n in names[k..]
    decreases |names| - k
  {
    if k < |names| {
      RecordKeys(names, ids, k + 1, recorded[names[k] := ids(k)]);
      assert names[k..] == [names[k]] + names[k + 1..];
    }
  }

  /** A name the loop does not meet again keeps its recorded id. */
  lemma {:induction false} RecordKeeps(names: seq<string>, ids: nat -> int, k: nat, recorded: map<string, int>, n: string)
    requires k <= |names|
    requires n in recorded && n !in names[k..]
    ensures n in Record(names, ids, k, recorded) && Record(names, ids, k, recorded)[n] == recorded[n]
    decreases |names| - k
  {
    if k < |names| {
      assert names[k..] == [names[k]] + names[k + 1..];
      RecordKeeps(names, ids, k + 1, recorded[names[k] := ids(k)], n);
    }
  }

  /** A name is left mapped to the id of its last creation. */
  lemma {:induction false} RecordLastWins(names: seq<string>, ids: nat -> int, k: nat, recorded: map<string, int>, j: nat)
    requires k <= j < |names| && names[j] !in names[j + 1..]
    ensures names[j] in Record(names, ids, k, recorded) && Record(names, ids, k, recorded)[names[j]] == ids(j)
    decreases |names| - k
  {
    if j == k {
      RecordKeeps(names, ids, k + 1, recorded[names[k] := ids(k)], names[k]);
    } else {
      RecordLastWins(names, ids, k + 1, recorded[names[k] := ids(k)], j);
    }
  }

  /**
   Every listed milestone is in the map before any ticket is looked at, no
   other name is, and a name listed more than once maps to the id of its
   last creation.
   */
  lemma MilestoneIdsComplete(names: seq<string>, ids: nat -> int)
    ensures forall n :: n in MilestoneIds(names, ids) <==> n in names
    ensures forall k :: 0 <= k < |names| && names[k] !in names[k + 1..] ==> MilestoneIds(names, ids)[names[k]] == ids(k)
  {
    RecordKeys(names, ids, 0, map[]);
    assert names[0..] == names;
    forall k | 0 <= k < |names| && names[k] !in names[k + 1..]
      ensures MilestoneIds(names, ids)[names[k]] == ids(k)
    {
      RecordLastWins(names, ids, 0, map[], k);
    }
  }

  /**
   The milestone a ticket refers to: none when the ticket has no milestone
   field, an empty one, or one whose id is 0; a name the map does not know
   aborts the run.
   */
  function LookupMilestone(idOf: map<string, int>, field: Option<string>): (r: Result<Option<int>, MigrationError>)
    ensures r.Failure? <==> field.Some? && field.value != "" && field.value !in idOf
    ensures r.Failure? ==> r.error == UnknownMilestone(field.value)
    ensures r.Success? && r.value.Some? ==> field.Some? && field.value in idOf && r.value.value == idOf[field.value] != 0
    ensures r.Success? && r.value.None? ==> field.None? || field.value == "" || idOf[field.value] == 0
  {
    match field
    case None => Success(None)
    case Some(name) =>
      if name == "" then Success(None)
      else if name !in idOf then Failure(UnknownMilestone(name))
      else if idOf[name] == 0 then Success(None)
      else Success(Some(idOf[name]))
  }

  /**
   Since the map is filled before any ticket is converted, a ticket's
   milestone lookup fails exactly when it names a milestone the tracker did
   not list.
   */
  lemma LookupFailsIffUnlisted(names: seq<string>, ids: nat -> int, field: Option<string>)
    ensures LookupMilestone(MilestoneIds(names, ids), field).Failure?
        <==> field.Some? && field.value != "" && field.value !in names
  {
    MilestoneIdsComplete(names, ids);
  }
}

/**
 The ticket classifier of `convert_issues`: a Trac ticket's priority,
 resolution, version, component and status become a GitLab issue state and
 an ordered list of labels.

 The mapping table is kept as data (`PriorityLabel`, `ResolutionLabel`,
 `StateOf`, `LabelledStatuses`); the classifier itself is written as the
 chain of comparisons the migration script performs, and its contract says
 that the chain agrees with the table.
 */
module Classifier {
  import opened Text

  // ---------------------------------------------------------------------------
  // the mapping table

  /** Priorities that become a label. */
  const PriorityLabel: map<string, string> :=
    map["high" := "high priority", "low" := "low priority"]

  /** Resolutions that become a label. */
  const ResolutionLabel: map<string, string> :=
    map["invalid" := "invalid", "wontfix" := "won't fix",
        "duplicate" := "duplicate", "worksforme" := "works for me"]

  /** Statuses that set the GitLab state. */
  const StateOf: map<string, string> :=
    map["new" := "opened", "assigned" := "opened",
        "reopened" := "reopened", "closed" := "closed"]

  /** Statuses that leave the state empty and are kept as a label. */
  const LabelledStatuses: set<string> := {"accepted", "reviewing", "testing"}

  /** The label a table gives a value, if any. */
  function Lookup(table: map<string, string>, key: string): seq<string>
  {
    if key in table then [table[key]] else []
  }

  /** Versions that are development lines rather than releases. */
  predicate IsDevelopmentVersion(version: string) {
    version == "trunk" || version == "dev"
  }

  // ---------------------------------------------------------------------------
  // the classifier, field by field

  /** The priority label. */
  function PriorityLabels(priority: string): (labels: seq<string>)
    ensures labels == Lookup(PriorityLabel, priority)
  {
    if priority == "high" then ["high priority"]
    else if priority == "medium" then []
    else if priority == "low" then ["low priority"]
    else []
  }

  /** The resolution label; an active ticket (`""`) and `fixed` get none. */
  function ResolutionLabels(resolution: string): (labels: seq<string>)
    ensures labels == Lookup(ResolutionLabel, resolution)
  {
    if resolution == "" then []
    else if resolution == "fixed" then []
    else if resolution == "invalid" then ["invalid"]
    else if resolution == "wontfix" then ["won't fix"]
    else if resolution == "duplicate" then ["duplicate"]
    else if resolution == "worksforme" then ["works for me"]
    else []
  }

  /** A release label for every non-empty version that is not a development line. */
  function VersionLabels(version: string): (labels: seq<string>)
    ensures |labels| <= 1
    ensures labels != [] <==> version != "" && !IsDevelopmentVersion(version)
    ensures labels != [] ==> labels[0] == "release-" + version
  {
    if version != "" then
      if version == "trunk" || version == "dev" then [] else ["release-" + version]
    else []
  }

  /**
   One label per comma-separated piece of a non-empty component string,
   stripped of surrounding whitespace and in the original order; an empty
   component gives no label.
   */
  function ComponentLabels(component: string): (labels: seq<string>)
    ensures component == "" ==> labels == []
    ensures component != "" ==> |labels| == |SplitOn(component, ',')|
    ensures component != "" ==> forall i :: 0 <= i < |labels| ==> labels[i] == Strip(SplitOn(component, ',')[i])
    ensures forall i :: 0 <= i < |labels| ==> ',' !in labels[i]
  {
    if component != "" then
      var pieces := SplitOn(component, ',');
      var labels := StripAll(pieces);
      forall i | 0 <= i < |labels|
        ensures ',' !in labels[i]
      {
        StripKeepsOut(pieces[i], ',');
      }
      labels
    else []
  }

  /** The state a status sets, and the label a status adds. */
  datatype StatusEffect = StatusEffect(state: string, labels: seq<string>, known: bool)

  /**
   `new`/`assigned` open the issue, `reopened` and `closed` carry over,
   `accepted`/`reviewing`/`testing` leave the state empty and become a label,
   and any other status leaves the state empty and only raises a warning.
   */
  function StatusEffects(status: string): (e: StatusEffect)
    ensures e.state == (if status in StateOf then StateOf[status] else "")
    ensures e.labels == (if status in LabelledStatuses then [status] else [])
    ensures e.known <==> status in StateOf || status in LabelledStatuses
  {
    if status == "new" then StatusEffect("opened", [], true)
    else if status == "assigned" then StatusEffect("opened", [], true)
    else if status == "reopened" then StatusEffect("reopened", [], true)
    else if status == "closed" then StatusEffect("closed", [], true)
    else if status == "accepted" then StatusEffect("", [status], true)
    else if status == "reviewing" || status == "testing" then StatusEffect("", [status], true)
    else StatusEffect("", [], false)
  }

  // ---------------------------------------------------------------------------
  // the whole classification

  /**
   The classifier's verdict: the GitLab state (empty when the status does
   not set one), the labels in order, and whether the status was unknown
   (the migration prints a warning and carries on).
   */
  datatype Classification = Classification(state: string, labels: seq<string>, unknownStatus: bool)

  /**
   Labels are collected in a fixed order (priority, resolution, release,
   components, status) exactly as the table dictates; the state comes from
   the status alone.
   */
  function Classify(priority: string, resolution: string, version: string, component: string, status: string): (c: Classification)
    ensures c.labels == Lookup(PriorityLabel, priority) + Lookup(ResolutionLabel, resolution)
                        + VersionLabels(version) + ComponentLabels(component)
                        + (if status in LabelledStatuses then [status] else [])
    ensures c.state == (if status in StateOf then StateOf[status] else "")
    ensures c.unknownStatus <==> status !in StateOf && status !in LabelledStatuses
  {
    var effect := StatusEffects(status);
    Classification(
      effect.state,
      PriorityLabels(priority) + ResolutionLabels(resolution) + VersionLabels(version)
        + ComponentLabels(component) + effect.labels,
      !effect.known)
  }

  /** The labels as stored on the GitLab issue: `",".join(labels)`. */
  function EncodeLabels(labels: seq<string>): string
  {
    Join(labels, ',')
  }

  /** No label of the list contains a comma. */
  predicate CommaFree(labels: seq<string>) {
    forall i :: 0 <= i < |labels| ==> ',' !in labels[i]
  }

  lemma CommaFreeConcat(a: seq<string>, b: seq<string>)
    requires CommaFree(a) && CommaFree(b)
    ensures CommaFree(a + b)
  {
    forall i | 0 <= i < |a + b|
      ensures ',' !in (a + b)[i]
    {
      if i >= |a| { assert (a + b)[i] == b[i - |a|]; }
    }
  }

  /** The priority labels hold no comma. */
  lemma PriorityLabelsCommaFree(priority: string)
    ensures CommaFree(PriorityLabels(priority))
  {
    if priority == "high" {
      assert PriorityLabels(priority) == ["high priority"];
    } else if priority == "low" {
      assert PriorityLabels(priority) == ["low priority"];
    }
  }

  /** The resolution labels hold no comma. */
  lemma ResolutionLabelsCommaFree(resolution: string)
    ensures CommaFree(ResolutionLabels(resolution))
  {
    var labels := ResolutionLabels(resolution);
    if labels != [] {
      assert labels[0] in ResolutionLabel.Values;
    }
  }

  /** A comma-free version's release label, and the status label, hold no comma. */
  lemma VersionAndStatusCommaFree(version: string, status: string)
    requires ',' !in version
    ensures CommaFree(VersionLabels(version))
    ensures CommaFree(StatusEffects(status).labels)
  {
    var v := VersionLabels(version);
    if v != [] {
      assert v[0] == "release-" + version;
    }
  }

  /**
   The comma-joined labels field decodes back to the label list whenever the
   version has no comma: every other label is comma-free by construction.
   */
  lemma LabelsRoundTrip(priority: string, resolution: string, version: string, component: string, status: string)
    requires ',' !in version
    requires Classify(priority, resolution, version, component, status).labels != []
    ensures var labels := Classify(priority, resolution, version, component, status).labels;
            SplitOn(EncodeLabels(labels), ',') == labels
  {
    var p := PriorityLabels(priority);
    var r := ResolutionLabels(resolution);
    var v := VersionLabels(version);
    var comp := ComponentLabels(component);
    var s := StatusEffects(status).labels;
    PriorityLabelsCommaFree(priority);
    ResolutionLabelsCommaFree(resolution);
    VersionAndStatusCommaFree(version, status);
    CommaFreeConcat(p, r);
    CommaFreeConcat(p + r, v);
    CommaFreeConcat(p + r + v, comp);
    CommaFreeConcat(p + r + v + comp, s);
    SplitJoin(p + r + v + comp + s, ',');
  }

  /** Two unpadded, comma-free components written `a, b` become the labels `a` and `b`. */
  lemma TwoComponents(a: string, b: string)
    requires a != [] && !IsSpace(a[0]) && !IsSpace(a[|a| - 1]) && ',' !in a
    requires b != [] && !IsSpace(b[0]) && !IsSpace(b[|b| - 1]) && ',' !in b
    ensures ComponentLabels(a + ", " + b) == [a, b]
  {
    assert a + [','] + (" " + b) == a + ", " + b;
    SplitAtSeparator(a, " " + b, ',');
    SplitWithoutSeparator(" " + b, ',');
    StripUnpadded(a);
    StripLeadingBlank(b);
  }

  /**
   The worked example: a new, high-priority ticket of release 2.1 with two
   components `a, b` is opened with the labels "high priority",
   "release-2.1", `a` and `b`, in that order.
   */
  lemma ClassifyNewHighPriorityTicket(a: string, b: string)
    requires a != [] && !IsSpace(a[0]) && !IsSpace(a[|a| - 1]) && ',' !in a
    requires b != [] && !IsSpace(b[0]) && !IsSpace(b[|b| - 1]) && ',' !in b
    ensures Classify("high", "", "2.1", a + ", " + b, "new")
         == Classification("opened", ["high priority", "release-2.1", a, b], false)
  {
    TwoComponents(a, b);
    assert "release-" + "2.1" == "release-2.1";
    assert PriorityLabels("high") == ["high priority"];
    assert ResolutionLabels("") == [];
    assert StatusEffects("new") == StatusEffect("opened", [], true);
  }
}

/** The status classifier `getResourceStatus` (main.go:880-945): a dispatch on
    a resource's kind that reads a few well-known keys of its `status`
    mapping and yields one of four labels. */
module Status {

  import opened Values
  import opened Text

  /** The labels the classifier returns. */
  datatype Label = Running | Pending | Failed | Unknown
  {
    /** The string getResourceStatus returns for the label. */
    function Name(): string
    {
      match this
      case Running => "running"
      case Pending => "pending"
      case Failed => "failed"
      case Unknown => "unknown"
    }
  }

  /** The four rules of the kind switch. */
  datatype Rule =
    | InstancePhase         // Pod: read `phase`
    | ControllerConditions  // rollout controllers: look for an `Available` condition
    | AlwaysRunning         // Service, ConfigMap, Secret
    | GenericConditions     // every other kind: look for a ready-like condition

  const ControllerKinds: set<string> := {"Deployment", "ReplicaSet", "StatefulSet", "DaemonSet"}
  const AlwaysRunningKinds: set<string> := {"Service", "ConfigMap", "Secret"}

  /** The rule the kind switch picks: Pod, the four controllers and the three
      always-running kinds have their own cases; any other kind falls through
      to the default. */
  function RuleFor(kind: string): (rule: Rule)
    ensures rule == InstancePhase <==> kind == "Pod"
    ensures rule == ControllerConditions <==> kind in ControllerKinds
    ensures rule == AlwaysRunning <==> kind in AlwaysRunningKinds
    ensures rule == GenericConditions <==> kind != "Pod" && kind !in ControllerKinds && kind !in AlwaysRunningKinds
  {
    if kind == "Pod" then InstancePhase
    else if kind in ControllerKinds then ControllerConditions
    else if kind in AlwaysRunningKinds then AlwaysRunning
    else GenericConditions
  }

  /** The Pod rule, once a `phase` key exists. */
  function PhaseLabel(phase: Value): (l: Label)
    ensures l == Running <==> phase == Str("Running")
    ensures l == Pending <==> phase == Str("Pending")
    ensures l == Failed <==> phase == Str("Failed") || phase == Str("Error")
    ensures l != Unknown ==> phase.Str?
  {
    if phase == Str("Running") then Running
    else if phase == Str("Pending") then Pending
    else if phase == Str("Failed") || phase == Str("Error") then Failed
    else Unknown
  }

  /** The elements of `status.conditions` when it is a list. A missing or
      non-list `conditions` makes both condition loops iterate over nothing,
      which is what the empty list does too. */
  function Conditions(status: map<string, Value>): seq<Value>
  {
    if "conditions" in status && status["conditions"].Seq? then status["conditions"].items else []
  }

  // ---------------------------------------------------------------------
  // The controller rule

  /** A condition mapping with `type == "Available"` and `status == "True"`,
      both compared as exact strings. */
  predicate IsAvailableCondition(c: Value)
  {
    && c.Mapping?
    && "type" in c.fields && c.fields["type"] == Str("Available")
    && "status" in c.fields && c.fields["status"] == Str("True")
  }

  /** The controller loop: stops with true at the first available condition,
      so it finds one exactly when one exists. */
  function ControllerScan(conds: seq<Value>): (found: bool)
    ensures found <==> exists i :: 0 <= i < |conds| && IsAvailableCondition(conds[i])
  {
    if conds == [] then false
    else if IsAvailableCondition(conds[0]) then true
    else
      assert forall i :: 1 <= i < |conds| ==> conds[1..][i - 1] == conds[i];
      ControllerScan(conds[1..])
  }

  // ---------------------------------------------------------------------
  // The rule for every other kind

  /** The lower-cased condition type mentions readiness or availability. */
  predicate IsReadyType(t: string)
  {
    Contains(ToLower(t), "ready") || Contains(ToLower(t), "available")
  }

  /** Case does not matter to the test: a type and its lower-cased form are
      both ready or both not. */
  lemma ReadyTypeIgnoresCase(t: string)
    ensures IsReadyType(ToLower(t)) <==> IsReadyType(t)
  {
    ToLowerIdempotent(t);
  }

  /** The usual ready-like condition types pass the test, in any case. */
  lemma ReadyTypeExamples()
    ensures IsReadyType("Ready") && IsReadyType("ContainersReady") && IsReadyType("Available")
    ensures IsReadyType("READY")
  {
    assert OccursAt(ToLower("Ready"), "ready", 0);
    assert OccursAt(ToLower("ContainersReady"), "ready", 10);
    assert OccursAt(ToLower("Available"), "available", 0);
    assert OccursAt(ToLower("READY"), "ready", 0);
  }

  /** A progress condition is not ready-like: its type has no `y` and no `v`. */
  lemma ProgressingNotReady()
    ensures !IsReadyType("Progressing")
  {
    var p := ToLower("Progressing");
    assert p == "progressing";
    LacksCharNotContains(p, "ready", 4);
    LacksCharNotContains(p, "available", 1);
  }

  /** A condition mapping with a string `type` that mentions readiness and
      `status == "True"`. */
  predicate IsReadyCondition(c: Value)
  {
    && c.Mapping?
    && "type" in c.fields && c.fields["type"].Str? && IsReadyType(c.fields["type"].s)
    && "status" in c.fields && c.fields["status"] == Str("True")
  }

  /** A condition mapping whose `type` is present but not a string: the
      unchecked `condType.(string)` assertion panics on it. */
  predicate HasNonStringType(c: Value)
  {
    c.Mapping? && "type" in c.fields && !c.fields["type"].Str?
  }

  /** The message of the panic the failed type assertion raises. */
  function AssertionPanic(v: Value): string
  {
    "interface conversion: interface {} is " + TypeName(v) + ", not string"
  }

  /** The generic loop: stops with `running` at the first ready condition,
      panics at the first condition whose `type` is not a string, and
      yields `unknown` when it reaches the end. */
  function GenericScan(conds: seq<Value>): (r: Result<Label>)
    ensures r == Ok(Running) || r == Ok(Unknown) || r.Panic?
  {
    if conds == [] then Ok(Unknown)
    else if HasNonStringType(conds[0]) then Panic(AssertionPanic(conds[0].fields["type"]))
    else if IsReadyCondition(conds[0]) then Ok(Running)
    else GenericScan(conds[1..])
  }

  /** No condition before index `i` has a non-string type. */
  predicate TypedBefore(conds: seq<Value>, i: int)
    requires 0 <= i <= |conds|
  {
    forall j :: 0 <= j < i ==> !HasNonStringType(conds[j])
  }

  /** No condition before index `i` is ready. */
  predicate NotReadyBefore(conds: seq<Value>, i: int)
    requires 0 <= i <= |conds|
  {
    forall j :: 0 <= j < i ==> !IsReadyCondition(conds[j])
  }

  /** A `running` from the generic loop points at a ready condition that no
      condition before it trips the type assertion. */
  lemma {:induction false} GenericScanRunningWitness(conds: seq<Value>)
    requires GenericScan(conds) == Ok(Running)
    ensures exists i :: 0 <= i < |conds| && IsReadyCondition(conds[i]) && TypedBefore(conds, i)
  {
    if HasNonStringType(conds[0]) || IsReadyCondition(conds[0]) {
      assert TypedBefore(conds, 0);
    } else {
      var tail := conds[1..];
      GenericScanRunningWitness(tail);
      var i :| 0 <= i < |tail| && IsReadyCondition(tail[i]) && TypedBefore(tail, i);
      assert IsReadyCondition(conds[i + 1]);
      forall j | 0 <= j < i + 1 ensures !HasNonStringType(conds[j]) {
        if j > 0 { assert conds[j] == tail[j - 1]; }
      }
    }
  }

  /** A ready condition with no mistyped condition before it makes the
      generic loop yield `running`. */
  lemma {:induction false} GenericScanRunningFound(conds: seq<Value>, i: int)
    requires 0 <= i < |conds| && IsReadyCondition(conds[i]) && TypedBefore(conds, i)
    ensures GenericScan(conds) == Ok(Running)
  {
    if i > 0 && !IsReadyCondition(conds[0]) {
      var tail := conds[1..];
      assert !HasNonStringType(conds[0]);
      assert IsReadyCondition(tail[i - 1]);
      forall j | 0 <= j < i - 1 ensures !HasNonStringType(tail[j]) {
        assert tail[j] == conds[j + 1];
      }
      GenericScanRunningFound(tail, i - 1);
    }
  }

  /** The generic loop yields `running` exactly when some condition is ready
      and no condition before it trips the type assertion. */
  lemma GenericScanRunning(conds: seq<Value>)
    ensures GenericScan(conds) == Ok(Running) <==>
              exists i :: 0 <= i < |conds| && IsReadyCondition(conds[i]) && TypedBefore(conds, i)
  {
    if GenericScan(conds) == Ok(Running) {
      GenericScanRunningWitness(conds);
    }
    if exists i :: 0 <= i < |conds| && IsReadyCondition(conds[i]) && TypedBefore(conds, i) {
      var i :| 0 <= i < |conds| && IsReadyCondition(conds[i]) && TypedBefore(conds, i);
      GenericScanRunningFound(conds, i);
    }
  }

  /** A panic from the generic loop points at a mistyped condition that no
      ready condition comes before. */
  lemma {:induction false} GenericScanPanicWitness(conds: seq<Value>)
    requires GenericScan(conds).Panic?
    ensures exists i :: 0 <= i < |conds| && HasNonStringType(conds[i]) && NotReadyBefore(conds, i)
  {
    if HasNonStringType(conds[0]) {
      assert NotReadyBefore(conds, 0);
    } else {
      var tail := conds[1..];
      GenericScanPanicWitness(tail);
      var i :| 0 <= i < |tail| && HasNonStringType(tail[i]) && NotReadyBefore(tail, i);
      assert HasNonStringType(conds[i + 1]);
      forall j | 0 <= j < i + 1 ensures !IsReadyCondition(conds[j]) {
        if j > 0 { assert conds[j] == tail[j - 1]; }
      }
    }
  }

  /** A mistyped condition with no ready condition before it makes the
      generic loop panic. */
  lemma {:induction false} GenericScanPanicFound(conds: seq<Value>, i: int)
    requires 0 <= i < |conds| && HasNonStringType(conds[i]) && NotReadyBefore(conds, i)
    ensures GenericScan(conds).Panic?
  {
    if i > 0 && !HasNonStringType(conds[0]) {
      var tail := conds[1..];
      assert !IsReadyCondition(conds[0]);
      assert HasNonStringType(tail[i - 1]);
      forall j | 0 <= j < i - 1 ensures !IsReadyCondition(tail[j]) {
        assert tail[j] == conds[j + 1];
      }
      GenericScanPanicFound(tail, i - 1);
    }
  }

  /** The generic loop panics exactly when some condition has a non-string
      type and no condition before it is ready. */
  lemma GenericScanPanics(conds: seq<Value>)
    ensures GenericScan(conds).Panic? <==>
              exists i :: 0 <= i < |conds| && HasNonStringType(conds[i]) && NotReadyBefore(conds, i)
  {
    if GenericScan(conds).Panic? {
      GenericScanPanicWitness(conds);
    }
    if exists i :: 0 <= i < |conds| && HasNonStringType(conds[i]) && NotReadyBefore(conds, i) {
      var i :| 0 <= i < |conds| && HasNonStringType(conds[i]) && NotReadyBefore(conds, i);
      GenericScanPanicFound(conds, i);
    }
  }

  // ---------------------------------------------------------------------
  // getResourceStatus

  /** getResourceStatus: `unknown` unless `status` is a mapping, then the rule
      of the resource's kind. Only the generic rule can panic. */
  function ClassifyStatus(r: Resource): (c: Result<Label>)
    ensures !r.status.Mapping? ==> c == Ok(Unknown)
    ensures c.Panic? ==> RuleFor(r.kind) == GenericConditions
    ensures c == Ok(Failed) ==> r.kind == "Pod"
    ensures c == Ok(Pending) ==> r.kind == "Pod" || r.kind in ControllerKinds
  {
    match r.status
    case Mapping(status) =>
      (match RuleFor(r.kind)
       case InstancePhase => Ok(if "phase" in status then PhaseLabel(status["phase"]) else Unknown)
       case ControllerConditions => Ok(if ControllerScan(Conditions(status)) then Running else Pending)
       case AlwaysRunning => Ok(Running)
       case GenericConditions => GenericScan(Conditions(status)))
    case _ => Ok(Unknown)
  }

  /** A Pod's label follows its phase: Running, Pending, Failed or Error;
      any other phase, or none, gives `unknown`. */
  lemma PodStatus(r: Resource)
    requires r.kind == "Pod" && r.status.Mapping?
    ensures var status := r.status.fields;
            var phase := if "phase" in status then status["phase"] else Null;
            && (ClassifyStatus(r) == Ok(Running) <==> phase == Str("Running"))
            && (ClassifyStatus(r) == Ok(Pending) <==> phase == Str("Pending"))
            && (ClassifyStatus(r) == Ok(Failed) <==> phase == Str("Failed") || phase == Str("Error"))
            && (ClassifyStatus(r) == Ok(Unknown) <==>
                  phase !in {Str("Running"), Str("Pending"), Str("Failed"), Str("Error")})
  {
  }

  /** A rollout controller is `running` exactly when some condition is an
      exact `Available`/`True` mapping, and `pending` otherwise. */
  lemma ControllerStatus(r: Resource)
    requires r.kind in ControllerKinds && r.status.Mapping?
    ensures var conds := Conditions(r.status.fields);
            ClassifyStatus(r) ==
              if exists i :: 0 <= i < |conds| && IsAvailableCondition(conds[i]) then Ok(Running) else Ok(Pending)
  {
  }

  /** Services, ConfigMaps and Secrets are `running` once `status` is a
      mapping, and `unknown` without one. */
  lemma FixedKindStatus(r: Resource)
    requires r.kind in AlwaysRunningKinds
    ensures ClassifyStatus(r) == if r.status.Mapping? then Ok(Running) else Ok(Unknown)
  {
  }

  /** Any other kind that does not panic is `running` exactly when some
      condition is ready, else `unknown`: a mistyped condition after the first
      ready one is never reached. */
  lemma CustomKindStatus(r: Resource)
    requires RuleFor(r.kind) == GenericConditions && r.status.Mapping?
    requires !ClassifyStatus(r).Panic?
    ensures var conds := Conditions(r.status.fields);
            ClassifyStatus(r) ==
              if exists i :: 0 <= i < |conds| && IsReadyCondition(conds[i]) then Ok(Running) else Ok(Unknown)
  {
    var conds := Conditions(r.status.fields);
    assert ClassifyStatus(r) == GenericScan(conds);
    GenericScanRunning(conds);
    if exists i :: 0 <= i < |conds| && IsReadyCondition(conds[i]) {
      var i :| 0 <= i < |conds| && IsReadyCondition(conds[i]);
      FirstReady(conds, i);
      var k :| 0 <= k <= i && IsReadyCondition(conds[k]) && NotReadyBefore(conds, k);
      FirstReadyTyped(conds, k);
    }
  }

  /** Some ready condition is the first one. */
  lemma FirstReady(conds: seq<Value>, i: int)
    requires 0 <= i < |conds| && IsReadyCondition(conds[i])
    ensures exists k :: 0 <= k <= i && IsReadyCondition(conds[k]) && NotReadyBefore(conds, k)
    decreases i
  {
    if !NotReadyBefore(conds, i) {
      var j :| 0 <= j < i && IsReadyCondition(conds[j]);
      FirstReady(conds, j);
    }
  }

  /** When the generic loop does not panic, no condition before the first
      ready one has a non-string `type`: the assertion would fail there. */
  lemma FirstReadyTyped(conds: seq<Value>, k: int)
    requires 0 <= k < |conds| && IsReadyCondition(conds[k]) && NotReadyBefore(conds, k)
    requires !GenericScan(conds).Panic?
    ensures TypedBefore(conds, k)
  {
    GenericScanPanics(conds);
    forall j | 0 <= j < k ensures !HasNonStringType(conds[j]) {
      assert NotReadyBefore(conds, j);
    }
  }

  /** Any other kind panics exactly when, scanning its conditions in order, a
      non-string `type` comes before any ready condition. */
  lemma CustomKindPanics(r: Resource)
    requires RuleFor(r.kind) == GenericConditions && r.status.Mapping?
    ensures var conds := Conditions(r.status.fields);
            ClassifyStatus(r).Panic? <==>
              exists i :: 0 <= i < |conds| && HasNonStringType(conds[i]) && NotReadyBefore(conds, i)
  {
    GenericScanPanics(Conditions(r.status.fields));
  }
}

// The phase of a pod: counting loops over container states, and what successive updates can do to a final phase.
module PodPhase {
  import opened Text

  /** The three optional parts of a container state; exit codes of terminated containers. */
  datatype State = State(running: bool, terminated: Option<int>, waiting: bool)

  datatype Status = Status(name: string, state: State, last: Option<int>)

  datatype Spec = Spec(inits: seq<string>, containers: seq<string>, policy: string)

  datatype Phase = Pending | Running | Succeeded | Failed | Unknown

  const ALWAYS := "Always"
  const NEVER := "Never"

  /** GetContainerStatus: the first status with the name. */
  function Lookup(info: seq<Status>, name: string): Option<Status> {
    if info == [] then None else if info[0].name == name then Some(info[0]) else Lookup(info[1..], name)
  }

  // ---------------------------------------------------------------- one container

  datatype InitClass = Initialized | InitFailed | InitPending

  function ByExit(code: int): InitClass { if code == 0 then Initialized else InitFailed }

  function ClassOfInit(info: seq<Status>, name: string): InitClass {
    var s := Lookup(info, name);
    if s.None? || s.value.state.running then InitPending
    else if s.value.state.terminated.Some? then ByExit(s.value.state.terminated.value)
    else if s.value.state.waiting && s.value.last.Some? then ByExit(s.value.last.value)
    else InitPending
  }

  /** Restarting containers have stopped but count neither as succeeded nor as failed. */
  datatype Class = IsUnknown | IsRunning | IsWaiting | StoppedOk | StoppedBad | Restarting

  function ClassOf(info: seq<Status>, name: string): Class {
    var s := Lookup(info, name);
    if s.None? then IsUnknown
    else if s.value.state.running then IsRunning
    else if s.value.state.terminated.Some? then (if s.value.state.terminated.value == 0 then StoppedOk else StoppedBad)
    else if s.value.state.waiting then (if s.value.last.Some? then Restarting else IsWaiting)
    else IsUnknown
  }

  // ---------------------------------------------------------------- the phase, said without counters

  ghost predicate SomeInit(spec: Spec, info: seq<Status>, c: InitClass) {
    exists i :: 0 <= i < |spec.inits| && ClassOfInit(info, spec.inits[i]) == c
  }

  ghost predicate SomeContainer(spec: Spec, info: seq<Status>, c: Class) {
    exists i :: 0 <= i < |spec.containers| && ClassOf(info, spec.containers[i]) == c
  }

  ghost predicate AllStoppedOk(spec: Spec, info: seq<Status>) {
    forall i :: 0 <= i < |spec.containers| ==> ClassOf(info, spec.containers[i]) == StoppedOk
  }

  ghost function PhaseOf(spec: Spec, info: seq<Status>): Phase {
    if SomeInit(spec, info, InitFailed) && spec.policy == NEVER then Failed
    else if SomeInit(spec, info, InitPending) || SomeContainer(spec, info, IsWaiting) || SomeContainer(spec, info, IsUnknown) || spec.containers == [] then Pending
    else if SomeContainer(spec, info, IsRunning) || spec.policy == ALWAYS then Running
    else if AllStoppedOk(spec, info) then Succeeded
    else if spec.policy == NEVER then Failed
    else Running
  }

  // ---------------------------------------------------------------- getPhase

  datatype InitCounts = InitCounts(initialized: nat, pending: nat, failed: nat)
  datatype Counts = Counts(unknown: nat, running: nat, waiting: nat, stopped: nat, failed: nat, succeeded: nat)

  /** How many of the names are of a class. */
  ghost function CountInit(info: seq<Status>, names: seq<string>, c: InitClass): nat {
    if names == [] then 0
    else CountInit(info, names[..|names| - 1], c) + if ClassOfInit(info, names[|names| - 1]) == c then 1 else 0
  }

  ghost function Count(info: seq<Status>, names: seq<string>, c: Class): nat {
    if names == [] then 0
    else Count(info, names[..|names| - 1], c) + if ClassOf(info, names[|names| - 1]) == c then 1 else 0
  }

  ghost predicate InitCounted(info: seq<Status>, names: seq<string>, n: InitCounts) {
    && n.initialized == CountInit(info, names, Initialized) && n.pending == CountInit(info, names, InitPending)
    && n.failed == CountInit(info, names, InitFailed)
  }

  ghost predicate Counted(info: seq<Status>, names: seq<string>, n: Counts) {
    && n.unknown == Count(info, names, IsUnknown) && n.running == Count(info, names, IsRunning)
    && n.waiting == Count(info, names, IsWaiting) && n.failed == Count(info, names, StoppedBad)
    && n.succeeded == Count(info, names, StoppedOk)
    && n.stopped == n.failed + n.succeeded + Count(info, names, Restarting)
  }

  method CountInits(info: seq<Status>, names: seq<string>) returns (n: InitCounts)
    ensures InitCounted(info, names, n) && n.initialized + n.pending + n.failed == |names|
  {
    n := InitCounts(0, 0, 0);
    for i := 0 to |names|
      invariant InitCounted(info, names[..i], n) && n.initialized + n.pending + n.failed == i
    {
      assert names[..i + 1][..i] == names[..i];
      var s := Lookup(info, names[i]);
      if s.None? || s.value.state.running {
        n := n.(pending := n.pending + 1);
      } else if s.value.state.terminated.Some? {
        if s.value.state.terminated.value == 0 { n := n.(initialized := n.initialized + 1); } else { n := n.(failed := n.failed + 1); }
      } else if s.value.state.waiting && s.value.last.Some? {
        if s.value.last.value == 0 { n := n.(initialized := n.initialized + 1); } else { n := n.(failed := n.failed + 1); }
      } else {
        n := n.(pending := n.pending + 1);
      }
    }
    assert names[..|names|] == names;
  }

  method CountContainers(info: seq<Status>, names: seq<string>) returns (n: Counts)
    ensures Counted(info, names, n) && n.unknown + n.running + n.waiting + n.stopped == |names|
  {
    n := Counts(0, 0, 0, 0, 0, 0);
    for i := 0 to |names|
      invariant Counted(info, names[..i], n) && n.unknown + n.running + n.waiting + n.stopped == i
    {
      assert names[..i + 1][..i] == names[..i];
      var s := Lookup(info, names[i]);
      if s.None? {
        n := n.(unknown := n.unknown + 1);
      } else if s.value.state.running {
        n := n.(running := n.running + 1);
      } else if s.value.state.terminated.Some? {
        n := n.(stopped := n.stopped + 1);
        if s.value.state.terminated.value == 0 { n := n.(succeeded := n.succeeded + 1); } else { n := n.(failed := n.failed + 1); }
      } else if s.value.state.waiting {
        if s.value.last.Some? { n := n.(stopped := n.stopped + 1); } else { n := n.(waiting := n.waiting + 1); }
      } else {
        n := n.(unknown := n.unknown + 1);
      }
    }
    assert names[..|names|] == names;
  }

  lemma {:induction false} CountInitPositive(info: seq<Status>, names: seq<string>, c: InitClass)
    ensures CountInit(info, names, c) > 0 <==> exists i :: 0 <= i < |names| && ClassOfInit(info, names[i]) == c
  {
    if names != [] {
      var init := names[..|names| - 1];
      CountInitPositive(info, init, c);
      if CountInit(info, init, c) > 0 {
        var i :| 0 <= i < |init| && ClassOfInit(info, init[i]) == c;
        assert ClassOfInit(info, names[i]) == c;
      }
      if i :| 0 <= i < |names| && ClassOfInit(info, names[i]) == c {
        assert i < |init| ==> ClassOfInit(info, init[i]) == c;
      }
    }
  }

  lemma {:induction false} CountPositive(info: seq<Status>, names: seq<string>, c: Class)
    ensures Count(info, names, c) > 0 <==> exists i :: 0 <= i < |names| && ClassOf(info, names[i]) == c
  {
    if names != [] {
      var init := names[..|names| - 1];
      CountPositive(info, init, c);
      if Count(info, init, c) > 0 {
        var i :| 0 <= i < |init| && ClassOf(info, init[i]) == c;
        assert ClassOf(info, names[i]) == c;
      }
      if i :| 0 <= i < |names| && ClassOf(info, names[i]) == c {
        assert i < |init| ==> ClassOf(info, init[i]) == c;
      }
    }
  }

  /** The decision on the counters. */
  function Decide(policy: string, i: InitCounts, n: Counts): Phase {
    if i.failed > 0 && policy == NEVER then Failed
    else if i.pending > 0 || n.waiting > 0 then Pending
    else if n.running > 0 && n.unknown == 0 then Running
    else if n.running == 0 && n.stopped > 0 && n.unknown == 0 then
      if policy == ALWAYS then Running
      else if n.stopped == n.succeeded then Succeeded
      else if policy == NEVER then Failed
      else Running
    else Pending
  }

  lemma DecideIsPhaseOf(spec: Spec, info: seq<Status>, i: InitCounts, n: Counts)
    requires InitCounted(info, spec.inits, i) && i.initialized + i.pending + i.failed == |spec.inits|
    requires Counted(info, spec.containers, n) && n.unknown + n.running + n.waiting + n.stopped == |spec.containers|
    ensures Decide(spec.policy, i, n) == PhaseOf(spec, info)
  {
    forall c ensures CountInit(info, spec.inits, c) > 0 <==> SomeInit(spec, info, c) { CountInitPositive(info, spec.inits, c); }
    forall c ensures Count(info, spec.containers, c) > 0 <==> SomeContainer(spec, info, c) { CountPositive(info, spec.containers, c); }
    if n.unknown == 0 && n.waiting == 0 && n.running == 0 {
      AllOkIffCounted(spec, info, n);
    }
  }

  lemma AllOkIffCounted(spec: Spec, info: seq<Status>, n: Counts)
    requires Counted(info, spec.containers, n) && n.unknown == 0 && n.waiting == 0 && n.running == 0
    ensures AllStoppedOk(spec, info) <==> n.stopped == n.succeeded
  {
    forall c ensures Count(info, spec.containers, c) > 0 <==> SomeContainer(spec, info, c) { CountPositive(info, spec.containers, c); }
    if n.stopped == n.succeeded {
      forall k | 0 <= k < |spec.containers| ensures ClassOf(info, spec.containers[k]) == StoppedOk {
        var c := ClassOf(info, spec.containers[k]);
        assert SomeContainer(spec, info, c);
      }
    } else {
      assert SomeContainer(spec, info, StoppedBad) || SomeContainer(spec, info, Restarting);
    }
  }

  /** getPhase. */
  method GetPhase(spec: Spec, info: seq<Status>) returns (phase: Phase)
    ensures phase == PhaseOf(spec, info)
  {
    var i := CountInits(info, spec.inits);
    var n := CountContainers(info, spec.containers);
    phase := Decide(spec.policy, i, n);
    DecideIsPhaseOf(spec, info, i, n);
  }

  /** What each final phase means. */
  lemma FinalPhases(spec: Spec, info: seq<Status>)
    ensures PhaseOf(spec, info) == Failed ==> spec.policy == NEVER
    ensures PhaseOf(spec, info) in {Failed, Succeeded} ==> spec.policy != ALWAYS
    ensures PhaseOf(spec, info) == Succeeded ==>
              spec.containers != [] && forall i :: 0 <= i < |spec.containers| ==>
                var s := Lookup(info, spec.containers[i]);
                s.Some? && !s.value.state.running && s.value.state.terminated == Some(0)
    ensures PhaseOf(spec, info) != Unknown
  {
    if PhaseOf(spec, info) == Succeeded {
      forall i | 0 <= i < |spec.containers| ensures Lookup(info, spec.containers[i]).Some? {
        assert ClassOf(info, spec.containers[i]) == StoppedOk;
      }
    }
  }

  /** Container states, as the runtime reports them. */
  ghost predicate Runs(info: seq<Status>, name: string) { var s := Lookup(info, name); s.Some? && s.value.state.running }

  ghost predicate Exited(info: seq<Status>, name: string, code: int) {
    var s := Lookup(info, name); s.Some? && !s.value.state.running && s.value.state.terminated == Some(code)
  }

  /** Waiting to run again, after it terminated before. */
  ghost predicate Restarts(info: seq<Status>, name: string) {
    var s := Lookup(info, name); s.Some? && s.value.state == State(false, None, true) && s.value.last.Some?
  }

  /** An init container is through when it exited with 0, now or before it waits to run again; otherwise it failed or is pending. */
  ghost predicate InitExited(info: seq<Status>, name: string, ok: bool) {
    var s := Lookup(info, name);
    && s.Some? && !s.value.state.running
    && var code := if s.value.state.terminated.Some? then s.value.state.terminated else if s.value.state.waiting then s.value.last else None;
       code.Some? && (code.value == 0) == ok
  }

  lemma LookupIsFirst(info: seq<Status>, name: string, i: nat)
    requires i < |info| && info[i].name == name && forall j :: 0 <= j < i ==> info[j].name != name
    ensures Lookup(info, name) == Some(info[i])
  {
    if i > 0 { LookupIsFirst(info[1..], name, i - 1); }
  }

  ghost predicate Blocked(spec: Spec, info: seq<Status>) {
    spec.policy == "Never" && exists i :: 0 <= i < |spec.inits| && InitExited(info, spec.inits[i], false)
  }

  /** Some container has not been started, or its state is not known, or an init container is not through. */
  ghost predicate NotStarted(spec: Spec, info: seq<Status>) {
    || spec.containers == []
    || (exists i :: 0 <= i < |spec.inits| && !InitExited(info, spec.inits[i], true) && !InitExited(info, spec.inits[i], false))
    || (exists i :: 0 <= i < |spec.containers| && var n := spec.containers[i];
          !Runs(info, n) && !Restarts(info, n) && forall code :: !Exited(info, n, code))
  }

  lemma InitClassIs(info: seq<Status>, name: string)
    ensures ClassOfInit(info, name) == Initialized <==> InitExited(info, name, true)
    ensures ClassOfInit(info, name) == InitFailed <==> InitExited(info, name, false)
  {
  }

  lemma ClassIs(info: seq<Status>, name: string)
    ensures ClassOf(info, name) == IsRunning <==> Runs(info, name)
    ensures ClassOf(info, name) == StoppedOk <==> Exited(info, name, 0)
    ensures ClassOf(info, name) == StoppedBad <==> exists code :: code != 0 && Exited(info, name, code)
    ensures ClassOf(info, name) == Restarting <==> Restarts(info, name)
  {
    var s := Lookup(info, name);
    if s.Some? && s.value.state.terminated.Some? {
      assert !s.value.state.running ==> Exited(info, name, s.value.state.terminated.value);
    }
  }

  lemma NotStartedIs(spec: Spec, info: seq<Status>)
    ensures NotStarted(spec, info) <==>
            || spec.containers == [] || SomeInit(spec, info, InitPending)
            || SomeContainer(spec, info, IsWaiting) || SomeContainer(spec, info, IsUnknown)
  {
    forall n ensures (ClassOfInit(info, n) == InitPending) == (!InitExited(info, n, true) && !InitExited(info, n, false)) {
      InitClassIs(info, n);
    }
    forall n ensures (ClassOf(info, n) == IsWaiting || ClassOf(info, n) == IsUnknown) ==
                     (!Runs(info, n) && !Restarts(info, n) && forall code :: !Exited(info, n, code)) {
      ClassIs(info, n);
      assert Exited(info, n, 0) || (forall code :: Exited(info, n, code) ==> code != 0);
    }
  }

  ghost predicate SomeRuns(spec: Spec, info: seq<Status>) { exists i :: 0 <= i < |spec.containers| && Runs(info, spec.containers[i]) }

  ghost predicate AllSucceeded(spec: Spec, info: seq<Status>) {
    forall i :: 0 <= i < |spec.containers| ==> Exited(info, spec.containers[i], 0)
  }

  lemma FlagsAre(spec: Spec, info: seq<Status>)
    ensures SomeRuns(spec, info) == SomeContainer(spec, info, IsRunning) && AllSucceeded(spec, info) == AllStoppedOk(spec, info)
    ensures Blocked(spec, info) == (SomeInit(spec, info, InitFailed) && spec.policy == NEVER)
  {
    forall n ensures (ClassOfInit(info, n) == InitFailed) == InitExited(info, n, false) { InitClassIs(info, n); }
    forall n ensures (ClassOf(info, n) == IsRunning) == Runs(info, n) && (ClassOf(info, n) == StoppedOk) == Exited(info, n, 0) {
      ClassIs(info, n);
    }
  }

  /** The phase table on container states: exactly when a pod is Failed, Pending, Succeeded and Running. */
  lemma PhaseTable(spec: Spec, info: seq<Status>)
    ensures var (p, blocked, waits) := (PhaseOf(spec, info), Blocked(spec, info), NotStarted(spec, info));
            && (p == Pending <==> !blocked && waits)
            && (p == Succeeded <==>
                  !blocked && !waits && !SomeRuns(spec, info) && spec.policy != "Always" && AllSucceeded(spec, info))
            && (p == Failed <==>
                  blocked || (!waits && !SomeRuns(spec, info) && spec.policy == "Never" && !AllSucceeded(spec, info)))
            && (p == Running <==>
                  !blocked && !waits &&
                  (SomeRuns(spec, info) || spec.policy == "Always" || (spec.policy != "Never" && !AllSucceeded(spec, info))))
  {
    NotStartedIs(spec, info);
    FlagsAre(spec, info);
  }

  // ---------------------------------------------------------------- updates

  /** What one update sees: a runtime error, or the container states, and whether the pod is being deleted. */
  datatype Observation = RuntimeError | Observed(deleting: bool, spec: Spec, info: seq<Status>)

  predicate Final(p: Phase) { p == Failed || p == Succeeded }

  /** updatePodStatus: the phase written to the pod. */
  ghost function Next(p: Phase, o: Observation): Phase {
    if o.RuntimeError? then Unknown
    else if o.deleting then Succeeded
    else if Final(p) then p
    else PhaseOf(o.spec, o.info)
  }

  /** Each path of an update: a runtime error hides the phase, a pod being deleted has succeeded, a final phase stays. */
  lemma NextIs(p: Phase, spec: Spec, info: seq<Status>)
    ensures Next(p, RuntimeError) == Unknown && Next(p, Observed(true, spec, info)) == Succeeded
    ensures Next(p, Observed(false, spec, info)) == if p == Failed || p == Succeeded then p else PhaseOf(spec, info)
  {
  }

  ghost function Run(p: Phase, obs: seq<Observation>): Phase
    decreases |obs|
  {
    if obs == [] then p else Run(Next(p, obs[0]), obs[1..])
  }

  /** An observation that leaves a final phase alone: a runtime error or the deletion of a failed pod does not. */
  predicate Spares(p: Phase, o: Observation) { o.Observed? && (o.deleting ==> p == Succeeded) }

  /** A final phase stays through a whole run exactly when every update spares it. */
  lemma {:induction false} FinalStaysIff(p: Phase, obs: seq<Observation>)
    requires Final(p)
    ensures (forall k :: 0 <= k <= |obs| ==> Run(p, obs[..k]) == p) <==> forall i :: 0 <= i < |obs| ==> Spares(p, obs[i])
    decreases |obs|
  {
    if obs != [] {
      var (o, rest) := (obs[0], obs[1..]);
      forall k | 0 < k <= |obs| ensures Run(p, obs[..k]) == Run(Next(p, o), rest[..k - 1]) {
        assert obs[..k][1..] == rest[..k - 1];
      }
      assert rest[..0] == [] && Run(p, obs[..1]) == Next(p, o);
      if Spares(p, o) {
        FinalStaysIff(p, rest);
        if forall i :: 0 <= i < |obs| ==> Spares(p, obs[i]) {
          forall k | 0 <= k <= |obs| ensures Run(p, obs[..k]) == p {
            assert k > 0 ==> Run(p, rest[..k - 1]) == p;
          }
        }
        if forall k :: 0 <= k <= |obs| ==> Run(p, obs[..k]) == p {
          forall k | 0 <= k <= |rest| ensures Run(p, rest[..k]) == p {
            assert Run(p, obs[..k + 1]) == p;
          }
          assert forall i :: 0 <= i < |obs| ==> i == 0 || obs[i] == rest[i - 1];
        }
      }
    }
  }

  /** With runtime status and no deletion a final phase is absorbing. */
  lemma FinalIsAbsorbing(p: Phase, obs: seq<Observation>)
    requires Final(p) && forall i :: 0 <= i < |obs| ==> obs[i].Observed? && !obs[i].deleting
    ensures Run(p, obs) == p
  {
    FinalStaysIff(p, obs);
    assert obs[..|obs|] == obs;
  }

  class Pod {
    var phase: Phase

    /** updatePodStatus with the runtime present; the forced return to a final phase happens after the computation. */
    method UpdatePodStatus(o: Observation)
      modifies this
      ensures phase == Next(old(phase), o)
    {
      if o.RuntimeError? {
        phase := Unknown;
      } else if o.deleting {
        phase := Succeeded;
      } else {
        var computed := GetPhase(o.spec, o.info);
        if phase == Failed || phase == Succeeded {
          if computed != phase { computed := phase; }
        }
        phase := computed;
      }
    }
  }
}

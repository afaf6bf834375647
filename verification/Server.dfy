/** The `POST /run` handler: any number of concurrent requests, one run at a time. */
module Server {
  import opened Artifacts

  /** Where a handler is. The deferred calls release the mutex first and the flag after it. */
  datatype Handler = Arrived | Conflicted | Admitted | Running | Unlocked | Finished

  datatype State = State(handlers: seq<Handler>, running: bool, locked: bool)

  datatype Step = Swap(handler: nat) | Lock(handler: nat) | Unlock(handler: nat) | Release(handler: nat)

  predicate Enabled(s: State, step: Step) {
    match step
    case Swap(h) => h < |s.handlers| && s.handlers[h].Arrived?
    case Lock(h) => h < |s.handlers| && s.handlers[h].Admitted? && !s.locked
    case Unlock(h) => h < |s.handlers| && s.handlers[h].Running?
    case Release(h) => h < |s.handlers| && s.handlers[h].Unlocked?
  }

  function Next(s: State, step: Step): State
    requires Enabled(s, step)
  {
    match step
    case Swap(h) =>
      if s.running then s.(handlers := s.handlers[h := Conflicted])
      else s.(handlers := s.handlers[h := Admitted], running := true)
    case Lock(h) => s.(handlers := s.handlers[h := Running], locked := true)
    case Unlock(h) => s.(handlers := s.handlers[h := Unlocked], locked := false)
    case Release(h) => s.(handlers := s.handlers[h := Finished], running := false)
  }

  function After(n: nat, steps: seq<Step>): Option<State> {
    if |steps| == 0 then Some(State(seq(n, _ => Arrived), false, false))
    else
      match After(n, steps[..|steps| - 1])
      case None => None
      case Some(s) => if Enabled(s, steps[|steps| - 1]) then Some(Next(s, steps[|steps| - 1])) else None
  }

  /** Between a successful swap and the release. */
  predicate Active(h: Handler) { h.Admitted? || h.Running? || h.Unlocked? }

  ghost predicate Exclusive(s: State) {
    && (forall a, b :: 0 <= a < b < |s.handlers| ==> !(Active(s.handlers[a]) && Active(s.handlers[b])))
    && (s.running <==> exists h :: 0 <= h < |s.handlers| && Active(s.handlers[h]))
    && (s.locked <==> exists h :: 0 <= h < |s.handlers| && s.handlers[h].Running?)
  }

  lemma ExclusiveStep(s: State, step: Step)
    requires Exclusive(s) && Enabled(s, step)
    ensures Exclusive(Next(s, step))
  {
    var t, h := Next(s, step), step.handler;
    assert t.handlers == s.handlers[h := t.handlers[h]];
    assert forall g :: 0 <= g < |s.handlers| && g != h ==> t.handlers[g] == s.handlers[g];
    assert Active(s.handlers[h]) ==> forall g :: 0 <= g < |s.handlers| && g != h ==> !Active(s.handlers[g]);
  }

  lemma {:induction false} AlwaysExclusive(n: nat, steps: seq<Step>)
    requires After(n, steps).Some?
    ensures Exclusive(After(n, steps).value)
  {
    if |steps| > 0 {
      var init := steps[..|steps| - 1];
      AlwaysExclusive(n, init);
      ExclusiveStep(After(n, init).value, steps[|steps| - 1]);
    }
  }

  /** Of any two requests at most one is between its swap and its release. */
  lemma OneRunAtATime(n: nat, steps: seq<Step>, a: nat, b: nat)
    requires After(n, steps).Some? && a < n && b < n && a != b
    ensures var s := After(n, steps).value;
            && |s.handlers| == n
            && !(Active(s.handlers[a]) && Active(s.handlers[b]))
  {
    AlwaysExclusive(n, steps);
    HandlersStay(n, steps);
    if a < b {} else {}
  }

  /** Locking the mutex never blocks, and a request is turned away exactly while another one is active. */
  lemma LockIsFree(n: nat, steps: seq<Step>, a: nat)
    requires After(n, steps).Some? && a < n
    ensures var s := After(n, steps).value;
            && |s.handlers| == n
            && (s.handlers[a].Admitted? ==> Enabled(s, Lock(a)))
            && (s.handlers[a].Arrived? ==>
                  (Next(s, Swap(a)).handlers[a].Conflicted? <==> exists h :: 0 <= h < n && Active(s.handlers[h])))
  {
    AlwaysExclusive(n, steps);
    HandlersStay(n, steps);
    var s := After(n, steps).value;
    assert s.handlers[a].Admitted? ==> forall h :: 0 <= h < n && h != a ==> !Active(s.handlers[h]);
  }

  lemma {:induction false} HandlersStay(n: nat, steps: seq<Step>)
    requires After(n, steps).Some?
    ensures |After(n, steps).value.handlers| == n
  {
    if |steps| > 0 {
      HandlersStay(n, steps[..|steps| - 1]);
    }
  }
}

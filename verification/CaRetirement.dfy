/**
 * Retiring one CA while certificates are being issued from it. Issuing checks the CA first and stores the
 * certificate later; retiring disables the CA, reads a page of its certificates, and revokes them one by
 * one. The steps of any number of issuing requests fall anywhere in between.
 */
module CaRetirement {
  import opened CaRevocation

  /** `size` is how many certificates there were when the page was read, `next` how far revoking has come. */
  datatype Phase = Before | Stopped | Revoking(size: nat, next: nat)

  /** `revoked` by certificate, oldest first; `checked` are the requests that have passed the check of the CA. */
  datatype State = State(active: bool, revoked: seq<bool>, checked: set<nat>, phase: Phase)

  datatype Action =
    | Check(pid: nat)
    | Store(pid: nat)
    | Fail(pid: nat)
    | Disable
    | ReadPage
    | RevokeNext

  function PageSize(size: nat): nat {
    if size <= LIMIT then size else LIMIT
  }

  /** A retirement reads ten thousand certificates, or all of them if there are fewer. */
  lemma PageSizeExact(size: nat)
    ensures PageSize(size) <= 10000 && PageSize(size) <= size && (PageSize(size) == 10000 || PageSize(size) == size)
  {
  }

  predicate Enabled(s: State, a: Action) {
    match a
    case Check(pid) => s.active && pid !in s.checked
    case Store(pid) => pid in s.checked
    case Fail(pid) => pid in s.checked
    case Disable => s.phase.Before?
    case ReadPage => s.phase.Stopped?
    case RevokeNext => s.phase.Revoking? && s.phase.next < PageSize(s.phase.size) && s.phase.next < |s.revoked|
  }

  function Apply(s: State, a: Action): State
    requires Enabled(s, a)
  {
    match a
    case Check(pid) => s.(checked := s.checked + {pid})
    case Store(pid) => s.(revoked := s.revoked + [false], checked := s.checked - {pid})
    case Fail(pid) => s.(checked := s.checked - {pid})
    case Disable => s.(active := false, phase := Stopped)
    case ReadPage => s.(phase := Revoking(|s.revoked|, 0))
    case RevokeNext =>
      s.(revoked := s.revoked[s.phase.next := true], phase := Revoking(s.phase.size, s.phase.next + 1))
  }

  predicate Runs(s: State, acts: seq<Action>)
    decreases |acts|
  {
    acts == [] || (Enabled(s, acts[0]) && Runs(Apply(s, acts[0]), acts[1..]))
  }

  function After(s: State, acts: seq<Action>): State
    requires Runs(s, acts)
    decreases |acts|
  {
    if acts == [] then s else After(Apply(s, acts[0]), acts[1..])
  }

  predicate Finished(s: State) {
    s.phase.Revoking? && s.phase.next == PageSize(s.phase.size)
  }

  /** The certificate was revoked when the run started. */
  predicate WasRevoked(start: seq<bool>, k: nat) {
    k < |start| && start[k]
  }

  /** How far revoking has come; nothing yet before the page is read. */
  function Reached(s: State): nat {
    if s.phase.Revoking? then s.phase.next else 0
  }

  ghost predicate Consistent(start: seq<bool>, s: State) {
    && |start| <= |s.revoked| && Reached(s) <= |s.revoked|
    && (s.phase.Revoking? ==> s.phase.next <= PageSize(s.phase.size) && s.phase.size <= |s.revoked|)
    && (forall k :: 0 <= k < |s.revoked| ==> s.revoked[k] == (k < Reached(s) || WasRevoked(start, k)))
  }

  lemma StepKeepsConsistent(start: seq<bool>, s: State, a: Action)
    requires Consistent(start, s) && Enabled(s, a)
    ensures Consistent(start, Apply(s, a))
  {
  }

  lemma {:induction false} RunKeepsConsistent(start: seq<bool>, s: State, acts: seq<Action>)
    requires Consistent(start, s) && Runs(s, acts)
    ensures Consistent(start, After(s, acts))
    decreases |acts|
  {
    if acts != [] {
      StepKeepsConsistent(start, s, acts[0]);
      RunKeepsConsistent(start, Apply(s, acts[0]), acts[1..]);
    }
  }

  /** Once the CA is disabled, every certificate stored uses up a request that had passed the check. */
  lemma {:induction false} StoredWereChecked(s: State, acts: seq<Action>)
    requires Runs(s, acts) && !s.active
    ensures var t := After(s, acts);
            && !t.active && t.checked <= s.checked && |s.revoked| <= |t.revoked|
            && |t.revoked| - |s.revoked| + |t.checked| <= |s.checked|
    decreases |acts|
  {
    if acts != [] {
      var a, u := acts[0], Apply(s, acts[0]);
      if a.Store? || a.Fail? {
        assert |s.checked - {a.pid}| == |s.checked| - 1;
      }
      StoredWereChecked(u, acts[1..]);
    }
  }

  /**
   * When the retirement is finished, the certificates left valid are exactly those that were neither
   * revoked before nor on the page: the ones beyond it, and the ones stored after it was read.
   */
  lemma LeftoverExact(s: State, acts: seq<Action>)
    requires s.phase.Before? && Runs(s, acts) && Finished(After(s, acts))
    ensures var t := After(s, acts);
            forall k :: 0 <= k < |t.revoked| ==>
              (!t.revoked[k] <==> k >= PageSize(t.phase.size) && !WasRevoked(s.revoked, k))
  {
    RunKeepsConsistent(s.revoked, s, acts);
  }

  /**
   * From the moment the CA is disabled, at most as many certificates are stored as requests had passed the
   * check by then; so nothing slips through exactly if none of them gets to store one.
   */
  lemma SlipsAreInFlight(s: State, acts: seq<Action>)
    requires Enabled(s, Disable) && Runs(Apply(s, Disable), acts)
    ensures var t := After(Apply(s, Disable), acts);
            |s.revoked| <= |t.revoked| && |t.revoked| - |s.revoked| <= |s.checked|
  {
    StoredWereChecked(Apply(s, Disable), acts);
  }

  /** Everything is revoked at the end exactly if the page held all that was not revoked before. */
  lemma AllRevokedInTheEndIff(s: State, acts: seq<Action>)
    requires s.phase.Before? && Runs(s, acts) && Finished(After(s, acts))
    ensures var t := After(s, acts);
            (forall k :: 0 <= k < |t.revoked| ==> t.revoked[k])
            <==> forall k :: PageSize(t.phase.size) <= k < |t.revoked| ==> WasRevoked(s.revoked, k)
  {
    LeftoverExact(s, acts);
  }

  /** The bound is met: a request that passed the check before stores a certificate after the page is read. */
  lemma OneSlipsThrough()
    ensures var s := State(true, [], {}, Before);
            var acts := [Check(0)] + ([Disable] + ([ReadPage] + [Store(0)]));
            Runs(s, acts) && Finished(After(s, acts)) && After(s, acts).revoked == [false]
  {
    var s := State(true, [], {}, Before);
    var s1, s2 := State(true, [], {0}, Before), State(false, [], {0}, Stopped);
    var s3, s4 := State(false, [], {0}, Revoking(0, 0)), State(false, [false], {}, Revoking(0, 0));
    assert {0} - {0} == {} && {} + {0} == {0};
    Prepend(s3, Store(0), s4, [], s4);
    assert [Store(0)] + [] == [Store(0)];
    Prepend(s2, ReadPage, s3, [Store(0)], s4);
    Prepend(s1, Disable, s2, [ReadPage] + [Store(0)], s4);
    Prepend(s, Check(0), s1, [Disable] + ([ReadPage] + [Store(0)]), s4);
  }

  lemma Prepend(s: State, a: Action, t: State, acts: seq<Action>, last: State)
    requires Enabled(s, a) && Apply(s, a) == t && Runs(t, acts) && After(t, acts) == last
    ensures Runs(s, [a] + acts) && After(s, [a] + acts) == last
  {
    assert ([a] + acts)[1..] == acts;
  }
}

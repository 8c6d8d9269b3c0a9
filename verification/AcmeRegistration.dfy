/**
 * ACME account registration: slots of a credential are reserved before the account row is written, and
 * given back when writing it reports an error. Registrations interleave freely, may crash between steps,
 * and a statement may commit although its caller is told that it failed.
 */
module AcmeRegistration {
  import opened Common

  /** `max` is max_accounts: 0 means no cap. `count` is account_count. */
  datatype Credential = Credential(max: int, count: int)

  datatype Account = Account(credential: nat, thumbprint: string, active: bool)

  /**
   * A registration that holds a slot; `failed` once writing the account reported an error. `stored` is
   * history: its account row is there all the same.
   */
  datatype Pending = Pending(credential: nat, thumbprint: string, failed: bool, stored: bool)

  /**
   * `leaked` and `over` are history, by credential: slots lost because a registration crashed or its
   * release failed, and slots given back although the account they stand for exists.
   */
  datatype State = State(credentials: seq<Credential>, accounts: seq<Account>, pending: map<nat, Pending>,
                         leaked: seq<nat>, over: seq<nat>)

  datatype Action =
    | AddCredential(max: int)
    | Deactivate(account: nat)
    | Reserve(pid: nat, credential: nat, thumbprint: string)
    | ReserveUnseen(credential: nat)
    | Insert(pid: nat)
    | InsertUnseen(pid: nat)
    | InsertFails(pid: nat)
    | Release(pid: nat)
    | ReleaseFails(pid: nat)
    | Crash(pid: nat)

  /** The condition of the reserving UPDATE. */
  predicate HasRoom(c: Credential) {
    c.max == 0 || c.count < c.max
  }

  function Reserved(c: Credential): Credential {
    if HasRoom(c) then c.(count := c.count + 1) else c
  }

  function Released(c: Credential): Credential {
    if c.count > 0 then c.(count := c.count - 1) else c
  }

  /** jwk_thumbprint is UNIQUE. */
  predicate Registered(accounts: seq<Account>, thumbprint: string) {
    exists a :: a in accounts && a.thumbprint == thumbprint
  }

  predicate Known(s: State, pid: nat) {
    pid in s.pending && s.pending[pid].credential < |s.credentials| == |s.leaked| == |s.over|
  }

  predicate Enabled(s: State, a: Action) {
    match a
    case AddCredential(_) => true
    case Deactivate(a) => a < |s.accounts|
    case Reserve(pid, c, _) => pid !in s.pending && c < |s.credentials|
    case ReserveUnseen(c) => c < |s.credentials| == |s.leaked|
    case Insert(pid) => Known(s, pid) && !s.pending[pid].failed
    case InsertUnseen(pid) => Known(s, pid) && !s.pending[pid].failed
      && !Registered(s.accounts, s.pending[pid].thumbprint)
    case InsertFails(pid) => Known(s, pid) && !s.pending[pid].failed
    case Release(pid) => Known(s, pid) && s.pending[pid].failed
    case ReleaseFails(pid) => Known(s, pid) && s.pending[pid].failed
    case Crash(pid) => Known(s, pid)
  }

  /** The registration is gone and its slot stays counted: lost, unless its account stands for it. */
  function Left(s: State, pid: nat): State
    requires Known(s, pid)
  {
    var p := s.pending[pid];
    s.(pending := s.pending - {pid},
       leaked := if p.stored then s.leaked else s.leaked[p.credential := s.leaked[p.credential] + 1])
  }

  function AccountOf(p: Pending): Account {
    Account(p.credential, p.thumbprint, true)
  }

  function Apply(s: State, a: Action): State
    requires Enabled(s, a)
  {
    match a
    case AddCredential(max) =>
      s.(credentials := s.credentials + [Credential(max, 0)], leaked := s.leaked + [0], over := s.over + [0])
    case Deactivate(a) => s.(accounts := s.accounts[a := s.accounts[a].(active := false)])
    case Reserve(pid, c, thumbprint) =>
      if HasRoom(s.credentials[c]) then
        s.(credentials := s.credentials[c := Reserved(s.credentials[c])],
           pending := s.pending[pid := Pending(c, thumbprint, false, false)])
      else s
    case ReserveUnseen(c) =>
      if HasRoom(s.credentials[c]) then
        s.(credentials := s.credentials[c := Reserved(s.credentials[c])], leaked := s.leaked[c := s.leaked[c] + 1])
      else s
    case Insert(pid) =>
      var p := s.pending[pid];
      if Registered(s.accounts, p.thumbprint) then s.(pending := s.pending[pid := p.(failed := true)])
      else s.(accounts := s.accounts + [AccountOf(p)], pending := s.pending - {pid})
    case InsertUnseen(pid) =>
      var p := s.pending[pid];
      s.(accounts := s.accounts + [AccountOf(p)], pending := s.pending[pid := p.(failed := true, stored := true)])
    case InsertFails(pid) => s.(pending := s.pending[pid := s.pending[pid].(failed := true)])
    case Release(pid) =>
      var p := s.pending[pid];
      s.(credentials := s.credentials[p.credential := Released(s.credentials[p.credential])],
         pending := s.pending - {pid},
         over := if p.stored then s.over[p.credential := s.over[p.credential] + 1] else s.over)
    case ReleaseFails(pid) => Left(s, pid)
    case Crash(pid) => Left(s, pid)
  }

  const EMPTY := State([], [], map[], [], [])

  predicate Runs(s: State, acts: seq<Action>)
    decreases |acts|
  {
    acts == [] || (Enabled(s, acts[0]) && Runs(Apply(s, acts[0]), acts[1..]))
  }

  function After(s: State, acts: seq<Action>): State
    requires Runs(s, acts)
    decreases |acts|
  {
    if acts == [] then s else After(Apply(s, acts[0]), acts[1..])
  }

  // ---------- counting ----------

  function AccountsOf(accounts: seq<Account>, c: nat): nat {
    if accounts == [] then 0
    else AccountsOf(accounts[..|accounts| - 1], c) + (if accounts[|accounts| - 1].credential == c then 1 else 0)
  }

  function HoldersOf(pending: map<nat, Pending>, c: nat, stored: bool): set<nat> {
    set pid | pid in pending && pending[pid].credential == c && pending[pid].stored == stored
  }

  /** Registrations in flight for a credential, by whether their account row is there already. */
  function InFlight(pending: map<nat, Pending>, c: nat, stored: bool): nat {
    |HoldersOf(pending, c, stored)|
  }

  lemma HolderAdded(pending: map<nat, Pending>, pid: nat, p: Pending, c: nat, stored: bool)
    requires pid !in pending
    ensures InFlight(pending[pid := p], c, stored)
         == InFlight(pending, c, stored) + (if p.credential == c && p.stored == stored then 1 else 0)
  {
    var more := HoldersOf(pending[pid := p], c, stored);
    assert pid !in HoldersOf(pending, c, stored);
    forall x | x != pid
      ensures x in more <==> x in HoldersOf(pending, c, stored)
    {
    }
    if p.credential == c && p.stored == stored {
      assert more == HoldersOf(pending, c, stored) + {pid};
    } else {
      assert more == HoldersOf(pending, c, stored);
    }
  }

  lemma HolderRemoved(pending: map<nat, Pending>, pid: nat, c: nat, stored: bool)
    requires pid in pending
    ensures InFlight(pending, c, stored)
         == InFlight(pending - {pid}, c, stored)
            + (if pending[pid].credential == c && pending[pid].stored == stored then 1 else 0)
  {
    HolderAdded(pending - {pid}, pid, pending[pid], c, stored);
    assert (pending - {pid})[pid := pending[pid]] == pending;
  }

  lemma HolderReplaced(pending: map<nat, Pending>, pid: nat, p: Pending, c: nat, stored: bool)
    requires pid in pending
    ensures InFlight(pending[pid := p], c, stored)
         == InFlight(pending - {pid}, c, stored) + (if p.credential == c && p.stored == stored then 1 else 0)
  {
    HolderAdded(pending - {pid}, pid, p, c, stored);
    assert (pending - {pid})[pid := p] == pending[pid := p];
  }

  lemma {:induction false} DeactivatedCounts(accounts: seq<Account>, i: nat, c: nat)
    requires i < |accounts|
    ensures AccountsOf(accounts[i := accounts[i].(active := false)], c) == AccountsOf(accounts, c)
  {
    var n := |accounts| - 1;
    var changed := accounts[i := accounts[i].(active := false)];
    if i < n {
      assert changed[..n] == accounts[..n][i := accounts[i].(active := false)];
      DeactivatedCounts(accounts[..n], i, c);
    } else {
      assert changed[..n] == accounts[..n];
    }
  }

  // ---------- what every step keeps ----------

  /** Every counted slot is an account, a registration in flight or lost; except the slots given back twice. */
  ghost predicate SlotsConserved(s: State, c: nat)
    requires c < |s.credentials| == |s.leaked| == |s.over|
  {
    && s.credentials[c].count + s.over[c] == AccountsOf(s.accounts, c) + InFlight(s.pending, c, false) + s.leaked[c]
    && s.over[c] + InFlight(s.pending, c, true) <= AccountsOf(s.accounts, c)
    && (s.credentials[c].max > 0 ==> s.credentials[c].count <= s.credentials[c].max)
    && (s.credentials[c].max < 0 ==> s.credentials[c].count == 0)
  }

  ghost predicate ThumbprintsUnique(accounts: seq<Account>) {
    forall i, j :: 0 <= i < j < |accounts| ==> accounts[i].thumbprint != accounts[j].thumbprint
  }

  ghost predicate StoredHaveFailed(s: State) {
    forall pid :: pid in s.pending ==>
      s.pending[pid].credential < |s.credentials| && (s.pending[pid].stored ==> s.pending[pid].failed)
  }

  ghost predicate Invariant(s: State) {
    && |s.credentials| == |s.leaked| == |s.over|
    && StoredHaveFailed(s)
    && (forall a :: a in s.accounts ==> a.credential < |s.credentials|)
    && (forall c :: 0 <= c < |s.credentials| ==> SlotsConserved(s, c))
    && ThumbprintsUnique(s.accounts)
  }

  lemma {:induction false} NoAccountsYet(accounts: seq<Account>, c: nat)
    requires forall a :: a in accounts ==> a.credential < c
    ensures AccountsOf(accounts, c) == 0
  {
    if accounts != [] {
      assert accounts[|accounts| - 1] in accounts;
      NoAccountsYet(accounts[..|accounts| - 1], c);
    }
  }

  /** How one action moves the counts of one credential. */
  lemma StepKeepsSlots(s: State, a: Action, c: nat)
    requires Invariant(s) && Enabled(s, a) && c < |s.credentials|
    ensures SlotsConserved(Apply(s, a), c)
  {
    assert SlotsConserved(s, c);
    hide HoldersOf, Registered, ThumbprintsUnique, InFlight;
    match a
    case AddCredential(_) =>
    case Deactivate(i) => DeactivatedCounts(s.accounts, i, c);
    case Reserve(pid, d, thumbprint) =>
      HolderAdded(s.pending, pid, Pending(d, thumbprint, false, false), c, false);
      HolderAdded(s.pending, pid, Pending(d, thumbprint, false, false), c, true);
    case ReserveUnseen(_) =>
    case Insert(pid) => InsertKeepsSlots(s, a, pid, c);
    case InsertUnseen(pid) => InsertKeepsSlots(s, a, pid, c);
    case InsertFails(pid) =>
      var p := s.pending[pid].(failed := true);
      HolderRemoved(s.pending, pid, c, false);
      HolderRemoved(s.pending, pid, c, true);
      HolderReplaced(s.pending, pid, p, c, false);
      HolderReplaced(s.pending, pid, p, c, true);
    case Release(pid) =>
      HolderRemoved(s.pending, pid, c, false);
      HolderRemoved(s.pending, pid, c, true);
    case ReleaseFails(pid) =>
      HolderRemoved(s.pending, pid, c, false);
      HolderRemoved(s.pending, pid, c, true);
    case Crash(pid) =>
      HolderRemoved(s.pending, pid, c, false);
      HolderRemoved(s.pending, pid, c, true);
  }

  lemma InsertKeepsSlots(s: State, a: Action, pid: nat, c: nat)
    requires Invariant(s) && Enabled(s, a) && c < |s.credentials| && (a == Insert(pid) || a == InsertUnseen(pid))
    ensures SlotsConserved(Apply(s, a), c)
  {
    assert SlotsConserved(s, c);
    hide HoldersOf, Registered, ThumbprintsUnique, InFlight;
    var p := s.pending[pid];
    var more := s.accounts + [AccountOf(p)];
    assert more[..|more| - 1] == s.accounts;
    HolderRemoved(s.pending, pid, c, false);
    HolderRemoved(s.pending, pid, c, true);
    HolderReplaced(s.pending, pid, p.(failed := true), c, false);
    HolderReplaced(s.pending, pid, p.(failed := true), c, true);
    HolderReplaced(s.pending, pid, p.(failed := true, stored := true), c, false);
    HolderReplaced(s.pending, pid, p.(failed := true, stored := true), c, true);
  }

  lemma StepKeepsInvariant(s: State, a: Action)
    requires Invariant(s) && Enabled(s, a)
    ensures Invariant(Apply(s, a))
  {
    hide InFlight, SlotsConserved;
    var t := Apply(s, a);
    forall c | 0 <= c < |t.credentials|
      ensures SlotsConserved(t, c)
    {
      if c < |s.credentials| {
        StepKeepsSlots(s, a, c);
      } else {
        NewCredentialHasSlots(s, a);
      }
    }
  }

  lemma NewCredentialHasSlots(s: State, a: Action)
    requires Invariant(s) && a.AddCredential?
    ensures SlotsConserved(Apply(s, a), |s.credentials|)
  {
    var c := |s.credentials|;
    NoAccountsYet(s.accounts, c);
    assert HoldersOf(s.pending, c, false) == {} && HoldersOf(s.pending, c, true) == {};
  }

  lemma {:induction false} RunKeepsInvariant(s: State, acts: seq<Action>)
    requires Invariant(s) && Runs(s, acts)
    ensures Invariant(After(s, acts))
    decreases |acts|
  {
    hide Invariant, Enabled, Apply;
    if acts != [] {
      StepKeepsInvariant(s, acts[0]);
      RunKeepsInvariant(Apply(s, acts[0]), acts[1..]);
    }
  }

  // ---------- what holds in every run ----------

  /**
   * account_count is the accounts created plus the slots in flight plus the slots lost, less those given
   * back although their account exists; the accounts of a credential exceed its cap by at most the latter.
   */
  lemma SlotsInEveryRun(acts: seq<Action>, c: nat)
    requires Runs(EMPTY, acts) && c < |After(EMPTY, acts).credentials|
    ensures var s := After(EMPTY, acts);
            && |s.leaked| == |s.over| == |s.credentials|
            && s.credentials[c].count
              == AccountsOf(s.accounts, c) + InFlight(s.pending, c, false) + s.leaked[c] - s.over[c]
            && (s.credentials[c].max > 0 ==> AccountsOf(s.accounts, c) <= s.credentials[c].max + s.over[c])
            && (s.credentials[c].max < 0 ==> AccountsOf(s.accounts, c) <= s.over[c])
  {
    RunKeepsInvariant(EMPTY, acts);
    assert SlotsConserved(After(EMPTY, acts), c);
  }

  /** One account per key, in every interleaving. */
  lemma OneAccountPerKey(acts: seq<Action>, i: nat, j: nat)
    requires Runs(EMPTY, acts) && i < j < |After(EMPTY, acts).accounts|
    ensures After(EMPTY, acts).accounts[i].thumbprint != After(EMPTY, acts).accounts[j].thumbprint
  {
    hide SlotsConserved;
    RunKeepsInvariant(EMPTY, acts);
  }

  predicate LosesSlot(a: Action) {
    a.Crash? || a.ReleaseFails? || a.ReserveUnseen?
  }

  /** Slots are lost only by crashes and by statements whose failure is reported: without them none is. */
  lemma {:induction false} NoSlotLostWithoutFailure(s: State, acts: seq<Action>, c: nat)
    requires Runs(s, acts) && |s.leaked| == |s.credentials|
    requires forall a :: a in acts ==> !LosesSlot(a)
    requires c < |After(s, acts).leaked|
    ensures After(s, acts).leaked[c] == if c < |s.leaked| then s.leaked[c] else 0
    decreases |acts|
  {
    if acts != [] {
      assert acts[0] in acts;
      assert forall a :: a in acts[1..] ==> a in acts;
      NoSlotLostWithoutFailure(Apply(s, acts[0]), acts[1..], c);
    }
  }

  /** A registration in flight always finds its slot counted, so its release takes exactly one off. */
  lemma ReleaseTakesOneOff(s: State, pid: nat)
    requires Invariant(s) && Enabled(s, Release(pid))
    ensures var c := s.pending[pid].credential;
            Apply(s, Release(pid)).credentials[c].count == s.credentials[c].count - 1
  {
    hide HoldersOf, InFlight;
    var c := s.pending[pid].credential;
    assert SlotsConserved(s, c);
    HolderRemoved(s.pending, pid, c, false);
    HolderRemoved(s.pending, pid, c, true);
  }

  // ---------- when the cap holds ----------

  /** Gives back the slot of an account that exists. */
  predicate GivesBackTwice(s: State, a: Action) {
    a.Release? && a.pid in s.pending && s.pending[a.pid].stored
  }

  predicate Honest(s: State, acts: seq<Action>)
    decreases |acts|
  {
    acts == [] || (Enabled(s, acts[0]) && !GivesBackTwice(s, acts[0]) && Honest(Apply(s, acts[0]), acts[1..]))
  }

  /** Credentials keep their cap; without such releases `over` does not move, and slots stay lost. */
  ghost predicate Continues(s: State, t: State) {
    && |s.credentials| <= |t.credentials| && |s.over| <= |t.over| && |s.leaked| <= |t.leaked|
    && (forall c :: 0 <= c < |s.credentials| ==> t.credentials[c].max == s.credentials[c].max)
    && (forall c :: 0 <= c < |s.over| ==> t.over[c] == s.over[c])
    && (forall c :: 0 <= c < |s.leaked| ==> s.leaked[c] <= t.leaked[c])
  }

  lemma StepContinues(s: State, a: Action)
    requires Enabled(s, a) && !GivesBackTwice(s, a)
    ensures Continues(s, Apply(s, a))
  {
  }

  lemma Transitive(s: State, t: State, u: State)
    requires Continues(s, t) && Continues(t, u)
    ensures Continues(s, u)
  {
    assert forall c :: 0 <= c < |s.credentials| ==> u.credentials[c].max == t.credentials[c].max;
    assert forall c :: 0 <= c < |s.over| ==> u.over[c] == t.over[c];
    assert forall c :: 0 <= c < |s.leaked| ==> t.leaked[c] <= u.leaked[c];
  }

  lemma {:induction false} HonestContinues(s: State, acts: seq<Action>)
    requires Honest(s, acts)
    ensures Runs(s, acts) && Continues(s, After(s, acts))
    decreases |acts|
  {
    hide Enabled, Apply, GivesBackTwice;
    if acts != [] {
      StepContinues(s, acts[0]);
      HonestContinues(Apply(s, acts[0]), acts[1..]);
      Transitive(s, Apply(s, acts[0]), After(s, acts));
    }
  }

  lemma {:induction false} HonestOn(s: State, a: seq<Action>, b: seq<Action>)
    requires Honest(s, a) && Runs(s, a) && Honest(After(s, a), b) && Runs(After(s, a), b)
    ensures Honest(s, a + b) && Runs(s, a + b) && After(s, a + b) == After(After(s, a), b)
    decreases |a|
  {
    hide Enabled, Apply, GivesBackTwice;
    if a == [] {
      assert a + b == b;
    } else {
      assert (a + b)[1..] == a[1..] + b;
      HonestOn(Apply(s, a[0]), a[1..], b);
    }
  }

  /** What the accounts of a credential and its cap say stays as it is. */
  ghost predicate SameAccounts(s: State, t: State, c: nat) {
    && c < |s.credentials| <= |t.credentials| && c < |s.over| <= |t.over| && c < |s.leaked| <= |t.leaked|
    && t.accounts == s.accounts && t.credentials[c].max == s.credentials[c].max
    && t.over[c] == s.over[c] && t.leaked[c] == s.leaked[c]
  }

  function Drop(s: State, pid: nat): seq<Action>
    requires pid in s.pending
  {
    if s.pending[pid].stored then [Crash(pid)]
    else if s.pending[pid].failed then [Release(pid)]
    else [InsertFails(pid), Release(pid)]
  }

  lemma OneHonest(s: State, a: Action)
    requires Enabled(s, a) && !GivesBackTwice(s, a)
    ensures Honest(s, [a]) && Runs(s, [a]) && After(s, [a]) == Apply(s, a)
  {
    assert [a][1..] == [];
  }

  lemma DropOne(s: State, pid: nat, c: nat)
    requires Invariant(s) && pid in s.pending && c < |s.credentials|
    ensures Honest(s, Drop(s, pid)) && Runs(s, Drop(s, pid))
    ensures var t := After(s, Drop(s, pid)); SameAccounts(s, t, c) && t.pending == s.pending - {pid}
  {
    hide SlotsConserved, ThumbprintsUnique, Registered, Honest, Runs, After;
    assert Known(s, pid);
    if s.pending[pid].stored {
      OneHonest(s, Crash(pid));
    } else if s.pending[pid].failed {
      OneHonest(s, Release(pid));
    } else {
      OneHonest(s, InsertFails(pid));
      var u := Apply(s, InsertFails(pid));
      assert u.pending - {pid} == s.pending - {pid};
      OneHonest(u, Release(pid));
      HonestOn(s, [InsertFails(pid)], [Release(pid)]);
      assert [InsertFails(pid)] + [Release(pid)] == Drop(s, pid);
    }
  }

  /** All registrations in flight can come to nothing. */
  lemma {:induction false} Drain(s: State, c: nat) returns (acts: seq<Action>)
    requires Invariant(s) && c < |s.credentials|
    ensures Honest(s, acts) && Runs(s, acts)
    ensures var t := After(s, acts); SameAccounts(s, t, c) && t.pending == map[]
    decreases |s.pending|
  {
    hide Invariant, Honest, Runs, After, SlotsConserved;
    if s.pending == map[] {
      acts := [];
      NothingHappens(s);
      SizesAgree(s);
    } else {
      var pid :| pid in s.pending;
      DropOne(s, pid, c);
      var t := After(s, Drop(s, pid));
      RunKeepsInvariant(s, Drop(s, pid));
      var rest := Drain(t, c);
      HonestOn(s, Drop(s, pid), rest);
      acts := Drop(s, pid) + rest;
    }
  }

  lemma NothingHappens(s: State)
    ensures Honest(s, []) && Runs(s, []) && After(s, []) == s
  {
  }

  function Longest(accounts: seq<Account>): nat {
    if accounts == [] then 0
    else
      var rest := Longest(accounts[1..]);
      if |accounts[0].thumbprint| > rest then |accounts[0].thumbprint| else rest
  }

  lemma {:induction false} LongestBounds(accounts: seq<Account>)
    ensures forall a :: a in accounts ==> |a.thumbprint| <= Longest(accounts)
  {
    if accounts != [] {
      LongestBounds(accounts[1..]);
    }
  }

  function NewThumbprint(accounts: seq<Account>): string {
    seq(Longest(accounts) + 1, _ => 'x')
  }

  /** One more account for a credential with room. */
  lemma RegisterOne(s: State, c: nat) returns (acts: seq<Action>)
    requires Invariant(s) && s.pending == map[] && c < |s.credentials| && HasRoom(s.credentials[c])
    ensures Honest(s, acts) && Runs(s, acts)
    ensures var t := After(s, acts);
            && t.pending == map[] && c < |t.credentials|
            && t.credentials[c] == s.credentials[c].(count := s.credentials[c].count + 1)
            && |t.over| == |s.over| && |t.leaked| == |s.leaked| && t.over == s.over && t.leaked == s.leaked
  {
    hide SlotsConserved, ThumbprintsUnique;
    var thumbprint := NewThumbprint(s.accounts);
    LongestBounds(s.accounts);
    acts := [Reserve(0, c, thumbprint), Insert(0)];
    var u := Apply(s, acts[0]);
    assert acts[1..] == [Insert(0)] && [Insert(0)][1..] == [];
    assert !Registered(u.accounts, thumbprint);
    assert u.pending - {0} == map[];
  }

  /** Registrations go on until the counter is at the cap. */
  lemma {:induction false} FillUp(s: State, c: nat) returns (acts: seq<Action>)
    requires Invariant(s) && s.pending == map[] && c < |s.credentials| && s.credentials[c].max > 0
    ensures Honest(s, acts) && Runs(s, acts)
    ensures var t := After(s, acts);
            && Invariant(t) && t.pending == map[] && c < |t.credentials|
            && t.credentials[c].max == t.credentials[c].count == s.credentials[c].max
            && t.over == s.over && t.leaked == s.leaked
    decreases s.credentials[c].max - s.credentials[c].count
  {
    hide Honest, Runs, After, Apply, Enabled;
    assert SlotsConserved(s, c);
    if s.credentials[c].count == s.credentials[c].max {
      acts := [];
      NothingHappens(s);
    } else {
      var first := RegisterOne(s, c);
      var t := After(s, first);
      RunKeepsInvariant(s, first);
      var rest := FillUp(t, c);
      HonestOn(s, first, rest);
      acts := first + rest;
    }
  }

  lemma AccountsWhenFull(t: State, c: nat)
    requires Invariant(t) && t.pending == map[] && c < |t.credentials| && t.credentials[c].count == t.credentials[c].max
    ensures AccountsOf(t.accounts, c) == t.credentials[c].max + t.over[c] - t.leaked[c]
  {
    assert SlotsConserved(t, c);
    assert HoldersOf(t.pending, c, false) == {};
  }

  lemma CapAfter(t: State, c: nat)
    requires Invariant(t) && c < |t.credentials| && t.credentials[c].max > 0 && t.over[c] <= t.leaked[c]
    ensures AccountsOf(t.accounts, c) <= t.credentials[c].max
  {
    assert SlotsConserved(t, c);
  }

  /** What the tables show between requests: whether more slots were given back twice than were lost. */
  lemma CountTells(s: State, c: nat)
    requires Invariant(s) && c < |s.credentials| == |s.leaked| == |s.over|
    ensures s.over[c] <= s.leaked[c]
       <==> AccountsOf(s.accounts, c) + InFlight(s.pending, c, false) <= s.credentials[c].count
  {
    assert SlotsConserved(s, c);
  }

  /**
   * As long as no further slot is given back twice, the accounts of a credential stay within its cap in
   * every future exactly if account_count is at least the accounts and the registrations that hold a slot
   * without an account row; between requests, exactly if it is at least the number of accounts.
   */
  lemma CapHoldsIff(s: State, c: nat)
    requires Invariant(s) && c < |s.credentials| && s.credentials[c].max > 0
    ensures (forall acts :: Honest(s, acts) ==>
               Runs(s, acts) && AccountsOf(After(s, acts).accounts, c) <= s.credentials[c].max)
       <==> AccountsOf(s.accounts, c) + InFlight(s.pending, c, false) <= s.credentials[c].count
  {
    hide Invariant, Honest, Runs, After, SlotsConserved, AccountsOf;
    SizesAgree(s);
    CountTells(s, c);
    if s.over[c] <= s.leaked[c] {
      forall acts | Honest(s, acts)
        ensures Runs(s, acts) && AccountsOf(After(s, acts).accounts, c) <= s.credentials[c].max
      {
        HonestContinues(s, acts);
        RunKeepsInvariant(s, acts);
        CapAfter(After(s, acts), c);
      }
    } else {
      var drain := Drain(s, c);
      var t := After(s, drain);
      RunKeepsInvariant(s, drain);
      var fill := FillUp(t, c);
      HonestOn(s, drain, fill);
      AccountsWhenFull(After(t, fill), c);
      assert Honest(s, drain + fill);
    }
  }

  ghost predicate NoneTwice(s: State) {
    forall c :: 0 <= c < |s.over| ==> s.over[c] == 0
  }

  lemma {:induction false} HonestStaysAtNone(s: State, acts: seq<Action>)
    requires Honest(s, acts) && NoneTwice(s)
    ensures Runs(s, acts) && NoneTwice(After(s, acts))
    decreases |acts|
  {
    if acts != [] {
      HonestStaysAtNone(Apply(s, acts[0]), acts[1..]);
    }
  }

  /** From the start, the cap holds in every interleaving in which no slot is given back twice. */
  lemma CapHoldsInHonestRuns(acts: seq<Action>, c: nat)
    requires Honest(EMPTY, acts)
    ensures Runs(EMPTY, acts)
    ensures var s := After(EMPTY, acts);
            c < |s.credentials| && s.credentials[c].max > 0 ==> AccountsOf(s.accounts, c) <= s.credentials[c].max
  {
    HonestStaysAtNone(EMPTY, acts);
    RunKeepsInvariant(EMPTY, acts);
    var s := After(EMPTY, acts);
    if c < |s.credentials| && s.credentials[c].max > 0 {
      CapAfter(s, c);
    }
  }

  lemma SizesAgree(s: State)
    requires Invariant(s)
    ensures |s.credentials| == |s.leaked| == |s.over|
  {
  }

  /** A cap of one, and what a read-back that fails leaves of it, step by step. */
  function Overshoot(): seq<Action> {
    [AddCredential(1)] + [Reserve(0, 0, "a")] + [InsertUnseen(0)] + [Release(0)] + [Reserve(1, 0, "b")] + [Insert(1)]
  }

  lemma OneStep(s: State, acts: seq<Action>, a: Action, t: State)
    requires Runs(EMPTY, acts) && After(EMPTY, acts) == s && Enabled(s, a) && Apply(s, a) == t
    ensures Runs(EMPTY, acts + [a]) && After(EMPTY, acts + [a]) == t
  {
    RunSnoc(EMPTY, acts, a);
  }

  lemma {:induction false} RunSnoc(s: State, acts: seq<Action>, a: Action)
    requires Runs(s, acts) && Enabled(After(s, acts), a)
    ensures Runs(s, acts + [a]) && After(s, acts + [a]) == Apply(After(s, acts), a)
    decreases |acts|
  {
    hide Enabled, Apply;
    if acts == [] {
      assert [] + [a] == [a] && [a][1..] == [];
    } else {
      assert (acts + [a])[1..] == acts[1..] + [a];
      RunSnoc(Apply(s, acts[0]), acts[1..], a);
    }
  }

  lemma FirstRegistration()
    ensures var acts := [AddCredential(1)] + [Reserve(0, 0, "a")] + [InsertUnseen(0)] + [Release(0)];
            && Runs(EMPTY, acts)
            && After(EMPTY, acts) == State([Credential(1, 0)], [Account(0, "a", true)], map[], [0], [1])
  {
    hide Runs, After;
    var s1 := State([Credential(1, 0)], [], map[], [0], [0]);
    var s2 := State([Credential(1, 1)], [], map[0 := Pending(0, "a", false, false)], [0], [0]);
    var s3 := State([Credential(1, 1)], [Account(0, "a", true)], map[0 := Pending(0, "a", true, true)], [0], [0]);
    var s4 := State([Credential(1, 0)], [Account(0, "a", true)], map[], [0], [1]);
    NothingHappens(EMPTY);
    OneStep(EMPTY, [], AddCredential(1), s1);
    assert [] + [AddCredential(1)] == [AddCredential(1)];
    OneStep(s1, [AddCredential(1)], Reserve(0, 0, "a"), s2);
    OneStep(s2, [AddCredential(1)] + [Reserve(0, 0, "a")], InsertUnseen(0), s3);
    assert s3.pending - {0} == map[];
    OneStep(s3, [AddCredential(1)] + [Reserve(0, 0, "a")] + [InsertUnseen(0)], Release(0), s4);
  }

  /** No crash, no failed release: the account is stored, reading it back fails, and its slot is given back. */
  lemma ReadBackFailureExceedsCap()
    ensures Runs(EMPTY, Overshoot()) && forall a :: a in Overshoot() ==> !LosesSlot(a)
    ensures var s := After(EMPTY, Overshoot());
            |s.credentials| == 1 && s.credentials[0].max == 1 && AccountsOf(s.accounts, 0) == 2
  {
    hide Runs, After;
    var a, b := Account(0, "a", true), Account(0, "b", true);
    var s4 := State([Credential(1, 0)], [a], map[], [0], [1]);
    var s5 := State([Credential(1, 1)], [a], map[1 := Pending(0, "b", false, false)], [0], [1]);
    var s6 := State([Credential(1, 1)], [a, b], map[], [0], [1]);
    FirstRegistration();
    var acts := [AddCredential(1)] + [Reserve(0, 0, "a")] + [InsertUnseen(0)] + [Release(0)];
    OneStep(s4, acts, Reserve(1, 0, "b"), s5);
    assert "a"[0] != "b"[0];
    assert !Registered(s5.accounts, "b");
    assert s5.pending - {1} == map[];
    OneStep(s5, acts + [Reserve(1, 0, "b")], Insert(1), s6);
    assert [a, b][..1] == [a] && [a][..0] == [];
    assert AccountsOf([a], 0) == 1;
  }

  // ---------- one registration, start to finish ----------

  datatype Registration =
    | Existing | Deactivated | DoesNotExist | Unusable | LimitReached
    | Created | WriteFailed | StoredButFailed

  /** What becomes of writing the account row: stored and read back, refused, or stored and not read back. */
  datatype Write = Stored | Refused | Unseen

  /** The answer to a registration, from the state it finds. */
  ghost function Answer(s: State, c: nat, thumbprint: string, onlyExisting: bool, usable: bool, write: Write):
      Registration
    requires c < |s.credentials|
  {
    if exists a :: a in s.accounts && a.thumbprint == thumbprint && a.active then Existing
    else if Registered(s.accounts, thumbprint) then Deactivated
    else if onlyExisting then DoesNotExist
    else if !usable then Unusable
    else if !HasRoom(s.credentials[c]) then LimitReached
    else match write case Stored => Created case Refused => WriteFailed case Unseen => StoredButFailed
  }

  /** The key has an account that is active, or one that is not. */
  ghost predicate HasAccount(accounts: seq<Account>, thumbprint: string, active: bool) {
    exists i :: 0 <= i < |accounts| && accounts[i].thumbprint == thumbprint && accounts[i].active == active
  }

  /** At most one account has the key, so a known key is answered in exactly one of two ways. */
  lemma AnswerToKnownKey(s: State, c: nat, thumbprint: string, onlyExisting: bool, usable: bool, write: Write)
    requires ThumbprintsUnique(s.accounts) && c < |s.credentials|
    ensures var r := Answer(s, c, thumbprint, onlyExisting, usable, write);
            && (r.Existing? <==> HasAccount(s.accounts, thumbprint, true))
            && (r.Deactivated? <==> HasAccount(s.accounts, thumbprint, false))
            && (Registered(s.accounts, thumbprint) <==>
                  HasAccount(s.accounts, thumbprint, true) || HasAccount(s.accounts, thumbprint, false))
  {
    forall a | a in s.accounts && a.thumbprint == thumbprint
      ensures HasAccount(s.accounts, thumbprint, a.active)
    {
      var i :| 0 <= i < |s.accounts| && s.accounts[i] == a;
    }
    forall i | 0 <= i < |s.accounts| && s.accounts[i].thumbprint == thumbprint
      ensures s.accounts[i] in s.accounts
    {
    }
  }

  /** Once its account is deactivated, a key is told so whatever it asks for. */
  lemma DeactivatedIsTold(s: State, i: nat, c: nat, onlyExisting: bool, usable: bool, write: Write)
    requires Invariant(s) && i < |s.accounts| && c < |s.credentials|
    ensures var t := Apply(s, Deactivate(i));
            && t == s.(accounts := s.accounts[i := s.accounts[i].(active := false)])
            && Answer(t, c, s.accounts[i].thumbprint, onlyExisting, usable, write) == Deactivated
  {
    hide SlotsConserved;
    var t := Apply(s, Deactivate(i));
    StepKeepsInvariant(s, Deactivate(i));
    AnswerToKnownKey(t, c, s.accounts[i].thumbprint, onlyExisting, usable, write);
    assert t.accounts[i].thumbprint == s.accounts[i].thumbprint && !t.accounts[i].active;
  }

  /** A key that is already registered makes the INSERT fail, and the slot goes back. */
  lemma KnownKeyGivesSlotBack(s: State, pid: nat)
    requires Invariant(s) && Enabled(s, Insert(pid)) && Registered(s.accounts, s.pending[pid].thumbprint)
    ensures var t := Apply(s, Insert(pid));
            && t.accounts == s.accounts && Enabled(t, Release(pid))
            && var u, c := Apply(t, Release(pid)), s.pending[pid].credential;
               u.accounts == s.accounts && u.pending == s.pending - {pid}
                 && u.credentials[c].count == s.credentials[c].count - 1
  {
    hide SlotsConserved, ThumbprintsUnique;
    var t := Apply(s, Insert(pid));
    StepKeepsInvariant(s, Insert(pid));
    ReleaseTakesOneOff(t, pid);
    assert t.pending - {pid} == s.pending - {pid};
  }

  class Registrar {
    var state: State

    constructor ()
      ensures state == EMPTY && Idle()
    {
      state := EMPTY;
    }

    /** Between requests: the invariant, and no slot in flight. */
    ghost predicate Idle()
      reads this
    {
      Invariant(state) && state.pending == map[]
    }

    /** The check and the increment are one statement. */
    method ReserveSlot(c: nat) returns (ok: bool)
      requires c < |state.credentials|
      modifies this
      ensures ok == HasRoom(old(state).credentials[c])
      ensures state == old(state).(credentials := old(state).credentials[c := Reserved(old(state).credentials[c])])
      ensures var was := old(state).credentials[c];
              && (ok <==> was.max == 0 || was.count < was.max)
              && state.credentials[c].max == was.max
              && state.credentials[c].count == if ok then was.count + 1 else was.count
    {
      var cred := state.credentials[c];
      ok := cred.max == 0 || cred.count < cred.max;
      if ok {
        state := state.(credentials := state.credentials[c := cred.(count := cred.count + 1)]);
      }
    }

    method ReleaseSlot(c: nat)
      requires c < |state.credentials|
      modifies this
      ensures state == old(state).(credentials := old(state).credentials[c := Released(old(state).credentials[c])])
      ensures state.credentials[c].max == old(state).credentials[c].max
      ensures var was := old(state).credentials[c].count;
              state.credentials[c].count == if was > 0 then was - 1 else was
    {
      var cred := state.credentials[c];
      if cred.count > 0 {
        state := state.(credentials := state.credentials[c := cred.(count := cred.count - 1)]);
      }
    }

    /** GetAcmeAccountByThumbprint. */
    method FindAccount(thumbprint: string) returns (i: Option<nat>)
      ensures i.Some? ==> i.value < |state.accounts| && state.accounts[i.value].thumbprint == thumbprint
      ensures i.None? ==> !Registered(state.accounts, thumbprint)
    {
      for k := 0 to |state.accounts|
        invariant forall j :: 0 <= j < k ==> state.accounts[j].thumbprint != thumbprint
      {
        if state.accounts[k].thumbprint == thumbprint {
          return Some(k);
        }
      }
      return None;
    }

    /**
     * A known key gets its account, or a refusal if it is deactivated, and takes no slot. A new key takes
     * one with its account; if the write reports an error the slot is given back, also when the account
     * was stored.
     */
    method NewAccount(c: nat, thumbprint: string, onlyExisting: bool, usable: bool, write: Write)
        returns (r: Registration)
      requires Idle() && c < |state.credentials|
      modifies this
      ensures Idle()
      ensures r == Answer(old(state), c, thumbprint, onlyExisting, usable, write)
      // the same, answer by answer
      ensures r.Existing? <==> HasAccount(old(state).accounts, thumbprint, true)
      ensures r.Deactivated? <==> HasAccount(old(state).accounts, thumbprint, false)
      ensures !Registered(old(state).accounts, thumbprint) ==>
                var cred := old(state).credentials[c];
                var full := cred.max != 0 && cred.max <= cred.count;
                && (r.DoesNotExist? <==> onlyExisting)
                && (r.Unusable? <==> !onlyExisting && !usable)
                && (r.LimitReached? <==> !onlyExisting && usable && full)
                && (r.Created? <==> !onlyExisting && usable && !full && write.Stored?)
                && (r.WriteFailed? <==> !onlyExisting && usable && !full && write.Refused?)
                && (r.StoredButFailed? <==> !onlyExisting && usable && !full && write.Unseen?)
      ensures r.Created? ==>
                state == old(state).(accounts := old(state).accounts + [Account(c, thumbprint, true)],
                                     credentials := old(state).credentials[c := Reserved(old(state).credentials[c])])
      ensures r.StoredButFailed? ==>
                && c < |old(state).over|
                && state == old(state).(accounts := old(state).accounts + [Account(c, thumbprint, true)],
                                        over := old(state).over[c := old(state).over[c] + 1])
      ensures !r.Created? && !r.StoredButFailed? ==> state == old(state)
    {
      hide HasAccount;
      AnswerToKnownKey(state, c, thumbprint, onlyExisting, usable, write);
      var found := FindAccount(thumbprint);
      if found.Some? {
        OneOfKey(state.accounts, found.value);
        return if state.accounts[found.value].active then Existing else Deactivated;
      }
      if onlyExisting {
        return DoesNotExist;
      }
      if !usable {
        return Unusable;
      }
      ghost var before := state;
      var reserved := ReserveSlot(c);
      if !reserved {
        assert state.credentials == before.credentials;
        return LimitReached;
      }
      SizesAgree(before);
      match write {
        case Stored =>
          state := state.(accounts := state.accounts + [Account(c, thumbprint, true)]);
          StoredAlone(before, c, thumbprint);
          return Created;
        case Refused =>
          RefusedAlone(before, c, thumbprint);
          ReleaseSlot(c);
          assert state.credentials == before.credentials;
          return WriteFailed;
        case Unseen =>
          state := state.(accounts := state.accounts + [Account(c, thumbprint, true)]);
          UnseenAlone(before, c, thumbprint);
          RefusedAlone(before, c, thumbprint);
          ReleaseSlot(c);
          assert state.credentials == before.credentials;
          state := state.(over := state.over[c := state.over[c] + 1]);
          return StoredButFailed;
      }
    }
  }

  lemma OneOfKey(accounts: seq<Account>, i: nat)
    requires ThumbprintsUnique(accounts) && i < |accounts|
    ensures forall a :: a in accounts && a.thumbprint == accounts[i].thumbprint ==> a == accounts[i]
    ensures Registered(accounts, accounts[i].thumbprint)
  {
    assert accounts[i] in accounts;
    forall a | a in accounts && a.thumbprint == accounts[i].thumbprint
      ensures a == accounts[i]
    {
      var k :| 0 <= k < |accounts| && accounts[k] == a;
    }
  }

  /** A registration with no other in flight; what it leaves is what the machine's steps leave. */
  predicate MayRegister(s: State, c: nat, thumbprint: string) {
    s.pending == map[] && c < |s.credentials| == |s.leaked| == |s.over|
    && HasRoom(s.credentials[c]) && !Registered(s.accounts, thumbprint)
  }

  lemma StoredAlone(s: State, c: nat, thumbprint: string)
    requires Invariant(s) && MayRegister(s, c, thumbprint)
    ensures Invariant(s.(accounts := s.accounts + [Account(c, thumbprint, true)],
                         credentials := s.credentials[c := Reserved(s.credentials[c])]))
  {
    hide SlotsConserved, ThumbprintsUnique, Registered, StoredHaveFailed;
    var u := Apply(s, Reserve(0, c, thumbprint));
    StepKeepsInvariant(s, Reserve(0, c, thumbprint));
    StepKeepsInvariant(u, Insert(0));
    assert u.pending - {0} == map[];
  }

  lemma RefusedAlone(s: State, c: nat, thumbprint: string)
    requires Invariant(s) && MayRegister(s, c, thumbprint)
    ensures s.credentials[c := Released(Reserved(s.credentials[c]))] == s.credentials
  {
    assert SlotsConserved(s, c);
  }

  lemma UnseenAlone(s: State, c: nat, thumbprint: string)
    requires Invariant(s) && MayRegister(s, c, thumbprint)
    ensures Invariant(s.(accounts := s.accounts + [Account(c, thumbprint, true)], over := s.over[c := s.over[c] + 1]))
  {
    hide SlotsConserved, ThumbprintsUnique, Registered, StoredHaveFailed;
    var u := Apply(s, Reserve(0, c, thumbprint));
    StepKeepsInvariant(s, Reserve(0, c, thumbprint));
    var v := Apply(u, InsertUnseen(0));
    StepKeepsInvariant(u, InsertUnseen(0));
    StepKeepsInvariant(v, Release(0));
    assert v.pending - {0} == map[];
    RefusedAlone(s, c, thumbprint);
    assert v.credentials[c := Released(v.credentials[c])] == s.credentials;
  }
}

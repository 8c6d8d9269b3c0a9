/** Renewal lineage: the links Renew records and the walk that reads them from either end. */
module RenewalHistory {
  import opened Common

  /** `renewed_from` of each certificate; ids are positions. */
  type Links = seq<Option<nat>>

  /** Bound of each of the two loops. */
  const STEPS: nat := 64

  /** A replacement is stored after the certificate it replaces. */
  ghost predicate Backward(links: Links) {
    forall id :: 0 <= id < |links| && links[id].Some? ==> links[id].value < id
  }

  /** CertificateRenewedFrom: the replacement with the lowest id. */
  function Successor(links: Links, id: nat): Option<nat> {
    SuccessorFrom(links, id, 0)
  }

  function SuccessorFrom(links: Links, id: nat, i: nat): (r: Option<nat>)
    ensures r.Some? ==> i <= r.value < |links| && links[r.value] == Some(id)
    ensures r.Some? ==> forall k :: i <= k < r.value ==> links[k] != Some(id)
    ensures r.None? ==> forall k :: i <= k < |links| ==> links[k] != Some(id)
    decreases |links| - i
  {
    if i >= |links| then None
    else if links[i] == Some(id) then Some(i)
    else SuccessorFrom(links, id, i + 1)
  }

  /** All predecessors, oldest first. */
  function Older(links: Links, id: nat): seq<nat>
    requires Backward(links) && id < |links|
    decreases id
  {
    if links[id].None? then [] else Older(links, links[id].value) + [links[id].value]
  }

  /** First replacement, its first replacement, and so on. */
  function Newer(links: Links, id: nat): seq<nat>
    requires Backward(links) && id < |links|
    decreases |links| - id
  {
    match Successor(links, id)
    case None => []
    case Some(s) => [s] + Newer(links, s)
  }

  function Lineage(links: Links, id: nat): seq<nat>
    requires Backward(links) && id < |links|
  {
    Older(links, id) + [id] + Newer(links, id)
  }

  /** Every adjacent pair is linked; so ids increase strictly and none repeats. */
  ghost predicate Chain(links: Links, ids: seq<nat>) {
    && (forall i :: 0 <= i < |ids| ==> ids[i] < |links|)
    && (forall i :: 0 < i < |ids| ==> links[ids[i]] == Some(ids[i - 1]))
  }

  ghost predicate Increasing(ids: seq<nat>) {
    forall i, j :: 0 <= i < j < |ids| ==> ids[i] < ids[j]
  }

  lemma {:induction false} ChainIncreases(links: Links, ids: seq<nat>)
    requires Backward(links) && Chain(links, ids)
    ensures Increasing(ids)
  {
    if |ids| > 1 {
      ChainIncreases(links, ids[..|ids| - 1]);
      var n := |ids| - 1;
      assert ids[n - 1] < ids[n];
      assert forall i :: 0 <= i < n ==> ids[i] == ids[..n][i] <= ids[n - 1];
    }
  }

  lemma {:induction false} OlderChain(links: Links, id: nat)
    requires Backward(links) && id < |links|
    ensures Chain(links, Older(links, id) + [id])
    ensures links[(Older(links, id) + [id])[0]].None?
    decreases id
  {
    if links[id].Some? {
      OlderChain(links, links[id].value);
    }
  }

  lemma {:induction false} NewerChain(links: Links, id: nat)
    requires Backward(links) && id < |links|
    ensures Chain(links, [id] + Newer(links, id))
    ensures var ids := [id] + Newer(links, id); Successor(links, ids[|ids| - 1]).None?
    decreases |links| - id
  {
    match Successor(links, id) {
      case None =>
      case Some(s) =>
        NewerChain(links, s);
        assert ([id] + Newer(links, id))[1..] == [s] + Newer(links, s);
    }
  }

  lemma LineageChain(links: Links, id: nat)
    requires Backward(links) && id < |links|
    ensures Chain(links, Lineage(links, id)) && Increasing(Lineage(links, id)) && id in Lineage(links, id)
  {
    OlderChain(links, id);
    NewerChain(links, id);
    var a, b := Older(links, id) + [id], Newer(links, id);
    forall i | 0 <= i < |a + b|
      ensures (a + b)[i] < |links|
    {
      if i >= |a| {
        assert ([id] + b)[i - |a| + 1] == (a + b)[i];
      }
    }
    forall i | 0 < i < |a + b|
      ensures links[(a + b)[i]] == Some((a + b)[i - 1])
    {
      if i >= |a| {
        var ids := [id] + b;
        assert ids[i - |a| + 1] == (a + b)[i] && ids[i - |a|] == (a + b)[i - 1];
      }
    }
    ChainIncreases(links, a + b);
    assert (a + b)[|a| - 1] == id;
  }

  lemma WindowChain(links: Links, ids: seq<nat>, lo: nat, hi: nat)
    requires Chain(links, ids) && Increasing(ids) && lo <= hi <= |ids|
    ensures Chain(links, ids[lo..hi]) && Increasing(ids[lo..hi])
  {
    var part := ids[lo..hi];
    forall i | 0 < i < |part|
      ensures links[part[i]] == Some(part[i - 1])
    {
      assert part[i] == ids[lo + i] && part[i - 1] == ids[lo + i - 1];
    }
  }

  /** The lineage is the same seen from a certificate and from its first replacement. */
  lemma SameFromSuccessor(links: Links, id: nat)
    requires Backward(links) && id < |links| && Successor(links, id).Some?
    ensures Lineage(links, Successor(links, id).value) == Lineage(links, id)
  {
    var s := Successor(links, id).value;
    assert Older(links, s) == Older(links, id) + [id];
  }

  /** Every member of a lineage that renewals did not fork reports that same lineage. */
  lemma {:induction false} SameFromEveryMember(links: Links, id: nat, k: nat)
    requires Backward(links) && id < |links| && k < |Lineage(links, id)|
    requires |Older(links, id)| <= k
    ensures Lineage(links, id)[k] < |links| && Lineage(links, Lineage(links, id)[k]) == Lineage(links, id)
    decreases k - |Older(links, id)|
  {
    if k == |Older(links, id)| {
      assert Lineage(links, id)[k] == id;
    } else {
      SameFromSuccessor(links, id);
      SameFromEveryMember(links, Successor(links, id).value, k);
    }
  }

  /** Seen from its predecessor the lineage is the same exactly if this is the predecessor's first replacement. */
  lemma SameFromPredecessorIff(links: Links, id: nat)
    requires Backward(links) && id < |links| && links[id].Some?
    ensures Lineage(links, links[id].value) == Lineage(links, id) <==> Successor(links, links[id].value) == Some(id)
  {
    var p := links[id].value;
    assert Older(links, id) == Older(links, p) + [p];
    var s := Successor(links, p).value;
    var n := |Older(links, p)|;
    assert Lineage(links, p)[n + 1] == s && Lineage(links, id)[n + 1] == id;
    if s == id {
      SameFromSuccessor(links, p);
    }
  }

  class Certificates {
    var links: Links

    constructor ()
      ensures links == [] && Valid()
    {
      links := [];
    }

    ghost predicate Valid()
      reads this
    {
      Backward(links)
    }

    /** Issue stores a certificate without lineage. */
    method Issue() returns (id: nat)
      requires Valid()
      modifies this
      ensures Valid() && id == |old(links)| && links == old(links) + [None]
    {
      id := |links|;
      links := links + [None];
    }

    /** Renew: issue the replacement, then link it. */
    method Renew(was: nat) returns (id: nat)
      requires Valid() && was < |links|
      modifies this
      ensures Valid() && id == |old(links)| && links == old(links) + [Some(was)]
    {
      id := Issue();
      links := links[id := Some(was)];
    }

    /** The two bounded loops: a window of the lineage around the certificate, whole unless cut by a bound. */
    method RenewalHistory(id: nat) returns (chain: seq<nat>)
      requires Valid() && id < |links|
      ensures Chain(links, chain) && Increasing(chain) && id in chain
      ensures var before, after := |Older(links, id)|, |Newer(links, id)|;
              var lo := if before > 64 then before - 64 else 0;
              var hi := before + 1 + if after > 64 then 64 else after;
              chain == Lineage(links, id)[lo..hi]
    {
      hide Chain, Increasing, Older, Lineage;
      var back := WalkBack(id);
      chain := back + [id];
      ghost var ahead := Newer(links, id);
      var next := id;
      var i := 0;
      while i < STEPS
        invariant 0 <= i <= STEPS && 0 <= next < |links|
        invariant i <= |ahead| && chain == back + [id] + ahead[..i] && ahead[i..] == Newer(links, next)
        decreases STEPS - i
      {
        var successor := Successor(links, next);
        if successor.None? {
          break;
        }
        assert ahead[i] == successor.value && ahead[i + 1..] == ahead[i..][1..];
        chain := chain + [successor.value];
        next := successor.value;
        i := i + 1;
      }
      HistoryIsWindow(links, id, |back|, i);
    }

    /** The first loop: the nearest predecessors, oldest first. */
    method WalkBack(id: nat) returns (back: seq<nat>)
      requires Valid() && id < |links|
      ensures var older := Older(links, id);
              && |back| == (if |older| > 64 then 64 else |older|)
              && back == older[|older| - |back|..]
    {
      back := [];
      var cur := id;
      var i := 0;
      while i < STEPS && links[cur].Some?
        invariant 0 <= i <= STEPS && |back| == i && 0 <= cur < |links|
        invariant Older(links, id) == Older(links, cur) + back
      {
        var prev := links[cur].value;
        back := [prev] + back;
        cur := prev;
        i := i + 1;
      }
    }
  }

  lemma HistoryIsWindow(links: Links, id: nat, m: nat, n: nat)
    requires Backward(links) && id < |links| && m <= |Older(links, id)| && n <= |Newer(links, id)|
    ensures var before := |Older(links, id)|;
            var part := Older(links, id)[before - m..] + [id] + Newer(links, id)[..n];
            && |Lineage(links, id)| == before + 1 + |Newer(links, id)|
            && part == Lineage(links, id)[before - m..before + 1 + n]
            && Chain(links, part) && Increasing(part) && id in part
  {
    hide Chain, Increasing, Older, Newer, Backward;
    LineageChain(links, id);
    var before := |Older(links, id)|;
    Window(Older(links, id), id, Newer(links, id), m, n);
    WindowChain(links, Lineage(links, id), before - m, before + 1 + n);
  }

  lemma Window(a: seq<nat>, id: nat, b: seq<nat>, m: nat, n: nat)
    requires m <= |a| && n <= |b|
    ensures (a + [id] + b)[|a| - m..|a| + 1 + n] == a[|a| - m..] + [id] + b[..n]
    ensures id in a[|a| - m..] + [id] + b[..n]
  {
    assert (a[|a| - m..] + [id] + b[..n])[m] == id;
  }
}

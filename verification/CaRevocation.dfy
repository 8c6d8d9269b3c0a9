/** Retiring an authority: the recursive cascade over the CA forest and what it leaves untouched. */
module CaRevocation {
  import opened Common
  import opened CaForest

  /** An end-entity certificate; a certificate on hold is a revoked one. */
  datatype Leaf = Leaf(ca: nat, revoked: bool, reason: int)

  /** The tables a retirement touches; `certs` is in the order of created_at and id. */
  datatype Db = Db(state: State, certs: seq<Leaf>, crl: map<(nat, string), int>)

  /** RevokeCA reads one page of this size. */
  const LIMIT: nat := 10000

  function Serial(r: Row): string {
    if r.cert.Some? then r.cert.value.serial else ""
  }

  function CountOf(certs: seq<Leaf>, ca: nat): nat {
    if certs == [] then 0
    else CountOf(certs[..|certs| - 1], ca) + if certs[|certs| - 1].ca == ca then 1 else 0
  }

  /** The certificate is on the page read for its CA. */
  predicate OnPage(certs: seq<Leaf>, k: nat)
    requires k < |certs|
  {
    CountOf(certs[..k], certs[k].ca) < LIMIT
  }

  function RevokedCount(certs: seq<Leaf>): nat {
    if certs == [] then 0
    else RevokedCount(certs[..|certs| - 1]) + if certs[|certs| - 1].revoked then 1 else 0
  }

  predicate Lists(rows: seq<Row>, x: nat) {
    x < |rows| && rows[x].parent.Some? && rows[x].parent.value < |rows| && rows[rows[x].parent.value].hasKey
  }

  function CrlKey(rows: seq<Row>, x: nat): (nat, string)
    requires Lists(rows, x)
  {
    (rows[x].parent.value, Serial(rows[x]))
  }

  function CrlKeys(rows: seq<Row>, xs: set<nat>): set<(nat, string)> {
    set x | x in xs && Lists(rows, x) :: CrlKey(rows, x)
  }

  function DisabledRows(rows: seq<Row>, xs: set<nat>): seq<Row> {
    seq(|rows|, i requires 0 <= i < |rows| => if i in xs then rows[i].(status := Disabled) else rows[i])
  }

  function RevokedLeaf(c: Leaf, reason: int): Leaf {
    if c.revoked then c else c.(revoked := true, reason := reason)
  }

  function RevokedCerts(certs: seq<Leaf>, cas: set<nat>, reason: int): seq<Leaf> {
    seq(|certs|, k requires 0 <= k < |certs| =>
      if certs[k].ca in cas && OnPage(certs, k) then RevokedLeaf(certs[k], reason) else certs[k])
  }

  function ListedCrl(crl: map<(nat, string), int>, keys: set<(nat, string)>, reason: int): map<(nat, string), int> {
    map key | key in crl.Keys + keys :: if key in keys then reason else crl[key]
  }

  /**
   * The tables after disabling some CAs, revoking the page of some, and listing some on their parents'
   * CRLs; nothing else changes.
   */
  function Retired(db: Db, disabled: set<nat>, revoked: set<nat>, listed: set<nat>, reason: int): Db {
    Db(db.state.(rows := DisabledRows(db.state.rows, disabled)),
       RevokedCerts(db.certs, revoked, reason),
       ListedCrl(db.crl, CrlKeys(db.state.rows, listed), reason))
  }

  // ---------- what that means, table by table ----------

  /** The certificates that come before this one and belong to the same CA. */
  ghost function Earlier(certs: seq<Leaf>, k: nat): set<nat>
    requires k < |certs|
  {
    set j: nat | j < k && certs[j].ca == certs[k].ca
  }

  /**
   * A certificate changes exactly if it belongs to one of these CAs, is among the CA's first 10000, and was
   * not revoked; it keeps its CA and carries the reason. A revoked or held one keeps the reason it had.
   */
  ghost predicate CertsRetired(before: seq<Leaf>, after: seq<Leaf>, cas: set<nat>, reason: int) {
    && |after| == |before|
    && forall k :: 0 <= k < |before| ==>
         after[k] == if before[k].ca in cas && |Earlier(before, k)| < 10000 && !before[k].revoked
                     then Leaf(before[k].ca, true, reason) else before[k]
  }

  /** These rows are disabled and otherwise as they were; the others are as they were. */
  ghost predicate RowsRetired(before: seq<Row>, after: seq<Row>, cas: set<nat>) {
    && |after| == |before|
    && forall x :: 0 <= x < |before| ==>
         var r := before[x];
         after[x] == if x in cas then Row(r.cert, r.parent, Disabled, r.key, r.hasKey, r.stamp) else r
  }

  /** One of these rows, of this serial, has the parent, and goca holds the parent's key. */
  ghost predicate ListedUnder(rows: seq<Row>, cas: set<nat>, parent: nat, serial: string) {
    exists x: nat :: x in cas && x < |rows| && rows[x].parent == Some(parent) && parent < |rows| && rows[parent].hasKey
      && serial == (match rows[x].cert case Some(c) => c.serial case None => "")
  }

  /** An entry is written exactly for each of these rows whose parent can sign a CRL; no other entry moves. */
  ghost predicate CrlRetired(rows: seq<Row>, before: map<(nat, string), int>, after: map<(nat, string), int>,
      cas: set<nat>,
      reason: int) {
    forall parent: nat, serial: string ::
      if ListedUnder(rows, cas, parent, serial) then (parent, serial) in after && after[(parent, serial)] == reason
      else
        && ((parent, serial) in after <==> (parent, serial) in before)
        && ((parent, serial) in before ==> after[(parent, serial)] == before[(parent, serial)])
  }

  ghost predicate RetiredTables(before: Db, after: Db, disabled: set<nat>, revoked: set<nat>, listed: set<nat>,
      reason: int) {
    && RowsRetired(before.state.rows, after.state.rows, disabled)
    && after.state.clock == before.state.clock && after.state.requests == before.state.requests
    && CertsRetired(before.certs, after.certs, revoked, reason)
    && CrlRetired(before.state.rows, before.crl, after.crl, listed, reason)
  }

  lemma {:induction false} CountIsEarlier(certs: seq<Leaf>, ca: nat)
    ensures CountOf(certs, ca) == |set j: nat | j < |certs| && certs[j].ca == ca|
  {
    var mine := set j: nat | j < |certs| && certs[j].ca == ca;
    if certs != [] {
      var n := |certs| - 1;
      CountIsEarlier(certs[..n], ca);
      var rest := set j: nat | j < n && certs[..n][j].ca == ca;
      assert mine == if certs[n].ca == ca then rest + {n} else rest;
    }
  }

  lemma OnPageExact(certs: seq<Leaf>, k: nat)
    requires k < |certs|
    ensures OnPage(certs, k) <==> |Earlier(certs, k)| < 10000
  {
    CountIsEarlier(certs[..k], certs[k].ca);
    assert (set j: nat | j < |certs[..k]| && certs[..k][j].ca == certs[k].ca) == Earlier(certs, k);
  }

  lemma CertsExact(certs: seq<Leaf>, cas: set<nat>, reason: int)
    ensures CertsRetired(certs, RevokedCerts(certs, cas, reason), cas, reason)
  {
    hide OnPage, Earlier;
    forall k | 0 <= k < |certs|
      ensures OnPage(certs, k) <==> |Earlier(certs, k)| < 10000
    {
      OnPageExact(certs, k);
    }
  }

  lemma ListedExact(rows: seq<Row>, cas: set<nat>, parent: nat, serial: string)
    ensures (parent, serial) in CrlKeys(rows, cas) <==> ListedUnder(rows, cas, parent, serial)
  {
    if ListedUnder(rows, cas, parent, serial) {
      var x: nat :| x in cas && x < |rows| && rows[x].parent == Some(parent) && parent < |rows| && rows[parent].hasKey
        && serial == (match rows[x].cert case Some(c) => c.serial case None => "");
      assert Lists(rows, x) && CrlKey(rows, x) == (parent, serial);
    }
  }

  lemma CrlExact(rows: seq<Row>, crl: map<(nat, string), int>, cas: set<nat>, reason: int)
    ensures CrlRetired(rows, crl, ListedCrl(crl, CrlKeys(rows, cas), reason), cas, reason)
  {
    hide CrlKeys, ListedUnder;
    forall parent: nat, serial: string
      ensures (parent, serial) in CrlKeys(rows, cas) <==> ListedUnder(rows, cas, parent, serial)
    {
      ListedExact(rows, cas, parent, serial);
    }
  }

  /** The tables a retirement leaves, entry by entry. */
  lemma RetiredExact(db: Db, disabled: set<nat>, revoked: set<nat>, listed: set<nat>, reason: int)
    ensures RetiredTables(db, Retired(db, disabled, revoked, listed, reason), disabled, revoked, listed, reason)
  {
    hide RevokedCerts, ListedCrl, CrlKeys, CertsRetired, CrlRetired;
    CertsExact(db.certs, revoked, reason);
    CrlExact(db.state.rows, db.crl, listed, reason);
  }

  // ---------- composing effects ----------

  lemma {:induction false} CountOfSame(certs: seq<Leaf>, certs': seq<Leaf>, ca: nat)
    requires |certs| == |certs'| && forall k :: 0 <= k < |certs| ==> certs[k].ca == certs'[k].ca
    ensures CountOf(certs, ca) == CountOf(certs', ca)
  {
    if certs != [] {
      CountOfSame(certs[..|certs| - 1], certs'[..|certs| - 1], ca);
    }
  }

  lemma OnPageSame(certs: seq<Leaf>, certs': seq<Leaf>)
    requires |certs| == |certs'| && forall k :: 0 <= k < |certs| ==> certs[k].ca == certs'[k].ca
    ensures forall k :: 0 <= k < |certs| ==> OnPage(certs, k) == OnPage(certs', k)
  {
    forall k | 0 <= k < |certs|
      ensures OnPage(certs, k) == OnPage(certs', k)
    {
      CountOfSame(certs[..k], certs'[..k], certs[k].ca);
    }
  }

  lemma RevokeTwice(certs: seq<Leaf>, a: set<nat>, b: set<nat>, reason: int)
    ensures RevokedCerts(RevokedCerts(certs, a, reason), b, reason) == RevokedCerts(certs, a + b, reason)
  {
    hide OnPage;
    OnPageSame(certs, RevokedCerts(certs, a, reason));
  }

  lemma ListTwice(crl: map<(nat, string), int>, a: set<(nat, string)>, b: set<(nat, string)>, reason: int)
    ensures ListedCrl(ListedCrl(crl, a, reason), b, reason) == ListedCrl(crl, a + b, reason)
  {
  }

  lemma KeysTogether(rows: seq<Row>, a: set<nat>, b: set<nat>, c: set<nat>)
    ensures CrlKeys(rows, b) + CrlKeys(DisabledRows(rows, a), c) == CrlKeys(rows, b + c)
  {
    var rows' := DisabledRows(rows, a);
    assert forall x :: Lists(rows, x) <==> Lists(rows', x);
    assert forall x :: Lists(rows, x) ==> CrlKey(rows, x) == CrlKey(rows', x);
  }

  lemma DisableTwice(rows: seq<Row>, a: set<nat>, b: set<nat>)
    ensures DisabledRows(DisabledRows(rows, a), b) == DisabledRows(rows, a + b)
  {
  }

  /** Two retirements with one reason add up. */
  lemma RetiredTwice(db: Db, d1: set<nat>, r1: set<nat>, l1: set<nat>, d2: set<nat>, r2: set<nat>, l2: set<nat>,
      reason: int)
    ensures Retired(Retired(db, d1, r1, l1, reason), d2, r2, l2, reason)
      == Retired(db, d1 + d2, r1 + r2, l1 + l2, reason)
  {
    hide RevokedCerts, ListedCrl, CrlKeys, DisabledRows;
    DisableTwice(db.state.rows, d1, d2);
    RevokeTwice(db.certs, r1, r2, reason);
    KeysTogether(db.state.rows, d1, l1, l2);
    ListTwice(db.crl, CrlKeys(db.state.rows, l1), CrlKeys(DisabledRows(db.state.rows, d1), l2), reason);
  }

  lemma RetiredNothing(db: Db, reason: int)
    ensures Retired(db, {}, {}, {}, reason) == db
  {
  }

  /** The certificates of these CAs that a retirement finds on their pages and not yet revoked. */
  ghost function Newly(certs: seq<Leaf>, cas: set<nat>, n: nat): set<nat>
    requires n <= |certs|
  {
    set k: nat | k < n && certs[k].ca in cas && OnPage(certs, k) && !certs[k].revoked
  }

  predicate IsNew(certs: seq<Leaf>, cas: set<nat>, k: nat)
    requires k < |certs|
  {
    certs[k].ca in cas && OnPage(certs, k) && !certs[k].revoked
  }

  lemma NewlyGrows(certs: seq<Leaf>, cas: set<nat>, n: nat)
    requires 0 < n <= |certs|
    ensures |Newly(certs, cas, n)| == |Newly(certs, cas, n - 1)| + if IsNew(certs, cas, n - 1) then 1 else 0
  {
    hide OnPage;
    assert Newly(certs, cas, n) == Newly(certs, cas, n - 1) + if IsNew(certs, cas, n - 1) then {n - 1} else {};
  }

  lemma {:induction false} NewlyCounted(certs: seq<Leaf>, cas: set<nat>, reason: int, n: nat)
    requires n <= |certs|
    ensures RevokedCount(RevokedCerts(certs, cas, reason)[..n]) == RevokedCount(certs[..n]) + |Newly(certs, cas, n)|
  {
    hide OnPage, Newly;
    var after := RevokedCerts(certs, cas, reason);
    if n > 0 {
      NewlyCounted(certs, cas, reason, n - 1);
      NewlyGrows(certs, cas, n);
      assert after[..n][..n - 1] == after[..n - 1] && certs[..n][..n - 1] == certs[..n - 1];
      assert after[n - 1].revoked == (certs[n - 1].revoked || IsNew(certs, cas, n - 1));
    } else {
      NewlyNone(certs, cas);
    }
  }

  lemma NewlyNone(certs: seq<Leaf>, cas: set<nat>)
    ensures Newly(certs, cas, 0) == {}
  {
  }

  /** The reported number is that of the certificates newly revoked. */
  lemma CountIsNewlyRevoked(certs: seq<Leaf>, cas: set<nat>, reason: int)
    ensures RevokedCount(RevokedCerts(certs, cas, reason)) - RevokedCount(certs) == |Newly(certs, cas, |certs|)|
  {
    NewlyCounted(certs, cas, reason, |certs|);
    assert RevokedCerts(certs, cas, reason)[..|certs|] == RevokedCerts(certs, cas, reason);
    assert certs[..|certs|] == certs;
  }

  /** Everything under the retired CAs ends up revoked exactly when what lies beyond the pages already was. */
  lemma AllRevokedIff(certs: seq<Leaf>, cas: set<nat>, reason: int)
    ensures (forall k :: 0 <= k < |certs| && certs[k].ca in cas ==> RevokedCerts(certs, cas, reason)[k].revoked)
       <==> (forall k :: 0 <= k < |certs| && certs[k].ca in cas && !OnPage(certs, k) ==> certs[k].revoked)
  {
    hide OnPage;
    var after := RevokedCerts(certs, cas, reason);
    assert forall k :: 0 <= k < |certs| ==>
      after[k].revoked == (certs[k].revoked || (certs[k].ca in cas && OnPage(certs, k)));
  }

  /** With at most one page per CA nothing lies beyond it. */
  lemma {:induction false} SmallCasFitOnPages(certs: seq<Leaf>, n: nat, ca: nat)
    requires n <= |certs| && CountOf(certs, ca) <= LIMIT
    ensures CountOf(certs[..n], ca) <= CountOf(certs, ca)
    ensures n < |certs| && certs[n].ca == ca ==> OnPage(certs, n)
  {
    if n < |certs| {
      var shorter := certs[..|certs| - 1];
      assert shorter[..n] == certs[..n];
      SmallCasFitOnPages(shorter, n, ca);
    } else {
      assert certs[..n] == certs;
    }
  }

  // ---------- the subtree ----------

  ghost function Sub(rows: seq<Row>, id: nat): set<nat> {
    set x: nat | x < |rows| && OnPath(rows, x, id)
  }

  function Children(rows: seq<Row>, id: nat): seq<nat> {
    ChildrenFrom(rows, id, 0)
  }

  function ChildrenFrom(rows: seq<Row>, id: nat, i: nat): (kids: seq<nat>)
    ensures forall x :: x in kids <==> i <= x < |rows| && rows[x].parent == Some(id)
    ensures forall k :: 0 <= k < |kids| ==> kids[k] < |rows| && rows[kids[k]].parent == Some(id)
    ensures forall a, b :: 0 <= a < b < |kids| ==> kids[a] < kids[b]
    decreases |rows| - i
  {
    if i >= |rows| then []
    else
      var rest := ChildrenFrom(rows, id, i + 1);
      assert forall b :: 0 <= b < |rest| ==> rest[b] in rest;
      if rows[i].parent == Some(id) then [i] + rest else rest
  }

  ghost predicate SameLinks(rows: seq<Row>, rows': seq<Row>) {
    |rows| == |rows'| && forall k :: 0 <= k < |rows| ==> rows[k].(status := Disabled) == rows'[k].(status := Disabled)
  }

  lemma {:induction false} AboveSame(rows: seq<Row>, rows': seq<Row>, id: nat, n: nat)
    requires SameLinks(rows, rows')
    ensures Above(rows, id, n) == Above(rows', id, n)
    decreases n
  {
    if n > 0 && id < |rows| {
      assert rows[id].(status := Disabled).parent == rows'[id].(status := Disabled).parent;
      if rows[id].parent.Some? {
        AboveSame(rows, rows', rows[id].parent.value, n - 1);
      }
    }
  }

  lemma SubSame(rows: seq<Row>, rows': seq<Row>, id: nat)
    requires SameLinks(rows, rows')
    ensures Sub(rows, id) == Sub(rows', id)
  {
    forall x: nat, n: nat
      ensures Above(rows, x, n) == Above(rows', x, n)
    {
      AboveSame(rows, rows', x, n);
    }
  }

  lemma {:induction false} ChildrenSame(rows: seq<Row>, rows': seq<Row>, id: nat, i: nat)
    requires SameLinks(rows, rows')
    ensures ChildrenFrom(rows, id, i) == ChildrenFrom(rows', id, i)
    decreases |rows| - i
  {
    if i < |rows| {
      assert rows[i].(status := Disabled).parent == rows'[i].(status := Disabled).parent;
      ChildrenSame(rows, rows', id, i + 1);
    }
  }

  /** A row other than `id` is below `id` exactly when it is below one of the children. */
  lemma BelowAChild(rows: seq<Row>, x: nat, id: nat)
    requires x < |rows|
    ensures OnPath(rows, x, id) <==> x == id || exists c :: c in Children(rows, id) && OnPath(rows, x, c)
  {
    if OnPath(rows, x, id) && x != id {
      var n: nat :| Above(rows, x, n) == Some(id);
      AboveSplits(rows, x, n - 1, 1);
      var c := Above(rows, x, n - 1).value;
      assert Above(rows, c, 1) == Some(id);
      assert Above(rows, id, 0) == Some(id);
      assert c in Children(rows, id) && OnPath(rows, x, c);
    }
    forall c | c in Children(rows, id) && OnPath(rows, x, c)
      ensures OnPath(rows, x, id)
    {
      var n: nat :| Above(rows, x, n) == Some(c);
      AboveSplits(rows, x, n, 1);
      assert Above(rows, id, 0) == Some(id);
      assert Above(rows, c, 1) == Some(id);
      assert Above(rows, x, n + 1) == Some(id);
    }
    assert Above(rows, id, 0) == Some(id);
  }

  ghost function SubAll(rows: seq<Row>, xs: seq<nat>): set<nat> {
    set x: nat, c | c in xs && x < |rows| && OnPath(rows, x, c) :: x
  }

  lemma SubUnfolds(rows: seq<Row>, id: nat)
    requires id < |rows|
    ensures Sub(rows, id) == {id} + SubAll(rows, Children(rows, id))
  {
    forall x: nat | x < |rows|
      ensures x in Sub(rows, id) <==> x in {id} + SubAll(rows, Children(rows, id))
    {
      BelowAChild(rows, x, id);
    }
  }

  // ---------- preorder ----------

  lemma ChildIsTreelike(rows: seq<Row>, id: nat, c: nat)
    requires Treelike(rows, id) && c < |rows| && rows[c].parent == Some(id)
    ensures Treelike(rows, c)
  {
    forall n: nat | n > 0
      ensures Above(rows, c, n) != Some(c)
    {
      AboveSplits(rows, c, n, 1);
      assert Above(rows, c, 1) == Above(rows, id, 0) == Some(id);
      assert Above(rows, c, n + 1) == Above(rows, id, n);
    }
  }

  /** What bounds the recursion: the subtree of a child is a part of its parent's. */
  lemma ChildIsLower(s: State, id: nat, c: nat)
    requires Treelike(s.rows, id) && c < |s.rows| && s.rows[c].parent == Some(id)
    ensures Treelike(s.rows, c) && |Sub(s.rows, c)| < |Sub(s.rows, id)|
  {
    ChildIsTreelike(s.rows, id, c);
    NotBelowOwnChild(s, id, c);
    assert Above(s.rows, id, 0) == Some(id);
    forall x | x in Sub(s.rows, c)
      ensures x in Sub(s.rows, id)
    {
      assert c in Children(s.rows, id);
      BelowAChild(s.rows, x, id);
    }
    SmallerSet(Sub(s.rows, c), Sub(s.rows, id), id);
  }

  lemma SmallerSet(a: set<nat>, b: set<nat>, x: nat)
    requires a <= b && x in b && x !in a
    ensures |a| < |b|
  {
    assert a <= b - {x};
    Subset(a, b - {x});
  }

  lemma {:induction false} Subset(a: set<nat>, b: set<nat>)
    requires a <= b
    ensures |a| <= |b|
    decreases a
  {
    if x :| x in a {
      Subset(a - {x}, b - {x});
    }
  }

  ghost predicate AreChildren(s: State, id: nat, kids: seq<nat>) {
    forall i :: 0 <= i < |kids| ==> kids[i] < |s.rows| && s.rows[kids[i]].parent == Some(id)
  }

  /** The row, then the preorders of its children. */
  ghost function Preorder(s: State, id: nat): seq<nat>
    requires Treelike(s.rows, id)
    decreases |Sub(s.rows, id)|, 1, 0
  {
    [id] + PreorderAll(s, id, Children(s.rows, id))
  }

  ghost function PreorderAll(s: State, id: nat, kids: seq<nat>): seq<nat>
    requires Treelike(s.rows, id) && AreChildren(s, id, kids)
    decreases |Sub(s.rows, id)|, 0, |kids|
  {
    if kids == [] then []
    else
      assert kids[0] in kids;
      ChildIsLower(s, id, kids[0]);
      Preorder(s, kids[0]) + PreorderAll(s, id, kids[1..])
  }

  lemma NotAboveSibling(s: State, id: nat, c: nat, d: nat, k: nat)
    requires Treelike(s.rows, id) && c < |s.rows| && d < |s.rows| && c != d
    requires s.rows[c].parent == Some(id) && s.rows[d].parent == Some(id)
    ensures Above(s.rows, c, k) != Some(d)
  {
    if k > 0 {
      assert Above(s.rows, c, k) == Above(s.rows, id, k - 1);
      AboveSplits(s.rows, id, k - 1, 1);
      assert Above(s.rows, d, 1) == Above(s.rows, id, 0) == Some(id);
    }
  }

  lemma SiblingsApart(s: State, id: nat, c: nat, d: nat, x: nat)
    requires Treelike(s.rows, id) && c < |s.rows| && d < |s.rows| && c != d
    requires s.rows[c].parent == Some(id) && s.rows[d].parent == Some(id)
    ensures !(OnPath(s.rows, x, c) && OnPath(s.rows, x, d))
  {
    forall m: nat, n: nat | Above(s.rows, x, m) == Some(c)
      ensures Above(s.rows, x, n) != Some(d)
    {
      if m <= n {
        AboveSplits(s.rows, x, m, n - m);
        NotAboveSibling(s, id, c, d, n - m);
      } else {
        AboveSplits(s.rows, x, n, m - n);
        NotAboveSibling(s, id, d, c, m - n);
      }
    }
  }

  lemma NotBelowOwnChild(s: State, id: nat, c: nat)
    requires Treelike(s.rows, id) && c < |s.rows| && s.rows[c].parent == Some(id)
    ensures !OnPath(s.rows, id, c)
  {
    assert Above(s.rows, c, 1) == Above(s.rows, id, 0) == Some(id);
    forall n: nat
      ensures Above(s.rows, id, n) != Some(c)
    {
      AboveSplits(s.rows, id, n, 1);
      assert Above(s.rows, id, n + 1) != Some(id);
    }
  }

  /** The preorder lists the subtree: every row of it once, and no other. */
  lemma {:induction false} PreorderExact(s: State, id: nat)
    requires Treelike(s.rows, id)
    ensures Distinct(Preorder(s, id)) && forall x :: x in Preorder(s, id) <==> x in Sub(s.rows, id)
    decreases |Sub(s.rows, id)|, 1, 0
  {
    var kids := Children(s.rows, id);
    PreorderAllExact(s, id, kids);
    SubUnfolds(s.rows, id);
    forall c | c in kids
      ensures !OnPath(s.rows, id, c)
    {
      NotBelowOwnChild(s, id, c);
    }
    assert id !in PreorderAll(s, id, kids);
  }

  lemma {:induction false} PreorderAllExact(s: State, id: nat, kids: seq<nat>)
    requires Treelike(s.rows, id) && AreChildren(s, id, kids) && Distinct(kids)
    ensures Distinct(PreorderAll(s, id, kids))
    ensures forall x :: x in PreorderAll(s, id, kids) <==> x in SubAll(s.rows, kids)
    decreases |Sub(s.rows, id)|, 0, |kids|
  {
    if kids != [] {
      var c := kids[0];
      assert c in kids;
      ChildIsLower(s, id, c);
      PreorderExact(s, c);
      PreorderAllExact(s, id, kids[1..]);
      var a, b := Preorder(s, c), PreorderAll(s, id, kids[1..]);
      SubAllSplits(s.rows, kids);
      forall x | x in a
        ensures x !in b
      {
        forall d | d in kids[1..]
          ensures !OnPath(s.rows, x, d)
        {
          assert d != c by {
            var i :| 0 <= i < |kids[1..]| && kids[1..][i] == d;
            assert kids[i + 1] == d;
          }
          SiblingsApart(s, id, c, d, x);
        }
      }
      DistinctParts(a, b);
    }
  }

  /** The parent of every row is `id` or comes earlier in the list. */
  ghost predicate ParentsFirst(rows: seq<Row>, id: nat, p: seq<nat>) {
    forall k :: 0 <= k < |p| ==>
      p[k] < |rows| && rows[p[k]].parent.Some? && (rows[p[k]].parent.value == id || rows[p[k]].parent.value in p[..k])
  }

  lemma ParentsFirstOn(rows: seq<Row>, id: nat, a: seq<nat>, b: seq<nat>)
    requires ParentsFirst(rows, id, a) && ParentsFirst(rows, id, b)
    ensures ParentsFirst(rows, id, a + b)
  {
    var p := a + b;
    forall k | 0 <= k < |p|
      ensures p[k] < |rows| && rows[p[k]].parent.Some?
      ensures rows[p[k]].parent.value == id || rows[p[k]].parent.value in p[..k]
    {
      if k < |a| {
        assert p[k] == a[k] && p[..k] == a[..k];
      } else {
        assert p[k] == b[k - |a|] && p[..k] == a + b[..k - |a|];
      }
    }
  }

  /** The row itself comes first, and every other one after its parent. */
  lemma {:induction false} PreorderDescends(s: State, id: nat)
    requires Treelike(s.rows, id)
    ensures Preorder(s, id)[0] == id && ParentsFirst(s.rows, id, Preorder(s, id)[1..])
    decreases |Sub(s.rows, id)|, 1, 0
  {
    PreorderAllDescends(s, id, Children(s.rows, id));
    assert Preorder(s, id)[1..] == PreorderAll(s, id, Children(s.rows, id));
  }

  lemma {:induction false} PreorderAllDescends(s: State, id: nat, kids: seq<nat>)
    requires Treelike(s.rows, id) && AreChildren(s, id, kids)
    ensures ParentsFirst(s.rows, id, PreorderAll(s, id, kids))
    decreases |Sub(s.rows, id)|, 0, |kids|
  {
    hide Sub, Treelike;
    if kids != [] {
      var c := kids[0];
      assert c in kids;
      ChildIsLower(s, id, c);
      PreorderDescends(s, c);
      PreorderAllDescends(s, id, kids[1..]);
      var p := Preorder(s, c);
      forall k | 0 <= k < |p|
        ensures p[k] < |s.rows| && s.rows[p[k]].parent.Some?
        ensures s.rows[p[k]].parent.value == id || s.rows[p[k]].parent.value in p[..k]
      {
        if k > 0 {
          assert p[1..][k - 1] == p[k] && p[..k] == [c] + p[1..][..k - 1];
        }
      }
      ParentsFirstOn(s.rows, id, p, PreorderAll(s, id, kids[1..]));
    }
  }

  lemma DistinctParts(a: seq<nat>, b: seq<nat>)
    requires Distinct(a) && Distinct(b) && forall x :: x in a ==> x !in b
    ensures Distinct(a + b)
  {
    forall i, j | 0 <= i < j < |a + b|
      ensures (a + b)[i] != (a + b)[j]
    {
      if i < |a| <= j {
        assert a[i] in a && b[j - |a|] in b;
      }
    }
  }

  lemma SubAllSplits(rows: seq<Row>, kids: seq<nat>)
    requires kids != []
    ensures SubAll(rows, kids) == Sub(rows, kids[0]) + SubAll(rows, kids[1..])
  {
    assert kids == [kids[0]] + kids[1..];
  }

  // ---------- the operation ----------

  datatype Warning = IssuerKeyMissing | IssuerUnknown | IsRoot

  datatype Outcome = Outcome(certificates: nat, children: seq<nat>, parent: Option<nat>, inParentCrl: bool,
      warning: Option<Warning>)

  lemma {:induction false} RevokingOneCounts(certs: seq<Leaf>, k: nat, reason: int)
    requires k < |certs|
    ensures RevokedCount(certs[k := RevokedLeaf(certs[k], reason)])
         == RevokedCount(certs) + if certs[k].revoked then 0 else 1
  {
    var certs' := certs[k := RevokedLeaf(certs[k], reason)];
    var n := |certs| - 1;
    if k < n {
      assert certs'[..n] == certs[..n][k := RevokedLeaf(certs[k], reason)];
      RevokingOneCounts(certs[..n], k, reason);
    } else {
      assert certs'[..n] == certs[..n];
    }
  }

  lemma DisablingOne(db: Db, id: nat, reason: int)
    requires id < |db.state.rows|
    ensures var rows := db.state.rows;
            db.(state := db.state.(rows := rows[id := rows[id].(status := Disabled)]))
              == Retired(db, {id}, {}, {}, reason)
  {
    assert ListedCrl(db.crl, {}, reason) == db.crl;
    assert RevokedCerts(db.certs, {}, reason) == db.certs;
    assert DisabledRows(db.state.rows, {id}) == db.state.rows[id := db.state.rows[id].(status := Disabled)];
  }

  lemma ListingOne(db: Db, db': Db, id: nat, reason: int)
    requires id < |db.state.rows| && db'.state == db.state && db'.certs == db.certs
    requires db'.crl == if Lists(db.state.rows, id) then db.crl[CrlKey(db.state.rows, id) := reason] else db.crl
    ensures db' == Retired(db, {}, {}, {id}, reason)
  {
    assert RevokedCerts(db.certs, {}, reason) == db.certs;
    assert DisabledRows(db.state.rows, {}) == db.state.rows;
    assert CrlKeys(db.state.rows, {id}) == if Lists(db.state.rows, id) then {CrlKey(db.state.rows, id)} else {};
    assert db'.crl == ListedCrl(db.crl, CrlKeys(db.state.rows, {id}), reason);
  }

  lemma LinksSame(rows: seq<Row>, rows': seq<Row>)
    requires SameLinks(rows, rows')
    ensures forall k :: 0 <= k < |rows| ==> rows'[k].parent == rows[k].parent
  {
    forall k | 0 <= k < |rows|
      ensures rows'[k].parent == rows[k].parent
    {
      assert rows[k].(status := Disabled).parent == rows'[k].(status := Disabled).parent;
    }
  }

  lemma TreelikeSame(rows: seq<Row>, rows': seq<Row>, id: nat)
    requires SameLinks(rows, rows')
    ensures Treelike(rows, id) == Treelike(rows', id)
  {
    forall n: nat
      ensures Above(rows, id, n) == Above(rows', id, n)
    {
      AboveSame(rows, rows', id, n);
    }
  }

  /** A retirement moves no link. */
  lemma RetiredLinks(db: Db, disabled: set<nat>, revoked: set<nat>, listed: set<nat>, reason: int)
    ensures var t := Retired(db, disabled, revoked, listed, reason);
            && SameLinks(db.state.rows, t.state.rows) && |t.state.rows| == |db.state.rows|
            && (ParentsStored(db.state.rows) ==> ParentsStored(t.state.rows))
            && (forall id :: Treelike(db.state.rows, id) ==> Treelike(t.state.rows, id))
  {
    hide Treelike;
    var t := Retired(db, disabled, revoked, listed, reason);
    LinksSame(db.state.rows, t.state.rows);
    forall id | Treelike(db.state.rows, id)
      ensures Treelike(t.state.rows, id)
    {
      TreelikeSame(db.state.rows, t.state.rows, id);
    }
  }

  lemma {:induction false} PreorderSame(s: State, t: State, id: nat)
    requires Treelike(s.rows, id) && Treelike(t.rows, id) && SameLinks(s.rows, t.rows)
    ensures Preorder(s, id) == Preorder(t, id)
    decreases |Sub(s.rows, id)|, 1, 0
  {
    ChildrenSame(s.rows, t.rows, id, 0);
    PreorderAllSame(s, t, id, Children(s.rows, id));
  }

  lemma {:induction false} PreorderAllSame(s: State, t: State, id: nat, kids: seq<nat>)
    requires Treelike(s.rows, id) && Treelike(t.rows, id) && SameLinks(s.rows, t.rows)
    requires AreChildren(s, id, kids) && AreChildren(t, id, kids)
    ensures PreorderAll(s, id, kids) == PreorderAll(t, id, kids)
    decreases |Sub(s.rows, id)|, 0, |kids|
  {
    if kids != [] {
      assert kids[0] in kids;
      ChildIsLower(s, id, kids[0]);
      ChildIsLower(t, id, kids[0]);
      PreorderSame(s, t, kids[0]);
      PreorderAllSame(s, t, id, kids[1..]);
    }
  }

  lemma BelowSame(s: State, t: State, id: nat)
    requires Treelike(s.rows, id) && Treelike(t.rows, id) && SameLinks(s.rows, t.rows)
    ensures SubAll(s.rows, Children(s.rows, id)) == SubAll(t.rows, Children(t.rows, id))
    ensures Preorder(s, id) == Preorder(t, id)
  {
    PreorderSame(s, t, id);
    ChildrenSame(s.rows, t.rows, id, 0);
    forall x: nat, c: nat
      ensures OnPath(s.rows, x, c) == OnPath(t.rows, x, c)
    {
      forall n: nat
        ensures Above(s.rows, x, n) == Above(t.rows, x, n)
      {
        AboveSame(s.rows, t.rows, x, n);
      }
    }
  }

  lemma AddNames(names: seq<nat>, child: nat, sub: seq<nat>, rest: seq<nat>)
    ensures names + ([child] + sub + rest) == names + [child] + sub + rest
  {
  }

  lemma LoopStarts(db: Db, id: nat, children: seq<nat>, reason: int)
    requires Treelike(db.state.rows, id) && AreChildren(db.state, id, children)
    ensures db == Retired(db, {}, {}, {}, reason) && SubAll(db.state.rows, children[..0]) == {}
    ensures [] + PreorderAll(db.state, id, children[0..]) == PreorderAll(db.state, id, children)
  {
    RetiredNothing(db, reason);
    assert children[..0] == [] && children[0..] == children;
  }

  lemma LoopEnds(s: State, id: nat, names: seq<nat>, rest: seq<nat>)
    requires Treelike(s.rows, id) && rest == []
    ensures names + PreorderAll(s, id, rest) == names
  {
  }

  lemma PreorderIs(s: State, id: nat)
    requires Treelike(s.rows, id)
    ensures Preorder(s, id)[1..] == PreorderAll(s, id, Children(s.rows, id))
  {
  }

  /** What the loop over the children needs to know about the next one. */
  lemma NextChild(before: Db, mid: Db, id: nat, children: seq<nat>, i: nat)
    requires Treelike(before.state.rows, id) && Treelike(mid.state.rows, id)
    requires SameLinks(before.state.rows, mid.state.rows)
    requires AreChildren(before.state, id, children) && i < |children|
    ensures var child := children[i];
            && Treelike(before.state.rows, child) && Treelike(mid.state.rows, child)
            && |Sub(mid.state.rows, child)| < |Sub(before.state.rows, id)|
            && Sub(mid.state.rows, child) == Sub(before.state.rows, child)
            && Preorder(mid.state, child) == Preorder(before.state, child)
              == [child] + Preorder(before.state, child)[1..]
            && PreorderAll(before.state, id, children[i..])
               == Preorder(before.state, child) + PreorderAll(before.state, id, children[i + 1..])
            && SubAll(before.state.rows, children[..i + 1])
              == SubAll(before.state.rows, children[..i]) + Sub(before.state.rows, child)
  {
    var child := children[i];
    assert child in children;
    ChildIsLower(before.state, id, child);
    assert before.state.rows[child].(status := Disabled) == mid.state.rows[child].(status := Disabled);
    TreelikeSame(before.state.rows, mid.state.rows, child);
    SubSame(before.state.rows, mid.state.rows, child);
    PreorderSame(before.state, mid.state, child);
    assert children[i..][0] == child && children[i..][1..] == children[i + 1..];
    assert children[..i + 1] == children[..i] + [child];
  }

  predicate IsRootRow(r: Row) {
    r.cert.Some? && SelfSigned(r.cert.value)
  }

  /** What relying parties must be told when the parent's CRL cannot say it. */
  function WarningFor(rows: seq<Row>, id: nat): Option<Warning>
    requires id < |rows|
  {
    if Lists(rows, id) then None
    else if rows[id].parent.Some? then Some(IssuerKeyMissing)
    else if IsRootRow(rows[id]) then Some(IsRoot)
    else Some(IssuerUnknown)
  }

  /** The warning, case by case; a root is a row without a parent whose certificate signed itself. */
  lemma WarningTells(rows: seq<Row>, id: nat)
    requires ParentsStored(rows) && id < |rows|
    ensures var w, r := WarningFor(rows, id), rows[id];
            var root := r.cert.Some? && r.cert.value.subject == r.cert.value.issuer && r.cert.value.isCa
                        && r.cert.value.certSign && r.cert.value.signer == r.cert.value.key;
            && (w == None <==> r.parent.Some? && rows[r.parent.value].hasKey)
            && (w == Some(IssuerKeyMissing) <==> r.parent.Some? && !rows[r.parent.value].hasKey)
            && (w == Some(IsRoot) <==> r.parent.None? && root)
            && (w == Some(IssuerUnknown) <==> r.parent.None? && !root)
  {
  }

  lemma LinksOfRow(before: Db, after: Db, id: nat)
    requires SameLinks(before.state.rows, after.state.rows) && id < |before.state.rows|
    ensures Lists(after.state.rows, id) == Lists(before.state.rows, id)
    ensures WarningFor(after.state.rows, id) == WarningFor(before.state.rows, id)
    ensures after.state.rows[id].parent == before.state.rows[id].parent
  {
    var rows, rows' := before.state.rows, after.state.rows;
    assert rows[id].(status := Disabled) == rows'[id].(status := Disabled);
    if rows[id].parent.Some? && rows[id].parent.value < |rows| {
      var p := rows[id].parent.value;
      assert rows[p].(status := Disabled) == rows'[p].(status := Disabled);
    }
  }

  /** Each retired CA stays disabled, until it is activated by hand, exactly if nobody is completing it. */
  lemma RetiredStaysIff(db: Db, cas: set<nat>, reason: int, x: nat)
    requires x in cas && x < |db.state.rows|
    ensures var s := Retired(db, cas, cas, cas, reason).state;
            (forall acts :: Runs(s, acts) && NeverActivated(acts, x) ==> IsDisabled(After(s, acts), x))
            <==> !BeingCompleted(db.state, x)
  {
    hide Runs, After, NeverActivated, RevokedCerts, ListedCrl, CrlKeys;
    DisabledStaysIff(Retired(db, cas, cas, cas, reason).state, x);
  }

  class Authorities {
    var db: Db

    ghost predicate Valid()
      reads this
    {
      ParentsStored(db.state.rows)
    }

    /** SearchCertificates for one CA: the first LIMIT of its certificates, as row numbers. */
    method Page(ca: nat) returns (page: seq<nat>)
      ensures forall k: nat :: k in page <==> k < |db.certs| && db.certs[k].ca == ca && OnPage(db.certs, k)
      ensures Distinct(page)
    {
      page := [];
      var found := 0;
      for k := 0 to |db.certs|
        invariant found == CountOf(db.certs[..k], ca)
        invariant forall j: nat :: j in page <==> j < k && db.certs[j].ca == ca && OnPage(db.certs, j)
        invariant Distinct(page)
      {
        assert db.certs[..k + 1][..k] == db.certs[..k] && db.certs[..k + 1][k] == db.certs[k];
        if db.certs[k].ca == ca {
          if found < LIMIT {
            page := page + [k];
          }
          found := found + 1;
        }
      }
    }

    /** The loop over the page: held certificates count as revoked and are skipped. */
    method RevokePage(ca: nat, reason: int) returns (count: nat)
      modifies this
      ensures db == Retired(old(db), {}, {ca}, {}, reason)
      ensures RetiredTables(old(db), db, {}, {ca}, {}, reason)
      ensures count == RevokedCount(db.certs) - RevokedCount(old(db).certs)
    {
      ghost var before := db;
      var page := Page(ca);
      count := 0;
      for i := 0 to |page|
        invariant db.state == before.state && db.crl == before.crl && |db.certs| == |before.certs|
        invariant forall k :: 0 <= k < |db.certs| ==>
                    db.certs[k] == if k in page[..i] then RevokedLeaf(before.certs[k], reason) else before.certs[k]
        invariant count == RevokedCount(db.certs) - RevokedCount(before.certs)
      {
        var k := page[i];
        assert k in page && k !in page[..i];
        RevokingOneCounts(db.certs, k, reason);
        if !db.certs[k].revoked {
          db := db.(certs := db.certs[k := db.certs[k].(revoked := true, reason := reason)]);
          count := count + 1;
        } else {
          assert db.certs[k := db.certs[k]] == db.certs;
        }
        assert page[..i + 1] == page[..i] + [k];
      }
      assert page[..|page|] == page;
      RetiredPage(before, db, ca, reason);
      RetiredExact(before, {}, {ca}, {}, reason);
    }

    /**
     * Disables the CA, with cascade revokes its page of certificates and retires every CA below it, and
     * lists each retired CA on the CRL of its parent, if goca holds that parent's key.
     */
    method RevokeCA(id: nat, reason: int, cascade: bool) returns (out: Outcome)
      requires Valid() && id < |db.state.rows| && (cascade ==> Treelike(db.state.rows, id))
      modifies this
      ensures Valid()
      ensures var cas := if cascade then Sub(old(db).state.rows, id) else {id};
              && db == Retired(old(db), cas, if cascade then cas else {}, cas, reason)
              && RetiredTables(old(db), db, cas, if cascade then cas else {}, cas, reason)
      ensures out.certificates == RevokedCount(db.certs) - RevokedCount(old(db).certs)
      ensures out.children == if cascade then Preorder(old(db).state, id)[1..] else []
      ensures out.parent == old(db).state.rows[id].parent
      ensures out.inParentCrl == Lists(old(db).state.rows, id) && out.warning == WarningFor(old(db).state.rows, id)
      decreases |Sub(db.state.rows, id)|, 1, 0
    {
      hide Retired, PreorderAll, SubAll, ChildrenFrom, ParentsStored, Treelike, SameLinks, Lists, Sub, OnPath,
        RevokedCount,
        WarningFor, IsRootRow, RevokedCerts, DisabledRows, RetiredTables;
      ghost var before := db;
      var c := db.state.rows[id];
      db := db.(state := db.state.(rows := db.state.rows[id := c.(status := Disabled)]));
      DisablingOne(before, id, reason);
      RetiredLinks(before, {id}, {}, {}, reason);
      out := Outcome(0, [], c.parent, false, None);
      ghost var below := if cascade then SubAll(before.state.rows, Children(before.state.rows, id)) else {};
      ghost var leaves := if cascade then {id} + below else {};
      ghost var first := db;
      if cascade {
        SubSame(before.state.rows, db.state.rows, id);
        var n, names := RetireBelow(id, reason);
        out := out.(certificates := n, children := names);
        SubUnfolds(before.state.rows, id);
        BelowSame(before.state, first.state, id);
        RetiredTwice(before, {id}, {}, {}, below, leaves, below, reason);
      }
      assert {id} + {} == {id} && {} + leaves == leaves && {} + below == below;
      assert db == Retired(before, {id} + below, leaves, below, reason);
      ghost var mid := db;
      RetiredLinks(before, {id} + below, leaves, below, reason);
      var listed, warning := ListOnParent(id, reason);
      out := out.(inParentCrl := listed, warning := warning);
      RetiredTwice(before, {id} + below, leaves, below, {}, {}, {id}, reason);
      RetiredLinks(mid, {}, {}, {id}, reason);
      LinksOfRow(before, mid, id);
      RetiredExact(before, {id} + below, leaves, {id} + below, reason);
      assert {id} + below + {} == {id} + below && leaves + {} == leaves && below + {id} == {id} + below;
    }

    /** The cascade: the CA's own certificates, then its children, each with everything below it. */
    method RetireBelow(id: nat, reason: int) returns (n: nat, names: seq<nat>)
      requires Valid() && Treelike(db.state.rows, id)
      modifies this
      ensures Valid()
      ensures var below := SubAll(old(db).state.rows, Children(old(db).state.rows, id));
              && db == Retired(old(db), below, {id} + below, below, reason)
              && RetiredTables(old(db), db, below, {id} + below, below, reason)
      ensures n == RevokedCount(db.certs) - RevokedCount(old(db).certs)
      ensures names == Preorder(old(db).state, id)[1..]
      decreases |Sub(db.state.rows, id)|, 0, 1
    {
      hide Retired, PreorderAll, SubAll, ChildrenFrom, ParentsStored, Treelike, SameLinks, Lists, RevokedCount,
        RevokedCerts,
        DisabledRows, Sub, OnPath, RetiredTables;
      ghost var before := db;
      n := RevokePage(id, reason);
      RetiredLinks(before, {}, {id}, {}, reason);
      SubSame(before.state.rows, db.state.rows, id);
      BelowSame(before.state, db.state, id);
      ghost var paged := db;
      var children := Children(db.state.rows, id);
      var m;
      m, names := RetireChildren(id, children, reason);
      n := n + m;
      ghost var below := SubAll(paged.state.rows, children);
      RetiredTwice(before, {}, {id}, {}, below, below, below, reason);
      assert {} + below == below;
      RetiredExact(before, below, {id} + below, below, reason);
      PreorderIs(paged.state, id);
    }

    /** The loop over the child CAs. */
    method RetireChildren(id: nat, children: seq<nat>, reason: int) returns (n: nat, names: seq<nat>)
      requires Valid() && Treelike(db.state.rows, id) && AreChildren(db.state, id, children)
      modifies this
      ensures Valid()
      ensures var below := SubAll(old(db).state.rows, children);
              db == Retired(old(db), below, below, below, reason)
      ensures n == RevokedCount(db.certs) - RevokedCount(old(db).certs)
      ensures names == PreorderAll(old(db).state, id, children)
      decreases |Sub(db.state.rows, id)|, 0, 0
    {
      hide Retired, PreorderAll, Preorder, SubAll, ParentsStored, Treelike, SameLinks, Lists, RevokedCount,
        RevokedCerts,
        DisabledRows, Sub, OnPath, RetiredTables;
      ghost var before := db;
      ghost var below: set<nat> := {};
      LoopStarts(before, id, children, reason);
      n, names := 0, [];
      var i := 0;
      while i < |children|
        invariant 0 <= i <= |children| && below == SubAll(before.state.rows, children[..i])
        invariant db == Retired(before, below, below, below, reason)
        invariant n == RevokedCount(db.certs) - RevokedCount(before.certs)
        invariant names + PreorderAll(before.state, id, children[i..]) == PreorderAll(before.state, id, children)
      {
        var child := children[i];
        ghost var mid := db;
        RetiredLinks(before, below, below, below, reason);
        NextChild(before, mid, id, children, i);
        var sub := RevokeCA(child, reason, true);
        ghost var region := Sub(before.state.rows, child);
        RetiredTwice(before, below, below, below, region, region, region, reason);
        AddNames(names, child, sub.children, PreorderAll(before.state, id, children[i + 1..]));
        below := below + region;
        names := names + [child] + sub.children;
        n := n + sub.certificates;
        i := i + 1;
      }
      assert children[..i] == children;
      RetiredLinks(before, below, below, below, reason);
      LoopEnds(before.state, id, names, children[i..]);
    }

    /** The end of a retirement: the CRL of the parent. */
    method ListOnParent(id: nat, reason: int) returns (listed: bool, warning: Option<Warning>)
      requires Valid() && id < |db.state.rows|
      modifies this
      ensures db == Retired(old(db), {}, {}, {id}, reason) && db.certs == old(db).certs
      ensures RetiredTables(old(db), db, {}, {}, {id}, reason)
      ensures listed == Lists(old(db).state.rows, id) && warning == WarningFor(old(db).state.rows, id)
    {
      ghost var before := db;
      var c := db.state.rows[id];
      listed, warning := false, None;
      if c.parent.Some? {
        var parent := c.parent.value;
        if db.state.rows[parent].hasKey {
          db := db.(crl := db.crl[(parent, Serial(c)) := reason]);
          listed := true;
        } else {
          warning := Some(IssuerKeyMissing);
        }
      } else if !IsRootRow(c) {
        warning := Some(IssuerUnknown);
      } else {
        warning := Some(IsRoot);
      }
      ListingOne(before, db, id, reason);
      RetiredExact(before, {}, {}, {id}, reason);
    }

    static lemma RetiredPage(before: Db, after: Db, ca: nat, reason: int)
      requires after.state == before.state && after.crl == before.crl && |after.certs| == |before.certs|
      requires forall k :: 0 <= k < |after.certs| ==>
                 after.certs[k] == if before.certs[k].ca == ca && OnPage(before.certs, k)
                                   then RevokedLeaf(before.certs[k], reason) else before.certs[k]
      ensures after == Retired(before, {}, {ca}, {}, reason)
    {
      assert DisabledRows(before.state.rows, {}) == before.state.rows;
      assert ListedCrl(before.crl, {}, reason) == before.crl;
      assert after.certs == RevokedCerts(before.certs, {ca}, reason);
    }
  }
}

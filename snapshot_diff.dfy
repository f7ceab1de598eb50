/** The positional difference of two hierarchies that the snapshot variant's `undo` replays:
  * `findHierarchyDifferences` and `findEmployeeDifferences`. */
module SnapshotDiff {
  import opened OrgTree

  /** One pushed record: an employee and the id of the supervisor to move it back under. */
  datatype Difference = Difference(employeeId: int, previousSupervisorId: int)

  /** Whether the record of the top pair is pushed: ids or child counts differ, or the pair is
    * nested (a supervisor id was passed down). */
  function TopRecorded(c: Org, p: Org, sup: Option<int>): bool {
    c.uniqueId != p.uniqueId || |c.subordinates| != |p.subordinates| || sup.Some?
  }

  /** The records pushed for the pair (`c`, `p`), or `None` when the walk reaches a child of
    * `c` with no child of `p` at the same position and throws. */
  function EmployeeDifferences(c: Org, p: Org, sup: Option<int>): Option<seq<Difference>>
    decreases c, 1
  {
    var top :=
      if TopRecorded(c, p, sup)
      then [Difference(c.uniqueId, if sup.Some? then sup.value else c.uniqueId)]
      else [];
    match SubordinateDifferences(c.subordinates, p.subordinates, p.uniqueId, |c.subordinates|)
    case None => None
    case Some(rest) => Some(top + rest)
  }

  /** The records pushed for the first `n` children of `cs`, each compared with the child of
    * `ps` at its position and tagged with the previous supervisor id `pid`. */
  function SubordinateDifferences(cs: seq<Org>, ps: seq<Org>, pid: int, n: nat): Option<seq<Difference>>
    requires n <= |cs|
    decreases cs, n
  {
    if n == 0 then Some([])
    else
      match SubordinateDifferences(cs, ps, pid, n - 1)
      case None => None
      case Some(front) =>
        if n - 1 >= |ps| then None
        else
          match EmployeeDifferences(cs[n - 1], ps[n - 1], Some(pid))
          case None => None
          case Some(d) => Some(front + d)
  }

  /** Every node of `c` has a node of `p` at the same position. */
  predicate Aligned(c: Org, p: Org)
    decreases c
  {
    |c.subordinates| <= |p.subordinates| &&
    forall i :: 0 <= i < |c.subordinates| ==> Aligned(c.subordinates[i], p.subordinates[i])
  }

  /** The pairs (child id, parent id) of a hierarchy below its top, in pre-order. */
  function ParentPairs(o: Org): seq<Difference>
    decreases o, 1
  {
    ChildPairs(o.subordinates, o.uniqueId, |o.subordinates|)
  }

  function ChildPairs(ks: seq<Org>, pid: int, n: nat): seq<Difference>
    requires n <= |ks|
    decreases ks, n
  {
    if n == 0 then []
    else ChildPairs(ks, pid, n - 1) + [Difference(ks[n - 1].uniqueId, pid)] + ParentPairs(ks[n - 1])
  }

  function EmployeeIds(ds: seq<Difference>): seq<int> {
    seq(|ds|, i requires 0 <= i < |ds| => ds[i].employeeId)
  }

  /** The walk succeeds exactly when `c` is aligned with `p`. */
  lemma {:induction false} DifferencesDefinedIff(c: Org, p: Org, sup: Option<int>)
    ensures EmployeeDifferences(c, p, sup).Some? <==> Aligned(c, p)
    decreases c, 1
  {
    SubordinateDefinedIff(c.subordinates, p.subordinates, p.uniqueId, |c.subordinates|);
  }

  lemma {:induction false} SubordinateDefinedIff(cs: seq<Org>, ps: seq<Org>, pid: int, n: nat)
    requires n <= |cs|
    ensures SubordinateDifferences(cs, ps, pid, n).Some? <==>
      n <= |ps| && forall i :: 0 <= i < n ==> Aligned(cs[i], ps[i])
    decreases cs, n
  {
    if n > 0 {
      SubordinateDefinedIff(cs, ps, pid, n - 1);
      if n - 1 < |ps| {
        DifferencesDefinedIff(cs[n - 1], ps[n - 1], Some(pid));
      }
    }
  }

  /** The records name every node of `c` in pre-order, the top one only when its record
    * is pushed. */
  lemma {:induction false} DifferenceIds(c: Org, p: Org, sup: Option<int>)
    requires EmployeeDifferences(c, p, sup).Some?
    ensures EmployeeIds(EmployeeDifferences(c, p, sup).value) ==
      if TopRecorded(c, p, sup) then OrgIds(c) else OrgIds(c)[1..]
    decreases c, 1
  {
    var n := |c.subordinates|;
    SubordinateIds(c.subordinates, p.subordinates, p.uniqueId, n);
    assert c.subordinates[..n] == c.subordinates;
    var rest := SubordinateDifferences(c.subordinates, p.subordinates, p.uniqueId, n).value;
    var top :=
      if TopRecorded(c, p, sup)
      then [Difference(c.uniqueId, if sup.Some? then sup.value else c.uniqueId)]
      else [];
    assert EmployeeIds(top + rest) == EmployeeIds(top) + EmployeeIds(rest);
  }

  lemma {:induction false} SubordinateIds(cs: seq<Org>, ps: seq<Org>, pid: int, n: nat)
    requires n <= |cs| && SubordinateDifferences(cs, ps, pid, n).Some?
    ensures EmployeeIds(SubordinateDifferences(cs, ps, pid, n).value) == OrgIdsAll(cs[..n])
    decreases cs, n
  {
    if n > 0 {
      SubordinateIds(cs, ps, pid, n - 1);
      DifferenceIds(cs[n - 1], ps[n - 1], Some(pid));
      var front := SubordinateDifferences(cs, ps, pid, n - 1).value;
      var d := EmployeeDifferences(cs[n - 1], ps[n - 1], Some(pid)).value;
      assert SubordinateDifferences(cs, ps, pid, n).value == front + d;
      EmployeeIdsConcat(front, d);
      OrgIdsAllSnoc(cs[..n - 1], cs[n - 1]);
      assert cs[..n] == cs[..n - 1] + [cs[n - 1]];
    }
  }

  lemma {:induction false} EmployeeIdsConcat(a: seq<Difference>, b: seq<Difference>)
    ensures EmployeeIds(a + b) == EmployeeIds(a) + EmployeeIds(b)
  {
  }

  lemma {:induction false} OrgIdsAllSnoc(os: seq<Org>, o: Org)
    ensures OrgIdsAll(os + [o]) == OrgIdsAll(os) + OrgIds(o)
  {
    if os == [] {
      assert [o][1..] == [];
    } else {
      assert (os + [o])[1..] == os[1..] + [o];
      OrgIdsAllSnoc(os[1..], o);
    }
  }

  /** Two equal hierarchies differ in nothing at the top, and every nested node is recorded
    * with the id of its own parent: the records are the parent pairs, in pre-order. */
  lemma {:induction false} SelfDifferences(o: Org)
    ensures EmployeeDifferences(o, o, None) == Some(ParentPairs(o))
  {
    SubordinateSelf(o.subordinates, o.uniqueId, |o.subordinates|);
    assert [] + ChildPairs(o.subordinates, o.uniqueId, |o.subordinates|)
      == ChildPairs(o.subordinates, o.uniqueId, |o.subordinates|);
  }

  lemma {:induction false} NestedSelf(o: Org, sup: int)
    ensures EmployeeDifferences(o, o, Some(sup)) == Some([Difference(o.uniqueId, sup)] + ParentPairs(o))
    decreases o, 1
  {
    SubordinateSelf(o.subordinates, o.uniqueId, |o.subordinates|);
  }

  lemma {:induction false} SubordinateSelf(ks: seq<Org>, pid: int, n: nat)
    requires n <= |ks|
    ensures SubordinateDifferences(ks, ks, pid, n) == Some(ChildPairs(ks, pid, n))
    decreases ks, n
  {
    if n > 0 {
      SubordinateSelf(ks, pid, n - 1);
      NestedSelf(ks[n - 1], pid);
      assert ChildPairs(ks, pid, n - 1) + ([Difference(ks[n - 1].uniqueId, pid)] + ParentPairs(ks[n - 1]))
        == ChildPairs(ks, pid, n);
    }
  }

  /** One more child compared: the walk over the first `n + 1` children extends the walk
    * over the first `n`, and throws when `ps` has no child at position `n`. */
  lemma {:induction false} SubordinateStep(cs: seq<Org>, ps: seq<Org>, pid: int, n: nat, d: seq<Difference>)
    requires n < |cs| && SubordinateDifferences(cs, ps, pid, n) == Some(d)
    ensures n >= |ps| ==> SubordinateDifferences(cs, ps, pid, n + 1) == None
    ensures n < |ps| ==>
      SubordinateDifferences(cs, ps, pid, n + 1) == After(d, EmployeeDifferences(cs[n], ps[n], Some(pid)))
  {
  }

  /** Once the walk over the first `n` children throws, so does the walk over more of them. */
  lemma {:induction false} StaysThrown(cs: seq<Org>, ps: seq<Org>, pid: int, n: nat, m: nat)
    requires n <= m <= |cs| && SubordinateDifferences(cs, ps, pid, n) == None
    ensures SubordinateDifferences(cs, ps, pid, m) == None
    decreases m - n
  {
    if n < m {
      StaysThrown(cs, ps, pid, n, m - 1);
    }
  }

  /** The value at a held node shows that node's id and as many subordinates as its list. */
  lemma {:induction false} TopView(h: Heap, t: Tree)
    requires Represents(h, t)
    ensures Value(h, t).uniqueId == h[t.ref].uniqueId
    ensures |Value(h, t).subordinates| == |h[t.ref].subordinates| == |t.kids|
  {
  }

  /** Child `i` of a held node is held, and its value is the `i`-th subordinate value. */
  lemma {:induction false} ChildView(h: Heap, t: Tree, i: int)
    requires Represents(h, t) && 0 <= i < |t.kids|
    ensures |h[t.ref].subordinates| == |t.kids| && h[t.ref].subordinates[i] == t.kids[i].ref
    ensures Represents(h, t.kids[i]) && Value(h, t).subordinates[i] == Value(h, t.kids[i])
  {
  }

  /** A child of `cs` with no child of `ps` at its position makes the whole walk throw. */
  lemma {:induction false} WalkThrows(cs: seq<Org>, ps: seq<Org>, pid: int, n: nat, d: seq<Difference>)
    requires |ps| <= n < |cs| && SubordinateDifferences(cs, ps, pid, n) == Some(d)
    ensures SubordinateDifferences(cs, ps, pid, |cs|) == None
  {
    SubordinateStep(cs, ps, pid, n, d);
    StaysThrown(cs, ps, pid, n + 1, |cs|);
  }

  /** One iteration of the walk: a throw from child `n` makes the walk throw, and otherwise
    * the records of child `n` extend those pushed so far. */
  lemma {:induction false} WalkStep(cs: seq<Org>, ps: seq<Org>, pid: int, n: nat, d: seq<Difference>,
                 acc0: seq<Difference>, sub: Option<seq<Difference>>)
    requires n < |cs| && n < |ps| && SubordinateDifferences(cs, ps, pid, n) == Some(d)
    requires sub == After(acc0 + d, EmployeeDifferences(cs[n], ps[n], Some(pid)))
    ensures sub.None? ==> SubordinateDifferences(cs, ps, pid, |cs|) == None
    ensures sub.Some? ==> |acc0 + d| <= |sub.value|
    ensures sub.Some? ==>
      (var d' := d + sub.value[|acc0 + d|..];
       SubordinateDifferences(cs, ps, pid, n + 1) == Some(d') && sub.value == acc0 + d')
  {
    SubordinateStep(cs, ps, pid, n, d);
    if sub.None? {
      StaysThrown(cs, ps, pid, n + 1, |cs|);
    } else {
      var e := EmployeeDifferences(cs[n], ps[n], Some(pid)).value;
      assert sub.value[|acc0 + d|..] == e;
    }
  }

  /** `Some(acc + d)` for a result `Some(d)`; a throw stays a throw. */
  function After(acc: seq<Difference>, r: Option<seq<Difference>>): Option<seq<Difference>> {
    match r
    case None => None
    case Some(d) => Some(acc + d)
  }

  /** Walks the hierarchies at `current` and `previous` in lock-step, pushing onto
    * `differences`; the result is what the walk leaves there, or `None` when it throws. */
  method FindEmployeeDifferences(h: Heap, current: Ref, previous: Ref, differences: seq<Difference>,
                                 previousSupervisorId: Option<int>, ghost tc: Tree, ghost tp: Tree)
    returns (r: Option<seq<Difference>>)
    requires Represents(h, tc) && tc.ref == current && Represents(h, tp) && tp.ref == previous
    ensures r == After(differences, EmployeeDifferences(Value(h, tc), Value(h, tp), previousSupervisorId))
    decreases tc, 1
  {
    var cur := h[current];
    var prev := h[previous];
    TopView(h, tc);
    TopView(h, tp);
    var top: seq<Difference> := [];
    if cur.uniqueId != prev.uniqueId || |cur.subordinates| != |prev.subordinates|
       || previousSupervisorId.Some?
    {
      top := [Difference(cur.uniqueId,
        if previousSupervisorId.Some? then previousSupervisorId.value else cur.uniqueId)];
    }
    r := FindSubordinateDifferences(h, current, previous, differences + top, tc, tp);
    ghost var cv := Value(h, tc);
    ghost var pv := Value(h, tp);
    match SubordinateDifferences(cv.subordinates, pv.subordinates, pv.uniqueId, |cv.subordinates|)
    case None =>
    case Some(d) => assert differences + top + d == differences + (top + d);
  }

  /** The loop of `findEmployeeDifferences`: each child of `current` against the child of
    * `previous` at the same position, pushing onto `acc`. */
  method FindSubordinateDifferences(h: Heap, current: Ref, previous: Ref, acc0: seq<Difference>,
                                    ghost tc: Tree, ghost tp: Tree)
    returns (r: Option<seq<Difference>>)
    requires Represents(h, tc) && tc.ref == current && Represents(h, tp) && tp.ref == previous
    ensures var cv := Value(h, tc); var pv := Value(h, tp);
      r == After(acc0, SubordinateDifferences(cv.subordinates, pv.subordinates, pv.uniqueId, |cv.subordinates|))
    decreases tc, 0
  {
    var cur := h[current];
    var prev := h[previous];
    ghost var cv := Value(h, tc);
    ghost var pv := Value(h, tp);
    TopView(h, tc);
    TopView(h, tp);
    var acc := acc0;
    ghost var d: seq<Difference> := [];
    var i := 0;
    while i < |cur.subordinates|
      invariant 0 <= i <= |cur.subordinates|
      invariant SubordinateDifferences(cv.subordinates, pv.subordinates, pv.uniqueId, i) == Some(d)
      invariant acc == acc0 + d
    {
      ChildView(h, tc, i);
      if i >= |prev.subordinates| {
        WalkThrows(cv.subordinates, pv.subordinates, pv.uniqueId, i, d);
        return None;
      }
      ChildView(h, tp, i);
      var sub := FindEmployeeDifferences(h, cur.subordinates[i], prev.subordinates[i], acc,
                                         Some(prev.uniqueId), tc.kids[i], tp.kids[i]);
      WalkStep(cv.subordinates, pv.subordinates, pv.uniqueId, i, d, acc0, sub);
      if sub.None? {
        return None;
      }
      d := d + sub.value[|acc|..];
      acc := sub.value;
      i := i + 1;
    }
    r := Some(acc);
  }

  /** The differences between two hierarchies, starting from an empty list. */
  method FindHierarchyDifferences(h: Heap, current: Ref, previous: Ref, ghost tc: Tree, ghost tp: Tree)
    returns (r: Option<seq<Difference>>)
    requires Represents(h, tc) && tc.ref == current && Represents(h, tp) && tp.ref == previous
    ensures r == EmployeeDifferences(Value(h, tc), Value(h, tp), None)
  {
    r := FindEmployeeDifferences(h, current, previous, [], None, tc, tp);
    match EmployeeDifferences(Value(h, tc), Value(h, tp), None)
    case None =>
    case Some(d) => assert [] + d == d;
  }

  /** Somewhere in `o`, the node with id `supervisorId` has a direct subordinate with id
    * `employeeId`. */
  predicate DirectReport(o: Org, supervisorId: int, employeeId: int)
    decreases o
  {
    || (o.uniqueId == supervisorId &&
        exists i :: 0 <= i < |o.subordinates| && o.subordinates[i].uniqueId == employeeId)
    || exists i :: 0 <= i < |o.subordinates| && DirectReport(o.subordinates[i], supervisorId, employeeId)
  }

  /** Every record of an unchanged hierarchy pairs an employee with its direct supervisor. */
  lemma {:induction false} ParentPairsReport(o: Org)
    ensures forall d :: d in ParentPairs(o) ==> DirectReport(o, d.previousSupervisorId, d.employeeId)
    decreases o, 1
  {
    ChildPairsReport(o.subordinates, o.uniqueId, |o.subordinates|);
  }

  lemma {:induction false} ChildPairsReport(ks: seq<Org>, pid: int, n: nat)
    requires n <= |ks|
    ensures forall d :: d in ChildPairs(ks, pid, n) ==>
      || (d.previousSupervisorId == pid && exists i :: 0 <= i < n && ks[i].uniqueId == d.employeeId)
      || exists i :: 0 <= i < n && DirectReport(ks[i], d.previousSupervisorId, d.employeeId)
    decreases ks, n
  {
    if n > 0 {
      ChildPairsReport(ks, pid, n - 1);
      ParentPairsReport(ks[n - 1]);
    }
  }

  lemma {:induction false} OrgIdsAllConcat(a: seq<Org>, b: seq<Org>)
    ensures OrgIdsAll(a + b) == OrgIdsAll(a) + OrgIdsAll(b)
    decreases |a|
  {
    if a == [] {
      assert a + b == b;
    } else {
      assert (a + b)[1..] == a[1..] + b;
      OrgIdsAllConcat(a[1..], b);
    }
  }

  /** The ids of a sub-hierarchy are a contiguous run of the ids of the whole. */
  lemma {:induction false} SubIds(o: Org, i: int)
    requires 0 <= i < |o.subordinates|
    ensures var lo := 1 + |OrgIdsAll(o.subordinates[..i])|;
      && lo + |OrgIds(o.subordinates[i])| <= |OrgIds(o)|
      && OrgIds(o)[lo..lo + |OrgIds(o.subordinates[i])|] == OrgIds(o.subordinates[i])
  {
    var ks := o.subordinates;
    assert ks == ks[..i] + ([ks[i]] + ks[i + 1..]);
    OrgIdsAllConcat(ks[..i], [ks[i]] + ks[i + 1..]);
    OrgIdsAllConcat([ks[i]], ks[i + 1..]);
    assert [ks[i]][1..] == [];
  }

  lemma {:induction false} NoDupSlice<T>(s: seq<T>, lo: int, hi: int)
    requires NoDup(s) && 0 <= lo <= hi <= |s|
    ensures NoDup(s[lo..hi])
  {
    forall i, j | 0 <= i < j < hi - lo ensures s[lo..hi][i] != s[lo..hi][j] {
      assert s[lo..hi][i] == s[lo + i] && s[lo..hi][j] == s[lo + j];
    }
  }

  /** Both ids of a direct report belong to the hierarchy, and they differ when its ids are
    * unique. */
  lemma {:induction false} ReportIds(o: Org, a: int, b: int)
    requires DirectReport(o, a, b)
    ensures a in OrgIds(o) && b in OrgIds(o)
    ensures NoDup(OrgIds(o)) ==> a != b
    decreases o
  {
    var ks := o.subordinates;
    if o.uniqueId == a && exists i :: 0 <= i < |ks| && ks[i].uniqueId == b {
      var i :| 0 <= i < |ks| && ks[i].uniqueId == b;
      SubIds(o, i);
      var lo := 1 + |OrgIdsAll(ks[..i])|;
      assert OrgIds(o)[lo] == OrgIds(ks[i])[0] == b;
      assert OrgIds(o)[0] == a;
    } else {
      var i :| 0 <= i < |ks| && DirectReport(ks[i], a, b);
      ReportIds(ks[i], a, b);
      SubIds(o, i);
      var lo := 1 + |OrgIdsAll(ks[..i])|;
      var hi := lo + |OrgIds(ks[i])|;
      assert a in OrgIds(o)[lo..hi] && b in OrgIds(o)[lo..hi];
      if NoDup(OrgIds(o)) {
        NoDupSlice(OrgIds(o), lo, hi);
      }
    }
  }

  /** What `undo` replays when both snapshots hold the same hierarchy `o` with unique ids:
    * one record per employee but the top, in pre-order, each naming an id of `o` other than
    * the employee's own as the supervisor to move it under. */
  lemma {:induction false} UndoRecords(o: Org)
    requires NoDup(OrgIds(o))
    ensures EmployeeDifferences(o, o, None).Some?
    ensures var ds := EmployeeDifferences(o, o, None).value;
      && |ds| == |OrgIds(o)| - 1
      && forall k :: 0 <= k < |ds| ==>
        && ds[k].employeeId == OrgIds(o)[k + 1]
        && ds[k].previousSupervisorId in OrgIds(o)
        && ds[k].previousSupervisorId != ds[k].employeeId
  {
    SelfDifferences(o);
    DifferenceIds(o, o, None);
    ParentPairsReport(o);
    var ds := ParentPairs(o);
    assert |EmployeeIds(ds)| == |ds|;
    forall k | 0 <= k < |ds|
      ensures ds[k].employeeId == OrgIds(o)[k + 1]
      ensures ds[k].previousSupervisorId in OrgIds(o) && ds[k].previousSupervisorId != ds[k].employeeId
    {
      assert EmployeeIds(ds)[k] == ds[k].employeeId;
      assert ds[k] in ds;
      ReportIds(o, ds[k].previousSupervisorId, ds[k].employeeId);
    }
  }
}

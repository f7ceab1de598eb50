/** The employee hierarchy that both variants of the org-chart engine work on.
  *
  * Employee objects live in an object store (`Heap`) and refer to their subordinates
  * by reference, so that aliasing, in-place edits and detached nodes are all visible.
  * A ghost `Tree` records the shape of the part of the store reachable from a root;
  * it is what makes the recursive searches terminate, exactly when the reachable
  * part is finite. */
module OrgTree {

  datatype Option<T> = None | Some(value: T)

  /** A reference to an employee object: its key in the store. */
  type Ref = nat

  /** An employee object: `uniqueId`, `name` and the ordered `subordinates` list. */
  datatype Employee = Employee(uniqueId: int, name: string, subordinates: seq<Ref>)

  /** Every employee object allocated so far. */
  type Heap = map<Ref, Employee>

  /** References are allocated densely, so the next fresh one is always `|h|`. */
  ghost predicate Dense(h: Heap) {
    forall r: Ref :: r in h <==> r < |h|
  }

  /** `h'` keeps every object of `h` as it was (it may hold more). */
  ghost predicate Extends(h: Heap, h': Heap) {
    forall r :: r in h ==> r in h' && h'[r] == h[r]
  }

  /** The shape of a hierarchy: the reference of its top node and its sub-hierarchies. */
  datatype Tree = Tree(ref: Ref, kids: seq<Tree>)

  function Roots(ks: seq<Tree>): seq<Ref> {
    seq(|ks|, i requires 0 <= i < |ks| => ks[i].ref)
  }

  /** `t` is the shape of what is reachable from `t.ref` in `h`. */
  ghost predicate Represents(h: Heap, t: Tree)
    decreases t
  {
    && t.ref in h
    && h[t.ref].subordinates == Roots(t.kids)
    && forall i :: 0 <= i < |t.kids| ==> Represents(h, t.kids[i])
  }

  ghost predicate RepresentsAll(h: Heap, ks: seq<Tree>) {
    forall i :: 0 <= i < |ks| ==> Represents(h, ks[i])
  }

  /** The references of a hierarchy, depth first, parents before children, children in order. */
  function PreOrder(t: Tree): seq<Ref>
    decreases t
  {
    [t.ref] + PreOrderAll(t.kids)
  }

  function PreOrderAll(ks: seq<Tree>): seq<Ref>
    decreases ks
  {
    if ks == [] then [] else PreOrder(ks[0]) + PreOrderAll(ks[1..])
  }

  /** The value of a hierarchy: ids, names and child order, without object identity. */
  datatype Org = Org(uniqueId: int, name: string, subordinates: seq<Org>)

  ghost function Value(h: Heap, t: Tree): Org
    requires Represents(h, t)
    decreases t, 1
  {
    Org(h[t.ref].uniqueId, h[t.ref].name, ValueAll(h, t.kids))
  }

  ghost function ValueAll(h: Heap, ks: seq<Tree>): (os: seq<Org>)
    requires RepresentsAll(h, ks)
    ensures |os| == |ks| && forall i :: 0 <= i < |ks| ==> os[i] == Value(h, ks[i])
    decreases ks, 0
  {
    if ks == [] then [] else [Value(h, ks[0])] + ValueAll(h, ks[1..])
  }

  /** The ids of a hierarchy value in pre-order. */
  function OrgIds(o: Org): seq<int>
    decreases o
  {
    [o.uniqueId] + OrgIdsAll(o.subordinates)
  }

  function OrgIdsAll(os: seq<Org>): seq<int>
    decreases os
  {
    if os == [] then [] else OrgIds(os[0]) + OrgIdsAll(os[1..])
  }

  ghost predicate NoDup<T>(s: seq<T>) {
    forall i, j :: 0 <= i < j < |s| ==> s[i] != s[j]
  }

  /** A well-formed hierarchy: finite, reachable as described by `t`, with unique ids
    * (which also makes every node occur once). */
  ghost predicate WellFormed(h: Heap, t: Tree) {
    Represents(h, t) && NoDup(OrgIds(Value(h, t)))
  }

  ghost predicate AllIn(h: Heap, s: seq<Ref>) {
    forall x :: x in s ==> x in h
  }

  /** `h'` holds every object named in `s` exactly as `h` does. */
  ghost predicate SameOn(h: Heap, h': Heap, s: seq<Ref>) {
    forall x :: x in s ==> x in h && x in h' && h'[x] == h[x]
  }

  ghost predicate IdsInjective(h: Heap, s: seq<Ref>)
    requires AllIn(h, s)
  {
    forall x, y :: x in s && y in s && h[x].uniqueId == h[y].uniqueId ==> x == y
  }

  ghost predicate Once(s: seq<Ref>) {
    forall x :: multiset(s)[x] <= 1
  }

  ghost function IdsAlong(h: Heap, s: seq<Ref>): (ids: seq<int>)
    requires AllIn(h, s)
  {
    seq(|s|, k requires 0 <= k < |s| => h[s[k]].uniqueId)
  }

  /** What a search looks for at a node: the node's own id, or a direct subordinate with an id. */
  datatype Probe = IdIs(id: int) | HasSubordinate(id: int)

  ghost predicate Matches(h: Heap, x: Ref, p: Probe) {
    x in h &&
    match p
    case IdIs(id) => h[x].uniqueId == id
    case HasSubordinate(id) =>
      exists i :: 0 <= i < |h[x].subordinates| && h[x].subordinates[i] in h && h[h[x].subordinates[i]].uniqueId == id
  }

  /** Position `k` of `s` holds the first element that matches `p`. */
  ghost predicate FirstAt(h: Heap, s: seq<Ref>, p: Probe, k: int) {
    0 <= k < |s| && Matches(h, s[k], p) && forall j :: 0 <= j < k ==> !Matches(h, s[j], p)
  }

  /** The first element of `s` that matches `p`, if any. */
  ghost function First(h: Heap, s: seq<Ref>, p: Probe): (r: Option<Ref>)
    ensures r.None? <==> forall k :: 0 <= k < |s| ==> !Matches(h, s[k], p)
    ensures r.Some? ==> exists k :: FirstAt(h, s, p, k) && s[k] == r.value
  {
    if s == [] then None
    else if Matches(h, s[0], p) then
      assert FirstAt(h, s, p, 0);
      Some(s[0])
    else
      var r := First(h, s[1..], p);
      if r.Some? then
        var k :| FirstAt(h, s[1..], p, k) && s[1..][k] == r.value;
        assert FirstAt(h, s, p, k + 1) by {
          forall j | 0 <= j < k + 1 ensures !Matches(h, s[j], p) {
            if j > 0 { assert s[j] == s[1..][j - 1]; }
          }
        }
        r
      else
        r
  }

  lemma {:induction false} FirstConcat(h: Heap, a: seq<Ref>, b: seq<Ref>, p: Probe)
    ensures First(h, a + b, p) == if First(h, a, p).Some? then First(h, a, p) else First(h, b, p)
    decreases |a|
  {
    if a != [] {
      assert (a + b)[0] == a[0];
      assert (a + b)[1..] == a[1..] + b;
      FirstConcat(h, a[1..], b, p);
    } else {
      assert a + b == b;
    }
  }

  /** The search of `findEmployee`: the manager itself if its id matches, otherwise the
    * first match found in the subordinates' hierarchies, taken in order. */
  function FindEmployee(h: Heap, manager: Ref, id: int, ghost t: Tree): (r: Option<Ref>)
    requires Represents(h, t) && t.ref == manager
    ensures r == First(h, PreOrder(t), IdIs(id))
    decreases t, 1
  {
    if h[manager].uniqueId == id then Some(manager)
    else
      var r := FindEmployeeAmong(h, h[manager].subordinates, id, t.kids);
      assert PreOrder(t)[1..] == PreOrderAll(t.kids);
      r
  }

  function FindEmployeeAmong(h: Heap, subs: seq<Ref>, id: int, ghost ks: seq<Tree>): (r: Option<Ref>)
    requires subs == Roots(ks) && RepresentsAll(h, ks)
    ensures r == First(h, PreOrderAll(ks), IdIs(id))
    decreases ks, 0
  {
    if subs == [] then None
    else
      var found := FindEmployee(h, subs[0], id, ks[0]);
      FirstConcat(h, PreOrder(ks[0]), PreOrderAll(ks[1..]), IdIs(id));
      if found.Some? then found
      else
        assert subs[1..] == Roots(ks[1..]);
        FindEmployeeAmong(h, subs[1..], id, ks[1..])
  }

  /** The search of `findSupervisor`: the manager itself if one of its direct subordinates
    * has the id, otherwise the first supervisor found in the subordinates' hierarchies. */
  function FindSupervisor(h: Heap, manager: Ref, id: int, ghost t: Tree): (r: Option<Ref>)
    requires Represents(h, t) && t.ref == manager
    ensures r == First(h, PreOrder(t), HasSubordinate(id))
    decreases t, 1
  {
    var subs := h[manager].subordinates;
    assert forall i :: 0 <= i < |subs| ==> subs[i] == t.kids[i].ref && Represents(h, t.kids[i]);
    if exists i | 0 <= i < |subs| :: h[subs[i]].uniqueId == id then Some(manager)
    else
      var r := FindSupervisorAmong(h, subs, id, t.kids);
      assert PreOrder(t)[1..] == PreOrderAll(t.kids);
      r
  }

  function FindSupervisorAmong(h: Heap, subs: seq<Ref>, id: int, ghost ks: seq<Tree>): (r: Option<Ref>)
    requires subs == Roots(ks) && RepresentsAll(h, ks)
    ensures r == First(h, PreOrderAll(ks), HasSubordinate(id))
    decreases ks, 0
  {
    if subs == [] then None
    else
      var found := FindSupervisor(h, subs[0], id, ks[0]);
      FirstConcat(h, PreOrder(ks[0]), PreOrderAll(ks[1..]), HasSubordinate(id));
      if found.Some? then found
      else
        assert subs[1..] == Roots(ks[1..]);
        FindSupervisorAmong(h, subs[1..], id, ks[1..])
  }

  // ---------------------------------------------------------------------------
  // Facts about hierarchies

  lemma {:induction false} PreOrderAllMember(ks: seq<Tree>, x: Ref)
    ensures x in PreOrderAll(ks) <==> exists i :: 0 <= i < |ks| && x in PreOrder(ks[i])
    decreases ks
  {
    if ks != [] {
      PreOrderAllMember(ks[1..], x);
      if x in PreOrderAll(ks[1..]) {
        var i :| 0 <= i < |ks| - 1 && x in PreOrder(ks[1..][i]);
        assert x in PreOrder(ks[i + 1]);
      }
      if exists i :: 0 <= i < |ks| && x in PreOrder(ks[i]) {
        var i :| 0 <= i < |ks| && x in PreOrder(ks[i]);
        if i > 0 { assert ks[1..][i - 1] == ks[i]; }
      }
    }
  }

  lemma {:induction false} KidInPreOrder(t: Tree, i: int, x: Ref)
    requires 0 <= i < |t.kids| && x in PreOrder(t.kids[i])
    ensures x in PreOrder(t) && x in PreOrderAll(t.kids)
  {
    PreOrderAllMember(t.kids, x);
  }

  /** A store that agrees with `h` on every node of `t` holds the same hierarchy. */
  lemma {:induction false} Frame(h: Heap, h': Heap, t: Tree)
    requires Represents(h, t) && SameOn(h, h', PreOrder(t))
    ensures Represents(h', t) && Value(h', t) == Value(h, t)
    decreases t
  {
    forall i | 0 <= i < |t.kids|
      ensures Represents(h', t.kids[i]) && Value(h', t.kids[i]) == Value(h, t.kids[i])
    {
      forall x | x in PreOrder(t.kids[i]) ensures x in PreOrder(t) { KidInPreOrder(t, i, x); }
      Frame(h, h', t.kids[i]);
    }
    assert ValueAll(h', t.kids) == ValueAll(h, t.kids);
  }

  lemma {:induction false} IdsAlongConcat(h: Heap, a: seq<Ref>, b: seq<Ref>)
    requires AllIn(h, a) && AllIn(h, b)
    ensures AllIn(h, a + b) && IdsAlong(h, a + b) == IdsAlong(h, a) + IdsAlong(h, b)
  {
    assert AllIn(h, a + b);
  }

  /** The ids of a hierarchy's value, in pre-order, are the ids of its nodes in pre-order. */
  lemma {:induction false} IdsOfValue(h: Heap, t: Tree)
    requires Represents(h, t)
    ensures AllIn(h, PreOrder(t)) && OrgIds(Value(h, t)) == IdsAlong(h, PreOrder(t))
    decreases t, 1
  {
    IdsOfValueAll(h, t.kids);
    IdsAlongConcat(h, [t.ref], PreOrderAll(t.kids));
  }

  lemma {:induction false} IdsOfValueAll(h: Heap, ks: seq<Tree>)
    requires RepresentsAll(h, ks)
    ensures AllIn(h, PreOrderAll(ks)) && OrgIdsAll(ValueAll(h, ks)) == IdsAlong(h, PreOrderAll(ks))
    decreases ks, 0
  {
    if ks != [] {
      IdsOfValue(h, ks[0]);
      IdsOfValueAll(h, ks[1..]);
      assert ValueAll(h, ks)[1..] == ValueAll(h, ks[1..]);
      IdsAlongConcat(h, PreOrder(ks[0]), PreOrderAll(ks[1..]));
    }
  }

  lemma {:induction false} CountTwo(s: seq<Ref>, i: int, j: int)
    requires 0 <= i < j < |s| && s[i] == s[j]
    ensures multiset(s)[s[i]] >= 2
  {
    assert s == s[..j] + s[j..];
    assert s[i] in multiset(s[..j]);
    assert s[j] in multiset(s[j..]);
  }

  lemma {:induction false} NoDupIdsOnce(h: Heap, s: seq<Ref>)
    requires AllIn(h, s) && NoDup(IdsAlong(h, s))
    ensures Once(s)
    decreases |s|
  {
    if s != [] {
      var rest := s[1..];
      assert s == [s[0]] + rest;
      assert IdsAlong(h, rest) == IdsAlong(h, s)[1..];
      NoDupIdsOnce(h, rest);
      forall k | 0 <= k < |rest| ensures rest[k] != s[0] {
        assert IdsAlong(h, s)[0] != IdsAlong(h, s)[k + 1];
      }
      assert multiset(s) == multiset{s[0]} + multiset(rest);
    }
  }

  /** Unique ids along a sequence of nodes means: no node twice, and no two nodes share an id. */
  lemma {:induction false} NoDupIdsIff(h: Heap, s: seq<Ref>)
    requires AllIn(h, s)
    ensures NoDup(IdsAlong(h, s)) <==> Once(s) && IdsInjective(h, s)
  {
    var ids := IdsAlong(h, s);
    if NoDup(ids) {
      NoDupIdsOnce(h, s);
      forall x, y | x in s && y in s && h[x].uniqueId == h[y].uniqueId ensures x == y {
        var i :| 0 <= i < |s| && s[i] == x;
        var j :| 0 <= j < |s| && s[j] == y;
        assert ids[i] == ids[j];
      }
    }
    if Once(s) && IdsInjective(h, s) {
      forall i, j | 0 <= i < j < |s| ensures ids[i] != ids[j] {
        if ids[i] == ids[j] {
          assert s[i] == s[j];
          CountTwo(s, i, j);
        }
      }
    }
  }

  /** What a well-formed hierarchy guarantees about its nodes. */
  lemma {:induction false} WellFormedIff(h: Heap, t: Tree)
    requires Represents(h, t)
    ensures AllIn(h, PreOrder(t))
    ensures WellFormed(h, t) <==> Once(PreOrder(t)) && IdsInjective(h, PreOrder(t))
  {
    IdsOfValue(h, t);
    NoDupIdsIff(h, PreOrder(t));
  }

  /** A direct subordinate of any node of a hierarchy lies below its top node. */
  lemma {:induction false} ChildInTree(h: Heap, t: Tree, p: Ref, c: Ref)
    requires Represents(h, t) && p in PreOrder(t) && p in h && c in h[p].subordinates
    ensures c in PreOrderAll(t.kids)
    decreases t
  {
    if p == t.ref {
      var i :| 0 <= i < |t.kids| && Roots(t.kids)[i] == c;
      KidInPreOrder(t, i, c);
    } else {
      assert p in PreOrderAll(t.kids);
      PreOrderAllMember(t.kids, p);
      var i :| 0 <= i < |t.kids| && p in PreOrder(t.kids[i]);
      ChildInTree(h, t.kids[i], p, c);
      assert c in PreOrder(t.kids[i]);
      KidInPreOrder(t, i, c);
    }
  }

  /** With unique ids, `findEmployee` from the top finds a node exactly when the hierarchy
    * holds a node with that id, and then it finds that node. */
  lemma {:induction false} FindEmployeeExact(h: Heap, t: Tree, id: int, x: Ref)
    requires WellFormed(h, t)
    ensures FindEmployee(h, t.ref, id, t).None? <==>
      forall y :: y in PreOrder(t) && y in h ==> h[y].uniqueId != id
    ensures FindEmployee(h, t.ref, id, t) == Some(x) <==> x in PreOrder(t) && x in h && h[x].uniqueId == id
  {
    WellFormedIff(h, t);
    var s := PreOrder(t);
    var r := FindEmployee(h, t.ref, id, t);
    if r.None? {
      forall y | y in s ensures h[y].uniqueId != id {
        var k :| 0 <= k < |s| && s[k] == y;
        assert !Matches(h, s[k], IdIs(id));
      }
    }
    if x in s && h[x].uniqueId == id {
      var k :| 0 <= k < |s| && s[k] == x;
      assert Matches(h, s[k], IdIs(id));
    }
  }

  /** With unique ids, no node below the top carries the top node's id. */
  lemma {:induction false} TopIdNotBelow(h: Heap, t: Tree, c: Ref)
    requires WellFormed(h, t) && c in PreOrderAll(t.kids)
    ensures c in h && h[c].uniqueId != h[t.ref].uniqueId
  {
    WellFormedIff(h, t);
    var s := PreOrder(t);
    var below: multiset<Ref> := multiset(PreOrderAll(t.kids));
    var all: multiset<Ref> := multiset(s);
    assert all == multiset{t.ref} + below;
    assert all[t.ref] <= 1;
    assert below[t.ref] == 0;
    assert c != t.ref;
    assert c in s;
  }

  /** With unique ids, `findSupervisor` finds no supervisor for the top node's own id. */
  lemma {:induction false} FindSupervisorOfTop(h: Heap, t: Tree)
    requires WellFormed(h, t)
    ensures FindSupervisor(h, t.ref, h[t.ref].uniqueId, t) == None
  {
    WellFormedIff(h, t);
    var s := PreOrder(t);
    var r := FindSupervisor(h, t.ref, h[t.ref].uniqueId, t);
    if r.Some? {
      var k :| FirstAt(h, s, HasSubordinate(h[t.ref].uniqueId), k) && s[k] == r.value;
      var p := s[k];
      var i :| 0 <= i < |h[p].subordinates| && h[p].subordinates[i] in h &&
        h[h[p].subordinates[i]].uniqueId == h[t.ref].uniqueId;
      var c := h[p].subordinates[i];
      ChildInTree(h, t, p, c);
      TopIdNotBelow(h, t, c);
    }
  }

  /** With unique ids, the supervisor `findSupervisor` returns has, among its direct
    * subordinates, exactly the node `findEmployee` returns for the same id, and that node
    * is not the top of the hierarchy. */
  lemma {:induction false} FindSupervisorHoldsEmployee(h: Heap, t: Tree, id: int)
    requires WellFormed(h, t)
    requires FindSupervisor(h, t.ref, id, t).Some?
    ensures FindEmployee(h, t.ref, id, t).Some?
    ensures var p := FindSupervisor(h, t.ref, id, t).value;
            var e := FindEmployee(h, t.ref, id, t).value;
            && p in PreOrder(t) && p in h && e in PreOrder(t) && e != t.ref
            && e in h[p].subordinates
            && forall c :: c in h[p].subordinates && c in h && h[c].uniqueId == id ==> c == e
  {
    WellFormedIff(h, t);
    var s := PreOrder(t);
    var p := FindSupervisor(h, t.ref, id, t).value;
    var k :| FirstAt(h, s, HasSubordinate(id), k) && s[k] == p;
    var i :| 0 <= i < |h[p].subordinates| && h[p].subordinates[i] in h &&
      h[h[p].subordinates[i]].uniqueId == id;
    var c0 := h[p].subordinates[i];
    ChildInTree(h, t, p, c0);
    assert c0 in s;
    FindEmployeeExact(h, t, id, c0);
    forall c | c in h[p].subordinates && c in h && h[c].uniqueId == id ensures c == c0 {
      ChildInTree(h, t, p, c);
    }
    if c0 == t.ref {
      FindSupervisorOfTop(h, t);
    }
  }

  /** The errors the engine throws, one per message (and the `TypeError` of a missing
    * aligned subordinate in the positional diff). */
  datatype Failure =
    | InvalidEmployeeOrSupervisorId
    | NoActionsToUndo
    | NoActionsToRedo
    | InvalidEmployeeId
    | RedoNotImplemented
    | PreviousSubordinateMissing

  /** How an operation ends: normally, or by throwing. */
  datatype Outcome = Done | Failed(failure: Failure)

  /** Appending a hierarchy appends its top to the tops. */
  lemma {:induction false} RootsSnoc(ks: seq<Tree>, k: Tree)
    ensures Roots(ks + [k]) == Roots(ks) + [k.ref]
  {
    assert forall i :: 0 <= i < |ks| ==> (ks + [k])[i] == ks[i];
  }

  /** The tops of held hierarchies are stored objects. */
  lemma {:induction false} RootsHeld(h: Heap, ks: seq<Tree>)
    requires RepresentsAll(h, ks)
    ensures AllIn(h, Roots(ks))
  {
    forall x | x in Roots(ks) ensures x in h {
      var i :| 0 <= i < |ks| && Roots(ks)[i] == x;
      assert Represents(h, ks[i]);
    }
  }

  /** Taking one copy of `e` out of a list without repeats leaves a list without repeats
    * that holds everything else it held. */
  lemma {:induction false} OnceLess(a: seq<Ref>, c: seq<Ref>, e: Ref)
    requires Once(a) && multiset(c) == multiset(a) - multiset{e}
    ensures Once(c) && forall x :: x != e ==> (x in c <==> x in a)
  {
    forall x ensures multiset(c)[x] <= 1 {
      assert multiset(c)[x] <= multiset(a)[x];
    }
    forall x | x != e ensures x in c <==> x in a {
      assert multiset(c)[x] == multiset(a)[x];
    }
  }

  /** The members of a list that lost at most one copy of `e` (only when `dropped`) from a
    * list where everything occurs once. */
  lemma {:induction false} DropMembers(a: seq<Ref>, c: seq<Ref>, e: Ref, dropped: bool)
    requires Once(a) && multiset(c) == multiset(a) - (if dropped then multiset{e} else multiset{})
    ensures forall x :: x in c <==> x in a && (dropped ==> x != e)
  {
    if dropped {
      OnceLess(a, c, e);
      assert multiset(c)[e] == 0;
    } else {
      forall x ensures x in c <==> x in a {
        assert multiset(c)[x] == multiset(a)[x];
      }
    }
  }

  /** The position of the first object in `s` with id `id`, or -1 when there is none
    * (`findIndex`, and the search loop of the snapshot `move`). */
  function IndexOfId(h: Heap, s: seq<Ref>, id: int): (k: int)
    requires AllIn(h, s)
    ensures -1 <= k < |s|
    ensures k == -1 <==> forall j :: 0 <= j < |s| ==> h[s[j]].uniqueId != id
    ensures k != -1 ==> h[s[k]].uniqueId == id && forall j :: 0 <= j < k ==> h[s[j]].uniqueId != id
  {
    if |s| == 0 then -1
    else if h[s[0]].uniqueId == id then 0
    else
      var k := IndexOfId(h, s[1..], id);
      if k == -1 then -1 else k + 1
  }

  /** Scans `s` from the front for the first object with id `id`. */
  method FindIndex(h: Heap, s: seq<Ref>, id: int) returns (k: int)
    requires AllIn(h, s)
    ensures k == IndexOfId(h, s, id)
  {
    k := -1;
    var i := 0;
    while i < |s|
      invariant 0 <= i <= |s|
      invariant forall j :: 0 <= j < i ==> h[s[j]].uniqueId != id
    {
      if h[s[i]].uniqueId == id {
        k := i;
        return;
      }
      i := i + 1;
    }
  }

  /** Where JavaScript's `splice(start, 1)` starts deleting: a negative start counts from
    * the end, and the result is clamped to `0 .. n`. */
  function SpliceStart(n: nat, start: int): (k: nat)
    ensures k <= n
  {
    if start < 0 then (if n + start < 0 then 0 else n + start)
    else if start > n then n
    else start
  }

  /** `s.splice(start, 1)`: the list without the one element at `SpliceStart`, if any. */
  function SpliceOne<T>(s: seq<T>, start: int): (r: seq<T>)
    ensures var k := SpliceStart(|s|, start);
      && |r| == (if k < |s| then |s| - 1 else |s|)
      && (forall i :: 0 <= i < k && i < |r| ==> r[i] == s[i])
      && (forall i :: k <= i < |r| ==> r[i] == s[i + 1])
  {
    var k := SpliceStart(|s|, start);
    if k < |s| then s[..k] + s[k + 1..] else s
  }

  /** `splice(-1, 1)`, which is what a failed `findIndex` leads to, drops the last element
    * of a non-empty list and leaves an empty one alone. */
  lemma {:induction false} SpliceMinusOne<T>(s: seq<T>)
    ensures |s| > 0 ==> SpliceOne(s, -1) == s[..|s| - 1]
    ensures |s| == 0 ==> SpliceOne(s, -1) == []
  {
  }

  /** A position found by `IndexOfId` is spliced out exactly. */
  lemma {:induction false} SpliceAtIndex<T>(s: seq<T>, k: int)
    requires 0 <= k < |s|
    ensures SpliceOne(s, k) == s[..k] + s[k + 1..]
    ensures |SpliceOne(s, k)| == |s| - 1
    ensures multiset(SpliceOne(s, k)) == multiset(s) - multiset{s[k]}
  {
    assert s == s[..k] + [s[k]] + s[k + 1..];
  }

  /** An id occurs along `s` exactly when some object of `s` carries it. */
  lemma {:induction false} IdsAlongMember(h: Heap, s: seq<Ref>, id: int)
    requires AllIn(h, s)
    ensures id in IdsAlong(h, s) <==> exists x :: x in s && h[x].uniqueId == id
  {
    if exists x :: x in s && h[x].uniqueId == id {
      var x :| x in s && h[x].uniqueId == id;
      var k :| 0 <= k < |s| && s[k] == x;
      assert IdsAlong(h, s)[k] == id;
    }
  }

  /** The store after the list of `x` is replaced by `subs`. */
  function SetSubordinates(h: Heap, x: Ref, subs: seq<Ref>): (h': Heap)
    requires x in h
    ensures h'.Keys == h.Keys
    ensures h'[x].uniqueId == h[x].uniqueId && h'[x].name == h[x].name && h'[x].subordinates == subs
    ensures forall y :: y in h && y != x ==> h'[y] == h[y]
    ensures SameIds(h, h')
  {
    h[x := h[x].(subordinates := subs)]
  }

  /** Replacing a list twice is replacing it once with the second list. */
  lemma {:induction false} SetTwice(h: Heap, x: Ref, a: seq<Ref>, b: seq<Ref>)
    requires x in h
    ensures SetSubordinates(SetSubordinates(h, x, a), x, b) == SetSubordinates(h, x, b)
  {
    assert h[x].(subordinates := a).(subordinates := b) == h[x].(subordinates := b);
  }

  /** The store after `x.subordinates.push(e)`. */
  function Push(h: Heap, x: Ref, e: Ref): (h': Heap)
    requires x in h
    ensures h'.Keys == h.Keys && h'[x].subordinates == h[x].subordinates + [e]
    ensures forall y :: y in h && y != x ==> h'[y] == h[y]
    ensures SameIds(h, h')
  {
    SetSubordinates(h, x, h[x].subordinates + [e])
  }

  /** Ids and names of every object survive any sequence of list edits. */
  ghost predicate SameIds(h: Heap, h': Heap) {
    h'.Keys == h.Keys &&
    forall x :: x in h ==> h'[x].uniqueId == h[x].uniqueId && h'[x].name == h[x].name
  }

  lemma {:induction false} SameIdsTrans(h1: Heap, h2: Heap, h3: Heap)
    requires SameIds(h1, h2) && SameIds(h2, h3)
    ensures SameIds(h1, h3)
  {
  }

  /** Every node below the top of a held hierarchy sits in the list of some node of it. */
  lemma {:induction false} ParentExists(h: Heap, t: Tree, x: Ref)
    requires Represents(h, t) && x in PreOrderAll(t.kids)
    ensures exists p :: p in PreOrder(t) && p in h && x in h[p].subordinates
    decreases t
  {
    PreOrderAllMember(t.kids, x);
    var i :| 0 <= i < |t.kids| && x in PreOrder(t.kids[i]);
    if x == t.kids[i].ref {
      assert Roots(t.kids)[i] == x;
      assert t.ref in PreOrder(t);
    } else {
      ParentExists(h, t.kids[i], x);
      var p :| p in PreOrder(t.kids[i]) && p in h && x in h[p].subordinates;
      KidInPreOrder(t, i, p);
    }
  }

  /** With unique ids, `findSupervisor` finds a supervisor exactly when the id belongs to a
    * node of the hierarchy other than its top. */
  lemma {:induction false} FindSupervisorExact(h: Heap, t: Tree, id: int)
    requires WellFormed(h, t)
    ensures FindSupervisor(h, t.ref, id, t).Some? <==>
      exists x :: x in PreOrder(t) && x in h && h[x].uniqueId == id && x != t.ref
  {
    WellFormedIff(h, t);
    var s := PreOrder(t);
    if FindSupervisor(h, t.ref, id, t).Some? {
      FindSupervisorHoldsEmployee(h, t, id);
      var e := FindEmployee(h, t.ref, id, t).value;
      FindEmployeeExact(h, t, id, e);
    }
    if exists x :: x in s && x in h && h[x].uniqueId == id && x != t.ref {
      var x :| x in s && x in h && h[x].uniqueId == id && x != t.ref;
      assert x in PreOrderAll(t.kids);
      ParentExists(h, t, x);
      var p :| p in s && p in h && x in h[p].subordinates;
      var i :| 0 <= i < |h[p].subordinates| && h[p].subordinates[i] == x;
      var k :| 0 <= k < |s| && s[k] == p;
      assert Matches(h, s[k], HasSubordinate(id));
    }
  }
}

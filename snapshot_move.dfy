/** The edit a successful `move` of the snapshot variant makes to the live hierarchy: the
  * employee leaves its supervisor's list, its own reports are handed to that supervisor,
  * its list is emptied, and it is appended to the target's list. */
module SnapshotMove {
  import opened OrgTree
  import opened TreeEdit

  /** Steps one to three of the edit: `splice` slot `idx` out of the list of `from`, push
    * the reports of the object that was there onto that list, and empty its own list.
    * Slot -1 (no match) changes nothing. */
  function Unlist(h: Heap, from: Ref, idx: int): Heap
    requires from in h && -1 <= idx < |h[from].subordinates|
    requires idx != -1 ==> h[from].subordinates[idx] in h
  {
    if idx == -1 then h
    else
      var subs := h[from].subordinates;
      var moved := subs[idx];
      var h1 := SetSubordinates(h, from, subs[..idx] + subs[idx + 1..]);
      var h2 := SetSubordinates(h1, from, h1[from].subordinates + h1[moved].subordinates);
      SetSubordinates(h2, moved, [])
  }

  /** The whole edit: `Unlist`, then push the employee `e` onto the list of `to`. */
  function Flatten(h: Heap, from: Ref, idx: int, e: Ref, to: Ref): Heap
    requires from in h && to in h && -1 <= idx < |h[from].subordinates|
    requires idx != -1 ==> h[from].subordinates[idx] in h
  {
    Push(Unlist(h, from, idx), to, e)
  }

  /** The shape of the live hierarchy after the edit: child `idx` of `from` is replaced in
    * `from`'s list by its own children, and then hangs, alone, under `to`; a self-move
    * leaves it outside the hierarchy. */
  ghost function FlattenShape(t: Tree, from: Ref, idx: int, to: Ref): Tree
    requires from in PreOrder(t) && 0 <= idx < |SubAt(t, from).kids|
  {
    var e := Taken(t, from, idx).ref;
    var t1 := Remaining(t, from, idx);
    if to == e || to !in PreOrder(t1) then t1 else Attach(t1, to, Tree(e, []))
  }

  /** Where the edit starts in a hierarchy: the list of `from` is the roots of its children. */
  lemma {:induction false} ListOfNode(h: Heap, t: Tree, from: Ref, idx: int)
    requires Represents(h, t) && Once(PreOrder(t)) && from in PreOrder(t)
    requires 0 <= idx < |SubAt(t, from).kids|
    ensures var P := SubAt(t, from);
      && Represents(h, P) && from in h && h[from].subordinates == Roots(P.kids)
      && P.kids[idx].ref in h && P.kids[idx].ref in PreOrder(t) && P.kids[idx].ref != from
      && Represents(h, P.kids[idx]) && h[P.kids[idx].ref].subordinates == Roots(P.kids[idx].kids)
  {
    var P := SubAt(t, from);
    SubAtRepresents(h, t, from);
    NotBelowItself(t, from);
    var e := P.kids[idx];
    assert e.ref in PreOrder(e);
    KidInPreOrder(P, idx, e.ref);
    BelowInTree(t, from, e.ref);
  }

  /** The child of `from` that the edit takes out, and the hierarchy without it, its
    * children handed to `from`. */
  ghost function Taken(t: Tree, from: Ref, idx: int): Tree
    requires from in PreOrder(t) && 0 <= idx < |SubAt(t, from).kids|
  {
    SubAt(t, from).kids[idx]
  }

  ghost function Remaining(t: Tree, from: Ref, idx: int): Tree
    requires from in PreOrder(t) && 0 <= idx < |SubAt(t, from).kids|
  {
    Detach(t, from, idx, Taken(t, from, idx).kids)
  }

  /** Steps one to three, spelled out on a hierarchy: `from` gets its remaining children
    * followed by the children of the one taken out, and that one gets an empty list. */
  lemma {:induction false} UnlistSteps(h: Heap, t: Tree, from: Ref, idx: int)
    requires Represents(h, t) && Once(PreOrder(t)) && from in PreOrder(t)
    requires 0 <= idx < |SubAt(t, from).kids|
    ensures from in h && idx < |h[from].subordinates|
    ensures h[from].subordinates[idx] == Taken(t, from, idx).ref && Taken(t, from, idx).ref in h
    ensures Unlist(h, from, idx) ==
      SetSubordinates(SetSubordinates(h, from, Roots(DetachedKids(t, from, idx, true))),
                      Taken(t, from, idx).ref, [])
  {
    ListOfNode(h, t, from, idx);
    var ks := SubAt(t, from).kids;
    var e := ks[idx];
    var subs := h[from].subordinates;
    assert subs[idx] == e.ref;
    assert Roots(ks[..idx] + ks[idx + 1..] + e.kids) == subs[..idx] + subs[idx + 1..] + Roots(e.kids);
  }

  /** Taking a child out of a hierarchy where every node occurs once removes exactly that
    * child's node: the top stays, and the child occurs nowhere any more. */
  lemma {:induction false} RemainingBag(t: Tree, from: Ref, idx: int)
    requires Once(PreOrder(t)) && from in PreOrder(t)
    requires 0 <= idx < |SubAt(t, from).kids|
    ensures Remaining(t, from, idx).ref == t.ref
    ensures multiset(PreOrder(Remaining(t, from, idx))) == multiset(PreOrder(t)) - multiset{Taken(t, from, idx).ref}
    ensures Taken(t, from, idx).ref !in PreOrder(Remaining(t, from, idx))
  {
    DetachBag(t, from, idx, true);
    var e := Taken(t, from, idx);
    assert e.ref in PreOrder(e);
    KidBag(SubAt(t, from).kids, idx);
    assert PreOrder(SubAt(t, from)) == [from] + PreOrderAll(SubAt(t, from).kids);
    assert multiset(PreOrder(t))[e.ref] == 1;
  }

  /** After steps one to three the store holds the hierarchy with child `idx` of `from`
    * detached and its children handed to `from`. */
  lemma {:induction false} UnlistHeld(h: Heap, t: Tree, from: Ref, idx: int)
    requires Represents(h, t) && Once(PreOrder(t)) && from in PreOrder(t)
    requires 0 <= idx < |SubAt(t, from).kids|
    ensures from in h && idx < |h[from].subordinates|
    ensures h[from].subordinates[idx] == Taken(t, from, idx).ref && Taken(t, from, idx).ref in h
    ensures Represents(Unlist(h, from, idx), Remaining(t, from, idx))
  {
    UnlistSteps(h, t, from, idx);
    RemainingBag(t, from, idx);
    var e := Taken(t, from, idx).ref;
    var t1 := Remaining(t, from, idx);
    var h2 := SetSubordinates(h, from, Roots(DetachedKids(t, from, idx, true)));
    DetachHeld(h, h2, t, from, idx, true);
    IdsOfValue(h2, t1);
    Frame(h2, SetSubordinates(h2, e, []), t1);
  }

  /** Steps one to three change lists only, and leave the taken child with an empty one. */
  lemma {:induction false} UnlistLists(h: Heap, t: Tree, from: Ref, idx: int)
    requires Represents(h, t) && Once(PreOrder(t)) && from in PreOrder(t)
    requires 0 <= idx < |SubAt(t, from).kids|
    ensures from in h && idx < |h[from].subordinates| && h[from].subordinates[idx] in h
    ensures Unlist(h, from, idx)[h[from].subordinates[idx]].subordinates == []
    ensures SameIds(h, Unlist(h, from, idx))
  {
    UnlistSteps(h, t, from, idx);
  }

  /** The last step, pushing `e` onto the list of `to`: with `to` in the hierarchy and not
    * `e`, the store holds the hierarchy with `e` appended, alone, under `to`; with `to` equal
    * to `e`, the hierarchy is untouched and `e` lists only itself. */
  lemma {:induction false} PushHeld(h3: Heap, t1: Tree, e: Ref, to: Ref)
    requires Represents(h3, t1) && Once(PreOrder(t1)) && e !in PreOrder(t1)
    requires e in h3 && h3[e].subordinates == [] && to in h3
    requires to != e ==> to in PreOrder(t1)
    ensures to != e ==> Represents(Push(h3, to, e), Attach(t1, to, Tree(e, [])))
    ensures to != e ==>
      multiset(PreOrder(Attach(t1, to, Tree(e, [])))) == multiset(PreOrder(t1)) + multiset{e}
    ensures to == e ==> Represents(Push(h3, to, e), t1) && Push(h3, to, e)[e].subordinates == [e]
  {
    var h4 := Push(h3, to, e);
    IdsOfValue(h3, t1);
    if to != e {
      assert Represents(h4, Tree(e, []));
      AttachHeld(h3, h4, t1, to, Tree(e, []));
    } else {
      Frame(h3, h4, t1);
    }
  }

  /** A hierarchy made of nodes of a well-formed one, whose ids are kept, is well-formed, and
    * carries an id exactly when one of its nodes carried it before. */
  lemma {:induction false} WellFormedBelow(h: Heap, t: Tree, h': Heap, t': Tree)
    requires WellFormed(h, t) && Represents(h', t') && SameIds(h, h')
    requires multiset(PreOrder(t')) <= multiset(PreOrder(t))
    ensures WellFormed(h', t')
    ensures forall id :: id in OrgIds(Value(h', t')) <==>
      exists x :: x in PreOrder(t') && x in h && h[x].uniqueId == id
  {
    WellFormedIff(h, t);
    WellFormedIff(h', t');
    forall x | x in PreOrder(t') ensures x in PreOrder(t) {
      assert multiset(PreOrder(t'))[x] <= multiset(PreOrder(t))[x];
    }
    forall x ensures multiset(PreOrder(t'))[x] <= 1 {
      assert multiset(PreOrder(t'))[x] <= multiset(PreOrder(t))[x];
    }
    IdsOfValue(h', t');
    forall id ensures id in OrgIds(Value(h', t')) <==> exists x :: x in PreOrder(t') && x in h && h[x].uniqueId == id {
      IdsAlongMember(h', PreOrder(t'), id);
    }
  }

  /** An id occurs in a held hierarchy exactly when one of its nodes carries it. */
  lemma {:induction false} IdsOfNodes(h: Heap, t: Tree)
    requires Represents(h, t)
    ensures forall id :: id in OrgIds(Value(h, t)) <==> exists x :: x in PreOrder(t) && x in h && h[x].uniqueId == id
  {
    IdsOfValue(h, t);
    forall id ensures id in OrgIds(Value(h, t)) <==> exists x :: x in PreOrder(t) && x in h && h[x].uniqueId == id {
      IdsAlongMember(h, PreOrder(t), id);
    }
  }

  /** The nodes of the reshaped hierarchy: all of them, or all but the employee for a
    * self-move. */
  lemma {:induction false} ShapeBag(t: Tree, from: Ref, idx: int, to: Ref)
    requires Once(PreOrder(t)) && from in PreOrder(t) && to in PreOrder(t)
    requires 0 <= idx < |SubAt(t, from).kids|
    ensures var e := Taken(t, from, idx).ref;
      multiset(PreOrder(FlattenShape(t, from, idx, to))) ==
        multiset(PreOrder(t)) - (if to == e then multiset{e} else multiset{})
    ensures multiset(PreOrder(FlattenShape(t, from, idx, to))) <= multiset(PreOrder(t))
    ensures FlattenShape(t, from, idx, to).ref == t.ref
    ensures Taken(t, from, idx).ref in PreOrder(t)
  {
    TakenInTree(t, from, idx);
    RemainingBag(t, from, idx);
    if to != Taken(t, from, idx).ref {
      ShapeBagOther(t, from, idx, to);
    }
  }

  lemma {:induction false} TakenInTree(t: Tree, from: Ref, idx: int)
    requires from in PreOrder(t) && 0 <= idx < |SubAt(t, from).kids|
    ensures Taken(t, from, idx).ref in PreOrder(t)
  {
    var e := Taken(t, from, idx).ref;
    assert e in PreOrder(Taken(t, from, idx));
    KidInPreOrder(SubAt(t, from), idx, e);
    BelowInTree(t, from, e);
  }

  /** A move to another node keeps every node of the hierarchy. */
  lemma {:induction false} ShapeBagOther(t: Tree, from: Ref, idx: int, to: Ref)
    requires Once(PreOrder(t)) && from in PreOrder(t) && to in PreOrder(t)
    requires 0 <= idx < |SubAt(t, from).kids| && to != Taken(t, from, idx).ref
    ensures multiset(PreOrder(FlattenShape(t, from, idx, to))) == multiset(PreOrder(t)) - multiset{}
    ensures FlattenShape(t, from, idx, to).ref == t.ref
  {
    var e := Taken(t, from, idx).ref;
    var t1 := Remaining(t, from, idx);
    var A := multiset(PreOrder(t));
    TakenInTree(t, from, idx);
    RemainingBag(t, from, idx);
    OnceLess(PreOrder(t), PreOrder(t1), e);
    assert FlattenShape(t, from, idx, to) == Attach(t1, to, Tree(e, []));
    AttachBag(t1, to, Tree(e, []));
    assert PreOrder(Tree(e, [])) == [e];
    SwapBack(A, e);
  }

  lemma {:induction false} SwapBack(A: multiset<Ref>, e: Ref)
    requires e in A
    ensures A - multiset{e} + multiset{e} == A - multiset{}
  {
    forall y ensures (A - multiset{e} + multiset{e})[y] == (A - multiset{})[y] { }
  }

  /** The edit of a `move` keeps the live hierarchy a well-formed tree with the same top.
    * Unless the employee is moved under itself, the hierarchy keeps every node; a self-move
    * takes the employee, and only it, out of the hierarchy. */
  lemma {:induction false} FlattenReshapes(h: Heap, t: Tree, from: Ref, idx: int, to: Ref)
    requires WellFormed(h, t) && from in PreOrder(t) && to in PreOrder(t)
    requires 0 <= idx < |SubAt(t, from).kids|
    ensures from in h && to in h && idx < |h[from].subordinates|
    ensures h[from].subordinates[idx] == Taken(t, from, idx).ref && Taken(t, from, idx).ref in h
    ensures var e := Taken(t, from, idx).ref;
      var h' := Flatten(h, from, idx, e, to);
      var t' := FlattenShape(t, from, idx, to);
      && WellFormed(h', t') && t'.ref == t.ref && SameIds(h, h')
      && multiset(PreOrder(t')) == multiset(PreOrder(t)) - (if to == e then multiset{e} else multiset{})
    ensures multiset(PreOrder(FlattenShape(t, from, idx, to))) <= multiset(PreOrder(t))
  {
    WellFormedIff(h, t);
    UnlistLists(h, t, from, idx);
    ShapeBag(t, from, idx, to);
    FlattenHeld(h, t, from, idx, to);
    var e := Taken(t, from, idx).ref;
    var h' := Flatten(h, from, idx, e, to);
    SameIdsTrans(h, Unlist(h, from, idx), h');
    WellFormedBelow(h, t, h', FlattenShape(t, from, idx, to));
  }

  /** The store after the edit holds the reshaped hierarchy. */
  lemma {:induction false} FlattenHeld(h: Heap, t: Tree, from: Ref, idx: int, to: Ref)
    requires Represents(h, t) && Once(PreOrder(t)) && from in PreOrder(t) && to in PreOrder(t)
    requires 0 <= idx < |SubAt(t, from).kids|
    ensures from in h && to in h && idx < |h[from].subordinates|
    ensures h[from].subordinates[idx] == Taken(t, from, idx).ref && Taken(t, from, idx).ref in h
    ensures Represents(Flatten(h, from, idx, Taken(t, from, idx).ref, to), FlattenShape(t, from, idx, to))
  {
    var e := Taken(t, from, idx).ref;
    var t1 := Remaining(t, from, idx);
    UnlistHeld(h, t, from, idx);
    UnlistLists(h, t, from, idx);
    RemainingBag(t, from, idx);
    OnceLess(PreOrder(t), PreOrder(t1), e);
    IdsOfValue(h, t);
    assert to in h;
    PushHeld(Unlist(h, from, idx), t1, e, to);
  }

  /** A hierarchy that lost at most the node `e` (and only when `dropped`) carries the ids
    * it carried before, without `e`'s id when `dropped`. */
  lemma {:induction false} IdsAfterDrop(h: Heap, t: Tree, h': Heap, t': Tree, e: Ref, dropped: bool)
    requires WellFormed(h, t) && Represents(h', t') && SameIds(h, h') && e in h
    requires dropped ==> e in PreOrder(t)
    requires multiset(PreOrder(t')) == multiset(PreOrder(t)) - (if dropped then multiset{e} else multiset{})
    ensures forall id :: id in OrgIds(Value(h', t')) <==>
      id in OrgIds(Value(h, t)) && (dropped ==> id != h[e].uniqueId)
  {
    WellFormedIff(h, t);
    WellFormedBelow(h, t, h', t');
    IdsOfNodes(h, t);
    DropMembers(PreOrder(t), PreOrder(t'), e, dropped);
    forall id | id in OrgIds(Value(h', t'))
      ensures id in OrgIds(Value(h, t)) && (dropped ==> id != h[e].uniqueId)
    {
      var x :| x in PreOrder(t') && x in h && h[x].uniqueId == id;
    }
    forall id | id in OrgIds(Value(h, t)) && (dropped ==> id != h[e].uniqueId)
      ensures id in OrgIds(Value(h', t'))
    {
      var x :| x in PreOrder(t) && x in h && h[x].uniqueId == id;
    }
  }

  /** Which ids the live hierarchy carries after the edit: the same ones, or, for a
    * self-move, the same ones without the employee's id. */
  lemma {:induction false} FlattenIds(h: Heap, t: Tree, from: Ref, idx: int, to: Ref)
    requires WellFormed(h, t) && from in PreOrder(t) && to in PreOrder(t)
    requires 0 <= idx < |SubAt(t, from).kids|
    ensures from in h && to in h && idx < |h[from].subordinates|
    ensures h[from].subordinates[idx] == Taken(t, from, idx).ref && Taken(t, from, idx).ref in h
    ensures var e := Taken(t, from, idx).ref;
      var h' := Flatten(h, from, idx, e, to);
      var t' := FlattenShape(t, from, idx, to);
      Represents(h', t') &&
      forall id :: id in OrgIds(Value(h', t')) <==>
        id in OrgIds(Value(h, t)) && (to == e ==> id != h[e].uniqueId)
  {
    FlattenReshapes(h, t, from, idx, to);
    var e := Taken(t, from, idx).ref;
    IdsAfterDrop(h, t, Flatten(h, from, idx, e, to), FlattenShape(t, from, idx, to), e, to == e);
  }

  /** When the lookups of `move` succeed: the employee's id belongs to a node other than the
    * top, and the target's id belongs to a node. */
  ghost predicate MoveAllowed(o: Org, employeeId: int, supervisorId: int) {
    employeeId in OrgIds(o) && employeeId != o.uniqueId && supervisorId in OrgIds(o)
  }

  /** With unique ids, the three lookups of `move` all succeed exactly when the move is
    * allowed on the value of the hierarchy. */
  lemma {:induction false} LookupsSucceedIff(h: Heap, t: Tree, employeeId: int, supervisorId: int)
    requires WellFormed(h, t)
    ensures (&& FindEmployee(h, t.ref, employeeId, t).Some?
             && FindSupervisor(h, t.ref, employeeId, t).Some?
             && FindEmployee(h, t.ref, supervisorId, t).Some?)
      <==> MoveAllowed(Value(h, t), employeeId, supervisorId)
  {
    var o := Value(h, t);
    assert o.uniqueId == h[t.ref].uniqueId;
    IdsOfNodes(h, t);
    FindEmployeeExact(h, t, employeeId, t.ref);
    FindEmployeeExact(h, t, supervisorId, t.ref);
    FindSupervisorExact(h, t, employeeId);
    if exists x :: x in PreOrder(t) && x in h && h[x].uniqueId == employeeId && x != t.ref {
      var x :| x in PreOrder(t) && x in h && h[x].uniqueId == employeeId && x != t.ref;
      assert x in PreOrderAll(t.kids);
      TopIdNotBelow(h, t, x);
    }
    if employeeId in OrgIds(o) && employeeId != o.uniqueId {
      var x :| x in PreOrder(t) && x in h && h[x].uniqueId == employeeId;
      assert x != t.ref;
    }
  }

  /** For an allowed move, the slot the loop of `move` finds in the supervisor's list is the
    * one holding the employee, and the employee is its own target exactly when the two ids
    * are equal. */
  lemma {:induction false} MoveSlot(h: Heap, t: Tree, employeeId: int, supervisorId: int)
    requires WellFormed(h, t) && MoveAllowed(Value(h, t), employeeId, supervisorId)
    ensures FindEmployee(h, t.ref, employeeId, t).Some?
    ensures FindSupervisor(h, t.ref, employeeId, t).Some?
    ensures FindEmployee(h, t.ref, supervisorId, t).Some?
    ensures var e := FindEmployee(h, t.ref, employeeId, t).value;
      var from := FindSupervisor(h, t.ref, employeeId, t).value;
      var to := FindEmployee(h, t.ref, supervisorId, t).value;
      && from in PreOrder(t) && to in PreOrder(t) && from in h && AllIn(h, h[from].subordinates)
      && var idx := IndexOfId(h, h[from].subordinates, employeeId);
      && 0 <= idx < |SubAt(t, from).kids| && Taken(t, from, idx).ref == e
      && e in h && h[e].uniqueId == employeeId
      && (to == e <==> employeeId == supervisorId)
  {
    LookupsSucceedIff(h, t, employeeId, supervisorId);
    WellFormedIff(h, t);
    var e := FindEmployee(h, t.ref, employeeId, t).value;
    var from := FindSupervisor(h, t.ref, employeeId, t).value;
    var to := FindEmployee(h, t.ref, supervisorId, t).value;
    FindSupervisorHoldsEmployee(h, t, employeeId);
    FindEmployeeExact(h, t, employeeId, e);
    FindEmployeeExact(h, t, supervisorId, to);
    var P := SubAt(t, from);
    SubAtRepresents(h, t, from);
    var subs := h[from].subordinates;
    assert RepresentsAll(h, P.kids);
    RootsHeld(h, P.kids);
    var idx := IndexOfId(h, subs, employeeId);
    assert idx != -1;
    assert subs[idx] == e;
    assert Roots(P.kids)[idx] == P.kids[idx].ref;
  }

  /** The slot of the supervisor's list that an allowed move edits. */
  ghost function MoveIndex(h: Heap, t: Tree, employeeId: int, supervisorId: int): int
    requires WellFormed(h, t) && MoveAllowed(Value(h, t), employeeId, supervisorId)
  {
    MoveSlot(h, t, employeeId, supervisorId);
    var from := FindSupervisor(h, t.ref, employeeId, t).value;
    IndexOfId(h, h[from].subordinates, employeeId)
  }

  /** The store after an allowed `move` of the snapshot variant, on the objects that existed
    * before it. */
  ghost function MoveEdit(h: Heap, t: Tree, employeeId: int, supervisorId: int): Heap
    requires WellFormed(h, t) && MoveAllowed(Value(h, t), employeeId, supervisorId)
  {
    MoveSlot(h, t, employeeId, supervisorId);
    var e := FindEmployee(h, t.ref, employeeId, t).value;
    var from := FindSupervisor(h, t.ref, employeeId, t).value;
    var to := FindEmployee(h, t.ref, supervisorId, t).value;
    var idx := MoveIndex(h, t, employeeId, supervisorId);
    Flatten(h, from, idx, e, to)
  }

  /** The shape of the live hierarchy after an allowed `move`. */
  ghost function MoveShape(h: Heap, t: Tree, employeeId: int, supervisorId: int): Tree
    requires WellFormed(h, t) && MoveAllowed(Value(h, t), employeeId, supervisorId)
  {
    MoveSlot(h, t, employeeId, supervisorId);
    var from := FindSupervisor(h, t.ref, employeeId, t).value;
    var to := FindEmployee(h, t.ref, supervisorId, t).value;
    FlattenShape(t, from, MoveIndex(h, t, employeeId, supervisorId), to)
  }

  /** What an allowed move leaves: a well-formed hierarchy `t'` in `h'` under the same top,
    * with every id and name kept, built from nodes of `t`, and carrying every id `t`
    * carried except the employee's own when it is moved under itself. */
  ghost predicate Reshaped(h: Heap, t: Tree, h': Heap, t': Tree, employeeId: int, supervisorId: int)
    requires Represents(h, t)
  {
    && WellFormed(h', t') && t'.ref == t.ref && SameIds(h, h')
    && multiset(PreOrder(t')) <= multiset(PreOrder(t))
    && forall id :: id in OrgIds(Value(h', t')) <==>
         id in OrgIds(Value(h, t)) && (employeeId == supervisorId ==> id != employeeId)
  }

  /** An allowed move keeps the hierarchy well-formed under the same top, keeps every id
    * and name, and keeps every id in the hierarchy except the employee's own when it is
    * moved under itself. Its nodes are nodes it had before. */
  lemma {:induction false} MoveReshapes(h: Heap, t: Tree, employeeId: int, supervisorId: int)
    requires WellFormed(h, t) && MoveAllowed(Value(h, t), employeeId, supervisorId)
    ensures Reshaped(h, t, MoveEdit(h, t, employeeId, supervisorId), MoveShape(h, t, employeeId, supervisorId),
                     employeeId, supervisorId)
  {
    MoveSlot(h, t, employeeId, supervisorId);
    FlattenMoves(h, t, FindSupervisor(h, t.ref, employeeId, t).value, MoveIndex(h, t, employeeId, supervisorId),
                 FindEmployee(h, t.ref, supervisorId, t).value, employeeId, supervisorId);
  }

  /** `MoveReshapes` for a given slot and target. */
  lemma {:induction false} FlattenMoves(h: Heap, t: Tree, from: Ref, idx: int, to: Ref, employeeId: int, supervisorId: int)
    requires WellFormed(h, t) && from in PreOrder(t) && to in PreOrder(t)
    requires 0 <= idx < |SubAt(t, from).kids|
    requires var e := Taken(t, from, idx).ref;
      e in h && h[e].uniqueId == employeeId && (to == e <==> employeeId == supervisorId)
    ensures from in h && to in h && idx < |h[from].subordinates|
    ensures h[from].subordinates[idx] == Taken(t, from, idx).ref && Taken(t, from, idx).ref in h
    ensures Reshaped(h, t, Flatten(h, from, idx, Taken(t, from, idx).ref, to), FlattenShape(t, from, idx, to),
                     employeeId, supervisorId)
  {
    FlattenReshapes(h, t, from, idx, to);
    FlattenIds(h, t, from, idx, to);
  }

  /** The lists the edit leaves behind: the supervisor's list loses the employee and gains
    * the employee's reports at its end, the employee's list is emptied, the employee is
    * appended to the target's list, and no other object changes. */
  lemma {:induction false} FlattenLists(h: Heap, from: Ref, idx: int, e: Ref, to: Ref)
    requires from in h && to in h && e in h && e != from
    requires 0 <= idx < |h[from].subordinates| && h[from].subordinates[idx] == e
    ensures var h' := Flatten(h, from, idx, e, to);
      var subs := h[from].subordinates;
      && h'.Keys == h.Keys
      && h'[from].subordinates == subs[..idx] + subs[idx + 1..] + h[e].subordinates + (if to == from then [e] else [])
      && h'[e].subordinates == (if to == e then [e] else [])
      && (to != from && to != e ==> h'[to].subordinates == h[to].subordinates + [e])
      && forall y :: y in h && y != from && y != e && y != to ==> h'[y] == h[y]
  {
  }

  /** An allowed `move`, list by list: the supervisor `findSupervisor` returns loses the
    * employee from its list and gains the employee's reports at the end of it, the
    * employee's own list is emptied, the employee is appended to the list of the node with
    * the target id, and no other object changes. All three are nodes of the hierarchy. */
  lemma {:induction false} MoveLists(h: Heap, t: Tree, employeeId: int, supervisorId: int)
    requires WellFormed(h, t) && MoveAllowed(Value(h, t), employeeId, supervisorId)
    ensures FindEmployee(h, t.ref, employeeId, t).Some?
    ensures FindSupervisor(h, t.ref, employeeId, t).Some?
    ensures FindEmployee(h, t.ref, supervisorId, t).Some?
    ensures var h' := MoveEdit(h, t, employeeId, supervisorId);
      var e := FindEmployee(h, t.ref, employeeId, t).value;
      var from := FindSupervisor(h, t.ref, employeeId, t).value;
      var to := FindEmployee(h, t.ref, supervisorId, t).value;
      && e in PreOrder(t) && from in PreOrder(t) && to in PreOrder(t) && e != from
      && e in h && from in h && to in h && h'.Keys == h.Keys
      && h[e].uniqueId == employeeId && h[to].uniqueId == supervisorId
      && e in h[from].subordinates
      && h'[from].subordinates ==
           RemoveFirst(h[from].subordinates, e) + h[e].subordinates + (if to == from then [e] else [])
      && h'[e].subordinates == (if to == e then [e] else [])
      && (to != from && to != e ==> h'[to].subordinates == h[to].subordinates + [e])
      && forall y :: y in h && y != from && y != e && y != to ==> h'[y] == h[y]
  {
    MoveSlot(h, t, employeeId, supervisorId);
    var e := FindEmployee(h, t.ref, employeeId, t).value;
    var from := FindSupervisor(h, t.ref, employeeId, t).value;
    var to := FindEmployee(h, t.ref, supervisorId, t).value;
    var idx := MoveIndex(h, t, employeeId, supervisorId);
    var subs := h[from].subordinates;
    assert e in h && h[e].uniqueId == employeeId && h[to].uniqueId == supervisorId && e in PreOrder(t) by {
      FindEmployeeExact(h, t, employeeId, e);
      FindEmployeeExact(h, t, supervisorId, to);
    }
    assert to in h && idx < |subs| && subs[idx] == e && e != from by {
      WellFormedIff(h, t);
      ListOfNode(h, t, from, idx);
      FlattenReshapes(h, t, from, idx, to);
    }
    assert forall j :: 0 <= j < idx ==> subs[j] != e;
    FirstSlot(subs, idx, e);
    FlattenLists(h, from, idx, e, to);
  }

  /** `s` without its first occurrence of `x`. */
  function RemoveFirst<T(==)>(s: seq<T>, x: T): seq<T>
  {
    if s == [] then []
    else if s[0] == x then s[1..] else [s[0]] + RemoveFirst(s[1..], x)
  }

  /** Removing the first occurrence takes out one copy of `x` when there is one, and
    * nothing otherwise. */
  lemma {:induction false} RemoveFirstCount<T>(s: seq<T>, x: T)
    ensures x in s ==> |RemoveFirst(s, x)| == |s| - 1 && multiset(RemoveFirst(s, x)) == multiset(s) - multiset{x}
    ensures x !in s ==> RemoveFirst(s, x) == s
  {
    if s != [] {
      assert s == [s[0]] + s[1..];
      RemoveFirstCount(s[1..], x);
    }
  }

  /** Removing the slot that holds the first occurrence of `x` removes that occurrence. */
  lemma {:induction false} FirstSlot<T>(s: seq<T>, idx: int, x: T)
    requires 0 <= idx < |s| && s[idx] == x && forall j :: 0 <= j < idx ==> s[j] != x
    ensures s[..idx] + s[idx + 1..] == RemoveFirst(s, x)
    decreases idx
  {
    var t := s[1..];
    if idx == 0 {
      assert s[..idx] + s[idx + 1..] == t;
    } else {
      forall j | 0 <= j < idx - 1 ensures t[j] != x {
        assert t[j] == s[j + 1];
      }
      FirstSlot(t, idx - 1, x);
      SlotAfterHead(s, idx, x);
    }
  }

  /** One step of `FirstSlot`: a head other than `x` stays in front. */
  lemma {:induction false} SlotAfterHead<T>(s: seq<T>, idx: int, x: T)
    requires 0 < idx < |s| && s[0] != x
    requires s[1..][..idx - 1] + s[1..][idx..] == RemoveFirst(s[1..], x)
    ensures s[..idx] + s[idx + 1..] == RemoveFirst(s, x)
  {
    var t := s[1..];
    assert RemoveFirst(s, x) == [s[0]] + RemoveFirst(t, x);
    assert s[..idx] == [s[0]] + t[..idx - 1];
    assert s[idx + 1..] == t[idx..];
  }
}

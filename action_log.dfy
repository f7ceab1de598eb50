/** The action-log variant of `EmployeeOrgApp`: `move` takes an employee, together with
  * everyone below it, out of its supervisor's list and appends it to the target's list,
  * recording the employee's id and the two supervisor objects; `undo` pops the last record
  * and moves the employee back; `redo` always throws. */
module ActionLog {
  import opened OrgTree
  import opened TreeEdit
  import opened SnapshotMove

  /** One entry of `history`: the id moved and the two supervisor objects, by reference. */
  datatype Action = Action(employeeId: int, fromSupervisor: Ref, toSupervisor: Ref)

  /** Every list in the store names stored objects (there are no dangling references). */
  ghost predicate Closed(h: Heap) {
    forall x :: x in h ==> AllIn(h, h[x].subordinates)
  }

  /** Every recorded supervisor is a stored object. */
  ghost predicate Logged(h: Heap, history: seq<Action>) {
    forall k :: 0 <= k < |history| ==>
      history[k].fromSupervisor in h && history[k].toSupervisor in h
  }

  /** A log stays well-linked in a store with the same objects when a record of stored
    * objects is appended. */
  lemma {:induction false} LoggedPush(h: Heap, h': Heap, history: seq<Action>, a: Action)
    requires Logged(h, history) && h'.Keys == h.Keys
    requires a.fromSupervisor in h && a.toSupervisor in h
    ensures Logged(h', history + [a])
  {
    assert forall k :: 0 <= k < |history| ==> (history + [a])[k] == history[k];
  }

  /** `source.subordinates.splice(idx, 1)` followed by `target.subordinates.push(e)`: the
    * edit of both `move` and `undo`. */
  function Relink(h: Heap, source: Ref, idx: int, e: Ref, target: Ref): (h': Heap)
    requires source in h && target in h
    ensures h'.Keys == h.Keys && SameIds(h, h')
    ensures h'[target].subordinates ==
      (if target == source then SpliceOne(h[source].subordinates, idx)
       else h[target].subordinates) + [e]
    ensures target != source ==> h'[source].subordinates == SpliceOne(h[source].subordinates, idx)
    ensures forall y :: y in h && y != source && y != target ==> h'[y] == h[y]
  {
    Push(SetSubordinates(h, source, SpliceOne(h[source].subordinates, idx)), target, e)
  }

  /** Splicing never adds an element. */
  lemma {:induction false} SpliceKeeps<T>(s: seq<T>, start: int)
    ensures multiset(SpliceOne(s, start)) <= multiset(s)
  {
    var k := SpliceStart(|s|, start);
    if k < |s| {
      SpliceAtIndex(s, k);
    }
  }

  /** The edit keeps the store free of dangling references when `e` is stored. */
  lemma {:induction false} RelinkClosed(h: Heap, source: Ref, idx: int, e: Ref, target: Ref)
    requires Closed(h) && source in h && target in h && e in h
    ensures Closed(Relink(h, source, idx, e, target))
  {
    var h' := Relink(h, source, idx, e, target);
    var s := SpliceOne(h[source].subordinates, idx);
    SpliceKeeps(h[source].subordinates, idx);
    forall y | y in s ensures y in h {
      assert multiset(s)[y] <= multiset(h[source].subordinates)[y];
    }
  }

  /** The hierarchy after child `idx` of `source` is taken out, with everything below it,
    * and appended to the list of `target` when `target` is still in what is left. */
  ghost function RelinkShape(t: Tree, source: Ref, idx: int, target: Ref): Tree
    requires source in PreOrder(t) && 0 <= idx < |SubAt(t, source).kids|
  {
    var t1 := Detach(t, source, idx, []);
    if target in PreOrder(t1) then Attach(t1, target, SubAt(t, source).kids[idx]) else t1
  }

  /** The child taken out: the object in slot `idx` of `source`'s list, held by the store,
    * and lying strictly below `source`. */
  lemma {:induction false} TakenChild(h: Heap, t: Tree, source: Ref, idx: int)
    requires WellFormed(h, t) && source in PreOrder(t)
    requires 0 <= idx < |SubAt(t, source).kids|
    ensures source in h && h[source].subordinates == Roots(SubAt(t, source).kids)
    ensures var E := SubAt(t, source).kids[idx];
      && E.ref == h[source].subordinates[idx] && source !in PreOrder(E)
      && Represents(h, E) && AllIn(h, PreOrder(E))
      && multiset(PreOrder(E)) <= multiset(PreOrder(t))
      && forall x :: x in PreOrder(E) ==> x in PreOrder(t)
  {
    WellFormedIff(h, t);
    ListOfNode(h, t, source, idx);
    var P := SubAt(t, source);
    var E := P.kids[idx];
    KidBag(P.kids, idx);
    assert PreOrder(P) == [source] + PreOrderAll(P.kids);
    forall x | x in PreOrder(E) ensures x in PreOrderAll(P.kids) && x in PreOrder(t) {
      KidInPreOrder(P, idx, x);
      BelowInTree(t, source, x);
    }
    NotBelowItself(t, source);
    IdsOfValue(h, E);
  }

  /** The store with slot `idx` of `source`'s list spliced out holds the hierarchy without
    * that child's sub-hierarchy. */
  lemma {:induction false} DetachHolds(h: Heap, t: Tree, source: Ref, idx: int)
    requires WellFormed(h, t) && source in PreOrder(t)
    requires 0 <= idx < |SubAt(t, source).kids|
    ensures source in h && h[source].subordinates == Roots(SubAt(t, source).kids)
    ensures var E := SubAt(t, source).kids[idx];
      var h1 := SetSubordinates(h, source, SpliceOne(h[source].subordinates, idx));
      var t1 := Detach(t, source, idx, []);
      && Represents(h1, t1) && t1.ref == t.ref
      && multiset(PreOrder(t1)) == multiset(PreOrder(t)) - multiset(PreOrder(E))
  {
    WellFormedIff(h, t);
    ListOfNode(h, t, source, idx);
    var P := SubAt(t, source);
    var s := h[source].subordinates;
    SpliceAtIndex(s, idx);
    var h1 := SetSubordinates(h, source, SpliceOne(s, idx));
    assert DetachedKids(t, source, idx, false) == P.kids[..idx] + P.kids[idx + 1..];
    RootsWithout(P.kids, idx);
    DetachHeld(h, h1, t, source, idx, false);
  }

  /** Taking child `idx` out of the list of `source` leaves a hierarchy the edited store
    * holds, without the taken child's nodes and sharing no node with it. */
  lemma {:induction false} DetachStep(h: Heap, t: Tree, source: Ref, idx: int)
    requires WellFormed(h, t) && source in PreOrder(t)
    requires 0 <= idx < |SubAt(t, source).kids|
    ensures source in h && h[source].subordinates == Roots(SubAt(t, source).kids)
    ensures var E := SubAt(t, source).kids[idx];
      var h1 := SetSubordinates(h, source, SpliceOne(h[source].subordinates, idx));
      var t1 := Detach(t, source, idx, []);
      && E.ref == h[source].subordinates[idx] && source !in PreOrder(E)
      && Represents(h, E) && AllIn(h, PreOrder(E))
      && Represents(h1, t1) && Once(PreOrder(t1)) && AllIn(h1, PreOrder(t1)) && t1.ref == t.ref
      && multiset(PreOrder(E)) <= multiset(PreOrder(t))
      && multiset(PreOrder(t1)) == multiset(PreOrder(t)) - multiset(PreOrder(E))
      && (forall x :: x in PreOrder(t1) <==> x in PreOrder(t) && x !in PreOrder(E))
      && multiset(PreOrder(t1)) + multiset(PreOrder(E)) == multiset(PreOrder(t))
  {
    TakenChild(h, t, source, idx);
    DetachHolds(h, t, source, idx);
    WellFormedIff(h, t);
    var E := SubAt(t, source).kids[idx];
    var h1 := SetSubordinates(h, source, SpliceOne(h[source].subordinates, idx));
    var t1 := Detach(t, source, idx, []);
    CountsBelow(PreOrder(t), PreOrder(E), PreOrder(t1));
    IdsOfValue(h1, t1);
  }

  /** Relinking child `idx` of a node of a well-formed hierarchy keeps it well-formed under
    * the same top. Its nodes stay the same when `target` lies in the hierarchy outside the
    * moved sub-hierarchy; otherwise the whole moved sub-hierarchy is cut off. */
  lemma {:induction false} RelinkReshapes(h: Heap, t: Tree, source: Ref, idx: int, target: Ref)
    requires WellFormed(h, t) && source in PreOrder(t) && target in h
    requires 0 <= idx < |SubAt(t, source).kids|
    ensures source in h && h[source].subordinates == Roots(SubAt(t, source).kids)
    ensures var E := SubAt(t, source).kids[idx];
      var h' := Relink(h, source, idx, E.ref, target);
      var t' := RelinkShape(t, source, idx, target);
      && E.ref == h[source].subordinates[idx] && source !in PreOrder(E)
      && WellFormed(h', t') && t'.ref == t.ref
      && multiset(PreOrder(t')) == multiset(PreOrder(t)) -
           (if target in PreOrder(t) && target !in PreOrder(E) then multiset{}
            else multiset(PreOrder(E)))
    ensures multiset(PreOrder(RelinkShape(t, source, idx, target))) <= multiset(PreOrder(t))
  {
    DetachStep(h, t, source, idx);
    var E := SubAt(t, source).kids[idx];
    var h1 := SetSubordinates(h, source, SpliceOne(h[source].subordinates, idx));
    var t1 := Detach(t, source, idx, []);
    var h' := Relink(h, source, idx, E.ref, target);
    var t' := RelinkShape(t, source, idx, target);
    if target in PreOrder(t1) {
      Frame(h, h', E);
      AttachHeld(h1, h', t1, target, E);
      AttachBag(t1, target, E);
    } else {
      Frame(h1, h', t1);
    }
    WellFormedBelow(h, t, h', t');
  }

  /** Taking the elements of `b` away from a sequence without repeats leaves a sequence
    * without repeats holding exactly the elements not in `b`; putting them back gives the
    * elements of the original. */
  lemma {:induction false} CountsBelow(a: seq<Ref>, b: seq<Ref>, c: seq<Ref>)
    requires Once(a) && multiset(b) <= multiset(a) && multiset(c) == multiset(a) - multiset(b)
    ensures Once(c) && (forall x :: x in c <==> x in a && x !in b)
    ensures multiset(c) + multiset(b) == multiset(a)
  {
    forall x ensures multiset(c)[x] <= 1 && (x in c <==> x in a && x !in b) {
      assert multiset(a)[x] <= 1;
    }
    forall x ensures (multiset(c) + multiset(b))[x] == multiset(a)[x] {
      assert multiset(b)[x] <= multiset(a)[x];
    }
  }

  /** Sequences with the same elements counted alike hold the same elements. */
  lemma {:induction false} SameCounts(a: seq<Ref>, c: seq<Ref>)
    requires multiset(c) == multiset(a)
    ensures forall x :: x in c <==> x in a
  {
    forall x ensures x in c <==> x in a {
      assert x in c <==> x in multiset(c);
    }
  }

  /** A hierarchy whose nodes are those of a well-formed one, less those of `E` when `cut`
    * holds, carries the ids of that one, less those of `E`. */
  lemma {:induction false} IdsAfterCut(h: Heap, h': Heap, t: Tree, E: Tree, t': Tree, cut: bool)
    requires WellFormed(h, t) && Represents(h', t') && Represents(h, E) && SameIds(h, h')
    requires forall x :: x in PreOrder(E) ==> x in PreOrder(t)
    requires forall x :: x in PreOrder(t') <==> x in PreOrder(t) && (cut ==> x !in PreOrder(E))
    ensures forall id :: id in OrgIds(Value(h', t')) <==>
      id in OrgIds(Value(h, t)) && (cut ==> id !in OrgIds(Value(h, E)))
  {
    WellFormedIff(h, t);
    IdsOfNodes(h, t);
    IdsOfNodes(h, E);
    IdsOfNodes(h', t');
    forall id ensures id in OrgIds(Value(h', t')) <==>
      id in OrgIds(Value(h, t)) && (cut ==> id !in OrgIds(Value(h, E)))
    {
      if id in OrgIds(Value(h', t')) {
        var x :| x in PreOrder(t') && x in h' && h'[x].uniqueId == id;
        assert x in PreOrder(t) && h[x].uniqueId == id;
        assert cut ==> forall y :: y in PreOrder(E) && y in h ==> h[y].uniqueId != id;
      }
      if id in OrgIds(Value(h, t)) && (cut ==> id !in OrgIds(Value(h, E))) {
        var x :| x in PreOrder(t) && x in h && h[x].uniqueId == id;
        assert x in PreOrder(t');
      }
    }
  }

  /** The roots of the children without child `idx` are the roots without slot `idx`. */
  lemma {:induction false} RootsWithout(ks: seq<Tree>, idx: int)
    requires 0 <= idx < |ks|
    ensures Roots(ks[..idx] + ks[idx + 1..]) == Roots(ks)[..idx] + Roots(ks)[idx + 1..]
  {
  }

  /** In a hierarchy where every node occurs once, no list names one object twice. */
  lemma {:induction false} ListOnce(h: Heap, t: Tree, x: Ref)
    requires Represents(h, t) && Once(PreOrder(t)) && x in PreOrder(t)
    ensures x in h && NoDup(h[x].subordinates)
  {
    var P := SubAt(t, x);
    SubAtRepresents(h, t, x);
    var ks := P.kids;
    assert PreOrder(P) == [x] + PreOrderAll(ks);
    forall i, j | 0 <= i < j < |ks| ensures Roots(ks)[i] != Roots(ks)[j] {
      TwoKidsBag(ks, i, j);
      var a := ks[i].ref;
      assert PreOrder(ks[i])[0] == a && PreOrder(ks[j])[0] == ks[j].ref;
      assert multiset(PreOrder(t))[a] <= 1;
      assert multiset(PreOrderAll(ks))[a] <= 1;
      assert multiset(PreOrder(ks[j]))[a] == 0;
    }
  }

  /** Two different children contribute their nodes side by side. */
  lemma {:induction false} TwoKidsBag(ks: seq<Tree>, i: int, j: int)
    requires 0 <= i < j < |ks|
    ensures multiset(PreOrder(ks[i])) + multiset(PreOrder(ks[j])) <= multiset(PreOrderAll(ks))
  {
    var front := ks[..j];
    assert front[i] == ks[i];
    KidBag(front, i);
    PreOrderAllSplit(ks, j);
    BagSum(multiset(PreOrder(ks[i])), multiset(PreOrderAll(front)), multiset(PreOrder(ks[j])),
      multiset(PreOrderAll(ks[j + 1..])), multiset(PreOrderAll(ks)));
  }

  lemma {:induction false} BagSum(Mi: multiset<Ref>, Mf: multiset<Ref>, Mj: multiset<Ref>, Mr: multiset<Ref>, Mall: multiset<Ref>)
    requires Mi <= Mf && Mall == Mf + Mj + Mr
    ensures Mi + Mj <= Mall
  {
  }

  /** The record an allowed `move` pushes: the id, the employee's current supervisor and the
    * node carrying the target id. */
  ghost function MoveRecord(h: Heap, t: Tree, employeeId: int, supervisorId: int): Action
    requires WellFormed(h, t) && MoveAllowed(Value(h, t), employeeId, supervisorId)
  {
    MoveSlot(h, t, employeeId, supervisorId);
    Action(employeeId, FindSupervisor(h, t.ref, employeeId, t).value,
      FindEmployee(h, t.ref, supervisorId, t).value)
  }

  /** The sub-hierarchy an allowed `move` relocates: the employee and everyone below it. */
  ghost function MovedSubtree(h: Heap, t: Tree, employeeId: int, supervisorId: int): Tree
    requires WellFormed(h, t) && MoveAllowed(Value(h, t), employeeId, supervisorId)
  {
    MoveSlot(h, t, employeeId, supervisorId);
    var from := FindSupervisor(h, t.ref, employeeId, t).value;
    Taken(t, from, MoveIndex(h, t, employeeId, supervisorId))
  }

  /** The store after an allowed `move`. */
  ghost function MovedStore(h: Heap, t: Tree, employeeId: int, supervisorId: int): Heap
    requires WellFormed(h, t) && MoveAllowed(Value(h, t), employeeId, supervisorId)
  {
    MoveSlot(h, t, employeeId, supervisorId);
    WellFormedIff(h, t);
    var a := MoveRecord(h, t, employeeId, supervisorId);
    Relink(h, a.fromSupervisor, MoveIndex(h, t, employeeId, supervisorId),
      FindEmployee(h, t.ref, employeeId, t).value, a.toSupervisor)
  }

  /** The shape of the live hierarchy after an allowed `move`. */
  ghost function MovedShape(h: Heap, t: Tree, employeeId: int, supervisorId: int): Tree
    requires WellFormed(h, t) && MoveAllowed(Value(h, t), employeeId, supervisorId)
  {
    MoveSlot(h, t, employeeId, supervisorId);
    var a := MoveRecord(h, t, employeeId, supervisorId);
    RelinkShape(t, a.fromSupervisor, MoveIndex(h, t, employeeId, supervisorId), a.toSupervisor)
  }

  /** The record names the employee's supervisor before the move, which lists the
    * employee, and the node that carries the target id. */
  lemma {:induction false} MoveRecordNames(h: Heap, t: Tree, employeeId: int, supervisorId: int)
    requires WellFormed(h, t) && MoveAllowed(Value(h, t), employeeId, supervisorId)
    ensures var a := MoveRecord(h, t, employeeId, supervisorId);
      var e := MovedSubtree(h, t, employeeId, supervisorId).ref;
      && a.employeeId == employeeId
      && a.fromSupervisor in PreOrder(t) && a.fromSupervisor in h
      && e in h && h[e].uniqueId == employeeId && e in h[a.fromSupervisor].subordinates
      && a.toSupervisor in PreOrder(t) && a.toSupervisor in h
      && h[a.toSupervisor].uniqueId == supervisorId
  {
    MoveSlot(h, t, employeeId, supervisorId);
    FindSupervisorHoldsEmployee(h, t, employeeId);
    var e := FindEmployee(h, t.ref, employeeId, t).value;
    var to := FindEmployee(h, t.ref, supervisorId, t).value;
    FindEmployeeExact(h, t, employeeId, e);
    FindEmployeeExact(h, t, supervisorId, to);
  }

  /** An allowed `move` keeps the hierarchy well-formed under the same top. When the target
    * lies outside the employee's sub-hierarchy, every node and every id stays; otherwise
    * (a move under oneself or under one's own report) that whole sub-hierarchy is cut off
    * from the top and its ids are gone. */
  lemma {:induction false} MoveKeepsTree(h: Heap, t: Tree, employeeId: int, supervisorId: int)
    requires WellFormed(h, t) && MoveAllowed(Value(h, t), employeeId, supervisorId)
    ensures FindEmployee(h, t.ref, employeeId, t).Some?
    ensures var a := MoveRecord(h, t, employeeId, supervisorId);
      var E := MovedSubtree(h, t, employeeId, supervisorId);
      var h' := MovedStore(h, t, employeeId, supervisorId);
      var t' := MovedShape(h, t, employeeId, supervisorId);
      && E.ref == FindEmployee(h, t.ref, employeeId, t).value && Represents(h, E)
      && WellFormed(h', t') && t'.ref == t.ref
      && (a.toSupervisor !in PreOrder(E) ==> multiset(PreOrder(t')) == multiset(PreOrder(t)))
      && (a.toSupervisor in PreOrder(E) ==>
            multiset(PreOrder(t')) == multiset(PreOrder(t)) - multiset(PreOrder(E)))
      && (forall id :: id in OrgIds(Value(h', t')) <==>
            id in OrgIds(Value(h, t)) &&
            (a.toSupervisor in PreOrder(E) ==> id !in OrgIds(Value(h, E))))
  {
    MoveSlot(h, t, employeeId, supervisorId);
    WellFormedIff(h, t);
    var a := MoveRecord(h, t, employeeId, supervisorId);
    var idx := MoveIndex(h, t, employeeId, supervisorId);
    var E := MovedSubtree(h, t, employeeId, supervisorId);
    var h' := MovedStore(h, t, employeeId, supervisorId);
    var t' := MovedShape(h, t, employeeId, supervisorId);
    TakenChild(h, t, a.fromSupervisor, idx);
    RelinkReshapes(h, t, a.fromSupervisor, idx, a.toSupervisor);
    var cut := a.toSupervisor in PreOrder(E);
    if cut {
      CountsBelow(PreOrder(t), PreOrder(E), PreOrder(t'));
    } else {
      SameCounts(PreOrder(t), PreOrder(t'));
    }
    IdsAfterCut(h, h', t, E, t', cut);
  }

  /** The edit of `undo` for record `a`, with `e` the node found for its id: the first node
    * of the target's list with that id is spliced out (the last one when there is none),
    * and `e` is appended to the former supervisor's list. */
  function UndoStore(h: Heap, a: Action, e: Ref): Heap
    requires a.fromSupervisor in h && a.toSupervisor in h
    requires AllIn(h, h[a.toSupervisor].subordinates)
  {
    Relink(h, a.toSupervisor, IndexOfId(h, h[a.toSupervisor].subordinates, a.employeeId), e,
      a.fromSupervisor)
  }

  /** `undo` of record `a` puts a sub-hierarchy back into the chart: the target is still in
    * the chart and still lists a node with the recorded id. */
  ghost predicate Restorable(h: Heap, t: Tree, a: Action)
    requires a.toSupervisor in h && AllIn(h, h[a.toSupervisor].subordinates)
  {
    a.toSupervisor in PreOrder(t) &&
    IndexOfId(h, h[a.toSupervisor].subordinates, a.employeeId) != -1
  }

  /** The shape of the live hierarchy after `undo` of a restorable record. */
  ghost function UndoShape(h: Heap, t: Tree, a: Action): Tree
    requires WellFormed(h, t) && Closed(h) && a.toSupervisor in h && Restorable(h, t, a)
  {
    SubAtRepresents(h, t, a.toSupervisor);
    RelinkShape(t, a.toSupervisor,
      IndexOfId(h, h[a.toSupervisor].subordinates, a.employeeId), a.fromSupervisor)
  }

  /** `undo` of a restorable record finds the employee, and keeps the hierarchy well-formed
    * under the same top; the node it moves is the one it found. */
  lemma {:induction false} UndoKeepsTree(h: Heap, t: Tree, a: Action)
    requires WellFormed(h, t) && Closed(h) && a.fromSupervisor in h && a.toSupervisor in h
    requires Restorable(h, t, a)
    ensures FindEmployee(h, t.ref, a.employeeId, t).Some?
    ensures var e := FindEmployee(h, t.ref, a.employeeId, t).value;
      var t' := UndoShape(h, t, a);
      && WellFormed(UndoStore(h, a, e), t') && t'.ref == t.ref
      && multiset(PreOrder(t')) <= multiset(PreOrder(t))
  {
    var s := h[a.toSupervisor].subordinates;
    var idx := IndexOfId(h, s, a.employeeId);
    SubAtRepresents(h, t, a.toSupervisor);
    ChildInTree(h, t, a.toSupervisor, s[idx]);
    assert s[idx] in PreOrder(t);
    FindEmployeeExact(h, t, a.employeeId, s[idx]);
    RelinkReshapes(h, t, a.toSupervisor, idx, a.fromSupervisor);
  }

  /** What `move` computes from the three lookups and the slot it finds is the record, the
    * store and the shape of an allowed move, and the store stays free of dangling
    * references. */
  lemma {:induction false} MoveStep(h: Heap, t: Tree, employeeId: int, supervisorId: int, idx: int)
    requires WellFormed(h, t) && Closed(h)
    requires FindEmployee(h, t.ref, employeeId, t).Some?
    requires FindSupervisor(h, t.ref, employeeId, t).Some?
    requires FindEmployee(h, t.ref, supervisorId, t).Some?
    requires var from := FindSupervisor(h, t.ref, employeeId, t).value;
      from in h && AllIn(h, h[from].subordinates) &&
      idx == IndexOfId(h, h[from].subordinates, employeeId)
    ensures MoveAllowed(Value(h, t), employeeId, supervisorId)
    ensures var e := FindEmployee(h, t.ref, employeeId, t).value;
      var from := FindSupervisor(h, t.ref, employeeId, t).value;
      var to := FindEmployee(h, t.ref, supervisorId, t).value;
      && to in h
      && Action(employeeId, from, to) == MoveRecord(h, t, employeeId, supervisorId)
      && Relink(h, from, idx, e, to) == MovedStore(h, t, employeeId, supervisorId)
      && Closed(Relink(h, from, idx, e, to))
      && WellFormed(Relink(h, from, idx, e, to), MovedShape(h, t, employeeId, supervisorId))
      && MovedShape(h, t, employeeId, supervisorId).ref == t.ref
  {
    LookupsSucceedIff(h, t, employeeId, supervisorId);
    MoveSlot(h, t, employeeId, supervisorId);
    MoveRecordNames(h, t, employeeId, supervisorId);
    MoveKeepsTree(h, t, employeeId, supervisorId);
    var e := FindEmployee(h, t.ref, employeeId, t).value;
    var from := FindSupervisor(h, t.ref, employeeId, t).value;
    var to := FindEmployee(h, t.ref, supervisorId, t).value;
    RelinkClosed(h, from, idx, e, to);
  }

  /** Splicing slot `i` (holding `e`) out of `from`'s list and appending `e` to `to`'s list,
    * then splicing the last slot of `to`'s list out and appending `e` to `from`'s list,
    * restores every list but `from`'s, which now has `e` last. */
  lemma {:induction false} RelinkBack(h: Heap, from: Ref, i: int, e: Ref, to: Ref, j: int)
    requires from in h && to in h && 0 <= i < |h[from].subordinates|
    requires h[from].subordinates[i] == e
    requires j == |Relink(h, from, i, e, to)[to].subordinates| - 1
    ensures var h2 := Relink(Relink(h, from, i, e, to), to, j, e, from);
      && h2.Keys == h.Keys
      && h2[from].subordinates == h[from].subordinates[..i] + h[from].subordinates[i + 1..] + [e]
      && forall y :: y in h && y != from ==> h2[y] == h[y]
  {
    var h1 := Relink(h, from, i, e, to);
    var h2 := Relink(h1, to, j, e, from);
    var s := h[from].subordinates;
    SpliceAtIndex(s, i);
    var s1 := h1[to].subordinates;
    SpliceAtIndex(s1, |s1| - 1);
    assert s1[..|s1| - 1] + s1[|s1|..] == s1[..|s1| - 1];
    if to != from {
      assert h2[to].subordinates == h[to].subordinates;
    }
  }

  /** After a move to a target outside the employee's sub-hierarchy, `undo` of its record
    * finds the employee, sees a restorable record, and splices the last slot of the
    * target's list, where the move put the employee. */
  lemma {:induction false} MoveThenFind(h: Heap, t: Tree, employeeId: int, supervisorId: int)
    requires WellFormed(h, t) && Closed(h) && MoveAllowed(Value(h, t), employeeId, supervisorId)
    requires MoveRecord(h, t, employeeId, supervisorId).toSupervisor
      !in PreOrder(MovedSubtree(h, t, employeeId, supervisorId))
    ensures var a := MoveRecord(h, t, employeeId, supervisorId);
      var e := MovedSubtree(h, t, employeeId, supervisorId).ref;
      var h1 := MovedStore(h, t, employeeId, supervisorId);
      var t1 := MovedShape(h, t, employeeId, supervisorId);
      var i := MoveIndex(h, t, employeeId, supervisorId);
      && a.employeeId == employeeId
      && a.fromSupervisor in h && 0 <= i < |h[a.fromSupervisor].subordinates|
      && h[a.fromSupervisor].subordinates[i] == e && a.toSupervisor in h
      && h1 == Relink(h, a.fromSupervisor, i, e, a.toSupervisor)
      && WellFormed(h1, t1) && Closed(h1)
      && FindEmployee(h1, t1.ref, employeeId, t1) == Some(e)
      && a.fromSupervisor in h1 && a.toSupervisor in h1 && Restorable(h1, t1, a)
      && IndexOfId(h1, h1[a.toSupervisor].subordinates, employeeId) ==
           |h1[a.toSupervisor].subordinates| - 1
  {
    MoveSlot(h, t, employeeId, supervisorId);
    MoveRecordNames(h, t, employeeId, supervisorId);
    MoveKeepsTree(h, t, employeeId, supervisorId);
    WellFormedIff(h, t);
    var a := MoveRecord(h, t, employeeId, supervisorId);
    var from, to := a.fromSupervisor, a.toSupervisor;
    var i := MoveIndex(h, t, employeeId, supervisorId);
    var E := MovedSubtree(h, t, employeeId, supervisorId);
    var e := E.ref;
    var h1 := MovedStore(h, t, employeeId, supervisorId);
    var t1 := MovedShape(h, t, employeeId, supervisorId);
    TakenChild(h, t, from, i);
    RelinkClosed(h, from, i, e, to);
    WellFormedIff(h1, t1);
    SameCounts(PreOrder(t), PreOrder(t1));
    FindEmployeeExact(h1, t1, employeeId, e);
    var s1 := h1[to].subordinates;
    var last := |s1| - 1;
    var j := IndexOfId(h1, s1, employeeId);
    assert s1[last] == e;
    ChildInTree(h1, t1, to, s1[j]);
    FindEmployeeExact(h1, t1, employeeId, s1[j]);
    ListOnce(h1, t1, to);
  }

  /** Moving an employee to a target outside its own sub-hierarchy and then undoing the
    * move gives back the store as it was, except that the employee now stands last in its
    * supervisor's list: the target's list is restored exactly and no other list changes. */
  lemma {:induction false} MoveThenUndo(h: Heap, t: Tree, employeeId: int, supervisorId: int)
    requires WellFormed(h, t) && Closed(h) && MoveAllowed(Value(h, t), employeeId, supervisorId)
    requires MoveRecord(h, t, employeeId, supervisorId).toSupervisor
      !in PreOrder(MovedSubtree(h, t, employeeId, supervisorId))
    ensures var a := MoveRecord(h, t, employeeId, supervisorId);
      var e := MovedSubtree(h, t, employeeId, supervisorId).ref;
      var h1 := MovedStore(h, t, employeeId, supervisorId);
      var i := MoveIndex(h, t, employeeId, supervisorId);
      && Closed(h1) && a.fromSupervisor in h1 && a.toSupervisor in h1
      && a.fromSupervisor in h && 0 <= i < |h[a.fromSupervisor].subordinates|
      && h[a.fromSupervisor].subordinates[i] == e
      && var h2 := UndoStore(h1, a, e);
        && h2.Keys == h.Keys
        && h2[a.fromSupervisor].subordinates ==
             h[a.fromSupervisor].subordinates[..i] + h[a.fromSupervisor].subordinates[i + 1..] + [e]
        && forall y :: y in h && y != a.fromSupervisor ==> h2[y] == h[y]
  {
    MoveThenFind(h, t, employeeId, supervisorId);
    var a := MoveRecord(h, t, employeeId, supervisorId);
    var h1 := MovedStore(h, t, employeeId, supervisorId);
    RelinkBack(h, a.fromSupervisor, MoveIndex(h, t, employeeId, supervisorId),
               MovedSubtree(h, t, employeeId, supervisorId).ref, a.toSupervisor,
               IndexOfId(h1, h1[a.toSupervisor].subordinates, employeeId));
  }

  /** The application object: the top of the chart and the log of moves. `live` describes
    * the hierarchy reachable from `ceo`. */
  class EmployeeOrgApp {
    var heap: Heap
    var ceo: Ref
    var history: seq<Action>
    ghost var live: Tree

    ghost predicate Valid()
      reads this
    {
      Closed(heap) && WellFormed(heap, live) && live.ref == ceo && Logged(heap, history)
    }

    /** `new EmployeeOrgApp(ceo)`: the chart is used as given and the log starts empty. */
    constructor(h: Heap, ceo: Ref, ghost t: Tree)
      requires Closed(h) && WellFormed(h, t) && t.ref == ceo
      ensures Valid() && heap == h && this.ceo == ceo && history == [] && live == t
    {
      heap := h;
      this.ceo := ceo;
      history := [];
      live := t;
    }

    /** `move(employeeID, supervisorID)`: fails, changing nothing, unless all three lookups
      * succeed; otherwise logs the record and relinks the employee, with its whole
      * sub-hierarchy, from its supervisor's list to the end of the target's list. */
    method Move(employeeId: int, supervisorId: int) returns (outcome: Outcome)
      requires Valid()
      modifies this
      ensures Valid() && ceo == old(ceo)
      ensures outcome.Done? <==> old(MoveAllowed(Value(heap, live), employeeId, supervisorId))
      ensures outcome.Failed? ==> outcome.failure == InvalidEmployeeOrSupervisorId && unchanged(this)
      ensures outcome.Done? ==>
        && history == old(history) + [old(MoveRecord(heap, live, employeeId, supervisorId))]
        && heap == old(MovedStore(heap, live, employeeId, supervisorId))
        && live == old(MovedShape(heap, live, employeeId, supervisorId))
    {
      var employee := FindEmployee(heap, ceo, employeeId, live);
      var fromSupervisor := FindSupervisor(heap, ceo, employeeId, live);
      var toSupervisor := FindEmployee(heap, ceo, supervisorId, live);
      LookupsSucceedIff(heap, live, employeeId, supervisorId);
      if employee.None? || fromSupervisor.None? || toSupervisor.None? {
        return Failed(InvalidEmployeeOrSupervisorId);
      }
      var e, from, to := employee.value, fromSupervisor.value, toSupervisor.value;
      var idx := FindIndex(heap, heap[from].subordinates, employeeId);
      MoveStep(heap, live, employeeId, supervisorId, idx);
      ghost var t' := MovedShape(heap, live, employeeId, supervisorId);
      var h' := Relink(heap, from, idx, e, to);
      LoggedPush(heap, h', history, Action(employeeId, from, to));
      Commit(h', history + [Action(employeeId, from, to)], t');
      return Done;
    }

    /** `undo()`: fails on an empty log; otherwise pops the last record first, fails if its
      * id is no longer found, and else splices the first node with that id out of the
      * recorded target's list (the last node when there is none) and appends the found
      * employee to the recorded former supervisor's list. */
    method Undo() returns (outcome: Outcome)
      requires Valid()
      modifies this
      ensures ceo == old(ceo) && Closed(heap) && Logged(heap, history)
      ensures old(history) == [] ==> outcome == Failed(NoActionsToUndo) && unchanged(this)
      ensures old(history) != [] ==> history == old(history[..|history| - 1])
      ensures old(history) != [] ==>
        (outcome.Done? <==>
         old(FindEmployee(heap, ceo, history[|history| - 1].employeeId, live)).Some?)
      ensures old(history) != [] && outcome.Failed? ==>
        outcome.failure == InvalidEmployeeId && heap == old(heap) && live == old(live) && Valid()
      ensures outcome.Done? ==>
        heap == old(UndoStore(heap, history[|history| - 1],
          FindEmployee(heap, ceo, history[|history| - 1].employeeId, live).value))
      ensures outcome.Done? && old(Restorable(heap, live, history[|history| - 1])) ==>
        Valid() && live == old(UndoShape(heap, live, history[|history| - 1]))
    {
      if history == [] {
        return Failed(NoActionsToUndo);
      }
      var lastAction := history[|history| - 1];
      var rest := history[..|history| - 1];
      var employee := FindEmployee(heap, ceo, lastAction.employeeId, live);
      if employee.None? {
        Commit(heap, rest, live);
        return Failed(InvalidEmployeeId);
      }
      var e := employee.value;
      var from, to := lastAction.fromSupervisor, lastAction.toSupervisor;
      FindEmployeeExact(heap, live, lastAction.employeeId, e);
      var idx := FindIndex(heap, heap[to].subordinates, lastAction.employeeId);
      RelinkClosed(heap, to, idx, e, from);
      ghost var t' := live;
      if Restorable(heap, live, lastAction) {
        UndoKeepsTree(heap, live, lastAction);
        t' := UndoShape(heap, live, lastAction);
      }
      Commit(Relink(heap, to, idx, e, from), rest, t');
      return Done;
    }

    /** `redo()`: always throws, changing nothing. */
    method Redo() returns (outcome: Outcome)
      ensures outcome == Failed(RedoNotImplemented)
    {
      return Failed(RedoNotImplemented);
    }

    /** Stores the new state in one step. */
    method Commit(h: Heap, history': seq<Action>, ghost live': Tree)
      modifies this
      ensures heap == h && history == history' && live == live' && ceo == old(ceo)
    {
      heap, history, live := h, history', live';
    }
  }
}

/** The snapshot variant's `EmployeeOrgApp`: a live hierarchy edited in place by `move`, a
  * history of deep copies, and an index into that history that `undo` and `redo` walk. */
module SnapshotApp {
  import opened OrgTree
  import opened TreeEdit
  import opened OrgClone
  import opened SnapshotDiff
  import opened SnapshotMove

  /** The live side of the state: `live` is the shape of the hierarchy at `ceo`, with unique
    * ids, under the top id of the hierarchy the application was built with (`initial`) and
    * carrying no id that one lacked. */
  ghost predicate LiveOk(h: Heap, ceo: Ref, live: Tree, initial: Org)
  {
    && Dense(h) && WellFormed(h, live) && live.ref == ceo
    && NoDup(OrgIds(initial)) && Value(h, live).uniqueId == initial.uniqueId
    && (forall id :: id in OrgIds(Value(h, live)) ==> id in OrgIds(initial))
  }

  /** The history side of the state: every entry of `history` is a copy, held apart from the
    * live hierarchy, of `initial` (`move` copies the current entry, never the live
    * hierarchy); `cur` indexes `history`. */
  ghost predicate HistoryOk(h: Heap, history: seq<Ref>, cur: int, live: Tree, snaps: seq<Tree>, initial: Org)
  {
    && |snaps| == |history| && 0 <= cur < |history|
    && (forall i :: 0 <= i < |snaps| ==>
          Represents(h, snaps[i]) && snaps[i].ref == history[i] && Value(h, snaps[i]) == initial)
    && (forall i, x :: 0 <= i < |snaps| && x in PreOrder(snaps[i]) ==> x !in PreOrder(live))
  }

  /** The state of the application. */
  ghost predicate Consistent(h: Heap, ceo: Ref, history: seq<Ref>, cur: int, live: Tree,
                             snaps: seq<Tree>, initial: Org)
  {
    LiveOk(h, ceo, live, initial) && HistoryOk(h, history, cur, live, snaps, initial)
  }

  /** The store after an allowed `move`: the copy appended to the history occupies the new
    * objects, and the old objects are edited as `MoveEdit` says. */
  ghost function EditAfterCopy(h: Heap, live: Tree, h2: Heap, employeeId: int, supervisorId: int): Heap
    requires WellFormed(h, live) && MoveAllowed(Value(h, live), employeeId, supervisorId)
  {
    Merge(h, h2, MoveEdit(h, live, employeeId, supervisorId))
  }

  /** The objects of `h2`, taken from `edited` where `h` has them. */
  function Merge(h: Heap, h2: Heap, edited: Heap): Heap
    requires forall x :: x in h ==> x in edited
  {
    map x | x in h2 :: if x in h then edited[x] else h2[x]
  }

  /** An allowed move changes only nodes of the live hierarchy. */
  lemma {:induction false} MoveTouchesLive(h: Heap, t: Tree, employeeId: int, supervisorId: int)
    requires WellFormed(h, t) && MoveAllowed(Value(h, t), employeeId, supervisorId)
    ensures var h' := MoveEdit(h, t, employeeId, supervisorId);
      h'.Keys == h.Keys && forall y :: y in h && y !in PreOrder(t) ==> h'[y] == h[y]
  {
    MoveLists(h, t, employeeId, supervisorId);
  }

  /** The reshaped live hierarchy is made of nodes of the old one. */
  lemma {:induction false} ShapeWithinLive(h: Heap, live: Tree, employeeId: int, supervisorId: int)
    requires WellFormed(h, live) && MoveAllowed(Value(h, live), employeeId, supervisorId)
    ensures forall x :: x in PreOrder(MoveShape(h, live, employeeId, supervisorId)) ==> x in PreOrder(live) && x in h
  {
    var t' := MoveShape(h, live, employeeId, supervisorId);
    var before, after := PreOrder(live), PreOrder(t');
    assert multiset(after) <= multiset(before) by {
      MoveReshapes(h, live, employeeId, supervisorId);
    }
    assert AllIn(h, before) by {
      WellFormedIff(h, live);
    }
    forall x | x in after ensures x in before && x in h {
      assert multiset(after)[x] <= multiset(before)[x];
    }
  }

  /** After an allowed move, the live hierarchy is the reshaped one, well-formed, with the
    * same top and top id and no id the first hierarchy lacked. */
  lemma {:induction false} LiveAfterMove(h: Heap, live: Tree, initial: Org, h2: Heap, employeeId: int, supervisorId: int)
    requires WellFormed(h, live) && MoveAllowed(Value(h, live), employeeId, supervisorId)
    requires Value(h, live).uniqueId == initial.uniqueId
    requires forall id :: id in OrgIds(Value(h, live)) ==> id in OrgIds(initial)
    requires Extends(h, h2)
    ensures var h' := EditAfterCopy(h, live, h2, employeeId, supervisorId);
      var t' := MoveShape(h, live, employeeId, supervisorId);
      && WellFormed(h', t') && t'.ref == live.ref && Value(h', t').uniqueId == initial.uniqueId
      && (forall id :: id in OrgIds(Value(h', t')) <==>
            id in OrgIds(Value(h, live)) && (employeeId == supervisorId ==> id != employeeId))
      && (forall id :: id in OrgIds(Value(h', t')) ==> id in OrgIds(initial))
      && forall x :: x in PreOrder(t') ==> x in PreOrder(live) && x in h
  {
    var edited := MoveEdit(h, live, employeeId, supervisorId);
    var h' := EditAfterCopy(h, live, h2, employeeId, supervisorId);
    var t' := MoveShape(h, live, employeeId, supervisorId);
    MoveReshapes(h, live, employeeId, supervisorId);
    IdsOfValue(h, live);
    ShapeWithinLive(h, live, employeeId, supervisorId);
    assert SameOn(edited, h', PreOrder(t'));
    Frame(edited, h', t');
    assert Value(edited, t').uniqueId == edited[t'.ref].uniqueId;
  }

  /** An allowed move leaves every object outside the live hierarchy as the copy left it. */
  lemma {:induction false} EditFrame(h: Heap, live: Tree, h2: Heap, employeeId: int, supervisorId: int)
    requires WellFormed(h, live) && MoveAllowed(Value(h, live), employeeId, supervisorId)
    requires Extends(h, h2)
    ensures var h' := EditAfterCopy(h, live, h2, employeeId, supervisorId);
      h'.Keys == h2.Keys && forall x :: x in h2 && x !in PreOrder(live) ==> h'[x] == h2[x]
  {
    MoveTouchesLive(h, live, employeeId, supervisorId);
  }

  /** A copy made of objects outside the live hierarchy is untouched by a change confined to
    * that hierarchy. */
  lemma {:induction false} KeptCopy(h2: Heap, h': Heap, live: Tree, s: Tree)
    requires Represents(h2, s) && forall x :: x in PreOrder(s) ==> x !in PreOrder(live)
    requires forall x :: x in h2 && x !in PreOrder(live) ==> x in h' && h'[x] == h2[x]
    ensures Represents(h', s) && Value(h', s) == Value(h2, s)
  {
    IdsOfValue(h2, s);
    assert SameOn(h2, h', PreOrder(s));
    Frame(h2, h', s);
  }

  /** The history side of the state, with the history cut after entry `cur` and a copy of
    * `initial` made of new objects appended, survives a change confined to the live
    * hierarchy that reshapes it to `t'` over its own objects. */
  lemma {:induction false} HistoryKept(h: Heap, h2: Heap, h': Heap, history: seq<Ref>, cur: int, live: Tree, t': Tree,
                    snaps: seq<Tree>, initial: Org, copy: Ref, tc: Tree)
    requires Dense(h) && AllIn(h, PreOrder(live)) && HistoryOk(h, history, cur, live, snaps, initial)
    requires Extends(h, h2) && Represents(h2, tc) && tc.ref == copy && Value(h2, tc) == initial
    requires forall x :: x in PreOrder(tc) ==> |h| <= x
    requires forall x :: x in h2 && x !in PreOrder(live) ==> x in h' && h'[x] == h2[x]
    requires forall x :: x in PreOrder(t') ==> x in PreOrder(live) && x in h
    ensures HistoryOk(h', history[..cur + 1] + [copy], cur + 1, t', snaps[..cur + 1] + [tc], initial)
  {
    var snaps' := snaps[..cur + 1] + [tc];
    var history' := history[..cur + 1] + [copy];
    forall i | 0 <= i < |snaps'|
      ensures Represents(h', snaps'[i]) && snaps'[i].ref == history'[i] && Value(h', snaps'[i]) == initial
    {
      if i <= cur {
        assert snaps'[i] == snaps[i] && history'[i] == history[i];
        Fresh(h, h2, snaps[i]);
        KeptCopy(h2, h', live, snaps[i]);
      } else {
        assert snaps'[i] == tc && history'[i] == copy;
        assert forall x :: x in PreOrder(tc) ==> x !in PreOrder(live) by {
          forall x | x in PreOrder(tc) ensures x !in PreOrder(live) {
            assert x !in h;
          }
        }
        KeptCopy(h2, h', live, tc);
      }
    }
    ApartAfterMove(h, live, snaps, cur, t', tc);
  }

  /** The history cut after entry `cur`, with a copy made of new objects appended, lies apart
    * from a hierarchy made of old objects of the live one. */
  lemma {:induction false} ApartAfterMove(h: Heap, live: Tree, snaps: seq<Tree>, cur: int, t': Tree, tc: Tree)
    requires Dense(h) && 0 <= cur < |snaps|
    requires forall i, x :: 0 <= i < |snaps| && x in PreOrder(snaps[i]) ==> x !in PreOrder(live)
    requires forall x :: x in PreOrder(t') ==> x in PreOrder(live) && x in h
    requires forall x :: x in PreOrder(tc) ==> |h| <= x
    ensures var snaps' := snaps[..cur + 1] + [tc];
      forall i, x :: 0 <= i < |snaps'| && x in PreOrder(snaps'[i]) ==> x !in PreOrder(t')
  {
    var snaps' := snaps[..cur + 1] + [tc];
    forall i, x | 0 <= i < |snaps'| && x in PreOrder(snaps'[i]) ensures x !in PreOrder(t') {
      if i == cur + 1 {
        assert x !in h;
      } else {
        assert snaps'[i] == snaps[i];
      }
    }
  }

  /** A store with the keys of a dense store is dense. */
  lemma {:induction false} DenseKeys(h: Heap, h': Heap)
    requires Dense(h) && h'.Keys == h.Keys
    ensures Dense(h')
  {
    assert |h'| == |h| by { assert |h'.Keys| == |h.Keys|; }
  }

  /** The live side of the state survives an allowed move. */
  lemma {:induction false} LiveStep(h: Heap, ceo: Ref, live: Tree, initial: Org, h2: Heap, employeeId: int, supervisorId: int)
    requires LiveOk(h, ceo, live, initial) && MoveAllowed(Value(h, live), employeeId, supervisorId)
    requires Dense(h2) && Extends(h, h2)
    ensures LiveOk(EditAfterCopy(h, live, h2, employeeId, supervisorId), ceo,
                   MoveShape(h, live, employeeId, supervisorId), initial)
  {
    LiveAfterMove(h, live, initial, h2, employeeId, supervisorId);
    EditFrame(h, live, h2, employeeId, supervisorId);
    DenseKeys(h2, EditAfterCopy(h, live, h2, employeeId, supervisorId));
  }

  /** The history side of the state survives an allowed move and the copy `move` makes of
    * the current entry. */
  lemma {:induction false} HistoryStep(h: Heap, history: seq<Ref>, cur: int, live: Tree, snaps: seq<Tree>, initial: Org,
                    employeeId: int, supervisorId: int, h2: Heap, copy: Ref, tc: Tree)
    requires Dense(h) && WellFormed(h, live) && MoveAllowed(Value(h, live), employeeId, supervisorId)
    requires HistoryOk(h, history, cur, live, snaps, initial)
    requires Extends(h, h2) && Represents(h2, tc) && tc.ref == copy
    requires Value(h2, tc) == Value(h, snaps[cur])
    requires forall x :: x in PreOrder(tc) ==> |h| <= x
    ensures HistoryOk(EditAfterCopy(h, live, h2, employeeId, supervisorId), history[..cur + 1] + [copy],
                      cur + 1, MoveShape(h, live, employeeId, supervisorId), snaps[..cur + 1] + [tc], initial)
  {
    EditFrame(h, live, h2, employeeId, supervisorId);
    ShapeWithinLive(h, live, employeeId, supervisorId);
    WellFormedIff(h, live);
    HistoryKept(h, h2, EditAfterCopy(h, live, h2, employeeId, supervisorId), history, cur, live,
                MoveShape(h, live, employeeId, supervisorId), snaps, initial, copy, tc);
  }

  /** An allowed move, followed by the copy of the current history entry that `move` makes,
    * keeps the application consistent, with the history cut after the current entry and the
    * copy appended. */
  lemma {:induction false} MoveStep(h: Heap, ceo: Ref, history: seq<Ref>, cur: int, live: Tree, snaps: seq<Tree>,
                 initial: Org, employeeId: int, supervisorId: int, h2: Heap, copy: Ref, tc: Tree)
    requires Consistent(h, ceo, history, cur, live, snaps, initial)
    requires MoveAllowed(Value(h, live), employeeId, supervisorId)
    requires Dense(h2) && Extends(h, h2) && Represents(h2, tc) && tc.ref == copy
    requires Value(h2, tc) == Value(h, snaps[cur])
    requires forall x :: x in PreOrder(tc) ==> |h| <= x < |h2|
    ensures Consistent(EditAfterCopy(h, live, h2, employeeId, supervisorId), ceo,
                       history[..cur + 1] + [copy], cur + 1, MoveShape(h, live, employeeId, supervisorId),
                       snaps[..cur + 1] + [tc], initial)
  {
    LiveStep(h, ceo, live, initial, h2, employeeId, supervisorId);
    HistoryStep(h, history, cur, live, snaps, initial, employeeId, supervisorId, h2, copy, tc);
  }

  /** Setting a list on a store extended with new objects does to the old objects what it
    * does on the store it extends, and leaves the new ones alone. */
  lemma {:induction false} SetOnExtension(h: Heap, h2: Heap, x: Ref, subs: seq<Ref>)
    requires Extends(h, h2) && x in h
    ensures var f, f2 := SetSubordinates(h, x, subs), SetSubordinates(h2, x, subs);
      f2.Keys == h2.Keys && Extends(f, f2) && forall y :: y in h2 && y !in h ==> f2[y] == h2[y]
  {
  }

  /** `Flatten` on a store extended with new objects does to the old objects what it does on
    * the store it extends, and leaves the new ones alone. */
  lemma {:induction false} FlattenOnExtension(h: Heap, h2: Heap, from: Ref, idx: int, e: Ref, to: Ref)
    requires Extends(h, h2) && from in h && to in h && 0 <= idx < |h[from].subordinates|
    requires h[from].subordinates[idx] in h
    ensures var f, f2 := Flatten(h, from, idx, e, to), Flatten(h2, from, idx, e, to);
      f2.Keys == h2.Keys && Extends(f, f2) && forall x :: x in h2 && x !in h ==> f2[x] == h2[x]
  {
    var subs := h[from].subordinates;
    var moved := subs[idx];
    var rest := subs[..idx] + subs[idx + 1..];
    var a1, b1 := SetSubordinates(h, from, rest), SetSubordinates(h2, from, rest);
    SetOnExtension(h, h2, from, rest);
    var l2 := a1[from].subordinates + a1[moved].subordinates;
    var a2, b2 := SetSubordinates(a1, from, l2), SetSubordinates(b1, from, l2);
    SetOnExtension(a1, b1, from, l2);
    var a3, b3 := SetSubordinates(a2, moved, []), SetSubordinates(b2, moved, []);
    SetOnExtension(a2, b2, moved, []);
    assert Unlist(h, from, idx) == a3;
    assert Unlist(h2, from, idx) == b3;
    SetOnExtension(a3, b3, to, a3[to].subordinates + [e]);
  }

  /** A store that agrees with `MoveEdit` on the old objects and with the copy on the new
    * ones is the store `EditAfterCopy` describes. */
  lemma {:induction false} Merged(h: Heap, live: Tree, h2: Heap, employeeId: int, supervisorId: int, f2: Heap)
    requires WellFormed(h, live) && MoveAllowed(Value(h, live), employeeId, supervisorId)
    requires MoveEdit(h, live, employeeId, supervisorId).Keys == h.Keys
    requires f2.Keys == h2.Keys && Extends(MoveEdit(h, live, employeeId, supervisorId), f2)
    requires forall x :: x in h2 && x !in h ==> f2[x] == h2[x]
    ensures f2 == EditAfterCopy(h, live, h2, employeeId, supervisorId)
  {
    MergeMaps(h, h2, MoveEdit(h, live, employeeId, supervisorId), f2);
  }

  /** A store over the keys of `h2` that agrees with `edited` on the keys of `h` and with
    * `h2` elsewhere is the merge of the two. */
  lemma {:induction false} MergeMaps(h: Heap, h2: Heap, edited: Heap, f2: Heap)
    requires edited.Keys == h.Keys && f2.Keys == h2.Keys && Extends(edited, f2)
    requires forall x :: x in h2 && x !in h ==> f2[x] == h2[x]
    ensures f2 == Merge(h, h2, edited)
  {
    var g := Merge(h, h2, edited);
    assert f2.Keys == g.Keys;
    forall x | x in g ensures f2[x] == g[x] {
    }
  }

  /** The edit `move` makes, run on the store that already holds the new copy, is the edit
    * of `MoveEdit` on the old objects. */
  lemma {:induction false} CopyThenFlatten(h: Heap, live: Tree, h2: Heap, employeeId: int, supervisorId: int)
    requires WellFormed(h, live) && MoveAllowed(Value(h, live), employeeId, supervisorId)
    requires Extends(h, h2)
    ensures FindEmployee(h, live.ref, employeeId, live).Some?
    ensures FindSupervisor(h, live.ref, employeeId, live).Some?
    ensures FindEmployee(h, live.ref, supervisorId, live).Some?
    ensures var e := FindEmployee(h, live.ref, employeeId, live).value;
      var from := FindSupervisor(h, live.ref, employeeId, live).value;
      var to := FindEmployee(h, live.ref, supervisorId, live).value;
      var idx := MoveIndex(h, live, employeeId, supervisorId);
      && from in h && to in h && AllIn(h, h[from].subordinates)
      && idx == IndexOfId(h, h[from].subordinates, employeeId)
      && 0 <= idx < |h[from].subordinates| && h[from].subordinates[idx] == e
      && e in h && e != from
      && Flatten(h2, from, idx, e, to) == EditAfterCopy(h, live, h2, employeeId, supervisorId)
  {
    MoveSlot(h, live, employeeId, supervisorId);
    var e := FindEmployee(h, live.ref, employeeId, live).value;
    var from := FindSupervisor(h, live.ref, employeeId, live).value;
    var to := FindEmployee(h, live.ref, supervisorId, live).value;
    var idx := MoveIndex(h, live, employeeId, supervisorId);
    assert h[from].subordinates[idx] == e && e in h by {
      FlattenReshapes(h, live, from, idx, to);
    }
    assert e != from by {
      MoveLists(h, live, employeeId, supervisorId);
    }
    var f := MoveEdit(h, live, employeeId, supervisorId);
    assert f == Flatten(h, from, idx, e, to);
    assert f.Keys == h.Keys by {
      MoveTouchesLive(h, live, employeeId, supervisorId);
    }
    FlattenOnExtension(h, h2, from, idx, e, to);
    Merged(h, live, h2, employeeId, supervisorId, Flatten(h2, from, idx, e, to));
  }

  /** When the three lookups of `move` succeed, the move is allowed, and the edit `move`
    * makes with the objects they found, on the store that holds the new copy, is the one
    * `EditAfterCopy` describes. */
  lemma {:induction false} MoveFound(h: Heap, live: Tree, employeeId: int, supervisorId: int, e: Ref, from: Ref, to: Ref, h2: Heap)
    requires WellFormed(h, live) && Extends(h, h2)
    requires FindEmployee(h, live.ref, employeeId, live) == Some(e)
    requires FindSupervisor(h, live.ref, employeeId, live) == Some(from)
    requires FindEmployee(h, live.ref, supervisorId, live) == Some(to)
    ensures MoveAllowed(Value(h, live), employeeId, supervisorId)
    ensures from in h && to in h && AllIn(h, h[from].subordinates)
    ensures from in h2 && to in h2 && h2[from] == h[from]
    ensures var idx := IndexOfId(h, h[from].subordinates, employeeId);
      && 0 <= idx < |h[from].subordinates| && h[from].subordinates[idx] in h2
      && Flatten(h2, from, idx, e, to) == EditAfterCopy(h, live, h2, employeeId, supervisorId)
  {
    LookupsSucceedIff(h, live, employeeId, supervisorId);
    CopyThenFlatten(h, live, h2, employeeId, supervisorId);
  }

  /** The three lookups of `move` succeed exactly when the move is allowed, and then the
    * objects they find are in the store. */
  lemma {:induction false} MoveLookups(h: Heap, live: Tree, employeeId: int, supervisorId: int, e: Ref, from: Ref, to: Ref)
    requires WellFormed(h, live)
    requires FindEmployee(h, live.ref, employeeId, live) == Some(e)
    requires FindSupervisor(h, live.ref, employeeId, live) == Some(from)
    requires FindEmployee(h, live.ref, supervisorId, live) == Some(to)
    ensures MoveAllowed(Value(h, live), employeeId, supervisorId)
    ensures from in h && to in h && AllIn(h, h[from].subordinates)
    ensures var idx := IndexOfId(h, h[from].subordinates, employeeId);
      0 <= idx < |h[from].subordinates|
  {
    LookupsSucceedIff(h, live, employeeId, supervisorId);
    CopyThenFlatten(h, live, h, employeeId, supervisorId);
  }

  /** The state after an allowed `move`, against the state before it: the history is cut
    * after the current entry and one entry longer, the current entry is the new last one,
    * the live hierarchy takes the shape `MoveShape` gives, the old objects are edited as
    * `MoveEdit` says, and the live hierarchy keeps every id except the employee's own when
    * it is moved under itself. */
  ghost predicate MovedTo(h: Heap, live: Tree, history: seq<Ref>, cur: int, snaps: seq<Tree>,
                          employeeId: int, supervisorId: int,
                          h': Heap, live': Tree, history': seq<Ref>, cur': int, snaps': seq<Tree>)
    requires WellFormed(h, live) && MoveAllowed(Value(h, live), employeeId, supervisorId)
    requires 0 <= cur < |history| && cur < |snaps|
  {
    && cur' == cur + 1 == |history'| - 1 && |snaps'| == |history'|
    && (forall k :: 0 <= k <= cur ==> history'[k] == history[k] && snaps'[k] == snaps[k])
    && live' == MoveShape(h, live, employeeId, supervisorId)
    && h.Keys <= h'.Keys
    && (forall x :: x in h ==> h'[x] == MoveEdit(h, live, employeeId, supervisorId)[x])
    && Represents(h', live')
    && (forall id :: id in OrgIds(Value(h', live')) <==>
          id in OrgIds(Value(h, live)) && (employeeId == supervisorId ==> id != employeeId))
  }

  /** Cutting a sequence after position `cur` and appending keeps positions up to `cur`. */
  lemma {:induction false} KeepsPrefix<T>(s: seq<T>, cur: int, x: T)
    requires 0 <= cur < |s|
    ensures var s' := s[..cur + 1] + [x];
      |s'| == cur + 2 && s'[cur + 1] == x && forall k :: 0 <= k <= cur ==> s'[k] == s[k]
  {
  }

  /** An allowed `move`, from the objects the lookups found, the copy of the current entry
    * and the edit of the live hierarchy, to the state it leaves. */
  lemma {:induction false} MoveCommit(h: Heap, ceo: Ref, history: seq<Ref>, cur: int, live: Tree, snaps: seq<Tree>,
                   initial: Org, employeeId: int, supervisorId: int, h2: Heap, copy: Ref, tc: Tree,
                   h': Heap, history': seq<Ref>, live': Tree, snaps': seq<Tree>)
    requires Consistent(h, ceo, history, cur, live, snaps, initial)
    requires MoveAllowed(Value(h, live), employeeId, supervisorId)
    requires Dense(h2) && Extends(h, h2) && Represents(h2, tc) && tc.ref == copy
    requires Value(h2, tc) == Value(h, snaps[cur])
    requires forall x :: x in PreOrder(tc) ==> |h| <= x < |h2|
    requires h' == EditAfterCopy(h, live, h2, employeeId, supervisorId)
    requires history' == history[..cur + 1] + [copy] && snaps' == snaps[..cur + 1] + [tc]
    requires live' == MoveShape(h, live, employeeId, supervisorId)
    ensures Consistent(h', ceo, history', |history'| - 1, live', snaps', initial)
    ensures MovedTo(h, live, history, cur, snaps, employeeId, supervisorId, h', live', history', |history'| - 1, snaps')
  {
    KeepsPrefix(history, cur, copy);
    KeepsPrefix(snaps, cur, tc);
    MoveStep(h, ceo, history, cur, live, snaps, initial, employeeId, supervisorId, h2, copy, tc);
    LiveAfterMove(h, live, initial, h2, employeeId, supervisorId);
    EditFrame(h, live, h2, employeeId, supervisorId);
  }

  /** The edit of the live hierarchy in `move`: when the employee was found at position
    * `idx` of the list of `from`, it is spliced out of that list, its reports are pushed one
    * by one onto the same list, and its own list is emptied; then it is pushed onto the list
    * of `to`. */
  method Relocate(h2: Heap, from: Ref, idx: int, e: Ref, to: Ref) returns (h: Heap)
    requires from in h2 && to in h2 && -1 <= idx < |h2[from].subordinates|
    requires idx != -1 ==> h2[from].subordinates[idx] in h2
    ensures h == Flatten(h2, from, idx, e, to)
  {
    h := h2;
    if idx != -1 {
      var subs := h2[from].subordinates;
      var rest := SpliceOne(subs, idx);
      SpliceAtIndex(subs, idx);
      h := SetSubordinates(h2, from, rest);
      var moved := subs[idx];
      var reports := h[moved].subordinates;
      ghost var h1 := h;
      assert rest + reports[..0] == rest;
      var i := 0;
      while i < |reports|
        invariant 0 <= i <= |reports|
        invariant h == SetSubordinates(h2, from, rest + reports[..i])
      {
        assert rest + reports[..i + 1] == rest + reports[..i] + [reports[i]];
        SetTwice(h2, from, rest + reports[..i], rest + reports[..i + 1]);
        h := Push(h, from, reports[i]);
        i := i + 1;
      }
      assert reports[..i] == reports;
      SetTwice(h2, from, rest, rest + reports);
      assert h == SetSubordinates(h1, from, h1[from].subordinates + h1[moved].subordinates);
      h := SetSubordinates(h, moved, []);
      assert h == Unlist(h2, from, idx);
    }
    h := Push(h, to, e);
  }

  /** The part of `move` after the three lookups succeeded: the current snapshot is copied,
    * the history after the current index is dropped, the copy is appended, and the live
    * hierarchy is edited in place. */
  method MoveFoundEmployee(h: Heap, ceo: Ref, history: seq<Ref>, cur: int, ghost live: Tree,
                           ghost snaps: seq<Tree>, ghost initial: Org, employeeId: int, supervisorId: int,
                           e: Ref, from: Ref, to: Ref)
    returns (h': Heap, history': seq<Ref>, ghost live': Tree, ghost snaps': seq<Tree>)
    requires Consistent(h, ceo, history, cur, live, snaps, initial)
    requires FindEmployee(h, live.ref, employeeId, live) == Some(e)
    requires FindSupervisor(h, live.ref, employeeId, live) == Some(from)
    requires FindEmployee(h, live.ref, supervisorId, live) == Some(to)
    ensures MoveAllowed(Value(h, live), employeeId, supervisorId)
    ensures Consistent(h', ceo, history', |history'| - 1, live', snaps', initial)
    ensures MovedTo(h, live, history, cur, snaps, employeeId, supervisorId, h', live', history', |history'| - 1, snaps')
  {
    var h2, copy, tc := CloneEmployeeHierarchy(h, history[cur], snaps[cur]);
    MoveFound(h, live, employeeId, supervisorId, e, from, to, h2);
    var idx := FindIndex(h, h[from].subordinates, employeeId);
    h' := Relocate(h2, from, idx, e, to);
    history' := history[..cur + 1] + [copy];
    snaps' := snaps[..cur + 1] + [tc];
    live' := MoveShape(h, live, employeeId, supervisorId);
    MoveCommit(h, ceo, history, cur, live, snaps, initial, employeeId, supervisorId,
               h2, copy, tc, h', history', live', snaps');
  }

  /** The records `undo` replays all name allowed moves exactly when the live hierarchy still
    * holds every id of `initial`. */
  lemma {:induction false} ReplayAllowedIff(initial: Org, v: Org, differences: seq<Difference>)
    requires NoDup(OrgIds(initial)) && v.uniqueId == initial.uniqueId
    requires |differences| == |OrgIds(initial)| - 1
    requires forall k :: 0 <= k < |differences| ==>
      differences[k].employeeId == OrgIds(initial)[k + 1] && differences[k].previousSupervisorId in OrgIds(initial)
    ensures (forall k :: 0 <= k < |differences| ==>
               MoveAllowed(v, differences[k].employeeId, differences[k].previousSupervisorId))
        <==> forall id :: id in OrgIds(initial) ==> id in OrgIds(v)
  {
    var ids := OrgIds(initial);
    if forall id :: id in ids ==> id in OrgIds(v) {
      forall k | 0 <= k < |differences|
        ensures MoveAllowed(v, differences[k].employeeId, differences[k].previousSupervisorId)
      {
        assert ids[k + 1] != ids[0];
      }
    }
    if forall k :: 0 <= k < |differences| ==>
         MoveAllowed(v, differences[k].employeeId, differences[k].previousSupervisorId)
    {
      forall id | id in ids ensures id in OrgIds(v) {
        var k :| 0 <= k < |ids| && ids[k] == id;
        if k == 0 {
          assert OrgIds(v)[0] == v.uniqueId;
        } else {
          assert differences[k - 1].employeeId == id;
        }
      }
    }
  }

  /** One replayed move of `undo` that does not move an employee under itself keeps the ids
    * of the live hierarchy. */
  lemma {:induction false} ReplayKeepsIds(h: Heap, live: Tree, history: seq<Ref>, cur: int, snaps: seq<Tree>,
                       differences: seq<Difference>, i: int,
                       h': Heap, live': Tree, history': seq<Ref>, cur': int, snaps': seq<Tree>, v0: Org)
    requires 0 <= i < |differences|
    requires var d := differences[i];
      && WellFormed(h, live) && MoveAllowed(Value(h, live), d.employeeId, d.previousSupervisorId)
      && 0 <= cur < |history| && cur < |snaps| && d.employeeId != d.previousSupervisorId
      && MovedTo(h, live, history, cur, snaps, d.employeeId, d.previousSupervisorId, h', live', history', cur', snaps')
    requires forall id :: id in OrgIds(Value(h, live)) <==> id in OrgIds(v0)
    requires Value(h, live).uniqueId == v0.uniqueId
    requires forall k :: 0 <= k < i ==>
      MoveAllowed(v0, differences[k].employeeId, differences[k].previousSupervisorId)
    ensures forall k :: 0 <= k < i + 1 ==>
      MoveAllowed(v0, differences[k].employeeId, differences[k].previousSupervisorId)
    ensures forall id :: id in OrgIds(Value(h', live')) <==> id in OrgIds(v0)
  {
  }

  /** Replacing the live hierarchy by a fresh copy of history entry `j` makes `initial` the
    * live value again and keeps every history entry; any index into the history is then a
    * valid current index. */
  lemma {:induction false} Restore(h: Heap, ceo: Ref, history: seq<Ref>, cur: int, live: Tree, snaps: seq<Tree>, initial: Org,
                j: int, cur': int, h2: Heap, copy: Ref, tc: Tree)
    requires Consistent(h, ceo, history, cur, live, snaps, initial)
    requires 0 <= j < |history| && 0 <= cur' < |history|
    requires Dense(h2) && Extends(h, h2) && Represents(h2, tc) && tc.ref == copy
    requires Value(h2, tc) == Value(h, snaps[j])
    requires forall x :: x in PreOrder(tc) ==> |h| <= x < |h2|
    ensures Consistent(h2, copy, history, cur', tc, snaps, initial)
    ensures Value(h2, tc) == initial
  {
    forall i | 0 <= i < |snaps|
      ensures Represents(h2, snaps[i]) && Value(h2, snaps[i]) == initial
      ensures forall x :: x in PreOrder(snaps[i]) ==> x !in PreOrder(tc)
    {
      Fresh(h, h2, snaps[i]);
      WellFormedIff(h, snaps[i]);
      forall x | x in PreOrder(snaps[i]) ensures x !in PreOrder(tc) {
        assert x in h;
      }
    }
  }

  /** `EmployeeOrgApp` of the snapshot variant. Its hierarchy objects live in the store
    * `heap`; `ceo` is the top of the live hierarchy, `history` holds the tops of the
    * copies, and `currentIndex` is the copy `undo` and `redo` start from. */
  class EmployeeOrgApp {
    var heap: Heap
    var ceo: Ref
    var history: seq<Ref>
    var currentIndex: int
    ghost var live: Tree
    ghost var snapshots: seq<Tree>
    ghost const initial: Org

    ghost predicate Valid()
      reads this
    {
      Consistent(heap, ceo, history, currentIndex, live, snapshots, initial)
    }

    /** `new EmployeeOrgApp(ceo)`: the history starts with one copy of the hierarchy. */
    constructor (h: Heap, ceo: Ref, ghost t: Tree)
      requires Dense(h) && WellFormed(h, t) && t.ref == ceo
      ensures Valid()
      ensures this.ceo == ceo && live == t && initial == Value(h, t)
      ensures Extends(h, heap) && |history| == 1 && currentIndex == 0
    {
      var h', copy, tc := CloneEmployeeHierarchy(h, ceo, t);
      Fresh(h, h', t);
      WellFormedIff(h, t);
      heap := h';
      this.ceo := ceo;
      history := [copy];
      currentIndex := 0;
      live := t;
      snapshots := [tc];
      initial := Value(h, t);
      assert forall x :: x in PreOrder(tc) ==> x !in PreOrder(t) by {
        forall x | x in PreOrder(tc) ensures x !in PreOrder(t) {
          assert x !in h;
        }
      }
    }

    /** `move(employeeID, supervisorID)`: the three lookups, then a copy of the current
      * history entry that replaces everything after it, then the edit of the live
      * hierarchy. */
    method Move(employeeId: int, supervisorId: int) returns (outcome: Outcome)
      requires Valid()
      modifies this
      ensures Valid() && ceo == old(ceo)
      ensures outcome.Done? <==> old(MoveAllowed(Value(heap, live), employeeId, supervisorId))
      ensures outcome.Failed? ==> outcome.failure == InvalidEmployeeOrSupervisorId && unchanged(this)
      ensures outcome.Done? ==> MovedTo(old(heap), old(live), old(history), old(currentIndex), old(snapshots),
                                        employeeId, supervisorId, heap, live, history, currentIndex, snapshots)
    {
      var employee := FindEmployee(heap, ceo, employeeId, live);
      var fromSupervisor := FindSupervisor(heap, ceo, employeeId, live);
      var toSupervisor := FindEmployee(heap, ceo, supervisorId, live);
      LookupsSucceedIff(heap, live, employeeId, supervisorId);
      if employee.None? || fromSupervisor.None? || toSupervisor.None? {
        return Failed(InvalidEmployeeOrSupervisorId);
      }
      var h', history';
      ghost var live', snapshots';
      h', history', live', snapshots' := MoveFoundEmployee(heap, ceo, history, currentIndex, live, snapshots, initial,
                                                           employeeId, supervisorId, employee.value,
                                                           fromSupervisor.value, toSupervisor.value);
      Commit(h', ceo, history', |history'| - 1, live', snapshots');
      return Done;
    }

    /** Replaces the whole state at once. */
    method Commit(h: Heap, ceo': Ref, history': seq<Ref>, cur: int, ghost live': Tree, ghost snaps: seq<Tree>)
      modifies this
      ensures heap == h && ceo == ceo' && history == history' && currentIndex == cur
      ensures live == live' && snapshots == snaps
    {
      heap, ceo, history, currentIndex, live, snapshots := h, ceo', history', cur, live', snaps;
    }

    /** The loop of `undo`: each record is replayed as `move(employeeID, previousSupervisorID)`,
      * and the first move that throws ends the replay, keeping the moves before it. No record
      * moves an employee under itself, so the ids of the live hierarchy stay the same. */
    method Replay(differences: seq<Difference>) returns (outcome: Outcome)
      requires Valid()
      requires forall k :: 0 <= k < |differences| ==>
        differences[k].employeeId != differences[k].previousSupervisorId
      modifies this
      ensures Valid()
      ensures outcome.Done? <==> forall k :: 0 <= k < |differences| ==>
        old(MoveAllowed(Value(heap, live), differences[k].employeeId, differences[k].previousSupervisorId))
      ensures outcome.Failed? ==> outcome.failure == InvalidEmployeeOrSupervisorId
      ensures forall id :: id in OrgIds(Value(heap, live)) <==> id in old(OrgIds(Value(heap, live)))
      ensures old(currentIndex) < |history| && |snapshots| == |history|
      ensures forall k :: 0 <= k <= old(currentIndex) ==>
        history[k] == old(history)[k] && snapshots[k] == old(snapshots)[k]
      ensures outcome.Done? ==> currentIndex == old(currentIndex) + |differences|
      ensures outcome.Done? && |differences| > 0 ==> |history| == currentIndex + 1
    {
      ghost var c0, v0 := currentIndex, Value(heap, live);
      ghost var history0, snapshots0 := history, snapshots;
      outcome := Done;
      var i := 0;
      while i < |differences|
        invariant 0 <= i <= |differences| && Valid() && outcome == Done
        invariant currentIndex == c0 + i && (i > 0 ==> |history| == currentIndex + 1)
        invariant c0 < |history| && |snapshots| == |history|
        invariant forall k :: 0 <= k <= c0 ==> history[k] == history0[k] && snapshots[k] == snapshots0[k]
        invariant forall id :: id in OrgIds(Value(heap, live)) <==> id in OrgIds(v0)
        invariant Value(heap, live).uniqueId == v0.uniqueId
        invariant forall k :: 0 <= k < i ==>
          MoveAllowed(v0, differences[k].employeeId, differences[k].previousSupervisorId)
      {
        var d := differences[i];
        ghost var h, l, c, history1, snapshots1 := heap, live, currentIndex, history, snapshots;
        outcome := Move(d.employeeId, d.previousSupervisorId);
        if outcome.Failed? {
          return;
        }
        ReplayKeepsIds(h, l, history1, c, snapshots1, differences, i,
                       heap, live, history, currentIndex, snapshots, v0);
        i := i + 1;
      }
    }

    /** `undo()`: with no entry before the current one it throws; otherwise it replays, as
      * moves, the differences between the current and the previous history entry, steps
      * the index back, and makes a fresh copy of the previous entry the live hierarchy. A
      * failing replayed move throws out of `undo` with the moves before it kept. */
    method Undo() returns (outcome: Outcome)
      requires Valid()
      modifies this
      ensures Valid()
      ensures old(currentIndex) <= 0 ==> outcome == Failed(NoActionsToUndo) && unchanged(this)
      ensures old(currentIndex) > 0 ==>
        && (outcome.Done? <==> forall id :: id in OrgIds(initial) ==> id in old(OrgIds(Value(heap, live))))
        && (outcome.Failed? ==> outcome.failure == InvalidEmployeeOrSupervisorId)
      ensures outcome.Done? ==>
        && Value(heap, live) == initial
        && currentIndex == old(currentIndex) + |OrgIds(initial)| - 2
        && old(currentIndex) < |history|
        && forall k :: 0 <= k <= old(currentIndex) ==> history[k] == old(history)[k]
      ensures outcome.Done? ==> currentIndex < |history| - 1
      ensures outcome.Done? && |OrgIds(initial)| > 1 ==> |history| == currentIndex + 2
    {
      if currentIndex <= 0 {
        return Failed(NoActionsToUndo);
      }
      ghost var c0, v0 := currentIndex, Value(heap, live);
      var previousHierarchy := history[currentIndex - 1];
      ghost var tp := snapshots[currentIndex - 1];
      var found := FindHierarchyDifferences(heap, history[currentIndex], previousHierarchy,
                                            snapshots[currentIndex], tp);
      UndoRecords(initial);
      var differences := found.value;
      ReplayAllowedIff(initial, v0, differences);
      outcome := Replay(differences);
      if outcome.Failed? {
        return;
      }
      var h2, copy, tc := CloneEmployeeHierarchy(heap, previousHierarchy, tp);
      Restore(heap, ceo, history, currentIndex, live, snapshots, initial, c0 - 1, currentIndex - 1, h2, copy, tc);
      Commit(h2, copy, history, currentIndex - 1, tc, snapshots);
    }

    /** `redo()`: with no entry after the current one it throws; otherwise it steps the index
      * forward and makes a fresh copy of that entry the live hierarchy. */
    method Redo() returns (outcome: Outcome)
      requires Valid()
      modifies this
      ensures Valid()
      ensures outcome.Done? <==> old(currentIndex) < old(|history|) - 1
      ensures outcome.Failed? ==> outcome == Failed(NoActionsToRedo) && unchanged(this)
      ensures outcome.Done? ==>
        && currentIndex == old(currentIndex) + 1 && history == old(history)
        && Extends(old(heap), heap) && Value(heap, live) == initial
    {
      if currentIndex >= |history| - 1 {
        return Failed(NoActionsToRedo);
      }
      var h2, copy, tc := CloneEmployeeHierarchy(heap, history[currentIndex + 1], snapshots[currentIndex + 1]);
      Restore(heap, ceo, history, currentIndex, live, snapshots, initial, currentIndex + 1, currentIndex + 1, h2, copy, tc);
      Commit(h2, copy, history, currentIndex + 1, tc, snapshots);
      return Done;
    }
  }
}

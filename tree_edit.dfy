/** Edits of a hierarchy's shape, and how they track edits of the object store.
  *
  * A move changes the `subordinates` list of at most three objects; each change is
  * mirrored here by replacing one sub-hierarchy (`Subst`), and the lemmas say when the
  * edited store still holds the edited shape and which nodes the shape then contains. */
module TreeEdit {
  import opened OrgTree

  /** `t` with the sub-hierarchy topped by `r` replaced by `n`. */
  function Subst(t: Tree, r: Ref, n: Tree): Tree
    decreases t, 1
  {
    if t.ref == r then n else Tree(t.ref, SubstAll(t.kids, r, n))
  }

  function SubstAll(ks: seq<Tree>, r: Ref, n: Tree): (rs: seq<Tree>)
    ensures |rs| == |ks| && forall i :: 0 <= i < |ks| ==> rs[i] == Subst(ks[i], r, n)
    decreases ks, 0
  {
    if ks == [] then [] else [Subst(ks[0], r, n)] + SubstAll(ks[1..], r, n)
  }

  /** The sub-hierarchy of `t` topped by `r` (the first one in pre-order). */
  ghost function SubAt(t: Tree, r: Ref): (s: Tree)
    requires r in PreOrder(t)
    ensures s.ref == r && multiset(PreOrder(s)) <= multiset(PreOrder(t))
    decreases t, 1
  {
    if t.ref == r then t
    else
      assert r in PreOrderAll(t.kids);
      SubAtAll(t.kids, r)
  }

  ghost function SubAtAll(ks: seq<Tree>, r: Ref): (s: Tree)
    requires r in PreOrderAll(ks)
    ensures s.ref == r && multiset(PreOrder(s)) <= multiset(PreOrderAll(ks))
    decreases ks, 0
  {
    if r in PreOrder(ks[0]) then SubAt(ks[0], r) else SubAtAll(ks[1..], r)
  }

  /** Appending to a list of sub-hierarchies appends their pre-orders. */
  lemma {:induction false} PreOrderAllConcat(a: seq<Tree>, b: seq<Tree>)
    ensures PreOrderAll(a + b) == PreOrderAll(a) + PreOrderAll(b)
    decreases |a|
  {
    if a == [] {
      assert a + b == b;
    } else {
      assert (a + b)[1..] == a[1..] + b;
      PreOrderAllConcat(a[1..], b);
    }
  }

  lemma {:induction false} PreOrderAllOne(k: Tree)
    ensures PreOrderAll([k]) == PreOrder(k)
  {
    assert [k][1..] == [];
  }

  /** The pre-order of a list of sub-hierarchies, split around child `j`. */
  lemma {:induction false} PreOrderAllSplit(ks: seq<Tree>, j: int)
    requires 0 <= j < |ks|
    ensures PreOrderAll(ks) == PreOrderAll(ks[..j]) + PreOrder(ks[j]) + PreOrderAll(ks[j + 1..])
  {
    assert ks == ks[..j] + [ks[j]] + ks[j + 1..];
    PreOrderAllConcat(ks[..j] + [ks[j]], ks[j + 1..]);
    PreOrderAllConcat(ks[..j], [ks[j]]);
    PreOrderAllOne(ks[j]);
  }

  /** The nodes of one child's hierarchy are among those of all children. */
  lemma {:induction false} KidBag(ks: seq<Tree>, i: int)
    requires 0 <= i < |ks|
    ensures multiset(PreOrder(ks[i])) <= multiset(PreOrderAll(ks))
  {
    assert ks == ks[..i] + [ks[i]] + ks[i + 1..];
    PreOrderAllConcat(ks[..i] + [ks[i]], ks[i + 1..]);
    PreOrderAllConcat(ks[..i], [ks[i]]);
    PreOrderAllOne(ks[i]);
  }

  /** Removing child `i` and appending `extra` removes that child's nodes and adds those of `extra`. */
  lemma {:induction false} RemoveKidBag(ks: seq<Tree>, i: int, extra: seq<Tree>)
    requires 0 <= i < |ks|
    ensures multiset(PreOrderAll(ks[..i] + ks[i + 1..] + extra)) ==
      multiset(PreOrderAll(ks)) - multiset(PreOrder(ks[i])) + multiset(PreOrderAll(extra))
  {
    assert ks == ks[..i] + [ks[i]] + ks[i + 1..];
    PreOrderAllConcat(ks[..i] + [ks[i]], ks[i + 1..]);
    PreOrderAllConcat(ks[..i], [ks[i]]);
    PreOrderAllOne(ks[i]);
    PreOrderAllConcat(ks[..i] + ks[i + 1..], extra);
    PreOrderAllConcat(ks[..i], ks[i + 1..]);
  }

  lemma {:induction false} AppendKidBag(ks: seq<Tree>, x: Tree)
    ensures multiset(PreOrderAll(ks + [x])) == multiset(PreOrderAll(ks)) + multiset(PreOrder(x))
  {
    PreOrderAllConcat(ks, [x]);
    PreOrderAllOne(x);
  }

  /** Replacing a sub-hierarchy that does not occur changes nothing. */
  lemma {:induction false} SubstAbsent(t: Tree, r: Ref, n: Tree)
    requires r !in PreOrder(t)
    ensures Subst(t, r, n) == t
    decreases t
  {
    forall i | 0 <= i < |t.kids| ensures Subst(t.kids[i], r, n) == t.kids[i] {
      if r in PreOrder(t.kids[i]) { KidInPreOrder(t, i, r); }
      SubstAbsent(t.kids[i], r, n);
    }
    assert SubstAll(t.kids, r, n) == t.kids;
  }

  /** A store that agrees with `h` on `t` except at `r`, and holds `n` there, holds `t`
    * with `n` in place of the sub-hierarchy at `r`. */
  lemma {:induction false} SubstRepresents(h: Heap, h': Heap, t: Tree, r: Ref, n: Tree)
    requires Represents(h, t) && Represents(h', n) && n.ref == r
    requires forall x :: x in PreOrder(t) && x != r ==> x in h && x in h' && h'[x] == h[x]
    ensures Represents(h', Subst(t, r, n))
    decreases t
  {
    if t.ref != r {
      var ks := SubstAll(t.kids, r, n);
      forall i | 0 <= i < |t.kids| ensures Represents(h', ks[i]) && ks[i].ref == t.kids[i].ref {
        forall x | x in PreOrder(t.kids[i]) ensures x in PreOrder(t) { KidInPreOrder(t, i, x); }
        SubstRepresents(h, h', t.kids[i], r, n);
      }
      assert Roots(ks) == Roots(t.kids);
    }
  }

  /** The sub-hierarchy at a node of a hierarchy the store holds is held by the store too. */
  lemma {:induction false} SubAtRepresents(h: Heap, t: Tree, r: Ref)
    requires Represents(h, t) && r in PreOrder(t)
    ensures Represents(h, SubAt(t, r))
    decreases t, 1
  {
    if t.ref != r {
      assert r in PreOrderAll(t.kids);
      SubAtAllRepresents(h, t.kids, r);
    }
  }

  lemma {:induction false} SubAtAllRepresents(h: Heap, ks: seq<Tree>, r: Ref)
    requires RepresentsAll(h, ks) && r in PreOrderAll(ks)
    ensures Represents(h, SubAtAll(ks, r))
    decreases ks, 0
  {
    if r in PreOrder(ks[0]) {
      SubAtRepresents(h, ks[0], r);
    } else {
      SubAtAllRepresents(h, ks[1..], r);
    }
  }

  /** In a hierarchy where `r` occurs once, replacing the sub-hierarchy at `r` by `n`
    * trades that sub-hierarchy's nodes for those of `n`. */
  lemma {:induction false} SubstBag(t: Tree, r: Ref, n: Tree)
    requires multiset(PreOrder(t))[r] == 1 && n.ref == r
    ensures multiset(PreOrder(Subst(t, r, n))) ==
      multiset(PreOrder(t)) - multiset(PreOrder(SubAt(t, r))) + multiset(PreOrder(n))
    decreases t, 1
  {
    if t.ref != r {
      assert PreOrder(t) == [t.ref] + PreOrderAll(t.kids);
      SubstAllBag(t.kids, r, n);
    }
  }

  lemma {:induction false} SubstAllBag(ks: seq<Tree>, r: Ref, n: Tree)
    requires multiset(PreOrderAll(ks))[r] == 1 && n.ref == r
    ensures r in PreOrderAll(ks)
    ensures multiset(PreOrderAll(SubstAll(ks, r, n))) ==
      multiset(PreOrderAll(ks)) - multiset(PreOrder(SubAtAll(ks, r))) + multiset(PreOrder(n))
    decreases ks, 0
  {
    var rest := ks[1..];
    var k' := Subst(ks[0], r, n);
    assert SubstAll(ks, r, n) == [k'] + SubstAll(rest, r, n);
    assert PreOrderAll(SubstAll(ks, r, n)) == PreOrder(k') + PreOrderAll(SubstAll(rest, r, n));
    var A := multiset(PreOrder(ks[0]));
    var R := multiset(PreOrderAll(rest));
    var N := multiset(PreOrder(n));
    assert multiset(PreOrderAll(ks)) == A + R;
    if r in PreOrder(ks[0]) {
      assert A[r] == 1 && R[r] == 0;
      SubstBag(ks[0], r, n);
      SubstAllAbsent(rest, r, n);
      BagShiftLeft(A, R, multiset(PreOrder(SubAt(ks[0], r))), N);
    } else {
      assert Subst(ks[0], r, n) == ks[0] by { SubstAbsent(ks[0], r, n); }
      SubstAllBag(rest, r, n);
      BagShiftRight(A, R, multiset(PreOrder(SubAtAll(rest, r))), N);
    }
  }

  lemma {:induction false} BagShiftLeft(A: multiset<Ref>, R: multiset<Ref>, S: multiset<Ref>, N: multiset<Ref>)
    requires S <= A
    ensures (A - S + N) + R == (A + R) - S + N
  {
    forall y ensures ((A - S + N) + R)[y] == ((A + R) - S + N)[y] { }
  }

  lemma {:induction false} BagShiftRight(A: multiset<Ref>, R: multiset<Ref>, S: multiset<Ref>, N: multiset<Ref>)
    requires S <= R
    ensures A + (R - S + N) == (A + R) - S + N
  {
    forall y ensures (A + (R - S + N))[y] == ((A + R) - S + N)[y] { }
  }

  lemma {:induction false} SubstAllAbsent(ks: seq<Tree>, r: Ref, n: Tree)
    requires r !in PreOrderAll(ks)
    ensures SubstAll(ks, r, n) == ks
  {
    forall i | 0 <= i < |ks| ensures Subst(ks[i], r, n) == ks[i] {
      PreOrderAllMember(ks, r);
      SubstAbsent(ks[i], r, n);
    }
  }

  /** A node that occurs once in a hierarchy occurs nowhere below itself. */
  lemma {:induction false} NotBelowItself(t: Tree, r: Ref)
    requires Once(PreOrder(t)) && r in PreOrder(t)
    ensures var R := SubAt(t, r); Once(PreOrder(R)) && r !in PreOrderAll(R.kids)
  {
    var R := SubAt(t, r);
    var all: multiset<Ref> := multiset(PreOrder(t));
    var sub: multiset<Ref> := multiset(PreOrder(R));
    var below: multiset<Ref> := multiset(PreOrderAll(R.kids));
    assert PreOrder(R) == [r] + PreOrderAll(R.kids);
    assert sub == multiset{r} + below;
    forall y ensures sub[y] <= 1 { assert sub[y] <= all[y]; }
    assert sub[r] <= 1;
  }

  /** The hierarchy after child `idx` of node `p` is taken out of `p`'s list and `extra`
    * is appended to that list. */
  ghost function Detach(t: Tree, p: Ref, idx: int, extra: seq<Tree>): Tree
    requires p in PreOrder(t) && 0 <= idx < |SubAt(t, p).kids|
  {
    var ks := SubAt(t, p).kids;
    Subst(t, p, Tree(p, ks[..idx] + ks[idx + 1..] + extra))
  }

  /** The hierarchy after `x` is appended to the list of node `s`. */
  ghost function Attach(t: Tree, s: Ref, x: Tree): Tree
    requires s in PreOrder(t)
  {
    Subst(t, s, Tree(s, SubAt(t, s).kids + [x]))
  }

  /** The children `p` keeps or gains when child `idx` is detached. */
  ghost function DetachedKids(t: Tree, p: Ref, idx: int, flatten: bool): seq<Tree>
    requires p in PreOrder(t) && 0 <= idx < |SubAt(t, p).kids|
  {
    var ks := SubAt(t, p).kids;
    ks[..idx] + ks[idx + 1..] + (if flatten then ks[idx].kids else [])
  }

  /** Every node below a child that `p` keeps or gains lies strictly below `p`. */
  lemma {:induction false} DetachedKidsBelow(h: Heap, t: Tree, p: Ref, idx: int, flatten: bool, j: int)
    requires Represents(h, t) && p in PreOrder(t) && 0 <= idx < |SubAt(t, p).kids|
    requires 0 <= j < |DetachedKids(t, p, idx, flatten)|
    ensures var k := DetachedKids(t, p, idx, flatten)[j];
      Represents(h, k) && forall y :: y in PreOrder(k) ==> y in PreOrderAll(SubAt(t, p).kids)
  {
    var P := SubAt(t, p);
    var ks := P.kids;
    var e := ks[idx];
    var newKids := DetachedKids(t, p, idx, flatten);
    var k := newKids[j];
    SubAtRepresents(h, t, p);
    if j < idx {
      assert k == ks[j];
      forall y | y in PreOrder(k) ensures y in PreOrderAll(ks) { KidInPreOrder(P, j, y); }
    } else if j < |ks| - 1 {
      assert k == ks[j + 1];
      forall y | y in PreOrder(k) ensures y in PreOrderAll(ks) { KidInPreOrder(P, j + 1, y); }
    } else {
      var i := j - (|ks| - 1);
      assert flatten && k == e.kids[i];
      assert Represents(h, e);
      forall y | y in PreOrder(k) ensures y in PreOrderAll(ks) {
        KidInPreOrder(e, i, y);
        KidInPreOrder(P, idx, y);
      }
    }
  }

  lemma {:induction false} DetachedNodeHeld(h: Heap, h': Heap, t: Tree, p: Ref, idx: int, flatten: bool)
    requires Represents(h, t) && Once(PreOrder(t)) && p in PreOrder(t)
    requires 0 <= idx < |SubAt(t, p).kids|
    requires p in h' && h'[p].subordinates == Roots(DetachedKids(t, p, idx, flatten))
    requires forall x :: x in h && x != p ==> x in h' && h'[x] == h[x]
    ensures Represents(h', Tree(p, DetachedKids(t, p, idx, flatten)))
  {
    var newKids := DetachedKids(t, p, idx, flatten);
    NotBelowItself(t, p);
    forall j | 0 <= j < |newKids| ensures Represents(h', newKids[j]) {
      DetachedKidsBelow(h, t, p, idx, flatten, j);
      IdsOfValue(h, newKids[j]);
      Frame(h, h', newKids[j]);
    }
  }

  /** Bag arithmetic of replacing node `p` (with below-bag `K`) by `p` over `K - E + X`. */
  lemma {:induction false} ReplaceBag(A: multiset<Ref>, K: multiset<Ref>, E: multiset<Ref>, X: multiset<Ref>, p: Ref)
    requires multiset{p} + K <= A && E <= K
    ensures A - (multiset{p} + K) + (multiset{p} + (K - E + X)) == A - E + X
  {
    forall y ensures (A - (multiset{p} + K) + (multiset{p} + (K - E + X)))[y] == (A - E + X)[y] {
    }
  }

  /** The bag of the replacement node: `p` over its remaining and adopted children. */
  lemma {:induction false} DetachedNodeBag(t: Tree, p: Ref, idx: int, flatten: bool)
    requires p in PreOrder(t) && 0 <= idx < |SubAt(t, p).kids|
    ensures var ks := SubAt(t, p).kids;
      var e := ks[idx];
      multiset(PreOrder(Tree(p, DetachedKids(t, p, idx, flatten)))) ==
        multiset{p} + (multiset(PreOrderAll(ks)) - multiset(PreOrder(e))
                       + multiset(PreOrderAll(if flatten then e.kids else [])))
  {
    var ks := SubAt(t, p).kids;
    var n := Tree(p, DetachedKids(t, p, idx, flatten));
    RemoveKidBag(ks, idx, if flatten then ks[idx].kids else []);
    assert PreOrder(n) == [p] + PreOrderAll(n.kids);
  }

  /** Removing a node's bag and adding back its children's bag leaves the node alone removed. */
  lemma {:induction false} FlattenBag(A: multiset<Ref>, e: Tree)
    requires multiset(PreOrder(e)) <= A
    ensures A - multiset(PreOrder(e)) + multiset(PreOrderAll(e.kids)) == A - multiset{e.ref}
  {
    assert PreOrder(e) == [e.ref] + PreOrderAll(e.kids);
    var K := multiset(PreOrderAll(e.kids));
    forall y ensures (A - (multiset{e.ref} + K) + K)[y] == (A - multiset{e.ref})[y] { }
  }

  lemma {:induction false} DetachBag(t: Tree, p: Ref, idx: int, flatten: bool)
    requires Once(PreOrder(t)) && p in PreOrder(t) && 0 <= idx < |SubAt(t, p).kids|
    ensures var e := SubAt(t, p).kids[idx];
      multiset(PreOrder(Subst(t, p, Tree(p, DetachedKids(t, p, idx, flatten))))) ==
        multiset(PreOrder(t)) - (if flatten then multiset{e.ref} else multiset(PreOrder(e)))
  {
    var P := SubAt(t, p);
    var ks := P.kids;
    var e := ks[idx];
    var n := Tree(p, DetachedKids(t, p, idx, flatten));
    var A := multiset(PreOrder(t));
    var K := multiset(PreOrderAll(ks));
    var E := multiset(PreOrder(e));
    var X := multiset(PreOrderAll(if flatten then e.kids else []));
    assert A[p] == 1;
    SubstBag(t, p, n);
    assert PreOrder(P) == [p] + PreOrderAll(ks);
    DetachedNodeBag(t, p, idx, flatten);
    KidBag(ks, idx);
    ReplaceBag(A, K, E, X, p);
    if flatten {
      assert E <= A by { forall y ensures E[y] <= A[y] { } }
      FlattenBag(A, e);
    } else {
      assert X == multiset{};
    }
  }

  /** A store whose only change is the list of `p`, which lost child `idx` and gained either
    * nothing or that child's own children, holds the detached hierarchy; the detached
    * node's hierarchy, or only the node itself, is gone from it. */
  lemma {:induction false} DetachHeld(h: Heap, h': Heap, t: Tree, p: Ref, idx: int, flatten: bool)
    requires Represents(h, t) && Once(PreOrder(t)) && p in PreOrder(t)
    requires 0 <= idx < |SubAt(t, p).kids|
    requires p in h' && h'[p].subordinates == Roots(DetachedKids(t, p, idx, flatten))
    requires forall x :: x in h && x != p ==> x in h' && h'[x] == h[x]
    ensures var e := SubAt(t, p).kids[idx];
      var t' := Detach(t, p, idx, if flatten then e.kids else []);
      && Represents(h', t')
      && multiset(PreOrder(t')) ==
           multiset(PreOrder(t)) - (if flatten then multiset{e.ref} else multiset(PreOrder(e)))
  {
    var n := Tree(p, DetachedKids(t, p, idx, flatten));
    DetachedNodeHeld(h, h', t, p, idx, flatten);
    IdsOfValue(h, t);
    SubstRepresents(h, h', t, p, n);
    DetachBag(t, p, idx, flatten);
  }

  /** A node below `r` in the sub-hierarchy at `r` lies in the hierarchy. */
  lemma {:induction false} BelowInTree(t: Tree, r: Ref, y: Ref)
    requires r in PreOrder(t) && y in PreOrder(SubAt(t, r))
    ensures y in PreOrder(t)
  {
    assert multiset(PreOrder(SubAt(t, r)))[y] <= multiset(PreOrder(t))[y];
  }

  /** A child of `s` is held unchanged by a store that agrees with `h` off `s`. */
  lemma {:induction false} KidOfHeld(h: Heap, h': Heap, t: Tree, s: Ref, j: int)
    requires Represents(h, t) && Once(PreOrder(t)) && s in PreOrder(t)
    requires 0 <= j < |SubAt(t, s).kids|
    requires forall y :: y in PreOrder(t) && y != s ==> y in h && y in h' && h'[y] == h[y]
    ensures Represents(h', SubAt(t, s).kids[j])
  {
    var S := SubAt(t, s);
    SubAtRepresents(h, t, s);
    NotBelowItself(t, s);
    forall y | y in PreOrder(S.kids[j]) ensures y in h && y in h' && h'[y] == h[y] {
      KidInPreOrder(S, j, y);
      BelowInTree(t, s, y);
    }
    Frame(h, h', S.kids[j]);
  }

  lemma {:induction false} AttachedNodeHeld(h: Heap, h': Heap, t: Tree, s: Ref, x: Tree)
    requires Represents(h, t) && Once(PreOrder(t)) && s in PreOrder(t)
    requires Represents(h', x)
    requires s in h' && s in h && h'[s].subordinates == h[s].subordinates + [x.ref]
    requires forall y :: y in PreOrder(t) && y != s ==> y in h && y in h' && h'[y] == h[y]
    ensures Represents(h', Tree(s, SubAt(t, s).kids + [x]))
  {
    var S := SubAt(t, s);
    SubAtRepresents(h, t, s);
    var ks := S.kids + [x];
    forall j | 0 <= j < |ks| ensures Represents(h', ks[j]) {
      if j < |S.kids| {
        KidOfHeld(h, h', t, s, j);
      }
    }
    assert Roots(ks) == Roots(S.kids) + [x.ref];
  }

  /** A store whose only change is that `s` gained `x.ref` at the end of its list, and
    * that holds `x` apart from the hierarchy, holds the hierarchy with `x` attached under `s`. */
  lemma {:induction false} AttachHeld(h: Heap, h': Heap, t: Tree, s: Ref, x: Tree)
    requires Represents(h, t) && Once(PreOrder(t)) && s in PreOrder(t)
    requires Represents(h', x)
    requires s in h' && s in h && h'[s].subordinates == h[s].subordinates + [x.ref]
    requires forall y :: y in PreOrder(t) && y != s ==> y in h && y in h' && h'[y] == h[y]
    ensures Represents(h', Attach(t, s, x))
    ensures multiset(PreOrder(Attach(t, s, x))) == multiset(PreOrder(t)) + multiset(PreOrder(x))
  {
    var S := SubAt(t, s);
    var n := Tree(s, S.kids + [x]);
    AttachedNodeHeld(h, h', t, s, x);
    SubstRepresents(h, h', t, s, n);
    assert multiset(PreOrder(t))[s] == 1;
    SubstBag(t, s, n);
    AppendKidBag(S.kids, x);
    assert PreOrder(S) == [s] + PreOrderAll(S.kids);
    assert PreOrder(n) == [s] + PreOrderAll(S.kids + [x]);
  }

  /** Appending `x` under `s` adds the nodes of `x` to the hierarchy. */
  lemma {:induction false} AttachBag(t: Tree, s: Ref, x: Tree)
    requires Once(PreOrder(t)) && s in PreOrder(t)
    ensures Attach(t, s, x).ref == t.ref
    ensures multiset(PreOrder(Attach(t, s, x))) == multiset(PreOrder(t)) + multiset(PreOrder(x))
  {
    var S := SubAt(t, s);
    var n := Tree(s, S.kids + [x]);
    var A := multiset(PreOrder(t));
    var K := multiset(PreOrderAll(S.kids));
    var X := multiset(PreOrder(x));
    assert multiset(PreOrder(Attach(t, s, x))) == A - multiset(PreOrder(S)) + multiset(PreOrder(n)) by {
      assert A[s] == 1;
      SubstBag(t, s, n);
    }
    assert multiset(PreOrder(S)) == multiset{s} + K by {
      assert PreOrder(S) == [s] + PreOrderAll(S.kids);
    }
    assert multiset(PreOrder(n)) == multiset{s} + (K + X) by {
      AppendKidBag(S.kids, x);
      assert PreOrder(n) == [s] + PreOrderAll(S.kids + [x]);
    }
    GrowBag(A, K, X, s);
  }

  lemma {:induction false} GrowBag(A: multiset<Ref>, K: multiset<Ref>, X: multiset<Ref>, p: Ref)
    requires multiset{p} + K <= A
    ensures A - (multiset{p} + K) + (multiset{p} + (K + X)) == A + X
  {
    forall y ensures (A - (multiset{p} + K) + (multiset{p} + (K + X)))[y] == (A + X)[y] { }
  }
}

/** `cloneEmployeeHierarchy` of the snapshot variant: a deep copy built from fresh objects. */
module OrgClone {
  import opened OrgTree

  /** The copies `ks` made so far hold, in `h'`, the values of the originals `kids` in `h`,
    * and consist of objects allocated after `c`. */
  ghost predicate CopiedKids(h: Heap, h': Heap, c: Ref, ks: seq<Tree>, kids: seq<Tree>)
    requires |ks| <= |kids|
  {
    && (forall j :: 0 <= j < |ks| ==>
          Represents(h, kids[j]) && Represents(h', ks[j]) && Value(h', ks[j]) == Value(h, kids[j]))
    && (forall j, x :: 0 <= j < |ks| && x in PreOrder(ks[j]) ==> c < x < |h'|)
  }

  /** Copies the hierarchy at `employee` into fresh objects: a new object with the same id
    * and name and an empty list, to which the copy of each subordinate is pushed in turn.
    * The copy has the same ids, names and child order, and none of its objects existed
    * before; every object that did exist is left as it was. */
  method CloneEmployeeHierarchy(h: Heap, employee: Ref, ghost t: Tree)
    returns (h': Heap, cloned: Ref, ghost t': Tree)
    requires Dense(h) && Represents(h, t) && t.ref == employee
    ensures Dense(h') && Extends(h, h') && |h| <= |h'|
    ensures Represents(h', t') && t'.ref == cloned
    ensures Value(h', t') == Value(h, t)
    ensures forall x :: x in PreOrder(t') ==> |h| <= x < |h'|
    decreases t
  {
    var e := h[employee];
    cloned := |h|;
    h' := h[cloned := Employee(e.uniqueId, e.name, [])];
    ghost var ks: seq<Tree> := [];
    var i := 0;
    while i < |e.subordinates|
      invariant 0 <= i <= |e.subordinates| == |t.kids| && |ks| == i
      invariant Dense(h') && Extends(h, h') && cloned in h' && cloned < |h'|
      invariant h'[cloned] == Employee(e.uniqueId, e.name, Roots(ks))
      invariant CopiedKids(h, h', cloned, ks, t.kids)
    {
      var sub := e.subordinates[i];
      assert sub == t.kids[i].ref && Represents(h, t.kids[i]);
      Fresh(h, h', t.kids[i]);
      var h2, c, tc := CloneEmployeeHierarchy(h', sub, t.kids[i]);
      var v := h2[cloned].(subordinates := h2[cloned].subordinates + [c]);
      CopyStep(h, h', h2, cloned, v, ks, t.kids, tc);
      var h3 := h2[cloned := v];
      RootsSnoc(ks, tc);
      h' := h3;
      ks := ks + [tc];
      i := i + 1;
    }
    t' := Tree(cloned, ks);
    CopyDone(h, h', t, cloned, ks);
  }

  /** A hierarchy held in `h` is held unchanged in any `h1` extending `h`. */
  lemma {:induction false} Fresh(h: Heap, h1: Heap, t: Tree)
    requires Represents(h, t) && Extends(h, h1)
    ensures Represents(h1, t) && Value(h1, t) == Value(h, t)
  {
    IdsOfValue(h, t);
    Frame(h, h1, t);
  }

  /** Overwriting object `c` leaves a copy made only of objects other than `c` as it was. */
  lemma {:induction false} KeepCopy(h2: Heap, c: Ref, v: Employee, k: Tree)
    requires Represents(h2, k) && forall x :: x in PreOrder(k) ==> x != c
    ensures Represents(h2[c := v], k) && Value(h2[c := v], k) == Value(h2, k)
  {
    IdsOfValue(h2, k);
    Frame(h2, h2[c := v], k);
  }

  /** Pushing the reference of one more copy onto the list of `c` keeps the copies made so far. */
  lemma {:induction false} CopyStep(h: Heap, h1: Heap, h2: Heap, c: Ref, v: Employee, ks: seq<Tree>, kids: seq<Tree>, tc: Tree)
    requires |ks| < |kids| && CopiedKids(h, h1, c, ks, kids) && Represents(h, kids[|ks|])
    requires Extends(h1, h2) && |h1| <= |h2| && c < |h1|
    requires Represents(h2, tc) && Value(h2, tc) == Value(h, kids[|ks|])
    requires forall x :: x in PreOrder(tc) ==> |h1| <= x < |h2|
    ensures |h2[c := v]| == |h2| ==> CopiedKids(h, h2[c := v], c, ks + [tc], kids)
  {
    var ks' := ks + [tc];
    forall j | 0 <= j < |ks'|
      ensures Represents(h2[c := v], ks'[j]) && Value(h2[c := v], ks'[j]) == Value(h, kids[j])
    {
      if j < |ks| {
        Fresh(h1, h2, ks[j]);
        KeepCopy(h2, c, v, ks[j]);
      } else {
        KeepCopy(h2, c, v, tc);
      }
    }
  }

  /** The finished copy holds the original's value and only objects from `|h|` on. */
  lemma {:induction false} CopyDone(h: Heap, h': Heap, t: Tree, c: Ref, ks: seq<Tree>)
    requires Represents(h, t) && |ks| == |t.kids| && CopiedKids(h, h', c, ks, t.kids)
    requires c in h' && h'[c] == Employee(h[t.ref].uniqueId, h[t.ref].name, Roots(ks))
    requires |h| <= c < |h'|
    ensures Represents(h', Tree(c, ks)) && Value(h', Tree(c, ks)) == Value(h, t)
    ensures forall x :: x in PreOrder(Tree(c, ks)) ==> |h| <= x < |h'|
  {
    assert ValueAll(h', ks) == ValueAll(h, t.kids);
    forall x | x in PreOrder(Tree(c, ks)) ensures |h| <= x < |h'| {
      if x != c {
        PreOrderAllMember(ks, x);
      }
    }
  }
}

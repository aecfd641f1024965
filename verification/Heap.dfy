/** The pairing heap, as linked elements: each element points to its first child and to
    its next sibling. */
module Heaps {

  class Elem<T> {
    var child: Elem?<T>
    var sibling: Elem?<T>
    const value: T

    constructor (value: T)
      ensures this.value == value
    {
      this.value := value;
      child, sibling := null, null;
    }
  }

  /** The shape that the links of some elements describe. */
  datatype Tree<T> = Nil | Node(e: Elem<T>, child: Tree<T>, sibling: Tree<T>)

  ghost function Nodes<T>(t: Tree<T>): set<Elem<T>> {
    match t
    case Nil => {}
    case Node(e, c, s) => {e} + Nodes(c) + Nodes(s)
  }

  /** `x` is the root of exactly the tree `t`, which uses no element twice. */
  ghost predicate Is<T>(x: Elem?<T>, t: Tree<T>)
    reads Nodes(t)
    decreases t
  {
    match t
    case Nil => x == null
    case Node(e, c, s) =>
      && x == e && e !in Nodes(c) && e !in Nodes(s) && Nodes(c) !! Nodes(s)
      && Is(e.child, c) && Is(e.sibling, s)
  }

  /** A tree whose root has no siblings. */
  ghost predicate Single<T>(t: Tree<T>) {
    t.Node? ==> t.sibling == Nil
  }

  ghost function Meld<T>(less: (Elem<T>, Elem<T>) -> bool, a: Tree<T>, b: Tree<T>): (t: Tree<T>)
    ensures Nodes(t) == Nodes(a) + Nodes(b) || !Single(a) || !Single(b)
    ensures Single(a) && Single(b) ==> Single(t)
  {
    if a == Nil then b
    else if b == Nil then a
    else if less(a.e, b.e) then Node(b.e, Node(a.e, a.child, b.child), Nil)
    else Node(a.e, Node(b.e, b.child, a.child), Nil)
  }

  /** Melds a list of siblings, two at a time. */
  ghost function MeldAll<T>(less: (Elem<T>, Elem<T>) -> bool, t: Tree<T>): (r: Tree<T>)
    ensures Single(r) && Nodes(r) == Nodes(t)
  {
    if t == Nil || t.sibling == Nil then t
    else
      var x, y, rest := t, t.sibling, t.sibling.sibling;
      Meld(less, MeldAll(less, rest), Meld(less, x.(sibling := Nil), y.(sibling := Nil)))
  }

  ghost predicate StrictWeak<T>(less: (Elem<T>, Elem<T>) -> bool, s: set<Elem<T>>) {
    && (forall a, b :: a in s && b in s && less(a, b) ==> !less(b, a))
    && (forall a, b, c :: a in s && b in s && c in s && !less(a, b) && !less(b, c) ==> !less(a, c))
  }

  /** Nothing below an element is greater than it. */
  ghost predicate Ordered<T>(less: (Elem<T>, Elem<T>) -> bool, t: Tree<T>) {
    match t
    case Nil => true
    case Node(e, c, s) => (forall d :: d in Nodes(c) ==> !less(e, d)) && Ordered(less, c) && Ordered(less, s)
  }

  lemma MeldOrdered<T>(less: (Elem<T>, Elem<T>) -> bool, a: Tree<T>, b: Tree<T>, u: set<Elem<T>>)
    requires StrictWeak(less, u) && Nodes(a) <= u && Nodes(b) <= u
    requires Single(a) && Single(b) && Ordered(less, a) && Ordered(less, b)
    ensures Ordered(less, Meld(less, a, b))
  {
    if a.Node? && b.Node? {
      var w, l := if less(a.e, b.e) then b else a, if less(a.e, b.e) then a else b;
      assert w.e in u && l.e in u && !less(w.e, l.e);
      forall d | d in Nodes(l.child) ensures !less(w.e, d) {
        assert d in u && !less(l.e, d);
      }
    }
  }

  lemma {:induction false} MeldAllOrdered<T>(less: (Elem<T>, Elem<T>) -> bool, t: Tree<T>, u: set<Elem<T>>)
    requires StrictWeak(less, u) && Nodes(t) <= u && Ordered(less, t)
    ensures Ordered(less, MeldAll(less, t))
  {
    if t.Node? && t.sibling.Node? {
      var x, y, rest := t.(sibling := Nil), t.sibling.(sibling := Nil), t.sibling.sibling;
      MeldAllOrdered(less, rest, u);
      MeldOrdered(less, x, y, u);
      MeldOrdered(less, MeldAll(less, rest), Meld(less, x, y), u);
    }
  }

  /** The root of a heap is a greatest element. */
  lemma RootGreatest<T>(less: (Elem<T>, Elem<T>) -> bool, t: Tree<T>)
    requires t.Node? && Single(t) && Ordered(less, t) && StrictWeak(less, Nodes(t))
    ensures forall d :: d in Nodes(t) ==> !less(t.e, d)
  {
    assert t.e in Nodes(t);
  }

  /** meld: links the smaller root below the greater one. */
  method MeldElems<T>(less: (Elem<T>, Elem<T>) -> bool, x0: Elem?<T>, y0: Elem?<T>, ghost a: Tree<T>, ghost b: Tree<T>,
                      ghost es: set<Elem<T>>)
    returns (r: Elem?<T>)
    requires es == Nodes(a) + Nodes(b)
    requires Is(x0, a) && Is(y0, b) && Nodes(a) !! Nodes(b) && Single(a) && Single(b)
    modifies es
    ensures Is(r, Meld(less, a, b))
  {
    if x0 == null { return y0; }
    if y0 == null { return x0; }
    var x, y := x0, y0;
    ghost var p, q := a, b;
    if less(x, y) {
      x, y := y, x;
      p, q := b, a;
    }
    y.sibling := x.child;
    x.child := y;
    assert Is(y.child, q.child) && Is(y.sibling, p.child);
    return x;
  }

  /** The first two of a list of siblings and the rest have no element in common. */
  lemma FirstTwo<T>(x: Elem<T>, t: Tree<T>)
    requires Is(x, t) && t.sibling.Node?
    ensures var tx, ty, rest := t.(sibling := Nil), t.sibling.(sibling := Nil), t.sibling.sibling;
            && Nodes(tx) !! Nodes(ty) && Nodes(tx) + Nodes(ty) !! Nodes(rest)
            && Nodes(t) == Nodes(tx) + Nodes(ty) + Nodes(rest)
            && x != ty.e && {x, ty.e} !! Nodes(tx.child) && {x, ty.e} !! Nodes(ty.child) && {x, ty.e} !! Nodes(rest)
            && x in Nodes(tx) && ty.e in Nodes(ty)
            && x.sibling == ty.e && Is(x.child, tx.child) && Is(ty.e.child, ty.child) && Is(ty.e.sibling, rest)
  {
    var tx, ty, rest := t.(sibling := Nil), t.sibling.(sibling := Nil), t.sibling.sibling;
    assert Nodes(tx) == {t.e} + Nodes(t.child);
    assert Nodes(ty) == {t.sibling.e} + Nodes(t.sibling.child);
    assert Nodes(t.sibling) == Nodes(ty) + Nodes(rest);
  }

  lemma MeldAllStep<T>(less: (Elem<T>, Elem<T>) -> bool, t: Tree<T>)
    requires t.Node? && t.sibling.Node?
    ensures MeldAll(less, t)
            == Meld(less, MeldAll(less, t.sibling.sibling), Meld(less, t.(sibling := Nil), t.sibling.(sibling := Nil)))
  {
  }

  /** Cuts the first two of a list of siblings off. */
  method CutTwo<T>(x: Elem<T>, ghost t: Tree<T>, ghost es: set<Elem<T>>) returns (y: Elem<T>, a: Elem?<T>)
    requires Is(x, t) && es == Nodes(t) && x.sibling != null
    modifies es
    ensures t.Node? && t.sibling.Node?
    ensures Is(x, t.(sibling := Nil)) && Is(y, t.sibling.(sibling := Nil)) && Is(a, t.sibling.sibling)
  {
    y := x.sibling;
    a := y.sibling;
    FirstTwo(x, t);
    x.sibling := null;
    y.sibling := null;
    ghost var tx, ty := t.(sibling := Nil), t.sibling.(sibling := Nil);
    assert Is(x.child, tx.child) && Is(y.child, ty.child) && Is(a, t.sibling.sibling);
  }

  lemma SiblingOf<T>(x: Elem<T>, t: Tree<T>)
    requires Is(x, t)
    ensures t.Node? && (x.sibling != null <==> t.sibling.Node?)
  {
  }

  lemma NothingLeft<T>(less: (Elem<T>, Elem<T>) -> bool, x: Elem?<T>, t: Tree<T>)
    requires Is(x, t) && (x == null || x.sibling == null)
    ensures MeldAll(less, t) == t
  {
  }

  /** merge: melds all the siblings of `x`. */
  method MeldSiblings<T>(less: (Elem<T>, Elem<T>) -> bool, x: Elem?<T>, ghost t: Tree<T>, ghost es: set<Elem<T>>)
    returns (r: Elem?<T>)
    requires Is(x, t) && es == Nodes(t)
    modifies es
    ensures Is(r, MeldAll(less, t))
    decreases t
  {
    hide Meld, MeldAll, Nodes, Is;
    if x == null || x.sibling == null {
      NothingLeft(less, x, t);
      return x;
    }
    SiblingOf(x, t);
    FirstTwo(x, t);
    MeldAllStep(less, t);
    ghost var tx, ty, rest := t.(sibling := Nil), t.sibling.(sibling := Nil), t.sibling.sibling;
    ghost var these := Nodes(tx) + Nodes(ty);
    var y, a := CutTwo(x, t, es);
    var m := MeldSiblings(less, a, rest, es - these);
    var n := MeldElems(less, x, y, tx, ty, these);
    r := MeldElems(less, m, n, MeldAll(less, rest), Meld(less, tx, ty), es);
  }

  lemma Leaf<T>(e: Elem<T>)
    requires e.child == null && e.sibling == null
    ensures Is(e, Node(e, Nil, Nil)) && Nodes(Node(e, Nil, Nil)) == {e} && Single(Node(e, Nil, Nil))
  {
  }

  lemma MeldLeaf<T>(less: (Elem<T>, Elem<T>) -> bool, t: Tree<T>, e: Elem<T>, es: set<Elem<T>>)
    requires StrictWeak(less, es + {e}) && es == Nodes(t) && Single(t) && Ordered(less, t)
    ensures Ordered(less, Meld(less, t, Node(e, Nil, Nil)))
  {
    MeldOrdered(less, t, Node(e, Nil, Nil), es + {e});
  }

  /** A tree has a root exactly when it has elements. */
  lemma Root<T>(x: Elem?<T>, t: Tree<T>)
    requires Is(x, t)
    ensures x == null <==> Nodes(t) == {}
    ensures x != null ==> t.Node? && t.e == x && x in Nodes(t) && Is(x.child, t.child)
                          && (Single(t) ==> Nodes(t.child) == Nodes(t) - {x})
  {
  }

  lemma TakeRoot<T>(less: (Elem<T>, Elem<T>) -> bool, t: Tree<T>)
    requires t.Node? && Single(t) && Ordered(less, t) && StrictWeak(less, Nodes(t))
    ensures forall d :: d in Nodes(t) ==> !less(t.e, d)
    ensures Ordered(less, MeldAll(less, t.child)) && StrictWeak(less, Nodes(t) - {t.e})
  {
    RootGreatest(less, t);
    MeldAllOrdered(less, t.child, Nodes(t));
  }

  class Heap<T> {
    const less: (Elem<T>, Elem<T>) -> bool
    var top: Elem?<T>
    var size: nat
    ghost var tree: Tree<T>
    ghost var elements: set<Elem<T>>

    ghost predicate Valid()
      reads this, elements
    {
      && elements == Nodes(tree) && Is(top, tree) && Single(tree) && size == |elements|
      && StrictWeak(less, elements) && Ordered(less, tree)
    }

    constructor (less: (Elem<T>, Elem<T>) -> bool)
      ensures Valid() && elements == {} && this.less == less
    {
      this.less := less;
      top, size, tree, elements := null, 0, Nil, {};
    }

    /** heap_push. */
    method Push(elem: Elem<T>)
      requires Valid() && elem !in elements && StrictWeak(less, elements + {elem})
      modifies this, elements, elem
      ensures Valid() && elements == old(elements) + {elem}
    {
      hide Meld, Nodes, Is, Ordered, StrictWeak, Single;
      ghost var one := Node(elem, Nil, Nil);
      elem.child, elem.sibling := null, null;
      Leaf(elem);
      MeldLeaf(less, tree, elem, elements);
      elements := elements + {elem};
      top := MeldElems(less, top, elem, tree, one, elements);
      tree := Meld(less, tree, one);
      size := size + 1;
    }

    /** heap_top: null exactly when empty, otherwise a greatest element. */
    method Top() returns (t: Elem?<T>)
      requires Valid()
      ensures t == null <==> elements == {}
      ensures t != null ==> t in elements && forall d :: d in elements ==> !less(t, d)
    {
      t := top;
      if t != null { RootGreatest(less, tree); }
    }

    /** heap_pop: takes out a greatest element. */
    method Pop() returns (t: Elem?<T>)
      requires Valid()
      modifies this, elements
      ensures Valid() && (t == null <==> old(elements) == {})
      ensures t == null ==> elements == old(elements)
      ensures t != null ==> t == old(top) && t in old(elements) && elements == old(elements) - {t}
                            && forall d :: d in old(elements) ==> !less(t, d)
    {
      hide MeldAll, Nodes, Is, Ordered, StrictWeak, Single;
      Root(top, tree);
      if size == 0 { return null; }
      t := top;
      TakeRoot(less, tree);
      ghost var below := tree.child;
      elements := elements - {t};
      top := MeldSiblings(less, t.child, below, elements);
      tree := MeldAll(less, below);
      size := size - 1;
    }
  }
}

// The copy-on-write array of colour sets that a search state holds: a
// two-level array whose leaves are reference counted and shared between
// states, and copied only when a state writes to a leaf someone else
// also holds.

module CopyOnWrite {
  import opened ColorSets

  /** Slots per leaf array. */
  const LeafSize: nat := 128
  /** Leaf arrays under the one non-leaf array. */
  const Fanout: nat := 16
  /** Slots of the whole array. */
  const Size: nat := Fanout * LeafSize

  /** LeafArray<ColorSet, LeafSize> together with its Refcountable count. */
  class Leaf {
    var refcount: int
    const cells: array<ColorSet>

    /** A new leaf holds default (full) colour sets and no reference yet. */
    constructor ()
      ensures refcount == 0 && fresh(cells) && cells.Length == LeafSize
      ensures forall i :: 0 <= i < LeafSize ==> cells[i] == Full
    {
      refcount := 0;
      cells := new ColorSet[LeafSize](_ => Full);
    }

    /** The copy constructor: the slots are copied, the count of the copy starts at zero. */
    constructor Copy(other: Leaf)
      ensures refcount == 0 && fresh(cells) && cells[..] == other.cells[..]
    {
      refcount := 0;
      cells := new ColorSet[other.cells.Length](i reads other, other.cells => if 0 <= i < other.cells.Length then other.cells[i] else Full);
    }

    /** Ref(): one more holder. */
    method Ref()
      modifies this
      ensures refcount == old(refcount) + 1
    {
      refcount := refcount + 1;
    }

    /** UnRef(): one holder fewer; the leaf is released when none is left. */
    method UnRef() returns (released: bool)
      requires refcount >= 1
      modifies this
      ensures refcount == old(refcount) - 1
      ensures released <==> refcount == 0
    {
      refcount := refcount - 1;
      released := refcount == 0;
    }
  }

  /** RefPtr<Leaf>: a counted reference to a leaf, null when reset. */
  class LeafPtr {
    var ptr: Leaf?

    /** RefPtr(T* ptr): takes a reference to p. */
    constructor Of(p: Leaf)
      modifies p
      ensures ptr == p && p.refcount == old(p.refcount) + 1
    {
      ptr := p;
      p.Ref();
    }

    /** The copy constructor: a second reference to the same leaf. */
    constructor Copy(other: LeafPtr)
      modifies other.ptr
      ensures ptr == other.ptr
      ensures other.ptr != null ==> other.ptr.refcount == old(other.ptr.refcount) + 1
    {
      ptr := other.ptr;
      if other.ptr != null {
        other.ptr.Ref();
      }
    }

    /** Reset(): drops the reference. */
    method Reset()
      requires ptr != null ==> ptr.refcount >= 1
      modifies this, ptr
      ensures ptr == null
      ensures old(ptr) != null ==> old(ptr).refcount == old(ptr.refcount) - 1
    {
      if ptr != null {
        var _ := ptr.UnRef();
        ptr := null;
      }
    }

    /**
     * Mutate(): the leaf this reference may write. A leaf held only here
     * is written in place; a shared one is copied first, the copy held
     * here alone and the original left to its other holders with one
     * holder fewer and its slots untouched.
     */
    method Mutate() returns (p: Leaf)
      requires ptr != null && ptr.refcount >= 1
      modifies this, ptr
      ensures p == ptr
      ensures old(ptr.refcount) == 1 ==> p == old(ptr) && p.refcount == 1
      ensures old(ptr.refcount) != 1 ==>
        fresh(p) && fresh(p.cells) && p.refcount == 1 && p.cells[..] == old(ptr.cells[..]) &&
        old(ptr).refcount == old(ptr.refcount) - 1
    {
      if ptr.refcount == 1 {
        return ptr;
      }
      ptr.refcount := ptr.refcount - 1;
      ptr := new Leaf.Copy(ptr);
      ptr.Ref();
      p := ptr;
    }
  }

  /** RefPtr<Child>{new Child{}}: a new leaf of full colour sets under its one reference. */
  method NewChild() returns (h: LeafPtr)
    ensures fresh(h) && h.ptr != null && fresh(h.ptr) && fresh(h.ptr.cells)
    ensures h.ptr.refcount == 1 && h.ptr.cells.Length == LeafSize
    ensures forall k :: 0 <= k < LeafSize ==> h.ptr.cells[k] == Full
  {
    var leaf := new Leaf();
    h := new LeafPtr.Of(leaf);
  }

  /**
   * The references of kids are to leaves of full colour sets, each with
   * its own leaf and slots, all of them in made.
   */
  ghost predicate Built(kids: seq<LeafPtr>, made: set<object>)
    reads made
  {
    (forall i :: 0 <= i < |kids| ==>
      kids[i] in made && kids[i].ptr != null && kids[i].ptr in made && kids[i].ptr.cells in made &&
      kids[i].ptr.cells.Length == LeafSize && kids[i].ptr.refcount >= 1 &&
      (forall k :: 0 <= k < LeafSize ==> kids[i].ptr.cells[k] == Full)) &&
    (forall i, j :: 0 <= i < j < |kids| ==>
      kids[i] != kids[j] && kids[i].ptr != kids[j].ptr && kids[i].ptr.cells != kids[j].ptr.cells)
  }

  /** One more reference to a new leaf of full colour sets keeps the children built. */
  lemma BuiltAdd(kids: seq<LeafPtr>, made: set<object>, h: LeafPtr)
    requires Built(kids, made) && h !in made && h.ptr != null && h.ptr !in made && h.ptr.cells !in made
    requires h.ptr.cells.Length == LeafSize && h.ptr.refcount >= 1
    requires forall k :: 0 <= k < LeafSize ==> h.ptr.cells[k] == Full
    ensures Built(kids + [h], made + {h, h.ptr, h.ptr.cells})
  {
    var kids', made' := kids + [h], made + {h, h.ptr, h.ptr.cells};
    forall i | 0 <= i < |kids'|
      ensures kids'[i] in made' && kids'[i].ptr != null && kids'[i].ptr in made' && kids'[i].ptr.cells in made'
    {
    }
  }

  /** The children of NonLeafArray's constructor: Fanout new leaves, one reference each. */
  method NewChildren() returns (kids: array<LeafPtr>, ghost made: set<object>)
    ensures fresh(kids) && fresh(made) && kids !in made && kids.Length == Fanout && Built(kids[..], made)
  {
    var first := NewChild();
    kids := new LeafPtr[Fanout](_ => first);
    var n := 0;
    made := {};
    while n < Fanout
      invariant 0 <= n <= Fanout
      invariant fresh(made) && kids !in made
      invariant Built(kids[..n], made)
      modifies kids
    {
      var h := NewChild();
      ghost var prefix := kids[..n];
      BuiltAdd(prefix, made, h);
      kids[n] := h;
      assert kids[..n + 1] == prefix + [h];
      made := made + {h, h.ptr, h.ptr.cells};
      n := n + 1;
    }
    assert kids[..] == kids[..Fanout];
  }

  /**
   * NonLeafArray<ColorSet, Fanout, Leaf>: slot idx lives in leaf
   * idx / LeafSize at position idx % LeafSize.
   */
  class ColorArray {
    var refcount: int
    const children: array<LeafPtr>
    ghost var Repr: set<object>

    ghost predicate Valid()
      reads this, Repr
    {
      this in Repr && children in Repr && children.Length == Fanout &&
      (forall i :: 0 <= i < Fanout ==>
        children[i] in Repr && children[i].ptr != null && children[i].ptr in Repr &&
        children[i].ptr.cells in Repr && children[i].ptr.cells.Length == LeafSize &&
        children[i].ptr.refcount >= 1) &&
      (forall i, j :: 0 <= i < j < Fanout ==>
        children[i] != children[j] && children[i].ptr != children[j].ptr &&
        children[i].ptr.cells != children[j].ptr.cells)
    }

    /** ReadAt(idx): the slot, read without copying anything. */
    function ReadAt(idx: nat): ColorSet
      requires Valid() && idx < Size
      reads this, Repr
    {
      children[idx / LeafSize].ptr.cells[idx % LeafSize]
    }

    /** The constructor gives every child a new leaf of full colour sets. */
    constructor ()
      ensures Valid() && fresh(Repr) && refcount == 0
      ensures forall idx :: 0 <= idx < Size ==> ReadAt(idx) == Full
    {
      refcount := 0;
      var kids, made := NewChildren();
      children := kids;
      Repr := {this, kids} + made;
    }

    /**
     * operator[](idx) followed by a store: only the leaf that holds idx is
     * made writable (copied when shared), every other leaf stays as it was.
     */
    method Write(idx: nat, v: ColorSet)
      requires Valid() && idx < Size
      modifies Repr
      ensures Valid() && fresh(Repr - old(Repr))
      ensures forall j :: 0 <= j < Size ==> ReadAt(j) == if j == idx then v else old(ReadAt(j))
      ensures forall i :: 0 <= i < Fanout && i != idx / LeafSize ==> children[i].ptr == old(children[i].ptr)
      ensures forall i :: 0 <= i < Fanout && old(children[i].ptr.refcount) > 1 ==>
        old(children[i].ptr).cells[..] == old(children[i].ptr.cells[..])
    {
      var c := idx / LeafSize;
      var h := children[c];
      ghost var before := h.ptr;
      var leaf := h.Mutate();
      leaf.cells[idx % LeafSize] := v;
      Repr := Repr + {leaf, leaf.cells};
      assert forall i :: 0 <= i < Fanout && i != c ==> children[i].ptr == old(children[i].ptr);
    }
  }
}

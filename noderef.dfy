/** A node reference: a shared, mutable slot that starts empty and can be
    filled with a rendered node.

    The Rust `NodeRef<G>` is a handle `Rc<RefCell<Option<G>>>`; cloning the
    handle shares the cell. Here the cell is an object and a clone is another
    reference to the same object, so a `Set` through one clone is what every
    other clone reads. The static node type `G` is the constant `nodeType`. */
module NodeRefs {
  import opened NodeRefSpec

  class NodeRef {
    /** The node type `G` the reference was created for. */
    const nodeType: TypeId
    /** The shared cell. */
    var slot: Slot

    /** Rust's typing: only a `G` can be stored in a `NodeRef<G>`. */
    ghost predicate Valid()
      reads this
    {
      WellTyped(slot, nodeType)
    }

    /** `NodeRef::new`: an empty reference. */
    constructor (g: TypeId)
      ensures Valid() && nodeType == g
      ensures slot == None
    {
      nodeType := g;
      slot := None;
    }

    /** `Default::default`, which is `NodeRef::new`. */
    constructor Default(g: TypeId)
      ensures Valid() && nodeType == g
      ensures slot == None
    {
      nodeType := g;
      slot := None;
    }

    /** `set`: overwrite the cell, whatever it held, with `node`. */
    method Set(node: Node)
      requires Valid() && node.ty == nodeType
      modifies this
      ensures Valid()
      ensures slot == Step(old(slot), Op.Set(node)) == Some(node)
    {
      slot := Some(node);
    }

    /** `try_get_raw`: a clone of the cell's contents; `None` while unset. */
    method TryGetRaw() returns (r: Option<Node>)
      ensures r.None? <==> slot.None?
      ensures r.Some? ==> slot == Some(r.value)
    {
      r := slot;
    }

    /** `try_get::<t>`: the stored node if the cell is set and the node is
        a `t`, otherwise `None`. */
    method TryGet(t: TypeId) returns (r: Option<Node>)
      requires Valid()
      ensures r.Some? <==> slot.Some? && t == nodeType
      ensures r.Some? ==> r == slot
      ensures Maybe(r) == Respond(slot, nodeType, Op.TryGet(t))
    {
      match slot
      case None =>
        r := None;
      case Some(n) =>
        r := if n.ty == t then Some(n) else None;
    }

    /** `get::<t>`: the stored node; the caller must make sure the cell is
        set and holds a `t` (otherwise Rust panics, see `Respond`). */
    method Get(t: TypeId) returns (n: Node)
      requires Valid() && slot.Some? && t == nodeType
      ensures slot == Some(n)
      ensures Respond(slot, nodeType, Op.Get(t)) == Value(n)
    {
      var r := TryGet(t);
      n := r.value;
    }

    /** `get_raw`: `try_get::<G>()` unwrapped; the caller must make sure the
        cell is set (otherwise Rust panics, see `Respond`). */
    method GetRaw() returns (n: Node)
      requires Valid() && slot.Some?
      ensures slot == Some(n)
      ensures Respond(slot, nodeType, Op.GetRaw) == Value(n)
    {
      var r := TryGet(nodeType);
      n := r.value;
    }

    /** `Clone::clone`: another handle to the same cell. */
    method Clone() returns (c: NodeRef)
      ensures c == this
      ensures c.nodeType == nodeType && c.slot == slot
    {
      c := this;
    }

    /** `PartialEq::eq`: equal iff both unset or both hold equal nodes. */
    method Eq(other: NodeRef) returns (b: bool)
      requires other.nodeType == nodeType
      ensures b <==> ((slot.None? && other.slot.None?) ||
                      (slot.Some? && other.slot.Some? && slot.value == other.slot.value))
      ensures b <==> slot == other.slot
    {
      b := match (slot, other.slot)
        case (None, None) => true
        case (Some(x), Some(y)) => x == y
        case _ => false;
    }
  }

  /** A `set` through a clone is observed through the original handle, and
      a later `set` through the original replaces it. */
  method SetThroughClone(r: NodeRef, a: Node, b: Node) returns (seenA: Option<Node>, seenB: Option<Node>)
    requires r.Valid() && a.ty == r.nodeType && b.ty == r.nodeType
    modifies r
    ensures seenA == Some(a) && seenB == Some(b)
    ensures r.Valid() && r.slot == Some(b)
  {
    var c := r.Clone();
    c.Set(a);
    seenA := r.TryGetRaw();
    r.Set(b);
    seenB := c.TryGetRaw();
  }

  /** Two distinct references are independent cells: a `set` on one leaves
      the other as it was, so refs that compared equal may stop doing so. */
  method DistinctRefsAreIndependent(r: NodeRef, s: NodeRef, n: Node) returns (eq: bool)
    requires r != s && r.Valid() && n.ty == r.nodeType && s.nodeType == r.nodeType
    modifies r
    ensures s.slot == old(s.slot) && r.slot == Some(n)
    ensures eq <==> old(s.slot) == Some(n)
  {
    r.Set(n);
    eq := r.Eq(s);
  }
}

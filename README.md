# Sycamore node references in Dafny

This project models `NodeRef<G>` from sycamore-core. A node reference is a
shared, mutable slot. It starts empty. The renderer fills it with the node it
mounted, and imperative code reads the node back from it.

- `noderef_spec.dfy` (module `NodeRefSpec`) describes the slot as a value.
  `Step` gives the slot after an operation. `Respond` gives what the operation
  returns, panics included. `Run` folds a sequence of operations. The lemmas
  state what callers can rely on.
- `noderef.dfy` (module `NodeRefs`) is the reference itself, written as a
  class `NodeRef` with one mutable field `slot`. Rust's `Rc` sharing becomes
  object aliasing: a clone is another reference to the same object. The static
  node type `G` becomes the constant `nodeType`. Rust's typing rule that only a
  `G` can be stored becomes the invariant `Valid()`.

Modelling decisions:

- A node is a value `Node(ty, id)`. `ty` is its runtime type identity, the
  thing `std::any::Any::downcast_ref` compares. Cloning a node handle gives an
  equal value.
- `try_get::<T>` works by a downcast through `dyn Any`. The dynamic type there
  is always the reference's own `G`. So, on a well-typed reference, `try_get`
  succeeds exactly when the slot is set and `T` is `G`.
- `get_raw` calls `try_get::<G>()`, with `G` inferred from its return type. It
  does not call `try_get_raw`. It is modelled that way, and
  `GetRawAgreesWithTryGetRaw` proves that both give the same answer on a
  well-typed slot.
- A panic (`expect("NodeRef is not set")`) is a `Panic` reply in `Respond`.
  The class methods `Get` and `GetRaw` require instead that the call will not
  panic. The panic message is the same when the stored node has the wrong type.
- The code does not enforce write-once. `set` overwrites whatever is stored
  (`packages/sycamore-core/src/noderef.rs:83`); `LastWriteWins` proves that the
  last `set` wins.
- Reads take no `modifies` clause, so the verifier checks that they change
  nothing.

## Model

| member | source | states |
|---|---|---|
| `NodeRefs.NodeRef.constructor` | packages/sycamore-core/src/noderef.rs:35-37 | `new` yields a well-typed reference whose slot is empty |
| `NodeRefs.NodeRef.Default` | packages/sycamore-core/src/noderef.rs:87-91 | `default` yields an empty reference, like `new` |
| `NodeRefs.NodeRef.Set` | packages/sycamore-core/src/noderef.rs:78-84 | `set` overwrites the slot with the node whatever it held, and keeps the reference well typed |
| `NodeRefs.NodeRef.TryGetRaw` | packages/sycamore-core/src/noderef.rs:70-76 | `try_get_raw` is `None` exactly when unset, and otherwise the stored node; it changes nothing |
| `NodeRefs.NodeRef.TryGet` | packages/sycamore-core/src/noderef.rs:50-57 | `try_get::<t>` returns the stored node iff the slot is set and `t` is the node type, otherwise `None`; it changes nothing |
| `NodeRefs.NodeRef.Get` | packages/sycamore-core/src/noderef.rs:39-48 | on a set slot of type `t`, `get::<t>` returns exactly the stored node and does not panic |
| `NodeRefs.NodeRef.GetRaw` | packages/sycamore-core/src/noderef.rs:59-68 | on a set slot, `get_raw` (through `try_get::<G>`) returns exactly the stored node and does not panic |
| `NodeRefs.NodeRef.Clone` | packages/sycamore-core/src/noderef.rs:27-28 | a clone is a handle to the same cell, with the same type and contents |
| `NodeRefs.NodeRef.Eq` | packages/sycamore-core/src/noderef.rs:27-28 | two references of the same node type are equal iff both are unset or both hold equal nodes |
| `NodeRefs.SetThroughClone` | packages/sycamore-core/src/noderef.rs:27-28 | a `set` through a clone is read through the original, and a later `set` through the original is read through the clone |
| `NodeRefs.DistinctRefsAreIndependent` | packages/sycamore-core/src/noderef.rs:82-84 | `set` on one reference leaves a distinct reference unchanged; afterwards they are equal iff the other already held that node |
| `NodeRefSpec.FreshIsUnset` | packages/sycamore-core/src/noderef.rs:35-37 | on an empty slot both checked reads give `None` and both panicking reads panic with "NodeRef is not set" |
| `NodeRefSpec.TryGetSpec` | packages/sycamore-core/src/noderef.rs:54-57 | `try_get::<t>` finds a node iff the slot is set and the node's type is `t`, and then it is the stored node |
| `NodeRefSpec.TryGetOnOwnType` | packages/sycamore-core/src/noderef.rs:54-57 | on a well-typed slot, `try_get::<t>` finds a node iff the slot is set and `t` is `G` |
| `NodeRefSpec.GetAgreesWithTryGet` | packages/sycamore-core/src/noderef.rs:46-57 | `get::<t>` returns `n` iff `try_get::<t>` returns `Some(n)`, and panics with "NodeRef is not set" iff it returns `None` |
| `NodeRefSpec.GetRawAgreesWithTryGetRaw` | packages/sycamore-core/src/noderef.rs:66-76 | on a well-typed slot, `get_raw` returns `n` iff `try_get_raw` returns `Some(n)`, and panics iff it returns `None` |
| `NodeRefSpec.GetRawNeedsWellTyped` | packages/sycamore-core/src/noderef.rs:66-67 | in this encoding by type tags, a slot holding a node whose tag is not `G` would make `get_raw` panic although set, so the agreement above needs the typing invariant; Rust's types rule that state out |
| `NodeRefSpec.SetOverwrites` | packages/sycamore-core/src/noderef.rs:82-84 | after `set(n)` the slot holds `n` and `try_get_raw` returns `Some(n)`, whatever was there before |
| `NodeRefSpec.ReadsDoNotWrite` | packages/sycamore-core/src/noderef.rs:54-76 | every read leaves the slot unchanged |
| `NodeRefSpec.LastWriteWins` | packages/sycamore-core/src/noderef.rs:82-84 | after any sequence of operations the slot holds the node of the latest `set`, or is unchanged if there was none |
| `NodeRefSpec.SecondSetWins` | packages/sycamore-core/src/noderef.rs:82-84 | after `set(a)` and a later `set(b)`, with only reads in between and after, the slot holds `b`: there is no set-once guard |
| `NodeRefSpec.ReadOnlyRunKeepsSlot` | packages/sycamore-core/src/noderef.rs:54-76 | any sequence of reads leaves the slot as it was |
| `NodeRefSpec.RunKeepsWellTyped` | packages/sycamore-core/src/noderef.rs:82-84 | writes of nodes of type `G` keep a well-typed slot well typed |
| `NodeRefSpec.SlotsEqualIsIdentity` | packages/sycamore-core/src/noderef.rs:27-28 | the derived equality holds exactly between identical slots, so it is an equivalence |

## Left out

- `create_node_ref` (packages/sycamore-core/src/noderef.rs:102-104) allocates the reference in a reactive scope through `sycamore_reactive::create_ref`. That reactive engine is not part of this model.
- The `Debug` implementation (packages/sycamore-core/src/noderef.rs:93-97) only formats; it is not modelled.
- `RefCell` borrow panics are not modelled. Use is single-threaded, and borrows are held only across the node's own `clone`, `eq` and `drop`, which do not touch the reference, so they cannot occur in the code shown.
- `Any` downcasting is modelled as a comparison of type tags. The `Rc` reference count and deallocation are not modelled; aliasing of Dafny objects stands for the sharing.
- NodeRefs.NodeRef.Get: requires that the slot is set and that `t` is `G` instead of returning the panic. The panic path is stated by `Respond` and `GetAgreesWithTryGet`.
- NodeRefs.NodeRef.GetRaw: requires that the slot is set instead of returning the panic. The panic path is stated by `Respond` and `GetRawAgreesWithTryGetRaw`.
- packages/sycamore/tests/web/keyed.rs holds browser tests of the keyed-list component. The list reconciler they drive is not part of this model.

/** Validation of a node's `config`: a heap graph, possibly shared, possibly cyclic. */
module ConfigGraph {
  type Id = nat

  datatype Key = TextKey(text: string) | OtherKey

  /** A YAML value: a reference to a container, a JSON scalar, or anything else (a date, say). */
  datatype Value = Ref(id: Id) | Scalar(repr: int) | NotJson

  datatype Container = Mapping(items: seq<(Key, Value)>) | Listing(values: seq<Value>)

  type Heap = map<Id, Container>

  function Children(c: Container): seq<Value> {
    match c
    case Mapping(items) => seq(|items|, i requires 0 <= i < |items| => items[i].1)
    case Listing(values) => values
  }

  /** `v` stands in the container: as the value of some key, or as an item. */
  ghost predicate Holds(c: Container, v: Value) {
    match c
    case Mapping(items) => exists key :: (key, v) in items
    case Listing(values) => v in values
  }

  lemma ChildrenAreHeld(c: Container)
    ensures forall v :: Holds(c, v) <==> v in Children(c)
  {
    if c.Mapping? {
      var children := Children(c);
      forall v | v in children ensures Holds(c, v) {
        var i :| 0 <= i < |children| && children[i] == v;
        assert (c.items[i].0, v) in c.items;
      }
      forall v | Holds(c, v) ensures v in children {
        var key :| (key, v) in c.items;
        var i :| 0 <= i < |c.items| && c.items[i] == (key, v);
        assert children[i] == v;
      }
    }
  }

  ghost predicate Closed(heap: Heap) {
    forall id, v | id in heap && Holds(heap[id], v) && v.Ref? :: v.id in heap
  }

  /** The container itself is fit for JSON: text keys, and no child that is not JSON. */
  ghost predicate Plain(c: Container) {
    && (c.Mapping? ==> forall i | 0 <= i < |c.items| :: c.items[i].0.TextKey?)
    && (forall v | Holds(c, v) :: !v.NotJson?)
  }

  /** A chain of containers, each a child of the one before. */
  ghost predicate Path(heap: Heap, p: seq<Id>) {
    && p != [] && (forall i | 0 <= i < |p| :: p[i] in heap)
    && (forall i | 0 <= i < |p| - 1 :: Holds(heap[p[i]], Ref(p[i + 1])))
  }

  ghost predicate Simple(p: seq<Id>) {
    forall i, j | 0 <= i < j < |p| :: p[i] != p[j]
  }

  /** Nothing reachable from `root` loops back on itself, and every reachable container is plain. Sharing is
      fine: two different paths may end in the same container. */
  ghost predicate AcyclicAndPlain(heap: Heap, root: Id) {
    forall p | Path(heap, p) && p[0] == root :: Simple(p) && Plain(heap[p[|p| - 1]])
  }

  /** The same, staying clear of the containers already being descended into. */
  ghost predicate Fit(heap: Heap, active: set<Id>, v: Value) {
    match v
    case Scalar(_) => true
    case NotJson => false
    case Ref(id) =>
      forall p | Path(heap, p) && p[0] == id ::
        Simple(p) && Plain(heap[p[|p| - 1]]) && forall i | 0 <= i < |p| :: p[i] !in active
  }

  lemma PathTail(heap: Heap, p: seq<Id>)
    requires Path(heap, p) && |p| > 1
    ensures Path(heap, p[1..]) && Holds(heap[p[0]], Ref(p[1]))
  {
    var q := p[1..];
    forall i | 0 <= i < |q| - 1 ensures Holds(heap[q[i]], Ref(q[i + 1])) {
      assert q[i] == p[i + 1] && q[i + 1] == p[i + 2];
    }
    assert Holds(heap[p[0]], Ref(p[0 + 1]));
  }

  lemma PathCons(heap: Heap, id: Id, q: seq<Id>)
    requires Path(heap, q) && id in heap && Holds(heap[id], Ref(q[0]))
    ensures Path(heap, [id] + q)
  {
    var p := [id] + q;
    forall i | 0 <= i < |p| - 1 ensures Holds(heap[p[i]], Ref(p[i + 1])) {
      if i > 0 {
        assert p[i] == q[i - 1] && p[i + 1] == q[i];
      }
    }
  }

  /** A container is fit iff it is not active, is plain, and its children are fit with it active. */
  lemma FitStep(heap: Heap, active: set<Id>, id: Id)
    requires Closed(heap) && id in heap
    ensures Fit(heap, active, Ref(id))
            <==> id !in active && Plain(heap[id]) && forall v | Holds(heap[id], v) :: Fit(heap, active + {id}, v)
  {
    var inner := active + {id};
    if Fit(heap, active, Ref(id)) {
      assert Path(heap, [id]);
      assert [id][0] !in active;
      forall v | Holds(heap[id], v) ensures Fit(heap, inner, v) {
        if v.Ref? {
          forall q | Path(heap, q) && q[0] == v.id
            ensures Simple(q) && Plain(heap[q[|q| - 1]]) && forall i | 0 <= i < |q| :: q[i] !in inner
          {
            PathCons(heap, id, q);
            var p := [id] + q;
            assert Simple(p) && p[|p| - 1] == q[|q| - 1];
            forall i | 0 <= i < |q| ensures q[i] !in inner {
              assert p[i + 1] == q[i] && p[0] == id;
            }
            forall i, j | 0 <= i < j < |q| ensures q[i] != q[j] {
              assert p[i + 1] == q[i] && p[j + 1] == q[j];
            }
          }
        }
      }
    }
    if id !in active && Plain(heap[id]) && forall v | Holds(heap[id], v) :: Fit(heap, inner, v) {
      forall p | Path(heap, p) && p[0] == id
        ensures Simple(p) && Plain(heap[p[|p| - 1]]) && forall i | 0 <= i < |p| :: p[i] !in active
      {
        if |p| > 1 {
          PathTail(heap, p);
          var q := p[1..];
          assert Fit(heap, inner, Ref(q[0]));
          assert q[|q| - 1] == p[|p| - 1];
          forall i | 0 < i < |p| ensures p[i] !in inner {
            assert p[i] == q[i - 1];
          }
          forall i, j | 0 <= i < j < |p| ensures p[i] != p[j] {
            assert p[j] == q[j - 1];
            if i > 0 {
              assert p[i] == q[i - 1];
            }
          }
        }
      }
    }
  }

  /** The validator: `active` holds the containers on the current descent. */
  class Validator {
    const heap: Heap
    var active: set<Id>

    constructor (heap: Heap)
      ensures this.heap == heap && active == {}
    {
      this.heap := heap;
      active := {};
    }

    /** Accepts exactly the fit values, and leaves `active` as it found it. */
    method Check(v: Value) returns (ok: bool)
      requires Closed(heap) && (v.Ref? ==> v.id in heap) && active <= heap.Keys
      modifies this`active
      ensures ok <==> Fit(heap, old(active), v)
      ensures active == old(active)
      decreases |heap.Keys - active|, 0
    {
      match v {
        case Scalar(_) => return true;
        case NotJson => return false;
        case Ref(id) =>
          FitStep(heap, active, id);
          if id in active {
            return false;
          }
          ghost var before := active;
          active := active + {id};
          assert heap.Keys - before == (heap.Keys - active) + {id};
          ok := CheckItems(heap[id]);
          active := active - {id};
      }
    }

    /** The items of one container, in order; a key is checked before its value. */
    method CheckItems(c: Container) returns (ok: bool)
      requires Closed(heap) && active <= heap.Keys
      requires forall v | Holds(c, v) && v.Ref? :: v.id in heap
      modifies this`active
      ensures ok <==> Plain(c) && forall v | Holds(c, v) :: Fit(heap, old(active), v)
      ensures active == old(active)
      decreases |heap.Keys - active|, 1
    {
      var children := Children(c);
      ChildrenAreHeld(c);
      var i := 0;
      while i < |children|
        invariant 0 <= i <= |children| && active == old(active)
        invariant c.Mapping? ==> forall j | 0 <= j < i :: c.items[j].0.TextKey?
        invariant forall j | 0 <= j < i :: !children[j].NotJson? && Fit(heap, active, children[j])
      {
        if c.Mapping? && !c.items[i].0.TextKey? {
          return false;
        }
        assert children[i] in children;
        ok := Check(children[i]);
        if !ok {
          return;
        }
        i := i + 1;
      }
      return true;
    }
  }

  /** `config` as the loader takes it: absent, a mapping, or something else. */
  datatype Raw = Absent | Root(id: Id) | NotAMapping

  /** Accepts no config, and exactly the mappings whose reachable graph is acyclic and plain throughout. */
  method ValidateConfig(heap: Heap, raw: Raw) returns (ok: bool)
    requires Closed(heap) && (raw.Root? ==> raw.id in heap && heap[raw.id].Mapping?)
    ensures raw == Absent ==> ok
    ensures raw == NotAMapping ==> !ok
    ensures raw.Root? ==> (ok <==> AcyclicAndPlain(heap, raw.id))
  {
    match raw {
      case Absent => return true;
      case NotAMapping => return false;
      case Root(id) =>
        var validator := new Validator(heap);
        ok := validator.Check(Ref(id));
    }
  }
}

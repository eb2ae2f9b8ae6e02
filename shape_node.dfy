/**
  Heap nodes of the static shape graph: an object is named by the set of
  pointer variables that point to it, and two nodes are the same node exactly
  when their name sets are equal.
*/
module Shape {

  /** A pointer variable of the analysed program. A copy of a variable is
      equal to it, so a variable is represented by its name. */
  type PointerVariable = string

  const Prime := 31

  datatype ShapeNode = ShapeNode(name: set<PointerVariable>)
  {
    /** This node with x no longer among its names. */
    function RemoveName(x: PointerVariable): ShapeNode {
      ShapeNode(name - {x})
    }

    /** Object equality: only a shape node with the same name set is equal. */
    predicate Equals(obj: JavaObject)
    {
      match obj
      case Null => false
      case OtherObject(_) => false
      case ShapeNodeObject(other) => name == other.name
    }

    /** The hash code, given the hash code of the name set. */
    function HashCode(setHash: set<PointerVariable> -> int): int {
      Prime * 1 + setHash(name)
    }
  }

  /** The argument of equals: null, a shape node, or an object of another class. */
  datatype JavaObject = Null | ShapeNodeObject(node: ShapeNode) | OtherObject(className: string)

  /** The node pointed to by exactly one variable. */
  function NamedBy(variable: PointerVariable): (n: ShapeNode)
    ensures variable in n.name && forall w :: w in n.name ==> w == variable
  {
    ShapeNode({variable})
  }

  /** The copy constructor: a fresh name set holding a copy of each of the
      original's variables. */
  method Copy(other: ShapeNode) returns (n: ShapeNode)
    ensures n.Equals(ShapeNodeObject(other)) && other.Equals(ShapeNodeObject(n))
  {
    var name: set<PointerVariable> := {};
    var pending := other.name;
    while pending != {}
      invariant pending <= other.name
      invariant name == other.name - pending
      decreases pending
    {
      var p :| p in pending;
      name := name + {p};
      pending := pending - {p};
    }
    n := ShapeNode(name);
  }

  /** equals holds of a node and an object exactly when the object is that
      same node value: never null, never an object of another class. */
  lemma EqualsExactly(a: ShapeNode, obj: JavaObject)
    ensures a.Equals(obj) <==> obj == ShapeNodeObject(a)
  {
  }

  /** equals is reflexive, symmetric and transitive on shape nodes. */
  lemma EqualsIsEquivalence(a: ShapeNode, b: ShapeNode, c: ShapeNode)
    ensures a.Equals(ShapeNodeObject(a))
    ensures a.Equals(ShapeNodeObject(b)) <==> b.Equals(ShapeNodeObject(a))
    ensures a.Equals(ShapeNodeObject(b)) && b.Equals(ShapeNodeObject(c)) ==> a.Equals(ShapeNodeObject(c))
  {
  }

  /** Equal nodes have equal hash codes. */
  lemma EqualsImpliesSameHash(a: ShapeNode, b: ShapeNode, setHash: set<PointerVariable> -> int)
    requires a.Equals(ShapeNodeObject(b))
    ensures a.HashCode(setHash) == b.HashCode(setHash)
  {
  }

  /** Nodes built from one variable each are equal exactly when the
      variables are. */
  lemma NamedByEquals(v: PointerVariable, w: PointerVariable)
    ensures NamedBy(v).Equals(ShapeNodeObject(NamedBy(w))) <==> v == w
  {
    if NamedBy(v).Equals(ShapeNodeObject(NamedBy(w))) {
      assert v in NamedBy(w).name;
    }
  }
}

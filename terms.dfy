/**
 * Sorts and terms as the quantifier solver sees them.
 *
 * Bitwuzla interns every operator node (hash-consing), so two nodes built
 * from the same kind, sort, indices and children are one node.  Here that
 * is structural equality of datatype values.  Variables, parameters and
 * uninterpreted functions are identified by creation, not by structure:
 * their kind carries a serial number that plays the role of the node id.
 * An edge to a child may be negated (Bitwuzla's inverted pointers); the
 * node it points to is its "real address".
 */
module Terms {

  datatype Option<T> = None | Some(value: T)

  datatype Sort =
    | BvSort(width: nat)
    | FpSort(expSize: nat, sigSize: nat)
    | ArraySort(index: Sort, element: Sort)
    | FunSort(domain: seq<Sort>, codomain: Sort)
    | RmSort

  /** The Boolean sort is the bit-vector sort of size 1. */
  const BoolSort: Sort := BvSort(1)

  datatype Kind =
    | Var(serial: nat)                      // fresh constant, unique by creation
    | Uf(serial: nat)                       // fresh uninterpreted function
    | Param(serial: nat, forallVar: bool)   // bound variable; forallVar: bound by a forall
    | BvConst(bits: nat)                    // bit-vector value
    | Forall
    | Exists
    | Lambda
    | Apply
    | Implies
    | Op(code: nat)                         // every other operator kind

  datatype Node = Node(kind: Kind, sort: Sort, indices: seq<nat>, children: seq<Ref>)

  /** An edge: a node, possibly negated. */
  datatype Ref = Ref(neg: bool, node: Node)

  function Plain(n: Node): Ref { Ref(false, n) }

  function Invert(r: Ref): (i: Ref)
    ensures i.node == r.node && i.neg != r.neg
  {
    Ref(!r.neg, r.node)
  }

  /** Negate b exactly when a is negated (bzla_node_cond_invert). */
  function CondInvert(a: Ref, b: Ref): (r: Ref)
    ensures r.node == b.node
    ensures r.neg == (a.neg != b.neg)
  {
    if a.neg then Invert(b) else b
  }

  predicate IsQuantifier(n: Node) { n.kind.Forall? || n.kind.Exists? }

  /** Quantifiers and lambdas bind the parameter that is their first child. */
  predicate IsBinder(n: Node) { n.kind.Forall? || n.kind.Exists? || n.kind.Lambda? }

  predicate IsParam(n: Node) { n.kind.Param? }

  predicate IsForallParam(n: Node) { n.kind.Param? && n.kind.forallVar }

  /** A fresh constant of the given sort (bzla_node_create_var). */
  function FreshVar(serial: nat, sort: Sort): Node { Node(Var(serial), sort, [], []) }

  /** The hash-consed implication a => b (bzla_exp_implies). */
  function MkImplies(a: Ref, b: Ref): Ref { Plain(Node(Implies, BoolSort, [], [a, b])) }

  /** The hash-consed application of f to args (bzla_exp_apply_n). */
  function MkApply(f: Node, args: seq<Ref>, sort: Sort): Ref
  {
    Plain(Node(Apply, sort, [], [Plain(f)] + args))
  }

  /** A bit-vector constant of the given sort (bzla_exp_bv_const). */
  function MkBvConst(sort: Sort, bits: nat): Ref { Plain(Node(BvConst(bits), sort, [], [])) }

  /** Height of a node in the DAG: every child is strictly lower. */
  function Height(n: Node): nat
    decreases n, 1
  {
    1 + MaxChildHeight(n, |n.children|)
  }

  function MaxChildHeight(n: Node, k: nat): (m: nat)
    requires k <= |n.children|
    ensures forall i :: 0 <= i < k ==> Height(n.children[i].node) <= m
    decreases n, 0, k
  {
    if k == 0 then 0
    else
      var h := Height(n.children[k - 1].node);
      var r := MaxChildHeight(n, k - 1);
      if h < r then r else h
  }

  lemma ChildIsLower(n: Node, i: nat)
    requires i < |n.children|
    ensures Height(n.children[i].node) < Height(n)
  {
    assert Height(n.children[i].node) <= MaxChildHeight(n, |n.children|);
  }

  predicate NoDups<T(==)>(s: seq<T>)
  {
    forall i, j :: 0 <= i < j < |s| ==> s[i] != s[j]
  }

  /** Every node reachable from n, n included. */
  function Reach(n: Node): set<Node>
  {
    {n} + (set i, m | 0 <= i < |n.children| && m in Reach(n.children[i].node) :: m)
  }

  // ---------------------------------------------------------------------
  // Creation order

  /** Constants, functions and parameters are the nodes identified by a serial. */
  predicate HasSerial(n: Node) { n.kind.Var? || n.kind.Uf? || n.kind.Param? }

  function SerialOf(n: Node): nat
    requires HasSerial(n)
  {
    match n.kind
    case Var(s) => s
    case Uf(s) => s
    case Param(s, _) => s
  }

  /** Every node below n that is identified by a serial was created before serial b. */
  predicate CreatedBefore(n: Node, b: nat)
    decreases n
  {
    && (HasSerial(n) ==> SerialOf(n) < b)
    && forall i :: 0 <= i < |n.children| ==> CreatedBefore(n.children[i].node, b)
  }

  lemma {:induction false} CreatedBeforeMono(n: Node, b: nat, b': nat)
    requires CreatedBefore(n, b) && b <= b'
    ensures CreatedBefore(n, b')
    decreases n
  {
    forall i | 0 <= i < |n.children| ensures CreatedBefore(n.children[i].node, b') {
      CreatedBeforeMono(n.children[i].node, b, b');
    }
  }

  /** What was created before b reaches only nodes created before b. */
  lemma {:induction false} CreatedBeforeReach(n: Node, m: Node, b: nat)
    requires CreatedBefore(n, b) && m in Reach(n)
    ensures CreatedBefore(m, b)
    decreases n
  {
    if m != n {
      var i :| 0 <= i < |n.children| && m in Reach(n.children[i].node);
      CreatedBeforeReach(n.children[i].node, m, b);
    }
  }

  /** A node that was not created before b occurs in nothing that was. */
  lemma NewIsUnreached(n: Node, m: Node, b: nat)
    requires CreatedBefore(n, b) && !CreatedBefore(m, b)
    ensures m !in Reach(n)
  {
    if m in Reach(n) {
      CreatedBeforeReach(n, m, b);
    }
  }

  /** The constant created with serial b is not created before b. */
  lemma FreshVarIsNew(b: nat, sort: Sort)
    ensures !CreatedBefore(FreshVar(b, sort), b)
    ensures forall b' :: b < b' ==> CreatedBefore(FreshVar(b, sort), b')
  {
  }

  // ---------------------------------------------------------------------
  // Well-formed terms

  /**
   * The shape Bitwuzla gives its nodes: a parameter has no children, and a
   * quantifier has two, the first a parameter (its variable).
   */
  predicate NodeShape(n: Node)
  {
    && (IsParam(n) ==> n.children == [])
    && (IsQuantifier(n) ==> |n.children| == 2 && IsParam(n.children[0].node))
  }

  predicate WellFormed(n: Node)
    decreases n
  {
    NodeShape(n) && forall i :: 0 <= i < |n.children| ==> WellFormed(n.children[i].node)
  }

  lemma {:induction false} WellFormedReach(n: Node, m: Node)
    requires WellFormed(n) && m in Reach(n)
    ensures WellFormed(m)
    decreases n
  {
    if m != n {
      var i :| 0 <= i < |n.children| && m in Reach(n.children[i].node);
      WellFormedReach(n.children[i].node, m);
    }
  }

  // ---------------------------------------------------------------------
  // Nodes of an instance

  /** n is a well-formed node the instance created before serial b. */
  predicate Built(n: Node, b: nat)
  {
    CreatedBefore(n, b) && WellFormed(n)
  }

  lemma BuiltMono(n: Node, b: nat, b': nat)
    requires Built(n, b) && b <= b'
    ensures Built(n, b')
  {
    CreatedBeforeMono(n, b, b');
  }

  lemma BuiltReach(n: Node, m: Node, b: nat)
    requires Built(n, b) && m in Reach(n)
    ensures Built(m, b)
  {
    CreatedBeforeReach(n, m, b);
    WellFormedReach(n, m);
  }

  /** Every node of rs was built before b. */
  predicate RefsBuilt(rs: seq<Ref>, b: nat)
  {
    forall i :: 0 <= i < |rs| ==> Built(rs[i].node, b)
  }

  lemma RefsBuiltMono(rs: seq<Ref>, b: nat, b': nat)
    requires RefsBuilt(rs, b) && b <= b'
    ensures RefsBuilt(rs, b')
  {
    forall i | 0 <= i < |rs| ensures Built(rs[i].node, b') {
      BuiltMono(rs[i].node, b, b');
    }
  }

  lemma RefsBuiltAppend(rs: seq<Ref>, r: Ref, b: nat)
    requires RefsBuilt(rs, b) && Built(r.node, b)
    ensures RefsBuilt(rs + [r], b)
  {
    assert forall i :: 0 <= i < |rs| ==> (rs + [r])[i] == rs[i];
  }

  /** An implication of two built nodes is built. */
  lemma ImpliesBuilt(x: Ref, y: Ref, b: nat)
    requires Built(x.node, b) && Built(y.node, b)
    ensures Built(MkImplies(x, y).node, b)
  {
    var c := MkImplies(x, y).node.children;
    assert c[0] == x && c[1] == y;
  }

  /** An application of a built function to built arguments is built. */
  lemma ApplyBuilt(f: Node, args: seq<Ref>, sort: Sort, b: nat)
    requires Built(f, b) && RefsBuilt(args, b)
    ensures Built(MkApply(f, args, sort).node, b)
  {
    var c := MkApply(f, args, sort).node.children;
    assert forall i :: 1 <= i < |c| ==> c[i] == args[i - 1];
    assert c[0] == Plain(f);
  }
}

/**
 * The discharge index: an unbalanced binary search tree keyed by patient id.
 * Insertion sends an id smaller than the node's to the left and every other id,
 * equal ones included, to the right; nothing is ever rebalanced or rejected.
 */
module PatientTree {
  import opened Patients

  datatype Tree = Leaf | Node(left: Tree, patient: Patient, right: Tree)

  /** Every record held in the tree, with its multiplicity. */
  function Records(t: Tree): multiset<Patient>
  {
    match t
    case Leaf => multiset{}
    case Node(l, p, r) => Records(l) + multiset{p} + Records(r)
  }

  /** Some record in the tree carries this id. */
  ghost predicate HasId(t: Tree, id: int)
  {
    exists q :: q in Records(t) && q.id == id
  }

  /**
   * The search-tree order: below a node, every id on the left is smaller than
   * the node's id and every id on the right is at least as large.
   */
  ghost predicate IsBST(t: Tree)
  {
    match t
    case Leaf => true
    case Node(l, p, r) =>
      IsBST(l) && IsBST(r) &&
      (forall q :: q in Records(l) ==> q.id < p.id) &&
      (forall q :: q in Records(r) ==> q.id >= p.id)
  }

  /** Ids never decrease along the sequence. */
  ghost predicate IdsAscending(s: seq<Patient>)
  {
    forall i, j :: 0 <= i < j < |s| ==> s[i].id <= s[j].id
  }

  /** Recursive insertion below `t`; the new record becomes a leaf. */
  function Insert(t: Tree, p: Patient): (r: Tree)
    ensures Records(r) == Records(t) + multiset{p}
    ensures IsBST(t) ==> IsBST(r)
  {
    match t
    case Leaf => Node(Leaf, p, Leaf)
    case Node(l, q, rt) =>
      if p.id < q.id then Node(Insert(l, p), q, rt)
      else Node(l, q, Insert(rt, p))
  }

  /**
   * Descent from the root that stops at the first node carrying `id`
   * (None plays the part of the null pointer).
   */
  function Search(t: Tree, id: int): (r: Option<Patient>)
    ensures r.Some? ==> r.value.id == id && r.value in Records(t)
    ensures IsBST(t) && HasId(t, id) ==> r.Some?
  {
    match t
    case Leaf => None
    case Node(l, p, rt) =>
      if p.id == id then Some(p)
      else if id < p.id then
        assert IsBST(t) && HasId(t, id) ==> HasId(l, id);
        Search(l, id)
      else
        assert IsBST(t) && HasId(t, id) ==> HasId(rt, id);
        Search(rt, id)
  }

  /** The in-order traversal, as the sequence of records it visits. */
  function Inorder(t: Tree): (s: seq<Patient>)
    ensures multiset(s) == Records(t)
  {
    match t
    case Leaf => []
    case Node(l, p, r) => Inorder(l) + [p] + Inorder(r)
  }

  /** On a search tree the in-order traversal lists ids in non-decreasing order. */
  lemma {:induction false} InorderAscending(t: Tree)
    requires IsBST(t)
    ensures IdsAscending(Inorder(t))
  {
    match t
    case Leaf =>
    case Node(l, p, r) =>
      InorderAscending(l);
      InorderAscending(r);
      JoinAscending(Inorder(l), p, Inorder(r));
  }

  /** Two ascending runs joined by a pivot that separates them form one ascending run. */
  lemma JoinAscending(left: seq<Patient>, p: Patient, right: seq<Patient>)
    requires IdsAscending(left) && IdsAscending(right)
    requires forall q :: q in multiset(left) ==> q.id < p.id
    requires forall q :: q in multiset(right) ==> q.id >= p.id
    ensures IdsAscending(left + [p] + right)
  {
  }

  /** An insertion never changes what a search for an id already present returns. */
  lemma {:induction false} InsertKeepsFound(t: Tree, p: Patient, id: int)
    requires Search(t, id).Some?
    ensures Search(Insert(t, p), id) == Search(t, id)
  {
    match t
    case Node(l, q, rt) =>
      if q.id != id {
        if id < q.id && p.id < q.id {
          InsertKeepsFound(l, p, id);
        } else if id > q.id && p.id >= q.id {
          InsertKeepsFound(rt, p, id);
        }
      }
  }

  /** Inserting a record whose id a search does not find makes that very record the one found. */
  lemma {:induction false} InsertFreshFound(t: Tree, p: Patient)
    requires Search(t, p.id).None?
    ensures Search(Insert(t, p), p.id) == Some(p)
  {
    match t
    case Leaf =>
    case Node(l, q, rt) =>
      if p.id < q.id {
        InsertFreshFound(l, p);
      } else {
        InsertFreshFound(rt, p);
      }
  }

  /**
   * After an insertion a search for the new record's id returns the record that
   * was found before, if any, and otherwise the new record itself. So among
   * records sharing an id, the first one inserted is the one a search returns.
   */
  lemma InsertThenSearch(t: Tree, p: Patient)
    ensures Search(Insert(t, p), p.id) ==
              if Search(t, p.id).Some? then Search(t, p.id) else Some(p)
  {
    if Search(t, p.id).Some? {
      InsertKeepsFound(t, p, p.id);
    } else {
      InsertFreshFound(t, p);
    }
  }

  /** Inserting ids 5, 3, 8 and 1 in that order builds this tree: 3 and 1 down the left, 8 on the right. */
  lemma InsertScenario(a: Patient, b: Patient, c: Patient, d: Patient)
    requires a.id == 5 && b.id == 3 && c.id == 8 && d.id == 1
    ensures Insert(Insert(Insert(Insert(Leaf, a), b), c), d) ==
              Node(Node(Node(Leaf, d, Leaf), b, Leaf), a, Node(Leaf, c, Leaf))
  {
    var t2 := Node(Node(Leaf, b, Leaf), a, Leaf);
    assert Insert(Node(Leaf, a, Leaf), b) == t2;
    var t3 := Node(Node(Leaf, b, Leaf), a, Node(Leaf, c, Leaf));
    assert Insert(t2, c) == t3;
    assert Insert(Node(Leaf, b, Leaf), d) == Node(Node(Leaf, d, Leaf), b, Leaf);
  }

  /** ... and walking that tree in order lists ids 1, 3, 5, 8. */
  lemma InorderScenario(a: Patient, b: Patient, c: Patient, d: Patient)
    requires a.id == 5 && b.id == 3 && c.id == 8 && d.id == 1
    ensures Inorder(Insert(Insert(Insert(Insert(Leaf, a), b), c), d)) == [d, b, a, c]
  {
    InsertScenario(a, b, c, d);
    var bd := Node(Node(Leaf, d, Leaf), b, Leaf);
    assert Inorder(bd) == [d, b];
    assert Inorder(Node(Leaf, c, Leaf)) == [c];
  }

  /** The owner of the tree's root, as the registry keeps it. */
  class PatientBST {
    var root: Tree

    /** The object invariant: the root holds a search tree. */
    ghost predicate Valid()
      reads this
    {
      IsBST(root)
    }

    constructor ()
      ensures root == Leaf && Valid()
    {
      root := Leaf;
    }

    method InsertPatient(p: Patient)
      requires Valid()
      modifies this
      ensures root == Insert(old(root), p)
      ensures Records(root) == old(Records(root)) + multiset{p}
      ensures Valid()
    {
      root := Insert(root, p);
    }

    function SearchById(id: int): (r: Option<Patient>)
      requires Valid()
      reads this
      ensures r.Some? <==> HasId(root, id)
      ensures r.Some? ==> r.value.id == id && r.value in Records(root)
    {
      Search(root, id)
    }

    function InorderSequence(): (s: seq<Patient>)
      requires Valid()
      reads this
      ensures multiset(s) == Records(root)
      ensures IdsAscending(s)
    {
      InorderAscending(root);
      Inorder(root)
    }
  }
}

/** The tree facade of the newer copy (src/btree.rs): it validates the
    degree `D`, owns the root and a running size, and can split the root,
    promoting its middle key to a new one-key internal root. Insertion and
    removal end in unimplemented stubs in the source and are not modelled. */
module SrcBtree {
  import opened Common
  import opened SrcNode
  import SrcKey

  const MINIMUM_LOWER_BOUND: nat := 2
  const MAXIMUM_LOWER_BOUND: nat := 2048

  /** `BtreeError`: the two ways `Btree::new` can fail. */
  datatype BtreeError = LowerBoundTooLow | LowerBoundTooLarge

  /** The validation `Btree::new` runs on `D`: too low is checked first. */
  function CheckDegree(d: nat): (r: Option<BtreeError>)
    ensures r == Some(LowerBoundTooLow) <==> d < MINIMUM_LOWER_BOUND
    ensures r == Some(LowerBoundTooLarge) <==> MINIMUM_LOWER_BOUND <= d && d > MAXIMUM_LOWER_BOUND
    ensures r == None <==> MINIMUM_LOWER_BOUND <= d <= MAXIMUM_LOWER_BOUND
  {
    if d < MINIMUM_LOWER_BOUND then Some(LowerBoundTooLow)
    else if d > MAXIMUM_LOWER_BOUND then Some(LowerBoundTooLarge)
    else None
  }

  /** `Iterator::take(k)` collected into a vector: the first `k` elements,
      or all of them when there are fewer. */
  function Take<T>(s: seq<T>, k: nat): (r: seq<T>)
    ensures |r| == if k <= |s| then k else |s|
    ensures forall j :: 0 <= j < |r| ==> r[j] == s[j]
  {
    if k <= |s| then s[..k] else s
  }

  /** What `split_root` builds from a root `n` when it cuts at `mid`: the
      first `mid` keys go left over the middle key's old subtree, the next
      `mid` keys go right over the old trailing node, both with the type of
      the old trailing node, and the middle key alone forms the new internal
      root, pointing at the left node, with the right node trailing. */
  function SplitAt<V>(n: Node<V>, mid: nat): (r: Node<V>)
    requires n.last_node.Some? && mid < |n.keys|
    ensures r.type_ == Internal && |r.keys| == 1
    ensures r.keys[0].key == n.keys[mid].key && r.keys[0].value == n.keys[mid].value
    ensures r.keys[0].pointed_node.Some? && r.last_node.Some?
  {
    var keysType := n.last_node.value.type_;
    var left := New(Take(n.keys, mid), n.keys[mid].pointed_node, keysType);
    var right := New(Take(n.keys[mid + 1..], mid), n.last_node, keysType);
    New([n.keys[mid].(pointed_node := Some(Boxed(left)))], Some(Boxed(right)), Internal)
  }

  /** `split_root` as written: `mid` is read from the root after its keys
      were moved out, so it is always 0. */
  function SplitRootAsWritten<V>(n: Node<V>): (r: Node<V>)
    requires n.last_node.Some? && |n.keys| >= 1
    ensures r.type_ == Internal && |r.keys| == 1 && r.keys[0].key == n.keys[0].key
    ensures r.keys[0].pointed_node.Some? && r.keys[0].pointed_node.value.keys == []
    ensures r.last_node.Some? && r.last_node.value.keys == []
  {
    var emptied := n.(keys := []);
    SplitAt(n, |emptied.keys| / 2)
  }

  /** `split_root` as intended: `mid` is half the original key count. */
  function SplitRootNode<V>(n: Node<V>): (r: Node<V>)
    requires n.last_node.Some? && |n.keys| >= 1
    ensures r.type_ == Internal && |r.keys| == 1 && r.keys[0].key == n.keys[|n.keys| / 2].key
    ensures r.keys[0].pointed_node.Some? && |r.keys[0].pointed_node.value.keys| == |n.keys| / 2
    ensures r.last_node.Some? && |r.last_node.value.keys| == |n.keys| - |n.keys| / 2 - 1
  {
    SplitAt(n, |n.keys| / 2)
  }

  /** The shape of a split at any `mid`: a one-key internal root holding
      the old key at `mid` (same key and value), the left node with the
      first `mid` keys over the middle key's former subtree, the right node
      with up to `mid` following keys over the old trailing node. */
  lemma SplitAtShape<V>(n: Node<V>, mid: nat)
    requires n.last_node.Some? && mid < |n.keys|
    ensures var r := SplitAt(n, mid);
      && r.type_ == Internal && |r.keys| == 1
      && r.keys[0].key == n.keys[mid].key && r.keys[0].value == n.keys[mid].value
      && r.keys[0].pointed_node.Some? && r.last_node.Some?
      && var left := r.keys[0].pointed_node.value;
      && var right := r.last_node.value;
      && left.keys == n.keys[..mid]
      && left.last_node == n.keys[mid].pointed_node
      && right.keys == Take(n.keys[mid + 1..], mid)
      && right.last_node == n.last_node
      && left.type_ == right.type_ == n.last_node.value.type_
  {
  }

  /** The entries of a split root are the entries of the key vector cut at
      `mid`, with whatever `take` leaves out of the right half missing. */
  lemma {:induction false} SplitAtInOrder<V>(n: Node<V>, mid: nat)
    requires n.last_node.Some? && mid < |n.keys|
    ensures InOrder(SplitAt(n, mid)) ==
      KeysInOrder(n.keys[..mid + 1]) + KeysInOrder(Take(n.keys[mid + 1..], mid)) + SubtreeInOrder(n.last_node)
  {
    var ks := n.keys;
    var t := n.last_node.value.type_;
    var left := New(Take(ks, mid), ks[mid].pointed_node, t);
    var right := New(Take(ks[mid + 1..], mid), n.last_node, t);
    var top := ks[mid].(pointed_node := Some(left));
    assert SplitAt(n, mid) == New([top], Some(right), Internal);
    calc {
      InOrder(SplitAt(n, mid));
      KeysInOrder([top]) + SubtreeInOrder(Some(right));
      { assert [top][1..] == []; }
      KeyInOrder(top) + InOrder(right);
      InOrder(left) + [(ks[mid].key, ks[mid].value)] + InOrder(right);
      KeysInOrder(ks[..mid]) + SubtreeInOrder(ks[mid].pointed_node) + [(ks[mid].key, ks[mid].value)] + InOrder(right);
      { assert [ks[mid]][1..] == []; }
      KeysInOrder(ks[..mid]) + KeysInOrder([ks[mid]]) + InOrder(right);
      { KeysInOrderAppend(ks[..mid], [ks[mid]]); assert ks[..mid] + [ks[mid]] == ks[..mid + 1]; }
      KeysInOrder(ks[..mid + 1]) + KeysInOrder(Take(ks[mid + 1..], mid)) + SubtreeInOrder(n.last_node);
    }
  }

  /** With `mid` half the key count, the halves hold `mid` and at most
      `mid` keys, and `take` drops nothing: left, middle and right joined
      are the old key vector. */
  lemma SplitRootNodeHalves<V>(n: Node<V>)
    requires n.last_node.Some? && |n.keys| >= 1
    ensures var mid := |n.keys| / 2;
      var r := SplitRootNode(n);
      && r.type_ == Internal && |r.keys| == 1 && r.keys[0].key == n.keys[mid].key
      && r.keys[0].pointed_node.Some? && r.last_node.Some?
      && |r.keys[0].pointed_node.value.keys| == mid
      && |r.last_node.value.keys| == |n.keys| - mid - 1 <= mid
      && r.keys[0].pointed_node.value.keys + [n.keys[mid]] + r.last_node.value.keys == n.keys
  {
    var ks := n.keys;
    var mid := |ks| / 2;
    SplitAtShape(n, mid);
    var rest := ks[mid + 1..];
    assert Take(rest, mid) == rest;
    assert ks[..mid] + [ks[mid]] + rest == ks;
  }

  /** With `mid` half the key count, the split root carries the same
      entries in the same order as the old root. */
  lemma SplitRootNodeKeepsEntries<V>(n: Node<V>)
    requires n.last_node.Some? && |n.keys| >= 1
    ensures InOrder(SplitRootNode(n)) == InOrder(n)
  {
    SplitAtEntries(n, |n.keys| / 2);
  }

  /** When `take` keeps the whole right part, the split keeps every entry. */
  lemma SplitAtEntries<V>(n: Node<V>, mid: nat)
    requires n.last_node.Some? && mid < |n.keys|
    requires |n.keys| - mid - 1 <= mid
    ensures InOrder(SplitAt(n, mid)) == InOrder(n)
  {
    var ks := n.keys;
    SplitAtInOrder(n, mid);
    assert Take(ks[mid + 1..], mid) == ks[mid + 1..];
    assert ks[..mid + 1] + ks[mid + 1..] == ks;
    KeysInOrderAppend(ks[..mid + 1], ks[mid + 1..]);
  }

  /** The split as written keeps only the first key of a root with two or
      more keys: the entries of every later key are lost. */
  lemma SplitRootAsWrittenLosesKeys<V>(n: Node<V>)
    requires n.last_node.Some? && |n.keys| >= 2
    ensures |SplitRootAsWritten(n).keys| == 1
    ensures SplitRootAsWritten(n).keys[0].pointed_node.value.keys == []
    ensures SplitRootAsWritten(n).last_node.value.keys == []
    ensures |InOrder(SplitRootAsWritten(n))| < |InOrder(n)|
  {
    var ks := n.keys;
    SplitAtShape(n, 0);
    SplitAtInOrder(n, 0);
    assert ks[..1] + ks[1..] == ks;
    KeysInOrderAppend(ks[..1], ks[1..]);
    KeysInOrderLength(ks[1..]);
    assert KeysInOrder(Take(ks[1..], 0)) == [];
  }

  /** `Btree`: the root node and the number of entries, for degree `D`. */
  class Btree<V> {
    const degree: nat
    var root: Node<V>
    var size: nat

    /** `size` counts the entries reachable from the root. */
    ghost predicate Counted()
      reads this
    {
      size == |InOrder(root)|
    }

    /** The state `Btree::new` builds once `D` is accepted. */
    constructor Init(degree: nat)
      requires CheckDegree(degree) == None
      ensures this.degree == degree && root == Default() && size == 0
      ensures Counted() && Empty() && Len() == 0
    {
      this.degree := degree;
      root := Default();
      size := 0;
    }

    /** `Btree::new()`: `LowerBoundTooLow` when `D < 2`, else
        `LowerBoundTooLarge` when `D > 2048`, else an empty tree whose
        root is an empty leaf. */
    static method New(degree: nat) returns (r: Result<Btree<V>, BtreeError>)
      ensures r.Err? <==> CheckDegree(degree).Some?
      ensures r.Err? ==> r.error == CheckDegree(degree).value
      ensures r.Ok? ==> fresh(r.value) && r.value.degree == degree
      ensures r.Ok? ==> r.value.root == Default() && r.value.size == 0
      ensures r.Ok? ==> r.value.Counted() && r.value.Empty() && r.value.Len() == 0
    {
      if degree < MINIMUM_LOWER_BOUND {
        return Err(LowerBoundTooLow);
      }
      if degree > MAXIMUM_LOWER_BOUND {
        return Err(LowerBoundTooLarge);
      }
      var t := new Btree.Init(degree);
      return Ok(t);
    }

    /** `empty()`: the tree holds no entry. */
    function Empty(): (e: bool)
      reads this
      ensures e <==> Len() == 0
    {
      size == 0
    }

    /** `len()`: the running size. */
    function Len(): (n: nat)
      reads this
      ensures n == size
    {
      size
    }

    /** `split_root()`: moves the root's keys and trailing node out, cuts
        the keys at `mid`, and installs a one-key internal root over the
        two halves. The type of the halves is read from the old trailing
        node, which is unwrapped, so it must be present; the middle key is
        unwrapped too, so the root needs a key. */
    method SplitRoot()
      requires root.last_node.Some? && |root.keys| >= 1
      modifies this`root
      ensures root == SplitRootNode(old(root))
      ensures InOrder(root) == InOrder(old(root))
      ensures old(Counted()) ==> Counted()
    {
      var keys := root.keys;
      root := root.(keys := []);
      var lastNode := root.last_node;
      root := root.(last_node := None);
      var keysType := lastNode.value.type_;

      // The source reads the count at this point from the root it has just
      // emptied (src/btree.rs:63), which always gives 0; the count of the
      // keys moved out is what the cut evidently needs.
      var mid := |keys| / 2;

      var leftKeys := Take(keys, mid);
      var middleKey := keys[mid];
      var rightKeys := Take(keys[mid + 1..], mid);

      var middlePointed := middleKey.pointed_node;
      middleKey := middleKey.(pointed_node := None);

      var leftNode := SrcNode.New(leftKeys, middlePointed, keysType);
      var rightNode := SrcNode.New(rightKeys, lastNode, keysType);

      middleKey := middleKey.(pointed_node := Some(Boxed(leftNode)));
      var newRootLast := Boxed(rightNode);

      root := SrcNode.New([middleKey], Some(newRootLast), Internal);
      SplitRootNodeKeepsEntries(old(root));
      SplitRootNodeHalves(old(root));
    }
  }
}

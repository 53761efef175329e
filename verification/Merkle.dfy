/** The Complete Binary Merkle Tree of RFC 0006: the array definition and the queue algorithm that computes its root. */
module Merkle {
  import opened Base

  function MergeInput(left: Digest, right: Digest): Bytes {
    left + right
  }

  function Merge(h: HashFn, left: Digest, right: Digest): Digest {
    h(MergeInput(left, right))
  }

  /**
   * Node i of the array of 2n - 1 nodes over n leaves: leaf i stands at n - 1 + i, and every other node is the merge
   * of its two children 2i + 1 and 2i + 2.
   */
  function Node(h: HashFn, leaves: seq<Digest>, i: nat): Digest
    requires i < 2 * |leaves| - 1
    decreases 2 * |leaves| - i
  {
    if i >= |leaves| - 1 then leaves[i - (|leaves| - 1)]
    else Merge(h, Node(h, leaves, 2 * i + 1), Node(h, leaves, 2 * i + 2))
  }

  function Root(h: HashFn, leaves: seq<Digest>): Digest {
    if leaves == [] then ZERO_DIGEST else Node(h, leaves, 0)
  }

  /** The array in bytes: an inner node hashes its left child's digest followed by its right child's. */
  lemma TreeInBytes(h: HashFn, leaves: seq<Digest>)
    requires leaves != []
    ensures Root(h, leaves) == Node(h, leaves, 0)
    ensures forall i: nat {:trigger Node(h, leaves, i)} :: i < |leaves| - 1 ==>
              Node(h, leaves, i) == h(Node(h, leaves, 2 * i + 1) + Node(h, leaves, 2 * i + 2))
    ensures forall j :: 0 <= j < |leaves| ==> Node(h, leaves, |leaves| - 1 + j) == leaves[j]
  {
  }

  /** The root over no leaves is thirty-two zero bytes. */
  lemma EmptyRoot(h: HashFn)
    ensures |Root(h, [])| == 32 && forall i :: 0 <= i < 32 ==> Root(h, [])[i] == 0
  {
    ZeroBytes(32);
  }

  /** The queue holds nodes 2k down to k: a whole generation of the tree, or parts of two neighbouring ones. */
  ghost predicate HoldsNodes(h: HashFn, leaves: seq<Digest>, queue: seq<Digest>, k: nat) {
    && 2 * k < 2 * |leaves| - 1
    && |queue| == k + 1
    && forall i :: 0 <= i <= k ==> queue[i] == Node(h, leaves, 2 * k - i)
  }

  lemma LeafParent(h: HashFn, leaves: seq<Digest>, i: nat)
    requires 2 * i + 2 <= |leaves|
    ensures Node(h, leaves, |leaves| - 2 - i)
         == Merge(h, leaves[|leaves| - 2 * i - 2], leaves[|leaves| - 2 * i - 1])
  {
    var n := |leaves|;
    var parent := n - 2 - i;
    assert Node(h, leaves, 2 * parent + 1) == leaves[n - 2 * i - 2];
    assert Node(h, leaves, 2 * parent + 2) == leaves[n - 2 * i - 1];
  }

  /** The queue holds the parents of the last leaves, from the right. */
  ghost predicate HoldsParents(h: HashFn, leaves: seq<Digest>, queue: seq<Digest>) {
    2 * |queue| <= |leaves| && forall i :: 0 <= i < |queue| ==> queue[i] == Node(h, leaves, |leaves| - 2 - i)
  }

  lemma NextPair(h: HashFn, leaves: seq<Digest>, queue: seq<Digest>)
    requires HoldsParents(h, leaves, queue) && 2 * |queue| + 2 <= |leaves|
    ensures var left, right := leaves[|leaves| - 2 * |queue| - 2], leaves[|leaves| - 2 * |queue| - 1];
            HoldsParents(h, leaves, queue + [Merge(h, left, right)])
  {
    LeafParent(h, leaves, |queue|);
  }

  /** All leaves are paired, or the odd first one stands before the parents of the others. */
  lemma AllPaired(h: HashFn, leaves: seq<Digest>, queue: seq<Digest>)
    requires leaves != [] && HoldsParents(h, leaves, queue) && |leaves| <= 2 * |queue| + 1
    ensures |leaves| == 2 * |queue| ==> HoldsNodes(h, leaves, queue, |queue| - 1)
    ensures |leaves| == 2 * |queue| + 1 ==> HoldsNodes(h, leaves, [leaves[0]] + queue, |queue|)
  {
  }

  /** Leaves are taken from the right in pairs; an odd first leaf goes to the front of the queue. */
  method PairLeaves(h: HashFn, leaves: seq<Digest>) returns (queue: seq<Digest>, ghost merges: nat)
    requires leaves != []
    ensures merges == |leaves| / 2
    ensures |queue| == (|leaves| + 1) / 2 && HoldsNodes(h, leaves, queue, |queue| - 1)
  {
    queue, merges := [], 0;
    var remaining: nat := |leaves|;
    while remaining >= 2
      invariant merges == |queue| && remaining + 2 * |queue| == |leaves|
      invariant HoldsParents(h, leaves, queue)
    {
      NextPair(h, leaves, queue);
      queue := queue + [Merge(h, leaves[remaining - 2], leaves[remaining - 1])];
      merges := merges + 1;
      remaining := remaining - 2;
    }
    AllPaired(h, leaves, queue);
    if remaining == 1 {
      queue := [leaves[0]] + queue;
    }
  }

  /** The first pass leaves half as many entries as the queue was created for; then two make one until one is left. */
  method MerkleRoot(h: HashFn, leaves: seq<Digest>) returns (root: Digest, ghost merges: nat)
    ensures root == Root(h, leaves)
    ensures merges == if leaves == [] then 0 else |leaves| - 1
  {
    merges := 0;
    if |leaves| == 0 {
      return ZERO_DIGEST, 0;
    }
    var n := |leaves|;
    ghost var capacity := (n + 1) / 2;
    var queue;
    queue, merges := PairLeaves(h, leaves);
    ghost var k: nat := |queue| - 1;
    while |queue| > 1
      invariant HoldsNodes(h, leaves, queue, k)
      invariant merges + k == n - 1
      invariant |queue| <= capacity
    {
      var right, left := queue[0], queue[1];
      queue := queue[2..];
      queue := queue + [Merge(h, left, right)];
      merges := merges + 1;
      k := k - 1;
    }
    root := queue[0];
  }

  // ----- Binding -----

  /** The string hashed to make inner node i. */
  function InputAt(h: HashFn, leaves: seq<Digest>, i: nat): Bytes
    requires i < |leaves| - 1
  {
    MergeInput(Node(h, leaves, 2 * i + 1), Node(h, leaves, 2 * i + 2))
  }

  /** The two trees hash two different 64-byte strings to the same inner node. */
  ghost predicate TreesCollide(h: HashFn, xs: seq<Digest>, ys: seq<Digest>) {
    exists i: nat :: i < |xs| - 1 && i < |ys| - 1 && Collide(h, InputAt(h, xs, i), InputAt(h, ys, i))
  }

  lemma MergeInputInjective(a: Digest, b: Digest, c: Digest, d: Digest)
    requires MergeInput(a, b) == MergeInput(c, d)
    ensures a == c && b == d
  {
    assert a == MergeInput(a, b)[..32] && b == MergeInput(a, b)[32..];
    assert c == MergeInput(c, d)[..32] && d == MergeInput(c, d)[32..];
  }

  lemma ParentsBindChildren(h: HashFn, xs: seq<Digest>, ys: seq<Digest>, i: nat)
    requires i < |xs| - 1 && i < |ys| - 1
    requires Node(h, xs, i) == Node(h, ys, i) && !TreesCollide(h, xs, ys)
    ensures Node(h, xs, 2 * i + 1) == Node(h, ys, 2 * i + 1)
    ensures Node(h, xs, 2 * i + 2) == Node(h, ys, 2 * i + 2)
  {
    assert h(InputAt(h, xs, i)) == h(InputAt(h, ys, i));
    assert !Collide(h, InputAt(h, xs, i), InputAt(h, ys, i));
    MergeInputInjective(Node(h, xs, 2 * i + 1), Node(h, xs, 2 * i + 2),
                        Node(h, ys, 2 * i + 1), Node(h, ys, 2 * i + 2));
  }

  /** Equal roots make all nodes of the smaller tree equal to those of the larger one at the same places. */
  lemma {:induction false} NodesAgree(h: HashFn, xs: seq<Digest>, ys: seq<Digest>, i: nat)
    requires |xs| <= |ys| && i < 2 * |xs| - 1
    requires Root(h, xs) == Root(h, ys) && !TreesCollide(h, xs, ys)
    ensures Node(h, xs, i) == Node(h, ys, i)
  {
    if i > 0 {
      var parent := (i - 1) / 2;
      NodesAgree(h, xs, ys, parent);
      ParentsBindChildren(h, xs, ys, parent);
    }
  }

  /** Equal roots over equally many leaves mean equal leaves, or the two computations themselves contain a collision. */
  lemma RootBinds(h: HashFn, xs: seq<Digest>, ys: seq<Digest>)
    requires |xs| == |ys| && Root(h, xs) == Root(h, ys)
    ensures xs == ys || TreesCollide(h, xs, ys)
  {
    if !TreesCollide(h, xs, ys) {
      forall i | 0 <= i < |xs| ensures xs[i] == ys[i] {
        NodesAgree(h, xs, ys, |xs| - 1 + i);
      }
    }
  }

  /** A root does not tell how many leaves there are: of two trees, the smaller's first leaf is inner to the larger. */
  lemma FirstLeafIsInner(h: HashFn, xs: seq<Digest>, ys: seq<Digest>)
    requires 0 < |xs| < |ys| && Root(h, xs) == Root(h, ys) && !TreesCollide(h, xs, ys)
    ensures xs[0] == h(InputAt(h, ys, |xs| - 1))
  {
    NodesAgree(h, xs, ys, |xs| - 1);
  }

  lemma RootOfTwo(h: HashFn, a: Digest, b: Digest)
    ensures Root(h, [a, b]) == Merge(h, a, b) == h(a + b)
  {
    assert Node(h, [a, b], 1) == a && Node(h, [a, b], 2) == b;
  }

  lemma RootOfFour(h: HashFn, a: Digest, b: Digest, c: Digest, d: Digest)
    ensures Root(h, [a, b, c, d]) == Merge(h, Merge(h, a, b), Merge(h, c, d))
  {
    var leaves := [a, b, c, d];
    assert Node(h, leaves, 3) == a && Node(h, leaves, 4) == b && Node(h, leaves, 5) == c && Node(h, leaves, 6) == d;
    assert Node(h, leaves, 1) == Merge(h, a, b) && Node(h, leaves, 2) == Merge(h, c, d);
  }
}

/**
 * The node of `leveldb.SkipList`: a key and an array of forward references,
 * one per level, all empty when the node is built.
 */
module SkipLists {
  import opened Ints

  /** `kMaxHeight`: the most levels a node of the list may have. */
  const MaxHeight: nat := 12

  class Node<K> {
    /** `key_` */
    var key: K
    /** `next_`: the successor at each level, null where none is linked yet. */
    var next: array<Node?<K>>

    /** `Node(key)`: a node of height one. */
    constructor (k: K)
      ensures key == k
      ensures fresh(next) && next.Length == 1
      ensures forall i :: 0 <= i < next.Length ==> next[i] == null
    {
      key := k;
      next := new Node?<K>[1](_ => null);
    }

    /** `Node(key, height)`: a node with exactly `height` empty forward slots. */
    constructor WithHeight(k: K, height: nat)
      requires height <= MaxInt32
      ensures key == k
      ensures fresh(next) && next.Length == height
      ensures forall i :: 0 <= i < next.Length ==> next[i] == null
    {
      key := k;
      next := new Node?<K>[height](_ => null);
    }
  }
}

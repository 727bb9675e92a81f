/**
 * `CRenderingCache`: a bounded cache with least-recently-used eviction.
 *
 * The source keeps two structures in step: a hash map from each key to the
 * list node holding its value, and a list of (map position, value) nodes
 * ordered from most to least recently used.  The model keeps both: `index`
 * maps each key to the identity of its node, and `nodes` is the list, head
 * first; a node's `key` stands for the map position it records.  Its
 * meaning is the sequence of (key, value) entries, specified by the pure
 * functions below.
 */
module RenderingCache {
  import opened Wrappers

  /** Keys are pairwise distinct: the map holds each key once. */
  ghost predicate DistinctKeys<K, V>(s: seq<(K, V)>)
  {
    forall i, j :: 0 <= i < j < |s| ==> s[i].0 != s[j].0
  }

  /** The position of the first entry for `k`, if any. */
  function FindKey<K(==), V>(s: seq<(K, V)>, k: K): (r: Option<nat>)
    ensures r.Some? ==> r.value < |s| && s[r.value].0 == k
    ensures r.Some? ==> forall j :: 0 <= j < r.value ==> s[j].0 != k
    ensures r.None? <==> forall j :: 0 <= j < |s| ==> s[j].0 != k
  {
    if |s| == 0 then None
    else if s[0].0 == k then Some(0)
    else match FindKey(s[1..], k)
      case None => None
      case Some(i) => Some(i + 1)
  }

  /** With distinct keys, the entry at `i` is the one `FindKey` finds. */
  lemma FindKeyUnique<K, V>(s: seq<(K, V)>, k: K, i: nat)
    requires DistinctKeys(s) && i < |s| && s[i].0 == k
    ensures FindKey(s, k) == Some(i)
  {}

  /** The value stored for `k`, if any. */
  function Get<K(==), V>(s: seq<(K, V)>, k: K): (r: Option<V>)
    ensures r.Some? <==> exists j :: 0 <= j < |s| && s[j].0 == k
  {
    match FindKey(s, k)
    case None => None
    case Some(i) => Some(s[i].1)
  }

  /** `CAtlList::MoveToHead`: the entry at `i` moves to the front; the others keep their order. */
  function MoveToHead<T>(s: seq<T>, i: nat): (r: seq<T>)
    requires i < |s|
    ensures |r| == |s| && r[0] == s[i]
    ensures forall j :: 0 <= j < i ==> r[j + 1] == s[j]
    ensures forall j :: i < j < |s| ==> r[j] == s[j]
  {
    [s[i]] + s[..i] + s[i + 1..]
  }

  /** Moving an entry to the front rearranges the entries and nothing else. */
  lemma MoveToHeadPermutes<T>(s: seq<T>, i: nat)
    requires i < |s|
    ensures multiset(MoveToHead(s, i)) == multiset(s)
  {
    calc {
      multiset(s);
      { assert s == s[..i] + [s[i]] + s[i + 1..]; }
      multiset(s[..i]) + multiset([s[i]]) + multiset(s[i + 1..]);
      { assert MoveToHead(s, i) == [s[i]] + s[..i] + s[i + 1..]; }
      multiset(MoveToHead(s, i));
    }
  }

  /** Moving an entry to the front keeps the keys distinct. */
  lemma MoveToHeadDistinct<K, V>(s: seq<(K, V)>, i: nat)
    requires DistinctKeys(s) && i < |s|
    ensures DistinctKeys(MoveToHead(s, i))
  {
    var r := MoveToHead(s, i);
    forall p, q | 0 <= p < q < |r|
      ensures r[p].0 != r[q].0
    {
      var p' := if p == 0 then i else if p <= i then p - 1 else p;
      var q' := if q == 0 then i else if q <= i then q - 1 else q;
      assert r[p] == s[p'] && r[q] == s[q'] && p' != q';
    }
  }

  /** `Lookup`'s effect on the list: a hit moves the entry to the front, a miss changes nothing. */
  function Touch<K(==), V>(s: seq<(K, V)>, k: K): (r: seq<(K, V)>)
    ensures |r| == |s|
    ensures FindKey(s, k).None? ==> r == s
    ensures FindKey(s, k).Some? ==> r[0] == s[FindKey(s, k).value] && r[0].0 == k
  {
    match FindKey(s, k)
    case None => s
    case Some(i) => MoveToHead(s, i)
  }

  /** A lookup reorders the entries without changing any key's value, and a hit is then the front entry. */
  lemma TouchKeepsEntries<K, V>(s: seq<(K, V)>, k: K, k': K)
    requires DistinctKeys(s)
    ensures multiset(Touch(s, k)) == multiset(s) && DistinctKeys(Touch(s, k))
    ensures Get(Touch(s, k), k') == Get(s, k')
    ensures FindKey(s, k).Some? ==> Touch(s, k)[0].0 == k
  {
    match FindKey(s, k)
    case None =>
    case Some(i) =>
      MoveToHeadPermutes(s, i);
      MoveToHeadDistinct(s, i);
      var r := MoveToHead(s, i);
      match FindKey(s, k')
      case None =>
      case Some(j) =>
        var j' := if j == i then 0 else if j < i then j + 1 else j;
        assert r[j'] == s[j];
        FindKeyUnique(r, k', j');
  }

  /** `SetAt` evicts when the key is new and the list is already full. */
  predicate Evicts<K(==), V>(s: seq<(K, V)>, k: K, maxSize: nat)
  {
    FindKey(s, k).None? && |s| >= maxSize
  }

  /**
   * `SetAt`'s effect on the list: an existing entry moves to the front with
   * the new value; a new key goes to the front after the least recently
   * used entry is dropped if the list is full.
   */
  function Put<K(==), V>(s: seq<(K, V)>, k: K, v: V, maxSize: nat): (r: seq<(K, V)>)
    requires maxSize >= 1
    ensures |r| > 0 && r[0] == (k, v)
    ensures |r| <= |s| + 1
  {
    match FindKey(s, k)
    case Some(i) => [(k, v)] + s[..i] + s[i + 1..]
    case None =>
      if |s| >= maxSize then [(k, v)] + s[..|s| - 1] else [(k, v)] + s
  }

  /** The cache never holds more than `maxSize` entries, and a new key grows it by one only when there is room. */
  lemma PutBounded<K, V>(s: seq<(K, V)>, k: K, v: V, maxSize: nat)
    requires maxSize >= 1 && |s| <= maxSize
    ensures |Put(s, k, v, maxSize)| <= maxSize
    ensures |Put(s, k, v, maxSize)| == if FindKey(s, k).None? && |s| < maxSize then |s| + 1 else |s|
  {}

  /** After `SetAt(k, v)` the entry for `k` is the most recently used and holds `v`. */
  lemma PutThenGet<K, V>(s: seq<(K, V)>, k: K, v: V, maxSize: nat)
    requires maxSize >= 1 && DistinctKeys(s)
    ensures Put(s, k, v, maxSize)[0] == (k, v)
    ensures DistinctKeys(Put(s, k, v, maxSize))
    ensures Get(Put(s, k, v, maxSize), k) == Some(v)
  {
    var r := Put(s, k, v, maxSize);
    match FindKey(s, k)
    case Some(i) =>
      assert r == MoveToHead(s, i)[0 := (k, v)];
      MoveToHeadDistinct(s, i);
    case None =>
      forall p, q | 0 <= p < q < |r|
        ensures r[p].0 != r[q].0
      {
        if p > 0 {
          assert r[p] == s[p - 1] && r[q] == s[q - 1];
        }
      }
  }

  /**
   * `SetAt(k, v)` leaves every other key's value alone, except that on
   * eviction the least recently used key (the last entry) is dropped.
   */
  lemma PutKeepsOthers<K, V>(s: seq<(K, V)>, k: K, v: V, maxSize: nat, k': K)
    requires maxSize >= 1 && DistinctKeys(s) && k' != k
    ensures Get(Put(s, k, v, maxSize), k')
         == if Evicts(s, k, maxSize) && |s| > 0 && s[|s| - 1].0 == k' then None else Get(s, k')
  {
    var r := Put(s, k, v, maxSize);
    PutThenGet(s, k, v, maxSize);
    match FindKey(s, k')
    case None =>
      forall j | 0 <= j < |r|
        ensures r[j].0 != k'
      {
        if j > 0 {
          match FindKey(s, k)
          case Some(i) => assert r[j] == s[if j <= i then j - 1 else j];
          case None => assert r[j] == s[j - 1];
        }
      }
    case Some(j) =>
      match FindKey(s, k)
      case Some(i) =>
        var j' := if j < i then j + 1 else j;
        assert r[j'] == s[j];
        FindKeyUnique(r, k', j');
      case None =>
        if !(Evicts(s, k, maxSize) && s[|s| - 1].0 == k') {
          assert r[j + 1] == s[j];
          FindKeyUnique(r, k', j + 1);
        } else {
          forall p | 0 <= p < |r|
            ensures r[p].0 != k'
          {
            if p > 0 {
              assert r[p] == s[p - 1];
            }
          }
        }
  }

  /** On a hit, `SetAt` is the lookup's move to the front followed by the new value at the head. */
  lemma PutHit<K, V>(s: seq<(K, V)>, k: K, v: V, maxSize: nat, i: nat)
    requires maxSize >= 1 && FindKey(s, k) == Some(i)
    ensures Put(s, k, v, maxSize) == MoveToHead(s, i)[0 := (k, v)]
  {}

  /** On eviction only the last (least recently used) entry goes; the rest keep their order behind the new one. */
  lemma EvictsLeastRecent<K, V>(s: seq<(K, V)>, k: K, v: V, maxSize: nat)
    requires maxSize >= 1 && Evicts(s, k, maxSize)
    ensures Put(s, k, v, maxSize) == [(k, v)] + s[..|s| - 1]
  {}

  /** A list node: its identity (the list POSITION), its map position (the key) and its value. */
  datatype Node<K, V> = Node(id: nat, key: K, value: V)

  /** The entries a node list stands for. */
  function Entries<K, V>(nodes: seq<Node<K, V>>): (s: seq<(K, V)>)
    ensures |s| == |nodes|
    ensures forall i :: 0 <= i < |nodes| ==> s[i] == (nodes[i].key, nodes[i].value)
  {
    if nodes == [] then [] else [(nodes[0].key, nodes[0].value)] + Entries(nodes[1..])
  }

  /** The list node with identity `id`, found through its POSITION. */
  function FindNode<K, V>(nodes: seq<Node<K, V>>, id: nat): (r: Option<nat>)
    ensures r.Some? ==> r.value < |nodes| && nodes[r.value].id == id
    ensures r.None? ==> forall j :: 0 <= j < |nodes| ==> nodes[j].id != id
  {
    if |nodes| == 0 then None
    else if nodes[0].id == id then Some(0)
    else match FindNode(nodes[1..], id)
      case None => None
      case Some(i) => Some(i + 1)
  }

  /** The keys (map positions) the list nodes record. */
  function KeysOf<K, V>(nodes: seq<Node<K, V>>): set<K>
  {
    if nodes == [] then {} else {nodes[0].key} + KeysOf(nodes[1..])
  }

  lemma {:induction false} KeysOfConcat<K, V>(a: seq<Node<K, V>>, b: seq<Node<K, V>>)
    ensures KeysOf(a + b) == KeysOf(a) + KeysOf(b)
    decreases |a|
  {
    if a == [] {
      assert a + b == b;
    } else {
      calc {
        KeysOf(a + b);
        { assert (a + b)[0] == a[0] && (a + b)[1..] == a[1..] + b; }
        ({a[0].key}) + KeysOf(a[1..] + b);
        { KeysOfConcat(a[1..], b); }
        ({a[0].key}) + KeysOf(a[1..]) + KeysOf(b);
      }
    }
  }

  /** Every recorded key belongs to some node. */
  lemma {:induction false} KeysOfIndex<K, V>(nodes: seq<Node<K, V>>, k: K) returns (i: nat)
    requires k in KeysOf(nodes)
    ensures i < |nodes| && nodes[i].key == k
    decreases |nodes|
  {
    if nodes[0].key == k {
      i := 0;
    } else {
      var j := KeysOfIndex(nodes[1..], k);
      i := j + 1;
    }
  }

  /**
   * The map and the list describe the same entries: keys and node identities
   * are distinct along the list, every node's key maps to that node, the
   * map holds no other keys, and identities are below the next fresh one.
   */
  ghost predicate Linked<K, V>(index: map<K, nat>, nodes: seq<Node<K, V>>, nextId: nat)
  {
    NodesDistinct(nodes) && NodesIndexed(index, nodes) && IdsBelow(nodes, nextId) && index.Keys == KeysOf(nodes)
  }

  ghost predicate NodesDistinct<K, V>(nodes: seq<Node<K, V>>)
  {
    forall i, j :: 0 <= i < j < |nodes| ==> nodes[i].key != nodes[j].key && nodes[i].id != nodes[j].id
  }

  ghost predicate NodesIndexed<K, V>(index: map<K, nat>, nodes: seq<Node<K, V>>)
  {
    forall i :: 0 <= i < |nodes| ==> nodes[i].key in index && index[nodes[i].key] == nodes[i].id
  }

  ghost predicate IdsBelow<K, V>(nodes: seq<Node<K, V>>, nextId: nat)
  {
    forall i :: 0 <= i < |nodes| ==> nodes[i].id < nextId
  }

  lemma LinkedDistinct<K, V>(index: map<K, nat>, nodes: seq<Node<K, V>>, nextId: nat)
    requires Linked(index, nodes, nextId)
    ensures DistinctKeys(Entries(nodes))
  {}

  /** A mapped key leads, through its node's POSITION, to the entry `FindKey` finds. */
  lemma LinkedHit<K, V>(index: map<K, nat>, nodes: seq<Node<K, V>>, nextId: nat, key: K) returns (i: nat)
    requires Linked(index, nodes, nextId) && key in index
    ensures i < |nodes| && nodes[i].key == key
    ensures FindNode(nodes, index[key]) == Some(i) && FindKey(Entries(nodes), key) == Some(i)
  {
    i := KeysOfIndex(nodes, key);
    LinkedDistinct(index, nodes, nextId);
    FindKeyUnique(Entries(nodes), key, i);
  }

  /** An unmapped key has no entry. */
  lemma LinkedMiss<K, V>(index: map<K, nat>, nodes: seq<Node<K, V>>, nextId: nat, key: K)
    requires Linked(index, nodes, nextId) && key !in index
    ensures FindKey(Entries(nodes), key).None?
  {
    var s := Entries(nodes);
    forall j | 0 <= j < |s|
      ensures s[j].0 != key
    {
      assert nodes[j].key in index;
    }
  }

  lemma LinkedMoveToHead<K, V>(index: map<K, nat>, nodes: seq<Node<K, V>>, nextId: nat, i: nat)
    requires Linked(index, nodes, nextId) && i < |nodes|
    ensures Linked(index, MoveToHead(nodes, i), nextId)
    ensures Entries(MoveToHead(nodes, i)) == MoveToHead(Entries(nodes), i)
  {
    assert Linked(index, MoveToHead(nodes, i), nextId) by {
      MoveToHeadNodesDistinct(nodes, i);
      MoveToHeadIndexed(index, nodes, nextId, i);
      MoveToHeadKeys(nodes, i);
    }
    MoveToHeadEntries(nodes, i);
  }

  lemma MoveToHeadEntries<K, V>(nodes: seq<Node<K, V>>, i: nat)
    requires i < |nodes|
    ensures Entries(MoveToHead(nodes, i)) == MoveToHead(Entries(nodes), i)
  {
    var l, r := Entries(MoveToHead(nodes, i)), MoveToHead(Entries(nodes), i);
    forall j | 0 <= j < |l|
      ensures l[j] == r[j]
    {
      if 0 < j <= i {
        assert r[j] == Entries(nodes)[j - 1];
      }
    }
  }

  lemma MoveToHeadNodesDistinct<K, V>(nodes: seq<Node<K, V>>, i: nat)
    requires NodesDistinct(nodes) && i < |nodes|
    ensures NodesDistinct(MoveToHead(nodes, i))
  {
    var r := MoveToHead(nodes, i);
    forall p, q | 0 <= p < q < |r|
      ensures r[p].key != r[q].key && r[p].id != r[q].id
    {
      var p' := if p == 0 then i else if p <= i then p - 1 else p;
      var q' := if q == 0 then i else if q <= i then q - 1 else q;
      assert r[p] == nodes[p'] && r[q] == nodes[q'] && p' != q';
    }
  }

  lemma MoveToHeadIndexed<K, V>(index: map<K, nat>, nodes: seq<Node<K, V>>, nextId: nat, i: nat)
    requires NodesIndexed(index, nodes) && IdsBelow(nodes, nextId) && i < |nodes|
    ensures NodesIndexed(index, MoveToHead(nodes, i)) && IdsBelow(MoveToHead(nodes, i), nextId)
  {
    var r := MoveToHead(nodes, i);
    forall p | 0 <= p < |r|
      ensures r[p].key in index && index[r[p].key] == r[p].id && r[p].id < nextId
    {
      var p' := if p == 0 then i else if p <= i then p - 1 else p;
      assert r[p] == nodes[p'];
    }
  }

  lemma SplitAt<T>(s: seq<T>, i: nat)
    requires i <= |s|
    ensures s[..i] + s[i..] == s
  {
  }

  lemma {:induction false} MoveToHeadKeys<K, V>(nodes: seq<Node<K, V>>, i: nat)
    requires i < |nodes|
    ensures KeysOf(MoveToHead(nodes, i)) == KeysOf(nodes)
  {
    var before, head, after := nodes[..i], [nodes[i]], nodes[i + 1..];
    assert KeysOf(nodes) == KeysOf(before) + KeysOf(head) + KeysOf(after) by {
      assert nodes[i..] == head + after;
      SplitAt(nodes, i);
      KeysOfConcat(before, nodes[i..]);
      KeysOfConcat(head, after);
    }
    assert KeysOf(MoveToHead(nodes, i)) == KeysOf(head) + KeysOf(before) + KeysOf(after) by {
      assert MoveToHead(nodes, i) == head + before + after;
      KeysOfConcat(head + before, after);
      KeysOfConcat(head, before);
    }
    UnionSwap(KeysOf(before), KeysOf(head), KeysOf(after));
  }

  lemma UnionSwap<K>(b: set<K>, h: set<K>, a: set<K>)
    ensures h + b + a == b + h + a
  {
  }

  lemma LinkedSetHead<K, V>(index: map<K, nat>, nodes: seq<Node<K, V>>, nextId: nat, value: V)
    requires Linked(index, nodes, nextId) && |nodes| > 0
    ensures Linked(index, nodes[0 := nodes[0].(value := value)], nextId)
    ensures Entries(nodes[0 := nodes[0].(value := value)]) == Entries(nodes)[0 := (nodes[0].key, value)]
  {
    var r := nodes[0 := nodes[0].(value := value)];
    assert r[1..] == nodes[1..];
  }

  lemma LinkedEvict<K, V>(index: map<K, nat>, nodes: seq<Node<K, V>>, nextId: nat)
    requires Linked(index, nodes, nextId) && |nodes| > 0
    ensures Linked(index - {nodes[|nodes| - 1].key}, nodes[..|nodes| - 1], nextId)
    ensures Entries(nodes[..|nodes| - 1]) == Entries(nodes)[..|nodes| - 1]
  {
    assert Linked(index - {nodes[|nodes| - 1].key}, nodes[..|nodes| - 1], nextId) by {
      EvictKeys(nodes);
      EvictIndexed(index, nodes);
    }
    EvictEntries(nodes);
  }

  lemma EvictEntries<K, V>(nodes: seq<Node<K, V>>)
    requires |nodes| > 0
    ensures Entries(nodes[..|nodes| - 1]) == Entries(nodes)[..|nodes| - 1]
  {
    var l, r := Entries(nodes[..|nodes| - 1]), Entries(nodes)[..|nodes| - 1];
    forall j | 0 <= j < |l|
      ensures l[j] == r[j]
    {
    }
  }

  /** Dropping the tail node drops exactly its key. */
  lemma EvictKeys<K, V>(nodes: seq<Node<K, V>>)
    requires NodesDistinct(nodes) && |nodes| > 0
    ensures KeysOf(nodes[..|nodes| - 1]) == KeysOf(nodes) - {nodes[|nodes| - 1].key}
  {
    var n := |nodes| - 1;
    var r := nodes[..n];
    assert nodes == r + [nodes[n]];
    KeysOfConcat(r, [nodes[n]]);
    assert KeysOf([nodes[n]]) == {nodes[n].key};
    if nodes[n].key in KeysOf(r) {
      var j := KeysOfIndex(r, nodes[n].key);
    }
  }

  lemma EvictIndexed<K, V>(index: map<K, nat>, nodes: seq<Node<K, V>>)
    requires NodesDistinct(nodes) && NodesIndexed(index, nodes) && |nodes| > 0
    ensures NodesIndexed(index - {nodes[|nodes| - 1].key}, nodes[..|nodes| - 1])
  {
    var r := nodes[..|nodes| - 1];
    forall p | 0 <= p < |r|
      ensures r[p].key in index - {nodes[|nodes| - 1].key} && (index - {nodes[|nodes| - 1].key})[r[p].key] == r[p].id
    {
      assert r[p] == nodes[p];
    }
  }

  lemma LinkedInsert<K, V>(index: map<K, nat>, nodes: seq<Node<K, V>>, nextId: nat, key: K, value: V)
    requires Linked(index, nodes, nextId) && key !in index
    ensures Linked(index[key := nextId], [Node(nextId, key, value)] + nodes, nextId + 1)
    ensures Entries([Node(nextId, key, value)] + nodes) == [(key, value)] + Entries(nodes)
  {
    var r := [Node(nextId, key, value)] + nodes;
    assert r[1..] == nodes;
    forall p, q | 0 <= p < q < |r|
      ensures r[p].key != r[q].key && r[p].id != r[q].id
    {
      assert r[q] == nodes[q - 1];
      if p > 0 {
        assert r[p] == nodes[p - 1];
      }
    }
    forall p | 0 <= p < |r|
      ensures r[p].key in index[key := nextId] && index[key := nextId][r[p].key] == r[p].id && r[p].id < nextId + 1
    {
      if p > 0 {
        assert r[p] == nodes[p - 1];
      }
    }
  }

  /** `SetAt` on a cached key: the node moves to the head and takes the new value. */
  lemma LinkedSetAtHit<K, V>(index: map<K, nat>, nodes: seq<Node<K, V>>, nextId: nat, key: K, value: V, maxSize: nat)
    requires Linked(index, nodes, nextId) && key in index && maxSize >= 1
    ensures FindNode(nodes, index[key]).Some?
    ensures var moved := MoveToHead(nodes, FindNode(nodes, index[key]).value);
      var r := moved[0 := moved[0].(value := value)];
      Linked(index, r, nextId) && |r| == |nodes| && Entries(r) == Put(Entries(nodes), key, value, maxSize)
  {
    var i := LinkedHit(index, nodes, nextId, key);
    LinkedMoveToHead(index, nodes, nextId, i);
    LinkedSetHead(index, MoveToHead(nodes, i), nextId, value);
    PutHit(Entries(nodes), key, value, maxSize, i);
  }

  /**
   * `SetAt` on a new key, after the optional eviction has turned `nodes`
   * into `rest`: the fresh node at the head completes `Put`.
   */
  lemma LinkedSetAtMiss<K, V>(index: map<K, nat>, nodes: seq<Node<K, V>>, restIndex: map<K, nat>, rest: seq<Node<K, V>>,
                              nextId: nat, key: K, value: V, maxSize: nat)
    requires Linked(index, nodes, nextId) && key !in index && maxSize >= 1 && |nodes| <= maxSize
    requires Linked(restIndex, rest, nextId) && key !in restIndex
    requires |nodes| >= maxSize ==> Entries(rest) == Entries(nodes)[..|nodes| - 1] && |rest| == |nodes| - 1
    requires |nodes| < maxSize ==> rest == nodes
    ensures Linked(restIndex[key := nextId], [Node(nextId, key, value)] + rest, nextId + 1)
    ensures |rest| + 1 <= maxSize
    ensures Entries([Node(nextId, key, value)] + rest) == Put(Entries(nodes), key, value, maxSize)
  {
    LinkedMiss(index, nodes, nextId, key);
    LinkedInsert(restIndex, rest, nextId, key, value);
  }

  class Cache<K(==), V> {
    /** `m_maxSize`. */
    const maxSize: nat
    /** The hash map: each key to the identity of its list node. */
    var index: map<K, nat>
    /** `m_list`, most recently used first. */
    var nodes: seq<Node<K, V>>
    /** The next fresh node identity. */
    var nextId: nat

    /** The map and the list agree, and the list respects the bound. */
    ghost predicate Valid()
      reads this
    {
      |nodes| <= maxSize && Linked(index, nodes, nextId)
    }

    ghost function Contents(): seq<(K, V)>
      reads this
    {
      Entries(nodes)
    }

    constructor (maxSize: nat)
      ensures Valid() && this.maxSize == maxSize && Contents() == []
    {
      this.maxSize := maxSize;
      index := map[];
      nodes := [];
      nextId := 0;
    }

    /** `Lookup`: on a hit, yields the value and moves its entry to the front. */
    method Lookup(key: K) returns (r: Option<V>)
      requires Valid()
      modifies this
      ensures Valid()
      ensures r == Get(old(Contents()), key)
      ensures Contents() == Touch(old(Contents()), key)
    {
      if key in index {
        ghost var hit := LinkedHit(index, nodes, nextId, key);
        var i := FindNode(nodes, index[key]).value;
        LinkedMoveToHead(index, nodes, nextId, i);
        nodes := MoveToHead(nodes, i);
        r := Some(nodes[0].value);
      } else {
        LinkedMiss(index, nodes, nextId, key);
        r := None;
      }
    }

    /** `SetAt`: stores `value` for `key` as the most recently used entry, evicting the least recently used one when full. */
    method SetAt(key: K, value: V)
      requires Valid() && maxSize >= 1
      modifies this
      ensures Valid()
      ensures Contents() == Put(old(Contents()), key, value, maxSize)
    {
      if key in index {
        LinkedSetAtHit(index, nodes, nextId, key, value, maxSize);
        var i := FindNode(nodes, index[key]).value;
        nodes := MoveToHead(nodes, i);
        nodes := nodes[0 := nodes[0].(value := value)];
      } else {
        var list, positions := nodes, index;
        if |list| >= maxSize {
          LinkedEvict(positions, list, nextId);
          positions := positions - {list[|list| - 1].key};
          list := list[..|list| - 1];
        }
        LinkedSetAtMiss(index, nodes, positions, list, nextId, key, value, maxSize);
        nodes := [Node(nextId, key, value)] + list;
        index := positions[key := nextId];
        nextId := nextId + 1;
      }
    }

    /** `Clear`: empties both the list and the map. */
    method Clear()
      requires Valid()
      modifies this
      ensures Valid() && Contents() == []
    {
      nodes := [];
      index := map[];
    }
  }
}

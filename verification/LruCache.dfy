/** The LRU cache: a doubly linked list threaded through the nodes of a map. */
module LruCache {
  import opened Numbers
  import opened Wrappers
  import opened Recency

  class CacheNode<V> {
    const key: string
    var value: V
    var lastAccess: int
    var prev: CacheNode?<V>
    var next: CacheNode?<V>

    constructor (key: string, value: V, now: int)
      ensures this.key == key && this.value == value && lastAccess == now
      ensures prev == null && next == null
    {
      this.key, this.value, lastAccess := key, value, now;
      prev, next := null, null;
    }
  }

  // ---------- Lists without repetitions ----------

  ghost predicate NoRepeats<T>(s: seq<T>) {
    s == [] || (s[0] !in s[1..] && NoRepeats(s[1..]))
  }

  /** A list with one element taken out. */
  ghost function Cut<T>(s: seq<T>, i: nat): seq<T>
    requires i < |s|
  {
    s[..i] + s[i + 1..]
  }

  lemma {:induction false} RepeatsNowhere<T>(s: seq<T>, i: nat, j: nat)
    requires NoRepeats(s) && i < j < |s|
    ensures s[i] != s[j]
  {
    if i == 0 {
      assert s[1..][j - 1] == s[j];
    } else {
      RepeatsNowhere(s[1..], i - 1, j - 1);
    }
  }

  lemma {:induction false} CutMembers<T>(s: seq<T>, i: nat)
    requires NoRepeats(s) && i < |s|
    ensures NoRepeats(Cut(s, i))
    ensures forall x :: x in Cut(s, i) <==> x in s && x != s[i]
  {
    if i == 0 {
      assert Cut(s, i) == s[1..];
    } else {
      CutMembers(s[1..], i - 1);
      assert Cut(s, i) == [s[0]] + Cut(s[1..], i - 1);
      assert s[i] == s[1..][i - 1];
    }
  }

  // ---------- What ties the map, the list and the contents together ----------

  /** The map's nodes are exactly the list's nodes, each under its own key. */
  ghost predicate Indexes<V>(items: map<string, CacheNode<V>>, nodes: seq<CacheNode<V>>) {
    && |items| == |nodes|
    && NoRepeats(nodes)
    && (forall n | n in nodes :: n.key in items && items[n.key] == n)
    && (forall k | k in items :: items[k] in nodes && items[k].key == k)
  }

  lemma IndexesCut<V>(items: map<string, CacheNode<V>>, nodes: seq<CacheNode<V>>, i: nat)
    requires Indexes(items, nodes) && i < |nodes|
    ensures Indexes(items - {nodes[i].key}, Cut(nodes, i))
  {
    CutMembers(nodes, i);
    var key := nodes[i].key;
    assert nodes[i] in nodes;
    assert (items - {key}).Keys == items.Keys - {key};
  }

  lemma IndexesCons<V>(items: map<string, CacheNode<V>>, nodes: seq<CacheNode<V>>, node: CacheNode<V>)
    requires Indexes(items, nodes) && node.key !in items
    ensures node !in nodes && Indexes(items[node.key := node], [node] + nodes)
  {
  }

  lemma IndexesToHead<V>(items: map<string, CacheNode<V>>, nodes: seq<CacheNode<V>>, i: nat)
    requires Indexes(items, nodes) && i < |nodes|
    ensures Indexes(items, [nodes[i]] + Cut(nodes, i))
  {
    CutMembers(nodes, i);
    var moved := [nodes[i]] + Cut(nodes, i);
    assert forall n :: n in moved <==> n in nodes;
  }

  /** Node i points to its neighbours in the list. */
  ghost predicate LinkAt<V>(nodes: seq<CacheNode<V>>, i: nat)
    requires i < |nodes|
    reads nodes[i..i + 1]`prev, nodes[i..i + 1]`next
  {
    && nodes[i].prev == (if i == 0 then null else nodes[i - 1])
    && nodes[i].next == (if i == |nodes| - 1 then null else nodes[i + 1])
  }

  ghost predicate HoldAt<V>(contents: seq<Entry<V>>, nodes: seq<CacheNode<V>>, i: nat)
    requires i < |nodes| == |contents|
    reads nodes[i..i + 1]`value, nodes[i..i + 1]`lastAccess
  {
    contents[i] == Entry(nodes[i].key, nodes[i].value, nodes[i].lastAccess)
  }

  class ReactiveLruCache<V> {
    const capacity: int
    var items: map<string, CacheNode<V>>
    var head: CacheNode?<V>
    var tail: CacheNode?<V>
    ghost var nodes: seq<CacheNode<V>>    // the list from head to tail
    ghost var Contents: seq<Entry<V>>     // what it holds

    /** Head, tail, prev and next thread exactly the nodes, and prev and next are mutual inverses. */
    ghost predicate Linked()
      reads this`head, this`tail, this`nodes, nodes`prev, nodes`next
    {
      && NoRepeats(nodes)
      && head == (if nodes == [] then null else nodes[0])
      && tail == (if nodes == [] then null else nodes[|nodes| - 1])
      && forall i | 0 <= i < |nodes| :: LinkAt(nodes, i)
    }

    ghost predicate Holds()
      reads this`nodes, this`Contents, nodes`value, nodes`lastAccess
    {
      && |Contents| == |nodes|
      && forall i | 0 <= i < |nodes| :: HoldAt(Contents, nodes, i)
    }

    ghost predicate Valid()
      reads this, nodes
    {
      Linked() && Indexes(items, nodes) && Holds() && |nodes| <= Max(capacity, 0)
    }

    ghost function Footprint(): set<CacheNode<V>>
      reads this`nodes
    {
      set n | n in nodes
    }

    lemma ContentsWellFormed()
      requires Valid()
      ensures Distinct(Contents) && |Contents| <= Max(capacity, 0)
    {
      forall i, j | 0 <= i < j < |Contents| ensures Contents[i].key != Contents[j].key {
        RepeatsNowhere(nodes, i, j);
        assert HoldAt(Contents, nodes, i) && HoldAt(Contents, nodes, j);
        assert nodes[i] in nodes && nodes[j] in nodes;
      }
    }

    constructor (capacity: int)
      ensures Valid() && this.capacity == capacity
      ensures nodes == [] && Contents == []
    {
      this.capacity := capacity;
      items := map[];
      head, tail, nodes, Contents := null, null, [], [];
    }

    method AddToHead(node: CacheNode<V>)
      requires Linked() && node !in nodes
      modifies this`head, this`tail, this`nodes, node`prev, node`next, nodes`prev
      ensures Linked() && nodes == [node] + old(nodes)
    {
      node.next := head;
      node.prev := null;
      if head != null {
        head.prev := node;
      }
      head := node;
      if tail == null {
        tail := node;
      }
      nodes := [node] + nodes;
      forall i | 0 <= i < |nodes| ensures LinkAt(nodes, i) {
        if i > 0 {
          assert old(LinkAt(nodes, i - 1));
          if i > 1 { RepeatsNowhere(old(nodes), 0, i - 1); }
        }
      }
    }

    method RemoveNode(node: CacheNode<V>, ghost i: nat)
      requires Linked() && i < |nodes| && nodes[i] == node
      modifies this`head, this`tail, this`nodes, nodes`prev, nodes`next
      ensures Linked() && nodes == Cut(old(nodes), i)
    {
      assert LinkAt(nodes, i);
      CutMembers(nodes, i);
      if node.prev != null {
        node.prev.next := node.next;
      } else {
        head := node.next;
      }
      if node.next != null {
        node.next.prev := node.prev;
      } else {
        tail := node.prev;
      }
      nodes := Cut(nodes, i);
      forall j | 0 <= j < |nodes| ensures LinkAt(nodes, j) {
        var k := if j < i then j else j + 1;
        assert old(LinkAt(nodes, k)) && nodes[j] == old(nodes)[k];
        if k < i - 1 { RepeatsNowhere(old(nodes), k, i - 1); RepeatsNowhere(old(nodes), k, i); }
        if i + 1 < k { RepeatsNowhere(old(nodes), i + 1, k); RepeatsNowhere(old(nodes), i, k); }
        if 0 < i < |old(nodes)| - 1 { RepeatsNowhere(old(nodes), i - 1, i + 1); }
        if 0 < i < k { RepeatsNowhere(old(nodes), i - 1, k); }
        if k < i < |old(nodes)| - 1 { RepeatsNowhere(old(nodes), k, i + 1); }
      }
    }

    method MoveToHead(node: CacheNode<V>, ghost i: nat)
      requires Linked() && i < |nodes| && nodes[i] == node
      modifies this`head, this`tail, this`nodes, nodes`prev, nodes`next
      ensures Linked() && nodes == [node] + Cut(old(nodes), i)
    {
      CutMembers(nodes, i);
      RemoveNode(node, i);
      AddToHead(node);
    }

    /** Where a key of the map sits in the list. */
    lemma Locate(key: string) returns (i: nat)
      requires Valid()
      ensures key in items ==>
                && i < |nodes| && nodes[i] == items[key]
                && Lookup(Contents, key) == Some(items[key].value)
                && Without(Contents, key) == Cut(Contents, i)
      ensures key !in items ==> Lookup(Contents, key) == None && Without(Contents, key) == Contents
    {
      ContentsWellFormed();
      i := 0;
      if key in items {
        i :| i < |nodes| && nodes[i] == items[key];
        assert HoldAt(Contents, nodes, i);
        LookupAt(Contents, i);
      } else {
        forall j | 0 <= j < |Contents| ensures Contents[j].key != key {
          assert HoldAt(Contents, nodes, j) && nodes[j] in nodes;
        }
        LookupMeansHasKey(Contents, key);
        WithoutAbsent(Contents, key);
      }
    }

    /** Cutting the same position out of the list and the contents keeps them together. */
    twostate lemma HoldsCut(i: nat)
      requires old(Holds()) && i < |old(nodes)|
      requires nodes == Cut(old(nodes), i) && Contents == Cut(old(Contents), i)
      requires forall n | n in nodes :: n.value == old(n.value) && n.lastAccess == old(n.lastAccess)
      ensures Holds()
    {
      forall j | 0 <= j < |nodes| ensures HoldAt(Contents, nodes, j) {
        assert old(HoldAt(Contents, nodes, if j < i then j else j + 1));
        assert nodes[j] in nodes;
      }
    }

    /** Moving the same position to the front of both keeps them together, with a new access time or not. */
    twostate lemma HoldsToHead(i: nat)
      requires old(Holds()) && i < |old(nodes)| && NoRepeats(old(nodes))
      requires nodes == [old(nodes)[i]] + Cut(old(nodes), i)
      requires var n := old(nodes)[i]; Contents == [Entry(n.key, n.value, n.lastAccess)] + Cut(old(Contents), i)
      requires forall n | n in old(nodes) :: n.value == old(n.value) && (n != old(nodes)[i] ==> n.lastAccess == old(n.lastAccess))
      ensures Holds()
    {
      CutMembers(old(nodes), i);
      forall j | 0 <= j < |nodes| ensures HoldAt(Contents, nodes, j) {
        if j > 0 {
          var k := if j - 1 < i then j - 1 else j;
          assert old(HoldAt(Contents, nodes, k)) && nodes[j] == old(nodes)[k];
          assert nodes[j] in Cut(old(nodes), i);
        }
      }
    }

    /** Putting the node of an entry in front of both keeps them together. */
    twostate lemma HoldsCons(new node: CacheNode<V>)
      requires old(Holds())
      requires nodes == [node] + old(nodes)
      requires Contents == [Entry(node.key, node.value, node.lastAccess)] + old(Contents)
      requires forall n | n in old(nodes) :: n.value == old(n.value) && n.lastAccess == old(n.lastAccess)
      ensures Holds()
    {
      forall j | 0 <= j < |nodes| ensures HoldAt(Contents, nodes, j) {
        if j > 0 {
          assert old(HoldAt(Contents, nodes, j - 1));
          assert nodes[j] in old(nodes);
        }
      }
    }

    /** Unlinks a node and drops its key from the map. */
    method Unlink(node: CacheNode<V>, ghost i: nat)
      requires Valid() && i < |nodes| && nodes[i] == node
      modifies this`head, this`tail, this`nodes, this`items, this`Contents, nodes`prev, nodes`next
      ensures Valid() && nodes == Cut(old(nodes), i) && forall n | n in nodes :: n in old(nodes)
      ensures Contents == Cut(old(Contents), i)
      ensures items == old(items) - {node.key}
    {
      hide Linked;
      IndexesCut(items, nodes, i);
      RemoveNode(node, i);
      items := items - {node.key};
      Contents := Cut(Contents, i);
      HoldsCut(i);
    }

    /** Moves the node of a key to the head with its new access time. */
    method Refresh(node: CacheNode<V>, ghost i: nat, now: int)
      requires Valid() && i < |nodes| && nodes[i] == node
      modifies this`head, this`tail, this`nodes, this`Contents, nodes`prev, nodes`next, node`lastAccess
      ensures Valid() && forall n | n in nodes :: n in old(nodes)
      ensures Contents == [Entry(node.key, node.value, now)] + Cut(old(Contents), i)
    {
      hide Linked;
      IndexesToHead(items, nodes, i);
      CutMembers(nodes, i);
      node.lastAccess := now;
      MoveToHead(node, i);
      Contents := [Entry(node.key, node.value, now)] + Cut(Contents, i);
      HoldsToHead(i);
    }

    /** Sets or refreshes an entry; an inserting Set on a full cache pushes out the last key. */
    method Set(key: string, value: V, now: int) returns (evictedKey: string)
      requires Valid() && capacity >= 1
      modifies this`items, this`head, this`tail, this`nodes, this`Contents, nodes
      ensures Valid() && forall n | n in nodes :: n in old(nodes) || fresh(n)
      ensures Contents == SetKey(old(Contents), capacity, key, value, now)
      ensures evictedKey == Evicted(old(Contents), capacity, key)
    {
      if key in items {
        Renew(key, value, now);
        return "";
      }
      evictedKey := MakeRoom(key);
      Insert(key, value, now);
    }

    method Renew(key: string, value: V, now: int)
      requires Valid() && key in items
      modifies this`head, this`tail, this`nodes, this`Contents, nodes
      ensures Valid() && forall n | n in nodes :: n in old(nodes)
      ensures Contents == SetKey(old(Contents), capacity, key, value, now)
      ensures Evicted(old(Contents), capacity, key) == ""
    {
      ghost var i := Locate(key);
      var node := items[key];
      Overwrite(node, i, value);
      Refresh(node, i, now);
    }

    /** Unlinks the tail when the cache is full. */
    method MakeRoom(key: string) returns (evictedKey: string)
      requires Valid() && capacity >= 1 && key !in items
      modifies this`items, this`head, this`tail, this`nodes, this`Contents, nodes`prev, nodes`next
      ensures Valid() && key !in items && |items| < capacity
      ensures nodes <= old(nodes)
      ensures Lookup(old(Contents), key) == None
      ensures Contents == if |old(Contents)| >= capacity then Front(old(Contents)) else old(Contents)
      ensures evictedKey == Evicted(old(Contents), capacity, key)
    {
      ghost var i := Locate(key);
      if |items| >= capacity {
        assert HoldAt(Contents, nodes, |nodes| - 1);
        evictedKey := tail.key;
        Unlink(tail, |nodes| - 1);
      } else {
        evictedKey := "";
      }
    }

    /** Replaces the value that a node holds. */
    method Overwrite(node: CacheNode<V>, ghost i: nat, value: V)
      requires Valid() && i < |nodes| && nodes[i] == node
      modifies this`Contents, node`value
      ensures Valid()
      ensures node.value == value
      ensures Contents == old(Contents)[i := Entry(node.key, value, node.lastAccess)]
    {
      node.value := value;
      Contents := Contents[i := Entry(node.key, value, node.lastAccess)];
      forall j | 0 <= j < |nodes| ensures HoldAt(Contents, nodes, j) {
        assert old(HoldAt(Contents, nodes, j));
        if j < i { RepeatsNowhere(nodes, j, i); }
        if i < j { RepeatsNowhere(nodes, i, j); }
      }
    }

    /** Puts a new key at the head of a cache that has room for it. */
    method Insert(key: string, value: V, now: int)
      requires Valid() && key !in items && |items| < capacity
      modifies this`items, this`head, this`tail, this`nodes, this`Contents, nodes`prev
      ensures Valid() && forall n | n in nodes :: n in old(nodes) || fresh(n)
      ensures Contents == [Entry(key, value, now)] + old(Contents)
    {
      var newNode := new CacheNode(key, value, now);
      Enlist(newNode);
    }

    method Enlist(newNode: CacheNode<V>)
      requires Valid() && newNode.key !in items && |items| < capacity
      modifies this`items, this`head, this`tail, this`nodes, this`Contents, nodes`prev, newNode`prev, newNode`next
      ensures Valid() && nodes == [newNode] + old(nodes)
      ensures Contents == [Entry(newNode.key, newNode.value, newNode.lastAccess)] + old(Contents)
    {
      hide Linked;
      IndexesCons(items, nodes, newNode);
      AddToHead(newNode);
      items := items[newNode.key := newNode];
      Contents := [Entry(newNode.key, newNode.value, newNode.lastAccess)] + Contents;
      HoldsCons(newNode);
    }

    method Get(key: string, now: int) returns (found: Option<V>)
      requires Valid()
      modifies this`head, this`tail, this`nodes, this`Contents, nodes
      ensures Valid() && forall n | n in nodes :: n in old(nodes)
      ensures found == Lookup(old(Contents), key)
      ensures Contents == GetKey(old(Contents), key, now)
    {
      ghost var i := Locate(key);
      if key !in items {
        return None;
      }
      var node := items[key];
      found := Some(node.value);
      Refresh(node, i, now);
    }

    method Remove(key: string)
      requires Valid()
      modifies this`items, this`head, this`tail, this`nodes, this`Contents, nodes
      ensures Valid() && forall n | n in nodes :: n in old(nodes)
      ensures Contents == Without(old(Contents), key)
    {
      ghost var i := Locate(key);
      if key in items {
        Unlink(items[key], i);
      }
    }

    /** The key and value of the oldest entry. */
    method PeekTail() returns (oldest: Option<(string, V)>)
      requires Valid()
      ensures oldest == if Contents == [] then None
                        else var last := Contents[|Contents| - 1]; Some((last.key, last.value))
    {
      if tail == null {
        return None;
      }
      assert HoldAt(Contents, nodes, |nodes| - 1);
      return Some((tail.key, tail.value));
    }

    method RemoveTail() returns (evictedKey: Option<string>)
      requires Valid()
      modifies this`items, this`head, this`tail, this`nodes, this`Contents, nodes
      ensures Valid() && forall n | n in nodes :: n in old(nodes)
      ensures var before := old(Contents);
              evictedKey == if before == [] then None else Some(before[|before| - 1].key)
      ensures Contents == Front(old(Contents))
    {
      if tail == null {
        return None;
      }
      evictedKey := Some(tail.key);
      assert HoldAt(Contents, nodes, |nodes| - 1);
      Unlink(tail, |nodes| - 1);
    }
  }
}

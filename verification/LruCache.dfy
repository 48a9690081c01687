/** The hand-written LRU cache of the chat bots: a doubly linked list threaded through a node map,
    beside a map of values. The same code stands in the Slack, Discord and voice handlers.
    Every method is one critical section of the source, and is shown to do on the linked structure
    what the section of the same kind does on the abstract cache of `Recency`. */
module LruCache {
  import opened Common
  import opened Recency

  ghost function KeysOf(ns: seq<LruNode>): (ks: seq<Key>)
    ensures |ks| == |ns| && forall i :: 0 <= i < |ns| ==> ks[i] == ns[i].key
  {
    seq(|ns|, i requires 0 <= i < |ns| => ns[i].key)
  }

  ghost predicate NoRepeats(ns: seq<LruNode>) {
    forall i, j :: 0 <= i < j < |ns| ==> ns[i] != ns[j]
  }

  /** The map holds exactly the nodes of the list, each under its own key, and no key twice. */
  ghost predicate Maps(nodes: map<Key, LruNode>, ns: seq<LruNode>) {
    && Distinct(KeysOf(ns))
    && (forall i :: 0 <= i < |ns| ==> ns[i].key in nodes && nodes[ns[i].key] == ns[i])
    && (forall k :: k in nodes <==> k in KeysOf(ns))
  }

  /** `ns` without its node at i. */
  ghost function Except(ns: seq<LruNode>, i: nat): (rest: seq<LruNode>)
    requires i < |ns|
    ensures forall n :: n in rest ==> n in ns
  {
    ns[..i] + ns[i + 1..]
  }

  lemma PlaceOf(nodes: map<Key, LruNode>, ns: seq<LruNode>, key: Key) returns (i: nat)
    requires Maps(nodes, ns) && key in nodes
    ensures i < |ns| && ns[i] == nodes[key] && ns[i].key == key
  {
    i :| 0 <= i < |ns| && KeysOf(ns)[i] == key;
  }

  lemma MapsAbsent(nodes: map<Key, LruNode>, ns: seq<LruNode>, key: Key)
    requires Maps(nodes, ns) && key !in nodes
    ensures Without(KeysOf(ns), key) == KeysOf(ns)
  {
    WithoutAbsent(KeysOf(ns), key);
  }

  lemma KeysExcept(ns: seq<LruNode>, i: nat)
    requires i < |ns| && Distinct(KeysOf(ns))
    ensures KeysOf(Except(ns, i)) == Without(KeysOf(ns), ns[i].key)
    ensures Distinct(KeysOf(Except(ns, i)))
    ensures forall k :: k in KeysOf(Except(ns, i)) <==> k in KeysOf(ns) && k != ns[i].key
  {
    var ks, rest := KeysOf(ns), Except(ns, i);
    WithoutAt(ks, i);
    assert KeysOf(rest) == ks[..i] + ks[i + 1..];
    OnlyKeepsOrder(ks, KeySet(ks) - {ks[i]});
  }

  lemma MapsHas(nodes: map<Key, LruNode>, ns: seq<LruNode>, i: nat)
    requires Maps(nodes, ns) && i < |ns|
    ensures ns[i].key in nodes && nodes[ns[i].key] == ns[i]
  {
  }

  lemma MapsRemove(nodes: map<Key, LruNode>, ns: seq<LruNode>, i: nat)
    requires Maps(nodes, ns) && i < |ns|
    ensures KeysOf(Except(ns, i)) == Without(KeysOf(ns), ns[i].key)
    ensures Maps(nodes - {ns[i].key}, Except(ns, i))
    ensures ns[i] !in Except(ns, i)
  {
    hide Without, Distinct, KeysOf;
    var rest := Except(ns, i);
    KeysExcept(ns, i);
    forall j | 0 <= j < |rest| ensures rest[j].key != ns[i].key && rest[j].key in nodes && nodes[rest[j].key] == rest[j] {
      assert KeysOf(rest)[j] == rest[j].key;
      assert rest[j] == ns[if j < i then j else j + 1];
    }
  }

  lemma KeysAdd(ns: seq<LruNode>, node: LruNode)
    requires Distinct(KeysOf(ns)) && node.key !in KeysOf(ns)
    ensures KeysOf([node] + ns) == [node.key] + KeysOf(ns) == Front(KeysOf(ns), node.key)
    ensures Distinct(KeysOf([node] + ns))
  {
    hide Without;
    WithoutAbsent(KeysOf(ns), node.key);
    assert KeysOf([node] + ns) == [node.key] + KeysOf(ns);
  }

  lemma MapsAdd(nodes: map<Key, LruNode>, ns: seq<LruNode>, node: LruNode)
    requires Maps(nodes, ns) && node.key !in nodes
    ensures Maps(nodes[node.key := node], [node] + ns)
    ensures KeysOf([node] + ns) == Front(KeysOf(ns), node.key)
    ensures node !in ns
  {
    hide Front, KeysOf, Distinct;
    KeysAdd(ns, node);
    var longer, more := [node] + ns, nodes[node.key := node];
    forall j | 0 <= j < |longer| ensures longer[j].key in more && more[longer[j].key] == longer[j] {
      if j > 0 {
        assert longer[j] == ns[j - 1] && KeysOf(ns)[j - 1] != node.key;
      }
    }
  }

  lemma MapsFront(nodes: map<Key, LruNode>, ns: seq<LruNode>, i: nat)
    requires Maps(nodes, ns) && i < |ns|
    ensures Maps(nodes, [ns[i]] + Except(ns, i))
    ensures KeysOf([ns[i]] + Except(ns, i)) == Front(KeysOf(ns), ns[i].key)
    ensures ns[i] !in Except(ns, i)
    ensures i == 0 ==> [ns[i]] + Except(ns, i) == ns
  {
    hide Maps, KeysOf, Without;
    var node := ns[i];
    MapsHas(nodes, ns, i);
    MapsRemove(nodes, ns, i);
    MapsAdd(nodes - {node.key}, Except(ns, i), node);
    assert (nodes - {node.key})[node.key := node] == nodes;
    MapsAbsent(nodes - {node.key}, Except(ns, i), node.key);
  }

  class LruNode {
    const key: Key
    var prev: LruNode?
    var next: LruNode?

    constructor (key: Key)
      ensures this.key == key && prev == null && next == null
    {
      this.key := key;
      prev, next := null, null;
    }
  }

  class WorkspaceCache<V> {
    const maxEntries: nat
    var cache: map<Key, Entry<V>>
    var head: LruNode?
    var tail: LruNode?
    var nodes: map<Key, LruNode>
    /** The list from front to back, and every node that was ever in it. */
    ghost var list: seq<LruNode>
    ghost var Repr: set<LruNode>

    /** Forward links, backward links and ends all describe `list`. */
    ghost predicate Linked()
      reads this`head, this`tail, this`list, this`Repr, Repr
    {
      && NoRepeats(list) && (forall i :: 0 <= i < |list| ==> list[i] in Repr)
      && head == (if list == [] then null else list[0])
      && tail == (if list == [] then null else list[|list| - 1])
      && (forall i {:trigger list[i].prev} :: 0 <= i < |list| ==> list[i].prev == (if i == 0 then null else list[i - 1]))
      && (forall i {:trigger list[i].next} :: 0 <= i < |list| ==> list[i].next == (if i == |list| - 1 then null else list[i + 1]))
    }

    ghost predicate ListValid()
      reads this`head, this`tail, this`list, this`nodes, this`Repr, Repr
    {
      Linked() && Maps(nodes, list)
    }

    ghost function Contents(): Cache<V>
      reads this`list, this`cache
    {
      Cache(KeysOf(list), cache)
    }

    ghost predicate Valid()
      reads this, Repr
    {
      ListValid() && cache.Keys == nodes.Keys && maxEntries > 0
    }

    lemma KeysInStep()
      requires ListValid()
      ensures cache.Keys == nodes.Keys <==> InStep(Contents())
      ensures forall k :: k in nodes <==> k in KeysOf(list)
    {
    }

    constructor (maxEntries: nat)
      requires maxEntries > 0
      ensures Valid() && fresh(Repr) && Contents() == Cache([], map[]) && this.maxEntries == maxEntries
    {
      this.maxEntries := maxEntries;
      cache, nodes := map[], map[];
      head, tail := null, null;
      list, Repr := [], {};
    }

    /** Takes the node out of the list; its own links are left as they are. */
    method Unlink(node: LruNode, ghost i: nat)
      requires Linked() && i < |list| && list[i] == node
      modifies this`head, this`tail, this`list, Repr
      ensures Linked() && list == Except(old(list), i)
    {
      ghost var before := list;
      assert node.prev == if i == 0 then null else list[i - 1];
      assert node.next == if i == |list| - 1 then null else list[i + 1];
      if node.prev != null {
        node.prev.next := node.next;
      }
      if node.next != null {
        node.next.prev := node.prev;
      }
      if node == head {
        head := node.next;
      }
      if node == tail {
        tail := node.prev;
      }
      list := Except(before, i);
    }

    method PushFront(node: LruNode)
      requires Linked() && node !in list
      modifies this`head, this`tail, this`list, this`Repr, Repr, node
      ensures Linked() && list == [node] + old(list) && Repr == old(Repr) + {node}
    {
      node.prev := null;
      node.next := head;
      if head == null {
        head := node;
        tail := node;
      } else {
        head.prev := node;
        head := node;
      }
      list, Repr := [node] + list, Repr + {node};
    }

    lemma EndsOf()
      requires Linked()
      ensures head == null <==> list == []
      ensures tail == null <==> list == []
      ensures list != [] ==> head == list[0] && tail == list[|list| - 1]
      ensures forall i :: 0 <= i < |list| && list[i] == head ==> i == 0
      ensures forall i :: 0 <= i < |list| ==> list[i] in Repr
    {
    }

    method MoveLRUToFront(key: Key)
      requires ListValid()
      modifies this`head, this`tail, this`list, this`Repr, Repr
      ensures ListValid() && Repr == old(Repr)
      ensures KeysOf(list) == if key in nodes then Front(old(KeysOf(list)), key) else old(KeysOf(list))
    {
      hide Front, KeysOf, Linked, Maps, Except;
      if key !in nodes {
        return;
      }
      var node := nodes[key];
      ghost var i := PlaceOf(nodes, list, key);
      MapsFront(nodes, list, i);
      EndsOf();
      if node == head {
        return;
      }
      Unlink(node, i);
      PushFront(node);
    }

    method AddLRUNode(key: Key)
      requires ListValid()
      modifies this`head, this`tail, this`nodes, this`list, this`Repr, Repr
      ensures ListValid()
      ensures KeysOf(list) == Front(old(KeysOf(list)), key)
      ensures nodes.Keys == old(nodes.Keys) + {key}
      ensures fresh(Repr - old(Repr))
    {
      hide Front, KeysOf, Linked, Maps;
      if key in nodes {
        MoveLRUToFront(key);
        return;
      }
      var node := new LruNode(key);
      MapsAdd(nodes, list, node);
      nodes := nodes[key := node];
      PushFront(node);
    }

    method RemoveLRUNode(key: Key)
      requires ListValid()
      modifies this`head, this`tail, this`nodes, this`list, Repr
      ensures ListValid()
      ensures KeysOf(list) == Without(old(KeysOf(list)), key)
      ensures nodes.Keys == old(nodes.Keys) - {key}
    {
      hide Without, KeysOf, Linked, Maps, Except;
      if key !in nodes {
        MapsAbsent(nodes, list, key);
        return;
      }
      var node := nodes[key];
      ghost var i := PlaceOf(nodes, list, key);
      MapsRemove(nodes, list, i);
      Unlink(node, i);
      nodes := nodes - {key};
    }

    // ----- The critical sections

    /** A lookup that found a live entry moves its key to the front, if it is still there. */
    method HitSection(key: Key)
      requires Valid()
      modifies this`head, this`tail, this`list, this`Repr, Repr
      ensures Valid() && Contents() == Run1(old(Contents()), Hit(key), maxEntries) && Repr == old(Repr)
    {
      hide Front, KeysOf, Linked, Maps;
      KeysInStep();
      MoveLRUToFront(key);
    }

    /** After a failed check, or when it is swept out, a key is forgotten. */
    method ForgetSection(key: Key)
      requires Valid()
      modifies this`cache, this`head, this`tail, this`nodes, this`list, Repr
      ensures Valid() && Contents() == Run1(old(Contents()), Forget(key), maxEntries)
    {
      hide Without, KeysOf, Linked, Maps;
      cache := cache - {key};
      RemoveLRUNode(key);
    }

    method EvictLRU()
      requires Valid()
      modifies this`cache, this`head, this`tail, this`nodes, this`list, Repr
      ensures Valid() && Contents() == Evict(old(Contents()))
    {
      hide Drop, Linked, Maps;
      EndsOf();
      if tail == null {
        return;
      }
      var key := tail.key;
      assert KeysOf(list)[|list| - 1] == key;
      ForgetSection(key);
    }

    method PutEntry(key: Key, entry: Entry<V>)
      requires Valid()
      modifies this`cache, this`head, this`tail, this`nodes, this`list, this`Repr, Repr
      ensures Valid() && Contents() == Put(old(Contents()), key, entry)
      ensures fresh(Repr - old(Repr))
    {
      hide Front, KeysOf, Linked, Maps;
      cache := cache[key := entry];
      AddLRUNode(key);
    }

    /** After a successful check the answer is stored, unless another goroutine stored one that is
        still live; the voice handler stores without looking again. */
    method InsertSection(key: Key, entry: Entry<V>, now: int, recheck: bool)
      requires Valid()
      modifies this`cache, this`head, this`tail, this`nodes, this`list, this`Repr, Repr
      ensures Valid() && Contents() == Run1(old(Contents()), Insert(key, entry, now, recheck), maxEntries)
      ensures fresh(Repr - old(Repr))
    {
      hide KeysOf, ListValid, Put, Evict, Run1;
      InsertCases(Contents(), key, entry, now, recheck, maxEntries);
      if recheck && key in cache {
        if now < cache[key].expiresAt {
          HitSection(key);
          return;
        }
      }
      if |cache| >= maxEntries {
        EvictLRU();
      }
      PutEntry(key, entry);
    }

    /** The periodic clean-up: expired entries go, in whatever order the map yields them, and then,
        where the source says so, the least recently used ones until the rest is within bounds. */
    method SweepSection(now: int, enforceMax: bool)
      requires Valid()
      modifies this`cache, this`head, this`tail, this`nodes, this`list, Repr
      ensures Valid() && Contents() == Run1(old(Contents()), Sweep(now, enforceMax), maxEntries)
    {
      hide KeysOf, ListValid, Trim, Restrict;
      SweepExpired(now);
      if enforceMax {
        EnforceMax();
      }
    }

    method SweepExpired(now: int)
      requires Valid()
      modifies this`cache, this`head, this`tail, this`nodes, this`list, Repr
      ensures Valid() && Contents() == Restrict(old(Contents()), Fresh(old(Contents()), now))
    {
      hide KeysOf, ListValid, InStep, Drop, Fresh, Restrict, MidSweep;
      KeysInStep();
      ghost var before := Contents();
      SweepEnds(before, now);
      var pending := cache.Keys;
      while pending != {}
        invariant Valid() && Contents() == MidSweep(before, now, pending)
        invariant pending <= before.entries.Keys
      {
        var key :| key in pending;
        SweepStep(before, now, pending, key);
        if now > cache[key].expiresAt {
          ForgetSection(key);
        }
        pending := pending - {key};
      }
    }

    method EnforceMax()
      requires Valid()
      modifies this`cache, this`head, this`tail, this`nodes, this`list, Repr
      ensures Valid() && Contents() == Trim(old(Contents()), maxEntries)
    {
      hide KeysOf, ListValid, Trim, Evict;
      while |cache| > maxEntries
        invariant Valid() && Trim(Contents(), maxEntries) == Trim(old(Contents()), maxEntries)
        decreases |cache|
      {
        KeysInStep();
        SizeInStep(Contents());
        TrimEvict(Contents(), maxEntries);
        EvictDropsLast(Contents());
        SizeInStep(Evict(Contents()));
        EvictLRU();
      }
      KeysInStep();
      SizeInStep(Contents());
      TrimFits(Contents(), maxEntries);
    }
  }
}

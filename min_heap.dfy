/** The priority queue of the Fibonacci scheme, modelled by what the engine
    relies on rather than by its consolidation and cutting: a finite map from
    node handles to vertex numbers and keys. */
module MinHeap {
  import opened Wrappers
  import opened ShortestPaths

  /** What the heap stores per node: the vertex and its key. */
  datatype Entry = Entry(nodeNumber: int, key: Dist)

  /** A node as the heap hands it out: its handle, vertex and key. */
  datatype Node = Node(handle: nat, nodeNumber: int, key: Dist)

  /** `h` holds a key no larger than any other key in `entries`. */
  ghost predicate IsMin(entries: map<nat, Entry>, h: nat) {
    h in entries && forall g :: g in entries ==> AtMost(entries[h].key, entries[g].key)
  }

  class FibonacciHeap {
    var entries: map<nat, Entry>
    /** Every handle handed out so far is below this one. */
    var nextHandle: nat

    ghost predicate Valid()
      reads this
    {
      forall h :: h in entries ==> h < nextHandle
    }

    constructor ()
      ensures entries == map[] && Valid()
    {
      entries := map[];
      nextHandle := 0;
    }

    /** Adds a node under a handle no node of the heap has. */
    method Insert(nodeNumber: int, key: Dist) returns (node: Node)
      requires Valid()
      modifies this
      ensures Valid()
      ensures node.handle !in old(entries) && node.nodeNumber == nodeNumber && node.key == key
      ensures entries == old(entries)[node.handle := Entry(nodeNumber, key)]
    {
      node := Node(nextHandle, nodeNumber, key);
      entries := entries[nextHandle := Entry(nodeNumber, key)];
      nextHandle := nextHandle + 1;
    }

    /** A node with the least key, or None on an empty heap. */
    method ReturnMin() returns (min: Option<Node>)
      ensures min.None? <==> entries == map[]
      ensures min.Some? ==> (IsMin(entries, min.value.handle) &&
                             entries[min.value.handle] == Entry(min.value.nodeNumber, min.value.key))
    {
      var rest := entries.Keys;
      min := None;
      while rest != {}
        invariant rest <= entries.Keys
        invariant min.None? ==> rest == entries.Keys
        invariant min.Some? ==> (min.value.handle in entries &&
                                 entries[min.value.handle] == Entry(min.value.nodeNumber, min.value.key))
        invariant min.Some? ==> forall g :: g in entries && g !in rest ==> AtMost(min.value.key, entries[g].key)
        decreases rest
      {
        var h :| h in rest;
        if min.None? || Less(entries[h].key, min.value.key) {
          min := Some(Node(h, entries[h].nodeNumber, entries[h].key));
        }
        rest := rest - {h};
      }
      if min.None? {
        assert entries.Keys == {};
      }
    }

    /** Takes a node with the least key out of the heap; None, and no
        change, on an empty heap. */
    method RemoveMin() returns (min: Option<Node>)
      requires Valid()
      modifies this
      ensures Valid() && nextHandle == old(nextHandle)
      ensures min.None? <==> old(entries) == map[]
      ensures min.None? ==> entries == old(entries)
      ensures min.Some? ==> (IsMin(old(entries), min.value.handle) &&
                             old(entries)[min.value.handle] == Entry(min.value.nodeNumber, min.value.key) &&
                             entries == old(entries) - {min.value.handle})
    {
      min := ReturnMin();
      if min.Some? {
        entries := entries - {min.value.handle};
      }
    }

    /** Gives the node a new key, which may not be above its current one. */
    method DecreaseKey(node: Node, key: Dist)
      requires Valid() && node.handle in entries && AtMost(key, entries[node.handle].key)
      modifies this
      ensures Valid() && nextHandle == old(nextHandle)
      ensures entries == old(entries)[node.handle := Entry(old(entries)[node.handle].nodeNumber, key)]
    {
      entries := entries[node.handle := Entry(entries[node.handle].nodeNumber, key)];
    }
  }
}

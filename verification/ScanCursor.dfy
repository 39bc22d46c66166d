/** The cache of recently issued scan cursors of a connection (src/redis_connection_context.cpp:124-170).

    The map owns its nodes and the queue points into it, so nodes are objects here: a queue entry whose node the
    map has dropped would be a dangling pointer. */
module ScanCursor {
  import opened Bytes

  const CACHED: nat := 100

  class Node {
    const hash: int
    var content: Str
    var count: int

    constructor (hash: int, content: Str)
      ensures this.hash == hash && this.content == content && count == 1
    {
      this.hash, this.content, count := hash, content, 1;
    }
  }

  /** The hash was handed out by one of the last hundred calls. */
  ghost predicate Recent(fnv: Str -> int, issued: seq<Str>, h: int) {
    exists i :: 0 <= i < |issued| && |issued| - CACHED <= i && fnv(issued[i]) == h
  }

  /** The content of the latest call that handed out the hash. */
  ghost function Latest(fnv: Str -> int, issued: seq<Str>, h: int): Str {
    if issued == [] then []
    else if fnv(issued[|issued| - 1]) == h then issued[|issued| - 1]
    else Latest(fnv, issued[..|issued| - 1], h)
  }

  /** How many queue entries point to the node. */
  ghost function Refs(queue: seq<Node>, n: Node): nat {
    if queue == [] then 0 else (if queue[0] == n then 1 else 0) + Refs(queue[1..], n)
  }

  lemma {:induction false} RefsAppend(queue: seq<Node>, m: Node, n: Node)
    ensures Refs(queue + [m], n) == Refs(queue, n) + if m == n then 1 else 0
  {
    if queue == [] {
      assert queue + [m] == [m];
    } else {
      RefsAppend(queue[1..], m, n);
      assert (queue + [m])[1..] == queue[1..] + [m];
    }
  }

  lemma {:induction false} RefsPositive(queue: seq<Node>, n: Node)
    ensures Refs(queue, n) > 0 <==> n in queue
  {
    if queue != [] {
      RefsPositive(queue[1..], n);
      assert n in queue <==> n == queue[0] || n in queue[1..];
    }
  }

  lemma RefsPop(queue: seq<Node>, n: Node)
    requires queue != []
    ensures Refs(queue[1..], n) == Refs(queue, n) - if queue[0] == n then 1 else 0
    ensures Refs(queue[1..], n) > 0 <==> n in queue[1..]
  {
    RefsPositive(queue[1..], n);
  }

  class ScanCursorCache {
    const fnv: Str -> int
    var cursors: map<int, Node>
    var queue: seq<Node>
    /** Every cursor ever cached, oldest first. */
    ghost var issued: seq<Str>

    /** The queue is the tail of the calls made so far. */
    ghost predicate QueueIsTail()
      reads this
    {
      && |queue| <= |issued|
      && forall i :: 0 <= i < |queue| ==> queue[i].hash == fnv(issued[|issued| - |queue| + i])
    }

    /** Every queue entry points to a node the map still owns. */
    ghost predicate NothingDangles()
      reads this
    {
      forall n :: n in queue ==> n.hash in cursors && cursors[n.hash] == n
    }

    ghost predicate NodesAreExact()
      reads this, cursors.Values
    {
      forall h :: h in cursors ==>
        && cursors[h].hash == h
        && cursors[h] in queue
        && cursors[h].count == Refs(queue, cursors[h])
        && cursors[h].content == Latest(fnv, issued, h)
    }

    ghost predicate Consistent()
      reads this, cursors.Values
    {
      QueueIsTail() && NothingDangles() && NodesAreExact()
    }

    ghost predicate Valid()
      reads this, cursors.Values
    {
      Consistent() && |queue| == (if |issued| < CACHED then |issued| else CACHED)
    }

    constructor (fnv: Str -> int)
      ensures Valid() && issued == [] && this.fnv == fnv
    {
      this.fnv := fnv;
      cursors, queue, issued := map[], [], [];
    }

    method CacheScanCursor(cursor: Str) returns (hash: int)
      requires Valid()
      modifies this, cursors.Values
      ensures Valid() && issued == old(issued) + [cursor] && hash == fnv(cursor)
      ensures fresh(cursors.Values - old(cursors.Values))
    {
      hash := fnv(cursor);
      if hash in cursors {
        Renew(hash, cursor);
      } else {
        Insert(hash, cursor);
      }
      if |queue| > CACHED {
        Evict();
      }
    }

    /** The hash is new: a node is made for it. */
    method Insert(hash: int, cursor: Str)
      requires Consistent() && hash == fnv(cursor) && hash !in cursors
      modifies this
      ensures Consistent() && issued == old(issued) + [cursor] && |queue| == old(|queue|) + 1
      ensures fresh(cursors.Values - old(cursors.Values))
    {
      hide Refs;
      var node := new Node(hash, cursor);
      RefsPositive(queue, node);
      forall h | h in cursors || h == hash {
        RefsAppend(queue, node, if h == hash then node else cursors[h]);
      }
      cursors := cursors[hash := node];
      queue := queue + [node];
      issued := issued + [cursor];
      assert issued[..|issued| - 1] == old(issued);
    }

    /** The hash is known: its node takes the new content and one more reference. */
    method Renew(hash: int, cursor: Str)
      requires Consistent() && hash == fnv(cursor) && hash in cursors
      modifies this, cursors[hash]
      ensures Consistent() && issued == old(issued) + [cursor] && |queue| == old(|queue|) + 1
      ensures cursors == old(cursors)
    {
      hide Refs;
      var node := cursors[hash];
      forall h | h in cursors {
        RefsAppend(queue, node, cursors[h]);
      }
      node.content := cursor;
      node.count := node.count + 1;
      queue := queue + [node];
      issued := issued + [cursor];
      assert issued[..|issued| - 1] == old(issued);
    }

    /** The oldest queue entry gives up its reference; the node goes with the last one. */
    method Evict()
      requires Consistent() && |queue| > 0
      modifies this`cursors, this`queue, cursors.Values
      ensures Consistent() && |queue| == old(|queue|) - 1
      ensures cursors.Values <= old(cursors.Values)
    {
      hide Refs, Latest;
      var front := queue[0];
      assert front in queue;
      forall h | h in cursors {
        RefsPop(queue, cursors[h]);
      }
      if front.count > 1 {
        front.count := front.count - 1;
      } else {
        cursors := cursors - {front.hash};
      }
      queue := queue[1..];
    }

    /** A lookup succeeds exactly for the hashes of the last hundred calls, and then returns the content of the
        latest call with that hash. */
    method FindScanCursor(id: int) returns (found: bool, content: Str)
      requires Valid()
      ensures found <==> Recent(fnv, issued, id)
      ensures found ==> content == Latest(fnv, issued, id)
    {
      assert Recent(fnv, issued, id) ==> id in cursors by {
        if i :| 0 <= i < |issued| && |issued| - CACHED <= i && fnv(issued[i]) == id {
          assert queue[i - (|issued| - |queue|)].hash == id;
        }
      }
      assert id in cursors ==> Recent(fnv, issued, id) by {
        if id in cursors {
          var k :| 0 <= k < |queue| && queue[k] == cursors[id];
          assert fnv(issued[|issued| - |queue| + k]) == id;
        }
      }
      if id in cursors {
        return true, cursors[id].content;
      }
      return false, [];
    }
  }
}

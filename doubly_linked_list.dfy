/** The sorted, doubly linked list of unique strings: nodes on the heap linked by
    `prev` and `next`, and a list object that holds the head and the tail.  Each
    operation walks the links as the C functions do; its contract is stated over
    the ghost view `Contents` and the functions of module SortedStrings. */
module DoublyLinkedList {
  import opened SortedStrings

  /** One list node (`struct list_node_s`).  Its string never changes after the
      node is created; only its links do. */
  class Node {
    const data: string
    var prev: Node?
    var next: Node?

    /** A node not yet linked into any list (`Allocate_node` followed by `strcpy`). */
    constructor (s: string)
      ensures data == s && prev == null && next == null
    {
      data := s;
      prev := null;
      next := null;
    }
  }

  /** Putting `x` in front of or after a sequence is splicing it in at either end. */
  lemma SpliceAtEnds<T>(s: seq<T>, x: T)
    ensures s[..0] + [x] + s[0..] == [x] + s
    ensures s[..|s|] + [x] + s[|s|..] == s + [x]
  {
  }

  /** Cutting out the first element of a non-empty sequence. */
  lemma CutFirst<T>(s: seq<T>)
    requires s != []
    ensures s[..0] + s[1..] == s[1..]
  {
  }

  /** Cutting out the last element of a non-empty sequence. */
  lemma CutLast<T>(s: seq<T>)
    requires s != []
    ensures s[..|s| - 1] + s[|s|..] == s[..|s| - 1]
  {
  }

  /** No node occurs twice. */
  ghost predicate Distinct(ns: seq<Node>) {
    forall i, j :: 0 <= i < j < |ns| ==> ns[i] != ns[j]
  }

  /** Node `i` holds string `i`. */
  ghost predicate Carries(ns: seq<Node>, cs: seq<string>) {
    |ns| == |cs| && forall i :: 0 <= i < |ns| ==> ns[i].data == cs[i]
  }

  /** Splicing a node that is not yet in the chain keeps the nodes distinct and
      the strings in step. */
  lemma SpliceIn(ns: seq<Node>, cs: seq<string>, k: nat, t: Node)
    requires Distinct(ns) && Carries(ns, cs) && k <= |ns| && t !in ns
    ensures Distinct(ns[..k] + [t] + ns[k..])
    ensures Carries(ns[..k] + [t] + ns[k..], cs[..k] + [t.data] + cs[k..])
  {
  }

  /** Cutting node `k` out keeps the nodes distinct and the strings in step. */
  lemma SpliceOut(ns: seq<Node>, cs: seq<string>, k: nat)
    requires Distinct(ns) && Carries(ns, cs) && k < |ns|
    ensures Distinct(ns[..k] + ns[k + 1..])
    ensures Carries(ns[..k] + ns[k + 1..], cs[..k] + cs[k + 1..])
  {
  }

  /** Each node's `next` is the node after it and its `prev` the node before it. */
  ghost predicate Linked(ns: seq<Node>)
    reads ns
  {
    && (forall i :: 0 <= i < |ns| - 1 ==> ns[i].next == ns[i + 1])
    && (forall i :: 0 < i < |ns| ==> ns[i].prev == ns[i - 1])
  }

  /** The list (`struct list_s`): pointers to the first and last node. */
  class List {
    var head: Node?
    var tail: Node?

    // public view: the nodes from head to tail, and the strings they hold
    ghost var nodes: seq<Node>
    ghost var Contents: seq<string>

    /** The object invariant: the nodes are chained as below, and their strings are
        strictly ascending in `strcmp` order. */
    ghost predicate Valid()
      reads this, nodes
      ensures Valid() ==> (head == null <==> tail == null) && (head == null <==> Contents == [])
    {
      Chained() && Sorted(Contents)
    }

    /** The shape of the list: `nodes` is the chain reached from `head` along `next`
        and from `tail` along `prev`, every link is mirrored by the link back, the
        head has no predecessor, the tail no successor, and node `i` holds string `i`
        of `Contents`.  Head and tail are null exactly when there are no nodes. */
    ghost predicate Chained()
      reads this, nodes
      ensures Chained() ==> head != null ==> head.prev == null && tail != null && tail.next == null
    {
      && Carries(nodes, Contents)
      && Distinct(nodes)
      && (nodes == [] ==> head == null && tail == null)
      && (nodes != [] ==>
            && head == nodes[0] && head.prev == null
            && tail == nodes[|nodes| - 1] && tail.next == null)
      && Linked(nodes)
    }

    /** The empty list `main` starts from. */
    constructor ()
      ensures Valid() && Contents == [] && nodes == []
      ensures head == null && tail == null
    {
      head, tail := null, null;
      nodes, Contents := [], [];
    }

    /** Inserts `s` at its sorted position unless it is already present; returns
        false ("Insert failed") in that case and changes nothing. */
    method Insert(s: string) returns (inserted: bool)
      requires Valid()
      modifies this, nodes
      ensures Valid()
      ensures inserted <==> s !in old(Contents)
      ensures Contents == SortedInsert(old(Contents), s)
      ensures !inserted ==> nodes == old(nodes) && head == old(head) && tail == old(tail)
      ensures !inserted ==> forall n :: n in nodes ==> n.prev == old(n.prev) && n.next == old(n.next)
      ensures inserted ==>
                var k := FirstNotLess(old(Contents), s);
                && nodes == old(nodes)[..k] + [nodes[k]] + old(nodes)[k..]
                && fresh(nodes[k]) && nodes[k].data == s
      ensures head != old(head) <==> inserted && FirstNotLess(old(Contents), s) == 0
      ensures tail != old(tail) <==> inserted && FirstNotLess(old(Contents), s) == |old(Contents)|
    {
      var temp := new Node(s);
      ghost var k := FirstNotLess(Contents, s);
      ScanFindsDuplicate(Contents, s);
      SortedInsertSorted(Contents, s);
      if head != null {
        // the list is not empty: find the first node not less than s
        var p := head;
        ghost var i := 0;
        while p != null && StrCmp(p.data, s) < 0
          invariant 0 <= i <= |nodes|
          invariant p == if i < |nodes| then nodes[i] else null
          invariant forall j :: 0 <= j < i ==> StrLess(Contents[j], s)
          decreases |nodes| - i
        {
          p := p.next;
          i := i + 1;
        }
        FirstNotLessAt(Contents, s, i);
        if p != null && StrCmp(p.data, s) == 0 {
          // already present
          return false;
        } else if p == head {
          SpliceAtEnds(nodes, temp);
          SpliceAtEnds(Contents, s);
          LinkBeforeHead(temp);
        } else if p != null {
          LinkBefore(p, temp, k);
        } else {
          SpliceAtEnds(nodes, temp);
          SpliceAtEnds(Contents, s);
          LinkAfterTail(temp);
        }
      } else {
        SpliceAtEnds(nodes, temp);
        SpliceAtEnds(Contents, s);
        LinkOnly(temp);
      }
      inserted := true;
    }

    /** Insert into the empty list: the new node becomes both head and tail. */
    method LinkOnly(temp: Node)
      requires Chained() && nodes == []
      modifies this, temp
      ensures Chained() && nodes == [temp] && Contents == [temp.data]
      ensures head == temp && tail == temp && temp.prev == null && temp.next == null
    {
      head := temp;
      tail := temp;
      temp.prev := null;
      temp.next := null;
      nodes, Contents := [temp], [temp.data];
    }

    /** Insert before the head: the new node becomes the head. */
    method LinkBeforeHead(temp: Node)
      requires Chained() && nodes != [] && temp !in nodes
      modifies this, nodes, temp
      ensures Chained()
      ensures nodes == [temp] + old(nodes) && Contents == [temp.data] + old(Contents)
      ensures head == temp && tail == old(tail)
    {
      var p := head;
      head := temp;
      temp.prev := null;
      temp.next := p;
      p.prev := temp;
      nodes, Contents := [temp] + nodes, [temp.data] + Contents;
    }

    /** Insert between node `k - 1` and node `k`, neither of them changing role. */
    method LinkBefore(p: Node, temp: Node, ghost k: nat)
      requires Chained() && 0 < k < |nodes| && p == nodes[k] && temp !in nodes
      modifies this, nodes, temp
      ensures Chained()
      ensures nodes == old(nodes)[..k] + [temp] + old(nodes)[k..]
      ensures Contents == old(Contents)[..k] + [temp.data] + old(Contents)[k..]
      ensures head == old(head) && tail == old(tail)
    {
      ghost var before := nodes[k - 1];
      assert p.prev == before;
      SpliceIn(nodes, Contents, k, temp);
      p.prev.next := temp;
      temp.prev := p.prev;
      temp.next := p;
      p.prev := temp;
      assert before.next == temp && temp.prev == before && temp.next == p && p.prev == temp;
      ghost var spliced := nodes[..k] + [temp] + nodes[k..];
      forall i | 0 <= i < |spliced| - 1 ensures spliced[i].next == spliced[i + 1] {
        if i < k - 1 {
          assert spliced[i] == nodes[i] != before && spliced[i + 1] == nodes[i + 1];
          assert old(nodes[i].next) == nodes[i + 1];
        } else if i > k {
          assert spliced[i] == nodes[i - 1] != before && spliced[i + 1] == nodes[i];
          assert old(nodes[i - 1].next) == nodes[i];
        }
      }
      forall i | 0 < i < |spliced| ensures spliced[i].prev == spliced[i - 1] {
        if i < k {
          assert spliced[i] == nodes[i] != p && spliced[i - 1] == nodes[i - 1];
          assert old(nodes[i].prev) == nodes[i - 1];
        } else if i > k + 1 {
          assert spliced[i] == nodes[i - 1] != p && spliced[i - 1] == nodes[i - 2];
          assert old(nodes[i - 1].prev) == nodes[i - 2];
        }
      }
      nodes, Contents := nodes[..k] + [temp] + nodes[k..], Contents[..k] + [temp.data] + Contents[k..];
    }

    /** Insert after the tail: the new node becomes the tail. */
    method LinkAfterTail(temp: Node)
      requires Chained() && nodes != [] && temp !in nodes
      modifies this, nodes, temp
      ensures Chained()
      ensures nodes == old(nodes) + [temp] && Contents == old(Contents) + [temp.data]
      ensures head == old(head) && tail == temp
    {
      tail.next := temp;
      temp.prev := tail;
      temp.next := null;
      tail := temp;
      nodes, Contents := nodes + [temp], Contents + [temp.data];
    }

    /** Removes the node holding `s`; returns false ("Delete failed") and changes
        nothing when there is none. */
    method Delete(s: string) returns (deleted: bool)
      requires Valid()
      modifies this, nodes
      ensures Valid()
      ensures deleted <==> s in old(Contents)
      ensures Contents == Remove(old(Contents), s)
      ensures !deleted ==> nodes == old(nodes) && head == old(head) && tail == old(tail)
      ensures !deleted ==> forall n :: n in nodes ==> n.prev == old(n.prev) && n.next == old(n.next)
      ensures deleted ==>
                var k := IndexOf(old(Contents), s);
                nodes == old(nodes)[..k] + old(nodes)[k + 1..]
      ensures head != old(head) <==> deleted && IndexOf(old(Contents), s) == 0
      ensures tail != old(tail) <==> deleted && IndexOf(old(Contents), s) == |old(Contents)| - 1
    {
      ghost var k := IndexOf(Contents, s);
      RemoveSorted(Contents, s);
      var p := head;
      ghost var i := 0;
      while p != null && StrCmp(p.data, s) != 0
        invariant 0 <= i <= |nodes|
        invariant p == if i < |nodes| then nodes[i] else null
        invariant forall j :: 0 <= j < i ==> Contents[j] != s
        decreases |nodes| - i
      {
        p := p.next;
        i := i + 1;
      }
      if p != null {
        IndexOfAt(Contents, s, i);
        Unlink(p, k);
        deleted := true;
      } else {
        deleted := false;
      }
    }

    /** Takes node `k`, which the delete scan stopped on, out of the chain, by the
        case that applies: the only node, the head, a middle node or the tail. */
    method Unlink(p: Node, ghost k: nat)
      requires Chained() && k < |nodes| && p == nodes[k]
      modifies this, nodes
      ensures Chained()
      ensures nodes == old(nodes)[..k] + old(nodes)[k + 1..]
      ensures Contents == old(Contents)[..k] + old(Contents)[k + 1..]
      ensures head != old(head) <==> k == 0
      ensures tail != old(tail) <==> k == |old(nodes)| - 1
    {
      assert head == nodes[0] && tail == nodes[|nodes| - 1];
      if head == tail {
        assert k == 0 && |nodes| == 1;
        UnlinkOnly(k);
      } else if p == head {
        assert k == 0;
        CutFirst(nodes);
        CutFirst(Contents);
        UnlinkHead();
      } else if p != tail {
        assert 0 < k < |nodes| - 1;
        UnlinkMiddle(p, k);
      } else {
        assert 0 < k == |nodes| - 1;
        UnlinkTail(k);
      }
    }

    /** Delete the only node: head and tail both become null. */
    method UnlinkOnly(ghost k: nat)
      requires Chained() && k < |nodes| && head == tail
      modifies this
      ensures Chained()
      ensures nodes == old(nodes)[..k] + old(nodes)[k + 1..] == []
      ensures Contents == old(Contents)[..k] + old(Contents)[k + 1..] == []
      ensures head == null && tail == null && k == 0 && |old(nodes)| == 1
    {
      assert |nodes| == 1;
      head := null;
      tail := null;
      nodes, Contents := [], [];
    }

    /** Delete the head of a list of two or more: its successor becomes the head. */
    method UnlinkHead()
      requires Chained() && |nodes| > 1
      modifies this, nodes
      ensures Chained()
      ensures nodes == old(nodes)[1..] && Contents == old(Contents)[1..]
      ensures head == old(nodes)[1] != old(head) && tail == old(tail)
    {
      var p := head;
      assert nodes[0].next == nodes[1];
      head := p.next;
      p.next.prev := null;
      nodes, Contents := nodes[1..], Contents[1..];
    }

    /** Delete node `k`, which is neither the head nor the tail. */
    method UnlinkMiddle(p: Node, ghost k: nat)
      requires Chained() && k < |nodes| && p == nodes[k] && p != head && p != tail
      modifies this, nodes
      ensures Chained()
      ensures nodes == old(nodes)[..k] + old(nodes)[k + 1..]
      ensures Contents == old(Contents)[..k] + old(Contents)[k + 1..]
      ensures 0 < k < |old(nodes)| - 1
      ensures head == old(head) && tail == old(tail)
    {
      assert 0 < k < |nodes| - 1;
      ghost var before, after := nodes[k - 1], nodes[k + 1];
      assert p.prev == before && p.next == after;
      SpliceOut(nodes, Contents, k);
      p.prev.next := p.next;
      p.next.prev := p.prev;
      ghost var spliced := nodes[..k] + nodes[k + 1..];
      forall i | 0 <= i < |spliced| - 1 ensures spliced[i].next == spliced[i + 1] {
        if i < k - 1 {
          assert spliced[i] == nodes[i] != before && spliced[i + 1] == nodes[i + 1];
          assert old(nodes[i].next) == nodes[i + 1];
        } else if i >= k {
          assert spliced[i] == nodes[i + 1] != before && spliced[i + 1] == nodes[i + 2];
          assert old(nodes[i + 1].next) == nodes[i + 2];
        }
      }
      forall i | 0 < i < |spliced| ensures spliced[i].prev == spliced[i - 1] {
        if i < k {
          assert spliced[i] == nodes[i] != after && spliced[i - 1] == nodes[i - 1];
          assert old(nodes[i].prev) == nodes[i - 1];
        } else if i > k {
          assert spliced[i] == nodes[i + 1] != after && spliced[i - 1] == nodes[i];
          assert old(nodes[i + 1].prev) == nodes[i];
        }
      }
      nodes, Contents := spliced, Contents[..k] + Contents[k + 1..];
    }

    /** Delete the tail of a list of two or more: its predecessor becomes the tail. */
    method UnlinkTail(ghost k: nat)
      requires Chained() && k < |nodes| && head != tail && tail == nodes[k]
      modifies this, nodes
      ensures Chained()
      ensures nodes == old(nodes)[..k] + old(nodes)[k + 1..]
      ensures Contents == old(Contents)[..k] + old(Contents)[k + 1..]
      ensures k != 0 && k == |old(nodes)| - 1
      ensures head == old(head) && tail == old(nodes)[k - 1] != old(tail)
    {
      CutLast(nodes);
      CutLast(Contents);
      var p := tail;
      assert k == |nodes| - 1 > 0;
      assert nodes[k].prev == nodes[k - 1];
      p.prev.next := null;
      tail := p.prev;
      nodes, Contents := nodes[..k], Contents[..k];
    }

    /** 1 when some node holds `s`, otherwise 0. */
    method Member(s: string) returns (r: int)
      requires Valid()
      ensures r == if s in Contents then 1 else 0
    {
      var p := head;
      ghost var i := 0;
      while p != null
        invariant 0 <= i <= |nodes|
        invariant p == if i < |nodes| then nodes[i] else null
        invariant forall j :: 0 <= j < i ==> Contents[j] != s
        decreases |nodes| - i
      {
        if StrCmp(p.data, s) == 0 {
          return 1;
        }
        p := p.next;
        i := i + 1;
      }
      return 0;
    }

    /** The strings met walking from the head along `next`, in that order. */
    method Print() returns (out: seq<string>)
      requires Valid()
      ensures out == Contents
    {
      var curr := head;
      ghost var i := 0;
      out := [];
      while curr != null
        invariant 0 <= i <= |nodes|
        invariant curr == if i < |nodes| then nodes[i] else null
        invariant out == Contents[..i]
        decreases |nodes| - i
      {
        out := out + [curr.data];
        curr := curr.next;
        i := i + 1;
      }
    }

    /** Releases every node and empties the list.  The walk releases each node's
        predecessor once it has stepped onto the node, and the tail after the walk;
        `freed` is the order of those releases.  No node is read after its release,
        and every node is released exactly once, head to tail. */
    method FreeList() returns (freed: seq<Node>)
      requires Valid()
      modifies this
      ensures Valid() && Contents == [] && nodes == []
      ensures head == null && tail == null
      ensures freed == old(nodes)
      ensures old(nodes) == [] ==> unchanged(this)
    {
      var p := head;
      ghost var i := 0;
      freed := [];
      while p != null
        invariant 0 <= i <= |nodes|
        invariant p == if i < |nodes| then nodes[i] else null
        invariant freed == if i == 0 then [] else nodes[..i - 1]
        invariant p != null ==> p !in freed
        decreases |nodes| - i
      {
        var prev := p.prev;
        if prev != null {
          assert 0 < i && prev == nodes[i - 1];
          assert nodes[..i - 1] + [nodes[i - 1]] == nodes[..i];
          freed := freed + [prev];
        }
        p := p.next;
        i := i + 1;
      }
      if tail != null {
        freed := freed + [tail];
      }
      head := null;
      tail := null;
      nodes, Contents := [], [];
    }
  }
}

/** The rpmsg device list as it is in memory: nodes linked into a circle through a head, deleted while traversed. */
module RpmsgList {
  import opened RpmsgNames
  import opened RpmsgSpec

  /** `acapd_list_t` with the `rpmsg_dev_t` that contains it; of the head only the links are used. */
  class Node {
    var next: Node
    var prev: Node
    var channel: string
    var ept: string
    var active: bool

    constructor (channel: string, ept: string)
      ensures next == this && prev == this
      ensures this.channel == channel && this.ept == ept && active
    {
      next, prev := this, this;
      this.channel, this.ept, active := channel, ept, true;
    }

    ghost function Record(): Dev
      reads this
    {
      Dev(channel, ept, active)
    }
  }

  /** Each node is linked to its neighbours in the sequence. */
  ghost predicate Chain(s: seq<Node>)
    reads s
  {
    forall i {:trigger s[i].next} {:trigger s[i + 1].prev} :: 0 <= i < |s| - 1 ==>
      s[i].next == s[i + 1] && s[i + 1].prev == s[i]
  }

  /** The head and the nodes, in order, form a doubly-linked circle. */
  ghost predicate Ring(head: Node, nodes: seq<Node>)
    reads head, nodes
  {
    && head !in nodes
    && (forall i, j :: 0 <= i < j < |nodes| ==> nodes[i] != nodes[j])
    && Chain([head] + nodes + [head])
  }

  lemma ChainSplit(a: seq<Node>, b: seq<Node>)
    requires Chain(a + b)
    ensures Chain(a) && Chain(b)
    ensures a != [] && b != [] ==> a[|a| - 1].next == b[0] && b[0].prev == a[|a| - 1]
  {
    var s := a + b;
    forall i | 0 <= i < |a| - 1
      ensures a[i].next == a[i + 1] && a[i + 1].prev == a[i]
    {
      assert s[i].next == s[i + 1];
    }
    forall i | 0 <= i < |b| - 1
      ensures b[i].next == b[i + 1] && b[i + 1].prev == b[i]
    {
      assert s[|a| + i].next == s[|a| + i + 1];
    }
    if a != [] && b != [] {
      assert s[|a| - 1].next == s[|a|];
    }
  }

  lemma ChainJoin(a: seq<Node>, b: seq<Node>)
    requires Chain(a) && Chain(b) && a != [] && b != []
    requires a[|a| - 1].next == b[0] && b[0].prev == a[|a| - 1]
    ensures Chain(a + b)
  {
    var s := a + b;
    forall i | 0 <= i < |s| - 1
      ensures s[i].next == s[i + 1] && s[i + 1].prev == s[i]
    {
      if i < |a| - 1 {
        assert a[i].next == a[i + 1];
      } else if i >= |a| {
        assert b[i - |a|].next == b[i - |a| + 1];
      }
    }
  }

  ghost function Records(nodes: seq<Node>): (r: seq<Dev>)
    reads nodes
    ensures |r| == |nodes|
  {
    seq(|nodes|, i requires 0 <= i < |nodes| reads nodes => nodes[i].Record())
  }

  /** An entry of the device directory, and what setting up its endpoint would come to. */
  datatype DirEntry = DirEntry(name: string, setup: Setup)

  function Classify(e: DirEntry, virtio: int): Found {
    Found(e.name, ChannelOf(e.name), Relevant(e.name, virtio), e.setup)
  }

  function Classified(dir: seq<DirEntry>, virtio: int): (r: seq<Found>)
    ensures |r| == |dir|
  {
    seq(|dir|, i requires 0 <= i < |dir| => Classify(dir[i], virtio))
  }

  /** The tests at the head of the scan loop. */
  method IsRelevant(name: string, virtio: int) returns (r: bool)
    ensures r <==> Relevant(name, virtio)
  {
    if name == "." || name == ".." || Contains(name, "rpmsg_ns") || Contains(name, "rpmsg_ctrl") {
      return false;
    }
    var number := GetVirtioNumber(name);
    r := number == virtio;
  }

  class List {
    const head: Node
    ghost var nodes: seq<Node>
    ghost var repr: set<Node>

    ghost predicate Valid()
      reads this, head, nodes
    {
      head in repr && (forall n :: n in nodes ==> n in repr) && Ring(head, nodes)
    }

    /** `acapd_list_init`. */
    constructor ()
      ensures Valid() && nodes == [] && fresh(repr)
    {
      head := new Node("", "");
      nodes := [];
      new;
      repr := {head};
    }

    /** The neighbours of the node between `left` and `right`. */
    lemma Neighbours(left: seq<Node>, node: Node, right: seq<Node>)
      requires Valid() && nodes == left + [node] + right
      ensures node.next == (right + [head])[0] && node.prev == ([head] + left)[|left|]
      ensures node !in left && node !in right && node != head && node in nodes
      ensures Chain([head] + left) && Chain(right + [head])
      ensures forall n :: n in left || n in right ==> n in nodes
    {
      var a, b := [head] + left, right + [head];
      assert [head] + nodes + [head] == a + ([node] + b);
      ChainSplit(a, [node] + b);
      ChainSplit([node], b);
      assert nodes[|left|] == node;
      assert forall i :: 0 <= i < |left| ==> nodes[i] == left[i];
      assert forall i :: 0 <= i < |right| ==> nodes[|left| + 1 + i] == right[i];
    }

    /** What comes first in the circle. */
    lemma First()
      requires Valid()
      ensures head.next == (nodes + [head])[0] && head.prev == ([head] + nodes)[|nodes|]
    {
      assert [head] + (nodes + [head]) == [head] + nodes + [head];
      ChainSplit([head], nodes + [head]);
      ChainSplit([head] + nodes, [head]);
    }

    /** `acapd_list_add_tail`, that is `acapd_list_add_before` the head. */
    method AddTail(node: Node)
      requires Valid() && node != head && node !in nodes
      modifies this`nodes, this`repr, repr`next, repr`prev, node`next, node`prev
      ensures Valid() && nodes == old(nodes) + [node] && repr == old(repr) + {node}
    {
      First();
      ghost var a := [head] + nodes;
      ChainSplit(a, [head]);
      node.prev := head.prev;
      node.next := head;
      node.next.prev := node;
      node.prev.next := node;
      nodes, repr := nodes + [node], repr + {node};
      assert Chain(a);
      ChainJoin(a, [node]);
      ChainJoin(a + [node], [head]);
      assert [head] + nodes + [head] == a + [node] + [head];
    }

    /** `acapd_list_del`: the neighbours of the node are linked to each other, and it to itself. */
    method Delete(node: Node, ghost left: seq<Node>, ghost right: seq<Node>)
      requires Valid() && nodes == left + [node] + right
      modifies this`nodes, repr`next, repr`prev
      ensures Valid() && nodes == left + right && node !in nodes
      ensures node.next == node && node.prev == node
    {
      Neighbours(left, node, right);
      ghost var a, b := [head] + left, right + [head];
      assert a[|left|] == head || a[|left|] in nodes;
      assert b[0] == head || b[0] in nodes;
      OthersDiffer(left, node, right);
      node.next.prev := node.prev;
      node.prev.next := node.next;
      node.next := node;
      node.prev := node;
      nodes := left + right;
      forall i | 0 <= i < |a| - 1
        ensures a[i].next == a[i + 1] && a[i + 1].prev == a[i]
      {
        assert a[i + 1] == left[i] && old(a[i].next == a[i + 1] && a[i + 1].prev == a[i]);
      }
      forall i | 0 <= i < |b| - 1
        ensures b[i].next == b[i + 1] && b[i + 1].prev == b[i]
      {
        assert b[i] == right[i] && old(b[i].next == b[i + 1] && b[i + 1].prev == b[i]);
      }
      ChainJoin(a, b);
      assert [head] + nodes + [head] == a + b;
    }

    lemma OthersDiffer(left: seq<Node>, node: Node, right: seq<Node>)
      requires Valid() && nodes == left + [node] + right
      ensures head !in left + right
      ensures forall i, j :: 0 <= i < j < |left + right| ==> (left + right)[i] != (left + right)[j]
      ensures forall i :: 0 <= i < |left| ==> ([head] + left)[i] != ([head] + left)[|left|]
      ensures forall i :: 1 <= i < |right + [head]| ==> (right + [head])[i] != (right + [head])[0]
      ensures forall i :: 0 <= i < |left| ==> left[i] != (right + [head])[0]
      ensures forall i :: 0 <= i < |right| ==> right[i] != ([head] + left)[|left|]
    {
      var k := |left|;
      assert forall i :: 0 <= i < |left + right| ==> (left + right)[i] == nodes[if i < k then i else i + 1];
      assert forall i :: 0 <= i < |left| ==> left[i] == nodes[i];
      assert forall i :: 0 <= i < |right| ==> right[i] == nodes[k + 1 + i];
    }

    /** The body of the sweep: a node that is not marked is deleted. */
    method VisitOne(node: Node, ghost left: seq<Node>, ghost right: seq<Node>)
      requires Valid() && nodes == left + [node] + right
      modifies this`nodes, repr`next, repr`prev
      ensures Valid() && nodes == left + (if old(node.active) then [node] else []) + right
      ensures !old(node.active) ==> node !in nodes
      ensures forall n :: n in nodes ==> n in old(nodes)
    {
      if node.active {
        assert nodes == left + [node] + right;
      } else {
        Delete(node, left, right);
        assert nodes == left + [] + right;
      }
    }

    lemma Successor(i: nat)
      requires Valid() && i < |nodes|
      ensures nodes[i].next == (nodes + [head])[i + 1]
    {
      assert nodes == nodes[..i] + [nodes[i]] + nodes[i + 1..];
      Neighbours(nodes[..i], nodes[i], nodes[i + 1..]);
    }

    /** `reset_active`. */
    method ResetActive()
      requires Valid()
      modifies repr
      ensures Valid() && Records(nodes) == Reset(old(Records(nodes)))
    {
      First();
      var node := head.next;
      ghost var i := 0;
      while node != head
        invariant 0 <= i <= |nodes| && Valid()
        invariant node == (nodes + [head])[i]
        invariant forall k :: 0 <= k < i ==> nodes[k].Record() == old(nodes[k].Record()).(active := false)
        invariant forall k :: i <= k < |nodes| ==> nodes[k].Record() == old(nodes[k].Record())
        decreases |nodes| - i
      {
        Successor(i);
        node.active := false;
        node := node.next;
        i := i + 1;
      }
      assert Records(nodes) == Reset(old(Records(nodes)));
    }

    /** `check_rpmsg_dev_active`: the first device that the name is taken for is marked. */
    method CheckActive(name: string, virtio: int) returns (found: bool)
      requires Valid()
      modifies repr
      ensures Valid()
      ensures var k := FirstMatch(old(Records(nodes)), Head(virtio), name, 0);
        && (found <==> k < |nodes|)
        && Records(nodes) == if found then Mark(old(Records(nodes)), k) else old(Records(nodes))
    {
      First();
      var node := head.next;
      ghost var i := 0;
      ghost var devs := Records(nodes);
      while node != head
        invariant 0 <= i <= |nodes| && Valid()
        invariant node == (nodes + [head])[i]
        invariant Records(nodes) == devs
        invariant FirstMatch(devs, Head(virtio), name, i) == FirstMatch(devs, Head(virtio), name, 0)
        decreases |nodes| - i
      {
        Successor(i);
        assert devs[i] == node.Record();
        if name <= Head(virtio) + node.channel {
          node.active := true;
          assert Records(nodes) == Mark(devs, i);
          return true;
        }
        node := node.next;
        i := i + 1;
      }
      found := false;
    }

    /** The loop of `delete_inactive_rpmsgdev`: the successor is read before a node may be deleted and freed. `visited` are
        the nodes that the traversal came to, `freed` those it must not touch again. */
    method Traverse(ghost flags: seq<bool>) returns (ghost visited: seq<Node>)
      requires Valid() && |flags| == |nodes| && forall k :: 0 <= k < |nodes| ==> flags[k] == nodes[k].active
      modifies this`nodes, repr`next, repr`prev
      ensures Valid() && visited == old(nodes)
      ensures nodes == Keep(old(nodes), flags)
    {
      ghost var kept, rest, freed: set<Node> := [], nodes, {};
      ghost var all := nodes;
      visited := [];
      First();
      var node := head.next;
      var after := node.next;
      while node != head
        invariant Valid() && nodes == kept + rest && all == visited + rest
        invariant kept == Keep(visited, flags[..|visited|])
        invariant node == (rest + [head])[0]
        invariant node != head ==> after == node.next
        invariant forall n :: n in freed ==> n !in nodes && n != head
        decreases |rest|
      {
        ghost var left, right := kept, rest[1..];
        SweepStep(all, flags, visited, rest, node);
        assert flags[|visited|] == node.active;
        TakeOne(kept, rest, node);
        TakeOne(visited, rest, node);
        Neighbours(left, node, right);
        assert node !in freed;
        freed := freed + if node.active then {} else {node};
        kept := left + if node.active then [node] else [];
        VisitOne(node, left, right);
        visited, rest := visited + [node], right;
        node := after;
        assert node !in freed;
        after := node.next;
      }
      assert visited == all && flags[..|visited|] == flags;
    }

    /** `delete_inactive_rpmsgdev`. */
    method DeleteInactive() returns (ghost visited: seq<Node>)
      requires Valid()
      modifies this`nodes, repr`next, repr`prev
      ensures Valid() && visited == old(nodes)
      ensures nodes == Keep(old(nodes), Flags(old(Records(nodes))))
      ensures Records(nodes) == Sweep(old(Records(nodes)))
    {
      ghost var devs := Records(nodes);
      visited := Traverse(Flags(devs));
      forall k | 0 <= k < |visited|
        ensures visited[k].Record() == devs[k]
      {
        assert devs[k] == old(nodes[k].Record());
      }
      KeptRecords(visited, devs);
    }

    /** `create_rpmsg_dev`, once the endpoint is set up, and the insertion at the end. The channel is read behind the first
        dot, which therefore has to be there. */
    method AppendDevice(name: string, ept: string) returns (node: Node)
      requires Valid() && '.' in name
      modifies this`nodes, this`repr, repr
      ensures Valid() && nodes == old(nodes) + [node] && fresh(node) && repr == old(repr) + {node}
      ensures Records(nodes) == old(Records(nodes)) + [Dev(ChannelOf(name), ept, true)]
    {
      node := new Node(ChannelOf(name), ept);
      AddTail(node);
      assert Records(nodes) == old(Records(nodes)) + [Dev(ChannelOf(name), ept, true)];
    }

    /** One directory entry that concerns this RPU; `added` are the nodes that it brings. */
    method ScanDevice(e: DirEntry, virtio: int, ghost f: Found) returns (ghost added: seq<Node>)
      requires Valid() && f.name == e.name && f.channel == ChannelOf(e.name) && f.setup == e.setup && f.relevant
      requires Dotted(Records(nodes), Head(virtio), f)
      modifies this`nodes, this`repr, repr
      ensures Valid() && nodes == old(nodes) + added
      ensures Records(nodes) == ScanOne(old(Records(nodes)), Head(virtio), f)
      ensures fresh(repr - old(repr)) && (forall n :: n in added ==> fresh(n))
    {
      added := [];
      var found := CheckActive(e.name, virtio);
      if !found && e.setup.Made? {
        var node := AppendDevice(e.name, e.setup.ept);
        added := [node];
      }
    }

    /** The body of the scan loop. */
    method ScanEntry(e: DirEntry, virtio: int, ghost f: Found) returns (ghost added: seq<Node>)
      requires Valid() && f == Classify(e, virtio) && Dotted(Records(nodes), Head(virtio), f)
      modifies this`nodes, this`repr, repr
      ensures Valid() && nodes == old(nodes) + added
      ensures Records(nodes) == ScanOne(old(Records(nodes)), Head(virtio), f)
      ensures fresh(repr - old(repr)) && (forall n :: n in added ==> fresh(n))
    {
      added := [];
      var relevant := IsRelevant(e.name, virtio);
      if relevant {
        added := ScanDevice(e, virtio, f);
      }
    }

    /** `update_rpmsg_dev_list`. What it leaves are the nodes it found and the `added` ones, without those not marked. */
    method Update(dirOpened: bool, dir: seq<DirEntry>, virtio: int) returns (ghost added: seq<Node>)
      requires Valid() && (dirOpened ==> AllDotted(Reset(Records(nodes)), Head(virtio), Classified(dir, virtio)))
      modifies this`nodes, this`repr, repr
      ensures Valid() && forall n :: n in added ==> fresh(n)
      ensures var devs := old(Records(nodes));
        if !dirOpened then nodes == old(nodes) && Records(nodes) == devs
        else
          var scanned := Scanned(devs, Head(virtio), Classified(dir, virtio));
          && |scanned| == |old(nodes) + added|
          && nodes == Keep(old(nodes) + added, Flags(scanned))
          && Records(nodes) == Updated(devs, Head(virtio), Classified(dir, virtio))
    {
      added := [];
      if !dirOpened {
        return;
      }
      ResetActive();
      ghost var found, start := Classified(dir, virtio), Records(nodes);
      added := ScanDirectory(dir, virtio, found, Scans(start, Head(virtio), found));
      ghost var visited := DeleteInactive();
    }

    /** The scan loop; `scans` are the records before each of its turns and after the last. */
    method ScanDirectory(dir: seq<DirEntry>, virtio: int, ghost found: seq<Found>, ghost scans: seq<seq<Dev>>)
      returns (ghost added: seq<Node>)
      requires Valid() && found == Classified(dir, virtio) && |scans| == |dir| + 1 && Records(nodes) == scans[0]
      requires forall i :: 0 <= i < |dir| ==> Stage(scans, Head(virtio), found, i)
      modifies this`nodes, this`repr, repr
      ensures Valid() && nodes == old(nodes) + added && Records(nodes) == scans[|dir|]
      ensures fresh(repr - old(repr)) && forall n :: n in added ==> fresh(n)
    {
      added := [];
      var i := 0;
      while i < |dir|
        invariant 0 <= i <= |dir| && Valid()
        invariant nodes == old(nodes) + added
        invariant Records(nodes) == scans[i]
        invariant fresh(repr - old(repr)) && forall n :: n in added ==> fresh(n)
      {
        assert Stage(scans, Head(virtio), found, i);
        ghost var more := ScanEntry(dir[i], virtio, found[i]);
        Regroup(old(nodes), added, more);
        added := added + more;
        i := i + 1;
      }
    }

    /** `delete_rpmsg_dev_list`. */
    method DeleteAll() returns (ghost visited: seq<Node>)
      requires Valid()
      modifies this`nodes, repr`next, repr`prev
      ensures Valid() && nodes == [] && visited == old(nodes)
    {
      ghost var rest, freed: set<Node> := nodes, {};
      visited := [];
      NothingBefore(nodes);
      First();
      var node := head.next;
      var after := node.next;
      while node != head
        invariant Valid() && nodes == [] + rest && old(nodes) == visited + rest
        invariant node == (rest + [head])[0]
        invariant node != head ==> after == node.next
        invariant forall n :: n in freed ==> n !in nodes && n != head
        decreases |rest|
      {
        ghost var right := rest[1..];
        TakeOne([], rest, node);
        TakeOne(visited, rest, node);
        Neighbours([], node, right);
        assert node !in freed;
        freed := freed + {node};
        Delete(node, [], right);
        visited, rest := visited + [node], right;
        node := after;
        assert node !in freed;
        after := node.next;
      }
    }
  }

  // ---------------------------------------------------------------- keeping nodes and their records

  lemma TakeOne<T>(left: seq<T>, rest: seq<T>, x: T)
    requires rest != [] && rest[0] == x
    ensures left + rest == left + [x] + rest[1..]
  {
    assert rest == [x] + rest[1..];
  }

  lemma Regroup<T>(a: seq<T>, b: seq<T>, c: seq<T>)
    ensures a + b + c == a + (b + c)
  {
  }

  lemma NothingBefore<T>(s: seq<T>)
    ensures [] + s == s
  {
  }

  /** One more element visited. */
  lemma {:induction false} SweepStep<T>(all: seq<T>, flags: seq<bool>, visited: seq<T>, rest: seq<T>, x: T)
    requires |all| == |flags| && all == visited + rest && rest != [] && rest[0] == x
    ensures all[|visited|] == x
    ensures Keep(visited + [x], flags[..|visited| + 1])
         == Keep(visited, flags[..|visited|]) + if flags[|visited|] then [x] else []
  {
    assert (visited + [x])[..|visited|] == visited;
    assert flags[..|visited| + 1][..|visited|] == flags[..|visited|];
  }

  /** The records of the nodes that are kept are the records that are kept. */
  lemma {:induction false} KeptRecords(all: seq<Node>, devs: seq<Dev>)
    requires |all| == |devs| && forall k :: 0 <= k < |all| ==> all[k].Record() == devs[k]
    ensures Records(Keep(all, Flags(devs))) == Sweep(devs)
  {
    if all != [] {
      var n := |all| - 1;
      KeptRecords(all[..n], devs[..n]);
      assert Flags(devs)[..n] == Flags(devs[..n]);
      var kept := Keep(all[..n], Flags(devs[..n]));
      if devs[n].active {
        assert Records(kept + [all[n]]) == Records(kept) + [devs[n]];
      }
    }
  }
}

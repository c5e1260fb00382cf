/**
 Where coroutines are: the tail queue of those that are ready and the red-black tree of those that wait for a
 descriptor.  A coroutine has a link of the queue and a node of the tree; the maps between coroutines and these
 parts stand for the offsets of the fields.
 */
module NtyPlaces {
  import opened NtyQueue
  import opened NtyRbTree
  import opened Trees
  import opened Sequences

  /** The two maps undo each other. */
  predicate Inverse<A(==), B(==)>(f: map<A, B>, g: map<B, A>) {
    && (forall a :: a in f ==> f[a] in g && g[f[a]] == a)
    && (forall b :: b in g ==> g[b] in f && f[g[b]] == b)
  }

  lemma InverseAdded<A, B>(f: map<A, B>, g: map<B, A>, a: A, b: B)
    requires Inverse(f, g) && a !in f && b !in g
    ensures Inverse(f[a := b], g[b := a])
  {
  }

  class Places<C(==)> {
    const queue: TailQueue
    const tree: Head
    var links: map<C, Entry>
    var nodes: map<C, Elm>
    var ofLink: map<Entry, C>
    var ofNode: map<Elm, C>
    ghost var entries: set<Entry>
    ghost var elms: set<Elm>
    ghost var ready: seq<C>
    ghost var waiting: map<int, C>

    /** Every coroutine has a link and a node of its own. */
    ghost predicate Owned()
      reads `links, `nodes, `ofLink, `ofNode, `entries, `elms
    {
      && links.Keys == nodes.Keys && Inverse(links, ofLink) && Inverse(nodes, ofNode)
      && entries == ofLink.Keys && elms == ofNode.Keys
    }

    /** The entries of the queue are the links of the ready coroutines. */
    ghost predicate Queued()
      reads `ready, `links, queue, queue.entries
    {
      && queue.Valid() && |ready| == |queue.entries|
      && forall i :: 0 <= i < |ready| ==> ready[i] in links && links[ready[i]] == queue.entries[i]
    }

    /** The nodes of the tree are those of the coroutines that wait, and their keys are the descriptors. */
    ghost predicate Files(w: map<int, C>)
      reads `nodes, `ofNode, tree, tree.nodes, tree.order
    {
      && tree.Ready()
      && (forall e :: e in tree.nodes ==> e in ofNode && e.key in w && w[e.key] == ofNode[e])
      && forall fd :: fd in w ==> w[fd] in nodes && nodes[w[fd]] in tree.nodes && nodes[w[fd]].key == fd
    }

    ghost predicate Filed()
      reads `waiting, `nodes, `ofNode, tree, tree.nodes, tree.order
    {
      Files(waiting)
    }

    ghost predicate Valid()
      reads this, queue, queue.entries, tree, tree.nodes, tree.order
    {
      Owned() && Queued() && Filed()
    }

    function NoneReady(): bool
      reads queue
    {
      queue.first == null
    }

    function NoneWaits(): bool
      reads tree
    {
      tree.root == null
    }

    /** The queue and the tree are empty when nobody is ready and nobody waits. */
    lemma Empties()
      requires Valid()
      ensures NoneReady() <==> ready == []
      ensures NoneWaits() <==> waiting == map[]
    {
      hide Owned, Inverse;
      tree.LookRoot(Top, tree.shape);
      assert forall fd :: fd in waiting ==> nodes[waiting[fd]] in tree.nodes;
      if tree.root == null {
        assert tree.nodes == {};
        assert waiting.Keys == {};
      } else {
        assert tree.root in tree.nodes && tree.root.key in waiting;
      }
    }

    /** TAILQ_LAST */
    method Last() returns (co: C)
      requires Valid() && ready != []
      ensures co == ready[|ready| - 1]
    {
      var e := queue.Last();
      co := ofLink[e];
    }

    constructor Create()
      ensures Valid() && ready == [] && waiting == map[] && links == map[]
      ensures fresh(queue) && fresh(tree) && entries == {} && elms == {}
    {
      queue := new TailQueue.Init();
      tree := new Head.Init();
      links, nodes, ofLink, ofNode := map[], map[], map[], map[];
      entries, elms, ready, waiting := {}, {}, [], map[];
    }

    method AddLink(co: C)
      requires Inverse(links, ofLink) && entries == ofLink.Keys && Queued() && Filed() && co !in links
      modifies this`links, this`ofLink, this`entries
      ensures Inverse(links, ofLink) && entries == ofLink.Keys
      ensures Queued() && Filed() && links.Keys == old(links.Keys) + {co}
      ensures old(entries) <= entries
      ensures forall n :: n in entries && n !in old(entries) ==> fresh(n)
    {
      hide Inverse, Filed, TailQueue.Valid, TailQueue.Linked;
      var e := new Entry(queue);
      InverseAdded(links, ofLink, co, e);
      links, ofLink, entries := links[co := e], ofLink[e := co], entries + {e};
    }

    method AddNode(co: C)
      requires Inverse(nodes, ofNode) && elms == ofNode.Keys && Queued() && Filed() && co !in nodes
      modifies this`nodes, this`ofNode, this`elms
      ensures Inverse(nodes, ofNode) && elms == ofNode.Keys
      ensures Queued() && Filed() && nodes.Keys == old(nodes.Keys) + {co}
      ensures old(elms) <= elms
      ensures forall n :: n in elms && n !in old(elms) ==> fresh(n)
    {
      hide Inverse, Queued, Head.Ready;
      var n := new Elm(-1);
      InverseAdded(nodes, ofNode, co, n);
      nodes, ofNode, elms := nodes[co := n], ofNode[n := co], elms + {n};
    }

    /** A coroutine comes with its link and its node. */
    method Add(co: C)
      requires Valid() && co !in links
      modifies this`links, this`nodes, this`ofLink, this`ofNode, this`entries, this`elms
      ensures Valid() && links.Keys == old(links.Keys) + {co}
      ensures forall n :: n in entries && n !in old(entries) ==> fresh(n)
      ensures forall n :: n in elms && n !in old(elms) ==> fresh(n)
    {
      hide Inverse, Queued, Filed;
      AddLink(co);
      AddNode(co);
    }

    /** TAILQ_INSERT_TAIL */
    method Push(co: C)
      requires Valid() && co in links && co !in ready
      modifies this`ready, queue, entries
      ensures Valid() && ready == old(ready) + [co]
    {
      hide Filed, TailQueue.Valid, TailQueue.Linked;
      queue.InsertTail(links[co]);
      ready := ready + [co];
    }

    /** TAILQ_FIRST and TAILQ_REMOVE */
    method Pop() returns (co: C)
      requires Valid() && ready != []
      modifies this`ready, queue, entries
      ensures Valid() && co == old(ready)[0] && ready == old(ready)[1..]
    {
      hide Filed, TailQueue.Valid, TailQueue.Linked;
      var e := queue.First();
      co := ofLink[e];
      queue.Remove(e, 0);
      ready := ready[1..];
    }

    /** Who waits for a descriptor has the one node of the tree with that key. */
    lemma NodeOf(fd: int)
      requires Owned() && Filed() && fd in waiting
      ensures waiting[fd] in nodes && nodes[waiting[fd]] in tree.nodes && nodes[waiting[fd]].key == fd
      ensures fd in tree.keys && forall e :: e in tree.nodes && e.key == fd ==> e == nodes[waiting[fd]]
    {
      hide Head.Ready, Head.Linked;
      tree.Holder(fd);
    }

    /** RB_FIND */
    method Find(fd: int) returns (co: C)
      requires Valid() && fd in waiting
      ensures co == waiting[fd]
    {
      hide Queued, Head.Ready, Head.Linked;
      NodeOf(fd);
      var e := tree.Find(fd);
      co := ofNode[e];
    }

    method Put(e: Elm, fd: int, ghost co: C)
      requires Owned() && Filed() && fd !in waiting && co !in waiting.Values && co in nodes && e == nodes[co]
      modifies tree, elms
      ensures Files(waiting[fd := co])
    {
      hide Head.Ready, Head.Linked;
      tree.Listed(e);
      tree.Holder(fd);
      e.key := fd;
      var found, k := tree.Insert(e);
      assert found == null;
    }

    /** RB_INSERT */
    method File(co: C, fd: int)
      requires Valid() && co in links && fd !in waiting && co !in waiting.Values
      modifies this`waiting, tree, elms
      ensures Valid() && waiting == old(waiting)[fd := co]
    {
      hide Queued, Files, Inverse;
      Put(nodes[co], fd, co);
      waiting := waiting[fd := co];
    }

    method Take(e: Elm, ghost fd: int)
      requires Owned() && Filed() && fd in waiting && e == nodes[waiting[fd]]
      modifies tree, elms
      ensures Files(waiting - {fd})
    {
      hide Head.Ready, Head.Linked, Inverse;
      NodeOf(fd);
      var gone, k := tree.Remove(e);
    }

    /** RB_FIND and RB_REMOVE */
    method Unfile(fd: int) returns (co: C)
      requires Valid() && fd in waiting
      modifies this`waiting, tree, elms
      ensures Valid() && co == old(waiting)[fd] && waiting == old(waiting) - {fd}
    {
      hide Queued, Files, Inverse;
      NodeOf(fd);
      co := Find(fd);
      Take(nodes[co], fd);
      waiting := waiting - {fd};
    }
  }
}

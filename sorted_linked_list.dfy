/** The sorted linked list itself: a chain of heap nodes that its methods
    walk with a `current` pointer and splice in place. */
module LinkedList {
  import opened Wrappers
  import opened Values
  import opened SortedSeqs
  import opened Render

  /** One link of the chain: a value and the next node, `null` at the end. */
  class Node {
    var value: Value
    var next: Node?

    constructor (value: Value)
      ensures this.value == value && next == null
    {
      this.value := value;
      next := null;
    }
  }

  class SortedLinkedList {
    var head: Node?
    /** PHP's `$type`: `null` until the first value fixes it. */
    var kind: Option<Kind>

    // The public view: the values head to tail, and the chain that holds them.
    ghost var Contents: seq<Value>
    ghost var Nodes: seq<Node>
    ghost var Repr: set<object>

    /** What holds between public operations: the chain from `head` holds
        `Contents`, every node is in `Repr`, and the kind invariant holds. */
    ghost predicate Valid()
      reads this, Repr
      ensures Valid() ==> this in Repr
    {
      && this in Repr
      && (forall n :: n in Nodes ==> n in Repr)
      && Chain(head, Nodes, Contents, null)
      && KindInvariant(kind, Contents)
    }

    /** The nodes `nodes`, followed from `head` through `next`, hold
        `contents` in order and lead to `end`: node 0 is `head` and holds
        the first value, and its `next` starts the segment of the rest. The
        whole list is the segment that ends in `null`. */
    static ghost predicate Chain(head: Node?, nodes: seq<Node>, contents: seq<Value>, end: Node?)
      reads nodes
      decreases |nodes|
    {
      && |nodes| == |contents|
      && if nodes == [] then head == end
         else
           && head == nodes[0]
           && nodes[0].value == contents[0]
           && Chain(nodes[0].next, nodes[1..], contents[1..], end)
    }

    /** An unset type marker means an empty list (not the converse: removing
        the last value keeps the marker); a set marker means every value has
        that kind and the values are sorted under its comparison. */
    static ghost predicate KindInvariant(t: Option<Kind>, s: seq<Value>) {
      && (t == None ==> s == [])
      && (t.Some? ==> AllOfKind(t.value, s) && Sorted(t.value, s))
    }

    constructor ()
      ensures Valid() && fresh(Repr)
      ensures Contents == [] && kind == None
    {
      head := null;
      kind := None;
      Contents := [];
      Nodes := [];
      Repr := {this};
    }

    /** Locks the type on first use and refuses values of the other kind. */
    method EnforceType(v: Value) returns (outcome: Outcome<Error>)
      requires Valid()
      modifies this`kind
      ensures Valid()
      ensures outcome.Pass? <==> Admits(old(kind), v)
      ensures outcome.Pass? ==> kind == Some(KindOf(v))
      ensures outcome.Fail? ==> kind == old(kind) && outcome.error == TypeMismatch(kind.value)
    {
      var t := KindOf(v);
      if kind == None {
        kind := Some(t);
      } else if kind != Some(t) {
        return Fail(TypeMismatch(kind.value));
      }
      return Pass;
    }

    /** What `Valid` says about node `i`. */
    lemma NodeAt(i: nat)
      requires Valid() && i < |Nodes|
      ensures Nodes[i].value == Contents[i]
      ensures Nodes[i].next == if i + 1 < |Nodes| then Nodes[i + 1] else null
      ensures kind.Some? && KindOf(Contents[i]) == kind.value
    {
      ChainAt(head, Nodes, Contents, null, i);
    }

    /** Node `j` of a segment holds value `j` and links to node `j + 1`, or
        to the segment's end when it is the last. */
    static lemma {:induction false} ChainAt(h: Node?, ns: seq<Node>, s: seq<Value>, e: Node?, j: nat)
      requires Chain(h, ns, s, e) && j < |ns|
      ensures ns[j].value == s[j]
      ensures ns[j].next == if j + 1 < |ns| then ns[j + 1] else e
      decreases j
    {
      if j > 0 {
        ChainAt(ns[0].next, ns[1..], s[1..], e, j - 1);
        assert ns[1..][j - 1] == ns[j] && s[1..][j - 1] == s[j];
        if j + 1 < |ns| {
          assert ns[1..][j] == ns[j + 1];
        }
      } else if 1 < |ns| {
        assert ns[1..][0] == ns[1];
      }
    }

    /** A segment cut at `i`: the nodes before `i` lead to node `i` (or to
        `e` when `i` is the end), and the rest lead from there to `e`. */
    static lemma {:induction false} ChainSplit(h: Node?, ns: seq<Node>, s: seq<Value>, e: Node?, i: nat)
      requires Chain(h, ns, s, e) && i <= |ns|
      ensures var m := if i < |ns| then ns[i] else e;
        Chain(h, ns[..i], s[..i], m) && Chain(m, ns[i..], s[i..], e)
      decreases i
    {
      if i > 0 {
        ChainSplit(ns[0].next, ns[1..], s[1..], e, i - 1);
        assert ns[1..][..i - 1] == ns[..i][1..] && s[1..][..i - 1] == s[..i][1..];
        assert ns[1..][i - 1..] == ns[i..] && s[1..][i - 1..] == s[i..];
      }
    }

    /** Two segments, the first leading to where the second starts, make
        one. */
    static lemma {:induction false} ChainJoin(h: Node?, a: seq<Node>, sa: seq<Value>, m: Node?, b: seq<Node>, sb: seq<Value>, e: Node?)
      requires Chain(h, a, sa, m) && Chain(m, b, sb, e)
      ensures Chain(h, a + b, sa + sb, e)
      decreases |a|
    {
      if a != [] {
        ChainJoin(a[0].next, a[1..], sa[1..], m, b, sb, e);
        assert (a + b)[1..] == a[1..] + b && (sa + sb)[1..] == sa[1..] + sb;
      } else {
        assert a + b == b && sa + sb == sb;
      }
    }

    /** A chain ending in `null` never revisits a node: the walk from a
        repeated node would repeat forever, but it reaches `null` after the
        last node. */
    static lemma {:induction false} ChainDistinct(h: Node?, ns: seq<Node>, s: seq<Value>, a: nat, b: nat)
      requires Chain(h, ns, s, null) && a < b < |ns|
      ensures ns[a] != ns[b]
      decreases |ns| - b
    {
      if ns[a] == ns[b] {
        ChainAt(h, ns, s, null, a);
        ChainAt(h, ns, s, null, b);
        if b + 1 < |ns| {
          ChainDistinct(h, ns, s, a + 1, b + 1);
        }
      }
    }

    /** Node `i` of a chain ending in `null` occurs nowhere else in it. */
    static lemma NodeOnce(h: Node?, ns: seq<Node>, s: seq<Value>, i: nat)
      requires Chain(h, ns, s, null) && i < |ns|
      ensures ns[i] !in ns[..i] && ns[i] !in ns[i + 1..]
    {
      forall j | 0 <= j < |ns| && j != i
        ensures ns[j] != ns[i]
      {
        if j < i { ChainDistinct(h, ns, s, j, i); } else { ChainDistinct(h, ns, s, i, j); }
      }
    }

    /** The list seen from node `i`: the nodes before it lead to it, it
        holds value `i`, and its successor starts the rest. */
    static lemma ChainFrom(h: Node?, ns: seq<Node>, s: seq<Value>, i: nat)
      requires Chain(h, ns, s, null) && i < |ns|
      ensures Chain(h, ns[..i], s[..i], ns[i])
      ensures ns[i].value == s[i] && Chain(ns[i].next, ns[i + 1..], s[i + 1..], null)
      ensures ns[i].next == if i + 1 < |ns| then ns[i + 1] else null
    {
      ChainAt(h, ns, s, null, i);
      ChainSplit(h, ns, s, null, i);
      assert ns[i..][1..] == ns[i + 1..] && s[i..][1..] == s[i + 1..];
    }

    /** A node `n` holding `v` and linked in front of a segment heads a
        segment one longer. */
    static lemma ChainCons(h: Node?, ns: seq<Node>, s: seq<Value>, e: Node?, n: Node, v: Value)
      requires Chain(h, ns, s, e)
      requires n.value == v && n.next == h
      ensures Chain(n, [n] + ns, [v] + s, e)
    {
      assert ([n] + ns)[1..] == ns && ([v] + s)[1..] == s;
    }

    /** Splices node `n` in after node `i` (`prev`): `n` takes over
        `prev`'s successor and `prev` points to `n`. The nodes before and
        after keep their links. */
    static method LinkAfter(ghost h: Node?, ghost ns: seq<Node>, ghost s: seq<Value>, ghost i: nat, prev: Node, n: Node, ghost v: Value)
      requires Chain(h, ns, s, null) && i < |ns| && prev == ns[i]
      requires n !in ns && n.value == v
      modifies prev, n
      ensures Chain(h, ns[..i + 1] + [n] + ns[i + 1..], s[..i + 1] + [v] + s[i + 1..], null)
    {
      ChainFrom(h, ns, s, i);
      NodeOnce(h, ns, s, i);
      n.next := prev.next;
      prev.next := n;
      ChainCons(n.next, ns[i + 1..], s[i + 1..], null, n, v);
      ChainCons(n, [n] + ns[i + 1..], [v] + s[i + 1..], null, prev, s[i]);
      ChainJoin(h, ns[..i], s[..i], prev, [prev] + ([n] + ns[i + 1..]), [s[i]] + ([v] + s[i + 1..]), null);
      SpliceShape(ns, i, n);
      SpliceShape(s, i, v);
    }

    /** Unlinks node `i + 1` by pointing node `i` (`prev`) past it. The
        nodes before and after keep their links. */
    static method UnlinkAfter(ghost h: Node?, ghost ns: seq<Node>, ghost s: seq<Value>, ghost i: nat, prev: Node)
      requires Chain(h, ns, s, null) && i + 1 < |ns| && prev == ns[i]
      modifies prev
      ensures Chain(h, ns[..i + 1] + ns[i + 2..], s[..i + 1] + s[i + 2..], null)
    {
      ChainFrom(h, ns, s, i);
      ChainFrom(h, ns, s, i + 1);
      NodeOnce(h, ns, s, i);
      UnspliceShape(ns, i);
      prev.next := prev.next.next;
      ChainCons(prev.next, ns[i + 2..], s[i + 2..], null, prev, s[i]);
      ChainJoin(h, ns[..i], s[..i], prev, [prev] + ns[i + 2..], [s[i]] + s[i + 2..], null);
      UnspliceShape(s, i);
    }

    /** The walk of `add` once `v` does not go in front of the head: from
        the head, step while the next value compares at most `v`. It stops
        at the node `v` goes right after, the one just before `v`'s
        insertion point. */
    method FindInsertAfter(k: Kind, v: Value) returns (current: Node, ghost i: nat)
      requires Valid() && kind == Some(k) && KindOf(v) == k
      requires head != null && Compare(k, v, head.value) >= 0
      ensures i < |Nodes| && current == Nodes[i]
      ensures InsertionPoint(k, Contents, v) == i + 1
    {
      NodeAt(0);
      current := head;
      i := 0;
      if 1 < |Nodes| {
        NodeAt(1);
      }
      while current.next != null && Compare(k, v, current.next.value) >= 0
        invariant i < |Nodes| && current == Nodes[i]
        invariant current.next == if i + 1 < |Nodes| then Nodes[i + 1] else null
        invariant i + 1 < |Nodes| ==> KindOf(Nodes[i + 1].value) == k
        invariant forall j :: 0 <= j <= i ==> Compare(k, v, Contents[j]) >= 0
        decreases |Nodes| - i
      {
        NodeAt(i + 1);
        current := current.next;
        i := i + 1;
        if i + 1 < |Nodes| {
          NodeAt(i + 1);
        }
      }
      if i + 1 < |Nodes| {
        NodeAt(i + 1);
      }
      InsertionPointUnique(k, Contents, v, i + 1);
    }

    /** Adds `v` in sorted order, after any values equal to it. */
    method Add(v: Value) returns (outcome: Outcome<Error>)
      requires Valid()
      modifies Repr
      ensures Valid() && fresh(Repr - old(Repr))
      ensures outcome.Pass? <==> Admits(old(kind), v)
      ensures outcome.Pass? ==>
        kind == Some(KindOf(v)) && Contents == Insert(KindOf(v), old(Contents), v)
      ensures outcome.Fail? ==>
        && kind == old(kind) && Contents == old(Contents)
        && outcome.error == TypeMismatch(kind.value)
    {
      outcome := EnforceType(v);
      if outcome.Fail? {
        return;
      }
      var k := KindOf(v);
      if head != null {
        NodeAt(0);
      }
      if head == null || Compare(k, v, head.value) < 0 {
        AddAtHead(v);
      } else {
        AddAfterHead(v);
      }
    }

    /** `add` when the list is empty or `v` compares below the head: the
        new node becomes the head. */
    method AddAtHead(v: Value)
      requires Valid() && kind == Some(KindOf(v))
      requires head == null || Compare(KindOf(v), v, head.value) < 0
      modifies Repr
      ensures Valid() && fresh(Repr - old(Repr)) && kind == old(kind)
      ensures Contents == Insert(KindOf(v), old(Contents), v)
    {
      var k := KindOf(v);
      ghost var s, ns := Contents, Nodes;
      InsertSorted(k, s, v);
      if head != null {
        NodeAt(0);
      }
      InsertAtFront(k, s, v);
      var newNode := new Node(v);
      newNode.next := head;
      ChainCons(head, ns, s, null, newNode, v);
      head, Nodes, Contents, Repr := newNode, [newNode] + ns, Insert(k, s, v), Repr + {newNode};
    }

    /** `add` otherwise: the new node goes right after the node the walk
        stops at. */
    method AddAfterHead(v: Value)
      requires Valid() && kind == Some(KindOf(v))
      requires head != null && Compare(KindOf(v), v, head.value) >= 0
      modifies Repr
      ensures Valid() && fresh(Repr - old(Repr)) && kind == old(kind)
      ensures Contents == Insert(KindOf(v), old(Contents), v)
    {
      var k := KindOf(v);
      ghost var s, ns := Contents, Nodes;
      InsertSorted(k, s, v);
      var newNode := new Node(v);
      var current;
      ghost var i;
      current, i := FindInsertAfter(k, v);
      InsertAfter(k, s, v, i);
      SpliceMembers(ns, i, newNode);
      Nodes, Contents, Repr := ns[..i + 1] + [newNode] + ns[i + 1..], Insert(k, s, v), Repr + {newNode};
      LinkAfter(head, ns, s, i, current, newNode, v);
    }

    /** The walk of `remove` once the head does not hold `v`: from the head,
        step while the next value is not identical to `v`. It stops at the
        node before the first copy of `v`, or at the last node when there is
        none: `IndexOf` is then the length, one past the last node. */
    method FindRemoveBefore(v: Value) returns (current: Node, ghost i: nat)
      requires Valid() && head != null && head.value != v
      ensures i < |Nodes| && current == Nodes[i]
      ensures IndexOf(Contents, v) == i + 1
      ensures current.next == if i + 1 < |Nodes| then Nodes[i + 1] else null
    {
      NodeAt(0);
      current := head;
      i := 0;
      while current.next != null && current.next.value != v
        invariant i < |Nodes| && current == Nodes[i]
        invariant forall j :: 0 <= j <= i ==> Contents[j] != v
        decreases |Nodes| - i
      {
        NodeAt(i);
        NodeAt(i + 1);
        current := current.next;
        i := i + 1;
      }
      NodeAt(i);
      if i + 1 < |Nodes| {
        NodeAt(i + 1);
        IndexOfUnique(Contents, v, i + 1);
      } else {
        IndexOfUnique(Contents, v, |Contents|);
      }
    }

    /** Unlinks the first node whose value is identical to `v`; reports
        whether there was one. */
    method Remove(v: Value) returns (r: Result<bool, Error>)
      requires Valid()
      modifies Repr
      ensures Valid() && fresh(Repr - old(Repr))
      ensures r.Success? <==> Admits(old(kind), v)
      ensures r.Success? ==>
        && kind == Some(KindOf(v))
        && r.value == (v in old(Contents))
        && Contents == RemoveFirst(old(Contents), v)
      ensures r.Failure? ==>
        && kind == old(kind) && Contents == old(Contents)
        && r.error == TypeMismatch(kind.value)
    {
      var e := EnforceType(v);
      if e.Fail? {
        return Failure(e.error);
      }
      if head == null {
        return Success(false);
      }
      var found;
      if head.value == v {
        found := RemoveHead(v);
      } else {
        found := RemoveAfterHead(v);
      }
      return Success(found);
    }

    /** `remove` when the head holds `v`: the head's successor becomes the
        head. */
    method RemoveHead(v: Value) returns (found: bool)
      requires Valid() && kind == Some(KindOf(v))
      requires head != null && head.value == v
      modifies this
      ensures Valid() && Repr == old(Repr) && kind == old(kind)
      ensures found == (v in old(Contents))
      ensures Contents == RemoveFirst(old(Contents), v)
    {
      ghost var s, ns := Contents, Nodes;
      NodeAt(0);
      RemoveFirstSorted(KindOf(v), s, v);
      RemoveFirstAtFront(s, v);
      head, Nodes, Contents := head.next, ns[1..], RemoveFirst(s, v);
      return true;
    }

    /** `remove` otherwise: the walk stops before the first copy of `v` and
        unlinks it, or at the last node when there is none. */
    method RemoveAfterHead(v: Value) returns (found: bool)
      requires Valid() && kind == Some(KindOf(v))
      requires head != null && head.value != v
      modifies Repr
      ensures Valid() && Repr == old(Repr) && kind == old(kind)
      ensures found == (v in old(Contents))
      ensures Contents == RemoveFirst(old(Contents), v)
    {
      ghost var s, ns := Contents, Nodes;
      var current;
      ghost var i;
      current, i := FindRemoveBefore(v);
      if current.next == null {
        RemoveFirstMultiset(s, v);
        return false;
      }
      RemoveFirstSorted(KindOf(v), s, v);
      RemoveFirstAfter(s, v, i);
      Nodes, Contents := ns[..i + 1] + ns[i + 2..], RemoveFirst(s, v);
      UnlinkAfter(head, ns, s, i, current);
      return true;
    }

    /** The values head to tail, as a fresh sequence. */
    method ToArray() returns (result: seq<Value>)
      requires Valid()
      ensures result == Contents
    {
      result := [];
      var current := head;
      ghost var i := 0;
      while current != null
        invariant 0 <= i <= |Nodes|
        invariant current == if i < |Nodes| then Nodes[i] else null
        invariant result == Contents[..i]
        decreases |Nodes| - i
      {
        NodeAt(i);
        assert Contents[..i + 1] == Contents[..i] + [Contents[i]];
        result := result + [current.value];
        current := current.next;
        i := i + 1;
      }
    }

    /** `implode($glue, toArray())`: every value written out, head to tail,
        with `glue` between neighbours. */
    method ToString(glue: seq<byte> := DefaultGlue) returns (r: seq<byte>)
      requires Valid()
      ensures r == Implode(glue, Contents)
    {
      var values := ToArray();
      r := Implode(glue, values);
    }

    /** Whether some value is identical to `v`; locks the type like `Add`. */
    method Contains(v: Value) returns (r: Result<bool, Error>)
      requires Valid()
      modifies this`kind
      ensures Valid() && Contents == old(Contents)
      ensures r.Success? <==> Admits(old(kind), v)
      ensures r.Success? ==> kind == Some(KindOf(v)) && r.value == (v in Contents)
      ensures r.Failure? ==> kind == old(kind) && r.error == TypeMismatch(kind.value)
    {
      var e := EnforceType(v);
      if e.Fail? {
        return Failure(e.error);
      }
      var current := head;
      ghost var i := 0;
      while current != null
        invariant 0 <= i <= |Nodes|
        invariant current == if i < |Nodes| then Nodes[i] else null
        invariant Valid() && kind == Some(KindOf(v))
        invariant v !in Contents[..i]
        decreases |Nodes| - i
      {
        NodeAt(i);
        if current.value == v {
          return Success(true);
        }
        assert Contents[..i + 1] == Contents[..i] + [Contents[i]];
        current := current.next;
        i := i + 1;
      }
      assert Contents[..i] == Contents;
      return Success(false);
    }

    /** True exactly when the list holds no value. */
    function IsEmpty(): (r: bool)
      reads this, Repr
      requires Valid()
      ensures r <==> Contents == []
    {
      head == null
    }

    /** Drops the whole chain and unlocks the type. */
    method Clear()
      requires Valid()
      modifies this
      ensures Valid() && fresh(Repr - old(Repr))
      ensures Contents == [] && kind == None
    {
      head := null;
      kind := None;
      Contents := [];
      Nodes := [];
      Repr := {this};
    }

    /** `"int"`, `"string"`, or `null` (None) while the type is unset. An
        unset type implies an empty list; a set one names the kind of every
        value held. */
    function GetType(): (t: Option<string>)
      reads this, Repr
      requires Valid()
      ensures t == None ==> Contents == []
      ensures t.Some? ==> forall i :: 0 <= i < |Contents| ==> TypeName(KindOf(Contents[i])) == t.value
    {
      if kind == None then None else Some(TypeName(kind.value))
    }
  }
}

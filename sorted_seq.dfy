/** The list's contents read head to tail, and what `add` and `remove` do to
    them, as functions on sequences. The linked list's methods are proved to
    change their ghost contents exactly as these functions say. */
module SortedSeqs {
  import opened Values

  /** Every element has kind `k`. */
  predicate AllOfKind(k: Kind, s: seq<Value>) {
    forall i :: 0 <= i < |s| ==> KindOf(s[i]) == k
  }

  /** Non-decreasing under the list's `compare`. */
  predicate Sorted(k: Kind, s: seq<Value>)
    requires AllOfKind(k, s)
  {
    forall i, j {:trigger Compare(k, s[i], s[j])} :: 0 <= i < j < |s| ==> Compare(k, s[i], s[j]) <= 0
  }

  /** Where `add` splices `v` in: the first position whose element `v`
      compares strictly below, or the end. Every element before it compares
      at most `v`, which puts `v` after all elements equal to it. */
  function InsertionPoint(k: Kind, s: seq<Value>, v: Value): (p: nat)
    requires AllOfKind(k, s) && KindOf(v) == k
    ensures p <= |s|
    ensures forall j {:trigger Compare(k, v, s[j])} :: 0 <= j < p ==> Compare(k, v, s[j]) >= 0
    ensures p < |s| ==> Compare(k, v, s[p]) < 0
  {
    if s == [] || Compare(k, v, s[0]) < 0 then 0
    else 1 + InsertionPoint(k, s[1..], v)
  }

  /** The contents after `add(v)`. */
  function Insert(k: Kind, s: seq<Value>, v: Value): (r: seq<Value>)
    requires AllOfKind(k, s) && KindOf(v) == k
    ensures AllOfKind(k, r)
  {
    var p := InsertionPoint(k, s, v);
    s[..p] + [v] + s[p..]
  }

  /** The index of the first element strictly identical (`===`) to `v`, or
      `|s|` when there is none. */
  function IndexOf<T(==)>(s: seq<T>, v: T): (i: nat)
    ensures i <= |s|
    ensures forall j :: 0 <= j < i ==> s[j] != v
    ensures i < |s| ==> s[i] == v
  {
    if s == [] || s[0] == v then 0 else 1 + IndexOf(s[1..], v)
  }

  /** The contents after `remove(v)`: the first element identical to `v`
      unlinked, or nothing changed when there is none. */
  function RemoveFirst<T(==)>(s: seq<T>, v: T): seq<T> {
    var i := IndexOf(s, v);
    if i < |s| then s[..i] + s[i + 1..] else s
  }

  /** Any position meeting `InsertionPoint`'s two conditions is it. */
  lemma {:induction false} InsertionPointUnique(k: Kind, s: seq<Value>, v: Value, q: nat)
    requires AllOfKind(k, s) && KindOf(v) == k && q <= |s|
    requires forall j :: 0 <= j < q ==> Compare(k, v, s[j]) >= 0
    requires q < |s| ==> Compare(k, v, s[q]) < 0
    ensures InsertionPoint(k, s, v) == q
  {
  }

  /** Any position meeting `IndexOf`'s two conditions is it. */
  lemma {:induction false} IndexOfUnique<T>(s: seq<T>, v: T, q: nat)
    requires q <= |s|
    requires forall j :: 0 <= j < q ==> s[j] != v
    requires q < |s| ==> s[q] == v
    ensures IndexOf(s, v) == q
  {
  }

  /** `add`'s head branch: `v` goes in front exactly when the list is
      empty or `v` compares below the head. */
  lemma {:induction false} InsertAtFront(k: Kind, s: seq<Value>, v: Value)
    requires AllOfKind(k, s) && KindOf(v) == k
    requires s == [] || Compare(k, v, s[0]) < 0
    ensures Insert(k, s, v) == [v] + s
  {
    InsertionPointUnique(k, s, v, 0);
    assert s[..0] == [] && s[0..] == s;
  }

  /** `remove`'s head branch: when the head is `v`, dropping it is
      removing the first copy of `v`. */
  lemma {:induction false} RemoveFirstAtFront<T>(s: seq<T>, v: T)
    requires s != [] && s[0] == v
    ensures RemoveFirst(s, v) == s[1..]
  {
    IndexOfUnique(s, v, 0);
    assert s[..0] == [];
  }

  /** `add`'s other branch: `v` goes right after node `i` when that is
      where its insertion point lies. */
  lemma {:induction false} InsertAfter(k: Kind, s: seq<Value>, v: Value, i: nat)
    requires AllOfKind(k, s) && KindOf(v) == k && InsertionPoint(k, s, v) == i + 1
    ensures Insert(k, s, v) == s[..i + 1] + [v] + s[i + 1..]
  {
  }

  /** `remove`'s other branch: unlinking the successor of node `i` removes
      the first copy of `v` when that successor is it. */
  lemma {:induction false} RemoveFirstAfter<T>(s: seq<T>, v: T, i: nat)
    requires IndexOf(s, v) == i + 1 < |s|
    ensures RemoveFirst(s, v) == s[..i + 1] + s[i + 2..]
  {
  }

  /** The splice after position `i`, regrouped around element `i`. */
  lemma SpliceShape<T>(s: seq<T>, i: nat, x: T)
    requires i < |s|
    ensures s[..i + 1] + [x] + s[i + 1..] == s[..i] + ([s[i]] + ([x] + s[i + 1..]))
  {
    assert s[..i + 1] == s[..i] + [s[i]];
  }

  /** The splice after position `i` holds the old elements and `x`. */
  lemma SpliceMembers<T>(s: seq<T>, i: nat, x: T)
    requires i < |s|
    ensures forall y :: y in s[..i + 1] + [x] + s[i + 1..] ==> y in s || y == x
  {
    assert s == s[..i + 1] + s[i + 1..];
  }

  /** The cut of element `i + 1`, regrouped around element `i`. */
  lemma UnspliceShape<T>(s: seq<T>, i: nat)
    requires i + 1 < |s|
    ensures s[..i + 1] + s[i + 2..] == s[..i] + ([s[i]] + s[i + 2..])
    ensures s[i + 1..] == [s[i + 1]] + s[i + 2..]
  {
    assert s[..i + 1] == s[..i] + [s[i]];
  }

  /** `add` keeps the list sorted. */
  lemma {:induction false} InsertSorted(k: Kind, s: seq<Value>, v: Value)
    requires AllOfKind(k, s) && KindOf(v) == k && Sorted(k, s)
    ensures Sorted(k, Insert(k, s, v))
  {
    var p := InsertionPoint(k, s, v);
    var r := Insert(k, s, v);
    SpliceAt(s, p, v);
    forall i, j | 0 <= i < j < |r|
      ensures Compare(k, r[i], r[j]) <= 0
    {
      if j < p || i > p {
        var i', j' := if i < p then i else i - 1, if j < p then j else j - 1;
        assert r[i] == s[i'] && r[j] == s[j'] && i' < j';
      } else if j == p {
        assert r[i] == s[i] && r[j] == v;
        CompareAntisymmetric(k, v, s[i]);
      } else if i == p {
        assert r[i] == v && r[j] == s[j - 1];
        CompareTransitive(k, v, s[p], s[j - 1]);
      } else {
        assert r[i] == s[i] && r[j] == s[j - 1] && i < j - 1;
      }
    }
  }

  /** Where the elements come from once `v` is spliced in at `p`: those
      before `p` stay put, `v` sits at `p`, the rest move down one. */
  lemma SpliceAt<T>(s: seq<T>, p: nat, v: T)
    requires p <= |s|
    ensures var r := s[..p] + [v] + s[p..];
      && |r| == |s| + 1
      && forall j :: 0 <= j < |r| ==> r[j] == if j < p then s[j] else if j == p then v else s[j - 1]
  {
  }

  /** `add` grows the contents by exactly one copy of `v`. */
  lemma {:induction false} InsertMultiset(k: Kind, s: seq<Value>, v: Value)
    requires AllOfKind(k, s) && KindOf(v) == k
    ensures |Insert(k, s, v)| == |s| + 1
    ensures multiset(Insert(k, s, v)) == multiset(s) + multiset{v}
  {
    SpliceMultiset(s, InsertionPoint(k, s, v), v);
  }

  /** A splice adds one element to the multiset. */
  lemma SpliceMultiset<T>(s: seq<T>, p: nat, v: T)
    requires p <= |s|
    ensures |s[..p] + [v] + s[p..]| == |s| + 1
    ensures multiset(s[..p] + [v] + s[p..]) == multiset(s) + multiset{v}
  {
    calc {
      multiset(s[..p] + [v] + s[p..]);
      multiset(s[..p]) + multiset{v} + multiset(s[p..]);
      { assert s == s[..p] + s[p..]; }
      multiset(s) + multiset{v};
    }
  }

  /** In a sorted list `add` is stable: `v` goes after every element that
      compares at most `v` (in particular after all equal ones) and before
      every element that compares above it; it becomes the head exactly
      when the list is empty or `v` is below the head. */
  lemma {:induction false} InsertStable(k: Kind, s: seq<Value>, v: Value)
    requires AllOfKind(k, s) && KindOf(v) == k && Sorted(k, s)
    ensures var p := InsertionPoint(k, s, v);
      && (forall j :: 0 <= j < |s| ==> (j < p <==> Compare(k, s[j], v) <= 0))
      && Insert(k, s, v)[p] == v
      && (p == 0 <==> s == [] || Compare(k, v, s[0]) < 0)
  {
    var p := InsertionPoint(k, s, v);
    forall j | 0 <= j < |s|
      ensures j < p <==> Compare(k, s[j], v) <= 0
    {
      CompareAntisymmetric(k, s[j], v);
      if j >= p {
        assert p < |s|;
        CompareStrictTransitive(k, v, s[p], s[j]);
      }
    }
  }

  /** `remove` deletes exactly one copy of `v` when there is one and
      changes nothing otherwise. */
  lemma {:induction false} RemoveFirstMultiset<T>(s: seq<T>, v: T)
    ensures v !in s ==> RemoveFirst(s, v) == s
    ensures v in s ==> |RemoveFirst(s, v)| == |s| - 1
    ensures multiset(RemoveFirst(s, v)) == multiset(s) - multiset{v}
  {
    var i := IndexOf(s, v);
    if i < |s| {
      calc {
        multiset(s);
        { assert s == s[..i] + [v] + s[i + 1..]; }
        multiset(s[..i] + [v] + s[i + 1..]);
        multiset(s[..i]) + multiset{v} + multiset(s[i + 1..]);
      }
    }
  }

  /** Where the elements come from once position `i` is dropped: those
      before it stay put, the rest move up one. */
  lemma DropAt<T>(s: seq<T>, i: nat)
    requires i < |s|
    ensures var d := s[..i] + s[i + 1..];
      && |d| == |s| - 1
      && forall j :: 0 <= j < |d| ==> d[j] == s[if j < i then j else j + 1]
  {
    var d := s[..i] + s[i + 1..];
    forall j | 0 <= j < |d|
      ensures d[j] == s[if j < i then j else j + 1]
    {
      if j < i {
        assert d[j] == s[..i][j];
      } else {
        assert d[j] == s[i + 1..][j - i];
      }
    }
  }

  /** `remove` keeps the list's kind and order. */
  lemma {:induction false} RemoveFirstSorted(k: Kind, s: seq<Value>, v: Value)
    requires AllOfKind(k, s) && Sorted(k, s)
    ensures AllOfKind(k, RemoveFirst(s, v)) && Sorted(k, RemoveFirst(s, v))
  {
    var i := IndexOf(s, v);
    var r := RemoveFirst(s, v);
    if i < |s| {
      assert forall j :: 0 <= j < |r| ==> r[j] == s[if j < i then j else j + 1];
    }
  }

  /** In a sorted list that holds `v`, its copies run from its first
      occurrence up to its insertion point. */
  lemma {:induction false} EqualRun(k: Kind, s: seq<Value>, v: Value)
    requires AllOfKind(k, s) && KindOf(v) == k && Sorted(k, s)
    ensures var i, p := IndexOf(s, v), InsertionPoint(k, s, v);
      && (i < |s| ==> i < p)
      && forall j :: i <= j < p ==> s[j] == v
  {
    var i, p := IndexOf(s, v), InsertionPoint(k, s, v);
    if i < |s| && p < i {
      assert Compare(k, s[p], s[i]) <= 0;
      CompareStrictTransitive(k, v, s[p], s[i]);
      assert false;
    }
    forall j | i <= j < p
      ensures s[j] == v
    {
      assert Compare(k, s[i], s[j]) <= 0 || i == j;
      CompareAntisymmetric(k, v, s[j]);
    }
  }

  /** Removing `v` right after adding it gives back the sorted list: the
      copy `remove` takes out is interchangeable with the one `add` put in. */
  lemma {:induction false} RemoveAfterInsert(k: Kind, s: seq<Value>, v: Value)
    requires AllOfKind(k, s) && KindOf(v) == k && Sorted(k, s)
    ensures RemoveFirst(Insert(k, s, v), v) == s
  {
    EqualRun(k, s, v);
    RemoveAfterSplice(s, v, IndexOf(s, v), InsertionPoint(k, s, v));
  }

  /** The sequence step of `RemoveAfterInsert`: `v` spliced in at `p`, just
      after a run of copies of `v` that starts at its first occurrence. */
  lemma {:induction false} RemoveAfterSplice<T>(s: seq<T>, v: T, i: nat, p: nat)
    requires i == IndexOf(s, v) && p <= |s| && (i < |s| ==> i < p)
    requires forall j :: i <= j < p ==> s[j] == v
    ensures RemoveFirst(s[..p] + [v] + s[p..], v) == s
  {
    var q := if i < p then i else p;
    var r := s[..p] + [v] + s[p..];
    assert forall j :: 0 <= j < |r| ==> r[j] == if j < p then s[j] else if j == p then v else s[j - 1];
    IndexOfUnique(r, v, q);
    var d := RemoveFirst(r, v);
    assert d == r[..q] + r[q + 1..];
    DropAt(r, q);
    forall j | 0 <= j < |s|
      ensures d[j] == s[j]
    {
      if j >= q {
        assert d[j] == r[j + 1];
      }
    }
  }

  /** Adding back a value just removed from a sorted list restores it. */
  lemma {:induction false} InsertAfterRemove(k: Kind, s: seq<Value>, v: Value)
    requires AllOfKind(k, s) && KindOf(v) == k && Sorted(k, s) && v in s
    ensures AllOfKind(k, RemoveFirst(s, v))
    ensures Insert(k, RemoveFirst(s, v), v) == s
  {
    RemoveFirstSorted(k, s, v);
    var d, i, p := RemoveFirst(s, v), IndexOf(s, v), InsertionPoint(k, s, v);
    assert i < |s|;
    EqualRun(k, s, v);
    InsertionPointAfterRemove(k, s, v, i, p);
    assert Insert(k, d, v) == d[..p - 1] + [v] + d[p - 1..];
    SpliceAfterRemove(s, v, i, p);
  }

  /** The step of `InsertAfterRemove` that locates `v` in the shorter list. */
  lemma {:induction false} InsertionPointAfterRemove(k: Kind, s: seq<Value>, v: Value, i: nat, p: nat)
    requires AllOfKind(k, s) && KindOf(v) == k
    requires i == IndexOf(s, v) && p == InsertionPoint(k, s, v) && i < p
    ensures AllOfKind(k, RemoveFirst(s, v)) && InsertionPoint(k, RemoveFirst(s, v), v) == p - 1
  {
    var d := RemoveFirst(s, v);
    assert forall j :: 0 <= j < |d| ==> d[j] == s[if j < i then j else j + 1];
    InsertionPointUnique(k, d, v, p - 1);
  }

  /** The sequence step of `InsertAfterRemove`: the first copy of `v`
      unlinked, then `v` spliced back at the end of its run of copies. */
  lemma {:induction false} SpliceAfterRemove<T>(s: seq<T>, v: T, i: nat, p: nat)
    requires i == IndexOf(s, v) && i < p <= |s|
    requires forall j :: i <= j < p ==> s[j] == v
    ensures var d := RemoveFirst(s, v); d[..p - 1] + [v] + d[p - 1..] == s
  {
    var d := RemoveFirst(s, v);
    assert d == s[..i] + s[i + 1..];
    DropAt(s, i);
    var r := d[..p - 1] + [v] + d[p - 1..];
    assert |r| == |s|;
    forall j | 0 <= j < |s|
      ensures r[j] == s[j]
    {
      if j < p - 1 {
        assert r[j] == d[j];
      } else if j >= p {
        assert r[j] == d[j - 1];
      }
    }
  }
}

/** The order of a priority queue after any run of insertions and removals. */
module PriorityRuns {
  import opened PriorityRing

  // ---------- The order ----------

  ghost predicate Ranked(q: seq<Link>) {
    forall i, j :: 0 <= i < j < |q| ==> q[i].iPriority >= q[j].iPriority
  }

  /** The items of one priority, in the order in which `q` has them. */
  ghost function Of(q: seq<Link>, p: int): seq<Link> {
    if q == [] then [] else Of(q[..|q| - 1], p) + (if q[|q| - 1].iPriority == p then [q[|q| - 1]] else [])
  }

  /** The queue after these items have arrived, in this order, in an empty list. */
  ghost function Queue(arrivals: seq<Link>): seq<Link> {
    if arrivals == [] then [] else Placed(Queue(arrivals[..|arrivals| - 1]), arrivals[|arrivals| - 1])
  }

  lemma PlacedIsRanked(q: seq<Link>, l: Link)
    requires Ranked(q)
    ensures Ranked(Placed(q, l))
  {
  }

  lemma {:induction false} OfBoth(a: seq<Link>, b: seq<Link>, p: int)
    ensures Of(a + b, p) == Of(a, p) + Of(b, p)
  {
    if b == [] {
      assert a + b == a;
    } else {
      assert (a + b)[..|a + b| - 1] == a + b[..|b| - 1];
      OfBoth(a, b[..|b| - 1], p);
    }
  }

  lemma {:induction false} OfNone(q: seq<Link>, p: int)
    requires forall i :: 0 <= i < |q| ==> q[i].iPriority != p
    ensures Of(q, p) == []
  {
    if q != [] {
      OfNone(q[..|q| - 1], p);
    }
  }

  lemma OfMoved(x: seq<Link>, y: seq<Link>, l: Link, p: int)
    requires forall i :: 0 <= i < |y| ==> y[i].iPriority != l.iPriority
    ensures Of(x + [l] + y, p) == Of(x + y + [l], p)
  {
    hide Of;
    OfBoth(x + [l], y, p);
    OfBoth(x, [l], p);
    OfBoth(x + y, [l], p);
    OfBoth(x, y, p);
    if p == l.iPriority {
      OfNone(y, p);
    } else {
      OfNone([l], p);
    }
  }

  lemma SlotSplits(q: seq<Link>, l: Link, k: nat)
    requires Ranked(q) && k == Slot(q, l.iPriority)
    ensures q == q[..k] + q[k..]
    ensures forall i :: 0 <= i < |q| - k ==> q[k..][i].iPriority != l.iPriority
  {
  }

  /** An insertion puts the item last in its priority and leaves the other priorities alone. */
  lemma OfPlaced(q: seq<Link>, l: Link, p: int)
    requires Ranked(q)
    ensures Of(Placed(q, l), p) == Of(q + [l], p)
  {
    hide Of, Slot;
    var k := Slot(q, l.iPriority);
    SlotSplits(q, l, k);
    OfMoved(q[..k], q[k..], l, p);
  }

  /** The queue is in order of priority, and in order of arrival within a priority. */
  lemma {:induction false} QueueIsStable(arrivals: seq<Link>)
    ensures Ranked(Queue(arrivals))
    ensures forall p :: Of(Queue(arrivals), p) == Of(arrivals, p)
  {
    if arrivals != [] {
      var before, l := arrivals[..|arrivals| - 1], arrivals[|arrivals| - 1];
      QueueIsStable(before);
      PlacedIsRanked(Queue(before), l);
      forall p
        ensures Of(Queue(arrivals), p) == Of(arrivals, p)
      {
        OfPlaced(Queue(before), l, p);
        OfBoth(Queue(before), [l], p);
      }
    }
  }

  lemma OfLast(q: seq<Link>)
    requires q != []
    ensures var s := Of(q, q[|q| - 1].iPriority);
            s != [] && s[|s| - 1] == q[|q| - 1]
  {
  }

  /** An item of priority `p` is in the queue when there are such items. */
  lemma OfHas(q: seq<Link>, p: int) returns (i: nat)
    requires Of(q, p) != []
    ensures i < |q| && q[i].iPriority == p
  {
    if forall i :: 0 <= i < |q| ==> q[i].iPriority != p {
      OfNone(q, p);
    }
    i :| i < |q| && q[i].iPriority == p;
  }

  lemma OfInit(q: seq<Link>, p: int)
    requires q != []
    ensures var s := Of(q, p);
            if q[|q| - 1].iPriority == p then s != [] && Of(q[..|q| - 1], p) == s[..|s| - 1] else Of(q[..|q| - 1], p) == s
  {
  }

  lemma NotEmptyEither(q: seq<Link>, r: seq<Link>)
    requires forall p :: Of(q, p) == Of(r, p)
    ensures q != [] ==> r != []
  {
    hide Of;
    if q != [] {
      OfLast(q);
      var i := OfHas(r, q[|q| - 1].iPriority);
    }
  }

  /** Those two properties leave no choice. */
  lemma {:induction false} OrderIsUnique(q: seq<Link>, r: seq<Link>)
    requires Ranked(q) && Ranked(r)
    requires forall p :: Of(q, p) == Of(r, p)
    ensures q == r
    decreases |q| + |r|
  {
    hide Of;
    NotEmptyEither(q, r);
    NotEmptyEither(r, q);
    if q != [] {
      var x, y := q[|q| - 1], r[|r| - 1];
      OfLast(q);
      OfLast(r);
      assert Of(q, x.iPriority) == Of(r, x.iPriority) && Of(q, y.iPriority) == Of(r, y.iPriority);
      var i := OfHas(q, y.iPriority);
      var j := OfHas(r, x.iPriority);
      assert x.iPriority <= q[i].iPriority && y.iPriority <= r[j].iPriority;
      var q', r' := q[..|q| - 1], r[..|r| - 1];
      forall p
        ensures Of(q', p) == Of(r', p)
      {
        assert Of(q, p) == Of(r, p);
        OfInit(q, p);
        OfInit(r, p);
      }
      OrderIsUnique(q', r');
    }
  }

  // ---------- Removals ----------

  lemma {:induction false} WithoutIsRanked(q: seq<Link>, l: Link)
    requires Ranked(q)
    ensures Ranked(Without(q, l))
    ensures forall x :: x in Without(q, l) ==> x in q && x != l
    ensures forall x :: x in q && x != l ==> x in Without(q, l)
  {
    if q != [] {
      var first := q[..|q| - 1];
      WithoutIsRanked(first, l);
      var w := Without(first, l);
      forall i | 0 <= i < |w|
        ensures w[i] in first
      {
      }
      assert q == first + [q[|q| - 1]];
    }
  }

  lemma {:induction false} WithoutBoth(a: seq<Link>, b: seq<Link>, l: Link)
    ensures Without(a + b, l) == Without(a, l) + Without(b, l)
  {
    if b == [] {
      assert a + b == a;
    } else {
      assert (a + b)[..|a + b| - 1] == a + b[..|b| - 1];
      WithoutBoth(a, b[..|b| - 1], l);
    }
  }

  lemma {:induction false} OfWithout(q: seq<Link>, l: Link, p: int)
    ensures Of(Without(q, l), p) == Without(Of(q, p), l)
  {
    if q != [] {
      var before, x := q[..|q| - 1], q[|q| - 1];
      OfWithout(before, l, p);
      OfBoth(Without(before, l), if x == l then [] else [x], p);
      WithoutBoth(Of(before, p), if x.iPriority == p then [x] else [], l);
    }
  }

  /** A queue from which an item has been removed is the queue in which it never arrived. */
  lemma QueueWithout(arrivals: seq<Link>, l: Link)
    ensures Without(Queue(arrivals), l) == Queue(Without(arrivals, l))
  {
    QueueIsStable(arrivals);
    QueueIsStable(Without(arrivals, l));
    WithoutIsRanked(Queue(arrivals), l);
    forall p
      ensures Of(Without(Queue(arrivals), l), p) == Of(Queue(Without(arrivals, l)), p)
    {
      OfWithout(Queue(arrivals), l, p);
      OfWithout(arrivals, l, p);
    }
    OrderIsUnique(Without(Queue(arrivals), l), Queue(Without(arrivals, l)));
  }

  // ---------- Runs ----------

  datatype Op = Insert(link: Link) | Remove(link: Link)

  /** The items that are there after a run, in order of arrival. */
  ghost function Arrived(ops: seq<Op>): seq<Link> {
    if ops == [] then []
    else
      var before := Arrived(ops[..|ops| - 1]);
      match ops[|ops| - 1]
      case Insert(l) => before + [l]
      case Remove(l) => Without(before, l)
  }

  /** An item is inserted only while it is not there. */
  ghost predicate Proper(ops: seq<Op>) {
    forall i :: 0 <= i < |ops| && ops[i].Insert? ==> ops[i].link !in Arrived(ops[..i])
  }

  lemma {:induction false} QueueHasArrivals(arrivals: seq<Link>)
    ensures forall l :: l in Queue(arrivals) <==> l in arrivals
  {
    if arrivals != [] {
      QueueHasArrivals(arrivals[..|arrivals| - 1]);
      assert arrivals == arrivals[..|arrivals| - 1] + [arrivals[|arrivals| - 1]];
    }
  }

  /** The item was put in by call `i`, and not taken out since. */
  ghost predicate IsThere(ops: seq<Op>, i: nat, l: Link) {
    i < |ops| && ops[i] == Insert(l) && forall j :: i < j < |ops| ==> ops[j] != Remove(l)
  }

  ghost predicate CameBefore(ops: seq<Op>, l: Link, m: Link) {
    exists i, j :: i < j && IsThere(ops, i, l) && IsThere(ops, j, m)
  }

  lemma WithoutOrder(q: seq<Link>, l: Link, a: nat, b: nat) returns (a': nat, b': nat)
    requires a < b < |Without(q, l)|
    ensures a' < b' < |q| && q[a'] == Without(q, l)[a] != l && q[b'] == Without(q, l)[b] != l
  {
    var n := |q| - 1;
    if b < |Without(q[..n], l)| {
      a', b' := WithoutOrder(q[..n], l, a, b);
    } else {
      b' := n;
      var x := Without(q[..n], l)[a];
      WithoutHas(q[..n], l, x);
      assert x in Without(q[..n], l) && x in q[..n];
      a' :| a' < n && q[..n][a'] == x;
    }
  }

  lemma {:induction false} WithoutHas(q: seq<Link>, l: Link, x: Link)
    ensures x in Without(q, l) <==> x in q && x != l
  {
    if q != [] {
      WithoutHas(q[..|q| - 1], l, x);
      assert q == q[..|q| - 1] + [q[|q| - 1]];
    }
  }

  lemma StillThere(ops: seq<Op>, op: Op, i: nat, l: Link)
    requires IsThere(ops, i, l) && op != Remove(l)
    ensures IsThere(ops + [op], i, l)
  {
  }

  /** Of two items that are there, the first was put in before. */
  lemma {:induction false} ArrivedInOrder(ops: seq<Op>, a: nat, b: nat)
    requires a < b < |Arrived(ops)|
    ensures CameBefore(ops, Arrived(ops)[a], Arrived(ops)[b])
  {
    var before, op := ops[..|ops| - 1], ops[|ops| - 1];
    assert ops == before + [op];
    var there := Arrived(before);
    match op {
      case Insert(m) =>
        assert IsThere(ops, |before|, m);
        if b == |there| {
          ArrivedHas(before, there[a]);
          var i :| IsThere(before, i, there[a]);
          StillThere(before, op, i, there[a]);
        } else {
          ArrivedInOrder(before, a, b);
          var i, j :| i < j && IsThere(before, i, there[a]) && IsThere(before, j, there[b]);
          StillThere(before, op, i, there[a]);
          StillThere(before, op, j, there[b]);
        }
      case Remove(m) =>
        var a', b' := WithoutOrder(there, m, a, b);
        ArrivedInOrder(before, a', b');
        var i, j :| i < j && IsThere(before, i, there[a']) && IsThere(before, j, there[b']);
        StillThere(before, op, i, there[a']);
        StillThere(before, op, j, there[b']);
    }
  }

  /** An item is there exactly when it was put in and not taken out since. */
  lemma {:induction false} ArrivedHas(ops: seq<Op>, l: Link)
    ensures l in Arrived(ops) <==> exists i :: IsThere(ops, i, l)
  {
    if ops != [] {
      var before, op := ops[..|ops| - 1], ops[|ops| - 1];
      assert ops == before + [op];
      ArrivedHas(before, l);
      if op.Remove? {
        WithoutHas(Arrived(before), op.link, l);
      }
      if i: nat :| IsThere(before, i, l) && op != Remove(l) {
        StillThere(before, op, i, l);
      }
      if op == Insert(l) {
        assert IsThere(ops, |before|, l);
      }
      forall i: nat | IsThere(ops, i, l)
        ensures op == Insert(l) || (IsThere(before, i, l) && op != Remove(l))
      {
        if i < |before| {
          assert ops[|before|] == op && IsThere(before, i, l);
        }
      }
    }
  }

  /** Where two items of one priority stand among all, and among those of their priority. */
  lemma {:induction false} OfOrder(q: seq<Link>, p: int, a: nat, b: nat) returns (a': nat, b': nat)
    requires a < b < |q| && q[a].iPriority == q[b].iPriority == p
    ensures a' < b' < |Of(q, p)| && Of(q, p)[a'] == q[a] && Of(q, p)[b'] == q[b]
  {
    var n := |q| - 1;
    if b < n {
      a', b' := OfOrder(q[..n], p, a, b);
    } else {
      a' := OfPlace(q[..n], p, a);
      b' := |Of(q[..n], p)|;
    }
  }

  lemma {:induction false} OfPlace(q: seq<Link>, p: int, a: nat) returns (a': nat)
    requires a < |q| && q[a].iPriority == p
    ensures a' < |Of(q, p)| && Of(q, p)[a'] == q[a]
  {
    var n := |q| - 1;
    if a < n {
      a' := OfPlace(q[..n], p, a);
    } else {
      a' := |Of(q[..n], p)|;
    }
  }

  lemma {:induction false} OfOrderBack(q: seq<Link>, p: int, a: nat, b: nat) returns (a': nat, b': nat)
    requires a < b < |Of(q, p)|
    ensures a' < b' < |q| && q[a'] == Of(q, p)[a] && q[b'] == Of(q, p)[b]
  {
    var n := |q| - 1;
    if b < |Of(q[..n], p)| {
      a', b' := OfOrderBack(q[..n], p, a, b);
    } else {
      a' := OfPlaceBack(q[..n], p, a);
      b' := n;
    }
  }

  lemma {:induction false} OfPlaceBack(q: seq<Link>, p: int, a: nat) returns (a': nat)
    requires a < |Of(q, p)|
    ensures a' < |q| && q[a'] == Of(q, p)[a]
  {
    var n := |q| - 1;
    if a < |Of(q[..n], p)| {
      a' := OfPlaceBack(q[..n], p, a);
    } else {
      a' := n;
    }
  }

  /**
   * What a run leaves, said by its calls alone: the items that were put in and not taken out since; higher priorities first,
   * and of equal ones the item that came before.
   */
  lemma OrderOfRun(ops: seq<Op>)
    ensures var q := Queue(Arrived(ops));
            && (forall l :: l in q <==> exists i :: IsThere(ops, i, l))
            && forall a, b :: 0 <= a < b < |q| ==>
                 || q[a].iPriority > q[b].iPriority
                 || (q[a].iPriority == q[b].iPriority && CameBefore(ops, q[a], q[b]))
  {
    hide Of, IsThere, Arrived, Queue;
    var arrived := Arrived(ops);
    var q := Queue(arrived);
    QueueIsStable(arrived);
    forall l
      ensures l in q <==> exists i :: IsThere(ops, i, l)
    {
      QueueHasArrivals(arrived);
      ArrivedHas(ops, l);
    }
    forall a, b | 0 <= a < b < |q| && q[a].iPriority <= q[b].iPriority
      ensures q[a].iPriority == q[b].iPriority && CameBefore(ops, q[a], q[b])
    {
      var p := q[a].iPriority;
      var i, j := OfOrder(q, p, a, b);
      var i', j' := OfOrderBack(arrived, p, i, j);
      ArrivedInOrder(ops, i', j');
    }
  }

  /** The links that are not in the list are in no list. */
  ghost predicate Attached(items: seq<Link>, links: set<Link>)
    reads links
  {
    && (forall l :: l in items ==> l in links)
    && (forall l :: l in links && l !in items ==> l.iNext == null)
  }

  lemma PlacedHas(q: seq<Link>, l: Link)
    ensures forall x :: x in Placed(q, l) <==> x in q || x == l
  {
    var k := Slot(q, l.iPriority);
    assert q == q[..k] + q[k..];
  }

  method Do(list: PriorityList, op: Op, ghost arrived: seq<Link>, ghost links: set<Link>)
    requires list.Valid() && list.items == Queue(arrived) && Attached(list.items, links)
    requires list.iHead !in links && op.link in links && (op.Insert? ==> op.link !in arrived)
    modifies list, list.iHead, links
    ensures list.Valid() && Attached(list.items, links)
    ensures list.items == Queue(if op.Insert? then arrived + [op.link] else Without(arrived, op.link))
  {
    hide Placed;
    QueueHasArrivals(arrived);
    match op {
      case Insert(l) =>
        assert (arrived + [l])[..|arrived|] == arrived;
        list.Insert(l);
        PlacedHas(old(list.items), l);
      case Remove(l) =>
        QueueWithout(arrived, l);
        QueueIsStable(arrived);
        WithoutIsRanked(Queue(arrived), l);
        list.Remove(l);
    }
  }

  /** Whatever the run, the list is the queue of the items that are there, in order of arrival. */
  method Play(list: PriorityList, ops: seq<Op>, ghost links: set<Link>)
    requires list.Valid() && list.items == [] && list.iHead !in links && Proper(ops)
    requires forall i :: 0 <= i < |ops| ==> ops[i].link in links
    requires forall l :: l in links ==> l.iNext == null
    modifies list, list.iHead, links
    ensures list.Valid() && list.items == Queue(Arrived(ops))
  {
    for i := 0 to |ops|
      invariant list.Valid() && list.items == Queue(Arrived(ops[..i])) && Attached(list.items, links)
    {
      assert ops[..i + 1][..i] == ops[..i];
      Do(list, ops[i], Arrived(ops[..i]), links);
    }
    assert ops[..|ops|] == ops;
  }
}

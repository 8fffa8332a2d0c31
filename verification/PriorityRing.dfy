/** The circular doubly linked list with priorities, and the queue order that its insertions keep. */
module PriorityRing {

  /** An item's link. The head of a list is a link too; its priority is never read. */
  class Link {
    var iNext: Link?
    var iPrev: Link?
    const iPriority: int

    /** The other pointer starts with any value. */
    constructor (priority: int)
      ensures iNext == null && iPriority == priority
    {
      iNext := null;
      iPriority := priority;
    }

    /** Adds this link after `link`. */
    method InsertAfter(link: Link?)
      requires link != this
      modifies this`iNext, this`iPrev
      modifies (if link == null then {} else {link})`iNext
      modifies (if link == null || link.iNext == null then {} else {link.iNext})`iPrev
      ensures link == null ==> iPrev == link && iNext == old(iNext)
      ensures link != null ==> link.iNext == this && iNext == old(link.iNext) && (iNext != this ==> iPrev == link)
      ensures link != null && iNext != null ==> iNext.iPrev == this
    {
      iPrev := link;
      if link != null {
        iNext := link.iNext;
        link.iNext := this;
        if iNext != null {
          iNext.iPrev := this;
        }
      }
    }

    /** Adds this link before `link`. */
    method InsertBefore(link: Link?)
      requires link != this
      modifies this`iNext, this`iPrev
      modifies (if link == null then {} else {link})`iPrev
      modifies (if link == null || link.iPrev == null then {} else {link.iPrev})`iNext
      ensures link == null ==> iNext == link && iPrev == old(iPrev)
      ensures link != null ==> link.iPrev == this && iPrev == old(link.iPrev) && (iPrev != this ==> iNext == link)
      ensures link != null && iPrev != null ==> iPrev.iNext == this
    {
      iNext := link;
      if link != null {
        iPrev := link.iPrev;
        link.iPrev := this;
        if iPrev != null {
          iPrev.iNext := this;
        }
      }
    }

    /** Takes this link out of its list; nothing but the link itself changes when it is in none. */
    method Remove()
      modifies this`iNext, this`iPrev
      modifies (if iNext == null then {} else {iNext})`iPrev
      modifies (if iNext == null || iPrev == null then {} else {iPrev})`iNext
      ensures iNext == null && iPrev == null
      ensures old(iNext) != null && old(iNext) != this ==> old(iNext).iPrev == old(iPrev)
      ensures old(iNext) != null && old(iPrev) != null && old(iPrev) != this ==> old(iPrev).iNext == old(iNext)
    {
      if iNext != null {
        iNext.iPrev := iPrev;
        if iPrev != null {
          iPrev.iNext := iNext;
        }
      }
      iNext, iPrev := null, null;
    }
  }

  // ---------- Rings ----------

  /** The place after `i` in a ring of `n` links. */
  function After(i: nat, n: nat): nat {
    if i + 1 == n then 0 else i + 1
  }

  /** The links form one ring, in this order, in both directions. */
  ghost predicate Ring(s: seq<Link>)
    reads s
  {
    Distinct(s) && forall i :: 0 <= i < |s| ==> Linked(s, i)
  }

  /** The links at place `i` and at the next place point to each other. */
  ghost predicate Linked(s: seq<Link>, i: nat)
    requires i < |s|
    reads s
  {
    s[i].iNext == s[After(i, |s|)] && s[After(i, |s|)].iPrev == s[i]
  }

  ghost predicate Distinct(s: seq<Link>) {
    forall i, j :: 0 <= i < j < |s| ==> s[i] != s[j]
  }

  lemma DistinctGrown(s: seq<Link>, k: nat, l: Link)
    requires Distinct(s) && l !in s && k <= |s|
    ensures Distinct(s[..k] + [l] + s[k..])
  {
  }

  lemma DistinctShrunk(s: seq<Link>, k: nat)
    requires Distinct(s) && k < |s|
    ensures Distinct(s[..k] + s[k + 1..])
  {
  }

  /** A ring opened after place `k`, with `l` in the gap. */
  lemma Grown(s: seq<Link>, k: nat, l: Link)
    requires Distinct(s) && l !in s && k < |s|
    requires forall i :: 0 <= i < |s| && i != k ==> Linked(s, i)
    requires l.iPrev == s[k] && s[k].iNext == l && l.iNext == s[After(k, |s|)] && s[After(k, |s|)].iPrev == l
    ensures Ring(s[..k + 1] + [l] + s[k + 1..])
  {
    var n, r := |s|, s[..k + 1] + [l] + s[k + 1..];
    DistinctGrown(s, k + 1, l);
    forall i | 0 <= i < |r|
      ensures Linked(r, i)
    {
      if i < k {
        assert Linked(s, i) && r[i] == s[i] && r[i + 1] == s[i + 1];
      } else if i == k {
        assert r[i] == s[k] && r[After(i, |r|)] == l;
      } else if i == k + 1 {
        assert r[i] == l && r[After(i, |r|)] == s[After(k, n)];
      } else {
        assert Linked(s, i - 1) && r[i] == s[i - 1] && r[After(i, |r|)] == s[After(i - 1, n)];
      }
    }
  }

  /** A ring without the link at place `k`, closed over the gap. */
  lemma Shrunk(s: seq<Link>, k: nat)
    requires Distinct(s) && 0 < k < |s|
    requires forall i :: 0 <= i < |s| && i != k - 1 && i != k ==> Linked(s, i)
    requires s[k - 1].iNext == s[After(k, |s|)] && s[After(k, |s|)].iPrev == s[k - 1]
    ensures Ring(s[..k] + s[k + 1..])
  {
    var n, r := |s|, s[..k] + s[k + 1..];
    DistinctShrunk(s, k);
    forall i | 0 <= i < |r|
      ensures Linked(r, i)
    {
      if i < k - 1 {
        assert Linked(s, i) && r[i] == s[i] && r[i + 1] == s[i + 1];
      } else if i == k - 1 {
        assert r[i] == s[k - 1] && r[After(i, |r|)] == s[After(k, n)];
      } else {
        assert Linked(s, i + 1) && r[i] == s[i + 1] && r[After(i, |r|)] == s[After(i + 1, n)];
      }
    }
  }

  /** What a change to one link's `iNext` and one link's `iPrev` leaves of a ring. */
  twostate predicate OpenedAt(s: seq<Link>, k: nat)
    requires k < |s|
    reads s
  {
    && (forall i :: 0 <= i < |s| && i != k ==> s[i].iNext == old(s[i].iNext))
    && (forall i :: 0 <= i < |s| && i != After(k, |s|) ==> s[i].iPrev == old(s[i].iPrev))
  }

  method PutAfter(l: Link, link: Link, ghost s: seq<Link>, ghost k: nat)
    requires Ring(s) && l !in s && k < |s| && link == s[k]
    modifies l, s
    ensures Ring(s[..k + 1] + [l] + s[k + 1..])
  {
    assert Linked(s, k);
    l.InsertAfter(link);
    assert OpenedAt(s, k);
    forall i | 0 <= i < |s| && i != k
      ensures Linked(s, i)
    {
      assert old(Linked(s, i));
    }
    Grown(s, k, l);
  }

  method PutBefore(l: Link, link: Link, ghost s: seq<Link>, ghost k: nat)
    requires Ring(s) && l !in s && k < |s| && link == s[After(k, |s|)]
    modifies l, s
    ensures Ring(s[..k + 1] + [l] + s[k + 1..])
  {
    assert Linked(s, k);
    l.InsertBefore(link);
    assert OpenedAt(s, k);
    forall i | 0 <= i < |s| && i != k
      ensures Linked(s, i)
    {
      assert old(Linked(s, i));
    }
    Grown(s, k, l);
  }

  method TakeOut(l: Link, ghost s: seq<Link>, ghost k: nat)
    requires Ring(s) && 0 < k < |s| && l == s[k]
    modifies s
    ensures Ring(s[..k] + s[k + 1..]) && l.iNext == null && l.iPrev == null
  {
    assert Linked(s, k - 1) && Linked(s, k);
    l.Remove();
    forall i | 0 <= i < |s| && i != k - 1 && i != k
      ensures Linked(s, i)
    {
      assert old(Linked(s, i));
    }
    Shrunk(s, k);
  }

  // ---------- The list ----------

  /** The first place in `q` with lower priority than `p`. */
  function Slot(q: seq<Link>, p: int): (k: nat)
    ensures k <= |q| && (forall i :: 0 <= i < k ==> q[i].iPriority >= p) && (k < |q| ==> q[k].iPriority < p)
  {
    if q == [] || q[0].iPriority < p then 0 else Slot(q[1..], p) + 1
  }

  lemma {:induction false} SlotIsFirst(q: seq<Link>, p: int, k: nat)
    requires k <= |q| && (forall i :: 0 <= i < k ==> q[i].iPriority >= p) && (k < |q| ==> q[k].iPriority < p)
    ensures Slot(q, p) == k
  {
    if k > 0 {
      SlotIsFirst(q[1..], p, k - 1);
    }
  }

  function Placed(q: seq<Link>, l: Link): seq<Link> {
    var k := Slot(q, l.iPriority);
    q[..k] + [l] + q[k..]
  }

  function Without(q: seq<Link>, l: Link): seq<Link> {
    if q == [] then [] else Without(q[..|q| - 1], l) + (if q[|q| - 1] == l then [] else [q[|q| - 1]])
  }

  lemma {:induction false} WithoutAbsent(q: seq<Link>, l: Link)
    requires l !in q
    ensures Without(q, l) == q
  {
    if q != [] {
      WithoutAbsent(q[..|q| - 1], l);
    }
  }

  lemma {:induction false} WithoutAt(q: seq<Link>, k: nat)
    requires k < |q| && forall i :: 0 <= i < |q| && i != k ==> q[i] != q[k]
    ensures Without(q, q[k]) == q[..k] + q[k + 1..]
  {
    var n := |q| - 1;
    if k == n {
      WithoutAbsent(q[..n], q[k]);
    } else {
      WithoutAt(q[..n], k);
      assert q[..n][..k] + q[..n][k + 1..] + [q[n]] == q[..k] + q[k + 1..];
    }
  }

  class PriorityList {
    const iHead: Link
    ghost var items: seq<Link>

    ghost predicate Valid()
      reads this, iHead, items
    {
      Ring([iHead] + items)
    }

    constructor ()
      ensures Valid() && fresh(iHead) && items == []
    {
      iHead := new Link(0);
      items := [];
      new;
      iHead.iNext, iHead.iPrev := iHead, iHead;
    }

    predicate IsEmpty()
      requires Valid()
      reads this, iHead, items
      ensures IsEmpty() <==> items == []
    {
      assert Linked([iHead] + items, 0);
      iHead.iNext == iHead
    }

    /** The links at the two ends. */
    lemma Ends()
      requires Valid()
      ensures iHead !in items
      ensures items != [] ==> iHead.iNext == items[0] && iHead.iPrev == items[|items| - 1]
    {
      var s := [iHead] + items;
      assert Linked(s, 0) && Linked(s, |items|);
      assert forall i :: 0 <= i < |items| ==> s[i + 1] == items[i];
    }

    method InsertHead(link: Link)
      requires Valid() && link !in items && link != iHead
      modifies this, iHead, items, link
      ensures Valid() && items == [link] + old(items)
    {
      Ends();
      ghost var s := [iHead] + items;
      if IsEmpty() {
        iHead.iNext, iHead.iPrev := link, link;
        link.iPrev, link.iNext := iHead, iHead;
        Grown(s, 0, link);
        items := [link];
        assert [iHead] + items == s[..1] + [link] + s[1..];
      } else {
        PutAt(link, iHead.iNext, 0);
      }
    }

    method InsertTail(link: Link)
      requires Valid() && link !in items && link != iHead
      modifies this, iHead, items, link
      ensures Valid() && items == old(items) + [link]
    {
      Ends();
      if IsEmpty() {
        InsertHead(link);
      } else {
        PutLast(link);
      }
    }

    method PutAt(link: Link, before: Link, ghost i: nat)
      requires Valid() && link !in items && link != iHead && i < |items| && before == items[i]
      modifies this, iHead, items, link
      ensures Valid() && items == old(items[..i] + [link] + items[i..])
    {
      Ends();
      ghost var s := [iHead] + items;
      PutBefore(link, before, s, i);
      items := items[..i] + [link] + items[i..];
      assert [iHead] + items == s[..i + 1] + [link] + s[i + 1..];
    }

    method PutLast(link: Link)
      requires Valid() && link !in items && link != iHead && items != []
      modifies this, iHead, items, link
      ensures Valid() && items == old(items) + [link]
    {
      Ends();
      ghost var s := [iHead] + items;
      PutAfter(link, iHead.iPrev, s, |items|);
      items := items + [link];
      assert [iHead] + items == s[..|s|] + [link] + s[|s|..];
    }

    /** Puts an item at the end of its priority group. */
    method Insert(link: Link)
      requires Valid() && link !in items && link != iHead
      modifies this, iHead, items, link
      ensures Valid() && items == Placed(old(items), link)
    {
      Ends();
      if IsEmpty() {
        InsertHead(link);
        return;
      }
      ghost var s := [iHead] + items;
      var itemlink := iHead.iNext;
      ghost var i: nat := 0;
      while true
        invariant i < |items| && itemlink == items[i]
        invariant forall j :: 0 <= j < i ==> items[j].iPriority >= link.iPriority
        decreases |items| - i
      {
        assert Linked(s, i + 1) && s[i + 1] == items[i];
        if link.iPriority > itemlink.iPriority {
          SlotIsFirst(items, link.iPriority, i);
          PutAt(link, itemlink, i);
          return;
        }
        if itemlink.iNext == iHead {
          break;
        }
        itemlink := itemlink.iNext;
        i := i + 1;
      }
      SlotIsFirst(items, link.iPriority, |items|);
      PutLast(link);
    }

    /** Removing an item that is in no list is harmless. */
    method Remove(link: Link)
      requires Valid() && link != iHead && (link in items || link.iNext == null)
      modifies this, iHead, items, link
      ensures Valid() && items == Without(old(items), link) && link.iNext == null && link.iPrev == null
    {
      ItemsAreLinked();
      if link.iNext == null {
        WithoutAbsent(items, link);
        link.Remove();
      } else {
        ghost var k: nat :| k < |items| && items[k] == link;
        WithoutInItems(k);
        RemoveAt(link, k);
      }
    }

    method RemoveAt(link: Link, ghost k: nat)
      requires Valid() && k < |items| && link == items[k]
      modifies this, iHead, items
      ensures Valid() && items == old(items[..k] + items[k + 1..]) && link.iNext == null && link.iPrev == null
    {
      ghost var s := [iHead] + items;
      TakeOut(link, s, k + 1);
      items := items[..k] + items[k + 1..];
      assert [iHead] + items == s[..k + 1] + s[k + 2..];
    }

    lemma ItemsAreLinked()
      requires Valid()
      ensures forall l :: l in items ==> l.iNext != null
    {
      forall k | 0 <= k < |items|
        ensures items[k].iNext != null
      {
        assert Linked([iHead] + items, k + 1);
      }
    }

    lemma WithoutInItems(k: nat)
      requires Valid() && k < |items|
      ensures Without(items, items[k]) == items[..k] + items[k + 1..]
    {
      var s := [iHead] + items;
      assert forall i :: 0 <= i < |items| ==> items[i] == s[i + 1];
      WithoutAt(items, k);
    }
  }
}

/** What programs clean up, item by item, and with which action. */
module CleanUps {
  import opened Sequences
  import opened TrapPrograms
  import opened TrapStacks

  // ---------- The action of an item ----------

  /** How many of the items have the property. */
  ghost function Number(items: seq<Item>, has: Item -> bool): nat {
    if items == [] then 0 else Number(items[..|items| - 1], has) + (if has(items[|items| - 1]) then 1 else 0)
  }

  /** An item with a base is deleted, one with an operation is operated on, and one with a pointer alone is freed. */
  predicate Fits(a: Action, x: Item) {
    match a
    case Deleted(cbase) => cbase == x.cbase != 0
    case Operated(operation, tany) => x.cbase == 0 && operation == x.operation != 0 && tany == x.tany
    case Freed(tany) => x.cbase == 0 && x.operation == 0 && tany == x.tany != 0
  }

  lemma ActionOfOne(x: Item, a: Action)
    ensures multiset(CleanupOf(x))[a] == if Fits(a, x) then 1 else 0
  {
  }

  /** Each action happens exactly as often as there are items that it is for. */
  lemma {:induction false} ActionsCount(d: seq<Item>, a: Action)
    ensures multiset(Actions(d))[a] == Number(d, (x: Item) => Fits(a, x))
  {
    hide CleanupOf, Fits;
    if d != [] {
      ActionsCount(d[..|d| - 1], a);
      ActionOfOne(d[|d| - 1], a);
    }
  }

  /** The items that have something to clean up. */
  ghost function Loaded(d: seq<Item>): (r: seq<Item>) {
    if d == [] then []
    else
      var x := d[|d| - 1];
      Loaded(d[..|d| - 1]) + (if x.cbase != 0 || x.operation != 0 || x.tany != 0 then [x] else [])
  }

  /** The actions come in the order of the items. */
  lemma {:induction false} ActionsInOrder(d: seq<Item>)
    ensures |Actions(d)| == |Loaded(d)|
    ensures forall i :: 0 <= i < |Loaded(d)| ==> Fits(Actions(d)[i], Loaded(d)[i])
  {
    if d != [] {
      ActionsInOrder(d[..|d| - 1]);
    }
  }

  /**
   * Runs a program on a new thread. When it comes to its end, the stack is empty, and every item that was destroyed, and
   * no other, has been cleaned up by its own action, in order.
   */
  method Play(p: Prog) returns (out: Outcome, actions: seq<Action>, items: seq<Item>, caught: int)
    requires Run(p, START).1 != Misused
    ensures out == if Run(p, START).1 == Done then Normal else Aborted
    ensures out == Normal ==>
              var d := Run(p, START).0.destroyed;
              && items == [] && caught == Run(p, START).0.result
              && |actions| == |Loaded(d)| && (forall i :: 0 <= i < |actions| ==> Fits(actions[i], Loaded(d)[i]))
              && forall a :: multiset(actions)[a] == Number(d, (x: Item) => Fits(a, x))
  {
    var machine := new ErrorTrap();
    RunKeepsBelow(p, START);
    out := machine.Exec(p, START);
    actions, items, caught := machine.actions, machine.items, machine.caught;
    ghost var d := Run(p, START).0.destroyed;
    ActionsInOrder(d);
    forall a
      ensures multiset(Actions(d))[a] == Number(d, (x: Item) => Fits(a, x))
    {
      ActionsCount(d, a);
    }
  }

  // ---------- What is destroyed, and what is not ----------

  /** The topmost `n` items, from the top down. */
  ghost function TopDown(items: seq<Item>, n: nat): (r: seq<Item>)
    requires n <= |items|
    ensures |r| == n && forall i :: 0 <= i < n ==> r[i] == items[|items| - 1 - i]
  {
    seq(n, i requires 0 <= i < n => items[|items| - 1 - i])
  }

  /** The state after `n` items have been taken off one by one. */
  ghost function Without(s: State, n: nat, destroy: bool): (r: State)
    requires s.Depth() > 0 && n <= |s.Top()|
  {
    var off := TopDown(s.Top(), n);
    s.(released := s.released + if destroy then [] else off, destroyed := s.destroyed + if destroy then off else [],
       frames := s.frames[s.Depth() - 1 := s.Top()[..|s.Top()| - n]])
  }

  lemma WithoutNone(s: State, destroy: bool)
    requires s.Depth() > 0
    ensures Without(s, 0, destroy) == s
  {
    assert s.Top()[..|s.Top()|] == s.Top() && s.frames[s.Depth() - 1 := s.Top()] == s.frames;
    assert s.released + [] == s.released && s.destroyed + [] == s.destroyed;
  }

  lemma WithoutOneMore(s: State, n: nat, destroy: bool)
    requires s.Depth() > 0 && 0 < n <= |s.Top()|
    ensures var t := TakeOff(s, destroy);
            t.Depth() == s.Depth() && |t.Top()| == |s.Top()| - 1 && Without(t, n - 1, destroy) == Without(s, n, destroy)
  {
    var t, top := TakeOff(s, destroy), s.Top();
    var k := |top| - 1;
    assert t.Top() == top[..k] && top[..k][..k - (n - 1)] == top[..|top| - n];
    assert s.frames[s.Depth() - 1 := top[..k]][s.Depth() - 1 := top[..|top| - n]] == s.frames[s.Depth() - 1 := top[..|top| - n]];
    assert [top[k]] + TopDown(top[..k], n - 1) == TopDown(top, n);
    Join(s.released, [top[k]], TopDown(top[..k], n - 1));
    Join(s.destroyed, [top[k]], TopDown(top[..k], n - 1));
  }

  lemma Join(a: seq<Item>, b: seq<Item>, c: seq<Item>)
    ensures a + b + c == a + (b + c) && a + [] + [] == a + []
  {
  }

  /** Taking items off, they go from the top down, destroyed or released, and nothing else changes. */
  lemma {:induction false} PopTakesOff(s: State, n: nat, destroy: bool)
    requires s.Depth() > 0 && n <= |s.Top()|
    ensures RunPop(s, n, destroy) == (Without(s, n, destroy), Done)
    decreases n
  {
    hide TakeOff, Without;
    if n == 0 {
      WithoutNone(s, destroy);
    } else {
      WithoutOneMore(s, n, destroy);
      PopTakesOff(TakeOff(s, destroy), n - 1, destroy);
    }
  }

  /** Of the two statements that take items off, the first hands them back, and the second destroys them. */
  lemma PopAndPopDealloc(s: State, n: int)
    requires s.Depth() > 0 && 0 <= n <= |s.Top()|
    ensures var off, frames := TopDown(s.Top(), n), s.frames[s.Depth() - 1 := s.Top()[..|s.Top()| - n]];
            && Run(Pop(n), s) == (s.(released := s.released + off, frames := frames), Done)
            && Run(PopDealloc(n), s) == (s.(destroyed := s.destroyed + off, frames := frames), Done)
    ensures Run(Pop(-1 - n), s) == (s, Stopped) && Run(PopDealloc(-1 - n), s) == (s, Done)
  {
    PopTakesOff(s, n, false);
    PopTakesOff(s, n, true);
    Join(s.released, [], []);
    assert s.released + [] == s.released && s.destroyed + [] == s.destroyed;
  }

  lemma {:induction false} ReverseAt(items: seq<Item>, i: nat)
    requires i < |items|
    ensures Reverse(items)[i] == items[|items| - 1 - i]
  {
    if i > 0 {
      ReverseAt(items[..|items| - 1], i - 1);
    }
  }

  lemma ReverseIsTopDown(items: seq<Item>)
    ensures Reverse(items) == TopDown(items, |items|)
  {
    forall i | 0 <= i < |items|
      ensures Reverse(items)[i] == items[|items| - 1 - i]
    {
      ReverseAt(items, i);
    }
  }

  /** When there are too few, all are taken off, and the underflow, 112, is a leave. */
  lemma {:induction false} PopTooMany(s: State, n: nat, destroy: bool)
    requires s.Depth() > 0 && n > |s.Top()|
    ensures RunPop(s, n, destroy) == (Without(s, |s.Top()|, destroy), Left(112))
    decreases n
  {
    hide TakeOff, Without;
    if s.Top() == [] {
      WithoutNone(s, destroy);
      assert s.destroyed + [] == s.destroyed && s.frames[s.Depth() - 1 := []] == s.frames;
    } else {
      WithoutOneMore(s, |s.Top()|, destroy);
      PopTooMany(TakeOff(s, destroy), n - 1, destroy);
    }
  }

  /** Pushes the items one by one. */
  ghost function PushAll(items: seq<Item>): Prog {
    if items == [] then Skip else Seq(PushAll(items[..|items| - 1]), Push(items[|items| - 1]))
  }

  lemma {:induction false} PushesAll(items: seq<Item>, s: State)
    requires s.Depth() > 0 && forall x :: x in items ==> x.tany != MarkOf(Flat(s.frames[..s.Depth() - 1]))
    ensures Run(PushAll(items), s) == (s.(pushed := s.pushed + items).WithTop(s.Top() + items), Done)
  {
    if items == [] {
      assert s.pushed + [] == s.pushed && s.Top() + [] == s.Top();
      assert s.frames[s.Depth() - 1 := s.Top()] == s.frames;
    } else {
      var before, x := items[..|items| - 1], items[|items| - 1];
      PushesAll(before, s);
      assert items == before + [x];
      Join(s.pushed, before, [x]);
      Join(s.Top(), before, [x]);
      var t := s.(pushed := s.pushed + before).WithTop(s.Top() + before);
      assert t.frames[s.Depth() - 1 := s.Top() + items] == s.frames[s.Depth() - 1 := s.Top() + items];
    }
  }

  lemma PushedInTry(items: seq<Item>)
    requires forall x :: x in items ==> x.tany != 0
    ensures Run(PushAll(items), START.Enter()) == (State([items], 0, items, [], []), Done)
  {
    hide Run;
    var s := START.Enter();
    assert s.frames[..0] == [];
    PushesAll(items, s);
    assert [] + items == items && s.frames[0 := items] == [items];
  }

  lemma TryOf(first: Prog, last: Prog, s: State, t: State, e: End)
    requires Run(first, START.Enter()) == (s, Done) && Run(last, s) == (t, e) && t.frames == [[]] && e.Proceeds()
    ensures Run(Try(Seq(first, last)), START) == (t.(frames := [], result := if e.Done? then 0 else e.reason), Done)
  {
    assert t.frames[..0] == [];
    assert Run(Seq(first, last), START.Enter()) == (t, e);
  }

  lemma LeaveOf(s: State, reason: int)
    ensures Run(Leave(reason), s) == Leaving(s, reason)
  {
  }

  /** Items pushed in a try block that leaves are destroyed, last in first out, and the reason is reported. */
  lemma LeaveDestroys(items: seq<Item>, reason: int)
    requires forall x :: x in items ==> x.tany != 0
    ensures Run(Try(Seq(PushAll(items), Leave(reason))), START)
         == (State([], reason, items, [], TopDown(items, |items|)), Done)
  {
    hide TopDown, Run, PushAll, Reverse;
    PushedInTry(items);
    ReverseIsTopDown(items);
    var s := State([items], 0, items, [], []);
    LeaveOf(s, reason);
    assert [] + Reverse(items) == Reverse(items) && s.frames[0 := []] == [[]];
    TryOf(PushAll(items), Leave(reason), s, State([[]], 0, items, [], Reverse(items)), Left(reason));
  }

  /** Items that are taken off again are not. */
  lemma PopReleases(items: seq<Item>)
    requires forall x :: x in items ==> x.tany != 0
    ensures Run(Try(Seq(PushAll(items), Pop(|items|))), START)
         == (State([], 0, items, TopDown(items, |items|), []), Done)
  {
    hide TopDown, Run, PushAll;
    PushedInTry(items);
    var s, off := State([items], 0, items, [], []), TopDown(items, |items|);
    PopAndPopDealloc(s, |items|);
    assert items[..0] == [] && s.frames[0 := []] == [[]] && [] + off == off;
    TryOf(PushAll(items), Pop(|items|), s, State([[]], 0, items, off, []), Done);
  }

  /** Nothing behind a leave runs in its try block; the test behind the block sees whether there was a reason. */
  lemma LeaveSkips(reason: int, p: Prog, s: State)
    requires s.Depth() > 0
    ensures Run(Seq(Leave(reason), p), s) == Run(Leave(reason), s)
    ensures Run(Leave(reason), s).1 == Left(reason)
  {
  }

  lemma CaughtIsTested(body: Prog, p: Prog, q: Prog, s: State)
    requires Run(Try(body), s).1 == Done
    ensures var t, e := Run(Try(body), s).0, Run(body, s.Enter()).1;
            Run(Seq(Try(body), IfCaught(p, q)), s) == if e.Left? && e.reason != 0 then Run(p, t) else Run(q, t)
  {
    hide EndTry, Leaving, RunPop;
    TryRestores(body, s);
    assert Run(IfCaught(p, q), Run(Try(body), s).0) == if Run(Try(body), s).0.result != 0 then Run(p, Run(Try(body), s).0) else Run(q, Run(Try(body), s).0);
  }

  /** Outside any try block every use of the cleanup stack stops the process. */
  lemma OutsideAnyTrap(s: State, item: Item, n: int, reason: int)
    requires s.Depth() == 0 && n > 0
    ensures Run(Push(item), s) == Run(Pop(n), s) == Run(PopDealloc(n), s) == Run(Leave(reason), s) == (s, Stopped)
  {
  }

  /** Try blocks in try blocks. */
  ghost function Nested(n: nat): Prog {
    if n == 0 then Skip else Try(Nested(n - 1))
  }

  /** There can be twenty, one in the other, and no more. */
  lemma {:induction false} NestsTwenty(n: nat, s: State)
    requires s.Depth() <= 20
    ensures Run(Nested(n), s).1 == if s.Depth() + n <= 20 then Done else Stopped
    ensures s.Depth() + n <= 20 ==> Run(Nested(n), s).0.frames == s.frames
  {
    if n > 0 && s.Depth() < 20 {
      NestsTwenty(n - 1, s.Enter());
      assert s.Enter().frames[..s.Depth()] == s.frames;
    }
  }
}

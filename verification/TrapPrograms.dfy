/**
 * Programs that use traps and the cleanup stack, and what they are meant to do: each try block has a
 * frame of its own for what is pushed inside it, and a leave destroys that frame, last in first out.
 */
module TrapPrograms {
  import opened Sequences

  const MAX_TRAP_LEVELS: nat := 20
  const UNDERFLOW: int := 112

  /** A cleanup stack item; 0 is the null pointer. */
  datatype Item = Item(cbase: nat, tany: nat, operation: nat)

  datatype Prog =
    | Skip
    | Seq(first: Prog, second: Prog)
    | Push(item: Item)
    | Pop(count: int)
    | PopDealloc(count: int)
    | Leave(reason: int)
    | Try(body: Prog)
    /** Goes on by whether the last try block caught a leave. */
    | IfCaught(caught: Prog, notCaught: Prog)

  /** One frame for each open try block, the innermost last; what has been pushed, taken off, and destroyed, in order. */
  datatype State = State(frames: seq<seq<Item>>, result: int, pushed: seq<Item>, released: seq<Item>, destroyed: seq<Item>) {

    ghost function Depth(): nat {
      |frames|
    }

    ghost function Top(): seq<Item>
      requires Depth() > 0
    {
      frames[Depth() - 1]
    }

    /** A new, empty frame for a try block. */
    ghost function Enter(): (s: State)
      ensures s.Depth() == Depth() + 1 && s.Top() == [] && s.frames[..Depth()] == frames
    {
      this.(frames := frames + [[]])
    }

    ghost function WithTop(top: seq<Item>): (s: State)
      requires Depth() > 0
      ensures s.Depth() == Depth() && s.Top() == top && s.frames[..Depth() - 1] == frames[..Depth() - 1]
    {
      this.(frames := frames[Depth() - 1 := top])
    }
  }

  const START: State := State([], 0, [], [], [])

  /**
   * How a run ends: `Left` is a leave that no try block of the program has caught, `Stopped` is a failed assertion,
   * and `Misused` is the push of the very pointer that marks the current trap level.
   */
  datatype End = Done | Left(reason: int) | Stopped | Misused {
    predicate Proceeds() { Done? || Left? }
  }

  /** The pointer that marks a trap level entered on top of these items. */
  ghost function MarkOf(items: seq<Item>): nat {
    if items == [] then 0 else items[|items| - 1].tany
  }

  ghost function Reverse(items: seq<Item>): (r: seq<Item>)
    ensures |r| == |items|
  {
    if items == [] then [] else [items[|items| - 1]] + Reverse(items[..|items| - 1])
  }

  /** A leave: the innermost frame is destroyed. */
  ghost function Leaving(s: State, reason: int): (State, End) {
    if s.Depth() == 0 then (s, Stopped)
    else (s.(destroyed := s.destroyed + Reverse(s.Top())).WithTop([]), Left(reason))
  }

  lemma LeavingHas(s: State, reason: int)
    requires s.Depth() > 0
    ensures var r := Leaving(s, reason).0;
            && r.frames == s.WithTop([]).frames && r.destroyed == s.destroyed + Reverse(s.Top())
            && r.result == s.result && r.Depth() == s.Depth()
  {
  }

  lemma TakeOffHas(s: State, destroy: bool)
    requires s.Depth() > 0 && s.Top() != []
    ensures var n, r := |s.Top()| - 1, TakeOff(s, destroy);
            && r.frames == s.WithTop(s.Top()[..n]).frames && r.result == s.result && r.Depth() == s.Depth()
            && r.destroyed == s.destroyed + (if destroy then [s.Top()[n]] else [])
  {
  }

  /** The state after taking the topmost item off, or destroying it. */
  ghost function TakeOff(s: State, destroy: bool): State
    requires s.Depth() > 0 && s.Top() != []
  {
    var n := |s.Top()| - 1;
    if destroy then s.(destroyed := s.destroyed + [s.Top()[n]]).WithTop(s.Top()[..n])
    else s.(released := s.released + [s.Top()[n]]).WithTop(s.Top()[..n])
  }

  /** Takes `count` items off one by one, destroying them or not; an empty frame makes it leave. */
  ghost function RunPop(s: State, count: nat, destroy: bool): (State, End)
    decreases count
  {
    if count == 0 then (s, Done)
    else if s.Depth() == 0 || s.Top() == [] then Leaving(s, UNDERFLOW)
    else RunPop(TakeOff(s, destroy), count - 1, destroy)
  }

  /** The end of a try block: a body that completes must have taken off what it pushed. */
  ghost function EndTry(s: State, e: End): (State, End) {
    if !e.Proceeds() then (s, e)
    else if s.Depth() == 0 || (e.Done? && s.Top() != []) then (s, Stopped)
    else (s.(frames := s.frames[..s.Depth() - 1], result := if e.Done? then 0 else e.reason), Done)
  }

  ghost function Run(p: Prog, s: State): (r: (State, End))
    decreases p
  {
    match p
    case Skip => (s, Done)
    case Seq(first, second) =>
      var (s1, e1) := Run(first, s);
      if e1.Done? then Run(second, s1) else (s1, e1)
    case Push(item) =>
      if s.Depth() == 0 then (s, Stopped)
      else if item.tany == MarkOf(Flat(s.frames[..s.Depth() - 1])) then (s, Misused)
      else (s.(pushed := s.pushed + [item]).WithTop(s.Top() + [item]), Done)
    case Pop(count) => if count < 0 then (s, Stopped) else RunPop(s, count, false)
    case PopDealloc(count) => RunPop(s, if count < 0 then 0 else count, true)
    case Leave(reason) => Leaving(s, reason)
    case Try(body) =>
      if s.Depth() >= MAX_TRAP_LEVELS then (s, Stopped)
      else
        var (s1, e1) := Run(body, s.Enter());
        EndTry(s1, e1)
    case IfCaught(caught, notCaught) =>
      if s.result != 0 then Run(caught, s) else Run(notCaught, s)
  }

  // ---------- What every program keeps ----------

  /** Same depth, the frames below the innermost untouched, and a leave has emptied the innermost. */
  ghost predicate KeepsBelow(s: State, r: (State, End)) {
    r.1.Proceeds() ==>
      && r.0.Depth() == s.Depth()
      && (s.Depth() > 0 ==> r.0.frames[..s.Depth() - 1] == s.frames[..s.Depth() - 1])
      && (r.1.Left? ==> s.Depth() > 0 && r.0.Top() == [])
  }

  lemma KeepsBelowTwice(s: State, t: State, r: (State, End))
    requires KeepsBelow(s, (t, Done)) && KeepsBelow(t, r)
    ensures KeepsBelow(s, r)
  {
  }

  lemma EndTryKeepsBelow(s: State, r: (State, End))
    requires KeepsBelow(s.Enter(), r)
    ensures KeepsBelow(s, EndTry(r.0, r.1))
    ensures r.1.Proceeds() && EndTry(r.0, r.1).1.Done? ==> EndTry(r.0, r.1).0.frames == s.frames
  {
    assert s.Enter().frames[..s.Depth()] == s.frames;
  }

  lemma {:induction false} RunPopKeepsBelow(s: State, count: nat, destroy: bool)
    ensures KeepsBelow(s, RunPop(s, count, destroy))
    decreases count
  {
    if count > 0 && s.Depth() > 0 && s.Top() != [] {
      RunPopKeepsBelow(TakeOff(s, destroy), count - 1, destroy);
    }
  }

  lemma {:induction false} RunKeepsBelow(p: Prog, s: State)
    ensures KeepsBelow(s, Run(p, s))
    decreases p
  {
    match p
    case Seq(first, second) =>
      hide KeepsBelow;
      RunKeepsBelow(first, s);
      RunKeepsBelow(second, Run(first, s).0);
      if Run(first, s).1.Done? { KeepsBelowTwice(s, Run(first, s).0, Run(second, Run(first, s).0)); }
    case Try(body) =>
      RunKeepsBelow(body, s.Enter());
      EndTryKeepsBelow(s, Run(body, s.Enter()));
    case IfCaught(caught, notCaught) =>
      RunKeepsBelow(caught, s);
      RunKeepsBelow(notCaught, s);
    case Pop(count) => if count >= 0 { RunPopKeepsBelow(s, count, false); }
    case PopDealloc(count) => RunPopKeepsBelow(s, if count < 0 then 0 else count, true);
    case _ =>
  }

  /**
   * A try block that is not stopped always completes, reports how its body ended, and leaves the cleanup stack
   * as it found it.
   */
  lemma TryRestores(body: Prog, s: State)
    requires Run(Try(body), s).1.Proceeds()
    ensures Run(Try(body), s).1 == Done && Run(Try(body), s).0.frames == s.frames
    ensures var e := Run(body, s.Enter()).1;
            Run(Try(body), s).0.result == if e.Left? then e.reason else 0
  {
    RunKeepsBelow(body, s.Enter());
    EndTryKeepsBelow(s, Run(body, s.Enter()));
  }

  /** How often `x` is on the stack, or has been released or destroyed, beyond how often it has been pushed. */
  ghost function Balance(s: State, x: Item): int {
    var there: int := multiset(Flat(s.frames))[x] + multiset(s.released)[x] + multiset(s.destroyed)[x];
    there - multiset(s.pushed)[x]
  }

  lemma FlatWithTop(s: State, top: seq<Item>)
    requires s.Depth() > 0
    ensures Flat(s.WithTop(top).frames) == Flat(s.frames[..s.Depth() - 1]) + top
    ensures Flat(s.frames) == Flat(s.frames[..s.Depth() - 1]) + s.Top()
  {
    assert s.WithTop(top).frames[..s.Depth() - 1] == s.frames[..s.Depth() - 1];
  }

  lemma EnterConserves(s: State, x: Item)
    ensures Balance(s.Enter(), x) == Balance(s, x)
  {
    assert s.Enter().frames[..s.Depth()] == s.frames;
    assert Flat(s.Enter().frames) == Flat(s.frames);
  }

  lemma EndTryConserves(s: State, e: End, x: Item)
    requires s.Depth() > 0 && e.Proceeds() && s.Top() == []
    ensures Balance(EndTry(s, e).0, x) == Balance(s, x)
  {
    FlatWithTop(s, []);
  }

  lemma PushConserves(s: State, item: Item, x: Item)
    requires s.Depth() > 0
    ensures Balance(s.(pushed := s.pushed + [item]).WithTop(s.Top() + [item]), x) == Balance(s, x)
  {
    FlatWithTop(s.(pushed := s.pushed + [item]), s.Top() + [item]);
    FlatWithTop(s, []);
  }

  lemma {:induction false} ReverseIsPermutation(items: seq<Item>)
    ensures multiset(Reverse(items)) == multiset(items)
  {
    if items != [] {
      ReverseIsPermutation(items[..|items| - 1]);
      assert items == items[..|items| - 1] + [items[|items| - 1]];
    }
  }

  lemma LeavingConserves(s: State, reason: int, x: Item)
    requires s.Depth() > 0
    ensures Balance(Leaving(s, reason).0, x) == Balance(s, x)
  {
    FlatWithTop(s.(destroyed := s.destroyed + Reverse(s.Top())), []);
    ReverseIsPermutation(s.Top());
  }

  lemma TakeOffConserves(s: State, destroy: bool, x: Item)
    requires s.Depth() > 0 && s.Top() != []
    ensures Balance(TakeOff(s, destroy), x) == Balance(s, x)
  {
    var n := |s.Top()| - 1;
    FlatWithTop(s, s.Top()[..n]);
    FlatWithTop(s.(released := s.released + [s.Top()[n]]), s.Top()[..n]);
    FlatWithTop(s.(destroyed := s.destroyed + [s.Top()[n]]), s.Top()[..n]);
    assert s.Top() == s.Top()[..n] + [s.Top()[n]];
  }

  lemma {:induction false} RunPopConserves(s: State, count: nat, destroy: bool, x: Item)
    requires RunPop(s, count, destroy).1.Proceeds()
    ensures Balance(RunPop(s, count, destroy).0, x) == Balance(s, x)
    decreases count
  {
    if count > 0 {
      if s.Top() == [] {
        LeavingConserves(s, UNDERFLOW, x);
      } else {
        TakeOffConserves(s, destroy, x);
        RunPopConserves(TakeOff(s, destroy), count - 1, destroy, x);
      }
    }
  }

  lemma {:induction false} RunConserves(p: Prog, s: State, x: Item)
    requires Run(p, s).1.Proceeds()
    ensures Balance(Run(p, s).0, x) == Balance(s, x)
    decreases p
  {
    hide Balance;
    match p
    case Skip =>
    case Seq(first, second) =>
      RunConserves(first, s, x);
      if Run(first, s).1.Done? {
        RunConserves(second, Run(first, s).0, x);
      }
    case Push(item) =>
      PushConserves(s, item, x);
    case Pop(count) => RunPopConserves(s, count, false, x);
    case PopDealloc(count) => RunPopConserves(s, if count < 0 then 0 else count, true, x);
    case Leave(reason) => LeavingConserves(s, reason, x);
    case Try(body) =>
      RunConserves(body, s.Enter(), x);
      RunKeepsBelow(body, s.Enter());
      EnterConserves(s, x);
      EndTryConserves(Run(body, s.Enter()).0, Run(body, s.Enter()).1, x);
    case IfCaught(caught, notCaught) =>
      if s.result != 0 { RunConserves(caught, s, x); } else { RunConserves(notCaught, s, x); }
  }

  /**
   * A whole program, started outside any trap: when it completes, every item it pushed has been taken off by the
   * program or destroyed, and exactly once.
   */
  lemma NothingLeaks(p: Prog)
    requires Run(p, START).1.Proceeds()
    ensures var r := Run(p, START);
            && r.1 == Done && r.0.frames == []
            && multiset(r.0.pushed) == multiset(r.0.released) + multiset(r.0.destroyed)
  {
    var r := Run(p, START).0;
    RunKeepsBelow(p, START);
    forall x
      ensures multiset(r.pushed)[x] == multiset(r.released)[x] + multiset(r.destroyed)[x]
    {
      RunConserves(p, START, x);
    }
  }

  // ---------- Programs that push each pointer once ----------

  /** The pointers a program may push. */
  ghost function Pointers(p: Prog): set<nat> {
    match p
    case Seq(first, second) => Pointers(first) + Pointers(second)
    case Push(item) => {item.tany}
    case Try(body) => Pointers(body)
    case IfCaught(caught, notCaught) => Pointers(caught) + Pointers(notCaught)
    case _ => {}
  }

  ghost predicate PushesOnce(p: Prog) {
    match p
    case Seq(first, second) => PushesOnce(first) && PushesOnce(second) && Pointers(first) !! Pointers(second)
    case Try(body) => PushesOnce(body)
    case IfCaught(caught, notCaught) => PushesOnce(caught) && PushesOnce(notCaught)
    case _ => true
  }

  ghost function Live(items: seq<Item>): set<nat> {
    set x | x in items :: x.tany
  }

  lemma LiveOfTop(s: State, top: seq<Item>)
    requires s.Depth() > 0
    ensures Live(Flat(s.WithTop(top).frames)) == Live(Flat(s.frames[..s.Depth() - 1])) + Live(top)
    ensures Live(Flat(s.frames)) == Live(Flat(s.frames[..s.Depth() - 1])) + Live(s.Top())
  {
    FlatWithTop(s, top);
  }

  lemma {:induction false} PopKeepsLive(s: State, count: nat, destroy: bool)
    ensures RunPop(s, count, destroy).1 != Misused
    ensures Live(Flat(RunPop(s, count, destroy).0.frames)) <= Live(Flat(s.frames))
    decreases count
  {
    if count > 0 && s.Depth() > 0 {
      LiveOfTop(s, []);
      LiveOfTop(s.(destroyed := s.destroyed + Reverse(s.Top())), []);
      if s.Top() != [] {
        var n := |s.Top()| - 1;
        LiveOfTop(s.(destroyed := s.destroyed + [s.Top()[n]]), s.Top()[..n]);
        LiveOfTop(s.(released := s.released + [s.Top()[n]]), s.Top()[..n]);
        PopKeepsLive(TakeOff(s, destroy), count - 1, destroy);
      }
    }
  }

  /** A program that pushes no null pointer, and no pointer twice, never pushes the one that marks its trap level. */
  lemma {:induction false} DistinctPointersAreSafe(p: Prog, s: State)
    requires PushesOnce(p) && 0 !in Pointers(p) && Pointers(p) !! Live(Flat(s.frames))
    ensures Run(p, s).1 != Misused
    ensures Run(p, s).1.Proceeds() ==> Live(Flat(Run(p, s).0.frames)) <= Live(Flat(s.frames)) + Pointers(p)
    decreases p
  {
    hide Live, Flat, MarkOf;
    match p
    case Skip =>
    case Seq(first, second) =>
      DistinctPointersAreSafe(first, s);
      if Run(first, s).1.Done? {
        DistinctPointersAreSafe(second, Run(first, s).0);
      }
    case Push(item) => if s.Depth() > 0 { PushIsLive(s, item); }
    case Pop(count) => if count >= 0 { PopKeepsLive(s, count, false); }
    case PopDealloc(count) => PopKeepsLive(s, if count < 0 then 0 else count, true);
    case Leave(reason) => if s.Depth() > 0 { LeavingKeepsLive(s, reason); }
    case Try(body) =>
      EnterKeepsLive(s);
      DistinctPointersAreSafe(body, s.Enter());
      RunKeepsBelow(body, s.Enter());
    case IfCaught(caught, notCaught) =>
      DistinctPointersAreSafe(if s.result != 0 then caught else notCaught, s);
  }

  lemma PushIsLive(s: State, item: Item)
    requires s.Depth() > 0
    ensures var mark := MarkOf(Flat(s.frames[..s.Depth() - 1]));
            mark == 0 || mark in Live(Flat(s.frames))
    ensures Live(Flat(s.(pushed := s.pushed + [item]).WithTop(s.Top() + [item]).frames)) == Live(Flat(s.frames)) + {item.tany}
  {
    LiveOfTop(s, []);
    LiveOfTop(s.(pushed := s.pushed + [item]), s.Top() + [item]);
    assert Live(s.Top() + [item]) == Live(s.Top()) + {item.tany};
    MarkIsLive(Flat(s.frames[..s.Depth() - 1]));
  }

  lemma LeavingKeepsLive(s: State, reason: int)
    requires s.Depth() > 0
    ensures Live(Flat(Leaving(s, reason).0.frames)) <= Live(Flat(s.frames))
  {
    LiveOfTop(s.(destroyed := s.destroyed + Reverse(s.Top())), []);
    LiveOfTop(s, []);
  }

  lemma EnterKeepsLive(s: State)
    ensures Flat(s.Enter().frames) == Flat(s.frames)
  {
    assert s.Enter().frames[..s.Depth()] == s.frames && Flat(s.Enter().frames) == Flat(s.frames);
  }

  lemma MarkIsLive(items: seq<Item>)
    ensures MarkOf(items) == 0 || MarkOf(items) in Live(items)
  {
    if items != [] {
      assert items[|items| - 1] in items;
    }
  }
}

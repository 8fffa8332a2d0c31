/**
 * The trap and cleanup stack of one thread: the list of cleanup items, the bounded stack of trap marks, each the
 * pointer of the item that was on top when the trap was entered, and the bounded stack of jump marks.
 */
module TrapStacks {
  import opened Sequences
  import opened TrapPrograms

  /** What cleaning up an item does. */
  datatype Action = Deleted(cbase: nat) | Operated(operation: nat, tany: nat) | Freed(tany: nat)

  /** How statements end: normally, by a jump to a jump mark, or by a failed assertion. */
  datatype Outcome = Normal | Jump(mark: int) | Aborted

  function CleanupOf(item: Item): seq<Action> {
    if item.cbase != 0 then [Deleted(item.cbase)]
    else if item.operation != 0 then [Operated(item.operation, item.tany)]
    else if item.tany != 0 then [Freed(item.tany)]
    else []
  }

  ghost function Actions(items: seq<Item>): seq<Action> {
    if items == [] then [] else Actions(items[..|items| - 1]) + CleanupOf(items[|items| - 1])
  }

  lemma NoActions()
    ensures Actions([]) == []
  {
  }

  lemma ActionsOfOneMore(a: seq<Item>, x: Item)
    ensures Actions(a + [x]) == Actions(a) + CleanupOf(x)
  {
    assert (a + [x])[..|a|] == a;
  }

  lemma {:induction false} ActionsOfBoth(a: seq<Item>, b: seq<Item>)
    ensures Actions(a + b) == Actions(a) + Actions(b)
  {
    hide Actions, CleanupOf;
    if b == [] {
      NoActions();
      assert a + b == a;
    } else {
      var n := |b| - 1;
      ActionsOfBoth(a, b[..n]);
      ActionsOfOneMore(a + b[..n], b[n]);
      ActionsOfOneMore(b[..n], b[n]);
      assert a + b == (a + b[..n]) + [b[n]] && b == b[..n] + [b[n]];
    }
  }

  // ---------- The clean-up of a leave ----------

  /** Destroys items from the top down to the mark: what stays, and what is destroyed, in order. */
  ghost function CleanUp(items: seq<Item>, mark: nat): (seq<Item>, seq<Item>) {
    if items == [] || items[|items| - 1].tany == mark then (items, [])
    else
      var (rest, destroyed) := CleanUp(items[..|items| - 1], mark);
      (rest, [items[|items| - 1]] + destroyed)
  }

  /**
   * Above the item whose pointer is the mark, a leave destroys exactly what was pushed, last in first out, if and only
   * if none of it carries the mark's pointer again.
   */
  lemma {:induction false} CleanUpIsExact(below: seq<Item>, above: seq<Item>)
    ensures CleanUp(below + above, MarkOf(below)) == (below, Reverse(above))
       <==> forall x :: x in above ==> x.tany != MarkOf(below)
  {
    var items := below + above;
    if above == [] {
      assert items == below;
    } else {
      var n := |above| - 1;
      var last := above[n];
      assert items[..|items| - 1] == below + above[..n];
      assert above == above[..n] + [last] && last in above;
      CleanUpIsExact(below, above[..n]);
      if last.tany == MarkOf(below) {
        assert CleanUp(items, MarkOf(below)) == (items, []);
        assert |items| > |below|;
      } else {
        assert CleanUp(items, MarkOf(below)).1 == [last] + CleanUp(below + above[..n], MarkOf(below)).1;
        assert Reverse(above) == [last] + Reverse(above[..n]);
        assert CleanUp(items, MarkOf(below)).1 == Reverse(above) ==>
                 CleanUp(below + above[..n], MarkOf(below)).1 == CleanUp(items, MarkOf(below)).1[1..] == Reverse(above[..n]);
        assert (forall x :: x in above ==> x.tany != MarkOf(below)) <==> (forall x :: x in above[..n] ==> x.tany != MarkOf(below));
      }
    }
  }

  /** A null pointer, pushed first in the outermost trap, is such an item: a leave does not destroy it. */
  lemma NullPointerIsKept(x: Item)
    requires x.tany == 0
    ensures CleanUp([] + [x], MarkOf([])) == ([x], [])
    ensures Run(Try(Seq(Push(x), Leave(UNDERFLOW))), START).1 == Misused
  {
    var items, s := [] + [x], START.Enter();
    assert items[|items| - 1] == x && items == [x];
    assert s.frames[..s.Depth() - 1] == [];
    assert Run(Push(x), s) == (s, Misused);
  }

  // ---------- The stack as a value ----------

  /** The items and the marks of the trap levels stand for the frames of `s`. */
  ghost predicate Frames(items: seq<Item>, marks: seq<nat>, frames: seq<seq<Item>>) {
    && items == Flat(frames) && |frames| <= |marks|
    && (forall k :: 0 <= k < |frames| ==> marks[k] == MarkOf(Flat(frames[..k])))
    && (forall k, x: Item :: 0 <= k < |frames| && x in frames[k] ==> x.tany != marks[k])
  }

  /** Replacing the innermost frame. */
  lemma FramesWithTop(items: seq<Item>, marks: seq<nat>, s: State, top: seq<Item>)
    requires Frames(items, marks, s.frames) && s.Depth() > 0
    requires forall x :: x in top ==> x.tany != marks[s.Depth() - 1]
    ensures Frames(Flat(s.frames[..s.Depth() - 1]) + top, marks, s.WithTop(top).frames)
    ensures items == Flat(s.frames[..s.Depth() - 1]) + s.Top()
    ensures marks[s.Depth() - 1] == MarkOf(Flat(s.frames[..s.Depth() - 1]))
  {
    FlatWithTop(s, top);
    var d, f := s.Depth(), s.WithTop(top).frames;
    forall k | 0 <= k < d
      ensures f[..k] == s.frames[..k]
    {
      assert f[..d - 1][..k] == f[..k];
    }
    forall k, x: Item | 0 <= k < d && x in f[k]
      ensures x.tany != marks[k]
    {
      if k < d - 1 {
        assert f[k] == f[..d - 1][k];
      }
    }
  }

  lemma FramesEnter(items: seq<Item>, marks: seq<nat>, s: State)
    requires Frames(items, marks, s.frames) && s.Depth() < |marks|
    ensures Frames(items, marks[s.Depth() := MarkOf(items)], s.Enter().frames)
  {
    var d, f := s.Depth(), s.Enter().frames;
    forall k | 0 <= k <= d
      ensures f[..k] == s.frames[..k]
    {
      assert f[..d][..k] == f[..k];
    }
    assert s.frames[..d] == s.frames;
    assert Flat(f) == Flat(f[..d]) + f[d];
  }

  lemma FramesEnd(items: seq<Item>, marks: seq<nat>, s: State)
    requires Frames(items, marks, s.frames) && s.Depth() > 0 && s.Top() == []
    ensures Frames(items, marks, s.frames[..s.Depth() - 1])
  {
    var d, f := s.Depth(), s.frames[..s.Depth() - 1];
    forall k | 0 <= k < d
      ensures f[..k] == s.frames[..k]
    {
    }
    assert Flat(s.frames) == Flat(f) + [];
  }

  // ---------- The implementation ----------

  class ErrorTrap {
    /** The cleanup stack, its top last. */
    var items: seq<Item>
    /** The pointers of the trap marks. */
    const trapTopArray: array<nat>
    var trapTopIndex: int
    var jumpIndex: int
    var leave: int
    /** The result variable of the last try block. */
    var caught: int
    /** Everything cleaned up so far. */
    var actions: seq<Action>

    ghost function Marks(): (m: seq<nat>)
      reads trapTopArray
      ensures |m| == trapTopArray.Length && forall k :: 0 <= k < |m| ==> m[k] == trapTopArray[k]
    {
      trapTopArray[..]
    }

    ghost predicate Represents(s: State)
      reads this, trapTopArray
    {
      && trapTopArray.Length == MAX_TRAP_LEVELS
      && trapTopIndex + 1 == jumpIndex + 1 == s.Depth()
      && Frames(items, Marks(), s.frames)
      && actions == Actions(s.destroyed)
      && caught == s.result
    }

    constructor ()
      ensures Represents(START) && leave == 0 && fresh(trapTopArray)
    {
      items, actions := [], [];
      trapTopArray := new nat[MAX_TRAP_LEVELS];
      trapTopIndex, jumpIndex, leave, caught := -1, -1, 0, 0;
    }

    /** Enters a trap level. */
    method Trap(ghost s: State) returns (out: Outcome)
      requires Represents(s)
      modifies this, trapTopArray
      ensures out == if s.Depth() < MAX_TRAP_LEVELS then Normal else Aborted
      ensures out == Normal ==> Represents(s.Enter()) && leave == 0 && jumpIndex == s.Depth()
    {
      hide Frames, Actions, Flat, ErrorTrap.Marks;
      ghost var marks := Marks();
      leave := 0;
      var mark := if items != [] then items[|items| - 1].tany else 0;
      if !(trapTopIndex < MAX_TRAP_LEVELS - 1) {
        return Aborted;
      }
      FramesEnter(items, marks, s);
      trapTopIndex := trapTopIndex + 1;
      trapTopArray[trapTopIndex] := mark;
      if !(jumpIndex < MAX_TRAP_LEVELS - 1) {
        return Aborted;
      }
      jumpIndex := jumpIndex + 1;
      assert Marks() == marks[s.Depth() := MarkOf(items)];
      return Normal;
    }

    lemma LastIsAbove(items: seq<Item>, below: seq<Item>, top: seq<Item>)
      requires items == below + top && forall x :: x in top ==> x.tany != MarkOf(below)
      ensures (items != [] && items[|items| - 1].tany != MarkOf(below)) <==> top != []
    {
      if top != [] {
        assert items[|items| - 1] == top[|top| - 1];
      }
    }

    /** Leaves a trap level; everything pushed in it must be off the stack. */
    method UnTrap(ghost s: State) returns (out: Outcome)
      requires Represents(s) && s.Depth() > 0
      modifies this
      ensures leave == 0 && caught == old(caught)
      ensures out == if s.Top() == [] then Normal else Aborted
      ensures out == Normal ==> Represents(s.(frames := s.frames[..s.Depth() - 1]))
    {
      leave := 0;
      FramesWithTop(items, Marks(), s, []);
      TopIsUnmarked(s);
      var notEmpty := items != [] && items[|items| - 1].tany != trapTopArray[trapTopIndex];
      LastIsAbove(items, Flat(s.frames[..s.Depth() - 1]), s.Top());
      if s.Top() == [] {
        FramesEnd(items, Marks(), s);
      }
      trapTopIndex := trapTopIndex - 1;
      jumpIndex := jumpIndex - 1;
      if notEmpty {
        return Aborted;
      }
      return Normal;
    }

    method PushL(item: Item, ghost s: State) returns (out: Outcome)
      requires Represents(s)
      requires s.Depth() > 0 ==> item.tany != MarkOf(Flat(s.frames[..s.Depth() - 1]))
      modifies this`items
      ensures out == if s.Depth() == 0 then Aborted else Normal
      ensures out == Normal ==> Represents(s.(pushed := s.pushed + [item]).WithTop(s.Top() + [item]))
    {
      if !(trapTopIndex >= 0) {
        return Aborted;
      }
      FramesWithTop(items, Marks(), s, s.Top() + [item]);
      items := items + [item];
      return Normal;
    }

    /** Nothing in the current trap level is left to take off. */
    predicate AtMark()
      requires trapTopIndex < trapTopArray.Length
      reads this, trapTopArray
    {
      items == [] || (trapTopIndex >= 0 && items[|items| - 1].tany == trapTopArray[trapTopIndex])
    }

    lemma AtMarkIsEmptyTop(s: State)
      requires Represents(s)
      ensures trapTopIndex < trapTopArray.Length
      ensures AtMark() <==> s.Depth() == 0 || s.Top() == []
      ensures !AtMark() ==> items[|items| - 1] == s.Top()[|s.Top()| - 1]
                            && items[..|items| - 1] == Flat(s.frames[..s.Depth() - 1]) + s.Top()[..|s.Top()| - 1]
    {
      if s.Depth() > 0 {
        FramesWithTop(items, Marks(), s, []);
        if s.Top() != [] {
          assert items[|items| - 1] == s.Top()[|s.Top()| - 1] && s.Top()[|s.Top()| - 1] in s.frames[s.Depth() - 1];
        }
      }
    }

    /** Takes the topmost item off, after cleaning it up if `destroy` says so. */
    method TakeTop(destroy: bool)
      requires items != []
      modifies this`items, this`actions
      ensures items == old(items)[..|old(items)| - 1]
      ensures actions == old(actions) + if destroy then CleanupOf(old(items)[|old(items)| - 1]) else []
    {
      if destroy {
        actions := actions + CleanupOf(items[|items| - 1]);
      }
      items := items[..|items| - 1];
    }

    /** Cleans up the current trap level. */
    method CleanUpLevel()
      requires 0 <= trapTopIndex < trapTopArray.Length
      modifies this`items, this`actions
      ensures items == CleanUp(old(items), trapTopArray[trapTopIndex]).0
      ensures actions == old(actions) + Actions(CleanUp(old(items), trapTopArray[trapTopIndex]).1)
    {
      hide Actions;
      NoActions();
      ghost var mark, destroyed := trapTopArray[trapTopIndex], [];
      assert destroyed + CleanUp(items, mark).1 == CleanUp(items, mark).1;
      while items != [] && items[|items| - 1].tany != trapTopArray[trapTopIndex]
        invariant trapTopArray[trapTopIndex] == mark
        invariant CleanUp(old(items), mark) == (CleanUp(items, mark).0, destroyed + CleanUp(items, mark).1)
        invariant actions == old(actions) + Actions(destroyed)
        decreases |items|
      {
        ghost var last, rest := items[|items| - 1], CleanUp(items[..|items| - 1], mark).1;
        ActionsOfOneMore(destroyed, last);
        assert destroyed + ([last] + rest) == destroyed + [last] + rest;
        destroyed := destroyed + [last];
        TakeTop(true);
      }
      assert destroyed + [] == destroyed;
    }

    lemma TopIsUnmarked(s: State)
      requires Represents(s) && s.Depth() > 0
      ensures s.Depth() <= trapTopArray.Length
      ensures trapTopArray[trapTopIndex] == Marks()[s.Depth() - 1] == MarkOf(Flat(s.frames[..s.Depth() - 1]))
      ensures forall x :: x in s.Top() ==> x.tany != Marks()[s.Depth() - 1]
    {
    }

    /** Starts a leave: cleans up the current trap level and jumps to the innermost jump mark. */
    method Leave(reason: int, ghost s: State) returns (out: Outcome)
      requires Represents(s) && leave == 0
      modifies this`items, this`actions, this`leave
      ensures s.Depth() == 0 ==> out == Aborted
      ensures s.Depth() > 0 ==>
                out == Jump(s.Depth() - 1) && leave == reason && Represents(Leaving(s, reason).0)
    {
      hide Frames, Actions, Flat, CleanUp, Reverse, Leaving, ErrorTrap.Marks;
      if leave != 0 {
        return Aborted;
      }
      leave := reason;
      if !(trapTopIndex >= 0) {
        return Aborted;
      }
      ghost var below := Flat(s.frames[..s.Depth() - 1]);
      FramesWithTop(items, Marks(), s, []);
      TopIsUnmarked(s);
      CleanUpIsExact(below, s.Top());
      LeavingHas(s, reason);
      CleanUpLevel();
      ActionsOfBoth(s.destroyed, Reverse(s.Top()));
      assert items == below + [];
      return Jump(jumpIndex);
    }

    /** Takes one item off; underflow, also of the current trap level, is a leave. */
    method PopOne(destroy: bool, ghost s: State) returns (out: Outcome)
      requires Represents(s) && leave == 0
      modifies this`items, this`actions, this`leave
      ensures s.Depth() == 0 ==> out == Aborted
      ensures s.Depth() > 0 && s.Top() == [] ==>
                out == Jump(s.Depth() - 1) && leave == UNDERFLOW && Represents(Leaving(s, UNDERFLOW).0)
      ensures s.Depth() > 0 && s.Top() != [] ==> out == Normal && leave == 0 && Represents(TakeOff(s, destroy))
    {
      hide Frames, Actions, Flat, CleanupOf, Leaving, TakeOff, ErrorTrap.Marks, ErrorTrap.AtMark;
      AtMarkIsEmptyTop(s);
      if AtMark() {
        out := Leave(UNDERFLOW, s);
        return;
      }
      ghost var n := |s.Top()| - 1;
      TopIsUnmarked(s);
      FramesWithTop(items, Marks(), s, s.Top()[..n]);
      ActionsOfOneMore(s.destroyed, s.Top()[n]);
      TakeOffHas(s, destroy);
      assert s.destroyed + [] == s.destroyed;
      TakeTop(destroy);
      return Normal;
    }

    /** How the machine stands after a run that ended as `r` says. */
    ghost predicate Matches(r: (State, End), out: Outcome)
      reads this, trapTopArray
    {
      match r.1
      case Done => out == Normal && Represents(r.0) && leave == 0
      case Left(reason) => out == Jump(r.0.Depth() - 1) && Represents(r.0) && leave == reason
      case Stopped => out == Aborted
      case Misused => false
    }

    method Pop(count: int, destroy: bool, ghost s: State) returns (out: Outcome)
      requires Represents(s) && leave == 0
      modifies this`items, this`actions, this`leave
      ensures Matches(RunPop(s, if count < 0 then 0 else count, destroy), out)
    {
      hide Frames, Actions, Leaving, TakeOff;
      var i := 0;
      ghost var t, total: nat := s, if count < 0 then 0 else count;
      while i < count
        invariant Represents(t) && leave == 0
        invariant 0 <= i <= total
        invariant RunPop(s, total, destroy) == RunPop(t, total - i, destroy)
      {
        out := PopOne(destroy, t);
        if out != Normal {
          LeavingEnds(t);
          return;
        }
        t := TakeOff(t, destroy);
        i := i + 1;
      }
      return Normal;
    }

    lemma LeavingEnds(s: State)
      ensures Leaving(s, UNDERFLOW).1 == if s.Depth() == 0 then Stopped else Left(UNDERFLOW)
      ensures Leaving(s, UNDERFLOW).0.Depth() == s.Depth()
    {
    }

    /** Runs a program; a jump goes to the try block that set the jump mark. */
    method Exec(p: Prog, ghost s: State) returns (out: Outcome)
      requires Represents(s) && leave == 0 && Run(p, s).1 != Misused
      modifies this, trapTopArray
      ensures Matches(Run(p, s), out)
      decreases p, 1
    {
      match p {
        case Skip =>
          out := Normal;
        case Seq(first, second) =>
          out := Exec(first, s);
          if out == Normal {
            out := Exec(second, Run(first, s).0);
          }
        case Push(item) =>
          out := PushL(item, s);
        case Pop(count) =>
          if !(count >= 0) {
            return Aborted;
          }
          out := Pop(count, false, s);
        case PopDealloc(count) =>
          out := Pop(count, true, s);
        case Leave(reason) =>
          out := Leave(reason, s);
        case Try(body) =>
          out := ExecTry(body, s);
        case IfCaught(yes, no) =>
          if caught != 0 {
            out := Exec(yes, s);
          } else {
            out := Exec(no, s);
          }
      }
    }

    /** A try block: sets its mark, runs the body, and picks up a leave that jumps to its mark. */
    method ExecTry(body: Prog, ghost s: State) returns (out: Outcome)
      requires Represents(s) && leave == 0 && Run(Try(body), s).1 != Misused
      modifies this, trapTopArray
      ensures Matches(Run(Try(body), s), out)
      decreases Try(body), 0
    {
      hide ErrorTrap.Represents;
      out := Trap(s);
      if out != Normal {
        return;
      }
      var mark := jumpIndex;
      ghost var (t, e) := Run(body, s.Enter());
      RunKeepsBelow(body, s.Enter());
      out := Exec(body, s.Enter());
      var result := 0;
      if out == Jump(mark) {
        result := leave;
      } else if out != Normal {
        return;
      }
      SetResult(result, t);
      out := UnTrap(t.(result := result));
    }

    /** The result variable of the try block gets its value. */
    method SetResult(result: int, ghost s: State)
      requires Represents(s)
      modifies this`caught
      ensures Represents(s.(result := result))
    {
      caught := result;
    }
  }
}

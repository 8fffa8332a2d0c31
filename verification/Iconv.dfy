/** The conversion loop between character sets. */
module Iconv {
  import opened Bytes
  import opened Sequences
  import opened UnicodeForms
  import opened CharSets
  import SelectLoop

  /** `Full`: E2BIG. `Incomplete`: EINVAL. `Illegal`: EILSEQ. `Outside`: the output pointer is to move before its buffer. */
  datatype End = Finished | Illegal | Full | Incomplete | Outside

  /**
   * How many bytes have been consumed, what is in the output buffer before the pointer, and how much room is behind it.
   * `setbacks` counts how often the pointer has moved back.
   */
  datatype Result = Result(consumed: nat, done: seq<Byte>, room: nat, end: End, substitutions: nat, setbacks: nat)

  ghost predicate Valid(from: Charset, to: Charset, t: Tables) {
    ValidTables(t) && ValidCharset(from, t) && ValidCharset(to, t) && IsTarget(to)
  }

  /** What one pass of the loop does. The UTF-8 encoder reports failure as -1, which is added to the output pointer. */
  datatype Pass = Stop(end: End) | Go(length: nat, bytes: seq<Byte>, substituted: bool) | Back(length: nat) {

    /** The pass goes on to the next character. */
    ghost predicate Moves(done: seq<Byte>) {
      Go? || (Back? && done != [])
    }

    ghost function Written(done: seq<Byte>): seq<Byte>
      requires Moves(done)
    {
      if Go? then done + bytes else done[..|done| - 1]
    }

    ghost function Left(room: nat): nat
      requires Go? ==> |bytes| <= room
    {
      if Go? then room - |bytes| else room + 1
    }

    /** The result `r` of the passes behind this one, with this one. */
    ghost function Before(r: Result): Result
      requires !Stop?
    {
      r.(consumed := length + r.consumed, substitutions := (if Go? && substituted then 1 else 0) + r.substitutions,
         setbacks := (if Back? then 1 else 0) + r.setbacks)
    }
  }

  ghost function First(from: Charset, to: Charset, t: Tables, s: seq<Byte>, room: nat): (p: Pass)
    requires Valid(from, to, t)
    ensures !p.Stop? ==> 0 < p.length <= |s|
    ensures p.Go? ==> 0 < |p.bytes| <= room
  {
    if s == [] then Stop(Finished)
    else
      match DecodeChar(from, t, s)
      case IllegalSequence => Stop(Illegal)
      case Starved => Stop(Incomplete)
      case Char(c, length) =>
        DecodedIsBounded(from, t, s);
        match EncodeChar(to, from, t, c, room)
        case TooBig => Stop(Full)
        case Underrun => Back(length)
        case Emitted(bytes, substituted) => Go(length, bytes, substituted)
  }

  ghost function Convert(from: Charset, to: Charset, t: Tables, s: seq<Byte>, done: seq<Byte>, room: nat): (r: Result)
    requires Valid(from, to, t)
    ensures r.consumed <= |s| && |r.done| + r.room == |done| + room
    decreases |s|
  {
    var p := First(from, to, t, s, room);
    if p.Moves(done) then p.Before(Convert(from, to, t, s[p.length..], p.Written(done), p.Left(room)))
    else Result(0, done, room, if p.Stop? then p.end else Outside, 0, 0)
  }

  /** Two conversions, the second going on where the first stopped. */
  ghost function Joined(first: Result, second: Result): Result {
    second.(consumed := first.consumed + second.consumed, substitutions := first.substitutions + second.substitutions,
            setbacks := first.setbacks + second.setbacks)
  }

  // ---------- Atomic and resumable ----------

  /** A pass that converts a character depends on the bytes of that character, and on the room there is, or more. */
  lemma FirstIsLocal(from: Charset, to: Charset, t: Tables, s: seq<Byte>, room: nat, s': seq<Byte>, room': nat)
    requires Valid(from, to, t) && room <= room'
    requires var p := First(from, to, t, s, room);
             !p.Stop? && p.length <= |s'| && s'[..p.length] == s[..p.length]
    ensures First(from, to, t, s', room') == First(from, to, t, s, room)
  {
    hide DecodeChar, Encoded, ValidTables, ValidCharset, IsTarget;
    var n := DecodeChar(from, t, s).length;
    DecodeIsLocal(from, t, s, n);
    DecodeWithMore(from, t, s[..n], s'[n..]);
    assert s' == s[..n] + s'[n..];
    DecodedIsBounded(from, t, s);
  }

  /** One pass, and the rest of the conversion. */
  lemma Unfold(from: Charset, to: Charset, t: Tables, s: seq<Byte>, done: seq<Byte>, room: nat, p: Pass)
    requires Valid(from, to, t) && p == First(from, to, t, s, room)
    ensures !p.Stop? ==> p.length <= |s|
    ensures p.Go? ==> |p.bytes| <= room
    ensures Convert(from, to, t, s, done, room)
         == if p.Moves(done) then p.Before(Convert(from, to, t, s[p.length..], p.Written(done), p.Left(room)))
            else Result(0, done, room, if p.Stop? then p.end else Outside, 0, 0)
  {
    hide First, Valid, Pass.Written, Pass.Before;
  }

  lemma SlicesOfJoined(s: seq<Byte>, more: seq<Byte>, n: nat)
    requires n <= |s|
    ensures (s + more)[..n] == s[..n] && (s + more)[n..] == s[n..] + more
  {
  }

  lemma SlicesOfPrefix(s: seq<Byte>, n: nat, k: nat)
    requires n <= k <= |s|
    ensures s[..k][..n] == s[..n] && s[..k][n..] == s[n..][..k - n] && s[n..][k - n..] == s[k..]
  {
  }

  /** Going on where the conversion of `s` stopped, if it can, gives the conversion of everything. */
  ghost predicate GoesOn(from: Charset, to: Charset, t: Tables, s: seq<Byte>, done: seq<Byte>, room: nat, more: seq<Byte>,
                         moreRoom: nat)
    requires Valid(from, to, t)
  {
    var first := Convert(from, to, t, s, done, room);
    Continues(first, Convert(from, to, t, s[first.consumed..] + more, first.done, first.room + moreRoom), moreRoom,
              Convert(from, to, t, s + more, done, room + moreRoom))
  }

  /** `whole` is `first` and then `second`, which has more room, unless `first` cannot go on. */
  ghost predicate Continues(first: Result, second: Result, moreRoom: nat, whole: Result) {
    whole == if first.end == Outside then first.(room := first.room + moreRoom) else Joined(first, second)
  }

  /**
   * However a conversion ends, going on from where its pointers stopped, with more room or more input, gives the
   * same bytes, the same pointers and the same end as one uninterrupted conversion.
   */
  lemma {:induction false} Resume(from: Charset, to: Charset, t: Tables, s: seq<Byte>, done: seq<Byte>, room: nat, more: seq<Byte>,
                                  moreRoom: nat)
    requires Valid(from, to, t)
    ensures GoesOn(from, to, t, s, done, room, more, moreRoom)
    decreases |s|
  {
    hide First, Valid, Convert, GoesOn, Pass.Before, Pass.Written;
    var p := First(from, to, t, s, room);
    Unfold(from, to, t, s, done, room, p);
    if p.Moves(done) {
      Resume(from, to, t, s[p.length..], p.Written(done), p.Left(room), more, moreRoom);
      MovedGoesOn(from, to, t, s, done, room, more, moreRoom, p);
    } else {
      StoppedGoesOn(from, to, t, s, done, room, more, moreRoom, p);
    }
  }

  lemma StoppedGoesOn(from: Charset, to: Charset, t: Tables, s: seq<Byte>, done: seq<Byte>, room: nat, more: seq<Byte>, moreRoom: nat,
                      p: Pass)
    requires Valid(from, to, t) && p == First(from, to, t, s, room) && !p.Moves(done)
    ensures GoesOn(from, to, t, s, done, room, more, moreRoom)
  {
    hide First, Valid, Convert;
    Unfold(from, to, t, s, done, room, p);
    FirstEnds(from, to, t, s, room);
    assert s[0..] == s;
    if p.Back? {
      SlicesOfJoined(s, more, p.length);
      FirstIsLocal(from, to, t, s, room, s + more, room + moreRoom);
      Unfold(from, to, t, s + more, done, room + moreRoom, p);
    }
  }

  /** No pass reports by itself that the pointer has left its buffer. */
  lemma FirstEnds(from: Charset, to: Charset, t: Tables, s: seq<Byte>, room: nat)
    requires Valid(from, to, t)
    ensures First(from, to, t, s, room) != Stop(Outside)
    ensures First(from, to, t, s, room) == Stop(Finished) <==> s == []
  {
  }

  lemma BeforeContinues(p: Pass, first: Result, second: Result, moreRoom: nat, whole: Result)
    requires !p.Stop? && Continues(first, second, moreRoom, whole)
    ensures Continues(p.Before(first), second, moreRoom, p.Before(whole))
    ensures p.Before(first).consumed == p.length + first.consumed
    ensures p.Before(first).done == first.done && p.Before(first).room == first.room
  {
  }

  lemma MovedGoesOn(from: Charset, to: Charset, t: Tables, s: seq<Byte>, done: seq<Byte>, room: nat, more: seq<Byte>, moreRoom: nat,
                    p: Pass)
    requires Valid(from, to, t) && p == First(from, to, t, s, room) && p.Moves(done)
    requires p.length <= |s| && (p.Go? ==> |p.bytes| <= room)
    requires GoesOn(from, to, t, s[p.length..], p.Written(done), p.Left(room), more, moreRoom)
    ensures GoesOn(from, to, t, s, done, room, more, moreRoom)
  {
    hide First, Valid, Convert, Continues, Pass.Written, Pass.Left, Pass.Before;
    Unfold(from, to, t, s, done, room, p);
    var rest := Convert(from, to, t, s[p.length..], p.Written(done), p.Left(room));
    SlicesOfJoined(s, more, p.length);
    FirstIsLocal(from, to, t, s, room, s + more, room + moreRoom);
    Unfold(from, to, t, s + more, done, room + moreRoom, p);
    SlicesOfPrefix(s, p.length, p.length + rest.consumed);
    BeforeContinues(p, rest, Convert(from, to, t, s[p.length..][rest.consumed..] + more, rest.done, rest.room + moreRoom), moreRoom,
                    Convert(from, to, t, s[p.length..] + more, p.Written(done), p.Left(room) + moreRoom));
    assert p.Left(room + moreRoom) == p.Left(room) + moreRoom by { LeftOfMore(p, room, moreRoom); }
  }

  lemma LeftOfMore(p: Pass, room: nat, moreRoom: nat)
    requires p.Go? ==> |p.bytes| <= room
    ensures p.Left(room + moreRoom) == p.Left(room) + moreRoom
  {
  }

  /** What has been consumed, alone, converts completely to what has been written. */
  ghost predicate IsWhole(from: Charset, to: Charset, t: Tables, s: seq<Byte>, done: seq<Byte>, room: nat)
    requires Valid(from, to, t)
  {
    var r := Convert(from, to, t, s, done, room);
    Convert(from, to, t, s[..r.consumed], done, room) == r.(end := Finished)
  }

  /** The pointers stop between characters. */
  lemma {:induction false} StopsBetweenCharacters(from: Charset, to: Charset, t: Tables, s: seq<Byte>, done: seq<Byte>, room: nat)
    requires Valid(from, to, t)
    ensures IsWhole(from, to, t, s, done, room)
    decreases |s|
  {
    hide First, Valid, Convert, IsWhole, Pass.Before, Pass.Written;
    var p := First(from, to, t, s, room);
    Unfold(from, to, t, s, done, room, p);
    if p.Moves(done) {
      StopsBetweenCharacters(from, to, t, s[p.length..], p.Written(done), p.Left(room));
      MovedIsWhole(from, to, t, s, done, room, p);
    } else {
      StoppedIsWhole(from, to, t, s, done, room);
    }
  }

  lemma StoppedIsWhole(from: Charset, to: Charset, t: Tables, s: seq<Byte>, done: seq<Byte>, room: nat)
    requires Valid(from, to, t)
    requires var r := Convert(from, to, t, s, done, room); r == Result(0, done, room, r.end, 0, 0)
    ensures IsWhole(from, to, t, s, done, room)
  {
    hide First, Valid, Convert;
    FirstEnds(from, to, t, [], room);
    Unfold(from, to, t, [], done, room, Stop(Finished));
    assert s[..0] == [];
  }

  lemma MovedIsWhole(from: Charset, to: Charset, t: Tables, s: seq<Byte>, done: seq<Byte>, room: nat, p: Pass)
    requires Valid(from, to, t) && p == First(from, to, t, s, room) && p.Moves(done)
    requires p.length <= |s| && (p.Go? ==> |p.bytes| <= room)
    requires IsWhole(from, to, t, s[p.length..], p.Written(done), p.Left(room))
    ensures IsWhole(from, to, t, s, done, room)
  {
    hide First, Valid, Convert, Pass.Written;
    Unfold(from, to, t, s, done, room, p);
    var r := Convert(from, to, t, s, done, room);
    SlicesOfPrefix(s, p.length, r.consumed);
    FirstIsLocal(from, to, t, s, room, s[..r.consumed], room);
    Unfold(from, to, t, s[..r.consumed], done, room, p);
  }

  /** A conversion ends for the reason that the next pass, at its pointers, would have. */
  lemma {:induction false} EndIsReason(from: Charset, to: Charset, t: Tables, s: seq<Byte>, done: seq<Byte>, room: nat)
    requires Valid(from, to, t)
    ensures var r := Convert(from, to, t, s, done, room);
            var next := First(from, to, t, s[r.consumed..], r.room);
            if r.end == Outside then next.Back? && r.done == [] else next == Stop(r.end)
    decreases |s|
  {
    hide First, Valid, Convert, Pass.Written;
    var p := First(from, to, t, s, room);
    Unfold(from, to, t, s, done, room, p);
    FirstEnds(from, to, t, s, room);
    if p.Moves(done) {
      EndIsReason(from, to, t, s[p.length..], p.Written(done), p.Left(room));
      SlicesOfPrefix(s, p.length, Convert(from, to, t, s, done, room).consumed);
    } else {
      assert s[0..] == s;
    }
  }

  // ---------- The loop ----------

  /** One pass of the loop: what it consumes and writes, or why it stops. */
  method Advance(from: Charset, to: Charset, t: Tables, s: seq<Byte>, out: array<Byte>, at: nat, room: nat) returns (p: Pass)
    requires Valid(from, to, t) && s != [] && at + room <= out.Length
    modifies out
    ensures p == First(from, to, t, s, room)
    ensures p.Go? ==> Elements(out)[..at + |p.bytes|] == old(Elements(out))[..at] + p.bytes
    ensures Elements(out)[at + room..] == old(Elements(out))[at + room..] && (!p.Go? ==> Elements(out) == old(Elements(out)))
    ensures p != Stop(Finished) && p != Stop(Outside)
  {
    hide DecodeChar, EncodeChar, Overlay, Elements, ValidTables, ValidCharset, IsTarget;
    ghost var before := Elements(out);
    var step := ReadChar(from, t, s);
    match step {
      case IllegalSequence => return Stop(Illegal);
      case Starved => return Stop(Incomplete);
      case Char(c, length) =>
        DecodedIsBounded(from, t, s);
        var e := WriteChar(to, from, t, c, out, at, room);
        match e {
          case TooBig => return Stop(Full);
          case Underrun => return Back(length);
          case Emitted(bytes, substituted) =>
            OverlayAppends(before, at, bytes, at + room);
            return Go(length, bytes, substituted);
        }
    }
  }

  lemma OverlayAppends(f: seq<Byte>, p: nat, d: seq<Byte>, end: nat)
    requires p + |d| <= end <= |f|
    ensures Overlay(f, p, d)[..p + |d|] == f[..p] + d && Overlay(f, p, d)[end..] == f[end..]
  {
  }

  /** The loop has consumed and written so much, and the rest of the conversion goes on from there. */
  ghost predicate Halfway(from: Charset, to: Charset, t: Tables, s: seq<Byte>, whole: Result, consumed: nat, done: seq<Byte>, room: nat,
                          x: nat, setbacks: nat)
    requires Valid(from, to, t) && consumed <= |s|
  {
    whole == Joined(Result(consumed, done, room, Finished, x, setbacks), Convert(from, to, t, s[consumed..], done, room))
  }

  lemma HalfwayOn(from: Charset, to: Charset, t: Tables, s: seq<Byte>, whole: Result, consumed: nat, done: seq<Byte>, room: nat, x: nat,
                  setbacks: nat, p: Pass)
    requires Valid(from, to, t) && consumed <= |s| && Halfway(from, to, t, s, whole, consumed, done, room, x, setbacks)
    requires p == First(from, to, t, s[consumed..], room) && p.Moves(done)
    ensures consumed + p.length <= |s| && (p.Go? ==> |p.bytes| <= room)
    ensures Halfway(from, to, t, s, whole, consumed + p.length, p.Written(done), p.Left(room),
                    x + (if p.Go? && p.substituted then 1 else 0), setbacks + (if p.Back? then 1 else 0))
  {
    hide First, Valid, Convert, Pass.Written;
    Unfold(from, to, t, s[consumed..], done, room, p);
    assert s[consumed..][p.length..] == s[consumed + p.length..];
  }

  lemma HalfwayEnds(from: Charset, to: Charset, t: Tables, s: seq<Byte>, whole: Result, consumed: nat, done: seq<Byte>, room: nat, x: nat,
                    setbacks: nat, p: Pass)
    requires Valid(from, to, t) && consumed <= |s| && Halfway(from, to, t, s, whole, consumed, done, room, x, setbacks)
    requires p == First(from, to, t, s[consumed..], room) && !p.Moves(done)
    ensures whole == Result(consumed, done, room, if p.Stop? then p.end else Outside, x, setbacks)
  {
    hide First, Valid, Convert;
    Unfold(from, to, t, s[consumed..], done, room, p);
  }

  /**
   * Converts `s` into the buffer `out` from `at` on, where there is room for `outb` bytes. The status is -1 for every end
   * but the regular one, else the number of substitutes.
   */
  method Iconv(from: Charset, to: Charset, t: Tables, s: seq<Byte>, out: array<Byte>, at: nat, outb: nat)
    returns (consumed: nat, pos: nat, room: nat, end: End, status: int)
    requires Valid(from, to, t) && at + outb <= out.Length
    modifies out
    ensures var r := Convert(from, to, t, s, old(Elements(out))[..at], outb);
            && consumed == r.consumed && pos == |r.done| && room == r.room && end == r.end
            && status == (if end == Finished then r.substitutions else -1)
            && Elements(out)[..pos] == r.done
    ensures Elements(out)[at + outb..] == old(Elements(out))[at + outb..]
  {
    hide First, Valid, Convert, Elements, Halfway;
    ghost var was := Elements(out);
    ghost var whole, setbacks: nat := Convert(from, to, t, s, was[..at], outb), 0;
    var x: nat := 0;
    consumed, pos, room, end := 0, at, outb, Finished;
    HalfwayStarts(from, to, t, s, was[..at], outb);
    while consumed < |s|
      invariant consumed <= |s| && pos + room == at + outb && end == Finished
      invariant Halfway(from, to, t, s, whole, consumed, Elements(out)[..pos], room, x, setbacks)
      invariant Elements(out)[at + outb..] == was[at + outb..]
    {
      ghost var before := Elements(out);
      var p := Advance(from, to, t, s[consumed..], out, pos, room);
      if !p.Stop? && !(p.Back? && pos == 0) {
        HalfwayOn(from, to, t, s, whole, consumed, before[..pos], room, x, setbacks, p);
      } else {
        HalfwayEnds(from, to, t, s, whole, consumed, before[..pos], room, x, setbacks, p);
      }
      match p {
        case Stop(e) =>
          return consumed, pos, room, e, -1;
        case Go(length, bytes, substituted) =>
          consumed, pos, room := consumed + length, pos + |bytes|, room - |bytes|;
          if substituted {
            x := x + 1;
          }
        case Back(length) =>
          if pos == 0 {
            return consumed, pos, room, Outside, -1;
          }
          assert before[..pos][..pos - 1] == before[..pos - 1];
          consumed, pos, room := consumed + length, pos - 1, room + 1;
          setbacks := setbacks + 1;
      }
    }
    assert s[consumed..] == [];
    FirstEnds(from, to, t, [], room);
    HalfwayEnds(from, to, t, s, whole, consumed, Elements(out)[..pos], room, x, setbacks, Stop(Finished));
    status := x;
  }

  lemma HalfwayStarts(from: Charset, to: Charset, t: Tables, s: seq<Byte>, done: seq<Byte>, room: nat)
    requires Valid(from, to, t)
    ensures Halfway(from, to, t, s, Convert(from, to, t, s, done, room), 0, done, room, 0, 0)
  {
    assert s[0..] == s;
  }

  // ---------- What the encoder cannot write ----------

  /** The output pointer moves back exactly for a character that is not a scalar value, on its way to UTF-8, with room for four bytes. */
  lemma FirstBack(from: Charset, to: Charset, t: Tables, s: seq<Byte>, room: nat)
    requires Valid(from, to, t)
    ensures First(from, to, t, s, room).Back?
       <==> && to == Unicode(Utf8) && room >= 4 && s != [] && DecodeChar(from, t, s).Char? && !IsScalar(DecodeChar(from, t, s).c)
    ensures First(from, to, t, s, room).Go? ==> DecodeChar(from, t, s).Char? && (to == Unicode(Utf8) ==> IsScalar(DecodeChar(from, t, s).c))
    ensures !First(from, to, t, s, room).Stop? ==>
              s != [] && DecodeChar(from, t, s).Char? && First(from, to, t, s, room).length == DecodeChar(from, t, s).length
  {
    hide DecodeChar, ValidTables, Put16, Put32, EncodeUnits, FindMapped;
    if s != [] && DecodeChar(from, t, s).Char? {
      DecodedIsBounded(from, t, s);
    }
  }

  /** All characters in the first `k` bytes are scalar values. */
  ghost predicate AllScalar(from: Charset, t: Tables, s: seq<Byte>, k: nat)
    requires ValidTables(t) && ValidCharset(from, t)
    decreases |s|
  {
    k == 0 || (s != [] && var d := DecodeChar(from, t, s);
                          d.Char? && d.length <= k && IsScalar(d.c) && AllScalar(from, t, s[d.length..], k - d.length))
  }

  /** A conversion to UTF-8 loses nothing that it has written exactly when it has read scalar values only; others never do. */
  lemma {:induction false} LosesNothing(from: Charset, to: Charset, t: Tables, s: seq<Byte>, done: seq<Byte>, room: nat)
    requires Valid(from, to, t)
    ensures var r := Convert(from, to, t, s, done, room);
            && (r.setbacks == 0 <==> to == Unicode(Utf8) ==> AllScalar(from, t, s, r.consumed))
            && (r.setbacks == 0 ==> done <= r.done)
    decreases |s|
  {
    hide First, Valid, Convert, DecodeChar;
    var p := First(from, to, t, s, room);
    Unfold(from, to, t, s, done, room, p);
    FirstBack(from, to, t, s, room);
    if p.Moves(done) {
      LosesNothing(from, to, t, s[p.length..], p.Written(done), p.Left(room));
    }
  }

  /** From the Unicode forms, UCS-2 and ASCII, every character is a scalar value. */
  lemma UnicodeIsScalar(cs: Charset, t: Tables, s: seq<Byte>)
    requires ValidTables(t) && ValidCharset(cs, t) && s != [] && DecodeChar(cs, t, s).Char?
    requires cs.Unicode? || cs.Ucs2? || cs.UsAscii?
    ensures IsScalar(DecodeChar(cs, t, s).c)
  {
    if cs.Unicode? && (s[0] >= 128 || HasWideUnits(cs)) {
      EncodeDecoded(cs.form, s);
    }
  }

  lemma UnicodeFirst(from: Charset, to: Charset, t: Tables, s: seq<Byte>, room: nat)
    requires Valid(from, to, t) && (from.Unicode? || from.Ucs2? || from.UsAscii?)
    ensures !First(from, to, t, s, room).Back?
  {
    hide First, DecodeChar;
    FirstBack(from, to, t, s, room);
    if s != [] && DecodeChar(from, t, s).Char? {
      UnicodeIsScalar(from, t, s);
    }
  }

  /** So the UTF-8 encoder never fails on them. */
  lemma {:induction false} UnicodeLosesNothing(from: Charset, to: Charset, t: Tables, s: seq<Byte>, done: seq<Byte>, room: nat)
    requires Valid(from, to, t) && (from.Unicode? || from.Ucs2? || from.UsAscii?)
    ensures var r := Convert(from, to, t, s, done, room);
            r.setbacks == 0 && r.end != Outside && done <= r.done
    decreases |s|
  {
    hide First, Valid, Convert;
    var p := First(from, to, t, s, room);
    Unfold(from, to, t, s, done, room, p);
    UnicodeFirst(from, to, t, s, room);
    FirstEnds(from, to, t, s, room);
    if p.Moves(done) {
      UnicodeLosesNothing(from, to, t, s[p.length..], p.Written(done), p.Left(room));
    }
  }

  // ---------- GB18030 ----------

  /** A four-byte sequence is read as a scalar value exactly when its number is not pushed into the surrogates or past Unicode. */
  lemma FourByteIsScalar(t: Tables, s: seq<Byte>)
    requires ValidTables(t) && |s| >= 4 && DecodeGb(Gb18030, t, s).Char? && DecodeGb(Gb18030, t, s).length == 4
    ensures IsFourByte(s)
    ensures var n, flat := 128 + FourByteIndex(s[0], s[1], s[2], s[3]), Flat(t.gb);
            IsScalar(DecodeGb(Gb18030, t, s).c)
            <==> && !SelectLoop.Reaches(flat, 0, n, 0x110000)
                 && (SelectLoop.Reaches(flat, 0, n, 0xd800) ==> SelectLoop.Reaches(flat, 0, n, 0xe000))
  {
    hide SelectLoop.Reaches, ValidTables, FourByteIndex;
    var n, flat := 128 + FourByteIndex(s[0], s[1], s[2], s[3]), Flat(t.gb);
    SelectLoop.SelectReaches(flat, 0, n, 0xd800);
    SelectLoop.SelectReaches(flat, 0, n, 0xe000);
    SelectLoop.SelectReaches(flat, 0, n, 0x110000);
  }

  /** Exactly the other four-byte sequences make the conversion to UTF-8 lose the byte before them. */
  lemma FourByteLoses(t: Tables, s: seq<Byte>, done: seq<Byte>, room: nat)
    requires ValidTables(t) && |s| == 4 && DecodeGb(Gb18030, t, s).Char? && DecodeGb(Gb18030, t, s).length == 4
    requires done != [] && room >= 4
    ensures IsFourByte(s)
    ensures var n, flat := 128 + FourByteIndex(s[0], s[1], s[2], s[3]), Flat(t.gb);
            Convert(Gb(Gb18030), Unicode(Utf8), t, s, done, room) == Result(4, done[..|done| - 1], room + 1, Finished, 0, 1)
            <==> || SelectLoop.Reaches(flat, 0, n, 0x110000)
                 || (SelectLoop.Reaches(flat, 0, n, 0xd800) && !SelectLoop.Reaches(flat, 0, n, 0xe000))
  {
    hide SelectLoop.Reaches, First, Convert, FourByteIndex, DecodeGb;
    var from, to, p := Gb(Gb18030), Unicode(Utf8), First(Gb(Gb18030), Unicode(Utf8), t, s, room);
    FourByteIsScalar(t, s);
    FirstBack(from, to, t, s, room);
    Unfold(from, to, t, s, done, room, p);
    LosesNothing(from, to, t, s, done, room);
    if p.Back? {
      FirstEnds(from, to, t, [], room + 1);
      Unfold(from, to, t, [], done[..|done| - 1], room + 1, Stop(Finished));
      assert s[4..] == [];
    } else if p.Go? {
      LosesNothing(from, to, t, s[p.length..], p.Written(done), p.Left(room));
      assert s[4..] == [];
      FirstEnds(from, to, t, [], p.Left(room));
      Unfold(from, to, t, [], p.Written(done), p.Left(room), Stop(Finished));
    }
  }

  /** One such sequence, beyond Unicode in every table. */
  lemma Gb18030Loses(t: Tables, done: seq<Byte>, room: nat)
    requires ValidTables(t) && done != [] && room >= 4
    ensures Convert(Gb(Gb18030), Unicode(Utf8), t, [0xfe, 0x39, 0xfe, 0x39], done, room)
         == Result(4, done[..|done| - 1], room + 1, Finished, 0, 1)
  {
    var s: seq<Byte> := [0xfe, 0x39, 0xfe, 0x39];
    FourByteLoses(t, s, done, room);
    SelectLoop.SelectReaches(Flat(t.gb), 0, 128 + FourByteIndex(0xfe, 0x39, 0xfe, 0x39), 0x110000);
  }

  // ---------- Unicode to Unicode ----------

  /** Between Unicode forms, a pass decodes a character and writes it in the other form, when there is room. */
  lemma FirstOfUnicode(from: Form, to: Form, t: Tables, s: seq<Byte>, room: nat)
    requires Valid(Unicode(from), Unicode(to), t) && s != []
    ensures Decode(from, s).Char? ==> IsScalar(Decode(from, s).c)
    ensures var d, p := Decode(from, s), First(Unicode(from), Unicode(to), t, s, room);
            && (p.Go? <==> d.Char? && |Encode(to, d.c)| <= room)
            && (p.Go? ==> p == Go(d.length, Encode(to, d.c), false))
            && !p.Back? && p != Stop(Finished)
  {
    hide ValidTables, DecodeUtf8, Decode16, Decode32, Put32, Put16;
    DecodeCharIsDecode(from, t, s);
    if Decode(from, s).Char? {
      EncodeDecoded(from, s);
    }
  }

  lemma DecodeCharIsDecode(form: Form, t: Tables, s: seq<Byte>)
    requires ValidTables(t) && ValidForm(form) && s != []
    ensures DecodeChar(Unicode(form), t, s) == Decode(form, s)
  {
  }

  lemma Associative(a: seq<Byte>, b: seq<Byte>, c: seq<Byte>)
    ensures a + b + c == a + (b + c)
  {
  }

  lemma SliceAfter(a: seq<Byte>, b: seq<Byte>)
    ensures (a + b)[|a|..] == b
  {
  }

  /** A text in one Unicode form converts to the same text in the other. */
  lemma {:induction false} TranscodesTexts(from: Form, to: Form, t: Tables, text: seq<nat>, done: seq<Byte>, room: nat)
    requires Valid(Unicode(from), Unicode(to), t) && AllScalars(text)
    requires room >= |EncodeAll(to, text)|
    ensures Convert(Unicode(from), Unicode(to), t, EncodeAll(from, text), done, room)
            == Result(|EncodeAll(from, text)|, done + EncodeAll(to, text), room - |EncodeAll(to, text)|, Finished, 0, 0)
    decreases |text|
  {
    hide First, Decode, Encode, Convert, ValidTables;
    var f, g, s := Unicode(from), Unicode(to), EncodeAll(from, text);
    var p := First(f, g, t, s, room);
    Unfold(f, g, t, s, done, room, p);
    if text == [] {
      FirstEnds(f, g, t, s, room);
      assert done + [] == done;
    } else {
      var bytes, rest := Encode(to, text[0]), EncodeAll(to, text[1..]);
      DecodeEncoded(from, text[0], EncodeAll(from, text[1..]));
      FirstOfUnicode(from, to, t, s, room);
      SliceAfter(Encode(from, text[0]), EncodeAll(from, text[1..]));
      TranscodesTexts(from, to, t, text[1..], done + bytes, room - |bytes|);
      Associative(done, bytes, rest);
    }
  }

  /** And nothing else converts completely: the input is then the encoding of a text, and the output is that text. */
  lemma {:induction false} TranscodesOnlyTexts(from: Form, to: Form, t: Tables, s: seq<Byte>, done: seq<Byte>, room: nat)
    returns (text: seq<nat>)
    requires Valid(Unicode(from), Unicode(to), t)
    requires Convert(Unicode(from), Unicode(to), t, s, done, room).end == Finished
    ensures AllScalars(text) && s == EncodeAll(from, text)
    ensures Convert(Unicode(from), Unicode(to), t, s, done, room).done == done + EncodeAll(to, text)
    decreases |s|
  {
    hide First, Decode, Encode, Convert;
    var f, g := Unicode(from), Unicode(to);
    var p := First(f, g, t, s, room);
    Unfold(f, g, t, s, done, room, p);
    FirstEnds(f, g, t, s, room);
    if s == [] {
      text := [];
      assert done + [] == done;
    } else {
      FirstOfUnicode(from, to, t, s, room);
      EncodeDecoded(from, s);
      var c, n := Decode(from, s).c, Decode(from, s).length;
      var rest := TranscodesOnlyTexts(from, to, t, s[n..], done + Encode(to, c), room - |Encode(to, c)|);
      text := [c] + rest;
      assert text[1..] == rest && s == s[..n] + s[n..];
      Associative(done, Encode(to, c), EncodeAll(to, rest));
    }
  }

  // ---------- Code pages ----------

  /**
   * A byte above 127 that the reverse search of a code page emits reads back as the same character exactly when the
   * code page elides nothing: the search adds 128, not 128 and the elided entries. The one other case is a character
   * below 256 that has its first place at the byte of its own value, where the entry that is read back is left at zero.
   */
  lemma CodepageRoundTrip(elided: nat, entries: seq<Byte>, t: Tables, c: nat)
    requires ValidTables(t) && ValidCharset(Codepage(elided, entries), t) && 128 + elided <= c < 0x210000
    requires exists k :: 0 <= k < 128 - elided && t.legacy[Mapped(entries, k)] == c
    ensures var b := Encoded(Codepage(elided, entries), UsAscii, t, c).0;
            && |b| == 1 && b[0] >= 128
            && (DecodeChar(Codepage(elided, entries), t, b) == Char(c, 1)
                <==> || elided == 0
                     || (&& c < 256 - elided && t.legacy[Mapped(entries, c - 128 - elided)] == 0
                         && t.legacy[Mapped(entries, c - 128)] == c
                         && forall k :: 0 <= k < c - 128 ==> t.legacy[Mapped(entries, k)] != c))
  {
    hide Mapped, Encoded, DecodeChar;
    var n, i := 128 - elided, FindMapped(entries, t, c, 0, 128 - elided);
    var k :| 0 <= k < n && t.legacy[Mapped(entries, k)] == c;
    assert i <= k;
    EmittedByte(elided, entries, t, c, i);
    ReadByte(elided, entries, t, i + 128);
    if elided > 0 && i >= elided {
      assert t.legacy[Mapped(entries, i - elided)] != c;
    }
  }

  lemma EmittedByte(elided: nat, entries: seq<Byte>, t: Tables, c: nat, i: nat)
    requires ValidTables(t) && ValidCharset(Codepage(elided, entries), t) && 128 + elided <= c < 0x210000
    requires i == FindMapped(entries, t, c, 0, 128 - elided) < 128 - elided
    ensures Encoded(Codepage(elided, entries), UsAscii, t, c) == ([i + 128], false)
  {
  }

  lemma ReadByte(elided: nat, entries: seq<Byte>, t: Tables, b: Byte)
    requires ValidTables(t) && ValidCharset(Codepage(elided, entries), t) && b >= 128
    ensures DecodeChar(Codepage(elided, entries), t, [b])
         == if b < 128 + elided then Char(b, 1)
            else var c := t.legacy[Mapped(entries, b - 128 - elided)];
                 if c == 0 then Char(b, 1) else if c == 1 then IllegalSequence else Char(c, 1)
  {
  }
}

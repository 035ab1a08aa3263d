/** `reframe`: a header block of another length in the frames of the original one (src/h2.rs). */
module Reframe {
  import opened Octets
  import opened Frames

  function Min(a: nat, b: nat): nat {
    if a < b then a else b
  }

  function Payloads(frames: seq<Frame>): Bytes {
    if frames == [] then [] else frames[0].payload + Payloads(frames[1..])
  }

  /** The header block a receiver reassembles from a HEADERS frame and its CONTINUATIONs. */
  function Carried(frames: seq<Frame>): Bytes
    requires frames != [] && HeaderParts(frames[0]).Some?
  {
    HeaderParts(frames[0]).value.block + Payloads(frames[1..])
  }

  ghost predicate Continues(f: Frame, stream: Word) {
    f.kind == CONTINUATION && f.stream == stream
  }

  /** Section 6.10 of RFC 9113: HEADERS, CONTINUATIONs of its stream, END_HEADERS on the last only. */
  ghost predicate HeaderSequence(frames: seq<Frame>) {
    && frames != [] && HeaderParts(frames[0]).Some?
    && (forall i :: 1 <= i < |frames| ==> Continues(frames[i], frames[0].stream))
    && (forall i :: 0 <= i < |frames| ==> (EndHeaders(frames[i].flags) <==> i == |frames| - 1))
  }

  predicate FrameOk(original: seq<Frame>, i: nat, max: nat)
    requires i < |original|
  {
    && |original[i].payload| <= max
    && (i == 0 || (original[i].kind == CONTINUATION && original[i].stream == original[0].stream))
  }

  predicate Accepts(original: seq<Frame>, max: nat) {
    && FrameSizeOk(max) && original != [] && HeaderParts(original[0]).Some?
    && forall i :: 0 <= i < |original| ==> FrameOk(original, i, max)
  }

  // ----- The result -----

  /** CONTINUATIONs for what the original frames could not hold. */
  function Extra(stream: Word, max: nat, b: Bytes): seq<Frame>
    decreases |b|
  {
    if b == [] || max == 0 then []
    else if |b| <= max then [Frame(CONTINUATION, 0, stream, b)]
    else [Frame(CONTINUATION, 0, stream, b[..max])] + Extra(stream, max, b[max..])
  }

  /** Pad length and priority, which only the HEADERS frame has. */
  function Prefix(original: seq<Frame>, i: nat): Bytes
    requires i < |original|
  {
    if i == 0 && HeaderParts(original[0]).Some? then HeaderParts(original[0]).value.prefix else []
  }

  function Padding(original: seq<Frame>, i: nat): Bytes
    requires i < |original|
  {
    if i == 0 && HeaderParts(original[0]).Some? then HeaderParts(original[0]).value.padding else []
  }

  /** Fragment octets that fit frame `i`. Only the last original frame may grow. */
  function Room(original: seq<Frame>, i: nat, max: nat): nat
    requires i < |original|
  {
    var full := if i + 1 == |original| then max else |original[i].payload|;
    var overhead := |Prefix(original, i)| + |Padding(original, i)|;
    if overhead <= full then full - overhead else 0
  }

  function Refilled(original: seq<Frame>, i: nat, fragment: Bytes): Frame
    requires i < |original|
  {
    Frame(original[i].kind, ClearEnd(original[i].flags), original[i].stream,
          Prefix(original, i) + fragment + Padding(original, i))
  }

  /** The frames from the `i`-th on, holding `b`. */
  function Fill(original: seq<Frame>, i: nat, max: nat, b: Bytes): (r: seq<Frame>)
    requires i <= |original| && original != []
    ensures |r| >= |original| - i
    decreases |original| - i
  {
    if i == |original| then Extra(original[0].stream, max, b)
    else
      var n := Min(Room(original, i, max), |b|);
      [Refilled(original, i, b[..n])] + Fill(original, i + 1, max, b[n..])
  }

  function MarkLast(frames: seq<Frame>): seq<Frame>
    requires frames != []
  {
    var last := frames[|frames| - 1];
    frames[..|frames| - 1] + [last.(flags := SetEnd(last.flags))]
  }

  function Reframed(original: seq<Frame>, encoded: Bytes, max: nat): Option<seq<Frame>> {
    if Accepts(original, max) then Some(MarkLast(Fill(original, 0, max, encoded)))
    else None
  }

  method Reframe(original: seq<Frame>, encoded: Bytes, max: nat) returns (r: Option<seq<Frame>>)
    ensures r == Reframed(original, encoded, max)
  {
    if !FrameSizeOk(max) || original == [] {
      return None;
    }
    var parts := HeaderParts(original[0]);
    if parts.None? {
      return None;
    }
    hide HeaderParts, ClearEnd, Refilled, Extra, Fill, Accepts, FrameOk, Room, Checked, Filled, MarkLast;
    NoneChecked(original, max);
    var out: seq<Frame> := [];
    var pos: nat, i: nat := 0, 0;
    FilledStart(original, max, encoded);
    while i < |original|
      invariant i <= |original| && Checked(original, i, max)
      invariant Filled(original, max, encoded, out, i, pos)
    {
      OneFrame(original, i, max);
      if !FrameOk(original, i, max) {
        return None;
      }
      CheckedNext(original, i, max);
      var cap := Room(original, i, max);
      FilledTurn(original, max, encoded, out, i, pos);
      var n := Min(cap, |encoded| - pos);
      out := out + [Refilled(original, i, encoded[pos..pos + n])];
      pos := pos + n;
      i := i + 1;
    }
    AllFrames(original, max);
    FilledDone(original, max, encoded, out, pos);
    out := AppendExtra(out, original[0].stream, max, encoded, pos);
    return Some(MarkLast(out));
  }

  /** `out` holds the first `i` frames, and the first `pos` octets of the block. */
  ghost predicate Filled(original: seq<Frame>, max: nat, encoded: Bytes, out: seq<Frame>, i: nat, pos: nat)
    requires i <= |original| && original != []
  {
    && pos <= |encoded| && (i != 0 ==> out != [])
    && Fill(original, 0, max, encoded) == out + Fill(original, i, max, encoded[pos..])
  }

  lemma FilledStart(original: seq<Frame>, max: nat, encoded: Bytes)
    requires original != []
    ensures Filled(original, max, encoded, [], 0, 0)
  {
    hide Fill;
    assert encoded[0..] == encoded;
  }

  lemma FilledTurn(original: seq<Frame>, max: nat, encoded: Bytes, out: seq<Frame>, i: nat, pos: nat)
    requires i < |original| && Filled(original, max, encoded, out, i, pos)
    ensures pos <= |encoded|
    ensures var n := Min(Room(original, i, max), |encoded| - pos);
            Filled(original, max, encoded, out + [Refilled(original, i, encoded[pos..pos + n])], i + 1, pos + n)
  {
    hide Fill, Room, Refilled;
    var n := Min(Room(original, i, max), |encoded| - pos);
    FillTurn(original, i, max, encoded, pos);
    Regroup(out, Refilled(original, i, encoded[pos..pos + n]), Fill(original, i + 1, max, encoded[pos + n..]));
  }

  lemma FilledDone(original: seq<Frame>, max: nat, encoded: Bytes, out: seq<Frame>, pos: nat)
    requires original != [] && Filled(original, max, encoded, out, |original|, pos)
    ensures pos <= |encoded| && out + Extra(original[0].stream, max, encoded[pos..]) == Fill(original, 0, max, encoded)
    ensures out != []
  {
    hide Extra;
    FillDone(original, max, encoded[pos..]);
  }

  /** `encoded[pos..].chunks(max_frame)` as CONTINUATIONs. */
  method AppendExtra(frames: seq<Frame>, stream: Word, max: nat, encoded: Bytes, start: nat) returns (out: seq<Frame>)
    requires max > 0 && start <= |encoded|
    ensures out == frames + Extra(stream, max, encoded[start..])
  {
    hide Extra;
    var pos: nat := start;
    out := frames;
    while pos < |encoded|
      invariant pos <= |encoded|
      invariant frames + Extra(stream, max, encoded[start..]) == out + Extra(stream, max, encoded[pos..])
      decreases |encoded| - pos
    {
      var n := Min(max, |encoded| - pos);
      ghost var rest := encoded[pos..];
      assert encoded[pos + n..] == rest[n..] && encoded[pos..pos + n] == rest[..n];
      ExtraTurn(stream, max, rest, n);
      Regroup(out, Frame(CONTINUATION, 0, stream, encoded[pos..pos + n]), Extra(stream, max, rest[n..]));
      out := out + [Frame(CONTINUATION, 0, stream, encoded[pos..pos + n])];
      pos := pos + n;
    }
    ExtraDone(stream, max);
    assert encoded[pos..] == [] && out + [] == out;
  }

  lemma Regroup<T>(a: seq<T>, x: T, b: seq<T>)
    ensures a + ([x] + b) == (a + [x]) + b
  {
  }

  lemma OneFrame(original: seq<Frame>, i: nat, max: nat)
    requires i < |original|
    ensures FrameOk(original, i, max) ==> |original[i].payload| <= max
    ensures Accepts(original, max) ==> FrameOk(original, i, max) && HeaderParts(original[0]).Some?
  {
  }

  /** The frames before the `i`-th have passed the checks. */
  ghost predicate Checked(original: seq<Frame>, i: nat, max: nat) {
    i <= |original| && forall j :: 0 <= j < i ==> FrameOk(original, j, max)
  }

  lemma NoneChecked(original: seq<Frame>, max: nat)
    ensures Checked(original, 0, max)
  {
  }

  lemma CheckedNext(original: seq<Frame>, i: nat, max: nat)
    requires i < |original| && Checked(original, i, max) && FrameOk(original, i, max)
    ensures Checked(original, i + 1, max)
  {
  }

  lemma AllFrames(original: seq<Frame>, max: nat)
    requires FrameSizeOk(max) && original != [] && HeaderParts(original[0]).Some?
    requires Checked(original, |original|, max)
    ensures Accepts(original, max)
  {
  }

  lemma FillStep(original: seq<Frame>, i: nat, max: nat, b: Bytes)
    requires i < |original|
    ensures var n := Min(Room(original, i, max), |b|);
            Fill(original, i, max, b) == [Refilled(original, i, b[..n])] + Fill(original, i + 1, max, b[n..])
  {
    hide Refilled, Room, Extra;
  }

  lemma FillTurn(original: seq<Frame>, i: nat, max: nat, encoded: Bytes, pos: nat)
    requires i < |original| && pos <= |encoded|
    ensures var n := Min(Room(original, i, max), |encoded| - pos);
            Fill(original, i, max, encoded[pos..])
            == [Refilled(original, i, encoded[pos..pos + n])] + Fill(original, i + 1, max, encoded[pos + n..])
  {
    hide HeaderParts, Prefix, Padding, Refilled;
    hide Fill, Room;
    FillStep(original, i, max, encoded[pos..]);
    var n := Min(Room(original, i, max), |encoded| - pos);
    DropTake(encoded, pos, n);
    DropDrop(encoded, pos, n);
  }

  lemma FillDone(original: seq<Frame>, max: nat, b: Bytes)
    requires original != []
    ensures Fill(original, |original|, max, b) == Extra(original[0].stream, max, b)
  {
  }

  lemma ExtraTurn(stream: Word, max: nat, b: Bytes, n: nat)
    requires max > 0 && b != [] && n == Min(max, |b|)
    ensures Extra(stream, max, b) == [Frame(CONTINUATION, 0, stream, b[..n])] + Extra(stream, max, b[n..])
  {
    if |b| <= max {
      assert b[..n] == b && b[n..] == [];
    }
  }

  lemma ExtraDone(stream: Word, max: nat)
    ensures Extra(stream, max, []) == []
  {
  }

  // ----- What the frames promise -----

  /** Fragment octets of the original frames from the `i`-th on; the last of them may fill its frame. */
  function Capacity(original: seq<Frame>, i: nat, max: nat): nat
    requires i <= |original|
    decreases |original| - i
  {
    if i == |original| then 0
    else Room(original, i, max) + Capacity(original, i + 1, max)
  }

  ghost predicate KeepsFrame(f: Frame, original: Frame) {
    f.kind == original.kind && f.stream == original.stream && f.flags == ClearEnd(original.flags)
  }

  ghost predicate IsExtra(f: Frame, stream: Word) {
    f.kind == CONTINUATION && f.flags == 0 && f.stream == stream
  }

  lemma {:induction false} ExtraShape(stream: Word, max: nat, b: Bytes)
    requires max > 0
    ensures var f := Extra(stream, max, b);
            && Payloads(f) == b && (f == [] <==> b == [])
            && (forall k :: 0 <= k < |f| ==> IsExtra(f[k], stream) && 0 < |f[k].payload| <= max)
            && forall k :: 0 <= k < |f| - 1 ==> |f[k].payload| == max
    decreases |b|
  {
    if b == [] {
    } else {
      var n := Min(max, |b|);
      ExtraTurn(stream, max, b, n);
      ExtraShape(stream, max, b[n..]);
      PayloadsCons(Frame(CONTINUATION, 0, stream, b[..n]), Extra(stream, max, b[n..]));
      assert b[..n] + b[n..] == b;
    }
  }

  lemma PayloadsCons(f: Frame, frames: seq<Frame>)
    ensures Payloads([f] + frames) == f.payload + Payloads(frames)
  {
  }

  /** The frames from `i` on: the original ones refilled, then extra ones, all within `max`. */
  ghost predicate Shape(f: seq<Frame>, original: seq<Frame>, i: nat, max: nat)
    requires original != []
  {
    && i <= |original| <= i + |f|
    && (forall k :: i <= k < |original| ==> KeepsFrame(f[k - i], original[k]))
    && (forall k :: |original| - i <= k < |f| ==> IsExtra(f[k], original[0].stream))
    && (forall k :: 0 <= k < |f| ==> |f[k].payload| <= max)
  }

  lemma ShapeCons(f: Frame, g: seq<Frame>, original: seq<Frame>, i: nat, max: nat)
    requires i < |original| && Shape(g, original, i + 1, max)
    requires KeepsFrame(f, original[i]) && |f.payload| <= max
    ensures Shape([f] + g, original, i, max)
  {
    var all := [f] + g;
    forall k | i <= k < |original| ensures KeepsFrame(all[k - i], original[k]) {
      if k > i {
        assert all[k - i] == g[k - (i + 1)];
      }
    }
  }

  lemma RefilledShape(original: seq<Frame>, i: nat, max: nat, fragment: Bytes)
    requires i < |original| && HeaderParts(original[0]).Some? && |original[i].payload| <= max
    requires |fragment| <= Room(original, i, max)
    ensures var f := Refilled(original, i, fragment);
            KeepsFrame(f, original[i]) && |f.payload| <= max && (i > 0 ==> f.payload == fragment)
  {
    hide ClearEnd, HeaderParts;
    if i > 0 {
      assert [] + fragment + [] == fragment;
    }
  }

  lemma {:induction false} FillShape(original: seq<Frame>, i: nat, max: nat, b: Bytes)
    requires Accepts(original, max) && i <= |original|
    ensures Shape(Fill(original, i, max, b), original, i, max)
    decreases |original| - i
  {
    if i == |original| {
      hide HeaderParts, Extra;
      ExtraShape(original[0].stream, max, b);
    } else {
      OneFrame(original, i, max);
      FillStep(original, i, max, b);
      hide Accepts, FrameOk, Refilled, Shape, Room, Fill, Extra, HeaderParts;
      var n := Min(Room(original, i, max), |b|);
      FillShape(original, i + 1, max, b[n..]);
      RefilledShape(original, i, max, b[..n]);
      ShapeCons(Refilled(original, i, b[..n]), Fill(original, i + 1, max, b[n..]), original, i, max);
    }
  }

  /** Frames are added exactly when the original ones cannot hold the octets. */
  lemma {:induction false} FillCount(original: seq<Frame>, i: nat, max: nat, b: Bytes)
    requires Accepts(original, max) && i <= |original|
    ensures |Fill(original, i, max, b)| > |original| - i <==> |b| > Capacity(original, i, max)
    decreases |original| - i
  {
    if i == |original| {
      hide HeaderParts, Extra;
      ExtraShape(original[0].stream, max, b);
    } else {
      FillStep(original, i, max, b);
      hide Accepts, Refilled, Room, Fill;
      FillCount(original, i + 1, max, b[Min(Room(original, i, max), |b|)..]);
    }
  }

  lemma ExtraPayloads(original: seq<Frame>, max: nat, b: Bytes)
    requires original != [] && max > 0
    ensures Payloads(Fill(original, |original|, max, b)) == b
  {
    FillDone(original, max, b);
    hide Fill, Extra, Payloads;
    ExtraShape(original[0].stream, max, b);
  }

  lemma RefilledPayloads(original: seq<Frame>, i: nat, max: nat, b: Bytes, n: nat, rest: seq<Frame>)
    requires 0 < i < |original| && HeaderParts(original[0]).Some? && |original[i].payload| <= max
    requires n <= |b| && n <= Room(original, i, max) && Payloads(rest) == b[n..]
    ensures Payloads([Refilled(original, i, b[..n])] + rest) == b
  {
    hide Refilled, Room, Payloads, HeaderParts;
    RefilledShape(original, i, max, b[..n]);
    PayloadsCons(Refilled(original, i, b[..n]), rest);
    assert b[..n] + b[n..] == b;
  }

  /** The frames from `i` on hold exactly `b`. */
  lemma {:induction false} FillPayloads(original: seq<Frame>, i: nat, max: nat, b: Bytes)
    requires Accepts(original, max) && 0 < i <= |original|
    ensures Payloads(Fill(original, i, max, b)) == b
    decreases |original| - i
  {
    if i == |original| {
      hide FrameOk, HeaderParts, Fill, Payloads;
      ExtraPayloads(original, max, b);
    } else {
      OneFrame(original, i, max);
      hide Accepts, FrameOk, Refilled, Room, Fill, Payloads, HeaderParts;
      FillStep(original, i, max, b);
      var n := Min(Room(original, i, max), |b|);
      FillPayloads(original, i + 1, max, b[n..]);
      RefilledPayloads(original, i, max, b, n, Fill(original, i + 1, max, b[n..]));
    }
  }

  /** Where the `i`-th original fragment started. */
  function Start(original: seq<Frame>, i: nat): nat
    requires i <= |original| && original != [] && HeaderParts(original[0]).Some?
  {
    if i == 0 then 0
    else if i == 1 then |HeaderParts(original[0]).value.block|
    else Start(original, i - 1) + |original[i - 1].payload|
  }

  lemma StartNext(original: seq<Frame>, i: nat, max: nat)
    requires i < |original| && HeaderParts(original[0]).Some? && |original[i].payload| <= max
    ensures i + 1 < |original| ==> Start(original, i + 1) == Start(original, i) + Room(original, i, max)
  {
  }

  /** Where the `i`-th fragment of the new block starts: the old place, as far as the block reaches. */
  function NewStart(original: seq<Frame>, encoded: Bytes, i: nat): nat
    requires i <= |original| && original != [] && HeaderParts(original[0]).Some?
  {
    Min(Start(original, i), |encoded|)
  }

  lemma NewStartNext(original: seq<Frame>, encoded: Bytes, i: nat, max: nat)
    requires i + 1 < |original| && HeaderParts(original[0]).Some? && |original[i].payload| <= max
    ensures var pos := NewStart(original, encoded, i);
            NewStart(original, encoded, i + 1) == pos + Min(Room(original, i, max), |encoded| - pos)
  {
    hide Start, Room, HeaderParts;
    StartNext(original, i, max);
  }

  lemma DropOne<T>(f: seq<T>, i: nat, x: T, rest: seq<T>)
    requires i < |f| && f[i..] == [x] + rest
    ensures f[i] == x && f[i + 1..] == rest
  {
    assert f[i..][1..] == f[i + 1..] && f[i..][0] == f[i];
  }

  lemma {:induction false} FramesFrom(original: seq<Frame>, max: nat, encoded: Bytes, i: nat)
    requires Accepts(original, max) && i < |original|
    ensures var f := Fill(original, 0, max, encoded);
            f[i..] == Fill(original, i, max, encoded[NewStart(original, encoded, i)..])
  {
    if i == 0 {
      hide Fill, Accepts, HeaderParts;
      assert encoded[0..] == encoded;
      assert Fill(original, 0, max, encoded)[0..] == Fill(original, 0, max, encoded);
    } else {
      OneFrame(original, i - 1, max);
      hide Fill, Accepts, FrameOk, NewStart, HeaderParts, Refilled, Room, Start;
      FramesFrom(original, max, encoded, i - 1);
      FramesStep(Fill(original, 0, max, encoded), original, max, encoded, i - 1);
    }
  }

  lemma FramesStep(f: seq<Frame>, original: seq<Frame>, max: nat, encoded: Bytes, i: nat)
    requires i + 1 < |original| && HeaderParts(original[0]).Some? && |original[i].payload| <= max && i < |f|
    requires f[i..] == Fill(original, i, max, encoded[NewStart(original, encoded, i)..])
    ensures f[i + 1..] == Fill(original, i + 1, max, encoded[NewStart(original, encoded, i + 1)..])
  {
    hide Fill, HeaderParts, Refilled, Room, Start, Prefix, Padding;
    NewStartNext(original, encoded, i, max);
    var pos := NewStart(original, encoded, i);
    var n := Min(Room(original, i, max), |encoded| - pos);
    FillTurn(original, i, max, encoded, pos);
    DropOne(f, i, Refilled(original, i, encoded[pos..pos + n]), Fill(original, i + 1, max, encoded[pos + n..]));
  }

  /** Fragment boundaries stay where they were, as far as the new block reaches. */
  lemma BoundariesKept(original: seq<Frame>, max: nat, encoded: Bytes, i: nat)
    requires Accepts(original, max) && i + 1 < |original|
    ensures var (pos, end) := (NewStart(original, encoded, i), NewStart(original, encoded, i + 1));
            pos <= end && Fill(original, 0, max, encoded)[i] == Refilled(original, i, encoded[pos..end])
  {
    OneFrame(original, i, max);
    hide Fill, Accepts, FrameOk, Start, Room, HeaderParts, Refilled, NewStart;
    FramesFrom(original, max, encoded, i);
    FrameThere(Fill(original, 0, max, encoded), original, max, encoded, i);
  }

  lemma FrameThere(f: seq<Frame>, original: seq<Frame>, max: nat, encoded: Bytes, i: nat)
    requires i + 1 < |original| && HeaderParts(original[0]).Some? && |original[i].payload| <= max && i < |f|
    requires f[i..] == Fill(original, i, max, encoded[NewStart(original, encoded, i)..])
    ensures var (pos, end) := (NewStart(original, encoded, i), NewStart(original, encoded, i + 1));
            pos <= end && f[i] == Refilled(original, i, encoded[pos..end])
  {
    hide Fill, HeaderParts, Refilled, Room, Start, Prefix, Padding;
    NewStartNext(original, encoded, i, max);
    var pos, end := NewStart(original, encoded, i), NewStart(original, encoded, i + 1);
    FillTurn(original, i, max, encoded, pos);
    DropOne(f, i, Refilled(original, i, encoded[pos..end]), Fill(original, i + 1, max, encoded[end..]));
  }

  lemma MarkLastShape(frames: seq<Frame>)
    requires frames != []
    ensures var out := MarkLast(frames);
            && |out| == |frames|
            && forall i :: 0 <= i < |out| ==>
                 && out[i].kind == frames[i].kind && out[i].stream == frames[i].stream
                 && out[i].payload == frames[i].payload
                 && out[i].flags == if i == |out| - 1 then SetEnd(frames[i].flags) else frames[i].flags
  {
  }

  lemma FragmentLength(original: seq<Frame>, max: nat, encoded: Bytes, i: nat)
    requires Accepts(original, max) && i + 1 < |original|
    ensures Start(original, i) <= Start(original, i + 1)
    ensures |Reframed(original, encoded, max).value| >= |original|
    ensures |Reframed(original, encoded, max).value[i].payload| == |original[i].payload|
            <==> NewStart(original, encoded, i + 1) - NewStart(original, encoded, i)
                 == Start(original, i + 1) - Start(original, i)
  {
    OneFrame(original, i, max);
    hide Fill, Accepts, FrameOk, Start, NewStart, HeaderParts;
    BoundariesKept(original, max, encoded, i);
    StartNext(original, i, max);
    MarkLastShape(Fill(original, 0, max, encoded));
    Overhead(original, i);
  }

  lemma Overhead(original: seq<Frame>, i: nat)
    requires i < |original|
    ensures |Prefix(original, i)| + |Padding(original, i)| <= |original[i].payload|
  {
  }

  lemma {:induction false} StartGrows(original: seq<Frame>, i: nat, j: nat)
    requires i <= j < |original| && HeaderParts(original[0]).Some?
    ensures Start(original, i) <= Start(original, j)
    decreases j
  {
    hide HeaderParts;
    if i < j {
      StartGrows(original, i, j - 1);
    }
  }

  /** Every fragment but the last keeps its length exactly when the new block reaches to where the last one started. */
  lemma LastAbsorbsIff(original: seq<Frame>, max: nat, encoded: Bytes)
    requires Accepts(original, max)
    ensures |Reframed(original, encoded, max).value| >= |original|
    ensures (forall i :: 0 <= i < |original| - 1 ==>
               |Reframed(original, encoded, max).value[i].payload| == |original[i].payload|)
            <==> Start(original, |original| - 1) <= |encoded|
  {
    hide Fill, FrameOk, Start, HeaderParts, Reframed;
    var last := |original| - 1;
    AtLeast(original, max, encoded);
    if Start(original, last) <= |encoded| {
      forall i | 0 <= i < last
        ensures |Reframed(original, encoded, max).value[i].payload| == |original[i].payload|
      {
        FragmentLength(original, max, encoded, i);
        StartGrows(original, i + 1, last);
      }
    }
    if forall i :: 0 <= i < last ==> |Reframed(original, encoded, max).value[i].payload| == |original[i].payload| {
      AllStartsKept(original, max, encoded, last);
    }
  }

  /** Three frames of one octet each. */
  function Thirds(): seq<Frame> {
    [Frame(HEADERS, 0, 1, [130]), Frame(CONTINUATION, 0, 1, [132]), Frame(CONTINUATION, 4, 1, [135])]
  }

  lemma ThirdsAccepted()
    ensures HeaderSequence(Thirds()) && Accepts(Thirds(), 16384)
  {
    hide HeaderParts;
    var f := Thirds();
    ThirdsParts();
    assert !EndHeaders(f[0].flags) && !EndHeaders(f[1].flags) && EndHeaders(f[2].flags);
    assert FrameOk(f, 0, 16384) && FrameOk(f, 1, 16384) && FrameOk(f, 2, 16384);
  }

  lemma NoFlags()
    ensures !Padded(0) && !Priority(0)
  {
  }

  /** With a block of one octet in place of three, the second fragment is emptied, not only the last. */
  lemma EarlierFragmentShrinks()
    ensures HeaderSequence(Thirds()) && Accepts(Thirds(), 16384)
    ensures |Reframed(Thirds(), [130], 16384).value| >= 3
    ensures |Reframed(Thirds(), [130], 16384).value[1].payload| == 0 < |Thirds()[1].payload|
  {
    hide HeaderSequence, Accepts, Fill, HeaderParts, Padded, Priority;
    ThirdsAccepted();
    var f := Thirds();
    BoundariesKept(f, 16384, [130], 1);
    AtLeast(f, 16384, [130]);
    MarkLastShape(Fill(f, 0, 16384, [130]));
    assert Start(f, 1) == 1 && Start(f, 2) == 2 by {
      assert HeaderParts(f[0]).value.block == [130] by { ThirdsParts(); }
    }
  }

  lemma ThirdsParts()
    ensures HeaderParts(Thirds()[0]) == Some(Parts([], [], [130]))
  {
    hide Padded, Priority;
    NoFlags();
    var b: Bytes := [130];
    assert b[..0] == [] && b[1..] == [] && b[0..1] == b;
  }

  lemma AtLeast(original: seq<Frame>, max: nat, encoded: Bytes)
    requires Accepts(original, max)
    ensures Reframed(original, encoded, max).Some? && |Reframed(original, encoded, max).value| >= |original|
  {
    hide Fill, FrameOk;
    MarkLastShape(Fill(original, 0, max, encoded));
  }

  lemma {:induction false} AllStartsKept(original: seq<Frame>, max: nat, encoded: Bytes, n: nat)
    requires Accepts(original, max) && n < |original|
    requires (AtLeast(original, max, encoded);
              forall i :: 0 <= i < n ==> |Reframed(original, encoded, max).value[i].payload| == |original[i].payload|)
    ensures NewStart(original, encoded, n) == Start(original, n) <= |encoded|
    decreases n
  {
    hide Fill, FrameOk, HeaderParts, Reframed, Accepts;
    if n > 0 {
      AllStartsKept(original, max, encoded, n - 1);
      FragmentLength(original, max, encoded, n - 1);
    }
  }

  lemma {:induction false} SamePayloads(f: seq<Frame>, g: seq<Frame>)
    requires |f| == |g| && forall i :: 0 <= i < |f| ==> f[i].payload == g[i].payload
    ensures Payloads(f) == Payloads(g)
  {
    if f != [] {
      SamePayloads(f[1..], g[1..]);
    }
  }

  /** An original frame and what became of it: only the fragment and END_HEADERS may differ. */
  ghost predicate Kept(f: Frame, original: Frame) {
    f.kind == original.kind && f.stream == original.stream && ClearEnd(f.flags) == ClearEnd(original.flags)
  }

  /**
   `reframe` conserves the block: a receiver reassembles exactly `encoded`; every frame fits; padding,
   priority, kind and stream survive; the sequence is well formed; CONTINUATIONs are added only
   when the original frames cannot hold the block.
   */
  lemma Conserves(original: seq<Frame>, encoded: Bytes, max: nat)
    requires Accepts(original, max)
    ensures var out := Reframed(original, encoded, max).value;
            && HeaderSequence(out) && Carried(out) == encoded
            && (forall i :: 0 <= i < |out| ==> |out[i].payload| <= max)
            && |original| <= |out| && (forall i :: 0 <= i < |original| ==> Kept(out[i], original[i]))
            && HeaderParts(out[0]).value.prefix == HeaderParts(original[0]).value.prefix
            && HeaderParts(out[0]).value.padding == HeaderParts(original[0]).value.padding
            && (|out| > |original| <==> |encoded| > Capacity(original, 0, max))
  {
    hide ClearEnd, SetEnd, EndHeaders, Extra, Room, HeaderParts, Fill, Capacity;
    var f := Fill(original, 0, max, encoded);
    FillShape(original, 0, max, encoded);
    FillCount(original, 0, max, encoded);
    MarkLastShape(f);
    var out := MarkLast(f);
    forall i | 0 <= i < |out|
      ensures EndHeaders(out[i].flags) <==> i == |out| - 1
      ensures |out[i].payload| <= max
      ensures i >= 1 ==> Continues(out[i], original[0].stream)
      ensures i < |original| ==> Kept(out[i], original[i])
    {
      assert EndHeaders(0) == false by { EndFlagOnly(0); ZeroFlags(); }
      if i < |original| {
        EndFlagOnly(original[i].flags);
        EndFlagOnly(ClearEnd(original[i].flags));
        assert KeepsFrame(f[i - 0], original[i]);
        assert FrameOk(original, i, max);
      } else {
        EndFlagOnly(0);
        assert IsExtra(f[i], original[0].stream);
      }
    }
    EndFlagOnly(original[0].flags);
    EndFlagOnly(ClearEnd(original[0].flags));
    FirstFrame(original, encoded, max, out[0].flags);
    assert out[0] == f[0].(flags := out[0].flags);
    SamePayloads(out[1..], f[1..]);
  }

  lemma ZeroFlags()
    ensures !EndHeaders(0)
  {
  }

  lemma FirstFrame(original: seq<Frame>, encoded: Bytes, max: nat, flags: Byte)
    requires Accepts(original, max)
    requires Padded(flags) == Padded(original[0].flags) && Priority(flags) == Priority(original[0].flags)
    ensures var n := Min(Room(original, 0, max), |encoded|);
            && HeaderParts(Refilled(original, 0, encoded[..n]).(flags := flags))
               == Some(HeaderParts(original[0]).value.(block := encoded[..n]))
            && encoded[..n] + Payloads(Fill(original, 0, max, encoded)[1..]) == encoded
            && Fill(original, 0, max, encoded)[0] == Refilled(original, 0, encoded[..n])
  {
    hide HeaderParts, Extra, ClearEnd, Fill, Payloads, Room, Padded, Priority;
    var n := Min(Room(original, 0, max), |encoded|);
    FillStep(original, 0, max, encoded);
    FillPayloads(original, 1, max, encoded[n..]);
    PartsOfRefilled(original[0], flags, encoded[..n]);
    assert encoded[..n] + encoded[n..] == encoded;
  }

  // ----- How far the original frames reach -----

  /** What a single frame carries beside its fragment; CONTINUATIONs carry nothing else. */
  function Beside(original: seq<Frame>): nat
    requires original != [] && HeaderParts(original[0]).Some?
  {
    var p := HeaderParts(original[0]).value;
    if |original| == 1 then |p.prefix| + |p.padding| else 0
  }

  lemma LastRoom(original: seq<Frame>, max: nat)
    requires original != [] && HeaderParts(original[0]).Some? && |original[0].payload| <= max
    ensures Beside(original) <= max && Room(original, |original| - 1, max) == max - Beside(original)
  {
  }

  lemma {:induction false} CapacityIs(original: seq<Frame>, i: nat, max: nat)
    requires Accepts(original, max) && i < |original|
    ensures Start(original, i) + Capacity(original, i, max)
            == Start(original, |original| - 1) + Room(original, |original| - 1, max)
    decreases |original| - i
  {
    OneFrame(original, i, max);
    hide Accepts, FrameOk, Start, Room, HeaderParts;
    if i + 1 < |original| {
      StartNext(original, i, max);
      CapacityIs(original, i + 1, max);
    }
  }

  /** The last original frame is filled to `max` before the first frame is added. */
  lemma LastFilled(original: seq<Frame>, encoded: Bytes, max: nat)
    requires Accepts(original, max)
    ensures var (f, last) := (Fill(original, 0, max, encoded), |original| - 1);
            |f| > |original| ==>
              && (forall i :: last <= i < |f| - 1 ==> |f[i].payload| == max)
              && (forall i :: |original| <= i < |f| ==> f[i].payload != [])
  {
    OneFrame(original, 0, max);
    OneFrame(original, |original| - 1, max);
    hide Accepts, FrameOk, Start, NewStart, HeaderParts, Fill, Extra, Room, Refilled;
    var f, last := Fill(original, 0, max, encoded), |original| - 1;
    FramesFrom(original, max, encoded, last);
    var b := encoded[NewStart(original, encoded, last)..];
    var n := Min(Room(original, last, max), |b|);
    FillStep(original, last, max, b);
    FillDone(original, max, b[n..]);
    var more := Extra(original[0].stream, max, b[n..]);
    DropOne(f, last, Refilled(original, last, b[..n]), more);
    ExtraDone(original[0].stream, max);
    if |f| > |original| {
      assert b[n..] != [];
      ExtraFull(original, max, b[n..]);
      LastRoom(original, max);
      RefilledFull(original, max, b[..n]);
      forall i | last <= i < |f| - 1 ensures |f[i].payload| == max {
        if i > last {
          assert f[i] == f[last + 1..][i - last - 1] == more[i - last - 1];
        }
      }
      forall i | |original| <= i < |f| ensures f[i].payload != [] {
        assert f[i] == f[last + 1..][i - last - 1] == more[i - last - 1];
      }
    }
  }

  lemma ExtraFull(original: seq<Frame>, max: nat, b: Bytes)
    requires Accepts(original, max)
    ensures var f := Extra(original[0].stream, max, b);
            (forall k :: 0 <= k < |f| - 1 ==> |f[k].payload| == max) && forall k :: 0 <= k < |f| ==> f[k].payload != []
  {
    hide Extra, HeaderParts, FrameOk;
    ExtraShape(original[0].stream, max, b);
  }

  lemma RefilledFull(original: seq<Frame>, max: nat, fragment: Bytes)
    requires original != [] && HeaderParts(original[0]).Some? && |original[0].payload| <= max
    requires |fragment| == max - Beside(original)
    ensures |Refilled(original, |original| - 1, fragment).payload| == max
  {
    hide HeaderParts, ClearEnd;
  }

  /**
   Frames are added exactly when the block reaches beyond the last original frame filled to the limit;
   then that frame and every added one but the final one are full, and the final one is not empty.
   */
  lemma GrowthIff(original: seq<Frame>, encoded: Bytes, max: nat)
    requires Accepts(original, max)
    ensures var (out, last) := (Reframed(original, encoded, max).value, |original| - 1);
            && (|out| > |original| <==> |encoded| > Start(original, last) + max - Beside(original))
            && (|out| > |original| ==> forall i :: last <= i < |out| - 1 ==> |out[i].payload| == max)
            && forall i :: |original| <= i < |out| ==> out[i].payload != []
  {
    OneFrame(original, 0, max);
    hide FrameOk, Start, Beside, HeaderParts, Fill, Room, Capacity;
    FillCount(original, 0, max, encoded);
    CapacityIs(original, 0, max);
    StartZero(original);
    LastRoom(original, max);
    MarkLastShape(Fill(original, 0, max, encoded));
    LastFilled(original, encoded, max);
  }

  lemma StartZero(original: seq<Frame>)
    requires original != [] && HeaderParts(original[0]).Some?
    ensures Start(original, 0) == 0
  {
  }

  // ----- The unchanged block -----

  lemma {:induction false} FillSame(original: seq<Frame>, i: nat, max: nat)
    requires Accepts(original, max) && HeaderSequence(original) && 1 <= i <= |original|
    ensures var f := Fill(original, i, max, Payloads(original[i..]));
            && |f| == |original| - i
            && forall k :: 0 <= k < |f| ==> f[k] == original[i + k].(flags := ClearEnd(original[i + k].flags))
    decreases |original| - i
  {
    hide HeaderParts, ClearEnd, Extra;
    if i == |original| {
      ExtraDone(original[0].stream, max);
    } else {
      assert FrameOk(original, i, max);
      var b := Payloads(original[i..]);
      assert original[i..][0] == original[i] && original[i..][1..] == original[i + 1..];
      var n := Min(Room(original, i, max), |b|);
      assert n == |original[i].payload| by {
        if i + 1 == |original| {
          assert Payloads(original[i + 1..]) == [];
        }
      }
      assert b[..n] == original[i].payload && b[n..] == Payloads(original[i + 1..]);
      FillSame(original, i + 1, max);
      assert [] + b[..n] + [] == b[..n];
    }
  }

  /** With the block unchanged the original frames come back, octet for octet. */
  lemma SameBlockSameFrames(original: seq<Frame>, max: nat)
    requires Accepts(original, max) && HeaderSequence(original)
    ensures Reframed(original, Carried(original), max) == Some(original)
  {
    hide HeaderParts, ClearEnd, SetEnd, Extra, EndHeaders;
    var b := Carried(original);
    var p := HeaderParts(original[0]).value;
    PartsMakePayload(original[0]);
    assert FrameOk(original, 0, max);
    var n := Min(Room(original, 0, max), |b|);
    assert n == |p.block| by {
      if |original| == 1 {
        assert Payloads(original[1..]) == [];
      }
    }
    assert b[..n] == p.block && b[n..] == Payloads(original[1..]);
    FillSame(original, 1, max);
    var f := Fill(original, 0, max, b);
    MarkLastShape(f);
    forall i | 0 <= i < |original| ensures MarkLast(f)[i] == original[i] {
      EndFlagOnly(original[i].flags);
      FlagsSame(original[i].flags);
    }
    assert MarkLast(f) == original;
  }

  lemma FlagsSame(flags: Byte)
    ensures EndHeaders(flags) ==> SetEnd(ClearEnd(flags)) == flags
    ensures !EndHeaders(flags) ==> ClearEnd(flags) == flags
  {
    EndFlagOnly(flags);
  }
}

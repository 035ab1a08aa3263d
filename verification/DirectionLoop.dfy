/** `Frame::read`, `Frame::write` and `direction` of src/h2.rs over streams, proved against Direction. */
module DirectionLoop {
  import opened Octets
  import opened Frames
  import opened Reframe
  import opened RewriteSpec
  import opened Direction
  import opened Streams
  import HeaderRewriter

  /** A stream as the octets still to be read. */
  class Reader {
    var rest: Bytes

    constructor (b: Bytes)
      ensures rest == b
    {
      rest := b;
    }

    /** `read_exact`: all `n` octets or an error. */
    method ReadExact(n: nat) returns (r: Option<Bytes>)
      modifies this
      ensures if n <= |old(rest)| then r == Some(old(rest)[..n]) && rest == old(rest)[n..] else r.None?
    {
      if n > |rest| {
        return None;
      }
      r := Some(rest[..n]);
      rest := rest[n..];
    }

    /** One frame, the end of the stream between frames, or an error. */
    method ReadFrame() returns (r: Read)
      modifies this
      ensures match Frames.ReadFrame(old(rest), MAX_BLOCK)
              case Eof => r.Eof? && rest == []
              case Bad => r.Bad?
              case Got(frame, rest') => r == Got(frame, rest') && rest == rest'
    {
      ghost var b := rest;
      if rest == [] {
        return Eof;
      }
      var first := ReadExact(1);
      var others := ReadExact(8);
      if others.None? {
        return Bad;
      }
      var h := first.value + others.value;
      assert h == b[..9] && rest == b[9..];
      var n := PayloadLength(h);
      if n > MAX_BLOCK {
        return Bad;
      }
      var payload := ReadExact(n);
      if payload.None? {
        return Bad;
      }
      assert payload.value == b[9..9 + n] && rest == b[9 + n..];
      return Got(Frame(h[3], h[4], StreamOf(h), payload.value), rest);
    }
  }

  method WriteFrame(w: Writer, f: Frame) returns (ok: bool)
    modifies w
    ensures ok <==> |f.payload| <= MAX_LENGTH
    ensures w.sent == if ok then old(w.sent) + FrameBytes(f) else old(w.sent)
  {
    if |f.payload| > MAX_LENGTH {
      return false;
    }
    w.WriteAll(HeadBytes(|f.payload|, f.kind, f.flags, f.stream));
    w.WriteAll(f.payload);
    Assoc(old(w.sent), HeadBytes(|f.payload|, f.kind, f.flags, f.stream), f.payload);
    return true;
  }

  /** The limits a peer has announced, shared by the two directions. */
  class PeerLimits {
    var table: nat
    var frame: nat

    constructor ()
      ensures table == 4096 && frame == 16384
    {
      table, frame := 4096, 16384;
    }
  }

  /** The limits after the entries of one SETTINGS frame. */
  function Announced(entries: seq<(nat, nat)>, limits: (nat, nat)): (nat, nat) {
    if entries == [] then limits
    else
      var (id, value) := entries[0];
      Announced(entries[1..], if id == TABLE_SIZE then (value, limits.1)
                              else if id == FRAME_SIZE then (limits.0, value) else limits)
  }

  /** SETTINGS entries are stored for the other direction one by one, before the frame is forwarded. */
  method Announce(frame: Frame, other: PeerLimits) returns (ok: bool)
    modifies other
    ensures ok <==> SettingsOk(frame)
    ensures ok ==> (other.table, other.frame) == Announced(Settings(frame).value, (old(other.table), old(other.frame)))
  {
    var entries := Settings(frame);
    if entries.None? {
      return false;
    }
    var es := entries.value;
    var i: nat := 0;
    assert es[0..] == es;
    while i < |es|
      invariant i <= |es|
      invariant forall j :: 0 <= j < i ==> es[j].0 == FRAME_SIZE ==> FrameSizeOk(es[j].1)
      invariant Announced(es, (old(other.table), old(other.frame))) == Announced(es[i..], (other.table, other.frame))
    {
      assert es[i..][0] == es[i] && es[i..][1..] == es[i + 1..];
      var (id, value) := es[i];
      if id == TABLE_SIZE {
        other.table := value;
      } else if id == FRAME_SIZE {
        if !FrameSizeOk(value) {
          return false;
        }
        other.frame := value;
      }
      i := i + 1;
    }
    return true;
  }

  method WriteFrames(w: Writer, frames: seq<Frame>)
    requires forall i :: 0 <= i < |frames| ==> |frames[i].payload| <= MAX_LENGTH
    modifies w
    ensures w.sent == old(w.sent) + AllBytes(frames)
  {
    hide FrameBytes;
    var i: nat := 0;
    assert frames[0..] == frames;
    while i < |frames|
      invariant i <= |frames|
      invariant w.sent + AllBytes(frames[i..]) == old(w.sent) + AllBytes(frames)
    {
      assert frames[i..][0] == frames[i] && frames[i..][1..] == frames[i + 1..];
      Assoc(w.sent, FrameBytes(frames[i]), AllBytes(frames[i + 1..]));
      var ok := WriteFrame(w, frames[i]);
      i := i + 1;
    }
    assert AllBytes(frames[i..]) == [];
  }

  /** The CONTINUATIONs of a header sequence. */
  method GatherBlock(r: Reader, first: Frame, start: Bytes) returns (g: Option<Gathered>)
    modifies r
    ensures match Gather([first], start, old(r.rest))
            case None => g.None?
            case Some(g') => g == Some(g') && r.rest == g'.rest
  {
    hide EndHeaders, Frames.ReadFrame;
    var original, block, flags := [first], start, first.flags;
    while !EndHeaders(flags)
      invariant original != [] && original[0] == first && original[|original| - 1].flags == flags
      invariant Gather(original, block, r.rest) == Gather([first], start, old(r.rest))
      decreases |r.rest|
    {
      var next := r.ReadFrame();
      if !next.Got? {
        return None;
      }
      var frame := next.frame;
      if frame.kind != CONTINUATION || frame.stream != original[0].stream {
        return None;
      }
      if |block| + |frame.payload| > MAX_BLOCK {
        return None;
      }
      flags := frame.flags;
      block := block + frame.payload;
      original := original + [frame];
      if |original| > MAX_FRAMES {
        return None;
      }
    }
    return Some(Gathered(original, block, r.rest));
  }

  /** What one header sequence leaves: the rewriter's tables, the octets still to read, those written. */
  datatype Passed = Passed(st: State, rest: Bytes, out: Bytes)

  /** The header sequence that starts with `frame` and goes on in `rest`. */
  function Pass(st: State, frame: Frame, rest: Bytes, limits: (nat, nat), mapping: ValueMap, response: bool)
    : Option<Passed>
  {
    match HeaderParts(frame)
    case None => None
    case Some(parts) =>
      match Gather([frame], parts.block, rest)
      case None => None
      case Some(g) =>
        match RewriteSpec.Rewrite(st, g.block, mapping, response, limits.0)
        case None => None
        case Some(p) =>
          match Reframed(g.frames, p.1, limits.1)
          case None => None
          case Some(out) => Some(Passed(p.0, g.rest, AllBytes(out)))
  }

  method PassHeaders(r: Reader, w: Writer, rewriter: HeaderRewriter.Rewriter, frame: Frame, limits: (nat, nat),
                     mapping: ValueMap, response: bool)
    returns (ok: bool)
    requires rewriter.Valid()
    modifies r, w, rewriter, rewriter.outbound
    ensures match Pass(old(rewriter.Value()), frame, old(r.rest), limits, mapping, response)
            case None => !ok
            case Some(p) =>
              && ok && rewriter.Valid() && rewriter.Value() == p.st && r.rest == p.rest
              && w.sent == old(w.sent) + p.out
  {
    hide Frames.ReadFrame, Gather, RewriteSpec.Rewrite, Reframed, AllBytes, HeaderParts;
    var parts := HeaderParts(frame);
    if parts.None? {
      return false;
    }
    var g := GatherBlock(r, frame, parts.value.block);
    if g.None? {
      return false;
    }
    var encoded := rewriter.Rewrite(g.value.block, mapping, response, limits.0);
    if encoded.None? {
      return false;
    }
    var frames := Reframe.Reframe(g.value.frames, encoded.value, limits.1);
    if frames.None? {
      return false;
    }
    FramesFit(g.value.frames, encoded.value, limits.1);
    WriteFrames(w, frames.value);
    return true;
  }

  /** Whether a frame that is not HEADERS is let through. */
  predicate Forwarded(frame: Frame) {
    && (frame.kind == SETTINGS ==> SettingsOk(frame))
    && frame.kind != PUSH_PROMISE && frame.kind != CONTINUATION
  }

  /** Any other frame: refused, or stored if it announces limits, and written as it is. */
  method PassOther(w: Writer, frame: Frame, other: PeerLimits) returns (ok: bool)
    requires |frame.payload| <= MAX_LENGTH && frame.kind != HEADERS
    modifies w, other
    ensures ok <==> Forwarded(frame)
    ensures ok ==> w.sent == old(w.sent) + FrameBytes(frame)
    ensures ok ==> (other.table, other.frame)
                   == Announced(Announces(frame), (old(other.table), old(other.frame)))
  {
    hide FrameBytes, Settings, SettingsOk;
    OnlySettings(frame);
    AnnouncedNothing((other.table, other.frame));
    if frame.kind == SETTINGS {
      var stored := Announce(frame, other);
      if !stored {
        return false;
      }
    }
    if frame.kind == PUSH_PROMISE || frame.kind == CONTINUATION {
      return false;
    }
    ok := WriteFrame(w, frame);
  }

  /** `direction`: on success exactly `Direct` has been written; the writer never meets an oversized frame. */
  method RunDirection(r: Reader, w: Writer, mapping: ValueMap, response: bool, loads: Loads, other: PeerLimits)
    returns (ok: bool)
    modifies r, w, other
    ensures match Direct(old(r.rest), loads, mapping, response)
            case None => !ok
            case Some(out) => ok && r.rest == [] && w.sent == old(w.sent) + out
    ensures ok ==> (other.table, other.frame)
                   == Announced(Told(AfterPreface(old(r.rest), response)), (old(other.table), old(other.frame)))
  {
    hide Frames.ReadFrame, Forward, Pass, FrameBytes, SettingsOk, Told, Announced, Announces, Carries;
    var rewriter := new HeaderRewriter.Rewriter();
    if !response {
      var preface := r.ReadExact(24);
      if preface.None? || preface.value != PREFACE {
        return false;
      }
      w.WriteAll(preface.value);
    }
    ghost var sent := w.sent;
    ghost var goal := Forward(INITIAL, 0, r.rest, loads, mapping, response);
    ghost var told := Announced(Told(r.rest), (other.table, other.frame));
    ghost var written: Bytes := [];
    var k: nat := 0;
    CarryStart(r.rest, (other.table, other.frame), loads, mapping, response);
    while true
      invariant rewriter.Valid() && fresh(rewriter) && fresh(rewriter.outbound)
      invariant w.sent == sent + written
      invariant Carries(goal, told, written, rewriter.Value(), k, r.rest, (other.table, other.frame),
                        loads, mapping, response)
      decreases |r.rest|
    {
      ghost var st := rewriter.Value();
      CarryTurn(goal, told, written, st, k, r.rest, (other.table, other.frame), loads, mapping, response);
      var next := r.ReadFrame();
      if next.Bad? {
        return false;
      }
      if next.Eof? {
        return true;
      }
      var frame := next.frame;
      if frame.kind == HEADERS {
        ghost var p := Pass(st, frame, r.rest, loads(k), mapping, response);
        ok := PassHeaders(r, w, rewriter, frame, loads(k), mapping, response);
        if !ok {
          return;
        }
        Assoc(sent, written, p.value.out);
        written := written + p.value.out;
        k := k + 1;
      } else {
        ok := PassOther(w, frame, other);
        if !ok {
          return;
        }
        Assoc(sent, written, FrameBytes(frame));
        written := written + FrameBytes(frame);
      }
    }
  }

  /** What is written and stored so far, with what the rest will add, is the whole. */
  ghost predicate Carries(goal: Option<Bytes>, told: (nat, nat), written: Bytes, st: State, k: nat, rest: Bytes,
                          limits: (nat, nat), loads: Loads, mapping: ValueMap, response: bool) {
    && goal == Prepend(written, Forward(st, k, rest, loads, mapping, response))
    && told == Announced(Told(rest), limits)
  }

  lemma CarryStart(rest: Bytes, limits: (nat, nat), loads: Loads, mapping: ValueMap, response: bool)
    ensures Carries(Forward(INITIAL, 0, rest, loads, mapping, response), Announced(Told(rest), limits), [], INITIAL, 0,
                    rest, limits, loads, mapping, response)
  {
    hide Forward, Told, Announced;
    PrependNothing(Forward(INITIAL, 0, rest, loads, mapping, response));
  }

  lemma CarryTurn(goal: Option<Bytes>, told: (nat, nat), written: Bytes, st: State, k: nat, b: Bytes,
                  limits: (nat, nat), loads: Loads, mapping: ValueMap, response: bool)
    requires Carries(goal, told, written, st, k, b, limits, loads, mapping, response)
    ensures
      var read := Frames.ReadFrame(b, MAX_BLOCK);
      if read.Eof? then goal == Some(written) && told == limits
      else if read.Bad? then goal.None?
      else if read.frame.kind == HEADERS then
        var p := Pass(st, read.frame, read.rest, loads(k), mapping, response);
        if p.None? then goal.None?
        else
          && |p.value.rest| < |b|
          && Carries(goal, told, written + p.value.out, p.value.st, k + 1, p.value.rest, limits, loads, mapping,
                     response)
      else
        && |read.frame.payload| <= MAX_BLOCK
        && if Forwarded(read.frame) then
             Carries(goal, told, written + FrameBytes(read.frame), st, k, read.rest,
                     Announced(Announces(read.frame), limits), loads, mapping, response)
           else goal.None?
  {
    hide Frames.ReadFrame, Forward, Pass, FrameBytes, SettingsOk, Told, Announced, Announces;
    Turn(st, k, b, loads, mapping, response);
    ToldTurn(st, b, loads(k), mapping, response);
    AnnouncedNothing(limits);
    var read := Frames.ReadFrame(b, MAX_BLOCK);
    if read.Eof? {
      assert written + [] == written;
    } else if read.Got? && read.frame.kind == HEADERS {
      var p := Pass(st, read.frame, read.rest, loads(k), mapping, response);
      if p.Some? {
        PrependTwice(written, p.value.out, Forward(p.value.st, k + 1, p.value.rest, loads, mapping, response));
      }
    } else if read.Got? {
      PrependTwice(written, FrameBytes(read.frame), Forward(st, k, read.rest, loads, mapping, response));
      AnnouncedConcat(Announces(read.frame), Told(read.rest), limits);
    }
  }

  lemma PrependNothing(r: Option<Bytes>)
    ensures Prepend([], r) == r
  {
    if r.Some? {
      assert [] + r.value == r.value;
    }
  }

  lemma PrependTwice(a: Bytes, b: Bytes, r: Option<Bytes>)
    ensures Prepend(a, Prepend(b, r)) == Prepend(a + b, r)
  {
    if r.Some? {
      Assoc(a, b, r.value);
    }
  }

  lemma FramesFit(original: seq<Frame>, encoded: Bytes, max: nat)
    requires Reframed(original, encoded, max).Some?
    ensures forall i :: 0 <= i < |Reframed(original, encoded, max).value| ==>
              |Reframed(original, encoded, max).value[i].payload| <= MAX_LENGTH
  {
    hide Fill, MarkLast, HeaderParts;
    Conserves(original, encoded, max);
  }

  /** The value last announced for an identifier. */
  function LatestOf(entries: seq<(nat, nat)>, id: nat, otherwise: nat): nat {
    if entries == [] then otherwise
    else
      var last := entries[|entries| - 1];
      if last.0 == id then last.1 else LatestOf(entries[..|entries| - 1], id, otherwise)
  }

  /** A cell holds what was last announced for identifier 1, the table size, and for 5, the frame size. */
  lemma {:induction false} AnnouncedIs(entries: seq<(nat, nat)>, limits: (nat, nat))
    ensures Announced(entries, limits) == (LatestOf(entries, 1, limits.0), LatestOf(entries, 5, limits.1))
    decreases |entries|
  {
    if entries != [] {
      var n := |entries| - 1;
      AnnouncedIs(entries[..n], limits);
      AnnouncedConcat(entries[..n], [entries[n]], limits);
      assert entries == entries[..n] + [entries[n]];
      OneAnnounced(entries[n], Announced(entries[..n], limits));
    }
  }

  lemma OneAnnounced(e: (nat, nat), limits: (nat, nat))
    ensures Announced([e], limits) == (if e.0 == 1 then e.1 else limits.0, if e.0 == 5 then e.1 else limits.1)
  {
    assert [e][1..] == [];
  }

  lemma OnlySettings(frame: Frame)
    ensures SettingsOk(frame) ==> frame.kind == SETTINGS
  {
  }

  lemma AnnouncedNothing(limits: (nat, nat))
    ensures Announced([], limits) == limits
  {
  }

  lemma {:induction false} AnnouncedConcat(a: seq<(nat, nat)>, b: seq<(nat, nat)>, limits: (nat, nat))
    ensures Announced(a + b, limits) == Announced(b, Announced(a, limits))
    decreases |a|
  {
    if a == [] {
      assert a + b == b;
    } else {
      assert (a + b)[1..] == a[1..] + b;
      var (id, value) := a[0];
      AnnouncedConcat(a[1..], b, if id == TABLE_SIZE then (value, limits.1)
                                 else if id == FRAME_SIZE then (limits.0, value) else limits);
    }
  }

  /** What a turn reads of SETTINGS. */
  lemma ToldTurn(st: State, b: Bytes, limits: (nat, nat), mapping: ValueMap, response: bool)
    ensures match Frames.ReadFrame(b, MAX_BLOCK)
            case Eof => Told(b) == []
            case Bad => true
            case Got(frame, rest) =>
              if frame.kind == HEADERS then
                match Pass(st, frame, rest, limits, mapping, response)
                case None => true
                case Some(p) => Told(b) == Told(p.rest)
              else Told(b) == Announces(frame) + Told(rest)
  {
    hide Frames.ReadFrame, Gather, RewriteSpec.Rewrite, Reframed, AllBytes, HeaderParts, Announces;
  }

  /** One turn of the loop, as Direction sees it. */
  lemma Turn(st: State, k: nat, b: Bytes, loads: Loads, mapping: ValueMap, response: bool)
    ensures var goal := Forward(st, k, b, loads, mapping, response);
            match Frames.ReadFrame(b, MAX_BLOCK)
            case Eof => goal == Some([])
            case Bad => goal.None?
            case Got(frame, rest) =>
              && |frame.payload| <= MAX_BLOCK
              && if frame.kind == HEADERS then
                   match Pass(st, frame, rest, loads(k), mapping, response)
                   case None => goal.None?
                   case Some(p) =>
                     && |p.rest| < |b|
                     && goal == Prepend(p.out, Forward(p.st, k + 1, p.rest, loads, mapping, response))
                 else if Forwarded(frame) then
                   goal == Prepend(FrameBytes(frame), Forward(st, k, rest, loads, mapping, response))
                 else goal.None?
  {
    hide Frames.ReadFrame, Gather, RewriteSpec.Rewrite, Reframed, AllBytes, FrameBytes, HeaderParts, SettingsOk;
  }
}

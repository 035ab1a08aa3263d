/** Exactly which octets a direction accepts. */
module DirectionAccepts {
  import opened Octets
  import opened StaticTable
  import opened Frames
  import opened Reframe
  import opened RewriteSpec
  import opened Direction
  import opened DirectionTheorems

  /** A frame forwarded by itself: no HEADERS, PUSH_PROMISE or CONTINUATION, and SETTINGS only if well-formed. */
  ghost predicate PlainUnit(u: Unit) {
    && |u| == 1 && u[0].kind !in [1, 5, 9] && |u[0].payload| <= 1048576
    && (u[0].kind == 4 ==> exists es: seq<(nat, nat)> :: Says(u[0], es) && SizesOk(es))
  }

  /** Frame sizes within the range of section 6.5.2 of RFC 9113. */
  ghost predicate SizesOk(es: seq<(nat, nat)>) {
    forall i :: 0 <= i < |es| ==> es[i].0 == 5 ==> 16384 <= es[i].1 <= 16777215
  }

  /** HEADERS and its CONTINUATIONs, at most 1024 frames and 1 MiB, under a frame limit `max`. */
  ghost predicate HeaderUnit(u: Unit, max: nat) {
    && 1 <= |u| <= 1024 && u[0].kind == 1 && HeaderParts(u[0]).Some?
    && (forall i :: 1 <= i < |u| ==> u[i].kind == 9 && u[i].stream == u[0].stream)
    && (forall i :: 0 <= i < |u| ==> (u[i].flags / 4 % 2 == 1 <==> i == |u| - 1))
    && |Carried(u)| <= 1048576
    && 16384 <= max <= 16777215
    && forall i :: 0 <= i < |u| ==> |u[i].payload| <= 1048576 && |u[i].payload| <= max
  }

  /** Units that are accepted one after the other, the rewriter's tables carried along. */
  ghost predicate Accepted(st: State, k: nat, us: seq<Unit>, loads: Loads, mapping: ValueMap, response: bool)
    decreases |us|
  {
    us == [] ||
    if us[0] != [] && us[0][0].kind == 1 then
      && HeaderUnit(us[0], loads(k).1)
      && var r := Rewrite(st, Carried(us[0]), mapping, response, loads(k).0);
         r.Some? && Accepted(r.value.0, k + 1, us[1..], loads, mapping, response)
    else PlainUnit(us[0]) && Accepted(st, k, us[1..], loads, mapping, response)
  }

  // ----- The conditions are those of the code -----

  lemma PlainUnitIff(frame: Frame)
    requires |frame.payload| <= MAX_BLOCK
    ensures PlainUnit([frame]) <==>
              && frame.kind != HEADERS && frame.kind != PUSH_PROMISE && frame.kind != CONTINUATION
              && (frame.kind == SETTINGS ==> SettingsOk(frame))
  {
    hide Settings, Says;
    if frame.kind == SETTINGS {
      if SettingsOk(frame) {
        SettingsIff(frame, Settings(frame).value);
      }
      forall es | Says(frame, es) ensures Settings(frame) == Some(es) {
        SettingsIff(frame, es);
      }
    }
  }

  lemma HeaderUnitIff(u: Unit, max: nat)
    ensures HeaderUnit(u, max) <==>
              && HeaderSequence(u) && |u| <= MAX_FRAMES && |Carried(u)| <= MAX_BLOCK && Accepts(u, max)
              && forall i :: 0 <= i < |u| ==> |u[i].payload| <= MAX_BLOCK
  {
    hide Carried;
    assert u != [] && HeaderParts(u[0]).Some? ==> u[0].kind == 1;
    hide HeaderParts;
    if HeaderUnit(u, max) {
      forall i | 0 <= i < |u| ensures FrameOk(u, i, max) {
      }
    }
    if u != [] && HeaderParts(u[0]).Some? && Accepts(u, max) {
      forall i | 0 <= i < |u| ensures |u[i].payload| <= max {
        assert FrameOk(u, i, max);
      }
    }
  }

  // ----- Accepted octets are such units -----

  lemma {:induction false} GatherBounds(frames: seq<Frame>, block: Bytes, b: Bytes)
    requires frames != [] && |frames| <= MAX_FRAMES && |block| <= MAX_BLOCK && Gather(frames, block, b).Some?
    ensures var g := Gather(frames, block, b).value; |g.frames| <= MAX_FRAMES && |g.block| <= MAX_BLOCK
    decreases |b|
  {
    hide ReadFrame, EndHeaders;
    if !EndHeaders(frames[|frames| - 1].flags) {
      var r := ReadFrame(b, MAX_BLOCK);
      GatherBounds(frames + [r.frame], block + r.frame.payload, r.rest);
    }
  }

  lemma HeaderTurnUnit(st: State, k: nat, b: Bytes, loads: Loads, mapping: ValueMap, response: bool)
    returns (g: Gathered, st': State)
    requires Forward(st, k, b, loads, mapping, response).Some?
    requires ReadFrame(b, MAX_BLOCK).Got? && ReadFrame(b, MAX_BLOCK).frame.kind == HEADERS
    ensures HeaderUnit(g.frames, loads(k).1) && |g.rest| < |b| && b == AllBytes(g.frames) + g.rest
    ensures Rewrite(st, Carried(g.frames), mapping, response, loads(k).0).Some?
    ensures st' == Rewrite(st, Carried(g.frames), mapping, response, loads(k).0).value.0
    ensures Forward(st', k + 1, g.rest, loads, mapping, response).Some?
  {
    hide HeaderParts, FrameBytes, Gather, Rewrite, ReadFrame, AllBytes, HeaderSequence, Fill, MarkLast, Accepts,
      HeaderUnit;
    var frame, rest := ReadFrame(b, MAX_BLOCK).frame, ReadFrame(b, MAX_BLOCK).rest;
    var parts := HeaderParts(frame).value;
    g := Gather([frame], parts.block, rest).value;
    StartGathering(frame);
    GatherIsCollect([frame], parts.block, rest);
    GatherBounds([frame], parts.block, rest);
    ReadThenWrite(b, MAX_BLOCK);
    AllBytesCons(frame, []);
    AllBytesEmpty();
    assert [frame] + [] == [frame] && FrameBytes(frame) + [] == FrameBytes(frame);
    st' := Rewrite(st, g.block, mapping, response, loads(k).0).value.0;
    HeaderUnitIff(g.frames, loads(k).1);
  }

  lemma {:induction false} ForwardUnits(st: State, k: nat, b: Bytes, loads: Loads, mapping: ValueMap, response: bool)
    returns (us: seq<Unit>)
    requires Forward(st, k, b, loads, mapping, response).Some?
    ensures UnitBytes(us) == b && Accepted(st, k, us, loads, mapping, response)
    decreases |b|
  {
    hide ReadFrame, Rewrite, Carried, FrameBytes, AllBytes, SettingsOk, PlainUnit, HeaderUnit, Forward;
    NotBadHere(st, k, b, loads, mapping, response);
    var r := ReadFrame(b, MAX_BLOCK);
    if r.Got? {
      if r.frame.kind == HEADERS {
        var g, st' := HeaderTurnUnit(st, k, b, loads, mapping, response);
        var rest := ForwardUnits(st', k + 1, g.rest, loads, mapping, response);
        us := [g.frames] + rest;
        assert us[1..] == rest;
        HeaderUnitKind(g.frames, loads(k).1);
      } else {
        OtherTurn(st, k, b, loads, mapping, response);
        var rest := ForwardUnits(st, k, r.rest, loads, mapping, response);
        us := [[r.frame]] + rest;
        assert us[1..] == rest;
        PlainUnitIff(r.frame);
        OneFrameBytes(r.frame);
      }
    } else {
      EofOnly(b);
      us := [];
    }
  }

  lemma NotBadHere(st: State, k: nat, b: Bytes, loads: Loads, mapping: ValueMap, response: bool)
    requires Forward(st, k, b, loads, mapping, response).Some?
    ensures !ReadFrame(b, MAX_BLOCK).Bad?
  {
  }

  lemma HeaderUnitKind(u: Unit, max: nat)
    requires HeaderUnit(u, max)
    ensures u != [] && u[0].kind == 1 && HeaderParts(u[0]).Some?
  {
  }

  lemma OneFrameBytes(frame: Frame)
    ensures AllBytes([frame]) == FrameBytes(frame)
  {
    hide FrameBytes;
    AllBytesEmpty();
    assert FrameBytes(frame) + [] == FrameBytes(frame);
  }

  // ----- Such units are accepted -----

  /** A header sequence within the bounds is gathered whole. */
  lemma {:induction false} GatherWritten(u: Unit, n: nat, block: Bytes, rest: Bytes)
    requires HeaderSequence(u) && 1 <= n <= |u| <= MAX_FRAMES && |Carried(u)| <= MAX_BLOCK
    requires forall i :: 0 <= i < |u| ==> |u[i].payload| <= MAX_BLOCK
    requires Carried(u) == block + Payloads(u[n..])
    ensures Gather(u[..n], block, AllBytes(u[n..]) + rest) == Some(Gathered(u, Carried(u), rest))
    decreases |u| - n
  {
    hide FrameBytes, EndHeaders, HeaderParts, ReadFrame, Carried;
    assert u[..n][|u[..n]| - 1] == u[n - 1];
    if n == |u| {
      assert u[..n] == u && AllBytes(u[n..]) + rest == rest && block + Payloads(u[n..]) == block;
    } else {
      var next := u[n];
      assert u[n..][0] == next && u[n..][1..] == u[n + 1..];
      assert AllBytes(u[n..]) + rest == FrameBytes(next) + (AllBytes(u[n + 1..]) + rest);
      WriteThenRead(next, AllBytes(u[n + 1..]) + rest, MAX_BLOCK);
      Assoc(block, next.payload, Payloads(u[n + 1..]));
      assert u[..n] + [next] == u[..n + 1];
      assert Continues(next, u[0].stream);
      GatherWritten(u, n + 1, block + next.payload, rest);
    }
  }

  lemma HeaderForward(st: State, k: nat, u: Unit, rest: Bytes, loads: Loads, mapping: ValueMap, response: bool)
    requires HeaderUnit(u, loads(k).1)
    requires var r := Rewrite(st, Carried(u), mapping, response, loads(k).0);
             r.Some? && Forward(r.value.0, k + 1, rest, loads, mapping, response).Some?
    ensures Forward(st, k, AllBytes(u) + rest, loads, mapping, response).Some?
  {
    hide FrameBytes, ReadFrame, HeaderParts, Rewrite, Gather, HeaderSequence, HeaderUnit, Fill, MarkLast, Accepts,
      Payloads;
    HeaderUnitIff(u, loads(k).1);
    HeaderFirst(u);
    var tail := AllBytes(u[1..]) + rest;
    assert AllBytes(u) + rest == FrameBytes(u[0]) + tail;
    WriteThenRead(u[0], tail, MAX_BLOCK);
    assert u[..1] == [u[0]];
    GatherWritten(u, 1, HeaderParts(u[0]).value.block, rest);
  }

  lemma PlainForward(st: State, k: nat, frame: Frame, rest: Bytes, loads: Loads, mapping: ValueMap, response: bool)
    requires |frame.payload| <= MAX_BLOCK && PlainUnit([frame])
    requires Forward(st, k, rest, loads, mapping, response).Some?
    ensures Forward(st, k, FrameBytes(frame) + rest, loads, mapping, response).Some?
  {
    hide FrameBytes, ReadFrame, SettingsOk, PlainUnit;
    PlainUnitIff(frame);
    WriteThenRead(frame, rest, MAX_BLOCK);
  }

  lemma {:induction false} UnitsForward(st: State, k: nat, us: seq<Unit>, loads: Loads, mapping: ValueMap,
                                        response: bool)
    requires Accepted(st, k, us, loads, mapping, response)
    ensures Forward(st, k, UnitBytes(us), loads, mapping, response).Some?
    decreases |us|
  {
    hide AllBytes, Carried, Rewrite, HeaderUnit, HeaderParts;
    if us == [] {
      NothingForward(st, k, loads, mapping, response);
    } else {
      hide Forward;
      var rest := UnitBytes(us[1..]);
      if us[0] != [] && us[0][0].kind == 1 {
        HeaderUnitKind(us[0], loads(k).1);
        UnitsForward(Rewrite(st, Carried(us[0]), mapping, response, loads(k).0).value.0, k + 1, us[1..], loads, mapping,
                     response);
        HeaderForward(st, k, us[0], rest, loads, mapping, response);
      } else {
        UnitsForward(st, k, us[1..], loads, mapping, response);
        PlainForward(st, k, us[0][0], rest, loads, mapping, response);
        assert us[0] == [us[0][0]];
        OneFrameBytes(us[0][0]);
      }
    }
  }

  lemma NothingForward(st: State, k: nat, loads: Loads, mapping: ValueMap, response: bool)
    ensures Forward(st, k, [], loads, mapping, response) == Some([])
  {
  }

  // ----- The whole connection -----

  lemma PrefaceIs()
    ensures PREFACE == Ascii("PRI * HTTP/2.0\r\n\r\nSM\r\n\r\n")
  {
  }

  /** The octets of a connection: units after the preface, which only requests carry. */
  ghost predicate Sends(b: Bytes, us: seq<Unit>, response: bool) {
    b == (if response then [] else Ascii("PRI * HTTP/2.0\r\n\r\nSM\r\n\r\n")) + UnitBytes(us)
  }

  /** A direction runs to the orderly end of its input exactly when that is the preface and accepted units. */
  lemma DirectIff(b: Bytes, loads: Loads, mapping: ValueMap, response: bool)
    ensures Direct(b, loads, mapping, response).Some? <==>
              exists us :: Sends(b, us, response) && Accepted(INITIAL, 0, us, loads, mapping, response)
  {
    hide Forward, UnitBytes, Accepted;
    PrefaceIs();
    var head := if response then [] else PREFACE;
    if Direct(b, loads, mapping, response).Some? {
      assert response ==> b[0..] == b;
      var us := ForwardUnits(INITIAL, 0, b[|head|..], loads, mapping, response);
      assert b == head + b[|head|..];
      assert Sends(b, us, response);
    }
    forall us | Sends(b, us, response) && Accepted(INITIAL, 0, us, loads, mapping, response)
      ensures Direct(b, loads, mapping, response).Some?
    {
      UnitsForward(INITIAL, 0, us, loads, mapping, response);
      assert b[|head|..] == UnitBytes(us) && b[..|head|] == head;
      assert response ==> b == UnitBytes(us);
    }
  }
}

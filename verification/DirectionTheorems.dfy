/** What a receiver of one direction sees: the same units, header blocks rewritten. */
module DirectionTheorems {
  import opened Octets
  import opened HpackTable
  import opened HpackReference
  import opened Frames
  import opened Reframe
  import opened RewriteSpec
  import opened RewriteMeaning
  import opened RewriteTheorems
  import opened RewriteKept
  import opened Direction

  // ----- Reference: a receiver of frames -----

  /** A frame on its own, or HEADERS with its CONTINUATIONs. */
  type Unit = seq<Frame>

  /** The rest of a header sequence: only CONTINUATIONs of the stream, until END_HEADERS. */
  function Collect(frames: seq<Frame>, b: Bytes): (r: Option<(Unit, Bytes)>)
    requires frames != []
    ensures r.Some? ==> |r.value.1| <= |b|
    decreases |b|
  {
    if EndHeaders(frames[|frames| - 1].flags) then Some((frames, b))
    else match ReadFrame(b, MAX_LENGTH)
      case Got(next, rest) =>
        if next.kind != CONTINUATION || next.stream != frames[0].stream then None
        else Collect(frames + [next], rest)
      case _ => None
  }

  /** A well-formed frame stream, section 4.3 and 6.10 of RFC 9113: no CONTINUATION out of place. */
  function Units(b: Bytes): Option<seq<Unit>>
    decreases |b|
  {
    match ReadFrame(b, MAX_LENGTH)
    case Eof => Some([])
    case Bad => None
    case Got(frame, rest) =>
      if frame.kind == CONTINUATION then None
      else if frame.kind != HEADERS then
        (match Units(rest) case None => None case Some(us) => Some([[frame]] + us))
      else if HeaderParts(frame).None? then None
      else match Collect([frame], rest)
        case None => None
        case Some((u, rest')) =>
          (match Units(rest') case None => None case Some(us) => Some([u] + us))
  }

  function UnitBytes(us: seq<Unit>): Bytes {
    if us == [] then [] else AllBytes(us[0]) + UnitBytes(us[1..])
  }

  predicate IsHeader(u: Unit) {
    u != [] && u[0].kind == HEADERS && HeaderParts(u[0]).Some?
  }

  /** The header blocks of the units, with the table limits loaded for them. */
  function Calls(us: seq<Unit>, k: nat, loads: Loads): seq<Call> {
    if us == [] then []
    else if IsHeader(us[0]) then [Call(Carried(us[0]), loads(k).0)] + Calls(us[1..], k + 1, loads)
    else Calls(us[1..], k, loads)
  }

  /** Every unit passes as it is, or is the original header sequence holding another block. */
  ghost predicate Translated(us: seq<Unit>, vs: seq<Unit>, k: nat, loads: Loads) {
    if us == [] then vs == []
    else
      && vs != []
      && if IsHeader(us[0]) then
           && HeaderSequence(us[0]) && HeaderSequence(vs[0])
           && Reframed(us[0], Carried(vs[0]), loads(k).1) == Some(vs[0])
           && Translated(us[1..], vs[1..], k + 1, loads)
         else vs[0] == us[0] && Translated(us[1..], vs[1..], k, loads)
  }

  // ----- Writing and collecting -----

  lemma WiderLimit(b: Bytes)
    requires ReadFrame(b, MAX_BLOCK) != Bad
    ensures ReadFrame(b, MAX_LENGTH) == ReadFrame(b, MAX_BLOCK)
  {
  }

  lemma {:induction false} AllBytesConcat(f: seq<Frame>, g: seq<Frame>)
    ensures AllBytes(f + g) == AllBytes(f) + AllBytes(g)
  {
    hide FrameBytes, AllBytes;
    if f == [] {
      AllBytesEmpty();
      assert f + g == g && AllBytes([]) + AllBytes(g) == AllBytes(g);
    } else {
      AllBytesConcat(f[1..], g);
      assert f + g == [f[0]] + (f[1..] + g) && f == [f[0]] + f[1..];
      AllBytesCons(f[0], f[1..] + g);
      AllBytesCons(f[0], f[1..]);
      Assoc(FrameBytes(f[0]), AllBytes(f[1..]), AllBytes(g));
    }
  }

  lemma AllBytesEmpty()
    ensures AllBytes([]) == []
  {
  }

  lemma AllBytesCons(f: Frame, frames: seq<Frame>)
    ensures AllBytes([f] + frames) == FrameBytes(f) + AllBytes(frames)
  {
    hide FrameBytes;
  }

  /** A header sequence that was written is collected again. */
  lemma {:induction false} CollectWritten(out: seq<Frame>, n: nat, rest: Bytes)
    requires HeaderSequence(out) && 1 <= n <= |out|
    requires forall i :: 0 <= i < |out| ==> |out[i].payload| <= MAX_LENGTH
    ensures Collect(out[..n], AllBytes(out[n..]) + rest) == Some((out, rest))
    decreases |out| - n
  {
    hide FrameBytes, EndHeaders, HeaderParts, ReadFrame;
    assert out[..n][|out[..n]| - 1] == out[n - 1];
    if n == |out| {
      assert out[..n] == out && AllBytes(out[n..]) + rest == rest;
    } else {
      var next := out[n];
      assert out[n..][0] == next && out[n..][1..] == out[n + 1..];
      assert AllBytes(out[n..]) + rest == FrameBytes(next) + (AllBytes(out[n + 1..]) + rest);
      WriteThenRead(next, AllBytes(out[n + 1..]) + rest, MAX_LENGTH);
      assert out[..n] + [next] == out[..n + 1];
      assert Continues(next, out[0].stream);
      CollectWritten(out, n + 1, rest);
    }
  }

  lemma UnitsHeader(out: seq<Frame>, rest: Bytes)
    requires HeaderSequence(out) && forall i :: 0 <= i < |out| ==> |out[i].payload| <= MAX_LENGTH
    requires Units(rest).Some?
    ensures Units(AllBytes(out) + rest) == Some([out] + Units(rest).value)
  {
    hide FrameBytes, ReadFrame, Collect, HeaderSequence;
    HeaderFirst(out);
    var tail := AllBytes(out[1..]) + rest;
    assert AllBytes(out) + rest == FrameBytes(out[0]) + tail;
    WriteThenRead(out[0], tail, MAX_LENGTH);
    CollectWritten(out, 1, rest);
    assert out[..1] == [out[0]];
  }

  lemma HeaderFirst(out: seq<Frame>)
    requires HeaderSequence(out)
    ensures out != [] && out[0].kind == HEADERS && IsHeader(out)
  {
  }

  lemma UnitsOther(frame: Frame, rest: Bytes)
    requires |frame.payload| <= MAX_LENGTH && frame.kind != HEADERS && frame.kind != CONTINUATION
    requires Units(rest).Some?
    ensures Units(FrameBytes(frame) + rest) == Some([[frame]] + Units(rest).value)
  {
    hide FrameBytes, ReadFrame;
    WriteThenRead(frame, rest, MAX_LENGTH);
  }

  lemma AllBytesSnoc(frames: seq<Frame>, f: Frame)
    ensures AllBytes(frames + [f]) == AllBytes(frames) + FrameBytes(f)
  {
    hide FrameBytes, AllBytes;
    AllBytesConcat(frames, [f]);
    AllBytesCons(f, []);
    AllBytesEmpty();
    assert [f] + [] == [f] && FrameBytes(f) + [] == FrameBytes(f);
  }

  /** The frames gathered so far, as the bridge accumulates them. */
  ghost predicate Gathering(frames: seq<Frame>, block: Bytes) {
    && frames != [] && HeaderParts(frames[0]).Some? && Carried(frames) == block
    && (forall i :: 1 <= i < |frames| ==> Continues(frames[i], frames[0].stream))
    && (forall i :: 0 <= i < |frames| - 1 ==> !EndHeaders(frames[i].flags))
    && forall i :: 0 <= i < |frames| ==> |frames[i].payload| <= MAX_BLOCK
  }

  lemma {:induction false} PayloadsSnoc(frames: seq<Frame>, f: Frame)
    ensures Payloads(frames + [f]) == Payloads(frames) + f.payload
  {
    if frames == [] {
      assert frames + [f] == [f] && Payloads([]) == [];
      assert Payloads([f]) == f.payload + Payloads([]);
    } else {
      PayloadsSnoc(frames[1..], f);
      assert (frames + [f])[1..] == frames[1..] + [f];
    }
  }

  lemma GatheringNext(frames: seq<Frame>, block: Bytes, next: Frame)
    requires Gathering(frames, block) && !EndHeaders(frames[|frames| - 1].flags)
    requires Continues(next, frames[0].stream) && |next.payload| <= MAX_BLOCK
    ensures Gathering(frames + [next], block + next.payload)
  {
    hide HeaderParts, EndHeaders, Payloads;
    var all := frames + [next];
    PayloadsSnoc(frames[1..], next);
    assert all[1..] == frames[1..] + [next];
    Assoc(HeaderParts(frames[0]).value.block, Payloads(frames[1..]), next.payload);
    forall i | 1 <= i < |all| ensures Continues(all[i], all[0].stream) {
      if i < |frames| {
        assert Continues(frames[i], frames[0].stream);
      }
    }
  }

  /** What the bridge gathers is a header sequence, with the block it carries. */
  lemma {:induction false} GatherIsCollect(frames: seq<Frame>, block: Bytes, b: Bytes)
    requires Gathering(frames, block) && Gather(frames, block, b).Some?
    ensures var g := Gather(frames, block, b).value;
            && HeaderSequence(g.frames) && Carried(g.frames) == g.block && frames <= g.frames
            && Collect(frames, b) == Some((g.frames, g.rest))
            && AllBytes(frames) + b == AllBytes(g.frames) + g.rest
            && forall i :: 0 <= i < |g.frames| ==> |g.frames[i].payload| <= MAX_BLOCK
    decreases |b|
  {
    hide HeaderParts, EndHeaders, FrameBytes, ReadFrame;
    if !EndHeaders(frames[|frames| - 1].flags) {
      var r := ReadFrame(b, MAX_BLOCK);
      GatheringNext(frames, block, r.frame);
      hide Gathering, HeaderSequence, AllBytes, Carried;
      WiderLimit(b);
      ReadThenWrite(b, MAX_BLOCK);
      GatherIsCollect(frames + [r.frame], block + r.frame.payload, r.rest);
      AllBytesSnoc(frames, r.frame);
      Assoc(AllBytes(frames), FrameBytes(r.frame), r.rest);
    }
  }

  // ----- The direction -----

  /** What one run of `Forward` establishes about its input and output. */
  ghost predicate Conveys(st: State, k: nat, b: Bytes, out: Bytes, loads: Loads, mapping: ValueMap, response: bool,
                          us: seq<Unit>, vs: seq<Unit>, end: State) {
    && Units(b) == Some(us) && Units(out) == Some(vs)
    && UnitBytes(us) == b && UnitBytes(vs) == out
    && Translated(us, vs, k, loads)
    && RewriteAll(st, Calls(us, k, loads), mapping, response) == Some((end, Calls(vs, k, loads)))
  }

  lemma ConveysNothing(st: State, k: nat, loads: Loads, mapping: ValueMap, response: bool)
    ensures Conveys(st, k, [], [], loads, mapping, response, [], [], st)
  {
  }

  lemma ConveysOther(st: State, k: nat, rest: Bytes, out: Bytes, loads: Loads, mapping: ValueMap, response: bool,
                     us: seq<Unit>, vs: seq<Unit>, end: State, frame: Frame)
    requires Conveys(st, k, rest, out, loads, mapping, response, us, vs, end)
    requires |frame.payload| <= MAX_BLOCK && frame.kind != HEADERS && frame.kind != CONTINUATION
    ensures Conveys(st, k, FrameBytes(frame) + rest, FrameBytes(frame) + out, loads, mapping, response,
                    [[frame]] + us, [[frame]] + vs, end)
  {
    hide FrameBytes, Units, RewriteAll, HeaderSequence, Reframed, Carried;
    UnitsOther(frame, rest);
    UnitsOther(frame, out);
    AllBytesCons(frame, []);
    AllBytesEmpty();
    assert [frame] + [] == [frame] && FrameBytes(frame) + [] == FrameBytes(frame);
    hide AllBytes;
    assert ([[frame]] + us)[1..] == us && ([[frame]] + vs)[1..] == vs;
  }

  lemma ConveysHeader(st: State, k: nat, rest: Bytes, out: Bytes, loads: Loads, mapping: ValueMap, response: bool,
                      us: seq<Unit>, vs: seq<Unit>, end: State, u: Unit, v: Unit, st': State)
    requires Conveys(st', k + 1, rest, out, loads, mapping, response, us, vs, end)
    requires HeaderSequence(u) && HeaderSequence(v)
    requires forall i :: 0 <= i < |u| ==> |u[i].payload| <= MAX_LENGTH
    requires forall i :: 0 <= i < |v| ==> |v[i].payload| <= MAX_LENGTH
    requires Reframed(u, Carried(v), loads(k).1) == Some(v)
    requires Rewrite(st, Carried(u), mapping, response, loads(k).0) == Some((st', Carried(v)))
    ensures Conveys(st, k, AllBytes(u) + rest, AllBytes(v) + out, loads, mapping, response, [u] + us, [v] + vs, end)
  {
    hide Units, HeaderSequence, Reframed, Carried, AllBytes, HeaderParts, Rewrite, IsHeader, RewriteAll;
    ConsUnits(u, us, rest);
    ConsUnits(v, vs, out);
    ConsCalls(u, us, k, loads);
    ConsCalls(v, vs, k, loads);
    ConsTranslated(u, us, v, vs, k, loads);
    RewriteAllCons(st, Call(Carried(u), loads(k).0), Calls(us, k + 1, loads), mapping, response, st', Carried(v));
  }

  lemma ConsUnits(u: Unit, us: seq<Unit>, rest: Bytes)
    requires HeaderSequence(u) && forall i :: 0 <= i < |u| ==> |u[i].payload| <= MAX_LENGTH
    requires Units(rest) == Some(us) && UnitBytes(us) == rest
    ensures u != [] && HeaderParts(u[0]).Some?
    ensures Units(AllBytes(u) + rest) == Some([u] + us) && UnitBytes([u] + us) == AllBytes(u) + rest
  {
    UnitsHeader(u, rest);
    hide Units, HeaderSequence, AllBytes;
    assert ([u] + us)[1..] == us;
  }

  lemma ConsCalls(u: Unit, us: seq<Unit>, k: nat, loads: Loads)
    requires HeaderSequence(u)
    ensures Calls([u] + us, k, loads) == [Call(Carried(u), loads(k).0)] + Calls(us, k + 1, loads)
  {
    HeaderFirst(u);
    hide HeaderSequence, Carried, IsHeader;
    assert ([u] + us)[1..] == us;
  }

  lemma ConsTranslated(u: Unit, us: seq<Unit>, v: Unit, vs: seq<Unit>, k: nat, loads: Loads)
    requires HeaderSequence(u) && HeaderSequence(v) && Reframed(u, Carried(v), loads(k).1) == Some(v)
    requires Translated(us, vs, k + 1, loads)
    ensures Translated([u] + us, [v] + vs, k, loads)
  {
    HeaderFirst(u);
    hide HeaderSequence, Carried, IsHeader, Reframed;
    assert ([u] + us)[1..] == us && ([v] + vs)[1..] == vs;
  }

  lemma RewriteAllCons(st: State, call: Call, rest: seq<Call>, mapping: ValueMap, response: bool,
                       next: State, out: Bytes)
    requires Rewrite(st, call.block, mapping, response, call.limit) == Some((next, out))
    requires RewriteAll(next, rest, mapping, response).Some?
    ensures var (end, outs) := RewriteAll(next, rest, mapping, response).value;
            RewriteAll(st, [call] + rest, mapping, response) == Some((end, [call.(block := out)] + outs))
  {
    hide Rewrite;
    assert ([call] + rest)[1..] == rest;
  }

  /** One turn of the loop that meets HEADERS. */
  lemma HeaderTurn(st: State, k: nat, b: Bytes, loads: Loads, mapping: ValueMap, response: bool)
    returns (g: Gathered, st': State, v: Unit)
    requires Forward(st, k, b, loads, mapping, response).Some?
    requires ReadFrame(b, MAX_BLOCK).Got? && ReadFrame(b, MAX_BLOCK).frame.kind == HEADERS
    ensures HeaderSequence(g.frames) && HeaderSequence(v) && |g.rest| < |b| && b == AllBytes(g.frames) + g.rest
    ensures forall i :: 0 <= i < |g.frames| ==> |g.frames[i].payload| <= MAX_LENGTH
    ensures forall i :: 0 <= i < |v| ==> |v[i].payload| <= MAX_LENGTH
    ensures Reframed(g.frames, Carried(v), loads(k).1) == Some(v)
    ensures Rewrite(st, Carried(g.frames), mapping, response, loads(k).0) == Some((st', Carried(v)))
    ensures Forward(st, k, b, loads, mapping, response)
            == Prepend(AllBytes(v), Forward(st', k + 1, g.rest, loads, mapping, response))
    ensures Told(b) == Told(g.rest)
  {
    hide HeaderParts, FrameBytes, Gather, Reframed, Rewrite, ReadFrame, AllBytes, HeaderSequence;
    var frame, rest := ReadFrame(b, MAX_BLOCK).frame, ReadFrame(b, MAX_BLOCK).rest;
    var parts := HeaderParts(frame).value;
    g := Gather([frame], parts.block, rest).value;
    StartGathering(frame);
    GatherIsCollect([frame], parts.block, rest);
    ReadThenWrite(b, MAX_BLOCK);
    AllBytesCons(frame, []);
    AllBytesEmpty();
    assert [frame] + [] == [frame] && FrameBytes(frame) + [] == FrameBytes(frame);
    var r := Rewrite(st, g.block, mapping, response, loads(k).0).value;
    st' := r.0;
    v := Reframed(g.frames, r.1, loads(k).1).value;
    WrittenSequence(g.frames, r.1, loads(k).1);
  }

  lemma StartGathering(frame: Frame)
    requires HeaderParts(frame).Some? && |frame.payload| <= MAX_BLOCK
    ensures Gathering([frame], HeaderParts(frame).value.block)
  {
    hide HeaderParts;
    var block := HeaderParts(frame).value.block;
    assert block + [] == block;
  }

  lemma WrittenSequence(u: Unit, encoded: Bytes, max: nat)
    requires Reframed(u, encoded, max).Some?
    ensures var v := Reframed(u, encoded, max).value;
            && HeaderSequence(v) && Carried(v) == encoded
            && forall i :: 0 <= i < |v| ==> |v[i].payload| <= MAX_LENGTH
  {
    hide Fill, MarkLast, HeaderParts, HeaderSequence;
    Conserves(u, encoded, max);
  }

  /** One turn of the loop that forwards a frame as it is. */
  lemma OtherTurn(st: State, k: nat, b: Bytes, loads: Loads, mapping: ValueMap, response: bool)
    requires Forward(st, k, b, loads, mapping, response).Some?
    requires ReadFrame(b, MAX_BLOCK).Got? && ReadFrame(b, MAX_BLOCK).frame.kind != HEADERS
    ensures var r := ReadFrame(b, MAX_BLOCK);
            && r.frame.kind != CONTINUATION && r.frame.kind != PUSH_PROMISE
            && (r.frame.kind == SETTINGS ==> SettingsOk(r.frame))
            && b == FrameBytes(r.frame) + r.rest
            && Forward(st, k, b, loads, mapping, response)
               == Prepend(FrameBytes(r.frame), Forward(st, k, r.rest, loads, mapping, response))
            && Told(b) == Announces(r.frame) + Told(r.rest)
  {
    hide FrameBytes, SettingsOk, ReadFrame, Settings;
    ReadThenWrite(b, MAX_BLOCK);
  }

  /**
   A run that ends without error writes a well-formed frame stream with the units it read: other frames
   as they were, header sequences refilled with the blocks of one run of the rewriter.
   */
  lemma {:induction false} ForwardConveys(st: State, k: nat, b: Bytes, loads: Loads, mapping: ValueMap, response: bool)
    returns (us: seq<Unit>, vs: seq<Unit>, end: State)
    requires Forward(st, k, b, loads, mapping, response).Some?
    ensures Conveys(st, k, b, Forward(st, k, b, loads, mapping, response).value, loads, mapping, response, us, vs, end)
    decreases |b|
  {
    hide Conveys, ReadFrame, Reframed, Rewrite, HeaderSequence, Carried, Gather, FrameBytes, AllBytes, SettingsOk;
    var r := ReadFrame(b, MAX_BLOCK);
    if r.Got? {
      if r.frame.kind == HEADERS {
        var g, st', v := HeaderTurn(st, k, b, loads, mapping, response);
        hide Forward;
        us, vs, end := ForwardConveys(st', k + 1, g.rest, loads, mapping, response);
        ConveysHeader(st, k, g.rest, Forward(st', k + 1, g.rest, loads, mapping, response).value,
                      loads, mapping, response, us, vs, end, g.frames, v, st');
        us, vs := [g.frames] + us, [v] + vs;
      } else {
        OtherTurn(st, k, b, loads, mapping, response);
        hide Forward;
        us, vs, end := ForwardConveys(st, k, r.rest, loads, mapping, response);
        ConveysOther(st, k, r.rest, Forward(st, k, r.rest, loads, mapping, response).value,
                     loads, mapping, response, us, vs, end, r.frame);
        us, vs := [[r.frame]] + us, [[r.frame]] + vs;
      }
    } else {
      EofOnly(b);
      ConveysNothing(st, k, loads, mapping, response);
      us, vs, end := [], [], st;
    }
  }

  /** The SETTINGS entries among the units, as whoever reads them learns of them. */
  function EntriesOf(us: seq<Unit>): seq<(nat, nat)> {
    if us == [] then []
    else (if |us[0]| == 1 then Announces(us[0][0]) else []) + EntriesOf(us[1..])
  }

  lemma HeadersTellNothing(u: Unit, us: seq<Unit>)
    requires HeaderSequence(u)
    ensures EntriesOf([u] + us) == EntriesOf(us)
  {
    HeaderFirst(u);
    hide HeaderSequence, HeaderParts;
    assert ([u] + us)[1..] == us && [] + EntriesOf(us) == EntriesOf(us);
  }

  lemma OneTells(frame: Frame, us: seq<Unit>)
    ensures EntriesOf([[frame]] + us) == Announces(frame) + EntriesOf(us)
  {
    hide Announces;
    assert ([[frame]] + us)[1..] == us;
  }

  lemma NothingTold()
    ensures Units([]) == Some([]) && Told([]) == [] && EntriesOf([]) == []
  {
  }

  lemma NotBad(st: State, k: nat, b: Bytes, loads: Loads, mapping: ValueMap, response: bool)
    requires Forward(st, k, b, loads, mapping, response).Some?
    ensures !ReadFrame(b, MAX_BLOCK).Bad?
  {
    hide ReadFrame;
  }

  /** What a direction reads of SETTINGS is what stands among the units it reads. */
  lemma {:induction false} ToldInUnits(st: State, k: nat, b: Bytes, loads: Loads, mapping: ValueMap, response: bool)
    requires Forward(st, k, b, loads, mapping, response).Some?
    ensures Units(b).Some? && Told(b) == EntriesOf(Units(b).value)
    decreases |b|
  {
    hide Forward, Units, Told, EntriesOf, HeaderSequence, AllBytes, FrameBytes, Reframed, Rewrite, Gather, Carried,
      SettingsOk, Announces, HeaderParts, ReadFrame;
    NotBad(st, k, b, loads, mapping, response);
    var r := ReadFrame(b, MAX_BLOCK);
    if r.Eof? {
      EofOnly(b);
      NothingTold();
    } else if r.frame.kind == HEADERS {
      var g, st', v := HeaderTurn(st, k, b, loads, mapping, response);
      ToldInUnits(st', k + 1, g.rest, loads, mapping, response);
      UnitsHeader(g.frames, g.rest);
      HeadersTellNothing(g.frames, Units(g.rest).value);
    } else {
      OtherTurn(st, k, b, loads, mapping, response);
      GotShorter(b);
      ToldInUnits(st, k, r.rest, loads, mapping, response);
      UnitsOther(r.frame, r.rest);
      OneTells(r.frame, Units(r.rest).value);
    }
  }

  lemma GotShorter(b: Bytes)
    ensures var r := ReadFrame(b, MAX_BLOCK);
            r.Got? ==> |r.rest| < |b| && |r.frame.payload| <= MAX_BLOCK
  {
    hide PayloadLength;
  }

  lemma {:induction false} TranslatedTells(us: seq<Unit>, vs: seq<Unit>, k: nat, loads: Loads)
    requires Translated(us, vs, k, loads)
    ensures EntriesOf(vs) == EntriesOf(us)
    decreases |us|
  {
    hide HeaderSequence, Reframed, Carried, Announces;
    if us != [] {
      assert us == [us[0]] + us[1..] && vs == [vs[0]] + vs[1..];
      if IsHeader(us[0]) {
        HeadersTellNothing(us[0], us[1..]);
        HeadersTellNothing(vs[0], vs[1..]);
        TranslatedTells(us[1..], vs[1..], k + 1, loads);
      } else {
        TranslatedTells(us[1..], vs[1..], k, loads);
      }
    }
  }

  /**
   The entries a direction stores for the other one are those the receiver of its output reads: both
   fold the same announcements.
   */
  lemma StoredIsConveyed(b: Bytes, loads: Loads, mapping: ValueMap, response: bool)
    requires Direct(b, loads, mapping, response).Some?
    ensures var out := Direct(b, loads, mapping, response).value;
            && Received(out, response).Some?
            && EntriesOf(Received(out, response).value) == Told(AfterPreface(b, response))
  {
    hide Forward, Conveys, Told, EntriesOf, Units, Translated;
    var out := Direct(b, loads, mapping, response).value;
    var head, us, vs, end := DirectConveys(b, loads, mapping, response);
    assert response ==> b[0..] == b && out[0..] == out;
    ConveysTranslated(INITIAL, 0, b[|head|..], out[|head|..], loads, mapping, response, us, vs, end);
    TranslatedTells(us, vs, 0, loads);
    ToldInUnits(INITIAL, 0, AfterPreface(b, response), loads, mapping, response);
  }

  lemma ConveysTranslated(st: State, k: nat, b: Bytes, out: Bytes, loads: Loads, mapping: ValueMap, response: bool,
                          us: seq<Unit>, vs: seq<Unit>, end: State)
    requires Conveys(st, k, b, out, loads, mapping, response, us, vs, end)
    ensures Units(b) == Some(us) && Units(out) == Some(vs) && Translated(us, vs, k, loads)
  {
  }

  lemma EofOnly(b: Bytes)
    ensures ReadFrame(b, MAX_BLOCK).Eof? ==> b == []
  {
  }

  // ----- Whole connections -----

  lemma DirectConveys(b: Bytes, loads: Loads, mapping: ValueMap, response: bool)
    returns (head: Bytes, us: seq<Unit>, vs: seq<Unit>, end: State)
    requires Direct(b, loads, mapping, response).Some?
    ensures var out := Direct(b, loads, mapping, response).value;
            && head == (if response then [] else PREFACE) && head <= b && head <= out
            && Conveys(INITIAL, 0, b[|head|..], out[|head|..], loads, mapping, response, us, vs, end)
  {
    hide Forward, Conveys;
    head := if response then [] else PREFACE;
    us, vs, end := ForwardConveys(INITIAL, 0, b[|head|..], loads, mapping, response);
    assert response ==> b[0..] == b;
    assert Direct(b, loads, mapping, response).value[|head|..]
        == Forward(INITIAL, 0, b[|head|..], loads, mapping, response).value;
  }

  /** Both streams parse into units, each header sequence refilled, and decode to lists mapped one to one. */
  ghost predicate Delivered(b: Bytes, out: Bytes, loads: Loads, mapping: ValueMap, head: Bytes,
                            us: seq<Unit>, vs: seq<Unit>) {
    && b == head + UnitBytes(us) && Units(UnitBytes(us)) == Some(us)
    && out == head + UnitBytes(vs) && Units(UnitBytes(vs)) == Some(vs)
    && Translated(us, vs, 0, loads)
    && var sent := DecodeAll(INITIAL.inb, Calls(us, 0, loads));
       var received := DecodeAll(INITIAL.outb, Calls(vs, 0, loads));
       sent.Some? && received.Some? && MappedLists(sent.value.lists, received.value.lists, mapping)
  }

  /**
   End to end: whoever reads what a direction wrote finds the sender's units, each header sequence
   refilled within the limit loaded for it, and decodes the sender's headers with mapped values.
   */
  lemma EndToEnd(b: Bytes, loads: Loads, mapping: ValueMap, response: bool)
    returns (head: Bytes, us: seq<Unit>, vs: seq<Unit>)
    requires Direct(b, loads, mapping, response).Some?
    ensures head == (if response then [] else PREFACE)
    ensures Delivered(b, Direct(b, loads, mapping, response).value, loads, mapping, head, us, vs)
  {
    hide Direct, Units, Translated, RewriteAll, DecodeAll;
    var end;
    head, us, vs, end := DirectConveys(b, loads, mapping, response);
    ConnectionMeaning(Calls(us, 0, loads), mapping, response);
  }

  lemma {:induction false} SameCalls(st: State, calls: seq<Call>, mapping: ValueMap, response: bool)
    requires st.inb == st.outb && Valid(st)
    requires RewriteAll(st, calls, mapping, response).Some? && DecodeAll(st.inb, calls).Some?
    requires forall i :: 0 <= i < |DecodeAll(st.inb, calls).value.lists| ==>
               NoChange(DecodeAll(st.inb, calls).value.lists[i], mapping)
    ensures RewriteAll(st, calls, mapping, response).value.1 == calls
    decreases |calls|
  {
    hide Rewrite, DecodeBlock, Valid, NoChange, Agrees;
    if calls != [] {
      var call := calls[0];
      var st' := Rewrite(st, call.block, mapping, response, call.limit).value.0;
      var d := DecodeBlock(st.inb, call.block, Cap(call.limit), false).value;
      assert DecodeAll(st.inb, calls).value.lists[0] == d.headers;
      NoChangeNoRewrite(st, call.block, mapping, response, call.limit);
      BlockTable(st, call, mapping, response);
      var rest := DecodeAll(d.table, calls[1..]).value.lists;
      forall i | 0 <= i < |rest| ensures NoChange(rest[i], mapping) {
        assert DecodeAll(st.inb, calls).value.lists[i + 1] == rest[i];
      }
      SameCalls(st', calls[1..], mapping, response);
    }
  }

  lemma BlockTable(st: State, call: Call, mapping: ValueMap, response: bool)
    requires Valid(st) && Rewrite(st, call.block, mapping, response, call.limit).Some?
    requires DecodeBlock(st.inb, call.block, Cap(call.limit), false).Some?
    ensures var end := Rewrite(st, call.block, mapping, response, call.limit).value.0;
            Valid(end) && DecodeBlock(st.inb, call.block, Cap(call.limit), false).value.table == end.inb
  {
    hide Rewrite, DecodeBlock, Valid;
    BlockMeaning(st, call.block, mapping, response, call.limit);
  }

  /** Equal header blocks make equal frames. */
  lemma {:induction false} SameBlocksSameUnits(us: seq<Unit>, vs: seq<Unit>, k: nat, loads: Loads)
    requires Translated(us, vs, k, loads) && Calls(vs, k, loads) == Calls(us, k, loads)
    ensures vs == us
    decreases |us|
  {
    hide HeaderSequence, HeaderParts, Carried, Fill, MarkLast;
    if us != [] {
      if IsHeader(us[0]) {
        HeaderFirst(vs[0]);
        var tail, tail' := Calls(us[1..], k + 1, loads), Calls(vs[1..], k + 1, loads);
        assert Calls(us, k, loads)[0].block == Carried(us[0]) && Calls(vs, k, loads)[0].block == Carried(vs[0]);
        assert Calls(us, k, loads)[1..] == tail && Calls(vs, k, loads)[1..] == tail';
        SameBlockSameFrames(us[0], loads(k).1);
        SameBlocksSameUnits(us[1..], vs[1..], k + 1, loads);
      } else {
        SameBlocksSameUnits(us[1..], vs[1..], k, loads);
      }
      assert us == [us[0]] + us[1..] && vs == [vs[0]] + vs[1..];
    }
  }

  /** The units a direction reads after the preface. */
  function Received(b: Bytes, response: bool): Option<seq<Unit>> {
    if response then Units(b) else if |b| < |PREFACE| then None else Units(b[|PREFACE|..])
  }

  /** The header lists of the units decode, and the mapping leaves every value of them alone. */
  ghost predicate NothingMapped(us: seq<Unit>, loads: Loads, mapping: ValueMap) {
    var sent := DecodeAll(INITIAL.inb, Calls(us, 0, loads));
    sent.Some? && forall i :: 0 <= i < |sent.value.lists| ==> NoChange(sent.value.lists[i], mapping)
  }

  /** A direction on which the mapping changes no decoded value writes exactly the octets it read. */
  lemma Transparent(b: Bytes, loads: Loads, mapping: ValueMap, response: bool)
    requires Direct(b, loads, mapping, response).Some?
    ensures Received(b, response).Some?
    ensures NothingMapped(Received(b, response).value, loads, mapping) ==>
              Direct(b, loads, mapping, response) == Some(b)
  {
    hide Direct, Units, Translated, RewriteAll, DecodeAll, NoChange, Calls;
    var head, us, vs, end := DirectConveys(b, loads, mapping, response);
    assert response ==> b[0..] == b;
    if NothingMapped(us, loads, mapping) {
      SameCalls(INITIAL, Calls(us, 0, loads), mapping, response);
      SameBlocksSameUnits(us, vs, 0, loads);
      var out := Direct(b, loads, mapping, response).value;
      assert vs == us;
      assert out[|head|..] == b[|head|..];
      assert out[..|head|] == head && b[..|head|] == head;
      assert out == out[..|head|] + out[|head|..] && b == b[..|head|] + b[|head|..];
    }
  }
}

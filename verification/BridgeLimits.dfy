/**
 `bridge` of src/h2.rs: two directions share the limits each peer announced. Every atomic store, load,
 read and write is a step of its own; the steps of the two directions interleave freely. A failure of
 either direction ends both.
 */
module BridgeLimits {
  import opened Octets
  import Frames
  import RewriteSpec
  import DirectionLoop

  type Entry = (nat, nat)
  type Limits = (nat, nat)

  const DEFAULTS: Limits := (4096, 16384)

  /** The fold of `direction` over announced entries. */
  function Announced(log: seq<Entry>, limits: Limits): Limits {
    DirectionLoop.Announced(log, limits)
  }

  datatype Side = Client | Server

  function Other(x: Side): Side {
    if x == Client then Server else Client
  }

  // ----- The two limits -----

  datatype Limit = Table | FrameSize

  /** A limit as the bridge applies it: a table is never larger than its own maximum. */
  function InForce(limits: Limits, kind: Limit): nat {
    if kind == Table then RewriteSpec.Cap(limits.0) else limits.1
  }

  /** What concerns the limits in a header block: its table-size updates and its largest frame. */
  datatype Block = Block(updates: seq<nat>, largest: nat)

  predicate Fits(b: Block, limits: Limits, kind: Limit) {
    if kind == Table then forall i :: 0 <= i < |b.updates| ==> b.updates[i] <= InForce(limits, Table)
    else b.largest <= InForce(limits, FrameSize)
  }

  lemma FitsLarger(b: Block, small: Limits, large: Limits, kind: Limit)
    requires Fits(b, small, kind) && InForce(small, kind) <= InForce(large, kind)
    ensures Fits(b, large, kind)
  {
  }

  /** An entry the bridge accepts. */
  predicate EntryOk(e: Entry) {
    e.0 == 5 ==> 16384 <= e.1 <= 16777215
  }

  // ----- State -----

  /** SETTINGS entries, or a header block with the limits its sender had received when it sent it. */
  datatype Message = Settings(entries: seq<Entry>) | Headers(block: Block, allowed: Limits)

  /**
   What concerns the announcements and blocks of one side: the direction that carries them, the cell it
   stores to, and three logs of SETTINGS entries: sent by the side, stored in the cell, received by the other.
   `checked` says that the updates of the first waiting block have passed, and its frames have yet to.
   */
  datatype Lane = Lane(cell: Limits, toBridge: seq<Message>, storing: Option<seq<Entry>>, frame: seq<Entry>,
                       checked: bool, fromBridge: seq<Message>, sent: seq<Entry>, stored: seq<Entry>,
                       received: seq<Entry>)

  /** A block refused for a limit, or a SETTINGS frame refused for an entry. */
  datatype Failure = Refused(kind: Limit) | BadSettings

  datatype State = State(client: Lane, server: Lane, failed: Option<Failure>)

  const IDLE: Lane := Lane(DEFAULTS, [], None, [], false, [], [], [], [])
  const START: State := State(IDLE, IDLE, None)

  function LaneOf(s: State, x: Side): Lane {
    if x == Client then s.client else s.server
  }

  function WithLane(s: State, x: Side, l: Lane): State {
    if x == Client then s.(client := l) else s.(server := l)
  }

  /** The limits `x` has received from the other side: those it must keep to. */
  function Known(s: State, x: Side): Limits {
    Announced(LaneOf(s, Other(x)).received, DEFAULTS)
  }

  // ----- Steps -----

  datatype Step =
    | SendSettings(entries: seq<Entry>)
    | SendHeaders(block: Block)
    | ReadSettings
    | StoreEntry
    | ForwardSettings
    | CheckUpdates
    | CheckFrames
    | Receive

  /** A step of side `x` or of the direction that carries its frames. */
  ghost predicate Next(s: State, x: Side, step: Step, t: State) {
    var l := LaneOf(s, x);
    match step
    case SendSettings(es) =>
      t == WithLane(s, x, l.(toBridge := l.toBridge + [Settings(es)], sent := l.sent + es))
    case SendHeaders(block) =>
      t == WithLane(s, x, l.(toBridge := l.toBridge + [Headers(block, Known(s, x))]))
    case ReadSettings =>
      && s.failed.None? && l.storing.None? && l.toBridge != [] && l.toBridge[0].Settings?
      && t == WithLane(s, x, l.(toBridge := l.toBridge[1..], storing := Some(l.toBridge[0].entries),
                                frame := l.toBridge[0].entries))
    case StoreEntry =>
      && s.failed.None? && l.storing.Some? && l.storing.value != []
      && var e := l.storing.value[0];
         if EntryOk(e)
         then t == WithLane(s, x, l.(storing := Some(l.storing.value[1..]), stored := l.stored + [e],
                                     cell := Announced([e], l.cell)))
         else t == s.(failed := Some(BadSettings))
    case ForwardSettings =>
      && s.failed.None? && l.storing == Some([])
      && t == WithLane(s, x, l.(storing := None, frame := [], fromBridge := l.fromBridge + [Settings(l.frame)]))
    case CheckUpdates =>
      && s.failed.None? && l.storing.None? && l.toBridge != [] && l.toBridge[0].Headers? && !l.checked
      && if Fits(l.toBridge[0].block, LaneOf(s, Other(x)).cell, Table)
         then t == WithLane(s, x, l.(checked := true))
         else t == s.(failed := Some(Refused(Table)))
    case CheckFrames =>
      && s.failed.None? && l.storing.None? && l.toBridge != [] && l.toBridge[0].Headers? && l.checked
      && if Fits(l.toBridge[0].block, LaneOf(s, Other(x)).cell, FrameSize)
         then t == WithLane(s, x, l.(toBridge := l.toBridge[1..], checked := false,
                                     fromBridge := l.fromBridge + [l.toBridge[0]]))
         else t == s.(failed := Some(Refused(FrameSize)))
    case Receive =>
      && l.fromBridge != []
      && t == WithLane(s, x, l.(fromBridge := l.fromBridge[1..], received := l.received + Entries([l.fromBridge[0]])))
  }

  /** A run of the bridge: states joined by steps of either side. */
  ghost predicate Run(states: seq<State>, sides: seq<Side>, steps: seq<Step>) {
    && |states| == |steps| + 1 == |sides| + 1 && states[0] == START
    && forall i :: 0 <= i < |steps| ==> Next(states[i], sides[i], steps[i], states[i + 1])
  }

  // ----- Logs -----

  function Entries(ms: seq<Message>): seq<Entry> {
    if ms == [] then [] else (if ms[0].Settings? then ms[0].entries else []) + Entries(ms[1..])
  }

  lemma {:induction false} EntriesConcat(a: seq<Message>, b: seq<Message>)
    ensures Entries(a + b) == Entries(a) + Entries(b)
  {
    if a == [] {
      assert a + b == b;
    } else {
      EntriesConcat(a[1..], b);
      assert (a + b)[1..] == a[1..] + b;
    }
  }

  lemma EntriesOne(m: Message)
    ensures Entries([m]) == if m.Settings? then m.entries else []
  {
  }

  lemma AnnouncedConcat(a: seq<Entry>, b: seq<Entry>, limits: Limits)
    ensures Announced(a + b, limits) == Announced(b, Announced(a, limits))
  {
    DirectionLoop.AnnouncedConcat(a, b, limits);
  }

  /** The entries before the first one the bridge refuses: those it can ever store. */
  function Storable(log: seq<Entry>): (r: seq<Entry>)
    ensures r <= log
  {
    if log == [] || !EntryOk(log[0]) then []
    else
      var r := [log[0]] + Storable(log[1..]);
      assert log == [log[0]] + log[1..];
      r
  }

  ghost predicate AllOk(log: seq<Entry>) {
    forall i :: 0 <= i < |log| ==> EntryOk(log[i])
  }

  /** A direction accepts a SETTINGS frame exactly if every entry of it can be stored. */
  lemma FrameStorable(frame: Frames.Frame)
    requires Frames.Settings(frame).Some?
    ensures Frames.SettingsOk(frame) <==> AllOk(Frames.Settings(frame).value)
  {
    hide Frames.Settings;
    var es := Frames.Settings(frame).value;
    if Frames.SettingsOk(frame) {
      forall i | 0 <= i < |es| ensures EntryOk(es[i]) {
      }
    } else {
      var i :| 0 <= i < |es| && !(es[i].0 == Frames.FRAME_SIZE ==> Frames.FrameSizeOk(es[i].1));
      assert !EntryOk(es[i]);
    }
  }

  lemma {:induction false} StorableIs(a: seq<Entry>, log: seq<Entry>)
    requires a <= log
    ensures AllOk(a) <==> a <= Storable(log)
    decreases |log|
  {
    hide EntryOk, AllOk;
    if a == [] {
      assert AllOk(a) by { NoneOk(); }
    } else {
      assert a[0] == log[0] && a[1..] <= log[1..];
      StorableIs(a[1..], log[1..]);
      AllOkCons(a);
      ConsPrefix(a[0], a[1..], Storable(log[1..]));
      assert a == [a[0]] + a[1..];
    }
  }

  lemma NoneOk()
    ensures AllOk([])
  {
  }

  lemma AllOkCons(a: seq<Entry>)
    requires a != []
    ensures AllOk(a) <==> EntryOk(a[0]) && AllOk(a[1..])
  {
    hide EntryOk;
    assert forall i :: 0 <= i < |a[1..]| ==> a[1..][i] == a[i + 1];
    if EntryOk(a[0]) && AllOk(a[1..]) {
      forall i | 0 <= i < |a| ensures EntryOk(a[i]) {
        if i > 0 {
          assert EntryOk(a[1..][i - 1]);
        }
      }
    }
  }

  lemma ConsPrefix(x: Entry, p: seq<Entry>, q: seq<Entry>)
    ensures [x] + p <= [x] + q <==> p <= q
  {
    assert ([x] + p)[1..] == p && ([x] + q)[1..] == q;
    if [x] + p <= [x] + q {
      assert p == q[..|p|] by {
        assert [x] + p == ([x] + q)[..|p| + 1];
      }
    }
  }

  lemma StorableGrows(a: seq<Entry>, b: seq<Entry>)
    ensures Storable(a) <= Storable(a + b)
  {
    StorableIs(Storable(a), a);
    StorableIs(Storable(a), a + b);
  }

  /** What was last announced for a limit, or the default: 4096, cut to 65536, and 16384. */
  function Allows(log: seq<Entry>, kind: Limit): nat {
    if kind == Table then
      var size := DirectionLoop.LatestOf(log, 1, 4096);
      if size < 65536 then size else 65536
    else DirectionLoop.LatestOf(log, 5, 16384)
  }

  lemma AllowsIs(log: seq<Entry>, kind: Limit)
    ensures Allows(log, kind) == InForce(Announced(log, DEFAULTS), kind)
  {
    DirectionLoop.AnnouncedIs(log, DEFAULTS);
    hide DirectionLoop.Announced, DirectionLoop.LatestOf;
  }

  /** The limit in force after the first `i` entries. */
  function InForceAfter(log: seq<Entry>, i: nat, kind: Limit): nat
    requires i <= |log|
  {
    Allows(log[..i], kind)
  }

  lemma InForceIs(log: seq<Entry>, i: nat, kind: Limit)
    requires i <= |log|
    ensures InForceAfter(log, i, kind) == InForce(Announced(log[..i], DEFAULTS), kind)
  {
    AllowsIs(log[..i], kind);
  }

  /** Of the entries the bridge can store none lowers the limit in force. */
  ghost predicate NeverLowers(log: seq<Entry>, kind: Limit) {
    forall i: nat, j: nat :: i <= j <= |Storable(log)| ==>
      InForceAfter(Storable(log), i, kind) <= InForceAfter(Storable(log), j, kind)
  }

  lemma Grows(a: seq<Entry>, b: seq<Entry>, log: seq<Entry>, kind: Limit)
    requires NeverLowers(log, kind) && a + b <= log && AllOk(a + b)
    ensures InForce(Announced(a, DEFAULTS), kind) <= InForce(Announced(a + b, DEFAULTS), kind)
  {
    StorableIs(a + b, log);
    hide Storable, AllOk;
    var f := Storable(log);
    assert f[..|a|] == a && f[..|a + b|] == a + b;
    InForceIs(f, |a|, kind);
    InForceIs(f, |a + b|, kind);
    assert InForceAfter(f, |a|, kind) <= InForceAfter(f, |a + b|, kind);
  }

  lemma SentGrows(a: seq<Entry>, b: seq<Entry>, kind: Limit)
    requires NeverLowers(a + b, kind)
    ensures NeverLowers(a, kind)
  {
    StorableGrows(a, b);
    hide Storable;
    var f, g := Storable(a), Storable(a + b);
    forall i: nat, j: nat | i <= j <= |f| ensures InForceAfter(f, i, kind) <= InForceAfter(f, j, kind) {
      assert g[..i] == f[..i] && g[..j] == f[..j];
      assert InForceAfter(g, i, kind) <= InForceAfter(g, j, kind);
    }
  }

  // ----- Invariant -----

  /** Of the frame being stored, what is stored already. */
  function Half(l: Lane): seq<Entry>
    requires l.storing.Some? ==> |l.storing.value| <= |l.frame|
  {
    if l.storing.Some? then l.frame[..|l.frame| - |l.storing.value|] else []
  }

  /**
   The cell holds the side's latest announcement read so far, or the default. Whatever the other side
   has received was stored before, and whatever was stored had been sent and was accepted.
   */
  ghost predicate LaneInv(l: Lane) {
    && l.cell == Announced(l.stored, DEFAULTS) && AllOk(l.stored)
    && (l.storing.Some? ==>
          && |l.storing.value| <= |l.frame|
          && l.storing.value == l.frame[|l.frame| - |l.storing.value|..])
    && l.sent == l.stored + (if l.storing.Some? then l.storing.value else []) + Entries(l.toBridge)
    && l.stored == l.received + Entries(l.fromBridge) + Half(l)
  }

  /** The limits a waiting block was sent under are still within the destination's cell. */
  ghost predicate BlocksInv(l: Lane, destination: Lane, kind: Limit) {
    NeverLowers(destination.sent, kind) ==>
      forall i :: 0 <= i < |l.toBridge| && l.toBridge[i].Headers? ==>
        InForce(l.toBridge[i].allowed, kind) <= InForce(destination.cell, kind)
  }

  ghost predicate Inv(s: State) {
    && LaneInv(s.client) && LaneInv(s.server)
    && (forall kind :: BlocksInv(s.client, s.server, kind) && BlocksInv(s.server, s.client, kind))
  }

  lemma LogsNest(l: Lane)
    requires LaneInv(l)
    ensures l.received <= l.stored <= l.sent
  {
    Assoc(l.received, Entries(l.fromBridge), Half(l));
    Assoc(l.stored, if l.storing.Some? then l.storing.value else [], Entries(l.toBridge));
  }

  /** What a side knows is at most what the cell holds. */
  lemma KnownWithinCell(l: Lane, kind: Limit)
    requires LaneInv(l) && NeverLowers(l.sent, kind)
    ensures InForce(Announced(l.received, DEFAULTS), kind) <= InForce(l.cell, kind)
  {
    hide Announced, Entries, NeverLowers, Half, AllOk;
    LogsNest(l);
    var mid := l.stored[|l.received|..];
    assert l.stored == l.received + mid;
    Grows(l.received, mid, l.sent, kind);
  }

  // ----- The invariant holds in every interleaving -----

  lemma EntriesHeadTail(ms: seq<Message>)
    requires ms != []
    ensures Entries(ms) == Entries([ms[0]]) + Entries(ms[1..])
  {
    EntriesConcat([ms[0]], ms[1..]);
    assert [ms[0]] + ms[1..] == ms;
  }

  lemma SendKeepsLane(l: Lane, m: Message)
    requires LaneInv(l)
    ensures LaneInv(l.(toBridge := l.toBridge + [m], sent := l.sent + Entries([m])))
  {
    hide AllOk;
    EntriesConcat(l.toBridge, [m]);
    var pending := if l.storing.Some? then l.storing.value else [];
    Assoc(l.stored + pending, Entries(l.toBridge), Entries([m]));
  }

  lemma ReadKeepsLane(l: Lane)
    requires LaneInv(l) && l.storing.None? && l.toBridge != [] && l.toBridge[0].Settings?
    ensures LaneInv(l.(toBridge := l.toBridge[1..], storing := Some(l.toBridge[0].entries),
                       frame := l.toBridge[0].entries))
  {
    EntriesHeadTail(l.toBridge);
    EntriesOne(l.toBridge[0]);
  }

  lemma StoreKeepsLane(l: Lane)
    requires LaneInv(l) && l.storing.Some? && l.storing.value != [] && EntryOk(l.storing.value[0])
    ensures var e := l.storing.value[0];
            LaneInv(l.(storing := Some(l.storing.value[1..]), stored := l.stored + [e], cell := Announced([e], l.cell)))
  {
    var rest := l.storing.value;
    AnnouncedConcat(l.stored, [rest[0]], DEFAULTS);
    assert AllOk(l.stored + [rest[0]]);
    hide Announced, Entries, AllOk;
    MoveOne(l.stored, rest, Entries(l.toBridge));
    TakeOneMore(l.frame, |l.frame| - |rest|);
    Assoc(l.received + Entries(l.fromBridge), Half(l), [rest[0]]);
  }

  lemma MoveOne<T>(a: seq<T>, b: seq<T>, c: seq<T>)
    requires b != []
    ensures a + b + c == (a + [b[0]]) + b[1..] + c
  {
    assert b == [b[0]] + b[1..];
  }

  lemma TakeOneMore<T>(f: seq<T>, n: nat)
    requires n < |f|
    ensures f[..n + 1] == f[..n] + [f[n]] && f[n..][0] == f[n] && f[n..][1..] == f[n + 1..]
  {
  }

  lemma ForwardKeepsLane(l: Lane)
    requires LaneInv(l) && l.storing == Some([])
    ensures LaneInv(l.(storing := None, frame := [], fromBridge := l.fromBridge + [Settings(l.frame)]))
  {
    EntriesConcat(l.fromBridge, [Settings(l.frame)]);
    EntriesOne(Settings(l.frame));
    assert Half(l) == l.frame;
    Assoc(l.received, Entries(l.fromBridge), l.frame);
  }

  lemma PassKeepsLane(l: Lane)
    requires LaneInv(l) && l.storing.None? && l.toBridge != [] && l.toBridge[0].Headers?
    ensures LaneInv(l.(toBridge := l.toBridge[1..], checked := false, fromBridge := l.fromBridge + [l.toBridge[0]]))
  {
    hide Announced, AllOk;
    EntriesHeadTail(l.toBridge);
    EntriesOne(l.toBridge[0]);
    EntriesConcat(l.fromBridge, [l.toBridge[0]]);
    hide Entries;
    var none: seq<Entry> := [];
    assert none + Entries(l.toBridge[1..]) == Entries(l.toBridge[1..]);
    assert Entries(l.fromBridge) + none == Entries(l.fromBridge);
  }

  lemma CheckKeepsLane(l: Lane)
    requires LaneInv(l)
    ensures LaneInv(l.(checked := true))
  {
    hide Announced, Entries, AllOk;
  }

  lemma ReceiveKeepsLane(l: Lane)
    requires LaneInv(l) && l.fromBridge != []
    ensures LaneInv(l.(fromBridge := l.fromBridge[1..], received := l.received + Entries([l.fromBridge[0]])))
  {
    EntriesHeadTail(l.fromBridge);
    Assoc(l.received, Entries([l.fromBridge[0]]), Entries(l.fromBridge[1..]));
  }

  lemma LaneKept(s: State, x: Side, step: Step, t: State)
    requires Inv(s) && Next(s, x, step, t)
    ensures LaneInv(LaneOf(t, x)) && LaneOf(t, Other(x)) == LaneOf(s, Other(x))
  {
    hide LaneInv, Announced, BlocksInv, Fits, EntryOk;
    var l := LaneOf(s, x);
    match step {
      case SendSettings(es) => SendKeepsLane(l, Settings(es)); EntriesOne(Settings(es));
      case SendHeaders(block) =>
        var m := Headers(block, Known(s, x));
        SendKeepsLane(l, m);
        EntriesOne(m);
        assert l.sent + [] == l.sent;
      case ReadSettings => ReadKeepsLane(l);
      case StoreEntry => if EntryOk(l.storing.value[0]) { StoreKeepsLane(l); }
      case ForwardSettings => ForwardKeepsLane(l);
      case CheckUpdates => CheckKeepsLane(l);
      case CheckFrames => PassKeepsLane(l);
      case Receive => ReceiveKeepsLane(l);
    }
  }

  /** No step takes a sent announcement back, and none lowers the cell while no announcement does. */
  lemma CellGrows(s: State, x: Side, step: Step, t: State, kind: Limit)
    requires Inv(s) && Next(s, x, step, t) && NeverLowers(LaneOf(t, x).sent, kind)
    ensures NeverLowers(LaneOf(s, x).sent, kind)
    ensures InForce(LaneOf(s, x).cell, kind) <= InForce(LaneOf(t, x).cell, kind)
  {
    LaneKept(s, x, step, t);
    hide NeverLowers, Announced, InForce, BlocksInv, Fits;
    var l, m := LaneOf(s, x), LaneOf(t, x);
    if step.SendSettings? {
      SentGrows(l.sent, step.entries, kind);
    } else if step.StoreEntry? && EntryOk(l.storing.value[0]) {
      LogsNest(m);
      Grows(l.stored, [l.storing.value[0]], m.sent, kind);
    }
  }

  /** Of the blocks of the side that takes the step. */
  lemma OwnBlocksKept(s: State, x: Side, step: Step, t: State, kind: Limit)
    requires Inv(s) && Next(s, x, step, t)
    ensures BlocksInv(LaneOf(t, x), LaneOf(t, Other(x)), kind)
  {
    hide Announced, Entries, NeverLowers, Half, Fits, EntryOk, AllOk, InForce;
    LaneKept(s, x, step, t);
    var l, o := LaneOf(s, x), LaneOf(s, Other(x));
    assert BlocksInv(l, o, kind) && LaneInv(o);
    if NeverLowers(o.sent, kind) {
      KnownWithinCell(o, kind);
    }
    hide LaneInv;
  }

  /** Of the blocks checked against its announcements. */
  lemma OtherBlocksKept(s: State, x: Side, step: Step, t: State, kind: Limit)
    requires Inv(s) && Next(s, x, step, t)
    ensures BlocksInv(LaneOf(t, Other(x)), LaneOf(t, x), kind)
  {
    hide Announced, Entries, NeverLowers, Half, Fits, EntryOk, AllOk, InForce;
    LaneKept(s, x, step, t);
    assert BlocksInv(LaneOf(s, Other(x)), LaneOf(s, x), kind);
    if NeverLowers(LaneOf(t, x).sent, kind) {
      CellGrows(s, x, step, t, kind);
    }
    hide LaneInv, Next;
  }

  lemma StepKeepsInv(s: State, x: Side, step: Step, t: State)
    requires Inv(s) && Next(s, x, step, t)
    ensures Inv(t)
  {
    LaneKept(s, x, step, t);
    forall kind ensures BlocksInv(t.client, t.server, kind) && BlocksInv(t.server, t.client, kind) {
      OwnBlocksKept(s, x, step, t, kind);
      OtherBlocksKept(s, x, step, t, kind);
    }
    hide Next, BlocksInv, LaneInv;
    assert x == Client || x == Server;
  }

  lemma {:induction false} RunKeepsInv(states: seq<State>, sides: seq<Side>, steps: seq<Step>, n: nat)
    requires Run(states, sides, steps) && n < |states|
    ensures Inv(states[n])
  {
    hide Next, Inv;
    if n == 0 {
      StartInv();
    } else {
      RunKeepsInv(states, sides, steps, n - 1);
      assert Next(states[n - 1], sides[n - 1], steps[n - 1], states[n - 1 + 1]);
      StepKeepsInv(states[n - 1], sides[n - 1], steps[n - 1], states[n]);
    }
  }

  lemma StartInv()
    ensures Inv(START)
  {
  }

  /** The limit a check is about. */
  function Checks(step: Step): Option<Limit> {
    if step == CheckUpdates then Some(Table) else if step == CheckFrames then Some(FrameSize) else None
  }

  /** A table-size update or a frame of the block is beyond what `log` allows. */
  ghost predicate Exceeds(b: Block, log: seq<Entry>, kind: Limit) {
    if kind == Table then exists i :: 0 <= i < |b.updates| && b.updates[i] > Allows(log, Table)
    else b.largest > Allows(log, FrameSize)
  }

  lemma ExceedsIff(b: Block, log: seq<Entry>, kind: Limit)
    ensures Exceeds(b, log, kind) <==> !Fits(b, Announced(log, DEFAULTS), kind)
  {
    hide Announced, InForce, Allows;
    AllowsIs(log, kind);
  }

  /**
   In every interleaving each direction checks a block against the destination's latest announcement
   read so far, or the default, and refuses it exactly when it does not fit. What the sender knows is an
   earlier state of that same log.
   */
  lemma LatestAnnouncement(states: seq<State>, sides: seq<Side>, steps: seq<Step>, n: nat)
    requires Run(states, sides, steps) && n < |steps| && Checks(steps[n]).Some?
    ensures var kind := Checks(steps[n]).value;
            var (l, o) := (LaneOf(states[n], sides[n]), LaneOf(states[n], Other(sides[n])));
            && l.toBridge != [] && l.toBridge[0].Headers?
            && (states[n + 1].failed == Some(Refused(kind)) <==> Exceeds(l.toBridge[0].block, o.stored, kind))
            && o.received <= o.stored <= o.sent
  {
    RunKeepsInv(states, sides, steps, n);
    assert Next(states[n], sides[n], steps[n], states[n + 1]);
    var o := LaneOf(states[n], Other(sides[n]));
    assert LaneInv(o);
    LogsNest(o);
    ExceedsIff(LaneOf(states[n], sides[n]).toBridge[0].block, o.stored, Checks(steps[n]).value);
  }

  /** What is stored only grows, so later checks are against later announcements. */
  lemma {:induction false} StoredGrows(states: seq<State>, sides: seq<Side>, steps: seq<Step>, m: nat, n: nat, x: Side)
    requires Run(states, sides, steps) && m <= n < |states|
    ensures LaneOf(states[m], x).stored <= LaneOf(states[n], x).stored
    decreases n
  {
    if m < n {
      StoredGrows(states, sides, steps, m, n - 1, x);
      assert Next(states[n - 1], sides[n - 1], steps[n - 1], states[n - 1 + 1]);
    }
  }

  // ----- Blocks that keep to the limits received -----

  /** A side keeps to the limits it has received. */
  ghost predicate Conforms(s: State, x: Side, step: Step) {
    step.SendHeaders? ==> forall kind :: Fits(step.block, Known(s, x), kind)
  }

  ghost predicate WaitingConform(l: Lane) {
    forall i, kind :: 0 <= i < |l.toBridge| && l.toBridge[i].Headers? ==>
      Fits(l.toBridge[i].block, l.toBridge[i].allowed, kind)
  }

  lemma ConformingStep(s: State, x: Side, step: Step, t: State)
    requires Next(s, x, step, t) && Conforms(s, x, step) && WaitingConform(s.client) && WaitingConform(s.server)
    ensures WaitingConform(t.client) && WaitingConform(t.server)
  {
    hide Fits, Announced, EntryOk, Entries;
  }

  lemma StepNotRefused(s: State, x: Side, step: Step, t: State, kind: Limit)
    requires Inv(s) && Next(s, x, step, t) && WaitingConform(s.client) && WaitingConform(s.server)
    requires NeverLowers(s.client.sent, kind) && NeverLowers(s.server.sent, kind)
    ensures t.failed == Some(Refused(kind)) ==> s.failed == Some(Refused(kind))
  {
    hide LaneInv, NeverLowers, Announced, Fits, InForce, EntryOk;
    var l, o := LaneOf(s, x), LaneOf(s, Other(x));
    if Checks(step) == Some(kind) {
      assert BlocksInv(l, o, kind);
      FitsLarger(l.toBridge[0].block, l.toBridge[0].allowed, o.cell, kind);
    }
  }

  lemma {:induction false} WaitingAlwaysConform(states: seq<State>, sides: seq<Side>, steps: seq<Step>, n: nat)
    requires Run(states, sides, steps) && n < |states|
    requires forall i :: 0 <= i < n ==> Conforms(states[i], sides[i], steps[i])
    ensures WaitingConform(states[n].client) && WaitingConform(states[n].server)
  {
    hide Conforms;
    if n > 0 {
      WaitingAlwaysConform(states, sides, steps, n - 1);
      assert Next(states[n - 1], sides[n - 1], steps[n - 1], states[n - 1 + 1]);
      ConformingStep(states[n - 1], sides[n - 1], steps[n - 1], states[n]);
    }
  }

  /**
   If no announcement the bridge can store lowers a limit in force, no interleaving refuses, for that
   limit, a block that kept to the last limits its sender had received.
   */
  lemma {:induction false} NeverLowersNeverRefuses(states: seq<State>, sides: seq<Side>, steps: seq<Step>, n: nat,
                                                   kind: Limit)
    requires Run(states, sides, steps) && n < |states|
    requires forall i :: 0 <= i < n ==> Conforms(states[i], sides[i], steps[i])
    requires NeverLowers(states[n].client.sent, kind) && NeverLowers(states[n].server.sent, kind)
    ensures states[n].failed != Some(Refused(kind))
  {
    hide Conforms, Inv, NeverLowers, WaitingConform;
    if n > 0 {
      var s, x, step, t := states[n - 1], sides[n - 1], steps[n - 1], states[n];
      RunKeepsInv(states, sides, steps, n - 1);
      WaitingAlwaysConform(states, sides, steps, n - 1);
      assert Next(states[n - 1], sides[n - 1], steps[n - 1], states[n - 1 + 1]);
      hide Next;
      CellGrows(s, x, step, t, kind);
      LaneKept(s, x, step, t);
      NeverLowersNeverRefuses(states, sides, steps, n - 1, kind);
      StepNotRefused(s, x, step, t, kind);
    }
  }

  function Identifier(kind: Limit): nat {
    if kind == Table then 1 else 5
  }

  function Raw(limits: Limits, kind: Limit): nat {
    if kind == Table then limits.0 else limits.1
  }

  /** Sizes that start at the default and never decrease. */
  ghost predicate NeverDecreases(log: seq<Entry>, kind: Limit) {
    var id := Identifier(kind);
    && (forall j :: 0 <= j < |log| && log[j].0 == id ==> Raw(DEFAULTS, kind) <= log[j].1)
    && forall i, j :: 0 <= i < j < |log| && log[i].0 == id && log[j].0 == id ==> log[i].1 <= log[j].1
  }

  lemma {:induction false} LastOf(log: seq<Entry>, limits: Limits, kind: Limit)
    ensures var t := Raw(Announced(log, limits), kind);
            (t == Raw(limits, kind) && forall i :: 0 <= i < |log| ==> log[i].0 != Identifier(kind))
            || exists i :: 0 <= i < |log| && log[i] == (Identifier(kind), t)
    decreases |log|
  {
    if log != [] {
      var (id, value) := log[0];
      var next := if id == Frames.TABLE_SIZE then (value, limits.1)
                  else if id == Frames.FRAME_SIZE then (limits.0, value) else limits;
      LastOf(log[1..], next, kind);
      var t := Raw(Announced(log, limits), kind);
      if i :| 0 <= i < |log[1..]| && log[1..][i] == (Identifier(kind), t) {
        assert log[i + 1] == (Identifier(kind), t);
      } else if id == Identifier(kind) {
        assert log[0] == (Identifier(kind), t);
      } else {
        forall i | 0 <= i < |log| ensures log[i].0 != Identifier(kind) {
          if i > 0 { assert log[i] == log[1..][i - 1]; }
        }
      }
    }
  }

  lemma NeverDecreasesNeverLowers(log: seq<Entry>, kind: Limit)
    requires NeverDecreases(log, kind)
    ensures NeverLowers(log, kind)
  {
    var f := Storable(log);
    hide Storable;
    assert forall k :: 0 <= k < |f| ==> f[k] == log[k];
    forall i: nat, j: nat | i <= j <= |f| ensures InForceAfter(f, i, kind) <= InForceAfter(f, j, kind) {
      InForceIs(f, i, kind);
      InForceIs(f, j, kind);
      var a, b := f[..i], f[i..j];
      assert f[..j] == a + b;
      AnnouncedConcat(a, b, DEFAULTS);
      LastOf(a, DEFAULTS, kind);
      LastOf(b, Announced(a, DEFAULTS), kind);
      var t, u := Raw(Announced(a, DEFAULTS), kind), Raw(Announced(a + b, DEFAULTS), kind);
      if k :| 0 <= k < |b| && b[k] == (Identifier(kind), u) {
        assert log[i + k] == (Identifier(kind), u);
        if m :| 0 <= m < |a| && a[m] == (Identifier(kind), t) {
          assert log[m] == (Identifier(kind), t);
        }
      }
    }
  }

  // ----- What a lower announcement can do -----

  /** A run in which every block kept to the limits its sender had. */
  datatype Trace = Trace(states: seq<State>, sides: seq<Side>, steps: seq<Step>)

  ghost predicate ConformingRun(r: Trace) {
    && Run(r.states, r.sides, r.steps)
    && forall i :: 0 <= i < |r.steps| ==> Conforms(r.states[i], r.sides[i], r.steps[i])
  }

  ghost function Last(r: Trace): State
    requires ConformingRun(r)
  {
    r.states[|r.steps|]
  }

  lemma Extend(r: Trace, x: Side, step: Step, t: State) returns (r': Trace)
    requires ConformingRun(r) && Next(Last(r), x, step, t) && Conforms(Last(r), x, step)
    ensures ConformingRun(r') && Last(r') == t
  {
    hide Next, Conforms;
    r' := Trace(r.states + [t], r.sides + [x], r.steps + [step]);
    forall i | 0 <= i < |r'.steps|
      ensures Next(r'.states[i], r'.sides[i], r'.steps[i], r'.states[i + 1])
      ensures Conforms(r'.states[i], r'.sides[i], r'.steps[i])
    {
      if i < |r.steps| {
        assert Next(r.states[i], r.sides[i], r.steps[i], r.states[i + 1]);
        assert Conforms(r.states[i], r.sides[i], r.steps[i]);
      }
    }
  }

  lemma StartRun() returns (r: Trace)
    ensures ConformingRun(r) && Last(r) == START
  {
    r := Trace([START], [], []);
  }

  /** The bridge stores the next `k` entries of the SETTINGS frame it has read from `x`. */
  lemma {:induction false} StoreSome(r: Trace, x: Side, k: nat) returns (r': Trace)
    requires ConformingRun(r) && Last(r).failed.None?
    requires LaneOf(Last(r), x).storing.Some? && k <= |LaneOf(Last(r), x).storing.value|
    requires AllOk(LaneOf(Last(r), x).storing.value[..k])
    ensures ConformingRun(r')
    ensures var l := LaneOf(Last(r), x);
            Last(r') == WithLane(Last(r), x, l.(storing := Some(l.storing.value[k..]),
                                                stored := l.stored + l.storing.value[..k],
                                                cell := Announced(l.storing.value[..k], l.cell)))
    decreases k
  {
    hide ConformingRun, Announced, EntryOk;
    var s, l := Last(r), LaneOf(Last(r), x);
    var v: seq<Entry> := l.storing.value;
    if k == 0 {
      r' := r;
      assert v[0..] == v && v[..0] == [] && l.stored + [] == l.stored;
      AnnouncedNothing(l.cell);
    } else {
      assert forall i :: 0 <= i < k - 1 ==> v[..k - 1][i] == v[..k][i];
      assert v[..k][k - 1] == v[k - 1] && EntryOk(v[k - 1]);
      var before := StoreSome(r, x, k - 1);
      var m := LaneOf(Last(before), x);
      var e := v[k - 1];
      assert v[k - 1..][0] == e && v[k - 1..][1..] == v[k..] && v[..k] == v[..k - 1] + [e];
      AnnouncedConcat(v[..k - 1], [e], l.cell);
      Assoc(l.stored, v[..k - 1], [e]);
      r' := Extend(before, x, StoreEntry,
                   WithLane(Last(before), x, m.(storing := Some(v[k..]), stored := m.stored + [e],
                                                cell := Announced([e], m.cell))));
    }
  }

  lemma AnnouncedNothing(limits: Limits)
    ensures Announced([], limits) == limits
  {
  }

  /** `x` in one lane, the other side in the other. */
  function Pair(x: Side, own: Lane, other: Lane): State {
    if x == Client then State(own, other, None) else State(other, own, None)
  }

  /** `x` announces `es` and the other side learns of them; nothing else happens. */
  lemma AnnouncedAndKnown(x: Side, es: seq<Entry>) returns (r: Trace)
    requires AllOk(es)
    ensures ConformingRun(r)
    ensures Last(r) == Pair(x, IDLE.(sent := es, stored := es, received := es, cell := Announced(es, DEFAULTS)), IDLE)
  {
    hide ConformingRun, Announced, AllOk;
    var m := Settings(es);
    assert [] + es == es && es[|es|..] == [] && es[..|es|] == es;
    r := StartRun();
    r := Extend(r, x, SendSettings(es), Pair(x, IDLE.(toBridge := [m], sent := es), IDLE));
    r := Extend(r, x, ReadSettings, Pair(x, IDLE.(sent := es, storing := Some(es), frame := es), IDLE));
    r := StoreSome(r, x, |es|);
    var stored := IDLE.(sent := es, stored := es, cell := Announced(es, DEFAULTS));
    r := Extend(r, x, ForwardSettings, Pair(x, stored.(fromBridge := [m]), IDLE));
    EntriesOne(m);
    r := Extend(r, x, Receive, Pair(x, stored.(received := es), IDLE));
  }

  /** A block just at the limit, that leaves the other limit alone. */
  function Full(limits: Limits, kind: Limit): Block {
    if kind == Table then Block([InForce(limits, Table)], 0) else Block([], limits.1)
  }

  /** The run up to the lower announcement: the other side's block waits, and the lower entries are stored. */
  lemma Overtaken(x: Side, log: seq<Entry>, i: nat, j: nat, kind: Limit) returns (r: Trace)
    requires i <= j <= |Storable(log)|
    ensures ConformingRun(r) && Last(r).failed.None?
    ensures var (own, other) := (LaneOf(Last(r), x), LaneOf(Last(r), Other(x)));
            && own.sent == log && own.cell == Announced(Storable(log)[..j], DEFAULTS)
            && other.sent == [] && other.storing.None? && !other.checked
            && |other.toBridge| == 1 && other.toBridge[0].Headers?
            && other.toBridge[0].block == Full(Announced(Storable(log)[..i], DEFAULTS), kind)
  {
    hide ConformingRun, Announced, Storable, AllOk;
    var f := Storable(log);
    var es, rest := f[..i], log[i..];
    assert es == log[..i] && es + rest == log;
    StorableIs(f[..j], log);
    PrefixOk(f[..j], i);
    assert f[..j][..i] == es && f[..j][i..] == rest[..j - i];
    r := AnnouncedAndKnown(x, es);
    var l := LaneOf(Last(r), x);
    var limits := Announced(es, DEFAULTS);
    var other := IDLE.(toBridge := [Headers(Full(limits, kind), limits)]);
    r := Extend(r, Other(x), SendHeaders(Full(limits, kind)), Pair(x, l, other));
    var m := Settings(rest);
    r := Extend(r, x, SendSettings(rest), Pair(x, l.(toBridge := [m], sent := log), other));
    r := Extend(r, x, ReadSettings, Pair(x, l.(sent := log, storing := Some(rest), frame := rest), other));
    r := StoreSome(r, x, j - i);
    assert f[..j] == es + rest[..j - i];
    AnnouncedConcat(es, rest[..j - i], DEFAULTS);
  }

  lemma PrefixOk(log: seq<Entry>, i: nat)
    requires AllOk(log) && i <= |log|
    ensures AllOk(log[..i]) && AllOk(log[i..])
  {
    hide EntryOk;
  }

  /**
   Where a later entry lowers a limit in force, some interleaving refuses a block that kept to the
   limits its sender had: the lower one is stored while the block is on its way.
   */
  lemma LowerMayRefuse(x: Side, log: seq<Entry>, i: nat, j: nat, kind: Limit) returns (r: Trace)
    requires i <= j <= |Storable(log)|
    requires InForceAfter(Storable(log), i, kind) > InForceAfter(Storable(log), j, kind)
    ensures ConformingRun(r) && Last(r).failed == Some(Refused(kind))
    ensures LaneOf(Last(r), x).sent == log && LaneOf(Last(r), Other(x)).sent == []
  {
    hide ConformingRun, Announced, Storable;
    r := Overtaken(x, log, i, j, kind);
    InForceIs(Storable(log), i, kind);
    InForceIs(Storable(log), j, kind);
    hide InForceAfter;
    var s, y := Last(r), Other(x);
    var l := LaneOf(s, y);
    assert Other(y) == x;
    if kind == Table {
      assert l.toBridge[0].block.updates[0] > InForce(LaneOf(s, x).cell, Table);
      r := Extend(r, y, CheckUpdates, s.(failed := Some(Refused(Table))));
    } else {
      r := Extend(r, y, CheckUpdates, WithLane(s, y, l.(checked := true)));
      r := Extend(r, y, CheckFrames, Last(r).(failed := Some(Refused(FrameSize))));
    }
  }

  /**
   For each limit, and whatever the two sides announce: exactly when neither log lowers it in force does
   no interleaving refuse a block of a side that keeps to the limits it has received.
   */
  lemma NeverRefusesIff(c: seq<Entry>, s: seq<Entry>, kind: Limit)
    ensures NeverLowers(c, kind) && NeverLowers(s, kind) <==>
              forall r: Trace :: ConformingRun(r) && Last(r).client.sent == c && Last(r).server.sent == s ==>
                Last(r).failed != Some(Refused(kind))
  {
    hide ConformingRun, Announced, Next, Run, Conforms, NeverLowers;
    if NeverLowers(c, kind) && NeverLowers(s, kind) {
      forall r: Trace | ConformingRun(r) && Last(r).client.sent == c && Last(r).server.sent == s
        ensures Last(r).failed != Some(Refused(kind))
      {
        SafeRun(r, kind);
      }
    } else if !NeverLowers(c, kind) {
      var r := RefusedWith(Client, c, s, kind);
    } else {
      var r := RefusedWith(Server, s, c, kind);
    }
  }

  lemma SafeRun(r: Trace, kind: Limit)
    requires ConformingRun(r) && NeverLowers(Last(r).server.sent, kind) && NeverLowers(Last(r).client.sent, kind)
    ensures Last(r).failed != Some(Refused(kind))
  {
    hide Next, Conforms, NeverLowers;
    NeverLowersNeverRefuses(r.states, r.sides, r.steps, |r.steps|, kind);
  }

  /** A refusing run with any announcements of the other side, made after the refusal. */
  lemma RefusedWith(x: Side, log: seq<Entry>, others: seq<Entry>, kind: Limit) returns (r: Trace)
    requires !NeverLowers(log, kind)
    ensures ConformingRun(r) && Last(r).failed == Some(Refused(kind))
    ensures LaneOf(Last(r), x).sent == log && LaneOf(Last(r), Other(x)).sent == others
  {
    hide ConformingRun, Storable, InForceAfter;
    var i: nat, j: nat :| i <= j <= |Storable(log)|
                          && InForceAfter(Storable(log), i, kind) > InForceAfter(Storable(log), j, kind);
    r := LowerMayRefuse(x, log, i, j, kind);
    var s, y := Last(r), Other(x);
    var l := LaneOf(s, y);
    assert [] + others == others;
    r := Extend(r, y, SendSettings(others),
                WithLane(s, y, l.(toBridge := l.toBridge + [Settings(others)], sent := l.sent + others)));
  }
}

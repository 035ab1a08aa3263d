/** One direction of the HTTP/2 bridge as a function of the octets it reads (src/h2.rs). */
module Direction {
  import opened Octets
  import opened Frames
  import opened Reframe
  import opened RewriteSpec

  /** The table and frame limits loaded for the k-th header block of the direction. */
  type Loads = nat -> (nat, nat)

  const PREFACE: Bytes :=
    [80, 82, 73, 32, 42, 32, 72, 84, 84, 80, 47, 50, 46, 48, 13, 10, 13, 10, 83, 77, 13, 10, 13, 10]
  const MAX_FRAMES: nat := 1024

  datatype Gathered = Gathered(frames: seq<Frame>, block: Bytes, rest: Bytes)

  /** CONTINUATIONs are taken up to END_HEADERS, within 1 MiB and 1024 frames. */
  function Gather(frames: seq<Frame>, block: Bytes, b: Bytes): (r: Option<Gathered>)
    requires frames != []
    ensures r.Some? ==> |r.value.rest| <= |b|
    decreases |b|
  {
    if EndHeaders(frames[|frames| - 1].flags) then Some(Gathered(frames, block, b))
    else match ReadFrame(b, MAX_BLOCK)
      case Got(next, rest) =>
        if next.kind != CONTINUATION || next.stream != frames[0].stream then None
        else if |block| + |next.payload| > MAX_BLOCK || |frames| + 1 > MAX_FRAMES then None
        else Gather(frames + [next], block + next.payload, rest)
      case _ => None
  }

  function AllBytes(frames: seq<Frame>): Bytes {
    if frames == [] then [] else FrameBytes(frames[0]) + AllBytes(frames[1..])
  }

  function Prepend(b: Bytes, r: Option<Bytes>): Option<Bytes> {
    match r
    case None => None
    case Some(c) => Some(b + c)
  }

  /** What is written for the octets `b`, or None where the direction fails. */
  function Forward(st: State, k: nat, b: Bytes, loads: Loads, mapping: ValueMap, response: bool): Option<Bytes>
    decreases |b|
  {
    match ReadFrame(b, MAX_BLOCK)
    case Eof => Some([])
    case Bad => None
    case Got(frame, rest) =>
      if frame.kind == HEADERS then
        match HeaderParts(frame)
        case None => None
        case Some(parts) =>
          match Gather([frame], parts.block, rest)
          case None => None
          case Some(g) =>
            match Rewrite(st, g.block, mapping, response, loads(k).0)
            case None => None
            case Some((st', encoded)) =>
              match Reframed(g.frames, encoded, loads(k).1)
              case None => None
              case Some(out) => Prepend(AllBytes(out), Forward(st', k + 1, g.rest, loads, mapping, response))
      else if frame.kind == SETTINGS && !SettingsOk(frame) then None
      else if frame.kind == PUSH_PROMISE || frame.kind == CONTINUATION then None
      else Prepend(FrameBytes(frame), Forward(st, k, rest, loads, mapping, response))
  }

  /** The entries a frame announces: those of a SETTINGS frame the direction accepts. */
  function Announces(frame: Frame): seq<(nat, nat)> {
    if SettingsOk(frame) then Settings(frame).value else []
  }

  /** The SETTINGS entries a direction reads on its way through `b`, in order. */
  function Told(b: Bytes): seq<(nat, nat)>
    decreases |b|
  {
    match ReadFrame(b, MAX_BLOCK)
    case Got(frame, rest) =>
      if frame.kind == HEADERS then
        match HeaderParts(frame)
        case None => []
        case Some(parts) =>
          (match Gather([frame], parts.block, rest) case None => [] case Some(g) => Told(g.rest))
      else Announces(frame) + Told(rest)
    case _ => []
  }

  /** What follows the preface, which only requests carry. */
  function AfterPreface(b: Bytes, response: bool): Bytes {
    if response || |b| < |PREFACE| then b else b[|PREFACE|..]
  }

  /** A whole connection in one direction; only requests carry the preface. */
  function Direct(b: Bytes, loads: Loads, mapping: ValueMap, response: bool): Option<Bytes> {
    if response then Forward(INITIAL, 0, b, loads, mapping, response)
    else if |b| < |PREFACE| || b[..|PREFACE|] != PREFACE then None
    else Prepend(PREFACE, Forward(INITIAL, 0, b[|PREFACE|..], loads, mapping, response))
  }
}

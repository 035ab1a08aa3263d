/** `Replay`, `Tap` and `read_hello` of src/transport.rs: a sniffed stream is read and written unchanged. */
module Transport {
  import opened Octets
  import opened ClientHello

  /**
   A socket as the octets still to come. It gives at most what is asked for, and something unless it is
   at its end.
   */
  class Socket {
    var rest: Bytes

    constructor (b: Bytes)
      ensures rest == b
    {
      rest := b;
    }

    method Read(capacity: nat) returns (b: Bytes)
      modifies this
      ensures b + rest == old(rest) && |b| <= capacity
      ensures b == [] ==> capacity == 0 || rest == []
    {
      if capacity == 0 || rest == [] {
        return [];
      }
      var n: nat :| 0 < n <= |rest| && n <= capacity;
      b := rest[..n];
      rest := rest[n..];
    }

    /** `read_exact`: reads until there are `n` octets. */
    method ReadExact(n: nat) returns (r: Option<Bytes>)
      modifies this
      ensures r.Some? <==> n <= |old(rest)|
      ensures r.Some? ==> |r.value| == n && r.value + rest == old(rest)
    {
      var b: Bytes := [];
      while |b| < n
        invariant |b| <= n && b + rest == old(rest)
      {
        ghost var before := rest;
        var more := Read(n - |b|);
        if more == [] {
          return None;
        }
        Assoc(b, more, rest);
        b := b + more;
      }
      return Some(b);
    }
  }

  /** A socket with octets already taken from it put back in front. */
  class Replay {
    const inner: Socket
    const prefix: Bytes
    var position: nat

    constructor (inner: Socket, prefix: Bytes)
      ensures this.inner == inner && this.prefix == prefix && position == 0
    {
      this.inner, this.prefix, position := inner, prefix, 0;
    }

    ghost predicate Valid()
      reads this
    {
      position <= |prefix|
    }

    /** What is still to be read. */
    ghost function Contents(): Bytes
      reads this, inner
      requires Valid()
    {
      prefix[position..] + inner.rest
    }

    /** `poll_read` into a buffer with room for `capacity` octets. */
    method Read(capacity: nat) returns (b: Bytes)
      requires Valid()
      modifies this, inner
      ensures Valid() && b + Contents() == old(Contents()) && |b| <= capacity
      ensures b == [] ==> capacity == 0 || Contents() == []
    {
      if position < |prefix| {
        var n := if capacity < |prefix| - position then capacity else |prefix| - position;
        b := prefix[position..position + n];
        assert prefix[position..] == b + prefix[position + n..];
        Assoc(b, prefix[position + n..], inner.rest);
        position := position + n;
        return;
      }
      b := inner.Read(capacity);
      assert prefix[position..] == [];
    }

    /** Reads with one buffer after another, of any sizes. */
    method ReadAll(capacities: seq<nat>) returns (b: Bytes)
      requires Valid()
      modifies this, inner
      ensures Valid() && b + Contents() == old(Contents())
      ensures |capacities| >= |old(Contents())| && 0 !in capacities ==> b == old(Contents())
    {
      b := [];
      var i := 0;
      while i < |capacities|
        invariant Valid() && i <= |capacities| && b + Contents() == old(Contents())
        invariant 0 !in capacities ==> |b| >= i || Contents() == []
      {
        var more := Read(capacities[i]);
        Assoc(b, more, Contents());
        b := b + more;
        i := i + 1;
      }
      assert Contents() == [] ==> b + Contents() == b;
    }
  }

  // ----- read_hello -----

  /** Some front of `s` within the limit is a complete ClientHello. */
  ghost predicate HoldsHello<T>(parse: Parser<T>, s: Bytes) {
    exists k: nat :: k <= |s| && k <= MAX_HELLO && Parse(parse, s[..k]).Hello?
  }

  /**
   Reads records until they hold a ClientHello. Together with what is left of the stream the octets
   returned are the stream, so `Replay` gives it whole; and it fails only if the stream holds none.
   */
  method ReadHello<T>(parse: Parser<T>, stream: Socket) returns (r: Option<(Bytes, T)>)
    modifies stream
    ensures r.Some? <==> HoldsHello(parse, old(stream.rest))
    ensures r.Some? ==> r.value.0 + stream.rest == old(stream.rest)
    ensures r.Some? ==> Parse(parse, r.value.0) == Hello(r.value.1)
  {
    hide Parse, Message, RecordBytes, Handshake, Render;
    NothingYet(parse);
    ghost var s := stream.rest;
    ghost var rs: seq<Record> := [];
    var bytes: Bytes := [];
    while true
      invariant Fits(rs) && bytes == Render(rs) && |bytes| <= MAX_HELLO
      invariant bytes + stream.rest == s
      invariant Message(parse, Handshake(rs)) == Pending
      decreases MAX_HELLO - |bytes|
    {
      ghost var rest := stream.rest;
      var h := stream.ReadExact(5);
      if h.None? {
        NoRecord(parse, rs, rest, s);
        return None;
      }
      var n := Big16(h.value[3], h.value[4]);
      if h.value[0] != HANDSHAKE || n > MAX_RECORD || |bytes| + n + 5 > MAX_HELLO {
        NoRecord(parse, rs, rest, s);
        return None;
      }
      var fragment := stream.ReadExact(n);
      if fragment.None? {
        NoRecord(parse, rs, rest, s);
        return None;
      }
      Assoc(bytes, h.value + fragment.value, stream.rest);
      Assoc(h.value, fragment.value, stream.rest);
      ghost var record := Record(h.value[1], h.value[2], fragment.value);
      IsRecord(h.value, fragment.value);
      RenderSnoc(rs, record);
      rs := rs + [record];
      bytes := bytes + (h.value + fragment.value);
      WholeRecords(parse, rs);
      var hello := ClientHelloLoop(parse, bytes);
      match hello {
        case Failed =>
          NeverHello(parse, s, |bytes|);
          return None;
        case Hello(value) =>
          assert s[..|bytes|] == bytes;
          return Some((bytes, value));
        case Pending =>
      }
    }
  }

  lemma IsRecord(h: Bytes, fragment: Bytes)
    requires |h| == 5 && h[0] == HANDSHAKE && Big16(h[3], h[4]) == |fragment| <= MAX_RECORD
    ensures RecordBytes(Record(h[1], h[2], fragment)) == h + fragment
  {
    DivMod(|fragment|, 256, h[3], h[4]);
    assert h == [h[0], h[1], h[2], h[3], h[4]];
  }

  /** No record after `rs` can be completed within the stream and the limit. */
  ghost predicate Stuck(rest: Bytes, taken: nat) {
    || |rest| < 5 || rest[0] != HANDSHAKE
    || var n := Big16(rest[3], rest[4]); n > MAX_RECORD || 5 + n > |rest| || taken + n + 5 > MAX_HELLO
  }

  lemma StuckNeverHello<T>(parse: Parser<T>, rest: Bytes, taken: nat, j: nat, hs: Bytes)
    requires Stuck(rest, taken) && j <= |rest| && taken + j <= MAX_HELLO
    ensures !From(parse, rest[..j], hs).Hello?
  {
    var b := rest[..j];
    assert j >= 5 ==> b[0] == rest[0] && b[3] == rest[3] && b[4] == rest[4];
  }

  lemma NoRecord<T>(parse: Parser<T>, rs: seq<Record>, rest: Bytes, s: Bytes)
    requires Fits(rs) && s == Render(rs) + rest && |Render(rs)| <= MAX_HELLO && Message(parse, Handshake(rs)) == Pending
    requires Stuck(rest, |Render(rs)|)
    ensures !HoldsHello(parse, s)
  {
    hide Stuck, From, Message;
    var i := |Render(rs)|;
    assert s[..i] == Render(rs);
    WholeRecords(parse, rs);
    forall k: nat | k <= |s| && k <= MAX_HELLO ensures !Parse(parse, s[..k]).Hello? {
      if k <= i {
        PrefixesAgree(parse, s, k, i);
      } else {
        var j := k - i;
        assert s[..k] == Render(rs) + rest[..j];
        assert Message(parse, []) == Pending by { NothingYet(parse); }
        FromRender(parse, rs, rest[..j], []);
        assert [] + Handshake(rs) == Handshake(rs);
        StuckNeverHello(parse, rest, i, j, Handshake(rs));
      }
    }
  }

  lemma NothingYet<T>(parse: Parser<T>)
    ensures Render([]) == [] && Handshake([]) == [] && Message(parse, []) == Pending
  {
  }

  lemma NeverHello<T>(parse: Parser<T>, s: Bytes, k: nat)
    requires k <= |s| && k <= MAX_HELLO && Parse(parse, s[..k]) == Failed
    ensures !HoldsHello(parse, s)
  {
    hide Parse;
    forall i: nat | i <= |s| && i <= MAX_HELLO ensures !Parse(parse, s[..i]).Hello? {
      if i <= k {
        PrefixesAgree(parse, s, i, k);
      } else {
        PrefixesAgree(parse, s, k, i);
      }
    }
  }

  lemma WholeRecords<T>(parse: Parser<T>, rs: seq<Record>)
    requires Fits(rs) && |Render(rs)| <= MAX_HELLO
    ensures Parse(parse, Render(rs)) == Message(parse, Handshake(rs))
  {
    assert Render(rs) + [] == Render(rs);
    SplitIndependent(parse, rs, []);
  }

  lemma {:induction false} RenderSnoc(rs: seq<Record>, r: Record)
    requires Fits(rs) && |r.fragment| <= MAX_RECORD
    ensures Fits(rs + [r]) && Render(rs + [r]) == Render(rs) + RecordBytes(r)
    ensures Handshake(rs + [r]) == Handshake(rs) + r.fragment
    decreases |rs|
  {
    hide RecordBytes;
    var all := rs + [r];
    if rs == [] {
      assert all[1..] == [];
      assert RecordBytes(r) + Render([]) == Render([]) + RecordBytes(r);
    } else {
      assert all[1..] == rs[1..] + [r];
      RenderSnoc(rs[1..], r);
      Assoc(RecordBytes(rs[0]), Render(rs[1..]), RecordBytes(r));
      Assoc(rs[0].fragment, Handshake(rs[1..]), r.fragment);
    }
  }

  // ----- Tap -----

  /** A stream of octets, cut at the capture limit. */
  function Window(s: Bytes): Bytes {
    if |s| <= MAX_HELLO then s else s[..MAX_HELLO]
  }

  /** Captures what the inner stream accepts until it holds a ClientHello or the limit is reached. */
  class Tap<!T> {
    const parse: Parser<T>
    var bytes: Bytes
    var done: bool
    ghost var written: Bytes

    constructor (parse: Parser<T>)
      ensures Valid() && this.parse == parse && written == [] && bytes == []
    {
      this.parse, bytes, done, written := parse, [], false, [];
      new;
      NothingYet(parse);
    }

    ghost predicate Valid()
      reads this
    {
      && bytes <= written && |bytes| <= MAX_HELLO
      && (done <==> Parse(parse, bytes).Hello? || |bytes| == MAX_HELLO)
      && (!done ==> bytes == written)
    }

    /** `poll_write`, where the inner stream accepts `n` octets of `b`. */
    method Write(b: Bytes, n: nat)
      requires Valid() && n <= |b|
      modifies this
      ensures Valid() && written == old(written) + b[..n]
      ensures old(done) ==> bytes == old(bytes)
      ensures !old(done) ==> bytes == Window(written)
    {
      ghost var was := written;
      written := written + b[..n];
      if !done {
        var take := if n < MAX_HELLO - |bytes| then n else MAX_HELLO - |bytes|;
        bytes := bytes + b[..take];
        assert written[..|bytes|] == bytes;
        var hello := ClientHelloLoop(parse, bytes);
        done := hello.Hello? || |bytes| == MAX_HELLO;
      }
    }

    /** At any time the capture parses as everything written so far does, up to the limit. */
    lemma CaptureMeans()
      requires Valid()
      ensures Parse(parse, bytes) == Parse(parse, Window(written))
    {
      hide Parse;
      if |bytes| < |Window(written)| {
        var w := Window(written);
        assert w[..|bytes|] == bytes && w[..|w|] == w;
        PrefixesAgree(parse, w, |bytes|, |w|);
      } else {
        assert Window(written) == bytes;
      }
    }
  }
}

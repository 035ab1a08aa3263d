/** `line`, `head`, `exact` and `body` of src/h1.rs over a buffering reader, proved against Http1Stream. */
module Http1Loops {
  import opened Octets
  import opened Text
  import opened Http1Stream
  import opened Streams

  /** `BufReader`: the octets buffered and those its source has yet to give. */
  class BufReader {
    var buffer: Bytes
    var ahead: Bytes

    constructor (b: Bytes)
      ensures Contents() == b
    {
      buffer, ahead := [], b;
    }

    function Contents(): Bytes
      reads this
    {
      buffer + ahead
    }

    /** The octets buffered, any number of them; none only at the end of the stream. */
    method FillBuf() returns (b: Bytes)
      modifies this
      ensures Contents() == old(Contents()) && b == buffer
      ensures b == [] ==> Contents() == []
    {
      if buffer == [] && ahead != [] {
        var n: nat :| 0 < n <= |ahead|;
        buffer, ahead := ahead[..n], ahead[n..];
      }
      b := buffer;
    }

    method Consume(n: nat)
      requires n <= |buffer|
      modifies this
      ensures old(buffer)[..n] + Contents() == old(Contents()) && Contents() == old(Contents())[n..]
    {
      ghost var all := Contents();
      buffer := buffer[n..];
      assert all[n..] == Contents();
    }

    method Line(limit: nat) returns (r: Option<Bytes>)
      modifies this
      ensures match LineOf(old(Contents()), limit)
              case Closed => r == Some([]) && Contents() == []
              case Broken => r.None?
              case Took(l, rest) => r == Some(l) && Contents() == rest
    {
      hide Find, LineOf, EndsCrlf;
      ghost var all := Contents();
      var out: Bytes := [];
      while true
        invariant |out| <= limit && all == out + Contents() && LF !in out
        decreases |all| - |out|
      {
        var b := FillBuf();
        if b == [] {
          assert all == out;
          NoLine(all, limit);
          return if out == [] then Some([]) else None;
        }
        var i := Find(b, LF);
        var n := if i < |b| then i + 1 else i;
        Ahead(all, out, b, ahead, i);
        LineIs(all, limit);
        if |out| + n > limit {
          return None;
        }
        ghost var c := Contents();
        Consume(n);
        assert c == b[..n] + Contents();
        Assoc(out, b[..n], Contents());
        out := out + b[..n];
        if i < |b| {
          assert all[..|out|] == out && all[|out|..] == Contents();
          return if EndsCrlf(out) then Some(out) else None;
        }
      }
    }

    /** The head with its empty line, nothing at the end of the stream, or an error. */
    method Head() returns (r: Option<Bytes>)
      modifies this
      ensures match HeadFrom([], old(Contents()))
              case Closed => r == Some([]) && Contents() == []
              case Broken => r.None?
              case Took(h, rest) => r == Some(h) && Contents() == rest
    {
      ghost var all := Contents();
      var out: Bytes := [];
      while true
        invariant |out| <= MAX_HEAD
        invariant HeadFrom([], all) == HeadFrom(out, Contents())
        decreases MAX_HEAD - |out|
      {
        var l := Line(MAX_HEAD - |out|);
        if l.None? {
          return None;
        }
        if l.value == [] {
          return if out == [] then Some([]) else None;
        }
        var done := l.value == CRLF;
        out := out + l.value;
        if done {
          return Some(out);
        }
      }
    }

    /** Hands over the next `n` octets, or fails at the end of the stream. */
    method Exact(w: Writer, n: nat) returns (ok: bool)
      modifies this, w
      ensures ok <==> n <= |old(Contents())|
      ensures ok ==> Contents() == old(Contents())[n..] && w.sent == old(w.sent) + old(Contents())[..n]
    {
      ghost var all := Contents();
      var done: nat := 0;
      Start(all, w.sent);
      while done < n
        invariant done <= n && At(all, old(w.sent), done, Contents(), w.sent)
      {
        var b := FillBuf();
        if b == [] {
          return false;
        }
        var k := if n - done < |b| then n - done else |b|;
        ghost var c := Contents();
        Move(all, old(w.sent), done, c, w.sent, k);
        w.WriteAll(b[..k]);
        assert c[..k] == b[..k];
        Consume(k);
        done := done + k;
      }
      return true;
    }

    /** `copy`: everything to the end of the stream. */
    method Copy(w: Writer)
      modifies this, w
      ensures Contents() == [] && w.sent == old(w.sent) + old(Contents())
    {
      ghost var all := Contents();
      ghost var done: nat := 0;
      Start(all, w.sent);
      while true
        invariant At(all, old(w.sent), done, Contents(), w.sent)
        decreases |all| - done
      {
        var b := FillBuf();
        if b == [] {
          assert all[..done] == all;
          return;
        }
        Move(all, old(w.sent), done, Contents(), w.sent, |b|);
        w.WriteAll(b);
        assert Contents()[..|b|] == b;
        Consume(|b|);
        done := done + |b|;
      }
    }

    /** The trailer section after the last chunk. */
    method Trailer(w: Writer) returns (ok: bool)
      modifies this, w
      ensures ok <==> TrailerEnd(old(Contents()), 0).Some?
      ensures ok ==> var k := TrailerEnd(old(Contents()), 0).value;
                     Contents() == old(Contents())[k..] && w.sent == old(w.sent) + old(Contents())[..k]
    {
      hide TrailerEnd, LineOf, At, Find, EndsCrlf;
      ghost var all := Contents();
      var total: nat := 0;
      Start(all, w.sent);
      while true
        invariant total <= MAX_HEAD && At(all, old(w.sent), total, Contents(), w.sent)
        invariant TrailerEnd(all, 0) == Add(total, TrailerEnd(Contents(), total))
        decreases MAX_HEAD - total
      {
        ghost var b := Contents();
        UnfoldTrailer(b, total);
        var l := Line(MAX_HEAD - total);
        if l.None? || l.value == [] {
          return false;
        }
        var n := |l.value|;
        FirstLine(l.value, Contents(), w.sent);
        Move(all, old(w.sent), total, b, w.sent, n);
        w.WriteAll(l.value);
        total := total + n;
        if l.value == CRLF {
          AtMeans(all, old(w.sent), total, Contents(), w.sent);
          return true;
        }
      }
    }

    /** Forwards one body: what is written is what is taken, and both are what its framing says. */
    method Body(w: Writer, kind: Http1Stream.Body) returns (ok: bool)
      modifies this, w
      ensures ok <==> BodyEnd(kind, old(Contents())).Some?
      ensures ok ==> var k := BodyEnd(kind, old(Contents())).value;
                     Contents() == old(Contents())[k..] && w.sent == old(w.sent) + old(Contents())[..k]
    {
      ghost var all := Contents();
      assert all[0..] == all && all[..0] == [] && all[..|all|] == all && all[|all|..] == [];
      if kind == Empty {
        return true;
      } else if kind.Length? {
        ok := Exact(w, kind.n);
      } else if kind == UntilEof {
        Copy(w);
        return true;
      } else {
        ok := Chunks(w);
      }
    }

    method Chunks(w: Writer) returns (ok: bool)
      modifies this, w
      ensures ok <==> ChunkedEnd(old(Contents())).Some?
      ensures ok ==> var k := ChunkedEnd(old(Contents())).value;
                     Contents() == old(Contents())[k..] && w.sent == old(w.sent) + old(Contents())[..k]
    {
      hide StepOf, ChunkedEnd;
      ghost var all := Contents();
      ghost var done: nat := 0;
      Start(all, w.sent);
      while true
        invariant At(all, old(w.sent), done, Contents(), w.sent)
        invariant ChunkedEnd(all) == Add(done, ChunkedEnd(Contents()))
        decreases |all| - done
      {
        ghost var b := Contents();
        ghost var sent := w.sent;
        Unfold(b);
        ghost var step := StepOf(b);
        var more: bool;
        ok, more := Chunk(w);
        if !ok {
          return;
        }
        Move(all, old(w.sent), done, b, sent, step.n);
        done := done + step.n;
        if !more {
          return;
        }
      }
    }

    /** One turn of the loop: a chunk line with its data, or the last one with the trailer section. */
    method Chunk(w: Writer) returns (ok: bool, more: bool)
      modifies this, w
      ensures var step := StepOf(old(Contents())); ok <==> step != Fault
      ensures ok ==> var step := StepOf(old(Contents()));
                     && more == step.More? && Contents() == old(Contents())[step.n..]
                     && w.sent == old(w.sent) + old(Contents())[..step.n]
    {
      hide TrailerEnd, LineOf, ChunkSize, At, Find, EndsCrlf;
      ghost var all := Contents();
      ghost var was := w.sent;
      var l := Line(MAX_CHUNK_LINE);
      if l.None? || l.value == [] {
        return false, false;
      }
      var size := ChunkSize(l.value);
      if size.None? {
        return false, false;
      }
      var n := size.value;
      ghost var i := |l.value|;
      ghost var rest := Contents();
      FirstLine(l.value, rest, was);
      w.WriteAll(l.value);
      ghost var sent := w.sent;
      if n == 0 {
        ok := Trailer(w);
        more := false;
      } else {
        ok := Data(w, n);
        more := true;
      }
      ChunkStep(all, l.value, rest);
      hide StepOf;
      if ok {
        ghost var k := if n == 0 then TrailerEnd(rest, 0).value else n + 2;
        Move(all, was, i, rest, sent, k);
        AtMeans(all, was, i + k, Contents(), w.sent);
      }
    }

    /** The data of a chunk and the CRLF after it. */
    method Data(w: Writer, n: nat) returns (ok: bool)
      modifies this, w
      ensures var b := old(Contents()); ok <==> n + 2 <= |b| && b[n..n + 2] == CRLF
      ensures ok ==> Contents() == old(Contents())[n + 2..] && w.sent == old(w.sent) + old(Contents())[..n + 2]
    {
      ghost var all := Contents();
      ghost var was := w.sent;
      ok := Exact(w, n);
      if !ok {
        return;
      }
      var end := ReadExact(2);
      if end.None? {
        return false;
      }
      assert end.value == all[n..n + 2] == all[n..][..2];
      if end.value != CRLF {
        return false;
      }
      w.WriteAll(end.value);
      Shift(all, n, 2);
      Glue(was, all, n, 2);
    }

    method ReadExact(n: nat) returns (r: Option<Bytes>)
      modifies this
      ensures if n <= |old(Contents())| then r == Some(old(Contents())[..n]) && Contents() == old(Contents())[n..]
              else r.None?
    {
      var out := new Writer();
      var ok := Exact(out, n);
      assert ok ==> out.sent == old(Contents())[..n];
      return if ok then Some(out.sent) else None;
    }
  }

  datatype Step = Fault | Last(n: nat) | More(n: nat)

  /** The front of a chunked body: its octets and whether more chunks follow. */
  function StepOf(b: Bytes): (s: Step)
    ensures s != Fault ==> s.n <= |b|
    ensures s.More? ==> 0 < s.n
  {
    match LineOf(b, MAX_CHUNK_LINE)
    case Took(l, rest) =>
      if ChunkSize(l).None? then Fault
      else
        var n := ChunkSize(l).value;
        if n > 0 then
          if n + 2 <= |rest| && rest[n..n + 2] == CRLF then More(|l| + n + 2) else Fault
        else if TrailerEnd(rest, 0).Some? then Last(|l| + TrailerEnd(rest, 0).value)
        else Fault
    case _ => Fault
  }

  /** A line within the stream, by the place of its LF. */
  lemma LineIs(b: Bytes, limit: nat)
    requires b != []
    ensures var n := Find(b, LF) + 1;
            LineOf(b, limit)
            == if n > |b| || n > limit || !EndsCrlf(b[..n]) then Broken else Took(b[..n], b[n..])
  {
    hide Find, EndsCrlf;
    var n := Find(b, LF) + 1;
    var l := if n <= |b| then b[..n] else [];
    assert LineOf(b, limit) == if n > |b| || n > limit || !EndsCrlf(l) then Broken else Took(l, b[n..]);
  }

  lemma NoLine(b: Bytes, limit: nat)
    requires LF !in b
    ensures LineOf(b, limit) == if b == [] then Closed else Broken
  {
    hide EndsCrlf;
    assert Find(b, LF) == |b|;
    hide Find;
  }

  lemma UnfoldTrailer(b: Bytes, total: nat)
    requires total <= MAX_HEAD
    ensures var t := LineOf(b, MAX_HEAD - total);
            TrailerEnd(b, total)
            == if !t.Took? then None
               else if t.octets == CRLF then Some(|t.octets|)
               else Add(|t.octets|, TrailerEnd(t.rest, total + |t.octets|))
  {
    hide LineOf;
  }

  lemma ChunkStep(b: Bytes, l: Bytes, rest: Bytes)
    requires LineOf(b, MAX_CHUNK_LINE) == Took(l, rest) && ChunkSize(l).Some?
    ensures var n := ChunkSize(l).value;
            StepOf(b) == if n > 0 then
                           if n + 2 <= |rest| && rest[n..n + 2] == CRLF then More(|l| + n + 2) else Fault
                         else if TrailerEnd(rest, 0).Some? then Last(|l| + TrailerEnd(rest, 0).value)
                         else Fault
  {
    hide LineOf, ChunkSize, TrailerEnd;
  }

  lemma Unfold(b: Bytes)
    ensures var s := StepOf(b);
            ChunkedEnd(b) == if s == Fault then None else if s.Last? then Some(s.n) else Add(s.n, ChunkedEnd(b[s.n..]))
  {
    hide TrailerEnd, ChunkSize, LineOf;
    if StepOf(b).More? {
      var l, rest := LineOf(b, MAX_CHUNK_LINE).octets, LineOf(b, MAX_CHUNK_LINE).rest;
      Shift(l + rest, |l|, ChunkSize(l).value + 2);
      assert (l + rest)[|l|..] == rest;
    }
  }

  /** The line ends in the octets buffered, or goes on beyond them. */
  lemma Ahead(all: Bytes, out: Bytes, b: Bytes, ahead: Bytes, i: nat)
    requires all == out + (b + ahead) && LF !in out && i == Find(b, LF)
    ensures if i < |b| then Find(all, LF) == |out| + i else Find(all, LF) >= |out| + |b|
  {
    forall k | 0 <= k < |out| + i ensures all[k] != LF {
      if k < |out| {
        assert all[k] == out[k];
      } else {
        assert all[k] == b[k - |out|];
      }
    }
    if i < |b| {
      FindFirst(all, LF, |out| + i);
    }
  }

  /** `done` of the octets `all` have gone from the reader to the writer. */
  ghost predicate At(all: Bytes, was: Bytes, done: nat, contents: Bytes, sent: Bytes) {
    done <= |all| && contents == all[done..] && sent == was + all[..done]
  }

  lemma FirstLine(l: Bytes, rest: Bytes, was: Bytes)
    ensures At(l + rest, was, |l|, rest, was + l) && (l + rest)[..|l|] == l && (l + rest)[|l|..] == rest
  {
    assert (l + rest)[..|l|] == l && (l + rest)[|l|..] == rest;
  }

  lemma AtMeans(all: Bytes, was: Bytes, done: nat, contents: Bytes, sent: Bytes)
    requires At(all, was, done, contents, sent)
    ensures done <= |all| && contents == all[done..] && sent == was + all[..done]
  {
  }

  lemma Start(all: Bytes, was: Bytes)
    ensures At(all, was, 0, all, was)
  {
  }

  lemma Move(all: Bytes, was: Bytes, done: nat, contents: Bytes, sent: Bytes, n: nat)
    requires At(all, was, done, contents, sent) && n <= |contents|
    ensures At(all, was, done + n, contents[n..], sent + contents[..n])
  {
    Shift(all, done, n);
    Glue(was, all, done, n);
  }

  lemma Shift(all: Bytes, i: nat, n: nat)
    requires i + n <= |all|
    ensures all[i..][n..] == all[i + n..]
  {
  }

  lemma Glue(w: Bytes, all: Bytes, i: nat, n: nat)
    requires i + n <= |all|
    ensures (w + all[..i]) + all[i..][..n] == w + all[..i + n]
  {
  }
}

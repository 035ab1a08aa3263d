/**
 `client_hello` of src/fingerprint.rs: a ClientHello put together from TLS records. The parser of the
 message itself is a parameter: nothing here depends on what it makes of the message.
 */
module ClientHello {
  import opened Octets

  const MAX_HELLO: nat := 256 * 1024
  const MAX_RECORD: nat := 18432
  const HANDSHAKE: Byte := 22

  type Parser<!T> = Bytes -> Option<T>

  /** An error, not complete yet, or the parsed message. */
  datatype Outcome<T> = Failed | Pending | Hello(value: T)

  function Big16(a: Byte, b: Byte): (n: nat)
    ensures n < 65536
  {
    256 * a + b
  }

  function Big24(a: Byte, b: Byte, c: Byte): nat {
    65536 * a + 256 * b + c
  }

  /** What the handshake octets gathered so far amount to. */
  function Message<T>(parse: Parser<T>, hs: Bytes): Outcome<T> {
    if |hs| < 4 then Pending
    else if hs[0] != 1 then Failed
    else
      var n := Big24(hs[1], hs[2], hs[3]);
      if n + 4 > MAX_HELLO then Failed
      else if |hs| < n + 4 then Pending
      else
        match parse(hs[4..n + 4])
        case None => Failed
        case Some(hello) => Hello(hello)
  }

  /** Records from `b` on, with the handshake octets `hs` gathered before. */
  function From<T>(parse: Parser<T>, b: Bytes, hs: Bytes): Outcome<T>
    decreases |b|
  {
    if |b| < 5 then Pending
    else
      var n := Big16(b[3], b[4]);
      if b[0] != HANDSHAKE || n > MAX_RECORD then Failed
      else if 5 + n > |b| then Pending
      else
        var hs' := hs + b[5..5 + n];
        if Message(parse, hs') != Pending then Message(parse, hs') else From(parse, b[5 + n..], hs')
  }

  function Parse<T>(parse: Parser<T>, records: Bytes): Outcome<T> {
    if |records| > MAX_HELLO then Failed else From(parse, records, [])
  }

  method ClientHelloLoop<T>(parse: Parser<T>, records: Bytes) returns (r: Outcome<T>)
    ensures r == Parse(parse, records)
  {
    if |records| > MAX_HELLO {
      return Failed;
    }
    var off := 0;
    var handshake: Bytes := [];
    hide From, Message, Big16, Reading;
    ReadingStarts(parse, records);
    while off + 5 <= |records|
      invariant 0 <= off <= |records|
      invariant Reading(parse, records, off, handshake)
    {
      ReadingTurn(parse, records, off, handshake);
      if records[off] != HANDSHAKE {
        return Failed;
      }
      var n := Big16(records[off + 3], records[off + 4]);
      if n > MAX_RECORD {
        return Failed;
      }
      if off + 5 + n > |records| {
        return Pending;
      }
      handshake := handshake + records[off + 5..off + 5 + n];
      off := off + 5 + n;
      var answer := Complete(parse, handshake);
      if answer != Pending {
        return answer;
      }
    }
    ReadingEnds(parse, records, off, handshake);
    return Pending;
  }

  /** What is left, with the handshake octets gathered, is decisive. */
  ghost predicate Reading<T>(parse: Parser<T>, records: Bytes, off: nat, hs: Bytes) {
    off <= |records| && From(parse, records, []) == From(parse, records[off..], hs)
  }

  lemma ReadingStarts<T>(parse: Parser<T>, records: Bytes)
    ensures Reading(parse, records, 0, [])
  {
    hide From;
    assert records[0..] == records;
  }

  lemma ReadingTurn<T>(parse: Parser<T>, records: Bytes, off: nat, hs: Bytes)
    requires Reading(parse, records, off, hs) && off + 5 <= |records|
    ensures var all := From(parse, records, []);
            var n := Big16(records[off + 3], records[off + 4]);
            if records[off] != HANDSHAKE || n > MAX_RECORD then all == Failed
            else if off + 5 + n > |records| then all == Pending
            else
              var hs' := hs + records[off + 5..off + 5 + n];
              if Message(parse, hs') != Pending then all == Message(parse, hs')
              else Reading(parse, records, off + 5 + n, hs')
  {
    hide From, Message, Big16;
    FromAt(parse, records, off, hs);
  }

  lemma ReadingEnds<T>(parse: Parser<T>, records: Bytes, off: nat, hs: Bytes)
    requires Reading(parse, records, off, hs) && off + 5 > |records|
    ensures From(parse, records, []) == Pending
  {
  }

  method Complete<T>(parse: Parser<T>, handshake: Bytes) returns (r: Outcome<T>)
    ensures r == Message(parse, handshake)
  {
    if |handshake| < 4 {
      return Pending;
    }
    if handshake[0] != 1 {
      return Failed;
    }
    var length := Big24(handshake[1], handshake[2], handshake[3]);
    if length + 4 > MAX_HELLO {
      return Failed;
    }
    if |handshake| < length + 4 {
      return Pending;
    }
    match parse(handshake[4..length + 4]) {
      case None => return Failed;
      case Some(hello) => return Hello(hello);
    }
  }

  lemma FromAt<T>(parse: Parser<T>, records: Bytes, off: nat, hs: Bytes)
    requires off <= |records|
    ensures From(parse, records[off..], hs)
            == if off + 5 > |records| then Pending
               else
                 var n := Big16(records[off + 3], records[off + 4]);
                 if records[off] != HANDSHAKE || n > MAX_RECORD then Failed
                 else if off + 5 + n > |records| then Pending
                 else
                   var hs' := hs + records[off + 5..off + 5 + n];
                   if Message(parse, hs') != Pending then Message(parse, hs')
                   else From(parse, records[off + 5 + n..], hs')
  {
    hide Message;
    if off + 5 <= |records| {
      var n := Big16(records[off + 3], records[off + 4]);
      if off + 5 + n <= |records| {
        assert records[off..][5..5 + n] == records[off + 5..off + 5 + n];
        assert records[off..][5 + n..] == records[off + 5 + n..];
      }
    }
  }

  // ----- More octets change nothing once there is an answer -----

  lemma MessageStable<T>(parse: Parser<T>, hs: Bytes, y: Bytes)
    requires Message(parse, hs) != Pending
    ensures Message(parse, hs + y) == Message(parse, hs)
  {
    var c := hs + y;
    assert c[0] == hs[0] && c[1] == hs[1] && c[2] == hs[2] && c[3] == hs[3];
    var n := Big24(hs[1], hs[2], hs[3]);
    if hs[0] == 1 && n + 4 <= MAX_HELLO {
      assert c[4..n + 4] == hs[4..n + 4];
    }
  }

  lemma {:induction false} FromStable<T>(parse: Parser<T>, b: Bytes, hs: Bytes, y: Bytes)
    requires From(parse, b, hs) != Pending
    ensures From(parse, b + y, hs) == From(parse, b, hs)
    decreases |b|
  {
    hide Message;
    var c := b + y;
    assert c[0] == b[0] && c[3] == b[3] && c[4] == b[4];
    var n := Big16(b[3], b[4]);
    if b[0] == HANDSHAKE && n <= MAX_RECORD {
      assert c[5..5 + n] == b[5..5 + n] && c[5 + n..] == b[5 + n..] + y;
      var hs' := hs + b[5..5 + n];
      if Message(parse, hs') == Pending {
        FromStable(parse, b[5 + n..], hs', y);
      }
    }
  }

  /** An answer stays as it is on every extension within the limit. */
  lemma Stable<T>(parse: Parser<T>, x: Bytes, y: Bytes)
    requires Parse(parse, x) != Pending && |x + y| <= MAX_HELLO
    ensures Parse(parse, x + y) == Parse(parse, x)
  {
    FromStable(parse, x, [], y);
  }

  /** Any two prefixes of one stream agree where both have an answer. */
  lemma PrefixesAgree<T>(parse: Parser<T>, s: Bytes, i: nat, j: nat)
    requires i <= j <= |s| && j <= MAX_HELLO
    ensures Parse(parse, s[..i]) == Pending || Parse(parse, s[..i]) == Parse(parse, s[..j])
  {
    hide Parse;
    if Parse(parse, s[..i]) != Pending {
      assert s[..j] == s[..i] + s[i..j];
      Stable(parse, s[..i], s[i..j]);
    }
  }

  // ----- The result does not depend on how the message is split into records -----

  /** A record: its version, which is not looked at, and its fragment. */
  datatype Record = Record(major: Byte, minor: Byte, fragment: Bytes)

  ghost predicate Fits(rs: seq<Record>) {
    forall i :: 0 <= i < |rs| ==> |rs[i].fragment| <= MAX_RECORD
  }

  function RecordBytes(r: Record): Bytes
    requires |r.fragment| <= MAX_RECORD
  {
    [HANDSHAKE, r.major, r.minor, |r.fragment| / 256, |r.fragment| % 256] + r.fragment
  }

  function Render(rs: seq<Record>): Bytes
    requires Fits(rs)
  {
    if rs == [] then [] else RecordBytes(rs[0]) + Render(rs[1..])
  }

  function Handshake(rs: seq<Record>): Bytes {
    if rs == [] then [] else rs[0].fragment + Handshake(rs[1..])
  }

  lemma FromRecord<T>(parse: Parser<T>, r: Record, x: Bytes, hs: Bytes)
    requires |r.fragment| <= MAX_RECORD
    ensures From(parse, RecordBytes(r) + x, hs)
            == if Message(parse, hs + r.fragment) != Pending then Message(parse, hs + r.fragment)
               else From(parse, x, hs + r.fragment)
  {
    hide Message;
    var b := RecordBytes(r) + x;
    var n := |r.fragment|;
    assert Big16(b[3], b[4]) == n;
    assert b[5..5 + n] == r.fragment && b[5 + n..] == x;
  }

  lemma {:induction false} FromRender<T>(parse: Parser<T>, rs: seq<Record>, x: Bytes, hs: Bytes)
    requires Fits(rs) && Message(parse, hs) == Pending
    ensures var m := Message(parse, hs + Handshake(rs));
            From(parse, Render(rs) + x, hs) == if m != Pending then m else From(parse, x, hs + Handshake(rs))
    decreases |rs|
  {
    hide Message, From;
    if rs == [] {
      assert Render(rs) + x == x && hs + Handshake(rs) == hs;
    } else {
      var r, rest := rs[0], rs[1..];
      assert Render(rs) + x == RecordBytes(r) + (Render(rest) + x);
      FromRecord(parse, r, Render(rest) + x, hs);
      Assoc(hs, r.fragment, Handshake(rest));
      if Message(parse, hs + r.fragment) == Pending {
        FromRender(parse, rest, x, hs + r.fragment);
      } else {
        MessageStable(parse, hs + r.fragment, Handshake(rest));
      }
    }
  }

  /**
   Within the limits the result is what the handshake octets amount to, so it is the same for every
   split of them into records. After a complete message nothing is looked at, and before that an
   incomplete record adds nothing.
   */
  lemma SplitIndependent<T>(parse: Parser<T>, rs: seq<Record>, partial: Bytes)
    requires Fits(rs) && |Render(rs) + partial| <= MAX_HELLO
    requires Message(parse, Handshake(rs)) != Pending || From(parse, partial, Handshake(rs)) == Pending
    ensures Parse(parse, Render(rs) + partial) == Message(parse, Handshake(rs))
  {
    hide From;
    FromRender(parse, rs, partial, []);
    assert [] + Handshake(rs) == Handshake(rs);
  }

  /** Before the last octet of the message there is no answer but to a wrong type or length. */
  lemma PendingUntilComplete<T>(parse: Parser<T>, body: Bytes, k: nat)
    requires |body| + 4 <= MAX_HELLO
    ensures var n := |body|;
            var hs := [1, n / 65536, n / 256 % 256, n % 256] + body;
            && (k < |hs| ==> Message(parse, hs[..k]) == Pending)
            && Message(parse, hs) == (if parse(body).None? then Failed else Hello(parse(body).value))
  {
    var n := |body|;
    var hs := [1, n / 65536, n / 256 % 256, n % 256] + body;
    assert Big24(hs[1], hs[2], hs[3]) == n;
    assert hs[4..n + 4] == body;
    if 4 <= k < |hs| {
      var p := hs[..k];
      assert p[0] == hs[0] && p[1] == hs[1] && p[2] == hs[2] && p[3] == hs[3];
    }
  }

  // ----- The answer for every octet string -----

  /** Numbers of two and three octets, most significant first. */
  function TwoOctets(a: int, b: int): int {
    256 * a + b
  }

  function ThreeOctets(a: int, b: int, c: int): int {
    65536 * a + 256 * b + c
  }

  /** No complete record stands at the front: too short, no handshake record, too long, or cut off. */
  ghost predicate NoRecordAt(x: Bytes) {
    |x| < 5 || x[0] != 22 || TwoOctets(x[3], x[4]) > 18432 || 5 + TwoOctets(x[3], x[4]) > |x|
  }

  /** Octets are complete records and something else in one way. */
  lemma {:induction false} Records(b: Bytes) returns (rs: seq<Record>, x: Bytes)
    ensures Fits(rs) && b == Render(rs) + x && NoRecordAt(x)
    decreases |b|
  {
    if NoRecordAt(b) {
      rs, x := [], b;
      assert b == Render(rs) + x;
    } else {
      var n: nat := TwoOctets(b[3], b[4]);
      var r := Record(b[1], b[2], b[5..5 + n]);
      var others;
      others, x := Records(b[5 + n..]);
      rs := [r] + others;
      assert rs[1..] == others;
      assert b == RecordBytes(r) + b[5 + n..] by {
        DivMod(n, 256, b[3], b[4]);
        assert RecordBytes(r) == [b[0], b[1], b[2], b[3], b[4]] + b[5..5 + n];
      }
      Assoc(RecordBytes(r), Render(others), x);
    }
  }

  /** The message starts with type 1 and its length; anything else fails, and less is not enough yet. */
  lemma MessageIs<T>(parse: Parser<T>, hs: Bytes)
    ensures var n := if |hs| < 4 then 0 else ThreeOctets(hs[1], hs[2], hs[3]);
            && (Message(parse, hs) == Pending <==> |hs| < 4 || (hs[0] == 1 && n <= 262140 && |hs| < n + 4))
            && (Message(parse, hs).Hello? <==>
                  |hs| >= 4 && hs[0] == 1 && n <= 262140 && |hs| >= n + 4 && parse(hs[4..n + 4]).Some?)
            && (Message(parse, hs).Hello? ==> Some(Message(parse, hs).value) == parse(hs[4..n + 4]))
  {
  }

  /**
   Beyond 256 KiB the octets fail. Otherwise the complete records decide if they hold a message or a
   failure; and if not, what follows them fails exactly if it is no handshake record or too long.
   */
  lemma OutcomeIs<T>(parse: Parser<T>, rs: seq<Record>, x: Bytes)
    requires Fits(rs) && NoRecordAt(x)
    ensures Parse(parse, Render(rs) + x)
            == if |Render(rs) + x| > 262144 then Failed
               else if Message(parse, Handshake(rs)) != Pending then Message(parse, Handshake(rs))
               else if |x| >= 5 && (x[0] != 22 || TwoOctets(x[3], x[4]) > 18432) then Failed
               else Pending
  {
    hide Message, Render, Handshake, RecordBytes;
    NothingGathered(parse);
    FromRender(parse, rs, x, []);
    assert [] + Handshake(rs) == Handshake(rs);
  }

  lemma NothingGathered<T>(parse: Parser<T>)
    ensures Message(parse, []) == Pending
  {
  }
}

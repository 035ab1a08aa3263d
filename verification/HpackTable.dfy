/** The dynamic table: the bridge's own (src/hpack_wire.rs) and the rule of section 4 of RFC 7541. */
module HpackTable {
  import opened Octets
  import opened StaticTable

  /** A dynamic table as a value, newest entry first. */
  datatype Dyn = Dyn(entries: seq<Header>, limit: nat)

  const ENTRY_OVERHEAD: nat := 32

  function EntrySize(h: Header): nat {
    |h.0| + |h.1| + ENTRY_OVERHEAD
  }

  function Size(entries: seq<Header>): nat {
    if entries == [] then 0 else EntrySize(entries[0]) + Size(entries[1..])
  }

  /** What `evict` leaves: the longest front part of at most `limit`. */
  function Fit(entries: seq<Header>, limit: nat): (r: seq<Header>)
    ensures r <= entries && Size(r) <= limit
    ensures |r| < |entries| ==> Size(entries[..|r| + 1]) > limit
    ensures Size(entries) <= limit ==> r == entries
  {
    if Size(entries) <= limit then entries
    else
      var shorter := Fit(entries[..|entries| - 1], limit);
      assert |shorter| < |entries| - 1 ==> entries[..|entries| - 1][..|shorter| + 1] == entries[..|shorter| + 1];
      assert |shorter| == |entries| - 1 ==> entries[..|shorter| + 1] == entries;
      shorter
  }

  // ----- Reference: sections 2.3.3, 4.3 and 4.4 -----

  function Get(entries: seq<Header>, index: nat): Option<Header> {
    if index == 0 then None
    else if index <= STATIC_SIZE then Some(Static(index))
    else if index - STATIC_SIZE - 1 < |entries| then Some(entries[index - STATIC_SIZE - 1])
    else None
  }

  /** Entries leave from the end until `limit` is met, or all have left. */
  function Resize(t: Dyn, limit: nat): Dyn {
    Dyn(Fit(t.entries, limit), limit)
  }

  /** Room is made first; an entry larger than the table empties it and is not added. */
  function Insert(t: Dyn, h: Header): Dyn {
    if EntrySize(h) > t.limit then t.(entries := [])
    else t.(entries := [h] + Fit(t.entries, t.limit - EntrySize(h)))
  }

  // ----- Facts about sizes -----

  lemma {:induction false} SizeSnoc(entries: seq<Header>)
    requires entries != []
    ensures Size(entries) == Size(entries[..|entries| - 1]) + EntrySize(entries[|entries| - 1])
  {
    if |entries| > 1 {
      SizeSnoc(entries[1..]);
      assert entries[1..][..|entries| - 2] == entries[..|entries| - 1][1..];
    }
  }

  lemma {:induction false} SizeGrows(entries: seq<Header>, n: nat, m: nat)
    requires n <= m <= |entries|
    ensures Size(entries[..n]) <= Size(entries[..m])
    ensures n < m ==> Size(entries[..n]) < Size(entries[..m])
    decreases m
  {
    if n < m {
      SizeGrows(entries, n, m - 1);
      assert entries[..m][..m - 1] == entries[..m - 1];
      SizeSnoc(entries[..m]);
    }
  }

  lemma {:induction false} SizeCount(entries: seq<Header>)
    ensures ENTRY_OVERHEAD * |entries| <= Size(entries)
  {
    if entries != [] {
      SizeCount(entries[1..]);
    }
  }

  /** All names and values of the entries. */
  function TextOf(entries: seq<Header>): Bytes {
    if entries == [] then [] else TextOf(entries[..|entries| - 1]) + entries[|entries| - 1].0 + entries[|entries| - 1].1
  }

  /** Section 4.1 of RFC 7541: an entry counts with its name, its value and 32 octets. */
  lemma {:induction false} SizeIs(entries: seq<Header>)
    ensures Size(entries) == |TextOf(entries)| + 32 * |entries|
  {
    if entries != [] {
      SizeIs(entries[..|entries| - 1]);
      SizeSnoc(entries);
    }
  }

  /** The front part that fits is determined by being the longest. */
  lemma FitUnique(entries: seq<Header>, limit: nat, r: seq<Header>)
    requires r <= entries && Size(r) <= limit
    requires |r| < |entries| ==> Size(entries[..|r| + 1]) > limit
    ensures Fit(entries, limit) == r
  {
    var f := Fit(entries, limit);
    assert f == entries[..|f|] && r == entries[..|r|];
    if |f| < |r| {
      SizeGrows(entries, |f| + 1, |r|);
    } else if |r| < |f| {
      SizeGrows(entries, |r| + 1, |f|);
    }
  }

  /** The bridge inserts and then evicts; that is the evict-then-insert rule of section 4.4. */
  lemma InsertThenEvict(t: Dyn, h: Header)
    ensures Insert(t, h).entries == Fit([h] + t.entries, t.limit)
  {
    var all := [h] + t.entries;
    if EntrySize(h) > t.limit {
      assert all[..1] == [h];
      assert Size([h]) == EntrySize(h) + Size([]);
      FitUnique(all, t.limit, []);
    } else {
      var kept := Fit(t.entries, t.limit - EntrySize(h));
      var r := [h] + kept;
      assert r[1..] == kept;
      if |kept| < |t.entries| {
        assert all[..|r| + 1][1..] == t.entries[..|kept| + 1];
      }
      FitUnique(all, t.limit, r);
    }
  }

  // ----- The bridge's table -----

  ghost predicate Matches(h: Header, name: Bytes, value: Option<Bytes>) {
    h.0 == name && (value.None? || h.1 == value.value)
  }

  /** Index of the first match from `from` on in the static and then the dynamic table, or 0. */
  function Position(entries: seq<Header>, from: nat, name: Bytes, value: Option<Bytes>): (r: nat)
    requires 1 <= from
    ensures r != 0 ==> from <= r && Get(entries, r).Some? && Matches(Get(entries, r).value, name, value)
    ensures forall i: nat :: from <= i && (r == 0 || i < r) && Get(entries, i).Some?
              ==> !Matches(Get(entries, i).value, name, value)
    decreases STATIC_SIZE + |entries| + 1 - from
  {
    if from > STATIC_SIZE + |entries| then 0
    else
      var h := Get(entries, from).value;
      if h.0 == name && (value.None? || h.1 == value.value) then from
      else Position(entries, from + 1, name, value)
  }

  /** `find`: the preferred index when it matches, else the first match, else 0. */
  function Find(entries: seq<Header>, preferred: nat, name: Bytes, value: Option<Bytes>): (r: nat)
    ensures r != 0 ==> Get(entries, r).Some? && Matches(Get(entries, r).value, name, value)
    ensures r == 0 ==> forall i: nat :: Get(entries, i).Some? ==> !Matches(Get(entries, i).value, name, value)
    ensures Get(entries, preferred).Some? && Matches(Get(entries, preferred).value, name, value) ==> r == preferred
    ensures r != preferred ==> forall i: nat :: i < r && Get(entries, i).Some? ==>
              !Matches(Get(entries, i).value, name, value)
  {
    var p := Get(entries, preferred);
    if p.Some? && p.value.0 == name && (value.None? || p.value.1 == value.value) then preferred
    else Position(entries, 1, name, value)
  }

  class Table {
    var entries: seq<Header>
    var size: nat
    var limit: nat

    /** `size` is the sum of the entry sizes and within the limit. */
    ghost predicate Valid()
      reads this
    {
      size == Size(entries) && size <= limit
    }

    ghost function Value(): Dyn
      reads this
    {
      Dyn(entries, limit)
    }

    constructor ()
      ensures Valid() && Value() == Dyn([], 4096)
    {
      entries, size, limit := [], 0, 4096;
    }

    /** The `unwrap` on an empty table never happens: the size would be zero. */
    method Evict()
      requires size == Size(entries)
      modifies this`entries, this`size
      ensures Valid() && entries == Fit(old(entries), limit)
    {
      while size > limit
        invariant size == Size(entries)
        invariant Fit(entries, limit) == Fit(old(entries), limit)
      {
        SizeSnoc(entries);
        var last := entries[|entries| - 1];
        entries := entries[..|entries| - 1];
        size := size - EntrySize(last);
      }
    }

    method Add(h: Header)
      requires Valid()
      modifies this`entries, this`size
      ensures Valid() && Value() == Insert(old(Value()), h)
    {
      InsertThenEvict(Value(), h);
      size := size + EntrySize(h);
      entries := [h] + entries;
      Evict();
    }

    method SetLimit(n: nat)
      requires Valid()
      modifies this
      ensures Valid() && Value() == Resize(old(Value()), n)
    {
      limit := n;
      Evict();
    }
  }
}

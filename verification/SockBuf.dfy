/** Socket buffers: queues of records, each a chain of buffers, with running counts of octets and of storage. */
module SockBuf {
  import opened Prelude
  import opened Mbufs

  type Records = seq<Chain>

  predicate ValidRecords(rs: Records) {
    forall i :: 0 <= i < |rs| ==> rs[i] != [] && ValidChain(rs[i])
  }

  /** All octets queued. */
  function All(rs: Records): seq<Octet> {
    if rs == [] then [] else Flat(rs[0]) + All(rs[1..])
  }

  /** All storage in use. */
  function Stored(rs: Records): nat {
    if rs == [] then 0 else Space(rs[0]) + Stored(rs[1..])
  }

  lemma {:induction false} AllConcat(rs: Records, qs: Records)
    ensures All(rs + qs) == All(rs) + All(qs) && Stored(rs + qs) == Stored(rs) + Stored(qs)
  {
    hide Flat, Space;
    if rs == [] {
      assert rs + qs == qs;
    } else {
      AllConcat(rs[1..], qs);
      assert (rs + qs)[0] == rs[0] && (rs + qs)[1..] == rs[1..] + qs;
      Assoc(Flat(rs[0]), All(rs[1..]), All(qs));
    }
  }

  lemma AllOne(c: Chain)
    ensures All([c]) == Flat(c) && Stored([c]) == Space(c)
  {
    var rs: Records := [c];
    assert rs[1..] == [];
  }

  lemma AllSnoc(rs: Records, c: Chain)
    ensures All(rs + [c]) == All(rs) + Flat(c) && Stored(rs + [c]) == Stored(rs) + Space(c)
  {
    AllConcat(rs, [c]);
    AllOne(c);
  }

  predicate NoEor(c: Chain) {
    forall i :: 0 <= i < |c| ==> !c[i].eor
  }

  // ----- compaction

  /** Whether an empty buffer may be left out: its mark, if any, can go to a neighbour of the same type. */
  predicate Discard(last: Chain, m: Chain, eor: bool)
    requires m != []
  {
    && |m[0].data| == 0
    && (!eor || (if |m| > 1 then m[1].kind == m[0].kind else last != [] && last[|last| - 1].kind == m[0].kind))
  }

  /** Whether a buffer may be copied into the free space of the last one. */
  predicate Joins(last: Chain, m: Mbuf) {
    && last != []
    && var n := last[|last| - 1];
       n.ext == 0 && !n.eor && n.off + |n.data| + |m.data| < MLEN && n.kind == m.kind
  }

  function Joined(n: Mbuf, m: Mbuf): Mbuf {
    Mbuf(n.data + m.data, n.off, n.kind, n.eor, n.ext)
  }

  function Unmarked(m: Mbuf): Mbuf { Mbuf(m.data, m.off, m.kind, false, m.ext) }
  function Marked(m: Mbuf): Mbuf { Mbuf(m.data, m.off, m.kind, true, m.ext) }

  lemma JoinedText(init: Chain, n: Mbuf, m: Mbuf)
    requires n.kind == m.kind
    ensures Flat(init + [Joined(n, m)]) == Flat(init + [n]) + Text(m)
    ensures Space(init + [Joined(n, m)]) == Space(init + [n])
  {
    TaggedConcat(n.kind, n.data, m.data);
    FlatSnoc(init, n);
    FlatSnoc(init, Joined(n, m));
    hide Tagged, Flat, Space;
    Assoc(Flat(init), Text(n), Text(m));
  }

  /** Putting a mark on the last buffer changes neither octets nor storage. */
  lemma MarkedText(c: Chain)
    requires c != []
    ensures var d := c[|c| - 1 := Marked(c[|c| - 1])]; Flat(d) == Flat(c) && Space(d) == Space(c)
  {
    var init, n := c[..|c| - 1], c[|c| - 1];
    assert c == init + [n] && c[|c| - 1 := Marked(n)] == init + [Marked(n)];
    FlatSnoc(init, n);
    FlatSnoc(init, Marked(n));
  }

  lemma UnmarkedText(c: Chain, m: Mbuf)
    ensures Flat(c + [Unmarked(m)]) == Flat(c) + Text(m) && Space(c + [Unmarked(m)]) == Space(c) + MSIZE + m.ext
  {
    FlatSnoc(c, Unmarked(m));
  }

  predicate HasEor(c: Chain) { !NoEor(c) }

  function Last(rs: Records): Chain {
    if rs == [] then [] else rs[|rs| - 1]
  }

  function Init<T>(s: seq<T>): seq<T> {
    if s == [] then [] else s[..|s| - 1]
  }

  /** The mark is on the last buffer of the chain and nowhere else, or there is none. */
  predicate MarkAtEnd(c: Chain, eor: bool) {
    if eor then c != [] && NoEor(Init(c)) && c[|c| - 1].eor else NoEor(c)
  }

  /** The queue with `last` in place of its last record. */
  function WithLast(rs: Records, last: Chain): Records {
    if last == [] then [] else Init(rs) + [last]
  }

  lemma LastSplit(rs: Records)
    ensures All(rs) == All(Init(rs)) + Flat(Last(rs)) && Stored(rs) == Stored(Init(rs)) + Space(Last(rs))
    ensures ValidRecords(rs) ==> ValidRecords(Init(rs)) && ValidChain(Last(rs)) && rs == WithLast(rs, Last(rs))
  {
    if rs != [] {
      assert rs == Init(rs) + [Last(rs)];
      AllSnoc(Init(rs), Last(rs));
    }
  }

  lemma WithLastSplit(rs: Records, last: Chain)
    requires rs != [] ==> last != []
    ensures All(WithLast(rs, last)) == All(Init(rs)) + Flat(last)
    ensures Stored(WithLast(rs, last)) == Stored(Init(rs)) + Space(last)
    ensures ValidRecords(rs) && ValidChain(last) ==> ValidRecords(WithLast(rs, last))
    ensures Last(WithLast(rs, last)) == last
  {
    if last != [] {
      AllSnoc(Init(rs), last);
    }
  }

  /**
   The buffers from `from` on could not have been copied into the one before, and none is empty unless it was needed for
   a mark.
   */
  predicate Tight(c: Chain, from: nat, eor: bool) {
    && (forall k :: from <= k < |c| && k > 0 ==>
          !(c[k - 1].ext == 0 && c[k - 1].kind == c[k].kind && c[k - 1].off + |c[k - 1].data| + |c[k].data| < MLEN))
    && (!eor ==> forall k :: from <= k < |c| ==> c[k].data != [])
  }

  /** What compaction keeps while it works its way through the chain `m`, `i` buffers of which are done. */
  ghost predicate Compacting(last0: Chain, last: Chain, m: Chain, i: nat, eor: bool) {
    && i <= |m| && ValidChain(last) && NoEor(last) && |last0| <= |last| && Tight(last, |last0|, eor)
    && Flat(last) == Flat(last0) + Flat(m[..i])
    && eor == HasEor(m[..i]) && (eor ==> last != [] || i < |m|)
  }

  lemma Prefix(m: Chain, i: nat)
    requires i < |m|
    ensures Flat(m[..i + 1]) == Flat(m[..i]) + Text(m[i]) && Flat(m[..0]) == []
    ensures HasEor(m[..i + 1]) == (HasEor(m[..i]) || m[i].eor)
  {
    assert m[..i + 1] == m[..i] + [m[i]];
    FlatSnoc(m[..i], m[i]);
    if HasEor(m[..i]) {
      var j :| 0 <= j < i && m[..i][j].eor;
      assert m[..i + 1][j].eor;
    }
    if m[i].eor {
      assert m[..i + 1][i].eor;
    }
  }

  lemma TightJoined(last: Chain, from: nat, m: Mbuf, eor: bool)
    requires Tight(last, from, eor) && Joins(last, m)
    ensures Tight(last[|last| - 1 := Joined(last[|last| - 1], m)], from, eor || m.eor)
  {
  }

  lemma TightLinked(last: Chain, from: nat, m: Mbuf, eor: bool)
    requires Tight(last, from, eor) && NoEor(last) && !Joins(last, m) && (|m.data| == 0 ==> eor || m.eor)
    ensures Tight(last + [Unmarked(m)], from, eor || m.eor)
  {
    var c := last + [Unmarked(m)];
    forall k | from <= k < |c| && k > 0
      ensures !(c[k - 1].ext == 0 && c[k - 1].kind == c[k].kind
                && c[k - 1].off + |c[k - 1].data| + |c[k].data| < MLEN) {
      if k < |last| {
        assert c[k] == last[k] && c[k - 1] == last[k - 1];
      }
    }
  }

  lemma CompactDiscard(last0: Chain, last: Chain, m: Chain, i: nat, eor: bool)
    requires Compacting(last0, last, m, i, eor) && i < |m| && Discard(last, m[i..], eor || m[i].eor)
    ensures Compacting(last0, last, m, i + 1, eor || m[i].eor)
  {
    hide Flat, NoEor, ValidChain;
    Prefix(m, i);
    assert Text(m[i]) == [];
    assert m[i..][0] == m[i];
  }

  lemma CompactJoin(last0: Chain, last: Chain, m: Chain, i: nat, eor: bool)
    requires Compacting(last0, last, m, i, eor) && i < |m| && Joins(last, m[i])
    ensures var n := last[|last| - 1];
            var last' := last[|last| - 1 := Joined(n, m[i])];
            && Compacting(last0, last', m, i + 1, eor || m[i].eor)
            && Space(last') == Space(last) && |Flat(last')| == |Flat(last)| + |m[i].data|
  {
    hide Flat, Space, NoEor, ValidChain, Joined, Tight, Text;
    var init, n := last[..|last| - 1], last[|last| - 1];
    var last' := last[|last| - 1 := Joined(n, m[i])];
    assert last == init + [n] && last' == init + [Joined(n, m[i])];
    JoinedText(init, n, m[i]);
    JoinKeeps(last, m[i]);
    Prefix(m, i);
    TightJoined(last, |last0|, m[i], eor);
    Assoc(Flat(last0), Flat(m[..i]), Text(m[i]));
  }

  lemma JoinKeeps(last: Chain, m: Mbuf)
    requires ValidChain(last) && NoEor(last) && Joins(last, m)
    ensures var last' := last[|last| - 1 := Joined(last[|last| - 1], m)]; ValidChain(last') && NoEor(last')
  {
  }

  lemma CompactLink(last0: Chain, last: Chain, m: Chain, i: nat, eor: bool)
    requires Compacting(last0, last, m, i, eor) && i < |m| && ValidMbuf(m[i])
    requires !Discard(last, m[i..], eor || m[i].eor) && !Joins(last, m[i])
    ensures var last' := last + [Unmarked(m[i])];
            && Compacting(last0, last', m, i + 1, eor || m[i].eor)
            && Space(last') == Space(last) + MSIZE + m[i].ext && |Flat(last')| == |Flat(last)| + |m[i].data|
  {
    hide Flat, Space, NoEor, ValidChain, Unmarked, Tight, Text, Joins;
    UnmarkedText(last, m[i]);
    LinkKeeps(last, m[i]);
    Prefix(m, i);
    assert m[i..][0] == m[i];
    TightLinked(last, |last0|, m[i], eor);
    Assoc(Flat(last0), Flat(m[..i]), Text(m[i]));
  }

  lemma LinkKeeps(last: Chain, m: Mbuf)
    requires ValidChain(last) && NoEor(last) && ValidMbuf(m)
    ensures ValidChain(last + [Unmarked(m)]) && NoEor(last + [Unmarked(m)])
  {
  }

  // ----- the queue as records

  /**
   A record as its users see it: its octets, and how many of them there are up to and including the last buffer with a
   mark.
   */
  datatype Record = Record(octets: seq<Octet>, mark: Option<nat>)

  function MarkPlace(c: Chain): Option<nat> {
    if c == [] then None
    else
      match MarkPlace(c[1..])
      case Some(k) => Some(|c[0].data| + k)
      case None => if c[0].eor then Some(|c[0].data|) else None
  }

  function View(c: Chain): Record { Record(Flat(c), MarkPlace(c)) }

  function Queue(rs: Records): (q: seq<Record>)
    ensures |q| == |rs| && forall i :: 0 <= i < |rs| ==> q[i] == View(rs[i])
  {
    seq(|rs|, i requires 0 <= i < |rs| => View(rs[i]))
  }

  /** A record complete with the mark at its end, or one that is still open. */
  function Whole(octets: seq<Octet>, marked: bool): Record {
    Record(octets, if marked then Some(|octets|) else None)
  }

  /** A record without its first octets: the mark goes with the octets it is behind. */
  function Trimmed(r: Record, n: nat): Record
    requires n <= |r.octets|
  {
    Record(r.octets[n..], if r.mark.Some? && r.mark.value > n then Some(r.mark.value - n) else None)
  }

  /**
   The queue without its first octets. A record of which no octet is left is gone, the ones after it are untouched.
   */
  function Cut(q: seq<Record>, n: nat): seq<Record> {
    if q == [] then []
    else if n < |q[0].octets| then [Trimmed(q[0], n)] + q[1..]
    else if n == |q[0].octets| then q[1..]
    else Cut(q[1..], n - |q[0].octets|)
  }

  lemma {:induction false} MarkedSomewhere(c: Chain)
    ensures HasEor(c) <==> MarkPlace(c).Some?
  {
    if c != [] {
      MarkedSomewhere(c[1..]);
      if HasEor(c) {
        var i :| 0 <= i < |c| && c[i].eor;
        assert i > 0 ==> c[1..][i - 1].eor;
      }
      if HasEor(c[1..]) {
        var i :| 0 <= i < |c[1..]| && c[1..][i].eor;
        assert c[i + 1].eor;
      }
    }
  }

  /** A mark on the last buffer is behind all octets. */
  lemma {:induction false} MarkBehindAll(c: Chain)
    requires c != [] && c[|c| - 1].eor
    ensures MarkPlace(c) == Some(|Flat(c)|)
  {
    if |c| == 1 {
      FlatOne(c[0]);
      assert c == [c[0]] && MarkPlace(c[1..]) == None;
    } else {
      MarkBehindAll(c[1..]);
      FlatRest(c);
    }
  }

  lemma ViewCompacted(c: Chain, eor: bool)
    requires MarkAtEnd(c, eor)
    ensures View(c) == Whole(Flat(c), eor)
  {
    MarkedSomewhere(c);
    if eor {
      MarkBehindAll(c);
    }
  }

  lemma QueueSnoc(rs: Records, c: Chain)
    ensures Queue(rs + [c]) == Queue(rs) + [View(c)]
  {
  }

  class Buffer {
    var records: Records
    var cc: nat
    var mbcnt: nat

    /** The counts are those of the queue. */
    ghost predicate Valid()
      reads this
    {
      ValidRecords(records) && cc == |All(records)| && mbcnt == Stored(records)
    }

    constructor ()
      ensures Valid() && records == []
    {
      records, cc, mbcnt := [], 0, 0;
    }

    /** Add a chain to the last record, or to the empty queue, leaving out empty buffers and filling up the last one. */
    method Compress(m: Chain)
      requires Valid() && ValidChain(m) && (m != [] ==> NoEor(Last(records)))
      modifies this
      ensures Valid()
      ensures m == [] ==> records == old(records)
      ensures records == WithLast(old(records), Last(records)) && (old(records) != [] ==> records != [])
      ensures Flat(Last(records)) == Flat(Last(old(records))) + Flat(m)
      ensures m != [] ==> MarkAtEnd(Last(records), HasEor(m))
      ensures Tight(Last(records), |Last(old(records))|, HasEor(m))
    {
      hide All, Flat, Space, Stored, NoEor, ValidChain, ValidMbuf, ValidRecords, Compacting, Tight,
           Discard, Joined, Unmarked;
      var rs0 := records;
      LastSplit(rs0);
      if m == [] {
        FlatNothing(Last(rs0));
        assert Tight(Last(rs0), |Last(rs0)|, HasEor(m));
        return;
      }
      var eor, i := false, 0;
      var last := Last(records);
      CompactStart(last, m);
      while i < |m|
        invariant i <= |m| && Compacting(Last(rs0), last, m, i, eor) && records == WithLast(rs0, last)
        invariant cc == |All(Init(rs0))| + |Flat(last)| && mbcnt == Stored(Init(rs0)) + Space(last)
      {
        CompactParts(Last(rs0), last, m, i, eor);
        ghost var was := eor;
        eor := eor || m[i].eor;
        if Discard(last, m[i..], eor) {
          CompactDiscard(Last(rs0), last, m, i, was);
        } else if Joins(last, m[i]) {
          CompactJoin(Last(rs0), last, m, i, was);
          last := last[|last| - 1 := Joined(last[|last| - 1], m[i])];
          cc := cc + |m[i].data|;
        } else {
          CompactLink(Last(rs0), last, m, i, was);
          last := last + [Unmarked(m[i])];
          cc := cc + |m[i].data|;
          mbcnt := mbcnt + MSIZE + m[i].ext;
        }
        records := WithLast(rs0, last);
        i := i + 1;
      }
      CompactParts(Last(rs0), last, m, i, eor);
      if eor {
        // there always is a buffer to put the mark on
        MarkedText(last);
        MarkedEnd(last, |Last(rs0)|);
        last := last[|last| - 1 := Marked(last[|last| - 1])];
        records := WithLast(rs0, last);
      }
      WithLastSplit(rs0, last);
    }

    /**
     Add a chain as a new record; a record of no octets is possible. A mark anywhere in it ends up on its last buffer.
     */
    method AppendRecord(m0: Chain)
      requires Valid() && ValidChain(m0)
      modifies this
      ensures Valid()
      ensures m0 == [] ==> records == old(records)
      ensures m0 != []
              ==> |records| == old(|records|) + 1 && Init(records) == old(records) && Flat(Last(records)) == Flat(m0)
      ensures m0 != [] ==> MarkAtEnd(Last(records), HasEor(m0)) && Tight(Last(records), 1, HasEor(m0))
      ensures |m0| == 1 ==> records == old(records) + [m0]
    {
      hide All, Flat, Space, Stored, ValidRecords, NoEor, Tight, MarkAtEnd;
      if m0 == [] {
        return;
      }
      var first, m := m0[0], m0[1..];
      FirstRest(m0);
      assert |m0| == 1 ==> m == [] && [first] == m0;
      if m != [] && first.eor {
        first := Unmarked(first);
        m := m[0 := Marked(m[0])];
      }
      MarkMoved(m0, m);
      records := records + [[first]];
      cc := cc + |first.data|;
      mbcnt := mbcnt + MSIZE + first.ext;
      NewRecord(old(records), first);
      LastAdded(old(records), [first]);
      Compress(m);
    }

    /** Whether the last record is marked as complete. */
    method LastComplete() returns (yes: bool)
      ensures yes == HasEor(Last(records))
    {
      var c := Last(records);
      var i := 0;
      while i < |c|
        invariant 0 <= i <= |c| && forall j :: 0 <= j < i ==> !c[j].eor
      {
        if c[i].eor {
          return true;
        }
        i := i + 1;
      }
      return false;
    }

    /**
     Add a chain to the end of the queue: to the last record, or as a new one if that is complete.
     */
    method Append(m: Chain)
      requires Valid() && ValidChain(m)
      modifies this
      ensures Valid() && All(records) == old(All(records)) + Flat(m)
      ensures if m == [] then records == old(records)
              else if HasEor(Last(old(records))) then
                |records| == old(|records|) + 1 && Init(records) == old(records) && Flat(Last(records)) == Flat(m)
              else
                records == WithLast(old(records), Last(records))
                && Flat(Last(records)) == Flat(Last(old(records))) + Flat(m)
      ensures m != [] ==> MarkAtEnd(Last(records), HasEor(m))
      ensures if old(records) == [] then Tight(Last(records), 0, HasEor(m)) else records != []
    {
      hide All, Flat, Space, Stored, ValidRecords, ValidChain, NoEor, Tight, MarkAtEnd;
      TightNothing(HasEor(m));
      LastSplit(old(records));
      if m == [] {
        FlatEmpty();
        return;
      }
      var complete := LastComplete();
      if complete {
        AppendRecord(m);
        LastSplit(records);
        return;
      }
      Compress(m);
      LastSplit(records);
      WithLastInit(old(records), records, m);
    }

    /** Add the sender's address, control information and data as one new record, if there is space for it. */
    method AppendAddr(asa: seq<Byte>, m0: Chain, control: Chain, hiwat: nat, mbmax: nat) returns (ok: bool)
      requires Valid() && ValidChain(m0) && ValidChain(control)
      modifies this
      ensures Valid()
      ensures ok <==> |asa| + |Flat(m0)| + |Flat(control)| <= Min(hiwat - old(cc), mbmax - old(mbcnt)) && |asa| <= MLEN
      ensures !ok ==> records == old(records)
      ensures ok ==> records == old(records) + [[Mbuf(asa, 0, Soname, false, 0)] + (control + m0)]
    {
      hide All, Flat, Space, Stored, ValidRecords;
      var l0 := Length(m0);
      var lc := Length(control);
      var space := |asa| + l0 + lc;
      if space > Min(hiwat - cc, mbmax - mbcnt) {
        return false;
      }
      if |asa| > MLEN {
        return false;
      }
      var m := [Mbuf(asa, 0, Soname, false, 0)] + (control + m0);
      AddRecord(m);
      return true;
    }

    /** Add control information and data as one new record, if there is space for it. */
    method AppendControl(m0: Chain, control: Chain, hiwat: nat, mbmax: nat) returns (ok: bool)
      requires Valid() && ValidChain(m0) && ValidChain(control) && control != []
      modifies this
      ensures Valid()
      ensures ok <==> |Flat(control)| + |Flat(m0)| <= Min(hiwat - old(cc), mbmax - old(mbcnt))
      ensures records == if ok then old(records) + [control + m0] else old(records)
    {
      hide All, Flat, Space, Stored, ValidRecords;
      var space := Length(control);
      var l0 := Length(m0);
      space := space + l0;
      if space > Min(hiwat - cc, mbmax - mbcnt) {
        return false;
      }
      AddRecord(control + m0);
      return true;
    }

    /** Count a chain in and put it at the end of the queue as it is. */
    method AddRecord(m: Chain)
      requires Valid() && ValidChain(m) && m != []
      modifies this
      ensures Valid() && records == old(records) + [m]
    {
      hide All, Flat, Space, Stored;
      var i := 0;
      FlatEmpty();
      while i < |m|
        invariant 0 <= i <= |m| && records == old(records)
        invariant cc == old(cc) + |Flat(m[..i])| && mbcnt == old(mbcnt) + Space(m[..i])
      {
        assert m[..i + 1] == m[..i] + [m[i]];
        FlatSnoc(m[..i], m[i]);
        cc := cc + |m[i].data|;
        mbcnt := mbcnt + MSIZE + m[i].ext;
        i := i + 1;
      }
      assert m[..i] == m;
      AllSnoc(records, m);
      records := records + [m];
    }

    /** Take octets off the front of the queue, across records, and with them the buffers that become or are empty. */
    method Drop(count: nat)
      requires Valid() && count <= cc
      modifies this
      ensures Valid() && All(records) == old(All(records))[count..] && Behind(old(records), records)
      ensures Queue(records) == Cut(old(Queue(records)), count)
      ensures count == old(cc) && old(records) != [] ==> |records| < old(|records|)
    {
      hide All, Flat, Space, Stored, Dropped, ValidRecords, Behind, Cutting, Cut, Queue;
      ghost var rs := records;
      if records == [] {
        NothingThere();
        NothingCut(count);
        return;
      }
      var m, next := records[0], records[1..];
      var len := count;
      ghost var k := 1;
      DropStart(rs);
      CutStart(rs, count);
      while len > 0
        invariant 0 <= len <= count && Dropped(rs, k, m, next, count - len, cc, mbcnt) && count - len + cc == |All(rs)|
        invariant Cutting(rs, count, m, next, len)
        decreases |next|, |m|, len
      {
        if m == [] {
          DropNext(rs, k, next, count - len, cc, mbcnt);
          CutNext(rs, count, next, len);
          m, next := next[0], next[1..];
          k := k + 1;
        } else if |m[0].data| > len {
          DropWithin(rs, k, m, next, count - len, cc, mbcnt, len);
          CutWithin(rs, count, m, next, len);
          m := [Advance(m[0], len)] + m[1..];
          cc := cc - len;
          len := 0;
        } else {
          DropFirst(rs, k, m, next, count - len, cc, mbcnt);
          CutFirst(rs, count, m, next, len);
          len := len - |m[0].data|;
          cc := cc - |m[0].data|;
          mbcnt := mbcnt - MSIZE - m[0].ext;
          m := m[1..];
        }
      }
      while m != [] && |m[0].data| == 0
        invariant Dropped(rs, k, m, next, count, cc, mbcnt) && Cutting(rs, count, m, next, 0)
        decreases |m|
      {
        DropFirst(rs, k, m, next, count, cc, mbcnt);
        CutFirst(rs, count, m, next, 0);
        mbcnt := mbcnt - MSIZE - m[0].ext;
        m := m[1..];
      }
      DropEnd(rs, k, m, next, count, cc, mbcnt);
      CutEnd(rs, count, m, next);
      records := if m != [] then [m] + next else next;
    }

    /** Take the first record off the queue. */
    method DropRecord()
      requires Valid()
      modifies this
      ensures Valid() && records == if old(records) == [] then [] else old(records)[1..]
    {
      hide All, Flat, Space, Stored, Dropped, ValidRecords;
      if records == [] {
        return;
      }
      ghost var rs := records;
      var m, next := records[0], records[1..];
      DropStart(rs);
      ghost var a: nat := 0;
      records := next;
      while m != []
        invariant records == next && Dropped(rs, 1, m, next, a, cc, mbcnt)
        decreases |m|
      {
        DropFirst(rs, 1, m, next, a, cc, mbcnt);
        a := a + |m[0].data|;
        cc := cc - |m[0].data|;
        mbcnt := mbcnt - MSIZE - m[0].ext;
        m := m[1..];
      }
      RecordDropped(rs, next, a, cc, mbcnt);
    }

    /** Empty the queue: this ends, and no octet, no storage and no buffer is left, even if there are empty records. */
    method Flush()
      requires Valid()
      modifies this
      ensures Valid() && cc == 0 && mbcnt == 0 && records == []
    {
      while mbcnt > 0
        invariant Valid()
        decreases |records|
      {
        StoredNone(records);
        Drop(cc);
      }
      StoredNone(records);
    }
  }

  /** A chain without its first buffers, and without some octets of the next. */
  ghost predicate TailOf(t: Chain, c: Chain) {
    exists i: nat, n: nat :: TailAt(t, c, i, n)
  }

  ghost predicate TailAt(t: Chain, c: Chain, i: nat, n: nat) {
    i < |c| && n <= |c[i].data| && t == [Advance(c[i], n)] + c[i + 1..]
  }

  /** What is left after a drop: whole records, preceded perhaps by the tail of one. */
  ghost predicate Behind(rs: Records, left: Records) {
    exists k: nat :: k <= |rs| && BehindAt(rs, left, k)
  }

  ghost predicate BehindAt(rs: Records, left: Records, k: nat)
    requires k <= |rs|
  {
    || left == rs[k..]
    || (k > 0 && left != [] && left[1..] == rs[k..] && TailOf(left[0], rs[k - 1]))
  }

  /** `a` octets are gone: `m` is left of record `k - 1`, and `next` are the records after it. */
  ghost predicate Dropped(rs: Records, k: nat, m: Chain, next: Records, a: nat, cc: nat, mbcnt: nat) {
    && ValidRecords(rs) && 1 <= k <= |rs| && next == rs[k..] && ValidChain(m)
    && (m != [] ==> TailOf(m, rs[k - 1]))
    && a <= |All(rs)| && Flat(m) + All(next) == All(rs)[a..]
    && cc == |Flat(m)| + |All(next)| && mbcnt == Space(m) + Stored(next)
  }

  /**
   What is to be cut off the whole queue is what is still to be cut off the rest of a record and the records after it.
   */
  ghost predicate Cutting(rs: Records, count: nat, m: Chain, next: Records, len: nat) {
    Cut(Queue(rs), count) == Cut([View(m)] + Queue(next), len)
  }

  lemma NothingCut(count: nat)
    ensures Queue([]) == [] == Cut(Queue([]), count)
  {
  }

  lemma CutStart(rs: Records, count: nat)
    requires rs != []
    ensures Cutting(rs, count, rs[0], rs[1..], count)
  {
    assert Queue(rs) == [View(rs[0])] + Queue(rs[1..]);
  }

  lemma CutFurther(r: Record, q: seq<Record>, n: nat)
    ensures Cut([r] + q, n) == if n < |r.octets| then [Trimmed(r, n)] + q else if n == |r.octets| then q
            else Cut(q, n - |r.octets|)
  {
    assert ([r] + q)[1..] == q;
  }

  lemma CutNext(rs: Records, count: nat, next: Records, len: nat)
    requires Cutting(rs, count, [], next, len) && len > 0 && next != []
    ensures Cutting(rs, count, next[0], next[1..], len)
  {
    FlatEmpty();
    CutFurther(View([]), Queue(next), len);
    assert Queue(next) == [View(next[0])] + Queue(next[1..]);
  }

  lemma CutFirst(rs: Records, count: nat, m: Chain, next: Records, len: nat)
    requires Cutting(rs, count, m, next, len) && m != [] && |m[0].data| <= len
    ensures Cutting(rs, count, m[1..], next, len - |m[0].data|)
  {
    FlatRest(m);
    hide Flat, Text, Cut, Queue;
    var n := |m[0].data|;
    CutFurther(View(m), Queue(next), len);
    CutFurther(View(m[1..]), Queue(next), len - n);
    if len < |Flat(m)| {
      assert Flat(m)[len..] == Flat(m[1..])[len - n..] by {
        SliceBehind(Text(m[0]), Flat(m[1..]), len);
      }
    }
  }

  lemma SliceBehind<T>(a: seq<T>, b: seq<T>, n: nat)
    requires |a| <= n <= |a| + |b|
    ensures (a + b)[n..] == b[n - |a|..]
  {
  }

  lemma CutWithin(rs: Records, count: nat, m: Chain, next: Records, len: nat)
    requires Cutting(rs, count, m, next, len) && m != [] && len < |m[0].data|
    ensures Cutting(rs, count, [Advance(m[0], len)] + m[1..], next, 0)
  {
    FlatRest(m);
    var m' := [Advance(m[0], len)] + m[1..];
    AdvanceText(m[0], len);
    FlatFirst(Advance(m[0], len), m[1..]);
    assert m'[1..] == m[1..] && m'[0] == Advance(m[0], len);
    hide Flat, Text, Cut, Queue;
    CutFurther(View(m), Queue(next), len);
    CutFurther(View(m'), Queue(next), 0);
    SliceWithin(Text(m[0]), Flat(m[1..]), len);
  }

  lemma SliceWithin<T>(a: seq<T>, b: seq<T>, n: nat)
    requires n <= |a|
    ensures (a + b)[n..] == a[n..] + b
  {
  }

  lemma CutEnd(rs: Records, count: nat, m: Chain, next: Records)
    requires Cutting(rs, count, m, next, 0) && (m != [] ==> |m[0].data| > 0)
    ensures Queue(if m != [] then [m] + next else next) == Cut(Queue(rs), count)
  {
    hide Cut, Queue, Flat;
    CutFurther(View(m), Queue(next), 0);
    if m == [] {
      FlatEmpty();
    } else {
      FlatRest(m);
      assert Trimmed(View(m), 0) == View(m);
      QueueFirst(m, next);
    }
  }

  lemma QueueFirst(c: Chain, rs: Records)
    ensures Queue([c] + rs) == [View(c)] + Queue(rs)
  {
  }

  lemma NothingThere()
    ensures All([]) == [] && Behind([], [])
  {
    assert BehindAt([], [], 0);
  }

  lemma TailSelf(c: Chain)
    requires c != []
    ensures TailOf(c, c)
  {
    assert Advance(c[0], 0) == c[0];
    assert TailAt(c, c, 0, 0);
  }

  lemma TailTail(t: Chain, c: Chain)
    requires TailOf(t, c) && |t| > 1
    ensures TailOf(t[1..], c)
  {
    var i: nat, n: nat :| TailAt(t, c, i, n);
    assert t[1..] == c[i + 1..];
    hide Advance;
    TailSuffix(c, i + 1);
  }

  lemma TailSuffix(c: Chain, i: nat)
    requires i < |c|
    ensures TailOf(c[i..], c)
  {
    assert Advance(c[i], 0) == c[i];
    assert TailAt(c[i..], c, i, 0);
  }

  lemma TailAdvanced(t: Chain, c: Chain, len: nat)
    requires TailOf(t, c) && len <= |t[0].data|
    ensures TailOf([Advance(t[0], len)] + t[1..], c)
  {
    var i: nat, n: nat :| TailAt(t, c, i, n);
    assert Advance(t[0], len) == Advance(c[i], n + len);
    assert TailAt([Advance(t[0], len)] + t[1..], c, i, n + len);
  }

  lemma DropStart(rs: Records)
    requires ValidRecords(rs) && rs != []
    ensures Dropped(rs, 1, rs[0], rs[1..], 0, |All(rs)|, Stored(rs))
  {
    hide Flat, Space, TailOf;
    TailSelf(rs[0]);
    assert All(rs)[0..] == All(rs);
  }

  lemma DropNext(rs: Records, k: nat, next: Records, a: nat, cc: nat, mbcnt: nat)
    requires Dropped(rs, k, [], next, a, cc, mbcnt) && cc > 0
    ensures next != [] && Dropped(rs, k + 1, next[0], next[1..], a, cc, mbcnt)
  {
    FlatEmpty();
    hide Flat, Space;
    assert next != [];
    TailSelf(next[0]);
    assert next[1..] == rs[k + 1..] && next[0] == rs[k];
    assert Flat([]) + All(next) == All(next);
  }

  lemma FlatRest(m: Chain)
    requires m != []
    ensures Flat(m) == Text(m[0]) + Flat(m[1..]) && Space(m) == MSIZE + m[0].ext + Space(m[1..])
  {
  }

  lemma DropFirst(rs: Records, k: nat, m: Chain, next: Records, a: nat, cc: nat, mbcnt: nat)
    requires Dropped(rs, k, m, next, a, cc, mbcnt) && m != []
    ensures cc >= |m[0].data| && mbcnt >= MSIZE + m[0].ext
    ensures Dropped(rs, k, m[1..], next, a + |m[0].data|, cc - |m[0].data|, mbcnt - MSIZE - m[0].ext)
  {
    FlatRest(m);
    hide All, Flat, Space, Stored, TailOf, Text;
    if |m| > 1 {
      TailTail(m, rs[k - 1]);
    }
    CutFront(All(rs), a, Text(m[0]), Flat(m[1..]), All(next));
  }

  lemma CutFront(all: seq<Octet>, a: nat, x: seq<Octet>, y: seq<Octet>, z: seq<Octet>)
    requires a <= |all| && (x + y) + z == all[a..]
    ensures a + |x| <= |all| && y + z == all[a + |x|..]
  {
    assert y + z == ((x + y) + z)[|x|..];
  }

  lemma DropWithin(rs: Records, k: nat, m: Chain, next: Records, a: nat, cc: nat, mbcnt: nat, len: nat)
    requires Dropped(rs, k, m, next, a, cc, mbcnt) && m != [] && len < |m[0].data|
    ensures cc >= len && Dropped(rs, k, [Advance(m[0], len)] + m[1..], next, a + len, cc - len, mbcnt)
  {
    FlatRest(m);
    hide All, Flat, Space, Stored, TailOf, Text;
    TailAdvanced(m, rs[k - 1], len);
    AdvanceText(m[0], len);
    FlatFirst(Advance(m[0], len), m[1..]);
    var x := Text(m[0]);
    assert x == x[..len] + x[len..];
    Assoc(x[..len], x[len..], Flat(m[1..]));
    CutFront(All(rs), a, x[..len], x[len..] + Flat(m[1..]), All(next));
  }

  lemma DropEnd(rs: Records, k: nat, m: Chain, next: Records, a: nat, cc: nat, mbcnt: nat)
    requires Dropped(rs, k, m, next, a, cc, mbcnt) && (m != [] ==> |m[0].data| > 0)
    ensures var left := if m != [] then [m] + next else next;
            && ValidRecords(left) && All(left) == All(rs)[a..] && cc == |All(left)| && mbcnt == Stored(left)
            && Behind(rs, left) && (cc == 0 ==> |left| < |rs|)
  {
    var left := if m != [] then [m] + next else next;
    FlatEmpty();
    if m != [] {
      FlatRest(m);
      assert left[1..] == next;
    }
    hide Flat, Space, TailOf;
    assert BehindAt(rs, left, k);
    if m == [] {
      assert Flat(m) + All(next) == All(next);
    }
  }

  lemma RecordDropped(rs: Records, next: Records, a: nat, cc: nat, mbcnt: nat)
    requires Dropped(rs, 1, [], next, a, cc, mbcnt)
    ensures ValidRecords(next) && cc == |All(next)| && mbcnt == Stored(next) && next == rs[1..]
  {
    FlatEmpty();
  }

  lemma StoredNone(rs: Records)
    requires ValidRecords(rs)
    ensures Stored(rs) == 0 <==> rs == []
    ensures rs == [] ==> All(rs) == []
  {
  }

  method Length(c: Chain) returns (n: nat)
    ensures n == |Flat(c)|
  {
    hide Flat;
    n := 0;
    var i := 0;
    FlatEmpty();
    while i < |c|
      invariant 0 <= i <= |c| && n == |Flat(c[..i])|
    {
      assert c[..i + 1] == c[..i] + [c[i]];
      FlatSnoc(c[..i], c[i]);
      n := n + |c[i].data|;
      i := i + 1;
    }
    assert c[..i] == c;
  }

  lemma FlatEmpty()
    ensures Flat([]) == [] && Space([]) == 0
  {
  }

  lemma FirstRest(c: Chain)
    requires c != [] && ValidChain(c)
    ensures c == [c[0]] + c[1..] && ValidMbuf(c[0]) && ValidChain(c[1..])
  {
  }

  lemma MarkMoved(m0: Chain, m: Chain)
    requires m0 != [] && ValidChain(m0)
    requires m == if |m0| > 1 && m0[0].eor then m0[1..][0 := Marked(m0[1])] else m0[1..]
    ensures ValidChain(m) && Flat(m0) == Flat([m0[0]]) + Flat(m) == Flat([Unmarked(m0[0])]) + Flat(m)
    ensures m != [] ==> HasEor(m) == HasEor(m0)
    ensures m == [] ==> MarkAtEnd([m0[0]], HasEor(m0))
    ensures NoEor([Unmarked(m0[0])]) && (!m0[0].eor ==> NoEor([m0[0]])) && (m == [] ==> Tight([m0[0]], 1, HasEor(m0)))
  {
    assert m0 == [m0[0]] + m0[1..];
    FlatConcat([m0[0]], m0[1..]);
    FlatOne(m0[0]);
    FlatOne(Unmarked(m0[0]));
    if m != [] {
      var rest := m0[1..];
      assert Text(Marked(rest[0])) == Text(rest[0]);
      assert rest[0 := Marked(rest[0])][1..] == rest[1..];
      assert Flat(m) == Flat(rest);
      MarkSomewhere(m0, m);
    } else {
      assert m0 == [m0[0]];
    }
  }

  lemma MarkSomewhere(m0: Chain, m: Chain)
    requires |m0| > 1 && m == if m0[0].eor then m0[1..][0 := Marked(m0[1])] else m0[1..]
    ensures HasEor(m) == HasEor(m0)
  {
    if HasEor(m0) {
      var i :| 0 <= i < |m0| && m0[i].eor;
      assert m[if i == 0 then 0 else i - 1].eor;
    }
    if HasEor(m) {
      var i :| 0 <= i < |m| && m[i].eor;
      assert m0[0].eor || m0[i + 1].eor;
    }
  }

  lemma NewRecord(rs: Records, m: Mbuf)
    requires ValidRecords(rs) && ValidMbuf(m)
    ensures ValidRecords(rs + [[m]]) && |All(rs + [[m]])| == |All(rs)| + |m.data|
    ensures Stored(rs + [[m]]) == Stored(rs) + MSIZE + m.ext
  {
    AllSnoc(rs, [m]);
    FlatOne(m);
  }

  lemma LastAdded(rs: Records, c: Chain)
    ensures Last(rs + [c]) == c && Init(rs + [c]) == rs
    ensures forall l :: l != [] ==> Init(WithLast(rs + [c], l)) == rs && |WithLast(rs + [c], l)| == |rs| + 1
  {
  }

  lemma WithLastInit(rs: Records, rs': Records, m: Chain)
    requires rs' == WithLast(rs, Last(rs')) && (rs != [] ==> rs' != []) && Flat(Last(rs')) == Flat(Last(rs)) + Flat(m)
    ensures All(rs') == All(rs) + Flat(m)
  {
    hide Flat, All;
    LastSplit(rs);
    LastSplit(rs');
    if rs' == [] {
      assert Init(rs') == Init(rs) == [];
    } else {
      assert Init(rs') == Init(rs);
    }
    Assoc(All(Init(rs)), Flat(Last(rs)), Flat(m));
  }

  lemma FlatNothing(c: Chain)
    ensures Flat(c) == Flat(c) + Flat([]) && NoEor([]) && Tight(c, |c|, false)
  {
  }

  lemma TightNothing(eor: bool)
    ensures Tight([], 0, eor) && !HasEor([])
  {
  }

  lemma CompactStart(last: Chain, m: Chain)
    requires ValidChain(last) && NoEor(last)
    ensures Compacting(last, last, m, 0, false)
  {
    assert m[..0] == [];
  }

  lemma CompactParts(last0: Chain, last: Chain, m: Chain, i: nat, eor: bool)
    requires Compacting(last0, last, m, i, eor) && ValidChain(m)
    ensures ValidChain(last) && NoEor(last) && (last0 != [] ==> last != []) && (i == |m| && eor ==> last != [])
    ensures i < |m| ==> ValidMbuf(m[i])
    ensures |last0| <= |last| && Tight(last, |last0|, eor)
    ensures i == |m| ==> eor == HasEor(m) && Flat(last) == Flat(last0) + Flat(m)
  {
    assert i == |m| ==> m[..i] == m;
  }

  lemma MarkedEnd(c: Chain, from: nat)
    requires c != [] && NoEor(c) && ValidChain(c) && Tight(c, from, true)
    ensures var d := c[|c| - 1 := Marked(c[|c| - 1])]; MarkAtEnd(d, true) && ValidChain(d) && Tight(d, from, true)
  {
  }

  // ----- whole runs

  /** The operations on a buffer; `hiwat` and `mbmax` are the limits that are set at the time. */
  datatype Op =
    | Append(m: Chain)
    | AppendRecord(m: Chain)
    | AppendAddr(asa: seq<Byte>, m: Chain, control: Chain, hiwat: nat, mbmax: nat)
    | AppendControl(m: Chain, control: Chain, hiwat: nat, mbmax: nat)
    | Drop(count: nat)
    | DropRecord
    | Flush

  /** The chains are well formed, and control information is there if it is to be appended. */
  predicate ProperOp(op: Op) {
    match op
    case Append(m) => ValidChain(m)
    case AppendRecord(m) => ValidChain(m)
    case AppendAddr(_, m, control, _, _) => ValidChain(m) && ValidChain(control)
    case AppendControl(m, control, _, _) => ValidChain(m) && ValidChain(control) && control != []
    case _ => true
  }

  /**
   Only an append that checks for space can be refused: exactly if there are too many octets, or too much storage is in
   use.
   */
  predicate Refused(op: Op, cc: nat, mbcnt: nat) {
    match op
    case AppendAddr(asa, m, control, hiwat, mbmax) =>
      |asa| + |Flat(m)| + |Flat(control)| > Min(hiwat - cc, mbmax - mbcnt) || |asa| > MLEN
    case AppendControl(m, control, hiwat, mbmax) => |Flat(control)| + |Flat(m)| > Min(hiwat - cc, mbmax - mbcnt)
    case _ => false
  }

  /** What is added to the last record, if it is open, or begins a new one. Nothing at all does not begin a record. */
  function Extended(q: seq<Record>, octets: seq<Octet>, marked: bool): seq<Record> {
    if q == [] then (if octets == [] && !marked then [] else [Whole(octets, marked)])
    else
      var r := q[|q| - 1];
      if r.mark.Some? then q + [Whole(octets, marked)]
      else q[..|q| - 1] + [Whole(r.octets + octets, marked)]
  }

  /** What each operation, unless refused, does to the records. */
  function Step(q: seq<Record>, op: Op): seq<Record> {
    match op
    case Append(m) => if m == [] then q else Extended(q, Flat(m), HasEor(m))
    case AppendRecord(m) => if m == [] then q else q + [Whole(Flat(m), HasEor(m))]
    case AppendAddr(asa, m, control, _, _) => q + [View([Mbuf(asa, 0, Soname, false, 0)] + (control + m))]
    case AppendControl(m, control, _, _) => q + [View(control + m)]
    case Drop(n) => Cut(q, n)
    case DropRecord => if q == [] then [] else q[1..]
    case Flush => []
  }

  function Octets(q: seq<Record>): seq<Octet> {
    if q == [] then [] else q[0].octets + Octets(q[1..])
  }

  lemma {:induction false} OctetsConcat(q: seq<Record>, p: seq<Record>)
    ensures Octets(q + p) == Octets(q) + Octets(p)
  {
    if q == [] {
      assert q + p == p;
    } else {
      OctetsConcat(q[1..], p);
      assert (q + p)[1..] == q[1..] + p;
      Assoc(q[0].octets, Octets(q[1..]), Octets(p));
    }
  }

  lemma OctetsSnoc(q: seq<Record>, r: Record)
    ensures Octets(q + [r]) == Octets(q) + r.octets
  {
    OctetsConcat(q, [r]);
    assert [r][1..] == [];
    assert Octets([r]) == r.octets + Octets([]);
  }

  lemma {:induction false} QueueOctets(rs: Records)
    ensures Octets(Queue(rs)) == All(rs)
  {
    hide Flat;
    if rs != [] {
      QueueOctets(rs[1..]);
      assert Queue(rs)[1..] == Queue(rs[1..]);
    }
  }

  /** The octets of the first `k` records. */
  function Upto(q: seq<Record>, k: nat): nat
    requires k <= |q|
  {
    if k == 0 then 0 else |q[0].octets| + Upto(q[1..], k - 1)
  }

  /** The record without its first octets; the mark comes closer by as much, or goes with them. */
  predicate LosesFront(r: Record, r': Record, m: nat) {
    && m <= |r.octets| && r'.octets == r.octets[m..]
    && r'.mark == if r.mark.Some? && r.mark.value > m then Some(r.mark.value - m) else None
  }

  /** A cut that ends in record `k`: if that is used up it goes, otherwise it loses its front; those behind it stay. */
  predicate CutIn(q: seq<Record>, n: nat, k: nat, c: seq<Record>) {
    && k < |q| && Upto(q, k) <= n <= Upto(q, k) + |q[k].octets| && (k > 0 ==> Upto(q, k) < n)
    && (if n == Upto(q, k) + |q[k].octets| then c == q[k + 1..]
        else |c| == |q| - k && c[1..] == q[k + 1..] && LosesFront(q[k], c[0], n - Upto(q, k)))
  }

  /** What a cut leaves. */
  lemma {:induction false} CutIs(q: seq<Record>, n: nat) returns (k: nat)
    requires n <= |Octets(q)| && q != []
    ensures CutIn(q, n, k, Cut(q, n))
  {
    hide CutIn, LosesFront;
    var x := |q[0].octets|;
    k := 0;
    if n > x {
      var k1 := CutIs(q[1..], n - x);
      k := k1 + 1;
      CutLater(q, n, k1, Cut(q, n));
    } else {
      CutSooner(q, n);
    }
  }

  lemma CutSooner(q: seq<Record>, n: nat)
    requires q != [] && n <= |q[0].octets|
    ensures CutIn(q, n, 0, Cut(q, n))
  {
  }

  lemma CutLater(q: seq<Record>, n: nat, k: nat, c: seq<Record>)
    requires q != [] && n > |q[0].octets| && CutIn(q[1..], n - |q[0].octets|, k, c)
    ensures CutIn(q, n, k + 1, c)
  {
    hide LosesFront;
    var q1 := q[1..];
    assert Upto(q, k + 1) == |q[0].octets| + Upto(q1, k);
    assert q1[k] == q[k + 1] && q1[k + 1..] == q[k + 2..];
  }

  /** Cutting takes exactly the first octets away. */
  lemma {:induction false} CutOctets(q: seq<Record>, n: nat)
    requires n <= |Octets(q)|
    ensures Octets(Cut(q, n)) == Octets(q)[n..]
  {
    if q != [] {
      var x, y := q[0].octets, Octets(q[1..]);
      if n < |x| {
        var r := Trimmed(q[0], n);
        assert ([r] + q[1..])[1..] == q[1..];
        SliceWithin(x, y, n);
      } else {
        SliceBehind(x, y, n);
        if n > |x| {
          CutOctets(q[1..], n - |x|);
        }
      }
    }
  }

  /** What each operation comes to if records do not matter: octets are put in at the end and taken out at the front. */
  function Added(op: Op): seq<Octet> {
    match op
    case Append(m) => Flat(m)
    case AppendRecord(m) => Flat(m)
    case AppendAddr(asa, m, control, _, _) => Tagged(Soname, asa) + Flat(control) + Flat(m)
    case AppendControl(m, control, _, _) => Flat(control) + Flat(m)
    case _ => []
  }

  function Removed(q: seq<Record>, op: Op): nat {
    match op
    case Drop(n) => n
    case DropRecord => if q == [] then 0 else |q[0].octets|
    case Flush => |Octets(q)|
    case _ => 0
  }

  /** First in, first out, whatever the records. */
  lemma StepIsFifo(q: seq<Record>, op: Op)
    requires op.Drop? ==> op.count <= |Octets(q)|
    ensures Removed(q, op) <= |Octets(q)| && Octets(Step(q, op)) == Octets(q)[Removed(q, op)..] + Added(op)
  {
    hide Flat, Tagged;
    FlatEmpty();
    match op {
      case Append(m) => ExtendedOctets(q, Flat(m), HasEor(m));
      case AppendRecord(m) => OctetsSnoc(q, Whole(Flat(m), HasEor(m)));
      case AppendAddr(asa, m, control, _, _) =>
        var first := Mbuf(asa, 0, Soname, false, 0);
        FlatFirst(first, control + m);
        FlatConcat(control, m);
        Assoc(Text(first), Flat(control), Flat(m));
        OctetsSnoc(q, View([first] + (control + m)));
      case AppendControl(m, control, _, _) =>
        FlatConcat(control, m);
        OctetsSnoc(q, View(control + m));
      case Drop(n) => CutOctets(q, n);
      case DropRecord =>
        if q != [] {
          SliceBehind(q[0].octets, Octets(q[1..]), |q[0].octets|);
        }
      case Flush =>
    }
  }

  lemma ExtendedOctets(q: seq<Record>, octets: seq<Octet>, marked: bool)
    ensures Octets(Extended(q, octets, marked)) == Octets(q) + octets
  {
    OctetsSnoc(q, Whole(octets, marked));
    if q != [] {
      var init, r := q[..|q| - 1], q[|q| - 1];
      assert q == init + [r];
      OctetsSnoc(init, r);
      OctetsSnoc(init, Whole(r.octets + octets, marked));
      Assoc(Octets(init), r.octets, octets);
    }
  }

  /** The records after a run; `oks` says which of the operations were not refused. */
  function Replay(q: seq<Record>, ops: seq<Op>, oks: seq<bool>): seq<Record>
    requires |oks| == |ops|
  {
    if ops == [] then q
    else
      var before := Replay(q, ops[..|ops| - 1], oks[..|oks| - 1]);
      if oks[|oks| - 1] then Step(before, ops[|ops| - 1]) else before
  }

  lemma ReplayNext(q: seq<Record>, ops: seq<Op>, oks: seq<bool>, op: Op, ok: bool)
    requires |oks| == |ops|
    ensures Replay(q, ops + [op], oks + [ok]) == if ok then Step(Replay(q, ops, oks), op) else Replay(q, ops, oks)
  {
    assert (ops + [op])[..|ops|] == ops && (oks + [ok])[..|oks|] == oks;
  }

  /** At every point of a run the records are those of the replay, and refusals are those the counts then call for. */
  ghost predicate RanTo(q: seq<Record>, ops: seq<Op>, oks: seq<bool>, trace: seq<Records>) {
    && |trace| == |oks| + 1 == |ops| + 1
    && forall i :: 0 <= i <= |ops| ==> RanAt(q, ops, oks, trace, i)
  }

  ghost predicate RanAt(q: seq<Record>, ops: seq<Op>, oks: seq<bool>, trace: seq<Records>, i: nat)
    requires |trace| == |oks| + 1 == |ops| + 1 && i <= |ops|
  {
    && ValidRecords(trace[i]) && Queue(trace[i]) == Replay(q, ops[..i], oks[..i])
    && (i < |ops| ==> (oks[i] <==> !Refused(ops[i], |All(trace[i])|, Stored(trace[i]))))
  }

  /**
   Any run of operations, up to one that drops more than there is: at every point the records are those of the replay,
   and an append is refused exactly if the octets and the storage then in use leave no space for it. The counts are
   right at the end.
   */
  method Serve(b: Buffer, ops: seq<Op>) returns (n: nat, oks: seq<bool>, ghost trace: seq<Records>)
    requires b.Valid() && forall i :: 0 <= i < |ops| ==> ProperOp(ops[i])
    modifies b
    ensures n <= |ops| && RanTo(old(Queue(b.records)), ops[..n], oks, trace) && trace[n] == b.records
    ensures b.Valid() && b.cc == |All(b.records)| && b.mbcnt == Stored(b.records)
    ensures n < |ops| ==> ops[n].Drop? && ops[n].count > |Octets(Queue(b.records))|
  {
    hide All, Flat, ValidRecords, Stored, ProperOp, RanTo, Queue, Refused, Step;
    ghost var q := Queue(b.records);
    n, oks, trace := 0, [], [b.records];
    RanNothing(b.records);
    assert ops[..0] == [];
    while n < |ops|
      invariant 0 <= n <= |ops| && b.Valid() && |oks| == n && |trace| == n + 1
      invariant RanTo(q, ops[..n], oks, trace) && trace[n] == b.records
    {
      QueueOctets(b.records);
      if ops[n].Drop? && ops[n].count > b.cc {
        return;
      }
      ghost var before := b.records;
      var ok := Do(b, ops[n]);
      RanOn(q, ops[..n], oks, trace, before, ops[n], ok, b.records);
      assert ops[..n] + [ops[n]] == ops[..n + 1];
      oks, trace := oks + [ok], trace + [b.records];
      n := n + 1;
    }
  }

  /** One operation. */
  method Do(b: Buffer, op: Op) returns (ok: bool)
    requires b.Valid() && ProperOp(op) && (op.Drop? ==> op.count <= b.cc)
    modifies b
    ensures b.Valid() && (ok <==> !Refused(op, old(b.cc), old(b.mbcnt)))
    ensures Queue(b.records) == if ok then Step(old(Queue(b.records)), op) else old(Queue(b.records))
  {
    hide All, Flat, Stored, Queue, Cut, View, Extended, MarkAtEnd, Tight, NoEor, ValidChain, ValidRecords;
    ghost var before := b.records;
    ok := true;
    match op {
      case Append(m) =>
        b.Append(m);
        Appended(before, b.records, m);
      case AppendRecord(m) =>
        b.AppendRecord(m);
        RecordAppended(before, b.records, m);
      case AppendAddr(asa, m, control, hiwat, mbmax) =>
        ok := b.AppendAddr(asa, m, control, hiwat, mbmax);
        QueueSnoc(before, [Mbuf(asa, 0, Soname, false, 0)] + (control + m));
      case AppendControl(m, control, hiwat, mbmax) =>
        ok := b.AppendControl(m, control, hiwat, mbmax);
        QueueSnoc(before, control + m);
      case Drop(n) => b.Drop(n);
      case DropRecord =>
        b.DropRecord();
        QueueRest(before);
      case Flush =>
        b.Flush();
        NothingCut(0);
    }
  }

  lemma RanNothing(rs: Records)
    requires ValidRecords(rs)
    ensures RanTo(Queue(rs), [], [], [rs])
  {
  }

  lemma RanOn(q: seq<Record>, ops: seq<Op>, oks: seq<bool>, trace: seq<Records>, rs: Records, op: Op, ok: bool,
              rs': Records)
    requires RanTo(q, ops, oks, trace) && trace[|ops|] == rs && ValidRecords(rs')
    requires ok <==> !Refused(op, |All(rs)|, Stored(rs))
    requires Queue(rs') == if ok then Step(Queue(rs), op) else Queue(rs)
    ensures RanTo(q, ops + [op], oks + [ok], trace + [rs'])
  {
    hide Queue, Step, Refused, All, Stored, ValidRecords, Replay;
    ReplayNext(q, ops, oks, op, ok);
    var ops', oks', trace' := ops + [op], oks + [ok], trace + [rs'];
    assert RanAt(q, ops, oks, trace, |ops|);
    assert ops[..|ops|] == ops && oks[..|oks|] == oks;
    forall i | 0 <= i <= |ops'| ensures RanAt(q, ops', oks', trace', i) {
      if i <= |ops| {
        assert RanAt(q, ops, oks, trace, i);
        assert ops'[..i] == ops[..i] && oks'[..i] == oks[..i];
      } else {
        assert ops'[..i] == ops' && oks'[..i] == oks';
      }
    }
  }

  lemma QueueRest(rs: Records)
    ensures Queue(if rs == [] then [] else rs[1..]) == if Queue(rs) == [] then [] else Queue(rs)[1..]
  {
  }

  lemma RecordAppended(rs: Records, rs': Records, m: Chain)
    requires m == [] ==> rs' == rs
    requires m != []
             ==> |rs'| == |rs| + 1 && Init(rs') == rs && Flat(Last(rs')) == Flat(m) && MarkAtEnd(Last(rs'), HasEor(m))
    ensures Queue(rs') == if m == [] then Queue(rs) else Queue(rs) + [Whole(Flat(m), HasEor(m))]
  {
    hide Flat, NoEor, MarkAtEnd, Queue;
    if m != [] {
      assert rs' == rs + [Last(rs')];
      QueueSnoc(rs, Last(rs'));
      ViewCompacted(Last(rs'), HasEor(m));
    }
  }

  lemma Appended(rs: Records, rs': Records, m: Chain)
    requires if m == [] then rs' == rs
             else if HasEor(Last(rs)) then |rs'| == |rs| + 1 && Init(rs') == rs && Flat(Last(rs')) == Flat(m)
             else rs' == WithLast(rs, Last(rs')) && Flat(Last(rs')) == Flat(Last(rs)) + Flat(m)
    requires m != [] ==> MarkAtEnd(Last(rs'), HasEor(m))
    requires if rs == [] then Tight(Last(rs'), 0, HasEor(m)) else rs' != []
    ensures Queue(rs') == if m == [] then Queue(rs) else Extended(Queue(rs), Flat(m), HasEor(m))
  {
    hide Flat, NoEor, MarkAtEnd, Queue, Tight, ValidChain;
    if m == [] {
      return;
    }
    MarkedSomewhere(Last(rs));
    if HasEor(Last(rs)) {
      NoMarkInNothing();
      RecordAppended(rs, rs', m);
      assert View(Last(rs)) == Queue(rs)[|rs| - 1];
    } else {
      AddedToLast(rs, rs', m);
    }
  }

  lemma NoMarkInNothing()
    ensures !HasEor([])
  {
  }

  lemma AddedToLast(rs: Records, rs': Records, m: Chain)
    requires m != [] && !HasEor(Last(rs)) && rs' == WithLast(rs, Last(rs'))
             && Flat(Last(rs')) == Flat(Last(rs)) + Flat(m)
    requires MarkAtEnd(Last(rs'), HasEor(m)) && if rs == [] then Tight(Last(rs'), 0, HasEor(m)) else rs' != []
    ensures Queue(rs') == Extended(Queue(rs), Flat(m), HasEor(m))
  {
    var last := Last(rs');
    ViewCompacted(last, HasEor(m));
    MarkedSomewhere(Last(rs));
    FlatEmpty();
    hide MarkAtEnd, ValidChain;
    if rs == [] {
      if last == [] {
        MarkedSomewhere(last);
      } else {
        FlatRest(last);
        assert Flat(last) == Flat(m) && (!HasEor(m) ==> Flat(m) != []);
        assert rs' == [last] && Queue(rs') == [View(last)];
      }
    } else {
      QueueSnoc(Init(rs), last);
      assert rs == Init(rs) + [Last(rs)];
      QueueSnoc(Init(rs), Last(rs));
    }
  }
}

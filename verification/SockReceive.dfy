/** Receiving from a socket: what is delivered, and that looking first does not change it. */
module SockReceive {
  import opened Prelude
  import opened Mbufs
  import opened SockBuf

  // ----- the data part of a record

  /** Octets delivered, buffers left, whether the end of a record was passed, and the distance left to the mark. */
  datatype Taken = Taken(bytes: seq<Octet>, rest: Chain, eor: bool, mark: nat)

  /** How much of the first buffer may be taken: as much as is asked for, but not past the mark. */
  function Amount(m: Mbuf, resid: nat, mark: nat): (n: nat)
    ensures n <= resid && n <= |m.data|
  {
    var len := if mark > 0 then Min(resid, mark) else resid;
    Min(len, |m.data|)
  }

  function After(mark: nat, n: nat): nat { if mark > n then mark - n else 0 }

  function Remainder(m: Chain, n: nat): Chain
    requires m != [] && n <= |m[0].data|
  {
    if n == |m[0].data| then m[1..] else [Advance(m[0], n)] + m[1..]
  }

  /** Nothing is left to do after taking `n` octets of the first buffer. */
  predicate Stops(m: Chain, n: nat, mark: nat)
    requires m != [] && n <= |m[0].data|
  {
    n < |m[0].data| || m[0].eor || (mark > 0 && After(mark, n) == 0)
  }

  /** Take up to `resid` octets: not past the mark, not past the end of a record, and either all out of band or none. */
  function TakeData(m: Chain, resid: nat, oob: bool, mark: nat): Taken
    decreases |m|
  {
    if m == [] || resid == 0 || (m[0].kind == Oob) != oob then Taken([], m, false, mark)
    else
      var n := Amount(m[0], resid, mark);
      var b := Text(m[0])[..n];
      if Stops(m, n, mark) then Taken(b, Remainder(m, n), n == |m[0].data| && m[0].eor, After(mark, n))
      else Prepend(b, TakeData(m[1..], resid - n, oob, After(mark, n)))
  }

  function Prepend(b: seq<Octet>, t: Taken): Taken {
    Taken(b + t.bytes, t.rest, t.eor, t.mark)
  }

  /** What could be had at most: up to the end of the record, or to where out-of-band data begin or end. */
  function Extent(m: Chain, oob: bool): nat {
    if m == [] || (m[0].kind == Oob) != oob then 0
    else if m[0].eor then |m[0].data|
    else |m[0].data| + Extent(m[1..], oob)
  }

  lemma RemainderText(m: Chain, n: nat)
    requires m != [] && n <= |m[0].data|
    ensures Text(m[0])[..n] + Flat(Remainder(m, n)) == Flat(m)
  {
    FlatRest(m);
    hide Flat, Text;
    var x := Text(m[0]);
    assert x == x[..n] + x[n..];
    if n < |m[0].data| {
      AdvanceText(m[0], n);
      FlatFirst(Advance(m[0], n), m[1..]);
      Assoc(x[..n], x[n..], Flat(m[1..]));
    }
  }

  /** Nothing is lost and nothing made up: what was taken and what is left are the chain. */
  lemma {:induction false} TakeKeeps(m: Chain, resid: nat, oob: bool, mark: nat)
    ensures var t := TakeData(m, resid, oob, mark); t.bytes + Flat(t.rest) == Flat(m)
    decreases |m|
  {
    hide Flat, Text, Stops, After;
    if m == [] || resid == 0 || (m[0].kind == Oob) != oob {
      assert [] + Flat(m) == Flat(m);
    } else {
      var n := Amount(m[0], resid, mark);
      RemainderText(m, n);
      if !Stops(m, n, mark) {
        StopsShort(m, n, mark);
        TakeKeeps(m[1..], resid - n, oob, After(mark, n));
        var t := TakeData(m[1..], resid - n, oob, After(mark, n));
        Assoc(Text(m[0])[..n], t.bytes, Flat(t.rest));
      }
    }
  }

  lemma StopsShort(m: Chain, n: nat, mark: nat)
    requires m != [] && n <= |m[0].data| && !Stops(m, n, mark)
    ensures n == |m[0].data| && Remainder(m, n) == m[1..] && !m[0].eor && (mark > 0 ==> After(mark, n) == mark - n > 0)
  {
  }

  /** Exactly as much is taken as was asked for, the mark and the extent of the data allow. */
  lemma {:induction false} TakeAmount(m: Chain, resid: nat, oob: bool, mark: nat)
    ensures var t := TakeData(m, resid, oob, mark);
            && |t.bytes| == Least(resid, mark, Extent(m, oob))
            && t.mark == After(mark, |t.bytes|)
            && (t.eor ==> |t.bytes| == Extent(m, oob))
    decreases |m|
  {
    hide Text, Least, Stops, Amount, After, Remainder, Extent;
    LeastNone(resid, mark);
    ExtentNext(m, oob);
    AfterNothing(mark);
    if m != [] && resid > 0 && (m[0].kind == Oob) == oob {
      var n := Amount(m[0], resid, mark);
      if Stops(m, n, mark) {
        StopsAt(m, resid, oob, mark);
      } else {
        StopsShort(m, n, mark);
        TakeAmount(m[1..], resid - n, oob, After(mark, n));
        LeastNext(resid, mark, n, Extent(m[1..], oob));
      }
    }
  }

  /** What is asked for, what the mark allows if there is one, and what there is. */
  function Least(resid: nat, mark: nat, extent: nat): nat {
    Min(Min(resid, if mark > 0 then mark else resid), extent)
  }

  lemma LeastNone(resid: nat, mark: nat)
    ensures Least(resid, mark, 0) == 0 && forall extent: nat :: Least(0, mark, extent) == 0
  {
  }

  lemma LeastNext(resid: nat, mark: nat, n: nat, extent: nat)
    requires n <= resid && (mark > 0 ==> n < mark)
    ensures var k := Least(resid - n, After(mark, n), extent);
            n + k == Least(resid, mark, n + extent) && After(After(mark, n), k) == After(mark, n + k)
  {
  }

  lemma ExtentNext(m: Chain, oob: bool)
    ensures Extent(m, oob) == if m == [] || (m[0].kind == Oob) != oob then 0
                              else |m[0].data| + if m[0].eor then 0 else Extent(m[1..], oob)
  {
  }

  lemma StopsAt(m: Chain, resid: nat, oob: bool, mark: nat)
    requires m != [] && resid > 0 && (m[0].kind == Oob) == oob && Stops(m, Amount(m[0], resid, mark), mark)
    ensures var n := Amount(m[0], resid, mark);
            n == Least(resid, mark, Extent(m, oob)) && (n == |m[0].data| && m[0].eor ==> n == Extent(m, oob))
  {
  }

  // ----- a whole receive

  /** Leading control buffers, and what follows them. */
  function Controls(c: Chain): nat {
    if c != [] && c[0].kind == Control then 1 + Controls(c[1..]) else 0
  }

  lemma {:induction false} ControlsBound(c: Chain)
    ensures Controls(c) <= |c|
  {
    if c != [] && c[0].kind == Control {
      ControlsBound(c[1..]);
    }
  }

  /** What a receive hands to its caller; `again` if it found nothing and starts over. */
  datatype Received = Received(addr: seq<Byte>, control: Chain, bytes: seq<Octet>, eor: bool, oob: bool, trunc: bool,
                               again: bool)

  /**
   The options of a receive and the protocol's: address first, whole records only; control wanted; no more will come.
   */
  datatype Mode = Mode(addr: bool, atomic: bool, wantControl: bool, cantRcvMore: bool)

  function DataOf(c: Chain, mode: Mode): Chain
    requires c != []
  {
    var c1 := if mode.addr then c[1..] else c;
    ControlsBound(c1);
    c1[Controls(c1)..]
  }

  function ControlOf(c: Chain, mode: Mode): Chain
    requires c != []
  {
    var c1 := if mode.addr then c[1..] else c;
    ControlsBound(c1);
    c1[..Controls(c1)]
  }

  function IsOob(c: Chain): bool { c != [] && c[0].kind == Oob }

  function TakenOf(c: Chain, mode: Mode, resid: nat, mark: nat): Taken
    requires c != []
  {
    var d := DataOf(c, mode);
    TakeData(d, resid, IsOob(d), mark)
  }

  /** What the first record `c` gives. */
  function Delivery(c: Chain, mode: Mode, resid: nat, mark: nat): Received
    requires c != []
  {
    var t := TakenOf(c, mode, resid, mark);
    var control := ControlOf(c, mode);
    Received(if mode.addr then c[0].data else [], if mode.wantControl then control else [], t.bytes, t.eor,
             IsOob(DataOf(c, mode)),
             t.rest != [] && mode.atomic,
             !mode.addr && (mode.wantControl ==> control == []) && resid > 0 && t.bytes == [] && !t.eor
             && !mode.cantRcvMore)
  }

  /** What is left of the queue: of the first record, nothing if the protocol delivers whole records only. */
  function Leftover(rs: Records, mode: Mode, resid: nat, mark: nat): Records
    requires rs != [] && rs[0] != []
  {
    var rest := TakenOf(rs[0], mode, resid, mark).rest;
    if rest == [] || mode.atomic then rs[1..] else [rest] + rs[1..]
  }

  /** The octets of the first record are the address, the control part, what was delivered and what is left of it. */
  lemma Delivered(c: Chain, mode: Mode, resid: nat, mark: nat)
    requires c != []
    ensures var d := Delivery(c, mode, resid, mark);
            Flat(c) == (if mode.addr then Text(c[0]) else []) + Flat(ControlOf(c, mode)) + d.bytes
                       + Flat(TakenOf(c, mode, resid, mark).rest)
  {
    hide Flat, Text, TakeData, Controls;
    var c1 := if mode.addr then c[1..] else c;
    ControlsBound(c1);
    var k := Controls(c1);
    assert c1 == c1[..k] + c1[k..];
    FlatConcat(c1[..k], c1[k..]);
    TakeKeeps(c1[k..], resid, IsOob(c1[k..]), mark);
    var t := TakenOf(c, mode, resid, mark);
    var a := if mode.addr then Text(c[0]) else [];
    assert Flat(c) == a + Flat(c1) by {
      if mode.addr {
        FlatRest(c);
      }
    }
    FourParts(a, Flat(c1[..k]), t.bytes, Flat(t.rest));
  }

  lemma FourParts(a: seq<Octet>, b: seq<Octet>, c: seq<Octet>, d: seq<Octet>)
    ensures a + (b + (c + d)) == a + b + c + d
  {
    Assoc(a + b, c, d);
    Assoc(a, b, c + d);
  }

  /** The data begin with empty buffers, one of which has a mark. */
  predicate MarkFirst(d: Chain, oob: bool) {
    d != [] && (d[0].kind == Oob) == oob && d[0].data == [] && (d[0].eor || MarkFirst(d[1..], oob))
  }

  lemma {:induction false} MarkPassed(d: Chain, resid: nat, oob: bool, mark: nat)
    requires resid > 0 && Extent(d, oob) == 0
    ensures TakeData(d, resid, oob, mark).eor <==> MarkFirst(d, oob)
    decreases |d|
  {
    hide Text;
    if d != [] && (d[0].kind == Oob) == oob {
      var n := Amount(d[0], resid, mark);
      assert n == 0 && d[0].data == [];
      if !d[0].eor {
        MarkPassed(d[1..], resid, oob, mark);
      }
    }
  }

  /**
   Neither an address nor control information is handed out, octets could be and more may come, but the first record has
   none.
   */
  predicate FindsNothing(c: Chain, mode: Mode, resid: nat)
    requires c != []
  {
    var d := DataOf(c, mode);
    && !mode.addr && (mode.wantControl ==> ControlOf(c, mode) == []) && resid > 0 && !mode.cantRcvMore
    && Extent(d, IsOob(d)) == 0 && !MarkFirst(d, IsOob(d))
  }

  /** Exactly then a receive starts over. */
  lemma AgainIff(c: Chain, mode: Mode, resid: nat, mark: nat)
    requires c != []
    ensures Delivery(c, mode, resid, mark).again <==> FindsNothing(c, mode, resid)
    ensures Delivery(c, mode, resid, mark).bytes == []
            <==> resid == 0 || Extent(DataOf(c, mode), IsOob(DataOf(c, mode))) == 0
  {
    var d := DataOf(c, mode);
    hide TakeData, MarkFirst, DataOf, ControlOf;
    TakeAmount(d, resid, IsOob(d), mark);
    if resid > 0 && Extent(d, IsOob(d)) == 0 {
      MarkPassed(d, resid, IsOob(d), mark);
    }
  }

  /** A receive that takes and starts over finds fewer buffers the next time, so it does not do so forever. */
  lemma AgainEnds(rs: Records, mode: Mode, resid: nat, mark: nat)
    requires ValidRecords(rs) && rs != [] && FindsNothing(rs[0], mode, resid)
    ensures Stored(Leftover(rs, mode, resid, mark)) < Stored(rs)
  {
    var c := rs[0];
    ControlsBound(c);
    var k := Controls(c);
    var d := c[k..];
    assert c == c[..k] + d;
    FlatConcat(c[..k], d);
    var t := TakenOf(c, mode, resid, mark);
    TakeShrinks(d, resid, mark);
    hide Space, TakeData;
    if t.rest != [] && !mode.atomic {
      var left := [t.rest] + rs[1..];
      assert left[1..] == rs[1..];
    }
    SpaceSome(c);
  }

  lemma SpaceSome(c: Chain)
    requires c != []
    ensures Space(c) > 0
  {
  }

  /** If anything is asked for, the buffers left take less storage, unless there were none. */
  lemma {:induction false} TakeShrinks(d: Chain, resid: nat, mark: nat)
    requires resid > 0 && Extent(d, IsOob(d)) == 0
    ensures d != [] ==> Space(TakeData(d, resid, IsOob(d), mark).rest) < Space(d)
    ensures d == [] ==> TakeData(d, resid, IsOob(d), mark).rest == []
  {
    hide Text;
    if d != [] {
      assert Amount(d[0], resid, mark) == 0 && d[0].data == [];
      TakeNoMore(d[1..], resid, IsOob(d), mark);
    }
  }

  lemma {:induction false} TakeNoMore(d: Chain, resid: nat, oob: bool, mark: nat)
    ensures Space(TakeData(d, resid, oob, mark).rest) <= Space(d)
    decreases |d|
  {
    hide Text;
    if d != [] && resid > 0 && (d[0].kind == Oob) == oob {
      var n := Amount(d[0], resid, mark);
      if Stops(d, n, mark) {
        FlatFirst(Advance(d[0], n), d[1..]);
      } else {
        TakeNoMore(d[1..], resid - n, oob, After(mark, n));
      }
    }
  }

  /**
   The at-mark state after a receive: set when taking reaches the mark, and cleared whenever there are data to look at.
   */
  function AtMarkAfter(c: Chain, mode: Mode, resid: nat, mark: nat, at: bool, peek: bool): bool
    requires c != []
  {
    if DataOf(c, mode) == [] || resid == 0 then at
    else !peek && mark > 0 && TakenOf(c, mode, resid, mark).mark == 0
  }

  // ----- a whole call

  /** What else decides whether a call waits: its flag, the low-water mark, and the state of the socket. */
  datatype Terms = Terms(dontWait: bool, lowat: nat, failed: bool, nonBlocking: bool, unconnected: bool)

  /** Go on to the first record, or stop: with the error pending, with nothing, or with an error of its own; or wait. */
  datatype Verdict = Proceed | Failed | Nothing | NotConnected | WouldBlock | Sleep

  /** Out-of-band data or the end of a record, which are not kept waiting. */
  predicate Pressing(c: Chain) {
    exists i :: 0 <= i < |c| && (c[i].kind == Oob || c[i].eor)
  }

  /** The single record that is queued holds less than is asked for and than is worth waking up for. */
  predicate TooLittle(rs: Records, cc: nat, mode: Mode, resid: nat, terms: Terms) {
    !terms.dontWait && cc < resid && cc < terms.lowat && |rs| == 1 && !mode.atomic
  }

  /** The test in front of every pass. */
  function Test(rs: Records, cc: nat, mode: Mode, resid: nat, terms: Terms): Verdict {
    if rs != [] && !TooLittle(rs, cc, mode, resid, terms) then Proceed
    else if terms.failed then (if rs != [] then Proceed else Failed)
    else if mode.cantRcvMore then (if rs != [] then Proceed else Nothing)
    else if rs != [] && Pressing(rs[0]) then Proceed
    else if terms.unconnected then NotConnected
    else if resid == 0 then Nothing
    else if terms.nonBlocking || terms.dontWait then WouldBlock
    else Sleep
  }

  /** How a call ends; one that looks may never do so. */
  datatype Outcome = Got(r: Received) | Stopped(why: Verdict) | Spins

  /** The queue, the distance to the mark, and whether it was reached. */
  datatype State = State(records: Records, mark: nat, at: bool)

  function Pass(st: State, mode: Mode, resid: nat, peek: bool): State
    requires st.records != [] && st.records[0] != []
  {
    State(if peek then st.records else Leftover(st.records, mode, resid, st.mark),
          if peek then st.mark else TakenOf(st.records[0], mode, resid, st.mark).mark,
          AtMarkAfter(st.records[0], mode, resid, st.mark, st.at, peek))
  }

  /** What earlier passes of a call found out stays with it. */
  function Flagged(o: Outcome, oob: bool, trunc: bool): Outcome {
    if o.Got? then Got(o.r.(oob := o.r.oob || oob, trunc := o.r.trunc || trunc)) else o
  }

  /** A call passes over the first record until it does not start over, or the test stops it. */
  function Call(st: State, mode: Mode, resid: nat, peek: bool, terms: Terms): (Outcome, State)
    requires ValidRecords(st.records)
    decreases Stored(st.records)
  {
    var why := Test(st.records, |All(st.records)|, mode, resid, terms);
    if why != Proceed then (Stopped(why), st)
    else
      ProceedNonempty(st.records, mode, resid, terms);
      var d := Delivery(st.records[0], mode, resid, st.mark);
      var next := Pass(st, mode, resid, peek);
      if !d.again then (Got(d), next)
      else if peek then (Spins, next)
      else
        PassShrinks(st, mode, resid);
        var (o, end) := Call(next, mode, resid, peek, terms);
        (Flagged(o, d.oob, d.trunc), end)
  }

  lemma ProceedNonempty(rs: Records, mode: Mode, resid: nat, terms: Terms)
    requires ValidRecords(rs) && Test(rs, |All(rs)|, mode, resid, terms) == Proceed
    ensures rs != [] && rs[0] != []
  {
  }

  lemma PassShrinks(st: State, mode: Mode, resid: nat)
    requires ValidRecords(st.records) && st.records != [] && st.records[0] != []
    requires Delivery(st.records[0], mode, resid, st.mark).again
    ensures var next := Pass(st, mode, resid, false);
            ValidRecords(next.records) && Stored(next.records) < Stored(st.records) && next.mark == st.mark
  {
    hide Delivery, TakeData, Controls, Stored, FindsNothing;
    AgainIff(st.records[0], mode, resid, st.mark);
    AgainEnds(st.records, mode, resid, st.mark);
    LeftValid(st.records, mode, resid, st.mark);
    MarkStays(st.records[0], mode, resid, st.mark);
  }

  lemma MarkStays(c: Chain, mode: Mode, resid: nat, mark: nat)
    requires c != [] && FindsNothing(c, mode, resid)
    ensures TakenOf(c, mode, resid, mark).mark == mark
  {
    hide TakeData, Controls, MarkFirst;
    var d := DataOf(c, mode);
    TakeAmount(d, resid, IsOob(d), mark);
  }

  /**
   The first record gives nothing, and the call gets to see it: it does not wait for more, or there is no more to wait
   for.
   */
  predicate StartsOver(rs: Records, mode: Mode, resid: nat, terms: Terms) {
    && rs != [] && rs[0] != [] && FindsNothing(rs[0], mode, resid)
    && (terms.dontWait || |rs| > 1 || mode.atomic || |All(rs)| >= resid || |All(rs)| >= terms.lowat || terms.failed
        || Pressing(rs[0]))
  }

  /** Exactly then a call starts over, and exactly then one that looks never ends; one that takes always does. */
  lemma SpinsIff(st: State, mode: Mode, resid: nat, peek: bool, terms: Terms)
    requires ValidRecords(st.records)
    ensures (&& Test(st.records, |All(st.records)|, mode, resid, terms) == Proceed && st.records != []
             && st.records[0] != []
             && Delivery(st.records[0], mode, resid, st.mark).again)
            <==> StartsOver(st.records, mode, resid, terms)
    ensures Call(st, mode, resid, peek, terms).0.Spins? <==> peek && StartsOver(st.records, mode, resid, terms)
  {
    hide Delivery, FindsNothing, Pass, Pressing, All;
    if st.records != [] {
      AgainIff(st.records[0], mode, resid, st.mark);
      CantReceive(st.records[0], mode, resid);
    }
    if !peek {
      TakeEnds(st, mode, resid, terms);
    }
  }

  lemma CantReceive(c: Chain, mode: Mode, resid: nat)
    requires c != []
    ensures FindsNothing(c, mode, resid) ==> !mode.cantRcvMore
  {
  }

  lemma {:induction false} TakeEnds(st: State, mode: Mode, resid: nat, terms: Terms)
    requires ValidRecords(st.records)
    ensures !Call(st, mode, resid, false, terms).0.Spins?
    decreases Stored(st.records)
  {
    hide Delivery, Test, Pass, All, Stored;
    var why := Test(st.records, |All(st.records)|, mode, resid, terms);
    if why == Proceed {
      ProceedNonempty(st.records, mode, resid, terms);
      if Delivery(st.records[0], mode, resid, st.mark).again {
        PassShrinks(st, mode, resid);
        TakeEnds(Pass(st, mode, resid, false), mode, resid, terms);
      }
    }
  }

  /** Looking ends as taking would, and with the same, exactly unless it never ends. */
  lemma PeekAgrees(st: State, mode: Mode, resid: nat, terms: Terms)
    requires ValidRecords(st.records)
    ensures Call(st, mode, resid, true, terms).0 == Call(st, mode, resid, false, terms).0
            <==> !StartsOver(st.records, mode, resid, terms)
    ensures Call(st, mode, resid, true, terms).1.records == st.records
  {
    SpinsIff(st, mode, resid, true, terms);
    SpinsIff(st, mode, resid, false, terms);
    hide Delivery, StartsOver, Test, All, Stored, Flagged;
  }

  predicate OnlyControl(s: seq<Octet>) {
    forall i :: 0 <= i < |s| ==> s[i].kind == Control
  }

  /** The octets a call handed out, an address aside. */
  function HandedOut(o: Outcome): seq<Octet> {
    if o.Got? then Flat(o.r.control) + o.r.bytes else []
  }

  /** The octets of the address, if one was handed out. */
  function AddressOut(rs: Records, o: Outcome, mode: Mode): seq<Octet> {
    if o.Got? && mode.addr && rs != [] && rs[0] != [] then Text(rs[0][0]) else []
  }

  /**
   However often a call starts over, it loses no octet, also if it ends up waiting: what it hands out and what it leaves
   are the queue, but for control information that is not wanted, which is thrown away.
   */
  lemma {:induction false} CallKeeps(st: State, mode: Mode, resid: nat, terms: Terms) returns (lost: seq<Octet>)
    requires ValidRecords(st.records) && !mode.atomic
    ensures OnlyControl(lost) && (mode.wantControl ==> lost == [])
    ensures var (o, end) := Call(st, mode, resid, false, terms);
            && !o.Spins? && ValidRecords(end.records)
            && (o.Got? ==> st.records != [] && st.records[0] != []
                           && o.r.addr == if mode.addr then st.records[0][0].data else [])
            && All(st.records) == AddressOut(st.records, o, mode) + (lost + HandedOut(o) + All(end.records))
    decreases Stored(st.records)
  {
    hide Test, All, Stored, Flat, ValidRecords, FindsNothing, Call, Delivery, Leftover, DataOf, Extent, ControlOf, Text;
    var rs := st.records;
    CallTakes(st, mode, resid, terms);
    lost := [];
    var why := Test(rs, |All(rs)|, mode, resid, terms);
    if why != Proceed {
      assert [] + ([] + [] + All(rs)) == All(rs);
    } else {
      ProceedNonempty(rs, mode, resid, terms);
      var d := Delivery(rs[0], mode, resid, st.mark);
      lost := PassKeeps(rs, mode, resid, st.mark);
      PassValid(st, mode, resid);
      if d.again {
        PassShrinks(st, mode, resid);
        var more := CallKeeps(Pass(st, mode, resid, false), mode, resid, terms);
        var (o, end) := Call(Pass(st, mode, resid, false), mode, resid, false, terms);
        NothingHandedOut(rs, mode, resid, st.mark);
        LostMore(lost, more, HandedOut(o), All(end.records), All(Leftover(rs, mode, resid, st.mark)));
        lost := lost + more;
      }
    }
  }

  lemma LostMore(lost: seq<Octet>, more: seq<Octet>, handed: seq<Octet>, end: seq<Octet>, left: seq<Octet>)
    requires left == [] + (more + handed + end)
    ensures [] + (lost + [] + left) == [] + (lost + more + handed + end)
  {
  }

  /**
   A protocol whose records are taken whole: a call takes records off the front of the queue and leaves the others as
   they are. Those passed over give nothing; of the one that is delivered `rest` is dropped, which the caller is told.
   */
  lemma {:induction false} CallWhole(st: State, mode: Mode, resid: nat, terms: Terms)
    returns (k: nat, rest: seq<Octet>)
    requires ValidRecords(st.records) && mode.atomic
    ensures var (o, end) := Call(st, mode, resid, false, terms);
            && !o.Spins? && k <= |st.records| && end.records == st.records[k..] && (o.Got? ==> k > 0)
            && (forall j :: 0 <= j < (if o.Got? then k - 1 else k) ==>
                  st.records[j] != [] && FindsNothing(st.records[j], mode, resid))
            && (o.Got? ==> DeliveredOf(st.records[k - 1], mode, o.r, rest))
    decreases Stored(st.records)
  {
    hide Test, All, Stored, ValidRecords, FindsNothing, Call, Delivery, Leftover, DeliveredOf, DataOf;
    var rs := st.records;
    CallTakes(st, mode, resid, terms);
    k, rest := 0, [];
    if Test(rs, |All(rs)|, mode, resid, terms) == Proceed {
      ProceedNonempty(rs, mode, resid, terms);
      var d := Delivery(rs[0], mode, resid, st.mark);
      var next := Pass(st, mode, resid, false);
      WholeGone(st, mode, resid);
      AgainIff(rs[0], mode, resid, st.mark);
      k := 1;
      rest := DeliveryIs(rs[0], mode, resid, st.mark);
      if d.again {
        PassShrinks(st, mode, resid);
        var k1;
        k1, rest := CallWhole(next, mode, resid, terms);
        k := k1 + 1;
        var (o, end) := Call(next, mode, resid, false, terms);
        assert forall j :: 0 <= j < |next.records| ==> next.records[j] == rs[j + 1];
        assert next.records[k1..] == rs[k..];
        if o.Got? {
          FlaggedDelivered(next.records[k1 - 1], mode, o, rest, d.oob, d.trunc);
        }
      }
    }
  }

  /** The parts of a record that were handed out, and the rest of it. */
  ghost predicate DeliveredOf(c: Chain, mode: Mode, r: Received, rest: seq<Octet>) {
    && c != [] && r.addr == (if mode.addr then c[0].data else [])
    && r.control == (if mode.wantControl then ControlOf(c, mode) else [])
    && Flat(c) == (if mode.addr then Text(c[0]) else []) + Flat(ControlOf(c, mode)) + r.bytes + rest
    && (rest != [] && mode.atomic ==> r.trunc)
  }

  lemma DeliveryIs(c: Chain, mode: Mode, resid: nat, mark: nat) returns (rest: seq<Octet>)
    requires c != []
    ensures DeliveredOf(c, mode, Delivery(c, mode, resid, mark), rest)
  {
    Delivered(c, mode, resid, mark);
    FlatEmpty();
    hide TakeData, Flat, Text, Controls;
    rest := Flat(TakenOf(c, mode, resid, mark).rest);
  }

  lemma FlaggedDelivered(c: Chain, mode: Mode, o: Outcome, rest: seq<Octet>, oob: bool, trunc: bool)
    requires o.Got? && DeliveredOf(c, mode, o.r, rest)
    ensures Flagged(o, oob, trunc).Got? && DeliveredOf(c, mode, Flagged(o, oob, trunc).r, rest)
  {
    hide Flat, Text, ControlOf;
  }

  lemma WholeGone(st: State, mode: Mode, resid: nat)
    requires st.records != [] && st.records[0] != [] && mode.atomic
    ensures Pass(st, mode, resid, false).records == st.records[1..]
  {
    hide TakenOf, AtMarkAfter;
  }

  /** A call that takes, one pass at a time. */
  lemma CallTakes(st: State, mode: Mode, resid: nat, terms: Terms)
    requires ValidRecords(st.records)
    ensures var why := Test(st.records, |All(st.records)|, mode, resid, terms);
            && (why != Proceed ==> Call(st, mode, resid, false, terms) == (Stopped(why), st))
            && (why == Proceed ==>
                  && st.records != [] && st.records[0] != []
                  && var d, next := Delivery(st.records[0], mode, resid, st.mark), Pass(st, mode, resid, false);
                     if !d.again then Call(st, mode, resid, false, terms) == (Got(d), next)
                     else
                       && ValidRecords(next.records)
                       && var (o, end) := Call(next, mode, resid, false, terms);
                          Call(st, mode, resid, false, terms) == (Flagged(o, d.oob, d.trunc), end))
  {
    hide Test, All, Stored, Delivery, Pass, Flagged;
    if Test(st.records, |All(st.records)|, mode, resid, terms) == Proceed {
      ProceedNonempty(st.records, mode, resid, terms);
      if Delivery(st.records[0], mode, resid, st.mark).again {
        PassShrinks(st, mode, resid);
      }
    }
  }

  lemma PassValid(st: State, mode: Mode, resid: nat)
    requires ValidRecords(st.records) && st.records != [] && st.records[0] != [] && !mode.atomic
    ensures ValidRecords(Pass(st, mode, resid, false).records)
    ensures Pass(st, mode, resid, false).records == Leftover(st.records, mode, resid, st.mark)
  {
    hide TakenOf, ValidRecords;
    LeftValid(st.records, mode, resid, st.mark);
  }

  lemma NothingHandedOut(rs: Records, mode: Mode, resid: nat, mark: nat)
    requires rs != [] && rs[0] != [] && Delivery(rs[0], mode, resid, mark).again
    ensures HandedOut(Got(Delivery(rs[0], mode, resid, mark))) == [] && !mode.addr
  {
    hide TakeData, Controls, DataOf;
    FlatEmpty();
  }

  /** One pass loses only control information that is not wanted. */
  lemma PassKeeps(rs: Records, mode: Mode, resid: nat, mark: nat) returns (lost: seq<Octet>)
    requires rs != [] && rs[0] != [] && !mode.atomic
    ensures OnlyControl(lost) && (mode.wantControl ==> lost == [])
    ensures var o := Got(Delivery(rs[0], mode, resid, mark));
            && o.r.addr == (if mode.addr then rs[0][0].data else [])
            && All(rs) == AddressOut(rs, o, mode) + (lost + HandedOut(o) + All(Leftover(rs, mode, resid, mark)))
  {
    var c := rs[0];
    var d, rest := Delivery(c, mode, resid, mark), TakenOf(c, mode, resid, mark).rest;
    Delivered(c, mode, resid, mark);
    ControlPart(c, mode);
    FlatEmpty();
    lost := if mode.wantControl then [] else Flat(ControlOf(c, mode));
    hide TakeData, Flat, Text, ControlOf, DataOf, OnlyControl;
    PassParts(AddressOut(rs, Got(d), mode), lost, Flat(d.control), d.bytes, Flat(rest), All(rs[1..]));
    if rest != [] {
      assert ([rest] + rs[1..])[1..] == rs[1..];
    } else {
      assert Flat(rest) + All(rs[1..]) == All(rs[1..]);
    }
  }

  lemma PassParts(a: seq<Octet>, l: seq<Octet>, c: seq<Octet>, b: seq<Octet>, rest: seq<Octet>, all: seq<Octet>)
    ensures (a + (l + c) + b + rest) + all == a + (l + (c + b) + (rest + all)) && [] + c == c && l + [] == l
  {
  }

  lemma ControlPart(c: Chain, mode: Mode)
    requires c != []
    ensures OnlyControl(Flat(ControlOf(c, mode)))
  {
    var c1 := if mode.addr then c[1..] else c;
    ControlsBound(c1);
    ControlsAre(c1);
    AllControl(c1[..Controls(c1)]);
  }

  lemma {:induction false} ControlsAre(c: Chain)
    ensures Controls(c) <= |c| && forall i :: 0 <= i < Controls(c) ==> c[i].kind == Control
    ensures Controls(c) < |c| ==> c[Controls(c)].kind != Control
  {
    if c != [] && c[0].kind == Control {
      ControlsAre(c[1..]);
    }
  }

  lemma {:induction false} AllControl(c: Chain)
    requires forall i :: 0 <= i < |c| ==> c[i].kind == Control
    ensures OnlyControl(Flat(c))
  {
    if c != [] {
      AllControl(c[1..]);
      FlatRest(c);
      TextKind(c[0]);
      hide Flat, Text;
    } else {
      FlatEmpty();
    }
  }

  lemma TextKind(m: Mbuf)
    ensures forall i :: 0 <= i < |Text(m)| ==> Text(m)[i].kind == m.kind
  {
  }

  // ----- what a caller is told

  /** The octets taken are all out of band, or none is. */
  lemma {:induction false} TakeKinds(m: Chain, resid: nat, oob: bool, mark: nat)
    ensures forall i :: 0 <= i < |TakeData(m, resid, oob, mark).bytes| ==>
              (TakeData(m, resid, oob, mark).bytes[i].kind == Oob) == oob
    decreases |m|
  {
    hide Text, After, Remainder;
    if m != [] && resid > 0 && (m[0].kind == Oob) == oob {
      var n := Amount(m[0], resid, mark);
      TextKind(m[0]);
      if !Stops(m, n, mark) {
        TakeKinds(m[1..], resid - n, oob, After(mark, n));
      }
    }
  }

  /** Buffer `i` ends the record, and what is asked for and the mark allow to take all up to its end. */
  predicate EndsRecord(m: Chain, resid: nat, oob: bool, mark: nat, i: nat) {
    && i < |m| && m[i].eor && (forall j :: 0 <= j <= i ==> (m[j].kind == Oob) == oob)
    && (forall j :: 0 <= j < i ==> !m[j].eor)
    && Before(m, i) < resid && Before(m, i) + |m[i].data| <= resid
    && (mark > 0 ==> Before(m, i) < mark && Before(m, i) + |m[i].data| <= mark)
  }

  /** The octets in front of buffer `i`. */
  function Before(m: Chain, i: nat): nat
    requires i <= |m|
  {
    if i == 0 then 0 else |m[0].data| + Before(m[1..], i - 1)
  }

  /** The end of a record is reported exactly if the data taken reach the end of a buffer that is marked. */
  lemma {:induction false} EorIff(m: Chain, resid: nat, oob: bool, mark: nat)
    ensures TakeData(m, resid, oob, mark).eor <==> exists i :: EndsRecord(m, resid, oob, mark, i)
  {
    if TakeData(m, resid, oob, mark).eor {
      var i := EorMeans(m, resid, oob, mark);
    }
    forall i | EndsRecord(m, resid, oob, mark, i) ensures TakeData(m, resid, oob, mark).eor {
      EorComes(m, resid, oob, mark, i);
    }
  }

  lemma {:induction false} EorMeans(m: Chain, resid: nat, oob: bool, mark: nat) returns (i: nat)
    requires TakeData(m, resid, oob, mark).eor
    ensures EndsRecord(m, resid, oob, mark, i)
    decreases |m|
  {
    hide Text, Remainder;
    i := 0;
    var n := Amount(m[0], resid, mark);
    if !Stops(m, n, mark) {
      var k := EorMeans(m[1..], resid - n, oob, After(mark, n));
      i := k + 1;
      EndsLater(m, resid, oob, mark, k);
    }
  }

  lemma EndsLater(m: Chain, resid: nat, oob: bool, mark: nat, k: nat)
    requires m != [] && (m[0].kind == Oob) == oob && !m[0].eor && |m[0].data| <= resid
    requires mark > 0 ==> |m[0].data| < mark
    ensures EndsRecord(m, resid, oob, mark, k + 1)
            <==> EndsRecord(m[1..], resid - |m[0].data|, oob, After(mark, |m[0].data|), k)
  {
    var m1 := m[1..];
    if k < |m1| {
      assert forall j :: 0 <= j < |m1| ==> m1[j] == m[j + 1];
      assert Before(m, k + 1) == |m[0].data| + Before(m1, k);
      if EndsRecord(m1, resid - |m[0].data|, oob, After(mark, |m[0].data|), k) {
        forall j | 0 <= j <= k + 1 ensures (m[j].kind == Oob) == oob && (j <= k ==> !m[j].eor) {
          if j > 0 {
            assert m1[j - 1] == m[j];
          }
        }
      }
    }
  }

  lemma {:induction false} EorComes(m: Chain, resid: nat, oob: bool, mark: nat, i: nat)
    requires EndsRecord(m, resid, oob, mark, i)
    ensures TakeData(m, resid, oob, mark).eor
    decreases i
  {
    hide Text, Remainder;
    if i > 0 {
      BeforeFirst(m, i);
      EndsLater(m, resid, oob, mark, i - 1);
      EorComes(m[1..], resid - |m[0].data|, oob, After(mark, |m[0].data|), i - 1);
    }
  }

  lemma BeforeFirst(m: Chain, i: nat)
    requires 0 < i <= |m|
    ensures |m[0].data| <= Before(m, i)
  {
  }

  lemma NoneTaken(m: Chain, resid: nat, oob: bool, mark: nat)
    ensures m == [] || resid == 0 ==> TakeData(m, resid, oob, mark).bytes == []
  {
  }

  /** What a caller is told of the record delivered. */
  lemma FlagsMean(c: Chain, mode: Mode, resid: nat, mark: nat)
    requires c != []
    ensures var d, data := Delivery(c, mode, resid, mark), DataOf(c, mode);
            && (d.oob <==> data != [] && data[0].kind == Oob)
            && (forall i :: 0 <= i < |d.bytes| ==> (d.bytes[i].kind == Oob) == d.oob)
            && (d.eor <==> exists i :: EndsRecord(data, resid, d.oob, mark, i))
            && (d.trunc ==> mode.atomic)
            && (AtMarkAfter(c, mode, resid, mark, false, false) <==> mark > 0 && |d.bytes| == mark)
  {
    var data := DataOf(c, mode);
    hide TakeData, EndsRecord, DataOf, ControlOf;
    TakeKinds(data, resid, IsOob(data), mark);
    TakeAmount(data, resid, IsOob(data), mark);
    NoneTaken(data, resid, IsOob(data), mark);
    EorIff(data, resid, IsOob(data), mark);
  }

  /** There is something to proceed to, and no reason to wait for more. */
  predicate NoWait(rs: Records, cc: nat, mode: Mode, resid: nat, terms: Terms) {
    && rs != []
    && (terms.dontWait || cc >= resid || cc >= terms.lowat || |rs| > 1 || mode.atomic || terms.failed
        || mode.cantRcvMore || exists i :: 0 <= i < |rs[0]| && (rs[0][i].kind == Oob || rs[0][i].eor))
  }

  /** Which verdict the test gives, exactly. */
  lemma VerdictIff(rs: Records, cc: nat, mode: Mode, resid: nat, terms: Terms)
    ensures var v, go := Test(rs, cc, mode, resid, terms), NoWait(rs, cc, mode, resid, terms);
            var stuck := !go && !terms.failed && !mode.cantRcvMore;
            && (v == Proceed <==> go) && (v == Failed <==> rs == [] && terms.failed)
            && (v == NotConnected <==> stuck && terms.unconnected)
            && (v == Nothing <==> (!go && !terms.failed && mode.cantRcvMore)
                                  || (stuck && !terms.unconnected && resid == 0))
            && (v == WouldBlock <==> stuck && !terms.unconnected && resid > 0 && (terms.nonBlocking || terms.dontWait))
            && (v == Sleep <==> stuck && !terms.unconnected && resid > 0 && !terms.nonBlocking && !terms.dontWait)
  {
  }

  class Socket {
    const rcv: Buffer
    var oobmark: nat
    var atMark: bool

    constructor ()
      ensures fresh(rcv) && rcv.Valid() && rcv.records == [] && oobmark == 0 && !atMark
    {
      rcv := new Buffer();
      oobmark, atMark := 0, false;
    }

    /** Use up `n` octets of the first buffer; looking only moves a position along. */
    method Consume(m0: Chain, next: Records, n: nat, peek: bool) returns (m: Chain, moff: nat)
      requires m0 != [] && n <= |m0[0].data| && (peek || Counts(rcv.cc, rcv.mbcnt, m0, next))
      modifies rcv`cc, rcv`mbcnt
      ensures (moff > 0 ==> peek && m == m0 && moff == n < |m[0].data|) && Virtual(m, moff) == Remainder(m0, n)
      ensures |m| < |m0| || (|m| == |m0| && n < |m0[0].data|)
      ensures if peek then rcv.cc == old(rcv.cc) && rcv.mbcnt == old(rcv.mbcnt) else Counts(rcv.cc, rcv.mbcnt, m, next)
    {
      hide Counts;
      m, moff := m0, 0;
      if n == |m[0].data| {
        if !peek {
          CountsFirst(rcv.cc, rcv.mbcnt, m, next);
          rcv.cc := rcv.cc - |m[0].data|;
          rcv.mbcnt := rcv.mbcnt - MSIZE - m[0].ext;
        }
        m := m[1..];
      } else if peek {
        moff := n;
        if n == 0 {
          assert Advance(m[0], 0) == m[0];
          assert [m[0]] + m[1..] == m;
        }
      } else {
        CountsPart(rcv.cc, rcv.mbcnt, m, next, n);
        m := [Advance(m[0], n)] + m[1..];
        rcv.cc := rcv.cc - n;
      }
    }

    /**
     How much to take at once: no more than is asked for, than there is before the mark, than is left of the buffer.
     */
    method Choose(m: Mbuf, moff: nat, resid: nat, offset: nat) returns (n: nat)
      requires moff == 0 && (oobmark > 0 ==> offset < oobmark)
      ensures n == Amount(m, resid, After(oobmark, offset))
    {
      n := resid;
      if oobmark > 0 && n > oobmark - offset {
        n := oobmark - offset;
      }
      if n > |m.data| - moff {
        n := |m.data| - moff;
      }
    }

    /** Move towards the mark, in place or, when looking, by an offset. */
    method PassMark(n: nat, offset: nat, peek: bool) returns (offset': nat, reached: bool)
      requires (oobmark > 0 ==> offset < oobmark && offset + n <= oobmark) && (!peek ==> offset == 0)
      modifies this`oobmark, this`atMark
      ensures reached <==> old(oobmark) > 0 && After(After(old(oobmark), offset), n) == 0
      ensures if peek then oobmark == old(oobmark) && atMark == old(atMark)
              && offset' == (if oobmark > 0 then offset + n else offset)
              else offset' == 0 && oobmark == After(old(oobmark), n) && atMark == (old(atMark) || reached)
    {
      offset', reached := offset, false;
      if oobmark > 0 {
        if !peek {
          oobmark := oobmark - n;
          if oobmark == 0 {
            atMark := true;
            reached := true;
          }
        } else {
          offset' := offset + n;
          reached := offset' == oobmark;
        }
      }
    }

    /** One round: take from the first buffer, count it off and move towards the mark, unless the caller only looks. */
    method TakeOne(m0: Chain, next: Records, resid: nat, offset: nat, peek: bool)
      returns (n: nat, m: Chain, moff: nat, offset': nat, reached: bool)
      requires m0 != [] && (oobmark > 0 ==> offset < oobmark) && (!peek ==> offset == 0)
      requires peek || Counts(rcv.cc, rcv.mbcnt, m0, next)
      modifies this`oobmark, this`atMark, rcv`cc, rcv`mbcnt
      ensures var mark := After(old(oobmark), offset);
              && n == Amount(m0[0], resid, mark) && (reached <==> mark > 0 && After(mark, n) == 0)
              && (peek ==> After(oobmark, offset') == After(mark, n)) && (!peek ==> oobmark == After(mark, n))
      ensures (moff > 0 ==> peek && m == m0 && moff == n < |m[0].data|) && Virtual(m, moff) == Remainder(m0, n)
      ensures |m| < |m0| || (|m| == |m0| && n < |m0[0].data|)
      ensures atMark == (!peek && reached) && (!peek ==> offset' == 0)
      ensures if peek then oobmark == old(oobmark) && rcv.cc == old(rcv.cc) && rcv.mbcnt == old(rcv.mbcnt)
              else Counts(rcv.cc, rcv.mbcnt, m, next)
    {
      hide Counts, Virtual, Remainder;
      atMark := false;
      n := Choose(m0[0], 0, resid, offset);
      m, moff := Consume(m0, next, n, peek);
      offset', reached := PassMark(n, offset, peek);
    }

    /** The data loop: counts and mark are adjusted as buffers are used up, unless the caller only looks. */
    method TakeLoop(m0: Chain, next: Records, resid0: nat, peek: bool) returns (bytes: seq<Octet>, m: Chain, eor: bool)
      requires peek || Counts(rcv.cc, rcv.mbcnt, m0, next)
      modifies this`oobmark, this`atMark, rcv`cc, rcv`mbcnt
      ensures var t := TakeData(m0, resid0, IsOob(m0), old(oobmark));
              && bytes == t.bytes && eor == t.eor && (m == [] <==> t.rest == []) && (!peek ==> m == t.rest)
              && oobmark == (if peek then old(oobmark) else t.mark)
              && atMark == (if m0 == [] || resid0 == 0 then old(atMark) else !peek && old(oobmark) > 0 && t.mark == 0)
      ensures if peek then rcv.cc == old(rcv.cc) && rcv.mbcnt == old(rcv.mbcnt) else Counts(rcv.cc, rcv.mbcnt, m, next)
    {
      hide TakeData, Text, Counts, Advance, Remainder, Prepend, Amount, After;
      var oob := IsOob(m0);
      var resid: nat, moff: nat, offset: nat := resid0, 0, 0;
      bytes, m, eor := [], m0, false;
      ghost var goal := TakeData(m0, resid0, oob, oobmark);
      ghost var mark0, at0, ran := oobmark, atMark, false;
      ghost var mark := oobmark;
      PrependNothing(m, goal);
      AfterNothing(oobmark);
      while m != [] && resid > 0 && (m[0].kind == Oob) == oob
        invariant (m == [] ==> moff == 0) && (moff > 0 ==> peek && resid == 0 && moff < |m[0].data|)
        invariant goal == Prepend(bytes, TakeData(Virtual(m, moff), resid, oob, mark)) && !eor
        invariant mark == After(oobmark, offset) && (mark0 > 0 <==> mark > 0) && (!peek ==> offset == 0)
        invariant peek ==> oobmark == mark0 && rcv.cc == old(rcv.cc) && rcv.mbcnt == old(rcv.mbcnt)
        invariant peek || Counts(rcv.cc, rcv.mbcnt, m, next)
        invariant if ran then !atMark && m0 != [] && resid0 > 0
                  else atMark == at0 && m == m0 && resid == resid0 && moff == 0
        decreases |m|, resid
      {
        ran := true;
        TakeStep(bytes, m, resid, oob, mark);
        AmountBound(m[0], resid, mark);
        BeforeMark(oobmark, offset);
        var m1, n, reached := m, 0, false;
        n, m, moff, offset, reached := TakeOne(m1, next, resid, offset, peek);
        bytes := bytes + Text(m1[0])[..n];
        resid := resid - n;
        BeforeMark(mark, n);
        mark := After(mark, n);
        AfterNothing(oobmark);
        eor := n == |m1[0].data| && m1[0].eor;
        if reached || eor {
          break;
        }
      }
      AfterNothing(oobmark);
      TakeDone(bytes, Virtual(m, moff), resid, oob, mark);
    }

    /**
     One pass over a queue that is not empty. Looking delivers exactly what taking would, and leaves queue, counts and
     mark alone; it leaves the at-mark state alone exactly if that was clear, nothing was asked for, or there are no
     data to look at. Taking leaves the rest.
     */
    method Receive(mode: Mode, resid: nat, peek: bool) returns (r: Received)
      requires rcv.Valid() && rcv.records != []
      modifies this`oobmark, this`atMark, rcv
      ensures rcv.Valid()
      ensures r == Delivery(old(rcv.records)[0], mode, resid, old(oobmark))
      ensures rcv.records == if peek then old(rcv.records) else Leftover(old(rcv.records), mode, resid, old(oobmark))
      ensures oobmark == if peek then old(oobmark) else TakenOf(old(rcv.records)[0], mode, resid, old(oobmark)).mark
      ensures atMark == AtMarkAfter(old(rcv.records)[0], mode, resid, old(oobmark), old(atMark), peek)
      ensures !peek && mode.atomic ==> rcv.records == old(rcv.records)[1..]
      ensures peek ==> (atMark == old(atMark)
                        <==> !old(atMark) || resid == 0 || DataOf(old(rcv.records)[0], mode) == [])
    {
      hide Counts, TakeData, Flat, All, Space, Stored, ValidChain, ValidRecords, Controls, DataOf, ControlOf,
           Delivery, TakenOf;
      var rs := rcv.records;
      var next := rs[1..];
      CountsStart(rs);
      LeftValid(rs, mode, resid, oobmark);
      var addr, control, oob, bytes, rest, eor := TakeParts(rs[0], next, mode, resid, peek);
      var trunc := rest != [] && mode.atomic;
      if !peek {
        PutBack(rest, next, trunc);
      }
      var orig := if mode.addr || (mode.wantControl && control != []) then 0 else resid;
      var again := orig == resid - |bytes| && orig > 0 && !eor && !mode.cantRcvMore;
      r := Received(addr, if mode.wantControl then control else [], bytes, eor, oob, trunc, again);
      DeliveryParts(rs[0], mode, resid, old(oobmark));
    }

    /** Address, control part and data of the first record, in turn. */
    method TakeParts(c: Chain, next: Records, mode: Mode, resid: nat, peek: bool)
      returns (addr: seq<Byte>, control: Chain, oob: bool, bytes: seq<Octet>, rest: Chain, eor: bool)
      requires c != [] && Counts(rcv.cc, rcv.mbcnt, c, next)
      modifies this`oobmark, this`atMark, rcv`cc, rcv`mbcnt
      ensures addr == (if mode.addr then c[0].data else []) && control == ControlOf(c, mode)
              && oob == IsOob(DataOf(c, mode))
      ensures var t := TakenOf(c, mode, resid, old(oobmark));
              && bytes == t.bytes && eor == t.eor && (rest == [] <==> t.rest == []) && (!peek ==> rest == t.rest)
              && oobmark == (if peek then old(oobmark) else t.mark)
      ensures atMark == AtMarkAfter(c, mode, resid, old(oobmark), old(atMark), peek)
      ensures if peek then rcv.cc == old(rcv.cc) && rcv.mbcnt == old(rcv.mbcnt)
              else Counts(rcv.cc, rcv.mbcnt, rest, next)
    {
      hide Counts, TakeData, Controls, DataOf, ControlOf;
      PartsOf(c, mode);
      var m, left;
      addr, m := TakeAddress(c, next, mode, peek);
      control, left := TakeControls(m, next, peek);
      oob := IsOob(left);
      bytes, rest, eor := TakeLoop(left, next, resid, peek);
    }

    ghost function Now(): State
      reads this, rcv
    {
      State(rcv.records, oobmark, atMark)
    }

    /** A whole call, up to the point where it would wait. */
    method ReceiveAll(mode: Mode, resid: nat, peek: bool, terms: Terms) returns (o: Outcome)
      requires rcv.Valid()
      modifies this`oobmark, this`atMark, rcv
      ensures rcv.Valid() && (o, Now()) == Call(old(Now()), mode, resid, peek, terms)
    {
      hide Delivery, Leftover, TakenOf, AtMarkAfter, Test, All, Stored, ValidRecords, Flagged;
      var oob, trunc := false, false;
      ghost var goal := Call(Now(), mode, resid, peek, terms);
      FlaggedNot(goal.0);
      while true
        invariant rcv.Valid()
        invariant goal == (Flagged(Call(Now(), mode, resid, peek, terms).0, oob, trunc),
                           Call(Now(), mode, resid, peek, terms).1)
        decreases Stored(rcv.records)
      {
        ghost var st := Now();
        var why := Check(mode, resid, terms);
        FlaggedTwice(Call(st, mode, resid, peek, terms).0, oob, trunc);
        if why != Proceed {
          return Stopped(why);
        }
        ProceedNonempty(rcv.records, mode, resid, terms);
        var r := Receive(mode, resid, peek);
        if !r.again {
          return Flagged(Got(r), oob, trunc);
        }
        if peek {
          return Spins;
        }
        PassShrinks(st, mode, resid);
        FlaggedAgain(Call(Now(), mode, resid, peek, terms).0, r.oob, r.trunc, oob, trunc);
        oob, trunc := oob || r.oob, trunc || r.trunc;
      }
    }

    /** The test in front of a pass. */
    method Check(mode: Mode, resid: nat, terms: Terms) returns (why: Verdict)
      requires rcv.Valid()
      ensures why == Test(rcv.records, |All(rcv.records)|, mode, resid, terms)
    {
      hide All, Stored, ValidRecords, Pressing;
      var rs := rcv.records;
      if rs == [] || (!terms.dontWait && rcv.cc < resid && rcv.cc < terms.lowat && |rs| == 1 && !mode.atomic) {
        if terms.failed {
          return if rs != [] then Proceed else Failed;
        }
        if mode.cantRcvMore {
          return if rs != [] then Proceed else Nothing;
        }
        if rs != [] {
          var now := FindPressing(rs[0]);
          if now {
            return Proceed;
          }
        }
        if terms.unconnected {
          return NotConnected;
        }
        if resid == 0 {
          return Nothing;
        }
        return if terms.nonBlocking || terms.dontWait then WouldBlock else Sleep;
      }
      return Proceed;
    }

    static method FindPressing(c: Chain) returns (found: bool)
      ensures found <==> Pressing(c)
    {
      var i := 0;
      while i < |c|
        invariant 0 <= i <= |c| && forall j :: 0 <= j < i ==> c[j].kind != Oob && !c[j].eor
      {
        if c[i].kind == Oob || c[i].eor {
          return true;
        }
        i := i + 1;
      }
      return false;
    }

    /** The address, if the protocol puts one first. */
    method TakeAddress(m0: Chain, next: Records, mode: Mode, peek: bool) returns (addr: seq<Byte>, m: Chain)
      requires m0 != [] && Counts(rcv.cc, rcv.mbcnt, m0, next)
      modifies rcv`cc, rcv`mbcnt
      ensures addr == (if mode.addr then m0[0].data else []) && m == if mode.addr then m0[1..] else m0
      ensures if peek then rcv.cc == old(rcv.cc) && rcv.mbcnt == old(rcv.mbcnt) else Counts(rcv.cc, rcv.mbcnt, m, next)
    {
      hide Counts;
      addr, m := [], m0;
      if mode.addr {
        addr := m[0].data;
        if !peek {
          CountsFirst(rcv.cc, rcv.mbcnt, m, next);
          rcv.cc := rcv.cc - |m[0].data|;
          rcv.mbcnt := rcv.mbcnt - MSIZE - m[0].ext;
        }
        m := m[1..];
      }
    }

    /** What is left of the first record becomes the front of the queue again, unless it is to be dropped. */
    method PutBack(rest: Chain, next: Records, drop: bool)
      requires Counts(rcv.cc, rcv.mbcnt, rest, next) && ValidRecords(if rest == [] then next else [rest] + next)
      requires drop ==> rest != []
      modifies rcv
      ensures rcv.Valid() && rcv.records == if rest == [] || drop then next else [rest] + next
    {
      hide Counts, All, Stored, ValidRecords;
      CountsEnd(rcv.cc, rcv.mbcnt, rest, next);
      rcv.records := if rest == [] then next else [rest] + next;
      if drop {
        rcv.DropRecord();
      }
    }

    method TakeControls(m0: Chain, next: Records, peek: bool) returns (control: Chain, m: Chain)
      requires peek || Counts(rcv.cc, rcv.mbcnt, m0, next)
      modifies rcv`cc, rcv`mbcnt
      ensures Controls(m0) <= |m0| && control == m0[..Controls(m0)] && m == m0[Controls(m0)..]
      ensures if peek then rcv.cc == old(rcv.cc) && rcv.mbcnt == old(rcv.mbcnt) else Counts(rcv.cc, rcv.mbcnt, m, next)
    {
      hide Counts;
      ControlsBound(m0);
      control, m := [], m0;
      ghost var k := 0;
      while m != [] && m[0].kind == Control
        invariant 0 <= k <= |m0| && control == m0[..k] && m == m0[k..] && Controls(m0) == k + Controls(m)
        invariant if peek then rcv.cc == old(rcv.cc) && rcv.mbcnt == old(rcv.mbcnt)
                  else Counts(rcv.cc, rcv.mbcnt, m, next)
        decreases |m|
      {
        if !peek {
          CountsFirst(rcv.cc, rcv.mbcnt, m, next);
          rcv.cc := rcv.cc - |m[0].data|;
          rcv.mbcnt := rcv.mbcnt - MSIZE - m[0].ext;
        }
        control := control + [m[0]];
        m := m[1..];
        k := k + 1;
      }
    }
  }

  lemma FlaggedNot(o: Outcome)
    ensures Flagged(o, false, false) == o
  {
  }

  lemma FlaggedTwice(o: Outcome, oob: bool, trunc: bool)
    ensures !o.Got? ==> Flagged(o, oob, trunc) == o
  {
  }

  lemma FlaggedAgain(o: Outcome, oob1: bool, trunc1: bool, oob2: bool, trunc2: bool)
    ensures Flagged(Flagged(o, oob1, trunc1), oob2, trunc2) == Flagged(o, oob2 || oob1, trunc2 || trunc1)
  {
  }

  /** A pass that looks and is to start over finds everything as it was, so the next one is to start over as well. */
  method PeekAgain(s: Socket, mode: Mode, resid: nat, terms: Terms) returns (first: Received, second: Received)
    requires s.rcv.Valid() && StartsOver(s.rcv.records, mode, resid, terms)
    modifies s`oobmark, s`atMark, s.rcv
    ensures first.again && second.again && s.rcv.Valid() && s.rcv.records == old(s.rcv.records)
    ensures StartsOver(s.rcv.records, mode, resid, terms)
  {
    AgainIff(s.rcv.records[0], mode, resid, s.oobmark);
    hide Delivery, FindsNothing, Leftover, TakenOf, AtMarkAfter, Pressing;
    first := s.Receive(mode, resid, true);
    second := s.Receive(mode, resid, true);
  }

  const PLAIN: Mode := Mode(false, false, false, false)
  const WAITING: Terms := Terms(false, 1, false, false, false)
  const NOT_WAITING: Terms := Terms(true, 1, false, false, false)

  /**
   For instance a single record of no octets, which may be queued: a call that may wait goes to sleep. One that must not
   wait never ends if it looks; if it takes, the record is gone and nothing is left to find.
   */
  method EmptyRecordExample() returns (s: Socket, waited: Outcome, looked: Outcome, took: Outcome)
    ensures waited == Stopped(Sleep) && looked == Spins && took == Stopped(WouldBlock) && s.rcv.Valid()
            && s.rcv.records == []
  {
    hide Delivery, TakenOf, AtMarkAfter, DataOf, Leftover, FindsNothing, All, Stored, Flat, Tight, MarkAtEnd,
         NoEor, Call, Pressing;
    s := new Socket();
    var m := Mbuf([], 0, Data, false, 0);
    s.rcv.AppendRecord([m]);
    assert s.rcv.records == [[m]];
    EmptyCalls(m, s.Now());
    waited := s.ReceiveAll(PLAIN, 1, true, WAITING);
    looked := s.ReceiveAll(PLAIN, 1, true, NOT_WAITING);
    EmptyCalls(m, s.Now());
    took := s.ReceiveAll(PLAIN, 1, false, NOT_WAITING);
  }

  lemma EmptyCalls(m: Mbuf, st: State)
    requires m.data == [] && !m.eor && m.kind == Data && m.ext == 0 && ValidMbuf(m) && st.records == [[m]]
    ensures ValidRecords(st.records) && Call(st, PLAIN, 1, true, WAITING) == (Stopped(Sleep), st)
    ensures Call(st, PLAIN, 1, true, NOT_WAITING).0 == Spins && Call(st, PLAIN, 1, true, NOT_WAITING).1.records == [[m]]
    ensures var (o, end) := Call(st, PLAIN, 1, false, NOT_WAITING); o == Stopped(WouldBlock) && end.records == []
  {
    hide TakenOf, AtMarkAfter, DataOf, FindsNothing, Stored, Delivery, Leftover;
    var rs: Records := [[m]];
    NothingToFind(m, st.mark);
    NothingQueued(m);
    AgainIff(rs[0], PLAIN, 1, st.mark);
    assert !Pressing(rs[0]);
    PassShrinks(st, PLAIN, 1);
    assert Pass(st, PLAIN, 1, false).records == [];
    assert All([]) == [];
  }

  lemma NothingQueued(m: Mbuf)
    requires m.data == []
    ensures All([[m]]) == []
  {
    var rs: Records := [[m]];
    FlatOne(m);
    assert rs[1..] == [] && Text(m) == [];
  }

  lemma NothingToFind(m: Mbuf, mark: nat)
    requires m.data == [] && !m.eor && m.kind == Data && m.ext == 0
    ensures FindsNothing([m], PLAIN, 1) && Leftover([[m]], PLAIN, 1, mark) == []
  {
    var c: Chain := [m];
    EmptyBuffer(m);
    assert DataOf(c, PLAIN) == c;
    TakeShrinks(c, 1, mark);
    SpaceNone(TakenOf(c, PLAIN, 1, mark).rest, c);
  }

  lemma EmptyBuffer(m: Mbuf)
    requires m.data == [] && !m.eor && m.kind != Oob
    ensures Extent([m], false) == 0 && !MarkFirst([m], false)
  {
    var c: Chain := [m];
    assert c[1..] == [];
    assert !MarkFirst(c[1..], false);
  }

  lemma SpaceNone(c: Chain, d: Chain)
    requires Space(c) < Space(d) && |d| == 1 && d[0].ext == 0
    ensures c == []
  {
    assert d[1..] == [];
  }

  /**
   Taken up to the mark, with an octet behind it: looking at that clears the at-mark state, though nothing was taken.
   */
  method PeekClearsMark() returns (s: Socket, before: bool, looked: Received, after: bool)
    ensures before && !after && looked.bytes == [Octet(Data, 2)] && s.rcv.Valid()
            && s.rcv.records == [[Mbuf([2], 1, Data, false, 0)]]
  {
    hide Delivery, TakenOf, AtMarkAfter, DataOf, Leftover, All, Stored, Flat, Tight, MarkAtEnd, NoEor;
    s := new Socket();
    s.rcv.AppendRecord([Mbuf([1, 2], 0, Data, false, 0)]);
    s.oobmark := 1;
    assert s.rcv.records == [[Mbuf([1, 2], 0, Data, false, 0)]];
    FirstTaken();
    SecondLookedAt();
    var took := s.Receive(PLAIN, 1, false);
    before := s.atMark;
    looked := s.Receive(PLAIN, 1, true);
    after := s.atMark;
  }

  lemma FirstTaken()
    ensures var c, d := [Mbuf([1, 2], 0, Data, false, 0)], [Mbuf([2], 1, Data, false, 0)];
            && TakenOf(c, PLAIN, 1, 1).mark == 0 && Leftover([c], PLAIN, 1, 1) == [d]
            && AtMarkAfter(c, PLAIN, 1, 1, false, false)
  {
    var m := Mbuf([1, 2], 0, Data, false, 0);
    assert Advance(m, 1) == Mbuf([2], 1, Data, false, 0);
    FirstOfTwo(m);
  }

  lemma FirstOfTwo(m: Mbuf)
    requires |m.data| == 2 && m.kind == Data
    ensures TakenOf([m], PLAIN, 1, 1).mark == 0 && Leftover([[m]], PLAIN, 1, 1) == [[Advance(m, 1)]]
    ensures AtMarkAfter([m], PLAIN, 1, 1, false, false)
  {
    hide Text, Advance;
    var c: Chain := [m];
    assert DataOf(c, PLAIN) == c;
    var rs: Records := [c];
    assert c[1..] == [] && rs[1..] == [];
    assert TakeData(c, 1, false, 1) == Taken(Text(m)[..1], [Advance(m, 1)], false, 0);
  }

  lemma SecondLookedAt()
    ensures var d := [Mbuf([2], 1, Data, false, 0)];
            Delivery(d, PLAIN, 1, 0).bytes == [Octet(Data, 2)] && !AtMarkAfter(d, PLAIN, 1, 0, true, true)
  {
    var m := Mbuf([2], 1, Data, false, 0);
    OneOctet(m);
    assert Text(m) == [Octet(Data, 2)];
  }

  lemma OneOctet(m: Mbuf)
    requires |m.data| == 1 && m.kind == Data && !m.eor
    ensures Delivery([m], PLAIN, 1, 0).bytes == Text(m) && !AtMarkAfter([m], PLAIN, 1, 0, true, true)
  {
    hide TakeData, Text, Flat, Extent;
    var d: Chain := [m];
    assert DataOf(d, PLAIN) == d;
    ExtentOne(m);
    FlatOne(m);
    TakeAmount(d, 1, false, 0);
    TakeKeeps(d, 1, false, 0);
    var t := TakeData(d, 1, false, 0);
    assert t.bytes == (t.bytes + Flat(t.rest))[..1];
  }

  lemma ExtentOne(m: Mbuf)
    requires m.kind != Oob
    ensures Extent([m], false) == |m.data|
  {
    var d: Chain := [m];
    assert Extent(d[1..], false) == 0;
  }

  /** The chain a position in it stands for. */
  function Virtual(m: Chain, moff: nat): Chain
    requires moff > 0 ==> m != [] && moff <= |m[0].data|
  {
    if moff == 0 then m else [Advance(m[0], moff)] + m[1..]
  }

  lemma PartsOf(c: Chain, mode: Mode)
    requires c != []
    ensures var c1 := if mode.addr then c[1..] else c;
            Controls(c1) <= |c1| && ControlOf(c, mode) == c1[..Controls(c1)] && DataOf(c, mode) == c1[Controls(c1)..]
  {
    ControlsBound(if mode.addr then c[1..] else c);
  }

  lemma DeliveryParts(c: Chain, mode: Mode, resid: nat, mark: nat)
    requires c != []
    ensures var t, control := TakenOf(c, mode, resid, mark), ControlOf(c, mode);
            var orig := if mode.addr || (mode.wantControl && control != []) then 0 else resid;
            Delivery(c, mode, resid, mark)
            == Received(if mode.addr then c[0].data else [], if mode.wantControl then control else [], t.bytes, t.eor,
                        IsOob(DataOf(c, mode)), t.rest != [] && mode.atomic,
                        orig == resid - |t.bytes| && orig > 0 && !t.eor && !mode.cantRcvMore)
  {
    hide TakeData, Controls;
  }

  lemma PrependNothing(m: Chain, t: Taken)
    ensures Prepend([], t) == t && Virtual(m, 0) == m
  {
  }

  lemma TakeStep(bytes: seq<Octet>, m: Chain, resid: nat, oob: bool, mark: nat)
    requires m != [] && resid > 0 && (m[0].kind == Oob) == oob
    ensures var n := Amount(m[0], resid, mark);
            var b := bytes + Text(m[0])[..n];
            var goal := Prepend(bytes, TakeData(m, resid, oob, mark));
            && n <= |m[0].data|
            && (if (mark > 0 && After(mark, n) == 0) || (n == |m[0].data| && m[0].eor)
                then goal == Taken(b, Remainder(m, n), n == |m[0].data| && m[0].eor, After(mark, n))
                else goal == Prepend(b, TakeData(Remainder(m, n), resid - n, oob, After(mark, n))))
  {
    hide Text;
    var n := Amount(m[0], resid, mark);
    var b := Text(m[0])[..n];
    if !Stops(m, n, mark) {
      var t := TakeData(m[1..], resid - n, oob, After(mark, n));
      Assoc(bytes, b, t.bytes);
    } else if n < |m[0].data| && !(mark > 0 && After(mark, n) == 0) {
      assert n == resid;
      assert TakeData(Remainder(m, n), 0, oob, After(mark, n)) == Taken([], Remainder(m, n), false, After(mark, n));
      assert bytes + b + [] == bytes + b;
    }
  }

  lemma TakeDone(bytes: seq<Octet>, m: Chain, resid: nat, oob: bool, mark: nat)
    ensures m == [] || resid == 0 || (m[0].kind == Oob) != oob
            ==> Prepend(bytes, TakeData(m, resid, oob, mark)) == Taken(bytes, m, false, mark)
  {
  }

  lemma AfterNothing(mark: nat)
    ensures After(mark, 0) == mark
  {
  }

  lemma BeforeMark(mark: nat, n: nat)
    ensures After(mark, n) > 0 <==> n < mark
  {
  }

  /**
   No more is taken of a buffer than it has, and all that was asked for if it has more and the mark is not reached.
   */
  lemma AmountBound(m: Mbuf, resid: nat, mark: nat)
    ensures var n := Amount(m, resid, mark);
            && n <= resid && n <= |m.data| && (n < |m.data| && !(mark > 0 && After(mark, n) == 0) ==> n == resid)
  {
  }

  // ----- the counts while a record is being taken apart

  /** The counts are those of the rest of the first record and of the records after it. */
  ghost predicate Counts(cc: nat, mbcnt: nat, m: Chain, next: Records) {
    cc == |Flat(m)| + |All(next)| && mbcnt == Space(m) + Stored(next)
  }

  lemma CountsStart(rs: Records)
    requires rs != []
    ensures Counts(|All(rs)|, Stored(rs), rs[0], rs[1..])
  {
  }

  lemma CountsFirst(cc: nat, mbcnt: nat, m: Chain, next: Records)
    requires Counts(cc, mbcnt, m, next) && m != []
    ensures cc >= |m[0].data| && mbcnt >= MSIZE + m[0].ext
    ensures Counts(cc - |m[0].data|, mbcnt - MSIZE - m[0].ext, m[1..], next)
  {
    FlatRest(m);
  }

  lemma CountsPart(cc: nat, mbcnt: nat, m: Chain, next: Records, n: nat)
    requires Counts(cc, mbcnt, m, next) && m != [] && n <= |m[0].data|
    ensures cc >= n && Counts(cc - n, mbcnt, [Advance(m[0], n)] + m[1..], next)
  {
    FlatRest(m);
    FlatFirst(Advance(m[0], n), m[1..]);
  }

  lemma CountsEnd(cc: nat, mbcnt: nat, m: Chain, next: Records)
    requires Counts(cc, mbcnt, m, next)
    ensures var rs := if m == [] then next else [m] + next; cc == |All(rs)| && mbcnt == Stored(rs)
  {
    if m != [] {
      assert ([m] + next)[1..] == next;
    }
  }

  lemma {:induction false} TakeValid(m: Chain, resid: nat, oob: bool, mark: nat)
    requires ValidChain(m)
    ensures ValidChain(TakeData(m, resid, oob, mark).rest)
    decreases |m|
  {
    hide Text, After;
    if m != [] && resid > 0 && (m[0].kind == Oob) == oob {
      var n := Amount(m[0], resid, mark);
      if Stops(m, n, mark) {
        assert ValidMbuf(m[0]);
        AdvanceText(m[0], n);
      } else {
        TakeValid(m[1..], resid - n, oob, After(mark, n));
      }
    }
  }

  lemma LeftValid(rs: Records, mode: Mode, resid: nat, mark: nat)
    requires rs != [] && ValidRecords(rs)
    ensures rs[0] != []
    ensures var rest := TakenOf(rs[0], mode, resid, mark).rest;
            ValidRecords(if rest == [] then rs[1..] else [rest] + rs[1..])
  {
    hide TakeData, Controls;
    var c1 := if mode.addr then rs[0][1..] else rs[0];
    assert ValidChain(rs[0]);
    assert ValidChain(c1);
    ControlsBound(c1);
    var d := c1[Controls(c1)..];
    assert ValidChain(d);
    assert d == DataOf(rs[0], mode);
    TakeValid(d, resid, IsOob(d), mark);
  }
}

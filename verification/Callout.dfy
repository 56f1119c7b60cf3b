/** The callout queue: timers as a list of differences, counted down by the clock and run in order. */
module Callout {
  import opened Prelude

  /** A function to call with an argument; `ticks` counts from the entry before, and is negative if overdue. */
  datatype Entry = Entry(func: nat, arg: nat, ticks: int)

  type CalloutList = seq<Entry>

  /** The ticks before entry `i` can be run: those of the entries up to it that are not yet used up. */
  function Remaining(q: CalloutList, i: nat): nat
    requires i < |q|
  {
    Sum(q[..i + 1])
  }

  function Sum(q: CalloutList): nat {
    if q == [] then 0 else Sum(q[..|q| - 1]) + Max(0, q[|q| - 1].ticks)
  }

  /** Differences that are used up come first. */
  predicate Sorted(q: CalloutList) {
    forall i, j :: 0 <= i < j < |q| && q[i].ticks > 0 ==> q[j].ticks >= 0
  }

  lemma {:induction false} SumConcat(a: CalloutList, b: CalloutList)
    ensures Sum(a + b) == Sum(a) + Sum(b)
    decreases |b|
  {
    if b == [] {
      assert a + b == a;
    } else {
      SumConcat(a, b[..|b| - 1]);
      assert (a + b)[..|a + b| - 1] == a + b[..|b| - 1];
    }
  }

  lemma SumOne(e: Entry)
    ensures Sum([e]) == Max(0, e.ticks)
  {
    var q: CalloutList := [e];
    assert q[..0] == [];
    assert Sum(q[..0]) == 0;
  }

  lemma SumAround(a: CalloutList, e: Entry, b: CalloutList)
    ensures Sum(a + [e] + b) == Sum(a) + Max(0, e.ticks) + Sum(b)
  {
    SumOne(e);
    SumConcat(a, [e]);
    SumConcat(a + [e], b);
  }

  /** Before the first positive difference nothing remains. */
  lemma {:induction false} SumNone(q: CalloutList)
    requires forall i :: 0 <= i < |q| ==> q[i].ticks <= 0
    ensures Sum(q) == 0
    decreases |q|
  {
    if q != [] {
      SumNone(q[..|q| - 1]);
    }
  }

  /** The sum of the differences as they are is never more than what remains. */
  function Total(q: CalloutList): int {
    if q == [] then 0 else Total(q[..|q| - 1]) + q[|q| - 1].ticks
  }

  lemma {:induction false} TotalBelow(q: CalloutList)
    ensures Total(q) <= Sum(q)
    decreases |q|
  {
    if q != [] {
      TotalBelow(q[..|q| - 1]);
    }
  }

  // ----- inserting

  /** The queue with a new entry at `p`: only at the front does the entry after it count from the new one. */
  function Inserted(q: CalloutList, p: nat, e: Entry): CalloutList
    requires p <= |q|
  {
    if p == 0 && q != [] then [e, Entry(q[0].func, q[0].arg, q[0].ticks - e.ticks)] + q[1..]
    else q[..p] + [e] + q[p..]
  }

  /** How many entries a new one is put behind, once it is past the first `i` with `left` ticks to go. */
  function Spot(q: CalloutList, i: nat, left: int): (p: nat)
    requires 1 <= i <= |q|
    ensures i <= p <= |q|
    decreases |q| - i
  {
    if i < |q| && q[i].ticks <= left then Spot(q, i + 1, left - q[i].ticks) else i
  }

  function PlaceOf(q: CalloutList, wanted: nat): (p: nat)
    ensures p <= |q|
  {
    if q == [] || q[0].ticks > wanted then 0 else Spot(q, 1, wanted - q[0].ticks)
  }

  /** The queue with a function to be called after a number of ticks. */
  function Requested(q: CalloutList, func: nat, arg: nat, wanted: nat): CalloutList {
    var p := PlaceOf(q, wanted);
    Inserted(q, p, Entry(func, arg, wanted - Total(q[..p])))
  }

  /** Where the entries of the old queue are now. */
  function Moved(i: nat, p: nat): nat { if i < p then i else i + 1 }

  lemma InsertedInside(q: CalloutList, p: nat, e: Entry, i: nat)
    requires 0 < p <= |q| && e.ticks >= 0 && i < |q|
    ensures var q' := Inserted(q, p, e);
            |q'| == |q| + 1 && Remaining(q', Moved(i, p)) == Remaining(q, i) + if i < p then 0 else e.ticks
  {
    var q' := Inserted(q, p, e);
    if i < p {
      assert q'[..i + 1] == q[..i + 1];
    } else {
      assert q'[..i + 2] == q[..p] + [e] + q[p..i + 1];
      assert q[..i + 1] == q[..p] + q[p..i + 1];
      SumAround(q[..p], e, q[p..i + 1]);
      SumConcat(q[..p], q[p..i + 1]);
    }
  }

  lemma InsertedFirst(q: CalloutList, e: Entry, i: nat)
    requires q != [] && 0 <= e.ticks < q[0].ticks && i < |q|
    ensures var q' := Inserted(q, 0, e); |q'| == |q| + 1 && Remaining(q', i + 1) == Remaining(q, i)
  {
    var q' := Inserted(q, 0, e);
    var first := Entry(q[0].func, q[0].arg, q[0].ticks - e.ticks);
    assert q'[..i + 2] == [e] + [first] + q[1..i + 1];
    SumAround([e], first, q[1..i + 1]);
    SumOne(e);
    assert q[..i + 1] == [] + [q[0]] + q[1..i + 1];
    SumAround([], q[0], q[1..i + 1]);
  }

  /** The new entry waits at least as long as asked. */
  lemma NewWaits(q: CalloutList, p: nat, e: Entry, wanted: nat)
    requires p <= |q| && e.ticks >= 0 && (p == 0 ==> e.ticks == wanted) && (p > 0 ==> e.ticks == wanted - Total(q[..p]))
    ensures var q' := Inserted(q, p, e); p < |q'| && Remaining(q', p) >= wanted
  {
    var q' := Inserted(q, p, e);
    assert q'[..p + 1] == q[..p] + [e];
    SumConcat(q[..p], [e]);
    SumOne(e);
    TotalBelow(q[..p]);
  }

  class CalloutQueue {
    var q: CalloutList
    var now: nat
    ghost var due: seq<int>

    /** No entry can be run before it is due. */
    ghost predicate Valid()
      reads this
    {
      Sorted(q) && |due| == |q| && forall i :: 0 <= i < |q| ==> now + Remaining(q, i) >= due[i]
    }

    constructor ()
      ensures Valid() && q == [] && now == 0
    {
      q, now, due := [], 0, [];
    }

    /** Have a function called after a number of ticks: not before, and no other entry gets earlier by it. */
    method Timeout(func: nat, arg: nat, wanted: nat) returns (ghost p: nat)
      requires Valid()
      modifies this`q, this`due
      ensures Valid() && p < |q| && |q| == |old(q)| + 1 && q == Requested(old(q), func, arg, wanted)
      ensures q[p].func == func && q[p].arg == arg && q == Inserted(old(q), p, q[p]) && Remaining(q, p) >= wanted
      ensures due == old(due)[..p] + [now + wanted] + old(due)[p..]
      ensures forall i :: 0 <= i < |old(q)| ==> Moved(i, p) < |q| && Remaining(q, Moved(i, p)) >= Remaining(old(q), i)
      ensures forall i :: 0 <= i < |old(q)| && Remaining(old(q), i) <= wanted ==>
                Remaining(q, Moved(i, p)) == Remaining(old(q), i) && i < p
      ensures (forall i :: 0 <= i < |old(q)| ==> old(q)[i].ticks >= 0) ==> Remaining(q, p) == wanted
    {
      hide Remaining, Sorted, Inserted, Spot;
      ghost var q0 := q;
      var at, t := Place(wanted);
      p := at;
      var e := Entry(func, arg, t);
      Kept(q0, due, p, e, now, wanted);
      forall i | 0 <= i < |q0|
        ensures Moved(i, p) < |Inserted(q0, p, e)| && Remaining(Inserted(q0, p, e), Moved(i, p)) >= Remaining(q0, i) {
        NotEarlier(q0, p, e, i);
      }
      forall i | 0 <= i < |q0| && Remaining(q0, i) <= wanted
        ensures Remaining(Inserted(q0, p, e), Moved(i, p)) == Remaining(q0, i) && i < p {
        SoonerStays(q0, p, e, wanted, i);
      }
      NewExact(q0, p, e, wanted);
      q := Inserted(q, at, e);
      due := due[..p] + [now + wanted] + due[p..];
    }

    /** Where a new entry goes, and what is left of its ticks there. */
    method Place(wanted: nat) returns (p: nat, t: nat)
      requires Sorted(q)
      ensures p <= |q| && (p == 0 ==> t == wanted && (q != [] ==> t < q[0].ticks))
      ensures t == wanted - Total(q[..p]) && p == PlaceOf(q, wanted) && (p < |q| ==> q[p].ticks > t)
      ensures forall i :: 0 <= p <= i < |q| ==> q[i].ticks >= 0
    {
      if q == [] {
        return 0, wanted;
      }
      if q[0].ticks > wanted {
        return 0, wanted;
      }
      p, t := 1, wanted - q[0].ticks;
      TotalFirst(q);
      while p < |q| && q[p].ticks <= t
        invariant 1 <= p <= |q| && t == wanted - Total(q[..p]) && Spot(q, p, t) == PlaceOf(q, wanted)
      {
        assert q[..p + 1][..p] == q[..p];
        t := t - q[p].ticks;
        p := p + 1;
      }
    }

    /** The first entry for a function and an argument, if there is one. */
    method Find(func: nat, arg: nat) returns (k: nat)
      ensures k == FirstFor(q, func, arg, 0) && k <= |q| && (k < |q| ==> q[k].func == func && q[k].arg == arg)
      ensures forall i :: 0 <= i < k ==> q[i].func != func || q[i].arg != arg
    {
      k := 0;
      while k < |q| && (q[k].func != func || q[k].arg != arg)
        invariant 0 <= k <= |q| && forall i :: 0 <= i < k ==> q[i].func != func || q[i].arg != arg
        invariant FirstFor(q, func, arg, k) == FirstFor(q, func, arg, 0)
      {
        k := k + 1;
      }
    }

    /** Cancel a timer. The others keep their time, unless the one cancelled was overdue and the next one is not. */
    method Untimeout(func: nat, arg: nat) returns (ghost k: nat)
      requires Valid()
      modifies this`q, this`due
      ensures k == FirstFor(old(q), func, arg, 0)
      ensures k <= |old(q)| && (k < |old(q)| ==> old(q)[k].func == func && old(q)[k].arg == arg)
      ensures forall i :: 0 <= i < k ==> old(q)[i].func != func || old(q)[i].arg != arg
      ensures if k == |old(q)| then q == old(q) && due == old(due)
              else q == Cancelled(old(q), k) && due == old(due)[..k] + old(due)[k + 1..]
      ensures k == |old(q)| || !Hastens(old(q), k) ==> Valid()
    {
      var at := Find(func, arg);
      k := at;
      if at == |q| {
        return;
      }
      if !Hastens(q, at) {
        CancelKept(q, due, at, now);
      }
      hide Sorted, Remaining;
      due := due[..at] + due[at + 1..];
      q := Cancelled(q, at);
    }

    /** The clock ticks: whatever is not yet due comes one tick closer, no matter what is overdue in front of it. */
    method Hardclock() returns (needsoft: bool)
      requires Valid()
      modifies this`q, this`now
      ensures Valid() && now == old(now) + 1 && |q| == |old(q)| && q == Ticked(old(q))
      ensures forall i :: 0 <= i < |q| ==> Remaining(q, i) == Max(0, Remaining(old(q), i) - 1)
      ensures forall i :: 0 <= i < |q| ==> q[i].func == old(q)[i].func && q[i].arg == old(q)[i].arg
      ensures needsoft <==> q != [] && q[0].ticks <= 0
    {
      hide Sorted, Remaining, Counting, CountedDown;
      ghost var q0 := q;
      needsoft := false;
      var i := 0;
      CountStart(q0);
      while i < |q|
        modifies this`q
        invariant 0 <= i <= |q| == |q0| && Counting(q0, q, i) && (needsoft <==> i > 0)
      {
        CountNext(q0, q, i);
        q := q[i := Less(q[i])];
        if q[i].ticks > 0 {
          break;
        }
        needsoft := true;
        if q[i].ticks == 0 {
          break;
        }
        i := i + 1;
      }
      CountEnd(q0, q, i);
      TickedRemaining(q0, q, i);
      TickedSorted(q0, q, i);
      CountedIsTicked(q0, q, i);
      now := now + 1;
    }

    /** Take the first entry off the queue if its time has come. It never is before it is due. */
    method Pop() returns (e: Option<Entry>)
      requires Valid()
      modifies this`q, this`due
      ensures Valid()
      ensures e.None? <==> old(q) == [] || old(q)[0].ticks > 0
      ensures match e
              case None => q == old(q) && due == old(due)
              case Some(x) => old(q) == [x] + q && old(due) == [old(due)[0]] + due && now >= old(due)[0]
      ensures e.Some? ==> forall i :: 0 <= i < |q| ==> Remaining(q, i) == Remaining(old(q), i + 1)
    {
      if q == [] || q[0].ticks > 0 {
        return None;
      }
      PopKept(q, due, now);
      e := Some(q[0]);
      q, due := q[1..], due[1..];
    }
  }

  // ----- cancelling

  /** The first entry from `i` on for a function and an argument; the end of the queue if there is none. */
  function FirstFor(q: CalloutList, func: nat, arg: nat, i: nat): (k: nat)
    requires i <= |q|
    ensures i <= k <= |q|
    decreases |q| - i
  {
    if i < |q| && (q[i].func != func || q[i].arg != arg) then FirstFor(q, func, arg, i + 1) else i
  }

  /** The queue without entry `k`: what is left of its ticks goes to the next one. */
  function Cancelled(q: CalloutList, k: nat): CalloutList
    requires k < |q|
  {
    if k + 1 < |q| then q[..k] + [Entry(q[k + 1].func, q[k + 1].arg, q[k + 1].ticks + q[k].ticks)] + q[k + 2..]
    else q[..k]
  }

  lemma CancelledRemaining(q: CalloutList, k: nat, i: nat)
    requires k < |q| && i < |q| && i != k
    ensures var q' := Cancelled(q, k);
            && |q'| == |q| - 1
            && Remaining(q', if i < k then i else i - 1)
               == (if i < k then Remaining(q, i)
                   else Remaining(q, i) + Max(0, q[k + 1].ticks + q[k].ticks)
                        - Max(0, q[k].ticks) - Max(0, q[k + 1].ticks))
  {
    hide Sum;
    var q' := Cancelled(q, k);
    if i < k {
      assert q'[..i + 1] == q[..i + 1];
    } else {
      var n := Entry(q[k + 1].func, q[k + 1].arg, q[k + 1].ticks + q[k].ticks);
      var b := q[k + 2..i + 1];
      CancelledPrefix(q, k, i, n, b);
      SumAround(q[..k], n, b);
      SumAround(q[..k], q[k], [q[k + 1]] + b);
      SumConcat([q[k + 1]], b);
      SumOne(q[k + 1]);
    }
  }

  lemma CancelledPrefix(q: CalloutList, k: nat, i: nat, n: Entry, b: CalloutList)
    requires k < i < |q| && b == q[k + 2..i + 1] && n == Entry(q[k + 1].func, q[k + 1].arg, q[k + 1].ticks + q[k].ticks)
    ensures |Cancelled(q, k)| == |q| - 1 && Cancelled(q, k)[..i] == q[..k] + [n] + b
    ensures q[..i + 1] == q[..k] + [q[k]] + ([q[k + 1]] + b)
  {
    assert q[k + 2..][..i - k - 1] == b;
  }

  /**
   The entry is overdue, and the one right after it is still to come: cancelling the first would make up for it at the
   second.
   */
  predicate Hastens(q: CalloutList, k: nat)
    requires k < |q|
  {
    q[k].ticks < 0 && k + 1 < |q| && q[k + 1].ticks > 0
  }

  /** Cancelling an entry leaves the time of all others alone exactly if it does not hasten the next one. */
  lemma CancelKeeps(q: CalloutList, k: nat)
    requires Sorted(q) && k < |q|
    ensures (forall i {:trigger q[i]} :: 0 <= i < |q| && i != k ==>
               Remaining(Cancelled(q, k), if i < k then i else i - 1) == Remaining(q, i))
            <==> !Hastens(q, k)
  {
    var q' := Cancelled(q, k);
    forall i | 0 <= i < |q| && i != k
      ensures Remaining(q', if i < k then i else i - 1)
              == (if i < k then Remaining(q, i)
                  else Remaining(q, i) + Max(0, q[k + 1].ticks + q[k].ticks)
                       - Max(0, q[k].ticks) - Max(0, q[k + 1].ticks))
    {
      CancelledRemaining(q, k, i);
    }
    hide Remaining;
    if k + 1 < |q| {
      assert q[k + 1] == q[k + 1];
      assert Remaining(q', (k + 1) - 1)
             == Remaining(q, k + 1) + Max(0, q[k + 1].ticks + q[k].ticks) - Max(0, q[k].ticks)
                                           - Max(0, q[k + 1].ticks);
    }
  }

  lemma CancelKept(q: CalloutList, due: seq<int>, k: nat, now: nat)
    requires Sorted(q) && |due| == |q| && k < |q| && !Hastens(q, k)
    requires forall i :: 0 <= i < |q| ==> now + Remaining(q, i) >= due[i]
    ensures var q', due' := Cancelled(q, k), due[..k] + due[k + 1..];
            Sorted(q') && |due'| == |q'| && forall i :: 0 <= i < |q'| ==> now + Remaining(q', i) >= due'[i]
  {
    hide Sorted, Remaining;
    var q', due' := Cancelled(q, k), due[..k] + due[k + 1..];
    CancelledSorted(q, k);
    forall i | 0 <= i < |q'| ensures now + Remaining(q', i) >= due'[i] {
      var j := if i < k then i else i + 1;
      CancelledRemaining(q, k, j);
      assert due'[i] == due[j];
    }
  }

  lemma CancelledSorted(q: CalloutList, k: nat)
    requires Sorted(q) && k < |q| && !Hastens(q, k)
    ensures Sorted(Cancelled(q, k)) && |Cancelled(q, k)| == |q| - 1
    ensures k + 1 < |q| ==> Max(0, q[k + 1].ticks + q[k].ticks) == Max(0, q[k].ticks) + Max(0, q[k + 1].ticks)
  {
  }

  // ----- the clock

  function Less(e: Entry): Entry { Entry(e.func, e.arg, e.ticks - 1) }

  /** The entries before `i`, none of them positive, are counted down. */
  ghost predicate Counting(q: CalloutList, q': CalloutList, i: nat) {
    && i <= |q| == |q'| && (forall j :: 0 <= j < i ==> q[j].ticks <= 0)
    && forall j :: 0 <= j < |q| ==> q'[j] == if j < i then Less(q[j]) else q[j]
  }

  /** All up to and including the first positive difference are counted down. */
  ghost predicate CountedDown(q: CalloutList, q': CalloutList, i: nat) {
    && i <= |q| == |q'| && (forall j :: 0 <= j < i ==> q[j].ticks <= 0) && (i < |q| ==> q[i].ticks > 0)
    && forall j :: 0 <= j < |q| ==> q'[j] == if j <= i then Less(q[j]) else q[j]
  }

  /** The queue one tick later: what is used up goes on counting, and so does the first entry that is not. */
  function Ticked(q: CalloutList): CalloutList {
    if q == [] then [] else [Less(q[0])] + if q[0].ticks <= 0 then Ticked(q[1..]) else q[1..]
  }

  lemma {:induction false} CountedIsTicked(q: CalloutList, q': CalloutList, i: nat)
    requires CountedDown(q, q', i)
    ensures q' == Ticked(q)
    decreases |q|
  {
    if q != [] {
      assert q' == [q'[0]] + q'[1..];
      if q[0].ticks <= 0 {
        CountedIsTicked(q[1..], q'[1..], i - 1);
      }
    }
  }

  lemma CountStart(q: CalloutList)
    ensures Counting(q, q, 0)
  {
  }

  lemma CountNext(q: CalloutList, q': CalloutList, i: nat)
    requires Counting(q, q', i) && i < |q|
    ensures var e := Less(q'[i]); if e.ticks < 0 then Counting(q, q'[i := e], i + 1) else CountedDown(q, q'[i := e], i)
  {
  }

  lemma CountEnd(q: CalloutList, q': CalloutList, i: nat)
    ensures i == |q| && Counting(q, q', i) ==> CountedDown(q, q', i)
  {
  }

  lemma TickedRemaining(q: CalloutList, q': CalloutList, i: nat)
    requires CountedDown(q, q', i)
    ensures |q'| == |q| && forall k :: 0 <= k < |q| ==> Remaining(q', k) == Max(0, Remaining(q, k) - 1)
    ensures forall k :: 0 <= k < |q| ==> q'[k].func == q[k].func && q'[k].arg == q[k].arg
  {
    forall k | 0 <= k < |q| ensures Remaining(q', k) == Max(0, Remaining(q, k) - 1) {
      RemainingTicked(q, q', i, k);
    }
  }

  lemma RemainingTicked(q: CalloutList, q': CalloutList, i: nat, k: nat)
    requires CountedDown(q, q', i) && k < |q|
    ensures Remaining(q', k) == Max(0, Remaining(q, k) - 1)
  {
    if k < i {
      SumNone(q[..k + 1]);
      SumNone(q'[..k + 1]);
    } else {
      SumNone(q[..i]);
      SumNone(q'[..i]);
      var b := q[i + 1..k + 1];
      assert q'[i + 1..k + 1] == b;
      assert q[..k + 1] == q[..i] + [q[i]] + b;
      assert q'[..k + 1] == q'[..i] + [q'[i]] + b;
      hide Sum;
      SumAround(q[..i], q[i], b);
      SumAround(q'[..i], q'[i], b);
    }
  }

  lemma TickedSorted(q: CalloutList, q': CalloutList, i: nat)
    requires CountedDown(q, q', i) && Sorted(q)
    ensures Sorted(q') && (q != [] ==> (q'[0].ticks <= 0 <==> i > 0 || q[0].ticks == 1))
  {
  }

  lemma PopKept(q: CalloutList, due: seq<int>, now: nat)
    requires Sorted(q) && |due| == |q| && q != [] && q[0].ticks <= 0
    requires forall i :: 0 <= i < |q| ==> now + Remaining(q, i) >= due[i]
    ensures now >= due[0] && Sorted(q[1..])
    ensures forall i :: 0 <= i < |q| - 1 ==> Remaining(q[1..], i) == Remaining(q, i + 1)
    ensures forall i :: 0 <= i < |q| - 1 ==> now + Remaining(q[1..], i) >= due[1..][i]
  {
    SumOne(q[0]);
    assert q[..1] == [q[0]];
    assert Remaining(q, 0) == 0;
    forall i | 0 <= i < |q| - 1 ensures Remaining(q[1..], i) == Remaining(q, i + 1) {
      assert q[..i + 2] == [q[0]] + q[1..][..i + 1];
      SumConcat([q[0]], q[1..][..i + 1]);
    }
  }

  lemma TotalFirst(q: CalloutList)
    requires q != []
    ensures Total(q[..1]) == q[0].ticks
  {
    var f := q[..1];
    assert f[..0] == [];
    assert Total(f[..0]) == 0;
  }

  lemma NotEarlier(q: CalloutList, p: nat, e: Entry, i: nat)
    requires p <= |q| && e.ticks >= 0 && (p == 0 && q != [] ==> e.ticks < q[0].ticks) && i < |q|
    ensures var q' := Inserted(q, p, e); Moved(i, p) < |q'| && Remaining(q', Moved(i, p)) >= Remaining(q, i)
  {
    if p == 0 {
      InsertedFirst(q, e, i);
    } else {
      InsertedInside(q, p, e, i);
    }
  }

  /** An entry that is due no later than the new one is in front of it and is not held up by it. */
  lemma SoonerStays(q: CalloutList, p: nat, e: Entry, wanted: nat, i: nat)
    requires p <= |q| && e.ticks == wanted - Total(q[..p]) >= 0 && (p < |q| ==> q[p].ticks > e.ticks)
    requires i < |q| && Remaining(q, i) <= wanted
    ensures i < p && Moved(i, p) < |Inserted(q, p, e)| && Remaining(Inserted(q, p, e), Moved(i, p)) == Remaining(q, i)
  {
    if i >= p {
      LaterWaits(q, p, e, wanted, i);
      assert false;
    }
    InsertedInside(q, p, e, i);
  }

  lemma LaterWaits(q: CalloutList, p: nat, e: Entry, wanted: nat, i: nat)
    requires p <= i < |q| && e.ticks == wanted - Total(q[..p]) && q[p].ticks > e.ticks
    ensures Remaining(q, i) > wanted
  {
    hide Sum, Total;
    var a, b := q[..p], q[p + 1..i + 1];
    assert q[..i + 1] == a + [q[p]] + b;
    SumAround(a, q[p], b);
    TotalBelow(a);
  }

  /** If nothing is overdue, the new entry waits exactly as long as asked. */
  lemma NewExact(q: CalloutList, p: nat, e: Entry, wanted: nat)
    requires p <= |q| && e.ticks == wanted - Total(q[..p]) >= 0
    ensures p < |Inserted(q, p, e)|
    ensures (forall i :: 0 <= i < |q| ==> q[i].ticks >= 0) ==> Remaining(Inserted(q, p, e), p) == wanted
  {
    var q' := Inserted(q, p, e);
    assert q'[..p + 1] == q[..p] + [e];
    SumConcat(q[..p], [e]);
    SumOne(e);
    if forall i :: 0 <= i < |q| ==> q[i].ticks >= 0 {
      SumTotal(q[..p]);
    }
  }

  lemma {:induction false} SumTotal(q: CalloutList)
    requires forall i :: 0 <= i < |q| ==> q[i].ticks >= 0
    ensures Sum(q) == Total(q)
    decreases |q|
  {
    if q != [] {
      SumTotal(q[..|q| - 1]);
    }
  }

  lemma Kept(q: CalloutList, due: seq<int>, p: nat, e: Entry, now: nat, wanted: nat)
    requires Sorted(q) && |due| == |q| && forall i :: 0 <= i < |q| ==> now + Remaining(q, i) >= due[i]
    requires p <= |q| && e.ticks >= 0 && (p == 0 ==> e.ticks == wanted && (q != [] ==> e.ticks < q[0].ticks))
    requires p > 0 ==> e.ticks == wanted - Total(q[..p])
    requires forall i :: 0 <= p <= i < |q| ==> q[i].ticks >= 0
    ensures var q' := Inserted(q, p, e);
            var due' := due[..p] + [now + wanted] + due[p..];
            && Sorted(q') && |due'| == |q'| == |q| + 1 && q'[p] == e && Remaining(q', p) >= wanted
            && forall i :: 0 <= i < |q'| ==> now + Remaining(q', i) >= due'[i]
  {
    hide Remaining;
    var q' := Inserted(q, p, e);
    var due' := due[..p] + [now + wanted] + due[p..];
    NewWaits(q, p, e, wanted);
    InsertedSorted(q, p, e);
    hide Sorted, Inserted;
    forall i | 0 <= i < |q'| ensures now + Remaining(q', i) >= due'[i] {
      if i != p {
        var j := if i < p then i else i - 1;
        NotEarlier(q, p, e, j);
        assert due'[i] == due[j];
      }
    }
  }

  lemma InsertedSorted(q: CalloutList, p: nat, e: Entry)
    requires Sorted(q) && p <= |q| && e.ticks >= 0 && (p == 0 && q != [] ==> e.ticks < q[0].ticks)
    requires forall i :: 0 <= p <= i < |q| ==> q[i].ticks >= 0
    ensures Sorted(Inserted(q, p, e)) && |Inserted(q, p, e)| == |q| + 1 && Inserted(q, p, e)[p] == e
  {
  }

  // ----- whole runs

  datatype Event = Request(func: nat, arg: nat, wanted: nat) | Cancel(func: nat, arg: nat) | Tick | Run

  /** The time when event `i` happens: the ticks before it. */
  function Clock(es: seq<Event>, i: nat): nat
    requires i <= |es|
  {
    if i == 0 then 0 else Clock(es, i - 1) + if es[i - 1].Tick? then 1 else 0
  }

  /** A function that was called, and when. */
  datatype Call = Call(func: nat, arg: nat, at: nat)

  /** The call goes back to a request for it, made long enough before. */
  predicate Justified(es: seq<Event>, c: Call, request: nat) {
    && request < |es| && es[request].Request? && es[request].func == c.func && es[request].arg == c.arg
    && c.at >= Clock(es, request) + es[request].wanted
  }

  /** The entry goes back to this request. */
  predicate TracedAt(es: seq<Event>, e: Entry, due: int, id: nat) {
    && id < |es| && es[id].Request? && es[id].func == e.func && es[id].arg == e.arg
    && due == Clock(es, id) + es[id].wanted
  }

  ghost predicate Traced(es: seq<Event>, q: CalloutList, due: seq<int>, ids: seq<nat>) {
    |ids| == |q| == |due| && forall i :: 0 <= i < |q| ==> TracedAt(es, q[i], due[i], ids[i])
  }

  lemma TracedRequest(es: seq<Event>, q: CalloutList, due: seq<int>, ids: seq<nat>, p: nat, e: Entry, d: int, id: nat)
    requires Traced(es, q, due, ids) && p <= |q| && TracedAt(es, e, d, id)
    ensures Traced(es, Inserted(q, p, e), due[..p] + [d] + due[p..], ids[..p] + [id] + ids[p..])
  {
    var q', due', ids' := Inserted(q, p, e), due[..p] + [d] + due[p..], ids[..p] + [id] + ids[p..];
    forall i | 0 <= i < |q'| ensures TracedAt(es, q'[i], due'[i], ids'[i]) {
      if i < p {
        assert TracedAt(es, q[i], due[i], ids[i]);
      } else if i > p {
        assert TracedAt(es, q[i - 1], due[i - 1], ids[i - 1]);
      }
    }
  }

  lemma TracedCancel(es: seq<Event>, q: CalloutList, due: seq<int>, ids: seq<nat>, k: nat)
    requires Traced(es, q, due, ids) && k < |q|
    ensures Traced(es, Cancelled(q, k), due[..k] + due[k + 1..], ids[..k] + ids[k + 1..])
  {
    var q', due', ids' := Cancelled(q, k), due[..k] + due[k + 1..], ids[..k] + ids[k + 1..];
    forall i | 0 <= i < |q'| ensures TracedAt(es, q'[i], due'[i], ids'[i]) {
      if i < k {
        assert TracedAt(es, q[i], due[i], ids[i]);
      } else {
        assert TracedAt(es, q[i + 1], due[i + 1], ids[i + 1]);
      }
    }
  }

  /** The queue, the time, and the calls so far. */
  datatype World = World(q: CalloutList, now: nat, calls: seq<Call>)

  function Happened(w: World, e: Event): World {
    match e
    case Request(func, arg, wanted) => w.(q := Requested(w.q, func, arg, wanted))
    case Cancel(func, arg) =>
      var k := FirstFor(w.q, func, arg, 0);
      if k < |w.q| then w.(q := Cancelled(w.q, k)) else w
    case Tick => w.(q := Ticked(w.q), now := w.now + 1)
    case Run =>
      if w.q == [] || w.q[0].ticks > 0 then w
      else World(w.q[1..], w.now, w.calls + [Call(w.q[0].func, w.q[0].arg, w.now)])
  }

  function Replay(es: seq<Event>): World {
    if es == [] then World([], 0, []) else Happened(Replay(es[..|es| - 1]), es[|es| - 1])
  }

  /** The event is a cancellation that brings the next entry forward. */
  predicate Harms(q: CalloutList, e: Event) {
    e.Cancel? && var k := FirstFor(q, e.func, e.arg, 0); k < |q| && Hastens(q, k)
  }

  lemma ReplayNext(es: seq<Event>, n: nat)
    requires n < |es|
    ensures Replay(es[..n + 1]) == Happened(Replay(es[..n]), es[n])
  {
    assert es[..n + 1][..n] == es[..n];
  }

  /**
   Any run of requests, cancellations, clock ticks and calls, up to a cancellation that brings the next entry forward if
   there is one: what is called is what the replay of the events says, and no function is called before the ticks asked
   for have passed.
   */
  method Serve(es: seq<Event>) returns (calls: seq<Call>, n: nat, ghost requests: seq<nat>)
    ensures n <= |es| && calls == Replay(es[..n]).calls && (n < |es| ==> Harms(Replay(es[..n]).q, es[n]))
    ensures |requests| == |calls| && forall i :: 0 <= i < |calls| ==> Justified(es, calls[i], requests[i])
  {
    hide Traced, Justified, Replay, Happened, Harms;
    var c := new CalloutQueue();
    ghost var ids: seq<nat> := [];
    calls, n, requests := [], 0, [];
    NothingTraced(es);
    while n < |es|
      invariant 0 <= n <= |es| && fresh(c) && c.Valid() && c.now == Clock(es, n) && Traced(es, c.q, c.due, ids)
      invariant World(c.q, c.now, calls) == Replay(es[..n])
      invariant |requests| == |calls| && forall i :: 0 <= i < |calls| ==> Justified(es, calls[i], requests[i])
    {
      ReplayNext(es, n);
      var stop;
      calls, stop, ids, requests := Do(c, es, n, calls, ids, requests);
      if stop {
        return;
      }
      n := n + 1;
    }
  }

  /** One event, with the calls so far and the requests they go back to; stop before a cancellation that does harm. */
  method Do(c: CalloutQueue, es: seq<Event>, n: nat, calls0: seq<Call>, ghost ids0: seq<nat>, ghost requests0: seq<nat>)
    returns (calls: seq<Call>, stop: bool, ghost ids: seq<nat>, ghost requests: seq<nat>)
    requires n < |es| && c.Valid() && c.now == Clock(es, n) && Traced(es, c.q, c.due, ids0)
    requires |requests0| == |calls0| && forall i :: 0 <= i < |calls0| ==> Justified(es, calls0[i], requests0[i])
    modifies c
    ensures stop <==> Harms(old(c.q), es[n])
    ensures stop ==> calls == calls0
    ensures !stop ==> c.Valid() && c.now == Clock(es, n + 1) && Traced(es, c.q, c.due, ids)
    ensures !stop ==> World(c.q, c.now, calls) == Happened(World(old(c.q), old(c.now), calls0), es[n])
    ensures |requests| == |calls| && forall i :: 0 <= i < |calls| ==> Justified(es, calls[i], requests[i])
  {
    hide Remaining, Sorted, Inserted, Cancelled, Traced, Requested, Ticked, FirstFor;
    TracedLength(es, c.q, c.due, ids0);
    ghost var q, due := c.q, c.due;
    calls, stop, ids, requests := calls0, false, ids0, requests0;
    match es[n] {
      case Request(func, arg, wanted) =>
        ghost var p := c.Timeout(func, arg, wanted);
        TracedRequest(es, q, due, ids, p, c.q[p], c.now + wanted, n);
        ids := ids[..p] + [n] + ids[p..];
      case Cancel(func, arg) =>
        var k := c.Find(func, arg);
        if k < |c.q| && Hastens(c.q, k) {
          stop := true;
          return;
        }
        ghost var j := c.Untimeout(func, arg);
        if j < |q| {
          TracedCancel(es, q, due, ids, j);
          ids := ids[..j] + ids[j + 1..];
        }
      case Tick =>
        var soft := c.Hardclock();
        TracedTick(es, q, c.q, due, ids);
      case Run =>
        var e := c.Pop();
        if e.Some? {
          TracedPop(es, q, due, ids);
          calls, requests := calls + [Call(e.value.func, e.value.arg, c.now)], requests + [ids[0]];
          ids := ids[1..];
        }
    }
  }

  /** A timer two ticks overdue is cancelled while another has one tick to go. */
  function EarlyRun(): seq<Event> {
    [Request(1, 0, 1), Request(2, 0, 4), Tick, Tick, Tick, Cancel(1, 0), Run]
  }

  /** In that run the other is called after three ticks, although four were asked for; no request justifies the call. */
  lemma EarlyAfterCancel()
    ensures Replay(EarlyRun()).calls == [Call(2, 0, 3)]
    ensures forall request: nat :: !Justified(EarlyRun(), Call(2, 0, 3), request)
    ensures Harms(Replay(EarlyRun()[..5]).q, EarlyRun()[5])
  {
    var es := EarlyRun();
    EarlySteps(es);
    forall request: nat ensures !Justified(es, Call(2, 0, 3), request) {
      if request < |es| && es[request].Request? && es[request].func == 2 {
        assert request == 1;
        assert Clock(es, 0) == 0 && Clock(es, 1) == 0;
      }
    }
  }

  lemma EarlySteps(es: seq<Event>)
    requires es == EarlyRun()
    ensures Replay(es) == World([], 3, [Call(2, 0, 3)]) && Harms(Replay(es[..5]).q, es[5])
  {
    EarlyEvents(es);
    hide EarlyRun, Replay, Harms;
    TwoRequests(es);
    ThreeTicks(es);
    CancelAndRun(es);
  }

  lemma EarlyEvents(es: seq<Event>)
    requires es == EarlyRun()
    ensures |es| == 7 && es[0] == Request(1, 0, 1) && es[1] == Request(2, 0, 4) && es[2] == es[3] == es[4] == Tick
    ensures es[5] == Cancel(1, 0) && es[6] == Run
  {
  }

  lemma CancelAndRun(es: seq<Event>)
    requires |es| == 7 && es[5] == Cancel(1, 0) && es[6] == Run
    requires Replay(es[..5]) == World([Entry(1, 0, -2), Entry(2, 0, 1)], 3, [])
    ensures Replay(es) == World([], 3, [Call(2, 0, 3)]) && Harms(Replay(es[..5]).q, es[5])
  {
    hide Replay, FirstFor, Cancelled;
    CancelFirst();
    ReplayNext(es, 5);
    ReplayNext(es, 6);
    assert es[..7] == es;
    var w := Replay(es[..6]);
    assert w == World([Entry(2, 0, -1)], 3, []);
    assert w.q[1..] == [];
  }

  lemma TwoRequests(es: seq<Event>)
    requires |es| == 7 && es[0] == Request(1, 0, 1) && es[1] == Request(2, 0, 4)
    ensures Replay(es[..2]) == World([Entry(1, 0, 1), Entry(2, 0, 3)], 0, [])
  {
    assert Replay(es[..0]) == World([], 0, []);
    hide Replay, Requested, Ticked;
    ReplayNext(es, 0);
    ReplayNext(es, 1);
    FirstRequest();
    SecondRequest();
  }

  lemma ThreeTicks(es: seq<Event>)
    requires |es| == 7 && es[2] == es[3] == es[4] == Tick
    requires Replay(es[..2]) == World([Entry(1, 0, 1), Entry(2, 0, 3)], 0, [])
    ensures Replay(es[..5]) == World([Entry(1, 0, -2), Entry(2, 0, 1)], 3, [])
  {
    hide Replay, Ticked;
    ReplayNext(es, 2);
    ReplayNext(es, 3);
    ReplayNext(es, 4);
    TickTwo(1, 3);
    TickTwo(0, 3);
    TickTwo(-1, 2);
  }

  /** One tick of a queue of two timers. */
  lemma TickTwo(a: int, b: int)
    requires b > 0
    ensures Ticked([Entry(1, 0, a), Entry(2, 0, b)]) == [Entry(1, 0, a - 1), Entry(2, 0, if a <= 0 then b - 1 else b)]
  {
    var q: CalloutList := [Entry(1, 0, a), Entry(2, 0, b)];
    assert q[1..] == [Entry(2, 0, b)] && q[1..][1..] == [];
  }

  lemma FirstRequest()
    ensures Requested([], 1, 0, 1) == [Entry(1, 0, 1)]
  {
    var q: CalloutList := [];
    assert Total(q[..0]) == 0;
  }

  lemma SecondRequest()
    ensures Requested([Entry(1, 0, 1)], 2, 0, 4) == [Entry(1, 0, 1), Entry(2, 0, 3)]
  {
    var q: CalloutList := [Entry(1, 0, 1)];
    TotalFirst(q);
    assert PlaceOf(q, 4) == 1;
  }

  lemma CancelFirst()
    ensures var q := [Entry(1, 0, -2), Entry(2, 0, 1)];
            FirstFor(q, 1, 0, 0) == 0 && Cancelled(q, 0) == [Entry(2, 0, -1)]
  {
  }

  lemma NothingTraced(es: seq<Event>)
    ensures Traced(es, [], [], []) && Replay(es[..0]) == World([], 0, [])
  {
  }

  lemma TracedLength(es: seq<Event>, q: CalloutList, due: seq<int>, ids: seq<nat>)
    requires Traced(es, q, due, ids)
    ensures |ids| == |q| == |due|
  {
  }

  lemma TracedTick(es: seq<Event>, q: CalloutList, q': CalloutList, due: seq<int>, ids: seq<nat>)
    requires Traced(es, q, due, ids) && |q'| == |q|
    requires forall i :: 0 <= i < |q| ==> q'[i].func == q[i].func && q'[i].arg == q[i].arg
    ensures Traced(es, q', due, ids)
  {
    forall i | 0 <= i < |q'| ensures TracedAt(es, q'[i], due[i], ids[i]) {
      assert TracedAt(es, q[i], due[i], ids[i]);
    }
  }

  lemma TracedPop(es: seq<Event>, q: CalloutList, due: seq<int>, ids: seq<nat>)
    requires Traced(es, q, due, ids) && q != []
    ensures |due| == |ids| == |q| && Traced(es, q[1..], due[1..], ids[1..]) && TracedAt(es, q[0], due[0], ids[0])
  {
  }
}

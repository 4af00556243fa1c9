/** Behaviour of the reassembler of src/pystream/core/receiver.py under loss, duplication,
    reordering and slot sharing. Each scenario names datagrams by their decoded header; the
    sender's datagrams have this form (Sender.ItemPacketLayout). */
module Scenarios {
  import opened Bytes
  import opened HeaderCodec
  import opened Receiver

  /** w is a datagram of at least 16 bytes, with header h, that fits the receive buffer. */
  predicate IsDatagram(w: seq<byte>, h: Header, bufsize: nat) {
    PACKET_HEADER_SIZE <= |w| <= bufsize && HeaderOf(w) == h
  }

  function Payload(w: seq<byte>): seq<byte>
    requires |w| >= PACKET_HEADER_SIZE
  {
    w[PACKET_HEADER_SIZE..]
  }

  /** One datagram that completes no frame. */
  lemma ArriveQuietly(t: Table, w: seq<byte>, rest: seq<Event>, bufsize: nat)
    requires WellFormed(t) && PACKET_HEADER_SIZE <= |w| <= bufsize && Receive(t, w).result == Nothing
    ensures RunFrom(t, [Datagram(w)] + rest, bufsize) == RunFrom(Receive(t, w).table, rest, bufsize)
  {
    var es := [Datagram(w)] + rest;
    assert es[1..] == rest;
    RunDatagram(t, es, bufsize);
  }

  /** One datagram that completes a frame. */
  lemma ArriveCompleting(t: Table, w: seq<byte>, rest: seq<Event>, bufsize: nat)
    requires WellFormed(t) && PACKET_HEADER_SIZE <= |w| <= bufsize && Receive(t, w).result.Completed?
    ensures var r := Receive(t, w).result;
      RunFrom(t, [Datagram(w)] + rest, bufsize) ==
        PrependFrames([(r.dataIndex, r.data)], RunFrom(Receive(t, w).table, rest, bufsize))
  {
    var es := [Datagram(w)] + rest;
    assert es[1..] == rest;
    RunDatagram(t, es, bufsize);
  }

  /** A first fragment of a frame of several fragments starts it in its slot. */
  lemma Begin(t: Table, w: seq<byte>, m: int, d: int, frags: seq<seq<byte>>, bufsize: nat)
    requires WellFormed(t) && IsDatagram(w, Header(m, d, 1, |frags|), bufsize)
    requires |frags| > 1 && Payload(w) == frags[0]
    ensures Receive(t, w).result == Nothing && Holds(Receive(t, w).table, d, frags, 1)
  {
    FirstFragmentResets(t, w);
    CompletesWhenCountsMeet(t, w);
  }

  /** A frame of one fragment is yielded as soon as it arrives. */
  lemma Single(t: Table, w: seq<byte>, m: int, d: int, bufsize: nat)
    requires WellFormed(t) && IsDatagram(w, Header(m, d, 1, 1), bufsize)
    ensures Receive(t, w).result == Completed(d, Payload(w))
  {
    FirstFragmentResets(t, w);
    CompletesWhenCountsMeet(t, w);
    assert Receive(t, w).table[d % SLOT_COUNT].cells[..1] == [Payload(w)];
    assert Join([Payload(w)]) == Payload(w) + Join([]);
  }

  /** Fragment k + 1, not the last, of a frame whose slot holds its first k fragments. */
  lemma Continue(t: Table, w: seq<byte>, m: int, d: int, frags: seq<seq<byte>>, k: nat, bufsize: nat)
    requires WellFormed(t) && Holds(t, d, frags, k) && 1 <= k && k + 1 < |frags| <= CELL_COUNT
    requires IsDatagram(w, Header(m, d, k + 1, |frags|), bufsize) && Payload(w) == frags[k]
    ensures Receive(t, w).result == Nothing && Holds(Receive(t, w).table, d, frags, k + 1)
  {
    LaterFragmentAccumulates(t, w);
    CompletesWhenCountsMeet(t, w);
  }

  /** The last fragment of a frame whose slot holds all the others completes it. */
  lemma Finish(t: Table, w: seq<byte>, m: int, d: int, frags: seq<seq<byte>>, bufsize: nat)
    requires WellFormed(t) && 2 <= |frags| <= CELL_COUNT && Holds(t, d, frags, |frags| - 1)
    requires IsDatagram(w, Header(m, d, |frags|, |frags|), bufsize) && Payload(w) == frags[|frags| - 1]
    ensures Receive(t, w).result == Completed(d, Join(frags)) && Holds(Receive(t, w).table, d, frags, |frags|)
  {
    var n := |frags|;
    LaterFragmentAccumulates(t, w);
    CompletesWhenCountsMeet(t, w);
    var s := Receive(t, w).table[d % SLOT_COUNT];
    assert s == SlotState(t[d % SLOT_COUNT].cells[n - 1 := frags[n - 1]], n, n);
    assert s.cells[..Min(n, CELL_COUNT)] == frags;
  }

  /** Once a slot's counts have met, a later fragment of the same slot overshoots the count and
      completes nothing. */
  lemma Overshoot(t: Table, w: seq<byte>, d: int, frags: seq<seq<byte>>, bufsize: nat)
    requires WellFormed(t) && Holds(t, d, frags, |frags|) && PACKET_HEADER_SIZE <= |w|
    requires HeaderOf(w).dataIndex % SLOT_COUNT == d % SLOT_COUNT && 2 <= HeaderOf(w).packetIndex <= CELL_COUNT
    ensures Receive(t, w).result == Nothing
  {
    LaterFragmentAccumulates(t, w);
    CompletesWhenCountsMeet(t, w);
  }

  /** A datagram for another slot leaves a frame's progress as it was. */
  lemma Elsewhere(t: Table, w: seq<byte>, d: int, frags: seq<seq<byte>>, k: nat)
    requires WellFormed(t) && Holds(t, d, frags, k) && |w| >= PACKET_HEADER_SIZE
    requires HeaderOf(w).dataIndex % SLOT_COUNT != d % SLOT_COUNT
    ensures Holds(Receive(t, w).table, d, frags, k)
  {
  }

  /** data_index values 100 apart share a slot. */
  lemma SlotShift(d: int)
    ensures (d + SLOT_COUNT) % SLOT_COUNT == d % SLOT_COUNT
  {
    var q, r := d / SLOT_COUNT, d % SLOT_COUNT;
    assert d + SLOT_COUNT == (q + 1) * SLOT_COUNT + r;
  }

  /** Consecutive data_index values do not. */
  lemma NextSlot(d: int)
    ensures (d + 1) % SLOT_COUNT != d % SLOT_COUNT
  {
  }

  /** t1 differs from t at most in the slot of data_index d. */
  predicate OnlySlot(t: Table, t1: Table, d: int)
    requires WellFormed(t) && WellFormed(t1)
  {
    forall i :: 0 <= i < SLOT_COUNT && i != d % SLOT_COUNT ==> t1[i] == t[i]
  }

  // The same four steps stated on runs; t1 is the table after the datagram.

  lemma RunBegin(t: Table, w: seq<byte>, m: int, d: int, frags: seq<seq<byte>>, rest: seq<Event>, bufsize: nat)
    returns (t1: Table)
    requires WellFormed(t) && IsDatagram(w, Header(m, d, 1, |frags|), bufsize)
    requires |frags| > 1 && Payload(w) == frags[0]
    ensures WellFormed(t1) && Holds(t1, d, frags, 1) && OnlySlot(t, t1, d)
    ensures RunFrom(t, [Datagram(w)] + rest, bufsize) == RunFrom(t1, rest, bufsize)
  {
    Begin(t, w, m, d, frags, bufsize);
    t1 := Receive(t, w).table;
    ArriveQuietly(t, w, rest, bufsize);
  }

  lemma RunSingle(t: Table, w: seq<byte>, m: int, d: int, rest: seq<Event>, bufsize: nat)
    returns (t1: Table)
    requires WellFormed(t) && IsDatagram(w, Header(m, d, 1, 1), bufsize)
    ensures WellFormed(t1) && OnlySlot(t, t1, d)
    ensures RunFrom(t, [Datagram(w)] + rest, bufsize) == PrependFrames([(d, Payload(w))], RunFrom(t1, rest, bufsize))
  {
    Single(t, w, m, d, bufsize);
    t1 := Receive(t, w).table;
    ArriveCompleting(t, w, rest, bufsize);
  }

  lemma RunContinue(t: Table, w: seq<byte>, m: int, d: int, frags: seq<seq<byte>>, k: nat, rest: seq<Event>, bufsize: nat)
    returns (t1: Table)
    requires WellFormed(t) && Holds(t, d, frags, k) && 1 <= k && k + 1 < |frags| <= CELL_COUNT
    requires IsDatagram(w, Header(m, d, k + 1, |frags|), bufsize) && Payload(w) == frags[k]
    ensures WellFormed(t1) && Holds(t1, d, frags, k + 1) && OnlySlot(t, t1, d)
    ensures RunFrom(t, [Datagram(w)] + rest, bufsize) == RunFrom(t1, rest, bufsize)
  {
    Continue(t, w, m, d, frags, k, bufsize);
    t1 := Receive(t, w).table;
    ArriveQuietly(t, w, rest, bufsize);
  }

  lemma RunFinish(t: Table, w: seq<byte>, m: int, d: int, frags: seq<seq<byte>>, rest: seq<Event>, bufsize: nat)
    returns (t1: Table)
    requires WellFormed(t) && 2 <= |frags| <= CELL_COUNT && Holds(t, d, frags, |frags| - 1)
    requires IsDatagram(w, Header(m, d, |frags|, |frags|), bufsize) && Payload(w) == frags[|frags| - 1]
    ensures WellFormed(t1) && Holds(t1, d, frags, |frags|) && OnlySlot(t, t1, d)
    ensures RunFrom(t, [Datagram(w)] + rest, bufsize) == PrependFrames([(d, Join(frags))], RunFrom(t1, rest, bufsize))
  {
    Finish(t, w, m, d, frags, bufsize);
    t1 := Receive(t, w).table;
    ArriveCompleting(t, w, rest, bufsize);
  }

  lemma RunOvershoot(t: Table, w: seq<byte>, d: int, frags: seq<seq<byte>>, rest: seq<Event>, bufsize: nat)
    returns (t1: Table)
    requires WellFormed(t) && Holds(t, d, frags, |frags|) && PACKET_HEADER_SIZE <= |w| <= bufsize
    requires HeaderOf(w).dataIndex % SLOT_COUNT == d % SLOT_COUNT && 2 <= HeaderOf(w).packetIndex <= CELL_COUNT
    ensures WellFormed(t1)
    ensures RunFrom(t, [Datagram(w)] + rest, bufsize) == RunFrom(t1, rest, bufsize)
  {
    Overshoot(t, w, d, frags, bufsize);
    t1 := Receive(t, w).table;
    ArriveQuietly(t, w, rest, bufsize);
  }

  lemma JoinTwo(a: seq<byte>, b: seq<byte>)
    ensures Join([a, b]) == a + b
  {
    assert [a, b][1..] == [b];
    assert Join([b]) == b + Join([]);
  }

  /** Completion follows the arrival of each frame's last fragment, not data_index order: when
      all fragments of frame db arrive before the last fragment of frame da, in another slot
      (consecutive indexes qualify, NextSlot), db is yielded first. Any table, any fragment
      counts up to 100. */
  lemma OutOfOrderCompletion(t: Table, da: int, pa: seq<seq<byte>>, fa: seq<seq<byte>>,
                             db: int, pb: seq<seq<byte>>, fb: seq<seq<byte>>, bufsize: nat)
    requires WellFormed(t) && da % SLOT_COUNT != db % SLOT_COUNT
    requires Carries(pa, da, fa, bufsize) && 1 <= |pa| <= CELL_COUNT
    requires Carries(pb, db, fb, bufsize) && 1 <= |pb| <= CELL_COUNT
    ensures var n := |pa|;
      var r := RunFrom(t, AsEvents(pa[..n - 1]) + AsEvents(pb) + AsEvents([pa[n - 1]]), bufsize);
      r.frames == [(db, Join(fb)), (da, Join(fa))] && r.stop == Exhausted
  {
    var n := |pa|;
    var e1, e2, e3 := AsEvents(pa[..n - 1]), AsEvents(pb), AsEvents([pa[n - 1]]);
    OtherFrameBetween(t, da, pa, fa, db, pb, fb, bufsize);
    var r := RunFrom(t, e1 + e2, bufsize);
    RunAppend(t, e1 + e2, e3, bufsize);
    LastFragmentCompletes(r.table, da, pa, fa, bufsize);
  }

  /** The first |pa| - 1 fragments of frame da, then all of frame db in another slot: db is
      yielded, and da's slot still holds its fragments so far. */
  lemma OtherFrameBetween(t: Table, da: int, pa: seq<seq<byte>>, fa: seq<seq<byte>>,
                          db: int, pb: seq<seq<byte>>, fb: seq<seq<byte>>, bufsize: nat)
    requires WellFormed(t) && da % SLOT_COUNT != db % SLOT_COUNT
    requires Carries(pa, da, fa, bufsize) && 1 <= |pa| <= CELL_COUNT
    requires Carries(pb, db, fb, bufsize) && 1 <= |pb| <= CELL_COUNT
    ensures var n := |pa|;
      var r := RunFrom(t, AsEvents(pa[..n - 1]) + AsEvents(pb), bufsize);
      r.frames == [(db, Join(fb))] && r.stop == Exhausted && (n > 1 ==> Holds(r.table, da, fa, n - 1))
  {
    var n := |pa|;
    var e1, e2 := AsEvents(pa[..n - 1]), AsEvents(pb);
    var r1 := RunFrom(t, e1, bufsize);
    assert r1.frames == [] && r1.stop == Exhausted && (n > 1 ==> Holds(r1.table, da, fa, n - 1)) by {
      if n > 1 {
        ReceivePartial(t, pa, da, fa, bufsize, n - 1);
      } else {
        assert e1 == [];
      }
    }
    var r2 := RunFrom(r1.table, e2, bufsize);
    assert RunFrom(t, e1 + e2, bufsize) == PrependFrames([], r2) by {
      RunAppend(t, e1, e2, bufsize);
    }
    assert r2.frames == [(db, Join(fb))] && r2.stop == Exhausted by {
      ReceiveItem(r1.table, pb, db, fb, bufsize);
    }
    assert r2.table[da % SLOT_COUNT] == r1.table[da % SLOT_COUNT] by {
      RunKeepsOtherSlots(r1.table, pb, da % SLOT_COUNT, bufsize);
    }
    assert [] + r2.frames == r2.frames;
  }

  /** The last fragment of frame da completes it, once its slot holds all the others (or at
      once, for a frame of one fragment). */
  lemma LastFragmentCompletes(t: Table, da: int, pa: seq<seq<byte>>, fa: seq<seq<byte>>, bufsize: nat)
    requires WellFormed(t) && Carries(pa, da, fa, bufsize) && 1 <= |pa| <= CELL_COUNT
    requires |pa| > 1 ==> Holds(t, da, fa, |pa| - 1)
    ensures var r := RunFrom(t, AsEvents([pa[|pa| - 1]]), bufsize);
      r.frames == [(da, Join(fa))] && r.stop == Exhausted
  {
    var n := |pa|;
    if n > 1 {
      assert pa[n - 1..] == [pa[n - 1]];
      ReceiveRest(t, pa, da, fa, bufsize, n - 1);
    } else {
      assert pa == [pa[n - 1]];
      ReceiveItem(t, pa, da, fa, bufsize);
    }
  }

  /** Fragments of a slot whose received count has reached its expected count, none of them a
      first fragment: each pushes received further past expected, so none completes a frame. */
  lemma {:induction false} StrayFragments(t: Table, ws: seq<seq<byte>>, slot: nat, bufsize: nat)
    requires WellFormed(t) && slot < SLOT_COUNT && t[slot].received >= t[slot].expected
    requires forall k :: 0 <= k < |ws| ==>
      PACKET_HEADER_SIZE <= |ws[k]| <= bufsize && HeaderOf(ws[k]).dataIndex % SLOT_COUNT == slot &&
      2 <= HeaderOf(ws[k]).packetIndex <= CELL_COUNT
    ensures var r := RunFrom(t, AsEvents(ws), bufsize);
      r.frames == [] && r.stop == Exhausted && r.table[slot].received >= r.table[slot].expected
    decreases |ws|
  {
    if ws != [] {
      var w := ws[0];
      assert ws[0..] == ws;
      AsEventsSuffix(ws, 0);
      assert Truncate(w, bufsize) == w;
      RunDatagram(t, AsEvents(ws), bufsize);
      LaterFragmentAccumulates(t, w);
      CompletesWhenCountsMeet(t, w);
      var t1 := Receive(t, w).table;
      StrayFragments(t1, ws[1..], slot, bufsize);
    }
  }

  /** The frame d + 100 that takes over the slot of frame d completes from its own m <= 100
      fragments, whatever the slot held before; later fragments of d, none of them its first,
      complete nothing. */
  lemma LaterFrameTakesSlot(t: Table, d: int, pb: seq<seq<byte>>, fb: seq<seq<byte>>, strays: seq<seq<byte>>, bufsize: nat)
    requires WellFormed(t) && Carries(pb, d + SLOT_COUNT, fb, bufsize) && 1 <= |pb| <= CELL_COUNT
    requires forall k :: 0 <= k < |strays| ==>
      PACKET_HEADER_SIZE <= |strays[k]| <= bufsize && HeaderOf(strays[k]).dataIndex == d &&
      2 <= HeaderOf(strays[k]).packetIndex <= CELL_COUNT
    ensures var r := RunFrom(t, AsEvents(pb) + AsEvents(strays), bufsize);
      r.frames == [(d + SLOT_COUNT, Join(fb))] && r.stop == Exhausted
  {
    SlotShift(d);
    ReceiveItem(t, pb, d + SLOT_COUNT, fb, bufsize);
    var first := RunFrom(t, AsEvents(pb), bufsize);
    RunAppend(t, AsEvents(pb), AsEvents(strays), bufsize);
    StrayFragments(first.table, strays, d % SLOT_COUNT, bufsize);
    assert first.frames + [] == first.frames;
  }

  /** Slot sharing as designed: frame d, of n <= 100 fragments, has received its first j < n
      when all m <= 100 fragments of frame d + 100 arrive, then the rest of d. The later frame
      resets the shared slot and is yielded; the earlier one is never yielded. */
  lemma SlotReuseDropsEarlierFrame(t: Table, d: int, pa: seq<seq<byte>>, fa: seq<seq<byte>>, j: nat,
                                   pb: seq<seq<byte>>, fb: seq<seq<byte>>, bufsize: nat)
    requires WellFormed(t)
    requires Carries(pa, d, fa, bufsize) && 1 <= j < |pa| <= CELL_COUNT
    requires Carries(pb, d + SLOT_COUNT, fb, bufsize) && 1 <= |pb| <= CELL_COUNT
    ensures var r := RunFrom(t, AsEvents(pa[..j]) + AsEvents(pb) + AsEvents(pa[j..]), bufsize);
      r.frames == [(d + SLOT_COUNT, Join(fb))] && r.stop == Exhausted
  {
    ReceivePartial(t, pa, d, fa, bufsize, j);
    var first := RunFrom(t, AsEvents(pa[..j]), bufsize);
    var rest := AsEvents(pb) + AsEvents(pa[j..]);
    assert AsEvents(pa[..j]) + AsEvents(pb) + AsEvents(pa[j..]) == AsEvents(pa[..j]) + rest;
    RunAppend(t, AsEvents(pa[..j]), rest, bufsize);
    var strays := pa[j..];
    forall k | 0 <= k < |strays|
      ensures PACKET_HEADER_SIZE <= |strays[k]| <= bufsize && HeaderOf(strays[k]).dataIndex == d &&
        2 <= HeaderOf(strays[k]).packetIndex <= CELL_COUNT
    {
      assert strays[k] == pa[j + k];
    }
    LaterFrameTakesSlot(first.table, d, pb, fb, strays, bufsize);
    assert [] + RunFrom(first.table, rest, bufsize).frames == RunFrom(first.table, rest, bufsize).frames;
  }

  /** Slot sharing with interleaved fragments: frames A (data_index d) and B (d + 100) of two
      fragments each arrive as A1, B1, A2, B2. B1 resets the slot, A2 then meets its count, and the
      receiver yields data_index d carrying B's first fragment and A's second; B is never yielded. */
  lemma SlotReuseMixesFrames(t: Table, d: nat, a1: seq<byte>, b1: seq<byte>, a2: seq<byte>, b2: seq<byte>, bufsize: nat)
    requires WellFormed(t)
    requires IsDatagram(a1, Header(0, d, 1, 2), bufsize) && IsDatagram(b1, Header(0, d + SLOT_COUNT, 1, 2), bufsize)
    requires IsDatagram(a2, Header(0, d, 2, 2), bufsize) && IsDatagram(b2, Header(0, d + SLOT_COUNT, 2, 2), bufsize)
    ensures var r := RunFrom(t, [Datagram(a1), Datagram(b1), Datagram(a2), Datagram(b2)], bufsize);
      r.frames == [(d, Payload(b1) + Payload(a2))] && r.stop == Exhausted
  {
    var fb := [Payload(b1), Payload(b2)];
    var mixed := [Payload(b1), Payload(a2)];
    SlotShift(d);
    assert [Datagram(a1), Datagram(b1), Datagram(a2), Datagram(b2)] ==
      [Datagram(a1)] + ([Datagram(b1)] + ([Datagram(a2)] + ([Datagram(b2)] + [])));
    var t1 := RunBegin(t, a1, 0, d, [Payload(a1), Payload(a2)], [Datagram(b1)] + ([Datagram(a2)] + ([Datagram(b2)] + [])), bufsize);
    var t2 := RunBegin(t1, b1, 0, d + SLOT_COUNT, fb, [Datagram(a2)] + ([Datagram(b2)] + []), bufsize);
    assert Holds(t2, d, mixed, 1);
    var t3 := RunFinish(t2, a2, 0, d, mixed, [Datagram(b2)] + [], bufsize);
    var t4 := RunOvershoot(t3, b2, d, mixed, [], bufsize);
    JoinTwo(Payload(b1), Payload(a2));
  }

  /** Only counts are compared: of a frame of three fragments, the second arriving twice and the
      third lost, the receiver yields the first two payloads joined with whatever the slot's
      third cell held before, a stale fragment or nothing at all. */
  lemma DuplicateMasksLoss(t: Table, d: nat, a1: seq<byte>, a2: seq<byte>, bufsize: nat)
    requires WellFormed(t)
    requires IsDatagram(a1, Header(0, d, 1, 3), bufsize) && IsDatagram(a2, Header(0, d, 2, 3), bufsize)
    ensures var r := RunFrom(t, [Datagram(a1), Datagram(a2), Datagram(a2)], bufsize);
      r.frames == [(d, Payload(a1) + Payload(a2) + t[d % SLOT_COUNT].cells[2])] && r.stop == Exhausted
  {
    var f := [Payload(a1), Payload(a2), t[d % SLOT_COUNT].cells[2]];
    assert [Datagram(a1), Datagram(a2), Datagram(a2)] == [Datagram(a1)] + ([Datagram(a2)] + ([Datagram(a2)] + []));
    var t1 := RunBeginKeeping(t, a1, d, f, [Datagram(a2)] + ([Datagram(a2)] + []), bufsize);
    var t2 := RunContinueKeeping(t1, a2, d, f, [Datagram(a2)] + [], bufsize);
    RunRepeat(t2, a2, d, f, bufsize);
    JoinThree(f[0], f[1], f[2]);
  }

  /** Cell j of the slot of data_index d holds c. */
  predicate CellHolds(t: Table, d: int, j: nat, c: seq<byte>)
    requires WellFormed(t)
  {
    j < CELL_COUNT && t[d % SLOT_COUNT].cells[j] == c
  }

  /** The first fragment of a frame of three leaves the slot's third cell as it was. */
  lemma RunBeginKeeping(t: Table, w: seq<byte>, d: int, f: seq<seq<byte>>, rest: seq<Event>, bufsize: nat)
    returns (t1: Table)
    requires WellFormed(t) && IsDatagram(w, Header(0, d, 1, 3), bufsize)
    requires |f| == 3 && Payload(w) == f[0] && CellHolds(t, d, 2, f[2])
    ensures WellFormed(t1) && Holds(t1, d, f, 1) && CellHolds(t1, d, 2, f[2])
    ensures RunFrom(t, [Datagram(w)] + rest, bufsize) == RunFrom(t1, rest, bufsize)
  {
    Begin(t, w, 0, d, f, bufsize);
    FirstFragmentResets(t, w);
    t1 := Receive(t, w).table;
    ArriveQuietly(t, w, rest, bufsize);
  }

  /** So does the second. */
  lemma RunContinueKeeping(t: Table, w: seq<byte>, d: int, f: seq<seq<byte>>, rest: seq<Event>, bufsize: nat)
    returns (t1: Table)
    requires WellFormed(t) && IsDatagram(w, Header(0, d, 2, 3), bufsize)
    requires |f| == 3 && Payload(w) == f[1] && Holds(t, d, f, 1) && CellHolds(t, d, 2, f[2])
    ensures WellFormed(t1) && Holds(t1, d, f, 2) && CellHolds(t1, d, 2, f[2])
    ensures RunFrom(t, [Datagram(w)] + rest, bufsize) == RunFrom(t1, rest, bufsize)
  {
    Continue(t, w, 0, d, f, 1, bufsize);
    LaterFragmentAccumulates(t, w);
    t1 := Receive(t, w).table;
    ArriveQuietly(t, w, rest, bufsize);
  }

  /** The second fragment again: the count reaches three and the slot's three cells are joined. */
  lemma RunRepeat(t: Table, w: seq<byte>, d: int, f: seq<seq<byte>>, bufsize: nat)
    requires WellFormed(t) && IsDatagram(w, Header(0, d, 2, 3), bufsize)
    requires |f| == 3 && Payload(w) == f[1] && Holds(t, d, f, 2) && CellHolds(t, d, 2, f[2])
    ensures RunFrom(t, [Datagram(w)], bufsize) == Run([(d, Join(f))], Receive(t, w).table, Exhausted)
  {
    LaterFragmentAccumulates(t, w);
    CompletesWhenCountsMeet(t, w);
    assert Receive(t, w).table[d % SLOT_COUNT].cells[..3] == f;
    ArriveCompleting(t, w, [], bufsize);
    assert [Datagram(w)] + [] == [Datagram(w)];
  }

  lemma JoinThree(a: seq<byte>, b: seq<byte>, c: seq<byte>)
    ensures Join([a, b, c]) == a + b + c
  {
    assert [a, b, c][1..] == [b, c];
    JoinTwo(b, c);
  }

  /** A first fragment that arrives after the second restarts the count, so a frame of two
      fragments whose first one was overtaken is not yielded. */
  lemma OvertakenFirstFragment(d: nat, a1: seq<byte>, a2: seq<byte>, bufsize: nat)
    requires IsDatagram(a2, Header(0, d, 2, 2), bufsize) && IsDatagram(a1, Header(0, d, 1, 2), bufsize)
    ensures var r := RunFrom(InitialTable(), [Datagram(a2), Datagram(a1)], bufsize);
      r.frames == [] && r.stop == Exhausted
  {
    var t := InitialTable();
    LaterFragmentAccumulates(t, a2);
    CompletesWhenCountsMeet(t, a2);
    var t1 := Receive(t, a2).table;
    Begin(t1, a1, 0, d, [Payload(a1), Payload(a2)], bufsize);
    ArriveQuietly(t1, a1, [], bufsize);
    ArriveQuietly(t, a2, [Datagram(a1)], bufsize);
    assert [Datagram(a2)] + [Datagram(a1)] == [Datagram(a2), Datagram(a1)];
  }
}

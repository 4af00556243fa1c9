/** The reassembler of src/pystream/core/receiver.py: `receive_stream_via_udp` keeps a table `db`
    of 100 slots, each `[cells, received, expected]` with 100 cells, files every datagram under
    slot `data_index % 100` and yields `(data_index, payload)` when a slot's received count
    reaches its expected count. The socket is replaced by a finite sequence of receive events. */
module Receiver {
  import opened Exceptions
  import opened Bytes
  import opened HeaderCodec
  import opened Validation

  const SLOT_COUNT: nat := 100
  const CELL_COUNT: nat := 100

  // ---- the table as a value --------------------------------------------------------------

  /** One entry `[cells, received, expected]` of `db`. */
  datatype SlotState = SlotState(cells: seq<seq<byte>>, received: int, expected: int)

  type Table = seq<SlotState>

  predicate WellFormed(t: Table) {
    |t| == SLOT_COUNT && forall i :: 0 <= i < |t| ==> |t[i].cells| == CELL_COUNT
  }

  /** `[b""] * 100` */
  function EmptyCells(): (c: seq<seq<byte>>)
    ensures |c| == CELL_COUNT && forall k :: 0 <= k < |c| ==> c[k] == []
  {
    seq(CELL_COUNT, _ => [])
  }

  /** `[[[b""] * 100, 0, 0] for _ in range(100)]` (receiver.py:18). */
  function InitialTable(): (t: Table)
    ensures WellFormed(t)
    ensures forall i :: 0 <= i < |t| ==> t[i] == SlotState(EmptyCells(), 0, 0)
  {
    seq(SLOT_COUNT, _ => SlotState(EmptyCells(), 0, 0))
  }

  /** Where `cells[packet_index - 1]` lands in a list of 100 cells: a negative index counts from
      the end, as Python does, and one past either end raises IndexError (None). */
  function CellIndex(packetIndex: int): (c: Option<nat>)
    ensures 1 <= packetIndex <= CELL_COUNT ==> c == Some(packetIndex - 1)
    ensures packetIndex == 0 ==> c == Some(CELL_COUNT - 1)
    ensures packetIndex > CELL_COUNT ==> c == None
    ensures c.Some? ==> c.value < CELL_COUNT
  {
    var i := packetIndex - 1;
    if -(CELL_COUNT as int) <= i < 0 then Some(i + CELL_COUNT)
    else if 0 <= i < CELL_COUNT then Some(i)
    else None
  }

  /** What handling one datagram leads to. */
  datatype StepResult = Nothing | Completed(dataIndex: int, data: seq<byte>) | Failed(error: Error)

  datatype Reception = Reception(table: Table, result: StepResult)

  /** The header of a datagram that has at least 16 bytes. */
  function HeaderOf(bytes: seq<byte>): Header
    requires |bytes| >= PACKET_HEADER_SIZE
  {
    Unpack(bytes[..PACKET_HEADER_SIZE]).value
  }

  /** The header of a datagram is the u32 quadruple that packs back to its first 16 bytes. */
  lemma HeaderOfPacks(bytes: seq<byte>)
    requires |bytes| >= PACKET_HEADER_SIZE
    ensures Packable(HeaderOf(bytes)) && Pack(HeaderOf(bytes)) == Ok(bytes[..PACKET_HEADER_SIZE])
  {
    PackUnpack(bytes[..PACKET_HEADER_SIZE]);
  }

  /** One pass of the loop body at receiver.py:32-47. */
  function Receive(t: Table, bytes: seq<byte>): (r: Reception)
    requires WellFormed(t)
    ensures WellFormed(r.table)
    ensures |bytes| < PACKET_HEADER_SIZE ==> r == Reception(t, Failed(StructError))
    ensures |bytes| >= PACKET_HEADER_SIZE ==> forall i :: 0 <= i < SLOT_COUNT && i != HeaderOf(bytes).dataIndex % SLOT_COUNT ==> r.table[i] == t[i]
    ensures r.result.Failed? ==> r.table == t
  {
    if |bytes| < PACKET_HEADER_SIZE then Reception(t, Failed(StructError))
    else
      var h := HeaderOf(bytes);
      var k := h.dataIndex % SLOT_COUNT;
      var current := t[k];
      var reset := if h.packetIndex == 1 then SlotState(current.cells, 0, h.packetCount) else current;
      match CellIndex(h.packetIndex)
      case None => Reception(t, Failed(IndexError))
      case Some(c) =>
        var slot := SlotState(reset.cells[c := bytes[PACKET_HEADER_SIZE..]], reset.received + 1, reset.expected);
        var t' := t[k := slot];
        if slot.received == slot.expected then
          Reception(t', Completed(h.dataIndex, Join(PySlice(slot.cells, 0, h.packetCount))))
        else Reception(t', Nothing)
  }

  /** A first fragment resets the counters of its slot (received, then counted, is 1; expected is
      its packet_count) and leaves every other cell as it was. */
  lemma FirstFragmentResets(t: Table, bytes: seq<byte>)
    requires WellFormed(t) && |bytes| >= PACKET_HEADER_SIZE && HeaderOf(bytes).packetIndex == 1
    ensures var h := HeaderOf(bytes); var k := h.dataIndex % SLOT_COUNT;
      var s := Receive(t, bytes).table[k];
      s.received == 1 && s.expected == h.packetCount &&
      s.cells == t[k].cells[0 := bytes[PACKET_HEADER_SIZE..]]
  {
  }

  /** Any other fragment in range is stored in cell packet_index - 1 (cell 99 for index 0) and
      counted once; the expected count is untouched. */
  lemma LaterFragmentAccumulates(t: Table, bytes: seq<byte>)
    requires WellFormed(t) && |bytes| >= PACKET_HEADER_SIZE
    requires HeaderOf(bytes).packetIndex != 1 && HeaderOf(bytes).packetIndex <= CELL_COUNT
    ensures var h := HeaderOf(bytes); var k := h.dataIndex % SLOT_COUNT;
      var s := Receive(t, bytes).table[k];
      var c := if h.packetIndex == 0 then CELL_COUNT - 1 else h.packetIndex - 1;
      s == SlotState(t[k].cells[c := bytes[PACKET_HEADER_SIZE..]], t[k].received + 1, t[k].expected)
  {
  }

  /** packet_index above 100 raises IndexError before anything changes. */
  lemma IndexBeyondCellsRaises(t: Table, bytes: seq<byte>)
    requires WellFormed(t) && |bytes| >= PACKET_HEADER_SIZE && HeaderOf(bytes).packetIndex > CELL_COUNT
    ensures Receive(t, bytes) == Reception(t, Failed(IndexError))
  {
  }

  /** A frame is yielded exactly when the slot's counts meet, and it is the join of the first
      packet_count cells (at most all 100) tagged with the datagram's data_index. */
  lemma CompletesWhenCountsMeet(t: Table, bytes: seq<byte>)
    requires WellFormed(t) && |bytes| >= PACKET_HEADER_SIZE && HeaderOf(bytes).packetIndex <= CELL_COUNT
    ensures var h := HeaderOf(bytes); var r := Receive(t, bytes);
      var s := r.table[h.dataIndex % SLOT_COUNT];
      (r.result.Completed? <==> s.received == s.expected) &&
      (r.result.Completed? ==> r.result == Completed(h.dataIndex, Join(s.cells[..Min(h.packetCount, CELL_COUNT)]))) &&
      !r.result.Failed?
  {
  }

  // ---- the stream ------------------------------------------------------------------------

  /** One call of `sock.recvfrom(packet_size)`: a datagram, or socket.timeout. */
  datatype Event = Datagram(bytes: seq<byte>) | Timeout

  /** Why the stream stopped: the events ran out (the real socket would then time out), it ended
      normally on a timeout or an empty datagram, or an exception escaped. */
  datatype Stop = Exhausted | Ended | Raised(error: Error)

  datatype Run = Run(frames: seq<(int, seq<byte>)>, table: Table, stop: Stop)

  /** `recvfrom(bufsize)` on a UDP socket returns at most bufsize bytes of a datagram. */
  function Truncate(datagram: seq<byte>, bufsize: nat): (r: seq<byte>)
    ensures |r| == Min(|datagram|, bufsize) && r <= datagram
  {
    if |datagram| <= bufsize then datagram else datagram[..bufsize]
  }

  function PrependFrames(frames: seq<(int, seq<byte>)>, r: Run): Run {
    Run(frames + r.frames, r.table, r.stop)
  }

  lemma PrependFramesTwice(a: seq<(int, seq<byte>)>, b: seq<(int, seq<byte>)>, r: Run)
    ensures PrependFrames(a, PrependFrames(b, r)) == PrependFrames(a + b, r)
  {
    assert a + (b + r.frames) == (a + b) + r.frames;
  }

  /** The specification of the loop at receiver.py:25-47, from table t. */
  function RunFrom(t: Table, events: seq<Event>, bufsize: nat): (r: Run)
    requires WellFormed(t)
    ensures WellFormed(r.table)
    decreases |events|
  {
    if events == [] then Run([], t, Exhausted)
    else if events[0].Timeout? then Run([], t, Ended)
    else
      var bytes := Truncate(events[0].bytes, bufsize);
      if bytes == [] then Run([], t, Ended)
      else
        var step := Receive(t, bytes);
        match step.result
        case Failed(e) => Run([], step.table, Raised(e))
        case Nothing => RunFrom(step.table, events[1..], bufsize)
        case Completed(i, data) => PrependFrames([(i, data)], RunFrom(step.table, events[1..], bufsize))
  }

  /** The outcome of a run whose first event is a datagram that is not empty once truncated:
      the datagram branch of RunFrom unfolded once, kept separate so that RunDatagram can
      state that step on its own. */
  function AfterReceive(step: Reception, rest: seq<Event>, bufsize: nat): Run
    requires WellFormed(step.table)
  {
    match step.result
    case Failed(e) => Run([], step.table, Raised(e))
    case Nothing => RunFrom(step.table, rest, bufsize)
    case Completed(i, data) => PrependFrames([(i, data)], RunFrom(step.table, rest, bufsize))
  }

  lemma RunDatagram(t: Table, events: seq<Event>, bufsize: nat)
    requires WellFormed(t) && events != [] && events[0].Datagram?
    requires Truncate(events[0].bytes, bufsize) != []
    ensures RunFrom(t, events, bufsize) == AfterReceive(Receive(t, Truncate(events[0].bytes, bufsize)), events[1..], bufsize)
  {
  }

  /** Events are consumed in order: a stream that survives a prefix continues from where the
      prefix left the table, and a stream that stopped within a prefix ignores what follows. */
  lemma {:induction false} RunAppend(t: Table, a: seq<Event>, b: seq<Event>, bufsize: nat)
    requires WellFormed(t)
    decreases |a|
    ensures var first := RunFrom(t, a, bufsize);
      RunFrom(t, a + b, bufsize) ==
        if first.stop == Exhausted then PrependFrames(first.frames, RunFrom(first.table, b, bufsize)) else first
  {
    if a == [] {
      assert a + b == b;
    } else {
      assert (a + b)[0] == a[0] && (a + b)[1..] == a[1..] + b;
      if a[0].Datagram? && Truncate(a[0].bytes, bufsize) != [] {
        var step := Receive(t, Truncate(a[0].bytes, bufsize));
        RunDatagram(t, a, bufsize);
        RunDatagram(t, a + b, bufsize);
        RunAppend(step.table, a[1..], b, bufsize);
        match step.result
        case Failed(e) =>
        case Nothing =>
        case Completed(i, data) =>
          PrependFramesTwice([(i, data)], RunFrom(step.table, a[1..], bufsize).frames,
            RunFrom(RunFrom(step.table, a[1..], bufsize).table, b, bufsize));
      }
    }
  }

  /** A datagram shorter than the 16-byte header, once received, makes struct.unpack raise:
      the stream ends with that exception and the table as it was. */
  lemma ShortDatagramRaises(t: Table, w: seq<byte>, rest: seq<Event>, bufsize: nat)
    requires WellFormed(t) && 0 < |Truncate(w, bufsize)| < PACKET_HEADER_SIZE
    ensures RunFrom(t, [Datagram(w)] + rest, bufsize) == Run([], t, Raised(StructError))
  {
    RunDatagram(t, [Datagram(w)] + rest, bufsize);
  }

  /** A timeout or an empty datagram ends the stream; nothing after it is looked at. */
  lemma EndOfStream(t: Table, rest: seq<Event>, bufsize: nat)
    requires WellFormed(t)
    ensures RunFrom(t, [Timeout] + rest, bufsize) == Run([], t, Ended)
    ensures RunFrom(t, [Datagram([])] + rest, bufsize) == Run([], t, Ended)
  {
  }

  // ---- receiving one item ----------------------------------------------------------------

  /** Every datagram of ps arrives, one receive event each, in order. */
  function AsEvents(ps: seq<seq<byte>>): (es: seq<Event>)
    ensures |es| == |ps| && forall k :: 0 <= k < |ps| ==> es[k] == Datagram(ps[k])
  {
    seq(|ps|, k requires 0 <= k < |ps| => Datagram(ps[k]))
  }

  lemma AsEventsSuffix(ps: seq<seq<byte>>, k: nat)
    requires k < |ps|
    ensures AsEvents(ps[k..]) == [Datagram(ps[k])] + AsEvents(ps[k + 1..])
  {
    assert AsEvents(ps[k..]) == [Datagram(ps[k])] + AsEvents(ps[k + 1..]);
  }

  /** ps are the datagrams of one item, in order: packet k carries fragment k of frags under
      data_index idx, packet_index k + 1 and packet_count |ps|, and fits in bufsize bytes. */
  predicate Carries(ps: seq<seq<byte>>, idx: int, frags: seq<seq<byte>>, bufsize: nat) {
    |ps| == |frags| &&
    forall k :: 0 <= k < |ps| ==>
      PACKET_HEADER_SIZE <= |ps[k]| <= bufsize &&
      HeaderOf(ps[k]).dataIndex == idx && HeaderOf(ps[k]).packetIndex == k + 1 &&
      HeaderOf(ps[k]).packetCount == |ps| && ps[k][PACKET_HEADER_SIZE..] == frags[k]
  }

  /** The slot of idx holds the first k fragments and counts k of |frags| packets. */
  predicate Holds(t: Table, idx: int, frags: seq<seq<byte>>, k: nat)
    requires WellFormed(t)
  {
    var s := t[idx % SLOT_COUNT];
    k <= CELL_COUNT && k <= |frags| && s.received == k && s.expected == |frags| &&
    forall j :: 0 <= j < k ==> s.cells[j] == frags[j]
  }

  /** The item's outcome once the receiver holds its first k packets. */
  lemma {:induction false} ReceiveRest(t: Table, ps: seq<seq<byte>>, idx: int, frags: seq<seq<byte>>, bufsize: nat, k: nat)
    requires WellFormed(t) && Carries(ps, idx, frags, bufsize) && 1 <= k < |ps| && Holds(t, idx, frags, k)
    ensures var r := RunFrom(t, AsEvents(ps[k..]), bufsize);
      (|ps| <= CELL_COUNT ==> r.frames == [(idx, Join(frags))] && r.stop == Exhausted && Holds(r.table, idx, frags, |ps|)) &&
      (|ps| > CELL_COUNT ==> r.frames == [] && r.stop == Raised(IndexError))
    decreases |ps| - k
  {
    AsEventsSuffix(ps, k);
    var bytes := ps[k];
    assert Truncate(bytes, bufsize) == bytes;
    RunDatagram(t, AsEvents(ps[k..]), bufsize);
    var h := HeaderOf(bytes);
    if k == CELL_COUNT {
      IndexBeyondCellsRaises(t, bytes);
    } else {
      var step := Receive(t, bytes);
      LaterFragmentAccumulates(t, bytes);
      CompletesWhenCountsMeet(t, bytes);
      var s := step.table[idx % SLOT_COUNT];
      if k + 1 == |ps| {
        assert s.cells[..Min(h.packetCount, CELL_COUNT)] == frags;
        assert ps[k + 1..] == [];
      } else {
        ReceiveRest(step.table, ps, idx, frags, bufsize, k + 1);
      }
    }
  }

  /** Receiving the datagrams of one item in order, from any table: an item of at most 100
      packets is yielded once, whole, under its data_index, and nothing else is, and its slot is
      left with both counts at the number of packets; a longer one yields nothing and raises
      IndexError at packet 101. */
  lemma ReceiveItem(t: Table, ps: seq<seq<byte>>, idx: int, frags: seq<seq<byte>>, bufsize: nat)
    requires WellFormed(t) && Carries(ps, idx, frags, bufsize) && |ps| > 0
    ensures var r := RunFrom(t, AsEvents(ps), bufsize);
      (|ps| <= CELL_COUNT ==> r.frames == [(idx, Join(frags))] && r.stop == Exhausted && Holds(r.table, idx, frags, |ps|)) &&
      (|ps| > CELL_COUNT ==> r.frames == [] && r.stop == Raised(IndexError))
  {
    assert ps[0..] == ps;
    AsEventsSuffix(ps, 0);
    var bytes := ps[0];
    assert Truncate(bytes, bufsize) == bytes;
    RunDatagram(t, AsEvents(ps), bufsize);
    var step := Receive(t, bytes);
    FirstFragmentResets(t, bytes);
    CompletesWhenCountsMeet(t, bytes);
    if |ps| == 1 {
      assert step.table[idx % SLOT_COUNT].cells[..1] == frags;
      assert ps[1..] == [];
    } else {
      ReceiveRest(step.table, ps, idx, frags, bufsize, 1);
    }
  }

  /** The first j packets of an item of n <= 100 packets, 1 <= j < n, received in order from
      any table: nothing is yielded and the slot holds those j fragments, counting j of n. */
  lemma {:induction false} ReceivePartial(t: Table, ps: seq<seq<byte>>, idx: int, frags: seq<seq<byte>>, bufsize: nat, j: nat)
    requires WellFormed(t) && Carries(ps, idx, frags, bufsize) && 1 <= j < |ps| <= CELL_COUNT
    ensures var r := RunFrom(t, AsEvents(ps[..j]), bufsize);
      r.frames == [] && r.stop == Exhausted && Holds(r.table, idx, frags, j)
  {
    if j == 1 {
      AsEventsTake(ps, 0);
      assert AsEvents(ps[..0]) == [];
      PartialStep(t, ps, idx, frags, bufsize, 0);
    } else {
      ReceivePartial(t, ps, idx, frags, bufsize, j - 1);
      var first := RunFrom(t, AsEvents(ps[..j - 1]), bufsize);
      AsEventsTake(ps, j - 1);
      RunAppend(t, AsEvents(ps[..j - 1]), [Datagram(ps[j - 1])], bufsize);
      PartialStep(first.table, ps, idx, frags, bufsize, j - 1);
      assert [] + RunFrom(first.table, [Datagram(ps[j - 1])], bufsize).frames == [];
    }
  }

  lemma AsEventsTake(ps: seq<seq<byte>>, j: nat)
    requires j < |ps|
    ensures AsEvents(ps[..j + 1]) == AsEvents(ps[..j]) + [Datagram(ps[j])]
  {
    assert AsEvents(ps[..j + 1]) == AsEvents(ps[..j]) + [Datagram(ps[j])];
  }

  /** Packet k + 1 of an item, not its last, arriving at a slot that holds the first k
      fragments (any slot state when k is 0) completes nothing and leaves k + 1 held. */
  lemma PartialStep(t: Table, ps: seq<seq<byte>>, idx: int, frags: seq<seq<byte>>, bufsize: nat, k: nat)
    requires WellFormed(t) && Carries(ps, idx, frags, bufsize) && k + 1 < |ps| <= CELL_COUNT
    requires k > 0 ==> Holds(t, idx, frags, k)
    ensures var r := RunFrom(t, [Datagram(ps[k])], bufsize);
      r.frames == [] && r.stop == Exhausted && Holds(r.table, idx, frags, k + 1)
  {
    var w := ps[k];
    assert Truncate(w, bufsize) == w;
    assert [Datagram(w)][1..] == [];
    RunDatagram(t, [Datagram(w)], bufsize);
    if k == 0 {
      FirstFragmentResets(t, w);
    } else {
      LaterFragmentAccumulates(t, w);
    }
    CompletesWhenCountsMeet(t, w);
  }

  /** Datagrams that all belong to slots other than `slot` leave that slot as it was. */
  lemma {:induction false} RunKeepsOtherSlots(t: Table, ws: seq<seq<byte>>, slot: nat, bufsize: nat)
    requires WellFormed(t) && slot < SLOT_COUNT
    requires forall k :: 0 <= k < |ws| ==>
      PACKET_HEADER_SIZE <= |ws[k]| <= bufsize && HeaderOf(ws[k]).dataIndex % SLOT_COUNT != slot
    ensures RunFrom(t, AsEvents(ws), bufsize).table[slot] == t[slot]
  {
    assert ws[0..] == ws;
    KeepOtherSlotsFrom(t, ws, 0, slot, bufsize);
  }

  lemma {:induction false} KeepOtherSlotsFrom(t: Table, ws: seq<seq<byte>>, i: nat, slot: nat, bufsize: nat)
    requires WellFormed(t) && slot < SLOT_COUNT && i <= |ws|
    requires forall k :: 0 <= k < |ws| ==>
      PACKET_HEADER_SIZE <= |ws[k]| <= bufsize && HeaderOf(ws[k]).dataIndex % SLOT_COUNT != slot
    ensures RunFrom(t, AsEvents(ws[i..]), bufsize).table[slot] == t[slot]
    decreases |ws| - i
  {
    if i < |ws| {
      AsEventsSuffix(ws, i);
      var step := KeepOtherSlot(t, ws[i], AsEvents(ws[i + 1..]), slot, bufsize);
      KeepOtherSlotsFrom(step.table, ws, i + 1, slot, bufsize);
    }
  }

  /** One datagram of another slot: the run continues, if at all, from a table whose `slot`
      is as it was. */
  lemma KeepOtherSlot(t: Table, w: seq<byte>, rest: seq<Event>, slot: nat, bufsize: nat) returns (step: Reception)
    requires WellFormed(t) && slot < SLOT_COUNT
    requires PACKET_HEADER_SIZE <= |w| <= bufsize && HeaderOf(w).dataIndex % SLOT_COUNT != slot
    ensures step == Receive(t, w) && step.table[slot] == t[slot]
    ensures RunFrom(t, [Datagram(w)] + rest, bufsize).table ==
      if step.result.Failed? then step.table else RunFrom(step.table, rest, bufsize).table
  {
    step := Receive(t, w);
    var es := [Datagram(w)] + rest;
    assert es[0] == Datagram(w) && es[1..] == rest;
    assert Truncate(w, bufsize) == w;
    RunDatagram(t, es, bufsize);
  }

  function StopError(s: Stop): Option<Error> {
    if s.Raised? then Some(s.error) else None
  }

  // ---- the table as objects --------------------------------------------------------------

  /** One entry `[cells, received, expected]` of `db`; the cell list is never replaced, only
      its elements (receiver.py:38 reads it and does nothing). */
  class Slot {
    const cells: array<seq<byte>>
    var received: int
    var expected: int

    constructor ()
      ensures fresh(cells) && cells.Length == CELL_COUNT
      ensures State() == SlotState(EmptyCells(), 0, 0)
    {
      cells := new seq<byte>[CELL_COUNT](_ => []);
      received, expected := 0, 0;
      new;
      assert cells[..] == EmptyCells();
    }

    ghost function State(): (s: SlotState)
      reads this, cells
      ensures |s.cells| == cells.Length && forall j :: 0 <= j < cells.Length ==> s.cells[j] == cells[j]
      ensures s.received == received && s.expected == expected
    {
      SlotState(cells[..], received, expected)
    }
  }

  /** The table `db` of one `receive_stream_via_udp` call. */
  class Reassembler {
    const db: array<Slot>
    ghost var Table: Table
    ghost var Repr: set<object>

    ghost predicate Valid()
      reads this, Repr
    {
      && this in Repr && db in Repr && db.Length == SLOT_COUNT
      && (forall i :: 0 <= i < SLOT_COUNT ==> db[i] in Repr && db[i].cells in Repr && db[i].cells.Length == CELL_COUNT)
      && (forall i, j :: 0 <= i < SLOT_COUNT && 0 <= j < SLOT_COUNT && i != j ==> db[i] != db[j] && db[i].cells != db[j].cells)
      && |Table| == SLOT_COUNT
      && (forall i :: 0 <= i < SLOT_COUNT ==> Table[i] == db[i].State())
    }

    lemma TableWellFormed()
      requires Valid()
      ensures WellFormed(Table)
    {
    }

    constructor ()
      ensures Valid() && fresh(Repr)
      ensures Table == InitialTable()
    {
      var slots: seq<Slot> := [];
      while |slots| < SLOT_COUNT
        invariant |slots| <= SLOT_COUNT
        invariant forall i :: 0 <= i < |slots| ==> fresh(slots[i]) && fresh(slots[i].cells)
        invariant forall i :: 0 <= i < |slots| ==>
          slots[i].cells.Length == CELL_COUNT && slots[i].State() == SlotState(EmptyCells(), 0, 0)
        invariant forall i, j :: 0 <= i < |slots| && 0 <= j < |slots| && i != j ==>
          slots[i] != slots[j] && slots[i].cells != slots[j].cells
      {
        var s := new Slot();
        slots := slots + [s];
      }
      db := new Slot[SLOT_COUNT](i requires 0 <= i < |slots| => slots[i]);
      Table := InitialTable();
      Repr := {this, db} + (set i | 0 <= i < SLOT_COUNT :: slots[i] as object)
        + (set i | 0 <= i < SLOT_COUNT :: slots[i].cells as object);
    }

    /** Handle one datagram of at least one byte (receiver.py:32-47). */
    method Step(bytes: seq<byte>) returns (result: StepResult)
      requires Valid()
      modifies Repr
      ensures Valid() && Repr == old(Repr) && WellFormed(Table)
      ensures Reception(Table, result) == Receive(old(Table), bytes)
    {
      TableWellFormed();
      if |bytes| < PACKET_HEADER_SIZE {
        return Failed(StructError);
      }
      var h := Unpack(bytes[..PACKET_HEADER_SIZE]).value;
      var k := h.dataIndex % SLOT_COUNT;
      var slot := db[k];
      var c := CellIndex(h.packetIndex);
      if c.None? {
        return Failed(IndexError);
      }
      if h.packetIndex == 1 {
        slot.received := 0;
        slot.expected := h.packetCount;
      }
      slot.cells[c.value] := bytes[PACKET_HEADER_SIZE..];
      slot.received := slot.received + 1;
      Table := Table[k := slot.State()];
      if slot.received == slot.expected {
        result := Completed(h.dataIndex, Join(PySlice(slot.cells[..], 0, h.packetCount)));
      } else {
        result := Nothing;
      }
    }
  }

  /** `receive_stream_via_udp(ip, port, packet_size)` (receiver.py:13-47): the frames it yields
      and the exception that ended it, if any. */
  method ReceiveStreamViaUdp(ip: PyValue, port: PyValue, packetSize: PyValue, events: seq<Event>)
    returns (frames: seq<(int, seq<byte>)>, error: Option<Error>)
    ensures ValidateIPv4(ip).Fail? ==> frames == [] && error == Some(InvalidIPAddressError)
    ensures ValidateIPv4(ip).Pass? && ValidatePort(port).Fail? ==> frames == [] && error == Some(InvalidPortError)
    ensures ValidateIPv4(ip).Pass? && ValidatePort(port).Pass? && ValidatePacketSize(packetSize).Fail? ==>
      frames == [] && error == Some(InvalidPacketSizeError)
    ensures ValidateIPv4(ip).Pass? && ValidatePort(port).Pass? && ValidatePacketSize(packetSize).Pass? ==>
      var r := RunFrom(InitialTable(), events, packetSize.i);
      frames == r.frames && error == StopError(r.stop)
  {
    frames, error := [], None;
    var v := ValidateIPv4(ip);
    if v.Fail? { error := Some(v.error); return; }
    v := ValidatePort(port);
    if v.Fail? { error := Some(v.error); return; }
    v := ValidatePacketSize(packetSize);
    if v.Fail? { error := Some(v.error); return; }
    frames, error := Reassemble(events, packetSize.i);
  }

  /** The `while True` loop of receiver.py:25-47 over a fresh table. */
  method Reassemble(events: seq<Event>, bufsize: nat) returns (frames: seq<(int, seq<byte>)>, error: Option<Error>)
    ensures var r := RunFrom(InitialTable(), events, bufsize);
      frames == r.frames && error == StopError(r.stop)
  {
    frames, error := [], None;
    var db := new Reassembler();
    assert events[0..] == events;
    for i := 0 to |events|
      invariant db.Valid() && fresh(db.Repr) && WellFormed(db.Table)
      invariant RunFrom(InitialTable(), events, bufsize) ==
        PrependFrames(frames, RunFrom(db.Table, events[i..], bufsize))
    {
      assert events[i..][0] == events[i] && events[i..][1..] == events[i + 1..];
      if events[i].Timeout? {
        return;
      }
      var bytes := Truncate(events[i].bytes, bufsize);
      if bytes == [] {
        return;
      }
      ghost var before := db.Table;
      RunDatagram(before, events[i..], bufsize);
      var result := db.Step(bytes);
      assert RunFrom(before, events[i..], bufsize) == AfterReceive(Reception(db.Table, result), events[i + 1..], bufsize);
      ghost var rest := RunFrom(db.Table, events[i + 1..], bufsize);
      match result
      case Failed(e) => {
        assert RunFrom(before, events[i..], bufsize) == Run([], db.Table, Raised(e));
        assert frames + [] == frames;
        error := Some(e);
        return;
      }
      case Completed(dataIndex, data) => {
        assert RunFrom(before, events[i..], bufsize) == PrependFrames([(dataIndex, data)], rest);
        PrependFramesTwice(frames, [(dataIndex, data)], rest);
        frames := frames + [(dataIndex, data)];
      }
      case Nothing => {
        assert RunFrom(before, events[i..], bufsize) == rest;
      }
    }
  }
}

/** What `receive_stream_via_udp` makes of the datagrams `stream_via_udp` sends, when every
    datagram arrives once and in order. */
module RoundTrip {
  import opened Exceptions
  import opened Bytes
  import opened HeaderCodec
  import opened Sender
  import opened Validation
  import opened Receiver

  /** No fragment is longer than packet_size. */
  lemma FragmentBound(data: seq<byte>, size: nat)
    requires size > 0
    ensures forall k :: 0 <= k < |Fragments(data, size)| ==> |Fragments(data, size)[k]| <= size
  {
    var rng := Range(0, |data|, size);
    forall k | 0 <= k < |rng| ensures |PySlice(data, rng[k], rng[k] + size)| <= size {
    }
  }

  /** An item needs at most 100 packets exactly when it holds at most 100 * packet_size bytes. */
  lemma FragmentsFitCells(data: seq<byte>, size: nat)
    requires size > 0
    ensures |Fragments(data, size)| <= CELL_COUNT <==> |data| <= CELL_COUNT * size
  {
    var rng := Range(0, |data|, size);
    var n := |rng|;
    if n > CELL_COUNT {
      assert rng[CELL_COUNT] == CELL_COUNT * size;
    } else if n > 0 {
      assert |data| <= rng[n - 1] + size && rng[n - 1] == (n - 1) * size;
      MulSucc(n - 1, size);
      MulMonotone(n, CELL_COUNT, size);
    }
  }

  lemma MulMonotone(a: int, b: int, c: int)
    requires 0 <= a <= b && c >= 0
    ensures a * c <= b * c
  {
    MulNonnegative(b - a, c);
    assert (b - a) * c == b * c - a * c;
  }

  /** The datagrams of an item that packs carry its fragments and fit a receive buffer of
      packet_size + 16 bytes. */
  lemma ItemCarries(metadata: int, dataIndex: int, data: seq<byte>, size: nat, bufsize: nat)
    requires size > 0 && bufsize >= size + PACKET_HEADER_SIZE
    requires ItemPackets(metadata, dataIndex, data, size).Ok?
    ensures Carries(ItemPackets(metadata, dataIndex, data, size).value, dataIndex, Fragments(data, size), bufsize)
  {
    var ps := ItemPackets(metadata, dataIndex, data, size).value;
    var frags := Fragments(data, size);
    FragmentBound(data, size);
    forall k | 0 <= k < |ps|
      ensures PACKET_HEADER_SIZE <= |ps[k]| <= bufsize &&
        HeaderOf(ps[k]) == Header(metadata, dataIndex, k + 1, |ps|) && ps[k][PACKET_HEADER_SIZE..] == frags[k]
    {
      ItemPacketLayout(metadata, dataIndex, data, size, k);
    }
  }

  /** One item sent and received: with at most 100 * packet_size bytes the receiver yields
      (data_index, data) once and nothing else; with more it yields nothing and raises
      IndexError. The metadata does not reach the receiver. */
  lemma ItemRoundTrip(t: Table, metadata: int, dataIndex: int, data: seq<byte>, size: nat, bufsize: nat)
    requires WellFormed(t) && size > 0 && bufsize >= size + PACKET_HEADER_SIZE
    requires IsU32(metadata) && IsU32(dataIndex) && 0 < |data| && IsU32((|data| + size - 1) / size)
    ensures ItemPackets(metadata, dataIndex, data, size).Ok?
    ensures var r := RunFrom(t, AsEvents(ItemPackets(metadata, dataIndex, data, size).value), bufsize);
      (|data| <= CELL_COUNT * size ==> r.frames == [(dataIndex, data)] && r.stop == Exhausted) &&
      (|data| > CELL_COUNT * size ==> r.frames == [] && r.stop == Raised(IndexError))
  {
    FragmentCount(data, size);
    FragmentsFitCells(data, size);
    ItemPacketsFail(metadata, dataIndex, data, size);
    ItemCarries(metadata, dataIndex, data, size, bufsize);
    ReceiveItem(t, ItemPackets(metadata, dataIndex, data, size).value, dataIndex, Fragments(data, size), bufsize);
    FragmentsCover(data, size);
  }

  /** The fragment count never exceeds the byte count, so it is a u32 whenever a Python bytes
      length is. */
  lemma PacketCountBound(len: nat, size: nat)
    requires size > 0
    ensures (len + size - 1) / size <= len
  {
    if len > 0 {
      var q := (len + size - 1) / size;
      assert q * size <= len + size - 1;
      MulNonnegative(len - 1, size - 1);
      assert (len - 1) * (size - 1) == len * size - len - size + 1;
      if q > len {
        MulNonnegative(q - len - 1, size);
      }
    }
  }

  lemma AsEventsAppend(a: seq<seq<byte>>, b: seq<seq<byte>>)
    ensures AsEvents(a + b) == AsEvents(a) + AsEvents(b)
  {
  }

  /** What the receiver yields for a stream of items that all pack: (data_index, data) per item
      with data, numbered from dataIndex. Items without data send nothing and are not yielded. */
  function Delivered(pulls: seq<Pull>, dataIndex: int): seq<(int, seq<byte>)>
    decreases |pulls|
  {
    if pulls == [] then []
    else
      (if pulls[0].Yield? && pulls[0].data != [] then [(dataIndex, pulls[0].data)] else [])
      + Delivered(pulls[1..], dataIndex + 1)
  }

  /** A pull the receiver can deliver: a well-formed item whose header fields fit a u32 and
      whose data needs at most 100 packets. */
  predicate Deliverable(p: Pull, size: nat, dataIndex: int) {
    p.Yield? && IsU32(p.metadata) && IsU32(dataIndex) && |p.data| <= CELL_COUNT * size
  }

  lemma DeliverableItemPacks(p: Pull, size: nat, dataIndex: int, t: Table, bufsize: nat)
    requires 0 < size <= PACKET_SIZE_MAX && bufsize >= size + PACKET_HEADER_SIZE && WellFormed(t)
    requires Deliverable(p, size, dataIndex)
    ensures PullPackets(p, size, dataIndex).Ok?
    ensures var r := RunFrom(t, AsEvents(PullPackets(p, size, dataIndex).value), bufsize);
      r.frames == (if p.data == [] then [] else [(dataIndex, p.data)]) && r.stop == Exhausted
  {
    if p.data == [] {
      FragmentCount(p.data, size);
      assert ItemPackets(p.metadata, dataIndex, p.data, size).value == [];
    } else {
      FragmentCount(p.data, size);
      FragmentsFitCells(p.data, size);
      ItemRoundTrip(t, p.metadata, dataIndex, p.data, size, bufsize);
    }
  }

  /** Every item of a plan packs, so a transmission without a failing send emits all of it. */
  lemma {:induction false} SendWithoutFailure(plan: seq<Result<seq<seq<byte>>>>)
    requires forall k :: 0 <= k < |plan| ==> plan[k].Ok?
    ensures Send(plan, None) == Transmission(JoinPlan(plan), None)
  {
    if plan != [] {
      SendWithoutFailure(plan[1..]);
    }
  }

  /** A deliverable pull packs: its header fields, packet count included, fit a u32. */
  lemma DeliverablePacks(p: Pull, size: nat, dataIndex: int)
    requires 0 < size <= PACKET_SIZE_MAX && Deliverable(p, size, dataIndex)
    ensures PullPackets(p, size, dataIndex).Ok?
  {
    PacketCountBound(|p.data|, size);
    ItemPacketsFail(p.metadata, dataIndex, p.data, size);
  }

  predicate AllPack(plan: seq<Result<seq<seq<byte>>>>) {
    forall k :: 0 <= k < |plan| ==> plan[k].Ok?
  }

  lemma PlanPacks(pulls: seq<Pull>, size: nat, dataIndex: int)
    requires 0 < size <= PACKET_SIZE_MAX
    requires forall k :: 0 <= k < |pulls| ==> Deliverable(pulls[k], size, dataIndex + k)
    ensures AllPack(Plan(pulls, size, dataIndex))
  {
    PlanNumbering(pulls, size, dataIndex);
    forall k | 0 <= k < |pulls| ensures Plan(pulls, size, dataIndex)[k].Ok? {
      DeliverablePacks(pulls[k], size, dataIndex + k);
    }
  }

  /** Receiving the datagrams of a whole plan, from any table. */
  lemma {:induction false} ReceivePlan(pulls: seq<Pull>, size: nat, bufsize: nat, dataIndex: int, t: Table)
    requires 0 < size <= PACKET_SIZE_MAX && bufsize >= size + PACKET_HEADER_SIZE && WellFormed(t)
    requires forall k :: 0 <= k < |pulls| ==> Deliverable(pulls[k], size, dataIndex + k)
    ensures AllPack(Plan(pulls, size, dataIndex))
    ensures var r := RunFrom(t, AsEvents(JoinPlan(Plan(pulls, size, dataIndex))), bufsize);
      r.frames == Delivered(pulls, dataIndex) && r.stop == Exhausted
    decreases |pulls|
  {
    PlanPacks(pulls, size, dataIndex);
    if pulls != [] {
      var plan := Plan(pulls, size, dataIndex);
      var rest := Plan(pulls[1..], size, dataIndex + 1);
      assert plan[1..] == rest;
      PlanPacks(pulls[1..], size, dataIndex + 1);
      var first := plan[0].value;
      assert JoinPlan(plan) == first + JoinPlan(rest);
      DeliverableItemPacks(pulls[0], size, dataIndex, t, bufsize);
      var r1 := RunFrom(t, AsEvents(first), bufsize);
      ReceivePlan(pulls[1..], size, bufsize, dataIndex + 1, r1.table);
      ComposeRuns(t, first, JoinPlan(rest), bufsize);
    }
  }

  /** Two runs of which the first is not stopped compose into one. */
  lemma ComposeRuns(t: Table, first: seq<seq<byte>>, rest: seq<seq<byte>>, bufsize: nat)
    requires WellFormed(t) && RunFrom(t, AsEvents(first), bufsize).stop == Exhausted
    ensures var r1 := RunFrom(t, AsEvents(first), bufsize);
      var r2 := RunFrom(r1.table, AsEvents(rest), bufsize);
      RunFrom(t, AsEvents(first + rest), bufsize) == Run(r1.frames + r2.frames, r2.table, r2.stop)
  {
    AsEventsAppend(first, rest);
    RunAppend(t, AsEvents(first), AsEvents(rest), bufsize);
  }

  /** The whole stream: when no `sendto` fails, every pull is a deliverable item, and the
      datagrams arrive once, in order, into a receiver whose packet_size is at least the
      sender's plus the 16-byte header, the sender ends without an exception and the receiver
      yields exactly the items that had data, numbered from 1, with their data intact. */
  lemma StreamRoundTrip(pulls: seq<Pull>, size: nat, bufsize: nat)
    requires 0 < size <= PACKET_SIZE_MAX && bufsize >= size + PACKET_HEADER_SIZE
    requires forall k :: 0 <= k < |pulls| ==> Deliverable(pulls[k], size, 1 + k)
    ensures Transmit(pulls, size, None).error == None
    ensures var r := RunFrom(InitialTable(), AsEvents(Transmit(pulls, size, None).sent), bufsize);
      r.frames == Delivered(pulls, 1) && r.stop == Exhausted
  {
    ReceivePlan(pulls, size, bufsize, 1, InitialTable());
    SendWithoutFailure(Plan(pulls, size, 1));
  }

  /** A stream of one item that packs sends that item's packets and nothing else. */
  lemma TransmitOne(metadata: int, data: seq<byte>, size: nat)
    requires 0 < size <= PACKET_SIZE_MAX && Deliverable(Yield(metadata, data), size, 1)
    ensures ItemPackets(metadata, 1, data, size).Ok?
    ensures Transmit([Yield(metadata, data)], size, None) == Transmission(ItemPackets(metadata, 1, data, size).value, None)
  {
    var pulls := [Yield(metadata, data)];
    DeliverablePacks(pulls[0], size, 1);
    var plan := Plan(pulls, size, 1);
    SendWithoutFailure(plan);
    assert plan[1..] == [];
    assert JoinPlan(plan) == plan[0].value + JoinPlan([]);
  }

  /** Packet k of ps has the header (metadata, dataIndex, k + 1, |ps|). */
  predicate Headed(ps: seq<seq<byte>>, metadata: int, dataIndex: int) {
    forall k :: 0 <= k < |ps| ==>
      PACKET_HEADER_SIZE <= |ps[k]| && HeaderOf(ps[k]) == Header(metadata, dataIndex, k + 1, |ps|)
  }

  lemma ItemHeaders(metadata: int, dataIndex: int, data: seq<byte>, size: nat)
    requires size > 0 && ItemPackets(metadata, dataIndex, data, size).Ok?
    ensures Headed(ItemPackets(metadata, dataIndex, data, size).value, metadata, dataIndex)
  {
    var ps := ItemPackets(metadata, dataIndex, data, size).value;
    forall k | 0 <= k < |ps| ensures PACKET_HEADER_SIZE <= |ps[k]| && HeaderOf(ps[k]) == Header(metadata, dataIndex, k + 1, |ps|) {
      ItemPacketLayout(metadata, dataIndex, data, size, k);
    }
  }

  /** A stream of one item of at most 100 * packet_size bytes: ceil(L / S) datagrams with
      headers (metadata, 1, k + 1, count), from which the receiver yields (1, data). */
  lemma OneItemStream(metadata: int, data: seq<byte>, size: nat, bufsize: nat)
    requires 0 < size <= PACKET_SIZE_MAX && bufsize >= size + PACKET_HEADER_SIZE
    requires IsU32(metadata) && 0 < |data| <= CELL_COUNT * size
    ensures var t := Transmit([Yield(metadata, data)], size, None);
      t.error == None && |t.sent| == (|data| + size - 1) / size && Headed(t.sent, metadata, 1) &&
      var r := RunFrom(InitialTable(), AsEvents(t.sent), bufsize);
      r.frames == [(1, data)] && r.stop == Exhausted
  {
    TransmitOne(metadata, data, size);
    FragmentCount(data, size);
    FragmentsFitCells(data, size);
    ItemRoundTrip(InitialTable(), metadata, 1, data, size, bufsize);
    FragmentCount(data, size);
    ItemHeaders(metadata, 1, data, size);
  }

  /** Tag 7, 100000 bytes, packet size 1008 (datagrams of at most 1024 bytes): the sender emits
      exactly 100 datagrams, all under data_index 1 with packet_count 100 and packet_index 1..100
      in order, and a receiver reading 1024 bytes at a time yields (1, the 100000 bytes). */
  lemma HundredFragmentStream(data: seq<byte>)
    requires |data| == 100000
    ensures var t := Transmit([Yield(7, data)], 1008, None);
      t.error == None && |t.sent| == 100 && Headed(t.sent, 7, 1) &&
      var r := RunFrom(InitialTable(), AsEvents(t.sent), 1024);
      r.frames == [(1, data)] && r.stop == Exhausted
  {
    OneItemStream(7, data, 1008, 1024);
    assert (100000 + 1008 - 1) / 1008 == 100;
  }
}

/** The fragmenter of src/pystream/core/sender.py: `stream_via_udp` pulls (metadata, data) items
    from a generator, cuts each payload into `packet_size` slices, prefixes every slice with the
    16-byte header and sends the packets in order. The socket is replaced by the sequence of
    packets handed to `sendto`; the generator by a finite sequence of pulls. */
module Sender {
  import opened Exceptions
  import opened Bytes
  import opened HeaderCodec
  import opened Validation

  /** What one call of `next(generator)` does. The end of the sequence of pulls is StopIteration. */
  datatype Pull =
    | Yield(metadata: int, data: seq<byte>)  // a 2-tuple (metadata, data)
    | YieldNotIterable                       // a value that cannot be unpacked: TypeError
    | YieldWrongArity                        // an iterable with other than two items: ValueError
    | Raise                                  // any other exception raised by the generator

  // ---- slicing ---------------------------------------------------------------------------

  /** `range(start, stop, step)` for a positive step. */
  function Range(start: nat, stop: nat, step: nat): (r: seq<nat>)
    requires step > 0
    ensures |r| == 0 <==> stop <= start
    ensures forall k :: 0 <= k < |r| ==> r[k] == start + k * step && r[k] < stop
    ensures |r| > 0 ==> stop <= r[|r| - 1] + step
  {
    var n := if stop <= start then 0 else (stop - start - 1) / step + 1;
    RangeBounds(stop - start, step, n);
    seq(n, k requires 0 <= k < n => start + k * step)
  }

  lemma RangeBounds(span: int, step: nat, n: int)
    requires step > 0 && n == if span <= 0 then 0 else (span - 1) / step + 1
    ensures n >= 0 && (n == 0 <==> span <= 0)
    ensures n > 0 ==> span <= (n - 1) * step + step
    ensures forall k :: 0 <= k < n ==> k * step < span
  {
    if span > 0 {
      var q := (span - 1) / step;
      assert q * step <= span - 1 < q * step + step;
      forall k | 0 <= k < n ensures k * step < span {
        MulNonnegative(q - k, step);
        assert (q - k) * step == q * step - k * step;
      }
    }
  }

  /** `data[offset : offset + packet_size]` for every offset of `range(0, len(data), packet_size)`. */
  function Fragments(data: seq<byte>, size: nat): (r: seq<seq<byte>>)
    requires size > 0
    ensures |r| == |Range(0, |data|, size)|
    ensures forall k :: 0 <= k < |r| ==> 0 < |r[k]| <= size
  {
    var rng := Range(0, |data|, size);
    seq(|rng|, k requires 0 <= k < |rng| => PySlice(data, rng[k], rng[k] + size))
  }

  /** `len(range(0, L, S))` is ceil(L / S), counted by the multiples of S below L. */
  lemma RangeLength(len: nat, size: nat)
    requires size > 0
    ensures var n := |Range(0, len, size)|;
      n == (len + size - 1) / size && (len == 0 <==> n == 0)
  {
    var rng := Range(0, len, size);
    var n := |rng|;
    if n > 0 {
      assert rng[n - 1] == (n - 1) * size;
      assert (n - 1) * size < len <= (n - 1) * size + size;
      assert n * size == (n - 1) * size + size;
      DivisionUnique(len + size - 1, size, n);
    }
  }

  /** For a payload of length L, ceil(L / S) fragments; none for an empty payload. */
  lemma FragmentCount(data: seq<byte>, size: nat)
    requires size > 0
    ensures |Fragments(data, size)| == (|data| + size - 1) / size
    ensures |Fragments(data, size)| == 0 <==> |data| == 0
  {
    RangeLength(|data|, size);
  }

  /** Every fragment but the last is a full `packet_size` slice; the last holds the remainder. */
  lemma FragmentLengths(data: seq<byte>, size: nat)
    requires size > 0
    ensures var f := Fragments(data, size);
      (forall k :: 0 <= k < |f| - 1 ==> |f[k]| == size) &&
      (|f| > 0 ==> |f[|f| - 1]| == |data| - (|f| - 1) * size)
  {
    var rng := Range(0, |data|, size);
    var f := Fragments(data, size);
    forall k | 0 <= k < |f| - 1 ensures |f[k]| == size {
      assert rng[k + 1] == (k + 1) * size == rng[k] + size;
    }
  }

  /** (k + 1) * size written out, for the solver. */
  lemma MulSucc(k: int, size: int)
    ensures (k + 1) * size == k * size + size
  {
  }

  /** Fragment k starts at byte k * size, before the end of the payload. */
  lemma FragmentAt(data: seq<byte>, size: nat, k: nat)
    requires size > 0 && k < |Fragments(data, size)|
    ensures k * size < |data|
    ensures Fragments(data, size)[k] == data[k * size..Min(k * size + size, |data|)]
  {
    var rng := Range(0, |data|, size);
    assert rng[k] == k * size;
  }

  lemma {:induction false} FragmentPrefix(data: seq<byte>, size: nat, j: nat)
    requires size > 0 && j <= |Fragments(data, size)|
    ensures Join(Fragments(data, size)[..j]) == data[..Min(j * size, |data|)]
  {
    var f := Fragments(data, size);
    if j > 0 {
      FragmentPrefix(data, size, j - 1);
      var lo := (j - 1) * size;
      FragmentAt(data, size, j - 1);
      MulSucc(j - 1, size);
      var hi := Min(lo + size, |data|);
      TakeNext(f[..j - 1], f, j - 1, f[j - 1]);
      JoinSnoc(f[..j - 1], f[j - 1]);
      TakeSplit(data, lo, hi);
    }
  }

  /** The fragments are consecutive, do not overlap, and joined in order give back the payload. */
  lemma FragmentsCover(data: seq<byte>, size: nat)
    requires size > 0
    ensures Join(Fragments(data, size)) == data
  {
    var f := Fragments(data, size);
    var n := |f|;
    FragmentPrefix(data, size, n);
    assert f[..n] == f;
    if n > 0 {
      var rng := Range(0, |data|, size);
      assert |data| <= rng[n - 1] + size;
      assert rng[n - 1] == (n - 1) * size;
      MulSucc(n - 1, size);
    }
    assert data[..Min(n * size, |data|)] == data;
  }

  // ---- the packets of one item -----------------------------------------------------------

  /** The packets sent for one item, or the exception raised at its first `struct.pack`.
      All packets of an item share metadata, data_index and packet_count, and packet_index
      never exceeds packet_count; so packing fails at the first packet or not at all. */
  function ItemPackets(metadata: int, dataIndex: int, data: seq<byte>, size: nat): (r: Result<seq<seq<byte>>>)
    requires size > 0
    ensures r.Err? ==> r.error == FailedToCreatePacketError && |data| > 0
    ensures r.Ok? ==> |r.value| == |Fragments(data, size)|
    ensures r.Ok? ==> forall k :: 0 <= k < |r.value| ==> PACKET_HEADER_SIZE < |r.value[k]| <= PACKET_HEADER_SIZE + size
  {
    var frags := Fragments(data, size);
    var count := |frags|;
    if count > 0 && !Packable(Header(metadata, dataIndex, 1, count)) then Err(FailedToCreatePacketError)
    else Ok(seq(count, k requires 0 <= k < count =>
      Pack(Header(metadata, dataIndex, k + 1, count)).value + frags[k]))
  }

  /** An item fails exactly when it has data and one of its shared header fields is not a u32. */
  lemma ItemPacketsFail(metadata: int, dataIndex: int, data: seq<byte>, size: nat)
    requires size > 0
    ensures ItemPackets(metadata, dataIndex, data, size).Err? <==>
      |data| > 0 && !(IsU32(metadata) && IsU32(dataIndex) && IsU32((|data| + size - 1) / size))
    ensures ItemPackets(metadata, dataIndex, data, size).Err? ==>
      ItemPackets(metadata, dataIndex, data, size).error == FailedToCreatePacketError
  {
    FragmentCount(data, size);
  }

  /** Packet k (0-based) is the header (metadata, data_index, k + 1, count) followed by fragment k,
      and the receiver's split at byte 16 recovers both. */
  lemma ItemPacketLayout(metadata: int, dataIndex: int, data: seq<byte>, size: nat, k: nat)
    requires size > 0
    requires ItemPackets(metadata, dataIndex, data, size).Ok?
    requires k < |ItemPackets(metadata, dataIndex, data, size).value|
    ensures var ps := ItemPackets(metadata, dataIndex, data, size).value;
      var frags := Fragments(data, size);
      |ps| == |frags| &&
      |ps[k]| == PACKET_HEADER_SIZE + |frags[k]| &&
      Unpack(ps[k][..PACKET_HEADER_SIZE]) == Ok(Header(metadata, dataIndex, k + 1, |ps|)) &&
      ps[k][PACKET_HEADER_SIZE..] == frags[k]
  {
    var frags := Fragments(data, size);
    SplitPacket(Header(metadata, dataIndex, k + 1, |frags|), frags[k]);
  }

  /** With a validated packet size every packet fits in one IPv4 UDP datagram. */
  lemma PacketsFitDatagram(metadata: int, dataIndex: int, data: seq<byte>, size: nat, k: nat)
    requires 0 < size <= PACKET_SIZE_MAX
    requires ItemPackets(metadata, dataIndex, data, size).Ok?
    requires k < |ItemPackets(metadata, dataIndex, data, size).value|
    ensures |ItemPackets(metadata, dataIndex, data, size).value[k]| <= PACKET_MAX_SIZE
  {
    ItemPacketLayout(metadata, dataIndex, data, size, k);
    FragmentLengths(data, size);
    var f := Fragments(data, size);
    assert |f[k]| <= size;
  }

  // ---- the whole stream ------------------------------------------------------------------

  /** What one pull leads to: the packets of its item, or the exception that ends the stream
      before any of them is sent (sender.py:39-79). TypeError and exceptions of the generator
      are wrapped as FailedToDataGenerationError; the ValueError of unpacking an iterable of
      the wrong length is not caught by the `except TypeError` of sender.py:50. */
  function PullPackets(p: Pull, size: nat, dataIndex: int): (r: Result<seq<seq<byte>>>)
    requires size > 0
    ensures p.YieldWrongArity? ==> r == Err(ValueError)
    ensures p.Raise? || p.YieldNotIterable? ==> r == Err(FailedToDataGenerationError)
    ensures p.Yield? && r.Err? ==> r.error == FailedToCreatePacketError
  {
    match p
    case Yield(metadata, data) => ItemPackets(metadata, dataIndex, data, size)
    case YieldWrongArity => Err(ValueError)
    case _ => Err(FailedToDataGenerationError)
  }

  /** The plan of the stream: what packing each pull gives, in pull order. */
  function Plan(pulls: seq<Pull>, size: nat, dataIndex: int): (r: seq<Result<seq<seq<byte>>>>)
    requires size > 0
    decreases |pulls|
    ensures |r| == |pulls|
  {
    if pulls == [] then [] else [PullPackets(pulls[0], size, dataIndex)] + Plan(pulls[1..], size, dataIndex + 1)
  }

  /** Item k is pulled k-th and numbered dataIndex + k: data_index starts at dataIndex and goes
      up by one per pull, items without data included. */
  lemma PlanNumbering(pulls: seq<Pull>, size: nat, dataIndex: int)
    requires size > 0
    ensures forall k :: 0 <= k < |pulls| ==> Plan(pulls, size, dataIndex)[k] == PullPackets(pulls[k], size, dataIndex + k)
  {
    forall k | 0 <= k < |pulls| ensures Plan(pulls, size, dataIndex)[k] == PullPackets(pulls[k], size, dataIndex + k) {
      PlanAt(pulls, size, dataIndex, k);
    }
  }

  lemma {:induction false} PlanAt(pulls: seq<Pull>, size: nat, dataIndex: int, k: nat)
    requires size > 0 && k < |pulls|
    ensures Plan(pulls, size, dataIndex)[k] == PullPackets(pulls[k], size, dataIndex + k)
    decreases k
  {
    if k > 0 {
      PlanAt(pulls[1..], size, dataIndex + 1, k - 1);
      assert pulls[1..][k - 1] == pulls[k];
    }
  }

  /** What crossed the socket, and the exception that ended the stream (None: StopIteration). */
  datatype Transmission = Transmission(sent: seq<seq<byte>>, error: Option<Error>)

  function Prepend(ps: seq<seq<byte>>, t: Transmission): Transmission {
    Transmission(ps + t.sent, t.error)
  }

  lemma PrependTwice(a: seq<seq<byte>>, b: seq<seq<byte>>, t: Transmission)
    ensures Prepend(a, Prepend(b, t)) == Prepend(a + b, t)
  {
    assert a + (b + t.sent) == (a + b) + t.sent;
  }

  /** The count of the failing `sendto` call once `n` more calls have succeeded. */
  function Shift(failAt: Option<nat>, n: nat): (r: Option<nat>)
    requires failAt.Some? ==> n <= failAt.value
    ensures r.Some? <==> failAt.Some?
    ensures r.Some? ==> n + r.value == failAt.value
  {
    if failAt.Some? then Some(failAt.value - n) else None
  }

  /** Sending the packets of one item, one `sendto` each, where the call numbered failAt raises
      (sender.py:81-86): the packets before it are sent, the stream ends. */
  function SendItem(item: Result<seq<seq<byte>>>, failAt: Option<nat>): (t: Transmission)
    ensures item.Ok? ==> t.sent <= item.value
    ensures t.error.None? <==> item.Ok? && (failAt.None? || |item.value| <= failAt.value)
    ensures t.error == Some(FailedToSendPacketError) && item.Ok? ==> failAt == Some(|t.sent|)
    ensures item.Ok? && failAt.Some? && failAt.value < |item.value| ==>
      |t.sent| == failAt.value && t.error == Some(FailedToSendPacketError)
  {
    if item.Err? then Transmission([], Some(item.error))
    else if failAt.Some? && failAt.value < |item.value| then
      Transmission(item.value[..failAt.value], Some(FailedToSendPacketError))
    else Transmission(item.value, None)
  }

  /** Carrying out a plan until its first exception. */
  function Send(plan: seq<Result<seq<seq<byte>>>>, failAt: Option<nat>): (t: Transmission)
    decreases |plan|
    ensures failAt.Some? ==> |t.sent| <= failAt.value
  {
    if plan == [] then Transmission([], None)
    else
      var first := SendItem(plan[0], failAt);
      if first.error.Some? then first
      else Prepend(first.sent, Send(plan[1..], Shift(failAt, |first.sent|)))
  }

  /** The specification of the loop at sender.py:37-88. `failAt` is the number of `sendto`
      calls that succeed before one raises (None: none raises). */
  function Transmit(pulls: seq<Pull>, size: nat, failAt: Option<nat>): (r: Transmission)
    requires size > 0
    ensures pulls == [] ==> r == Transmission([], None)
    ensures failAt.Some? ==> |r.sent| <= failAt.value
    ensures r.error == Some(FailedToSendPacketError) ==> failAt == Some(|r.sent|)
  {
    PlanNumbering(pulls, size, 1);
    SendFailsAtFailAt(Plan(pulls, size, 1), failAt);
    Send(Plan(pulls, size, 1), failAt)
  }

  /** When no item fails with a send error of its own, a send error ends the stream exactly at
      the `sendto` call numbered failAt. */
  lemma {:induction false} SendFailsAtFailAt(plan: seq<Result<seq<seq<byte>>>>, failAt: Option<nat>)
    requires forall k :: 0 <= k < |plan| ==> plan[k] != Err(FailedToSendPacketError)
    ensures Send(plan, failAt).error == Some(FailedToSendPacketError) ==> failAt == Some(|Send(plan, failAt).sent|)
    decreases |plan|
  {
    if plan != [] {
      var first := SendItem(plan[0], failAt);
      if first.error.None? {
        assert forall k :: 0 <= k < |plan[1..]| ==> plan[1..][k] == plan[k + 1];
        SendFailsAtFailAt(plan[1..], Shift(failAt, |first.sent|));
      }
    }
  }

  /** Every item is sent completely or not at all unless a `sendto` fails; no packet of an item
      is sent once packing has failed; what is sent is a prefix of the item's packets. */
  lemma SendItemParts(item: Result<seq<seq<byte>>>, failAt: Option<nat>)
    ensures var t := SendItem(item, failAt);
      (item.Err? ==> t.sent == [] && t.error == Some(item.error)) &&
      (item.Ok? ==> t.sent <= item.value) &&
      (item.Ok? && t.error.None? ==> t.sent == item.value) &&
      (t.error.None? ==> failAt.Some? ==> |t.sent| <= failAt.value) &&
      (t.error == Some(FailedToSendPacketError) && item.Ok? ==> failAt == Some(|t.sent|)) &&
      (item.Ok? && failAt.Some? && failAt.value < |item.value| ==>
         t.sent == item.value[..failAt.value] && t.error == Some(FailedToSendPacketError))
  {
  }

  /** A failing `sendto` cuts the failure-free transmission short: when call n falls within
      the packets that would otherwise be sent, exactly the first n are sent and the stream
      ends with FailedToSendPacketError; otherwise the failing call is never reached. */
  lemma {:induction false} SendFailureCutsShort(plan: seq<Result<seq<seq<byte>>>>, n: nat)
    ensures var free := Send(plan, None);
      Send(plan, Some(n)) ==
        if n < |free.sent| then Transmission(free.sent[..n], Some(FailedToSendPacketError)) else free
    decreases |plan|
  {
    if plan != [] && plan[0].Ok? {
      var ps := plan[0].value;
      var rest := Send(plan[1..], None);
      assert Send(plan, None) == Prepend(ps, rest);
      if n >= |ps| {
        SendFailureCutsShort(plan[1..], n - |ps|);
        if n - |ps| < |rest.sent| {
          assert (ps + rest.sent)[..n] == ps + rest.sent[..n - |ps|];
        }
      } else {
        assert (ps + rest.sent)[..n] == ps[..n];
      }
    }
  }

  /** The same for the whole stream: the generator and the packet size fixed, the run whose
      `sendto` call n raises is the failure-free run cut after n packets, with
      FailedToSendPacketError, or the failure-free run itself when it makes n calls or fewer. */
  lemma TransmitFailureCutsShort(pulls: seq<Pull>, size: nat, n: nat)
    requires size > 0
    ensures var free := Transmit(pulls, size, None);
      Transmit(pulls, size, Some(n)) ==
        if n < |free.sent| then Transmission(free.sent[..n], Some(FailedToSendPacketError)) else free
  {
    SendFailureCutsShort(Plan(pulls, size, 1), n);
  }

  /** A stream that ends without exception sent every planned packet, in plan order. */
  lemma {:induction false} SendCompletes(plan: seq<Result<seq<seq<byte>>>>, failAt: Option<nat>)
    requires Send(plan, failAt).error.None?
    ensures forall k :: 0 <= k < |plan| ==> plan[k].Ok?
    ensures Send(plan, failAt).sent == JoinPlan(plan)
    ensures failAt.Some? ==> |Send(plan, failAt).sent| <= failAt.value
  {
    if plan != [] {
      var first := SendItem(plan[0], failAt);
      SendCompletes(plan[1..], Shift(failAt, |first.sent|));
      forall k | 0 <= k < |plan| ensures plan[k].Ok? {
        if k > 0 { assert plan[k] == plan[1..][k - 1]; }
      }
    }
  }

  /** All packets of a plan whose every entry packs. */
  function JoinPlan(plan: seq<Result<seq<seq<byte>>>>): seq<seq<byte>>
    requires forall k :: 0 <= k < |plan| ==> plan[k].Ok?
  {
    if plan == [] then [] else plan[0].value + JoinPlan(plan[1..])
  }

  /** The `for` loop of sender.py:62-86 for one item. */
  method SendPackets(metadata: int, dataIndex: int, data: seq<byte>, size: nat, failAt: Option<nat>)
    returns (sent: seq<seq<byte>>, error: Option<Error>)
    requires size > 0
    ensures Transmission(sent, error) == SendItem(ItemPackets(metadata, dataIndex, data, size), failAt)
  {
    sent, error := [], None;
    var rng := Range(0, |data|, size);
    var packetCount := |rng|;
    ghost var item := ItemPackets(metadata, dataIndex, data, size);
    for k := 0 to packetCount
      invariant k > 0 ==> item.Ok? && |item.value| == packetCount
      invariant failAt.Some? ==> k <= failAt.value
      invariant item.Ok? && |item.value| == packetCount ==> sent == item.value[..k]
      invariant !item.Ok? ==> sent == []
    {
      var header := Pack(Header(metadata, dataIndex, k + 1, packetCount));
      if header.Err? {
        assert item.Err? && item.error == FailedToCreatePacketError by {
          PacketStep(metadata, dataIndex, data, size, k);
        }
        error := Some(FailedToCreatePacketError);
        return;
      }
      var packet := header.value + PySlice(data, rng[k], rng[k] + size);
      assert item.Ok? && |item.value| == packetCount && packet == item.value[k] by {
        PacketStep(metadata, dataIndex, data, size, k);
      }
      if failAt == Some(k) {
        error := Some(FailedToSendPacketError);
        return;
      }
      assert sent + [packet] == item.value[..k + 1] by {
        TakeNext(sent, item.value, k, packet);
      }
      sent := sent + [packet];
    }
    assert packetCount > 0 ==> item.value[..packetCount] == item.value;
  }

  /** The k-th pass of the loop of sender.py:62-86: a header that does not pack means the whole
      item fails, and one that packs builds packet k of the item. */
  lemma PacketStep(metadata: int, dataIndex: int, data: seq<byte>, size: nat, k: nat)
    requires size > 0 && k < |Range(0, |data|, size)|
    ensures var rng := Range(0, |data|, size);
      var item := ItemPackets(metadata, dataIndex, data, size);
      var header := Pack(Header(metadata, dataIndex, k + 1, |rng|));
      (header.Err? ==> item.Err? && item.error == FailedToCreatePacketError) &&
      (header.Ok? ==>
         item.Ok? && |item.value| == |rng| &&
         item.value[k] == header.value + PySlice(data, rng[k], rng[k] + size))
  {
    FragmentSlice(data, size, k);
    PacketAt(metadata, dataIndex, data, size, k);
  }

  lemma FragmentSlice(data: seq<byte>, size: nat, k: nat)
    requires size > 0 && k < |Range(0, |data|, size)|
    ensures var rng := Range(0, |data|, size);
      |Fragments(data, size)| == |rng| && Fragments(data, size)[k] == PySlice(data, rng[k], rng[k] + size)
  {
  }

  lemma PacketAt(metadata: int, dataIndex: int, data: seq<byte>, size: nat, k: nat)
    requires size > 0 && k < |Fragments(data, size)|
    ensures var frags := Fragments(data, size);
      var item := ItemPackets(metadata, dataIndex, data, size);
      var header := Pack(Header(metadata, dataIndex, k + 1, |frags|));
      (header.Err? ==> item.Err? && item.error == FailedToCreatePacketError) &&
      (header.Ok? ==> item.Ok? && |item.value| == |frags| && item.value[k] == header.value + frags[k])
  {
    var frags := Fragments(data, size);
    assert Packable(Header(metadata, dataIndex, k + 1, |frags|)) <==> Packable(Header(metadata, dataIndex, 1, |frags|));
  }

  /** One pull of the stream: the item is sent, and unless that raised, the rest follows. */
  lemma TransmitStep(pulls: seq<Pull>, size: nat, dataIndex: int, failAt: Option<nat>)
    requires size > 0 && pulls != []
    ensures var first := SendItem(PullPackets(pulls[0], size, dataIndex), failAt);
      Send(Plan(pulls, size, dataIndex), failAt) ==
        if first.error.Some? then first
        else Prepend(first.sent, Send(Plan(pulls[1..], size, dataIndex + 1), Shift(failAt, |first.sent|)))
  {
    var plan := Plan(pulls, size, dataIndex);
    assert plan[1..] == Plan(pulls[1..], size, dataIndex + 1);
    SendItemParts(plan[0], failAt);
  }

  /** The loop of sender.py:37-88, run once validation has passed. */
  method Stream(pulls: seq<Pull>, size: nat, failAt: Option<nat>) returns (sent: seq<seq<byte>>, error: Option<Error>)
    requires size > 0
    ensures Transmission(sent, error) == Transmit(pulls, size, failAt)
  {
    sent, error := [], None;
    var dataIndex := 1;
    assert pulls[0..] == pulls && Shift(failAt, 0) == failAt;
    assert Prepend([], Transmit(pulls, size, failAt)) == Transmit(pulls, size, failAt);
    for i := 0 to |pulls|
      invariant dataIndex == 1 + i
      invariant failAt.Some? ==> |sent| <= failAt.value
      invariant Transmit(pulls, size, failAt) ==
        Prepend(sent, Send(Plan(pulls[i..], size, dataIndex), Shift(failAt, |sent|)))
    {
      var rest := Shift(failAt, |sent|);
      match pulls[i]
      case Raise => {
        PullFails(pulls[i..], size, dataIndex, rest);
        error := Some(FailedToDataGenerationError);
        return;
      }
      case YieldNotIterable => {
        PullFails(pulls[i..], size, dataIndex, rest);
        error := Some(FailedToDataGenerationError);
        return;
      }
      case YieldWrongArity => {
        PullFails(pulls[i..], size, dataIndex, rest);
        error := Some(ValueError);
        return;
      }
      case Yield(metadata, data) => {
        var itemSent, itemError := SendPackets(metadata, dataIndex, data, size, rest);
        if itemError.Some? {
          PullSends(pulls[i..], size, dataIndex, rest, itemSent, itemError);
          sent, error := sent + itemSent, itemError;
          return;
        }
        StreamContinues(pulls, size, failAt, i, sent, itemSent);
        sent := sent + itemSent;
      }
      dataIndex := dataIndex + 1;
    }
    assert Send(Plan(pulls[|pulls|..], size, dataIndex), Shift(failAt, |sent|)) == Transmission([], None);
    assert sent + [] == sent;
  }

  /** The invariant of the loop in Stream after an item sent without error: the sent packets
      grow by the item's, and the stream goes on with the next pull. */
  lemma StreamContinues(pulls: seq<Pull>, size: nat, failAt: Option<nat>, i: nat,
                        sentBefore: seq<seq<byte>>, itemSent: seq<seq<byte>>)
    requires size > 0 && i < |pulls| && pulls[i].Yield?
    requires failAt.Some? ==> |sentBefore| <= failAt.value
    requires Transmission(itemSent, None) ==
      SendItem(ItemPackets(pulls[i].metadata, 1 + i, pulls[i].data, size), Shift(failAt, |sentBefore|))
    ensures failAt.Some? ==> |sentBefore + itemSent| <= failAt.value
    ensures Prepend(sentBefore, Send(Plan(pulls[i..], size, 1 + i), Shift(failAt, |sentBefore|))) ==
      Prepend(sentBefore + itemSent, Send(Plan(pulls[i + 1..], size, 2 + i), Shift(failAt, |sentBefore + itemSent|)))
  {
    var rest := Shift(failAt, |sentBefore|);
    var tail := Send(Plan(pulls[i + 1..], size, 2 + i), Shift(failAt, |sentBefore + itemSent|));
    assert (rest.Some? ==> |itemSent| <= rest.value) &&
           Send(Plan(pulls[i..], size, 1 + i), rest) == Prepend(itemSent, tail) by {
      assert pulls[i..][0] == pulls[i];
      PullSends(pulls[i..], size, 1 + i, rest, itemSent, None);
      assert pulls[i..][1..] == pulls[i + 1..];
      assert Shift(rest, |itemSent|) == Shift(failAt, |sentBefore + itemSent|);
    }
    PrependTwice(sentBefore, itemSent, tail);
  }

  /** A pull that yields no 2-tuple ends the stream with its exception; nothing more is sent. */
  lemma PullFails(pulls: seq<Pull>, size: nat, dataIndex: int, failAt: Option<nat>)
    requires size > 0 && pulls != [] && !pulls[0].Yield?
    ensures Send(Plan(pulls, size, dataIndex), failAt) ==
      Transmission([], Some(if pulls[0].YieldWrongArity? then ValueError else FailedToDataGenerationError))
  {
    TransmitStep(pulls, size, dataIndex, failAt);
  }

  /** A pull that yields an item sends what SendPackets sends, and unless that raised, the rest
      of the stream follows. */
  lemma PullSends(pulls: seq<Pull>, size: nat, dataIndex: int, failAt: Option<nat>,
                  itemSent: seq<seq<byte>>, itemError: Option<Error>)
    requires size > 0 && pulls != [] && pulls[0].Yield?
    requires Transmission(itemSent, itemError) ==
      SendItem(ItemPackets(pulls[0].metadata, dataIndex, pulls[0].data, size), failAt)
    ensures itemError.Some? ==> Send(Plan(pulls, size, dataIndex), failAt) == Transmission(itemSent, itemError)
    ensures itemError.None? && failAt.Some? ==> |itemSent| <= failAt.value
    ensures itemError.None? ==>
      Send(Plan(pulls, size, dataIndex), failAt) ==
        Prepend(itemSent, Send(Plan(pulls[1..], size, dataIndex + 1), Shift(failAt, |itemSent|)))
  {
    TransmitStep(pulls, size, dataIndex, failAt);
    SendItemParts(ItemPackets(pulls[0].metadata, dataIndex, pulls[0].data, size), failAt);
  }

  /** `stream_via_udp(generator, ip, port, packet_size)` (sender.py:21-88): returns the packets
      passed to `sendto`, in order, and the exception that ended the stream, if any. */
  method StreamViaUdp(pulls: seq<Pull>, ip: PyValue, port: PyValue, packetSize: PyValue, failAt: Option<nat>)
    returns (sent: seq<seq<byte>>, error: Option<Error>)
    ensures ValidateIPv4(ip).Fail? ==> sent == [] && error == Some(InvalidIPAddressError)
    ensures ValidateIPv4(ip).Pass? && ValidatePort(port).Fail? ==> sent == [] && error == Some(InvalidPortError)
    ensures ValidateIPv4(ip).Pass? && ValidatePort(port).Pass? && ValidatePacketSize(packetSize).Fail? ==>
      sent == [] && error == Some(InvalidPacketSizeError)
    ensures ValidateIPv4(ip).Pass? && ValidatePort(port).Pass? && ValidatePacketSize(packetSize).Pass? ==>
      Transmission(sent, error) == Transmit(pulls, packetSize.i, failAt)
  {
    sent, error := [], None;
    var v := ValidateIPv4(ip);
    if v.Fail? { error := Some(v.error); return; }
    v := ValidatePort(port);
    if v.Fail? { error := Some(v.error); return; }
    v := ValidatePacketSize(packetSize);
    if v.Fail? { error := Some(v.error); return; }
    sent, error := Stream(pulls, packetSize.i, failAt);
  }
}

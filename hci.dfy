/**
 * The HCI transport layer of SimpleBlueNRG_HCI/hci.c: a fixed arena of
 * HCI_READ_PACKET_NUM_MAX receive buffers, the free pool and the FIFO receive
 * queue threaded through it, the reader thread's drain loop, the event drain
 * HCI_Process, and the synchronous request/response engine hci_send_req.
 *
 * Buffers are named by their index in the arena; the intrusive lists of the
 * C code are sequences of indices. Every buffer is at every moment owned by
 * exactly one of the pool, the receive queue, the temporary queue of a
 * running request, or a local variable holding it in flight.
 */
module Hci {
  import opened Bytes
  import opened HciPacket

  /** HCI_READ_PACKET_NUM_MAX: the number of receive buffers. */
  const HCI_READ_PACKET_NUM_MAX: nat := 5

  /** A receive buffer, named by its index in hciReadPacketBuffer. */
  type BufferId = b: nat | b < HCI_READ_PACKET_NUM_MAX

  /** Every buffer of the arena, in index order. */
  function Arena(): (a: seq<BufferId>)
    ensures |a| == HCI_READ_PACKET_NUM_MAX
    ensures forall i :: 0 <= i < |a| ==> a[i] == i
  {
    [0, 1, 2, 3, 4]
  }

  /** The lists together hold every buffer of the arena exactly once. */
  ghost predicate Conserved(parts: seq<BufferId>)
  {
    |parts| == HCI_READ_PACKET_NUM_MAX && forall b: BufferId :: multiset(parts)[b] == 1
  }

  /** HCI_Init's pool, every buffer in index order, is conserved. */
  lemma ArenaConserved()
    ensures Conserved(Arena())
  {
    assert Arena() == [0, 1, 2, 3, 4];
    forall b: BufferId
      ensures multiset(Arena())[b] == 1
    {
      assert b == 0 || b == 1 || b == 2 || b == 3 || b == 4;
    }
  }

  /** Moving buffers between lists, in any order, conserves them. */
  lemma ConservedRearranged(parts: seq<BufferId>, parts': seq<BufferId>)
    requires Conserved(parts) && multiset(parts') == multiset(parts)
    ensures Conserved(parts')
  {
    assert |parts'| == |multiset(parts')| == |multiset(parts)| == |parts|;
  }

  // Each way the C code moves one buffer between lists conserves the buffers.

  /** A receive-queue head returned to the pool tail (HCI_Process, free_event_list). */
  lemma ConservedRecycle(pool: seq<BufferId>, rx: seq<BufferId>, temp: seq<BufferId>)
    requires Conserved(pool + rx + temp) && rx != []
    ensures Conserved((pool + [rx[0]]) + rx[1..] + temp)
  {
    assert rx == [rx[0]] + rx[1..];
    assert multiset((pool + [rx[0]]) + rx[1..] + temp) == multiset(pool + rx + temp);
    ConservedRearranged(pool + rx + temp, (pool + [rx[0]]) + rx[1..] + temp);
  }

  /** A pool head filled and appended to the receive queue (the reader's drain loop). */
  lemma ConservedEnqueue(pool: seq<BufferId>, rx: seq<BufferId>, temp: seq<BufferId>)
    requires Conserved(pool + rx + temp) && pool != []
    ensures Conserved(pool[1..] + (rx + [pool[0]]) + temp)
  {
    assert pool == [pool[0]] + pool[1..];
    assert multiset(pool[1..] + (rx + [pool[0]]) + temp) == multiset(pool + rx + temp);
    ConservedRearranged(pool + rx + temp, pool[1..] + (rx + [pool[0]]) + temp);
  }

  /** A receive-queue head taken off by hci_send_req, which now holds it. */
  lemma ConservedTake(pool: seq<BufferId>, rx: seq<BufferId>, temp: seq<BufferId>)
    requires Conserved(pool + rx + temp) && rx != []
    ensures Conserved(pool + rx[1..] + temp + [rx[0]])
  {
    assert rx == [rx[0]] + rx[1..];
    assert multiset(pool + rx[1..] + temp + [rx[0]]) == multiset(pool + rx + temp);
    ConservedRearranged(pool + rx + temp, pool + rx[1..] + temp + [rx[0]]);
  }

  /** A held buffer set aside at the temporary-queue tail. */
  lemma ConservedSetAside(pool: seq<BufferId>, rx: seq<BufferId>, temp: seq<BufferId>, cur: BufferId)
    requires Conserved(pool + rx + temp + [cur])
    ensures Conserved(pool + rx + (temp + [cur]))
  {
    assert pool + rx + (temp + [cur]) == pool + rx + temp + [cur];
  }

  /** A held buffer discarded at the pool tail. */
  lemma ConservedDiscard(pool: seq<BufferId>, rx: seq<BufferId>, temp: seq<BufferId>, cur: BufferId)
    requires Conserved(pool + rx + temp + [cur])
    ensures Conserved((pool + [cur]) + rx + temp)
  {
    assert multiset((pool + [cur]) + rx + temp) == multiset(pool + rx + temp + [cur]);
    ConservedRearranged(pool + rx + temp + [cur], (pool + [cur]) + rx + temp);
  }

  /** A held buffer returned to the pool head (hci_send_req's failed and done exits). */
  lemma ConservedRelease(pool: seq<BufferId>, rx: seq<BufferId>, temp: seq<BufferId>, cur: BufferId)
    requires Conserved(pool + rx + temp + [cur])
    ensures Conserved(([cur] + pool) + rx + temp)
  {
    assert multiset(([cur] + pool) + rx + temp) == multiset(pool + rx + temp + [cur]);
    ConservedRearranged(pool + rx + temp + [cur], ([cur] + pool) + rx + temp);
  }

  /** The temporary queue spliced onto the receive-queue head (move_list at hci_send_req's exit). */
  lemma ConservedSplice(pool: seq<BufferId>, rx: seq<BufferId>, temp: seq<BufferId>)
    requires Conserved(pool + rx + temp)
    ensures Conserved(pool + (temp + rx) + [])
  {
    assert multiset(pool + (temp + rx) + []) == multiset(pool + rx + temp);
    ConservedRearranged(pool + rx + temp, pool + (temp + rx) + []);
  }

  /**
   * Conservation means ownership is exclusive: each buffer is in exactly one
   * of the three lists, and the lists hold HCI_READ_PACKET_NUM_MAX buffers
   * between them.
   */
  lemma ConservedParts(pool: seq<BufferId>, rx: seq<BufferId>, temp: seq<BufferId>)
    requires Conserved(pool + rx + temp)
    ensures |pool| + |rx| + |temp| == HCI_READ_PACKET_NUM_MAX
    ensures forall b :: b in pool ==> b !in rx && b !in temp
    ensures forall b :: b in rx ==> b !in temp
  {
    forall b | b in pool
      ensures b !in rx && b !in temp
    {
      assert multiset(pool + rx + temp)[b] == multiset(pool)[b] + multiset(rx)[b] + multiset(temp)[b];
    }
    forall b | b in rx
      ensures b !in temp
    {
      assert multiset(pool + rx + temp)[b] == multiset(pool)[b] + multiset(rx)[b] + multiset(temp)[b];
    }
  }

  /** BlueNRG_SPI_Read_All fills at most HCI_READ_PACKET_SIZE bytes of the buffer. */
  function ReadAll(p: Packet): (r: Packet)
    ensures |r| <= HCI_READ_PACKET_SIZE && |r| <= |p| && r == p[..|r|]
    ensures |p| <= HCI_READ_PACKET_SIZE ==> r == p
  {
    if |p| <= HCI_READ_PACKET_SIZE then p else p[..HCI_READ_PACKET_SIZE]
  }

  /** The reads, in order, that the reader queues out of a sequence of reads. */
  function AcceptedReads(ps: seq<Packet>): (qs: seq<Packet>)
    ensures |qs| <= |ps|
  {
    if ps == [] then []
    else
      var last := ReadAll(ps[|ps| - 1]);
      AcceptedReads(ps[..|ps| - 1]) + (if Accepted(last) then [last] else [])
  }

  /** One more read extends the queued packets by that read, when it is accepted. */
  lemma AcceptedReadsNext(ps: seq<Packet>, n: nat)
    requires n < |ps|
    ensures Accepted(ReadAll(ps[n])) ==> AcceptedReads(ps[..n + 1]) == AcceptedReads(ps[..n]) + [ReadAll(ps[n])]
    ensures !Accepted(ReadAll(ps[n])) ==> AcceptedReads(ps[..n + 1]) == AcceptedReads(ps[..n])
  {
    assert ps[..n + 1][..n] == ps[..n];
  }

  /** Only verified packets that fit a buffer are ever queued. */
  lemma {:induction false} AcceptedReadsAccepted(ps: seq<Packet>)
    ensures forall i :: 0 <= i < |AcceptedReads(ps)| ==>
      Accepted(AcceptedReads(ps)[i]) && |AcceptedReads(ps)[i]| <= HCI_READ_PACKET_SIZE
  {
    if ps != [] {
      AcceptedReadsAccepted(ps[..|ps| - 1]);
    }
  }

  /** Every read of `ps` that the reader would queue can be parsed by hci_send_req. */
  predicate ReadsFramed(ps: seq<Packet>)
  {
    forall i :: 0 <= i < |ps| ==> Accepted(ReadAll(ps[i])) ==> Parsable(ReadAll(ps[i]))
  }

  /** What the reader queues out of framed reads can be parsed. */
  lemma {:induction false} AcceptedReadsParsable(ps: seq<Packet>)
    requires ReadsFramed(ps)
    ensures forall i :: 0 <= i < |AcceptedReads(ps)| ==> Parsable(AcceptedReads(ps)[i])
  {
    if ps != [] {
      AcceptedReadsParsable(ps[..|ps| - 1]);
    }
  }

  /** A stream of malformed or empty reads queues nothing. */
  lemma {:induction false} MalformedNeverQueued(ps: seq<Packet>)
    requires forall i :: 0 <= i < |ps| ==> !Accepted(ReadAll(ps[i]))
    ensures AcceptedReads(ps) == []
  {
    if ps != [] {
      MalformedNeverQueued(ps[..|ps| - 1]);
    }
  }

  /** Framed events that fit a buffer are queued byte for byte, in order. */
  lemma {:induction false} EventsQueuedVerbatim(ps: seq<Packet>)
    requires forall i :: 0 <= i < |ps| ==> Accepted(ps[i]) && |ps[i]| <= HCI_READ_PACKET_SIZE
    ensures AcceptedReads(ps) == ps
  {
    if ps != [] {
      var init, last := ps[..|ps| - 1], ps[|ps| - 1];
      EventsQueuedVerbatim(init);
      assert ReadAll(last) == last && Accepted(last);
      assert ps == init + [last];
    }
  }

  lemma AppendAssoc<T>(a: seq<T>, b: seq<T>, c: seq<T>)
    ensures (a + b) + c == a + (b + c)
  {
  }

  /** The packets a list of buffers holds, in list order. */
  function Held(arena: seq<Packet>, bs: seq<BufferId>): (ps: seq<Packet>)
    requires |arena| == HCI_READ_PACKET_NUM_MAX
    ensures |ps| == |bs|
  {
    seq(|bs|, i requires 0 <= i < |bs| => arena[bs[i]])
  }

  /** Position i of the held packets is the packet of the i-th buffer. */
  lemma HeldAt(arena: seq<Packet>, bs: seq<BufferId>)
    requires |arena| == HCI_READ_PACKET_NUM_MAX
    ensures forall i :: 0 <= i < |bs| ==> Held(arena, bs)[i] == arena[bs[i]]
  {
  }

  /** A buffer appended to a list appends its packet to what the list holds. */
  lemma HeldSnoc(arena: seq<Packet>, bs: seq<BufferId>, b: BufferId)
    requires |arena| == HCI_READ_PACKET_NUM_MAX
    ensures Held(arena, bs + [b]) == Held(arena, bs) + [arena[b]]
  {
  }

  /** Writing a buffer outside a list leaves what the list holds unchanged. */
  lemma HeldUnchanged(arena: seq<Packet>, bs: seq<BufferId>, b: BufferId, p: Packet)
    requires |arena| == HCI_READ_PACKET_NUM_MAX && b !in bs
    ensures Held(arena[b := p], bs) == Held(arena, bs)
  {
  }

  /**
   * The receive queue stays framed across a drain: buffers already queued
   * keep their packets and the newly queued ones hold framed reads.
   */
  lemma HeldParsable(arena0: seq<Packet>, rx0: seq<BufferId>, arena: seq<Packet>,
                     rx: seq<BufferId>, ps: seq<Packet>)
    requires |arena0| == HCI_READ_PACKET_NUM_MAX && |arena| == HCI_READ_PACKET_NUM_MAX
    requires forall i :: 0 <= i < |rx0| ==> Parsable(arena0[rx0[i]])
    requires forall i :: 0 <= i < |ps| ==> Parsable(ps[i])
    requires Held(arena, rx) == Held(arena0, rx0) + ps
    ensures forall i :: 0 <= i < |rx| ==> Parsable(arena[rx[i]])
  {
    HeldAt(arena, rx);
    HeldAt(arena0, rx0);
    forall i | 0 <= i < |rx|
      ensures Parsable(arena[rx[i]])
    {
      if i < |rx0| {
        assert arena[rx[i]] == Held(arena0, rx0)[i];
      } else {
        assert arena[rx[i]] == ps[i - |rx0|];
      }
    }
  }

  /** Both parts of a framed stream of reads are framed. */
  lemma ReadsFramedSplit(ps: seq<Packet>, k: nat)
    requires ReadsFramed(ps) && k <= |ps|
    ensures ReadsFramed(ps[..k]) && ReadsFramed(ps[k..])
  {
    assert forall i :: 0 <= i < k ==> ps[..k][i] == ps[i];
    assert forall i :: 0 <= i < |ps| - k ==> ps[k..][i] == ps[k + i];
  }

  /** Buffers whose packets are unchanged are still skipped by the switch of hci_send_req. */
  lemma HeldSkipped(arena0: seq<Packet>, arena: seq<Packet>, bs: seq<BufferId>,
                    opcode: int, event: int, rlen: int)
    requires |arena0| == HCI_READ_PACKET_NUM_MAX && |arena| == HCI_READ_PACKET_NUM_MAX && rlen >= 0
    requires Held(arena, bs) == Held(arena0, bs)
    requires forall i :: 0 <= i < |bs| ==> Parsable(arena0[bs[i]]) && Classify(arena0[bs[i]], opcode, event, rlen) == Skip
    ensures forall i :: 0 <= i < |bs| ==> Parsable(arena[bs[i]]) && Classify(arena[bs[i]], opcode, event, rlen) == Skip
  {
    HeldAt(arena0, bs);
    HeldAt(arena, bs);
  }

  /** What a list of buffers holds splits with the list. */
  lemma HeldAppend(arena: seq<Packet>, xs: seq<BufferId>, ys: seq<BufferId>)
    requires |arena| == HCI_READ_PACKET_NUM_MAX
    ensures Held(arena, xs + ys) == Held(arena, xs) + Held(arena, ys)
  {
  }

  /** Dropping the first k buffers of a list drops their packets. */
  lemma HeldDrop(arena: seq<Packet>, bs: seq<BufferId>, k: nat)
    requires |arena| == HCI_READ_PACKET_NUM_MAX && k <= |bs|
    ensures Held(arena, bs[k..]) == Held(arena, bs)[k..]
  {
  }

  /** The reads queued out of two stretches of reads are those of the first, then those of the second. */
  lemma {:induction false} AcceptedReadsAppend(ps: seq<Packet>, qs: seq<Packet>)
    ensures AcceptedReads(ps + qs) == AcceptedReads(ps) + AcceptedReads(qs)
    decreases |qs|
  {
    if qs == [] {
      assert ps + qs == ps;
    } else {
      var init, last := qs[..|qs| - 1], ReadAll(qs[|qs| - 1]);
      assert (ps + qs)[..|ps + qs| - 1] == ps + init;
      assert (ps + qs)[|ps + qs| - 1] == qs[|qs| - 1];
      AcceptedReadsAppend(ps, init);
      AppendAssoc(AcceptedReads(ps), AcceptedReads(init), if Accepted(last) then [last] else []);
    }
  }

  /** The elements of xs that mask marks, in order. */
  function Select<T>(xs: seq<T>, mask: seq<bool>): (ys: seq<T>)
    requires |xs| == |mask|
    ensures |ys| <= |xs|
  {
    if xs == [] then []
    else Select(xs[..|xs| - 1], mask[..|mask| - 1]) + (if mask[|mask| - 1] then [xs[|xs| - 1]] else [])
  }

  lemma SelectSnoc<T>(xs: seq<T>, mask: seq<bool>, x: T, m: bool)
    requires |xs| == |mask|
    ensures Select(xs + [x], mask + [m]) == Select(xs, mask) + (if m then [x] else [])
  {
    assert (xs + [x])[..|xs|] == xs;
    assert (mask + [m])[..|mask|] == mask;
  }

  /**
   * The bytes side of hci_send_req's search: the packets `seen`, as they
   * were when dequeued, followed by the packets `heldRx` of the receive
   * queue, are the packets `held0` queued when the search began followed by
   * the reads accepted since; `incoming` is what is left of `incoming0`;
   * the temporary queue holds the seen packets that `mask` marks as set
   * aside, in order.
   */
  ghost predicate SeenState(held0: seq<Packet>, incoming0: seq<Packet>, seen: seq<Packet>, mask: seq<bool>,
                            heldRx: seq<Packet>, heldTemp: seq<Packet>, incoming: seq<Packet>)
  {
    |incoming| <= |incoming0| && incoming == incoming0[|incoming0| - |incoming|..] &&
    |mask| == |seen| && heldTemp == Select(seen, mask) &&
    seen + heldRx == held0 + AcceptedReads(incoming0[..|incoming0| - |incoming|])
  }

  /** Reads queued while the search waits keep its bytes invariant. */
  lemma SeenStateWait(held0: seq<Packet>, incoming0: seq<Packet>, seen: seq<Packet>, mask: seq<bool>,
                      heldRx: seq<Packet>, heldTemp: seq<Packet>, incoming: seq<Packet>,
                      heldRx': seq<Packet>, incoming': seq<Packet>)
    requires SeenState(held0, incoming0, seen, mask, heldRx, heldTemp, incoming)
    requires |incoming'| <= |incoming| && incoming' == incoming[|incoming| - |incoming'|..]
    requires heldRx' == heldRx + AcceptedReads(incoming[..|incoming| - |incoming'|])
    ensures SeenState(held0, incoming0, seen, mask, heldRx', heldTemp, incoming')
  {
    var a, b := |incoming0| - |incoming|, |incoming| - |incoming'|;
    assert incoming0[..a + b] == incoming0[..a] + incoming[..b];
    assert incoming' == incoming0[a + b..];
    AcceptedReadsAppend(incoming0[..a], incoming[..b]);
    AppendAssoc(seen, heldRx, AcceptedReads(incoming[..b]));
    AppendAssoc(held0, AcceptedReads(incoming0[..a]), AcceptedReads(incoming[..b]));
  }

  /** Buffers queued while the search waits extend both sides of its account of the queue. */
  lemma BothExtended(examined: seq<BufferId>, rx: seq<BufferId>, q0: seq<BufferId>, arrived: seq<BufferId>,
                     more: seq<BufferId>)
    requires examined + rx == q0 + arrived
    ensures examined + (rx + more) == q0 + (arrived + more)
  {
    AppendAssoc(examined, rx, more);
    AppendAssoc(q0, arrived, more);
  }

  /** The account SeenState keeps, clause by clause. */
  lemma SeenStateAccount(held0: seq<Packet>, incoming0: seq<Packet>, seen: seq<Packet>, mask: seq<bool>,
                         heldRx: seq<Packet>, heldTemp: seq<Packet>, incoming: seq<Packet>)
    requires SeenState(held0, incoming0, seen, mask, heldRx, heldTemp, incoming)
    ensures |incoming| <= |incoming0| && incoming == incoming0[|incoming0| - |incoming|..]
    ensures |mask| == |seen| && heldTemp == Select(seen, mask)
    ensures seen + heldRx == held0 + AcceptedReads(incoming0[..|incoming0| - |incoming|])
  {
  }

  /** The switch of hci_send_req skips every packet of `ps`. */
  ghost predicate Skipped(ps: seq<Packet>, opcode: int, event: int, rlen: int)
  {
    rlen >= 0 && forall i :: 0 <= i < |ps| ==> Parsable(ps[i]) && Classify(ps[i], opcode, event, rlen) == Skip
  }

  /**
   * The switch of hci_send_req skipped every packet of `seen` but a deciding
   * last one, `answer`, whose meaning is `reply`; `reply` is Skip when no
   * packet decided.
   */
  ghost predicate Decided(seen: seq<Packet>, answer: Packet, reply: Response, opcode: int, event: int, rlen: int)
  {
    (reply == Skip ==> Skipped(seen, opcode, event, rlen)) &&
    (reply != Skip ==> seen != [] && Skipped(seen[..|seen| - 1], opcode, event, rlen) && answer == seen[|seen| - 1])
  }

  /**
   * The packets of one hci_send_req: `held0` were queued when the search
   * began and `incoming0` were the controller's reads, of which `incoming`
   * are left. The packets examined, `seen` in order, followed by `rest`
   * are `held0` followed by the reads accepted meanwhile; the receive queue
   * `heldRx` holds those `mask` set aside, unchanged and in order, then
   * `rest`.
   */
  ghost predicate Accounted(held0: seq<Packet>, incoming0: seq<Packet>, incoming: seq<Packet>,
                            seen: seq<Packet>, mask: seq<bool>, rest: seq<Packet>, heldRx: seq<Packet>)
  {
    |incoming| <= |incoming0| && incoming == incoming0[|incoming0| - |incoming|..] &&
    |mask| == |seen| &&
    seen + rest == held0 + AcceptedReads(incoming0[..|incoming0| - |incoming|]) &&
    heldRx == Select(seen, mask) + rest
  }

  lemma SkippedSnoc(ps: seq<Packet>, p: Packet, opcode: int, event: int, rlen: int)
    requires Skipped(ps, opcode, event, rlen) && Parsable(p) && Classify(p, opcode, event, rlen) == Skip
    ensures Skipped(ps + [p], opcode, event, rlen)
  {
  }

  /** Dequeuing packet p, and setting it aside when m, keeps the search's bytes invariant. */
  lemma SeenStateExamine(held0: seq<Packet>, incoming0: seq<Packet>, seen: seq<Packet>, mask: seq<bool>,
                         heldRx: seq<Packet>, heldTemp: seq<Packet>, incoming: seq<Packet>,
                         p: Packet, m: bool, heldRx': seq<Packet>, heldTemp': seq<Packet>)
    requires SeenState(held0, incoming0, seen, mask, heldRx, heldTemp, incoming)
    requires heldRx == [p] + heldRx' && heldTemp' == heldTemp + (if m then [p] else [])
    ensures SeenState(held0, incoming0, seen + [p], mask + [m], heldRx', heldTemp', incoming)
  {
    SelectSnoc(seen, mask, p, m);
    AppendAssoc(seen, [p], heldRx');
  }

  /** Number of buffers free_event_list moves from the receive queue to the pool. */
  function EvictCount(poolSize: nat): (k: nat)
    ensures poolSize + k >= HCI_READ_PACKET_NUM_MAX / 2
    ensures k > 0 ==> poolSize + k == HCI_READ_PACKET_NUM_MAX / 2
  {
    if poolSize < HCI_READ_PACKET_NUM_MAX / 2 then HCI_READ_PACKET_NUM_MAX / 2 - poolSize else 0
  }

  /** hci_send_req's timeout: a zero timeout is raised to 1; no non-negative timeout is below 1. */
  function EffectiveTimeout(to: int): (t: int)
    ensures to != 0 ==> t == to
    ensures to >= 0 ==> t >= 1
  {
    if to == 0 then 1 else to
  }

  /**
   * The empty polls before Timer_Expired: EffectiveTimeout(timeout) units
   * of pollsPerUnit polls each, and none when the timeout is negative.
   */
  function PollBudget(timeout: int, pollsPerUnit: nat): (n: nat)
    ensures timeout >= 0 && pollsPerUnit >= 1 ==> n >= 1
  {
    var t := EffectiveTimeout(timeout);
    if t > 0 then MulAtLeast(pollsPerUnit, t); pollsPerUnit * t else 0
  }

  /** struct hci_request: the command (ogf, ocf, clen bytes of cparam), the awaited event and the caller's capacity rlen. */
  datatype Request = Request(ogf: int, ocf: int, event: int, cparam: seq<Byte>, clen: int, rlen: int)

  /** What hci_send_req relies on from its caller: 16-bit OGF/OCF, enough parameter bytes, a non-negative capacity. */
  predicate RequestOk(r: Request)
  {
    0 <= r.ogf < U16 && 0 <= r.ocf < U16 && r.clen % 256 <= |r.cparam| && r.rlen >= 0
  }

  /**
   * The drain loop's invariant on values: after `taken` of the reads
   * `incoming0`, the `queued` accepted ones fill the first `queued` buffers
   * of `pool0` and follow, in order, the packets `held0` of the receive
   * queue `rx0`; the temporary queue still holds `temp0`.
   */
  ghost predicate DrainState(pool0: seq<BufferId>, rx0: seq<BufferId>, incoming0: seq<Packet>,
                             held0: seq<Packet>, temp0: seq<Packet>, taken: nat, queued: nat,
                             pool: seq<BufferId>, rx: seq<BufferId>, incoming: seq<Packet>,
                             heldRx: seq<Packet>, heldTemp: seq<Packet>)
  {
    taken <= |incoming0| && incoming == incoming0[taken..] &&
    queued <= |pool0| && pool == pool0[queued..] &&
    rx == rx0 + pool0[..queued] &&
    heldRx == held0 + AcceptedReads(incoming0[..taken]) &&
    heldTemp == temp0
  }

  /** One read, queued when accepted and returned to the pool otherwise, keeps the drain invariant. */
  lemma DrainStateStep(pool0: seq<BufferId>, rx0: seq<BufferId>, incoming0: seq<Packet>,
                       held0: seq<Packet>, temp0: seq<Packet>, taken: nat, queued: nat,
                       pool: seq<BufferId>, rx: seq<BufferId>, incoming: seq<Packet>,
                       heldRx: seq<Packet>, heldTemp: seq<Packet>,
                       accepted: bool, p: Packet,
                       pool': seq<BufferId>, rx': seq<BufferId>, incoming': seq<Packet>,
                       heldRx': seq<Packet>, heldTemp': seq<Packet>)
    requires DrainState(pool0, rx0, incoming0, held0, temp0, taken, queued, pool, rx, incoming, heldRx, heldTemp)
    requires incoming != [] && pool != []
    requires incoming' == incoming[1..] && p == ReadAll(incoming[0]) && accepted == Accepted(p)
    requires accepted ==> pool' == pool[1..] && rx' == rx + [pool[0]] && heldRx' == heldRx + [p]
    requires !accepted ==> pool' == pool && rx' == rx && heldRx' == heldRx
    requires heldTemp' == heldTemp
    ensures DrainState(pool0, rx0, incoming0, held0, temp0, taken + 1, if accepted then queued + 1 else queued,
                       pool', rx', incoming', heldRx', heldTemp')
  {
    AcceptedReadsNext(incoming0, taken);
    assert incoming[0] == incoming0[taken];
    if accepted {
      AppendAssoc(held0, AcceptedReads(incoming0[..taken]), [p]);
      assert pool0[..queued + 1] == pool0[..queued] + [pool0[queued]];
    }
  }

  /**
   * move_list(dest, src): repeatedly take the tail of src and insert it at
   * the head of dest, until src is empty.
   */
  method MoveList(dest: seq<BufferId>, src: seq<BufferId>) returns (dest': seq<BufferId>, src': seq<BufferId>)
    ensures dest' == src + dest && src' == []
  {
    dest', src' := dest, src;
    while src' != []
      invariant |src'| <= |src| && src' == src[..|src'|]
      invariant dest' == src[|src'|..] + dest
    {
      var tmp := src'[|src'| - 1];
      src' := src'[..|src'| - 1];
      dest' := [tmp] + dest';
      assert src[|src'|..] == [tmp] + src[|src'| + 1..];
    }
  }

  class HciTransport {
    /** hciReadPacketBuffer: the first data_len bytes of each buffer. */
    const buffers: array<Packet>
    /** hciReadPktPool: free buffers. */
    var pool: seq<BufferId>
    /** hciReadPktRxQueue: verified packets not yet consumed, oldest first. */
    var rxQueue: seq<BufferId>
    /** hciTempQueue of a running hci_send_req: packets set aside, in the order they were dequeued. */
    var tempQueue: seq<BufferId>
    /** Disable_SPI_IRQ / Enable_SPI_IRQ. */
    ghost var irqMasked: bool
    /** hci_reader_cond has been signalled by HCI_Isr and not yet consumed by the reader. */
    var wakePending: bool
    /** thread_pid: -1 until the reader thread is created. */
    var threadPid: int
    /** The packets the controller has ready; BlueNRG_DataPresent holds while this is non-empty. */
    var incoming: seq<Packet>
    /** Everything hci_write has sent, one entry per call. */
    var written: seq<Packet>

    /** The ownership invariant, and only verified packets in the receive and temporary queues. */
    ghost predicate Valid()
      reads this, buffers
    {
      buffers.Length == HCI_READ_PACKET_NUM_MAX &&
      Conserved(pool + rxQueue + tempQueue) &&
      (forall b :: b in rxQueue ==> Accepted(buffers[b])) &&
      (forall b :: b in tempQueue ==> Accepted(buffers[b]))
    }

    /** Between calls: no request holds packets aside and the interrupt is not masked. */
    ghost predicate Idle()
      reads this
    {
      tempQueue == [] && !irqMasked
    }

    /**
     * hci_send_req can read the headers of every packet it may dequeue
     * without overrunning it: those already queued, and those the
     * controller will send.
     */
    ghost predicate Framed()
      reads this, buffers
    {
      buffers.Length == HCI_READ_PACKET_NUM_MAX &&
      (forall i :: 0 <= i < |rxQueue| ==> Parsable(buffers[rxQueue[i]])) &&
      ReadsFramed(incoming)
    }

    /** Valid, except that hci_send_req has taken `cur` off the receive queue and holds it. */
    ghost predicate Holding(cur: BufferId)
      reads this, buffers
    {
      buffers.Length == HCI_READ_PACKET_NUM_MAX &&
      Conserved(pool + rxQueue + tempQueue + [cur]) &&
      (forall b :: b in rxQueue ==> Accepted(buffers[b])) &&
      (forall b :: b in tempQueue ==> Accepted(buffers[b])) &&
      Accepted(buffers[cur])
    }

    /** None of the packets in `bs` answers the request: the switch of hci_send_req skips each of them. */
    ghost predicate Unanswered(bs: seq<BufferId>, opcode: int, event: int, rlen: int)
      reads buffers
    {
      buffers.Length == HCI_READ_PACKET_NUM_MAX && rlen >= 0 &&
      forall i :: 0 <= i < |bs| ==>
        Parsable(buffers[bs[i]]) && Classify(buffers[bs[i]], opcode, event, rlen) == Skip
    }

    /** The packets held by a list of buffers. */
    ghost function Contents(bs: seq<BufferId>): (ps: seq<Packet>)
      reads buffers
      requires buffers.Length == HCI_READ_PACKET_NUM_MAX
    {
      Held(buffers[..], bs)
    }

    /** The state of the static variables before HCI_Init: empty lists, no reader thread. */
    constructor (device: seq<Packet>)
      ensures fresh(buffers) && buffers.Length == HCI_READ_PACKET_NUM_MAX
      ensures pool == [] && rxQueue == [] && Idle() && !wakePending
      ensures threadPid == -1 && incoming == device && written == []
    {
      buffers := new Packet[HCI_READ_PACKET_NUM_MAX](_ => []);
      pool, rxQueue, tempQueue := [], [], [];
      irqMasked, wakePending := false, false;
      threadPid := -1;
      incoming, written := device, [];
    }

    /**
     * HCI_Init: both lists re-initialised, the pool filled with every buffer
     * in index order, and the reader thread created only if none exists.
     */
    method Init(createdPid: int)
      requires buffers.Length == HCI_READ_PACKET_NUM_MAX && Idle()
      modifies this
      ensures Valid() && Idle() && (Framed() <==> ReadsFramed(incoming))
      ensures pool == Arena() && rxQueue == []
      ensures threadPid == if old(threadPid) == -1 then createdPid else old(threadPid)
      ensures incoming == old(incoming) && written == old(written) && wakePending == old(wakePending)
    {
      pool := [];
      rxQueue := [];
      for index := 0 to HCI_READ_PACKET_NUM_MAX
        invariant pool == Arena()[..index] && rxQueue == []
        invariant tempQueue == old(tempQueue) && irqMasked == old(irqMasked) && threadPid == old(threadPid)
        invariant incoming == old(incoming) && written == old(written) && wakePending == old(wakePending)
      {
        pool := pool + [index];
      }
      ArenaConserved();
      assert pool + rxQueue + tempQueue == Arena();
      if threadPid == -1 {
        threadPid := createdPid;
      }
    }

    /** HCI_Queue_Empty. */
    method QueueEmpty() returns (empty: bool)
      ensures empty <==> rxQueue == []
    {
      empty := rxQueue == [];
    }

    /** HCI_Isr: only signals the reader thread. */
    method Isr()
      modifies this`wakePending
      ensures wakePending
    {
      wakePending := true;
    }

    /**
     * One pass of the drain loop of HCI_Reader_Thread: take the pool head
     * and read the pending packet into it; a non-empty read that HCI_verify
     * accepts goes to the tail of the receive queue, anything else goes back
     * to the head of the pool. `p` is what the read produced.
     */
    method ReadOne() returns (accepted: bool, p: Packet)
      requires Valid() && incoming != [] && pool != []
      modifies this, buffers
      ensures Valid()
      ensures incoming == old(incoming)[1..]
      ensures p == ReadAll(old(incoming)[0]) && accepted == Accepted(p)
      ensures accepted ==> pool == old(pool)[1..] && rxQueue == old(rxQueue) + [old(pool)[0]]
      ensures !accepted ==> pool == old(pool) && rxQueue == old(rxQueue)
      ensures accepted ==> Contents(rxQueue) == old(Contents(rxQueue)) + [p]
      ensures !accepted ==> Contents(rxQueue) == old(Contents(rxQueue))
      ensures Contents(tempQueue) == old(Contents(tempQueue))
      ensures tempQueue == old(tempQueue) && irqMasked == old(irqMasked) && wakePending == old(wakePending)
      ensures written == old(written) && threadPid == old(threadPid)
    {
      ConservedParts(pool, rxQueue, tempQueue);
      var b := pool[0];
      pool := pool[1..];
      p := Fill(b, incoming[0]);
      incoming := incoming[1..];
      if |p| > 0 && Verify(p) == 0 {
        ConservedEnqueue(old(pool), rxQueue, tempQueue);
        HeldSnoc(buffers[..], rxQueue, b);
        rxQueue := rxQueue + [b];
        accepted := true;
      } else {
        pool := [b] + pool;
        assert pool == old(pool);
        accepted := false;
      }
    }

    /**
     * The read of one pending packet into buffer `b`: a read of no bytes
     * leaves the buffer as it was. No packet in the receive or temporary
     * queue changes, because `b` is in neither.
     */
    method Fill(b: BufferId, raw: Packet) returns (p: Packet)
      requires buffers.Length == HCI_READ_PACKET_NUM_MAX && b !in rxQueue && b !in tempQueue
      requires forall c :: c in rxQueue ==> Accepted(buffers[c])
      requires forall c :: c in tempQueue ==> Accepted(buffers[c])
      modifies buffers
      ensures p == ReadAll(raw) && (|p| > 0 ==> buffers[b] == p)
      ensures forall c :: c in rxQueue ==> Accepted(buffers[c])
      ensures forall c :: c in tempQueue ==> Accepted(buffers[c])
      ensures Contents(rxQueue) == old(Contents(rxQueue)) && Contents(tempQueue) == old(Contents(tempQueue))
    {
      p := ReadAll(raw);
      if |p| > 0 {
        HeldUnchanged(buffers[..], rxQueue, b, p);
        HeldUnchanged(buffers[..], tempQueue, b, p);
        buffers[b] := p;
      }
    }

    /**
     * The state of the drain loop after `taken` of the reads `incoming0`:
     * the `queued` accepted ones fill the first `queued` buffers of `pool0`
     * and follow, in order, the packets `held0` of the receive queue `rx0`
     * the loop started from.
     */
    ghost predicate Draining(pool0: seq<BufferId>, rx0: seq<BufferId>, incoming0: seq<Packet>,
                             held0: seq<Packet>, temp0: seq<Packet>, taken: nat, queued: nat)
      reads this, buffers
    {
      Valid() &&
      DrainState(pool0, rx0, incoming0, held0, temp0, taken, queued,
                 pool, rxQueue, incoming, Contents(rxQueue), Contents(tempQueue))
    }

    /** One iteration of the drain loop keeps its invariant. */
    method DrainStep(ghost pool0: seq<BufferId>, ghost rx0: seq<BufferId>, ghost incoming0: seq<Packet>,
                     ghost held0: seq<Packet>, ghost temp0: seq<Packet>, ghost taken: nat, ghost queued: nat)
      returns (ghost queued': nat)
      requires Draining(pool0, rx0, incoming0, held0, temp0, taken, queued) && incoming != [] && pool != []
      modifies this, buffers
      ensures Draining(pool0, rx0, incoming0, held0, temp0, taken + 1, queued')
      ensures pool == [] ==> Accepted(ReadAll(incoming0[taken]))
      ensures tempQueue == old(tempQueue) && irqMasked == old(irqMasked) && wakePending == old(wakePending)
      ensures written == old(written) && threadPid == old(threadPid)
    {
      ghost var pool1, rx1, incoming1 := pool, rxQueue, incoming;
      ghost var heldRx1, heldTemp1 := Contents(rxQueue), Contents(tempQueue);
      var accepted, p := ReadOne();
      DrainStateStep(pool0, rx0, incoming0, held0, temp0, taken, queued,
                     pool1, rx1, incoming1, heldRx1, heldTemp1,
                     accepted, p, pool, rxQueue, incoming, Contents(rxQueue), Contents(tempQueue));
      queued' := if accepted then queued + 1 else queued;
    }

    /**
     * The drain loop of HCI_Reader_Thread: ReadOne while the controller has
     * data and the pool has a buffer. Of the first `taken` pending reads,
     * the accepted ones are appended to the receive queue, in the first
     * `queued` buffers of the pool.
     */
    method Drain() returns (ghost taken: nat, ghost queued: nat)
      requires Valid()
      modifies this, buffers
      ensures Valid()
      ensures taken <= |old(incoming)| && incoming == old(incoming)[taken..]
      ensures incoming == [] || pool == []
      ensures pool == [] && taken > 0 ==> Accepted(ReadAll(old(incoming)[taken - 1]))
      ensures queued <= |old(pool)| && pool == old(pool)[queued..]
      ensures rxQueue == old(rxQueue) + old(pool)[..queued]
      ensures Contents(rxQueue) == old(Contents(rxQueue)) + AcceptedReads(old(incoming)[..taken])
      ensures Contents(tempQueue) == old(Contents(tempQueue))
      ensures tempQueue == old(tempQueue) && irqMasked == old(irqMasked) && wakePending == old(wakePending)
      ensures written == old(written) && threadPid == old(threadPid)
    {
      taken, queued := 0, 0;
      ghost var pool0, rx0, incoming0 := pool, rxQueue, incoming;
      ghost var held0, temp0 := Contents(rxQueue), Contents(tempQueue);
      assert Draining(pool0, rx0, incoming0, held0, temp0, 0, 0);
      while incoming != [] && pool != []
        invariant Draining(pool0, rx0, incoming0, held0, temp0, taken, queued)
        invariant pool == [] && taken > 0 ==> Accepted(ReadAll(incoming0[taken - 1]))
        invariant tempQueue == old(tempQueue) && irqMasked == old(irqMasked) && wakePending == old(wakePending)
        invariant written == old(written) && threadPid == old(threadPid)
        decreases |incoming|
      {
        queued := DrainStep(pool0, rx0, incoming0, held0, temp0, taken, queued);
        taken := taken + 1;
      }
    }

    /** One turn of HCI_Reader_Thread: when signalled, consume the signal and drain. */
    method ReaderStep() returns (ghost taken: nat, ghost queued: nat)
      requires Valid()
      modifies this, buffers
      ensures Valid() && !wakePending
      ensures taken <= |old(incoming)| && incoming == old(incoming)[taken..]
      ensures queued <= |old(pool)| && pool == old(pool)[queued..]
      ensures rxQueue == old(rxQueue) + old(pool)[..queued]
      ensures Contents(rxQueue) == old(Contents(rxQueue)) + AcceptedReads(old(incoming)[..taken])
      ensures old(wakePending) ==> incoming == [] || pool == []
      ensures pool == [] && taken > 0 ==> Accepted(ReadAll(old(incoming)[taken - 1]))
      ensures !old(wakePending) ==> taken == 0 && queued == 0
      ensures Contents(tempQueue) == old(Contents(tempQueue))
      ensures tempQueue == old(tempQueue) && irqMasked == old(irqMasked)
      ensures written == old(written) && threadPid == old(threadPid)
    {
      taken, queued := 0, 0;
      if wakePending {
        wakePending := false;
        taken, queued := Drain();
      }
    }

    /**
     * The move HCI_Process and free_event_list both make with the interrupt
     * masked: the receive-queue head goes to the pool tail.
     */
    method Recycle() returns (b: BufferId)
      requires Valid() && rxQueue != []
      modifies this`pool, this`rxQueue
      ensures Valid()
      ensures b == old(rxQueue)[0]
      ensures pool == old(pool) + [b] && rxQueue == old(rxQueue)[1..]
    {
      ConservedRecycle(pool, rxQueue, tempQueue);
      b := rxQueue[0];
      rxQueue := rxQueue[1..];
      pool := pool + [b];
    }

    /**
     * One pass of HCI_Process's loop: the receive-queue head is handed to
     * HCI_Event_CB as `p` and its buffer goes to the pool tail. The source
     * unmasks the interrupt for the callback and returns the buffer after
     * it; with no reader running concurrently in this model, returning it
     * before the call reaches the same state.
     */
    method Deliver() returns (b: BufferId, p: Packet)
      requires Valid() && Idle() && rxQueue != []
      modifies this
      ensures Valid() && Idle()
      ensures b == old(rxQueue)[0] && p == buffers[b]
      ensures pool == old(pool) + [b] && rxQueue == old(rxQueue)[1..]
      ensures wakePending == old(wakePending) && incoming == old(incoming)
      ensures written == old(written) && threadPid == old(threadPid)
    {
      irqMasked := true;
      b := Recycle();
      irqMasked := false;
      p := buffers[b];
    }

    /**
     * HCI_Process: hand every queued packet to HCI_Event_CB, oldest first,
     * returning each buffer to the pool tail; then signal the reader.
     * `delivered` lists the packets passed to HCI_Event_CB, in call order.
     */
    method Process() returns (delivered: seq<Packet>)
      requires Valid() && Idle()
      modifies this
      ensures Valid() && Idle()
      ensures delivered == old(Contents(rxQueue))
      ensures rxQueue == [] && pool == old(pool) + old(rxQueue)
      ensures wakePending
      ensures incoming == old(incoming) && written == old(written) && threadPid == old(threadPid)
    {
      delivered := [];
      ghost var queue0 := rxQueue;
      var listEmpty := rxQueue == [];
      while !listEmpty
        invariant Valid() && Idle() && wakePending == old(wakePending)
        invariant listEmpty <==> rxQueue == []
        invariant |delivered| <= |queue0| && rxQueue == queue0[|delivered|..]
        invariant pool == old(pool) + queue0[..|delivered|]
        invariant delivered == Contents(queue0[..|delivered|])
        invariant incoming == old(incoming) && written == old(written) && threadPid == old(threadPid)
        decreases |rxQueue|
      {
        var b, p := Deliver();
        delivered := delivered + [p];
        HeldSnoc(buffers[..], queue0[..|delivered| - 1], b);
        assert queue0[..|delivered|] == queue0[..|delivered| - 1] + [b];
        listEmpty := rxQueue == [];
      }
      assert queue0[..|delivered|] == queue0;
      Isr();
    }

    /** hci_send_cmd: one write of the command header followed by plen parameter bytes. */
    method SendCmd(ogf: int, ocf: int, plen: Byte, param: seq<Byte>)
      requires 0 <= ogf < U16 && 0 <= ocf < U16 && plen <= |param|
      modifies this`written
      ensures written == old(written) + [CommandPacket(ogf, ocf, plen, param)]
    {
      written := written + [CommandPacket(ogf, ocf, plen, param)];
    }

    /**
     * free_event_list: with the interrupt masked, move the oldest queued
     * packets to the pool tail until the pool holds at least half of the
     * buffers, signalling the reader after each move. It dequeues without an
     * emptiness check; conservation (pool and queue together hold every
     * buffer) is what keeps the queue non-empty while the pool is short.
     */
    method FreeEventList()
      requires Valid() && Idle()
      modifies this
      ensures Valid() && Idle()
      ensures |pool| >= HCI_READ_PACKET_NUM_MAX / 2
      ensures EvictCount(|old(pool)|) <= |old(rxQueue)|
      ensures pool == old(pool) + old(rxQueue)[..EvictCount(|old(pool)|)]
      ensures rxQueue == old(rxQueue)[EvictCount(|old(pool)|)..]
      ensures Contents(rxQueue) == old(Contents(rxQueue))[EvictCount(|old(pool)|)..]
      ensures wakePending == (old(wakePending) || EvictCount(|old(pool)|) > 0)
      ensures incoming == old(incoming) && written == old(written) && threadPid == old(threadPid)
    {
      irqMasked := true;
      ghost var k := 0;
      while |pool| < HCI_READ_PACKET_NUM_MAX / 2
        invariant Valid() && tempQueue == [] && irqMasked
        invariant k <= |old(rxQueue)| && |pool| == |old(pool)| + k
        invariant pool == old(pool) + old(rxQueue)[..k] && rxQueue == old(rxQueue)[k..]
        invariant k == 0 || |pool| <= HCI_READ_PACKET_NUM_MAX / 2
        invariant wakePending == (old(wakePending) || k > 0)
        invariant incoming == old(incoming) && written == old(written) && threadPid == old(threadPid)
        decreases HCI_READ_PACKET_NUM_MAX / 2 - |pool|
      {
        ConservedParts(pool, rxQueue, tempQueue);
        var b := Recycle();
        assert old(rxQueue)[..k + 1] == old(rxQueue)[..k] + [b];
        k := k + 1;
        wakePending := true;
      }
      irqMasked := false;
      assert buffers[..] == old(buffers[..]);
      HeldDrop(buffers[..], old(rxQueue), k);
    }

    /**
     * hci_send_req's wait loop while the receive queue is empty, for one
     * poll: the controller raises its interrupt while it has data, HCI_Isr
     * wakes the reader, and the reader drains. `arrived` are the buffers
     * queued meanwhile, holding exactly the reads accepted meanwhile; no
     * packet already queued or set aside changes.
     */
    method Wait(ghost opcode: int, ghost event: int, ghost rlen: int) returns (ghost arrived: seq<BufferId>)
      requires Valid() && Framed()
      modifies this, buffers
      ensures Valid() && Framed() && !wakePending
      ensures rxQueue == old(rxQueue) + arrived
      ensures |incoming| <= |old(incoming)| && incoming == old(incoming)[|old(incoming)| - |incoming|..]
      ensures Contents(rxQueue) == old(Contents(rxQueue)) + AcceptedReads(old(incoming)[..|old(incoming)| - |incoming|])
      ensures Contents(arrived) == AcceptedReads(old(incoming)[..|old(incoming)| - |incoming|])
      ensures Contents(tempQueue) == old(Contents(tempQueue))
      ensures old(Unanswered(tempQueue, opcode, event, rlen)) ==> Unanswered(tempQueue, opcode, event, rlen)
      ensures tempQueue == old(tempQueue) && irqMasked == old(irqMasked)
      ensures written == old(written) && threadPid == old(threadPid)
    {
      if incoming != [] {
        Isr();
      }
      ghost var arena0, rx0, pool0, incoming0 := buffers[..], rxQueue, pool, incoming;
      ghost var skipped := Unanswered(tempQueue, opcode, event, rlen);
      var taken, queued := ReaderStep();
      arrived := pool0[..queued];
      assert incoming0[..|incoming0| - |incoming|] == incoming0[..taken];
      ReadsFramedSplit(incoming0, taken);
      AcceptedReadsParsable(incoming0[..taken]);
      HeldParsable(arena0, rx0, buffers[..], rxQueue, AcceptedReads(incoming0[..taken]));
      if skipped {
        HeldSkipped(arena0, buffers[..], tempQueue, opcode, event, rlen);
      }
      HeldAppend(buffers[..], rx0, arrived);
      assert Contents(arrived) == Contents(rxQueue)[|rx0|..];
    }

    /** hci_send_req takes the receive-queue head with the interrupt masked. */
    method Dequeue() returns (cur: BufferId)
      requires Valid() && Framed() && rxQueue != []
      modifies this
      ensures Holding(cur) && irqMasked && Parsable(buffers[cur])
      ensures cur == old(rxQueue)[0] && rxQueue == old(rxQueue)[1..]
      ensures forall i :: 0 <= i < |rxQueue| ==> Parsable(buffers[rxQueue[i]])
      ensures pool == old(pool) && tempQueue == old(tempQueue)
      ensures incoming == old(incoming) && written == old(written)
      ensures wakePending == old(wakePending) && threadPid == old(threadPid)
    {
      irqMasked := true;
      ConservedTake(pool, rxQueue, tempQueue);
      cur := rxQueue[0];
      rxQueue := rxQueue[1..];
    }

    /**
     * A dequeued packet that is not the answer: when both the pool and the
     * receive queue are empty it is discarded into the pool tail, otherwise
     * set aside at the tail of the temporary queue; then the reader is
     * signalled and the interrupt unmasked.
     */
    method Park(cur: BufferId, ghost opcode: int, ghost event: int, ghost rlen: int) returns (setAside: bool)
      requires Holding(cur) && irqMasked && rlen >= 0
      requires Parsable(buffers[cur]) && Classify(buffers[cur], opcode, event, rlen) == Skip
      requires Unanswered(tempQueue, opcode, event, rlen)
      modifies this
      ensures Valid() && !irqMasked && wakePending
      ensures Unanswered(tempQueue, opcode, event, rlen)
      ensures setAside <==> old(pool) != [] || old(rxQueue) != []
      ensures setAside ==> tempQueue == old(tempQueue) + [cur] && pool == old(pool)
      ensures !setAside ==> tempQueue == old(tempQueue) && pool == old(pool) + [cur]
      ensures rxQueue == old(rxQueue) && incoming == old(incoming)
      ensures written == old(written) && threadPid == old(threadPid)
    {
      if pool == [] && rxQueue == [] {
        ConservedDiscard(pool, rxQueue, tempQueue, cur);
        pool := pool + [cur];
        setAside := false;
      } else {
        ConservedSetAside(pool, rxQueue, tempQueue, cur);
        tempQueue := tempQueue + [cur];
        setAside := true;
      }
      Isr();
      irqMasked := false;
    }

    /** The failed and done exits of hci_send_req return the held buffer to the pool head. */
    method Release(cur: BufferId)
      requires Holding(cur)
      modifies this
      ensures Valid()
      ensures pool == [cur] + old(pool)
      ensures rxQueue == old(rxQueue) && tempQueue == old(tempQueue) && irqMasked == old(irqMasked)
      ensures incoming == old(incoming) && written == old(written)
      ensures wakePending == old(wakePending) && threadPid == old(threadPid)
    {
      ConservedRelease(pool, rxQueue, tempQueue, cur);
      pool := [cur] + pool;
    }

    /**
     * The exit of hci_send_req: move_list splices the packets set aside onto
     * the head of the receive queue, in the order they were dequeued, and
     * the interrupt is unmasked.
     */
    method RestoreTemp(ghost opcode: int, ghost event: int, ghost rlen: int)
      requires Valid() && Unanswered(tempQueue, opcode, event, rlen)
      requires forall i :: 0 <= i < |rxQueue| ==> Parsable(buffers[rxQueue[i]])
      modifies this
      ensures Valid() && Idle()
      ensures rxQueue == old(tempQueue) + old(rxQueue) && pool == old(pool)
      ensures forall i :: 0 <= i < |rxQueue| ==> Parsable(buffers[rxQueue[i]])
      ensures incoming == old(incoming) && written == old(written)
      ensures wakePending == old(wakePending) && threadPid == old(threadPid)
    {
      ConservedSplice(pool, rxQueue, tempQueue);
      ghost var temp0 := tempQueue;
      rxQueue, tempQueue := MoveList(rxQueue, tempQueue);
      assert pool + rxQueue + tempQueue == pool + (temp0 + old(rxQueue)) + [];
      irqMasked := false;
      forall i | 0 <= i < |rxQueue|
        ensures Parsable(buffers[rxQueue[i]])
      {
        if i < |temp0| {
          assert rxQueue[i] == temp0[i];
        } else {
          assert rxQueue[i] == old(rxQueue)[i - |temp0|];
        }
      }
    }

    /**
     * What hci_send_req's search keeps true of the buffers: the receive
     * queue is framed, the packets set aside so far are `kept`, none of them
     * answers the request, they are the examined buffers `mask` marks, in
     * the order they were examined, and every buffer of the queue after
     * free_event_list or queued since is either examined or still in the
     * receive queue, in arrival order.
     */
    ghost predicate Searched(opcode: int, event: int, rlen: int, q0: seq<BufferId>, arrived: seq<BufferId>,
                             examined: seq<BufferId>, mask: seq<bool>, kept: seq<BufferId>)
      reads this, buffers
    {
      Framed() && tempQueue == kept && Unanswered(kept, opcode, event, rlen) &&
      |mask| == |examined| && kept == Select(examined, mask) && examined + rxQueue == q0 + arrived
    }

    /** The same of the bytes: SeenState over what the receive and temporary queues hold. */
    ghost predicate SearchedBytes(held0: seq<Packet>, incoming0: seq<Packet>, seen: seq<Packet>, mask: seq<bool>)
      reads this, buffers
    {
      buffers.Length == HCI_READ_PACKET_NUM_MAX &&
      SeenState(held0, incoming0, seen, mask, Contents(rxQueue), Contents(tempQueue), incoming)
    }

    /**
     * One pass of hci_send_req's outer loop once the queue is not empty:
     * dequeue the head with the interrupt masked and classify it; a packet
     * that does not decide the request is parked (set aside or discarded).
     * `seen'` extends the packets examined so far by this one, as dequeued.
     */
    method Examine(opcode: int, event: int, rlen: int, ghost q0: seq<BufferId>, ghost arrived: seq<BufferId>,
                   ghost examined: seq<BufferId>, ghost mask: seq<bool>, ghost kept: seq<BufferId>,
                   ghost held0: seq<Packet>, ghost incoming0: seq<Packet>, ghost seen: seq<Packet>)
      returns (res: Response, cur: BufferId, ghost examined': seq<BufferId>, ghost mask': seq<bool>,
               ghost kept': seq<BufferId>, ghost seen': seq<Packet>)
      requires Valid() && !irqMasked && rlen >= 0 && rxQueue != []
      requires Searched(opcode, event, rlen, q0, arrived, examined, mask, kept)
      requires SearchedBytes(held0, incoming0, seen, mask)
      modifies this
      ensures |rxQueue| < old(|rxQueue|)
      ensures examined' == examined + [cur] && seen' == seen + [buffers[cur]] && Parsable(buffers[cur])
      ensures res == Classify(buffers[cur], opcode, event, rlen)
      ensures res != Skip ==> Holding(cur) && irqMasked && kept' == kept
      ensures res == Skip ==> Valid() && !irqMasked
      ensures Searched(opcode, event, rlen, q0, arrived, examined', mask', kept')
      ensures SearchedBytes(held0, incoming0, seen', mask')
      ensures incoming == old(incoming) && written == old(written) && threadPid == old(threadPid)
    {
      ghost var rx1, heldRx1, heldTemp1 := rxQueue, Contents(rxQueue), Contents(tempQueue);
      cur := Dequeue();
      assert rx1 == [cur] + rxQueue;
      HeldAppend(buffers[..], [cur], rxQueue);
      assert heldRx1 == [buffers[cur]] + Contents(rxQueue);
      AppendAssoc(examined, [cur], rxQueue);
      examined', seen' := examined + [cur], seen + [buffers[cur]];
      kept' := kept;
      res := Classify(buffers[cur], opcode, event, rlen);
      var setAside := false;
      if res == Skip {
        setAside := Park(cur, opcode, event, rlen);
        if setAside {
          kept' := kept + [cur];
          HeldSnoc(buffers[..], kept, cur);
        }
      }
      mask' := mask + [setAside];
      SelectSnoc(examined, mask, cur, setAside);
      SeenStateExamine(held0, incoming0, seen, mask, heldRx1, heldTemp1, incoming,
                       buffers[cur], setAside, Contents(rxQueue), Contents(tempQueue));
    }

    /** One empty poll of hci_send_req's search keeps its invariants; `arrived'` adds what the reader queued. */
    method Poll(opcode: int, event: int, rlen: int, ghost q0: seq<BufferId>, ghost arrived: seq<BufferId>,
                ghost examined: seq<BufferId>, ghost mask: seq<bool>, ghost kept: seq<BufferId>,
                ghost held0: seq<Packet>, ghost incoming0: seq<Packet>, ghost seen: seq<Packet>)
      returns (ghost arrived': seq<BufferId>)
      requires Valid() && !irqMasked
      requires Searched(opcode, event, rlen, q0, arrived, examined, mask, kept)
      requires SearchedBytes(held0, incoming0, seen, mask)
      modifies this, buffers
      ensures Valid() && !irqMasked
      ensures Searched(opcode, event, rlen, q0, arrived', examined, mask, kept)
      ensures SearchedBytes(held0, incoming0, seen, mask)
      ensures written == old(written) && threadPid == old(threadPid)
    {
      ghost var rx1, incoming1, heldRx1, heldTemp1 := rxQueue, incoming, Contents(rxQueue), Contents(tempQueue);
      ghost var more := Wait(opcode, event, rlen);
      SeenStateWait(held0, incoming0, seen, mask, heldRx1, heldTemp1, incoming1, Contents(rxQueue), incoming);
      BothExtended(examined, rx1, q0, arrived, more);
      arrived' := arrived + more;
    }

    /**
     * The wait of hci_send_req with `budget` empty polls before the timer
     * expires: examine queued packets until one decides the request. When
     * `found`, the deciding buffer `cur` is still held with the interrupt
     * masked; otherwise the timer expired. `seen` are the examined packets
     * as they were dequeued: all but a deciding last one were skipped.
     */
    method Search(opcode: int, event: int, rlen: int, budget: nat)
      returns (found: bool, outcome: Response, cur: BufferId, ghost answer: Packet,
               ghost arrived: seq<BufferId>, ghost examined: seq<BufferId>, ghost mask: seq<bool>,
               ghost kept: seq<BufferId>, ghost seen: seq<Packet>)
      requires Valid() && Idle() && Framed() && rlen >= 0
      modifies this, buffers
      ensures found ==> Holding(cur) && irqMasked && outcome != Skip
      ensures found ==> examined != [] && cur == examined[|examined| - 1] && answer == buffers[cur]
      ensures found ==> Parsable(answer) && Classify(answer, opcode, event, rlen) == outcome
      ensures !found ==> Valid() && !irqMasked && outcome == Skip
      ensures Searched(opcode, event, rlen, old(rxQueue), arrived, examined, mask, kept)
      ensures SearchedBytes(old(Contents(rxQueue)), old(incoming), seen, mask)
      ensures |seen| == |examined|
      ensures !found ==> Skipped(seen, opcode, event, rlen)
      ensures found ==> Skipped(seen[..|seen| - 1], opcode, event, rlen) && answer == seen[|seen| - 1]
      ensures written == old(written) && threadPid == old(threadPid)
      ensures budget > 0 && old(rxQueue) != [] ==> examined != []
    {
      ghost var q0, held0, incoming0 := rxQueue, Contents(rxQueue), incoming;
      found, outcome, cur, answer := false, Skip, 0, [];
      arrived, examined, mask, kept, seen := [], [], [], [], [];
      var left := budget;
      while left > 0
        invariant Valid() && !irqMasked && !found && outcome == Skip
        invariant Searched(opcode, event, rlen, q0, arrived, examined, mask, kept)
        invariant SearchedBytes(held0, incoming0, seen, mask)
        invariant Skipped(seen, opcode, event, rlen)
        invariant written == old(written) && threadPid == old(threadPid)
        invariant q0 != [] && examined == [] ==> left == budget
        decreases left, |rxQueue|
      {
        if rxQueue == [] {
          // HCI_Queue_Empty: poll again while time passes
          left := left - 1;
          arrived := Poll(opcode, event, rlen, q0, arrived, examined, mask, kept, held0, incoming0, seen);
          continue;
        }
        var res;
        ghost var seen1 := seen;
        res, cur, examined, mask, kept, seen :=
          Examine(opcode, event, rlen, q0, arrived, examined, mask, kept, held0, incoming0, seen);
        assert seen[..|seen1|] == seen1;
        if res != Skip {
          outcome, answer, found := res, buffers[cur], true;
          return;
        }
        SkippedSnoc(seen1, buffers[cur], opcode, event, rlen);
      }
      // Timer_Expired
    }

    /**
     * hci_send_req after the command is written: the search for the answer
     * with `budget` empty polls, then the exits, which return a held
     * deciding buffer to the pool head and put the packets set aside back
     * at the head of the receive queue. The ghost results are those of
     * Search, and `rest`, the packets queued behind those put back;
     * `outcome` is Skip when the timer expired.
     */
    method Await(opcode: int, event: int, rlen: int, budget: nat)
      returns (outcome: Response, ghost answer: Packet, ghost arrived: seq<BufferId>, ghost examined: seq<BufferId>,
               ghost mask: seq<bool>, ghost kept: seq<BufferId>, ghost seen: seq<Packet>, ghost rest: seq<Packet>)
      requires Valid() && Idle() && Framed() && rlen >= 0
      modifies this, buffers
      ensures Valid() && Idle() && Framed()
      ensures written == old(written) && threadPid == old(threadPid)
      ensures outcome != Skip ==>
        examined != [] && answer == buffers[examined[|examined| - 1]] && Parsable(answer) &&
        Classify(answer, opcode, event, rlen) == outcome
      ensures |mask| == |examined| && kept == Select(examined, mask)
      ensures |kept| <= |rxQueue| && rxQueue[..|kept|] == kept
      ensures examined + rxQueue[|kept|..] == old(rxQueue) + arrived
      ensures Unanswered(kept, opcode, event, rlen)
      ensures |seen| == |examined|
      ensures Accounted(old(Contents(rxQueue)), old(incoming), incoming, seen, mask, rest, Contents(rxQueue))
      ensures Decided(seen, answer, outcome, opcode, event, rlen)
      ensures budget > 0 && old(rxQueue) != [] ==> examined != []
    {
      var found, cur;
      found, outcome, cur, answer, arrived, examined, mask, kept, seen := Search(opcode, event, rlen, budget);
      ghost var queued, heldRest, heldKept := rxQueue, Contents(rxQueue), Contents(tempQueue);
      if found {
        Release(cur);
      }
      RestoreTemp(opcode, event, rlen);
      assert rxQueue == kept + queued;
      assert Contents(queued) == heldRest && Contents(kept) == heldKept;
      SeenStateAccount(old(Contents(rxQueue)), old(incoming), seen, mask, heldRest, heldKept, incoming);
      HeldAppend(buffers[..], kept, queued);
      rest := heldRest;
    }

    /**
     * hci_send_req(r, async) with DEFAULT_TIMEOUT = `timeout`: make room in
     * the pool, send the command, and unless `async` wait for the answer.
     * Queued packets are examined oldest first; those that are not the
     * answer are set aside and put back at the head of the receive queue,
     * in order, on exit. Time passes only while the receive queue is empty:
     * the timer expires after EffectiveTimeout(timeout) * pollsPerUnit empty
     * polls.
     *
     * Ghost results: `reply` is what the deciding packet `answer` meant
     * (Skip when the timer expired), `q0` the receive queue after
     * free_event_list, `arrived` the buffers the reader queued meanwhile,
     * `examined` the buffers dequeued, `seen` their packets as dequeued,
     * `kept` the buffers set aside, those `mask` marks, and `rest` the
     * packets queued behind them on return.
     */
    method SendReq(r: Request, async: bool, timeout: int, pollsPerUnit: nat)
      returns (ret: int, rlen: int, rparam: seq<Byte>,
               ghost reply: Response, ghost answer: Packet,
               ghost q0: seq<BufferId>, ghost arrived: seq<BufferId>, ghost examined: seq<BufferId>,
               ghost mask: seq<bool>, ghost kept: seq<BufferId>, ghost seen: seq<Packet>, ghost rest: seq<Packet>)
      requires Valid() && Idle() && Framed() && RequestOk(r) && pollsPerUnit >= 1
      modifies this, buffers
      ensures Valid() && Idle() && Framed()
      ensures written == old(written) + [CommandPacket(r.ogf, r.ocf, r.clen % 256, r.cparam)]
      ensures q0 == old(rxQueue)[EvictCount(|old(pool)|)..]
      // the outcome
      ensures ret == 0 || ret == -1
      ensures async ==> ret == 0 && rlen == r.rlen && rparam == [] && rxQueue == q0 && incoming == old(incoming)
      ensures !async ==> (ret == 0 <==> reply.Matched?)
      ensures ret == 0 && !async ==> rlen == reply.rlen && rparam == reply.rparam
      ensures ret == -1 ==> rlen == r.rlen && rparam == []
      ensures reply != Skip ==>
        examined != [] && answer == buffers[examined[|examined| - 1]] && Parsable(answer) &&
        Classify(answer, OpcodePack(r.ogf, r.ocf), r.event, r.rlen) == reply
      // what happened to the receive queue: the buffers
      ensures |mask| == |examined| && kept == Select(examined, mask)
      ensures |kept| <= |rxQueue| && rxQueue[..|kept|] == kept
      ensures examined + rxQueue[|kept|..] == q0 + arrived
      ensures Unanswered(kept, OpcodePack(r.ogf, r.ocf), r.event, r.rlen)
      // ... and the packets: those examined, as dequeued, then `rest` are the packets left after
      // free_event_list followed by the controller's reads accepted meanwhile, and the queue
      // holds the packets set aside, unchanged, then `rest`
      ensures |seen| == |examined|
      ensures Accounted(old(Contents(rxQueue))[EvictCount(|old(pool)|)..], old(incoming), incoming, seen, mask, rest, Contents(rxQueue))
      // every examined packet but a deciding last one was skipped, the discarded ones included
      ensures Decided(seen, answer, reply, OpcodePack(r.ogf, r.ocf), r.event, r.rlen)
      ensures !async && timeout >= 0 && q0 != [] ==> examined != []
    {
      FreeEventList();
      q0 := rxQueue;
      SendCmd(r.ogf, r.ocf, r.clen % 256, r.cparam);
      ret, rlen, rparam := -1, r.rlen, [];
      reply, answer := Skip, [];
      arrived, examined, mask, kept, seen := [], [], [], [], [];
      if async {
        assert old(incoming)[..0] == [];
        rest := Contents(rxQueue);
        ret := 0;
        return;
      }
      var budget := PollBudget(timeout, pollsPerUnit);
      ghost var held0 := Contents(rxQueue);
      assert held0 == old(Contents(rxQueue))[EvictCount(|old(pool)|)..] && incoming == old(incoming);
      var outcome;
      outcome, answer, arrived, examined, mask, kept, seen, rest := Await(OpcodePack(r.ogf, r.ocf), r.event, r.rlen, budget);
      reply := outcome;
      if outcome.Matched? {
        ret, rlen, rparam := 0, outcome.rlen, outcome.rparam;
      }
    }
  }
}

/** The retransmission buffer: a ring of the sequence numbers of the last 512 stores, and a map from sequence
    number to packet. Sequence numbers have 16 bits and wrap (section 5.1 of RFC 3550). */
module PacketBuffer {
  import opened Identifiers

  const BUFFER_SIZE := 512

  type SequenceNumber = n: nat | n < 0x1_0000

  datatype Packet = Packet(seqno: SequenceNumber, ssrc: nat, payload: seq<nat>)

  datatype Buffer = Buffer(packets: map<SequenceNumber, Packet>, order: seq<SequenceNumber>, writePos: nat)

  const EMPTY := Buffer(map[], [], 0)

  function NextPos(pos: nat): nat {
    if pos + 1 == BUFFER_SIZE then 0 else pos + 1
  }

  /** Storing forgets whatever is filed under the sequence number that loses its slot in the ring. */
  function Store(b: Buffer, p: Packet): Buffer
    requires |b.order| >= BUFFER_SIZE ==> b.writePos < |b.order|
  {
    var next := NextPos(b.writePos);
    if |b.order| >= BUFFER_SIZE then
      Buffer((b.packets - {b.order[b.writePos]})[p.seqno := p], b.order[b.writePos := p.seqno], next)
    else
      Buffer(b.packets[p.seqno := p], b.order + [p.seqno], next)
  }

  /** The buffer after a history of stores, oldest first. */
  function After(h: seq<Packet>): (b: Buffer)
    ensures b.writePos < BUFFER_SIZE
    decreases |h|
  {
    if h == [] then EMPTY else Store(After(h[..|h| - 1]), h[|h| - 1])
  }

  /** The slot of the n-th store. */
  function Slot(n: nat): nat {
    n % BUFFER_SIZE
  }

  lemma NextSlot(n: nat)
    ensures Slot(n + 1) == NextPos(Slot(n)) && Slot(n) < BUFFER_SIZE
    ensures n < BUFFER_SIZE ==> Slot(n) == n
    ensures n >= BUFFER_SIZE ==> Slot(n - BUFFER_SIZE) == Slot(n)
  {}

  lemma SlotsDiffer(j: nat, n: nat)
    requires n - BUFFER_SIZE < j < n
    ensures Slot(j) != Slot(n)
  {}

  lemma {:induction false} Shape(h: seq<Packet>)
    ensures |After(h).order| == if |h| < BUFFER_SIZE then |h| else BUFFER_SIZE
    ensures After(h).writePos == Slot(|h|)
    decreases |h|
  {
    if h == [] {
      NextSlot(0);
    } else {
      Shape(h[..|h| - 1]);
      NextSlot(|h| - 1);
    }
  }

  /** A store writes its own slot and no other. */
  lemma OrderAfterStore(h: seq<Packet>, n: nat, k: nat)
    requires |h| == n + 1
    ensures Slot(n) < |After(h).order| && After(h).order[Slot(n)] == h[n].seqno
    ensures k < |After(h[..n]).order| && k != Slot(n) ==>
      k < |After(h).order| && After(h).order[k] == After(h[..n]).order[k]
  {
    Shape(h[..n]);
    NextSlot(n);
  }

  /** The slot of a store keeps its sequence number until 512 stores later. */
  lemma {:induction false} SlotsOfRecentStores(h: seq<Packet>, j: nat)
    requires |h| - BUFFER_SIZE <= j < |h|
    ensures Slot(j) < |After(h).order| && After(h).order[Slot(j)] == h[j].seqno
    decreases |h|
  {
    var n := |h| - 1;
    OrderAfterStore(h, n, Slot(j));
    if j < n {
      SlotsOfRecentStores(h[..n], j);
      SlotsDiffer(j, n);
    }
  }

  /** In a full ring the slot to be written next has the oldest number. */
  lemma OldestIsNext(h: seq<Packet>)
    requires |h| >= BUFFER_SIZE
    ensures |After(h).order| == BUFFER_SIZE && After(h).order[After(h).writePos] == h[|h| - BUFFER_SIZE].seqno
  {
    Shape(h);
    SlotsOfRecentStores(h, |h| - BUFFER_SIZE);
    NextSlot(|h|);
  }

  lemma StoreFull(b: Buffer, p: Packet, oldest: SequenceNumber)
    requires |b.order| == BUFFER_SIZE && b.writePos < BUFFER_SIZE && b.order[b.writePos] == oldest
    ensures Store(b, p).packets == (b.packets - {oldest})[p.seqno := p]
  {}

  lemma StoreNotFull(b: Buffer, p: Packet)
    requires |b.order| < BUFFER_SIZE
    ensures Store(b, p).packets == b.packets[p.seqno := p]
  {}

  lemma PacketsWhenFilling(h: seq<Packet>, n: nat)
    requires |h| == n + 1 && n < BUFFER_SIZE
    ensures After(h).packets == After(h[..n]).packets[h[n].seqno := h[n]]
  {
    Shape(h[..n]);
    StoreNotFull(After(h[..n]), h[n]);
  }

  /** What a store does to the packets once the ring is full: it replaces those of its own number and evicts those of
      the number stored 512 stores earlier. */
  lemma PacketsWhenFull(h: seq<Packet>, n: nat)
    requires |h| == n + 1 && n >= BUFFER_SIZE
    ensures After(h).packets == (After(h[..n]).packets - {h[n - BUFFER_SIZE].seqno})[h[n].seqno := h[n]]
  {
    OldestIsNext(h[..n]);
    StoreFull(After(h[..n]), h[n], h[n - BUFFER_SIZE].seqno);
  }

  /** Store `i` is the last of its sequence number, is among the last 512, and no earlier store of the same
      number lost its slot after `i`. */
  ghost predicate Kept(h: seq<Packet>, i: nat) {
    && |h| - BUFFER_SIZE <= i < |h|
    && (forall k | i < k < |h| :: h[k].seqno != h[i].seqno)
    && (forall j | 0 <= j < i && i - BUFFER_SIZE < j < |h| - BUFFER_SIZE :: h[j].seqno != h[i].seqno)
  }

  /** One more store: what stays kept is what it neither replaces nor evicts. */
  lemma KeptAfterStore(h: seq<Packet>, i: nat)
    requires h != []
    ensures var n := |h| - 1;
      Kept(h, i) <==> i == n || (Kept(h[..n], i) && h[i].seqno != h[n].seqno
                                 && (n >= BUFFER_SIZE ==> h[i].seqno != h[n - BUFFER_SIZE].seqno))
  {
    var n := |h| - 1;
    if i < n && Kept(h[..n], i) && h[i].seqno != h[n].seqno
      && (n >= BUFFER_SIZE ==> h[i].seqno != h[n - BUFFER_SIZE].seqno) {
      forall k | i < k < |h| ensures h[k].seqno != h[i].seqno {
        if k < n { assert h[..n][k].seqno != h[..n][i].seqno; }
      }
      forall j | 0 <= j < i && i - BUFFER_SIZE < j < |h| - BUFFER_SIZE ensures h[j].seqno != h[i].seqno {
        if j < n - BUFFER_SIZE { assert h[..n][j].seqno != h[..n][i].seqno; }
      }
    }
    if i < n && Kept(h, i) {
      forall k | i < k < n ensures h[..n][k].seqno != h[..n][i].seqno {
        assert h[k].seqno != h[i].seqno;
      }
      forall j | 0 <= j < i && i - BUFFER_SIZE < j < n - BUFFER_SIZE ensures h[..n][j].seqno != h[..n][i].seqno {
        assert h[j].seqno != h[i].seqno;
      }
    }
  }

  lemma {:induction false} FoundIsKept(h: seq<Packet>, q: SequenceNumber) returns (i: nat)
    requires q in After(h).packets
    ensures Kept(h, i) && h[i].seqno == q && After(h).packets[q] == h[i]
    decreases |h|
  {
    var n := |h| - 1;
    if n < BUFFER_SIZE { PacketsWhenFilling(h, n); } else { PacketsWhenFull(h, n); }
    if q == h[n].seqno {
      i := n;
    } else {
      i := FoundIsKept(h[..n], q);
    }
    KeptAfterStore(h, i);
  }

  lemma {:induction false} KeptIsFound(h: seq<Packet>, i: nat)
    requires Kept(h, i)
    ensures h[i].seqno in After(h).packets && After(h).packets[h[i].seqno] == h[i]
    decreases |h|
  {
    var n := |h| - 1;
    if n < BUFFER_SIZE { PacketsWhenFilling(h, n); } else { PacketsWhenFull(h, n); }
    KeptAfterStore(h, i);
    if i < n {
      KeptIsFound(h[..n], i);
    }
  }

  /** `get` finds a sequence number exactly when some store of it is kept, and then returns that very packet. */
  lemma GetFindsExactlyKept(h: seq<Packet>, q: SequenceNumber)
    ensures q in After(h).packets ==> exists i: nat :: Kept(h, i) && h[i].seqno == q && After(h).packets[q] == h[i]
    ensures forall i: nat | Kept(h, i) && h[i].seqno == q :: q in After(h).packets && After(h).packets[q] == h[i]
  {
    if q in After(h).packets {
      var i := FoundIsKept(h, q);
    }
    forall i: nat | Kept(h, i) && h[i].seqno == q ensures q in After(h).packets && After(h).packets[q] == h[i] {
      KeptIsFound(h, i);
    }
  }

  ghost predicate WindowsDistinct(h: seq<Packet>) {
    forall j, k | 0 <= j < k < |h| && k < j + BUFFER_SIZE :: h[j].seqno != h[k].seqno
  }

  /** When any 512 consecutive stores are distinct, exactly the last 512 stores are kept. */
  lemma DistinctStoresAreKept(h: seq<Packet>, i: nat)
    requires WindowsDistinct(h)
    ensures Kept(h, i) <==> |h| - BUFFER_SIZE <= i < |h|
  {}

  /** The first of the last 512 stores. */
  function Oldest(n: nat): nat {
    if n <= BUFFER_SIZE then 0 else n - BUFFER_SIZE
  }

  function NumbersFrom(h: seq<Packet>, first: nat): set<SequenceNumber> {
    set i | first <= i < |h| :: h[i].seqno
  }

  lemma {:induction false} DistinctNumbersCount(h: seq<Packet>, first: nat)
    requires first <= |h| && forall j, k | first <= j < k < |h| :: h[j].seqno != h[k].seqno
    ensures |NumbersFrom(h, first)| == |h| - first
    decreases |h| - first
  {
    if first == |h| {
      assert NumbersFrom(h, first) == {};
    } else {
      DistinctNumbersCount(h, first + 1);
      assert NumbersFrom(h, first) == {h[first].seqno} + NumbersFrom(h, first + 1);
    }
  }

  /** Then the buffer is exactly the last 512 stores, or all of them while there are fewer: each under its own number,
      and nothing else. */
  lemma DistinctStoresFillTheBuffer(h: seq<Packet>)
    requires WindowsDistinct(h)
    ensures forall i: nat | Oldest(|h|) <= i < |h| ::
      h[i].seqno in After(h).packets && After(h).packets[h[i].seqno] == h[i]
    ensures After(h).packets.Keys == NumbersFrom(h, Oldest(|h|))
    ensures |After(h).packets| == if |h| < BUFFER_SIZE then |h| else BUFFER_SIZE
  {
    var packets, first := After(h).packets, Oldest(|h|);
    forall i: nat | first <= i < |h| ensures h[i].seqno in packets && packets[h[i].seqno] == h[i] {
      DistinctStoresAreKept(h, i);
      KeptIsFound(h, i);
    }
    forall q | q in packets ensures q in NumbersFrom(h, first) {
      var i := FoundIsKept(h, q);
    }
    assert packets.Keys == NumbersFrom(h, first);
    DistinctNumbersCount(h, first);
    assert |packets| == |packets.Keys|;
  }

  ghost predicate InOrder(h: seq<Packet>, first: nat) {
    forall i | 0 <= i < |h| :: h[i].seqno == (first + i) % 0x1_0000
  }

  lemma WrappedNumbersDiffer(a: nat, b: nat)
    requires a < b < a + 0x1_0000
    ensures a % 0x1_0000 != b % 0x1_0000
  {}

  lemma InOrderWindowsDistinct(h: seq<Packet>, first: nat)
    requires InOrder(h, first)
    ensures WindowsDistinct(h)
  {
    forall j, k | 0 <= j < k < |h| && k < j + BUFFER_SIZE ensures h[j].seqno != h[k].seqno {
      WrappedNumbersDiffer(first + j, first + k);
    }
  }

  /** On an in-order stream a request is answered exactly when it names one of the last 512 packets, and the
      answer is the one packet it names. */
  lemma InOrderRequest(h: seq<Packet>, first: nat, q: SequenceNumber)
    requires InOrder(h, first)
    ensures q in After(h).packets <==> exists i: nat :: |h| - BUFFER_SIZE <= i < |h| && h[i].seqno == q
    ensures forall i: nat | |h| - BUFFER_SIZE <= i < |h| && h[i].seqno == q ::
      q in After(h).packets && After(h).packets[q] == h[i]
  {
    InOrderWindowsDistinct(h, first);
    GetFindsExactlyKept(h, q);
    forall i: nat | |h| - BUFFER_SIZE <= i < |h| && h[i].seqno == q
      ensures q in After(h).packets && After(h).packets[q] == h[i]
    {
      DistinctStoresAreKept(h, i);
    }
  }

  /** Two stores of one number fewer than 512 apart cost the later one its place early: the ring evicts by
      number, so the slot of the earlier store takes the later packet with it. */
  lemma RepeatedNumberIsEvictedEarly(h: seq<Packet>, j: nat, i: nat)
    requires j < i < j + BUFFER_SIZE && |h| == j + BUFFER_SIZE + 1 && i < |h|
    requires h[j].seqno == h[i].seqno
    requires forall k | i < k < |h| :: h[k].seqno != h[i].seqno
    ensures h[i].seqno !in After(h).packets
  {
    var q := h[i].seqno;
    GetFindsExactlyKept(h, q);
    forall k: nat | Kept(h, k) ensures h[k].seqno != q {
      if i < k { assert h[k].seqno != q; }
    }
  }

  /** The packet is that of a kept store. */
  ghost predicate IsKept(h: seq<Packet>, p: Packet) {
    exists i: nat :: Kept(h, i) && h[i] == p
  }

  class RtpPacketBuffer {
    var packets: map<SequenceNumber, Packet>
    var sequenceOrder: seq<SequenceNumber>
    var writePos: nat
    /** Every packet ever stored, oldest first. */
    ghost var history: seq<Packet>

    ghost predicate Valid()
      reads this
    {
      Buffer(packets, sequenceOrder, writePos) == After(history)
    }

    constructor ()
      ensures Valid() && history == []
    {
      packets, sequenceOrder, writePos, history := map[], [], 0, [];
    }

    method Store(packet: Packet)
      requires Valid()
      modifies this
      ensures Valid() && history == old(history) + [packet]
    {
      var seqno := packet.seqno;
      if |sequenceOrder| >= BUFFER_SIZE {
        var oldSeqno := sequenceOrder[writePos];
        packets := packets - {oldSeqno};
        sequenceOrder := sequenceOrder[writePos := seqno];
      } else {
        sequenceOrder := sequenceOrder + [seqno];
      }
      packets := packets[seqno := packet];
      writePos := (writePos + 1) % BUFFER_SIZE;
      history := history + [packet];
      assert history[..|history| - 1] == old(history);
    }

    method Get(seqno: SequenceNumber) returns (found: Option<Packet>)
      requires Valid()
      ensures found.Some? ==> exists i: nat ::
        Kept(history, i) && history[i] == found.value && found.value.seqno == seqno
      ensures found.None? ==> forall i: nat | Kept(history, i) :: history[i].seqno != seqno
    {
      GetFindsExactlyKept(history, seqno);
      found := if seqno in packets then Some(packets[seqno]) else None;
    }

    /** The kept packets of the requested numbers, in the order of the requests; `at` are the requests answered. */
    method GetMany(seqnos: seq<SequenceNumber>) returns (found: seq<Packet>, ghost at: seq<nat>)
      requires Valid()
      ensures |at| == |found| && forall j, k | 0 <= j < k < |at| :: at[j] < at[k]
      ensures forall k | 0 <= k < |at| :: at[k] < |seqnos| && found[k].seqno == seqnos[at[k]]
      ensures forall k | 0 <= k < |found| :: IsKept(history, found[k])
      ensures forall j: nat, i: nat | j < |seqnos| && j !in at && Kept(history, i) :: history[i].seqno != seqnos[j]
    {
      found, at := [], [];
      for n := 0 to |seqnos|
        invariant |at| == |found| && forall j, k | 0 <= j < k < |at| :: at[j] < at[k]
        invariant forall k | 0 <= k < |at| :: at[k] < n && found[k].seqno == seqnos[at[k]]
        invariant forall k | 0 <= k < |found| :: IsKept(history, found[k])
        invariant forall j: nat, i: nat | j < n && j !in at && Kept(history, i) :: history[i].seqno != seqnos[j]
      {
        GetFindsExactlyKept(history, seqnos[n]);
        if seqnos[n] in packets {
          assert IsKept(history, packets[seqnos[n]]);
          found, at := found + [packets[seqnos[n]]], at + [n];
        }
      }
    }
  }
}

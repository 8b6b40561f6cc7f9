/** Generic NACK feedback (section 6.2.1 of RFC 4585): expanding the lost packets it names and resending those the
    buffer still has. */
module Nack {
  import opened PacketBuffer

  /** A packet id and a 16-bit mask; bit i - 1 of the mask names the i-th packet after it. */
  datatype NackPair = NackPair(packetId: SequenceNumber, lostPackets: SequenceNumber)

  /** The mask shifted right `k` times. */
  function Shifted(mask: nat, k: nat): nat {
    if k == 0 then mask else Shifted(mask, k - 1) / 2
  }

  predicate Bit(mask: nat, k: nat) {
    Shifted(mask, k) % 2 == 1
  }

  function Wrap(packetId: SequenceNumber, i: nat): SequenceNumber {
    (packetId + i) % 0x1_0000
  }

  /** The packet itself and those that the first `n` bits of the mask name. */
  function Named(pair: NackPair, n: nat): seq<SequenceNumber> {
    if n == 0 then [pair.packetId]
    else Named(pair, n - 1) + if Bit(pair.lostPackets, n - 1) then [Wrap(pair.packetId, n)] else []
  }

  function Expansion(pair: NackPair): seq<SequenceNumber> {
    Named(pair, 16)
  }

  function PopCount(mask: nat, n: nat): nat {
    if n == 0 then 0 else PopCount(mask, n - 1) + if Bit(mask, n - 1) then 1 else 0
  }

  /** Position `i` of the window that the pair speaks about is reported lost. */
  predicate ReportsLost(pair: NackPair, i: nat) {
    i == 0 || Bit(pair.lostPackets, i - 1)
  }

  lemma {:induction false} NamedExactly(pair: NackPair, n: nat, q: SequenceNumber)
    requires n <= 16
    ensures q in Named(pair, n) <==> exists i: nat :: i <= n && ReportsLost(pair, i) && q == Wrap(pair.packetId, i)
    ensures |Named(pair, n)| == 1 + PopCount(pair.lostPackets, n)
    decreases n
  {
    if n == 0 {
      assert q == pair.packetId ==> ReportsLost(pair, 0) && q == Wrap(pair.packetId, 0);
    } else {
      NamedExactly(pair, n - 1, q);
      if Bit(pair.lostPackets, n - 1) && q == Wrap(pair.packetId, n) {
        assert ReportsLost(pair, n);
      }
    }
  }

  lemma WrapsApart(packetId: SequenceNumber, i: nat, j: nat)
    requires i < j <= 16
    ensures Wrap(packetId, i) != Wrap(packetId, j)
  {}

  lemma {:induction false} NamedDistinct(pair: NackPair, n: nat)
    requires n <= 16
    ensures forall a, b | 0 <= a < b < |Named(pair, n)| :: Named(pair, n)[a] != Named(pair, n)[b]
    decreases n
  {
    if n > 0 {
      NamedDistinct(pair, n - 1);
      var before := Named(pair, n - 1);
      forall a | 0 <= a < |before| ensures before[a] != Wrap(pair.packetId, n) {
        NamedExactly(pair, n - 1, before[a]);
        var i: nat :| i <= n - 1 && ReportsLost(pair, i) && before[a] == Wrap(pair.packetId, i);
        WrapsApart(pair.packetId, i, n);
      }
    }
  }

  /** A pair names its packet and, modulo 2^16, the i-th after it for each set bit i - 1: nothing else, nothing
      twice, one more than the mask has bits. */
  lemma ExpansionIsExact(pair: NackPair, q: SequenceNumber)
    ensures q in Expansion(pair) <==>
      q == pair.packetId || exists i: nat :: 1 <= i <= 16 && ReportsLost(pair, i) && q == Wrap(pair.packetId, i)
    ensures forall a, b | 0 <= a < b < |Expansion(pair)| :: Expansion(pair)[a] != Expansion(pair)[b]
    ensures |Expansion(pair)| == 1 + PopCount(pair.lostPackets, 16)
  {
    NamedExactly(pair, 16, q);
    NamedDistinct(pair, 16);
    if q == pair.packetId { assert ReportsLost(pair, 0) && q == Wrap(pair.packetId, 0); }
    if q in Expansion(pair) && q != pair.packetId {
      var i: nat :| i <= 16 && ReportsLost(pair, i) && q == Wrap(pair.packetId, i);
      assert i != 0;
    }
  }

  /** The place of the `k`-th position of the window among the requests of its pair. */
  function Place(pair: NackPair, k: nat): nat {
    if k == 0 then 0 else 1 + PopCount(pair.lostPackets, k - 1)
  }

  lemma {:induction false} NamedInOrder(pair: NackPair, n: nat, k: nat)
    requires k <= n && ReportsLost(pair, k)
    ensures Place(pair, k) < |Named(pair, n)| == 1 + PopCount(pair.lostPackets, n)
    ensures k > 0 ==> Named(pair, n)[Place(pair, k)] == Wrap(pair.packetId, k)
    ensures Named(pair, n)[0] == pair.packetId
    decreases n
  {
    if n > 0 {
      NamedInOrder(pair, n - 1, if k < n then k else 0);
    }
  }

  // ----- a whole feedback packet -----

  function Expansions(nacks: seq<NackPair>): seq<SequenceNumber>
    decreases |nacks|
  {
    if nacks == [] then [] else Expansions(nacks[..|nacks| - 1]) + Expansion(nacks[|nacks| - 1])
  }

  /** How many requests the first `n` pairs make. */
  function RequestsOf(nacks: seq<NackPair>, n: nat): nat
    requires n <= |nacks|
  {
    if n == 0 then 0 else RequestsOf(nacks, n - 1) + 1 + PopCount(nacks[n - 1].lostPackets, 16)
  }

  /** Pair `n` reports the number lost, at position `k` of its window. */
  predicate Names(nacks: seq<NackPair>, n: nat, k: nat, q: SequenceNumber) {
    n < |nacks| && k <= 16 && ReportsLost(nacks[n], k) && q == Wrap(nacks[n].packetId, k)
  }

  /** What the packet requests: every number that some pair reports lost, pair after pair, and nothing else. */
  ghost predicate RequestsExactly(nacks: seq<NackPair>, requested: seq<SequenceNumber>) {
    && |requested| == RequestsOf(nacks, |nacks|)
    && (forall q <- requested :: exists n: nat, k: nat :: Names(nacks, n, k, q))
    && (forall n: nat, k: nat, q: SequenceNumber | Names(nacks, n, k, q) ::
          RequestsOf(nacks, n) + Place(nacks[n], k) < |requested|
          && requested[RequestsOf(nacks, n) + Place(nacks[n], k)] == q)
  }

  lemma {:induction false} RequestsOfPrefix(nacks: seq<NackPair>, m: nat, n: nat)
    requires n <= m <= |nacks|
    ensures RequestsOf(nacks[..m], n) == RequestsOf(nacks, n)
    decreases n
  {
    if n > 0 { RequestsOfPrefix(nacks, m, n - 1); }
  }

  lemma PairIsAppended(nacks: seq<NackPair>, requested: seq<SequenceNumber>)
    requires nacks != [] && RequestsExactly(nacks[..|nacks| - 1], requested)
    ensures RequestsExactly(nacks, requested + Expansion(nacks[|nacks| - 1]))
  {
    var m := |nacks| - 1;
    var init, pair := nacks[..m], nacks[m];
    var all := requested + Expansion(pair);
    RequestsOfPrefix(nacks, m, m);
    NamedExactly(pair, 16, pair.packetId);
    assert |all| == RequestsOf(nacks, m + 1);
    forall q | q in all ensures exists n: nat, k: nat :: Names(nacks, n, k, q) {
      if q in requested {
        var n: nat, k: nat :| Names(init, n, k, q);
        assert Names(nacks, n, k, q);
      } else {
        NamedExactly(pair, 16, q);
        var k: nat :| k <= 16 && ReportsLost(pair, k) && q == Wrap(pair.packetId, k);
        assert Names(nacks, m, k, q);
      }
    }
    forall n: nat, k: nat, q: SequenceNumber | Names(nacks, n, k, q)
      ensures RequestsOf(nacks, n) + Place(nacks[n], k) < |all|
      ensures all[RequestsOf(nacks, n) + Place(nacks[n], k)] == q
    {
      if n < m {
        assert Names(init, n, k, q);
        RequestsOfPrefix(nacks, m, n);
      } else {
        NamedInOrder(pair, 16, k);
      }
    }
  }

  lemma {:induction false} ExpansionsAreExact(nacks: seq<NackPair>)
    ensures RequestsExactly(nacks, Expansions(nacks))
    decreases |nacks|
  {
    if nacks != [] {
      ExpansionsAreExact(nacks[..|nacks| - 1]);
      PairIsAppended(nacks, Expansions(nacks[..|nacks| - 1]));
    }
  }

  lemma RequestedMeans(nacks: seq<NackPair>, q: SequenceNumber)
    ensures q in Expansions(nacks) <==> exists n: nat, k: nat :: Names(nacks, n, k, q)
  {
    ExpansionsAreExact(nacks);
  }

  /** The decoding loops of `handle_rtcp_feedback`. */
  method RequestedSeqs(nacks: seq<NackPair>) returns (requested: seq<SequenceNumber>)
    ensures requested == Expansions(nacks) && RequestsExactly(nacks, requested)
  {
    requested := [];
    for n := 0 to |nacks|
      invariant requested == Expansions(nacks[..n])
    {
      ghost var before := requested;
      var pair := nacks[n];
      requested := requested + [pair.packetId];
      var bitmask: nat := pair.lostPackets;
      for i := 1 to 17
        invariant bitmask == Shifted(pair.lostPackets, i - 1)
        invariant requested == before + Named(pair, i - 1)
      {
        if bitmask % 2 == 1 {
          requested := requested + [Wrap(pair.packetId, i)];
        }
        bitmask := bitmask / 2;
      }
      assert nacks[..n + 1][..n] == nacks[..n];
    }
    assert nacks[..|nacks|] == nacks;
    ExpansionsAreExact(nacks);
  }

  /** The packets of the local stream that the buffer has for the requests, and how many it lacks. */
  function Resent(packets: map<SequenceNumber, Packet>, requested: seq<SequenceNumber>, ssrc: nat): seq<Packet>
    decreases |requested|
  {
    if requested == [] then []
    else
      var last := requested[|requested| - 1];
      Resent(packets, requested[..|requested| - 1], ssrc)
      + if last in packets && packets[last].ssrc == ssrc then [packets[last]] else []
  }

  function Missed(packets: map<SequenceNumber, Packet>, requested: seq<SequenceNumber>): nat
    decreases |requested|
  {
    if requested == [] then 0
    else Missed(packets, requested[..|requested| - 1]) + if requested[|requested| - 1] in packets then 0 else 1
  }

  /** The positions of the requests whose number has no kept store. */
  ghost function Unanswered(h: seq<Packet>, requested: seq<SequenceNumber>): set<nat> {
    set k: nat | k < |requested| && !HasKeptStore(h, requested[k])
  }

  ghost predicate HasKeptStore(h: seq<Packet>, q: SequenceNumber) {
    exists i: nat :: Kept(h, i) && h[i].seqno == q
  }

  /** A miss is counted for each request whose number has no kept store. */
  lemma {:induction false} MissedCountsUnanswered(h: seq<Packet>, requested: seq<SequenceNumber>)
    ensures Missed(After(h).packets, requested) == |Unanswered(h, requested)|
    decreases |requested|
  {
    if requested == [] {
      assert Unanswered(h, requested) == {};
    } else {
      var n := |requested| - 1;
      MissedCountsUnanswered(h, requested[..n]);
      GetFindsExactlyKept(h, requested[n]);
      assert forall k | 0 <= k < n :: requested[..n][k] == requested[k];
      var last := if HasKeptStore(h, requested[n]) then {} else {n};
      assert Unanswered(h, requested) == Unanswered(h, requested[..n]) + last;
    }
  }

  /** The resend loop; a write that fails only goes uncounted, so it is not modelled. */
  method Retransmit(buffer: RtpPacketBuffer, requested: seq<SequenceNumber>, ssrc: nat)
    returns (resent: seq<Packet>, misses: nat)
    requires buffer.Valid()
    ensures resent == Resent(buffer.packets, requested, ssrc)
    ensures misses == |Unanswered(buffer.history, requested)|
  {
    resent, misses := [], 0;
    for i := 0 to |requested|
      invariant resent == Resent(buffer.packets, requested[..i], ssrc)
      invariant misses == Missed(buffer.packets, requested[..i])
    {
      var seqno := requested[i];
      if seqno in buffer.packets {
        var packet := buffer.packets[seqno];
        if packet.ssrc == ssrc {
          resent := resent + [packet];
        }
      } else {
        misses := misses + 1;
      }
      assert requested[..i + 1][..i] == requested[..i];
    }
    assert requested[..|requested|] == requested;
    MissedCountsUnanswered(buffer.history, requested);
  }

  /** Every packet sent again was requested under its own number, is of the local stream, and was stored. */
  lemma {:induction false} ResentWereRequested(h: seq<Packet>, requested: seq<SequenceNumber>, ssrc: nat, p: Packet)
    ensures p in Resent(After(h).packets, requested, ssrc) <==>
      p.seqno in requested && p.ssrc == ssrc && exists i: nat :: Kept(h, i) && h[i] == p
    decreases |requested|
  {
    if requested != [] {
      var last := requested[|requested| - 1];
      ResentWereRequested(h, requested[..|requested| - 1], ssrc, p);
      GetFindsExactlyKept(h, last);
      assert requested == requested[..|requested| - 1] + [last];
    }
  }

  /** Requests are answered in their order. */
  lemma {:induction false} ResentInOrder(packets: map<SequenceNumber, Packet>, first: seq<SequenceNumber>,
                                         second: seq<SequenceNumber>, ssrc: nat)
    ensures Resent(packets, first + second, ssrc) == Resent(packets, first, ssrc) + Resent(packets, second, ssrc)
    decreases |second|
  {
    if second == [] {
      assert first + second == first;
    } else {
      var n := |second| - 1;
      assert (first + second)[..|first + second| - 1] == first + second[..n];
      ResentInOrder(packets, first, second[..n], ssrc);
    }
  }

  /** `handle_rtcp_feedback` on one packet: what is sent again are exactly the kept packets of the local stream whose
      numbers some pair reports lost, and a miss is counted for each request without a kept store. */
  method HandleNack(buffer: RtpPacketBuffer, nacks: seq<NackPair>, ssrc: nat)
    returns (resent: seq<Packet>, misses: nat, ghost requested: seq<SequenceNumber>)
    requires buffer.Valid()
    ensures RequestsExactly(nacks, requested) && resent == Resent(After(buffer.history).packets, requested, ssrc)
    ensures forall p :: p in resent <==>
      p.ssrc == ssrc && IsKept(buffer.history, p) && exists n: nat, k: nat :: Names(nacks, n, k, p.seqno)
    ensures misses == |Unanswered(buffer.history, requested)|
  {
    var seqs := RequestedSeqs(nacks);
    requested := seqs;
    resent, misses := Retransmit(buffer, seqs, ssrc);
    forall p ensures p in resent <==>
        p.ssrc == ssrc && IsKept(buffer.history, p) && exists n: nat, k: nat :: Names(nacks, n, k, p.seqno)
    {
      ResentWereRequested(buffer.history, seqs, ssrc, p);
      RequestedMeans(nacks, p.seqno);
    }
  }

  ghost predicate FiledByNumber(packets: map<SequenceNumber, Packet>) {
    forall q <- packets :: packets[q].seqno == q
  }

  lemma BufferIsFiledByNumber(h: seq<Packet>)
    ensures FiledByNumber(After(h).packets)
  {
    forall q | q in After(h).packets ensures After(h).packets[q].seqno == q {
      var i := FoundIsKept(h, q);
    }
  }

  ghost predicate Unrepeated(requested: seq<SequenceNumber>) {
    forall a, b | 0 <= a < b < |requested| :: requested[a] != requested[b]
  }

  /** Requests without repeats are answered without repeats. */
  lemma {:induction false} NothingIsResentTwice(packets: map<SequenceNumber, Packet>, requested: seq<SequenceNumber>,
                                                ssrc: nat)
    requires FiledByNumber(packets) && Unrepeated(requested)
    ensures forall k | 0 <= k < |Resent(packets, requested, ssrc)| ::
      Resent(packets, requested, ssrc)[k].seqno in requested
    ensures forall a, b | 0 <= a < b < |Resent(packets, requested, ssrc)| ::
      Resent(packets, requested, ssrc)[a].seqno != Resent(packets, requested, ssrc)[b].seqno
    decreases |requested|
  {
    if requested != [] {
      var n := |requested| - 1;
      NothingIsResentTwice(packets, requested[..n], ssrc);
      assert forall q <- requested[..n] :: q in requested && q != requested[n];
    }
  }

  /** On an in-order stream of one source, a NACK pair is answered with exactly the packets among the last 512
      that it reports lost, each once. */
  lemma InOrderNackAnswer(h: seq<Packet>, first: nat, ssrc: nat, pair: NackPair, p: Packet)
    requires InOrder(h, first) && forall i | 0 <= i < |h| :: h[i].ssrc == ssrc
    ensures p in Resent(After(h).packets, Expansion(pair), ssrc) <==>
      exists i: nat, k: nat ::
        |h| - BUFFER_SIZE <= i < |h| && h[i] == p && k <= 16 && ReportsLost(pair, k)
          && p.seqno == Wrap(pair.packetId, k)
    ensures forall a, b | 0 <= a < b < |Resent(After(h).packets, Expansion(pair), ssrc)| ::
      Resent(After(h).packets, Expansion(pair), ssrc)[a].seqno !=
        Resent(After(h).packets, Expansion(pair), ssrc)[b].seqno
  {
    ResentWereRequested(h, Expansion(pair), ssrc, p);
    NamedExactly(pair, 16, p.seqno);
    NamedDistinct(pair, 16);
    BufferIsFiledByNumber(h);
    NothingIsResentTwice(After(h).packets, Expansion(pair), ssrc);
    InOrderWindowsDistinct(h, first);
    forall i: nat | i < |h| ensures Kept(h, i) <==> |h| - BUFFER_SIZE <= i < |h| { DistinctStoresAreKept(h, i); }
  }

  /** The pairs that report a number lost. */
  ghost function Naming(nacks: seq<NackPair>, q: SequenceNumber): set<nat> {
    set n: nat | n < |nacks| && q in Expansion(nacks[n])
  }

  lemma {:induction false} UnrepeatedOnce(packets: seq<Packet>, p: Packet)
    requires forall a, b | 0 <= a < b < |packets| :: packets[a].seqno != packets[b].seqno
    ensures multiset(packets)[p] == if p in packets then 1 else 0
    decreases |packets|
  {
    if packets != [] {
      var n := |packets| - 1;
      assert packets == packets[..n] + [packets[n]];
      UnrepeatedOnce(packets[..n], p);
    }
  }

  lemma PairAnswersOnce(h: seq<Packet>, first: nat, ssrc: nat, pair: NackPair, p: Packet)
    requires InOrder(h, first) && (forall i | 0 <= i < |h| :: h[i].ssrc == ssrc) && IsKept(h, p)
    ensures multiset(Resent(After(h).packets, Expansion(pair), ssrc))[p] == if p.seqno in Expansion(pair) then 1 else 0
  {
    InOrderNackAnswer(h, first, ssrc, pair, p);
    UnrepeatedOnce(Resent(After(h).packets, Expansion(pair), ssrc), p);
    ResentWereRequested(h, Expansion(pair), ssrc, p);
  }

  /** On an in-order stream the kept packets are the last 512. */
  lemma KeptIsRecent(h: seq<Packet>, first: nat, p: Packet)
    requires InOrder(h, first)
    ensures IsKept(h, p) <==> exists i: nat :: |h| - BUFFER_SIZE <= i < |h| && h[i] == p
  {
    InOrderWindowsDistinct(h, first);
    forall i: nat | i < |h| ensures Kept(h, i) <==> |h| - BUFFER_SIZE <= i < |h| { DistinctStoresAreKept(h, i); }
  }

  lemma NotKeptIsNotResent(h: seq<Packet>, requested: seq<SequenceNumber>, ssrc: nat, p: Packet)
    requires !IsKept(h, p)
    ensures multiset(Resent(After(h).packets, requested, ssrc))[p] == 0
  {
    ResentWereRequested(h, requested, ssrc, p);
  }

  lemma NamingByLast(nacks: seq<NackPair>, m: nat, q: SequenceNumber)
    requires |nacks| == m + 1
    ensures |Naming(nacks, q)| == |Naming(nacks[..m], q)| + if q in Expansion(nacks[m]) then 1 else 0
  {
    var last := if q in Expansion(nacks[m]) then {m} else {};
    assert Naming(nacks, q) == Naming(nacks[..m], q) + last;
  }

  lemma {:induction false} KeptIsResentOften(h: seq<Packet>, first: nat, ssrc: nat, nacks: seq<NackPair>, p: Packet)
    requires InOrder(h, first) && (forall i | 0 <= i < |h| :: h[i].ssrc == ssrc) && IsKept(h, p)
    ensures multiset(Resent(After(h).packets, Expansions(nacks), ssrc))[p] == |Naming(nacks, p.seqno)|
    decreases |nacks|
  {
    if nacks == [] {
      assert Naming(nacks, p.seqno) == {};
    } else {
      var m := |nacks| - 1;
      KeptIsResentOften(h, first, ssrc, nacks[..m], p);
      PairAnswersOnce(h, first, ssrc, nacks[m], p);
      ResentInOrder(After(h).packets, Expansions(nacks[..m]), Expansion(nacks[m]), ssrc);
      NamingByLast(nacks, m, p.seqno);
    }
  }

  /** On an in-order stream of one source, a feedback packet of any number of pairs is answered with exactly the
      packets among the last 512 that some pair reports lost, each once for every pair that does. */
  lemma InOrderFeedbackAnswer(h: seq<Packet>, first: nat, ssrc: nat, nacks: seq<NackPair>, p: Packet)
    requires InOrder(h, first) && forall i | 0 <= i < |h| :: h[i].ssrc == ssrc
    ensures multiset(Resent(After(h).packets, Expansions(nacks), ssrc))[p] ==
      if exists i: nat :: |h| - BUFFER_SIZE <= i < |h| && h[i] == p then |Naming(nacks, p.seqno)| else 0
  {
    KeptIsRecent(h, first, p);
    if IsKept(h, p) {
      KeptIsResentOften(h, first, ssrc, nacks, p);
    } else {
      NotKeptIsNotResent(h, Expansions(nacks), ssrc, p);
    }
  }
}

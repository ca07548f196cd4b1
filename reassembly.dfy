/** The frame reassembler: the packet loop of the capture thread
    (lepton.cpp:138-161) as a function of the bytes each bus read delivers.
    The capture thread's imperative loop (Lepton.Lepton.Reassemble) is
    proved to compute exactly this function. */
module Reassembly {
  import opened Protocol

  /** What one `read` of the bus writes: a prefix of at most one packet.
      The rest of the packet buffer keeps what it held before. */
  type Chunk = s: seq<uint8> | |s| <= PacketSize

  /** How a pass ends: with a full frame, or with the resync ceiling hit. */
  datatype Outcome = Complete | SyncLost

  /** The state of the packet loop: the expected sequence number `j`, the
      mismatches counted so far in this pass, the number of reads issued,
      and the contents of the packet buffer and of the scratch frame. */
  datatype Cursor = Cursor(j: nat, resets: nat, used: nat, packet: seq<uint8>, frame: seq<uint8>)
  {
    /** The two buffers have their fixed sizes. */
    predicate Shaped() {
      |packet| == PacketSize && |frame| == FrameSize
    }

    /** The loop is still running: a packet is expected and the ceiling
        has not been reached. */
    predicate Running() {
      Shaped() && j < PacketsPerFrame && resets < MaxResets
    }
  }

  /** The result of a whole pass. */
  datatype Pass = Pass(outcome: Outcome, last: Cursor)

  /** The state at the top of the packet loop. */
  function Start(packet: seq<uint8>, frame: seq<uint8>): Cursor {
    Cursor(0, 0, 0, packet, frame)
  }

  /** The read the loop issues as its k-th: once the source is exhausted,
      a read delivers nothing, as a failed `read` does. */
  function NextRead(source: seq<Chunk>, k: nat): Chunk {
    if k < |source| then source[k] else []
  }

  /** The byte written into the sequence slot before each read while
      packet `j` is expected (lepton.cpp:141). It can never be mistaken
      for a correct tag. */
  function Sentinel(j: nat): (b: uint8)
    ensures b as int != j
  {
    if j == 0 then 1 else 0
  }

  /** The packet buffer after priming it with the sentinel and reading `r`
      into it (lepton.cpp:141-142). */
  function Deliver(packet: seq<uint8>, j: nat, r: Chunk): (p: seq<uint8>)
    requires |packet| == PacketSize
    ensures |p| == PacketSize
    ensures p[..|r|] == r
    ensures forall i :: |r| <= i < PacketSize ==>
      p[i] == if i == SequenceByte then Sentinel(j) else packet[i]
  {
    var primed := packet[SequenceByte := Sentinel(j)];
    r + primed[|r|..]
  }

  /** The payload part of a packet buffer. */
  function Payload(p: seq<uint8>): (payload: seq<uint8>)
    requires |p| == PacketSize
    ensures |payload| == PayloadSize
    ensures forall i :: 0 <= i < PayloadSize ==> payload[i] == p[PacketHeaderSize + i]
  {
    p[PacketHeaderSize..]
  }

  /** Slot `k` of a frame: the bytes `[k * PayloadSize, (k + 1) * PayloadSize)`
      that packet `k`'s payload fills. */
  function Slot(frame: seq<uint8>, k: nat): (s: seq<uint8>)
    requires |frame| == FrameSize && k < PacketsPerFrame
    ensures |s| == PayloadSize
  {
    SlotBounds(k, k + 1);
    frame[k * PayloadSize..(k + 1) * PayloadSize]
  }

  /** The frame with `payload` copied over slot `j` (lepton.cpp:159):
      that slot holds the payload and every other byte is unchanged. */
  function Splice(frame: seq<uint8>, j: nat, payload: seq<uint8>): (f: seq<uint8>)
    requires |frame| == FrameSize && j < PacketsPerFrame && |payload| == PayloadSize
    ensures |f| == FrameSize
    ensures Slot(f, j) == payload
    ensures forall t :: 0 <= t < PayloadSize ==> f[j * PayloadSize + t] == payload[t]
    ensures forall i :: 0 <= i < FrameSize && !(j * PayloadSize <= i < (j + 1) * PayloadSize) ==>
      f[i] == frame[i]
    ensures forall k :: 0 <= k < PacketsPerFrame && k != j ==> Slot(f, k) == Slot(frame, k)
  {
    SlotBounds(j, j + 1);
    var f := frame[..j * PayloadSize] + payload + frame[(j + 1) * PayloadSize..];
    assert Slot(f, j) == payload;
    forall k | 0 <= k < PacketsPerFrame && k != j
      ensures Slot(f, k) == Slot(frame, k)
    {
      SlotBounds(k, k + 1);
      if k < j {
        SlotBounds(k, j);
        forall t | 0 <= t < PayloadSize
          ensures Slot(f, k)[t] == Slot(frame, k)[t]
        {
          assert Slot(f, k)[t] == f[k * PayloadSize + t];
          assert k * PayloadSize + t < j * PayloadSize;
        }
      } else {
        SlotBounds(j, k);
        forall t | 0 <= t < PayloadSize
          ensures Slot(f, k)[t] == Slot(frame, k)[t]
        {
          assert Slot(f, k)[t] == f[k * PayloadSize + t];
          assert k * PayloadSize + t >= (j + 1) * PayloadSize;
        }
      }
    }
    f
  }

  /** Whether the packet delivered by `r` carries the expected tag. */
  predicate Accepts(c: Cursor, r: Chunk)
    requires c.Running()
  {
    Deliver(c.packet, c.j, r)[SequenceByte] as int == c.j
  }

  /** One turn of the packet loop before the ceiling test: a matching
      packet's payload is copied verbatim to its slot and the next packet
      is expected; any other packet restarts the frame from packet 0 and
      counts one reset, leaving the frame as it was (lepton.cpp:141-147,
      159-160). */
  function Receive(c: Cursor, r: Chunk): (n: Cursor)
    requires c.Running()
    ensures n.Shaped() && n.used == c.used + 1 && n.packet == Deliver(c.packet, c.j, r)
    ensures Accepts(c, r) ==>
      && n.j == c.j + 1 && n.resets == c.resets
      && Slot(n.frame, c.j) == n.packet[PacketHeaderSize..]
      && (forall k :: 0 <= k < PacketsPerFrame && k != c.j ==> Slot(n.frame, k) == Slot(c.frame, k))
      && forall i :: 0 <= i < FrameSize && !(c.j * PayloadSize <= i < (c.j + 1) * PayloadSize) ==>
           n.frame[i] == c.frame[i]
    ensures !Accepts(c, r) ==> n.j == 0 && n.resets == c.resets + 1 && n.frame == c.frame
  {
    var p := Deliver(c.packet, c.j, r);
    if p[SequenceByte] as int != c.j then
      Cursor(0, c.resets + 1, c.used + 1, p, c.frame)
    else
      Cursor(c.j + 1, c.resets, c.used + 1, p, Splice(c.frame, c.j, Payload(p)))
  }

  /** The rest of the pass from cursor `c`: it ends with all packets of a
      frame received and fewer than `MaxResets` resets, or with exactly
      `MaxResets` resets and the frame restarted (lepton.cpp:139-161). */
  function Run(c: Cursor, source: seq<Chunk>): (p: Pass)
    requires c.Running()
    ensures p.last.Shaped()
    ensures p.outcome == Complete ==> p.last.j == PacketsPerFrame && p.last.resets < MaxResets
    ensures p.outcome == SyncLost ==> p.last.j == 0 && p.last.resets == MaxResets
    ensures c.resets <= p.last.resets && c.used < p.last.used
    decreases MaxResets - c.resets, PacketsPerFrame - c.j
  {
    var n := Receive(c, NextRead(source, c.used));
    if n.resets >= MaxResets then Pass(SyncLost, n)
    else if n.j == PacketsPerFrame then Pass(Complete, n)
    else Run(n, source)
  }

  /** A read that does not reach the sequence byte leaves the sentinel
      there, so a silent bus is always detected as a mismatch
      (lepton.cpp:141-143). */
  lemma SilentReadMismatches(c: Cursor, r: Chunk)
    requires c.Running() && |r| <= SequenceByte
    ensures !Accepts(c, r)
    ensures Receive(c, r).j == 0 && Receive(c, r).resets == c.resets + 1
    ensures Receive(c, r).frame == c.frame
  {
    assert Deliver(c.packet, c.j, r)[SequenceByte] == Sentinel(c.j);
  }

  /** A read that delivers a whole packet is accepted exactly when the
      packet's own sequence byte is the expected one, and then it is that
      packet's payload that lands in the frame. */
  lemma FullReadAccepted(c: Cursor, r: Chunk)
    requires c.Running() && |r| == PacketSize
    ensures Deliver(c.packet, c.j, r) == r
    ensures Accepts(c, r) <==> r[SequenceByte] as int == c.j
    ensures Accepts(c, r) ==> Slot(Receive(c, r).frame, c.j) == r[PacketHeaderSize..]
  {
    var p := Deliver(c.packet, c.j, r);
    assert p == p[..|r|];
  }

  /** A short read that reaches past the sequence byte with the expected
      tag is accepted like a whole packet, and the payload bytes it did
      not deliver are copied from what the packet buffer held before: the
      return value of `read` is not checked (lepton.cpp:142). */
  lemma ShortReadKeepsStaleBytes(c: Cursor, r: Chunk, t: nat)
    requires c.Running() && SequenceByte < |r| && r[SequenceByte] as int == c.j
    requires |r| <= PacketHeaderSize + t < PacketSize
    ensures Accepts(c, r)
    ensures Slot(Receive(c, r).frame, c.j)[t] == c.packet[PacketHeaderSize + t]
  {
    assert Deliver(c.packet, c.j, r)[..|r|][SequenceByte] == r[SequenceByte];
  }

  /** Correctly tagged whole packets `c.j`, ..., `PacketsPerFrame - 1` are the
      next reads of the source. */
  ghost predicate TaggedRun(source: seq<Chunk>, c: Cursor)
  {
    && c.j <= PacketsPerFrame
    && c.used + (PacketsPerFrame - c.j) <= |source|
    && forall i :: c.used <= i < c.used + (PacketsPerFrame - c.j) ==>
         |source[i]| == PacketSize && source[i][SequenceByte] as int == c.j + (i - c.used)
  }

  /** From a running cursor, a source that supplies the remaining packets
      in order completes the frame with no further reset, leaves the slots
      already filled alone, and fills every other slot with its packet's
      payload verbatim. */
  lemma {:induction false} TaggedRunCompletes(c: Cursor, source: seq<Chunk>)
    requires c.Running() && TaggedRun(source, c)
    ensures Run(c, source).outcome == Complete
    ensures Run(c, source).last.resets == c.resets
    ensures Run(c, source).last.used == c.used + (PacketsPerFrame - c.j)
    ensures forall k :: 0 <= k < c.j ==> Slot(Run(c, source).last.frame, k) == Slot(c.frame, k)
    ensures forall k :: c.j <= k < PacketsPerFrame ==>
      Slot(Run(c, source).last.frame, k) == source[c.used + (k - c.j)][PacketHeaderSize..]
    decreases PacketsPerFrame - c.j
  {
    var r := NextRead(source, c.used);
    FullReadAccepted(c, r);
    var n := Receive(c, r);
    if n.j < PacketsPerFrame {
      assert TaggedRun(source, n);
      TaggedRunCompletes(n, source);
      assert Run(c, source) == Run(n, source);
      var e := Run(n, source).last;
      forall k | c.j <= k < PacketsPerFrame
        ensures Slot(e.frame, k) == source[c.used + (k - c.j)][PacketHeaderSize..]
      {
        if k > c.j {
          assert n.used + (k - n.j) == c.used + (k - c.j);
        }
      }
    }
  }

  /** The byte-for-byte round trip: feeding a fresh pass packets tagged
      0, 1, ..., `PacketsPerFrame - 1` reconstructs a frame whose slot `k`
      is exactly the payload of packet `k`, with no reset. */
  lemma CleanPassRoundTrip(source: seq<Chunk>, packet: seq<uint8>, frame: seq<uint8>)
    requires |packet| == PacketSize && |frame| == FrameSize
    requires |source| >= PacketsPerFrame
    requires forall k :: 0 <= k < PacketsPerFrame ==>
      |source[k]| == PacketSize && source[k][SequenceByte] as int == k
    ensures Run(Start(packet, frame), source).outcome == Complete
    ensures Run(Start(packet, frame), source).last.resets == 0
    ensures Run(Start(packet, frame), source).last.used == PacketsPerFrame
    ensures forall k :: 0 <= k < PacketsPerFrame ==>
      Slot(Run(Start(packet, frame), source).last.frame, k) == source[k][PacketHeaderSize..]
  {
    TaggedRunCompletes(Start(packet, frame), source);
  }

  /** A read that cannot be taken for packet 0: it either stops short of
      the sequence byte or carries a non-zero tag there. */
  predicate NeverTagsZero(r: Chunk) {
    |r| > SequenceByte ==> r[SequenceByte] != 0
  }

  /** While no read can be taken for packet 0, every read is a reset, and
      once the ceiling is reached the pass gives up with the scratch frame
      untouched (lepton.cpp:143-156). */
  lemma {:induction false} NoStartLosesSync(c: Cursor, source: seq<Chunk>)
    requires c.Running() && c.j == 0
    requires forall k :: c.used <= k < c.used + (MaxResets - c.resets) ==> NeverTagsZero(NextRead(source, k))
    ensures Run(c, source).outcome == SyncLost
    ensures Run(c, source).last.used == c.used + (MaxResets - c.resets)
    ensures Run(c, source).last.frame == c.frame
    decreases MaxResets - c.resets
  {
    var r := NextRead(source, c.used);
    assert NeverTagsZero(r);
    assert !Accepts(c, r) by {
      if |r| <= SequenceByte {
        SilentReadMismatches(c, r);
      } else {
        assert Deliver(c.packet, c.j, r)[..|r|][SequenceByte] == r[SequenceByte];
      }
    }
    var n := Receive(c, r);
    if n.resets < MaxResets {
      NoStartLosesSync(n, source);
    }
  }

  /** A bus that delivers nothing at all loses sync after exactly
      `MaxResets` reads, leaving the scratch frame as it was. */
  lemma SilentBusLosesSync(packet: seq<uint8>, frame: seq<uint8>)
    requires |packet| == PacketSize && |frame| == FrameSize
    ensures Run(Start(packet, frame), []).outcome == SyncLost
    ensures Run(Start(packet, frame), []).last.used == MaxResets
    ensures Run(Start(packet, frame), []).last.frame == frame
  {
    NoStartLosesSync(Start(packet, frame), []);
  }

  /** Slot `k` of the cursor's frame holds the payload of the whole read
      that came `c.j - k` reads ago, and that read was tagged `k`. */
  ghost predicate SlotFromRead(source: seq<Chunk>, c: Cursor, k: nat)
    requires c.Shaped() && k < c.j <= c.used <= |source| && c.j <= PacketsPerFrame
  {
    && |source[c.used - c.j + k]| == PacketSize
    && source[c.used - c.j + k][SequenceByte] as int == k
    && Slot(c.frame, k) == source[c.used - c.j + k][PacketHeaderSize..]
  }

  /** The packets accepted since the last reset: the `c.j` reads just
      before read number `c.used` are whole, tagged 0, ..., `c.j - 1`,
      and their payloads sit verbatim in the first `c.j` slots. */
  ghost predicate FilledFromLastRun(source: seq<Chunk>, c: Cursor)
  {
    && c.Shaped() && c.j <= PacketsPerFrame
    && c.j <= c.used && (c.j > 0 ==> c.used <= |source|)
    && forall k :: 0 <= k < c.j ==> SlotFromRead(source, c, k)
  }

  /** Every read in the source is a whole packet. */
  ghost predicate WholeReads(source: seq<Chunk>) {
    forall k :: 0 <= k < |source| ==> |source[k]| == PacketSize
  }

  /** Accepting the whole packet `source[c.used]` as packet `c.j`, and
      nothing else changing in the frame, extends the run by one packet. */
  lemma ExtendLastRun(source: seq<Chunk>, c: Cursor, n: Cursor)
    requires c.Running() && FilledFromLastRun(source, c) && n.Shaped()
    requires n.j == c.j + 1 && n.used == c.used + 1 && c.used < |source|
    requires |source[c.used]| == PacketSize && source[c.used][SequenceByte] as int == c.j
    requires Slot(n.frame, c.j) == source[c.used][PacketHeaderSize..]
    requires forall k :: 0 <= k < PacketsPerFrame && k != c.j ==> Slot(n.frame, k) == Slot(c.frame, k)
    ensures FilledFromLastRun(source, n)
  {
    forall k | 0 <= k < n.j
      ensures SlotFromRead(source, n, k)
    {
      if k < c.j {
        assert SlotFromRead(source, c, k);
        assert Slot(n.frame, k) == Slot(c.frame, k);
        assert n.used - n.j + k == c.used - c.j + k;
      } else {
        assert n.used - n.j + k == c.used;
      }
    }
  }

  /** One turn keeps `FilledFromLastRun`: a match extends the run by one
      packet, a mismatch empties it. */
  lemma ReceiveKeepsLastRun(source: seq<Chunk>, c: Cursor)
    requires WholeReads(source) && c.Running() && FilledFromLastRun(source, c)
    ensures FilledFromLastRun(source, Receive(c, NextRead(source, c.used)))
  {
    var r := NextRead(source, c.used);
    var n := Receive(c, r);
    if Accepts(c, r) {
      if c.used >= |source| {
        SilentReadMismatches(c, r);
        assert false;
      }
      FullReadAccepted(c, r);
      ExtendLastRun(source, c, n);
    }
  }

  /** `FilledFromLastRun` holds to the end of the pass. */
  lemma {:induction false} RunKeepsLastRun(source: seq<Chunk>, c: Cursor)
    requires WholeReads(source) && c.Running() && FilledFromLastRun(source, c)
    ensures FilledFromLastRun(source, Run(c, source).last)
    decreases MaxResets - c.resets, PacketsPerFrame - c.j
  {
    ReceiveKeepsLastRun(source, c);
    var n := Receive(c, NextRead(source, c.used));
    if n.resets < MaxResets && n.j < PacketsPerFrame {
      RunKeepsLastRun(source, n);
    }
  }

  /** Slot `k` of a completed frame holds the payload of the whole read
      made `PacketsPerFrame - k` reads before the end, tagged `k`. */
  ghost predicate SlotFromFinalRun(source: seq<Chunk>, e: Cursor, k: nat)
    requires e.Shaped() && k < PacketsPerFrame <= e.used <= |source|
  {
    && |source[e.used - PacketsPerFrame + k]| == PacketSize
    && source[e.used - PacketsPerFrame + k][SequenceByte] as int == k
    && Slot(e.frame, k) == source[e.used - PacketsPerFrame + k][PacketHeaderSize..]
  }

  /** A cursor that has received a whole frame holds exactly the last
      `PacketsPerFrame` reads, tagged 0, 1, ..., `PacketsPerFrame - 1`. */
  ghost predicate FrameFromLastReads(source: seq<Chunk>, e: Cursor)
    requires e.Shaped()
  {
    && PacketsPerFrame <= e.used <= |source|
    && forall k :: 0 <= k < PacketsPerFrame ==> SlotFromFinalRun(source, e, k)
  }

  /** A run of a whole frame's worth of packets is a frame made of the
      last `PacketsPerFrame` reads. */
  lemma FullRunIsFrame(source: seq<Chunk>, e: Cursor)
    requires FilledFromLastRun(source, e) && e.j == PacketsPerFrame
    ensures FrameFromLastReads(source, e)
  {
    forall k | 0 <= k < PacketsPerFrame
      ensures SlotFromFinalRun(source, e, k)
    {
      assert SlotFromRead(source, e, k);
    }
  }

  /** Whatever mismatches a pass meets, a frame it completes consists of
      exactly the last `PacketsPerFrame` packets read, which were tagged
      0, 1, ..., `PacketsPerFrame - 1` in order: progress made before a
      mismatch never leaks into a completed frame. */
  lemma CompletedFrameIsLastRun(source: seq<Chunk>, packet: seq<uint8>, frame: seq<uint8>)
    requires WholeReads(source) && |packet| == PacketSize && |frame| == FrameSize
    ensures Run(Start(packet, frame), source).outcome == Complete ==>
      FrameFromLastReads(source, Run(Start(packet, frame), source).last)
  {
    var p := Run(Start(packet, frame), source);
    RunKeepsLastRun(source, Start(packet, frame));
    if p.outcome == Complete {
      FullRunIsFrame(source, p.last);
    }
  }
}

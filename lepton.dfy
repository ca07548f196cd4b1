/** The capture engine object: the fields of the `lepton` class
    (lepton.h:54-58), the state its capture thread keeps across turns of
    its outer loop (lepton.cpp:107-110), and the operations on them from
    lepton.cpp with the bus, the threads and the clock made abstract. */
module Lepton {
  import opened Protocol
  import opened Reassembly
  import opened FrameId

  /** What the capture thread does after one turn of its outer loop. */
  datatype Next = Continue | Stop

  /** A reader's answer: the current id and a copy of the live frame, or
      the timeout error. */
  datatype Grab = Image(id: uint8, frame: seq<uint8>) | Timeout

  /** Priming the sequence byte with the sentinel for packet `j` and
      reading `r` over the front of the packet buffer (lepton.cpp:141-142). */
  method ReadPacket(packet: array<uint8>, j: nat, r: Chunk)
    requires packet.Length == PacketSize
    modifies packet
    ensures packet[..] == Deliver(old(packet[..]), j, r)
  {
    packet[SequenceByte] := Sentinel(j);
    forall i | 0 <= i < |r| {
      packet[i] := r[i];
    }
  }

  /** Copying the payload of the packet buffer verbatim into slot `j` of
      the frame, which starts at `offset` (lepton.cpp:159). */
  method CopyPayload(frame: array<uint8>, offset: nat, packet: array<uint8>, j: nat)
    requires frame.Length == FrameSize && packet.Length == PacketSize && frame != packet
    requires j < PacketsPerFrame && offset == j * PayloadSize
    modifies frame
    ensures frame[..] == Splice(old(frame[..]), j, Payload(packet[..]))
  {
    SlotBounds(j, j + 1);
    forall i | 0 <= i < PayloadSize {
      frame[offset + i] := packet[PacketHeaderSize + i];
    }
    ghost var spliced := Splice(old(frame[..]), j, Payload(packet[..]));
    forall i | 0 <= i < FrameSize
      ensures frame[i] == spliced[i]
    {
      if offset <= i < offset + PayloadSize {
        var t := i - offset;
        assert frame[offset + t] == packet[PacketHeaderSize + t];
        assert spliced[j * PayloadSize + t] == Payload(packet[..])[t];
      }
    }
    assert frame[..] == spliced;
  }

  class Lepton {
    /** The bus descriptor, -1 while unopened (`spi_cs_fd`). */
    var spiFd: int
    /** Set once by the owner to stop the capture thread (`closing`). */
    var closing: bool
    /** The id of the live frame, 0 while none has been published (`imgid`). */
    var imgId: uint8
    /** The two frame buffers, allocated once with the object (`imgbuf1`, `imgbuf2`). */
    const buf1: array<uint8>
    const buf2: array<uint8>
    /** Which buffer readers see: 0 for `imgbuf1`, 1 for `imgbuf2` (`pimg`). */
    var live: nat

    /** The capture thread's buffer being filled: 0 or 1 as for `live` (`result`). */
    var scratch: nat
    /** The capture thread's packet buffer (`tmp_packet`). */
    const packet: array<uint8>
    /** Whether the capture thread holds a configured bus (`connected`). */
    var connected: bool

    /** Whether `spiFd` names a descriptor this object opened and has not closed. */
    ghost var busOpen: bool
    /** The frames published so far, oldest first. */
    ghost var history: seq<seq<uint8>>

    /** The buffer that index `i` stands for. */
    function Buffer(i: nat): array<uint8> {
      if i == 0 then buf1 else buf2
    }

    /** The object invariant: two distinct frame buffers of `FrameSize`
        bytes, live and scratch always different, an open bus whenever the
        thread counts itself connected, the id counting the publishes, and
        the live buffer holding the last frame published. */
    ghost predicate Valid()
      reads this, buf1, buf2
    {
      && buf1.Length == FrameSize && buf2.Length == FrameSize && packet.Length == PacketSize
      && buf1 != buf2 && packet != buf1 && packet != buf2
      && live < 2 && scratch == 1 - live
      && (busOpen ==> spiFd >= 0)
      && imgId == IdAfter(|history|)
      && (|history| > 0 ==> Buffer(live)[..] == history[|history| - 1])
    }

    /** `Valid`, and the capture thread counts itself connected only while
        it holds an open bus. */
    ghost predicate ThreadValid()
      reads this, buf1, buf2
    {
      Valid() && (connected ==> busOpen)
    }

    /** A new engine: bus unopened, not closing, no frame yet, readers
        pointed at `imgbuf1` while the capture thread fills `imgbuf2`
        (lepton.h:54-58, lepton.cpp:36-37, 107-110). */
    constructor ()
      ensures ThreadValid()
      ensures fresh(buf1) && fresh(buf2) && fresh(packet)
      ensures spiFd == -1 && !closing && imgId == 0
      ensures live == 0 && scratch == 1 && Buffer(live) == buf1 && Buffer(scratch) == buf2
      ensures !connected && !busOpen && history == []
    {
      buf1 := new uint8[FrameSize];
      buf2 := new uint8[FrameSize];
      packet := new uint8[PacketSize];
      spiFd := -1;
      closing := false;
      imgId := 0;
      live := 0;
      scratch := 1;
      connected := false;
      busOpen := false;
      history := [];
    }

    /** Opening the bus (lepton.cpp:42-94), with the `open` result and the
        outcome of the six configuration calls given as inputs. The field
        takes whatever `open` returned; a failed configuration closes the
        descriptor again but leaves its number in the field. */
    method SpiOpen(openFd: int, configured: bool) returns (ok: bool)
      requires Valid() && !connected
      modifies this`spiFd, this`busOpen
      ensures Valid()
      ensures ok == (openFd >= 0 && configured)
      ensures spiFd == openFd && busOpen == ok
    {
      spiFd := openFd;
      ok := openFd >= 0 && configured;
      busOpen := ok;
    }

    /** Closing the bus (lepton.cpp:96-103): nothing happens on an
        unopened descriptor; otherwise the descriptor is released and
        reset to -1 even when `close` reports a failure (`closeFails`),
        which is then surfaced. Afterwards a second call does nothing. */
    method SpiClose(closeFails: bool) returns (failed: bool)
      requires Valid()
      modifies this`spiFd, this`busOpen
      ensures Valid()
      ensures spiFd == (if old(spiFd) < 0 then old(spiFd) else -1) && !busOpen
      ensures failed == (old(spiFd) >= 0 && closeFails)
    {
      if spiFd < 0 {
        return false;
      }
      spiFd := -1;
      busOpen := false;
      failed := closeFails;
    }

    /** Closing the bus with any close failure only reported, never
        propagated (lepton.cpp:186-196). */
    method ThreadCloseConnections(closeFails: bool)
      requires Valid()
      modifies this`spiFd, this`busOpen
      ensures Valid()
      ensures spiFd == (if old(spiFd) < 0 then old(spiFd) else -1) && !busOpen
    {
      var _ := SpiClose(closeFails);
    }

    /** The packet loop (lepton.cpp:138-161): reads packets from `source`
        into the packet buffer and copies each correctly tagged payload
        verbatim into the scratch buffer, restarting on a mismatch, until
        a frame is complete or `MaxResets` mismatches were counted. It
        computes exactly `Reassembly.Run` from a fresh cursor and never
        touches the live buffer. */
    method Reassemble(source: seq<Chunk>) returns (synced: bool, used: nat)
      requires Valid()
      modifies Buffer(scratch), packet
      ensures Valid()
      ensures var p := Run(Start(old(packet[..]), old(Buffer(scratch)[..])), source);
        && synced == (p.outcome == Complete)
        && used == p.last.used
        && packet[..] == p.last.packet
        && Buffer(scratch)[..] == p.last.frame
      ensures Buffer(live)[..] == old(Buffer(live)[..])
    {
      var buf := Buffer(scratch);
      ghost var start := Start(packet[..], buf[..]);
      var j, curpos, resets := 0, 0, 0;
      used := 0;
      while j < PacketsPerFrame
        invariant j <= PacketsPerFrame && resets < MaxResets && curpos == j * PayloadSize
        invariant Buffer(live)[..] == old(Buffer(live)[..])
        invariant j < PacketsPerFrame ==>
          Run(Cursor(j, resets, used, packet[..], buf[..]), source) == Run(start, source)
        invariant j == PacketsPerFrame ==>
          Run(start, source) == Pass(Complete, Cursor(j, resets, used, packet[..], buf[..]))
        decreases MaxResets - resets, PacketsPerFrame - j
      {
        ghost var c := Cursor(j, resets, used, packet[..], buf[..]);
        var r := NextRead(source, used);
        ReadPacket(packet, j, r);
        used := used + 1;
        if packet[SequenceByte] as int != j {
          j, curpos, resets := 0, 0, resets + 1;
          assert Receive(c, r) == Cursor(j, resets, used, packet[..], buf[..]);
          if resets >= MaxResets {
            synced := false;
            return;
          }
        } else {
          CopyPayload(buf, curpos, packet, j);
          curpos, j := curpos + PayloadSize, j + 1;
          assert Receive(c, r) == Cursor(j, resets, used, packet[..], buf[..]);
        }
      }
      synced := true;
    }

    /** Publishing the frame just filled (lepton.cpp:170-179): the live and
        scratch buffers swap roles without a byte being copied, and the id
        advances with the wrap that skips 0. */
    method Publish()
      requires Valid()
      modifies this`live, this`scratch, this`imgId, this`history
      ensures Valid()
      ensures live == old(scratch) && scratch == old(live)
      ensures imgId == NextId(old(imgId)) && imgId != 0
      ensures history == old(history) + [old(Buffer(scratch)[..])]
      ensures Buffer(live)[..] == old(Buffer(scratch)[..])
      ensures unchanged(buf1, buf2)
    {
      history := history + [Buffer(scratch)[..]];
      live, scratch := scratch, live;
      imgId := NextId(imgId);
    }

    /** What follows the packet loop in one turn (lepton.cpp:149-155,
        163-180, then 183 on exit): a lost sync closes the bus and drops the
        connection; then, if closing, the bus is closed and the thread
        ends without publishing; otherwise a completed frame is published.
        `closeFails` is the outcome of any `close` call. */
    method FinishPass(synced: bool, closeFails: bool) returns (next: Next)
      requires ThreadValid() && connected
      modifies this`spiFd, this`busOpen, this`connected, this`live, this`scratch, this`imgId, this`history
      ensures Valid() && (next == Continue ==> ThreadValid())
      ensures next == Stop ==> closing && !busOpen
      ensures !synced ==>
        && next == (if closing then Stop else Continue)
        && spiFd == -1 && !busOpen && !connected
        && live == old(live) && imgId == old(imgId) && history == old(history)
      ensures synced && closing ==>
        && next == Stop && spiFd == -1 && !busOpen
        && live == old(live) && imgId == old(imgId) && history == old(history)
      ensures synced && !closing ==>
        && next == Continue && connected && spiFd == old(spiFd)
        && live == old(scratch) && imgId == NextId(old(imgId))
        && history == old(history) + [old(Buffer(scratch)[..])]
    {
      if !synced {
        ThreadCloseConnections(closeFails);
        connected := false;
      }
      if closing {
        ThreadCloseConnections(closeFails);
        return Stop;
      }
      if !connected {
        return Continue;
      }
      Publish();
      next := Continue;
    }

    /** One turn of the capture thread's outer loop (lepton.cpp:111-183).
        If not connected it first opens the bus, with `openFd` and
        `configured` as in `SpiOpen`; a failed open ends the thread when
        closing, and otherwise the turn. It then runs the packet loop over
        `source` and finishes the pass as `FinishPass` says. */
    method RunOnce(openFd: int, configured: bool, source: seq<Chunk>, closeFails: bool) returns (next: Next)
      requires ThreadValid()
      modifies this, Buffer(scratch), packet
      ensures Valid() && (next == Continue ==> ThreadValid())
      ensures closing == old(closing)
      ensures next == Stop ==> closing && !busOpen
      ensures !old(connected) && !(openFd >= 0 && configured) ==>
        && next == (if closing then Stop else Continue)
        && spiFd == openFd && !busOpen && !connected
        && live == old(live) && imgId == old(imgId) && history == old(history)
        && unchanged(buf1, buf2, packet)
      ensures old(connected) || (openFd >= 0 && configured) ==>
        var p := Run(Start(old(packet[..]), old(Buffer(scratch)[..])), source);
        && packet[..] == p.last.packet
        && old(Buffer(scratch))[..] == p.last.frame
        && (p.outcome == SyncLost ==>
             && next == (if closing then Stop else Continue)
             && spiFd == -1 && !busOpen && !connected
             && live == old(live) && imgId == old(imgId) && history == old(history))
        && (p.outcome == Complete && closing ==>
             && next == Stop && spiFd == -1 && !busOpen
             && live == old(live) && imgId == old(imgId) && history == old(history))
        && (p.outcome == Complete && !closing ==>
             && next == Continue && connected
             && spiFd == (if old(connected) then old(spiFd) else openFd)
             && live == old(scratch) && imgId == NextId(old(imgId))
             && history == old(history) + [p.last.frame])
    {
      if !connected {
        var ok := SpiOpen(openFd, configured);
        if !ok {
          next := if closing then Stop else Continue;
          return;
        }
        connected := true;
      }
      ghost var p := Run(Start(packet[..], Buffer(scratch)[..]), source);
      ghost var filled := Buffer(scratch);
      var synced, _ := Reassemble(source);
      assert synced == (p.outcome == Complete) && filled[..] == p.last.frame && packet[..] == p.last.packet;
      next := FinishPass(synced, closeFails);
    }

    /** A reader's request (lepton.cpp:198-210) with the wait made
        non-blocking: it succeeds exactly when the current id is not the
        one the reader last saw and a frame has been published, and then it
        returns the current id with a copy of the live frame, which is the
        frame published under that id; otherwise it reports a timeout. */
    method GrabImage(lastSeen: uint8) returns (g: Grab)
      requires Valid()
      ensures g.Image? <==> NewFrameReady(imgId, lastSeen)
      ensures g.Image? ==>
        && g.id == imgId && |g.frame| == FrameSize && g.frame == Buffer(live)[..]
        && |history| > 0 && g.frame == history[|history| - 1]
    {
      if imgId != lastSeen && imgId > 0 {
        IdAfterCycles(|history|);
        g := Image(imgId, Buffer(live)[..]);
      } else {
        g := Timeout;
      }
    }

    /** The owner's teardown request (lepton.cpp:214-217): from now on the
        capture thread stops at its next check. */
    method RequestClose()
      requires Valid()
      modifies this`closing
      ensures Valid() && closing
    {
      closing := true;
    }
  }
}

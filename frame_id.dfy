/** The frame identifier: an 8-bit counter in which 0 means "no frame
    published yet", advanced once per published frame with a wrap from
    255 back to 1 (lepton.cpp:176), and the predicate by which a reader
    recognises a frame it has not seen (lepton.cpp:203). */
module FrameId {
  import opened Protocol

  /** The id that follows `id`: the 8-bit increment of the source, which
      wraps 255 to 0, with 0 then replaced by 1. */
  function NextId(id: uint8): (n: uint8)
    ensures n != 0
    ensures n as int == if id == 255 then 1 else id as int + 1
  {
    var wrapped := ((id as int + 1) % 0x100) as uint8;
    if wrapped == 0 then 1 else wrapped
  }

  /** The id after `n` publishes, starting from the initial 0. */
  function IdAfter(n: nat): uint8 {
    if n == 0 then 0 else NextId(IdAfter(n - 1))
  }

  /** Counting modulo 255 by one step. */
  lemma ModStep(m: nat)
    ensures (m + 1) % 255 == if m % 255 == 254 then 0 else m % 255 + 1
  {
    var q, r := m / 255, m % 255;
    assert m == 255 * q + r && 0 <= r < 255;
    if r == 254 {
      assert m + 1 == 255 * (q + 1) + 0;
    } else {
      assert m + 1 == 255 * q + (r + 1) && r + 1 < 255;
    }
  }

  /** The ids run 1, 2, ..., 255, 1, 2, ...: after `n > 0` publishes the
      id is `(n - 1) % 255 + 1`, so it is never 0 again. */
  lemma {:induction false} IdAfterCycles(n: nat)
    ensures n == 0 ==> IdAfter(n) == 0
    ensures n > 0 ==> IdAfter(n) as int == (n - 1) % 255 + 1 && IdAfter(n) != 0
  {
    if n > 1 {
      IdAfterCycles(n - 1);
      ModStep(n - 2);
      assert IdAfter(n) == NextId(IdAfter(n - 1));
    }
  }

  /** Two publishes fewer than 255 apart never carry the same id, so
      within one wrap cycle an id names one frame only. */
  lemma IdsDistinctWithinCycle(m: nat, n: nat)
    requires 0 < m < n < m + 255
    ensures IdAfter(m) != IdAfter(n)
  {
    IdAfterCycles(m);
    IdAfterCycles(n);
    var a, b := m - 1, n - 1;
    assert a / 255 == b / 255 || a / 255 + 1 == b / 255;
  }

  /** A reader that last saw `lastSeen` is handed the frame whose id is
      `current` (lepton.cpp:203). */
  predicate NewFrameReady(current: uint8, lastSeen: uint8) {
    current != lastSeen && current > 0
  }

  /** What the handoff predicate means for readers: before the first
      publish no reader can succeed; after it, a reader asking with 0 is
      served at once; a reader holding the current id is not served
      again; and a reader that saw the frame of publish `n` is served by
      each of the next 254 publishes. */
  lemma ReaderWindow(n: nat, k: nat, lastSeen: uint8)
    ensures !NewFrameReady(IdAfter(0), lastSeen)
    ensures n > 0 ==> NewFrameReady(IdAfter(n), 0)
    ensures !NewFrameReady(IdAfter(n), IdAfter(n))
    ensures 0 < k < 255 ==> NewFrameReady(IdAfter(n + k), IdAfter(n))
  {
    IdAfterCycles(n);
    IdAfterCycles(n + k);
    if 0 < k < 255 && n > 0 {
      IdsDistinctWithinCycle(n, n + k);
    }
  }
}

/** The wire contract between the capture engine and the sensor's serial
    bus: packet geometry, the frame size it implies, and the byte type. */
module Protocol {

  /** An unsigned 8-bit value, the unit of every packet and frame. */
  newtype uint8 = x: int | 0 <= x < 0x100

  /** Bytes in one bus transfer. */
  const PacketSize: nat := 164
  /** Leading header bytes of a packet; byte 1 carries the sequence number. */
  const PacketHeaderSize: nat := 4
  /** Packets that make up one frame. */
  const PacketsPerFrame: nat := 60
  /** Payload bytes a packet contributes to the frame. */
  const PayloadSize: nat := PacketSize - PacketHeaderSize
  /** Bytes in one reassembled frame. */
  const FrameSize: nat := PayloadSize * PacketsPerFrame

  /** Index of the header byte that holds the packet's sequence number. */
  const SequenceByte: nat := 1

  /** Header mismatches tolerated in one pass before the bus is reset. */
  const MaxResets: nat := 15 * PacketsPerFrame

  /** The frame size agrees with the hardware's fixed figures: 160 payload
      bytes per packet and 9600 bytes per frame, each packet's payload
      following its header. */
  lemma Geometry()
    ensures PayloadSize == 160 && FrameSize == 9600
    ensures PacketHeaderSize + PayloadSize == PacketSize
    ensures SequenceByte < PacketHeaderSize
  {
  }

  /** The payload slot of packet `j` lies inside the frame, after the
      slots of all earlier packets. */
  lemma SlotBounds(k: nat, j: nat)
    requires k < j <= PacketsPerFrame
    ensures (k + 1) * PayloadSize <= j * PayloadSize <= FrameSize
  {
  }
}

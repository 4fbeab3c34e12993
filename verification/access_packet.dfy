/** What the kernel module and the QEMU client share: 64-bit words and
    `struct mem_access_packet` (both memlearn.h headers declare it alike). */
module AccessPacket {

  const U64Limit: int := 0x1_0000_0000_0000_0000

  /** `u64` / `unsigned long` on x86-64. */
  type u64 = x: int | 0 <= x < U64Limit

  /** `PACKET_MAX_SIZE` */
  const PacketMaxSize: nat := 2048

  /** `struct mem_access_packet`: the whole fixed `gvas` array (slots past
      `size` keep whatever was written there before) and the fill count. */
  datatype Packet = Packet(gvas: seq<u64>, size: int) {
    predicate Valid() {
      |gvas| == PacketMaxSize && 0 <= size <= PacketMaxSize
    }

    /** The addresses the packet currently holds. */
    function Contents(): seq<u64>
      requires Valid()
    {
      gvas[..size]
    }
  }

  /** The zero-initialised static `g_packet`. */
  const EmptyPacket := Packet(seq(PacketMaxSize, _ => 0), 0)
}

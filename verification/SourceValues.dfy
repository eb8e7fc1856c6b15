/** The numbers the C headers fix, and their names here. */
module SourceValues {
  import Builders
  import Constants
  import Fragmentation
  import HmacMd5
  import KernelRing
  import Md5
  import Packets
  import Segments
  import Slab
  import T1Loop
  import TimerVisit
  import UmemStack
  import UmemSystem

  // include/xdp.h:45-48, include/sctp.h:419, include/hwinfo.h:20 and include/ring_buffer.h:47.
  lemma Memory()
    ensures Constants.UMEM_CHUNK_SIZE == 4096 && UmemSystem.UMEM_CHUNK_COUNT == KernelRing.RING_SIZE == 4096
    ensures Constants.XDP_MAX_SEGS == 16 && Slab.L1_CACHE_BYTES == 64 && Slab.PER_CHUNK == 64 && Slab.WORDS == 8
    ensures UmemStack.U64_MAX == 0xFFFF_FFFF_FFFF_FFFF && TimerVisit.MAX_TICK_TIME == 64
  {
  }

  // The sizes of the packed headers and what follows from them.
  lemma Headers()
    ensures Constants.MAC == 14 && Constants.IPV4 == 20 && Constants.SCTP_CMN == 12 && Constants.SCTP_FLD == 4
    ensures Packets.SCTP == 34 && Packets.HEADERS == 46 && Constants.COOKIE == 40 && Constants.HMAC == 16
    ensures Fragmentation.MAX_PACKET_LEN == 1516 && Fragmentation.PPLEN == 1438 && Fragmentation.DATA_HDR == 16
    ensures Segments.MTU == 1454
  {
  }

  // include/sctp.h:30-45 and 64-88, src/create_client.c:78-79, src/hmac_md5.c:46-49.
  lemma Protocol()
    ensures Builders.SCTP_INIT == 1 && Builders.SCTP_INIT_ACK == 2
    ensures Builders.SCTP_COOKIE_ECHO == 10 && Builders.SCTP_COOKIE_ACK == 11
    ensures T1Loop.SCTP_T1_INIT_EXPIRE == 1 && T1Loop.SCTP_RTO_MAX == 60000 && T1Loop.SCTP_TIMER_STEP == 1000
    ensures T1Loop.SCTP_ASSOC_MAX_RETRANS == 10 && Constants.SCTP_RTO_MIN == 1000
    ensures T1Loop.TIMERS == 300 && T1Loop.NODES == 256
    ensures Md5.BLOCK == 64 && HmacMd5.IPAD == 0x36 && HmacMd5.OPAD == 0x5C
    ensures Builders.KEY == [0xC9, 0xAB, 0x02, 0x9C, 0x92, 0xBF, 0x47, 0xF3, 0xC9, 0xAB, 0x02, 0x9C, 0x92, 0xBF, 0x47, 0xF3]
  {
  }
}

/** Integer widths, header sizes and limits shared by the modules. */
module Constants {

  const U8: nat := 0x100
  const U16: nat := 0x1_0000
  const U32: nat := 0x1_0000_0000
  const U64: nat := 0x1_0000_0000_0000_0000

  const MAC: nat := 14
  const IPV4: nat := 20
  const SCTP_CMN: nat := 12
  const SCTP_FLD: nat := 4

  const COOKIE: nat := 40
  const HMAC: nat := 16

  const SCTP_RTO_MIN: nat := 1000
  const UMEM_CHUNK_SIZE: nat := 4096
  const XDP_MAX_SEGS: nat := 16
}

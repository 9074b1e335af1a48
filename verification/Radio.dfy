// The sizes and codes that the sending and the receiving side of the radio share.
//
// shared/interfaces/radio.h, platform/common/radio_queue.h and
// shared/ccsds/include/ccsds/profile.h
module Radio {
  import opened Bytes

  const MAX_PACKET: nat := 240
  const QUEUE_SIZE: nat := 131072

  // Content types
  const RAW: byte := 0
  const COMPRESSED: byte := 1
  const SSDV: byte := 2
  const COMMAND: byte := 3
}

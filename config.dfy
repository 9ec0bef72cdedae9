/** The build constants of `config.h` and the public constants of `emc.h`. */
module Config {
  /** The most connections (and connection ids) the library tracks. */
  const EMC_SOCKETS_DEFAULT: int := 0x4000
  /** One wire frame's payload area, header included. */
  const MAX_DATA_SIZE: int := 8192
  /** A frame with its 4-byte preamble (magic and length). */
  const MAX_PROTOCOL_SIZE: int := 8196
  /** The magic that opens every framed TCP record. */
  const EMC_HEAD: int := 0x5876
  const EMC_LIVE: int := 0xACAC_CAFE
  const EMC_DEAD: int := 0xDEAD_DEAD

  /** No mode: what a bound (server) plug's transports are created with. */
  const EMC_NONE: int := 0
  /** Which end of a transport: the bound side or the connecting side. */
  const EMC_LOCAL: int := 1
  const EMC_REMOTE: int := 2

  /** Plug modes. */
  const EMC_REQ: int := 1
  const EMC_REP: int := 2
  const EMC_PUB: int := 4
  const EMC_SUB: int := 8

  /** Device options. */
  const EMC_OPT_MONITOR: int := 1
  const EMC_OPT_CONTROL: int := 2
  const EMC_OPT_THREAD: int := 4

  /** Send flag: do not wait for the send to finish. */
  const EMC_NOWAIT: int := 1
  /** Control request: close the connection. */
  const EMC_CTL_CLOSE: int := 1

  /** Monitor event kinds. */
  const EMC_EVENT_ACCEPT: int := 1
  const EMC_EVENT_CONNECT: int := 2
  const EMC_EVENT_CLOSED: int := 4
  const EMC_EVENT_SNDFAIL: int := 8
  const EMC_EVENT_SNDSUCC: int := 16

  /** Commands carried in a frame header. */
  const EMC_CMD_LOGIN: int := 0x61
  const EMC_CMD_LOGOUT: int := 0x62
  const EMC_CMD_DATA: int := 0x63

  /** Where the library's own error numbers start counting down. */
  const EMC_CUSTOM_ERRNO: int := -214748360
}

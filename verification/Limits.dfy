/** Buffer sizes of vty.h. */
module Limits {
  const MAX_CMDLINE := 128
  const MAX_WBUFFER := 1024

  /** The longest command line: the buffer less its terminator. */
  const MAX_LINE := 127
}

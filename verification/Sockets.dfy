/** What the network probes know of a socket (the types shared by the tcpconnect and activeconn
    examples). */
module Sockets {
  import opened Words

  /** A kernel pointer to `struct sock`. */
  type Sock = U64

  /** `struct dimensions_t`. */
  datatype Dimensions = Dimensions(saddr: U32, daddr: U32)
}

/** The BTF types the decoder distinguishes and the Go values it produces. */
module Btf {
  import opened Words
  import opened Bytes

  /** `Mixed` is any combination of the encoding bits; no case of the decoder names it. */
  datatype IntEncoding = Unsigned | Signed | Char | Bool | Mixed

  /** `offset` is where the compiler put the member, in bytes; the decoder never looks at it. */
  datatype Member = Member(name: string, typ: BtfType, offset: nat)

  /** `Opaque` stands for every kind without a case of its own (pointers, unions, enums, ...).
      BTF type graphs are acyclic through typedefs, hence an inductive datatype. */
  datatype BtfType =
    | Int(name: string, size: U32, encoding: IntEncoding, bits: Byte)
    | Float(size: U32)
    | Array(elem: BtfType, nelems: U32)
    | Typedef(name: string, target: BtfType)
    | Struct(members: seq<Member>)
    | Opaque

  /** The dynamic type and contents of a decoded `interface{}`. Floats are kept as bit patterns. */
  datatype Value =
    | Uint(width: nat, n: nat)
    | Sint(width: nat, v: int)
    | FloatBits(width: nat, bits: nat)
    | Text(chars: ByteString)
    | Boolean(b: bool)
    | Duration(ns: int)
    | IP(addr: ByteString)
}

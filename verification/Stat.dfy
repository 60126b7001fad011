/** The two records of the protocol that the file tree itself looks at (libs/planten_9p/src/lib.rs:228-248). */
module Stats {
  import opened Bytes

  datatype Qid = Qid(qtype: Byte, version: U32, path: U64)

  datatype Stat = Stat(
    typ: U16,
    dev: U32,
    qid: Qid,
    mode: U32,
    atime: U32,
    mtime: U32,
    length: U64,
    name: Str,
    uid: Str,
    gid: Str,
    muid: Str)

  /** `!0u32` and `!0u64`: the field values with which a Twstat leaves a field alone. */
  const KEEP32: U32 := 0xFFFF_FFFF
  const KEEP64: U64 := 0xFFFF_FFFF_FFFF_FFFF
}

/** Limits and outcomes shared by the reading and the normalising of host.json. */
module HostConfiguration {
  import opened Bytes

  const MAX_BYTES: nat := 65536

  datatype Failure = Oversized | InvalidEncoding | InvalidJson | ReadFailed
  datatype Outcome = Ok(content: seq<Byte>) | Failed(reason: Failure)
}

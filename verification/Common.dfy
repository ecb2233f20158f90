/** Shared names of `packet_interface.h`. */
module Common {
  import opened Bytes

  const MAX_PAYLOAD_SIZE := 512
  const MAX_WINDOW_SIZE := 31

  type Block = seq<byte>

  datatype Option<+T> = None | Some(value: T)

  /** `n` empty places. */
  function Nones<T>(n: nat): (r: seq<Option<T>>)
    ensures |r| == n && forall i :: 0 <= i < n ==> r[i] == None
  {
    if n == 0 then [] else [None] + Nones(n - 1)
  }
}

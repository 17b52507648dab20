/** Bytes of tracee memory, and the sizes that its users share. */
module Bytes {
  type Byte = nat

  /** The size of a machine word in bytes. */
  const WORD: nat := 8

  /** The size of a tracee's scratch area, and of its region of the shared mapping. */
  const STACK_SAFE_ZONE_SIZE: nat := 16384

  function Zeros(n: nat): (z: seq<nat>)
    ensures |z| == n && forall i :: 0 <= i < n ==> z[i] == 0
  {
    seq(n, _ => 0)
  }
}

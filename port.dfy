/**
 * The ephemeral port counter of src/net/port.c: a 16-bit counter starting at 49152,
 * handed out and then incremented, with 0 skipped after the counter wraps.
 */
module Port {
  import opened CInt

  const FIRST_EPHEMERAL: u16 := 49152

  /** The port a call returns when the counter holds `counter`: 0 is never handed out. */
  function Issued(counter: u16): (port: u16)
    ensures port != 0
    ensures counter != 0 ==> port == counter
  {
    if counter == 0 then 1 else counter
  }

  /** The counter after a call: one past the port returned, modulo 2^16. */
  function Advanced(counter: u16): u16
  {
    if Issued(counter) == 0xFFFF then 0 else Issued(counter) + 1
  }

  /** The ports `n` consecutive calls return, starting from `counter`. */
  function IssuedRun(counter: u16, n: nat): (ports: seq<u16>)
    ensures |ports| == n
    decreases n
  {
    if n == 0 then [] else [Issued(counter)] + IssuedRun(Advanced(counter), n - 1)
  }

  /** Until the counter wraps, consecutive calls return consecutive ports. */
  lemma {:induction false} RunConsecutive(counter: u16, n: nat)
    requires counter != 0 && counter + n <= B16
    ensures forall k :: 0 <= k < n ==> IssuedRun(counter, n)[k] == counter + k
    decreases n
  {
    if n > 1 {
      RunConsecutive(counter + 1, n - 1);
      assert Advanced(counter) == counter + 1;
    }
  }

  /** Hence the 16384 calls from the initial counter return distinct ports, 49152 to 65535. */
  lemma RunDistinct(n: nat)
    requires n <= B16 - FIRST_EPHEMERAL
    ensures forall i, j :: 0 <= i < j < n ==> IssuedRun(FIRST_EPHEMERAL, n)[i] != IssuedRun(FIRST_EPHEMERAL, n)[j]
    ensures forall k :: 0 <= k < n ==> IssuedRun(FIRST_EPHEMERAL, n)[k] >= FIRST_EPHEMERAL
  {
    RunConsecutive(FIRST_EPHEMERAL, n);
  }

  /** After 65535 the counter wraps to 0, which is skipped: the next port is 1. */
  lemma WrapSkipsZero()
    ensures IssuedRun(0xFFFF, 3) == [0xFFFF, 1, 2]
  {
  }

  class PortCounter {
    /** next_port. */
    var nextPort: u16

    constructor ()
      ensures nextPort == FIRST_EPHEMERAL
    {
      nextPort := FIRST_EPHEMERAL;
    }

    /** net_ephemeral_port: the counter, bumped past 0, is returned and then incremented. */
    method Next() returns (port: u16)
      modifies this
      ensures port == Issued(old(nextPort)) && nextPort == Advanced(old(nextPort))
    {
      if nextPort == 0 {
        nextPort := nextPort + 1;
      }
      port := nextPort;
      nextPort := Wrap16(nextPort + 1);
    }
  }
}

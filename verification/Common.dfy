/** What several components share. */
module Common {

  type Byte = bv8

  datatype Option<T> = None | Some(value: T)

  function Min(a: nat, b: nat): nat {
    if a < b then a else b
  }

  /** What a 64-bit unsigned variable keeps of a number. */
  function Wrap64(x: nat): nat {
    x % 0x1_0000_0000_0000_0000
  }

  function Concat<T>(parts: seq<seq<T>>): seq<T> {
    if parts == [] then [] else parts[0] + Concat(parts[1..])
  }

  /** A byte holds every number below 256. */
  lemma ByteIs(k: nat)
    requires k < 256
    ensures (k as Byte) as nat == k
  {
  }
}

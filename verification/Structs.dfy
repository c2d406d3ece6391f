/** Packed structures of C as they are declared: members one behind the other. */
module Structs {
  import ByteOrder

  // Neighbouring members of one type, or an array: characters and reserved bytes, and numbers.
  datatype Group = Chars(count: nat) | Words(count: nat, width: ByteOrder.Width)

  function Size(m: Group): nat {
    match m
    case Chars(n) => n
    case Words(n, w) => w * n
  }

  // Where the k-th group of members begins: behind those before it.
  function Offset(ms: seq<Group>, k: nat): nat
    requires k <= |ms|
    decreases k
  {
    if k == 0 then 0 else Offset(ms, k - 1) + Size(ms[k - 1])
  }

  function Total(ms: seq<Group>): nat {
    Offset(ms, |ms|)
  }
}

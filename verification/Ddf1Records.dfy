/** The configuration records of a DDF1 disk: equally long pieces of one buffer,
    reached with the CR and SR macros of lib/format/ddf/ddf1.h.
 */
module Ddf1Records {
  import opened Bits
  import opened Buffers

  lemma RecordBounds(i: nat, k: nat, size: nat)
    requires i < k
    ensures i * size + size <= k * size
  {
    assert (i + 1) * size <= k * size;
  }

  function Record(cfg: seq<byte>, size: nat, i: nat): (r: seq<byte>)
    requires i * size + size <= |cfg|
    ensures |r| == size
  {
    Part(cfg, i * size, size)
  }

  predicate Sized(recs: seq<seq<byte>>, size: nat) {
    forall i :: 0 <= i < |recs| ==> |recs[i]| == size
  }

  function RecordsOf(cfg: seq<byte>, size: nat, n: nat): (r: seq<seq<byte>>)
    requires n * size <= |cfg|
    ensures |r| == n && Sized(r, size)
  {
    seq(n, i requires 0 <= i < n => RecordBounds(i, n, size); Record(cfg, size, i))
  }

  // The buffer with these records and this rest.
  function Assemble(recs: seq<seq<byte>>, tail: seq<byte>): seq<byte> {
    if recs == [] then tail else recs[0] + Assemble(recs[1..], tail)
  }

  lemma {:induction false} RecordOfAssembled(recs: seq<seq<byte>>, tail: seq<byte>, size: nat, i: nat)
    requires Sized(recs, size) && i < |recs|
    ensures i * size + size <= |Assemble(recs, tail)| && Record(Assemble(recs, tail), size, i) == recs[i]
  {
    RecordBounds(i, |recs|, size);
    if i > 0 {
      var rest := Assemble(recs[1..], tail);
      RecordOfAssembled(recs[1..], tail, size, i - 1);
      NextOffset(i, size);
      PartBehind(recs[0], rest, (i - 1) * size, size);
    }
  }

  lemma NextOffset(i: nat, size: nat)
    requires i > 0
    ensures i * size == size + (i - 1) * size
  {
  }

  lemma PartBehind(a: seq<byte>, b: seq<byte>, off: nat, n: nat)
    requires off + n <= |b|
    ensures Part(a + b, |a| + off, n) == Part(b, off, n)
  {
  }

  lemma {:induction false} AssembledLength(recs: seq<seq<byte>>, tail: seq<byte>, size: nat)
    requires Sized(recs, size)
    ensures |Assemble(recs, tail)| == |recs| * size + |tail|
    ensures Assemble(recs, tail)[|recs| * size..] == tail
  {
    if recs != [] {
      AssembledLength(recs[1..], tail, size);
      assert |recs| * size == size + (|recs| - 1) * size;
      assert Assemble(recs, tail)[|recs| * size..] == Assemble(recs[1..], tail)[(|recs| - 1) * size..];
    }
  }

  lemma {:induction false} RecordsOfAssembled(recs: seq<seq<byte>>, tail: seq<byte>, size: nat)
    requires Sized(recs, size)
    ensures |recs| * size <= |Assemble(recs, tail)| && |Assemble(recs, tail)| == |recs| * size + |tail|
    ensures RecordsOf(Assemble(recs, tail), size, |recs|) == recs
    ensures Assemble(recs, tail)[|recs| * size..] == tail
  {
    var cfg := Assemble(recs, tail);
    AssembledLength(recs, tail, size);
    forall i | 0 <= i < |recs| ensures RecordsOf(cfg, size, |recs|)[i] == recs[i] {
      RecordOfAssembled(recs, tail, size, i);
    }
  }

  lemma FirstAndRest(cfg: seq<byte>, size: nat, n: nat)
    requires 0 < n && n * size <= |cfg|
    ensures size + (n - 1) * size == n * size
    ensures RecordsOf(cfg, size, n) == [cfg[..size]] + RecordsOf(cfg[size..], size, n - 1)
  {
    assert size + (n - 1) * size == n * size;
    var recs, rest := RecordsOf(cfg, size, n), RecordsOf(cfg[size..], size, n - 1);
    forall i | 0 <= i < n - 1 ensures recs[i + 1] == rest[i] {
      RecordBounds(i, n - 1, size);
      RecordBounds(i + 1, n, size);
      assert (i + 1) * size == size + i * size;
      assert Part(cfg, size + i * size, size) == Part(cfg[size..], i * size, size);
    }
    RecordBounds(0, n, size);
    assert recs[0] == cfg[..size];
  }

  lemma {:induction false} AssembledRecords(cfg: seq<byte>, size: nat, n: nat)
    requires n * size <= |cfg|
    ensures Assemble(RecordsOf(cfg, size, n), cfg[n * size..]) == cfg
  {
    if n > 0 {
      hide RecordsOf;
      FirstAndRest(cfg, size, n);
      AssembledRecords(cfg[size..], size, n - 1);
      assert cfg[size..][(n - 1) * size..] == cfg[n * size..];
      assert ([cfg[..size]] + RecordsOf(cfg[size..], size, n - 1))[1..] == RecordsOf(cfg[size..], size, n - 1);
    }
  }

  lemma AssembleInjective(a: seq<seq<byte>>, b: seq<seq<byte>>, tail: seq<byte>, size: nat)
    requires Sized(a, size) && Sized(b, size) && |a| == |b|
    ensures Assemble(a, tail) == Assemble(b, tail) <==> a == b
  {
    RecordsOfAssembled(a, tail, size);
    RecordsOfAssembled(b, tail, size);
  }

  // Overwriting one record changes that record and nothing else.
  lemma RecordReplaced(cfg: seq<byte>, size: nat, n: nat, k: nat, t: seq<byte>)
    requires n * size <= |cfg| && k < n && |t| == size
    ensures k * size + size <= |cfg|
    ensures RecordsOf(Splice(cfg, k * size, t), size, n) == RecordsOf(cfg, size, n)[k := t]
    ensures Splice(cfg, k * size, t)[n * size..] == cfg[n * size..]
  {
    RecordBounds(k, n, size);
    var s := Splice(cfg, k * size, t);
    forall i | 0 <= i < n ensures RecordsOf(s, size, n)[i] == RecordsOf(cfg, size, n)[k := t][i] {
      RecordBounds(i, n, size);
      if i < k {
        RecordBounds(i, k, size);
      } else if i > k {
        RecordBounds(k, i, size);
      }
    }
  }
}

/** _checksum of lib/format/ataraid/isw.c. */
module IswChecksum {
  import opened ByteOrder
  import opened Buffers
  import opened IswLayout

  function WordAt(s: Octets, i: nat): nat
    requires 4 * i + 4 <= |s|
  {
    Number(Part(s, 4 * i, 4))
  }

  // The loop over n words.
  function WordSum(s: Octets, n: nat): nat
    requires 4 * n <= |s|
  {
    if n == 0 then 0 else WordSum(s, n - 1) + WordAt(s, n - 1)
  }

  function MpbSize(s: Octets): nat
    requires |s| >= HEADER_SIZE
  {
    Number(Part(s, MPB_SIZE, 4))
  }

  // The sum of the words of the image without the stored checksum, in 32 bits.
  function Checksum(s: Octets): nat
    requires |s| >= HEADER_SIZE && MpbSize(s) <= |s|
  {
    (WordSum(s, MpbSize(s) / 4) - WordAt(s, CHECK_SUM / 4)) % B4
  }

  // What setup_rd demands of an image that was read.
  predicate Accepted(s: Octets)
    requires |s| >= HEADER_SIZE && MpbSize(s) <= |s|
  {
    WordAt(s, CHECK_SUM / 4) == Checksum(s)
  }

  lemma {:induction false} SumWithoutField(s: Octets, t: Octets, n: nat)
    requires 9 <= n && 4 * n <= |s| == |t|
    requires forall k :: 0 <= k < |s| && !(32 <= k < 36) ==> s[k] == t[k]
    ensures WordSum(s, n) - WordAt(s, 8) == WordSum(t, n) - WordAt(t, 8)
  {
    hide Number;
    if n == 9 {
      SumOfSame(s, t, 8);
    } else {
      SumWithoutField(s, t, n - 1);
      assert Part(s, 4 * (n - 1), 4) == Part(t, 4 * (n - 1), 4);
    }
  }

  lemma {:induction false} SumOfSame(s: Octets, t: Octets, n: nat)
    requires 4 * n <= |s| && 4 * n <= |t| && s[..4 * n] == t[..4 * n]
    ensures WordSum(s, n) == WordSum(t, n)
  {
    hide Number;
    if n > 0 {
      assert s[..4 * (n - 1)] == s[..4 * n][..4 * (n - 1)];
      assert t[..4 * (n - 1)] == t[..4 * n][..4 * (n - 1)];
      SumOfSame(s, t, n - 1);
      assert Part(s, 4 * (n - 1), 4) == s[..4 * n][4 * (n - 1)..];
      assert Part(t, 4 * (n - 1), 4) == t[..4 * n][4 * (n - 1)..];
    }
  }

  // isw->check_sum = _checksum(isw)
  function Sealed(s: Octets): (r: Octets)
    requires |s| >= HEADER_SIZE && MpbSize(s) <= |s|
    ensures |r| == |s|
  {
    Splice(s, CHECK_SUM, Bytes(Checksum(s), 4))
  }

  /** Storing the checksum does not change it, so every image sealed like this
      is accepted when it is read back.
   */
  lemma SealedIsAccepted(s: Octets)
    requires |s| >= HEADER_SIZE && HEADER_SIZE <= MpbSize(s) <= |s|
    ensures MpbSize(Sealed(s)) == MpbSize(s) && Checksum(Sealed(s)) == Checksum(s)
    ensures Accepted(Sealed(s))
  {
    hide Number;
    var t := Sealed(s);
    assert Part(t, MPB_SIZE, 4) == Part(s, MPB_SIZE, 4);
    SumWithoutField(s, t, MpbSize(s) / 4);
    PartOfSplice(s, CHECK_SUM, Bytes(Checksum(s), 4));
    PowerOf32();
    NumberOfBytes(Checksum(s), 4);
  }

  // Only the first mpb_size bytes matter.
  lemma ChecksumOfPrefix(s: Octets, rest: Octets)
    requires |s| >= HEADER_SIZE && MpbSize(s) <= |s|
    ensures MpbSize(s + rest) == MpbSize(s) && Checksum(s + rest) == Checksum(s)
  {
    hide Number;
    var t := s + rest;
    assert Part(t, MPB_SIZE, 4) == Part(s, MPB_SIZE, 4);
    assert Part(t, CHECK_SUM, 4) == Part(s, CHECK_SUM, 4);
    var n := MpbSize(s) / 4;
    assert t[..4 * n] == s[..4 * n];
    SumOfSame(s, t, n);
  }

  // ------------------------------------------------------ what it notices

  // The same words but for the i-th.
  predicate OtherWordsSame(s: Octets, t: Octets, i: nat) {
    |s| == |t| && forall k :: 0 <= k < |s| && !(4 * i <= k < 4 * i + 4) ==> s[k] == t[k]
  }

  lemma WordStays(s: Octets, t: Octets, i: nat, j: nat)
    requires OtherWordsSame(s, t, i) && j != i && 4 * j + 4 <= |s|
    ensures WordAt(s, j) == WordAt(t, j)
  {
    hide Number;
    assert Part(s, 4 * j, 4) == Part(t, 4 * j, 4);
  }

  lemma {:induction false} SumOfOthers(s: Octets, t: Octets, i: nat, n: nat)
    requires OtherWordsSame(s, t, i) && 4 * n <= |s| && 4 * i + 4 <= |s|
    ensures WordSum(s, n) - WordSum(t, n) == if i < n then WordAt(s, i) - WordAt(t, i) else 0
  {
    hide WordAt, OtherWordsSame;
    if n > 0 {
      SumOfOthers(s, t, i, n - 1);
      if i != n - 1 {
        WordStays(s, t, i, n - 1);
      }
    }
  }

  lemma SameWord(s: Octets, t: Octets, i: nat)
    requires OtherWordsSame(s, t, i) && 4 * i + 4 <= |s|
    ensures WordAt(s, i) == WordAt(t, i) <==> s == t
    ensures WordAt(s, i) < B4
  {
    hide Number, Bytes;
    BytesOfNumber(Part(s, 4 * i, 4));
    BytesOfNumber(Part(t, 4 * i, 4));
    WordBelow(s, i);
    if WordAt(s, i) == WordAt(t, i) {
      assert Part(s, 4 * i, 4) == Part(t, 4 * i, 4);
      forall k | 0 <= k < |s| ensures s[k] == t[k] {
        if 4 * i <= k < 4 * i + 4 {
          assert Part(s, 4 * i, 4)[k - 4 * i] == s[k] && Part(t, 4 * i, 4)[k - 4 * i] == t[k];
        }
      }
    }
  }

  lemma WordBelow(s: Octets, i: nat)
    requires 4 * i + 4 <= |s|
    ensures WordAt(s, i) < B4
  {
    Number4(Part(s, 4 * i, 4));
  }

  /** An accepted image with any one word changed is not accepted, whether the word is in the
      header, in the tables behind it, or the stored checksum; only a change of the length can
      go unnoticed, as it says how many words are summed.
   */
  lemma {:induction false} OneWordIsNoticed(s: Octets, t: Octets, i: nat)
    requires |s| >= HEADER_SIZE && HEADER_SIZE <= MpbSize(s) <= |s| && Accepted(s)
    requires OtherWordsSame(s, t, i) && 4 * i + 4 <= MpbSize(s) && i != MPB_SIZE / 4
    ensures MpbSize(t) == MpbSize(s) && (Accepted(t) <==> s == t)
  {
    hide WordSum, WordAt, OtherWordsSame;
    var n, f := MpbSize(s) / 4, CHECK_SUM / 4;
    LengthStays(s, t, i);
    SumOfOthers(s, t, i, n);
    SameWord(s, t, i);
    if i != f {
      WordStays(s, t, i, f);
      if Accepted(t) {
        SameWord(t, s, i) by { SwapSame(s, t, i); }
        SumsDiffer(WordSum(s, n), WordAt(s, f), WordAt(s, i), WordAt(t, i));
      }
    }
  }

  lemma SwapSame(s: Octets, t: Octets, i: nat)
    requires OtherWordsSame(s, t, i)
    ensures OtherWordsSame(t, s, i)
  {
  }

  lemma LengthStays(s: Octets, t: Octets, i: nat)
    requires |s| >= HEADER_SIZE && OtherWordsSame(s, t, i) && i != MPB_SIZE / 4
    ensures |t| == |s| && MpbSize(t) == MpbSize(s)
  {
    WordStays(s, t, i, MPB_SIZE / 4);
  }

  lemma SumsDiffer(sum: int, field: int, a: nat, b: nat)
    requires a < B4 && b < B4 && (sum - field) % B4 == (sum - a + b - field) % B4
    ensures a == b
  {
  }
}

/** The frame checksum of the stop-and-wait layer (handout/d1_udp.c,
    calculate_checksum): two 8-bit XOR accumulators, one over the bytes
    at even offsets, one over the bytes at odd offsets, joined into a
    16-bit value with the even-offset accumulator in the high byte. */
module XorChecksum {
  import opened Bytes

  /** XOR of all bytes of `s` (0 for the empty sequence). */
  function XorAll(s: seq<byte>): byte
    decreases |s|
  {
    if |s| == 0 then 0 else Xor(XorAll(s[..|s| - 1]), s[|s| - 1])
  }

  /** The bytes at offsets 0, 2, 4, ... in order. */
  function Evens(s: seq<byte>): seq<byte>
    decreases |s|
  {
    if |s| == 0 then [] else [s[0]] + Odds(s[1..])
  }

  /** The bytes at offsets 1, 3, 5, ... in order. */
  function Odds(s: seq<byte>): seq<byte>
    decreases |s|
  {
    if |s| == 0 then [] else Evens(s[1..])
  }

  /** The even-offset half holds the larger share of an odd-length buffer. */
  lemma {:induction false} SplitLengths(s: seq<byte>)
    ensures |Evens(s)| == (|s| + 1) / 2 && |Odds(s)| == |s| / 2
    decreases |s|
  {
    if |s| > 0 {
      SplitLengths(s[1..]);
    }
  }

  /** Every byte of a buffer lands in exactly one of the two halves, in
      order. */
  lemma {:induction false} SplitContents(s: seq<byte>)
    ensures |Evens(s)| == (|s| + 1) / 2 && |Odds(s)| == |s| / 2
    ensures forall k :: 0 <= k < |Evens(s)| ==> Evens(s)[k] == s[2 * k]
    ensures forall k :: 0 <= k < |Odds(s)| ==> Odds(s)[k] == s[2 * k + 1]
    decreases |s|
  {
    SplitLengths(s);
    if |s| > 0 {
      var t := s[1..];
      SplitContents(t);
      forall k | 0 <= k < |Evens(s)|
        ensures Evens(s)[k] == s[2 * k]
      {
        if k > 0 {
          assert Evens(s)[k] == Odds(t)[k - 1] == t[2 * (k - 1) + 1];
        }
      }
      forall k | 0 <= k < |Odds(s)|
        ensures Odds(s)[k] == s[2 * k + 1]
      {
        assert Odds(s)[k] == Evens(t)[k] == t[2 * k];
      }
    }
  }

  /** The checksum of a buffer: XOR of the even-offset bytes in the high
      byte, XOR of the odd-offset bytes in the low byte. */
  function Checksum(s: seq<byte>): (c: uint16)
    ensures |s| == 0 ==> c == 0
  {
    XorAll(Evens(s)) * 256 + XorAll(Odds(s))
  }

  lemma XorAllAppend(s: seq<byte>, b: byte)
    ensures XorAll(s + [b]) == Xor(XorAll(s), b)
  {
    assert (s + [b])[..|s|] == s;
  }

  /** Replacing one element changes the XOR by exactly the XOR of the old
      and the new element. */
  lemma {:induction false} XorAllUpdate(s: seq<byte>, i: nat, v: byte)
    requires i < |s|
    ensures XorAll(s[i := v]) == Xor(Xor(XorAll(s), s[i]), v)
    decreases |s|
  {
    var t := s[i := v];
    var n := |s| - 1;
    if i == n {
      assert t[..n] == s[..n];
      XorCancels(XorAll(s[..n]), s[n]);
    } else {
      assert t[..n] == s[..n][i := v];
      XorAllUpdate(s[..n], i, v);
      XorRotate(XorAll(s[..n]), s[i], v, s[n]);
    }
  }

  /** Appending one byte to a buffer appends it to the even-offset bytes
      when it lands on an even offset, and to the odd-offset bytes otherwise. */
  lemma {:induction false} SplitAppend(s: seq<byte>, b: byte)
    ensures Evens(s + [b]) == if |s| % 2 == 0 then Evens(s) + [b] else Evens(s)
    ensures Odds(s + [b]) == if |s| % 2 == 1 then Odds(s) + [b] else Odds(s)
    decreases |s|
  {
    if |s| == 0 {
      assert (s + [b])[1..] == [];
    } else {
      assert (s + [b])[1..] == s[1..] + [b];
      SplitAppend(s[1..], b);
    }
  }

  /** One step of the checksum loop: the appended byte is folded into the
      accumulator of its offset's parity and the other accumulator keeps
      its value. */
  lemma AccumulatorStep(p: seq<byte>, b: byte)
    ensures XorAll(Evens(p + [b])) == if |p| % 2 == 0 then Xor(XorAll(Evens(p)), b) else XorAll(Evens(p))
    ensures XorAll(Odds(p + [b])) == if |p| % 2 == 1 then Xor(XorAll(Odds(p)), b) else XorAll(Odds(p))
  {
    SplitAppend(p, b);
    if |p| % 2 == 0 {
      XorAllAppend(Evens(p), b);
    } else {
      XorAllAppend(Odds(p), b);
    }
  }

  /** Replacing the byte at offset `i` replaces one element of the
      even-offset or of the odd-offset bytes and leaves the other untouched. */
  lemma {:induction false} SplitUpdate(s: seq<byte>, i: nat, v: byte)
    requires i < |s|
    ensures i % 2 == 0 ==> i / 2 < |Evens(s)| && Evens(s[i := v]) == Evens(s)[i / 2 := v] && Odds(s[i := v]) == Odds(s)
    ensures i % 2 == 1 ==> i / 2 < |Odds(s)| && Odds(s[i := v]) == Odds(s)[i / 2 := v] && Evens(s[i := v]) == Evens(s)
    decreases |s|
  {
    SplitLengths(s);
    var t := s[i := v];
    if i == 0 {
      assert t[1..] == s[1..];
    } else {
      assert t[1..] == s[1..][i - 1 := v];
      SplitUpdate(s[1..], i - 1, v);
    }
  }

  /** The checksum splits into its two accumulators. */
  lemma ChecksumHalves(s: seq<byte>)
    ensures Checksum(s) / 256 == XorAll(Evens(s))
    ensures Checksum(s) % 256 == XorAll(Odds(s))
  {
    DivMod256(Checksum(s), XorAll(Evens(s)), XorAll(Odds(s)));
  }

  /** Changing a byte at an even offset changes the even-offset
      accumulator and leaves the odd-offset bytes as they are. */
  lemma EvenAccumulatorChanges(s: seq<byte>, i: nat, v: byte)
    requires i < |s| && i % 2 == 0 && v != s[i]
    ensures XorAll(Evens(s[i := v])) != XorAll(Evens(s))
    ensures Odds(s[i := v]) == Odds(s)
  {
    SplitContents(s);
    SplitUpdate(s, i, v);
    XorAllUpdate(Evens(s), i / 2, v);
    XorChangesValue(XorAll(Evens(s)), s[i], v);
  }

  /** Changing a byte at an odd offset changes the odd-offset
      accumulator and leaves the even-offset bytes as they are. */
  lemma OddAccumulatorChanges(s: seq<byte>, i: nat, v: byte)
    requires i < |s| && i % 2 == 1 && v != s[i]
    ensures XorAll(Odds(s[i := v])) != XorAll(Odds(s))
    ensures Evens(s[i := v]) == Evens(s)
  {
    SplitContents(s);
    SplitUpdate(s, i, v);
    XorAllUpdate(Odds(s), i / 2, v);
    XorChangesValue(XorAll(Odds(s)), s[i], v);
  }

  /** Every byte feeds exactly one accumulator, so changing any single
      byte of a buffer changes its checksum: the half of the byte's
      parity changes and the other half does not. */
  lemma ChecksumDetectsByteChange(s: seq<byte>, i: nat, v: byte)
    requires i < |s| && v != s[i]
    ensures Checksum(s[i := v]) != Checksum(s)
    ensures i % 2 == 0 ==> Checksum(s[i := v]) % 256 == Checksum(s) % 256
    ensures i % 2 == 1 ==> Checksum(s[i := v]) / 256 == Checksum(s) / 256
  {
    ChecksumHalves(s);
    ChecksumHalves(s[i := v]);
    if i % 2 == 0 {
      EvenAccumulatorChanges(s, i, v);
    } else {
      OddAccumulatorChanges(s, i, v);
    }
  }

  /** calculate_checksum(buf, size): one pass over the first `size` bytes
      (none when `size` is not positive), then the two accumulators are
      joined. The source names its accumulators by 1-based position; here
      they are named by offset parity. */
  method CalculateChecksum(buf: array<byte>, size: int) returns (c: uint16)
    requires size <= buf.Length
    ensures c == Checksum(buf[..if size < 0 then 0 else size])
  {
    var evenAcc: byte := 0;
    var oddAcc: byte := 0;
    ghost var n := if size < 0 then 0 else size;
    var i := 0;
    while i < size
      invariant 0 <= i <= n
      invariant evenAcc == XorAll(Evens(buf[..i])) && oddAcc == XorAll(Odds(buf[..i]))
    {
      ghost var p := buf[..i];
      assert buf[..i + 1] == p + [buf[i]];
      AccumulatorStep(p, buf[i]);
      if i % 2 == 0 {
        evenAcc := Xor(evenAcc, buf[i]);
      } else {
        oddAcc := Xor(oddAcc, buf[i]);
      }
      i := i + 1;
    }
    if size > 0 && size % 2 == 1 {
      // the source's odd-length step: XOR with zero leaves the accumulator as it is
      XorZero(evenAcc);
      evenAcc := Xor(evenAcc, 0);
    }
    assert buf[..i] == buf[..n];
    c := evenAcc * 256 + oddAcc;
  }
}

/** `internetChecksum` and `verifyIpChecksum`: a 32-bit deferred-carry loop that has to agree with the
    one's complement sum of section 1 of RFC 1071. */
module Checksum {
  import opened Bytes

  const ONES := 0xFFFF

  // ---- What the loops compute -------------------------------------------------------------------

  /** The aligned big-endian 16-bit words of a buffer; an odd last byte is padded with zero. */
  function Words(b: seq<Byte>): (ws: seq<U16>)
    ensures |ws| == (|b| + 1) / 2
  {
    if b == [] then []
    else if |b| == 1 then [Word(b[0], 0)]
    else [Word(b[0], b[1])] + Words(b[2..])
  }

  function Sum(ws: seq<nat>): nat
  {
    if ws == [] then 0 else ws[0] + Sum(ws[1..])
  }

  /** One round of `sum = (sum & 0xFFFF) + (sum >> 16)`. */
  function FoldStep(s: nat): nat
  {
    s % TWO_16 + s / TWO_16
  }

  /** The end-around-carry normal form: zero stays zero, anything else lands in 1..65535. */
  function Norm(s: nat): (n: nat)
    ensures n <= ONES
  {
    if s == 0 then 0 else (s - 1) % ONES + 1
  }

  /** The value returned for a buffer of any length, 32-bit wrap-around included. */
  function Deferred(data: seq<Byte>): U16
  {
    ONES - Norm(Sum(Words(data)) % TWO_32)
  }

  predicate VerifyIpChecksum(data: seq<Byte>)
  {
    Deferred(data) == 0
  }

  method InternetChecksum(data: seq<Byte>) returns (r: U16)
    ensures r == Deferred(data)
  {
    var sum := Accumulate(data);
    var folded := FoldCarries(sum);
    return ONES - folded;
  }

  /** The word loop: 32-bit additions that wrap. */
  method Accumulate(data: seq<Byte>) returns (sum: U32)
    ensures sum == Sum(Words(data)) % TWO_32
  {
    sum := 0;
    ghost var lost: nat := 0;
    var i := 0;
    while |data| - i > 1
      invariant 0 <= i <= |data|
      invariant Summed(data, i, sum, lost)
    {
      WordsTail(data, i);
      var total := sum + Word(data[i], data[i + 1]);
      sum, lost, i := total % TWO_32, lost + total / TWO_32, i + 2;
    }
    if |data| - i == 1 {
      WordsTail(data, i);
      var total := sum + Word(data[i], 0);
      sum, lost := total % TWO_32, lost + total / TWO_32;
    }
    Wrapped(sum, lost);
  }

  /** The accumulator, the carries lost so far and the words still to come make up the whole sum. */
  ghost predicate Summed(data: seq<Byte>, i: nat, sum: U32, lost: nat)
    requires i <= |data|
  {
    sum + TWO_32 * lost + Sum(Words(data[i..])) == Sum(Words(data))
  }

  lemma Wrapped(sum: U32, lost: nat)
    ensures (sum + TWO_32 * lost) % TWO_32 == sum
  {
  }

  lemma WordsTail(data: seq<Byte>, i: nat)
    requires i < |data|
    ensures |data| - i > 1 ==>
              Sum(Words(data[i..])) == Word(data[i], data[i + 1]) + Sum(Words(data[i + 2..]))
    ensures |data| - i == 1 ==> Sum(Words(data[i..])) == Word(data[i], 0)
  {
  }

  /** The carry loop; it runs at most twice. */
  method FoldCarries(start: U32) returns (sum: U16)
    ensures sum == Norm(start)
  {
    var acc: nat := start;
    ghost var folds := 0;
    while acc / TWO_16 != 0
      invariant Norm(acc) == Norm(start)
      invariant folds == 1 ==> acc <= 2 * ONES
      invariant folds == 2 ==> acc <= ONES
      invariant 0 <= folds <= 2
      decreases acc
    {
      NormFoldStep(acc);
      acc := FoldStep(acc);
      folds := folds + 1;
    }
    return acc;
  }

  lemma NormFoldStep(s: nat)
    requires s >= TWO_16
    ensures Norm(FoldStep(s)) == Norm(s) && 0 < FoldStep(s) < s
  {
  }

  lemma NormShift(s: nat, k: nat)
    requires s > 0
    ensures Norm(s + ONES * k) == Norm(s)
  {
  }

  /** Two rounds of the carry loop are always enough, and sometimes needed. */
  lemma FoldAtMostTwice(s: U32)
    ensures FoldStep(s) <= 2 * ONES && FoldStep(FoldStep(s)) <= ONES
    ensures exists t: U32 :: FoldStep(t) > ONES
  {
    assert FoldStep(TWO_32 - 1) > ONES;
  }

  // ---- The reference: one's complement addition -------------------------------------------------

  function OnesAdd(a: U16, b: U16): U16
  {
    if a + b <= ONES then a + b else a + b - ONES
  }

  function OnesSum(ws: seq<U16>): U16
  {
    if ws == [] then 0 else OnesAdd(ws[0], OnesSum(ws[1..]))
  }

  /** Section 1 of RFC 1071: the complement of the one's complement sum. */
  function Rfc1071(data: seq<Byte>): U16
  {
    ONES - OnesSum(Words(data))
  }

  lemma {:induction false} OnesSumIsNorm(ws: seq<U16>)
    ensures OnesSum(ws) == Norm(Sum(ws))
  {
    if ws != [] {
      OnesSumIsNorm(ws[1..]);
      OnesAddNorm(ws[0], Sum(ws[1..]));
    }
  }

  lemma OnesAddNorm(a: U16, s: nat)
    ensures OnesAdd(a, Norm(s)) == Norm(a + s)
  {
  }

  lemma {:induction false} SumBound(ws: seq<U16>)
    ensures Sum(ws) <= ONES * |ws|
  {
    if ws != [] {
      SumBound(ws[1..]);
    }
  }

  lemma NoWrap(data: seq<Byte>)
    requires |data| <= 131074
    ensures Sum(Words(data)) < TWO_32
    ensures Deferred(data) == ONES - Norm(Sum(Words(data)))
  {
    SumBound(Words(data));
    WordCapacity(|Words(data)|, Sum(Words(data)));
  }

  lemma WordCapacity(n: nat, s: nat)
    requires n <= 65537 && s <= ONES * n
    ensures s < TWO_32 && s % TWO_32 == s
  {
  }

  /** Up to 131074 bytes the 32-bit accumulator never wraps and the result is the RFC 1071 checksum. */
  lemma MeetsRfc1071(data: seq<Byte>)
    requires |data| <= 131074
    ensures Sum(Words(data)) < TWO_32
    ensures Deferred(data) == Rfc1071(data)
  {
    NoWrap(data);
    OnesSumIsNorm(Words(data));
  }

  /** For a buffer of any length: the code meets RFC 1071 exactly when the number of lost carries is a
      multiple of 65535 and the wrapped accumulator is not a false zero. */
  lemma MeetsRfc1071Exactly(data: seq<Byte>)
    ensures var s := Sum(Words(data));
            Deferred(data) == Rfc1071(data)
            <==> s / TWO_32 % ONES == 0 && (s % TWO_32 == 0 ==> s == 0)
  {
    var s := Sum(Words(data));
    OnesSumIsNorm(Words(data));
    var r, k := s % TWO_32, s / TWO_32;
    assert s == r + k + ONES * (0x10001 * k);
    if r + k > 0 {
      NormShift(r + k, 0x10001 * k);
      assert Norm(s) == Norm(r + k);
    }
    if r > 0 {
      NormCongruent(r, k);
    }
  }

  lemma NormCongruent(r: nat, k: nat)
    requires r > 0
    ensures Norm(r + k) == Norm(r) <==> k % ONES == 0
  {
  }

  /** The bound 131074 is tight: one more byte, all of them 0xFF, wraps and gives another answer. */
  lemma BoundIsTight()
    ensures exists data: seq<Byte> :: |data| == 131075 && Deferred(data) != Rfc1071(data)
  {
    var data: seq<Byte> := seq(131075, _ => 0xFF);
    AllOnes(data, 65537);
    MeetsRfc1071Exactly(data);
  }

  lemma {:induction false} AllOnes(data: seq<Byte>, k: nat)
    requires |data| == 2 * k + 1 && forall i :: 0 <= i < |data| ==> data[i] == 0xFF
    ensures Sum(Words(data)) == ONES * k + 0xFF00
  {
    if k == 0 {
      assert Words(data)[1..] == [];
    } else {
      AllOnes(data[2..], k - 1);
      assert Words(data)[1..] == Words(data[2..]);
    }
  }

  // ---- Algebra ----------------------------------------------------------------------------------

  lemma {:induction false} SumConcat(a: seq<nat>, b: seq<nat>)
    ensures Sum(a + b) == Sum(a) + Sum(b)
  {
    if a == [] {
      assert a + b == b;
    } else {
      SumConcat(a[1..], b);
      assert (a + b)[1..] == a[1..] + b;
    }
  }

  lemma SumRemove(b: seq<nat>, i: nat)
    requires i < |b|
    ensures Sum(b) == b[i] + Sum(b[..i] + b[i + 1..])
  {
    assert b == b[..i] + b[i..];
    SumConcat(b[..i], b[i..]);
    SumConcat(b[..i], b[i + 1..]);
    assert b[i..][1..] == b[i + 1..];
  }

  lemma {:induction false} SumPermutation(a: seq<nat>, b: seq<nat>)
    requires multiset(a) == multiset(b)
    ensures Sum(a) == Sum(b)
    decreases |a|
  {
    if a == [] {
      assert |multiset(b)| == 0;
    } else {
      var i := PermutationHead(a, b);
      SumPermutation(a[1..], b[..i] + b[i + 1..]);
      SumRemove(b, i);
    }
  }

  /** Section 2 (A): any permutation of the aligned words leaves the result unchanged, at any length. */
  lemma PermutationInvariant(a: seq<Byte>, b: seq<Byte>)
    requires multiset(Words(a)) == multiset(Words(b))
    ensures Deferred(a) == Deferred(b)
  {
    SumPermutation(Words(a), Words(b));
  }

  lemma {:induction false} WordsConcat(a: seq<Byte>, b: seq<Byte>)
    requires |a| % 2 == 0
    ensures Words(a + b) == Words(a) + Words(b)
  {
    if a == [] {
      assert a + b == b;
    } else {
      assert (a + b)[2..] == a[2..] + b;
      WordsConcat(a[2..], b);
    }
  }

  /** Section 2 (A): split at an even offset, the parts' sums combine by one's complement addition. */
  lemma SplitCombines(a: seq<Byte>, b: seq<Byte>)
    requires |a| % 2 == 0 && |a| + |b| <= 131074
    ensures ONES - Deferred(a + b) == OnesAdd(ONES - Deferred(a), ONES - Deferred(b))
  {
    NoWrap(a);
    NoWrap(b);
    NoWrap(a + b);
    SumSplit(a, b);
    Recombine(Deferred(a), Deferred(b), Deferred(a + b), Sum(Words(a)), Sum(Words(b)));
  }

  lemma Recombine(a: U16, b: U16, ab: U16, s: nat, t: nat)
    requires a == ONES - Norm(s) && b == ONES - Norm(t) && ab == ONES - Norm(s + t)
    ensures ONES - ab == OnesAdd(ONES - a, ONES - b)
  {
    NormAdd(s, t);
  }

  lemma SumSplit(a: seq<Byte>, b: seq<Byte>)
    requires |a| % 2 == 0
    ensures Sum(Words(a + b)) == Sum(Words(a)) + Sum(Words(b))
  {
    WordsConcat(a, b);
    SumConcat(Words(a), Words(b));
  }

  lemma NormAdd(s: nat, t: nat)
    ensures Norm(s + t) == OnesAdd(Norm(s), Norm(t))
  {
    OnesAddNorm(Norm(s), t);
    if s > 0 {
      NormShift(Norm(s) + t, (s - 1) / ONES);
    }
  }

  function Swap(w: U16): U16
  {
    w % 0x100 * 0x100 + w / 0x100
  }

  function SwapPairs(b: seq<Byte>): (r: seq<Byte>)
    requires |b| % 2 == 0
    ensures |r| == |b|
  {
    if b == [] then [] else [b[1], b[0]] + SwapPairs(b[2..])
  }

  lemma {:induction false} SwapSum(b: seq<Byte>)
    requires |b| % 2 == 0
    ensures exists k: nat :: 0x100 * Sum(Words(b)) == Sum(Words(SwapPairs(b))) + ONES * k
    ensures Sum(Words(b)) == 0 <==> Sum(Words(SwapPairs(b))) == 0
  {
    if b == [] {
      assert 0x100 * Sum(Words(b)) == Sum(Words(SwapPairs(b))) + ONES * 0;
    } else {
      SwapSum(b[2..]);
      var k: nat :| 0x100 * Sum(Words(b[2..])) == Sum(Words(SwapPairs(b[2..]))) + ONES * k;
      assert SwapPairs(b)[2..] == SwapPairs(b[2..]);
      assert Words(b)[1..] == Words(b[2..]);
      assert Words(SwapPairs(b))[1..] == Words(SwapPairs(b[2..]));
      assert 0x100 * Sum(Words(b)) == Sum(Words(SwapPairs(b))) + ONES * (k + b[0]);
    }
  }

  lemma SwapNorm(s: nat)
    ensures Swap(Norm(s)) == Norm(0x100 * s)
  {
    if s > 0 {
      var n := Norm(s);
      var k := Carries(s);
      var hi, lo := n / 0x100, n % 0x100;
      assert 0x100 * n == 0x100 * lo + hi + ONES * hi;
      NormUnique(0x100 * s, 0x100 * lo + hi, hi + 0x100 * k);
    }
  }

  lemma Carries(s: nat) returns (k: nat)
    requires s > 0
    ensures s == Norm(s) + ONES * k
  {
    k := (s - 1) / ONES;
  }

  lemma NormUnique(s: nat, n: nat, k: nat)
    requires 0 < n <= ONES && s == n + ONES * k
    ensures Norm(s) == n
  {
  }

  lemma SwapNorms(s: nat, t: nat)
    requires exists k: nat :: 0x100 * s == t + ONES * k
    requires s == 0 <==> t == 0
    ensures Norm(t) == Swap(Norm(s))
  {
    SwapNorm(s);
    if t > 0 {
      var k: nat :| 0x100 * s == t + ONES * k;
      NormShift(t, k);
    }
  }

  lemma SwapComplement(n: U16)
    ensures Swap(ONES - n) == ONES - Swap(n)
  {
  }

  lemma SwapComplements(s: nat, t: nat)
    requires exists k: nat :: 0x100 * s == t + ONES * k
    requires s == 0 <==> t == 0
    ensures ONES - Norm(t) == Swap(ONES - Norm(s))
  {
    SwapNorms(s, t);
    SwapComplement(Norm(s));
  }

  /** Section 2 (B): swapping the bytes of every word swaps the bytes of the result. */
  lemma ByteOrderIndependent(b: seq<Byte>)
    requires |b| % 2 == 0 && |b| <= 131074
    ensures Deferred(SwapPairs(b)) == Swap(Deferred(b))
  {
    SwapSum(b);
    NoWrap(b);
    NoWrap(SwapPairs(b));
    SwapComplements(Sum(Words(b)), Sum(Words(SwapPairs(b))));
  }

  // ---- Insertion and detection ------------------------------------------------------------------

  /** The buffer with the aligned word at byte offset `at` replaced. */
  function SetWord(b: seq<Byte>, at: nat, w: U16): (r: seq<Byte>)
    requires at + 2 <= |b|
    ensures |r| == |b|
  {
    b[at := w / 0x100][at + 1 := w % 0x100]
  }

  lemma {:induction false} SetWordSum(b: seq<Byte>, at: nat, w: U16)
    requires at % 2 == 0 && at + 2 <= |b|
    ensures Sum(Words(SetWord(b, at, w))) == Sum(Words(b)) - U16At(b, at) + w
    decreases at
  {
    var c := SetWord(b, at, w);
    assert Words(b)[1..] == Words(b[2..]);
    assert Words(c)[1..] == Words(c[2..]);
    if at == 0 {
      assert c[2..] == b[2..];
    } else {
      SetWordSum(b[2..], at - 2, w);
      assert c[2..] == SetWord(b[2..], at - 2, w);
    }
  }

  /** Verification succeeds exactly for the nonzero multiples of 65535. */
  lemma VerifiesIff(b: seq<Byte>)
    requires |b| <= 131074
    ensures VerifyIpChecksum(b) <==> Sum(Words(b)) > 0 && Sum(Words(b)) % ONES == 0
  {
    NoWrap(b);
    NormIsOnes(Sum(Words(b)));
  }

  lemma NormIsOnes(s: nat)
    ensures Norm(s) == ONES <==> s > 0 && s % ONES == 0
  {
  }

  /** Storing the checksum of a buffer over its zeroed checksum field makes it verify. */
  lemma InsertionVerifies(b: seq<Byte>, at: nat)
    requires at % 2 == 0 && at + 2 <= |b| <= 131074
    ensures VerifyIpChecksum(SetWord(b, at, Deferred(SetWord(b, at, 0))))
  {
    var zeroed := SetWord(b, at, 0);
    var c := Deferred(zeroed);
    SetWordSum(zeroed, at, c);
    assert SetWord(zeroed, at, c) == SetWord(b, at, c);
    NoWrap(zeroed);
    VerifiesIff(SetWord(b, at, c));
    ComplementCompletes(Sum(Words(zeroed)));
  }

  lemma ComplementCompletes(s: nat)
    ensures (s + (ONES - Norm(s))) % ONES == 0
    ensures s + (ONES - Norm(s)) > 0
  {
  }

  lemma MultipleShift(s: nat, d: int)
    requires s % ONES == 0 && -ONES <= d <= ONES && d != 0
    ensures (s + d) % ONES == 0 <==> d == ONES || d == -ONES
  {
  }

  /** From a verifying buffer, a change of one aligned word goes unnoticed exactly when it exchanges the
      two representations of zero and the sum stays nonzero. */
  lemma SingleWordDetection(b: seq<Byte>, at: nat, w: U16)
    requires at % 2 == 0 && at + 2 <= |b| <= 131074
    requires VerifyIpChecksum(b) && w != U16At(b, at)
    ensures VerifyIpChecksum(SetWord(b, at, w))
            <==> (if w == 0 then U16At(b, at) == ONES else w == ONES && U16At(b, at) == 0)
                 && Sum(Words(SetWord(b, at, w))) > 0
  {
    var was := U16At(b, at);
    SetWordSum(b, at, w);
    VerifiesIff(b);
    VerifiesIff(SetWord(b, at, w));
    MultipleShift(Sum(Words(b)), w - was);
  }
}

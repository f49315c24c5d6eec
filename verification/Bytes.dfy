/** Fixed-width unsigned integers, byte strings and the byte orders the engine reads and writes. */
module Bytes {

  datatype Option<+T> = None | Some(value: T)

  const TWO_16 := 0x1_0000
  const TWO_32 := 0x1_0000_0000
  const TWO_64 := 0x1_0000_0000_0000_0000

  type Byte = x: int | 0 <= x < 0x100
  type U16 = x: int | 0 <= x < 0x1_0000
  type U32 = x: int | 0 <= x < 0x1_0000_0000
  type U64 = x: int | 0 <= x < 0x1_0000_0000_0000_0000

  /** Two bytes as a big-endian 16-bit word. */
  function Word(hi: Byte, lo: Byte): U16
  {
    var h: int := hi;
    0x100 * h + lo
  }

  /** Network order, as `readU16Be` and `readU32Be` compute it. */
  function U16At(s: seq<Byte>, i: nat): U16
    requires i + 2 <= |s|
  {
    Word(s[i], s[i + 1])
  }

  function U32At(s: seq<Byte>, i: nat): U32
    requires i + 4 <= |s|
  {
    var hi: int := U16At(s, i);
    0x1_0000 * hi + U16At(s, i + 2)
  }

  /** Host order of a little-endian machine: `memcpy` of an unsigned integer of n bytes. */
  function LittleEndian(v: nat, n: nat): (s: seq<Byte>)
    ensures |s| == n
  {
    if n == 0 then [] else [v % 0x100] + LittleEndian(v / 0x100, n - 1)
  }

  function FromLittleEndian(s: seq<Byte>): nat
  {
    if s == [] then 0 else s[0] + 0x100 * FromLittleEndian(s[1..])
  }

  function Pow256(n: nat): (p: nat)
    ensures p > 0
  {
    if n == 0 then 1 else 0x100 * Pow256(n - 1)
  }

  lemma {:induction false} LittleEndianRoundTrip(v: nat, n: nat)
    requires v < Pow256(n)
    ensures FromLittleEndian(LittleEndian(v, n)) == v
  {
    if n > 0 {
      LittleEndianRoundTrip(v / 0x100, n - 1);
      assert LittleEndian(v, n)[1..] == LittleEndian(v / 0x100, n - 1);
    }
  }

  lemma {:induction false} FromLittleEndianRoundTrip(s: seq<Byte>)
    ensures FromLittleEndian(s) < Pow256(|s|)
    ensures LittleEndian(FromLittleEndian(s), |s|) == s
  {
    if s != [] {
      FromLittleEndianRoundTrip(s[1..]);
      var v, rest := FromLittleEndian(s), FromLittleEndian(s[1..]);
      assert v / 0x100 == rest && v % 0x100 == s[0];
      assert s == [s[0]] + s[1..];
    }
  }

  lemma TimestampRange()
    ensures Pow256(8) == TWO_64
  {
  }

  lemma SplitAt<T>(s: seq<T>, i: nat)
    requires i < |s|
    ensures s == s[..i] + [s[i]] + s[i + 1..]
  {
  }

  lemma MultisetRemove<T>(s: seq<T>, i: nat)
    requires i < |s|
    ensures multiset(s[..i] + s[i + 1..]) == multiset(s) - multiset{s[i]}
  {
    SplitAt(s, i);
  }

  lemma MultisetTail<T>(s: seq<T>)
    requires s != []
    ensures multiset(s[1..]) == multiset(s) - multiset{s[0]}
  {
    assert s == [s[0]] + s[1..];
  }

  /** The head of a sequence occurs in every permutation of it; without it, permutations are left. */
  lemma PermutationHead<T>(g: seq<T>, h: seq<T>) returns (i: nat)
    requires g != [] && multiset(g) == multiset(h)
    ensures i < |h| && h[i] == g[0]
    ensures multiset(g[1..]) == multiset(h[..i] + h[i + 1..])
  {
    assert g[0] in multiset(h);
    i :| 0 <= i < |h| && h[i] == g[0];
    MultisetTail(g);
    MultisetRemove(h, i);
  }
}

/** Byte strings: search, and the readers and writers the transcripts share. */
module Bytes {

  import opened Options

  type Byte = b: int | 0 <= b < 256 witness 0

  type U32 = n: int | 0 <= n < 0x1_0000_0000 witness 0

  type U64 = n: int | 0 <= n < 0x1_0000_0000_0000_0000 witness 0

  /** pat stands at offset off of s. */
  predicate At(s: seq<Byte>, off: nat, pat: seq<Byte>) {
    off + |pat| <= |s| && s[off..off + |pat|] == pat
  }

  lemma AtConcat(s: seq<Byte>, off: nat, a: seq<Byte>, b: seq<Byte>)
    ensures At(s, off, a + b) <==> At(s, off, a) && At(s, off + |a|, b)
  {
    if At(s, off, a + b) {
      assert s[off..off + |a|] == (a + b)[..|a|] == a;
      assert s[off + |a|..off + |a| + |b|] == (a + b)[|a|..] == b;
    }
    if At(s, off, a) && At(s, off + |a|, b) {
      assert s[off..off + |a| + |b|] == s[off..off + |a|] + s[off + |a|..off + |a| + |b|];
    }
  }

  lemma AtHere(pre: seq<Byte>, pat: seq<Byte>, post: seq<Byte>)
    ensures At(pre + pat + post, |pre|, pat)
  {
  }

  // ---- Search ----

  /** Least offset from i on where pat stands. */
  function FindFrom(s: seq<Byte>, pat: seq<Byte>, i: nat): (r: Option<nat>)
    ensures r.Some? ==> r.value >= i && At(s, r.value, pat) && forall j: nat :: i <= j < r.value ==> !At(s, j, pat)
    ensures r.None? ==> forall j: nat :: i <= j ==> !At(s, j, pat)
    decreases |s| - i
  {
    if i + |pat| > |s| then None
    else if s[i..i + |pat|] == pat then Some(i)
    else FindFrom(s, pat, i + 1)
  }

  /** Greatest offset at or below i where pat stands. */
  function FindDown(s: seq<Byte>, pat: seq<Byte>, i: nat): (r: Option<nat>)
    ensures r.Some? ==> r.value <= i && At(s, r.value, pat) && forall j: nat :: r.value < j <= i ==> !At(s, j, pat)
    ensures r.None? ==> forall j: nat :: j <= i ==> !At(s, j, pat)
  {
    if At(s, i, pat) then Some(i) else if i == 0 then None else FindDown(s, pat, i - 1)
  }

  /** The first occurrence. */
  function Position(s: seq<Byte>, pat: seq<Byte>): (r: Option<nat>)
    ensures r.Some? ==> At(s, r.value, pat) && forall j: nat :: j < r.value ==> !At(s, j, pat)
    ensures r.None? ==> forall j: nat :: !At(s, j, pat)
  {
    FindFrom(s, pat, 0)
  }

  /** The last occurrence. */
  function RPosition(s: seq<Byte>, pat: seq<Byte>): (r: Option<nat>)
    ensures r.Some? ==> At(s, r.value, pat) && forall j: nat :: j > r.value ==> !At(s, j, pat)
    ensures r.None? ==> forall j: nat :: !At(s, j, pat)
  {
    var r := FindDown(s, pat, |s|);
    assert forall j: nat :: j > |s| ==> !At(s, j, pat);
    r
  }

  predicate Occurs(s: seq<Byte>, pat: seq<Byte>) { Position(s, pat).Some? }

  lemma OccursAt(s: seq<Byte>, pat: seq<Byte>, off: nat)
    requires At(s, off, pat)
    ensures Occurs(s, pat)
  {
  }

  // ---- Little-endian numbers ----

  /** The w low bytes of n, lowest first. */
  function Le(n: nat, w: nat): (r: seq<Byte>)
    ensures |r| == w
  {
    if w == 0 then [] else [n % 256] + Le(n / 256, w - 1)
  }

  function FromLe(s: seq<Byte>): nat {
    if s == [] then 0 else s[0] + 256 * FromLe(s[1..])
  }

  function Pow256(w: nat): nat { if w == 0 then 1 else 256 * Pow256(w - 1) }

  lemma {:induction false} FromLeBound(s: seq<Byte>)
    ensures FromLe(s) < Pow256(|s|)
  {
    if s != [] {
      FromLeBound(s[1..]);
    }
  }

  lemma {:induction false} LeFromLe(s: seq<Byte>)
    ensures Le(FromLe(s), |s|) == s
  {
    if s != [] {
      LeFromLe(s[1..]);
      assert FromLe(s) % 256 == s[0] && FromLe(s) / 256 == FromLe(s[1..]);
    }
  }

  lemma {:induction false} FromLeLe(n: nat, w: nat)
    requires n < Pow256(w)
    ensures FromLe(Le(n, w)) == n
  {
    if w > 0 {
      FromLeLe(n / 256, w - 1);
      assert Le(n, w)[1..] == Le(n / 256, w - 1);
    }
  }

  lemma Pow256Values()
    ensures Pow256(4) == 0x1_0000_0000 && Pow256(8) == 0x1_0000_0000_0000_0000
  {
    assert Pow256(2) == 0x1_0000;
    assert Pow256(6) == 0x1_0000_0000_0000;
  }

  /** n as u32, truncated. */
  function Le32(n: nat): (r: seq<Byte>)
    ensures |r| == 4
  {
    Le(n % 0x1_0000_0000, 4)
  }

  function Le64(n: U64): (r: seq<Byte>)
    ensures |r| == 8
  {
    Le(n, 8)
  }

  // ---- Readers ----

  /** A value and the offset behind it. */
  type Reading<T> = Option<(T, nat)>

  function ReadFixed(s: seq<Byte>, off: nat, n: nat): (r: Reading<seq<Byte>>)
    ensures forall x, end: nat :: r == Some((x, end)) <==> |x| == n && end == off + n && At(s, off, x)
  {
    if off + n <= |s| then
      assert forall x :: |x| == n && At(s, off, x) ==> x == s[off..off + n];
      Some((s[off..off + n], off + n))
    else None
  }

  function ReadU32(s: seq<Byte>, off: nat): (r: Reading<U32>)
    ensures r.Some? ==> r.value.1 == off + 4 <= |s|
  {
    var (b, next) :- ReadFixed(s, off, 4);
    FromLeBound(b);
    Pow256Values();
    Some((FromLe(b), next))
  }

  function ReadU64(s: seq<Byte>, off: nat): (r: Reading<U64>)
    ensures r.Some? ==> r.value.1 == off + 8 <= |s|
  {
    var (b, next) :- ReadFixed(s, off, 8);
    FromLeBound(b);
    Pow256Values();
    Some((FromLe(b), next))
  }

  lemma ReadU32Iff(s: seq<Byte>, off: nat, n: U32, end: nat)
    ensures ReadU32(s, off) == Some((n, end)) <==> end == off + 4 && At(s, off, Le32(n))
  {
    hide Le, FromLe, Pow256;
    Pow256Values();
    FromLeLe(n, 4);
    if off + 4 <= |s| {
      LeFromLe(s[off..off + 4]);
    }
  }

  lemma ReadU64Iff(s: seq<Byte>, off: nat, n: U64, end: nat)
    ensures ReadU64(s, off) == Some((n, end)) <==> end == off + 8 && At(s, off, Le64(n))
  {
    hide Le, FromLe, Pow256;
    Pow256Values();
    FromLeLe(n, 8);
    if off + 8 <= |s| {
      LeFromLe(s[off..off + 8]);
    }
  }

  predicate NulFree(s: seq<Byte>) { 0 !in s }

  /** A string and its terminating zero byte. */
  function Cstr(s: seq<Byte>): seq<Byte> { s + [0] }

  /** Offset of the first zero byte from off on. */
  function FindNul(s: seq<Byte>, off: nat): (r: Option<nat>)
    ensures r.Some? ==> off <= r.value < |s| && s[r.value] == 0 && forall j :: off <= j < r.value ==> s[j] != 0
    ensures r.None? ==> forall j :: off <= j < |s| ==> s[j] != 0
    decreases |s| - off
  {
    if off >= |s| then None else if s[off] == 0 then Some(off) else FindNul(s, off + 1)
  }

  function ReadCstr(s: seq<Byte>, off: nat): (r: Reading<seq<Byte>>)
    ensures r.Some? ==> r.value.1 == off + |r.value.0| + 1 <= |s|
  {
    if off > |s| then None
    else
      var end :- FindNul(s, off);
      Some((s[off..end], end + 1))
  }

  lemma ReadCstrIff(s: seq<Byte>, off: nat, x: seq<Byte>, end: nat)
    ensures ReadCstr(s, off) == Some((x, end)) <==> NulFree(x) && end == off + |x| + 1 && At(s, off, Cstr(x))
  {
    if ReadCstr(s, off) == Some((x, end)) {
      var nul := FindNul(s, off).value;
      assert s[off..nul + 1] == s[off..nul] + [s[nul]];
    }
    if NulFree(x) && end == off + |x| + 1 && At(s, off, Cstr(x)) {
      FirstNul(s, off, x);
      assert s[off..off + |x|] == s[off..off + |x| + 1][..|x|] == x;
    }
  }

  lemma FirstNul(s: seq<Byte>, off: nat, x: seq<Byte>)
    requires NulFree(x) && At(s, off, Cstr(x))
    ensures FindNul(s, off) == Some(off + |x|)
  {
    var window := s[off..off + |x| + 1];
    assert window[|x|] == 0 && s[off + |x|] == window[|x|];
    forall j | off <= j < off + |x|
      ensures s[j] != 0
    {
      assert s[j] == window[j - off] == x[j - off];
    }
  }

  function ReadByte(s: seq<Byte>, off: nat): Reading<Byte> {
    if off < |s| then Some((s[off], off + 1)) else None
  }

  lemma ReadByteIff(s: seq<Byte>, off: nat, b: Byte, end: nat)
    ensures ReadByte(s, off) == Some((b, end)) <==> end == off + 1 && At(s, off, [b])
  {
    if off < |s| {
      assert s[off..off + 1] == [s[off]];
    }
  }

  /** The ASCII codes of a literal. */
  function Ascii(text: string): (r: seq<Byte>)
    requires forall i :: 0 <= i < |text| ==> text[i] < 128 as char
    ensures |r| == |text|
  {
    seq(|text|, i requires 0 <= i < |text| => text[i] as int)
  }
}

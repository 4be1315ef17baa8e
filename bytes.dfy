/** Octets, big-endian numbers and the 32-bit unsigned arithmetic shared by
    the TLV decoder, the serial frame layer and the APDU envelope. */
module Bytes {

  /** One octet, the source's uint8_t. */
  type byte = x: int | 0 <= x < 256

  /** The modulus of the source's 32-bit `unsigned int`. */
  const WORD: nat := 0x1_0000_0000

  datatype Option<+T> = None | Some(value: T)

  /** `s` occurs in `d` starting at index `at`. */
  predicate At(d: seq<byte>, at: nat, s: seq<byte>)
  {
    at + |s| <= |d| && d[at..at + |s|] == s
  }

  /** An octet of an occurrence is the octet of `d` at the shifted index. */
  lemma AtIndex(d: seq<byte>, at: nat, s: seq<byte>, i: nat)
    requires At(d, at, s) && i < |s|
    ensures d[at + i] == s[i]
  {
    assert d[at..at + |s|][i] == d[at + i];
  }

  /** A slice of an occurrence is the shifted slice of `d`. */
  lemma AtSlice(d: seq<byte>, at: nat, s: seq<byte>, i: nat, j: nat)
    requires At(d, at, s) && i <= j <= |s|
    ensures d[at + i..at + j] == s[i..j]
  {
    forall k | 0 <= k < j - i
      ensures d[at + i..at + j][k] == s[i..j][k]
    {
      AtIndex(d, at, s, i + k);
    }
  }

  /** The number whose big-endian base-256 digits are `s`. */
  function BigEndian(s: seq<byte>): nat
  {
    if s == [] then 0 else BigEndian(s[..|s| - 1]) * 256 + s[|s| - 1]
  }

  /** Appending an octet shifts the accumulated value left by eight bits. */
  lemma BigEndianSnoc(s: seq<byte>, b: byte)
    ensures BigEndian(s + [b]) == BigEndian(s) * 256 + b
  {
    assert (s + [b])[..|s|] == s;
  }

  /** One step of the source's `acc = (acc << 8) + b` on an unsigned int keeps
      the accumulator equal to the big-endian value of the octets read so far,
      reduced modulo 2^32. */
  lemma {:induction false} Word32Step(s: seq<byte>, b: byte)
    ensures (BigEndian(s) % WORD * 256 + b) % WORD == BigEndian(s + [b]) % WORD
  {
    BigEndianSnoc(s, b);
    var x := BigEndian(s);
    var q, r := x / WORD, x % WORD;
    assert x == q * WORD + r;
    assert x * 256 + b == (r * 256 + b) + (q * 256) * WORD;
    ModAddMultiple(r * 256 + b, q * 256);
  }

  lemma ModAddMultiple(a: nat, k: nat)
    ensures (a + k * WORD) % WORD == a % WORD
  {
  }

  /** The octet strings of `ws`, laid end to end. */
  function Flatten(ws: seq<seq<byte>>): seq<byte>
  {
    if ws == [] then [] else ws[0] + Flatten(ws[1..])
  }

  /** A buffer whose tail from `pos` is a non-empty concatenation holds the
      first string at `pos` and the rest right after it. */
  lemma FlattenSplit(d: seq<byte>, pos: nat, ws: seq<seq<byte>>)
    requires ws != [] && pos <= |d| && d[pos..] == Flatten(ws)
    ensures At(d, pos, ws[0]) && d[pos + |ws[0]|..] == Flatten(ws[1..])
  {
    var a, b := ws[0], Flatten(ws[1..]);
    assert d[pos..pos + |a|] == (a + b)[..|a|];
    assert d[pos + |a|..] == (a + b)[|a|..];
  }

  /** The minimal big-endian digits of `n` (one digit for n < 256). */
  function Digits(n: nat): (d: seq<byte>)
    ensures |d| >= 1
    ensures BigEndian(d) == n
    ensures n < 0x100 ==> |d| == 1
    ensures n < 0x1_0000 ==> |d| <= 2
    ensures n < 0x100_0000 ==> |d| <= 3
    ensures n < WORD ==> |d| <= 4
    ensures n >= 0x100 ==> d[0] != 0
  {
    if n < 256 then [n]
    else
      var d := Digits(n / 256) + [n % 256];
      BigEndianSnoc(Digits(n / 256), n % 256);
      d
  }

  /** memcpy(dst + at, src, |src|): the octets of `src` replace those of `dst`
      from index `at` on, and nothing else in `dst` changes. */
  method CopyInto(dst: array<byte>, at: nat, src: seq<byte>)
    requires at + |src| <= dst.Length
    modifies dst
    ensures dst[..] == old(dst[..at]) + src + old(dst[at + |src|..])
    ensures dst[..at] == old(dst[..at]) && dst[at..at + |src|] == src
    ensures dst[..at + |src|] == old(dst[..at]) + src
    ensures dst[at + |src|..] == old(dst[at + |src|..])
  {
    var i := 0;
    while i < |src|
      invariant 0 <= i <= |src|
      invariant forall k :: 0 <= k < i ==> dst[at + k] == src[k]
      invariant forall k :: 0 <= k < dst.Length && !(at <= k < at + i) ==> dst[k] == old(dst[k])
    {
      dst[at + i] := src[i];
      i := i + 1;
    }
    CopiedSlices(old(dst[..]), dst[..], at, src);
  }

  /** A string that agrees with `before` outside `at..at + |src|` and holds
      `src` inside it is `before` with `src` written at `at`. */
  lemma CopiedSlices(before: seq<byte>, after: seq<byte>, at: nat, src: seq<byte>)
    requires |before| == |after| && at + |src| <= |after|
    requires forall k :: 0 <= k < |src| ==> after[at + k] == src[k]
    requires forall k :: 0 <= k < |after| && !(at <= k < at + |src|) ==> after[k] == before[k]
    ensures after == before[..at] + src + before[at + |src|..]
    ensures after[..at] == before[..at] && after[at..at + |src|] == src
    ensures after[..at + |src|] == before[..at] + src
    ensures after[at + |src|..] == before[at + |src|..]
  {
    assert after[..at] == before[..at];
    assert after[at..at + |src|] == src;
    assert after[..at + |src|] == before[..at] + src;
    assert after[at + |src|..] == before[at + |src|..];
    assert after == after[..at + |src|] + after[at + |src|..];
  }
}

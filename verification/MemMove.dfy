/** Copying by words in place (libc/string/mem.c). */
module MemMove {

  type byte = b: int | 0 <= b < 0x100

  /** n bytes from src, all read before any is written, land at dst. */
  function Copied(s: seq<byte>, dst: nat, src: nat, n: nat): (r: seq<byte>)
    requires dst + n <= |s| && src + n <= |s|
    ensures |r| == |s|
  {
    s[..dst] + s[src..src + n] + s[dst + n..]
  }

  lemma CopiedAt(s: seq<byte>, dst: nat, src: nat, n: nat, k: nat)
    requires dst + n <= |s| && src + n <= |s| && k < |s|
    ensures Copied(s, dst, src, n)[k] == if dst <= k < dst + n then s[k - dst + src] else s[k]
  {
  }

  /** Copying there and back restores the source, however the two overlap. */
  lemma ThereAndBack(s: seq<byte>, dst: nat, src: nat, n: nat)
    requires dst + n <= |s| && src + n <= |s|
    ensures Copied(Copied(s, dst, src, n), src, dst, n)[src..src + n] == s[src..src + n]
  {
    var t := Copied(s, dst, src, n);
    var u := Copied(t, src, dst, n);
    forall k | src <= k < src + n ensures u[k] == s[k] {
      CopiedAt(t, src, dst, n, k);
      CopiedAt(s, dst, src, n, k - src + dst);
    }
  }

  /** The bytes of t from lo up to hi come from the place shift bytes below in s, the others are as in s. */
  predicate Moved(s: seq<byte>, t: seq<byte>, lo: nat, hi: nat, shift: int)
    requires lo <= hi <= |s| && 0 <= lo - shift && hi - shift <= |s|
  {
    |t| == |s| && forall k {:trigger t[k]} :: 0 <= k < |s| ==> t[k] == if lo <= k < hi then s[k - shift] else s[k]
  }

  /** Bytes d up to d + c come from the place shift bytes below. */
  predicate Step(t: seq<byte>, t': seq<byte>, d: nat, c: nat, shift: int)
    requires d + c <= |t| && 0 <= d - shift && d + c - shift <= |t|
  {
    Moved(t, t', d, d + c, shift)
  }

  /** A step just past the moved bytes, whose source is not among them. */
  lemma StepUp(s: seq<byte>, t: seq<byte>, t': seq<byte>, lo: nat, hi: nat, c: nat, shift: int)
    requires lo <= hi && hi + c <= |s| && 0 <= lo - shift && hi + c - shift <= |s|
    requires Moved(s, t, lo, hi, shift) && Step(t, t', hi, c, shift)
    requires shift <= 0 || hi + c - shift <= lo
    ensures Moved(s, t', lo, hi + c, shift)
  {
    forall k | 0 <= k < |s| ensures t'[k] == if lo <= k < hi + c then s[k - shift] else s[k] {
      if hi <= k < hi + c {
        var from: nat := k - shift;
        assert t'[k] == t[from] == s[from];
      }
    }
  }

  /** A step just below the moved bytes, which come from no higher place. */
  lemma StepDown(s: seq<byte>, t: seq<byte>, t': seq<byte>, lo: nat, hi: nat, c: nat, shift: int)
    requires c <= lo <= hi <= |s| && 0 <= lo - c - shift && hi - shift <= |s|
    requires Moved(s, t, lo, hi, shift) && Step(t, t', lo - c, c, shift)
    requires shift >= 0
    ensures Moved(s, t', lo - c, hi, shift)
  {
    forall k | 0 <= k < |s| ensures t'[k] == if lo - c <= k < hi then s[k - shift] else s[k] {
      if lo - c <= k < lo {
        var from: nat := k - shift;
        assert t'[k] == t[from] == s[from];
      }
    }
  }

  lemma MovedIsCopied(s: seq<byte>, t: seq<byte>, dst: nat, src: nat, n: nat)
    requires dst + n <= |s| && src + n <= |s| && Moved(s, t, dst, dst + n, dst - src)
    ensures t == Copied(s, dst, src, n)
  {
    forall k | 0 <= k < |s| ensures t[k] == Copied(s, dst, src, n)[k] {
      CopiedAt(s, dst, src, n, k);
    }
  }

  /** One load and one store of eight bytes. */
  method CopyWord(m: array<byte>, d: nat, s: nat)
    requires d + 8 <= m.Length && s + 8 <= m.Length
    modifies m
    ensures Step(old(m[..]), m[..], d, 8, d - s)
  {
    var word := m[s..s + 8];
    forall k | 0 <= k < 8 {
      m[d + k] := word[k];
    }
  }

  method CopyByte(m: array<byte>, d: nat, s: nat)
    requires d < m.Length && s < m.Length
    modifies m
    ensures Step(old(m[..]), m[..], d, 1, d - s)
  {
    m[d] := m[s];
  }

  /** The first done bytes of the copy are there. */
  predicate FrontDone(s: seq<byte>, t: seq<byte>, dst: nat, src: nat, n: nat, done: nat)
    requires dst + n <= |s| && src + n <= |s| && done <= n
  {
    Moved(s, t, dst, dst + done, dst - src)
  }

  /** All but the first left bytes of the copy are there. */
  predicate BackDone(s: seq<byte>, t: seq<byte>, dst: nat, src: nat, n: nat, left: nat)
    requires dst + n <= |s| && src + n <= |s| && left <= n
  {
    Moved(s, t, dst + left, dst + n, dst - src)
  }

  lemma FrontStep(s: seq<byte>, t: seq<byte>, t': seq<byte>, dst: nat, src: nat, n: nat, done: nat, c: nat)
    requires dst + n <= |s| == |t| && src + n <= |s| && done + c <= n && (dst <= src || src + n <= dst)
    requires FrontDone(s, t, dst, src, n, done) && Step(t, t', dst + done, c, dst - src)
    ensures FrontDone(s, t', dst, src, n, done + c)
  {
    StepUp(s, t, t', dst, dst + done, c, dst - src);
  }

  lemma BackStep(s: seq<byte>, t: seq<byte>, t': seq<byte>, dst: nat, src: nat, n: nat, left: nat, c: nat)
    requires dst + n <= |s| == |t| && src + n <= |s| && c <= left <= n && src <= dst
    requires BackDone(s, t, dst, src, n, left) && Step(t, t', dst + left - c, c, dst - src)
    ensures BackDone(s, t', dst, src, n, left - c)
  {
    StepDown(s, t, t', dst + left, dst + n, c, dst - src);
  }

  lemma Ends(s: seq<byte>, t: seq<byte>, dst: nat, src: nat, n: nat)
    requires dst + n <= |s| && src + n <= |s|
    ensures FrontDone(s, s, dst, src, n, 0) && BackDone(s, s, dst, src, n, n)
    ensures FrontDone(s, t, dst, src, n, n) || BackDone(s, t, dst, src, n, 0) ==> t == Copied(s, dst, src, n)
  {
    if Moved(s, t, dst, dst + n, dst - src) {
      MovedIsCopied(s, t, dst, src, n);
    }
  }

  /** Whole words forward, then the tail byte by byte. Right when no byte is read after it is written. */
  method Memcpy(m: array<byte>, dst: nat, src: nat, n: nat)
    requires dst + n <= m.Length && src + n <= m.Length
    requires dst <= src || src + n <= dst
    modifies m
    ensures m[..] == Copied(old(m[..]), dst, src, n)
  {
    hide Step, Copied, FrontDone;
    ghost var before := m[..];
    Ends(before, before, dst, src, n);
    var left, d, s := n, dst, src;
    while left >= 8
      invariant 0 <= left <= n && d == dst + (n - left) && s == src + (n - left)
      invariant FrontDone(before, m[..], dst, src, n, n - left)
    {
      ghost var t := m[..];
      CopyWord(m, d, s);
      FrontStep(before, t, m[..], dst, src, n, n - left, 8);
      left, d, s := left - 8, d + 8, s + 8;
    }
    while left > 0
      invariant 0 <= left <= n && d == dst + (n - left) && s == src + (n - left)
      invariant FrontDone(before, m[..], dst, src, n, n - left)
    {
      ghost var t := m[..];
      CopyByte(m, d, s);
      FrontStep(before, t, m[..], dst, src, n, n - left, 1);
      left, d, s := left - 1, d + 1, s + 1;
    }
    Ends(before, m[..], dst, src, n);
  }

  /** memmove's word loop, from the end down. */
  method WordsDown(m: array<byte>, dst: nat, src: nat, n: nat, words: nat, ghost before: seq<byte>)
    requires dst + n <= m.Length && src + n <= m.Length && src <= dst && 8 * words <= n
    requires |before| == m.Length && BackDone(before, m[..], dst, src, n, 8 * words)
    modifies m
    ensures BackDone(before, m[..], dst, src, n, 0)
  {
    hide Step, BackDone;
    var left, k := 8 * words, words;
    var lastD, lastS := dst + left - 8, src + left - 8;
    while left >= 8
      invariant 0 <= k <= words && left == 8 * k && lastD == dst + left - 8 && lastS == src + left - 8
      invariant BackDone(before, m[..], dst, src, n, left)
    {
      ghost var t := m[..];
      CopyWord(m, lastD, lastS);
      BackStep(before, t, m[..], dst, src, n, left, 8);
      lastD, lastS, left, k := lastD - 8, lastS - 8, left - 8, k - 1;
    }
  }

  /** For any length and overlap: forward if the destination is lower, else the tail and then whole words backward. */
  method Memmove(m: array<byte>, dst: nat, src: nat, n: nat)
    requires dst + n <= m.Length && src + n <= m.Length
    modifies m
    ensures m[..] == Copied(old(m[..]), dst, src, n)
  {
    if dst < src {
      Memcpy(m, dst, src, n);
      return;
    }
    hide Step, Copied, BackDone;
    ghost var before := m[..];
    Ends(before, before, dst, src, n);
    var lastS, lastD := src + n - 1, dst + n - 1;
    var rem := n % 8;
    var left: nat := n - rem;
    while rem > 0
      invariant 0 <= rem && left + rem <= n
      invariant lastD == dst + left + rem - 1 && lastS == src + left + rem - 1
      invariant BackDone(before, m[..], dst, src, n, left + rem)
    {
      ghost var t := m[..];
      CopyByte(m, lastD, lastS);
      BackStep(before, t, m[..], dst, src, n, left + rem, 1);
      lastD, lastS, rem := lastD - 1, lastS - 1, rem - 1;
    }
    WordsDown(m, dst, src, n, n / 8, before);
    Ends(before, m[..], dst, src, n);
  }
}

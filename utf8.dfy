/** UTF-8 well-formedness as defined by the ABNF in section 4 of RFC 3629,
    and the greedy scan that `core::str::from_utf8` performs (its error's
    `valid_up_to` is the length of the longest well-formed prefix). */
module Utf8 {

  type byte = x: int | 0 <= x < 256

  // UTF8-tail = %x80-BF
  predicate IsTail(b: byte) { 0x80 <= b <= 0xBF }

  // UTF8-1 = %x00-7F
  predicate IsChar1(c: seq<byte>) { |c| == 1 && c[0] <= 0x7F }

  // UTF8-2 = %xC2-DF UTF8-tail
  predicate IsChar2(c: seq<byte>) { |c| == 2 && 0xC2 <= c[0] <= 0xDF && IsTail(c[1]) }

  // UTF8-3 = %xE0 %xA0-BF UTF8-tail / %xE1-EC 2( UTF8-tail ) /
  //          %xED %x80-9F UTF8-tail / %xEE-EF 2( UTF8-tail )
  predicate IsChar3(c: seq<byte>) {
    && |c| == 3
    && IsTail(c[2])
    && (|| (c[0] == 0xE0 && 0xA0 <= c[1] <= 0xBF)
        || (0xE1 <= c[0] <= 0xEC && IsTail(c[1]))
        || (c[0] == 0xED && 0x80 <= c[1] <= 0x9F)
        || (0xEE <= c[0] <= 0xEF && IsTail(c[1])))
  }

  // UTF8-4 = %xF0 %x90-BF 2( UTF8-tail ) / %xF1-F3 3( UTF8-tail ) /
  //          %xF4 %x80-8F 2( UTF8-tail )
  predicate IsChar4(c: seq<byte>) {
    && |c| == 4
    && IsTail(c[2]) && IsTail(c[3])
    && (|| (c[0] == 0xF0 && 0x90 <= c[1] <= 0xBF)
        || (0xF1 <= c[0] <= 0xF3 && IsTail(c[1]))
        || (c[0] == 0xF4 && 0x80 <= c[1] <= 0x8F))
  }

  // UTF8-char = UTF8-1 / UTF8-2 / UTF8-3 / UTF8-4
  predicate IsChar(c: seq<byte>) { IsChar1(c) || IsChar2(c) || IsChar3(c) || IsChar4(c) }

  // UTF8-octets = *( UTF8-char )
  predicate Utf8Octets(s: seq<byte>)
    decreases |s|
  {
    || s == []
    || (1 <= |s| && IsChar(s[..1]) && Utf8Octets(s[1..]))
    || (2 <= |s| && IsChar(s[..2]) && Utf8Octets(s[2..]))
    || (3 <= |s| && IsChar(s[..3]) && Utf8Octets(s[3..]))
    || (4 <= |s| && IsChar(s[..4]) && Utf8Octets(s[4..]))
  }

  /** A byte that no UTF8-char starts with. */
  predicate CannotStart(b: byte) { (0x80 <= b <= 0xC1) || 0xF5 <= b }

  /** The second byte a lead byte of a three- or four-byte character
      admits. */
  predicate SecondFits(lead: byte, b: byte) {
    if lead == 0xE0 then 0xA0 <= b <= 0xBF
    else if lead == 0xED then 0x80 <= b <= 0x9F
    else if lead == 0xF0 then 0x90 <= b <= 0xBF
    else if lead == 0xF4 then 0x80 <= b <= 0x8F
    else IsTail(b)
  }

  /** The length of the character that `s` starts with, 0 when `s` does not
      start with a complete, well-formed character. As in `from_utf8`, the
      lead byte decides the only candidate length. */
  function LeadLength(s: seq<byte>): (n: nat)
    ensures n <= 4 && n <= |s|
  {
    if s == [] then 0
    else if s[0] <= 0x7F then 1
    else if 0xC2 <= s[0] <= 0xDF then
      (if 2 <= |s| && IsTail(s[1]) then 2 else 0)
    else if 0xE0 <= s[0] <= 0xEF then
      (if 3 <= |s| && SecondFits(s[0], s[1]) && IsTail(s[2]) then 3 else 0)
    else if 0xF0 <= s[0] <= 0xF4 then
      (if 4 <= |s| && SecondFits(s[0], s[1]) && IsTail(s[2]) && IsTail(s[3]) then 4 else 0)
    else 0
  }

  /** LeadLength finds exactly the UTF8-char of the ABNF that `s` starts
      with, and no other length of prefix is one. */
  lemma LeadLengthIsChar(s: seq<byte>)
    ensures LeadLength(s) > 0 ==> IsChar(s[..LeadLength(s)])
    ensures forall k :: 1 <= k <= |s| && IsChar(s[..k]) ==> k == LeadLength(s)
    ensures s != [] && CannotStart(s[0]) ==> LeadLength(s) == 0
  {
    forall k | 1 <= k <= |s| && IsChar(s[..k])
      ensures k == LeadLength(s)
    {
      var c := s[..k];
      assert c[0] == s[0];
      assert k >= 2 ==> c[1] == s[1];
      assert k >= 3 ==> c[2] == s[2];
      assert k >= 4 ==> c[3] == s[3];
    }
  }

  /** Well-formed UTF-8 read character by character from the front, the
      way `from_utf8` reads it; Utf8OctetsIffWellFormed shows that this is
      the ABNF's UTF8-octets. */
  predicate WellFormed(s: seq<byte>)
    decreases |s|
  {
    s == [] || (LeadLength(s) > 0 && WellFormed(s[LeadLength(s)..]))
  }

  /** The greedy scan of `from_utf8`: consume complete characters from the
      front until the next bytes do not form one. */
  function ValidUpTo(s: seq<byte>): (v: nat)
    ensures v <= |s|
    decreases |s|
  {
    var n := LeadLength(s);
    if n == 0 then 0 else n + ValidUpTo(s[n..])
  }

  /** The ABNF of RFC 3629 and the character-by-character reading agree. */
  lemma {:induction false} Utf8OctetsIffWellFormed(s: seq<byte>)
    ensures Utf8Octets(s) <==> WellFormed(s)
    decreases |s|
  {
    if s != [] {
      LeadLengthIsChar(s);
      var n := LeadLength(s);
      if n > 0 {
        Utf8OctetsIffWellFormed(s[n..]);
      }
    }
  }

  /** LeadLength only looks at the bytes of the character it finds. */
  lemma LeadLengthPrefix(s: seq<byte>, t: seq<byte>)
    requires LeadLength(s) > 0
    requires LeadLength(s) <= |t| && t[..LeadLength(s)] == s[..LeadLength(s)]
    ensures LeadLength(t) == LeadLength(s)
  {
    var n := LeadLength(s);
    assert t[0] == t[..n][0] == s[..n][0] == s[0];
    assert n >= 2 ==> t[1] == t[..n][1] == s[..n][1] == s[1];
    assert n >= 3 ==> t[2] == t[..n][2] == s[..n][2] == s[2];
    assert n >= 4 ==> t[3] == t[..n][3] == s[..n][3] == s[3];
  }

  /** A sequence is well-formed exactly when the scan consumes all of it. */
  lemma {:induction false} WellFormedIffScanned(s: seq<byte>)
    ensures WellFormed(s) <==> ValidUpTo(s) == |s|
    decreases |s|
  {
    if s != [] {
      var n := LeadLength(s);
      if n > 0 {
        WellFormedIffScanned(s[n..]);
        assert WellFormed(s) <==> WellFormed(s[n..]);
      }
    }
  }

  /** The prefix the scan accepts is well-formed. */
  lemma {:induction false} ValidPrefixWellFormed(s: seq<byte>)
    ensures WellFormed(s[..ValidUpTo(s)])
    decreases |s|
  {
    var n := LeadLength(s);
    if n > 0 {
      ValidPrefixWellFormed(s[n..]);
      var p := s[..ValidUpTo(s)];
      assert p[..n] == s[..n];
      assert p[n..] == s[n..][..ValidUpTo(s[n..])];
    }
  }

  /** Every well-formed prefix of `s` is at most as long as the scan went. */
  lemma {:induction false} WellFormedPrefixBound(s: seq<byte>, k: nat)
    requires k <= |s| && WellFormed(s[..k])
    ensures k <= ValidUpTo(s)
    decreases k
  {
    if k > 0 {
      var t := s[..k];
      var n := LeadLength(t);
      LeadLengthPrefix(t, s);
      assert t[n..] == s[n..][..k - n];
      WellFormedPrefixBound(s[n..], k - n);
    }
  }

  /** ValidUpTo is the length of the longest well-formed prefix. */
  lemma LongestWellFormedPrefix(s: seq<byte>)
    ensures WellFormed(s[..ValidUpTo(s)])
    ensures forall k :: ValidUpTo(s) < k <= |s| ==> !WellFormed(s[..k])
  {
    ValidPrefixWellFormed(s);
    forall k | ValidUpTo(s) < k <= |s|
      ensures !WellFormed(s[..k])
    {
      if WellFormed(s[..k]) {
        WellFormedPrefixBound(s, k);
      }
    }
  }

  /** Concatenating well-formed sequences gives a well-formed sequence. */
  lemma {:induction false} WellFormedConcat(a: seq<byte>, b: seq<byte>)
    requires WellFormed(a) && WellFormed(b)
    ensures WellFormed(a + b)
    decreases |a|
  {
    if a == [] {
      assert a + b == b;
    } else {
      var n := LeadLength(a);
      assert WellFormed(a[n..] + b) by { WellFormedConcat(a[n..], b); }
      assert LeadLength(a + b) == n by {
        assert (a + b)[..n] == a[..n];
        LeadLengthPrefix(a, a + b);
      }
      assert (a + b)[n..] == a[n..] + b;
    }
  }

  /** If `w` is a prefix of a well-formed `s`, the scan of `w` stops on a
      character boundary of `s`: the rest of `s` from there is well-formed,
      and what the scan left of `w` is at most three bytes, the start of one
      character that `w` cuts off. */
  lemma {:induction false} PrefixOfWellFormed(s: seq<byte>, w: seq<byte>)
    requires WellFormed(s) && w <= s
    ensures WellFormed(s[ValidUpTo(w)..])
    ensures |w| - ValidUpTo(w) <= 3
    ensures LeadLength(w[ValidUpTo(w)..]) == 0
    decreases |s|
  {
    if s != [] {
      var c := LeadLength(s);
      if |w| >= c {
        LeadLengthPrefix(s, w);
        assert w[c..] <= s[c..];
        PrefixOfWellFormed(s[c..], w[c..]);
        assert s[c..][ValidUpTo(w[c..])..] == s[ValidUpTo(w)..];
        assert w[c..][ValidUpTo(w[c..])..] == w[ValidUpTo(w)..];
      }
    }
  }

  lemma DropConcat(a: seq<byte>, b: seq<byte>, v: nat)
    requires v <= |a|
    ensures (a + b)[v..] == a[v..] + b
  {
  }

  /** When a buffer is followed by more of a well-formed text, what the scan
      of the buffer leaves is the start of one character, at most three
      bytes, and it followed by the rest of the text is well-formed. */
  lemma CarryOver(window: seq<byte>, rest: seq<byte>)
    requires WellFormed(window + rest)
    ensures |window[ValidUpTo(window)..]| <= 3
    ensures LeadLength(window[ValidUpTo(window)..]) == 0
    ensures WellFormed(window[ValidUpTo(window)..] + rest)
  {
    assert window <= window + rest;
    PrefixOfWellFormed(window + rest, window);
    DropConcat(window, rest, ValidUpTo(window));
  }

  /** What `core::str::from_utf8` reports about a byte slice. */
  datatype Decoding = Decoded | Invalid(validUpTo: nat)

  /** `core::str::from_utf8`: the greedy scan decides. */
  function FromUtf8(s: seq<byte>): (d: Decoding)
    ensures d.Invalid? ==> d.validUpTo < |s|
  {
    var v := ValidUpTo(s);
    if v == |s| then Decoded else Invalid(v)
  }

  /** What `from_utf8` promises: Ok exactly for well-formed input; otherwise
      the error's `valid_up_to` is the length of the longest well-formed
      prefix, short of the whole input. */
  lemma FromUtf8Meaning(s: seq<byte>)
    ensures FromUtf8(s).Decoded? <==> WellFormed(s)
    ensures FromUtf8(s).Invalid? ==>
      && FromUtf8(s).validUpTo < |s|
      && WellFormed(s[..FromUtf8(s).validUpTo])
      && forall k :: FromUtf8(s).validUpTo < k <= |s| ==> !WellFormed(s[..k])
  {
    WellFormedIffScanned(s);
    LongestWellFormedPrefix(s);
  }
}

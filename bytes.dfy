/** Byte-level vocabulary shared by the model: octets, 16-bit ports, ASCII
    text, zero padding, the UTF-8 well-formedness test that Rust's
    `String::from_utf8` applies, and the trimming of NUL characters that
    `str::trim_matches(char::from(0))` performs. */
module Bytes {

  /** An octet, Rust's `u8`. */
  newtype byte = b: int | 0 <= b < 256

  /** A port number, Rust's `u16`. */
  newtype u16 = n: int | 0 <= n < 65536

  /** Every character of `s` lies in the 7-bit ASCII range. */
  predicate IsAscii(s: string) {
    forall i :: 0 <= i < |s| ==> s[i] as int < 128
  }

  /** The bytes of an ASCII string, as `str::as_bytes` yields them. */
  function Ascii(s: string): (r: seq<byte>)
    requires IsAscii(s)
    ensures |r| == |s|
    ensures forall i :: 0 <= i < |s| ==> r[i] as int == s[i] as int
  {
    seq(|s|, i requires 0 <= i < |s| => s[i] as int as byte)
  }

  lemma AsciiAppend(a: string, b: string)
    requires IsAscii(a) && IsAscii(b)
    ensures IsAscii(a + b)
    ensures Ascii(a + b) == Ascii(a) + Ascii(b)
  {
  }

  /** `n` zero bytes: the unused tail of a zero-initialised Rust array. */
  function Zeros(n: nat): (r: seq<byte>)
    ensures |r| == n
    ensures forall i :: 0 <= i < n ==> r[i] == 0
  {
    seq(n, _ => 0)
  }

  predicate AllZero(s: seq<byte>) {
    forall i :: 0 <= i < |s| ==> s[i] == 0
  }

  // ---------------------------------------------------------------------
  // UTF-8 well-formedness
  // ---------------------------------------------------------------------

  /** A continuation byte 10xxxxxx. */
  predicate IsContinuation(b: byte) {
    0x80 <= b <= 0xBF
  }

  /** What a first byte announces: the width of the character it starts (0
      when no well-formed character starts with it) and the range its second
      byte must lie in. */
  datatype Lead = Lead(width: nat, lo: byte, hi: byte)

  /** The first-byte column of the table of well-formed UTF-8 byte sequences
      of the Unicode standard (section 3.9, table 3-7); its narrow second-byte
      ranges exclude overlong forms, surrogates and code points above
      U+10FFFF. */
  function LeadOf(b: byte): (lead: Lead)
    ensures lead.width <= 4
    ensures b < 0x80 <==> lead.width == 1
    ensures lead.width >= 2 ==> IsContinuation(lead.lo) && IsContinuation(lead.hi)
  {
    if b < 0x80 then Lead(1, 0, 0)
    else if 0xC2 <= b <= 0xDF then Lead(2, 0x80, 0xBF)
    else if b == 0xE0 then Lead(3, 0xA0, 0xBF)
    else if 0xE1 <= b <= 0xEC || 0xEE <= b <= 0xEF then Lead(3, 0x80, 0xBF)
    else if b == 0xED then Lead(3, 0x80, 0x9F)
    else if b == 0xF0 then Lead(4, 0x90, 0xBF)
    else if 0xF1 <= b <= 0xF3 then Lead(4, 0x80, 0xBF)
    else if b == 0xF4 then Lead(4, 0x80, 0x8F)
    else Lead(0, 0, 0)
  }

  /** The length of the well-formed UTF-8 character that starts `s`; 0 when
      `s` does not start with one. */
  function CharWidth(s: seq<byte>): (n: nat)
    ensures n <= 4 && n <= |s|
    ensures s != [] && s[0] < 0x80 ==> n == 1
    ensures s != [] && s[0] >= 0x80 && n > 0 ==> n >= 2
  {
    if |s| == 0 then 0
    else
      var lead := LeadOf(s[0]);
      if lead.width <= 1 then lead.width
      else if |s| >= lead.width && lead.lo <= s[1] <= lead.hi
              && (lead.width < 3 || IsContinuation(s[2]))
              && (lead.width < 4 || IsContinuation(s[3]))
      then lead.width
      else 0
  }

  /** The bytes after the first of a character are continuation bytes,
      never below 0x80. */
  lemma CharWidthContinuation(s: seq<byte>)
    ensures forall i :: 1 <= i < CharWidth(s) ==> s[i] >= 0x80
  {
  }

  /** `s` is a sequence of well-formed UTF-8 characters: exactly the inputs for
      which `String::from_utf8(s)` is `Ok` rather than an error that
      `unwrap` turns into a panic. */
  predicate IsUtf8(s: seq<byte>)
    decreases |s|
  {
    s == [] || (CharWidth(s) > 0 && IsUtf8(s[CharWidth(s)..]))
  }

  /** The width of a character depends only on its own bytes. */
  lemma CharWidthOfPrefix(s: seq<byte>, t: seq<byte>)
    requires CharWidth(s) > 0
    requires |t| >= CharWidth(s) && t[..CharWidth(s)] == s[..CharWidth(s)]
    ensures CharWidth(t) == CharWidth(s)
  {
    var n := CharWidth(s);
    assert t[0] == s[0];
    assert n >= 2 ==> t[1] == s[1];
    assert n >= 3 ==> t[2] == s[2];
    assert n >= 4 ==> t[3] == s[3];
  }

  /** ASCII bytes are single-byte characters, so an ASCII payload always decodes. */
  lemma {:induction false} SmallBytesAreUtf8(s: seq<byte>)
    requires forall i :: 0 <= i < |s| ==> s[i] < 0x80
    ensures IsUtf8(s)
  {
    if s != [] {
      SmallBytesAreUtf8(s[1..]);
    }
  }

  /** A well-formed character followed by well-formed text is well-formed
      text. */
  lemma Utf8Cons(s: seq<byte>, n: nat)
    requires 0 < n && n == CharWidth(s) && IsUtf8(s[n..])
    ensures IsUtf8(s)
  {
  }

  /** Prefixing well-formed text with the first character of `a` keeps it
      well-formed. */
  lemma Utf8AppendStep(a: seq<byte>, b: seq<byte>)
    requires CharWidth(a) > 0 && IsUtf8(a[CharWidth(a)..] + b)
    ensures IsUtf8(a + b)
  {
    var n := CharWidth(a);
    var ab := a + b;
    assert CharWidth(ab) == n by {
      assert ab[..n] == a[..n];
      CharWidthOfPrefix(a, ab);
    }
    assert IsUtf8(ab[n..]) by {
      assert ab[n..] == a[n..] + b;
    }
    Utf8Cons(ab, n);
  }

  /** Well-formed texts concatenate to a well-formed text. */
  lemma {:induction false} Utf8Append(a: seq<byte>, b: seq<byte>)
    requires IsUtf8(a) && IsUtf8(b)
    ensures IsUtf8(a + b)
    decreases |a|
  {
    if a == [] {
      assert a + b == b;
    } else {
      Utf8Append(a[CharWidth(a)..], b);
      Utf8AppendStep(a, b);
    }
  }

  /** Zero padding can neither make nor break a UTF-8 text: a truncated
      multi-byte character stays malformed, because 0x00 is no continuation
      byte. */
  lemma {:induction false} Utf8ZeroPadding(p: seq<byte>, n: nat)
    ensures IsUtf8(p + Zeros(n)) <==> IsUtf8(p)
  {
    var s := p + Zeros(n);
    if IsUtf8(p) {
      SmallBytesAreUtf8(Zeros(n));
      Utf8Append(p, Zeros(n));
    } else if p != [] && IsUtf8(s) {
      var w := CharWidth(s);
      CharWidthContinuation(s);
      assert w <= |p|;
      assert p[..w] == s[..w];
      CharWidthOfPrefix(s, p);
      assert s[w..] == p[w..] + Zeros(n);
      Utf8ZeroPadding(p[w..], n);
    }
  }

  // ---------------------------------------------------------------------
  // Trimming NUL characters
  // ---------------------------------------------------------------------

  /** The number of NUL bytes that start `s`. */
  function LeadingNuls(s: seq<byte>): (n: nat)
    ensures n <= |s|
    ensures AllZero(s[..n])
    ensures n == |s| || s[n] != 0
    decreases |s|
  {
    if s != [] && s[0] == 0 then 1 + LeadingNuls(s[1..]) else 0
  }

  /** The number of NUL bytes that end `s`. */
  function TrailingNuls(s: seq<byte>): (n: nat)
    ensures n <= |s|
    ensures AllZero(s[|s| - n..])
    ensures n == |s| || s[|s| - n - 1] != 0
    decreases |s|
  {
    if s != [] && s[|s| - 1] == 0 then 1 + TrailingNuls(s[..|s| - 1]) else 0
  }

  /** NUL characters removed from both ends, as `trim_matches(char::from(0))`
      does. NUL is the single byte 0x00 in UTF-8 and no other character
      contains that byte, so trimming bytes trims characters. */
  function TrimNul(s: seq<byte>): (r: seq<byte>)
    ensures LeadingNuls(s) + |r| <= |s|
    ensures r == s[LeadingNuls(s)..LeadingNuls(s) + |r|]
    ensures AllZero(s[LeadingNuls(s) + |r|..])
    ensures r == [] || (r[0] != 0 && r[|r| - 1] != 0)
  {
    var k := LeadingNuls(s);
    var t := s[k..];
    var m := |t| - TrailingNuls(t);
    assert s[k + m..] == t[m..];
    assert t[..m] == s[k..k + m];
    assert m > 0 ==> t[..m][0] == s[k] && t[..m][m - 1] == t[m - 1];
    t[..m]
  }

  /** The trimmed text is determined by its contract: whatever NULs surround
      a core that neither starts nor ends with NUL, trimming yields that core. */
  lemma TrimNulUnique(s: seq<byte>, a: nat, core: seq<byte>)
    requires a + |core| <= |s| && s[a..a + |core|] == core
    requires AllZero(s[..a]) && AllZero(s[a + |core|..])
    requires core == [] || (core[0] != 0 && core[|core| - 1] != 0)
    ensures TrimNul(s) == core
  {
    var r := TrimNul(s);
    var k := LeadingNuls(s);
    if core == [] {
      assert forall i :: 0 <= i < |s| ==> s[i] == 0 by {
        forall i | 0 <= i < |s| ensures s[i] == 0 {
          if i < a { assert s[..a][i] == s[i]; } else { assert s[a..][i - a] == s[i]; }
        }
      }
    } else {
      assert s[a] == core[0];
      var e := a + |core| - 1;
      assert s[e] == core[|core| - 1];
    }
  }

  /** Trailing zero padding never reaches the trimmed text. */
  lemma TrimNulPadding(p: seq<byte>, n: nat)
    ensures TrimNul(p + Zeros(n)) == TrimNul(p)
  {
    var s := p + Zeros(n);
    var a := LeadingNuls(p);
    var core := TrimNul(p);
    assert s[..a] == p[..a];
    assert s[a..a + |core|] == p[a..a + |core|];
    assert s[a + |core|..] == p[a + |core|..] + Zeros(n);
    TrimNulUnique(s, a, core);
  }
}

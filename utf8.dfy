/** Well-formed UTF-8 byte sequences and character boundaries.

    A document of the suffix database is an owned string: a sequence of bytes
    that is well-formed UTF-8 (Unicode Standard, section 3.9, Table 3-7). Slicing
    a string at a byte offset is allowed only at a character boundary, which is
    tested on the single byte at that offset. This module states that test and
    proves that it is exactly what keeps both halves of a slice well-formed. */
module Utf8 {

  newtype Byte = b: int | 0 <= b < 0x100

  /** A continuation byte has the bit pattern 10xxxxxx. */
  predicate IsContinuation(b: Byte) {
    0x80 <= b < 0xC0
  }

  /** The number of bytes of the character that lead byte `b` introduces,
      or 0 when `b` cannot start a well-formed character. */
  function Width(b: Byte): (w: nat)
    ensures w <= 4
    ensures w == 0 <==> IsContinuation(b) || b == 0xC0 || b == 0xC1 || 0xF5 <= b
    ensures w == 1 <==> b < 0x80
  {
    if b < 0x80 then 1
    else if 0xC2 <= b < 0xE0 then 2
    else if 0xE0 <= b < 0xF0 then 3
    else if 0xF0 <= b < 0xF5 then 4
    else 0
  }

  /** `c` is exactly one well-formed encoded character (Table 3-7): a lead byte,
      as many continuation bytes as the lead announces, and the narrower ranges
      for the second byte after E0, ED, F0 and F4 that exclude overlong forms,
      surrogates and code points above U+10FFFF. */
  predicate WellFormedChar(c: seq<Byte>) {
    && |c| > 0
    && |c| == Width(c[0])
    && (forall k :: 1 <= k < |c| ==> IsContinuation(c[k]))
    && (|c| >= 2 ==>
          && (c[0] == 0xE0 ==> 0xA0 <= c[1])
          && (c[0] == 0xED ==> c[1] < 0xA0)
          && (c[0] == 0xF0 ==> 0x90 <= c[1])
          && (c[0] == 0xF4 ==> c[1] < 0x90))
  }

  /** `s` is well-formed UTF-8: a concatenation of well-formed characters. */
  predicate WellFormed(s: seq<Byte>)
    decreases |s|
  {
    |s| == 0 ||
    (Width(s[0]) > 0 && Width(s[0]) <= |s|
     && WellFormedChar(s[..Width(s[0])]) && WellFormed(s[Width(s[0])..]))
  }

  /** A string: a byte sequence that is well-formed UTF-8. */
  type Text = s: seq<Byte> | WellFormed(s) witness []

  /** Byte offset `i` of `s` is a character boundary: the start, the end, or an
      offset inside `s` whose byte is not a continuation byte. An offset past
      the end is not a boundary. */
  predicate IsCharBoundary(s: seq<Byte>, i: nat) {
    i == 0 || i == |s| || (i < |s| && !IsContinuation(s[i]))
  }

  /** Shifts every offset of `starts` by `w`. */
  function Shift(starts: set<nat>, w: nat): (r: set<nat>)
    ensures forall j :: j in r <==> j >= w && j - w in starts
  {
    set j | j in starts :: j + w
  }

  /** The byte offsets at which the characters of `s` begin, as decoding
      from the front finds them. */
  function CharStarts(s: Text): (r: set<nat>)
    decreases |s|
  {
    if |s| == 0 then {}
    else {0} + Shift(CharStarts(s[Width(s[0])..]), Width(s[0]))
  }

  /** Every character start lies inside the string. */
  lemma {:induction false} CharStartsInside(s: Text, i: nat)
    requires i in CharStarts(s)
    ensures i < |s|
    decreases |s|
  {
    if i != 0 {
      var w := Width(s[0]);
      CharStartsInside(s[w..], i - w);
    }
  }

  /** Inside a well-formed character, every byte after the first is a
      continuation byte, so no offset strictly inside it is a boundary. */
  lemma InsideFirstChar(s: Text, i: nat)
    requires |s| > 0 && 0 < i < Width(s[0])
    ensures i < |s| && !IsCharBoundary(s, i)
  {
  }

  /** A non-empty well-formed string starts on a lead byte. */
  lemma StartsWithLead(s: Text)
    requires |s| > 0
    ensures !IsContinuation(s[0])
  {
  }

  /** Boundaries of `s` at or after the end `w` of its first character are
      exactly the boundaries of the rest of `s`, shifted by `w`. */
  lemma BoundaryAfterFirstChar(s: Text, i: nat)
    requires |s| > 0 && Width(s[0]) <= i
    ensures IsCharBoundary(s, i) <==> IsCharBoundary(s[Width(s[0])..], i - Width(s[0]))
  {
    var w := Width(s[0]);
    var rest: Text := s[w..];
    if i == w && w < |s| {
      StartsWithLead(rest);
    }
  }

  /** The byte test for a boundary agrees with decoding: an offset of `s` is a
      character boundary exactly when it is the end of `s` or the start of one
      of its characters, that is, when it does not split an encoded character. */
  lemma {:induction false} BoundaryIffCharStart(s: Text, i: nat)
    ensures IsCharBoundary(s, i) <==> (i == |s| || i in CharStarts(s))
    decreases |s|
  {
    if |s| == 0 {
    } else if i == 0 {
    } else {
      var w := Width(s[0]);
      if i < w {
        InsideFirstChar(s, i);
        assert i !in CharStarts(s);
      } else {
        BoundaryAfterFirstChar(s, i);
        BoundaryIffCharStart(s[w..], i - w);
        assert i in CharStarts(s) <==> i - w in CharStarts(s[w..]);
      }
    }
  }

  /** Cutting a well-formed string at a character boundary leaves two
      well-formed strings: the bytes before the cut and the bytes from it. */
  lemma {:induction false} SplitAtBoundary(s: Text, i: nat)
    requires IsCharBoundary(s, i)
    ensures i <= |s|
    ensures WellFormed(s[..i]) && WellFormed(s[i..])
    decreases |s|
  {
    if i == 0 {
      assert s[i..] == s;
    } else if i == |s| {
      assert s[..i] == s;
    } else {
      var w := Width(s[0]);
      if i < w {
        InsideFirstChar(s, i);
      } else {
        BoundaryAfterFirstChar(s, i);
        var rest: Text := s[w..];
        SplitAtBoundary(rest, i - w);
        assert s[i..] == rest[i - w..];
        var p := s[..i];
        assert p[0] == s[0];
        assert p[..w] == s[..w];
        assert p[w..] == rest[..i - w];
      }
    }
  }
}

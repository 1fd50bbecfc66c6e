/** UTF-8 well-formedness as defined by the grammar in section 4 of RFC 3629,
    which is the check `std::str::from_utf8` performs before it accepts a
    chunk of bytes as text. */
module Utf8 {
  import opened Common

  /** UTF8-tail = %x80-BF */
  predicate IsTail(b: byte) { 0x80 <= b <= 0xBF }

  /** One UTF8-char of the grammar, written out alternative by alternative. */
  predicate IsChar(c: Bytes)
  {
    // UTF8-1
    || (|c| == 1 && c[0] <= 0x7F)
    // UTF8-2
    || (|c| == 2 && 0xC2 <= c[0] <= 0xDF && IsTail(c[1]))
    // UTF8-3
    || (|c| == 3 && c[0] == 0xE0 && 0xA0 <= c[1] <= 0xBF && IsTail(c[2]))
    || (|c| == 3 && 0xE1 <= c[0] <= 0xEC && IsTail(c[1]) && IsTail(c[2]))
    || (|c| == 3 && c[0] == 0xED && 0x80 <= c[1] <= 0x9F && IsTail(c[2]))
    || (|c| == 3 && 0xEE <= c[0] <= 0xEF && IsTail(c[1]) && IsTail(c[2]))
    // UTF8-4
    || (|c| == 4 && c[0] == 0xF0 && 0x90 <= c[1] <= 0xBF && IsTail(c[2]) && IsTail(c[3]))
    || (|c| == 4 && 0xF1 <= c[0] <= 0xF3 && IsTail(c[1]) && IsTail(c[2]) && IsTail(c[3]))
    || (|c| == 4 && c[0] == 0xF4 && 0x80 <= c[1] <= 0x8F && IsTail(c[2]) && IsTail(c[3]))
  }

  /** The length a character starting with lead byte `b` must have, or 0 when
      `b` cannot start a character at all. */
  function LeadLength(b: byte): nat
  {
    if b <= 0x7F then 1
    else if 0xC2 <= b <= 0xDF then 2
    else if 0xE0 <= b <= 0xEF then 3
    else if 0xF0 <= b <= 0xF4 then 4
    else 0
  }

  /** The range the second byte of a multi-byte character must fall in,
      which the grammar narrows for a few lead bytes to rule out overlong
      forms, surrogates and values above U+10FFFF. */
  predicate SecondOk(lead: byte, b: byte)
  {
    if lead == 0xE0 then 0xA0 <= b <= 0xBF
    else if lead == 0xED then 0x80 <= b <= 0x9F
    else if lead == 0xF0 then 0x90 <= b <= 0xBF
    else if lead == 0xF4 then 0x80 <= b <= 0x8F
    else IsTail(b)
  }

  /** The number of bytes of the character that `s` starts with, or 0 when
      `s` does not start with a well-formed character. */
  function CharWidth(s: Bytes): (n: nat)
    ensures n <= 4 && n <= |s|
    ensures n > 0 ==> n == LeadLength(s[0])
  {
    if |s| == 0 then 0
    else
      var n := LeadLength(s[0]);
      if n == 0 || |s| < n then 0
      else if n == 1 then 1
      else if SecondOk(s[0], s[1]) && (forall k | 2 <= k < n :: IsTail(s[k])) then n
      else 0
  }

  /** UTF8-octets = *( UTF8-char ), read greedily from the left. */
  predicate WellFormed(s: Bytes)
    decreases |s|
  {
    |s| == 0 || (CharWidth(s) > 0 && WellFormed(s[CharWidth(s)..]))
  }

  /** The width function recognises exactly the characters of the grammar:
      the prefix it measures is a character, and a character is measured
      as itself whatever follows it (no character is a prefix of another). */
  lemma CharWidthIsChar(s: Bytes)
    requires CharWidth(s) > 0
    ensures IsChar(s[..CharWidth(s)])
  {
  }

  lemma CharIsMeasured(c: Bytes, rest: Bytes)
    requires IsChar(c)
    ensures CharWidth(c + rest) == |c|
  {
    var s := c + rest;
    assert s[0] == c[0];
    if |c| >= 2 { assert s[1] == c[1]; }
    if |c| >= 3 { assert s[2] == c[2]; }
    if |c| == 4 { assert s[3] == c[3]; }
  }

  lemma CharWidthPrefix(s: Bytes, rest: Bytes)
    requires CharWidth(s) > 0
    ensures CharWidth(s + rest) == CharWidth(s)
  {
    var n := CharWidth(s);
    CharWidthIsChar(s);
    assert s + rest == s[..n] + (s[n..] + rest);
    CharIsMeasured(s[..n], s[n..] + rest);
  }

  /** Every sequence of grammar characters concatenates to well-formed text. */
  lemma {:induction false} CharsAreWellFormed(cs: seq<Bytes>)
    requires forall i | 0 <= i < |cs| :: IsChar(cs[i])
    ensures WellFormed(Flatten(cs))
    decreases |cs|
  {
    if |cs| > 0 {
      var init := cs[..|cs| - 1];
      CharsAreWellFormed(init);
      WellFormedAppend(Flatten(init), cs[|cs| - 1]);
    }
  }

  /** Every well-formed text splits into grammar characters. */
  lemma {:induction false} WellFormedSplits(s: Bytes) returns (cs: seq<Bytes>)
    requires WellFormed(s)
    ensures forall i | 0 <= i < |cs| :: IsChar(cs[i])
    ensures Flatten(cs) == s
    decreases |s|
  {
    if |s| == 0 {
      cs := [];
    } else {
      var n := CharWidth(s);
      CharWidthIsChar(s);
      var rest := WellFormedSplits(s[n..]);
      cs := [s[..n]] + rest;
      FlattenAppend([s[..n]], rest);
      assert Flatten([s[..n]]) == s[..n] by {
        assert [s[..n]][..0] == [];
      }
      assert s == s[..n] + s[n..];
    }
  }

  /** The concatenation of two well-formed texts is well-formed. */
  lemma {:induction false} WellFormedAppend(a: Bytes, b: Bytes)
    requires WellFormed(a) && WellFormed(b)
    ensures WellFormed(a + b)
    decreases |a|
  {
    if |a| == 0 {
      assert a + b == b;
    } else {
      var n := CharWidth(a);
      CharWidthPrefix(a, b);
      WellFormedAppend(a[n..], b);
      assert (a + b)[n..] == a[n..] + b;
    }
  }

  /** The concatenation of well-formed texts is well-formed. */
  lemma {:induction false} FlattenWellFormed(ts: seq<Bytes>)
    requires forall i | 0 <= i < |ts| :: WellFormed(ts[i])
    ensures WellFormed(Flatten(ts))
    decreases |ts|
  {
    if |ts| > 0 {
      FlattenWellFormed(ts[..|ts| - 1]);
      WellFormedAppend(Flatten(ts[..|ts| - 1]), ts[|ts| - 1]);
    }
  }

  /** A character cut anywhere inside is not well-formed text on its own:
      its first piece ends before the character does. */
  lemma CutCharIsIllFormed(c: Bytes, k: nat)
    requires IsChar(c) && 0 < k < |c|
    ensures !WellFormed(c[..k])
  {
    CharIsMeasured(c, []);
    assert c + [] == c;
    assert c[..k][0] == c[0];
  }

  /** The validation `from_utf8` performs, as a left-to-right scan. */
  method Validate(s: Bytes) returns (ok: bool)
    ensures ok <==> WellFormed(s)
  {
    var i := 0;
    while i < |s|
      invariant 0 <= i <= |s|
      invariant WellFormed(s) <==> WellFormed(s[i..])
      decreases |s| - i
    {
      var n := CharWidth(s[i..]);
      if n == 0 {
        return false;
      }
      assert s[i..][n..] == s[i + n..];
      i := i + n;
    }
    return true;
  }
}

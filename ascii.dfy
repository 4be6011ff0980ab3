/**
 * Bytes and the ASCII-only case folding that Rust's `eq_ignore_ascii_case`,
 * `to_ascii_lowercase` and `to_ascii_uppercase` perform: only 'A'..'Z' and
 * 'a'..'z' change, every other character is left alone.
 */
module Ascii {

  newtype byte = x: int | 0 <= x < 256

  /** One character per byte; for ASCII input this is the UTF-8 reading of the bytes. */
  function Chars(b: seq<byte>): (s: string)
  {
    seq(|b|, i requires 0 <= i < |b| => b[i] as int as char)
  }

  /** The bytes of a string whose characters all fit in one byte. */
  function Bytes(s: string): (b: seq<byte>)
    requires forall i :: 0 <= i < |s| ==> s[i] as int < 256
  {
    seq(|s|, i requires 0 <= i < |s| => s[i] as int as byte)
  }

  /** Reading bytes as characters and back loses nothing, in both directions. */
  lemma CharsOfBytes(s: string)
    requires forall i :: 0 <= i < |s| ==> s[i] as int < 256
    ensures Chars(Bytes(s)) == s
  {
  }

  lemma BytesOfChars(b: seq<byte>)
    ensures forall i :: 0 <= i < |Chars(b)| ==> Chars(b)[i] as int < 256
    ensures Bytes(Chars(b)) == b
  {
  }

  predicate IsUpperChar(c: char) { 'A' <= c <= 'Z' }

  predicate IsLowerChar(c: char) { 'a' <= c <= 'z' }

  function LowerChar(c: char): (d: char)
    ensures !IsUpperChar(d)
  {
    if IsUpperChar(c) then (c as int + 32) as char else c
  }

  function UpperChar(c: char): (d: char)
    ensures !IsLowerChar(d)
  {
    if IsLowerChar(c) then (c as int - 32) as char else c
  }

  function Lower(s: string): (r: string)
  {
    seq(|s|, i requires 0 <= i < |s| => LowerChar(s[i]))
  }

  function Upper(s: string): (r: string)
  {
    seq(|s|, i requires 0 <= i < |s| => UpperChar(s[i]))
  }

  /** No character of `s` is an ASCII capital letter. */
  predicate NoUpper(s: string)
  {
    forall i :: 0 <= i < |s| ==> !IsUpperChar(s[i])
  }

  /** Rust's `eq_ignore_ascii_case`: same length, and equal after ASCII lowercasing character by character. */
  predicate EqIgnoreCase(a: string, b: string)
  {
    |a| == |b| && forall i :: 0 <= i < |a| ==> LowerChar(a[i]) == LowerChar(b[i])
  }

  /** Lowercasing leaves no capital letter and keeps the string equal up to case. */
  lemma LowerIsLowercase(s: string)
    ensures NoUpper(Lower(s))
    ensures EqIgnoreCase(Lower(s), s)
  {
  }

  /** Comparing lowercased and comparing uppercased characters agree. */
  lemma LowerUpperCharAgree(x: char, y: char)
    ensures (LowerChar(x) == LowerChar(y)) == (UpperChar(x) == UpperChar(y))
  {
  }

  /** Case-insensitive equality is equality of the uppercased strings. */
  lemma EqIgnoreCaseIffUpperEqual(a: string, b: string)
    ensures EqIgnoreCase(a, b) <==> Upper(a) == Upper(b)
  {
    if |a| == |b| {
      forall i | 0 <= i < |a|
        ensures (LowerChar(a[i]) == LowerChar(b[i])) == (Upper(a)[i] == Upper(b)[i])
      {
        LowerUpperCharAgree(a[i], b[i]);
      }
      if Upper(a) == Upper(b) {
        assert forall i :: 0 <= i < |a| ==> Upper(a)[i] == Upper(b)[i];
      }
    }
  }

  lemma EqIgnoreCaseSymmetric(a: string, b: string)
    requires EqIgnoreCase(a, b)
    ensures EqIgnoreCase(b, a)
  {
  }

  lemma EqIgnoreCaseTransitive(a: string, b: string, c: string)
    requires EqIgnoreCase(a, b) && EqIgnoreCase(b, c)
    ensures EqIgnoreCase(a, c)
  {
  }
}

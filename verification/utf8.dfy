/** Byte lengths of UTF-8 encodings (RFC 3629, section 3).

    The program's strings are Rust `String`s, whose `len()` is the number of
    bytes of their UTF-8 encoding, not the number of characters. Both the
    non-emptiness checks and the account-size arithmetic use that length. */
module Utf8 {

  /** Number of bytes UTF-8 uses to encode the scalar value `c`. */
  function CharLength(c: char): (n: nat)
    ensures 1 <= n <= 4
    ensures n == 1 <==> c as int < 0x80
  {
    if c as int < 0x80 then 1
    else if c as int < 0x800 then 2
    else if c as int < 0x1_0000 then 3
    else 4
  }

  predicate IsAscii(s: string) {
    forall i :: 0 <= i < |s| ==> s[i] as int < 0x80
  }

  /** Byte length of the UTF-8 encoding of `s`: what `String::len` returns. */
  function Length(s: string): (n: nat)
    ensures |s| <= n <= 4 * |s|
    ensures n == 0 <==> s == []
    ensures n == |s| <==> IsAscii(s)
  {
    if s == [] then 0
    else
      var rest := Length(s[1..]);
      assert IsAscii(s) <==> s[0] as int < 0x80 && IsAscii(s[1..]) by {
        if IsAscii(s[1..]) && s[0] as int < 0x80 {
          forall i | 0 < i < |s| ensures s[i] as int < 0x80 {
            assert s[i] == s[1..][i - 1];
          }
        }
      }
      CharLength(s[0]) + rest
  }
}

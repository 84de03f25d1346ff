/**
 * The two views of a Rust `String` the program relies on: its characters
 * (Unicode scalar values, Dafny's `char`), as seen by `chars().count()` and
 * `trim()`, and its UTF-8 bytes, which is what Borsh stores.
 */
module Text {

  /** Rust's `char::is_whitespace`: the characters with the Unicode White_Space property. */
  predicate IsWhitespace(c: char) {
    c == ' ' || ('\t' <= c <= '\r') ||
    (c > '\U{7F}' &&
      (c == '\U{85}' || c == '\U{A0}' || c == '\U{1680}' ||
       ('\U{2000}' <= c <= '\U{200A}') ||
       c == '\U{2028}' || c == '\U{2029}' || c == '\U{202F}' || c == '\U{205F}' || c == '\U{3000}'))
  }

  /** Every character of `s` is whitespace (vacuously true of the empty string). */
  predicate IsBlank(s: string) {
    forall i | 0 <= i < |s| :: IsWhitespace(s[i])
  }

  /** Rust's `str::trim_start`: drops the longest whitespace prefix. */
  function TrimStart(s: string): (r: string)
    ensures |r| <= |s| && r == s[|s| - |r|..]
    ensures forall i | 0 <= i < |s| - |r| :: IsWhitespace(s[i])
    ensures r != [] ==> !IsWhitespace(r[0])
  {
    if s != [] && IsWhitespace(s[0]) then TrimStart(s[1..]) else s
  }

  /** Rust's `str::trim_end`: drops the longest whitespace suffix. */
  function TrimEnd(s: string): (r: string)
    ensures |r| <= |s| && r == s[..|r|]
    ensures forall i | |r| <= i < |s| :: IsWhitespace(s[i])
    ensures r != [] ==> !IsWhitespace(r[|r| - 1])
  {
    if s != [] && IsWhitespace(s[|s| - 1]) then TrimEnd(s[..|s| - 1]) else s
  }

  /**
   * Rust's `str::trim`. What the program asks of it is only whether it is
   * empty, which happens exactly when the string is blank.
   */
  function Trim(s: string): (r: string)
    ensures r == [] <==> IsBlank(s)
    ensures r != [] ==> !IsWhitespace(r[0]) && !IsWhitespace(r[|r| - 1])
  {
    TrimEnd(TrimStart(s))
  }

  /** Number of bytes of the UTF-8 encoding of one scalar value. */
  function CharLen(c: char): (n: nat)
    ensures 1 <= n <= 4
    ensures n == 1 <==> c < '\U{80}'
  {
    if c < '\U{80}' then 1
    else if c < '\U{800}' then 2
    else if c < '\U{10000}' then 3
    else 4
  }

  /** Rust's `str::len`: the length of the UTF-8 encoding, at least one and at most four bytes per character. */
  function ByteLen(s: string): (n: nat)
    ensures |s| <= n <= 4 * |s|
  {
    if s == [] then 0 else ByteLen(s[..|s| - 1]) + CharLen(s[|s| - 1])
  }

  predicate IsAscii(s: string) {
    forall i | 0 <= i < |s| :: s[i] < '\U{80}'
  }

  /** Byte length and character count agree exactly on ASCII strings. */
  lemma {:induction false} ByteLenIsCharCountIffAscii(s: string)
    ensures ByteLen(s) == |s| <==> IsAscii(s)
  {
    if s != [] {
      var init := s[..|s| - 1];
      ByteLenIsCharCountIffAscii(init);
      if IsAscii(s) {
        assert IsAscii(init) by {
          forall i | 0 <= i < |init| ensures init[i] < '\U{80}' { assert init[i] == s[i]; }
        }
      } else if IsAscii(init) {
        assert !(s[|s| - 1] < '\U{80}');
      }
    }
  }

  /** Concatenating ASCII strings gives an ASCII string. */
  lemma {:induction false} AsciiConcat(a: string, b: string)
    requires IsAscii(a) && IsAscii(b)
    ensures IsAscii(a + b)
  {
    forall i | 0 <= i < |a + b| ensures (a + b)[i] < '\U{80}' {
      if i < |a| { assert (a + b)[i] == a[i]; } else { assert (a + b)[i] == b[i - |a|]; }
    }
  }

  /** A string made of `n` copies of one character takes `n` times that character's bytes. */
  lemma {:induction false} ByteLenOfRepeat(c: char, n: nat)
    ensures ByteLen(seq(n, _ => c)) == n * CharLen(c)
  {
    if n > 0 {
      var s := seq(n, _ => c);
      assert s[..n - 1] == seq(n - 1, _ => c);
      ByteLenOfRepeat(c, n - 1);
    }
  }
}

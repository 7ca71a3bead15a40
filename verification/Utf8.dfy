/** Well-formed UTF-8 (section 4 of RFC 3629), one character per byte. */
module Utf8 {
  predicate Byte(c: char, lo: int, hi: int) { lo <= c as int <= hi }

  predicate Tail(c: char) { Byte(c, 0x80, 0xBF) }

  /** The number of bytes of the well-formed sequence at the front of `s`, 0 if there is none. */
  function HeadLength(s: string): (n: nat)
    ensures n <= |s|
  {
    if s == "" then 0
    else if Byte(s[0], 0x00, 0x7F) then 1
    else if |s| < 2 then 0
    else if Byte(s[0], 0xC2, 0xDF) then (if Tail(s[1]) then 2 else 0)
    else if |s| < 3 || !Tail(s[2]) then 0
    else if Byte(s[0], 0xE0, 0xE0) then (if Byte(s[1], 0xA0, 0xBF) then 3 else 0)
    else if Byte(s[0], 0xE1, 0xEC) || Byte(s[0], 0xEE, 0xEF) then (if Tail(s[1]) then 3 else 0)
    else if Byte(s[0], 0xED, 0xED) then (if Byte(s[1], 0x80, 0x9F) then 3 else 0)
    else if |s| < 4 || !Tail(s[3]) then 0
    else if Byte(s[0], 0xF0, 0xF0) then (if Byte(s[1], 0x90, 0xBF) then 4 else 0)
    else if Byte(s[0], 0xF1, 0xF3) then (if Tail(s[1]) then 4 else 0)
    else if Byte(s[0], 0xF4, 0xF4) then (if Byte(s[1], 0x80, 0x8F) then 4 else 0)
    else 0
  }

  predicate WellFormed(s: string) {
    s == "" || (HeadLength(s) > 0 && WellFormed(s[HeadLength(s)..]))
  }

  predicate Ascii(s: string) { forall i :: 0 <= i < |s| ==> s[i] as int < 0x80 }

  /** The code point of the sequence at the front. */
  function DecodeHead(s: string): int {
    match HeadLength(s)
    case 1 => s[0] as int
    case 2 => (s[0] as int - 0xC0) * 0x40 + (s[1] as int - 0x80)
    case 3 => (s[0] as int - 0xE0) * 0x1000 + (s[1] as int - 0x80) * 0x40 + (s[2] as int - 0x80)
    case 4 => (s[0] as int - 0xF0) * 0x4_0000 + (s[1] as int - 0x80) * 0x1000
              + (s[2] as int - 0x80) * 0x40 + (s[3] as int - 0x80)
    case _ => -1
  }

  /** A scalar value: any code point but the surrogates. */
  predicate Scalar(cp: int) { 0 <= cp <= 0x10FFFF && !(0xD800 <= cp < 0xE000) }

  lemma {:induction false} Append(a: string, b: string)
    requires WellFormed(a) && WellFormed(b)
    ensures WellFormed(a + b)
    decreases |a|
  {
    if a == "" {
      assert a + b == b;
    } else {
      var n := HeadLength(a);
      HeadOfConcat(a, b);
      Append(a[n..], b);
      assert (a + b)[n..] == a[n..] + b && HeadLength(a + b) == n;
    }
  }

  lemma HeadOfConcat(a: string, b: string)
    requires HeadLength(a) > 0
    ensures HeadLength(a + b) == HeadLength(a)
  {
  }
}

/** String helpers standing for the Python built-ins the contact store uses:
    `str.lower`, `str.isdigit`, the substring test `q in s`, `", ".join`,
    first-match search, and the number formatting of `strftime` and of the
    default object representation. */
module Text {

  /** `str.lower` on one character (ASCII letters only). */
  function LowerChar(c: char): char
  {
    if 'A' <= c <= 'Z' then (c as int + 32) as char else c
  }

  /** `str.lower`: every upper-case ASCII letter replaced by its lower-case form. */
  function Lower(s: string): (r: string)
    ensures |r| == |s|
    ensures forall i :: 0 <= i < |s| ==> r[i] == LowerChar(s[i])
  {
    seq(|s|, i requires 0 <= i < |s| => LowerChar(s[i]))
  }

  /** Lower-casing twice is lower-casing once, so `find(name.lower())` looks up `name`. */
  lemma LowerIdempotent(s: string)
    ensures Lower(Lower(s)) == Lower(s)
  {
  }

  predicate IsDigit(c: char)
  {
    '0' <= c <= '9'
  }

  /** `str.isdigit`: non-empty and made of decimal digits only. */
  predicate AllDigits(s: string)
  {
    |s| > 0 && forall i :: 0 <= i < |s| ==> IsDigit(s[i])
  }

  /** `needle in hay` for two strings: a left-to-right scan of the start positions. */
  function Contains(hay: string, needle: string): bool
    decreases |hay|
  {
    if |needle| > |hay| then false
    else if hay[..|needle|] == needle then true
    else Contains(hay[1..], needle)
  }

  /** `needle` sits in `hay` starting at position `i`. */
  predicate OccursAt(hay: string, needle: string, i: int)
  {
    0 <= i <= |hay| - |needle| && hay[i..i + |needle|] == needle
  }

  /** The scan finds the needle exactly when the needle occurs at some position. */
  lemma {:induction false} ContainsIff(hay: string, needle: string)
    ensures Contains(hay, needle) <==> exists i :: OccursAt(hay, needle, i)
    decreases |hay|
  {
    if |needle| > |hay| {
    } else if hay[..|needle|] == needle {
      assert OccursAt(hay, needle, 0);
    } else {
      ContainsIff(hay[1..], needle);
      if Contains(hay, needle) {
        var i :| OccursAt(hay[1..], needle, i);
        assert hay[i + 1..i + 1 + |needle|] == hay[1..][i..i + |needle|];
        assert OccursAt(hay, needle, i + 1);
      }
      if exists i :: OccursAt(hay, needle, i) {
        var i :| OccursAt(hay, needle, i);
        assert i != 0;
        assert hay[1..][i - 1..i - 1 + |needle|] == hay[i..i + |needle|];
        assert OccursAt(hay[1..], needle, i - 1);
      }
    }
  }

  /** Every string occurs in itself, with anything around it. */
  lemma ContainsInfix(a: string, b: string, c: string)
    ensures Contains(a + b + c, b)
  {
    ContainsIff(a + b + c, b);
    assert (a + b + c)[|a|..|a| + |b|] == b;
    assert OccursAt(a + b + c, b, |a|);
  }

  /** An occurrence inside an occurrence is an occurrence. */
  lemma ContainsTransitive(hay: string, mid: string, needle: string)
    requires Contains(hay, mid) && Contains(mid, needle)
    ensures Contains(hay, needle)
  {
    ContainsIff(hay, mid);
    ContainsIff(mid, needle);
    ContainsIff(hay, needle);
    var i :| OccursAt(hay, mid, i);
    var j :| OccursAt(mid, needle, j);
    forall k | 0 <= k < |needle|
      ensures hay[i + j..i + j + |needle|][k] == needle[k]
    {
      assert needle[k] == mid[j + k] == hay[i + j + k];
    }
    assert OccursAt(hay, needle, i + j);
  }

  /** The position of the first occurrence of `x` in `s`, or -1: the model of a
      `for ... break` scan and of `next((... for ... if ...), None)`. */
  function IndexOf<T(==)>(s: seq<T>, x: T): (i: int)
    ensures -1 <= i < |s|
    ensures i == -1 <==> x !in s
    ensures 0 <= i ==> s[i] == x && x !in s[..i]
  {
    if s == [] then -1
    else if s[0] == x then 0
    else
      var j := IndexOf(s[1..], x);
      assert s[1..][..j + 1] == s[1..j + 2] by { assert j + 2 <= |s| || j == -1; }
      if j < 0 then -1 else j + 1
  }

  /** `sep.join(parts)`. */
  function Join(sep: string, parts: seq<string>): string
  {
    if parts == [] then ""
    else if |parts| == 1 then parts[0]
    else parts[0] + sep + Join(sep, parts[1..])
  }

  /** Each joined part appears in the joined string. */
  lemma {:induction false} JoinContainsPart(sep: string, parts: seq<string>, k: nat)
    requires k < |parts|
    ensures Contains(Join(sep, parts), parts[k])
  {
    if |parts| == 1 {
      ContainsInfix("", parts[0], "");
      assert "" + parts[0] + "" == parts[0];
    } else if k == 0 {
      ContainsInfix("", parts[0], sep + Join(sep, parts[1..]));
      assert "" + parts[0] + (sep + Join(sep, parts[1..])) == Join(sep, parts);
    } else {
      JoinContainsPart(sep, parts[1..], k - 1);
      ContainsInfix(parts[0] + sep, Join(sep, parts[1..]), "");
      assert parts[0] + sep + Join(sep, parts[1..]) + "" == Join(sep, parts);
      ContainsTransitive(Join(sep, parts), Join(sep, parts[1..]), parts[k]);
    }
  }

  function DigitChar(d: int): char
    requires 0 <= d < 10
  {
    ('0' as int + d) as char
  }

  function DigitValue(c: char): int
    ensures IsDigit(c) ==> 0 <= DigitValue(c) < 10
  {
    c as int - '0' as int
  }

  function Pow10(w: nat): nat
  {
    if w == 0 then 1 else 10 * Pow10(w - 1)
  }

  /** The last `width` decimal digits of `n`, zero-padded (`%04d`, `%02d`). */
  function Pad(n: nat, width: nat): (s: string)
    ensures |s| == width
    ensures forall i :: 0 <= i < |s| ==> IsDigit(s[i])
  {
    if width == 0 then "" else Pad(n / 10, width - 1) + [DigitChar(n % 10)]
  }

  /** The number a string of decimal digits spells. */
  function DigitsValue(s: string): nat
    requires forall i :: 0 <= i < |s| ==> IsDigit(s[i])
  {
    if s == [] then 0 else DigitsValue(s[..|s| - 1]) * 10 + DigitValue(s[|s| - 1])
  }

  /** Reading back a zero-padded number gives the number, when it fits the width. */
  lemma {:induction false} PadRoundTrip(n: nat, width: nat)
    requires n < Pow10(width)
    ensures DigitsValue(Pad(n, width)) == n
  {
    if width > 0 {
      PadRoundTrip(n / 10, width - 1);
      var s := Pad(n, width);
      assert s[..|s| - 1] == Pad(n / 10, width - 1);
    }
  }

  function HexChar(d: int): char
    requires 0 <= d < 16
  {
    if d < 10 then DigitChar(d) else ('a' as int + d - 10) as char
  }

  /** Lower-case hexadecimal digits of `n`, without leading zeros (`%x`). */
  function Hex(n: nat): (s: string)
    ensures |s| > 0
  {
    if n < 16 then [HexChar(n)] else Hex(n / 16) + [HexChar(n % 16)]
  }
}

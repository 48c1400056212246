/**
 * The few PHP value semantics the core depends on: `empty()` on strings and
 * arrays, `is_array()`, `strlen()` on UTF-8 text, and the decimal rendering
 * of an array index inside an interpolated error message.
 */
module Php {
  import opened Wrappers

  /** PHP's `empty()` on a string: only "" and "0" are empty. */
  predicate EmptyString(s: string) {
    s == "" || s == "0"
  }

  /** PHP's `empty()` on an optional string (absent and `null` are empty). */
  predicate BlankText(v: Option<string>) {
    v.None? || EmptyString(v.value)
  }

  /**
   * A value read where the source expects an array. `NotArray` is any
   * non-null scalar, together with whether `empty()` holds of it (`false`,
   * `0`, "" and "0" do); `List` is a decoded JSON array.
   */
  datatype Coll<T> = NotArray(blank: bool) | List(items: seq<T>) {

    /** PHP's `empty()`: a blank scalar or an array with no elements. */
    predicate Blank() {
      match this
      case NotArray(b) => b
      case List(xs) => |xs| == 0
    }
  }

  /** PHP's `empty()` on an optional array-valued field. */
  predicate BlankColl<T>(v: Option<Coll<T>>) {
    v.None? || v.value.Blank()
  }

  /** The number of bytes UTF-8 encodes a character in. */
  function Utf8Width(c: char): (w: nat)
    ensures 1 <= w <= 4
  {
    if c as int < 0x80 then 1
    else if c as int < 0x800 then 2
    else if c as int < 0x1_0000 then 3
    else 4
  }

  /** PHP's `strlen()`: the byte length of the UTF-8 text, not its character count. */
  function StrLen(s: string): (n: nat)
    ensures |s| <= n <= 4 * |s|
  {
    if s == [] then 0 else Utf8Width(s[0]) + StrLen(s[1..])
  }

  predicate Ascii(s: string) {
    forall k :: 0 <= k < |s| ==> s[k] as int < 0x80
  }

  /** On ASCII text `strlen()` counts characters. */
  lemma {:induction false} AsciiStrLen(s: string)
    requires Ascii(s)
    ensures StrLen(s) == |s|
  {
    if s != [] {
      assert Ascii(s[1..]) by {
        forall k | 0 <= k < |s[1..]|
          ensures s[1..][k] as int < 0x80
        {
          assert s[1..][k] == s[k + 1];
        }
      }
      AsciiStrLen(s[1..]);
    }
  }

  /** One character takes its UTF-8 width. */
  lemma StrLenChar(c: char)
    ensures StrLen([c]) == Utf8Width(c)
  {
    assert [c][1..] == [];
  }

  /** `strlen()` of a concatenation is the sum: with StrLenChar, this fixes `strlen()` on every string. */
  lemma {:induction false} StrLenConcat(a: string, b: string)
    ensures StrLen(a + b) == StrLen(a) + StrLen(b)
  {
    if a != [] {
      assert (a + b)[0] == a[0];
      assert (a + b)[1..] == a[1..] + b;
      StrLenConcat(a[1..], b);
    } else {
      assert a + b == b;
    }
  }

  function DigitChar(d: nat): (c: char)
    requires d < 10
    ensures '0' <= c <= '9' && c as int - '0' as int == d
  {
    ('0' as int + d) as char
  }

  /** Decimal rendering of a list index, as PHP interpolates `$i` into a string. */
  function NatToString(n: nat): (s: string)
    ensures 1 <= |s|
    ensures forall k :: 0 <= k < |s| ==> '0' <= s[k] <= '9'
    ensures n < 10 <==> |s| == 1
    ensures s[0] == '0' <==> n == 0
  {
    if n < 10 then [DigitChar(n)] else NatToString(n / 10) + [DigitChar(n % 10)]
  }

  /** The number a string of decimal digits denotes, most significant digit first. */
  function DigitsValue(s: string): nat
    requires forall k :: 0 <= k < |s| ==> '0' <= s[k] <= '9'
  {
    if s == [] then 0 else DigitsValue(s[..|s| - 1]) * 10 + (s[|s| - 1] as int - '0' as int)
  }

  /** Reading the rendered index back as a decimal number gives the index. */
  lemma {:induction false} NatToStringValue(n: nat)
    ensures DigitsValue(NatToString(n)) == n
  {
    var s := NatToString(n);
    if n >= 10 {
      assert s[..|s| - 1] == NatToString(n / 10);
      NatToStringValue(n / 10);
    }
  }

  /** Distinct indices are rendered differently, so each message names its own item. */
  lemma NatToStringInjective(m: nat, n: nat)
    ensures NatToString(m) == NatToString(n) ==> m == n
  {
    NatToStringValue(m);
    NatToStringValue(n);
  }
}

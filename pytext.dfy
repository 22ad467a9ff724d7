/** The pieces of Python's string behaviour the bot relies on: truthiness of
    optional strings, `str()` of an integer, slicing with out-of-range indices,
    and `str.format` with a single `{name}` field. */
module PyText {

  datatype Option<T> = None | Some(value: T)

  /** Python truthiness of a value that is either None or a string: None and "" are false. */
  predicate Truthy(s: Option<string>) {
    s.Some? && s.value != ""
  }

  // ---------------------------------------------------------------------------
  // str(int)
  // ---------------------------------------------------------------------------

  predicate IsDigit(c: char) {
    '0' <= c <= '9'
  }

  predicate AllDigits(s: string) {
    forall i :: 0 <= i < |s| ==> IsDigit(s[i])
  }

  function DigitChar(d: nat): (c: char)
    requires d < 10
    ensures IsDigit(c) && c as int - '0' as int == d
  {
    ('0' as int + d) as char
  }

  /** Decimal digits of a natural number, most significant first, no leading zeros. */
  function NatToString(n: nat): (r: string)
    ensures r != [] && AllDigits(r)
    ensures |r| > 1 ==> r[0] != '0'
    decreases n
  {
    if n < 10 then [DigitChar(n)] else NatToString(n / 10) + [DigitChar(n % 10)]
  }

  /** Python's `str(i)` for an int: a minus sign for negatives, then the digits. */
  function IntToString(i: int): (r: string)
    ensures r != []
  {
    if i < 0 then "-" + NatToString(-i) else NatToString(i)
  }

  /** The value of a string of decimal digits. */
  function DigitsValue(s: string): nat
    requires AllDigits(s)
    decreases |s|
  {
    if s == [] then 0 else DigitsValue(s[..|s| - 1]) * 10 + (s[|s| - 1] as int - '0' as int)
  }

  /** Reads back an optionally signed decimal integer; None for anything else. */
  function ParseInt(s: string): Option<int> {
    if |s| > 1 && s[0] == '-' && AllDigits(s[1..]) then Some(0 - DigitsValue(s[1..]) as int)
    else if |s| > 0 && AllDigits(s) then Some(DigitsValue(s))
    else None
  }

  lemma {:induction false} NatToStringValue(n: nat)
    ensures DigitsValue(NatToString(n)) == n
    decreases n
  {
    if n >= 10 {
      NatToStringValue(n / 10);
      var s := NatToString(n);
      assert s[..|s| - 1] == NatToString(n / 10);
    }
  }

  /** `str()` of an int can always be read back to the same int. */
  lemma IntToStringRoundTrip(i: int)
    ensures ParseInt(IntToString(i)) == Some(i)
  {
    if i < 0 {
      NatToStringValue(-i);
      var s := IntToString(i);
      assert s[1..] == NatToString(-i);
    } else {
      NatToStringValue(i);
    }
  }

  /** Distinct ints have distinct `str()` renderings. */
  lemma IntToStringInjective(a: int, b: int)
    ensures IntToString(a) == IntToString(b) ==> a == b
  {
    IntToStringRoundTrip(a);
    IntToStringRoundTrip(b);
  }

  // ---------------------------------------------------------------------------
  // Slicing: s[a:b]
  // ---------------------------------------------------------------------------

  /** How Python normalises a slice bound: negatives count from the end, and
      everything is clamped into [0, n]. */
  function ClampIndex(i: int, n: nat): (k: nat)
    ensures k <= n
    ensures 0 <= i <= n ==> k == i
  {
    if i < 0 then (if i + n < 0 then 0 else i + n) else if i > n then n else i
  }

  /** Python's `s[a:b]` (step 1): never fails, empty when the bounds cross. */
  function Slice(s: string, a: int, b: int): (r: string)
    ensures |r| <= |s|
    ensures 0 <= a <= b <= |s| ==> r == s[a..b]
    ensures 0 <= b <= a ==> r == []
  {
    var lo, hi := ClampIndex(a, |s|), ClampIndex(b, |s|);
    if lo < hi then s[lo..hi] else []
  }

  // ---------------------------------------------------------------------------
  // UTF-16 offsets, as Telegram counts entity positions
  // ---------------------------------------------------------------------------

  /** Code units of one character in UTF-16: two for a character outside the
      Basic Multilingual Plane, one otherwise. */
  function Utf16Units(c: char): nat {
    if c as int >= 0x1_0000 then 2 else 1
  }

  function Utf16Length(s: string): nat
    decreases |s|
  {
    if s == [] then 0 else Utf16Units(s[0]) + Utf16Length(s[1..])
  }

  lemma {:induction false} Utf16LengthConcat(a: string, b: string)
    ensures Utf16Length(a + b) == Utf16Length(a) + Utf16Length(b)
    decreases |a|
  {
    if a == [] {
      assert a + b == b;
    } else {
      assert (a + b)[0] == a[0] && (a + b)[1..] == a[1..] + b;
      Utf16LengthConcat(a[1..], b);
    }
  }

  predicate InBmp(s: string) {
    forall i :: 0 <= i < |s| ==> s[i] as int < 0x1_0000
  }

  /** Inside the Basic Multilingual Plane every character is one code unit. */
  lemma {:induction false} Utf16LengthBmp(s: string)
    requires InBmp(s)
    ensures Utf16Length(s) == |s|
    decreases |s|
  {
    if s != [] {
      assert InBmp(s[1..]) by {
        forall i | 0 <= i < |s[1..]|
          ensures s[1..][i] as int < 0x1_0000
        {
          assert s[1..][i] == s[i + 1];
        }
      }
      Utf16LengthBmp(s[1..]);
    }
  }

  /** The character index at UTF-16 offset `units`: how many leading
      characters fit in that many code units. */
  function CodePointIndex(s: string, units: int): (k: nat)
    ensures k <= |s|
    decreases |s|
  {
    if s == [] || units < Utf16Units(s[0]) then 0
    else 1 + CodePointIndex(s[1..], units - Utf16Units(s[0]))
  }

  /** The text between UTF-16 offsets `offset` and `offset + length`. */
  function Utf16Slice(s: string, offset: int, length: int): string {
    Slice(s, CodePointIndex(s, offset), CodePointIndex(s, offset + length))
  }

  lemma {:induction false} CodePointIndexAfter(p: string, r: string, k: int)
    requires k >= 0
    ensures CodePointIndex(p + r, Utf16Length(p) + k) == |p| + CodePointIndex(r, k)
    decreases |p|
  {
    if p == [] {
      assert p + r == r;
    } else {
      assert (p + r)[0] == p[0] && (p + r)[1..] == p[1..] + r;
      CodePointIndexAfter(p[1..], r, k);
    }
  }

  /** The UTF-16 offsets at the two ends of `middle` fall on its first
      character and just past its last. */
  lemma SpanIndices(prefix: string, middle: string, rest: string)
    ensures CodePointIndex(prefix + (middle + rest), Utf16Length(prefix)) == |prefix|
    ensures CodePointIndex(prefix + (middle + rest), Utf16Length(prefix) + Utf16Length(middle))
         == |prefix| + |middle|
  {
    CodePointIndexAfter(prefix, middle + rest, 0);
    assert CodePointIndex(middle + rest, 0) == 0;
    CodePointIndexAfter(prefix, middle + rest, Utf16Length(middle));
    CodePointIndexAfter(middle, rest, 0);
    assert CodePointIndex(rest, 0) == 0;
  }

  /** A UTF-16 span that starts after `prefix` and covers exactly `middle`
      selects `middle`, whatever characters the text holds. */
  lemma Utf16SliceSpan(prefix: string, middle: string, rest: string)
    ensures Utf16Slice(prefix + middle + rest, Utf16Length(prefix), Utf16Length(middle)) == middle
  {
    var s := prefix + middle + rest;
    assert s == prefix + (middle + rest);
    SpanIndices(prefix, middle, rest);
    assert s[|prefix|..|prefix| + |middle|] == middle;
  }

  lemma {:induction false} CodePointIndexBmp(s: string, units: int)
    requires InBmp(s) && units >= 0
    ensures CodePointIndex(s, units) == if units <= |s| then units else |s|
    decreases |s|
  {
    if s != [] && units >= 1 {
      assert InBmp(s[1..]) by {
        forall i | 0 <= i < |s[1..]|
          ensures s[1..][i] as int < 0x1_0000
        {
          assert s[1..][i] == s[i + 1];
        }
      }
      CodePointIndexBmp(s[1..], units - 1);
    }
  }

  /** On text inside the Basic Multilingual Plane, UTF-16 offsets and
      character offsets agree. */
  lemma Utf16SliceBmp(s: string, offset: int, length: int)
    requires InBmp(s) && offset >= 0 && length >= 0
    ensures Utf16Slice(s, offset, length) == Slice(s, offset, offset + length)
  {
    CodePointIndexBmp(s, offset);
    CodePointIndexBmp(s, offset + length);
  }

  // ---------------------------------------------------------------------------
  // str.format(name=...)
  // ---------------------------------------------------------------------------

  /** A format string as literal text interleaved with `{name}` fields. */
  datatype Piece = Lit(text: string) | NameField

  /** `template.format(name=name)`: every `{name}` field replaced by `name`. */
  function Format(template: seq<Piece>, name: string): string {
    if template == [] then ""
    else
      (match template[0]
       case Lit(text) => text
       case NameField => name)
      + Format(template[1..], name)
  }

  lemma {:induction false} FormatConcat(t1: seq<Piece>, t2: seq<Piece>, name: string)
    ensures Format(t1 + t2, name) == Format(t1, name) + Format(t2, name)
    decreases |t1|
  {
    if t1 == [] {
      assert t1 + t2 == t2;
    } else {
      assert (t1 + t2)[0] == t1[0];
      assert (t1 + t2)[1..] == t1[1..] + t2;
      FormatConcat(t1[1..], t2, name);
    }
  }

  /** The name is spliced in verbatim wherever a `{name}` field stands. */
  lemma FormatSplicesName(before: seq<Piece>, after: seq<Piece>, name: string)
    ensures Format(before + [NameField] + after, name)
         == Format(before, name) + name + Format(after, name)
  {
    FormatConcat(before, [NameField] + after, name);
    FormatConcat([NameField], after, name);
    assert before + [NameField] + after == before + ([NameField] + after);
  }

  /** A template without a `{name}` field renders the same for every name. */
  lemma {:induction false} FormatWithoutField(template: seq<Piece>, a: string, b: string)
    requires forall i :: 0 <= i < |template| ==> template[i].Lit?
    ensures Format(template, a) == Format(template, b)
    decreases |template|
  {
    if template != [] {
      FormatWithoutField(template[1..], a, b);
    }
  }
}

/** The string built-ins of JavaScript that the task list relies on: `trim()`,
    `includes()`, `split()` on the character class `[,#]`, and the decimal
    conversions behind `String(n)` and `Number(s)` for integers. */
module JsStrings {

  import opened Optional

  /** The WhiteSpace and LineTerminator code points of ECMAScript: what `trim()` removes. */
  predicate IsSpace(c: char) {
    c == '\t' || c == '\n' || c == '\U{B}' || c == '\U{C}' || c == '\r' || c == ' '
    || c == '\U{A0}' || c == '\U{1680}' || ('\U{2000}' <= c <= '\U{200A}')
    || c == '\U{2028}' || c == '\U{2029}' || c == '\U{202F}' || c == '\U{205F}'
    || c == '\U{3000}' || c == '\U{FEFF}'
  }

  predicate AllSpace(s: string) {
    forall i :: 0 <= i < |s| ==> IsSpace(s[i])
  }

  /** How many white-space characters `s` starts with. */
  function LeadingSpaces(s: string): (n: nat)
    ensures n <= |s|
    ensures forall i :: 0 <= i < n ==> IsSpace(s[i])
    ensures n < |s| ==> !IsSpace(s[n])
  {
    if s == [] || !IsSpace(s[0]) then 0 else 1 + LeadingSpaces(s[1..])
  }

  /** How many white-space characters `s` ends with. */
  function TrailingSpaces(s: string): (n: nat)
    ensures n <= |s|
    ensures forall i :: |s| - n <= i < |s| ==> IsSpace(s[i])
    ensures n < |s| ==> !IsSpace(s[|s| - 1 - n])
  {
    if s == [] || !IsSpace(s[|s| - 1]) then 0 else 1 + TrailingSpaces(s[..|s| - 1])
  }

  /** `String.prototype.trim`: `s` without its leading and trailing white space. It is
      empty exactly when `s` is all white space, and otherwise neither starts nor ends
      with white space. */
  function Trim(s: string): (r: string)
    ensures r == [] <==> AllSpace(s)
    ensures r != [] ==> !IsSpace(r[0]) && !IsSpace(r[|r| - 1])
  {
    var lo := LeadingSpaces(s);
    if lo == |s| then []
    else
      var hi := |s| - TrailingSpaces(s);
      assert lo < hi;
      s[lo..hi]
  }

  /** `r` is the slice of `s` at `lo` and everything around it is white space. */
  predicate TrimmedAt(s: string, r: string, lo: int) {
    0 <= lo && lo + |r| <= |s| && s[lo..lo + |r|] == r
    && (forall i :: 0 <= i < lo ==> IsSpace(s[i]))
    && (forall i :: lo + |r| <= i < |s| ==> IsSpace(s[i]))
  }

  /** The trimmed string is a slice of `s`, with only white space dropped on either side. */
  lemma TrimIsSlice(s: string)
    ensures exists lo :: TrimmedAt(s, Trim(s), lo)
  {
    var lo := LeadingSpaces(s);
    if lo == |s| {
      assert TrimmedAt(s, Trim(s), 0);
    } else {
      assert TrimmedAt(s, Trim(s), lo);
    }
  }

  /** A string that already neither starts nor ends with white space is its own trim. */
  lemma TrimNoOp(s: string)
    requires s != [] && !IsSpace(s[0]) && !IsSpace(s[|s| - 1])
    ensures Trim(s) == s
  {
    assert LeadingSpaces(s) == 0 && TrailingSpaces(s) == 0;
  }

  lemma TrimIdempotent(s: string)
    ensures Trim(Trim(s)) == Trim(s)
  {
    if Trim(s) != [] {
      TrimNoOp(Trim(s));
    }
  }

  /** `needle` occurs in `hay` starting at index `i`. */
  predicate OccursAt(hay: string, needle: string, i: int) {
    0 <= i && i + |needle| <= |hay| && hay[i..i + |needle|] == needle
  }

  /** `String.prototype.includes`: `needle` is a substring of `hay`. */
  function Includes(hay: string, needle: string): (b: bool)
    ensures b <==> exists i :: OccursAt(hay, needle, i)
    decreases |hay|
  {
    if OccursAt(hay, needle, 0) then true
    else if hay == [] then false
    else
      OccursShift(hay, needle);
      Includes(hay[1..], needle)
  }

  /** An occurrence in `hay[1..]` is one in `hay`, one place further on, and back. */
  lemma OccursShift(hay: string, needle: string)
    requires hay != []
    ensures forall i :: OccursAt(hay[1..], needle, i) ==> OccursAt(hay, needle, i + 1)
    ensures forall i :: OccursAt(hay, needle, i) ==> i == 0 || OccursAt(hay[1..], needle, i - 1)
  {
    forall i | OccursAt(hay[1..], needle, i)
      ensures OccursAt(hay, needle, i + 1)
    {
      assert hay[1..][i..i + |needle|] == hay[i + 1..i + 1 + |needle|];
    }
    forall i | OccursAt(hay, needle, i) && i != 0
      ensures OccursAt(hay[1..], needle, i - 1)
    {
      assert hay[1..][i - 1..i - 1 + |needle|] == hay[i..i + |needle|];
    }
  }

  /** The characters `split(/[,#]/)` splits at. White space is not among them. */
  predicate IsTagSeparator(c: char) {
    c == ',' || c == '#'
  }

  /** The separator characters of `s`, in order. */
  function Separators(s: string): (seps: string)
    ensures forall i :: 0 <= i < |seps| ==> IsTagSeparator(seps[i])
  {
    if s == [] then []
    else if IsTagSeparator(s[0]) then [s[0]] + Separators(s[1..])
    else Separators(s[1..])
  }

  predicate SeparatorFree(s: string) {
    forall i :: 0 <= i < |s| ==> !IsTagSeparator(s[i])
  }

  /** Trimming a piece cannot bring a separator into it. */
  lemma TrimSeparatorFree(s: string)
    requires SeparatorFree(s)
    ensures SeparatorFree(Trim(s))
  {
    var r := Trim(s);
    TrimIsSlice(s);
    var lo :| TrimmedAt(s, r, lo);
    SliceSeparatorFree(s, lo, lo + |r|);
  }

  lemma SliceSeparatorFree(s: string, lo: int, hi: int)
    requires SeparatorFree(s) && 0 <= lo <= hi <= |s|
    ensures SeparatorFree(s[lo..hi])
  {
    forall i | 0 <= i < hi - lo
      ensures !IsTagSeparator(s[lo..hi][i])
    {
      assert s[lo..hi][i] == s[lo + i];
    }
  }

  /** `s.split(/[,#]/)`: one piece more than there are separators, no piece holding one. */
  function SplitTags(s: string): (parts: seq<string>)
    ensures |parts| == |Separators(s)| + 1
    ensures forall k :: 0 <= k < |parts| ==> SeparatorFree(parts[k])
  {
    if s == [] then [[]]
    else
      var rest := SplitTags(s[1..]);
      if IsTagSeparator(s[0]) then [[]] + rest
      else [[s[0]] + rest[0]] + rest[1..]
  }

  /** The pieces joined back together, `seps[k]` between piece `k` and piece `k + 1`. */
  function Interleave(parts: seq<string>, seps: string): string
    requires |parts| == |seps| + 1
  {
    if seps == [] then parts[0]
    else parts[0] + [seps[0]] + Interleave(parts[1..], seps[1..])
  }

  /** Splitting loses nothing: putting the separators back between the pieces gives `s`. */
  lemma {:induction false} SplitTagsRoundTrip(s: string)
    ensures Interleave(SplitTags(s), Separators(s)) == s
  {
    if s != [] {
      SplitTagsRoundTrip(s[1..]);
      var rest := SplitTags(s[1..]);
      if !IsTagSeparator(s[0]) {
        var parts := SplitTags(s);
        assert parts[1..] == rest[1..];
        if Separators(s) != [] {
          assert [s[0]] + rest[0] + [Separators(s)[0]] + Interleave(rest[1..], Separators(s)[1..])
              == [s[0]] + (rest[0] + [Separators(s)[0]] + Interleave(rest[1..], Separators(s)[1..]));
        }
      }
    }
  }

  /** A string without separators is a single piece. */
  lemma {:induction false} SplitTagsWhole(s: string)
    requires SeparatorFree(s)
    ensures SplitTags(s) == [s]
  {
    if s != [] {
      SplitTagsWhole(s[1..]);
      assert [s[0]] + s[1..] == s;
    }
  }

  /** Splitting at a separator splits the pieces of either side apart. */
  lemma {:induction false} SplitTagsAppend(a: string, c: char, b: string)
    requires IsTagSeparator(c)
    ensures SplitTags(a + [c] + b) == SplitTags(a) + SplitTags(b)
  {
    if a == [] {
      assert a + [c] + b == [c] + b;
      assert ([c] + b)[1..] == b;
    } else {
      assert (a + [c] + b)[1..] == a[1..] + [c] + b;
      SplitTagsAppend(a[1..], c, b);
    }
  }

  predicate IsDigit(c: char) {
    '0' <= c <= '9'
  }

  predicate AllDigits(s: string) {
    forall i :: 0 <= i < |s| ==> IsDigit(s[i])
  }

  function DigitChar(d: nat): (c: char)
    requires d < 10
    ensures IsDigit(c) && c as int - '0' as int == d
  {
    ('0' as int + d) as char
  }

  /** The decimal digits of `n`, most significant first, without leading zeros. */
  function NatToDecimal(n: nat): (r: string)
    ensures r != [] && AllDigits(r)
    ensures |r| > 1 ==> r[0] != '0'
  {
    if n < 10 then [DigitChar(n)] else NatToDecimal(n / 10) + [DigitChar(n % 10)]
  }

  /** `String(i)` for an integer. */
  function IntToDecimal(i: int): (r: string)
    ensures r != [] && !IsSpace(r[0]) && !IsSpace(r[|r| - 1])
  {
    if i < 0 then ['-'] + NatToDecimal(-i) else NatToDecimal(i)
  }

  /** The value of a string of decimal digits. */
  function DigitsValue(s: string): nat
    requires AllDigits(s)
  {
    if s == [] then 0
    else 10 * DigitsValue(s[..|s| - 1]) + (s[|s| - 1] as int - '0' as int)
  }

  lemma {:induction false} DigitsValueOfDecimal(n: nat)
    ensures DigitsValue(NatToDecimal(n)) == n
  {
    if n >= 10 {
      var r := NatToDecimal(n);
      assert r[..|r| - 1] == NatToDecimal(n / 10);
      DigitsValueOfDecimal(n / 10);
    }
  }

  /** `Number(s)` for a string, as far as integers go: white space around the number is
      ignored, a blank string is 0, and an optional sign followed by decimal digits is read
      as that integer. Anything else is `NaN`, here `None`. */
  function ParseNumber(s: string): Option<int> {
    var t := Trim(s);
    if t == [] then Some(0)
    else if (t[0] == '-' || t[0] == '+') && |t| > 1 && AllDigits(t[1..]) then
      var v: int := DigitsValue(t[1..]);
      Some(if t[0] == '-' then -v else v)
    else if AllDigits(t) then Some(DigitsValue(t))
    else None
  }

  /** `Number(String(i)) == i`: the decimal form of an integer reads back as that integer. */
  lemma DecimalRoundTrip(i: int)
    ensures ParseNumber(IntToDecimal(i)) == Some(i)
  {
    if i < 0 {
      NegativeRoundTrip(i);
    } else {
      NaturalRoundTrip(i);
    }
  }

  lemma NegativeRoundTrip(i: int)
    requires i < 0
    ensures ParseNumber(IntToDecimal(i)) == Some(i)
  {
    var d := NatToDecimal(-i);
    var t := IntToDecimal(i);
    assert t == ['-'] + d;
    ParseNegativeDigits(d);
    DigitsValueOfDecimal(-i);
    var v: int := DigitsValue(d);
    assert v == -i;
    assert ParseNumber(t) == Some(-v);
  }

  lemma NaturalRoundTrip(n: nat)
    ensures ParseNumber(IntToDecimal(n)) == Some(n)
  {
    assert IntToDecimal(n) == NatToDecimal(n);
    ParseDigits(NatToDecimal(n));
    DigitsValueOfDecimal(n);
  }

  lemma ParseDigits(d: string)
    requires d != [] && AllDigits(d)
    ensures ParseNumber(d) == Some(DigitsValue(d))
  {
    assert IsDigit(d[0]) && IsDigit(d[|d| - 1]);
    TrimNoOp(d);
  }

  lemma ParseNegativeDigits(d: string)
    requires d != [] && AllDigits(d)
    ensures ParseNumber(['-'] + d) == Some(-(DigitsValue(d) as int))
  {
    var t := ['-'] + d;
    assert t[0] == '-' && t[1..] == d && t[|t| - 1] == d[|d| - 1];
    assert IsDigit(d[|d| - 1]);
    TrimNoOp(t);
  }
}

/** The few Python string operations the scraper relies on: `str.strip()`,
    `str.replace(old, '')` and `str(n)` for a natural number. */
module Text {
  import Lists
  import opened Wrappers

  /** Python's `str.isspace()` for one character: the ASCII controls tab to
      carriage return, the information separators 0x1C-0x1F, the space, NEL,
      no-break space and the Unicode space and separator characters. */
  predicate IsSpace(c: char) {
    var k := c as int;
    || (0x09 <= k <= 0x0D) || (0x1C <= k <= 0x20)
    || k == 0x85 || k == 0xA0 || k == 0x1680
    || (0x2000 <= k <= 0x200A) || k == 0x2028 || k == 0x2029
    || k == 0x202F || k == 0x205F || k == 0x3000
  }

  predicate AllSpace(s: string) {
    forall k :: 0 <= k < |s| ==> IsSpace(s[k])
  }

  /** Neither end of `s` is whitespace. */
  predicate IsStripped(s: string) {
    s == [] || (!IsSpace(s[0]) && !IsSpace(s[|s| - 1]))
  }

  /** Number of whitespace characters at the start of `s`. */
  function LeadingSpaces(s: string): (n: nat)
    ensures n <= |s| && AllSpace(s[..n])
    ensures n < |s| ==> !IsSpace(s[n])
    decreases |s|
  {
    if s == [] || !IsSpace(s[0]) then 0
    else
      var n := 1 + LeadingSpaces(s[1..]);
      assert forall k :: 1 <= k < n ==> s[k] == s[1..][k - 1];
      n
  }

  /** Number of whitespace characters at the end of `s`. */
  function TrailingSpaces(s: string): (n: nat)
    ensures n <= |s| && AllSpace(s[|s| - n..])
    ensures n < |s| ==> !IsSpace(s[|s| - 1 - n])
    decreases |s|
  {
    if s == [] || !IsSpace(s[|s| - 1]) then 0
    else
      var front := s[..|s| - 1];
      var n := 1 + TrailingSpaces(front);
      assert forall k :: |s| - n <= k < |s| - 1 ==> s[k] == front[k];
      n
  }

  /** Python's `str.strip()`: the slice of `s` left after removing the
      whitespace at both ends. */
  function Strip(s: string): (r: string)
    ensures IsStripped(r) && |r| <= |s|
  {
    var i := LeadingSpaces(s);
    var t := s[i..];
    t[..|t| - TrailingSpaces(t)]
  }

  /** What `Strip` removes is whitespace from the two ends and nothing else. */
  lemma StripSlice(s: string)
    ensures exists i :: 0 <= i <= |s| - |Strip(s)| && Strip(s) == s[i..i + |Strip(s)|]
                        && AllSpace(s[..i]) && AllSpace(s[i + |Strip(s)|..])
  {
    var i := LeadingSpaces(s);
    var t := s[i..];
    var j := |t| - TrailingSpaces(t);
    SliceOfSlice(s, i, j);
    assert Strip(s) == t[..j];
    assert AllSpace(s[i + j..]);
  }

  lemma SliceOfSlice(s: string, i: nat, j: nat)
    requires i <= |s| && j <= |s| - i
    ensures s[i..][..j] == s[i..i + j] && s[i..][j..] == s[i + j..]
  {
  }

  /** Stripping yields nothing exactly when the text is all whitespace. */
  lemma StripEmpty(s: string)
    ensures Strip(s) == [] <==> AllSpace(s)
  {
    var i := LeadingSpaces(s);
    var t := s[i..];
    if i == |s| {
      assert s[..i] == s;
      assert t == [];
    } else {
      assert t[0] == s[i];
      var n := TrailingSpaces(t);
      assert |Strip(s)| == |t| - n;
    }
  }

  /** Stripping text that has no surrounding whitespace leaves it as it is. */
  lemma StripStripped(s: string)
    requires IsStripped(s)
    ensures Strip(s) == s
  {
    if s != [] {
      assert LeadingSpaces(s) == 0;
      assert s[0..] == s;
      assert TrailingSpaces(s) == 0;
      assert s[..|s|] == s;
    }
  }

  /** Stripping twice is the same as stripping once. */
  lemma StripIdempotent(s: string)
    ensures Strip(Strip(s)) == Strip(s)
  {
    StripStripped(Strip(s));
  }

  // ---------------------------------------------------------------------
  // str.replace(pat, '')

  /** `pat` occurs in `s` starting at index `i`. */
  predicate OccursAt(s: string, pat: string, i: int) {
    0 <= i && i + |pat| <= |s| && s[i..i + |pat|] == pat
  }

  /** Python's `s.replace(pat, '')`: scanning from the left, every occurrence of
      `pat` that does not overlap an earlier one is deleted. */
  function RemoveAll(s: string, pat: string): (r: string)
    requires pat != []
    ensures |r| <= |s|
    decreases |s|
  {
    if s == [] then []
    else if OccursAt(s, pat, 0) then RemoveAll(s[|pat|..], pat)
    else [s[0]] + RemoveAll(s[1..], pat)
  }

  /** The characters of `s` that do not appear in `pat`, in order. */
  function Outside(s: string, pat: string): string {
    Lists.FilterMap((c: char) => if c in pat then None else Some(c), s)
  }

  /** Text made only of characters of `pat` has nothing outside it. */
  lemma {:induction false} OutsideOfPatternChars(t: string, pat: string)
    requires forall k :: 0 <= k < |t| ==> t[k] in pat
    ensures Outside(t, pat) == []
    decreases |t|
  {
    if t != [] {
      OutsideOfPatternChars(t[1..], pat);
    }
  }

  /** Removal deletes only copies of `pat`: every character that does not
      occur in `pat` survives, in its original order. */
  lemma {:induction false} RemoveAllKeepsOtherCharacters(s: string, pat: string)
    requires pat != []
    ensures Outside(RemoveAll(s, pat), pat) == Outside(s, pat)
    decreases |s|
  {
    var f := (c: char) => if c in pat then None else Some(c);
    if s == [] {
    } else if OccursAt(s, pat, 0) {
      RemoveAllKeepsOtherCharacters(s[|pat|..], pat);
      assert s == pat + s[|pat|..];
      Lists.FilterMapAppend(f, pat, s[|pat|..]);
      OutsideOfPatternChars(pat, pat);
    } else {
      RemoveAllKeepsOtherCharacters(s[1..], pat);
      assert s == [s[0]] + s[1..];
      Lists.FilterMapAppend(f, [s[0]], s[1..]);
      Lists.FilterMapAppend(f, [s[0]], RemoveAll(s[1..], pat));
    }
  }

  /** Text without any occurrence of `pat` is returned unchanged. */
  lemma {:induction false} RemoveAllAbsent(s: string, pat: string)
    requires pat != []
    requires forall i :: !OccursAt(s, pat, i)
    ensures RemoveAll(s, pat) == s
    decreases |s|
  {
    if s != [] {
      assert !OccursAt(s, pat, 0);
      forall i ensures !OccursAt(s[1..], pat, i) {
        assert !OccursAt(s, pat, i + 1);
        if 0 <= i && i + |pat| <= |s| - 1 {
          assert s[1..][i..i + |pat|] == s[i + 1..i + 1 + |pat|];
        }
      }
      RemoveAllAbsent(s[1..], pat);
    }
  }

  /** Text in which no copy of `pat` starts is kept as it is, and removal
      goes on after it. With `RemoveAllLeading` this pins `RemoveAll` down:
      scanning left to right, text is kept up to the next copy, the copy is
      dropped, and the scan resumes after it. */
  lemma {:induction false} RemoveAllSkipsClean(x: string, y: string, pat: string)
    requires pat != []
    requires forall i :: 0 <= i < |x| ==> !OccursAt(x + y, pat, i)
    ensures RemoveAll(x + y, pat) == x + RemoveAll(y, pat)
    decreases |x|
  {
    var s := x + y;
    if x == [] {
      assert s == y;
    } else {
      assert !OccursAt(s, pat, 0);
      assert s[1..] == x[1..] + y;
      forall i | 0 <= i < |x[1..]|
        ensures !OccursAt(x[1..] + y, pat, i)
      {
        assert !OccursAt(s, pat, i + 1);
        if i + |pat| <= |s| - 1 {
          assert s[1..][i..i + |pat|] == s[i + 1..i + 1 + |pat|];
        }
      }
      RemoveAllSkipsClean(x[1..], y, pat);
      assert [x[0]] + (x[1..] + RemoveAll(y, pat)) == x + RemoveAll(y, pat);
    }
  }

  /** A leading copy of `pat` is dropped. */
  lemma RemoveAllLeading(s: string, pat: string)
    requires pat != []
    ensures RemoveAll(pat + s, pat) == RemoveAll(s, pat)
  {
    assert OccursAt(pat + s, pat, 0);
    assert (pat + s)[|pat|..] == s;
  }

  // ---------------------------------------------------------------------
  // str(n) for a natural number

  predicate IsDigit(c: char) {
    '0' <= c <= '9'
  }

  function DigitChar(d: nat): (c: char)
    requires d < 10
    ensures IsDigit(c) && c as int - '0' as int == d
  {
    ('0' as int + d) as char
  }

  /** Python's `str(n)`: decimal digits, no leading zero. */
  function Decimal(n: nat): (r: string)
    ensures r != [] && forall k :: 0 <= k < |r| ==> IsDigit(r[k])
    ensures r[0] == '0' ==> n == 0
    decreases n
  {
    if n < 10 then [DigitChar(n)]
    else Decimal(n / 10) + [DigitChar(n % 10)]
  }

  /** Reads back a string of decimal digits. */
  function ParseDecimal(s: string): nat
    requires forall k :: 0 <= k < |s| ==> IsDigit(s[k])
    decreases |s|
  {
    if s == [] then 0
    else
      assert IsDigit(s[|s| - 1]);
      ParseDecimal(s[..|s| - 1]) * 10 + (s[|s| - 1] as int - '0' as int)
  }

  lemma {:induction false} DecimalRoundTrip(n: nat)
    ensures ParseDecimal(Decimal(n)) == n
    decreases n
  {
    if n >= 10 {
      var s := Decimal(n);
      assert s[..|s| - 1] == Decimal(n / 10);
      DecimalRoundTrip(n / 10);
    }
  }

  /** Different numbers are written differently. */
  lemma DecimalInjective(a: nat, b: nat)
    requires Decimal(a) == Decimal(b)
    ensures a == b
  {
    DecimalRoundTrip(a);
    DecimalRoundTrip(b);
  }
}

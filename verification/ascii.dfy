/** The string operations the pipeline borrows from Python's `str`:
    `lower()`, `capitalize()` and `strip()`. Case mapping is restricted to
    ASCII letters; every other character is its own upper and lower case. */
module Ascii {

  predicate IsUpper(c: char) { 'A' <= c <= 'Z' }

  predicate IsLower(c: char) { 'a' <= c <= 'z' }

  /** A capital becomes the small letter at the same place in the alphabet;
      every other character is kept. */
  function ToLower(c: char): (d: char)
    ensures !IsUpper(d)
    ensures IsUpper(c) ==> d as int - 'a' as int == c as int - 'A' as int
    ensures !IsUpper(c) ==> d == c
  {
    if IsUpper(c) then (c as int + 32) as char else c
  }

  function ToUpper(c: char): (d: char)
    ensures !IsLower(d)
  {
    if IsLower(c) then (c as int - 32) as char else c
  }

  /** A string with no upper-case letter, i.e. one that `lower()` leaves alone. */
  predicate IsLowerCase(s: string) {
    forall i :: 0 <= i < |s| ==> !IsUpper(s[i])
  }

  /** Python's `str.lower()`. */
  function Lower(s: string): (r: string)
    ensures |r| == |s|
    ensures IsLowerCase(r)
    ensures IsLowerCase(s) ==> r == s
    ensures forall i :: 0 <= i < |s| ==> r[i] == ToLower(s[i])
  {
    seq(|s|, i requires 0 <= i < |s| => ToLower(s[i]))
  }

  /** Python's `str.capitalize()`: the first character upper-cased and the
      rest lower-cased. */
  function Capitalize(s: string): (r: string)
    ensures |r| == |s|
    ensures |s| > 0 ==> !IsLower(r[0])
    ensures |r| > 0 ==> IsLowerCase(r[1..])
  {
    if |s| == 0 then "" else [ToUpper(s[0])] + Lower(s[1..])
  }

  /** Capitalizing only changes case: lower-casing undoes it. */
  lemma CapitalizeLower(s: string)
    ensures Lower(Capitalize(s)) == Lower(s)
  {
    if |s| > 0 {
      var c := Capitalize(s);
      LowerOfUpper(s[0]);
      forall i | 0 <= i < |s|
        ensures Lower(c)[i] == Lower(s)[i]
      {
        if i > 0 {
          assert c[i] == Lower(s[1..])[i - 1];
        }
      }
    }
  }

  /** Each capital of `s` becomes the small letter at the same place in the
      alphabet, and every other character is kept. */
  lemma LowerMapsLetters(s: string)
    ensures var r := Lower(s);
            forall i :: 0 <= i < |s| ==>
              if IsUpper(s[i]) then r[i] as int - 'a' as int == s[i] as int - 'A' as int
              else r[i] == s[i]
  {
  }

  /** Lower-casing forgets an upper-casing. */
  lemma LowerOfUpper(c: char)
    ensures ToLower(ToUpper(c)) == ToLower(c)
  {
  }

  /** Capitalizing a lower-case word is undone by lower-casing. */
  lemma CapitalizeRoundTrip(w: string)
    requires IsLowerCase(w)
    ensures Lower(Capitalize(w)) == w
  {
    CapitalizeLower(w);
  }

  /** Distinct lower-case words stay distinct once capitalized. */
  lemma CapitalizeInjective(v: string, w: string)
    requires IsLowerCase(v) && IsLowerCase(w) && v != w
    ensures Capitalize(v) != Capitalize(w)
  {
    CapitalizeRoundTrip(v);
    CapitalizeRoundTrip(w);
  }

  /** The characters Python's `str.isspace()` accepts, hence those `strip()`
      removes: the ASCII controls 9-13 and 28-31, the space, and the Unicode
      separators and spaces. */
  predicate IsSpace(c: char)
    ensures IsSpace(c) <==> c in PythonWhitespace
  {
    var n := c as int;
    || 9 <= n <= 13
    || 28 <= n <= 32
    || n == 0x85 || n == 0xA0 || n == 0x1680
    || 0x2000 <= n <= 0x200A
    || n == 0x2028 || n == 0x2029 || n == 0x202F || n == 0x205F || n == 0x3000
  }

  /** The same characters, listed one by one. */
  const PythonWhitespace: set<char> :=
    {'\t', '\n', '\U{000B}', '\U{000C}', '\r', '\U{001C}', '\U{001D}', '\U{001E}', '\U{001F}',
     ' ', '\U{0085}', '\U{00A0}', '\U{1680}',
     '\U{2000}', '\U{2001}', '\U{2002}', '\U{2003}', '\U{2004}', '\U{2005}', '\U{2006}',
     '\U{2007}', '\U{2008}', '\U{2009}', '\U{200A}',
     '\U{2028}', '\U{2029}', '\U{202F}', '\U{205F}', '\U{3000}'}

  predicate AllSpace(s: string) {
    forall i :: 0 <= i < |s| ==> IsSpace(s[i])
  }

  /** The number of white-space characters `s` starts with. */
  function LeadingSpace(s: string): (n: nat)
    ensures n <= |s| && AllSpace(s[..n])
    ensures n == |s| || !IsSpace(s[n])
  {
    if |s| > 0 && IsSpace(s[0]) then
      var k := LeadingSpace(s[1..]);
      assert s[..k + 1] == [s[0]] + s[1..][..k];
      k + 1
    else 0
  }

  /** The length of `s` once its trailing white space is cut off. */
  function ContentEnd(s: string): (n: nat)
    ensures n <= |s| && AllSpace(s[n..])
    ensures n == 0 || !IsSpace(s[n - 1])
  {
    if |s| > 0 && IsSpace(s[|s| - 1]) then
      var k := ContentEnd(s[..|s| - 1]);
      assert s[k..] == s[..|s| - 1][k..] + [s[|s| - 1]];
      k
    else |s|
  }

  /** Python's `str.strip()` with no argument: the infix of `s` left after
      cutting white space off both ends. */
  function Strip(s: string): (r: string)
    ensures exists i :: 0 <= i <= |s| - |r| && r == s[i..i + |r|]
                        && AllSpace(s[..i]) && AllSpace(s[i + |r|..])
    ensures r == [] || (!IsSpace(r[0]) && !IsSpace(r[|r| - 1]))
    ensures r == [] <==> AllSpace(s)
  {
    var e := ContentEnd(s);
    var a := LeadingSpace(s[..e]);
    assert s[..e][..a] == s[..a];
    if a == e then
      assert s == s[..a] + s[e..];
      assert AllSpace(s);
      []
    else
      assert s[a] == s[..e][a];
      s[a..e]
  }
}

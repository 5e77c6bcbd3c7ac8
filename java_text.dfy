/** The java.lang.String operations the services rely on: isBlank, toUpperCase,
    toLowerCase and contains. Strings are sequences of Unicode scalar values. */
module JavaText {

  /** Character.isWhitespace: the ASCII controls TAB to CR and FS to US, the space,
      and the Unicode space, line and paragraph separators other than the three
      no-break spaces (U+00A0, U+2007, U+202F). */
  predicate IsWhitespace(c: char) {
    || '\t' <= c <= '\r'
    || '\U{1C}' <= c <= ' '
    || c == '\U{1680}'
    || ('\U{2000}' <= c <= '\U{200A}' && c != '\U{2007}')
    || c == '\U{2028}' || c == '\U{2029}' || c == '\U{205F}' || c == '\U{3000}'
  }

  /** String.isBlank: empty, or made of whitespace only. */
  predicate IsBlank(s: string) {
    forall i :: 0 <= i < |s| ==> IsWhitespace(s[i])
  }

  predicate IsAsciiCapital(c: char) {
    'A' <= c <= 'Z'
  }

  /** In the Cyrillic blocks from U+0460 on, letters come in adjacent
      capital/small pairs: capital at the even code point, except in U+04C1 to
      U+04CE, where the capital is at the odd one. */
  predicate IsCyrillicPairCapital(c: char) {
    var n := c as int;
    if '\U{4C1}' <= c <= '\U{4CE}' then n % 2 == 1
    else ('\U{460}' <= c <= '\U{481}' || '\U{48A}' <= c <= '\U{4BF}' || '\U{4D0}' <= c <= '\U{4FF}') && n % 2 == 0
  }

  predicate IsCyrillicPairSmall(c: char) {
    var n := c as int;
    if '\U{4C1}' <= c <= '\U{4CE}' then n % 2 == 0
    else ('\U{460}' <= c <= '\U{481}' || '\U{48A}' <= c <= '\U{4BF}' || '\U{4D0}' <= c <= '\U{4FF}') && n % 2 == 1
  }

  /** The upper-case form of one character under a locale without special rules
      (Character/String.toUpperCase). Besides ASCII, Latin-1 (the micro sign
      included) and Cyrillic (U+0400 to U+04FF), it covers the characters whose
      upper-case form consists only of ASCII letters: the sharp s, the dotless i,
      the long s and the Latin ligatures. */
  function UpperOf(c: char): (r: string)
    ensures |r| >= 1
  {
    if 'a' <= c <= 'z' then [(c as int - 32) as char]
    else if '\U{E0}' <= c <= '\U{FE}' && c != '\U{F7}' then [(c as int - 32) as char]
    else if c == '\U{FF}' then "\U{178}"
    else if c == '\U{B5}' then "\U{39C}"
    else if c == '\U{DF}' then "SS"
    else if c == '\U{131}' then "I"
    else if c == '\U{17F}' then "S"
    else if '\U{430}' <= c <= '\U{44F}' then [(c as int - 32) as char]
    else if '\U{450}' <= c <= '\U{45F}' then [(c as int - 80) as char]
    else if IsCyrillicPairSmall(c) then [(c as int - 1) as char]
    else if c == '\U{4CF}' then "\U{4C0}"
    else if c == '\U{FB00}' then "FF"
    else if c == '\U{FB01}' then "FI"
    else if c == '\U{FB02}' then "FL"
    else if c == '\U{FB03}' then "FFI"
    else if c == '\U{FB04}' then "FFL"
    else if c == '\U{FB05}' || c == '\U{FB06}' then "ST"
    else [c]
  }

  /** String.toUpperCase, character by character. */
  function Upper(s: string): string {
    if s == [] then [] else UpperOf(s[0]) + Upper(s[1..])
  }

  /** The lower-case form of one character (Character/String.toLowerCase) for
      ASCII, Latin-1 and Cyrillic (U+0400 to U+04FF) capitals, the capital I with dot above
      (which becomes i and a combining dot), and the Kelvin and Angstrom signs. */
  function LowerOf(c: char): (r: string)
    ensures |r| >= 1
  {
    if 'A' <= c <= 'Z' then [(c as int + 32) as char]
    else if '\U{C0}' <= c <= '\U{DE}' && c != '\U{D7}' then [(c as int + 32) as char]
    else if c == '\U{178}' then "\U{FF}"
    else if c == '\U{130}' then "i\U{307}"
    else if '\U{400}' <= c <= '\U{40F}' then [(c as int + 80) as char]
    else if '\U{410}' <= c <= '\U{42F}' then [(c as int + 32) as char]
    else if IsCyrillicPairCapital(c) then [(c as int + 1) as char]
    else if c == '\U{4C0}' then "\U{4CF}"
    else if c == '\U{212A}' then "k"
    else if c == '\U{212B}' then "\U{E5}"
    else [c]
  }

  /** String.toLowerCase, character by character. */
  function Lower(s: string): string {
    if s == [] then [] else LowerOf(s[0]) + Lower(s[1..])
  }

  /** `t` occurs in `s` at position `i`. */
  predicate OccursAt(s: string, t: string, i: int) {
    0 <= i && i + |t| <= |s| && s[i..i + |t|] == t
  }

  /** String.contains: `t` occurs somewhere in `s`, scanning from the left. */
  function Contains(s: string, t: string): (r: bool)
    ensures r <==> exists i :: OccursAt(s, t, i)
    decreases |s|
  {
    if |t| <= |s| && s[..|t|] == t then
      assert OccursAt(s, t, 0);
      true
    else if |s| == 0 then
      assert forall i :: !OccursAt(s, t, i);
      false
    else
      var r := Contains(s[1..], t);
      forall i ensures OccursAt(s[1..], t, i) <==> OccursAt(s, t, i + 1) {
        if 0 <= i && i + |t| <= |s| - 1 {
          assert s[1..][i..i + |t|] == s[i + 1..i + 1 + |t|];
        }
      }
      assert !OccursAt(s, t, 0);
      assert forall i :: OccursAt(s, t, i) ==> i >= 1 && OccursAt(s[1..], t, i - 1);
      r
  }

  lemma {:induction false} UpperAppend(a: string, b: string)
    ensures Upper(a + b) == Upper(a) + Upper(b)
  {
    if a != [] {
      assert (a + b)[0] == a[0] && (a + b)[1..] == a[1..] + b;
      UpperAppend(a[1..], b);
      var h, ra, rb := UpperOf(a[0]), Upper(a[1..]), Upper(b);
      assert Upper(a + b) == h + Upper(a[1..] + b);
      assert Upper(a) == h + ra;
      assert h + (ra + rb) == (h + ra) + rb;
    } else {
      assert a + b == b;
    }
  }

  lemma {:induction false} LowerAppend(a: string, b: string)
    ensures Lower(a + b) == Lower(a) + Lower(b)
  {
    if a != [] {
      assert (a + b)[0] == a[0] && (a + b)[1..] == a[1..] + b;
      LowerAppend(a[1..], b);
      var h, ra, rb := LowerOf(a[0]), Lower(a[1..]), Lower(b);
      assert Lower(a + b) == h + Lower(a[1..] + b);
      assert Lower(a) == h + ra;
      assert h + (ra + rb) == (h + ra) + rb;
    } else {
      assert a + b == b;
    }
  }

  /** A string of ASCII capitals is its own upper-case form. */
  lemma {:induction false} UpperOfCapitals(s: string)
    requires forall i :: 0 <= i < |s| ==> IsAsciiCapital(s[i])
    ensures Upper(s) == s
  {
    if s != [] {
      UpperOfCapitals(s[1..]);
    }
  }

  /** Upper-casing the lower-case form of ASCII capitals gives them back. */
  lemma {:induction false} UpperOfLowerCapitals(s: string)
    requires forall i :: 0 <= i < |s| ==> IsAsciiCapital(s[i])
    ensures Upper(Lower(s)) == s
  {
    if s != [] {
      UpperOfLowerCapitals(s[1..]);
      assert Lower(s) == LowerOf(s[0]) + Lower(s[1..]);
      UpperAppend(LowerOf(s[0]), Lower(s[1..]));
    }
  }

  /** toLowerCase never produces an ASCII capital. */
  lemma {:induction false} LowerHasNoAsciiCapital(s: string)
    ensures forall i :: 0 <= i < |Lower(s)| ==> !IsAsciiCapital(Lower(s)[i])
  {
    if s != [] {
      LowerHasNoAsciiCapital(s[1..]);
      var h := LowerOf(s[0]);
      assert forall i :: 0 <= i < |h| ==> !IsAsciiCapital(h[i]);
    }
  }

  /** Lower-casing is idempotent on the characters it maps. */
  lemma LowerOfLowerOf(c: char)
    ensures Lower(LowerOf(c)) == LowerOf(c)
  {
    var h := LowerOf(c);
    if |h| == 1 {
      assert Lower(h) == LowerOf(h[0]) + Lower([]);
    } else {
      assert h == "i\U{307}";
      assert Lower(h) == LowerOf('i') + Lower(h[1..]);
      assert Lower(h[1..]) == LowerOf('\U{307}') + Lower([]);
    }
  }

  lemma {:induction false} LowerIdempotent(s: string)
    ensures Lower(Lower(s)) == Lower(s)
  {
    if s != [] {
      LowerIdempotent(s[1..]);
      LowerAppend(LowerOf(s[0]), Lower(s[1..]));
      LowerOfLowerOf(s[0]);
    }
  }

  /** Text holding an ASCII capital never occurs in a lower-cased string. */
  lemma CapitalNeverInLower(s: string, t: string, k: int)
    requires 0 <= k < |t| && IsAsciiCapital(t[k])
    ensures !Contains(Lower(s), t)
  {
    LowerHasNoAsciiCapital(s);
    var l := Lower(s);
    forall i ensures !OccursAt(l, t, i) {
      if 0 <= i && i + |t| <= |l| {
        assert l[i..i + |t|][k] == l[i + k];
      }
    }
  }

  /** On ASCII text, lower-casing changes each capital into its small letter and
      leaves every other character, and the length, as they are. */
  lemma {:induction false} LowerOfAscii(s: string)
    requires forall i :: 0 <= i < |s| ==> s[i] < '\U{80}'
    ensures |Lower(s)| == |s|
    ensures forall i :: 0 <= i < |s| ==>
              Lower(s)[i] == if IsAsciiCapital(s[i]) then (s[i] as int + 32) as char else s[i]
  {
    if s != [] {
      LowerOfAscii(s[1..]);
      assert Lower(s) == LowerOf(s[0]) + Lower(s[1..]);
      assert |LowerOf(s[0])| == 1;
      forall i | 1 <= i < |s|
        ensures Lower(s)[i] == if IsAsciiCapital(s[i]) then (s[i] as int + 32) as char else s[i]
      {
        assert Lower(s)[i] == Lower(s[1..])[i - 1] && s[1..][i - 1] == s[i];
      }
    }
  }

  lemma ContainsItself(s: string)
    ensures Contains(s, s)
  {
    assert OccursAt(s, s, 0);
  }
}

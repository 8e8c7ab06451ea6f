/**
 * The Python string operations the scraper relies on, over `string`
 * (a sequence of Unicode scalar values, as a Python `str` is a sequence of
 * code points).
 */
module Text {

  /** `s.startswith(prefix)`. */
  predicate StartsWith(s: string, prefix: string) {
    |prefix| <= |s| && s[..|prefix|] == prefix
  }

  /** `sub` occurs in `s` starting at index `i`. */
  predicate OccursAt(s: string, sub: string, i: nat) {
    i + |sub| <= |s| && s[i..i + |sub|] == sub
  }

  /** `sub in s`. */
  predicate Contains(s: string, sub: string)
    decreases |s|
  {
    StartsWith(s, sub) || (|s| > 0 && Contains(s[1..], sub))
  }

  /** `sub in s` holds exactly when `sub` occurs at some index of `s`. */
  lemma {:induction false} ContainsIffOccurs(s: string, sub: string)
    ensures Contains(s, sub) <==> exists i: nat :: OccursAt(s, sub, i)
    decreases |s|
  {
    if Contains(s, sub) {
      if StartsWith(s, sub) {
        assert OccursAt(s, sub, 0);
      } else {
        ContainsIffOccurs(s[1..], sub);
        var i: nat :| OccursAt(s[1..], sub, i);
        assert s[1..][i..i + |sub|] == s[i + 1..i + 1 + |sub|];
        assert OccursAt(s, sub, i + 1);
      }
    }
    if i: nat :| OccursAt(s, sub, i) {
      if i == 0 {
        assert StartsWith(s, sub);
      } else {
        assert s[1..][i - 1..i - 1 + |sub|] == s[i..i + |sub|];
        assert OccursAt(s[1..], sub, i - 1);
        ContainsIffOccurs(s[1..], sub);
      }
    }
  }

  /** A string holds every one of its infixes. */
  lemma ContainsInfix(a: string, sub: string, b: string)
    ensures Contains(a + sub + b, sub)
  {
    var s := a + sub + b;
    assert s[|a|..|a| + |sub|] == sub;
    assert OccursAt(s, sub, |a|);
    ContainsIffOccurs(s, sub);
  }

  /** `s.count(c)` for a one-character string `c`. */
  function Count(s: string, c: char): (n: nat)
    ensures n <= |s|
  {
    if s == [] then 0 else (if s[0] == c then 1 else 0) + Count(s[1..], c)
  }

  /** The count is the multiplicity of `c` in `s`. */
  lemma {:induction false} CountIsMultiplicity(s: string, c: char)
    ensures Count(s, c) == multiset(s)[c]
  {
    if s != [] {
      assert s == [s[0]] + s[1..];
      CountIsMultiplicity(s[1..], c);
    }
  }

  /** The characters for which Python's `str.isspace()` is true. */
  predicate IsSpace(c: char) {
    c == ' ' || ('\t' <= c <= '\r') || ('\U{1c}' <= c <= '\U{1f}')
    || c == '\U{85}' || c == '\U{a0}' || c == '\U{1680}'
    || ('\U{2000}' <= c <= '\U{200a}') || c == '\U{2028}' || c == '\U{2029}'
    || c == '\U{202f}' || c == '\U{205f}' || c == '\U{3000}'
  }

  predicate IsSlash(c: char) { c == '/' }

  /** `s.lstrip(chars)`, the characters to strip given by `p`. */
  function TrimLeft(s: string, p: char -> bool): (r: string)
    ensures |r| <= |s| && r == s[|s| - |r|..]
    ensures forall i :: 0 <= i < |s| - |r| ==> p(s[i])
    ensures r == [] || !p(r[0])
  {
    if s != [] && p(s[0]) then
      var r := TrimLeft(s[1..], p);
      assert s[1..][|s| - 1 - |r|..] == s[|s| - |r|..];
      assert forall i :: 1 <= i < |s| - |r| ==> s[i] == s[1..][i - 1];
      r
    else s
  }

  /** `s.rstrip(chars)`, the characters to strip given by `p`. */
  function TrimRight(s: string, p: char -> bool): (r: string)
    ensures StartsWith(s, r)
    ensures forall i :: |r| <= i < |s| ==> p(s[i])
    ensures r == [] || !p(r[|r| - 1])
  {
    if s != [] && p(s[|s| - 1]) then TrimRight(s[..|s| - 1], p) else s
  }

  /** Every character of `s` before `a` and from `b` on is one that `p` selects. */
  ghost predicate Around(s: string, a: int, b: int, p: char -> bool) {
    && 0 <= a <= b <= |s|
    && (forall i :: 0 <= i < a ==> p(s[i]))
    && (forall i :: b <= i < |s| ==> p(s[i]))
  }

  /**
   * `r` is what `s.strip(chars)` gives, the characters to strip given by
   * `p`: a block of `s` that neither starts nor ends with such a character,
   * with only such characters around it.
   */
  ghost predicate StripOf(s: string, r: string, p: char -> bool) {
    && (r == [] || (!p(r[0]) && !p(r[|r| - 1])))
    && exists a, b :: Around(s, a, b, p) && r == s[a..b]
  }

  /** `lstrip` followed by `rstrip` keeps one block and removes only stripped characters around it. */
  lemma TrimBounds(s: string, p: char -> bool)
    ensures StripOf(s, TrimRight(TrimLeft(s, p), p), p)
  {
    var l := TrimLeft(s, p);
    var m := TrimRight(l, p);
    var a := |s| - |l|;
    var b := a + |m|;
    assert m == s[a..b] by {
      assert l == s[a..];
      assert StartsWith(l, m);
    }
    assert Around(s, a, b, p) by {
      forall i | b <= i < |s| ensures p(s[i]) {
        assert l == s[a..];
        assert |m| <= i - a < |l|;
        assert s[i] == l[i - a];
      }
    }
  }

  /** `s.strip(chars)`. */
  function Trim(s: string, p: char -> bool): (r: string)
    ensures StripOf(s, r, p)
  {
    TrimBounds(s, p);
    TrimRight(TrimLeft(s, p), p)
  }

  /** A block that starts and ends with kept characters lies inside every block with only stripped characters around it. */
  lemma AroundKept(s: string, a: int, b: int, a': int, b': int, p: char -> bool)
    requires Around(s, a, b, p) && Around(s, a', b', p)
    requires a < b && !p(s[a]) && !p(s[b - 1])
    ensures a' <= a && b <= b'
  {
  }

  /** `StripOf` pins the stripped string down: there is only one. */
  lemma StripOfUnique(s: string, r: string, r': string, p: char -> bool)
    requires StripOf(s, r, p) && StripOf(s, r', p)
    ensures r == r'
  {
    var a, b :| Around(s, a, b, p) && r == s[a..b];
    var a', b' :| Around(s, a', b', p) && r' == s[a'..b'];
    if r != [] {
      assert s[a] == r[0] && s[b - 1] == r[|r| - 1];
      AroundKept(s, a, b, a', b', p);
    }
    if r' != [] {
      assert s[a'] == r'[0] && s[b' - 1] == r'[|r'| - 1];
      AroundKept(s, a', b', a, b, p);
    }
  }

  /** Stripping a string that neither starts nor ends with a stripped character leaves it alone. */
  lemma TrimNothing(s: string, p: char -> bool)
    requires s == [] || (!p(s[0]) && !p(s[|s| - 1]))
    ensures TrimLeft(s, p) == s && TrimRight(s, p) == s && Trim(s, p) == s
  {
  }

  /** `s.strip()`: surrounding whitespace removed. */
  function Strip(s: string): (r: string)
    ensures StripOf(s, r, IsSpace)
  {
    Trim(s, IsSpace)
  }

  /**
   * `s.strip()` is non-empty exactly when `s` holds a character that is not
   * whitespace.
   */
  lemma StripNonEmptyIff(s: string)
    ensures Strip(s) != [] <==> exists i :: 0 <= i < |s| && !IsSpace(s[i])
  {
    var r := Strip(s);
    var a, b :| Around(s, a, b, IsSpace) && r == s[a..b];
    if r != [] {
      assert s[a] == Strip(s)[0];
    } else {
      forall i | 0 <= i < |s| ensures IsSpace(s[i]) {
        if i < a {} else {}
      }
    }
  }

  /**
   * `s.replace(pat, rep)`: every non-overlapping occurrence of `pat`, found
   * from left to right, replaced by `rep`; an empty `pat` inserts `rep`
   * before every character and at the end.
   */
  function ReplaceAll(s: string, pat: string, rep: string): string
    decreases |s|
  {
    if pat == [] then
      if s == [] then rep else rep + [s[0]] + ReplaceAll(s[1..], pat, rep)
    else if StartsWith(s, pat) then rep + ReplaceAll(s[|pat|..], pat, rep)
    else if s == [] then []
    else [s[0]] + ReplaceAll(s[1..], pat, rep)
  }

  /** Replacing a character by text that does not hold it removes it. */
  lemma {:induction false} ReplaceCharRemoves(s: string, c: char, rep: string)
    requires c !in rep
    ensures c !in ReplaceAll(s, [c], rep)
    decreases |s|
  {
    if s != [] {
      ReplaceCharRemoves(s[1..], c, rep);
    }
  }

  /** A leading occurrence of the pattern is replaced first. */
  lemma ReplaceLeading(pat: string, s: string, rep: string)
    requires pat != []
    ensures ReplaceAll(pat + s, pat, rep) == rep + ReplaceAll(s, pat, rep)
  {
    assert StartsWith(pat + s, pat);
    assert (pat + s)[|pat|..] == s;
  }

  /** Replacing a pattern that does not occur leaves the text unchanged. */
  lemma {:induction false} ReplaceAbsent(s: string, pat: string, rep: string)
    requires pat != []
    requires !Contains(s, pat)
    ensures ReplaceAll(s, pat, rep) == s
    decreases |s|
  {
    if s != [] {
      ReplaceAbsent(s[1..], pat, rep);
      assert s == [s[0]] + s[1..];
    }
  }

  /**
   * What reading a file back in text mode gives for the text `s` written to
   * it: universal newlines turn every `\r\n`, and every other `\r`, into
   * `\n` (writing on a system whose line separator is `\n` keeps `s` as it is).
   */
  function ReadBack(s: string): (r: string)
    ensures '\r' !in r
    ensures r == [] <==> s == []
    decreases |s|
  {
    if s == [] then []
    else if s[0] == '\r' then "\n" + ReadBack(if |s| > 1 && s[1] == '\n' then s[2..] else s[1..])
    else [s[0]] + ReadBack(s[1..])
  }

  /** A text without `\r` reads back as it was written. */
  lemma {:induction false} ReadBackPlain(s: string)
    requires '\r' !in s
    ensures ReadBack(s) == s
    decreases |s|
  {
    if s != [] {
      assert s[0] != '\r' && '\r' !in s[1..];
      ReadBackPlain(s[1..]);
    }
  }

  /** Reading back what was read back changes nothing more. */
  lemma ReadBackIdempotent(s: string)
    ensures ReadBack(ReadBack(s)) == ReadBack(s)
  {
    ReadBackPlain(ReadBack(s));
  }

  /** A line break written as `\r\n` is read back as one `\n`. */
  lemma {:induction false} ReadBackCrLf(a: string, b: string)
    requires '\r' !in a
    ensures ReadBack(a + "\r\n" + b) == a + "\n" + ReadBack(b)
    decreases |a|
  {
    var s := a + "\r\n" + b;
    if a == [] {
      assert s == "\r\n" + b;
      assert s[0] == '\r' && s[1] == '\n' && s[2..] == b;
      assert ReadBack(s) == "\n" + ReadBack(b);
    } else {
      assert s[0] == a[0] && a[0] != '\r';
      assert s[1..] == a[1..] + "\r\n" + b;
      assert ReadBack(s) == [a[0]] + ReadBack(s[1..]);
      ReadBackCrLf(a[1..], b);
      assert a == [a[0]] + a[1..];
    }
  }

  predicate IsUpper(c: char) { 'A' <= c <= 'Z' }
  predicate IsLower(c: char) { 'a' <= c <= 'z' }

  /** The characters `str.title()` treats as cased, restricted to ASCII. */
  predicate IsLetter(c: char) { IsUpper(c) || IsLower(c) }

  /** The position of a letter in the alphabet, whatever its case. */
  function LetterIndex(c: char): int {
    if IsUpper(c) then c as int - 'A' as int else c as int - 'a' as int
  }

  /** A letter is determined by its case and its position in the alphabet. */
  lemma LetterDetermined(c: char, d: char)
    requires IsLetter(c) && IsLetter(d)
    requires IsUpper(c) == IsUpper(d) && LetterIndex(c) == LetterIndex(d)
    ensures c == d
  {
  }

  /** `c.upper()` on ASCII: the upper-case form of the same letter; other characters are kept. */
  function ToUpper(c: char): (d: char)
    ensures IsLetter(c) ==> IsUpper(d) && LetterIndex(d) == LetterIndex(c)
    ensures !IsLetter(c) ==> d == c
  {
    if IsLower(c) then (c as int - 32) as char else c
  }

  /** `c.lower()` on ASCII: the lower-case form of the same letter; other characters are kept. */
  function ToLower(c: char): (d: char)
    ensures IsLetter(c) ==> IsLower(d) && LetterIndex(d) == LetterIndex(c)
    ensures !IsLetter(c) ==> d == c
  {
    if IsUpper(c) then (c as int + 32) as char else c
  }

  /**
   * `str.title()` on the rest of a string, `afterLetter` telling whether the
   * character before it was a letter.
   */
  function TitleFrom(s: string, afterLetter: bool): (r: string)
    ensures |r| == |s|
  {
    if s == [] then []
    else if IsLetter(s[0]) then
      [if afterLetter then ToLower(s[0]) else ToUpper(s[0])] + TitleFrom(s[1..], true)
    else [s[0]] + TitleFrom(s[1..], false)
  }

  /** `s.title()` on ASCII letters. */
  function Title(s: string): string {
    TitleFrom(s, false)
  }

  /**
   * Character by character: letters stay the same letters, upper-case
   * exactly when they start a run of letters; every other character is kept.
   */
  lemma {:induction false} TitleFromAt(s: string, afterLetter: bool, i: nat)
    requires i < |s|
    ensures IsLetter(TitleFrom(s, afterLetter)[i]) == IsLetter(s[i])
    ensures IsLetter(s[i]) ==> LetterIndex(TitleFrom(s, afterLetter)[i]) == LetterIndex(s[i])
    ensures !IsLetter(s[i]) ==> TitleFrom(s, afterLetter)[i] == s[i]
    ensures IsLetter(s[i]) ==>
              (IsUpper(TitleFrom(s, afterLetter)[i])
               <==> (if i == 0 then !afterLetter else !IsLetter(s[i - 1])))
  {
    if i > 0 {
      TitleFromAt(s[1..], IsLetter(s[0]), i - 1);
    }
  }

  /** `s.title()` position by position. */
  lemma TitleAt(s: string, i: nat)
    requires i < |s|
    ensures |Title(s)| == |s|
    ensures IsLetter(Title(s)[i]) == IsLetter(s[i])
    ensures IsLetter(s[i]) ==> LetterIndex(Title(s)[i]) == LetterIndex(s[i])
    ensures !IsLetter(s[i]) ==> Title(s)[i] == s[i]
    ensures IsLetter(s[i]) ==> (IsUpper(Title(s)[i]) <==> i == 0 || !IsLetter(s[i - 1]))
  {
    TitleFromAt(s, false, i);
  }

  /** Title-casing twice is title-casing once. */
  lemma {:induction false} TitleFromIdempotent(s: string, afterLetter: bool)
    ensures TitleFrom(TitleFrom(s, afterLetter), afterLetter) == TitleFrom(s, afterLetter)
  {
    if s != [] {
      TitleFromIdempotent(s[1..], IsLetter(s[0]));
    }
  }

  lemma TitleIdempotent(s: string)
    ensures Title(Title(s)) == Title(s)
  {
    TitleFromIdempotent(s, false);
  }
}

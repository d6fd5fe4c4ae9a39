/**
 The string primitives the route handler relies on: ASCII character classes
 (the classes of the domain regex), `toLowerCase`/`toUpperCase` restricted to
 ASCII, `charAt(0)`, and `String.prototype.replace` with a string pattern,
 which replaces only the FIRST occurrence of the pattern.
 */
module Text {

  predicate IsUpper(c: char) { 'A' <= c <= 'Z' }

  predicate IsLower(c: char) { 'a' <= c <= 'z' }

  /** The class `[a-zA-Z]`. */
  predicate IsLetter(c: char) { IsUpper(c) || IsLower(c) }

  predicate IsDigit(c: char) { '0' <= c <= '9' }

  /** The class `[a-zA-Z0-9]`. */
  predicate IsAlnum(c: char) { IsLetter(c) || IsDigit(c) }

  /** The class `[a-zA-Z0-9-]`. */
  predicate IsLabelChar(c: char) { IsAlnum(c) || c == '-' }

  function ToLowerChar(c: char): (r: char)
    ensures !IsUpper(r)
    ensures IsLetter(c) <==> IsLetter(r)
    ensures !IsLetter(c) ==> r == c
  {
    if IsUpper(c) then (c as int + 32) as char else c
  }

  function ToUpperChar(c: char): (r: char)
    ensures !IsLower(r)
    ensures IsLetter(c) <==> IsLetter(r)
    ensures !IsLetter(c) ==> r == c
  {
    if IsLower(c) then (c as int - 32) as char else c
  }

  /**
   `s.toLowerCase()`, over ASCII letters only: the result agrees with `s` up
   to case, character by character, and holds no uppercase letter. Those two
   facts determine each character (`LowerIsDetermined`).
   */
  function ToLower(s: string): (r: string)
    ensures |r| == |s|
    ensures forall i :: 0 <= i < |s| ==> ToUpperChar(r[i]) == ToUpperChar(s[i])
    ensures forall i :: 0 <= i < |r| ==> !IsUpper(r[i])
  {
    seq(|s|, i requires 0 <= i < |s| => ToLowerChar(s[i]))
  }

  /** `s.toUpperCase()`, over ASCII letters only: equal to `s` up to case, with no lowercase letter. */
  function ToUpper(s: string): (r: string)
    ensures |r| == |s|
    ensures forall i :: 0 <= i < |s| ==> ToLowerChar(r[i]) == ToLowerChar(s[i])
    ensures forall i :: 0 <= i < |r| ==> !IsLower(r[i])
  {
    seq(|s|, i requires 0 <= i < |s| => ToUpperChar(s[i]))
  }

  /** `s.charAt(0)`: the first character, or the empty string when `s` is empty. */
  function Initial(s: string): (r: string)
    ensures IsPrefix(r, s)
    ensures |r| == 1 <==> |s| > 0
    ensures |r| <= 1
  {
    if |s| == 0 then "" else s[..1]
  }

  /**
   Agreeing with a character up to case and not being uppercase singles out
   one character: the lowercase form.
   */
  lemma LowerIsDetermined(c: char, x: char)
    requires ToUpperChar(x) == ToUpperChar(c) && !IsUpper(x)
    ensures x == ToLowerChar(c)
  {
  }

  /** The initial of the lowercased name is the lowercased initial. */
  lemma InitialOfLower(s: string)
    ensures Initial(ToLower(s)) == ToLower(Initial(s))
  {
  }

  /** Lowercasing forgets the case a name was typed in. */
  lemma LowerOfUpper(s: string)
    ensures ToLower(ToUpper(s)) == ToLower(s)
  {
    forall i | 0 <= i < |s|
      ensures ToLower(ToUpper(s))[i] == ToLower(s)[i]
    {
      var c := s[i];
      if IsLower(c) {
        assert ToUpperChar(c) as int == c as int - 32;
      }
    }
  }

  /** Lowercasing only changes letters, so it introduces no other character. */
  lemma LowerKeepsNonLetters(s: string, c: char)
    requires !IsLetter(c) && c !in s
    ensures c !in ToLower(s)
  {
  }

  predicate IsPrefix(p: string, s: string)
  {
    |p| <= |s| && s[..|p|] == p
  }

  /** `pat` occurs in `s` starting at index `i`. */
  predicate OccursAt(s: string, pat: string, i: int)
  {
    0 <= i <= |s| && IsPrefix(pat, s[i..])
  }

  /**
   `s.replace(pat, rep)` with a string `pat`: the first occurrence of `pat`
   is replaced by `rep`, inserted verbatim; without an occurrence `s` is
   returned unchanged. An empty `pat` occurs at index 0.
   */
  function ReplaceFirst(s: string, pat: string, rep: string): string
    decreases |s|
  {
    if IsPrefix(pat, s) then rep + s[|pat|..]
    else if |s| == 0 then s
    else [s[0]] + ReplaceFirst(s[1..], pat, rep)
  }

  /** An occurrence in the tail of `s` is an occurrence in `s`, one place further. */
  lemma OccursInTail(s: string, pat: string, j: nat)
    requires j < |s|
    ensures OccursAt(s[1..], pat, j) <==> OccursAt(s, pat, j + 1)
  {
    assert s[1..][j..] == s[j + 1..];
  }

  /** Where the pattern does not start at the front, the first character is kept. */
  lemma ReplaceFirstPastHead(s: string, pat: string, rep: string)
    requires |s| > 0 && !OccursAt(s, pat, 0)
    ensures ReplaceFirst(s, pat, rep) == [s[0]] + ReplaceFirst(s[1..], pat, rep)
  {
    assert s[0..] == s;
  }

  /** The replacement happens at the leftmost occurrence and nowhere else. */
  lemma {:induction false} ReplaceFirstAtLeftmost(s: string, pat: string, rep: string, i: nat)
    requires OccursAt(s, pat, i)
    requires forall j :: 0 <= j < i ==> !OccursAt(s, pat, j)
    ensures ReplaceFirst(s, pat, rep) == s[..i] + rep + s[i + |pat|..]
    decreases i
  {
    if i == 0 {
      assert s[0..] == s;
    } else {
      var t := s[1..];
      ReplaceFirstPastHead(s, pat, rep);
      OccursInTail(s, pat, i - 1);
      forall j | 0 <= j < i - 1
        ensures !OccursAt(t, pat, j)
      {
        OccursInTail(s, pat, j);
      }
      ReplaceFirstAtLeftmost(t, pat, rep, i - 1);
      assert t[..i - 1] == s[1..i];
      assert t[i - 1 + |pat|..] == s[i + |pat|..];
      assert [s[0]] + s[1..i] == s[..i];
    }
  }

  /** Without an occurrence of the pattern nothing changes. */
  lemma {:induction false} ReplaceFirstWithoutOccurrence(s: string, pat: string, rep: string)
    requires forall j :: 0 <= j <= |s| ==> !OccursAt(s, pat, j)
    ensures ReplaceFirst(s, pat, rep) == s
    decreases |s|
  {
    if |s| == 0 {
      assert s[0..] == s;
    } else {
      var t := s[1..];
      ReplaceFirstPastHead(s, pat, rep);
      forall j | 0 <= j <= |t|
        ensures !OccursAt(t, pat, j)
      {
        OccursInTail(s, pat, j);
      }
      ReplaceFirstWithoutOccurrence(t, pat, rep);
      assert [s[0]] + t == s;
    }
  }

  /**
   A prefix `a` in which the pattern does not start is copied unchanged and
   the search continues after it.
   */
  lemma {:induction false} ReplaceFirstSkips(a: string, x: string, pat: string, rep: string)
    requires forall j :: 0 <= j < |a| ==> !OccursAt(a + x, pat, j)
    ensures ReplaceFirst(a + x, pat, rep) == a + ReplaceFirst(x, pat, rep)
    decreases |a|
  {
    if |a| == 0 {
      assert a + x == x;
    } else {
      var s := a + x;
      var a' := a[1..];
      ReplaceFirstPastHead(s, pat, rep);
      assert s[1..] == a' + x;
      forall j | 0 <= j < |a'|
        ensures !OccursAt(a' + x, pat, j)
      {
        OccursInTail(s, pat, j);
      }
      ReplaceFirstSkips(a', x, pat, rep);
      assert [a[0]] + a' == a;
    }
  }
}

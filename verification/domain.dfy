/**
 The domain check of the handler, the anchored regular expression
 `^[a-zA-Z0-9][a-zA-Z0-9-]{0,61}[a-zA-Z0-9]?\.[a-zA-Z]{2,}$`.

 Three descriptions of it, proved to agree:
 - `MatchesDomainRegex`: the regex read structurally, choosing how many
   characters the `{0,61}` and `?` parts take;
 - `LabelDotSuffix`: one label of 1 to 63 characters from `[A-Za-z0-9-]`,
   starting alphanumeric and, at 63 characters, also ending alphanumeric,
   then one `.`, then at least two ASCII letters;
 - `Accepts`: an executable left-to-right scanner (a small automaton).
 */
module DomainSyntax {
  import opened Text

  /**
   `d` matches the regex with the `{0,61}` part taking `m` characters and the
   optional `[a-zA-Z0-9]?` part taking `o`.
   */
  ghost predicate RegexSplit(d: string, m: nat, o: nat)
  {
    && m <= 61 && o <= 1
    && m + o + 4 <= |d|
    && IsAlnum(d[0])
    && (forall i :: 1 <= i < 1 + m ==> IsLabelChar(d[i]))
    && (o == 1 ==> IsAlnum(d[1 + m]))
    && d[1 + m + o] == '.'
    && (forall i :: 2 + m + o <= i < |d| ==> IsLetter(d[i]))
  }

  ghost predicate MatchesDomainRegex(d: string)
  {
    exists m: nat, o: nat :: RegexSplit(d, m, o)
  }

  predicate AllLetters(t: string)
  {
    forall i :: 0 <= i < |t| ==> IsLetter(t[i])
  }

  /** A label as the regex admits it. */
  predicate ValidLabel(l: string)
  {
    && 1 <= |l| <= 63
    && IsAlnum(l[0])
    && (forall i :: 0 <= i < |l| ==> IsLabelChar(l[i]))
    && (|l| == 63 ==> IsAlnum(l[62]))
  }

  /** The part after the dot: `[a-zA-Z]{2,}`. */
  predicate ValidSuffix(t: string)
  {
    |t| >= 2 && AllLetters(t)
  }

  ghost predicate LabelDotSuffix(d: string)
  {
    exists k :: 0 <= k < |d| && d[k] == '.' && ValidLabel(d[..k]) && ValidSuffix(d[k + 1..])
  }

  /** The regex describes exactly one label, one dot and an alphabetic suffix. */
  lemma {:induction false} RegexIsLabelDotSuffix(d: string)
    ensures MatchesDomainRegex(d) <==> LabelDotSuffix(d)
  {
    if MatchesDomainRegex(d) {
      var m: nat, o: nat :| RegexSplit(d, m, o);
      var k := 1 + m + o;
      var l := d[..k];
      assert forall i :: 0 <= i < |l| ==> l[i] == d[i];
      assert ValidLabel(l);
      var t := d[k + 1..];
      assert forall i :: 0 <= i < |t| ==> t[i] == d[k + 1 + i];
      assert ValidSuffix(t);
    }
    if LabelDotSuffix(d) {
      var k :| 0 <= k < |d| && d[k] == '.' && ValidLabel(d[..k]) && ValidSuffix(d[k + 1..]);
      var l := d[..k];
      assert forall i :: 0 <= i < k ==> l[i] == d[i];
      var t := d[k + 1..];
      assert forall i :: k + 1 <= i < |d| ==> d[i] == t[i - k - 1];
      if k == 63 {
        assert RegexSplit(d, 61, 1);
      } else {
        assert RegexSplit(d, k - 1, 0);
      }
    }
  }

  /** The index of the first `.` of `d`, or `|d|` when there is none. */
  function FirstDot(d: string): (k: nat)
    ensures k <= |d|
    ensures forall i :: 0 <= i < k ==> d[i] != '.'
    ensures k < |d| ==> d[k] == '.'
  {
    if |d| == 0 || d[0] == '.' then 0 else 1 + FirstDot(d[1..])
  }

  /** Any index before which there is no dot and at which there is one (or the end) is the first dot. */
  lemma FirstDotUnique(d: string, k: nat)
    requires k <= |d|
    requires forall i :: 0 <= i < k ==> d[i] != '.'
    requires k < |d| ==> d[k] == '.'
    ensures FirstDot(d) == k
  {
  }

  /** The scanner's states: nothing read, inside the label, inside the suffix, or failed. */
  datatype ScanState = Start | InLabel(length: nat, endsAlnum: bool) | InSuffix(length: nat) | Rejected

  function Step(st: ScanState, c: char): ScanState
  {
    match st
    case Start => if IsAlnum(c) then InLabel(1, true) else Rejected
    case InLabel(n, e) =>
      if c == '.' then (if n < 63 || e then InSuffix(0) else Rejected)
      else if IsLabelChar(c) && n < 63 then InLabel(n + 1, IsAlnum(c))
      else Rejected
    case InSuffix(n) => if IsLetter(c) then InSuffix(n + 1) else Rejected
    case Rejected => Rejected
  }

  /** The state after reading all of `d`, left to right. */
  function Scan(d: string): ScanState
  {
    if |d| == 0 then Start else Step(Scan(d[..|d| - 1]), d[|d| - 1])
  }

  /** The executable domain check the handler runs. */
  predicate Accepts(d: string)
  {
    var st := Scan(d);
    st.InSuffix? && st.length >= 2
  }

  /** The start of a label the scanner is still reading. */
  predicate LabelSoFar(p: string)
  {
    && 1 <= |p| <= 63
    && IsAlnum(p[0])
    && (forall i :: 0 <= i < |p| ==> IsLabelChar(p[i]))
  }

  /** The state owed to a label `l`, a dot, and the suffix `t` read so far. */
  function SuffixState(l: string, t: string): ScanState
  {
    if ValidLabel(l) && AllLetters(t) then InSuffix(|t|) else Rejected
  }

  /** What the scanner has established about a prefix it has read. */
  ghost function Expected(d: string): ScanState
  {
    var k := FirstDot(d);
    if |d| == 0 then Start
    else if k == |d| then (if LabelSoFar(d) then InLabel(|d|, IsAlnum(d[|d| - 1])) else Rejected)
    else SuffixState(d[..k], d[k + 1..])
  }

  /** The scanner's state after each prefix is the one `Expected` describes. */
  lemma {:induction false} ScanTracksExpected(d: string)
    ensures Scan(d) == Expected(d)
    decreases |d|
  {
    if |d| > 0 {
      var p := d[..|d| - 1];
      var c := d[|d| - 1];
      assert d == p + [c];
      ScanTracksExpected(p);
      if |p| == 0 {
        StepFromStart(d);
      } else if FirstDot(p) == |p| {
        StepInLabel(p, c);
      } else {
        StepInSuffix(p, c);
      }
    }
  }

  lemma StepFromStart(d: string)
    requires |d| == 1
    ensures Step(Start, d[0]) == Expected(d)
  {
    if d[0] == '.' {
      FirstDotUnique(d, 0);
    } else {
      FirstDotUnique(d, 1);
    }
  }

  /** Reading one more character while still inside the label. */
  lemma StepInLabel(p: string, c: char)
    requires |p| > 0 && FirstDot(p) == |p|
    ensures Step(Expected(p), c) == Expected(p + [c])
  {
    var d := p + [c];
    assert forall i :: 0 <= i < |p| ==> d[i] == p[i];
    if c == '.' {
      FirstDotUnique(d, |p|);
      assert d[..|p|] == p;
      assert d[|p| + 1..] == [];
    } else {
      FirstDotUnique(d, |d|);
      assert LabelSoFar(d) <==> LabelSoFar(p) && IsLabelChar(c) && |d| <= 63;
    }
  }

  /** Reading one more character after the dot. */
  lemma StepInSuffix(p: string, c: char)
    requires FirstDot(p) < |p|
    ensures Step(Expected(p), c) == Expected(p + [c])
  {
    var k := FirstDot(p);
    SnocAfterDot(p, c);
    SuffixStateStep(p[..k], p[k + 1..], c);
  }

  lemma SuffixStateStep(l: string, t: string, c: char)
    ensures Step(SuffixState(l, t), c) == SuffixState(l, t + [c])
  {
    AllLettersSnoc(t, c);
  }

  /** Appending to a string that already has a dot only extends its suffix. */
  lemma SnocAfterDot(p: string, c: char)
    requires FirstDot(p) < |p|
    ensures FirstDot(p + [c]) == FirstDot(p)
    ensures (p + [c])[..FirstDot(p)] == p[..FirstDot(p)]
    ensures (p + [c])[FirstDot(p) + 1..] == p[FirstDot(p) + 1..] + [c]
  {
    FirstDotSnoc(p, c);
    SnocSlices(p, c, FirstDot(p));
  }

  lemma {:induction false} FirstDotSnoc(p: string, c: char)
    requires FirstDot(p) < |p|
    ensures FirstDot(p + [c]) == FirstDot(p)
    decreases |p|
  {
    if p[0] != '.' {
      assert (p + [c])[1..] == p[1..] + [c];
      FirstDotSnoc(p[1..], c);
    }
  }

  lemma SnocSlices(p: string, c: char, k: nat)
    requires k < |p|
    ensures (p + [c])[..k] == p[..k]
    ensures (p + [c])[k + 1..] == p[k + 1..] + [c]
  {
  }

  lemma AllLettersSnoc(t: string, c: char)
    ensures AllLetters(t + [c]) <==> AllLetters(t) && IsLetter(c)
  {
    assert forall i :: 0 <= i < |t| ==> (t + [c])[i] == t[i];
    assert (t + [c])[|t|] == c;
  }

  /** The scanner accepts exactly the domains of label-dot-suffix form. */
  lemma {:induction false} AcceptsIsLabelDotSuffix(d: string)
    ensures Accepts(d) <==> LabelDotSuffix(d)
  {
    ScanTracksExpected(d);
    var k := FirstDot(d);
    if Accepts(d) {
      assert d[k] == '.' && ValidLabel(d[..k]) && ValidSuffix(d[k + 1..]);
    }
    if LabelDotSuffix(d) {
      var j :| 0 <= j < |d| && d[j] == '.' && ValidLabel(d[..j]) && ValidSuffix(d[j + 1..]);
      forall i | 0 <= i < j
        ensures d[i] != '.'
      {
        assert d[..j][i] == d[i];
      }
      FirstDotUnique(d, j);
    }
  }

  /** The executable scanner agrees with the regex on every string. */
  lemma {:induction false} ScannerMatchesRegex(d: string)
    ensures Accepts(d) <==> MatchesDomainRegex(d)
  {
    AcceptsIsLabelDotSuffix(d);
    RegexIsLabelDotSuffix(d);
  }

  /**
   An accepted domain is its first-dot split into a valid label and a
   valid suffix; it contains exactly one `.`, and every other character is
   from `[A-Za-z0-9-]` (so no `{`, `}` or `$`).
   */
  lemma {:induction false} AcceptedDomainShape(d: string)
    requires Accepts(d)
    ensures FirstDot(d) < |d|
    ensures ValidLabel(d[..FirstDot(d)]) && ValidSuffix(d[FirstDot(d) + 1..])
    ensures forall i :: 0 <= i < |d| && d[i] == '.' ==> i == FirstDot(d)
    ensures forall i :: 0 <= i < |d| ==> IsLabelChar(d[i]) || d[i] == '.'
    ensures '{' !in d && '}' !in d && '$' !in d
  {
    ScanTracksExpected(d);
    var k := FirstDot(d);
    var l, t := d[..k], d[k + 1..];
    assert forall i :: 0 <= i < k ==> d[i] == l[i];
    assert forall i :: k < i < |d| ==> d[i] == t[i - k - 1];
  }

  /** The only dot of a string whose other characters are label characters. */
  lemma DotsOf(d: string, k: nat)
    requires k < |d| && d[k] == '.'
    requires forall i :: 0 <= i < |d| && i != k ==> d[i] != '.'
    ensures LabelDotSuffix(d) <==> ValidLabel(d[..k]) && ValidSuffix(d[k + 1..])
  {
  }

  // The example lemmas below take their literal inputs as parameters fixed by
  // `requires x == "..."` rather than writing the literals into the `ensures`.
  // A literal argument lets the solver unfold every recursive function on it
  // completely and at once; naming the input keeps each example's proof small.

  /** `acme.com` and `a-.com` pass: a label may end in `-` when shorter than 63. */
  lemma {:induction false} AcceptedExamples(d1: string, d2: string)
    requires d1 == "acme.com" && d2 == "a-.com"
    ensures Accepts(d1) && Accepts(d2)
  {
    AcceptsIsLabelDotSuffix(d1);
    assert ValidLabel(d1[..4]) && ValidSuffix(d1[5..]);
    AcceptsIsLabelDotSuffix(d2);
    assert ValidLabel(d2[..2]) && ValidSuffix(d2[3..]);
  }

  /** `acme` has no dot. */
  lemma {:induction false} RejectsNoDot(d: string)
    requires d == "acme"
    ensures !Accepts(d)
  {
    AcceptsIsLabelDotSuffix(d);
    assert forall k :: 0 <= k < |d| ==> d[k] != '.';
  }

  /** `mail.acme.com` has two dots: the first leaves a suffix with a dot, the second a label with one. */
  lemma {:induction false} RejectsTwoDots(d: string)
    requires d == "mail.acme.com"
    ensures !Accepts(d)
  {
    AcceptsIsLabelDotSuffix(d);
    forall k | 0 <= k < |d| && d[k] == '.'
      ensures !(ValidLabel(d[..k]) && ValidSuffix(d[k + 1..]))
    {
      if k == 4 {
        assert d[k + 1..][4] == '.';
      } else {
        assert k == 9;
        assert d[..k][4] == '.';
      }
    }
  }

  /** `-acme.com` starts its label with a hyphen. */
  lemma {:induction false} RejectsLeadingHyphen(d: string)
    requires d == "-acme.com"
    ensures !Accepts(d)
  {
    AcceptsIsLabelDotSuffix(d);
    forall k | 0 <= k < |d| && d[k] == '.'
      ensures !ValidLabel(d[..k])
    {
      assert k == 5;
      assert d[..k][0] == '-';
    }
  }

  /** `acme.c` has a one-letter suffix. */
  lemma {:induction false} RejectsShortSuffix(d: string)
    requires d == "acme.c"
    ensures !Accepts(d)
  {
    AcceptsIsLabelDotSuffix(d);
    DotsOf(d, 4);
    assert |d[5..]| == 1;
  }

  /**
   At the 63-character limit the label must end alphanumeric: a label of 63
   label characters starting alphanumeric, followed by `.com`, is accepted
   exactly when its last character is alphanumeric.
   */
  lemma {:induction false} LongestLabel(l: string)
    requires |l| == 63 && IsAlnum(l[0])
    requires forall i :: 0 <= i < |l| ==> IsLabelChar(l[i])
    ensures Accepts(l + ".com") <==> IsAlnum(l[62])
  {
    var d := l + ".com";
    AcceptsIsLabelDotSuffix(d);
    assert forall i :: 0 <= i < 63 ==> d[i] == l[i];
    assert d[63..] == ".com";
    DotsOf(d, 63);
    assert d[..63] == l;
    assert d[64..] == "com";
  }

  /** A label of 64 characters is one too many, whatever its characters. */
  lemma {:induction false} LabelTooLong(l: string)
    requires |l| == 64 && '.' !in l
    ensures !Accepts(l + ".com")
  {
    var d := l + ".com";
    AcceptsIsLabelDotSuffix(d);
    assert forall i :: 0 <= i < 64 ==> d[i] == l[i];
    assert d[64..] == ".com";
    DotsOf(d, 64);
    assert |d[..64]| == 64;
  }
}

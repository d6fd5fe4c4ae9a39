/**
 Email templates: text with the placeholder tokens `{first}`, `{last}`,
 `{firstInitial}`, `{lastInitial}` and `{domain}`. A template is described
 by its layout, a sequence of literal pieces and placeholder holes; `Render`
 is the reference meaning of a layout (every hole replaced by its value), and
 `ReplaceTokenFillsHoles` is the bridge from the single-occurrence string
 replacement the handler performs to that meaning.
 */
module Template {
  import opened Text

  datatype Placeholder = First | Last | FirstInitial | LastInitial | Domain

  /** The literal token a placeholder is written as inside a template. */
  function Token(k: Placeholder): string
  {
    match k
    case First => "{first}"
    case Last => "{last}"
    case FirstInitial => "{firstInitial}"
    case LastInitial => "{lastInitial}"
    case Domain => "{domain}"
  }

  /** Every token opens with `{` and holds no other `{`. */
  lemma TokenShape(k: Placeholder)
    ensures |Token(k)| >= 2 && Token(k)[0] == '{'
    ensures forall i :: 1 <= i < |Token(k)| ==> Token(k)[i] != '{'
  {
  }

  /**
   No token is a prefix of a different token followed by anything: in
   particular `{first}` does not match the start of `{firstInitial}`.
   */
  lemma {:induction false} TokensPrefixFree(k: Placeholder, k': Placeholder, x: string)
    requires k != k'
    ensures !IsPrefix(Token(k), Token(k') + x)
  {
    var t, t' := Token(k), Token(k') + x;
    assert t'[..|Token(k')|] == Token(k');
    if {k, k'} == {First, FirstInitial} {
      assert t[6] != t'[6];
    } else if {k, k'} == {Last, LastInitial} {
      assert t[5] != t'[5];
    } else {
      assert t[1] != t'[1];
    }
  }

  datatype Piece = Lit(text: string) | Hole(key: Placeholder)

  /** The template text a layout is written as. */
  function Spell(ps: seq<Piece>): string
  {
    if |ps| == 0 then ""
    else (match ps[0] case Lit(t) => t case Hole(k) => Token(k)) + Spell(ps[1..])
  }

  /** The values the placeholders stand for in one generation. */
  datatype Bindings = Bindings(first: string, last: string, firstInitial: string,
                               lastInitial: string, domain: string)
  {
    function Value(k: Placeholder): string
    {
      match k
      case First => first
      case Last => last
      case FirstInitial => firstInitial
      case LastInitial => lastInitial
      case Domain => domain
    }
  }

  /** The reference meaning of a layout: literals kept, each hole replaced by its value. */
  function Render(ps: seq<Piece>, b: Bindings): string
  {
    if |ps| == 0 then ""
    else (match ps[0] case Lit(t) => t case Hole(k) => b.Value(k)) + Render(ps[1..], b)
  }

  lemma {:induction false} RenderAppend(xs: seq<Piece>, ys: seq<Piece>, b: Bindings)
    ensures Render(xs + ys, b) == Render(xs, b) + Render(ys, b)
    decreases |xs|
  {
    if |xs| == 0 {
      assert xs + ys == ys;
    } else {
      assert (xs + ys)[1..] == xs[1..] + ys;
      RenderAppend(xs[1..], ys, b);
    }
  }

  lemma {:induction false} SpellAppend(xs: seq<Piece>, ys: seq<Piece>)
    ensures Spell(xs + ys) == Spell(xs) + Spell(ys)
    decreases |xs|
  {
    if |xs| == 0 {
      assert xs + ys == ys;
    } else {
      assert (xs + ys)[1..] == xs[1..] + ys;
      SpellAppend(xs[1..], ys);
    }
  }

  /** No literal piece contains `{`, so tokens can only start at holes. */
  predicate BraceFreeLits(ps: seq<Piece>)
  {
    forall i :: 0 <= i < |ps| && ps[i].Lit? ==> '{' !in ps[i].text
  }

  /** Each placeholder occurs in at most one hole. */
  predicate KeysDistinct(ps: seq<Piece>)
  {
    forall i, j :: 0 <= i < j < |ps| && ps[i].Hole? && ps[j].Hole? ==> ps[i].key != ps[j].key
  }

  /** Every hole for `k` turned into the literal `v`. */
  function Fill(ps: seq<Piece>, k: Placeholder, v: string): seq<Piece>
  {
    if |ps| == 0 then []
    else [if ps[0] == Hole(k) then Lit(v) else ps[0]] + Fill(ps[1..], k, v)
  }

  lemma {:induction false} FillWithoutHole(ps: seq<Piece>, k: Placeholder, v: string)
    requires forall i :: 0 <= i < |ps| ==> ps[i] != Hole(k)
    ensures Fill(ps, k, v) == ps
    decreases |ps|
  {
    if |ps| > 0 {
      FillWithoutHole(ps[1..], k, v);
      assert [ps[0]] + ps[1..] == ps;
    }
  }

  /** Filling replaces exactly the holes for `k` and keeps every other piece in place. */
  lemma {:induction false} FillAt(ps: seq<Piece>, k: Placeholder, v: string)
    ensures |Fill(ps, k, v)| == |ps|
    ensures forall i :: 0 <= i < |ps| ==>
              Fill(ps, k, v)[i] == if ps[i] == Hole(k) then Lit(v) else ps[i]
    decreases |ps|
  {
    if |ps| > 0 {
      FillAt(ps[1..], k, v);
    }
  }

  /** Filling with a value without `{` keeps literals brace-free and keys distinct. */
  lemma FillKeepsShape(ps: seq<Piece>, k: Placeholder, v: string)
    requires BraceFreeLits(ps) && KeysDistinct(ps) && '{' !in v
    ensures BraceFreeLits(Fill(ps, k, v)) && KeysDistinct(Fill(ps, k, v))
  {
    FillAt(ps, k, v);
  }

  /**
   One `replace(token, value)` on the spelled template fills the hole for
   that token: the first occurrence of the token is exactly that hole,
   because literals contain no `{` and no token is a prefix of another.
   */
  lemma {:induction false} ReplaceTokenFillsHoles(ps: seq<Piece>, k: Placeholder, v: string)
    requires BraceFreeLits(ps) && KeysDistinct(ps)
    ensures ReplaceFirst(Spell(ps), Token(k), v) == Spell(Fill(ps, k, v))
    decreases |ps|
  {
    TokenShape(k);
    if |ps| == 0 {
      assert ReplaceFirst("", Token(k), v) == "";
    } else {
      var rest := ps[1..];
      var y := Spell(rest);
      assert BraceFreeLits(rest) && KeysDistinct(rest);
      match ps[0]
      case Lit(t) =>
        assert Spell(ps) == t + y;
        forall j | 0 <= j < |t|
          ensures !OccursAt(t + y, Token(k), j)
        {
          assert (t + y)[j..][0] == t[j];
          assert t[j] in ps[0].text;
        }
        ReplaceFirstSkips(t, y, Token(k), v);
        ReplaceTokenFillsHoles(rest, k, v);
      case Hole(k') =>
        var a := Token(k');
        assert Spell(ps) == a + y;
        if k' == k {
          assert IsPrefix(Token(k), a + y);
          assert (a + y)[|a|..] == y;
          forall i | 0 <= i < |rest|
            ensures rest[i] != Hole(k)
          {
            assert ps[i + 1] == rest[i];
          }
          FillWithoutHole(rest, k, v);
        } else {
          TokenShape(k');
          forall j | 0 <= j < |a|
            ensures !OccursAt(a + y, Token(k), j)
          {
            if j == 0 {
              assert (a + y)[0..] == a + y;
              TokensPrefixFree(k, k', y);
            } else {
              assert (a + y)[j..][0] == a[j];
            }
          }
          ReplaceFirstSkips(a, y, Token(k), v);
          ReplaceTokenFillsHoles(rest, k, v);
        }
    }
  }

  /**
   The replacements for the tokens of `ks`, one after another, each acting
   on the result of the previous one at its first occurrence.
   */
  function ReplaceEach(s: string, ks: seq<Placeholder>, b: Bindings): string
    decreases |ks|
  {
    if |ks| == 0 then s
    else ReplaceEach(ReplaceFirst(s, Token(ks[0]), b.Value(ks[0])), ks[1..], b)
  }

  /** The holes for the keys of `ks` filled with their values, one key after another. */
  function FillEach(ps: seq<Piece>, ks: seq<Placeholder>, b: Bindings): seq<Piece>
    decreases |ks|
  {
    if |ks| == 0 then ps
    else FillEach(Fill(ps, ks[0], b.Value(ks[0])), ks[1..], b)
  }

  /** After filling the keys of `ks`, a hole whose key is listed holds its value; everything else is unchanged. */
  lemma {:induction false} FillEachAt(ps: seq<Piece>, ks: seq<Placeholder>, b: Bindings)
    ensures |FillEach(ps, ks, b)| == |ps|
    ensures forall i :: 0 <= i < |ps| ==>
              FillEach(ps, ks, b)[i] == if ps[i].Hole? && ps[i].key in ks then Lit(b.Value(ps[i].key)) else ps[i]
    decreases |ks|
  {
    if |ks| > 0 {
      var k := ks[0];
      var qs := Fill(ps, k, b.Value(k));
      FillAt(ps, k, b.Value(k));
      FillEachAt(qs, ks[1..], b);
      assert ks == [k] + ks[1..];
    }
  }

  /**
   Replacing the tokens of `ks` in turn on the spelled layout spells the
   layout with those holes filled, provided every value but the last is
   free of `{` (so no value is mistaken for a later token).
   */
  lemma {:induction false} ReplaceEachFillsHoles(ps: seq<Piece>, ks: seq<Placeholder>, b: Bindings)
    requires BraceFreeLits(ps) && KeysDistinct(ps)
    requires forall i :: 0 <= i < |ks| - 1 ==> '{' !in b.Value(ks[i])
    ensures ReplaceEach(Spell(ps), ks, b) == Spell(FillEach(ps, ks, b))
    decreases |ks|
  {
    if |ks| > 0 {
      var k, v := ks[0], b.Value(ks[0]);
      ReplaceTokenFillsHoles(ps, k, v);
      if |ks| == 1 {
        assert ks[1..] == [];
      } else {
        FillKeepsShape(ps, k, v);
        ReplaceEachFillsHoles(Fill(ps, k, v), ks[1..], b);
      }
    }
  }

  /** A layout whose holes have all been resolved to their values spells the rendering. */
  lemma {:induction false} SpellOfResolved(ps: seq<Piece>, qs: seq<Piece>, b: Bindings)
    requires |qs| == |ps|
    requires forall i :: 0 <= i < |ps| ==> qs[i] == if ps[i].Hole? then Lit(b.Value(ps[i].key)) else ps[i]
    ensures Spell(qs) == Render(ps, b)
    decreases |ps|
  {
    if |ps| > 0 {
      SpellOfResolved(ps[1..], qs[1..], b);
    }
  }

  /** Filling every key a layout uses yields the reference rendering. */
  lemma {:induction false} FillEachRenders(ps: seq<Piece>, ks: seq<Placeholder>, b: Bindings)
    requires forall i :: 0 <= i < |ps| && ps[i].Hole? ==> ps[i].key in ks
    ensures Spell(FillEach(ps, ks, b)) == Render(ps, b)
  {
    FillEachAt(ps, ks, b);
    SpellOfResolved(ps, FillEach(ps, ks, b), b);
  }
}

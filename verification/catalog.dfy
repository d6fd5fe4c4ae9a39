/**
 The static catalog of naming conventions (`emailPatterns`): twelve
 templates in a fixed order, each with a description and a confidence tier.
 `Layouts` gives the local part of each template as pieces; `CatalogLayout`
 proves that every template is exactly its layout followed by `@{domain}`.
 */
module Catalog {
  import opened Text
  import opened Template

  datatype Confidence = High | Medium | Low

  datatype EmailPattern = EmailPattern(template: string, description: string, confidence: Confidence)

  const Patterns: seq<EmailPattern> := [
    EmailPattern("{first}.{last}@{domain}", "Standard: firstname.lastname", High),
    EmailPattern("{first}{last}@{domain}", "No separator: firstnamelastname", High),
    EmailPattern("{first}_{last}@{domain}", "Underscore: firstname_lastname", Medium),
    EmailPattern("{first}-{last}@{domain}", "Hyphen: firstname-lastname", Medium),
    EmailPattern("{firstInitial}{last}@{domain}", "First initial + last: flastname", High),
    EmailPattern("{firstInitial}.{last}@{domain}", "First initial dot last: f.lastname", Medium),
    EmailPattern("{first}{lastInitial}@{domain}", "First + last initial: firstnamel", Low),
    EmailPattern("{first}@{domain}", "First name only", Low),
    EmailPattern("{last}@{domain}", "Last name only", Low),
    EmailPattern("{last}.{first}@{domain}", "Reversed: lastname.firstname", Medium),
    EmailPattern("{last}{first}@{domain}", "Reversed no separator: lastnamefirstname", Low),
    EmailPattern("{first}+{last}@{domain}", "Plus sign: firstname+lastname", Low)
  ]

  /** The local part (everything before `@`) of each catalog template, as pieces. */
  const Layouts: seq<seq<Piece>> := [
    [Hole(First), Lit("."), Hole(Last)],
    [Hole(First), Hole(Last)],
    [Hole(First), Lit("_"), Hole(Last)],
    [Hole(First), Lit("-"), Hole(Last)],
    [Hole(FirstInitial), Hole(Last)],
    [Hole(FirstInitial), Lit("."), Hole(Last)],
    [Hole(First), Hole(LastInitial)],
    [Hole(First)],
    [Hole(Last)],
    [Hole(Last), Lit("."), Hole(First)],
    [Hole(Last), Hole(First)],
    [Hole(First), Lit("+"), Hole(Last)]
  ]

  /** The suffix every template ends with. */
  const AtDomain: seq<Piece> := [Lit("@"), Hole(Domain)]

  /** A local part: literals without `{` or `@`, distinct placeholders, no `{domain}`. */
  predicate IsLocalLayout(ps: seq<Piece>)
  {
    && BraceFreeLits(ps)
    && KeysDistinct(ps)
    && (forall i :: 0 <= i < |ps| && ps[i].Lit? ==> '@' !in ps[i].text)
    && (forall i :: 0 <= i < |ps| ==> ps[i] != Hole(Domain))
  }

  /** The local layouts are well formed. */
  lemma {:induction false} LayoutsAreLocal(i: nat)
    requires i < |Layouts|
    ensures IsLocalLayout(Layouts[i])
  {
    var ps := Layouts[i];
    assert ps[0].Hole? && ps[|ps| - 1].Hole?;
  }

  /** Appending `@{domain}` to a local layout keeps literals brace-free and keys distinct. */
  lemma {:induction false} WithAtDomain(ps: seq<Piece>)
    requires IsLocalLayout(ps)
    ensures BraceFreeLits(ps + AtDomain) && KeysDistinct(ps + AtDomain)
  {
    var qs := ps + AtDomain;
    assert qs[|ps|] == Lit("@") && qs[|ps| + 1] == Hole(Domain);
    forall i | 0 <= i < |qs| && qs[i].Lit?
      ensures '{' !in qs[i].text
    {
      if i < |ps| { assert qs[i] == ps[i]; }
    }
    forall i, j | 0 <= i < j < |qs| && qs[i].Hole? && qs[j].Hole?
      ensures qs[i].key != qs[j].key
    {
      if j < |ps| { assert qs[i] == ps[i] && qs[j] == ps[j]; }
      else { assert qs[i] == ps[i]; }
    }
  }

  /**
   The text of each local layout: the template up to its `@{domain}`. Each
   case is its own lemma, `LayoutText0` to `LayoutText11`. Each one unfolds
   `Spell` on a single layout, and a proof that unfolded all twelve at once
   would run past the solver's budget.
   */
  lemma {:induction false} LayoutText(i: nat)
    requires i < |Layouts|
    ensures Spell(Layouts[i]) + "@{domain}" == Patterns[i].template
  {
    match i
    case 0 => LayoutText0();
    case 1 => LayoutText1();
    case 2 => LayoutText2();
    case 3 => LayoutText3();
    case 4 => LayoutText4();
    case 5 => LayoutText5();
    case 6 => LayoutText6();
    case 7 => LayoutText7();
    case 8 => LayoutText8();
    case 9 => LayoutText9();
    case 10 => LayoutText10();
    case _ => LayoutText11();
  }

  lemma LayoutText0()
    ensures Spell(Layouts[0]) + "@{domain}" == Patterns[0].template
  {
    assert Spell(Layouts[0]) == "{first}.{last}";
  }

  lemma LayoutText1()
    ensures Spell(Layouts[1]) + "@{domain}" == Patterns[1].template
  {
    assert Spell(Layouts[1]) == "{first}{last}";
  }

  lemma LayoutText2()
    ensures Spell(Layouts[2]) + "@{domain}" == Patterns[2].template
  {
    assert Spell(Layouts[2]) == "{first}_{last}";
  }

  lemma LayoutText3()
    ensures Spell(Layouts[3]) + "@{domain}" == Patterns[3].template
  {
    assert Spell(Layouts[3]) == "{first}-{last}";
  }

  lemma LayoutText4()
    ensures Spell(Layouts[4]) + "@{domain}" == Patterns[4].template
  {
    assert Spell(Layouts[4]) == "{firstInitial}{last}";
  }

  lemma LayoutText5()
    ensures Spell(Layouts[5]) + "@{domain}" == Patterns[5].template
  {
    assert Spell(Layouts[5]) == "{firstInitial}.{last}";
  }

  lemma LayoutText6()
    ensures Spell(Layouts[6]) + "@{domain}" == Patterns[6].template
  {
    assert Spell(Layouts[6]) == "{first}{lastInitial}";
  }

  lemma LayoutText7()
    ensures Spell(Layouts[7]) + "@{domain}" == Patterns[7].template
  {
    assert Spell(Layouts[7]) == "{first}";
  }

  lemma LayoutText8()
    ensures Spell(Layouts[8]) + "@{domain}" == Patterns[8].template
  {
    assert Spell(Layouts[8]) == "{last}";
  }

  lemma LayoutText9()
    ensures Spell(Layouts[9]) + "@{domain}" == Patterns[9].template
  {
    assert Spell(Layouts[9]) == "{last}.{first}";
  }

  lemma LayoutText10()
    ensures Spell(Layouts[10]) + "@{domain}" == Patterns[10].template
  {
    assert Spell(Layouts[10]) == "{last}{first}";
  }

  lemma LayoutText11()
    ensures Spell(Layouts[11]) + "@{domain}" == Patterns[11].template
  {
    assert Spell(Layouts[11]) == "{first}+{last}";
  }

  /**
   Each catalog template is its local layout followed by `@{domain}`: it
   contains each placeholder at most once, exactly one `@`, and ends with
   `@{domain}`.
   */
  lemma {:induction false} CatalogLayout(i: nat)
    requires i < |Patterns|
    ensures |Layouts| == |Patterns|
    ensures IsLocalLayout(Layouts[i])
    ensures BraceFreeLits(Layouts[i] + AtDomain) && KeysDistinct(Layouts[i] + AtDomain)
    ensures Patterns[i].template == Spell(Layouts[i] + AtDomain)
    ensures Patterns[i].template == Spell(Layouts[i]) + "@{domain}"
    ensures '@' !in Spell(Layouts[i])
  {
    var ps := Layouts[i];
    var t := Patterns[i].template;
    LayoutsAreLocal(i);
    WithAtDomain(ps);
    LayoutText(i);
    SpellAppend(ps, AtDomain);
    assert Spell(AtDomain) == "@{domain}";
    SpellHasNoAt(ps);
  }

  /** A local layout spells a text without `@`: the `@` of a template is the one before `{domain}`. */
  lemma {:induction false} SpellHasNoAt(ps: seq<Piece>)
    requires IsLocalLayout(ps)
    ensures '@' !in Spell(ps)
    decreases |ps|
  {
    if |ps| > 0 {
      LocalTail(ps);
      SpellHasNoAt(ps[1..]);
      if ps[0].Hole? {
        TokenShape(ps[0].key);
        assert '@' !in Token(ps[0].key);
      } else {
        assert '@' !in ps[0].text;
      }
    }
  }

  lemma LocalTail(ps: seq<Piece>)
    requires |ps| > 0 && IsLocalLayout(ps)
    ensures IsLocalLayout(ps[1..])
  {
    forall i | 0 <= i < |ps| - 1
      ensures ps[1..][i] == ps[i + 1]
    {
    }
  }
}

/**
 `generateEmail`: lowercase the names, take their first characters as
 initials, and apply five single-occurrence replacements in the fixed order
 `{first}`, `{last}`, `{firstInitial}`, `{lastInitial}`, `{domain}`.
 */
module Generator {
  import opened Text
  import opened Template
  import opened Catalog

  /** What each placeholder stands for: the lowercased names, their first characters, the domain. */
  function NameBindings(firstName: string, lastName: string, domain: string): Bindings
  {
    var firstLower := ToLower(firstName);
    var lastLower := ToLower(lastName);
    Bindings(firstLower, lastLower, Initial(firstLower), Initial(lastLower), domain)
  }

  /** The order in which the handler replaces the placeholder tokens. */
  const ReplacementOrder: seq<Placeholder> := [First, Last, FirstInitial, LastInitial, Domain]

  lemma OrderCoversAll(k: Placeholder)
    ensures k in ReplacementOrder
  {
    match k
    case First => assert ReplacementOrder[0] == k;
    case Last => assert ReplacementOrder[1] == k;
    case FirstInitial => assert ReplacementOrder[2] == k;
    case LastInitial => assert ReplacementOrder[3] == k;
    case Domain => assert ReplacementOrder[4] == k;
  }

  function GenerateEmail(p: EmailPattern, firstName: string, lastName: string, domain: string): string
  {
    var b := NameBindings(firstName, lastName, domain);
    ReplaceFirst(
      ReplaceFirst(
        ReplaceFirst(
          ReplaceFirst(
            ReplaceFirst(p.template, "{first}", b.first),
            "{last}", b.last),
          "{firstInitial}", b.firstInitial),
        "{lastInitial}", b.lastInitial),
      "{domain}", b.domain)
  }

  /** The five chained replacements are the replacements of `ReplacementOrder`, in turn. */
  lemma InReplacementOrder(p: EmailPattern, firstName: string, lastName: string, domain: string)
    ensures GenerateEmail(p, firstName, lastName, domain)
            == ReplaceEach(p.template, ReplacementOrder, NameBindings(firstName, lastName, domain))
  {
    var b := NameBindings(firstName, lastName, domain);
    var ks := ReplacementOrder;
    assert ks[1..][1..][1..][1..][1..] == [];
  }

  /**
   For names without `{`, generation fills every hole of a well-formed
   layout with its value: the chained first-occurrence replacements agree
   with the reference rendering.
   */
  lemma {:induction false} GenerateRendersLayout(p: EmailPattern, ps: seq<Piece>,
                                                 firstName: string, lastName: string, domain: string)
    requires p.template == Spell(ps)
    requires BraceFreeLits(ps) && KeysDistinct(ps)
    requires '{' !in firstName && '{' !in lastName
    ensures GenerateEmail(p, firstName, lastName, domain) == Render(ps, NameBindings(firstName, lastName, domain))
  {
    var b := NameBindings(firstName, lastName, domain);
    InReplacementOrder(p, firstName, lastName, domain);
    LowerKeepsNonLetters(firstName, '{');
    LowerKeepsNonLetters(lastName, '{');
    assert forall i :: 0 <= i < |ReplacementOrder| - 1 ==> '{' !in b.Value(ReplacementOrder[i]);
    ReplaceEachFillsHoles(ps, ReplacementOrder, b);
    forall i | 0 <= i < |ps| && ps[i].Hole?
      ensures ps[i].key in ReplacementOrder
    {
      OrderCoversAll(ps[i].key);
    }
    FillEachRenders(ps, ReplacementOrder, b);
  }

  /**
   Every catalog entry, for names without `{`, yields its local part (the
   layout rendered with the lowercased names and initials) followed by `@`
   and the domain exactly as given.
   */
  lemma {:induction false} CatalogEmail(i: nat, firstName: string, lastName: string, domain: string)
    requires i < |Patterns|
    requires '{' !in firstName && '{' !in lastName
    ensures GenerateEmail(Patterns[i], firstName, lastName, domain)
            == Render(Layouts[i], NameBindings(firstName, lastName, domain)) + "@" + domain
  {
    CatalogLayout(i);
    GenerateRendersLayout(Patterns[i], Layouts[i] + AtDomain, firstName, lastName, domain);
    RenderAtDomain(Layouts[i], NameBindings(firstName, lastName, domain));
  }

  lemma {:induction false} RenderAtDomain(ps: seq<Piece>, b: Bindings)
    ensures Render(ps + AtDomain, b) == Render(ps, b) + "@" + b.domain
  {
    RenderAppend(ps, AtDomain, b);
    var tail := [Hole(Domain)];
    assert AtDomain[1..] == tail;
    assert Render(tail, b) == b.domain + Render(tail[1..], b);
    assert Render(AtDomain, b) == "@" + Render(tail, b);
  }

  /** Only the lowercased names are used, so the case the names were typed in does not matter. */
  lemma {:induction false} GenerateIgnoresCase(p: EmailPattern, firstName: string, lastName: string, domain: string)
    ensures GenerateEmail(p, ToUpper(firstName), ToUpper(lastName), domain)
            == GenerateEmail(p, firstName, lastName, domain)
  {
    LowerOfUpper(firstName);
    LowerOfUpper(lastName);
  }

  // The example lemmas below take their literal inputs as parameters fixed by
  // `requires x == "..."` rather than writing the literals into the `ensures`.
  // A literal argument lets the solver unfold every recursive function on it
  // completely and at once; naming the input keeps each example's proof small.

  /** The placeholder values for John / Doe / acme.com. */
  lemma JohnDoeBindings(firstName: string, lastName: string, domain: string)
    requires firstName == "John" && lastName == "Doe" && domain == "acme.com"
    ensures NameBindings(firstName, lastName, domain) == Bindings("john", "doe", "j", "d", "acme.com")
  {
    assert ToLower("John") == "john";
    assert ToLower("Doe") == "doe";
  }

  lemma JohnDoeDotted(b: Bindings)
    requires b == Bindings("john", "doe", "j", "d", "acme.com")
    ensures Render(Layouts[0], b) + "@" + b.domain == "john.doe@acme.com"
  {
    assert Render(Layouts[0], b) == "john.doe";
  }

  lemma JohnDoeInitial(b: Bindings)
    requires b == Bindings("john", "doe", "j", "d", "acme.com")
    ensures Render(Layouts[4], b) + "@" + b.domain == "jdoe@acme.com"
  {
    assert Render(Layouts[4], b) == "jdoe";
  }

  lemma JohnDoeReversed(b: Bindings)
    requires b == Bindings("john", "doe", "j", "d", "acme.com")
    ensures Render(Layouts[10], b) + "@" + b.domain == "doejohn@acme.com"
  {
    assert Render(Layouts[10], b) == "doejohn";
  }

  /**
   John / Doe / acme.com through the dot-separated, the initial-plus-last
   (`{first}` does not consume `{firstInitial}`) and the reversed entries.
   */
  lemma {:induction false} JohnDoeAtAcme(firstName: string, lastName: string, domain: string)
    requires firstName == "John" && lastName == "Doe" && domain == "acme.com"
    ensures GenerateEmail(Patterns[0], firstName, lastName, domain) == "john.doe@acme.com"
    ensures GenerateEmail(Patterns[4], firstName, lastName, domain) == "jdoe@acme.com"
    ensures GenerateEmail(Patterns[10], firstName, lastName, domain) == "doejohn@acme.com"
  {
    JohnDoeBindings(firstName, lastName, domain);
    JohnDoeDotted(NameBindings(firstName, lastName, domain));
    JohnDoeInitial(NameBindings(firstName, lastName, domain));
    JohnDoeReversed(NameBindings(firstName, lastName, domain));
    CatalogEmail(0, firstName, lastName, domain);
    CatalogEmail(4, firstName, lastName, domain);
    CatalogEmail(10, firstName, lastName, domain);
  }

  /**
   Replacement is single-occurrence: in a template that repeated a
   placeholder, the second copy would survive literally.
   */
  lemma {:induction false} RepeatedPlaceholderSurvives(t: string, firstName: string, lastName: string, domain: string)
    requires t == "{first}.{first}@{domain}"
    requires firstName == "Ann" && lastName == "Lee" && domain == "x.io"
    ensures GenerateEmail(EmailPattern(t, "", Low), firstName, lastName, domain) == "ann.{first}@x.io"
  {
    var b := NameBindings(firstName, lastName, domain);
    AnnLeeBindings(firstName, lastName, domain);
    var ps := [Lit("ann."), Hole(First), Lit("@"), Hole(Domain)];
    AfterFirstReplacement(t, b.first, ps);
    InReplacementOrder(EmailPattern(t, "", Low), firstName, lastName, domain);
    var rest := ReplacementOrder[1..];
    assert ReplaceEach(t, ReplacementOrder, b) == ReplaceEach(Spell(ps), rest, b);
    AfterLaterReplacements(ps, rest, b);
  }

  /** The remaining four replacements fill only the `{domain}` hole. */
  lemma AfterLaterReplacements(ps: seq<Piece>, rest: seq<Placeholder>, b: Bindings)
    requires ps == [Lit("ann."), Hole(First), Lit("@"), Hole(Domain)]
    requires rest == [Last, FirstInitial, LastInitial, Domain]
    requires b == Bindings("ann", "lee", "a", "l", "x.io")
    ensures ReplaceEach(Spell(ps), rest, b) == "ann.{first}@x.io"
  {
    assert BraceFreeLits(ps) && KeysDistinct(ps);
    ReplaceEachFillsHoles(ps, rest, b);
    FillEachAt(ps, rest, b);
    var qs := FillEach(ps, rest, b);
    assert qs == [Lit("ann."), Hole(First), Lit("@"), Lit("x.io")];
    FilledRepeatText(qs);
  }

  lemma AnnLeeBindings(firstName: string, lastName: string, domain: string)
    requires firstName == "Ann" && lastName == "Lee" && domain == "x.io"
    ensures NameBindings(firstName, lastName, domain) == Bindings("ann", "lee", "a", "l", "x.io")
  {
    assert ToLower("Ann") == "ann";
    assert ToLower("Lee") == "lee";
  }

  /** Replacing the first `{first}` leaves the second one as a hole. */
  lemma AfterFirstReplacement(t: string, v: string, ps: seq<Piece>)
    requires t == "{first}.{first}@{domain}" && v == "ann"
    requires ps == [Lit("ann."), Hole(First), Lit("@"), Hole(Domain)]
    ensures ReplaceFirst(t, "{first}", v) == Spell(ps)
  {
    RepeatAfterFront(t);
    RepeatLayoutText(ps);
  }

  lemma RepeatAfterFront(t: string)
    requires t == "{first}.{first}@{domain}"
    ensures IsPrefix("{first}", t) && t[7..] == ".{first}@{domain}"
  {
  }

  lemma RepeatLayoutText(ps: seq<Piece>)
    requires ps == [Lit("ann."), Hole(First), Lit("@"), Hole(Domain)]
    ensures Spell(ps) == "ann" + ".{first}@{domain}"
  {
    assert Spell([Lit("ann."), Hole(First), Lit("@"), Hole(Domain)]) == "ann." + "{first}" + "@" + "{domain}";
  }

  lemma FilledRepeatText(qs: seq<Piece>)
    requires qs == [Lit("ann."), Hole(First), Lit("@"), Lit("x.io")]
    ensures Spell(qs) == "ann.{first}@x.io"
  {
    assert Spell([Lit("ann."), Hole(First), Lit("@"), Lit("x.io")]) == "ann." + "{first}" + "@" + "x.io";
  }
  /**
   A name that contains a placeholder token is rewritten by a later
   replacement: with first name `{last}`, the `{first}` step inserts a second
   `{last}` and only the first of the two is replaced. Replacing every
   occurrence would give `doe.doe@acme.com` instead.
   */
  lemma {:induction false} TokenInNameSurvives(firstName: string, lastName: string, domain: string)
    requires firstName == "{last}" && lastName == "Doe" && domain == "acme.com"
    ensures GenerateEmail(Patterns[0], firstName, lastName, domain) == "doe.{last}@acme.com"
  {
    var b := NameBindings(firstName, lastName, domain);
    TokenNameBindings(firstName, lastName, domain);
    var t := Patterns[0].template;
    var x := ".{last}@{domain}";
    DottedTemplateFront(t);
    var s1 := ReplaceFirst(t, "{first}", b.first);
    assert s1 == "{last}" + x;
    LastAtFront(s1, x);
    var s2 := ReplaceFirst(s1, "{last}", b.last);
    assert s2 == "doe" + x;
    var ps := [Lit("doe."), Hole(Last), Lit("@"), Hole(Domain)];
    TokenNameLayoutText(ps, x);
    LaterStepsFillDomain(ps, b);
  }

  lemma TokenNameBindings(firstName: string, lastName: string, domain: string)
    requires firstName == "{last}" && lastName == "Doe" && domain == "acme.com"
    ensures NameBindings(firstName, lastName, domain) == Bindings("{last}", "doe", "{", "d", "acme.com")
  {
    assert ToLower("{last}") == "{last}";
    assert ToLower("Doe") == "doe";
  }

  lemma DottedTemplateFront(t: string)
    requires t == Patterns[0].template
    ensures IsPrefix("{first}", t) && t[7..] == ".{last}@{domain}"
  {
  }

  lemma LastAtFront(s: string, x: string)
    requires s == "{last}" + x
    ensures IsPrefix("{last}", s) && s[6..] == x
  {
    assert s[..6] == "{last}";
  }

  lemma TokenNameLayoutText(ps: seq<Piece>, x: string)
    requires ps == [Lit("doe."), Hole(Last), Lit("@"), Hole(Domain)] && x == ".{last}@{domain}"
    ensures Spell(ps) == "doe" + x
  {
    assert Spell([Lit("doe."), Hole(Last), Lit("@"), Hole(Domain)]) == "doe." + "{last}" + "@" + "{domain}";
  }

  /** The initial steps find no token; the domain step fills the domain and keeps `{last}`. */
  lemma LaterStepsFillDomain(ps: seq<Piece>, b: Bindings)
    requires ps == [Lit("doe."), Hole(Last), Lit("@"), Hole(Domain)]
    requires b == Bindings("{last}", "doe", "{", "d", "acme.com")
    ensures ReplaceFirst(ReplaceFirst(ReplaceFirst(Spell(ps), "{firstInitial}", b.firstInitial),
                                      "{lastInitial}", b.lastInitial),
                         "{domain}", b.domain) == "doe.{last}@acme.com"
  {
    assert BraceFreeLits(ps) && KeysDistinct(ps);
    assert forall i :: 0 <= i < |ps| ==> ps[i] != Hole(FirstInitial) && ps[i] != Hole(LastInitial);
    ReplaceAbsentToken(ps, FirstInitial, b.firstInitial);
    ReplaceAbsentToken(ps, LastInitial, b.lastInitial);
    DomainStep(ps, b.domain);
  }

  /** A replacement whose placeholder has no hole in the layout changes nothing. */
  lemma ReplaceAbsentToken(ps: seq<Piece>, k: Placeholder, v: string)
    requires BraceFreeLits(ps) && KeysDistinct(ps)
    requires forall i :: 0 <= i < |ps| ==> ps[i] != Hole(k)
    ensures ReplaceFirst(Spell(ps), Token(k), v) == Spell(ps)
  {
    ReplaceTokenFillsHoles(ps, k, v);
    FillWithoutHole(ps, k, v);
  }

  lemma DomainStep(ps: seq<Piece>, v: string)
    requires ps == [Lit("doe."), Hole(Last), Lit("@"), Hole(Domain)] && v == "acme.com"
    ensures ReplaceFirst(Spell(ps), "{domain}", v) == "doe.{last}@acme.com"
  {
    assert BraceFreeLits(ps) && KeysDistinct(ps);
    ReplaceTokenFillsHoles(ps, Domain, v);
    DomainFilled(ps, v);
    FilledTokenNameText(Fill(ps, Domain, v));
  }

  lemma DomainFilled(ps: seq<Piece>, v: string)
    requires ps == [Lit("doe."), Hole(Last), Lit("@"), Hole(Domain)] && v == "acme.com"
    ensures Fill(ps, Domain, v) == [Lit("doe."), Hole(Last), Lit("@"), Lit("acme.com")]
  {
    FillAt(ps, Domain, v);
  }

  lemma FilledTokenNameText(qs: seq<Piece>)
    requires qs == [Lit("doe."), Hole(Last), Lit("@"), Lit("acme.com")]
    ensures Spell(qs) == "doe.{last}@acme.com"
  {
    assert Spell([Lit("doe."), Hole(Last), Lit("@"), Lit("acme.com")]) == "doe." + "{last}" + "@" + "acme.com";
  }
}

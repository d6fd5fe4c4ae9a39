/**
 The decision logic of the `POST` handler: the required-field check, then
 the domain check, then one candidate per catalog entry in catalog order.
 */
module FindEmail {
  import opened Text
  import opened Template
  import opened Catalog
  import opened Generator
  import opened DomainSyntax

  datatype Candidate = Candidate(email: string, source: string, confidence: Confidence)

  /**
   The handler's outcome: the "required" error, the domain error, or the
   candidate list. An error carries no results and the results carry no error.
   */
  datatype Response = MissingField | InvalidDomain | Found(results: seq<Candidate>)

  /** The `error` text of an error response's body; the two errors read differently. */
  function ErrorMessage(r: Response): (m: string)
    requires !r.Found?
    ensures m == "Invalid domain format" <==> r.InvalidDomain?
    ensures m == "firstName, lastName, and domain are required" <==> r.MissingField?
  {
    if r.MissingField? then "firstName, lastName, and domain are required" else "Invalid domain format"
  }

  function CandidateFor(p: EmailPattern, firstName: string, lastName: string, domain: string): Candidate
  {
    Candidate(GenerateEmail(p, firstName, lastName, domain), p.description, p.confidence)
  }

  /**
   The handler on string fields. A field is missing when it is empty; that
   check comes first, so an empty field is reported even when the domain is
   also malformed. A domain is malformed when the regex rejects it.
   */
  function Handle(firstName: string, lastName: string, domain: string): (r: Response)
    ensures r.MissingField? <==> firstName == "" || lastName == "" || domain == ""
    ensures r.InvalidDomain? <==>
              firstName != "" && lastName != "" && domain != "" && !MatchesDomainRegex(domain)
    ensures r.Found? ==> MatchesDomainRegex(domain)
    ensures r.Found? ==> |r.results| == |Patterns|
    ensures r.Found? ==> forall i :: 0 <= i < |Patterns| ==>
              && r.results[i].source == Patterns[i].description
              && r.results[i].confidence == Patterns[i].confidence
              && r.results[i].email == GenerateEmail(Patterns[i], firstName, lastName, domain)
  {
    ScannerMatchesRegex(domain);
    if firstName == "" || lastName == "" || domain == "" then MissingField
    else if !Accepts(domain) then InvalidDomain
    else Found(seq(|Patterns|, i requires 0 <= i < |Patterns| =>
                 CandidateFor(Patterns[i], firstName, lastName, domain)))
  }

  /**
   For names without `{`, each result is its entry's local part followed by
   `@` and the domain exactly as requested.
   */
  lemma {:induction false} HandleEmails(firstName: string, lastName: string, domain: string, i: nat)
    requires Handle(firstName, lastName, domain).Found?
    requires '{' !in firstName && '{' !in lastName
    requires i < |Patterns|
    ensures Handle(firstName, lastName, domain).results[i].email
            == Render(Layouts[i], NameBindings(firstName, lastName, domain)) + "@" + domain
  {
    CatalogEmail(i, firstName, lastName, domain);
  }

  /** The outcome does not depend on the case the names were typed in. */
  lemma {:induction false} HandleIgnoresCase(firstName: string, lastName: string, domain: string)
    ensures Handle(ToUpper(firstName), ToUpper(lastName), domain) == Handle(firstName, lastName, domain)
  {
    var r, r' := Handle(ToUpper(firstName), ToUpper(lastName), domain), Handle(firstName, lastName, domain);
    if r.Found? {
      forall i | 0 <= i < |Patterns|
        ensures r.results[i] == r'.results[i]
      {
        GenerateIgnoresCase(Patterns[i], firstName, lastName, domain);
      }
    }
  }

  /**
   Candidates are not deduplicated: with a one-letter surname the
   no-separator entry and the first-plus-last-initial entry give the same
   address, and both are listed under their own descriptions.
   */
  lemma {:induction false} SingleLetterSurnameCollides(firstName: string, lastName: string, domain: string)
    requires Handle(firstName, lastName, domain).Found?
    requires '{' !in firstName && '{' !in lastName && |lastName| == 1
    ensures Handle(firstName, lastName, domain).results[1].email
            == Handle(firstName, lastName, domain).results[6].email
    ensures Handle(firstName, lastName, domain).results[1].source
            != Handle(firstName, lastName, domain).results[6].source
  {
    var b := NameBindings(firstName, lastName, domain);
    OneLetterInitial(b.last);
    HandleEmails(firstName, lastName, domain, 1);
    HandleEmails(firstName, lastName, domain, 6);
    CollidingEntries(b);
  }

  lemma OneLetterInitial(s: string)
    requires |s| == 1
    ensures Initial(s) == s
  {
  }

  /** Entries 1 and 6 differ only in `{last}` against `{lastInitial}`. */
  lemma CollidingEntries(b: Bindings)
    requires b.lastInitial == b.last
    ensures Render(Layouts[1], b) == Render(Layouts[6], b)
    ensures Patterns[1].description != Patterns[6].description
  {
    TwoHoleRender(Layouts[1], b);
    TwoHoleRender(Layouts[6], b);
  }

  lemma TwoHoleRender(ps: seq<Piece>, b: Bindings)
    requires |ps| == 2 && ps[0].Hole? && ps[1].Hole?
    ensures Render(ps, b) == b.Value(ps[0].key) + b.Value(ps[1].key)
  {
    var rest := ps[1..];
    assert rest[1..] == [];
    assert Render(rest, b) == b.Value(ps[1].key) + Render(rest[1..], b);
  }

  // The example lemmas below take their literal inputs as parameters fixed by
  // `requires x == "..."` rather than writing the literals into the `ensures`.
  // A literal argument lets the solver unfold every recursive function on it
  // completely and at once; naming the input keeps each example's proof small.

  lemma JaneSmithBindings(firstName: string, lastName: string, domain: string)
    requires firstName == "Jane" && lastName == "Smith" && domain == "example.org"
    ensures NameBindings(firstName, lastName, domain) == Bindings("jane", "smith", "j", "s", "example.org")
  {
    assert ToLower("Jane") == "jane";
    assert ToLower("Smith") == "smith";
  }

  lemma JaneSmithDotted(b: Bindings)
    requires b == Bindings("jane", "smith", "j", "s", "example.org")
    ensures Render(Layouts[0], b) + "@" + b.domain == "jane.smith@example.org"
  {
    assert Render(Layouts[0], b) == "jane.smith";
  }

  lemma JaneSmithInitial(b: Bindings)
    requires b == Bindings("jane", "smith", "j", "s", "example.org")
    ensures Render(Layouts[4], b) + "@" + b.domain == "jsmith@example.org"
  {
    assert Render(Layouts[4], b) == "jsmith";
  }

  /** The first and fifth catalog entries for Jane / Smith / example.org. */
  lemma JaneSmithEmails(firstName: string, lastName: string, domain: string)
    requires firstName == "Jane" && lastName == "Smith" && domain == "example.org"
    ensures GenerateEmail(Patterns[0], firstName, lastName, domain) == "jane.smith@example.org"
    ensures GenerateEmail(Patterns[4], firstName, lastName, domain) == "jsmith@example.org"
  {
    JaneSmithBindings(firstName, lastName, domain);
    JaneSmithDotted(NameBindings(firstName, lastName, domain));
    JaneSmithInitial(NameBindings(firstName, lastName, domain));
    CatalogEmail(0, firstName, lastName, domain);
    CatalogEmail(4, firstName, lastName, domain);
  }

  lemma ExampleOrgAccepted(domain: string)
    requires domain == "example.org"
    ensures Accepts(domain)
  {
    AcceptsIsLabelDotSuffix(domain);
    assert ValidLabel(domain[..7]) && ValidSuffix(domain[8..]);
  }

  lemma EntryZeroAndFour()
    ensures Patterns[0].description == "Standard: firstname.lastname" && Patterns[0].confidence == High
    ensures Patterns[4].description == "First initial + last: flastname" && Patterns[4].confidence == High
  {
  }

  /** Jane / Smith / example.org yields twelve candidates, the first and fifth as listed. */
  lemma {:induction false} JaneSmithAtExampleOrg(firstName: string, lastName: string, domain: string)
    requires firstName == "Jane" && lastName == "Smith" && domain == "example.org"
    ensures Handle(firstName, lastName, domain).Found?
    ensures |Handle(firstName, lastName, domain).results| == 12
    ensures Handle(firstName, lastName, domain).results[0]
            == Candidate("jane.smith@example.org", "Standard: firstname.lastname", High)
    ensures Handle(firstName, lastName, domain).results[4]
            == Candidate("jsmith@example.org", "First initial + last: flastname", High)
  {
    ExampleOrgAccepted(domain);
    ScannerMatchesRegex(domain);
    JaneSmithEmails(firstName, lastName, domain);
    EntryZeroAndFour();
  }
}

/** The PersonIdent test vectors, stated on the model. Each test string is written as the
    pieces it is made of, in the order the external form appends them. */
module PersonIdentExamples {
  import opened Wrappers
  import opened Text
  import opened PersonIdents
  import opened PersonIdentLaws

  lemma SecondsLiteral()
    ensures IntToString(1142878501) == "1142878501"
  {
    assert NatToString(1) == "1";
    assert NatToString(11) == "11";
    assert NatToString(114) == "114";
    assert NatToString(1142) == "1142";
    assert NatToString(11428) == "11428";
    assert NatToString(114287) == "114287";
    assert NatToString(1142878) == "1142878";
    assert NatToString(11428785) == "11428785";
    assert NatToString(114287850) == "114287850";
    assert NatToString(1142878501) == "1142878501";
  }

  lemma WhenLiteral()
    ensures Quot(1142878501000, 1000) == 1142878501
  {
  }

  lemma ZoneUtc()
    ensures FormatTimezone(0) == "+0000"
  {
    TimezoneText(0);
    assert IntToString(0) == "0";
    assert Padded(0) == "00";
  }

  lemma ZoneMinus0500()
    ensures FormatTimezone(-300) == "-0500"
  {
    TimezoneText(-300);
    assert IntToString(0) == "0" && IntToString(5) == "5";
  }

  lemma Zone0230()
    ensures FormatTimezone(150) == "+0230" && ['+'] + Padded(2) + Padded(30) == "+0230"
  {
    TimezoneText(150);
    assert IntToString(2) == "2";
    assert NatToString(3) == "3";
    assert IntToString(30) == "30";
  }

  lemma ZoneMinus0230()
    ensures FormatTimezone(-150) == "-0230"
  {
    TimezoneText(-150);
    assert IntToString(2) == "2";
    assert NatToString(3) == "3";
    assert IntToString(30) == "30";
  }

  lemma NameFacts()
    ensures IsTrimmed("A U Thor") && '<' !in "A U Thor"
    ensures IsTrimmed("author@example.com") && '>' !in "author@example.com"
  {
  }

  /** test001_NewIdent: the four-argument constructor keeps its arguments, and the external
      form of the ident it makes. */
  lemma NewIdent()
    ensures var p := PersonIdent("A U Thor", "author@example.com", 1142878501 * 1000, 0);
      && p.name == "A U Thor" && p.emailAddress == "author@example.com"
      && p.when == 1142878501 * 1000 && p.TimeZoneOffset() == 0
      && ToExternalString(p) == "A U Thor" + " <" + "author@example.com" + "> " + "1142878501" + " " + "+0000"
  {
    SecondsLiteral();
    WhenLiteral();
    ZoneUtc();
  }

  /** test002_ParseIdent: the ident parses to its fields, and its external form is the string
      it was read from. */
  lemma ParseIdentWest()
    ensures var i := "A U Thor" + " <" + "author@example.com" + "> " + "1142878501" + " " + "-0500";
      && Parse(i) == Success(PersonIdent("A U Thor", "author@example.com", 1142878501 * 1000, -300))
      && ToExternalString(Parse(i).value) == i
  {
    SecondsLiteral();
    ZoneMinus0500();
    NameFacts();
    WhenLiteral();
    RoundTrip(PersonIdent("A U Thor", "author@example.com", 1142878501 * 1000, -300));
  }

  /** test003_ParseIdent: the same for a zone two and a half hours east. */
  lemma ParseIdentEast()
    ensures var i := "A U Thor" + " <" + "author@example.com" + "> " + "1142878501" + " " + "+0230";
      && Parse(i) == Success(PersonIdent("A U Thor", "author@example.com", 1142878501 * 1000, 150))
      && ToExternalString(Parse(i).value) == i
  {
    SecondsLiteral();
    Zone0230();
    NameFacts();
    WhenLiteral();
    RoundTrip(PersonIdent("A U Thor", "author@example.com", 1142878501 * 1000, 150));
  }

  /** test004_ParseIdent: no space before '<'. */
  lemma ParseNoSpaceBeforeOpen()
    ensures Parse(Layout("A U Thor", "author@example.com", " ", "1142878501", "+0230", "")) == Success(Spaced())
  {
    SpacingFacts();
    SpacedAt("A U Thor", " ", "");
  }

  /** test005_ParseIdent: no space before '<' nor after '>'. */
  lemma ParseNoSpaceAroundBrackets()
    ensures Parse(Layout("A U Thor", "author@example.com", "", "1142878501", "+0230", "")) == Success(Spaced())
  {
    SpacingFacts();
    SpacedAt("A U Thor", "", "");
  }

  /** test006_ParseIdent: three spaces before '<', none after '>'. */
  lemma ParseSpacesBeforeOpen()
    ensures Parse(Layout("A U Thor   ", "author@example.com", "", "1142878501", "+0230", "")) == Success(Spaced())
  {
    SpacingFacts();
    TrimSurrounded([], "A U Thor", "   ");
    assert [] + "A U Thor" + "   " == "A U Thor   ";
    SpacedAt("A U Thor   ", "", "");
  }

  /** test007_ParseIdent: a space after the zone. */
  lemma ParseTrailingSpace()
    ensures Parse(Layout("A U Thor", "author@example.com", "", "1142878501", "+0230", " ")) == Success(Spaced())
  {
    SpacingFacts();
    SpacedAt("A U Thor", "", " ");
  }

  lemma SpacingFacts()
    ensures IntToString(1142878501) == "1142878501" && ['+'] + Padded(2) + Padded(30) == "+0230"
    ensures Trim("A U Thor") == "A U Thor" && Trim("author@example.com") == "author@example.com"
    ensures '<' !in "A U Thor" && '>' !in "author@example.com"
  {
    SecondsLiteral();
    Zone0230();
    NameFacts();
    TrimOfTrimmed("A U Thor");
    TrimOfTrimmed("author@example.com");
  }

  function Spaced(): PersonIdent {
    PersonIdent("A U Thor", "author@example.com", 1142878501 * 1000, 150)
  }

  lemma SpacedAt(nameText: string, pre: string, trail: string)
    requires '<' !in nameText && Trim(nameText) == "A U Thor" && (pre == "" || pre == " ")
    requires forall k :: 0 <= k < |trail| ==> IsWhiteSpace(trail[k])
    requires IntToString(1142878501) == "1142878501" && ['+'] + Padded(2) + Padded(30) == "+0230"
    requires Trim("author@example.com") == "author@example.com" && '>' !in "author@example.com"
    ensures Parse(Layout(nameText, "author@example.com", pre, "1142878501", "+0230", trail)) == Success(Spaced())
  {
    ParseLayout(nameText, "author@example.com", pre, 1142878501, '+', 2, 30, trail, false);
  }

  /** A zone half an hour past a whole hour west of UTC: the string constructor as written
      reads "-0230" as -90 minutes; the corrected reading gives -150, the offset the string
      was written from. */
  lemma NegativeHalfHour()
    ensures var i := "A U Thor" + " <" + "author@example.com" + "> " + "1142878501" + " " + "-0230";
      && i == ToExternalString(PersonIdent("A U Thor", "author@example.com", 1142878501 * 1000, -150))
      && Parse(i) == Success(PersonIdent("A U Thor", "author@example.com", 1142878501 * 1000, -90))
      && ParseCorrected(i) == Success(PersonIdent("A U Thor", "author@example.com", 1142878501 * 1000, -150))
  {
    var p := PersonIdent("A U Thor", "author@example.com", 1142878501 * 1000, -150);
    SecondsLiteral();
    WhenLiteral();
    ZoneMinus0230();
    NameFacts();
    ExternalParsed(p, false);
    ExternalParsed(p, true);
  }

  /** An ident with nothing after its '>': the string constructor as written fails, the
      corrected one gives When 0 and offset -1 as for any ident without a time stamp. */
  lemma NothingAfterClose()
    ensures Parse("A U Thor " + "<" + "author@example.com" + ">") == Failure(FormatFailure)
    ensures ParseCorrected("A U Thor " + "<" + "author@example.com" + ">") ==
      Success(PersonIdent("A U Thor", "author@example.com", 0, -1))
  {
    NameFacts();
    TrimSurrounded([], "A U Thor", " ");
    assert [] + "A U Thor" + " " == "A U Thor ";
    TrimOfTrimmed("author@example.com");
    EndsAtClose("A U Thor ", "author@example.com");
  }
}

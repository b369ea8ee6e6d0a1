/** The lookup rule of app.py on concrete queries. */
module ExhibitExamples {
  import opened Text
  import opened ExhibitLookup

  /** A question about the Mona Lisa gets its description. */
  lemma AskAboutMonaLisa()
    ensures Lookup("Tell me about the Mona Lisa") == ExhibitInfo[0].description
  {
    assert OccursAt("Tell me about the Mona Lisa", ExhibitInfo[0].name, 18);
    MentionedFirstExhibit("Tell me about the Mona Lisa");
  }

  /** Of two names in one query, the one declared first wins. */
  lemma FirstDeclaredWins()
    ensures NameMatches(ExhibitInfo[3], Lower("The Thinker and Mona Lisa"))
    ensures Lookup("The Thinker and Mona Lisa") == ExhibitInfo[0].description
  {
    assert OccursAt(Lower("The Thinker and Mona Lisa"), Lower(ExhibitInfo[3].name), 0);
    assert OccursAt("The Thinker and Mona Lisa", ExhibitInfo[0].name, 16);
    MentionedFirstExhibit("The Thinker and Mona Lisa");
  }

  /** The name alone gets its description. */
  lemma AskByName()
    ensures Lookup("Mona Lisa") == ExhibitInfo[0].description
  {
    assert OccursAt("Mona Lisa", ExhibitInfo[0].name, 0);
    MentionedFirstExhibit("Mona Lisa");
  }

  /** The name in capitals gets the same description. */
  lemma AskInCapitals()
    ensures Lookup("MONA LISA") == ExhibitInfo[0].description
  {
    AskByName();
    CapitalsLowerToName();
    LookupSameUpToCase("MONA LISA", "Mona Lisa");
  }

  lemma CapitalsLowerToName()
    ensures Lower("MONA LISA") == Lower("Mona Lisa")
  {
    assert Lower("MONA LISA") == "mona lisa";
    assert Lower("Mona Lisa") == "mona lisa";
  }

  /** An unknown name gets the sentinel. */
  lemma AskUnknown()
    ensures Lookup("xyz") == NoInformation
  {
    ShortQueryUnknown("xyz");
  }
}

/**
 * The exhibit lookup of app.py: the fixed table `exhibit_info` and the
 * first-match-wins rule of `ask`, which answers with the description of the
 * first exhibit, in declaration order, whose lowercased name occurs in the
 * lowercased query.
 */
module ExhibitLookup {
  import opened Wrappers
  import opened Text

  datatype Exhibit = Exhibit(name: string, description: string)

  /** exhibit_info, in declaration order (the order a Python dict iterates in). */
  const ExhibitInfo: seq<Exhibit> := [
    Exhibit(
      "Mona Lisa",
      "The Mona Lisa is a portrait painting by the Italian artist Leonardo da Vinci, created in the early 16th century. It is one of the most famous works of art in the world."),
    Exhibit(
      "The Starry Night",
      "The Starry Night is an oil on canvas painting by Vincent van Gogh, painted in June 1889. It depicts a swirling night sky over a quiet town."),
    Exhibit(
      "Tutankhamun's Mask",
      "Tutankhamun's funerary mask is a gold mask of the pharaoh Tutankhamun, made in the 14th century BC. It is one of the most famous artifacts from ancient Egypt."),
    Exhibit(
      "The Thinker",
      "The Thinker is a bronze sculpture by Auguste Rodin, representing a man in deep contemplation. It was created in the late 19th century.")
  ]

  /** The answer when no exhibit matches. */
  const NoInformation: string := "I don't have information on that exhibit."

  /** `exhibit.lower() in user_input.lower()`, with the query already lowercased. */
  predicate NameMatches(e: Exhibit, loweredQuery: string) {
    Contains(loweredQuery, Lower(e.name))
  }

  /** Index of the first exhibit whose name matches, if any. */
  function FirstMatch(exhibits: seq<Exhibit>, loweredQuery: string): (k: Option<nat>)
    ensures k.Some? ==> k.value < |exhibits| && NameMatches(exhibits[k.value], loweredQuery)
    ensures k.Some? ==> forall j :: 0 <= j < k.value ==> !NameMatches(exhibits[j], loweredQuery)
    ensures k.None? ==> forall j :: 0 <= j < |exhibits| ==> !NameMatches(exhibits[j], loweredQuery)
  {
    if exhibits == [] then None
    else if NameMatches(exhibits[0], loweredQuery) then Some(0)
    else match FirstMatch(exhibits[1..], loweredQuery)
      case None => None
      case Some(k) => Some(k + 1)
  }

  /** FirstMatch names k exactly when k matches and nothing before it does. */
  lemma FirstMatchIff(exhibits: seq<Exhibit>, loweredQuery: string, k: nat)
    requires k < |exhibits|
    ensures FirstMatch(exhibits, loweredQuery) == Some(k)
        <==> NameMatches(exhibits[k], loweredQuery)
             && forall j :: 0 <= j < k ==> !NameMatches(exhibits[j], loweredQuery)
  {
    var r := FirstMatch(exhibits, loweredQuery);
    if NameMatches(exhibits[k], loweredQuery) && forall j :: 0 <= j < k ==> !NameMatches(exhibits[j], loweredQuery) {
      assert r.Some?;
      assert !(r.value < k);
      assert !(r.value > k);
    }
  }

  /** The answer of the lookup rule over a given table. */
  function LookupIn(exhibits: seq<Exhibit>, query: string): (response: string)
    ensures response == NoInformation
         || exists k :: 0 <= k < |exhibits| && response == exhibits[k].description
  {
    match FirstMatch(exhibits, Lower(query))
    case Some(k) => exhibits[k].description
    case None => NoInformation
  }

  /** The answer `ask` gives for a query. */
  function Lookup(query: string): (response: string)
    ensures response == NoInformation
         || exists k :: 0 <= k < |ExhibitInfo| && response == ExhibitInfo[k].description
  {
    LookupIn(ExhibitInfo, query)
  }

  /** The loop of ask over a given table, in table order, with its early return. */
  method AskIn(exhibits: seq<Exhibit>, query: string) returns (response: string)
    ensures response == LookupIn(exhibits, query)
  {
    var loweredQuery := Lower(query);
    for i := 0 to |exhibits|
      invariant forall j :: 0 <= j < i ==> !NameMatches(exhibits[j], loweredQuery)
    {
      if Contains(loweredQuery, Lower(exhibits[i].name)) {
        FirstMatchIff(exhibits, loweredQuery, i);
        return exhibits[i].description;
      }
    }
    return NoInformation;
  }

  /** ask, on the app's own table. */
  method Ask(query: string) returns (response: string)
    ensures response == Lookup(query)
  {
    response := AskIn(ExhibitInfo, query);
  }

  /** The table's answers are pairwise different, and none is the sentinel. */
  lemma AnswersDistinct()
    ensures forall i, j :: 0 <= i < j < |ExhibitInfo| ==> ExhibitInfo[i].description != ExhibitInfo[j].description
    ensures forall i :: 0 <= i < |ExhibitInfo| ==> ExhibitInfo[i].description != NoInformation
  {
  }

  /**
   * ask answers with exhibit k's description exactly when k's lowercased name
   * occurs in the lowercased query and no earlier exhibit's does.
   */
  lemma LookupIff(query: string, k: nat)
    requires k < |ExhibitInfo|
    ensures Lookup(query) == ExhibitInfo[k].description
        <==> NameMatches(ExhibitInfo[k], Lower(query))
             && forall j :: 0 <= j < k ==> !NameMatches(ExhibitInfo[j], Lower(query))
  {
    AnswersDistinct();
    FirstMatchIff(ExhibitInfo, Lower(query), k);
  }

  /** ask answers with the sentinel exactly when no exhibit's name occurs in the query. */
  lemma LookupNoMatchIff(query: string)
    ensures Lookup(query) == NoInformation
        <==> forall k :: 0 <= k < |ExhibitInfo| ==> !NameMatches(ExhibitInfo[k], Lower(query))
  {
    AnswersDistinct();
    var r := FirstMatch(ExhibitInfo, Lower(query));
    if r.Some? {
      assert ExhibitInfo[r.value].description != NoInformation;
    }
  }

  /** The answer depends only on the lowercased query. */
  lemma LookupIgnoresCase(query: string)
    ensures Lookup(Lower(query)) == Lookup(query)
  {
    LowerIdempotent(query);
  }

  /** Two queries that differ only in ASCII case get the same answer. */
  lemma LookupSameUpToCase(q1: string, q2: string)
    requires Lower(q1) == Lower(q2)
    ensures Lookup(q1) == Lookup(q2)
  {
  }

  /** A lowered query holds the lowered form of every text the query holds. */
  lemma LowerKeepsContains(query: string, pattern: string)
    requires Contains(query, pattern)
    ensures Contains(Lower(query), Lower(pattern))
  {
    var i: nat :| i <= |query| && OccursAt(query, pattern, i);
    assert Lower(query)[i..i + |pattern|] == Lower(pattern);
    assert OccursAt(Lower(query), Lower(pattern), i);
  }

  /** A query that mentions the first exhibit's name verbatim, anywhere, gets its description. */
  lemma MentionedFirstExhibit(query: string)
    requires Contains(query, ExhibitInfo[0].name)
    ensures Lookup(query) == ExhibitInfo[0].description
  {
    LowerKeepsContains(query, ExhibitInfo[0].name);
    LookupIff(query, 0);
  }

  /** A query shorter than every exhibit name gets the sentinel. */
  lemma ShortQueryUnknown(query: string)
    requires forall k :: 0 <= k < |ExhibitInfo| ==> |query| < |ExhibitInfo[k].name|
    ensures Lookup(query) == NoInformation
  {
    forall k | 0 <= k < |ExhibitInfo|
      ensures !NameMatches(ExhibitInfo[k], Lower(query))
    {
      assert |Lower(query)| < |Lower(ExhibitInfo[k].name)|;
    }
    LookupNoMatchIff(query);
  }
}

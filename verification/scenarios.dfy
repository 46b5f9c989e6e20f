/** Concrete instances of the general results, for the inputs shown in the
    comments of GetAllOptionsForZoneName and for small nameserver lists. */
module Scenarios {
  import opened Wrappers
  import opened GoStrings
  import opened Route53Types
  import opened RecordNames
  import opened Nameservers

  /** "a.b.c.d.e" takes the general loop: five candidates, longest first. */
  lemma FiveLabelCandidates()
    ensures var t := BuildRecordName("a.b.c.d.e", ["a", "b", "c", "d", "e"]);
      GetAllOptionsForZoneName(t) == Success(["a.b.c.d.e", "b.c.d.e", "c.d.e", "d.e", "e"])
  {
    var t := BuildRecordName("a.b.c.d.e", ["a", "b", "c", "d", "e"]);
    OptionsAreSuffixes(t);
    assert FirstZoneLabel(t) == 0;
    FiveSuffixes(t.labels);
  }

  lemma FiveSuffixes(l: seq<string>)
    requires l == ["a", "b", "c", "d", "e"]
    ensures ZoneSuffixes(l, 0) == ["a.b.c.d.e", "b.c.d.e", "c.d.e", "d.e", "e"]
  {
    assert l[4..] == ["e"];
    assert l[3..] == ["d"] + l[4..];
    assert l[2..] == ["c"] + l[3..];
    assert l[1..] == ["b"] + l[2..];
    assert l[0..] == ["a"] + l[1..];
    assert Join(l[4..], ".") == "e";
    assert Join(l[3..], ".") == "d.e";
    assert Join(l[2..], ".") == "c.d.e";
    assert Join(l[1..], ".") == "b.c.d.e";
    assert Join(l[0..], ".") == "a.b.c.d.e";
    assert ZoneSuffixes(l, 0) == [Join(l[0..], "."), Join(l[1..], "."), Join(l[2..], "."), Join(l[3..], "."), Join(l[4..], ".")];
  }

  /** "*.a.b" leaves the wildcard label out: ["a.b", "b"]. */
  lemma WildCardCandidates()
    ensures var t := BuildRecordName("*.a.b", ["*", "a", "b"]);
      GetAllOptionsForZoneName(t) == Success(["a.b", "b"])
  {
    var t := BuildRecordName("*.a.b", ["*", "a", "b"]);
    assert t.labels == ["*", "a", "b"] && t.hasWildCard;
    assert t.labels[1..3] == ["a", "b"];
    assert ["a", "b"][1..] == ["b"];
    assert Join(["a", "b"], ".") == "a.b";
  }

  /** A lone wildcard label has no candidate zone. */
  lemma LoneWildCardFails()
    ensures GetAllOptionsForZoneName(BuildRecordName("*", ["*"])) == Failure(InvalidRecordWildCard)
  {
  }

  /** A trailing dot gives the same token as no trailing dot. */
  lemma TrailingDotDropped()
    ensures BuildRecordName("a.b.", ["a", "b", ""]).parsedUrl == BuildRecordName("a.b", ["a", "b"]).parsedUrl == "a.b"
  {
    assert ["a", "b", ""][..2] == ["a", "b"];
  }

  /** A concrete token accepts the wildcard record of its zone. */
  lemma ConcreteNameMatchesWildCardRecord()
    ensures IsEqual(BuildRecordName("a.b.c", ["a", "b", "c"]), "*.b.c.")
  {
    var t := BuildRecordName("a.b.c", ["a", "b", "c"]);
    assert HasPrefix("*.b.c.", WildCard);
    assert ReplaceFirst("*.b.c.", WildCard, "a") == "a" + ".b.c.";
  }

  /** A shared host matches. */
  lemma SharedHostExample()
    ensures IsNSMatch(["a", "b", "c"], ["x", "a", "y"])
  {
    SharedHostMatches(["a", "b", "c"], ["x", "a", "y"], "a");
  }

  /** Distinct hosts do not match. */
  lemma DistinctHostsExample()
    ensures !IsNSMatch(["a"], ["b"])
  {
    IsNSMatchIsOverlapOrDuplicate(["a"], ["b"]);
  }

  /** Empty entries never match. */
  lemma EmptyHostsExample()
    ensures !IsNSMatch([""], [""])
  {
    EmptyHostsIgnored([""], [""]);
  }

  /** A host listed twice on one side matches, as written. */
  lemma DuplicateHostExample()
    ensures IsNSMatch(["a", "a"], ["b"])
  {
    assert multiset(["a", "a"])["a"] == 2;
  }
}

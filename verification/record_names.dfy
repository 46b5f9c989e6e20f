/** The record token (`RecordName` in aws_utils/route53.go): a queried name cut
    into dot-separated labels, with a flag for a leading wildcard label, and
    the three things done with it — matching record names, building the
    wildcard form of the name and listing the hosted-zone names to try. */
module RecordNames {
  import opened Wrappers
  import opened GoStrings
  import opened Route53Types

  /** The wildcard label. */
  const WildCard: string := "*"

  /** A parsed query. `parsedUrl` and `hasWildCard` are what the Go getters
      GetParsedURL and HasWildCard return. */
  datatype RecordName = RecordName(rawUrl: string, parsedUrl: string, labels: seq<string>, hasWildCard: bool)

  /** What NewRecordName establishes and every other operation may rely on. */
  predicate Valid(t: RecordName) {
    && |t.labels| > 0
    && t.parsedUrl == Join(t.labels, ".")
    && t.hasWildCard == (t.labels[0] == WildCard)
  }

  predicate NoDottedLabel(labels: seq<string>) {
    forall i :: 0 <= i < |labels| ==> '.' !in labels[i]
  }

  // ---------------------------------------------------------------------
  // Construction

  /** StripRecord's scheme handling: a query without "http://" or "https://"
      gets "http://" put in front so that the URL parser finds a host. */
  function WithScheme(fullRecord: string): (r: string)
    ensures HasPrefix(r, "http://") || HasPrefix(r, "https://")
    ensures HasPrefix(fullRecord, "http://") || HasPrefix(fullRecord, "https://") ==> r == fullRecord
    ensures r == fullRecord || r == "http://" + fullRecord
  {
    if !HasPrefix(fullRecord, "http://") && !HasPrefix(fullRecord, "https://") then
      "http://" + fullRecord
    else
      fullRecord
  }

  /** StripRecord: the host of the query, split at every dot. */
  function StripRecord(w: World, fullRecord: string): (r: Result<seq<string>, Error>)
    ensures r.Failure? <==> w.urlHostname(WithScheme(fullRecord)).Failure?
    ensures r.Failure? ==> r.error == UrlParse(w.urlHostname(WithScheme(fullRecord)).error)
    ensures r.Success? ==> |r.value| > 0 && NoDottedLabel(r.value)
    ensures r.Success? ==> Join(r.value, ".") == w.urlHostname(WithScheme(fullRecord)).value
  {
    match w.urlHostname(WithScheme(fullRecord))
    case Failure(e) => Failure(UrlParse(e))
    case Success(host) => Success(Split(host, '.'))
  }

  /** The URL parser finds an empty host, so NewRecordName's `splitted[0]`
      is out of range and the source panics. */
  predicate PanicsOnIndex(w: World, rawQuery: string) {
    var host := w.urlHostname(WithScheme(rawQuery));
    host.Success? && host.value == ""
  }

  /** The body of NewRecordName once StripRecord has produced the labels:
      one trailing empty label (from a trailing dot) is dropped. */
  function BuildRecordName(rawQuery: string, splitted: seq<string>): (t: RecordName)
    requires |splitted| > 0 && splitted != [""]
    ensures Valid(t) && t.rawUrl == rawQuery
    ensures t.labels == splitted || t.labels + [""] == splitted
    ensures t.labels == splitted <==> splitted[|splitted| - 1] != ""
    ensures splitted[|splitted| - 1] != "" ==> Join(splitted, ".") == t.parsedUrl
    ensures splitted[|splitted| - 1] == "" ==> Join(splitted, ".") == t.parsedUrl + "."
  {
    var labels := if splitted[|splitted| - 1] == "" then splitted[..|splitted| - 1] else splitted;
    assert labels + [""] == splitted ==> Join(splitted, ".") == Join(labels, ".") + "." by {
      if labels + [""] == splitted {
        JoinAppend(labels, [""], ".");
      }
    }
    RecordName(rawQuery, Join(labels, "."), labels, labels[0] == WildCard)
  }

  /** NewRecordName. Its only error is the URL parser's; an empty host is
      excluded because the source panics on it. */
  function NewRecordName(w: World, rawQuery: string): (r: Result<RecordName, Error>)
    requires !PanicsOnIndex(w, rawQuery)
    ensures r.Failure? <==> w.urlHostname(WithScheme(rawQuery)).Failure?
    ensures r.Failure? ==> r.error == UrlParse(w.urlHostname(WithScheme(rawQuery)).error)
    ensures r.Success? ==> Valid(r.value) && r.value.rawUrl == rawQuery && NoDottedLabel(r.value.labels)
    ensures r.Success? ==>
      var host := w.urlHostname(WithScheme(rawQuery)).value;
      r.value.parsedUrl == host || r.value.parsedUrl + "." == host
    ensures r.Success? ==>
      var host := w.urlHostname(WithScheme(rawQuery)).value;
      r.value.parsedUrl == host <==> !HasSuffix(host, ".")
  {
    match StripRecord(w, rawQuery)
    case Failure(e) => Failure(e)
    case Success(splitted) =>
      TrailingDotIffEmptyLabel(splitted);
      Success(BuildRecordName(rawQuery, splitted))
  }

  /** Dot-free labels join to a name ending in a dot exactly when the last
      label is empty. */
  lemma TrailingDotIffEmptyLabel(labels: seq<string>)
    requires |labels| > 0 && labels != [""] && NoDottedLabel(labels)
    ensures HasSuffix(Join(labels, "."), ".") <==> labels[|labels| - 1] == ""
  {
    if labels[|labels| - 1] != "" {
      JoinEndsWithLast(labels, ".");
      NoTrailingDot(Join(labels, "."), labels[|labels| - 1]);
    } else {
      EmptyLastLabelDot(labels);
    }
  }

  lemma NoTrailingDot(name: string, last: string)
    requires last != "" && '.' !in last
    requires HasSuffix(name, last)
    ensures !HasSuffix(name, ".")
  {
    assert name[|name| - |last|..][|last| - 1] == name[|name| - 1];
  }

  lemma EmptyLastLabelDot(labels: seq<string>)
    requires |labels| > 1 && labels[|labels| - 1] == ""
    ensures HasSuffix(Join(labels, "."), ".")
  {
    var init := labels[..|labels| - 1];
    JoinAppend(init, [""], ".");
    assert init + [""] == labels;
  }

  // ---------------------------------------------------------------------
  // Wildcard form and matching

  /** GetWithWildCard: the parsed name with the first occurrence of the first
      label replaced by the wildcard. */
  function GetWithWildCard(t: RecordName): (r: Result<string, Error>)
    ensures r.Failure? <==> |t.labels| == 0
    ensures r.Failure? ==> r.error == InvalidDNSWildCardTest
  {
    if |t.labels| == 0 then Failure(InvalidDNSWildCardTest)
    else Success(ReplaceFirst(t.parsedUrl, t.labels[0], WildCard))
  }

  /** For a valid token the first occurrence of the first label is the one at
      the front, so the wildcard form is the label list with its head swapped
      for the wildcard; this also holds when the first label is empty. */
  lemma WildCardFormReplacesFirstLabel(t: RecordName)
    requires Valid(t)
    ensures GetWithWildCard(t) == Success(Join([WildCard] + t.labels[1..], "."))
    ensures GetWithWildCard(t) == Success(WildCard + t.parsedUrl[|t.labels[0]|..])
    ensures t.hasWildCard ==> GetWithWildCard(t) == Success(t.parsedUrl)
  {
    var p := t.parsedUrl;
    var l0 := t.labels[0];
    JoinStartsWithFirst(t.labels, ".");
    assert GetWithWildCard(t) == Success(WildCard + p[|l0|..]);
    if |t.labels| > 1 {
      JoinAppend([l0], t.labels[1..], ".");
      assert [l0] + t.labels[1..] == t.labels;
      JoinAppend([WildCard], t.labels[1..], ".");
      assert p[|l0|..] == "." + Join(t.labels[1..], ".");
      assert Join([WildCard] + t.labels[1..], ".") == WildCard + "." + Join(t.labels[1..], ".");
      assert WildCard + p[|l0|..] == WildCard + "." + Join(t.labels[1..], ".");
    } else {
      assert [WildCard] + t.labels[1..] == [WildCard];
      assert p[|l0|..] == "";
      assert Join([WildCard], ".") == WildCard;
      assert WildCard + p[|l0|..] == WildCard;
    }
  }

  /** IsEqual's precondition: the source reads the first label only for a
      non-wildcard token asked about a wildcard-prefixed name. */
  predicate CanCompare(t: RecordName, other: string) {
    !t.hasWildCard && HasPrefix(other, WildCard) ==> |t.labels| > 0
  }

  /** IsEqual: does the record name `other` answer for this token? */
  function IsEqual(t: RecordName, other: string): (b: bool)
    requires CanCompare(t, other)
    ensures other == t.parsedUrl || other == t.parsedUrl + "." ==> b
    ensures t.hasWildCard ==> (b <==> other == t.parsedUrl || other == t.parsedUrl + ".")
    ensures b && other != t.parsedUrl && other != t.parsedUrl + "." ==> HasPrefix(other, WildCard)
  {
    if other == t.parsedUrl + "." || other == t.parsedUrl then true
    else if !t.hasWildCard && HasPrefix(other, WildCard) then
      var unwild := ReplaceFirst(other, WildCard, t.labels[0]);
      unwild == t.parsedUrl + "." || unwild == t.parsedUrl
    else false
  }

  /** A valid token accepts exactly four names: its parsed name and its
      wildcard form, each with or without the trailing dot. For a wildcard
      token both forms coincide. */
  lemma IsEqualAcceptsExactly(t: RecordName, other: string)
    requires Valid(t)
    ensures var wc := GetWithWildCard(t).value;
      IsEqual(t, other) <==> other in {t.parsedUrl, t.parsedUrl + ".", wc, wc + "."}
  {
    WildCardFormReplacesFirstLabel(t);
    JoinStartsWithFirst(t.labels, ".");
    var p := t.parsedUrl;
    var l0 := t.labels[0];
    var tail := p[|l0|..];
    var wc := GetWithWildCard(t).value;
    assert wc == WildCard + tail;
    assert p == l0 + tail;
    if other == p || other == p + "." {
    } else if t.hasWildCard {
      assert wc == p;
    } else if HasPrefix(other, WildCard) {
      var rest := other[1..];
      assert other == WildCard + rest;
      var unwild := ReplaceFirst(other, WildCard, l0);
      assert unwild == l0 + rest;
      SamePrefixCancels(l0, rest, tail);
      SamePrefixCancels(WildCard, rest, tail);
      assert IsEqual(t, other) == (unwild == p + "." || unwild == p);
    } else {
      assert HasPrefix(wc, WildCard) && HasPrefix(wc + ".", WildCard);
    }
  }

  /** Putting the same prefix in front of two strings, with or without a
      trailing dot on the second, keeps them equal or distinct. */
  lemma SamePrefixCancels(prefix: string, a: string, b: string)
    ensures prefix + a == prefix + b <==> a == b
    ensures prefix + a == prefix + b + "." <==> a == b + "."
  {
    if prefix + a == prefix + b {
      assert a == (prefix + a)[|prefix|..];
    }
    if prefix + a == prefix + b + "." {
      assert a == (prefix + a)[|prefix|..];
      assert (prefix + b + ".")[|prefix|..] == b + ".";
    }
  }

  // ---------------------------------------------------------------------
  // Candidate hosted-zone names

  /** The first label a candidate zone name may start with: the wildcard
      label is never part of a zone name. */
  function FirstZoneLabel(t: RecordName): nat {
    if t.hasWildCard then 1 else 0
  }

  /** Reference definition of the candidate list: the label suffixes
      labels[from..], labels[from+1..], ..., labels[n-1..], each joined. */
  function ZoneSuffixes(labels: seq<string>, from: nat): seq<string>
    requires from <= |labels|
  {
    seq(|labels| - from, k requires 0 <= k < |labels| - from => Join(labels[from + k..], "."))
  }

  /** The general loop of GetAllOptionsForZoneName, from index `idx` on, with
      the options collected so far in `opts`: it appends the joined label
      suffixes from `idx` on, skipping the wildcard label at index 0. */
  function CollectOptions(labels: seq<string>, hasWildCard: bool, idx: nat, opts: seq<string>): (r: seq<string>)
    requires idx <= |labels|
    ensures r == opts + ZoneSuffixes(labels, if hasWildCard && idx == 0 && idx < |labels| then 1 else idx)
    decreases |labels| - idx
  {
    if idx == |labels| then opts
    else if idx == 0 && hasWildCard then CollectOptions(labels, hasWildCard, idx + 1, opts)
    else
      ZoneSuffixesCons(labels, idx);
      CollectOptions(labels, hasWildCard, idx + 1, opts + [Join(labels[idx..], ".")])
  }

  /** GetAllOptionsForZoneName: hosted-zone names to try, most specific first. */
  function GetAllOptionsForZoneName(t: RecordName): (r: Result<seq<string>, Error>)
    ensures r.Failure? <==> |t.labels| == 1 && t.hasWildCard
    ensures r.Failure? ==> r.error == InvalidRecordWildCard
  {
    var labels := t.labels;
    var size := |labels|;
    if size == 1 && t.hasWildCard then Failure(InvalidRecordWildCard)
    else if size == 1 then Success([t.parsedUrl])
    else if size == 2 && t.hasWildCard then Success([labels[size - 1]])
    else if size == 2 then Success([t.parsedUrl, labels[1]])
    else if size == 3 && t.hasWildCard then Success([Join(labels[1..size], "."), labels[size - 1]])
    else if size == 3 then Success([t.parsedUrl, Join(labels[1..size], "."), labels[size - 1]])
    else Success(CollectOptions(labels, t.hasWildCard, 0, []))
  }

  lemma ZoneSuffixesCons(labels: seq<string>, from: nat)
    requires from < |labels|
    ensures ZoneSuffixes(labels, from) == [Join(labels[from..], ".")] + ZoneSuffixes(labels, from + 1)
  {
    var l := ZoneSuffixes(labels, from);
    var r := [Join(labels[from..], ".")] + ZoneSuffixes(labels, from + 1);
    assert |l| == |r|;
    forall k | 0 <= k < |l| ensures l[k] == r[k] {
      if k > 0 {
        assert labels[from + k..] == labels[(from + 1) + (k - 1)..];
      }
    }
  }

  /** The last suffix is the last label alone. */
  lemma ZoneSuffixesLast(labels: seq<string>)
    requires |labels| > 0
    ensures ZoneSuffixes(labels, |labels| - 1) == [labels[|labels| - 1]]
  {
    var z := ZoneSuffixes(labels, |labels| - 1);
    assert labels[|labels| - 1..] == [labels[|labels| - 1]];
    assert z[0] == Join([labels[|labels| - 1]], ".");
  }

  /** Every branch of GetAllOptionsForZoneName, the special cases for one,
      two and three labels as well as the loop, yields the label suffixes
      from the first non-wildcard label on. */
  lemma {:induction false} OptionsAreSuffixes(t: RecordName)
    requires Valid(t)
    requires t.labels != [WildCard]
    ensures GetAllOptionsForZoneName(t) == Success(ZoneSuffixes(t.labels, FirstZoneLabel(t)))
  {
    var labels := t.labels;
    var n := |labels|;
    if n >= 4 {
      assert [] + ZoneSuffixes(labels, FirstZoneLabel(t)) == ZoneSuffixes(labels, FirstZoneLabel(t));
    } else {
      ZoneSuffixesLast(labels);
      if n == 1 {
        assert labels == [labels[0]];
      } else if n == 2 {
        if !t.hasWildCard {
          ZoneSuffixesCons(labels, 0);
          assert labels[0..] == labels;
          assert ZoneSuffixes(labels, 0) == [t.parsedUrl, labels[1]];
          assert GetAllOptionsForZoneName(t) == Success([t.parsedUrl, labels[1]]);
        } else {
          assert FirstZoneLabel(t) == n - 1;
        }
      } else {
        assert labels[1..n] == labels[1..];
        ZoneSuffixesCons(labels, 1);
        assert ZoneSuffixes(labels, 1) == [Join(labels[1..], "."), labels[2]];
        if !t.hasWildCard {
          ZoneSuffixesCons(labels, 0);
          assert labels[0..] == labels;
          assert ZoneSuffixes(labels, 0) == [t.parsedUrl, Join(labels[1..], "."), labels[2]];
        } else {
          assert FirstZoneLabel(t) == 1;
        }
      }
    }
  }

  /** Whether `zone` is `name` itself or a dot-separated suffix of it. */
  predicate IsZoneSuffix(name: string, zone: string) {
    name == zone || HasSuffix(name, "." + zone)
  }

  /** A later suffix of the labels is shorter and sits at the end of an
      earlier one, after a dot. */
  lemma SuffixOfSuffix(labels: seq<string>, a: nat, b: nat)
    requires a < b < |labels|
    ensures Join(labels[a..], ".") == Join(labels[a..b], ".") + "." + Join(labels[b..], ".")
  {
    JoinAppend(labels[a..b], labels[b..], ".");
    assert labels[a..b] + labels[b..] == labels[a..];
  }

  /** Label suffixes get strictly shorter one after another. */
  lemma ZoneSuffixesShrink(labels: seq<string>, from: nat)
    requires from <= |labels|
    ensures var opts := ZoneSuffixes(labels, from);
      forall i, j :: 0 <= i < j < |opts| ==> |opts[j]| < |opts[i]|
  {
    var opts := ZoneSuffixes(labels, from);
    forall i, j | 0 <= i < j < |opts| ensures |opts[j]| < |opts[i]| {
      assert opts[i] == Join(labels[from + i..], ".");
      assert opts[j] == Join(labels[from + j..], ".");
      SuffixOfSuffix(labels, from + i, from + j);
    }
  }

  /** Every label suffix is the joined name itself or sits at its end after
      a dot. */
  lemma ZoneSuffixesWithinName(labels: seq<string>, from: nat)
    requires from <= |labels|
    ensures var opts := ZoneSuffixes(labels, from);
      forall i :: 0 <= i < |opts| ==> IsZoneSuffix(Join(labels, "."), opts[i])
  {
    var opts := ZoneSuffixes(labels, from);
    assert labels[0..] == labels;
    forall i | 0 <= i < |opts| ensures IsZoneSuffix(Join(labels, "."), opts[i]) {
      assert opts[i] == Join(labels[from + i..], ".");
      if from + i > 0 {
        SuffixOfSuffix(labels, 0, from + i);
      }
    }
  }

  /** The candidates as label suffixes: strictly shorter one after another,
      each one the parsed name or a dot-separated suffix of it. */
  lemma ZoneSuffixesShape(t: RecordName, from: nat)
    requires Valid(t) && from < |t.labels|
    ensures var opts := ZoneSuffixes(t.labels, from);
      && (forall i, j :: 0 <= i < j < |opts| ==> |opts[j]| < |opts[i]|)
      && (forall i :: 0 <= i < |opts| ==> IsZoneSuffix(t.parsedUrl, opts[i]))
  {
    ZoneSuffixesShrink(t.labels, from);
    ZoneSuffixesWithinName(t.labels, from);
  }

  /** The shape of the candidate list: it fails exactly for the lone wildcard;
      otherwise it has one entry per non-wildcard label, every entry is a
      zone suffix of the parsed name, lengths strictly decrease and the last
      entry is the last label. */
  lemma OptionsShape(t: RecordName)
    requires Valid(t)
    ensures GetAllOptionsForZoneName(t).Failure? <==> t.labels == [WildCard]
    ensures var r := GetAllOptionsForZoneName(t);
      r.Success? ==>
        && |r.value| == |t.labels| - FirstZoneLabel(t) > 0
        && r.value[|r.value| - 1] == t.labels[|t.labels| - 1]
        && (forall i, j :: 0 <= i < j < |r.value| ==> |r.value[j]| < |r.value[i]|)
        && (forall i :: 0 <= i < |r.value| ==> IsZoneSuffix(t.parsedUrl, r.value[i]))
  {
    if t.labels != [WildCard] {
      OptionsAreSuffixes(t);
      var n := |t.labels|;
      var opts := ZoneSuffixes(t.labels, FirstZoneLabel(t));
      assert t.labels[n - 1..] == [t.labels[n - 1]];
      assert opts[|opts| - 1] == Join(t.labels[n - 1..], ".");
      ZoneSuffixesShape(t, FirstZoneLabel(t));
    }
  }
}

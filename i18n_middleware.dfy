/** The locale resolver of `I18nMiddleware.dispatch`: it picks the
    `accept-language` preference of a request and resolves it against a fixed
    whitelist of supported locales. The request itself, `request.state` and the
    forwarding to the next handler are framework plumbing and are not modelled;
    `Dispatch` returns what would be stored in `request.state.locale`. */
module I18nMiddleware {
  import opened PythonStr

  /** `I18nMiddleware.WHITE_LIST`: the supported locales. */
  const WhiteList: seq<string> := ["en", "es"]

  /** The locale stored when no candidate is whitelisted. */
  const Default: string := "en"

  /** Exactly `en` and `es` are whitelisted. */
  lemma WhiteListMembers(tag: string)
    ensures tag in WhiteList <==> tag == "en" || tag == "es"
  {
  }

  /** The fallback locale is itself whitelisted. */
  lemma DefaultIsWhiteListed()
    ensures Default in WhiteList && Default == "en"
  {
  }

  /** What `dispatch` ends in: a resolved locale, or the `AttributeError` raised
      by calling `.split` on `None` when no preference string was found. */
  datatype Outcome = Locale(tag: string) | SplitOnNone

  /** The preference string: the `accept-language` lookups in the header, the
      path parameters and the query parameters, chained with Python's `or`
      (utils/I18nMiddleware.py:13-15). A truthy header wins, then a truthy path
      parameter; otherwise the query parameter is taken as it is, even when it
      is `None` or empty. */
  function Preference(header: Option<string>, pathParam: Option<string>, queryParam: Option<string>)
    : (pref: Option<string>)
    ensures Truthy(header) ==> pref == header
    ensures !Truthy(header) && Truthy(pathParam) ==> pref == pathParam
    ensures !Truthy(header) && !Truthy(pathParam) ==> pref == queryParam
  {
    Or(Or(header, pathParam), queryParam)
  }

  /** No preference string is found exactly when the header and the path
      parameter are absent or empty and the query parameter is absent. An empty
      query parameter still yields a (falsy) string. */
  lemma PreferenceAbsent(header: Option<string>, pathParam: Option<string>, queryParam: Option<string>)
    ensures Preference(header, pathParam, queryParam).None?
        <==> !Truthy(header) && !Truthy(pathParam) && queryParam.None?
  {
  }

  /** The candidate list built at utils/I18nMiddleware.py:17: the preference is
      cut at every comma, and each segment, in order, becomes one candidate with
      everything from its first `;` (its weight) cut off. */
  function Candidates(pref: string): (langs: seq<string>)
    ensures |langs| == |Split(pref, ',')| >= 1
    ensures forall i :: 0 <= i < |langs| ==> langs[i] == BeforeFirst(Split(pref, ',')[i], ';')
    ensures forall i :: 0 <= i < |langs| ==> ',' !in langs[i] && ';' !in langs[i]
  {
    var segments := Split(pref, ',');
    seq(|segments|, i requires 0 <= i < |segments| => BeforeFirst(segments[i], ';'))
  }

  /** There are as many candidates as commas plus one. */
  lemma CandidateCount(pref: string)
    ensures |Candidates(pref)| == multiset(pref)[','] + 1
  {
    SplitCount(pref, ',');
  }

  /** Reading the candidates back out of segments joined by commas: candidate
      `i` is segment `i` up to its first `;`, so each weight is dropped and the
      order of the segments is kept. */
  lemma {:induction false} CandidatesOfSegments(segments: seq<string>)
    requires |segments| >= 1
    requires forall i :: 0 <= i < |segments| ==> ',' !in segments[i]
    ensures |Candidates(Join(segments, ','))| == |segments|
    ensures forall i :: 0 <= i < |segments| ==>
      Candidates(Join(segments, ','))[i] <= segments[i] && ';' !in Candidates(Join(segments, ','))[i]
    ensures forall i :: 0 <= i < |segments| && ';' !in segments[i] ==>
      Candidates(Join(segments, ','))[i] == segments[i]
  {
    SplitJoin(segments, ',');
  }

  /** A weight suffix `;...` after a tag never reaches the candidate. */
  lemma WeightIgnored(segments: seq<string>, i: nat, tag: string, weight: string)
    requires |segments| >= 1
    requires forall j :: 0 <= j < |segments| ==> ',' !in segments[j]
    requires i < |segments| && segments[i] == tag + [';'] + weight
    requires ';' !in tag
    ensures i < |Candidates(Join(segments, ','))| && Candidates(Join(segments, ','))[i] == tag
  {
    SplitJoin(segments, ',');
    DropsSuffix(tag, ';', weight);
  }

  /** The locale the loop of `dispatch` settles on: the first candidate that is
      whitelisted, or `Default` when there is none. */
  function FirstAllowed(langs: seq<string>): (locale: string)
    ensures locale in WhiteList
    ensures locale == Default || locale in langs
    decreases |langs|
  {
    if langs == [] then Default
    else if langs[0] in WhiteList then langs[0]
    else FirstAllowed(langs[1..])
  }

  /** When the earliest whitelisted candidate is at `k`, that candidate wins. */
  lemma {:induction false} FirstAllowedIsEarliest(langs: seq<string>, k: nat)
    requires k < |langs| && langs[k] in WhiteList
    requires forall j :: 0 <= j < k ==> langs[j] !in WhiteList
    ensures FirstAllowed(langs) == langs[k]
    decreases k
  {
    if k > 0 {
      FirstAllowedIsEarliest(langs[1..], k - 1);
    }
  }

  /** When no candidate is whitelisted, the result is `Default`. */
  lemma {:induction false} FirstAllowedFallback(langs: seq<string>)
    requires forall i :: 0 <= i < |langs| ==> langs[i] !in WhiteList
    ensures FirstAllowed(langs) == Default
    decreases |langs|
  {
    if langs != [] {
      FirstAllowedFallback(langs[1..]);
    }
  }

  /** A result other than `Default` comes from a whitelisted candidate with no
      whitelisted candidate before it. */
  lemma {:induction false} FirstAllowedWitness(langs: seq<string>)
    requires FirstAllowed(langs) != Default
    ensures exists k :: 0 <= k < |langs| && langs[k] == FirstAllowed(langs) &&
              (forall j :: 0 <= j < k ==> langs[j] !in WhiteList)
    decreases |langs|
  {
    if langs[0] !in WhiteList {
      FirstAllowedWitness(langs[1..]);
      var k :| 0 <= k < |langs[1..]| && langs[1..][k] == FirstAllowed(langs[1..])
        && forall j :: 0 <= j < k ==> langs[1..][j] !in WhiteList;
      assert langs[k + 1] == FirstAllowed(langs);
      forall j | 0 <= j < k + 1 ensures langs[j] !in WhiteList {
        if j > 0 { assert langs[j] == langs[1..][j - 1]; }
      }
    }
  }

  /** `I18nMiddleware.dispatch` up to the assignment of `request.state.locale`:
      pick the preference string, build the candidates, and walk them until the
      first whitelisted one. */
  method Dispatch(header: Option<string>, pathParam: Option<string>, queryParam: Option<string>)
    returns (outcome: Outcome)
    ensures outcome.SplitOnNone? <==> Preference(header, pathParam, queryParam).None?
    ensures outcome.Locale? ==> outcome.tag in WhiteList
    ensures outcome.Locale? ==>
      outcome.tag == FirstAllowed(Candidates(Preference(header, pathParam, queryParam).value))
  {
    var pref := Preference(header, pathParam, queryParam);
    if pref.None? {
      return SplitOnNone;
    }
    var languages := Candidates(pref.value);
    var locale := Default;
    var i := 0;
    while i < |languages|
      invariant 0 <= i <= |languages|
      invariant locale == Default
      invariant FirstAllowed(languages[i..]) == FirstAllowed(languages)
    {
      if languages[i] in WhiteList {
        locale := languages[i];
        break;
      }
      i := i + 1;
    }
    return Locale(locale);
  }

  /** Two weighted tags: the candidates are the two tags, in their order. */
  lemma {:induction false} WeightedPair(tag1: string, weight1: string, tag2: string, weight2: string)
    requires ',' !in tag1 && ';' !in tag1 && ',' !in weight1
    requires ',' !in tag2 && ';' !in tag2 && ',' !in weight2
    ensures Candidates(tag1 + ";" + weight1 + "," + tag2 + ";" + weight2) == [tag1, tag2]
  {
    var segments := [tag1 + ";" + weight1, tag2 + ";" + weight2];
    assert Join(segments, ',') == tag1 + ";" + weight1 + "," + tag2 + ";" + weight2 by {
      assert Join(segments[1..], ',') == segments[1];
    }
    CandidatesOfSegments(segments);
    WeightIgnored(segments, 0, tag1, weight1);
    WeightIgnored(segments, 1, tag2, weight2);
  }

  /** Weights are ignored: `"es;q=0.9,en;q=0.8"` resolves to `es`. */
  lemma WeightsIgnored()
    ensures FirstAllowed(Candidates("es;q=0.9,en;q=0.8")) == "es"
  {
    assert "es;q=0.9,en;q=0.8" == "es" + ";" + "q=0.9" + "," + "en" + ";" + "q=0.8";
    WeightedPair("es", "q=0.9", "en", "q=0.8");
  }

  /** List order decides, not weights: `"en;q=0.1,es;q=1.0"` resolves to `en`. */
  lemma OrderOverWeights()
    ensures FirstAllowed(Candidates("en;q=0.1,es;q=1.0")) == "en"
  {
    assert "en;q=0.1,es;q=1.0" == "en" + ";" + "q=0.1" + "," + "es" + ";" + "q=1.0";
    WeightedPair("en", "q=0.1", "es", "q=1.0");
  }

  /** The candidates of `"fr,es,en"` are its three tags. */
  lemma CandidatesFrEsEn()
    ensures Candidates("fr,es,en") == ["fr", "es", "en"]
  {
    var segments := ["fr", "es", "en"];
    assert Join(segments, ',') == "fr,es,en";
    CandidatesOfSegments(segments);
  }

  /** The earliest whitelisted tag wins: `"fr,es,en"` resolves to `es`. */
  lemma EarliestTagWins()
    ensures FirstAllowed(Candidates("fr,es,en")) == "es"
  {
    CandidatesFrEsEn();
    FirstAllowedIsEarliest(["fr", "es", "en"], 1);
  }

  /** Optional whitespace is kept: `"fr, es"` has the candidate `" es"`. */
  lemma CandidatesFrSpaceEs()
    ensures Candidates("fr, es") == ["fr", " es"]
  {
    var segments := ["fr", " es"];
    assert Join(segments, ',') == "fr, es";
    CandidatesOfSegments(segments);
  }

  /** A region subtag is kept: `"es-ES"` has the single candidate `"es-ES"`. */
  lemma CandidatesEsEs()
    ensures Candidates("es-ES") == ["es-ES"]
  {
    CandidatesOfSegments(["es-ES"]);
  }

  /** Matching is exact, with no trimming: `"fr, es"` resolves to `en`. */
  lemma SpaceIsNotTrimmed()
    ensures FirstAllowed(Candidates("fr, es")) == "en"
  {
    CandidatesFrSpaceEs();
    FirstAllowedFallback(["fr", " es"]);
  }

  /** Matching is exact, with no prefix matching: `"es-ES"` resolves to `en`. */
  lemma RegionIsNotMatched()
    ensures FirstAllowed(Candidates("es-ES")) == "en"
  {
    CandidatesEsEs();
    FirstAllowedFallback(["es-ES"]);
  }

  /** An empty preference string is still split: its one candidate `""` is not
      whitelisted, so it resolves to `en` rather than failing. */
  lemma EmptyPreferenceFallsBack()
    ensures Candidates("") == [""]
    ensures FirstAllowed(Candidates("")) == Default
  {
    FirstAllowedFallback([""]);
  }
}

/** Concrete resolutions: the repository's own test scenarios, and two edge
    cases of the accept-language passes. */
module NegotiatorExamples {
  import opened LanguageNegotiator
  import opened NegotiatorProperties

  /** The configuration shared by the repository's tests. */
  function SampleOptions(): Options
  {
    Options([Cookie, Query, AcceptLanguage], ["en", "ja"], "default", Some("language"), Some("language"))
  }

  /** A request with empty cookie and query maps and the given header state. */
  function HeaderRequest(header: bool, accepted: seq<string>): Request
  {
    Request(Some(map[]), Some(map[]), header, accepted)
  }

  lemma CookieScenario()
    ensures Negotiate(SampleOptions(), Request(Some(map["language" := "en"]), Some(map[]), false, [])) == "en"
  {
    var options := SampleOptions();
    var request := Request(Some(map["language" := "en"]), Some(map[]), false, []);
    assert EvalSignal(options, request, Cookie) == Some("en");
  }

  lemma QueryScenario()
    ensures Negotiate(SampleOptions(), Request(Some(map[]), Some(map["language" := "en"]), false, [])) == "en"
  {
    var options := SampleOptions();
    var request := Request(Some(map[]), Some(map["language" := "en"]), false, []);
    assert EvalSignal(options, request, Cookie) == None;
    assert EvalSignal(options, request, Query) == Some("en");
  }

  /** ["en-US"]: no exact match, so the indirect pass yields its prefix "en". */
  lemma AcceptLanguageScenario()
    ensures Negotiate(SampleOptions(), HeaderRequest(true, ["en-US"])) == "en"
  {
    var options, request := SampleOptions(), HeaderRequest(true, ["en-US"]);
    assert Prefix2("en-US") == "en";
    IndirectPassFallback(options, request, 0, "en");
    NegotiatePrecedence(options, request, 2);
  }

  /** ["ru-RU", "ja-JP"]: "ru" matches no supported prefix, "ja" does. */
  lemma UnknownLanguageScenario()
    ensures Negotiate(SampleOptions(), HeaderRequest(true, ["ru-RU", "ja-JP"])) == "ja"
  {
    var options, request := SampleOptions(), HeaderRequest(true, ["ru-RU", "ja-JP"]);
    assert Prefix2("ru-RU") == "ru" && Prefix2("ja-JP") == "ja";
    IndirectPassFallback(options, request, 1, "ja");
    NegotiatePrecedence(options, request, 2);
  }

  /** ["ru-RU", "de-DE"]: nothing matches, so the default is returned. */
  lemma DefaultScenario()
    ensures Negotiate(SampleOptions(), HeaderRequest(true, ["ru-RU", "de-DE"])) == "default"
  {
    var options, request := SampleOptions(), HeaderRequest(true, ["ru-RU", "de-DE"]);
    assert Prefix2("ru-RU") == "ru" && Prefix2("de-DE") == "de";
    AcceptLanguageNoMatch(options, request);
    DefaultFallback(options, request);
  }

  /** A supported code longer than two characters: the indirect pass returns
      the client's prefix "en", which is not in the supported list. */
  lemma LongCodeLeavesSupportedSet()
    ensures var options := Options([AcceptLanguage], ["en-US"], "default", None, None);
            var result := Negotiate(options, HeaderRequest(true, ["en-GB"]));
            result == "en" && result !in options.languages
  {
    var options := Options([AcceptLanguage], ["en-US"], "default", None, None);
    var request := HeaderRequest(true, ["en-GB"]);
    assert Prefix2("en-GB") == "en" && Prefix2("en-US") == "en";
    IndirectPassFallback(options, request, 0, "en-US");
    NegotiatePrecedence(options, request, 0);
  }

  /** An empty configured code masks later matches: `find` stops at the empty
      tag, which is falsy, so neither pass yields a match even though "en" is
      both accepted and supported. */
  lemma EmptyTagMasksLaterMatch()
    ensures var options := Options([AcceptLanguage], ["", "en"], "default", None, None);
            Negotiate(options, HeaderRequest(true, ["", "en"])) == "default"
  {
    var options := Options([AcceptLanguage], ["", "en"], "default", None, None);
    var request := HeaderRequest(true, ["", "en"]);
    FindAt(request.acceptedLanguages, (lang: string) => Contains(options.languages, lang), 0);
    var truncated := Truncate(options.languages);
    assert Prefix2("") == "" && Prefix2("en") == "en";
    FindAt(Truncate(request.acceptedLanguages), (lang: string) => Contains(truncated, lang), 0);
    DefaultFallback(options, request);
  }
}

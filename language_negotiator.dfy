/** Model of the language-negotiating middleware: a factory that validates the
    configuration, and a per-request handler that walks the configured signal
    priority and writes one language code onto the request context. */
module LanguageNegotiator {

  datatype Option<T> = None | Some(value: T)

  datatype Result<T, E> = Success(value: T) | Failure(error: E)

  /** The signal sources a priority list may name. */
  datatype Signal = Cookie | Query | AcceptLanguage

  /** The configuration record handed to the factory. The two names are
      optional; an absent or empty name falls back to "language". */
  datatype Options = Options(
    priority: seq<Signal>,
    languages: seq<string>,
    defaultLanguage: string,
    cookieName: Option<string>,
    queryParamName: Option<string>)

  /** What the handler reads from one request. `acceptLanguageHeader` is true
      when the raw accept-language header is present and non-empty;
      `acceptedLanguages` is what the framework's language parser returns
      for it, already ordered by client preference. */
  datatype Request = Request(
    cookies: Option<map<string, string>>,
    query: Option<map<string, string>>,
    acceptLanguageHeader: bool,
    acceptedLanguages: seq<string>)

  /** The only error: a configuration without supported languages. */
  datatype ConfigurationError = NoSupportedLanguage

  /** The handler the factory returns; it captures the configuration. */
  datatype Middleware = Middleware(options: Options)

  /** The request context the handler writes its result on. */
  class Context {
    const request: Request
    var language: Option<string>

    constructor (request: Request)
      ensures this.request == request && language == None
    {
      this.request := request;
      language := None;
    }
  }

  const DefaultParamName: string := "language"

  // ---------------------------------------------------------------------
  // Sequence helpers with the semantics of the JavaScript array methods

  /** Array.prototype.findIndex: the index of the first element satisfying
      `p`, or -1 when there is none. */
  function FindIndex<T>(s: seq<T>, p: T -> bool): (r: int)
    ensures -1 <= r < |s|
    ensures 0 <= r ==> p(s[r])
    ensures forall j :: 0 <= j < |s| && (r < 0 || j < r) ==> !p(s[j])
  {
    if |s| == 0 then -1
    else if p(s[0]) then 0
    else
      var k := FindIndex(s[1..], p);
      if k < 0 then -1 else k + 1
  }

  /** Array.prototype.find: the first element satisfying `p`, if any. */
  function Find<T>(s: seq<T>, p: T -> bool): (r: Option<T>)
    ensures r.None? <==> forall i :: 0 <= i < |s| ==> !p(s[i])
    ensures r.Some? ==> exists i :: 0 <= i < |s| && s[i] == r.value && p(s[i]) &&
                                   forall j :: 0 <= j < i ==> !p(s[j])
  {
    var i := FindIndex(s, p);
    if i < 0 then None else Some(s[i])
  }

  /** The `contains` helper: `indexOf(lang) > -1` over the supported list. */
  function Contains(languages: seq<string>, lang: string): (b: bool)
    ensures b <==> lang in languages
  {
    FindIndex(languages, (l: string) => l == lang) > -1
  }

  /** String.prototype.substring(0, 2): the first two characters, or the
      whole string when it is shorter. */
  function Prefix2(s: string): (r: string)
    ensures r <= s && |r| <= 2
    ensures |s| >= 2 ==> |r| == 2
    ensures |s| <= 2 ==> r == s
  {
    if |s| < 2 then s else s[..2]
  }

  /** `map(lang => lang.substring(0, 2))` over a list of tags. */
  function Truncate(tags: seq<string>): (r: seq<string>)
    ensures |r| == |tags|
    ensures forall i :: 0 <= i < |tags| ==> r[i] == Prefix2(tags[i])
  {
    seq(|tags|, i requires 0 <= i < |tags| => Prefix2(tags[i]))
  }

  /** JavaScript truthiness of a string-or-undefined value. */
  predicate Truthy(v: Option<string>)
  {
    v.Some? && v.value != ""
  }

  /** `name || 'language'`: the configured key, unless absent or empty. */
  function ParamName(name: Option<string>): (r: string)
    ensures r != ""
    ensures r == DefaultParamName || name == Some(r)
  {
    if name.Some? && name.value != "" then name.value else DefaultParamName
  }

  /** `values[key]` on an optional string map: undefined when the map or the
      key is missing. */
  function Lookup(values: Option<map<string, string>>, key: string): Option<string>
  {
    if values.Some? && key in values.value then Some(values.value[key]) else None
  }

  // ---------------------------------------------------------------------
  // Specification of one request's resolution

  /** The cookie and query signals: the value under `key` counts when it is
      non-empty and exactly one of the supported languages. */
  function ExplicitMatch(languages: seq<string>, values: Option<map<string, string>>, key: string): (r: Option<string>)
    ensures r.Some? <==> (values.Some? && key in values.value &&
                          values.value[key] != "" && values.value[key] in languages)
    ensures r.Some? ==> r.value == values.value[key]
  {
    var v := Lookup(values, key);
    if Truthy(v) && Contains(languages, v.value) then v else None
  }

  /** Direct pass: the first accepted tag that is exactly a supported language. */
  function DirectMatch(languages: seq<string>, accepted: seq<string>): Option<string>
  {
    Find(accepted, (lang: string) => Contains(languages, lang))
  }

  /** Indirect pass: the first truncated accepted tag that equals some
      truncated supported language; the truncated TAG is what is returned. */
  function IndirectMatch(languages: seq<string>, accepted: seq<string>): Option<string>
  {
    var truncatedLanguages := Truncate(languages);
    Find(Truncate(accepted), (lang: string) => Contains(truncatedLanguages, lang))
  }

  /** The accept-language signal: nothing without the header; otherwise the
      direct pass, and the indirect pass only when the direct one is falsy. */
  function AcceptLanguageMatch(languages: seq<string>, request: Request): Option<string>
  {
    if !request.acceptLanguageHeader then None
    else
      var direct := DirectMatch(languages, request.acceptedLanguages);
      if Truthy(direct) then direct
      else
        var indirect := IndirectMatch(languages, request.acceptedLanguages);
        if Truthy(indirect) then indirect else None
  }

  /** What one signal yields for a request; a yielded value is never empty. */
  function EvalSignal(options: Options, request: Request, signal: Signal): (r: Option<string>)
    ensures r.Some? ==> r.value != ""
    ensures signal != AcceptLanguage && r.Some? ==> r.value in options.languages
  {
    match signal
    case Cookie => ExplicitMatch(options.languages, request.cookies, ParamName(options.cookieName))
    case Query => ExplicitMatch(options.languages, request.query, ParamName(options.queryParamName))
    case AcceptLanguage => AcceptLanguageMatch(options.languages, request)
  }

  /** The match of the earliest signal in `signals` that yields one. */
  function FirstMatch(options: Options, request: Request, signals: seq<Signal>): Option<string>
  {
    if |signals| == 0 then None
    else
      var m := EvalSignal(options, request, signals[0]);
      if m.Some? then m else FirstMatch(options, request, signals[1..])
  }

  /** The language a request resolves to: the first match, else the default. */
  function Negotiate(options: Options, request: Request): string
  {
    match FirstMatch(options, request, options.priority)
    case Some(language) => language
    case None => options.defaultLanguage
  }

  // ---------------------------------------------------------------------
  // The factory and the per-request handler

  /** The factory: refuses an empty language list, otherwise returns the
      handler capturing the configuration unchanged. */
  function NegotiateLanguage(options: Options): (r: Result<Middleware, ConfigurationError>)
    ensures r.Failure? <==> |options.languages| == 0
    ensures r.Success? ==> r.value.options == options
  {
    if |options.languages| == 0 then Failure(NoSupportedLanguage)
    else Success(Middleware(options))
  }

  /** The per-request handler: walks the priority list, stops at the first
      signal that yields a match, and writes the match or the default onto
      the context. */
  method Handle(middleware: Middleware, context: Context)
    modifies context`language
    ensures context.language == Some(Negotiate(middleware.options, context.request))
  {
    var options := middleware.options;
    var request := context.request;
    var language := options.defaultLanguage;
    var matched: Option<string> := None;

    for i := 0 to |options.priority|
      invariant matched == None
      invariant FirstMatch(options, request, options.priority) ==
                FirstMatch(options, request, options.priority[i..])
    {
      match options.priority[i] {
        case Cookie =>
          if request.cookies.Some? {
            var cookie := Lookup(request.cookies, ParamName(options.cookieName));
            if Truthy(cookie) && Contains(options.languages, cookie.value) {
              matched := cookie;
            }
          }
        case Query =>
          if request.query.Some? {
            var query := Lookup(request.query, ParamName(options.queryParamName));
            if Truthy(query) && Contains(options.languages, query.value) {
              matched := query;
            }
          }
        case AcceptLanguage =>
          if request.acceptLanguageHeader {
            var accepted := request.acceptedLanguages;
            var directMatch := DirectMatch(options.languages, accepted);
            if Truthy(directMatch) {
              matched := directMatch;
            } else {
              var indirectMatch := IndirectMatch(options.languages, accepted);
              if Truthy(indirectMatch) {
                matched := indirectMatch;
              }
            }
          }
      }

      assert matched == EvalSignal(options, request, options.priority[i]);
      assert options.priority[i..][1..] == options.priority[i + 1..];
      if Truthy(matched) {
        break;
      }
    }

    if Truthy(matched) {
      language := matched.value;
    }
    context.language := Some(language);
  }
}

/** Properties of the resolution: precedence, fallback, what each signal can
    yield, and that repeating or appending signals changes nothing. */
module NegotiatorProperties {
  import opened LanguageNegotiator

  // ---------------------------------------------------------------------
  // The priority walk

  /** Splitting the priority list: the front part decides whenever it
      matches, and the back part is consulted only when it does not. */
  lemma {:induction false} FirstMatchAppend(options: Options, request: Request, front: seq<Signal>, back: seq<Signal>)
    ensures FirstMatch(options, request, front + back) ==
            if FirstMatch(options, request, front).Some? then FirstMatch(options, request, front)
            else FirstMatch(options, request, back)
  {
    if |front| == 0 {
      assert front + back == back;
    } else {
      assert (front + back)[0] == front[0];
      assert (front + back)[1..] == front[1..] + back;
      FirstMatchAppend(options, request, front[1..], back);
    }
  }

  /** The walk finds nothing exactly when every listed signal yields nothing. */
  lemma {:induction false} NoMatchIffAllSilent(options: Options, request: Request, signals: seq<Signal>)
    ensures FirstMatch(options, request, signals).None? <==>
            forall k :: 0 <= k < |signals| ==> EvalSignal(options, request, signals[k]).None?
  {
    if |signals| > 0 {
      NoMatchIffAllSilent(options, request, signals[1..]);
      assert forall k :: 1 <= k < |signals| ==> signals[k] == signals[1..][k - 1];
    }
  }

  /** The earliest signal that yields a match decides the walk. */
  lemma {:induction false} FirstMatchPrecedence(options: Options, request: Request, signals: seq<Signal>, k: nat)
    requires k < |signals|
    requires EvalSignal(options, request, signals[k]).Some?
    requires forall j :: 0 <= j < k ==> EvalSignal(options, request, signals[j]).None?
    ensures FirstMatch(options, request, signals) == EvalSignal(options, request, signals[k])
  {
    if k > 0 {
      assert forall j :: 0 <= j < k - 1 ==> signals[1..][j] == signals[j + 1];
      FirstMatchPrecedence(options, request, signals[1..], k - 1);
    }
  }

  /** Every match of the walk is the match of its earliest matching signal. */
  lemma {:induction false} FirstMatchWitness(options: Options, request: Request, signals: seq<Signal>)
    requires FirstMatch(options, request, signals).Some?
    ensures exists k :: 0 <= k < |signals| &&
              FirstMatch(options, request, signals) == EvalSignal(options, request, signals[k]) &&
              forall j :: 0 <= j < k ==> EvalSignal(options, request, signals[j]).None?
  {
    if EvalSignal(options, request, signals[0]).None? {
      FirstMatchWitness(options, request, signals[1..]);
      var k :| 0 <= k < |signals[1..]| &&
               FirstMatch(options, request, signals[1..]) == EvalSignal(options, request, signals[1..][k]) &&
               forall j :: 0 <= j < k ==> EvalSignal(options, request, signals[1..][j]).None?;
      assert forall j :: 0 <= j < k + 1 ==> j == 0 || signals[j] == signals[1..][j - 1];
      assert signals[k + 1] == signals[1..][k];
    } else {
      assert FirstMatch(options, request, signals) == EvalSignal(options, request, signals[0]);
    }
  }

  /** The resolved language: either no signal matches and it is the default,
      verbatim, or it is the match of the earliest matching signal. */
  lemma NegotiateIsEarliestMatchOrDefault(options: Options, request: Request)
    ensures var p := options.priority;
            ((forall k :: 0 <= k < |p| ==> EvalSignal(options, request, p[k]).None?) &&
             Negotiate(options, request) == options.defaultLanguage)
            ||
            (exists k :: 0 <= k < |p| &&
               EvalSignal(options, request, p[k]) == Some(Negotiate(options, request)) &&
               forall j :: 0 <= j < k ==> EvalSignal(options, request, p[j]).None?)
  {
    NoMatchIffAllSilent(options, request, options.priority);
    if FirstMatch(options, request, options.priority).Some? {
      FirstMatchWitness(options, request, options.priority);
    }
  }

  /** Default fallback: when nothing matches (in particular with an empty
      priority list) the default is returned as configured. */
  lemma DefaultFallback(options: Options, request: Request)
    requires forall k :: 0 <= k < |options.priority| ==> EvalSignal(options, request, options.priority[k]).None?
    ensures Negotiate(options, request) == options.defaultLanguage
  {
    NoMatchIffAllSilent(options, request, options.priority);
  }

  /** First-match precedence on the resolved language. */
  lemma NegotiatePrecedence(options: Options, request: Request, k: nat)
    requires k < |options.priority|
    requires EvalSignal(options, request, options.priority[k]).Some?
    requires forall j :: 0 <= j < k ==> EvalSignal(options, request, options.priority[j]).None?
    ensures Negotiate(options, request) == EvalSignal(options, request, options.priority[k]).value
  {
    FirstMatchPrecedence(options, request, options.priority, k);
  }

  /** The walk reads only the supported languages and the two parameter
      names of the configuration, besides the signals themselves. */
  lemma {:induction false} WalkIgnoresDefaultAndPriority(options: Options, other: Options, request: Request, signals: seq<Signal>)
    requires other.languages == options.languages
    requires other.cookieName == options.cookieName && other.queryParamName == options.queryParamName
    ensures FirstMatch(other, request, signals) == FirstMatch(options, request, signals)
  {
    if |signals| > 0 {
      WalkIgnoresDefaultAndPriority(options, other, request, signals[1..]);
    }
  }

  /** Later signals are never consulted: once the first `k` signals produce a
      match, whatever follows them may be replaced without effect. */
  lemma LaterSignalsNotConsulted(options: Options, request: Request, k: nat, rest: seq<Signal>)
    requires k <= |options.priority|
    requires FirstMatch(options, request, options.priority[..k]).Some?
    ensures Negotiate(options.(priority := options.priority[..k] + rest), request) == Negotiate(options, request)
  {
    var p := options.priority;
    var changed := options.(priority := p[..k] + rest);
    FirstMatchAppend(options, request, p[..k], rest);
    FirstMatchAppend(options, request, p[..k], p[k..]);
    assert p[..k] + p[k..] == p;
    WalkIgnoresDefaultAndPriority(options, changed, request, p[..k] + rest);
  }

  /** Repeats are harmless: dropping a later copy of a signal that already
      occurs earlier in the priority list does not change the result. */
  lemma RepeatHarmless(options: Options, request: Request, i: nat, j: nat)
    requires i < j < |options.priority|
    requires options.priority[i] == options.priority[j]
    ensures Negotiate(options.(priority := options.priority[..j] + options.priority[j + 1..]), request) ==
            Negotiate(options, request)
  {
    var p := options.priority;
    var front, back := p[..j], p[j + 1..];
    var dropped := options.(priority := front + back);
    assert p == front + ([p[j]] + back);
    FirstMatchAppend(options, request, front, [p[j]] + back);
    FirstMatchAppend(options, request, front, back);
    WalkIgnoresDefaultAndPriority(options, dropped, request, front + back);
    if FirstMatch(options, request, front).None? {
      NoMatchIffAllSilent(options, request, front);
      assert front[i] == p[j];
      assert ([p[j]] + back)[1..] == back;
    }
  }

  // ---------------------------------------------------------------------
  // The cookie and query signals

  /** A cookie or query match is exactly the non-empty, supported value
      stored under the configured name (or "language"). Hence a missing
      map, a missing key, an empty value and an unsupported value all yield
      nothing. */
  lemma ExplicitSignalIff(options: Options, request: Request, v: string)
    ensures var key := ParamName(options.cookieName);
            EvalSignal(options, request, Cookie) == Some(v) <==>
            (request.cookies.Some? && key in request.cookies.value &&
             request.cookies.value[key] == v && v != "" && v in options.languages)
    ensures var key := ParamName(options.queryParamName);
            EvalSignal(options, request, Query) == Some(v) <==>
            (request.query.Some? && key in request.query.value &&
             request.query.value[key] == v && v != "" && v in options.languages)
  {
  }

  /** Unset or empty parameter names fall back to "language". */
  lemma ParamNameDefault(name: Option<string>)
    ensures name.None? || name == Some("") ==> ParamName(name) == "language"
    ensures name.Some? && name.value != "" ==> ParamName(name) == name.value
  {
  }

  // ---------------------------------------------------------------------
  // The accept-language signal

  /** `Find` returns the element at the first index that satisfies `p`. */
  lemma FindAt<T>(s: seq<T>, p: T -> bool, i: nat)
    requires i < |s| && p(s[i])
    requires forall j :: 0 <= j < i ==> !p(s[j])
    ensures Find(s, p) == Some(s[i])
  {
    var r := FindIndex(s, p);
    assert r >= 0;
    assert !(r < i) && !(i < r);
  }

  /** Without the header the signal yields nothing, whatever the tags. */
  lemma AcceptLanguageNeedsHeader(options: Options, request: Request)
    requires !request.acceptLanguageHeader
    ensures EvalSignal(options, request, AcceptLanguage) == None
  {
  }

  /** Direct pass: the first accepted tag, in client order, that is exactly a
      supported language wins, and the indirect pass is not attempted. */
  lemma DirectPassWins(options: Options, request: Request, i: nat)
    requires request.acceptLanguageHeader
    requires i < |request.acceptedLanguages|
    requires request.acceptedLanguages[i] in options.languages && request.acceptedLanguages[i] != ""
    requires forall j :: 0 <= j < i ==> request.acceptedLanguages[j] !in options.languages
    ensures EvalSignal(options, request, AcceptLanguage) == Some(request.acceptedLanguages[i])
  {
    FindAt(request.acceptedLanguages, (lang: string) => Contains(options.languages, lang), i);
  }

  /** Indirect pass: when no accepted tag is supported exactly, the result is
      the two-character prefix of the first tag whose prefix equals the prefix
      of some supported language. */
  lemma IndirectPassFallback(options: Options, request: Request, i: nat, l: string)
    requires request.acceptLanguageHeader
    requires forall j :: 0 <= j < |request.acceptedLanguages| ==> request.acceptedLanguages[j] !in options.languages
    requires i < |request.acceptedLanguages| && Prefix2(request.acceptedLanguages[i]) != ""
    requires l in options.languages && Prefix2(l) == Prefix2(request.acceptedLanguages[i])
    requires forall j, m :: 0 <= j < i && 0 <= m < |options.languages| ==>
               Prefix2(request.acceptedLanguages[j]) != Prefix2(options.languages[m])
    ensures EvalSignal(options, request, AcceptLanguage) == Some(Prefix2(request.acceptedLanguages[i]))
  {
    var accepted, languages := request.acceptedLanguages, options.languages;
    var truncated := Truncate(languages);
    var inTruncated := (lang: string) => Contains(truncated, lang);
    assert DirectMatch(languages, accepted) == None;
    var m :| 0 <= m < |languages| && languages[m] == l;
    assert truncated[m] == Prefix2(accepted[i]);
    forall j | 0 <= j < i
      ensures !inTruncated(Truncate(accepted)[j])
    {
      assert forall n :: 0 <= n < |truncated| ==> truncated[n] != Truncate(accepted)[j];
    }
    FindAt(Truncate(accepted), inTruncated, i);
  }

  /** What the accept-language signal can yield: an accepted tag that is
      exactly supported, or a prefix of length at most two shared by some
      accepted tag and some supported language. */
  lemma AcceptLanguageResultShape(options: Options, request: Request, v: string)
    requires EvalSignal(options, request, AcceptLanguage) == Some(v)
    ensures request.acceptLanguageHeader && v != ""
    ensures (v in options.languages && v in request.acceptedLanguages) ||
            (|v| <= 2 &&
             (exists t :: t in request.acceptedLanguages && Prefix2(t) == v) &&
             (exists l :: l in options.languages && Prefix2(l) == v))
  {
    var accepted, languages := request.acceptedLanguages, options.languages;
    if !Truthy(DirectMatch(languages, accepted)) {
      var truncatedAccepted, truncated := Truncate(accepted), Truncate(languages);
      var i :| 0 <= i < |truncatedAccepted| && truncatedAccepted[i] == v &&
               Contains(truncated, truncatedAccepted[i]);
      var n :| 0 <= n < |truncated| && truncated[n] == v;
      assert accepted[i] in accepted && Prefix2(accepted[i]) == v;
      assert languages[n] in languages && Prefix2(languages[n]) == v;
    }
  }

  /** When no accepted tag shares its two-character prefix with a supported
      language, the signal yields nothing (exact matches share it too). */
  lemma AcceptLanguageNoMatch(options: Options, request: Request)
    requires forall t, l :: t in request.acceptedLanguages && l in options.languages ==> Prefix2(t) != Prefix2(l)
    ensures EvalSignal(options, request, AcceptLanguage) == None
  {
    if EvalSignal(options, request, AcceptLanguage).Some? {
      AcceptLanguageResultShape(options, request, EvalSignal(options, request, AcceptLanguage).value);
    }
  }

  // ---------------------------------------------------------------------
  // The resolved language

  /** The result is the default or a non-empty value drawn from a signal:
      a supported cookie or query value, an exactly supported accepted tag,
      or the prefix of an accepted tag. */
  lemma NegotiateProvenance(options: Options, request: Request)
    ensures var v := Negotiate(options, request);
            v == options.defaultLanguage ||
            (v != "" &&
             ((v in options.languages &&
               (Lookup(request.cookies, ParamName(options.cookieName)) == Some(v) ||
                Lookup(request.query, ParamName(options.queryParamName)) == Some(v) ||
                v in request.acceptedLanguages)) ||
              (|v| <= 2 && exists t :: t in request.acceptedLanguages && Prefix2(t) == v)))
  {
    NegotiateIsEarliestMatchOrDefault(options, request);
    var v := Negotiate(options, request);
    var p := options.priority;
    if v != options.defaultLanguage {
      var k :| 0 <= k < |p| && EvalSignal(options, request, p[k]) == Some(v);
      if p[k] == AcceptLanguage {
        AcceptLanguageResultShape(options, request, v);
      }
    }
  }

  /** With supported codes of at most two characters, the prefix policy
      cannot leave the supported set: the result is supported or the default. */
  lemma ShortCodesStaySupported(options: Options, request: Request)
    requires forall l :: l in options.languages ==> |l| <= 2
    ensures Negotiate(options, request) in options.languages ||
            Negotiate(options, request) == options.defaultLanguage
  {
    NegotiateIsEarliestMatchOrDefault(options, request);
    var v := Negotiate(options, request);
    var p := options.priority;
    if v != options.defaultLanguage {
      var k :| 0 <= k < |p| && EvalSignal(options, request, p[k]) == Some(v);
      if p[k] == AcceptLanguage {
        AcceptLanguageResultShape(options, request, v);
        forall l | l in options.languages
          ensures Prefix2(l) == l
        {
        }
      }
    }
  }

  /** With a non-empty default the resolved language is never empty. */
  lemma NegotiateNonEmpty(options: Options, request: Request)
    requires options.defaultLanguage != ""
    ensures Negotiate(options, request) != ""
  {
    NegotiateIsEarliestMatchOrDefault(options, request);
  }
}

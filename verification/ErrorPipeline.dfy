/** Converting errors at the edge of a service (grpc/middleware/error.go) and rendering them as a JSON
    body at the gateway (server/gateway.go). */
module ErrorPipeline {
  import opened Errs
  import opened I18n

  const INTERNAL_ERROR_CODE := "INTERNAL_SERVER_ERROR"
  const INTERNAL_ERROR_MESSAGE := "internal_server_error"

  /** What the conversion is set up with. `stack` and `statusText` are what the debug detail prints: the
      stack and the text of a status error. */
  datatype Config<!V> = Config(
    localize: (string, map<string, V>, string) -> string,
    format: V -> string,
    domain: string,
    debug: bool,
    stack: seq<string>,
    statusText: Status -> string)

  function Language(lang: string): string {
    if lang == "" then "en" else lang
  }

  function Translation<V>(cfg: Config<V>, e: Fields<V>, lang: string): string {
    cfg.localize(e.code, e.metadata, Language(lang))
  }

  /** The key itself means that there is no translation. */
  predicate Translates<V>(cfg: Config<V>, e: Fields<V>, lang: string) {
    Translation(cfg, e, lang) != e.code
  }

  function Localised<V>(cfg: Config<V>, e: Fields<V>, lang: string): Fields<V> {
    if Translates(cfg, e, lang) then e.(message := Translation(cfg, e, lang)) else e
  }

  function FallbackError<V>(): Fields<V> {
    Fields(UNKNOWN, INTERNAL_ERROR_CODE, INTERNAL_ERROR_MESSAGE, map[])
  }

  function Fallback<V>(cfg: Config<V>, lang: string): Status {
    GRPCStatus(Localised(cfg, FallbackError<V>(), lang), cfg.domain, cfg.format)
  }

  function ErrorText<V>(cfg: Config<V>, e: Cause<Fields<V>>): string {
    match e
    case NoError => ""
    case App(err) => err.message
    case StatusError(s) => cfg.statusText(s)
    case Plain(text) => text
    case Wrapped(text, _) => text
  }

  function Chosen<V>(cfg: Config<V>, lang: string, e: Cause<Fields<V>>): Status {
    var found := FromError(e, cfg.domain, cfg.format);
    if e.Root().App? then GRPCStatus(Localised(cfg, e.Root().err, lang), cfg.domain, cfg.format)
    else if found.ok && found.status.code != UNKNOWN then found.status
    else if cfg.debug then WithDetails(Fallback(cfg, lang), DebugInfo(cfg.stack, ErrorText(cfg, e)))
    else Fallback(cfg, lang)
  }

  /** The status of the converted error. */
  function ConvertedStatus<V>(cfg: Config<V>, lang: string, e: Cause<Fields<V>>): Status {
    var chosen := Chosen(cfg, lang, e);
    if chosen.code == INTERNAL then Fallback(cfg, lang) else chosen
  }

  function Convert<V>(cfg: Config<V>, lang: string, e: Cause<Fields<V>>): Cause<Fields<V>> {
    ErrOf(ConvertedStatus(cfg, lang, e))
  }

  // ---- The conversion on the objects ----

  /** What is left in the error given: the application error at its root has the new message. */
  function Overwritten<V>(cfg: Config<V>, e: Cause<Fields<V>>, lang: string): Cause<Fields<V>> {
    if e.Root().App? then e.WithRoot(App(Localised(cfg, e.Root().err, lang))) else e
  }

  method MakeFallback<V>(cfg: Config<V>, lang: string) returns (fallback: Status)
    requires lang != ""
    ensures fallback == Fallback(cfg, lang)
  {
    var fallbackErr := new Error<V>(UNKNOWN, INTERNAL_ERROR_CODE, INTERNAL_ERROR_MESSAGE);
    var localized := cfg.localize(fallbackErr.code, fallbackErr.metadata, lang);
    if localized != fallbackErr.code {
      fallbackErr.message := localized;
    }
    fallback := GRPCStatus(fallbackErr.Value(), cfg.domain, cfg.format);
  }

  /** Overwrites the message of the application error it is given. */
  method ConvertGRPCErrorToHTTPError<V>(cfg: Config<V>, requestLang: string, rErr: Cause<Error<V>>)
    returns (converted: Cause<Error<V>>)
    modifies Objects(rErr)
    ensures converted == ErrOf(ConvertedStatus(cfg, requestLang, old(Read(rErr))))
    ensures Read(rErr) == Overwritten(cfg, old(Read(rErr)), requestLang)
  {
    ghost var before := Read(rErr);
    RootOfRead(rErr);
    var root := rErr.Root();
    assert root.App? ==> before.Root() == App(root.err.Value());
    var lang := requestLang;
    if lang == "" {
      lang := "en";
    }
    var fallback := MakeFallback(cfg, lang);
    var stt;
    var found := FromError(Read(rErr), cfg.domain, cfg.format);
    if root.App? {
      var xErr := root.err;
      ghost var was := xErr.Value();
      WithRootTwice(rErr, before.Root(), App(Localised(cfg, xErr.Value(), requestLang)));
      var localized := cfg.localize(xErr.code, xErr.metadata, lang);
      assert localized == Translation(cfg, was, requestLang);
      if localized != xErr.code {
        xErr.message := localized;
      }
      assert xErr.Value() == Localised(cfg, was, requestLang);
      stt := GRPCStatus(xErr.Value(), cfg.domain, cfg.format);
    } else if found.ok && found.status.code != UNKNOWN {
      stt := found.status;
    } else if cfg.debug {
      stt := WithDetails(fallback, DebugInfo(cfg.stack, ErrorText(cfg, Read(rErr))));
    } else {
      stt := fallback;
    }
    assert stt == Chosen(cfg, requestLang, before);
    if stt.code == INTERNAL {
      stt := fallback;
    }
    converted := ErrOf(stt);
  }

  /** Leaves a response without error alone and converts an error, dropping the response. */
  method ErrorWrapperUnaryServerInterceptor<V, R>(cfg: Config<V>, lang: string, resp: seq<R>, rErr: Cause<Error<V>>)
    returns (resp': seq<R>, rErr': Cause<Error<V>>)
    modifies Objects(rErr)
    ensures rErr.NoError? ==> resp' == resp && rErr'.NoError?
    ensures !rErr.NoError? ==> resp' == [] && rErr' == ErrOf(ConvertedStatus(cfg, lang, old(Read(rErr))))
    ensures !rErr.NoError? ==> Read(rErr) == Overwritten(cfg, old(Read(rErr)), lang)
  {
    if !rErr.NoError? {
      rErr' := ConvertGRPCErrorToHTTPError(cfg, lang, rErr);
      return [], rErr';
    }
    resp', rErr' := resp, rErr;
  }

  // ---- What the converted error is, spelled out ----

  /** The fallback: the status Unknown (2) with the message in the request's language, English when it has none
      or else as it was. */
  lemma FallbackIs<V>(cfg: Config<V>, lang: string)
    ensures var text := cfg.localize("INTERNAL_SERVER_ERROR", map[], if lang == "" then "en" else lang);
            Fallback(cfg, lang)
              == Status(2, if text != "INTERNAL_SERVER_ERROR" then text else "internal_server_error",
                        [ErrorInfo("INTERNAL_SERVER_ERROR", cfg.domain, map[])])
  {
    assert Stringified(map[], cfg.format) == map[];
  }

  /** An application error that is neither OK (0) nor Internal (13), wrapped or not: its own code, domain and
      metadata, and its message in the request's language, English when that is not given, or its own when there
      is no translation. OK is no error, and Internal is the fallback. */
  lemma ConvertedAppIs<V>(cfg: Config<V>, lang: string, cause: Cause<Fields<V>>, e: Fields<V>)
    requires cause.Root() == App(e)
    ensures var converted := Convert(cfg, lang, cause);
            var text := cfg.localize(e.code, e.metadata, if lang == "" then "en" else lang);
            if e.statusCode == 0 then converted.NoError?
            else if e.statusCode == 13 then converted == StatusError(Fallback(cfg, lang))
            else
              && converted.StatusError? && converted.status.code == e.statusCode
              && converted.status.message == (if text != e.code then text else e.message)
              && |converted.status.details| == 1 && converted.status.details[0].ErrorInfo?
              && converted.status.details[0].reason == e.code
              && converted.status.details[0].domain == cfg.domain
              && AsText(e.metadata, cfg.format, converted.status.details[0].metadata)
  {
    GRPCStatusIs(Localised(cfg, e, lang), cfg.domain, cfg.format);
  }

  /** Every other error: a status error that is not OK, Unknown or Internal keeps its code and details, and its
      message unless it is wrapped in a text; OK is no error; and what is left is the fallback, with a detail for
      debugging that holds the stack and the text of the error when that is on and the error is not Internal. */
  lemma ConvertedOtherIs<V>(cfg: Config<V>, lang: string, cause: Cause<Fields<V>>)
    requires !cause.Root().App? && !cause.NoError?
    ensures var converted, fallback := Convert(cfg, lang, cause), Fallback(cfg, lang);
            var root := cause.Root();
            if root.StatusError? && root.status.code == 0 then converted.NoError?
            else if root.StatusError? && root.status.code == 13 then converted == StatusError(fallback)
            else if root.StatusError? && root.status.code != 2 then
              && converted.StatusError? && converted.status.code == root.status.code
              && converted.status.details == root.status.details
              && converted.status.message == if cause.Wrapped? then cause.text else root.status.message
            else if !cfg.debug then converted == StatusError(fallback)
            else
              && converted.StatusError? && converted.status.code == 2
              && converted.status.message == fallback.message
              && converted.status.details == fallback.details + [DebugInfo(cfg.stack,
                   match cause
                   case Plain(text) => text
                   case Wrapped(text, _) => text
                   case StatusError(s) => cfg.statusText(s)
                   case _ => "")]
  {
    FallbackStatus(cfg, lang);
  }

  // ---- Converting more than once ----

  /** The fields that make an application error's status the fallback's own. */
  predicate LooksLikeFallback<V>(cfg: Config<V>, lang: string, e: Fields<V>) {
    && e.code == INTERNAL_ERROR_CODE
    && e.metadata == map[]
    && (Translates(cfg, e, lang) || e.message == INTERNAL_ERROR_MESSAGE)
  }

  lemma FallbackStatus<V>(cfg: Config<V>, lang: string)
    ensures var f := Fallback(cfg, lang);
            f.code == UNKNOWN && f.details == [ErrorInfo(INTERNAL_ERROR_CODE, cfg.domain, map[])]
  {
  }

  lemma StatusAgain<V>(cfg: Config<V>, lang: string, s: Status)
    requires !cfg.debug && s.code != INTERNAL
    ensures Convert(cfg, lang, ErrOf(s)) == ErrOf(if s.code == UNKNOWN then Fallback(cfg, lang) else s)
  {
  }

  /** With debugging off a third conversion changes nothing. */
  lemma ThreeIsTwo<V>(cfg: Config<V>, lang: string, e: Cause<Fields<V>>)
    requires !cfg.debug
    ensures var twice := Convert(cfg, lang, Convert(cfg, lang, e));
            Convert(cfg, lang, twice) == twice
  {
  }

  /** No conversion yields Internal, with debugging on or off. */
  lemma NeverInternal<V>(cfg: Config<V>, lang: string, e: Cause<Fields<V>>)
    ensures ConvertedStatus(cfg, lang, e).code != INTERNAL
  {
  }

  /** Converting again changes nothing, except for application errors whose status is Unknown: those
      become the fallback the second time, unless they look like it already. */
  lemma IdempotentIff<V>(cfg: Config<V>, lang: string, e: Cause<Fields<V>>)
    requires !cfg.debug
    ensures Convert(cfg, lang, Convert(cfg, lang, e)) == Convert(cfg, lang, e) <==>
              (e.Root().App? && e.Root().err.statusCode == UNKNOWN ==> LooksLikeFallback(cfg, lang, e.Root().err))
  {
    FallbackStatus(cfg, lang);
    NeverInternal(cfg, lang, e);
    var s := ConvertedStatus(cfg, lang, e);
    StatusAgain(cfg, lang, s);
    if e.Root().App? && e.Root().err.statusCode == UNKNOWN {
      UnknownIsFallbackIff(cfg, lang, e.Root().err);
    }
  }

  lemma UnknownIsFallbackIff<V>(cfg: Config<V>, lang: string, e: Fields<V>)
    requires e.statusCode == UNKNOWN
    ensures GRPCStatus(Localised(cfg, e, lang), cfg.domain, cfg.format) == Fallback(cfg, lang)
       <==> LooksLikeFallback(cfg, lang, e)
  {
    FallbackStatus(cfg, lang);
    var strings := Stringified(e.metadata, cfg.format);
    assert strings.Keys == e.metadata.Keys;
    assert strings == map[] <==> e.metadata == map[] by {
      if strings == map[] { assert e.metadata.Keys == {}; }
    }
    var s := GRPCStatus(Localised(cfg, e, lang), cfg.domain, cfg.format);
    assert s.details[0] == ErrorInfo(e.code, cfg.domain, strings);
    assert s.details == [ErrorInfo(e.code, cfg.domain, strings)];
  }

  // ---- One error object served to many requests ----

  /** The fields of an error object after it was returned to the first n requests, which are in the given
      languages. */
  function ServedFirst<V>(cfg: Config<V>, e: Fields<V>, langs: seq<string>, n: nat): Fields<V>
    requires n <= |langs|
  {
    if n == 0 then e else Localised(cfg, ServedFirst(cfg, e, langs, n - 1), langs[n - 1])
  }

  function Served<V>(cfg: Config<V>, e: Fields<V>, langs: seq<string>): Fields<V> {
    ServedFirst(cfg, e, langs, |langs|)
  }

  /** The i-th request was the latest of the first n that had a translation. */
  ghost predicate LatestTranslated<V>(cfg: Config<V>, e: Fields<V>, langs: seq<string>, n: nat, i: nat)
    requires i < n <= |langs|
  {
    Translates(cfg, e, langs[i]) && forall j :: i < j < n ==> !Translates(cfg, e, langs[j])
  }

  lemma LocalisedAgain<V>(cfg: Config<V>, e: Fields<V>, e': Fields<V>, lang: string)
    requires e' == e.(message := e'.message)
    ensures Localised(cfg, e', lang)
         == e.(message := if Translates(cfg, e, lang) then Translation(cfg, e, lang) else e'.message)
  {
  }

  lemma {:induction false} OnlyMessage<V>(cfg: Config<V>, e: Fields<V>, langs: seq<string>, n: nat)
    requires n <= |langs|
    ensures ServedFirst(cfg, e, langs, n) == e.(message := ServedFirst(cfg, e, langs, n).message)
  {
    if n > 0 {
      OnlyMessage(cfg, e, langs, n - 1);
      LocalisedAgain(cfg, e, ServedFirst(cfg, e, langs, n - 1), langs[n - 1]);
    }
  }

  lemma {:induction false} MessageKept<V>(cfg: Config<V>, e: Fields<V>, langs: seq<string>, lo: nat, n: nat)
    requires lo <= n <= |langs| && forall i :: lo <= i < n ==> !Translates(cfg, e, langs[i])
    ensures ServedFirst(cfg, e, langs, n) == ServedFirst(cfg, e, langs, lo)
  {
    if lo < n {
      MessageKept(cfg, e, langs, lo, n - 1);
      OnlyMessage(cfg, e, langs, n - 1);
      LocalisedAgain(cfg, e, ServedFirst(cfg, e, langs, n - 1), langs[n - 1]);
    }
  }

  /** Only the message ever changes. It is the translation for the latest request that had one, or the
      original when none had. */
  lemma ServedMessage<V>(cfg: Config<V>, e: Fields<V>, langs: seq<string>)
    ensures Served(cfg, e, langs) == e.(message := Served(cfg, e, langs).message)
    ensures (forall i :: 0 <= i < |langs| ==> !Translates(cfg, e, langs[i])) ==> Served(cfg, e, langs) == e
    ensures forall i :: 0 <= i < |langs| && LatestTranslated(cfg, e, langs, |langs|, i) ==>
              Served(cfg, e, langs).message == Translation(cfg, e, langs[i])
  {
    OnlyMessage(cfg, e, langs, |langs|);
    if forall i :: 0 <= i < |langs| ==> !Translates(cfg, e, langs[i]) { MessageKept(cfg, e, langs, 0, |langs|); }
    forall i | 0 <= i < |langs| && LatestTranslated(cfg, e, langs, |langs|, i)
      ensures Served(cfg, e, langs).message == Translation(cfg, e, langs[i])
    {
      OnlyMessage(cfg, e, langs, i);
      LocalisedAgain(cfg, e, ServedFirst(cfg, e, langs, i), langs[i]);
      MessageKept(cfg, e, langs, i + 1, |langs|);
    }
  }

  /** What is left of an error after it was converted for the first n requests. */
  function OverwrittenFirst<V>(cfg: Config<V>, cause: Cause<Fields<V>>, langs: seq<string>, n: nat): Cause<Fields<V>>
    requires n <= |langs|
  {
    if n == 0 then cause else Overwritten(cfg, OverwrittenFirst(cfg, cause, langs, n - 1), langs[n - 1])
  }

  /** The conversions leave the application error as it is served, in the same wrappings, and so each request is
      answered from what the earlier ones left. */
  lemma {:induction false} ObjectServed<V>(cfg: Config<V>, cause: Cause<Fields<V>>, e: Fields<V>, langs: seq<string>,
                                           n: nat)
    requires n <= |langs| && cause.Root() == App(e)
    ensures OverwrittenFirst(cfg, cause, langs, n) == cause.WithRoot(App(ServedFirst(cfg, e, langs, n)))
    ensures forall lang :: Convert(cfg, lang, OverwrittenFirst(cfg, cause, langs, n))
                        == Convert(cfg, lang, App(ServedFirst(cfg, e, langs, n)))
  {
    RootOfWithRoot(cause, App(ServedFirst(cfg, e, langs, n)));
    if n == 0 {
      SameRoot(cause);
    } else {
      ObjectServed(cfg, cause, e, langs, n - 1);
      var before := App(ServedFirst(cfg, e, langs, n - 1));
      RootOfWithRoot(cause, before);
      WithRootTwice(cause, before, App(ServedFirst(cfg, e, langs, n)));
    }
  }

  lemma {:induction false} SameRoot<A>(cause: Cause<A>)
    ensures cause.WithRoot(cause.Root()) == cause
  {
    if cause.Wrapped? { SameRoot(cause.inner); }
  }

  /** A request in `lang` gets the same response whatever requests the error was returned to before. */
  ghost predicate HistoryInvisible<V>(cfg: Config<V>, e: Fields<V>, lang: string) {
    forall langs :: Convert(cfg, lang, App(Served(cfg, e, langs))) == Convert(cfg, lang, App(e))
  }

  /** The past does not show exactly when the code has a translation in the request's language, or no
      language would change the message, or the message is not sent at all. */
  lemma HistoryInvisibleIff<V>(cfg: Config<V>, e: Fields<V>, lang: string)
    ensures HistoryInvisible(cfg, e, lang) <==>
              || e.statusCode == OK || e.statusCode == INTERNAL
              || Translates(cfg, e, lang)
              || forall other :: Translates(cfg, e, other) ==> Translation(cfg, e, other) == e.message
  {
    if e.statusCode != OK && e.statusCode != INTERNAL && !Translates(cfg, e, lang) {
      if other :| Translates(cfg, e, other) && Translation(cfg, e, other) != e.message {
        assert ServedFirst(cfg, e, [other], 0) == e;
        assert Served(cfg, e, [other]) == Localised(cfg, e, other);
        assert Convert(cfg, lang, App(Served(cfg, e, [other]))) != Convert(cfg, lang, App(e));
      } else {
        forall langs ensures Served(cfg, e, langs) == e { NothingChanges(cfg, e, langs, |langs|); }
      }
    } else {
      forall langs ensures Convert(cfg, lang, App(Served(cfg, e, langs))) == Convert(cfg, lang, App(e)) {
        ServedMessage(cfg, e, langs);
      }
    }
  }

  lemma {:induction false} NothingChanges<V>(cfg: Config<V>, e: Fields<V>, langs: seq<string>, n: nat)
    requires n <= |langs|
    requires forall other :: Translates(cfg, e, other) ==> Translation(cfg, e, other) == e.message
    ensures ServedFirst(cfg, e, langs, n) == e
  {
    if n > 0 { NothingChanges(cfg, e, langs, n - 1); }
  }

  /** With a localizer whose fallback language lists the code, and whose message for it, in every language that
      lists it, is not empty and does not come out as the bare code, no request notices an earlier one. */
  lemma LocalizerForgetsHistory<V>(cfg: Config<V>, l: Localizer, render: (string, map<string, V>) -> Rendering,
                                   e: Fields<V>, lang: string)
    requires forall key, data, lg :: cfg.localize(key, data, lg) == Translate(l, render, key, data, lg)
    requires Has(l, l.fallback, e.code)
    requires forall lg :: Has(l, lg, e.code) ==>
               l.translations[lg][e.code] != "" && Filled(render, l.translations[lg][e.code], e.metadata) != e.code
    ensures HistoryInvisible(cfg, e, lang)
  {
    TranslatedEverywhereIff(l, render, e.code, e.metadata);
    HistoryInvisibleIff(cfg, e, lang);
  }

  /** A status error that is not OK, Unknown or Internal keeps its code and details; only a wrapping
      replaces its message. */
  lemma StatusPassesThrough<V>(cfg: Config<V>, lang: string, e: Cause<Fields<V>>, s: Status)
    requires e.Root() == StatusError(s) && s.code != OK && s.code != UNKNOWN && s.code != INTERNAL
    ensures Convert(cfg, lang, e) == StatusError(s.(message := if e.Wrapped? then e.text else s.message))
  {
  }
}

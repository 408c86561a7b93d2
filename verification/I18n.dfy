/** Looking up and rendering messages (i18n/i18n.go). `render` stands for the text/template package: the
    text a template gives for some data, or nothing when it does not parse or fails to execute. */
module I18n {

  datatype Rendering = Failed | Rendered(text: string)

  datatype Localizer = Localizer(translations: map<string, map<string, string>>, fallback: string)

  predicate Has(l: Localizer, lang: string, key: string) {
    lang in l.translations && key in l.translations[lang]
  }

  function Lookup(l: Localizer, key: string, lang: string): string {
    if lang in l.translations && key in l.translations[lang] then l.translations[lang][key]
    else if lang != l.fallback && l.fallback in l.translations then
      (if key in l.translations[l.fallback] then l.translations[l.fallback][key] else "")
    else ""
  }

  /** What comes of a message: its text with the data put in, or the message as it is. */
  function Filled<V>(render: (string, map<string, V>) -> Rendering, msg: string, data: map<string, V>): string {
    if data == map[] then msg
    else
      match render(msg, data)
      case Failed => msg
      case Rendered(text) => text
  }

  function Translate<V>(l: Localizer, render: (string, map<string, V>) -> Rendering,
                        key: string, data: map<string, V>, lang: string): string {
    var msg := Lookup(l, key, lang);
    if msg == "" then key else Filled(render, msg, data)
  }

  /** What a language's own message gives: the text with the data put in, the message as it is when there is no
      data or it cannot be put in, and the bare key for an empty message. */
  lemma TranslateOwn<V>(l: Localizer, render: (string, map<string, V>) -> Rendering, key: string, data: map<string, V>,
                        lang: string)
    requires lang in l.translations && key in l.translations[lang]
    ensures var msg := l.translations[lang][key];
            var text := Translate(l, render, key, data, lang);
            && (msg == "" ==> text == key)
            && (msg != "" && data == map[] ==> text == msg)
            && (msg != "" && data != map[] && render(msg, data).Failed? ==> text == msg)
            && (msg != "" && data != map[] && render(msg, data).Rendered? ==> text == render(msg, data).text)
  {
  }

  /** Without a message of its own a language gets that of the fallback language, and without that the key. */
  lemma TranslateFallback<V>(l: Localizer, render: (string, map<string, V>) -> Rendering, key: string,
                             data: map<string, V>, lang: string)
    requires !(lang in l.translations && key in l.translations[lang])
    ensures if l.fallback in l.translations && key in l.translations[l.fallback]
               && l.translations[l.fallback][key] != ""
            then
              var msg := l.translations[l.fallback][key];
              var text := Translate(l, render, key, data, lang);
              && (data == map[] || render(msg, data).Failed? ==> text == msg)
              && (data != map[] && render(msg, data).Rendered? ==> text == render(msg, data).text)
            else Translate(l, render, key, data, lang) == key
  {
  }

  /** A key gets a message in every language exactly when the fallback language has one and no language
      that lists the key leaves it empty: an empty entry hides the fallback's. */
  lemma EveryLanguageIff(l: Localizer, key: string)
    ensures (forall lang :: Lookup(l, key, lang) != "") <==>
              Has(l, l.fallback, key)
              && forall lang :: Has(l, lang, key) ==> l.translations[lang][key] != ""
  {
    if forall lang :: Lookup(l, key, lang) != "" {
      assert Lookup(l, key, l.fallback) != "";
      forall lang | Has(l, lang, key) ensures l.translations[lang][key] != "" {
        assert Lookup(l, key, lang) != "";
      }
    }
  }

  /** A key is translated in every language, for some data, exactly when the fallback language lists it and in
      every language that lists it the message is not empty and does not come out as the bare key. */
  lemma TranslatedEverywhereIff<V>(l: Localizer, render: (string, map<string, V>) -> Rendering, key: string,
                                   data: map<string, V>)
    ensures (forall lang :: Translate(l, render, key, data, lang) != key) <==>
              Has(l, l.fallback, key)
              && forall lang :: Has(l, lang, key) ==>
                   l.translations[lang][key] != "" && Filled(render, l.translations[lang][key], data) != key
  {
    if forall lang :: Translate(l, render, key, data, lang) != key {
      assert Translate(l, render, key, data, l.fallback) != key;
      forall lang | Has(l, lang, key)
        ensures l.translations[lang][key] != "" && Filled(render, l.translations[lang][key], data) != key
      {
        assert Translate(l, render, key, data, lang) != key;
      }
    } else {
      var lang :| Translate(l, render, key, data, lang) == key;
      assert Has(l, lang, key) || !Has(l, l.fallback, key) || Lookup(l, key, lang) == l.translations[l.fallback][key];
    }
  }

  /** A language without an entry of its own gives what the fallback language gives. */
  lemma FallsBack<V>(l: Localizer, render: (string, map<string, V>) -> Rendering, key: string, data: map<string, V>,
                     lang: string)
    requires !Has(l, lang, key)
    ensures Translate(l, render, key, data, lang) == Translate(l, render, key, data, l.fallback)
  {
  }
}

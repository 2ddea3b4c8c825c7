/**
  The language choice in inc/polylang-integration.php: the four available
  languages, the order in which a user's stored preference, the cookie and
  the default are consulted, the slug of the current language, and the
  switch request that stores a new preference.  `is_user_logged_in`, the
  user meta `homebio_locale` and the cookie are parameters; the cookie is
  taken after `sanitize_text_field`.
*/
module PolylangLocale {
  import opened Wrappers

  /** One row of `homebio_get_available_languages()`. */
  datatype Language = Language(slug: string, shortLabel: string, name: string, flag: string)

  const DefaultLocale: string := "en_US"

  /** The languages, keyed by locale, in the order the switcher lists them. */
  const Languages: seq<(string, Language)> := [
    ("en_US", Language("en", "EN", "English", "\U{1F1FA}\U{1F1F8}")),
    ("bg_BG", Language("bg", "BG", "Български", "\U{1F1E7}\U{1F1EC}")),
    ("ru_RU", Language("ru", "RU", "Русский", "\U{1F1F7}\U{1F1FA}")),
    ("uk", Language("uk", "UA", "Українська", "\U{1F1FA}\U{1F1E6}"))
  ]

  /** `$available[$locale]`, if set. */
  function Available(locale: string): (r: Option<Language>)
    ensures r.Some? <==> locale in {"en_US", "bg_BG", "ru_RU", "uk"}
  {
    LookupIn(Languages, locale)
  }

  function LookupIn(table: seq<(string, Language)>, locale: string): (r: Option<Language>)
    ensures r.Some? <==> exists k | 0 <= k < |table| :: table[k].0 == locale
    ensures r.Some? ==> exists k | 0 <= k < |table| :: table[k] == (locale, r.value)
  {
    if table == [] then None
    else if table[0].0 == locale then Some(table[0].1)
    else
      var r := LookupIn(table[1..], locale);
      assert forall k | 1 <= k < |table| :: table[k] == table[1..][k - 1];
      r
  }

  /**
    `homebio_get_preferred_locale()`: the stored preference of a logged-in
    user when it names an available language, else the cookie when it does,
    else `en_US`.
  */
  function PreferredLocale(loggedIn: bool, userLocale: string, cookie: Option<string>): (locale: string)
    ensures Available(locale).Some?
  {
    if loggedIn && userLocale != "" && Available(userLocale).Some? then userLocale
    else if cookie.Some? && Available(cookie.value).Some? then cookie.value
    else DefaultLocale
  }

  /** Each source is used exactly when the ones before it do not name an available language. */
  lemma PreferredLocalePrecedence(loggedIn: bool, userLocale: string, cookie: Option<string>)
    ensures loggedIn && Available(userLocale).Some? ==> PreferredLocale(loggedIn, userLocale, cookie) == userLocale
    ensures !(loggedIn && Available(userLocale).Some?) && cookie.Some? && Available(cookie.value).Some?
            ==> PreferredLocale(loggedIn, userLocale, cookie) == cookie.value
    ensures PreferredLocale(loggedIn, userLocale, cookie) == DefaultLocale
            || (loggedIn && PreferredLocale(loggedIn, userLocale, cookie) == userLocale)
            || (cookie.Some? && PreferredLocale(loggedIn, userLocale, cookie) == cookie.value)
  {
  }

  /** `homebio_get_current_language()`: the slug of the locale, "en" for an unknown one. */
  function CurrentLanguage(locale: string): (slug: string)
    ensures Available(locale).Some? ==> slug == Available(locale).value.slug
    ensures Available(locale).None? ==> slug == "en"
  {
    match Available(locale)
    case Some(language) => language.slug
    case None => "en"
  }

  /** The current language is always one of the four slugs, and it is that of the preferred locale. */
  lemma CurrentLanguageKnown(loggedIn: bool, userLocale: string, cookie: Option<string>)
    ensures var slug := CurrentLanguage(PreferredLocale(loggedIn, userLocale, cookie));
      slug in {"en", "bg", "ru", "uk"}
  {
    var locale := PreferredLocale(loggedIn, userLocale, cookie);
    assert locale in {"en_US", "bg_BG", "ru_RU", "uk"};
  }

  /** The preference stores: `homebio_locale` user meta by user id, and the cookie. */
  datatype LocaleStore = LocaleStore(userLocales: map<nat, string>, cookie: Option<string>)

  /** `get_user_meta($user, 'homebio_locale', true)`: "" when nothing is stored. */
  function UserLocale(store: LocaleStore, user: nat): string
  {
    if user in store.userLocales then store.userLocales[user] else ""
  }

  /**
    `homebio_ajax_switch_language()`: an empty or unknown locale is rejected
    with nothing stored; otherwise the locale is stored for a logged-in user
    (user 0 is the guest) and always in the cookie.
  */
  function SwitchLanguage(store: LocaleStore, user: nat, posted: string): (r: Option<LocaleStore>)
    ensures r.None? <==> Available(posted).None?
    ensures r.Some? ==> r.value.cookie == Some(posted)
    ensures r.Some? ==> forall u | u != user :: UserLocale(r.value, u) == UserLocale(store, u)
    ensures r.Some? && user != 0 ==> UserLocale(r.value, user) == posted
    ensures r.Some? && user == 0 ==> r.value.userLocales == store.userLocales
  {
    if posted == "" || Available(posted).None? then None
    else
      var users := if user != 0 then store.userLocales[user := posted] else store.userLocales;
      Some(LocaleStore(users, Some(posted)))
  }

  /** After a switch, the preferred locale is the one chosen, for the user and for a guest alike. */
  lemma SwitchThenPreferred(store: LocaleStore, user: nat, posted: string)
    requires SwitchLanguage(store, user, posted).Some?
    ensures var s := SwitchLanguage(store, user, posted).value;
      PreferredLocale(user != 0, UserLocale(s, user), s.cookie) == posted
  {
  }
}

/**
  The Ultimate Member customisations of inc/ultimate-member-integration.php:
  the profile menu order, the enabled-tabs filter, the flag of a locale and
  the language whitelist of the profile language tab.  A PHP array with
  string keys is an association list whose keys are distinct; assigning a
  key that is present replaces its value in place, and assigning a new key
  appends it.
*/
module ProfileTabs {
  import opened Wrappers
  import PolylangLocale

  /** A PHP array keyed by strings, in its iteration order. */
  type Tabs<V> = seq<(string, V)>

  /** `$tabs[$key]` when it is set. */
  function Lookup<V>(tabs: Tabs<V>, key: string): Option<V>
  {
    if tabs == [] then None
    else if tabs[0].0 == key then Some(tabs[0].1)
    else Lookup(tabs[1..], key)
  }

  /** Every key of the array is set. */
  lemma {:induction false} LookupAt<V>(tabs: Tabs<V>, i: nat)
    requires i < |tabs|
    ensures Lookup(tabs, tabs[i].0).Some?
  {
    if i > 0 && tabs[0].0 != tabs[i].0 {
      LookupAt(tabs[1..], i - 1);
    }
  }

  /** A key that is not among the keys is not set. */
  lemma {:induction false} LookupMissing<V>(tabs: Tabs<V>, key: string)
    requires forall i | 0 <= i < |tabs| :: tabs[i].0 != key
    ensures Lookup(tabs, key).None?
  {
    if tabs != [] {
      LookupMissing(tabs[1..], key);
    }
  }

  /** No key occurs twice, as in every PHP array. */
  predicate DistinctKeys<V>(tabs: Tabs<V>)
  {
    forall i, j | 0 <= i < j < |tabs| :: tabs[i].0 != tabs[j].0
  }

  function Keys<V>(tabs: Tabs<V>): (keys: seq<string>)
    ensures |keys| == |tabs| && forall i | 0 <= i < |tabs| :: keys[i] == tabs[i].0
  {
    seq(|tabs|, i requires 0 <= i < |tabs| => tabs[i].0)
  }

  lemma LookupAppend<V>(a: Tabs<V>, b: Tabs<V>, key: string)
    ensures Lookup(a + b, key) == if Lookup(a, key).Some? then Lookup(a, key) else Lookup(b, key)
  {
    if a != [] {
      assert (a + b)[1..] == a[1..] + b;
      LookupAppend(a[1..], b, key);
    } else {
      assert a + b == b;
    }
  }

  lemma DistinctAppend<V>(a: Tabs<V>, b: Tabs<V>)
    requires DistinctKeys(a) && DistinctKeys(b)
    requires forall i | 0 <= i < |b| :: Lookup(a, b[i].0).None?
    ensures DistinctKeys(a + b)
  {
    var r := a + b;
    forall i, j | 0 <= i < j < |r| ensures r[i].0 != r[j].0 {
      if i < |a| && j >= |a| {
        assert r[j] == b[j - |a|];
        assert Lookup(a, b[j - |a|].0).None?;
        LookupAt(a, i);
      }
    }
  }

  /** `$tabs[$key] = $value`. */
  function Assign<V>(tabs: Tabs<V>, key: string, value: V): (r: Tabs<V>)
    ensures |tabs| <= |r| <= |tabs| + 1
  {
    if tabs == [] then [(key, value)]
    else if tabs[0].0 == key then [(key, value)] + tabs[1..]
    else [tabs[0]] + Assign(tabs[1..], key, value)
  }

  /** The assigned key holds the new value; every other key keeps its own. */
  lemma {:induction false} AssignLookup<V>(tabs: Tabs<V>, key: string, value: V, k: string)
    ensures Lookup(Assign(tabs, key, value), k) == if k == key then Some(value) else Lookup(tabs, k)
  {
    if tabs != [] && tabs[0].0 != key {
      AssignLookup(tabs[1..], key, value, k);
    }
  }

  /** An existing key stays where it is; a new one is appended. */
  lemma {:induction false} AssignKeys<V>(tabs: Tabs<V>, key: string, value: V)
    ensures Lookup(tabs, key).Some? ==> Keys(Assign(tabs, key, value)) == Keys(tabs)
    ensures Lookup(tabs, key).None? ==> Keys(Assign(tabs, key, value)) == Keys(tabs) + [key]
  {
    if tabs != [] && tabs[0].0 != key {
      AssignKeys(tabs[1..], key, value);
      assert Keys(Assign(tabs, key, value)) == [tabs[0].0] + Keys(Assign(tabs[1..], key, value));
      assert Keys(tabs) == [tabs[0].0] + Keys(tabs[1..]);
    }
  }

  lemma AssignDistinct<V>(tabs: Tabs<V>, key: string, value: V)
    requires DistinctKeys(tabs)
    ensures DistinctKeys(Assign(tabs, key, value))
  {
    AssignKeys(tabs, key, value);
    var r := Assign(tabs, key, value);
    forall i, j | 0 <= i < j < |r| ensures r[i].0 != r[j].0 {
      assert Keys(r)[i] == r[i].0 && Keys(r)[j] == r[j].0;
      if Lookup(tabs, key).None? && j == |tabs| {
        assert Keys(tabs)[i] == tabs[i].0;
        LookupAt(tabs, i);
      } else {
        assert Keys(tabs)[i] == tabs[i].0 && Keys(tabs)[j] == tabs[j].0;
      }
    }
  }

  // ---------------------------------------------------------------------------
  // homebio_um_enabled_profile_tabs

  /** `homebio_um_enabled_profile_tabs`: `favorites` and `language` set to true, in place or appended. */
  method EnabledTabs(tabs: Tabs<bool>) returns (r: Tabs<bool>)
    ensures Lookup(r, "favorites") == Some(true) && Lookup(r, "language") == Some(true)
    ensures forall k | k != "favorites" && k != "language" :: Lookup(r, k) == Lookup(tabs, k)
    ensures Keys(tabs) <= Keys(r) && |r| <= |tabs| + 2
    ensures DistinctKeys(tabs) ==> DistinctKeys(r)
  {
    var r0 := Assign(tabs, "favorites", true);
    r := Assign(r0, "language", true);
    forall k ensures Lookup(r, k) == if k == "favorites" || k == "language" then Some(true) else Lookup(tabs, k) {
      TwoAssignsLookup(tabs, k);
    }
    TwoAssignsKeys(tabs);
  }

  lemma TwoAssignsLookup(tabs: Tabs<bool>, k: string)
    ensures Lookup(Assign(Assign(tabs, "favorites", true), "language", true), k)
            == if k == "favorites" || k == "language" then Some(true) else Lookup(tabs, k)
  {
    AssignLookup(tabs, "favorites", true, k);
    AssignLookup(Assign(tabs, "favorites", true), "language", true, k);
  }

  lemma TwoAssignsKeys(tabs: Tabs<bool>)
    ensures var r := Assign(Assign(tabs, "favorites", true), "language", true);
      Keys(tabs) <= Keys(r) && (DistinctKeys(tabs) ==> DistinctKeys(r))
  {
    var r0 := Assign(tabs, "favorites", true);
    AssignKeys(tabs, "favorites", true);
    AssignKeys(r0, "language", true);
    assert Keys(tabs) <= Keys(r0);
    if DistinctKeys(tabs) {
      AssignDistinct(tabs, "favorites", true);
      AssignDistinct(r0, "language", true);
    }
  }

  // ---------------------------------------------------------------------------
  // homebio_um_profile_menu_order

  const PreferredOrder: seq<string> := ["main", "favorites", "language"]

  /** The first `foreach`: the preferred keys that are set, in the preferred order. */
  function Pick<V>(tabs: Tabs<V>, order: seq<string>): (r: Tabs<V>)
    ensures forall i | 0 <= i < |r| :: r[i].0 in order && Lookup(tabs, r[i].0) == Some(r[i].1)
  {
    if order == [] then []
    else
      var key := order[|order| - 1];
      Pick(tabs, order[..|order| - 1]) + (if Lookup(tabs, key).Some? then [(key, Lookup(tabs, key).value)] else [])
  }

  /** The second `foreach`: the other tabs, in their original order. */
  function Others<V>(tabs: Tabs<V>): (r: Tabs<V>)
    ensures forall i | 0 <= i < |r| :: r[i].0 !in PreferredOrder
  {
    if tabs == [] then []
    else
      var last := tabs[|tabs| - 1];
      Others(tabs[..|tabs| - 1]) + (if last.0 !in PreferredOrder then [last] else [])
  }

  /** The reordered menu, as a reference definition. */
  function Reordered<V>(tabs: Tabs<V>): Tabs<V>
  {
    Pick(tabs, PreferredOrder) + Others(tabs)
  }

  /** A key among the picked ones is looked up as in the input; any other is absent. */
  lemma {:induction false} PickLookup<V>(tabs: Tabs<V>, order: seq<string>, key: string)
    ensures key in order ==> Lookup(Pick(tabs, order), key) == Lookup(tabs, key)
    ensures key !in order ==> Lookup(Pick(tabs, order), key).None?
    decreases |order|
  {
    if order != [] {
      var front := order[..|order| - 1];
      var last := order[|order| - 1];
      PickLookup(tabs, front, key);
      assert order == front + [last];
      LookupAppend(Pick(tabs, front), if Lookup(tabs, last).Some? then [(last, Lookup(tabs, last).value)] else [], key);
    }
  }

  lemma {:induction false} PickDistinct<V>(tabs: Tabs<V>, order: seq<string>)
    requires forall i, j | 0 <= i < j < |order| :: order[i] != order[j]
    ensures DistinctKeys(Pick(tabs, order))
    decreases |order|
  {
    if order != [] {
      var front := order[..|order| - 1];
      var last := order[|order| - 1];
      PickDistinct(tabs, front);
      assert last !in front;
      PickLookup(tabs, front, last);
      DistinctAppend(Pick(tabs, front), if Lookup(tabs, last).Some? then [(last, Lookup(tabs, last).value)] else []);
    }
  }

  /** A non-preferred key is looked up in the other tabs as in the input; the other tabs keep no key twice. */
  lemma {:induction false} OthersLookup<V>(tabs: Tabs<V>, key: string)
    requires DistinctKeys(tabs)
    ensures key !in PreferredOrder ==> Lookup(Others(tabs), key) == Lookup(tabs, key)
    ensures key in PreferredOrder ==> Lookup(Others(tabs), key).None?
    ensures Lookup(tabs, key).None? ==> Lookup(Others(tabs), key).None?
    ensures DistinctKeys(Others(tabs))
    decreases |tabs|
  {
    if tabs != [] {
      var front := tabs[..|tabs| - 1];
      var last := tabs[|tabs| - 1];
      assert tabs == front + [last];
      assert DistinctKeys(front);
      OthersLookup(front, key);
      OthersLookup(front, last.0);
      LookupAppend(front, [last], key);
      var tail := if last.0 !in PreferredOrder then [last] else [];
      LookupAppend(Others(front), tail, key);
      PrefixLacksKey(tabs, |tabs| - 1);
      DistinctAppend(Others(front), tail);
    }
  }

  /** The reordered menu holds the same tabs with the same values, each once: a permutation of the input. */
  lemma ReorderedSameTabs<V>(tabs: Tabs<V>)
    requires DistinctKeys(tabs)
    ensures forall key :: Lookup(Reordered(tabs), key) == Lookup(tabs, key)
    ensures DistinctKeys(Reordered(tabs))
  {
    forall key ensures Lookup(Reordered(tabs), key) == Lookup(tabs, key) {
      PickLookup(tabs, PreferredOrder, key);
      OthersLookup(tabs, key);
      LookupAppend(Pick(tabs, PreferredOrder), Others(tabs), key);
    }
    PickDistinct(tabs, PreferredOrder);
    OthersLookup(tabs, "");
    forall i | 0 <= i < |Others(tabs)| ensures Lookup(Pick(tabs, PreferredOrder), Others(tabs)[i].0).None? {
      PickLookup(tabs, PreferredOrder, Others(tabs)[i].0);
    }
    DistinctAppend(Pick(tabs, PreferredOrder), Others(tabs));
  }

  /** The menu starts with `main`, `favorites`, `language`, in that order, for whichever are set. */
  lemma ReorderedPreferredFirst<V>(tabs: Tabs<V>)
    ensures var r := Reordered(tabs); var n := |Pick(tabs, PreferredOrder)|;
      n <= |r|
      && (forall i | 0 <= i < n :: r[i].0 in PreferredOrder)
      && (forall i | n <= i < |r| :: r[i].0 !in PreferredOrder)
      && (forall i, j | 0 <= i < j < n :: Rank(r[i].0) < Rank(r[j].0))
  {
    PickOrdered(tabs, PreferredOrder);
    var r := Reordered(tabs);
    var p := Pick(tabs, PreferredOrder);
    forall i | 0 <= i < |p| ensures r[i].0 in PreferredOrder { assert r[i] == p[i]; }
    forall i | |p| <= i < |r| ensures r[i].0 !in PreferredOrder { assert r[i] == Others(tabs)[i - |p|]; }
    forall i, j | 0 <= i < j < |p| ensures Rank(r[i].0) < Rank(r[j].0) { assert r[i] == p[i] && r[j] == p[j]; }
  }

  /** Position of a preferred key. */
  function Rank(key: string): nat
  {
    if key == "main" then 0 else if key == "favorites" then 1 else 2
  }

  /** Ranks strictly increase and stay below `bound`. */
  predicate PickRanked<V>(p: Tabs<V>, bound: nat)
  {
    (forall i, j | 0 <= i < j < |p| :: Rank(p[i].0) < Rank(p[j].0))
    && (forall i | 0 <= i < |p| :: Rank(p[i].0) < bound)
  }

  lemma {:induction false} PickOrdered<V>(tabs: Tabs<V>, order: seq<string>)
    requires order <= PreferredOrder
    ensures PickRanked(Pick(tabs, order), |order|)
    decreases |order|
  {
    if order != [] {
      var front := order[..|order| - 1];
      assert front <= PreferredOrder;
      PickOrdered(tabs, front);
      var last := order[|order| - 1];
      assert last == PreferredOrder[|order| - 1];
      assert Rank(last) == |order| - 1;
      var p := Pick(tabs, order);
      var q := Pick(tabs, front);
      forall i, j | 0 <= i < j < |p| ensures Rank(p[i].0) < Rank(p[j].0) {
        assert p[i] == q[i];
        if j < |q| {
          assert p[j] == q[j];
          assert Rank(q[i].0) < Rank(q[j].0);
        } else {
          assert p[j].0 == last;
          assert Rank(q[i].0) < |front|;
        }
      }
      forall i | 0 <= i < |p| ensures Rank(p[i].0) < |order| {
        if i < |q| {
          assert p[i] == q[i];
        }
      }
    }
  }

  /** Removing the preferred tabs from the input and from the output gives the same sequence. */
  lemma {:induction false} OthersOfReordered<V>(tabs: Tabs<V>)
    ensures Others(Reordered(tabs)) == Others(tabs)
  {
    OthersAppend(Pick(tabs, PreferredOrder), Others(tabs));
    OthersNone(Pick(tabs, PreferredOrder));
    OthersIdempotent(tabs);
  }

  lemma {:induction false} OthersAppend<V>(a: Tabs<V>, b: Tabs<V>)
    ensures Others(a + b) == Others(a) + Others(b)
    decreases |b|
  {
    if b == [] {
      assert a + b == a;
    } else {
      var front, last := b[..|b| - 1], b[|b| - 1];
      OthersAppend(a, front);
      assert b == front + [last];
      OthersAppendStep(a, front, last);
    }
  }

  lemma OthersAppendStep<V>(a: Tabs<V>, front: Tabs<V>, last: (string, V))
    requires Others(a + front) == Others(a) + Others(front)
    ensures Others(a + (front + [last])) == Others(a) + Others(front + [last])
  {
    assert a + (front + [last]) == (a + front) + [last];
    OthersSnoc(a + front, last);
    OthersSnoc(front, last);
  }

  lemma OthersSnoc<V>(s: Tabs<V>, x: (string, V))
    ensures Others(s + [x]) == Others(s) + (if x.0 !in PreferredOrder then [x] else [])
  {
    assert (s + [x])[..|s|] == s;
  }

  lemma {:induction false} OthersNone<V>(tabs: Tabs<V>)
    requires forall i | 0 <= i < |tabs| :: tabs[i].0 in PreferredOrder
    ensures Others(tabs) == []
    decreases |tabs|
  {
    if tabs != [] {
      OthersNone(tabs[..|tabs| - 1]);
    }
  }

  lemma {:induction false} OthersKept<V>(tabs: Tabs<V>)
    requires forall i | 0 <= i < |tabs| :: tabs[i].0 !in PreferredOrder
    ensures Others(tabs) == tabs
    decreases |tabs|
  {
    if tabs != [] {
      OthersKept(tabs[..|tabs| - 1]);
    }
  }

  lemma OthersIdempotent<V>(tabs: Tabs<V>)
    ensures Others(Others(tabs)) == Others(tabs)
  {
    OthersKept(Others(tabs));
  }

  /** `homebio_um_profile_menu_order`: the two loops that build `$new_order`. */
  method MenuOrder<V>(tabs: Tabs<V>) returns (ordered: Tabs<V>)
    requires DistinctKeys(tabs)
    ensures ordered == Reordered(tabs)
  {
    ordered := [];
    for p := 0 to |PreferredOrder|
      invariant ordered == Pick(tabs, PreferredOrder[..p])
    {
      assert PreferredOrder[..p + 1][..p] == PreferredOrder[..p];
      var key := PreferredOrder[p];
      var tab := Lookup(tabs, key);
      if tab.Some? {
        ordered := ordered + [(key, tab.value)];
      }
    }
    assert PreferredOrder[..|PreferredOrder|] == PreferredOrder;
    for i := 0 to |tabs|
      invariant ordered == Pick(tabs, PreferredOrder) + Others(tabs[..i])
    {
      assert tabs[..i + 1][..i] == tabs[..i];
      var key := tabs[i].0;
      TabIsNew(tabs, i);
      if Lookup(ordered, key).None? {
        ordered := ordered + [tabs[i]];
      }
    }
    assert tabs[..|tabs|] == tabs;
  }

  /** In the second loop, a tab is already in `$new_order` exactly when it is a preferred one. */
  lemma TabIsNew<V>(tabs: Tabs<V>, i: nat)
    requires DistinctKeys(tabs) && i < |tabs|
    ensures Lookup(Pick(tabs, PreferredOrder) + Others(tabs[..i]), tabs[i].0).None? <==> tabs[i].0 !in PreferredOrder
  {
    var key := tabs[i].0;
    PickLookup(tabs, PreferredOrder, key);
    LookupAt(tabs, i);
    PrefixLacksKey(tabs, i);
    OthersLookup(tabs[..i], key);
    LookupAppend(Pick(tabs, PreferredOrder), Others(tabs[..i]), key);
  }

  /** In an array without repeated keys, a key does not occur before its own position. */
  lemma PrefixLacksKey<V>(tabs: Tabs<V>, i: nat)
    requires DistinctKeys(tabs) && i < |tabs|
    ensures DistinctKeys(tabs[..i]) && Lookup(tabs[..i], tabs[i].0).None?
  {
    var front := tabs[..i];
    forall j | 0 <= j < |front| ensures front[j].0 != tabs[i].0 {
      assert front[j] == tabs[j];
    }
    LookupMissing(front, tabs[i].0);
  }

  // ---------------------------------------------------------------------------
  // homebio_get_language_flag and the language tab

  const GlobeFlag: string := "\U{1F310}"

  /** `homebio_get_language_flag`: the flag of one of the four locales, the globe for anything else. */
  function LanguageFlag(locale: string): (flag: string)
    ensures locale !in LanguageCodes ==> flag == GlobeFlag
    ensures locale in LanguageCodes ==> flag == PolylangLocale.Available(locale).value.flag
  {
    if locale == "en_US" then "\U{1F1FA}\U{1F1F8}"
    else if locale == "bg_BG" then "\U{1F1E7}\U{1F1EC}"
    else if locale == "ru_RU" then "\U{1F1F7}\U{1F1FA}"
    else if locale == "uk" then "\U{1F1FA}\U{1F1E6}"
    else GlobeFlag
  }

  /** The keys of `$languages` in the language tab. */
  const LanguageCodes: seq<string> := ["en_US", "bg_BG", "ru_RU", "uk"]

  /** The tab offers exactly the languages the switcher knows. */
  lemma LanguageCodesAvailable(code: string)
    ensures code in LanguageCodes <==> PolylangLocale.Available(code).Some?
  {
  }

  /**
    The submission handling of `homebio_um_profile_content_language`: the
    `preferred_language` meta of the profile owner is replaced only for a
    signed-in owner with a valid nonce who posted one of the four codes.
  */
  function SubmitLanguage(loggedIn: bool, profileUser: nat, currentUser: nat, nonceValid: bool,
                          posted: Option<string>, preferences: map<nat, string>): (r: map<nat, string>)
    ensures r != preferences ==> loggedIn && profileUser == currentUser && nonceValid
                                 && posted.Some? && posted.value in LanguageCodes
    ensures loggedIn && profileUser == currentUser && nonceValid && posted.Some? && posted.value in LanguageCodes
            ==> r == preferences[profileUser := posted.value]
  {
    if !loggedIn || profileUser != currentUser then preferences
    else if nonceValid && posted.Some? && posted.value in LanguageCodes then preferences[profileUser := posted.value]
    else preferences
  }
}

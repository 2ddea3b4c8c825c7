# homebio theme core, modelled in Dafny

This project models the logic at the core of the homebio WordPress theme and
proves what it promises.

**The gettext compiler.** It turns a PO catalog into a binary MO file and
exists twice in the theme:
- the `PO_To_MO_Compiler` class in `languages/compile-mo.php` (the class);
- `homebio_compile_po_to_mo` and its helpers in `inc/polylang-integration.php`
  (the hook).

Both copies share a line scanner and a writer:
- The scanner handles `msgid`, `msgid_plural`, `msgstr`, `msgstr[N]`,
  continuation lines, comments and C escapes, and builds a catalog from
  original to translation.
- The writer packs the catalog into the MO layout of section 10.3 of the GNU
  gettext manual: a 7-word little-endian header, two tables of (length,
  offset) pairs, and the NUL-terminated strings.
- `Copy = ThemeCompiler | PolylangCompiler` selects the three places where
  the scanners differ:
  - which `msgstr[N]` lines match;
  - which slot such a line fills;
  - the guard on a continuation line.

**The language choice** in `inc/polylang-integration.php`:
- the four available locales;
- the order in which the user meta, the cookie and the default are
  consulted;
- the current language slug;
- the switch request;
- the daily recompile rule.

**The per-user stores.** Each is a class whose field is the user-meta table,
a map from user id to list:
- favorites (`inc/favorites.php`);
- notifications (`inc/notifications.php`), with the field-change detector,
  price formatting and relative dates.

**Ultimate Member customisations** (`inc/ultimate-member-integration.php`):
the profile menu order, the enabled tabs, the flags and the language
whitelist.

**Modules**, one per concern:

| module | models |
|---|---|
| `ByteString` | bytes, `ksort` order, NUL joining |
| `PhpString` | `explode`, `trim`, `substr`, `stripcslashes`, integer printing and parsing |
| `PoScan` | the scanner state and `save_entry` / `extract_string` |
| `PoParse` | line classification and the loop as a function |
| `PoLoop` | the loop as the source runs it |
| `PoText` | what is read back from PO text written the usual way |
| `PoQuote` | quote handling |
| `MoFormat` | the image and a reader for it |
| `MoWrite` | the writer loops |
| `CompileMo` | the class |
| `PolylangCompile` | the hook and the recompile rule |
| `PolylangLocale` | the language choice |
| `Favorites` | favorites |
| `NotificationFormat` | change detection, prices, dates |
| `Notifications` | the notification store |
| `ProfileTabs` | the profile tabs |

**How the loops are modelled.** Where the source loops and mutates, the model
is a method, and its loop invariant ties its locals to a reference function:
- `PoLoop.ParseLines`;
- `MoWrite.BuildTable` and `MoWrite.PackMo`;
- `PolylangCompile.AutoCompile`;
- the `NotificationStore` methods;
- `ProfileTabs.MenuOrder`.

The properties are proved about those functions.

**Quotes.** Both copies remove delimiters with `trim($line, '"')`, which cuts
every quote at either end, not just one pair.
- The model keeps that behaviour.
- `PoQuote.TrailingQuoteLost` shows the consequence: a translation ending in
  `"` comes back ending in a backslash.
- `PoQuote.ExtractQuoted` is the one-pair reading. It inverts the PO escaping
  for every string and agrees with the source whenever the text neither
  starts nor ends with a quote.
- The PO writer used by the round-trip lemmas (`PoText`) escapes a quote as
  the octal escape `\042`, which the source decodes correctly.
- This is the second row under "## Findings". The scanner still models the
  code as written, so the parser's lemmas describe what the source does;
  `PoQuote.ExtractQuotedAgrees` shows the two readings agree on every body
  that neither starts nor ends with a quote, the empty one included, and
  `PoQuote.EscapedAgrees` applies it to every string the round-trip lemmas
  write.

**Meta keys.** The profile language tab saves the `preferred_language` meta
(`homebio_save_user_language` in `inc/user-cabinet.php`). The locale choice
reads `homebio_locale`. The model keeps the two stores separate, as the code
does.

## Model

| member | source | states |
|---|---|---|
| PhpString.ExplodeImplode | wp-content/themes/homebio-theme/languages/compile-mo.php:35 | `explode("\n", ...)` gives back every line of a text joined from lines without a line feed |
| PhpString.TrimQuotesPair | wp-content/themes/homebio-theme/languages/compile-mo.php:144 | `trim($s, '"')` returns a quote-free body between one pair of quotes unchanged |
| PhpString.SubstrAfterPrefix | wp-content/themes/homebio-theme/languages/compile-mo.php:143 | `substr($line, strlen($prefix))` undoes prepending the prefix, and a line starts with the prefix exactly when putting the prefix back before that rest gives the line |
| PhpString.StripCSlashesEscape | wp-content/themes/homebio-theme/languages/compile-mo.php:145 | `stripcslashes` decodes C-escaped text back to the original bytes |
| PhpString.NewlineEscape | wp-content/themes/homebio-theme/languages/compile-mo.php:145 | the escape `\n` decodes to byte 0x0A, with the text around it unchanged |
| PhpString.StripCSlashesShrinks | wp-content/themes/homebio-theme/languages/compile-mo.php:145 | decoding escapes never makes the text longer |
| PhpString.IntOfDigits | wp-content/themes/homebio-theme/inc/polylang-integration.php:277 | `(int)$matches[1]` is the decimal value of the digits, saturated at PHP_INT_MAX |
| PhpString.DigitsValueDecimal | wp-content/themes/homebio-theme/inc/polylang-integration.php:282 | the printed index `'msgstr[' . $plural_index . '] '` reads back as the same index |
| PhpString.DecimalNoLeadingZero | wp-content/themes/homebio-theme/inc/polylang-integration.php:282 | a printed index starts with `0` exactly when it is 0, so it is the digits a writer uses |
| ByteString.SortedKeys | wp-content/themes/homebio-theme/languages/compile-mo.php:158 | `ksort` over the originals gives every key exactly once, in strictly ascending byte order |
| ByteString.SortedIndices | wp-content/themes/homebio-theme/languages/compile-mo.php:129 | `ksort` over the plural slots gives every slot index exactly once, in strictly ascending order |
| ByteString.SplitJoinNul | wp-content/themes/homebio-theme/languages/compile-mo.php:130 | `implode("\0", ...)` of NUL-free forms splits back into those forms |
| ByteString.LessTransitive | wp-content/themes/homebio-theme/languages/compile-mo.php:158 | the byte-wise order `ksort` is modelled with is transitive |
| ByteString.LessTotal | wp-content/themes/homebio-theme/languages/compile-mo.php:158 | any two distinct keys are ordered one way or the other |
| PoScan.ExtractEscaped | wp-content/themes/homebio-theme/languages/compile-mo.php:142-147 | a quoted string in the escaping that writes quotes in octal comes back unchanged after the keyword is removed |
| PoScan.ExtractPlain | wp-content/themes/homebio-theme/inc/polylang-integration.php:338-343 | a body without quotes or backslashes loses exactly its enclosing quotes |
| PoScan.AppendToField | wp-content/themes/homebio-theme/languages/compile-mo.php:102-103 | a continuation appends to the active string field only; every other field and the slots are unchanged |
| PoScan.AppendToSlot | wp-content/themes/homebio-theme/languages/compile-mo.php:100-101 | a continuation appends to slot `$plural_index` (an unset slot reads as empty); other slots and fields are unchanged |
| PoScan.SaveEntry | wp-content/themes/homebio-theme/languages/compile-mo.php:119-137 | the entry's pair is stored, overwriting that key only; an entry that commits nothing leaves the catalog as it was |
| PoScan.PluralCommit | wp-content/themes/homebio-theme/languages/compile-mo.php:125-132 | a plural entry is stored under `msgid \0 msgid_plural`, and its translation splits at NUL into the forms in slot order |
| PoScan.PluralFormsOrdered | wp-content/themes/homebio-theme/languages/compile-mo.php:129-130 | the plural forms are the slot values in strictly ascending index order, each slot once |
| PoScan.UntranslatedDropped | wp-content/themes/homebio-theme/languages/compile-mo.php:133-136 | an entry with neither `msgstr` nor both `msgid_plural` and a slot adds nothing |
| PoScan.LaterEntryWins | wp-content/themes/homebio-theme/languages/compile-mo.php:131-135 | committing a later entry with the same original keeps only the later translation |
| PoParse.IndexedMatch | wp-content/themes/homebio-theme/languages/compile-mo.php:77 | a match is `msgstr[`, one or more digits, `]` and the separator; it reports those digits and the match length |
| PoParse.IndexedMatchFound | wp-content/themes/homebio-theme/inc/polylang-integration.php:276 | every line of the form `msgstr[<digits>]<separator>...` matches, with exactly those digits |
| PoParse.ScanAt | wp-content/themes/homebio-theme/languages/compile-mo.php:37-38 | line i is classified from raw line i alone |
| PoParse.RunAppend | wp-content/themes/homebio-theme/languages/compile-mo.php:37-106 | reading two runs of lines one after the other is reading their concatenation |
| PoParse.CommentsIgnored | wp-content/themes/homebio-theme/languages/compile-mo.php:41-43 | removing a line whose trimmed text starts with `#` changes nothing the loop reaches |
| PoParse.ContinuationAppends | wp-content/themes/homebio-theme/languages/compile-mo.php:97-105 | a continuation line goes to the active plural slot, else to the set active field, else nowhere |
| PoParse.RunConsistent | wp-content/themes/homebio-theme/inc/polylang-integration.php:296-303 | in every state the loop reaches, `$plural_index` names a slot that exists, and the hook's key `msgstr_plural` implies an active slot |
| PoParse.ContinuationGuardsAgree | wp-content/themes/homebio-theme/inc/polylang-integration.php:298 | on reachable states the class's guard (line 100 of compile-mo.php) and the hook's per-slot guard take the same branch |
| PoParse.RunAgree | wp-content/themes/homebio-theme/languages/compile-mo.php:37-106 | after the same classified lines, both copies have the same catalog, entry and slot |
| PoParse.CopiesAgree | wp-content/themes/homebio-theme/languages/compile-mo.php:24-114 | when the two copies classify every line alike, they build the same catalog |
| PoLoop.ParseLines | wp-content/themes/homebio-theme/languages/compile-mo.php:35-111 | the imperative loop over the lines, with the final commit, returns exactly the catalog `Parse` defines |
| PoLoop.Advance | wp-content/themes/homebio-theme/languages/compile-mo.php:37-106 | one iteration updates `$entries`, `$entry`, `$key` and `$plural_index` as one `Step` |
| CompileMo.ParsePo | wp-content/themes/homebio-theme/languages/compile-mo.php:24-114 | an unreadable file gives `false` (None); a readable one gives the class's catalog |
| PoText.ParseRoundTrip | wp-content/themes/homebio-theme/languages/compile-mo.php:24-114 | a PO file of `msgid`/`msgstr` pairs, each followed by a blank line, parses to those pairs; a later pair overrides an earlier one |
| PoText.TightRoundTrip | wp-content/themes/homebio-theme/languages/compile-mo.php:46-61 | a PO file of `msgid`/`msgstr` pairs with no blank line and no final newline still parses to those pairs in both copies: each `msgid` commits the entry before it and the commit after the loop (lines 108-111) keeps the last one |
| PoText.PluralRoundTrip | wp-content/themes/homebio-theme/inc/polylang-integration.php:276-284 | a plural entry with `msgstr[0..n-1]` is read as `singular \0 plural` mapped to the forms joined by NUL; in the class only for up to ten forms |
| PoText.SlotsInOrder | wp-content/themes/homebio-theme/languages/compile-mo.php:129-130 | slots 0..n-1 holding the forms read back as those forms, in order |
| PoText.TenthFormMisread | wp-content/themes/homebio-theme/languages/compile-mo.php:77-85 | `msgstr[10]` is slot 1 in the class (first digit) and slot 10 in the hook |
| PoText.EleventhFormOverwritesSecond | wp-content/themes/homebio-theme/languages/compile-mo.php:84-85 | in the class, the eleventh form's line replaces the second form |
| PoText.SameSlotTwice | wp-content/themes/homebio-theme/languages/compile-mo.php:85 | two lines for the same slot leave the later text in it |
| PoQuote.StripCSlashesPoEscape | wp-content/themes/homebio-theme/languages/compile-mo.php:145 | `stripcslashes` undoes the PO escaping with `\\`, `\"` and `\n` |
| PoQuote.TrailingQuoteLost | wp-content/themes/homebio-theme/languages/compile-mo.php:144 | a translation ending in a quote, written `"a\""`, is read back as `a\` |
| PoQuote.ExtractQuotedRoundTrip | wp-content/themes/homebio-theme/languages/compile-mo.php:142-147 | with exactly one pair of delimiting quotes removed, every escaped string comes back |
| PoQuote.ExtractQuotedAgrees | wp-content/themes/homebio-theme/languages/compile-mo.php:142-147 | the one-pair reading agrees with `extract_string` whenever the body neither starts nor ends with a quote, the empty body `""` included |
| PoQuote.EscapedAgrees | wp-content/themes/homebio-theme/languages/compile-mo.php:142-147 | on any string written with the octal quote escape, as the round-trip lemmas write it, the one-pair reading and `extract_string` give the same result |
| MoFormat.Le32Read | wp-content/themes/homebio-theme/languages/compile-mo.php:197-203 | each `pack('V', n)` word reads back as n modulo 2^32 |
| MoFormat.LeBytesValue | wp-content/themes/homebio-theme/languages/compile-mo.php:197 | the little-endian bytes of a number below 256^w read back as that number |
| MoFormat.Image | wp-content/themes/homebio-theme/languages/compile-mo.php:172-219 | the image is 28 bytes of header, 16 per entry, then both string pools |
| MoFormat.ImageHeader | wp-content/themes/homebio-theme/languages/compile-mo.php:197-203 | the header words are 0x950412de, 0, N, 28, 28+8N, 0, 28+16N |
| MoFormat.OriginalDescriptor | wp-content/themes/homebio-theme/languages/compile-mo.php:182-188 | original i's pair is its length and 28+16N plus the sizes of the originals before it |
| MoFormat.TranslationDescriptor | wp-content/themes/homebio-theme/languages/compile-mo.php:190-194 | translation offsets carry on after the last original string |
| MoFormat.ImageOriginal | wp-content/themes/homebio-theme/languages/compile-mo.php:184-188 | each original's (length, offset) pair points to that original, NUL-terminated |
| MoFormat.ImageTranslation | wp-content/themes/homebio-theme/languages/compile-mo.php:190-194 | each translation's (length, offset) pair points to that translation, NUL-terminated |
| MoFormat.MoRoundTrip | wp-content/themes/homebio-theme/languages/compile-mo.php:152-219 | an MO reader gets back exactly the originals and translations that were packed |
| MoFormat.PoolSize | wp-content/themes/homebio-theme/languages/compile-mo.php:186-187 | each string moves the running offset by its length plus one |
| MoWrite.SortedEntriesWritten | wp-content/themes/homebio-theme/languages/compile-mo.php:154-161 | without the header, the originals are strictly ascending, each beside its own translation, and every non-empty key is there |
| MoWrite.HeaderFirst | wp-content/themes/homebio-theme/languages/compile-mo.php:166-170 | putting a non-empty header first keeps the list ascending and the pairing intact |
| MoWrite.MoEntriesWritten | wp-content/themes/homebio-theme/languages/compile-mo.php:153-170 | a key is written iff it is not the header or the header is non-empty; keys are ascending with a non-empty header at 0 |
| MoWrite.PoolLength | wp-content/themes/homebio-theme/languages/compile-mo.php:184-194 | a string table is the sum of the string lengths plus one NUL per string |
| MoWrite.ImageLength | wp-content/themes/homebio-theme/languages/compile-mo.php:172-219 | the image is 28 + 16N bytes plus the sum of (length + 1) over all strings |
| MoWrite.BuildTable | wp-content/themes/homebio-theme/languages/compile-mo.php:184-194 | the loop's table, pair list and final offset are the string pool, its descriptors and the offset past the pool |
| MoWrite.PackPairs | wp-content/themes/homebio-theme/languages/compile-mo.php:206-215 | packing the pairs one by one gives the packed pair list |
| MoWrite.HeaderPacked | wp-content/themes/homebio-theme/languages/compile-mo.php:197-203 | the seven `pack('V', ...)` calls give the seven header words |
| MoWrite.TablesBuilt | wp-content/themes/homebio-theme/languages/compile-mo.php:172-215 | the header words and the two pair lists the loops build are the image's tables |
| MoWrite.PackMo | wp-content/themes/homebio-theme/languages/compile-mo.php:172-219 | the loops produce exactly the image of the two lists |
| MoWrite.WriteMo | wp-content/themes/homebio-theme/inc/polylang-integration.php:348-405 | both writers produce the image of the catalog's entries in `MoEntries` order |
| MoWrite.WrittenReadsBack | wp-content/themes/homebio-theme/languages/compile-mo.php:152-219 | reading the written image gives one ascending table holding the whole catalog (an empty header left out) |
| CompileMo.DefaultMoPathOfPo | wp-content/themes/homebio-theme/languages/compile-mo.php:229 | `x.po` becomes `x.mo`; before a final newline too, as PCRE's `$` allows |
| CompileMo.DefaultMoPathChanges | wp-content/themes/homebio-theme/languages/compile-mo.php:229 | a path is changed iff it ends in `.po` (or `.po` and a newline), and a second replacement changes nothing |
| CompileMo.Compile | wp-content/themes/homebio-theme/languages/compile-mo.php:227-238 | the path is the given one or the default; the bytes are the image of the class's catalog; an unreadable PO gives `false` |
| CompileMo.CompiledReadsBack | wp-content/themes/homebio-theme/languages/compile-mo.php:227-238 | a PO file of pairs compiles, in either copy, to an image that reads back as exactly those pairs |
| PolylangCompile.CompilePoToMo | wp-content/themes/homebio-theme/inc/polylang-integration.php:224-312 | the hook writes the image of its own catalog, or returns `false` for an unreadable file |
| PolylangCompile.CompiledImageReadsBack | wp-content/themes/homebio-theme/inc/polylang-integration.php:224-312 | the image the hook writes reads back as the catalog it parsed |
| PolylangCompile.AutoCompile | wp-content/themes/homebio-theme/inc/polylang-integration.php:185-217 | outside the admin or with no check due, nothing changes; else the options are stamped and the selected files compiled |
| PolylangCompile.RecompiledMembers | wp-content/themes/homebio-theme/inc/polylang-integration.php:210-217 | a compile is attempted for exactly each PO file whose MO is missing or older, or for every PO file when the version changed, to the MO path beside it; its bytes are `None`, and nothing is written, when the PO file cannot be read |
| PolylangCompile.VersionChangeRecompilesAll | wp-content/themes/homebio-theme/inc/polylang-integration.php:214 | a version change recompiles every PO file, in `glob` order |
| PolylangCompile.UpToDateSkipped | wp-content/themes/homebio-theme/inc/polylang-integration.php:214 | with the same version, MO files no older than their PO files are left alone |
| PolylangLocale.Available | wp-content/themes/homebio-theme/inc/polylang-integration.php:18-45 | exactly the four locales `en_US`, `bg_BG`, `ru_RU`, `uk` are available |
| PolylangLocale.PreferredLocale | wp-content/themes/homebio-theme/inc/polylang-integration.php:50-71 | the preferred locale is always an available one |
| PolylangLocale.PreferredLocalePrecedence | wp-content/themes/homebio-theme/inc/polylang-integration.php:50-71 | the user meta wins for a signed-in user, then the cookie, then `en_US` |
| PolylangLocale.CurrentLanguageKnown | wp-content/themes/homebio-theme/inc/polylang-integration.php:411-420 | the current language is one of `en`, `bg`, `ru`, `uk` |
| PolylangLocale.SwitchLanguage | wp-content/themes/homebio-theme/inc/polylang-integration.php:142-178 | an empty or unknown locale is rejected; else the cookie is set, a signed-in user's `homebio_locale` becomes the posted locale, a guest's switch writes no meta, and no other user's meta changes |
| PolylangLocale.SwitchThenPreferred | wp-content/themes/homebio-theme/inc/polylang-integration.php:142-178 | after a switch the preferred locale is the one chosen, for a user and a guest alike |
| Favorites.RemoveFirst | wp-content/themes/homebio-theme/inc/favorites.php:72-76 | removing takes one occurrence of the id out of the multiset and changes nothing when the id is absent |
| Favorites.RemoveFirstAt | wp-content/themes/homebio-theme/inc/favorites.php:72-76 | the list without the id is the list cut around the first occurrence, in order |
| Favorites.RemoveFirstDistinct | wp-content/themes/homebio-theme/inc/favorites.php:62-82 | on a list without duplicates, the id is gone afterwards, every other id stays, and there are still no duplicates |
| Favorites.ToggleTwice | wp-content/themes/homebio-theme/inc/favorites.php:87-95 | toggling twice restores membership, and restores the list when the id was absent |
| Favorites.Search | wp-content/themes/homebio-theme/inc/favorites.php:72 | `array_search`: the first index holding the id, or not found iff the id is absent |
| Favorites.FavoriteStore.Add | wp-content/themes/homebio-theme/inc/favorites.php:39-57 | true iff there is a user and the id was absent; then it is appended and written, and the user's `homebio_get_favorites_count` grows by exactly one; otherwise nothing is written; no duplicate is ever added |
| Favorites.FavoriteStore.Remove | wp-content/themes/homebio-theme/inc/favorites.php:62-82 | true iff there is a user and the id was present; then its first occurrence is removed, the rest in order, and the user's `homebio_get_favorites_count` drops by exactly one; otherwise nothing is written |
| Favorites.FavoriteStore.Toggle | wp-content/themes/homebio-theme/inc/favorites.php:87-95 | returns the negation of the earlier membership, which is the new membership for a user without duplicates; for a signed-in user the toggled list is stored and every other user's entry is unchanged; for a guest nothing is written |
| NotificationFormat.ChangesUpToSpec | wp-content/themes/homebio-theme/inc/notifications.php:299-346 | the changes are exactly the differing fields, each once, in the order price, area, bedrooms, bathrooms, address |
| NotificationFormat.TitleAndStatusIgnored | wp-content/themes/homebio-theme/inc/notifications.php:288-346 | a change to the title or status alone produces no change entry |
| NotificationFormat.DetectChanges | wp-content/themes/homebio-theme/inc/notifications.php:283-346 | no snapshot gives no changes; otherwise the changes over all five fields |
| NotificationFormat.FormatPrice | wp-content/themes/homebio-theme/inc/notifications.php:380-385 | `-` exactly for an empty price; otherwise `€` followed by the number |
| NotificationFormat.FormatPriceValue | wp-content/themes/homebio-theme/inc/notifications.php:380-385 | the price text reads back as the price: `€`, a minus sign for a negative one, then its digits |
| NotificationFormat.GroupedRoundTrip | wp-content/themes/homebio-theme/inc/notifications.php:384 | the grouped digits, spaces skipped, read back as the number |
| NotificationFormat.GroupedShape | wp-content/themes/homebio-theme/inc/notifications.php:384 | every space is followed by a full group of three digits |
| NotificationFormat.FormatDate | wp-content/themes/homebio-theme/inc/notifications.php:594-625 | under 60 s is "just now"; then floor minutes, hours or days within their bounds; from one week on, the absolute date |
| NotificationFormat.FormatDateMonotone | wp-content/themes/homebio-theme/inc/notifications.php:594-625 | as time passes the date is never shown in a finer unit |
| Notifications.Prepend | wp-content/themes/homebio-theme/inc/notifications.php:74-77 | the new notification is first, followed by the old ones in order, with at most 50 kept |
| Notifications.MarkFirstAt | wp-content/themes/homebio-theme/inc/notifications.php:96-101 | only the first notification with the id is marked read |
| Notifications.MarkFirstAbsent | wp-content/themes/homebio-theme/inc/notifications.php:96-101 | without a match nothing changes |
| Notifications.WithoutMembers | wp-content/themes/homebio-theme/inc/notifications.php:140-142 | the kept notifications are exactly those with another id; nothing is removed when the id is absent |
| Notifications.WithoutAppend | wp-content/themes/homebio-theme/inc/notifications.php:140-144 | deleting works piece by piece, so the kept ones keep their relative order |
| Notifications.Unread | wp-content/themes/homebio-theme/inc/notifications.php:34-38 | the unread filter keeps exactly the notifications that are not read |
| Notifications.UnreadMultiplicity | wp-content/themes/homebio-theme/inc/notifications.php:34-38 | the filter keeps every unread notification as many times as it is stored, and no read one |
| Notifications.MarkedAllNoneUnread | wp-content/themes/homebio-theme/inc/notifications.php:112-124 | after marking all, none is unread; one mark lowers the unread count by at most one |
| Notifications.SortByDate | wp-content/themes/homebio-theme/inc/notifications.php:30-32 | sorting is a permutation of the notifications |
| Notifications.SortByDateSorted | wp-content/themes/homebio-theme/inc/notifications.php:30-32 | the listing is newest first |
| Notifications.UnreadSorted | wp-content/themes/homebio-theme/inc/notifications.php:34-38 | filtering a newest-first list keeps it newest first |
| Notifications.UnreadSortByDate | wp-content/themes/homebio-theme/inc/notifications.php:49-52 | sorting does not change the number of unread notifications |
| Notifications.UnreadSortByDateMultiset | wp-content/themes/homebio-theme/inc/notifications.php:22-41 | filtering the sorted list keeps exactly the unread notifications of the stored list, with their multiplicities |
| Notifications.DeliveredSpec | wp-content/themes/homebio-theme/inc/notifications.php:361-374 | each favoriting user's newest notification is the new unread update, dated now; other users are untouched |
| Notifications.NotificationStore.Listing | wp-content/themes/homebio-theme/inc/notifications.php:22-41 | the listing is empty without stored notifications and newest first; it is a permutation of all of them, or, for the unread listing, of exactly the unread ones, each as often as it is stored, so its length is the unread count |
| Notifications.NotificationStore.UnreadCount | wp-content/themes/homebio-theme/inc/notifications.php:49-52 | the count is the size of the unread filter |
| Notifications.NotificationStore.Add | wp-content/themes/homebio-theme/inc/notifications.php:61-80 | the user's list becomes the new unread notification followed by the old list, capped at 50 |
| Notifications.NotificationStore.MarkRead | wp-content/themes/homebio-theme/inc/notifications.php:89-104 | false iff nothing is stored; otherwise only the first match is marked read |
| Notifications.NotificationStore.MarkAllRead | wp-content/themes/homebio-theme/inc/notifications.php:112-124 | false iff nothing is stored; otherwise every notification is marked read and none is unread |
| Notifications.NotificationStore.Delete | wp-content/themes/homebio-theme/inc/notifications.php:133-145 | false iff nothing is stored; otherwise every notification with the id is removed |
| Notifications.NotificationStore.DeleteAll | wp-content/themes/homebio-theme/inc/notifications.php:153-155 | the user's entry is removed, so the listing and the unread count are empty |
| Notifications.NotificationStore.CompareAndNotify | wp-content/themes/homebio-theme/inc/notifications.php:276-375 | no snapshot or no change leaves every list alone; otherwise each favoriting user gets the update |
| ProfileTabs.AssignLookup | wp-content/themes/homebio-theme/inc/ultimate-member-integration.php:45-46 | `$tabs[$key] = $value`: that key holds the value, every other key keeps its own |
| ProfileTabs.AssignKeys | wp-content/themes/homebio-theme/inc/ultimate-member-integration.php:45-46 | an existing key stays where it is; a new key is appended |
| ProfileTabs.EnabledTabs | wp-content/themes/homebio-theme/inc/ultimate-member-integration.php:44-48 | `favorites` and `language` are enabled; every other key and every existing position is unchanged |
| ProfileTabs.Pick | wp-content/themes/homebio-theme/inc/ultimate-member-integration.php:225-229 | the first loop copies only preferred keys, with their input values |
| ProfileTabs.Others | wp-content/themes/homebio-theme/inc/ultimate-member-integration.php:232-236 | the second loop adds only the non-preferred tabs |
| ProfileTabs.PickLookup | wp-content/themes/homebio-theme/inc/ultimate-member-integration.php:225-229 | a preferred key is in the first part with its input value iff it is set |
| ProfileTabs.OthersLookup | wp-content/themes/homebio-theme/inc/ultimate-member-integration.php:232-236 | a non-preferred key keeps its input value in the second part |
| ProfileTabs.ReorderedSameTabs | wp-content/themes/homebio-theme/inc/ultimate-member-integration.php:218-239 | the reordered menu has the same keys and values, each once: a permutation |
| ProfileTabs.ReorderedPreferredFirst | wp-content/themes/homebio-theme/inc/ultimate-member-integration.php:223-229 | `main`, `favorites`, `language` come first, in that order, for those set; then the rest |
| ProfileTabs.PickOrdered | wp-content/themes/homebio-theme/inc/ultimate-member-integration.php:223-229 | the preferred tabs appear in strictly increasing preferred position |
| ProfileTabs.OthersOfReordered | wp-content/themes/homebio-theme/inc/ultimate-member-integration.php:231-236 | the other tabs keep their original relative order |
| ProfileTabs.OthersIdempotent | wp-content/themes/homebio-theme/inc/ultimate-member-integration.php:231-236 | filtering out the preferred tabs twice is filtering once |
| ProfileTabs.MenuOrder | wp-content/themes/homebio-theme/inc/ultimate-member-integration.php:218-239 | the two loops build exactly the reordered menu |
| ProfileTabs.LanguageFlag | wp-content/themes/homebio-theme/inc/ultimate-member-integration.php:183-192 | the flag of one of the four locales, the globe for anything else |
| ProfileTabs.LanguageCodesAvailable | wp-content/themes/homebio-theme/inc/ultimate-member-integration.php:125-130 | the tab offers exactly the languages the switcher knows |
| ProfileTabs.SubmitLanguage | wp-content/themes/homebio-theme/inc/ultimate-member-integration.php:132-141 | the preference changes only for the signed-in owner with a valid nonce and a listed code, and then to that code |

## Left out

- File and command-line I/O. PO contents and the MO bytes are values; an unreadable file is `None`. Not modelled: `file_put_contents` success, `glob`, `filemtime`, and the command-line driver (`languages/compile-mo.php:241-263`).
- WordPress services are parameters or are left out: user meta, options, transients, nonces, `is_user_logged_in`, `sanitize_text_field` (its input is taken as already cleaned), and the JSON exits. `update_user_meta` return values are not modelled; the store methods return `true` after a write.
- Nondeterminism: `uniqid`, `current_time`, `time` and `strtotime` become id and integer timestamp parameters.
- `homebio_get_users_with_favorite` (an SQL `LIKE` query) is a parameter. The capture, save-post and shutdown hooks (`inc/notifications.php:182-271`) are not modelled, nor is sending e-mail (`inc/notifications.php:393-460`). Only `homebio_compare_and_notify` is modelled.
- The locale filters, `apply_locale` and the switcher markup (`inc/polylang-integration.php:77-126`) are hooks and rendering, and are left out.
- The AJAX handlers, the favorite button, `homebio_get_favorite_properties` (a `WP_Query`), and `homebio_um_add_profile_tabs` (`inc/ultimate-member-integration.php:24-38`, tab definitions with translated labels) are not modelled. The same goes for the tab content rendering and the favorites tab count.
- PHP quirks not reproduced:
  - `empty("0")` is taken as false, so only the empty line is blank; likewise `!empty($header)` (`languages/compile-mo.php:166`, `inc/polylang-integration.php:354`) is taken to drop only an empty header, while PHP also drops a header of `0`.
  - `ksort` is modelled as byte-wise order. PHP turns integer-like keys into integers, and PHP 8 also compares two numeric-string keys by their numeric value (so `2.5` sorts before `10`, which byte order puts first); neither is modelled.
  - Ids are integers or strings compared exactly, not loosely.
  - `isset` on a tab whose value is `null` is taken as set.
- `array_filter` in the unread listing keeps the original keys. The model returns the filtered list; the keys are not modelled.
- NotificationFormat.FormatPrice: prices are whole numbers. The `number_format` rounding of a fractional price and a non-numeric price are not modelled. An unset price and a price of `"0"` are both the integer 0 here.
- NotificationFormat.FormatDate: the relative texts and the `date_i18n` format are not modelled; the result is the bucket and its count.
- NotificationFormat.DetectChanges: the labels are the untranslated English captions. Area, rooms and address are compared as exact strings rather than with PHP's loose `!=`. The price is compared as an integer, so PHP's `!=` on the price meta is not modelled: a move between an unset price and `"0"` is a change in PHP (`"" != "0"`, reported as `-` to `-`) and no change in the model.
- PoScan.FieldValue: the scanner's slot array is not a string field, so `$entry[$key] .= $str` on it is never modelled; `PoParse.RunConsistent` shows the loop never reaches that case.
- PoText.PluralRoundTrip: in the class, the round trip is stated for up to ten forms. `PoText.EleventhFormOverwritesSecond` shows what happens beyond that.
- MoFormat.MoRoundTrip: stated for images below 4 GiB, where every offset fits the 32-bit `pack('V')` words. Above that `Le32Read` gives the wrap-around.

## Findings

| source | as written | input that shows it | evidently intended | confidence | as-written member | corrected member |
|---|---|---|---|---|---|---|
| wp-content/themes/homebio-theme/languages/compile-mo.php:78-85 | the class takes the slot from the first digit after `msgstr[`, so `msgstr[10]` fills slot 1 | a plural entry with eleven forms (`msgstr[0]` .. `msgstr[10]`): the eleventh replaces the second | the full index, as the hook reads it (`inc/polylang-integration.php:276-277`) | not executed | PoText.EleventhFormOverwritesSecond | PoText.PluralRoundTrip |
| wp-content/themes/homebio-theme/languages/compile-mo.php:144 | `trim($s, '"')` removes every quote at either end, not one pair; the same code is at `inc/polylang-integration.php:340` | `msgstr "a\""`, the escaped form of `a"`: it is read back as `a\` | strip exactly one pair of enclosing quotes, then decode the escapes | not executed | PoQuote.TrailingQuoteLost | PoQuote.ExtractQuotedRoundTrip |

# Native gettext translator of WP Performance Pack, in Dafny

WP Performance Pack's `WPPP_Native_Gettext` replaces WordPress's PHP-side
MO parser with the C gettext library. An object of the class is a
translator. It has:

- one bound gettext domain, set by `import_from_file`;
- a codepage;
- two precedence lists of other translators. One is filled by
  `merge_with` and consulted before the object's own domain. The other is
  filled by `merge_originals_with` and consulted after it.

`translate` and `translate_plural` walk the lists in order. The first
answer that differs from the caller's fallback wins.

`import_from_file` does not parse the catalog. It finds a content-addressed
name for it: the file's stem, a dash and the md5 of its bytes. It then
copies the file to `<WP_CONTENT_DIR>/wppp/localize/<locale>/LC_MESSAGES/<name>.mo`,
unless a file is already there, and binds the domain.

The project has five files:

- `wrappers.dfy`: `Option`.
- `text.dfy` (module `Text`): the PHP string primitives the class relies on.
  These are `str_replace("\r\n", "\n", ·)`, `explode(',', ·)` and `trim`.
  `Text.Join` is not used by the class; it is the inverse of `explode`, used
  to state and prove what `explode` does.
- `resolution.dfy` (module `Resolution`):
  - A translator as a value: `Noop` (WordPress's `NOOP_Translations`) or
    `Native(domain, pOthers, sOthers)`.
  - gettext as a pair of functions passed in (`dgettext`, `dngettext`).
  - `translate` and `translate_plural` as mutually recursive functions over
    the translator tree.
  - The plural-form rule.
- `store.dfy` (module `ContentStore`):
  - The filesystem and gettext's binding table as one `Store` value.
  - The domain-id derivation (`basename`/`pathinfo`).
  - `import_from_file` as a function from store to outcome and new store.
  - md5 and the failures of `wp_mkdir_p` and `copy` are parameters.
- `native_gettext.dfy` (module `L10n`):
  - The class `NativeGettext` with the source's four fields.
  - Its merge methods, its read-only stubs, and `ImportFromFile`. That is
    the imperative `import_from_file` acting on a `Host` object, which holds
    the files, directories and bindings, proved against
    `ContentStore.Import`.
  - `isAvailable`.

## Model

| member | source | states |
|---|---|---|
| Resolution.Translate | wp-performance-pack/modules/l10n_improvements/class.wppp_native_gettext.php:86-89 | an empty singular is returned as it is, whatever the translator |
| Resolution.Resolved | wp-performance-pack/modules/l10n_improvements/class.wppp_native_gettext.php:92-93 | one answer per translator of a list, in order (`ResolvedAppend` and `ResolvedProvenance` state the rest); the `foreach` calls at lines 92-93 and 116-117 |
| Resolution.LookupKey | wp-performance-pack/modules/l10n_improvements/class.wppp_native_gettext.php:100-110 | no contract of its own: the message id handed to `dgettext`; `ContextKeyNeverPlainKey`, `ContextKeyInjective` and the `Text.Normalize…` lemmas state its properties |
| Resolution.FirstDiffering | wp-performance-pack/modules/l10n_improvements/class.wppp_native_gettext.php:92-94 | the index the `foreach` loop stops at: every earlier answer equals the fallback, and the one at the index (if any) does not |
| Resolution.TranslateHigherWins | wp-performance-pack/modules/l10n_improvements/class.wppp_native_gettext.php:91-94 | the first translator merged above that translates the string decides the result, whatever the own domain and the lower translators say |
| Resolution.TranslateUnbound | wp-performance-pack/modules/l10n_improvements/class.wppp_native_gettext.php:96-98 | with no domain and no answer from above, the singular comes back, even if a lower translator knows it |
| Resolution.TranslateNativeHit | wp-performance-pack/modules/l10n_improvements/class.wppp_native_gettext.php:100-113 | with no answer from above, a dgettext result different from the lookup key is returned |
| Resolution.TranslateLowerFallback | wp-performance-pack/modules/l10n_improvements/class.wppp_native_gettext.php:115-118 | when dgettext echoes the key, the first lower translator that answers decides |
| Resolution.TranslateNoMatch | wp-performance-pack/modules/l10n_improvements/class.wppp_native_gettext.php:86-121 | when no translator and no domain answers, the singular comes back untranslated |
| Resolution.TranslatePlural | wp-performance-pack/modules/l10n_improvements/class.wppp_native_gettext.php:135-137 | a native translator returns an empty singular as it is |
| Resolution.ResolvedPlural | wp-performance-pack/modules/l10n_improvements/class.wppp_native_gettext.php:143-144 | one plural answer per translator of a list, in order (`ResolvedPluralAppend`, `ResolvedPluralProvenance`); the `foreach` calls at lines 143-144 and 168-169 |
| Resolution.PluralDefault | wp-performance-pack/modules/l10n_improvements/class.wppp_native_gettext.php:140 | no contract of its own: the caller's fallback; `PluralDefaultSelectsForm` states its meaning |
| Resolution.TranslatePluralHigherWins | wp-performance-pack/modules/l10n_improvements/class.wppp_native_gettext.php:142-145 | the first translator above whose plural answer differs from the count's default decides |
| Resolution.TranslatePluralUnbound | wp-performance-pack/modules/l10n_improvements/class.wppp_native_gettext.php:147-149 | for a non-empty singular, without a domain and an answer from above, the default (`singular` for one item, else `plural`) comes back; an empty singular comes back as itself by `TranslatePlural`'s own `ensures` |
| Resolution.TranslatePluralNativeHit | wp-performance-pack/modules/l10n_improvements/class.wppp_native_gettext.php:151-165 | a dngettext answer that differs from both normalised keys is returned |
| Resolution.TranslatePluralNativeMiss | wp-performance-pack/modules/l10n_improvements/class.wppp_native_gettext.php:156-172 | an answer equal to either key counts as a miss; with no lower answer the default comes back |
| Resolution.TranslatePluralLowerFallback | wp-performance-pack/modules/l10n_improvements/class.wppp_native_gettext.php:167-170 | after a native miss, the first lower translator whose answer differs from the default decides |
| Resolution.SelectPluralForm | wp-performance-pack/modules/l10n_improvements/class.wppp_native_gettext.php:43-45 | the form index is below the form count, and it is 0 exactly when the count is 1 |
| Resolution.PluralFormsCount | wp-performance-pack/modules/l10n_improvements/class.wppp_native_gettext.php:47 | no contract of its own: the constant 2; `SelectPluralForm`'s contract keeps every form index below it |
| Resolution.PluralDefaultSelectsForm | wp-performance-pack/modules/l10n_improvements/class.wppp_native_gettext.php:140 | the plural fallback is the entry of `[singular, plural]` that `select_plural_form` picks |
| Resolution.ContextKeyNeverPlainKey | wp-performance-pack/modules/l10n_improvements/class.wppp_native_gettext.php:100-110 | a key built with a context never collides with a plain key whose message is free of the separator byte 0x04 |
| Resolution.ContextKeyInjective | wp-performance-pack/modules/l10n_improvements/class.wppp_native_gettext.php:109 | context keys determine their context and their normalised message, for contexts without the separator |
| Resolution.ResolvedAppend | wp-performance-pack/modules/l10n_improvements/class.wppp_native_gettext.php:59 | appending to a precedence list appends that translator's answer to the list of answers |
| Resolution.ResolvedPluralAppend | wp-performance-pack/modules/l10n_improvements/class.wppp_native_gettext.php:59 | the same for plural answers |
| Resolution.FirstDifferingAppend | wp-performance-pack/modules/l10n_improvements/class.wppp_native_gettext.php:92-94 | appending keeps the loop's stopping index, unless it ran off the end |
| Resolution.TranslateAfterMergeWith | wp-performance-pack/modules/l10n_improvements/class.wppp_native_gettext.php:50-61 | after `merge_with(other)`, a string some earlier higher translator decides keeps its translation; otherwise the new translator overrides the domain and the lower ones whenever it answers |
| Resolution.TranslateAfterMergeOriginalsWith | wp-performance-pack/modules/l10n_improvements/class.wppp_native_gettext.php:63-75 | after `merge_originals_with(other)`, a translated string stays as it was; only an untranslated one can now come from `other` |
| Resolution.TranslatePluralAfterMergeWith | wp-performance-pack/modules/l10n_improvements/class.wppp_native_gettext.php:57-61 | the `merge_with` property for `translate_plural` |
| Resolution.TranslatePluralAfterMergeOriginalsWith | wp-performance-pack/modules/l10n_improvements/class.wppp_native_gettext.php:71-75 | the `merge_originals_with` property for `translate_plural` |
| Resolution.DomainsOfElement | wp-performance-pack/modules/l10n_improvements/class.wppp_native_gettext.php:20-22 | helper lemma: the domains of a merged translator are among the domains of the list |
| Resolution.FoundInMono | wp-performance-pack/modules/l10n_improvements/class.wppp_native_gettext.php:104 | helper lemma: an answer found in some set of domains is found in any larger set |
| Resolution.FoundPluralInMono | wp-performance-pack/modules/l10n_improvements/class.wppp_native_gettext.php:155 | helper lemma: the same for plural answers |
| Resolution.TranslateProvenance | wp-performance-pack/modules/l10n_improvements/class.wppp_native_gettext.php:86-121 | `translate` returns the singular or a dgettext answer, different from the key, from a domain bound somewhere in the tree |
| Resolution.ResolvedProvenance | wp-performance-pack/modules/l10n_improvements/class.wppp_native_gettext.php:92-94 | every answer of a precedence list is the singular or a real translation from one of its domains |
| Resolution.TranslatePluralProvenance | wp-performance-pack/modules/l10n_improvements/class.wppp_native_gettext.php:134-173 | for a non-empty singular, `translate_plural` returns the default or a dngettext answer, different from both keys, from a bound domain; an empty singular comes back as itself by `TranslatePlural`'s own `ensures` |
| Resolution.ResolvedPluralProvenance | wp-performance-pack/modules/l10n_improvements/class.wppp_native_gettext.php:143-145 | for a non-empty singular, every plural answer of a list is the default or a real translation from one of its domains |
| Resolution.TranslateUntranslated | wp-performance-pack/modules/l10n_improvements/class.wppp_native_gettext.php:86-121 | when no domain in the tree knows the key, `translate` is the identity |
| Resolution.TranslatePluralUntranslated | wp-performance-pack/modules/l10n_improvements/class.wppp_native_gettext.php:134-173 | for a non-empty singular, when no domain knows the pair, `translate_plural` gives the singular for one item and the plural otherwise; an empty singular comes back as itself for every count by `TranslatePlural`'s own `ensures` |
| Resolution.ScenarioOwnCatalogBeatsLower | wp-performance-pack/modules/l10n_improvements/class.wppp_native_gettext.php:100-118 | with catalogs "self" and "low" both translating "Cat", the object's own catalog wins |
| Resolution.ScenarioPluralFallback | wp-performance-pack/modules/l10n_improvements/class.wppp_native_gettext.php:140-172 | with empty catalogs, five items give the plural text |
| Resolution.LowerWalkAgrees | wp-performance-pack/modules/l10n_improvements/class.wppp_native_gettext.php:115-120 | on a list without null entries, the loop over the lower list gives what `Translate`'s lower walk gives |
| Resolution.AppendOriginalAsWritten | wp-performance-pack/modules/l10n_improvements/class.wppp_native_gettext.php:73 | no contract of its own: line 73 as written, appending `null`; `MergeOriginalsAsWrittenFails` states its effect |
| Resolution.LowerWalkAsWritten | wp-performance-pack/modules/l10n_improvements/class.wppp_native_gettext.php:116-120 | no contract of its own: the lower loop over entries that may be `null`; `LowerWalkAgrees` and `MergeOriginalsAsWrittenFails` state its behaviour |
| Resolution.MergeOriginalsAsWrittenFails | wp-performance-pack/modules/l10n_improvements/class.wppp_native_gettext.php:71-75 | as written, once the lower loop at line 116 is reached (a domain is bound, its dgettext misses and nothing merged above answers), a string that no earlier lower translator translates ends in a call on null; with the argument appended, the loop returns the argument's own answer (the list is lifted to PHP entries that may be null by the helper `Lift`) |
| Text.CrlfCountZero | wp-performance-pack/modules/l10n_improvements/class.wppp_native_gettext.php:103 | a string has no CRLF pair exactly when the independent pair count is 0 |
| Text.NormalizeNewlines | wp-performance-pack/modules/l10n_improvements/class.wppp_native_gettext.php:103 | no contract of its own: `str_replace("\r\n", "\n", s)`; `NormalizeLength`, `NormalizeIdentity`, `NormalizeKeepsChars` and `NormalizeSinglePass` state its properties |
| Text.NormalizeLength | wp-performance-pack/modules/l10n_improvements/class.wppp_native_gettext.php:103 | `str_replace("\r\n", "\n", s)` is shorter than `s` by the number of CRLF pairs |
| Text.NormalizeIdentity | wp-performance-pack/modules/l10n_improvements/class.wppp_native_gettext.php:153-154 | the replacement leaves `s` unchanged exactly when `s` has no CRLF pair |
| Text.NormalizeUnchanged | wp-performance-pack/modules/l10n_improvements/class.wppp_native_gettext.php:109 | a string without CRLF is its own normalised key |
| Text.NormalizeKeepsChars | wp-performance-pack/modules/l10n_improvements/class.wppp_native_gettext.php:160 | the replacement introduces no character (so no separator byte) that the input lacks |
| Text.NormalizeSinglePass | wp-performance-pack/modules/l10n_improvements/class.wppp_native_gettext.php:103 | the replacement is one pass: "\r\r\n" becomes "\r\n", which still holds a CRLF |
| Text.Split | wp-performance-pack/modules/l10n_improvements/class.wppp_native_gettext.php:179 | `explode` yields at least one piece and no piece holds the separator |
| Text.JoinSplit | wp-performance-pack/modules/l10n_improvements/class.wppp_native_gettext.php:179 | joining the pieces with the separator gives back the string |
| Text.SplitJoin | wp-performance-pack/modules/l10n_improvements/class.wppp_native_gettext.php:179 | splitting a join of separator-free pieces gives back the pieces |
| Text.SplitFree | wp-performance-pack/modules/l10n_improvements/class.wppp_native_gettext.php:179 | a string without the separator splits into itself alone |
| Text.SplitPrefix | wp-performance-pack/modules/l10n_improvements/class.wppp_native_gettext.php:179 | splitting `w + sep + rest` gives `w` followed by the pieces of `rest` |
| Text.TrimLeft | wp-performance-pack/modules/l10n_improvements/class.wppp_native_gettext.php:180 | the result is the suffix starting at the first non-whitespace character; everything dropped is whitespace |
| Text.TrimRight | wp-performance-pack/modules/l10n_improvements/class.wppp_native_gettext.php:180 | the result is the prefix ending at the last non-whitespace character; everything dropped is whitespace |
| Text.Trim | wp-performance-pack/modules/l10n_improvements/class.wppp_native_gettext.php:180 | `trim` gives a slice of the input with no whitespace at either end, and only whitespace around it |
| Text.TrimPads | wp-performance-pack/modules/l10n_improvements/class.wppp_native_gettext.php:180 | helper lemma: trimming the front and then the back leaves the middle slice padded by whitespace |
| Text.PaddedOfParts | wp-performance-pack/modules/l10n_improvements/class.wppp_native_gettext.php:180 | helper lemma: a prefix of a suffix with whitespace dropped on both sides is a padded slice of the original |
| Text.TrimTrimmed | wp-performance-pack/modules/l10n_improvements/class.wppp_native_gettext.php:180 | `trim` leaves a string with no whitespace at its ends alone |
| Text.TrimKeepsChars | wp-performance-pack/modules/l10n_improvements/class.wppp_native_gettext.php:180 | `trim` introduces no character its input lacks |
| Text.TrimIdempotent | wp-performance-pack/modules/l10n_improvements/class.wppp_native_gettext.php:180 | trimming twice is trimming once |
| ContentStore.AfterLast | wp-performance-pack/modules/l10n_improvements/class.wppp_native_gettext.php:208-209 | the text after the last occurrence of a character: a suffix without that character, preceded by it unless it is the whole string |
| ContentStore.BaseName | wp-performance-pack/modules/l10n_improvements/class.wppp_native_gettext.php:209 | no contract of its own: `basename` as the text after the last slash, so `AfterLast`'s contract applies; `StemOfCatalogName` gives its value for a catalog path |
| ContentStore.Extension | wp-performance-pack/modules/l10n_improvements/class.wppp_native_gettext.php:208 | no contract of its own: `pathinfo`'s extension; `ExtensionOfName` states its value |
| ContentStore.Stem | wp-performance-pack/modules/l10n_improvements/class.wppp_native_gettext.php:208-209 | no contract of its own: `basename($f, "." . extension)`; `StemOfCatalogName` states that `dir/name.ext` has stem `name` |
| ContentStore.AfterLastSplit | wp-performance-pack/modules/l10n_improvements/class.wppp_native_gettext.php:209 | helper lemma: a separator-free tail after the separator is exactly what `AfterLast` gives |
| ContentStore.StripSuffix | wp-performance-pack/modules/l10n_improvements/class.wppp_native_gettext.php:209 | `basename($f, $suffix)` drops the suffix when the name ends with it and is longer, and leaves it alone otherwise |
| ContentStore.StripSuffixOf | wp-performance-pack/modules/l10n_improvements/class.wppp_native_gettext.php:209 | a non-empty name with the suffix appended gives back the name |
| ContentStore.StemOfCatalogName | wp-performance-pack/modules/l10n_improvements/class.wppp_native_gettext.php:208-209 | a file `name.ext` in any directory has base name `name.ext`, extension `ext` and stem `name` |
| ContentStore.ExtensionOfName | wp-performance-pack/modules/l10n_improvements/class.wppp_native_gettext.php:208 | `pathinfo` gives the text after the last dot as the extension |
| ContentStore.StripExtension | wp-performance-pack/modules/l10n_improvements/class.wppp_native_gettext.php:209 | helper lemma: dropping ".ext" from "name.ext" gives "name" |
| ContentStore.StemFromParts | wp-performance-pack/modules/l10n_improvements/class.wppp_native_gettext.php:208-209 | helper lemma: the stem is the base name without "." and its extension |
| ContentStore.ScenarioDomainId | wp-performance-pack/modules/l10n_improvements/class.wppp_native_gettext.php:208-211 | "plugin-en.cat" whose bytes hash to "abc123" gets the domain "plugin-en-abc123" |
| ContentStore.ScenarioStem | wp-performance-pack/modules/l10n_improvements/class.wppp_native_gettext.php:208-209 | "plugin-en.cat" in any directory has stem "plugin-en" |
| ContentStore.ScenarioJoin | wp-performance-pack/modules/l10n_improvements/class.wppp_native_gettext.php:211 | helper lemma: the id of stem "plugin-en" and hash "abc123" is "plugin-en-abc123" |
| ContentStore.DomainId | wp-performance-pack/modules/l10n_improvements/class.wppp_native_gettext.php:211 | no contract of its own: `$name . '-' . $hash`; `DomainIdDeterminesHash`, `DomainIdFixedWidth` and `ScenarioJoin` state its properties |
| ContentStore.HashFile | wp-performance-pack/modules/l10n_improvements/class.wppp_native_gettext.php:211 | no contract of its own: `md5_file`, None (PHP `false`) for an unreadable file; used by `DeriveDomain` and `ImportAsWritten` |
| ContentStore.LocalizeRoot | wp-performance-pack/modules/l10n_improvements/class.wppp_native_gettext.php:227 | no contract of its own: the directory handed to `bindtextdomain`; `CatalogUnderBoundRoot` relates it to the catalog |
| ContentStore.MessagesDir | wp-performance-pack/modules/l10n_improvements/class.wppp_native_gettext.php:215 | no contract of its own: the directory `wp_mkdir_p` must provide; `CatalogUnderBoundRoot` relates it to the bound root |
| ContentStore.CatalogPath | wp-performance-pack/modules/l10n_improvements/class.wppp_native_gettext.php:221 | no contract of its own: the destination of the copy; `CatalogUnderBoundRoot` and `CatalogPathInjective` state its properties |
| ContentStore.Install | wp-performance-pack/modules/l10n_improvements/class.wppp_native_gettext.php:214-228 | no contract of its own: the directory, copy and binding steps; `NativeGettext.InstallCatalog` is proved against it and the `Import…` lemmas state what it does |
| ContentStore.Import | wp-performance-pack/modules/l10n_improvements/class.wppp_native_gettext.php:206-233 | no contract of its own: the corrected import; `ImportDomain`, `ImportFailsWhen`, `ImportFailureHarmless`, `ImportNeverClobbers`, `ReimportIsNoOp` and `SameContentSharesCatalog` state its behaviour |
| ContentStore.DeriveDomain | wp-performance-pack/modules/l10n_improvements/class.wppp_native_gettext.php:208-211 | no contract of its own: the id of a readable file is the stem, a dash and the md5 of its bytes, None for an unreadable one; `DeriveDomainByContent` and `DomainIdDeterminesHash` state what that means |
| ContentStore.DeriveDomainByContent | wp-performance-pack/modules/l10n_improvements/class.wppp_native_gettext.php:208-211 | the id is content-addressed: two readable files with the same stem and the same bytes get the same id, wherever they lie |
| ContentStore.DomainIdDeterminesHash | wp-performance-pack/modules/l10n_improvements/class.wppp_native_gettext.php:211 | for one stem, two ids are equal exactly when the hashes are, so a changed catalog gets a new domain |
| ContentStore.CatalogUnderBoundRoot | wp-performance-pack/modules/l10n_improvements/class.wppp_native_gettext.php:215-227 | the copied catalog is `<bound root><locale>/LC_MESSAGES/<domain>.mo`, the file gettext looks up for the domain bound at line 227, and the directory made at line 217 holds it |
| ContentStore.DomainIdFixedWidth | wp-performance-pack/modules/l10n_improvements/class.wppp_native_gettext.php:211 | with hashes of one width, as md5 digests are, two ids are equal exactly when both the stems and the hashes are, even across stems |
| ContentStore.CatalogPathDeterminesStemAndHash | wp-performance-pack/modules/l10n_improvements/class.wppp_native_gettext.php:211-221 | with hashes of one width, two imports share the `<domain>.mo` of line 221 exactly when they have the same stem and the same hash, so `a-b.mo` and `a.mo` never collide |
| ContentStore.CatalogPathInjective | wp-performance-pack/modules/l10n_improvements/class.wppp_native_gettext.php:221 | different domains have different catalog files |
| ContentStore.ImportDomain | wp-performance-pack/modules/l10n_improvements/class.wppp_native_gettext.php:211-231 | a successful import read the file, adopts `stem-md5(bytes)` and binds it to `<WP_CONTENT_DIR>/wppp/localize/` with the codepage |
| ContentStore.ImportFailsWhen | wp-performance-pack/modules/l10n_improvements/class.wppp_native_gettext.php:211-223 | the import fails exactly when the file is unreadable, the directory is missing and cannot be made, or the catalog is missing and the copy fails |
| ContentStore.ImportFailureHarmless | wp-performance-pack/modules/l10n_improvements/class.wppp_native_gettext.php:216-223 | a failed import changes no file and no binding; at most the messages directory appears (the copy is atomic in this model, see "## Left out") |
| ContentStore.ImportNeverClobbers | wp-performance-pack/modules/l10n_improvements/class.wppp_native_gettext.php:220-223 | no existing file is changed or removed; the only possible new file is the domain's catalog, holding the source's bytes (the copy is atomic in this model, see "## Left out") |
| ContentStore.ImportFiles | wp-performance-pack/modules/l10n_improvements/class.wppp_native_gettext.php:220-223 | helper lemma: the files afterwards: one copy when the catalog was absent, none otherwise |
| ContentStore.ReimportIsNoOp | wp-performance-pack/modules/l10n_improvements/class.wppp_native_gettext.php:213-227 | importing the same file again succeeds even if mkdir or copy would fail, gives the same domain and changes nothing |
| ContentStore.SameContentSharesCatalog | wp-performance-pack/modules/l10n_improvements/class.wppp_native_gettext.php:208-223 | two files with the same stem and the same bytes share one domain and one stored catalog; the second import changes nothing |
| ContentStore.DomainIdAsWrittenNeverFails | wp-performance-pack/modules/l10n_improvements/class.wppp_native_gettext.php:211-212 | as written, the guard never rejects: the id holds a dash even when md5_file fails |
| ContentStore.DomainIdAsWritten | wp-performance-pack/modules/l10n_improvements/class.wppp_native_gettext.php:211-212 | no contract of its own: line 211 as written, with `false` concatenating as ""; `DomainIdAsWrittenNeverFails` states that its guard never fires |
| ContentStore.ImportAsWritten | wp-performance-pack/modules/l10n_improvements/class.wppp_native_gettext.php:206-233 | no contract of its own: the import as written; `ImportAsWrittenAcceptsUnreadable` states how it differs from `Import` |
| ContentStore.ImportAsWrittenAcceptsUnreadable | wp-performance-pack/modules/l10n_improvements/class.wppp_native_gettext.php:211-231 | as written, an unreadable file still gets the messages directory made, and is imported under "<stem>-" once a catalog of that name is stored; the corrected import fails and changes nothing |
| L10n.Host.constructor | wp-performance-pack/modules/l10n_improvements/class.wppp_native_gettext.php:191 | a host starts with the given files and directories and no domain bindings |
| L10n.NativeGettext.constructor | wp-performance-pack/modules/l10n_improvements/class.wppp_native_gettext.php:17-22 | a new object has no domain, codepage "UTF8" and empty precedence lists |
| L10n.NativeGettext.MergeWith | wp-performance-pack/modules/l10n_improvements/class.wppp_native_gettext.php:57-61 | `other` is appended to the higher list unless it is a NOOP translator; the object's translator value becomes `Native(domain, pOthers + [other], sOthers)`, the form `TranslateAfterMergeWith` speaks of; nothing else changes |
| L10n.NativeGettext.MergeOriginalsWith | wp-performance-pack/modules/l10n_improvements/class.wppp_native_gettext.php:71-75 | `other` is appended to the lower list unless it is a NOOP translator; the object's translator value becomes `Native(domain, pOthers, sOthers + [other])`, the form `TranslateAfterMergeOriginalsWith` speaks of; nothing else changes |
| L10n.NativeGettext.AddEntry | wp-performance-pack/modules/l10n_improvements/class.wppp_native_gettext.php:25 | always fails and changes nothing |
| L10n.NativeGettext.AddEntryOrMerge | wp-performance-pack/modules/l10n_improvements/class.wppp_native_gettext.php:26 | always fails and changes nothing |
| L10n.NativeGettext.SetHeader | wp-performance-pack/modules/l10n_improvements/class.wppp_native_gettext.php:27 | always fails and changes nothing |
| L10n.NativeGettext.SetHeaders | wp-performance-pack/modules/l10n_improvements/class.wppp_native_gettext.php:28 | always fails and changes nothing |
| L10n.NativeGettext.GetHeader | wp-performance-pack/modules/l10n_improvements/class.wppp_native_gettext.php:29 | no header is ever available |
| L10n.NativeGettext.TranslateEntry | wp-performance-pack/modules/l10n_improvements/class.wppp_native_gettext.php:30 | always fails and changes nothing |
| L10n.NativeGettext.ImportFromFile | wp-performance-pack/modules/l10n_improvements/class.wppp_native_gettext.php:206-233 | takes the stem of lines 208-209 and hands over to `ImportNamed`: the host's new files, directories and bindings, the result and the new domain are those `ContentStore.Import` gives; on failure the domain is kept; the precedence lists are untouched |
| L10n.NativeGettext.ImportNamed | wp-performance-pack/modules/l10n_improvements/class.wppp_native_gettext.php:211-233 | the import once the stem is known: the domain id stem-md5 (or failure for an unreadable file), then the install; the new host state, the result and the domain are those `ContentStore.Import` gives for that stem, and the domain is set only on success |
| L10n.NativeGettext.InstallCatalog | wp-performance-pack/modules/l10n_improvements/class.wppp_native_gettext.php:214-227 | directory creation, the copy unless the catalog exists, and both bindings, as `ContentStore.Install` gives them |
| L10n.ImportTwice | wp-performance-pack/modules/l10n_improvements/class.wppp_native_gettext.php:191-233 | if a first `import_from_file` succeeds, a second on the same object and file succeeds too and keeps the content-derived domain |
| L10n.DisabledList | wp-performance-pack/modules/l10n_improvements/class.wppp_native_gettext.php:179-180 | one entry per comma-separated piece, each the piece trimmed; every entry has no whitespace at either end and no comma |
| L10n.IsAvailable | wp-performance-pack/modules/l10n_improvements/class.wppp_native_gettext.php:175-184 | no contract of its own: `isAvailable`; `SafeModeDisablesAll`, `NothingDisabledAllAvailable` and `DisabledListDecides` state all three of its branches |
| L10n.TrimmedPiecesFree | wp-performance-pack/modules/l10n_improvements/class.wppp_native_gettext.php:180 | helper lemma: trimming comma-free pieces keeps them comma-free |
| L10n.SafeModeDisablesAll | wp-performance-pack/modules/l10n_improvements/class.wppp_native_gettext.php:176 | in safe mode no function is available |
| L10n.NothingDisabledAllAvailable | wp-performance-pack/modules/l10n_improvements/class.wppp_native_gettext.php:177-183 | outside safe mode and with no (or a false) `disable_functions`, every function is available |
| L10n.DisabledListDecides | wp-performance-pack/modules/l10n_improvements/class.wppp_native_gettext.php:177-182 | outside safe mode and for a truthy `disable_functions`, a function is unavailable exactly when some trimmed entry of the list names it |
| L10n.ListedIff | wp-performance-pack/modules/l10n_improvements/class.wppp_native_gettext.php:179-181 | helper lemma: a name is on the disabled list exactly when some entry, trimmed, equals it |
| L10n.DisabledListOfJoin | wp-performance-pack/modules/l10n_improvements/class.wppp_native_gettext.php:179-180 | helper lemma: the disabled list of a joined list is its entries trimmed |

## Left out

- Locale environment setup is not modelled: `get_locale`, `LC_MESSAGES`, `putenv` and `setlocale` (lines 193-204). It only sets process state that gettext reads, and gettext is a parameter here.
- md5, the filesystem, `wp_mkdir_p` and `copy` are not real. md5 is a function parameter, and whether mkdir or copy fails is a `Faults` parameter. `wp_mkdir_p`'s creation of parent directories is not modelled: only the messages directory is tracked.
- The effect of `bindtextdomain` and `bind_textdomain_codeset` on later lookups is not modelled. The bindings are recorded in the store, and `dgettext`/`dngettext` are given as functions.
- PHP's loose `!=` and `in_array` comparisons are modelled as exact string equality. Numeric strings such as "1" and "01" would compare equal in PHP.
- Merged translators are kept as values, not as object handles. A later change to a merged object is invisible to the translator it was merged into, and aliasing and cyclic merges are not modelled.
- Only `NOOP_Translations` and other `WPPP_Native_Gettext` objects can be merged. Other `Translations` subclasses are not part of this model. A `Noop` follows WordPress's `NOOP_Translations`, which is defined elsewhere in WordPress, not in this file: it returns the singular, or for plurals the singular when the count is 1 and the plural otherwise.
- ContentStore.BaseName: handles forward slashes only. PHP's `basename` also treats trailing slashes and some locale-dependent bytes specially.
- The catalog is always copied to `<domain>.mo`, as line 221 does, whatever the source file's extension.
- Concurrency: two processes importing at once are not modelled.
- ContentStore.ImportFailureHarmless: the copy is atomic in the model, so a failed copy leaves no file. PHP's `copy` can fail part-way (disk full, quota) and leave a partial `<domain>.mo`; a later import then finds it with `is_file` at line 223, skips the copy and binds the truncated catalog.
- ContentStore.ImportNeverClobbers: "the only new file holds the source's bytes" rests on the same atomic copy; a partial destination left by a failed PHP `copy` is not modelled.
- md5 is any function of the bytes; its fixed 32-digit width is not built in. `DomainIdFixedWidth` and `CatalogPathDeterminesStemAndHash` take equal hash widths as a requirement, and `DomainIdDeterminesHash` holds without it for one stem.

## Findings

| source | as written | input that shows it | evidently intended | confidence | as-written member | corrected member |
|---|---|---|---|---|---|---|
| wp-performance-pack/modules/l10n_improvements/class.wppp_native_gettext.php:211-212 | `$name . '-' . md5_file($filename)` always contains a dash, so the `!(...)` guard never fires, even when `md5_file` returns `false` for an unreadable file | an unreadable file `x.mo`: the import still creates the messages directory (line 217) before it can fail, and when the store already holds `<messages dir>/x-.mo` it succeeds and binds the domain `x-` | abort the import when the file cannot be hashed | not executed | ContentStore.ImportAsWrittenAcceptsUnreadable | ContentStore.ImportFailsWhen |
| wp-performance-pack/modules/l10n_improvements/class.wppp_native_gettext.php:73 | `$this->sOthers[] = $Other;` appends the undefined variable `$Other`, that is `null`, not the argument `$other` | `merge_originals_with($t)` with `$t` a native translator, then `translate("Cat")` on an object whose own catalog lacks "Cat": the loop at line 117 calls `translate` on `null` | append `$other`, as `merge_with` does at line 59 | not executed | Resolution.MergeOriginalsAsWrittenFails | L10n.NativeGettext.MergeOriginalsWith |

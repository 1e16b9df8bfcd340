/**
 * Translation resolution of WPPP_Native_Gettext: a translator consults the
 * translators merged above it, then its own gettext domain, then the
 * translators merged below it, and the first result that is not the identity
 * wins.
 */
module Resolution {
  import opened Wrappers
  import Text

  /** CONTEXT_SEP, the byte placed between a context and its message. */
  const ContextSeparator: char := '\U{4}'

  /** A translator value. `Noop` is WordPress's NOOP_Translations (every lookup
      is the identity); `Native` is a WPPP_Native_Gettext with its bound domain
      (None while nothing was imported) and its two precedence lists. */
  datatype Translator =
    | Noop
    | Native(domain: Option<string>, pOthers: seq<Translator>, sOthers: seq<Translator>)

  /** The native gettext facility: `dgettext(domain, key)` and
      `dngettext(domain, singularKey, pluralKey, count)`. */
  datatype Gettext = Gettext(
    dgettext: (string, string) -> string,
    dngettext: (string, string, string, int) -> string)

  /** The message id handed to gettext: the singular with CRLF turned into LF,
      behind `context` and the separator when a context is given. */
  function LookupKey(singular: string, context: Option<string>): string
  {
    match context
    case None => Text.NormalizeNewlines(singular)
    case Some(c) => c + [ContextSeparator] + Text.NormalizeNewlines(singular)
  }

  /** The caller's fallback for a plural lookup. */
  function PluralDefault(singular: string, plural: string, count: int): string
  {
    if count == 1 then singular else plural
  }

  /** The position of the first result in `rs` that is not `miss`, or `|rs|`
      when every result is `miss`. */
  function FirstDiffering(rs: seq<string>, miss: string): (k: nat)
    ensures k <= |rs|
    ensures forall j :: 0 <= j < k ==> rs[j] == miss
    ensures k < |rs| ==> rs[k] != miss
  {
    if |rs| == 0 || rs[0] != miss then 0 else 1 + FirstDiffering(rs[1..], miss)
  }

  /** What each translator of a precedence list answers to `translate`. */
  function Resolved(ts: seq<Translator>, singular: string, context: Option<string>, g: Gettext): (rs: seq<string>)
    ensures |rs| == |ts|
    decreases ts
  {
    seq(|ts|, i requires 0 <= i < |ts| => Translate(ts[i], singular, context, g))
  }

  /** `translate($singular, $context)`. */
  function Translate(t: Translator, singular: string, context: Option<string>, g: Gettext): (r: string)
    ensures singular == "" ==> r == singular
    decreases t
  {
    if |singular| == 0 then singular
    else match t
      case Noop => singular
      case Native(domain, pOthers, sOthers) =>
        var above := Resolved(pOthers, singular, context, g);
        var k := FirstDiffering(above, singular);
        if k < |above| then above[k]
        else if domain.None? then singular
        else
          var key := LookupKey(singular, context);
          var found := g.dgettext(domain.value, key);
          if found != key then found
          else
            var below := Resolved(sOthers, singular, context, g);
            var m := FirstDiffering(below, singular);
            if m < |below| then below[m] else singular
  }

  /** What each translator of a precedence list answers to `translate_plural`. */
  function ResolvedPlural(ts: seq<Translator>, singular: string, plural: string, count: int,
                          context: Option<string>, g: Gettext): (rs: seq<string>)
    ensures |rs| == |ts|
    decreases ts
  {
    seq(|ts|, i requires 0 <= i < |ts| => TranslatePlural(ts[i], singular, plural, count, context, g))
  }

  /** `translate_plural($singular, $plural, $count, $context)`. */
  function TranslatePlural(t: Translator, singular: string, plural: string, count: int,
                           context: Option<string>, g: Gettext): (r: string)
    ensures t.Native? && singular == "" ==> r == singular
    decreases t
  {
    var default := PluralDefault(singular, plural, count);
    match t
    case Noop => default
    case Native(domain, pOthers, sOthers) =>
      if |singular| == 0 then singular
      else
        var above := ResolvedPlural(pOthers, singular, plural, count, context, g);
        var k := FirstDiffering(above, default);
        if k < |above| then above[k]
        else if domain.None? then default
        else
          var key := LookupKey(singular, context);
          var pluralKey := Text.NormalizeNewlines(plural);
          var found := g.dngettext(domain.value, key, pluralKey, count);
          if found != key && found != pluralKey then found
          else
            var below := ResolvedPlural(sOthers, singular, plural, count, context, g);
            var m := FirstDiffering(below, default);
            if m < |below| then below[m] else default
  }

  /** `select_plural_form($count)`: the English rule. */
  function SelectPluralForm(count: int): (k: nat)
    ensures k < PluralFormsCount()
    ensures k == 0 <==> count == 1
  {
    if count == 1 then 0 else 1
  }

  /** `get_plural_forms_count()`. */
  function PluralFormsCount(): nat
  {
    2
  }

  // ---------------------------------------------------------------------
  // Properties of the lookup key

  /** A key built with a context never equals a key built without one, as long
      as the message itself does not hold the separator. */
  lemma ContextKeyNeverPlainKey(s: string, s': string, c: string)
    requires ContextSeparator !in s'
    ensures LookupKey(s', None) != LookupKey(s, Some(c))
  {
    Text.NormalizeKeepsChars(s', ContextSeparator);
    assert LookupKey(s, Some(c))[|c|] == ContextSeparator;
  }

  /** Context keys determine their context and their normalised message, for
      contexts without the separator. */
  lemma ContextKeyInjective(s: string, s': string, c: string, c': string)
    requires ContextSeparator !in c && ContextSeparator !in c'
    requires LookupKey(s, Some(c)) == LookupKey(s', Some(c'))
    ensures c == c'
    ensures Text.NormalizeNewlines(s) == Text.NormalizeNewlines(s')
  {
    var key := LookupKey(s, Some(c));
    assert key[|c|] == ContextSeparator && key[|c'|] == ContextSeparator;
    assert |c| == |c'|;
    assert c == key[..|c|] == c';
    assert Text.NormalizeNewlines(s) == key[|c| + 1..] == Text.NormalizeNewlines(s');
  }

  /** The plural fallback is the form `select_plural_form` picks. */
  lemma PluralDefaultSelectsForm(singular: string, plural: string, count: int)
    ensures PluralDefault(singular, plural, count) == [singular, plural][SelectPluralForm(count)]
  {
  }

  // ---------------------------------------------------------------------
  // The precedence walk of `translate`

  /** The first translator merged above that answers something other than
      `singular` decides the result, whatever the others and the own domain
      would say. */
  lemma TranslateHigherWins(domain: Option<string>, pOthers: seq<Translator>, sOthers: seq<Translator>,
                            singular: string, context: Option<string>, g: Gettext, i: nat)
    requires singular != "" && i < |pOthers|
    requires forall j :: 0 <= j < i ==> Translate(pOthers[j], singular, context, g) == singular
    requires Translate(pOthers[i], singular, context, g) != singular
    ensures Translate(Native(domain, pOthers, sOthers), singular, context, g)
            == Translate(pOthers[i], singular, context, g)
  {
    var above := Resolved(pOthers, singular, context, g);
    var k := FirstDiffering(above, singular);
    assert above[i] != singular;
  }

  /** Without a domain, and with no answer from above, the singular comes back
      untranslated, whatever the translators below would say. */
  lemma TranslateUnbound(pOthers: seq<Translator>, sOthers: seq<Translator>,
                         singular: string, context: Option<string>, g: Gettext)
    requires forall j :: 0 <= j < |pOthers| ==> Translate(pOthers[j], singular, context, g) == singular
    ensures Translate(Native(None, pOthers, sOthers), singular, context, g) == singular
  {
    var above := Resolved(pOthers, singular, context, g);
    assert forall j :: 0 <= j < |above| ==> above[j] == singular;
  }

  /** With no answer from above, a gettext result that differs from the lookup
      key is returned. */
  lemma TranslateNativeHit(domain: string, pOthers: seq<Translator>, sOthers: seq<Translator>,
                           singular: string, context: Option<string>, g: Gettext)
    requires singular != ""
    requires forall j :: 0 <= j < |pOthers| ==> Translate(pOthers[j], singular, context, g) == singular
    requires g.dgettext(domain, LookupKey(singular, context)) != LookupKey(singular, context)
    ensures Translate(Native(Some(domain), pOthers, sOthers), singular, context, g)
            == g.dgettext(domain, LookupKey(singular, context))
  {
    var above := Resolved(pOthers, singular, context, g);
    assert forall j :: 0 <= j < |above| ==> above[j] == singular;
  }

  /** When gettext echoes the key, the translators merged below are asked in
      order and the first one that answers something else decides. */
  lemma TranslateLowerFallback(domain: string, pOthers: seq<Translator>, sOthers: seq<Translator>,
                               singular: string, context: Option<string>, g: Gettext, i: nat)
    requires singular != "" && i < |sOthers|
    requires forall j :: 0 <= j < |pOthers| ==> Translate(pOthers[j], singular, context, g) == singular
    requires g.dgettext(domain, LookupKey(singular, context)) == LookupKey(singular, context)
    requires forall j :: 0 <= j < i ==> Translate(sOthers[j], singular, context, g) == singular
    requires Translate(sOthers[i], singular, context, g) != singular
    ensures Translate(Native(Some(domain), pOthers, sOthers), singular, context, g)
            == Translate(sOthers[i], singular, context, g)
  {
    var above := Resolved(pOthers, singular, context, g);
    assert forall j :: 0 <= j < |above| ==> above[j] == singular;
    var below := Resolved(sOthers, singular, context, g);
    var m := FirstDiffering(below, singular);
    assert below[i] != singular;
  }

  /** When nothing answers, the singular comes back untranslated. */
  lemma TranslateNoMatch(domain: string, pOthers: seq<Translator>, sOthers: seq<Translator>,
                         singular: string, context: Option<string>, g: Gettext)
    requires forall j :: 0 <= j < |pOthers| ==> Translate(pOthers[j], singular, context, g) == singular
    requires g.dgettext(domain, LookupKey(singular, context)) == LookupKey(singular, context)
    requires forall j :: 0 <= j < |sOthers| ==> Translate(sOthers[j], singular, context, g) == singular
    ensures Translate(Native(Some(domain), pOthers, sOthers), singular, context, g) == singular
  {
    var above := Resolved(pOthers, singular, context, g);
    assert forall j :: 0 <= j < |above| ==> above[j] == singular;
    var below := Resolved(sOthers, singular, context, g);
    assert forall j :: 0 <= j < |below| ==> below[j] == singular;
  }

  // ---------------------------------------------------------------------
  // The precedence walk of `translate_plural`

  lemma TranslatePluralHigherWins(domain: Option<string>, pOthers: seq<Translator>, sOthers: seq<Translator>,
                                  singular: string, plural: string, count: int, context: Option<string>,
                                  g: Gettext, i: nat)
    requires singular != "" && i < |pOthers|
    requires forall j :: 0 <= j < i ==>
               TranslatePlural(pOthers[j], singular, plural, count, context, g) == PluralDefault(singular, plural, count)
    requires TranslatePlural(pOthers[i], singular, plural, count, context, g) != PluralDefault(singular, plural, count)
    ensures TranslatePlural(Native(domain, pOthers, sOthers), singular, plural, count, context, g)
            == TranslatePlural(pOthers[i], singular, plural, count, context, g)
  {
    var default := PluralDefault(singular, plural, count);
    var above := ResolvedPlural(pOthers, singular, plural, count, context, g);
    var k := FirstDiffering(above, default);
    assert above[i] != default;
  }

  lemma TranslatePluralUnbound(pOthers: seq<Translator>, sOthers: seq<Translator>,
                               singular: string, plural: string, count: int, context: Option<string>, g: Gettext)
    requires singular != ""
    requires forall j :: 0 <= j < |pOthers| ==>
               TranslatePlural(pOthers[j], singular, plural, count, context, g) == PluralDefault(singular, plural, count)
    ensures TranslatePlural(Native(None, pOthers, sOthers), singular, plural, count, context, g)
            == PluralDefault(singular, plural, count)
  {
    var above := ResolvedPlural(pOthers, singular, plural, count, context, g);
    assert forall j :: 0 <= j < |above| ==> above[j] == PluralDefault(singular, plural, count);
  }

  /** gettext's plural answer is taken only when it differs from both the
      singular key and the normalised plural. */
  lemma TranslatePluralNativeHit(domain: string, pOthers: seq<Translator>, sOthers: seq<Translator>,
                                 singular: string, plural: string, count: int, context: Option<string>, g: Gettext)
    requires singular != ""
    requires forall j :: 0 <= j < |pOthers| ==>
               TranslatePlural(pOthers[j], singular, plural, count, context, g) == PluralDefault(singular, plural, count)
    requires var found := g.dngettext(domain, LookupKey(singular, context), Text.NormalizeNewlines(plural), count);
             found != LookupKey(singular, context) && found != Text.NormalizeNewlines(plural)
    ensures TranslatePlural(Native(Some(domain), pOthers, sOthers), singular, plural, count, context, g)
            == g.dngettext(domain, LookupKey(singular, context), Text.NormalizeNewlines(plural), count)
  {
    var above := ResolvedPlural(pOthers, singular, plural, count, context, g);
    assert forall j :: 0 <= j < |above| ==> above[j] == PluralDefault(singular, plural, count);
  }

  /** An answer equal to either key is a miss: the lower translators decide,
      and with none answering the caller's default comes back. */
  lemma TranslatePluralNativeMiss(domain: string, pOthers: seq<Translator>, sOthers: seq<Translator>,
                                  singular: string, plural: string, count: int, context: Option<string>, g: Gettext)
    requires singular != ""
    requires forall j :: 0 <= j < |pOthers| ==>
               TranslatePlural(pOthers[j], singular, plural, count, context, g) == PluralDefault(singular, plural, count)
    requires var found := g.dngettext(domain, LookupKey(singular, context), Text.NormalizeNewlines(plural), count);
             found == LookupKey(singular, context) || found == Text.NormalizeNewlines(plural)
    requires forall j :: 0 <= j < |sOthers| ==>
               TranslatePlural(sOthers[j], singular, plural, count, context, g) == PluralDefault(singular, plural, count)
    ensures TranslatePlural(Native(Some(domain), pOthers, sOthers), singular, plural, count, context, g)
            == PluralDefault(singular, plural, count)
  {
    var default := PluralDefault(singular, plural, count);
    var above := ResolvedPlural(pOthers, singular, plural, count, context, g);
    assert forall j :: 0 <= j < |above| ==> above[j] == default;
    var below := ResolvedPlural(sOthers, singular, plural, count, context, g);
    assert forall j :: 0 <= j < |below| ==> below[j] == default;
  }

  lemma TranslatePluralLowerFallback(domain: string, pOthers: seq<Translator>, sOthers: seq<Translator>,
                                     singular: string, plural: string, count: int, context: Option<string>,
                                     g: Gettext, i: nat)
    requires singular != "" && i < |sOthers|
    requires forall j :: 0 <= j < |pOthers| ==>
               TranslatePlural(pOthers[j], singular, plural, count, context, g) == PluralDefault(singular, plural, count)
    requires var found := g.dngettext(domain, LookupKey(singular, context), Text.NormalizeNewlines(plural), count);
             found == LookupKey(singular, context) || found == Text.NormalizeNewlines(plural)
    requires forall j :: 0 <= j < i ==>
               TranslatePlural(sOthers[j], singular, plural, count, context, g) == PluralDefault(singular, plural, count)
    requires TranslatePlural(sOthers[i], singular, plural, count, context, g) != PluralDefault(singular, plural, count)
    ensures TranslatePlural(Native(Some(domain), pOthers, sOthers), singular, plural, count, context, g)
            == TranslatePlural(sOthers[i], singular, plural, count, context, g)
  {
    var default := PluralDefault(singular, plural, count);
    var above := ResolvedPlural(pOthers, singular, plural, count, context, g);
    assert forall j :: 0 <= j < |above| ==> above[j] == default;
    var below := ResolvedPlural(sOthers, singular, plural, count, context, g);
    var m := FirstDiffering(below, default);
    assert below[i] != default;
  }

  // ---------------------------------------------------------------------
  // What merging does to resolution

  lemma ResolvedAppend(ts: seq<Translator>, o: Translator, singular: string, context: Option<string>, g: Gettext)
    ensures Resolved(ts + [o], singular, context, g) == Resolved(ts, singular, context, g) + [Translate(o, singular, context, g)]
  {
    var a := Resolved(ts + [o], singular, context, g);
    var b := Resolved(ts, singular, context, g) + [Translate(o, singular, context, g)];
    forall i | 0 <= i < |a| ensures a[i] == b[i] {
      if i < |ts| { assert (ts + [o])[i] == ts[i]; }
    }
  }

  lemma ResolvedPluralAppend(ts: seq<Translator>, o: Translator, singular: string, plural: string, count: int,
                             context: Option<string>, g: Gettext)
    ensures ResolvedPlural(ts + [o], singular, plural, count, context, g)
            == ResolvedPlural(ts, singular, plural, count, context, g) + [TranslatePlural(o, singular, plural, count, context, g)]
  {
    var a := ResolvedPlural(ts + [o], singular, plural, count, context, g);
    var b := ResolvedPlural(ts, singular, plural, count, context, g) + [TranslatePlural(o, singular, plural, count, context, g)];
    forall i | 0 <= i < |a| ensures a[i] == b[i] {
      if i < |ts| { assert (ts + [o])[i] == ts[i]; }
    }
  }

  /** The first differing position of a sequence is kept when something is
      appended, unless there was none. */
  lemma FirstDifferingAppend(rs: seq<string>, v: string, miss: string)
    ensures var k := FirstDiffering(rs, miss);
            FirstDiffering(rs + [v], miss) == if k < |rs| || v != miss then k else |rs| + 1
  {
    var k := FirstDiffering(rs, miss);
    var k' := FirstDiffering(rs + [v], miss);
    assert forall j :: 0 <= j < |rs| ==> (rs + [v])[j] == rs[j];
    if k < |rs| {
      assert (rs + [v])[k] != miss;
    } else if v != miss {
      assert (rs + [v])[|rs|] != miss;
    }
  }

  /** Merging a translator above (`merge_with`) leaves every string that an
      earlier merged translator already decides alone; otherwise the new one
      overrides the translator's own domain and the lists below whenever it
      answers. */
  lemma TranslateAfterMergeWith(domain: Option<string>, pOthers: seq<Translator>, sOthers: seq<Translator>,
                                other: Translator, singular: string, context: Option<string>, g: Gettext)
    ensures var before := Translate(Native(domain, pOthers, sOthers), singular, context, g);
            var after := Translate(Native(domain, pOthers + [other], sOthers), singular, context, g);
            var answer := Translate(other, singular, context, g);
            && ((exists j :: 0 <= j < |pOthers| && Translate(pOthers[j], singular, context, g) != singular) ==> after == before)
            && ((forall j :: 0 <= j < |pOthers| ==> Translate(pOthers[j], singular, context, g) == singular) ==>
                  after == if answer != singular then answer else before)
  {
    if singular != "" {
      var answer := Translate(other, singular, context, g);
      var above := Resolved(pOthers, singular, context, g);
      var above' := Resolved(pOthers + [other], singular, context, g);
      ResolvedAppend(pOthers, other, singular, context, g);
      FirstDifferingAppend(above, answer, singular);
      var k := FirstDiffering(above, singular);
      if k < |above| {
        assert above'[k] == above[k];
      } else if answer != singular {
        assert above'[k] == answer;
      }
      if j :| 0 <= j < |pOthers| && Translate(pOthers[j], singular, context, g) != singular {
        assert above[j] != singular;
      }
    }
  }

  /** Merging a translator below (`merge_originals_with`) never changes a
      string that was already translated; it can only answer for one that came
      back untranslated. */
  lemma TranslateAfterMergeOriginalsWith(domain: Option<string>, pOthers: seq<Translator>, sOthers: seq<Translator>,
                                         other: Translator, singular: string, context: Option<string>, g: Gettext)
    ensures var before := Translate(Native(domain, pOthers, sOthers), singular, context, g);
            var after := Translate(Native(domain, pOthers, sOthers + [other]), singular, context, g);
            after == before || (before == singular && after == Translate(other, singular, context, g))
  {
    if singular != "" {
      ResolvedAppend(sOthers, other, singular, context, g);
      FirstDifferingAppend(Resolved(sOthers, singular, context, g), Translate(other, singular, context, g), singular);
    }
  }

  lemma TranslatePluralAfterMergeWith(domain: Option<string>, pOthers: seq<Translator>, sOthers: seq<Translator>,
                                      other: Translator, singular: string, plural: string, count: int,
                                      context: Option<string>, g: Gettext)
    ensures var default := PluralDefault(singular, plural, count);
            var before := TranslatePlural(Native(domain, pOthers, sOthers), singular, plural, count, context, g);
            var after := TranslatePlural(Native(domain, pOthers + [other], sOthers), singular, plural, count, context, g);
            var answer := TranslatePlural(other, singular, plural, count, context, g);
            && ((exists j :: 0 <= j < |pOthers| &&
                   TranslatePlural(pOthers[j], singular, plural, count, context, g) != default) ==> after == before)
            && ((forall j :: 0 <= j < |pOthers| ==>
                   TranslatePlural(pOthers[j], singular, plural, count, context, g) == default) ==>
                  after == if singular != "" && answer != default then answer else before)
  {
    if singular != "" {
      var default := PluralDefault(singular, plural, count);
      var answer := TranslatePlural(other, singular, plural, count, context, g);
      var above := ResolvedPlural(pOthers, singular, plural, count, context, g);
      var above' := ResolvedPlural(pOthers + [other], singular, plural, count, context, g);
      ResolvedPluralAppend(pOthers, other, singular, plural, count, context, g);
      FirstDifferingAppend(above, answer, default);
      var k := FirstDiffering(above, default);
      if k < |above| {
        assert above'[k] == above[k];
      } else if answer != default {
        assert above'[k] == answer;
      }
      if j :| 0 <= j < |pOthers| && TranslatePlural(pOthers[j], singular, plural, count, context, g) != default {
        assert above[j] != default;
      }
    }
  }

  lemma TranslatePluralAfterMergeOriginalsWith(domain: Option<string>, pOthers: seq<Translator>, sOthers: seq<Translator>,
                                               other: Translator, singular: string, plural: string, count: int,
                                               context: Option<string>, g: Gettext)
    ensures var default := PluralDefault(singular, plural, count);
            var before := TranslatePlural(Native(domain, pOthers, sOthers), singular, plural, count, context, g);
            var after := TranslatePlural(Native(domain, pOthers, sOthers + [other]), singular, plural, count, context, g);
            after == before || (before == default && after == TranslatePlural(other, singular, plural, count, context, g))
  {
    if singular != "" {
      var default := PluralDefault(singular, plural, count);
      ResolvedPluralAppend(sOthers, other, singular, plural, count, context, g);
      FirstDifferingAppend(ResolvedPlural(sOthers, singular, plural, count, context, g),
                           TranslatePlural(other, singular, plural, count, context, g), default);
    }
  }

  // ---------------------------------------------------------------------
  // Where a translation comes from

  /** Every gettext domain bound anywhere in a translator tree. */
  function Domains(t: Translator): set<string>
    decreases t
  {
    match t
    case Noop => {}
    case Native(domain, pOthers, sOthers) =>
      (if domain.Some? then {domain.value} else {}) + DomainsOf(pOthers) + DomainsOf(sOthers)
  }

  function DomainsOf(ts: seq<Translator>): set<string>
    decreases ts
  {
    if ts == [] then {} else Domains(ts[0]) + DomainsOf(ts[1..])
  }

  lemma {:induction false} DomainsOfElement(ts: seq<Translator>, i: nat)
    requires i < |ts|
    ensures Domains(ts[i]) <= DomainsOf(ts)
  {
    if i > 0 {
      DomainsOfElement(ts[1..], i - 1);
      assert ts[1..][i - 1] == ts[i];
    }
  }

  /** `r` is a gettext answer for `key` from one of `domains` that is not the
      key itself. */
  ghost predicate FoundIn(g: Gettext, domains: set<string>, key: string, r: string)
  {
    exists d :: d in domains && r == g.dgettext(d, key) && r != key
  }

  ghost predicate FoundPluralIn(g: Gettext, domains: set<string>, key: string, pluralKey: string, count: int, r: string)
  {
    exists d :: d in domains && r == g.dngettext(d, key, pluralKey, count) && r != key && r != pluralKey
  }

  lemma FoundInMono(g: Gettext, a: set<string>, b: set<string>, key: string, r: string)
    requires a <= b && FoundIn(g, a, key, r)
    ensures FoundIn(g, b, key, r)
  {
  }

  lemma FoundPluralInMono(g: Gettext, a: set<string>, b: set<string>, key: string, pluralKey: string,
                          count: int, r: string)
    requires a <= b && FoundPluralIn(g, a, key, pluralKey, count, r)
    ensures FoundPluralIn(g, b, key, pluralKey, count, r)
  {
  }

  /** `translate` returns the singular or a real gettext translation from a
      domain bound somewhere in the tree; it never makes up a string. */
  lemma {:induction false} TranslateProvenance(t: Translator, singular: string, context: Option<string>, g: Gettext)
    ensures var r := Translate(t, singular, context, g);
            r == singular || FoundIn(g, Domains(t), LookupKey(singular, context), r)
    decreases t, 1
  {
    if singular != "" && t.Native? {
      var key := LookupKey(singular, context);
      ResolvedProvenance(t.pOthers, singular, context, g);
      ResolvedProvenance(t.sOthers, singular, context, g);
      var r := Translate(t, singular, context, g);
      if r != singular && t.domain.Some? && r == g.dgettext(t.domain.value, key) && r != key {
        assert t.domain.value in Domains(t);
      }
    }
  }

  lemma {:induction false} ResolvedProvenance(ts: seq<Translator>, singular: string, context: Option<string>, g: Gettext)
    ensures forall i :: 0 <= i < |ts| ==>
              var r := Resolved(ts, singular, context, g)[i];
              r == singular || FoundIn(g, DomainsOf(ts), LookupKey(singular, context), r)
    decreases ts, 0
  {
    forall i | 0 <= i < |ts|
      ensures var r := Resolved(ts, singular, context, g)[i];
              r == singular || FoundIn(g, DomainsOf(ts), LookupKey(singular, context), r)
    {
      TranslateProvenance(ts[i], singular, context, g);
      DomainsOfElement(ts, i);
      var r := Translate(ts[i], singular, context, g);
      if r != singular {
        FoundInMono(g, Domains(ts[i]), DomainsOf(ts), LookupKey(singular, context), r);
      }
    }
  }

  /** `translate_plural` returns the caller's default or a real gettext
      translation from a domain bound somewhere in the tree. */
  lemma {:induction false} TranslatePluralProvenance(t: Translator, singular: string, plural: string, count: int,
                                                     context: Option<string>, g: Gettext)
    requires singular != ""
    ensures var r := TranslatePlural(t, singular, plural, count, context, g);
            r == PluralDefault(singular, plural, count)
            || FoundPluralIn(g, Domains(t), LookupKey(singular, context), Text.NormalizeNewlines(plural), count, r)
    decreases t, 1
  {
    if t.Native? {
      var key := LookupKey(singular, context);
      var pluralKey := Text.NormalizeNewlines(plural);
      ResolvedPluralProvenance(t.pOthers, singular, plural, count, context, g);
      ResolvedPluralProvenance(t.sOthers, singular, plural, count, context, g);
      var r := TranslatePlural(t, singular, plural, count, context, g);
      if t.domain.Some? && r == g.dngettext(t.domain.value, key, pluralKey, count) && r != key && r != pluralKey {
        assert t.domain.value in Domains(t);
      }
    }
  }

  lemma {:induction false} ResolvedPluralProvenance(ts: seq<Translator>, singular: string, plural: string, count: int,
                                                    context: Option<string>, g: Gettext)
    requires singular != ""
    ensures forall i :: 0 <= i < |ts| ==>
              var r := ResolvedPlural(ts, singular, plural, count, context, g)[i];
              r == PluralDefault(singular, plural, count)
              || FoundPluralIn(g, DomainsOf(ts), LookupKey(singular, context), Text.NormalizeNewlines(plural), count, r)
    decreases ts, 0
  {
    forall i | 0 <= i < |ts|
      ensures var r := ResolvedPlural(ts, singular, plural, count, context, g)[i];
              r == PluralDefault(singular, plural, count)
              || FoundPluralIn(g, DomainsOf(ts), LookupKey(singular, context), Text.NormalizeNewlines(plural), count, r)
    {
      TranslatePluralProvenance(ts[i], singular, plural, count, context, g);
      DomainsOfElement(ts, i);
      var r := TranslatePlural(ts[i], singular, plural, count, context, g);
      if r != PluralDefault(singular, plural, count) {
        FoundPluralInMono(g, Domains(ts[i]), DomainsOf(ts), LookupKey(singular, context),
                          Text.NormalizeNewlines(plural), count, r);
      }
    }
  }

  /** No domain in the tree knows the key: `translate` is the identity. */
  lemma TranslateUntranslated(t: Translator, singular: string, context: Option<string>, g: Gettext)
    requires forall d :: d in Domains(t) ==> g.dgettext(d, LookupKey(singular, context)) == LookupKey(singular, context)
    ensures Translate(t, singular, context, g) == singular
  {
    TranslateProvenance(t, singular, context, g);
  }

  /** No domain in the tree knows the pair (gettext then echoes one of the
      keys): `translate_plural` gives `singular` for one item and `plural`
      otherwise. */
  lemma TranslatePluralUntranslated(t: Translator, singular: string, plural: string, count: int,
                                    context: Option<string>, g: Gettext)
    requires singular != ""
    requires forall d :: d in Domains(t) ==>
               var found := g.dngettext(d, LookupKey(singular, context), Text.NormalizeNewlines(plural), count);
               found == LookupKey(singular, context) || found == Text.NormalizeNewlines(plural)
    ensures TranslatePlural(t, singular, plural, count, context, g) == if count == 1 then singular else plural
  {
    TranslatePluralProvenance(t, singular, plural, count, context, g);
  }

  // ---------------------------------------------------------------------
  // Worked scenarios

  /** gettext as it behaves for a domain that has no entries. */
  function EmptyCatalogs(): Gettext
  {
    Gettext((d, k) => k, (d, s, p, n) => if n == 1 then s else p)
  }

  /** Three catalogs: "high" knows nothing, "self" and "low" both translate
      "Cat"; the translator's own catalog beats the lower one. */
  lemma ScenarioOwnCatalogBeatsLower()
    ensures var g := Gettext(
              (d, k) => if d == "self" && k == "Cat" then "Katze"
                        else if d == "low" && k == "Cat" then "K\U{e4}tzchen"
                        else k,
              (d, s, p, n) => if n == 1 then s else p);
            var high := Native(Some("high"), [], []);
            var low := Native(Some("low"), [], []);
            Translate(Native(Some("self"), [high], [low]), "Cat", None, g) == "Katze"
  {
    var g := Gettext(
      (d, k) => if d == "self" && k == "Cat" then "Katze"
                else if d == "low" && k == "Cat" then "K\U{e4}tzchen"
                else k,
      (d, s, p, n) => if n == 1 then s else p);
    var high := Native(Some("high"), [], []);
    Text.NormalizeUnchanged("Cat");
    assert LookupKey("Cat", None) == "Cat";
    assert Translate(high, "Cat", None, g) == "Cat";
    assert Resolved([high], "Cat", None, g) == ["Cat"];
  }

  /** With no entry anywhere, five items take the plural. */
  lemma ScenarioPluralFallback(t: Translator)
    ensures TranslatePlural(t, "1 item", "%d items", 5, None, EmptyCatalogs()) == "%d items"
  {
    TranslatePluralUntranslated(t, "1 item", "%d items", 5, None, EmptyCatalogs());
  }

  // ---------------------------------------------------------------------
  // `merge_originals_with` as written

  /** A precedence list as PHP holds it: an entry may be `null` (None). */
  function Lift(ts: seq<Translator>): (entries: seq<Option<Translator>>)
    ensures |entries| == |ts|
    ensures forall i :: 0 <= i < |ts| ==> entries[i] == Some(ts[i])
  {
    seq(|ts|, i requires 0 <= i < |ts| => Some(ts[i]))
  }

  /** Line 73 appends the undefined `$Other`, that is `null`, in place of the
      argument. */
  function AppendOriginalAsWritten(entries: seq<Option<Translator>>, other: Translator): seq<Option<Translator>>
  {
    if other.Noop? then entries else entries + [None]
  }

  /** The loop over the lower list (lines 116-118) on entries that may be
      `null`: None is the fatal error of calling `translate` on `null`. */
  function LowerWalkAsWritten(entries: seq<Option<Translator>>, singular: string, context: Option<string>,
                              g: Gettext): Option<string>
  {
    if entries == [] then Some(singular)
    else if entries[0].None? then None
    else
      var t := Translate(entries[0].value, singular, context, g);
      if t != singular then Some(t) else LowerWalkAsWritten(entries[1..], singular, context, g)
  }

  /** Without `null` entries the loop is the lower walk of `Translate`. */
  lemma {:induction false} LowerWalkAgrees(ts: seq<Translator>, singular: string, context: Option<string>, g: Gettext)
    ensures var below := Resolved(ts, singular, context, g);
            var m := FirstDiffering(below, singular);
            LowerWalkAsWritten(Lift(ts), singular, context, g) == Some(if m < |below| then below[m] else singular)
  {
    if ts != [] {
      LowerWalkAgrees(ts[1..], singular, context, g);
      assert Lift(ts)[1..] == Lift(ts[1..]);
      assert Resolved(ts, singular, context, g)[1..] == Resolved(ts[1..], singular, context, g);
    }
  }

  /** As written, once the lower loop is reached (a domain is bound, its
      dgettext misses and nothing merged above answers), a string that no
      earlier lower translator translates ends in a call on null; with the
      argument appended, the loop returns the argument's own answer. */
  lemma {:induction false} MergeOriginalsAsWrittenFails(ts: seq<Translator>, other: Translator, singular: string,
                                                        context: Option<string>, g: Gettext)
    requires !other.Noop?
    requires forall j :: 0 <= j < |ts| ==> Translate(ts[j], singular, context, g) == singular
    ensures LowerWalkAsWritten(AppendOriginalAsWritten(Lift(ts), other), singular, context, g).None?
    ensures LowerWalkAsWritten(Lift(ts + [other]), singular, context, g) == Some(Translate(other, singular, context, g))
  {
    LowerWalkAgrees(ts + [other], singular, context, g);
    var below := Resolved(ts + [other], singular, context, g);
    assert (ts + [other])[|ts|] == other;
    assert below[|ts|] == Translate(other, singular, context, g);
    assert LowerWalkAsWritten(Lift(ts + [other]), singular, context, g) == Some(Translate(other, singular, context, g));
    if ts != [] {
      MergeOriginalsAsWrittenFails(ts[1..], other, singular, context, g);
      assert (Lift(ts) + [None])[1..] == Lift(ts[1..]) + [None];
    }
  }
}

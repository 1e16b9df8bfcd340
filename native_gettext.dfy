/**
 * The WPPP_Native_Gettext object: its bound domain, its codepage and its two
 * precedence lists as fields; the merge operations that append to the lists;
 * the read-only stubs; `import_from_file` against the host's filesystem and
 * gettext binding table; and `isAvailable`.
 */
module L10n {
  import opened Wrappers
  import Text
  import opened Resolution
  import opened ContentStore

  /** A translation entry as the `Translations` API passes it around. */
  datatype Entry = Entry(singular: string, plural: Option<string>, context: Option<string>, translations: seq<string>)

  /** The process environment an import acts on: the filesystem and the
      domain bindings gettext keeps for the whole process. */
  class Host {
    var files: map<string, Content>
    var dirs: set<string>
    var bindings: map<string, Binding>

    constructor (files: map<string, Content>, dirs: set<string>)
      ensures this.files == files && this.dirs == dirs && bindings == map[]
    {
      this.files := files;
      this.dirs := dirs;
      bindings := map[];
    }

    function State(): Store
      reads this
    {
      Store(files, dirs, bindings)
    }
  }

  class NativeGettext {
    var domain: Option<string>
    var codepage: string
    var pOthers: seq<Translator>
    var sOthers: seq<Translator>

    /** A fresh translator has no domain, the codepage "UTF8" and nothing merged. */
    constructor ()
      ensures domain == None && codepage == "UTF8" && pOthers == [] && sOthers == []
    {
      domain := None;
      codepage := "UTF8";
      pOthers := [];
      sOthers := [];
    }

    /** The translator this object currently is; `translate` and
        `translate_plural` on the object are `Resolution.Translate` and
        `Resolution.TranslatePlural` of this value. */
    function Value(): Translator
      reads this
    {
      Native(domain, pOthers, sOthers)
    }

    /** `merge_with($other)`: `other` takes precedence over everything merged
        so far and over this object's own domain; NOOP translators are
        ignored. */
    method MergeWith(other: Translator)
      modifies this`pOthers
      ensures pOthers == if other.Noop? then old(pOthers) else old(pOthers) + [other]
      ensures Value() == if other.Noop? then old(Value()) else Native(domain, old(pOthers) + [other], sOthers)
    {
      if !other.Noop? {
        pOthers := pOthers + [other];
      }
    }

    /** `merge_originals_with($other)`: this object's own domain and
        everything merged so far take precedence over `other`; NOOP
        translators are ignored. */
    method MergeOriginalsWith(other: Translator)
      modifies this`sOthers
      ensures sOthers == if other.Noop? then old(sOthers) else old(sOthers) + [other]
      ensures Value() == if other.Noop? then old(Value()) else Native(domain, pOthers, old(sOthers) + [other])
    {
      if !other.Noop? {
        sOthers := sOthers + [other];
      }
    }

    // The catalog is read-only: every mutator of the Translations API fails
    // and leaves the object as it is.

    method AddEntry(entry: Entry) returns (ok: bool)
      ensures !ok
    {
      ok := false;
    }

    method AddEntryOrMerge(entry: Entry) returns (ok: bool)
      ensures !ok
    {
      ok := false;
    }

    method SetHeader(header: string, value: string) returns (ok: bool)
      ensures !ok
    {
      ok := false;
    }

    method SetHeaders(headers: map<string, string>) returns (ok: bool)
      ensures !ok
    {
      ok := false;
    }

    /** No header is ever available (PHP `false`). */
    method GetHeader(header: string) returns (value: Option<string>)
      ensures value.None?
    {
      value := None;
    }

    method TranslateEntry(entry: Entry) returns (ok: bool)
      ensures !ok
    {
      ok := false;
    }

    /** `import_from_file($filename)`: hash the file, make sure the messages
        directory exists, copy the file into the store unless its catalog is
        already there, bind the domain, and only then adopt it. */
    method ImportFromFile(filename: string, host: Host, site: Site, md5: Content -> string, faults: Faults)
      returns (ok: bool)
      modifies this`domain, host
      ensures var (outcome, st) := Import(old(host.State()), filename, Stem(filename), site, codepage, md5, faults);
              && host.State() == st
              && ok == outcome.Imported?
              && domain == if ok then Some(outcome.domain) else old(domain)
      ensures Value() == Native(domain, old(pOthers), old(sOthers))
    {
      ok := ImportNamed(Stem(filename), filename, host, site, md5, faults);
    }

    /** The import once the file's stem `name` is known: the domain id, then
        the install, then adopting the domain. */
    method ImportNamed(name: string, filename: string, host: Host, site: Site, md5: Content -> string, faults: Faults)
      returns (ok: bool)
      modifies this`domain, host
      ensures var (outcome, st) := Import(old(host.State()), filename, name, site, codepage, md5, faults);
              && host.State() == st
              && ok == outcome.Imported?
              && domain == if ok then Some(outcome.domain) else old(domain)
      ensures Value() == Native(domain, old(pOthers), old(sOthers))
    {
      var derived := DeriveDomain(host.State(), filename, name, md5);
      if derived.None? {
        return false;
      }
      ok := InstallCatalog(derived.value, filename, host, site, faults);
      if ok {
        domain := derived;
      }
    }

    /** The steps of `import_from_file` once the domain id is known: the
        messages directory, the copy, the two bindings. */
    method InstallCatalog(id: string, filename: string, host: Host, site: Site, faults: Faults)
      returns (ok: bool)
      modifies host
      ensures var (outcome, st) := Install(old(host.State()), Some(id), filename, site, codepage, faults);
              && host.State() == st
              && ok == outcome.Imported?
              && (ok ==> outcome.domain == id)
    {
      var dir := MessagesDir(site);
      if dir !in host.dirs {
        if faults.mkdirFails {
          return false;
        }
        host.dirs := host.dirs + {dir};
      } else {
        assert host.dirs + {dir} == host.dirs;
      }
      var dest := CatalogPath(site, id);
      if dest !in host.files {
        if faults.copyFails || filename !in host.files {
          return false;
        }
        host.files := host.files[dest := host.files[filename]];
      }
      host.bindings := host.bindings[id := Binding(LocalizeRoot(site), codepage)];
      return true;
    }
  }

  /** Calling `import_from_file` twice on one object with the same file: when
      the first call succeeds, so does the second, and the domain stays the
      content-derived id. */
  method ImportTwice(t: NativeGettext, filename: string, host: Host, site: Site, md5: Content -> string,
                     faults: Faults, faults': Faults) returns (first: bool, second: bool)
    modifies t`domain, host
    ensures first ==> second
    ensures first ==> filename in old(host.files)
                      && t.domain == Some(DomainId(Stem(filename), md5(old(host.files)[filename])))
  {
    ghost var st0 := host.State();
    first := t.ImportFromFile(filename, host, site, md5, faults);
    ghost var st1 := host.State();
    ghost var d1 := t.domain;
    if first {
      ImportDomain(st0, filename, Stem(filename), site, t.codepage, md5, faults);
      ReimportIsNoOp(st0, filename, Stem(filename), site, t.codepage, md5, faults, faults');
    }
    second := t.ImportFromFile(filename, host, site, md5, faults');
    if first {
      assert host.State() == st1 && t.domain == d1;
    }
  }

  // ---------------------------------------------------------------------
  // isAvailable

  /** `ini_get` answers a string, or `false` (None) for an unknown option;
      PHP treats "" and "0" as false. */
  predicate IniTruthy(v: Option<string>)
  {
    v.Some? && Text.Truthy(v.value)
  }

  /** `array_map('trim', explode(',', $disabled))`. */
  function DisabledList(disabled: string): (names: seq<string>)
    ensures |names| == |Text.Split(disabled, ',')|
    ensures forall i :: 0 <= i < |names| ==> names[i] == Text.Trim(Text.Split(disabled, ',')[i])
    ensures forall i :: 0 <= i < |names| ==> Text.IsTrimmed(names[i]) && ',' !in names[i]
  {
    var parts := Text.Split(disabled, ',');
    TrimmedPiecesFree(parts);
    seq(|parts|, i requires 0 <= i < |parts| => Text.Trim(parts[i]))
  }

  /** Trimming pieces free of commas leaves them free of commas. */
  lemma TrimmedPiecesFree(parts: seq<string>)
    requires forall i :: 0 <= i < |parts| ==> ',' !in parts[i]
    ensures forall i :: 0 <= i < |parts| ==> ',' !in Text.Trim(parts[i])
  {
    forall i | 0 <= i < |parts| ensures ',' !in Text.Trim(parts[i]) {
      Text.TrimKeepsChars(parts[i], ',');
    }
  }

  /** `isAvailable($func)` given the values of `ini_get('safe_mode')` and
      `ini_get('disable_functions')`. */
  function IsAvailable(safeMode: Option<string>, disabledFunctions: Option<string>, func: string): bool
  {
    if IniTruthy(safeMode) then false
    else if IniTruthy(disabledFunctions) then func !in DisabledList(disabledFunctions.value)
    else true
  }

  /** Safe mode disables every function. */
  lemma SafeModeDisablesAll(safeMode: Option<string>, disabledFunctions: Option<string>, func: string)
    requires IniTruthy(safeMode)
    ensures !IsAvailable(safeMode, disabledFunctions, func)
  {
  }

  /** Outside safe mode and with no (or a false) `disable_functions`, every
      function is available. */
  lemma NothingDisabledAllAvailable(safeMode: Option<string>, disabledFunctions: Option<string>, func: string)
    requires !IniTruthy(safeMode) && !IniTruthy(disabledFunctions)
    ensures IsAvailable(safeMode, disabledFunctions, func)
  {
  }

  /** Outside safe mode, a function is unavailable exactly when some entry of
      the comma-separated list, trimmed, is its name. */
  lemma DisabledListDecides(safeMode: Option<string>, names: seq<string>, func: string)
    requires !IniTruthy(safeMode)
    requires |names| >= 1 && forall i :: 0 <= i < |names| ==> ',' !in names[i]
    requires Text.Truthy(Text.Join(names, ','))
    ensures IsAvailable(safeMode, Some(Text.Join(names, ',')), func)
            <==> forall i :: 0 <= i < |names| ==> Text.Trim(names[i]) != func
  {
    ListedIff(names, func);
  }

  /** A name is on the disabled list exactly when some entry, trimmed, is it. */
  lemma ListedIff(names: seq<string>, func: string)
    requires |names| >= 1 && forall i :: 0 <= i < |names| ==> ',' !in names[i]
    ensures func in DisabledList(Text.Join(names, ',')) <==> exists i :: 0 <= i < |names| && Text.Trim(names[i]) == func
  {
    var listed := DisabledList(Text.Join(names, ','));
    DisabledListOfJoin(names);
    if func in listed {
      var i :| 0 <= i < |listed| && listed[i] == func;
      assert Text.Trim(names[i]) == func;
    }
    if i :| 0 <= i < |names| && Text.Trim(names[i]) == func {
      assert listed[i] == func;
    }
  }

  /** Splitting a joined list gives back its entries, so the disabled list is
      the entries trimmed. */
  lemma DisabledListOfJoin(names: seq<string>)
    requires |names| >= 1 && forall i :: 0 <= i < |names| ==> ',' !in names[i]
    ensures |DisabledList(Text.Join(names, ','))| == |names|
    ensures forall i :: 0 <= i < |names| ==> DisabledList(Text.Join(names, ','))[i] == Text.Trim(names[i])
  {
    Text.SplitJoin(names, ',');
  }
}

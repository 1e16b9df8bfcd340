/**
 * The content-addressed catalog store of `import_from_file`: a compiled MO
 * file is registered under the domain "<stem>-<md5 of its content>" and
 * copied to <WP_CONTENT_DIR>/wppp/localize/<locale>/LC_MESSAGES/<domain>.mo
 * unless that file is already there. The filesystem and gettext's binding
 * table are one `Store` value; md5 is a parameter.
 */
module ContentStore {
  import opened Wrappers
  import Text

  type Content = seq<bv8>

  /** What `bindtextdomain` and `bind_textdomain_codeset` record for a domain. */
  datatype Binding = Binding(directory: string, codeset: string)

  /** Files by path, the directories that exist, and gettext's domain bindings. */
  datatype Store = Store(files: map<string, Content>, dirs: set<string>, bindings: map<string, Binding>)

  /** WP_CONTENT_DIR and the locale `get_locale()` reports. */
  datatype Site = Site(contentDir: string, locale: string)

  /** Whether `wp_mkdir_p` and `copy` fail when they have work to do. */
  datatype Faults = Faults(mkdirFails: bool, copyFails: bool)

  datatype Outcome = Imported(domain: string) | Failed

  /** The longest suffix of `s` free of `c`: the text after the last `c`. */
  function AfterLast(s: string, c: char): (r: string)
    ensures |r| <= |s| && r == s[|s| - |r|..]
    ensures c !in r
    ensures |r| < |s| ==> s[|s| - |r| - 1] == c
  {
    if s == [] || s[|s| - 1] == c then []
    else AfterLast(s[..|s| - 1], c) + [s[|s| - 1]]
  }

  /** The contract of `AfterLast` determines it. */
  lemma AfterLastSplit(a: string, b: string, c: char)
    requires c !in b
    requires a == [] || a[|a| - 1] == c
    ensures AfterLast(a + b, c) == b
  {
    var s := a + b;
    var r := AfterLast(s, c);
    assert r == s[|a|..] == b;
  }

  /** `basename($filename)` (forward slashes only). */
  function BaseName(path: string): string
  {
    AfterLast(path, '/')
  }

  /** `pathinfo($filename)['extension']` for the base name `base`: after its
      last dot, absent when it has no dot. */
  function Extension(base: string): Option<string>
  {
    if '.' in base then Some(AfterLast(base, '.')) else None
  }

  /** `basename($filename, '.' . $info['extension'])`: the base name without
      its extension, unless that would leave nothing. */
  function Stem(path: string): string
  {
    var base := BaseName(path);
    StripSuffix(base, "." + Extension(base).GetOr(""))
  }

  /** `base` without `suffix` when it ends with it and is longer than it. */
  function StripSuffix(base: string, suffix: string): (r: string)
    ensures |suffix| < |base| && base[|base| - |suffix|..] == suffix ==> r + suffix == base
    ensures !(|suffix| < |base| && base[|base| - |suffix|..] == suffix) ==> r == base
  {
    if |suffix| < |base| && base[|base| - |suffix|..] == suffix then base[..|base| - |suffix|] else base
  }

  lemma StripSuffixOf(name: string, suffix: string)
    requires name != []
    ensures StripSuffix(name + suffix, suffix) == name
  {
    var base := name + suffix;
    assert base[|base| - |suffix|..] == suffix;
  }

  /** A file called `name.ext` in any directory has stem `name`. */
  lemma StemOfCatalogName(dir: string, name: string, ext: string)
    requires dir == [] || dir[|dir| - 1] == '/'
    requires name != [] && '/' !in name
    requires '/' !in ext && '.' !in ext
    ensures BaseName(dir + name + "." + ext) == name + "." + ext
    ensures Extension(name + "." + ext) == Some(ext)
    ensures Stem(dir + name + "." + ext) == name
  {
    var base := name + "." + ext;
    var path := dir + name + "." + ext;
    assert path == dir + base;
    assert '/' !in base by { assert forall ch :: ch in base ==> ch in name || ch == '.' || ch in ext; }
    AfterLastSplit(dir, base, '/');
    ExtensionOfName(name, ext);
    StripExtension(name, ext);
    StemFromParts(path, base, name, ext);
  }

  lemma ExtensionOfName(name: string, ext: string)
    requires '.' !in ext
    ensures Extension(name + "." + ext) == Some(ext)
  {
    var front := name + ".";
    assert (front + ext)[|name|] == '.';
    AfterLastSplit(front, ext, '.');
  }

  lemma StripExtension(name: string, ext: string)
    requires name != []
    ensures StripSuffix(name + "." + ext, "." + ext) == name
  {
    StripSuffixOf(name, "." + ext);
    assert name + "." + ext == name + ("." + ext);
  }

  lemma StemFromParts(path: string, base: string, name: string, ext: string)
    requires BaseName(path) == base
    requires Extension(base) == Some(ext)
    requires StripSuffix(base, "." + ext) == name
    ensures Stem(path) == name
  {
  }

  /** The domain id: the stem, a dash and the content hash. */
  function DomainId(stem: string, hash: string): string
  {
    stem + "-" + hash
  }

  /** The directory handed to `bindtextdomain`. */
  function LocalizeRoot(site: Site): string
  {
    site.contentDir + "/wppp/localize/"
  }

  /** The directory `wp_mkdir_p` must provide. */
  function MessagesDir(site: Site): string
  {
    site.contentDir + "/wppp/localize/" + site.locale + "/LC_MESSAGES"
  }

  /** Where the catalog of `domain` is kept. */
  function CatalogPath(site: Site, domain: string): string
  {
    MessagesDir(site) + "/" + domain + ".mo"
  }

  /** `md5_file($filename)`: fails (PHP `false`) when the file cannot be read. */
  function HashFile(st: Store, filename: string, md5: Content -> string): Option<string>
  {
    if filename in st.files then Some(md5(st.files[filename])) else None
  }

  /** The domain id of a file, or None when it cannot be hashed. */
  function DeriveDomain(st: Store, filename: string, stem: string, md5: Content -> string): Option<string>
  {
    match HashFile(st, filename, md5)
    case None => None
    case Some(h) => Some(DomainId(stem, h))
  }

  /** The id is content-addressed: two readable files with the same stem and
      the same bytes get the same id, wherever they lie. */
  lemma DeriveDomainByContent(st: Store, f1: string, f2: string, stem: string, md5: Content -> string)
    requires f1 in st.files && f2 in st.files && st.files[f1] == st.files[f2]
    ensures DeriveDomain(st, f1, stem, md5) == DeriveDomain(st, f2, stem, md5)
    ensures DeriveDomain(st, f1, stem, md5).Some?
  {
  }

  /** For one stem, two ids are equal exactly when the hashes are. */
  lemma DomainIdDeterminesHash(stem: string, h1: string, h2: string)
    ensures DomainId(stem, h1) == DomainId(stem, h2) <==> h1 == h2
  {
    if DomainId(stem, h1) == DomainId(stem, h2) {
      assert h1 == DomainId(stem, h1)[|stem| + 1..];
      assert h2 == DomainId(stem, h2)[|stem| + 1..];
    }
  }

  /** md5 digests all have one width (32 hex digits), so an id of the form
      stem-hash determines both its stem and its hash, even across stems. */
  lemma DomainIdFixedWidth(s1: string, h1: string, s2: string, h2: string)
    requires |h1| == |h2|
    ensures DomainId(s1, h1) == DomainId(s2, h2) <==> s1 == s2 && h1 == h2
  {
    var d := DomainId(s1, h1);
    if d == DomainId(s2, h2) {
      assert |s1| == |s2|;
      assert s1 == d[..|s1|] && s2 == DomainId(s2, h2)[..|s2|];
      assert h1 == d[|s1| + 1..] && h2 == DomainId(s2, h2)[|s2| + 1..];
    }
  }

  /** The catalog lies where gettext looks for it once the domain is bound to
      `LocalizeRoot(site)`: `<root><locale>/LC_MESSAGES/<domain>.mo`. */
  lemma CatalogUnderBoundRoot(site: Site, domain: string)
    ensures CatalogPath(site, domain) == LocalizeRoot(site) + site.locale + "/LC_MESSAGES/" + domain + ".mo"
    ensures MessagesDir(site) == LocalizeRoot(site) + site.locale + "/LC_MESSAGES"
  {
  }

  /** Different domains have different catalog files. */
  lemma CatalogPathInjective(site: Site, d1: string, d2: string)
    ensures CatalogPath(site, d1) == CatalogPath(site, d2) <==> d1 == d2
  {
    var n := |MessagesDir(site) + "/"|;
    if CatalogPath(site, d1) == CatalogPath(site, d2) {
      assert |d1| == |d2|;
      assert d1 == CatalogPath(site, d1)[n..n + |d1|];
      assert d2 == CatalogPath(site, d2)[n..n + |d2|];
    }
  }

  /** Two catalogs with equally wide hashes share a file exactly when they
      have the same stem and the same hash: `a-b.mo` and `a.mo` never meet. */
  lemma CatalogPathDeterminesStemAndHash(site: Site, s1: string, h1: string, s2: string, h2: string)
    requires |h1| == |h2|
    ensures CatalogPath(site, DomainId(s1, h1)) == CatalogPath(site, DomainId(s2, h2)) <==> s1 == s2 && h1 == h2
  {
    CatalogPathInjective(site, DomainId(s1, h1), DomainId(s2, h2));
    DomainIdFixedWidth(s1, h1, s2, h2);
  }

  /** Steps after the domain id is known: create the directory, copy the file
      unless the destination is a file already, bind the domain. */
  function Install(st: Store, domain: Option<string>, filename: string, site: Site, codepage: string,
                   faults: Faults): (Outcome, Store)
  {
    if domain.None? then (Failed, st)
    else
      var dir := MessagesDir(site);
      if dir !in st.dirs && faults.mkdirFails then (Failed, st)
      else
        var st1 := st.(dirs := st.dirs + {dir});
        var dest := CatalogPath(site, domain.value);
        if dest !in st1.files && (faults.copyFails || filename !in st1.files) then (Failed, st1)
        else
          var files := if dest in st1.files then st1.files else st1.files[dest := st1.files[filename]];
          var bindings := st1.bindings[domain.value := Binding(LocalizeRoot(site), codepage)];
          (Imported(domain.value), st1.(files := files, bindings := bindings))
  }

  /** `import_from_file($filename)`, with an unreadable file rejected before
      anything else happens. */
  function Import(st: Store, filename: string, stem: string, site: Site, codepage: string, md5: Content -> string,
                  faults: Faults): (Outcome, Store)
  {
    Install(st, DeriveDomain(st, filename, stem, md5), filename, site, codepage, faults)
  }

  // ---------------------------------------------------------------------
  // What an import guarantees

  /** A successful import binds the domain derived from the stem and the hash
      of the file's content. */
  lemma ImportDomain(st: Store, filename: string, stem: string, site: Site, codepage: string, md5: Content -> string,
                     faults: Faults)
    ensures var (outcome, st') := Import(st, filename, stem, site, codepage, md5, faults);
            outcome.Imported? ==>
              && filename in st.files
              && outcome.domain == DomainId(stem, md5(st.files[filename]))
              && st'.bindings == st.bindings[outcome.domain := Binding(LocalizeRoot(site), codepage)]
  {
  }

  /** An import fails exactly when the file cannot be hashed, the directory is
      missing and cannot be made, or the catalog is missing and cannot be
      copied. */
  lemma ImportFailsWhen(st: Store, filename: string, stem: string, site: Site, codepage: string, md5: Content -> string,
                        faults: Faults)
    ensures Import(st, filename, stem, site, codepage, md5, faults).0.Failed? <==>
            || filename !in st.files
            || (MessagesDir(site) !in st.dirs && faults.mkdirFails)
            || (CatalogPath(site, DomainId(stem, md5(st.files[filename]))) !in st.files
                && faults.copyFails)
  {
  }

  /** A failed import leaves the files and the bindings as they were; only the
      directory may have been created. */
  lemma ImportFailureHarmless(st: Store, filename: string, stem: string, site: Site, codepage: string, md5: Content -> string,
                              faults: Faults)
    ensures var (outcome, st') := Import(st, filename, stem, site, codepage, md5, faults);
            outcome.Failed? ==>
              st'.files == st.files && st'.bindings == st.bindings && st.dirs <= st'.dirs <= st.dirs + {MessagesDir(site)}
  {
  }

  /** An import never overwrites or removes a file, and adds at most the
      catalog of its domain, holding the source's bytes. */
  lemma ImportNeverClobbers(st: Store, filename: string, stem: string, site: Site, codepage: string, md5: Content -> string,
                            faults: Faults)
    ensures var (outcome, st') := Import(st, filename, stem, site, codepage, md5, faults);
            && (forall p :: p in st.files ==> p in st'.files && st'.files[p] == st.files[p])
            && (forall p :: p in st'.files && p !in st.files ==>
                  filename in st.files && outcome.Imported? && p == CatalogPath(site, outcome.domain)
                  && st'.files[p] == st.files[filename])
            && (outcome.Imported? ==> CatalogPath(site, outcome.domain) in st'.files)
  {
    var (outcome, st') := Import(st, filename, stem, site, codepage, md5, faults);
    ImportFiles(st, filename, stem, site, codepage, md5, faults);
    if outcome.Imported? && CatalogPath(site, outcome.domain) !in st.files {
      var dest := CatalogPath(site, outcome.domain);
      assert st'.files == st.files[dest := st.files[filename]];
    } else {
      assert st'.files == st.files;
    }
  }

  /** The files after an import, case by case. */
  lemma ImportFiles(st: Store, filename: string, stem: string, site: Site, codepage: string, md5: Content -> string,
                    faults: Faults)
    ensures var (outcome, st') := Import(st, filename, stem, site, codepage, md5, faults);
            && (outcome.Imported? ==> filename in st.files)
            && (outcome.Imported? && CatalogPath(site, outcome.domain) !in st.files ==>
                  st'.files == st.files[CatalogPath(site, outcome.domain) := st.files[filename]])
            && (outcome.Failed? || CatalogPath(site, outcome.domain) in st.files ==> st'.files == st.files)
  {
  }

  /** Importing the same file again succeeds whatever the filesystem would
      do, yields the same domain and changes nothing. */
  lemma ReimportIsNoOp(st: Store, filename: string, stem: string, site: Site, codepage: string, md5: Content -> string,
                       faults: Faults, faults': Faults)
    requires Import(st, filename, stem, site, codepage, md5, faults).0.Imported?
    ensures var (outcome, st1) := Import(st, filename, stem, site, codepage, md5, faults);
            Import(st1, filename, stem, site, codepage, md5, faults') == (outcome, st1)
  {
    var (outcome, st1) := Import(st, filename, stem, site, codepage, md5, faults);
    var b := Binding(LocalizeRoot(site), codepage);
    assert st1.bindings[outcome.domain := b] == st1.bindings;
    assert st1.dirs + {MessagesDir(site)} == st1.dirs;
  }

  /** Two files with the same name and the same bytes, wherever they lie, map
      to one domain and one stored catalog: the second import changes nothing. */
  lemma SameContentSharesCatalog(st: Store, f1: string, f2: string, stem: string, site: Site, codepage: string,
                                 md5: Content -> string, faults: Faults, faults': Faults)
    requires f1 in st.files && f2 in st.files && st.files[f1] == st.files[f2]
    requires Import(st, f1, stem, site, codepage, md5, faults).0.Imported?
    ensures var (outcome, st1) := Import(st, f1, stem, site, codepage, md5, faults);
            && Import(st1, f2, stem, site, codepage, md5, faults') == (outcome, st1)
            && st1.files.Keys <= st.files.Keys + {CatalogPath(site, outcome.domain)}
  {
    var (outcome, st1) := Import(st, f1, stem, site, codepage, md5, faults);
    ImportNeverClobbers(st, f1, stem, site, codepage, md5, faults);
    assert f2 in st1.files && st1.files[f2] == st.files[f2];
    var b := Binding(LocalizeRoot(site), codepage);
    assert st1.bindings[outcome.domain := b] == st1.bindings;
    assert st1.dirs + {MessagesDir(site)} == st1.dirs;
  }

  /** The file "plugin-en.cat" whose content hashes to "abc123" gets the
      domain "plugin-en-abc123". */
  lemma ScenarioDomainId(dir: string)
    requires dir == [] || dir[|dir| - 1] == '/'
    ensures DomainId(Stem(dir + "plugin-en.cat"), "abc123") == "plugin-en-abc123"
  {
    ScenarioStem(dir);
    ScenarioJoin();
  }

  lemma ScenarioJoin()
    ensures DomainId("plugin-en", "abc123") == "plugin-en-abc123"
  {
  }

  lemma ScenarioStem(dir: string)
    requires dir == [] || dir[|dir| - 1] == '/'
    ensures Stem(dir + "plugin-en.cat") == "plugin-en"
  {
    var name, ext := "plugin-en", "cat";
    assert dir + name + "." + ext == dir + "plugin-en.cat";
    StemOfCatalogName(dir, name, ext);
  }

  // ---------------------------------------------------------------------
  // The hash check as written

  /** `!( $Domain = $name . '-' . md5_file($filename) )`: a failed hash is
      `false`, which concatenates as the empty string. */
  function DomainIdAsWritten(stem: string, hash: Option<string>): Option<string>
  {
    var d := DomainId(stem, hash.GetOr(""));
    if Text.Truthy(d) then Some(d) else None
  }

  /** The guard never rejects: the id always holds a dash. */
  lemma DomainIdAsWrittenNeverFails(stem: string, hash: Option<string>)
    ensures DomainIdAsWritten(stem, hash) == Some(DomainId(stem, hash.GetOr("")))
  {
    var d := DomainId(stem, hash.GetOr(""));
    assert d[|stem|] == '-';
  }

  /** `import_from_file` exactly as written. */
  function ImportAsWritten(st: Store, filename: string, stem: string, site: Site, codepage: string, md5: Content -> string,
                           faults: Faults): (Outcome, Store)
  {
    Install(st, DomainIdAsWritten(stem, HashFile(st, filename, md5)), filename, site, codepage, faults)
  }

  /** An unreadable file still makes the messages directory as written, and
      is imported under the domain "<stem>-" whenever the store already holds
      "<stem>-.mo"; the corrected import rejects it and changes nothing. */
  lemma ImportAsWrittenAcceptsUnreadable(st: Store, filename: string, stem: string, site: Site, codepage: string,
                                         md5: Content -> string, faults: Faults)
    requires filename !in st.files
    requires MessagesDir(site) in st.dirs || !faults.mkdirFails
    ensures ImportAsWritten(st, filename, stem, site, codepage, md5, faults).1.dirs == st.dirs + {MessagesDir(site)}
    ensures CatalogPath(site, DomainId(stem, "")) in st.files ==>
              ImportAsWritten(st, filename, stem, site, codepage, md5, faults).0 == Imported(DomainId(stem, ""))
    ensures Import(st, filename, stem, site, codepage, md5, faults) == (Failed, st)
  {
    DomainIdAsWrittenNeverFails(stem, None);
  }
}

/** `makeLocale` and `makeLocales` over the locales directory. The directory is
    a map from file name to the catalog the file holds; reading a missing file
    yields the empty catalog, writing replaces the entry, and deleting removes it.
    Files are read with `require`, which caches every parsed file for the rest of
    the process, so a run carries that cache alongside the directory. */
module Locales {
  import opened Catalogs
  import opened Reconciliation
  import opened ReconcileFacts

  /** The locales directory: file name to parsed contents. */
  type Dir = map<string, Catalog>

  /** One process of the tool: the locales directory, and the objects `require`
      has parsed so far, by file name, as they are now. A later `require` of the
      same file returns that object, changes included, and not the file. */
  datatype Run = Run(dir: Dir, cache: map<string, Catalog>)

  /** A new process over `dir`: nothing has been loaded yet. */
  function Fresh(dir: Dir): Run
  {
    Run(dir, map[])
  }

  /** `${language}.json`, the catalog of a language. */
  function CatalogFile(language: string): string
  {
    language + ".json"
  }

  /** `${language}.outdated.json`, the outdated store of a language. */
  function OutdatedFile(language: string): string
  {
    language + ".outdated.json"
  }

  /** The contents of the file `name`, or the empty catalog when it does not exist. */
  function Load(dir: Dir, name: string): (c: Catalog)
    ensures name in dir ==> c == dir[name]
    ensures name !in dir ==> c == map[]
  {
    if name in dir then dir[name] else map[]
  }

  /** `existsSync(name) ? require(name) : {}`: whether the file exists is asked
      of the directory, but an existing file that was loaded before is not read
      again. */
  function Require(run: Run, name: string): (c: Catalog)
    ensures name !in run.cache ==> c == Load(run.dir, name)
    ensures name in run.cache ==> c == (if name in run.dir then run.cache[name] else map[])
  {
    if name in run.dir && name in run.cache then run.cache[name] else Load(run.dir, name)
  }

  /** Reading a file back after `WriteOrDelete` gives what was written, or
      nothing after a delete; every other file reads as before. */
  lemma LoadAfterWrite(dir: Dir, name: string, store: Catalog, write: bool)
    ensures Load(WriteOrDelete(dir, name, store, write), name) == (if write then store else map[])
    ensures forall other :: other != name ==>
      Load(WriteOrDelete(dir, name, store, write), other) == Load(dir, other)
  {
  }

  /** Reading a language's files back after `Store` gives the outcome's
      catalog and its outdated store; every other file reads as before. */
  lemma LoadAfterStore(dir: Dir, language: string, r: Outcome)
    requires r.writeOutdated <==> |r.outdated| > 0
    ensures Load(Store(dir, language, r), CatalogFile(language)) == r.catalog
    ensures Load(Store(dir, language, r), OutdatedFile(language)) == r.outdated
    ensures forall name :: name != CatalogFile(language) && name != OutdatedFile(language) ==>
      Load(Store(dir, language, r), name) == Load(dir, name)
  {
    NothingLeftOver(r);
    var d := Store(dir, language, r);
    forall name | name != CatalogFile(language) && name != OutdatedFile(language)
      ensures Load(d, name) == Load(dir, name)
    {
      assert SameFile(d, dir, name);
    }
  }

  /** True when the file `name` is the same in both directories. */
  predicate SameFile(d: Dir, d': Dir, name: string)
  {
    (name in d <==> name in d') && (name in d ==> d[name] == d'[name])
  }

  /** One `makeLocale(language)` call: load both files, reconcile, write the
      catalog, then write the outdated store when it is non-empty and delete
      the outdated file otherwise. The loaded catalog object is only copied
      from, so it stays in the cache unchanged; the loaded outdated object is
      the working copy, so the cache ends up holding the left-over store. */
  function MakeLocale(run: Run, language: string, msgs: seq<Message>): (next: Run)
    ensures CatalogFile(language) in next.dir
    ensures next.dir[CatalogFile(language)].Keys == Texts(msgs)
    ensures OutdatedFile(language) in next.dir ==>
      |next.dir[OutdatedFile(language)]| > 0
      && next.dir[OutdatedFile(language)].Keys !! Texts(msgs)
      && forall k :: k in next.dir[OutdatedFile(language)] ==> next.dir[OutdatedFile(language)][k] != Blank
    ensures forall name :: name != CatalogFile(language) && name != OutdatedFile(language) ==>
      SameFile(next.dir, run.dir, name)
    ensures CatalogFile(language) in run.dir ==>
      CatalogFile(language) in next.cache
      && next.cache[CatalogFile(language)] == Require(run, CatalogFile(language))
    ensures OutdatedFile(language) in run.dir ==>
      OutdatedFile(language) in next.cache
      && next.cache[OutdatedFile(language)] == Load(next.dir, OutdatedFile(language))
    ensures forall name :: name in next.cache <==>
      name in run.cache
      || ((name == CatalogFile(language) || name == OutdatedFile(language)) && name in run.dir)
    ensures forall name :: name in run.cache && name != CatalogFile(language) && name != OutdatedFile(language) ==>
      next.cache[name] == run.cache[name]
  {
    var outdated := Require(run, OutdatedFile(language));
    var catalog := Require(run, CatalogFile(language));
    var r := Reconcile(outdated, catalog, msgs);
    NothingLeftOver(r);
    Run(Store(run.dir, language, r), Recache(run, language, catalog, r.outdated))
  }

  /** An outcome whose outdated store is not written has an empty one. */
  lemma NothingLeftOver(r: Outcome)
    requires r.writeOutdated <==> |r.outdated| > 0
    ensures !r.writeOutdated ==> r.outdated == map[]
  {
  }

  /** The cache after `makeLocale(language)`: the catalog file, when it exists,
      is cached as `catalog`, and the outdated file, when it exists, as the
      working copy `left` was turned into. */
  function Recache(run: Run, language: string, catalog: Catalog, left: Catalog): (cache: map<string, Catalog>)
    ensures CatalogFile(language) in run.dir ==> CatalogFile(language) in cache && cache[CatalogFile(language)] == catalog
    ensures OutdatedFile(language) in run.dir ==> OutdatedFile(language) in cache && cache[OutdatedFile(language)] == left
    ensures forall name :: name in cache <==>
      name in run.cache
      || ((name == CatalogFile(language) || name == OutdatedFile(language)) && name in run.dir)
    ensures forall name :: name in run.cache && name != CatalogFile(language) && name != OutdatedFile(language) ==>
      cache[name] == run.cache[name]
  {
    var catalogFile, outdatedFile := CatalogFile(language), OutdatedFile(language);
    DistinctFiles(language);
    var cache := if catalogFile in run.dir then run.cache[catalogFile := catalog] else run.cache;
    if outdatedFile in run.dir then cache[outdatedFile := left] else cache
  }

  /** Writes the catalog of an outcome, then writes or deletes its outdated file. */
  function Store(dir: Dir, language: string, r: Outcome): (d: Dir)
    ensures CatalogFile(language) in d && d[CatalogFile(language)] == r.catalog
    ensures OutdatedFile(language) in d <==> r.writeOutdated
    ensures r.writeOutdated ==> d[OutdatedFile(language)] == r.outdated
    ensures forall name :: name != CatalogFile(language) && name != OutdatedFile(language) ==>
      SameFile(d, dir, name)
  {
    var catalogFile, outdatedFile := CatalogFile(language), OutdatedFile(language);
    DistinctFiles(language);
    var written := dir[catalogFile := r.catalog];
    assert forall name :: name != catalogFile ==> SameFile(written, dir, name);
    WriteOrDelete(written, outdatedFile, r.outdated, r.writeOutdated)
  }

  /** `writeFile(name, store)` when `write` holds, `unlinkSync(name)` otherwise. */
  function WriteOrDelete(dir: Dir, name: string, store: Catalog, write: bool): (d: Dir)
    ensures name in d <==> write
    ensures write ==> d[name] == store
    ensures forall other :: other != name ==> SameFile(d, dir, other)
  {
    if write then dir[name := store] else dir - {name}
  }

  /** A language's catalog file and outdated file are different files. */
  lemma DistinctFiles(language: string)
    ensures CatalogFile(language) != OutdatedFile(language)
  {
    assert |CatalogFile(language)| != |OutdatedFile(language)|;
  }

  /** A language's files after `makeLocale` are what `Reconcile` computes from
      what `require` returns for them. */
  lemma MakeLocaleFiles(run: Run, language: string, msgs: seq<Message>)
    ensures var r := Reconcile(Require(run, OutdatedFile(language)), Require(run, CatalogFile(language)), msgs);
      var d := MakeLocale(run, language, msgs).dir;
      Load(d, CatalogFile(language)) == r.catalog && Load(d, OutdatedFile(language)) == r.outdated
      && (OutdatedFile(language) in d <==> r.writeOutdated)
  {
  }

  /** What `require` returns after a `makeLocale` call: the outdated file reads
      as it is now on disk (unless it was cached earlier and had been deleted
      before the call), while the catalog file, if it existed, still yields the
      object loaded before the call, not the catalog just written. Other files
      read as before. */
  lemma RequireAfterMakeLocale(run: Run, language: string, msgs: seq<Message>)
    ensures var next := MakeLocale(run, language, msgs);
      OutdatedFile(language) in run.dir || OutdatedFile(language) !in run.cache ==>
        Require(next, OutdatedFile(language)) == Load(next.dir, OutdatedFile(language))
    ensures var next := MakeLocale(run, language, msgs);
      CatalogFile(language) in run.dir ==>
        Require(next, CatalogFile(language)) == Require(run, CatalogFile(language))
    ensures var next := MakeLocale(run, language, msgs);
      forall name :: name != CatalogFile(language) && name != OutdatedFile(language) ==>
        Require(next, name) == Require(run, name)
  {
    var next := MakeLocale(run, language, msgs);
    forall name | name != CatalogFile(language) && name != OutdatedFile(language)
      ensures Require(next, name) == Require(run, name)
    {
      assert SameFile(next.dir, run.dir, name);
    }
  }

  /** True when `language`'s files in `d` are the reconciliation of its files in `before`. */
  predicate Reconciled(d: Dir, before: Dir, language: string, msgs: seq<Message>)
  {
    var r := Reconcile(Load(before, OutdatedFile(language)), Load(before, CatalogFile(language)), msgs);
    Load(d, CatalogFile(language)) == r.catalog && Load(d, OutdatedFile(language)) == r.outdated
  }

  /** When the listed languages are all different and none's outdated file is
      another's catalog, no call reads a file an earlier call wrote and no file
      is written twice: every language's files end as the reconciliation of
      that language's files from before the run. */
  lemma {:induction false} MakeLocalesIndependent(run: Run, languages: seq<string>, msgs: seq<Message>)
    requires forall i, j :: 0 <= i < j < |languages| ==> languages[i] != languages[j]
    requires forall l, l' :: l in languages && l' in languages ==> OutdatedFile(l') != CatalogFile(l)
    requires forall l :: l in languages ==> CatalogFile(l) !in run.cache && OutdatedFile(l) !in run.cache
    ensures forall l :: l in languages ==> Reconciled(MakeLocales(run, languages, msgs).dir, run.dir, l, msgs)
    decreases |languages|
  {
    if languages != [] {
      var first, rest := languages[0], languages[1..];
      var next := MakeLocale(run, first, msgs);
      assert MakeLocales(run, languages, msgs) == MakeLocales(next, rest, msgs);
      var d := MakeLocales(next, rest, msgs).dir;
      IndependentStep(run, languages, msgs);
      MakeLocalesIndependent(next, rest, msgs);
      FirstReconciled(run, first, rest, msgs);
      ReconciledElsewhere(d, next.dir, run.dir, rest, msgs);
      assert forall l :: l in languages ==> l == first || l in rest;
    }
  }

  /** The first language's files, once its call is done, are not touched by
      the calls for the languages after it. */
  lemma FirstReconciled(run: Run, first: string, rest: seq<string>, msgs: seq<Message>)
    requires Untouched(CatalogFile(first), rest) && Untouched(OutdatedFile(first), rest)
    requires CatalogFile(first) !in run.cache && OutdatedFile(first) !in run.cache
    ensures Reconciled(MakeLocales(MakeLocale(run, first, msgs), rest, msgs).dir, run.dir, first, msgs)
  {
    var next := MakeLocale(run, first, msgs);
    var d := MakeLocales(next, rest, msgs).dir;
    MakeLocaleFiles(run, first, msgs);
    assert SameFile(d, next.dir, CatalogFile(first)) && SameFile(d, next.dir, OutdatedFile(first));
  }

  /** Reconciliation against `before` is reconciliation against `before'` for
      languages whose files are the same in both. */
  lemma ReconciledElsewhere(d: Dir, before: Dir, before': Dir, languages: seq<string>, msgs: seq<Message>)
    requires forall l :: l in languages ==>
      SameFile(before, before', CatalogFile(l)) && SameFile(before, before', OutdatedFile(l))
    requires forall l :: l in languages ==> Reconciled(d, before, l, msgs)
    ensures forall l :: l in languages ==> Reconciled(d, before', l, msgs)
  {
    forall l | l in languages
      ensures Reconciled(d, before', l, msgs)
    {
      assert Load(before, CatalogFile(l)) == Load(before', CatalogFile(l));
      assert Load(before, OutdatedFile(l)) == Load(before', OutdatedFile(l));
    }
  }

  /** The first call of `MakeLocalesIndependent`'s list leaves the remaining
      languages meeting its conditions, their files as they were, and its own
      files out of their reach. */
  lemma IndependentStep(run: Run, languages: seq<string>, msgs: seq<Message>)
    requires languages != []
    requires forall i, j :: 0 <= i < j < |languages| ==> languages[i] != languages[j]
    requires forall l, l' :: l in languages && l' in languages ==> OutdatedFile(l') != CatalogFile(l)
    requires forall l :: l in languages ==> CatalogFile(l) !in run.cache && OutdatedFile(l) !in run.cache
    ensures var first, rest, next := languages[0], languages[1..], MakeLocale(run, languages[0], msgs);
      && (forall i, j :: 0 <= i < j < |rest| ==> rest[i] != rest[j])
      && (forall l, l' :: l in rest && l' in rest ==> OutdatedFile(l') != CatalogFile(l))
      && (forall l :: l in rest ==> CatalogFile(l) !in next.cache && OutdatedFile(l) !in next.cache)
      && (forall l :: l in rest ==>
           SameFile(next.dir, run.dir, CatalogFile(l)) && SameFile(next.dir, run.dir, OutdatedFile(l)))
      && Untouched(CatalogFile(first), rest) && Untouched(OutdatedFile(first), rest)
  {
    var first, rest := languages[0], languages[1..];
    forall l | l in rest
      ensures var next := MakeLocale(run, first, msgs);
        SameFile(next.dir, run.dir, CatalogFile(l)) && SameFile(next.dir, run.dir, OutdatedFile(l))
        && CatalogFile(l) !in next.cache && OutdatedFile(l) !in next.cache
      ensures CatalogFile(first) != CatalogFile(l) && CatalogFile(first) != OutdatedFile(l)
      ensures OutdatedFile(first) != CatalogFile(l) && OutdatedFile(first) != OutdatedFile(l)
    {
      var k :| 0 <= k < |rest| && rest[k] == l;
      assert languages[k + 1] == l;
      LaterLanguageUnaffected(run, first, l, msgs);
    }
    forall i, j | 0 <= i < j < |rest|
      ensures rest[i] != rest[j]
    {
      assert rest[i] == languages[i + 1] && rest[j] == languages[j + 1];
    }
    assert forall l :: l in rest ==> l in languages;
  }

  /** A `makeLocale` call for `first` leaves the files and cache entries of a
      different language `l` alone when neither's outdated file is the other's
      catalog. */
  lemma LaterLanguageUnaffected(run: Run, first: string, l: string, msgs: seq<Message>)
    requires l != first && OutdatedFile(l) != CatalogFile(first) && OutdatedFile(first) != CatalogFile(l)
    requires CatalogFile(l) !in run.cache && OutdatedFile(l) !in run.cache
    ensures var next := MakeLocale(run, first, msgs);
      SameFile(next.dir, run.dir, CatalogFile(l)) && SameFile(next.dir, run.dir, OutdatedFile(l))
      && CatalogFile(l) !in next.cache && OutdatedFile(l) !in next.cache
    ensures CatalogFile(first) != CatalogFile(l) && CatalogFile(first) != OutdatedFile(l)
    ensures OutdatedFile(first) != CatalogFile(l) && OutdatedFile(first) != OutdatedFile(l)
  {
    FileNamesDistinct(l, first);
  }

  /** A later run of the tool (a new process, which reads both files again) for
      the same language and messages leaves the directory as the first run left it. */
  lemma MakeLocaleIdempotent(dir: Dir, language: string, msgs: seq<Message>)
    ensures var d := MakeLocale(Fresh(dir), language, msgs).dir;
      MakeLocale(Fresh(d), language, msgs).dir == d
  {
    var outdated, catalog := Load(dir, OutdatedFile(language)), Load(dir, CatalogFile(language));
    var r := Reconcile(outdated, catalog, msgs);
    FreshMakeLocale(dir, language, msgs);
    var d := Store(dir, language, r);
    ReconcileIdempotent(outdated, catalog, msgs);
    assert Load(d, OutdatedFile(language)) == (if r.writeOutdated then r.outdated else map[]);
    FreshMakeLocale(d, language, msgs);
    StoreAgain(dir, language, r);
  }

  /** In a new process, `makeLocale` stores what reconciling the two files gives. */
  lemma FreshMakeLocale(dir: Dir, language: string, msgs: seq<Message>)
    ensures MakeLocale(Fresh(dir), language, msgs).dir
      == Store(dir, language, Reconcile(Load(dir, OutdatedFile(language)), Load(dir, CatalogFile(language)), msgs))
  {
    assert Require(Fresh(dir), OutdatedFile(language)) == Load(dir, OutdatedFile(language));
    assert Require(Fresh(dir), CatalogFile(language)) == Load(dir, CatalogFile(language));
  }

  /** Storing the same outcome twice changes nothing the second time. */
  lemma StoreAgain(dir: Dir, language: string, r: Outcome)
    ensures var d := Store(dir, language, r); Store(d, language, r) == d
  {
    var d := Store(dir, language, r);
    var d2 := Store(d, language, r);
    forall name
      ensures SameFile(d2, d, name)
    {
    }
    SameDir(d2, d);
  }

  /** Two directories that agree on every file are equal. */
  lemma SameDir(d: Dir, d': Dir)
    requires forall name :: SameFile(d, d', name)
    ensures d == d'
  {
    forall name
      ensures (name in d <==> name in d') && (name in d ==> d[name] == d'[name])
    {
      assert SameFile(d, d', name);
    }
  }

  /** True when `name` is neither the catalog nor the outdated file of any of `languages`. */
  predicate Untouched(name: string, languages: seq<string>)
  {
    forall l :: l in languages ==> name != CatalogFile(l) && name != OutdatedFile(l)
  }

  /** `makeLocales`: `makeLocale` for each language in turn, in one process. */
  function MakeLocales(run: Run, languages: seq<string>, msgs: seq<Message>): (next: Run)
    ensures forall name :: Untouched(name, languages) ==> SameFile(next.dir, run.dir, name)
    decreases |languages|
  {
    if languages == [] then run
    else
      var r1 := MakeLocale(run, languages[0], msgs);
      assert forall name :: Untouched(name, languages) ==>
        Untouched(name, languages[1..]) && SameFile(r1.dir, run.dir, name);
      MakeLocales(r1, languages[1..], msgs)
  }

  /** The outdated file of any language `l` is the catalog file of the
      language `l.outdated`. */
  lemma FileNamesCollide(language: string)
    ensures OutdatedFile(language) == CatalogFile(language + ".outdated")
  {
    assert language + ".outdated" + ".json" == language + ".outdated.json";
  }

  /** Different languages have different catalog files and different outdated files. */
  lemma FileNamesDistinct(l: string, l': string)
    requires l != l'
    ensures CatalogFile(l) != CatalogFile(l') && OutdatedFile(l) != OutdatedFile(l')
  {
    assert CatalogFile(l)[..|l|] == l && CatalogFile(l')[..|l'|] == l';
    assert OutdatedFile(l)[..|l|] == l && OutdatedFile(l')[..|l'|] == l';
  }

  /** A language listed twice is reconciled twice in one process. The second
      call gets the store the first call left, and the catalog object `require`
      loaded before the first call rather than the catalog the first call wrote.
      Only when there was no catalog file does it read the one the first call
      wrote, which assumes that write has already landed. */
  lemma RepeatedLanguage(dir: Dir, language: string, msgs: seq<Message>)
    ensures var r1 := Reconcile(Load(dir, OutdatedFile(language)), Load(dir, CatalogFile(language)), msgs);
      var stale := if CatalogFile(language) in dir then dir[CatalogFile(language)] else r1.catalog;
      var r2 := Reconcile(if r1.writeOutdated then r1.outdated else map[], stale, msgs);
      MakeLocales(Fresh(dir), [language, language], msgs).dir == Store(Store(dir, language, r1), language, r2)
  {
    var run1 := MakeLocale(Fresh(dir), language, msgs);
    FreshMakeLocale(dir, language, msgs);
    assert [language, language][1..] == [language];
    assert MakeLocales(Fresh(dir), [language, language], msgs) == MakeLocales(run1, [language], msgs);
    SingleLanguage(run1, language, msgs);
  }

  /** A translation that only the outdated store holds: listed once, the
      language gets it back into its catalog; listed twice, the second call
      finds the store emptied and the catalog object still without it, and
      writes `""`. */
  lemma RepeatedLanguageLosesTranslation(dir: Dir, language: string, m: Message)
    requires !IsPlural(m)
    requires OutdatedFile(language) in dir && m.text in dir[OutdatedFile(language)]
    requires dir[OutdatedFile(language)][m.text] != Blank
    requires CatalogFile(language) in dir && m.text !in dir[CatalogFile(language)]
    ensures var once := MakeLocales(Fresh(dir), [language], [m]).dir;
      CatalogFile(language) in once && m.text in once[CatalogFile(language)]
      && once[CatalogFile(language)][m.text] == dir[OutdatedFile(language)][m.text]
    ensures var twice := MakeLocales(Fresh(dir), [language, language], [m]).dir;
      CatalogFile(language) in twice && m.text in twice[CatalogFile(language)]
      && twice[CatalogFile(language)][m.text] == Blank
  {
    var outdated, catalog := dir[OutdatedFile(language)], dir[CatalogFile(language)];
    var r1 := Reconcile(outdated, catalog, [m]);
    RestoredFromOutdated(outdated, catalog, [m], 0);
    FreshMakeLocale(dir, language, [m]);
    SingleLanguage(Fresh(dir), language, [m]);
    var store := if r1.writeOutdated then r1.outdated else map[];
    NewMessageDefaults(store, catalog, [m], 0);
    RepeatedLanguage(dir, language, [m]);
  }

  /** `makeLocales` of a single language is one `makeLocale` call. */
  lemma SingleLanguage(run: Run, language: string, msgs: seq<Message>)
    ensures MakeLocales(run, [language], msgs) == MakeLocale(run, language, msgs)
  {
    assert [language][1..] == [];
  }

  /** A language keeps a catalog holding every extracted text, as long as no
      language processed after it owns that file as its outdated store. */
  lemma {:induction false} MakeLocalesKeepsCatalog(run: Run, languages: seq<string>, msgs: seq<Message>, l: string)
    requires CatalogFile(l) in run.dir && run.dir[CatalogFile(l)].Keys == Texts(msgs)
    requires forall l' :: l' in languages ==> OutdatedFile(l') != CatalogFile(l)
    ensures var d := MakeLocales(run, languages, msgs).dir;
      CatalogFile(l) in d && d[CatalogFile(l)].Keys == Texts(msgs)
    decreases |languages|
  {
    if languages != [] {
      var first := languages[0];
      var r1 := MakeLocale(run, first, msgs);
      assert OutdatedFile(first) != CatalogFile(l);
      assert CatalogFile(l) in r1.dir && r1.dir[CatalogFile(l)].Keys == Texts(msgs) by {
        if CatalogFile(l) != CatalogFile(first) {
          assert SameFile(r1.dir, run.dir, CatalogFile(l));
        }
      }
      assert forall l' :: l' in languages[1..] ==> l' in languages;
      MakeLocalesKeepsCatalog(r1, languages[1..], msgs, l);
      assert MakeLocales(run, languages, msgs) == MakeLocales(r1, languages[1..], msgs);
    }
  }

  /** After `makeLocales` every listed language has a catalog holding exactly
      the extracted texts, when no language's outdated file is another's catalog. */
  lemma {:induction false} MakeLocalesCatalogs(run: Run, languages: seq<string>, msgs: seq<Message>)
    requires forall l, l' :: l in languages && l' in languages ==> OutdatedFile(l') != CatalogFile(l)
    ensures var d := MakeLocales(run, languages, msgs).dir;
      forall l :: l in languages ==> CatalogFile(l) in d && d[CatalogFile(l)].Keys == Texts(msgs)
    decreases |languages|
  {
    if languages != [] {
      var r1 := MakeLocale(run, languages[0], msgs);
      var rest := languages[1..];
      MakeLocalesCatalogs(r1, rest, msgs);
      MakeLocalesKeepsCatalog(r1, rest, msgs, languages[0]);
    }
  }
}

# i18n extractor catalog maintenance, modelled in Dafny

`i18n-extractor` collects translatable strings from a source tree and keeps one
JSON catalog per language in `locales/<language>.json`. Translations whose
source string has disappeared go into `locales/<language>.outdated.json`
instead of being thrown away. This project models the two pieces of logic in
`extractor.js` that do more than plumbing, and proves properties about them:

- **Catalog reconciliation** (`makeLocale`). The outdated store and the catalog
  are merged into a working copy `previous`. Every extracted message then gets
  an entry: a string, or `{one, other}` for a plural message. Its text is
  removed from `previous`. Left-overs whose value is exactly `""` are dropped.
  The rest become the new outdated store. That file is written when it is
  non-empty and deleted otherwise. The model also covers `makeLocales`, which
  runs this once per language over a locales directory.
- **Language resolution** (`parseLanguages`). The command-line argument is split
  on `,`, and a lone `all` means "none given". Without explicit languages, the
  names of the `.json` files in the locales directory are reduced to the text
  before their first `.` and deduplicated in first-seen order.

Modules:

- `Wrappers` (wrappers.dfy): `Option` and `Result`.
- `Catalogs` (catalogs.dfy): entries `Str(s) | Plural(one, other)`, catalogs as
  `map<string, Entry>`, and extracted messages. A message has a text, an optional
  plural text and an optional context.
- `JsValues` (jsvalues.dfy): the small part of JavaScript the script relies on.
  This covers truthiness, `&&` and `||` returning one of their operands, and
  reading `.one` or `.other` from a string (which gives `undefined`) or from a
  record.
- `Reconciliation` (reconcile.dfy): the reconciliation as pure functions.
- `ReconcileFacts` (reconcile_facts.dfy): which entry every key receives,
  idempotence, and the user-visible behaviours.
- `Locales` (locales.dfy): the locales directory as a map from file name to
  contents, the cache of files `require` has loaded, and `makeLocale` /
  `makeLocales` over both.
- `Languages` (languages.dfy): splitting, the `.json` filter, the
  language-code regular expression, and the deduplicating scan.

Some behaviours of the script are easy to misread; the model follows the code:

- A file named `en.outdated.json` yields the language `en`. The pattern `\..*`
  removes everything from the first `.` onwards (up to a line break); stripping
  only the last suffix would give `en.outdated`.
- `parseLanguages` returns either the explicit list or the languages found in
  the directory, never both, although its doc comment (extractor.js:101-103)
  says it combines them.
- A singular message keeps whatever truthy value `previous` holds, even a plural
  record. No shape check is done.
- A plural message takes `one` and `other` only from a plural record. A plain
  string counts as if nothing were there.
- When two messages share a text (for instance the same string under two
  contexts), the first deletes the key from `previous`, so the last one gets the
  default entry and the translation is in neither file afterwards.
- `require` caches each parsed file for the rest of the process. Within one
  `makeLocales`, a later `makeLocale` that reads a file loaded before gets that
  object, not the file: for a catalog file, its contents before the run; for an
  outdated file, the left-overs as the earlier call changed them.
- `writeFile` only starts a write; the data reaches the file after the whole
  `makeLocales` has returned, and two writes of one file race. When the listed
  languages are all different and no language's outdated file is another's
  catalog, no call reads a file an earlier call writes and no file is written
  twice, so the result does not depend on when the writes land
  (`MakeLocalesIndependent`). A language listed twice, or a pair such as
  `en.outdated` and `en`, leaves the outcome to that race.

## Model

| member | source | states |
|---|---|---|
| JsValues.PluralIsTruthy | extractor.js:74 | a message takes the plural branch exactly when `message.textPlural` is truthy, `undefined` standing for a missing plural text |
| Reconciliation.Overlay | extractor.js:69-70 | `previous` holds the keys of both files; on a key in both, the catalog's value wins over the outdated store's |
| Reconciliation.NewEntry | extractor.js:74-81 | singular: the previous value when it is anything but `""`, else `""`; plural: `one` from a previous plural record, else `""`; `other` from a previous plural record when non-empty, else the plural source text |
| Reconciliation.Default | extractor.js:74-80 | a message with nothing in `previous` gets `""`, or `{one: "", other: textPlural}` when it is plural |
| Reconciliation.Consume | extractor.js:73-83 | after the message loop, `latest` has exactly the earlier keys plus every message text, and keys no message touched keep their value; `previous` has lost exactly the message texts and nothing else changed |
| Reconciliation.Prune | extractor.js:89-91 | the pruned store is a sub-map of the left-overs that drops exactly the entries equal to `""` |
| Reconciliation.Reconcile | extractor.js:67-98 | the new catalog's keys are exactly the extracted texts; the new outdated store is disjoint from it; it holds exactly the keys of `previous` that were not extracted and are not `""`, with their values unchanged, so it never holds a `""` entry; it is written if and only if it is non-empty |
| ReconcileFacts.ConsumeValue | extractor.js:73-83 | for an extracted key, the loop's result is the entry chosen by the last message with that text; it is read from `previous` unless an earlier message with the same text already deleted the key, in which case it is the default |
| ReconcileFacts.ReconcileEntries | extractor.js:69-83 | the same characterisation for the catalog `makeLocale` writes, with `previous` being the overlay of the two files |
| ReconcileFacts.SoleOccurrenceEntry | extractor.js:74-82 | a message whose text no other message shares gets the entry computed from `previous` |
| ReconcileFacts.TranslationPreserved | extractor.js:80 | a singular message whose text no other message shares keeps the value the catalog holds for it, an empty one included |
| ReconcileFacts.RestoredFromOutdated | extractor.js:69-70 | a translation only in the outdated store returns to the catalog when its message reappears, and leaves the outdated store |
| ReconcileFacts.NewMessageDefaults | extractor.js:74-80 | a message found in neither file gets `""`, or `{one: "", other: textPlural}` |
| ReconcileFacts.DemotedToOutdated | extractor.js:82-95 | a non-empty catalog entry that is no longer extracted leaves the catalog, lands in the outdated store unchanged, and the outdated file is written |
| ReconcileFacts.DuplicateTextDropsTranslation | extractor.js:73-91 | when two messages share a text, the last one gets the default entry, and the old translation is in neither the new catalog nor the outdated store |
| ReconcileFacts.NewEntryIdempotent | extractor.js:74-81 | computing a message's entry again from its own output gives the same entry |
| ReconcileFacts.ReconcileIdempotent | extractor.js:67-98 | reconciling again with the written catalog and outdated store (none when the file was deleted) reproduces the same catalog, outdated store and write decision |
| Locales.LoadAfterWrite | extractor.js:93-98 | reading a file back after it is written gives the written store, after it is deleted the empty catalog; other files read as before |
| Locales.LoadAfterStore | extractor.js:86-98 | reading a language's files back after the call's writes gives the new catalog and the new outdated store (empty when the file was deleted); other files read as before |
| Locales.RequireAfterMakeLocale | extractor.js:69-70 | after a call, `require` of the outdated file agrees with the file on disk (unless it was cached and then deleted before the call), while `require` of a catalog file that existed still yields the object loaded before the call, not the catalog just written; other files read as before |
| Locales.MakeLocale | extractor.js:62-98 | after one call, the language's catalog file holds exactly the extracted texts; its outdated file, if present, is non-empty, holds no `""` entry, and shares no key with the catalog; every other file is unchanged; the catalog object is cached as read, and the outdated object, if the file existed, is cached as the store now on disk (empty when deleted) |
| Locales.Recache | extractor.js:69-91 | the cache gains the two files that existed, the catalog as read and the outdated store as the loop and pruning left it; other cached files keep their objects |
| Locales.Store | extractor.js:86-98 | the catalog file holds the new catalog; the outdated file exists exactly when the store is written, and then holds it; no other file changes |
| Locales.WriteOrDelete | extractor.js:93-98 | the file exists afterwards exactly when it was written, holding the store; every other file is unchanged |
| Locales.MakeLocaleFiles | extractor.js:67-98 | the two files after the call are the result of reconciling what `require` returned for them, and the outdated file exists exactly when it is written |
| Locales.FreshMakeLocale | extractor.js:62-98 | in a new process, the call stores the reconciliation of the two files as they are on disk |
| Locales.MakeLocaleIdempotent | extractor.js:62-98 | a later run of the tool (a new process, which reads both files again) for the same language and messages leaves the directory as the first run left it |
| Locales.MakeLocales | extractor.js:53-55 | files that belong to none of the listed languages are unchanged |
| Locales.FileNamesCollide | extractor.js:67-68 | for every language `l`, the outdated file of `l` is the catalog file of the language `l.outdated` |
| Locales.FileNamesDistinct | extractor.js:67-68 | different languages have different catalog files and different outdated files |
| Locales.RepeatedLanguage | extractor.js:53-70 | a language listed twice is reconciled a second time against the store the first call left and, when its catalog file existed before the run, the catalog object loaded then; when it did not, the model's second call reads the catalog the first call wrote, a state the script cannot reach; the second call's writes are the final ones |
| Locales.RepeatedLanguageLosesTranslation | extractor.js:53-98 | a translation held only by the outdated store is restored when the language is listed once, and becomes `""` when it is listed twice |
| Locales.MakeLocalesKeepsCatalog | extractor.js:53-55 | a language's catalog survives later languages unless one of them uses that file as its outdated store |
| Locales.MakeLocalesIndependent | extractor.js:53-98 | when the listed languages are all different and no language's outdated file is another's catalog, each language's two files end as the reconciliation of its own files from before the run |
| Locales.MakeLocalesCatalogs | extractor.js:53-55 | when no language's outdated file is another's catalog, every listed language ends with a catalog holding exactly the extracted texts |
| Languages.Split | extractor.js:109 | splitting on `,` yields at least one piece and no piece contains `,` |
| Languages.JoinSplit | extractor.js:109 | joining the pieces with `,` restores the argument, so order, empty pieces and duplicates are kept |
| Languages.SplitJoin | extractor.js:109 | pieces without `,`, once joined, split back into the same pieces |
| Languages.ExplicitLanguages | extractor.js:109-111 | the explicit list is empty exactly when the argument is absent, empty or `all`; otherwise it is the argument's pieces, which join back to the argument |
| Languages.CatalogFileNames | extractor.js:115 | the `.json` filter accepts exactly the names of the form stem followed by `.json` |
| Languages.LanguageCode | extractor.js:116 | for a name without line breaks, the code is the prefix before the first `.` (the whole name when there is none) |
| Languages.LanguageBeforeSuffix | extractor.js:116 | a dot-free code followed by any suffix that starts with `.` and has no line break yields exactly that code |
| Languages.LanguageOfLocaleFiles | extractor.js:115-116 | for any dot-free code, `<code>.json` and `<code>.outdated.json` both pass the `.json` filter and both yield `<code>` |
| Languages.LanguageCodeStopsAtLineBreak | extractor.js:116 | the removal stops at a line break: `en.x\nfr.json` yields `en\nfr.json` |
| Languages.Codes | extractor.js:114-116 | a code appears exactly when some listed `.json` file yields it |
| Languages.LanguagesFromListing | extractor.js:113-121 | the scan returns every code of a `.json` file, each once, ordered by first appearance in the listing |
| Languages.ParseLanguages | extractor.js:108-122 | an explicit list is returned as given; otherwise an unreadable directory is an error, and a readable one gives the deduplicated codes in first-seen order |

## Left out

- Message extraction by the `gettext-extractor` library, with its glob patterns
  and statistics (extractor.js:18-46). It is a foreign library; its output is an
  input sequence of messages.
- File-system calls are replaced by the `Dir` map, the `Run` cache and function inputs:
  `existsSync`, `mkdirSync`, `require`, `writeFile`, `unlinkSync`, `readdirSync`.
  The creation of a missing locales directory has no counterpart.
- The writes are asynchronous with ignored callbacks. The model applies each
  `writeFile` at once, in call order, so a later read sees it. In the script
  the data lands only after `makeLocales` returns, and two writes of one file
  race. Where no file is read after a write or written twice, as in
  `MakeLocalesIndependent`, the two agree.
- Unparsable JSON. `require` throws on such a file; the exception ends
  `makeLocales`, so the remaining languages are skipped, and the catch prints the
  usage text (extractor.js:54, 145-147). `Dir` holds parsed catalogs only, so a
  file that does not parse cannot be expressed.
- Language names are taken to be plain names, so the directory and the cache
  are keyed by file name. An explicit language is an unchecked piece of the
  argument and may contain `/`: `./en` names the same file as `en`, which
  `require`, `existsSync` and `writeFile` resolve to one path, but which the
  model treats as a different file.
- JSON serialisation and the order of keys in the written files. Catalogs are
  maps, so insertion order is not modelled.
- JSON values other than strings and `{one, other}` records with string fields.
  Missing or non-string fields inside a record are not modelled either.
- Keys inherited from `Object.prototype`, such as `toString`, which a plain
  object lookup would find.
- Command-line plumbing: usage text, `-h`, `process.argv`, the default
  source directory, and the try/catch (extractor.js:3-16, 125-148). The catch is
  what turns an unreadable locales directory into the usage message; the model
  returns `Failure(LocalesDirUnreadable)` at that point.
- Project-root discovery by walking up to a `package.json` (extractor.js:129-134).
  It is driven by file-system checks. The locales directory is implicit in `Dir`.
- The `context` of a message is carried but, as in the script, never used as a key.
- Languages.LanguageCode: the contract describes names without line breaks only.
  For other names the result is `name[..i] + name[j..]`, with `i` the first dot
  and `j` the next line break. That case is shown by one example,
  `LanguageCodeStopsAtLineBreak`, not by a general contract.
- Locales.RepeatedLanguage: when the language had no catalog file before the
  run, the model's second call reads the catalog the first call wrote. The
  script cannot reach that state: the first call's data lands only after
  `makeLocales` returns, so its second call finds no catalog, or an empty file
  that makes `require` throw. In every case the model also takes the second
  call's writes as landing last, which the script leaves to the race between
  the two writes.
- Locales.RepeatedLanguageLosesTranslation: the `""` outcome assumes the second
  call's catalog write lands last; the script leaves it to the race between the
  two writes of the catalog.
- Locales.MakeLocalesKeepsCatalog: when `l` is listed again later, its catalog
  is written twice in one run; the model gives the in-order result, the script
  leaves it to the race.
- Locales.MakeLocalesCatalogs: proved only when no listed language's outdated
  file is another listed language's catalog file (`FileNamesCollide` shows such
  a pair exists, for example `en` and `en.outdated`), and for a language listed
  twice, whose catalog is written twice in one run, it takes the writes in call
  order where the script leaves the file to the race. `MakeLocalesIndependent`
  states the exact result for distinct languages without that assumption.

/** `parseLanguages`: the languages to update, taken from the command-line
    argument or, failing that, from the file names in the locales directory. */
module Languages {
  import opened Wrappers

  /** `s.split(sep)` with a one-character separator: the pieces between
      separators, empty pieces included, and at least one piece. */
  function Split(s: string, sep: char): (parts: seq<string>)
    ensures |parts| >= 1
    ensures forall i :: 0 <= i < |parts| ==> sep !in parts[i]
    decreases |s|
  {
    if |s| == 0 then [""]
    else
      var rest := Split(s[1..], sep);
      if s[0] == sep then [""] + rest
      else [[s[0]] + rest[0]] + rest[1..]
  }

  /** `parts.join(sep)`. */
  function Join(parts: seq<string>, sep: char): string
    requires |parts| >= 1
    decreases |parts|
  {
    if |parts| == 1 then parts[0]
    else parts[0] + [sep] + Join(parts[1..], sep)
  }

  /** Joining the pieces back gives the original string. */
  lemma {:induction false} JoinSplit(s: string, sep: char)
    ensures Join(Split(s, sep), sep) == s
    decreases |s|
  {
    if |s| > 0 {
      var rest := Split(s[1..], sep);
      JoinSplit(s[1..], sep);
      if s[0] != sep {
        var parts := Split(s, sep);
        assert parts[1..] == rest[1..];
        if |rest| > 1 {
          assert Join(rest, sep) == rest[0] + [sep] + Join(rest[1..], sep);
        }
      } else {
        assert Split(s, sep)[1..] == rest;
      }
      assert s == [s[0]] + s[1..];
    }
  }

  /** Splitting `a + b` where `a` holds no separator glues `a` to the first piece of `b`. */
  lemma {:induction false} SplitPrefix(a: string, b: string, sep: char)
    requires sep !in a
    ensures Split(a + b, sep) == [a + Split(b, sep)[0]] + Split(b, sep)[1..]
    decreases |a|
  {
    if |a| > 0 {
      SplitPrefix(a[1..], b, sep);
      assert (a + b)[1..] == a[1..] + b;
      assert [a[0]] + (a[1..] + Split(b, sep)[0]) == a + Split(b, sep)[0];
    } else {
      assert a + b == b;
      assert a + Split(b, sep)[0] == Split(b, sep)[0];
      assert Split(b, sep) == [Split(b, sep)[0]] + Split(b, sep)[1..];
    }
  }

  /** Splitting pieces that hold no separator, once joined, gives them back. */
  lemma {:induction false} SplitJoin(parts: seq<string>, sep: char)
    requires |parts| >= 1
    requires forall i :: 0 <= i < |parts| ==> sep !in parts[i]
    ensures Split(Join(parts, sep), sep) == parts
    decreases |parts|
  {
    if |parts| == 1 {
      SplitPrefix(parts[0], "", sep);
      assert parts[0] + "" == parts[0];
    } else {
      var tail := Join(parts[1..], sep);
      SplitJoin(parts[1..], sep);
      assert parts[0] + [sep] + tail == parts[0] + ([sep] + tail);
      SplitPrefix(parts[0], [sep] + tail, sep);
      assert ([sep] + tail)[1..] == tail;
      assert parts[0] + "" == parts[0];
      assert parts == [parts[0]] + parts[1..];
    }
  }

  /** The languages named on the command line: `languages ? languages.split(",") : []`,
      with a lone `all` meaning none. */
  function ExplicitLanguages(arg: Option<string>): (langs: seq<string>)
    ensures langs == [] <==> arg == None || arg == Some("") || arg == Some("all")
    ensures langs != [] ==> Join(langs, ',') == arg.value
    ensures forall i :: 0 <= i < |langs| ==> ',' !in langs[i]
  {
    match arg
    case None => []
    case Some(s) =>
      if s == "" then []
      else
        var parts := Split(s, ',');
        JoinSplit(s, ',');
        if |parts| == 1 && parts[0] == "all" then [] else parts
  }

  /** `filename.match(/.*\.json$/)`: the name ends in `.json`. */
  predicate IsCatalogFileName(name: string)
  {
    |name| >= 5 && name[|name| - 5..] == ".json"
  }

  /** The filter accepts exactly the names that are some stem followed by `.json`. */
  lemma CatalogFileNames(name: string)
    ensures IsCatalogFileName(name) <==> exists stem :: name == stem + ".json"
  {
    if IsCatalogFileName(name) {
      assert name == name[..|name| - 5] + ".json";
    }
    if stem :| name == stem + ".json" {
      assert name[|name| - 5..] == ".json";
    }
  }

  /** The characters a regular-expression `.` does not match. */
  predicate IsLineTerminator(c: char)
  {
    c == '\n' || c == '\r' || c == '\U{2028}' || c == '\U{2029}'
  }

  /** The position of the first `.` in `s`. */
  function FirstDot(s: string): (i: nat)
    requires '.' in s
    ensures i < |s| && s[i] == '.' && '.' !in s[..i]
  {
    if s[0] == '.' then 0
    else
      var i := 1 + FirstDot(s[1..]);
      assert s[..i] == [s[0]] + s[1..][..i - 1];
      i
  }

  /** The first line terminator at or after `from`, or the end of `s`. */
  function LineEnd(s: string, from: nat): (j: nat)
    requires from <= |s|
    ensures from <= j <= |s|
    ensures j < |s| ==> IsLineTerminator(s[j])
    ensures forall k :: from <= k < j ==> !IsLineTerminator(s[k])
    decreases |s| - from
  {
    if from == |s| || IsLineTerminator(s[from]) then from else LineEnd(s, from + 1)
  }

  /** `filename.replace` of the pattern `\..*` (no `g` flag) by "": removes the first `.` and everything after
      it up to the next line terminator. */
  function LanguageCode(name: string): (code: string)
    ensures '.' !in name ==> code == name
    ensures (forall k :: 0 <= k < |name| ==> !IsLineTerminator(name[k])) ==>
      code <= name && '.' !in code && (|code| < |name| ==> name[|code|] == '.')
  {
    if '.' !in name then name
    else
      var i := FirstDot(name);
      name[..i] + name[LineEnd(name, i + 1)..]
  }

  /** A dot-free language followed by a suffix that starts with `.` and has no
      line break yields that language. */
  lemma LanguageBeforeSuffix(language: string, suffix: string)
    requires '.' !in language && |suffix| > 0 && suffix[0] == '.'
    requires forall k :: 0 <= k < |suffix| ==> !IsLineTerminator(suffix[k])
    ensures LanguageCode(language + suffix) == language
  {
    var name := language + suffix;
    assert name[|language|] == '.';
    var i := FirstDot(name);
    assert i == |language|;
    var j := LineEnd(name, i + 1);
    assert j == |name|;
    assert name[..|language|] == language;
  }

  /** A catalog file and an outdated file of the same language both yield
      that language. */
  lemma LanguageOfLocaleFiles(language: string)
    requires '.' !in language
    ensures IsCatalogFileName(language + ".json") && LanguageCode(language + ".json") == language
    ensures IsCatalogFileName(language + ".outdated.json")
      && LanguageCode(language + ".outdated.json") == language
  {
    var a := language + ".json";
    var b := language + ".outdated.json";
    assert a[|a| - 5..] == ".json";
    assert b[|b| - 5..] == ".json";
    LanguageBeforeSuffix(language, ".json");
    LanguageBeforeSuffix(language, ".outdated.json");
  }

  /** The pattern's `.*` stops at a line break, so a name with one keeps what follows it. */
  lemma LanguageCodeStopsAtLineBreak()
    ensures LanguageCode("en.x\nfr.json") == "en\nfr.json"
  {
    var name := "en.x\nfr.json";
    assert '.' in name && name[2] == '.' && '.' !in name[..2];
    assert IsLineTerminator(name[4]) && !IsLineTerminator(name[3]);
  }

  /** The codes of the catalog-named files, in listing order, duplicates kept. */
  function Codes(files: seq<string>): (codes: seq<string>)
    ensures forall c :: c in codes <==>
      exists i :: 0 <= i < |files| && IsCatalogFileName(files[i]) && LanguageCode(files[i]) == c
    decreases |files|
  {
    if files == [] then []
    else
      var n := |files| - 1;
      var prefix := Codes(files[..n]);
      assert forall i :: 0 <= i < n ==> files[..n][i] == files[i];
      prefix + (if IsCatalogFileName(files[n]) then [LanguageCode(files[n])] else [])
  }

  /** The position of the first occurrence of `x` in `s`. */
  function FirstIndex(s: seq<string>, x: string): (i: nat)
    requires x in s
    ensures i < |s| && s[i] == x && x !in s[..i]
  {
    if s[0] == x then 0
    else
      var i := 1 + FirstIndex(s[1..], x);
      assert s[..i] == [s[0]] + s[1..][..i - 1];
      i
  }

  /** Appending to a sequence does not move the first occurrence of what it already holds. */
  lemma FirstIndexAppend(s: seq<string>, t: seq<string>, x: string)
    requires x in s
    ensures x in s + t && FirstIndex(s + t, x) == FirstIndex(s, x)
  {
    var i := FirstIndex(s, x);
    var j := FirstIndex(s + t, x);
    assert (s + t)[i] == x;
    assert (s + t)[..i + 1][i] == x;
    assert j <= i;
    assert (s + t)[..j] == s[..j];
  }

  /** `langs` holds the codes of `codes`, each once, in order of first appearance. */
  ghost predicate Scanned(langs: seq<string>, codes: seq<string>)
  {
    && (forall c :: c in langs <==> c in codes)
    && (forall i, j :: 0 <= i < j < |langs| ==> langs[i] != langs[j])
    && (forall i, j :: 0 <= i < j < |langs| ==> FirstIndex(codes, langs[i]) < FirstIndex(codes, langs[j]))
  }

  /** A code seen before changes nothing but the codes. */
  lemma ScanSeen(langs: seq<string>, codes: seq<string>, code: string)
    requires Scanned(langs, codes) && code in langs
    ensures Scanned(langs, codes + [code])
  {
    forall c | c in codes
      ensures FirstIndex(codes + [code], c) == FirstIndex(codes, c)
    {
      FirstIndexAppend(codes, [code], c);
    }
  }

  /** A new code is appended, after every code seen before. */
  lemma ScanNew(langs: seq<string>, codes: seq<string>, code: string)
    requires Scanned(langs, codes) && code !in langs
    ensures Scanned(langs + [code], codes + [code])
  {
    forall c | c in codes
      ensures FirstIndex(codes + [code], c) == FirstIndex(codes, c)
    {
      FirstIndexAppend(codes, [code], c);
    }
    assert (codes + [code])[..|codes|] == codes;
    assert FirstIndex(codes + [code], code) == |codes|;
  }

  /** The codes of one more file of the listing. */
  lemma CodesStep(files: seq<string>, k: nat)
    requires k < |files|
    ensures Codes(files[..k + 1]) ==
      Codes(files[..k]) + (if IsCatalogFileName(files[k]) then [LanguageCode(files[k])] else [])
  {
    assert files[..k + 1][..k] == files[..k];
  }

  /** The scan stays faithful to the codes over one more file. */
  lemma ScanFile(langs: seq<string>, files: seq<string>, k: nat)
    requires k < |files| && Scanned(langs, Codes(files[..k]))
    ensures var name := files[k];
      Scanned(if IsCatalogFileName(name) && LanguageCode(name) !in langs then langs + [LanguageCode(name)] else langs,
              Codes(files[..k + 1]))
  {
    CodesStep(files, k);
    var name := files[k];
    if IsCatalogFileName(name) {
      var language := LanguageCode(name);
      if language !in langs {
        ScanNew(langs, Codes(files[..k]), language);
      } else {
        ScanSeen(langs, Codes(files[..k]), language);
      }
    } else {
      assert Codes(files[..k + 1]) == Codes(files[..k]);
    }
  }

  /** The scan of the listing, as the script does it: each catalog-named
      file contributes its code unless `array.indexOf(code)` already finds it.
      The result holds each code once, in order of first appearance. */
  method LanguagesFromListing(files: seq<string>) returns (langs: seq<string>)
    ensures forall c :: c in langs <==> c in Codes(files)
    ensures forall i, j :: 0 <= i < j < |langs| ==> langs[i] != langs[j]
    ensures forall i, j :: 0 <= i < j < |langs| ==>
      FirstIndex(Codes(files), langs[i]) < FirstIndex(Codes(files), langs[j])
  {
    langs := [];
    var k := 0;
    while k < |files|
      invariant k <= |files|
      invariant Scanned(langs, Codes(files[..k]))
    {
      ScanFile(langs, files, k);
      var name := files[k];
      if IsCatalogFileName(name) {
        var language := LanguageCode(name);
        if language !in langs {
          langs := langs + [language];
        }
      }
      k := k + 1;
    }
    assert files[..k] == files;
  }

  /** Why the language set cannot be resolved. */
  datatype Error = LocalesDirUnreadable

  /** `parseLanguages(languages)`. The listing of the locales directory is
      `None` when `readdirSync` throws because the directory cannot be read. */
  method ParseLanguages(arg: Option<string>, listing: Option<seq<string>>)
    returns (r: Result<seq<string>, Error>)
    ensures ExplicitLanguages(arg) != [] ==> r == Success(ExplicitLanguages(arg))
    ensures ExplicitLanguages(arg) == [] && listing.None? ==> r == Failure(LocalesDirUnreadable)
    ensures ExplicitLanguages(arg) == [] && listing.Some? ==>
      r.Success?
      && (forall c :: c in r.value <==> c in Codes(listing.value))
      && (forall i, j :: 0 <= i < j < |r.value| ==> r.value[i] != r.value[j])
      && (forall i, j :: 0 <= i < j < |r.value| ==>
            FirstIndex(Codes(listing.value), r.value[i]) < FirstIndex(Codes(listing.value), r.value[j]))
  {
    var explicit := ExplicitLanguages(arg);
    if explicit != [] {
      return Success(explicit);
    }
    if listing.None? {
      return Failure(LocalesDirUnreadable);
    }
    var langs := LanguagesFromListing(listing.value);
    return Success(langs);
  }
}

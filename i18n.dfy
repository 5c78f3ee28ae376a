/**
 The locale updater `set_i18n` (scripts/auto-i18n.py, lines 60-111): one
 translated text per language is written under a dotted key into that
 language's locale file.

 The locale directory is a map from language code to what `json.load` makes
 of the file `<lang>.json`: a parsed document, text that is not JSON (read
 as `{}`), or a file that cannot be read at all.  The result of each language
 is an `Updated` or `Failed` tag in place of the message text.
 */
module I18n {
  import opened JsonTree
  import opened KeyPath
  import opened JsonHeap

  /** The languages that have a locale file. */
  const Languages: seq<string> := ["en-us", "zh-cn", "ja-jp", "ru-ru", "zh-tw"]

  /** A locale file as `json.load` sees it. */
  datatype LocaleFile =
    | Parsed(tree: Json)   // well-formed JSON
    | Malformed            // JSON that does not parse
    | Unreadable           // opening or decoding the file fails

  /** The entry one language gets in the results. */
  datatype Outcome = Updated | Failed

  /** The outcome for one file and the file afterwards. */
  datatype FileUpdate = FileUpdate(outcome: Outcome, file: LocaleFile)

  /** The results of a whole update and the directory afterwards. */
  datatype Run = Run(results: map<string, Outcome>, files: map<string, LocaleFile>)

  /** The value the write starts from: unparsable content counts as `{}`, and
      an unreadable file gives nothing to write into. */
  function Loaded(file: LocaleFile): Option<Json>
  {
    match file
    case Parsed(t) => Some(t)
    case Malformed => Some(Obj(map[]))
    case Unreadable => None
  }

  /** Updating one locale file: load it, write `text` at `keys`, and save the
      result; any failure leaves the file as it was. */
  function UpdateLocale(file: LocaleFile, keys: seq<string>, text: string): (u: FileUpdate)
    ensures u.outcome == Failed ==> u.file == file
    ensures u.outcome == Updated ==> u.file.Parsed? && Get(u.file.tree, keys) == Some(Str(text))
  {
    match Loaded(file)
    case None => FileUpdate(Failed, file)
    case Some(data) =>
      match SetPath(data, keys, Str(text))
      case None => FileUpdate(Failed, file)
      case Some(d) =>
        SetThenGet(data, keys, Str(text));
        FileUpdate(Updated, Parsed(d))
  }

  /** Every language has a file. */
  predicate Complete(d: map<string, LocaleFile>)
  {
    forall l | l in Languages :: l in d
  }

  /** The directory after `ensure_json_files_exist`: every missing locale file
      is created holding `{}`, and every other file is left as it is. */
  function WithDefaults(files: map<string, LocaleFile>): (d: map<string, LocaleFile>)
    ensures Complete(d)
    ensures forall f | f in files :: f in d && d[f] == files[f]
    ensures forall f | f in d && f !in files :: f in Languages && d[f] == Parsed(Obj(map[]))
  {
    map f | f in files.Keys + (set l | l in Languages) ::
      if f in files then files[f] else Parsed(Obj(map[]))
  }

  /** The loop of `set_i18n` after it has handled the requested languages in
      `done`: each supported one has its result and its updated file, and the
      rest of the directory is as it was. */
  function RunOver(d: map<string, LocaleFile>, keys: seq<string>, tr: map<string, string>, done: set<string>): (r: Run)
    requires Complete(d)
    ensures r.files.Keys == d.Keys
    ensures forall l :: l in r.results <==> l in done && l in tr && l in Languages
  {
    Run(map l | l in done && l in tr && l in Languages :: UpdateLocale(d[l], keys, tr[l]).outcome,
        map f | f in d :: if f in done && f in tr && f in Languages then UpdateLocale(d[f], keys, tr[f]).file else d[f])
  }

  /** `set_i18n(key, translations)` on the directory `files`. */
  function SetI18nSpec(files: map<string, LocaleFile>, key: string, tr: map<string, string>): (r: Run)
    ensures r.results.Keys == tr.Keys * (set l | l in Languages)
    ensures r.files.Keys == files.Keys + (set l | l in Languages)
  {
    RunOver(WithDefaults(files), NormalizeKey(key), tr, tr.Keys)
  }

  /** Handling one more language extends the results and the directory by that
      language's update, or changes nothing for an unsupported one. */
  lemma RunOverStep(d: map<string, LocaleFile>, keys: seq<string>, tr: map<string, string>, done: set<string>, lang: string)
    requires Complete(d) && lang !in done && lang in tr
    ensures lang in Languages ==> lang in d && RunOver(d, keys, tr, done).files[lang] == d[lang]
    ensures RunOver(d, keys, tr, done + {lang}) ==
              if lang in Languages then
                var r := RunOver(d, keys, tr, done);
                var u := UpdateLocale(d[lang], keys, tr[lang]);
                Run(r.results[lang := u.outcome], r.files[lang := u.file])
              else RunOver(d, keys, tr, done)
  {
  }

  /** Running the update a second time on its own output changes nothing in
      a file. */
  lemma UpdateLocaleIdempotent(file: LocaleFile, keys: seq<string>, text: string)
    ensures UpdateLocale(UpdateLocale(file, keys, text).file, keys, text) == UpdateLocale(file, keys, text)
  {
    var data := Loaded(file);
    if data.Some? && SetPath(data.value, keys, Str(text)).Some? {
      SetIdempotent(data.value, keys, Str(text));
    }
  }

  /** An update fails exactly when the file cannot be read or a value that is
      not an object lies on the key path of the parsed document. */
  lemma UpdateLocaleFailsIff(file: LocaleFile, keys: seq<string>, text: string)
    requires keys != []
    ensures UpdateLocale(file, keys, text).outcome == Failed <==>
              file.Unreadable? || (file.Parsed? && Blocked(file.tree, keys))
  {
    if file.Parsed? {
      SetFailsIffBlocked(file.tree, keys, Str(text));
    } else if file.Malformed? {
      SetFailsIffBlocked(Obj(map[]), keys, Str(text));
      EmptyNeverBlocked(keys);
    }
  }

  /** Content that does not parse is replaced by a document holding nothing
      but the written path. */
  lemma MalformedStartsOver(keys: seq<string>, text: string)
    requires keys != []
    ensures UpdateLocale(Malformed, keys, text) == FileUpdate(Updated, Parsed(Nest(keys, Str(text))))
  {
  }

  /** The key "translation" on its own replaces the whole "translation" member
      of a document with the text. */
  lemma BarePrefixReplacesAll(fields: map<string, Json>, text: string)
    ensures NormalizeKey(Prefix) == [Prefix]
    ensures UpdateLocale(Parsed(Obj(fields)), NormalizeKey(Prefix), text) ==
              FileUpdate(Updated, Parsed(Obj(fields[Prefix := Str(text)])))
  {
  }

  /** A language that is not supported, or not asked for, gets no result and
      its file is left alone; only locale files that were missing appear, as
      `{}`. */
  lemma OthersUntouched(files: map<string, LocaleFile>, key: string, tr: map<string, string>, f: string)
    requires f !in tr || f !in Languages
    ensures f !in SetI18nSpec(files, key, tr).results
    ensures f in SetI18nSpec(files, key, tr).files <==> f in files || f in Languages
    ensures f in files ==> SetI18nSpec(files, key, tr).files[f] == files[f]
    ensures f !in files && f in Languages ==> SetI18nSpec(files, key, tr).files[f] == Parsed(Obj(map[]))
  {
  }

  /** An updated language's file holds the text at the normalised key. */
  lemma UpdatedHoldsText(files: map<string, LocaleFile>, key: string, tr: map<string, string>, lang: string)
    requires lang in SetI18nSpec(files, key, tr).results
    requires SetI18nSpec(files, key, tr).results[lang] == Updated
    ensures lang in tr && lang in SetI18nSpec(files, key, tr).files
    ensures SetI18nSpec(files, key, tr).files[lang].Parsed?
    ensures Get(SetI18nSpec(files, key, tr).files[lang].tree, NormalizeKey(key)) == Some(Str(tr[lang]))
  {
  }

  /** In an updated file every path that parts ways with the normalised key
      reads as it did in the document the update started from. */
  lemma UpdatedKeepsOtherPaths(files: map<string, LocaleFile>, key: string, tr: map<string, string>, lang: string, p: seq<string>)
    requires lang in SetI18nSpec(files, key, tr).results
    requires SetI18nSpec(files, key, tr).results[lang] == Updated
    requires Diverge(p, NormalizeKey(key))
    ensures lang in WithDefaults(files) && Loaded(WithDefaults(files)[lang]).Some?
    ensures Get(SetI18nSpec(files, key, tr).files[lang].tree, p) == Get(Loaded(WithDefaults(files)[lang]).value, p)
  {
    var d := WithDefaults(files);
    var keys := NormalizeKey(key);
    var data := Loaded(d[lang]).value;
    SetLeavesOtherPaths(data, keys, Str(tr[lang]), p);
  }

  /** A failed language's file is left as it was (after a missing file was
      created as `{}`), and failure means the file could not be read or its
      document blocks the key path. */
  lemma FailedKeepsFile(files: map<string, LocaleFile>, key: string, tr: map<string, string>, lang: string)
    requires lang in SetI18nSpec(files, key, tr).results
    ensures lang in WithDefaults(files) && lang in SetI18nSpec(files, key, tr).files
    ensures SetI18nSpec(files, key, tr).results[lang] == Failed ==>
              SetI18nSpec(files, key, tr).files[lang] == WithDefaults(files)[lang]
    ensures var f := WithDefaults(files)[lang];
            SetI18nSpec(files, key, tr).results[lang] == Failed <==>
              f.Unreadable? || (f.Parsed? && Blocked(f.tree, NormalizeKey(key)))
  {
    UpdateLocaleFailsIff(WithDefaults(files)[lang], NormalizeKey(key), tr[lang]);
  }

  /** A supported language whose file was missing or did not parse ends up
      with a file holding nothing but the written path. */
  lemma FreshFileForMissingOrMalformed(files: map<string, LocaleFile>, key: string, tr: map<string, string>, lang: string)
    requires lang in tr && lang in Languages
    requires lang !in files || files[lang] == Malformed
    ensures lang in SetI18nSpec(files, key, tr).results && lang in SetI18nSpec(files, key, tr).files
    ensures SetI18nSpec(files, key, tr).results[lang] == Updated
    ensures SetI18nSpec(files, key, tr).files[lang] == Parsed(Nest(NormalizeKey(key), Str(tr[lang])))
  {
    var keys := NormalizeKey(key);
    SetCreatesMissing(Obj(map[]), keys, Str(tr[lang]));
    MalformedStartsOver(keys, tr[lang]);
  }

  /** Repeating the same update on its own output gives the same results and
      the same directory. */
  lemma SetI18nIdempotent(files: map<string, LocaleFile>, key: string, tr: map<string, string>)
    ensures SetI18nSpec(SetI18nSpec(files, key, tr).files, key, tr) == SetI18nSpec(files, key, tr)
  {
    var keys := NormalizeKey(key);
    var d := WithDefaults(files);
    var r := SetI18nSpec(files, key, tr);
    var d2 := WithDefaults(r.files);
    assert d2 == r.files;
    forall l | l in tr && l in Languages
      ensures UpdateLocale(d2[l], keys, tr[l]) == UpdateLocale(d[l], keys, tr[l])
    {
      UpdateLocaleIdempotent(d[l], keys, tr[l]);
    }
    var r2 := SetI18nSpec(r.files, key, tr);
    assert r2.results == r.results;
    assert r2.files == r.files;
  }

  /** One locale file updated through the in-memory tree: the parsed document
      is copied into dictionaries, `set_nested_value` writes into them, and the
      tree is saved back. */
  method ApplyToFile(file: LocaleFile, keys: seq<string>, text: string) returns (u: FileUpdate)
    ensures u == UpdateLocale(file, keys, text)
  {
    if file.Unreadable? {
      return FileUpdate(Failed, file);
    }
    if file.Parsed? && !file.tree.Obj? {
      // Indexing into a value that is not a dictionary raises.
      return FileUpdate(Failed, file);
    }
    var data: JsonObject;
    if file.Malformed? {
      data := new JsonObject.Empty();
    } else {
      data := JsonObject.Load(file.tree);
    }
    var ok := data.SetNestedValue(keys, text);
    if !ok {
      return FileUpdate(Failed, file);
    }
    u := FileUpdate(Updated, Parsed(data.ToJson()));
  }

  /** The locale directory, changed in place by the updater. */
  class LocaleDir {
    var files: map<string, LocaleFile>

    /** `ensure_json_files_exist`: writes `{}` into every locale file that is
        missing. */
    method EnsureFilesExist()
      modifies this
      ensures files == WithDefaults(old(files))
    {
      for i := 0 to |Languages|
        invariant files.Keys == old(files).Keys + (set l | l in Languages[..i])
        invariant forall f | f in files :: files[f] == if f in old(files) then old(files)[f] else Parsed(Obj(map[]))
      {
        if Languages[i] !in files {
          files := files[Languages[i] := Parsed(Obj(map[]))];
        }
      }
      assert Languages[..|Languages|] == Languages;
    }

    /** `set_i18n(key, translations)`: writes each supported language's text
        under the normalised key and reports how each one went. */
    method SetI18n(key: string, translations: map<string, string>) returns (results: map<string, Outcome>)
      modifies this
      ensures Run(results, files) == SetI18nSpec(old(files), key, translations)
    {
      EnsureFilesExist();
      ghost var d := files;
      var keys := NormalizeKey(key);
      results := map[];
      var todo := translations.Keys;
      while todo != {}
        invariant todo <= translations.Keys
        invariant Run(results, files) == RunOver(d, keys, translations, translations.Keys - todo)
        decreases todo
      {
        var lang :| lang in todo;
        RunOverStep(d, keys, translations, translations.Keys - todo, lang);
        if lang in Languages {
          var u := ApplyToFile(files[lang], keys, translations[lang]);
          results := results[lang := u.outcome];
          files := files[lang := u.file];
        }
        assert translations.Keys - (todo - {lang}) == (translations.Keys - todo) + {lang};
        todo := todo - {lang};
      }
      assert translations.Keys - {} == translations.Keys;
    }
  }
}

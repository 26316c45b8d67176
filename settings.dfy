/**
 * The configuration of settings.ts: the default language, the registered
 * adapters, and the language registry filled from the language files, each
 * registered under the code derived from its file name.
 */
module Settings {
  import opened Wrappers
  import opened Text
  import opened Paths
  import opened Adapters
  import opened Plurals
  import opened Proxy

  /** The language used when nothing else is chosen (`defaultLang`). */
  const DefaultLang: string := "en-US"

  /** The registered adapters (`proxyAdapters`): the plural adapter for function results, none for values. */
  const Configured: ProxyAdapters := ProxyAdapters([PluralsAdapter], [])

  /** A call of a function leaf that returns `v` yields the plural adapter's rewriting of `v`, and logs nothing. */
  lemma ConfiguredCall(f: seq<Arg> -> Outcome, args: seq<Arg>, path: Path, inspect: Inspector)
    requires f(args).Returned?
    ensures Invoke(f, args, path, Config(inspect, Configured)) == Folded(PluralsOf(args, f(args).value), [])
  {
    FoldOne(PluralsAdapter, CallContext(f, args, path), f(args).value);
  }

  /** An object's own `toString`/`valueOf` text passes through the (empty) value pipeline unchanged, with one warning. */
  lemma ConfiguredCustom(children: map<string, Node>, custom: map<Conversion, string>, path: Path, inspect: Inspector, conv: Conversion)
    requires conv in custom
    ensures Convert(Branch(children, custom), path, Config(inspect, Configured), conv)
      == Shown(AsText(custom[conv]), [CustomWarning(Render(path, inspect))])
  {
    CustomConversion(custom, children, path, Config(inspect, Configured), conv);
  }

  /** Where the last `.` among the first `n` characters of `s` is. */
  function LastDotBelow(s: string, n: nat): (r: Option<nat>)
    requires n <= |s|
    ensures r.Some? ==> r.value < n && s[r.value] == '.' && forall i :: r.value < i < n ==> s[i] != '.'
    ensures r.None? ==> forall i :: 0 <= i < n ==> s[i] != '.'
  {
    if n == 0 then None
    else if s[n - 1] == '.' then Some(n - 1)
    else LastDotBelow(s, n - 1)
  }

  /**
   * `s.replace(/\.[^.]+$/, "")`: drops the last `.` and what follows it, unless
   * nothing follows it. The result is a prefix of `s`; what is dropped is a `.`
   * followed by a non-empty text without `.`; and nothing is dropped exactly
   * when `s` has no `.` or ends with one.
   */
  function StripExtension(s: string): (r: string)
    ensures r <= s
    ensures r != s ==> |r| + 1 < |s| && s[|r|] == '.' && NoChar(s[|r| + 1..], '.')
    ensures r == s <==> NoChar(s, '.') || s[|s| - 1] == '.'
  {
    match LastDotBelow(s, |s|)
    case None => s
    case Some(d) =>
      if d < |s| - 1 then
        var ext := s[d + 1..];
        assert NoChar(ext, '.') by {
          forall i | 0 <= i < |ext| ensures ext[i] != '.' {
            assert ext[i] == s[d + 1 + i];
          }
        }
        s[..d]
      else s
  }

  /** The language code of a language file: its name without the `./lang/` prefix and without its extension. */
  function LanguageCode(file: string): (code: string)
    ensures code <= ReplaceFirst(file, "./lang/", "")
  {
    StripExtension(ReplaceFirst(file, "./lang/", ""))
  }

  /** The last `.` of `base.ext`, when `ext` has none, is the one before `ext`. */
  lemma {:induction false} LastDotBefore(s: string, base: nat, n: nat)
    requires base < n <= |s| && s[base] == '.' && forall i :: base < i < |s| ==> s[i] != '.'
    ensures LastDotBelow(s, n) == Some(base)
    decreases n
  {
    if n - 1 > base {
      LastDotBefore(s, base, n - 1);
    }
  }

  /** Removing the extension of `base.ext`, where `ext` is non-empty and has no dot, gives `base`. */
  lemma StripOneExtension(base: string, ext: string)
    requires ext != [] && NoChar(ext, '.')
    ensures StripExtension(base + "." + ext) == base
  {
    var s := base + "." + ext;
    forall i | |base| < i < |s| ensures s[i] != '.' {
      assert s[i] == ext[i - |base| - 1];
    }
    LastDotBefore(s, |base|, |s|);
    assert s[..|base|] == base;
  }

  /** `./lang/<code>.<ext>` is registered as `<code>`, for a non-empty extension without dots. */
  lemma CodeOfLanguageFile(code: string, ext: string)
    requires ext != [] && NoChar(ext, '.')
    ensures LanguageCode("./lang/" + code + "." + ext) == code
  {
    assert "./lang/" + code + "." + ext == "./lang/" + (code + "." + ext);
    ReplacePrefix("./lang/", code + "." + ext, "");
    assert "" + (code + "." + ext) == code + "." + ext;
    StripOneExtension(code, ext);
  }

  /** "./lang/en-US.ts" is registered as "en-US". */
  lemma EnglishFile(file: string)
    requires file == "./lang/en-US.ts"
    ensures LanguageCode(file) == "en-US"
  {
    assert file == "./lang/" + "en-US" + "." + "ts";
    CodeOfLanguageFile("en-US", "ts");
  }

  /** How a language loads: the import rejects, or resolves to a module whose default export is the tree (possibly `undefined`). */
  datatype Loader = Rejecting(reason: string) | Resolving(defaultExport: Node)

  /** Each language file paired with the code it is registered under. */
  function Named(files: seq<(string, Loader)>): (entries: seq<(string, Loader)>)
    ensures |entries| == |files|
    ensures forall i :: 0 <= i < |files| ==> entries[i] == (LanguageCode(files[i].0), files[i].1)
  {
    seq(|files|, i requires 0 <= i < |files| => (LanguageCode(files[i].0), files[i].1))
  }

  /** The registry after assigning each code its loader, in order; a later entry wins. */
  function Imported(languages: map<string, Option<Loader>>, entries: seq<(string, Loader)>): map<string, Option<Loader>>
    decreases |entries|
  {
    if entries == [] then languages
    else Imported(languages, entries[..|entries| - 1])[entries[|entries| - 1].0 := Some(entries[|entries| - 1].1)]
  }

  /** Registering adds exactly the codes of the entries. */
  lemma {:induction false} ImportedKeys(languages: map<string, Option<Loader>>, entries: seq<(string, Loader)>)
    ensures Imported(languages, entries).Keys == languages.Keys + set i | 0 <= i < |entries| :: entries[i].0
    decreases |entries|
  {
    if entries != [] {
      var init := entries[..|entries| - 1];
      ImportedKeys(languages, init);
      assert (set i | 0 <= i < |entries| :: entries[i].0)
        == (set i | 0 <= i < |init| :: init[i].0) + {entries[|entries| - 1].0};
    }
  }

  /** A code with no entry keeps what it had. */
  lemma {:induction false} ImportedKeeps(languages: map<string, Option<Loader>>, entries: seq<(string, Loader)>, code: string)
    requires code in languages && forall i :: 0 <= i < |entries| ==> entries[i].0 != code
    ensures code in Imported(languages, entries) && Imported(languages, entries)[code] == languages[code]
    decreases |entries|
  {
    if entries != [] {
      ImportedKeeps(languages, entries[..|entries| - 1], code);
    }
  }

  /** A code gets the loader of its last entry. */
  lemma {:induction false} ImportedLast(languages: map<string, Option<Loader>>, entries: seq<(string, Loader)>, i: nat)
    requires i < |entries| && forall j :: i < j < |entries| ==> entries[j].0 != entries[i].0
    ensures entries[i].0 in Imported(languages, entries) && Imported(languages, entries)[entries[i].0] == Some(entries[i].1)
    decreases |entries|
  {
    var last := |entries| - 1;
    if i < last {
      var init := entries[..last];
      assert init[i] == entries[i];
      ImportedLast(languages, init, i);
      assert entries[last].0 != entries[i].0;
    }
  }

  /** Registering language files adds exactly the codes derived from their names to the registry's keys. */
  lemma RegisteredCodes(languages: map<string, Option<Loader>>, files: seq<(string, Loader)>)
    ensures Imported(languages, Named(files)).Keys == languages.Keys + set i | 0 <= i < |files| :: LanguageCode(files[i].0)
  {
    var entries := Named(files);
    ImportedKeys(languages, entries);
    assert (set i | 0 <= i < |entries| :: entries[i].0) == set i | 0 <= i < |files| :: LanguageCode(files[i].0);
  }

  /** A file's code is registered with the loader of the last file that has that code. */
  lemma RegisteredLast(languages: map<string, Option<Loader>>, files: seq<(string, Loader)>, i: nat)
    requires i < |files| && forall j :: i < j < |files| ==> LanguageCode(files[j].0) != LanguageCode(files[i].0)
    ensures LanguageCode(files[i].0) in Imported(languages, Named(files))
    ensures Imported(languages, Named(files))[LanguageCode(files[i].0)] == Some(files[i].1)
  {
    ImportedLast(languages, Named(files), i);
  }

  /** A registered code that no file has keeps its loader. */
  lemma RegisteredKeeps(languages: map<string, Option<Loader>>, files: seq<(string, Loader)>, code: string)
    requires code in languages && forall i :: 0 <= i < |files| ==> LanguageCode(files[i].0) != code
    ensures code in Imported(languages, Named(files)) && Imported(languages, Named(files))[code] == languages[code]
  {
    ImportedKeeps(languages, Named(files), code);
  }

  /** `languages`, the registry of loaders by language code (a code may be present with no loader). */
  class Registry {
    var languages: map<string, Option<Loader>>

    constructor ()
      ensures languages == map[]
    {
      languages := map[];
    }

    /** `languageImporter`: registers every language file under its code. */
    method ImportLanguages(files: seq<(string, Loader)>)
      modifies this
      ensures languages == Imported(old(languages), Named(files))
    {
      ghost var entries := Named(files);
      for i := 0 to |files|
        invariant languages == Imported(old(languages), entries[..i])
      {
        assert entries[..i + 1][..i] == entries[..i];
        var (name, lang) := files[i];
        languages := languages[LanguageCode(name) := Some(lang)];
      }
      assert entries[..|files|] == entries;
    }
  }
}

# i8 translation engine, modelled in Dafny

i8 is a small translation library. A language file exports a tree of texts and text-producing functions. The library wraps that tree in a proxy "handle". A handle can be indexed, called and converted to a string. None of these operations fails: where the tree has nothing, the handle converts to the path it was reached by, for example `i8.en_only`.

The project models four parts of the library:

- **The proxy engine** (`internal/proxy.ts`). This covers `stringify` and `proxify`:
  - the `get` trap, including its `toString`/`valueOf` branch;
  - the call behaviour of `target`;
  - the function and value adapter pipelines, which contain every error.
- **The configuration** (`settings.ts`). This covers the default language, the registered adapters, the plural adapter and the derivation of a language code from a file name in `languageImporter`.
- **The language store** (`internal/i8.ts`). This covers the uninitialised placeholder, the initial `i8` store, `getAvailableLanguages`, `getLang` and `setLang`. A switch of language either updates every field together or changes nothing.
- **Language detection** (`internal/detection.ts`). This covers `resolveLangCode` and `getCookie`.

Modules:

- **`Text`**: the JavaScript string operations the code relies on (`indexOf`, `replace` with a string pattern, `split`, `join`, `substring`), stated over `seq<char>`.
- **`Paths`**: paths and `stringify`.
- **`Log`**: the log sink.
- **`Adapters`**: the adapter pipeline.
- **`Plurals`**: the plural adapter.
- **`Proxy`**: handles.
- **`Settings`**: the configuration and the language registry.
- **`LanguageStore`**: the `i8` store.
- **`Detection`**: language detection.
- **`Fixtures`**: the two language files that ship with the library, `lang/en-US.ts` and `lang/de-DE.ts`.

Some parts of the program are opaque. The following become parameters of the model:

- the pretty-printer `inspect`;
- the bodies of translation functions and adapters (each returns a text or throws a message);
- the Accept-Language matcher (section 12.5.4 of RFC 9110);
- the cookie string.

The log sink becomes a `Logger` object that records every message in order. A language loader is modelled as an already settled outcome: it rejects with a reason, or it resolves to the module's default export, which may be `undefined`.

**Stringify follows the code, not its doc comments.** The loop at `internal/proxy.ts:28-36` appends a `.` after every segment except the last, and that includes call segments. So the path `[a, b, [], c, [d, e]]` renders as `a.b.().c.(d, e)`. The doc comments at `internal/proxy.ts:15`, `:22` and `:81-82` give `a.b().c(d, e)` and `this('really').does.not.exist()`. The model renders what the code produces, and `Paths.RenderCallSegments` states that result.

## Model

| member | source | states |
|---|---|---|
| Paths.Stringify | internal/proxy.ts:25-37 | The loop returns the segment texts joined by ".": a field is written verbatim and a call as "(" + its inspected arguments joined by ", " + ")". Every segment except the last is followed by ".". |
| Paths.RenderEmpty | internal/proxy.ts:25-37 | The empty path renders as the empty string. |
| Paths.RenderSnoc | internal/proxy.ts:28-36 | One more segment adds "." and that segment's text at the end. A single segment renders as its text alone. |
| Paths.RenderAppend | internal/proxy.ts:28-36 | Two non-empty paths render as their renderings joined by one ".", whatever kind of segment meets at the junction. |
| Paths.ArgListPair | internal/proxy.ts:33 | The arguments `(d, e)` are written as inspect(d) + ", " + inspect(e). |
| Paths.RenderCallSegments | internal/proxy.ts:28-36 | `[a, b, [], c, [d, e]]` renders as `a.b.().c.(d, e)`, with call segments separated by "." like fields. |
| Adapters.Fold | internal/proxy.ts:100-109 | The fold of the adapters logs at most one line per adapter. |
| Adapters.RunAdapters | internal/proxy.ts:100-109 | The `forEach` loop leaves the folded result in `res`. The log receives exactly the fold's error lines, in order. |
| Adapters.SnippetShape | internal/proxy.ts:106 | The excerpt of an adapter's source in its error message has at most 30 characters. It is a prefix of the source and contains no line break. |
| Adapters.FoldNone | internal/proxy.ts:128-137 | With no adapters, the result passes through unchanged and nothing is logged. |
| Adapters.FoldAppend | internal/proxy.ts:100-109 | Running adapters `a ++ b` runs `b` on what `a` produced, and the logs of the two runs follow each other. |
| Adapters.FoldOne | internal/proxy.ts:101-108 | One adapter that returns: its value is the result, with no log. One that throws: "Adapter <snippet>... threw an error: <msg>" is both the result and the single log line. |
| Adapters.ErrorContinues | internal/proxy.ts:102-108 | A throwing adapter does not stop the pipeline. The next adapters receive its error message as `before`, and the message is logged first. |
| Adapters.QuietFold | internal/proxy.ts:100-109 | When no adapter throws, nothing is logged. |
| Proxy.ConversionKey | internal/proxy.ts:121 | The two intercepted conversions are exactly the keys "toString" and "valueOf", one key each. |
| Proxy.ChildOf | internal/proxy.ts:147 | A handle's child node is the tree's child for a key the branch has, and `undefined` (Absent) in every other case. |
| Proxy.WalkAbsent | internal/proxy.ts:147 | Once a path leaves the tree, every extension of it stays outside the tree. |
| Proxy.WalkAppend | internal/proxy.ts:147 | Walking `p ++ q` from the root equals walking `q` from where `p` ends. |
| Proxy.MissingShowsPath | internal/proxy.ts:140-147 | Any path that extends a missing path converts to its own rendering, and nothing is logged. |
| Proxy.LeafShowsItself | internal/proxy.ts:142-145 | A string or function leaf converts to itself. No adapter runs and nothing is logged. |
| Proxy.CustomConversion | internal/proxy.ts:123-139 | An object with its own `toString`/`valueOf` logs exactly the one "Custom toString or valueOf detected at <path>" warning when no value adapter throws. With no value adapters, its own text comes back unchanged. |
| Proxy.InvokePlain | internal/proxy.ts:91-113 | With no function adapters, calling a leaf that returns gives exactly its return value and logs nothing. |
| Proxy.InvokeThrows | internal/proxy.ts:95-109 | A leaf that throws yields "Function <path> threw an error: <msg>". That message is logged first, and the function adapters still run on it. |
| Proxy.InvokeLogBound | internal/proxy.ts:92-108 | A call logs at most one line for the leaf plus one per adapter. It logs at most one per adapter when the leaf returns. |
| Proxy.Handle.constructor | internal/proxy.ts:86 | `proxify(tree)` is a handle over the whole tree with the empty path. |
| Proxy.Handle.Below | internal/proxy.ts:147 | `proxify(tree[p], [...path, p])`: a handle over the child (Absent if missing) whose path is the parent's plus the key. It keeps the invariant that the node is what the path reaches. |
| Proxy.Handle.Get | internal/proxy.ts:117-148 | "toString"/"valueOf" give the conversion and its logs. Every other key gives a fresh handle one level deeper, never fails and logs nothing. |
| Proxy.Handle.ToStr | internal/proxy.ts:121-145 | The conversion returns the rendered path for Absent or a plain object, the leaf itself for a leaf, and an override's text folded through the value adapters after one warning. The log gets exactly the conversion's lines. |
| Proxy.Handle.ToStrCustom | internal/proxy.ts:123-139 | An object with its own `toString`/`valueOf`: the result is its text folded through the value adapters, and the log gets the warning followed by the adapters' error lines. |
| Proxy.Handle.Call | internal/proxy.ts:89-114 | A function leaf returns its result folded through the function adapters, a terminal text, with the path unchanged. Any other handle appends the call segment to its own path, returns itself and logs nothing. The handle invariant is kept. |
| Plurals.Nums | settings.ts:69 | There are no more numbers than arguments, and a number is among them exactly when it is a numeric argument. |
| Plurals.NumsAppend | settings.ts:69 | Filtering numbers distributes over concatenation, which keeps call order. |
| Plurals.NumsOfNonNumbers | settings.ts:69 | Arguments that are not numbers are not counted. |
| Plurals.CloseFrom | settings.ts:70 | The scan of `[^)]+` stops at a ")" at or after where it starts. |
| Plurals.CloseFromLeftmost | settings.ts:70 | That ")" is the first one, and the scan finds none only when there is none. |
| Plurals.SpansFrom | settings.ts:70 | Every match found from an index starts at or after it and ends inside the text, with at least one character between its parentheses. |
| Plurals.GroupAt | settings.ts:74 | The matched text of a match is two characters longer than its captured text. |
| Plurals.SpansMatched | settings.ts:70 | Every match is a "(", a non-empty run of characters other than ")", and a ")". |
| Plurals.GroupsWellFormed | settings.ts:70-74 | Every match has the form "(" + inner + ")", with a non-empty inner text that contains no ")". |
| Plurals.SpansSkip | settings.ts:70 | The match search passes over characters other than "(". |
| Plurals.SpansAt | settings.ts:70 | A "(" whose first following ")" is not directly after it starts a match, and the search resumes after that ")". |
| Plurals.NextClose | settings.ts:70 | The scan for ")" stops at the first ")". |
| Plurals.SpansNone | settings.ts:70 | With no "(" left, there are no more matches. |
| Plurals.SpanAfter | settings.ts:70 | The next match is at the first "(" from where the search is, and it ends at the first ")" after that "(". |
| Plurals.OneGroupAt | settings.ts:70 | A text with a single "(" whose closing ")" follows has exactly one match. |
| Plurals.GroupsSingle | settings.ts:70 | `pre(inner)post` without another "(" has exactly the one match `(inner)` capturing `inner`. |
| Plurals.TwoMatchesAt | settings.ts:70 | A text with exactly two "(", each followed by its own ")", has exactly these two matches, in order. |
| Plurals.GroupsTwo | settings.ts:70 | `pre(x)mid(y)post` without another "(" has exactly the matches `(x)` and `(y)`, in this order. |
| Plurals.ChooseTwoForms | settings.ts:75-82 | A group `(a\|b)` gives `a` for the count 1 and `b` for any other count. |
| Plurals.ChooseOneForm | settings.ts:75-82 | A group `(w)` without "\|" gives "" for the count 1 and `w` for any other count. |
| Plurals.ChooseManyForms | settings.ts:75-77 | A group with three or more forms `(a\|b\|...)` gives "" for the count 1 and `a` for any other count. |
| Plurals.ChooseNoChar | settings.ts:75-77 | The replacement has no character that the group's inner text lacks. |
| Plurals.ChooseIsForm | settings.ts:75-82 | The replacement is "" or one of the group's "\|"-separated forms, and never contains "\|". |
| Plurals.Plurals | settings.ts:67-86 | The substitution loop returns what the plural rule prescribes for the arguments and `before`. |
| Plurals.CountMismatch | settings.ts:71 | When the count of numeric arguments differs from the count of matches, `before` is returned unchanged. |
| Plurals.OnlyNumbersCount | settings.ts:69 | Adding non-numeric arguments before or after the others does not change the result. |
| Plurals.ReplaceGroup | settings.ts:79-81 | Replacing a group's matched text replaces its first occurrence. When no "(" comes before the group, that occurrence is the group itself. |
| Plurals.PluralsOfTwo | settings.ts:72-83 | Two counts and two matches: the first match's text is replaced by the form of the first count, then the second match's text by the form of the second count. |
| Plurals.PluralsTwoGroups | settings.ts:67-86 | Two counts and `pre(x)mid(y)post` without another "(": each group is replaced by the form its own count selects, in order. |
| Plurals.ReplaceTwo | settings.ts:79-81 | Replacing `(x)` by `cx` and then `(y)` by `cy` in `pre(x)mid(y)post` gives `pre cx mid cy post` when none of `pre`, `cx` and `mid` contains "(". |
| Plurals.PluralsRetarget | settings.ts:74-82 | Each step replaces the first occurrence of a match's text, which need not be that match: in `(()y)t(y)` with a first count other than 1, the second count replaces the `(y)` that the first step creates at the front, and the group at the end stays. |
| Plurals.RetargetGroups | settings.ts:70 | The matches of `(()y)t(y)` are `(()`, capturing "(", and `(y)`. |
| Plurals.RetargetReplace | settings.ts:79-81 | In `(()y)t(y)`, replacing `(()` by "(" and then `(y)` by `c` gives `c` followed by `t(y)`. |
| Plurals.PluralsSingle | settings.ts:67-86 | One count and one group: the group is replaced by the form the count selects, and the rest of the text is kept. |
| Plurals.PluralsOneForm | settings.ts:72-83 | `pre(w)post` with one count: the group disappears for 1 and becomes `w` otherwise. |
| Plurals.PluralsTwoForms | settings.ts:72-83 | `pre(a\|b)post` with one count: the group becomes `a` for 1 and `b` otherwise. |
| Plurals.ItemSingular | settings.ts:60-62 | "You have 1 item(s)" with 1 gives "You have 1 item". |
| Plurals.ItemPlural | settings.ts:60-63 | "You have 2 item(s)" with 2 gives "You have 2 items". |
| Plurals.BetragSingular | settings.ts:61-64 | "1 Betr(ag\|äge)" with 1 gives "1 Betrag". |
| Plurals.BetragPlural | settings.ts:61-65 | "2 Betr(ag\|äge)" with 2 gives "2 Beträge". |
| Plurals.PluralsNeverThrows | settings.ts:67-86 | The plural adapter returns for every context, so it never logs. |
| Settings.ConfiguredCall | settings.ts:49-54 | With the registered adapters, a call of a returning leaf gives the plural adapter's rewriting of its result, with no log. |
| Settings.ConfiguredCustom | settings.ts:49-54 | With no value adapters registered, an object's own `toString`/`valueOf` text comes back unchanged, with exactly one warning. |
| Settings.LastDotBelow | settings.ts:43 | The result is the position of the last "." below `n`, or none when there is no "." there. |
| Settings.LastDotBefore | settings.ts:43 | In `base.ext` where `ext` has no ".", the last "." is the one before `ext`. |
| Settings.StripOneExtension | settings.ts:43 | `/\.[^.]+$/` removes a non-empty final extension without dots: `base.ext` becomes `base`. |
| Settings.CodeOfLanguageFile | settings.ts:42-44 | `./lang/<code>.<ext>` is registered as `<code>`. |
| Settings.StripExtension | settings.ts:43 | `/\.[^.]+$/` keeps a prefix. What it drops is a "." followed by a non-empty text without ".". It drops nothing exactly when there is no "." or the text ends with one. |
| Settings.LanguageCode | settings.ts:43 | The code is a prefix of the file name without its first "./lang/". |
| Settings.EnglishFile | settings.ts:39-43 | "./lang/en-US.ts" is registered as "en-US". |
| Settings.ImportedKeys | settings.ts:42-45 | Registering adds exactly the codes of the files to the registry's keys. |
| Settings.ImportedKeeps | settings.ts:42-45 | A code that no file produces keeps its previous loader. |
| Settings.ImportedLast | settings.ts:42-45 | A code gets the loader of the last file that produces it. |
| Settings.RegisteredCodes | settings.ts:42-45 | Registering language files adds exactly the codes derived from their names to the registry's keys. |
| Settings.RegisteredLast | settings.ts:42-45 | A file's code gets the loader of the last file with that code. |
| Settings.RegisteredKeeps | settings.ts:42-45 | A registered code that no file has keeps its loader. |
| Settings.Registry.constructor | internal/i8.ts:77 | The registry starts empty. |
| Settings.Registry.ImportLanguages | settings.ts:42-45 | The loop assigns, in file order, each derived code its loader. `RegisteredCodes`, `RegisteredLast` and `RegisteredKeeps` state what the registry then holds. |
| Log.Logger.Log | settings.ts:129 | `log(msg)` appends exactly `msg` to the messages and keeps the earlier ones. |
| LanguageStore.Placeholder.constructor | internal/i8.ts:18-27 | The placeholder writes to the given log. |
| LanguageStore.Placeholder.Get | internal/i8.ts:18-27 | "toString"/"valueOf" log "Uninitialized i8 access of <key>!" and give the "i18n not initialized! ..." text. Every other key gives the placeholder itself and logs nothing. |
| LanguageStore.Store.constructor | internal/i8.ts:113-120 | The initial store holds the placeholder as value and `static`, `{}` as `noProxy`, and "en-US" as `lang` and as the language store's value. No subscriber has been notified. |
| LanguageStore.Store.GetAvailableLanguages | internal/i8.ts:135-137 | The codes are exactly the registry's keys, each once. |
| LanguageStore.Store.GetLang | internal/i8.ts:143-154 | A rejecting loader rejects without a log. A resolving loader gives its default export and a fresh root handle over it. A missing or empty entry gives nothing and logs "Requested language <code> not found!" once. |
| LanguageStore.Store.SetLang | internal/i8.ts:164-179 | The result is true exactly when the loader resolves to a truthy tree, and a rejection happens exactly when the loader rejects. On success, value and `static` become a fresh root handle over the tree with the store's configuration and log, `noProxy` the tree, and `lang` and the language store the code; the language store notifies only if the code changed. Otherwise no field changes. The store invariant is kept. |
| Detection.Attempts | internal/detection.ts:25 | The attempts are no more than the candidates. |
| Detection.AttemptsAreStrings | internal/detection.ts:25 | A text is attempted exactly when it is one of the string candidates. Null and undefined are skipped. |
| Detection.AttemptsAppend | internal/detection.ts:25 | Filtering keeps the candidates' order. |
| Detection.ResolveLangCode | internal/detection.ts:24-34 | The loop with its early return gives the best match of the first attempt that has one, or the default language. |
| Detection.FirstMatchWins | internal/detection.ts:27-31 | When the matcher first accepts attempt `k`, its best match is the result, whatever later attempts would give. |
| Detection.NoMatchDefault | internal/detection.ts:33 | When no attempt matches, the result is "en-US". |
| Detection.MatchOrDefault | internal/detection.ts:24-34 | The result is "en-US" or the matcher's best match for one of the attempts. |
| Detection.CookieAbsent | internal/detection.ts:51-52 | A cookie whose `; name=` does not occur reads as undefined. |
| Detection.GetCookie | internal/detection.ts:51-52 | A value that is read is non-empty and contains no ";". |
| Detection.CookieUndefined | internal/detection.ts:52 | The cookie reads as undefined exactly when the text after the last `; name=` is empty or starts with ";". Otherwise it reads as a value. |
| Detection.CookieValue | internal/detection.ts:51-52 | A value that is read is non-empty, has no ";", and is the text after the last `; name=` up to the next ";" or the end. |
| Detection.CookiePosition | internal/detection.ts:51-52 | That value starts right after an occurrence of `; name=`, and no later occurrence exists. |
| Detection.CookieSingle | internal/detection.ts:51-52 | The cookie string `name=v` reads as `v` for a non-empty `v` without ";". |
| Fixtures.Decimal | lang/en-US.ts:5 | The text written for a natural number is a non-empty string of decimal digits. |
| Fixtures.DecimalValue | lang/en-US.ts:5 | Those digits denote the number, and they start with "0" only for 0, which is written "0". |
| Fixtures.StatusCall | internal/proxy.ts:76-79 | A status text `${n} word(form) tail`, called through the registered adapters, drops the group for 1 and keeps its text otherwise. |
| Fixtures.EnglishStatusCall | lang/en-US.ts:5 | `i8.status(n)` in English gives "1 language loaded" for 1 and "<n> languages loaded" otherwise. |
| Fixtures.GermanStatusCall | lang/de-DE.ts:5 | `i8.status(n)` in German gives "1 Sprache geladen" for 1 and "<n> Sprachen geladen" otherwise. |
| Fixtures.GermanLacksEnOnly | lang/de-DE.ts:3-8 | The German tree has nothing at `i8.en_only`, so that handle converts to the text "i8.en_only". |
| Fixtures.EnglishHasEnOnly | lang/en-US.ts:7 | The English tree's `i8.en_only` converts to its text. |
| Text.ReplaceFirst | settings.ts:43 | `replace` with a string pattern changes nothing when the pattern is absent. Otherwise it replaces exactly its leftmost occurrence. |
| Text.ReplacePrefix | settings.ts:43 | Replacing a pattern that starts the string replaces that prefix. |
| Text.IndexOfLeftmost | settings.ts:79 | The search returns -1 exactly when the pattern does not occur. Otherwise it returns the leftmost occurrence. |
| Text.SplitFromJoin | internal/detection.ts:52 | `split` followed by `join` with the same separator gives back the input. |
| Text.SplitFromPiecesFree | internal/detection.ts:52 | No piece of a split contains the separator. |
| Text.LastPieceAt | internal/detection.ts:52 | The last piece of a split (`pop()`) is the suffix after the last occurrence of the separator. |
| Text.Take | internal/proxy.ts:106 | `substring(0, n)` is a prefix of length at most `n`, and the whole string when it is shorter. |

## Left out

- `Symbol` keys, which the `get` trap answers with `undefined` (`internal/proxy.ts:118`). Keys are strings in the model.
- Proxy.ChildOf: keys inherited from `Object.prototype` are not modelled. At `internal/proxy.ts:147`, `tree[p]` on a branch also finds inherited members such as `constructor` or `hasOwnProperty`, which are functions. The model gives Absent for every key the branch does not own.
- LanguageStore.Store.GetLang: a registry lookup sees only registered codes. At `internal/i8.ts:145`, `languages["toString"]` and other inherited members of the registry object are truthy, so the source would call them as loaders. The model reports every unregistered code as not found.
- Proxy.Convert: a branch's overrides (`custom`) are kept apart from its children, and each override is a function returning a text. At `internal/proxy.ts:123` any truthy own `toString` or `valueOf` counts as the override. A child by that name that is a string or an object would make the call at line 127 throw a `TypeError`; the model cannot express such a child.
- Proxy.Invoke: a thrown value is a message. The source builds its error line with `e.toString()` (`internal/proxy.ts:97`, `:106` and `:134`), which itself throws when the thrown value is `null` or `undefined`; that escaping error is not modelled. The same holds for the value adapters in `Proxy.Convert`.
- SnippetShape: the bound of 30 counts characters, not UTF-16 code units. See the `Text.Take` line.
- Text.Take: strings are sequences of Unicode characters, so `substring(0, 30)` in `Adapters.Snippet` (`internal/proxy.ts:106` and `:134`) keeps the first 30 characters. JavaScript counts UTF-16 code units: a source made of characters outside the Basic Multilingual Plane keeps only 15 of them, and the cut can split a surrogate pair. The model does not represent UTF-16.
- Built-in properties reached through `tree[p]` on a leaf, such as `"length"` of a string or `"name"` of a function. The model gives `undefined` (Absent) for every key of a non-object node.
- `null` nodes. At `internal/proxy.ts:123`, `toString` on a `null` node would throw. The model has no `null`.
- A custom `toString`/`valueOf` that throws. The call at `internal/proxy.ts:127` is outside any `try`, so the error would escape. Custom conversions are modelled as returning a text.
- Function leaves that return a subtree or a non-string value. A leaf returns a text or throws a message.
- The closures the conversions return (`() => stringify(path)` is evaluated lazily). The model gives the text they return, computed when the conversion happens. A later call that extends the same handle's path is therefore not reflected in an earlier conversion.
- Calling the placeholder, which is an object and not a function, so calling it is a `TypeError`.
- `String.prototype.replace` `$`-pattern expansion in the replacement text: the model inserts the text literally.
- JavaScript numbers: numeric arguments are unbounded integers. Fractional counts are not modelled. The plural rule compares with `1` as `===` does for integers.
- The order of `Object.keys`/`Object.entries`. `Store.GetAvailableLanguages` returns the registry's keys in an unspecified order, and `Registry.ImportLanguages` takes the files in the order given.
- Asynchrony. `await`, racing `setLang` calls, and the re-entrant `setLang` that `language.set` triggers through `language.subscribe(setLang)` (`internal/i8.ts:104`, `:168`) are not modelled. A loader is an already settled outcome.
- Svelte stores. `writable`, `set` and `subscribe` are reduced to the stored value plus a notification counter per store. The `i8` store counts every `set`, because the stored value is always an object or a function, and Svelte notifies for any such value. The language store counts only a change of code.
- The `window.i8` and `window.i8noProxy` mirrors (`internal/i8.ts:172-177`), the cookie and URL subscriber (`settings.ts:95-103`), `getBrowserLang` and `getUrlParam` (`internal/detection.ts:39-60`): browser globals only.
- `console.trace` and the `[i18n]` prefix of `log`. The log is the list of messages passed to it.
- `inspect` (node-inspect-extracted), the Accept-Language matcher (resolve-accept-language), the bodies of leaves and adapters, and an adapter's source text. These are parameters of the model. `Plurals.PluralsSource` stands in for the plural adapter's source text.
- `internal/gen_lang.mjs` (build-time file generation) and the TypeScript-only types (`DeepPartial`, `LanguageDeclaration`, `I18n`).

/**
 * The language store of internal/i8.ts: the uninitialised placeholder, the
 * `i8` store with its `static`, `noProxy` and `lang` fields, and the language
 * lookup and switch that either publish a new language everywhere at once or
 * change nothing.
 */
module LanguageStore {
  import opened Wrappers
  import opened Paths
  import opened Log
  import opened Proxy
  import opened Settings

  /** The text every conversion of the placeholder returns. */
  const NotInitialised: string := "i18n not initialized! You need to set a language first!"

  /** What an access to the placeholder gives: the placeholder again, or the warning text. */
  datatype PlaceholderAccess = Itself(p: Placeholder) | Warning(text: string)

  /** The tree exposed before any language is set: every access answers with the placeholder itself. */
  class Placeholder {
    const logger: Logger

    constructor (logger: Logger)
      ensures this.logger == logger
    {
      this.logger := logger;
    }

    /** The `get` trap of the placeholder. */
    method Get(key: string) returns (r: PlaceholderAccess)
      modifies logger
      ensures key == "toString" || key == "valueOf" ==>
        (r == Warning(NotInitialised)
         && logger.messages == old(logger.messages) + ["Uninitialized i8 access of " + key + "!"])
      ensures key != "toString" && key != "valueOf" ==>
        (r == Itself(this) && logger.messages == old(logger.messages))
    {
      if key == "toString" || key == "valueOf" {
        logger.Log("Uninitialized i8 access of " + key + "!");
        r := Warning(NotInitialised);
      } else {
        r := Itself(this);
      }
    }
  }

  /** What the store holds: the placeholder, or the handle at the root of a loaded tree. */
  datatype Tree = Uninitialised(p: Placeholder) | Proxied(h: Handle)

  /** What `getLang` resolves to: the raw tree and its proxy, or nothing. */
  datatype Lookup = Found(lang: Node, proxy: Handle) | NotFound

  /** A settled promise: its value, or the reason it was rejected. */
  datatype Settled<T> = Resolved(value: T) | Rejected(reason: string)

  /** `!lang` is false: the default export is neither `undefined` nor an empty string. */
  predicate Truthy(n: Node) {
    !n.Absent? && !(n.StrLeaf? && n.text == "")
  }

  /** The message logged for a language without a loader. */
  function NotFoundMessage(code: string): string {
    "Requested language " + code + " not found!"
  }

  /** `setLang(code)` succeeds: the code has a loader that resolves to a truthy default export. */
  predicate Loads(languages: map<string, Option<Loader>>, code: string) {
    code in languages && languages[code].Some? && languages[code].value.Resolving?
      && Truthy(languages[code].value.defaultExport)
  }

  /** `setLang(code)` rejects: the code has a loader whose import rejects. */
  predicate Rejects(languages: map<string, Option<Loader>>, code: string) {
    code in languages && languages[code].Some? && languages[code].value.Rejecting?
  }

  /** The `i8` store together with the `language` store it owns. */
  class Store {
    /** The value subscribers of the `i8` store see. */
    var value: Tree
    /** `i8.static`: the current tree. */
    var staticTree: Tree
    /** `i8.noProxy`: the current tree without the proxy. */
    var noProxy: Node
    /** `i8.lang`: the current language code. */
    var lang: string
    /** The value of the `language` store (`i8.langStore`). */
    var langStore: string
    /** How often subscribers of the `i8` store were notified. */
    var treeNotifications: nat
    /** How often subscribers of the `language` store were notified. */
    var langNotifications: nat

    const registry: Registry
    const config: Config
    const logger: Logger
    const placeholder: Placeholder

    /**
     * The fields agree: the store value is `static`, `lang` is the language
     * store's value, and the tree is the placeholder over `{}` or a root
     * handle over `noProxy`.
     */
    ghost predicate Valid()
      reads this
    {
      value == staticTree && lang == langStore
      && (staticTree.Uninitialised? ==> staticTree.p == placeholder && noProxy == Branch(map[], map[]))
      && (staticTree.Proxied? ==> staticTree.h.node == noProxy && staticTree.h.root == noProxy)
    }

    /** The initial `i8` store. */
    constructor (registry: Registry, config: Config, logger: Logger)
      ensures fresh(placeholder) && placeholder.logger == logger
      ensures value == Uninitialised(placeholder) && staticTree == Uninitialised(placeholder)
      ensures noProxy == Branch(map[], map[]) && lang == DefaultLang && langStore == DefaultLang
      ensures treeNotifications == 0 && langNotifications == 0
      ensures this.registry == registry && this.config == config && this.logger == logger
      ensures Valid()
    {
      var p := new Placeholder(logger);
      placeholder := p;
      value := Uninitialised(p);
      staticTree := Uninitialised(p);
      noProxy := Branch(map[], map[]);
      lang := DefaultLang;
      langStore := DefaultLang;
      treeNotifications := 0;
      langNotifications := 0;
      this.registry := registry;
      this.config := config;
      this.logger := logger;
    }

    /** `getAvailableLanguages`: every registered code, once each. */
    method GetAvailableLanguages() returns (codes: seq<string>)
      ensures forall c :: c in codes <==> c in registry.languages
      ensures forall i, j :: 0 <= i < j < |codes| ==> codes[i] != codes[j]
    {
      codes := [];
      var rest := registry.languages.Keys;
      while rest != {}
        invariant rest <= registry.languages.Keys
        invariant forall c :: c in codes <==> c in registry.languages && c !in rest
        invariant forall i, j :: 0 <= i < j < |codes| ==> codes[i] != codes[j]
        decreases |rest|
      {
        var c :| c in rest;
        codes := codes + [c];
        rest := rest - {c};
      }
    }

    /** `getLang(code)`: loads the language and proxifies its tree, or logs that it does not exist. */
    method GetLang(code: string) returns (r: Settled<Lookup>)
      modifies logger
      ensures Rejects(registry.languages, code) ==>
        (r == Rejected(registry.languages[code].value.reason) && logger.messages == old(logger.messages))
      ensures code in registry.languages && registry.languages[code].Some? && registry.languages[code].value.Resolving? ==>
        (r.Resolved? && r.value.Found? && r.value.lang == registry.languages[code].value.defaultExport
         && fresh(r.value.proxy) && r.value.proxy.node == r.value.lang && r.value.proxy.path == []
         && r.value.proxy.root == r.value.lang && r.value.proxy.config == config && r.value.proxy.logger == logger
         && logger.messages == old(logger.messages))
      ensures (code !in registry.languages || registry.languages[code].None?) ==>
        (r == Resolved(NotFound) && logger.messages == old(logger.messages) + [NotFoundMessage(code)])
    {
      if code in registry.languages && registry.languages[code].Some? {
        match registry.languages[code].value {
          case Rejecting(reason) =>
            return Rejected(reason);
          case Resolving(tree) =>
            var proxy := new Handle(tree, config, logger);
            return Resolved(Found(tree, proxy));
        }
      }
      logger.Log(NotFoundMessage(code));
      r := Resolved(NotFound);
    }

    /**
     * `setLang(code)`: publishes the new language to every field at once and
     * resolves to true, or changes nothing at all.
     */
    method SetLang(code: string) returns (r: Settled<bool>)
      requires Valid()
      modifies this, logger
      ensures Valid()
      ensures r == Resolved(true) <==> Loads(registry.languages, code)
      ensures r.Rejected? <==> Rejects(registry.languages, code)
      ensures r != Resolved(true) ==> unchanged(this)
      ensures r == Resolved(true) ==>
        (staticTree.Proxied? && fresh(staticTree.h) && staticTree.h.path == []
         && staticTree.h.config == config && staticTree.h.logger == logger
         && noProxy == registry.languages[code].value.defaultExport
         && lang == code && langStore == code
         && treeNotifications == old(treeNotifications) + 1
         && langNotifications == old(langNotifications) + (if old(langStore) == code then 0 else 1))
      ensures (code !in registry.languages || registry.languages[code].None?) ==>
        logger.messages == old(logger.messages) + [NotFoundMessage(code)]
      ensures code in registry.languages && registry.languages[code].Some? ==>
        logger.messages == old(logger.messages)
    {
      var found := GetLang(code);
      if found.Rejected? {
        return Rejected(found.reason);
      }
      if !found.value.Found? || !Truthy(found.value.lang) {
        return Resolved(false);
      }
      var tree, proxy := found.value.lang, found.value.proxy;
      value := Proxied(proxy);
      treeNotifications := treeNotifications + 1;
      if langStore != code {
        langStore := code;
        langNotifications := langNotifications + 1;
      }
      staticTree := Proxied(proxy);
      noProxy := tree;
      lang := code;
      r := Resolved(true);
    }
  }
}

/**
 * The proxy engine of internal/proxy.ts: a handle over one node of a
 * translation tree that can be indexed, called and converted to a string,
 * never fails, and renders the path it was reached by when the tree has
 * nothing there.
 */
module Proxy {
  import opened Text
  import opened Paths
  import opened Log
  import opened Adapters

  /** The two conversions the `get` trap intercepts instead of indexing the tree. */
  datatype Conversion = ToString | ValueOf

  /** The property name of a conversion. */
  function ConversionKey(c: Conversion): (key: string)
    ensures key == "toString" || key == "valueOf"
    ensures key == "toString" <==> c == ToString
  {
    match c
    case ToString => "toString"
    case ValueOf => "valueOf"
  }

  /**
   * A node of a translation tree: an object with named children (and, when it
   * overrides `toString`/`valueOf`, the text each override returns), a
   * function leaf, a string leaf, or nothing (`undefined`).
   */
  datatype Node =
    | Branch(children: map<string, Node>, custom: map<Conversion, string>)
    | FnLeaf(f: seq<Arg> -> Outcome)
    | StrLeaf(text: string)
    | Absent

  /** `tree[p]`: a branch's child, and `undefined` for a missing key or any other node. */
  function ChildOf(n: Node, key: string): (c: Node)
    ensures c != Absent ==> n.Branch? && key in n.children && c == n.children[key]
    ensures n.Branch? && key in n.children ==> c == n.children[key]
  {
    if n.Branch? && key in n.children then n.children[key] else Absent
  }

  /**
   * The node a path leads to from `root`: a property step descends to the
   * child, a call step on a non-function node leaves the node as it is.
   */
  function Walk(root: Node, path: Path): Node
    decreases |path|
  {
    if path == [] then root
    else match path[|path| - 1]
      case Field(key) => ChildOf(Walk(root, path[..|path| - 1]), key)
      case Call(_) => Walk(root, path[..|path| - 1])
  }

  /** Once a path leaves the tree, every longer path stays outside it. */
  lemma {:induction false} WalkAbsent(root: Node, p: Path, q: Path)
    requires Walk(root, p) == Absent
    ensures Walk(root, p + q) == Absent
    decreases |q|
  {
    if q == [] {
      assert p + q == p;
    } else {
      assert (p + q)[..|p + q| - 1] == p + q[..|q| - 1];
      WalkAbsent(root, p, q[..|q| - 1]);
    }
  }

  /** Walking `p` and then `q` is walking `q` from where `p` ends. */
  lemma {:induction false} WalkAppend(root: Node, p: Path, q: Path)
    ensures Walk(root, p + q) == Walk(Walk(root, p), q)
    decreases |q|
  {
    if q == [] {
      assert p + q == p;
    } else {
      assert (p + q)[..|p + q| - 1] == p + q[..|q| - 1];
      WalkAppend(root, p, q[..|q| - 1]);
    }
  }

  /** The inspector for call arguments and the registered adapters. */
  datatype Config = Config(inspect: Inspector, adapters: ProxyAdapters)

  /** What a conversion yields: a text, or a function leaf handed back as it is. */
  datatype Rendered = AsText(text: string) | AsFunction(f: seq<Arg> -> Outcome)

  /** A conversion's value and the messages it logs. */
  datatype Shown = Shown(value: Rendered, logs: seq<string>)

  /** The warning logged when a tree object brings its own `toString`/`valueOf`. */
  function CustomWarning(rendered: string): string {
    "Custom toString or valueOf detected at " + rendered
      + ". Please use getters instead, toString and valueOf are used internally."
  }

  /** The message that replaces the result when a function leaf throws. */
  function FunctionError(rendered: string, message: string): string {
    "Function " + rendered + " threw an error: " + message
  }

  /** The value-adapter context for a handle at `path`. */
  function ValueContext(path: Path): string -> PathContext {
    (before: string) => PathContext(path, before)
  }

  /** The function-adapter context for a call of `f` with `args` at `path`. */
  function CallContext(f: seq<Arg> -> Outcome, args: seq<Arg>, path: Path): string -> FunctionContext {
    (before: string) => FunctionContext(f, args, path, before)
  }

  /**
   * What `toString`/`valueOf` on a handle yields: an overriding object's own
   * text folded through the value adapters, after one warning; the rendered
   * path for a missing node or a plain object; a leaf itself otherwise.
   */
  function Convert(node: Node, path: Path, config: Config, conv: Conversion): Shown {
    match node
    case Branch(_, custom) =>
      if conv in custom then
        var f := Fold(config.adapters.value, ValueContext(path), custom[conv]);
        Shown(AsText(f.value), [CustomWarning(Render(path, config.inspect))] + f.logs)
      else Shown(AsText(Render(path, config.inspect)), [])
    case Absent => Shown(AsText(Render(path, config.inspect)), [])
    case StrLeaf(text) => Shown(AsText(text), [])
    case FnLeaf(f) => Shown(AsFunction(f), [])
  }

  /**
   * What calling a function leaf yields: its result, or the error message if
   * it throws (logged), folded through the function adapters.
   */
  function Invoke(f: seq<Arg> -> Outcome, args: seq<Arg>, path: Path, config: Config): Folded {
    var first := match f(args)
      case Returned(v) => Folded(v, [])
      case Threw(m) => Folded(FunctionError(Render(path, config.inspect), m), [FunctionError(Render(path, config.inspect), m)]);
    var rest := Fold(config.adapters.functions, CallContext(f, args, path), first.value);
    Folded(rest.value, first.logs + rest.logs)
  }

  /** The path of a missing translation is what its conversion shows, and nothing is logged. */
  lemma MissingShowsPath(root: Node, path: Path, more: Path, config: Config, conv: Conversion)
    requires Walk(root, path) == Absent
    ensures Convert(Walk(root, path + more), path + more, config, conv) == Shown(AsText(Render(path + more, config.inspect)), [])
  {
    WalkAbsent(root, path, more);
  }

  /** A leaf converts to itself: no adapter runs and nothing is logged. */
  lemma LeafShowsItself(node: Node, path: Path, config: Config, conv: Conversion)
    requires node.StrLeaf? || node.FnLeaf?
    ensures Convert(node, path, config, conv).logs == []
    ensures node.StrLeaf? ==> Convert(node, path, config, conv).value == AsText(node.text)
    ensures node.FnLeaf? ==> Convert(node, path, config, conv).value == AsFunction(node.f)
  {
  }

  /**
   * An object with its own conversion logs exactly one warning when the value
   * adapters do not throw; with no value adapters its text comes back unchanged.
   */
  lemma CustomConversion(custom: map<Conversion, string>, children: map<string, Node>, path: Path, config: Config, conv: Conversion)
    requires conv in custom
    requires forall i :: 0 <= i < |config.adapters.value| ==> NeverThrows(config.adapters.value[i], ValueContext(path))
    ensures Convert(Branch(children, custom), path, config, conv).logs == [CustomWarning(Render(path, config.inspect))]
    ensures config.adapters.value == [] ==> Convert(Branch(children, custom), path, config, conv).value == AsText(custom[conv])
  {
    QuietFold(config.adapters.value, ValueContext(path), custom[conv]);
  }

  /** A leaf that returns, with no function adapters, gives exactly its result and logs nothing. */
  lemma InvokePlain(f: seq<Arg> -> Outcome, args: seq<Arg>, path: Path, config: Config)
    requires f(args).Returned? && config.adapters.functions == []
    ensures Invoke(f, args, path, config) == Folded(f(args).value, [])
  {
  }

  /**
   * A leaf that throws does not end the call: its error message, logged once,
   * is what the function adapters receive.
   */
  lemma InvokeThrows(f: seq<Arg> -> Outcome, args: seq<Arg>, path: Path, config: Config)
    requires f(args).Threw?
    ensures var msg := FunctionError(Render(path, config.inspect), f(args).message);
      var rest := Fold(config.adapters.functions, CallContext(f, args, path), msg);
      Invoke(f, args, path, config) == Folded(rest.value, [msg] + rest.logs)
  {
  }

  /** Each error is logged once: at most one line for the leaf and one for each adapter. */
  lemma InvokeLogBound(f: seq<Arg> -> Outcome, args: seq<Arg>, path: Path, config: Config)
    ensures |Invoke(f, args, path, config).logs| <= 1 + |config.adapters.functions|
    ensures f(args).Returned? ==> |Invoke(f, args, path, config).logs| <= |config.adapters.functions|
  {
  }

  /** What `get` hands back: a handle one property deeper, or the result of a conversion. */
  datatype Access = Property(h: Handle) | Converter(value: Rendered)

  /** What calling a handle gives: a final text (function leaf), or the same handle with its path extended. */
  datatype CallResult = Terminal(text: string) | Chained(h: Handle)

  /** A proxied tree node (`proxify(tree, path)`). */
  class Handle {
    /** The tree node this handle stands for (`tree`). */
    const node: Node
    /** The path this handle was reached by; calling a non-function handle extends it. */
    var path: Path
    const config: Config
    const logger: Logger
    /** The tree the path is walked from. */
    ghost const root: Node

    /** The handle stands for the node its path reaches in its tree. */
    ghost predicate Valid()
      reads this
    {
      node == Walk(root, path)
    }

    /** `proxify(tree)`: a handle at the root of a tree. */
    constructor (tree: Node, config: Config, logger: Logger)
      ensures node == tree && path == [] && this.config == config && this.logger == logger
      ensures root == tree && Valid()
    {
      node := tree;
      path := [];
      this.config := config;
      this.logger := logger;
      root := tree;
    }

    /** `proxify(tree[key], [...path, key])`: a handle one property below `parent`. */
    constructor Below(parent: Handle, key: string)
      ensures node == ChildOf(parent.node, key) && path == parent.path + [Field(key)]
      ensures config == parent.config && logger == parent.logger && root == parent.root
      ensures parent.Valid() ==> Valid()
    {
      node := ChildOf(parent.node, key);
      path := parent.path + [Field(key)];
      config := parent.config;
      logger := parent.logger;
      root := parent.root;
    }

    /**
     * The `get` trap: `toString`/`valueOf` convert the handle; any other key
     * gives a fresh handle one level deeper, which exists even where the tree
     * has nothing.
     */
    method Get(key: string) returns (r: Access)
      modifies logger
      ensures key == "toString" ==>
        (r == Converter(Convert(node, path, config, ToString).value)
         && logger.messages == old(logger.messages) + Convert(node, path, config, ToString).logs)
      ensures key == "valueOf" ==>
        (r == Converter(Convert(node, path, config, ValueOf).value)
         && logger.messages == old(logger.messages) + Convert(node, path, config, ValueOf).logs)
      ensures key != "toString" && key != "valueOf" ==>
        (r.Property? && fresh(r.h) && r.h.node == ChildOf(node, key) && r.h.path == path + [Field(key)]
         && r.h.config == config && r.h.logger == logger && r.h.root == root
         && (Valid() ==> r.h.Valid())
         && logger.messages == old(logger.messages))
    {
      if key == ConversionKey(ToString) || key == ConversionKey(ValueOf) {
        var v := ToStr(if key == ConversionKey(ToString) then ToString else ValueOf);
        r := Converter(v);
      } else {
        var h := new Handle.Below(this, key);
        r := Property(h);
      }
    }

    /** The conversion branch of the `get` trap. */
    method ToStr(conv: Conversion) returns (r: Rendered)
      modifies logger
      ensures r == Convert(node, path, config, conv).value
      ensures logger.messages == old(logger.messages) + Convert(node, path, config, conv).logs
    {
      var p := path;
      match node {
        case Branch(_, custom) =>
          if conv in custom {
            r := ToStrCustom(conv);
          } else {
            var at := Stringify(p, config.inspect);
            r := AsText(at);
          }
        case Absent =>
          var at := Stringify(p, config.inspect);
          r := AsText(at);
        case StrLeaf(text) =>
          r := AsText(text);
        case FnLeaf(f) =>
          r := AsFunction(f);
      }
    }

    /** A branch's own `toString`/`valueOf`: warn, then fold its value through the value adapters. */
    method ToStrCustom(conv: Conversion) returns (r: Rendered)
      requires node.Branch? && conv in node.custom
      modifies logger
      ensures r == Convert(node, path, config, conv).value
      ensures logger.messages == old(logger.messages) + Convert(node, path, config, conv).logs
    {
      var p := path;
      var at := Stringify(p, config.inspect);
      logger.Log(CustomWarning(at));
      var res := RunAdapters(config.adapters.value, ValueContext(p), node.custom[conv], logger);
      r := AsText(res);
    }

    /**
     * The `target` function: a function leaf is called and its result folded
     * through the function adapters; any other handle records the call on its
     * own path and returns itself.
     */
    method Call(args: seq<Arg>) returns (r: CallResult)
      modifies this, logger
      ensures node.FnLeaf? ==>
        (path == old(path) && r == Terminal(Invoke(node.f, args, path, config).value)
         && logger.messages == old(logger.messages) + Invoke(node.f, args, path, config).logs)
      ensures !node.FnLeaf? ==>
        (path == old(path) + [Paths.Call(args)] && r == Chained(this)
         && logger.messages == old(logger.messages))
      ensures old(Valid()) ==> Valid()
    {
      if node.FnLeaf? {
        var res: string;
        match node.f(args) {
          case Returned(v) =>
            res := v;
          case Threw(m) =>
            var at := Stringify(path, config.inspect);
            res := FunctionError(at, m);
            logger.Log(res);
        }
        res := RunAdapters(config.adapters.functions, CallContext(node.f, args, path), res, logger);
        r := Terminal(res);
      } else {
        path := path + [Paths.Call(args)];
        r := Chained(this);
      }
    }
  }
}

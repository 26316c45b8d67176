/**
 * The adapter pipeline of internal/proxy.ts: the two adapter contexts, the
 * error message of a throwing adapter, and the left fold that runs a list of
 * adapters over a result while containing every error.
 */
module Adapters {
  import opened Text
  import opened Paths
  import opened Log

  /** What running a translation function or an adapter does: return a text, or throw (with the thrown value's `toString()`). */
  datatype Outcome = Returned(value: string) | Threw(message: string)

  /** What a function adapter is given: the called leaf, its arguments, the path of the handle and the result so far. */
  datatype FunctionContext = FunctionContext(fn: seq<Arg> -> Outcome, args: seq<Arg>, path: Path, before: string)

  /** What a value adapter is given: the path of the handle and the result so far. */
  datatype PathContext = PathContext(path: Path, before: string)

  /** An adapter: its source text (what `a.toString()` yields) and its behaviour. */
  datatype Adapter<!C> = Adapter(source: string, run: C -> Outcome)

  /** The registered adapters, by kind (`ProxyAdapters`). */
  datatype ProxyAdapters = ProxyAdapters(functions: seq<Adapter<FunctionContext>>, value: seq<Adapter<PathContext>>)

  /** The result of a fold: the final text and the log lines written on the way, in order. */
  datatype Folded = Folded(value: string, logs: seq<string>)

  /** The part of an adapter's source shown in its error message: at most 30 characters of its first line. */
  function Snippet(source: string): string {
    Take(Split(source, "\n")[0], 30)
  }

  /** The snippet is a prefix of the source, at most 30 characters long, and stays on the first line. */
  lemma SnippetShape(source: string)
    ensures var sn := Snippet(source); |sn| <= 30 && sn <= source && Free(sn, "\n")
  {
    SplitFromPiecesFree(source, "\n", 0);
    FirstPiecePrefix(source, "\n");
    PrefixFree(Split(source, "\n")[0], Snippet(source), "\n");
  }

  /** The message that replaces the result when an adapter throws. */
  function AdapterError(source: string, message: string): string {
    "Adapter " + Snippet(source) + "... threw an error: " + message
  }

  /**
   * One adapter applied to the result so far: what it returns becomes the
   * result; what it throws becomes the result as an error message, which is
   * also logged.
   */
  function Step<C>(a: Adapter<C>, context: string -> C, acc: Folded): Folded {
    match a.run(context(acc.value))
    case Returned(v) => Folded(v, acc.logs)
    case Threw(m) => Folded(AdapterError(a.source, m), acc.logs + [AdapterError(a.source, m)])
  }

  /**
   * `adapters.forEach(a => { try { res = a(...) } catch ... })`: the adapters
   * applied in registration order, each to the previous one's result, starting
   * from `before`. `context` builds an adapter's context from the result so far.
   */
  function Fold<C>(adapters: seq<Adapter<C>>, context: string -> C, before: string): (f: Folded)
    ensures |f.logs| <= |adapters|
  {
    if adapters == [] then Folded(before, [])
    else Step(adapters[|adapters| - 1], context, Fold(adapters[..|adapters| - 1], context, before))
  }

  /** The fold written as a loop over the adapters, as the source does it, logging each error as it happens. */
  method RunAdapters<C>(adapters: seq<Adapter<C>>, context: string -> C, before: string, logger: Logger) returns (res: string)
    modifies logger
    ensures res == Fold(adapters, context, before).value
    ensures logger.messages == old(logger.messages) + Fold(adapters, context, before).logs
  {
    res := before;
    for i := 0 to |adapters|
      invariant res == Fold(adapters[..i], context, before).value
      invariant logger.messages == old(logger.messages) + Fold(adapters[..i], context, before).logs
    {
      assert adapters[..i + 1][..i] == adapters[..i];
      match adapters[i].run(context(res)) {
        case Returned(v) =>
          res := v;
        case Threw(m) =>
          res := AdapterError(adapters[i].source, m);
          logger.Log(res);
      }
    }
    assert adapters[..|adapters|] == adapters;
  }

  /** With no adapters registered the result passes through unchanged and nothing is logged. */
  lemma FoldNone<C>(context: string -> C, before: string)
    ensures Fold([], context, before) == Folded(before, [])
  {
  }

  /** Running `a` then `b` is running `b` on what `a` produced; the logs of the two runs follow each other. */
  lemma {:induction false} FoldAppend<C>(a: seq<Adapter<C>>, b: seq<Adapter<C>>, context: string -> C, before: string)
    ensures var fa := Fold(a, context, before); var fb := Fold(b, context, fa.value);
      Fold(a + b, context, before) == Folded(fb.value, fa.logs + fb.logs)
    decreases |b|
  {
    if b == [] {
      assert a + b == a;
    } else {
      var b' := b[..|b| - 1];
      assert (a + b)[..|a + b| - 1] == a + b';
      FoldAppend(a, b', context, before);
    }
  }

  /** A single adapter: its return value is the result; if it throws, the error message is the result and the one log line. */
  lemma FoldOne<C>(a: Adapter<C>, context: string -> C, before: string)
    ensures a.run(context(before)).Returned? ==> Fold([a], context, before) == Folded(a.run(context(before)).value, [])
    ensures a.run(context(before)).Threw? ==>
      var msg := AdapterError(a.source, a.run(context(before)).message);
      Fold([a], context, before) == Folded(msg, [msg])
  {
    assert [a][..0] == [];
  }

  /** An adapter that throws does not stop the pipeline: the next adapter receives the error message as its `before`. */
  lemma ErrorContinues<C>(a: Adapter<C>, rest: seq<Adapter<C>>, context: string -> C, before: string)
    requires a.run(context(before)).Threw?
    ensures var msg := AdapterError(a.source, a.run(context(before)).message);
      Fold([a] + rest, context, before) == Folded(Fold(rest, context, msg).value, [msg] + Fold(rest, context, msg).logs)
  {
    FoldOne(a, context, before);
    FoldAppend([a], rest, context, before);
  }

  /** The adapter does not throw, whatever result it is handed. */
  ghost predicate NeverThrows<C>(a: Adapter<C>, context: string -> C) {
    forall before: string :: a.run(context(before)).Returned?
  }

  /** When no adapter throws, nothing is logged. */
  lemma {:induction false} QuietFold<C>(adapters: seq<Adapter<C>>, context: string -> C, before: string)
    requires forall i :: 0 <= i < |adapters| ==> NeverThrows(adapters[i], context)
    ensures Fold(adapters, context, before).logs == []
    decreases |adapters|
  {
    if adapters != [] {
      QuietFold(adapters[..|adapters| - 1], context, before);
    }
  }
}

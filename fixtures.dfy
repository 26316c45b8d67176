/**
 * The two language trees that ship with the library (lang/en-US.ts and
 * lang/de-DE.ts) and what the engine makes of them.
 */
module Fixtures {
  import opened Text
  import opened Paths
  import opened Adapters
  import opened Plurals
  import opened Proxy
  import opened Settings

  /** The decimal digits of `n`, as a template literal writes a non-negative integer. */
  function Decimal(n: nat): (s: string)
    ensures s != [] && forall i :: 0 <= i < |s| ==> '0' <= s[i] <= '9'
  {
    var digit := [('0' as int + n % 10) as char];
    if n < 10 then digit else Decimal(n / 10) + digit
  }

  /** The number a string of decimal digits denotes. */
  function DigitsValue(s: string): nat
    requires forall i :: 0 <= i < |s| ==> '0' <= s[i] <= '9'
  {
    if s == [] then 0 else DigitsValue(s[..|s| - 1]) * 10 + (s[|s| - 1] as int - '0' as int)
  }

  /** The digits of `n` denote `n`, with no leading zero except for `n` = 0 itself. */
  lemma {:induction false} DecimalValue(n: nat)
    ensures DigitsValue(Decimal(n)) == n
    ensures Decimal(n)[0] == '0' <==> n == 0
    ensures n == 0 ==> Decimal(n) == "0"
  {
    var s := Decimal(n);
    if n >= 10 {
      DecimalValue(n / 10);
      assert s[..|s| - 1] == Decimal(n / 10);
      assert s[0] == Decimal(n / 10)[0];
    }
  }

  /** `${n}` for the first call argument of a leaf. */
  function FirstArgText(args: seq<Arg>): string {
    if args == [] then "undefined"
    else match args[0]
      case Num(n) => if n < 0 then "-" + Decimal(-n) else Decimal(n)
      case Str(s) => s
      case Other(description) => description
  }

  /** A status text `(n) => `${n}<word>(<form>)<tail>``, as both language files write it. */
  function Status(word: string, form: string, tail: string): seq<Arg> -> Outcome {
    (args: seq<Arg>) => Returned(FirstArgText(args) + word + "(" + form + ")" + tail)
  }

  /** The default export of lang/en-US.ts. */
  const English: Node := Branch(map["i8" := Branch(map[
    "status" := FnLeaf(Status(" language", "s", " loaded")),
    "name" := StrLeaf("i8 Language Library"),
    "en_only" := StrLeaf("This text is only in English by default. Try adding it in German!")
  ], map[])], map[])

  /** The default export of lang/de-DE.ts, which has no `en_only`. */
  const German: Node := Branch(map["i8" := Branch(map[
    "status" := FnLeaf(Status(" Sprache", "n", " geladen")),
    "name" := StrLeaf("i8 Sprachbibliothek")
  ], map[])], map[])

  /** The digits of a number contain no parenthesis. */
  lemma DecimalPlain(n: nat)
    ensures NoChar(Decimal(n), '(')
  {
  }

  /** Calling a status text with a count, through the registered adapters: the group disappears for 1 and is kept otherwise. */
  lemma StatusCall(word: string, form: string, tail: string, n: nat, path: Path, inspect: Inspector)
    requires NoChar(word, '(') && NoChar(tail, '(') && form != [] && NoChar(form, ')') && NoChar(form, '|')
    ensures Invoke(Status(word, form, tail), [Num(n)], path, Config(inspect, Configured))
      == Folded(Decimal(n) + word + (if n == 1 then "" else form) + tail, [])
  {
    var f := Status(word, form, tail);
    ConfiguredCall(f, [Num(n)], path, inspect);
    var pre := Decimal(n) + word;
    assert f([Num(n)]).value == pre + "(" + form + ")" + tail;
    DecimalPlain(n);
    NoCharConcat(Decimal(n), word, '(');
    PluralsOneForm(n, pre, form, tail);
  }

  /** `i8.status(n)` in English: "1 language loaded", "2 languages loaded", ... */
  lemma EnglishStatusCall(n: nat, path: Path, inspect: Inspector)
    ensures English.children["i8"].children["status"].FnLeaf?
    ensures Invoke(English.children["i8"].children["status"].f, [Num(n)], path, Config(inspect, Configured))
      == Folded(Decimal(n) + " language" + (if n == 1 then "" else "s") + " loaded", [])
  {
    StatusCall(" language", "s", " loaded", n, path, inspect);
  }

  /** `i8.status(n)` in German: "1 Sprache geladen", "2 Sprachen geladen", ... */
  lemma GermanStatusCall(n: nat, path: Path, inspect: Inspector)
    ensures German.children["i8"].children["status"].FnLeaf?
    ensures Invoke(German.children["i8"].children["status"].f, [Num(n)], path, Config(inspect, Configured))
      == Folded(Decimal(n) + " Sprache" + (if n == 1 then "" else "n") + " geladen", [])
  {
    StatusCall(" Sprache", "n", " geladen", n, path, inspect);
  }

  /** The German tree has nothing at `i8.en_only`, so converting that handle shows the path "i8.en_only". */
  lemma GermanLacksEnOnly(inspect: Inspector, conv: Conversion)
    ensures Walk(German, [Field("i8"), Field("en_only")]) == Absent
    ensures Convert(Walk(German, [Field("i8"), Field("en_only")]), [Field("i8"), Field("en_only")], Config(inspect, Configured), conv)
      == Shown(AsText("i8.en_only"), [])
  {
    var path := [Field("i8"), Field("en_only")];
    assert path[..1] == [Field("i8")];
    assert [Field("i8")][..0] == [];
    RenderSnoc([], Field("i8"), inspect);
    assert [] + [Field("i8")] == [Field("i8")];
    assert Render([Field("i8")], inspect) == "i8";
    RenderSnoc([Field("i8")], Field("en_only"), inspect);
    assert [Field("i8")] + [Field("en_only")] == path;
    assert Render(path, inspect) == "i8" + "." + "en_only";
    assert "i8" + "." + "en_only" == "i8.en_only";
    assert Walk(German, path) == Absent;
    var config := Config(inspect, Configured);
    assert Convert(Absent, path, config, conv) == Shown(AsText(Render(path, inspect)), []);
  }

  /** The English tree has a text at `i8.en_only`, which converting that handle returns as it is. */
  lemma EnglishHasEnOnly(inspect: Inspector, conv: Conversion)
    ensures Convert(Walk(English, [Field("i8"), Field("en_only")]), [Field("i8"), Field("en_only")], Config(inspect, Configured), conv)
      == Shown(AsText("This text is only in English by default. Try adding it in German!"), [])
  {
    var path := [Field("i8"), Field("en_only")];
    assert path[..1] == [Field("i8")];
    assert [Field("i8")][..0] == [];
  }
}

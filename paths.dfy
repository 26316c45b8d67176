/**
 * Call/property paths and their rendering (`Path` and `stringify` in
 * internal/proxy.ts).
 */
module Paths {
  import opened Text

  /**
   * A call argument. Only numbers matter to the engine itself (the plural
   * adapter counts them); every other value is kept opaque.
   */
  datatype Arg = Num(n: int) | Str(s: string) | Other(description: string)

  /** One step of a path: a property access or a call with its arguments. */
  datatype Segment = Field(key: string) | Call(args: seq<Arg>)

  type Path = seq<Segment>

  /** The value-to-source renderer used for call arguments (`inspect` in settings.ts). */
  type Inspector = Arg -> string

  /** A call segment's arguments, each inspected, separated by ", ". */
  function ArgList(args: seq<Arg>, inspect: Inspector): string {
    Join(seq(|args|, i requires 0 <= i < |args| => inspect(args[i])), ", ")
  }

  /** How one segment is written: a key verbatim, a call as `(` arguments `)`. */
  function SegmentText(seg: Segment, inspect: Inspector): string {
    match seg
    case Field(key) => key
    case Call(args) => "(" + ArgList(args, inspect) + ")"
  }

  /** The texts of all segments, in path order. */
  function SegmentTexts(path: Path, inspect: Inspector): (texts: seq<string>)
    ensures |texts| == |path|
    ensures forall i :: 0 <= i < |path| ==> texts[i] == SegmentText(path[i], inspect)
  {
    seq(|path|, i requires 0 <= i < |path| => SegmentText(path[i], inspect))
  }

  /**
   * The rendering of a path: the segment texts with a "." between each two
   * neighbours. A call segment is separated by a "." like any other segment.
   */
  function Render(path: Path, inspect: Inspector): string {
    Join(SegmentTexts(path, inspect), ".")
  }

  /** `stringify`: one pass over the path that appends each segment and, except after the last, a ".". */
  method Stringify(path: Path, inspect: Inspector) returns (res: string)
    ensures res == Render(path, inspect)
  {
    ghost var texts := SegmentTexts(path, inspect);
    res := "";
    for i := 0 to |path|
      invariant res == Join(texts[..i], ".") + (if 0 < i < |path| then "." else "")
    {
      var piece := match path[i]
        case Field(key) => key
        case Call(args) => "(" + ArgList(args, inspect) + ")";
      assert piece == texts[i];
      JoinPrefixStep(texts, i, ".");
      res := res + piece;
      if i != |path| - 1 {
        res := res + ".";
      }
    }
    assert texts[..|path|] == texts;
  }

  /** The empty path renders as the empty string. */
  lemma RenderEmpty(inspect: Inspector)
    ensures Render([], inspect) == ""
  {
  }

  /** One more segment adds a "." and that segment's text at the end. */
  lemma RenderSnoc(path: Path, seg: Segment, inspect: Inspector)
    ensures Render(path + [seg], inspect) ==
      if path == [] then SegmentText(seg, inspect) else Render(path, inspect) + "." + SegmentText(seg, inspect)
  {
    assert SegmentTexts(path + [seg], inspect) == SegmentTexts(path, inspect) + [SegmentText(seg, inspect)];
    JoinSnoc(SegmentTexts(path, inspect), SegmentText(seg, inspect), ".");
  }

  /** The rendering of two non-empty paths one after the other joins their renderings with a ".". */
  lemma RenderAppend(p: Path, q: Path, inspect: Inspector)
    requires p != [] && q != []
    ensures Render(p + q, inspect) == Render(p, inspect) + "." + Render(q, inspect)
  {
    assert SegmentTexts(p + q, inspect) == SegmentTexts(p, inspect) + SegmentTexts(q, inspect);
    JoinAppend(SegmentTexts(p, inspect), SegmentTexts(q, inspect), ".");
  }

  /** The arguments `(d, e)` are written as their inspections separated by ", ". */
  lemma ArgListPair(d: Arg, e: Arg, inspect: Inspector)
    ensures ArgList([d, e], inspect) == inspect(d) + ", " + inspect(e)
  {
    assert seq(2, i requires 0 <= i < 2 => inspect([d, e][i])) == [inspect(d)] + [inspect(e)];
    JoinCons(inspect(d), [inspect(e)], ", ");
  }

  /**
   * The path `a.b().c(d, e)`, as `[a, b, [], c, [d, e]]`, renders as
   * `a.b.().c.(d, e)`: every segment, call segments included, is followed by a
   * "." unless it is the last.
   */
  lemma RenderCallSegments(a: string, b: string, c: string, d: Arg, e: Arg, inspect: Inspector)
    ensures Render([Field(a), Field(b), Call([]), Field(c), Call([d, e])], inspect)
         == a + "." + b + ".()." + c + ".(" + inspect(d) + ", " + inspect(e) + ")"
  {
    var empty, pair := SegmentText(Call([]), inspect), SegmentText(Call([d, e]), inspect);
    RenderFive(Field(a), Field(b), Call([]), Field(c), Call([d, e]), inspect);
    assert ArgList([], inspect) == "";
    assert empty == "()";
    ArgListPair(d, e, inspect);
    assert pair == "(" + inspect(d) + ", " + inspect(e) + ")";
  }

  /** Five segments render as their five texts separated by ".". */
  lemma RenderFive(s1: Segment, s2: Segment, s3: Segment, s4: Segment, s5: Segment, inspect: Inspector)
    ensures Render([s1, s2, s3, s4, s5], inspect)
      == SegmentText(s1, inspect) + "." + SegmentText(s2, inspect) + "." + SegmentText(s3, inspect)
         + "." + SegmentText(s4, inspect) + "." + SegmentText(s5, inspect)
  {
    var t := SegmentTexts([s1, s2, s3, s4, s5], inspect);
    var j4 := t[4];
    assert Join(t[4..], ".") == j4;
    var j3 := t[3] + "." + j4;
    assert t[3..][1..] == t[4..];
    assert Join(t[3..], ".") == j3;
    var j2 := t[2] + "." + j3;
    assert t[2..][1..] == t[3..];
    assert Join(t[2..], ".") == j2;
    var j1 := t[1] + "." + j2;
    assert t[1..][1..] == t[2..];
    assert Join(t[1..], ".") == j1;
    assert Join(t, ".") == t[0] + "." + j1;
  }
}

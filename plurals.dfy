/**
 * The plural adapter of settings.ts: the numeric call arguments choose, one
 * by one, between the singular and the plural form written in each `(...)`
 * group of the translated text.
 */
module Plurals {
  import opened Wrappers
  import opened Text
  import opened Paths
  import opened Adapters

  /** A match of `\(([^)]+)\)`: the matched text, parentheses included, and the captured inner text. */
  datatype Group = Group(original: string, inner: string)

  /** What every match of the pattern looks like: a non-empty run of characters other than `)` in parentheses. */
  predicate WellFormed(g: Group) {
    g.original == "(" + g.inner + ")" && g.inner != [] && NoChar(g.inner, ')')
  }

  /** The numeric arguments, in call order (`args.filter(arg => typeof arg === "number")`). */
  function Nums(args: seq<Arg>): (nums: seq<int>)
    ensures |nums| <= |args|
    ensures forall x :: x in nums <==> Num(x) in args
  {
    if args == [] then []
    else
      var init, last := args[..|args| - 1], args[|args| - 1];
      assert args == init + [last];
      Nums(init) + (if last.Num? then [last.n] else [])
  }

  /** Filtering the numbers of two argument lists one after the other concatenates the two filtered lists. */
  lemma {:induction false} NumsAppend(a: seq<Arg>, b: seq<Arg>)
    ensures Nums(a + b) == Nums(a) + Nums(b)
    decreases |b|
  {
    if b == [] {
      assert a + b == a;
    } else {
      assert (a + b)[..|a + b| - 1] == a + b[..|b| - 1];
      NumsAppend(a, b[..|b| - 1]);
    }
  }

  /** Arguments that are not numbers are not counted. */
  lemma {:induction false} NumsOfNonNumbers(args: seq<Arg>)
    requires forall i :: 0 <= i < |args| ==> !args[i].Num?
    ensures Nums(args) == []
    decreases |args|
  {
    if args != [] {
      NumsOfNonNumbers(args[..|args| - 1]);
    }
  }

  /** The first `)` at or after `i`: where the scan of `[^)]+` stops. */
  function CloseFrom(s: string, i: nat): (r: Option<nat>)
    decreases |s| - i
    ensures r.Some? ==> i <= r.value < |s| && s[r.value] == ')'
  {
    if i >= |s| then None
    else if s[i] == ')' then Some(i)
    else CloseFrom(s, i + 1)
  }

  /** The scan stops at the leftmost `)`, and finds none only when there is none. */
  lemma {:induction false} CloseFromLeftmost(s: string, i: nat)
    ensures CloseFrom(s, i).Some? ==> forall j :: i <= j < CloseFrom(s, i).value ==> s[j] != ')'
    ensures CloseFrom(s, i).None? ==> forall j :: i <= j < |s| ==> s[j] != ')'
    decreases |s| - i
  {
    if i < |s| && s[i] != ')' {
      CloseFromLeftmost(s, i + 1);
    }
  }

  /** Where a match sits in the text: the indices of its `(` and of its `)`. */
  datatype Span = Span(open: nat, close: nat)

  /** `sp` is a match in `s`: a `(`, a non-empty run of characters other than `)`, and a `)`. */
  ghost predicate Matched(s: string, sp: Span) {
    sp.open + 1 < sp.close < |s| && s[sp.open] == '(' && s[sp.close] == ')'
    && forall j :: sp.open < j < sp.close ==> s[j] != ')'
  }

  /**
   * The matches of `/\(([^)]+)\)/g` from index `from` on (`matchAll`): a match
   * starts at a `(` whose first following `)` is not directly after it, and
   * the search resumes after the match.
   */
  function SpansFrom(s: string, from: nat): (spans: seq<Span>)
    decreases |s| - from
    ensures forall i :: 0 <= i < |spans| ==> from <= spans[i].open && spans[i].open + 1 < spans[i].close < |s|
  {
    if from >= |s| then []
    else if s[from] == '(' && CloseFrom(s, from + 1).Some? && CloseFrom(s, from + 1).value > from + 1 then
      [Span(from, CloseFrom(s, from + 1).value)] + SpansFrom(s, CloseFrom(s, from + 1).value + 1)
    else SpansFrom(s, from + 1)
  }

  /** The matched text and the captured text of a match. */
  function GroupAt(s: string, sp: Span): (g: Group)
    requires sp.open < sp.close < |s|
    ensures |g.original| == sp.close + 1 - sp.open && |g.inner| + 2 == |g.original|
  {
    Group(s[sp.open..sp.close + 1], s[sp.open + 1..sp.close])
  }

  /** The texts of a list of matches, in order. */
  function GroupsOf(s: string, spans: seq<Span>): (groups: seq<Group>)
    requires forall i :: 0 <= i < |spans| ==> spans[i].open < spans[i].close < |s|
    ensures |groups| == |spans|
  {
    seq(|spans|, i requires 0 <= i < |spans| => GroupAt(s, spans[i]))
  }

  /** All matches in `s`, as texts. */
  function Groups(s: string): seq<Group> {
    GroupsOf(s, SpansFrom(s, 0))
  }

  /** Every match the search reports is a `(`, a non-empty run without `)`, and a `)`. */
  lemma {:induction false} SpansMatched(s: string, from: nat)
    ensures forall i :: 0 <= i < |SpansFrom(s, from)| ==> Matched(s, SpansFrom(s, from)[i])
    decreases |s| - from
  {
    if from < |s| {
      if s[from] == '(' && CloseFrom(s, from + 1).Some? && CloseFrom(s, from + 1).value > from + 1 {
        CloseFromLeftmost(s, from + 1);
        SpansMatched(s, CloseFrom(s, from + 1).value + 1);
      } else {
        SpansMatched(s, from + 1);
      }
    }
  }

  /** The text of a match is its inner text in parentheses, non-empty and without `)`. */
  lemma GroupAtWellFormed(s: string, sp: Span)
    requires Matched(s, sp)
    ensures WellFormed(GroupAt(s, sp))
  {
    var inner := s[sp.open + 1..sp.close];
    assert NoChar(inner, ')') by {
      forall i | 0 <= i < |inner| ensures inner[i] != ')' {
        assert inner[i] == s[sp.open + 1 + i];
      }
    }
    assert s[sp.open..sp.close + 1] == "(" + inner + ")";
  }

  /** The texts of matches are well formed. */
  lemma GroupsOfWellFormed(s: string, spans: seq<Span>)
    requires forall i :: 0 <= i < |spans| ==> spans[i].open < spans[i].close < |s| && Matched(s, spans[i])
    ensures forall i :: 0 <= i < |GroupsOf(s, spans)| ==> WellFormed(GroupsOf(s, spans)[i])
  {
    forall i | 0 <= i < |spans| ensures WellFormed(GroupsOf(s, spans)[i]) {
      GroupAtWellFormed(s, spans[i]);
    }
  }

  /** Every match has the form `(inner)` with a non-empty `inner` that contains no `)`. */
  lemma GroupsWellFormed(s: string)
    ensures forall i :: 0 <= i < |Groups(s)| ==> WellFormed(Groups(s)[i])
  {
    SpansMatched(s, 0);
    GroupsOfWellFormed(s, SpansFrom(s, 0));
  }

  /** Characters other than `(` are skipped by the search. */
  lemma {:induction false} SpansSkip(s: string, from: nat, to: nat)
    requires from <= to <= |s| && forall i :: from <= i < to ==> s[i] != '('
    ensures SpansFrom(s, from) == SpansFrom(s, to)
    decreases |s| - from
  {
    if from < to {
      SpansSkip(s, from + 1, to);
    }
  }

  /**
   * The replacement for one group: with exactly two `|`-separated forms the
   * first is the singular and the second the plural; otherwise the singular
   * is empty and the plural is the first form. The count 1 takes the singular.
   */
  function Choose(num: int, inner: string): string {
    var split := Split(inner, "|");
    var plural := if |split| == 2 then split[1] else split[0];
    var singular := if |split| == 2 then split[0] else "";
    if num == 1 then singular else plural
  }

  /** `(a|b)`: the count 1 gives `a`, any other count `b`. */
  lemma ChooseTwoForms(num: int, a: string, b: string)
    requires NoChar(a, '|') && NoChar(b, '|')
    ensures Choose(num, a + "|" + b) == if num == 1 then a else b
  {
    SplitTwo(a, b, '|');
  }

  /** `(w)`: the count 1 drops the group, any other count keeps its text. */
  lemma ChooseOneForm(num: int, w: string)
    requires NoChar(w, '|')
    ensures Choose(num, w) == if num == 1 then "" else w
  {
    SplitNoSeparator(w, '|');
  }

  /** `(a|b|c...)`: with three or more forms the count 1 drops the group and any other count takes the first form. */
  lemma ChooseManyForms(num: int, a: string, b: string, c: string)
    requires NoChar(a, '|') && NoChar(b, '|')
    ensures Choose(num, a + "|" + b + "|" + c) == if num == 1 then "" else a
  {
    SplitFirstTwo(a, b, c, '|');
  }

  /** Splitting a text without the character `c` gives pieces without it. */
  lemma {:induction false} SplitFromNoChar(s: string, sep: string, start: nat, c: char)
    requires |sep| > 0 && start <= |s| && forall i :: start <= i < |s| ==> s[i] != c
    ensures forall i :: 0 <= i < |SplitFrom(s, sep, start)| ==> NoChar(SplitFrom(s, sep, start)[i], c)
    decreases |s| - start
  {
    match IndexFrom(s, sep, start)
    case None =>
    case Some(k) =>
      assert NoChar(s[start..k], c);
      SplitFromNoChar(s, sep, k + |sep|, c);
  }

  /** The replacement of a group has no character its inner text lacks. */
  lemma ChooseNoChar(num: int, inner: string, c: char)
    requires NoChar(inner, c)
    ensures NoChar(Choose(num, inner), c)
  {
    SplitFromNoChar(inner, "|", 0, c);
  }

  /** The replacement is empty or one of the `|`-separated forms, and never contains a `|`. */
  lemma ChooseIsForm(num: int, inner: string)
    ensures var r := Choose(num, inner); Free(r, "|") && (r == "" || r in Split(inner, "|"))
  {
    SplitFromPiecesFree(inner, "|", 0);
    assert Free("", "|");
  }

  /** The text after the first `i` substitutions: each replaces the first occurrence of a group's matched text. */
  function Steps(before: string, nums: seq<int>, groups: seq<Group>, i: nat): string
    requires i <= |nums| == |groups|
  {
    if i == 0 then before
    else ReplaceFirst(Steps(before, nums, groups, i - 1), groups[i - 1].original, Choose(nums[i - 1], groups[i - 1].inner))
  }

  /** What the plural adapter returns for `before` and the call arguments. */
  function PluralsOf(args: seq<Arg>, before: string): string {
    var nums := Nums(args);
    var groups := Groups(before);
    if |nums| != |groups| then before else Steps(before, nums, groups, |nums|)
  }

  /** `plurals`: the substitution loop of the source. */
  method Plurals(context: FunctionContext) returns (res: string)
    ensures res == PluralsOf(context.args, context.before)
  {
    res := context.before;
    var nums := Nums(context.args);
    var matches := Groups(res);
    if |nums| == |matches| {
      for i := 0 to |nums|
        invariant res == Steps(context.before, nums, matches, i)
      {
        var num := nums[i];
        var original, rawPlural := matches[i].original, matches[i].inner;
        var split := Split(rawPlural, "|");
        var plural := if |split| == 2 then split[1] else split[0];
        var singular := if |split| == 2 then split[0] else "";
        if num == 1 {
          res := ReplaceFirst(res, original, singular);
        } else {
          res := ReplaceFirst(res, original, plural);
        }
      }
    }
  }

  /** When the number of numeric arguments differs from the number of groups, the text is returned unchanged. */
  lemma CountMismatch(args: seq<Arg>, before: string)
    requires |Nums(args)| != |Groups(before)|
    ensures PluralsOf(args, before) == before
  {
  }

  /** Only numeric arguments matter: two argument lists with the same numbers give the same text. */
  lemma OnlyNumbersCount(args: seq<Arg>, others: seq<Arg>, before: string)
    requires forall i :: 0 <= i < |others| ==> !others[i].Num?
    ensures PluralsOf(args + others, before) == PluralsOf(args, before)
    ensures PluralsOf(others + args, before) == PluralsOf(args, before)
  {
    NumsOfNonNumbers(others);
    NumsAppend(args, others);
    NumsAppend(others, args);
    assert Nums(args + others) == Nums(args);
    assert Nums(others + args) == Nums(args);
  }

  /** A `(` whose next `)` comes after at least one character starts a match there. */
  lemma SpansAt(s: string, open: nat, close: nat)
    requires open < |s| && s[open] == '(' && CloseFrom(s, open + 1) == Some(close) && close > open + 1
    ensures SpansFrom(s, open) == [Span(open, close)] + SpansFrom(s, close + 1)
  {
  }

  /** The scan for `)` from `from` stops at the first `)`. */
  lemma {:induction false} NextClose(s: string, from: nat, close: nat)
    requires from <= close < |s| && s[close] == ')' && forall j :: from <= j < close ==> s[j] != ')'
    ensures CloseFrom(s, from) == Some(close)
    decreases close - from
  {
    if from < close {
      NextClose(s, from + 1, close);
    }
  }

  /** No `(` from `from` on: no more matches. */
  lemma SpansNone(s: string, from: nat)
    requires from <= |s| && forall i :: from <= i < |s| ==> s[i] != '('
    ensures SpansFrom(s, from) == []
  {
    SpansSkip(s, from, |s|);
  }

  /** The next match after `from` is the one at the first `(` from there, ending at the first `)` after it. */
  lemma SpanAfter(s: string, from: nat, open: nat, close: nat, rest: seq<Span>)
    requires from <= open && open + 1 < close < |s| && s[open] == '(' && s[close] == ')'
    requires forall i :: from <= i < open ==> s[i] != '('
    requires forall i :: open < i < close ==> s[i] != ')'
    requires SpansFrom(s, close + 1) == rest
    ensures SpansFrom(s, from) == [Span(open, close)] + rest
  {
    SpansSkip(s, from, open);
    NextClose(s, open + 1, close);
    SpansAt(s, open, close);
  }

  /** A text whose only `(` is at `open`, with its first `)` after it at `close`, has exactly one match. */
  lemma OneGroupAt(s: string, open: nat, close: nat)
    requires open + 1 < close < |s| && s[open] == '(' && s[close] == ')'
    requires forall i :: 0 <= i < open ==> s[i] != '('
    requires forall i :: open < i < close ==> s[i] != ')'
    requires forall i :: close < i < |s| ==> s[i] != '('
    ensures Groups(s) == [Group(s[open..close + 1], s[open + 1..close])]
  {
    SpansNone(s, close + 1);
    SpanAfter(s, 0, open, close, []);
    assert [Span(open, close)] + [] == [Span(open, close)];
  }

  /** A text with one group and no other `(` has exactly that group as its only match. */
  lemma GroupsSingle(pre: string, inner: string, post: string)
    requires NoChar(pre, '(') && NoChar(post, '(') && inner != [] && NoChar(inner, ')')
    ensures Groups(pre + "(" + inner + ")" + post) == [Group("(" + inner + ")", inner)]
  {
    var s := pre + "(" + inner + ")" + post;
    var open, close := |pre|, |pre| + 1 + |inner|;
    forall i | 0 <= i < open ensures s[i] != '(' {
      assert s[i] == pre[i];
    }
    forall i | open < i < close ensures s[i] != ')' {
      assert s[i] == inner[i - open - 1];
    }
    forall i | close < i < |s| ensures s[i] != '(' {
      assert s[i] == post[i - close - 1];
    }
    OneGroupAt(s, open, close);
    ParenSlices(pre, inner, post);
  }

  /** Replacing the first occurrence of a group's text in a text where it is preceded by no `(` replaces that group. */
  lemma ReplaceGroup(pre: string, inner: string, post: string, rep: string)
    requires NoChar(pre, '(')
    ensures ReplaceFirst(pre + "(" + inner + ")" + post, "(" + inner + ")", rep) == pre + rep + post
  {
    var s := pre + "(" + inner + ")" + post;
    var g := "(" + inner + ")";
    assert s[|pre|..|pre| + |g|] == g;
    forall j: nat | j < |pre| ensures !OccursAt(s, g, j) {
      assert s[j] == pre[j];
    }
    assert FirstAt(s, g, |pre|);
    assert s[..|pre|] == pre;
    assert s[|pre| + |g|..] == post;
  }

  /** A text whose only `(`s are at `o1` and `o2`, each with its first following `)` at `c1` and `c2`, has exactly these two matches. */
  lemma TwoMatchesAt(s: string, o1: nat, c1: nat, o2: nat, c2: nat)
    requires o1 + 1 < c1 < o2 && o2 + 1 < c2 < |s|
    requires s[o1] == '(' && s[c1] == ')' && s[o2] == '(' && s[c2] == ')'
    requires forall i :: 0 <= i < o1 ==> s[i] != '('
    requires forall i :: o1 < i < c1 ==> s[i] != ')'
    requires forall i :: c1 < i < o2 ==> s[i] != '('
    requires forall i :: o2 < i < c2 ==> s[i] != ')'
    requires forall i :: c2 < i < |s| ==> s[i] != '('
    ensures SpansFrom(s, 0) == [Span(o1, c1), Span(o2, c2)]
  {
    var a, b := Span(o1, c1), Span(o2, c2);
    SpansNone(s, c2 + 1);
    SpanAfter(s, c1 + 1, o2, c2, []);
    SpanAfter(s, 0, o1, c1, [b]);
    assert [a] + [b] == [a, b];
  }

  /** Where the parentheses of `pre(x)mid(y)post` are, and that no other `(` and no `)` inside a group occurs. */
  lemma TwoGroupsLayout(pre: string, x: string, mid: string, y: string, post: string)
    requires NoChar(pre, '(') && NoChar(mid, '(') && NoChar(post, '(') && NoChar(x, ')') && NoChar(y, ')')
    ensures var s, o1 := pre + "(" + x + ")" + mid + "(" + y + ")" + post, |pre|;
      var c1 := o1 + 1 + |x|;
      var o2 := c1 + 1 + |mid|;
      var c2 := o2 + 1 + |y|;
      c2 < |s| && s[o1] == '(' && s[c1] == ')' && s[o2] == '(' && s[c2] == ')'
      && (forall i :: 0 <= i < o1 ==> s[i] != '(')
      && (forall i :: o1 < i < c1 ==> s[i] != ')')
      && (forall i :: c1 < i < o2 ==> s[i] != '(')
      && (forall i :: o2 < i < c2 ==> s[i] != ')')
      && (forall i :: c2 < i < |s| ==> s[i] != '(')
  {
    var s := pre + "(" + x + ")" + mid + "(" + y + ")" + post;
    var o1 := |pre|;
    var c1 := o1 + 1 + |x|;
    var o2 := c1 + 1 + |mid|;
    var c2 := o2 + 1 + |y|;
    forall i | 0 <= i < o1 ensures s[i] != '(' {
      assert s[i] == pre[i];
    }
    forall i | o1 < i < c1 ensures s[i] != ')' {
      assert s[i] == x[i - o1 - 1];
    }
    forall i | c1 < i < o2 ensures s[i] != '(' {
      assert s[i] == mid[i - c1 - 1];
    }
    forall i | o2 < i < c2 ensures s[i] != ')' {
      assert s[i] == y[i - o2 - 1];
    }
    forall i | c2 < i < |s| ensures s[i] != '(' {
      assert s[i] == post[i - c2 - 1];
    }
  }

  /** `pre(x)mid(y)post`, with no other `(`, has exactly the matches `(x)` and `(y)`, in this order. */
  lemma GroupsTwo(pre: string, x: string, mid: string, y: string, post: string)
    requires NoChar(pre, '(') && NoChar(mid, '(') && NoChar(post, '(')
    requires x != [] && NoChar(x, ')') && y != [] && NoChar(y, ')')
    ensures var groups := Groups(pre + "(" + x + ")" + mid + "(" + y + ")" + post);
      |groups| == 2 && groups[0] == Group("(" + x + ")", x) && groups[1] == Group("(" + y + ")", y)
  {
    var s := pre + "(" + x + ")" + mid + "(" + y + ")" + post;
    var o1 := |pre|;
    var c1 := o1 + 1 + |x|;
    var o2 := c1 + 1 + |mid|;
    var c2 := o2 + 1 + |y|;
    TwoGroupsLayout(pre, x, mid, y, post);
    FirstGroupSlices(pre, x, mid, y, post);
    SecondGroupSlices(pre, x, mid, y, post);
    TwoMatchesAt(s, o1, c1, o2, c2);
    var groups := Groups(s);
    assert groups[0] == GroupAt(s, Span(o1, c1));
    assert groups[1] == GroupAt(s, Span(o2, c2));
  }

  /** The matched text and inner text of the first group of `pre(x)mid(y)post`, as slices. */
  lemma FirstGroupSlices(pre: string, x: string, mid: string, y: string, post: string)
    ensures var s, o1 := pre + "(" + x + ")" + mid + "(" + y + ")" + post, |pre|;
      var c1 := o1 + 1 + |x|;
      s[o1..c1 + 1] == "(" + x + ")" && s[o1 + 1..c1] == x
  {
    var rest := mid + "(" + y + ")" + post;
    assert pre + "(" + x + ")" + mid + "(" + y + ")" + post == pre + "(" + x + ")" + rest;
    ParenSlices(pre, x, rest);
  }

  /** The matched text and inner text of the second group of `pre(x)mid(y)post`, as slices. */
  lemma SecondGroupSlices(pre: string, x: string, mid: string, y: string, post: string)
    ensures var s, o2 := pre + "(" + x + ")" + mid + "(" + y + ")" + post, |pre| + |x| + |mid| + 2;
      var c2 := o2 + 1 + |y|;
      s[o2..c2 + 1] == "(" + y + ")" && s[o2 + 1..c2] == y
  {
    ParenSlices(pre + "(" + x + ")" + mid, y, post);
  }

  /** In `a(x)b`, the group and its inner text as slices. */
  lemma ParenSlices(a: string, x: string, b: string)
    ensures (a + "(" + x + ")" + b)[|a|..|a| + |x| + 2] == "(" + x + ")"
    ensures (a + "(" + x + ")" + b)[|a| + 1..|a| + 1 + |x|] == x
  {
    Middle(a, "(" + x + ")", b);
    Middle(a + "(", x, ")" + b);
    assert a + "(" + x + ")" + b == a + "(" + x + (")" + b);
  }

  /** Two counts and two matches: the two substitutions, one after the other. */
  lemma PluralsOfTwo(args: seq<Arg>, s: string, n: int, m: int, g1: Group, g2: Group)
    requires Nums(args) == [n, m] && |Groups(s)| == 2 && Groups(s)[0] == g1 && Groups(s)[1] == g2
    ensures PluralsOf(args, s)
      == ReplaceFirst(ReplaceFirst(s, g1.original, Choose(n, g1.inner)), g2.original, Choose(m, g2.inner))
  {
    var groups := Groups(s);
    assert PluralsOf(args, s) == Steps(s, [n, m], groups, 2);
    assert Steps(s, [n, m], groups, 1) == ReplaceFirst(s, g1.original, Choose(n, g1.inner));
  }

  /**
   * Two counts and `pre(x)mid(y)post`: each group is replaced by the form its
   * own count selects, in order; `x` and `y` may be the same text.
   */
  lemma PluralsTwoGroups(args: seq<Arg>, n: int, m: int, pre: string, x: string, mid: string, y: string, post: string)
    requires Nums(args) == [n, m]
    requires NoChar(pre, '(') && NoChar(mid, '(') && NoChar(post, '(')
    requires x != [] && NoChar(x, ')') && NoChar(x, '(') && y != [] && NoChar(y, ')')
    ensures PluralsOf(args, pre + "(" + x + ")" + mid + "(" + y + ")" + post)
      == pre + Choose(n, x) + mid + Choose(m, y) + post
  {
    var s := pre + "(" + x + ")" + mid + "(" + y + ")" + post;
    var cx, cy := Choose(n, x), Choose(m, y);
    var g1, g2 := Group("(" + x + ")", x), Group("(" + y + ")", y);
    GroupsTwo(pre, x, mid, y, post);
    PluralsOfTwo(args, s, n, m, g1, g2);
    ChooseNoChar(n, x, '(');
    ReplaceTwo(pre, x, mid, y, post, cx, cy);
  }

  /** Replacing `(x)` and then `(y)` in `pre(x)mid(y)post` hits the two groups when no other `(` comes before them. */
  lemma ReplaceTwo(pre: string, x: string, mid: string, y: string, post: string, cx: string, cy: string)
    requires NoChar(pre, '(') && NoChar(cx, '(') && NoChar(mid, '(')
    ensures ReplaceFirst(ReplaceFirst(pre + "(" + x + ")" + mid + "(" + y + ")" + post, "(" + x + ")", cx), "(" + y + ")", cy)
      == pre + cx + mid + cy + post
  {
    var tail := mid + "(" + y + ")" + post;
    TwoShape(pre, x, mid, y, post, cx);
    ReplaceGroup(pre, x, tail, cx);
    NoCharConcat(pre, cx, '(');
    NoCharConcat(pre + cx, mid, '(');
    ReplaceGroup(pre + cx + mid, y, post, cy);
  }

  /** The ways `ReplaceTwo` reads its texts. */
  lemma TwoShape(pre: string, x: string, mid: string, y: string, post: string, cx: string)
    ensures var tail := mid + "(" + y + ")" + post;
      pre + "(" + x + ")" + mid + "(" + y + ")" + post == pre + "(" + x + ")" + tail
      && pre + cx + tail == pre + cx + mid + "(" + y + ")" + post
  {
  }

  /**
   * Each substitution replaces the first literal occurrence of a match's text,
   * which need not be that match: in `(()y)t(y)` (the first group's inner text
   * is `(`) with counts `n` ≠ 1 and `m`, the first replacement turns `(()` into
   * `(`, which forms a new `(y)` in front, and the second count replaces that
   * one instead of the group at the end.
   */
  lemma PluralsRetarget(n: int, m: int, inner: string, y: string, t: string)
    requires inner == "(" && n != 1 && y != [] && NoChar(y, '(') && NoChar(y, ')') && NoChar(t, '(')
    ensures PluralsOf([Num(n), Num(m)], "(" + inner + ")" + y + ")" + t + "(" + y + ")")
      == Choose(m, y) + t + "(" + y + ")"
  {
    var s := "(" + inner + ")" + y + ")" + t + "(" + y + ")";
    var g1, g2 := Group("(" + inner + ")", inner), Group("(" + y + ")", y);
    RetargetGroups(inner, y, t);
    assert Nums([Num(n), Num(m)]) == [n, m];
    PluralsOfTwo([Num(n), Num(m)], s, n, m, g1, g2);
    ChooseOneForm(n, inner);
    RetargetReplace("(", ")", y, t, Choose(m, y));
  }

  /** The matches of `(()y)t(y)` are `(()`, capturing `(`, and `(y)`. */
  lemma RetargetGroups(inner: string, y: string, t: string)
    requires inner == "(" && y != [] && NoChar(y, '(') && NoChar(y, ')') && NoChar(t, '(')
    ensures var groups := Groups("(" + inner + ")" + y + ")" + t + "(" + y + ")");
      |groups| == 2 && groups[0] == Group("(" + inner + ")", inner) && groups[1] == Group("(" + y + ")", y)
  {
    var mid := y + ")" + t;
    assert NoChar(mid, '(') by {
      NoCharConcat(y, ")", '(');
      NoCharConcat(y + ")", t, '(');
    }
    assert "(" + inner + ")" + y + ")" + t + "(" + y + ")" == "" + "(" + inner + ")" + mid + "(" + y + ")" + "";
    GroupsTwo("", inner, mid, y, "");
  }

  /**
   * In `(()y)t(y)` (written with `open` for `(` and `close` for `)`), replacing
   * `(()` by `(` and then `(y)` by `c` gives `c t (y)`.
   */
  lemma RetargetReplace(open: string, close: string, y: string, t: string, c: string)
    ensures ReplaceFirst(ReplaceFirst(open + open + close + y + close + t + open + y + close, open + open + close, open), open + y + close, c)
      == c + t + open + y + close
  {
    RetargetShape(open, close, y, t);
    ReplaceFrontTwice(open + open + close, y + close + t + open + y + close, open, open + y + close, t + open + y + close, c);
  }

  /** The two ways `RetargetReplace` reads its text. */
  lemma RetargetShape(open: string, close: string, y: string, t: string)
    ensures var rest := y + close + t + open + y + close;
      open + open + close + y + close + t + open + y + close == open + open + close + rest
      && open + rest == open + y + close + (t + open + y + close)
  {
  }

  /**
   * When `p` starts the text and its replacement `q` makes the text start
   * with `g`, replacing `p` and then `g` replaces two prefixes.
   */
  lemma ReplaceFrontTwice(p: string, r: string, q: string, g: string, tail: string, c: string)
    requires q + r == g + tail
    ensures ReplaceFirst(ReplaceFirst(p + r, p, q), g, c) == c + tail
  {
    ReplacePrefix(p, r, q);
    ReplacePrefix(g, tail, c);
  }

  /**
   * A text with a single group and one numeric argument `num`: the group is
   * replaced by the form `num` selects and the rest of the text is kept.
   */
  lemma PluralsSingle(args: seq<Arg>, num: int, pre: string, inner: string, post: string)
    requires Nums(args) == [num]
    requires NoChar(pre, '(') && NoChar(post, '(') && inner != [] && NoChar(inner, ')')
    ensures PluralsOf(args, pre + "(" + inner + ")" + post) == pre + Choose(num, inner) + post
  {
    var s := pre + "(" + inner + ")" + post;
    var g := Group("(" + inner + ")", inner);
    GroupsSingle(pre, inner, post);
    assert PluralsOf(args, s) == Steps(s, [num], [g], 1);
    assert Steps(s, [num], [g], 1) == ReplaceFirst(s, g.original, Choose(num, inner));
    ReplaceGroup(pre, inner, post, Choose(num, inner));
  }

  /** One count and a group `(w)` without `|`: the group disappears for 1 and becomes `w` otherwise. */
  lemma PluralsOneForm(num: int, pre: string, w: string, post: string)
    requires NoChar(pre, '(') && NoChar(post, '(') && w != [] && NoChar(w, ')') && NoChar(w, '|')
    ensures PluralsOf([Num(num)], pre + "(" + w + ")" + post) == pre + (if num == 1 then "" else w) + post
  {
    PluralsSingle([Num(num)], num, pre, w, post);
    ChooseOneForm(num, w);
  }

  /** One count and a group `(a|b)`: the group becomes `a` for 1 and `b` otherwise. */
  lemma PluralsTwoForms(num: int, pre: string, a: string, b: string, post: string)
    requires NoChar(pre, '(') && NoChar(post, '(')
    requires NoChar(a, ')') && NoChar(a, '|') && NoChar(b, ')') && NoChar(b, '|')
    ensures PluralsOf([Num(num)], pre + "(" + a + "|" + b + ")" + post) == pre + (if num == 1 then a else b) + post
  {
    var inner := a + "|" + b;
    assert pre + "(" + a + "|" + b + ")" + post == pre + "(" + inner + ")" + post;
    assert NoChar(inner, ')') by {
      forall i | 0 <= i < |inner| ensures inner[i] != ')' {
        if i < |a| { assert inner[i] == a[i]; }
        else if i > |a| { assert inner[i] == b[i - |a| - 1]; }
      }
    }
    PluralsSingle([Num(num)], num, pre, inner, post);
    ChooseTwoForms(num, a, b);
  }

  /** `You have ${n} item(s)` with n = 1 gives "You have 1 item". */
  lemma ItemSingular(text: string)
    requires text == "You have 1 item(s)"
    ensures PluralsOf([Num(1)], text) == "You have 1 item"
  {
    assert text == "You have 1 item" + "(" + "s" + ")" + "";
    PluralsOneForm(1, "You have 1 item", "s", "");
  }

  /** `You have ${n} item(s)` with n = 2 gives "You have 2 items". */
  lemma ItemPlural(text: string)
    requires text == "You have 2 item(s)"
    ensures PluralsOf([Num(2)], text) == "You have 2 items"
  {
    assert text == "You have 2 item" + "(" + "s" + ")" + "";
    PluralsOneForm(2, "You have 2 item", "s", "");
  }

  /** `${n} Betr(ag|äge)` with n = 1 gives "1 Betrag". */
  lemma BetragSingular(text: string)
    requires text == "1 Betr(ag|äge)"
    ensures PluralsOf([Num(1)], text) == "1 Betrag"
  {
    assert text == "1 Betr" + "(" + "ag" + "|" + "äge" + ")" + "" by { }
    assert NoChar("1 Betr", '(') && NoChar("", '(') by { }
    assert NoChar("ag", ')') && NoChar("ag", '|') && NoChar("äge", ')') && NoChar("äge", '|') by { }
    PluralsTwoForms(1, "1 Betr", "ag", "äge", "");
  }

  /** `${n} Betr(ag|äge)` with n = 2 gives "2 Beträge". */
  lemma BetragPlural(text: string)
    requires text == "2 Betr(ag|äge)"
    ensures PluralsOf([Num(2)], text) == "2 Beträge"
  {
    assert text == "2 Betr" + "(" + "ag" + "|" + "äge" + ")" + "" by { }
    assert NoChar("2 Betr", '(') && NoChar("", '(') by { }
    assert NoChar("ag", ')') && NoChar("ag", '|') && NoChar("äge", ')') && NoChar("äge", '|') by { }
    PluralsTwoForms(2, "2 Betr", "ag", "äge", "");
  }

  /** The source text of the plural adapter, which its error message would quote. */
  const PluralsSource: string := "function plurals({ args, before }) {"

  /** The plural adapter as registered: it returns `PluralsOf` its context and never throws. */
  const PluralsAdapter: Adapter<FunctionContext> :=
    Adapter(PluralsSource, (c: FunctionContext) => Returned(PluralsOf(c.args, c.before)))

  /** The plural adapter never throws, so it never logs. */
  lemma PluralsNeverThrows(context: string -> FunctionContext)
    ensures NeverThrows(PluralsAdapter, context)
  {
  }
}

/**
 * Language detection of internal/detection.ts: choosing a language from an
 * ordered list of candidates, and reading a cookie out of a cookie string.
 */
module Detection {
  import opened Wrappers
  import opened Text
  import opened Settings

  /**
   * The Accept-Language matcher (section 12.5.4 of RFC 9110): for a header
   * value and the available codes, the best match, if any.
   */
  type Matcher = (string, seq<string>) -> Option<string>

  /** The candidates that are strings, in their order (`accepts.filter(v => typeof v === "string")`). */
  function Attempts(accepts: seq<Option<string>>): (attempts: seq<string>)
    ensures |attempts| <= |accepts|
  {
    if accepts == [] then []
    else Attempts(accepts[..|accepts| - 1]) + (if accepts[|accepts| - 1].Some? then [accepts[|accepts| - 1].value] else [])
  }

  /** Exactly the string candidates are attempted. */
  lemma {:induction false} AttemptsAreStrings(accepts: seq<Option<string>>)
    ensures forall s :: s in Attempts(accepts) <==> Some(s) in accepts
    decreases |accepts|
  {
    if accepts != [] {
      var init := accepts[..|accepts| - 1];
      AttemptsAreStrings(init);
      assert accepts == init + [accepts[|accepts| - 1]];
    }
  }

  /** Filtering two candidate lists one after the other keeps their order. */
  lemma {:induction false} AttemptsAppend(a: seq<Option<string>>, b: seq<Option<string>>)
    ensures Attempts(a + b) == Attempts(a) + Attempts(b)
    decreases |b|
  {
    if b == [] {
      assert a + b == a;
    } else {
      assert (a + b)[..|a + b| - 1] == a + b[..|b| - 1];
      AttemptsAppend(a, b[..|b| - 1]);
    }
  }

  /** The best match of the first attempt that has one, and the default language when none has. */
  function FirstMatch(attempts: seq<string>, available: seq<string>, matcher: Matcher): string
    decreases |attempts|
  {
    if attempts == [] then DefaultLang
    else match matcher(attempts[0], available)
      case Some(best) => best
      case None => FirstMatch(attempts[1..], available, matcher)
  }

  /**
   * `resolveLangCode`: the attempts are tried in order and the first match
   * wins. `available` is what `getAvailableLanguages` returns.
   */
  method ResolveLangCode(accepts: seq<Option<string>>, available: seq<string>, matcher: Matcher) returns (code: string)
    ensures code == FirstMatch(Attempts(accepts), available, matcher)
  {
    var attempts := Attempts(accepts);
    for i := 0 to |attempts|
      invariant FirstMatch(attempts[i..], available, matcher) == FirstMatch(attempts, available, matcher)
    {
      assert attempts[i..][1..] == attempts[i + 1..];
      var res := matcher(attempts[i], available);
      if res.Some? {
        return res.value;
      }
    }
    return DefaultLang;
  }

  /** The first attempt with a match decides, whatever the later attempts would give. */
  lemma {:induction false} FirstMatchWins(attempts: seq<string>, available: seq<string>, matcher: Matcher, k: nat)
    requires k < |attempts| && matcher(attempts[k], available).Some?
    requires forall j :: 0 <= j < k ==> matcher(attempts[j], available).None?
    ensures FirstMatch(attempts, available, matcher) == matcher(attempts[k], available).value
    decreases k
  {
    if k > 0 {
      FirstMatchWins(attempts[1..], available, matcher, k - 1);
    }
  }

  /** With no attempt matching, the default language is chosen. */
  lemma {:induction false} NoMatchDefault(attempts: seq<string>, available: seq<string>, matcher: Matcher)
    requires forall j :: 0 <= j < |attempts| ==> matcher(attempts[j], available).None?
    ensures FirstMatch(attempts, available, matcher) == DefaultLang
    decreases |attempts|
  {
    if attempts != [] {
      NoMatchDefault(attempts[1..], available, matcher);
    }
  }

  /** The result is the default language or the best match the matcher gave for one of the attempts. */
  lemma {:induction false} MatchOrDefault(attempts: seq<string>, available: seq<string>, matcher: Matcher)
    ensures var r := FirstMatch(attempts, available, matcher);
      r == DefaultLang || exists i :: 0 <= i < |attempts| && matcher(attempts[i], available) == Some(r)
    decreases |attempts|
  {
    if attempts != [] && matcher(attempts[0], available).None? {
      MatchOrDefault(attempts[1..], available, matcher);
      var r := FirstMatch(attempts, available, matcher);
      if r != DefaultLang {
        var i :| 0 <= i < |attempts[1..]| && matcher(attempts[1..][i], available) == Some(r);
        assert matcher(attempts[i + 1], available) == Some(r);
      }
    }
  }

  /** The separator in front of a cookie called `name`. */
  function CookieSeparator(name: string): string {
    "; " + name + "="
  }

  /** Where a cookie's value starts: after the last `; name=` of `"; " + cookie`, or at 0 when there is none. */
  function CookieStart(cookie: string, name: string): nat {
    LastStart("; " + cookie, CookieSeparator(name), 0)
  }

  /** What follows the last `; name=` of `"; " + cookie` (all of it when there is none). */
  function CookieRest(cookie: string, name: string): string {
    ("; " + cookie)[CookieStart(cookie, name)..]
  }

  /**
   * `getCookie(name)` over the cookie string: the text after the last
   * `; name=` in `"; " + cookie`, up to the next `;`, or nothing when that
   * text is empty.
   */
  function GetCookie(cookie: string, name: string): (r: Option<string>)
    ensures r.Some? ==> r.value != "" && Free(r.value, ";")
  {
    var last := LastPiece("; " + cookie, CookieSeparator(name));
    var value := Split(last, ";")[0];
    SplitFromPiecesFree(last, ";", 0);
    if value == "" then None else Some(value)
  }

  /** A cookie that is not set reads as nothing. */
  lemma CookieAbsent(cookie: string, name: string)
    requires Free("; " + cookie, CookieSeparator(name))
    ensures GetCookie(cookie, name) == None
  {
    var s, sep := "; " + cookie, CookieSeparator(name);
    IndexOfLeftmost(s, sep);
    LastPieceAt(s, sep, 0);
    assert LastPiece(s, sep) == s;
    assert s[0..1] == ";";
    assert IndexFrom(s, ";", 0) == Some(0);
  }

  /**
   * A cookie reads as nothing exactly when the text after the last
   * `; name=` is empty or starts with `;`, which includes the case where
   * `; name=` does not occur (the text is then `"; " + cookie` itself).
   */
  lemma CookieUndefined(cookie: string, name: string)
    ensures var rest := CookieRest(cookie, name);
      GetCookie(cookie, name).None? <==> rest == [] || rest[0] == ';'
  {
    var s, sep := "; " + cookie, CookieSeparator(name);
    var rest := CookieRest(cookie, name);
    LastPieceAt(s, sep, 0);
    assert LastPiece(s, sep) == rest;
    OccursChar(rest, ';', 0);
    match IndexFrom(rest, ";", 0)
    case None =>
    case Some(k) =>
      if k == 0 {
        assert rest[0..0] == "";
      } else {
        assert rest[0..k] != "";
      }
  }

  /**
   * A cookie that reads as a value: the value is non-empty, has no `;`, and is
   * what follows the last `; name=` up to the next `;` or the end.
   */
  lemma CookieValue(cookie: string, name: string)
    requires GetCookie(cookie, name).Some?
    ensures var v, rest := GetCookie(cookie, name).value, CookieRest(cookie, name);
      v != "" && Free(v, ";") && v <= rest && (|v| == |rest| || rest[|v|] == ';')
  {
    var s, sep := "; " + cookie, CookieSeparator(name);
    var rest := CookieRest(cookie, name);
    LastPieceAt(s, sep, 0);
    assert LastPiece(s, sep) == rest;
    var v := GetCookie(cookie, name).value;
    assert Split(rest, ";")[0] == v;
    match IndexFrom(rest, ";", 0)
    case None =>
    case Some(k) =>
      assert v == rest[0..k];
      OccursChar(rest, ';', k);
  }

  /**
   * A cookie that reads as a value starts right after an occurrence of
   * `; name=`, and no other occurrence begins after it.
   */
  lemma CookiePosition(cookie: string, name: string)
    requires GetCookie(cookie, name).Some?
    ensures var s, sep, p := "; " + cookie, CookieSeparator(name), CookieStart(cookie, name);
      |sep| <= p && OccursAt(s, sep, p - |sep|) && forall j: nat :: p <= j ==> !OccursAt(s, sep, j)
  {
    var s, sep := "; " + cookie, CookieSeparator(name);
    LastPieceAt(s, sep, 0);
    if CookieStart(cookie, name) == 0 {
      CookieUndefined(cookie, name);
      assert false;
    }
    LastStartAfterSeparator(s, sep, 0);
    LastPieceFree(s, sep, 0);
  }

  /** A cookie string holding the one cookie `name=v` reads as `v`, for a non-empty `v` without `;` and a name without `;`. */
  lemma CookieSingle(name: string, v: string)
    requires v != [] && NoChar(v, ';') && NoChar(name, ';')
    ensures GetCookie(name + "=" + v, name) == Some(v)
  {
    var s, sep := "; " + (name + "=" + v), CookieSeparator(name);
    assert s == sep + v;
    assert s[0..|sep|] == sep;
    IndexFromIs(s, sep, 0, Some(0));
    forall j: nat | |sep| <= j ensures !OccursAt(s, sep, j) {
      if j < |s| {
        assert s[j] == v[j - |sep|];
      }
    }
    IndexFromIs(s, sep, |sep|, None);
    LastStartStep(s, sep, 0, 0);
    LastPieceAt(s, sep, 0);
    assert s[|sep|..] == v;
    SplitNoSeparator(v, ';');
  }
}

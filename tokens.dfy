/** src/utils/token.js: cleaning a raw token value and picking the first usable token out of
    a request's headers, body and query string. */
module Tokens {
  import opened Text
  import opened JsValues

  /** The test of the pattern `^Bearer\s*` with the `i` flag: the text starts with "bearer" in any ASCII letter case (the
      `\s*` matches the empty string too).  Without the `u` flag, case folding relates ASCII
      letters only. */
  predicate HasBearerPrefix(t: string) {
    |t| >= 6 && IsBearerWord(t[..6])
  }

  predicate IsBearerWord(w: string) {
    |w| == 6 && AsciiLower(w[0]) == 'b' && AsciiLower(w[1]) == 'e' && AsciiLower(w[2]) == 'a'
    && AsciiLower(w[3]) == 'r' && AsciiLower(w[4]) == 'e' && AsciiLower(w[5]) == 'r'
  }

  /** Replacing that pattern by "" and trimming, on a text with the prefix: the white space the
      `\s*` consumes is also white space for `trim`, so this is trimming what follows the word. */
  function DropBearer(t: string): (r: string)
    requires HasBearerPrefix(t)
    ensures |r| < |t|
  {
    Trim(t[6..])
  }

  /** The effect of lines 12-15 on a trimmed text: the prefix is removed as long as there is
      one. */
  function StripBearers(t: string): string
    decreases |t|
  {
    if HasBearerPrefix(t) then StripBearers(DropBearer(t)) else t
  }

  /** `/^"(.*)"$/`: a double quote at both ends (two different characters) and no line
      terminator in between, since `.` does not match one. */
  predicate Quoted(t: string) {
    |t| >= 2 && t[0] == '"' && t[|t| - 1] == '"'
    && forall i :: 1 <= i < |t| - 1 ==> !IsLineTerminator(t[i])
  }

  /** `t.replace(/^"(.*)"$/, "$1").trim()`. */
  function Unquote(t: string): string {
    if Quoted(t) then Trim(t[1..|t| - 1]) else Trim(t)
  }

  /** `cleanToken(rawValue)`. */
  function CleanToken(raw: Value): string {
    if !raw.Str? then ""
    else
      var t := Trim(raw.s);
      if t == "" then "" else Unquote(StripBearers(t))
  }

  lemma TrimIdempotent(s: string)
    ensures Trim(Trim(s)) == Trim(s)
  {
    TrimBothEnds(s);
    TrimOfTrimmed(Trim(s));
  }

  /** `cleanToken` as written: trim, strip one prefix, strip again while one is left, unquote. */
  method Clean(raw: Value) returns (token: string)
    ensures token == CleanToken(raw)
  {
    if !raw.Str? {
      return "";
    }
    token := Trim(raw.s);
    if token == "" {
      return "";
    }
    ghost var t := token;
    assert CleanToken(raw) == Unquote(StripBearers(t));
    if HasBearerPrefix(token) {
      token := Trim(token[6..]);
    } else {
      TrimIdempotent(raw.s);
      token := Trim(token);
    }
    assert StripBearers(token) == StripBearers(t);
    while HasBearerPrefix(token)
      invariant StripBearers(token) == StripBearers(t)
      decreases |token|
    {
      token := Trim(token[6..]);
    }
    token := Unquote(token);
  }

  // ---------------------------------------------------------------------------------------
  // Properties of the cleaned token

  /** The cleaned token never starts or ends with white space. */
  lemma CleanTokenIsTrimmed(raw: Value)
    ensures var r := CleanToken(raw);
      r != [] ==> !IsJsSpace(r[0]) && !IsJsSpace(r[|r| - 1])
  {
    if raw.Str? && Trim(raw.s) != "" {
      var u := StripBearers(Trim(raw.s));
      if Quoted(u) {
        TrimBothEnds(u[1..|u| - 1]);
      } else {
        TrimBothEnds(u);
      }
    }
  }

  /** A text made of white space only trims to the empty string. */
  lemma {:induction false} TrimOfSpaces(s: string)
    requires forall i :: 0 <= i < |s| ==> IsJsSpace(s[i])
    ensures TrimStart(s) == "" && Trim(s) == ""
  {
    if s != [] {
      TrimOfSpaces(s[1..]);
    }
  }

  /** Values that are not strings, and strings of white space only, clean to "". */
  lemma CleanTokenEmpty(raw: Value)
    requires !raw.Str? || forall i :: 0 <= i < |raw.s| ==> IsJsSpace(raw.s[i])
    ensures CleanToken(raw) == ""
  {
    if raw.Str? {
      TrimOfSpaces(raw.s);
    }
  }

  /** No prefix is left once StripBearers is done. */
  lemma {:induction false} StripBearersLeavesNoPrefix(t: string)
    ensures !HasBearerPrefix(StripBearers(t))
    decreases |t|
  {
    if HasBearerPrefix(t) {
      StripBearersLeavesNoPrefix(DropBearer(t));
    }
  }

  /** Stripping one leading "Bearer" (with any white space after it) by hand changes nothing:
      the cleaner removes every such prefix, however malformed ("Bearerabc"). */
  lemma CleanTokenIgnoresBearer(s: string)
    requires HasBearerPrefix(Trim(s))
    ensures CleanToken(Str(s)) == CleanToken(Str(Trim(s)[6..]))
  {
    var t := Trim(s);
    var u := t[6..];
    assert StripBearers(t) == StripBearers(Trim(u));
    if Trim(u) == "" {
      assert StripBearers(Trim(u)) == "";
    }
  }

  /** A token without white space at its ends, without the prefix and without wrapping quotes
      comes out unchanged. */
  lemma CleanTokenOfPlainToken(x: string)
    requires x != [] && !IsJsSpace(x[0]) && !IsJsSpace(x[|x| - 1])
    requires !HasBearerPrefix(x) && !Quoted(x)
    ensures CleanToken(Str(x)) == x
  {
    TrimOfTrimmed(x);
  }

  /** One leading "Bearer" in any letter case, glued to the token or followed by white
      space, is removed: "Bearerabc" and "bearer   abc" both clean as "abc" does. */
  lemma CleanTokenOfBearerToken(w: string, x: string)
    requires IsBearerWord(w)
    requires x != [] && !IsJsSpace(x[|x| - 1])
    ensures CleanToken(Str(w + x)) == CleanToken(Str(x))
  {
    var p := w + x;
    assert Trim(p) == p by {
      assert p[0] == w[0] && p[|p| - 1] == x[|x| - 1];
      TrimOfTrimmed(p);
    }
    assert HasBearerPrefix(p) by {
      assert p[..6] == w;
    }
    assert p[6..] == x;
    CleanTokenIgnoresBearer(p);
  }

  /** Wrapping quotes are removed once, after the prefixes: the text inside is only trimmed.
      So a quoted "Bearer abc" keeps its prefix, and a doubly quoted token keeps the inner
      pair of quotes. */
  lemma CleanTokenUnquotesOnce(x: string)
    requires forall i :: 0 <= i < |x| ==> !IsLineTerminator(x[i])
    ensures CleanToken(Str("\"" + x + "\"")) == Trim(x)
  {
    var q := "\"" + x + "\"";
    assert q[0] == '"' && q[|q| - 1] == '"';
    TrimOfTrimmed(q);
    assert StripBearers(q) == q;
    assert q[1..|q| - 1] == x;
    assert Quoted(q) by {
      forall i | 1 <= i < |q| - 1 ensures !IsLineTerminator(q[i]) {
        assert q[i] == x[i - 1];
      }
    }
  }

  /** A line terminator inside the quotes stops `.` from matching, so the quotes stay. */
  lemma CleanTokenKeepsQuotesAroundLineBreak(x: string, y: string)
    ensures !Quoted("\"" + x + "\n" + y + "\"")
  {
    var q := "\"" + x + "\n" + y + "\"";
    assert q[|x| + 1] == '\n';
  }

  // ---------------------------------------------------------------------------------------
  // extractAccessToken / extractRefreshToken

  /** The first non-empty f(x) over xs in order, or "" when there is none. */
  function FirstBy<T>(xs: seq<T>, f: T -> string): string {
    if xs == [] then ""
    else if f(xs[0]) != "" then f(xs[0])
    else FirstBy(xs[1..], f)
  }

  /** The cleaned value of the first candidate that cleans to a non-empty token, else "". */
  function FirstToken(candidates: seq<Value>): string {
    FirstBy(candidates, CleanToken)
  }

  lemma {:induction false} FirstByChoice<T>(xs: seq<T>, f: T -> string)
    ensures FirstBy(xs, f) == "" <==> forall i :: 0 <= i < |xs| ==> f(xs[i]) == ""
    ensures FirstBy(xs, f) != "" ==>
      exists i :: 0 <= i < |xs| && FirstBy(xs, f) == f(xs[i]) && forall j :: 0 <= j < i ==> f(xs[j]) == ""
  {
    if xs == [] {
    } else if f(xs[0]) != "" {
      assert FirstBy(xs, f) == f(xs[0]);
    } else {
      var rest := xs[1..];
      FirstByChoice(rest, f);
      assert forall i :: 1 <= i < |xs| ==> xs[i] == rest[i - 1];
      if FirstBy(rest, f) != "" {
        var k :| 0 <= k < |rest| && FirstBy(rest, f) == f(rest[k]) && forall j :: 0 <= j < k ==> f(rest[j]) == "";
        assert FirstBy(xs, f) == f(xs[k + 1]);
        assert forall j :: 0 <= j < k + 1 ==> f(xs[j]) == "";
      }
    }
  }

  lemma {:induction false} FirstByPicksEarliest<T>(xs: seq<T>, f: T -> string, i: int)
    requires 0 <= i < |xs| && f(xs[i]) != ""
    requires forall j :: 0 <= j < i ==> f(xs[j]) == ""
    ensures FirstBy(xs, f) == f(xs[i])
  {
    if i > 0 {
      assert f(xs[0]) == "";
      var rest := xs[1..];
      assert forall j :: 0 <= j < i - 1 ==> rest[j] == xs[j + 1];
      FirstByPicksEarliest(rest, f, i - 1);
    }
  }

  /** FirstToken is empty exactly when every candidate cleans to "", and otherwise it is the
      cleaned value of a candidate all of whose predecessors clean to "". */
  lemma FirstTokenChoice(candidates: seq<Value>)
    ensures FirstToken(candidates) == "" <==> forall i :: 0 <= i < |candidates| ==> CleanToken(candidates[i]) == ""
    ensures FirstToken(candidates) != "" ==>
      exists i :: 0 <= i < |candidates| && FirstToken(candidates) == CleanToken(candidates[i])
                  && forall j :: 0 <= j < i ==> CleanToken(candidates[j]) == ""
  {
    FirstByChoice(candidates, CleanToken);
  }

  /** The `for (const candidate of candidates)` loop: the first candidate that cleans to a
      non-empty token is returned, and "" after the last one. */
  method PickToken(candidates: seq<Value>) returns (token: string)
    ensures token == FirstToken(candidates)
  {
    var i := 0;
    while i < |candidates|
      invariant 0 <= i <= |candidates|
      invariant FirstBy(candidates[i..], CleanToken) == FirstToken(candidates)
    {
      assert candidates[i..][1..] == candidates[i + 1..];
      var t := Clean(candidates[i]);
      if t != "" {
        return t;
      }
      i := i + 1;
    }
    return "";
  }

  /** The parts of a request a token can come from.  A missing body reads as `undefined`, which
      is what `req.body && req.body.x` gives then. */
  datatype Request = Request(headers: map<string, Value>, body: Option<map<string, Value>>,
                             query: map<string, Value>)

  function BodyField(req: Request, k: string): Value {
    if req.body.Some? then Lookup(req.body.value, k) else Undefined
  }

  function AccessCandidates(req: Request): seq<Value> {
    [Lookup(req.headers, "authorization"), Lookup(req.headers, "Authorization"),
     Lookup(req.headers, "x-access-token"), Lookup(req.headers, "x-auth-token"),
     Lookup(req.headers, "token"), BodyField(req, "accessToken"), BodyField(req, "kirishToken"),
     Lookup(req.query, "accessToken")]
  }

  function RefreshCandidates(req: Request): seq<Value> {
    [BodyField(req, "refreshToken"), BodyField(req, "yangilanishToken"),
     Lookup(req.headers, "x-refresh-token"), Lookup(req.headers, "refreshtoken"),
     Lookup(req.query, "refreshToken"), Lookup(req.headers, "authorization")]
  }

  function ExtractAccessToken(req: Request): string {
    FirstToken(AccessCandidates(req))
  }

  function ExtractRefreshToken(req: Request): string {
    FirstToken(RefreshCandidates(req))
  }

  /** A usable candidate wins over every later one. */
  lemma FirstTokenPicksEarliest(candidates: seq<Value>, i: int)
    requires 0 <= i < |candidates| && CleanToken(candidates[i]) != ""
    requires forall j :: 0 <= j < i ==> CleanToken(candidates[j]) == ""
    ensures FirstToken(candidates) == CleanToken(candidates[i])
  {
    FirstByPicksEarliest(candidates, CleanToken, i);
  }

  /** The lower-case Authorization header is read first for access tokens. */
  lemma AccessTokenPrefersAuthorization(req: Request)
    requires CleanToken(Lookup(req.headers, "authorization")) != ""
    ensures ExtractAccessToken(req) == CleanToken(Lookup(req.headers, "authorization"))
  {
    FirstTokenPicksEarliest(AccessCandidates(req), 0);
  }

  /** For refresh tokens the Authorization header is the last resort: it is used when no
      other candidate cleans to a token; when one does, the token is the first of those. */
  lemma RefreshTokenUsesAuthorizationLast(req: Request)
    ensures var c := RefreshCandidates(req);
      (forall i :: 0 <= i < 5 ==> CleanToken(c[i]) == "") ==>
        ExtractRefreshToken(req) == CleanToken(Lookup(req.headers, "authorization"))
    ensures var c := RefreshCandidates(req);
      (exists i :: 0 <= i < 5 && CleanToken(c[i]) != "") ==>
        exists i :: 0 <= i < 5 && CleanToken(c[i]) != "" && ExtractRefreshToken(req) == CleanToken(c[i])
                    && forall j :: 0 <= j < i ==> CleanToken(c[j]) == ""
  {
    var c := RefreshCandidates(req);
    FirstTokenChoice(c);
    if forall i :: 0 <= i < 5 ==> CleanToken(c[i]) == "" {
      if CleanToken(c[5]) != "" {
        FirstTokenPicksEarliest(c, 5);
      }
    }
  }

  /** A refresh token in the body wins over the Authorization header. */
  lemma RefreshTokenPrefersBody(req: Request)
    requires CleanToken(BodyField(req, "refreshToken")) != ""
    ensures ExtractRefreshToken(req) == CleanToken(BodyField(req, "refreshToken"))
  {
    FirstTokenPicksEarliest(RefreshCandidates(req), 0);
  }
}

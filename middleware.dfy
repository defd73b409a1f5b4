/** The three request gates: src/middleware/auth.js (any signed-in user), src/middleware/barber.js
    (barbers and admins) and src/middleware/admin.js (admins).  Each takes the token from the
    Authorization header, has it verified, and either rejects the request with a status code or
    lets it through with `req.user` set.  Signature checking is a parameter: `verify(token)` is
    the payload when `jwt.verify` accepts the token and None when it throws. */
module Middleware {
  import opened Text
  import opened JsValues

  // ---------------------------------------------------------------------------------------
  // `authHeader.split(" ")`

  /** Index of the first space of s, or |s|. */
  function SpaceAt(s: string): (k: nat)
    ensures k <= |s| && (k < |s| ==> s[k] == ' ')
    ensures forall i :: 0 <= i < k ==> s[i] != ' '
  {
    if s == [] || s[0] == ' ' then 0 else 1 + SpaceAt(s[1..])
  }

  /** `s.split(" ")`: the pieces between single spaces, empty pieces included. */
  function Split(s: string): (parts: seq<string>)
    ensures |parts| >= 1
    decreases |s|
  {
    var k := SpaceAt(s);
    if k == |s| then [s] else [s[..k]] + Split(s[k + 1..])
  }

  /** Joining the pieces with single spaces. */
  function Join(parts: seq<string>): string
    requires |parts| >= 1
  {
    if |parts| == 1 then parts[0] else parts[0] + " " + Join(parts[1..])
  }

  /** The split loses nothing and its pieces hold no space. */
  lemma {:induction false} SplitJoin(s: string)
    ensures Join(Split(s)) == s
    ensures forall i :: 0 <= i < |Split(s)| ==> ' ' !in Split(s)[i]
    decreases |s|
  {
    var k := SpaceAt(s);
    if k < |s| {
      SplitJoin(s[k + 1..]);
      assert s == s[..k] + " " + s[k + 1..];
      var p := Split(s);
      assert p[1..] == Split(s[k + 1..]);
      assert ' ' !in s[..k] by {
        forall i | 0 <= i < k ensures s[..k][i] != ' ' {
        }
      }
    } else {
      assert ' ' !in s by {
        forall i | 0 <= i < |s| ensures s[i] != ' ' {
        }
      }
    }
  }

  /** `const [, token] = (authorization || "").split(" ")`: the second piece, or undefined
      (None) when the header holds no space.  Node always delivers this header as a string. */
  function HeaderToken(authorization: Option<string>): Option<string> {
    var header := if authorization.Some? then authorization.value else "";
    var parts := Split(header);
    if |parts| >= 2 then Some(parts[1]) else None
  }

  lemma {:induction false} SpaceAtOf(w: string, rest: string)
    requires ' ' !in w && (rest == [] || rest[0] == ' ')
    ensures SpaceAt(w + rest) == |w|
    ensures (w + rest)[..|w|] == w
  {
    if w != [] {
      assert (w + rest)[1..] == w[1..] + rest;
      assert w[0] in w;
      assert ' ' !in w[1..] by {
        forall i | 0 <= i < |w[1..]| ensures w[1..][i] != ' ' {
          assert w[1..][i] == w[i + 1] && w[i + 1] in w;
        }
      }
      SpaceAtOf(w[1..], rest);
    }
  }

  lemma SplitOfWord(w: string)
    requires ' ' !in w
    ensures Split(w) == [w]
  {
    SpaceAtOf(w, "");
    assert w + "" == w;
  }

  lemma SplitAtSpace(w: string, rest: string)
    requires ' ' !in w
    ensures Split(w + " " + rest) == [w] + Split(rest)
  {
    var h := w + " " + rest;
    SpaceAtOf(w, " " + rest);
    assert h == w + (" " + rest);
    assert h[|w| + 1..] == rest;
  }

  /** The piece directly after the first space is the token, whatever the word before it:
      the scheme is not checked. */
  lemma HeaderTokenOf(scheme: string, token: string)
    requires ' ' !in scheme && ' ' !in token
    ensures HeaderToken(Some(scheme + " " + token)) == Some(token)
  {
    SplitAtSpace(scheme, token);
    SplitOfWord(token);
  }

  lemma SpacedAssoc(a: string, b: string, c: string)
    ensures a + " " + (b + " " + c) == a + " " + b + " " + c
  {
  }

  lemma DoubleSpaceAssoc(w: string, rest: string)
    ensures w + " " + (" " + rest) == w + "  " + rest && "" + " " + rest == " " + rest
  {
  }

  /** A header that splits into a word, then t, then further pieces yields t. */
  lemma HeaderTokenOfPieces(h: string, w: string, t: string, more: seq<string>)
    requires Split(h) == [w] + ([t] + more)
    ensures HeaderToken(Some(h)) == Some(t)
  {
    assert ([w] + ([t] + more))[1] == t;
  }

  /** Whatever follows a further space is ignored. */
  lemma HeaderTokenIgnoresRest(scheme: string, token: string, rest: string)
    requires ' ' !in scheme && ' ' !in token
    ensures HeaderToken(Some(scheme + " " + token + " " + rest)) == Some(token)
  {
    var tail := token + " " + rest;
    SpacedAssoc(scheme, token, rest);
    SplitAtSpace(token, rest);
    SplitAtSpace(scheme, tail);
    HeaderTokenOfPieces(scheme + " " + tail, scheme, token, Split(rest));
  }

  /** A header without a space yields no token; two spaces in a row yield the empty token. */
  lemma HeaderTokenMissing(word: string, rest: string)
    requires ' ' !in word
    ensures HeaderToken(Some(word)) == None
    ensures HeaderToken(None) == None
    ensures HeaderToken(Some(word + "  " + rest)) == Some("")
  {
    SplitOfWord(word);
    SplitOfWord("");
    DoubleSpaceAssoc(word, rest);
    SplitAtSpace(word, " " + rest);
    SplitAtSpace("", rest);
    HeaderTokenOfPieces(word + " " + (" " + rest), word, "", Split(rest));
  }

  // ---------------------------------------------------------------------------------------
  // Gates

  datatype GateResult = Reject(status: int) | Pass(user: map<string, Value>)

  /** src/middleware/auth.js: the user id is `sub`, or `id` when `sub` is null or undefined;
      `req.user` is the payload with `sub`, `id` and `userId` all set to that id. */
  function AuthGate(authorization: Option<string>, verify: string -> Option<map<string, Value>>): GateResult {
    var token := HeaderToken(authorization);
    if token.None? || token.value == "" then Reject(401)
    else
      var payload := verify(token.value);
      if payload.None? then Reject(401)
      else
        var p := payload.value;
        var id := Coalesce(Lookup(p, "sub"), Lookup(p, "id"));
        if !Truthy(id) then Reject(401)
        else Pass(p["sub" := id]["id" := id]["userId" := id])
  }

  /** The role gate both src/middleware/barber.js and src/middleware/admin.js implement;
      `req.user` is the verified payload as it is. */
  function RoleGate(authorization: Option<string>, verify: string -> Option<map<string, Value>>,
                    allowed: set<string>): GateResult {
    var token := HeaderToken(authorization);
    if token.None? || token.value == "" then Reject(401)
    else
      var payload := verify(token.value);
      if payload.None? then Reject(401)
      else
        var role := Lookup(payload.value, "role");
        if !(role.Str? && role.s in allowed) then Reject(403)
        else Pass(payload.value)
  }

  function BarberGate(authorization: Option<string>, verify: string -> Option<map<string, Value>>): GateResult {
    RoleGate(authorization, verify, {"barber", "admin"})
  }

  function AdminGate(authorization: Option<string>, verify: string -> Option<map<string, Value>>): GateResult {
    RoleGate(authorization, verify, {"admin"})
  }

  /** `req.user.id`: the id the route handlers read from what a gate left. */
  function Caller(user: map<string, Value>): Value {
    Lookup(user, "id")
  }

  /** The id the auth gate settles on. */
  function NormalizedId(payload: map<string, Value>): Value {
    Coalesce(Lookup(payload, "sub"), Lookup(payload, "id"))
  }

  /** The auth gate lets a request through exactly when the header carries a non-empty token
      that verifies and whose payload yields a truthy id; `req.user` then agrees with the payload
      except that `sub`, `id` and `userId` all hold that id. */
  lemma AuthGateSpec(authorization: Option<string>, verify: string -> Option<map<string, Value>>)
    ensures var r := AuthGate(authorization, verify);
      var token := HeaderToken(authorization);
      r.Pass? <==> (token.Some? && token.value != "" && verify(token.value).Some?
                   && Truthy(NormalizedId(verify(token.value).value)))
    ensures var r := AuthGate(authorization, verify);
      r.Reject? ==> r.status == 401
    ensures var r := AuthGate(authorization, verify);
      r.Pass? ==> var p := verify(HeaderToken(authorization).value).value;
        var id := NormalizedId(p);
        r.user["sub"] == id && r.user["id"] == id && r.user["userId"] == id
        && r.user.Keys == p.Keys + {"sub", "id", "userId"}
        && (forall k :: k in p && k != "sub" && k != "id" && k != "userId" ==> r.user[k] == p[k])
  {
  }

  /** `sub` wins over `id`, even when it is falsy but not null or undefined (then the request
      is refused rather than falling back to `id`). */
  lemma AuthGateSubFirst(p: map<string, Value>)
    ensures "sub" in p && p["sub"] != Undefined && p["sub"] != Null ==> NormalizedId(p) == p["sub"]
    ensures "sub" !in p ==> NormalizedId(p) == Lookup(p, "id")
  {
  }

  /** The role gates: 401 without a non-empty verifying token, 403 for a role outside the
      allowed ones, and otherwise through with the payload unchanged as `req.user`. */
  lemma RoleGateSpec(authorization: Option<string>, verify: string -> Option<map<string, Value>>,
                     allowed: set<string>)
    ensures var r := RoleGate(authorization, verify, allowed);
      var token := HeaderToken(authorization);
      (r == Reject(401) <==> token.None? || token.value == "" || verify(token.value).None?)
      && (r == Reject(403) <==> token.Some? && token.value != "" && verify(token.value).Some?
                                && !(Lookup(verify(token.value).value, "role").Str?
                                     && Lookup(verify(token.value).value, "role").s in allowed))
      && (r.Pass? ==> r.user == verify(token.value).value)
  {
  }

  /** Every request the admin gate lets through, the barber gate lets through too. */
  lemma AdminGateImpliesBarberGate(authorization: Option<string>, verify: string -> Option<map<string, Value>>)
    ensures AdminGate(authorization, verify).Pass? ==>
      BarberGate(authorization, verify) == AdminGate(authorization, verify)
  {
  }
}

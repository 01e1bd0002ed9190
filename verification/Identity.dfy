/**
 Two ways to find out who sends a request: the catalog's own middleware, and
 the recommendations service asking the catalog over HTTP.
 */
module Identity {
  import opened Wrappers
  import opened Entities
  import opened Schema
  import opened Catalogs

  /** An absent cookie or header is the empty string. */
  datatype HttpRequest = HttpRequest(cookie: string, authorization: string)

  function LowerByte(c: char): char {
    if 'A' <= c <= 'Z' then ((c as int) + 32) as char else c
  }

  function ToLower(s: string): string {
    seq(|s|, k requires 0 <= k < |s| => LowerByte(s[k]))
  }

  /** strings.Cut(s, " "): the text around the first space. */
  function Cut(s: string): (r: Option<(string, string)>)
    ensures r == None <==> ' ' !in s
    ensures r.Some? ==> s == r.value.0 + [' '] + r.value.1 && ' ' !in r.value.0
  {
    if s == "" then None
    else if s[0] == ' ' then Some(("", s[1..]))
    else
      match Cut(s[1..])
      case None => None
      case Some((before, after)) => Some(([s[0]] + before, after))
  }

  /** The token of a request; "" when there is none of the right form. */
  function RequestToken(request: HttpRequest): (token: string)
    ensures token == "" || |token| == USER_TOKEN_LENGTH
  {
    if |request.cookie| == USER_TOKEN_LENGTH then request.cookie
    else
      match Cut(request.authorization)
      case None => ""
      case Some((prefix, token)) =>
        if ToLower(prefix) != "token" && ToLower(prefix) != "bearer" then ""
        else if |token| != USER_TOKEN_LENGTH then ""
        else token
  }

  datatype Response = Unauthorized | ServerError | Resolved(user: User)

  /** AuthMiddleware */
  ghost function Direct(db: Db, request: HttpRequest): Response {
    var token := RequestToken(request);
    if token == "" then Unauthorized
    else
      match Authenticate(db, token)
      case None => Unauthorized
      case Some(user) => Resolved(user)
  }

  /** The user as JSON: password hash and plaintext are never serialised. */
  function OnTheWire(user: User): User {
    user.(account := user.account.(passwordHash := "", passwordPlaintext := ""))
  }

  /** POST /api/users/token/authenticate */
  ghost function AuthenticateEndpoint(db: Db, request: HttpRequest): Response {
    var token := RequestToken(request);
    if token == "" then Unauthorized
    else
      match Authenticate(db, token)
      case None => ServerError
      case Some(user) => Resolved(OnTheWire(user))
  }

  /** A cookie replaces the Authorization header; only the header is forwarded. */
  function ForwardedRequest(request: HttpRequest): HttpRequest {
    HttpRequest("", if request.cookie != "" then "Token " + request.cookie else request.authorization)
  }

  /** AuthViaCatalogClientMiddleware: any answer but 200 or 201 becomes 401. */
  ghost function ViaCatalog(db: Db, request: HttpRequest): Response {
    match AuthenticateEndpoint(db, ForwardedRequest(request))
    case Resolved(user) => Resolved(user)
    case _ => Unauthorized
  }

  /** What the direct path resolves, as the other service would see it. */
  ghost function Seen(response: Response): Response {
    match response
    case Resolved(user) => Resolved(OnTheWire(user))
    case other => other
  }

  lemma {:induction false} CutAtFirstSpace(before: string, after: string)
    requires ' ' !in before
    ensures Cut(before + [' '] + after) == Some((before, after))
  {
    var s := before + [' '] + after;
    if before != "" {
      CutAtFirstSpace(before[1..], after);
      assert s[1..] == before[1..] + [' '] + after;
      assert [before[0]] + before[1..] == before;
    }
  }

  /**
   Without a cookie of the right length the token is what follows the first
   space of the header, if "token" or "bearer" in any case stands before it.
   A header with no space has no token.
   */
  lemma HeaderToken(request: HttpRequest, prefix: string, token: string)
    requires |request.cookie| != USER_TOKEN_LENGTH
    ensures ' ' !in request.authorization ==> RequestToken(request) == ""
    ensures ' ' !in prefix && request.authorization == prefix + [' '] + token ==>
              RequestToken(request) ==
              if ToLower(prefix) in {"token", "bearer"} && |token| == USER_TOKEN_LENGTH then token else ""
  {
    if ' ' !in prefix && request.authorization == prefix + [' '] + token {
      CutAtFirstSpace(prefix, token);
    }
  }

  /** A forwarded cookie is read back from the header, spaces and all. */
  lemma ForwardedCookie(cookie: string)
    requires cookie != ""
    ensures RequestToken(ForwardedRequest(HttpRequest(cookie, ""))) ==
            if |cookie| == USER_TOKEN_LENGTH then cookie else ""
  {
    assert "Token " + cookie == "Token" + [' '] + cookie;
    assert ToLower("Token") == "token";
    HeaderToken(ForwardedRequest(HttpRequest(cookie, "")), "Token", cookie);
  }

  /** A user in an answer: one the token stands for. */
  lemma DirectExactly(db: Db, request: HttpRequest, user: User)
    requires UniqueUsers(db)
    ensures Direct(db, request) == Resolved(user) <==>
            RequestToken(request) != "" && NamedBy(db, user, RequestToken(request))
  {
    AuthenticateExactly(db, RequestToken(request), user);
  }

  /** The token a request brings to the catalog when it is forwarded. */
  function ForwardedToken(request: HttpRequest): string {
    if |request.cookie| == 16 then request.cookie
    else if request.cookie != "" then ""
    else RequestToken(request)
  }

  /**
   The user the other service sees has the id, name and token of the stored user
   the token stands for, and neither its password nor the hash.
   */
  lemma ForwardedUser(db: Db, request: HttpRequest, seen: User)
    requires UniqueUsers(db)
    ensures ViaCatalog(db, request) == Resolved(seen) <==>
            && ForwardedToken(request) != "" && seen.id in db.users
            && NamedBy(db, User(seen.id, db.users[seen.id]), ForwardedToken(request))
            && seen.account == Account(db.users[seen.id].username, db.users[seen.id].token, "", "")
  {
    if request.cookie != "" {
      ForwardedCookie(request.cookie);
      assert ForwardedRequest(request) == ForwardedRequest(HttpRequest(request.cookie, ""));
    }
    var token := ForwardedToken(request);
    assert RequestToken(ForwardedRequest(request)) == token;
    var found := Authenticate(db, token);
    if found.Some? {
      AuthenticateExactly(db, token, found.value);
    }
    if seen.id in db.users {
      AuthenticateExactly(db, token, User(seen.id, db.users[seen.id]));
    }
  }

  /** A word of lower-case letters is read in any mixture of cases, and nothing else is read as it. */
  lemma AnyLetterCase(s: string, word: string)
    requires forall k :: 0 <= k < |word| ==> 'a' <= word[k] <= 'z'
    ensures ToLower(s) == word <==>
            && |s| == |word|
            && forall k :: 0 <= k < |s| ==> s[k] == word[k] || s[k] as int + 32 == word[k] as int
  {
    if |s| == |word| {
      assert forall k :: 0 <= k < |s| ==> ToLower(s)[k] == LowerByte(s[k]);
    }
  }

  /** The Authorization header alone names a user. */
  ghost predicate HeaderServed(db: Db, authorization: string) {
    var token := RequestToken(HttpRequest("", authorization));
    token != "" && (TokenTaken(db, token) || 1 in db.users)
  }

  /**
   The two paths agree exactly for requests whose cookie is absent or 16 bytes
   long, and for those whose header would not be served either.
   */
  lemma PathsAgree(db: Db, request: HttpRequest)
    ensures ViaCatalog(db, request) == Seen(Direct(db, request)) <==>
            |request.cookie| == 0 || |request.cookie| == USER_TOKEN_LENGTH || !HeaderServed(db, request.authorization)
  {
    if request.cookie != "" {
      ForwardedCookie(request.cookie);
      assert ForwardedRequest(request) == ForwardedRequest(HttpRequest(request.cookie, ""));
    }
  }

  /** A cookie of any other length always ends in 401, whatever the header says. */
  lemma OddCookieIsRefused(db: Db, request: HttpRequest)
    requires |request.cookie| != 0 && |request.cookie| != USER_TOKEN_LENGTH
    ensures ViaCatalog(db, request) == Unauthorized
  {
    ForwardedCookie(request.cookie);
    assert ForwardedRequest(request) == ForwardedRequest(HttpRequest(request.cookie, ""));
  }

  lemma BearerHeader(token: string, request: HttpRequest)
    requires |token| == USER_TOKEN_LENGTH && request == HttpRequest("x", "Bearer " + token)
    ensures RequestToken(request) == token
  {
    assert "Bearer " + token == "Bearer" + [' '] + token;
    assert ToLower("Bearer") == "bearer";
    HeaderToken(request, "Bearer", token);
  }

  /** Such a request the direct path can serve: a good header beside the odd cookie. */
  lemma PathsDiffer(db: Db, token: string)
    requires |token| == USER_TOKEN_LENGTH && 1 in db.users
    ensures var request := HttpRequest("x", "Bearer " + token);
            Direct(db, request).Resolved? && ViaCatalog(db, request) == Unauthorized
  {
    var request := HttpRequest("x", "Bearer " + token);
    BearerHeader(token, request);
    OddCookieIsRefused(db, request);
  }

  /** A request on its way through the middlewares, which set headers and context. */
  class Exchange {
    const cookie: string
    var authorization: string
    var user: Option<User>

    constructor (cookie: string, authorization: string)
      ensures this.cookie == cookie && this.authorization == authorization && user == None
    {
      this.cookie, this.authorization, this.user := cookie, authorization, None;
    }

    ghost function Request(): HttpRequest
      reads this
    {
      HttpRequest(cookie, authorization)
    }

    /** False is an answer of 401; the next handler is not called. */
    method AuthMiddleware(store: Catalog) returns (passed: bool)
      requires store.Valid()
      modifies this`user
      ensures match Direct(store.Contents(), old(Request()))
              case Resolved(u) => passed && user == Some(u)
              case _ => !passed && user == old(user)
    {
      var token := RequestToken(HttpRequest(cookie, authorization));
      if token == "" {
        return false;
      }
      var found := store.Authenticate(token);
      if found == None {
        return false;
      }
      user := found;
      return true;
    }

    method Authenticate(store: Catalog) returns (response: Response)
      requires store.Valid()
      ensures response == AuthenticateEndpoint(store.Contents(), Request())
    {
      var token := RequestToken(HttpRequest(cookie, authorization));
      if token == "" {
        return Unauthorized;
      }
      var found := store.Authenticate(token);
      response := if found == None then ServerError else Resolved(OnTheWire(found.value));
    }

    method AuthViaCatalogClient(store: Catalog) returns (passed: bool)
      requires store.Valid()
      modifies this`authorization, this`user
      ensures match ViaCatalog(store.Contents(), old(Request()))
              case Resolved(u) => passed && user == Some(u)
              case _ => !passed && user == old(user)
      ensures authorization == ForwardedRequest(old(Request())).authorization
    {
      if cookie != "" {
        authorization := "Token " + cookie;
      }
      var forwarded := new Exchange("", authorization);
      var response := forwarded.Authenticate(store);
      if !response.Resolved? {
        return false;
      }
      user := Some(response.user);
      return true;
    }
  }
}

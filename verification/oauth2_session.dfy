/**
 * The OAuth 2.0 authorization-code client session: the redirect that
 * starts the sequence, the CSRF `state` check and the token request that
 * complete it, the Bearer header of resource requests, and the session's
 * own state.
 *
 * The network is not modelled: each round trip is an input `Outcome`
 * saying what came back.  The random `state` is an input of the
 * constructor, and the JSON decoding of the token response comes in
 * already decoded.
 */
module OAuth2 {
  import opened Base
  import opened Http

  /**
   * The client registration (spiralcraft.oauth2.Client): its fields are
   * never written by the session.  The client defaults the credential
   * request verb to "GET" and the token request verb to "POST"; neither
   * is read by the session.
   */
  datatype Config = Config(clientId: string, realm: Option<string>, sharedSecret: string,
                           credentialRequestUri: Uri, credentialRequestVerb: string,
                           authorizationUri: Uri, tokenRequestUri: Uri, tokenRequestVerb: string,
                           redirectUri: Option<Uri>, tokenInvalidateUri: Uri)

  /** The four fields of a decoded access token response. */
  datatype AccessTokenResponse = AccessTokenResponse(accessToken: Option<string>, expiresIn: int,
                                                     error: Option<string>, errorDescription: Option<string>)

  /** The body of the token response: decoded, or not valid JSON. */
  datatype TokenReply = Parsed(response: AccessTokenResponse) | Unparseable

  /** What the HTTP client's response carries: the status code, the body and the headers. */
  datatype Response = Response(status: int, content: string, headers: map<string, seq<string>>)

  /** One round trip: an answer, or an IOException before there was one. */
  datatype Outcome<+T> = Answered(value: T) | Unreachable

  /** Why a session operation threw. */
  datatype Error =
    | AlreadyCompleted                            // completeAuthSequence when not in the temporary phase
    | MissingCredentials                          // a null code or state
    | StateMismatch                               // the returned state is not the one this session sent
    | ParseError                                  // the token response is not valid JSON
    | TransportError                              // the request itself failed
    | RemoteError(content: string, headers: map<string, seq<string>>)
                                                  // URLAccessException: the body and headers of an answer above 400, not its status

  /**
   * The redirect startAuthSequence returns: the credential request URI
   * with the encoded form of the query map added to its raw query.
   */
  datatype Redirect = Redirect(target: Uri, query: VariableMap)

  // =====================================================================
  // The parameters of each request
  // =====================================================================

  /** makeRequestParameters: just the client id. */
  function RequestParameters(client: Config): VariableMap
  {
    SetAll(Empty, [("client_id", client.clientId)])
  }

  /** The redirect URI a request names: the argument, else the client's. */
  function EffectiveRedirect(client: Config, redirectUri: Option<Uri>): Option<Uri>
  {
    if redirectUri.Some? then redirectUri else client.redirectUri
  }

  /** The settings after the client id: the response type, the redirect URI when one is known, the state. */
  function CredentialSettings(redirect: Option<Uri>, state: string): seq<(string, string)>
  {
    if redirect.Some? then [("response_type", "code"), ("redirect_uri", UriText(redirect.value)), ("state", state)]
    else [("response_type", "code"), ("state", state)]
  }

  /** makeCredentialRequestParameters. */
  function CredentialRequestParameters(client: Config, redirectUri: Option<Uri>, state: string): VariableMap
  {
    SetAll(RequestParameters(client), CredentialSettings(EffectiveRedirect(client, redirectUri), state))
  }

  /** The five settings of the token request, in the order they are set. */
  function TokenSettings(client: Config, code: string, redirect: Uri): seq<(string, string)>
  {
    [("grant_type", "authorization_code"), ("code", code), ("client_id", client.clientId),
     ("redirect_uri", UriText(redirect)), ("client_secret", client.sharedSecret)]
  }

  /** makeTokenRequestParameters: needs a redirect URI, from the argument or the client. */
  function TokenRequestParameters(client: Config, code: string, redirectUri: Option<Uri>): VariableMap
    requires EffectiveRedirect(client, redirectUri).Some?
  {
    SetAll(Empty, TokenSettings(client, code, EffectiveRedirect(client, redirectUri).value))
  }

  /** makeResourceRequestParameters: the same map as makeRequestParameters. */
  function ResourceRequestParameters(client: Config): VariableMap
  {
    RequestParameters(client)
  }

  /** A map of single values under distinct names is well formed. */
  lemma SingleValuedIsWellFormed(m: VariableMap)
    requires forall i, j :: 0 <= i < j < |m.entries| ==> m.entries[i].name != m.entries[j].name
    requires forall i :: 0 <= i < |m.entries| ==> |m.entries[i].values| == 1
    ensures WellFormed(m)
  {
  }

  /** The request and resource parameters are the client id alone. */
  lemma RequestParametersEntries(client: Config)
    ensures RequestParameters(client).entries == [Entry("client_id", [client.clientId])]
    ensures Keys(RequestParameters(client)) == ["client_id"]
    ensures ResourceRequestParameters(client) == RequestParameters(client)
  {
    var settings := [("client_id", client.clientId)];
    SetAllFresh(Empty, settings);
    assert SettingEntries(settings) == [Entry("client_id", [client.clientId])];
    assert SettingNames(settings) == ["client_id"];
  }

  /**
   * The credential request carries, in this order, the client id, the
   * response type "code", the redirect URI (the argument's, else the
   * client's) only when one is known, and the state.
   */
  lemma CredentialParametersEntries(client: Config, redirectUri: Option<Uri>, state: string)
    ensures var redirect := EffectiveRedirect(client, redirectUri);
            CredentialRequestParameters(client, redirectUri, state).entries
            == [Entry("client_id", [client.clientId]), Entry("response_type", ["code"])]
               + (if redirect.Some? then [Entry("redirect_uri", [UriText(redirect.value)])] else [])
               + [Entry("state", [state])]
  {
    var redirect := EffectiveRedirect(client, redirectUri);
    var settings := CredentialSettings(redirect, state);
    RequestParametersEntries(client);
    SetAllFresh(RequestParameters(client), settings);
    if redirect.Some? {
      assert SettingEntries(settings)
          == [Entry("response_type", ["code"]), Entry("redirect_uri", [UriText(redirect.value)]), Entry("state", [state])];
    } else {
      assert SettingEntries(settings) == [Entry("response_type", ["code"]), Entry("state", [state])];
    }
  }

  /**
   * Reading the credential request back: the state is the session's, the
   * response type is "code", the client id is the client's, and the
   * redirect URI is there exactly when one is known.
   */
  lemma CredentialParametersValues(client: Config, redirectUri: Option<Uri>, state: string)
    ensures var m := CredentialRequestParameters(client, redirectUri, state);
            var redirect := EffectiveRedirect(client, redirectUri);
            && WellFormed(m)
            && GetFirst(m, "client_id") == Some(client.clientId)
            && GetFirst(m, "response_type") == Some("code")
            && GetFirst(m, "state") == Some(state)
            && GetFirst(m, "redirect_uri") == if redirect.Some? then Some(UriText(redirect.value)) else None
  {
    var m := CredentialRequestParameters(client, redirectUri, state);
    var redirect := EffectiveRedirect(client, redirectUri);
    CredentialParametersEntries(client, redirectUri, state);
    if redirect.Some? {
      ValuesWithRedirect(m, client.clientId, UriText(redirect.value), state);
    } else {
      ValuesWithoutRedirect(m, client.clientId, state);
    }
  }

  lemma ValuesWithRedirect(m: VariableMap, clientId: string, redirect: string, state: string)
    requires m.entries == [Entry("client_id", [clientId]), Entry("response_type", ["code"])]
                          + [Entry("redirect_uri", [redirect])] + [Entry("state", [state])]
    ensures WellFormed(m)
    ensures GetFirst(m, "client_id") == Some(clientId) && GetFirst(m, "response_type") == Some("code")
    ensures GetFirst(m, "state") == Some(state) && GetFirst(m, "redirect_uri") == Some(redirect)
  {
    SingleValuedIsWellFormed(m);
    ValuesAt(m, 0);
    ValuesAt(m, 1);
    ValuesAt(m, 2);
    ValuesAt(m, 3);
  }

  lemma ValuesWithoutRedirect(m: VariableMap, clientId: string, state: string)
    requires m.entries == [Entry("client_id", [clientId]), Entry("response_type", ["code"])] + [] + [Entry("state", [state])]
    ensures WellFormed(m)
    ensures GetFirst(m, "client_id") == Some(clientId) && GetFirst(m, "response_type") == Some("code")
    ensures GetFirst(m, "state") == Some(state) && GetFirst(m, "redirect_uri") == None
  {
    SingleValuedIsWellFormed(m);
    ValuesAt(m, 0);
    ValuesAt(m, 1);
    ValuesAt(m, 2);
    assert Keys(m) == ["client_id", "response_type", "state"];
  }

  /** The token request body has exactly the five keys, in the order they are set, with their values. */
  lemma TokenParametersEntries(client: Config, code: string, redirectUri: Option<Uri>)
    requires EffectiveRedirect(client, redirectUri).Some?
    ensures var redirect := EffectiveRedirect(client, redirectUri).value;
            TokenRequestParameters(client, code, redirectUri).entries
            == [Entry("grant_type", ["authorization_code"]), Entry("code", [code]), Entry("client_id", [client.clientId]),
                Entry("redirect_uri", [UriText(redirect)]), Entry("client_secret", [client.sharedSecret])]
    ensures Keys(TokenRequestParameters(client, code, redirectUri))
            == ["grant_type", "code", "client_id", "redirect_uri", "client_secret"]
  {
    var settings := TokenSettings(client, code, EffectiveRedirect(client, redirectUri).value);
    TokenSettingsFresh(client, code, EffectiveRedirect(client, redirectUri).value);
    SetAllFresh(Empty, settings);
    assert Keys(Empty) == [];
  }

  /** The token settings name five distinct keys, each set once. */
  lemma TokenSettingsFresh(client: Config, code: string, redirect: Uri)
    ensures var settings := TokenSettings(client, code, redirect);
            && (forall i, j :: 0 <= i < j < |settings| ==> settings[i].0 != settings[j].0)
            && SettingNames(settings) == ["grant_type", "code", "client_id", "redirect_uri", "client_secret"]
            && SettingEntries(settings)
               == [Entry("grant_type", ["authorization_code"]), Entry("code", [code]), Entry("client_id", [client.clientId]),
                   Entry("redirect_uri", [UriText(redirect)]), Entry("client_secret", [client.sharedSecret])]
  {
    var settings := TokenSettings(client, code, redirect);
    var names := SettingNames(settings);
    assert names == ["grant_type", "code", "client_id", "redirect_uri", "client_secret"];
    forall i, j | 0 <= i < j < |settings| ensures settings[i].0 != settings[j].0 {
      assert settings[i].0 == names[i] && settings[j].0 == names[j];
    }
  }

  // =====================================================================
  // Requests and replies
  // =====================================================================

  /** The credential request the user is redirected to: the credential request URI and the query map. */
  function CredentialRedirect(client: Config, redirectUri: Option<Uri>, state: string): Redirect
  {
    Redirect(client.credentialRequestUri, CredentialRequestParameters(client, redirectUri, state))
  }

  /** The token request: always a form POST to the token request URI, without an Authorization header. */
  function TokenRequest(client: Config, code: string, redirectUri: Option<Uri>): Request
    requires EffectiveRedirect(client, redirectUri).Some?
  {
    Request("POST", client.tokenRequestUri, None, Some(FormContentType),
            Some(TokenRequestParameters(client, code, redirectUri)))
  }

  /** The Authorization header value: "Bearer " and the token, a null token reading "null". */
  function BearerHeader(token: Option<string>): string
  {
    "Bearer " + OrNullText(token)
  }

  /**
   * The header starts with "Bearer " and the rest is the token; a held
   * token is recovered from its header.
   */
  lemma BearerHeaderParts(token: Option<string>)
    ensures |BearerHeader(token)| >= 7
    ensures BearerHeader(token)[..7] == "Bearer "
    ensures BearerHeader(token)[7..] == OrNullText(token)
  {
  }

  /** Distinct held tokens give distinct headers; a null token reads exactly like the token "null". */
  lemma BearerHeaderInjective(a: Option<string>, b: Option<string>)
    ensures a.Some? && b.Some? ==> (BearerHeader(a) == BearerHeader(b) <==> a == b)
    ensures BearerHeader(None) == BearerHeader(Some("null"))
  {
    BearerHeaderParts(a);
    BearerHeaderParts(b);
  }

  /**
   * A resource request: the Bearer header always, the form content type
   * only for POST, and the body whenever one is given, whatever the verb.
   */
  function ResourceRequest(token: Option<string>, verb: string, target: Uri, body: Option<VariableMap>): Request
  {
    Request(verb, target, Some(BearerHeader(token)), if verb == "POST" then Some(FormContentType) else None, body)
  }

  /**
   * What call makes of a round trip: a status above 400 is a remote error
   * carrying the body and the headers (but not the status), anything else
   * is the body.
   */
  function CallResult(reply: Outcome<Response>): (r: Result<string, Error>)
    ensures r.Success? <==> reply.Answered? && reply.value.status <= 400
    ensures r.Success? ==> r.value == reply.value.content
    ensures reply.Answered? && reply.value.status > 400 ==>
              r == Failure(RemoteError(reply.value.content, reply.value.headers))
    ensures reply.Unreachable? ==> r == Failure(TransportError)
  {
    match reply
    case Unreachable => Failure(TransportError)
    case Answered(response) =>
      if response.status > 400 then Failure(RemoteError(response.content, response.headers))
      else Success(response.content)
  }

  /** The threshold is strict: 400 itself counts as success, 401 as a remote error. */
  lemma StatusThreshold(content: string, headers: map<string, seq<string>>)
    ensures CallResult(Answered(Response(400, content, headers))) == Success(content)
    ensures CallResult(Answered(Response(401, content, headers))) == Failure(RemoteError(content, headers))
  {
  }

  // =====================================================================
  // The session
  // =====================================================================

  class Session {
    const client: Config
    /** The random state, drawn once when the session is made and never reassigned. */
    const state: string
    var oauthToken: Option<string>
    var oauthTokenSecret: Option<string>
    var temporary: bool
    var returnUri: Option<Uri>
    var problem: Option<string>

    /** A new session holds no credentials; its state is the one drawn for it. */
    constructor(client: Config, state: string)
      ensures this.client == client && this.state == state
      ensures oauthToken == None && oauthTokenSecret == None && !temporary
      ensures returnUri == None && problem == None
    {
      this.client := client;
      this.state := state;
      oauthToken := None;
      oauthTokenSecret := None;
      temporary := false;
      returnUri := None;
      problem := None;
    }

    method SetReturnUri(returnUri: Option<Uri>)
      modifies this`returnUri
      ensures this.returnUri == returnUri
    {
      this.returnUri := returnUri;
    }

    /**
     * An access token outside the temporary phase makes a valid token.
     * OAuth1.Session makes the same test: the two session classes share no
     * code, so each keeps its own.
     */
    function IsTokenValid(): (valid: bool)
      reads this
      ensures valid ==> oauthToken.Some?
      ensures valid <==> oauthToken.Some? && !temporary
    {
      oauthToken.Some? && !temporary
    }

    /** makeRequestParameters: the client id set on a new map. */
    method MakeRequestParameters() returns (params: VariableMap)
      ensures params == RequestParameters(client)
    {
      params := Empty;
      SetAllStep(params, [("client_id", client.clientId)]);
      params := Set(params, "client_id", client.clientId);
    }

    /** makeCredentialRequestParameters: the response type, the redirect URI when one is known, the state. */
    method MakeCredentialRequestParameters(redirectUri: Option<Uri>) returns (params: VariableMap)
      ensures params == CredentialRequestParameters(client, redirectUri, state)
    {
      var redirect := if redirectUri.None? then client.redirectUri else redirectUri;
      ghost var todo := CredentialSettings(redirect, state);
      params := MakeRequestParameters();
      SetAllStep(params, todo);
      params := Set(params, "response_type", "code");
      todo := todo[1..];
      if redirect.Some? {
        SetAllStep(params, todo);
        params := Set(params, "redirect_uri", UriText(redirect.value));
        todo := todo[1..];
      }
      SetAllStep(params, todo);
      params := Set(params, "state", state);
      assert todo[1..] == [];
    }

    /** makeTokenRequestParameters: five `set` calls on a new map; the redirect URI must be known. */
    method MakeTokenRequestParameters(code: string, redirectUri: Option<Uri>) returns (params: VariableMap)
      requires EffectiveRedirect(client, redirectUri).Some?
      ensures params == TokenRequestParameters(client, code, redirectUri)
    {
      var redirect := if redirectUri.None? then client.redirectUri else redirectUri;
      ghost var todo := TokenSettings(client, code, redirect.value);
      params := Empty;
      SetAllStep(params, todo);
      params := Set(params, "grant_type", "authorization_code");
      todo := todo[1..];
      SetAllStep(params, todo);
      params := Set(params, "code", code);
      todo := todo[1..];
      SetAllStep(params, todo);
      params := Set(params, "client_id", client.clientId);
      todo := todo[1..];
      SetAllStep(params, todo);
      params := Set(params, "redirect_uri", UriText(redirect.value));
      todo := todo[1..];
      SetAllStep(params, todo);
      params := Set(params, "client_secret", client.sharedSecret);
      assert todo[1..] == [];
    }

    /** makeResourceRequestParameters: the request parameters. */
    method MakeResourceRequestParameters() returns (params: VariableMap)
      ensures params == ResourceRequestParameters(client)
    {
      params := MakeRequestParameters();
    }

    /**
     * startAuthSequence: enters the temporary phase with no problem
     * recorded and returns the credential request redirect, which carries
     * this session's state.  No request is sent.
     */
    method StartAuthSequence(redirectUri: Option<Uri>) returns (redirect: Redirect)
      modifies this`problem, this`temporary
      ensures temporary && problem == None
      ensures !IsTokenValid()
      ensures redirect == CredentialRedirect(client, redirectUri, state)
      ensures redirect.target == client.credentialRequestUri
      ensures GetFirst(redirect.query, "state") == Some(state)
    {
      problem := None;
      temporary := true;
      var query := MakeCredentialRequestParameters(redirectUri);
      CredentialParametersValues(client, redirectUri, state);
      redirect := Redirect(client.credentialRequestUri, query);
    }

    /** abortAuthSequence: records the failure code and nothing else. */
    method AbortAuthSequence(failureCode: Option<string>)
      modifies this`problem
      ensures problem == failureCode
    {
      problem := failureCode;
    }

    /**
     * The checks completeAuthSequence makes before any request, in order:
     * the temporary phase, a code and a state, the state this session sent.
     */
    function Guard(authCode: Option<string>, returnedState: Option<string>): (r: Option<Error>)
      reads this
      ensures r == None <==> temporary && authCode.Some? && returnedState == Some(state)
      ensures !temporary ==> r == Some(AlreadyCompleted)
      ensures temporary && (authCode.None? || returnedState.None?) ==> r == Some(MissingCredentials)
      ensures temporary && authCode.Some? && returnedState.Some? && returnedState.value != state ==>
                r == Some(StateMismatch)
    {
      if !temporary then Some(AlreadyCompleted)
      else if authCode.None? || returnedState.None? then Some(MissingCredentials)
      else if returnedState.value != state then Some(StateMismatch)
      else None
    }

    /**
     * completeAuthSequence: after the guards, POSTs the token request and
     * takes the access token from the decoded reply.  A redirect URI must
     * be known by then (the source fails on a null one).
     */
    method CompleteAuthSequence(authCode: Option<string>, returnedState: Option<string>, redirectUri: Option<Uri>,
                                exchange: Outcome<TokenReply>)
      returns (request: Option<Request>, result: Result<(), Error>)
      requires Guard(authCode, returnedState) == None ==> EffectiveRedirect(client, redirectUri).Some?
      modifies this`temporary, this`oauthToken
      ensures old(Guard(authCode, returnedState)).Some? ==>
                && request == None && result == Failure(old(Guard(authCode, returnedState)).value)
                && temporary == old(temporary) && oauthToken == old(oauthToken)
      ensures request.Some? <==> old(Guard(authCode, returnedState)) == None
      ensures request.Some? ==> request.value == TokenRequest(client, authCode.value, redirectUri)
      ensures request.Some? ==> result == TokenResult(exchange)
      ensures request.Some? && result.Success? ==>
                && !temporary && oauthToken == exchange.value.response.accessToken
                && (IsTokenValid() <==> exchange.value.response.accessToken.Some?)
      ensures result.Failure? ==> temporary == old(temporary) && oauthToken == old(oauthToken)
    {
      var guard := Guard(authCode, returnedState);
      if guard.Some? {
        return None, Failure(guard.value);
      }
      var params := MakeTokenRequestParameters(authCode.value, redirectUri);
      request := Some(Request("POST", client.tokenRequestUri, None, Some(FormContentType), Some(params)));
      result := TakeAccessToken(exchange);
    }

    /** The reply to the token request: a decoded one ends the temporary phase and holds its access token. */
    method TakeAccessToken(exchange: Outcome<TokenReply>) returns (result: Result<(), Error>)
      modifies this`temporary, this`oauthToken
      ensures result == TokenResult(exchange)
      ensures result.Success? ==> !temporary && oauthToken == exchange.value.response.accessToken
      ensures result.Failure? ==> temporary == old(temporary) && oauthToken == old(oauthToken)
    {
      result := TokenResult(exchange);
      if result.Success? {
        temporary := false;
        oauthToken := exchange.value.response.accessToken;
      }
    }

    /** oauthHeader: the Bearer header of the held token. */
    function OAuthHeader(): (header: string)
      reads this
      ensures |header| >= 7 && header[..7] == "Bearer " && header[7..] == OrNullText(oauthToken)
    {
      BearerHeaderParts(oauthToken);
      BearerHeader(oauthToken)
    }

    /** call: one resource request with the Bearer header; the session itself is left as it was. */
    method Call(verb: string, target: Uri, body: Option<VariableMap>, reply: Outcome<Response>)
      returns (request: Request, result: Result<string, Error>)
      ensures request == ResourceRequest(oauthToken, verb, target, body)
      ensures request.authorization == Some(OAuthHeader())
      ensures result == CallResult(reply)
    {
      var header := OAuthHeader();
      var contentType := if verb == "POST" then Some(FormContentType) else None;
      request := Request(verb, target, Some(header), contentType, body);
      if reply.Unreachable? {
        return request, Failure(TransportError);
      }
      if reply.value.status > 400 {
        return request, Failure(RemoteError(reply.value.content, reply.value.headers));
      }
      result := Success(reply.value.content);
    }

    /** clear: back to the state of a new session; the state itself stays. */
    method Clear()
      modifies this
      ensures oauthToken == None && oauthTokenSecret == None && !temporary
      ensures returnUri == None && problem == None
      ensures !IsTokenValid()
    {
      oauthToken := None;
      oauthTokenSecret := None;
      temporary := false;
      returnUri := None;
      problem := None;
    }

    /** invalidate: a GET of the token invalidation URI; the session is cleared only when the call succeeds. */
    method Invalidate(reply: Outcome<Response>) returns (request: Request, result: Result<(), Error>)
      modifies this
      ensures request == ResourceRequest(old(oauthToken), "GET", client.tokenInvalidateUri, None)
      ensures CallResult(reply).Success? ==>
                && result == Success(())
                && oauthToken == None && oauthTokenSecret == None && !temporary
                && returnUri == None && problem == None
      ensures CallResult(reply).Failure? ==>
                && result == Failure(CallResult(reply).error)
                && oauthToken == old(oauthToken) && oauthTokenSecret == old(oauthTokenSecret)
                && temporary == old(temporary) && returnUri == old(returnUri) && problem == old(problem)
    {
      var reply';
      request, reply' := Call("GET", client.tokenInvalidateUri, None, reply);
      if reply'.Failure? {
        return request, Failure(reply'.error);
      }
      Clear();
      result := Success(());
    }
  }

  /** What completeAuthSequence makes of the token reply, once the request is sent. */
  function TokenResult(exchange: Outcome<TokenReply>): (r: Result<(), Error>)
    ensures r.Success? <==> exchange.Answered? && exchange.value.Parsed?
    ensures exchange.Unreachable? ==> r == Failure(TransportError)
    ensures exchange.Answered? && exchange.value.Unparseable? ==> r == Failure(ParseError)
  {
    match exchange
    case Unreachable => Failure(TransportError)
    case Answered(Unparseable) => Failure(ParseError)
    case Answered(Parsed(_)) => Success(())
  }
}

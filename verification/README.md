# spiralcraft OAuth client, modelled in Dafny

This project models the client side of spiralcraft's OAuth support:

- **The OAuth 1.0 signer** (`Signer`). It covers:
  - percent-encoding (section 3.6 of RFC 5849);
  - the base string URI (section 3.4.1.2);
  - parameter collection, sorting and normalisation (section 3.4.1.3);
  - the signature base string (section 3.4.1.1);
  - the HMAC-SHA1 key (section 3.4.2).
- **The OAuth 1.0a session** (`OAuth1.Session`). This is a class over the fields `oauthToken`, `oauthTokenSecret`, `temporary`, `returnUri` and `problem`. It models:
  - the temporary-credential and token-credential exchanges with their guards;
  - the protocol parameter maps;
  - the choice of secret that signs each request;
  - the `Authorization: OAuth` header;
  - `call`, `clear` and `invalidate`.
- **The OAuth 2.0 authorization-code session** (`OAuth2.Session`). It models:
  - the redirect that starts the sequence;
  - the CSRF `state` check and the token request that complete it;
  - the Bearer header;
  - the status threshold of `call`;
  - `clear` and `invalidate`.

Two library values are modelled as values in `Http`:

- A URI is a record of scheme, authority, raw path and raw query.
- spiralcraft's `VariableMap` is an ordered list of (name, values) entries:
  - `Set` replaces a name's values in place, or appends a new entry;
  - `Add` appends one value;
  - iteration follows insertion order.

The Java client registrations become immutable `Config` datatypes:

- for OAuth 1.0, both request verbs default to "POST" in `oauth1/Client.java` and can be set, so `Config` takes any verb;
- for OAuth 2.0, the credential request verb defaults to "GET" and the token request verb to "POST". The session reads neither: it redirects for the credential request and always POSTs the token request.

Each imperative routine is a method proved equal to a specification function. This covers the `Appendable` loops of the signer, the `make*Parameters` methods and the `oauthHeader` loop with its `first` flag. What the source promises is then proved about those functions as lemmas.

`Collections.sort` is modelled as insertion into a sorted list. Lemmas prove the result sorted and a permutation, and prove that a multiset has only one sorted arrangement. Together these give independence from input order.

The network is not modelled. Each round trip is an input outcome:

- OAuth 1.0 `Exchange`: `Delivered`, `Refused` (an error body was present) or `Unreachable`.
- OAuth 2.0 `Outcome`: a response, or `Unreachable`.

Each session method returns the request it would send and a `Result` saying what it returns or throws. These are parameters, not modelled:

- the clock reading and the nonce;
- the OAuth 2.0 `state`, drawn once when the session is made and then a `const`;
- the HMAC-SHA1/Base64 digest and the form decoder, passed in as a `Library` of functions;
- the JSON decoding of the access token response, which arrives already decoded.

The code is modelled as written, including where it departs from the RFCs:

- percent-encoding escapes a character above 0xFF as the high and low bytes of its UTF-16 code units, not its UTF-8 bytes. `Signer.PercentEncodedCollision` shows two different strings with one encoding;
- the OAuth 1.0 authorization redirect reads `oauth_token=null` when the reply holds no token;
- the OAuth 2.0 header of a session without a token reads `Bearer null`;
- the OAuth 2.0 `call` treats only a status above 400 as an error, so 400 counts as success;
- the OAuth 2.0 `call` sends the body whatever the verb, while OAuth 1.0 signs a GET's body parameters but sends no body.

## Model

| member | source | states |
|---|---|---|
| Base.Decimal | source/spiralcraft/oauth1/Session.java:352 | Long.toString of a non-negative value: decimal digits whose value is the number, with no leading zero |
| Base.CaseMappingKeepsSeparator | source/spiralcraft/oauth1/Signer.java:76 | upper- or lower-casing (ASCII letters only) neither creates nor removes a non-letter such as the '&' separator |
| Http.ValuesAt | source/spiralcraft/oauth1/Session.java:413 | in a well-formed map, getFirst of the i-th name is the first value of the i-th entry |
| Http.UpdateValues | source/spiralcraft/oauth1/Session.java:104-116 | set leaves a name with exactly the one value; add appends the value to those it had; both append an unknown name to the keys |
| Http.NewNameAppended | source/spiralcraft/oauth1/Session.java:104-116 | setting or adding an unknown name appends one single-valued entry last |
| Http.OtherNamesUnchanged | source/spiralcraft/oauth1/Session.java:347-358 | setting or adding one name leaves every other name's values unchanged |
| Http.SetAllFresh | source/spiralcraft/oauth1/Session.java:347-358 | a run of set calls on distinct new names appends one entry per call, in call order |
| Http.SetAllKeepsNonEmpty | source/spiralcraft/oauth1/Session.java:347-387 | set calls keep every name supplied with a value |
| Http.UpdatesKeepWellFormed | source/spiralcraft/oauth1/Session.java:104-116 | set and add keep names unique and every name valued |
| Signer.CodeUnits | source/spiralcraft/oauth1/Signer.java:171 | toCharArray yields one code unit below U+10000 and a high/low surrogate pair above, which decodes back to the character |
| Signer.HexString | source/spiralcraft/oauth1/Signer.java:206 | Integer.toHexString has a single digit exactly for values below 16 |
| Signer.UpperHexStringIsUpperCased | source/spiralcraft/oauth1/Signer.java:206 | the upper-cased hex string is the upper-case digit string, with the same single-digit cases |
| Signer.IntToPercentStringOfByte | source/spiralcraft/oauth1/Signer.java:202-211 | for a byte, encodeIntToPercentString gives exactly '%' and two upper-case, zero-padded hex digits |
| Signer.EncodeIntToPercentString | source/spiralcraft/oauth1/Signer.java:202-211 | appends '%', a '0' for a one-digit value, and the upper-case hex digits |
| Signer.PercentEncode | source/spiralcraft/oauth1/Signer.java:168-200 | the code-unit loop appends exactly the percent-encoding of the input to the buffer |
| Signer.PercentEncodedChar | source/spiralcraft/oauth1/Signer.java:171-197 | unreserved characters are copied; others up to 0xFF become one triplet; above 0xFF each UTF-16 unit becomes a high-byte and a low-byte triplet |
| Signer.PercentEncodedAppend | source/spiralcraft/oauth1/Signer.java:168-200 | encoding distributes over concatenation |
| Signer.PercentEncodedAlphabet | source/spiralcraft/oauth1/Signer.java:168-200 | output holds only unreserved characters, '%' and upper-case hex, so never '&', '=', '"' or ',' |
| Signer.PercentEncodedLength | source/spiralcraft/oauth1/Signer.java:168-200 | the encoding is never shorter than the input, and strictly longer when a reserved character occurs |
| Signer.PercentEncodedIdentity | source/spiralcraft/oauth1/Signer.java:171-181 | a string is its own encoding exactly when all its characters are unreserved |
| Signer.PercentEncodedCollision | source/spiralcraft/oauth1/Signer.java:185-191 | U+0100 and the pair U+0001 U+0000 both encode to "%01%00": the encoding is not injective |
| Signer.EncodeBaseStringUri | source/spiralcraft/oauth1/Signer.java:84-94 | appends the encoding of lower-cased scheme, "://", lower-cased authority and raw path |
| Signer.BaseStringUriParts | source/spiralcraft/oauth1/Signer.java:84-94 | the base string URI is the encoded parts around "%3A%2F%2F", ignores the query and holds no '&' |
| Signer.BaseStringUriCaseInsensitive | source/spiralcraft/oauth1/Signer.java:89-91 | upper-casing scheme and authority does not change the base string URI |
| Signer.CompareStringsProperties | source/spiralcraft/oauth1/Signer.java:229-231 | String.compareTo is antisymmetric and is zero exactly for equal strings |
| Signer.CompareStringsTransitive | source/spiralcraft/oauth1/Signer.java:229-231 | String.compareTo's order is transitive |
| Signer.PairOrder | source/spiralcraft/oauth1/Signer.java:226-234 | Pair.compareTo (name, then value) is a total, antisymmetric, transitive order |
| Signer.InsertSorted | source/spiralcraft/oauth1/Signer.java:118 | inserting into a sorted list keeps it sorted and adds exactly the one pair |
| Signer.SortPairsSorted | source/spiralcraft/oauth1/Signer.java:118 | sorting yields a sorted permutation of its input |
| Signer.SortedUnique | source/spiralcraft/oauth1/Signer.java:118 | two sorted arrangements of one multiset of pairs are equal |
| Signer.SortPairsIsTheSortedPermutation | source/spiralcraft/oauth1/Signer.java:118 | sorting yields the one sorted permutation of its input |
| Signer.OccurrencesOfMap | source/spiralcraft/oauth1/Signer.java:138-151 | one pair per value, and a pair for (n, v) exactly when the map holds v under n |
| Signer.EncodeParameterSet | source/spiralcraft/oauth1/Signer.java:133-153 | the nested loops append the encoded (name, value) pair of every value of every name, in order |
| Signer.EncodeAllMultiset | source/spiralcraft/oauth1/Signer.java:138-151 | equal multisets of raw pairs give equal multisets of encoded pairs |
| Signer.JoinPairs | source/spiralcraft/oauth1/Signer.java:119-129 | the first-flag loop joins the name=value texts with '&', with no leading or trailing '&' |
| Signer.EncodeParameters | source/spiralcraft/oauth1/Signer.java:96-131 | appends the once-encoded '&'-join of the sorted encoded pairs of query (if present), protocol parameters and body |
| Signer.NormalizedDependsOnlyOnMultiset | source/spiralcraft/oauth1/Signer.java:104-130 | the normalised parameters depend only on the multiset of raw pairs |
| Signer.ParameterSourceIrrelevant | source/spiralcraft/oauth1/Signer.java:112-117 | swapping the protocol-parameter and body maps leaves the encoded parameters unchanged |
| Signer.NormalizedStructure | source/spiralcraft/oauth1/Signer.java:118-130 | before the final encoding, the string splits at '&' into the sorted pair texts, each splitting at '=' into its name and value |
| Signer.EncodedPairText | source/spiralcraft/oauth1/Signer.java:128 | an encoded pair's text has no '&' and exactly one '=' between name and value |
| Signer.EncodePairUnreserved | source/spiralcraft/oauth1/Signer.java:140-149 | a pair spelt in unreserved characters is its own encoding |
| Signer.NormalizedExample | source/spiralcraft/oauth1/Signer.java:118-129 | {b=2, a=1, a=2} normalises to a=1&a=2&b=2 |
| Signer.SignatureBase | source/spiralcraft/oauth1/Signer.java:66-82 | the base string is the upper-cased method, '&', the base string URI, '&', the encoded parameters |
| Signer.EncodedParametersUnambiguous | source/spiralcraft/oauth1/Signer.java:96-131 | the encoded parameter string holds no '&' |
| Signer.SignatureBaseStructure | source/spiralcraft/oauth1/Signer.java:66-82 | for a method without '&' the base string splits at '&' into exactly its three parts |
| Signer.SigningKeyStructure | source/spiralcraft/oauth1/Signer.java:44-48 | the key splits at its one '&' into the two encoded secrets; a null token secret acts as "" and the key ends in '&' |
| Signer.SignHmacSha1 | source/spiralcraft/oauth1/Signer.java:39-64 | the signature is the library digest of the base string under that key |
| OAuth1.ExchangeResult | source/spiralcraft/oauth1/Session.java:481-519 | a read body is returned; an error stream becomes a remote error carrying its body; otherwise the IOException |
| OAuth1.ProtocolNameLists | source/spiralcraft/oauth1/Session.java:347-387 | the names of each parameter map are distinct, free of ',' and never oauth_signature |
| OAuth1.ParametersHaveValues | source/spiralcraft/oauth1/Session.java:347-387 | every name of every parameter map has a value |
| OAuth1.RequestParametersEntries | source/spiralcraft/oauth1/Session.java:347-359 | exactly oauth_timestamp (clock seconds), oauth_consumer_key, oauth_version=1.0, oauth_signature_method=HMAC-SHA1, oauth_nonce, in that order |
| OAuth1.SpecificParametersEntries | source/spiralcraft/oauth1/Session.java:361-387 | credential: plus oauth_callback only when argument or client default is known; token: plus oauth_token, oauth_verifier; resource: plus oauth_token |
| OAuth1.ParametersAreProtocol | source/spiralcraft/oauth1/Session.java:347-387 | each map the session signs has distinct, valued, comma-free names and no signature |
| OAuth1.SignatureAppended | source/spiralcraft/oauth1/Session.java:104-116 | the signed parameters hold no oauth_signature pair; the signature is one entry appended last |
| OAuth1.PropertyItemAt | source/spiralcraft/oauth1/Session.java:403-415 | the i-th header item is the i-th name with its encoded first value |
| OAuth1.EntryItem | source/spiralcraft/oauth1/Session.java:413 | in a well-formed map the i-th item carries the i-th entry's first value |
| OAuth1.PropertyItemsAppended | source/spiralcraft/oauth1/Session.java:104-116 | setting or adding a new name adds exactly its item, last |
| OAuth1.SignedNamesUnambiguous | source/spiralcraft/oauth1/Session.java:104-116 | the signed map's names, the signature's included, hold no ',' |
| OAuth1.AppendRealmItem | source/spiralcraft/oauth1/Session.java:396-402 | appends realm="encoded realm" exactly when the realm is non-null and non-empty |
| OAuth1.AppendNextItem | source/spiralcraft/oauth1/Session.java:403-415 | one loop turn: a ',' unless first, then the next name's item |
| OAuth1.AppendNamedItem | source/spiralcraft/oauth1/Session.java:411-414 | appends name="encoded first value" |
| OAuth1.AuthorizationHeaderStructure | source/spiralcraft/oauth1/Session.java:389-417 | the header starts "OAuth " and the rest splits at ',' into the realm item (if any) and one item per name |
| OAuth1.ItemsUnambiguous | source/spiralcraft/oauth1/Session.java:396-415 | no header item holds ',' when no name does |
| OAuth1.SignedHeaderStructure | source/spiralcraft/oauth1/Session.java:426-439 | a signed header lists the realm, the unsigned parameters in order and the signature last |
| OAuth1.TokenParametersItems | source/spiralcraft/oauth1/Session.java:374-380 | the token map's items are the five common ones, then oauth_token and oauth_verifier |
| OAuth1.TokenHeaderStructure | source/spiralcraft/oauth1/Session.java:237-266 | the token request header reads back as realm, common five, token, verifier, signature |
| OAuth1.AuthorizationRedirectQuery | source/spiralcraft/oauth1/Session.java:158-159 | the redirect keeps the authorization URI and its query is exactly oauth_token=token, or oauth_token=null |
| OAuth1.Session.constructor | source/spiralcraft/oauth1/Session.java:46-60 | a new session holds no token, secret, return URI or problem and is not temporary |
| OAuth1.Session.SetReturnUri | source/spiralcraft/oauth1/Session.java:62-64 | sets the return URI and nothing else |
| OAuth1.Session.MakeRequestParameters | source/spiralcraft/oauth1/Session.java:347-359 | the five set calls build the common parameter map |
| OAuth1.Session.MakeCredentialRequestParameters | source/spiralcraft/oauth1/Session.java:361-372 | the callback falls back to the client's and is set only when known |
| OAuth1.Session.MakeTokenRequestParameters | source/spiralcraft/oauth1/Session.java:374-380 | the common map with the held token and the verifier set |
| OAuth1.Session.MakeResourceRequestParameters | source/spiralcraft/oauth1/Session.java:382-387 | the common map with the held token set |
| OAuth1.Session.Sign | source/spiralcraft/oauth1/Session.java:104-116 | adds oauth_signature computed over the unsigned map with the client secret and the given token secret |
| OAuth1.Session.OAuthHeader | source/spiralcraft/oauth1/Session.java:389-417 | the first-flag loop builds "OAuth ", the realm item, then one item per name, ','-separated |
| OAuth1.Session.SignedCredentialRequest | source/spiralcraft/oauth1/Session.java:101-136 | the credential request is signed with the client secret alone, via the credential verb and URI, text/xml |
| OAuth1.Session.SignedTokenRequest | source/spiralcraft/oauth1/Session.java:237-273 | the token request is signed with the client secret and the held token secret |
| OAuth1.Session.TakeCredentials | source/spiralcraft/oauth1/Session.java:275-294 | a read reply sets token and secret to its first oauth_token and oauth_token_secret and sets the phase; a failure changes nothing |
| OAuth1.Session.TakeTemporaryCredentials | source/spiralcraft/oauth1/Session.java:138-160 | enters the temporary phase with no problem, so isTokenValid is false, and returns the authorization redirect for the new token |
| OAuth1.Session.StartAuthSequence | source/spiralcraft/oauth1/Session.java:96-194 | sends the signed credential request; afterwards temporary with no problem, so isTokenValid is false; on a reply holds the temporary credentials and returns the redirect |
| OAuth1.Session.AbortAuthSequence | source/spiralcraft/oauth1/Session.java:200-202 | records the failure code and changes nothing else |
| OAuth1.Session.CompleteAuthSequence | source/spiralcraft/oauth1/Session.java:210-331 | rejects in order when not temporary, on a null token or verifier, on a different token, with no request and no change; otherwise sends the signed token request and on a reply holds the token credentials, not temporary, with isTokenValid true exactly when the reply held an oauth_token |
| OAuth1.Session.SignedResourceRequestHeader | source/spiralcraft/oauth1/Session.java:420-440 | the resource header is signed over the body too, with both secrets |
| OAuth1.Session.Call | source/spiralcraft/oauth1/Session.java:442-525 | the request carries the signed header; only POST sends the form (empty when none); the result follows the exchange |
| OAuth1.Session.Clear | source/spiralcraft/oauth1/Session.java:535-542 | all fields reset; the token is no longer valid |
| OAuth1.Session.Invalidate | source/spiralcraft/oauth1/Session.java:528-533 | a GET of the invalidation URI; cleared only when the call returns, all fields kept otherwise |
| OAuth2.RequestParametersEntries | source/spiralcraft/oauth2/Session.java:301-307 | the request and resource parameters are client_id alone |
| OAuth2.CredentialParametersEntries | source/spiralcraft/oauth2/Session.java:309-322 | client_id, response_type=code, redirect_uri only when argument or client default is known, state, in that order |
| OAuth2.CredentialParametersValues | source/spiralcraft/oauth2/Session.java:309-322 | read back, the map gives the client id, "code", the session state, and a redirect URI exactly when one is known |
| OAuth2.TokenParametersEntries | source/spiralcraft/oauth2/Session.java:324-336 | exactly grant_type=authorization_code, code, client_id, redirect_uri, client_secret, in that order |
| OAuth2.BearerHeaderInjective | source/spiralcraft/oauth2/Session.java:344-347 | the header oauthHeader returns tells distinct held tokens apart; a null token reads exactly as the token "null" |
| OAuth2.CallResult | source/spiralcraft/oauth2/Session.java:391-404 | success exactly for an answer with status at most 400; above 400 a remote error with the body and headers, no status |
| OAuth2.StatusThreshold | source/spiralcraft/oauth2/Session.java:391 | 400 is success and 401 is a remote error |
| OAuth2.TokenResult | source/spiralcraft/oauth2/Session.java:191-203 | success exactly for a decoded reply; undecodable JSON is a parse error; no answer is a transport error |
| OAuth2.Session.constructor | source/spiralcraft/oauth2/Session.java:52-67 | a new session holds no credentials and keeps the state drawn for it |
| OAuth2.Session.SetReturnUri | source/spiralcraft/oauth2/Session.java:69-71 | sets the return URI and nothing else |
| OAuth2.Session.MakeRequestParameters | source/spiralcraft/oauth2/Session.java:301-307 | sets client_id on a new map |
| OAuth2.Session.MakeCredentialRequestParameters | source/spiralcraft/oauth2/Session.java:309-322 | the redirect falls back to the client's and is set only when known; state last |
| OAuth2.Session.MakeTokenRequestParameters | source/spiralcraft/oauth2/Session.java:324-336 | the five set calls on a new map, with the effective redirect URI |
| OAuth2.Session.MakeResourceRequestParameters | source/spiralcraft/oauth2/Session.java:338-342 | the request parameters |
| OAuth2.Session.StartAuthSequence | source/spiralcraft/oauth2/Session.java:103-131 | temporary with no problem, so isTokenValid is false; returns the credential request URI with the query carrying this session's state; sends nothing |
| OAuth2.Session.AbortAuthSequence | source/spiralcraft/oauth2/Session.java:137-139 | records the failure code and changes nothing else |
| OAuth2.Session.Guard | source/spiralcraft/oauth2/Session.java:150-171 | passes exactly when temporary, a code and a state are given and the state equals the session's; otherwise the first failing check in order |
| OAuth2.Session.CompleteAuthSequence | source/spiralcraft/oauth2/Session.java:147-203 | a failed guard sends nothing and changes nothing; otherwise POSTs the token form and, on a decoded reply, ends the temporary phase holding its access token, valid exactly when one was present |
| OAuth2.Session.TakeAccessToken | source/spiralcraft/oauth2/Session.java:191-203 | a decoded reply clears temporary and stores the access token whatever its error field; a failure changes nothing |
| OAuth2.Session.Call | source/spiralcraft/oauth2/Session.java:372-404 | the request carries oauthHeader's Bearer header, a form content type only for POST, the body for any verb; result per the status threshold |
| OAuth2.Session.Clear | source/spiralcraft/oauth2/Session.java:493-500 | all fields reset, the state kept; the token is no longer valid |
| OAuth2.Session.Invalidate | source/spiralcraft/oauth2/Session.java:486-491 | a GET of the invalidation URI; cleared only when the call succeeds, all fields kept otherwise |

## Left out

- HTTP I/O is not modelled: connections, request headers such as Content-Length and Connection, stream reading, and the wrapping of error streams. Each round trip is an input outcome.
- The HMAC-SHA1 digest and its Base64 rendering are uninterpreted functions of (key, text). They are foreign cryptographic code.
- `VariableMap.fromUrlEncodedString` is an uninterpreted function. `generateEncodedForm`, `URIUtil.addRawQueryParams` and `URI.toString` beyond its components are library code that is not part of this model. The OAuth 2.0 redirect is therefore returned as the target URI together with its query map.
- The clock, the nonce and the random `state` are parameters, because they are nondeterministic.
- The JSON decoding of the access token response is an input, because it is reflection-driven library code.
- Case mapping covers ASCII letters only. Java's `toUpperCase`/`toLowerCase` also map other letters.
- URI ports are kept inside the authority as given. Fragments are not represented.
- Endpoint URIs are assumed absolute: `Http.Uri` has no null scheme or authority, where the source would throw a NullPointerException in `toLowerCase` (`oauth1/Signer.java:89-91`).
- Signer.CompareStrings: compares characters as Unicode scalar values, where `String.compareTo` compares UTF-16 code units. The two orders differ only between a character above U+FFFF and one from U+E000 to U+FFFF. The signer sorts only percent-encoded, all-ASCII pairs (`oauth1/Signer.java:140-149`), where they agree.
- OAuth2.CallResult: the remote error carries the body and the headers, as the source's `URLAccessException` does, but not the content length it is given separately. The status is not carried either, since the source's exception does not hold it.
- A URI has one `authority`. `Signer.EncodeBaseStringUri` uses it where `URI.getAuthority()` returns the decoded authority, and `Http.UriText` uses it where `URI.toString` keeps the raw one. The two differ only for a percent-escaped authority.
- Signer.CodeUnits: a Dafny `char` is a Unicode scalar value, so a string holding a lone surrogate is not represented. A Java `String` can hold one, and `percentEncode` would escape it as its high and low bytes like any other unit above 0xFF.
- `Signer.java`'s signing exceptions are not modelled, nor the `IOException` wrapping in `call`. Logging is left out.
- `postAuthenticate` is an empty hook and is not modelled. The same goes for `getOauthId`/`oauthId`, `getProblem`, `getReturnURI`, `logLevel` and `getCredentialRequestURI`, which are taken to be trivial accessors. `oauth1/Client.java` does not define `getCredentialRequestURI` or `logLevel` although `oauth1/Session.java:59,109,120` uses them; the model reads the `credentialRequestURI` field (`oauth1/Client.java:35`) in their place.
- OAuth 2.0 `tokenRequestVerb`, `credentialRequestVerb`, `realm` and `authorizationUri` are kept in `Config` but are unused by the session code.
- OAuth1.Session.SignedResourceRequestHeader: requires a held token. With a null token the source passes null to `VariableMap.set`, whose behaviour is library code outside this model.
- OAuth1.Session.Call: requires a held token, for the same reason.
- OAuth1.Session.Invalidate: requires a held token, for the same reason.
- OAuth1.Session.MakeResourceRequestParameters: requires a held token, for the same reason.
- OAuth1.Session.MakeTokenRequestParameters: requires a held token. `CompleteAuthSequence` only reaches it after checking that the returned token equals the held one.
- OAuth1.PropertyItems: a name without values yields an item with the value "". The source would pass null to `percentEncode` there. Every map the session builds gives each name a value (`OAuth1.ParametersHaveValues`), so that case never arises.
- OAuth2.Session.CompleteAuthSequence: requires a known redirect URI (the argument or the client's) once the guard passes. The source dereferences a null one at oauth2/Session.java:333.
- OAuth2.Session.MakeTokenRequestParameters: requires a known redirect URI, for the same reason.
- The OAuth 2.0 client registration's `clientId` and `sharedSecret` are assumed non-null strings. The OAuth 1.0 `clientId` is too, while `oauth1/Session.java:354` passes it to `VariableMap.set` whether or not it is null.
- OAuth1.Session.StartAuthSequence: clears `problem` and sets `temporary` after building the signed request rather than before. Signing reads neither field, so the request and the final state are the same as in the source.
- `oauth1/Filter.java`, `oauth1/Call.java`, the two `Client` classes (beyond their fields) and `AccessTokenResponse` (beyond its four fields) are not part of this model.

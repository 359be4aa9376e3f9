/**
 * The OAuth 1.0 client session: the three-legged sequence (temporary
 * credentials, user authorisation, token credentials), the signed
 * Authorization header of each request, and the session's own state.
 *
 * The network is not modelled: each round trip is an input `Exchange`
 * saying what the server answered.  The clock reading and the nonce are
 * inputs, and HMAC-SHA1/Base64 and form parsing come in as a `Library`.
 */
module OAuth1 {
  import opened Base
  import opened Http
  import opened Signer

  /**
   * The client registration (spiralcraft.oauth1.Client): its fields are
   * never written by the session.  Both verbs default to "POST" in the
   * client and can be set, so any verb is allowed here.
   */
  datatype Config = Config(clientId: string, realm: Option<string>, sharedSecret: Option<string>,
                           credentialRequestUri: Uri, credentialRequestVerb: string,
                           authorizationUri: Uri, tokenRequestUri: Uri, tokenRequestVerb: string,
                           callbackUri: Option<Uri>, tokenInvalidateUri: Uri)

  /** Why a session operation threw. */
  datatype Error =
    | AlreadyCompleted                            // completeAuthSequence when not in the temporary phase
    | MissingCredentials                          // a null token or verifier
    | TokenMismatch                               // the returned token is not the one this session holds
    | RemoteError(content: string)                // URLAccessException: the server answered with an error body
    | TransportError                              // the IOException rethrown when there was no error body

  /** What one HTTP round trip came to. */
  datatype Exchange =
    | Delivered(content: string)                  // the response body was read
    | Refused(errorContent: string)               // reading failed and an error stream was present
    | Unreachable                                 // reading failed with no error stream

  /** The outcome `call` reports for a round trip. */
  function ExchangeResult(x: Exchange): (r: Result<string, Error>)
    ensures r.Success? <==> x.Delivered?
    ensures x.Delivered? ==> r.value == x.content
    ensures x.Refused? ==> r == Failure(RemoteError(x.errorContent))
    ensures x.Unreachable? ==> r == Failure(TransportError)
  {
    match x
    case Delivered(content) => Success(content)
    case Refused(errorContent) => Failure(RemoteError(errorContent))
    case Unreachable => Failure(TransportError)
  }

  // =====================================================================
  // The protocol parameters of each request
  // =====================================================================

  /** The parameter names every request carries, in the order they are set. */
  const RequestNames := ["oauth_timestamp", "oauth_consumer_key", "oauth_version", "oauth_signature_method", "oauth_nonce"]

  /** Names a header can carry unambiguously: distinct, no signature yet, no ',' in any. */
  predicate ProtocolNames(names: seq<string>)
  {
    && (forall i, j :: 0 <= i < j < |names| ==> names[i] != names[j])
    && "oauth_signature" !in names
    && (forall k :: 0 <= k < |names| ==> ',' !in names[k])
  }

  /** An unsigned parameter map: protocol names, each with a value. */
  predicate ProtocolParameters(m: VariableMap)
  {
    ProtocolNames(Keys(m)) && NonEmptyValues(m.entries)
  }

  lemma ProtocolNamesSnoc(names: seq<string>, name: string)
    requires ProtocolNames(names) && name !in names && name != "oauth_signature" && ',' !in name
    ensures ProtocolNames(names + [name])
  {
  }

  /** Protocol parameters form a well-formed map without a signature. */
  lemma ProtocolIsWellFormed(m: VariableMap)
    requires ProtocolParameters(m)
    ensures WellFormed(m) && "oauth_signature" !in Keys(m)
    ensures forall k :: 0 <= k < |m.entries| ==> ',' !in m.entries[k].name
  {
    forall i, j | 0 <= i < j < |m.entries| ensures m.entries[i].name != m.entries[j].name {
      assert Keys(m)[i] != Keys(m)[j];
    }
    forall k | 0 <= k < |m.entries| ensures ',' !in m.entries[k].name {
      assert Keys(m)[k] == m.entries[k].name;
    }
  }

  lemma RequestNamesAreProtocol()
    ensures ProtocolNames(RequestNames)
  {
  }

  /** The names of the four parameter maps the session builds are protocol names. */
  lemma ProtocolNameLists()
    ensures ProtocolNames(RequestNames)
    ensures ProtocolNames(RequestNames + ["oauth_callback"])
    ensures ProtocolNames(RequestNames + ["oauth_token"])
    ensures ProtocolNames(RequestNames + ["oauth_token", "oauth_verifier"])
  {
    RequestNamesAreProtocol();
    ProtocolNamesSnoc(RequestNames, "oauth_callback");
    ProtocolNamesSnoc(RequestNames, "oauth_token");
    ProtocolNamesSnoc(RequestNames + ["oauth_token"], "oauth_verifier");
    assert RequestNames + ["oauth_token"] + ["oauth_verifier"] == RequestNames + ["oauth_token", "oauth_verifier"];
  }


  /** The five settings every request starts with: the clock in whole seconds, the client id, the fixed version and method, the nonce. */
  function CommonSettings(client: Config, clockMillis: nat, nonce: string): seq<(string, string)>
  {
    [("oauth_timestamp", Decimal(clockMillis / 1000)),
     ("oauth_consumer_key", client.clientId),
     ("oauth_version", "1.0"),
     ("oauth_signature_method", "HMAC-SHA1"),
     ("oauth_nonce", nonce)]
  }

  /** makeRequestParameters: the five common parameters, set in this order on an empty map. */
  function RequestParameters(client: Config, clockMillis: nat, nonce: string): VariableMap
  {
    SetAll(Empty, CommonSettings(client, clockMillis, nonce))
  }

  /** The callback a credential request announces: the argument, else the client's. */
  function EffectiveCallback(client: Config, callbackUri: Option<Uri>): Option<Uri>
  {
    if callbackUri.Some? then callbackUri else client.callbackUri
  }

  /** The callback setting: one when a callback is known, none otherwise. */
  function CallbackSettings(callback: Option<Uri>): seq<(string, string)>
  {
    if callback.Some? then [("oauth_callback", UriText(callback.value))] else []
  }

  /** makeCredentialRequestParameters: the common five, then oauth_callback when a callback is known. */
  function CredentialRequestParameters(client: Config, callbackUri: Option<Uri>, clockMillis: nat, nonce: string): VariableMap
  {
    SetAll(RequestParameters(client, clockMillis, nonce), CallbackSettings(EffectiveCallback(client, callbackUri)))
  }

  /** makeTokenRequestParameters: the common five, then the held token and the verifier. */
  function TokenRequestParameters(client: Config, token: string, verifier: string, clockMillis: nat, nonce: string): VariableMap
  {
    SetAll(RequestParameters(client, clockMillis, nonce), [("oauth_token", token), ("oauth_verifier", verifier)])
  }

  /** makeResourceRequestParameters: the common five, then the held token. */
  function ResourceRequestParameters(client: Config, token: string, clockMillis: nat, nonce: string): VariableMap
  {
    SetAll(RequestParameters(client, clockMillis, nonce), [("oauth_token", token)])
  }

  /** Every map the session builds gives each of its names a value. */
  lemma ParametersHaveValues(client: Config, callbackUri: Option<Uri>, token: string, verifier: string,
                             clockMillis: nat, nonce: string)
    ensures NonEmptyValues(RequestParameters(client, clockMillis, nonce).entries)
    ensures NonEmptyValues(CredentialRequestParameters(client, callbackUri, clockMillis, nonce).entries)
    ensures NonEmptyValues(TokenRequestParameters(client, token, verifier, clockMillis, nonce).entries)
    ensures NonEmptyValues(ResourceRequestParameters(client, token, clockMillis, nonce).entries)
  {
    var common := RequestParameters(client, clockMillis, nonce);
    SetAllKeepsNonEmpty(Empty, CommonSettings(client, clockMillis, nonce));
    SetAllKeepsNonEmpty(common, CallbackSettings(EffectiveCallback(client, callbackUri)));
    SetAllKeepsNonEmpty(common, [("oauth_token", token), ("oauth_verifier", verifier)]);
    SetAllKeepsNonEmpty(common, [("oauth_token", token)]);
  }

  /** The common five parameters, in order, and their values: the clock in whole seconds, the client id, the fixed version and method, the nonce. */
  lemma RequestParametersEntries(client: Config, clockMillis: nat, nonce: string)
    ensures RequestParameters(client, clockMillis, nonce).entries
         == [Entry("oauth_timestamp", [Decimal(clockMillis / 1000)]),
             Entry("oauth_consumer_key", [client.clientId]),
             Entry("oauth_version", ["1.0"]),
             Entry("oauth_signature_method", ["HMAC-SHA1"]),
             Entry("oauth_nonce", [nonce])]
    ensures Keys(RequestParameters(client, clockMillis, nonce)) == RequestNames
  {
    var settings := CommonSettings(client, clockMillis, nonce);
    assert SettingNames(settings) == RequestNames;
    SetAllFresh(Empty, settings);
  }

  /**
   * The further parameters of each request come after the common five:
   * the callback (the argument's, else the client's) when one is known,
   * the held token and the verifier, or the held token alone.
   */
  lemma SpecificParametersEntries(client: Config, callbackUri: Option<Uri>, token: string, verifier: string,
                                  clockMillis: nat, nonce: string)
    ensures var common := RequestParameters(client, clockMillis, nonce).entries;
            var cb := EffectiveCallback(client, callbackUri);
            && CredentialRequestParameters(client, callbackUri, clockMillis, nonce).entries
               == common + (if cb.Some? then [Entry("oauth_callback", [UriText(cb.value)])] else [])
            && TokenRequestParameters(client, token, verifier, clockMillis, nonce).entries
               == common + [Entry("oauth_token", [token]), Entry("oauth_verifier", [verifier])]
            && ResourceRequestParameters(client, token, clockMillis, nonce).entries
               == common + [Entry("oauth_token", [token])]
    ensures var cb := EffectiveCallback(client, callbackUri);
            && Keys(CredentialRequestParameters(client, callbackUri, clockMillis, nonce))
               == RequestNames + (if cb.Some? then ["oauth_callback"] else [])
            && Keys(TokenRequestParameters(client, token, verifier, clockMillis, nonce))
               == RequestNames + ["oauth_token", "oauth_verifier"]
            && Keys(ResourceRequestParameters(client, token, clockMillis, nonce)) == RequestNames + ["oauth_token"]
  {
    var m := RequestParameters(client, clockMillis, nonce);
    RequestParametersEntries(client, clockMillis, nonce);
    var callback := CallbackSettings(EffectiveCallback(client, callbackUri));
    SetAllFresh(m, callback);
    if callback != [] {
      assert SettingEntries(callback) == [Entry("oauth_callback", [callback[0].1])];
      assert SettingNames(callback) == ["oauth_callback"];
    } else {
      assert SettingEntries(callback) == [] && SettingNames(callback) == [];
    }
    var both := [("oauth_token", token), ("oauth_verifier", verifier)];
    SetAllFresh(m, both);
    assert SettingEntries(both) == [Entry("oauth_token", [token]), Entry("oauth_verifier", [verifier])];
    assert SettingNames(both) == ["oauth_token", "oauth_verifier"];
    var one := [("oauth_token", token)];
    SetAllFresh(m, one);
    assert SettingEntries(one) == [Entry("oauth_token", [token])];
    assert SettingNames(one) == ["oauth_token"];
  }

  /**
   * Every map the session signs is a protocol parameter map: its names are
   * distinct, none is oauth_signature, none holds ',', and each has a value.
   */
  lemma ParametersAreProtocol(client: Config, callbackUri: Option<Uri>, token: string, verifier: string,
                              clockMillis: nat, nonce: string)
    ensures ProtocolParameters(RequestParameters(client, clockMillis, nonce))
    ensures ProtocolParameters(CredentialRequestParameters(client, callbackUri, clockMillis, nonce))
    ensures ProtocolParameters(TokenRequestParameters(client, token, verifier, clockMillis, nonce))
    ensures ProtocolParameters(ResourceRequestParameters(client, token, clockMillis, nonce))
  {
    RequestParametersEntries(client, clockMillis, nonce);
    SpecificParametersEntries(client, callbackUri, token, verifier, clockMillis, nonce);
    ProtocolNameLists();
    assert RequestNames + [] == RequestNames;
  }


  // =====================================================================
  // Signing
  // =====================================================================

  /**
   * The oauth_signature value: HMAC-SHA1 of the signature base string over
   * the unsigned parameters, keyed by the client and token secrets.
   */
  function Signature(params: VariableMap, verb: string, target: Uri, body: Option<VariableMap>,
                     clientSecret: Option<string>, tokenSecret: Option<string>, lib: Library): string
  {
    lib.hmacSha1(SigningKey(clientSecret, tokenSecret),
                 SignatureBaseString(verb, target, Some(params), body, lib.parseForm))
  }

  /** The parameters with the signature added, as the session sends them. */
  function SignedParameters(params: VariableMap, verb: string, target: Uri, body: Option<VariableMap>,
                            clientSecret: Option<string>, tokenSecret: Option<string>, lib: Library): VariableMap
  {
    Add(params, "oauth_signature", Signature(params, verb, target, body, clientSecret, tokenSecret, lib))
  }

  /**
   * The signature is computed before it is added: the parameters it signs
   * hold no oauth_signature pair, and the signed map is the unsigned one
   * with a single signature entry appended.
   */
  lemma SignatureAppended(params: VariableMap, signature: string)
    requires ProtocolParameters(params)
    ensures forall p :: p in Occurrences(params.entries) ==> p.name != "oauth_signature"
    ensures Add(params, "oauth_signature", signature).entries == params.entries + [Entry("oauth_signature", [signature])]
    ensures WellFormed(Add(params, "oauth_signature", signature))
  {
    ProtocolIsWellFormed(params);
    NewNameAppended(params, "oauth_signature", signature);
    UpdatesKeepWellFormed(params, "oauth_signature", signature);
    forall p | p in Occurrences(params.entries) ensures p.name != "oauth_signature" {
      OccurrencesOfMap(params.entries, p.name, p.value);
      var k, j :| 0 <= k < |params.entries| && 0 <= j < |params.entries[k].values|
                  && params.entries[k].name == p.name && params.entries[k].values[j] == p.value;
      assert Keys(params)[k] == p.name;
    }
  }

  // =====================================================================
  // The Authorization header
  // =====================================================================

  /** One `name="value"` item: the name as it is, the value percent-encoded. */
  function HeaderItem(name: string, value: string): string
  {
    name + "=\"" + PercentEncoded(value) + "\""
  }

  /** The realm item, present only for a non-null, non-empty realm. */
  function RealmItems(realm: Option<string>): seq<string>
  {
    if realm.Some? && realm.value != "" then ["realm=\"" + PercentEncoded(realm.value) + "\""] else []
  }

  /** One item per name, in iteration order, carrying the name's first value (getFirst). */
  function PropertyItems(m: VariableMap): (r: seq<string>)
    ensures |r| == |m.entries|
  {
    ItemsOf(m, Keys(m))
  }

  /** The items of the given names, in order, each with the name's first value in m. */
  function ItemsOf(m: VariableMap, names: seq<string>): (r: seq<string>)
    ensures |r| == |names|
  {
    if names == [] then []
    else ItemsOf(m, names[..|names| - 1]) + [NamedItem(m, names[|names| - 1])]
  }

  /** The item of one name: its first value, or "" for a name without values. */
  function NamedItem(m: VariableMap, name: string): string
  {
    HeaderItem(name, OrEmpty(GetFirst(m, name)))
  }

  /** The k-th item belongs to the k-th name. */
  lemma {:induction false} ItemsOfAt(m: VariableMap, names: seq<string>, k: nat)
    requires k < |names|
    ensures ItemsOf(m, names)[k] == NamedItem(m, names[k])
    decreases |names|
  {
    if k < |names| - 1 {
      ItemsOfAt(m, names[..|names| - 1], k);
    }
  }

  /** The i-th item carries the i-th name and that name's first value. */
  lemma PropertyItemAt(m: VariableMap, i: nat)
    requires i < |m.entries|
    ensures PropertyItems(m)[i] == HeaderItem(m.entries[i].name, OrEmpty(GetFirst(m, m.entries[i].name)))
  {
    ItemsOfAt(m, Keys(m), i);
  }

  /** In a well-formed map the i-th item carries the i-th entry's name and its first value. */
  lemma EntryItem(m: VariableMap, i: nat)
    requires WellFormed(m) && i < |m.entries|
    ensures PropertyItems(m)[i] == HeaderItem(m.entries[i].name, m.entries[i].values[0])
  {
    PropertyItemAt(m, i);
    ValuesAt(m, i);
  }

  /** Setting or adding a new name to a well-formed map adds one item, last. */
  lemma PropertyItemsAppended(m: VariableMap, name: string, value: string)
    requires WellFormed(m) && name !in Keys(m)
    ensures WellFormed(Set(m, name, value)) && WellFormed(Add(m, name, value))
    ensures PropertyItems(Set(m, name, value)) == PropertyItems(Add(m, name, value))
         == PropertyItems(m) + [HeaderItem(name, value)]
  {
    NewNameAppended(m, name, value);
    UpdatesKeepWellFormed(m, name, value);
    var a := Add(m, name, value);
    assert Set(m, name, value) == a;
    PropertyItemsOfOneMore(m, a, name, value);
  }

  /** One entry appended to a well-formed map adds its item, last. */
  lemma PropertyItemsOfOneMore(m: VariableMap, longer: VariableMap, a: string, x: string)
    requires WellFormed(m) && WellFormed(longer)
    requires longer.entries == m.entries + [Entry(a, [x])]
    ensures PropertyItems(longer) == PropertyItems(m) + [HeaderItem(a, x)]
  {
    var n := |m.entries|;
    forall i | 0 <= i < n ensures PropertyItems(longer)[i] == PropertyItems(m)[i] {
      EntryItem(m, i);
      EntryItem(longer, i);
      assert longer.entries[i] == m.entries[i];
    }
    EntryItem(longer, n);
    OneMore(PropertyItems(longer), PropertyItems(m), HeaderItem(a, x));
  }

  /** A list that agrees with front on its first positions and ends in x is front + [x]. */
  lemma OneMore<T>(whole: seq<T>, front: seq<T>, x: T)
    requires |whole| == |front| + 1
    requires forall i :: 0 <= i < |front| ==> whole[i] == front[i]
    requires whole[|front|] == x
    ensures whole == front + [x]
  {
  }

  /** Two entries appended to a well-formed map add their two items, last. */
  lemma PropertyItemsOfTwoMore(m: VariableMap, longer: VariableMap, a: string, x: string, b: string, y: string)
    requires WellFormed(m) && WellFormed(longer)
    requires longer.entries == m.entries + [Entry(a, [x]), Entry(b, [y])]
    ensures PropertyItems(longer) == PropertyItems(m) + [HeaderItem(a, x), HeaderItem(b, y)]
  {
    var n := |m.entries|;
    forall i | 0 <= i < n ensures PropertyItems(longer)[i] == PropertyItems(m)[i] {
      EntryItem(m, i);
      EntryItem(longer, i);
      assert longer.entries[i] == m.entries[i];
    }
    EntryItem(longer, n);
    EntryItem(longer, n + 1);
    TwoMore(PropertyItems(longer), PropertyItems(m), HeaderItem(a, x), HeaderItem(b, y));
  }

  /** A list that agrees with front on its first positions and ends in x and y is front + [x, y]. */
  lemma TwoMore<T>(whole: seq<T>, front: seq<T>, x: T, y: T)
    requires |whole| == |front| + 2
    requires forall i :: 0 <= i < |front| ==> whole[i] == front[i]
    requires whole[|front|] == x && whole[|front| + 1] == y
    ensures whole == front + [x, y]
  {
  }

  /** The signed map's names, the signature's included, hold no ','. */
  lemma SignedNamesUnambiguous(params: VariableMap, signature: string)
    requires ProtocolParameters(params)
    ensures var signed := Add(params, "oauth_signature", signature);
            forall k :: 0 <= k < |signed.entries| ==> ',' !in signed.entries[k].name
  {
    ProtocolIsWellFormed(params);
    NewNameAppended(params, "oauth_signature", signature);
    var signed := Add(params, "oauth_signature", signature);
    assert ',' !in "oauth_signature";
    forall k | 0 <= k < |signed.entries| ensures ',' !in signed.entries[k].name {
      if k < |params.entries| {
        assert signed.entries[k] == params.entries[k];
      }
    }
  }

  /** The header text: "OAuth " and the items separated by ','. */
  function AuthorizationHeader(realm: Option<string>, m: VariableMap): string
  {
    "OAuth " + Join(RealmItems(realm) + PropertyItems(m), ',')
  }

  /** The realm item, written behind what the buffer holds. */
  method AppendRealmItem(realm: Option<string>, buf: string) returns (out: string)
    ensures out == buf + Join(RealmItems(realm), ',')
  {
    out := buf;
    if realm.Some? && realm.value != "" {
      out := out + "realm=\"";
      out := PercentEncode(realm.value, out);
      out := out + "\"";
      assert Join(RealmItems(realm), ',') == RealmItems(realm)[0];
    }
  }

  /** One turn of oauthHeader's loop: a ',' unless this is the first item, then the i-th name's item. */
  method AppendNextItem(m: VariableMap, names: seq<string>, i: nat, buf: string, first: bool,
                        ghost realmItems: seq<string>) returns (out: string, first': bool)
    requires NonEmptyValues(m.entries) && names == Keys(m) && i < |names|
    requires first <==> |realmItems| + i == 0
    requires buf == "OAuth " + Join(realmItems + ItemsOf(m, names[..i]), ',')
    ensures !first'
    ensures out == "OAuth " + Join(realmItems + ItemsOf(m, names[..i + 1]), ',')
  {
    out := buf;
    if !first {
      out := out + ",";
    }
    out := AppendNamedItem(m, names[i], out);
    first' := false;
    ghost var done, item := ItemsOf(m, names[..i]), NamedItem(m, names[i]);
    ItemsOfStep(m, names, i);
    AppendAssociative(realmItems, done, [item]);
    JoinExtend("OAuth ", realmItems + done, item, ',');
  }

  /** Taking one more name adds that name's item. */
  lemma ItemsOfStep(m: VariableMap, names: seq<string>, i: nat)
    requires i < |names|
    ensures ItemsOf(m, names[..i + 1]) == ItemsOf(m, names[..i]) + [NamedItem(m, names[i])]
  {
    assert names[..i + 1][..i] == names[..i];
  }

  /** A known name's item, written behind what the buffer holds. */
  method AppendNamedItem(m: VariableMap, name: string, buf: string) returns (out: string)
    requires NonEmptyValues(m.entries) && name in Keys(m)
    ensures out == buf + NamedItem(m, name)
  {
    KnownNameHasFirst(m, name);
    var value := GetFirst(m, name).value;
    out := buf + name + "=\"";
    out := PercentEncode(value, out);
    out := out + "\"";
  }

  /**
   * Reading a header back: after "OAuth " it splits at ',' into exactly
   * the realm item (when there is a realm) and one item per parameter.
   */
  lemma {:induction false} AuthorizationHeaderStructure(realm: Option<string>, m: VariableMap)
    requires |m.entries| > 0
    requires forall k :: 0 <= k < |m.entries| ==> ',' !in m.entries[k].name
    ensures AuthorizationHeader(realm, m)[..6] == "OAuth "
    ensures Split(AuthorizationHeader(realm, m)[6..], ',') == RealmItems(realm) + PropertyItems(m)
  {
    ItemsUnambiguous(realm, m);
    HeaderSplits(RealmItems(realm) + PropertyItems(m));
  }

  /** No item of a header whose names hold no ',' holds a ','. */
  lemma ItemsUnambiguous(realm: Option<string>, m: VariableMap)
    requires forall k :: 0 <= k < |m.entries| ==> ',' !in m.entries[k].name
    ensures forall k :: 0 <= k < |RealmItems(realm) + PropertyItems(m)| ==> ',' !in (RealmItems(realm) + PropertyItems(m))[k]
  {
    var realmItems, propertyItems := RealmItems(realm), PropertyItems(m);
    if realmItems != [] {
      PercentEncodedAlphabet(realm.value);
    }
    forall k | 0 <= k < |propertyItems| ensures ',' !in propertyItems[k] {
      PropertyItemUnambiguous(m, k);
    }
    FreeOfBoth(realmItems, propertyItems, ',');
  }

  /** When no piece of a or of b holds c, no piece of a + b does. */
  lemma FreeOfBoth(a: seq<string>, b: seq<string>, c: char)
    requires forall k :: 0 <= k < |a| ==> c !in a[k]
    requires forall k :: 0 <= k < |b| ==> c !in b[k]
    ensures forall k :: 0 <= k < |a + b| ==> c !in (a + b)[k]
  {
    forall k | 0 <= k < |a + b| ensures c !in (a + b)[k] {
      if k >= |a| {
        assert (a + b)[k] == b[k - |a|];
      }
    }
  }

  /** "OAuth " and items free of ',' joined by ',' split back into those items. */
  lemma HeaderSplits(items: seq<string>)
    requires |items| > 0
    requires forall k :: 0 <= k < |items| ==> ',' !in items[k]
    ensures ("OAuth " + Join(items, ','))[..6] == "OAuth "
    ensures Split(("OAuth " + Join(items, ','))[6..], ',') == items
  {
    SplitJoin(items, ',');
    assert ("OAuth " + Join(items, ','))[6..] == Join(items, ',');
  }

  /** An item of a name without ',' holds no ',': its value is percent-encoded. */
  lemma PropertyItemUnambiguous(m: VariableMap, i: nat)
    requires i < |m.entries| && ',' !in m.entries[i].name
    ensures ',' !in PropertyItems(m)[i]
  {
    PropertyItemAt(m, i);
    PercentEncodedAlphabet(OrEmpty(GetFirst(m, m.entries[i].name)));
  }


  /**
   * The header of a signed request lists the realm, the unsigned
   * parameters in their order, and the signature last.
   */
  lemma SignedHeaderStructure(realm: Option<string>, params: VariableMap, signature: string)
    requires ProtocolParameters(params)
    ensures var signed := Add(params, "oauth_signature", signature);
            && AuthorizationHeader(realm, signed)[..6] == "OAuth "
            && Split(AuthorizationHeader(realm, signed)[6..], ',')
               == RealmItems(realm) + PropertyItems(params) + [HeaderItem("oauth_signature", signature)]
  {
    ProtocolIsWellFormed(params);
    NewNameAppended(params, "oauth_signature", signature);
    PropertyItemsAppended(params, "oauth_signature", signature);
    var signed := Add(params, "oauth_signature", signature);
    SignedNamesUnambiguous(params, signature);
    AuthorizationHeaderStructure(realm, signed);
    AppendAssociative(RealmItems(realm), PropertyItems(params), [HeaderItem("oauth_signature", signature)]);
  }

  // =====================================================================
  // The requests the session issues
  // =====================================================================

  /** The temporary-credential request: signed with the client secret alone, empty text/xml body. */
  function CredentialRequest(client: Config, callbackUri: Option<Uri>, clockMillis: nat, nonce: string, lib: Library): Request
  {
    var params := CredentialRequestParameters(client, callbackUri, clockMillis, nonce);
    var signed := SignedParameters(params, client.credentialRequestVerb, client.credentialRequestUri, None,
                                   client.sharedSecret, None, lib);
    Request(client.credentialRequestVerb, client.credentialRequestUri,
            Some(AuthorizationHeader(client.realm, signed)), Some("text/xml"), None)
  }

  /** The token-credential request: signed with the client secret and the temporary token secret. */
  function TokenRequest(client: Config, token: string, verifier: string, tokenSecret: Option<string>,
                        clockMillis: nat, nonce: string, lib: Library): Request
  {
    var params := TokenRequestParameters(client, token, verifier, clockMillis, nonce);
    var signed := SignedParameters(params, client.tokenRequestVerb, client.tokenRequestUri, None,
                                   client.sharedSecret, tokenSecret, lib);
    Request(client.tokenRequestVerb, client.tokenRequestUri,
            Some(AuthorizationHeader(client.realm, signed)), Some("text/xml"), None)
  }

  /** The header of a resource request: signed over the request body's parameters too. */
  function ResourceHeader(client: Config, token: string, tokenSecret: Option<string>, verb: string, target: Uri,
                          body: Option<VariableMap>, clockMillis: nat, nonce: string, lib: Library): string
  {
    var params := ResourceRequestParameters(client, token, clockMillis, nonce);
    AuthorizationHeader(client.realm, SignedParameters(params, verb, target, body, client.sharedSecret, tokenSecret, lib))
  }

  /** A resource request: only a POST carries a form body, the empty form when there is none. */
  function ResourceRequest(client: Config, token: string, tokenSecret: Option<string>, verb: string, target: Uri,
                           body: Option<VariableMap>, clockMillis: nat, nonce: string, lib: Library): Request
  {
    var header := ResourceHeader(client, token, tokenSecret, verb, target, body, clockMillis, nonce, lib);
    if verb == "POST" then
      Request(verb, target, Some(header), Some(FormContentType), Some(if body.Some? then body.value else Empty))
    else
      Request(verb, target, Some(header), None, None)
  }

  /**
   * A signed token request's header reads back as the realm, the five
   * common parameters, the held token, the verifier and the signature.
   */
  lemma TokenHeaderStructure(client: Config, token: string, verifier: string, clockMillis: nat, nonce: string,
                             signature: string)
    ensures var params := TokenRequestParameters(client, token, verifier, clockMillis, nonce);
            var signed := Add(params, "oauth_signature", signature);
            && Split(AuthorizationHeader(client.realm, signed)[6..], ',')
               == RealmItems(client.realm) + PropertyItems(RequestParameters(client, clockMillis, nonce))
                  + [HeaderItem("oauth_token", token), HeaderItem("oauth_verifier", verifier),
                     HeaderItem("oauth_signature", signature)]
  {
    var params := TokenRequestParameters(client, token, verifier, clockMillis, nonce);
    TokenParametersItems(client, token, verifier, clockMillis, nonce);
    SignedHeaderStructure(client.realm, params, signature);
    var signed := Add(params, "oauth_signature", signature);
    Regroup(Split(AuthorizationHeader(client.realm, signed)[6..], ','), RealmItems(client.realm),
            PropertyItems(params), PropertyItems(RequestParameters(client, clockMillis, nonce)),
            HeaderItem("oauth_token", token), HeaderItem("oauth_verifier", verifier),
            HeaderItem("oauth_signature", signature));
  }

  /** Regrouping a list built in two steps: a, then c with t and v, then sig. */
  lemma Regroup<T>(whole: seq<T>, a: seq<T>, mid: seq<T>, c: seq<T>, t: T, v: T, sig: T)
    requires mid == c + [t, v]
    requires whole == a + mid + [sig]
    ensures whole == a + c + [t, v, sig]
  {
    AppendAssociative(a, c + [t, v], [sig]);
    AppendAssociative(c, [t, v], [sig]);
    AppendAssociative(a, c, [t, v, sig]);
  }

  /** The token request's parameters are protocol parameters whose items are the common ones, the token and the verifier. */
  lemma TokenParametersItems(client: Config, token: string, verifier: string, clockMillis: nat, nonce: string)
    ensures ProtocolParameters(TokenRequestParameters(client, token, verifier, clockMillis, nonce))
    ensures PropertyItems(TokenRequestParameters(client, token, verifier, clockMillis, nonce))
            == PropertyItems(RequestParameters(client, clockMillis, nonce))
               + [HeaderItem("oauth_token", token), HeaderItem("oauth_verifier", verifier)]
  {
    var params := TokenRequestParameters(client, token, verifier, clockMillis, nonce);
    var common := RequestParameters(client, clockMillis, nonce);
    ParametersAreProtocol(client, None, token, verifier, clockMillis, nonce);
    SpecificParametersEntries(client, None, token, verifier, clockMillis, nonce);
    ProtocolIsWellFormed(params);
    ProtocolIsWellFormed(common);
    PropertyItemsOfTwoMore(common, params, "oauth_token", token, "oauth_verifier", verifier);
  }

  /**
   * Where the user is sent to authorize the temporary token: the
   * authorization URI with its query replaced by oauth_token=<token>; a
   * missing token reads "null".
   */
  function AuthorizationRedirect(client: Config, token: Option<string>): Uri
  {
    ReplaceRawQuery(client.authorizationUri, "oauth_token=" + OrNullText(token))
  }

  /**
   * The redirect keeps the authorization URI's scheme, authority and path,
   * and its whole query is the one oauth_token pair; with no token in the
   * reply the query reads oauth_token=null.
   */
  lemma AuthorizationRedirectQuery(client: Config, token: Option<string>)
    ensures var r := AuthorizationRedirect(client, token);
            && r.scheme == client.authorizationUri.scheme && r.authority == client.authorizationUri.authority
            && r.rawPath == client.authorizationUri.rawPath
            && (token.Some? ==> r.rawQuery == Some("oauth_token=" + token.value))
            && (token.None? ==> r.rawQuery == Some("oauth_token=null"))
  {
    assert "oauth_token=" + "null" == "oauth_token=null";
  }

  // =====================================================================
  // The session
  // =====================================================================

  class Session {
    const client: Config
    var oauthToken: Option<string>
    var oauthTokenSecret: Option<string>
    var temporary: bool
    var returnUri: Option<Uri>
    var problem: Option<string>

    /** A new session holds no credentials. */
    constructor(client: Config)
      ensures this.client == client
      ensures oauthToken == None && oauthTokenSecret == None && !temporary
      ensures returnUri == None && problem == None
    {
      this.client := client;
      oauthToken := None;
      oauthTokenSecret := None;
      temporary := false;
      returnUri := None;
      problem := None;
    }

    method SetReturnUri(returnUri: Option<Uri>)
      modifies this`returnUri
      ensures this.returnUri == returnUri
    {
      this.returnUri := returnUri;
    }

    /** Only token credentials, not temporary ones, make a valid token. */
    function IsTokenValid(): (valid: bool)
      reads this
      ensures valid ==> oauthToken.Some?
      ensures valid <==> oauthToken.Some? && !temporary
    {
      oauthToken.Some? && !temporary
    }

    /** makeRequestParameters: five `set` calls on a new map. */
    method MakeRequestParameters(clockMillis: nat, nonce: string) returns (params: VariableMap)
      ensures params == RequestParameters(client, clockMillis, nonce)
    {
      ghost var todo := CommonSettings(client, clockMillis, nonce);
      params := Empty;
      SetAllStep(params, todo);
      params := Set(params, "oauth_timestamp", Decimal(clockMillis / 1000));
      todo := todo[1..];
      SetAllStep(params, todo);
      params := Set(params, "oauth_consumer_key", client.clientId);
      todo := todo[1..];
      SetAllStep(params, todo);
      params := Set(params, "oauth_version", "1.0");
      todo := todo[1..];
      SetAllStep(params, todo);
      params := Set(params, "oauth_signature_method", "HMAC-SHA1");
      todo := todo[1..];
      SetAllStep(params, todo);
      params := Set(params, "oauth_nonce", nonce);
      todo := todo[1..];
      assert todo == [];
    }

    /** makeCredentialRequestParameters: the common map, and oauth_callback set when a callback is known. */
    method MakeCredentialRequestParameters(callbackUri: Option<Uri>, clockMillis: nat, nonce: string)
      returns (params: VariableMap)
      ensures params == CredentialRequestParameters(client, callbackUri, clockMillis, nonce)
    {
      var callback := if callbackUri.None? then client.callbackUri else callbackUri;
      params := MakeRequestParameters(clockMillis, nonce);
      if callback.Some? {
        SetAllStep(params, CallbackSettings(callback));
        params := Set(params, "oauth_callback", UriText(callback.value));
      }
    }

    /** makeTokenRequestParameters: the common map, then the held token and the verifier. */
    method MakeTokenRequestParameters(verifier: string, clockMillis: nat, nonce: string) returns (params: VariableMap)
      requires oauthToken.Some?
      ensures params == TokenRequestParameters(client, oauthToken.value, verifier, clockMillis, nonce)
    {
      ghost var todo := [("oauth_token", oauthToken.value), ("oauth_verifier", verifier)];
      params := MakeRequestParameters(clockMillis, nonce);
      SetAllStep(params, todo);
      params := Set(params, "oauth_token", oauthToken.value);
      SetAllStep(params, todo[1..]);
      params := Set(params, "oauth_verifier", verifier);
      assert todo[1..][1..] == [];
    }

    /** makeResourceRequestParameters: the common map, then the held token. */
    method MakeResourceRequestParameters(clockMillis: nat, nonce: string) returns (params: VariableMap)
      requires oauthToken.Some?
      ensures params == ResourceRequestParameters(client, oauthToken.value, clockMillis, nonce)
    {
      params := MakeRequestParameters(clockMillis, nonce);
      SetAllStep(params, [("oauth_token", oauthToken.value)]);
      params := Set(params, "oauth_token", oauthToken.value);
    }

    /** The parameters with their signature added; the base string is taken over the unsigned map. */
    method Sign(params: VariableMap, verb: string, target: Uri, body: Option<VariableMap>, tokenSecret: Option<string>,
                lib: Library) returns (signed: VariableMap)
      ensures signed == SignedParameters(params, verb, target, body, client.sharedSecret, tokenSecret, lib)
      ensures NonEmptyValues(params.entries) ==> NonEmptyValues(signed.entries)
    {
      var base := SignatureBase(verb, target, Some(params), body, lib.parseForm);
      var signature := SignHmacSha1(base, client.sharedSecret, tokenSecret, lib.hmacSha1);
      signed := Add(params, "oauth_signature", signature);
      if NonEmptyValues(params.entries) {
        UpdatesKeepNonEmpty(params, "oauth_signature", signature);
      }
    }

    /** oauthHeader: the realm item first when there is a realm, then one item per name. */
    method OAuthHeader(oauthProperties: VariableMap) returns (header: string)
      requires NonEmptyValues(oauthProperties.entries)
      ensures header == AuthorizationHeader(client.realm, oauthProperties)
    {
      ghost var realmItems := RealmItems(client.realm);
      var names := Keys(oauthProperties);
      var buf := AppendRealmItem(client.realm, "OAuth ");
      var first := !(client.realm.Some? && client.realm.value != "");
      assert realmItems + ItemsOf(oauthProperties, names[..0]) == realmItems;
      for i := 0 to |names|
        invariant first <==> |realmItems| + i == 0
        invariant buf == "OAuth " + Join(realmItems + ItemsOf(oauthProperties, names[..i]), ',')
      {
        buf, first := AppendNextItem(oauthProperties, names, i, buf, first, realmItems);
      }
      assert names[..|names|] == names;
      header := buf;
    }

    /** The request for temporary credentials: its parameters signed with the client secret alone. */
    method SignedCredentialRequest(callbackUri: Option<Uri>, clockMillis: nat, nonce: string, lib: Library)
      returns (request: Request)
      ensures request == CredentialRequest(client, callbackUri, clockMillis, nonce, lib)
    {
      var params := MakeCredentialRequestParameters(callbackUri, clockMillis, nonce);
      ParametersHaveValues(client, callbackUri, "", "", clockMillis, nonce);
      var signed := Sign(params, client.credentialRequestVerb, client.credentialRequestUri, None, None, lib);
      var header := OAuthHeader(signed);
      request := Request(client.credentialRequestVerb, client.credentialRequestUri, Some(header), Some("text/xml"), None);
    }

    /** The request for token credentials: its parameters signed with the client and held token secrets. */
    method SignedTokenRequest(token: string, verifier: string, clockMillis: nat, nonce: string, lib: Library)
      returns (request: Request)
      requires oauthToken == Some(token)
      ensures request == TokenRequest(client, token, verifier, oauthTokenSecret, clockMillis, nonce, lib)
    {
      var params := MakeTokenRequestParameters(verifier, clockMillis, nonce);
      ParametersHaveValues(client, None, token, verifier, clockMillis, nonce);
      var signed := Sign(params, client.tokenRequestVerb, client.tokenRequestUri, None, oauthTokenSecret, lib);
      var header := OAuthHeader(signed);
      request := Request(client.tokenRequestVerb, client.tokenRequestUri, Some(header), Some("text/xml"), None);
    }

    /**
     * Reads the credentials out of a delivered reply (its oauth_token and
     * oauth_token_secret, null when missing) and sets the phase; a refused
     * or failed round trip changes nothing.
     */
    method TakeCredentials(exchange: Exchange, lib: Library, stillTemporary: bool) returns (reply: Result<string, Error>)
      modifies this`oauthToken, this`oauthTokenSecret, this`temporary
      ensures reply == ExchangeResult(exchange)
      ensures exchange.Delivered? ==>
                var form := lib.parseForm(exchange.content);
                && oauthToken == GetFirst(form, "oauth_token")
                && oauthTokenSecret == GetFirst(form, "oauth_token_secret")
                && temporary == stillTemporary
      ensures !exchange.Delivered? ==>
                oauthToken == old(oauthToken) && oauthTokenSecret == old(oauthTokenSecret) && temporary == old(temporary)
    {
      reply := ExchangeResult(exchange);
      if exchange.Delivered? {
        var form := lib.parseForm(exchange.content);
        oauthToken := GetFirst(form, "oauth_token");
        oauthTokenSecret := GetFirst(form, "oauth_token_secret");
        temporary := stillTemporary;
      }
    }

    /**
     * startAuthSequence: enters the temporary phase, sends the signed
     * credential request and, on a reply, holds the temporary token and
     * secret and returns the authorisation URI naming the token.
     */
    method StartAuthSequence(callbackUri: Option<Uri>, clockMillis: nat, nonce: string, lib: Library, exchange: Exchange)
      returns (request: Request, result: Result<Uri, Error>)
      modifies this`oauthToken, this`oauthTokenSecret, this`temporary, this`problem
      ensures request == CredentialRequest(client, callbackUri, clockMillis, nonce, lib)
      ensures temporary && problem == None
      ensures !IsTokenValid()
      ensures exchange.Delivered? ==>
                var reply := lib.parseForm(exchange.content);
                && oauthToken == GetFirst(reply, "oauth_token")
                && oauthTokenSecret == GetFirst(reply, "oauth_token_secret")
                && result == Success(AuthorizationRedirect(client, oauthToken))
      ensures !exchange.Delivered? ==>
                && oauthToken == old(oauthToken) && oauthTokenSecret == old(oauthTokenSecret)
                && result == Failure(ExchangeResult(exchange).error)
    {
      request := SignedCredentialRequest(callbackUri, clockMillis, nonce, lib);
      result := TakeTemporaryCredentials(exchange, lib);
    }

    /**
     * Enters the temporary phase (no problem recorded, temporary set) and
     * takes the reply to the credential request: the temporary credentials
     * and the URI to send the user to. The source clears the problem before
     * signing; signing reads neither field, so doing it here is the same.
     */
    method TakeTemporaryCredentials(exchange: Exchange, lib: Library) returns (result: Result<Uri, Error>)
      modifies this`oauthToken, this`oauthTokenSecret, this`temporary, this`problem
      ensures temporary && problem == None
      ensures !IsTokenValid()
      ensures exchange.Delivered? ==>
                var reply := lib.parseForm(exchange.content);
                && oauthToken == GetFirst(reply, "oauth_token")
                && oauthTokenSecret == GetFirst(reply, "oauth_token_secret")
                && result == Success(AuthorizationRedirect(client, oauthToken))
      ensures !exchange.Delivered? ==>
                && oauthToken == old(oauthToken) && oauthTokenSecret == old(oauthTokenSecret)
                && result == Failure(ExchangeResult(exchange).error)
    {
      problem, temporary := None, true;
      var reply := TakeCredentials(exchange, lib, true);
      if reply.Success? {
        result := Success(AuthorizationRedirect(client, oauthToken));
      } else {
        result := Failure(reply.error);
      }
    }

    /** abortAuthSequence: records the failure code and nothing else. */
    method AbortAuthSequence(failureCode: Option<string>)
      modifies this`problem
      ensures problem == failureCode
    {
      problem := failureCode;
    }

    /**
     * completeAuthSequence: refuses outside the temporary phase, without a
     * token and verifier, or for a token other than the one held; otherwise
     * exchanges the temporary credentials for token credentials.
     */
    method CompleteAuthSequence(token: Option<string>, verifier: Option<string>, clockMillis: nat, nonce: string,
                                lib: Library, exchange: Exchange)
      returns (request: Option<Request>, result: Result<(), Error>)
      modifies this`oauthToken, this`oauthTokenSecret, this`temporary
      ensures !old(temporary) ==> result == Failure(AlreadyCompleted)
      ensures old(temporary) && (token == None || verifier == None) ==> result == Failure(MissingCredentials)
      ensures old(temporary) && token.Some? && verifier.Some? && token != old(oauthToken) ==> result == Failure(TokenMismatch)
      ensures request.Some? <==> old(temporary) && token.Some? && verifier.Some? && token == old(oauthToken)
      ensures request.Some? ==>
                request.value == TokenRequest(client, token.value, verifier.value, old(oauthTokenSecret), clockMillis, nonce, lib)
      ensures request.Some? && exchange.Delivered? ==>
                var reply := lib.parseForm(exchange.content);
                && oauthToken == GetFirst(reply, "oauth_token")
                && oauthTokenSecret == GetFirst(reply, "oauth_token_secret")
                && !temporary
                && (IsTokenValid() <==> GetFirst(reply, "oauth_token").Some?)
                && result == Success(())
      ensures request.None? || !exchange.Delivered? ==>
                && oauthToken == old(oauthToken) && oauthTokenSecret == old(oauthTokenSecret)
                && temporary == old(temporary)
      ensures request.Some? && !exchange.Delivered? ==> result == Failure(ExchangeResult(exchange).error)
    {
      if !temporary {
        return None, Failure(AlreadyCompleted);
      }
      if token == None || verifier == None {
        return None, Failure(MissingCredentials);
      }
      if token != oauthToken {
        return None, Failure(TokenMismatch);
      }
      var tokenRequest := SignedTokenRequest(token.value, verifier.value, clockMillis, nonce, lib);
      request := Some(tokenRequest);
      var reply := TakeCredentials(exchange, lib, false);
      if reply.Success? {
        result := Success(());
      } else {
        result := Failure(reply.error);
      }
    }

    /** signedResourceRequestHeader: the header for a request, signed with both secrets over its body as well. */
    method SignedResourceRequestHeader(verb: string, target: Uri, body: Option<VariableMap>, clockMillis: nat,
                                       nonce: string, lib: Library) returns (header: string)
      requires oauthToken.Some?
      ensures header == ResourceHeader(client, oauthToken.value, oauthTokenSecret, verb, target, body, clockMillis, nonce, lib)
    {
      var params := MakeResourceRequestParameters(clockMillis, nonce);
      ParametersHaveValues(client, None, oauthToken.value, "", clockMillis, nonce);
      var signed := Sign(params, verb, target, body, oauthTokenSecret, lib);
      header := OAuthHeader(signed);
    }

    /** call: one signed resource request; the session itself is left as it was. */
    method Call(verb: string, target: Uri, body: Option<VariableMap>, clockMillis: nat, nonce: string,
                lib: Library, exchange: Exchange) returns (request: Request, result: Result<string, Error>)
      requires oauthToken.Some?
      ensures request == ResourceRequest(client, oauthToken.value, oauthTokenSecret, verb, target, body, clockMillis, nonce, lib)
      ensures result == ExchangeResult(exchange)
    {
      var header := SignedResourceRequestHeader(verb, target, body, clockMillis, nonce, lib);
      if verb == "POST" {
        var form := if body.Some? then body.value else Empty;
        request := Request(verb, target, Some(header), Some(FormContentType), Some(form));
      } else {
        request := Request(verb, target, Some(header), None, None);
      }
      result := ExchangeResult(exchange);
    }

    /** clear: back to the state of a new session. */
    method Clear()
      modifies this
      ensures oauthToken == None && oauthTokenSecret == None && !temporary
      ensures returnUri == None && problem == None
      ensures !IsTokenValid()
    {
      oauthToken := None;
      oauthTokenSecret := None;
      temporary := false;
      returnUri := None;
      problem := None;
    }

    /** invalidate: a GET to the invalidation URI; the session is cleared only when that call returns. */
    method Invalidate(clockMillis: nat, nonce: string, lib: Library, exchange: Exchange)
      returns (request: Request, result: Result<(), Error>)
      requires oauthToken.Some?
      modifies this
      ensures request == ResourceRequest(client, old(oauthToken).value, old(oauthTokenSecret), "GET",
                                         client.tokenInvalidateUri, None, clockMillis, nonce, lib)
      ensures request.body == None
      ensures exchange.Delivered? ==>
                && result == Success(())
                && oauthToken == None && oauthTokenSecret == None && !temporary
                && returnUri == None && problem == None
      ensures !exchange.Delivered? ==>
                && result == Failure(ExchangeResult(exchange).error)
                && oauthToken == old(oauthToken) && oauthTokenSecret == old(oauthTokenSecret)
                && temporary == old(temporary) && returnUri == old(returnUri) && problem == old(problem)
    {
      var reply;
      request, reply := Call("GET", client.tokenInvalidateUri, None, clockMillis, nonce, lib, exchange);
      if reply.Failure? {
        return request, Failure(reply.error);
      }
      Clear();
      result := Success(());
    }
  }
}

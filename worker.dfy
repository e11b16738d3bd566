/** The request side of the worker (index.js:24-120, 181-200): registration
    issues a user name and its credential, an update request passes a chain of
    guards before one TXT record is created at the DNS provider, and the router
    sends everything else to 404. Responses are modelled by their status and
    JSON payload; the provider's answer to the create call is an input. */
module Worker {
  import opened Wrappers
  import opened TextEncoding
  import opened Credential
  import opened Json

  /** The configuration the handlers read: `env.HMAC_SECRET` and `env.DOMAIN_SUFFIX`. */
  datatype Env = Env(hmacSecret: string, domainSuffix: string)

  /** An incoming request: method, URL path, the `X-Api-User` and `X-Api-Key`
      headers (None when absent) and the body as JSON (None when it does not parse). */
  datatype Request = Request(
    httpMethod: string,
    path: string,
    apiUser: Option<string>,
    apiKey: Option<string>,
    body: Option<Json>)

  /** The body of the provider call that creates a DNS record (index.js:89-94). */
  datatype CreateRecord = CreateRecord(recordType: string, name: string, content: string, ttl: int)

  /** The JSON payload of a response. */
  datatype Payload =
    | ErrorMessage(error: string)
    | Txt(txt: Json)
    | Registration(username: string, password: string, fulldomain: string,
                   subdomain: string, allowfrom: seq<string>)

  datatype Response = Response(status: int, payload: Payload)

  /** What a handler does: it answers, having issued at most one create call
      to the provider, or it throws an exception that the runtime turns into
      its own error page. */
  datatype Outcome = Responded(response: Response, created: Option<CreateRecord>) | Threw

  /** The address ranges a registered client may update from. */
  const OpenCidrs: seq<string> := ["0.0.0.0/0", "::/0"]

  function Reply(status: int, error: string): Outcome {
    Responded(Response(status, ErrorMessage(error)), None)
  }

  /** The template `${subdomain}.${suffix}` of index.js:28 and index.js:77. */
  function FullDomain(subdomain: string, suffix: string): string {
    subdomain + "." + suffix
  }

  /** `handleRegister` (index.js:24-42) with the value of `crypto.randomUUID()`
      given as `uuid`. */
  function HandleRegister(env: Env, mac: Mac, uuid: string): (r: Outcome)
    ensures r.Responded? && r.created == None && r.response.status == 201
    ensures r.response.payload.Registration?
    ensures r.response.payload.username == uuid && r.response.payload.subdomain == uuid
    ensures r.response.payload.fulldomain == uuid + "." + env.domainSuffix
    ensures r.response.payload.password == GenerateHmac(mac, uuid, env.hmacSecret)
    ensures r.response.payload.allowfrom == ["0.0.0.0/0", "::/0"]
    ensures VerifyHmac(mac, uuid, r.response.payload.password, env.hmacSecret)
  {
    var password := GenerateHmac(mac, uuid, env.hmacSecret);
    var subdomain := uuid;
    Responded(Response(201, Registration(uuid, password, FullDomain(subdomain, env.domainSuffix),
                                         subdomain, OpenCidrs)), None)
  }

  /** The body after `request.json().catch(() => ({}))`: a body that does not
      parse counts as the empty object. */
  function EffectiveBody(body: Option<Json>): (b: Json)
    ensures body.None? ==> b == JObject(map[])
  {
    if body.Some? then body.value else JObject(map[])
  }

  /** A header `!h` does not reject: present and not empty. */
  predicate Filled(h: Option<string>) {
    h.Some? && h.value != ""
  }

  /** Every field the update handler needs is there and truthy (index.js:49). */
  predicate FieldsPresent(user: Option<string>, key: Option<string>, body: Json)
    requires !body.JNull?
  {
    Truthy(Property(body, "subdomain")) && Truthy(Property(body, "txt")) && Filled(user) && Filled(key)
  }

  /** The request names itself: the body's subdomain is the string in `X-Api-User`. */
  predicate SubdomainMatches(user: Option<string>, body: Json)
    requires !body.JNull? && user.Some?
  {
    Property(body, "subdomain") == Some(JString(user.value))
  }

  /** All three guards of index.js:49-75 pass: the body is not `null`, every
      field is present, the body names the user, and the key is the credential
      issued for the user. */
  predicate PassesGuards(env: Env, mac: Mac, user: Option<string>, key: Option<string>, body: Option<Json>) {
    var b := EffectiveBody(body);
    !b.JNull? && FieldsPresent(user, key, b) && SubdomainMatches(user, b) &&
    key.value == GenerateHmac(mac, user.value, env.hmacSecret)
  }

  /** The `txt` field of a request that passes the guards. */
  function TxtField(env: Env, mac: Mac, user: Option<string>, key: Option<string>, body: Option<Json>): Json
    requires PassesGuards(env, mac, user, key, body)
  {
    Property(EffectiveBody(body), "txt").value
  }

  /** `handleUpdate` (index.js:44-120). The provider's answer to the create
      call, true when the answer's `success` is truthy and false when the call
      throws or reports failure, is `provider`. A JSON `null` body makes the
      property access on index.js:49 throw. Otherwise: a missing or falsy field
      and a subdomain other than the user give 400 without touching the
      provider; a credential other than the one issued for the user gives 401.
      A request passing all three guards builds the record
      `<subdomain>.<suffix>` with the quoted text and automatic TTL inside the
      `try` of index.js:80; when `${body.txt}` throws there, the `catch` leads
      to 500 with no provider call, and otherwise the record is created and
      the answer is 200 with the text when the provider succeeds and 500
      when it does not. */
  function HandleUpdate(env: Env, mac: Mac, user: Option<string>, key: Option<string>,
                        body: Option<Json>, provider: CreateRecord -> bool): (r: Outcome)
    ensures r.Threw? <==> body == Some(JNull)
    ensures r.Responded? ==> r.response.status in {200, 400, 401, 500}
    ensures r.Responded? && r.response.status == 400 <==>
              !EffectiveBody(body).JNull? &&
              (!FieldsPresent(user, key, EffectiveBody(body)) || !SubdomainMatches(user, EffectiveBody(body)))
    ensures r.Responded? && r.response.status == 400 ==> r == Reply(400, "bad request")
    ensures r.Responded? && r.response.status == 401 <==>
              !EffectiveBody(body).JNull? &&
              FieldsPresent(user, key, EffectiveBody(body)) && SubdomainMatches(user, EffectiveBody(body)) &&
              key.value != GenerateHmac(mac, user.value, env.hmacSecret)
    ensures r.Responded? && r.response.status == 401 ==> r == Reply(401, "unauthorized")
    ensures r.Responded? && r.created.Some? <==>
              PassesGuards(env, mac, user, key, body) &&
              !ConversionThrows(TxtField(env, mac, user, key, body))
    ensures r.Responded? && r.created.Some? ==>
              r.created.value == CreateRecord("TXT", user.value + "." + env.domainSuffix,
                                              "\"" + ToText(TxtField(env, mac, user, key, body)).value + "\"", 1)
    ensures PassesGuards(env, mac, user, key, body) && ConversionThrows(TxtField(env, mac, user, key, body)) ==>
              r == Reply(500, "internal server error")
    ensures r.Responded? && r.response.status == 200 <==> r.Responded? && r.created.Some? && provider(r.created.value)
    ensures r.Responded? && r.response.status == 200 ==>
              r.response.payload == Txt(TxtField(env, mac, user, key, body))
    ensures r.Responded? && r.response.status == 500 <==>
              PassesGuards(env, mac, user, key, body) &&
              (ConversionThrows(TxtField(env, mac, user, key, body)) || !provider(r.created.value))
    ensures r.Responded? && r.response.status == 500 ==>
              r.response.payload == ErrorMessage("internal server error")
  {
    var b := EffectiveBody(body);
    if b.JNull? then
      Threw
    else
      var subdomain := Property(b, "subdomain");
      var txt := Property(b, "txt");
      if !Truthy(subdomain) || !Truthy(txt) || !Filled(user) || !Filled(key) then
        Reply(400, "bad request")
      else if subdomain.value != JString(user.value) then
        Reply(400, "bad request")
      else if !VerifyHmac(mac, user.value, key.value, env.hmacSecret) then
        Reply(401, "unauthorized")
      else
        var recordName := FullDomain(ToText(subdomain.value).value, env.domainSuffix);
        var content := ToText(txt.value);
        if content.None? then
          Reply(500, "internal server error")
        else
          var record := CreateRecord("TXT", recordName, "\"" + content.value + "\"", 1);
          if provider(record) then
            Responded(Response(200, Txt(txt.value)), Some(record))
          else
            Responded(Response(500, ErrorMessage("internal server error")), Some(record))
  }

  /** A body that does not parse counts as `{}` (index.js:47), which lacks both
      fields: the request is refused with 400 and the provider is not called. */
  lemma UnparsedBodyRejected(env: Env, mac: Mac, user: Option<string>, key: Option<string>,
                             provider: CreateRecord -> bool)
    ensures HandleUpdate(env, mac, user, key, None, provider) == Reply(400, "bad request")
  {
    assert Property(EffectiveBody(None), "subdomain") == None;
  }

  /** The `fetch` entry point (index.js:181-200) with the `randomUUID` value a
      registration would draw: `POST /register` and `POST /update` reach their
      handlers, and every other method and path gets 404 "Not found". No
      handler answers 404, so a 404 means the request was not routed. */
  function Fetch(env: Env, mac: Mac, request: Request, uuid: string,
                 provider: CreateRecord -> bool): (r: Outcome)
    ensures request.httpMethod == "POST" && request.path == "/register" ==>
              r == HandleRegister(env, mac, uuid)
    ensures request.httpMethod == "POST" && request.path == "/update" ==>
              r == HandleUpdate(env, mac, request.apiUser, request.apiKey, request.body, provider)
    ensures r.Responded? && r.response.status == 404 <==>
              !(request.httpMethod == "POST" && (request.path == "/register" || request.path == "/update"))
    ensures r.Responded? && r.response.status == 404 ==>
              r == Responded(Response(404, ErrorMessage("Not found")), None)
  {
    if request.httpMethod == "POST" && request.path == "/register" then
      HandleRegister(env, mac, uuid)
    else if request.httpMethod == "POST" && request.path == "/update" then
      HandleUpdate(env, mac, request.apiUser, request.apiKey, request.body, provider)
    else
      Reply(404, "Not found")
  }

  /** The name and password issued at registration, with a body naming that
      subdomain and a truthy text, pass all three guards of index.js:49-75. */
  lemma {:induction false} RegisteredPassesGuards(env: Env, mac: Mac, uuid: string, txt: Json)
    requires uuid != ""
    requires |Digest(mac, uuid, env.hmacSecret)| > 0
    requires Truthy(Some(txt))
    ensures
      var password := GenerateHmac(mac, uuid, env.hmacSecret);
      var body := Some(JObject(map["subdomain" := JString(uuid), "txt" := txt]));
      PassesGuards(env, mac, Some(uuid), Some(password), body) &&
      TxtField(env, mac, Some(uuid), Some(password), body) == txt
  {
    var password := GenerateHmac(mac, uuid, env.hmacSecret);
    var n := |Digest(mac, uuid, env.hmacSecret)|;
    assert (4 * n + 2) / 3 >= 2 by {
      assert 4 * n + 2 >= 6;
    }
    assert password != "";
    var b := JObject(map["subdomain" := JString(uuid), "txt" := txt]);
    assert EffectiveBody(Some(b)) == b;
    assert Property(b, "subdomain") == Some(JString(uuid));
    assert Property(b, "txt") == Some(txt);
  }

  /** Registration followed by an update with the issued name and password and a
      body naming that subdomain and a truthy text: the update passes every guard;
      when the text converts to a string it creates the TXT record for exactly
      the registered full domain and answers 200 or 500 as the provider does,
      and when the conversion throws it answers 500 without a provider call.
      A non-empty digest (HMAC-SHA256 gives 32 bytes) yields a non-empty
      credential, so the key header always counts as present. */
  lemma {:induction false} RegisterThenUpdate(env: Env, mac: Mac, uuid: string, txt: Json,
                                              provider: CreateRecord -> bool)
    requires uuid != ""
    requires |Digest(mac, uuid, env.hmacSecret)| > 0
    requires Truthy(Some(txt))
    ensures
      var reg := HandleRegister(env, mac, uuid).response.payload;
      var body := JObject(map["subdomain" := JString(reg.subdomain), "txt" := txt]);
      var upd := HandleUpdate(env, mac, Some(reg.username), Some(reg.password), Some(body), provider);
      if ConversionThrows(txt) then
        upd == Reply(500, "internal server error")
      else
        var record := CreateRecord("TXT", reg.fulldomain, "\"" + ToText(txt).value + "\"", 1);
        upd == if provider(record) then Responded(Response(200, Txt(txt)), Some(record))
               else Responded(Response(500, ErrorMessage("internal server error")), Some(record))
  {
    var reg := HandleRegister(env, mac, uuid).response.payload;
    assert reg.username == reg.subdomain == uuid;
    assert reg.password == GenerateHmac(mac, uuid, env.hmacSecret);
    RegisteredPassesGuards(env, mac, uuid, txt);
  }

  /** An authenticated update whose `txt` is `{"toString": 1}`: building the
      record content throws inside the `try`, so the answer is 500 and no
      create call is made. */
  lemma TxtWithToStringMember(env: Env, mac: Mac, uuid: string, provider: CreateRecord -> bool)
    requires uuid != ""
    requires |Digest(mac, uuid, env.hmacSecret)| > 0
    ensures
      var password := HandleRegister(env, mac, uuid).response.payload.password;
      var txt := JObject(map["toString" := JNumber(1)]);
      var body := JObject(map["subdomain" := JString(uuid), "txt" := txt]);
      HandleUpdate(env, mac, Some(uuid), Some(password), Some(body), provider) ==
        Reply(500, "internal server error")
  {
    var txt := JObject(map["toString" := JNumber(1)]);
    assert ConversionThrows(txt);
    RegisterThenUpdate(env, mac, uuid, txt, provider);
  }
}

/** The native-transfer handler: a CORS preflight is answered at once, a request missing either
    field is refused, and any other request makes exactly one submission of `parseEther(amountEth)`
    to the given recipient. The signing key, `parseEther` and `sendTransaction` are parameters that
    may fail; the handler's uses of them are returned as a trace. */
module SendNative {
  import opened Common

  const RequiredMessage := "to & amountEth are required"

  /** The CORS headers every response carries. */
  const CorsHeaders := [
    ("Access-Control-Allow-Origin", "*"),
    ("Access-Control-Allow-Headers", "Content-Type"),
    ("Access-Control-Allow-Methods", "POST, OPTIONS")
  ]

  /** A value a field of the parsed JSON body may hold (`Undefined` when the field is missing). */
  datatype JsonValue = Undefined | Null | Bool(b: bool) | Number(n: real) | Str(s: string) | Composite

  /** JavaScript truthiness of such a value. */
  predicate Truthy(v: JsonValue) {
    match v
    case Undefined => false
    case Null => false
    case Bool(b) => b
    case Number(n) => n != 0.0
    case Str(s) => s != ""
    case Composite => true
  }

  /** The request body once parsed: the two destructured fields, or the message thrown by
      `JSON.parse` or by destructuring a null or undefined body. */
  datatype Body = Fields(to: JsonValue, amountEth: JsonValue) | Unreadable(message: string)

  datatype Event = Event(httpMethod: Option<string>, body: Body)

  datatype Account = Account(address: string)

  /** The signing side: `privateKeyToAccount(PRIV_KEY)`, `parseEther` and the wallet's
      `sendTransaction`, each of which may throw. */
  datatype Signer = Signer(
    account: Result<Account>,
    parseEther: JsonValue -> Result<int>,
    sendTransaction: (Account, JsonValue, int) -> Result<string>)

  /** One use of the signing side. */
  datatype Effect = LoadKey | ParseEther(amountEth: JsonValue) | SendTransaction(account: Account, to: JsonValue, value: int)

  datatype ResponseBody = Empty | HashBody(hash: string) | ErrorBody(error: string)

  datatype Response = Response(statusCode: int, headers: seq<(string, string)>, body: ResponseBody)

  predicate IsPreflight(event: Event) {
    event.httpMethod == Some("OPTIONS")
  }

  /** A request that gets past the preflight branch and the required-field check. */
  predicate HasRequiredFields(event: Event) {
    !IsPreflight(event) && event.body.Fields? && Truthy(event.body.to) && Truthy(event.body.amountEth)
  }

  /** A request whose key loads and whose amount converts: it reaches the one submission. */
  predicate ReachesSubmit(event: Event, signer: Signer) {
    HasRequiredFields(event) && signer.account.Ok? && signer.parseEther(event.body.amountEth).Ok?
  }

  /** The submission such a request makes: the recipient unchanged, the value `parseEther(amountEth)`. */
  function Submission(event: Event, signer: Signer): Effect
    requires ReachesSubmit(event, signer)
  {
    SendTransaction(signer.account.value, event.body.to, signer.parseEther(event.body.amountEth).value)
  }

  function SubmitResult(event: Event, signer: Signer): Result<string>
    requires ReachesSubmit(event, signer)
  {
    var s := Submission(event, signer);
    signer.sendTransaction(s.account, s.to, s.value)
  }

  function Failed(message: string): Response {
    Response(500, CorsHeaders, ErrorBody(message))
  }

  /** What the handler returns for an event, and the uses of the signing side it makes. */
  function Handle(event: Event, signer: Signer): (out: (Response, seq<Effect>))
    ensures out.0.headers == CorsHeaders
    ensures out.0.statusCode in {204, 400, 200, 500}
    // preflight
    ensures out.0.statusCode == 204 <==> IsPreflight(event)
    ensures IsPreflight(event) ==> out.0.body == Empty && out.1 == []
    // presence check only: no address format or amount check happens here
    ensures out.0.statusCode == 400 <==> !IsPreflight(event) && event.body.Fields? && !HasRequiredFields(event)
    ensures out.0.statusCode == 400 ==> out.0.body == ErrorBody(RequiredMessage) && out.1 == []
    ensures !HasRequiredFields(event) ==> out.1 == []
    // exactly one submission, and only when the request reaches it
    ensures (exists k :: 0 <= k < |out.1| && out.1[k].SendTransaction?) <==> ReachesSubmit(event, signer)
    ensures ReachesSubmit(event, signer) ==>
              out.1 == [LoadKey, ParseEther(event.body.amountEth), Submission(event, signer)]
    // success
    ensures out.0.statusCode == 200 <==> ReachesSubmit(event, signer) && SubmitResult(event, signer).Ok?
    ensures out.0.statusCode == 200 ==> out.0.body == HashBody(SubmitResult(event, signer).value)
    // every failure is a 500 carrying the thrown message
    ensures out.0.statusCode == 500 ==> out.0.body.ErrorBody?
    ensures !IsPreflight(event) && event.body.Unreadable? ==> out == (Failed(event.body.message), [])
    ensures HasRequiredFields(event) && signer.account.Err? ==> out == (Failed(signer.account.message), [LoadKey])
    ensures HasRequiredFields(event) && signer.account.Ok? && signer.parseEther(event.body.amountEth).Err? ==>
              out == (Failed(signer.parseEther(event.body.amountEth).message), [LoadKey, ParseEther(event.body.amountEth)])
    ensures ReachesSubmit(event, signer) && SubmitResult(event, signer).Err? ==>
              out.0 == Failed(SubmitResult(event, signer).message)
  {
    if IsPreflight(event) then
      (Response(204, CorsHeaders, Empty), [])
    else
      match event.body
      case Unreadable(m) => (Failed(m), [])
      case Fields(to, amountEth) =>
        if !Truthy(to) || !Truthy(amountEth) then
          (Response(400, CorsHeaders, ErrorBody(RequiredMessage)), [])
        else
          match signer.account
          case Err(m) => (Failed(m), [LoadKey])
          case Ok(account) =>
            match signer.parseEther(amountEth)
            case Err(m) => (Failed(m), [LoadKey, ParseEther(amountEth)])
            case Ok(wei) =>
              var effects := [LoadKey, ParseEther(amountEth), SendTransaction(account, to, wei)];
              assert effects[2].SendTransaction?;
              match signer.sendTransaction(account, to, wei)
              case Err(m) => (Failed(m), effects)
              case Ok(hash) => (Response(200, CorsHeaders, HashBody(hash)), effects)
  }
}

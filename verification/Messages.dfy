/** JSON values, shared by the protocol and the ERP components. */
module JsonValues {
  import opened Wrappers

  /** A number keeps its text, as it is printed; an object keeps its entries in order. */
  datatype Json =
    | Null
    | Bool(b: bool)
    | Num(text: string)
    | Str(s: string)
    | Arr(items: seq<Json>)
    | Obj(fields: seq<(string, Json)>)

  /** The value of a key. */
  function Field(fields: seq<(string, Json)>, key: string): Option<Json> {
    if fields == [] then None
    else if fields[0].0 == key then Some(fields[0].1)
    else Field(fields[1..], key)
  }
}

/** Messages of JSON-RPC 2.0 and the elicitation payloads. */
module Messages {
  import opened Wrappers
  import opened JsonValues

  datatype Id = Number(n: int) | Text(s: string) | NullId
  datatype ErrorObject = ErrorObject(code: int, message: string)
  datatype Request = Request(id: Id, verb: string, params: Option<Json>)
  datatype Response = Response(id: Id, result: Option<Json>, error: Option<ErrorObject>)
  datatype Message = Req(req: Request) | Resp(resp: Response) | Notice(verb: string)

  /** What a handler comes up with, before it is put in an envelope. */
  datatype Answer = Ok(value: Json) | Err(error: ErrorObject)

  /** A response carries the id of its request (JSON-RPC 2.0, section 5). */
  function Respond(id: Id, a: Answer): Response {
    match a
    case Ok(v) => Response(id, Some(v), None)
    case Err(e) => Response(id, None, Some(e))
  }

  datatype Action = Accept | Decline | Cancel
  datatype ElicitResult = ElicitResult(action: Action, content: Option<Json>)

  const ELICITATION_CREATE := "elicitation/create"
  const INVALID_PARAMS := -32602
  const METHOD_NOT_FOUND := -32601

  function ActionName(a: Action): string {
    match a case Accept => "accept" case Decline => "decline" case Cancel => "cancel"
  }

  function EncodeResult(r: ElicitResult): Json {
    var action := ("action", Str(ActionName(r.action)));
    Obj(if r.content.Some? then [action, ("content", r.content.value)] else [action])
  }

  /** An absent or null `content` reads as none. */
  function DecodeResult(v: Json): Option<ElicitResult> {
    if !v.Obj? then None else
      var content := match Field(v.fields, "content") case Some(c) => (if c.Null? then None else Some(c)) case None => None;
      match Field(v.fields, "action")
      case Some(Str(s)) =>
        if s == "accept" then Some(ElicitResult(Accept, content))
        else if s == "decline" then Some(ElicitResult(Decline, content))
        else if s == "cancel" then Some(ElicitResult(Cancel, content))
        else None
      case _ => None
  }

  function EncodeParams(message: string, schema: Json): Json {
    Obj([("message", Str(message)), ("requestedSchema", schema)])
  }

  function DecodeParams(v: Json): Option<(string, Json)> {
    if !v.Obj? then None else
      match (Field(v.fields, "message"), Field(v.fields, "requestedSchema"))
      case (Some(Str(m)), Some(schema)) => Some((m, schema))
      case _ => None
  }

  lemma ResultRoundTrip(r: ElicitResult)
    ensures DecodeResult(EncodeResult(r)) == Some(if r.content == Some(Null) then r.(content := None) else r)
  {
    var action := ("action", Str(ActionName(r.action)));
    if r.content.Some? {
      var fs := [action, ("content", r.content.value)];
      assert fs[0] == action && fs[1..] == [("content", r.content.value)];
      assert Field(fs, "content") == Field(fs[1..], "content") == r.content;
      assert Field(fs, "action") == Some(action.1);
    } else {
      assert Field([action], "content") == Field([action][1..], "content") == None;
    }
  }

  lemma ParamsRoundTrip(message: string, schema: Json)
    ensures DecodeParams(EncodeParams(message, schema)) == Some((message, schema))
  {
    var fs := [("message", Str(message)), ("requestedSchema", schema)];
    assert fs[0] == ("message", Str(message)) && fs[1..] == [("requestedSchema", schema)];
    assert Field(fs, "requestedSchema") == Field(fs[1..], "requestedSchema") == Some(schema);
  }

  /** `parse_response`: anything but a well-formed result reads as Cancel. */
  function ParseResponse(r: Response): ElicitResult {
    if r.error.Some? || r.result.None? then ElicitResult(Cancel, None) else
      match DecodeResult(r.result.value)
      case Some(e) => e
      case None => ElicitResult(Cancel, None)
  }

  /** `handle_server_request`: the client's answer, given what the delegate decides. */
  function DelegateAnswer(req: Request, decision: ElicitResult): Answer {
    if req.verb != ELICITATION_CREATE then
      Err(ErrorObject(METHOD_NOT_FOUND, "method '" + req.verb + "' not supported by client"))
    else if req.params.None? || DecodeParams(req.params.value).None? then
      Err(ErrorObject(INVALID_PARAMS, "invalid elicitation params"))
    else Ok(EncodeResult(decision))
  }

  /** Only an elicitation with a message and a schema is put to the delegate; any other request gets an
      error, and that reads as Cancel whatever the delegate would have said. */
  lemma OthersAreRefused(req: Request, decision: ElicitResult)
    ensures var (a, v) := (DelegateAnswer(req, decision), req.params);
      if req.verb == "elicitation/create" && v.Some? && v.value.Obj?
         && (exists m :: Field(v.value.fields, "message") == Some(Str(m)))
         && Field(v.value.fields, "requestedSchema").Some?
      then a == Ok(EncodeResult(decision))
      else
        && a.Err? && a.error.code == (if req.verb == "elicitation/create" then -32602 else -32601)
        && ParseResponse(Respond(req.id, a)) == ElicitResult(Cancel, None)
  {
    if req.params.Some? && req.params.value.Obj? {
      var m := Field(req.params.value.fields, "message");
      assert m.Some? && m.value.Str? ==> m == Some(Str(m.value.s));
    }
  }

  /** A response reads as Accept only if it is no error and its result says so. */
  lemma AcceptIsSaid(r: Response)
    ensures ParseResponse(r).action == Accept <==>
            && r.error.None? && r.result.Some? && r.result.value.Obj?
            && Field(r.result.value.fields, "action") == Some(Str("accept"))
  {
  }
}

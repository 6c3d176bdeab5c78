/** JSON-RPC messages: the parser of incoming frames and the builders of outgoing ones. */
module Wire {
  import opened Json
  import Decimal
  import JsonLines

  const I64_MIN: int := -0x8000_0000_0000_0000
  const I64_MAX: int := 0x7fff_ffff_ffff_ffff

  type i64 = n: int | -0x8000_0000_0000_0000 <= n <= 0x7fff_ffff_ffff_ffff

  // ---- integers as JSON numbers ----

  function Digits(n: nat): (s: string)
    ensures s != "" && AllDigits(s) && Decimal.DigitsValue(s) == n
    ensures s[0] == '0' ==> |s| == 1 && n == 0
  {
    var last := [(n % 10 + '0' as int) as char];
    if n < 10 then
      assert last[..0] == "";
      last
    else
      var s := Digits(n / 10) + last;
      assert s[..|s| - 1] == Digits(n / 10);
      s
  }

  /** Value::from on an integer. */
  function IntValue(n: int): Json {
    Num(NumberToken(n < 0, Digits(if n < 0 then -n else n), None, None))
  }

  /** Value::as_i64: integer tokens in range; a fraction, an exponent or a negative zero
      makes a float. */
  function AsI64(v: Json): Option<i64> {
    if !v.Num? || v.n.fraction.Some? || v.n.exponent.Some? then None
    else
      var magnitude := Decimal.DigitsValue(v.n.whole);
      var n := if v.n.negative then 0 - magnitude else magnitude;
      if v.n.negative && magnitude == 0 then None
      else if I64_MIN <= n <= I64_MAX then Some(n)
      else None
  }

  lemma IntValueRead(n: int)
    ensures AsI64(IntValue(n)) == if I64_MIN <= n <= I64_MAX then Some(n) else None
  {
  }

  // ---- messages ----

  datatype RpcId = Number(number: i64) | String(text: string)

  datatype Incoming =
    | Success(id: RpcId, result: Json)
    | Failure(id: RpcId, code: i64, message: string)
    | Request(id: RpcId, name: string, params: Json)
    | Notification(name: string, params: Json)

  datatype WireError =
    | NotAnObject | BadId | BadMethod | MethodWithResult | Unclassified
    | ErrorNotAnObject | BadCode | BadMessage | NotOneOutcome

  datatype Parsed<+T> = Ok(value: T) | Err(error: WireError)
  {
    predicate IsFailure() { Err? }

    function PropagateFailure<U>(): Parsed<U>
      requires Err?
    {
      Err(error)
    }

    function Extract(): T
      requires Ok?
    {
      value
    }
  }

  function Get(m: map<string, Json>, k: string): Option<Json> {
    if k in m then Some(m[k]) else None
  }

  function ParseId(v: Json): Parsed<RpcId> {
    match AsI64(v)
    case Some(n) => Ok(Number(n))
    case None => if v.Str? then Ok(String(v.s)) else Err(BadId)
  }

  function OptionalId(m: map<string, Json>): Parsed<Option<RpcId>> {
    if "id" !in m then Ok(None)
    else
      var id :- ParseId(m["id"]);
      Ok(Some(id))
  }

  function ParseResponse(id: RpcId, m: map<string, Json>): Parsed<Incoming> {
    match (Get(m, "result"), Get(m, "error"))
    case (Some(result), None) => Ok(Success(id, result))
    case (None, Some(error)) =>
      if !error.Obj? then Err(ErrorNotAnObject)
      else
        var code := if "code" in error.members then AsI64(error.members["code"]) else None;
        if code.None? then Err(BadCode)
        else if "message" !in error.members || !error.members["message"].Str? then Err(BadMessage)
        else Ok(Failure(id, code.value, error.members["message"].s))
    case _ => Err(NotOneOutcome)
  }

  function Parse(v: Json): Parsed<Incoming> {
    if !v.Obj? then Err(NotAnObject)
    else
      var m := v.members;
      var id :- OptionalId(m);
      var name := if "method" in m && m["method"].Str? && m["method"].s != "" then Some(m["method"].s) else None;
      if "method" in m && name.None? then Err(BadMethod)
      else if name.Some? && ("result" in m || "error" in m) then Err(MethodWithResult)
      else
        var params := if "params" in m then m["params"] else Null;
        match (id, name)
        case (Some(i), Some(n)) => Ok(Request(i, n, params))
        case (None, Some(n)) => Ok(Notification(n, params))
        case (Some(i), None) => ParseResponse(i, m)
        case (None, None) => Err(Unclassified)
  }

  // ---- which frames are messages ----

  /** An integer token of this value; serde_json holds a negative zero as a float. */
  ghost predicate IsInteger(v: Json, n: i64) {
    && v.Num? && v.n.fraction.None? && v.n.exponent.None?
    && Decimal.Denotes(v.n) == n as real && !(v.n.negative && n == 0)
  }

  ghost predicate IsId(v: Json, id: RpcId) {
    match id
    case Number(n) => IsInteger(v, n)
    case String(s) => v == Str(s)
  }

  predicate Has(m: map<string, Json>, k: string, v: Json) {
    k in m && m[k] == v
  }

  function Params(m: map<string, Json>): Json {
    if "params" in m then m["params"] else Null
  }

  ghost predicate HasId(m: map<string, Json>, id: RpcId) {
    "id" in m && IsId(m["id"], id)
  }

  /** A request has an id, a method and no outcome, a notification no id; a response has an id, no method
      and one outcome. Other members do not matter. */
  ghost predicate IsMessage(v: Json, x: Incoming) {
    v.Obj? &&
    var m := v.members;
    match x
    case Request(id, name, params) =>
      && HasId(m, id) && Has(m, "method", Str(name)) && name != "" && params == Params(m)
      && "result" !in m && "error" !in m
    case Notification(name, params) =>
      && "id" !in m && Has(m, "method", Str(name)) && name != "" && params == Params(m)
      && "result" !in m && "error" !in m
    case Success(id, result) =>
      HasId(m, id) && "method" !in m && Has(m, "result", result) && "error" !in m
    case Failure(id, code, message) =>
      && HasId(m, id) && "method" !in m && "result" !in m
      && "error" in m && m["error"].Obj?
      && var e := m["error"].members;
        "code" in e && IsInteger(e["code"], code) && Has(e, "message", Str(message))
  }

  lemma IntegerRead(v: Json, n: i64)
    ensures AsI64(v) == Some(n) <==> IsInteger(v, n)
  {
    if v.Num? && v.n.fraction.None? && v.n.exponent.None? { IntegerDenotes(v.n); }
  }

  lemma IntegerDenotes(n: Number)
    requires n.fraction.None? && n.exponent.None?
    ensures var magnitude := Decimal.DigitsValue(n.whole);
      Decimal.Denotes(n) == (if n.negative then 0 - magnitude else magnitude) as real
  {
    Decimal.DigitsLast("");
    Decimal.Pow10Step(0);
  }

  lemma IdParsed(v: Json, id: RpcId)
    ensures ParseId(v) == Ok(id) <==> IsId(v, id)
  {
    hide AsI64, IsInteger;
    if id.Number? { IntegerRead(v, id.number); }
    if AsI64(v).Some? {
      IntegerRead(v, AsI64(v).value);
      IntegerNumber(v);
    }
  }

  lemma IntegerNumber(v: Json)
    ensures AsI64(v).Some? ==> v.Num?
  {
  }

  lemma ResponseExact(id: RpcId, m: map<string, Json>, x: Incoming)
    ensures ParseResponse(id, m) == Ok(x) <==>
      || (x.Success? && x.id == id && Has(m, "result", x.result) && "error" !in m)
      || (x.Failure? && x.id == id && "result" !in m && "error" in m && m["error"].Obj?
          && var e := m["error"].members;
            "code" in e && IsInteger(e["code"], x.code) && Has(e, "message", Str(x.message)))
  {
    hide AsI64, IsInteger;
    if "error" in m && m["error"].Obj? && "code" in m["error"].members {
      var code := m["error"].members["code"];
      if AsI64(code).Some? { IntegerRead(code, AsI64(code).value); }
      if x.Failure? { IntegerRead(code, x.code); }
    }
  }

  /** A frame is parsed to a message exactly when it is that message. */
  lemma ParseExact(v: Json, x: Incoming)
    ensures Parse(v) == Ok(x) <==> IsMessage(v, x)
  {
    hide ParseId, IsId, ParseResponse, IsInteger;
    if v.Obj? {
      var m := v.members;
      if "id" in m {
        if ParseId(m["id"]).Ok? {
          var id := ParseId(m["id"]).value;
          IdParsed(m["id"], id);
          ResponseExact(id, m, x);
        }
        if !x.Notification? { IdParsed(m["id"], x.id); }
      }
    }
  }

  predicate HasName(m: map<string, Json>) {
    "method" in m && m["method"].Str? && m["method"].s != ""
  }

  /** And otherwise the error is that of the first of these tests that it fails. */
  lemma ParseErrors(v: Json)
    ensures
      if !v.Obj? then Parse(v) == Err(NotAnObject)
      else
        var m := v.members;
        if "id" in m && !exists id :: IsId(m["id"], id) then Parse(v) == Err(BadId)
        else if "method" in m && !HasName(m) then Parse(v) == Err(BadMethod)
        else if "method" in m && ("result" in m || "error" in m) then Parse(v) == Err(MethodWithResult)
        else if "method" !in m && "id" !in m then Parse(v) == Err(Unclassified)
        else if "method" !in m && ("result" in m <==> "error" in m) then Parse(v) == Err(NotOneOutcome)
        else if "method" in m || "result" in m then Parse(v).Ok?
        else if !m["error"].Obj? then Parse(v) == Err(ErrorNotAnObject)
        else
          var e := m["error"].members;
          if "code" !in e || !exists n :: IsInteger(e["code"], n) then Parse(v) == Err(BadCode)
          else if "message" !in e || !e["message"].Str? then Parse(v) == Err(BadMessage)
          else Parse(v).Ok?
  {
    hide AsI64, IsInteger, ParseId, IsId;
    if v.Obj? {
      var m := v.members;
      if "id" in m { IdKnown(m["id"]); }
      if "error" in m && m["error"].Obj? && "code" in m["error"].members { IntegerKnown(m["error"].members["code"]); }
    }
  }

  lemma IdKnown(v: Json)
    ensures ParseId(v).Ok? <==> exists id :: IsId(v, id)
    ensures ParseId(v).Err? ==> ParseId(v) == Err(BadId)
  {
    hide IsId;
    if ParseId(v).Ok? { IdParsed(v, ParseId(v).value); }
    if id :| IsId(v, id) { IdParsed(v, id); }
  }

  lemma IntegerKnown(v: Json)
    ensures AsI64(v).Some? <==> exists n :: IsInteger(v, n)
  {
    hide IsInteger, AsI64;
    if AsI64(v).Some? { IntegerRead(v, AsI64(v).value); }
    if n :| IsInteger(v, n) { IntegerRead(v, n); }
  }

  function IdValue(id: RpcId): Json {
    match id
    case Number(n) => IntValue(n)
    case String(s) => Str(s)
  }

  function RequestValue(id: nat, name: string, params: Json): Json {
    Obj(map["id" := IntValue(id), "method" := Str(name), "params" := params])
  }

  function NotificationValue(name: string, params: Json): Json {
    var m := map["method" := Str(name)];
    Obj(if params.Null? then m else m["params" := params])
  }

  function SuccessValue(id: RpcId, result: Json): Json {
    Obj(map["id" := IdValue(id), "result" := result])
  }

  function FailureValue(id: RpcId, code: i64, message: string): Json {
    Obj(map["id" := IdValue(id), "error" := Obj(map["code" := IntValue(code), "message" := Str(message)])])
  }

  // ---- the parser inverts the builders ----

  /** A request is read back exactly when its id fits i64 and its method is not empty. */
  lemma RequestRead(id: nat, name: string, params: Json)
    ensures Parse(RequestValue(id, name, params))
      == if id > I64_MAX then Err(BadId)
         else if name == "" then Err(BadMethod)
         else Ok(Request(Number(id), name, params))
  {
    hide AsI64, IntValue;
    IntValueRead(id);
    NotText(id);
  }

  lemma NotText(n: int)
    ensures !IntValue(n).Str?
  {
  }

  lemma NotificationRead(name: string, params: Json)
    ensures Parse(NotificationValue(name, params))
      == if name == "" then Err(BadMethod) else Ok(Notification(name, params))
  {
  }

  lemma IdRead(id: RpcId)
    ensures ParseId(IdValue(id)) == Ok(id)
  {
    if id.Number? { IntValueRead(id.number); }
  }

  lemma SuccessRead(id: RpcId, result: Json)
    ensures Parse(SuccessValue(id, result)) == Ok(Success(id, result))
  {
    hide ParseId, IdValue;
    IdRead(id);
  }

  lemma FailureRead(id: RpcId, code: i64, message: string)
    ensures Parse(FailureValue(id, code, message)) == Ok(Failure(id, code, message))
  {
    hide ParseId, IdValue, AsI64, IntValue;
    IdRead(id);
    IntValueRead(code);
  }

  // ---- messages over a stream ----

  datatype Outgoing =
    | Ask(id: nat, name: string, params: Json)
    | Tell(name: string, params: Json)
    | Answer(reply: RpcId, result: Json)
    | Refuse(reply: RpcId, code: i64, message: string)

  function ValueOf(o: Outgoing): Json {
    match o
    case Ask(id, name, params) => RequestValue(id, name, params)
    case Tell(name, params) => NotificationValue(name, params)
    case Answer(reply, result) => SuccessValue(reply, result)
    case Refuse(reply, code, message) => FailureValue(reply, code, message)
  }

  predicate Readable(o: Outgoing) {
    match o
    case Ask(id, name, _) => id <= I64_MAX && name != ""
    case Tell(name, _) => name != ""
    case _ => true
  }

  function Meaning(o: Outgoing): Incoming
    requires Readable(o)
  {
    match o
    case Ask(id, name, params) => Request(Number(id), name, params)
    case Tell(name, params) => Notification(name, params)
    case Answer(reply, result) => Success(reply, result)
    case Refuse(reply, code, message) => Failure(reply, code, message)
  }

  /** A message is parsed exactly when it is readable, and then to what was meant. */
  lemma ValueRead(o: Outgoing)
    ensures Readable(o) ==> Parse(ValueOf(o)) == Ok(Meaning(o))
    ensures !Readable(o) ==> Parse(ValueOf(o)).Err?
  {
    hide Parse, RequestValue, NotificationValue, SuccessValue, FailureValue;
    match o
    case Ask(id, name, params) => RequestRead(id, name, params);
    case Tell(name, params) => NotificationRead(name, params);
    case Answer(reply, result) => SuccessRead(reply, result);
    case Refuse(reply, code, message) => FailureRead(reply, code, message);
  }

  function Values(messages: seq<Outgoing>): (values: seq<Json>)
    ensures |values| == |messages|
  {
    if messages == [] then [] else [ValueOf(messages[0])] + Values(messages[1..])
  }

  lemma {:induction false} ValuesAt(messages: seq<Outgoing>, i: nat)
    requires i < |messages|
    ensures Values(messages)[i] == ValueOf(messages[i])
  {
    if i > 0 { ValuesAt(messages[1..], i - 1); }
  }

  /** What a receiver makes of the items of a stream: the messages up to where it ends. */
  ghost function Arrivals(items: seq<JsonLines.Item<Json>>): seq<Parsed<Incoming>> {
    if items == [] || !items[0].Frame? then [] else [Parse(items[0].value)] + Arrivals(items[1..])
  }

  ghost function Meanings(messages: seq<Outgoing>): seq<Parsed<Incoming>>
    requires forall i | 0 <= i < |messages| :: Readable(messages[i])
  {
    if messages == [] then [] else [Ok(Meaning(messages[0]))] + Meanings(messages[1..])
  }

  lemma {:induction false} FramesArrive(messages: seq<Outgoing>)
    requires forall i | 0 <= i < |messages| :: Readable(messages[i])
    ensures Arrivals(JsonLines.Frames(Values(messages))) == Meanings(messages)
  {
    hide Parse, ValueOf, Readable;
    if messages != [] {
      var values := Values(messages);
      ValueRead(messages[0]);
      FramesArrive(messages[1..]);
      assert values[1..] == Values(messages[1..]);
      var frames := JsonLines.Frames(values);
      assert frames[1..] == JsonLines.Frames(values[1..]);
    }
  }

  /** The part of a message that is arbitrary JSON. */
  function Payload(o: Outgoing): Json {
    match o
    case Ask(_, _, params) => params
    case Tell(_, params) => params
    case Answer(_, result) => result
    case Refuse(_, _, _) => Null
  }

  /** Integers of 64 bits are read as they are printed. */
  ghost predicate KeepsIntegers(read: JsonLines.NumberReader) {
    forall n: i64 :: JsonLines.Kept(IntValue(n), read)
  }

  lemma IntSurvives(n: i64, read: JsonLines.NumberReader, levels: nat)
    requires KeepsIntegers(read)
    ensures JsonLines.Survives(IntValue(n), read, levels)
  {
  }

  lemma IdSurvives(id: RpcId, read: JsonLines.NumberReader, levels: nat)
    requires KeepsIntegers(read)
    ensures JsonLines.Survives(IdValue(id), read, levels)
  {
    if id.Number? { IntSurvives(id.number, read, levels); }
  }

  lemma FlatSurvives(v: Json, read: JsonLines.NumberReader, levels: nat)
    requires v.Str? || v.Null?
    ensures JsonLines.Survives(v, read, levels)
  {
  }

  lemma ObjectSurvives(m: map<string, Json>, read: JsonLines.NumberReader, levels: nat)
    ensures JsonLines.Survives(Obj(m), read, levels + 1)
      <==> forall k | k in m :: JsonLines.Survives(m[k], read, levels)
  {
  }

  /** A readable message survives exactly when its payload does, one level further down. */
  lemma ValueSurvives(o: Outgoing, read: JsonLines.NumberReader)
    requires Readable(o) && KeepsIntegers(read)
    ensures JsonLines.Survives(ValueOf(o), read, 127) <==> JsonLines.Survives(Payload(o), read, 126)
  {
    hide IntValue, IdValue, JsonLines.Survives, KeepsIntegers;
    var m := ValueOf(o).members;
    ObjectSurvives(m, read, 126);
    match o
    case Ask(id, name, params) =>
      assert m["id"] == IntValue(id) && m["method"] == Str(name) && m["params"] == params;
      IntSurvives(id, read, 126);
      FlatSurvives(Str(name), read, 126);
    case Tell(name, params) =>
      assert m["method"] == Str(name) && (!params.Null? ==> m["params"] == params);
      FlatSurvives(Str(name), read, 126);
      if params.Null? { FlatSurvives(params, read, 126); }
    case Answer(reply, result) =>
      assert m["id"] == IdValue(reply) && m["result"] == result;
      IdSurvives(reply, read, 126);
    case Refuse(reply, code, message) =>
      RefusalSurvives(code, message, read);
      IdSurvives(reply, read, 126);
      FlatSurvives(Payload(o), read, 126);
  }

  lemma RefusalSurvives(code: i64, message: string, read: JsonLines.NumberReader)
    requires KeepsIntegers(read)
    ensures JsonLines.Survives(Obj(map["code" := IntValue(code), "message" := Str(message)]), read, 126)
  {
    hide IntValue, JsonLines.Survives, KeepsIntegers;
    ObjectSurvives(map["code" := IntValue(code), "message" := Str(message)], read, 125);
    IntSurvives(code, read, 125);
    FlatSurvives(Str(message), read, 125);
  }

  /** Readable messages that are encoded under the reader's limit are found again exactly when no
      payload is nested too deep and the number tokens in payloads are kept; then they arrive as
      they were meant, in order, and the stream ends. */
  lemma MessagesReadBack(messages: seq<Outgoing>, max: nat, read: JsonLines.NumberReader)
    requires KeepsIntegers(read)
    requires forall i | 0 <= i < |messages| ::
      Readable(messages[i]) && JsonLines.EncodeFrame(ValueOf(messages[i]), max).Some?
    ensures var items := JsonLines.Items(
        JsonLines.Stream(JsonLines.Sent(Values(messages)), false), max, JsonLines.FrameParser(read));
      && (items == JsonLines.Frames(Values(messages)) <==>
          forall i | 0 <= i < |messages| :: JsonLines.Survives(Payload(messages[i]), read, 126))
      && (items == JsonLines.Frames(Values(messages)) ==> Arrivals(items) == Meanings(messages))
  {
    hide ValueOf, Readable, JsonLines.EncodeFrame, JsonLines.Survives;
    var values := Values(messages);
    forall i | 0 <= i < |values|
      ensures JsonLines.EncodeFrame(values[i], max).Some?
      ensures JsonLines.Survives(values[i], read, 127) <==> JsonLines.Survives(Payload(messages[i]), read, 126)
    {
      ValuesAt(messages, i);
      ValueSurvives(messages[i], read);
    }
    JsonLines.EncodedFramesReadBack(values, max, read);
    FramesArrive(messages);
  }
}

/**
 The `/interakt/webhook` handler after extraction: pick one of four canned
 replies for the extracted value and answer `{ ok: true, reply }`.

 `!userText` sends a falsy value to the "ignored" reply. Any truthy value goes
 to the two `.test` calls, which first convert it with ToString; for a string
 that is the string itself, and for an object whose own `toString` key hides
 the inherited method the conversion throws, so the handler never reaches
 `res.json` (`Raised`).
 */
module Webhook {
  import opened Json
  import opened Paths
  import opened Extraction
  import opened Patterns

  /** The four replies, in the order the handler tries them. */
  datatype Reply = Ignored | TestReceived | Greeting | Acknowledged

  function ReplyText(r: Reply): string {
    match r
    case Ignored => "Ignored: no message text found in payload."
    case TestReceived => "Test received \U{2705} How can I assist you today?"
    case Greeting => "Hello! \U{1F44B} How can I help you?"
    case Acknowledged => "Got it! Thanks for your message."
  }

  /** The if/else chain that assigns `reply`; `None` when converting the value
      to a string for `.test` throws. The second `.test` converts the same
      value again, with the same result, so one conversion stands for both. */
  function Classify(v: Value): Option<Reply> {
    if !Truthy(v) then Some(Ignored)
    else
      match ToStr(v.json)
      case None => None
      case Some(s) =>
        if Test(TestMarker, s) then Some(TestReceived)
        else if Test(GreetingWords, s) then Some(Greeting)
        else Some(Acknowledged)
  }

  /** What the caller receives. */
  datatype Response =
    | Envelope(ok: bool, reply: string)  // res.json({ ok: true, reply })
    | Raised                             // the handler threw before answering

  function Handle(body: Value): Response {
    match Classify(Extract(body))
    case Some(r) => Envelope(true, ReplyText(r))
    case None => Raised
  }

  /** The four replies are different texts, so a caller can tell which rule fired. */
  lemma ReplyTextInjective(a: Reply, b: Reply)
    ensures ReplyText(a) == ReplyText(b) <==> a == b
  {
  }

  /** The ignored reply is chosen exactly for a falsy value (`undefined`, `""`,
      `null`, `false`, zero). */
  lemma ClassifyIgnoredIffFalsy(v: Value)
    ensures Classify(v) == Some(Ignored) <==> !Truthy(v)
  {
  }

  /** For any truthy value that converts to the string `s` (a string, a
      number, `true`, an array, a plain object) the marker rule is tried
      first on `s`, then the greeting rule, and otherwise the default reply
      is given. */
  lemma ClassifyConvertible(v: Value, s: string)
    requires Truthy(v) && ToStr(v.json) == Some(s)
    ensures Classify(v) ==
      Some(if HasTestMarker(s) then TestReceived
           else if HasGreeting(s) then Greeting
           else Acknowledged)
  {
    TestMarkerSpec(s);
    GreetingSpec(s);
  }

  /** The same for a non-empty string, which converts to itself. */
  lemma ClassifyString(s: string)
    requires s != ""
    ensures Classify(Defined(Str(s))) ==
      Some(if HasTestMarker(s) then TestReceived
           else if HasGreeting(s) then Greeting
           else Acknowledged)
  {
    ClassifyConvertible(Defined(Str(s)), s);
  }

  /** `["hey"]` is not a string, but it converts to "hey" and gets the greeting. */
  lemma ClassifyArrayGreeting()
    ensures Classify(Defined(Arr([Str("hey")]))) == Some(Greeting)
  {
    assert ToStr(Arr([Str("hey")])) == Some("hey");
    MarkerAbsentWithoutHash("hey");
    assert OccursAt("hey", 0, "hey");
    ClassifyConvertible(Defined(Arr([Str("hey")])), "hey");
  }

  /** The marker takes priority over a greeting in the same text. */
  lemma MarkerBeatsGreeting(s: string)
    requires HasTestMarker(s) && HasGreeting(s)
    ensures Classify(Defined(Str(s))) == Some(TestReceived)
  {
    ClassifyString(s);
  }

  /** Classification fails exactly when a truthy value cannot be converted to a string. */
  lemma ClassifyRaisesIff(v: Value)
    ensures Classify(v) == None <==> Truthy(v) && !Stringifiable(v.json)
  {
    if Truthy(v) {
      ToStrDefinedIffStringifiable(v.json);
    }
  }

  /** A plain object converts to "[object Object]", which matches neither pattern. */
  lemma ClassifyPlainObject(m: map<string, Json>)
    requires "toString" !in m
    ensures Classify(Defined(Obj(m))) == Some(Acknowledged)
  {
    MarkerAbsentWithoutHash("[object Object]");
    NoGreetingExamples();
    TestMarkerSpec("[object Object]");
    GreetingSpec("[object Object]");
  }

  /** The handler always answers `{ ok: true, ... }` with one of the four replies,
      unless the extracted value is truthy and cannot be converted to a string. */
  lemma HandleAnswers(body: Value)
    ensures Handle(body) == Raised <==>
      Truthy(Extract(body)) && !Stringifiable(Extract(body).json)
    ensures Handle(body).Envelope? ==>
      Handle(body).ok && exists r :: Handle(body).reply == ReplyText(r)
  {
    ClassifyRaisesIff(Extract(body));
    if Handle(body).Envelope? {
      assert Handle(body).reply == ReplyText(Classify(Extract(body)).value);
    }
  }

  /** An unrecognised payload is acknowledged, never rejected: a body that is
      not an object, or in which no place qualifies, gets the ignored reply. */
  lemma HandleUnrecognised(body: Value)
    requires !(body.Defined? && body.json.Obj?) ||
             forall i :: 0 <= i < |Candidates| ==> !Holds(body, Candidates[i])
    ensures Handle(body) == Envelope(true, ReplyText(Ignored))
  {
    if !(body.Defined? && body.json.Obj?) {
      ExtractNonObject(body);
    } else {
      ExtractNoneQualifying(body);
    }
  }

  /** Whenever the extracted value is a string (or there is none), the handler answers. */
  lemma HandleStringAnswers(body: Value)
    requires Extract(body) == Undefined || IsString(Extract(body))
    ensures Handle(body).Envelope? && Handle(body).ok
  {
  }

  /** `{}` is acknowledged with the ignored reply. */
  lemma EmptyPayloadIgnored()
    ensures Handle(Defined(Obj(map[]))) == Envelope(true, ReplyText(Ignored))
  {
    HandleUnrecognised(Defined(Obj(map[])));
  }

  /** `{"text": "hello"}` gets the greeting. */
  lemma TextHelloGreeted()
    ensures Handle(Defined(Obj(map["text" := Str("hello")]))) == Envelope(true, ReplyText(Greeting))
  {
    assert Extract(Defined(Obj(map["text" := Str("hello")]))) == Defined(Str("hello"));
    ClassifyString("hello");
    MarkerAbsentWithoutHash("hello");
    assert OccursAt("hello", 0, "hello");
  }

  /** `{"messages": [{"text": {"body": s}}]}` gets the test reply whenever `s`
      carries the marker, as "#test please check" does. */
  lemma NestedMarkerAnswered(s: string)
    requires HasTestMarker(s)
    ensures Handle(Defined(Obj(map["messages" := Arr([Obj(map["text" := Obj(map["body" := Str(s)])])])])))
            == Envelope(true, ReplyText(TestReceived))
  {
    var body := Defined(Obj(map["messages" := Arr([Obj(map["text" := Obj(map["body" := Str(s)])])])]));
    assert Resolve(body, MessagesTextBody) == Defined(Str(s));
    ExtractPrecedence(body);
    ClassifyString(s);
  }

  /** `{message: "", text: "hello"}`: the empty string is extracted and the
      payload is ignored, although `text` holds a greeting. */
  lemma EmptyMessageIgnored()
    ensures Handle(Defined(Obj(map["message" := Str(""), "text" := Str("hello")]))) == Envelope(true, ReplyText(Ignored))
  {
    EmptyMessageShadowsText();
  }

  /** `{"message": {"text": {"toString": 1}}}`: the object found at
      `message.text` cannot be converted to a string, so the handler throws. */
  lemma ShadowedToStringRaises()
    ensures Handle(Defined(Obj(map["message" := Obj(map["text" := Obj(map["toString" := Num("1")])])]))) == Raised
  {
    ObjectAtMessageTextReturned(map["toString" := Num("1")]);
  }
}

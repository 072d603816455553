/**
 `extractTextFromInterakt`: the user's text is looked for at ten places of the
 payload, in a fixed order, and the first place that qualifies wins. The first
 eight places qualify when the value there is truthy, the last two when it is a
 string (`typeof === "string"`), even an empty one.

 The function is modelled twice: `Extract` is the chain of guarded returns as
 the handler has it, and `FirstMatch` over `Candidates` is the same search
 driven by a table; `ExtractIsFirstMatch` proves that they agree.
 */
module Extraction {
  import opened Json
  import opened Paths

  const MessagesTextBody: seq<Seg> := [Prop("messages"), First, Prop("text"), Prop("body")]
  const MessagesText: seq<Seg> := [Prop("messages"), First, Prop("text")]
  const MessageTextBody: seq<Seg> := [Prop("message"), Prop("text"), Prop("body")]
  const MessageText: seq<Seg> := [Prop("message"), Prop("text")]
  const DataMessage: seq<Seg> := [Prop("data"), Prop("message")]
  const PayloadMessage: seq<Seg> := [Prop("payload"), Prop("message")]
  const IncomingMessage: seq<Seg> := [Prop("incoming_message")]
  const MessageTextField: seq<Seg> := [Prop("message_text")]
  const Message: seq<Seg> := [Prop("message")]
  const Text: seq<Seg> := [Prop("text")]

  /** The chain of guarded returns, one `if` per place, in the handler's order:
      first the WhatsApp-like shapes, then the Interakt ones, then the fallbacks. */
  function Extract(body: Value): Value {
    if Truthy(Resolve(body, MessagesTextBody)) then Resolve(body, MessagesTextBody)
    else if Truthy(Resolve(body, MessagesText)) then Resolve(body, MessagesText)
    else if Truthy(Resolve(body, MessageTextBody)) then Resolve(body, MessageTextBody)
    else if Truthy(Resolve(body, MessageText)) then Resolve(body, MessageText)
    else ExtractInterakt(body)
  }

  function ExtractInterakt(body: Value): Value {
    if Truthy(Resolve(body, DataMessage)) then Resolve(body, DataMessage)
    else if Truthy(Resolve(body, PayloadMessage)) then Resolve(body, PayloadMessage)
    else if Truthy(Resolve(body, IncomingMessage)) then Resolve(body, IncomingMessage)
    else if Truthy(Resolve(body, MessageTextField)) then Resolve(body, MessageTextField)
    else ExtractFallback(body)
  }

  function ExtractFallback(body: Value): Value {
    if IsString(Resolve(body, Message)) then Resolve(body, Message)
    else if IsString(Resolve(body, Text)) then Resolve(body, Text)
    else Undefined
  }

  /** What makes a place qualify. */
  datatype Guard = IsTruthy | IsStringValue

  /** One place the text may be found, and how it qualifies. */
  datatype Candidate = Candidate(path: seq<Seg>, guard: Guard)

  predicate Holds(body: Value, c: Candidate) {
    var x := Resolve(body, c.path);
    match c.guard
    case IsTruthy => Truthy(x)
    case IsStringValue => IsString(x)
  }

  /** The ten places, most specific first. */
  const Candidates: seq<Candidate> := [
    Candidate(MessagesTextBody, IsTruthy),
    Candidate(MessagesText, IsTruthy),
    Candidate(MessageTextBody, IsTruthy),
    Candidate(MessageText, IsTruthy),
    Candidate(DataMessage, IsTruthy),
    Candidate(PayloadMessage, IsTruthy),
    Candidate(IncomingMessage, IsTruthy),
    Candidate(MessageTextField, IsTruthy),
    Candidate(Message, IsStringValue),
    Candidate(Text, IsStringValue)
  ]

  /** The value at the first candidate that holds, or `undefined` when none does. */
  function FirstMatch(body: Value, cs: seq<Candidate>): (r: Value)
    ensures forall i :: 0 <= i < |cs| && Holds(body, cs[i]) && (forall j :: 0 <= j < i ==> !Holds(body, cs[j]))
              ==> r == Resolve(body, cs[i].path)
    ensures (forall i :: 0 <= i < |cs| ==> !Holds(body, cs[i])) ==> r == Undefined
    decreases |cs|
  {
    if cs == [] then Undefined
    else if Holds(body, cs[0]) then Resolve(body, cs[0].path)
    else
      assert forall i :: 1 <= i < |cs| ==> cs[i] == cs[1..][i - 1];
      FirstMatch(body, cs[1..])
  }

  /** One step of the search over a suffix of the table. */
  lemma FirstMatchSuffix(body: Value, cs: seq<Candidate>, k: nat)
    requires k < |cs|
    ensures FirstMatch(body, cs[k..]) ==
      if Holds(body, cs[k]) then Resolve(body, cs[k].path) else FirstMatch(body, cs[k + 1..])
  {
  }

  /** The last two rows of the table are the fallbacks. */
  lemma FallbackIsFirstMatch(body: Value)
    ensures ExtractFallback(body) == FirstMatch(body, Candidates[8..])
  {
  }

  /** Rows four to seven are the Interakt shapes. */
  lemma InteraktIsFirstMatch(body: Value)
    ensures ExtractInterakt(body) == FirstMatch(body, Candidates[4..])
  {
    var cs := Candidates;
    FallbackIsFirstMatch(body);
    assert Holds(body, cs[4]) == Truthy(Resolve(body, DataMessage));
    assert Holds(body, cs[5]) == Truthy(Resolve(body, PayloadMessage));
    assert Holds(body, cs[6]) == Truthy(Resolve(body, IncomingMessage));
    assert Holds(body, cs[7]) == Truthy(Resolve(body, MessageTextField));
    FirstMatchSuffix(body, cs, 7);
    FirstMatchSuffix(body, cs, 6);
    FirstMatchSuffix(body, cs, 5);
    FirstMatchSuffix(body, cs, 4);
  }

  /** The chain of guarded returns is the table-driven search over `Candidates`. */
  lemma ExtractIsFirstMatch(body: Value)
    ensures Extract(body) == FirstMatch(body, Candidates)
  {
    var cs := Candidates;
    InteraktIsFirstMatch(body);
    assert Holds(body, cs[0]) == Truthy(Resolve(body, MessagesTextBody));
    assert Holds(body, cs[1]) == Truthy(Resolve(body, MessagesText));
    assert Holds(body, cs[2]) == Truthy(Resolve(body, MessageTextBody));
    assert Holds(body, cs[3]) == Truthy(Resolve(body, MessageText));
    FirstMatchSuffix(body, cs, 3);
    FirstMatchSuffix(body, cs, 2);
    FirstMatchSuffix(body, cs, 1);
    FirstMatchSuffix(body, cs, 0);
    assert cs[0..] == cs;
  }

  /** First match in declared order: the result is the value at the earliest
      place that qualifies, and `undefined` when no place does. */
  lemma ExtractFirstQualifying(body: Value, i: nat)
    requires i < |Candidates| && Holds(body, Candidates[i])
    requires forall j :: 0 <= j < i ==> !Holds(body, Candidates[j])
    ensures Extract(body) == Resolve(body, Candidates[i].path)
  {
    ExtractIsFirstMatch(body);
  }

  lemma ExtractNoneQualifying(body: Value)
    requires forall i :: 0 <= i < |Candidates| ==> !Holds(body, Candidates[i])
    ensures Extract(body) == Undefined
  {
    ExtractIsFirstMatch(body);
  }

  /** Two bodies that agree on the places up to one that qualifies give the same
      answer, whatever they hold at later places. */
  lemma {:induction false} FirstMatchDependsOnPrefix(b1: Value, b2: Value, cs: seq<Candidate>, i: nat)
    requires i < |cs| && Holds(b1, cs[i])
    requires forall j :: 0 <= j <= i ==> Resolve(b1, cs[j].path) == Resolve(b2, cs[j].path)
    ensures FirstMatch(b1, cs) == FirstMatch(b2, cs)
    decreases |cs|
  {
    if !Holds(b1, cs[0]) {
      assert i > 0;
      FirstMatchDependsOnPrefix(b1, b2, cs[1..], i - 1);
    }
  }

  /** Later candidates never influence the result once an earlier one qualifies. */
  lemma ExtractIgnoresLaterCandidates(b1: Value, b2: Value, i: nat)
    requires i < |Candidates| && Holds(b1, Candidates[i])
    requires forall j :: 0 <= j <= i ==> Resolve(b1, Candidates[j].path) == Resolve(b2, Candidates[j].path)
    ensures Extract(b1) == Extract(b2)
  {
    ExtractIsFirstMatch(b1);
    ExtractIsFirstMatch(b2);
    FirstMatchDependsOnPrefix(b1, b2, Candidates, i);
  }

  /** `messages[0].text.body` beats `messages[0].text`, which beats
      `message.text.body`, which beats `message.text`: each of the four is
      returned exactly when it is truthy and the ones before it are not. */
  lemma ExtractPrecedence(body: Value)
    ensures Truthy(Resolve(body, MessagesTextBody)) ==> Extract(body) == Resolve(body, MessagesTextBody)
    ensures !Truthy(Resolve(body, MessagesTextBody)) && Truthy(Resolve(body, MessagesText)) ==>
              Extract(body) == Resolve(body, MessagesText)
    ensures !Truthy(Resolve(body, MessagesTextBody)) && !Truthy(Resolve(body, MessagesText)) &&
            Truthy(Resolve(body, MessageTextBody)) ==>
              Extract(body) == Resolve(body, MessageTextBody)
    ensures !Truthy(Resolve(body, MessagesTextBody)) && !Truthy(Resolve(body, MessagesText)) &&
            !Truthy(Resolve(body, MessageTextBody)) && Truthy(Resolve(body, MessageText)) ==>
              Extract(body) == Resolve(body, MessageText)
  {
  }

  /** Extraction never fails: a body that is not an object (`undefined`,
      `null`, a number, a string, an array) yields `undefined`. */
  lemma ExtractNonObject(body: Value)
    requires !(body.Defined? && body.json.Obj?)
    ensures Extract(body) == Undefined
  {
  }

  /** What comes out: `undefined`, a truthy value of any type (from the first
      eight places), or a string from the last two, which may be empty. */
  lemma ExtractResultKinds(body: Value)
    ensures var r := Extract(body);
      r == Undefined || Truthy(r) || r == Defined(Str(""))
    ensures var r := Extract(body);
      r != Undefined && !Truthy(r) ==>
        (r == Resolve(body, Message) || r == Resolve(body, Text)) &&
        forall i :: 0 <= i < 8 ==> !Truthy(Resolve(body, Candidates[i].path))
  {
  }

  /** `{message: "", text: "hello"}`: the empty `message` string is a string,
      so the `text` place is never reached. */
  lemma EmptyMessageShadowsText()
    ensures Extract(Defined(Obj(map["message" := Str(""), "text" := Str("hello")]))) == Defined(Str(""))
  {
  }

  /** An object found at `message.text` is returned as it is. */
  lemma ObjectAtMessageTextReturned(inner: map<string, Json>)
    requires "body" !in inner
    ensures var body := Defined(Obj(map["message" := Obj(map["text" := Obj(inner)])]));
      Extract(body) == Defined(Obj(inner))
  {
  }

  /** `messages[0].text.body` wins over `message.text` when both are present. */
  lemma NestedArrayShapeWins(first: string, second: string)
    requires first != "" && second != ""
    ensures var body := Defined(Obj(map[
              "messages" := Arr([Obj(map["text" := Obj(map["body" := Str(first)])])]),
              "message" := Obj(map["text" := Str(second)])]));
      Extract(body) == Defined(Str(first))
  {
  }
}

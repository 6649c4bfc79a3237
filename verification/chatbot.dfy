/** The site's chatbot endpoint: a question goes to the hosted model when
    its key is configured, and otherwise gets one of seven canned answers
    chosen by keyword. */
module Chatbot {

  import opened Js
  import Text

  /** The seven canned answers: one per rule, and the default. */
  datatype Topic = Neet | Study | Biology | Chemistry | Physics | Greeting | General

  /** The text of each canned answer. */
  function AnswerText(t: Topic): string {
    match t
    case Neet => "NEET (National Eligibility cum Entrance Test) is a medical entrance exam in India. It's conducted by NTA and is required for admission to MBBS, BDS, and other medical courses. The exam consists of Physics, Chemistry, and Biology sections. Would you like to know more about specific subjects or exam preparation strategies?"
    case Study => "For NEET preparation, focus on NCERT books first, practice previous year questions, take regular mock tests, and maintain a study schedule. Biology carries the most weight (50%), followed by Chemistry (25%) and Physics (25%). Regular revision and solving practice questions is key to success!"
    case Biology => "Biology is the most important subject for NEET with 50% weightage. Focus on NCERT Biology books, especially Class 11 and 12. Important topics include Human Physiology, Genetics, Ecology, and Plant Physiology. Practice diagrams and understand concepts rather than memorizing."
    case Chemistry => "Chemistry has 25% weightage in NEET. Focus on Physical Chemistry calculations, Organic Chemistry mechanisms, and Inorganic Chemistry facts. NCERT books are essential. Practice numerical problems regularly and understand reaction mechanisms."
    case Physics => "Physics also has 25% weightage in NEET. Focus on Mechanics, Electromagnetism, and Optics. Practice numerical problems and understand concepts. NCERT books are important, but you may need additional reference books for better understanding."
    case Greeting => "Hello! I'm your NEET Academy AI assistant. I can help you with NEET preparation questions, study tips, and exam strategies. How can I assist you today?"
    case General => "I'm here to help you with NEET preparation! You can ask me about exam strategies, study tips, specific subjects (Biology, Chemistry, Physics), or any other NEET-related questions. What would you like to know?"
  }

  /** The rules in the order they are tried, and the answer of each; the
      last answer is the default. */
  const Keywords: seq<seq<string>> := [
    ["neet", "exam", "test"], ["study", "prepare", "tips"], ["biology", "bio"],
    ["chemistry", "chem"], ["physics"], ["hello", "hi", "hey"]]
  const Answers: seq<Topic> := [Neet, Study, Biology, Chemistry, Physics, Greeting, General]

  /** Some keyword of the rule occurs in the text. */
  predicate Mentions(lower: string, words: seq<string>) {
    exists m :: 0 <= m < |words| && Text.Contains(lower, words[m])
  }

  /** `getFallbackResponse` */
  function Fallback(question: string): (r: Topic)
  {
    var q := Text.Lower(question);
    if Text.Contains(q, "neet") || Text.Contains(q, "exam") || Text.Contains(q, "test") then Neet
    else if Text.Contains(q, "study") || Text.Contains(q, "prepare") || Text.Contains(q, "tips") then Study
    else if Text.Contains(q, "biology") || Text.Contains(q, "bio") then Biology
    else if Text.Contains(q, "chemistry") || Text.Contains(q, "chem") then Chemistry
    else if Text.Contains(q, "physics") then Physics
    else if Text.Contains(q, "hello") || Text.Contains(q, "hi") || Text.Contains(q, "hey") then Greeting
    else General
  }

  /** The first rule at or after `j` that the text mentions, or the
      default's index when none does. */
  function FirstRule(lower: string, j: nat): (k: nat)
    requires j <= |Keywords|
    ensures j <= k <= |Keywords|
    ensures k < |Keywords| ==> Mentions(lower, Keywords[k])
    ensures forall i :: j <= i < k ==> !Mentions(lower, Keywords[i])
    decreases |Keywords| - j
  {
    if j == |Keywords| then j
    else if Mentions(lower, Keywords[j]) then j
    else FirstRule(lower, j + 1)
  }

  /** The rule of index `j` is mentioned exactly when one of its literal
      keywords occurs. */
  lemma MentionsRule(lower: string, j: nat)
    requires j < |Keywords|
    ensures j == 0 ==> (Mentions(lower, Keywords[j]) <==>
                          Text.Contains(lower, "neet") || Text.Contains(lower, "exam") || Text.Contains(lower, "test"))
    ensures j == 1 ==> (Mentions(lower, Keywords[j]) <==>
                          Text.Contains(lower, "study") || Text.Contains(lower, "prepare") || Text.Contains(lower, "tips"))
    ensures j == 2 ==> (Mentions(lower, Keywords[j]) <==> Text.Contains(lower, "biology") || Text.Contains(lower, "bio"))
    ensures j == 3 ==> (Mentions(lower, Keywords[j]) <==> Text.Contains(lower, "chemistry") || Text.Contains(lower, "chem"))
    ensures j == 4 ==> (Mentions(lower, Keywords[j]) <==> Text.Contains(lower, "physics"))
    ensures j == 5 ==> (Mentions(lower, Keywords[j]) <==>
                          Text.Contains(lower, "hello") || Text.Contains(lower, "hi") || Text.Contains(lower, "hey"))
  {
    var w := Keywords[j];
    if Mentions(lower, w) {
      var m :| 0 <= m < |w| && Text.Contains(lower, w[m]);
    }
    if j == 0 {
      assert Text.Contains(lower, "neet") ==> Text.Contains(lower, w[0]);
      assert Text.Contains(lower, "exam") ==> Text.Contains(lower, w[1]);
      assert Text.Contains(lower, "test") ==> Text.Contains(lower, w[2]);
    } else if j == 1 {
      assert Text.Contains(lower, "study") ==> Text.Contains(lower, w[0]);
      assert Text.Contains(lower, "prepare") ==> Text.Contains(lower, w[1]);
      assert Text.Contains(lower, "tips") ==> Text.Contains(lower, w[2]);
    } else if j == 2 {
      assert Text.Contains(lower, "biology") ==> Text.Contains(lower, w[0]);
      assert Text.Contains(lower, "bio") ==> Text.Contains(lower, w[1]);
    } else if j == 3 {
      assert Text.Contains(lower, "chemistry") ==> Text.Contains(lower, w[0]);
      assert Text.Contains(lower, "chem") ==> Text.Contains(lower, w[1]);
    } else if j == 4 {
      assert Text.Contains(lower, "physics") ==> Text.Contains(lower, w[0]);
    } else {
      assert Text.Contains(lower, "hello") ==> Text.Contains(lower, w[0]);
      assert Text.Contains(lower, "hi") ==> Text.Contains(lower, w[1]);
      assert Text.Contains(lower, "hey") ==> Text.Contains(lower, w[2]);
    }
  }

  /** The chain of tests is a first-match rule table: the answer is that
      of the first rule the lower-cased question mentions. */
  lemma FallbackIsFirstMatch(question: string)
    ensures Fallback(question) == Answers[FirstRule(Text.Lower(question), 0)]
  {
    var q := Text.Lower(question);
    MentionsRule(q, 0);
    MentionsRule(q, 1);
    MentionsRule(q, 2);
    MentionsRule(q, 3);
    MentionsRule(q, 4);
    MentionsRule(q, 5);
  }

  /** The long keywords of the subject rules add nothing: `bio` and `chem`
      already catch every question naming the subject in full. */
  lemma SubjectsByPrefix(lower: string)
    ensures Mentions(lower, Keywords[2]) <==> Text.Contains(lower, "bio")
    ensures Mentions(lower, Keywords[3]) <==> Text.Contains(lower, "chem")
  {
    MentionsRule(lower, 2);
    MentionsRule(lower, 3);
    if Text.Contains(lower, "biology") {
      assert "biology" == "bio" + "logy";
      Text.ContainsShorter(lower, "bio", "logy");
    }
    if Text.Contains(lower, "chemistry") {
      assert "chemistry" == "chem" + "istry";
      Text.ContainsShorter(lower, "chem", "istry");
    }
  }

  /** What a model's endpoint gave back. */
  datatype Reply =
    | Unreachable        // `fetch` or `response.json()` threw
    | NotOk              // an error status
    | Ok(data: Value)    // the parsed body

  /** Reading the generated text out of a parsed body. */
  datatype Extracted = Throws | NoText | Found(text: Value)

  /** The response-shape extraction: a non-empty array is read through its
      first element, anything else directly; `generated_text` is preferred
      to `text`, and only a truthy value counts. */
  function Extract(data: Value): (r: Extracted)
    ensures r.Found? ==> Truthy(r.text)
    ensures r.Throws? <==> data.Undefined? || data.Null? || (data.Arr? && |data.items| > 0 && (data.items[0].Undefined? || data.items[0].Null?))
  {
    var holder := if data.Arr? && |data.items| > 0 then data.items[0] else data;
    match Prop(holder, "generated_text")
    case None => Throws
    case Some(g) =>
      if Truthy(g) then Found(g)
      else match Prop(holder, "text")
        case None => Throws
        case Some(t) => if Truthy(t) then Found(t) else NoText
  }

  /** `generated_text` wins over `text` on either shape. */
  lemma GeneratedTextFirst(fields: map<string, Value>, rest: seq<Value>)
    requires "generated_text" in fields && Truthy(fields["generated_text"])
    ensures Extract(Obj(fields)) == Found(fields["generated_text"])
    ensures Extract(Arr([Obj(fields)] + rest)) == Found(fields["generated_text"])
  {
  }

  /** A non-empty array is read exactly as its first element would be,
      unless that element is itself a non-empty array. */
  lemma ArrayReadsFirst(first: Value, rest: seq<Value>)
    requires !(first.Arr? && |first.items| > 0)
    ensures Extract(Arr([first] + rest)) == Extract(first)
  {
    assert Arr([first] + rest).items[0] == first;
  }

  const Models: seq<string> := ["mistralai/Mistral-7B-Instruct-v0.1", "google/flan-t5-large"]

  /** Model `k`'s reply yields text. */
  predicate Succeeds(replies: seq<Reply>, k: nat)
    requires k < |replies|
  {
    replies[k].Ok? && Extract(replies[k].data).Found?
  }

  /** Model `k` is the first from index `i` on whose reply yields text. */
  predicate FirstSuccess(replies: seq<Reply>, i: nat, k: nat)
    requires |replies| == |Models|
  {
    i <= k < |Models| && Succeeds(replies, k) && forall j :: i <= j < k ==> !Succeeds(replies, j)
  }

  /** The models from index `i` on, tried in order: the first whose reply
      yields text answers. A throwing extraction moves on like any other
      failure. */
  function TryModels(replies: seq<Reply>, i: nat): (r: Option<(Value, string)>)
    requires |replies| == |Models| && i <= |Models|
    ensures r.Some? ==> exists k: nat :: FirstSuccess(replies, i, k)
                          && r.value == (Extract(replies[k].data).text, Models[k])
    ensures r.None? <==> forall k :: i <= k < |Models| ==> !Succeeds(replies, k)
    decreases |Models| - i
  {
    if i == |Models| then None
    else if Succeeds(replies, i) then
      assert FirstSuccess(replies, i, i);
      Some((Extract(replies[i].data).text, Models[i]))
    else
      var r := TryModels(replies, i + 1);
      if r.Some? then
        var k: nat :| FirstSuccess(replies, i + 1, k) && r.value == (Extract(replies[k].data).text, Models[k]);
        assert FirstSuccess(replies, i, k);
        r
      else r
  }

  /** A configured key: set and not empty. */
  predicate Configured(key: Option<string>) {
    key.Some? && key.value != ""
  }

  /** `tryHuggingFace` */
  function HuggingFace(key: Option<string>, replies: seq<Reply>): (r: Option<(Value, string)>)
    requires |replies| == |Models|
    ensures !Configured(key) ==> r.None?
  {
    if !Configured(key) then None else TryModels(replies, 0)
  }

  /** Why a question got no answer. */
  datatype Problem = NoQuestion | NoModel

  function Message(p: Problem): string {
    match p
    case NoQuestion => "Question is required and must be a string"
    case NoModel => "Hugging Face API is not responding. Please check your API key and try again."
  }

  datatype Answer =
    | Failure(status: nat, error: Problem)
    | Answered(response: Value, model: string, provider: string)

  /** `POST /ask` (without the timestamp). */
  function Ask(question: Value, key: Option<string>, replies: seq<Reply>): (r: Answer)
    requires |replies| == |Models|
    ensures r.Failure? && r.status == 400 <==> !(question.Str? && question.s != "")
    ensures question.Str? && question.s != "" && Configured(key) ==>
              r.Failure? || (r.provider == "huggingface" && r.model in Models && Truthy(r.response))
    ensures question.Str? && question.s != "" && Configured(key) && r.Answered? ==>
              exists k: nat :: FirstSuccess(replies, 0, k)
                && r.response == Extract(replies[k].data).text && r.model == Models[k]
    ensures question.Str? && question.s != "" && !Configured(key) ==>
              r == Answered(Str(AnswerText(Fallback(question.s))), "fallback", "fallback")
    ensures r.Failure? ==> r.status == 400 || r.status == 500
  {
    if !Truthy(question) || !question.Str? then Failure(400, NoQuestion)
    else if Configured(key) then
      match HuggingFace(key, replies)
      case Some(found) => Answered(found.0, found.1, "huggingface")
      case None => Failure(500, NoModel)
    else Answered(Str(AnswerText(Fallback(question.s))), "fallback", "fallback")
  }

  /** With a key configured the canned answers are never used: the reply
      is the model's text or a 500. */
  lemma ConfiguredNeverFallsBack(question: string, key: Option<string>, replies: seq<Reply>)
    requires |replies| == |Models| && question != "" && Configured(key)
    ensures var r := Ask(Str(question), key, replies);
            r.Failure? <==> (forall k :: 0 <= k < |Models| ==> !Succeeds(replies, k))
    ensures Ask(Str(question), key, replies).Answered? ==> Ask(Str(question), key, replies).provider != "fallback"
  {
  }
}

/**
 * The analyst chat: the system prompt that opens a conversation, one turn
 * of the conversation (the user's message and the model's reply appended to
 * the history), and the reading of a reply, which is either plain text or a
 * JSON object whose `plot_request` names one of four charts.
 *
 * The chat-completion call and `json.loads` are parameters: `chat(history)`
 * gives the reply or the call's exception, `parse(text)` the value or the
 * parser's exception.
 */
module Chat {

  import opened Options
  import opened Json
  import opened Text
  import opened Tidy
  import opened Plotting

  datatype Role = System | User | Assistant

  /** One entry of the chat history, `{"role": ..., "content": ...}`. */
  datatype Message = Message(role: Role, content: string)

  /** The key whose presence in a reply signals a chart request. */
  const PlotMarker: string := "plot_request"

  const ConnectionApology: string := "Sorry, I encountered an error connecting to the AI model."

  // The system prompt in four fixed segments around the company name, the
  // marker and the data summary. The wording is a paraphrase; what the model
  // relies on is where the three variable parts and the marker sit.

  const PromptIntro: string := "You are FinAnalyst, a financial analyst assistant for an executive of "

  const SchemaHead: string :=
    ". Interpret the figures concisely and point out trends, risks and opportunities. "
    + "When a chart answers the question you must request one: reply with a single JSON object "
    + "{\"message\": <your analysis>, \""

  const SchemaTail: string :=
    "\": {\"type\": \"line | bar | asset_liability_comparison | growth\", "
    + "\"metric\": <a metric of the data table>, \"title\": <a chart title>}}. "
    + "Use growth for year-over-year questions; reply in plain text when no chart is needed.\n"
    + "Available Financial Data:\n---\n"

  const PromptClosing: string := "\n---\n"

  function SystemPrompt(companyName: string, dataSummary: string): string
  {
    PromptIntro + companyName + SchemaHead + PlotMarker + SchemaTail + dataSummary + PromptClosing
  }

  /**
   * `get_initial_chat_messages`: a history of exactly one system message
   * that names the company, shows the data summary and teaches the
   * `plot_request` schema the reply parser looks for.
   */
  function InitialMessages(companyName: string, dataSummary: string): (r: seq<Message>)
    ensures |r| == 1 && r[0].role == System
    ensures Contains(r[0].content, companyName)
    ensures Contains(r[0].content, dataSummary)
    ensures Contains(r[0].content, PlotMarker)
  {
    SegmentsContained(PromptIntro, companyName, SchemaHead, PlotMarker, SchemaTail, dataSummary, PromptClosing);
    [Message(System, SystemPrompt(companyName, dataSummary))]
  }

  /** Each variable segment of a seven-part text occurs in it. */
  lemma SegmentsContained(a: string, name: string, b: string, marker: string, c: string, summary: string, d: string)
    ensures var text := a + name + b + marker + c + summary + d;
      Contains(text, name) && Contains(text, marker) && Contains(text, summary)
  {
    var text := a + name + b + marker + c + summary + d;
    assert text == a + name + (b + marker + c + summary + d);
    ContainsInfix(a, name, b + marker + c + summary + d);
    assert text == (a + name + b) + marker + (c + summary + d);
    ContainsInfix(a + name + b, marker, c + summary + d);
    assert text == (a + name + b + marker + c) + summary + d;
    ContainsInfix(a + name + b + marker + c, summary, d);
  }

  // ----- Reading a reply -----

  /**
   * `re.search(r'\{.*\}', text, re.DOTALL)`: the leftmost match starts at
   * the first `{` and, being greedy, ends at the last `}`; there is a match
   * exactly when some `{` comes before some `}`.
   */
  function BraceSpan(text: string): (r: Option<string>)
    ensures r.Some? <==> exists i, j :: 0 <= i < j < |text| && text[i] == '{' && text[j] == '}'
    ensures r.Some? ==> exists i, j :: GreedySpan(text, i, j) && r.value == text[i..j + 1]
  {
    var first, last := FirstIndex(text, '{'), LastIndex(text, '}');
    assert forall i, j :: 0 <= i < j < |text| && text[i] == '{' && text[j] == '}' ==>
      first.Some? && last.Some? && first.value < last.value by {
      forall i, j | 0 <= i < j < |text| && text[i] == '{' && text[j] == '}'
        ensures first.Some? && last.Some? && first.value < last.value
      {
        FirstIndexLeast(text, '{', i);
        LastIndexGreatest(text, '}', j);
      }
    }
    if first.Some? && last.Some? && first.value < last.value then
      assert GreedySpan(text, first.value, last.value);
      Some(text[first.value..last.value + 1])
    else
      None
  }

  /** `text[i..j + 1]` runs from the first `{` to the last `}`. */
  predicate GreedySpan(text: string, i: int, j: int)
  {
    0 <= i < j < |text| && text[i] == '{' && text[j] == '}' && '{' !in text[..i] && '}' !in text[j + 1..]
  }

  /** Text before the first `{` and after the last `}` is not part of the span. */
  lemma BraceSpanEmbedded(pre: string, body: string, post: string)
    requires '{' !in pre && '}' !in post
    requires |body| >= 2 && body[0] == '{' && body[|body| - 1] == '}'
    ensures BraceSpan(pre + body + post) == Some(body)
  {
    var text := pre + body + post;
    var j := |pre| + |body| - 1;
    assert text[..|pre|] == pre;
    FirstIndexAt(text, '{', |pre|);
    assert text[j + 1..] == post;
    LastIndexAt(text, '}', j);
    assert text[|pre|..j + 1] == body;
  }

  /** The reply shown in the chat: a message (any JSON value, normally a string) and an optional figure. */
  datatype ChatReply = ChatReply(message: JsonValue, plot: Option<Figure>)

  function PlainText(text: string): ChatReply
  {
    ChatReply(JStr(text), None)
  }

  /** `metric and metric in df['metric'].unique()`, for the string metrics a frame can hold. */
  predicate MetricPresent(metric: JsonValue, df: seq<Row>)
  {
    metric.JStr? && metric.s != "" && HasMetric(df, metric.s)
  }

  /**
   * The chart a plot request asks for. Line and bar charts and growth need a
   * metric present in the data; the asset/liability comparison needs none;
   * any other type, and a growth request with no growth point, draws nothing.
   */
  function Dispatch(kind: JsonValue, metric: JsonValue, title: JsonValue, df: seq<Row>): (r: Option<Figure>)
    ensures r.Some? ==> kind == JStr("asset_liability_comparison") || MetricPresent(metric, df)
    ensures kind == JStr("asset_liability_comparison") ==> r == Some(AssetLiabilityChart(df))
    ensures r.Some? && (r.value.LineChart? || r.value.BarChart? || r.value.GrowthBars?) ==>
      r.value.title == title
    ensures r.Some? && (r.value.LineChart? || r.value.BarChart?) ==>
      (forall p :: p in r.value.points <==>
        exists row :: row in df && row.metric == metric.s && p == Point(row.year, row.value))
      && forall i, j :: 0 <= i < j < |r.value.points| ==> r.value.points[i].year <= r.value.points[j].year
    ensures kind == JStr("line") && MetricPresent(metric, df) ==>
      r == Some(LineChart(Points(Series(df, metric.s)), title))
    ensures kind == JStr("bar") && MetricPresent(metric, df) ==>
      r == Some(BarChart(Points(Series(df, metric.s)), title))
    ensures kind == JStr("growth") && MetricPresent(metric, df) ==> r == GrowthChart(df, metric.s, title)
    ensures !(kind == JStr("line") || kind == JStr("bar") || kind == JStr("asset_liability_comparison")
              || kind == JStr("growth")) ==>
      r.None?
  {
    if (kind == JStr("line") || kind == JStr("bar")) && MetricPresent(metric, df) then
      var points := Points(Series(df, metric.s));
      SeriesPoints(df, metric.s);
      Some(if kind == JStr("line") then LineChart(points, title) else BarChart(points, title))
    else if kind == JStr("asset_liability_comparison") then
      Some(AssetLiabilityChart(df))
    else if kind == JStr("growth") && MetricPresent(metric, df) then
      GrowthChart(df, metric.s, title)
    else
      None
  }

  /**
   * The reply turned into a message and a figure. Without the marker, or
   * without a brace span, or when the span does not parse as an object, or
   * when a truthy `plot_request` is not an object, the raw text is shown;
   * otherwise the object's `message` is shown, with the requested chart when
   * `plot_request` is an object.
   */
  function ParseReply(text: string, df: seq<Row>, parse: string -> ParseResult): (r: ChatReply)
    ensures !Contains(text, PlotMarker) ==> r == PlainText(text)
    ensures BraceSpan(text).None? ==> r == PlainText(text)
    ensures r != PlainText(text) ==>
      Contains(text, PlotMarker) && BraceSpan(text).Some?
      && parse(BraceSpan(text).value).Parsed? && parse(BraceSpan(text).value).value.JObj?
      && r.message == Get(parse(BraceSpan(text).value).value.fields, "message")
    ensures r.plot.Some? ==>
      Contains(text, PlotMarker) && BraceSpan(text).Some?
      && parse(BraceSpan(text).value).Parsed? && parse(BraceSpan(text).value).value.JObj?
      && Get(parse(BraceSpan(text).value).value.fields, PlotMarker).JObj?
    ensures Contains(text, PlotMarker) && BraceSpan(text).Some? && parse(BraceSpan(text).value).Parsed? ==>
      var value := parse(BraceSpan(text).value).value;
      if !value.JObj? then r == PlainText(text)
      else
        var info := Get(value.fields, PlotMarker);
        if !Truthy(info) then r == ChatReply(Get(value.fields, "message"), None)
        else if !info.JObj? then r == PlainText(text)
        else r == ChatReply(Get(value.fields, "message"),
                            Dispatch(Get(info.fields, "type"), Get(info.fields, "metric"), Get(info.fields, "title"), df))
  {
    if !Contains(text, PlotMarker) then PlainText(text)
    else
      match BraceSpan(text)
      case None => PlainText(text)
      case Some(span) =>
        match parse(span)
        case ParseFailed(_) => PlainText(text)
        case Parsed(JObj(fields)) =>
          var info := Get(fields, PlotMarker);
          if !Truthy(info) then ChatReply(Get(fields, "message"), None)
          else if info.JObj? then
            ChatReply(Get(fields, "message"),
                      Dispatch(Get(info.fields, "type"), Get(info.fields, "metric"), Get(info.fields, "title"), df))
          else PlainText(text)
        case Parsed(_) => PlainText(text)
  }

  /**
   * A reply that embeds a plot request between prose without braces is read
   * as the request: its `message` is shown and its chart drawn.
   */
  lemma EmbeddedRequest(pre: string, body: string, post: string, df: seq<Row>, parse: string -> ParseResult,
                        fields: map<string, JsonValue>, request: map<string, JsonValue>)
    requires '{' !in pre && '}' !in post
    requires |body| >= 2 && body[0] == '{' && body[|body| - 1] == '}'
    requires Contains(body, PlotMarker)
    requires parse(body) == Parsed(JObj(fields))
    requires Get(fields, PlotMarker) == JObj(request) && request != map[]
    ensures ParseReply(pre + body + post, df, parse)
         == ChatReply(Get(fields, "message"),
                      Dispatch(Get(request, "type"), Get(request, "metric"), Get(request, "title"), df))
  {
    BraceSpanEmbedded(pre, body, post);
    ContainsWithin(pre, body, post, PlotMarker);
    ParsedRequest(pre + body + post, body, df, parse, fields, request);
  }

  /** A reply with the marker whose brace span parses to an object with a non-empty request. */
  lemma ParsedRequest(text: string, span: string, df: seq<Row>, parse: string -> ParseResult,
                      fields: map<string, JsonValue>, request: map<string, JsonValue>)
    requires Contains(text, PlotMarker) && BraceSpan(text) == Some(span)
    requires parse(span) == Parsed(JObj(fields))
    requires Get(fields, PlotMarker) == JObj(request) && request != map[]
    ensures ParseReply(text, df, parse)
         == ChatReply(Get(fields, "message"),
                      Dispatch(Get(request, "type"), Get(request, "metric"), Get(request, "title"), df))
  {
  }

  /** A pattern found in the middle part is found in the whole. */
  lemma ContainsWithin(a: string, b: string, c: string, pat: string)
    requires Contains(b, pat)
    ensures Contains(a + b + c, pat)
  {
    var i: nat :| OccursAt(b, pat, i);
    assert (a + b + c)[|a| + i..|a| + i + |pat|] == b[i..i + |pat|];
    assert OccursAt(a + b + c, pat, |a| + i);
  }

  /** A request without a usable metric draws nothing unless it asks for the asset/liability comparison. */
  lemma NoMetricNoChart(kind: JsonValue, metric: JsonValue, title: JsonValue, df: seq<Row>)
    requires !MetricPresent(metric, df)
    requires kind != JStr("asset_liability_comparison")
    ensures Dispatch(kind, metric, title, df) == None
  {
  }

  // ----- The conversation -----

  /** The history of one chat, which `get_groq_response` extends in place. */
  class ChatSession {
    var history: seq<Message>

    /** A new conversation about one company and its data summary. */
    constructor (companyName: string, dataSummary: string)
      ensures history == InitialMessages(companyName, dataSummary)
    {
      history := InitialMessages(companyName, dataSummary);
    }

    /**
     * `get_groq_response`: the prompt joins the history as a user turn; a
     * reply joins it as an assistant turn and is read by `ParseReply`; a
     * failed call leaves only the user turn and yields the apology.
     */
    method Ask(prompt: string, df: seq<Row>, chat: seq<Message> -> CallResult, parse: string -> ParseResult)
      returns (reply: ChatReply)
      modifies this
      ensures var asked := old(history) + [Message(User, prompt)];
        match chat(asked)
        case CallFailed(_) => history == asked && reply == PlainText(ConnectionApology)
        case Reply(text) => history == asked + [Message(Assistant, text)] && reply == ParseReply(text, df, parse)
    {
      history := history + [Message(User, prompt)];
      var response := chat(history);
      match response
      case CallFailed(_) =>
        reply := PlainText(ConnectionApology);
      case Reply(text) =>
        history := history + [Message(Assistant, text)];
        reply := ParseReply(text, df, parse);
    }
  }

}

/** Turning a chat-completion reply into an invoice record, and the
    completeness test over that record (auto_test/ai_request.py). */
module Extraction {
  import opened Wrappers
  import opened Json
  import Text

  /** The decoded body of a successful chat-completion call. */
  type Response = map<string, Value>

  /** `json.loads`, left abstract: `None` stands for `JSONDecodeError`. */
  type Parser = string -> Option<Value>

  /** What `json.loads` guarantees and the extraction relies on: a text that
      starts with `{` can only decode to a JSON object. */
  ghost predicate LoadsLikeJson(parse: Parser)
  {
    forall t :: |t| > 0 && t[0] == '{' && parse(t).Some? ==> parse(t).value.Object?
  }

  /** `content[i..j]` is a match of the pattern `\{.*\}` under `re.DOTALL`:
      it opens with `{`, closes with `}`, and anything may lie between. */
  ghost predicate IsMatch(content: string, i: int, j: int)
  {
    0 <= i && i + 2 <= j <= |content| && content[i] == '{' && content[j - 1] == '}'
  }

  /** The match `re.search` reports: the leftmost start, and at that start
      the longest match, since `.*` is greedy. */
  ghost predicate IsSearchResult(content: string, i: int, j: int)
  {
    && IsMatch(content, i, j)
    && (forall i', j' :: IsMatch(content, i', j') ==> i <= i')
    && (forall j' :: IsMatch(content, i, j') ==> j' <= j)
  }

  /** `re.search(r'\{.*\}', content, re.DOTALL)` as a pair of bounds: from
      the first `{` to the last `}`. */
  function SearchBraces(content: string): (r: Option<(int, int)>)
    ensures r.None? <==> forall i, j :: !IsMatch(content, i, j)
    ensures r.Some? ==> IsSearchResult(content, r.value.0, r.value.1)
  {
    var i := Text.FirstIndexOf(content, '{');
    var j := Text.LastIndexOf(content, '}');
    if 0 <= i < j then
      assert IsMatch(content, i, j + 1);
      Some((i, j + 1))
    else None
  }

  /** `response_data['choices'][0]['message']['content']` when that lookup
      succeeds and yields a string; `None` when Python would raise there (an
      empty or non-list `choices`, a missing key, or a non-string content,
      which makes `re.search` raise `TypeError`). */
  function MessageContent(response: Response): Option<string>
  {
    if "choices" !in response then None
    else
      var choices := response["choices"];
      if !choices.List? || |choices.items| == 0 then None
      else
        var choice := choices.items[0];
        if !choice.Object? || "message" !in choice.fields then None
        else
          var message := choice.fields["message"];
          if !message.Object? || "content" !in message.fields then None
          else
            var content := message.fields["content"];
            if content.Str? then Some(content.s) else None
  }

  /** `extract_info_from_response`. */
  function ExtractInfo(response: Option<Response>, parse: Parser): Outcome<Option<Value>>
  {
    if response.None? || "choices" !in response.value then Returned(None)
    else match MessageContent(response.value)
      case None => Raised
      case Some(content) =>
        match SearchBraces(content)
        case None => Returned(None)
        case Some((i, j)) => Returned(parse(content[i..j]))
  }

  /** `extract_info_from_response` returns `None` for a missing response or
      one without `choices`; raises exactly when the content cannot be
      reached as a string; and otherwise returns what `json.loads` makes of
      the span `re.search` finds, whatever that parse gives. */
  lemma ExtractInfoSpec(response: Option<Response>, parse: Parser)
    ensures var r := ExtractInfo(response, parse);
      && (response.None? || "choices" !in response.value ==> r == Returned(None))
      && (response.Some? && "choices" in response.value ==>
            (r.Raised? <==> MessageContent(response.value).None?))
      && (r.Returned? && r.value.Some? ==>
            exists i, j :: IsSearchResult(MessageContent(response.value).value, i, j) &&
              parse(MessageContent(response.value).value[i..j]) == r.value)
      && (forall i, j ::
            response.Some? && "choices" in response.value && MessageContent(response.value).Some? &&
            IsSearchResult(MessageContent(response.value).value, i, j) ==>
              r == Returned(parse(MessageContent(response.value).value[i..j])))
  {
    if response.Some? && "choices" in response.value && MessageContent(response.value).Some? {
      var content := MessageContent(response.value).value;
      match SearchBraces(content)
      case None =>
      case Some((i, j)) =>
        assert IsSearchResult(content, i, j);
        forall i', j' | IsSearchResult(content, i', j') ensures i' == i && j' == j {
        }
    }
  }

  /** When no `{ ... }` span exists in the reply's content, or the span does
      not decode, the extraction yields `None` without raising. */
  lemma NoRecordWithoutDecodableSpan(response: Response, parse: Parser)
    requires "choices" in response && MessageContent(response).Some?
    requires var content := MessageContent(response).value;
      forall i, j :: IsSearchResult(content, i, j) ==> parse(content[i..j]).None?
    ensures ExtractInfo(Some(response), parse) == Returned(None)
  {
    var content := MessageContent(response).value;
    match SearchBraces(content)
    case None =>
    case Some((i, j)) =>
      assert IsSearchResult(content, i, j);
  }

  /** Whatever the extraction returns is a JSON object: the span it decodes
      starts with `{`. */
  lemma {:induction false} ExtractedIsObject(response: Option<Response>, parse: Parser)
    requires LoadsLikeJson(parse)
    requires ExtractInfo(response, parse).Returned? && ExtractInfo(response, parse).value.Some?
    ensures ExtractInfo(response, parse).value.value.Object?
  {
    var content := MessageContent(response.value).value;
    var (i, j) := SearchBraces(content).value;
    assert content[i..j][0] == '{';
  }

  /** The return value of `save_response_as_json`: `None` for a missing
      response, otherwise whatever the extraction returns (writing the
      timestamped JSON file is a side effect outside this model). */
  function SaveResponseAsJson(response: Option<Response>, parse: Parser): (r: Outcome<Option<Value>>)
    ensures r == ExtractInfo(response, parse)
  {
    if response.None? then Returned(None)
    else match ExtractInfo(response, parse)
      case Raised => Raised
      case Returned(None) => Returned(None)
      case Returned(Some(info)) => Returned(Some(info))
  }

  /** The keys `check_data_completeness` insists on. */
  const RequiredFields: seq<string> := ["amount", "date", "trading_partner"]

  /** `check_data_completeness`: `all(data.get(field) for field in ...)`.
      A missing key counts like `None`; keys other than the three are ignored. */
  function CheckDataCompleteness(data: Record): (complete: bool)
    ensures complete <==>
      && "amount" in data && Truthy(data["amount"])
      && "date" in data && Truthy(data["date"])
      && "trading_partner" in data && Truthy(data["trading_partner"])
  {
    assert RequiredFields == ["amount", "date", "trading_partner"];
    assert RequiredFields[0] in RequiredFields && RequiredFields[1] in RequiredFields && RequiredFields[2] in RequiredFields;
    forall field <- RequiredFields :: Truthy(Get(data, field))
  }
}

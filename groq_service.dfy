/**
 * `GroqService.analyze_categories`: ask the completion model which dish
 * categories suit a list of products, pull the first-`[`-to-last-`]` part
 * out of its reply, decode it as JSON and return it; on any failure return
 * the one-element list `["main"]`.
 *
 * The model request is not part of this model: its reply is the parameter
 * `response`. The JSON decoder is the parameter `decode`.
 */
module GroqService {
  import opened Wrappers
  import opened Json
  import opened BracketSearch

  /** What every failure path returns: `["main"]`. */
  const Fallback: JsonValue := JArray([JString("main")])

  /** The category keys the prompt offers the model (the code does not
      check the reply against them). */
  const PromptKeys: seq<string> := ["soup", "main", "salad", "breakfast", "dessert", "drink", "snack"]

  /** `v` is a list of distinct keys taken from the prompt. */
  predicate IsPromptKeyList(v: JsonValue) {
    v.JArray? &&
    (forall k :: 0 <= k < |v.items| ==> v.items[k].JString? && v.items[k].s in PromptKeys) &&
    (forall k, m :: 0 <= k < m < |v.items| ==> v.items[k] != v.items[m])
  }

  /** The category analysis, given the model's reply. From the reply on it
      never fails: the result is the decoded matched text, unchanged, when
      there is a match that decodes, and `Fallback` otherwise. */
  function AnalyzeCategories(response: string, decode: Decoder): (r: JsonValue)
    ensures r == Fallback || (Group(response).Some? && decode(Group(response).value) == Some(r))
    ensures Group(response).None? ==> r == Fallback
    ensures Group(response).Some? && decode(Group(response).value).Some? ==>
      r == decode(Group(response).value).value
  {
    match Group(response)
    case None => Fallback
    case Some(text) =>
      match decode(text)
      case Some(v) => v
      case None => Fallback
  }

  // ---------------------------------------------------------------------
  // Properties

  /** The whole behaviour in terms of the reply's first `[` and last `]`:
      without such a pair the result is `["main"]`; with one, it is the
      decoding of the text between them, inclusive, or `["main"]` when that
      does not decode. */
  lemma CategoriesFromFirstToLast(response: string, decode: Decoder)
    ensures !HasBracketPair(response) ==> AnalyzeCategories(response, decode) == Fallback
    ensures match FirstToLast(response)
      case None => AnalyzeCategories(response, decode) == Fallback
      case Some(sp) =>
        && sp.start < sp.end <= |response|
        && AnalyzeCategories(response, decode) == decode(response[sp.start..sp.end]).GetOr(Fallback)
  {
    SearchSucceedsIff(response);
    SearchIsFirstToLast(response);
    GroupIsBracketedSlice(response);
  }

  /** A matched text that does not decode gives exactly `["main"]`. */
  lemma UndecodableMatchGivesMain(response: string, decode: Decoder)
    requires HasBracketPair(response)
    ensures Group(response).Some?
    ensures decode(Group(response).value).None? ==> AnalyzeCategories(response, decode) == Fallback
  {
    GroupIsBracketedSlice(response);
  }

  /** A reply with no `[`, or with no `]`, among them the empty reply of a
      failed request, gives `["main"]`. */
  lemma BracketFreeReplyGivesMain(response: string, decode: Decoder)
    requires '[' !in response || ']' !in response
    ensures AnalyzeCategories(response, decode) == Fallback
  {
    SearchSucceedsIff(response);
  }

  /** Prose before the first `[` and after the last `]` is ignored: the
      decoder sees the bracketed part alone, and what it yields is returned
      unchanged. */
  lemma SurroundingProseIgnored(before: string, g: string, after: string, decode: Decoder)
    requires '[' !in before && ']' !in after
    requires |g| >= 2 && g[0] == '[' && g[|g| - 1] == ']'
    ensures AnalyzeCategories(before + g + after, decode) == decode(g).GetOr(Fallback)
  {
    SurroundingTextIgnored(before, g, after);
  }

  /** Whatever value the decoder yields for a bracketed reply is the result:
      it is not checked against the prompt's keys, not de-duplicated and
      not even required to be a list. */
  lemma DecodedValuePassesThrough(g: string, v: JsonValue, decode: Decoder)
    requires |g| >= 2 && g[0] == '[' && g[|g| - 1] == ']'
    requires decode(g) == Some(v)
    ensures AnalyzeCategories(g, decode) == v
  {
    SurroundingProseIgnored("", g, "", decode);
    assert "" + g + "" == g;
  }

  /** Two witnesses: a repeated key comes back repeated, and an empty list
      comes back empty rather than as `["main"]`. */
  lemma UnfilteredResults()
    ensures var twice := JArray([JString("soup"), JString("soup")]);
      && AnalyzeCategories("[\"soup\", \"soup\"]", (t: string) => Some(twice)) == twice
      && !IsPromptKeyList(twice)
    ensures AnalyzeCategories("[]", (t: string) => Some(JArray([]))) == JArray([])
  {
    var twice := JArray([JString("soup"), JString("soup")]);
    DecodedValuePassesThrough("[\"soup\", \"soup\"]", twice, (t: string) => Some(twice));
    DecodedValuePassesThrough("[]", JArray([]), (t: string) => Some(JArray([])));
    assert twice.items[0] == twice.items[1];
  }

  /** A reply in a Markdown code fence, with the list spread over several
      lines: the newlines inside the list reach the decoder. */
  lemma FencedMultilineReply(decode: Decoder)
    ensures AnalyzeCategories("Here:\n```json\n[\"soup\",\n \"main\"]\n```", decode)
         == decode("[\"soup\",\n \"main\"]").GetOr(Fallback)
  {
    var before, g, after := "Here:\n```json\n", "[\"soup\",\n \"main\"]", "\n```";
    SurroundingProseIgnored(before, g, after, decode);
    assert before + g + after == "Here:\n```json\n[\"soup\",\n \"main\"]\n```";
  }
}

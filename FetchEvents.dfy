/**
 * `FetchEvents::fetch`: request the widget script, capture the HTML fragment it
 * carries, decode it, and turn the items of its first list into records.
 */
module FetchEvents {
  import opened Wrappers
  import opened Php
  import opened WidgetQuery
  import opened FragmentExtractor
  import JsonString
  import opened ItemAssembler

  /** The message of the error entry (its translation is not modelled). */
  const UnreachableMessage: string := "Localist Events could not be reached."

  /** Why the source throws: the fragment has no `ul`, or an item has no
      description (in both cases a method is called on null). */
  datatype Failure = NoList | NoDescription

  /** What `fetch` returns: the record list, the array holding one `error`
      entry, null (the unassigned `$items`), or it throws. */
  datatype FetchResult =
    | Items(records: seq<Record>)
    | ErrorEntry(error: string)
    | NullResult
    | Thrown(failure: Failure)

  /** `json_decode` of the quoted capture, as handed to the parser: a failed
      decode gives null, which reaches the parser as the empty string. */
  function DecodedHtml(capture: string): string {
    match JsonString.Decode(capture)
    case Some(html) => html
    case None => ""
  }

  /** The list items the listing reply yields: None when the pattern does not
      match or the decoded fragment has no `ul`. */
  function ListedItems(body: string, env: Environment): Option<seq<ListItem>> {
    match Extract(body)
    case None => None
    case Some(capture) => env.parse(DecodedHtml(capture)).firstList
  }

  /** The listing request, then, on status 200 and a match, the detail requests
      of the item loop. `requests` lists every URL requested, in order. */
  method Fetch(domain: string, config: map<string, Value>, env: Environment)
    returns (result: FetchResult, requests: seq<string>)
    ensures |requests| >= 1 && requests[0] == ListingUrl(domain, config)
    ensures env.get(requests[0]).status != 200 ==>
      result == ErrorEntry(UnreachableMessage) && requests == [requests[0]]
    ensures env.get(requests[0]).status == 200 && Extract(env.get(requests[0]).body).None? ==>
      result == NullResult && requests == [requests[0]]
    ensures env.get(requests[0]).status == 200 && Extract(env.get(requests[0]).body).Some? ==>
      var doc := env.parse(DecodedHtml(Extract(env.get(requests[0]).body).value));
      && (doc.firstList.None? ==> result == Thrown(NoList) && requests == [requests[0]])
      && (doc.firstList.Some? ==>
            var (outcome, detail) := Assemble(doc.firstList.value, env);
            && requests == [requests[0]] + detail
            && result == if outcome.Assembled? then Items(outcome.records) else Thrown(NoDescription))
  {
    var url := ListingUrl(domain, config);
    requests := [url];
    var response := env.get(url);
    if response.status == 200 {
      var capture := Extract(response.body);
      if capture.Some? {
        var doc := env.parse(DecodedHtml(capture.value));
        if doc.firstList.None? {
          result := Thrown(NoList);
          return;
        }
        var outcome, detail := AssembleItems(doc.firstList.value, env);
        requests := requests + detail;
        if outcome.Assembled? {
          result := Items(outcome.records);
        } else {
          result := Thrown(NoDescription);
        }
      } else {
        result := NullResult;
      }
    } else {
      result := ErrorEntry(UnreachableMessage);
    }
  }

  /** What `fetch` promises about a list it walks: records exactly when every
      item has a description, then one per item in item order; and, in that
      case, one detail request per item whose link has a valid `href`, in item
      order. */
  predicate ListFetched(items: seq<ListItem>, env: Environment, result: FetchResult, detail: seq<string>) {
    && (result.Items? <==> forall i :: 0 <= i < |items| ==> Described(items[i]))
    && (result.Items? ==>
         var idx := RequestingItems(items, |items|, env);
         && |result.records| == |items|
         && (forall k :: 0 <= k < |items| ==> result.records[k] == RecordOf(items[k], env))
         && |detail| == |idx|
         && forall j :: 0 <= j < |idx| ==> detail[j] == items[idx[j]].link.value.href)
  }

  // ---------------------------------------------------------------------------
  // Lemmas

  /** On status 200, when the pattern matches and the decoded fragment has a
      list, what `fetch` returns and requests after the listing (as its
      contract states them through `Assemble`) is: records exactly when every
      item has a description, one per item in order; and then one detail
      request per item whose link has a valid `href`, in item order. */
  lemma FetchedItems(body: string, env: Environment)
    requires ListedItems(body, env).Some?
    ensures var items := ListedItems(body, env).value;
      var (outcome, detail) := Assemble(items, env);
      ListFetched(items, env, if outcome.Assembled? then Items(outcome.records) else Thrown(NoDescription), detail)
  {
    var items := ListedItems(body, env).value;
    AssembleOnePerItem(items, env);
    if FirstUndescribed(items) == |items| {
      DetailRequestsAreValidLinks(items, |items|, env);
    }
  }

  /** When the reply carries two closing divs each followed by `"`, the greedy
      capture takes in the raw quote after the first one, its decode fails, and
      the parser receives the empty string: the fragment is lost. */
  lemma GreedyCaptureLosesFragment(a: string, b: string)
    requires '\n' !in a && '\n' !in b
    requires JsonString.Decode(DivOpen + a + DivClose).Some?
    ensures var capture := DivOpen + a + DivClose + "\"" + b + DivClose;
      && Extract(StyleClose + capture + "\";") == Some(capture)
      && DecodedHtml(capture) == ""
  {
    GreedyCapture(a, b);
    GreedyCaptureUndecodable(a, b);
  }

  lemma GreedyCaptureUndecodable(a: string, b: string)
    requires JsonString.Decode(DivOpen + a + DivClose).Some?
    ensures DecodedHtml(DivOpen + a + DivClose + "\"" + b + DivClose) == ""
  {
    QuotedAfter(DivOpen + a + DivClose, b + DivClose);
    assert DivOpen + a + DivClose + "\"" + b + DivClose == DivOpen + a + DivClose + "\"" + (b + DivClose);
  }

  /** A capture made of a well-formed piece, a raw quote and anything else
      reaches the parser as the empty string. */
  lemma QuotedAfter(front: string, rest: string)
    requires JsonString.Decode(front).Some?
    ensures DecodedHtml(front + "\"" + rest) == ""
  {
    JsonString.DecodeRawQuoteFails(front, '"', rest);
    assert front + ['"'] + rest == front + "\"" + rest;
  }
}

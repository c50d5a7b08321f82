/**
 * The `foreach` over the list items of the decoded fragment in
 * `FetchEvents::fetch`. The HTML parser and its CSS-selector queries, the HTTP
 * client and `filter_var(..., FILTER_VALIDATE_URL)` are outside the model: a
 * list item is given by what its five selector queries return, and the
 * environment supplies the client, the parser and the URL check as functions.
 */
module ItemAssembler {
  import opened Wrappers
  import opened Php

  /** What the source reads from a DOM element: its markup, its inner markup,
      its text and its `href` attribute ("" when the attribute is absent). */
  datatype Element = Element(outerHtml: string, innerHtml: string, textContent: string, href: string)

  /** The results of the five `querySelector` calls on one `li`, None for null:
      `.lwn > .lwn0`, `.lwn > a`, `.lwd > .lwi0 > a > img`, `.lwd`, `.lwl > a`. */
  datatype ListItem = ListItem(
    date: Option<Element>,
    link: Option<Element>,
    image: Option<Element>,
    description: Option<Element>,
    location: Option<Element>)

  /** A parsed page, given by the two queries the source makes on one:
      every `li` inside the first `ul`, those of nested lists included, in
      document order (None when there is no `ul`), and
      the element matching `.em-header-card_image img`. */
  datatype Document = Document(firstList: Option<seq<ListItem>>, headerCardImage: Option<Element>)

  /** An HTTP response: status code and body. */
  datatype Response = Response(status: int, body: string)

  /** The collaborators of `fetch`: a GET request, the HTML parser, and the
      URL-validity check. */
  datatype Environment = Environment(
    get: string -> Response,
    parse: string -> Document,
    isValidUrl: string -> bool)

  /** The keys of a record. */
  datatype Field = Date | Description | Image | Link | Location {
    /** The array key the source uses for the field. */
    function Key(): string {
      match this
      case Date => "date"
      case Description => "description"
      case Image => "image"
      case Link => "link"
      case Location => "location"
    }
  }

  /** A result record: a PHP array keyed by field. */
  type Record = Array<Field>

  /** The keys of a record, in the order the source builds them. */
  const RecordKeys: seq<Field> := [Date, Description, Image, Link, Location]

  /** The URL of the detail page fetched for `item`: the link's `href`, when the
      link exists and its `href` is a valid URL. */
  function DetailUrl(item: ListItem, env: Environment): Option<string> {
    if item.link.Some? && env.isValidUrl(item.link.value.href) then Some(item.link.value.href) else None
  }

  /** The image element used for `item`: the detail page's header-card image
      when a detail page is fetched (even if that page has none), the listing's
      own image otherwise. */
  function ChosenImage(item: ListItem, env: Environment): Option<Element> {
    match DetailUrl(item, env)
    case Some(url) => env.parse(env.get(url).body).headerCardImage
    case None => item.image
  }

  /** `$el->outerHTML`, where reading a property of null gives "" once converted. */
  function OuterHtml(e: Option<Element>): string {
    if e.Some? then e.value.outerHtml else ""
  }

  /** `trim($date->innerHTML)`: a missing date reads as null and trims to "". */
  function DateText(e: Option<Element>): string {
    Trim(if e.Some? then e.value.innerHtml else "")
  }

  /** `Markup::create($s)`: the empty string stays a (falsy) string, anything
      else becomes a (truthy) markup object. */
  function MarkupCreate(s: string): (v: Value)
    ensures Truthy(v) <==> s != ""
  {
    if s == "" then Str("") else Markup(s)
  }

  /** `$items_temp` for one item, before filtering. The description is read
      with a method call, so the item must have one. */
  function RawRecord(item: ListItem, image: Option<Element>): (r: Record)
    requires item.description.Some?
    ensures |r| == |RecordKeys| && forall i :: 0 <= i < |r| ==> r[i].0 == RecordKeys[i]
  {
    [ (Date, Str(DateText(item.date))),
      (Description, Str(Trim(item.description.value.textContent))),
      (Image, MarkupCreate(OuterHtml(image))),
      (Link, MarkupCreate(OuterHtml(item.link))),
      (Location, MarkupCreate(OuterHtml(item.location))) ]
  }

  /** The record appended for `item`: its raw record without falsy fields. */
  function RecordOf(item: ListItem, env: Environment): Record
    requires item.description.Some?
  {
    ArrayFilter(RawRecord(item, ChosenImage(item, env)))
  }

  predicate Described(item: ListItem) {
    item.description.Some?
  }

  /** The index of the first item without a description, or `|items|`. */
  function FirstUndescribed(items: seq<ListItem>): (k: nat)
    ensures k <= |items|
    ensures forall i :: 0 <= i < k ==> Described(items[i])
    ensures k < |items| ==> !Described(items[k])
    decreases |items|
  {
    if items == [] then 0
    else if !Described(items[0]) then 0
    else 1 + FirstUndescribed(items[1..])
  }

  /** The records of the first `n` items, all described, in order. */
  function Records(items: seq<ListItem>, n: nat, env: Environment): (r: seq<Record>)
    requires n <= FirstUndescribed(items)
    ensures |r| == n
  {
    if n == 0 then []
    else
      assert Described(items[n - 1]);
      Records(items, n - 1, env) + [RecordOf(items[n - 1], env)]
  }

  /** The detail pages requested while processing the first `n` items, in order. */
  function DetailRequests(items: seq<ListItem>, n: nat, env: Environment): seq<string>
    requires n <= |items|
  {
    if n == 0 then []
    else
      var last := DetailUrl(items[n - 1], env);
      DetailRequests(items, n - 1, env) + (if last.Some? then [last.value] else [])
  }

  /** The indices, among the first `n`, of the items whose detail page is
      requested: increasing, and exactly those with a valid link. */
  function RequestingItems(items: seq<ListItem>, n: nat, env: Environment): (r: seq<nat>)
    requires n <= |items|
    ensures forall j :: 0 <= j < |r| ==> r[j] < n && DetailUrl(items[r[j]], env).Some?
    ensures forall j, j' :: 0 <= j < j' < |r| ==> r[j] < r[j']
    ensures forall i :: 0 <= i < n && DetailUrl(items[i], env).Some? ==> i in r
  {
    if n == 0 then []
    else RequestingItems(items, n - 1, env) + (if DetailUrl(items[n - 1], env).Some? then [n - 1] else [])
  }

  /** How the loop ends: with the record list, or with the error thrown when an
      item has no description. */
  datatype Assembly = Assembled(records: seq<Record>) | DescriptionMissing

  /** The loop's outcome and the detail pages it requested. The error is thrown
      after the failing item's own detail request. */
  function Assemble(items: seq<ListItem>, env: Environment): (Assembly, seq<string>) {
    var k := FirstUndescribed(items);
    if k == |items| then (Assembled(Records(items, k, env)), DetailRequests(items, k, env))
    else (DescriptionMissing, DetailRequests(items, k + 1, env))
  }

  /** One pass of the loop body: the detail page is requested when the link's
      `href` is a valid URL and then supplies the image; the record is built
      and filtered. None stands for the error thrown when the item has no
      description, which happens after the detail request. */
  method AssembleItem(item: ListItem, env: Environment) returns (record: Option<Record>, detailUrl: Option<string>)
    ensures detailUrl == DetailUrl(item, env)
    ensures record == if Described(item) then Some(RecordOf(item, env)) else None
  {
    var image := item.image;
    detailUrl := None;
    if item.link.Some? {
      var url := item.link.value.href;
      if env.isValidUrl(url) {
        detailUrl := Some(url);
        var detail := env.parse(env.get(url).body);
        image := detail.headerCardImage;
      }
    }
    if item.description.None? {
      return None, detailUrl;
    }
    record := Some(ArrayFilter(RawRecord(item, image)));
  }

  /** The loop of the source: each item's record is appended in order, and the
      loop stops at the first item without a description. */
  method AssembleItems(items: seq<ListItem>, env: Environment) returns (outcome: Assembly, requests: seq<string>)
    ensures (outcome, requests) == Assemble(items, env)
  {
    var records: seq<Record> := [];
    requests := [];
    var i := 0;
    while i < |items|
      invariant i <= FirstUndescribed(items)
      invariant records == Records(items, i, env)
      invariant requests == DetailRequests(items, i, env)
    {
      var record, detailUrl := AssembleItem(items[i], env);
      if detailUrl.Some? {
        requests := requests + [detailUrl.value];
      }
      assert requests == DetailRequests(items, i + 1, env);
      if record.None? {
        AssembleStopsAt(items, i, env);
        outcome := DescriptionMissing;
        return;
      }
      records := records + [record.value];
      i := i + 1;
    }
    AssembleCompletes(items, env);
    outcome := Assembled(records);
  }

  // ---------------------------------------------------------------------------
  // Lemmas

  /** The loop stops at the first item without a description. */
  lemma AssembleStopsAt(items: seq<ListItem>, i: nat, env: Environment)
    requires i < |items| && !Described(items[i]) && i <= FirstUndescribed(items)
    ensures Assemble(items, env) == (DescriptionMissing, DetailRequests(items, i + 1, env))
  {
    assert FirstUndescribed(items) == i;
  }

  /** The loop runs to the end when no item lacks a description. */
  lemma AssembleCompletes(items: seq<ListItem>, env: Environment)
    requires FirstUndescribed(items) == |items|
    ensures Assemble(items, env) == (Assembled(Records(items, |items|, env)), DetailRequests(items, |items|, env))
  {
  }

  lemma {:induction false} RecordsAt(items: seq<ListItem>, n: nat, env: Environment)
    requires n <= FirstUndescribed(items)
    ensures forall k :: 0 <= k < n ==> Records(items, n, env)[k] == RecordOf(items[k], env)
    decreases n
  {
    if n > 0 {
      var front := Records(items, n - 1, env);
      var all := Records(items, n, env);
      RecordsAt(items, n - 1, env);
      forall k | 0 <= k < n - 1 ensures all[k] == RecordOf(items[k], env) {
        assert all[k] == front[k];
      }
    }
  }

  /** One record per list item, in document order, exactly when every item has
      a description; otherwise the loop throws. */
  lemma AssembleOnePerItem(items: seq<ListItem>, env: Environment)
    ensures Assemble(items, env).0.Assembled? <==> forall i :: 0 <= i < |items| ==> Described(items[i])
    ensures Assemble(items, env).0.Assembled? ==>
      var records := Assemble(items, env).0.records;
      && |records| == |items|
      && forall k :: 0 <= k < |items| ==> records[k] == RecordOf(items[k], env)
  {
    if FirstUndescribed(items) == |items| {
      RecordsAt(items, |items|, env);
    }
  }

  /** The detail requests of the first `n` items are, in order, the valid
      `href`s of exactly those items whose link has one: one request per such
      item, none for the others. */
  lemma {:induction false} DetailRequestsAreValidLinks(items: seq<ListItem>, n: nat, env: Environment)
    requires n <= |items|
    ensures var d := DetailRequests(items, n, env);
      var idx := RequestingItems(items, n, env);
      && |d| == |idx| <= n
      && forall j :: 0 <= j < |d| ==>
           items[idx[j]].link.Some? && d[j] == items[idx[j]].link.value.href && env.isValidUrl(d[j])
    decreases n
  {
    if n > 0 {
      DetailRequestsAreValidLinks(items, n - 1, env);
      IndicesBounded(RequestingItems(items, n, env), n);
    }
  }

  /** A strictly increasing sequence of indices below `n` has at most `n`
      entries. */
  lemma {:induction false} IndicesBounded(r: seq<nat>, n: nat)
    requires forall j :: 0 <= j < |r| ==> r[j] < n
    requires forall j, j' :: 0 <= j < j' < |r| ==> r[j] < r[j']
    ensures |r| <= n
    decreases n
  {
    if r != [] {
      assert r[|r| - 1] < n;
      var front := r[..|r| - 1];
      forall j | 0 <= j < |front| ensures front[j] < n - 1 {
        assert front[j] < r[|r| - 1];
      }
      IndicesBounded(front, n - 1);
    }
  }

  /** Every field of a record is truthy: empty strings, a date or description
      that trims to "0", and missing elements are all dropped. No key appears
      twice, as in a PHP array. */
  lemma RecordFieldsTruthy(item: ListItem, env: Environment)
    requires Described(item)
    ensures forall e :: e in RecordOf(item, env) ==> Truthy(e.1) && e.0 in RecordKeys
    ensures ArrayFilter(RecordOf(item, env)) == RecordOf(item, env)
    ensures DistinctKeys(RecordOf(item, env))
  {
    var raw := RawRecord(item, ChosenImage(item, env));
    RawRecordDistinct(item, ChosenImage(item, env));
    ArrayFilterDistinct(raw);
    ArrayFilterKeepsTruthy(raw);
    ArrayFilterIdempotent(raw);
    forall e | e in raw ensures e.0 in RecordKeys {
      var j :| 0 <= j < |raw| && raw[j] == e;
    }
  }

  /** The fields stand for the source's five array keys, in the order it
      writes them, and distinct fields have distinct keys. */
  lemma FieldKeys()
    ensures forall f: Field, g: Field :: f.Key() == g.Key() ==> f == g
    ensures forall i :: 0 <= i < |RecordKeys| ==>
      RecordKeys[i].Key() == ["date", "description", "image", "link", "location"][i]
  {
  }

  lemma RawRecordDistinct(item: ListItem, image: Option<Element>)
    requires Described(item)
    ensures DistinctKeys(RawRecord(item, image))
  {
  }

  /** The record holds the trimmed date exactly when it is neither "" nor "0". */
  lemma RecordDate(item: ListItem, env: Environment)
    requires Described(item)
    ensures var date := DateText(item.date);
      Get(RecordOf(item, env), Date) == if date != "" && date != "0" then Some(Str(date)) else None
  {
    var raw := RawRecord(item, ChosenImage(item, env));
    RawRecordDistinct(item, ChosenImage(item, env));
    ArrayFilterGet(raw, Date);
    GetAt(raw, 0);
  }

  /** The record holds the trimmed description text exactly when it is neither
      "" nor "0". */
  lemma RecordDescription(item: ListItem, env: Environment)
    requires Described(item)
    ensures var text := Trim(item.description.value.textContent);
      Get(RecordOf(item, env), Description) == if text != "" && text != "0" then Some(Str(text)) else None
  {
    var raw := RawRecord(item, ChosenImage(item, env));
    RawRecordDistinct(item, ChosenImage(item, env));
    ArrayFilterGet(raw, Description);
    GetAt(raw, 1);
  }

  /** The image: when the link's `href` is a valid URL it comes only from the
      detail page's query, so a detail page without one leaves the record
      without an image even if the listing had one; otherwise it is the
      listing's image. */
  lemma RecordImage(item: ListItem, env: Environment)
    requires Described(item)
    ensures DetailUrl(item, env).Some? ==>
      var found := env.parse(env.get(item.link.value.href).body).headerCardImage;
      Get(RecordOf(item, env), Image) ==
        if found.Some? && found.value.outerHtml != "" then Some(Markup(found.value.outerHtml)) else None
    ensures DetailUrl(item, env).None? ==>
      Get(RecordOf(item, env), Image) ==
        if item.image.Some? && item.image.value.outerHtml != "" then Some(Markup(item.image.value.outerHtml)) else None
  {
    var raw := RawRecord(item, ChosenImage(item, env));
    RawRecordDistinct(item, ChosenImage(item, env));
    ArrayFilterGet(raw, Image);
    GetAt(raw, 2);
  }

  /** The link and location are kept as markup whenever the element exists. */
  lemma RecordMarkupFields(item: ListItem, env: Environment)
    requires Described(item)
    ensures Get(RecordOf(item, env), Link) ==
      if OuterHtml(item.link) != "" then Some(Markup(OuterHtml(item.link))) else None
    ensures Get(RecordOf(item, env), Location) ==
      if OuterHtml(item.location) != "" then Some(Markup(OuterHtml(item.location))) else None
  {
    var raw := RawRecord(item, ChosenImage(item, env));
    RawRecordDistinct(item, ChosenImage(item, env));
    ArrayFilterGet(raw, Link);
    GetAt(raw, 3);
    ArrayFilterGet(raw, Location);
    GetAt(raw, 4);
  }
}

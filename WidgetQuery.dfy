/**
 * The listing request of `FetchEvents::fetch`: the widget endpoint derived from
 * the configured domain, the eight widget options with their PHP coercions, and
 * the query string built from them by hand (no percent-encoding).
 */
module WidgetQuery {
  import opened Php

  /** The path of the widget script below the Localist domain. */
  const WidgetPath: string := "/widget/view"

  /** The option names, in the order in which they are sent. */
  const OptionKeys: seq<string> :=
    ["id", "schools", "groups", "days", "num", "all_instances", "show_times", "target_blank"]

  /** `rtrim($domain, '/') . '/widget/view'`. */
  function Endpoint(domain: string): string {
    RTrim(domain, {'/'}) + WidgetPath
  }

  /** The `$options` array: each option read from the block configuration with
      the coercion the source applies to it. */
  function Options(config: map<string, Value>): (r: Array<string>)
    ensures |r| == |OptionKeys|
    ensures forall i :: 0 <= i < |r| ==> r[i].0 == OptionKeys[i]
  {
    [ ("id", Index(config, "id")),
      ("schools", Coalesce(config, "schools", Str(""))),
      ("groups", Coalesce(config, "groups", Str(""))),
      ("days", NullCoalesce(Int(IntVal(Index(config, "days"))), Int(31))),
      ("num", NullCoalesce(Int(IntVal(Index(config, "total"))), Int(3))),
      ("all_instances", Coalesce(config, "all_instances", Bool(true))),
      ("show_times", Coalesce(config, "show_times", Bool(false))),
      ("target_blank", Coalesce(config, "target_blank", Bool(true))) ]
  }

  /** The `array_map` step: one `"$key=$option"` string per option, in order. */
  function Pairs(options: Array<string>): (r: seq<string>)
    ensures |r| == |options|
    ensures forall i :: 0 <= i < |r| ==> r[i] == options[i].0 + "=" + ToStr(options[i].1)
  {
    seq(|options|, i requires 0 <= i < |options| => options[i].0 + "=" + ToStr(options[i].1))
  }

  /** The query string: the pairs joined with `&`, nothing escaped. */
  function QueryString(config: map<string, Value>): string {
    Implode("&", Pairs(Options(config)))
  }

  /** The URL of the listing request. */
  function ListingUrl(domain: string, config: map<string, Value>): string {
    Endpoint(domain) + "?" + QueryString(config)
  }

  // ---------------------------------------------------------------------------
  // Lemmas

  /** The endpoint is the domain without its trailing slashes, followed by the
      widget path; what was removed was slashes only, and the joint never holds
      two slashes in a row. */
  lemma EndpointShape(domain: string)
    ensures var r := Endpoint(domain);
      var base := r[..|r| - |WidgetPath|];
      && |WidgetPath| <= |r|
      && r == base + WidgetPath
      && |base| <= |domain| && domain[..|base|] == base
      && (forall k :: |base| <= k < |domain| ==> domain[k] == '/')
      && (base == [] || base[|base| - 1] != '/')
  {
    var base := RTrim(domain, {'/'});
    RTrimProperties(domain, {'/'});
    var r := Endpoint(domain);
    assert r[..|r| - |WidgetPath|] == base;
  }

  /** Removing trailing slashes before the call changes nothing. */
  lemma EndpointOfTrimmedDomain(domain: string)
    ensures Endpoint(RTrim(domain, {'/'})) == Endpoint(domain)
  {
    RTrimIdempotent(domain, {'/'});
  }

  /** A domain without a trailing slash gets the widget path appended as it is. */
  lemma EndpointOfCleanDomain(domain: string)
    requires domain == [] || domain[|domain| - 1] != '/'
    ensures Endpoint(domain) == domain + WidgetPath
  {
    RTrimUnique(domain, {'/'}, domain);
  }

  /** The coercions of the source: `schools` and `groups` fall back to "" when
      missing or null; `days` and `num` are `intval` of the configured `days`
      and `total`, so a missing or non-numeric value gives 0 and the defaults
      31 and 3 are never used; a boolean renders as "1" or "". */
  lemma OptionCoercions(config: map<string, Value>)
    ensures var o := Options(config);
      && ToStr(o[0].1) == ToStr(Index(config, "id"))
      && ("schools" !in config || config["schools"] == Null ==> ToStr(o[1].1) == "")
      && ("groups" !in config || config["groups"] == Null ==> ToStr(o[2].1) == "")
      && ToStr(o[3].1) == Decimal(IntVal(Index(config, "days")))
      && ToStr(o[4].1) == Decimal(IntVal(Index(config, "total")))
      && ("days" !in config ==> ToStr(o[3].1) == "0")
      && ("total" !in config ==> ToStr(o[4].1) == "0")
      && ("all_instances" !in config ==> ToStr(o[5].1) == "1")
      && ("show_times" !in config ==> ToStr(o[6].1) == "")
      && ("target_blank" !in config ==> ToStr(o[7].1) == "1")
      && (forall i, b :: 5 <= i < 8 && o[i].1 == Bool(b) ==> ToStr(o[i].1) == (if b then "1" else ""))
  {
  }

  /** The numeric options always hold the `intval` of the input: the `?? 31`
      and `?? 3` fallbacks never fire, and a missing value, null, false or a
      string with no leading number (a word, a blank string) sends 0. */
  lemma NumericDefaultsNeverApply(config: map<string, Value>)
    ensures Options(config)[3].1 == Int(IntVal(Index(config, "days")))
    ensures Options(config)[4].1 == Int(IntVal(Index(config, "total")))
    ensures NotANumber(Index(config, "days")) ==> Options(config)[3].1 == Int(0)
    ensures NotANumber(Index(config, "total")) ==> Options(config)[4].1 == Int(0)
  {
    var days, total := Index(config, "days"), Index(config, "total");
    if days.Str? && NoLeadingNumber(days.s) {
      StrToIntNonNumeric(days.s);
    }
    if total.Str? && NoLeadingNumber(total.s) {
      StrToIntNonNumeric(total.s);
    }
  }

  /** A configuration value from which `intval` reads no number. */
  predicate NotANumber(v: Value) {
    v == Null || v == Bool(false) || (v.Str? && NoLeadingNumber(v.s))
  }

  /** Splitting the query string at `&` gives back exactly the eight
      `key=value` pairs in the fixed order, provided no value contains `&`
      (nothing is escaped, so such a value would split the query differently). */
  lemma QueryStringFields(config: map<string, Value>)
    requires forall i :: 0 <= i < |OptionKeys| ==> '&' !in ToStr(Options(config)[i].1)
    ensures var fields := Explode('&', QueryString(config));
      && |fields| == |OptionKeys|
      && forall i :: 0 <= i < |fields| ==>
           fields[i] == OptionKeys[i] + "=" + ToStr(Options(config)[i].1)
  {
    var o := Options(config);
    var pairs := Pairs(o);
    KeysHaveNoAmpersand();
    ExplodeImplode('&', pairs);
  }

  lemma KeysHaveNoAmpersand()
    ensures forall i :: 0 <= i < |OptionKeys| ==> '&' !in OptionKeys[i]
  {
  }

  /** When the domain holds no `?`, the first `?` of the URL is the one that
      starts the query: what precedes it is the domain without its trailing
      slashes followed by the widget path, and what follows it is the query
      string, so a server reads the path and the options as intended. */
  lemma ListingUrlShape(domain: string, config: map<string, Value>)
    requires '?' !in domain
    ensures var url := ListingUrl(domain, config);
      var q := |RTrim(domain, {'/'})| + |WidgetPath|;
      && q < |url| && url[q] == '?'
      && (forall k :: 0 <= k < q ==> url[k] != '?')
      && url[..q] == RTrim(domain, {'/'}) + "/widget/view"
      && url[q + 1..] == QueryString(config)
  {
    var base := RTrim(domain, {'/'});
    var url := ListingUrl(domain, config);
    RTrimProperties(domain, {'/'});
    forall k | 0 <= k < |base| ensures url[k] != '?' {
      assert url[k] == domain[k];
    }
  }
}

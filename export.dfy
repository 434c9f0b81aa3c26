/** The export request that `query_ads` (ads2bibtex/core.py) posts to the
    ADS API, and the post-processing of the text that comes back. The HTTP
    call itself is not modelled: the "export" field of the reply is an input. */
module Export {
  import opened Outcomes
  import opened Journal

  /** The formats with an endpoint of their own; any other format goes to "custom". */
  const ExportFormats: seq<string> := [
    "ads", "bibtex", "bibtexabs", "endnote", "medlars", "procite", "refworks", "ris",
    "aastex", "icarus", "mnras", "soph",
    "dcxml", "refxml", "refabsxml", "rss", "votable"
  ]

  /** A value of the JSON options object: a string or a list of bibcodes. */
  datatype OptionValue = Text(text: string) | Codes(codes: seq<string>)

  type Options = map<string, OptionValue>

  /** A POST to `endpoint` whose JSON body is `options`. */
  datatype Request = Request(endpoint: string, options: Options)

  /** The request of `query_ads`: the bibcodes go under "bibcode"; a known
      format selects its own endpoint, any other string selects "custom" and
      is sent under "format". Every other option is passed on as given. */
  function ExportRequest(bibcodes: seq<string>, options: Options, fmt: string, url: string): (r: Request)
    ensures "bibcode" in r.options && r.options["bibcode"] == Codes(bibcodes)
    ensures forall k | k in options && k != "bibcode" && k != "format" :: k in r.options && r.options[k] == options[k]
    ensures forall k | k in r.options :: k in options || k == "bibcode" || k == "format"
    ensures fmt in ExportFormats ==> r.endpoint == url + fmt
    ensures fmt in ExportFormats ==> ("format" in r.options <==> "format" in options)
                                     && ("format" in options ==> r.options["format"] == options["format"])
    ensures fmt !in ExportFormats ==> r.endpoint == url + "custom"
    ensures fmt !in ExportFormats ==> "format" in r.options && r.options["format"] == Text(fmt)
  {
    var withCodes := options["bibcode" := Codes(bibcodes)];
    if fmt in ExportFormats then Request(url + fmt, withCodes)
    else Request(url + "custom", withCodes["format" := Text(fmt)])
  }

  /** The format the server is asked for, read back from a request. */
  function RequestedFormat(r: Request, url: string): string
  {
    if r.endpoint == url + "custom" && "format" in r.options && r.options["format"].Text?
    then r.options["format"].text
    else if |url| <= |r.endpoint| then r.endpoint[|url|..]
    else ""
  }

  /** "custom" is not one of the named formats. */
  lemma CustomNotNamed()
    ensures "custom" !in ExportFormats
  {
  }

  /** Equal texts with a common prefix have equal remainders. */
  lemma AppendCancel(u: string, a: string, b: string)
    ensures u + a == u + b ==> a == b
  {
    assert (u + a)[|u|..] == a;
    assert (u + b)[|u|..] == b;
  }

  /** The request carries exactly the format that was asked for, whichever
      endpoint it goes to. */
  lemma RequestedFormatRoundTrip(bibcodes: seq<string>, options: Options, fmt: string, url: string)
    ensures RequestedFormat(ExportRequest(bibcodes, options, fmt, url), url) == fmt
  {
    var r := ExportRequest(bibcodes, options, fmt, url);
    if fmt in ExportFormats {
      CustomNotNamed();
      AppendCancel(url, fmt, "custom");
      assert r.endpoint[|url|..] == fmt;
    }
  }

  /** `query_ads` updates the caller's options dict in place, and the main
      loop hands the same dict to every call. Posting again with the options
      a previous call left behind gives the same request as the first time. */
  lemma ReusedOptionsGiveSameRequest(b1: seq<string>, b2: seq<string>, options: Options, fmt: string, url: string)
    ensures ExportRequest(b2, ExportRequest(b1, options, fmt, url).options, fmt, url)
            == ExportRequest(b2, options, fmt, url)
  {
    var o1 := ExportRequest(b1, options, fmt, url).options;
    var r2 := ExportRequest(b2, o1, fmt, url);
    var r := ExportRequest(b2, options, fmt, url);
    assert r2.options.Keys == r.options.Keys;
    assert r2.options == r.options;
  }

  /** `query_ads` with the reply's "export" field given: `None` when the reply
      has none (the ValueError), else the text after `change_journal_name`
      in the chosen style (`style`, see `JournalStyle`). */
  function QueryAds(bibcodes: seq<string>, options: Options, fmt: string, style: string -> Result<string, Error>,
                    url: string, reply: Option<string>): (r: (Request, Result<string, Error>))
    ensures r.0 == ExportRequest(bibcodes, options, fmt, url)
    ensures reply.None? ==> r.1 == Failure(ExportMissing)
    ensures reply.Some? ==> r.1 == style(reply.value)
  {
    var request := ExportRequest(bibcodes, options, fmt, url);
    match reply
    case None => (request, Failure(ExportMissing))
    case Some(raw) => (request, style(raw))
  }

  /** With the default "ads" journal style the exported text is returned as it
      came. */
  lemma QueryAdsKeepsAdsText(bibcodes: seq<string>, options: Options, fmt: string, url: string,
                             raw: string, iso4: string -> string)
    ensures QueryAds(bibcodes, options, fmt, JournalStyle("ads", iso4), url, Some(raw)).1 == Success(raw)
  {
  }
}

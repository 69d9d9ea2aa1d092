/** The flow of `main`: load the domains, stop with a fixed message when
    there are none, keep at most fifty, scrape, and turn the results into
    one report line per domain. The browser session and the messaging call
    are not modelled: the scrape is a parameter and `Run` returns the text
    it would send. */
module Report {
  import opened Text
  import opened Domains
  import opened Status
  import opened Scrape

  const Header: string := "Domain Status Report (ninjamvp.asia)"

  /** The whole message sent when the configuration lists no domain. */
  const NoDomainsReport: string := Header + "\nTidak ada domain untuk dicek."

  /** The start of the message sent when the scrape fails; the error text
      follows it. U+274C is CROSS MARK. */
  const FailurePrefix: string := "\U{274C} Gagal cek domain (ninjamvp.asia): "

  /** The most domains the lookup page takes in one scan. */
  const MaxDomains: nat := 50

  /** What the scrape gives back: the result rows, or the text of the
      exception it raised. */
  datatype ScrapeOutcome = Scraped(rows: seq<Row>) | Failed(error: string)

  /** Whether the browser was started, and with which domains. */
  datatype Browser = NotStarted | Submitted(domains: seq<string>)

  /** `results.get(d.lower(), "Unknown")`. */
  function StatusOf(results: map<string, string>, d: string): string {
    if Lower(d) in results then results[Lower(d)] else "Unknown"
  }

  /** `f"{d}: {emoji} {label}"`. */
  function FormatLine(d: string, v: Verdict): string {
    d + ": " + GlyphText(v.glyph) + " " + v.caption
  }

  /** A report line is the domain as given, then ": ", the glyph, a space,
      and the label, which ends the line. */
  lemma FormatLineParts(d: string, v: Verdict)
    ensures |FormatLine(d, v)| == |d| + |v.caption| + 4
    ensures FormatLine(d, v)[..|d|] == d && FormatLine(d, v)[|d|..|d| + 2] == ": "
    ensures FormatLine(d, v)[|d| + 2..|d| + 3] == GlyphText(v.glyph)
    ensures FormatLine(d, v)[|d| + 3] == ' '
    ensures FormatLine(d, v)[|d| + 4..] == v.caption
  {
  }

  /** The report line of domain `d`. */
  function ReportLine(results: map<string, string>, d: string): string {
    FormatLine(d, NormalizeStatus(StatusOf(results, d)))
  }

  /** The lines for `domains`, appended one by one in order. */
  ghost function DomainLines(domains: seq<string>, results: map<string, string>): (lines: seq<string>)
    ensures |lines| == |domains|
    decreases |domains|
  {
    if domains == [] then []
    else DomainLines(domains[..|domains| - 1], results) + [ReportLine(results, domains[|domains| - 1])]
  }

  /** The report: the header, then the domain lines. */
  ghost function ReportLines(domains: seq<string>, results: map<string, string>): seq<string> {
    [Header] + DomainLines(domains, results)
  }

  /** Every domain gets exactly one line, in input order: line `j + 1` of
      the report is the line of domain `j`. */
  lemma {:induction false} ReportLineAt(domains: seq<string>, results: map<string, string>, j: int)
    requires 0 <= j < |domains|
    ensures |ReportLines(domains, results)| == |domains| + 1
    ensures ReportLines(domains, results)[0] == Header
    ensures ReportLines(domains, results)[j + 1] == ReportLine(results, domains[j])
    decreases |domains|
  {
    var init := domains[..|domains| - 1];
    var before := DomainLines(init, results);
    assert DomainLines(domains, results) == before + [ReportLine(results, domains[|domains| - 1])];
    if j < |domains| - 1 {
      ReportLineAt(init, results, j);
      assert init[j] == domains[j];
    }
  }

  /** One more domain adds its line at the end. */
  lemma ReportLinesStep(domains: seq<string>, results: map<string, string>, i: int)
    requires 0 <= i < |domains|
    ensures ReportLines(domains[..i + 1], results) == ReportLines(domains[..i], results) + [ReportLine(results, domains[i])]
  {
    var next := domains[..i + 1];
    assert next[..i] == domains[..i] && next[i] == domains[i];
    assert DomainLines(next, results) == DomainLines(domains[..i], results) + [ReportLine(results, domains[i])];
  }

  /** The loop at the end of `main` that appends one line per domain. */
  method BuildReport(domains: seq<string>, results: map<string, string>) returns (lines: seq<string>)
    ensures lines == ReportLines(domains, results)
  {
    lines := [Header];
    for i := 0 to |domains|
      invariant lines == ReportLines(domains[..i], results)
    {
      ReportLinesStep(domains, results, i);
      var d := domains[i];
      lines := lines + [ReportLine(results, d)];
    }
    assert domains[..|domains|] == domains;
  }

  /** `main`, from the configuration string to the one message it sends.
      No domains: the fixed message and no browser. Otherwise the first
      fifty domains at most go to the scrape; a failure gives the error
      message, a success the report joined with newlines. The browser is
      taken to start: a failure there is not represented. */
  method Run(raw: string, scrape: seq<string> -> ScrapeOutcome) returns (message: string, browser: Browser)
    ensures browser == NotStarted <==> LoadDomains(raw) == []
    ensures browser == NotStarted ==> message == NoDomainsReport
    ensures browser.Submitted? ==>
      && |browser.domains| == (if |LoadDomains(raw)| > MaxDomains then MaxDomains else |LoadDomains(raw)|)
      && browser.domains == LoadDomains(raw)[..|browser.domains|]
    ensures browser.Submitted? && scrape(browser.domains).Failed? ==>
      message == FailurePrefix + scrape(browser.domains).error
    ensures browser.Submitted? && scrape(browser.domains).Scraped? ==>
      message == Join(ReportLines(browser.domains, Collected(scrape(browser.domains).rows)), '\n')
  {
    var domains := LoadDomains(raw);
    if domains == [] {
      return NoDomainsReport, NotStarted;
    }
    if |domains| > MaxDomains {
      domains := domains[..MaxDomains];
    }
    browser := Submitted(domains);
    match scrape(domains)
    case Failed(e) =>
      message := FailurePrefix + e;
    case Scraped(rows) =>
      var results := CollectResults(rows);
      var lines := BuildReport(domains, results);
      message := Join(lines, '\n');
  }

  /** A domain with no result row is reported as Unknown. */
  lemma MissingDomainIsUnknown(domains: seq<string>, results: map<string, string>, i: int)
    requires 0 <= i < |domains| && Lower(domains[i]) !in results
    ensures ReportLines(domains, results)[i + 1] == FormatLine(domains[i], Verdict(White, "Unknown"))
  {
    var d := domains[i];
    assert StatusOf(results, d) == "Unknown";
    DefaultIsUnknown();
    assert ReportLine(results, d) == FormatLine(d, Verdict(White, "Unknown"));
    ReportLineAt(domains, results, i);
  }

  /** Line `i + 1` shows the status that the lookup finds for domain `i`. */
  lemma LookedUpLine(domains: seq<string>, results: map<string, string>, i: int, status: string)
    requires 0 <= i < |domains| && Lower(domains[i]) in results && results[Lower(domains[i])] == status
    ensures ReportLines(domains, results)[i + 1] == FormatLine(domains[i], NormalizeStatus(status))
  {
    ReportLineAt(domains, results, i);
  }

  /** A domain that no row of the result table carries is reported as
      Unknown. */
  lemma UnscannedDomainLine(domains: seq<string>, rows: seq<Row>, i: int)
    requires 0 <= i < |domains|
    requires forall l | 0 <= l < |rows| :: !RowFor(rows, l, Lower(domains[i]))
    ensures ReportLines(domains, Collected(rows))[i + 1] == FormatLine(domains[i], Verdict(White, "Unknown"))
  {
    CollectedKeys(rows, Lower(domains[i]));
    MissingDomainIsUnknown(domains, Collected(rows), i);
  }

  /** A formatted line holds a newline only if the domain or the label
      does. */
  lemma FormatLineNoNewline(d: string, v: Verdict)
    requires '\n' !in d && '\n' !in v.caption
    ensures '\n' !in FormatLine(d, v)
  {
    var line := FormatLine(d, v);
    assert '\n' !in GlyphText(v.glyph);
    forall k | 0 <= k < |line| ensures line[k] != '\n' {
      if k < |d| {
        assert line[k] == d[k];
      } else if k >= |line| - |v.caption| {
        assert line[k] == v.caption[k - (|line| - |v.caption|)];
      }
    }
  }

  /** No report line has a newline in it when neither the domain nor the
      scraped status texts have one. */
  lemma LineHasNoNewline(results: map<string, string>, d: string)
    requires '\n' !in d
    requires forall k | k in results :: '\n' !in results[k]
    ensures '\n' !in ReportLine(results, d)
  {
    var s := StatusOf(results, d);
    assert '\n' !in s;
    CaptionKeepsOut(s, '\n');
    FormatLineNoNewline(d, NormalizeStatus(s));
  }

  /** No line of the report holds a newline when neither a domain nor the
      label shown for it does. */
  lemma {:induction false} ReportHasNoNewline(domains: seq<string>, results: map<string, string>)
    requires forall d | d in domains :: '\n' !in d && '\n' !in NormalizeStatus(StatusOf(results, d)).caption
    ensures forall line | line in ReportLines(domains, results) :: '\n' !in line
    decreases |domains|
  {
    if domains != [] {
      var init := domains[..|domains| - 1];
      var d := domains[|domains| - 1];
      ReportHasNoNewline(init, results);
      FormatLineNoNewline(d, NormalizeStatus(StatusOf(results, d)));
      ReportLinesStep(domains, results, |domains| - 1);
      assert domains[..|domains|] == domains;
    }
  }

  /** The message splits back into the report's lines, one header and one
      per domain, when neither a domain nor the label shown for it holds a
      newline. By CaptionNewline, only a status that matches no phrase and
      keeps a newline inside it after stripping can break this; by
      LineHasNoNewline, scraped statuses without newlines suffice. */
  lemma MessageLines(domains: seq<string>, results: map<string, string>)
    requires forall d | d in domains :: '\n' !in d && '\n' !in NormalizeStatus(StatusOf(results, d)).caption
    ensures Split(Join(ReportLines(domains, results), '\n'), '\n') == ReportLines(domains, results)
    ensures |ReportLines(domains, results)| == |domains| + 1
  {
    ReportHasNoNewline(domains, results);
    SplitJoin(ReportLines(domains, results), '\n');
  }
}

/** The web variant's per-connection work: after a connection is accepted
    the rate window is checked once, the request's header lines are read
    and discarded up to the blank line, and an HTML page with a one-row
    table holding the current cpm is sent back. */
module WebResponder {
  import opened Text
  import opened Ticks
  import opened RateWindow

  /** The page template of the web variant around its single `%s`. */
  const HTML_HEAD :=
    "<!DOCTYPE html>\n" +
    "<html>\n" +
    "<head> <title>Geiger Counter</title>" + " </head>\n" +
    "<body> <h1>Geiger Counter - " + "Micropython (ESP32)</h1>\n" +
    "<table border=\"1\"> " + "<tr><th>Counter</th><th>Value</th></tr> "
  const HTML_TAIL := " </table>\n</body>\n</html>\n"
  const HTML := HTML_HEAD + "%s" + HTML_TAIL

  /** The row template, applied to ("CPM", cpm). */
  const ROW_TEMPLATE := "<tr><td>%s</td><td>%d</td></tr>"
  const ROW_HEAD := "<tr><td>CPM</td><td>"
  const ROW_TAIL := "</td></tr>"

  // ---------------------------------------------------------------------
  // Reading the request

  /** `readline()` gives an empty line only at the end of the stream; a
      line holding just CR LF is the blank line that ends the headers. */
  predicate EndsRequest(line: string) {
    line == "" || line == "\r\n"
  }

  /** `consumed` lines were taken from `request`: up to and including the
      first line that ends the request, or all of them if none does. */
  predicate StopsAtRequestEnd(request: seq<string>, consumed: nat) {
    && consumed <= |request|
    && (forall j | 0 <= j < consumed - 1 :: !EndsRequest(request[j]))
    && (consumed < |request| ==> 0 < consumed && EndsRequest(request[consumed - 1]))
    && (0 < |request| ==> 0 < consumed)
  }

  /** The stopping point is unique: it is the first request end. */
  lemma StopsAtRequestEndUnique(request: seq<string>, c1: nat, c2: nat)
    requires StopsAtRequestEnd(request, c1) && StopsAtRequestEnd(request, c2)
    ensures c1 == c2
  {
  }

  /** A request without a blank line is read to the end of the stream. */
  lemma NoBlankLineReadsAll(request: seq<string>, consumed: nat)
    requires forall j | 0 <= j < |request| :: !EndsRequest(request[j])
    requires StopsAtRequestEnd(request, consumed)
    ensures consumed == |request|
  {
  }

  /** The header loop: one `readline()` per pass, ending at the end of the
      stream or at the first CR LF line. Lines past that stay unread. */
  method DrainRequest(request: seq<string>) returns (consumed: nat)
    ensures StopsAtRequestEnd(request, consumed)
  {
    consumed := 0;
    var done := false;
    while !done
      invariant consumed <= |request|
      invariant !done ==> forall j | 0 <= j < consumed :: !EndsRequest(request[j])
      invariant done ==> StopsAtRequestEnd(request, consumed)
      decreases |request| - consumed, !done
    {
      var line := if consumed < |request| then request[consumed] else "";
      if consumed < |request| {
        consumed := consumed + 1;
      }
      if EndsRequest(line) {
        done := true;
      }
    }
  }

  // ---------------------------------------------------------------------
  // Building the response

  /** The row as the web variant serves it. */
  function RowText(cpm: nat): string {
    ROW_HEAD + Decimal(cpm) + ROW_TAIL
  }

  /** `'<tr><td>%s</td><td>%d</td></tr>' % ("CPM", cpm)`: formatting
      never fails, and the row is the fixed cells around the decimal text
      of cpm. */
  function RenderRow(cpm: nat): (r: Result<string, FormatError>)
    ensures r == Ok(RowText(cpm))
  {
    RowTemplateParts();
    FormatStringThenInt("<tr><td>", "</td><td>", ROW_TAIL, "CPM", cpm);
    Format(ROW_TEMPLATE, [Str("CPM"), Int(cpm)])
  }

  /** `html % '\n'.join(rows)` with the single row: the page is the
      template with that row in place of its `%s`, every other character
      of the template unchanged. */
  function RenderResponse(cpm: nat): (r: Result<string, FormatError>)
    ensures r == Ok(HTML_HEAD + RowText(cpm) + HTML_TAIL)
  {
    HtmlHeadNoPercent();
    HtmlTailNoPercent();
    FormatOneString(HTML_HEAD, HTML_TAIL, RowText(cpm));
    match RenderRow(cpm)
    case Err(e) => Err(e)
    case Ok(row) => Format(HTML, [Str(Join("\n", [row]))])
  }

  lemma RowTemplateParts()
    ensures ROW_TEMPLATE == "<tr><td>" + "%s" + "</td><td>" + "%d" + ROW_TAIL
    ensures NoPercent("<tr><td>") && NoPercent("</td><td>") && NoPercent(ROW_TAIL)
    ensures "<tr><td>" + "CPM" + "</td><td>" == ROW_HEAD
  {
  }

  lemma HtmlHeadNoPercent()
    ensures NoPercent(HTML_HEAD)
  {
    var p1, p2, p3, p4 := "<!DOCTYPE html>\n", "<html>\n", "<head> <title>Geiger Counter</title>", " </head>\n";
    var p5, p6 := "<body> <h1>Geiger Counter - ", "Micropython (ESP32)</h1>\n";
    var p7, p8 := "<table border=\"1\"> ", "<tr><th>Counter</th><th>Value</th></tr> ";
    assert NoPercent(p1) && NoPercent(p2) && NoPercent(p3) && NoPercent(p4);
    assert NoPercent(p5) && NoPercent(p6) && NoPercent(p7) && NoPercent(p8);
    NoPercentConcat(p1, p2);
    NoPercentConcat(p1 + p2, p3);
    NoPercentConcat(p1 + p2 + p3, p4);
    NoPercentConcat(p1 + p2 + p3 + p4, p5);
    NoPercentConcat(p1 + p2 + p3 + p4 + p5, p6);
    NoPercentConcat(p1 + p2 + p3 + p4 + p5 + p6, p7);
    NoPercentConcat(p1 + p2 + p3 + p4 + p5 + p6 + p7, p8);
  }

  lemma HtmlTailNoPercent()
    ensures NoPercent(HTML_TAIL)
  {
  }

  /** What a browser reads from a page: the number in the CPM cell, if the
      page has the expected shape. */
  function ServedCpm(page: string): Option<nat> {
    match Between(page, HTML_HEAD + ROW_HEAD, ROW_TAIL + HTML_TAIL)
    case None => None
    case Some(cell) => ParseDecimal(cell)
  }

  lemma Regroup(a: string, b: string, c: string, d: string, e: string)
    ensures a + (b + c + d) + e == (a + b) + c + (d + e)
  {
  }

  /** Rendering never fails, and the page shows exactly the cpm it was
      rendered from. */
  lemma ServedCpmRoundTrip(cpm: nat)
    ensures RenderResponse(cpm).Ok?
    ensures ServedCpm(RenderResponse(cpm).value) == Some(cpm)
  {
    Regroup(HTML_HEAD, ROW_HEAD, Decimal(cpm), ROW_TAIL, HTML_TAIL);
    BetweenOf(HTML_HEAD + ROW_HEAD, Decimal(cpm), ROW_TAIL + HTML_TAIL);
    DecimalRoundTrip(cpm);
  }

  /** A last sample of 72 is served as the cell text "72". */
  lemma Serves72()
    ensures RenderResponse(72) == Ok(HTML_HEAD + "<tr><td>CPM</td><td>72</td></tr>" + HTML_TAIL)
  {
    Row72();
  }

  lemma Row72()
    ensures RowText(72) == "<tr><td>CPM</td><td>72</td></tr>"
  {
    assert Decimal(7) == "7";
    assert Decimal(72) == "72";
  }

  // ---------------------------------------------------------------------
  // One pass of the server loop

  /** After `accept()` has returned a connection whose request lines are
      `request`, at tick reading `nowTicks`, with `startTicks` the reading
      taken before the loop: check the window once against the time since
      start, drain the request, and answer with the cpm as it stands after
      that check. */
  method ServeConnection(est: Estimator, startTicks: int, nowTicks: int, request: seq<string>)
    returns (consumed: nat, response: string)
    requires est.Valid()
    modifies est, est.pulses
    ensures est.Valid()
    ensures est.State() == AfterPoll(old(est.State()), TicksDiff(nowTicks, startTicks), est.cfg)
    ensures est.pulses.total == old(est.pulses.total)
    ensures est.pulses.drains == if Fires(old(est.previousMillis), TicksDiff(nowTicks, startTicks), est.cfg.logPeriod)
                                 then old(est.pulses.drains) + [old(est.pulses.count)]
                                 else old(est.pulses.drains)
    ensures StopsAtRequestEnd(request, consumed)
    ensures RenderResponse(est.cpm) == Ok(response)
    ensures ServedCpm(response) == Some(est.cpm)
  {
    var fired := est.PollSinceStart(startTicks, nowTicks);
    consumed := DrainRequest(request);
    ServedCpmRoundTrip(est.cpm);
    response := RenderResponse(est.cpm).value;
  }
}

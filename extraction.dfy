/**
 * The page-by-page extraction engine: every page, followed by the next page
 * as context, is cut to a fixed budget and sent to a language-model
 * extractor; the per-page dictionaries are folded into one record in which
 * the first non-null value found for a key wins.
 *
 * A record is the Python dictionary itself, `JNull` standing for `None`.
 * The model call and `json.loads` are parameters: `llm(text, year)` gives
 * the reply or the call's exception, `parse(reply)` the value or the
 * parser's exception.
 */
module Extraction {

  import opened Options
  import opened Json
  import opened Text

  type Record = map<string, JsonValue>

  /** The fourteen metrics every extraction and every merged record covers, in schema order. */
  const RequiredKeys: seq<string> := [
    "Revenue from Operations", "Other Income", "Total Income", "Profit Before Tax",
    "Net Profit", "Total Equity", "Total Assets", "Total Liabilities",
    "Non-current assets", "Current assets", "Non-current liabilities",
    "Current liabilities", "Cash and cash equivalents", "Earnings Per Share (Basic)"
  ]

  /** The largest number of characters sent to the extractor for one page. */
  const ChunkLimit: nat := 30000

  const NextPageSeparator: string := "\n\n--- NEXT PAGE CONTEXT ---\n\n"

  const ExtractionFailurePrefix: string := "JSON parsing failed: "

  const NoResponseDetails: string := "No response from API."

  /** Stands for the text of the `TypeError` raised when the reply is JSON but not an object. */
  const NotAnObjectReason: string := "the reply is not a JSON object"

  const NoDataMessage: string :=
    "Could not extract any required financial data. The document might not be a financial report, or the data is in a format the AI could not read."

  function RequiredSet(): set<string>
  {
    set k | k in RequiredKeys
  }

  /** A page result or a final result that reports a failure (`"error" in d`). */
  predicate IsError(d: Record)
  {
    "error" in d
  }

  function ErrorRecord(error: string, details: string): Record
  {
    map["error" := JStr(error), "details" := JStr(details)]
  }

  // ----- Key completion of one extraction (`structure_data_with_groq`) -----

  /** `data` with every key of `keys` it lacks added as `None`. */
  function CompletedWith(data: Record, keys: seq<string>): Record
  {
    map k | k in data.Keys + (set x | x in keys) :: if k in data then data[k] else JNull
  }

  /** The parsed object with every missing required key added as `None`. */
  function Completed(data: Record): Record
  {
    CompletedWith(data, RequiredKeys)
  }

  /** Completion adds exactly the missing required keys, as `None`, and keeps and removes nothing else. */
  lemma CompletedKeys(data: Record)
    ensures Completed(data).Keys == data.Keys + RequiredSet()
    ensures forall k :: k in data ==> Completed(data)[k] == data[k]
    ensures forall k :: k in RequiredKeys && k !in data ==> Completed(data)[k] == JNull
  {
  }

  /** The `for key in REQUIRED_KEYS` loop that fills in the missing keys. */
  method CompleteKeys(data: Record) returns (r: Record)
    ensures r == Completed(data)
  {
    r := FillMissing(data, RequiredKeys);
  }

  /** `for key in keys: if key not in data: data[key] = None`. */
  method FillMissing(data: Record, keys: seq<string>) returns (r: Record)
    ensures r == CompletedWith(data, keys)
  {
    r := data;
    for i := 0 to |keys|
      invariant r.Keys == data.Keys + (set j | 0 <= j < i :: keys[j])
      invariant forall k :: k in r ==> r[k] == if k in data then data[k] else JNull
    {
      if keys[i] !in r {
        r := r[keys[i] := JNull];
      }
    }
    assert (set j | 0 <= j < |keys| :: keys[j]) == (set x | x in keys) by {
      forall k | k in keys
        ensures k in (set j | 0 <= j < |keys| :: keys[j])
      {
        var j :| 0 <= j < |keys| && keys[j] == k;
      }
    }
  }

  /** What the extractor returns for one reply: the completed object, or an error record. */
  function Structured(call: CallResult, parse: string -> ParseResult): Record
  {
    match call
    case CallFailed(reason) => ErrorRecord(ExtractionFailurePrefix + reason, NoResponseDetails)
    case Reply(content) =>
      match parse(content)
      case ParseFailed(reason) => ErrorRecord(ExtractionFailurePrefix + reason, content)
      case Parsed(JObj(fields)) => Completed(fields)
      case Parsed(_) => ErrorRecord(ExtractionFailurePrefix + NotAnObjectReason, content)
  }

  /** Every extraction either reports an error or covers every required key. */
  lemma StructuredCoversSchema(call: CallResult, parse: string -> ParseResult)
    ensures IsError(Structured(call, parse)) || RequiredSet() <= Structured(call, parse).Keys
  {
  }

  /** A failed call or a failed parse gives the error record, with the reply as details when there is one. */
  lemma StructuredFailures(call: CallResult, parse: string -> ParseResult)
    ensures call.CallFailed? ==>
      Structured(call, parse) == map["error" := JStr(ExtractionFailurePrefix + call.reason), "details" := JStr(NoResponseDetails)]
    ensures call.Reply? && parse(call.content).ParseFailed? ==>
      Structured(call, parse) == map["error" := JStr(ExtractionFailurePrefix + parse(call.content).reason), "details" := JStr(call.content)]
  {
  }

  /**
   * `structure_data_with_groq(text, year)`: one call, then the completion
   * loop on a parsed object; every failure is the error record `Structured`
   * describes.
   */
  method StructureData(text: string, year: int, llm: (string, int) -> CallResult, parse: string -> ParseResult)
    returns (r: Record)
    ensures r == Structured(llm(text, year), parse)
  {
    var call := llm(text, year);
    if call.Reply? && parse(call.content).Parsed? && parse(call.content).value.JObj? {
      r := CompleteKeys(parse(call.content).value.fields);
    } else {
      r := Structured(call, parse);
    }
  }

  // ----- Chunking -----

  /** Page `i`, followed by the separator and page `i + 1` when there is one. */
  function PageWithContext(pages: seq<string>, i: nat): string
    requires i < |pages|
  {
    if i + 1 < |pages| then pages[i] + NextPageSeparator + pages[i + 1] else pages[i]
  }

  /** The text sent for page `i`: the page with its look-ahead, cut to `ChunkLimit` characters. */
  function Chunk(pages: seq<string>, i: nat): string
    requires i < |pages|
  {
    Truncate(PageWithContext(pages, i), ChunkLimit)
  }

  /**
   * A chunk never exceeds the budget, is a prefix of the page with its
   * look-ahead, starts with the page's own text (as much of it as fits), and
   * is the whole page with its look-ahead when that fits.
   */
  lemma ChunkShape(pages: seq<string>, i: nat)
    requires i < |pages|
    ensures |Chunk(pages, i)| <= ChunkLimit
    ensures Chunk(pages, i) == PageWithContext(pages, i)[..|Chunk(pages, i)|]
    ensures var n := if |pages[i]| <= ChunkLimit then |pages[i]| else ChunkLimit;
      |Chunk(pages, i)| >= n && Chunk(pages, i)[..n] == pages[i][..n]
    ensures |PageWithContext(pages, i)| <= ChunkLimit ==> Chunk(pages, i) == PageWithContext(pages, i)
  {
    var full := PageWithContext(pages, i);
    assert full[..|pages[i]|] == pages[i];
  }

  /** The last page is sent alone; every other page carries the next one after the separator. */
  lemma ChunkLookAhead(pages: seq<string>, i: nat)
    requires i < |pages|
    ensures i + 1 == |pages| ==> PageWithContext(pages, i) == pages[i]
    ensures i + 1 < |pages| ==> PageWithContext(pages, i) == pages[i] + NextPageSeparator + pages[i + 1]
  {
  }

  // ----- The first-non-null-wins merge -----

  /** `{key: None for key in REQUIRED_KEYS}`. */
  function InitialRecord(): Record
  {
    map k | k in RequiredSet() :: JNull
  }

  /** The keys a page reports with a value other than `None`. */
  function Reported(page: Record): set<string>
  {
    set k | k in page && page[k] != JNull
  }

  /** One page's loop: a key still `None` (or absent) adopts the page's non-null value as it is. */
  function Absorbed(acc: Record, page: Record): Record
  {
    map k | k in acc.Keys + Reported(page) ::
      if Get(acc, k) == JNull && Get(page, k) != JNull then page[k] else acc[k]
  }

  /** One page's contribution: nothing when the page result has an `"error"` key. */
  function Step(acc: Record, page: Record): Record
  {
    if IsError(page) then acc else Absorbed(acc, page)
  }

  /** The record after folding the page results in document order. */
  function Merge(results: seq<Record>): Record
    decreases |results|
  {
    if results == [] then InitialRecord()
    else Step(Merge(results[..|results| - 1]), results[|results| - 1])
  }

  /** `all(value is None for value in final_data.values())`. */
  predicate AllNull(d: Record)
  {
    forall k :: k in d ==> d[k] == JNull
  }

  /** The aggregate error replaces a merged record in which nothing was found. */
  function Finalize(merged: Record): Record
  {
    if AllNull(merged) then map["error" := JStr(NoDataMessage)] else merged
  }

  /** The extractor's result for every page, in document order. */
  function PageResults(pages: seq<string>, year: int, llm: (string, int) -> CallResult, parse: string -> ParseResult)
    : (r: seq<Record>)
    ensures |r| == |pages|
  {
    seq(|pages|, i requires 0 <= i < |pages| => Structured(llm(Chunk(pages, i), year), parse))
  }

  /** What `process_pdf_pages(pages, year)` returns. */
  function ProcessedPages(pages: seq<string>, year: int, llm: (string, int) -> CallResult, parse: string -> ParseResult)
    : Record
  {
    Finalize(Merge(PageResults(pages, year, llm, parse)))
  }

  /** The inner `for key, value in extracted_data.items()` loop, applied to a page without an error. */
  method MergePage(acc: Record, page: Record) returns (r: Record)
    ensures r == Absorbed(acc, page)
  {
    r := acc;
    var pending := page.Keys;
    ghost var done: set<string> := {};
    while pending != {}
      invariant pending !! done && pending + done == page.Keys
      invariant r.Keys == acc.Keys + (set k | k in done && page[k] != JNull)
      invariant forall k :: k in r ==>
        r[k] == if k in done && Get(acc, k) == JNull && page[k] != JNull then page[k] else acc[k]
      decreases pending
    {
      var key :| key in pending;
      var value := page[key];
      if Get(r, key) == JNull && value != JNull {
        r := r[key := value];
      }
      pending := pending - {key};
      done := done + {key};
    }
    assert r.Keys == Absorbed(acc, page).Keys;
  }

  /** `process_pdf_pages(pages, year)`. */
  method ProcessPdfPages(pages: seq<string>, year: int, llm: (string, int) -> CallResult, parse: string -> ParseResult)
    returns (r: Record)
    ensures r == ProcessedPages(pages, year, llm, parse)
  {
    ghost var results := PageResults(pages, year, llm, parse);
    var finalData := InitialRecord();
    for i := 0 to |pages|
      invariant finalData == Merge(results[..i])
    {
      var combined := pages[i];
      if i + 1 < |pages| {
        combined := combined + NextPageSeparator + pages[i + 1];
      }
      assert combined == PageWithContext(pages, i);
      var extracted := StructureData(Truncate(combined, ChunkLimit), year, llm, parse);
      assert Truncate(combined, ChunkLimit) == Chunk(pages, i);
      assert results[i] == Structured(llm(Chunk(pages, i), year), parse);
      if "error" !in extracted {
        finalData := MergePage(finalData, extracted);
      }
      assert results[..i + 1][..i] == results[..i];
    }
    assert results[..|pages|] == results;
    if AllNull(finalData) {
      r := map["error" := JStr(NoDataMessage)];
    } else {
      r := finalData;
    }
  }

  // ----- Properties of the merge -----

  /** Reference definition: the first non-null value of `k` among the pages without an error, else `None`. */
  function FirstReported(results: seq<Record>, k: string): JsonValue
    decreases |results|
  {
    if results == [] then JNull
    else if !IsError(results[0]) && Get(results[0], k) != JNull then results[0][k]
    else FirstReported(results[1..], k)
  }

  /** A page appended at the end only matters for keys no earlier page resolved. */
  lemma {:induction false} FirstReportedSnoc(results: seq<Record>, page: Record, k: string)
    ensures FirstReported(results + [page], k)
         == if FirstReported(results, k) != JNull then FirstReported(results, k)
            else if !IsError(page) && Get(page, k) != JNull then page[k]
            else JNull
    decreases |results|
  {
    var all := results + [page];
    if results == [] {
      assert all == [page];
      assert all[1..] == [];
    } else {
      assert all[0] == results[0] && all[1..] == results[1..] + [page];
      FirstReportedSnoc(results[1..], page, k);
    }
  }

  /** `FirstReported` finds a value exactly when some page without an error reports one. */
  lemma {:induction false} FirstReportedFound(results: seq<Record>, k: string)
    ensures FirstReported(results, k) != JNull <==>
      exists i :: 0 <= i < |results| && !IsError(results[i]) && Get(results[i], k) != JNull
    decreases |results|
  {
    if results != [] {
      FirstReportedFound(results[1..], k);
      if exists i :: 0 <= i < |results[1..]| && !IsError(results[1..][i]) && Get(results[1..][i], k) != JNull {
        var i :| 0 <= i < |results[1..]| && !IsError(results[1..][i]) && Get(results[1..][i], k) != JNull;
        assert results[i + 1] == results[1..][i];
      }
      if exists i :: 0 <= i < |results| && !IsError(results[i]) && Get(results[i], k) != JNull {
        var i :| 0 <= i < |results| && !IsError(results[i]) && Get(results[i], k) != JNull;
        if i > 0 {
          assert results[1..][i - 1] == results[i];
        }
      }
    }
  }

  /**
   * The merged record, key by key: its value for `k` is the first non-null
   * value any page without an error reported for `k`, and `k` is present
   * exactly when it is a required key or some such page reported it.
   */
  lemma {:induction false} MergeIsFirstReported(results: seq<Record>)
    ensures forall k :: Get(Merge(results), k) == FirstReported(results, k)
    ensures forall k :: k in Merge(results) <==> k in RequiredKeys || FirstReported(results, k) != JNull
    decreases |results|
  {
    if results != [] {
      var front, last := results[..|results| - 1], results[|results| - 1];
      assert results == front + [last];
      MergeIsFirstReported(front);
      forall k
        ensures Get(Merge(results), k) == FirstReported(results, k)
        ensures k in Merge(results) <==> k in RequiredKeys || FirstReported(results, k) != JNull
      {
        FirstReportedSnoc(front, last, k);
      }
    }
  }

  /** Once a key holds a non-null value, no later page changes it. */
  lemma {:induction false} ResolvedKeysStay(results: seq<Record>, later: seq<Record>, k: string)
    requires Get(Merge(results), k) != JNull
    ensures Get(Merge(results + later), k) == Get(Merge(results), k)
    decreases |later|
  {
    if later == [] {
      assert results + later == results;
    } else {
      var front := later[..|later| - 1];
      ResolvedKeysStay(results, front, k);
      var all := results + later;
      assert all[..|all| - 1] == results + front;
    }
  }

  /** Page one `{A: 10, B: None}`, page two `{A: 20, B: 5}`: the record holds A = 10 and B = 5. */
  lemma MergeExample()
    ensures var a, b := "Net Profit", "Total Assets";
      var merged := Merge([map[a := JNum(10.0), b := JNull], map[a := JNum(20.0), b := JNum(5.0)]]);
      merged[a] == JNum(10.0) && merged[b] == JNum(5.0)
  {
    var a, b := "Net Profit", "Total Assets";
    var p1, p2 := map[a := JNum(10.0), b := JNull], map[a := JNum(20.0), b := JNum(5.0)];
    var pages := [p1, p2];
    assert a in RequiredKeys && b in RequiredKeys;
    assert !IsError(p1) && !IsError(p2);
    MergeIsFirstReported(pages);
    assert pages[1..] == [p2];
    assert FirstReported(pages, a) == JNum(10.0);
    assert FirstReported(pages, b) == JNum(5.0);
  }

  /** A merged record never has an `"error"` key: only pages without one contribute keys. */
  lemma MergeHasNoError(results: seq<Record>)
    ensures !IsError(Merge(results))
  {
    MergeIsFirstReported(results);
    FirstReportedFound(results, "error");
  }

  /**
   * The aggregate error: the result is a failure exactly when no page without
   * an error reported any non-null value, and then it is the single
   * `"error"` entry. This includes a document with no pages.
   */
  lemma ProcessedAggregateError(pages: seq<string>, year: int, llm: (string, int) -> CallResult, parse: string -> ParseResult)
    ensures var results := PageResults(pages, year, llm, parse);
      IsError(ProcessedPages(pages, year, llm, parse)) <==>
        forall i, k :: 0 <= i < |results| && !IsError(results[i]) && k in results[i] ==> results[i][k] == JNull
    ensures IsError(ProcessedPages(pages, year, llm, parse)) ==>
      ProcessedPages(pages, year, llm, parse) == map["error" := JStr(NoDataMessage)]
    ensures pages == [] ==> ProcessedPages(pages, year, llm, parse) == map["error" := JStr(NoDataMessage)]
  {
    var results := PageResults(pages, year, llm, parse);
    var merged := Merge(results);
    MergeHasNoError(results);
    MergeIsFirstReported(results);
    if AllNull(merged) {
      forall i, k | 0 <= i < |results| && !IsError(results[i]) && k in results[i]
        ensures results[i][k] == JNull
      {
        FirstReportedFound(results, k);
        assert Get(merged, k) == JNull;
        assert Get(results[i], k) == results[i][k];
      }
    } else {
      var k :| k in merged && merged[k] != JNull;
      FirstReportedFound(results, k);
    }
  }

  /**
   * A successful result holds every required key, and besides those exactly
   * the keys some page without an error reported with a non-null value.
   */
  lemma ProcessedKeys(pages: seq<string>, year: int, llm: (string, int) -> CallResult, parse: string -> ParseResult)
    requires !IsError(ProcessedPages(pages, year, llm, parse))
    ensures var results, r := PageResults(pages, year, llm, parse), ProcessedPages(pages, year, llm, parse);
      forall k :: k in r <==>
        k in RequiredKeys || exists i :: 0 <= i < |results| && !IsError(results[i]) && Get(results[i], k) != JNull
  {
    var results := PageResults(pages, year, llm, parse);
    MergeHasNoError(results);
    MergeIsFirstReported(results);
    forall k {
      FirstReportedFound(results, k);
    }
  }

}

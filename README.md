# Balance Sheet Analyzer — a Dafny model of its core

The Balance Sheet Analyzer turns annual-report PDFs into a table of financial
metrics per company and year and lets executives chat with a language model
about the figures. The model covers four parts of it:

- **Extraction** (`extraction.dfy`, `utils/llm_helper.py`). The extractor
  sends each page, plus the next page as context and cut at 30000
  characters, to the language model. It completes the parsed JSON object
  with the fourteen required metric keys. For every key it keeps the first
  non-null value any page reports. It fails with an aggregate error when
  nothing was found.
- **Chat** (`chat.dfy`, `utils/llm_helper.py`). The analyst system prompt
  opens the conversation; the class `ChatSession` owns it. Each `Ask` adds
  the user's turn, then either adds the reply or answers with the connection
  apology. A reply that mentions `plot_request` has its greedy `{…}` span
  parsed, and a chart request in it is dispatched to a chart.
- **Storage** (`database.py`, in `database.dfy`). The class `Store` holds
  the four tables. `Setup` seeds the users, companies and access rows, each
  table only when it is empty. `SaveFinancialData` cleans each value and
  upserts it when it is a number (drop `,`, `(` becomes `-`, drop `)`, then
  `float()`). There is the role rule for which companies a user may see,
  and the rows of a company ordered by year and then metric.
- **Charts** (`plotting.dfy`, the second copy of `utils/plotting.py`):
  line and bar charts, the grouped assets/liabilities chart, and the
  year-over-year growth chart.

Shared vocabulary sits in small modules:
- `Options`: an option type.
- `Json`: JSON values, the results of a parse and of a model call.
- `Text`: substring search, character removal and replacement, truncation,
  and SQLite's byte-wise text order.
- `Decimal`: the `float()` subset that numbers in reports use.
- `Tidy`: the `(year, metric, value)` rows of the dashboard's data frame.

The calls to the language model and the JSON parser are function
parameters: `llm(text, year)` for extraction, `chat(history)` for the
conversation, `parse(text)` for `json.loads`. The model proves what the code
does with their results, whatever they are.

Three details of the extraction follow the code line by line:
- The merge adopts the page's value as reported (`utils/llm_helper.py:101`),
  not a normalised number. Values are cleaned only when they are saved
  (`utils/database.py:66`).
- The merged record also takes in non-null keys outside the fourteen
  required ones (`utils/llm_helper.py:99-101`).
- The aggregate error looks at every value of the merged record, extra keys
  included (`utils/llm_helper.py:103`).

## Model

| member | source | states |
|---|---|---|
| Extraction.CompletedKeys | utils/llm_helper.py:66-69 | Completing a parsed object keeps every key it had with its value, adds each missing required key as null, and adds nothing else |
| Extraction.FillMissing | utils/llm_helper.py:67-69 | The loop over the key list leaves exactly the completed record: old keys untouched, each listed missing key null |
| Extraction.CompleteKeys | utils/llm_helper.py:66-71 | Completion over the fourteen required keys yields the completed record |
| Extraction.StructureData | utils/llm_helper.py:52-78 | One extraction call yields the completed object on success and the error record otherwise, as the reference function `Structured` describes |
| Extraction.StructuredCoversSchema | utils/llm_helper.py:64-71 | Every extraction result is either an error record or has all fourteen required keys |
| Extraction.StructuredFailures | utils/llm_helper.py:72-78 | A failed call gives the error "JSON parsing failed: " plus the reason, with details "No response from API."; a reply that does not parse gives the same error with the raw reply as details |
| Extraction.ChunkShape | utils/llm_helper.py:96 | The chunk is at most 30000 characters, is a prefix of page plus context, is all of it when short enough, and always starts with the page itself (up to the limit) |
| Extraction.PageResults | utils/llm_helper.py:88-96 | There is exactly one extraction result per page |
| Extraction.MergePage | utils/llm_helper.py:98-101 | Absorbing a page result with the key loop gives the specified absorbed record: a key still null takes the page's non-null value, every other key keeps its value |
| Extraction.ProcessPdfPages | utils/llm_helper.py:82-106 | The page loop with its merge and final check yields the merged record of all page results, error results skipped, or the aggregate error |
| Extraction.FirstReportedSnoc | utils/llm_helper.py:88-101 | A later page fills a key only if no earlier page reported it, and only with its own non-null value from a non-error result |
| Extraction.FirstReportedFound | utils/llm_helper.py:98-101 | A key resolves to a non-null value exactly when some non-error page reports it non-null |
| Extraction.MergeIsFirstReported | utils/llm_helper.py:86-101 | The merged record maps every key to the first non-null value reported for it; its keys are the required ones plus every key some page reported non-null |
| Extraction.ResolvedKeysStay | utils/llm_helper.py:100 | Once a key holds a non-null value, no later page changes it |
| Extraction.MergeExample | utils/llm_helper.py:99-101 | With Net Profit 10 then 20 and Total Assets null then 5, the merge keeps 10 and takes 5 |
| Extraction.MergeHasNoError | utils/llm_helper.py:86-101 | The merged record never carries an "error" key, whatever the pages returned |
| Extraction.ProcessedAggregateError | utils/llm_helper.py:103-104 | The result is the aggregate error exactly when no non-error page reported any non-null value; it is then the single-key error record, and always so for zero pages |
| Extraction.ProcessedKeys | utils/llm_helper.py:86-106 | A successful result has exactly the required keys plus every key some page reported non-null |
| Chat.InitialMessages | utils/llm_helper.py:109-141 | The conversation starts with one system message, and its prompt mentions the company name, the data summary and the plot_request schema key |
| Chat.SegmentsContained | utils/llm_helper.py:114-139 | A prompt assembled around the name, the schema key and the summary contains each of them |
| Chat.BraceSpan | utils/llm_helper.py:178-181 | A span is found exactly when some `{` precedes some `}`; it runs from the first `{` to the last `}` |
| Chat.BraceSpanEmbedded | utils/llm_helper.py:178-181 | Text around a braced object, with no `{` before it and no `}` after it, yields exactly that object |
| Chat.Dispatch | utils/llm_helper.py:187-204 | With the metric present, line gives the line chart of the metric's (year, value) points in year order, bar the bar chart of the same points, and growth the growth chart of that metric. asset_liability_comparison always gives that chart. Any other type gives no chart, and without a present metric only asset_liability_comparison gives one. The title is carried |
| Chat.NoMetricNoChart | utils/llm_helper.py:193-204 | With the metric absent, empty or not a string, only the asset/liability request can give a chart |
| Chat.ParseReply | utils/llm_helper.py:171-215 | A reply without plot_request, or without a brace span, or whose span does not parse, is shown as plain text. A span that parses to a non-object, or whose plot_request is truthy but not an object, is also shown as raw text. A falsy plot_request gives the parsed "message" field and no chart. An object plot_request gives that message and the chart dispatched on its type, metric and title |
| Chat.EmbeddedRequest | utils/llm_helper.py:176-204 | A reply carrying a parsed object with a non-empty plot_request yields its message and the dispatched chart |
| Chat.ParsedRequest | utils/llm_helper.py:176-204 | A reply with the marker whose brace span parses to an object with a non-empty plot_request yields its message and the dispatched chart |
| Chat.ChatSession.constructor | utils/llm_helper.py:140-141 | A new session holds just the initial messages |
| Chat.ChatSession.Ask | utils/llm_helper.py:145-217 | The user's turn is appended. A failed call leaves it there and answers with the connection apology. A reply is appended as the assistant's turn and interpreted by `ParseReply` |
| Database.UserIdOf | utils/database.py:33 | The subquery finds the id of a user with that name, or no user has it |
| Database.CompanyIdOf | utils/database.py:33 | The subquery finds the id of a company with that name, or no company has it |
| Database.SeedingIsIdempotent | utils/database.py:22-33 | Seeding a table leaves it non-empty, and seeding it again changes nothing |
| Database.FreshSetupLinksCeo | utils/database.py:23-33 | On fresh tables the seeded access table is the single link jio_ceo → Reliance Jio, ids 2 and 1 |
| Database.Store.constructor | utils/database.py:17-20 | A new store has four empty tables |
| Database.Store.Setup | utils/database.py:13-36 | Each of users, companies and access is seeded only when empty (access from the tables as seeded); financial data is untouched |
| Database.NormalisedParenthesised | utils/database.py:66 | For a number without commas or parentheses, the normalised `(d)` is `-d` |
| Database.NormalisedPlain | utils/database.py:66 | Normalisation leaves a plain number unchanged |
| Database.CleanParenthesisNegates | utils/database.py:66 | An unsigned decimal cleans to its value, and in parentheses to its negation |
| Database.CleanIgnoresCommas | utils/database.py:66 | Thousands separators do not change the cleaned value |
| Database.PointNumberIsPlain | utils/database.py:66 | A `digits.digits` number has no comma or parenthesis |
| Database.PointNumberParses | utils/database.py:66 | A `digits.digits` number reads as the whole part plus the scaled fraction |
| Database.CleanRejectsExample | utils/database.py:66-69 | "N/A" and null are not stored |
| Database.NotANumberKept | utils/database.py:66 | Normalisation leaves "N/A" as it is |
| Database.NotANumberRejected | utils/database.py:66-68 | `float("N/A")` is a ValueError |
| Database.SavedKeysStep | utils/database.py:64-70 | Handling one more metric upserts its cleaned value when it is a number and otherwise changes nothing |
| Database.SavedUpserts | utils/database.py:61-72 | Every storable metric ends at (company, year, metric) with its cleaned value and the source; every other key keeps its row or its absence |
| Database.SaveIsIdempotent | utils/database.py:61-72 | Saving the same metrics twice gives the same table as saving them once |
| Database.Store.SaveFinancialData | utils/database.py:61-72 | The loop over the metrics leaves the financial table as the specified upsert of the old one; the other tables are unchanged |
| Database.InsertByName | utils/database.py:47 | Inserting into a name-ordered list keeps it ordered and adds exactly that company |
| Database.InsertByNameFront | utils/database.py:47 | A company not after the head can go in front of a name-ordered list |
| Database.InsertByNameBound | utils/database.py:47 | After insertion every name is at or after the old head |
| Database.SortByName | utils/database.py:47 | `ORDER BY name` gives the same companies, ordered by name |
| Database.LinkedCompanies | utils/database.py:49 | The join gives exactly the companies linked to the user |
| Database.AccessibleCompanies | utils/database.py:44-53 | top_management and analyst see all companies ordered by name; a ceo sees exactly the linked ones; any other role sees none |
| Database.PairLtTransitive | utils/database.py:76 | Ordering by year then metric is transitive |
| Database.PairLtTotal | utils/database.py:76 | Two different (year, metric) pairs are always ordered one way |
| Database.InsertPair | utils/database.py:76 | Inserting a new pair keeps the pairs strictly ordered and adds only it |
| Database.SortPairs | utils/database.py:76 | There is a strictly ordered list of any set of (year, metric) pairs |
| Database.KeyPairs | utils/database.py:76 | The pairs selected for a company are exactly the (year, metric) keys stored for it |
| Database.RowsAt | utils/database.py:76 | Each listed pair gives the stored row with that year and metric |
| Database.RowsAtComplete | utils/database.py:76 | Listing every stored pair gives every stored row of the company and no other |
| Database.CompanyFinancials | utils/database.py:74-78 | The rows are exactly the company's stored (year, metric, value) rows, strictly ordered by year then metric |
| Text.Contains | utils/llm_helper.py:176 | The substring test holds exactly when the pattern occurs at some position |
| Text.ContainsInfix | utils/llm_helper.py:176 | A text that is built around a pattern contains it |
| Text.FirstIndex | utils/llm_helper.py:178 | Finds the first position of the character, or reports it absent |
| Text.LastIndex | utils/llm_helper.py:178 | Finds the last position of the character, or reports it absent |
| Text.FirstIndexAt | utils/llm_helper.py:178 | A position holding the character with none before it is the first one |
| Text.LastIndexAt | utils/llm_helper.py:178 | A position holding the character with none after it is the last one |
| Text.FirstIndexLeast | utils/llm_helper.py:178 | The first position of a character is at or before any position holding it |
| Text.LastIndexGreatest | utils/llm_helper.py:178 | The last position of a character is at or after any position holding it |
| Text.Truncate | utils/llm_helper.py:96 | Slicing `[:n]` gives the prefix of length n, or the whole text when shorter |
| Text.RemoveChar | utils/database.py:66 | Removing a character leaves no occurrence of it; a text without it is unchanged |
| Text.RemoveCharCounts | utils/database.py:66 | Removing a character keeps every other character, each as many times as before |
| Text.RemoveCharMembers | utils/database.py:66 | Exactly the characters of the text other than the removed one remain |
| Text.ReplaceChar | utils/database.py:66 | Replacement keeps the length and maps that character, position by position, to the new one |
| Text.StrLtIrreflexive | utils/database.py:47 | No name sorts before itself |
| Text.StrLtTransitive | utils/database.py:47 | Text order is transitive |
| Text.StrLtTotal | utils/database.py:47 | Two different texts are always ordered one way |
| Text.StrLeTransitive | utils/database.py:47 | Non-strict text order is transitive |
| Decimal.Pow10 | utils/database.py:66 | Powers of ten are positive |
| Decimal.DigitsValueBound | utils/database.py:66 | n digits are worth less than 10^n |
| Decimal.FractionBound | utils/database.py:66 | The digits after the point add a part in [0, 1) |
| Decimal.PointValue | utils/database.py:66 | `whole.fraction` lies between the whole part and the whole part plus one |
| Decimal.ParseUnsigned | utils/database.py:66 | An unsigned decimal reads as a non-negative value |
| Decimal.ParseUnsignedStartsWithDigit | utils/database.py:66 | An accepted unsigned decimal starts with a digit |
| Decimal.DigitsHaveNoPoint | utils/database.py:66 | A run of digits holds no point |
| Decimal.PointSplit | utils/database.py:66 | In `whole.fraction` the first point separates the two parts |
| Decimal.ParseUnsignedParts | utils/database.py:66 | `whole.fraction` reads as the whole part plus the fraction scaled by its length |
| Decimal.ParseDecimalSigns | utils/database.py:66 | An unsigned decimal reads the same through `float()`, and with a leading minus as its negation |
| Decimal.ShowNat | utils/database.py:66 | The decimal text of a natural number is a non-empty run of digits |
| Decimal.DigitsValueShowNat | utils/database.py:66 | Reading back the digits of n gives n |
| Decimal.ParseDecimalShowNat | utils/database.py:66 | `float(str(n))` is n and `float("-" + str(n))` is -n for every natural n |
| Plotting.MetricRows | utils/plotting.py:158 | The filter keeps exactly the rows of the metric, and is empty exactly when the metric is absent |
| Plotting.InsertByYear | utils/plotting.py:162 | Inserting into a year-ordered list keeps it ordered and adds exactly that row |
| Plotting.YearSortedCons | utils/plotting.py:162 | A row no later than every row of a year-ordered list can go in front of it |
| Plotting.InsertByYearBound | utils/plotting.py:162 | After insertion every year is at or after the old head's |
| Plotting.SortByYear | utils/plotting.py:162 | `sort_values('year')` gives a year-ordered permutation of the rows |
| Plotting.YearOverYear | utils/plotting.py:166-169 | There are never more growth points than years after the first |
| Plotting.GrowthNeedsTwoYears | utils/plotting.py:171-173 | With fewer than two rows of the metric there is no growth chart |
| Plotting.YearOverYearNonzero | utils/plotting.py:166-169 | With no zero prior value, every year after the first gets exactly its percentage change |
| Plotting.YearOverYearYears | utils/plotting.py:162-169 | Every growth point sits at one of the sorted years after the first |
| Plotting.GrowthChartValues | utils/plotting.py:153-195 | For n >= 2 values with no zero prior, the chart has n - 1 bars, and bar i shows (v[i+1] / v[i] - 1) * 100 at year i+1 |
| Plotting.GrowthExample | utils/plotting.py:153-195 | Revenue 100 then 120 gives one bar of +20% at the later year |
| Plotting.MetricRowsSorted | utils/plotting.py:132-135 | Filtering a year-ordered table keeps it year-ordered |
| Plotting.MetricRowsInsertFront | utils/plotting.py:132-135 | Filtering after putting a row in front is filtering then putting it in front if it matches |
| Plotting.MetricRowsInsertStep | utils/plotting.py:132-135 | One step of insertion commutes with the filter |
| Plotting.MetricRowsInsert | utils/plotting.py:132-135 | Inserting by year commutes with the filter |
| Plotting.MetricRowsSortByYear | utils/plotting.py:132-135 | Sorting then filtering (the asset/liability chart) equals filtering then sorting (the line chart) |
| Plotting.AssetLiabilityTraces | utils/plotting.py:126-150 | The chart always exists, with a Total Assets series exactly when that metric is present, then a Total Liabilities one likewise, each that metric's rows in year order |
| Plotting.PointsMembers | utils/plotting.py:102-124 | The plotted points are exactly the (year, value) pairs of the rows given |
| Plotting.SeriesMembers | utils/llm_helper.py:194 | The series of a metric holds exactly that metric's rows |
| Plotting.SeriesPoints | utils/llm_helper.py:194-198 | The line or bar chart plots exactly the metric's (year, value) pairs, in year order |

## Definitions

The reference functions, predicates and constants the contracts above are
stated in. Each means what the code it cites does, apart from the
differences listed under "## Left out". Lemmas that are only steps of other
proofs have no row.

| function | source | computes |
|---|---|---|
| Extraction.RequiredKeys | utils/llm_helper.py:17-22 | The fourteen metric names, in schema order |
| Extraction.RequiredSet | utils/llm_helper.py:17-22 | The fourteen metric names as a set |
| Extraction.ChunkLimit | utils/llm_helper.py:96 | 30000, the most characters sent for one page |
| Extraction.NextPageSeparator | utils/llm_helper.py:92 | The separator placed between a page and its look-ahead |
| Extraction.ExtractionFailurePrefix | utils/llm_helper.py:78 | "JSON parsing failed: ", the start of every extraction error |
| Extraction.NoResponseDetails | utils/llm_helper.py:75 | "No response from API.", the details when the call itself failed |
| Extraction.NotAnObjectReason | utils/llm_helper.py:67-68 | A fixed stand-in for the TypeError text raised when the reply is JSON but not an object |
| Extraction.NoDataMessage | utils/llm_helper.py:104 | The text of the aggregate error |
| Extraction.IsError | utils/llm_helper.py:98 | A record reports a failure exactly when it has an "error" key |
| Extraction.ErrorRecord | utils/llm_helper.py:72-78 | The two-key record with the error text and the details |
| Extraction.Structured | utils/llm_helper.py:52-78 | The record one extraction returns: the completed object when the reply parses to an object, otherwise the error record with the reason and the reply (or "No response from API.") |
| Extraction.Completed | utils/llm_helper.py:66-69 | The parsed object with every missing required key added as null |
| Extraction.CompletedWith | utils/llm_helper.py:67-69 | The object with every key of the given list that it lacks added as null, all else kept |
| Extraction.InitialRecord | utils/llm_helper.py:86 | The fourteen required keys, each mapped to null |
| Extraction.Reported | utils/llm_helper.py:99-100 | The keys a page result holds with a non-null value |
| Extraction.Absorbed | utils/llm_helper.py:99-101 | The accumulator with every null or absent key filled from the page's non-null value for it |
| Extraction.Step | utils/llm_helper.py:98-101 | One page of the merge: an error result leaves the accumulator as it is, any other result is absorbed |
| Extraction.Merge | utils/llm_helper.py:86-101 | The page results folded with `Step`, in document order, from the all-null record of the fourteen keys |
| Extraction.Finalize | utils/llm_helper.py:103-106 | The aggregate error when every merged value is null, the merged record otherwise |
| Extraction.FirstReported | utils/llm_helper.py:86-101 | An independent front-to-back reading of the merge: the first non-null value of a key among the non-error page results, else null |
| Extraction.AllNull | utils/llm_helper.py:103 | Every value of the record is null (true for an empty record) |
| Extraction.ProcessedPages | utils/llm_helper.py:82-106 | `Finalize` of the merge of one extraction per chunk |
| Extraction.PageWithContext | utils/llm_helper.py:90-92 | The page, followed by the next-page separator and the next page when there is one |
| Extraction.Chunk | utils/llm_helper.py:96 | The page with its look-ahead, cut to 30000 characters |
| Database.Normalised | utils/database.py:66 | The text with commas dropped, `(` replaced by `-` and `)` dropped, in that order |
| Database.Clean | utils/database.py:66-68 | The stored number: a JSON number as it is, a string through `Normalised` and `float()`, anything else none |
| Database.Storable | utils/database.py:66-69 | A metric of the batch whose value cleans to a number, so that `cleaned_value is not None` |
| Database.Saved | utils/database.py:61-72 | The financial table with every metric of the batch whose value cleans upserted at (company, year, metric) with that value and the source |
| Database.SavedKeys | utils/database.py:64-70 | The financial table after the loop has handled the metrics of the batch in a given set: each storable one upserted, the rest of the table kept |
| Database.SeedIfEmpty | utils/database.py:23-32 | The table as it is, or the seed rows when it is empty |
| Database.SeedAccess | utils/database.py:32-33 | The one access row linking the id of jio_ceo to the id of Reliance Jio |
| Database.SeedUsers | utils/database.py:24-26 | The users analyst, jio_ceo and ambani with their passwords and roles, ids 1 to 3 in insertion order |
| Database.SeedCompanies | utils/database.py:29-30 | The companies Reliance Jio and Reliance Retail of the Reliance group, ids 1 and 2 in insertion order |
| Database.NameSorted | utils/database.py:47 | The companies are in `ORDER BY name` order |
| Database.Linked | utils/database.py:49 | Some access row links the user id to the company id, the join condition |
| Database.PairLt | utils/database.py:76 | `ORDER BY year, metric`: the earlier year first, then the metric in text order |
| Database.PairsSorted | utils/database.py:76 | The (year, metric) pairs are strictly in `ORDER BY year, metric` order |
| Database.StoredRow | utils/database.py:76 | The table holds the row's value at the company, the row's year and its metric |
| Decimal.ParseDecimal | utils/database.py:66 | `float()` on `[-]digits[.digits]`: the value, negated after a leading minus; none for any other text |
| Decimal.IsDigit | utils/database.py:66 | The character is one of 0-9 |
| Decimal.AllDigits | utils/database.py:66 | Every character of the text is a digit |
| Decimal.DigitValue | utils/database.py:66 | The value 0-9 of one digit |
| Decimal.DigitsValue | utils/database.py:66 | The value of a run of digits, most significant first, as `float()` reads it |
| Json.Get | utils/llm_helper.py:184-190 | `dict.get`: the stored value, or null when the key is absent |
| Json.Truthy | utils/llm_helper.py:187 | Python truthiness: null, false, zero, and the empty string, list and object are falsy |
| Tidy.HasMetric | utils/llm_helper.py:193 | `metric in df['metric'].unique()`: some row of the frame has the metric |
| Chat.PlainText | utils/llm_helper.py:205-215 | The raw-text reply: the whole reply as the message, with no chart |
| Chat.SystemPrompt | utils/llm_helper.py:114-139 | The analyst prompt: the fixed text around the company name, the plot_request schema and the data summary |
| Chat.PlotMarker | utils/llm_helper.py:176 | "plot_request", the key whose presence signals a chart request |
| Chat.ConnectionApology | utils/llm_helper.py:169 | The message shown when the chat call fails |
| Chat.GreedySpan | utils/llm_helper.py:178 | A span from the first `{` of the text to its last `}`, as the greedy DOTALL search finds it |
| Chat.MetricPresent | utils/llm_helper.py:193 | The metric is a non-empty string and some row of the frame has it |
| Plotting.Points | utils/plotting.py:105-117 | The x and y columns of the rows handed to a chart, as (year, value) points in row order; the asset/liability traces (utils/plotting.py:138-140) use them too |
| Plotting.Series | utils/llm_helper.py:194 | The rows of the metric, sorted by year |
| Plotting.TotalAssets | utils/plotting.py:134 | "Total Assets", the first metric of the asset/liability chart |
| Plotting.TotalLiabilities | utils/plotting.py:135 | "Total Liabilities", the second metric of the asset/liability chart |
| Plotting.YearSorted | utils/plotting.py:162 | The rows are in non-decreasing year order, what `sort_values('year')` gives |
| Plotting.Change | utils/plotting.py:166-169 | The percentage change between two consecutive values; plus or minus infinity after a zero prior, none for 0/0 |
| Plotting.GrowthChart | utils/plotting.py:153-195 | The growth bars of the metric's year-over-year changes, or none when no change remains |
| Plotting.AssetLiabilityChart | utils/plotting.py:126-150 | The grouped bars of Total Assets then Total Liabilities, each present only when the metric has rows, over the rows sorted by year |
| Text.OccursAt | utils/llm_helper.py:176 | The pattern occurs in the text at the given index |
| Text.StrLt | utils/database.py:47 | SQLite's BINARY collation: strict lexicographic order by code point, a proper prefix first |
| Text.StrLe | utils/database.py:47 | The non-strict form of that order |

## Left out

- The language-model calls (`groq_client.chat.completions.create`) are function parameters. So is `json.loads`, whose grammar is not modelled; the model proves what the code does with any result they give.
- The content of a model reply is always a string (`CallResult.Reply`). A reply whose `message.content` is `None` is not modelled. For extraction, `json.loads` raises TypeError on it, and the error record's details are that `None` content (`utils/llm_helper.py:64`, `76-78`). For the chat, the history gains an assistant turn with `None` content, the `in` test raises TypeError (`utils/llm_helper.py:176`), and the reply's message is `None` (`utils/llm_helper.py:212-215`).
- The wording of the extraction prompt and the system prompt is paraphrased. Only the facts the code relies on are kept: the company name, the data summary, and the `plot_request` schema key.
- Chat.InitialMessages: states which fragments the prompt contains, not its exact text.
- Extraction.StructureData: a reply that parses to a list or a string holding all fourteen key names (as elements or as substrings) is returned unchanged by the source (`utils/llm_helper.py:67-71`). Unless it also holds "error", `process_pdf_pages` then calls `.items()` on it (`utils/llm_helper.py:99`), the AttributeError is not caught, and the upload fails. The model makes every non-object reply an error record, which the merge skips. Its reason is the fixed text `NotAnObjectReason`, not Python's TypeError message, which depends on the type ("list indices must be integers or slices, not str", "'str' object does not support item assignment", "argument of type 'int' is not iterable"); nothing downstream reads it. A list or string missing a key, and null, a boolean or a number, raise a TypeError in the completion loop; the source and the model both give an error record for them.
- Database.Clean: accepts only `[-]digits[.digits]`. Python's `float()` also accepts whitespace, `+`, `.5`, `5.`, exponents, underscores, `inf` and `nan`, so the model stores fewer strings than the source. Numbers (`JNum`) are stored as they are, since `float(str(x))` gives x back for a Python float.
- Numbers are exact reals, so floating-point rounding is not modelled. pct_change with a zero prior gives ±infinity, and 0/0 (NaN) is dropped, as pandas does.
- Chat.Dispatch: a metric that is not a string is treated as absent. What `metric in df['metric'].unique()` does for other types under numpy is not modelled.
- `pd.to_numeric` is the identity: the values read from SQLite are already REAL or INTEGER. The asset/liability chart also writes through to the caller's data frame; with values as immutable sequences, that aliasing is not modelled.
- The order of pandas' sort among equal years does not matter: the rows of one company have unique (year, metric) pairs.
- Database.LinkedCompanies: keeps table order and states membership only. The SQL join gives no ORDER BY.
- The ids of `financial_data` rows and the rowid change made by `INSERT OR REPLACE` are not modelled. The seeded users and companies do carry their ids (1-3 and 1-2).
- `CREATE TABLE IF NOT EXISTS`, connections and commits are not modelled: a `Store` is the four tables.
- `get_user` and `get_all_companies` are not part of this model: each is one plain SELECT outside the core.
- The Plotly styling (colours, templates, axis titles, labels) is not part of this model; a figure records the series handed to each chart.
- A chart constructor that raises is not modelled, nor is the plain-text fallback it would cause.
- The message `print`s, the Streamlit pages, the PDF text extraction in `utils/pdf_processor.py` and the first copy of `utils/plotting.py` (lines 1-97) are not part of this model.

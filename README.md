# tempmon in Dafny

This project models tempmon, a temperature and humidity monitor, and proves properties of the model. Devices
post readings to a Kotlin/http4k backend, which stores them in one PostgreSQL table. A React frontend reads them
back through a JSON API.

The model covers the following parts of tempmon:

- **Submissions.** The tag-discriminated submission union and its decoding (`RequestTypes`).
- **HTTP handlers.** The handlers are modelled as functions of the request, the stored rows and the current time
  (`Server`). The one state-changing handler, POST `/request`, is a method on the table.
- **The measurement table (`Store`).** It is a class holding the rows and the next SERIAL id. Every query is a
  function with its SQL meaning: filter, order by timestamp, LIMIT/OFFSET, GROUP BY / DISTINCT, AVG over
  non-NULL values, and a per-device maximum joined back to the rows.
- **Frontend transforms.**
  - Per-device grouping and latest-per-device (`RoomsGrid`).
  - The comparison chart's legend toggle and minute buckets (`LineChartCompare`).
  - The room comparison state (`RoomCompare`).
  - The pagination state of the measurement table (`MeasurementTable`).
  - The week-over-week trend (`CurrentTrend`).
  - The Wi-Fi signal icon (`WifiSignal`).
  - The generated `Device` JSON codec (`DeviceCodec`).
  - The API base-URL choice (`ApiClient`).
- **The espota uploader (`OtaUpdate`).** Its command line, its configuration builders and its progress accounting.

Supporting modules:

- `Wrappers`: `Option`/`Result`.
- `Sequences`: filtering, and a stable insertion sort by a total preorder.
- `Numerals`: Kotlin `toIntOrNull`/`Int.toString`, with a round-trip proof.
- `JsNumbers`: JavaScript numbers with NaN and the infinities, and `Number(...)`.

Modelling choices:

- **Time.** Timestamps are integer milliseconds on the local clock. The clock is the parameter `now`.
- **Readings.** Readings are `Option<real>`.
- **Order among ties.** ORDER BY timestamp leaves the order of rows with equal timestamps to the database. The
  model fixes one stable sort, and each query's contract states only what every admissible order gives: sorted,
  drawn from the rows, and the window's length. For rows with distinct timestamps the order is determined, and
  every newest-first order gives the model's page (`Store.PageUnderAnyOrdering`). The pagination lemmas
  (`Store.PagesTile`, `Store.AllPagesCoverTable`, `MeasurementTable.ConsecutivePagesTile`,
  `MeasurementTable.TileAt`) are stated for that case. With ties each query may order the tied rows differently,
  so consecutive pages can repeat one row and skip another (`Store.TiesLetPagesOverlap`).
- **Failures.** Failures are values.
  - PostgreSQL rejects a negative LIMIT or OFFSET, a value longer than its VARCHAR column by anything other than
    spaces, and a SERIAL past the `int4` maximum. A value longer only by trailing spaces is accepted and stored cut
    to the column width (`Store.Stored`).
  - Each handler turns such a failure into its 400 response.
  - The handler also returns a 400 for a missing required parameter or an unparsable time.

Behaviour the proofs pin down:

- **Where `deviceMac` is read from.** `GET /deviceMeasurements` reads `deviceMac` from a request header
  (`src/main/kotlin/Server.kt:125`). The API contract declares it as a query parameter
  (`src/main/kotlin/Server.kt:347`). The model follows the handler.
- **The room handler ignores the time range.** `/rooms/measurements` requires `room` and ignores the declared
  `startTime`/`endTime` (`Server.RoomHandlerIgnoresTimeRange`).
- **Unknown Room.** A null device name becomes the room "Unknown Room". Devices with a null name are, however,
  listed under the name `""`, so that room's device list is empty (`Store.UnknownRoomIsEmpty`).
- **Inclusive versus exclusive windows.** The server's time window is inclusive at both ends. The room comparison
  filter is exclusive (`RoomCompare.BoundaryRowServerKeepsClientDrops`).
- **Ties in "latest per device".** For two readings of one device at the same instant, the server returns both.
  The rooms page keeps only the first (`RoomsGrid.ClientKeepsFirstOfServerTies`).
- **An empty week.** The average endpoints answer `null` for a week without data. The trend card coerces that
  `null` with `Number(null)` to 0, not to null. After a week with data, it therefore shows a fall of 100 percent
  (`CurrentTrend.NullAverageBecomesZero`, `CurrentTrend.EmptyWeekReadsAsFullDrop`).
- **Readings of zero.** The room difference treats a reading of exactly 0 like a missing one
  (`RoomCompare.ZeroReadingGivesNoDifference`).

## Model

| member | source | states |
|---|---|---|
| RequestTypes.Decode | src/main/kotlin/RequestTypes.kt:8-21 | Rejects a body that is not an object. A missing or null `type` is a missing type id. An unregistered tag is an unknown type id, with no fallback subtype. A decoded request's `type` is the tag that selected it and its registered name. |
| RequestTypes.Encode | src/main/kotlin/RequestBodyLenses.kt:9-17 | The encoded body carries `type` and exactly the reading fields of its variant. |
| RequestTypes.DecodeDispatch | src/main/kotlin/RequestTypes.kt:14-21 | "TEMPERATURE_HUMIDITY", "HUMIDITY" and "TEMPERATURE" decode to TemperatureHumidityRequest, HumidityRequest and TemperatureRequest respectively. |
| RequestTypes.RoundTrip | src/main/kotlin/RequestBodyLenses.kt:9-17 | Decoding the encoding of a request carrying its registered tag gives the same request. |
| RequestTypes.RetaggedRequestDoesNotDecode | src/main/kotlin/RequestTypes.kt:14-21 | A request whose tag is not a registered name does not survive the round trip; it fails as an unknown type id. |
| RequestTypes.DefaultsAreRegisteredNames | src/main/kotlin/RequestTypes.kt:30-59 | Each variant's default `type` is its registered subtype name, and every optional field defaults to null. |
| RequestTypes.NoRangeValidation | src/main/kotlin/RequestTypes.kt:32-35 | Any temperature and humidity, however out of range, decode unchanged. |
| RequestTypes.HumidityIgnoresTemperature | src/main/kotlin/RequestTypes.kt:42-48 | A HUMIDITY body decodes the same with or without a `temperature` field: HumidityRequest carries no temperature. |
| Server.WithCorsHeaders | src/main/kotlin/Server.kt:35-41 | Appends the four CORS headers after the existing ones and keeps the status and body. |
| Server.QueryValue | src/main/kotlin/Server.kt:48-49 | The value of the first query parameter with that name: the result is that parameter's value, and no earlier parameter has the name; none when no parameter has it. |
| Server.HeaderValue | src/main/kotlin/Server.kt:125 | The value of the first header whose name matches ignoring case: the result is that header's value, and no earlier header matches; none when no header matches. |
| Server.IntParam | src/main/kotlin/Server.kt:101-102 | The parsed Int when the parameter is present and parses, otherwise the default. Negatives are kept as they are. |
| Server.IntParamReadsPrintedInt | src/main/kotlin/Server.kt:101-102 | A parameter holding an Int as Kotlin prints it is read back as that Int. |
| Server.TimeWindow | src/main/kotlin/Server.kt:180-184 | The window from the given times. Missing times default to now minus one day and now. It fails exactly when a given time does not parse. |
| Server.HandleGetAllMeasurements | src/main/kotlin/Server.kt:99-120 | Always carries the CORS headers. 200 exactly when limit and offset are non-negative; the body is then that page together with `count` equal to the number of rows, whatever the limit and offset. Otherwise 400 carrying the database error, the OFFSET one when the offset is negative and else the LIMIT one. |
| Server.HandleGetAllMeasurementsForDevice | src/main/kotlin/Server.kt:121-138 | Without a `deviceMac` header, 400 "Missing deviceMac header". 200 with the device's page exactly when the header is present and limit/offset are non-negative; with the header present, a 400 carries the OFFSET error when the offset is negative, else the LIMIT error. |
| Server.HandleGetAllMeasurementsForRoom | src/main/kotlin/Server.kt:139-156 | Without a `room` query parameter, 400 "Missing room parameter". 200 with the room's page exactly when it is present and limit/offset are non-negative; with it present, a 400 carries the OFFSET error when the offset is negative, else the LIMIT error. |
| Server.RoomHandlerIgnoresTimeRange | src/main/kotlin/Server.kt:139-156 | Adding `startTime`/`endTime` parameters does not change the room handler's response. |
| Server.SkipOtherNames | src/main/kotlin/Server.kt:143 | Parameters with other names in front do not change a query lookup. |
| Server.HandleGetAllDevices | src/main/kotlin/Server.kt:157-174 | 200 with the device page exactly when limit/offset are non-negative, else 400 carrying the OFFSET error when the offset is negative and the LIMIT error otherwise; always with CORS headers. |
| Server.HandleGetMeasurementsInTimeRange | src/main/kotlin/Server.kt:178-198 | 200 with the rows of the (defaulted) window exactly when the given times parse, else 400; always with CORS headers. |
| Server.AverageBody | src/main/kotlin/Server.kt:219-221 | A null average becomes the body "null"; any other average is the body. |
| Server.HandleGetAverageTemperature | src/main/kotlin/Server.kt:203-229 | 200 exactly when the times parse. The body is then the store's average temperature over that window as the handler renders it, which is "null" exactly when the window holds no temperature. |
| Server.HandleGetAverageHumidity | src/main/kotlin/Server.kt:230-256 | As for temperature: the body is the store's average humidity over the window, "null" exactly when it holds no humidity. |
| Server.HandleGetLatestMeasurementsByDevice | src/main/kotlin/Server.kt:258-272 | Always 200 with CORS headers and the store's latest rows per device. |
| Server.HandleGetRooms | src/main/kotlin/Server.kt:275-288 | Always 200 with CORS headers. The body is the store's default room page, so at most 100 rooms. |
| Server.ArgumentsFor | src/main/kotlin/Server.kt:47-80 | The saved IP address is the source address or "unknown". The MAC and device name come from the X-MAC-Address and X-Device-Name query parameters, never from the body. HUMIDITY saves no temperature and TEMPERATURE saves no humidity. |
| Server.Acknowledgment | src/main/kotlin/Server.kt:61-79 | The exact acknowledgment text of each variant, naming only the readings it carries, with null shown as "null". |
| Server.PlanRequest | src/main/kotlin/Server.kt:43-92 | A body that does not decode is rejected with 400 "Invalid request body: " and its cause, before anything is saved. Otherwise the save arguments and acknowledgment follow the decoded variant. |
| Server.HandleRequest | src/main/kotlin/Server.kt:43-93 | A bad body leaves the table unchanged. Otherwise exactly one row is appended under a fresh id, holding the decoded fields with IP, MAC and name cut to their column widths, and the answer is 200 text/plain with the acknowledgment, or, when the insert fails, the table is unchanged and the answer is 400 "Invalid request body: ". Always with CORS headers. |
| Server.HumiditySubmissionSavesNoTemperature | src/main/kotlin/Server.kt:63-70 | A HUMIDITY submission that also carries a temperature saves only its humidity and acknowledges only the humidity. |
| Store.MeasurementTable.constructor | src/main/kotlin/JooqProvider.kt:23-33 | An empty table whose SERIAL starts at 1. |
| Store.MeasurementTable.SaveMeasurement | src/main/kotlin/JooqProvider.kt:147-174 | On success, appends exactly one row with the five given fields under a fresh id and returns that id; IP, MAC and name are stored cut to their column widths, which changes only values longer by trailing spaces; no other row changes. A failed insert changes no rows. The sequence advances unless exhausted. |
| Store.InsertOutcome | src/main/kotlin/JooqProvider.kt:23-33 | An insert succeeds exactly when the id fits in int4 and each of the IP, MAC and name is null, at most 45, 17 and 255 characters (the VARCHAR widths), or longer only by spaces past that width; the id returned is the next SERIAL value. |
| Store.Stored | src/main/kotlin/JooqProvider.kt:23-33 | What a VARCHAR(n) column holds after the assignment: null stays null, a value of at most n characters is kept as is, a longer one is cut to a prefix of n characters, and for a value that fits only spaces are cut off. |
| Store.TrailingSpacesAreCut | src/main/kotlin/JooqProvider.kt:23-33 | A MAC with one trailing space fits VARCHAR(17) and is stored without it; one with any other 18th character does not fit. |
| Store.TimestampOrdersArePreorders | src/main/kotlin/JooqProvider.kt:220 | Ordering by timestamp, descending or ascending, is a total preorder. |
| Store.Window | src/main/kotlin/JooqProvider.kt:221-222 | LIMIT/OFFSET keeps the rows from the offset onwards, at most `limit` of them, in order. |
| Store.LimitOffset | src/main/kotlin/JooqProvider.kt:221-222 | Fails exactly for a negative limit or offset, else gives the window. The OFFSET is checked first, so when both are negative the error is the OFFSET one. |
| Store.AdjacentWindows | src/main/kotlin/JooqProvider.kt:221-222 | Two windows placed one after the other make up the window of their combined size. |
| Store.NewestPage | src/main/kotlin/JooqProvider.kt:216-226 | Newest first, sized by limit and offset, drawn from the rows; with offset 0 and a large enough limit, all rows. Fails for a negative limit or offset, with the OFFSET error when both are negative. |
| Store.GetAllMeasurements | src/main/kotlin/JooqProvider.kt:216-226 | The slice [offset, offset+limit) of the rows newest first: at most `limit` rows, sorted, drawn from the table. Fails for a negative limit or offset, with the OFFSET error when both are negative. |
| Store.PageIsWindow | src/main/kotlin/JooqProvider.kt:216-226 | A page is exactly the window of the newest-first ordering. |
| Store.NoTiesNoDuplicates | src/main/kotlin/JooqProvider.kt:220 | Rows with distinct timestamps hold each row at most once. |
| Store.UntiedRows | src/main/kotlin/JooqProvider.kt:220 | Such rows have no duplicates and no two rows at one instant. |
| Store.NewestFirstIsUnique | src/main/kotlin/JooqProvider.kt:220 | Two newest-first orderings of the same rows without ties are the same sequence. |
| Store.HeadsAgree | src/main/kotlin/JooqProvider.kt:220 | Both such orderings begin with the same newest row. |
| Store.TailsAgree | src/main/kotlin/JooqProvider.kt:220 | Removing that row leaves the same rows without ties. |
| Store.SortedTail | src/main/kotlin/JooqProvider.kt:220 | The rest of a newest-first ordering is newest first. |
| Store.PageUnderAnyOrdering | src/main/kotlin/JooqProvider.kt:216-226 | For rows with distinct timestamps, every newest-first order the database may choose gives the model's page: the page does not depend on the sort. |
| Store.TiesLetPagesOverlap | src/main/kotlin/JooqProvider.kt:220-222 | Two rows at one instant may come in either order, and then the page (1, 0) under one order equals the page (1, 1) under the other: pages may repeat a row. |
| Store.NextPageOffset | src/main/kotlin/JooqProvider.kt:221-222 | Page k+1 starts where page k ends. |
| Store.PagesTile | src/main/kotlin/JooqProvider.kt:216-226 | For rows with distinct timestamps, the first n pages together are the first n·size rows newest first. |
| Store.PagesStep | src/main/kotlin/JooqProvider.kt:216-226 | Adding one page extends the covered prefix by one page size. |
| Store.AllPagesCoverTable | src/main/kotlin/JooqProvider.kt:216-226 | For rows with distinct timestamps, enough pages together hold every row exactly once, newest first. |
| Store.NewestRowComesFirst | src/main/kotlin/JooqProvider.kt:216-226 | A row newer than all others is the page of size 1. |
| Store.GetCountOfMeasurements | src/main/kotlin/JooqProvider.kt:227-234 | The count is the number of rows. |
| Store.FilteredPage | src/main/kotlin/JooqProvider.kt:235-258 | A WHERE condition followed by the newest-first LIMIT/OFFSET page. Only rows meeting the condition, sorted, drawn from the matching rows, and exactly as many as LIMIT/OFFSET keeps of them. With offset 0 and a large enough limit, every row meeting it. A negative offset gives the OFFSET error, else a negative limit the LIMIT error. |
| Store.FilteredPageIsWindow | src/main/kotlin/JooqProvider.kt:235-258 | A filtered page is exactly the LIMIT/OFFSET window of the matching rows newest first. |
| Store.PageElements | src/main/kotlin/JooqProvider.kt:235-258 | A page of filtered rows holds only rows meeting the condition; a full page holds all of them. |
| Store.GetMeasurementsByMacAddress | src/main/kotlin/JooqProvider.kt:235-246 | Only rows with that MAC (a null MAC never matches), newest first, drawn from the rows with that MAC and exactly as many as LIMIT/OFFSET keeps of them; with offset 0 and a large limit, every such row. A negative offset gives the OFFSET error, else a negative limit the LIMIT error. |
| Store.GetMeasurementsByRoom | src/main/kotlin/JooqProvider.kt:247-258 | Only rows with that device name (null never matches), newest first, drawn from the rows with that name and exactly as many as LIMIT/OFFSET keeps of them; with offset 0 and a large limit, every such row. A negative offset gives the OFFSET error, else a negative limit the LIMIT error. |
| Store.GetMeasurementsInTimeRange | src/main/kotlin/JooqProvider.kt:333-346 | Exactly the rows with start ≤ timestamp ≤ end, each as often as in the table, in ascending timestamp order. |
| Store.SameElements | src/main/kotlin/JooqProvider.kt:333-346 | Equal multisets have the same elements. |
| Store.Average | src/main/kotlin/JooqProvider.kt:291-325 | AVG ignoring NULLs: none exactly when the window has no value, else the mean of the non-null values in the inclusive window. |
| Store.GetAverageTemperature | src/main/kotlin/JooqProvider.kt:291-307 | Null exactly when the window holds no temperature; otherwise the value that times their count gives their sum, their mean. |
| Store.GetAverageHumidity | src/main/kotlin/JooqProvider.kt:309-325 | Null exactly when the window holds no humidity; otherwise the value that times their count gives their sum, their mean. |
| Store.SumBounds | src/main/kotlin/JooqProvider.kt:299 | A sum of n values between lo and hi lies between n·lo and n·hi. |
| Store.QuotientBounds | src/main/kotlin/JooqProvider.kt:299 | The quotient of such a sum by n lies between lo and hi. |
| Store.AverageWithinBounds | src/main/kotlin/JooqProvider.kt:291-325 | The average lies between the smallest and largest value averaged. |
| Store.AverageIgnoresRow | src/main/kotlin/JooqProvider.kt:299-302 | A row with a null reading or outside the window does not change the average. |
| Store.AverageExample | src/main/kotlin/JooqProvider.kt:291-307 | 20 and 22 average to 21; an empty window gives null. |
| Store.MaxTimestamp | src/main/kotlin/JooqProvider.kt:356-363 | The per-name MAX(timestamp): attained by a row of that name and not exceeded by any; none exactly when the name has no rows. |
| Store.GetLatestMeasurementsByDevice | src/main/kotlin/JooqProvider.kt:353-375 | Exactly the rows with a non-null device name whose timestamp equals that name's maximum, ties included. |
| Store.JoinsLatestMeansMaximal | src/main/kotlin/JooqProvider.kt:365-371 | A named row meets the join with the per-name maximum exactly when no row of its name is later. |
| Store.LatestCoversEveryName | src/main/kotlin/JooqProvider.kt:353-375 | Every non-null device name has a row among the latest. |
| Store.TiesYieldSeveralRows | src/main/kotlin/JooqProvider.kt:365-371 | Two rows of one name at the same maximum timestamp are both returned. |
| Store.DistinctGroups | src/main/kotlin/JooqProvider.kt:261-263 | GROUP BY (mac, name): every group of a row once, only groups of rows, and so no more groups than rows. |
| Store.StrLeTotal | src/main/kotlin/JooqProvider.kt:264 | The string order used for ORDER BY mac is total. |
| Store.StrLeTransitive | src/main/kotlin/JooqProvider.kt:264 | That order is transitive. |
| Store.MacOrderIsPreorder | src/main/kotlin/JooqProvider.kt:264 | Ordering by mac with NULLs last is a total preorder. |
| Store.ToDevices | src/main/kotlin/JooqProvider.kt:268-273 | One device per group, in order, with null mac and name mapped to "". |
| Store.DevicesInMacOrder | src/main/kotlin/JooqProvider.kt:259-264 | The distinct groups sorted by mac. |
| Store.GetAllDevices | src/main/kotlin/JooqProvider.kt:259-275 | Fails exactly for a negative limit or offset, with the OFFSET error when both are negative. Otherwise exactly the LIMIT/OFFSET window of the distinct (mac, name) groups in MAC order, as devices with nulls mapped to "", so as many as the window keeps of the groups; each is the device of some row. |
| Store.PageDevicesComeFromRows | src/main/kotlin/JooqProvider.kt:259-275 | Every device of a window of the ordered groups is the device of some row. |
| Store.AllDevicesListed | src/main/kotlin/JooqProvider.kt:259-275 | With offset 0 and a limit no smaller than the table, every row's (mac, name) device is listed. |
| Store.GroupComesFromRow | src/main/kotlin/JooqProvider.kt:261-263 | Every group in the sorted list comes from some row. |
| Store.DistinctNames | src/main/kotlin/JooqProvider.kt:279 | SELECT DISTINCT device_name: every row's name once, only names of rows, and so no more names than rows. |
| Store.RoomDevices | src/main/kotlin/JooqProvider.kt:286 | Exactly the devices among the first 100 devices that carry the room's name: each one listed carries it, and every such device is listed. |
| Store.GetAllRooms | src/main/kotlin/JooqProvider.kt:277-290 | Fails exactly for a negative limit or offset, with the OFFSET error when both are negative. Otherwise one room per name of the LIMIT/OFFSET window of the distinct device names, in that order, so as many as the window keeps; each is named after the device name of some row (null as "Unknown Room") and holds that name's devices from the default device page. |
| Store.AllRoomsListed | src/main/kotlin/JooqProvider.kt:277-290 | With offset 0 and a limit no smaller than the table, every row's room name is listed. |
| Store.RoomsFor | src/main/kotlin/JooqProvider.kt:284-288 | One room per distinct name, in order, named after it and holding the devices of that name. |
| Store.NamesComeFromRows | src/main/kotlin/JooqProvider.kt:279-285 | Every selected distinct name is the room name of some row. |
| Store.WindowNamesComeFromRows | src/main/kotlin/JooqProvider.kt:279-285 | The same holds for every LIMIT/OFFSET window of the distinct names. |
| Store.UnknownRoomIsEmpty | src/main/kotlin/JooqProvider.kt:285-286 | When no row is literally named "Unknown Room", that room has no devices, even though rows with a null name exist. |
| RoomsGrid.NamedContents | frontend/src/components/RoomsGrid.tsx:29-32 | A name's list holds exactly that name's measurements, each as often as in the input. |
| RoomsGrid.NamedSnoc | frontend/src/components/RoomsGrid.tsx:31-32 | A push adds the measurement to its own name's list only. |
| RoomsGrid.NamedStep | frontend/src/components/RoomsGrid.tsx:28-33 | One forEach step extends exactly the current measurement's list. |
| RoomsGrid.GroupNameStep | frontend/src/components/RoomsGrid.tsx:29-31 | One step adds the current name as a key, unless it is empty. |
| RoomsGrid.AbsentNameIsEmpty | frontend/src/components/RoomsGrid.tsx:29-31 | A name that is not a key has no measurements. |
| RoomsGrid.MeasurementsByDevice | frontend/src/components/RoomsGrid.tsx:26-38 | The keys are exactly the non-empty names that occur. Each key's list is that name's measurements sorted by ascending timestamp. |
| RoomsGrid.PushByName | frontend/src/components/RoomsGrid.tsx:28-33 | The forEach loop leaves each non-empty name's measurements in input order, and no other keys. |
| RoomsGrid.SortEachGroup | frontend/src/components/RoomsGrid.tsx:34-36 | Every list is sorted and no key is added or dropped. |
| RoomsGrid.GroupIsSortedPermutation | frontend/src/components/RoomsGrid.tsx:31-36 | Each list is sorted ascending and holds every measurement of its name exactly once. |
| RoomsGrid.LatestIndex | frontend/src/components/RoomsGrid.tsx:44 | The latest entry has the maximum timestamp, and every earlier entry is strictly older: the strict isAfter keeps the first of a tie. |
| RoomsGrid.ReducerStep | frontend/src/components/RoomsGrid.tsx:40-48 | One reduce step keeps the accumulator equal to every name's latest measurement so far. |
| RoomsGrid.ReducerStepAt | frontend/src/components/RoomsGrid.tsx:41-46 | One reduce step for one name. |
| RoomsGrid.LatestMeasurements | frontend/src/components/RoomsGrid.tsx:40-48 | The keys are exactly the non-empty names. Each holds the first measurement of that name with the maximum timestamp. |
| RoomsGrid.LatestStep | frontend/src/components/RoomsGrid.tsx:44-45 | A new measurement replaces the latest only when it is strictly later. |
| RoomsGrid.ClientKeepsFirstOfServerTies | frontend/src/components/RoomsGrid.tsx:44 | Where the server returns both tied rows, the page keeps the first. |
| RoomsGrid.TiedPair | frontend/src/components/RoomsGrid.tsx:44 | Of two tied measurements, the first is kept. |
| RoomsGrid.SeriesTimestamps | frontend/src/components/RoomsGrid.tsx:65 | One formatted timestamp per series entry, in order. |
| RoomsGrid.SeriesTemperatures | frontend/src/components/RoomsGrid.tsx:66 | One temperature per series entry, a missing one becoming 0. |
| LineChartCompare.DeviceLines | frontend/src/components/LineChartCompare.tsx:47 | One `device_metric` key per metric, in metric order. |
| LineChartCompare.InitialActiveLines | frontend/src/components/LineChartCompare.tsx:46-48 | One initial line per device × metric pair: |devices|·|metrics| keys. |
| LineChartCompare.InitialActiveLinesLayout | frontend/src/components/LineChartCompare.tsx:46-48 | The initial lines are every device × metric pair, device-major: pair (d, m) sits at position d·|metrics| + m, which lies inside the list. |
| LineChartCompare.HandleLegendClick | frontend/src/components/LineChartCompare.tsx:50-56 | The key is active afterwards exactly when it was not; an inactive key is appended. |
| LineChartCompare.TwoClicksRestoreMembership | frontend/src/components/LineChartCompare.tsx:50-56 | Clicking the same key twice restores whether it is active. |
| LineChartCompare.TwoClicksRestoreInactive | frontend/src/components/LineChartCompare.tsx:50-56 | For an inactive key, two clicks give back the same list. |
| LineChartCompare.FilterNoneRemoved | frontend/src/components/LineChartCompare.tsx:53 | Filtering out an absent key changes nothing. |
| LineChartCompare.ClickKeepsOtherKeys | frontend/src/components/LineChartCompare.tsx:50-56 | The keys other than the clicked one are the same list, in the same order and number, before and after a click. |
| LineChartCompare.FilterTwice | frontend/src/components/LineChartCompare.tsx:53 | Removing a key twice is removing it once. |
| LineChartCompare.ProcessedData | frontend/src/components/LineChartCompare.tsx:58-77 | One entry per minute that occurs (items without a timestamp skipped), sorted by strictly ascending minute. Each entry holds the values of that minute's items. |
| LineChartCompare.GroupByMinute | frontend/src/components/LineChartCompare.tsx:59-73 | The map's keys are exactly the minutes that occur, each with its bucket's values; the insertion order has no repeats. |
| LineChartCompare.ApplyItem | frontend/src/components/LineChartCompare.tsx:67-72 | The inner loop writes each metric's line key exactly when the item's value is defined. |
| LineChartCompare.UnsortedEntries | frontend/src/components/LineChartCompare.tsx:74-75 | The entries taken from the map are one per minute that occurs, with distinct minutes, each holding its bucket's values. |
| LineChartCompare.SortedEntries | frontend/src/components/LineChartCompare.tsx:74-76 | Sorting keeps each entry's values and keeps one entry for every minute. |
| LineChartCompare.AbsentBucketIsEmpty | frontend/src/components/LineChartCompare.tsx:63-65 | A minute that has not occurred has no values. |
| LineChartCompare.SameEntries | frontend/src/components/LineChartCompare.tsx:74-76 | Sorting keeps the same entries. |
| LineChartCompare.InsertStrict | frontend/src/components/LineChartCompare.tsx:74-76 | Inserting an entry of a new minute keeps the minutes strictly ascending. |
| LineChartCompare.PrependStrict | frontend/src/components/LineChartCompare.tsx:76 | An entry earlier than all others can go in front while keeping the minutes strictly ascending. |
| LineChartCompare.SortStrict | frontend/src/components/LineChartCompare.tsx:74-76 | Sorting entries of distinct minutes gives strictly ascending minutes. |
| LineChartCompare.LaterItemWins | frontend/src/components/LineChartCompare.tsx:67-72 | For any metric of the chart, a later item of the same minute with a defined value for it overwrites that line's value. |
| LineChartCompare.ApplyMetricsWrites | frontend/src/components/LineChartCompare.tsx:67-72 | Whatever the bucket held, the inner loop leaves an item's defined value for any listed metric on that metric's line. |
| LineChartCompare.UndefinedValuesAreSkipped | frontend/src/components/LineChartCompare.tsx:69 | An item with neither reading changes nothing. |
| LineChartCompare.NoValuesNoWrites | frontend/src/components/LineChartCompare.tsx:69-71 | Without defined values the inner loop writes nothing. |
| RoomCompare.SelectionOf | frontend/src/components/RoomCompare.tsx:80-89 | A room can be selected exactly when it has a device; the selection is the room's name and its first device's MAC. |
| RoomCompare.FindRoom | frontend/src/components/RoomCompare.tsx:101-103 | A room with that name when one exists; none exactly when no room has the name. |
| RoomCompare.FindRoomIsFirst | frontend/src/components/RoomCompare.tsx:101-103 | The room found is the first with that name. |
| RoomCompare.FindByMac | frontend/src/components/RoomCompare.tsx:136-141 | A measurement with the selected MAC, and the first one that has it; none exactly when none has it. |
| RoomCompare.FilterData | frontend/src/components/RoomCompare.tsx:184-200 | Only measurements of the data strictly between start and end, and every such measurement; a null range keeps nothing. |
| RoomCompare.FilterDataMultiplicity | frontend/src/components/RoomCompare.tsx:184-200 | Each measurement strictly inside the range is kept exactly as often as the data holds it, and no other measurement is kept. |
| RoomCompare.BoundaryRowServerKeepsClientDrops | frontend/src/components/RoomCompare.tsx:193 | A row at the window's start is returned by the server's inclusive query and dropped by the exclusive client filter. |
| RoomCompare.Difference | frontend/src/components/RoomCompare.tsx:202-210 | A − B when both readings are truthy, otherwise 0. |
| RoomCompare.TemperatureDifference | frontend/src/components/RoomCompare.tsx:202-205 | A's temperature minus B's when both measurements exist with a non-zero temperature; 0 when either measurement or temperature is missing or zero. |
| RoomCompare.HumidityDifference | frontend/src/components/RoomCompare.tsx:207-210 | The same for the humidity. |
| RoomCompare.DifferenceIsAntisymmetric | frontend/src/components/RoomCompare.tsx:202-210 | Swapping the rooms negates the difference. |
| RoomCompare.ZeroReadingGivesNoDifference | frontend/src/components/RoomCompare.tsx:203 | A reading of exactly 0 gives difference 0. |
| RoomCompare.Compare.constructor | frontend/src/components/RoomCompare.tsx:50-65 | The initial state: nothing selected or loaded, temperature shown, humidity hidden, the last day as range. |
| RoomCompare.Compare.LoadRooms | frontend/src/components/RoomCompare.tsx:67-99 | Rooms are auto-selected only when at least two exist: A is rooms[0] and B is rooms[1], each by its first device. A room without devices stops the remaining updates. A failed load changes nothing. |
| RoomCompare.Compare.OnChangeSelectA | frontend/src/components/RoomCompare.tsx:105-114 | A known room replaces selection A; an unknown name changes nothing. |
| RoomCompare.Compare.OnChangeSelectB | frontend/src/components/RoomCompare.tsx:116-125 | The same for selection B. |
| RoomCompare.Compare.FetchLatestMeasurements | frontend/src/components/RoomCompare.tsx:127-155 | Fetches only with both selections. Each side then gets the first latest measurement with its MAC, or nothing. |
| RoomCompare.Compare.FetchHistoricData | frontend/src/components/RoomCompare.tsx:157-182 | Fetches only with both selections and a range. Both answers replace the historic data; a failure changes nothing. |
| RoomCompare.Compare.SetHistoric | frontend/src/components/RoomCompare.tsx:170-173 | Both rooms' history is replaced together and the filtered data follows it; selections, latest data, flags and range are unchanged. |
| RoomCompare.Compare.SetTimeRange | frontend/src/components/RoomCompare.tsx:184-200 | A new range re-filters the data; a null range empties both sides. |
| RoomCompare.Compare.RefreshFiltered | frontend/src/components/RoomCompare.tsx:184-200 | The filtered data follows the historic data and the range. |
| RoomCompare.Compare.Differences | frontend/src/components/RoomCompare.tsx:202-210 | The two differences of the latest measurements. |
| RoomCompare.Compare.ChartMetrics | frontend/src/components/RoomCompare.tsx:218-234 | Temperature is present exactly when shown and humidity exactly when shown, temperature first. |
| MeasurementTable.Table.constructor | frontend/src/components/MeasurementTable.tsx:10-16 | Not loading, no data, current 1, page size 10, total 0. |
| MeasurementTable.Table.FetchMeasurements | frontend/src/components/MeasurementTable.tsx:18-22 | Sets loading and requests offset (page−1)·pageSize and limit pageSize. |
| MeasurementTable.Table.OnFetchSettled | frontend/src/components/MeasurementTable.tsx:23-35 | On success the data and total come from the response, with current and pageSize unchanged; either way loading ends. |
| MeasurementTable.Table.HandleTableChange | frontend/src/components/MeasurementTable.tsx:42-44 | The new pagination replaces the old one wholesale. |
| MeasurementTable.ConsecutivePagesAreAdjacent | frontend/src/components/MeasurementTable.tsx:20 | Page p+1 starts where page p ends. |
| MeasurementTable.ConsecutivePagesTile | frontend/src/components/MeasurementTable.tsx:20-22 | For rows with distinct timestamps, two consecutive pages the server returns neither overlap nor leave a gap. |
| MeasurementTable.TileAt | frontend/src/components/MeasurementTable.tsx:20-22 | For rows with distinct timestamps, two pages at adjacent offsets make one page of double size. |
| MeasurementTable.PageBeforeFirstIsRejected | frontend/src/components/MeasurementTable.tsx:20-22 | A page below 1 asks for a negative offset, which the server rejects. |
| CurrentTrend.MondayOfWeek | frontend/src/components/CurrentTrend.tsx:10-17 | A Monday at 00:00:00.000 that is at most 6 days before the date, in the date's week. |
| CurrentTrend.WeekStartIsUnique | frontend/src/components/CurrentTrend.tsx:10-17 | Only one week start lies within the week before a date, so the result is determined; on a Monday it is that day's start. |
| CurrentTrend.EndOfDay | frontend/src/components/CurrentTrend.tsx:19-23 | The same date at 23:59:59.999. |
| CurrentTrend.WeekRanges | frontend/src/components/CurrentTrend.tsx:82-91 | This week runs from its Monday to the end of today. Last week starts exactly 7 days earlier and ends just before this week starts. |
| CurrentTrend.ToNumberOrNull | frontend/src/components/CurrentTrend.tsx:26-29 | Null exactly for values whose `Number(...)` is not finite, else that number. |
| CurrentTrend.NullAverageBecomesZero | frontend/src/components/CurrentTrend.tsx:26-29 | The `null` an average endpoint sends for an empty week becomes 0. |
| CurrentTrend.PercentChangeSign | frontend/src/components/CurrentTrend.tsx:44-48 | The change is positive exactly for a rise above a positive, a fall below a negative or a rise from 0 previous value; it is 0 exactly for no change or a non-rise from 0. |
| CurrentTrend.PercentChange | frontend/src/components/CurrentTrend.tsx:44-48 | For a non-zero previous value, the change times the previous value is 100·(current − previous); for 0, it is 100 for a rise and 0 otherwise. |
| CurrentTrend.SignOfQuotient | frontend/src/components/CurrentTrend.tsx:47 | The sign of (current − previous)/previous. |
| CurrentTrend.CalculateDevelopment | frontend/src/components/CurrentTrend.tsx:38-62 | With either value null: no development, no arrow, colour 'inherit'. A previous 0 gives 100 for a rise and 0 otherwise, else the percentage change. Up and green exactly above 0, down and red exactly below 0, grey otherwise. |
| CurrentTrend.EmptyWeekReadsAsFullDrop | frontend/src/components/CurrentTrend.tsx:103-104 | An empty week after a positive one shows −100 percent. |
| JsNumbers.AtLeastIsMonotone | frontend/src/pages/test/index.tsx:13-16 | A larger number meets every lower bound a smaller one meets. |
| JsNumbers.ToNumber | frontend/src/components/CurrentTrend.tsx:27 | `Number(...)`: numbers unchanged, null 0, undefined and objects NaN, booleans 1/0. |
| WifiSignal.WifiSignalStrength | frontend/src/pages/test/index.tsx:12-23 | 'wifi' exactly at or above −60, 'wifi_2_bar' exactly from −80 below −60, 'wifi_1_bar' otherwise (NaN included). |
| WifiSignal.StrongerSignalNeverFewerBars | frontend/src/pages/test/index.tsx:12-23 | A stronger RSSI never shows fewer bars. |
| WifiSignal.UnknownRssiIsWeak | frontend/src/pages/test/index.tsx:143 | An RSSI text that is not a number shows one bar. |
| WifiSignal.BoundariesBelongToStrongerClass | frontend/src/pages/test/index.tsx:13-18 | −60 is strong and −80 is medium. |
| DeviceCodec.Property | frontend/src/generated/models/Device.ts:57-58 | A property's value, or undefined when absent or not an object. |
| DeviceCodec.InstanceOfDevice | frontend/src/generated/models/Device.ts:39-45 | True exactly when both "macAddress" and "name" are present. |
| DeviceCodec.DeviceFromJson | frontend/src/generated/models/Device.ts:47-60 | Null and undefined pass through; anything else becomes an object of exactly the two properties. |
| DeviceCodec.DeviceToJson | frontend/src/generated/models/Device.ts:62-74 | Undefined to undefined, null to null, a device to its two properties. |
| DeviceCodec.RoundTrip | frontend/src/generated/models/Device.ts:47-74 | Decoding an encoded device gives it back. |
| DeviceCodec.DecodedPassesInstanceCheck | frontend/src/generated/models/Device.ts:39-60 | A decoded object passes the instance check even if the input lacked the properties. |
| DeviceCodec.ExtraPropertiesAreDropped | frontend/src/generated/models/Device.ts:55-59 | Other properties do not affect decoding. |
| ApiClient.ResolveBasePath | frontend/src/apiClient.tsx:8-24 | A non-blank build-time URL wins, then a non-blank runtime override. Then, in a browser, `protocol//hostname:9247`; outside one, 'http://localhost:9247'. |
| ApiClient.NeverBlank | frontend/src/apiClient.tsx:8-24 | The base path is never blank. |
| ApiClient.BlankBuildUrlIsIgnored | frontend/src/apiClient.tsx:9-10 | A blank build-time URL counts as unset. |
| OtaUpdate.BuildCommand | src/main/kotlin/OTAUpdateService.kt:242-282 | The command grown step by step is the command line of the configuration. |
| OtaUpdate.CommandShape | src/main/kotlin/OTAUpdateService.kt:243-279 | Starts with "python" and the script, has "-i" and the device after the flags, and ends with "-f" and the image. |
| OtaUpdate.OptionsInOrder | src/main/kotlin/OTAUpdateService.kt:256-271 | The "-p", "-a" and "-t" pairs follow "-i" in that order, each exactly when set. |
| OtaUpdate.NumbersAreNotNames | src/main/kotlin/OTAUpdateService.kt:259-270 | A printed port or timeout is never mistaken for a flag or option name. |
| OtaUpdate.FlagsPresentExactlyWhenSet | src/main/kotlin/OTAUpdateService.kt:246-276 | "--debug", "--progress" and "--spiffs" occur exactly when their flags are true. |
| OtaUpdate.OptionsPresentExactlyWhenSet | src/main/kotlin/OTAUpdateService.kt:259-271 | "-p", "-a" and "-t" occur exactly when port, password and timeout are set. |
| OtaUpdate.InParts | src/main/kotlin/OTAUpdateService.kt:242-282 | A word occurs in the command exactly when it occurs in one of its nine parts. |
| OtaUpdate.OnlyNamedWords | src/main/kotlin/OTAUpdateService.kt:242-282 | A flag or option name occurs only in the part that contributes it. |
| OtaUpdate.UploadConfig | src/main/kotlin/OTAUpdateService.kt:182-197 | No port, password or timeout, and no SPIFFS. |
| OtaUpdate.UploadWithAuthConfig | src/main/kotlin/OTAUpdateService.kt:202-219 | The plain upload with the password set. |
| OtaUpdate.UploadSpiffsConfig | src/main/kotlin/OTAUpdateService.kt:224-240 | The plain upload of the SPIFFS image with the SPIFFS flag set. |
| OtaUpdate.PlainUploadCommand | src/main/kotlin/OTAUpdateService.kt:182-197 | With its defaults the plain upload passes both flags, the device and the image only. |
| OtaUpdate.StandardConfig | src/main/kotlin/OTAUpdateService.kt:447-459 | Debug and progress on, the optional password, nothing else. |
| OtaUpdate.SpiffsConfig | src/main/kotlin/OTAUpdateService.kt:464-477 | The standard configuration with SPIFFS on; the only helper that sets it. |
| OtaUpdate.CustomConfig | src/main/kotlin/OTAUpdateService.kt:482-498 | The standard configuration with a port (default 3232) and a timeout (default 30). |
| OtaUpdate.CustomDefaultsCommand | src/main/kotlin/OTAUpdateService.kt:482-498 | With its defaults the custom configuration passes "-p 3232" and "-t 30". |
| OtaUpdate.CommandLength | src/main/kotlin/OTAUpdateService.kt:242-282 | The command has six fixed words, one more per flag set and two more per option set. |
| OtaUpdate.Filled | src/main/kotlin/OTAUpdateService.kt:317 | The number of '=' characters in the bar, hence at most its length. |
| OtaUpdate.ProgressFromMatch | src/main/kotlin/OTAUpdateService.kt:315-325 | The filled count is the number of '=' in the bar, the total is the bar's length, the bar is kept, and the percentage is the parsed digits or 0. |
| OtaUpdate.FullBarIsAllFilled | src/main/kotlin/OTAUpdateService.kt:317-318 | The bar is full exactly when it is all '='. |
| OtaUpdate.FormatProgress | src/main/kotlin/OTAUpdateService.kt:503-510 | The text starts with "Upload: " and ends with " bars)". |
| OtaUpdate.BarCountsReadBack | src/main/kotlin/OTAUpdateService.kt:509 | In the tail "% (f/t bars)" the text between "% (" and the first '/' reads back as f, and the text between that '/' and " bars)" reads back as t. |
| OtaUpdate.FormatProgressDeterminesCounts | src/main/kotlin/OTAUpdateService.kt:503-510 | Two progress values with the same text have the same percentage, filled bars and total bars: the text loses none of the three numbers. |
| OtaUpdate.ProgressTail | src/main/kotlin/OTAUpdateService.kt:509 | What follows the percentage starts with '%' and ends with " bars)". |
| OtaUpdate.NoSeparatorInInt | src/main/kotlin/OTAUpdateService.kt:509 | A printed Int holds no character other than '-' and digits, so neither '%' nor '/' occurs in it and the first one ends the number. |
| OtaUpdate.PercentageReadsBack | src/main/kotlin/OTAUpdateService.kt:503-510 | In "Upload: p% (f/t bars)" the text between "Upload: " and the first '%' reads back as p, and the rest is the tail "% (f/t bars)". |
| Numerals.ToIntOrNull | src/main/kotlin/Server.kt:101 | Kotlin `toIntOrNull`: a value exactly when the text is an optional sign and at least one digit whose signed value fits in Int, and then that value; the empty text gives none. |
| Numerals.ToIntOrNullExamples | src/main/kotlin/Server.kt:101 | Leading zeros and a leading '+' are accepted ("007" is 7, "+5" is 5, "-12" is −12); a bare sign and a non-digit are not. |
| Numerals.PastIntMaxIsNull | src/main/kotlin/Server.kt:101 | The digits of 2147483648, one past the largest Int, read as null. |
| Numerals.NatToString | src/main/kotlin/OTAUpdateService.kt:260 | Decimal digits, at least one. |
| Numerals.IntToString | src/main/kotlin/OTAUpdateService.kt:260 | Kotlin `Int.toString`: never empty. |
| Numerals.NatToStringValue | src/main/kotlin/OTAUpdateService.kt:260 | The digits denote the number. |
| Numerals.IntToStringRoundTrip | src/main/kotlin/Server.kt:101 | Kotlin's `toIntOrNull` reads back what `Int.toString` writes. |
| Sequences.Filter | frontend/src/components/LineChartCompare.tsx:53 | At most as long as the input; only elements of the input that satisfy the predicate, and every element that does. |
| Sequences.FilterMultiplicity | frontend/src/components/LineChartCompare.tsx:53 | Each element that satisfies the predicate is kept exactly as often as the input holds it, and no other element is kept. |
| Sequences.FilterAppend | frontend/src/components/LineChartCompare.tsx:53-54 | Filtering distributes over concatenation. |
| Sequences.FilterNone | src/main/kotlin/JooqProvider.kt:286 | A filter nothing passes is empty. |
| Sequences.SortBy | frontend/src/components/RoomsGrid.tsx:35 | A sort by a total preorder is a permutation of the same length. |
| Sequences.Insert | frontend/src/components/RoomsGrid.tsx:35 | Insertion adds exactly one occurrence of the element. |
| Sequences.SortBySorted | frontend/src/components/RoomsGrid.tsx:35 | The result is sorted. |
| Sequences.InsertSorted | frontend/src/components/RoomsGrid.tsx:35 | Inserting into a sorted sequence keeps it sorted. |

## Left out

- Database provisioning and JDBC plumbing (`initializeDatabase`, connections, `withDslContext`). The store is an
  in-memory table.
- `toMeasurement`'s defensive defaults and the `Double`→`Float` conversions. Readings are exact reals, and no
  float rounding is modelled anywhere (nor JavaScript's `toFixed`).
- The `-1` that `saveMeasurement` returns when the database gives no id back. An insert that succeeds always
  returns its id here.
- Store.MeasurementTable.SaveMeasurement: whether PostgreSQL uses up a SERIAL value on an insert that then fails
  a length check is not modelled. The sequence advances on every insert while it lasts.
- Store.GetAllMeasurements and the other sorted reads: the order among rows with equal timestamps is left open by
  SQL. The model fixes one stable order, and the contracts claim only what every order gives.
- Store.PagesTile: stated only for rows with distinct timestamps. With ties, separately issued page queries may
  order the tied rows differently and overlap (`Store.TiesLetPagesOverlap`).
- Store.AllPagesCoverTable: stated only for rows with distinct timestamps, for the same reason.
- MeasurementTable.ConsecutivePagesTile: stated only for rows with distinct timestamps, for the same reason.
- MeasurementTable.TileAt: stated only for rows with distinct timestamps, for the same reason.
- Numerals.ToIntOrNull: Kotlin reads any Unicode decimal digit (`Character.digit`), for example Arabic-Indic or
  full-width digits. The model reads only the ASCII digits '0' to '9' and rejects the others.
- RequestTypes.Decode: Jackson's default scalar coercion is not modelled. Jackson accepts a quoted number such as
  "22.5" for a numeric field and a number for a text field. The model rejects both as a value of the wrong kind.
- RoomsGrid.PushByName: the grouping object is a plain `{}`. A device name that names an inherited
  `Object.prototype` member, such as "constructor", "toString" or "__proto__", finds that member instead of a
  missing list, and the source's `push` on it throws. The model's map starts every name with an empty list.
- RoomsGrid.MeasurementsByDevice: the same `Object.prototype` names are not modelled, for the same reason.
- RoomsGrid.LatestMeasurements: for such a name the source takes the inherited member as the previous entry. Its
  missing timestamp reads as the current time, so the source records the name only for a measurement later than
  that. The model records the name's latest measurement.
- Store.GetAllDevices: ORDER BY mac leaves open the order among groups with the same MAC, for example several
  groups with a null MAC, or one MAC under two names. The model lists such groups in the order they first occur,
  and the window equation in its contract fixes that order. Which of those groups a window boundary keeps is
  therefore the model's choice, not the database's.
- Store.RoomDevices: takes its devices from the default device page, so it inherits the same choice among groups
  with equal MAC.
- Store.GetAllRooms: builds each room from the default device page, so it inherits the same choice among groups
  with equal MAC.
- Store.DistinctNames: SELECT DISTINCT has no ORDER BY, so the room order is unspecified. The model takes
  first-occurrence order.
- String collation: ORDER BY mac is modelled as code-point order. A database collation may differ.
- The http4k lens machinery, routing and OpenAPI metadata. Contract-declared lenses could reject a request
  before a handler runs, which is not modelled. The query lenses are one case. The POST route's body lens is
  another: the route declares `receiving(request to TemperatureHumidityRequest(...))` (src/main/kotlin/Server.kt:419-433),
  and the contract's pre-flight extraction may answer an undecodable body with the contract's own 400 before
  `handleRequest` runs. Header order is modelled only as far as `withCorsHeaders` appends its four headers:
  for a non-null average the source's `averageValueBodyLens.inject` sets Content-Type after them
  (src/main/kotlin/Server.kt:215-220, 242-247), while the model's response keeps the CORS headers last. Server.PlanRequest and Server.HandleRequest describe the handler as written, with its own
  decoding and its own 400 "Invalid request body: ". Jackson serialisation becomes abstract payload values.
- The "unknown type of Request" branch of `handleRequest` is unreachable once decoding yields one of the three
  variants, so it has no model.
- ISO-8601 parsing and `LocalDateTime.now()`. Parsing is the parameter `parseTime`, and the clock is `now`.
- Number rendering in the acknowledgment (Kotlin `Double.toString`) is the parameter `render`.
- Header name matching folds ASCII letters only.
- The OTA process execution, `validateEspotaTool`, `getVersion`, `pingDevice`, the progress regular expression
  itself, `main()`, the mDNS discovery service and `MdnsAdvertiser`/`Main`.
- JSX rendering, hooks and the ordering of asynchronous fetches. The state updates are methods called in the order
  the callbacks run.
- Date formatting, local-time parsing and daylight saving time. Local time is a linear millisecond count with
  whole-minute buckets, so a week is exactly 7·86 400 000 ms.
- RoomsGrid.MeasurementsByDevice: the in-place `sort` of each list is modelled as a sort of the value. The
  key order of `Object.keys` / `Object.values` is not modelled: maps are unordered.
- LineChartCompare.ProcessedData: the `Map` iteration order before the sort is recorded but not exposed.
- RoomCompare: `allHistoricData` and `selectedDeviceNames` (relabelling for the chart) and the user messages are
  not modelled.
- JsNumbers.ToNumber: the parse of strings is the parameter `parse`, and arrays and objects with `valueOf` are not
  modelled.
- The remaining frontend files (dashboards, charts, icons, locale tables) are presentation only.

# ICA shopping-list sensors, modelled in Dafny

This project models the logic of the `ica_shopping` Home Assistant
integration. The integration publishes an ICA shopping list as a sensor. Its
native value is the item count. Its attributes are `list_name`, `item_<n>`
for unstruck rows and `striked_item_<n>` for struck rows. It also has an
access-token sensor and a (currently unwired) last-purchase sensor.

Modules, one per concept:

- `Documents` (`documents.dfy`): the JSON documents the sensors read. Every key
  the source reads with `dict.get(key, default)` or `dict[key]` is an `Option`,
  and the accessors `IsStruck`, `TextOf`, `RowsOf`, `NameOf` and `TransactionsOf`
  apply the source's defaults.
- `AttributeKeys` (`attribute_keys.dfy`): renders a counter in decimal, as an
  f-string does, and builds the attribute names. `Classify` parses a name back
  into its family and counter.
- `Projector` (`projector.dfy`): `_update_state`. `Project` is the projection
  the sensors use, built by `Fold`, which is the loop written as a recursion over
  prefixes of the rows. Each `Step` is one iteration. `ProjectAttributes` is the
  loop itself, with its two counters. `Described` is an independent declarative
  reference built from the struck and unstruck subsequences. Besides the map,
  the projection records its keys in insertion order, which is the order a
  Python dict iterates in.
- `Sensors` (`sensors.dfy`): the `async_update` decisions of the three sensors.
  Each is a pure transition over `State(value, attributes)`. The network is
  represented by outcome datatypes, and the result records whether an
  exception escaped.
- `Setup` (`setup.dfy`): the option-over-data configuration lookup of
  `async_setup_entry`.

Behaviour of the code worth noting:

- The attribute map is rebuilt from scratch on every successful refresh
  (sensor.py:63 and :78). Stale numbered keys therefore never survive a shrink.
- The keys are inserted in row order (sensor.py:68-76). Where the struck rows sit
  among the unstruck ones therefore changes the order of the keys, but not the map.
- The token sensor's `async_update` (sensor.py:226-228) has no exception
  handler. A failing token fetch therefore escapes to the host
  (`Refresh.raised`), unlike in the other two sensors.
- The last-purchase sensor is not atomic. The date is assigned (line 191) before
  the attribute map is built (lines 192-197), so a missing field keeps the new
  date beside the old attributes.
- `entry.data[key]` is evaluated eagerly as the default of `options.get`
  (sensor.py:20-21). A key missing from the entry data therefore fails the
  setup even when the options carry it.

## Model

| member | source | states |
|---|---|---|
| AttributeKeys.Decimal | custom_components/ica_shopping/sensor.py:70-73 | a counter in a key is rendered as a non-empty string of decimal digits with no leading zero, as an f-string renders a positive integer |
| AttributeKeys.DecimalRoundTrip | custom_components/ica_shopping/sensor.py:70-73 | reading back the decimal rendering of a counter used in a key gives the counter |
| AttributeKeys.Classify | custom_components/ica_shopping/sensor.py:63-76 | parses an attribute name into its family and counter, and recognises only the canonical `list_name`, `item_<n>` and `striked_item_<n>` |
| AttributeKeys.ClassifyItemKey | custom_components/ica_shopping/sensor.py:73 | parsing `item_<n>` recovers the family "item" and the counter n |
| AttributeKeys.ClassifyStrikedKey | custom_components/ica_shopping/sensor.py:70 | parsing `striked_item_<n>` recovers the family "struck" and the counter n |
| AttributeKeys.KeysDistinct | custom_components/ica_shopping/sensor.py:63-76 | `list_name`, the `item_` family and the `striked_item_` family never share a name, and within a family distinct counters give distinct names |
| Projector.InsertKey | custom_components/ica_shopping/sensor.py:76 | assigning a key keeps the position of a key already present and appends a new one, as a dict does |
| Projector.StepFilesOneRow | custom_components/ica_shopping/sensor.py:68-76 | one iteration (`Step`) files the row's text under its family's current counter, advances exactly that counter by one, leaves every other key unchanged, and lists a new key last |
| Projector.Fold | custom_components/ica_shopping/sensor.py:66-76 | after the loop, each counter is one past the number of rows of its own family |
| Projector.SelectPartition | custom_components/ica_shopping/sensor.py:68-74 | every row falls into exactly one family: unstruck plus struck equals the row count |
| Projector.AddUnstruck | custom_components/ica_shopping/sensor.py:72-76 | filing an unstruck row under the next item number writes a key not yet present and keeps the reference description |
| Projector.AddStruck | custom_components/ica_shopping/sensor.py:69-71 | filing a struck row under the next struck number writes a key not yet present and keeps the reference description |
| Projector.StepKeepsDescribed | custom_components/ica_shopping/sensor.py:68-76 | one iteration files its row under a key not yet in the map and keeps the reference description true for the rows seen so far |
| Projector.FoldDescribed | custom_components/ica_shopping/sensor.py:63-76 | the loop's map matches the reference description and has exactly one key per row plus `list_name` |
| Projector.FoldOrder | custom_components/ica_shopping/sensor.py:63-76 | the loop lists each key once, `list_name` first and then each row's key in row order, and lists exactly the keys of the map |
| Projector.Project | custom_components/ica_shopping/sensor.py:58-78 | the count is the number of rows, and the map has 1 + count keys, each listed once in its key order |
| Projector.ProjectDescribed | custom_components/ica_shopping/sensor.py:58-78 | the count is the number of rows, and the map holds `list_name` plus the k-th unstruck text at `item_k` and the k-th struck text at `striked_item_k`, with no other keys |
| Projector.DescribedUnique | custom_components/ica_shopping/sensor.py:63-78 | the reference description fixes the map completely, so the projection is deterministic |
| Projector.ProjectCharacterized | custom_components/ica_shopping/sensor.py:58-78 | a map is the projection of a document exactly when it fits the reference description (both directions) |
| Projector.KeyCount | custom_components/ica_shopping/sensor.py:61-76 | the map has exactly 1 + count keys, and the unstruck and struck counts add up to the count |
| Projector.NoRows | custom_components/ica_shopping/sensor.py:59-65 | a document whose `rows` is absent or empty projects to count 0 and a map holding only `list_name` |
| Projector.SelectLocates | custom_components/ica_shopping/sensor.py:68-74 | the row at position i is the (1 + earlier rows of its family)-th member of its family |
| Projector.RowPublished | custom_components/ica_shopping/sensor.py:66-76 | each row's text is published under its family's key, numbered one past the rows of that family before it in source order |
| Projector.NumbersFollowSourceOrder | custom_components/ica_shopping/sensor.py:68-74 | within a family, a later row gets a strictly larger number |
| Projector.CountersIndependent | custom_components/ica_shopping/sensor.py:66-74 | a row advances only its own family's counter, by one |
| Projector.PublishedOrder | custom_components/ica_shopping/sensor.py:63-78 | the published map iterates `list_name` first and then each row's key in row order, with no key listed twice |
| Projector.MapDependsOnFamiliesOnly | custom_components/ica_shopping/sensor.py:66-76 | two lists with the same name and the same unstruck and struck rows publish the same map, however the families interleave |
| Projector.SwapKeepsFamilies | custom_components/ica_shopping/sensor.py:68-76 | swapping two adjacent rows of different families, anywhere in the list, leaves the unstruck rows and the struck rows each as they were |
| Projector.OrderFollowsStruckPosition | custom_components/ica_shopping/sensor.py:63-76 | for any list and any name, swapping a struck row with an adjacent unstruck row keeps the published map but changes its key order |
| Projector.BareRowDefaults | custom_components/ica_shopping/sensor.py:69-76 | a row with neither `text` nor `isStriked`, at any position, counts as unstruck and is published as `""` under its item number |
| Projector.MissingNameDefaults | custom_components/ica_shopping/sensor.py:63-65 | a document without `name` publishes `list_name = ""` |
| Projector.WeeklyExample | custom_components/ica_shopping/sensor.py:58-78 | Milk, struck Soap and Bread under "Weekly" project to count 3 with `item_1`, `striked_item_1` and `item_2`, listed in that order after `list_name` |
| Projector.ProjectAttributes | custom_components/ica_shopping/sensor.py:58-78 | the loop with two 1-based counters returns the row count and a map that fits the reference description, with 1 + count keys listed as `list_name` followed by each row's key in row order |
| Sensors.InitialState | custom_components/ica_shopping/sensor.py:48-49 | a sensor starts with no value and no attributes; the other two sensors start the same way (lines 132-134 and 216-218) |
| Sensors.ListUpdate | custom_components/ica_shopping/sensor.py:81-99 | timeout, not-found and any other `Exception` leave the state unchanged and never escape; a fetched list sets the count and a map fitting the reference description |
| Sensors.ListUpdateReplacesWholeMap | custom_components/ica_shopping/sensor.py:63-78 | the state after a successful refresh does not depend on the prior state, and no prior key outside the new list's admissible keys survives |
| Sensors.ShrunkListDropsStaleItems | custom_components/ica_shopping/sensor.py:63-78 | after a refresh to a list with fewer unstruck rows than n, `item_n` is absent |
| Sensors.FailedRefreshKeepsLastGood | custom_components/ica_shopping/sensor.py:84-93 | a failed refresh after a successful one keeps the last good value and attributes |
| Sensors.ListRunShowsLastSuccess | custom_components/ica_shopping/sensor.py:81-99 | over any run of refreshes the sensor shows the projection of the most recent successful fetch, or its starting state if no fetch succeeded |
| Sensors.UnknownUntilFirstSuccess | custom_components/ica_shopping/sensor.py:48-99 | a list sensor has no value exactly until its first successful fetch |
| Sensors.TokenUpdate | custom_components/ica_shopping/sensor.py:226-228 | the value becomes the token when it is non-empty, otherwise exactly "Unavailable"; attributes are untouched; a raising fetch escapes and changes nothing |
| Sensors.TokenValueNeverEmpty | custom_components/ica_shopping/sensor.py:228 | after an update that did not raise, the token sensor shows a non-empty value |
| Sensors.Take | custom_components/ica_shopping/sensor.py:191 | the date is cut to a prefix of length min(10, length) |
| Sensors.PurchaseAttributes | custom_components/ica_shopping/sensor.py:192-197 | the attributes are exactly `transaction_id`, `belopp`, `rabatt` and `butik`, copied verbatim from the transaction |
| Sensors.PurchaseUpdate | custom_components/ica_shopping/sensor.py:151-202 | an empty token, timeout, exception, 403 or other non-200 status changes nothing; an empty history gives "Inga köp" and `{}`; otherwise the date prefix is published, with the new attributes if all four fields exist and the old ones if any is missing; a missing date changes nothing; nothing escapes |
| Sensors.AccessDeniedChangesNothing | custom_components/ica_shopping/sensor.py:176-178 | status 403 leaves the state unchanged without raising |
| Sensors.PartialUpdateMixesPurchases | custom_components/ica_shopping/sensor.py:190-201 | for any prior state, any delivered history whose newest transaction has a date but no `storeMarketingName` publishes that date (cut to 10 characters) while the previous attributes stay, without raising |
| Setup.Lookup | custom_components/ica_shopping/sensor.py:20-21 | an option value takes precedence over the entry data; a key missing from the data fails even when the options carry it |
| Setup.ResolveConfig | custom_components/ica_shopping/sensor.py:19-21 | the list id and session id each resolve option-over-data, and setup fails exactly when either is missing from the data |
| Setup.DataUsedWithoutOptions | custom_components/ica_shopping/sensor.py:20-21 | with no options the data values are used unchanged |

## Left out

- Entity lifecycle (`async_added_to_hass`, `async_will_remove_from_hass`, the `ica_shopping_refresh` event subscription, `async_update_ha_state`): host-platform plumbing with no decision logic.
- aiohttp, `asyncio.wait_for` and scheduling: a timeout, an exception and a response are inputs (`ListFetch`, `TokenFetch`, `PurchaseTokenFetch`, `HistoryFetch`), not time or concurrency. Cancellation (`asyncio.CancelledError`, a `BaseException` that neither handler catches) is not modelled.
- `datetime.now()`, the year-month URL, the request headers and all logging: clock and I/O, with no effect on the published state.
- The API client (`get_list_name`, `get_list_by_id`, `_get_token_from_session_id`): its code is not part of this model; only the outcomes of its calls are.
- The fallback list name "Okänd lista" (sensor.py:23-27) and the entity metadata (`unique_id`, `device_info`, unit, `EntityCategory`): they only feed static display metadata.
- Malformed documents: `rows` that is present but not a list, rows that are not objects, and non-string `text` or `name` values are not representable. In the source, a row that is not an object raises inside the loop after line 61 has set the count, and that exception is swallowed. `isStriked` is a boolean, so JSON values with other truthiness are not modelled.
- Sensors.State: keeps a sensor's attributes as a map without their iteration order. The projector records that order (`Projection.order`), but the sensor transitions carry only the map, and the last-purchase attributes' order is not modelled.
- Sensors.PurchaseAttributes: the copied values are modelled as strings, while the source copies arbitrary JSON values such as numbers verbatim.

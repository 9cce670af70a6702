/**
 The update decisions of the three sensors, as pure transitions over the
 state a sensor publishes: its native value and its attribute map.

 The network is abstracted into outcome datatypes: a timeout, an exception,
 or the value the remote call returned. Each update yields the next state and
 whether an exception escapes to the host platform.
 */
module Sensors {
  import opened Documents
  import opened AttributeKeys
  import opened Projector

  /** What a sensor publishes. `value` is `None` until the first successful update. */
  datatype State<V> = State(value: Option<V>, attributes: map<string, string>)

  /** The state every sensor is constructed with: no value yet and no attributes. */
  function InitialState<V>(): (s: State<V>)
    ensures s.value.None?
    ensures |s.attributes| == 0
  {
    State(None, map[])
  }

  /** The outcome of one `async_update`: the next state, and whether an exception escaped it. */
  datatype Refresh<V> = Refresh(state: State<V>, raised: bool)

  /** Shopping-list sensor: the outcome of `get_list_by_id` under its 10-second bound. */
  datatype ListFetch =
    | ListTimeout           // the bounded wait expired
    | ListNotFound          // the client returned `None`
    | ListFailed            // any other exception from the client
    | ListFetched(doc: ListDoc)

  /**
   `ShoppingListSensor.async_update`: a timeout, a missing list or any other
   exception leaves the state as it was and nothing escapes; a fetched list
   replaces both the count and the whole attribute map by its projection.
   */
  function ListUpdate(s: State<int>, fetch: ListFetch): (r: Refresh<int>)
    ensures !r.raised
    ensures !fetch.ListFetched? ==> r.state == s
    ensures fetch.ListFetched? ==>
      && r.state.value == Some(|RowsOf(fetch.doc)|)
      && Described(fetch.doc, r.state.attributes)
  {
    match fetch
    case ListFetched(doc) =>
      ProjectDescribed(doc);
      var p := Project(doc);
      Refresh(State(Some(p.count as int), p.attrs), false)
    case _ => Refresh(s, false)
  }

  /**
   The attribute map is rebuilt from scratch: what a successful update
   publishes does not depend on the state before it, so no key of an earlier
   refresh survives unless the new list produces it again.
   */
  lemma ListUpdateReplacesWholeMap(s1: State<int>, s2: State<int>, doc: ListDoc)
    ensures ListUpdate(s1, ListFetched(doc)) == ListUpdate(s2, ListFetched(doc))
    ensures forall key ::
              key in s1.attributes && !Admissible(Classify(key), |Unstruck(RowsOf(doc))|, |Struck(RowsOf(doc))|)
              ==> key !in ListUpdate(s1, ListFetched(doc)).state.attributes
  {
  }

  /** After a list shrinks to `n` unstruck rows, the key of any higher item number is gone. */
  lemma ShrunkListDropsStaleItems(s: State<int>, doc: ListDoc, n: nat)
    requires n > |Unstruck(RowsOf(doc))|
    ensures ItemKey(n) !in ListUpdate(s, ListFetched(doc)).state.attributes
  {
    ProjectDescribed(doc);
    ClassifyItemKey(n);
  }

  /** A failed refresh after a successful one keeps what the successful one published. */
  lemma FailedRefreshKeepsLastGood(s: State<int>, doc: ListDoc, failure: ListFetch)
    requires !failure.ListFetched?
    ensures ListUpdate(ListUpdate(s, ListFetched(doc)).state, failure).state
      == ListUpdate(s, ListFetched(doc)).state
  {
  }

  /** The state after the list sensor's `async_update` has run once per fetch, in order. */
  function ListRun(s: State<int>, fetches: seq<ListFetch>): State<int>
    decreases |fetches|
  {
    if |fetches| == 0 then s
    else ListUpdate(ListRun(s, fetches[..|fetches| - 1]), fetches[|fetches| - 1]).state
  }

  /** The list of the most recent successful fetch, if any fetch succeeded. */
  function LastFetched(fetches: seq<ListFetch>): (r: Option<ListDoc>)
    ensures r.Some? ==> ListFetched(r.value) in fetches
    decreases |fetches|
  {
    if |fetches| == 0 then None
    else if fetches[|fetches| - 1].ListFetched? then Some(fetches[|fetches| - 1].doc)
    else LastFetched(fetches[..|fetches| - 1])
  }

  /**
   Over any run of refreshes, the sensor shows the projection of the most
   recent successful fetch; with no successful fetch it keeps its starting
   state, whatever failed in between.
   */
  lemma {:induction false} ListRunShowsLastSuccess(s: State<int>, fetches: seq<ListFetch>)
    ensures LastFetched(fetches).None? ==> ListRun(s, fetches) == s
    ensures LastFetched(fetches).Some? ==>
      ListRun(s, fetches) == ListUpdate(s, ListFetched(LastFetched(fetches).value)).state
    decreases |fetches|
  {
    if |fetches| > 0 {
      ListRunShowsLastSuccess(s, fetches[..|fetches| - 1]);
    }
  }

  /** A list sensor shows no value until its first successful fetch, and from then on always shows a count. */
  lemma UnknownUntilFirstSuccess(fetches: seq<ListFetch>)
    ensures ListRun(InitialState(), fetches).value.None? <==> LastFetched(fetches).None?
  {
    ListRunShowsLastSuccess(InitialState(), fetches);
  }

  /** Access-token sensor: the outcome of `_get_token_from_session_id` (this sensor applies no time bound). */
  datatype TokenFetch =
    | TokenReturned(token: Option<string>)   // `None` is a returned `None`
    | TokenRaised                            // the call raised

  const Unavailable: string := "Unavailable"

  /** Python truthiness of an optional string: present and non-empty. */
  predicate Truthy(token: Option<string>) {
    token.Some? && token.value != ""
  }

  /**
   `ICATokenSensor.async_update`: the value becomes the token when it is a
   non-empty string and exactly `"Unavailable"` otherwise; the attributes are
   never touched. This update has no exception handler, so a raising fetch
   escapes and changes nothing.
   */
  function TokenUpdate(s: State<string>, fetch: TokenFetch): (r: Refresh<string>)
    ensures r.state.attributes == s.attributes
    ensures r.raised <==> fetch.TokenRaised?
    ensures fetch.TokenRaised? ==> r.state == s
    ensures fetch.TokenReturned? && Truthy(fetch.token) ==> r.state.value == Some(fetch.token.value)
    ensures fetch.TokenReturned? && !Truthy(fetch.token) ==> r.state.value == Some(Unavailable)
  {
    match fetch
    case TokenRaised => Refresh(s, true)
    case TokenReturned(token) =>
      var shown := if Truthy(token) then token.value else Unavailable;
      Refresh(State(Some(shown), s.attributes), false)
  }

  /** After an update that did not raise, the token sensor never shows an empty value. */
  lemma TokenValueNeverEmpty(s: State<string>, fetch: TokenFetch)
    requires !TokenUpdate(s, fetch).raised
    ensures TokenUpdate(s, fetch).state.value.Some?
    ensures TokenUpdate(s, fetch).state.value.value != ""
  {
  }

  /** Last-purchase sensor: the outcome of the token fetch under its 10-second bound. */
  datatype PurchaseTokenFetch =
    | PurchaseTokenTimeout
    | PurchaseTokenRaised
    | PurchaseTokenReturned(token: Option<string>)

  /** The outcome of the purchase-history request. `body` is `None` when it is not JSON. */
  datatype HistoryFetch =
    | HistoryTimeout
    | HistoryRaised
    | HistoryResponse(status: int, body: Option<PurchaseBody>)

  const NoPurchases: string := "Inga köp"
  const DateLength: nat := 10

  /** Python's `s[:n]`: the first `n` characters, or all of `s` when it is shorter. */
  function Take(s: string, n: nat): (r: string)
    ensures |r| == if |s| < n then |s| else n
    ensures r <= s
  {
    if |s| < n then s else s[..n]
  }

  /** A transaction that carries all four fields the attribute map copies. */
  predicate HasAllFields(t: Transaction) {
    t.transactionId.Some? && t.transactionValue.Some? && t.totalDiscount.Some? && t.storeMarketingName.Some?
  }

  /** The attributes published for a complete transaction, copied verbatim. */
  function PurchaseAttributes(t: Transaction): (m: map<string, string>)
    requires HasAllFields(t)
    ensures m.Keys == {"transaction_id", "belopp", "rabatt", "butik"}
    ensures m["transaction_id"] == t.transactionId.value && m["belopp"] == t.transactionValue.value
    ensures m["rabatt"] == t.totalDiscount.value && m["butik"] == t.storeMarketingName.value
  {
    map[
      "transaction_id" := t.transactionId.value,
      "belopp" := t.transactionValue.value,
      "rabatt" := t.totalDiscount.value,
      "butik" := t.storeMarketingName.value]
  }

  /** The request reached a 200 response whose body parsed. */
  predicate Delivered(token: PurchaseTokenFetch, history: HistoryFetch) {
    && token.PurchaseTokenReturned? && Truthy(token.token)
    && history.HistoryResponse? && history.status == 200 && history.body.Some?
  }

  /**
   `ICALastPurchaseSensor.async_update`. The request is only made with a
   non-empty token; a timeout, an exception, status 403 or any other non-200
   status leaves the state as it was. A delivered empty history publishes
   `"Inga köp"` with no attributes. Otherwise the value is assigned the first
   transaction's date (cut to 10 characters) before its attribute map is
   built: if a copied field is missing, the lookup fails after that
   assignment, so the new date is kept beside the previous attributes; if the
   date itself is missing, nothing changes. Every exception is swallowed.
   */
  function PurchaseUpdate(s: State<string>, token: PurchaseTokenFetch, history: HistoryFetch): (r: Refresh<string>)
    ensures !r.raised
    ensures !Delivered(token, history) ==> r.state == s
    ensures Delivered(token, history) && |TransactionsOf(history.body.value)| == 0 ==>
      r.state == State(Some(NoPurchases), map[])
    ensures Delivered(token, history) && |TransactionsOf(history.body.value)| > 0 ==>
      var latest := TransactionsOf(history.body.value)[0];
      && (latest.transactionDate.None? ==> r.state == s)
      && (latest.transactionDate.Some? ==>
            var date := latest.transactionDate.value;
            && r.state.value.Some?
            && r.state.value.value <= date
            && |r.state.value.value| == (if |date| < DateLength then |date| else DateLength)
            && r.state.attributes == (if HasAllFields(latest) then PurchaseAttributes(latest) else s.attributes))
  {
    if !Delivered(token, history) then Refresh(s, false)
    else
      var transactions := TransactionsOf(history.body.value);
      if |transactions| == 0 then Refresh(State(Some(NoPurchases), map[]), false)
      else
        var latest := transactions[0];
        if latest.transactionDate.None? then Refresh(s, false)
        else
          var value := Some(Take(latest.transactionDate.value, DateLength));
          if HasAllFields(latest) then Refresh(State(value, PurchaseAttributes(latest)), false)
          else Refresh(State(value, s.attributes), false)
  }

  /** Status 403 is ignored like any other non-200 status. */
  lemma AccessDeniedChangesNothing(s: State<string>, token: PurchaseTokenFetch, body: Option<PurchaseBody>)
    ensures PurchaseUpdate(s, token, HistoryResponse(403, body)) == Refresh(s, false)
  {
  }

  /**
   The update is not atomic: a newest transaction with a date but without
   `storeMarketingName` publishes its date while the attributes of the
   previously shown purchase remain.
   */
  lemma PartialUpdateMixesPurchases(s: State<string>, token: PurchaseTokenFetch, history: HistoryFetch)
    requires Delivered(token, history) && |TransactionsOf(history.body.value)| > 0
    requires TransactionsOf(history.body.value)[0].transactionDate.Some?
    requires TransactionsOf(history.body.value)[0].storeMarketingName.None?
    ensures
      var latest := TransactionsOf(history.body.value)[0];
      PurchaseUpdate(s, token, history) == Refresh(State(Some(Take(latest.transactionDate.value, DateLength)), s.attributes), false)
  {
  }
}

/** Message envelopes (`messages::msg`): the top-level requests and
    responses of the Read, Write, Subscribe, Invoke, Report, Status and
    Timed interactions. Arrays of interaction blocks are plain sequences;
    their wire encoding is not part of this model. */
module Msg {
  import opened ImTypes
  import Ib

  // ---------------------------------------------------------------------
  // Subscribe and Read requests
  // ---------------------------------------------------------------------

  /** `reserved` is the unused field that keeps the context tags of the
      fields after it where the protocol puts them. */
  datatype SubscribeReq = SubscribeReq(
    keepSubs: bool,
    minIntFloor: u16,
    maxIntCeil: u16,
    attrRequests: Option<seq<Ib.AttrPath>>,
    eventRequests: Option<seq<Ib.EventPath>>,
    eventFilters: Option<seq<Ib.EventFilter>>,
    reserved: Option<bool>,
    fabricFiltered: bool,
    dataverFilters: Option<seq<Ib.DataVersionFilter>>)

  datatype ReadReq = ReadReq(
    attrRequests: Option<seq<Ib.AttrPath>>,
    eventRequests: Option<seq<Ib.EventPath>>,
    eventFilters: Option<seq<Ib.EventFilter>>,
    fabricFiltered: bool,
    dataverFilters: Option<seq<Ib.DataVersionFilter>>)

  /** `SubscribeReq::new`: the fabric filter and the interval bounds as
      given; every other field takes its default (`keep_subs` false, every
      optional array absent). */
  function SubscribeReqNew(fabricFiltered: bool, minIntFloor: u16, maxIntCeil: u16): (r: SubscribeReq)
    ensures r.fabricFiltered == fabricFiltered
    ensures r.minIntFloor == minIntFloor && r.maxIntCeil == maxIntCeil
    ensures !r.keepSubs && r.reserved.None?
    ensures r.attrRequests.None? && r.eventRequests.None? && r.eventFilters.None? && r.dataverFilters.None?
  {
    SubscribeReq(false, minIntFloor, maxIntCeil, None, None, None, None, fabricFiltered, None)
  }

  /** `SubscribeReq::set_attr_requests`: the request, taken by value, with
      its attribute requests set and nothing else changed. */
  function SubscribeReqSetAttrRequests(req: SubscribeReq, requests: seq<Ib.AttrPath>): (r: SubscribeReq)
    ensures r.attrRequests == Some(requests)
    ensures r.(attrRequests := req.attrRequests) == req
  {
    req.(attrRequests := Some(requests))
  }

  /** `SubscribeReq::to_read_req`: the read that primes a subscription
      keeps the attribute and event requests, the event and data-version
      filters and the fabric filter. */
  function SubscribeReqToReadReq(req: SubscribeReq): (r: ReadReq)
    ensures r.attrRequests == req.attrRequests
    ensures r.eventRequests == req.eventRequests && r.eventFilters == req.eventFilters
    ensures r.fabricFiltered == req.fabricFiltered
    ensures r.dataverFilters == req.dataverFilters
  {
    ReadReq(req.attrRequests, req.eventRequests, req.eventFilters, req.fabricFiltered, req.dataverFilters)
  }

  /** The projection is lossy in exactly the subscription-only fields: two
      subscribe requests give the same read request if and only if they
      agree on everything but `keep_subs`, the interval bounds and the
      reserved field. */
  lemma ToReadReqDropsOnlySubscriptionFields(a: SubscribeReq, b: SubscribeReq)
    ensures SubscribeReqToReadReq(a) == SubscribeReqToReadReq(b) <==>
      a.(keepSubs := b.keepSubs, minIntFloor := b.minIntFloor, maxIntCeil := b.maxIntCeil, reserved := b.reserved) == b
  {
    if SubscribeReqToReadReq(a) == SubscribeReqToReadReq(b) {
      assert a.attrRequests == b.attrRequests;
    }
  }

  /** `ReadReq::new`: the fabric filter as given, every array absent. */
  function ReadReqNew(fabricFiltered: bool): (r: ReadReq)
    ensures r.fabricFiltered == fabricFiltered
    ensures r.attrRequests.None? && r.eventRequests.None? && r.eventFilters.None? && r.dataverFilters.None?
  {
    ReadReq(None, None, None, fabricFiltered, None)
  }

  /** `ReadReq::set_attr_requests`: the request, taken by value, with its
      attribute requests set and nothing else changed. */
  function ReadReqSetAttrRequests(req: ReadReq, requests: seq<Ib.AttrPath>): (r: ReadReq)
    ensures r.attrRequests == Some(requests)
    ensures r.(attrRequests := req.attrRequests) == req
  {
    req.(attrRequests := Some(requests))
  }

  /** Building a subscription and projecting it gives the read request that
      the read builders make from the same fabric filter and attribute
      requests. */
  lemma PrimingReadOfNewSubscription(fabricFiltered: bool, minIntFloor: u16, maxIntCeil: u16, requests: seq<Ib.AttrPath>)
    ensures SubscribeReqToReadReq(SubscribeReqSetAttrRequests(SubscribeReqNew(fabricFiltered, minIntFloor, maxIntCeil), requests))
         == ReadReqSetAttrRequests(ReadReqNew(fabricFiltered), requests)
  {
  }

  // ---------------------------------------------------------------------
  // Subscribe response, timed request, status response
  // ---------------------------------------------------------------------

  datatype SubscribeResp = SubscribeResp(subsId: u32, reserved: Option<u32>, maxInt: u16)

  /** `SubscribeResp::new`: the subscription id and interval, the reserved
      field absent. */
  function SubscribeRespNew(subsId: u32, maxInt: u16): (r: SubscribeResp)
    ensures r.subsId == subsId && r.maxInt == maxInt && r.reserved.None?
  {
    SubscribeResp(subsId, None, maxInt)
  }

  datatype TimedReq = TimedReq(timeout: u16)

  datatype StatusResp = StatusResp(status: IMStatusCode)

  // ---------------------------------------------------------------------
  // Invoke
  // ---------------------------------------------------------------------

  /** Context tags of the invoke request. */
  const InvReqTagSupressResponse: nat := 0
  const InvReqTagTimedReq: nat := 1
  const InvReqTagInvokeRequests: nat := 2

  datatype InvReq = InvReq(
    suppressResponse: Option<bool>,
    timedRequest: Option<bool>,
    invRequests: Option<seq<Ib.CmdData>>)

  /** Context tags of the invoke response, used when it is written out step
      by step. */
  const InvRespTagSupressResponse: nat := 0
  const InvRespTagInvokeResponses: nat := 1

  datatype InvResp = InvResp(
    suppressResponse: Option<bool>,
    invResponses: Option<seq<Ib.InvResp>>)

  // ---------------------------------------------------------------------
  // Write
  // ---------------------------------------------------------------------

  datatype WriteReq = WriteReq(
    supressResponse: Option<bool>,
    timedRequest: Option<bool>,
    writeRequests: seq<Ib.AttrData>,
    moreChunked: Option<bool>)

  /** `WriteReq::new`: response suppression is sent only when asked for
      (as `Some(true)`, never as `Some(false)`); the request is neither
      timed nor chunked. */
  method WriteReqNew(supressResponse: bool, writeRequests: seq<Ib.AttrData>) returns (w: WriteReq)
    ensures w.supressResponse == Some(true) <==> supressResponse
    ensures w.supressResponse.Some? ==> supressResponse
    ensures w.writeRequests == writeRequests
    ensures w.timedRequest.None? && w.moreChunked.None?
  {
    w := WriteReq(None, None, writeRequests, None);
    if supressResponse {
      w := w.(supressResponse := Some(true));
    }
  }

  datatype WriteResp = WriteResp(writeResponses: seq<Ib.AttrStatus>)

  /** Context tag of the write response. */
  const WriteRespTagWriteResponses: nat := 0

  // ---------------------------------------------------------------------
  // Report data
  // ---------------------------------------------------------------------

  /** `eventReports` is a placeholder in the source: event reporting is not
      implemented there. */
  datatype ReportDataMsg = ReportDataMsg(
    subscriptionId: Option<u32>,
    attrReports: Option<seq<Ib.AttrResp>>,
    eventReports: Option<bool>,
    moreChunks: Option<bool>,
    suppressResponse: Option<bool>)

  /** Context tags of the report; tag 2 is reserved for event reports. */
  const ReportDataTagSubscriptionId: nat := 0
  const ReportDataTagAttributeReports: nat := 1
  const ReportDataTagEventReport: nat := 2
  const ReportDataTagMoreChunkedMsgs: nat := 3
  const ReportDataTagSupressResponse: nat := 4
}

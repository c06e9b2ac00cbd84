/** Interaction blocks (`messages::ib`): the attribute and command paths,
    the status, data and response blocks that the envelopes carry, and the
    inference that turns one attribute-list write into list operations. */
module Ib {
  import opened ImTypes
  import opened Messages

  // ---------------------------------------------------------------------
  // Attribute path
  // ---------------------------------------------------------------------

  datatype AttrPath = AttrPath(
    tagCompression: Option<bool>,
    node: Option<u64>,
    endpoint: Option<EndptId>,
    cluster: Option<ClusterId>,
    attr: Option<AttrId>,
    listIndex: Option<Nullable<u16>>)

  /** `AttrPath::new`: keeps endpoint and cluster, narrows the leaf to an
      attribute id by Rust's truncating `as u16`, and leaves tag compression,
      node and list index absent. */
  function AttrPathNew(path: GenericPath): (r: AttrPath)
    ensures r.endpoint == path.endpoint && r.cluster == path.cluster
    ensures r.attr.Some? <==> path.leaf.Some?
    ensures path.leaf.Some? ==> r.attr.value == path.leaf.value % 0x1_0000
    ensures r.tagCompression.None? && r.node.None? && r.listIndex.None?
  {
    AttrPath(None, None, path.endpoint, path.cluster,
             match path.leaf case Some(x) => Some(TruncU16(x)) case None => None,
             None)
  }

  /** `AttrPath::to_gp`: widens the attribute id back to a 32-bit leaf and
      keeps endpoint and cluster. */
  function AttrPathToGp(p: AttrPath): (r: GenericPath)
    ensures r.endpoint == p.endpoint && r.cluster == p.cluster
    ensures r.leaf.Some? <==> p.attr.Some?
    ensures p.attr.Some? ==> r.leaf.value == p.attr.value
  {
    GenericPath(p.endpoint, p.cluster,
                match p.attr case Some(a) => Some(a as u32) case None => None)
  }

  /** Narrowing then widening gives back the generic path exactly when the
      leaf is absent or fits in 16 bits; a wider leaf comes back truncated. */
  lemma AttrPathRoundTrip(gp: GenericPath)
    ensures AttrPathToGp(AttrPathNew(gp)) == gp <==> (gp.leaf.None? || gp.leaf.value <= 0xFFFF)
    ensures gp.leaf.Some? && gp.leaf.value > 0xFFFF ==>
              AttrPathToGp(AttrPathNew(gp)).leaf == Some(gp.leaf.value % 0x1_0000)
  {
    var back := AttrPathToGp(AttrPathNew(gp));
    if gp.leaf.Some? && gp.leaf.value > 0xFFFF {
      assert back.leaf.value < gp.leaf.value;
    }
  }

  /** Widening then narrowing gives back an attribute path that carries no
      tag compression, node or list index. */
  lemma AttrPathFromGpRoundTrip(p: AttrPath)
    requires p.tagCompression.None? && p.node.None? && p.listIndex.None?
    ensures AttrPathNew(AttrPathToGp(p)) == p
  {
  }

  /** Converting a generic path to an attribute path and back never turns a
      wildcard into a concrete path or the other way round. */
  lemma AttrPathKeepsWildcard(gp: GenericPath)
    ensures IsWildcard(AttrPathToGp(AttrPathNew(gp))) <==> IsWildcard(gp)
  {
  }

  // ---------------------------------------------------------------------
  // Command path
  // ---------------------------------------------------------------------

  datatype CmdPath = CmdPath(path: GenericPath)

  /** `CmdPath::new`: widens the 16-bit command id into the 32-bit leaf. */
  function CmdPathNew(endpoint: Option<EndptId>, cluster: Option<ClusterId>, command: Option<u16>): (r: CmdPath)
    ensures r.path.endpoint == endpoint && r.path.cluster == cluster
    ensures r.path.leaf.Some? <==> command.Some?
    ensures command.Some? ==> r.path.leaf.value == command.value
  {
    CmdPath(GenericPath(endpoint, cluster,
                        match command case Some(a) => Some(a as u32) case None => None))
  }

  /** `CmdPath::from_tlv`, given what `GenericPath::from_tlv` produced: a
      decoding error is passed on, a wildcard command id is refused with
      `CommandNotFound`, and anything else becomes the command path. */
  function CmdPathFromTlv(decoded: Result<GenericPath, Error>): (r: Result<CmdPath, Error>)
    ensures decoded.Err? ==> r == Err(decoded.error)
    ensures decoded.Ok? ==> (r == Err(CommandNotFound) <==> decoded.value.leaf.None?)
    ensures decoded.Ok? && decoded.value.leaf.Some? ==> r == Ok(CmdPath(decoded.value))
  {
    match decoded
    case Err(e) => Err(e)
    case Ok(gp) =>
      if gp.leaf.None? then Err(CommandNotFound) else Ok(CmdPath(gp))
  }

  /** A decoded command path always names a concrete command. */
  lemma DecodedCmdPathHasCommand(decoded: Result<GenericPath, Error>)
    requires CmdPathFromTlv(decoded).Ok?
    ensures CmdPathFromTlv(decoded).value.path.leaf.Some?
  {
  }

  /** A command path built with a command id passes the decoding check
      unchanged; one built without is refused as a wildcard command. */
  lemma CmdPathNewPassesDecodeCheck(endpoint: Option<EndptId>, cluster: Option<ClusterId>, command: Option<u16>)
    ensures command.Some? ==>
              CmdPathFromTlv(Ok(CmdPathNew(endpoint, cluster, command).path)) == Ok(CmdPathNew(endpoint, cluster, command))
    ensures command.None? ==>
              CmdPathFromTlv(Ok(CmdPathNew(endpoint, cluster, command).path)) == Err(CommandNotFound)
  {
  }

  /** Widening the command id loses nothing: distinct arguments give
      distinct command paths. */
  lemma CmdPathNewInjective(e1: Option<EndptId>, c1: Option<ClusterId>, m1: Option<u16>,
                            e2: Option<EndptId>, c2: Option<ClusterId>, m2: Option<u16>)
    requires CmdPathNew(e1, c1, m1) == CmdPathNew(e2, c2, m2)
    ensures e1 == e2 && c1 == c2 && m1 == m2
  {
    if m1.Some? {
      assert CmdPathNew(e2, c2, m2).path.leaf.value == m1.value;
    }
  }

  // ---------------------------------------------------------------------
  // Status, command and attribute blocks
  // ---------------------------------------------------------------------

  datatype Status = Status(status: IMStatusCode, clusterStatus: u16)

  /** `Status::new` */
  function StatusNew(status: IMStatusCode, clusterStatus: u16): (r: Status)
    ensures r.status == status && r.clusterStatus == clusterStatus
  {
    Status(status, clusterStatus)
  }

  datatype CmdStatus = CmdStatus(path: CmdPath, status: Status)

  /** `CmdStatus::new`: pairs the command path with the status block. */
  function CmdStatusNew(path: CmdPath, status: IMStatusCode, clusterStatus: u16): (r: CmdStatus)
    ensures r.path == path
    ensures r.status.status == status && r.status.clusterStatus == clusterStatus
  {
    CmdStatus(path, Status(status, clusterStatus))
  }

  datatype CmdData = CmdData(path: CmdPath, data: EncodeValue)

  /** Command response block: either the command's data or its status. */
  datatype InvResp = Cmd(cmdData: CmdData) | CmdStatusResp(cmdStatus: CmdStatus)

  /** `InvResp::cmd_new`: a data response addressed to one concrete command,
      which the command-path decoding check accepts. */
  function InvRespCmdNew(endpoint: EndptId, cluster: ClusterId, cmd: u16, data: EncodeValue): (r: InvResp)
    ensures r.Cmd? && r.cmdData.data == data
    ensures NotWildcard(r.cmdData.path.path) == Ok(Target(endpoint, cluster, cmd))
    ensures CmdPathFromTlv(Ok(r.cmdData.path.path)) == Ok(r.cmdData.path)
  {
    Cmd(CmdData(CmdPathNew(Some(endpoint), Some(cluster), Some(cmd)), data))
  }

  /** `InvResp::status_new`: a status response that refers to the very
      command path it is given. */
  function InvRespStatusNew(cmdPath: CmdPath, status: IMStatusCode, clusterStatus: u16): (r: InvResp)
    ensures r.CmdStatusResp? && r.cmdStatus.path == cmdPath
    ensures r.cmdStatus.status.status == status && r.cmdStatus.status.clusterStatus == clusterStatus
  {
    CmdStatusResp(CmdStatus(cmdPath, StatusNew(status, clusterStatus)))
  }

  /** A status response carries the same block that `CmdStatus::new` builds. */
  lemma InvRespStatusIsCmdStatus(cmdPath: CmdPath, status: IMStatusCode, clusterStatus: u16)
    ensures InvRespStatusNew(cmdPath, status, clusterStatus).cmdStatus == CmdStatusNew(cmdPath, status, clusterStatus)
  {
  }

  datatype AttrData = AttrData(dataVer: Option<u32>, path: AttrPath, data: EncodeValue)

  datatype AttrStatus = AttrStatus(path: AttrPath, status: Status)

  /** `AttrStatus::new`: the generic path narrowed to an attribute path,
      with its status block. */
  function AttrStatusNew(path: GenericPath, status: IMStatusCode, clusterStatus: u16): (r: AttrStatus)
    ensures r.path == AttrPathNew(path)
    ensures r.status.status == status && r.status.clusterStatus == clusterStatus
  {
    AttrStatus(AttrPathNew(path), StatusNew(status, clusterStatus))
  }

  /** An attribute status refers back to the generic path it was made from
      whenever the attribute id fits in 16 bits. */
  lemma AttrStatusRefersToPath(path: GenericPath, status: IMStatusCode, clusterStatus: u16)
    requires path.leaf.None? || path.leaf.value <= 0xFFFF
    ensures AttrPathToGp(AttrStatusNew(path, status, clusterStatus).path) == path
  {
    AttrPathRoundTrip(path);
  }

  /** Attribute response block: either a status or the data. */
  datatype AttrResp = AttrStatusResp(attrStatus: AttrStatus) | Data(attrData: AttrData)

  /** `AttrResp::new`: always the data variant, stamped with the data
      version. */
  function AttrRespNew(dataVer: u32, path: AttrPath, data: EncodeValue): (r: AttrResp)
    ensures r.Data? && r.attrData.dataVer == Some(dataVer)
    ensures r.attrData.path == path && r.attrData.data == data
  {
    Data(AttrData(Some(dataVer), path, data))
  }

  /** `AttrResp::unwrap_data`: the source panics on the status variant, so
      that is excluded from its domain. */
  function UnwrapData(resp: AttrResp): (d: AttrData)
    requires resp.Data?
    ensures Data(d) == resp
  {
    resp.attrData
  }

  /** Unwrapping a freshly built response gives back its parts. */
  lemma UnwrapNewData(dataVer: u32, path: AttrPath, data: EncodeValue)
    ensures UnwrapData(AttrRespNew(dataVer, path, data)) == AttrData(Some(dataVer), path, data)
  {
  }

  // ---------------------------------------------------------------------
  // Data-version and event filters, event and cluster paths
  // ---------------------------------------------------------------------

  datatype ClusterPath = ClusterPath(node: Option<u64>, endpoint: EndptId, cluster: ClusterId)

  datatype DataVersionFilter = DataVersionFilter(path: ClusterPath, dataVer: u32)

  datatype EventPath = EventPath(
    node: Option<u64>,
    endpoint: Option<EndptId>,
    cluster: Option<ClusterId>,
    event: Option<u32>,
    isUrgent: Option<bool>)

  datatype EventFilter = EventFilter(node: Option<u64>, eventMin: Option<u64>)

  // ---------------------------------------------------------------------
  // Attribute list writes
  // ---------------------------------------------------------------------

  /** Operations on an Interaction Model list. */
  datatype ListOperation = AddItem | EditItem(index: u16) | DeleteItem(index: u16) | DeleteList

  /** One invocation of the caller's callback: the operation and the element
      passed with it. */
  datatype Call = Call(op: ListOperation, item: Element)

  /** `Result<(), IMStatusCode>`: the callback and the whole write either
      pass or fail with a protocol status. */
  datatype Outcome = Pass | Fail(status: IMStatusCode)

  /** The caller's `FnMut(ListOperation, &TLVElement)`. Its answer may depend
      on the calls it has already received (its mutable state), so it is
      given the history of earlier calls as well. */
  type Callback = (seq<Call>, Call) -> Outcome

  /** What a list write did: its final result and the callback invocations
      it made, in order. */
  datatype Run = Run(outcome: Outcome, trace: seq<Call>)

  /** Whether the list index selects a single item (only a present,
      non-null index does). */
  predicate SelectsItem(listIndex: Option<Nullable<u16>>)
  {
    listIndex.Some? && listIndex.value.NotNull?
  }

  /** One `AddItem` per array member, in array order. */
  function AddEach(items: seq<Element>): (calls: seq<Call>)
    ensures |calls| == |items|
    ensures forall k :: 0 <= k < |items| ==> calls[k] == Call(AddItem, items[k])
  {
    if items == [] then [] else [Call(AddItem, items[0])] + AddEach(items[1..])
  }

  /** The calls a list write intends to make, in order: a single edit or
      delete for an item index; for a whole-list array write, delete the list
      and then add every member; otherwise append the element. */
  function Plan(listIndex: Option<Nullable<u16>>, data: Element): (p: seq<Call>)
    ensures SelectsItem(listIndex) ==>
      var i := listIndex.value.value;
      p == [Call(if data.NullElement? then DeleteItem(i) else EditItem(i), data)]
    ensures !SelectsItem(listIndex) && data.Array? ==>
      |p| == |data.items| + 1 && p[0] == Call(DeleteList, data) &&
      forall k :: 1 <= k < |p| ==> p[k] == Call(AddItem, data.items[k - 1])
    ensures !SelectsItem(listIndex) && data.BadArray? ==> p == [Call(DeleteList, data)]
    ensures !SelectsItem(listIndex) && !data.IsArray() ==> p == [Call(AddItem, data)]
  {
    if SelectsItem(listIndex) then
      var i := listIndex.value.value;
      [Call(if data.NullElement? then DeleteItem(i) else EditItem(i), data)]
    else if data.IsArray() then
      [Call(DeleteList, data)] + (if data.Array? then AddEach(data.items) else [])
    else
      [Call(AddItem, data)]
  }

  /** Issues `calls` in order after the calls `done`, stopping at the first
      one the callback rejects. */
  function Drive(calls: seq<Call>, f: Callback, done: seq<Call>): (r: Run)
    ensures |done| <= |r.trace| <= |done| + |calls|
    ensures r.trace[..|done|] == done
    ensures r.outcome.Fail? ==> |r.trace| > |done|
    decreases |calls|
  {
    if calls == [] then Run(Pass, done)
    else
      var o := f(done, calls[0]);
      var done' := done + [calls[0]];
      assert done'[..|done|] == done;
      if o.Fail? then Run(o, done')
      else
        var r := Drive(calls[1..], f, done');
        assert r.trace[..|done|] == r.trace[..|done'|][..|done|];
        r
  }

  /** Driving a non-empty sequence issues its first call, then goes on with
      the rest only if that call was accepted. */
  lemma DriveCons(c: Call, rest: seq<Call>, f: Callback, done: seq<Call>)
    ensures Drive([c] + rest, f, done) ==
      if f(done, c).Fail? then Run(f(done, c), done + [c]) else Drive(rest, f, done + [c])
  {
    assert ([c] + rest)[1..] == rest;
  }

  /** Driving one call reports that call and the callback's answer. */
  lemma DriveSingle(c: Call, f: Callback, done: seq<Call>)
    ensures Drive([c], f, done) == Run(f(done, c), done + [c])
  {
    DriveCons(c, [], f, done);
    assert [c] + [] == [c];
  }

  /** Whether the callback accepted the calls of `trace` at positions
      `from` up to (not including) `upto`, each given the calls before it. */
  predicate AcceptedBetween(f: Callback, trace: seq<Call>, from: int, upto: int)
  {
    forall j :: 0 <= from <= j < upto && j < |trace| ==> f(trace[..j], trace[j]).Pass?
  }

  /** Reference behaviour of `attr_list_write`: drive the planned calls; an
      array that cannot be entered fails once its `DeleteList` is accepted. */
  function ListWrite(listIndex: Option<Nullable<u16>>, data: Element, f: Callback): (w: Run)
    ensures 1 <= |w.trace| <= |Plan(listIndex, data)|
    ensures w.trace == Plan(listIndex, data)[..|w.trace|]
    ensures !SelectsItem(listIndex) && data.BadArray? ==> w.outcome.Fail?
  {
    DriveFromStart(Plan(listIndex, data), f);
    var r := Drive(Plan(listIndex, data), f, []);
    if r.outcome.Pass? && !SelectsItem(listIndex) && data.BadArray? then Run(Fail(InvalidStatus), r.trace)
    else r
  }

  /** `attr_list_write`: the result together with the callback invocations
      made, matching the reference behaviour. */
  method AttrListWrite(listIndex: Option<Nullable<u16>>, data: Element, f: Callback)
    returns (result: Outcome, trace: seq<Call>)
    ensures Run(result, trace) == ListWrite(listIndex, data, f)
  {
    if listIndex.Some? && listIndex.value.NotNull? {
      var index := listIndex.value.value;
      var c := Call(if data.NullElement? then DeleteItem(index) else EditItem(index), data);
      result := f([], c);
      trace := [c];
      DriveSingle(c, f, []);
    } else if data.IsArray() {
      var c := Call(DeleteList, data);
      result := f([], c);
      trace := [c];
      if result.Fail? {
        DriveCons(c, if data.Array? then AddEach(data.items) else [], f, []);
        return;
      }
      if !data.Array? {
        DriveSingle(c, f, []);
        result := Fail(InvalidStatus);
        return;
      }
      var container := data.items;
      DriveCons(c, AddEach(container), f, []);
      assert [] + [c] == [c];
      assert Plan(listIndex, data) == [c] + AddEach(container);
      assert container[0..] == container;
      for k := 0 to |container|
        invariant Drive(Plan(listIndex, data), f, []) == Drive(AddEach(container[k..]), f, trace)
      {
        assert container[k..] == [container[k]] + container[k + 1..];
        c := Call(AddItem, container[k]);
        DriveCons(c, AddEach(container[k + 1..]), f, trace);
        var o := f(trace, c);
        trace := trace + [c];
        if o.Fail? {
          result := o;
          return;
        }
      }
      assert container[|container|..] == [];
      result := Pass;
    } else {
      var c := Call(AddItem, data);
      result := f([], c);
      trace := [c];
      DriveSingle(c, f, []);
    }
  }

  /** Driving a sequence of calls issues a prefix of it after the calls
      already done; a failed run ends with the rejected call, and a
      successful one issued every call. */
  lemma {:induction false} DriveIssuesPrefix(calls: seq<Call>, f: Callback, done: seq<Call>)
    ensures var r := Drive(calls, f, done); var n := |r.trace|;
      |done| <= n <= |done| + |calls| &&
      r.trace == done + calls[..n - |done|] &&
      (r.outcome.Pass? ==> n == |done| + |calls|) &&
      (r.outcome.Fail? ==> n > |done| && r.outcome == f(r.trace[..n - 1], r.trace[n - 1]))
    decreases |calls|
  {
    if calls == [] {
      assert calls[..0] == [] && done + [] == done;
    } else {
      var c := calls[0];
      var done' := done + [c];
      if f(done, c).Fail? {
        assert calls[..1] == [c];
        assert done'[..|done|] == done;
      } else {
        DriveIssuesPrefix(calls[1..], f, done');
        var n := |Drive(calls[1..], f, done').trace|;
        PrefixShift(done, calls, n - |done'|);
      }
    }
  }

  /** Moving the first pending call onto the calls already done keeps the
      issued sequence the same. */
  lemma PrefixShift(done: seq<Call>, calls: seq<Call>, m: nat)
    requires m < |calls|
    ensures (done + [calls[0]]) + calls[1..][..m] == done + calls[..m + 1]
  {
    assert calls[..m + 1] == [calls[0]] + calls[1..][..m];
  }

  /** Every call a run issued before its last one, and on success the last
      one too, was accepted by the callback. */
  lemma {:induction false} DriveAcceptsAllButLast(calls: seq<Call>, f: Callback, done: seq<Call>)
    ensures var r := Drive(calls, f, done); var n := |r.trace|;
      AcceptedBetween(f, r.trace, |done|, n - 1) &&
      (r.outcome.Pass? ==> AcceptedBetween(f, r.trace, |done|, n))
    decreases |calls|
  {
    if calls != [] {
      var c := calls[0];
      var done' := done + [c];
      DriveCons(c, calls[1..], f, done);
      if f(done, c).Pass? {
        DriveAcceptsAllButLast(calls[1..], f, done');
        DriveIssuesPrefix(calls[1..], f, done');
        var t := Drive(calls[1..], f, done').trace;
        assert t[..|done|] == done && t[|done|] == c by {
          assert t[..|done'|] == done';
        }
        forall j | |done| <= j < |t| && (j < |t| - 1 || Drive(calls[1..], f, done').outcome.Pass?)
          ensures f(t[..j], t[j]).Pass?
        {
          if j == |done| {
            assert f(t[..j], t[j]) == f(done, c);
          } else {
            assert |done'| <= j;
          }
        }
      }
    }
  }

  /** Driving a sequence of calls issues a prefix of it, every call but the
      last accepted; the run succeeds exactly when all calls were issued and
      accepted, and otherwise returns the rejection of its last call. */
  lemma {:induction false} DriveShape(calls: seq<Call>, f: Callback, done: seq<Call>)
    ensures var r := Drive(calls, f, done); var n := |r.trace|;
      |done| <= n <= |done| + |calls| &&
      r.trace == done + calls[..n - |done|] &&
      AcceptedBetween(f, r.trace, |done|, n - 1) &&
      (r.outcome.Pass? <==> n == |done| + |calls| && AcceptedBetween(f, r.trace, |done|, n)) &&
      (r.outcome.Fail? ==> n > |done| && r.outcome == f(r.trace[..n - 1], r.trace[n - 1]))
  {
    DriveIssuesPrefix(calls, f, done);
    DriveAcceptsAllButLast(calls, f, done);
  }

  /** `DriveShape` for a non-empty sequence driven from the start, stated
      in terms of the last call issued. */
  lemma DriveFromStart(p: seq<Call>, f: Callback)
    requires p != []
    ensures var r := Drive(p, f, []); var n := |r.trace|;
      1 <= n <= |p| && r.trace == p[..n] &&
      AcceptedBetween(f, r.trace, 0, n - 1) &&
      (f(r.trace[..n - 1], r.trace[n - 1]).Fail? ==> r.outcome == f(r.trace[..n - 1], r.trace[n - 1])) &&
      (f(r.trace[..n - 1], r.trace[n - 1]).Pass? ==> n == |p| && r.outcome == Pass) &&
      (r.outcome.Pass? <==> n == |p| && AcceptedBetween(f, r.trace, 0, n))
  {
    DriveShape(p, f, []);
    var r := Drive(p, f, []);
    assert [] + p[..|r.trace|] == p[..|r.trace|];
  }

  /** Whatever its branch, a list write issues a non-empty prefix of its
      planned calls in order, every call but the last accepted; a rejection
      by the callback is its result and ends it; otherwise every planned
      call was issued, and the write succeeds unless the payload is an
      array that cannot be entered. */
  lemma ListWriteFollowsPlan(listIndex: Option<Nullable<u16>>, data: Element, f: Callback)
    ensures var r := ListWrite(listIndex, data, f); var p := Plan(listIndex, data); var n := |r.trace|;
      1 <= n <= |p| && r.trace == p[..n] &&
      AcceptedBetween(f, r.trace, 0, n - 1) &&
      (f(r.trace[..n - 1], r.trace[n - 1]).Fail? ==> r.outcome == f(r.trace[..n - 1], r.trace[n - 1])) &&
      (f(r.trace[..n - 1], r.trace[n - 1]).Pass? ==>
         n == |p| && r.outcome == (if !SelectsItem(listIndex) && data.BadArray? then Fail(InvalidStatus) else Pass)) &&
      (r.outcome.Pass? <==> n == |p| && AcceptedBetween(f, r.trace, 0, n) && !(!SelectsItem(listIndex) && data.BadArray?))
  {
    var p := Plan(listIndex, data);
    assert p != [];
    DriveFromStart(p, f);
  }

  /** With a non-null list index the callback is called exactly once, with
      `DeleteItem` for the null sentinel and `EditItem` otherwise, on the
      original element; its answer is the result. */
  lemma IndexedWriteIsOneCall(i: u16, data: Element, f: Callback)
    ensures var c := Call(if data.NullElement? then DeleteItem(i) else EditItem(i), data);
      ListWrite(Some(NotNull(i)), data, f) == Run(f([], c), [c])
  {
    var c := Call(if data.NullElement? then DeleteItem(i) else EditItem(i), data);
    DriveSingle(c, f, []);
    assert [] + [c] == [c];
  }

  /** A present-but-null list index addresses the whole list, exactly as an
      absent one does. */
  lemma NullIndexActsAsAbsent(data: Element, f: Callback)
    ensures ListWrite(Some(Null), data, f) == ListWrite(None, data, f)
  {
  }

  /** Writing a whole array to a list deletes the list and then adds each
      member in array order; the first rejection stops all later calls and
      is returned, and the write succeeds exactly when every call was
      issued and accepted. */
  lemma ReplaceListIssuesDeleteThenAdds(listIndex: Option<Nullable<u16>>, items: seq<Element>, f: Callback)
    requires !SelectsItem(listIndex)
    ensures var r := ListWrite(listIndex, Array(items), f);
      1 <= |r.trace| <= |items| + 1 &&
      r.trace[0] == Call(DeleteList, Array(items)) &&
      (forall j :: 1 <= j < |r.trace| ==> r.trace[j] == Call(AddItem, items[j - 1])) &&
      AcceptedBetween(f, r.trace, 0, |r.trace| - 1) &&
      (r.outcome.Fail? ==> r.outcome == f(r.trace[..|r.trace| - 1], r.trace[|r.trace| - 1])) &&
      (r.outcome.Pass? <==> |r.trace| == |items| + 1 && AcceptedBetween(f, r.trace, 0, |r.trace|))
  {
    ListWriteFollowsPlan(listIndex, Array(items), f);
    var r := ListWrite(listIndex, Array(items), f);
    var p := Plan(listIndex, Array(items));
    forall j | 1 <= j < |r.trace| ensures r.trace[j] == Call(AddItem, items[j - 1]) {
      assert r.trace[j] == p[j];
    }
    if |r.trace| == |items| + 1 {
      assert r.trace == p;
    }
  }

  /** An array element that cannot be entered: the callback sees exactly
      one `DeleteList`, and the write fails either with the callback's
      rejection or, once it is accepted, with the invalid-data status. */
  lemma UnenterableArrayStopsAfterDeleteList(listIndex: Option<Nullable<u16>>, f: Callback)
    requires !SelectsItem(listIndex)
    ensures var c := Call(DeleteList, BadArray);
      var r := ListWrite(listIndex, BadArray, f);
      r.trace == [c] && r.outcome.Fail? &&
      r.outcome == (if f([], c).Pass? then Fail(InvalidStatus) else f([], c))
  {
    var c := Call(DeleteList, BadArray);
    DriveSingle(c, f, []);
    assert [] + [c] == [c];
  }

  /** Without an item index, an element that is not an array is appended
      with exactly one `AddItem`, and the callback's answer is the result. */
  lemma SingleElementIsOneAdd(listIndex: Option<Nullable<u16>>, data: Element, f: Callback)
    requires !SelectsItem(listIndex) && !data.IsArray()
    ensures ListWrite(listIndex, data, f) == Run(f([], Call(AddItem, data)), [Call(AddItem, data)])
  {
    var c := Call(AddItem, data);
    DriveSingle(c, f, []);
    assert [] + [c] == [c];
  }

  /** A callback that rejects the second member of a three-member array
      replace (the third call it receives, whatever the members are):
      `DeleteList` and the first `AddItem` were accepted, the second
      `AddItem` is the last call, and the third is never issued. */
  lemma RejectingSecondOfThree(a: Element, b: Element, c: Element)
    ensures var f: Callback := (h, call) => if |h| == 2 then Fail(Failure) else Pass;
      ListWrite(None, Array([a, b, c]), f) ==
        Run(Fail(Failure), [Call(DeleteList, Array([a, b, c])), Call(AddItem, a), Call(AddItem, b)])
  {
    var items := [a, b, c];
    var f: Callback := (h, call) => if |h| == 2 then Fail(Failure) else Pass;
    var dl, addA, addB, addC := Call(DeleteList, Array(items)), Call(AddItem, a), Call(AddItem, b), Call(AddItem, c);
    assert Plan(None, Array(items)) == [dl] + [addA, addB, addC];
    DriveCons(dl, [addA, addB, addC], f, []);
    assert [] + [dl] == [dl];
    assert [addA, addB, addC] == [addA] + [addB, addC];
    DriveCons(addA, [addB, addC], f, [dl]);
    assert [addB, addC] == [addB] + [addC];
    DriveCons(addB, [addC], f, [dl, addA]);
    assert [dl] + [addA] == [dl, addA];
    assert [dl, addA] + [addB] == [dl, addA, addB];
  }
}

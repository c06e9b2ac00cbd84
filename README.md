# Matter Interaction Model messages, modelled in Dafny

This project models the message layer of the Interaction Model of a Rust
implementation of Matter (matter-rs), the file
`matter/src/interaction_model/messages.rs`:

- **Path addressing.** `GenericPath` is three optional components
  (endpoint, cluster, leaf). An absent component is a wildcard.
  `not_wildcard` returns the concrete triple or `Error::Invalid`, and
  `is_wildcard` is its complement. The model gives wildcard a meaning:
  the predicate `Addresses` says which concrete elements a path stands
  for. The lemmas then show that a concrete path addresses exactly its
  own triple and that a wildcard path addresses more than one.
  `AttrPath::new` narrows the 32-bit leaf to a 16-bit attribute id with
  Rust's truncating `as u16`, and `to_gp` widens it back. `CmdPath::new`
  widens a 16-bit command id. `CmdPath::from_tlv` refuses a wildcard
  command id with `CommandNotFound`.
- **Interaction blocks.** These are the status, command-status, command
  and attribute response blocks and their constructors, plus
  `AttrResp::unwrap_data`.
- **List-write inference (`attr_list_write`).** This turns one attribute
  write into calls of the caller's callback: `DeleteItem`/`EditItem` for
  an item index, `DeleteList` then one `AddItem` per member for a
  whole-array write, and a single `AddItem` otherwise.
  - The method `Ib.AttrListWrite` keeps the source's loop.
  - It returns the final status and the ordered trace of callback calls.
  - It is proved equal to the reference definition `Ib.ListWrite`. That
    definition is the planned call sequence (`Ib.Plan`) driven through the
    callback, stopping at the first rejection (`Ib.Drive`).
  - The lemmas state the decision table, the ordering, the early exit and
    the error cases for that definition.
- **Message envelopes.** These are the Subscribe, Read, Write, Invoke,
  Report, Timed and Status envelopes as records with optional fields. The
  model covers the constructors, the `set_attr_requests` builders and the
  priming-read projection `SubscribeReq::to_read_req`. It also declares the
  explicit context-tag constants of the invoke, report-data and
  write-response messages.

Files:

- `types.dfy` (module `ImTypes`): integer widths, `Option`, `Nullable`,
  `Result`, error kinds, status codes, and the abstract TLV element.
- `messages.dfy` (module `Messages`): `GenericPath`.
- `ib.dfy` (module `Ib`): paths, blocks and the list write.
- `msg.dfy` (module `Msg`): the envelopes.

Modelling choices:

- **Integers.** Fixed-width integers are subset types of `int` (`u16`,
  `u32`, `u64`). The one narrowing cast in the core is written out as
  `% 0x1_0000`. The source truncates there rather than rejecting the
  value, and the model follows the code.
- **TLV payload.** The payload of a list write is the datatype `Element`.
  It has four cases: the null sentinel; an array with its members; an
  element that `confirm_array` accepts but `enter` cannot open
  (`BadArray`); and any other element.
- **List index.** The list index is `Option<Nullable<u16>>`. Only a
  present, non-null index selects a single item, so `Some(Null)` behaves
  exactly like `None`.
- **Callback.** The callback is a function of the history of earlier calls
  and the current call. This covers a stateful `FnMut` whose answers
  depend on what it has already been asked. A callback that ignores its
  history is the special case `(ListOperation, &TLVElement) -> Result`.
- **Trace.** The trace of calls is a real output of the method, so a
  caller can observe the order of the calls.

## Model

| member | source | states |
|---|---|---|
| `Messages.NotWildcard` | matter/src/interaction_model/messages.rs:44-53 | Ok with exactly the stored endpoint, cluster and leaf iff all three are present; otherwise `Err(Invalid)` |
| `Messages.IsWildcard` | matter/src/interaction_model/messages.rs:54-64 | true iff at least one of endpoint, cluster and leaf is absent |
| `Messages.WildcardIffNotConcrete` | matter/src/interaction_model/messages.rs:43-64 | `is_wildcard(p)` holds iff `not_wildcard(p)` is an error |
| `Messages.ConcretePathAddressesOnlyItsTarget` | matter/src/interaction_model/messages.rs:24-53 | a path that `not_wildcard` accepts addresses exactly the triple it returns and no other element |
| `Messages.WildcardAddressesSeveral` | matter/src/interaction_model/messages.rs:54-64 | a wildcard path addresses at least two distinct elements |
| `Messages.SeveralTargetsMeansWildcard` | matter/src/interaction_model/messages.rs:54-64 | a path that addresses two distinct elements is a wildcard (converse of the above) |
| `Ib.AttrPathNew` | matter/src/interaction_model/messages.rs:464-471 | endpoint and cluster copied; attr present iff leaf present, equal to leaf mod 2^16; tag compression, node and list index absent |
| `Ib.AttrPathToGp` | matter/src/interaction_model/messages.rs:473-475 | endpoint and cluster copied; leaf present iff attr present, with the same value |
| `Ib.AttrPathRoundTrip` | matter/src/interaction_model/messages.rs:464-475 | `to_gp(new(gp)) == gp` iff the leaf is absent or at most 0xFFFF; a wider leaf comes back as leaf mod 2^16 |
| `Ib.AttrPathFromGpRoundTrip` | matter/src/interaction_model/messages.rs:464-475 | `new(to_gp(p)) == p` for an attribute path without tag compression, node or list index |
| `Ib.AttrPathKeepsWildcard` | matter/src/interaction_model/messages.rs:464-475 | narrowing and widening a path keeps it wildcard or keeps it concrete |
| `Ib.CmdPathNew` | matter/src/interaction_model/messages.rs:499-511 | endpoint and cluster unchanged; leaf present iff the command id is, with the same value |
| `Ib.CmdPathFromTlv` | matter/src/interaction_model/messages.rs:515-526 | a decode error is passed on; on a decoded path it fails with `CommandNotFound` iff the leaf is absent, and otherwise returns `CmdPath{path: g}` |
| `Ib.DecodedCmdPathHasCommand` | matter/src/interaction_model/messages.rs:515-526 | every command path that decoding accepts has a concrete command id |
| `Ib.CmdPathNewPassesDecodeCheck` | matter/src/interaction_model/messages.rs:499-526 | a command path built with a command id passes the decoding check unchanged; one built without is refused with `CommandNotFound` |
| `Ib.CmdPathNewInjective` | matter/src/interaction_model/messages.rs:499-511 | widening the command id loses nothing: equal command paths come from equal arguments |
| `Ib.StatusNew` | matter/src/interaction_model/messages.rs:338-343 | the block carries the given status and cluster status |
| `Ib.CmdStatusNew` | matter/src/interaction_model/messages.rs:306-314 | the block keeps the command path and carries the given status and cluster status |
| `Ib.InvRespCmdNew` | matter/src/interaction_model/messages.rs:279-289 | always the `Cmd` variant with the given data; its path is concrete, equal to (endpoint, cluster, cmd), and passes the command-path decoding check |
| `Ib.InvRespStatusNew` | matter/src/interaction_model/messages.rs:291-296 | always the status variant; keeps the given command path and carries the given status and cluster status |
| `Ib.InvRespStatusIsCmdStatus` | matter/src/interaction_model/messages.rs:291-314 | the status response holds the same block that `CmdStatus::new` builds |
| `Ib.AttrStatusNew` | matter/src/interaction_model/messages.rs:443-448 | the path is `AttrPath::new` of the generic path and the status block is the given one |
| `Ib.AttrStatusRefersToPath` | matter/src/interaction_model/messages.rs:443-448 | an attribute status widens back to the generic path it was built from when the leaf fits in 16 bits |
| `Ib.AttrRespNew` | matter/src/interaction_model/messages.rs:355-357 | always the `Data` variant, with `data_ver == Some(v)` and the given path and data |
| `Ib.UnwrapData` | matter/src/interaction_model/messages.rs:359-366 | defined only on the `Data` variant and returns its payload: `Data(unwrap_data(r)) == r` |
| `Ib.UnwrapNewData` | matter/src/interaction_model/messages.rs:355-366 | unwrapping a freshly built response returns its data version, path and data |
| `Ib.AddEach` | matter/src/interaction_model/messages.rs:426-428 | one `AddItem` per array member, same length, k-th call carries the k-th member |
| `Ib.Plan` | matter/src/interaction_model/messages.rs:410-433 | the decision table: a present, non-null index gives one `DeleteItem(i)` (null payload) or `EditItem(i)`; otherwise an array gives `DeleteList` then one `AddItem` per member in order, an unenterable array gives `[DeleteList]`, and any other payload one `AddItem` |
| `Ib.Drive` | matter/src/interaction_model/messages.rs:422-428 | the calls already done stay at the front of the trace, which grows by at most the number of pending calls; a failure issued at least one call |
| `Ib.ListWrite` | matter/src/interaction_model/messages.rs:402-434 | the trace is a non-empty prefix of the planned calls; an array that cannot be entered never succeeds |
| `Ib.AttrListWrite` | matter/src/interaction_model/messages.rs:402-434 | the status and callback trace of the loop are those of the reference list-write behaviour |
| `Ib.DriveIssuesPrefix` | matter/src/interaction_model/messages.rs:422-428 | the calls issued are a prefix of the planned ones, in order; a failure ends with the rejected call and is its answer; a success issued every call |
| `Ib.DriveAcceptsAllButLast` | matter/src/interaction_model/messages.rs:422-428 | every call issued before the last, and on success the last too, was accepted by the callback |
| `Ib.DriveShape` | matter/src/interaction_model/messages.rs:422-428 | issuing calls with `?` early exit: a prefix of the calls is issued, all but the last accepted; success iff all were issued and accepted; a failure is the last call's rejection |
| `Ib.ListWriteFollowsPlan` | matter/src/interaction_model/messages.rs:402-434 | in every branch the trace is a non-empty prefix of the planned calls; the first rejection is returned and stops the write; success iff every planned call was accepted and the payload could be entered |
| `Ib.IndexedWriteIsOneCall` | matter/src/interaction_model/messages.rs:410-418 | with `Some(NotNull(i))`, exactly one call: `DeleteItem(i)` on a null payload, `EditItem(i)` otherwise, with the original payload; its answer is the result |
| `Ib.NullIndexActsAsAbsent` | matter/src/interaction_model/messages.rs:410 | a write with list index `Some(Null)` behaves exactly like one with no list index |
| `Ib.ReplaceListIssuesDeleteThenAdds` | matter/src/interaction_model/messages.rs:419-429 | array payload without an item index: trace is `DeleteList`, then `AddItem(a1)`, `AddItem(a2)`, … in array order; the first rejection is returned and nothing after it is issued; `Ok` iff all n+1 calls were accepted |
| `Ib.UnenterableArrayStopsAfterDeleteList` | matter/src/interaction_model/messages.rs:422-425 | an array that cannot be entered: trace exactly `[DeleteList]`, and the result is always a failure (the callback's rejection, or the invalid-data status) |
| `Ib.SingleElementIsOneAdd` | matter/src/interaction_model/messages.rs:430-433 | no item index and a non-array payload: exactly one `AddItem(payload)`, and its answer is the result |
| `Ib.RejectingSecondOfThree` | matter/src/interaction_model/messages.rs:422-428 | a callback that rejects the third call it receives, the `AddItem` of the second member of `[a, b, c]`, whatever the members are: the trace is `DeleteList, AddItem(a), AddItem(b)`, the result is that rejection, and `AddItem(c)` is never issued |
| `Msg.SubscribeReqNew` | matter/src/interaction_model/messages.rs:96-103 | fabric filter and interval bounds as given; `keep_subs` false; every array and the reserved field absent |
| `Msg.SubscribeReqSetAttrRequests` | matter/src/interaction_model/messages.rs:105-108 | attribute requests set to the given array; every other field unchanged |
| `Msg.SubscribeReqToReadReq` | matter/src/interaction_model/messages.rs:110-118 | attribute requests, event requests, event filters, fabric filter and data-version filters copied unchanged |
| `Msg.ToReadReqDropsOnlySubscriptionFields` | matter/src/interaction_model/messages.rs:110-118 | two subscribe requests project to the same read request iff they differ only in `keep_subs`, the interval bounds and the reserved field |
| `Msg.ReadReqNew` | matter/src/interaction_model/messages.rs:188-193 | fabric filter as given; every array absent |
| `Msg.ReadReqSetAttrRequests` | matter/src/interaction_model/messages.rs:195-198 | attribute requests set to the given array; every other field unchanged |
| `Msg.PrimingReadOfNewSubscription` | matter/src/interaction_model/messages.rs:96-118 | building a subscription and projecting it equals building the read request from the same fabric filter and attribute requests |
| `Msg.SubscribeRespNew` | matter/src/interaction_model/messages.rs:130-136 | subscription id and maximum interval as given; reserved field absent |
| `Msg.WriteReqNew` | matter/src/interaction_model/messages.rs:211-222 | `supress_response == Some(true)` iff asked for, absent otherwise; the given write requests; `timed_request` and `more_chunked` absent |

## Left out

- The TLV codec is not part of this model. This covers the
  `FromTLV`/`ToTLV` derivations, `TLVElement::{null, confirm_array, enter}`,
  `TLVWriter` and `TLVArray`. A payload is the abstract `Element`, and
  arrays of blocks are sequences.
- Encode/decode round-trips are not modelled, for the same reason. Nor is
  the wire tag layout that follows from field order, including the reserved
  slots of `SubscribeReq` and `SubscribeResp`. The reserved fields exist
  as record fields only. The explicit tag constants are declared but are
  not tied to an encoding.
- `EncodeValue` is an opaque handle. Its deferred closures are foreign code
  at this layer.
- `IMStatusCode` is an abstract enumeration. The `Error::Invalid` to status
  conversion at `attr_list_write`'s `ok_or(Error::Invalid)?` is the one
  fixed status `InvalidStatus`, because that conversion is defined outside
  this file.
- `attr_list_write` receives the whole `AttrDetails`. The model passes
  only its `list_index`, the one field the function reads.
- `GenericPath::new`, `CmdData::new` and `AttrData::new` are the datatype
  constructors themselves.
- The `cmd_path_ib!` macro (matter/src/interaction_model/messages.rs:485-495)
  is not modelled. It takes any integer expression as the command id and
  casts it with `as u32`. Only for a command id that fits in 16 bits does
  it build the same value as `CmdPath::new` with all three components
  present.
- UnwrapData: the panic of `unwrap_data` on the status variant
  (matter/src/interaction_model/messages.rs:362-364) is the precondition
  `requires resp.Data?`; the panic itself is not represented.
- The `set_attr_requests` builders take `mut self` by value. They are
  modelled as functions that return the updated record. The moved value
  cannot be observed, so in-place update adds nothing.
- `TimedReq`, `StatusResp`, `InvReq`, the invoke response, `ReportDataMsg`
  and `WriteResp` are records only. The source defines no operations on
  them.
- The `error!` log call at `CmdPath::from_tlv`, lifetimes and borrowing
  are left out. They do not affect the logic.
- `matter/src/data_model/system_model/descriptor.rs` is not part of this
  model. It is writer and lock plumbing over the data-model tree, whose
  iteration functions are not part of this model either.
- A wildcard read fanning out over the data-model tree is not modelled.
  The dispatcher that does it is not part of this model.

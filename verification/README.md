# EGFX graphics pipeline server, modelled in Dafny

This project models `GraphicsPipelineServer`, the server side of the Remote
Desktop Protocol Graphics Pipeline Extension (MS-RDPEGFX) in IronRDP. The
server is a small state machine with three states: `WaitingForCapabilities`,
`Ready` and `Closed`. It works as follows:

- It answers a client's Capabilities Advertise (section 2.2.2.18 of
  MS-RDPEGFX) with four PDUs, in this order:
  - Capabilities Confirm (2.2.2.19);
  - Reset Graphics (2.2.2.14);
  - Create Surface (2.2.2.9);
  - Map Surface To Output (2.2.2.15).
- It queues H.264/AVC420 frames. Each frame is three PDUs: Start Frame
  (2.2.2.11), Wire To Surface 1 (2.2.2.1) and End Frame (2.2.2.12).
- It limits the frames that await a Frame Acknowledge (2.2.2.13). This is
  flow control.
- It keeps every outgoing PDU in a FIFO output queue until the channel
  layer drains it.

Files:

- `wrappers.dfy`: `Option` and `Result`.
- `machine_ints.dfy`: the `u8`/`u16`/`u32`/`u64` newtypes. It also writes
  out the machine arithmetic the server relies on: `wrapping_add`,
  `saturating_sub` and the truncating `as` casts.
- `gfx_pdu.dfy`: the decoded PDUs, capability sets, rectangles, regions
  and timestamps.
- `negotiation.dfy`: the capability choice. `Negotiated` is the
  specification; `NegotiateCapabilities` is the server's search loop,
  proved equal to it.
- `frame_layout.dfy`: the destination rectangle of a frame and the split
  of its millisecond timestamp.
  - The rectangle loop, `ComputeDestinationRect`, is proved equal to
    `DestinationRect`.
  - `DestinationRect` is proved to be the bounding box of the regions.
  - The timestamp split is proved to lose exactly the whole days. It is a
    bijection between one day of milliseconds and the valid timestamps.
- `egfx_server.dfy`: the server as a class whose fields the methods update
  in place. It ends with client methods whose postconditions follow from
  the class contracts alone:
  - `NewServerRefusesFrames` restates the unit tests `test_server_creation`
    and `test_server_not_ready` of `server.rs`, and `BackpressureAtLimit`
    restates its `test_backpressure`;
  - `AcknowledgementReleasesBackpressure`, `ClosedServerRefusesFrames` and
    `HandshakeThenFrame` are further scenarios of the same kind, with no
    counterpart among those tests.

The class invariant `Valid()` states the following:

- The frame id is the number of frames queued so far, modulo 2^32.
- The ghost log of issued ids holds one id per queued frame, and the k-th
  queued frame got id k modulo 2^32.
- No more frames are in flight than were ever queued.
- Before the first handshake, nothing is negotiated, sent or queued.
- The channel is ready only once a capability set has been negotiated.
- The output queue holds only server-to-client PDUs.

Other facts the model shows:

- In `send_avc420_frame`, `frames_in_flight += 1` never overflows a `u32`.
  The model's `u32` arithmetic is checked against the type's range, and
  the backpressure guard keeps the counter below `max_frames_in_flight`.
- In the timestamp split, the narrowing casts to `u16` and `u8` never
  truncate.
- A Capabilities Advertise processed after `close` puts the server back in
  `Ready`. `process` does not look at the state before dispatching, and
  the model keeps this behaviour.

## Model

| member | source | states |
|---|---|---|
| `MachineInts.WrappingAddU32` | crates/ironrdp-egfx/src/server.rs:231 | `wrapping_add` gives the sum modulo 2^32 |
| `MachineInts.SaturatingSubU16` | crates/ironrdp-egfx/src/server.rs:290-291 | `saturating_sub` gives the exact difference when it is non-negative, 0 otherwise, and never more than the minuend |
| `MachineInts.TruncateU8` | crates/ironrdp-egfx/src/server.rs:298-299 | an `as u8` cast keeps every value below 256 unchanged |
| `MachineInts.TruncateU16` | crates/ironrdp-egfx/src/server.rs:297-300 | an `as u16` cast keeps every value below 65536 unchanged |
| `EgfxPdu.Discriminant` | crates/ironrdp-egfx/src/server.rs:418 | `core::mem::discriminant` gives a capability set a number below 12 that does not depend on the payload; that equal numbers pick out exactly the same variant is `SameVersion`'s contract |
| `EgfxPdu.SameVersion` | crates/ironrdp-egfx/src/server.rs:418 | two sets compare equal exactly when they are the same variant, whatever their flags or payload |
| `Negotiation.Negotiated` | crates/ironrdp-egfx/src/server.rs:405-428 | the confirmed set is either the fallback V8.1 with AVC420 enabled, or the server's first set with a version the client advertised |
| `Negotiation.NegotiateCapabilities` | crates/ironrdp-egfx/src/server.rs:413-427 | the early-return search over the client's sets yields exactly `Negotiated` |
| `Negotiation.AgreementConfirmsServerChoice` | crates/ironrdp-egfx/src/server.rs:415-420 | if some client set has the variant of the server's first set, that set is confirmed unchanged, flags included |
| `Negotiation.DisagreementConfirmsFallback` | crates/ironrdp-egfx/src/server.rs:415-427 | with an empty server list, or when no client set has the variant of the server's first set, V8.1 with AVC420 is confirmed |
| `Negotiation.OnlyFirstServerSetMatters` | crates/ironrdp-egfx/src/server.rs:413-415 | server sets after the first never change the outcome |
| `Negotiation.OnlyClientVersionsMatter` | crates/ironrdp-egfx/src/server.rs:417-418 | two client lists that name the same variants give the same outcome: order, repetition and payloads do not matter |
| `FrameLayout.HullIsBoundingBox` | crates/ironrdp-egfx/src/server.rs:272-285 | the min/max loop yields a rectangle that contains every region, and each of its four edges is an edge of some region |
| `FrameLayout.DestinationRect` | crates/ironrdp-egfx/src/server.rs:272-293 | the bounding box of the regions; for no regions, the whole desktop from (0, 0) to (width-1, height-1), with an edge of 0 when that dimension is 0; well-formed regions give a well-formed rectangle |
| `FrameLayout.ComputeDestinationRect` | crates/ironrdp-egfx/src/server.rs:272-293 | the loop over the regions computes `DestinationRect` |
| `FrameLayout.SplitTimestamp` | crates/ironrdp-egfx/src/server.rs:296-301 | each field is the matching div/mod of the timestamp, so no cast truncates: milliseconds < 1000, seconds < 60, minutes < 60, hours < 24 |
| `FrameLayout.SplitKeepsTimeOfDay` | crates/ironrdp-egfx/src/server.rs:296-301 | joining the fields again gives the timestamp modulo one day |
| `FrameLayout.SplitOfTimeOfDay` | crates/ironrdp-egfx/src/server.rs:296-301 | every valid timestamp is the split of its own time of day, so the split is onto and, within a day, inverse to joining |
| `EgfxServer.AfterAck` | crates/ironrdp-egfx/src/server.rs:434-437 | an acknowledgement takes one from a positive in-flight count and leaves 0 at 0, never underflowing |
| `EgfxServer.IssuedFrameIdsDistinct` | crates/ironrdp-egfx/src/server.rs:229-233 | for any valid server, two frames it queued fewer than 2^32 frames apart were given different ids |
| `EgfxServer.GraphicsPipelineServer.constructor` | crates/ironrdp-egfx/src/server.rs:166-179 | a new server waits for capabilities, has nothing negotiated, surface 0, the given dimensions, frame id 0, no frame in flight, limit 3 and an empty queue |
| `EgfxServer.GraphicsPipelineServer.SetMaxFramesInFlight` | crates/ironrdp-egfx/src/server.rs:182-184 | stores the new limit and keeps the invariant |
| `EgfxServer.GraphicsPipelineServer.IsReady` | crates/ironrdp-egfx/src/server.rs:188-190 | a ready server has a negotiated capability set |
| `EgfxServer.GraphicsPipelineServer.ShouldBackpressure` | crates/ironrdp-egfx/src/server.rs:197-199 | when backpressure is off, one more frame fits under the limit; a limit of 0 always applies backpressure |
| `EgfxServer.GraphicsPipelineServer.HasPendingOutput` | crates/ironrdp-egfx/src/server.rs:343-345 | a valid server that still waits for capabilities has no output pending |
| `EgfxServer.GraphicsPipelineServer.SetDimensions` | crates/ironrdp-egfx/src/server.rs:223-226 | stores the new width and height and keeps the invariant |
| `EgfxServer.GraphicsPipelineServer.NextFrameId` | crates/ironrdp-egfx/src/server.rs:229-233 | returns the old frame id and advances it by one modulo 2^32 |
| `EgfxServer.GraphicsPipelineServer.SendAvc420Frame` | crates/ironrdp-egfx/src/server.rs:247-328 | refused, with no state changed, exactly when the server is not ready or `frames_in_flight >= max_frames_in_flight`. Otherwise it returns the old frame id (the count of earlier frames modulo 2^32), records it in the issued-id log, advances the id modulo 2^32 and adds exactly 1 to the in-flight count. It appends Start Frame (the split timestamp and that id), Wire To Surface 1 (the current surface, AVC420, XRGB, the destination rectangle) and End Frame (that id) after the untouched earlier queue |
| `EgfxServer.GraphicsPipelineServer.DrainOutput` | crates/ironrdp-egfx/src/server.rs:334-345 | returns the queued PDUs in FIFO order, all of them server messages, and leaves the queue empty, so no output is pending |
| `EgfxServer.GraphicsPipelineServer.HandleCapabilitiesAdvertise` | crates/ironrdp-egfx/src/server.rs:348-401 | records the negotiated set. It appends Capabilities Confirm(negotiated), Reset Graphics(width, height, no monitors), Create Surface(surface, width, height, XRGB) and Map Surface To Output(surface, 0, 0), in that order. The state becomes `Ready`. The handler is told first of the advertise, then of readiness with the surface and dimensions |
| `EgfxServer.GraphicsPipelineServer.HandleFrameAcknowledge` | crates/ironrdp-egfx/src/server.rs:431-442 | the in-flight count drops by one, saturating at 0, and the handler receives the acknowledgement and the acknowledged frame id |
| `EgfxServer.GraphicsPipelineServer.Close` | crates/ironrdp-egfx/src/server.rs:458-462 | the state becomes `Closed`, the server is not ready, and the handler is told |
| `EgfxServer.GraphicsPipelineServer.Process` | crates/ironrdp-egfx/src/server.rs:464-484 | an undecodable message is returned as an error with no state changed. Otherwise the message is dispatched: an advertise runs the handshake, an acknowledgement releases a frame, a cache import offer goes to the handler, and anything else changes nothing. The whole queue is then returned and emptied |
| `EgfxServer.NewServerRefusesFrames` | crates/ironrdp-egfx/src/server.rs:519-540 | a new 1920x1080 server is not ready, has 0 frames in flight, reports its dimensions and refuses a frame |
| `EgfxServer.BackpressureAtLimit` | crates/ironrdp-egfx/src/server.rs:542-562 | with a limit of 2, frames 0 and 1 are accepted, backpressure is then on, and the third frame is refused |
| `EgfxServer.AcknowledgementReleasesBackpressure` | crates/ironrdp-egfx/src/server.rs:431-437 | at a limit of 1 the first frame is accepted with id 0 and a second is refused; after one acknowledgement the next frame is accepted with id 1 |
| `EgfxServer.ClosedServerRefusesFrames` | crates/ironrdp-egfx/src/server.rs:458-462 | after `close` the server is not ready and refuses frames |
| `EgfxServer.BuildFramePdus` | crates/ironrdp-egfx/src/server.rs:268-317 | the rectangle loop and timestamp split of a frame send build exactly Start Frame, Wire To Surface 1 and End Frame of `FramePdus`, all server messages |
| `EgfxServer.HandshakeThenFrame` | crates/ironrdp-egfx/src/server.rs:10-26 | the message flow: the frame is accepted with id 0, and everything drained is exactly the four handshake PDUs for the negotiated set, surface 0 and 1920x1080, then the three PDUs of frame 0, and nothing is left pending |

## Left out

- Wire encoding and decoding are not modelled. `decode`, `encode_avc420_bitmap_stream` and the PDU types come from the crate's PDU module, which is not part of this model. So:
  - The twelve `CapabilitySet` variants are taken from that module's capability set type. Negotiation only asks whether two sets are the same variant, so no property depends on the exact list.
  - `Process` receives the decode result as a `Result`, which keeps the error path.
  - The bitmap stream of a Wire To Surface 1 PDU is recorded as the regions and H.264 data it is built from.
- Capability flags are kept as raw 32-bit fields, not as typed bit sets.
- Handler callbacks are foreign code.
  - The model records each call, with its arguments, in the ghost `events` log; what the handler does is not modelled.
  - `preferred_capabilities` is taken as the `serverCaps` parameter.
- Tracing, boxing into `DvcMessage`, `impl_as_any!`, the `Send` bound, `start`, `channel_name` and the unused `channel_id` arguments are plumbing with no effect on the state. They are not modelled.
- The accessors `frames_in_flight`, `surface_id` and `dimensions` only return fields. The model's callers read those fields directly.
- BackpressureAtLimit: the unit test at `server.rs:548` writes `state = Ready` directly into the private field. That would leave a ready server with nothing negotiated, which `Valid()` excludes, so the model reaches `Ready` through a Capabilities Advertise instead.
- `set_dimensions` only stores the new size, as the source does. No re-handshake follows it in the source, so there is none to model.

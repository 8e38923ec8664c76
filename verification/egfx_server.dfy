/** The server side of the Graphics Pipeline Extension channel: the
    capability handshake, surface setup, AVC420 frame queuing with flow
    control, and the output queue that the channel layer drains. */
module EgfxServer {
  import opened Wrappers
  import opened MachineInts
  import opened EgfxPdu
  import opened Negotiation
  import opened FrameLayout

  /** Frames that may await acknowledgement before backpressure applies,
      unless the application sets another limit. */
  const DEFAULT_MAX_FRAMES_IN_FLIGHT: u32 := 3

  datatype ServerState = WaitingForCapabilities | Ready | Closed

  /** The calls the server makes into the application's handler, in the
      order it makes them.  The handler's own behaviour is not modelled. */
  datatype HandlerEvent =
    | CapabilitiesAdvertised(capsSets: seq<CapabilitySet>)
    | OnReady(surfaceId: u16, width: u16, height: u16)
    | FrameAcknowledged(queueDepth: u32, frameId: u32, totalFramesDecoded: u32)
    | OnFrameAck(frameId: u32)
    | CacheImportOffered(cacheEntries: seq<CacheEntryMetadata>)
    | OnClose

  /** The four PDUs that answer a Capabilities Advertise, in order. */
  function HandshakePdus(negotiated: CapabilitySet, surfaceId: u16, width: u16, height: u16): seq<GfxPdu>
  {
    [ CapabilitiesConfirm(negotiated),
      ResetGraphics(width as u32, height as u32, []),
      CreateSurface(surfaceId, width, height, XRgb),
      MapSurfaceToOutput(surfaceId, 0, 0) ]
  }

  /** The three PDUs that carry one AVC420 frame, in order. */
  function FramePdus(frameId: u32, surfaceId: u16, width: u16, height: u16,
                     h264Data: seq<u8>, regions: seq<Avc420Region>, timestampMs: u32): seq<GfxPdu>
  {
    [ StartFrame(SplitTimestamp(timestampMs), frameId),
      WireToSurface1(surfaceId, Avc420, XRgb, DestinationRect(regions, width, height),
                     Avc420Stream(regions, h264Data)),
      EndFrame(frameId) ]
  }

  /** Build the three PDUs of one frame: the destination rectangle loop and
      the timestamp split of the frame send, then the three messages. */
  method BuildFramePdus(frameId: u32, surfaceId: u16, width: u16, height: u16,
                        h264Data: seq<u8>, regions: seq<Avc420Region>, timestampMs: u32)
    returns (pdus: seq<GfxPdu>)
    ensures pdus == FramePdus(frameId, surfaceId, width, height, h264Data, regions, timestampMs)
    ensures forall p :: p in pdus ==> p.IsServerMessage()
  {
    var bitmapData := Avc420Stream(regions, h264Data);
    var destRect := ComputeDestinationRect(regions, width, height);
    var timestamp := SplitTimestamp(timestampMs);
    pdus := [StartFrame(timestamp, frameId),
             WireToSurface1(surfaceId, Avc420, XRgb, destRect, bitmapData),
             EndFrame(frameId)];
  }

  /** `frames_in_flight` after an acknowledgement: one less, never below zero. */
  function AfterAck(inFlight: u32): (r: u32)
    ensures inFlight > 0 ==> r as int == inFlight as int - 1
    ensures inFlight == 0 ==> r == 0
  {
    if inFlight > 0 then inFlight - 1 else 0
  }

  /** A counter kept modulo 2^32 that is advanced by one (wrapping) still
      holds the advanced count modulo 2^32. */
  lemma SuccessorModulo(counter: u32, next: u32, count: nat)
    requires counter as int == count % U32_MODULUS
    requires next as int == (counter as int + 1) % U32_MODULUS
    ensures next as int == (count + 1) % U32_MODULUS
  {
  }

  /** The k-th id of `ids` is k modulo 2^32: ids are handed out by a
      wrapping counter that starts at 0. */
  ghost predicate CountsModulo(ids: seq<u32>)
  {
    forall k :: 0 <= k < |ids| ==> ids[k] as int == k % U32_MODULUS
  }

  /** Handing out the next id of the counter keeps `CountsModulo`. */
  lemma CountsModuloAppend(ids: seq<u32>, id: u32)
    requires CountsModulo(ids) && id as int == |ids| % U32_MODULUS
    ensures CountsModulo(ids + [id])
  {
  }

  class GraphicsPipelineServer {
    var state: ServerState
    var negotiatedCaps: Option<CapabilitySet>
    var surfaceId: u16
    var width: u16
    var height: u16
    var frameId: u32
    var framesInFlight: u32
    var maxFramesInFlight: u32
    var outputQueue: seq<GfxPdu>

    /** Number of frames queued since creation. */
    ghost var framesSent: nat
    /** The ids handed out to queued frames, oldest first. */
    ghost var issuedIds: seq<u32>
    /** The handler calls made so far. */
    ghost var events: seq<HandlerEvent>

    /** The object invariant: frame ids count queued frames modulo 2^32, so
        the k-th queued frame got id k modulo 2^32;
        no more frames are in flight than were ever sent; nothing has been
        negotiated, sent or queued before the first handshake; the channel is
        ready only with a negotiated capability set; the output queue only
        holds server-to-client messages. */
    ghost predicate Valid()
      reads this
    {
      && frameId as int == framesSent % U32_MODULUS
      && |issuedIds| == framesSent
      && CountsModulo(issuedIds)
      && framesInFlight as int <= framesSent
      && (state == WaitingForCapabilities ==>
            negotiatedCaps == None && framesSent == 0 && outputQueue == [])
      && (state == Ready ==> negotiatedCaps.Some?)
      && (forall p :: p in outputQueue ==> p.IsServerMessage())
    }

    constructor (width: u16, height: u16)
      ensures Valid()
      ensures state == WaitingForCapabilities && negotiatedCaps == None
      ensures surfaceId == 0 && this.width == width && this.height == height
      ensures frameId == 0 && framesInFlight == 0
      ensures maxFramesInFlight == DEFAULT_MAX_FRAMES_IN_FLIGHT
      ensures outputQueue == [] && events == [] && issuedIds == []
    {
      state := WaitingForCapabilities;
      negotiatedCaps := None;
      surfaceId := 0;
      this.width := width;
      this.height := height;
      frameId := 0;
      framesInFlight := 0;
      maxFramesInFlight := DEFAULT_MAX_FRAMES_IN_FLIGHT;
      outputQueue := [];
      framesSent := 0;
      issuedIds := [];
      events := [];
    }

    method SetMaxFramesInFlight(max: u32)
      requires Valid()
      modifies this`maxFramesInFlight
      ensures Valid() && maxFramesInFlight == max
    {
      maxFramesInFlight := max;
    }

    /** Frames may be sent.  Readiness implies a negotiated capability set. */
    predicate IsReady()
      reads this
      ensures IsReady() && Valid() ==> negotiatedCaps.Some?
    {
      state == Ready
    }

    /** Too many frames await acknowledgement.  When it is off, one more
        frame still fits under the limit, so counting it cannot overflow. */
    predicate ShouldBackpressure()
      reads this
      ensures !ShouldBackpressure() ==> framesInFlight as int + 1 <= maxFramesInFlight as int
      ensures maxFramesInFlight == 0 ==> ShouldBackpressure()
    {
      framesInFlight >= maxFramesInFlight
    }

    /** PDUs await draining.  Nothing is pending before the handshake. */
    predicate HasPendingOutput()
      reads this
      ensures Valid() && state == WaitingForCapabilities ==> !HasPendingOutput()
    {
      outputQueue != []
    }

    method SetDimensions(width: u16, height: u16)
      requires Valid()
      modifies this`width, this`height
      ensures Valid() && this.width == width && this.height == height
    {
      this.width := width;
      this.height := height;
    }

    /** Hand out the current frame id and advance it, wrapping at 2^32. */
    method NextFrameId() returns (id: u32)
      modifies this`frameId
      ensures id == old(frameId)
      ensures frameId as int == (id as int + 1) % U32_MODULUS
    {
      id := frameId;
      frameId := WrappingAddU32(frameId, 1);
    }

    /** Queue one AVC420 frame.  Refused (None, nothing changes) when the
        channel is not ready or the in-flight limit is reached; otherwise the
        frame's three PDUs are appended and its id is returned. */
    method SendAvc420Frame(h264Data: seq<u8>, regions: seq<Avc420Region>, timestampMs: u32)
      returns (r: Option<u32>)
      requires Valid()
      modifies this
      ensures Valid()
      ensures r.None? <==> old(state) != Ready || old(framesInFlight) >= old(maxFramesInFlight)
      ensures r.None? ==> unchanged(this)
      ensures r.Some? ==> r.value == old(frameId) && r.value as int == old(framesSent) % U32_MODULUS
      ensures r.Some? ==> frameId as int == (old(frameId) as int + 1) % U32_MODULUS
      ensures r.Some? ==> framesInFlight as int == old(framesInFlight) as int + 1
      ensures r.Some? ==> framesSent == old(framesSent) + 1 && issuedIds == old(issuedIds) + [r.value]
      ensures r.Some? ==>
        outputQueue == old(outputQueue) + FramePdus(r.value, surfaceId, width, height, h264Data, regions, timestampMs)
      ensures r.Some? ==> state == old(state) && negotiatedCaps == old(negotiatedCaps)
      ensures r.Some? ==> surfaceId == old(surfaceId) && width == old(width) && height == old(height)
      ensures r.Some? ==> maxFramesInFlight == old(maxFramesInFlight) && events == old(events)
    {
      if !IsReady() {
        return None;
      }
      if ShouldBackpressure() {
        return None;
      }
      var id := NextFrameId();
      SuccessorModulo(id, frameId, framesSent);
      CountsModuloAppend(issuedIds, id);
      issuedIds := issuedIds + [id];
      framesSent := framesSent + 1;
      var pdus := BuildFramePdus(id, surfaceId, width, height, h264Data, regions, timestampMs);
      outputQueue := outputQueue + pdus;
      framesInFlight := framesInFlight + 1;
      return Some(id);
    }

    /** Take every queued PDU, oldest first, leaving the queue empty. */
    method DrainOutput() returns (out: seq<GfxPdu>)
      requires Valid()
      modifies this`outputQueue
      ensures Valid()
      ensures out == old(outputQueue) && outputQueue == []
      ensures forall p :: p in out ==> p.IsServerMessage()
    {
      out := outputQueue;
      outputQueue := [];
    }

    /** Answer a Capabilities Advertise: confirm the negotiated set, reset
        the graphics to the desktop size, create the surface and map it to
        the output origin; the channel is then ready. */
    method HandleCapabilitiesAdvertise(capsSets: seq<CapabilitySet>, serverCaps: seq<CapabilitySet>)
      requires Valid()
      modifies this
      ensures Valid()
      ensures state == Ready
      ensures negotiatedCaps == Some(Negotiated(capsSets, serverCaps))
      ensures outputQueue == old(outputQueue)
                + HandshakePdus(Negotiated(capsSets, serverCaps), surfaceId, width, height)
      ensures events == old(events) + [CapabilitiesAdvertised(capsSets), OnReady(surfaceId, width, height)]
      ensures surfaceId == old(surfaceId) && width == old(width) && height == old(height)
      ensures frameId == old(frameId) && framesInFlight == old(framesInFlight)
      ensures maxFramesInFlight == old(maxFramesInFlight) && framesSent == old(framesSent)
      ensures issuedIds == old(issuedIds)
    {
      events := events + [CapabilitiesAdvertised(capsSets)];
      var negotiated := NegotiateCapabilities(capsSets, serverCaps);
      negotiatedCaps := Some(negotiated);
      outputQueue := outputQueue + [CapabilitiesConfirm(negotiated)];
      outputQueue := outputQueue + [ResetGraphics(width as u32, height as u32, [])];
      outputQueue := outputQueue + [CreateSurface(surfaceId, width, height, XRgb)];
      outputQueue := outputQueue + [MapSurfaceToOutput(surfaceId, 0, 0)];
      state := Ready;
      events := events + [OnReady(surfaceId, width, height)];
    }

    /** Count one frame as acknowledged, saturating at zero. */
    method HandleFrameAcknowledge(queueDepth: u32, ackFrameId: u32, totalFramesDecoded: u32)
      requires Valid()
      modifies this`framesInFlight, this`events
      ensures Valid()
      ensures framesInFlight == AfterAck(old(framesInFlight))
      ensures framesInFlight <= old(framesInFlight)
      ensures events == old(events)
                + [FrameAcknowledged(queueDepth, ackFrameId, totalFramesDecoded), OnFrameAck(ackFrameId)]
    {
      if framesInFlight > 0 {
        framesInFlight := framesInFlight - 1;
      }
      events := events + [FrameAcknowledged(queueDepth, ackFrameId, totalFramesDecoded)];
      events := events + [OnFrameAck(ackFrameId)];
    }

    /** The channel was closed. */
    method Close()
      requires Valid()
      modifies this`state, this`events
      ensures Valid()
      ensures state == Closed && !IsReady()
      ensures events == old(events) + [OnClose]
    {
      state := Closed;
      events := events + [OnClose];
    }

    /** One incoming channel message.  A message that did not decode is an
        error and changes nothing; otherwise the message is dispatched and
        everything queued, old and new, is returned and the queue emptied. */
    method Process(incoming: Result<GfxPdu, DecodeError>, serverCaps: seq<CapabilitySet>)
      returns (r: Result<seq<GfxPdu>, DecodeError>)
      requires Valid()
      modifies this
      ensures Valid()
      ensures incoming.Failure? ==> r == Failure(incoming.error) && unchanged(this)
      ensures incoming.Success? ==> r.Success? && outputQueue == []
      ensures incoming.Success? ==>
        && surfaceId == old(surfaceId) && width == old(width) && height == old(height)
        && frameId == old(frameId) && maxFramesInFlight == old(maxFramesInFlight)
        && framesSent == old(framesSent) && issuedIds == old(issuedIds)
      ensures incoming.Success? && incoming.value.CapabilitiesAdvertise? ==>
        && state == Ready
        && events == old(events) + [CapabilitiesAdvertised(incoming.value.capsSets), OnReady(surfaceId, width, height)]
        && negotiatedCaps == Some(Negotiated(incoming.value.capsSets, serverCaps))
        && framesInFlight == old(framesInFlight)
        && r.value == old(outputQueue)
             + HandshakePdus(Negotiated(incoming.value.capsSets, serverCaps), surfaceId, width, height)
      ensures incoming.Success? && incoming.value.FrameAcknowledge? ==>
        && state == old(state) && negotiatedCaps == old(negotiatedCaps)
        && framesInFlight == AfterAck(old(framesInFlight))
        && events == old(events) + [FrameAcknowledged(incoming.value.queueDepth, incoming.value.frameId,
                                                      incoming.value.totalFramesDecoded),
                                    OnFrameAck(incoming.value.frameId)]
        && r.value == old(outputQueue)
      ensures incoming.Success? && incoming.value.CacheImportOffer? ==>
        events == old(events) + [CacheImportOffered(incoming.value.cacheEntries)]
      ensures (incoming.Success? && !incoming.value.CapabilitiesAdvertise? && !incoming.value.FrameAcknowledge?
               && !incoming.value.CacheImportOffer?) ==> events == old(events)
      ensures incoming.Success? && !incoming.value.CapabilitiesAdvertise? && !incoming.value.FrameAcknowledge? ==>
        && state == old(state) && negotiatedCaps == old(negotiatedCaps)
        && framesInFlight == old(framesInFlight)
        && r.value == old(outputQueue)
    {
      if incoming.Failure? {
        return Failure(incoming.error);
      }
      match incoming.value {
        case CapabilitiesAdvertise(capsSets) =>
          HandleCapabilitiesAdvertise(capsSets, serverCaps);
        case FrameAcknowledge(queueDepth, ackFrameId, totalFramesDecoded) =>
          HandleFrameAcknowledge(queueDepth, ackFrameId, totalFramesDecoded);
        case CacheImportOffer(cacheEntries) =>
          events := events + [CacheImportOffered(cacheEntries)];
        case _ =>
      }
      var out := DrainOutput();
      return Success(out);
    }
  }

  /** Frame ids repeat only after 2^32 frames: two frames queued by the
      same server fewer than 2^32 frames apart were given different ids. */
  lemma IssuedFrameIdsDistinct(server: GraphicsPipelineServer, m: nat, n: nat)
    requires server.Valid()
    requires m < n < |server.issuedIds| && n < m + U32_MODULUS
    ensures server.issuedIds[m] != server.issuedIds[n]
  {
  }

  // -----------------------------------------------------------------------
  // Client methods: what a caller can conclude from the contracts above
  // alone.  The first two restate the unit tests of `server.rs`; the other
  // three are further scenarios of the same kind.

  /** A new 1920x1080 server is not ready, has no frame in flight and keeps
      the given dimensions; a frame offered to it is refused. */
  method NewServerRefusesFrames(h264Data: seq<u8>, regions: seq<Avc420Region>)
    returns (ready: bool, inFlight: u32, dims: (u16, u16), sent: Option<u32>)
    ensures !ready && inFlight == 0 && dims == (1920, 1080) && sent == None
  {
    var server := new GraphicsPipelineServer(1920, 1080);
    ready := server.IsReady();
    inFlight := server.framesInFlight;
    dims := (server.width, server.height);
    sent := server.SendAvc420Frame(h264Data, regions, 0);
  }

  /** With a limit of two frames in flight (the channel reaching `Ready`
      through a handshake), two frames are accepted with ids
      0 and 1 and the third is refused under backpressure. */
  method BackpressureAtLimit(clientCaps: seq<CapabilitySet>, serverCaps: seq<CapabilitySet>,
                             h264Data: seq<u8>, regions: seq<Avc420Region>)
    returns (first: Option<u32>, second: Option<u32>, pressured: bool, third: Option<u32>)
    ensures first == Some(0) && second == Some(1) && pressured && third == None
  {
    var server := new GraphicsPipelineServer(1920, 1080);
    server.HandleCapabilitiesAdvertise(clientCaps, serverCaps);
    server.SetMaxFramesInFlight(2);
    first := server.SendAvc420Frame(h264Data, regions, 0);
    second := server.SendAvc420Frame(h264Data, regions, 16);
    pressured := server.ShouldBackpressure();
    third := server.SendAvc420Frame(h264Data, regions, 33);
  }

  /** An acknowledgement frees one slot: at the limit a frame is refused,
      after one acknowledgement the next is accepted. */
  method AcknowledgementReleasesBackpressure(clientCaps: seq<CapabilitySet>, serverCaps: seq<CapabilitySet>,
                                             h264Data: seq<u8>, regions: seq<Avc420Region>)
    returns (first: Option<u32>, refused: Option<u32>, accepted: Option<u32>)
    ensures first == Some(0) && refused == None && accepted == Some(1)
  {
    var server := new GraphicsPipelineServer(1920, 1080);
    server.HandleCapabilitiesAdvertise(clientCaps, serverCaps);
    server.SetMaxFramesInFlight(1);
    first := server.SendAvc420Frame(h264Data, regions, 0);
    refused := server.SendAvc420Frame(h264Data, regions, 16);
    server.HandleFrameAcknowledge(0, 0, 1);
    accepted := server.SendAvc420Frame(h264Data, regions, 33);
  }

  /** After close the channel is not ready and refuses frames. */
  method ClosedServerRefusesFrames(clientCaps: seq<CapabilitySet>, serverCaps: seq<CapabilitySet>,
                                   h264Data: seq<u8>, regions: seq<Avc420Region>)
    returns (ready: bool, sent: Option<u32>)
    ensures !ready && sent == None
  {
    var server := new GraphicsPipelineServer(1920, 1080);
    server.HandleCapabilitiesAdvertise(clientCaps, serverCaps);
    server.Close();
    ready := server.IsReady();
    sent := server.SendAvc420Frame(h264Data, regions, 0);
  }

  /** The handshake answer followed by one frame, drained in one go, is the
      four handshake PDUs followed by the three frame PDUs, and nothing is
      pending afterwards. */
  method HandshakeThenFrame(clientCaps: seq<CapabilitySet>, serverCaps: seq<CapabilitySet>,
                            h264Data: seq<u8>, regions: seq<Avc420Region>, timestampMs: u32)
    returns (id: Option<u32>, out: seq<GfxPdu>, pending: bool)
    ensures id == Some(0) && !pending
    ensures out == HandshakePdus(Negotiated(clientCaps, serverCaps), 0, 1920, 1080)
                   + FramePdus(0, 0, 1920, 1080, h264Data, regions, timestampMs)
  {
    var server := new GraphicsPipelineServer(1920, 1080);
    server.HandleCapabilitiesAdvertise(clientCaps, serverCaps);
    id := server.SendAvc420Frame(h264Data, regions, timestampMs);
    out := server.DrainOutput();
    pending := server.HasPendingOutput();
  }
}

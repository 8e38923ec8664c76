/** The Graphics Pipeline Extension (MS-RDPEGFX) messages the server reads
    and writes, as already-decoded values.  Their wire encoding belongs to
    the PDU layer, which is not part of this model. */
module EgfxPdu {
  import opened MachineInts

  /** A capability set (section 2.2.3 of MS-RDPEGFX), one variant per
      protocol version.  Each variant's flags are kept as the raw 32-bit
      field; `Unknown` holds a set of an unrecognised version. */
  datatype CapabilitySet =
    | V8(flags: u32)
    | V8_1(flags: u32)
    | V10(flags: u32)
    | V10_1
    | V10_2(flags: u32)
    | V10_3(flags: u32)
    | V10_4(flags: u32)
    | V10_5(flags: u32)
    | V10_6(flags: u32)
    | V10_6Err(flags: u32)
    | V10_7(flags: u32)
    | Unknown(data: seq<u8>)

  /** RDPGFX_CAPS_FLAG_AVC420_ENABLED of the version 8.1 capability set
      (section 2.2.3.2 of MS-RDPEGFX). */
  const AVC420_ENABLED: u32 := 0x10

  /** Which variant a capability set is, ignoring its payload: the model of
      Rust's `core::mem::discriminant`. */
  function Discriminant(c: CapabilitySet): (d: nat)
    ensures d < 12
  {
    match c
    case V8(_) => 0
    case V8_1(_) => 1
    case V10(_) => 2
    case V10_1 => 3
    case V10_2(_) => 4
    case V10_3(_) => 5
    case V10_4(_) => 6
    case V10_5(_) => 7
    case V10_6(_) => 8
    case V10_6Err(_) => 9
    case V10_7(_) => 10
    case Unknown(_) => 11
  }

  /** Two capability sets announce the same protocol version: they are the
      same variant, whatever their flags or payload. */
  predicate SameVersion(a: CapabilitySet, b: CapabilitySet)
    ensures SameVersion(a, b) <==>
      || (a.V8? && b.V8?) || (a.V8_1? && b.V8_1?) || (a.V10? && b.V10?) || (a.V10_1? && b.V10_1?)
      || (a.V10_2? && b.V10_2?) || (a.V10_3? && b.V10_3?) || (a.V10_4? && b.V10_4?)
      || (a.V10_5? && b.V10_5?) || (a.V10_6? && b.V10_6?) || (a.V10_6Err? && b.V10_6Err?)
      || (a.V10_7? && b.V10_7?) || (a.Unknown? && b.Unknown?)
  {
    Discriminant(a) == Discriminant(b)
  }

  datatype PixelFormat = XRgb | ARgb

  datatype Codec1Type = Uncompressed | RemoteFx | ClearCodec | Planar | Avc420 | Alpha | Avc444 | Avc444v2

  /** A rectangle whose right and bottom edges are part of it. */
  datatype InclusiveRectangle = InclusiveRectangle(left: u16, top: u16, right: u16, bottom: u16)

  /** One region of an AVC420 frame: its rectangle and its quantisation
      parameter and quality. */
  datatype Avc420Region = Avc420Region(left: u16, top: u16, right: u16, bottom: u16, qp: u8, quality: u8)

  /** The encoded AVC420 bitmap stream of a frame.  Its byte layout is
      produced by the PDU layer; the model keeps the two inputs the stream
      is built from. */
  datatype BitmapStream = Avc420Stream(regions: seq<Avc420Region>, h264Data: seq<u8>)

  /** The frame time carried by a Start Frame PDU (section 2.2.2.11 of
      MS-RDPEGFX). */
  datatype Timestamp = Timestamp(milliseconds: u16, seconds: u8, minutes: u8, hours: u16)

  /** A monitor definition of a Reset Graphics PDU. */
  datatype MonitorDef = MonitorDef(left: u32, top: u32, right: u32, bottom: u32, flags: u32)

  /** One entry of a Cache Import Offer (section 2.2.2.16 of MS-RDPEGFX). */
  datatype CacheEntryMetadata = CacheEntryMetadata(cacheKey: u64, bitmapLength: u32)

  datatype GfxPdu =
    // client to server
    | CapabilitiesAdvertise(capsSets: seq<CapabilitySet>)
    | FrameAcknowledge(queueDepth: u32, frameId: u32, totalFramesDecoded: u32)
    | CacheImportOffer(cacheEntries: seq<CacheEntryMetadata>)
    // server to client
    | CapabilitiesConfirm(capsSet: CapabilitySet)
    | ResetGraphics(desktopWidth: u32, desktopHeight: u32, monitors: seq<MonitorDef>)
    | CreateSurface(surfaceId: u16, width: u16, height: u16, pixelFormat: PixelFormat)
    | MapSurfaceToOutput(surfaceId: u16, outputOriginX: u32, outputOriginY: u32)
    | StartFrame(timestamp: Timestamp, frameId: u32)
    | WireToSurface1(surfaceId: u16, codecId: Codec1Type, pixelFormat: PixelFormat,
                     destinationRectangle: InclusiveRectangle, bitmapData: BitmapStream)
    | EndFrame(frameId: u32)
    // any other message of the extension, named by its command id
    | OtherPdu(cmdId: u16)
  {
    /** The messages this server ever puts on its output queue. */
    predicate IsServerMessage()
    {
      CapabilitiesConfirm? || ResetGraphics? || CreateSurface? || MapSurfaceToOutput?
      || StartFrame? || WireToSurface1? || EndFrame?
    }
  }

  /** Why the incoming bytes could not be decoded into a `GfxPdu`. */
  datatype DecodeError = DecodeError(reason: string)
}

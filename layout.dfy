/** Planning of a fresh tag image: the payload budget left inside the NDEF message, the
    placement of the meta, main and aux regions in the payload, and the assembled image
    (the arithmetic of `PrintTagHandler.nfc_initialize`). */
module Layout {
  import opened Bytes
  import opened Frame

  const NFCV := "nfcv"
  const CBOR_EMPTY_MAP: byte := 0xA0   // an empty map: major type 5, length 0 (RFC 8949, section 3.1)
  const MIN_AUX_REGION_SIZE: nat := 5
  const MIN_MAIN_BEFORE_AUX: nat := 4
  const MIN_MAIN_AT_END: nat := 8

  /** The handler's constructor arguments: tag size, block size, optional aux-region size,
      optional forced main-region offset (`meta_region`), and the meta-section maximum. */
  datatype TagConfig = TagConfig(
    size: nat, blockSize: nat, auxRegionSize: Option<nat>, metaRegion: Option<nat>, maxMetaSectionSize: nat)

  /** The constructor's defaults. */
  const DEFAULT_CONFIG := TagConfig(320, 4, Some(32), None, 8)

  /** The entries of the configuration file that `nfc_initialize` uses. */
  datatype TagFile = TagFile(root: string, mimeType: seq<byte>)

  /** The map encoded into the meta section: a key is present only when it is `Some`. */
  datatype Metadata = Metadata(mainRegionOffset: Option<nat>, auxRegionOffset: Option<int>)

  /** Header width and payload size of the payload record. */
  datatype Budget = Budget(recordHeaderSize: nat, payloadSize: nat)

  /** Region offsets inside the payload and the encoded meta section. */
  datatype Regions = Regions(auxOffset: Option<nat>, mainOffset: nat, metaSection: seq<byte>)

  datatype Layout = Layout(cc: seq<byte>, tlv: Tlv, budget: Budget, payloadStart: nat, regions: Regions)

  // ---------------------------------------------------------------------------------------
  // Payload budget (taghandler.py:156-173)

  /** Whether a payload of `payloadSize` bytes, with the header width its size calls for,
      together with the preceding records fills a message of `messageLength` bytes exactly. */
  predicate Fills(messageLength: nat, precedingSize: nat, mimeLen: nat, payloadSize: nat)
  {
    precedingSize + RecordHeaderSize(mimeLen, payloadSize) + payloadSize == messageLength
  }

  /** The payload budget: header width and payload size that make the payload record fill the
      message after the preceding records. The meta-section check is made on the budget
      before the 3 extra header bytes of a long record are taken from it. */
  function PayloadBudget(messageLength: nat, precedingSize: nat, mimeLen: nat, maxMeta: nat): (r: Result<Budget, InitError>)
    ensures r.Ok? ==> r.value.recordHeaderSize == RecordHeaderSize(mimeLen, r.value.payloadSize)
    ensures r.Ok? ==> Fills(messageLength, precedingSize, mimeLen, r.value.payloadSize)
    ensures r.Ok? ==> r.value.payloadSize + (r.value.recordHeaderSize - 3 - mimeLen) > maxMeta
    ensures (r == Err(NoRoomForMeta)) <==> messageLength - precedingSize - 3 - mimeLen <= maxMeta
    ensures r.Err? ==> r.error == NoRoomForMeta || r.error == NdefPayloadUnfillable
    ensures r == Err(NdefPayloadUnfillable) ==>
              forall p: nat :: !Fills(messageLength, precedingSize, mimeLen, p)
  {
    var headerSize := 3 + mimeLen;
    var payloadSize := messageLength - headerSize - precedingSize;
    if payloadSize <= maxMeta then Err(NoRoomForMeta)
    else if payloadSize > SHORT_PAYLOAD_MAX then
      if payloadSize - 3 > SHORT_PAYLOAD_MAX then Ok(Budget(headerSize + 3, payloadSize - 3))
      else Err(NdefPayloadUnfillable)
    else Ok(Budget(headerSize, payloadSize))
  }

  /** At most one payload size fills a message, so the budget is the only one possible. */
  lemma FillIsUnique(messageLength: nat, precedingSize: nat, mimeLen: nat, p: nat, q: nat)
    requires Fills(messageLength, precedingSize, mimeLen, p)
    requires Fills(messageLength, precedingSize, mimeLen, q)
    ensures p == q
  {
  }

  // ---------------------------------------------------------------------------------------
  // Region placement (taghandler.py:81-93, 181-210)

  /** A non-zero multiple of `n` is at least `n` away from zero. */
  lemma MultipleBounds(d: int, n: int)
    requires n > 0
    ensures d >= 1 ==> d * n >= n
    ensures d <= -1 ==> d * n <= -n
  {
    if d >= 1 { assert d * n == n + (d - 1) * n; }
    if d <= -1 { assert d * n == -n + (d + 1) * n; }
  }

  /** Euclidean division is determined by its quotient-remainder equation. */
  lemma DivModUnique(x: int, n: int, q: int, m: int)
    requires n > 0 && 0 <= m < n && x == q * n + m
    ensures x / n == q && x % n == m
  {
    var d := q - x / n;
    assert d * n == x % n - m by {
      assert x == (x / n) * n + x % n;
      assert d * n == q * n - (x / n) * n;
    }
    MultipleBounds(d, n);
  }

  /** `align_region_offset`: moves a payload offset to the nearest block boundary of the whole
      tag in the requested direction. */
  function AlignRegionOffset(payloadStart: nat, blockSize: nat, offset: int, alignUp: bool): (r: int)
    requires blockSize > 0
    ensures (payloadStart + r) % blockSize == 0
    ensures (payloadStart + offset) % blockSize == 0 ==> r == offset
    ensures alignUp ==> offset <= r < offset + blockSize
    ensures !alignUp ==> offset - blockSize < r <= offset
  {
    var x := payloadStart + offset;
    var misalignment := x % blockSize;
    if misalignment == 0 then offset
    else if alignUp then
      DivModUnique(payloadStart + offset + blockSize - misalignment, blockSize, x / blockSize + 1, 0);
      offset + blockSize - misalignment
    else
      DivModUnique(payloadStart + offset - misalignment, blockSize, x / blockSize, 0);
      offset - misalignment
  }

  /** Aligning down gives the greatest block boundary at or below the offset, aligning up
      the least one at or above it. */
  lemma {:induction false} AlignRegionOffsetIsNearest(payloadStart: nat, blockSize: nat, offset: int, alignUp: bool, q: int)
    requires blockSize > 0 && (payloadStart + q) % blockSize == 0
    ensures !alignUp && q <= offset ==> q <= AlignRegionOffset(payloadStart, blockSize, offset, alignUp)
    ensures alignUp && offset <= q ==> AlignRegionOffset(payloadStart, blockSize, offset, alignUp) <= q
  {
    var r := AlignRegionOffset(payloadStart, blockSize, offset, alignUp);
    var kq := (payloadStart + q) / blockSize;
    var kr := (payloadStart + r) / blockSize;
    assert q - r == (kq - kr) * blockSize by {
      assert payloadStart + q == kq * blockSize + 0;
      assert payloadStart + r == kr * blockSize + 0;
    }
    MultipleBounds(kq - kr, blockSize);
  }

  /** Two distinct block boundaries of the whole tag are at least a block apart. */
  lemma AlignedAreApart(payloadStart: nat, blockSize: nat, a: int, b: int)
    requires blockSize > 0 && (payloadStart + a) % blockSize == 0 && (payloadStart + b) % blockSize == 0
    requires a < b
    ensures a + blockSize <= b
  {
    var ka := (payloadStart + a) / blockSize;
    var kb := (payloadStart + b) / blockSize;
    assert b - a == (kb - ka) * blockSize by {
      assert payloadStart + a == ka * blockSize + 0;
      assert payloadStart + b == kb * blockSize + 0;
    }
    MultipleBounds(kb - ka, blockSize);
  }

  function AuxAsMetadata(auxOffset: Option<nat>): Option<int>
  {
    if auxOffset.Some? then Some(auxOffset.value) else None
  }

  /** The aux offset of line 194: the payload's end less the aux size, aligned down. */
  function AuxOffset(cfg: TagConfig, payloadStart: nat, payloadSize: nat): (r: Option<int>)
    requires cfg.auxRegionSize.Some? ==> cfg.blockSize > 0
    ensures r.Some? <==> cfg.auxRegionSize.Some?
    ensures r.Some? ==>
      && (payloadStart + r.value) % cfg.blockSize == 0
      && payloadSize - cfg.auxRegionSize.value - cfg.blockSize < r.value <= payloadSize - cfg.auxRegionSize.value
  {
    if cfg.auxRegionSize.Some?
    then Some(AlignRegionOffset(payloadStart, cfg.blockSize, payloadSize - cfg.auxRegionSize.value, false))
    else None
  }

  /** What a placement of the regions must satisfy. */
  ghost predicate ValidRegions(rg: Regions, cfg: TagConfig, payloadStart: nat, payloadSize: nat, encodeMeta: Metadata -> seq<byte>)
  {
    && rg.metaSection == encodeMeta(Metadata(cfg.metaRegion, AuxAsMetadata(rg.auxOffset)))
    && rg.mainOffset == (if cfg.metaRegion.Some? then cfg.metaRegion.value else |rg.metaSection|)
    && (rg.auxOffset.Some? <==> cfg.auxRegionSize.Some?)
    && (rg.auxOffset.Some? ==>
          var a, size := rg.auxOffset.value, cfg.auxRegionSize.value;
          && size >= MIN_AUX_REGION_SIZE
          && cfg.blockSize > 0
          && (payloadStart + a) % cfg.blockSize == 0
          && payloadSize - size - cfg.blockSize < a
          && a + size <= payloadSize
          && rg.mainOffset + MIN_MAIN_BEFORE_AUX <= a)
    && (rg.auxOffset.None? ==> rg.mainOffset + MIN_MAIN_AT_END <= payloadSize)
  }

  /** A valid placement has the aux offset of line 194, and so the meta section that
      encodes it: only one placement can be valid. */
  lemma ValidRegionsAreDetermined(cfg: TagConfig, payloadStart: nat, payloadSize: nat, encodeMeta: Metadata -> seq<byte>)
    ensures forall rg :: ValidRegions(rg, cfg, payloadStart, payloadSize, encodeMeta) ==>
      && AuxAsMetadata(rg.auxOffset) == AuxOffset(cfg, payloadStart, payloadSize)
      && rg.metaSection == encodeMeta(Metadata(cfg.metaRegion, AuxOffset(cfg, payloadStart, payloadSize)))
  {
    forall rg | ValidRegions(rg, cfg, payloadStart, payloadSize, encodeMeta)
      ensures AuxAsMetadata(rg.auxOffset) == AuxOffset(cfg, payloadStart, payloadSize)
    {
      if rg.auxOffset.Some? {
        var a, size := rg.auxOffset.value, cfg.auxRegionSize.value;
        var r := AlignRegionOffset(payloadStart, cfg.blockSize, payloadSize - size, false);
        if a < r {
          AlignedAreApart(payloadStart, cfg.blockSize, a, r);
        } else if r < a {
          AlignedAreApart(payloadStart, cfg.blockSize, r, a);
        }
      }
    }
  }

  /** Places the aux region at the payload's end, aligned down to a tag block, and the main
      region at the forced offset or right after the meta section, then checks the gaps. */
  function PlanRegions(cfg: TagConfig, payloadStart: nat, payloadSize: nat, encodeMeta: Metadata -> seq<byte>): (r: Result<Regions, InitError>)
    ensures r.Ok? ==> ValidRegions(r.value, cfg, payloadStart, payloadSize, encodeMeta)
    ensures (r == Err(AuxRegionTooSmall)) <==> cfg.auxRegionSize.Some? && cfg.auxRegionSize.value < MIN_AUX_REGION_SIZE
    ensures r == Err(BlockSizeZero) <==>
              cfg.auxRegionSize.Some? && cfg.auxRegionSize.value >= MIN_AUX_REGION_SIZE && cfg.blockSize == 0
    ensures r == Err(MainRegionTooSmall) ==> forall rg :: !ValidRegions(rg, cfg, payloadStart, payloadSize, encodeMeta)
    ensures r.Err? ==> r.error in {AuxRegionTooSmall, BlockSizeZero, MainRegionTooSmall}
  {
    if cfg.auxRegionSize.Some? && cfg.auxRegionSize.value < MIN_AUX_REGION_SIZE then Err(AuxRegionTooSmall)
    else if cfg.auxRegionSize.Some? && cfg.blockSize == 0 then Err(BlockSizeZero)
    else
      ValidRegionsAreDetermined(cfg, payloadStart, payloadSize, encodeMeta);
      var auxOffset := AuxOffset(cfg, payloadStart, payloadSize);
      var metaSection := encodeMeta(Metadata(cfg.metaRegion, auxOffset));
      var mainOffset := if cfg.metaRegion.Some? then cfg.metaRegion.value else |metaSection|;
      if auxOffset.Some? then
        if auxOffset.value - mainOffset >= MIN_MAIN_BEFORE_AUX then Ok(Regions(Some(auxOffset.value as nat), mainOffset, metaSection))
        else Err(MainRegionTooSmall)
      else if payloadSize - mainOffset >= MIN_MAIN_AT_END then Ok(Regions(None, mainOffset, metaSection))
      else Err(MainRegionTooSmall)
  }

  // ---------------------------------------------------------------------------------------
  // The whole plan (taghandler.py:100-216)

  /** Everything a successful plan guarantees. */
  ghost predicate WellFormed(l: Layout, cfg: TagConfig, file: TagFile, preceding: seq<byte>, encodeMeta: Metadata -> seq<byte>)
  {
    && CapabilityContainer(cfg.size) == Ok(l.cc)
    && TlvFrame(cfg.size) == Ok(l.tlv)
    && l.budget.recordHeaderSize == RecordHeaderSize(|file.mimeType|, l.budget.payloadSize)
    && Fills(l.tlv.messageLength, |preceding|, |file.mimeType|, l.budget.payloadSize)
    && l.budget.payloadSize + (l.budget.recordHeaderSize - 3 - |file.mimeType|) > cfg.maxMetaSectionSize
    && l.payloadStart == CC_SIZE + |l.tlv.header| + |preceding| + l.budget.recordHeaderSize
    && ValidRegions(l.regions, cfg, l.payloadStart, l.budget.payloadSize, encodeMeta)
    && |file.mimeType| <= MAX_TYPE_LENGTH
    && |l.regions.metaSection| <= l.budget.payloadSize
  }

  /** The checks and computations of `nfc_initialize` up to the assembly of the image, in the
      source's order. `preceding` is the encoding of the records before the payload record and
      `encodeMeta` the meta fields' encoder. A meta section longer than the payload fails the
      gap check of line 205 or 207 (`MainRegionTooSmall`) unless a forced main offset passes
      it; then the write of line 200 grows the buffer and the message-length check of line
      216 fails (`NdefLengthMismatch`). */
  function Plan(cfg: TagConfig, file: TagFile, preceding: seq<byte>, encodeMeta: Metadata -> seq<byte>): (r: Result<Layout, InitError>)
    ensures r.Ok? ==> WellFormed(r.value, cfg, file, preceding, encodeMeta)
  {
    if file.root != NFCV then Err(UnsupportedTagFamily)
    else match CapabilityContainer(cfg.size)
      case Err(e) => Err(e)
      case Ok(cc) =>
        match TlvFrame(cfg.size)
        case Err(e) => Err(e)
        case Ok(tlv) =>
          match PayloadBudget(tlv.messageLength, |preceding|, |file.mimeType|, cfg.maxMetaSectionSize)
          case Err(e) => Err(e)
          case Ok(budget) =>
            var payloadStart := |cc| + |tlv.header| + |preceding| + budget.recordHeaderSize;
            match PlanRegions(cfg, payloadStart, budget.payloadSize, encodeMeta)
            case Err(e) => Err(e)
            case Ok(regions) =>
              if |file.mimeType| > MAX_TYPE_LENGTH then Err(RecordTypeTooLong)
              else if |regions.metaSection| > budget.payloadSize then Err(NdefLengthMismatch)
              else Ok(Layout(cc, tlv, budget, payloadStart, regions))
  }

  // ---------------------------------------------------------------------------------------
  // Payload and image contents (taghandler.py:175-233)

  /** The region writes stay inside the payload. */
  predicate Writable(l: Layout)
  {
    && (l.regions.auxOffset.Some? ==> l.regions.auxOffset.value < l.budget.payloadSize)
    && |l.regions.metaSection| <= l.budget.payloadSize
    && l.regions.mainOffset < l.budget.payloadSize
  }

  lemma WellFormedIsWritable(l: Layout, cfg: TagConfig, file: TagFile, preceding: seq<byte>, encodeMeta: Metadata -> seq<byte>)
    requires WellFormed(l, cfg, file, preceding, encodeMeta)
    ensures Writable(l) && l.budget.payloadSize < cfg.size
  {
  }

  /** The payload buffer after the writes of `nfc_initialize`, in its order: an empty map at
      the aux offset, the meta section at 0, an empty map at the main offset. */
  function PayloadOf(l: Layout): (p: seq<byte>)
    requires Writable(l)
    ensures |p| == l.budget.payloadSize
  {
    var zeros := Zeros(l.budget.payloadSize);
    var withAux := if l.regions.auxOffset.Some? then Overwrite(zeros, l.regions.auxOffset.value, [CBOR_EMPTY_MAP]) else zeros;
    var withMeta := Overwrite(withAux, 0, l.regions.metaSection);
    Overwrite(withMeta, l.regions.mainOffset, [CBOR_EMPTY_MAP])
  }

  /** The NDEF message: the preceding records, then the payload record. */
  function NdefMessage(l: Layout, file: TagFile, preceding: seq<byte>): seq<byte>
    requires Writable(l) && |file.mimeType| <= MAX_TYPE_LENGTH && l.budget.payloadSize < 0x1_0000_0000
  {
    preceding + MediaRecord(file.mimeType, PayloadOf(l), |preceding| == 0)
  }

  /** `CC ++ TLV header ++ NDEF message ++ terminator`. */
  function ImageOf(l: Layout, file: TagFile, preceding: seq<byte>): seq<byte>
    requires Writable(l) && |file.mimeType| <= MAX_TYPE_LENGTH && l.budget.payloadSize < 0x1_0000_0000
  {
    l.cc + l.tlv.header + NdefMessage(l, file, preceding) + [TLV_TERMINATOR]
  }

  /** The image `nfc_initialize` returns, or the error it raises. */
  function InitialImage(cfg: TagConfig, file: TagFile, preceding: seq<byte>, encodeMeta: Metadata -> seq<byte>): (r: Result<seq<byte>, InitError>)
    ensures r.Ok? <==> Plan(cfg, file, preceding, encodeMeta).Ok?
    ensures r.Err? ==> r.error == Plan(cfg, file, preceding, encodeMeta).error
  {
    match Plan(cfg, file, preceding, encodeMeta)
    case Err(e) => Err(e)
    case Ok(l) =>
      WellFormedIsWritable(l, cfg, file, preceding, encodeMeta);
      Ok(ImageOf(l, file, preceding))
  }
}

/** Properties of the planned image. */
module LayoutProperties {
  import opened Bytes
  import opened Frame
  import opened Layout

  /** The four parts of a concatenation can be sliced back out of it. */
  lemma FourParts(w: seq<byte>, x: seq<byte>, y: seq<byte>, z: seq<byte>)
    ensures var s := w + x + y + z;
      && |s| == |w| + |x| + |y| + |z|
      && s[..|w|] == w
      && s[|w|..|w| + |x|] == x
      && s[|w| + |x|..|w| + |x| + |y|] == y
      && s[|w| + |x| + |y|..] == z
  {
    var s := w + x + y + z;
    assert s[|w| + |x|..|w| + |x| + |y|] == y by {
      assert forall i :: 0 <= i < |y| ==> s[|w| + |x| + i] == y[i];
    }
  }

  /** A slice of a slice is a slice. */
  lemma SliceOfSlice(s: seq<byte>, i: nat, j: nat, k: nat, m: nat)
    requires i <= j <= |s| && k <= m <= j - i
    ensures s[i..j][k..m] == s[i + k..i + m]
  {
    assert forall n :: 0 <= n < m - k ==> s[i..j][k..m][n] == s[i + k + n];
  }

  /** Where each part lies in `CC ++ TLV header ++ (preceding ++ record) ++ terminator`, and
      where the part of the record after its first `hs` bytes lies. */
  lemma FramedParts(cc: seq<byte>, t: seq<byte>, pre: seq<byte>, rec: seq<byte>, hs: nat)
    requires hs <= |rec|
    ensures var img, h := cc + t + (pre + rec) + [TLV_TERMINATOR], |cc| + |t|;
      && |img| == h + |pre| + |rec| + 1
      && img[..|cc|] == cc
      && img[|cc|..h] == t
      && img[h..h + |pre|] == pre
      && img[h + |pre|..|img| - 1] == rec
      && img[h + |pre| + hs..|img| - 1] == rec[hs..]
      && img[|img| - 1] == TLV_TERMINATOR
  {
    var m := pre + rec;
    var img, h := cc + t + m + [TLV_TERMINATOR], |cc| + |t|;
    FourParts(cc, t, m, [TLV_TERMINATOR]);
    assert img[h..h + |m|] == m;
    SliceOfSlice(img, h, h + |m|, 0, |pre|);
    assert m[0..|pre|] == pre;
    SliceOfSlice(img, h, h + |m|, |pre|, |m|);
    assert m[|pre|..|m|] == rec;
    SliceOfSlice(img, h, h + |m|, |pre| + hs, |m|);
    SliceOfSlice(m, |pre|, |m|, hs, |rec|);
    assert img[|img| - 1] == img[h + |m|..][0];
  }

  /** A well-formed layout assembles into an image of exactly the tag's size, whose CC
      declares that size and whose TLV header announces the rest of the image up to the
      terminator. */
  lemma {:induction false} WellFormedFrame(l: Layout, cfg: TagConfig, file: TagFile, preceding: seq<byte>, encodeMeta: Metadata -> seq<byte>)
    requires WellFormed(l, cfg, file, preceding, encodeMeta)
    ensures Writable(l) && l.budget.payloadSize < 0x1_0000_0000
    ensures var img, h := ImageOf(l, file, preceding), CC_SIZE + |l.tlv.header|;
      && |img| == cfg.size
      && img[..CC_SIZE] == [CC_MAGIC, CC_VERSION_ACCESS, cfg.size / 8, CC_MBREAD]
      && TlvHeaderShape(img[CC_SIZE..h])
      && TlvLength(img[CC_SIZE..h]) == |img| - h - 1
      && TlvLength(img[CC_SIZE..h]) == |preceding| + l.budget.recordHeaderSize + l.budget.payloadSize
      && img[|img| - 1] == TLV_TERMINATOR
  {
    WellFormedIsWritable(l, cfg, file, preceding, encodeMeta);
    var rec := MediaRecord(file.mimeType, PayloadOf(l), |preceding| == 0);
    var img := ImageOf(l, file, preceding);
    assert img == l.cc + l.tlv.header + (preceding + rec) + [TLV_TERMINATOR];
    FramedParts(l.cc, l.tlv.header, preceding, rec, 0);
    assert img[CC_SIZE..CC_SIZE + |l.tlv.header|] == l.tlv.header;
  }

  /** Where the payload record and its payload lie in an image framing them, the message
      starting at `h` and the payload at `start`. */
  lemma RecordInFrame(img: seq<byte>, cc: seq<byte>, t: seq<byte>, pre: seq<byte>, mimeType: seq<byte>, payload: seq<byte>, h: nat, start: nat)
    requires |mimeType| <= MAX_TYPE_LENGTH && |payload| < 0x1_0000_0000
    requires img == cc + t + (pre + MediaRecord(mimeType, payload, |pre| == 0)) + [TLV_TERMINATOR]
    requires h == |cc| + |t| && start == h + |pre| + RecordHeaderSize(|mimeType|, |payload|)
    ensures |img| == start + |payload| + 1
    ensures img[h..h + |pre|] == pre
    ensures ParseRecordHeader(img[h + |pre|..|img| - 1]) == Some(RecordHeader(
      |pre| == 0, true, false, |payload| <= SHORT_PAYLOAD_MAX, false, TNF_MEDIA_TYPE as nat, |mimeType|, |payload|))
    ensures img[start..start + |payload|] == payload
  {
    var rec := MediaRecord(mimeType, payload, |pre| == 0);
    FramedParts(cc, t, pre, rec, RecordHeaderSize(|mimeType|, |payload|));
  }

  /** Where the records lie in the image of a layout whose payload starts after the CC, the
      TLV header, the preceding records and the payload record's header. */
  lemma ImageRecord(l: Layout, file: TagFile, preceding: seq<byte>)
    requires Writable(l) && |file.mimeType| <= MAX_TYPE_LENGTH && l.budget.payloadSize < 0x1_0000_0000
    requires |l.cc| == CC_SIZE && l.budget.recordHeaderSize == RecordHeaderSize(|file.mimeType|, l.budget.payloadSize)
    requires l.payloadStart == CC_SIZE + |l.tlv.header| + |preceding| + l.budget.recordHeaderSize
    ensures var img, h, p := ImageOf(l, file, preceding), CC_SIZE + |l.tlv.header|, l.budget.payloadSize;
      && |img| == l.payloadStart + p + 1
      && img[h..h + |preceding|] == preceding
      && ParseRecordHeader(img[h + |preceding|..|img| - 1]) == Some(RecordHeader(
           |preceding| == 0, true, false, p <= SHORT_PAYLOAD_MAX, false, TNF_MEDIA_TYPE as nat, |file.mimeType|, p))
      && img[l.payloadStart..l.payloadStart + p] == PayloadOf(l)
  {
    var img, payload := ImageOf(l, file, preceding), PayloadOf(l);
    RecordInFrame(img, l.cc, l.tlv.header, preceding, file.mimeType, payload, CC_SIZE + |l.tlv.header|, l.payloadStart);
  }

  /** In the image of a well-formed layout the preceding records come first in the message,
      the payload record decodes with the planned payload length, and the payload window
      holds the payload buffer verbatim. */
  lemma {:induction false} WellFormedRecord(l: Layout, cfg: TagConfig, file: TagFile, preceding: seq<byte>, encodeMeta: Metadata -> seq<byte>)
    requires WellFormed(l, cfg, file, preceding, encodeMeta)
    ensures Writable(l) && l.budget.payloadSize < 0x1_0000_0000
    ensures var img, h, p := ImageOf(l, file, preceding), CC_SIZE + |l.tlv.header|, l.budget.payloadSize;
      && l.payloadStart == h + |preceding| + l.budget.recordHeaderSize
      && |img| == l.payloadStart + p + 1
      && img[h..h + |preceding|] == preceding
      && ParseRecordHeader(img[h + |preceding|..|img| - 1]) == Some(RecordHeader(
           |preceding| == 0, true, false, p <= SHORT_PAYLOAD_MAX, false, TNF_MEDIA_TYPE as nat, |file.mimeType|, p))
      && img[l.payloadStart..l.payloadStart + p] == PayloadOf(l)
  {
    WellFormedIsWritable(l, cfg, file, preceding, encodeMeta);
    assert |l.cc| == CC_SIZE && l.budget.payloadSize < 0x1_0000_0000;
    ImageRecord(l, file, preceding);
  }

  /** What `nfc_initialize` returns when its plan succeeds: the assembled image, whose length
      lies within the source's `size - 1 <= len <= size` because it is exactly the tag size. */
  lemma {:induction false} InitialImageIsFramed(cfg: TagConfig, file: TagFile, preceding: seq<byte>, encodeMeta: Metadata -> seq<byte>, l: Layout)
    requires Plan(cfg, file, preceding, encodeMeta) == Ok(l)
    ensures Writable(l) && |file.mimeType| <= MAX_TYPE_LENGTH && l.budget.payloadSize < 0x1_0000_0000
    ensures InitialImage(cfg, file, preceding, encodeMeta) == Ok(ImageOf(l, file, preceding))
    ensures cfg.size - 1 <= |ImageOf(l, file, preceding)| <= cfg.size
  {
    WellFormedFrame(l, cfg, file, preceding, encodeMeta);
  }

  /** Every well-formed layout of an NFC-V configuration is the one `Plan` produces: the plan
      fails only when no well-formed layout exists. */
  lemma {:induction false} PlanIsComplete(l: Layout, cfg: TagConfig, file: TagFile, preceding: seq<byte>, encodeMeta: Metadata -> seq<byte>)
    requires file.root == NFCV && WellFormed(l, cfg, file, preceding, encodeMeta)
    ensures Plan(cfg, file, preceding, encodeMeta) == Ok(l)
  {
    var m := |file.mimeType|;
    var b := PayloadBudget(l.tlv.messageLength, |preceding|, m, cfg.maxMetaSectionSize);
    assert b != Err(NoRoomForMeta);
    assert Fills(l.tlv.messageLength, |preceding|, m, l.budget.payloadSize);
    FillIsUnique(l.tlv.messageLength, |preceding|, m, b.value.payloadSize, l.budget.payloadSize);
    assert b.value == l.budget;
    var rg := PlanRegions(cfg, l.payloadStart, l.budget.payloadSize, encodeMeta);
    assert rg.Ok?;
    ValidRegionsAreDetermined(cfg, l.payloadStart, l.budget.payloadSize, encodeMeta);
    assert rg.value == l.regions;
  }

  /** What the payload holds after the writes: the empty map at the main offset, the meta
      section everywhere else in its window, the empty map at the aux offset when the meta
      section ends before it, and zeros elsewhere. */
  lemma PayloadContents(l: Layout)
    requires Writable(l)
    ensures var p, rg := PayloadOf(l), l.regions;
      && p[rg.mainOffset] == CBOR_EMPTY_MAP
      && (forall i :: 0 <= i < |rg.metaSection| && i != rg.mainOffset ==> p[i] == rg.metaSection[i])
      && (rg.auxOffset.Some? && |rg.metaSection| <= rg.auxOffset.value && rg.auxOffset.value != rg.mainOffset ==>
            p[rg.auxOffset.value] == CBOR_EMPTY_MAP)
      && (forall i :: |rg.metaSection| <= i < |p| && i != rg.mainOffset && (rg.auxOffset.None? || i != rg.auxOffset.value) ==>
            p[i] == 0)
  {
  }

  /** Without a forced main offset the three regions do not overlap: the meta section is
      intact, the main region follows it and the aux region's empty map survives. */
  lemma {:induction false} UnforcedRegionsAreDisjoint(cfg: TagConfig, file: TagFile, preceding: seq<byte>, encodeMeta: Metadata -> seq<byte>)
    requires Plan(cfg, file, preceding, encodeMeta).Ok? && cfg.metaRegion.None?
    ensures
      var l := Plan(cfg, file, preceding, encodeMeta).value;
      Writable(l) &&
      var p, rg := PayloadOf(l), l.regions;
      && rg.mainOffset == |rg.metaSection|
      && p[..rg.mainOffset] == rg.metaSection
      && p[rg.mainOffset] == CBOR_EMPTY_MAP
      && (rg.auxOffset.Some? ==> rg.mainOffset < rg.auxOffset.value && p[rg.auxOffset.value] == CBOR_EMPTY_MAP)
  {
    var l := Plan(cfg, file, preceding, encodeMeta).value;
    WellFormedIsWritable(l, cfg, file, preceding, encodeMeta);
    PayloadContents(l);
  }

  /** Neither a CC-encodable size nor any other input makes the plan fail on the TLV header
      width, and the only TLV length a CC-encodable size cannot express is that of a 0-byte tag. */
  lemma PlanErrors(cfg: TagConfig, file: TagFile, preceding: seq<byte>, encodeMeta: Metadata -> seq<byte>)
    ensures var r := Plan(cfg, file, preceding, encodeMeta);
      && (file.root != NFCV ==> r == Err(UnsupportedTagFamily))
      && (file.root == NFCV && cfg.size % 8 != 0 ==> r == Err(SizeNotMultipleOf8))
      && (file.root == NFCV && cfg.size % 8 == 0 && cfg.size > 8 * MAX_CC_SIZE_BYTE ==> r == Err(SizeTooLarge))
      && r != Err(TlvHeaderSizeMismatch)
      && (r == Err(TlvLengthNotAByte) <==> file.root == NFCV && cfg.size == 0)
      && (cfg.auxRegionSize.Some? && cfg.auxRegionSize.value < MIN_AUX_REGION_SIZE ==> r.Err?)
  {
  }

  /** The plan for the constructor defaults with no preceding record and a media type of at
      most 40 bytes: a 4-byte TLV header announcing 311 bytes, a 305 - m byte payload after a
      6 + m byte record header, and the aux region 32 bytes before the payload's end, rounded
      down to a 4-byte boundary of the whole tag. */
  lemma DefaultConfigPlan(file: TagFile, encodeMeta: Metadata -> seq<byte>)
    requires file.root == NFCV && |file.mimeType| <= 40
    requires forall md :: |encodeMeta(md)| <= DEFAULT_CONFIG.maxMetaSectionSize
    ensures var m, meta := |file.mimeType|, encodeMeta(Metadata(None, Some(270 - |file.mimeType|)));
      Plan(DEFAULT_CONFIG, file, [], encodeMeta) == Ok(Layout(
        [0xE1, 0x40, 40, 0x01], Tlv([0x03, 0xFF, 0x01, 0x37], 311), Budget(6 + m, 305 - m), 14 + m,
        Regions(Some(270 - m), |meta|, meta)))
  {
    var m := |file.mimeType|;
    assert TlvFrame(320) == Ok(Tlv([0x03, 0xFF, 0x01, 0x37], 311));
    assert PayloadBudget(311, 0, m, 8) == Ok(Budget(6 + m, 305 - m));
    assert AlignRegionOffset(14 + m, 4, 273 - m, false) == 270 - m;
    var meta := encodeMeta(Metadata(None, Some(270 - m)));
    assert PlanRegions(DEFAULT_CONFIG, 14 + m, 305 - m, encodeMeta) == Ok(Regions(Some(270 - m), |meta|, meta));
  }

  /** With the constructor defaults, no preceding record, a media type of at most 40 bytes
      and a meta section of at most 8 bytes, `nfc_initialize` yields a 320-byte image whose CC
      declares 40 blocks of 8 bytes. */
  lemma DefaultConfigScenario(file: TagFile, encodeMeta: Metadata -> seq<byte>)
    requires file.root == NFCV && |file.mimeType| <= 40
    requires forall md :: |encodeMeta(md)| <= DEFAULT_CONFIG.maxMetaSectionSize
    ensures var img := InitialImage(DEFAULT_CONFIG, file, [], encodeMeta);
      && img.Ok? && |img.value| == 320 && img.value[..4] == [0xE1, 0x40, 40, 0x01]
  {
    DefaultConfigPlan(file, encodeMeta);
    var l := Plan(DEFAULT_CONFIG, file, [], encodeMeta).value;
    InitialImageIsFramed(DEFAULT_CONFIG, file, [], encodeMeta, l);
    WellFormedFrame(l, DEFAULT_CONFIG, file, [], encodeMeta);
  }

  /** The meta-section check is made before a long record takes 3 header bytes from the
      budget, so a plan can succeed with a payload no larger than the meta-section maximum. */
  lemma FinalPayloadCanBeAtMostMaxMeta()
    ensures var cfg := TagConfig(320, 4, None, None, 307);
      var r := Plan(cfg, TagFile(NFCV, []), [], _ => []);
      r.Ok? && r.value.budget.payloadSize == 305 && r.value.budget.payloadSize <= cfg.maxMetaSectionSize
  {
    assert PayloadBudget(311, 0, 0, 307) == Ok(Budget(6, 305));
  }

  /** A meta section longer than the payload: without a forced main offset the main region
      starts past the payload and the gap check fails; with a forced offset that passes it,
      the message-length check fails. */
  lemma LongMetaSectionFails()
    ensures var meta: seq<byte> := seq(400, _ => 0);
      && Plan(TagConfig(320, 4, None, None, 8), TagFile(NFCV, []), [], _ => meta) == Err(MainRegionTooSmall)
      && Plan(TagConfig(320, 4, Some(32), None, 8), TagFile(NFCV, []), [], _ => meta) == Err(MainRegionTooSmall)
      && Plan(TagConfig(320, 4, Some(32), Some(2), 8), TagFile(NFCV, []), [], _ => meta) == Err(NdefLengthMismatch)
  {
    var meta: seq<byte> := seq(400, _ => 0);
    assert PayloadBudget(311, 0, 0, 8) == Ok(Budget(6, 305));
    assert AlignRegionOffset(14, 4, 273, false) == 270;
    assert PlanRegions(TagConfig(320, 4, Some(32), Some(2), 8), 14, 305, _ => meta) == Ok(Regions(Some(270), 2, meta));
  }

  /** With a forced main offset inside the meta section, the main region's empty map overwrites
      a byte of the meta section: nothing checks the meta section's encoded size. */
  lemma ForcedMainCanOverwriteMeta()
    ensures var meta: seq<byte> := [0xA2, 0x00, 0x02, 0x01, 0x10];
      var r := Plan(TagConfig(320, 4, Some(32), Some(2), 8), TagFile(NFCV, []), [], _ => meta);
      && r.Ok?
      && r.value.regions.mainOffset == 2
      && Writable(r.value)
      && PayloadOf(r.value)[2] == CBOR_EMPTY_MAP != meta[2]
  {
    var meta: seq<byte> := [0xA2, 0x00, 0x02, 0x01, 0x10];
    var cfg := TagConfig(320, 4, Some(32), Some(2), 8);
    assert PayloadBudget(311, 0, 0, 8) == Ok(Budget(6, 305));
    assert AlignRegionOffset(14, 4, 273, false) == 270;
    assert PlanRegions(cfg, 14, 305, _ => meta) == Ok(Regions(Some(270), 2, meta));
  }
}

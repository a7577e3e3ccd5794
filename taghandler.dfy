/** `PrintTagHandler`: the handler object that owns the current record's byte buffer, builds a
    fresh image with `nfc_initialize` and patches the record's regions in place. */
module TagHandler {
  import opened Bytes
  import opened Frame
  import opened Layout
  import opened LayoutProperties

  /** A named window of the record's buffer, as the record parser reports it. */
  datatype RegionView = RegionView(name: string, offset: nat, length: nat)

  predicate RegionsInside(rs: seq<RegionView>, n: nat)
  {
    forall i :: 0 <= i < |rs| ==> rs[i].offset + rs[i].length <= n
  }

  /** No two region windows share a byte. */
  predicate Disjoint(rs: seq<RegionView>)
  {
    forall i, j :: 0 <= i < j < |rs| ==>
      rs[i].offset + rs[i].length <= rs[j].offset || rs[j].offset + rs[j].length <= rs[i].offset
  }

  /** The record parser reports only windows that lie inside the image it parses. */
  ghost predicate ParserRespectsBounds(parse: seq<byte> -> Option<seq<RegionView>>)
  {
    forall image :: parse(image).Some? ==> RegionsInside(parse(image).value, |image|)
  }

  // ---------------------------------------------------------------------------------------
  // patch_bin (taghandler.py:63-71)

  /** A patch: per region name, the fields to set and the fields to remove. */
  datatype Patch<V> = Patch(data: map<string, map<string, V>>, remove: map<string, map<string, V>>)

  /** A region's `update`: from the region's name, its window's bytes, the fields to set and the
      fields to remove, the new encoding of its value, or `None` when the update raises. */
  type RegionUpdate<!V> = (string, seq<byte>, map<string, V>, map<string, V>) -> Option<seq<byte>>

  datatype PatchError = NoCurrentRecord | RegionUpdateFailed(name: string) | RegionOverflow(name: string)

  /** The buffer after a run of region updates, and the first failure if one stopped it. */
  datatype PatchOutcome = PatchOutcome(buffer: seq<byte>, failure: Option<PatchError>)

  /** `patch.get(region, {})`: a region the patch does not name gets no fields. */
  function FieldsFor<V>(m: map<string, map<string, V>>, name: string): map<string, V>
  {
    if name in m then m[name] else map[]
  }

  /** The encoding `update` produces for a region of `buf` under `patch`. */
  function Encoded<V>(buf: seq<byte>, region: RegionView, patch: Patch<V>, update: RegionUpdate<V>): Option<seq<byte>>
    requires region.offset + region.length <= |buf|
  {
    update(region.name, buf[region.offset..region.offset + region.length],
           FieldsFor(patch.data, region.name), FieldsFor(patch.remove, region.name))
  }

  /** One region's update without clearing: its new encoding is written at the start of its
      window; an encoding longer than the window, or an update that raises, fails. */
  function UpdateRegion<V>(buf: seq<byte>, region: RegionView, patch: Patch<V>, update: RegionUpdate<V>): (o: PatchOutcome)
    requires region.offset + region.length <= |buf|
    ensures |o.buffer| == |buf|
    ensures o.failure.None? <==>
      Encoded(buf, region, patch, update).Some? && |Encoded(buf, region, patch, update).value| <= region.length
    ensures o.failure.Some? ==> o.buffer == buf
    ensures o.failure.None? ==> var e := Encoded(buf, region, patch, update).value;
      o.buffer[region.offset..region.offset + |e|] == e
  {
    var encoded := Encoded(buf, region, patch, update);
    if encoded.None? then PatchOutcome(buf, Some(RegionUpdateFailed(region.name)))
    else if |encoded.value| > region.length then PatchOutcome(buf, Some(RegionOverflow(region.name)))
    else PatchOutcome(Overwrite(buf, region.offset, encoded.value), None)
  }

  /** The regions `rs[i..]` updated in order, stopping at the first failure; the writes made
      before it stay in the buffer. */
  function PatchRegions<V>(buf: seq<byte>, rs: seq<RegionView>, i: nat, patch: Patch<V>, update: RegionUpdate<V>): (o: PatchOutcome)
    requires RegionsInside(rs, |buf|) && i <= |rs|
    ensures |o.buffer| == |buf|
    decreases |rs| - i
  {
    if i == |rs| then PatchOutcome(buf, None)
    else
      var step := UpdateRegion(buf, rs[i], patch, update);
      if step.failure.Some? then step
      else PatchRegions(step.buffer, rs, i + 1, patch, update)
  }

  /** The update of `region` succeeds on `buf`: it returns an encoding that fits the window. */
  predicate Fits<V>(buf: seq<byte>, region: RegionView, patch: Patch<V>, update: RegionUpdate<V>)
    requires region.offset + region.length <= |buf|
  {
    var e := Encoded(buf, region, patch, update);
    e.Some? && |e.value| <= region.length
  }

  /** The encoding `update` makes of `region` from `before` fits its window and sits at the
      start of the window in `after`. */
  predicate RegionEncoded<V>(before: seq<byte>, after: seq<byte>, region: RegionView, patch: Patch<V>, update: RegionUpdate<V>)
    requires region.offset + region.length <= |before| == |after|
  {
    && Fits(before, region, patch, update)
    && var e := Encoded(before, region, patch, update).value;
       after[region.offset..region.offset + |e|] == e
  }

  /** A region whose update fits is written and the patch goes on with the next region. */
  lemma PatchStep<V>(buf: seq<byte>, rs: seq<RegionView>, i: nat, patch: Patch<V>, update: RegionUpdate<V>, e: seq<byte>)
    requires RegionsInside(rs, |buf|) && i < |rs|
    requires Encoded(buf, rs[i], patch, update) == Some(e) && |e| <= rs[i].length
    ensures RegionsInside(rs, |Overwrite(buf, rs[i].offset, e)|)
    ensures PatchRegions(buf, rs, i, patch, update) == PatchRegions(Overwrite(buf, rs[i].offset, e), rs, i + 1, patch, update)
  {
  }

  /** A region whose update raises or overflows ends the patch with the buffer as it is. */
  lemma PatchStepFails<V>(buf: seq<byte>, rs: seq<RegionView>, i: nat, patch: Patch<V>, update: RegionUpdate<V>)
    requires RegionsInside(rs, |buf|) && i < |rs| && !Fits(buf, rs[i], patch, update)
    ensures PatchRegions(buf, rs, i, patch, update) == PatchOutcome(buf, Some(
      if Encoded(buf, rs[i], patch, update).None? then RegionUpdateFailed(rs[i].name) else RegionOverflow(rs[i].name)))
  {
  }

  /** Bytes outside the windows of `rs[i..]` are never changed by a patch. */
  lemma {:induction false} PatchKeepsOutside<V>(buf: seq<byte>, rs: seq<RegionView>, i: nat, patch: Patch<V>, update: RegionUpdate<V>, j: nat)
    requires RegionsInside(rs, |buf|) && i <= |rs| && j < |buf|
    requires forall k :: i <= k < |rs| ==> j < rs[k].offset || rs[k].offset + rs[k].length <= j
    ensures PatchRegions(buf, rs, i, patch, update).buffer[j] == buf[j]
    decreases |rs| - i
  {
    if i < |rs| {
      var step := UpdateRegion(buf, rs[i], patch, update);
      if step.failure.None? {
        PatchKeepsOutside(step.buffer, rs, i + 1, patch, update, j);
      }
    }
  }

  /** A window disjoint from those of `rs[i..]` keeps its bytes through a patch. */
  lemma PatchKeepsWindow<V>(buf: seq<byte>, rs: seq<RegionView>, i: nat, patch: Patch<V>, update: RegionUpdate<V>, w: RegionView)
    requires RegionsInside(rs, |buf|) && i <= |rs| && w.offset + w.length <= |buf|
    requires forall k :: i <= k < |rs| ==>
      rs[k].offset + rs[k].length <= w.offset || w.offset + w.length <= rs[k].offset
    ensures var out := PatchRegions(buf, rs, i, patch, update).buffer;
      out[w.offset..w.offset + w.length] == buf[w.offset..w.offset + w.length]
  {
    var out := PatchRegions(buf, rs, i, patch, update).buffer;
    forall j | w.offset <= j < w.offset + w.length
      ensures out[j] == buf[j]
    {
      PatchKeepsOutside(buf, rs, i, patch, update, j);
    }
  }

  /** With disjoint windows, a write to one window leaves what every later region's update
      sees, and so what it makes, as it was. */
  lemma DisjointUpdateUnchanged<V>(buf: seq<byte>, rs: seq<RegionView>, i: nat, k: nat, patch: Patch<V>, update: RegionUpdate<V>)
    requires RegionsInside(rs, |buf|) && Disjoint(rs) && i < k < |rs|
    requires Fits(buf, rs[i], patch, update)
    ensures var u := UpdateRegion(buf, rs[i], patch, update).buffer;
      Encoded(u, rs[k], patch, update) == Encoded(buf, rs[k], patch, update)
  {
    var e := Encoded(buf, rs[i], patch, update).value;
    OverwriteKeepsWindow(buf, rs[i].offset, e, rs[k].offset, rs[k].length);
  }

  /** With disjoint windows, a patch that succeeds leaves in every region's window the encoding
      its update made from that region's original bytes: no region's write disturbs another. */
  lemma {:induction false} PatchDisjointRegions<V>(buf: seq<byte>, rs: seq<RegionView>, i: nat, patch: Patch<V>, update: RegionUpdate<V>)
    requires RegionsInside(rs, |buf|) && Disjoint(rs) && i <= |rs|
    requires PatchRegions(buf, rs, i, patch, update).failure.None?
    ensures forall k :: i <= k < |rs| ==> RegionEncoded(buf, PatchRegions(buf, rs, i, patch, update).buffer, rs[k], patch, update)
    decreases |rs| - i
  {
    if i < |rs| {
      var out := PatchRegions(buf, rs, i, patch, update).buffer;
      var u := UpdateRegion(buf, rs[i], patch, update).buffer;
      PatchDisjointRegions(u, rs, i + 1, patch, update);
      var e := Encoded(buf, rs[i], patch, update).value;
      PatchKeepsWindow(u, rs, i + 1, patch, update, RegionView(rs[i].name, rs[i].offset, |e|));
      forall k | i < k < |rs|
        ensures RegionEncoded(buf, out, rs[k], patch, update)
      {
        DisjointUpdateUnchanged(buf, rs, i, k, patch, update);
      }
    }
  }

  /** With disjoint windows, a patch succeeds when every region's update succeeds on the
      original bytes. */
  lemma {:induction false} PatchDisjointSucceeds<V>(buf: seq<byte>, rs: seq<RegionView>, i: nat, patch: Patch<V>, update: RegionUpdate<V>)
    requires RegionsInside(rs, |buf|) && Disjoint(rs) && i <= |rs|
    requires forall k :: i <= k < |rs| ==> Fits(buf, rs[k], patch, update)
    ensures PatchRegions(buf, rs, i, patch, update).failure.None?
    decreases |rs| - i
  {
    if i < |rs| {
      var u := UpdateRegion(buf, rs[i], patch, update).buffer;
      forall k | i < k < |rs|
        ensures Fits(u, rs[k], patch, update)
      {
        DisjointUpdateUnchanged(buf, rs, i, k, patch, update);
      }
      PatchDisjointSucceeds(u, rs, i + 1, patch, update);
    }
  }

  /** For a record whose region windows are disjoint, patching succeeds exactly when every
      region's update succeeds on the record's bytes as they were, and then each window starts
      with the encoding made from its original bytes. */
  lemma PatchDisjoint<V>(buf: seq<byte>, rs: seq<RegionView>, patch: Patch<V>, update: RegionUpdate<V>)
    requires RegionsInside(rs, |buf|) && Disjoint(rs)
    ensures var o := PatchRegions(buf, rs, 0, patch, update);
      && (o.failure.None? <==> forall k :: 0 <= k < |rs| ==> Fits(buf, rs[k], patch, update))
      && (o.failure.None? ==> forall k :: 0 <= k < |rs| ==> RegionEncoded(buf, o.buffer, rs[k], patch, update))
  {
    if PatchRegions(buf, rs, 0, patch, update).failure.None? {
      PatchDisjointRegions(buf, rs, 0, patch, update);
    }
    if forall k :: 0 <= k < |rs| ==> Fits(buf, rs[k], patch, update) {
      PatchDisjointSucceeds(buf, rs, 0, patch, update);
    }
  }

  // ---------------------------------------------------------------------------------------
  // write_section (taghandler.py:76-79)

  /** `write_section`: copies `data` into the buffer at `offset` and returns its length. */
  method WriteSection(payload: array<byte>, offset: nat, data: seq<byte>) returns (written: nat)
    requires offset + |data| <= payload.Length
    modifies payload
    ensures written == |data|
    ensures payload[..] == Overwrite(old(payload[..]), offset, data)
  {
    forall i | offset <= i < offset + |data| {
      payload[i] := data[i - offset];
    }
    written := |data|;
  }

  /** The payload writes of `nfc_initialize`: a zero buffer gets an empty map at the aux
      offset, the meta section at 0 and an empty map at the main offset, which is the forced
      one or else the end of the meta section just written. */
  method FillPayload(l: Layout, metaRegion: Option<nat>) returns (payload: seq<byte>)
    requires Writable(l)
    requires l.regions.mainOffset == (if metaRegion.Some? then metaRegion.value else |l.regions.metaSection|)
    ensures payload == PayloadOf(l)
  {
    var buf := new byte[l.budget.payloadSize](_ => 0);
    assert buf[..] == Zeros(l.budget.payloadSize);
    if l.regions.auxOffset.Some? {
      var _ := WriteSection(buf, l.regions.auxOffset.value, [CBOR_EMPTY_MAP]);
    }
    ghost var withAux := buf[..];
    var metaSectionSize := WriteSection(buf, 0, l.regions.metaSection);
    var mainOffset := if metaRegion.Some? then metaRegion.value else metaSectionSize;
    var _ := WriteSection(buf, mainOffset, [CBOR_EMPTY_MAP]);
    assert buf[..] == Overwrite(Overwrite(withAux, 0, l.regions.metaSection), mainOffset, [CBOR_EMPTY_MAP]);
    payload := buf[..];
  }

  /** The assembly of `nfc_initialize` for a planned layout: `CC ++ TLV header ++ preceding
      records ++ payload record ++ terminator`. The source's checks that the message has the
      planned length and the image the tag's size always hold. */
  method AssembleImage(cfg: TagConfig, l: Layout, file: TagFile, preceding: seq<byte>, ghost encodeMeta: Metadata -> seq<byte>)
    returns (fullData: seq<byte>)
    requires WellFormed(l, cfg, file, preceding, encodeMeta)
    ensures Writable(l) && l.budget.payloadSize < 0x1_0000_0000
    ensures fullData == ImageOf(l, file, preceding)
    ensures |fullData| == cfg.size
    ensures fullData[l.payloadStart..l.payloadStart + l.budget.payloadSize] == PayloadOf(l)
  {
    WellFormedFrame(l, cfg, file, preceding, encodeMeta);
    WellFormedRecord(l, cfg, file, preceding, encodeMeta);
    var payload := FillPayload(l, cfg.metaRegion);
    var ndefData := preceding + MediaRecord(file.mimeType, payload, |preceding| == 0);
    assert |ndefData| == l.tlv.messageLength;
    assert |ndefData| == |preceding| + l.budget.recordHeaderSize + l.budget.payloadSize;
    fullData := l.cc + l.tlv.header + ndefData + [TLV_TERMINATOR];
    assert cfg.size - 1 <= |fullData| <= cfg.size;
  }

  /** The image `nfc_initialize` builds, or the error it raises: the plan, then the payload
      writes and the assembly. */
  method BuildImage(cfg: TagConfig, file: TagFile, preceding: seq<byte>, encodeMeta: Metadata -> seq<byte>)
    returns (r: Result<seq<byte>, InitError>)
    ensures r == InitialImage(cfg, file, preceding, encodeMeta)
    ensures r.Ok? ==> |r.value| == cfg.size
  {
    var plan := Plan(cfg, file, preceding, encodeMeta);
    if plan.Err? {
      return Err(plan.error);
    }
    var l := plan.value;
    InitialImageIsFramed(cfg, file, preceding, encodeMeta, l);
    var fullData := AssembleImage(cfg, l, file, preceding, encodeMeta);
    r := Ok(fullData);
  }

  /** `bytearray(data)`: a new buffer holding a copy of `data`. */
  method NewBuffer(data: seq<byte>) returns (a: array<byte>)
    ensures fresh(a) && a[..] == data
  {
    a := new byte[|data|](i requires 0 <= i < |data| => data[i]);
  }

  /** The loop of `patch_bin` over a record's buffer and regions: each region's window is
      passed to its update and the new encoding written at the window's start; the first
      failing region ends the loop with its error. */
  method PatchBuffer<V>(buf: array<byte>, regions: seq<RegionView>, patch: Patch<V>, update: RegionUpdate<V>)
    returns (r: Result<seq<byte>, PatchError>)
    requires RegionsInside(regions, buf.Length)
    modifies buf
    ensures var o := PatchRegions(old(buf[..]), regions, 0, patch, update);
      && buf[..] == o.buffer
      && r == (if o.failure.Some? then Err(o.failure.value) else Ok(o.buffer))
  {
    ghost var original := buf[..];
    var i := 0;
    while i < |regions|
      invariant 0 <= i <= |regions|
      invariant buf.Length == |original|
      invariant PatchRegions(buf[..], regions, i, patch, update) == PatchRegions(original, regions, 0, patch, update)
    {
      var region := regions[i];
      var current := buf[..];
      var encoded := Encoded(current, region, patch, update);
      if encoded.None? || |encoded.value| > region.length {
        PatchStepFails(current, regions, i, patch, update);
        return Err(if encoded.None? then RegionUpdateFailed(region.name) else RegionOverflow(region.name));
      }
      PatchStep(current, regions, i, patch, update, encoded.value);
      var _ := WriteSection(buf, region.offset, encoded.value);
      i := i + 1;
    }
    r := Ok(buf[..]);
  }

  // ---------------------------------------------------------------------------------------
  // The handler (taghandler.py:13-29, 74-237)

  class PrintTagHandler {
    const config: TagConfig
    /** Parsing an image into a record, for this handler's configuration file. */
    const parseRecord: seq<byte> -> Option<seq<RegionView>>
    /** Whether a current record exists (`_current_record` is not `None`). */
    var hasRecord: bool
    /** The bytes the current record views. */
    var buffer: array<byte>
    /** The current record's regions, as views into `buffer`. */
    var regions: seq<RegionView>

    ghost predicate Valid()
      reads this
    {
      && ParserRespectsBounds(parseRecord)
      && (hasRecord ==> RegionsInside(regions, buffer.Length))
    }

    constructor (config: TagConfig, parseRecord: seq<byte> -> Option<seq<RegionView>>)
      requires ParserRespectsBounds(parseRecord)
      ensures Valid() && !hasRecord
      ensures this.config == config && this.parseRecord == parseRecord
    {
      this.config := config;
      this.parseRecord := parseRecord;
      hasRecord := false;
      buffer := new byte[0];
      regions := [];
    }

    /** The `current_record` setter: the record is parsed over `data` itself, not a copy, so
        later writes through either reference are seen by both; when parsing fails the
        previous record stays. */
    method SetCurrentRecord(data: array<byte>) returns (ok: bool)
      requires Valid()
      modifies this
      ensures Valid()
      ensures ok == parseRecord(data[..]).Some?
      ensures ok ==> hasRecord && buffer == data && regions == parseRecord(data[..]).value
      ensures !ok ==> hasRecord == old(hasRecord) && buffer == old(buffer) && regions == old(regions)
    {
      var parsed := parseRecord(data[..]);
      if parsed.None? {
        return false;
      }
      buffer := data;
      regions := parsed.value;
      hasRecord := true;
      ok := true;
    }

    /** `nfc_initialize`: plans the layout, assembles the image, makes a fresh buffer holding
        it the current record and returns the image as a separate copy. */
    method NfcInitialize(file: TagFile, preceding: seq<byte>, encodeMeta: Metadata -> seq<byte>)
      returns (r: Result<seq<byte>, InitError>)
      requires Valid()
      modifies this
      ensures Valid()
      ensures r == match InitialImage(config, file, preceding, encodeMeta)
                   case Err(e) => Err(e)
                   case Ok(image) => if parseRecord(image).Some? then Ok(image) else Err(RecordRejected)
      ensures r.Ok? ==> hasRecord && fresh(buffer) && buffer[..] == r.value && regions == parseRecord(r.value).value
      ensures r.Err? ==> hasRecord == old(hasRecord) && buffer == old(buffer) && regions == old(regions)
    {
      var image := BuildImage(config, file, preceding, encodeMeta);
      if image.Err? {
        return Err(image.error);
      }
      var fullData := image.value;
      var record := NewBuffer(fullData);
      var ok := SetCurrentRecord(record);
      if !ok {
        return Err(RecordRejected);
      }
      r := Ok(fullData);
    }

    /** `patch_bin`: every region of the current record is updated in order with the patch's
        fields for it (never clearing), the writes landing in the shared buffer; that buffer
        itself, not a copy, is returned. A failing region stops the patch and keeps the
        earlier regions' writes. */
    method PatchBin<V>(patch: Patch<V>, update: RegionUpdate<V>) returns (r: Result<array<byte>, PatchError>)
      requires Valid()
      modifies buffer
      ensures Valid()
      ensures !hasRecord ==> r == Err(NoCurrentRecord) && buffer[..] == old(buffer[..])
      ensures hasRecord ==>
        var o := PatchRegions(old(buffer[..]), regions, 0, patch, update);
        && buffer[..] == o.buffer
        && r == (if o.failure.Some? then Err(o.failure.value) else Ok(buffer))
    {
      if !hasRecord {
        return Err(NoCurrentRecord);
      }
      var patched := PatchBuffer(buffer, regions, patch, update);
      if patched.Err? {
        return Err(patched.error);
      }
      r := Ok(buffer);
    }
  }
}

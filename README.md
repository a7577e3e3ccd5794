# PrintTag tag image layout engine

A Dafny model of the layout engine of `PrintTagHandler` (PrintTag/taghandler.py).
The engine builds the memory image of a blank NFC-V tag and patches the regions of the
current record in place.

`nfc_initialize` works in these steps:

1. It checks the tag family.
2. It builds the 4-byte Capability Container: magic `0xE1`, version/access `0x40`, size / 8,
   and `0x01` for Read Multiple Blocks.
3. It frames the NDEF message in an NDEF Message TLV. The header is a 1-byte length, or
   `0xFF` followed by a 2-byte big-endian length.
4. It sizes the payload record so that it fills the message exactly. The record header
   grows by 3 bytes once the payload exceeds 255 bytes.
5. It places three sections inside the payload:
   - the encoded meta section at offset 0;
   - the main region at the forced `meta_region` offset, or else right after the meta
     section;
   - the optional aux region near the payload's end, aligned down to a block boundary of
     the whole tag.
6. It checks the minimum gaps between the regions.
7. It assembles `CC ++ TLV header ++ NDEF message ++ 0xFE`, checks the result, and makes
   it the handler's current record.

`patch_bin` updates every region of the current record in order. The writes land in the
single buffer shared by all regions.

The model is split across four files:

- `bytes.dfy` (module `Bytes`): octets, `Option` and `Result`, zero buffers, and slice
  assignment (`Overwrite`).
- `frame.dfy` (module `Frame`): the Capability Container, the TLV framing and the NDEF
  media record. The record comes with a header decoder that its encoding is proved
  against.
- `layout.dfy`:
  - module `Layout`: the pure planning arithmetic. `Plan` makes every check of
    `nfc_initialize` in the source's order, one error per check. `PayloadOf` and `ImageOf`
    are the payload and image the plan produces.
  - module `LayoutProperties`: lemmas about the planned image.
- `taghandler.dfy` (module `TagHandler`): the imperative parts.
  - `WriteSection` is the in-place write into an array.
  - `FillPayload` and `AssembleImage` are the writes and the concatenation of
    `nfc_initialize`.
  - `PatchBuffer` is the loop of `patch_bin`.
  - `PrintTagHandler` is a class with the current record's buffer and regions as fields.
    Its methods are the `current_record` setter, `nfc_initialize` and `patch_bin`.
  - `PatchRegions` specifies `patch_bin`. The lemmas next to it cover records whose
    region windows are disjoint.

External inputs become parameters:

- the configuration file's `root` and `mime_type` (`TagFile`);
- the encoded records before the payload record (`preceding`);
- the meta-field encoder (`encodeMeta`);
- the record parser (`parseRecord`);
- each region's `update` function (`RegionUpdate`).

`cbor2.dumps({})` is the single byte `0xA0`: an empty map, major type 5 with length 0
(RFC 8949, section 3.1).

Where the checks are statements that cannot fail, the model proves that they hold. This
covers the TLV header width for every size divisible by 8, and the expected record size.
It also covers the image length and the payload's position in the image. The
message-length check of line 216 is proved for every plan that passes the model's
`NdefLengthMismatch` check, which rejects a meta section longer than the payload.

Some behaviour of the code is easy to miss when reading its comments and checks. The
model follows what the code does:

- The check at line 230, with the comment at line 229, allows a finished image of `S - 1`
  or `S` bytes. The image is always exactly `S` bytes (`WellFormedFrame`).
- The meta-section size check at line 162 runs before line 169 takes the 3 extra bytes of
  a long record header from the payload. A plan can therefore succeed with a final payload
  no larger than `max_meta_section_size` (`FinalPayloadCanBeAtMostMaxMeta`).
- Nothing after line 200 compares the meta section's encoded size with
  `max_meta_section_size` or with a forced main offset. A forced `meta_region` inside the
  meta section lets the main region's empty map at line 210 overwrite a meta byte
  (`ForcedMainCanOverwriteMeta`).
- A region update in `patch_bin` (lines 64-69) that raises ends the loop. Regions after it
  are not updated, and earlier regions keep their new bytes.
- The setter at line 29 wraps `data` in a `memoryview` without copying it, so the record
  and the caller share one buffer. `patch_bin` writes into that buffer and returns it at
  line 71, not a copy. The image `nfc_initialize` returns at line 237 is a second
  `bytearray`, separate from the record's buffer.

## Model

| member | source | states |
|---|---|---|
| Bytes.Zeros | PrintTag/taghandler.py:175 | `bytearray(payload_size)` is `payload_size` zero bytes |
| Bytes.Overwrite | PrintTag/taghandler.py:76-79 | slice assignment inside the buffer keeps its length, puts `data` in the window and leaves every byte outside the window unchanged |
| Bytes.OverwriteKeepsWindow | PrintTag/taghandler.py:78 | a write leaves every window disjoint from it byte for byte unchanged |
| Frame.CapabilityContainer | PrintTag/taghandler.py:103-117 | succeeds exactly when the size is a multiple of 8 and size/8 fits a byte; otherwise it reports which of those failed; the CC is 4 bytes `E1 40 size/8 01` and declares the size |
| Frame.TlvFrame | PrintTag/taghandler.py:119-149 | succeeds exactly when 7 <= S < 65545 and S is not 262 or 263, with the error for each failing case; the header is well formed, announces the message length, is 2 bytes exactly when that length is at most 0xFE, and CC + header + message + terminator is S bytes |
| Frame.Be32 | PrintTag/taghandler.py:164-165 | the 4-byte PAYLOAD_LENGTH decodes back to the length it encodes |
| Frame.MediaRecord | PrintTag/taghandler.py:212-214 | the encoded record decodes as an unchunked media-type record without ID, last of its message, first exactly when no record precedes it, short exactly when the payload is at most 255 bytes, with the type and payload lengths; its header has the width of line 158 or 167; the type and the payload sit after the header |
| Layout.PayloadBudget | PrintTag/taghandler.py:156-173 | on success the header width matches the payload size, the record fills the message exactly, and the budget before the long-header adjustment exceeds the meta maximum; `NoRoomForMeta` exactly when that budget does not exceed it; when it reports `NdefPayloadUnfillable`, no payload size fills the message |
| Layout.FillIsUnique | PrintTag/taghandler.py:158-173 | at most one payload size fills the message, so the budget is the only one possible |
| Layout.AlignRegionOffset | PrintTag/taghandler.py:81-93 | the result is aligned to the block size measured from the tag's start; an aligned offset is returned unchanged; aligning up moves by less than a block forward, aligning down by less than a block back |
| Layout.AlignRegionOffsetIsNearest | PrintTag/taghandler.py:81-93 | aligning down gives the greatest boundary at or below the offset, aligning up the least one at or above it |
| Layout.AlignedAreApart | PrintTag/taghandler.py:84-93 | two different block boundaries of the whole tag are at least a block apart |
| Layout.AuxOffset | PrintTag/taghandler.py:191-194 | an aux offset exists exactly when an aux size is configured; it lies on a block boundary of the whole tag, at most the payload's end less the aux size and less than a block below it |
| Layout.ValidRegionsAreDetermined | PrintTag/taghandler.py:181-207 | every valid placement has the aux offset of line 194 and the meta section that encodes it, so at most one placement is valid |
| Layout.PlanRegions | PrintTag/taghandler.py:181-207 | on success: the meta section encodes the forced main offset and the aux offset; the main offset is the forced one or the meta section's end; the aux region exists exactly when configured, is aligned, lies inside the payload within a block of its end, and starts at least 4 bytes after the main offset; without aux, at least 8 bytes follow the main offset. `AuxRegionTooSmall` exactly when the configured aux size is under 5; `BlockSizeZero` exactly when it is 5 or more and the block size is 0; `MainRegionTooSmall` only when no placement meets the gap rules of lines 205 and 207; no other errors |
| Layout.Plan | PrintTag/taghandler.py:100-221 | a plan that succeeds is well formed: valid CC and TLV, exact fill of the message, a budget above the meta maximum before the long-header adjustment (line 162), payload start after CC, header, preceding records and record header, valid regions, a media type that fits one byte, and a meta section that fits the payload |
| Layout.WellFormedIsWritable | PrintTag/taghandler.py:192-210 | in a well-formed plan the aux, meta and main writes all lie inside the payload buffer |
| Layout.PayloadOf | PrintTag/taghandler.py:175-210 | the payload buffer keeps its allocated length |
| Layout.NdefMessage | PrintTag/taghandler.py:212-214 | the NDEF message is the preceding records followed by the payload record; `WellFormedRecord` proves where each lies in the image |
| Layout.ImageOf | PrintTag/taghandler.py:223-227 | the image is CC, TLV header, NDEF message and terminator in that order; `WellFormedFrame` proves its length, CC, TLV header and terminator |
| Layout.InitialImage | PrintTag/taghandler.py:74-237 | `nfc_initialize` succeeds exactly when the plan succeeds, and fails with the plan's error otherwise |
| LayoutProperties.FramedParts | PrintTag/taghandler.py:223-227 | the appended image can be cut back into CC, TLV header, preceding records, payload record and terminator |
| LayoutProperties.RecordInFrame | PrintTag/taghandler.py:213-233 | in the assembled image the preceding records come first, and the payload record decodes as unchunked with the planned flags and lengths; the payload lies at the start offset of line 159 |
| LayoutProperties.ImageRecord | PrintTag/taghandler.py:159-233 | for a layout whose payload starts after CC, TLV header, preceding records and record header, the image has the preceding records first, the payload record's decoded header, and the payload verbatim at the payload start |
| LayoutProperties.WellFormedFrame | PrintTag/taghandler.py:103-149 | the image of a well-formed plan is exactly S bytes, starts with `E1 40 S/8 01`, has a well-formed TLV header announcing everything up to the terminator, which is also preceding + header + payload (lines 216 and 219), and ends in `0xFE` |
| LayoutProperties.WellFormedRecord | PrintTag/taghandler.py:159-233 | in the image of a well-formed plan the preceding records come first, the payload record decodes unchunked with the planned payload length and the MB, ME and SR flags, and the payload appears verbatim at the payload start (line 233) |
| LayoutProperties.InitialImageIsFramed | PrintTag/taghandler.py:223-237 | when the plan succeeds, the initial image is its assembled image, and its length satisfies `S - 1 <= len <= S` |
| LayoutProperties.PlanIsComplete | PrintTag/taghandler.py:100-221 | every well-formed layout of an NFC-V configuration is exactly the plan's result, so the plan fails only when no well-formed layout exists |
| LayoutProperties.PayloadContents | PrintTag/taghandler.py:175-210 | after the writes, the main offset holds `0xA0`; the rest of the meta window holds the meta section; the aux offset holds `0xA0` when it is past the meta section and not the main offset; every other byte is zero |
| LayoutProperties.UnforcedRegionsAreDisjoint | PrintTag/taghandler.py:186-210 | without a forced main offset the meta section is intact, the main map follows straight after it, and the aux map lies beyond both and survives |
| LayoutProperties.PlanErrors | PrintTag/taghandler.py:100-192 | the family, divisibility and size errors come first; the TLV width check never fails inside the plan; a TLV length that is not a byte arises only for a 0-byte tag; an aux size under 5 always fails |
| LayoutProperties.DefaultConfigPlan | PrintTag/taghandler.py:14-196 | for the constructor defaults, nothing preceding and a media type of m <= 40 bytes: the CC is `E1 40 28 01`, the TLV header is `03 FF 01 37`, the payload of 305 - m bytes starts at 14 + m, and the aux region is at 270 - m |
| LayoutProperties.DefaultConfigScenario | PrintTag/taghandler.py:14-237 | for those inputs `nfc_initialize` yields a 320-byte image whose CC starts `E1 40 28 01` |
| LayoutProperties.FinalPayloadCanBeAtMostMaxMeta | PrintTag/taghandler.py:162-173 | a concrete configuration passes the meta check and ends with a 305-byte payload not larger than its 307-byte meta maximum |
| LayoutProperties.ForcedMainCanOverwriteMeta | PrintTag/taghandler.py:182-210 | a concrete configuration with a forced main offset of 2 and a 5-byte meta section is accepted, and the main map replaces meta byte 2 |
| LayoutProperties.LongMetaSectionFails | PrintTag/taghandler.py:200-216 | a 400-byte meta section fails the gap check of line 205 or 207 without a forced main offset, and the message-length check of line 216 with a forced offset of 2 |
| TagHandler.UpdateRegion | PrintTag/taghandler.py:65-69 | one region's update keeps the buffer length; it succeeds exactly when the update returns an encoding that fits the window; on failure the buffer is unchanged; on success the encoding sits at the window's start |
| TagHandler.PatchRegions | PrintTag/taghandler.py:63-71 | updating the regions in order keeps the buffer's length |
| TagHandler.PatchKeepsOutside | PrintTag/taghandler.py:63-71 | a byte outside every remaining region's window is never changed by a patch |
| TagHandler.PatchKeepsWindow | PrintTag/taghandler.py:63-71 | a window disjoint from every remaining region's window keeps its bytes through a patch |
| TagHandler.DisjointUpdateUnchanged | PrintTag/taghandler.py:64-69 | with disjoint windows, the write of one region does not change what a later region's update sees and returns |
| TagHandler.PatchDisjointRegions | PrintTag/taghandler.py:63-71 | with disjoint windows, a patch that succeeds leaves in each window the encoding made from that region's original bytes |
| TagHandler.PatchDisjointSucceeds | PrintTag/taghandler.py:63-71 | with disjoint windows, the patch succeeds when every region's update fits on the original bytes |
| TagHandler.PatchDisjoint | PrintTag/taghandler.py:63-71 | with disjoint windows, the patch succeeds if and only if every region's update fits on the original bytes, and then every window starts with its new encoding |
| TagHandler.FieldsFor | PrintTag/taghandler.py:66-67 | `patch.get(name, {})`: a region the patch names gets its entry, any other region gets no fields |
| TagHandler.Encoded | PrintTag/taghandler.py:65-69 | a region's update sees exactly its window's bytes and the patch's set and remove fields for its name |
| TagHandler.WriteSection | PrintTag/taghandler.py:76-79 | the array becomes the slice assignment of `data` at `offset`, and the returned count is `len(data)` |
| TagHandler.FillPayload | PrintTag/taghandler.py:175-210 | the aux map, then the meta section, then the main map at the forced offset or the meta section's returned length, written into a zero buffer, give exactly the planned payload |
| TagHandler.AssembleImage | PrintTag/taghandler.py:212-233 | the assembled bytes are the planned image, exactly the tag's size, with the payload verbatim at the payload start |
| TagHandler.BuildImage | PrintTag/taghandler.py:100-233 | the plan, the payload writes and the assembly give the image of `InitialImage`, or its error; a built image is exactly the tag's size |
| TagHandler.NewBuffer | PrintTag/taghandler.py:235 | `bytearray(full_data)` is a new buffer holding a copy of the image |
| TagHandler.PatchBuffer | PrintTag/taghandler.py:64-71 | the loop leaves the buffer as the specification's patch does, returning its buffer, or the first failing region's error |
| TagHandler.PrintTagHandler.constructor | PrintTag/taghandler.py:14-21 | a new handler has no current record and keeps its configuration and parser |
| TagHandler.PrintTagHandler.SetCurrentRecord | PrintTag/taghandler.py:27-29 | when the parser accepts the data, the current record becomes the caller's buffer itself, not a copy, with the parsed regions; otherwise the previous record stays |
| TagHandler.PrintTagHandler.NfcInitialize | PrintTag/taghandler.py:74-237 | returns the planned image, or the plan's error, or `RecordRejected` when the image does not parse; on success a new buffer holding the image becomes the current record, otherwise the handler is unchanged |
| TagHandler.PrintTagHandler.PatchBin | PrintTag/taghandler.py:63-71 | with no current record it fails and changes nothing; otherwise the record's buffer becomes the patched buffer and that same buffer is returned, or the first failing region's error is returned |

## Left out

- Reading the YAML configuration (lines 96-98) is not modelled. Only `root` and `mime_type` enter the model, as the `TagFile` parameter; `mime_type` is taken as its bytes.
- `Fields` and the meta-field encoder are not part of this model. Their output is the parameter `encodeMeta`, applied to the meta map. The map holds the forced main offset and the aux offset when present.
- The `ndef` library is not part of this model. The preceding URI record enters as its encoded bytes (`preceding`). Their length is the one line 156 measures: the record's MB/ME flags change in the final message, but its length does not.
- The `ndef` library's encoding of the payload record is modelled only for what the engine uses: a media-type record without ID, with a short or 4-byte payload length.
- `cbor2.dumps({})` is the constant `0xA0`.
- `Record` and `Region` are not part of this model. Parsing an image into regions is the parameter `parseRecord`, assumed to report windows inside the image. `Region.update` is the parameter `update`, returning the new encoding or nothing when it raises.
- TagHandler.UpdateRegion: the encoding is written at the start of the window. Whether `Region.update` also clears the rest of the window belongs to `Region`, which is not part of this model.
- Regions are taken in the order of the parser's sequence, standing in for the dictionary order of `regions.items()`.
- Layout.Plan: negative configuration values (sizes, block size, offsets) are not modelled, because all configuration numbers are naturals.
- Layout.Plan: a zero block size with an aux region is reported as `BlockSizeZero`, where Python raises `ZeroDivisionError`.
- Layout.Plan: with a forced `meta_region` that passes lines 205/207, a meta section longer than the payload grows the buffer at line 200 and fails line 216; the model reports `NdefLengthMismatch` there without materialising the larger buffer. Without a forced offset, lines 205/207 fail first (`MainRegionTooSmall`), as `LongMetaSectionFails` shows.
- Layout.Plan: a negative aux offset is always rejected at line 205. The model reports that check and does not materialise the write at a negative index that precedes it.
- A tag size whose message length does not fit the TLV bytes is reported as `TlvLengthNotAByte`, where Python's `bytes()` raises `ValueError`.
- A media type longer than 255 bytes is reported as `RecordTypeTooLong`, the error the NDEF encoder raises.
- Exceptions raised by the record parser are modelled as the parser returning nothing (`RecordRejected`). Raising any other exceptions is not modelled.
- `bin_to_dict` (lines 32-60) is not modelled: it is made of calls into `Record`, `Region`, `Fields` and `opt_check`.
- The load-cell driver, the QR reader, the OctoPrint plugin and the API server are outside the tag image engine and are not modelled.

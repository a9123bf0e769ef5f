# palette-js gradient codecs in Dafny

This project models the gradient codecs of palette-js, a browser tool that loads gradient
presets and saves them again in other formats. All of them work on one colour-stop model: a
stop has red, green, blue and optional alpha channels in [0, 1], a position in [0, 1] and an
optional midpoint.

- **Photoshop `.grd` reader** (`load_gradients.js`). The file has no length fields, so the
  reader scans for 4-byte big-endian tags (`GrdScan`). It checks a three-field header and reads
  one gradient per `Grdn` record: the name, then the colour stops in RGB, HSB, Book, CMYK, Grey
  or Lab (`GrdStops`). It adds boundary stops at 0 and 1. It merges an optional transparency
  track by sorting a positions track and sampling both tracks (`GrdMerge`). Records are tied to
  the groups of the optional preset hierarchy (`GrdHierarchy`), and a per-group summary is built
  (`GrdGroups`). `GrdReader` puts these together.
- **Colour conversions** (`Colour`): `HSVtoRGB`, `CMYKtoRGB` and `clamp01`.
- **Smaller helpers**: file-name helpers (`FileNames`) and the depth-aware comma splitter of the
  CSS stop list (`CssSplit`). `Js` models JavaScript's number-to-string conversion,
  `Math.round`, `%`, `trim` and `lastIndexOf`.
- **Photoshop `.grd` writer** (`write_grd.js`). `GrdWriter.ByteWriter` is the fixed-size
  `Uint8Array` with its write cursor; writes past its end are dropped. The stream it should hold
  is specified by functions. `GrdRoundTrip` proves what the writer and the reader agree on: the
  header, the names, and the stop locations and midpoints.
- **Affinity `.afpalette` writer** (`write_afpalette.js`). The writer stages a list of byte
  chunks, back-patches the size fields and merges the chunks into one array. It then stores a
  CRC-32 in two footer slots. `AfPalette` holds the specification functions and the layout
  lemmas, `AfPaletteBuild` the methods, and `AfPaletteProps` the first-occurrence and
  id-counter properties. `Crc32` is the table-driven CRC-32 with the 0xEDB88320 polynomial.
- **GIMP gradient writer** (`Ggr`, `write_ggr.js`) and **SVG writer** (`Svg`, `write_svg.js`):
  line-list builders, with `escapeXml`.

Modelling choices:

- JavaScript strings are sequences of UTF-16 code units (`Js.JsString`). Bytes are integers
  0..255.
- JavaScript numbers are modelled as reals.
- A read past the end of a `DataView` throws a `RangeError`. Nothing catches it, so it ends the
  whole parse; the model returns `Err(RangeError)`.
- The host services the sources call but do not define are function-valued parameters:
  - `GrdHost`: `getFloat64`, the Lab conversion and `gradientUtils.getColourFromGradient`;
  - `GrdNumerics` and `AfEncoders`: the IEEE 754 encoders, `toFixed(6)` and `TextEncoder`;
  - `NumberFormat`: `toFixed`.
- An undefined `Alpha` or `Midpoint` is `None`.
- Each loop of the source is a method proved equal to a specification function. The
  properties are lemmas about those functions.

## Model

| member | source | states |
|---|---|---|
| GrdScan.SkipToIsSkipResult | palette-js/load_gradients.js:708-716 | the scan returns the position just after the first tag that starts in [current, end - 4), or end when there is none |
| GrdScan.SkipToChunkInRange | palette-js/load_gradients.js:708-716 | the scanning loop returns exactly that position, and it is the one the scan function defines |
| GrdScan.SkipResultUnique | palette-js/load_gradients.js:708-716 | two results that meet the scan's description for the same arguments are equal |
| GrdScan.SkipFindsTagAtStart | palette-js/load_gradients.js:709-711 | a scan that starts on the tag returns the position four bytes later |
| GrdScan.ChunksIncreasing | palette-js/load_gradients.js:718-728 | the positions collected before p are strictly increasing |
| GrdScan.ChunksFollowTags | palette-js/load_gradients.js:718-728 | every position collected lies inside the buffer, just after the tag |
| GrdScan.ChunksComplete | palette-js/load_gradients.js:718-728 | every tag that starts before p is collected |
| GrdScan.FindAllChunks | palette-js/load_gradients.js:718-728 | the loop returns the position after every tag that starts before the last four bytes, in increasing order, and nothing else |
| GrdScan.ReadUnicodeString | palette-js/load_gradients.js:730-747 | with fewer than four bytes left the text is empty and the index is end; otherwise the text is the nonzero units read after the count, at most count of them, the index stops after a zero unit, after count units or at end, and the index never passes end |
| GrdScan.UnitOfText | palette-js/load_gradients.js:738-744 | each unit of the text read is the nonzero unit of the buffer at its place |
| GrdScan.UnicodeReadUnique | palette-js/load_gradients.js:730-747 | the text and the index read are determined by the buffer, the start and end |
| GrdStops.U32At | palette-js/load_gradients.js:200 | a 32-bit read succeeds exactly when four bytes are left at the index, and its value is below 2^32 |
| GrdStops.ReadF64Field | palette-js/load_gradients.js:217-218 | the method reads the field `F64Field` describes; see `GrdStops.F64FieldValue` for what that field is |
| GrdStops.ReadU32Field | palette-js/load_gradients.js:319-322 | the same for a 32-bit field; its value is never negative |
| GrdStops.ReadRgb | palette-js/load_gradients.js:234-239 | the method reads the colour `RgbFrom` describes; see `GrdStops.RgbFromValues` |
| GrdStops.ReadHsb | palette-js/load_gradients.js:215-231 | the method reads the colour `HsbColour` describes (hue taken modulo one turn); see `GrdStops.HsbColourAsWritten` |
| GrdStops.ReadBook | palette-js/load_gradients.js:241-260 | the method reads the colour `BookColour` describes; see `GrdStops.BookColourGrey` |
| GrdStops.ReadCmyk | palette-js/load_gradients.js:261-278 | the method reads the colour `CmykColour` describes; see `GrdStops.CmykColourValues` |
| GrdStops.ReadGrey | palette-js/load_gradients.js:279-289 | the method reads the colour `GreyColour` describes; see `GrdStops.GreyColourValues` |
| GrdStops.ReadLab | palette-js/load_gradients.js:290-305 | the method reads the colour `LabColour` describes; see `GrdStops.LabColourValues` |
| GrdStops.F64FieldValue | palette-js/load_gradients.js:217-218 | a field is read exactly when the eight bytes `skip` past the tag the scan finds lie within the buffer, and is then the double the host decodes there; otherwise the read throws a RangeError |
| GrdStops.RgbFromValues | palette-js/load_gradients.js:234-239 | red is the double at the red cursor over 255, green the double after the next `Grn ` over 255, blue the double after the following `Bl  ` over 255; a short buffer throws a RangeError |
| GrdStops.HsbColourAsWritten | palette-js/load_gradients.js:215-231 | the colour read from an HSB stop is what `HSVtoRGB` as written returns for hue/360, saturation/100 and brightness/100 whenever the hue is at least 0; a hue in [-60, 0) is where that function returns undefined channels; saturation and brightness within 0..100 give channels in [0, 1] |
| GrdStops.BookColourGrey | palette-js/load_gradients.js:241-260 | a Book Color is grey 0.5 with the cursor unmoved exactly when no `Rd  ` tag lies in the next 300 bytes before the record end |
| GrdStops.RgbFromAdvances | palette-js/load_gradients.js:248-253 | reading the RGB triple of a Book Color moves the cursor past the red field |
| GrdStops.CmykColourValues | palette-js/load_gradients.js:261-278 | the four inks give channels in [0, 1], and a black of 100 percent gives black |
| GrdStops.GreyColourValues | palette-js/load_gradients.js:279-289 | a grey stop has three equal channels, the double stored 8 bytes after the first `Gry ` over 100 |
| GrdStops.LabColourValues | palette-js/load_gradients.js:290-305 | a Lab stop is the host's Lab conversion of the doubles stored after `Lmnc`, `A   ` and `B   `, unscaled |
| GrdStops.ColourOfFormat | palette-js/load_gradients.js:215-311 | the stop is abandoned (none, no exception) exactly when the format is none of HSBC, RGBC, BkCl, CMYC, Grsc and LbCl |
| GrdStops.ReadColourOfFormat | palette-js/load_gradients.js:215-311 | dispatches on the format tag to the six decoders, and abandons the gradient on any other format |
| GrdStops.ReadColour | palette-js/load_gradients.js:205-211 | the format is read 26 bytes after the next `Clrt`; when that is at or past the record end the gradient is abandoned |
| GrdStops.StopTailAt | palette-js/load_gradients.js:319-322 | a location read in 4096ths is never negative |
| GrdStops.ReadStopTail | palette-js/load_gradients.js:319-322 | the location (`Lctn`, in 4096ths) and the midpoint (`Mdpn`, in hundredths), and the index after them |
| GrdStops.ColourStop | palette-js/load_gradients.js:333 | every colour stop read is opaque and does not sit before 0 |
| GrdStops.ReadColourStop | palette-js/load_gradients.js:205-334 | one colour stop: its colour, alpha 1, its location and midpoint, and the index after it; none when the gradient is abandoned |
| GrdStops.AlphaStop | palette-js/load_gradients.js:368-385 | every transparency stop read has an opacity and does not sit before 0 |
| GrdStops.ReadAlphaStop | palette-js/load_gradients.js:368-374 | one transparency stop: the opacity in percent after `TrnS` then `Opct`, its location and midpoint, the colour channels 0 |
| GrdStops.WithBoundaries | palette-js/load_gradients.js:324-341 | stop j of n is pushed as one to three entries: for the first stop the first entry is that stop moved to 0, for the last stop the last entry is that stop moved to 1, and a middle stop is pushed alone and unchanged |
| GrdStops.ColourStopsFrom | palette-js/load_gradients.js:203-343 | a colour-stop loop that completes reads exactly n stops, all opaque and none before 0 |
| GrdStops.AlphaStopsFrom | palette-js/load_gradients.js:367-394 | a transparency-stop loop that completes reads exactly n stops, each with an opacity and none before 0 |
| GrdStops.ColourStopsStep | palette-js/load_gradients.js:203-316 | one turn of the colour loop: an exception propagates, an abandoned stop abandons the gradient, a stop read continues from the index after it |
| GrdStops.AlphaStopsStep | palette-js/load_gradients.js:367-394 | one turn of the transparency loop: an exception propagates, a stop read continues from the index after it |
| GrdStops.AddStopShape | palette-js/load_gradients.js:324-341 | pushing stop j keeps the track's shape: one stop more, at most one copy before the last stop, the first entry at 0 and, after the last stop, the last entry at 1 |
| GrdStops.PushedShape | palette-js/load_gradients.js:324-341 | a track of stops none of which sits before 0 has that shape |
| GrdStops.PushedFrom | palette-js/load_gradients.js:324-341 | every track entry is one of the stops read, with only its position possibly changed |
| GrdStops.PushedEnds | palette-js/load_gradients.js:324-341 | the first track entry is the first stop moved to 0, and once all n stops are pushed the last entry is the last stop moved to 1 |
| GrdStops.BoundaryEntries | palette-js/load_gradients.js:324-341 | every entry pushed for a stop is that stop with only its position possibly moved |
| GrdStops.PushedOpaque | palette-js/load_gradients.js:324-341 | pushing opaque colour stops gives a track whose entries are all opaque |
| GrdStops.PushedWithAlpha | palette-js/load_gradients.js:358-394 | pushing transparency stops gives a track whose entries all have an opacity |
| GrdStops.ColourTracksShape | palette-js/load_gradients.js:195-343 | a complete colour track holds n to n + 2 opaque entries, its first entry is the first stop read moved to 0 and its last the last stop read moved to 1; the transparency track is empty, and the positions track lists the colour positions and midpoints |
| GrdStops.AlphaTracksShape | palette-js/load_gradients.js:358-394 | reading the transparency stops keeps the colour track and gives a transparency track whose entries have an opacity, whose first entry is the first stop read moved to 0 and whose last is the last stop read moved to 1; their positions are appended after the colour positions |
| GrdStops.PushStop | palette-js/load_gradients.js:325-341 | pushes the stop with its boundary copies to the track, and their positions and midpoints to the positions track |
| GrdStops.ReadColourTurn | palette-js/load_gradients.js:205-334 | one turn of the colour loop, tied to the loop's reference definition in each of its three outcomes |
| GrdStops.PushColourTurn | palette-js/load_gradients.js:324-341 | after the turn the tracks are those of the stops read so far, plus the new one |
| GrdStops.ReadColourStops | palette-js/load_gradients.js:195-343 | the colour-stop loop yields the colour and positions tracks of all n stops and the index after them; none when a stop is abandoned; a RangeError when a read passes the buffer |
| GrdStops.ReadAlphaTurn | palette-js/load_gradients.js:368-385 | one turn of the transparency loop, tied to the loop's reference definition |
| GrdStops.PushAlphaTurn | palette-js/load_gradients.js:376-393 | after the turn the transparency track is that of the stops read so far, and the positions track is the colour positions followed by theirs |
| GrdStops.ReadAlphaStops | palette-js/load_gradients.js:358-394 | the transparency loop adds the transparency track of all n stops and appends their positions after the colour positions |
| GrdMerge.InsertPermutes | palette-js/load_gradients.js:396 | inserting an entry into the sorted prefix adds that entry and loses none |
| GrdMerge.InsertSorted | palette-js/load_gradients.js:396 | inserting into a sorted sequence keeps it sorted by position |
| GrdMerge.SortByPosition | palette-js/load_gradients.js:396 | the sorted positions track has the same length and is ordered by position |
| GrdMerge.SortPermutes | palette-js/load_gradients.js:396 | sorting is a permutation of the positions track |
| GrdMerge.InsertAtPosition | palette-js/load_gradients.js:396 | insertion keeps the entries that share a position in the order they were pushed |
| GrdMerge.SortKeepsOrderAtEachPosition | palette-js/load_gradients.js:396 | the sort is stable: at every position, the entries keep their pushed order |
| GrdMerge.FirstAtPosition | palette-js/load_gradients.js:396 | the earliest entry at a position heads the entries selected at that position, which is the entry the merge keeps |
| GrdMerge.AtPositionNone | palette-js/load_gradients.js:396 | a position no entry has selects no entry |
| GrdMerge.SortSameMembers | palette-js/load_gradients.js:396 | an entry is in the sorted track exactly when it is in the positions track |
| GrdMerge.KeptCovers | palette-js/load_gradients.js:405-408 | every sorted entry shares its position with a kept entry at or before it |
| GrdMerge.KeptHasPosition | palette-js/load_gradients.js:400-416 | every position in the sorted track is the position of some used entry |
| GrdMerge.MergedEntries | palette-js/load_gradients.js:396-416 | the sorted track is sorted, has the members of the positions track, and does not start at the -1 sentinel |
| GrdMerge.StopsOf | palette-js/load_gradients.js:412-415 | output stop x takes its colour from the colour track and its opacity from the transparency track, both sampled at its entry's position, with that entry's midpoint |
| GrdMerge.Merge | palette-js/load_gradients.js:396-416 | the merge loop makes one stop per sorted entry whose position differs from the previous one (from -1 for the first) |
| GrdMerge.KeptUpToMembers | palette-js/load_gradients.js:400-416 | the entries used are exactly the sorted entries that are kept, in order |
| GrdMerge.KeptUpToIncreasing | palette-js/load_gradients.js:400-416 | the entries used have strictly increasing positions, and the last is at the last sorted position |
| GrdMerge.KeptIsFirst | palette-js/load_gradients.js:405-408 | an entry is used exactly when no earlier sorted entry has its position |
| GrdMerge.MergedIncreasing | palette-js/load_gradients.js:396-416 | the merged stops have strictly increasing positions: no position is duplicated |
| GrdMerge.MergedPositionsFromTracks | palette-js/load_gradients.js:396-416 | every merged stop sits at a position of the positions track |
| GrdMerge.MergedStopsOk | palette-js/load_gradients.js:412-415 | every merged stop has an opacity and does not sit before 0 |
| GrdMerge.MergedCoversTracks | palette-js/load_gradients.js:396-416 | every position of either track has a merged stop |
| GrdMerge.MergedFirstEntry | palette-js/load_gradients.js:403-415 | each merged stop takes the midpoint of the first entry pushed at its position, so a colour stop's midpoint wins over a transparency stop's |
| GrdReader.Header | palette-js/load_gradients.js:129-154 | the header is accepted exactly when the buffer starts with '8BGR', version 5 and descriptor marker 16; version 3 gets its own error; a buffer too short for a field the checks reach throws a RangeError |
| GrdReader.ReadHeader | palette-js/load_gradients.js:129-154 | the header checks, read field by field, give the verdict of `Header` |
| GrdReader.ColourTracksOkAt | palette-js/load_gradients.js:203-343 | a non-empty colour list gives an opaque colour track from position 0 to position 1, with no stop before 0 and the positions track equal to the colour stops' positions |
| GrdReader.MergedSpansUnit | palette-js/load_gradients.js:396-416 | merging tracks whose colour track runs from 0 to 1 gives stops at 0 and at 1, none before 0, each with an opacity |
| GrdReader.AlphaPositionsNonNegative | palette-js/load_gradients.js:367-394 | after the transparency loop no entry of the positions track lies before 0 |
| GrdReader.AlphaMergeSpan | palette-js/load_gradients.js:367-416 | the transparency stops read after a colour track and merged with it span 0 to 1 |
| GrdReader.ColourTrackSpans | palette-js/load_gradients.js:417-423 | without a `Trns` list the colour track itself spans 0 to 1 with every stop opaque |
| GrdReader.GradientColoursSpan | palette-js/load_gradients.js:356-423 | the stops of a gradient, with or without a `Trns` list, span 0 to 1 |
| GrdReader.TrnsColoursSpan | palette-js/load_gradients.js:358-416 | the stops merged from a `Trns` list span 0 to 1 |
| GrdReader.StopsAtSpan | palette-js/load_gradients.js:195-423 | whenever a record yields stops, they span 0 to 1 |
| GrdReader.PaletteName | palette-js/load_gradients.js:181 | the name is never empty: the text read when there is one, otherwise the file name, a space and the gradient's number among those kept |
| GrdReader.GradientAtKept | palette-js/load_gradients.js:167-425 | a gradient kept from a record has a non-empty name, the group it was given and stops spanning 0 to 1 |
| GrdReader.RecordEnd | palette-js/load_gradients.js:169 | a record ends within the buffer |
| GrdReader.GroupOf | palette-js/load_gradients.js:349-353 | record `index` has a group exactly when index/2 is within the group map, and that group is one of the map's names |
| GrdReader.GradientsFromNext | palette-js/load_gradients.js:167-427 | one record adds at most one gradient after those already kept, and keeps every gradient grouped from the map |
| GrdReader.GradientsFromKept | palette-js/load_gradients.js:167-427 | the record loop keeps earlier gradients unchanged, adds at most one per remaining record, and every gradient is named, grouped from the map and spans 0 to 1 |
| GrdReader.GradientsFromPrefix | palette-js/load_gradients.js:167-427 | the record loop keeps the gradients already read as a prefix and adds at most one per remaining record |
| GrdReader.GradientsFromGrouped | palette-js/load_gradients.js:167-427 | every gradient the record loop keeps is named, grouped from the map and spans 0 to 1 |
| GrdReader.LoadGrdKept | palette-js/load_gradients.js:121-453 | a file is read only past a valid header and hierarchy; at most one gradient per `Grdn` record is kept, each named, grouped and spanning 0 to 1; the group summary, present whenever there is a hierarchy, counts the kept gradients by group, and equals the count `groupCounts` gives as written whenever no group is named after an inherited property |
| GrdReader.LoadGrd | palette-js/load_gradients.js:121-453 | a bad header gives its error, a hierarchy that throws gives that exception, a file read has the file name, and a file without a hierarchy has no group summary |
| GrdReader.ReadGradientColours | palette-js/load_gradients.js:356-423 | the stops read after the colour list are those of `GradientColours`: the colour track, or its merge with the transparency stops |
| GrdReader.ReadTrnsColours | palette-js/load_gradients.js:358-416 | the transparency reading and merge give `TrnsColours` |
| GrdReader.ReadStops | palette-js/load_gradients.js:195-423 | the stops of a record, or none, or the exception thrown, are those of `StopsAt` |
| GrdReader.ReadGradient | palette-js/load_gradients.js:168-425 | one record gives the gradient of `GradientAt`, or none, or the exception thrown |
| GrdReader.ReadNameAndStops | palette-js/load_gradients.js:176-425 | reading the name string after `Nm  ` and then the stops gives the gradient of `NamedGradient` for that name and the index after it |
| GrdReader.GradientAtNamed | palette-js/load_gradients.js:171-181 | a record with a name tag in range is read from just after the name |
| GrdReader.ReadNamedGradient | palette-js/load_gradients.js:181-425 | the gradient read after the name is that of `NamedGradient` |
| GrdReader.GradientsFromStep | palette-js/load_gradients.js:167-427 | a record that throws ends the loop with that exception; otherwise the loop goes on with the gradient, if any, appended |
| GrdReader.ReadRecord | palette-js/load_gradients.js:167-427 | one turn of the record loop advances `GradientsFrom` by one record |
| GrdReader.ReadGradients | palette-js/load_gradients.js:165-427 | the record loop gives the gradients of `GradientsFrom`, or the first exception |
| GrdReader.ParseGrd | palette-js/load_gradients.js:121-453 | the parse gives `LoadGrd`: the header error, the exception, or the file's gradients and group summary |
| GrdGroups.GroupName | palette-js/load_gradients.js:433 | a gradient is counted under a non-empty name: its group when that is non-empty, otherwise "(Ungrouped)" |
| GrdGroups.Carrying | palette-js/load_gradients.js:432-439 | no group carries more gradients than there are |
| GrdGroups.Names | palette-js/load_gradients.js:441-443 | the summary's names, one per entry, in order |
| GrdGroups.TallyNames | palette-js/load_gradients.js:434-437 | counting a gradient lists its group last when it was not yet listed, and otherwise leaves the names as they were |
| GrdGroups.TallyListed | palette-js/load_gradients.js:438 | counting a gradient in g adds one to g's count and changes no other count |
| GrdGroups.TallyPositive | palette-js/load_gradients.js:434-438 | every listed group keeps a count of at least one |
| GrdGroups.TallyCounts | palette-js/load_gradients.js:432-439 | one more gradient keeps the names distinct and the counts positive, adds one to its group's count only, and lists a new group last |
| GrdGroups.ListedMeansNamed | palette-js/load_gradients.js:441-443 | a group has a non-zero count exactly when it is listed |
| GrdGroups.SummaryCounts | palette-js/load_gradients.js:429-445 | the summary names each group once, and its count for every name is the number of gradients carrying that name |
| GrdGroups.SummaryNames | palette-js/load_gradients.js:429-445 | a name is listed in the summary exactly when some gradient carries it |
| GrdGroups.CarryingMeansSome | palette-js/load_gradients.js:432-439 | a name carries gradients exactly when some gradient is counted under it |
| GrdGroups.SummaryGrowsAtEnd | palette-js/load_gradients.js:432-437 | groups are listed in the order the gradients first show them: more gradients only add names at the end |
| GrdGroups.Zip | palette-js/load_gradients.js:441-443 | the summary has one entry per group seen |
| GrdGroups.ZipTallyListed | palette-js/load_gradients.js:438 | incrementing a seen group's count in the map is one more gradient in the summary |
| GrdGroups.ZipTallyNew | palette-js/load_gradients.js:434-438 | recording a group not yet seen, with count 1, is one more gradient in the summary |
| GrdGroups.CountTurn | palette-js/load_gradients.js:432-439 | one turn of the counting loop keeps the seen list and the map in step and is one more gradient in the summary |
| GrdGroups.KeysTurn | palette-js/load_gradients.js:434-437 | the map holds exactly the seen names after every turn |
| GrdGroups.SummarySnoc | palette-js/load_gradients.js:432-439 | the summary of one more gradient is the summary before it with that gradient counted |
| GrdGroups.CountGroup | palette-js/load_gradients.js:433-438 | one turn of the loop, with a map for the counts, counts the gradient in the summary |
| GrdGroups.ListGroups | palette-js/load_gradients.js:441-443 | the listing loop gives each seen name with its count, in order |
| GrdGroups.SummariseGroups | palette-js/load_gradients.js:429-445 | the two loops give the summary: each group once, in first-seen order, with its number of gradients |
| GrdGroups.CountAll | palette-js/load_gradients.js:430-439 | as written, with a plain object for the counts, every seen name holds a number |
| GrdGroups.InheritedNameDropped | palette-js/load_gradients.js:434-438 | as written, a single gradient in a group named "toString" is left out of the summary, which should list it once |
| GrdGroups.InheritedNameUndercounted | palette-js/load_gradients.js:434-438 | as written, a "toString" group that comes up twice is listed with count 1 instead of 2 |
| GrdGroups.ProtoNeverSeen | palette-js/load_gradients.js:432-439 | as written, "__proto__" never holds a number or NaN and is never pushed to `seenGroups`, since storing a number under it is ignored |
| GrdGroups.ProtoNeverListed | palette-js/load_gradients.js:432-442 | as written, a group named "__proto__" is missing from the summary whatever the gradients |
| GrdGroups.ZipNames | palette-js/load_gradients.js:440-442 | the summary lists the seen groups in the order they were seen |
| GrdGroups.CountStepPlain | palette-js/load_gradients.js:433-438 | for a name that an object does not inherit, one turn as written is one turn of the intended loop |
| GrdGroups.AgreesStep | palette-js/load_gradients.js:433-438 | one turn as written on a name not inherited keeps the counter plain and counts the gradient in the summary |
| GrdGroups.AsWrittenAgrees | palette-js/load_gradients.js:429-445 | when no group name is one an object inherits, the summary as written is the intended summary |
| GrdHierarchy.SearchStart | palette-js/load_gradients.js:602 | the search starts at or after 0 and no earlier than 100000 bytes before the end |
| GrdHierarchy.MarkerMatches | palette-js/load_gradients.js:604-607 | the byte comparison succeeds exactly when "hierarchy" starts at i |
| GrdHierarchy.FindHierarchy | palette-js/load_gradients.js:601-616 | the search loop finds the list start of `HierarchyPos`: just after the first "hierarchy" in the window, when `VlLs` follows it there |
| GrdHierarchy.FirstMarkerIsFirst | palette-js/load_gradients.js:603-615 | the marker found lies in the range, and no earlier position in the range holds one; none is found exactly when the range holds none |
| GrdHierarchy.HierarchyPosFirst | palette-js/load_gradients.js:598-621 | a hierarchy is found only at the first "hierarchy" of the window, followed by `VlLs`; a window without the marker gives no hierarchy |
| GrdHierarchy.ObjcPositions | palette-js/load_gradients.js:627-636 | the scan collects the `Objc` positions of `ObjcList` |
| GrdHierarchy.ObjcListExact | palette-js/load_gradients.js:627-636 | the positions collected increase strictly, each lies in the range and holds `Objc` with a name length under 200, and every such position in the range is collected |
| GrdHierarchy.ByteUnits | palette-js/load_gradients.js:653-655 | one code unit per byte of the key |
| GrdHierarchy.ByteUnitsSnoc | palette-js/load_gradients.js:653-655 | appending one byte appends its code unit |
| GrdHierarchy.NonZeroUnits | palette-js/load_gradients.js:680-684 | the text read has at most n units and none of them is 0: zero units are skipped |
| GrdHierarchy.FieldAt | palette-js/load_gradients.js:666-689 | a `TEXT` field is read forward: the position after it lies past where it started |
| GrdHierarchy.ReadKeyUnits | palette-js/load_gradients.js:653-655 | the key loop turns each byte into one code unit |
| GrdHierarchy.ReadKey | palette-js/load_gradients.js:650-657 | the key read, with 0 meaning 4 bytes and trimmed, and the position after it, are those of `KeyAt` |
| GrdHierarchy.ReadText | palette-js/load_gradients.js:678-685 | the text loop gives `TextAt`, or the RangeError of a read past the buffer |
| GrdHierarchy.ReadField | palette-js/load_gradients.js:666-689 | one field is read as `FieldAt`: a keyed text, another type, or the exception |
| GrdHierarchy.ReadGroupName | palette-js/load_gradients.js:661-690 | the field loop gives the name of the last `Nm` text field before the first field of another type |
| GrdHierarchy.ReadEntry | palette-js/load_gradients.js:643-657 | one descriptor is read as `EntryAt` |
| GrdHierarchy.ReadClass | palette-js/load_gradients.js:659-701 | the class id decides the entry: a group start with its name, a group end, a preset or nothing |
| GrdHierarchy.RunSnoc | palette-js/load_gradients.js:642-702 | running one more entry is one more step of the stack machine |
| GrdHierarchy.MapCountsPresets | palette-js/load_gradients.js:696-700 | the group map has one slot per preset entry |
| GrdHierarchy.GroupsComeFromDescriptors | palette-js/load_gradients.js:691-699 | every name on the stack and every non-empty name in the map is the name of some group descriptor |
| GrdHierarchy.MapOnlyGrows | palette-js/load_gradients.js:696-700 | later entries never change the slots already filled |
| GrdHierarchy.GroupOpenClose | palette-js/load_gradients.js:691-694 | a group opened and closed at once leaves the machine as it was |
| GrdHierarchy.PresetInOpenedGroup | palette-js/load_gradients.js:691-699 | a preset just after a group start is mapped to that group's name |
| GrdHierarchy.OutsideGroups | palette-js/load_gradients.js:693-699 | outside any group a group end changes nothing and a preset is mapped to the empty name |
| GrdHierarchy.Apply | palette-js/load_gradients.js:659-701 | one entry changes the stack, the map and the preset count as one step of the machine, the count staying the map's length |
| GrdHierarchy.EntriesNext | palette-js/load_gradients.js:642-702 | reading one more descriptor appends its entry, or ends with its exception |
| GrdHierarchy.EntriesErrPersists | palette-js/load_gradients.js:642-702 | once a descriptor throws, the whole parse ends with that exception |
| GrdHierarchy.RunDescriptors | palette-js/load_gradients.js:639-705 | the descriptor loop gives the group map of `GroupsAt`, or the first exception |
| GrdHierarchy.ParseHierarchy | palette-js/load_gradients.js:595-706 | the whole function gives `Hierarchy`: no map when there is no marker, else the map of the descriptors found after it |
| Colour.Clamp01 | palette-js/load_gradients.js:585-591 | the result lies in [0, 1]; a value already there is kept, one below is 0 and one above is 1 |
| Colour.HsvToRgb | palette-js/load_gradients.js:750-775 | every hue from 0 up gives a colour; a hue just below 0 (from -1/6) matches no case of the switch and gives none |
| Colour.SectorColour | palette-js/load_gradients.js:760-768 | a colour exactly for the six sectors 0 to 5 |
| Colour.SectorTerms | palette-js/load_gradients.js:756-758 | for saturation and value in [0, 1] and a fraction in [0, 1), p ≤ q ≤ v and p ≤ t ≤ v, all non-negative |
| Colour.SectorColourBounds | palette-js/load_gradients.js:760-768 | in every sector each channel lies between v·(1-s) and v, some channel is v and some is v·(1-s) |
| Colour.HsvSector | palette-js/load_gradients.js:754-760 | for a hue from 0 up the sector `i % 6` is in 0..5 and the fraction in [0, 1), and the colour is that sector's |
| Colour.HsvToRgbChannels | palette-js/load_gradients.js:750-775 | for hue ≥ 0 and s, v in [0, 1] every channel is in [0, 1] and between v·(1-s) and v, with the largest channel v and the smallest v·(1-s) |
| Colour.HsvToRgbGrey | palette-js/load_gradients.js:756-768 | zero saturation gives the grey of value v at every hue |
| Colour.HsvToRgbVectors | palette-js/load_gradients.js:750-775 | black, pure red at hue 0 and the same red at hue 1 |
| Colour.HsvToRgbWrapped | palette-js/load_gradients.js:750-775 | the corrected conversion agrees with the one as written at every hue from 0 up |
| Colour.HsvToRgbWrappedTurn | palette-js/load_gradients.js:750-775 | the corrected conversion is periodic in the hue with period 1 and keeps channels in [0, 1] |
| Colour.NegativeHueUndefined | palette-js/load_gradients.js:754-768 | hue -1/12 gives no colour as written; the corrected conversion gives the colour of hue 11/12 |
| Colour.CmykToRgb | palette-js/load_gradients.js:782-793 | every channel is in [0, 1], and full black ink gives black |
| Colour.CmykToRgbUnclamped | palette-js/load_gradients.js:784-791 | for inks in [0, 1] the clamp changes nothing: each channel is (1 - ink)·(1 - k); no ink gives white |
| FileNames.LowerUnit | palette-js/load_gradients.js:59 | ASCII capitals become small letters, every other unit is kept, and only '.' maps to '.' |
| FileNames.Lower | palette-js/load_gradients.js:59 | lower-casing maps each unit, keeping the length |
| FileNames.FileExtension | palette-js/load_gradients.js:53-60 | a name without '.' has no extension; an extension holds no '.' and is shorter than the name |
| FileNames.FileNameWithoutExtension | palette-js/load_gradients.js:62-65 | the base name is a prefix of the name, and the whole name exactly when it holds no '.' |
| FileNames.SplitAtLastDot | palette-js/load_gradients.js:53-65 | a name with a '.' is its base name, '.', and the text after its last '.', whose lower-case form is the extension |
| FileNames.JoinThenSplit | palette-js/load_gradients.js:53-65 | joining a base and an extension without '.' and splitting again gives back the base and the lower-cased extension |
| CssSplit.Segments | palette-js/load_gradients.js:1031-1044 | one segment more than there are commas outside parentheses |
| CssSplit.TrimAll | palette-js/load_gradients.js:1039 | each part is its segment trimmed |
| CssSplit.SegmentsJoin | palette-js/load_gradients.js:1031-1044 | joining the segments with commas gives back the input: nothing is lost or added |
| CssSplit.StopTextsCount | palette-js/load_gradients.js:1038-1045 | one part per top-level comma, plus one when the text after the last comma is not blank |
| CssSplit.StopTextsTrimmed | palette-js/load_gradients.js:1039-1045 | every part is trimmed: trimming it again changes nothing and it does not start with white space |
| CssSplit.TrimmedSource | palette-js/load_gradients.js:1039-1045 | every part is some text trimmed |
| CssSplit.TrimIdempotent | palette-js/load_gradients.js:1039 | trimming twice is trimming once |
| CssSplit.SegmentsStep | palette-js/load_gradients.js:1035-1043 | one more character moves the depth with the parentheses, and either starts a new segment (a comma at depth 0) or extends the current one |
| CssSplit.SplitTopLevel | palette-js/load_gradients.js:1031-1045 | the splitting loop gives the trimmed top-level parts of the stop list |
| Js.Round | palette-js/write_svg.js:31-33 | `Math.round`: the nearest integer, halves rounded up |
| Js.TruncRem | palette-js/load_gradients.js:760 | JavaScript's `%`: the remainder takes the sign of the dividend |
| Js.Digits | palette-js/load_gradients.js:181 | a non-empty run of decimal digits without a leading zero |
| Js.DecimalString | palette-js/load_gradients.js:181 | an integer's text is non-empty and starts with '-' exactly when it is negative |
| Js.DigitsRoundTrip | palette-js/load_gradients.js:181 | reading the digits back gives the number |
| Js.DecimalStringInjective | palette-js/load_gradients.js:181 | different integers have different texts, so the fallback names of different gradients differ |
| Js.Trim | palette-js/load_gradients.js:656 | trimming never lengthens a text |
| Js.SkipSpaceFromSpec | palette-js/load_gradients.js:656 | the units skipped from the front are white space, and the first kept one is not |
| Js.SkipSpaceBackSpec | palette-js/load_gradients.js:656 | the units skipped from the back are white space, and the last kept one is not |
| Js.TrimKeepsMiddle | palette-js/load_gradients.js:656 | trimming removes only leading and trailing white space and keeps the middle as it is, with no white space at either end |
| Js.LastIndexOf | palette-js/load_gradients.js:54 | the index found holds the unit and no later one does; -1 when the unit is absent |
| Bytes.U16BE | palette-js/load_gradients.js:137 | a big-endian 16-bit read is below 2^16 |
| Bytes.U32BE | palette-js/load_gradients.js:129 | a big-endian 32-bit read is below 2^32 |
| Bytes.U32LE | palette-js/write_afpalette.js:35 | a little-endian 32-bit read is below 2^32 |
| Bytes.Low8 | palette-js/write_grd.js:20 | `v & 0xFF`: the byte agrees with v modulo 256 |
| Bytes.BE16 | palette-js/write_grd.js:21 | two bytes that read back, big-endian, as v modulo 2^16 |
| Bytes.BE32 | palette-js/write_grd.js:22-28 | four bytes that read back, big-endian, as `v >>> 0` |
| Bytes.LE32 | palette-js/write_afpalette.js:35 | four bytes that read back, little-endian, as v modulo 2^32 |
| Bytes.LE64Words | palette-js/write_afpalette.js:35 | the eight bytes of a 64-bit little-endian integer read back as its low and high 32-bit words |
| Bytes.TagBytes | palette-js/write_grd.js:29 | a tag is four bytes |
| GrdWriter.F64 | palette-js/write_grd.js:30-35 | a double is written as eight bytes |
| GrdWriter.Zeros | palette-js/write_grd.js:41 | n zero bytes |
| GrdWriter.UnitsBE | palette-js/write_grd.js:38 | two bytes per code unit, each pair reading back big-endian as that unit |
| GrdWriter.UnicodeStrBytes | palette-js/write_grd.js:36-40 | a counted string takes 4 bytes of count and 2 per unit plus 2 for the terminator |
| GrdWriter.UnicodeStrLayout | palette-js/write_grd.js:36-40 | the count reads back as the length plus one, each unit reads back in place, and a zero unit ends the string |
| GrdWriter.DoubleField | palette-js/write_grd.js:68-70 | a keyed double field is 16 bytes |
| GrdWriter.LongField | palette-js/write_grd.js:71-74 | a keyed long field is 12 bytes |
| GrdWriter.ListHead | palette-js/write_grd.js:60-62 | a list head is 12 bytes |
| GrdWriter.StopHead | palette-js/write_grd.js:65-67 | a colour stop head is 34 bytes |
| GrdWriter.Channels | palette-js/write_grd.js:68-70 | the three channel fields are 48 bytes |
| GrdWriter.StopValues | palette-js/write_grd.js:68-74 | the value fields of a colour stop are 72 bytes |
| GrdWriter.StopBytes | palette-js/write_grd.js:65-74 | a colour stop is 106 bytes |
| GrdWriter.TrnsHead | palette-js/write_grd.js:106-107 | a transparency stop head is 16 bytes |
| GrdWriter.TrnsValues | palette-js/write_grd.js:108-111 | the value fields of a transparency stop are 32 bytes |
| GrdWriter.TrnsStopBytes | palette-js/write_grd.js:106-111 | a transparency stop is 48 bytes |
| GrdWriter.StopsBytes | palette-js/write_grd.js:64-75 | the colour stops take 106 bytes each |
| GrdWriter.TrnsStopsBytes | palette-js/write_grd.js:105-112 | the transparency stops take 48 bytes each |
| GrdWriter.FirstSeen | palette-js/write_grd.js:81-91 | at most one stop per colour stop, and at least one when there are colour stops |
| GrdWriter.ToTrnsStops | palette-js/write_grd.js:85-89 | one transparency stop per colour stop, with its position, alpha and midpoint |
| GrdWriter.FirstSeenKeys | palette-js/write_grd.js:81-91 | the stops kept cover exactly the position keys of the colour stops, no two share a key, and each is one of the colour stops |
| GrdWriter.ToTrnsStopsKeys | palette-js/write_grd.js:85-89 | converting stops keeps their position keys |
| GrdWriter.TransparencyStopsCover | palette-js/write_grd.js:79-99 | for a non-empty colour track the transparency stops number between 1 and the colour stops, cover every position key once, and no two share a key |
| GrdWriter.NameBlock | palette-js/write_grd.js:54-57 | the record start and the name take 18 bytes plus 2 per unit of the name |
| GrdWriter.GradientsBytesSnoc | palette-js/write_grd.js:49-113 | the gradient loop appends one gradient block per palette, in order |
| GrdWriter.HeaderBytes | palette-js/write_grd.js:44-46 | the header is '8BGR', version 5 and descriptor marker 16 |
| GrdWriter.GradientBlockLength | palette-js/write_grd.js:53-112 | a gradient takes 42 bytes plus 2 per unit of its name, 106 per colour stop and 48 per transparency stop |
| GrdWriter.StreamLength | palette-js/write_grd.js:43-113 | the bytes written number exactly `ExactSize` |
| GrdWriter.Truncated | palette-js/write_grd.js:16-20 | a fixed-size array keeps the prefix of the writes that fits, and all of them when they fit |
| GrdWriter.ByteWriter.constructor | palette-js/write_grd.js:16-17 | a new buffer of the given size with nothing written |
| GrdWriter.ByteWriter.Put | palette-js/write_grd.js:20 | one byte, v modulo 256, is appended to what was written |
| GrdWriter.ByteWriter.W16 | palette-js/write_grd.js:21 | the two big-endian bytes of v are appended |
| GrdWriter.ByteWriter.W32 | palette-js/write_grd.js:22-28 | the four big-endian bytes of `v >>> 0` are appended |
| GrdWriter.ByteWriter.WTag | palette-js/write_grd.js:29 | the four bytes of the tag are appended |
| GrdWriter.ByteWriter.WZeros | palette-js/write_grd.js:41 | n zero bytes are appended |
| GrdWriter.ByteWriter.WF64 | palette-js/write_grd.js:30-35 | the eight big-endian bytes of the double are appended |
| GrdWriter.ByteWriter.WUnicodeStr | palette-js/write_grd.js:36-40 | the count, the units and the zero terminator are appended |
| GrdWriter.ByteWriter.WDouble | palette-js/write_grd.js:68-70 | a keyed `doub` field is appended |
| GrdWriter.ByteWriter.WLong | palette-js/write_grd.js:71-74 | a keyed `long` field is appended |
| GrdWriter.ByteWriter.WListHead | palette-js/write_grd.js:60-62 | a `VlLs` list head with its count is appended |
| GrdWriter.ByteWriter.Output | palette-js/write_grd.js:115 | the result is the part of what was written that fits in the buffer |
| GrdWriter.FirstSeenStep | palette-js/write_grd.js:81-91 | one more colour stop adds its key to the keys seen, and adds its transparency stop exactly when the key is new |
| GrdWriter.KeepIfNew | palette-js/write_grd.js:82-90 | one turn of the loop keeps the seen keys and the stops equal to the first-seen stops so far |
| GrdWriter.TransparencyStops | palette-js/write_grd.js:79-99 | the loop and the fallback give `TransparencySpec`: the first stop per position key, or 0 and 1 opaque when there are no colour stops |
| GrdWriter.EmitStop | palette-js/write_grd.js:65-74 | one colour stop's bytes are appended |
| GrdWriter.EmitChannels | palette-js/write_grd.js:68-70 | the three channel fields, each scaled by 255, are appended |
| GrdWriter.EmitTrnsStop | palette-js/write_grd.js:106-111 | one transparency stop's bytes are appended |
| GrdWriter.TrnsStopFields | palette-js/write_grd.js:106-111 | a transparency stop is `TrnS`, the opacity as a percentage, and location and midpoint scaled by 4096 and 100 and rounded |
| GrdWriter.EmitName | palette-js/write_grd.js:54-57 | the record tag and the name are appended |
| GrdWriter.EmitColourList | palette-js/write_grd.js:60-75 | the colour list head and every colour stop are appended |
| GrdWriter.EmitTrnsList | palette-js/write_grd.js:101-112 | the transparency list head and every transparency stop are appended |
| GrdWriter.EmitGradient | palette-js/write_grd.js:50-112 | one gradient's block is appended |
| GrdWriter.EmitGradients | palette-js/write_grd.js:49-113 | every gradient's block is appended, in order |
| GrdWriter.EmitGrd | palette-js/write_grd.js:16-115 | a buffer of the given size ends up holding the prefix of the whole stream that fits |
| GrdWriter.BuildGrdBuffer | palette-js/write_grd.js:6-116 | as written, the output is the stream cut to the estimated size, and the whole stream whenever the estimate is large enough |
| GrdWriter.BuildGrdBufferExact | palette-js/write_grd.js:6-116 | with an exact buffer size the output is the whole stream, starting with the header |
| GrdWriter.FirstSeenDistinct | palette-js/write_grd.js:81-91 | when the colour stops' keys are all different every colour stop gets a transparency stop |
| GrdWriter.PairwiseDistinctKeys | palette-js/write_grd.js:81-91 | keys that differ pairwise are distinct in the recursive sense used by the proof |
| GrdWriter.LastKeyNew | palette-js/write_grd.js:81-91 | with pairwise different keys the last stop's key was not seen before it |
| GrdWriter.EstimateFallsShort | palette-js/write_grd.js:7-16 | a gradient with 8 or more stops at different positions needs more bytes than the estimate, so the output as written is cut short |
| GrdWriter.ExactSizeIsTight | palette-js/write_grd.js:16-115 | the stream survives whole exactly when the buffer holds at least `ExactSize` bytes |
| GrdRoundTrip.HeaderAccepted | palette-js/write_grd.js:44-46 | any output starting with the header the writer emits passes the reader's header checks |
| GrdRoundTrip.WrittenFileHeaderAccepted | palette-js/write_grd.js:6-116 | the file the writer builds, cut to its estimated size, still passes the reader's header checks |
| GrdRoundTrip.UnitsReadBack | palette-js/write_grd.js:36-40 | the reader's unit loop reads back the units the writer wrote, stopping at the terminator |
| GrdRoundTrip.UnicodeStrReadBack | palette-js/write_grd.js:36-40 | a counted string the writer emits reads back as the same string, ending just after its terminator |
| GrdRoundTrip.CountReadBack | palette-js/write_grd.js:37 | the count the writer emits reads back as the length plus one |
| GrdRoundTrip.UnitsWithin | palette-js/write_grd.js:38-39 | each unit the writer emits reads back in place inside the buffer, followed by a zero unit |
| GrdRoundTrip.NameBlockReadBack | palette-js/write_grd.js:54-57 | in a name block the writer emits, the reader finds `Nm  ` at once and reads back the name |
| GrdRoundTrip.GradientNameReadBack | palette-js/write_grd.js:54-57 | a gradient the reader keeps from a written record carries the non-empty name that was written |
| GrdRoundTrip.StopTailReadBack | palette-js/write_grd.js:71-74 | a location and a midpoint in [0, 1], written as round(x·4096) and round(x·100) and read back divided by 4096 and 100, come back within 1/8192 and 1/200 |
| GrdRoundTrip.StopTagsRead | palette-js/write_grd.js:65-67 | the bytes written for `Clrt` and `RGBC` read back as the tags the reader looks for |
| GrdRoundTrip.StopFormatReadBack | palette-js/write_grd.js:65-67 | in a colour stop the writer emits, the reader finds `Clrt` at once, and its blind 26-byte skip lands on the `RGBC` format tag |
| Crc32.Slot | palette-js/write_afpalette.js:101 | the table index is a byte |
| Crc32.CrcTable | palette-js/write_afpalette.js:81-95 | the table has 256 entries |
| Crc32.BuildCrcTable | palette-js/write_afpalette.js:81-95 | the nested loops fill entry i with i after eight steps of the reflected register with polynomial 0xEDB88320 |
| Crc32.RegisterStep | palette-js/write_afpalette.js:101 | one more byte is one table lookup and shift of the register |
| Crc32.RegisterComplete | palette-js/write_afpalette.js:98-103 | the register over the window, complemented, is the CRC-32 of section 8 of RFC 1952 |
| Crc32.CheckValue | palette-js/write_afpalette.js:81-104 | the CRC of the ASCII digits "123456789" is 0xCBF43926, the standard check value of CRC-32 |
| Crc32.CheckEntries | palette-js/write_afpalette.js:81-95 | the table entries the check value uses hold the standard CRC-32 table values |
| Crc32.FeedByte | palette-js/write_afpalette.js:101 | one turn of the loop feeds one more byte of the window into the register |
| Crc32.ComputeCrc32 | palette-js/write_afpalette.js:97-104 | the result is the CRC-32 of the `length` bytes from `offset` |
| AfPalette.F32 | palette-js/write_afpalette.js:43-48 | a float is written as four bytes |
| AfPalette.F64 | palette-js/write_afpalette.js:50-55 | a double is written as eight bytes |
| AfPalette.HexValue | palette-js/write_afpalette.js:77 | a hex digit's value is below 16 |
| AfPalette.HexPairs | palette-js/write_afpalette.js:77 | one byte per pair of digits, the first digit the high nibble |
| AfPalette.HexToBytes | palette-js/write_afpalette.js:76-78 | one byte per pair of digits of a non-empty hex constant |
| AfPalette.HexDigit | palette-js/write_afpalette.js:77 | a value below 16 has a digit that reads back as it |
| AfPalette.HexString | palette-js/write_afpalette.js:76-78 | the hex text of some bytes has two digits per byte |
| AfPalette.HexPairsOfString | palette-js/write_afpalette.js:76-78 | reading the hex text of some bytes gives them back |
| AfPalette.HexRoundTrip | palette-js/write_afpalette.js:76-78 | `hexToBytes` inverts writing bytes as hex |
| AfPalette.StringToBytes | palette-js/write_afpalette.js:57-74 | a string takes four bytes of length plus its UTF-8 bytes |
| AfPalette.StringToBytesReads | palette-js/write_afpalette.js:57-74 | the length prefix reads back, little-endian, as the UTF-8 length, and the UTF-8 bytes follow it |
| AfPalette.HeaderStart | palette-js/write_afpalette.js:143-146 | the header opens with four chunks |
| AfPalette.HeaderSizes | palette-js/write_afpalette.js:148-157 | the four 64-bit size chunks |
| AfPalette.HeaderMiddle | palette-js/write_afpalette.js:158-168 | the eleven chunks between the sizes and the name |
| AfPalette.HeaderName | palette-js/write_afpalette.js:171-175 | the name, the `PalV` chunk and the gradient count |
| AfPalette.HeaderChunks | palette-js/write_afpalette.js:143-175 | the header is 22 chunks |
| AfPalette.FillHead | palette-js/write_afpalette.js:183-206 | the first gradient's fill head is 9 chunks, each later one 8 |
| AfPalette.Floats64 | palette-js/write_afpalette.js:212-220 | one chunk per double |
| AfPalette.PositionEntry | palette-js/write_afpalette.js:212-220 | each position entry is two chunks |
| AfPalette.PositionEntries | palette-js/write_afpalette.js:211-221 | two chunks per colour stop |
| AfPalette.Floats32 | palette-js/write_afpalette.js:250-253 | one chunk per float |
| AfPalette.Floats64Two | palette-js/write_afpalette.js:212-220 | the two doubles of a position entry are the position and the midpoint encoded |
| AfPalette.Floats32Four | palette-js/write_afpalette.js:250-253 | the four floats of a colour are its channels encoded |
| AfPalette.ColourEntry | palette-js/write_afpalette.js:228-261 | a colour entry has 9 chunks, one more when verbose and one more (the trailing 0) unless it is the last colour |
| AfPalette.ColourEntriesStep | palette-js/write_afpalette.js:228-261 | the colour loop appends one entry per colour, only the file's first one verbose, with consecutive ids |
| AfPalette.GradientsChunksStep | palette-js/write_afpalette.js:181-264 | the gradient loop appends one gradient's chunks per palette, with the first flags and ids carried over |
| AfPalette.NameStrings | palette-js/write_afpalette.js:274-278 | one encoded name per palette |
| AfPalette.FooterStart | palette-js/write_afpalette.js:293-297 | the footer opens with five chunks |
| AfPalette.FooterSizes | palette-js/write_afpalette.js:299-303 | the file size and body size chunks |
| AfPalette.FooterMiddle | palette-js/write_afpalette.js:305-313 | nine 32-bit chunks |
| AfPalette.FooterBodySizes | palette-js/write_afpalette.js:315-319 | two more body size chunks |
| AfPalette.FooterEnd | palette-js/write_afpalette.js:324-330 | the checksum slots, the gap between them and the store name |
| AfPalette.FooterChunks | palette-js/write_afpalette.js:293-330 | the footer is 23 chunks |
| AfPalette.HeaderFlat | palette-js/write_afpalette.js:143-175 | the header's bytes are its four parts in order |
| AfPalette.HeaderPieces | palette-js/write_afpalette.js:143-175 | the header is the magic, version 11, `Swth`, `#Inf`, then the three sizes and a zero, 49 fixed bytes, and the name part |
| AfPalette.HeaderLayout | palette-js/write_afpalette.js:143-175 | the header is 106 bytes plus the name, with magic and version at 0 and the three sizes at 16, 24 and 32 |
| AfPalette.FooterFlat | palette-js/write_afpalette.js:293-330 | the footer's bytes are its five parts in order |
| AfPalette.FooterPieces | palette-js/write_afpalette.js:293-330 | the footer's parts hold `#FT4`, the sizes, 36 fixed bytes, the body sizes and the checksum slots and store name |
| AfPalette.FooterLayout | palette-js/write_afpalette.js:293-330 | the footer is 115 bytes with the sizes at 20, 28, 72 and 80, zero checksum slots at 88 and 97 and "Swatches.dat" at 103 |
| AfPalette.ChunksLayout | palette-js/write_afpalette.js:143-330 | the file is header, body and footer, 221 bytes plus the name and the body |
| AfPalette.HeaderChunksAt | palette-js/write_afpalette.js:148-155 | only chunks 4, 5 and 6 of the header depend on the sizes |
| AfPalette.FooterChunksAt | palette-js/write_afpalette.js:299-319 | only footer chunks 5, 6, 16 and 17 depend on the sizes |
| AfPalette.SizesPatched | palette-js/write_afpalette.js:334-353 | back-patching the recorded indices puts the body size, the size less the footer and the file size there, and changes no other chunk |
| AfPalette.FileSizeFixed | palette-js/write_afpalette.js:334-341 | the file size does not depend on the size values patched in, and covers header, footer, name and body |
| AfPalette.StoreAt | palette-js/write_afpalette.js:373-381 | storing bytes at an offset changes those bytes only |
| AfPalette.WithChecksum | palette-js/write_afpalette.js:370-381 | storing the checksum keeps the length |
| AfPalette.Merged | palette-js/write_afpalette.js:355-362 | the merged buffer has the file size, at least header, footer, name and fixed body |
| AfPalette.Checksummed | palette-js/write_afpalette.js:364-381 | the checksum store keeps the length |
| AfPalette.AfFile | palette-js/write_afpalette.js:106-384 | the file has the computed file size |
| AfPalette.WithChecksumBytes | palette-js/write_afpalette.js:370-381 | the checksum goes to footer bytes 88 and 97, and every other byte is kept |
| AfPalette.MergedLayout | palette-js/write_afpalette.js:355-362 | the merged buffer starts with the patched header and ends with the patched footer |
| AfPalette.KeepsHeader | palette-js/write_afpalette.js:373-381 | storing the checksum keeps the header's magic, version and sizes |
| AfPalette.KeepsFooter | palette-js/write_afpalette.js:373-381 | storing the checksum keeps the footer's tag, sizes and store name |
| AfPalette.KeepsWindow | palette-js/write_afpalette.js:373-381 | storing the checksum keeps every byte before the first slot, so the checksummed window is unchanged |
| AfPalette.WindowCrc | palette-js/write_afpalette.js:364-367 | the CRC computed before the store is the CRC of the same window after it |
| AfPalette.ChecksumSlot | palette-js/write_afpalette.js:364-376 | the first slot holds, little-endian, the CRC-32 of the body window from offset 76 up to 4 bytes before the footer |
| AfPalette.ChecksumSlots | palette-js/write_afpalette.js:364-381 | the window is `bodySize` bytes from offset 76, and both slots hold the CRC-32 of that window in the final file |
| AfPalette.MergedHeaderFields | palette-js/write_afpalette.js:334-362 | the merged header holds the magic, version 11, the size less the footer, the file size and the body size |
| AfPalette.MergedFooterFields | palette-js/write_afpalette.js:334-362 | the merged footer holds `#FT4`, the file size, the body size three times and the store name |
| AfPalette.MergedSlotsZero | palette-js/write_afpalette.js:324-328 | the checksum slots are zero before the store |
| AfPalette.AfHeaderFields | palette-js/write_afpalette.js:106-384 | the final file's header holds the magic, version 11 and its own size figures |
| AfPalette.AfFooterFields | palette-js/write_afpalette.js:106-384 | the final file's footer holds `#FT4`, its own size figures and the store name |
| AfPalette.AfOnlySlotsChange | palette-js/write_afpalette.js:364-381 | the final file differs from the merged buffer only in the two checksum slots, which were zero |
| AfPaletteBuild.EncodeString | palette-js/write_afpalette.js:57-74 | the copy loops give the length prefix followed by the UTF-8 bytes |
| AfPaletteBuild.PushPositions | palette-js/write_afpalette.js:211-221 | the position loop appends each stop's position and the next stop's midpoint, 0.5 for the last |
| AfPaletteBuild.PushColour | palette-js/write_afpalette.js:230-258 | one colour's chunks are appended |
| AfPaletteBuild.PushColours | palette-js/write_afpalette.js:228-261 | the colour loop appends every colour entry, clears the first-colour flag once a colour is written, and hands out one id per colour |
| AfPaletteBuild.ColoursStep | palette-js/write_afpalette.js:228-261 | one turn of the colour loop appends the next entry |
| AfPaletteBuild.PushFillHead | palette-js/write_afpalette.js:183-206 | the fill head for the first or a later gradient is appended, using two ids |
| AfPaletteBuild.PushGradient | palette-js/write_afpalette.js:183-263 | one gradient's chunks are appended, using two ids plus one per colour |
| AfPaletteBuild.PushGradients | palette-js/write_afpalette.js:181-264 | the gradient loop appends every gradient's chunks |
| AfPaletteBuild.GradientTurn | palette-js/write_afpalette.js:181-264 | one turn of the gradient loop keeps the loop's state in step with the chunks pushed |
| AfPaletteBuild.GradientsStep | palette-js/write_afpalette.js:181-264 | one more gradient adds its chunks, its colours to the count and its ids to the counter |
| AfPaletteBuild.PushNames | palette-js/write_afpalette.js:267-290 | the names block: marker, `PaNV`, total name size, count, each name and the end marker |
| AfPaletteBuild.PushHeader | palette-js/write_afpalette.js:143-175 | the header chunks are pushed with zero sizes, recording the slots of the file size, the size less the footer and the body size |
| AfPaletteBuild.PushFooter | palette-js/write_afpalette.js:292-330 | the footer chunks are appended and their size slots recorded |
| AfPaletteBuild.BuildChunkList | palette-js/write_afpalette.js:106-330 | the chunk list is that of the palette data with zero sizes, and the recorded slots are where the sizes go |
| AfPaletteBuild.SumLengths | palette-js/write_afpalette.js:334-337 | the file size is the total length of the chunks |
| AfPaletteBuild.Backpatch | palette-js/write_afpalette.js:343-353 | the chunks at the recorded indices are replaced by the value, the others kept |
| AfPaletteBuild.MergeChunks | palette-js/write_afpalette.js:355-362 | the merged array holds the chunks' bytes in order |
| AfPaletteBuild.PrefixLength | palette-js/write_afpalette.js:358-362 | the merge position after chunk i is the length before it plus its length, within the total |
| AfPaletteBuild.StoreChecksum | palette-js/write_afpalette.js:364-381 | the CRC of the body window is stored in both footer slots, in place |
| AfPaletteBuild.ChecksumStores | palette-js/write_afpalette.js:373-381 | the eight byte stores make the checksummed buffer |
| AfPaletteBuild.FillSizes | palette-js/write_afpalette.js:339-353 | each recorded slot gets its size value, every other chunk is kept |
| AfPaletteBuild.FillSizeFields | palette-js/write_afpalette.js:334-353 | the size computed is the file size, and the chunks become those with the sizes filled in |
| AfPaletteBuild.BuildAffinityPaletteBuffer | palette-js/write_afpalette.js:106-384 | the buffer built is the Affinity palette file of the data |
| AfPaletteProps.PositionEntriesAt | palette-js/write_afpalette.js:211-221 | entry j holds stop j's position and stop j+1's midpoint, the last one 0.5: midpoints move down by one |
| AfPaletteProps.GradientCounts | palette-js/write_afpalette.js:208-226 | `Posn` and `Cols` each carry the number of colour stops |
| AfPaletteProps.ColourEntryEnd | palette-js/write_afpalette.js:255-258 | a colour entry ends with a 0 byte exactly when it is not the gradient's last |
| AfPaletteProps.ColourEntryVerbose | palette-js/write_afpalette.js:233-246 | an entry has the uncompressed type and the extra `01000002` exactly when it is verbose |
| AfPaletteProps.ColourCountMonotone | palette-js/write_afpalette.js:181-264 | the number of colours written only grows |
| AfPaletteProps.NoColourBefore | palette-js/write_afpalette.js:233-260 | no colour was written before gradient k exactly when every gradient before it is empty |
| AfPaletteProps.VerboseColourOnce | palette-js/write_afpalette.js:233-260 | only one colour entry of the whole file is verbose |
| AfPaletteProps.GradientIds | palette-js/write_afpalette.js:187-243 | a gradient uses two ids plus one per colour |
| AfPaletteProps.IdsConsecutive | palette-js/write_afpalette.js:179-243 | the ids handed out are 0, 1, 2, … in push order, none skipped or repeated |
| AfPaletteProps.GradientsChunksPrefix | palette-js/write_afpalette.js:181-264 | the chunks of earlier gradients are a prefix of those of later ones |
| AfPaletteProps.GradientAt | palette-js/write_afpalette.js:181-264 | each gradient's chunks appear in the body right after those of the gradients before it |
| AfPaletteProps.NamesSizeIsLength | palette-js/write_afpalette.js:273-281 | the name block size written is the total length of the encoded names |
| Ggr.ChannelFields | palette-js/write_ggr.js:48 | a stop's four channel fields |
| Ggr.SegmentFields | palette-js/write_ggr.js:46-50 | a segment line has 13 fields |
| Ggr.SingleFields | palette-js/write_ggr.js:22-27 | the single default segment has 13 fields |
| Ggr.SegmentLines | palette-js/write_ggr.js:34-53 | one line per segment |
| Ggr.SegmentLine | palette-js/write_ggr.js:46-50 | a segment line is its 13 fields separated by single spaces |
| Ggr.SingleLine | palette-js/write_ggr.js:22-27 | the single segment line is its 13 fields separated by single spaces |
| Ggr.SegmentLinesAt | palette-js/write_ggr.js:34-53 | segment line i pairs stop i with stop i+1 |
| Ggr.GgrLayout | palette-js/write_ggr.js:13-56 | the text is the lines joined by newlines plus a final one: "GIMP Gradient", "Name: " and the name, the segment count, and one line per segment |
| Ggr.SegmentCountReads | palette-js/write_ggr.js:31-32 | the count line is all digits and reads back as the number of segment lines |
| Ggr.GgrSegmentAt | palette-js/write_ggr.js:34-53 | segment line i holds the left position, the absolute midpoint, the right position, both stops' channels, and blend function 0 and colour type 0 |
| Ggr.GgrSingleSegment | palette-js/write_ggr.js:19-28 | with fewer than two stops the only segment repeats the first stop's channels, or those of opaque black at 0, on both sides |
| Ggr.MidPosBetween | palette-js/write_ggr.js:41-43 | the absolute midpoint lies between the two stops' positions |
| Ggr.ReaderMidpoint | palette-js/load_gradients.js:514-517 | the midpoint the GIMP gradient reader recovers lies in [0, 1] |
| Ggr.MidpointRoundTrip | palette-js/write_ggr.js:41-43 | reading a written segment longer than the reader's tolerance gives back the right stop's midpoint, clamped to [0, 1] |
| Ggr.BuildGgrText | palette-js/write_ggr.js:13-56 | the text built is `GgrText`: the lines above, or the exception of a stop without opacity |
| Ggr.PushSegmentLines | palette-js/write_ggr.js:34-53 | the segment loop succeeds exactly when every stop has an opacity, and then appends one line per pair of consecutive stops |
| Svg.ReplaceAllAppend | palette-js/write_svg.js:91 | replacing in a concatenation replaces in each part |
| Svg.ReplaceAllAbsent | palette-js/write_svg.js:91 | replacing a unit that does not occur changes nothing |
| Svg.EscapeOneUnit | palette-js/write_svg.js:90-92 | the four replacements on one unit give that unit's escape |
| Svg.EscapeXmlIsEach | palette-js/write_svg.js:90-92 | the four replacements in sequence escape each unit on its own: '&' is replaced first, so no entity is escaped twice |
| Svg.EscapedIsSafe | palette-js/write_svg.js:90-92 | an escaped text holds no '<', '>' or '"', and every '&' in it opens one of the four entities |
| Svg.UnitEscapeSafe | palette-js/write_svg.js:90-92 | the escape of one unit holds no '<', '>' or '"', and an '&' only at the start of an entity |
| Svg.EscapePlain | palette-js/write_svg.js:90-92 | a text without the four special units is left as it is |
| Svg.SafeId | palette-js/write_svg.js:69 | the id has the name's length, only units of [A-Za-z0-9_-], and keeps every such unit of the name |
| Svg.SafeIdUnescaped | palette-js/write_svg.js:69-70 | escaping a safe id changes nothing |
| Svg.GradientIdsDistinct | palette-js/write_svg.js:26 | two gradients never share a numbered id |
| Svg.StopLines | palette-js/write_svg.js:29-38 | one stop line per colour stop |
| Svg.GradientBlock | palette-js/write_svg.js:27-40 | a gradient block is its opening line, one line per stop and its closing line |
| Svg.PreviewLines | palette-js/write_svg.js:47-51 | two preview lines per gradient |
| Svg.PushGradientBlock | palette-js/write_svg.js:27-40 | the block of one gradient is appended |
| Svg.PushDefs | palette-js/write_svg.js:24-41 | the definitions loop appends each gradient's block in order |
| Svg.PushPreviews | palette-js/write_svg.js:47-51 | the preview loop appends each gradient's label and bar |
| Svg.BuildSvgGradients | palette-js/write_svg.js:10-55 | the text is the document's lines joined by newlines |
| Svg.BuildSvgDefsOnly | palette-js/write_svg.js:60-88 | the text is the definitions-only document's lines joined by newlines |
| Svg.StopLinesAt | palette-js/write_svg.js:29-38 | stop line j is that of colour stop j |
| Svg.GradientBlockShape | palette-js/write_svg.js:27-40 | the block opens with the gradient's id, holds the stops in order and closes |
| Svg.DefsBlocksPrefix | palette-js/write_svg.js:24-41 | the blocks of earlier gradients are a prefix of those of later ones |
| Svg.DefsBlockAt | palette-js/write_svg.js:24-41 | gradient i's block follows those of the gradients before it |
| Svg.PreviewRowAt | palette-js/write_svg.js:47-51 | row i holds the label at y = 64·i + 21 and the bar at y = 64·i + 24 that fills with gradient i |
| Svg.SvgSize | palette-js/write_svg.js:16-21 | the document is 600 wide and 64 per gradient plus 8 high, and ends with the closing tag |

## Left out

- The user interface (`palette_preview.js`) is not modelled: canvas drawing, pagination and download scheduling.
- The I/O glue is not modelled: `FileReader`, `showError`, `saveFile`, `Blob` and the `write*` download wrappers. The reader returns which error it reports, not the message text; an unknown colour format, which the source reports through `showError` before skipping the gradient (load_gradients.js:306-310), gives no gradient without an error, as a missing `Clrt` does.
- `console.log` output is not modelled.
- `writeGgrZip` is not modelled: it is asynchronous and builds the archive with JSZip.
- The other readers are not modelled: the GIMP gradient text parser, the SVG parser (it uses `DOMParser`), the CSS colour parser and the stop parsing after the split. They are regular-expression or DOM driven. Only the midpoint formula of the GIMP reader (`Ggr.ReaderMidpoint`) is modelled, to state the round trip.
- `CssSplit.SplitTopLevel` starts after the angle prefix has been removed. The prefix regular expression (load_gradients.js:1028) is not modelled.
- Host numerics are parameters, not definitions: IEEE 754 float encoding and decoding, `toFixed`, the UTF-8 `TextEncoder`, the Lab to sRGB conversion and `gradientUtils.getColourFromGradient` (which is defined outside these files). Numbers are exact reals, so no floating-point rounding is modelled.
- Colour.Clamp01: the `Number.isFinite` branch (NaN and infinities give 0) is not modelled, because reals are always finite.
- FileNames.Lower: only ASCII letters are lower-cased; the rest of `toLowerCase`'s Unicode case mapping is not modelled.
- Ggr.MidpointRoundTrip: holds in exact arithmetic, without the `toFixed(6)` rounding of the written text.
- GrdStops.ReadHsb / GrdStops.HsbColour: use the corrected conversion `HsvToRgbWrapped` (the hue modulo one turn), the corrected half of the first finding, so a negative hue gives a colour where the source's channels are undefined. `GrdStops.HsbColourAsWritten` proves the result equals `HSVtoRGB` as written for every hue from 0 up.
- GrdReader.LoadGrd / GrdReader.ParseGrd: make the group summary with the corrected `Summary`, the corrected half of the third finding. `GrdReader.LoadGrdKept` proves it equals the as-written count (`GrdGroups.AsWrittenSummary`) whenever no group is named after an inherited property of a plain object.
- GrdRoundTrip: a full parse-after-write round trip is not stated. The doubles the writer emits are arbitrary 8-byte values that can contain a tag the reader scans for. Only the local layout facts are proved: the header, the names, the `Clrt` pad and the stop locations and midpoints.
- AfPalette.HexToBytes: requires a hex string of at least two digits; a trailing odd digit is dropped. Every call passes an even-length constant, so `parseInt`'s handling of malformed pairs is not modelled.
- The hex constants of the Affinity writer are written as byte literals. They are not derived from the source's strings.
- The unused `replaceWithChecksumBuffers` table (write_afpalette.js:322-328) is not modelled. The checksum is stored at the fixed footer offsets, as the source does.
- `hierItemCount` (load_gradients.js:623) is not modelled: it is read but never used, and the read is always inside the buffer.
- Stop positions are always present in the model. An undefined `Alpha` or `Midpoint` is `None`.
- The sort at load_gradients.js:396 is modelled as a stable insertion sort by position, which is the order a stable `Array.prototype.sort` gives.

## Findings

| source | as written | input that shows it | evidently intended | confidence | as-written member | corrected member |
|---|---|---|---|---|---|---|
| palette-js/load_gradients.js:754-768 | when `Math.floor(h * 6)` is negative and not a multiple of 6, `i % 6` is negative, no case of the switch matches, and the channels come back undefined | an HSB stop with hue -30°, i.e. h = -1/12, s = v = 1 | the hue taken modulo one turn, giving the colour of hue 11/12 | not executed; medium (only a malformed file holds a negative hue) | Colour.NegativeHueUndefined | Colour.HsvToRgbWrapped |
| palette-js/write_grd.js:7-16 | the buffer is sized 10 + Σ(300 + 2·name + 120·stops), but a gradient takes 42 + 2·name + 106·stops + 48·transparency stops; writes past the end of the `Uint8Array` are dropped, so the file is cut short | one gradient with 8 stops at distinct positions: 1270 bytes estimated, 1284 needed | a buffer as large as the bytes written | not executed; high | GrdWriter.EstimateFallsShort | GrdWriter.BuildGrdBufferExact |
| palette-js/load_gradients.js:431-438 | `groupCounts` is a plain object, so for a group named after an inherited property such as "toString", `groupCounts[g]` starts out truthy: on the group's first occurrence it is not listed and its count becomes NaN; every later occurrence lists it, with a count one short (k − 1 for k gradients); a group named "__proto__" is never listed | one gradient in a group named "toString" | every group listed once, with its number of gradients | not executed; high | GrdGroups.InheritedNameDropped, GrdGroups.InheritedNameUndercounted, GrdGroups.ProtoNeverListed | GrdGroups.SummariseGroups |

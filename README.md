# Aladin Lite core, modelled in Dafny

Aladin Lite is a sky atlas that runs in the browser. Most of it is WebGL, DOM and network code. This project models its self-contained integer, string and buffer logic and proves what that logic promises. There is one module per source file.

- **HEALPix index arithmetic** (`HealpixBigBackup`, `HealpixBig`, `HealpixJs`, on the bit library `Bits`).
  - Covers the uniq encoding of (order, ipix), the bit interleaving of `bit_combine`/`bit_decombine` and of `xyf2nest`/`nest2xyf` with their lookup tables, `nside2npix`, `nside2order`, `order2nside`, `wrap`, `clip`, `LongRangeSetBuilder.appendRange` and the de-duplication of `queryDisc`'s nested output.
  - JavaScript's 32-bit bitwise operators and BigInt/Number mixing are written out explicitly.
  - The `order2nside`, `nside2npix`, `wrap` and `clip` of healpixBig.js (lines 22-32, 352-354 and 589-591) are the same expressions as those of healpixBigBackup.js. The `HealpixBigBackup` members model both.
- **Texture buffers of the Rust renderer** (`HpxCell`, `SurveyBuffer`, `Hips2DBuffer`).
  - Twelve root textures are kept aside; the other slots are recycled oldest-request-first through a heap ordered by request time.
  - Each class method is proved against a value-level function of the old state. The buffer invariant (the heap, the cell map and the texture slots in agreement) is proved preserved by lemmas.
- **Layer bookkeeping.**
  - `RenderLayers` models `Layers` of the renderer: the ordered layer names, their metadata, and the shared resources, dropped with their last layer.
  - `Survey` models the `ImageSurveys` collection of survey/mod.rs, with its grid subdivision and triangle indices.
  - `AladinView` models the JavaScript view: field-of-view range and zoom clamping, the displayed order, and the stack of image layers.
- **The 2014 and 0.1 bundles** (`DistribAladin`, `DistribAladin01`).
  - `Strings.trim` and the `Tokenizer`, the circular `TileBuffer`, the `Downloader` queue capped at four downloads, `Utils.LRUCache`, tile urls, unique layer names, box selection of sources, frame names, and the coordinate parser of the 0.1 release. The `LRUCache` class runs `set` as written (`SetAsWritten`), which lists a cached key a second time; the intended update in place (`SetFixed`) is stated beside it, as the corrected half of a finding below.
  - The `Downloader`, `Strings.trim` and `Tokenizer` of aladin-0.1.js (lines 1490-1560 and 1041-1091) behave as those of the 2014 bundle, apart from CORS. The `DistribAladin` members model both.
  - The `makeUniqLayerName` of src/js/View.js (lines 2018-2037) is the 2014 algorithm run over `allOverlayLayers`, so `DistribAladin.MakeUniqLayerName` models it too.
- **Parsers and validators.**
  - `AladinCatalog` covers the right ascension and declination column detection and the field keying of catalogues, and the three parallel source arrays.
  - `Samp` covers SAMP value typing, XML escaping and XML-RPC encoding, the parameter check, subscription matching and the client tracker.
  - `HipsProperties` covers the HiPS `properties` readers, the choice of tile format and frame, and the index of a local folder of tiles. The `HiPS` class reads the tile size with `PropertyParser.tileSize` as written (`TileSizeAsWritten`), which keeps widths that are not powers of two; the intended test (`TileSize`) is stated beside it, as the corrected half of a finding below.

Where the code and the standard it cites differ, the model follows the code. The uniq code of healpixBigBackup.js (lines 573-600) and healpixBig.js (lines 549-575) is 4·(4^order − 1) + ipix, so (0, 0) encodes to 0. The NUNIQ of section 2.3.1 of the IVOA MOC recommendation is 4·4^order + ipix instead. Decoding inverts the code's own encoding, so the model proves the round trip for the code's scheme.

Time (`Date.now`, `Time::now`) and the numbers JavaScript's `+` and `parseFloat` produce from text are parameters. The answers of the WebGL backend that the view reads back (`getFieldOfView`, `getNOrder`) are parameters too.

## Model

| member | source | states |
|---|---|---|
| HealpixBigBackup.Order2NsidePow | healpixBigBackup.js:17-19 | below order 31, `order2nside` is 2^order |
| HealpixBigBackup.Order2NsideWraps | healpixBigBackup.js:17-19 | the Number shift is 32-bit: order 31 yields a negative nside, and the shift count wraps modulo 32 |
| HealpixBigBackup.NpixOfOrder | healpixBigBackup.js:17-27 | at orders up to 30, `nside2Npix(order2nside(o))` is 12·4^o |
| HealpixBigBackup.JsRem | healpixBigBackup.js:368-370 | JavaScript `%` on finite Numbers, fractional ones included: NaN exactly for a zero divisor; otherwise r is smaller than b in magnitude, has the sign of the dividend and differs from it by a whole multiple of b |
| HealpixBigBackup.WrapRange | healpixBigBackup.js:368-370 | for every finite A, fractional angles included, and B > 0, `wrap(A,B)` differs from A by a whole number of periods B and lies in [0,B]; it equals B exactly when A is a negative whole multiple of B |
| HealpixBigBackup.Clip | healpixBigBackup.js:614-616 | for finite Numbers, fractional ones included: the result is Z, A or B; it lies in [A,B] when A ≤ B, is Z inside the bounds and is A below them |
| HealpixBigBackup.BitCombineBits | healpixBigBackup.js:486-497 | bit 2k of `bit_combine(x,y)` is bit k of x (k < 26), bit 2k+1 is bit k of y (k < 25), bit 51 is bit 51 of y (the last term's precedence), and no other bit is set |
| HealpixBigBackup.BitCombineIsInterleave | healpixBigBackup.js:486-497 | on coordinates below 2^n (n ≤ 25), `bit_combine` equals an independent bit-interleaving definition |
| HealpixBigBackup.DecombineCombine | healpixBigBackup.js:486-513 | `bit_decombine(bit_combine(x,y)) == (x,y)` for x < 2^26, y < 2^25 |
| HealpixBigBackup.CombineDecombine | healpixBigBackup.js:486-513 | `bit_combine` of the two halves `bit_decombine` extracts rebuilds every p < 2^51 |
| HealpixBigBackup.FxyToNestValue | healpixBigBackup.js:474-476 | at nside 2^order, `fxy2nest` is f·4^order plus the interleaved coordinates, and the in-face part is below 4^order |
| HealpixBigBackup.NestFxyRoundTrip | healpixBigBackup.js:474-524 | `nest2fxy(fxy2nest(f,x,y)) == (f,x,y)` for each of the 12 base faces f and x, y < nside = 2^order, order <= 24 |
| HealpixBigBackup.FxyNestRoundTrip | healpixBigBackup.js:474-524 | `fxy2nest` rebuilds every index up to 2^53 − 1, the range `Number(ipix)` holds exactly, from what `nest2fxy` extracts (f = ipix div nside², x,y from ipix mod nside²) |
| HealpixBigBackup.DecodeUniq | healpixBigBackup.js:584-600 | the loop finds the order Log4(uniq/4 + 1), `orderpix2uniq(order, ipix) == uniq`, and the logged assertion fires exactly when uniq > 2^53−1 |
| HealpixBigBackup.DecodedPixelInRange | healpixBigBackup.js:584-600 | every uniq ≥ 0 decodes to 0 ≤ ipix < 12·4^order |
| HealpixBigBackup.DecodeEncodeOrder | healpixBigBackup.js:573-600 | on valid pixels (ipix < 12·4^order) `uniq2orderpix` finds the order `orderpix2uniq` encoded, so it inverts it |
| HealpixBigBackup.EncodeUniqInjective | healpixBigBackup.js:573-582 | distinct valid (order, ipix) pairs get distinct uniq values |
| HealpixBigBackup.UniqOrderBoundary | healpixBigBackup.js:573-582 | the first uniq of order o+1 directly follows the last uniq of order o |
| HealpixBig.EncodeUniqAgrees | healpixBig.js:549-558 | `orderpix2uniq` succeeds exactly on two BigInt operands (a Number throws the mixed-type TypeError), and for a non-negative order it is the codec 4·(4^order − 1) + ipix |
| HealpixBig.EncodeUniqNegativeOrder | healpixBig.js:549-558 | a negative BigInt order shifts the 1 out, so the code is ipix − 4 |
| HealpixBig.DecodeUniq | healpixBig.js:560-575 | the logged assertion fires exactly when uniq > 0x1fffffffffffff; a Number uniq throws at `uniq >> 2n`; a BigInt decodes to the order where l drops below 4 and re-encodes to uniq |
| HealpixBig.UniqRoundTrip | healpixBig.js:549-575 | decoding an encoded valid BigInt pair finds the same order, and at that order only the same ipix encodes to that uniq |
| HealpixBig.BitCombineAlwaysThrows | healpixBig.js:460-477 | `bit_combine` throws on every input (its first assertion shifts a Number by a BigInt), and so does `fxy2nest` |
| HealpixJs.UtabSpreads | src/js/libs/healpix.js:216-219 | `utab[m]` spreads bit i of the byte m to bit 2i |
| HealpixJs.CtabBits | src/js/libs/healpix.js:214-217 | `ctab[m]` is below 2^12 and moves the even bits of m to bits 0..3 and its odd bits to bits 8..11 |
| HealpixJs.CtabGathers | src/js/libs/healpix.js:214-217 | `ctab[m]` is the gathered even bits of m plus 256 times its gathered odd bits |
| HealpixJs.CtabCompacts | src/js/libs/healpix.js:214-219 | the byte interleaved from nibbles a and b comes back from `ctab` as a in bits 0..3 and b in bits 8..11 |
| HealpixJs.CtabUndoesUtab | src/js/libs/healpix.js:214-219 | `ctab[utab[a]] == a` for every nibble a |
| HealpixJs.AndPred | src/js/libs/healpix.js:274-280 | `n & (n - 1)` is zero exactly for powers of two (the test of `nside2order`) |
| HealpixJs.Nside2OrderSpec | src/js/libs/healpix.js:274-280 | on a positive int32, `nside2order` is log2(nside) for a power of two and −1 otherwise |
| HealpixJs.LowestSetBit | src/js/libs/healpix.js:502-511 | `n & -n` is the lowest set bit of n (the power-of-two test of `nside2Npix`) |
| HealpixJs.Nside2NpixSpec | src/js/libs/healpix.js:502-511 | `nside2Npix` succeeds exactly for 0 and the powers of two up to NS_MAX, and then returns 12·nside² |
| HealpixJs.Nside2NpixZero | src/js/libs/healpix.js:502-511 | `nside2Npix(0)` returns 0 although the thrown message demands nside > 0 |
| HealpixJs.Nside2NpixCheckedSpec | src/js/libs/healpix.js:502-511 | with the check the message states, exactly 2^0 .. 2^14 are accepted, with 12·nside² pixels |
| HealpixJs.CompactEvenValue | src/js/libs/healpix.js:411-436 | for an in-face index below 2^31, the `raw` expression of `nest2xyf` (int32 masks above bit 31 clear to 0) is the natural compaction |
| HealpixJs.CompactGathers | src/js/libs/healpix.js:411-436 | `raw` and the `ctab` lookups together collect the even bits of the in-face index |
| HealpixJs.TermFoldInterleaves | src/js/libs/healpix.js:398-409 | the eight `utab` terms of `xyf2nest` (shifts of 32 and more included) interleave coordinates below 2^o, o ≤ 14 |
| HealpixJs.ExactNestXyfRoundTrip | src/js/libs/healpix.js:398-436 | the intended exact `nest2xyf` recovers every face and every pair of coordinates below 2^o that exact `xyf2nest` packed |
| HealpixJs.ExactXyfNestRoundTrip | src/js/libs/healpix.js:398-436 | exact `xyf2nest` rebuilds every non-negative index from coordinates below 2^o that exact `nest2xyf` extracts |
| HealpixJs.Range | src/js/libs/healpix.js:146-154 | the integers lo..hi in order, none when lo > hi |
| HealpixJs.AppendedRangeExtends | src/js/libs/healpix.js:146-154 | `appendRange` only appends: the old items stay in front and the new ones are increasing values in [lo, hi] |
| HealpixJs.AppendedRangePastEnd | src/js/libs/healpix.js:146-154 | when lo is at or past the number of items, the whole range is appended |
| HealpixJs.AppendedRangeSkipsIndices | src/js/libs/healpix.js:146-154 | the `i in items` test asks for an array index: appending 0 to [5] adds nothing, and −1..1 on an empty builder loses 0 |
| HealpixJs.AppendedValuesSpec | src/js/libs/healpix.js:146-154 | the intended builder holds exactly the old values and the range, with no duplicates when the old items had none |
| HealpixJs.FirstOccurrencesSpec | src/js/libs/healpix.js:1044-1055 | the nested result keeps every value, adds none and repeats none |
| HealpixJs.NestedDisc | src/js/libs/healpix.js:1044-1055 | the `indexOf` loop builds the first occurrences of the nested indices: no duplicates, and exactly the values of the input |
| HealpixJs.LongRangeSetBuilder.constructor | src/js/libs/healpix.js:142-144 | a new builder has no items |
| HealpixJs.LongRangeSetBuilder.AppendRange | src/js/libs/healpix.js:146-154 | the loop leaves exactly the items the specification function `AppendedRange` describes |
| HealpixJs.CtabEntryOf | src/js/libs/healpix.js:214-215 | one `ctab` entry is the gathered bits of the byte |
| HealpixJs.UtabEntryOf | src/js/libs/healpix.js:216-217 | one `utab` entry is the byte spread to even bits |
| HealpixJs.FillTables | src/js/libs/healpix.js:209-219 | two fresh 256-entry arrays hold the `ctab` and `utab` value of every byte |
| HealpixJs.HealpixIndex.constructor | src/js/libs/healpix.js:161-164 | the constructor stores nside only; the tables are empty until `init` |
| HealpixJs.HealpixIndex.TablesContents | src/js/libs/healpix.js:209-219 | after `init`, `utab` spreads and `ctab` gathers every byte |
| HealpixJs.HealpixIndex.Init | src/js/libs/healpix.js:209-233 | `init` fills both tables and sets nl2 = 2·nside, nl3, nl4, npface = nside², ncap = 2·nside·(nside−1), npix = 12·npface and the order of nside |
| HealpixJs.HealpixIndex.InitReady | src/js/libs/healpix.js:209-233 | after `init` on nside = 2^o with o ≤ 14 the order is o and `npface − 1` masks an index to its remainder by 4^o |
| HealpixJs.HealpixIndex.SpreadLookupInterleaves | src/js/libs/healpix.js:398-409 | the eight `utab` lookups of `xyf2nest` interleave coordinates below 2^o |
| HealpixJs.HealpixIndex.NestSplit | src/js/libs/healpix.js:411-414 | `ipix >> 2·order` is the face and `ipix & (npface − 1)` the in-face index of a non-negative int32 index |
| HealpixJs.HealpixIndex.NestToXyfValue | src/js/libs/healpix.js:411-436 | `nest2xyf` gives face ipix / 4^o, ix the even bits and iy the odd bits of ipix mod 4^o |
| HealpixJs.HealpixIndex.XyfToNestValue | src/js/libs/healpix.js:398-409 | while face·4^o stays below 2^31, `xyf2nest` is face·4^o plus the interleaving of coordinates below 2^o |
| HealpixJs.HealpixIndex.NestXyfRoundTrip | src/js/libs/healpix.js:398-436 | `nest2xyf(xyf2nest(ix, iy, f)) == (ix, iy, f)` for coordinates below nside while the index stays below 2^31 |
| HealpixJs.HealpixIndex.XyfNestRoundTrip | src/js/libs/healpix.js:398-436 | `xyf2nest` rebuilds every non-negative int32 index from what `nest2xyf` extracts |
| HealpixJs.HealpixIndex.XyfToNestOverflows | src/js/libs/healpix.js:398-409 | at order 14, face 8 with zero coordinates packs to −2^31 |
| HealpixJs.HealpixIndex.NestToXyfOverflowedFace | src/js/libs/healpix.js:411-414 | `nest2xyf` reads that index back as face −8 |
| HpxCell.Parent | src/core/src/survey/buffer.rs:581-594 | the parent of a cell is one depth up and exists when the cell does |
| HpxCell.AncestorAt | src/core/src/survey/buffer.rs:581-594 | the ancestor k depths up exists when the cell does |
| HpxCell.TextureCell | src/core/src/survey/buffer.rs:272 | the texture cell of a tile lies delta_depth levels up, or is the root above a shallower tile, and exists when the tile does |
| HpxCell.ValidRoot | src/core/src/survey/buffer.rs:196-213 | a root cell that exists is one of the twelve base cells |
| HpxCell.NewTexture | src/core/src/survey/buffer.rs:344-346 | a new texture has its cell, slot and request time and no tile yet |
| HpxCell.Replace | src/core/src/survey/buffer.rs:330-338 | a reassigned texture keeps its slot, takes the new cell and time and drops its tiles |
| HpxCell.Append | src/core/src/survey/buffer.rs:417-421 | writing a tile adds it to the texture's tiles and changes nothing else |
| HpxCell.ItemOf | src/core/src/survey/buffer.rs:39-62 | a texture's heap item carries its cell and request time |
| HpxCell.OldestIndex | src/core/src/survey/buffer.rs:27-37 | the reversed ordering makes the top of the heap an item with the smallest request time |
| HpxCell.Pop | src/core/src/survey/buffer.rs:99-101 | `pop` is None exactly on an empty heap; otherwise it returns an oldest item and the heap minus exactly that item |
| HpxCell.UpdateEntry | src/core/src/survey/buffer.rs:82-93 | `update_entry` ends with the new item on the heap |
| HpxCell.WithoutKeeps | src/core/src/survey/buffer.rs:82-91 | the filter drops exactly the cell, keeps the others once, and shrinks the heap by one when the cell was held |
| HpxCell.UpdateEntryKeeps | src/core/src/survey/buffer.rs:82-93 | on a heap holding each cell once, `update_entry` keeps each cell once, adds the item's cell and keeps the size when the cell was held |
| HpxCell.PushKeeps | src/core/src/survey/buffer.rs:77-80 | pushing an item of a new cell keeps cells distinct and adds that cell |
| HpxCell.PopKeeps | src/core/src/survey/buffer.rs:99-101 | popping a non-empty heap with distinct cells removes exactly the popped cell, which was held |
| SurveyBuffer.RootCounterBound | src/core/src/survey/buffer.rs:428-430 | the root-texture counter never exceeds 12 |
| SurveyBuffer.AddRootKeeps | src/core/src/survey/buffer.rs:316-318 | a root texture created in the slot of its own index keeps the buffer invariant |
| SurveyBuffer.AddFreshKeeps | src/core/src/survey/buffer.rs:340-350 | a non-root texture created in slot 12 + heap.len and pushed keeps the invariant |
| SurveyBuffer.EvictKeeps | src/core/src/survey/buffer.rs:322-350 | when the heap is full, the oldest texture is non-root, held and other than the new one; reusing its slot for the new cell keeps the invariant |
| SurveyBuffer.AppendKeeps | src/core/src/survey/buffer.rs:417-432 | writing a tile keeps keys and slots; a root texture that becomes available was not counted before and joins the available roots |
| SurveyBuffer.CreatedTexture | src/core/src/survey/buffer.rs:314-353 | the created texture is stored under its cell with the request time and no tiles; the model panics only for a non-root texture when the heap is full |
| SurveyBuffer.Written | src/core/src/survey/buffer.rs:417-436 | after writing, the frame flag is set, the map has the same keys, the tile is in the texture and the texture keeps its slot |
| SurveyBuffer.PushState | src/core/src/survey/buffer.rs:259-437 | after a successful `push` the buffer holds the tile |
| SurveyBuffer.UpdatedHeap | src/core/src/survey/buffer.rs:489-515 | for a root texture, `update_priority` leaves the heap as it is; for any other texture the heap ends with that texture's entry re-timed to now |
| SurveyBuffer.NearestParent | src/core/src/survey/buffer.rs:581-594 | the result is a strict ancestor that is a root or an available texture |
| SurveyBuffer.InitialConsistent | src/core/src/survey/buffer.rs:188-253 | the empty buffer `new` builds satisfies the invariant |
| SurveyBuffer.CreatedTextureKeeps | src/core/src/survey/buffer.rs:314-353 | making a texture keeps the invariant and panics exactly when a non-root texture is needed but the buffer has only the twelve root slots |
| SurveyBuffer.CreatedByEviction | src/core/src/survey/buffer.rs:322-338 | with the heap full, the new texture is the popped oldest one reassigned, and the popped cell leaves the map |
| SurveyBuffer.WrittenKeeps | src/core/src/survey/buffer.rs:417-436 | writing a new tile keeps the invariant and the root counter at most 12 |
| SurveyBuffer.PushStateKeeps | src/core/src/survey/buffer.rs:259-437 | `push` keeps the invariant; it panics exactly when a new non-root texture is needed with no slot beyond the roots; an already held tile leaves the state unchanged (`push` is a no-op) |
| SurveyBuffer.PushSlot | src/core/src/survey/buffer.rs:322-350 | a fresh texture gets slot 12 + heap.len and grows the heap by one; with the heap full, the oldest texture leaves the map and its slot is reused |
| SurveyBuffer.OldestHeld | src/core/src/survey/buffer.rs:322-330 | the oldest heap entry names a non-root texture of the map, so the `expect` does not fire |
| SurveyBuffer.HeapFullIffSlotsTaken | src/core/src/survey/buffer.rs:446-452 | `is_heap_full` holds exactly when heap.len == size − 12, that is when every non-root slot holds a texture |
| SurveyBuffer.UpdatePriorityKeeps | src/core/src/survey/buffer.rs:489-515 | `update_priority` keeps the invariant and the heap length, and the heap holds the cell exactly once |
| SurveyBuffer.NearestParentIsNearest | src/core/src/survey/buffer.rs:581-594 | the result is the first ancestor that is available or a root: no ancestor in between is available |
| SurveyBuffer.ReadyIffAllRoots | src/core/src/survey/buffer.rs:428-436 | the buffer is ready exactly when all twelve root textures are available |
| SurveyBuffer.ImageSurveyTextures.constructor | src/core/src/survey/buffer.rs:188-253 | `new`: an empty heap and map, counters cleared, and the twelve base textures in slots 0..11 |
| SurveyBuffer.ImageSurveyTextures.Get | src/core/src/survey/buffer.rs:576-578 | `get` returns the stored texture exactly when the cell is in the map |
| SurveyBuffer.ImageSurveyTextures.GetAllskyTextures | src/core/src/survey/buffer.rs:611-632 | twelve entries, entry i being the texture of root cell i |
| SurveyBuffer.ImageSurveyTextures.CreateTexture | src/core/src/survey/buffer.rs:314-353 | the heap and map become exactly those of `CreatedTexture` |
| SurveyBuffer.ImageSurveyTextures.WriteTile | src/core/src/survey/buffer.rs:411-436 | the new state is exactly `Written` of the old one |
| SurveyBuffer.ImageSurveyTextures.Push | src/core/src/survey/buffer.rs:259-437 | the new state is exactly `PushState` of the old one, and `panicked` marks where the source panics |
| SurveyBuffer.ImageSurveyTextures.IsThereAvailableTiles | src/core/src/survey/buffer.rs:439-444 | returns the frame flag and clears it |
| SurveyBuffer.ImageSurveyTextures.UpdatePriority | src/core/src/survey/buffer.rs:489-515 | the heap becomes `UpdatedHeap` of the old one |
| SurveyBuffer.ImageSurveyTextures.GetNearestParent | src/core/src/survey/buffer.rs:581-594 | a root cell is returned as is; otherwise the result is `NearestParent` |
| Hips2DBuffer.BaseTextures | src/core/src/renderable/hips/d2/buffer.rs:262-276 | the twelve root textures: texture i is cell (0, i) in slot i, with no tile written |
| Hips2DBuffer.Created | src/core/src/renderable/hips/d2/buffer.rs:320-342 | the created texture is stored under its cell with the request time and no tiles |
| Hips2DBuffer.Written | src/core/src/renderable/hips/d2/buffer.rs:345-384 | after writing, the frame flag is set, heap and map keys are unchanged, and the tile joins the tiles of its texture (root array or map) |
| Hips2DBuffer.NearestParent | src/core/src/renderable/hips/d2/buffer.rs:529-546 | a Some result is a strict ancestor that is available |
| Hips2DBuffer.RootTilesUpdate | src/core/src/renderable/hips/d2/buffer.rs:345-350 | each tile written into a root texture adds one to the tiles counted at the roots |
| Hips2DBuffer.InitialConsistent | src/core/src/renderable/hips/d2/buffer.rs:183-239 | the buffer `new` and `set_format` leave satisfies the invariant: roots in their slots, no other texture, empty heap |
| Hips2DBuffer.WrittenRootKeeps | src/core/src/renderable/hips/d2/buffer.rs:345-384 | a root tile goes to its base texture and never enters the heap or the map; the root counter follows the root tiles (as a wrapping u8) |
| Hips2DBuffer.WrittenMapKeeps | src/core/src/renderable/hips/d2/buffer.rs:355-384 | writing a tile into a non-root texture keeps the invariant |
| Hips2DBuffer.CreatedFreshKeeps | src/core/src/renderable/hips/d2/buffer.rs:334-342 | a missing non-root texture made in slot 12 + heap.len keeps the invariant |
| Hips2DBuffer.CreatedByEvictionKeeps | src/core/src/renderable/hips/d2/buffer.rs:320-342 | with the heap full, reassigning the oldest texture keeps the invariant |
| Hips2DBuffer.CreatedByEviction | src/core/src/renderable/hips/d2/buffer.rs:320-333 | with the heap full, the new texture is the popped oldest one reassigned, and the popped cell leaves the map |
| Hips2DBuffer.OldestHeld | src/core/src/renderable/hips/d2/buffer.rs:322-330 | the oldest heap entry names a non-root texture of the map, so neither the debug assertion nor the `expect` fires |
| Hips2DBuffer.PushStateKeeps | src/core/src/renderable/hips/d2/buffer.rs:308-387 | `push` keeps the invariant and never panics on a consistent buffer; the tile is held afterwards; an already held tile changes nothing; otherwise the tile joins its texture's tiles |
| Hips2DBuffer.PushSlot | src/core/src/renderable/hips/d2/buffer.rs:320-342 | below 116 entries a fresh texture gets slot 12 + heap.len and grows the heap; at 116 the oldest non-root texture leaves the map and its slot is reused |
| Hips2DBuffer.GetFindsCell | src/core/src/renderable/hips/d2/buffer.rs:519-526 | `get` returns the texture of the cell asked for; every root cell has one in its base slot; a non-root cell has one exactly when it is in the map |
| Hips2DBuffer.HeapFullIffSlotsTaken | src/core/src/renderable/hips/d2/buffer.rs:397-403 | the heap is full (116 entries) exactly when 116 non-root textures are held |
| Hips2DBuffer.UpdatePriorityKeeps | src/core/src/renderable/hips/d2/buffer.rs:441-472 | `update_priority` keeps the invariant and heap length; a root texture leaves the heap unchanged; otherwise the texture's entry becomes the newest |
| Hips2DBuffer.NearestParentIsNearest | src/core/src/renderable/hips/d2/buffer.rs:529-546 | Some(p) is the nearest available ancestor with nothing available in between; None means no ancestor up to the root is available |
| Hips2DBuffer.HiPS2DBuffer.constructor | src/core/src/renderable/hips/d2/buffer.rs:183-239 | `new`: the initial state with the twelve root textures, an empty heap and map, and counters cleared |
| Hips2DBuffer.HiPS2DBuffer.SetFormat | src/core/src/renderable/hips/d2/buffer.rs:241-285 | `set_format` rebuilds the root textures and clears heap, map, root counter and frame flag |
| Hips2DBuffer.HiPS2DBuffer.Get | src/core/src/renderable/hips/d2/buffer.rs:519-526 | `get` is `GetTexture` of the current state |
| Hips2DBuffer.HiPS2DBuffer.CreateTexture | src/core/src/renderable/hips/d2/buffer.rs:320-342 | the heap and map become exactly those of `Created` |
| Hips2DBuffer.HiPS2DBuffer.Push | src/core/src/renderable/hips/d2/buffer.rs:308-387 | the new state is exactly `PushState` of the old one |
| Hips2DBuffer.HiPS2DBuffer.ResetAvailableTiles | src/core/src/renderable/hips/d2/buffer.rs:390-395 | returns the frame flag and clears it |
| Hips2DBuffer.HiPS2DBuffer.UpdatePriority | src/core/src/renderable/hips/d2/buffer.rs:441-472 | the heap becomes `UpdatedHeap` of the old state |
| Hips2DBuffer.HiPS2DBuffer.GetNearestParent | src/core/src/renderable/hips/d2/buffer.rs:529-546 | a root cell gives Some(itself); otherwise the result is `NearestParent` |
| RenderLayers.Position | src/core/src/renderable/mod.rs:328-332 | `position` is None exactly when the layer is absent, else the first index holding it |
| RenderLayers.StartIndex | src/core/src/renderable/mod.rs:267-282 | the draw start is 0 or an index ≥ 1 holding a fully covering layer, and no later index ≥ 1 is covering |
| RenderLayers.EmptyWf | src/core/src/renderable/mod.rs:122-170 | the empty stack `new` builds is well formed |
| RenderLayers.DistinctRemoveAt | src/core/src/renderable/mod.rs:333 | `Vec::remove` on distinct names keeps them distinct and drops exactly the removed name |
| RenderLayers.DistinctInsertAt | src/core/src/renderable/mod.rs:441 | `Vec::insert` of a new name keeps the names distinct and adds exactly it |
| RenderLayers.RemoveLayerSpec | src/core/src/renderable/mod.rs:315-370 | `remove_layer` errors exactly when the layer is absent (changing nothing); otherwise it returns the layer's position and removes it from the order, meta and ids; the camera's reversed flag follows the remaining meta; the resource is kept exactly while another layer references its id |
| RenderLayers.RemovePresent | src/core/src/renderable/mod.rs:315-370 | the stack `remove_layer` leaves for a present layer, spelled out |
| RenderLayers.RemovedWf | src/core/src/renderable/mod.rs:315-370 | removing a layer, and its resource when unused, keeps the stack well formed |
| RenderLayers.RenameLayerSpec | src/core/src/renderable/mod.rs:372-395 | `rename_layer` errors exactly when the layer is absent (changing nothing); otherwise the new name takes the old position and inherits its meta and id, and the old name goes |
| RenderLayers.RenamePresent | src/core/src/renderable/mod.rs:372-395 | the stack `rename_layer` leaves for a present layer, spelled out |
| RenderLayers.RenamedOrder | src/core/src/renderable/mod.rs:384 | replacing position i by a fresh name keeps names distinct and puts the new name at i |
| RenderLayers.RenamedWf | src/core/src/renderable/mod.rs:372-395 | renaming to an unused name keeps the stack well formed |
| RenderLayers.RenameOntoOther | src/core/src/renderable/mod.rs:372-395 | renaming a layer to the name of another layer succeeds and leaves that name twice in the order |
| RenderLayers.SwapLayersSpec | src/core/src/renderable/mod.rs:397-418 | `swap_layers` errors exactly when either layer is absent (changing nothing); otherwise the two positions are exchanged and every other position is kept |
| RenderLayers.SwappedOrder | src/core/src/renderable/mod.rs:415 | exchanging two positions keeps the same names, each once |
| RenderLayers.SwappedWf | src/core/src/renderable/mod.rs:397-418 | swapping keeps the stack well formed |
| RenderLayers.AddImageHipsSpec | src/core/src/renderable/mod.rs:420-494 | `add_image_hips` fails only when a HiPS must be created and cannot be; otherwise the stack stays well formed, the layer shows the HiPS of its creator DID with the new meta, a re-added layer keeps its index, a new one is appended, and a loaded HiPS is never created twice |
| RenderLayers.InsertRemoveAt | src/core/src/renderable/mod.rs:435-441 | inserting a removed name back at its index restores the order |
| RenderLayers.RemovedForReAdd | src/core/src/renderable/mod.rs:435-439 | removing a present layer before re-adding it succeeds, keeps the stack well formed and returns its index |
| RenderLayers.RemovedKeeps | src/core/src/renderable/mod.rs:356-369 | after that removal a HiPS is still loaded exactly when another layer still uses it |
| RenderLayers.InsertHipsSpec | src/core/src/renderable/mod.rs:441-494 | inserting an absent layer keeps the stack well formed; it fails exactly when the DID is not loaded and the HiPS cannot be built |
| RenderLayers.SetLayerCfgSpec | src/core/src/renderable/mod.rs:567-617 | `set_layer_cfg` always stores the new meta, and it succeeds exactly when the layer had meta before |
| RenderLayers.SetSurveyUrlSpec | src/core/src/renderable/mod.rs:173-191 | `set_survey_url` fails exactly when no HiPS of that DID is loaded; otherwise only that HiPS's root url changes |
| RenderLayers.BackgroundStartsAtBottom | src/core/src/renderable/mod.rs:224-282 | when no layer covers the sky, the background is painted and drawing starts at index 0 |
| RenderLayers.Layers.constructor | src/core/src/renderable/mod.rs:122-170 | `new` builds the empty stack |
| RenderLayers.Layers.FindPosition | src/core/src/renderable/mod.rs:328-332 | the search loop returns `Position` |
| RenderLayers.Layers.RemoveLayer | src/core/src/renderable/mod.rs:315-370 | the new state and result are `LayerRemoved` of the old state |
| RenderLayers.Layers.RenameLayer | src/core/src/renderable/mod.rs:372-395 | the new state and result are `LayerRenamed` of the old state |
| RenderLayers.Layers.SwapLayers | src/core/src/renderable/mod.rs:397-418 | the new state and result are `LayersSwapped` of the old state |
| RenderLayers.Layers.AddImageHips | src/core/src/renderable/mod.rs:420-494 | the new state and result are `HipsAdded` of the old state |
| RenderLayers.Layers.InsertLayer | src/core/src/renderable/mod.rs:441-494 | the new state and result are `InsertHips` of the old state |
| RenderLayers.Layers.SetLayerCfg | src/core/src/renderable/mod.rs:567-617 | the new state and result are `CfgSet` of the old state |
| RenderLayers.Layers.SetSurveyUrl | src/core/src/renderable/mod.rs:173-191 | the new state and result are `UrlSet` of the old state |
| RenderLayers.Layers.DrawStartIndex | src/core/src/renderable/mod.rs:267-282 | the pre-loop of `draw` returns `StartIndex` |
| Survey.NumSubdivision | src/core/src/survey/mod.rs:15-30 | at depth 0 the result is 3 − delta_depth (0 past 3), at depth 1 it is 2 − delta_depth (0 past 2); deeper cells take the deformation-based count |
| Survey.GridLength | src/core/src/survey/mod.rs:429-444 | the index list of an n by n grid has six entries per quad |
| Survey.GridIndicesAt | src/core/src/survey/mod.rs:429-444 | quad (i, j) fills entries 6(in + j) .. 6(in + j) + 5, rows first |
| Survey.GridBound | src/core/src/survey/mod.rs:429-444 | every index lies in [off_idx, off_idx + (n + 1)²) |
| Survey.GridCovers | src/core/src/survey/mod.rs:429-444 | every vertex of a grid of at least one quad is used by some triangle |
| Survey.QuadInGrid | src/core/src/survey/mod.rs:429-444 | every corner of every quad is among the grid's indices |
| Survey.AddGridIndices | src/core/src/survey/mod.rs:429-444 | on a grid whose vertices all have a `u16` index, the nested loops append exactly `GridIndices(off, 2^numSub)` to the index buffer, and every appended index is a valid `u16` |
| Survey.ViewDepth | src/core/src/survey/mod.rs:836-856 | the depth is at most the camera depth and the max tile depth; it is depth_tile − delta_depth, or 0 when that would go below 0 |
| Survey.ViewDepthMonotonic | src/core/src/survey/mod.rs:836-856 | zooming in never lowers the depth a survey draws at |
| Survey.NewSurvey | src/core/src/survey/mod.rs:503-653 | a new survey draws at depth 0 with the config's url, max depth and delta depth, and its texture buffer is empty |
| Survey.NewSurveyOk | src/core/src/survey/mod.rs:503-653 | a new survey's texture buffer satisfies its invariant |
| Survey.UpdatePriorityTileKeeps | src/core/src/survey/mod.rs:858-866 | `update_priority_tile` returns true exactly for a held tile, changes only the heap's order and keeps the buffer invariant |
| Survey.LayerNames | src/core/src/survey/mod.rs:1317-1347 | the layer list in the order of the HiPSes |
| Survey.MostPreciseKeeps | src/core/src/survey/mod.rs:1329-1334 | where no order exceeds the best so far, the most precise url stays |
| Survey.MostPreciseIsFirstDeepest | src/core/src/survey/mod.rs:1329-1334 | otherwise it is the url of the first HiPS of greatest order |
| Survey.FindDuplicate | src/core/src/survey/mod.rs:1283-1294 | the double loop finds a duplicate exactly when the layer names are not distinct, and reports the first position repeating an earlier name |
| Survey.FirstIndexSpec | src/core/src/survey/mod.rs:1337-1340 | the first HiPS naming a url is found, and only a missing url goes past the end |
| Survey.MetaOfKeys | src/core/src/survey/mod.rs:1344-1347 | the meta map has exactly the layer names as keys |
| Survey.UrlsOfKeys | src/core/src/survey/mod.rs:1344-1347 | the url map has exactly the layer names as keys |
| Survey.MetaOfValues | src/core/src/survey/mod.rs:1344-1347 | with distinct names, every layer gets its own meta |
| Survey.UrlsOfValues | src/core/src/survey/mod.rs:1344-1347 | with distinct names, every layer gets its own url |
| Survey.RekeyedResolves | src/core/src/survey/mod.rs:1160-1183 | moving a survey to a new url keeps every layer pointing at a survey, keeps the layer keys, and no layer keeps the old url |
| Survey.FillDone | src/core/src/survey/mod.rs:1317-1348 | after the loop, the layers, meta, urls, most precise url and reversal flag are those of the HiPS list; old surveys are kept and each new url gets a survey from its first HiPS |
| Survey.RefreshDone | src/core/src/survey/mod.rs:1385-1394 | after the loop every survey is refreshed and the depth is the greatest survey depth, 0 without surveys |
| Survey.KeptOrNew | src/core/src/survey/mod.rs:1296-1340 | the final surveys are the old ones whose root url some HiPS names, unchanged, plus a new one for each other url of the HiPSes |
| Survey.ImageSurveys.constructor | src/core/src/survey/mod.rs:1121-1158 | `new`: no surveys, layers, meta or urls; empty most precise url; depth 0 |
| Survey.ImageSurveys.SetSurveyUrl | src/core/src/survey/mod.rs:1160-1183 | an absent past url errors and changes nothing; otherwise the survey is re-keyed with its root url set, matching layer urls and `most_precise_survey` are rewritten |
| Survey.ImageSurveys.RefreshViews | src/core/src/survey/mod.rs:1385-1394 | every survey recomputes its depth, and the collection depth is their maximum, 0 without surveys |
| Survey.ImageSurveys.SetImageSurveys | src/core/src/survey/mod.rs:1277-1353 | duplicate layer names are rejected exactly, with nothing changed; surveys whose url no HiPS names are dropped; on success the layers, meta, urls and flags follow the list |
| Survey.ImageSurveys.FillLayers | src/core/src/survey/mod.rs:1317-1348 | the loop fails exactly when some HiPS's config cannot be built, reporting the first such layer; otherwise it ends in the state `FillDone` describes |
| DistribAladin.StripStartSpec | distrib/2014-04-24/aladin.js:1736 | stripping the leading separators leaves a suffix of the text that does not start with one, and only separators are cut |
| DistribAladin.StripEndSpec | distrib/2014-04-24/aladin.js:1738 | stripping the trailing separators leaves a prefix that does not end with one, and only separators are cut |
| DistribAladin.TrimmedSpec | distrib/2014-04-24/aladin.js:1734-1740 | `Strings.trim` gives a slice of the text that neither starts nor ends with c, with only c's outside it |
| DistribAladin.SkipSeparators | distrib/2014-04-24/aladin.js:1713 | the loop stops at the first character other than the separator, or the end, without changing what is left to strip |
| DistribAladin.Trim | distrib/2014-04-24/aladin.js:1734-1740 | the two index loops of `Strings.trim` compute `Trimmed(str, c)`, including the empty result of an all-separator text |
| DistribAladin.BackOverSeparators | distrib/2014-04-24/aladin.js:1738 | the backward loop stops on the last character other than c, and the slice up to it is the text with its trailing c's stripped |
| DistribAladin.RunSpec | distrib/2014-04-24/aladin.js:1716 | a token is a separator-free prefix that stops at the end or at a separator |
| DistribAladin.ReadRun | distrib/2014-04-24/aladin.js:1716 | the token loop stops at the end or at a separator, having read exactly the run of the token |
| DistribAladin.TokensSpec | distrib/2014-04-24/aladin.js:1691-1719 | once the text is trimmed, every token the tokenizer returns is non-empty and free of separators |
| DistribAladin.NextTokenSplits | distrib/2014-04-24/aladin.js:1710-1719 | the two loops of `nextToken` cut off the first remaining token and move strictly forward |
| DistribAladin.Tokenizer.constructor | distrib/2014-04-24/aladin.js:1691-1695 | the text is `Strings.trim(str, sep)` and reading starts at 0 |
| DistribAladin.Tokenizer.HasMore | distrib/2014-04-24/aladin.js:1702-1704 | `hasMore` is true exactly when a token remains |
| DistribAladin.Tokenizer.NextToken | distrib/2014-04-24/aladin.js:1710-1719 | `nextToken` returns the next token of the remaining list and drops it; past the end it returns "" and does not move |
| DistribAladin.IndexedBound | distrib/2014-04-24/aladin.js:3610-3650 | a tile buffer never holds more urls than its 800 slots |
| DistribAladin.ReassignedIndexed | distrib/2014-04-24/aladin.js:3630-3638 | giving the slot under the pointer to a new url, and forgetting the url it held, keeps the url map and the slots in agreement |
| DistribAladin.TileBuffer.constructor | distrib/2014-04-24/aladin.js:3614-3622 | 800 empty slots, pointer 0, no url held |
| DistribAladin.TileBuffer.GetTile | distrib/2014-04-24/aladin.js:3648-3650 | a slot is returned exactly when some slot holds the url, and it is that slot |
| DistribAladin.TileBuffer.AddTile | distrib/2014-04-24/aladin.js:3624-3646 | a held url gives null and changes nothing; otherwise the slot under the pointer takes the url, the url it held is forgotten and the pointer moves on |
| DistribAladin.StartHead | distrib/2014-04-24/aladin.js:2367-2374 | starting the head of the queue while fewer than four downloads run keeps the bookkeeping consistent |
| DistribAladin.EnqueueConsistent | distrib/2014-04-24/aladin.js:2349-2354 | queuing a url neither queued nor downloading keeps the bookkeeping consistent |
| DistribAladin.Downloader.constructor | distrib/2014-04-24/aladin.js:2340-2345 | no download running, empty queue, no url known |
| DistribAladin.Downloader.RequestDownload | distrib/2014-04-24/aladin.js:2347-2357 | a known url is ignored; a new one is queued, remembered, and the downloads started come from the front of the queue |
| DistribAladin.Downloader.TryDownload | distrib/2014-04-24/aladin.js:2360-2365 | downloads start from the front of the queue, in order, and the count grows by their number; afterwards four run or the queue is empty |
| DistribAladin.Downloader.CompleteDownload | distrib/2014-04-24/aladin.js:2397-2415 | the url is forgotten, one download fewer runs, a redraw is asked exactly on success, and at most one queued download starts |
| DistribAladin.SortByExpiryPermutes | distrib/2014-04-24/aladin.js:2138-2142 | the sort in `set` only reorders the keys |
| DistribAladin.SortByExpiryDescending | distrib/2014-04-24/aladin.js:2138-2142 | the sort puts keys in descending order of expiry |
| DistribAladin.WellFormedBound | distrib/2014-04-24/aladin.js:2121-2158 | a well-formed cache holds `size` items, at most `maxsize` |
| DistribAladin.EvictedOldest | distrib/2014-04-24/aladin.js:2137-2146 | the key a full cache evicts is cached and has the earliest expiry |
| DistribAladin.SetAsWritten | distrib/2014-04-24/aladin.js:2130-2158 | `set` as written keeps the capacity and grows the key list by at most one |
| DistribAladin.SetAsWrittenDuplicates | distrib/2014-04-24/aladin.js:2137-2152 | setting a cached key again lists it twice, so the cache reports itself full while holding fewer items and evicts early |
| DistribAladin.SetFixedSpec | distrib/2014-04-24/aladin.js:2130-2158 | the intended `set` keeps the cache well formed, stores the value with the current time and drops the oldest key only when the key is new and the cache full |
| DistribAladin.SetFixedCached | distrib/2014-04-24/aladin.js:2149-2151 | setting a cached key replaces its value and renews its expiry, nothing else |
| DistribAladin.SetFixedRoom | distrib/2014-04-24/aladin.js:2149-2152 | a new key with room is added with nothing evicted |
| DistribAladin.SetFixedFull | distrib/2014-04-24/aladin.js:2137-2152 | a new key in a full cache replaces the oldest one |
| DistribAladin.LRUCache.constructor | distrib/2014-04-24/aladin.js:2121-2127 | an empty cache whose capacity is `maxsize`, or 1024 when it is 0 |
| DistribAladin.WellFormedCacheConsistent | distrib/2014-04-24/aladin.js:2121-2158 | a cache with every key listed once also meets the weaker invariant `set` as written keeps |
| DistribAladin.CacheConsistentBound | distrib/2014-04-24/aladin.js:2130-2158 | a cache whose items are all listed holds at most `size` items, so at most `maxsize` |
| DistribAladin.SetAsWrittenSpec | distrib/2014-04-24/aladin.js:2130-2158 | `set` as written keeps every item listed and the cache within its capacity, lists the key last and stores it with the value and the current time; a full cache first loses the oldest key, and no other item changes |
| DistribAladin.SetAsWrittenFull | distrib/2014-04-24/aladin.js:2137-2152 | evicting the last key after the sort keeps every remaining item listed |
| DistribAladin.SetAsWrittenNewKey | distrib/2014-04-24/aladin.js:2130-2158 | on a cache with every key listed once, setting a new key behaves as intended and keeps every key listed once |
| DistribAladin.LRUCache.Set | distrib/2014-04-24/aladin.js:2130-2158 | `set` as written: leaves the state `SetAsWritten` describes, duplicate key included, and keeps every item listed within the capacity |
| DistribAladin.LRUCache.Get | distrib/2014-04-24/aladin.js:2160-2164 | `get` returns the cached item, if any, and renews the expiry of a hit only |
| DistribAladin.DirIndex | distrib/2014-04-24/aladin.js:4129 | the directory index is npix rounded down to a multiple of 10000 |
| DistribAladin.TileUrlInjective | distrib/2014-04-24/aladin.js:4128-4131 | two tiles of one survey with the same url are the same tile |
| DistribAladin.SuffixedInjective | distrib/2014-04-24/aladin.js:5801 | `name_j` and `name_k` differ when j and k do |
| DistribAladin.LayerNameExists | distrib/2014-04-24/aladin.js:5807-5815 | true exactly when a catalogue layer has the name |
| DistribAladin.FreeSuffix | distrib/2014-04-24/aladin.js:5800-5805 | among `name_1` to `name_{n+1}` one is free, so the loop of `makeUniqLayerName` ends |
| DistribAladin.MakeUniqLayerName | distrib/2014-04-24/aladin.js:5796-5806 | the result names no layer; it is the name itself when free, otherwise `name_k` for the least free k |
| DistribAladin.Normalized | distrib/2014-04-24/aladin.js:5839-5846 | a negative extent moves the corner and is negated, so the box covers the same range with non-negative extents |
| DistribAladin.OppositeCornerSameBox | distrib/2014-04-24/aladin.js:5839-5846 | a box given from its opposite corner is the same box |
| DistribAladin.SourcesInBox | distrib/2014-04-24/aladin.js:5856-5864 | the sources kept are exactly the shown sources with both coordinates set and inside the box |
| DistribAladin.ObjectsInBoxMembers | distrib/2014-04-24/aladin.js:5849-5866 | a source is reported exactly when a shown layer holds it and it lies in the box |
| DistribAladin.SourcesInBBox | distrib/2014-04-24/aladin.js:5856-5864 | the inner loop collects `SourcesInBox` of the layer, in order |
| DistribAladin.ObjectsInBBox | distrib/2014-04-24/aladin.js:5838-5868 | `getObjectsInBBox` normalises the box and returns `ObjectsInBox` of it |
| DistribAladin.FrameFromString | distrib/2014-04-24/aladin.js:2307-2323 | the result is J2000, Galactic, or the default (null when the default is unset) |
| DistribAladin.FrameFromStringIgnoresCase | distrib/2014-04-24/aladin.js:2312 | a frame name is read regardless of case |
| DistribAladin.FrameFromStringIgnoresWhiteSpace | distrib/2014-04-24/aladin.js:2312-2319 | white space around a frame name does not change the frame it designates |
| DistribAladin01.Indexed01Bound | distrib/aladin-0.1.js:1820-1858 | the 0.1 url map never has more urls than the 1000 slots |
| DistribAladin01.Reassigned01Indexed | distrib/aladin-0.1.js:1841-1846 | deleting the key of the slot's old url ("null" for an unused slot) and giving the slot to a new url keeps the weaker agreement of the 0.1 buffer |
| DistribAladin01.TileBuffer.constructor | distrib/aladin-0.1.js:1824-1832 | 1000 unused slots, pointer 0, empty map |
| DistribAladin01.TileBuffer.GetTile | distrib/aladin-0.1.js:1856-1859 | a slot found holds the url; for every url but "null" a slot is found exactly when one holds it |
| DistribAladin01.TileBuffer.AddTile | distrib/aladin-0.1.js:1834-1854 | a url in the map gives null and changes nothing; otherwise the key of the old url is deleted unconditionally, the slot takes the url and the pointer wraps at 1000 |
| DistribAladin01.NullUrlForgotten | distrib/aladin-0.1.js:1841-1843 | a tile whose url is the string "null" is dropped from the map when an unused slot is recycled, although its slot still holds it |
| DistribAladin01.DecimalPrecFraction | distrib/aladin-0.1.js:942-943 | the precision of a decimal number is the length of its fraction |
| DistribAladin01.SexaPrecWhole | distrib/aladin-0.1.js:955-960 | whole sexagesimal fields give precision 1, 3 and 5 for one, two and three fields |
| DistribAladin01.SexaSumThree | distrib/aladin-0.1.js:950-962 | three fields add up as d·3600 + m·60 + s seconds |
| DistribAladin01.SexaSumTooMany | distrib/aladin-0.1.js:953 | a fourth field multiplies by an undefined factor, so the value is NaN |
| DistribAladin01.SexaSnoc | distrib/aladin-0.1.js:950-962 | each field adds its value times its factor and sets the precision by the `switch` |
| DistribAladin01.SignIndex | distrib/aladin-0.1.js:920-921 | the split point is the first '+', or failing one the first '-', or -1 when there is neither |
| DistribAladin01.LatSignSymmetric | distrib/aladin-0.1.js:973-979 | a leading '+' and a leading '-' give opposite latitudes of the same precision |
| DistribAladin01.LatSignOtherwiseMinus | distrib/aladin-0.1.js:973-974 | any first character other than '+' is read as a minus sign and dropped |
| DistribAladin01.CooOf | distrib/aladin-0.1.js:919-933 | a string with no sign gives NaN for both angles and precision 0 |
| DistribAladin01.Coo.constructor | distrib/aladin-0.1.js:778-784 | a new coordinate holds the given longitude, latitude and precision; a missing angle is NaN and a missing precision 0 |
| DistribAladin01.Coo.Parse | distrib/aladin-0.1.js:919-933 | `parse` sets longitude, latitude and precision to `CooOf` of the string |
| DistribAladin01.Coo.ParseLon | distrib/aladin-0.1.js:938-966 | `parseLon` returns and records `LonOf`: a decimal number of degrees, or hours, minutes and seconds times 15/3600 |
| DistribAladin01.Coo.ParseLat | distrib/aladin-0.1.js:971-1000 | `parseLat` returns and records `LatOf`: the signed decimal or sexagesimal degrees |
| DistribAladin01.ReadSexagesimal | distrib/aladin-0.1.js:946-963 | the tokenizer loop sums the fields of the trimmed text in seconds and keeps the precision of the last `switch` |
| AladinView.FoVRange | src/js/View.js:341-349 | the new minimum is never 0: a missing or zero minimum becomes 1/36000 degree |
| AladinView.FoVRangeOrdered | src/js/View.js:342-349 | two bounds given in either order are stored as minimum and maximum |
| AladinView.ClampFovBounds | src/js/View.js:1546-1560 | the clamped field of view respects the maximum, and the minimum when it does not exceed the maximum; it exceeds the projection's only to reach the minimum; a field within the bounds is kept |
| AladinView.ClampFovIdempotent | src/js/View.js:1546-1560 | clamping an already clamped field of view changes nothing |
| AladinView.FoVWithinRange | src/js/View.js:341-353 | after `setFoVRange` with two bounds, the field of view lies between them |
| AladinView.ForcedNorder | src/js/View.js:1622-1632 | the displayed order is the backend's order, raised to 3 exactly when the field of view is at most 50 degrees and the order at most 2 |
| AladinView.View.constructor | src/js/View.js:160-233 | a view starts with no layer, empty, with minimum field of view 1/36000, no maximum, and orders 1 |
| AladinView.View.SetFoVRange | src/js/View.js:341-353 | the bounds become `FoVRange` of the arguments and the current field of view is clamped into them; the layers are untouched |
| AladinView.View.SetZoom | src/js/View.js:1546-1617 | the field of view becomes the clamped one and the orders are recomputed from it |
| AladinView.View.ComputeNorder | src/js/View.js:1622-1632 | the real order is the backend's and the current order is `ForcedNorder` of it |
| AladinView.View.SelectLayer | src/js/View.js:538-545 | a layer the view has becomes selected; any other name leaves the selection |
| AladinView.View.AddLayer | src/js/View.js:1653-1676 | a new name is pushed on top of the stack and selected; an existing name keeps its place and the selection, and its previous image layer is marked not added; the layers stay consistent |
| AladinView.View.RenameLayer | src/js/View.js:1762-1786 | renaming to the same name does nothing; an unknown name is refused; otherwise the name changes in place, the image layer moves to the new key and the selection follows |
| AladinView.View.SwapLayers | src/js/View.js:1788-1802 | two layers of the stack exchange their places and nothing else changes; otherwise the backend refuses |
| AladinView.View.RemoveImageLayer | src/js/View.js:1804-1847 | an unknown layer changes nothing; otherwise it leaves the map and the stack, the view becomes empty with the last layer, the top layer is selected in place of a removed selected one, and the default survey is set when nothing is pending and the view is empty |
| AladinView.RemovedLayers | src/js/View.js:1820-1836 | removing a layer and reselecting the top one keeps the stack and the map consistent |
| AladinView.RenamedLayers | src/js/View.js:1762-1786 | renaming to a fresh name keeps the layers consistent; renaming onto another name of the stack leaves that name twice |
| AladinCatalog.FirstDesignated | src/js/Catalog.js:227-237 | the first field whose truthy ID or name equals the string, or none exactly when no field has it |
| AladinCatalog.GivenColumn | src/js/Catalog.js:226-251 | a given column resolves below the number of fields; a name resolves to a field it designates |
| AladinCatalog.RaFlags | src/js/Catalog.js:259-266 | one flag per field, set when the field looks like a right ascension column to the heuristic |
| AladinCatalog.DecFlags | src/js/Catalog.js:269-276 | one flag per field, set when the field looks like a declination column to the heuristic |
| AladinCatalog.ScanNothing | src/js/Catalog.js:253-301 | a pass over fields that no heuristic recognises finds nothing new |
| AladinCatalog.ScanFirst | src/js/Catalog.js:253-301 | the pass finds the first recognised right ascension and declination columns when neither is column 0 |
| AladinCatalog.ScanSkipsColumnZero | src/js/Catalog.js:259-263 | a right ascension found at the falsy column 0 is replaced by a later one |
| AladinCatalog.GivenColumnsFirst | src/js/Catalog.js:226-251 | columns given by index or name take precedence when both resolve |
| AladinCatalog.UcdColumns | src/js/Catalog.js:253-278 | without given columns, the first columns with UCDs `pos.eq.ra` and `pos.eq.dec` are taken |
| AladinCatalog.NameColumns | src/js/Catalog.js:281-302 | without given columns or position UCDs, the first columns named like a right ascension and a declination are taken |
| AladinCatalog.HalfFoundFallsBack | src/js/Catalog.js:281-308 | with one column found and the other not, the name pass is skipped and columns 0 and 1 are returned |
| AladinCatalog.LastResort | src/js/Catalog.js:304-308 | with nothing recognised, the first two columns are taken |
| AladinCatalog.FindGivenField | src/js/Catalog.js:227-237 | the search loop computes `GivenColumn` |
| AladinCatalog.ScanFields | src/js/Catalog.js:253-301 | the loop of one heuristic computes its `Pass` |
| AladinCatalog.FindRADecFields | src/js/Catalog.js:221-311 | `findRADecFields` computes `FindRADec`: given columns, then UCDs, then names, then columns 0 and 1 |
| AladinCatalog.UnderscoredChars | src/js/Catalog.js:323 | every space of the key becomes an underscore, every other character is kept |
| AladinCatalog.ParsedFails | src/js/Catalog.js:320-323 | parsing throws exactly when a field has neither a truthy name nor an ID |
| AladinCatalog.ParsedCovers | src/js/Catalog.js:320-341 | every field is stored under its entry name |
| AladinCatalog.ParsedLastWins | src/js/Catalog.js:326-338 | each entry holds the key and index of the last field stored under it |
| AladinCatalog.RaEntry | src/js/Catalog.js:326-338 | the right ascension column is stored under 'ra' unless a later field is keyed 'ra' |
| AladinCatalog.KeyFields | src/js/Catalog.js:318-343 | the `forEach` loop computes `ParsedPrefix` of all fields |
| AladinCatalog.ParseFieldsOf | src/js/Catalog.js:314-344 | `parseFields` locates the columns, then keys the fields |
| AladinCatalog.Source.constructor | src/js/Catalog.js:482-496 | a source carries what the catalogue reads of it: its data keys and its position |
| AladinCatalog.DataFields | src/js/Catalog.js:481-484 | one field per data key of the first source |
| AladinCatalog.DataFieldsKeyed | src/js/Catalog.js:481-486 | a field made from a data key has a key exactly when the data key is not empty |
| AladinCatalog.IndexOfSource | src/js/Catalog.js:645 | the first position of the source, or none exactly when it is absent |
| AladinCatalog.AppendedColumnar | src/js/Catalog.js:490-497 | appending keeps one right ascension and one declination per source |
| AladinCatalog.RemovedColumnar | src/js/Catalog.js:644-657 | removing keeps the columns in step, one source fewer when present |
| AladinCatalog.RemoveUndoesAdd | src/js/Catalog.js:470-657 | adding a source not held and then removing it restores the catalogue |
| AladinCatalog.SourceAt | src/js/Catalog.js:599-606 | a source is returned exactly for an index inside the list, and it is the one there |
| AladinCatalog.SourceAtAppended | src/js/Catalog.js:490-606 | after adding, each added source is found at its index after the old ones |
| AladinCatalog.PushPositions | src/js/Catalog.js:490-497 | the loop appends the sources and pushes their positions, giving `Appended` |
| AladinCatalog.Catalog.constructor | src/js/Catalog.js:90-131 | a catalogue starts with no sources, no fields and the given column references |
| AladinCatalog.Catalog.AddSources | src/js/Catalog.js:470-500 | no sources changes nothing; a catalogue without fields takes them from the first source's data keys and fails, unchanged, when one is empty; then the sources are appended with their positions |
| AladinCatalog.Catalog.Remove | src/js/Catalog.js:644-657 | the first occurrence of the source leaves the three arrays at one index; an absent source changes nothing |
| Samp.GetSampType | src/js/libs/samp.js:45-58 | strings, arrays and objects have a SAMP type, strings being strings and arrays lists; anything else throws |
| Samp.ReplaceAllAbsent | src/js/libs/samp.js:115-117 | a global replace of a character the string lacks keeps the string |
| Samp.EscapeXmlPerChar | src/js/libs/samp.js:114-118 | with '&' replaced first, the three passes escape each character once, as a per-character escape does |
| Samp.AmpersandLastDoubleEscapes | src/js/libs/samp.js:114-118 | replacing '&' last would escape the entity of '<' a second time |
| Samp.UnescapeEscaped | src/js/libs/samp.js:114-118 | decoding the per-character escape gives the text back |
| Samp.EscapeXmlSound | src/js/libs/samp.js:114-118 | escaped text holds no '<' or '>' and decodes back to the text |
| Samp.ValueToXmlLegal | src/js/libs/samp.js:154-199 | the encoding succeeds exactly for values made of strings, lists and maps all the way down |
| Samp.ItemsXmlLegal | src/js/libs/samp.js:171-173 | the items of a list encode exactly when each is a SAMP object |
| Samp.MembersXmlLegal | src/js/libs/samp.js:184-191 | the members of a map encode exactly when each value is a SAMP object |
| Samp.StringToXml | src/js/libs/samp.js:160-165 | a string becomes one `<value><string>` line whose content has no markup and decodes to the string |
| Samp.ValueToXmlOf | src/js/libs/samp.js:154-199 | the recursive encoder with its loops and joins computes `ValueToXml` |
| Samp.FirstUnknown | src/js/libs/samp.js:127-134 | the first type name that is not a SAMP type, or none exactly when all are |
| Samp.ActualTypes | src/js/libs/samp.js:135-140 | the SAMP type name of each parameter, or the error of the first parameter without one |
| Samp.CheckParamsOk | src/js/libs/samp.js:125-150 | the parameters pass exactly when there are as many as types and each has the type at its place |
| Samp.FindUnknownType | src/js/libs/samp.js:127-134 | the first loop finds `FirstUnknown` of the type list |
| Samp.ActualTypesOf | src/js/libs/samp.js:138-140 | the second loop computes `ActualTypes` |
| Samp.CheckParamsOf | src/js/libs/samp.js:125-150 | `checkParams` as written computes `CheckParams` |
| Samp.SameTypes | src/js/libs/samp.js:141-144 | the last loop accepts exactly equal type lists |
| Samp.WildcardPrefix | src/js/libs/samp.js:1241-1243 | a match gives the part before a trailing ".*", free of line terminators |
| Samp.IsSubscribed | src/js/libs/samp.js:1231-1258 | the loop over the keys answers `Subscribed` |
| Samp.WildcardCovers | src/js/libs/samp.js:1232-1250 | "p.*" covers every type starting with p, and "*" every type |
| Samp.ExactOnly | src/js/libs/samp.js:1232-1250 | a pattern without wildcard covers only its own type |
| Samp.CalculateSubscriptions | src/js/libs/samp.js:934-941 | an empty map under each message type a handler exists for, and nothing else |
| Samp.TrackerSubscribesToItsEvents | src/js/libs/samp.js:934-987 | a tracker's subscriptions cover exactly the hub events it handles |
| Samp.UnregisterForgets | src/js/libs/samp.js:967-973 | unregistering forgets the client's id, metadata and subscriptions and leaves every other client as it was |
| Samp.RegisterThenUnregister | src/js/libs/samp.js:962-985 | a new client that registers, declares metadata and subscriptions, then unregisters, leaves no trace |
| Samp.ClientTracker.constructor | src/js/libs/samp.js:949-987 | a tracker starts with no client known and its connection open |
| Samp.ClientTracker.ReceiveNotification | src/js/libs/samp.js:880-892 | a notification is handled exactly when its type has a tracker handler, the state is updated by `Recorded`, and shutdown or disconnect closes the connection |
| Samp.ClientTracker.SetRegisteredClients | src/js/libs/samp.js:1003-1010 | the registered ids become the list the hub returns |
| HipsProperties.TileSizeIsPowerOfTwo | src/js/HiPS.js:35-48 | the intended tile size is always a power of two, and it is the width itself when the width is one |
| HipsProperties.ResetAsWrittenIsOddTest | src/js/HiPS.js:43-45 | the guard as written fires exactly when the truncated width is odd and the width is not 1 |
| HipsProperties.PowerOfTwoTest | src/js/HiPS.js:42-45 | the test the comment means, `n & (n - 1)` for a 32-bit width, is 0 exactly on the powers of two |
| HipsProperties.AsWrittenAgreesOnPowersOfTwo | src/js/HiPS.js:35-48 | on a power-of-two width the guard as written does not fire, so both versions agree |
| HipsProperties.WidthNotPowerOfTwoKept | src/js/HiPS.js:36-45 | a width of 384 passes the guard as written, while the intended test gives 512 |
| HipsProperties.CooFrame | src/js/HiPS.js:51-57 | the frame is never empty, and it is "ICRSd" for a planetary body |
| HipsProperties.NumberDefaults | src/js/HiPS.js:67-104 | the minimum order and the sky fraction are 0 exactly when the property gives no usable number |
| HipsProperties.InitialFovBounds | src/js/HiPS.js:84-95 | the initial field of view is never below the minimum, keeps the property's value otherwise, and is missing exactly when the property gives no number |
| HipsProperties.CutoutsOfPair | src/js/HiPS.js:106-116 | a cut property "min max" gives both numbers |
| HipsProperties.Formats | src/js/HiPS.js:76-82 | there is always at least one format |
| HipsProperties.FormatsSplit | src/js/HiPS.js:76-82 | the formats joined with spaces give the lower-cased raw value back; no format holds a space or an ASCII upper-case letter; without the property the offer is "jpeg" alone |
| HipsProperties.FirstOffered | src/js/HiPS.js:397-404 | the first preferred format on offer, or none exactly when none is offered |
| HipsProperties.PreferredFormat | src/js/HiPS.js:395-411 | with no request, the first of webp, png, jpeg, fits on offer is chosen, and the parse throws exactly when none is |
| HipsProperties.RequestedFormatChecked | src/js/HiPS.js:355-394 | a request, lower-cased with "jpg" read as "jpeg", is honoured exactly unless it is a checked format missing from the offer |
| HipsProperties.SelectedFormatOffered | src/js/HiPS.js:355-411 | whatever the request, a chosen checked format is on offer |
| HipsProperties.NormalisedFrame | src/js/HiPS.js:427-444 | the frame ends as ICRS or GAL, GAL exactly for "galactic" and "GAL" |
| HipsProperties.ParsedLayer | src/js/HiPS.js:290-446 | after a successful parse the format is chosen and offered when checked, the tile size is what `PropertyParser.tileSize` as written gives, the width itself whenever that is a power of two, the frame is ICRS or GAL, and a planetary body has ICRS with reversed longitudes |
| HipsProperties.ParseFailsOnFormatOnly | src/js/HiPS.js:290-411 | the parse throws exactly when the format choice fails, and the fields read before the check are set either way |
| HipsProperties.ParsedEmptyProperties | src/js/HiPS.js:290-446 | an empty properties file gives tile size 512, the "jpeg" offer, the ICRS frame, no initial field of view and, with no request, jpeg |
| HipsProperties.PutLookup | src/js/HiPS.js:209-221 | filing a tile changes what is filed under its key and nothing else |
| HipsProperties.IndexedTiles | src/js/HiPS.js:203-233 | under every key the index holds the last tile file of the list with that key, and nothing when there is none |
| HipsProperties.IndexedNamedFiles | src/js/HiPS.js:224-230 | the properties and MOC entries are the last files whose paths name them |
| HipsProperties.IndexLocalFiles | src/js/HiPS.js:203-233 | the loop over the file list computes `IndexFiles` |
| HipsProperties.HiPS.constructor | src/js/HiPS.js:203-249 | the fields come from the options, minimum order 0 and longitudes not reversed by default, a local folder is indexed, an index given as an object is kept as is, and a URL has no local files |
| HipsProperties.HiPS.ParseProperties | src/js/HiPS.js:290-446 | `_parseProperties` leaves the fields and the error `ParsedProperties` gives |
| HipsProperties.HiPS.ReadTiling | src/js/HiPS.js:296-309 | the orders, the tile size of `PropertyParser.tileSize` as written and the formats are read, the orders falling back to the current value |
| HipsProperties.HiPS.ReadSky | src/js/HiPS.js:312-344 | the frame, sky fraction and initial field of view are read, and a planetary body reverses longitudes |
| HipsProperties.HiPS.ChooseFormat | src/js/HiPS.js:355-446 | the format is chosen against the offer, then the frame normalised and the formats defaulted |

## Left out

- Everything drawn or uploaded is left out: WebGL, shaders, vertex buffers, `send_to_gpu` and image decoding. Textures are modelled by the cell and the slot they hold. texture.rs and cell.rs are not part of this model.
- The floating-point sphere and projection math is left out. The camera depth `depth_from_pixels` computes is the `cameraDepth` parameter of `Survey.ViewDepth`.
- `Survey.NumSubdivision`: the count for cells deeper than 1 depends on a floating-point deformation measure, which is a parameter.
- `Survey.NewSurvey`: `ImageSurvey` objects are modelled as values in a map, not as shared objects, so aliasing between surveys is not captured.
- `HealpixJs.HealpixIndex.XyfToNestValue`: orders are bounded by 14 (`ORDER_MAX`). Shift counts are taken modulo 32, as JavaScript does.
- `HealpixJs.NestedDisc`: only the de-duplication of the nested output of `queryDisc` is modelled. The disc search uses trigonometry and is left out.
- `DistribAladin.Downloader.RequestDownload`: the image element, its `onload`/`onerror` callbacks, CORS and fading are left out. A download completes when `CompleteDownload` is called.
- `HpxCell.Pop`, `SurveyBuffer.ImageSurveyTextures.Push`, `Hips2DBuffer.HiPS2DBuffer.Push`: among textures of equal age the one popped or evicted is the model's choice (the first in the heap sequence); Rust's `BinaryHeap` may return another of them, so which equally old texture leaves is not modelled.
- `JsStrings.Lower` and `JsStrings.LowerString`: `toLowerCase` is modelled on the ASCII letters only; other characters are kept, while JavaScript also lower-cases non-ASCII letters ("É" to "é"). What their users state holds for ASCII text: `DistribAladin.FrameFromStringIgnoresCase`, the lower-cased UCDs and names of `AladinCatalog.UcdColumns` and `AladinCatalog.NameColumns`, `HipsProperties.RequestedFormatChecked` and `HipsProperties.FormatsSplit`.
- `DistribAladin01.Coo.constructor`: `undefined` arguments are passed as NaN angles and precision 0, and the direction cosines `computeDirCos` derives are not modelled.
- `DistribAladin.LRUCache.Get`: a hit is any cached item; JavaScript's truthiness test on the item (a cached 0 or "" counts as a miss) is not modelled.
- `DistribAladin.LRUCache.Set`: the sort is modelled as a stable sort by descending expiry; an engine whose sort is not stable may order keys of equal expiry differently and so evict another of the equally old keys.
- `DistribAladin01.Coo.Parse`: the cartesian fields x, y, z and the formatting functions of `Coo` are left out.
- `DistribAladin.FrameFromString`: only string arguments are modelled; a non-string `str` is not.
- Infinity is not a value of the `Num` type; NaN and finite values are.
- `AladinView.View.SetZoom`: the backend is assumed to keep the field of view it is given. Its own clamping, the `fovX`/`fovY` event and the throttled callbacks are left out.
- `AladinView.View.RemoveImageLayer`: the backend call `removeLayer`, the `added` flag of the removed object and the pending-promise list are left out. Whether promises are pending is the `noPendingLayers` parameter.
- `AladinView.View.AddLayer`: the `HIPS_LAYER_ADDED` event and the other DOM events are left out.
- `AladinCatalog.Catalog.AddSources`: a single source not wrapped in an array, `setCatalog` and `reportChange` are left out. Sources carry only their position and data keys.
- `AladinCatalog.Catalog.Remove`: `deselect` of the removed source is left out; src/js/Source.js is not part of this model.
- `Samp.ClientTracker.ReceiveNotification`: the XML-RPC transport, the hub connection, XHR and the `onchange` callback are left out. Closing the connection is a flag.
- `Samp.ClientTracker.SetRegisteredClients`: the asynchronous `retrieveInfo` calls that fill metadata and subscriptions are left out, and so is `getName`.
- `HipsProperties.HiPS.ParseProperties`: the name, `creatorDid`, the colour cuts, `initialRa`/`initialDec`, `hipsBody`, `_saveInCache` and `_fetchFasterUrlFromProperties` are left out.
- `HipsProperties.HiPS.ParseProperties`: falsy results such as 0 and NaN read as absent, so the difference between them is not kept. The number 0 and −0 are one key of the tile index.
- `HipsProperties.HiPS.constructor`: a location given as a plain object is taken to be an index of local files (`Index`) and kept as is; its shape is not checked, as JavaScript does not check it either.
- `HipsProperties.HiPS.ChooseFormat`: the final `formats || [imgFormat]` never applies, since `formats` always holds at least one format after parsing. It is modelled and its fallback is unreachable.
- `HealpixBigBackup.WrapRange`, `HealpixBigBackup.JsRem` and `HealpixBigBackup.Clip` are stated for finite Numbers as exact reals. NaN and infinite operands and the rounding of floating-point `%` are not modelled.
- `HealpixBigBackup.NestToFxy`: `Number(ipix)` rounds an index above 2^53 − 1, which the model takes exactly, so `HealpixBigBackup.FxyNestRoundTrip` is stated only up to 2^53 − 1. At order 25 the source's round trip can miss above that bound.
- `Survey.AddGridIndices`: the offset and the indices are `u16` values. Beyond 65536 vertices the `as u16` casts truncate, and the `u16` sum panics in a debug build and wraps in a release build. The model covers only grids whose vertices all have a `u16` index.
- `Hips2DBuffer.RootTilesUpdate`: the `u8` root counter wraps, as a release build does; a debug build panics on the overflow instead.
- `DistribAladin.Downloader.CompleteDownload`: the source deletes the key `img.src`, the url as the browser normalises it. The model deletes the url as it was requested, so it assumes urls are already normalised.
- `DistribAladin.TileBuffer.AddTile`, `DistribAladin.Downloader.RequestDownload` and `Samp.ClientTracker.ReceiveNotification`: plain objects used as dictionaries are modelled as maps. JavaScript's `in` also finds keys inherited from `Object.prototype`, such as "toString", which the model does not.
- `AladinCatalog.Source.constructor`: src/js/Source.js is not part of this model. A source is modelled by what Catalog.js reads of it: its position and the keys of its data.
- The near-copies of the property parsing in src/js/ImageHiPS.js and src/js/ImageSurvey.js are not part of this model.

## Findings

| source | as written | input that shows it | evidently intended | confidence | as-written member | corrected member |
|---|---|---|---|---|---|---|
| healpixBig.js:460-477 | `bit_combine` asserts `x < (1 << 26n)`, shifting the Number 1 by a BigInt | any call, e.g. `bit_combine(0n, 0n)`, throws a TypeError; `fxy2nest` calls a bare `bit_combine`, which is not in scope, and throws a ReferenceError | the interleaving of healpixBigBackup.js, which inverts `bit_decombine` | not executed | HealpixBig.BitCombineAlwaysThrows | HealpixBigBackup.DecombineCombine |
| src/js/libs/healpix.js:398-409 | `xyf2nest` adds `face << 2*order` in 32-bit arithmetic | order 14, face 8: 8 << 28 wraps to a negative number | the exact nested index face·4^order + interleave(ix, iy) | not executed | HealpixJs.HealpixIndex.XyfToNestOverflows | HealpixJs.ExactNestXyfRoundTrip |
| src/js/libs/healpix.js:146-154 | `appendRange` skips i when `i in items`, which tests an array index | items [5], range 0..0: 0 is not added | skip i only when it is already a value of the items | not executed | HealpixJs.AppendedRangeSkipsIndices | HealpixJs.AppendedValuesSpec |
| src/js/libs/healpix.js:502-511 | `nside2Npix` throws "nside should be > 0" but lets 0 through | nside 0 returns 0 | reject nside ≤ 0 | not executed | HealpixJs.Nside2NpixZero | HealpixJs.Nside2NpixCheckedSpec |
| src/js/HiPS.js:42-45 | `tileSize & (tileSize - 1 !== 0)` ands the width with a boolean, so it tests oddness | width 384 is kept | fall back to 512 unless the width is a power of two | not executed | HipsProperties.WidthNotPowerOfTwoKept | HipsProperties.TileSizeIsPowerOfTwo |
| distrib/2014-04-24/aladin.js:2137-2152 | `set` appends the key to the key list even when it is already cached | capacity 2: set "a", set "a", set "b" evicts "a" and leaves one item in a full cache | update a cached key in place | not executed | DistribAladin.SetAsWrittenDuplicates | DistribAladin.SetFixedSpec |
| distrib/aladin-0.1.js:1841-1843 | `addTile` deletes the key of the recycled tile's url even when it is null, which deletes the key "null" | a tile with url "null" is forgotten when an unused slot is recycled | delete only the key of a tile that holds a url, as the 2014 bundle does | not executed | DistribAladin01.NullUrlForgotten | DistribAladin.TileBuffer.AddTile |

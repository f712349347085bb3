# Verified models of libvncserver

Dafny models of the algorithms in libvncserver that carry data from one end of a VNC connection to the other, and proofs
of what they promise.

- **ZYWRLE** (`Grid`, `Zywrle*`): the in-place wavelet codec of the server and the client. The transform is
  self-inverse on the odd range, the filter may run last, four strided walks pack every coefficient once, no stage
  leaves the range and granularity that 15 and 16 bit pixels can hold, and synthesis of an analysed tile is known pixel by
  pixel.
- **DES for VNC authentication** (`Integers`, `DesTables`, `D3Des`, `DesRegister`, `DesComplement`, `Fips463`, `DesBits`,
  `DesBoxes`, `DesStandard`, `VncAuth`): key schedule, swap-move permutations, Feistel rounds, block loops, chaining and
  password storage, with inversion and complementation, and the proof that the code is, bit for bit, the cipher of FIPS 46-3
  (and sections 6.1 and 6.2 of NIST SP 800-38A).
- **SHA-1** (`Sha1Spec`, `Sha1`, `Sha1Vector`): the streaming context refines the one-shot hash of FIPS 180-3, for any
  division of the input.
- **Base64** (`Base64*`): the encoder, and the four-state decoder that is exactly its inverse (RFC 1521 and RFC 4648).
- **Reader** (`Reader`): the exact reader over short reads, retries and SASL chunks, one call and whole runs of calls.
- **Rectangles** (`Octets`, `Canvas`, `Pictures`, `Subrects`, `Connection`, `UpdateBuffer`, `Hextile*`, `Rre*`, `Rectangles`,
  `RawServer`, `Update*`): the raw, hextile, RRE and CoRRE encoders of the server and decoders of the client, each proved on
  its own and then against the other, up to a whole framebuffer update: what the server sends, the client turns back into the
  same pixels (sections 7.7.1, 7.7.3 and 7.7.4 of RFC 6143).
- **Cursor, Pnm, Rotate**: in-place unpacking, expansion, padding and permutation of pictures.

Code that works on arrays and records in place is modelled by methods and classes, each proved against a function or a
predicate on values; the theorems are lemmas about those.

Places where the code and what one would expect of it differ, each with an input and, where it depends on one, the exact
condition:

- `Harr` is not its own inverse on all signed bytes. `ZywrleHarr.SelfInverse` gives the exact condition. The odd range to
  which the colour conversion confines coefficients is what makes the codec work.
- `ZYWRLE_ANALYZE` reuses `pData` in `ZYWRLE_LOAD_UNALIGN` before `INC_PTR` relies on it, so a tile with a border that lies in
  a wider image is packed with the wrong row length. `ZywrleLayout.LayoutAgrees` says exactly when; `BorderShown`,
  `BorderDisplaced`, `BottomDisplaced` and `CoefficientDisplaced` say what a decoder shows then. The server's only call has the row length of the tile
  (zrleencodetemplate.c:293), so its tiles are packed as they should be.
- By the hextile comment of `rfbproto.h`, a tile without a foreground has that of the last tile, and coloured tiles specify
  none. The client's variable also receives the colours of coloured subrectangles. `HextileTiles.DecodesPicture` shows that a
  stream which depicts a picture by the comment decodes to it if and only if no tile takes over a foreground that is lost in
  this way (`FgKept`); `HextileRoundTrip.ForegroundLost` is a stream that fails, and the server's encoder sends none.
- `bytebit` takes the bits of a key byte in the opposite order: VNC's cipher under a key is DES under the mirrored key
  (`DesStandard.DesIsStandard`, `MirrorIs`).
- `HandleCursorShape` knows pixels of one, two and four bytes. At other sizes, such as the three bytes of 24-bit formats, an
  XCursor leaves its index bytes in memory: `Cursor.WhitePixel` and `ColoursShownIff`.
- The client counts its retries against a product that wraps around: beyond 4294 seconds a timeout grants fewer tries than ten
  a second (`Reader.TenTriesASecond`).
- `hash_sha1` hands its `size_t` length on as an `unsigned`: from 2^32 bytes on it hashes only a first part
  (`Sha1.HandedOnWhole`).
- In the default configuration (CMakeLists.txt:306-307) server and client can agree on pixels of three bytes, for which the
  switches over the pixel size have no case. `Canvas.Supported` is the condition (1, 2 or 4 bytes). Without it the server
  refuses RRE and hextile, raw pixels go out and are never shown, and for CoRRE, whose encoder always reports success
  (corre.c:71), the update announces rectangles of which none goes out: `UpdateServer.SendUpdate`, `NeverShown`,
  `OnePixelLost`. With it the update as a whole does notice a failure, when it flushes its buffer. `ConveyableIff` says that
  screens can be conveyed at just the supported sizes.
- The number of rectangles has 16 bits, and 0xFFFF stands for an unknown number. An update with exactly 0xFFFF rectangles is
  shown, but the marker behind it stays unread; with more, rectangles do. `UpdateServer.Taking` and `Deliver` show that all of
  an update is taken up if and only if there are fewer than 0xFFFF; `ManyRectangles` are regions that fail.
- Without a target, `__b64_pton` accepts texts that it refuses with one: exactly those with bits left over
  (`Base64Decoder.MeasuredDecodes`, `LeftOver`).

Check everything with `dafny verify dfyconfig.toml`.

## Model

| member | source | states |
|---|---|---|
| ZywrleHarr.SelfInverse | libvncserver/src/common/zywrletemplate.c:313-335 | The step undoes itself on all pairs of signed bytes but those with X1 = -128 and X0 not negative, and exactly there it fails |
| ZywrleHarr.SelfInverseFailure | libvncserver/src/common/zywrletemplate.c:313-335 | (0, -128) is a pair on which it fails |
| ZywrleHarr.StepExact | libvncserver/src/common/zywrletemplate.c:313-335 | In the odd range -127..127 nothing wraps: each result is the sum, the difference, or one of the two values up to its sign, and stays in the range |
| ZywrleHarr.PiecewiseLinear | libvncserver/src/common/zywrletemplate.c:313-335 | In the odd range the step is the piecewise-linear Haar step: of values of opposite sign it gives the sum and the larger magnitude with the sign of the first, of values of one sign the larger magnitude with that sign and the difference |
| ZywrleHarr.StepKeeps | libvncserver/src/common/zywrletemplate.c:313-335 | The step keeps the odd range and every granularity (1, 4 or 8) that both values have |
| ZywrleHarr.CellsSelfInverse | libvncserver/src/common/zywrletemplate.c:341-375 | On two cells of ranged coefficients, the three steps of a pair undo themselves |
| ZywrleHarr.HarrCell | libvncserver/src/common/zywrletemplate.c:341-375 | The three in-place calls for one pair change just those two cells, to the low and the high cell of the pair |
| ZywrleWavelet.WaveletLevel | libvncserver/src/common/zywrletemplate.c:357-375 | Along a line of any stride each disjoint pair is replaced by its low and high cell, and every cell outside the pairs stays |
| ZywrleWavelet.PassSelfInverse | libvncserver/src/common/zywrletemplate.c:357-377 | A pass over all rows or all columns undoes itself |
| ZywrleWavelet.PassKeeps | libvncserver/src/common/zywrletemplate.c:357-377 | A pass keeps ranges and granularity of all coefficients |
| ZywrleTransform.Wavelet | libvncserver/src/common/zywrletemplate.c:478-502 | The nested loops compute, in place, the transform with the filter interleaved at each level, and nothing behind the image changes |
| ZywrleTransform.InvWavelet | libvncserver/src/common/zywrletemplate.c:504-526 | The loops of the decoder compute the inverse levels in reverse order |
| ZywrleTransform.BackwardForward | libvncserver/src/common/zywrletemplate.c:478-526 | The inverse transform undoes the unquantised transform, for all aligned sizes, levels and ranged buffers |
| ZywrleTransform.ForwardBackward | libvncserver/src/common/zywrletemplate.c:478-526 | And the transform undoes the inverse transform |
| ZywrleTransform.ForwardKeeps | libvncserver/src/common/zywrletemplate.c:478-502 | The transform with any of the two quantisers keeps the odd range and the granularity of the pixel format |
| ZywrleTransform.BackwardKeeps | libvncserver/src/common/zywrletemplate.c:504-526 | So does the inverse transform |
| ZywrleDetail.LevelBlock | libvncserver/src/common/zywrletemplate.c:341-377 | A level turns each block of four cells into the coarse cell and the detail between its columns, between its rows and across, in these places |
| ZywrleDetail.FlatForward | libvncserver/src/common/zywrletemplate.c:478-502 | A picture of one colour has no detail at any level, under any quantiser |
| ZywrleDetail.OneColour | libvncserver/src/common/zywrletemplate.c:478-502 | Equal coefficients in all cells make such a picture |
| ZywrleFilter.QuantiseFacts | libvncserver/src/common/zywrletemplate.c:151-309 | Every entry of every table is a multiple of 8 in -120..120; quantising is idempotent, odd and keeps signs |
| ZywrleFilter.QuantiserIs | libvncserver/src/common/zywrletemplate.c:202-310 | For every level and channel, each value is quantised as the comment on the filter says (r = 2.0, bi = 5, bo = 5, 4, 2): squared, rounded to the levels that are left, and rounded back through the root, with its sign; or it becomes 0 |
| ZywrleFilter.BandWalk | libvncserver/src/common/zywrletemplate.c:450-475 | The strided walk of sub-band r meets only cells of that sub-band, at their ordinal |
| ZywrleFilter.BandWalkCovers | libvncserver/src/common/zywrletemplate.c:450-475 | And it meets every cell of the sub-band |
| ZywrleFilter.FilterWaveletSquare | libvncserver/src/common/zywrletemplate.c:450-475 | The pointer walk quantises exactly the cells of sub-bands 1 to 3 of its level, and no other cell |
| ZywrleFilterLast.FilterLast | libvncserver/src/common/zywrletemplate.c:450-501 | Filtering inside the level loop equals running all levels first and filtering each sub-band once afterwards |
| ZywrleColour.PackingLossless | libvncserver/src/common/zywrletemplate.c:99-138 | Packing a cell of the format's granularity into a 15, 16 or 32 bit pixel and unpacking it again gives the cell |
| ZywrleColour.RgbYuvFine | libvncserver/src/common/zywrletemplate.c:559-575 | The conversion to YUV yields ranged coefficients of the format's granularity, for every colour |
| ZywrleColour.PixelFields | libvncserver/src/common/zywrletemplate.c:99-125 | The channels that are loaded are the fields of the pixel as a little-endian number, at 15, 16 and 32 bits |
| ZywrleColour.StoredChannels | libvncserver/src/common/zywrletemplate.c:559-575 | At 32 bits the three bytes of a cell hold the luminance and the halved differences of blue and of red from green |
| ZywrleColour.RoundNearest | libvncserver/src/common/zywrletemplate.c:555 | The clamped value is the byte nearest to the value |
| ZywrleNear.ColourNear | libvncserver/src/common/zywrletemplate.c:555-587 | At 32 bits, YUV and back moves no channel by more than one, clamping and the -128 corrections included |
| ZywrleNear.PixelNear | libvncserver/src/common/zywrletemplate.c:555-587 | At every depth a pixel that is converted and back, and stored, is near to itself: within one per channel at 32 bits, within 16, two steps of a five-bit field, at 15 and 16 bits |
| ZywrleWalk.WalkCovers | libvncserver/src/common/zywrletemplate.c:626-642 | The walks r = 3, 2, 1 of each level and 0 of the last meet every cell of the image |
| ZywrleWalk.WalkOnce | libvncserver/src/common/zywrletemplate.c:626-642 | And no cell twice |
| ZywrleWalk.WalkLength | libvncserver/src/common/zywrletemplate.c:626-642 | The walk has as many steps as the image has cells |
| ZywrleWalk.WalkOrder | libvncserver/src/common/zywrletemplate.c:619-642 | The order of the sixteen cells of a tile of four by four at level 2 |
| ZywrleTransfer.Move | libvncserver/src/common/zywrletemplate.c:644-648 | One transfer between a cell and a pixel, in either direction, keeps the account of what has been moved |
| ZywrleTile.TransferCoeff | libvncserver/src/common/zywrletemplate.c:619-642 | The strided pointer loop with INC_PTR transfers exactly the next sub-band of the walk to or from the next slots of the stream |
| ZywrleTile.PointsAtNext | libvncserver/src/common/zywrletemplate.c:619-624 | INC_PTR leads from each slot of the stream to the next, over the ends of rows |
| ZywrleCodec.ConvertTile | libvncserver/src/common/zywrletemplate.c:711-749 | The colour loops convert exactly the aligned part of the tile to or from the first cells of the work buffer |
| ZywrleCodec.MoveBorder | libvncserver/src/common/zywrletemplate.c:659-699 | The three guarded blocks move exactly the border pixels, in order, to or from the spare cells, and leave pData behind them |
| ZywrleCodec.MoveSpare | libvncserver/src/common/zywrletemplate.c:650-657 | The spare cells go to or come from the end of the stream |
| ZywrleCodec.MoveWalk | libvncserver/src/common/zywrletemplate.c:775-782 | The level loop transfers the whole walk |
| ZywrleCodec.Analyze | libvncserver/src/common/zywrletemplate.c:753-785 | ZYWRLE_ANALYZE in place: the whole new tile and work buffer, the pointer behind the stream, and NULL with nothing changed when no part is aligned |
| ZywrleCodec.Synthesize | libvncserver/src/common/zywrletemplate.c:788-821 | ZYWRLE_SYNTHESIZE in place: the whole new tile and work buffer, the pointer behind the rows it read, and NULL with nothing changed when no part is aligned |
| ZywrleRoundTrip.AnalyzedAt | libvncserver/src/common/zywrletemplate.c:753-785 | Slot k of the stream holds the packed k-th cell of the walk, and the slots behind hold the border pixels |
| ZywrleRoundTrip.ReceivedAt | libvncserver/src/common/zywrletemplate.c:788-816 | A decoder that gets that stream has the encoder's coefficients and border, whatever was in its buffer |
| ZywrleRoundTrip.RoundTrip | libvncserver/src/common/zywrletemplate.c:753-821 | Every pixel after Synthesize of Analyze: the conversion of the restored coefficient in the aligned part, and exactly the original pixel in the border, for every tile size, level and depth and both row lengths |
| ZywrleRoundTrip.NearLossless | libvncserver/src/common/zywrletemplate.c:753-821 | With identity tables every pixel comes back near to itself at every depth: within one per channel at 32 bits, within 16 at 15 and 16 bits |
| ZywrleRoundTrip.AroundKept | libvncserver/src/common/zywrletemplate.c:788-821 | The decoder changes no pixel of the image around the tile |
| ZywrleLayout.LayoutAgrees | libvncserver/src/common/zywrletemplate.c:619-624 | The packed tile lies in the rows of the image if and only if it has no border or the image is as wide as the tile, because LOAD_UNALIGN has moved pData |
| ZywrleLayout.BorderShown | libvncserver/src/common/zywrletemplate.c:619-699 | Every border place of a packed tile, unpacked with any row length, shows the named pixel of the image |
| ZywrleLayout.BorderDisplaced | libvncserver/src/common/zywrletemplate.c:619-699 | For every tile with a right border in a wider image, the first border pixel comes back as another pixel, which is named |
| ZywrleLayout.BottomDisplaced | libvncserver/src/common/zywrletemplate.c:619-699 | Of a tile with only a bottom border in a wider image, exactly the border pixels that lie behind the packed tile come back; each other one is replaced by a named other pixel |
| ZywrleLayout.CoefficientDisplaced | libvncserver/src/common/zywrletemplate.c:619-699 | In a wider image the decoder puts a later coefficient in the place of each one behind the first row |
| ZywrleLayout.LayoutFailure | libvncserver/src/common/zywrletemplate.c:619-699 | A tile of 3 by 2 in an image four wide: its third pixel comes back as the pixel below, and a coefficient is packed beside the tile |
| DesRegister.Register.DesKey | libvncserver/src/common/d3des.c:82-116 | The loops over bit arrays load the register with the schedule of the key, for both directions |
| DesRegister.Register.Cookey | libvncserver/src/common/d3des.c:128-148 | The 6-bit fields of all sixteen raw keys are cooked into the register |
| DesRegister.DesFunc | libvncserver/src/common/d3des.c:334-407 | The round loop computes the permutations and sixteen Feistel rounds |
| DesRegister.DesBlock | libvncserver/src/common/d3des.c:151-160 | Eight bytes of one array, enciphered, replace eight bytes of another or of the same, and nothing else changes |
| D3Des.InitialFinal | libvncserver/src/common/d3des.c:387-403 | The swap-move steps of the final permutation are undone by the initial ones, up to the exchange of halves |
| D3Des.FinalInitial | libvncserver/src/common/d3des.c:342-358 | And the other way round |
| D3Des.SchedulesReversed | libvncserver/src/common/d3des.c:82-116 | The DE1 schedule is the pairwise reverse of the EN0 schedule, for every key |
| D3Des.RoundsUndone | libvncserver/src/common/d3des.c:360-385 | For any round function whatever, rounds with reversed keys on the exchanged halves undo rounds |
| D3Des.FeistelInverse | libvncserver/src/common/d3des.c:334-407 | With reversed schedules the whole of desfunc undoes itself for any round function, so whatever the tables |
| D3Des.DesInverse | libvncserver/src/common/d3des.c:151-160 | With reversed schedules, deciphering undoes enciphering for every block |
| DesComplement.Complementation | libvncserver/src/common/d3des.c:334-407 | Inverting every bit of key and block inverts the result, for all keys and blocks and both directions |
| DesComplement.ScheduleInverted | libvncserver/src/common/d3des.c:54-148 | The inverted key gives the inverted 6-bit fields in every round key |
| DesComplement.TopBitsIgnored | libvncserver/src/common/d3des.c:82-104 | Keys that differ only in the top bits of their bytes have the same schedule |
| DesBits.InitialBits | libvncserver/src/common/d3des.c:342-358 | The swap moves are the initial permutation IP of FIPS 46-3, bit by bit, but for a rotation of both halves |
| DesBits.FinalBits | libvncserver/src/common/d3des.c:387-403 | And the last ones are its inverse, on the exchanged halves |
| DesBoxes.FIsStandard | libvncserver/src/common/d3des.c:360-385 | The eight lookups are the cipher function of FIPS 46-3: selection E, S-boxes and permutation P |
| DesStandard.RoundKeyIs | libvncserver/src/common/d3des.c:82-148 | The cooked words of a round hold the key that PC-1, shifts and PC-2 of FIPS 46-3 give for it |
| DesStandard.DesIsStandard | libvncserver/src/common/d3des.c:82-160 | Enciphering and deciphering any block under any key is that of FIPS 46-3 under the mirrored key |
| DesStandard.MirrorIs | libvncserver/src/common/d3des.c:54-55 | The mirrored key has the bits of each byte in opposite order |
| VncAuth.CryptBlocks | libvncserver/src/common/crypto_included.c:54-78 | The block loop, in place or not, is electronic code book mode on the whole blocks and changes nothing else |
| VncAuth.Crypt | libvncserver/src/common/crypto_included.c:54-78 | Loading the key and running the loop: the new output, register and length |
| VncAuth.ModesInvertible | libvncserver/src/common/crypto_included.c:54-78 | Under the two schedules of a key, ECB and CBC are bijections on buffers of whole blocks, with decryption as the inverse |
| VncAuth.XorInto | libvncserver/src/common/vncauth.c:206-212 | Eight bytes in place become their exclusive or with a block |
| VncAuth.EncryptBytes2 | libvncserver/src/common/vncauth.c:203-215 | In place, CBC with the key as initial vector over the blocks that the loop visits, at least one |
| VncAuth.EncryptBytes | libvncserver/src/common/vncauth.c:183-201 | A challenge of 16 bytes becomes its ECB under the password, cut or padded to eight bytes |
| VncAuth.StoredPassword | libvncserver/src/common/vncauth.c:93-109 | The stored bytes are the padded password under the fixed key |
| VncAuth.LoadedPassword | libvncserver/src/common/vncauth.c:145-152 | The loaded bytes are the deciphered file and a terminator |
| VncAuth.PasswordRecovered | libvncserver/src/common/vncauth.c:93-152 | Loading what was stored gives back the first eight characters, or the whole password if it is shorter |
| Sha1.SHA1Context.Reset | libvncserver/src/common/sha1.c:80-98 | The empty message, with the initial hash |
| Sha1.SHA1Context.ProcessMessageBlock | libvncserver/src/common/sha1.c:250-323 | The four round loops compute the compression function of the standard |
| Sha1.SHA1Context.AddLength | libvncserver/src/common/sha1.c:53-58 | The 64-bit length in two words, with carry, and the error on overflow |
| Sha1.SHA1Context.Input | libvncserver/src/common/sha1.c:120-141 | The message grows by the input; the context keeps the fold of complete blocks, the bytes after them and the exact length; and every error code, that of a length which just overflows included |
| Sha1.SHA1Context.FinalBits | libvncserver/src/common/sha1.c:162-190 | Up to seven last bits: the tail byte, the length in bits, the hash, and every error code |
| Sha1.SHA1Context.PadMessage | libvncserver/src/common/sha1.c:380-413 | Both padding cases give the hash of the message padded as in section 5.1.1 of FIPS 180-3 |
| Sha1.SHA1Context.Result | libvncserver/src/common/sha1.c:212-229 | The digest of the standard's one-shot hash of all input so far; again the same on a second call |
| Sha1.HashSha1 | libvncserver/src/common/crypto_included.c:36-47 | hash_sha1 is SHA-1 of as much of its input as a 32-bit length says, which is all of it below 2^32 bytes |
| Sha1.HandedOnWhole | libvncserver/src/common/crypto_included.c:41 | That part is the whole input if and only if it is shorter than 2^32 bytes |
| Sha1.HashParts | libvncserver/src/common/sha1.c:80-229 | A run of the context: reset, input in any division, up to seven last bits, result: the one-shot hash of the joined input |
| Sha1Spec.ModifiedMacros | libvncserver/src/common/sha-private.h:13-24 | Both forms of Ch and Maj are equal |
| Sha1Spec.TailBits | libvncserver/src/common/sha1.c:162-190 | The tail byte is the last bits, a one and zeros |
| Sha1Spec.LengthWords | libvncserver/src/common/sha1.c:402-411 | The eight stored bytes are the big-endian 64-bit length |
| Sha1Vector.Abc | libvncserver/src/common/sha1.c:250-323 | The digest of "abc" is the published one (appendix A.1 of FIPS 180-2), through all 80 schedule words and rounds |
| Base64.Ntop | libvncserver/src/common/base64.c:125-181 | The target receives the encoding and its terminator and nothing behind it changes; -1 exactly when they do not fit |
| Base64Spec.SymbolIs | libvncserver/src/common/base64.c:58-59 | The 64 characters are those of table 1 of RFC 4648 |
| Base64Spec.TestVectors | libvncserver/src/common/base64.c:125-181 | Three test vectors of section 10 of RFC 4648, one for each kind of padding |
| Base64Spec.DecodesIff | libvncserver/src/common/base64.c:125-315 | A text decodes to a byte string if and only if it is its encoding |
| Base64Machine.DecodeAfter | libvncserver/src/common/base64.c:205-265 | What the state after any symbols says about every possible rest of the text |
| Base64Decoder.Step | libvncserver/src/common/base64.c:218-261 | One state of the switch, with its bounds checks, keeps what the machine holds |
| Base64Decoder.Padding | libvncserver/src/common/base64.c:270-305 | After a padding character it accepts exactly the right padding, white space and zero spare bits |
| Base64Decoder.Pton | libvncserver/src/common/base64.c:189-315 | The number and the bytes that the text without white space stands for, or -1 |
| Base64Decoder.AcceptsIff | libvncserver/src/common/base64.c:189-315 | It accepts exactly the texts that, without white space, are the encoding of a byte string that fits the target |
| Base64Decoder.RoundTrip | libvncserver/src/common/base64.c:125-315 | What the encoder writes, the decoder reads back |
| Base64Decoder.Measure | libvncserver/src/common/base64.c:189-315 | Without a target: the number of bytes that whole blocks of symbols with right padding are made for, and else -1 |
| Base64Decoder.MeasuredDecodes | libvncserver/src/common/base64.c:267-315 | A measured text decodes if and only if no bits are left over, and to as many bytes |
| Base64Decoder.LeftOver | libvncserver/src/common/base64.c:299-305 | "QR==" is measured, but the encoding of nothing |
| Reader.Client.ReadSocket | libvncserver/src/libvncclient/sockets.c:145-147 | One read takes the first bytes of the stream and one event, or a part of one, of the schedule |
| Reader.Client.ReadFromSASL | libvncserver/src/libvncclient/sasl.c:513-570 | The same out of decoded chunks: bytes left over come first, an empty chunk reads as EAGAIN, and errors keep the stream |
| Reader.Client.Attempt | libvncserver/src/libvncclient/sockets.c:135-178 | One pass of either loop: what it tells about the rest of the schedule, and the count of retries against the timeout |
| Reader.Client.FillBuffer | libvncserver/src/libvncclient/sockets.c:133-183 | The buffered loop keeps the unread bytes inside the 8192-byte buffer and reads on until enough of them lie there |
| Reader.Client.ReadDirect | libvncserver/src/libvncclient/sockets.c:185-230 | The direct loop writes consecutive bytes of the stream to the caller's memory |
| Reader.Client.ReadFromRFBServer | libvncserver/src/libvncclient/sockets.c:63-241 | The next n bytes of the stream, for every schedule of short reads and EAGAIN, plain or SASL; success exactly when the schedule brings them in time; at most n + limit + 1 reads when a timeout is set |
| Reader.EnoughIff | libvncserver/src/libvncclient/sockets.c:133-230 | A request succeeds if and only if a first part of the schedule brings the bytes, holds nothing that ends the connection, and refuses no more often than the timeout grants |
| Reader.TenTriesASecond | libvncserver/src/libvncclient/sockets.c:156-157 | The timeout grants ten tries a second, if and only if it is at most 4294 seconds |
| Reader.ReadRun | libvncserver/src/libvncclient/sockets.c:63-241 | A run of calls for any requests: what they delivered, in order, what a failing last call cut off and what is still to come are the stream at the start; with a timeout the reads of the whole run are bounded |
| Reader.WriteToRFBServer | libvncserver/src/libvncclient/sockets.c:250-318 | A first part of the bytes goes out in order, and all of them exactly when it succeeds |
| Canvas.FrameBuffer.FillRectangle | libvncserver/src/libvncclient/vncviewer.c:119-143 | At the supported pixel sizes a rectangle that fits is filled and nothing else changes; any other rectangle, and any at other sizes, is ignored |
| Canvas.FrameBuffer.CopyRectangle | libvncserver/src/libvncclient/vncviewer.c:145-173 | At the supported pixel sizes a picture that fits is copied row by row and nothing else changes; any other picture, and any at other sizes, is ignored |
| Canvas.PaintShade | libvncserver/src/libvncclient/rre.c:50-63 | After painting in order, each pixel has the colour of the last subrectangle that hits it, or what lay beneath |
| UpdateBuffer.Updates.Send | libvncserver/src/libvncserver/rfbserver.c:3899-3913 | Flushing the update buffer keeps all bytes in order |
| HextileFormat.BoxBytes | libvncserver/include/rfb/rfbproto.h:721-726 | The Pack and Extract macros are inverse to each other, in both directions, for all rectangles in a tile and all bytes |
| HextileFormat.UpperBits | libvncserver/include/rfb/rfbproto.h:721-726 | The column and the width come in the upper four bits |
| HextileFormat.ParseExact | libvncserver/src/libvncclient/hextile.c:51-120 | The client takes input for a tile if and only if it is a byte that announces the tile, the tile's bytes and the rest |
| HextileClient.TileAt | libvncserver/src/libvncclient/hextile.c:43-49 | The nested loops are at the tile of their number, which has the clipped size |
| HextileClient.HandleRects | libvncserver/src/libvncclient/hextile.c:73-120 | Both subrectangle loops, from count byte to last rectangle, and the foreground they leave behind |
| HextileClient.HandleTile | libvncserver/src/libvncclient/hextile.c:51-120 | One tile: every flag combination, every place where the bytes can run out, and the carried colours |
| HextileClient.HandleHextile | libvncserver/src/libvncclient/hextile.c:32-125 | The whole loop nest fails just when the bytes run out, and otherwise is the composition of its tiles |
| HextileTiles.Partition | libvncserver/src/libvncclient/hextile.c:43-49 | Each place of the rectangle lies in exactly one tile, and each tile in the rectangle |
| HextileTiles.TileShown | libvncserver/include/rfb/rfbproto.h:676-712 | A tile that depicts a part of a screen by the rules of the comment puts just that part on the framebuffer, if and only if it does not take over a foreground that the client has lost |
| HextileTiles.DecodesPicture | libvncserver/src/libvncclient/hextile.c:32-125 | Of any stream that depicts a rectangle by the comment, in whatever mix of raw, carried and coloured tiles, just its bytes are used and no other pixel changes, and it decodes to the rectangle if and only if no tile takes over a lost foreground |
| HextileTiles.OldPixelsForgotten | libvncserver/src/libvncclient/hextile.c:67 | Every pixel of a decoded tile is independent of the old framebuffer, for every accepted stream |
| HextileTiles.OutsideKept | libvncserver/src/libvncclient/hextile.c:32-125 | When subrectangles lie in their tiles no pixel outside the decoded tiles changes |
| Subrects.FindSubrect | libvncserver/src/libvncserver/hextile.c:219-256 | The search finds a one-coloured rectangle at the corner that is the biggest of those as wide as the row's run or as high as the column's; of two as big it takes the high one |
| Subrects.Mark | libvncserver/src/libvncserver/hextile.c:276-282 | The rectangle, and nothing else, becomes background |
| Subrects.GreedyDepicts | libvncserver/src/libvncserver/hextile.c:210-288 | The listed subrectangles, painted on the background in their order, are the picture, and they are no more than its other pixels |
| Subrects.SubrectEncode | libvncserver/src/libvncserver/hextile.c:195-290 | The loops list exactly the subrectangles found at each next cell that is not yet background, and give up if and only if the whole list would exceed the limit |
| HextileServer.TestColours | libvncserver/src/libvncserver/hextile.c:299-338 | Solid and mono are exactly one and at most two colours; background and foreground are the first two colours, the one in front that has more of the pixels before a third; with two colours that is at least half of the pixels |
| HextileServer.CountFits | libvncserver/src/libvncserver/hextile.c:258-287 | The number of subrectangles of a tile always fits its byte |
| HextileServer.SendSubrects | libvncserver/src/libvncserver/hextile.c:195-290 | Count and subrectangles reach the buffer as the format wants them and depict the tile, if and only if they take no more bytes than its pixels; otherwise a part of at most the tile's raw size is left there, which SendRaw takes back |
| HextileServer.SendTile | libvncserver/src/libvncserver/hextile.c:117-188 | Exactly the bytes of the chosen tile: solid, in two colours, coloured, or raw just when subrectangles would take more bytes; they depict the tile by the comment, it takes over only a foreground that the client holds, and the encoder remembers only such colours |
| HextileServer.SendHextiles | libvncserver/src/libvncserver/hextile.c:105-192 | Unless the socket fails, exactly the bytes of the chosen tiles go out; they depict the rectangle by the comment and meet the condition of the client, and the update buffer never overflows |
| HextileRoundTrip.DecodesRectangle | libvncserver/src/libvncclient/hextile.c:32-125 | The same for a stream of all tiles of the rectangle |
| HextileRoundTrip.ForegroundLost | libvncserver/src/libvncclient/hextile.c:79-98 | Three tiles that depict a column by the comment: the client paints the last dot with 2 instead of 1 |
| HextileRoundTrip.Transfer | libvncserver/src/libvncserver/hextile.c:105-192 | Server to client: what is sent for a rectangle, the client turns back into that rectangle, for all screens, sizes, depths and old states |
| Rre.HandleRre | libvncserver/src/libvncclient/rre.c:32-66 | It fails just when the bytes run out, and otherwise paints background and subrectangles in order |
| Rre.HandleCorre | libvncserver/src/libvncclient/corre.c:32-68 | The same from the client's buffer, whose bounds the reads keep, with the refusal of counts that would not fit |
| RreStreams.RrePixels | libvncserver/src/libvncclient/rre.c:48-63 | Each pixel has the colour of the last subrectangle covering it, or the background, or its old value outside |
| RreStreams.CorreIsRre | libvncserver/src/libvncclient/corre.c:41-67 | CoRRE decoding of any accepted stream is RRE decoding of the widened stream |
| RreServer.GetBgColour | libvncserver/src/libvncserver/rre.c:282-325 | The first pixel, or with one byte per pixel one of the most frequent colours, namely the one that leads when the pixels are counted in order |
| RreServer.SendBytes | libvncserver/src/libvncserver/rre.c:148-165 | Bytes of any length pass through the update buffer in order, in as many parts as it takes |
| RreServer.SendRects | libvncserver/src/libvncserver/rre.c:95-165 | The stream of the background and the listed subrectangles, or the verdict that they would be longer than the pixels, given just when they are |
| RreServer.StreamBytes | libvncserver/src/libvncserver/corre.c:218-305 | The bytes of one subrectangle on a background, in their order |
| RreServer.RreShown | libvncserver/src/libvncserver/rre.c:48-168 | A client that gets the bytes of an RRE rectangle, or its raw pixels where those take fewer, shows that part of the screen |
| RreServer.CorreShown | libvncserver/src/libvncserver/corre.c:82-201 | And so does one that gets those of a CoRRE rectangle |
| RreServer.SendRre | libvncserver/src/libvncserver/rre.c:48-168 | RRE server to client with the fallback to raw pixels: exactly those bytes; what it sends decodes to the rectangle of the screen; it fails only with the socket, when a raw line exceeds the buffer, or at an unsupported pixel size, where it sends nothing |
| RreServer.SendSmallCorre | libvncserver/src/libvncserver/corre.c:82-201 | CoRRE server to client with the fallback: exactly those bytes, and every count among them is one that the client accepts; at an unsupported pixel size it fails and sends nothing |
| RreServer.SendCorre | libvncserver/src/libvncserver/corre.c:52-73 | The split with its parts: the result is always true, even at unsupported pixel sizes, where nothing is sent; at others, unless the socket fails, the client, decoding the parts one after the other, shows the whole rectangle |
| RreServer.CountsFit | libvncserver/src/libvncclient/corre.c:51 | No rectangle below 256 by 256 has more subrectangles than the client's buffer holds |
| RreServer.SplitCovers | libvncserver/src/libvncserver/corre.c:52-73 | The recursive split yields parts of the client's sizes, and each place lies in exactly one |
| RreServer.SplitCount | libvncserver/src/libvncserver/rfbserver.c:3356-3358 | The number of parts is the number of rectangles that the header of the update announces |
| Rectangles.HeaderBack | libvncserver/include/rfb/rfbproto.h:574-579 | The client finds in the header of a rectangle what the server has put there |
| Rectangles.HeaderBytes | libvncserver/include/rfb/rfbproto.h:574-579 | Position, size and encoding come in this order and in network byte order |
| Rectangles.TwoBytes | libvncserver/src/libvncserver/rfbserver.c:3464-3467 | The client reads the number of rectangles modulo 2^16 |
| Rectangles.HandleRaw | libvncserver/src/libvncclient/rfbclient.c:2231-2255 | Raw lines, read in as many strips as the buffer asks for, are one picture; it fails just when the bytes run out; at unsupported pixel sizes they are read and nothing is shown |
| RawServer.SendRaw | libvncserver/src/libvncserver/rfbserver.c:3658-3724 | Raw rectangles in strips through the buffer: the header and the pixels line by line go out, and decode to the rectangle, or, at unsupported pixel sizes, are read without being shown; the exact failures |
| Update.HandleRect | libvncserver/src/libvncclient/rfbclient.c:2060-2337 | One rectangle: header, marker of the last one, bounds check and dispatch; at unsupported pixel sizes RRE, CoRRE and hextile rectangles are passed over with nothing read, and no pixel changes, even on failure |
| Update.HandleUpdate | libvncserver/src/libvncclient/rfbclient.c:2047-2337 | The loop over the announced rectangles composes them, ends with the marker of the last one, and fails with the first that fails; at unsupported pixel sizes no pixel changes |
| Update.ConveysBoth | libvncserver/src/libvncclient/rfbclient.c:2060-2337 | Bytes that convey one part of a screen, followed by bytes that convey another, convey both |
| UpdateServer.SendHextile | libvncserver/src/libvncserver/hextile.c:40-78 | A hextile rectangle: exactly its header and the chosen tiles, which decode to the rectangle; it fails only with the socket or at an unsupported pixel size |
| UpdateServer.SendUpdate | libvncserver/src/libvncserver/rfbserver.c:3271-3577 | When it reports success at a supported pixel size, the count and exactly the bytes of all rectangles of the region in the preferred encoding have gone out, and they convey the region; at other sizes RRE and hextile always fail, and for CoRRE the count goes out alone, with success reported just when the socket works |
| UpdateServer.Deliver | libvncserver/src/libvncserver/rfbserver.c:3271-3577 | Server to client, for any region, encoding and pixel size: up to 0xFFFF rectangles at a supported size the client shows the screen in the region and is unchanged elsewhere, and it takes up all that was sent if and only if there are fewer; a number that is cut to 0 shows nothing; at other sizes nothing changes, and the client fails on CoRRE |
| UpdateServer.Taking | libvncserver/src/libvncclient/rfbclient.c:2058-2066 | What a client makes of n conveyed rectangles and the server's marker, of whose number it reads the lower 16 bits: all is taken up if and only if n is below 0xFFFF, all is shown up to 0xFFFF |
| UpdateServer.ManyRectangles | libvncserver/src/libvncserver/rfbserver.c:3345-3361 | Regions of exactly 0xFFFF and 0x10000 CoRRE rectangles of the default size 48 by 48 |
| UpdateServer.OnePixelLost | libvncserver/src/libvncserver/corre.c:130-148 | One pixel of three bytes in CoRRE: the server reports success, and the client fails for want of the rectangle |
| UpdateServer.NeverShown | libvncserver/src/libvncclient/vncviewer.c:136-142 | Whatever a client of an unsupported pixel size receives, its framebuffer does not change |
| UpdateServer.ConveyableIff | libvncserver/src/libvncclient/rfbclient.c:2231-2334 | There are bytes that convey every screen to every client if and only if the pixel size is supported |
| Cursor.Unpack | libvncserver/src/libvncclient/cursor.c:98-112 | The bit loops put each bit of the row-padded bitmap, most significant first, at its place in the array |
| Cursor.OneBit | libvncserver/src/libvncclient/cursor.c:98-112 | The leftmost pixel of a row has the most significant bit (section 7.8.1 of RFC 6143) |
| Cursor.Widen | libvncserver/src/libvncclient/cursor.c:113-127 | In the three cases of the switch, index bytes grow to pixels over their own places, and none is read after it was overwritten |
| Cursor.XPixelAt | libvncserver/src/libvncclient/cursor.c:98-127 | Pixel q has the colour that bit q selects |
| Cursor.ComponentNearest | libvncserver/src/libvncclient/cursor.c:33-39 | Each component is the nearest value that the format has to the channel, at its place |
| Cursor.PixelNearest | libvncserver/src/libvncclient/cursor.c:33-39 | So a pixel is made of the nearest red, green and blue |
| Cursor.LittleEndian | libvncserver/src/libvncclient/cursor.c:113-127 | The least significant byte of a pixel comes first in memory |
| Cursor.ShownPixel | libvncserver/src/libvncclient/cursor.c:82-127 | A pixel of an XCursor whose bit is set shows the first colour that came, the foreground, and any other the second one, the background |
| Cursor.ColoursShownIff | libvncserver/src/libvncclient/cursor.c:113-127 | Every XCursor is shown in its colours at a size of pixels if and only if the switch has a case for it |
| Cursor.WhitePixel | libvncserver/src/libvncclient/cursor.c:113-127 | At any other size one white background pixel is not |
| Cursor.CursorClient.HandleCursorShape | libvncserver/src/libvncclient/cursor.c:42-179 | Both encodings, at every size of pixels: source and mask, the bytes used, and every failure |
| Pnm.Expand | libvncserver/examples/server/pnmshow.c:107-118 | The descending loops leave in every byte of the framebuffer what the file says there, zeros in the padding, and the fourth bytes alone |
| Pnm.ExpandedPixel | libvncserver/examples/server/pnmshow.c:107-118 | Each byte of each pixel of the file is at its column and row |
| Pnm.PadRows | libvncserver/examples/server/pnmshow24.c:91-101 | The descending moves leave each row at its place, with zeros behind it |
| Pnm.PaddedRowByte | libvncserver/examples/server/pnmshow24.c:91-101 | Each byte of each row of the file is at its place |
| Rotate.Bijective | libvncserver/examples/server/rotate.c:10-65 | Each of the five index maps is one to one and onto: each place has exactly one pixel that goes there |
| Rotate.Screen.Apply | libvncserver/examples/server/rotatetemplate.c:4-32 | The permuting copy turns the picture, and swaps the dimensions with the length of a row when it must |
| Rotate.Undone | libvncserver/examples/server/rotate.c:10-65 | Clockwise and counter-clockwise undo each other, and flips and half turns undo themselves |
| Rotate.HalfTurns | libvncserver/examples/server/rotate.c:10-65 | Two quarter turns either way, and both flips in either order, are the half turn |
| Rotate.FourTurns | libvncserver/examples/server/rotate.c:10-32 | Four quarter turns are the identity |
| Rotate.FirstRow | libvncserver/examples/server/rotate.c:10-65 | Where each of the five puts the first row |

## Left out

- Wavelet filter without quantisation tables (zywrletemplate.c:382-418) is compiled out. The quantising tables are given by their runs of equal entries.
- ZYWRLE is modelled in place, destination equal to source, as both callers use it. One C `int` of the work buffer is a record of its four bytes.
- Machines are little-endian: pixels lie in memory with the least significant byte first, and `Swap16IfLE` swaps.
- `unsigned long` in the DES code is 32 bits wide; null-pointer checks, files, file modes and random bytes are not modelled.
- Sha1.SHA1Context.Input: does not go on after the byte with which the length overflows; further bytes of the same call would lie behind the block.
- VncAuth.CryptBlocks: buffers have fewer than 2^31 bytes, which is what the `int` count and products of the code hold; so in VncAuth.Crypt, VncAuth.EncryptBytes2, Base64.Ntop and Base64Decoder.Pton.
- Base64Decoder.Pton: the call with a null target is Base64Decoder.Measure; characters are compared in the C locale.
- Reader.Client.ReadFromRFBServer: TLS, the playback of recorded sessions and the event loop behind `WaitForMessage` are left out. The network is a schedule of events that may be any; `errno` after a failed `sasl_decode` is part of the schedule, since the code does not set it.
- Reader.WriteToRFBServer: takes the bytes that `sasl_encode` produced; the encoding itself is outside the model.
- Connection failures inside the rectangle decoders say nothing about the pixels that were painted before the bytes ran out.
- Pixels of the rectangle decoders are the byte strings that travel, so conversion between pixel formats (`translateFn`) is a copy, and the server's screen has the size of the client's framebuffer.
- HextileServer.SendHextiles: statistics are left out; the bytes of the subrectangles of one tile are collected first and then put into the buffer at once.
- RreServer.SendRre: the sizes of its two encoding buffers, which always hold the pixels of the screen, never end an encoding; products of sizes do not overflow an `int`.
- Update.HandleRect: encodings other than raw, RRE, CoRRE and hextile, and pseudo-encodings but for the marker of the last rectangle, end the update in this model. Pixels have at most four bytes, and the application's hooks are the client's default ones.
- UpdateServer.SendUpdate: cursors, copied regions, scaling, other encodings, the merging of many rectangles into one, and statistics are left out. UpdateServer.Deliver does not say which part of a region of more than 0xFFFF rectangles the client shows, unless the number is cut to 0.
- Cursor.CursorClient.HandleCursorShape: allocation always succeeds, and the call to the application's hook is left out.
- Pnm: reading the file, the other picture types of pnmshow.c, and its black-and-white branch, whose first index does not start at a byte.
- Rotate.Screen.Apply: marking the screen as modified and telling the clients its size are left out; rows have no padding, as the code itself takes for granted.
- Socket creation, TLS, other encodings, viewers and example servers are outside this project.

# TXEI host libraries: a verified model

This project models the parts of the TXEI host libraries that translate bytes or keep
state, and proves what their callers rely on.

* **Keymaster translator** (`Layout`, `Requests`, `RequestProofs`, `RequestMemory`, `RequestBuilder`,
  `Responses`, `ResponseProofs`, `ResponseWriter`, `Keymaster`, `Protocol`, `Delivery`, `Outcomes`, `Circulation`,
  `Capabilities`, `EndToEnd`). HAL commands become firmware requests and firmware responses become HAL responses. The
  builders and the response writer work in place on arrays; they are proved against an encoder of the message, and the
  encoder against independent parsers of both layouts. Whole runs of the library are sequences of calls from process
  start. `Outcomes` tells what a call does by the raw words of command and reply and the outcomes of the system calls.
* **Transport** (`Transport`). Connect, send, receive and disconnect, with the heap blocks and descriptors they
  hold, and the messages given to the driver as a trace.
* **Reversal** (`Reversal`). The XOR swap and the unrolled backward copy.
* **Log formatter** (`LogText`, `LogProofs`, `Log`). The fixed 1024-character buffer, newline normalisation and
  hex dumps.
* **Shared frames** (`Frames`, `FrameProofs`, `IptMvfw`). IPT and media-vault calls over the same two global frames.
* **DMA buffer** (`Dma`) and **error latch** (`Latch`).
* **Buffer primitives** (`Bytes`). Words, big numbers, padding, memset and memcpy.

Everything the operating system, the driver or the firmware decides (allocation, `open`, `ioctl`, `write`, `select`,
`read`, `mmap`, `msync`, the clock, delivery of a binder call) is a parameter of the call, so that each call has a
function as its specification and a run is a fold of that function. Byte and word widths are explicit: words are
32 bits and sums wrap at 2^32 as in the source. A buffer with its length is an array; a buffer the code only reads
is a sequence; a null pointer is `null` or `None`.

## What the code leaves to its caller

* `Requests.Readable`: the lengths written in a command are the lengths of what is there, as far as the builder
  relies on them. Commands the code rejects need not meet it.
* `RequestProofs.SizeFits`: the size of the request does not wrap, which an opaque size near 2^32 from the firmware
  would bring about. `RequestMemory.RequestSizing` shows that the builders stay inside their buffer exactly then.
* `Responses.Safe`: the accesses of the response translation stay inside its buffers. `ResponseProofs.BufferSizing`
  shows that this is exactly when they do; a caller buffer of 16 bytes and lengths that do not wrap are enough.
* `Frames.ReplyFits`: the length taken from the response frame is within the frame and the output buffer. It is the
  firmware's length if the reply reaches past its length word. In a media-vault reply that ends before that, it is in
  whole or in part the length the caller asked for, so that there the condition is on the caller.

## Where code and documentation part

* The response id is selected by the response code instead of the command id (libsepkeymaster/sep_keymaster.c:864).
  `Delivery.ResponseIdIff` gives the exact condition under which the documented id comes out; for a successful
  response it never does.
* The smallest accepted caller buffer, 12 bytes, is too small for three kinds of response:
  `ResponseProofs.TwelveBytesAreNotEnough`.
* The capabilities loop never advances (libsepkeymaster/sep_keymaster.c:705-714):
  `Capabilities.OnlyFirstEntryCounts`, `Capabilities.SecondEntryIgnored`.
* A call is documented to succeed when its command was sent and a response received
  (libsepkeymaster/sep_keymaster.c:754-763). It also succeeds when the driver took no byte of the command:
  `Delivery.SucceedsIff`, `Delivery.NothingTakenSucceeds`.
* A short read counts as success (libsepkeymaster/txei_drv.c:244-247), and the zeroed rest of the buffer is taken for
  the firmware's answer. `Delivery.CallRoundTrip` has the exact condition under which the caller reads what the
  firmware said, `Delivery.CutReplySucceeds` an input that fails it.
* Capabilities also count as known when the driver took no byte of the request, or when the reply was cut off before
  its response code: `Capabilities.CapsLearnedIff`, and over runs `Capabilities.CommandsAreGranted`.
* `ipt_send_message` replaces every status by that of closing the connection: `FrameProofs.IptMasksFailure`,
  `FrameProofs.FailureMasked`. For both APIs a reply cut off before its status word is a success, and bytes that did
  not arrive are given to the caller as zeros; a media-vault call need not have sent or received anything:
  `FrameProofs.SucceedsIff`, `FrameProofs.ReplyReachesCaller`, `FrameProofs.NothingReceivedIsData`.
* `meimm_alloc_map_memory` returns zero when `mmap` fails; the contract of `Dma.Meimm.AllocMapMemory` says so.
* The bound check of the DMA copy is made in unsigned arithmetic, so that a negative offset can pass it:
  `Dma.CheckMeansInRange`, `Dma.NegativeOffsetPasses`.
* An error latched by the service but not fetched by the manager is later kept by the manager's own latch, and one
  fetched and lost on the way is thrown by no operation: `Latch.ErrorLatch` has the exact condition,
  `Latch.StrandedErrorSurfacesLater` and `Latch.LostReportNeverSurfaces` the failing inputs.

## Model

| member | source | states |
|---|---|---|
| Reversal.SwappedByXor | libsepkeymaster/sep_keymaster.c:39-41 | the three XOR assignments exchange two bytes |
| Reversal.SwapByteOrder | libsepkeymaster/sep_keymaster.c:35-43 | the range is exactly reversed in place for every length and the rest of the buffer is untouched |
| Reversal.SwapByteOrderTwice | libsepkeymaster/sep_keymaster.c:35-43 | a second swap restores the buffer |
| Reversal.Switch | Lib/common/src/tee_if.c:192-215 | entered at case k the fall-through copies k bytes, at case 0 eight |
| Reversal.CopySwap | Lib/common/src/tee_if.c:172-219 | result for every length and both flags, null pointers included, and also when both pointers name one buffer |
| Reversal.CopiedBackIsReversed | Lib/common/src/tee_if.c:190-217 | on two buffers the copy is plain reversal |
| Reversal.CopySwapInverse | Lib/common/src/tee_if.c:190-217 | copying back restores the source |
| Reversal.CopySwapAgreesWithSwapByteOrder | Lib/common/src/tee_if.c:190-217 | both reversal routines give the same bytes |
| Reversal.CopySwapInPlaceIff | Lib/common/src/tee_if.c:190-217 | used in place the copy reverses exactly the palindromes |
| RequestProofs.ExponentValue | libsepkeymaster/sep_keymaster.c:102-107 | as OS2IP values (section 4.2 of RFC 8017) the generated exponent is the little-endian input modulo 2^32 and the imported one equals its input for lengths 0 to 4 |
| RequestProofs.TranslationRecovers | libsepkeymaster/sep_keymaster.c:70-307 | a request determines its command, unsent lengths up to trailing zeros, and every byte of a field that the command does not fill is zero |
| RequestProofs.WireParses | libsepkeymaster/inc/android_heci_agent.h:131-195 | the firmware layout read independently gives back the request; buffer length is 12 plus InputSize, plus the opaque size for generate |
| RequestProofs.ParseDeterminesWire | libsepkeymaster/inc/android_heci_agent.h:131-195 | the parsed fields and zeros account for every byte of the buffer |
| RequestProofs.AcceptedFits | libsepkeymaster/sep_keymaster.c:516-675 | an accepted command meets the field sizes of its request, whose length is the allocated size |
| RequestProofs.RequestRoundTrip | libsepkeymaster/sep_keymaster.c:516-675 | for every accepted command of all five kinds the firmware recovers the command from the request buffer, and every byte outside what it recovers is zero, generate's surplus included |
| RequestProofs.HalBytesUnderstood | libsepkeymaster/inc/intelkeymaster_firmware_api.h:29-123 | a client that lays a command out as documented, of any key type, is accepted exactly when it fits and, to generate, asks for an RSA key; it is understood as written |
| RequestMemory.RequestSizing | libsepkeymaster/sep_keymaster.c:516-675 | the stores of an accepted command stay inside the allocated request exactly when the allocated size does not wrap |
| RequestMemory.StoresFrame | libsepkeymaster/sep_keymaster.c:70-307 | a request is zero outside the ranges stored into |
| RequestMemory.HugeOpaqueSize | libsepkeymaster/sep_keymaster.c:608-610 | an opaque size near 2^32 for which a sign request is too small |
| RequestBuilder.GenerateKeypairCmdBuf | libsepkeymaster/sep_keymaster.c:70-115 | acceptance, error code and the whole request buffer |
| RequestBuilder.ImportKeypairCmdBuf | libsepkeymaster/sep_keymaster.c:117-171 | acceptance, error code and the whole request buffer |
| RequestBuilder.GetPublicKeypairCmdBuf | libsepkeymaster/sep_keymaster.c:173-202 | acceptance, error code and the whole request buffer |
| RequestBuilder.SignDataCmdBuf | libsepkeymaster/sep_keymaster.c:204-244 | acceptance, error code and the whole request buffer |
| RequestBuilder.VerifyDataCmdBuf | libsepkeymaster/sep_keymaster.c:246-307 | acceptance, error code and the whole request buffer |
| RequestBuilder.GenerateCmdBuf | libsepkeymaster/sep_keymaster.c:516-675 | result for known and unknown ids, failed allocation and rejected commands; an accepted command yields the encoded request in a fresh block of the allocated size |
| RequestBuilder.Prepare | libsepkeymaster/sep_keymaster.c:535-538 | the cleared request with class and command id |
| RequestBuilder.LittleEndianLow4 | libsepkeymaster/sep_keymaster.c:103-107 | reversing the low four bytes of the 64-bit exponent is big-endian encoding modulo 2^32 |
| Transport.MeiConnect | libsepkeymaster/txei_drv.c:71-124 | a handle exactly when all three steps work, and nothing held otherwise |
| Transport.MeiDisconnect | libsepkeymaster/txei_drv.c:127-140 | closes the descriptor and frees the handle |
| Transport.MeiSndMsg | libsepkeymaster/txei_drv.c:143-195 | the count written if write and select both worked and -1 otherwise, and what was given to write |
| Transport.MeiRcvMsg | libsepkeymaster/txei_drv.c:198-229 | status and received bytes, never past the buffer |
| Transport.MeiSndRcv | libsepkeymaster/txei_drv.c:232-254 | status of the exchange by its raw outcomes, with short reads and empty writes counted as the code counts them |
| Transport.ExchangeSucceedsIff | libsepkeymaster/txei_drv.c:232-254 | success means a delivered reply, or an empty write after which nothing was received |
| Transport.ExchangeOutcomes | libsepkeymaster/txei_drv.c:143-254 | which of the three results an exchange has, and whether it received the reply, by what calloc, open, ioctl, write, select and read gave |
| Transport.SelectTimesOut | libsepkeymaster/txei_drv.c:183-190 | a complete write after which select times out fails and receives nothing |
| Transport.SendReqToFw | libsepkeymaster/sep_keymaster.c:723-752 | success exactly for which outcomes, received bytes and trace; the connection is closed on every path |
| ResponseProofs.BufferSizing | libsepkeymaster/sep_keymaster.c:835-845 | every range read lies in the response buffer and every range written in the caller's exactly under Safe; 16 bytes without wrap suffice |
| ResponseProofs.ReadsFrame | libsepkeymaster/sep_keymaster.c:346-514 | the translation depends on no response byte outside the ranges read |
| ResponseProofs.WritesFrame | libsepkeymaster/sep_keymaster.c:346-514 | the caller's bytes in the ranges written come out the same whatever was there, all others as they were |
| ResponseProofs.TwelveBytesAreNotEnough | libsepkeymaster/sep_keymaster.c:788-791 | with 12 caller bytes the verify verdict lies beyond the response buffer |
| ResponseProofs.ResponseRoundTrip | libsepkeymaster/sep_keymaster.c:346-514 | the caller's buffer read by the HAL layout gives the firmware's reply, and no byte past the reported length changes |
| ResponseProofs.LengthsAgree | libsepkeymaster/sep_keymaster.c:369-508 | reported length is the length field plus 8 modulo 2^32, also on the too-small path; for a payload without the modulus exactly when its size does not wrap |
| ResponseProofs.DeliveredWhole | libsepkeymaster/sep_keymaster.c:838-845 | what the zeroed response buffer says is what the firmware's reply said exactly when the reply held all it declared |
| ResponseProofs.RetrySize | libsepkeymaster/sep_keymaster.c:375-384 | the length left by a too-small answer is the least size that succeeds on the same reply, and succeeds with it |
| ResponseWriter.SetResponseCmdId | libsepkeymaster/sep_keymaster.c:309-343 | the id word, and nothing else, is stored |
| ResponseWriter.SetResponseStatusAndData | libsepkeymaster/sep_keymaster.c:346-514 | result, whole caller buffer and length equal the translation, null pointers included |
| ResponseWriter.SetKeyBlob | libsepkeymaster/sep_keymaster.c:364-392 | the generate and import case, too-small answer included |
| ResponseWriter.SetPublicKey | libsepkeymaster/sep_keymaster.c:394-430 | the public-key case |
| ResponseWriter.SetSignature | libsepkeymaster/sep_keymaster.c:432-457 | the signature case |
| Keymaster.SepKeymaster.constructor | libsepkeymaster/sep_keymaster.c:31-32 | the library starts without capabilities and with opaque size zero |
| Keymaster.SepKeymaster.GetCaps | libsepkeymaster/sep_keymaster.c:677-721 | result, learned size and trace; the capabilities buffer is freed on every path |
| Keymaster.SepKeymaster.SendCmd | libsepkeymaster/sep_keymaster.c:764-894 | result, state, caller buffer, length and trace are those of the step function; blocks and descriptors held return to what they were on every path |
| Keymaster.SepKeymaster.Converse | libsepkeymaster/sep_keymaster.c:820-893 | the same for the part after the capability check |
| Protocol.StepShape | libsepkeymaster/sep_keymaster.c:792-800 | what one call can send before and after the capabilities are known |
| Protocol.RunShape | libsepkeymaster/sep_keymaster.c:792-800 | the trace of a run: capability requests, one success, then commands only |
| Protocol.CapabilityProtocol | libsepkeymaster/sep_keymaster.c:792-834 | over every run: no command before the library takes the capabilities as known, which happens at most once and directly after asking, and every later message is a command sized by them and of at most 3072 bytes |
| Capabilities.OnlyFirstEntryCounts | libsepkeymaster/sep_keymaster.c:705-714 | the library learns what the first entry alone says; that is what a loop over all entries would leave exactly when no RSA entry follows the first or the last of them says the same |
| Capabilities.SecondEntryIgnored | libsepkeymaster/sep_keymaster.c:705-714 | a reply with the RSA entry second: capabilities known, opaque size zero |
| Capabilities.CapsLearnedIff | libsepkeymaster/sep_keymaster.c:694-703 | the capabilities count as known exactly on a reply with success in its response code, a reply cut off before that, or an empty write |
| Capabilities.CommandsAreGranted | libsepkeymaster/sep_keymaster.c:792-800 | over every run a command follows a delivered success of the firmware exactly when the learning call's request was taken and its reply reached the response code, and one that says the opaque size in use exactly when the reply also holds a first RSA entry |
| Capabilities.UngrantedCommand | libsepkeymaster/txei_drv.c:232-254 | a run that sends a command although the firmware never granted the capabilities |
| Capabilities.UnsaidSize | libsepkeymaster/sep_keymaster.c:705-714 | a run that sends a command with opaque size zero although the firmware said 64 |
| Capabilities.EmptyReplyLearned | libsepkeymaster/txei_drv.c:244-247 | a reply of no bytes makes the capabilities known |
| Circulation.StateStays | libsepkeymaster/sep_keymaster.c:793-800 | once known, capabilities and opaque size never change |
| Delivery.SucceedsIff | libsepkeymaster/sep_keymaster.c:847-893 | a submitted call ends with success or too-small exactly when reply bytes were delivered or the driver took nothing of its request; which of the two; and a call that submits nothing never succeeds |
| Delivery.CallRoundTrip | libsepkeymaster/sep_keymaster.c:764-894 | what a caller reads after a successful call is what the firmware's reply said, exactly when that reply held all it declared; bytes past the reported length are untouched |
| Delivery.CutReplySucceeds | libsepkeymaster/txei_drv.c:244-247 | a successful generate call with eight key bytes the firmware never sent |
| Delivery.NothingTakenSucceeds | libsepkeymaster/txei_drv.c:232-243 | a successful call of whose request the driver took nothing |
| Delivery.ResponseIdIff | libsepkeymaster/sep_keymaster.c:864 | the documented response id is in the buffer of a successful call exactly when the response code happens to be the command's number; after a success of the firmware the id is zero |
| Delivery.ResponseIdsOfSuccessAndFailure | libsepkeymaster/sep_keymaster.c:864 | a generate call that succeeds with id zero, and one that fails with the documented id |
| Outcomes.ArgumentOutcomes | libsepkeymaster/sep_keymaster.c:777-791 | null pointers and short buffers are refused before anything else happens, each with its result |
| Outcomes.CapsOutcomes | libsepkeymaster/sep_keymaster.c:677-721 | result and trace of a call that does not learn the capabilities, for every outcome of memory and exchange |
| Outcomes.FirstCommand | libsepkeymaster/sep_keymaster.c:793-800 | a call that learns the capabilities goes on as if they had been known |
| Outcomes.CommandOutcomes | libsepkeymaster/sep_keymaster.c:820-860 | for every command by its raw words, key type and inner lengths included: refused with which result and nothing sent, or sent with which class, id, InputSize and length, and with which result for every outcome of the exchange |
| Outcomes.FailureReaches | libsepkeymaster/sep_keymaster.c:480-508 | whole caller buffer after a firmware failure: id, length 4, result 1 for codes 2 and 5, 2 for code 3 and failure for every other |
| Outcomes.VerdictReaches | libsepkeymaster/sep_keymaster.c:459-473 | whole caller buffer after a verify response |
| Outcomes.PayloadReaches | libsepkeymaster/sep_keymaster.c:362-457 | whole caller buffer after a complete payload of each kind, by offsets in the reply |
| Outcomes.TooSmallReaches | libsepkeymaster/sep_keymaster.c:369-384 | whole caller buffer and length when the payload does not fit |
| Outcomes.UnlistedReaches | libsepkeymaster/sep_keymaster.c:475-476 | success for an unlisted command leaves both lengths, and clears id and result |
| Circulation.KeyBlobCirculates | libsepkeymaster/sep_keymaster.c:365-391 | over every run a blob handed out reaches KeyOpaque of a later command byte for byte, zero-padded if shorter, cut if longer in a get-public command; it is the blob in the firmware's reply exactly when that reply was complete, and otherwise its arrived bytes with zeros for the rest |
| Circulation.RetryCall | libsepkeymaster/sep_keymaster.c:838-845 | for every size the library accepts, the same call with the length left behind succeeds and sends the same message |
| EndToEnd.ReplyArrives | libsepkeymaster/sep_keymaster.c:346-457 | a reply laid out by the firmware in any of the five forms, or an error, is parsed as meant, translated safely and needs no more than the size it is stated to take |
| EndToEnd.ClientMeetsFirmware | libsepkeymaster/sep_keymaster.c:764-894 | over a working transport, for every command and every matching reply or error, the firmware recovers the client's command and the client reads the firmware's answer |
| LogText.NewlineTerminates | libsepkeymaster/txei_log.c:76-98 | one newline after the last text character, everything before it kept, idempotent; the buffer then holds that text and newline as a string of the length returned exactly when no null stands before that character |
| Log.Print | libsepkeymaster/txei_log.c:125-125 | a truncating append and its count |
| Log.NewlineTerminate | libsepkeymaster/txei_log.c:76-98 | buffer and result of the backward scan, also when it meets no text |
| Log.TxeiLog.Begin | libsepkeymaster/txei_log.c:216-238 | tag and first text fit, or the buffer holds the cut text and the marker |
| Log.TxeiLog.Log | libsepkeymaster/txei_log.c:100-153 | the printed string of a message |
| Log.TxeiLog.AppendHex | libsepkeymaster/txei_log.c:243-266 | the hex part is appended whole, or the buffer holds the first 999 characters and the marker |
| Log.TxeiLog.DumpRest | libsepkeymaster/txei_log.c:240-270 | the dump after its first text, also when that text is only newlines or empty |
| Log.TxeiLog.LogBuf | libsepkeymaster/txei_log.c:189-270 | the printed string of a hex dump equals its specification |
| LogProofs.HexParses | libsepkeymaster/txei_log.c:243-266 | the hex part reads back as the bytes |
| LogProofs.HexLength | libsepkeymaster/txei_log.c:243-266 | two digits a byte and a break after every eighth |
| LogProofs.DumpReadsBack | libsepkeymaster/txei_log.c:189-270 | a dump that fits is the normalised line and the hex part, ends in one newline and reads back |
| LogProofs.DumpCompleteIff | libsepkeymaster/txei_log.c:244-266 | a dump can be read back exactly when it has under 1024 characters and at most 1022 before its final newlines |
| LogProofs.AndroidTextHasNoTag | libsepkeymaster/txei_log.c:123-126 | for the Android logger neither message nor dump depends on the tag |
| LogProofs.LoggedText | libsepkeymaster/txei_log.c:100-153 | what a message prints with and without the tag: cut at 999 with the marker, ended by one newline, or only newlines as they are |
| LogProofs.DumpStartsWithLine | libsepkeymaster/txei_log.c:216-238 | a dump starts with its label, behind the tag unless for Android |
| FrameProofs.RequestIsFrame | Lib/IPT_OTP/libipt/src/ipt.c:121-149 | whatever the frame held, the stores leave a frame that depends on the arguments and the clock alone |
| FrameProofs.ResponseForgets | Lib/IPT_OTP/libipt/src/mvfw_api.c:81-100 | the response frame handed to the receive step keeps nothing |
| FrameProofs.CallForgets | Lib/IPT_OTP/libipt/src/ipt.c:118-176 | one call over two different pasts has one effect |
| FrameProofs.HistoryIndependence | Lib/IPT_OTP/libipt/src/mvfw_api.c:81-132 | any interleaving of both APIs has the same effects from any two contents of the frames |
| FrameProofs.EffectsAlone | Lib/IPT_OTP/libipt/src/mvfw_api.c:81-132 | each effect of a run is that of its call alone over cleared frames |
| FrameProofs.ReplyReachesCaller | Lib/IPT_OTP/libipt/src/ipt.c:158-176 | what a caller gets of every reply that counts as a success, cut or whole: the length told, the bytes that arrived with zeros for those that did not, zeros up to the length asked for and no change after that; it is the firmware's data exactly when the reply holds what it declares |
| FrameProofs.FramesAreWhole | Lib/IPT_OTP/libipt/src/mvfw_api.c:113-132 | a reply laid out by the firmware holds its data, whatever follows it |
| FrameProofs.NothingReceivedIsData | Lib/IPT_OTP/libipt/src/mvfw_api.c:93-100 | a media-vault call whose write failed and that received nothing reports success and as many zeros as it asked for |
| FrameProofs.FrameWords | Lib/IPT_OTP/libipt/src/ipt.c:121-145 | every word of the frame that goes out, for all six calls |
| FrameProofs.CallStops | Lib/IPT_OTP/libipt/src/ipt.c:93-116 | status and output of every call refused by its arguments or not connected; nothing is sent and the frames stay |
| FrameProofs.CallSends | Lib/IPT_OTP/libipt/src/mvfw_api.c:102-113 | every other call sends its frame if the descriptor is good |
| FrameProofs.MvfwStatus | Lib/IPT_OTP/libipt/src/mvfw_api.c:113-132 | status of every media-vault call that connects, control calls included: failure when nothing was received, otherwise the reply's status word |
| FrameProofs.ControlFails | Lib/IPT_OTP/libipt/src/mvfw_api.c:120-120 | a control call that the firmware refuses with status 5 returns 5 |
| FrameProofs.IptMasksFailure | Lib/IPT_OTP/libipt/src/ipt.c:158-188 | an IPT call reports success exactly when it reaches the exchange; when the exchange failed its output is cleared and its length kept |
| FrameProofs.FailureMasked | Lib/IPT_OTP/libipt/src/ipt.c:181 | the same firmware error, reported as success by IPT and as an error by the media-vault call |
| FrameProofs.SucceedsIff | Lib/common/src/tee_if.c:136-168 | a reply counts as success exactly when its status word is zero as far as it was received |
| IptMvfw.SharedFrames.FillIpt | Lib/IPT_OTP/libipt/src/ipt.c:121-145 | both frames after the IPT stores |
| IptMvfw.SharedFrames.FillMvfw | Lib/IPT_OTP/libipt/src/mvfw_api.c:81-100 | both frames after the media-vault stores |
| IptMvfw.SharedFrames.TakeOutput | Lib/IPT_OTP/libipt/src/mvfw_api.c:128-131 | length and output buffer after a successful reply |
| IptMvfw.SharedFrames.ProcessCmd | Lib/common/src/tee_if.c:136-168 | status and response frame; a failed send is only logged |
| IptMvfw.SharedFrames.IptSendMessage | Lib/IPT_OTP/libipt/src/ipt.c:84-189 | frames, status, output and trace equal the specification; the connection is closed |
| IptMvfw.SharedFrames.MvfwCmd | Lib/IPT_OTP/libipt/src/mvfw_api.c:52-147 | frames, status, output and trace equal the specification; the connection is closed |
| IptMvfw.SharedFrames.MvSepFwSendMessage | Lib/IPT_OTP/libipt/src/mvfw_api.c:192-217 | the same with the output cleared first |
| Dma.CheckMeansInRange | meimm/meimm.c:248-249 | the unsigned bound check means in range exactly for offsets that are not negative and sums that do not wrap |
| Dma.NegativeOffsetPasses | meimm/meimm.c:248-249 | four bytes at offset -4 pass the check of every mapping |
| Dma.LastWriterWins | meimm/meimm.c:241-257 | each byte of the mapping is that of the last copy covering it |
| Dma.UncoveredStays | meimm/meimm.c:241-257 | a byte no copy covered is unchanged |
| Dma.Meimm.Init | meimm/meimm.c:125-135 | no descriptor, nothing exposed, nothing held |
| Dma.Meimm.Deinit | meimm/meimm.c:114-123 | the descriptor is closed and a mapping still there is forgotten |
| Dma.Meimm.AllocMapMemory | meimm/meimm.c:160-198 | ALLOCATED exactly when all three steps worked, with a mapping of the driver's size; return value; what an earlier allocation held is lost |
| Dma.Meimm.FreeMemory | meimm/meimm.c:200-229 | status, return value, and whether the mapping was released or lost |
| Dma.Meimm.GetAddr | meimm/meimm.c:231-234 | the mapping is exposed only while live, of the stated size, with an open descriptor |
| Dma.Meimm.GetSize | meimm/meimm.c:236-239 | the mapping's length, or -1 |
| Dma.Meimm.Memcpy | meimm/meimm.c:241-257 | an in-range copy overwrites its range, anything else changes nothing |
| Dma.Meimm.CopyAll | meimm/meimm.c:241-257 | any run of copies equals the fold of pure overwrites |
| Dma.Meimm.Do | meimm/meimm.c:114-257 | one call keeps the invariant, and loses a descriptor or a mapping exactly when it allocates over an open descriptor, closes over a live mapping or fails to release one |
| Dma.Meimm.Drive | meimm/meimm.c:114-257 | any run of calls from initialisation keeps the invariant, and loses something exactly when some call of it was not orderly |
| Latch.SepService.Call | Lib/service/sepserviceapp/src/com/intel/security/service/ISEPServiceImpl.java:114-126 | a caught exception latches its code, otherwise the latch stays |
| Latch.SepService.IhaGetLastError | Lib/service/sepserviceapp/src/com/intel/security/service/ISEPServiceImpl.java:816-820 | the code is read and cleared |
| Latch.IhaManager.IhaGetLastError | Lib/service/apimanagers/com/intel/host/ipt/iha/IHAManager.java:1048-1064 | value and both latches for every state and delivery |
| Latch.IhaManager.Operate | Lib/service/apimanagers/com/intel/host/ipt/iha/IHAManager.java:106-131 | outcome and both latches of an operation |
| Latch.FaithfulIff | Lib/service/apimanagers/com/intel/host/ipt/iha/IHAManager.java:115-123 | for every latch state, validity and delivery: exactly when an operation throws its own error and no other |
| Latch.CleanStep | Lib/service/apimanagers/com/intel/host/ipt/iha/IHAManager.java:106-131 | from clear latches an operation throws exactly its own error if and only if the report of that error was delivered, and a reading client leaves them clear unless the error was stranded |
| Latch.LatchesClear | Lib/service/apimanagers/com/intel/host/ipt/iha/IHAManager.java:1048-1064 | over every run of a reading client the latches are clear before every operation exactly when none strands an error |
| Latch.ErrorLatch | Lib/service/apimanagers/com/intel/host/ipt/iha/IHAManager.java:1048-1064 | over every run of a reading client every operation throws exactly the error its service call set, if and only if the calls of the operations that meet an error are delivered |
| Latch.StrandedErrorSurfacesLater | Lib/service/apimanagers/com/intel/host/ipt/iha/IHAManager.java:115-123 | an error whose report was lost, thrown by the next operation |
| Latch.LostReportNeverSurfaces | Lib/service/apimanagers/com/intel/host/ipt/iha/IHAManager.java:1054-1057 | an error that was read and lost, thrown by no operation |
| Latch.BadArgumentLatched | Lib/service/apimanagers/com/intel/host/ipt/iha/IHAManager.java:109-113 | a bad argument is latched as 13 with the manager alone: read once, thrown by the next operation, forgotten by init |
| Latch.InitForgetsManager | Lib/service/apimanagers/com/intel/host/ipt/iha/IHAManager.java:73-83 | after init the next operation is told the service's error or its own, never the manager's |
| Latch.DeInitKeepsManager | Lib/service/apimanagers/com/intel/host/ipt/iha/IHAManager.java:94-104 | after deinit the next operation is told the manager's error |

## Left out

- Keymaster.SepKeymaster.SendCmd: does not promise the documented response id, because the code selects it by the response code; the exact condition is in Delivery.ResponseIdIff.
- Keymaster.SepKeymaster.SendCmd: is stated for calls within Keymaster.Sound only; what happens after an access outside a buffer or a wrapped request size has no defined result in C.
- RequestProofs.TranslationRecovers: gives key blobs of sign and verify commands and imported private exponents up to trailing zeros, because their lengths are not transmitted.
- ResponseProofs.ResponseRoundTrip: is stated for responses to the five listed commands and for failures; ResponseProofs.UnlistedKeepsLengths covers the others.
- Log.TxeiLog.LogBuf: takes the expanded label as a parameter; expansion of printf formats is not modelled, and a failed append of the tag, of hex digits or of a line break is not either.
- Log.TxeiLog.Log: takes the expanded message as a parameter, for the same reason.
- Latch.IhaManager.Operate: has one validity flag for the argument checks of each method, and leaves out the copying of in/out arrays between shorts and ints.
- Protocol.CapabilityProtocol: takes the capabilities as known when the library does; when the firmware granted them is in Capabilities.CommandsAreGranted.
- Dma.Meimm.Memcpy: leaves out copies outside the mapping whose bound check passes by wrap-around, because such an access has no defined result in C; Dma.CheckMeansInRange tells them apart.
- Dma.Meimm.CopyAll: leaves out the same copies, and nothing else.
- Dma.Meimm.Do: leaves out the same copies, and nothing else.
- Dma.Meimm.Drive: leaves out the same copies, and nothing else.
- Log destinations, levels set at run time and Android priorities: output only.
- The version query and the DMA helpers of the transport, and the second copy of the transport in Lib/txei_lib.c: the transport is modelled once.
- The four media-vault functions without data are one case, MvfwControl, because they differ only in the command id.
- Heap allocation of the DMA object (meimm_alloc, meimm_free): wrappers around init and deinit.
- UMIP access, the command-line tools, JNI, AIDL and the per-method Java forwarding: request filling or plumbing.
- Firmware and cryptography: every reply is allowed.
- Threads: the statics and global frames are used by one caller at a time.

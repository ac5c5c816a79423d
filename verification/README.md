# A verified model of the client's hard parts

This project models, in Dafny, the parts of the remote-desktop client whose correctness
rests on more than one function: the audio jitter buffer, the server settings carried in a
file name, clipboard synchronisation, the frame hand-off to the user interface, the registry
of peer sessions, and the smaller state machines of the throttled timer, LAN discovery, login
passwords, video decoding and the online-state query. For each it proves what holds over every
input, every interleaving or every sequence of events.

`dafny verify dfyconfig.toml` checks the whole project.

## Main results

* **Audio** (`Audio`, `AudioRuns`, `AudioBuffers`). Over every interleaving of appending,
  shrinking, playing and resizing, and of other buffers sharing the process-wide clock: a pass
  drops at most two thirds of every occupancy it has seen (compared as durations, so resizes are
  covered), only if none of them was below 200 ms, and leaves more than twice what it drops;
  when a pass happens and what it drops is decided by how many readings fell into each tenth of
  a second since the last one, and the decision is stated; the ring is always the end of the
  history, samples are played in order and at most once, and played, dropped and buffered
  samples add up; mono and stereo frames are never torn. A resize that changes the channel count
  but not the capacity can tear them, and the exact condition is proved.
* **File names** (`Base64Url`, `CustomServers`, `JsonReading`, `FileNames`, `FileNameRoundTrip`,
  `KeyValueNames`). Where dashes can occur in a printed name, why the parser's replacements and
  splits leave it whole, and exactly when the round trip succeeds behind any text that ends in a
  dash: after a plain prefix, when the number of dashes in front of the name or of `-licensed-`
  is even, as in the forms the parser's own tests use. The one file name the repository prints,
  `rustdesk-custom_serverd-{name}.exe`, has a single dash, and is never read back, for any
  server. In the readable format a last value ending in `.exe` is cut, exactly when no trailing
  comma follows. Names that the vendor signed give the signed server.
* **Clipboard** (`ClipboardWire`, `ClipboardSync`). What leaves an untagged clipboard is exactly
  its shareable items, in order; nothing a machine sends was put on its clipboard by the other
  machine; without further copies a weighted count bounds the events that can still follow. The
  codec keeps every item except a special item that compression does not shorten, which arrives
  with the bytes of its name as data, and images whose sides do not fit 32 bits.
* **Frames and sessions** (`FrameHandoff`, `Sessions`). No producer step touches what a valid
  slot holds, a free slot takes the frame, a frame visible between producer calls has been
  announced, each announcement goes to a session that shows the display and each such session
  gets it, and buffers are neither lost nor shared. The nested session registry refines a flat
  map from UI sessions to peers, and closes a peer session exactly with its last UI session. An
  added id that another peer session has breaks this: it outlives its closing, and closes a peer
  session too early exactly if it was the only UI session there.
* **Smaller machines.** The throttle is optimal (`Throttle`); the merged LAN list has a closed
  form that shows each answered peer's last response, and stored addresses survive, and win,
  exactly if the id had answered for another user before (`LanPeers`); the decoder's failure
  counter is a function of the history (`VideoDecoding`); the online bitmap splits the ids by
  their bits (`OnlineStates`); the ladder of login passwords and what is saved of them are
  stated case by case, and under one salt a shared password is never saved, exactly if no switch
  login waits while a token carries one to be remembered that is not saved yet, and never
  offered to the personal address book, exactly if none waits while a token carries one to be
  remembered at all (`Login`).

Library functions that the sources call and that are not modelled are parameters with the
property they are used for as a hypothesis: JSON reading (`Library.ReadsJson`), signature
checking (`Library.verify`; failing round trips assume that no vendor-signed string starts with
the server's own text), compression (`Codec.Lossless`) and SHA-256 (`Sha`, of which only the
length of its result is used). Clock readings, read and write failures, the order in which a
hash map is searched and the number of clipboard notifications are part of the events.

## Model

| member | source | states |
|---|---|---|
| `Audio.Capacity` | src/client.rs:1158-1159 | the ring holds exactly three seconds of samples |
| `Audio.Default` | src/client.rs:1144-1155 | the default buffer satisfies the invariant capacity = 3 × rate |
| `Audio.ResizeRecomputes` | src/client.rs:1158-1166 | skipping the reallocation leaves the rate and capacity that recomputing both would store, and drops the samples exactly when the rate changes |
| `Audio.Bucket` | src/client.rs:1172-1176 | the bucket is the tenth of a second the occupancy falls into, the last one open-ended |
| `Audio.LeadingEmpty` | src/client.rs:1192-1198 | the number of leading empty buckets |
| `Audio.Mode` | src/client.rs:1194-1206 | the least index of the maximum over buckets 1 to 29, 0 if those are empty |
| `Audio.Skip` | src/client.rs:1207-1227 | the dropped amount is even, bounded by the water mark's share of the capacity, and less than a third of what is buffered |
| `Audio.PassDecides` | src/client.rs:1191-1228 | what a pass leaves, read off the counts: everything if the mode is below 600 ms, otherwise the even share of the smaller mark goes if more than three times as much is buffered |
| `Audio.DropArithmetic` | src/client.rs:1208-1224 | the drop size of a mark bounded by the leading empty buckets is at most two thirds, up to rounding, of any occupancy above those buckets |
| `AudioBuffers.AudioBuffer.constructor` | src/client.rs:1144-1155 | the default state |
| `AudioBuffers.AudioBuffer.Resize` | src/client.rs:1158-1166 | the new state, rate and capacity |
| `AudioBuffers.AudioBuffer.AppendPcm2` | src/client.rs:1233-1247 | both branches leave the last `cap` samples of old and new and return their number |
| `AudioBuffers.AudioBuffer.TryShrink` | src/client.rs:1168-1228 | records the occupancy, and passes exactly when twelve seconds are over on the shared clock |
| `AudioBuffers.AudioBuffer.RunPass` | src/client.rs:1191-1228 | clears every bucket and leaves what the counts decide |
| `AudioBuffers.Scan` | src/client.rs:1192-1213 | the in-place loop finds the leading empty buckets and the mode of the old counts and leaves every bucket zero |
| `AudioBuffers.AudioBuffer.AppendPcm` | src/client.rs:1252-1255 | append, then shrink with the occupancy after the append |
| `AudioBuffers.AudioBuffer.FillOutput` | src/client.rs:1428-1469 | plays the oldest samples in order and pads with silence |
| `AudioRuns.SafeDrop` | src/client.rs:1168-1228 | in every run a drop is at most two thirds (plus rounding) of every occupancy recorded since the previous pass, none of which was below 200 ms, and more than twice the drop remains |
| `AudioRuns.PassDecision` | src/client.rs:1168-1228 | in every run a shrink passes exactly when the clock has started and twelve seconds are over, and what the pass leaves is decided by the number of readings in each bucket since the last one |
| `AudioRuns.AppendKeepsAllItCan` | src/client.rs:1233-1247 | an append keeps all of old and new samples or the last three seconds of them |
| `AudioRuns.PlaysWhatThereIs` | src/client.rs:1428-1462 | a callback plays the smaller of requested and buffered, oldest first |
| `AudioRuns.FifoConservation` | src/client.rs:1220-1256 | in every run the ring is the end of the history, output is the history at increasing positions, and played + dropped + buffered = appended |
| `AudioRuns.HistogramOfRun` | src/client.rs:1172-1189 | each bucket counts its readings since the last pass, the sum is their number, and passes are at least 12000 ms apart under any clock that never reads 0 |
| `AudioRuns.RunAligned` | src/client.rs:1158-1247 | with one or two channels and aligned input every removal is a whole number of frames |
| `AudioRuns.ResizeAlignmentCondition` | src/client.rs:1158-1166 | a resize keeps whole frames exactly when it reallocates or the buffered samples are whole frames of the new layout; a counterexample |
| `AudioRuns.StepInv` | src/client.rs:1158-1256 | every step keeps the ring, histogram, ledger and clock invariant |
| `Base64Url.DecodeEncode` | src/naming.rs:6-6 | decoding inverts encoding for every byte string |
| `Base64Url.EncodeDecode` | src/custom_server.rs:28-28 | the strict decoder accepts nothing but encodings |
| `Base64Url.AlphabetOf` | src/naming.rs:6-6 | the alphabet is the URL-safe one |
| `Base64Url.QuadBits` | src/naming.rs:6-6 | four values are the 24 bits of three bytes, most significant first |
| `Base64Url.DashPositions` | src/naming.rs:6-6 | for ASCII bytes the dash occurs only at indices congruent to 3 modulo 4 |
| `Base64Url.LastSextet` | src/naming.rs:6-6 | the encoding of a text ending in `}` ends in one of three characters, none a dash |
| `Base64Url.BytesOfExtended` | src/custom_server.rs:28-28 | an encoding with text beginning with a dash appended never decodes to the encoded bytes alone |
| `CustomServers.ToJson` | src/custom_server.rs:9-19 | the JSON text of an ASCII record is ASCII, opens with `{"` and ends in `}` |
| `CustomServers.EndingRemoved` | src/custom_server.rs:40-46 | exactly the longest of the two endings is removed, in any case |
| `JsonReading.TextUnique` | src/custom_server.rs:9-19 | no two servers print the same JSON text, and none prints the start of another's |
| `JsonReading.LiteralText` | src/custom_server.rs:9-19 | the members in declaration order, literally, for values that need no escapes |
| `JsonReading.ReaderExists` | src/custom_server.rs:29-31 | what the other results ask of the JSON library can be met, whatever the signature check accepts |
| `CustomServers.GetCustomServer` | src/custom_server.rs:39-109 | the loops with early return compute the first decodable candidate or the last value of each key |
| `CustomServers.ReadPieces` | src/custom_server.rs:98-103 | the first decodable piece between parentheses |
| `CustomServers.ReadParts` | src/custom_server.rs:60-81 | each setting is the value of its last part, in any case of the key |
| `FileNames.ConfigStringDecides` | src/custom_server.rs:21-37 | a reversed encoding decides by its JSON, and otherwise by the JSON a vendor signed in it |
| `FileNames.OnlyEncodingsDecide` | src/custom_server.rs:28-28 | no other string decides anything |
| `Text.SplitGlue` | src/custom_server.rs:89-93 | where no match lies across a border, splitting works on both sides separately |
| `Text.ReplaceGlue` | src/custom_server.rs:89-92 | the same for replacing |
| `Text.SplitJoin` | src/custom_server.rs:61-61 | splitting at a character undoes joining with it |
| `Text.TrimBoth` | src/custom_server.rs:95-95 | trimming takes white space from both ends and nothing else |
| `Text.LowerIsCaseless` | src/custom_server.rs:40-59 | a text lower-cases to a lower-case one exactly when it is that in another case |
| `FileNames.PrintedShape` | src/naming.rs:5-8 | token integrity: dashes of a printed name are at distances congruent to 3 modulo 4 from its end and at neither end |
| `FileNames.NoMarkerInside` | src/custom_server.rs:89-93 | a printed name contains neither `--` nor any `-licensed-` pattern |
| `FileNames.TokensAround` | src/custom_server.rs:89-93 | the replace and split chain leaves a printed name whole in any surroundings, whose tokens it does not change |
| `FileNames.PrintedTokenDecodes` | src/custom_server.rs:94-104 | a printed name with any duplicate marks is found in its token |
| `FileNames.ResidueTokenFails` | src/custom_server.rs:94-104 | with any text in front that ends in a dash and holds no decodable piece, neither the token nor a piece of it decodes |
| `FileNameRoundTrip.DashResidue` | src/custom_server.rs:89-93 | any text that ends in a dash keeps nothing in front of the name, or text that ends in a dash |
| `FileNameRoundTrip.SeparatorResidue` | src/custom_server.rs:89-93 | after any prefix and a separator one of four texts is kept in front of the name |
| `FileNameRoundTrip.RoundTrip` | src/custom_server.rs:39-108 | behind any text that ends in a dash and holds nothing decodable, parsing returns the record if nothing of that text is kept in front of the name, and otherwise passes the name over |
| `FileNameRoundTrip.RoundTripSeparated` | src/custom_server.rs:89-104 | the same for every prefix and the two separators, without a condition on pieces between parentheses |
| `FileNameRoundTrip.RoundTripPlain` | src/custom_server.rs:89-108 | after any plain prefix, dashes and an optional `-licensed-`, with duplicate marks, further `--` parts and `.exe` endings, the record comes back exactly when the dashes are even in number |
| `FileNameRoundTrip.ProgramNameFails` | src/naming.rs:21-21 | the name the repository prints, with its single dash, is never read back, for any server |
| `FileNames.SignedTokenDecodes` | src/custom_server.rs:32-33 | a vendor-signed server is found in its token, with any duplicate marks |
| `FileNameRoundTrip.SignedNameDecodes` | src/custom_server.rs:94-104 | a file name with such a token gives the signed server |
| `KeyValueNames.HostKeyFound` | src/custom_server.rs:59-60 | `host=` cannot overlap itself, so the listing starts at its first match |
| `KeyValueNames.Spellings` | src/custom_server.rs:67-80 | the names of the settings may be spelled in any mixture of cases |
| `KeyValueNames.ListingRoundTrip` | src/custom_server.rs:39-87 | each field gets its last value, exactly if a trailing comma follows or the last value does not end in `.exe` |
| `KeyValueNames.KeyValueRoundTrip` | src/custom_server.rs:39-87 | a listing of a server in any order and case gives it back under that condition, and only then |
| `ClipboardWire.ItemRoundTrip` | src/clipboard.rs:552-680 | under any compressor an item comes back unchanged exactly when its bytes do and its image sides fit; a special item also when it is its own name |
| `ClipboardWire.RecordOfItem` | src/clipboard.rs:552-640 | the record of each kind of item: its format, sizes and name, compressed exactly when that is shorter, and what is sent otherwise |
| `ClipboardWire.ItemOfRecord` | src/clipboard.rs:651-680 | what any record gives: malformed text is dropped, malformed SVG arrives empty |
| `Octets.CharBits` | src/clipboard.rs:615-622 | the bytes of a name: the characters' codes in as few bytes as possible |
| `Octets.EncodedIsUtf8` | src/clipboard.rs:615-622 | they are well-formed UTF-8 |
| `ClipboardWire.ListRoundTrip` | src/clipboard.rs:643-688 | decoding an encoded list gives each known item's arrival in order |
| `ClipboardWire.ListUnchanged` | src/clipboard.rs:643-688 | the list is unchanged exactly when each known item is |
| `ClipboardSync.Machine.constructor` | src/clipboard.rs:20-30 | a machine starts with its clipboard and no cached message |
| `ClipboardSync.Machine.GetFormatsFilter` | src/clipboard.rs:327-356 | nothing when the content is tagged and the read not forced, otherwise the shared items in order |
| `ClipboardSync.Machine.CheckClipboard` | src/clipboard.rs:52-76 | the message sent and the cached copy |
| `ClipboardSync.Machine.UpdateClipboard` | src/clipboard.rs:198-231 | remote content is written with the owner tag |
| `ClipboardSync.UpdatedIsTagged` | src/clipboard.rs:519-531 | either side takes either side's tag as a reason not to send |
| `ClipboardSync.OutgoingExactly` | src/clipboard.rs:38-49 | nothing leaves a tagged clipboard unless forced; otherwise exactly the RTF, HTML and image items, non-empty texts and spreadsheet items, in order and as often as they occur |
| `ClipboardSync.OwnTags` | src/clipboard.rs:515-522 | each side marks with its own bit, and both count as tags |
| `ClipboardSync.NoticeSends` | src/clipboard.rs:52-76 | a readable change sends what the clipboard shares, unless tagged or empty |
| `ClipboardSync.DeliveryWrites` | src/clipboard.rs:198-231 | any message is written with the receiver's tag, or changes nothing if it holds nothing |
| `ClipboardSync.NoEcho` | src/clipboard.rs:52-76 | in every run whatever was sent a user had copied at the sending machine |
| `ClipboardSync.TrafficStops` | src/clipboard.rs:207-231 | without further copies each event lowers a weighted count of notifications and messages |
| `ClipboardSync.DeliveredContent` | src/clipboard.rs:198-231 | the delivery of a copied clipboard leaves the arrivals of its shared items, in order, and the receiver's tag |
| `FrameHandoff.FlutterHandler.StoreFrame` | src/flutter.rs:1190-1205 | gives up on a valid slot, otherwise swaps the buffers |
| `FrameHandoff.FlutterHandler.NotifySessions` | src/flutter.rs:1207-1224 | tells exactly the sessions with a stream that show this display alone or, if there is one session, at most one display |
| `FrameHandoff.FlutterHandler.NextRgba` | src/flutter.rs:1093-1097 | clears the flag and nothing else |
| `FrameHandoff.FlutterHandler.OnRgbaSoftRender` | src/flutter.rs:1178-1238 | undisturbed, a free slot takes the frame and stays valid exactly if someone was told |
| `FrameHandoff.StepInv` | src/flutter.rs:1178-1238 | every locked step of producers, interface and session changes keeps ownership and announcement of frames |
| `FrameHandoff.ValidSlotUntouched` | src/flutter.rs:1190-1205 | under all interleavings no producer step changes a valid slot's buffer or contents; only an unannounced frame is retracted |
| `FrameHandoff.ValidMeansAnnounced` | src/flutter.rs:1207-1237 | a slot valid between producer calls has had an event for the frame it holds |
| `FrameHandoff.FreeSlotFilled` | src/flutter.rs:1190-1205 | under all interleavings a free slot takes the decoded frame, and a valid one makes the producer give up |
| `FrameHandoff.CountIsRemembered` | src/flutter.rs:1208-1208 | the loop goes by whether there were several sessions when they were counted |
| `FrameHandoff.ListenersTold` | src/flutter.rs:1209-1237 | under all interleavings each session that listens gets one announcement of the stored frame, nobody else any, and without listeners the frame is given up |
| `FrameHandoff.AnnouncedToListeners` | src/flutter.rs:1209-1222 | every announcement of a run went to a session that listened then: with several sessions one of that display alone, otherwise one of at most one display |
| `FrameHandoff.BuffersConserved` | src/flutter.rs:1191-1204 | all buffers are distinct and their set changes only by a new slot's buffer or a cleared cache |
| `Sessions.SessionRegistry.Lookup` | src/flutter.rs:2083-2096 | finds a peer session that has the id, if there is one |
| `Sessions.SessionRegistry.SessionAdd` | src/flutter.rs:1313-1361 | refused exactly when the id is registered, otherwise the id joins its peer's session |
| `Sessions.SessionRegistry.SessionAddExisted` | src/flutter.rs:2237-2268 | the id joins a registered peer session, without a check, and a single display is named whose valid flag is cleared |
| `Sessions.SessionRegistry.Remove` | src/flutter.rs:2104-2125 | removes the handler where the search finds it, and the session with its last handler |
| `Sessions.StepRefines` | src/flutter.rs:2104-2268 | each call is the same call on a flat map from UI sessions to peers, and closes exactly with the last UI session |
| `Sessions.ReferenceCounting` | src/flutter_ffi.rs:242-251 | in every sequential run with fresh ids no peer session is empty, ids are unique, and a close happens exactly with the last UI session |
| `Sessions.SessionsCarry` | src/flutter.rs:2215-2268 | in every such run each UI session has the displays of its last registration, and each peer session the connection it was made with |
| `Sessions.AddExistedCondition` | src/flutter.rs:2237-2268 | ids stay unique exactly when no other peer session has the added one |
| `Sessions.FreshnessNeeded` | src/flutter.rs:2104-2268 | after any sequential run and one more added id, closing that id can leave it registered exactly if it was another peer's, and closes a peer session too early exactly if it was the only UI session there |
| `Sessions.SharedIdClosesEarly` | src/flutter.rs:2104-2125 | a run in which a peer session closes while the UI session is still registered elsewhere |
| `Throttle.ThrottledInterval.constructor` | src/common.rs:1545-1552 | first tick due at once, minimal interval nine tenths of the period |
| `Throttle.ThrottledInterval.PollTick` | src/common.rs:1559-1575 | passes a ready tick exactly when it is due, and then moves the due time |
| `Throttle.ThrottledInterval.Drive` | src/common.rs:1554-1575 | the accepted positions over a sequence of ready instants |
| `Throttle.ThrottleOptimal` | src/common.rs:1559-1575 | accepted ticks keep the gap and stay ahead of every other selection that does |
| `Throttle.GreedyAll` | src/common.rs:1559-1575 | on ticks already far enough apart the throttle is the identity |
| `LanPeers.HandleReceivedPeers` | src/lan.rs:303-342 | the receive loop computes the fold of the responses and keeps a duplicate-free list so |
| `LanPeers.ClosedForm` | src/lan.rs:303-338 | the list is the answered peers, most recent first, then the unanswered ones |
| `LanPeers.MergedList` | src/lan.rs:303-338 | duplicate-free, answered peers online, exactly the unanswered stored peers offline in order |
| `LanPeers.ReceivedRecords` | src/lan.rs:315-323 | the record of every answered peer is that of its last response, online as it says or after a repeated answer, with its addresses |
| `LanPeers.LastResponsesShown` | src/lan.rs:315-323 | when responses are online the list shows each answered peer's last response, but for the addresses |
| `LanPeers.StoredRemain` | src/lan.rs:303-307 | the stored peers that did not answer follow, offline, otherwise as they were, in their order |
| `LanPeers.MostRecentOrder` | src/lan.rs:323-323 | answered peers are ordered strictly by their last response |
| `LanPeers.EntryAddresses` | src/lan.rs:315-323 | an answered peer has the addresses it answered from, and over them the stored ones if its id had answered before its first response |
| `LanPeers.StaleCondition` | src/lan.rs:315-323 | it has exactly the addresses it answered from if and only if its id had not answered before its first response, it was not stored, or each stored address was answered with the same value; otherwise the stored values win |
| `LanPeers.StaleAddressSurvives` | src/lan.rs:310-323 | two users of one id: the second one's old address survives its new answer |
| `LanPeers.EarliestWins` | src/lan.rs:319-319 | per IP the earliest answer wins |
| `LanPeers.FreshAddresses` | src/lan.rs:315-323 | when each id belongs to one peer nothing stale survives |
| `Login.LoginConfigHandler.constructor` | src/client.rs:1718-1808 | the state after `initialize`, with what a reconnect token carries |
| `Login.LoginConfigHandler.OnHash` | src/client.rs:3274-3359 | the order in which passwords are tried and what is recorded as their source |
| `Login.LoginConfigHandler.OnLoginError` | src/client.rs:3220-3232 | an empty or wrong password is forgotten, its source is not |
| `Login.LoginConfigHandler.OnLoginFromUi` | src/client.rs:3420-3446 | a typed password replaces the session's, an empty one falls back to the saved |
| `Login.LoginConfigHandler.OnPeerInfo` | src/client.rs:2415-2478 | what is saved and what is offered to the address book |
| `Login.PasswordOrder` | src/client.rs:3281-3343 | the ladder of passwords: shared, session, preset, saved, address book, built-in, and the source recorded for each |
| `Login.TypedPassword` | src/client.rs:3420-3446 | a typed password is used and not known as shared; without one the session's or the saved one is |
| `Login.SavedAndOffered` | src/client.rs:2427-2478 | what is saved and what is offered, with and without remembering, for every source |
| `Login.ErrorForgets` | src/client.rs:3220-3232 | a missing or wrong password is forgotten, and nothing else |
| `Login.LeakCondition` | src/client.rs:2427-2450 | after any events peer-info saves a shared password exactly when remembering is on, it is new, and its record was reset or the salt is another one |
| `Login.OfferCondition` | src/client.rs:2462-2478 | after any events peer-info offers a shared password to the personal address book exactly when remembering is on and its record was reset or the salt is another one |
| `Login.Provenance` | src/client.rs:3281-3343 | under one salt no continuation saves a shared password, exactly if the start is protected from the switch login's reset |
| `Login.OfferProvenance` | src/client.rs:3281-3343 | under one salt no continuation offers a shared password, exactly if no switch login waits while a remembered one is held, saved or not |
| `Login.ForgottenOrPersonal` | src/client.rs:2441-2450 | with remembering off the saved password is empty or an address-book one |
| `Login.SaltChangeLeaks` | src/client.rs:1642-1659 | a changed salt lets a shared password be saved |
| `VideoDecoding.VideoHandler.constructor` | src/client.rs:1504-1523 | a new handler has no failures and waits for its first frame |
| `VideoDecoding.VideoHandler.HandleFrame` | src/client.rs:1527-1576 | the counter and first-frame flag after a frame, with a reset on a new format |
| `VideoDecoding.VideoHandler.Reset` | src/client.rs:1580-1592 | a new decoder starts without failures |
| `VideoDecoding.DecodedReflects` | src/client.rs:1545-1562 | the counter is the trailing failures, or two more than the frames if all failed, saturating |
| `VideoDecoding.CountCondition` | src/client.rs:2795-2797 | the count condition means all frames since the reset failed or the last three did |
| `VideoDecoding.CurrentDecoder` | src/client.rs:1580-1592 | in every run the validity in force is the library's answer for the decoder made last |
| `VideoDecoding.FailureHistory` | src/client.rs:2792-2817 | in every run, with other displays marking formats in between, a frame marks its format exactly when unmarked and the library calls its decoder invalid or it failed often enough, the shared list stays duplicate-free, and one update is sent per mark |
| `OnlineStates.SplitStates` | src/client.rs:3889-3901 | the loop selects the ids by their bits, or panics exactly when the answer is too short |
| `OnlineStates.PackedSplit` | src/client.rs:3892-3896 | decoding a bit vector packed most significant bit first recovers it |
| `OnlineStates.SelectPartitions` | src/client.rs:3896-3900 | every id lands in exactly one of the outputs |

## Left out

- Generated bridge code, one-line forwarding and the build scripts: nothing to prove about them.
- Sockets, relays, rendezvous, KCP and the key exchange: clients of libraries that are not part of this model.
- Audio devices, resampling and rechannelling, video decoding itself, GPU textures and raw pointers: foreign code.
- Non-ASCII file names: lower-casing is modelled for ASCII only, and a server's fields are ASCII.
- The text of errors and messages to the user, and the login challenge: they do not influence what is proved.
- File-list clipboards, forced clipboard reads at session start, and the order in which the system returns clipboard formats: a read keeps the order of the content.
- `get_msg_if_not_support_multi_clip` and the Android clipboard: a choice of one item.
- The gap between the two lock acquisitions of `remove_session_by_session_id`: each registry call is one step.
- The displays captured after a session leaves, and the texture renderer: they do not touch the slots or the registry.
- Concurrent changes of a peer's saved configuration by another process: the handler's copy and the stored one are the same.
- 32-bit word sizes: capacities and counters are unbounded except where a cast or saturation is modelled.
- `LanPeers.HandleReceivedPeers`: the list after the last response, not the copies stored while responses come in.
- `Sessions.SessionRegistry.SessionAddExisted`: the clearing itself is a step of `FrameHandoff`.
- `Throttle.ThrottledInterval.constructor`: nine tenths of the period in whole nanoseconds, not the floating-point product.
- `OnlineStates.SplitStates`: the network query around the loop is not part of it.

# Verified model of the GoPro BLE/CAN bridge firmware

The firmware connects to a GoPro camera over Bluetooth LE, cuts commands into 20-byte frames, puts notifications
together again, and bridges both to ISO-TP messages on a CAN bus. This project models the parts with the most
state and proves what they promise over all inputs, runs and interleavings. `dafny verify dfyconfig.toml` checks
everything.

Where the C code updates a structure in place, the model is a class with the same fields, and each method is
proved against a function or state machine on plain values; the lemmas are about those.

| file | models |
|---|---|
| `Bytes.dfy` | fixed-width integers, the masks of the frame headers as arithmetic, memory behind a pointer |
| `Sequences.dfy` | subsequences |
| `Reassembler.dfy` | frame headers, and the in-place packet reassembler `gopro_packet_build` |
| `Reassembly.dfy` | whole runs of the reassembler, complete and truncated messages |
| `Resynchronisation.dfy` | runs in which arbitrary frames are lost |
| `Fragmenter.dfy`, `RoundTrip.dfy` | the two fragmenters, and that the reassembler undoes them |
| `Status.dfy`, `HardwareInfo.dfy` | the parsers fed by the reassembler |
| `ChunkPool.dfy`, `AttrMemory.dfy` | the bump allocator of the discovery manager, and where it puts each attribute's UUID and value |
| `Uuids.dfy`, `Discovery.dfy`, `DiscoveryRuns.dfy`, `DiscoveryManager.dfy` | GATT discovery: steps, runs, instance |
| `ConnectionAttempts.dfy`, `ScanFilter.dfy` | the attempts ring and the scan decision |
| `GoproClient.dfy`, `WritePipeline.dfy` | BLE writes: pending bits, write semaphore, subscriber thread |
| `IsoTp.dfy` | the ISO-TP receive buffer and the two permits of the CAN side |

## Where the code does not keep what it seems to promise

Each of these is stated exactly, as an if-and-only-if or as a count.

- A payload of 8190 bytes passes the guard `len < 8191`, but its declared length 8192 wraps to 0 in the 13-bit
  header and the whole message is dropped. The round trip holds exactly up to 8189 bytes (`BigDataRoundTrip`). This is
  a limit of the static function alone: its callers pass at most 2048 bytes (src/gopro_protobuf.h:8-9).
- Frames carry no message number, and the continuation number is ignored on reception. If a message loses its
  start frame, its continuations can complete an older message. Deliveries are exactly the complete messages
  precisely when no such splice happens (`Resynchronises`); `SplicedDelivery` gives a family of spliced messages and
  `SpliceExists` one of them.
- Running out of space for an attribute reports an error, except for a characteristic declaration: its entry is
  dereferenced before the null check (`CrashWithoutRoom`). A characteristic reported in the third phase for an entry
  that is none has no value slot, which is asserted or written to all the same (`CrashWithoutSlot`). With an ascending
  peer a run crashes exactly at one of these two steps, and its discovery never calls back (`CrashesExactly`).
- The header documents that continue finds further instances of a service looked up by UUID. It is refused after
  an instance without attributes, because the request's UUID is still set (`ContinueAfterCompletion`, reached
  in `ContinueRefused`).
- In match-all mode structures are counted rather than kinds of filter: a kind satisfied twice suppresses a match or
  stands in for a missing kind. `AllModeExactly` gives the decision, and when it means what it should, from the number
  of surplus hits and of missing kinds; `DoubledKindReplacesMissing` is an input that goes wrong.
- A command that cannot be sent still waits for the write semaphore (`UnsendableStalls`, reached in `StallReached`).
- A timed-out wait puts one more write or permit under way, which a failed send or a superfluous report takes away again
  (`OutstandingBalance`); `SecondWriteReached` is a run with two writes outstanding.
- The value of an attribute is taken from the bytes in front of its UUID. They belong to the attribute exactly for the
  service itself and for characteristic declarations (`ValuesApart`); a second service declaration among the reported
  attributes has none (`SecondServiceStored`).
- The ISO-TP receive loop retries an allocation in the middle of a message; what is then published lacks the beginning
  (`WholeIffFirstAllocated`, with the message of `BeginningLost`).
- A reply permit is lost when memory runs out or `isotp_send` refuses a message; after one loss no reply is ever
  sent again (`ReplyPermitBalance`, `OneLossIsFinal`, reached in `PermitLost`).

## Assumptions

- `k_malloc` and `k_calloc` succeed or fail as a parameter says; nobody can allocate 4 GiB, which is what an unknown
  header asks for. The target is 32-bit: pointers take 4 bytes, the UUID structures 4, 8 and 17, the service and
  characteristic values 8.
- A frame handed to the reassembler has at least one byte and its whole header, and the payload of a start frame is not
  longer than the length it declares; other frames make the original access memory outside its buffers.
- Host callbacks of a discovery arrive only while a request is outstanding and with the kind of attribute asked for.
  That attributes ascend, and that services lie in the requested range, is assumed only where a lemma says so.
- The four write handles are distinct and not 0. UUID lists in advertising data consist of whole UUIDs, and stored names
  are terminated.
- The network layer of ISO-TP counts the remaining bytes down to 0 and delivers each block in one buffer.

## Model

| member | source | states |
|---|---|---|
| Bytes.HeaderMasks | src/gopro_packet.c:26-67 | on bit vectors, the header masks and shifts are the arithmetic the model uses |
| Bytes.HeaderJoins | src/gopro_packet.c:44-67 | on wider bit vectors, joining two length bytes is 256 times one plus the other, and the written length bytes are quotient and remainder by 256 |
| Reassembler.HeadersReadBack | src/gopro_packet.c:26-67 | a length written into a 5-bit, 13-bit or 16-bit header is the length it declares, and the header has the width of its kind; which first bytes are continuations and which are unknown |
| Reassembler.StartFields | src/gopro_packet.c:69-120 | feature and action of a start frame are the first two bytes of its message, and the data index leads behind them |
| Reassembler.PacketBuffer.Build | src/gopro_packet.c:305-395 | every frame takes the in-place buffer to the session and the deliveries of the state machine, keeps the zeroed tail and the allocation balance |
| Reassembler.PacketBuffer.Append | src/gopro_packet.c:329-339 | a fitting continuation extends the buffer or delivers and frees it |
| Reassembler.PacketBuffer.ReadHeader | src/gopro_packet.c:358-364 | every field a start frame sets: kind, feature, action, total length, data start and data length, the lengths wrapped as in C |
| Reassembler.PacketBuffer.Start | src/gopro_packet.c:358-393 | a start frame opens a session from its header and first payload, or delivers at once, or leaves no buffer |
| Reassembly.SessionHoldsSinceStart | src/gopro_packet.c:311-393 | in every run an open session holds exactly the payload bytes since the last start frame and waits for more |
| Reassembly.Reassembles | src/gopro_packet.c:305-395 | any cut of a message under any of three headers is delivered once, at its last frame, with feature and action from its first bytes, from any earlier state |
| Reassembly.ContinuationsDrain | src/gopro_packet.c:311-339 | which continuations extend, complete or overflow a session follows from their sizes alone |
| Resynchronisation.TransmissionRun | src/gopro_packet.c:305-395 | a message with its start frame is delivered if and only if nothing of it is lost and memory was available |
| Resynchronisation.Resynchronises | src/gopro_packet.c:305-395 | for every loss pattern: deliveries equal the complete messages in order if and only if no message without its start frame fills up an older one |
| Resynchronisation.CompletedAreDelivered | src/gopro_packet.c:305-395 | for every loss pattern the complete messages are a subsequence of the deliveries |
| Resynchronisation.DeliveriesCounted | src/gopro_packet.c:305-395 | every complete message is delivered, in order among the deliveries, and each splice adds one delivery |
| Resynchronisation.StartsResynchronise | src/gopro_packet.c:353-393 | if every message keeps its start frame or is lost altogether, exactly the complete messages are delivered, in order |
| Resynchronisation.SplicedDelivery | src/gopro_packet.c:311-339 | the failing family: a message that keeps only its start and a next one that loses only its start deliver one message made of both halves, which equals one of the two only if they agree in the other half |
| Resynchronisation.SpliceExists | src/gopro_packet.c:311-339 | the family is not empty: two 20-byte messages deliver a third that nobody sent |
| Fragmenter.CommandChannel.Publish | src/gopro_ble_discovery.c:715-746 | an idle channel takes exactly commands for the firmware itself, and connected ones of at most 20 bytes for the four channels |
| Fragmenter.SendContinuations | src/gopro_protobuf.c:823-849 | the loop with its reused frame buffer and 8-bit counter emits the numbered 19-byte pieces of the data |
| Fragmenter.SendBigData | src/gopro_protobuf.c:773-857 | the frames offered are those of feature, action and payload, and nothing from 8191 bytes on |
| Fragmenter.SendBuffer | src/gopro_protobuf.c:688-771 | the frames offered are those of the buffer; up to 20 bytes it is one frame as it stands |
| RoundTrip.LongWiresCarry | src/gopro_protobuf.c:797-850 | up to 8191 bytes the frames of a long message carry it |
| RoundTrip.WrappedHeaderIsLost | src/gopro_protobuf.c:797-802 | at 8192 bytes the header wraps to 0 and nothing is delivered |
| RoundTrip.BigDataCarries | src/gopro_protobuf.c:773-850 | the frames for a payload of up to 8189 bytes are a cut of its message |
| RoundTrip.BigDataRoundTrip | src/gopro_protobuf.c:773-857 | the reassembler delivers exactly the message sent if and only if the payload has at most 8189 bytes |
| RoundTrip.BufferRoundTrip | src/gopro_protobuf.c:688-771 | 21 to 8190 bytes arrive as one message; shorter buffers pass unchanged |
| RoundTrip.LossyRoundTrip | src/gopro_protobuf.c:773-857 | any number of messages over a link that loses continuations or whole messages: exactly those that arrive whole are delivered, in order |
| RoundTrip.ContinuationShape | src/gopro_protobuf.c:823-849 | continuations are 2 to 20 bytes, numbered modulo 16 beyond 256 of them, as few as possible, and carry every byte once |
| RoundTrip.LongShape | src/gopro_protobuf.c:797-850 | declared length, number of frames, frame sizes and conservation of the bytes for a whole long message |
| RoundTrip.BigDataShape | src/gopro_protobuf.c:773-857 | one frame up to 17 bytes of payload, then a full start frame and as few continuations as possible, nothing from 8191 bytes on |
| Status.CameraState.ReadVideoCount | src/gopro_packet.c:275-282 | the count is the big-endian value modulo 2^32 |
| Status.CameraState.ParseEntry | src/gopro_packet.c:255-296 | one entry sets its field and takes the bytes its id implies |
| Status.CameraState.ParseNotify | src/gopro_packet.c:229-302 | on every input the loop ends with the state and position of the entry walk, which lies past the message exactly when the counter ends below -1; other ids and results change nothing |
| Status.CameraState.ParseReply | src/gopro_packet.c:179-227 | a reply applies its single entry |
| Status.WalkConserves | src/gopro_packet.c:251-297 | on every input the position gains what the counter loses |
| Status.WalkIsFold | src/gopro_packet.c:251-297 | well-formed lists, whatever the length bytes of encoding and battery say, are applied entry by entry, the loop stops at the end with its counter one short, one stray byte is harmless |
| Status.NotifyIsFold | src/gopro_packet.c:229-302 | the same for a whole notification |
| Status.ReplyAgreesWithNotify | src/gopro_packet.c:179-302 | a reply and a notification with the same entry set the same state |
| Status.LastEntryWins | src/gopro_packet.c:260-296 | each field has the value of its last entry, or its old value |
| HardwareInfo.ReadModelNumber | src/gopro_packet.c:436-448 | or-ing shifted bytes gives the big-endian number |
| HardwareInfo.HardwareTexts.TakeText | src/gopro_packet.c:451-460 | a text that fits is copied with its terminator, another changes nothing |
| HardwareInfo.HardwareTexts.Parse | src/gopro_packet.c:429-521 | number, stored texts, end of the parse and length check on arbitrary memory |
| HardwareInfo.HardwareTexts.ParseVersions | src/gopro_packet.c:467-489 | the same from the firmware version on |
| HardwareInfo.HardwareTexts.ParseNetwork | src/gopro_packet.c:491-520 | the same from the access point on |
| HardwareInfo.TakeEncodedTexts | src/gopro_packet.c:451-513 | texts before the first that is too long are stored, that one and later ones are left alone |
| HardwareInfo.RecordRoundTrip | src/gopro_packet.c:429-521 | parsing an encoded record restores number and texts, ends exactly behind them, and passes the length check exactly with 11 bytes more |
| HardwareInfo.StoredReadsBack | src/gopro_packet.c:458-459 | a stored text reads back up to its terminator, and the bytes behind that are the old ones |
| ChunkPool.Pool.Alloc | src/nrf_hal/gatt_dm.c:103-139 | regions are aligned, inside one chunk and disjoint from all handed out before; failure changes nothing and happens exactly when a chunk is needed and missing |
| ChunkPool.Pool.Release | src/nrf_hal/gatt_dm.c:141-159 | all chunks are given back |
| ChunkPool.PlacedApart | src/nrf_hal/gatt_dm.c:103-139 | any part of one region handed out is disjoint from every other region, of whatever length |
| DiscoveryManager.Manager.ValuesApart | src/nrf_hal/gatt_dm.c:509-526 | for each stored attribute: its UUID is aligned and inside a region of its own; the value found in front of the UUID is inside that region if and only if it is the service or a characteristic declaration, and then neither overlaps anything else handed out |
| DiscoveryRuns.SecondServiceStored | src/nrf_hal/gatt_dm.c:387-430 | a run from power-up that stores a second service declaration, which has no value |
| DiscoveryManager.Manager.ServiceUuidFits | src/nrf_hal/gatt_dm.c:320-363 | the UUID of a service always finds room once its entry has, whatever k_calloc answers |
| Discovery.StepKeepsWellFormed | src/nrf_hal/gatt_dm.c:273-507 | what every step of a discovery keeps: what it awaits, its table, its request |
| DiscoveryRuns.RunKeepsWellFormed | src/nrf_hal/gatt_dm.c:638-749 | the same over every interleaving |
| DiscoveryRuns.OneTerminalPerDiscovery | src/nrf_hal/gatt_dm.c:273-318 | in every interleaving accepted starts and continues equal terminal callbacks plus the one discovery still open |
| DiscoveryRuns.CrashesExactly | src/nrf_hal/gatt_dm.c:387-468 | with an ascending peer a run ends in a null dereference if and only if it takes a characteristic declaration without room in the second phase or a third-phase report for an entry that is no characteristic; one accepted discovery then never calls back |
| DiscoveryRuns.CrashWithoutRoom | src/nrf_hal/gatt_dm.c:412-415 | a run from power-up that crashes in the second phase |
| DiscoveryRuns.CrashWithoutSlot | src/nrf_hal/gatt_dm.c:447-460 | a run from power-up that crashes in the third phase |
| DiscoveryRuns.RangeIsService | src/nrf_hal/gatt_dm.c:365-398 | over every run, a handle is in the range of the second and third request if and only if it belongs to the service found |
| DiscoveryRuns.SearchSkipsNothing | src/nrf_hal/gatt_dm.c:638-735 | over every run, a search is for the service of the last start and begins right behind the last service found |
| DiscoveryRuns.CallsAnswered | src/nrf_hal/gatt_dm.c:638-749 | over every run, the answers of start and release and of a busy continue follow from the numbers of accepted, called back, completed and released discoveries; a refused call changes nothing |
| DiscoveryRuns.ContinueAnswered | src/nrf_hal/gatt_dm.c:693-735 | over every run, when continue is malformed, ends the walk, is accepted, or fails |
| DiscoveryRuns.FailedContinueEndsWalk | src/nrf_hal/gatt_dm.c:721-733 | after a continue the host turned down, the next is refused or finds nothing |
| DiscoveryRuns.ReportsExplained | src/nrf_hal/gatt_dm.c:320-468 | what a report leads to in each phase: completion, each error, or nothing, each if and only if the peer or the memory gave its cause |
| DiscoveryRuns.EndingsExplained | src/nrf_hal/gatt_dm.c:303-507 | the same for the end of a request, the work item and a foreign connection |
| DiscoveryRuns.AttributesAreStored | src/nrf_hal/gatt_dm.c:387-430 | as long as the second phase lasts, the table has grown by handle, permissions and UUID of every attribute report, in order |
| DiscoveryRuns.AttributesAreTaken | src/nrf_hal/gatt_dm.c:387-430 | it lasts while there is memory and the table has room |
| Uuids.AssignedNumbers | src/nrf_hal/gatt_dm.c:509-526 | which UUIDs are service and characteristic declarations, and that none is both |
| DiscoveryRuns.TableStaysSorted | src/nrf_hal/gatt_dm.c:387-430 | attributes reported in ascending order keep the table sorted through all phases |
| DiscoveryRuns.SearchIsScan | src/nrf_hal/gatt_dm.c:245-271 | on a sorted table the binary search fails exactly when a linear scan does |
| DiscoveryRuns.CompletionHoldsReports | src/nrf_hal/gatt_dm.c:432-468 | whenever the third phase completes, with any refused calls in between, every entry holds the value last reported for its own handle, all else unchanged |
| DiscoveryRuns.CompletedTable | src/nrf_hal/gatt_dm.c:320-468 | from power-up: a discovery that completes with ascending handles leaves the service and all attributes reported for it, in order, each with the value last reported for its handle |
| DiscoveryRuns.DeclaredReportsAreTaken | src/nrf_hal/gatt_dm.c:432-468 | reports of characteristics found in the second phase are accepted while memory lasts |
| DiscoveryRuns.WalkAscends | src/nrf_hal/gatt_dm.c:693-735 | visited services have ascending disjoint ranges, and no walk makes more than 65535 further requests |
| DiscoveryRuns.WalkEnds | src/nrf_hal/gatt_dm.c:693-735 | on every walk all accepted continues but one for each handle left answer service-not-found, so of 65536 at least one does |
| DiscoveryRuns.WalkStaysEnded | src/nrf_hal/gatt_dm.c:715-719 | at the end of the range no run without a new start changes the state, makes a request or visits a service, and every accepted continue answers service-not-found |
| DiscoveryRuns.ContinueAfterCompletion | src/nrf_hal/gatt_dm.c:693-709 | continue is refused after completion if and only if an empty service was found by UUID |
| DiscoveryRuns.ContinueRefused | src/nrf_hal/gatt_dm.c:693-709 | a run from power-up after which continue is refused: an empty service found by UUID and released |
| DiscoveryRuns.IterationVisitsAll | src/nrf_hal/gatt_dm.c:544-563 | iterating visits every characteristic once, in table order |
| DiscoveryManager.Manager.UnlockedHoldsNothing | src/nrf_hal/gatt_dm.c:45-97 | release-pending implies locked; unlocked means no stored attribute and no live chunk; live chunks are those taken and not freed |
| DiscoveryManager.Manager.StartDiscovery | src/nrf_hal/gatt_dm.c:638-691 | the instance takes the start step, flags and chunk list consistent |
| DiscoveryManager.Manager.ContinueDiscovery | src/nrf_hal/gatt_dm.c:693-735 | the instance takes the continue step |
| DiscoveryManager.Manager.ReleaseData | src/nrf_hal/gatt_dm.c:737-749 | the instance takes the release step |
| DiscoveryManager.Manager.Work | src/nrf_hal/gatt_dm.c:303-318 | the work item takes its step |
| DiscoveryManager.Manager.DiscoveryCallback | src/nrf_hal/gatt_dm.c:470-507 | each host callback takes the step of its phase, with the room the chunks and k_calloc leave, and the answer says whether more is awaited |
| DiscoveryManager.Manager.ProcessService | src/nrf_hal/gatt_dm.c:320-385 | the instance takes the first-phase step, with room for entry and UUID as the chunks and k_calloc leave it |
| DiscoveryManager.Manager.ProcessAttribute | src/nrf_hal/gatt_dm.c:387-430 | the same for the second phase |
| DiscoveryManager.Manager.ProcessCharacteristic | src/nrf_hal/gatt_dm.c:432-468 | the same for the third phase |
| DiscoveryManager.Manager.AttrStore | src/nrf_hal/gatt_dm.c:192-222 | the entry is appended with its UUID behind the additional bytes of the region just handed out, or nothing changes and the table is full or memory is missing |
| DiscoveryManager.Manager.AttrFindByHandle | src/nrf_hal/gatt_dm.c:245-271 | the loop computes the binary search |
| DiscoveryManager.Manager.AttrByHandle | src/nrf_hal/gatt_dm.c:583-588 | a result has the handle; on a sorted table none is missed |
| DiscoveryManager.Manager.CharNext | src/nrf_hal/gatt_dm.c:544-563 | the next characteristic, or none is left |
| DiscoveryManager.Manager.CharByUuid | src/nrf_hal/gatt_dm.c:565-581 | the first characteristic whose value has the UUID |
| DiscoveryManager.Manager.DescNext | src/nrf_hal/gatt_dm.c:625-636 | the next attribute unless it starts another characteristic |
| DiscoveryManager.Manager.DescByUuid | src/nrf_hal/gatt_dm.c:609-623 | the first match strictly between a characteristic and the next one |
| ConnectionAttempts.OverwriteOldest | src/nrf_hal/scan.c:357-371 | overwriting the oldest ring slot is dropping the first of the queue and appending |
| ConnectionAttempts.AttemptsFilter.ForceAdd | src/nrf_hal/scan.c:357-371 | a full ring behaves as the queue |
| ConnectionAttempts.AttemptsFilter.DeviceAdd | src/nrf_hal/scan.c:373-403 | a known device stays put, a new one goes to the end of the queue |
| ConnectionAttempts.AttemptsFilter.CountAttempt | src/nrf_hal/scan.c:405-425 | only the counter of the device rises, up to the limit |
| ConnectionAttempts.AttemptsFilter.AttemptsExceeded | src/nrf_hal/scan.c:427-455 | true exactly when the device is queued with its counter at the limit |
| ConnectionAttempts.AttemptsFilter.Clear | src/nrf_hal/scan.c:1628-1633 | the queue is empty |
| ConnectionAttempts.AttemptsFilter.Connected | src/nrf_hal/scan.c:1134-1140 | the queue takes the step of the event |
| ConnectionAttempts.AttemptsFilter.Disconnected | src/nrf_hal/scan.c:1142-1145 | the queue takes the step of the event |
| ConnectionAttempts.CounterIsHistory | src/nrf_hal/scan.c:373-425 | in every history a counter is the number of counted events since the device's insertion, capped |
| ConnectionAttempts.QueueInvariant | src/nrf_hal/scan.c:373-403 | no duplicates, never more than the capacity |
| ConnectionAttempts.FirstInFirstOut | src/nrf_hal/scan.c:357-403 | in every history a device is as many places from the end of the queue as devices were added after it, and gone once these reach the capacity |
| ConnectionAttempts.PresentIsHistory | src/nrf_hal/scan.c:357-403 | in every history a device is queued if and only if it was added, nothing was cleared since, and fewer devices than the capacity came after it |
| ConnectionAttempts.JustConnected | src/nrf_hal/scan.c:373-403 | a device that has just connected is queued, however full the filter was |
| ConnectionAttempts.ExceededIsHistory | src/nrf_hal/scan.c:405-455 | in every history a device is out of attempts if and only if it is still queued and its failed connections and disconnections since then reach the limit |
| ScanFilter.NameCmp | src/nrf_hal/scan.c:583-588 | the string comparison as prefix relation, terminator included |
| ScanFilter.NameByCharacter | src/nrf_hal/scan.c:583-588 | what is compared: character by character up to the terminator of the stored name, nothing behind it |
| ScanFilter.NameCompare | src/nrf_hal/scan.c:590-613 | true exactly when some stored name matches |
| ScanFilter.ShortNameCompare | src/nrf_hal/scan.c:669-706 | the same with the minimum length |
| ScanFilter.FindUuid | src/nrf_hal/scan.c:769-806 | true exactly when the UUID is in the list |
| ScanFilter.UuidReadsBack | src/nrf_hal/scan.c:786-802 | a UUID of any width, written least significant byte first, is the UUID read |
| ScanFilter.EncodedLists | src/nrf_hal/scan.c:769-806 | an advertised list lists exactly the UUIDs written into it, whatever the width of the one looked for |
| ScanFilter.WidthsAgree | src/nrf_hal/scan.c:796-802 | short and long forms of a UUID are the same exactly over the Bluetooth base UUID |
| ScanFilter.TwoBytes | src/nrf_hal/scan.c:928-971 | two bytes of a UUID or an appearance, low byte first |
| ScanFilter.UuidCompare | src/nrf_hal/scan.c:808-850 | one listed UUID is enough, or all are needed in match-all mode |
| ScanFilter.AppearanceCompare | src/nrf_hal/scan.c:928-971 | two bytes that name a stored appearance |
| ScanFilter.ManufacturerCompare | src/nrf_hal/scan.c:1018-1058 | stored data is a prefix of the advertised data |
| ScanFilter.ScanControl.CheckEnabledFilters | src/nrf_hal/scan.c:1384-1411 | the count is the number of enabled kinds |
| ScanFilter.ScanControl.CheckAddr | src/nrf_hal/scan.c:511-546 | the address counts once if it is listed |
| ScanFilter.ScanControl.AdvDataFound | src/nrf_hal/scan.c:1413-1461 | a structure raises the counter exactly when its kind is enabled and satisfied |
| ScanFilter.ScanControl.FilterStateCheck | src/nrf_hal/scan.c:1463-1494 | the decision from gate, mode and counters |
| ScanFilter.DeviceFilterCheck | src/nrf_hal/scan.c:459-474 | the gate is open exactly off the blocklist and below the attempts limit |
| ScanFilter.ScanRecv | src/nrf_hal/scan.c:1496-1531 | the decision is that of the number of hits in the whole report, and ignored exactly for a device on the blocklist or out of attempts |
| ScanFilter.NormalModeIsAny | src/nrf_hal/scan.c:1480-1494 | normal mode matches exactly when some enabled kind is satisfied |
| ScanFilter.OneStructure | src/nrf_hal/scan.c:1413-1494 | with one kind enabled and one structure, in both modes: which structure each kind looks at and what it looks for |
| ScanFilter.AllModeExactly | src/nrf_hal/scan.c:1470-1478 | match-all mode matches if and only if the hits beyond the first of their kind equal the missing kinds modulo 256; that means what it should exactly when nothing is missing and the surplus is 0 modulo 256, or something is and the surplus does not make up for it |
| ScanFilter.AllModeIsEvery | src/nrf_hal/scan.c:1470-1478 | with at most one structure of each kind, match-all mode matches exactly when every enabled kind is satisfied |
| ScanFilter.AllSatisfied | src/nrf_hal/scan.c:1470-1478 | when every enabled kind is satisfied, a match is reported if and only if the surplus is 0 modulo 256, below 256 structures if and only if none is satisfied twice |
| ScanFilter.HitsCountKinds | src/nrf_hal/scan.c:1413-1461 | the counter equals the number of satisfied kinds if and only if none is doubled |
| ScanFilter.DoubledKindReplacesMissing | src/nrf_hal/scan.c:1470-1478 | the input that goes wrong: a doubled name matches although the UUIDs are missing |
| GoproClient.Client.SendCmd | src/gopro_client.c:189-251 | result, pending bits, write parameters and the bytes handed to the host |
| GoproClient.SendAnswered | src/gopro_client.c:189-251 | every answer of a send if and only if its cause holds; without connection, on an unknown channel or with a write under way nothing changes |
| GoproClient.ChannelReported | src/gopro_client.c:161-187 | a report belongs to a channel whose last write used the handle; of several in the order settings, command, query, network |
| GoproClient.Client.OnSentData | src/gopro_client.c:161-187 | the bit of the handle's channel is cleared and the semaphore given, or nothing happens |
| GoproClient.Client.OnNotify | src/gopro_client.c:129-159 | a notification of a known handle goes to the reassembler as a frame of the first matching channel |
| WritePipeline.NextKeepsConsistent | src/gopro_client.c:161-251 | every step keeps pending bits, outstanding writes and write parameters in agreement |
| WritePipeline.PendingIsOutstanding | src/gopro_client.c:161-251 | in every interleaving from rest the number of outstanding writes on a channel is 1 if its bit is set and 0 if not |
| WritePipeline.ReportKeepsConsistent | src/gopro_client.c:161-187 | a report is attributed to the channel that was written |
| WritePipeline.OutstandingBalance | src/gopro_ble_discovery.c:685-713 | over every interleaving, writes and permits under way change by exactly one up for each timed-out wait and one down for each failed send and each report that finds the semaphore up |
| WritePipeline.TimeoutAllowsSecondWrite | src/gopro_ble_discovery.c:685-713 | a timed-out wait lets a second write out whenever the next two commands are for different channels |
| WritePipeline.SecondWriteReached | src/gopro_ble_discovery.c:685-713 | such a run from rest, with two writes outstanding at its end |
| WritePipeline.AtMostOneWrite | src/gopro_ble_discovery.c:685-713 | from rest the number of outstanding writes is known exactly, and without a timeout it is at most one |
| WritePipeline.WrittenInOrder | src/gopro_ble_discovery.c:685-713 | when all succeeds, written and queued commands together are the published ones in order |
| WritePipeline.SentInOrder | src/gopro_ble_discovery.c:685-713 | in every interleaving the accepted sends and what is still queued are a subsequence of what was queued and published: nothing is reordered or repeated |
| WritePipeline.WrittenIsSent | src/gopro_client.c:189-251 | in every interleaving exactly the accepted sends are written, in the order they are taken |
| WritePipeline.SentFromTake | src/gopro_client.c:189-251 | every write of a run comes from a command taken while connected, for a channel without a write under way, and accepted by the host |
| WritePipeline.NothingWithoutConnection | src/gopro_client.c:194-197 | a run without a connection writes nothing |
| WritePipeline.PublishQueues | src/gopro_ble_discovery.c:715-746 | which commands are queued |
| WritePipeline.TakeWaits | src/gopro_ble_discovery.c:694-710 | the subscriber waits after every command except three control bytes |
| WritePipeline.WrittenIsPublished | src/gopro_ble_discovery.c:685-713 | from rest, whatever fails or times out, the camera gets commands in publish order |
| WritePipeline.UnsendableStalls | src/gopro_ble_discovery.c:701-710 | after an unsendable command the subscriber can go on without a timeout if and only if the semaphore was up or a write outstanding; otherwise no run without a timeout writes anything |
| WritePipeline.StallReached | src/gopro_ble_discovery.c:701-710 | a run from rest that stalls: an unknown control command is published and taken |
| WritePipeline.FramesAreWritten | src/gopro_ble_discovery.c:697-701 | in every successful run that publishes the frames of a fragmenter, what is written is a prefix of them, unchanged and in order, and all of them once the queue is empty |
| IsoTp.MemPkt.TakeFragment | src/canbus_isotp.c:100-127 | one turn of the loop allocates if needed and appends the fragment |
| IsoTp.MemPkt.Receive | src/canbus_isotp.c:97-128 | the buffer is full and holds the message from the first fragment on that found memory |
| IsoTp.WholeIffFirstAllocated | src/canbus_isotp.c:100-112 | the message is received whole if and only if memory was there for its first fragment |
| IsoTp.BeginningLost | src/canbus_isotp.c:100-112 | a message of two bytes of which only the second is received |
| IsoTp.PermitBalanced | src/canbus_isotp.c:88-147 | semaphore, receive thread and messages under way share one permit, so no buffer is freed while it is read |
| IsoTp.PermitFromPowerUp | src/canbus_isotp.c:88-147 | from power-up at most one subscriber reads, its buffer is live, and the thread takes no message meanwhile |
| IsoTp.ReceptionEnds | src/canbus_isotp.c:130-142 | the receive thread ends in exactly those runs in which a message is broken or refused, and nothing is received after the first such message |
| IsoTp.ReplyPath.CanReply | src/gopro_protobuf.c:949-1007 | result, permit and buffers on every path |
| IsoTp.ReplyPath.TransmitOne | src/canbus_isotp.c:175-184 | a refused message keeps its permit for good |
| IsoTp.ReplyPath.SendCallback | src/canbus_isotp.c:150-163 | buffer and permit are given back |
| IsoTp.ReplyPermitBalance | src/gopro_protobuf.c:961-1007 | the permit is balanced if and only if no step loses it |
| IsoTp.ReplyAnswered | src/gopro_protobuf.c:949-1007 | over every run, every answer if and only if its cause holds: busy exactly while a reply is on its way or one was lost; a buffer not queued is freed |
| IsoTp.PermitLost | src/gopro_protobuf.c:961-995 | memory runs out for the first reply after power-up: its permit is lost in every run that follows |
| IsoTp.OneLossIsFinal | src/gopro_protobuf.c:961-995 | after one loss every reply is refused |

## Left out

- Protobuf coding, Zephyr's zbus, heap, Bluetooth host and ISO-TP layers: environment steps and parameters here.
- CAN controller setup, LEDs other than the recording one, buttons, shell, boards, logging, pairing, reading the WiFi
  credentials: input, output or configuration.
- Dispatch of a delivered packet by feature and action (src/gopro_packet.c:398-427, 524-702): a delivery is the call of
  `gopro_packet_parse` with its arguments.
- The 16-bit branch of the fragmenters: empty in the source; 16-bit frames are modelled on reception.
- Adding scan filters with the checks for entries already there, and the details reported with a match: not modelled.
- The unsubscribe branch of notifications and assigning handles after discovery.
- DiscoveryManager.Manager: every call is one step, so the atomic flag operations inside a call are not interleaved; the
  attribute table holds values where the source holds pointers into chunks; that a pointer leads to bytes nothing else
  overlaps is `ValuesApart`, the bytes themselves are not modelled.
- ScanFilter: the text comparison reads at most one terminator behind a stored name, so a name that fills its 32 bytes
  without terminator is not modelled.
- IsoTp.MemPkt.Receive: an error from the network layer in the middle of a message is the step `Abandoned` of the permit
  model, not a turn of this loop.
- IsoTp.PermitBalanced: the waits of the receive thread that time out change nothing and are not steps.

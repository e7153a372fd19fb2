# Verified model of the Arduino Primo core

The Arduino core for the nRF52 boards is mostly register access, but it also holds real
algorithms and protocols. This project models those parts in Dafny and proves what they do,
for all inputs and all runs:

- **GATT** (`Gatt`, `GattDriver`, `GattDiscovery`, `GattSessions`, `GattNotification`,
  `GattHistory`): the event handler of the BLE driver. Discovery runs against an abstract attribute
  server that may batch its answers in any way, over connections that come and go and with other
  events in between; transmit credits and subscription flags are followed over every run.
- **Strings** (`Matching`, `Rematching`, `Memory`, `WString`, `Eddystone`): `String::replace` with its three
  in-place branches on a NUL-terminated buffer, and the URL compressor built on it.
- **Advertising payload** (`AdvPacket`, `AdvBuilder`): the length/type/value packet that one class
  edits in place and another reads back.
- **Calendar** (`Calendar`): the carry chain of the RTC interrupt and the Rata Die formula, against
  the Gregorian calendar counted day by day.
- **CRC** (`Crc`, `SetupStream`): the branch-free CRC step against long division over GF(2), and the
  setup message stream that ends with its own CRC.
- **Interrupts** (`RingBuffer`, `Micros`, `Interrupts`): the lock-free receive ring, the `micros()`
  retry loop and the GPIOTE channel table.
- **Numbers and streams** (`Numerals`, `Printing`, `Parsing`, `StreamSearch`, `StreamAttempts`): digit
  loops, `parseInt` and `findUntil`.

Objects that the C++ updates in place are classes with the same fields; buffers are arrays, and the
driver's tables are sequences that its methods reassign. Every such method is proved against a
function on values, and the properties are proved about those functions.

`Bytes.Byte` is an unsigned char. Integers are unbounded except where a width is written out:
16-bit handles, 8-bit credits, 32-bit `long`, `micros()` and CRC registers wrap as in C.

## Where the code does less than it promises

Each of these is kept as the code has it, with a lemma that gives the exact condition and one that
gives a failing input.

- Growing `replace` searches text it has already replaced. It is right on a given text if and only
  if in front of no match of the right-to-left scan the text ends with the start of `find` while
  `replace` begins with the rest of it (`Rematching.GrowsCorrectlyIffCleanScan`), and on every text
  if and only if no proper suffix of `find` starts `replace` (`Matching.GrowCorrectIffNoOverlap`);
  otherwise the result can outgrow the size that was reserved ("aab", "ab" -> "bbb").
- `find` has no fallback: it is right on every stream if and only if whenever a prefix of the
  target also ends a longer prefix, both go on with the same character
  (`StreamSearch.FindCompleteIff`; "aab" is not found in "aaab").
- `findUntil` promises to end at the terminator, but drops a byte that breaks a partial match of it.
  It never reads past a terminator, whatever stream and target, if and only if the terminator
  repeats one character (`StreamSearch.TerminatorHonouredIff`; "aabx" is read through for "x" with
  the terminator "ab"). It stops at the first of the two on every stream for every such terminator
  if and only if the target needs no fallback (`StreamSearch.FindUntilCompleteIff`).
- Service discovery takes only "invalid handle" for the end of the sweep. A server that answers by
  the Attribute Protocol sends it only for start handle 0, so the listener is told if and only if
  the server has a registered service and its last service ends at 0xFFFF
  (`GattDiscovery.AttDiscoveryRaisesIff`; one service at handles 1 to 10 is found and not reported).
- The calendar takes every fourth year for a leap year. From a real date it is right after n ticks
  if and only if no 29 February of a year divisible by 100 but not by 400 was due
  (`Calendar.OnTimeIff`; it goes wrong on the last tick of 28 February 2100).
- A URI is read back from the beacon if and only if it starts with a listed prefix, contains no
  listed prefix later and fits when compressed (`Eddystone.RoundTripIffWellFormed`; "http://www.http://www." is not).
- `addFieldInPck` means to update a field of fixed length in place. One that is in the advertisement
  already shows its new value there if and only if the advertisement and the value together stay
  within 28 bytes (`AdvBuilder.UpdateShowsIff`; behind a name of 21 bytes a new appearance goes into
  the scan response and the old one stays).
- `attachInterrupt` says it replaces an earlier function; in fact a pin that is attached already takes
  a second channel. The table stays unambiguous if and only if that does not happen
  (`Interrupts.AttachKeepsUnshadowed`; pin 5 attached twice survives a detach).

## Model

| member | source | states |
|---|---|---|
| `Matching.FirstFrom` | cores/arduino/WString.cpp:652-658 | `strstr`: the result is a match and no match lies before it, or there is none |
| `Matching.LastUpTo` | cores/arduino/WString.cpp:603-614 | the greatest match at or before an index, or -1 when there is none |
| `Matching.CountLeftDropLast` | cores/arduino/WString.cpp:669-684 | dropping everything from the last match on costs the left-to-right scan exactly one match |
| `Matching.CountsAgree` | cores/arduino/WString.cpp:669-684 | the counting pass (left to right) and the rewriting pass (right to left) see the same number of matches, even when `find` overlaps itself |
| `Matching.SubstLeftLength` | cores/arduino/WString.cpp:669-673 | the length after substitution is the text length plus one difference per match |
| `Matching.SubstRightLength` | cores/arduino/WString.cpp:676-684 | the same for the right-to-left scan |
| `Matching.GrowLoopIsSubstRight` | cores/arduino/WString.cpp:676-684 | without overlap, the loop that searches its own output computes the right-to-left substitution of the original text |
| `Matching.NoOverlapGrowsCorrectly` | cores/arduino/WString.cpp:668-685 | without overlap the result is the right-to-left substitution and its length is the reserved size |
| `Matching.OverlapRematches` | cores/arduino/WString.cpp:676-684 | with overlap, a text with one match is rewritten at least twice and outgrows the reserved size |
| `Matching.GrowCorrectIffNoOverlap` | cores/arduino/WString.cpp:668-685 | the growing branch is right on every NUL-free text if and only if no proper suffix of `find` starts `replace` |
| `Matching.GrowCounterexample` | cores/arduino/WString.cpp:668-685 | "aab" with "ab" -> "bbb" needs 4 bytes and produces at least 5 |
| `Matching.ScansAgree` | cores/arduino/WString.cpp:645-686 | when `find` does not overlap itself the two scans give the same text |
| `Rematching.RewritesAtLeast` | cores/arduino/WString.cpp:676-684 | from any state the loop rewrites at least as often as the scan has matches in front of the cursor |
| `Rematching.PartedShows` | cores/arduino/WString.cpp:676-684 | once the loop has taken another match than the scan of the original, its result stays different |
| `Rematching.LaterMatchShows` | cores/arduino/WString.cpp:676-684 | a match that runs into replaced text changes the result, even where the length comes out right |
| `Rematching.LoopMatchesScanIff` | cores/arduino/WString.cpp:676-684 | from any state the loop finishes as the scan does if and only if no match in front of the cursor has a joint before it |
| `Rematching.GrowsCorrectlyIffCleanScan` | cores/arduino/WString.cpp:668-685 | exact condition per text: the growing branch is right on it if and only if its right-to-left scan is clean |
| `Memory.CopyDown` | cores/arduino/WString.cpp:660-660 | ascending copy to a lower address of the same buffer moves the old bytes exactly |
| `Memory.MoveUp` | cores/arduino/WString.cpp:679-679 | `memmove` to a higher address moves the old bytes exactly |
| `WString.StrCpyDown` | cores/arduino/WString.cpp:667-667 | the final `strcpy` moves the rest of the text with its terminator |
| `WString.CompactStep` | cores/arduino/WString.cpp:658-666 | one pass of the forward scan: writing never passes reading, finished text grows by gap and replacement, unread text is intact |
| `WString.CompactingEnds` | cores/arduino/WString.cpp:667-667 | at the end the buffer holds the whole substitution, NUL-free, with its terminator |
| `WString.NoOverlapFits` | cores/arduino/WString.cpp:669-684 | without overlap the rewriting stays in the reserved size, whatever the capacity, and equals the right-to-left substitution |
| `WString.FitsIffNoOverlap` | cores/arduino/WString.cpp:668-685 | the growing branch stays inside its allocation on every full NUL-free string if and only if no proper suffix of `find` starts `replace` |
| `WString.ReplacedIsSubstRightIff` | cores/arduino/WString.cpp:645-686 | with a longer `replace` the result is the right-to-left substitution if and only if the scan is clean, and then it fits |
| `WString.ReplacedIsSubstLeft` | cores/arduino/WString.cpp:645-686 | for a `find` without self-overlap all three branches are the same left-to-right substitution |
| `WString.NothingToReplace` | cores/arduino/WString.cpp:647-647 | an empty text or an empty `find` leaves everything as it is |
| `WString.ArduinoString.constructor` | cores/arduino/WString.cpp:30-34 | the text is copied into an exact buffer with its terminator |
| `WString.ArduinoString.ChangeBuffer` | cores/arduino/WString.cpp:157-166 | a buffer of the asked size with every byte both can hold; the same text whenever it has room for it |
| `WString.ArduinoString.LastIndexOf` | cores/arduino/WString.cpp:603-614 | repeated forward `strstr` finds the last match at or before the index |
| `WString.ArduinoString.ReplaceEqual` | cores/arduino/WString.cpp:651-655 | overwriting in place is left-to-right substitution |
| `WString.ArduinoString.CompactOnce` | cores/arduino/WString.cpp:659-664 | the two copies of one shrinking pass |
| `WString.ArduinoString.ReplaceShrinking` | cores/arduino/WString.cpp:656-667 | compacting forward is left-to-right substitution, with length and terminator in place |
| `WString.ArduinoString.GrownSize` | cores/arduino/WString.cpp:669-673 | the counting pass computes the length of the substituted text: old length plus one difference per match |
| `WString.ArduinoString.GrowOnce` | cores/arduino/WString.cpp:678-682 | one growth: head, replacement, shifted tail, terminator |
| `WString.ArduinoString.ReplaceGrowing` | cores/arduino/WString.cpp:668-685 | the growing branch writes the loop's text and never needs more than its capacity or the size it computed |
| `WString.ArduinoString.Replace` | cores/arduino/WString.cpp:645-686 | the text becomes the substitution of its branch and the string stays well-formed |
| `Eddystone.CompressURI` | libraries/BLE/EddystoneBeacon.cpp:94-119 | nineteen in-place replacements, then at most `size` bytes with the high bit cleared |
| `Eddystone.Emit` | libraries/BLE/EddystoneBeacon.cpp:113-118 | the emitted bytes are the masked text, cut at `size`; the rest of the buffer is untouched |
| `Eddystone.PrefixesDoNotNest` | libraries/BLE/EddystoneBeacon.cpp:13-19 | no listed prefix can begin inside a listed prefix |
| `Eddystone.SubstKeepsMeaning` | libraries/BLE/EddystoneBeacon.cpp:106-111 | replacing an entry by its code does not change what the text decodes to |
| `Eddystone.PhaseKeepsMeaning` | libraries/BLE/EddystoneBeacon.cpp:98-111 | a whole phase keeps the decoding |
| `Eddystone.NoNewMatch` | libraries/BLE/EddystoneBeacon.cpp:98-111 | a substitution by a code creates no printable match and removes all matches of its entry |
| `Eddystone.PhaseClears` | libraries/BLE/EddystoneBeacon.cpp:98-103 | after each entry of a table is replaced, none of the entries so far is left |
| `Eddystone.PackedIsFullyCoded` | libraries/BLE/EddystoneBeacon.cpp:98-111 | no listed prefix and no listed suffix is left in the compressed text of any URI |
| `Eddystone.WellFormedPhase` | libraries/BLE/EddystoneBeacon.cpp:98-103 | on a well-formed URI the prefix phase replaces the leading prefix and nothing else |
| `Eddystone.ReadingsAgreeIffPlain` | libraries/BLE/EddystoneBeacon.cpp:98-111 | a code read by the other table is noticed: the two readings agree, or one begins with the other, only on plain text |
| `Eddystone.NoPrefixCodeNoRoundTrip` | libraries/BLE/EddystoneBeacon.cpp:94-119 | without a leading prefix the receiver does not get the URI back |
| `Eddystone.RoundTripIffWellFormed` | libraries/BLE/EddystoneBeacon.cpp:94-119 | for every URI and buffer size: the emitted bytes expand to the URI if and only if it starts with a listed prefix, has none later and fits |
| `Eddystone.TruncatedIsPrefix` | libraries/BLE/EddystoneBeacon.cpp:114-118 | a buffer that is too small yields a prefix of the URI |
| `Eddystone.LaterPrefixIsLost` | libraries/BLE/EddystoneBeacon.cpp:94-119 | "http://www.http://www." is not read back |
| `Gatt.NextFound` | libraries/BLE/nRF51822.cpp:674-681 | the next service with a handle range, with none skipped |
| `GattDriver.Nrf51822.constructor` | libraries/BLE/nRF51822.cpp:402-459 | all tables registered and cleared, no connection, no credit |
| `GattDriver.Nrf51822.Poll` | libraries/BLE/nRF51822.cpp:481-800 | one event changes the driver and issues requests exactly as the transition function says |
| `GattDriver.Nrf51822.Disconnect` | libraries/BLE/nRF51822.cpp:545-586 | everything of the connection is cleared and subscribers are told |
| `GattDriver.Nrf51822.ClearSubscriptions` | libraries/BLE/nRF51822.cpp:553-564 | all subscription flags are off and exactly the subscribed ones reported |
| `GattDriver.Nrf51822.ClearRemoteHandles` | libraries/BLE/nRF51822.cpp:571-579 | all remote ranges, properties and handles are zero |
| `GattDriver.Nrf51822.UpdateCharacteristicValue` | libraries/BLE/nRF51822.cpp:905-956 | notification and indication, one credit each, and success only if none was dropped |
| `GattDriver.Nrf51822.WriteRemoteCharacteristic` | libraries/BLE/nRF51822.cpp:1054-1085 | a remote write only with a handle, the property and a credit; success only if one was issued and accepted |
| `GattDriver.Nrf51822.HandleWrite` | libraries/BLE/nRF51822.cpp:602-638 | value and CCCD writes, with the loop's own exits |
| `GattDriver.Nrf51822.HandleServices` | libraries/BLE/nRF51822.cpp:652-689 | a service response fills the table and asks for the next handle, or ends the sweep |
| `GattDriver.Nrf51822.DiscoverFrom` | libraries/BLE/nRF51822.cpp:716-726 | the search for the next service to sweep |
| `GattDriver.Nrf51822.HandleCharacteristics` | libraries/BLE/nRF51822.cpp:691-739 | a characteristic response fills the table and goes on, or moves to the next service |
| `GattNotification.UpdateIsSafe` | libraries/BLE/nRF51822.cpp:929-951 | an update spends one credit per packet and sends only to a subscribed characteristic on a live link |
| `GattNotification.WriteIsSafe` | libraries/BLE/nRF51822.cpp:612-636 | the write loop keeps the flags in step and sends only what an update may |
| `GattNotification.StepKeepsInv` | libraries/BLE/nRF51822.cpp:492-739 | every allowed event keeps credits balanced and flags in step, and is safe |
| `GattNotification.CreditsAndSubscriptions` | libraries/BLE/nRF51822.cpp:492-956 | in every run the credit is what was read at connect plus completions minus packets, 0 when disconnected; `subscribed` is notify or indicate; packets go out only on a live link, after a CCCD write on that link, within the credit |
| `GattNotification.UpdateDelivers` | libraries/BLE/nRF51822.cpp:905-956 | nothing subscribed is held back while a credit is left, and success means all was sent |
| `GattNotification.WriteConfigures` | libraries/BLE/nRF51822.cpp:620-635 | bit 0 of a CCCD value is notify, bit 1 indicate, and no other characteristic changes |
| `GattNotification.ValueWriteEchoes` | libraries/BLE/nRF51822.cpp:615-619 | a peer's write to a value goes out again to its subscribers |
| `GattNotification.UnsubscriptionsExact` | libraries/BLE/nRF51822.cpp:553-564 | disconnecting tells exactly the subscribed characteristics |
| `GattHistory.StateIsHistory` | libraries/BLE/nRF51822.cpp:481-956 | in every run the connection is the one last reported, a characteristic is subscribed exactly when its listener last heard so, the request mark stands exactly while a remote write is unanswered, and local handles never change |
| `GattHistory.StepKeepsInv` | libraries/BLE/nRF51822.cpp:481-956 | each event keeps that, and the listener hears of a subscription only when it changes |
| `GattHistory.CccdWriteTells` | libraries/BLE/nRF51822.cpp:620-635 | a CCCD write tells the listener the new state if it is new, and nothing otherwise |
| `GattHistory.UnsubscribedInOrder` | libraries/BLE/nRF51822.cpp:553-564 | each subscribed characteristic is told once, in table order |
| `GattHistory.UpdateSendsWanted` | libraries/BLE/nRF51822.cpp:929-951 | what is wanted goes out in order, notification first, as far as the credits reach |
| `GattHistory.DeclarationFillsFirst` | libraries/BLE/nRF51822.cpp:660-666 | a service declaration fills the first registered entry with its UUID and no other |
| `GattHistory.ResponsesAreAnswered` | libraries/BLE/nRF51822.cpp:652-739 | a response with a failing status changes nothing and is reported with that status; every other is answered by one request or the end of discovery, or by silence if nothing was found |
| `GattHistory.EmptyResponseAsksAgain` | libraries/BLE/nRF51822.cpp:696-714 | an empty successful characteristic response repeats the request |
| `GattHistory.CompletionsAddUp` | libraries/BLE/nRF51822.cpp:492-498 | completions add up in an 8-bit counter |
| `GattDiscovery.RecordBatch` | libraries/BLE/nRF51822.cpp:659-667 | a batch of services leaves the table as if entries had come one by one |
| `GattDiscovery.ServicesContinue` | libraries/BLE/nRF51822.cpp:669-671 | the next service reply starts exactly where the last one stopped |
| `GattDiscovery.ServicesExhausted` | libraries/BLE/nRF51822.cpp:669-672 | the sweep can end only after every service was seen, also when the handle wraps |
| `GattDiscovery.ServicesStep` | libraries/BLE/nRF51822.cpp:657-671 | a service reply keeps the sweep invariant |
| `GattDiscovery.ServicesEndStep` | libraries/BLE/nRF51822.cpp:672-687 | the end of the sweep starts the first found service, finishes, or stalls |
| `GattDiscovery.RecordDeclarations` | libraries/BLE/nRF51822.cpp:701-712 | a batch of characteristics fills the entries of the service under discovery only |
| `GattDiscovery.CharacteristicsStep` | libraries/BLE/nRF51822.cpp:696-714 | a characteristic reply keeps the invariant and moves the start handle up |
| `GattDiscovery.CharacteristicsEndStep` | libraries/BLE/nRF51822.cpp:715-733 | the end of a service moves on or finishes |
| `GattDiscovery.StepKeepsInv` | libraries/BLE/nRF51822.cpp:652-739 | every reply keeps the invariant and lowers the handle/index measure |
| `GattDiscovery.RunKeepsInv` | libraries/BLE/nRF51822.cpp:652-739 | over every run the invariant holds and the measure bounds the length |
| `GattDiscovery.NeverStuck` | libraries/BLE/nRF51822.cpp:652-739 | a pending request can always be answered, also by a server that keeps to the Attribute Protocol error codes |
| `GattDiscovery.SweptIsCorrect` | libraries/BLE/nRF51822.cpp:659-667 | each registered service holds the server's range, or zero |
| `GattDiscovery.CompleteIsCorrect` | libraries/BLE/nRF51822.cpp:652-739 | a complete discovery holds exactly what the server declares |
| `GattDiscovery.DiscoveryCorrect` | libraries/BLE/nRF51822.cpp:652-739 | every run is finite; a finished one has both tables right and told the listener exactly once if the server has a registered service |
| `GattDiscovery.InvMeans` | libraries/BLE/nRF51822.cpp:652-739 | every reachable state can go on, or holds what the server declares |
| `GattDiscovery.AttRunFinishes` | libraries/BLE/nRF51822.cpp:652-739 | an Attribute Protocol server can bring discovery to its end from every reachable state |
| `GattDiscovery.AttDiscoveryRaisesIff` | libraries/BLE/nRF51822.cpp:669-688 | with an Attribute Protocol server the listener is told, once, if and only if the server has a registered service and its last service ends at 0xFFFF |
| `GattDiscovery.AttDiscoveryCounterexample` | libraries/BLE/nRF51822.cpp:669-688 | a service at handles 1 to 10 is found, discovery finishes, and the listener is not told |
| `GattDiscovery.DisconnectRegisters` | libraries/BLE/nRF51822.cpp:571-579 | a disconnection leaves the cleared table that the next discovery needs |
| `GattDiscovery.WriteReachesServer` | libraries/BLE/nRF51822.cpp:1054-1085 | with correct tables and a credit a remote write goes to the server's own value handle, as a request or a command as the server declares, charges one credit and leaves the request mark |
| `GattDiscovery.NothingElseIsWritten` | libraries/BLE/nRF51822.cpp:1054-1085 | a characteristic the server does not have is not written |
| `GattSessions.AsideChangesNothing` | libraries/BLE/nRF51822.cpp:492-638 | writes, completions and sends leave both tables, the index, the outstanding request and the listener alone |
| `GattSessions.StepKeepsInv` | libraries/BLE/nRF51822.cpp:481-739 | connecting, disconnecting, a reply or any other event keeps the invariant of discovery |
| `GattSessions.RunKeepsInv` | libraries/BLE/nRF51822.cpp:481-739 | the same over every run |
| `GattSessions.EveryConnectionDiscovers` | libraries/BLE/nRF51822.cpp:481-739 | in every run, over any connections before and any events in between, discovery on the current connection takes boundedly many replies and settles on the tables of the current peer |
| `GattSessions.EveryWriteReachesPeer` | libraries/BLE/nRF51822.cpp:1054-1085 | on every connection of every run a remote write after discovery goes to the current peer's own handle |
| `GattSessions.EveryAttConnectionRaisesIff` | libraries/BLE/nRF51822.cpp:481-739 | the exact condition for the listener call, on every connection of every run with Attribute Protocol peers |
| `AdvPacket.ParseEncode` | libraries/BLE/BLEPeripheral.cpp:489-494 | an encoded field list parses back to itself |
| `AdvPacket.AppendHolds` | libraries/BLE/BLEPeripheral.cpp:511-519 | a new field at the end |
| `AdvPacket.OverwriteHolds` | libraries/BLE/BLEPeripheral.cpp:496-498 | a fixed-length field overwritten in place |
| `AdvPacket.ExtendHolds` | libraries/BLE/BLEPeripheral.cpp:499-509 | a field extended, the later ones shifted |
| `AdvBuilder.FindField` | libraries/BLE/BLEPeripheral.cpp:489-494 | the walk finds the field of a type, or that there is none |
| `AdvBuilder.ExtendField` | libraries/BLE/BLEPeripheral.cpp:501-508 | the shifting loop, the copy and the length byte |
| `AdvBuilder.AddToPacket` | libraries/BLE/BLEPeripheral.cpp:489-519 | the packet bytes are the edited field list, zeros behind |
| `AdvBuilder.BLEPeripheral.constructor` | libraries/BLE/BLEPeripheral.cpp:49-60 | flags and default appearance |
| `AdvBuilder.BLEPeripheral.AddFieldInPck` | libraries/BLE/BLEPeripheral.cpp:470-520 | one packet changes by one edit, the other not at all |
| `AdvBuilder.CallMakesOneEdit` | libraries/BLE/BLEPeripheral.cpp:470-520 | append, extend or overwrite in the packet with room, or nothing; both stay well-formed, within 31 bytes, with distinct types |
| `AdvBuilder.UpdateShowsIff` | libraries/BLE/BLEPeripheral.cpp:470-498 | a fixed-length field of the advertisement shows its new value there if and only if advertisement and value stay within 28 bytes |
| `AdvBuilder.StaleAppearanceCounterexample` | libraries/BLE/BLEPeripheral.cpp:470-498 | behind a name of 21 bytes the advertisement keeps the old appearance |
| `AdvBuilder.Built` | libraries/BLE/BLEPeripheral.cpp:470-520 | every sequence of calls keeps both packets well-formed |
| `AdvBuilder.BLENode.SetAdvPck` | libraries/BLE/BLENode.cpp:28-38 | address, payload, type, scan flag and signal strength are those of the report |
| `AdvBuilder.BLENode.GetFieldInAdvPck` | libraries/BLE/BLENode.cpp:72-82 | for every payload whose walk stays inside the packet: the data of the field the walk meets with a NUL behind it, or length 0 and no write |
| `AdvBuilder.WalkReadsFields` | libraries/BLE/BLENode.cpp:72-82 | on the encoding of a field list the walk stays inside and returns exactly the data of the type, or nothing |
| `AdvBuilder.ZeroLengthIsSteppedOver` | libraries/BLE/BLENode.cpp:72-82 | a length byte of zero does not end the walk: the fields behind it are still found |
| `AdvBuilder.BroadcastCharacteristic` | libraries/BLE/nRF51822.cpp:958-994 | with the broadcast property and a service, the payload with a service-data field appended when it fits in 31 bytes |
| `AdvBuilder.BroadcastEncodes` | libraries/BLE/nRF51822.cpp:975-981 | the broadcast payload is the field list with one more field |
| `AdvBuilder.AdvertiseAndScan` | libraries/BLE/BLENode.cpp:72-82 | whatever is built from the constructor on, with or without a broadcast, is what a scanner reads for every type, in the advertisement and in the scan response |
| `Calendar.RTCInt.Tick` | libraries/RTC/RTCInt.cpp:543-567 | the nested carries are one step of mixed-radix time of day, and the next day at midnight |
| `Calendar.RdnCountsDays` | libraries/RTC/RTCInt.cpp:521-534 | the closed form is the number of days counted from 1 January of year 1 |
| `Calendar.RdnInjective` | libraries/RTC/RTCInt.cpp:530-534 | two dates with the same day number are the same date |
| `Calendar.RdnNextDay` | libraries/RTC/RTCInt.cpp:556-562 | the next day has the next number, except after a 29 February that does not exist |
| `Calendar.TickAddsOne` | libraries/RTC/RTCInt.cpp:543-567 | a tick adds exactly one eighth of a second except at one midnight, and leaves the calendar at one other |
| `Calendar.InstantInjective` | libraries/RTC/RTCInt.cpp:543-567 | two real readings with the same instant are equal |
| `Calendar.OnTimeStep` | libraries/RTC/RTCInt.cpp:543-567 | one more tick stays on time exactly when it reaches no missed midnight |
| `Calendar.OnTimeIff` | libraries/RTC/RTCInt.cpp:543-567 | from a real date the clock is right after n ticks if and only if no 29 February of a short century was due |
| `Calendar.EveGoesWrong` | libraries/RTC/RTCInt.cpp:556-562 | in every year divisible by 100 but not by 400 the last tick of 28 February shows a 29 February |
| `Calendar.ShortCenturyCounterexample` | libraries/RTC/RTCInt.cpp:556-562 | the last tick of 28 February 2100 leaves the calendar |
| `Crc.FewStepsCompose` | libraries/BLE/nRF8001.cpp:98-102 | up to four division steps compose |
| `Crc.ByteStepIsEightBits` | libraries/BLE/nRF8001.cpp:96-103 | the shift/xor byte step is eight steps of division by x^16+x^12+x^5+1 |
| `Crc.RegisterIsRemainder` | libraries/BLE/nRF8001.cpp:92-106 | the register is the remainder of the seeded message times x^16, by long division |
| `Crc.DivisionWithRemainder` | libraries/BLE/nRF8001.cpp:92-106 | a polynomial is quotient times x^16+x^12+x^5+1 plus remainder in exactly one way, the one long division computes |
| `Crc.ZeroIffMultiple` | libraries/BLE/nRF8001.cpp:92-106 | the remainder is zero exactly for multiples of the generator |
| `Crc.Crc16Ccitt` | libraries/BLE/nRF8001.cpp:92-106 | the loop over a block is bitwise division of its bits |
| `Crc.BurstDetected` | libraries/BLE/nRF8001.cpp:92-106 | a change within 16 consecutive bits changes the register, whatever surrounds it |
| `Crc.TwoBytesDetected` | libraries/BLE/nRF8001.cpp:92-106 | changing one byte, or two neighbours, changes the CRC |
| `Crc.OwnRemainderGivesZero` | libraries/BLE/nRF8001.cpp:1488-1495 | a register fed with itself ends at zero |
| `Crc.CrcOfBlockWithCrc` | libraries/BLE/nRF8001.cpp:1488-1495 | a block followed by its CRC, high byte first, leaves no remainder |
| `Crc.BlockWithCrcIsMultiple` | libraries/BLE/nRF8001.cpp:1488-1495 | a seeded block with its CRC is a multiple of the generator |
| `SetupStream.Nrf8001.constructor` | libraries/BLE/nRF8001.cpp:161-161 | the seed starts at 0xFFFF |
| `SetupStream.SeedIsAllOnes` | libraries/BLE/nRF8001.cpp:161-161 | the seed is 0xFFFF |
| `SetupStream.Nrf8001.SendSetupMessage` | libraries/BLE/nRF8001.cpp:1488-1501 | the seed takes in every message; while only plain messages are sent it is the CRC of all of them, and the closing message of length 6 carries it in bytes 5 and 6 and brings the stream to remainder zero |
| `SetupStream.Nrf8001.SendTyped` | libraries/BLE/nRF8001.cpp:1540-1550 | the header carries command, low four bits of the type and 12-bit offset, and the offset moves on by the payload |
| `RingBuffer.StoreAppends` | cores/arduino/RingBuffer.cpp:28-41 | a store appends one byte and disturbs none |
| `RingBuffer.FullIff63` | cores/arduino/RingBuffer.cpp:83-86 | full means 63 bytes held |
| `RingBuffer.RxBuffer.StoreChar` | cores/arduino/RingBuffer.cpp:28-41 | the byte is appended unless 63 are held |
| `RingBuffer.RxBuffer.ReadChar` | cores/arduino/RingBuffer.cpp:49-58 | the oldest byte leaves, or -1 |
| `RingBuffer.RxBuffer.Available` | cores/arduino/RingBuffer.cpp:60-68 | the number of bytes held |
| `RingBuffer.RxBuffer.Peek` | cores/arduino/RingBuffer.cpp:70-76 | the oldest byte, or -1 |
| `RingBuffer.RxBuffer.IsFull` | cores/arduino/RingBuffer.cpp:83-86 | 63 bytes held |
| `RingBuffer.StepKeepsInv` | cores/arduino/RingBuffer.cpp:28-58 | every load, store and interrupt keeps delivered plus contents equal to accepted; a byte is dropped only when 63 are held |
| `RingBuffer.EveryInterleavingIsFifo` | cores/arduino/RingBuffer.cpp:28-58 | under every interleaving nothing accepted is lost, duplicated or reordered |
| `RingBuffer.ReceivedIsAcceptedOrDropped` | cores/arduino/Uart.cpp:91-110 | every received byte is accepted or dropped, and with no drop the accepted bytes are the line |
| `RingBuffer.UninterruptedRead` | cores/arduino/RingBuffer.cpp:49-58 | the single steps of an undisturbed read deliver the oldest byte |
| `Micros.Micros` | cores/arduino/delay.c:23-46 | the result is the cycle instant of the accepted counter read divided by 64, modulo 2^32; the loop retries only when a tick disturbed it, and accepts within eight passes when seven take less than a tick |
| `Micros.StableIsExact` | cores/arduino/delay.c:33-43 | count plus pending of an accepted pass is the number of rollovers at its counter read, under every handler schedule |
| `Micros.ServedTickIsRecent` | cores/arduino/delay.c:33-41 | a tick served inside a pass leaves no time for the next rollover before the following pass |
| `Micros.OnlyTicksDisturb` | cores/arduino/delay.c:41-41 | two passes that disagree had a rollover or a handler run between them |
| `Micros.EightPassesSuffice` | cores/arduino/delay.c:33-41 | when seven passes take less than a tick period, two neighbours among eight agree under every handler schedule |
| `Micros.FormulaIsMicroseconds` | cores/arduino/delay.c:43-45 | multiply-and-shift is the division by 64 without overflow, and the sum wraps as the true count does |
| `Interrupts.Gpiote.constructor` | cores/arduino/WInterrupts.c:48-56 | all channels free |
| `Interrupts.Gpiote.AttachInterrupt` | cores/arduino/WInterrupts.c:82-140 | the first free channel is taken and its mask returned, -1 only when all are live, and a new pin is mapped to it |
| `Interrupts.MasksAreBits` | cores/arduino/WInterrupts.c:40-47 | the mask of a channel is its own bit |
| `Interrupts.Gpiote.DetachInterrupt` | cores/arduino/WInterrupts.c:145-159 | exactly the channel of the pin is freed; an unattached pin frees none |
| `Interrupts.AttachedMeans` | cores/arduino/WInterrupts.c:50-56 | without shadowing, live channels and attached pins correspond one to one |
| `Interrupts.AttachKeepsUnshadowed` | cores/arduino/WInterrupts.c:89-104 | attaching keeps the table unambiguous if and only if no channel is free or the pin is not attached |
| `Interrupts.CallMeans` | cores/arduino/WInterrupts.c:82-159 | each call does to the tables what it should do to a map from pins to channels |
| `Interrupts.RunKeepsMeaning` | cores/arduino/WInterrupts.c:82-159 | every run that attaches no pin twice keeps the table unambiguous and is a run of the map from pins to channels |
| `Interrupts.OtherPinsLeaveItAlone` | cores/arduino/WInterrupts.c:82-159 | calls for other pins leave a pin on its channel, over any such run |
| `Interrupts.DetachFreesWhatAttachTook` | cores/arduino/WInterrupts.c:82-159 | whatever happens in between, `detachInterrupt(p)` frees exactly the channel `attachInterrupt(p)` took |
| `Interrupts.AttachTwiceCounterexample` | cores/arduino/WInterrupts.c:82-159 | a pin attached twice is still attached after one detach |
| `StreamSearch.Stream.FindUntil` | cores/arduino/Stream.cpp:97-124 | the loop is the scan, and what is left is the unread part |
| `StreamSearch.FindUntilSound` | cores/arduino/Stream.cpp:97-124 | true only if the bytes read end with the target; false only at the end, at a NUL or when they end with the terminator |
| `StreamSearch.EmptyTargetIsFound` | cores/arduino/Stream.cpp:103-104 | an empty target is found before anything is read |
| `StreamSearch.LongestStep` | cores/arduino/Stream.cpp:105-114 | for a target that needs no fallback the index is always the longest match |
| `StreamSearch.FallbackMissed` | cores/arduino/Stream.cpp:105-114 | otherwise a stream that holds the target is searched in vain |
| `StreamSearch.FindCompleteIff` | cores/arduino/Stream.cpp:82-86 | without a terminator the search is right on every NUL-free stream if and only if the target needs no fallback |
| `StreamSearch.ScanComplete` | cores/arduino/Stream.cpp:97-124 | for a target that needs no fallback and a uniform terminator the loop stops, from any state, at the first of the two |
| `StreamSearch.TerminatorMissed` | cores/arduino/Stream.cpp:114-119 | a terminator that is not uniform is not seen behind one more copy of its first character |
| `StreamSearch.TerminatorHonouredIff` | cores/arduino/Stream.cpp:89-124 | no search reads past the terminator, whatever stream and target, if and only if it repeats one character |
| `StreamSearch.FindUntilCompleteIff` | cores/arduino/Stream.cpp:89-124 | exact conditions on target and on terminator for the search to stop at the first of the two |
| `StreamSearch.TerminatorCounterexample` | cores/arduino/Stream.cpp:97-124 | "aabx" is read through for "x" although it holds the terminator "ab" |
| `StreamAttempts.ScanByAttempts` | cores/arduino/Stream.cpp:97-124 | from any state the byte loop stands for an attempted match of the target and one of the terminator |
| `StreamAttempts.SearchByAttempts` | cores/arduino/Stream.cpp:97-124 | for every stream, target and terminator the byte loop is a search from attempt to attempt up to a NUL, in which the byte that breaks an attempt is tried again for the target and dropped for the terminator |
| `StreamAttempts.FreshStreamIsRight` | cores/arduino/Stream.cpp:97-124 | where the first character of neither appears before its first occurrence, any target and any terminator are honoured: the search stops at the first of them |
| `StreamAttempts.FreshTerminatorIsHonoured` | cores/arduino/Stream.cpp:114-119 | such a terminator ends the search by its last byte whatever the target |
| `StreamSearch.UniqueFirstCharacterIsEnough` | cores/arduino/Stream.cpp:97-124 | a target whose first character does not recur needs none |
| `StreamSearch.FallbackCounterexample` | cores/arduino/Stream.cpp:97-124 | "aab" is not found in "aaab" |
| `Numerals.DigitsCorrect` | cores/arduino/itoa.c:147-155 | the digits are below the radix, without leading zero, and evaluate to the value |
| `Numerals.DigitsUnique` | cores/arduino/itoa.c:129-165 | there is no other such digit string |
| `Numerals.DigitsFit32` | cores/arduino/Print.cpp:192-194 | at most 32 digits, so both 33-byte buffers suffice |
| `Printing.FillDigits` | cores/arduino/itoa.c:147-155 | the digit loop fills `tmp` with the numeral backwards |
| `Printing.CopyReversed` | cores/arduino/itoa.c:157-162 | the copy loop turns it round and terminates it |
| `Printing.Ultoa` | cores/arduino/itoa.c:129-165 | the lower-case numeral, or a refusal for a null buffer or a radix outside 2 to 36 |
| `Printing.Ltoa` | cores/arduino/itoa.c:74-122 | a sign only in radix 10, else the unsigned pattern |
| `Printing.PrintNumber` | cores/arduino/Print.cpp:192-209 | the upper-case numeral from the end of the buffer, for every base, cut where a digit character is NUL |
| `Printing.WholeNumeral` | cores/arduino/Print.cpp:192-209 | in bases up to 36 the whole numeral is written |
| `Printing.WriteString` | cores/arduino/Print.h:49-52 | `write(str)` sends the bytes before the first NUL |
| `Printing.PrintLong` | cores/arduino/Print.cpp:76-90 | sign and magnitude in radix 10 for every `long`, the least one included; any other base cut to a byte |
| `Printing.SameUpToCase` | cores/arduino/Print.cpp:192-209 | both printers agree digit by digit up to letter case |
| `Printing.PrintedMeans` | cores/arduino/Print.cpp:76-90 | for every `long` and base: the low byte, or sign and magnitude in decimal, or the canonical numeral of the 32-bit pattern in that base, spelled with 0-9 and A-Z |
| `Printing.SignedMeans` | cores/arduino/itoa.c:74-122 | sign and magnitude in radix 10, in any other radix the canonical numeral of the 32-bit pattern, spelled with 0-9 and a-z |
| `Parsing.PeekNextDigit` | cores/arduino/Stream.cpp:55-65 | everything before a digit or a minus is dropped |
| `Parsing.ParseInt` | cores/arduino/Stream.cpp:137-163 | value and rest as the accumulation says, in 32-bit wrap-around arithmetic |
| `Parsing.DigitsAccumulate` | cores/arduino/Stream.cpp:148-158 | a run of digits contributes its value modulo 2^32 and stops at the tail |
| `Parsing.SkipCharIgnored` | cores/arduino/Stream.cpp:149-150 | a skip character inside a number changes nothing |
| `Parsing.ParseMeans` | cores/arduino/Stream.cpp:137-163 | for every input and skip character: what is dropped, when the value is negated, which digits make it up modulo 2^32, and what is left |
| `Parsing.PrintParseRoundTrip` | cores/arduino/Stream.cpp:137-163 | `parseInt` after any non-numeric text returns the printed `long` and leaves exactly the tail |

## Left out

- WString.ArduinoString.Replace: requires that the growing loop ends within the capacity or the size it reserved; outside that the C++ writes past its allocation, which has no value to model.
- WString.ArduinoString.ReplaceGrowing: the same.
- WString.ArduinoString: aliasing (`s.replace(s, ...)`), null buffers, embedded NULs and allocation failure are not modelled; a null buffer counts as an empty string.
- Calendar.RdnCountsDays: years are unbounded; the 32-bit overflow of the formula beyond year five million is not modelled.
- Printing.PrintLong: returns the bytes it writes; the return value of `write` is left out.
- Stream timeouts: a stream is the bytes that arrive in time, so when a byte arrives is not modelled.
- GattNotification.CreditsAndSubscriptions: user callbacks are not run inside an event; what they would call comes as a later event.
- GattDriver.Nrf51822.Poll: connection parameters, the values in read and write responses, received notifications, pairing events and the bond store; they touch none of the state that is modelled.
- `readRemoteCharacteristic` and the two subscribe calls: they set the request mark and charge no credit.
- GattDriver.Nrf51822.UpdateCharacteristicValue: the value store and the re-broadcast.
- AdvBuilder.BLENode.GetFieldInAdvPck: payloads whose length bytes lead the walk out of the packet; the C++ then reads outside its array.
- SetupStream.Nrf8001.SendSetupMessage: a CRC message of length 0, for which the C++ reads 65535 bytes.
- The setters of `BLEPeripheral`, which only choose type and length for `addFieldInPck`.
- Micros.Micros: takes the readings of its passes as input; it is proved to end only when seven passes take less than a tick period.
- RingBuffer: `clear` during an interrupt, which writes both indices.
- Interrupts: the polarity and event registers, and the dispatch in the interrupt handler.
- RTC alarms and the compare interrupt; 12-hour display.
- The central role with several links, `aci_queue` and nRF8001 data credits.
- Floating-point printing and parsing.
- Register-level drivers: SPI, Wire, PPI, comparator, NFC, tone, analog and digital pins.

# Verification of the factory-test tool

A Dafny model of the parts of the tool that decide something, with proofs about whole runs, whole inputs and
every interleaving. Four parts are covered.

- **Key gestures** (`key_app.cpp`). `KeyAutomaton` gives the transition relation of `input_keys_analyse`,
  `KeyRecogniser` the record `last_key` updated in place and the thread that feeds it, `KeyOutputs` what the
  handler calls of a run look like, `KeyTiming` how runs depend on time, `KeyClassifier` the recogniser against
  an ideal classifier that sees only durations, `KeyWindows` why its condition is exact, `KeyBursts` bursts of
  taps, `KeyBoot` runs from boot, `KeyThread` the way from device events to handler calls.
- **Wi-Fi scan** (`ls_wifi_test.c`). `WifiTable` is the cursor parser with its fixed buffers, `WifiTableText`
  relates it to splitting and printing text, `WifiScan` is one test as three threads over status bits, a
  semaphore and the table, `WifiOpening` how it opens the interface and starts its scan, `WifiEndToEnd` puts parser and test together.
- **Service-centre number** (`tel_test/ls_telephony_util.cpp`). `Smsc` is the in-place semi-octet encoder
  (3GPP TS 23.040 section 9.1.2.3 and 3GPP TS 24.011 section 8.2.5.2) with its decoder.
- **Console and Bluetooth codecs** (`bt_test/zib_bluetooth.c`). `Console` and `ConsoleText` are the argument
  readers, `BtAddress` the two address parsers and the printers, `BtCommand` addresses as they are typed, `Uuid`
  the 128-bit writer, `HexDump` and `HexDumpText` the dump.

`Clock` and `CStrings` hold timestamps, C strings and `strtol`/`strtoul`.

How to read the model:

- A call of the recogniser carries two clock readings: the one taken on entry and the later one a branch takes
  when it restarts the timer. After a timeout the event holds leftovers, as in the source. Handler calls are
  collected in a ghost sequence.
- Text in memory is a string with its terminator in it; an index into it is a cursor, so Dafny's bounds checks
  are the memory bounds. Preconditions of the parsers say exactly which cells are read.
- `long` is taken to be 32 bits wide, as on the platform the code casts pointers to `unsigned int` for.
- In `WifiScan` a schedule is any sequence of steps of the client, the scan thread and the event loop. Where
  another thread can write what a thread reads or writes, a step makes one access to the status word, the
  semaphore or a table entry. The client's steps before it starts the scan thread, and the scan thread's search
  while the client waits for it, can bundle several: nobody else touches what they touch. What driver calls
  report is a parameter, and so are the scans, which `WifiEndToEnd` takes from the parser.
- Every lemma turns Dafny's automatic induction off. Inductions are explicit calls on smaller arguments.

What the proofs show about the code that its text does not:

- The key filter joins its three tests with "and" although the comment above it asks for the function keys to
  pass. The model keeps the code: with the written filter nothing is ever reported, and it agrees with its
  comment exactly on streams without a function key.
- From boot the first event, whatever it is, is answered as if its key had been pressed at time zero. A key that is
  down when the tool starts is so reported by a single or a long press.
- The first tap after boot is timed against an unset start time: with a clock at least a second past its zero,
  how long it was held does not matter, and it is never part of a double or triple.
- Between a deadline and one tick period after it, the gestures reported depend on where the ticks fall, not
  only on the durations, whichever of the four kinds of duration that ticks decide is in that window.
- A scan line with empty flags loses its network name.
- For a reply whose last line no newline ends, the cursors read one cell past the terminator; the record is right.
- Rows a shorter later scan does not overwrite stay in the table behind its own.
- A second test, after one that did not fail to start, waits forever for its first token.
- A service-centre number is not recovered from its encoding if it has an even length and ends in the filler.
- The length octet of an encoded service-centre number is right only for 13 or 14 digits.
- The signed reader computes within the range of `int` only up to the largest `int` less 48.
- The two address parsers differ on some fields too long for a `long`.
- The dump's address column is exact only below 64 KiB.

## Model

| member | source | states |
|---|---|---|
| KeyRecogniser.Recogniser.InputKeysAnalyse | key_app.cpp:123-284 | one call, in place, takes the state and the handler calls where the transition relation does, for every state, event and clock reading |
| KeyRecogniser.Recogniser.InputThread | key_app.cpp:286-304 | the event loop's effect on state and handler calls is the run over the events its filter lets through and all timeouts |
| KeyThread.WantedGetThrough | key_app.cpp:286-304 | with the filter the comment describes, timeouts and function-key events reach the recogniser whole and in order, and nothing else does, however other events lie between them |
| KeyThread.EveryStreamIsWoven | key_app.cpp:286-304 | every stream of polls is such a weaving of wanted and other polls |
| KeyThread.TapsThroughThread | key_app.cpp:123-304 | taps of a function key delivered among other events report what the ticks decide, and on dense runs clear of the windows what the ideal classifier says |
| KeyRecogniser.WrittenFilterIsSilent | key_app.cpp:296-299 | with the filter as written no stream of device events causes a handler call or a change of state |
| KeyRecogniser.FilterMeetsCommentIff | key_app.cpp:296-299 | the written filter forwards what its comment says if and only if the stream holds no function-key event |
| KeyAutomaton.KnownStatesOnly | key_app.cpp:139-283 | over every run from a known state, states 5, 6 and whatever the default branch would catch are never entered; from any other state the first call does nothing but leave it |
| KeyOutputs.OutputLanguage | key_app.cpp:154-278 | over every run the handler calls are whole gestures, both halves of a pair carrying one code, followed by one open press exactly when the state is the one waiting to match it |
| KeyOutputs.ParseRender | key_app.cpp:154-278 | the gestures can be read back from the handler calls unambiguously |
| KeyOutputs.TapsConserved | key_app.cpp:130-278 | for each key, the taps of its reported gestures and those held by the state are covered by its own releases, and by its own presses up to one credit when boot begins on a non-press |
| KeyTiming.Stuttering | key_app.cpp:141-277 | a run ends where, and reports what, it does without all its calls that bring nothing new: ticks and repeats before the deadline of the state they find, events of the followed key that say what is so already, anything but the awaited release in a checking state, anything but a press at rest |
| KeyTiming.QuietInsertion | key_app.cpp:141-277 | such a call put in anywhere leaves the stripped run as it is |
| KeyTiming.StutterEquivalent | key_app.cpp:141-277 | hence runs that agree up to such calls end alike and report the same |
| KeyTiming.ForeignKeyCancels | key_app.cpp:161-258 | an event of another key ends a gesture under way without a report, and whatever comes after is answered as from rest |
| KeyTiming.ClockIndependence | key_app.cpp:99-138 | shifting all timestamps by one constant with any carry, changing what timeouts leave in the event, or starting from another released state changes no handler call |
| KeyTiming.DeadlineBound | key_app.cpp:155-243 | after every call of a run with ticks at most delta apart, a timed state is less than delta past its deadline |
| KeyTiming.Homing | key_app.cpp:139-283 | from wherever a run from boot has got to, releasing the followed key and one late tick bring the machine to rest |
| KeyClassifier.IdleBatch | key_app.cpp:155-243 | any batch of ticks and repeats lets a timed state expire once, to the right handler, if and only if one of them is late |
| KeyClassifier.TicksDecide | key_app.cpp:139-283 | on every tap sequence of one key, whatever ticks and repeats come when, the handler calls are the gestures that the late ones among them decide on, and the machine is at rest after it |
| KeyClassifier.ClassifierUnderDecision | key_app.cpp:139-283 | for every tap sequence of one key whose durations the ticks decide as their lengths do, the handler calls are the gestures the ideal classifier computes from hold and gap durations |
| KeyClassifier.DensityDecides | key_app.cpp:139-283 | ticks at most delta apart decide every duration that is not within delta past its deadline |
| KeyClassifier.ClassifierRefinement | key_app.cpp:139-283 | hence on every dense run of taps with no tick-decided duration in its window the recogniser refines the ideal classifier and ends at rest |
| KeyWindows.ClassifierExact | key_app.cpp:154-243 | for all durations a tap run can have: every run with them and with ticks at most delta apart reports what the ideal classifier says, and all such runs report the same, if and only if no tick-decided duration is in its window |
| KeyWindows.WindowNeedsTicks | key_app.cpp:154-243 | whenever a first hold, a first gap, a second hold or a second gap anywhere in the sequence is in its window, two dense runs with the same durations report differently, one of them as the ideal classifier says |
| KeyWindows.PlausibleIff | key_app.cpp:139-283 | the durations spoken of are exactly those that some dense tap run has |
| KeyWindows.WindowUndecided | key_app.cpp:154-243 | in each timed state and for each time in its window there are equally dense ticks that have let it expire and that have not |
| KeyBursts.BurstLaw | key_app.cpp:140-278 | n fast taps and a late tick, with any ticks in between, report n / 3 triples and a single or a double for the rest, for every n |
| KeyBoot.BootIsPressAtZero | key_app.cpp:123-138 | from boot, after any timeouts, a run is answered as if the key of its first event had been pressed at time zero, whatever that event is |
| KeyBoot.BootRun | key_app.cpp:130-283 | every run of taps of one key from boot, its first tap seen from the press, a repeat or the release on, reports what the ticks decide with that tap held since time zero |
| KeyBoot.KeyDownAtBoot | key_app.cpp:130-184 | a key down at boot is reported as long if a repeat or tick comes a second or more after time zero, else as single if its release comes past the click gap, and taps of any key after it as from rest |
| KeyBoot.FirstTapAfterBoot | key_app.cpp:130-184 | the first tap after boot is timed against the initial start time: it is reported as long if a tick or repeat comes while it is held, else as single, however long it was held |
| KeyBoot.RunAfterBoot | key_app.cpp:130-283 | a run of taps from boot reports that gesture for its first tap alone and then what the taps behind it report from rest, with ideal ticks what the ideal classifier says of them |
| KeyBoot.RunAfterBootIdealIff | key_app.cpp:130-283 | such a run gets the ideal gestures if and only if its first tap was held for a second or more with a tick in between, or for less with none and is a gesture by itself: held past the click gap, followed by a gap past it, or last |
| WifiTable.WifiParseLine | ls_wifi_test.c:59-124 | whatever the line holds, the record ends up with the fields the cursors cut out, cut to its buffers and terminated, as long as the cursors stay in memory |
| WifiTable.WifiGetScanResult | ls_wifi_test.c:262-295 | the error codes, -2 with every record unchanged if and only if the reply is empty or does not hold the word bssid, the number of records filled, what each holds, and that all other records keep every byte |
| WifiTable.AcceptedIff | ls_wifi_test.c:272-276 | a reply is accepted if and only if it has a length and the word bssid stands at some position ahead of its terminator |
| WifiTableText.LineRefines | ls_wifi_test.c:66-121 | for a well-formed line the cursors never pass its newline and the record is what splitting the line at tabs gives |
| WifiTableText.TableRefinesText | ls_wifi_test.c:277-294 | for every reply of well-formed lines the loops stay within the reply and its terminator, or one cell past it if no newline ends the last line, and return one record a line, up to the maximum, each the parse of its line |
| WifiTableText.UnendedLineRefines | ls_wifi_test.c:285-288 | a last line that only the terminator ends gives the same record as one that a newline ends |
| WifiTableText.MissingFields | ls_wifi_test.c:66-121 | for a line of fewer than five fields the missing ones read as an empty name and zero numbers |
| WifiTableText.RenderParse | ls_wifi_test.c:66-121 | printing any list of access points and parsing the reply gives it back, addresses cut to 31 and names to 63 characters, up to the maximum number, whatever memory follows |
| WifiTableText.EmptyFlagsLoseName | ls_wifi_test.c:101-121 | a line of five fields with frequency and level is read as its fields if and only if its flags are non-empty or its name is empty |
| WifiScan.ScanStepKeepsScanInv | ls_wifi_test.c:215-256 | every step of the scan thread keeps the account of scans made, table written, status bits and token |
| WifiScan.StepKeepsInv | ls_wifi_test.c:215-669 | every step of any thread keeps the joint invariant |
| WifiScan.ScanHandshake | ls_wifi_test.c:609-669 | in every interleaving from a closed interface the semaphore never exceeds one, the client reads only after the scan thread has finished, published the final scan's table and cleared the scanning bit, at most three scans are made and fewer only when the factory network was found, and the verdict is whether that network's last entry is strong enough |
| WifiScan.TestEnds | ls_wifi_test.c:215-655 | under every scheduling the two threads take at most 320 steps, and when neither can move the test has returned |
| WifiScan.VerdictIffClosed | ls_wifi_test.c:609-636 | some schedule lets a test come to a verdict if and only if the interface is not already open |
| WifiScan.SecondTest | ls_wifi_test.c:609-669 | after any test from a closed interface has returned a test can be started again, and that one can come to a verdict if and only if the first failed to start |
| WifiEndToEnd.VerdictOfListings | ls_wifi_test.c:59-669 | in every interleaving, for scans parsed from any printed lists, the verdict is a pass exactly when the last row of the factory network among the first twenty of the first list that has one there, or else of the last list, is above -80 |
| WifiOpening.OpeningOutcome | ls_wifi_test.c:551-606 | in every schedule from a closed interface: a returned test failed if and only if its drivers were reported not to start, and then nothing has changed but what closing a loaded driver clears; else the first scan begins with exactly the scanning bit added, the event loop running, nothing counted and the table as found or cleared |
| WifiOpening.EventEndsWait | ls_wifi_test.c:322-335 | whenever a scan waits, its command was accepted and the event loop runs, and a scan event ends the wait and changes nothing else |
| WifiOpening.TableOutcome | ls_wifi_test.c:222-242 | when the scan thread has finished, the table is the one the test began with, each scan's rows written over its front in turn |
| WifiOpening.OpenInterface | ls_wifi_test.c:593-606 | opening once the drivers run, from any state, leaves exactly the open bit set, nothing counted or passed, the event loop running and one more token |
| WifiOpening.StartScan | ls_wifi_test.c:625-633 | past its first wait the client asks for a scan unless one is running or has ended |
| WifiOpening.AskForScan | ls_wifi_test.c:345-368 | from any state: refused on a closed interface; while a scan is running only another token is posted; else the bits are set and one scan thread is started |
| WifiOpening.VerdictAlone | ls_wifi_test.c:651-668 | from any state the second wait can end in, the verdict is a pass if and only if the end bit is set, something is counted, and the last entry of the factory network is strong or, for want of one, the result was a pass before |
| WifiScan.WifiResult | ls_wifi_test.c:391-410 | the loop over the records leaves the old result if none has the factory name, else whether the last such record is strong |
| Smsc.SmscToPdu | tel_test/ls_telephony_util.cpp:87-111 | the buffer holds the encoding and a terminator and is untouched behind it; a short length is refused with the buffer untouched |
| Smsc.SwapPairs | tel_test/ls_telephony_util.cpp:103-108 | the loop swaps each pair in place and leaves the rest of the buffer alone |
| Smsc.DecodeEncode | tel_test/ls_telephony_util.cpp:92-109 | swapping back and dropping the filler recovers the number if and only if it has an odd length, is empty or does not itself end in the filler |
| Smsc.EncodeInjective | tel_test/ls_telephony_util.cpp:92-109 | different digit strings have different encodings |
| Smsc.SemiOctets | tel_test/ls_telephony_util.cpp:95-108 | each octet holds its two digits low half first, the last high half filled for odd lengths |
| Smsc.LengthOctet | tel_test/ls_telephony_util.cpp:109 | the type octet is 91 and the constant length octet is right if and only if the number has 13 or 14 digits |
| Console.GetInt | bt_test/zib_bluetooth.c:250-269 | the loop computes the digit run's value modulo 2^32, or the default, and stops behind it, within the line |
| Console.GetSignedInt | bt_test/zib_bluetooth.c:271-296 | the same with a sign and wrapping to 32-bit signed |
| Console.GetHex | bt_test/zib_bluetooth.c:312-338 | the same in base 16, either case |
| Console.GetStr | bt_test/zib_bluetooth.c:298-310 | the buffer holds exactly the next word, terminated, and the cursor stands behind it |
| ConsoleText.UnsignedInvertsPrinting | bt_test/zib_bluetooth.c:250-338 | blanks, a printed number and any text that does not continue it give the number modulo 2^32 and that text |
| ConsoleText.SignedInvertsPrinting | bt_test/zib_bluetooth.c:271-296 | the same for every signed 32-bit number |
| ConsoleText.DefaultWithoutDigits | bt_test/zib_bluetooth.c:265-338 | on a line without a digit behind its blanks each reader returns its default and steps over the blanks, the signed one over a minus sign too |
| ConsoleText.ListRecovered | bt_test/zib_bluetooth.c:704-721 | repeated reading recovers every blank-separated list of 32-bit numbers and leaves what follows |
| ConsoleText.SignedReaderRange | bt_test/zib_bluetooth.c:285-290 | no intermediate result overflows if and only if the value is at most the largest int less 48 |
| CStrings.NumberScanned | bt_test/zib_bluetooth.c:96-105 | what `strtol` and `strtoul` take: white space, a sign, in base 16 a prefix, and the digits up to what does not continue them |
| CStrings.NothingScanned | bt_test/zib_bluetooth.c:340-351 | without digits they take nothing |
| CStrings.NumberValues | bt_test/zib_bluetooth.c:96-105 | their values, clamped to the range of the result, with a minus sign negating |
| BtAddress.Str2Bd | bt_test/zib_bluetooth.c:96-105 | the six bytes are the values of the six fields its cursor reaches |
| BtAddress.GetBdaddr | bt_test/zib_bluetooth.c:340-351 | on every line, within bounds, the six bytes are the field values if colons separate the fields, else all zero |
| BtAddress.ParsersAgreeIff | bt_test/zib_bluetooth.c:340-351 | on every text the checking parser accepts the other stays within the line, and both yield the same address if and only if each field fits or saturates alike |
| BtAddress.ParsersInvertPrinters | bt_test/zib_bluetooth.c:106-114 | both parsers invert the printed form of every address, in either case, whatever non-digit text follows |
| BtCommand.SeparatorsMatter | bt_test/zib_bluetooth.c:340-351 | of six printed bytes behind any white space, with any non-digit separators, the unchecked parser reads the bytes, the checking one reads them if every separator is a colon and else yields zeros |
| BtCommand.PrintedAfterSpace | bt_test/zib_bluetooth.c:96-114 | both parsers invert the printed form of every address behind any white space |
| BtCommand.FieldByte | bt_test/zib_bluetooth.c:100 | a field's byte is its value modulo 256, negated by a minus sign, and the next field begins behind its digits |
| BtCommand.PairCommand | bt_test/zib_bluetooth.c:785-805 | a command line with a word, blanks and a printed address yields the word and that address |
| Uuid.SetUuid | bt_test/zib_bluetooth.c:867-875 | the sixteen bytes, least significant first, stand for msb * 2^64 + lsb and each half for its own word |
| Uuid.LittleEndianInjective | bt_test/zib_bluetooth.c:867-875 | no two byte sequences of one length stand for the same number |
| HexDump.HexDump | bt_test/zib_bluetooth.c:185-238 | the loop with its two buffers emits exactly the lines of the dumped bytes, the last one flushed, or none |
| HexDump.HexAdded | bt_test/zib_bluetooth.c:213-230 | appending a byte to the hex buffer of an unfinished line never truncates |
| HexDump.CharAdded | bt_test/zib_bluetooth.c:217-230 | nor does appending its character |
| HexDumpText.DumpReadsBack | bt_test/zib_bluetooth.c:201-237 | there is one line for each sixteen bytes begun, and the hex columns of the printed lines, read in order, give back exactly the bytes dumped |
| HexDumpText.HexPlaces | bt_test/zib_bluetooth.c:213-230 | each byte is shown in the hex column at its place as two upper-case digits and a blank, with two more blanks behind the eighth |
| HexDumpText.CharacterColumn | bt_test/zib_bluetooth.c:208-230 | each byte is shown in the character column at its place, past the gap in the second half, as itself if it is a letter or digit, else as a dot |
| HexDumpText.ByteOnPage | bt_test/zib_bluetooth.c:201-237 | byte n is on printed line n / 16, whose address reads as its offset, at the places in the two columns that n modulo 16 gives |
| HexDumpText.AddressExactIff | bt_test/zib_bluetooth.c:202-206 | the address is printed in lower case and reads back as the offset if and only if the offset is below 64 KiB |

## Left out

- Clocks, `poll`, `read`, device files, logging and sleeping: events and clock readings are parameters.
- Event values other than release, press and repeat, and key code 0, which input drivers do not send.
- Console.GetSignedInt: signed overflow, which C leaves undefined, is taken to wrap; SignedReaderRange says when none occurs.
- BtAddress.Str2Bd: requires that each of the six fields begins within the line, since the code steps over terminators unchecked.
- Smsc.SmscToPdu: requires a buffer that the padded number fits, and its terminator zeroed for an even number, as the only caller provides.
- Console.GetStr: requires the word to fit the buffer, which the code does not check.
- HexDump.HexDump: the two buffers are strings bounded by their sizes, not arrays; resetting one empties it.
- WifiTable.WifiGetScanResult: the null-table check and the command that fetches the reply; length and reply are parameters.
- WifiTable.WifiParseLine: its three identical bounded copy loops are one method, called three times.
- WifiScan.ScanHandshake: a table entry is written in one step, and the event loop is modelled only as the signaller of scan results.
- The other duties of the event loop, and connecting, DHCP and adding networks: commands to a shell and a supplicant.
- `get_wifi_test_result`, which polls the result from another thread.
- `process_cmd` and the command table: looking a word up and calling a handler.
- The printer `bd2str` on platforms with signed `char`, where it prints more than two digits for large bytes.
- Locale handling in `strtol` and `strtoul`.
- Binder plumbing, Parcel decoding, HAL and GATT callbacks, sensors, audio and GPS: forwards to libraries outside the repository.

# Wireshark core, verified

A Dafny model of the self-contained hard parts of a WebAssembly port of Wireshark 3.2,
with proofs about every run and every input of them. `dafny verify dfyconfig.toml`
verifies the project.

What is modelled, module by module:

* **The capture-file session** (`Frames`, `Session`, `SessionRuns`, `SessionScripts`,
  `SessionLimits`, `CaptureFile`). Reading a file, rescanning its packets, changing the display filter,
  redissecting, processing records and refreshing time references all work on one
  `capture_file`. The user interface runs inside their progress updates, so requests arrive
  in the middle of a loop. `Sessions` says what each operation does to a whole session,
  for any script of requests; the class `CaptureFile` has the operations as file.c has them,
  each proved to do exactly that; `SessionRuns` proves what all runs keep;
  `SessionScripts` what the script of requests decides; `SessionLimits` where the promises end.
* **Searching** (`PacketSearch`, `ByteSearch`). The circular search for a packet and the
  matchers for bytes and text, with the exact class of searches that end and of patterns
  that are never missed.
* **Address resolution** (`Subnets`, `OctetMask`, `EtherParse`, `EtherRoundTrip`, `EtherResolve`, `PrefixAddr`).
  Longest-prefix match over hash chains, a fast address parser refining a slow one, the
  descending mask lookup, the negative cache, and reading address prefixes from packets.
* **Text decoders** (`SevenBit`, `Utf16`). 7-bit unpacking in both bit orders and UTF-16,
  with the encodings they undo.
* **Columns** (`ColumnText`, `Columns`, `ColumnInfo`). Column text that is either a
  constant shown by reference or a NUL-terminated buffer, with a protected prefix.
* **sharkd requests** (`FilterBits`, `Intervals`, `FramesRequest`, `IoGraph`). Gathering the bits
  of a filter, run-length grouping by time, slicing with a reference cursor, a growing table, and
  a sparse encoding.

`Basics` and `Bits` hold what they share. Machine integers are integers; where the width
shows (`% U32`, `Int32`, octets, truncating division) it is written out.

Findings, each proved exactly, with the code kept as it is:

* `match_narrow_and_wide` misses text in UTF-16 for exactly the patterns called `Lossy`
  (such as "aab"), since it resumes after a mismatch without counting skipped NULs. The
  label searches find every occurrence for exactly the patterns that repeat one character.
* `find_packet` goes round for ever exactly if it wraps, has no current frame, there are frames,
  and none that is displayed matches (and Stop is not pressed).
* `process_specified_records` leaves a request stranded exactly if one of the batches
  delivered during it asks for a pass: from then on no filter change or redissection request
  starts a pass until a file is read again.
* A plain rescan queued while a file is read leaves the frames after it out of the packet
  list, even all of them: the list is complete exactly if a redissection was requested or no
  record was read with a request waiting.
* A stopped read is reported as complete exactly if a pass was asked for before the Stop was
  noticed and the rescan serving it is not stopped as well.
* The reselection after a rescan is not "the nearest" displayed frame, as the comment at
  file.c:1946-1949 says: it prefers the preceding one however far away it is. A request within a
  rescan makes it choose among the frames seen so far: it forgets the selected frame exactly if none
  of those passes the old filter (not counting the last of them while the selected one is still to
  come), hence always if the request comes before the first frame.
* `ref_time_packets` and a rescan disagree on the previous displayed frame of a passed frame
  exactly where nothing is displayed before it, or the last frame that is did not pass the filter
  and is not frame 1; and on that of any other frame exactly where it was out of date already.
* Both 7-bit decoders take bit offset 7 for 0.
* An address-range entry can be hit, and give its name, from outside exactly if it has at
  least two bits and the last bit of its prefix is zero.
* `parse_ether_address` leaves old octets of the buffer in an accepted entry exactly if fewer
  than six were given without a mask within them. It ignores what follows a separator after the
  sixth octet, whether masks are allowed or not: without masks it accepts exactly six octets with
  separators between them and these, where its comment promises "exactly 6 bytes".
* A prepended string loses fenced column text exactly if it and the fenced text overfill the buffer.
* `sharkd_filter` forgets which of the last eight frames passed exactly if it stops at a frame that
  cannot be read and whose number is a multiple of eight (in this port it is commented out).
* In the intervals request a frame counts as one millisecond later than it is exactly if its
  nanoseconds are below those of the first frame and differ by no whole millisecond; before the
  first frame, as one interval later unless it is at the start of one.

## Model

| member | source | states |
|---|---|---|
| CaptureFiles.CaptureFile.FilterPackets | c/3rd/wireshark/file.c:1495-1563 | A new or forced filter replaces the current one; it starts a pass only if no pass holds the lock, else it is queued and never downgrades a queued redissection |
| CaptureFiles.CaptureFile.RedissectPackets | c/3rd/wireshark/file.c:1572-1591 | While a pass holds the lock, or a scan is queued, the request becomes a queued redissection; else it starts one |
| CaptureFiles.CaptureFile.UpdateProgress | c/3rd/wireshark/file.c:1810-1831 | Requests delivered at a progress point leave frames, list, bookkeeping, session and lock alone; they only mark the queue, the filter, the stop flag or the state |
| CaptureFiles.CaptureFile.AddPacketToPacketList | c/3rd/wireshark/file.c:1184-1252 | The whole new state after one frame is added: its verdict, reference, previous displayed frame and bytes, and the file's counters and list |
| CaptureFiles.CaptureFile.ScanFrames | c/3rd/wireshark/file.c:1791-1896 | The loop of a pass over any request script: where it ends, why, and what it remembered for reselection |
| CaptureFiles.CaptureFile.RescanPackets | c/3rd/wireshark/file.c:1626-2011 | Callable only with the lock free; equal to the specified rescan, restarting while requests are queued |
| CaptureFiles.CaptureFile.Reselect | c/3rd/wireshark/file.c:1939-1996 | The choice between the selected, preceding and following frame, the first row, and none |
| CaptureFiles.CaptureFile.ReadRecord | c/3rd/wireshark/file.c:1260-1313 | A record passing the read filter becomes a frame, dissected and listed only while no request is queued |
| CaptureFiles.CaptureFile.ReadFrames | c/3rd/wireshark/file.c:599-664 | The loop of cf_read over any request script, with the dissection session never changing in it |
| CaptureFiles.CaptureFile.Read | c/3rd/wireshark/file.c:499-780 | cf_read: refused while locked; after reading, the queued request is served, or the file closed if reading was given up |
| CaptureFiles.CaptureFile.Close | c/3rd/wireshark/file.c:364-446 | cf_close: the fields of a closed file |
| CaptureFiles.CaptureFile.ProcessSpecifiedRecords | c/3rd/wireshark/file.c:2103-2228 | Refused while locked; processes the range until stopped or failed, then just releases the lock |
| CaptureFiles.CaptureFile.RefTimePackets | c/3rd/wireshark/file.c:2020-2094 | The frame and file fields after refreshing references without dissection |
| Sessions.ProgressUndisturbed | c/3rd/wireshark/file.c:1547-1591 | No event batch can disturb a running pass or lose a queued request |
| Sessions.PassEnv | c/3rd/wireshark/file.c:2001-2010 | A pass broken by a request consumed part of the script, so restarting terminates |
| SessionRuns.ScanLoopIs | c/3rd/wireshark/file.c:1791-1896 | At every exit of a pass, the frames before it are dissected, judged by the filter it started with and listed in order; it reaches the end unless interrupted |
| SessionRuns.RescanIs | c/3rd/wireshark/file.c:1626-2011 | Whatever requests arrive, a rescan ends with the lock free, nothing queued and no redissection owed; un-stopped, every frame is up to date with the latest filter, and a redissecting one lists frames 1..count in order |
| SessionRuns.RescanFilters | c/3rd/wireshark/file.c:1212-1228 | After an un-stopped rescan of readable frames, with a filter exactly the frames it accepts in the last dissection session have passed, and without one all have |
| SessionRuns.UpToDateExactly | c/3rd/wireshark/file.c:1791-2011 | After a rescan that redissected and was not stopped, all frames are up to date if and only if each of them can be read back from the file |
| SessionRuns.ReadLoopIs | c/3rd/wireshark/file.c:599-664 | While no request waits, all frames read so far are done and listed; the session number stays |
| SessionRuns.ReadIs | c/3rd/wireshark/file.c:499-780 | A read that is given up leaves a closed file; after any other the lock is free and the queue empty, and an un-stopped one leaves all frames up to date, with a complete list unless its loop left a plain scan queued (SessionScripts.ListCompleteExactly says when). Success is reported exactly if it was neither given up nor stopped, reached no limit and met no error |
| SessionRuns.ReadFilters | c/3rd/wireshark/file.c:1212-1228 | The same after an un-stopped read, with or without a rescan at its end |
| SessionRuns.StepSettles | c/3rd/wireshark/file.c:1495-1591 | Every user operation, with any requests during it, leads from a settled session to a settled one |
| SessionRuns.Run | c/3rd/wireshark/file.c:1495-1591 | Every run of loads, filter changes and redissections is settled between operations: lock free, queue empty, no request lost, the list the first frames in order, each once, and all frames up to date unless stopped |
| SessionRuns.RunFilters | c/3rd/wireshark/file.c:1212-1228 | The same between the operations of any run, with a file open and the last pass not stopped |
| SessionRuns.StepCompletes | c/3rd/wireshark/file.c:1495-1591 | Without a redissection the list stays as it is; one that is not stopped completes it |
| SessionRuns.ListStaysComplete | c/3rd/wireshark/file.c:1495-1591 | Over any sequence of filter changes and redissections, none of them stopped, a complete list stays complete |
| SessionScripts.DeliverAllDecides | c/3rd/wireshark/file.c:1495-1591 | What a batch of requests leaves behind: a pass is queued if and only if one of them asks for it, a redissection if and only if one is requested, and likewise for Stop and leaving the program |
| SessionScripts.FilterRequestMeans | c/3rd/wireshark/file.c:1495-1563 | A request for the filter in force (none and an empty one being the same) or for one that does not compile does nothing, unless the former is forced; any other replaces the filter, an empty one by none, and is queued under the lock, or else starts a pass with a file open and nothing queued |
| SessionScripts.RedissectRequestMeans | c/3rd/wireshark/file.c:1572-1591 | Under the lock, or with a request waiting, a redissection is queued; otherwise, with a file open, one is started |
| SessionScripts.StrandedExactly | c/3rd/wireshark/file.c:2130-2222 | The batches delivered while records are processed, computed from the script, decide whether a request, and whether a redissection, is left queued |
| SessionScripts.ListKeepsUp | c/3rd/wireshark/file.c:599-664 | The list falls behind the frames exactly by the wanted records read while a request is waiting |
| SessionScripts.ReadLoopIsFated | c/3rd/wireshark/file.c:599-664 | How cf_read's loop ends, the batches it leaves, the number of frames and the filter then in force, from filter, records and script alone |
| SessionScripts.ListCompleteExactly | c/3rd/wireshark/file.c:599-748 | After an un-stopped read the list is complete if and only if a redissection was requested before it or in the batches that filter, records and script say it takes, or no wanted record was read at or after the first batch that asks for a pass |
| SessionScripts.RescanRedissects | c/3rd/wireshark/file.c:1626-2011 | A rescan starts a new dissection session if and only if it was told to or one of the batches it takes from the script, for its filter and number of frames, requests redissection |
| SessionScripts.RescanIsFated | c/3rd/wireshark/file.c:1761-2011 | What it leaves of the script and whether it ends stopped is a function of filter, number of frames and script: stopped if and only if a batch with a Stop that does not ask for a pass comes within the frames of the last pass |
| SessionScripts.StopForgottenExactly | c/3rd/wireshark/file.c:654-758 | A stopped read is reported as complete if and only if a pass was asked for before it or up to the batch with the Stop, and the rest of the script does not stop the rescan; end, frame count and filter of the loop are computed from records and script |
| SessionLimits.ProcessMayWedge | c/3rd/wireshark/file.c:2130-2222 | Processing records changes no frame; it strands a request if and only if one of the batches delivered to it holds a redissection request or a filter change that is not ignored; otherwise filter and queue are as before |
| SessionLimits.FilterWhileProcessingWedges | c/3rd/wireshark/file.c:2165-2222 | A filter change at the first progress point strands a request, for every range and callback |
| SessionLimits.WedgedForGood | c/3rd/wireshark/file.c:1547-1591 | After that, any sequence of filter changes and redissection requests changes nothing the user sees |
| SessionLimits.RestIsNotListed | c/3rd/wireshark/file.c:1305-1309 | With a request waiting, the remaining records become frames but are neither dissected nor listed |
| SessionLimits.ReadSelects | c/3rd/wireshark/file.c:714-728 | A read without requests ends with its first displayed frame selected |
| SessionLimits.EarlyFilterEmptiesTheList | c/3rd/wireshark/file.c:599-748 | One filter change at the first progress point: success is reported, every frame judged by the new filter (if the frames are readable), and the packet list empty |
| SessionLimits.ReloadingWhenWedged | c/3rd/wireshark/file.c:729-748 | Reloading with a stranded scan request gives an empty list too |
| SessionLimits.StopIsForgotten | c/3rd/wireshark/file.c:744-758 | The smallest case: Stop and a redissection request at one progress point, and an incomplete read is reported as complete |
| SessionLimits.QuietRescan | c/3rd/wireshark/file.c:1626-2011 | Without requests a rescan is exactly one pass |
| SessionLimits.RightByChance | c/3rd/wireshark/file.c:1738-1896 | A plain rescan that stops at an unreadable frame may find the frames from there on up to date: the second of two, not displayed and judged by the same filter before |
| SessionLimits.RescanSelects | c/3rd/wireshark/file.c:1866-1996 | Undisturbed, a rescan selects the old frame if it passes, else the last passing one before, else the first after, else none; or the first row if none was selected; a chosen frame without a row leaves the selection alone |
| SessionLimits.PassSelects | c/3rd/wireshark/file.c:1866-1996 | However a pass ends, under any script, it selects by the frames it has gone over, and exactly those have been judged |
| SessionLimits.InterruptedSelects | c/3rd/wireshark/file.c:1932-2010 | With one request in it, a rescan selects first by the frames it has seen, judged by the old filter, and then from there; the selected frame is forgotten in between if and only if none of the frames before the request passes the old filter, the last of them not counting if the selected one is still to come |
| SessionLimits.EarlyRequestUnselects | c/3rd/wireshark/file.c:1932-2010 | A request before the first frame of a rescan loses the selection: it ends on the first row, that is the first displayed frame if the list is or becomes complete, even if the selected frame passes |
| SessionLimits.NearbyIsNotNearest | c/3rd/wireshark/file.c:1946-1971 | That choice is the nearest (the later on ties) if and only if a side is empty or the preceding frame is strictly nearer |
| Frames.AddedInSteps | c/3rd/wireshark/epan/frame_data.c:211-259 | The record added in one step is what the two bookkeeping calls around dissection give |
| Frames.DeltaIsDifference | c/3rd/wireshark/epan/frame_data.c:228-237 | The relative time is the difference in nanoseconds; seconds and nanoseconds have one sign |
| Frames.AddingMatches | c/3rd/wireshark/file.c:1184-1252 | Adding a frame keeps reference, previous displayed frame, bytes since the reference, displayed count, first and last as the frames say |
| Frames.ScanMatches | c/3rd/wireshark/file.c:1738-1896 | After a pass over n frames every frame and the file's counters agree with their definitions over the frame table |
| Frames.ElapsedIsMaximum | c/3rd/wireshark/epan/frame_data.c:228-237 | One step: the later of two times is kept, whatever comes next, if and only if the elapsed time fits the 32-bit cast it is compared through |
| Frames.MaxSeenIs | c/3rd/wireshark/epan/frame_data.c:228-237 | The latest of the earlier elapsed time and all relative times: one of them, and none is later |
| Frames.ScanElapsed | c/3rd/wireshark/epan/frame_data.c:228-237 | A full pass leaves that maximum, if the times fit the cast |
| Frames.RefreshElapsed | c/3rd/wireshark/file.c:2058-2068 | So does refreshing the references |
| Frames.RefreshIs | c/3rd/wireshark/file.c:2026-2093 | Refreshing gives each frame its latest reference, the latest passed frame or frame 1, and the bytes since the reference |
| Frames.RefreshAgreesWithRescan | c/3rd/wireshark/file.c:2020-2094 | References and the bytes of displayed frames equal those of a full pass; the previous frame of a passed frame does if and only if the one displayed before exists and passed, or is frame 1; that of any other frame if and only if it was right already |
| ByteSearch.SearchState.MatchBinary | c/3rd/wireshark/file.c:3449-3490 | Leftmost occurrence or none; position of its last byte; read errors |
| ByteSearch.SearchState.MatchNarrow | c/3rd/wireshark/file.c:3351-3397 | The same for a text up to case: where case is ignored, small letters of the packet count as capital ones |
| ByteSearch.SearchState.MatchWide | c/3rd/wireshark/file.c:3400-3446 | The same for a text at every second byte |
| ByteSearch.SearchState.MatchNarrowAndWide | c/3rd/wireshark/file.c:3301-3348 | Equals the function of its loop about which soundness and completeness are proved |
| ByteSearch.FoldingComparesLetters | c/3rd/wireshark/file.c:3374-3377 | Comparing folded bytes with a text, next to each other or at every second byte, is comparing the bytes of the packet letter by letter: equal, or a small letter for a capital one where case is ignored |
| ByteSearch.NarrowAndWideOnPackets | c/3rd/wireshark/file.c:3320-3347 | Said of the bytes of the packet: a text in it is found, and one in UTF-16 unless the pattern is lossy; a match ends a stretch whose bytes other than NUL are the text up to case |
| ByteSearch.NarrowAndWideSound | c/3rd/wireshark/file.c:3320-3347 | A reported match ends a stretch whose bytes other than NUL are exactly the text |
| ByteSearch.NarrowAndWideComplete | c/3rd/wireshark/file.c:3320-3347 | It finds the text wherever it occurs, narrow or wide, if and only if no shift of the pattern is lossy |
| ByteSearch.LossyPatternIsMissed | c/3rd/wireshark/file.c:3340-3342 | For each lossy pattern, a buffer holding it in which it is not found |
| ByteSearch.NarrowNeverLost | c/3rd/wireshark/file.c:3320-3347 | Narrow occurrences are found whatever the pattern |
| ByteSearch.NulPatternNeverFound | c/3rd/wireshark/file.c:3325-3344 | A pattern with a NUL is never found |
| ByteSearch.AgreesWithNarrow | c/3rd/wireshark/file.c:3320-3347 | Without NULs the result is the leftmost occurrence, as for match_narrow |
| ByteSearch.AabIsLossy | c/3rd/wireshark/file.c:3340-3342 | "aab" is a lossy pattern, "ab" is not |
| ByteSearch.MatchText | c/3rd/wireshark/file.c:3155-3169 | The loop of the label searches equals the function studied below |
| ByteSearch.NoBackupSound | c/3rd/wireshark/file.c:3229-3241 | A match of the label searches ends an occurrence |
| ByteSearch.NoBackupComplete | c/3rd/wireshark/file.c:3155-3169 | They find every occurrence if and only if the text repeats one character |
| ByteSearch.NoBackupOnLabels | c/3rd/wireshark/file.c:3155-3169 | Said of the characters of the label: a match ends an occurrence up to case, and occurrences of one repeated character are always found |
| PacketSearch.VisitsFollowOrder | c/3rd/wireshark/file.c:3681-3738 | The frames are looked at in the order onwards, around if wrapping, current frame last |
| PacketSearch.VisitsWithoutStart | c/3rd/wireshark/file.c:3681-3738 | Wrapping without a current frame visits all frames round after round |
| PacketSearch.Termination | c/3rd/wireshark/file.c:3643-3740 | The search ends if and only if it has a current frame, does not wrap, has no frames, something matches, or Stop is pressed |
| PacketSearch.FindsFirstInOrder | c/3rd/wireshark/file.c:3601-3740 | Without Stop or read error it yields the first frame in that order that has passed the filter and matches; none exactly if there is no such frame |
| PacketSearch.FindsWithoutStart | c/3rd/wireshark/file.c:3601-3740 | Without current frame and wrap: forward the first such frame of all, backward none |
| PacketSearch.FindsAround | c/3rd/wireshark/file.c:3601-3740 | Wrapping without a current frame, and something matching: the first such frame from the end it comes from |
| PacketSearch.GivesUp | c/3rd/wireshark/file.c:3640-3740 | Stop, and a displayed frame that cannot be read, end the search at the frame it started from, if nothing displayed matched before |
| PacketSearch.FindState.FindPacket | c/3rd/wireshark/file.c:3601-3773 | The method reaches the specified end, selects the result if it has a row, and sets stop flag and search position accordingly |
| Subnets.MaskValue | c/3rd/wireshark/epan/addr_and_mask.c:21-39 | Entry n of the mask table is n ones followed by zeros |
| Subnets.MaskComparesPrefix | c/3rd/wireshark/epan/addr_and_mask.c:21-39 | Equality under a mask is equality of that many leading bits |
| Subnets.ContainsMeans | c/3rd/wireshark/epan/addr_resolv.c:2485-2531 | A definition contains exactly the addresses that begin with its bits |
| Subnets.FirstDefinedMeans | c/3rd/wireshark/epan/addr_resolv.c:2537-2578 | The specification: the name given first to a subnet, whole if it has fewer than 64 characters, else its first 63 |
| Subnets.SubnetTables.Set | c/3rd/wireshark/epan/addr_resolv.c:2537-2578 | After any history every table answers with the first name, although the last node of a chain is never compared |
| Subnets.SubnetTables.Lookup | c/3rd/wireshark/epan/addr_resolv.c:2485-2531 | The longest defined prefix containing the address under its first name, or none |
| OctetMask.MaskMask | c/3rd/wireshark/epan/addr_resolv.c:1661-1686 | Masking twice is masking to the shorter length |
| OctetMask.MaskInPlace | c/3rd/wireshark/epan/addr_resolv.c:1382-1391 | The octet loop keeps exactly the first bits |
| EtherParse.ParseEtherAddress | c/3rd/wireshark/epan/addr_resolv.c:1343-1435 | Result, mask and buffer as the function of the input and the old buffer |
| EtherParse.ParseMask | c/3rd/wireshark/epan/addr_resolv.c:1365-1393 | The same for the mask after a slash |
| EtherParse.ParseEtherAddressFast | c/3rd/wireshark/epan/addr_resolv.c:1246-1335 | The same for the fast parser |
| EtherParse.FastRefinesSlow | c/3rd/wireshark/epan/addr_resolv.c:1246-1435 | Whatever the fast parser accepts, the slow one accepts with the same address, mask and number of octets |
| EtherParse.FastAcceptsExactly | c/3rd/wireshark/epan/addr_resolv.c:1241-1335 | It accepts exactly three or six pairs of digits with colons, the first digit of each below 8, and after six the end, /36 or /28 |
| EtherParse.MaskLiterals | c/3rd/wireshark/epan/addr_resolv.c:1318-1391 | The literal masking for /36 and /28 is the loop's |
| EtherParse.StaleOctets | c/3rd/wireshark/epan/addr_resolv.c:1343-1435 | What an accepted entry leaves in the buffer is independent of its old content if and only if six octets were given or a mask from 1 up to the octets given |
| EtherParse.ReadsAlike | c/3rd/wireshark/epan/addr_resolv.c:1343-1435 | Whatever the buffer holds, the parser decides the same and reads the same octets into it |
| EtherParse.VendorKeepsOldOctets | c/3rd/wireshark/epan/addr_resolv.c:1394-1406 | The smallest case: three octets without a mask leave the last three as they were |
| EtherRoundTrip.ParsingUndoesPrinting | c/3rd/wireshark/epan/addr_resolv.c:1343-1435 | Every address, printed as pairs of small or capital digits in any mixture, with any of the separators and any mask length from 1 to 47 or none, is read back masked, whatever the buffer held |
| EtherRoundTrip.MaskEndsExactly | c/3rd/wireshark/epan/addr_resolv.c:1365-1393 | A mask length is accepted if and only if it is below 48 and followed by the end of the string or white space, whatever comes behind that |
| EtherRoundTrip.PrefixIsRead | c/3rd/wireshark/epan/addr_resolv.c:1353-1364 | An octet with "0x" in front is read like the one without; "0x" without a digit is a zero |
| EtherRoundTrip.AnythingMayFollow | c/3rd/wireshark/epan/addr_resolv.c:1337-1435 | Every address printed with any separator is read back, masks allowed or not; and so it is with one more separator and any text whatever behind it |
| EtherParse.TrailingTextIgnored | c/3rd/wireshark/epan/addr_resolv.c:1337-1435 | Without masks it accepts exactly six octets with separators between them, and six octets each followed by the separator; with masks, exactly the latter without storing a mask. Then no text behind that last separator matters, masks allowed or not |
| EtherResolve.LongestHitIs | c/3rd/wireshark/epan/addr_resolv.c:1793-1871 | Trying masks downwards finds the longest that hits |
| EtherResolve.SuffixRecoversAddress | c/3rd/wireshark/epan/addr_resolv.c:1796-1868 | Range and printed suffix together are the address |
| EtherResolve.KeyIsThreeOctets | c/3rd/wireshark/epan/addr_resolv.c:1552-1585 | Vendor keys are equal exactly if the first three octets are; the multicast bit is the last of the first octet |
| EtherResolve.RuleFindsVendor | c/3rd/wireshark/epan/addr_resolv.c:1620-1659 | The vendor of an address: the one given for its first three octets, or else for these without the multicast bit |
| EtherResolve.AnswerIs | c/3rd/wireshark/epan/addr_resolv.c:1776-1880 | The answer for any tables: the name from the file first; else the longest range that hits with 24 bits or more, with the octets that complete the address; else its vendor; else the longest shorter range; else the address itself |
| EtherResolve.EtherTables.LoadVendor | c/3rd/wireshark/epan/addr_resolv.c:1552-1585 | Loading a vendor keeps the table answering by the rule |
| EtherResolve.EtherTables.ManufNameLookup | c/3rd/wireshark/epan/addr_resolv.c:1620-1659 | Exact key, else the key without the multicast bit, else unresolved, whatever was looked up before |
| EtherResolve.EtherTables.WkaNameLookup | c/3rd/wireshark/epan/addr_resolv.c:1661-1686 | The entry for the address masked to that length |
| EtherResolve.EtherTables.TryMasks | c/3rd/wireshark/epan/addr_resolv.c:1793-1802 | One group of masks, longest first |
| EtherResolve.EtherTables.EthAddrResolve | c/3rd/wireshark/epan/addr_resolv.c:1776-1880 | Masks 47 to 24, then the manufacturer, then 23 to 1, then hexadecimal |
| EtherResolve.CachingIsTransparent | c/3rd/wireshark/epan/addr_resolv.c:1620-1659 | A cached failure never changes an answer; one is cached exactly if there is no entry for the address, with or without the multicast bit |
| EtherResolve.LoadingAfterLookups | c/3rd/wireshark/epan/addr_resolv.c:1552-1659 | A vendor loaded after lookups is seen everywhere if and only if its multicast form was not cached as unresolved |
| EtherResolve.SmallRangesWin | c/3rd/wireshark/epan/addr_resolv.c:1793-1824 | An address in a stored range of length p >= 24 is resolved by the range table at a mask of at least p, the longest that hits |
| EtherResolve.LargeRangesLast | c/3rd/wireshark/epan/addr_resolv.c:1826-1871 | A shorter range is used only if the vendor is unknown and no longer mask hits |
| EtherResolve.OutsideHits | c/3rd/wireshark/epan/addr_resolv.c:1587-1596 | A range is hit by some address outside it if and only if its length is at least 2 and its last prefix bit is zero |
| EtherResolve.OutsideNamed | c/3rd/wireshark/epan/addr_resolv.c:1587-1871 | A range on its own gives its name to some address outside it under the same condition |
| EtherResolve.EnteredRangeNames | c/3rd/wireshark/epan/addr_resolv.c:1587-1871 | An entered range names every address inside it that no longer entry hits, if it has at least 24 bits or the vendor is unknown |
| PrefixAddr.GetAddrWithPrefixLen | c/3rd/wireshark/epan/addr_and_mask.c:46-82 | Too long, out of bounds, or the octets read, masked to the prefix with zeros after it; the buffer untouched when too long |
| PrefixAddr.UnreadOctetsMasked | c/3rd/wireshark/epan/addr_and_mask.c:46-82 | Reading only the octets needed gives the whole address masked |
| PrefixAddr.MaskAddrIsSubnetMask | c/3rd/wireshark/epan/addr_and_mask.c:21-61 | Masking an IPv4 address by octets equals masking its number with the table entry |
| SevenBit.GetTs23038SevenBitsString | c/3rd/wireshark/epan/charsets.c:934-1004 | The text of exactly the septets of the least-significant-first bit stream, reading exactly the bytes that hold them |
| SevenBit.GetAsciiSevenBitsString | c/3rd/wireshark/epan/charsets.c:1006-1062 | The same slices of the most-significant-first stream, and the same byte count |
| SevenBit.NextLsb | c/3rd/wireshark/epan/charsets.c:952-976 | Low bits joined with what the previous byte left are the next septet |
| SevenBit.NextMsb | c/3rd/wireshark/epan/charsets.c:1022-1045 | The same for the other bit order |
| SevenBit.UnpackPack | c/3rd/wireshark/epan/charsets.c:934-1062 | The septets of packed septets are the septets, behind any leading bits, in both orders |
| SevenBit.HandleCoded | c/3rd/wireshark/epan/charsets.c:905-932 | Escape decoding inverts escape coding for both tables |
| SevenBit.DanglingEscape | c/3rd/wireshark/epan/charsets.c:905-932 | An escape at the end of a text gives one replacement character, and one escape after the other counts once |
| SevenBit.AsciiCodes | c/3rd/wireshark/epan/charsets.c:847-879 | Letters, digits and most punctuation of the default alphabet have their ASCII codes; codes from 0x80 on have no character |
| SevenBit.OtherCodes | c/3rd/wireshark/epan/charsets.c:847-864 | The control characters and symbols that do not |
| SevenBit.LatinCodes | c/3rd/wireshark/epan/charsets.c:847-864 | The Latin letters and symbols beyond ASCII, in the order of Unicode |
| SevenBit.GreekCodes | c/3rd/wireshark/epan/charsets.c:849-850 | The Greek letters, in the order of Unicode |
| SevenBit.ExtensionCodes | c/3rd/wireshark/epan/charsets.c:882-899 | The ten characters of the extension table, each with its one code, and no others |
| SevenBit.BitsOfValue | c/3rd/wireshark/epan/charsets.c:934-1062 | The bits of a byte are the binary digits of its value |
| SevenBit.GsmRoundTrip | c/3rd/wireshark/epan/charsets.c:934-1004 | Packing by section 6.1.2 of 3GPP TS 23.038 and decoding gives the text back, at offsets 0 to 6 |
| SevenBit.AsciiRoundTrip | c/3rd/wireshark/epan/charsets.c:1006-1062 | The same for text packed most significant bit first |
| SevenBit.OffsetSevenIsZero | c/3rd/wireshark/epan/charsets.c:947-950 | The septets read are those at the given offset, for every input, if and only if the offset is not 7 modulo 8 or nothing is read |
| Utf16.GetUtf16String | c/3rd/wireshark/epan/charsets.c:720-797 | The decoding of the units, and a replacement for an odd last byte |
| Utf16.GetUcs2String | c/3rd/wireshark/epan/charsets.c:682-705 | The units themselves |
| Utf16.OnlyScalars | c/3rd/wireshark/epan/charsets.c:720-797 | On any bytes only Unicode scalar values come out |
| Utf16.DecodeEncode | c/3rd/wireshark/epan/charsets.c:730-787 | Decoding inverts encoding by section 2.1 of RFC 2781 on units |
| Utf16.DecodeErrors | c/3rd/wireshark/epan/charsets.c:735-790 | After any text, a lone trail surrogate, a lead with the unit after it if that is no trail, and a lead at the end give one replacement character each |
| Utf16.Utf16RoundTrip | c/3rd/wireshark/epan/charsets.c:720-797 | The same through bytes, in both byte orders, for every text |
| Utf16.AgreesWithUcs2 | c/3rd/wireshark/epan/charsets.c:682-797 | The two decoders agree if and only if the length is even and no unit is a surrogate |
| ColumnText.FenceKeptExactly | c/3rd/wireshark/epan/column-utils.c:197-856 | Fence and text stay consistent if and only if a fenced reference or a prepended string is short enough |
| ColumnText.StepShows | c/3rd/wireshark/epan/column-utils.c:197-856 | Text and fence each operation leaves: what is added behind the fence or the text, with the separator only between two texts and list parts in a row, or before it; all of it if it fits, else its first max - 1 characters |
| ColumnText.AppendsSeparate | c/3rd/wireshark/epan/column-utils.c:802-856 | Strings appended one after the other have the separator between them and nowhere else |
| ColumnText.TextBeforeFenceKept | c/3rd/wireshark/epan/column-utils.c:261-856 | Clear, add, set and append keep the fence and the text before it |
| ColumnText.FencedTextSurvives | c/3rd/wireshark/epan/column-utils.c:197-856 | Over any run within the buffer without clearing the fence, fenced text stays whole behind everything prepended since, in order |
| ColumnText.CopiedTextFits | c/3rd/wireshark/epan/column-utils.c:303-856 | No operation that writes the buffer leaves more text than it holds |
| ColumnText.OverlongPrepend | c/3rd/wireshark/epan/column-utils.c:572-582 | What one overlong prepend leaves: the fence beyond the end |
| Columns.BufferSizeAgrees | c/3rd/wireshark/epan/column.c:213-266 | No operation assumes another buffer size than a matching column has: 4096 for the Info column, else 256 |
| Columns.ShownByExactly | c/3rd/wireshark/epan/column.c:213-266 | Which columns show a format, as the inverse table |
| Columns.Strlcpy | c/3rd/wireshark/epan/column-utils.c:655-668 | What a copy at a position does to the C string in the buffer |
| Columns.Column.SetFence | c/3rd/wireshark/epan/column-utils.c:199-214 | Fence at the end of the shown text, in both representations |
| Columns.Column.Clear | c/3rd/wireshark/epan/column-utils.c:262-300 | The text is cut at the fence, in both representations |
| Columns.Column.CheckAppend | c/3rd/wireshark/epan/column-utils.c:303-309 | A string shown by reference is copied as far as the buffer goes |
| Columns.Column.Add | c/3rd/wireshark/epan/column-utils.c:638-670 | Text up to the fence, then the new text, cut to the buffer |
| Columns.Column.Set | c/3rd/wireshark/epan/column-utils.c:675-711 | The same behind a fence; without one, the string itself |
| Columns.Column.WriteList | c/3rd/wireshark/epan/column-utils.c:406-419 | Writing the parts one by one writes their concatenation, cut once |
| Columns.Column.AddList | c/3rd/wireshark/epan/column-utils.c:714-760 | As Add, for the concatenation |
| Columns.Column.AppendList | c/3rd/wireshark/epan/column-utils.c:382-422 | The concatenation after the whole text |
| Columns.Column.Append | c/3rd/wireshark/epan/column-utils.c:802-856 | Separator only if the column is not empty, then the text |
| Columns.Column.AppendFormat | c/3rd/wireshark/epan/column-utils.c:466-508 | The same, although a truncated separator is counted in full |
| Columns.Column.Prepend | c/3rd/wireshark/epan/column-utils.c:546-587 | New text first; a fence moves along |
| Columns.Column.PrependFence | c/3rd/wireshark/epan/column-utils.c:589-633 | The same, creating a fence if there was none |
| ColumnInfos.ColumnInfo.Update | c/3rd/wireshark/epan/column-utils.c:191-309 | Exactly the columns showing a writable format change, each as specified; consistency is kept if and only if the operation fits each |
| ColumnInfos.ColumnInfo.WritableMeans | c/3rd/wireshark/epan/column-utils.c:146-168 | A format is writable exactly if the row is and the first column that shows it is |
| ColumnInfos.Ranges | c/3rd/wireshark/epan/column.c:872-884 | For each format the first and the last column that shows it, or -1 and none does |
| ColumnInfos.ColumnInfo.constructor | c/3rd/wireshark/epan/column.c:856-884 | For any formats, a row of empty writable columns with buffers of their own, laid out as the operations require |
| ColumnInfos.ColumnInfo.GetWritable | c/3rd/wireshark/epan/column-utils.c:146-168 | The global flag, and the flag of the first column that shows the format |
| ColumnInfos.ColumnInfo.SetWritable | c/3rd/wireshark/epan/column-utils.c:171-188 | Exactly the flags of the columns showing the format, or the global one |
| ColumnInfos.ColumnInfo.GetText | c/3rd/wireshark/epan/column-utils.c:235-253 | The text of the last column that shows the format |
| ColumnInfos.ColumnInfo.Init | c/3rd/wireshark/epan/column-utils.c:124-143 | Every column empty, unfenced and writable |
| Intervals.ProcessIntervals | c/3rd/wireshark/sharkd_session.c:3150-3252 | Exactly the division of the passing frames into longest runs of one interval, with their counts, and the totals; no reply for interval zero |
| Intervals.ItemsArePassing | c/3rd/wireshark/sharkd_session.c:3208-3221 | What is divided: for each frame that passes, in order, its interval and its length |
| Intervals.DividesOneWay | c/3rd/wireshark/sharkd_session.c:3204-3243 | There is only one such division |
| Intervals.GroupsSumToTotals | c/3rd/wireshark/sharkd_session.c:3233-3248 | Group frames and bytes sum to the reported totals |
| Intervals.TotalsFit | c/3rd/wireshark/sharkd_session.c:3158-3162 | The byte totals never overflow 64 bits |
| Intervals.MsecRelExactly | c/3rd/wireshark/sharkd_session.c:3215 | The milliseconds are the whole ones elapsed if and only if no fraction is borrowed; else one more |
| Intervals.MsecRelMonotone | c/3rd/wireshark/sharkd_session.c:3215-3216 | Truncating a negative nanosecond difference never reorders time stamps |
| Intervals.IndexExactly | c/3rd/wireshark/sharkd_session.c:3216 | The index is that of the interval the milliseconds lie in if and only if they are not negative or a multiple of the interval; else one more; index 0 is everything less than one interval away |
| Intervals.IntervalsIncrease | c/3rd/wireshark/sharkd_session.c:3204-3248 | With time stamps in order the indices strictly increase from at least 0, and the last one is the reported last |
| FramesRequest.ProcessFrames | c/3rd/wireshark/sharkd_session.c:847-932 | The slice of the passing frames, each with the previous passing frame and its reference |
| FramesRequest.AnswerShows | c/3rd/wireshark/sharkd_session.c:847-932 | Past the skipped frames, up to the limit if there is one, each frame with the frame passing before it and its reference |
| Intervals.PassingExactly | c/3rd/wireshark/sharkd_session.c:852-855 | The frames shown are exactly those whose bit is set, each once, in increasing order |
| FilterBits.FilterFrames | c/3rd/wireshark/sharkd.c:740-787 | The bits of a filter: each frame read has that of its verdict, except the eight before a frame that cannot be read, if its number is a multiple of eight |
| FramesRequest.Advance | c/3rd/wireshark/sharkd_session.c:862-891 | The cursor reaches the last of the leading references not above the frame, wherever it stood before |
| FramesRequest.ReferenceIsGreatest | c/3rd/wireshark/sharkd_session.c:850-891 | For sorted references that is the greatest not above the frame; by default frame 1, and 0 for frame 1 |
| FramesRequest.PagesJoin | c/3rd/wireshark/sharkd_session.c:847-932 | Consecutive pages are one long page, references and previous frames included |
| IoGraph.GraphIndexIs | c/3rd/wireshark/ui/io_graph_item.c:20-35 | Where the C integers do not wrap, the whole number of intervals before the packet, and -1 for a time before the first |
| IoGraph.Graph.AddPacket | c/3rd/wireshark/sharkd_session.c:2937-2971 | One packet's effect on the table as a sequence, growing it with empty items where needed |
| IoGraph.TableTallies | c/3rd/wireshark/sharkd_session.c:2937-2971 | After any packets in any order the table reaches to the latest interval, and each item is its tally |
| IoGraph.TallyCounts | c/3rd/wireshark/sharkd_session.c:2937-2971 | A tally holds the number of counted packets of the interval and the sum of their lengths |
| IoGraph.LatestIs | c/3rd/wireshark/sharkd_session.c:2937-2971 | The table reaches one past the latest interval in range that a packet lies in |
| IoGraph.Output | c/3rd/wireshark/sharkd_session.c:3095-3116 | Decoding the tokens gives back the values up to trailing zeros; no zero is written, and an index only where zeros were skipped |

## Left out

- Dissection, display-filter code, taps, wiretap reading, progress bars, message boxes and the packet-list widget: they are an oracle per frame, filter and session, an append-only list, and a script of requests.
- Requests arrive only at progress points, and the script of a run is finite; a rescan that is interrupted for ever is not modelled.
- SessionRuns.Run: it and the theorems on user operations assume that every frame can be read back from the file, those on one rescan or read that the frames they work on can; without that a pass ends early at the unreadable frame, which SessionRuns.ScanLoopIs and SessionRuns.UpToDateExactly cover.
- Packet lengths are taken to fit 32 bits, as the field does.
- The `dependent_of_displayed` marks, colouring, hidden columns and the read-filter code; whether a record passes the read filter is part of the record.
- Live capture, file saving, renaming, merging, printing and exporting.
- The mark, ignore and comment counters, and the bodies of the `process_specified_records` callbacks.
- PacketSearch.FindState.FindPacket: the criterion is an oracle per frame, not tied to the byte matchers; of the requests at its progress points only Stop is modelled, although the search takes no lock and a filter change there would run a whole rescan inside it and clear the stop flag.
- ByteSearch.MatchText: one label or summary line; the walk over the protocol tree and the column choice are left out. Empty patterns, which no caller gives, are excluded.
- match_regex and the display-filter, marked and time-reference criteria.
- The set-up of subnet masks (its code is commented out in this port) is replaced by using the mask table directly; the host, subnet, service and ethers file readers are left out, an ethers entry being a parameter.
- EtherResolve.EtherTables.ManufNameLookup: says nothing about the hexadecimal rendering of the entry, which depends on the lookup history.
- EtherParse.ParseEtherAddress: where `strtoul` saturates the model has a larger number, out of the parser's range as well.
- All asynchronous name resolution (compiled out).
- Columns: column expressions, custom columns and time formats; col_finalize is modelled as the constructor though it is commented out in this port.
- ColumnInfos.ColumnInfo.Update: the loop that each column function has is written once; texts that callers format are given formatted, and strings are not NULL except in lists and separators.
- Intervals.ProcessIntervals: 64-bit overflow of second counts is not modelled; a filter that does not compile, and malformed numbers, for which there is no reply, are left out.
- FramesRequest.ProcessFrames: the reference list is given parsed; malformed text in it is left out, and frame numbers stay below the largest 32-bit number.
- IoGraph.Graph.AddPacket: per-field statistics (sum, min, max, average, load) are left out; whether the packet has the field is part of the packet.
- IoGraph.Output: values are real numbers; rounding when printed is left out.
- UTF-8 encoding of decoded text, T.61, EBCDIC and the other character tables.

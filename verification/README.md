# A verified model of the packet filter and its control loop

The repository is a Linux packet filter with a controller in user space. The kernel side parses text
out of packets, computes a verdict, and reports to a client over netlink; the client parses the
report and answers with a command that decides later verdicts. This project models that loop in Dafny
and proves what it keeps.

`dafny verify dfyconfig.toml` checks everything.

## How the model is built

| file | what it models |
|---|---|
| CText.dfy | C strings as values: the text before the first NUL, leftmost occurrences, tag combinatorics |
| CLib.dfy | strlen, strstr, strcpy, strcat, strncpy, strcmp as loops over character arrays |
| Extraction.dfy | what `extract` returns and how it lands in a destination buffer |
| DealConf.dfy | the parser with its scratch buffer and eight result buffers (a class) |
| ConfRoundTrip.dfy | rendering a configuration and reading it back |
| Legality.dfy | `isLegal` on buffers, and the format that it is meant to accept |
| Ntoa.dfy | the dotted-decimal printer and its decoder |
| Packets.dfy, NetFilter.dfy | packets, verdicts and static buffers as values; the hook as a class |
| Frames.dfy, Requests.dfy, NetLink.dfy | netlink frames, the receive step over whole traces, the kernel side as a class |
| Session.dfy | the session protocol as a transition system: any number of threads, one atomic step at a time |
| Message.dfy | the attribute and message codec of the Python library |
| PyClient.dfy | the client's slice, its own extractor, its answer |
| Printer.dfy | the sender's message printer and its agreement with the readers |
| ClosedLoop.dfy | hook, kernel session and client composed, over all runs |

One byte is one Dafny `char`. A C buffer is an `array<char>`, a C string is what stands in it before the
first NUL. Buffers that survive from call to call keep their old contents in every contract; nothing is
assumed about what they held before.

Conventions and assumptions:

- Headers are read in network byte order; netlink headers are little-endian, as the client's use of the
  first byte as the low length byte requires (client/pyclient/pyclient.py:48).
- `in_aton` is a function from strings to addresses about which nothing is assumed. `alloc_skb` and
  `netlink_unicast` are an allocation that may fail and an event with any return value.
- `hook_func` is one serialised step: its static buffers have no lock. The step includes reading the operator
  flag: no command is received between the report and that read (src/netFilter.c:178-180). A verdict whose flag
  is read later is the verdict on the same packet in that later state (`LateFlag`), and the theorems about runs
  hold for every packet in every state.
- `align` comes from a module that is not part of the repository; it is taken as rounding up to a
  multiple of 4.
- A message is packed and unpacked with the template class that `ServiceTemplate.select` yields, which is a
  parameter: a function that reads bytes and one that packs. The base class and ACK are instances.
  So is `WithAttrs`, which is the model's own: a subclass whose pack joins its fixed part and `pack_attrs`; the
  repository has no such subclass. In Python 2 a string compares greater than a number, so `Message.unpack` always
  reads a template (client/pyclient/message.py:60).
- Python's `is 'B'` (client/pyclient/pyclient.py:58) is taken as equality; one-character strings are
  shared objects in the interpreter that the client needs.
- `extract` requires what the C needs in order to stay inside its buffers: a name of any length but
  97, a content shorter than the destination, and a `minlen` that stays inside the string.
  For the hook these always hold; for the eight configuration buffers the values must be shorter than 100.

Where the code does not do what it is meant to do, the code is modelled as it is, and the exact condition is
proved:

- The guard on the tag name (src/dealConf.c:73) admits exactly one length, 97, for which the close tag does
  not fit (`GuardAdmitsOneTooMany`).
- `extract`, taken by itself, terminates at the full length of a text that it cuts. The cut is what a reader sees
  if and only if the cell at the cut was already NUL (`CutReadsBack`; `StaleCharacterFollowsCut` is an input where it
  was not). In the filter this does not show: `xmldest` starts cleared and has one writer, so after every history
  it reads back as the packet's text, cut to 99 characters (`DestExact`). Verdicts are right even for buffers in any
  other state (`StaleCellsDoNotMatter`, `VerdictExact`).
- `isLegal` moves 13 characters after a match of 9 (src/dealConf.c:162-165). Its answer is a function of the
  string exactly when that stays inside the string (`DependsOnTextOnly`), and then it is the documented format.
  `SkipLeavesText` gives a string, and two buffers that hold it and get different answers.
- Kernel and client extract differently. Where the kernel sees something, the client sees the same if and only if
  no close tag stands in front of the open tag and the content has fewer than 100 characters, so that the kernel
  does not cut it (`ReadersAgree`). `ShieldedText` and `LongText` are texts on which they differ, one for each
  condition.
- `unpack_attrs` cannot read what packing no attributes produces (`AttrsRoundTrip`).
- A message comes back from a round trip if and only if its pid is zero and its template comes back
  (`MessageRoundTrip`, `ReceivedRoundTrip`). ACK cannot be packed at all (`AckIsNeverPacked`), the base class packs to
  nothing (`BaseIsLost`). The size field counts padding that is never written.
- A sender that finds the pid cleared at its second check never frees its buffer (src/netLink.c:143-146); these
  are the only buffers lost (`UnicastTarget`, `BufferConservation`). It takes two threads, a job that stores a pid
  and one that clears it, and with these it happens under some schedule (`LossExact`).
- The client cuts a report at the low byte of its size field. It answers if and only if the text encloses B and
  its close tag is inside that cut (`AnswerExact`); `LostToClipping` gives, for every configuration, a packet that
  carries B and is never answered.

## Model

| member | source | states |
|---|---|---|
| Extraction.GuardAdmitsOneTooMany | src/dealConf.c:73-97 | the guard implies that both tags fit the scratch buffer if and only if the name is not 97 long |
| Extraction.ContentIsEnclosed | src/dealConf.c:84-119 | a non-empty text is the content if and only if it stands between the first open tag and the first close tag at distance minlen or more, for every text |
| Extraction.ExtractedExact | src/dealConf.c:73-119 | with the guard: a non-empty text is extracted if and only if the name has at most 97 characters and the text stands between the tags |
| Extraction.MinlenMovesTheEnd | src/dealConf.c:102 | minlen moves the search for the close tag and not the start of the content |
| Extraction.StoredReadsBack | src/dealConf.c:118-120 | exactly what a destination reads back as: the text, or the cut text and then what stood between the cut and the terminator |
| Extraction.StoredCells | src/dealConf.c:118-120 | cell by cell: only the characters in front of the cut and one terminator are written |
| Extraction.CutReadsBack | src/dealConf.c:118-120 | the destination reads back as the text cut to its maximum if and only if nothing was cut or the cell at the cut was NUL |
| Extraction.StaleCharacterFollowsCut | src/dealConf.c:118-120 | a destination in use that reads back one character too many |
| Extraction.StaleCellsDoNotMatter | src/netFilter.c:174-175 | comparing the destination with a short literal is comparing the content, whatever the destination held before |
| DealConf.DealConf.Extract | src/dealConf.c:59-123 | the destination holds the extracted text, cut and terminated as the code does it, every other cell is kept, nothing else but the scratch buffer changes |
| DealConf.DealConf.Locate | src/dealConf.c:84-102 | the two searches return the leftmost open tag's end and the leftmost close tag behind it |
| DealConf.DealConf.ParseConf | src/dealConf.c:125-148 | after the eight calls each of the eight buffers holds the content of the key that it is named after |
| ConfRoundTrip.RoundTrip | src/dealConf.c:84-120 | for any list of tagged values in any order with any separators free of the key's open tag, the first value of the key is read back, or nothing when the key is missing; values may contain '<' |
| ConfRoundTrip.ConfigurationRoundTrip | src/dealConf.c:125-135 | rendering and parsing agree on all eight fields at once |
| NetFilter.NetFilter.LoadConf | src/main.c:36-48 | after a rendered configuration is parsed, the hook filters from in_aton of its first sourceip to in_aton of its first targetip |
| Legality.GreedyComplete | src/dealConf.c:162-189 | if the markers can be placed in order at all, taking leftmost matches succeeds |
| Legality.GreedySound | src/dealConf.c:162-189 | leftmost matches are such a placement |
| Legality.LegalBufferExact | src/dealConf.c:150-192 | when the skip stays inside the string the answer is exactly the documented format: size, head, some ordered placement of all markers |
| Legality.AnyBufferExact | src/dealConf.c:162-191 | also when the skip leaves the string: the answer is whether the string behind the moved cursor holds the other markers in order |
| Legality.FilterFormatExact | src/dealConf.c:26-31 | the documented format written out: at least 97 characters, the head, and the six markers at distances 13, 7, 8, 9 and 10 or more |
| Legality.LegalIsAccepted | src/dealConf.c:150-192 | every string in the format is accepted in every buffer |
| Legality.DependsOnTextOnly | src/dealConf.c:162-167 | all buffers that hold the string get the same answer if and only if the skip stays inside the string |
| Legality.SkipLeavesText | src/dealConf.c:162-167 | two buffers that hold the same string, of which isLegal accepts only one |
| Legality.IsLegal | src/dealConf.c:150-192 | the method answers as specified for null and for every buffer it may read |
| Ntoa.Char2String | src/dealConf.c:214-238 | the branches by number of digits write the decimal notation |
| Ntoa.InNtoa | src/dealConf.c:194-212 | the buffer holds the quoted dotted notation |
| Ntoa.DecimalShape | src/dealConf.c:220-236 | no leading zero, and the number of digits is the one the branches assume (section 3.2.2 of RFC 3986) |
| Ntoa.OctetDigits | src/dealConf.c:214-238 | the digits of every byte, highest first |
| Ntoa.NtoaParts | src/dealConf.c:201-209 | the four bytes in memory order, between dots and inside quotes |
| Ntoa.NtoaInverse | src/dealConf.c:194-238 | stripping quotes, splitting at dots and reading decimals gives the address back, for every address |
| Ntoa.NtoaInjective | src/dealConf.c:194-238 | different addresses print differently |
| Ntoa.NtoaShape | src/dealConf.c:201-209 | at most 18 bytes with the terminator, only digits, dots and quotes |
| NetFilter.NetFilter.constructor | src/netFilter.c:72-74 | the static buffers start cleared, and are its own |
| Packets.UdpBodyFound | src/netFilter.c:124-164 | for every datagram laid out as IP header, UDP header, payload and trailer, the cursor arithmetic finds the payload |
| Packets.TcpBodyFound | src/netFilter.c:124-148 | the same for every TCP segment, whose data offset gives the length of its header |
| Packets.BodyIsPayload | src/netFilter.c:124-164 | conversely, a packet whose IP header (and TCP header) says at least 20 bytes, and in which the hook finds a body, is laid out in that way, with that body as its payload |
| NetFilter.NetFilter.StoreBody | src/netFilter.c:144-166 | the static body buffer reads back as the payload up to its first NUL, older characters stay behind it |
| NetFilter.NetFilter.HookFunc | src/netFilter.c:83-235 | on the bytes of the packet and the configured strings: drop if and only if it is no broadcast, protocol 17, has both configured addresses, its UDP data encloses B, and the flag is 2; the static buffers, the report and the message buffer are as specified |
| Packets.BodyReadsBack | src/netFilter.c:164-166 | the overwritten buffer holds this packet's text, whatever it held |
| Packets.DestReadsBack | src/netFilter.c:174-175 | the comparison of xmldest with B decides whether this packet's text encloses B |
| Packets.DestExact | src/netFilter.c:174-175 | after every history since the buffers were cleared, xmldest holds this packet's text, cut to 99 characters |
| Packets.VerdictExact | src/netFilter.c:110-197 | the computed verdict is drop if and only if the packet carries B and the flag is 2, for all prior buffer contents |
| Packets.VerdictBytes | src/netFilter.c:110-197 | the same verdict on the bytes of the packet: broadcast, protocol number, both addresses, length field, data |
| Packets.StepCells | src/netFilter.c:147-175 | what one call writes to the static buffers, cell by cell, and that only UDP packets touch xmldest |
| Packets.ReportedExact | src/netFilter.c:135-232 | a packet is reported if and only if it is examined and, when it is UDP, encloses B |
| Packets.TextReport | src/netFilter.c:150-179 | the report of a TCP or UDP packet: both addresses and both ports in the order of the headers, and the text |
| Packets.ProtocolReport | src/netFilter.c:136-232 | the report of every other protocol, by its number |
| Packets.HistoryIndependent | src/netFilter.c:72-74 | two runs with any initial buffers and any packet histories agree on the next packet |
| Packets.EndpointsHarmless | src/netFilter.c:178-179 | the printed part of a report has no '<' and at most 54 characters |
| Frames.HeaderRoundTrip | client/pyclient/pyclient.py:37-55 | a packed header is read back from any frame that starts with it |
| Frames.ReadHeaderRoundTrip | client/pyclient/message.py:53-79 | and every header that was read is packed to the bytes it was read from |
| Frames.HeaderFields | client/pyclient/message.py:45-53 | where the five fields stand in any frame, lowest byte first |
| Frames.PackedFields | client/pyclient/pyclient.py:37-55 | and where packing puts them |
| Frames.ReplyBytes | src/netLink.c:124-135 | a reply on its bytes: kind 0x13, no flags, sequence number and pid zero, the text and its terminator |
| Frames.FrameArithmetic | src/netLink.c:111-135 | size field, total size, multiple of 4, and the first byte of the frame |
| Requests.PidTrace | src/netLink.c:43-59 | over any sequence, a pid is stored if and only if the last session request is a connect with it |
| Requests.FlagTrace | src/netLink.c:60-74 | over any sequence, the flag is 2, 1 or 0 if and only if the last command is drop, is something else, or there is none |
| Requests.IgnoredLeavesNoTrace | src/netLink.c:36-80 | leaving out all ignored frames gives the same state |
| Requests.DecodeBytes | src/netLink.c:36-76 | what every byte string is read as, from the size in bytes 0 to 3, the kind in bytes 4 and 5, and the pid in bytes 12 to 15; less than 16 bytes are ignored |
| Requests.DecodeConnect | src/netLink.c:36-66 | what a complete frame of each kind is read as |
| Requests.DecodeIncomplete | src/netLink.c:41-80 | a frame whose size field is too small or too large is ignored |
| NetLink.NetLink.constructor | src/netLink.c:162-205 | the pid starts at zero and the lock is free |
| NetLink.NetLink.BuildFrame | src/netLink.c:111-135 | the frame is header, text, terminator and unwritten padding, with the size field not rounded |
| NetLink.NetLink.SendMsg | src/netLink.c:88-157 | every path releases the lock; what is sent, to which pid, and which buffer is lost, when other threads change the pid between the checks |
| NetLink.NetLink.RecvMsg | src/netLink.c:29-85 | the receive step, the released lock, and the answer: sent, lost or not built, when other threads change the pid between its checks |
| Session.RunKeepsInv | src/netLink.c:47-149 | the protocol invariant holds after every schedule of any number of threads |
| Session.WriterExclusion | src/netLink.c:47-58 | a writing thread is alone with the lock |
| Session.EveryPathReleases | src/netLink.c:104-149 | once all threads are idle the lock is free |
| Session.Progress | src/netLink.c:47-149 | no schedule is a dead end: each has a continuation after which all threads are idle, the lock is free, and every allocated buffer was sent or lost |
| Session.UnicastTarget | src/netLink.c:142-148 | every unicast goes to the pid stored at that moment and that is not zero; a buffer is lost only when it is zero |
| Session.SilenceAfterClear | src/netLink.c:52-58 | between a cleared pid and the next write nothing is sent |
| Session.BufferConservation | src/netLink.c:114-149 | buffers allocated are sent, lost at a second check, or still carried |
| Session.ReportIsSent | src/netLink.c:103-149 | a report that runs alone is sent to the stored pid, or to nobody without a pid or without room |
| Session.SenderAfterOthers | src/netLink.c:111-149 | a sender past its first check, with any pid left by others: sent to it, lost when it is zero, and a disconnect clears the pid in every case |
| Session.LockAdmits | src/netLink.c:47-149 | readers are admitted if and only if nobody writes, a writer if and only if nobody reads or writes |
| Session.OrderRefinesReceive | src/netLink.c:60-74 | a command takes no lock and does to the flag what the receive step does |
| Session.FlagAfterSchedule | src/netLink.c:60-74 | after every schedule the flag is 2, 1 or 0 if and only if the last command carried out is drop, is something else, or there is none |
| Session.LossExact | src/netLink.c:142-146 | for any number of threads and any set of jobs: some schedule of these jobs loses a buffer if and only if there are two threads, a connect that stores a pid, and a disconnect or a connect with pid zero |
| Session.HandlerRefinesReceive | src/netLink.c:43-59 | a handler that runs alone ends, frees the lock, does what the receive step is specified to do, and answers the right pid, or none if there is no room |
| Message.UnpackAttrs | client/pyclient/message.py:191-195 | the loop yields what the parser function yields and fails where it fails, on every input |
| Message.ParseExact | client/pyclient/message.py:163-168 | a byte string parses to a list if and only if the list is not empty, fits its headers, and the string is laid out as its attributes with paddings, the last one possibly incomplete |
| Message.ParseFailsExact | client/pyclient/message.py:191-195 | when parsing fails, what was yielded is exactly the attributes in front of the first one that does not unpack |
| Message.UnpackPieces | client/pyclient/message.py:163-168 | head, payload, padding and rest are the data |
| Message.PackFails | client/pyclient/message.py:175-179 | packing fails if and only if an attribute does not fit its header |
| Message.PackBytes | client/pyclient/message.py:175-179 | a packed attribute on its bytes, zeros to the next multiple of 4 included, and exactly when it packs |
| Message.UnpackBytes | client/pyclient/message.py:163-168 | what any byte string unpacks to, and exactly when it does not |
| Message.AttrsRoundTrip | client/pyclient/message.py:105-113 | what was packed parses to the same list if and only if the list is not empty |
| Message.Canonicalisation | client/pyclient/message.py:162-195 | repacking parsed data gives an aligned string with the same list, and a second pass changes nothing |
| Message.MessageRoundTrip | client/pyclient/message.py:55-86 | for every template class: a packed message is read back if and only if its pid is zero and its template is read back; its size field is right if and only if the payload is aligned |
| Message.ReceivedRoundTrip | client/pyclient/message.py:55-86 | for every template class: a received message packs to the bytes received if and only if its template does, its pid was zero, and its size field was the rounded size |
| Message.PackMessageExact | client/pyclient/message.py:74-86 | exactly when a message packs, and where its fields and its payload stand |
| Message.UnpackMessageExact | client/pyclient/message.py:55-63 | exactly when a message is read, and from which bytes |
| Message.AckIsNeverPacked | client/pyclient/message.py:131-145 | every acknowledgement of 20 bytes or more is read, with its signed error code, and none can be packed |
| Message.BaseIsLost | client/pyclient/message.py:95-103 | a message of the base class packs to a bare header, which is not what was read and cannot be read |
| Message.WithAttrsReturns | client/pyclient/message.py:95-113 | a template of the model's own, read as the base class reads and packed with pack_attrs, returns what it was read from if and only if every padding was complete and zero |
| PyClient.ExtractorsAgree | client/pyclient/pyclient.py:67-76 | the step before the kernel's cut: the client reads a non-empty text if and only if it is the enclosed content and the open tag comes before any close tag |
| PyClient.HandleDataNone | client/pyclient/pyclient.py:69-73 | the client reads nothing if and only if one of the tags is missing everywhere |
| PyClient.HandleDataSome | client/pyclient/pyclient.py:74-76 | otherwise what stands between the first tags, empty when they are not in order |
| PyClient.ReceivedBytes | client/pyclient/pyclient.py:43-48 | what the client sees of any frame |
| PyClient.PrefixHarmless | client/pyclient/pyclient.py:61-76 | a prefix without '<' does not change what the client reads |
| PyClient.ReceivedIsPrefix | client/pyclient/pyclient.py:43-48 | the client sees a prefix of the terminated text, all of it if and only if the size field fits one byte |
| PyClient.ClientFramesDecode | client/pyclient/pyclient.py:32-55 | the kernel reads the client's frames as a connect with its pid and as the command drop |
| PyClient.ClientFrameBytes | client/pyclient/pyclient.py:18-55 | both frames as bytes: size 16, kinds 0x10 and 0x12, the client's pid, and the terminated text |
| PyClient.AnswerExact | client/pyclient/pyclient.py:42-60 | for replies of every length: the client answers if and only if the text encloses B and its first close tag ends inside the low byte of the size field |
| PyClient.Client.Receive | client/pyclient/pyclient.py:42-60 | one round of the receive loop |
| Printer.UClient.Func | udpTest_dhy/uclient.c:36-55 | the buffer that is sent holds the next event in turn, printed in the format |
| Printer.UClient.Print | udpTest_dhy/uclient.c:41-48 | the copies and appends write the format |
| Printer.PrintedText | udpTest_dhy/uclient.c:41-48 | the printed text, written out |
| Printer.EventTurns | udpTest_dhy/uclient.c:21 | which event is printed in which turn: B in turns 6 and 9 of 11 |
| Printer.PrintedIsExtracted | udpTest_dhy/uclient.c:41-48 | every printed text encloses its title and its event, for all plain texts |
| Printer.PrintedIsDelivered | src/dealConf.c:118-120 | the extractor leaves title and event in its destination when they are shorter than the maximum passed; in a destination that is clean at the cut, only then |
| Printer.PrintedIsLegal | udpTest_dhy/uclient.c:41-48 | the printed text is in the validator's format if and only if the id is not empty and the texts have four characters together |
| Printer.PrintedBufferIsLegal | src/dealConf.c:150-192 | and that is what isLegal answers for every buffer that holds it |
| ClosedLoop.ProvokesExact | src/netFilter.c:135-200 | the report of a packet of any protocol encloses B for the client if and only if the packet is examined, is UDP or TCP, its text encloses B, and no close tag stands in front of its open tag |
| ClosedLoop.LostToClipping | client/pyclient/pyclient.py:43-48 | for every configuration there is a packet that carries B, whose report encloses B, and to which the client does not answer |
| ClosedLoop.ReadersAgree | client/pyclient/pyclient.py:67-76 | where the kernel's call with maximum 100 leaves something to read, the client reads the same if and only if the open tag comes before any close tag and the content has fewer than 100 characters |
| ClosedLoop.ShieldedText | client/pyclient/pyclient.py:67-76 | a text that the kernel reads as B and the client as empty |
| ClosedLoop.LongText | src/dealConf.c:118-120 | a text with its tags in order of which the client reads 120 characters and the kernel 99 |
| ClosedLoop.PrintedIsHandled | client/pyclient/pyclient.py:67-76 | the client reads back the event of every printed text |
| ClosedLoop.RunExists | src/netFilter.c:110-197 | every sequence of well-formed events, from every contents of the static buffers, is a run of the loop |
| ClosedLoop.KernelOfRun | src/netLink.c:36-80 | in every state of every run the session state is that of replaying the requests received, and the static buffers are those that the packets arrived leave |
| ClosedLoop.QueuesOfStep | src/netLink.c:43-58 | what every step takes from and appends to both queues, with the texts of the kernel's answers |
| ClosedLoop.LateFlag | src/netFilter.c:178-183 | reading the flag in a later state gives the verdict on the packet in that state |
| ClosedLoop.AcceptsThenDrops | src/netFilter.c:174-184 | in every run with this client, verdicts on packets that carry B are accepts first and drops from then on |
| ClosedLoop.CommandArrives | src/netLink.c:60-70 | a drop command under way is carried out once the kernel has received everything up to it |
| ClosedLoop.QueueMoves | src/netLink.c:147-149 | what the client has not yet taken is still in its queue, in order |
| ClosedLoop.LoopCloses | client/pyclient/pyclient.py:42-60 | once the client has received a report that encloses B as far as its close tag, and the kernel has received the answer, every packet that carries B is dropped, in every run |
| ClosedLoop.ArrivalClosesLoop | src/netFilter.c:174-184 | from the arrival of such a packet with a client connected, through the queues in both directions, to the drop of every packet that carries B |
| ClosedLoop.LoopCanClose | src/netFilter.c:174-184 | for every configuration and every contents of the buffers there is a run in which one packet is accepted first and dropped later |
| ClosedLoop.DropHasCause | src/netFilter.c:178-184 | a drop in any run is preceded by a packet that provokes the client, arrives while a client is connected, and whose report the client sees up to its close tag |
| ClosedLoop.PrintedPacket | udpTest_dhy/uclient.c:41-50 | for every printed text the packet carries B, and its report encloses B for the client, if and only if the event is B; the client sees its close tag if and only if addresses, id, title and event have at most 135 characters together |

## Left out

- Module loading apart from the parsing of the configuration, hook registration and the arms for kernel versions: platform glue.
- readConf: file access; the model starts from a NUL-terminated buffer.
- The text of log lines other than the reports of the hook, sockets, signals, timing and sleeps.
- Concurrent calls of hook_func on several processors: the static buffers have no lock, so one call is one step.
- The delivery inside the kernel: netlink_unicast is an event, and a frame under way may be missed by the client.
- ServiceTemplate.register and select, data_struct decoding and string escaping: they depend on code that is not part of the repository or are display only; the selected template class is a parameter, and the old message in an ACK is kept unescaped.
- client/netlink_client.c, client/pyclient/connection.py, client/pyclient/main.py, the tcpTest and udpTest programs and the backup copies: network plumbing or duplicates.
- NetLink.NetLink.RecvMsg: other threads show only in the pid that they leave between the two checks of the answer; all interleavings are in Session.dfy, where the text of a message is not modelled.
- DealConf.DealConf.ParseConf: requires values shorter than their buffers, because longer ones are written past the end by the code.

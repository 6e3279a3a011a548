# Foxfire: verified models of the plugin's state machines

Foxfire is an OBS plugin in C. This project models the parts of it that carry state, loops and
arithmetic of their own, and proves what those parts promise. Each module stands for one or two
source files; `dafny verify dfyconfig.toml` checks all of them.

| module | what it models |
|---|---|
| Bytes, WsFrame, WsClient | octets; RFC 6455 frames as a server sends them and as the client builds them |
| WsMessages, WsConn | reassembly (section 5.4) and the connection: a receive buffer, a message buffer and a send loop over a transport that moves any number of bytes at a time |
| Base64, Sha1, Handshake, Response | the opening handshake: key encoder, streaming SHA-1, response check, responses as printed, and the byte at which the framer takes over |
| Handoff | the lock-free frame handoff: one publisher, two slots, a wrapping counter, any number of readers, every word copied in a step of its own |
| Session, Connection | one EventSub session and its handover; the two-socket loop that drives it |
| LicenceText, LicenceDocs, Licence | the licence scanner, the printed documents it must invert, the canonical text and the verdict |
| Gradient | colour ramps baked by one forward pass, and the dirty flag |
| Settings, Renderer, Instance | settings, their keys, the live parameters and preset switches |
| Viseme | mouth shapes and their timing |
| Analysis | the sample ring, hops, onsets and the feed that publishes frames |
| AlertText, Alerts | names made safe to draw; the queue and the player |
| WebpClock | the clock of an animated image |

Code that changes state is modelled by classes and methods with loops, proved against functions on
values; what the source promises is proved about those functions, or about the histories the classes
keep as ghost fields. Results that take whole runs:

* `WsConn.Conn.DeliveredPrefix`, `WsConn.Conn.Poll`, `WsConn.CutsDoNotMatter`,
  `WsConn.WireReadsBack`: the buffer machine refines a pure decoding of the whole stream, both ways.
* `Handoff.SafeExactly`, `Handoff.HandsOverNewest` and `Handoff.CheckSucceedsExactly`, for every
  interleaving.
* `Connection.RunOnce` with `Connection.SocketsBalance`, `Connection.SwapsHearWelcomeExactly`,
  `Connection.SubscriptionsExactly` and `Connection.AlertsAreShown`: sockets, subscriptions and alerts
  over every run.
* `Licence.GenuineLicence`, `Licence.CanonicalIsInjective`, `Response.PrintedIsJudged`: the scanners
  invert the printers.
* `Gradient.Bake`: the moving cursor against an independent search; `Instance.FfRenderer.SetParams`:
  every draw uses a fresh table.
* `Instance.FfInstance.Update`: live parameters forget history; `Instance.SwitchesNoticedExactly`
  says exactly when.
* `Viseme.ClosedExactly`, `Viseme.NoFlicker`; `Analysis.SplitsDoNotMatter`, `Analysis.BeatsApart`,
  `Analysis.FfAudio.Feed`; `Alerts.ShownInOrder`, `Alerts.NothingIsLost`;
  `AlertText.TextIsFiltered`, `AlertText.NoBidiLeft`; `WebpClock.KeepsUpExactly`.

## Where the code and its words differ

The models follow the code. Where that breaks a promise, a lemma or method shows the input and another
says exactly when the promise holds.

* src/ff-ws.c:45-112 waits for two bytes even when the first already rules out every legal frame;
  `WsFrame.NeedMoreExactly` says so.
* src/ff-ws-conn.c:375-380 echoes code 1005 for a close without a body, which RFC 6455 section 7.4.1
  does not allow on the wire (`WsConn.EchoMayBeSentExactly`).
* src/ff-ws-conn.h:45 promises no more application messages once a close was sent or received.
  Polling takes no notice of either (`WsConn.ClosedStillDelivers`, `WsConn.BehindTheClose`). The promise is
  kept by callers that begin no poll once `open` is false (`WsConn.Conn.DeliveredPrefix`), and
  `WsConn.Conn.PollOnce` says exactly which poll breaks it.
* src/ff-handoff.h:13 lets callers keep their previous frame after a false read, but the frame may be
  overwritten (`Handoff.FalseReadOverwrites`, `Handoff.OutUntouchedExactly`); "nothing published yet" is
  answered again after every 2^31st frame (`Handoff.EmptyExactly`).
* src/ff-session.h:78 calls a session welcomed once a session_welcome has given it an id, and the old
  socket goes then. Any message that carries an id will do, a second reconnect among them
  (`Connection.NeverWelcomed`, `Connection.SwapsHearWelcomeExactly`).
* A changeover before any welcome leaves a session that counts as subscribed though nobody asked
  (`Connection.NeverWelcomed`, `Connection.SubscriptionsExactly`).
* src/ff-eventsub.c:184-200 lets a reconnect message overwrite the interval agreed, so the old socket may
  be dropped before its thirty seconds are up (`Session.OldSocketLastsExactly`).
* src/ff-layers.c:836 counts a gradient as baked even when no texture could be made, so it stays blank
  until its stops change or it is loaded again (`Gradient.BlankExactly`, `Instance.BlankUntilMade`).
* src/ff-props.c:129-157 erases layer keys no renderer writes (`Settings.LeadingZeroIsErasedToo`), and
  src/ff-props.c:614-616 remembers ids cut to 63 bytes (`Instance.OverlongIdGoesStale`,
  `Instance.OverlongIdErases`, `Instance.SwitchesNoticedExactly`).
* src/ff-alert-source.c:107-108 says playback state belongs to the video thread alone; the skip button
  (src/ff-alert-source.c:526-535) writes it from another, and can go unnoticed
  (`Alerts.SkipWorksExactly`, `Alerts.AlertSource.TwoTicks`).
* src/ff-webp.c:142-182 moves at most one frame per call, so a step longer than a frame shows a late one
  (`WebpClock.KeepsUpExactly`).

## Model

| member | source | states |
|---|---|---|
| Bytes.XorTwice | src/ff-ws.c:39-41 | masking an octet twice with the same key octet gives it back (RFC 6455 section 5.3) |
| Bytes.XorIsExclusiveOr | src/ff-ws.c:39-41 | each bit of the result is set exactly where the two octets differ |
| Bytes.BitsDecide | src/ff-ws.c:39-41 | a number is determined by its bits, so that says all there is to say |
| Bytes.ShiftIsDivision | src/ff-ws.c:26-33 | a shift right by whole octets is a division by a power of 256 |
| Bytes.ReadBigEndian | src/ff-ws.c:76-99 | an extended length written most significant octet first reads back as the same number |
| Bytes.WriteBigEndian | src/ff-ws.c:76-99 | the number an octet string spells is written back as the same octets |
| Bytes.BigEndianAt | src/ff-ws.c:26-33 | the shift-and-truncate loop puts out the big-endian octets |
| WsFrame.ParseEncode | src/ff-ws.c:45-112 | a legal server frame (section 5.2, shortest length form, unmasked, within the payload limit) is recognised as itself at the front of any bytes, with its end in the right place |
| WsFrame.EncodeParse | src/ff-ws.c:45-112 | the bytes a frame was read from are exactly the section 5.2 encoding of the opcode, FIN bit and payload reported, length form included |
| WsFrame.HeaderOfEncoding | src/ff-ws.c:45-103 | the header of an encoded frame is read as the frame's own fields before the payload has arrived |
| WsFrame.ExamplesOfTheRfc | src/ff-ws.c:45-112 | opcodes, FIN bit and short lengths stand on the wire as in the examples of RFC 6455 section 5.7 |
| WsFrame.LengthsOfTheRfc | src/ff-ws.c:76-99 | so do the two longer forms of the length |
| WsFrame.VerdictIsFinal | src/ff-ws.c:45-112 | any answer but "need more" is unchanged by appending bytes |
| WsFrame.NeedMoreExactly | src/ff-ws.c:45-112 | "need more" is answered exactly while the header is incomplete or some legal frame properly extends the buffer |
| WsFrame.VerdictExactly | src/ff-ws.c:45-112 | a frame is reported exactly when a legal one is there; the stream is refused exactly when its header is in and no legal frame is there or can still arrive |
| WsFrame.Parse | src/ff-ws-conn.h:28-30 | a receive buffer that is full never yields "need more", so polling cannot stall with nowhere to read into |
| WsFrame.ReadLength | src/ff-ws.c:76-99 | the index-based length reader takes the three forms of section 5.2 and refuses the ones that are longer than needed or have the top bit set |
| WsFrame.ParseBuffer | src/ff-ws.c:45-112 | the parser over a buffer and a count agrees with the parser over the bytes, on every answer and every offset |
| WsClient.Build | src/ff-ws.c:14-43 | the whole encoding (its masked octets as WsClient.BuiltBits says) or nothing, with exactly the refusals of the code, and no octet beyond it touched |
| WsClient.PutLength | src/ff-ws.c:26-36 | the length field is the shortest of the three forms, with the mask bit set |
| WsClient.MaskedTwice | src/ff-ws.c:39-41 | unmasking with the key restores the payload (section 5.3) |
| WsClient.BuiltBits | src/ff-ws.c:36-42 | each bit of the payload goes out flipped exactly where the bit of mask octet i modulo 4 is set |
| WsClient.MaskedHello | src/ff-ws.c:14-43 | the masked example of RFC 6455 section 5.7 comes out octet by octet |
| WsClient.ReadBuilt | src/ff-ws.c:6-43 | a server that reads by section 5.2 and 5.3 recovers the opcode and payload asked for, and the end of the frame |
| WsClient.CutFrameIsUnreadable | src/ff-ws.c:6-43 | no proper prefix of a client frame can be taken for a frame |
| WsMessages.SplitEncoded | src/ff-ws-conn.c:323-357 | frame boundaries are unambiguous: a stream of legal frames splits back into those frames |
| WsMessages.SplitIsExact | src/ff-ws-conn.c:323-357 | splitting a stream into frames loses and duplicates no byte, and what is left starts no complete frame |
| WsMessages.SplitGrows | src/ff-ws-conn.c:338-357 | bytes that arrive later only add frames behind those already found |
| WsMessages.GroupSnoc | src/ff-ws-conn.c:386-424 | taking frames one at a time computes the section 5.4 grouping of the whole sequence: fragments concatenated under the first frame's opcode, violations and oversize messages fatal |
| WsMessages.LargestMessage | src/ff-ws-conn.c:386-424 | two fragments make a message of at most 1 MiB together, and more than that breaks the rules |
| WsMessages.GroupGrows | src/ff-ws-conn.c:386-424 | later frames never change messages already handed up |
| WsMessages.UpToCloseConcat | src/ff-ws-conn.c:374-385 | bytes that arrive later do not move the first close |
| WsMessages.MessagesOfPrefix | src/ff-ws-conn.c:386-424 | fewer frames hold a prefix of the messages |
| WsMessages.DataFramesConcat | src/ff-ws-conn.c:359-373 | control frames between fragments are transparent to the grouping |
| WsMessages.TraceIsComplete | src/ff-ws-conn.c:359-424 | the record of deliveries and answers holds exactly the section 5.4 messages and one answer for each ping, with its payload, in order |
| WsConn.AttemptSnoc | src/ff-ws-conn.c:226-294 | what a further send adds to the wire, to the close frames and to the pongs |
| WsConn.WireReadsBack | src/ff-ws-conn.c:226-284 | while sends succeed, what a server reads off the wire is exactly the sequence of opcodes and payloads asked for; the first send that fails leaves nothing behind that reads as a frame |
| WsConn.OwnControlFrames | src/ff-ws-conn.c:286-294 | as long as callers send application messages only, all pongs and close frames on the wire, counted by opcode, are the connection's own |
| WsConn.EchoMayBeSentExactly | src/ff-ws-conn.c:374-381 | the echoed code may be sent (RFC 6455 section 7.4.1) exactly when the server's body carried a code that may be; a body without one is answered with 1005 |
| WsConn.Transport.Send | src/ff-net.c:102-112 | what is assumed of io.send: dead, nothing now, or some of the bytes offered, in order |
| WsConn.Transport.Recv | src/ff-net.c:114-132 | what is assumed of io.recv: dead, nothing now, or some bytes within the room given |
| WsConn.Conn.constructor | src/ff-ws-conn.c:296-310 | a fresh connection starts with exactly the bytes that followed the 101 response |
| WsConn.Conn.SendFrame | src/ff-ws-conn.c:226-284 | a send either puts one whole masked frame on the wire or a proper prefix of one, and a failure carries its own reason; a frame handed to the transport is given up at the first answer that calls for it and never before |
| WsConn.Conn.PushOut | src/ff-ws-conn.c:251-280 | the send loop ends with the whole frame sent in order, or with a proper prefix at the first moment the connection is dead or more than 200 sends in a row have moved nothing, each with its own reason |
| WsConn.SilentSends | src/ff-ws-conn.c:251-280 | a transport that only ever answers 0 is given up at the 201st answer |
| WsConn.Conn.Send | src/ff-ws-conn.c:226-284 | a caller's send keeps every invariant of the connection and touches nothing of the receiving side |
| WsConn.Conn.CloseWith | src/ff-ws-conn.c:286-294 | the first close sends one close frame with its code in network order; a second sends nothing at all |
| WsConn.Conn.Drop | src/ff-ws-conn.c:323-327 | dropping a frame moves exactly its bytes from the buffer to the frames consumed |
| WsConn.Conn.HandlePing | src/ff-ws-conn.c:359-373 | a ping is answered with a pong frame carrying its own payload before it is consumed; if the pong fails the connection closes and the ping stays unconsumed |
| WsConn.Conn.HandleClose | src/ff-ws-conn.c:374-385 | the server's close is echoed once, and not at all if a close frame was already sent; the connection is over |
| WsConn.Conn.HandleData | src/ff-ws-conn.c:386-424 | a data frame extends, completes or breaks the message being reassembled exactly as section 5.4 says |
| WsConn.Conn.Admit | src/ff-ws-conn.c:390-410 | a stray continuation, an interrupting message and an oversize message are refused, each with its own reason |
| WsConn.Conn.Conclude | src/ff-ws-conn.c:413-423 | a final fragment hands up the opcode of the first frame and all the bytes |
| WsConn.Conn.HandleFrame | src/ff-ws-conn.c:348-427 | one turn of the parse loop, whatever the parser said |
| WsConn.Conn.Poll | src/ff-ws-conn.c:329-428 | a poll reads once, unless the buffer is full, and hands up the next message of the stream exactly when it is complete before any close or violation, recv did not find the connection dead and the pongs on the way got through; it returns 0 only when every complete frame received has been consumed, and -1 only for one of the reasons listed |
| WsConn.Conn.Turn | src/ff-ws-conn.c:348-427 | one turn consumes the frame at the front and leaves what comes next as it was, or ends the poll |
| WsConn.Conn.HandleControl | src/ff-ws-conn.c:359-385 | a ping, a close or a pong leaves the messages alone; a close, or a pong that does not get through, ends the poll |
| WsConn.Conn.Echo | src/ff-ws-conn.c:374-382 | the code is taken from the body and echoed once |
| WsConn.Conn.Receive | src/ff-ws-conn.c:338-346 | one recv, appended behind what was buffered; it fails exactly when recv answers that the connection is dead |
| WsConn.Conn.ConsumedFrames | src/ff-ws-conn.c:329-428 | at every moment the frames consumed are a prefix of the pure splitting of all bytes received |
| WsConn.Conn.DeliveredPrefix | src/ff-ws-conn.c:329-428 | over every run the messages delivered are a prefix of the messages of the whole stream, and of those in front of the first close as long as no poll was begun on a connection that was not open, also after the poll that ended it; interleaved pings are answered in order |
| WsConn.Conn.OnePongEachOneCloseAtMost | src/ff-ws-conn.c:286-385 | by opcode and payload: one pong for each ping consumed, in order, and at most one close frame attempted |
| WsConn.Conn.PollOnce | src/ff-ws-conn.c:329-428 | from a state in which nothing behind the close was handed up, one poll more hands something up exactly when a close had been consumed before it and it delivers at all, which is when the bytes that come next complete a message, recv is not dead and the pongs get through; a poll begun while open never does, nor does it hand anything up once a close of either side has been sent or received |
| WsConn.CutsDoNotMatter | src/ff-ws-conn.c:329-428 | two connections that received the same bytes, cut differently, and are both caught up have consumed the same frames and are in the same state |
| WsConn.ClosedStillDelivers | src/ff-ws-conn.c:329-428 | after a close of its own the connection still hands up a text message whose frame is there |
| WsConn.BehindTheClose | src/ff-ws-conn.c:329-428 | a stream of a close and a text message: the first poll reports the end, the second hands up the message behind the close |
| Base64.B64 | src/ff-ws.c:221-241 | the encoder writes the RFC 4648 section 4 text and a terminator, or refuses a buffer that is too small |
| Base64.GroupOfThree | src/ff-ws.c:228-238 | a 24-bit group cut into four sextets is the bit string of its octets, padding included |
| Base64.Vectors | src/ff-ws.c:221-243 | the vectors of RFC 4648 section 10 for one and two octets, padding included |
| Base64.WholeGroup | src/ff-ws.c:221-243 | the one for three |
| Base64.BothSigns | src/ff-ws.c:221-243 | the plus and the slash of the alphabet |
| Base64.EncodeKey | src/ff-net.c:224-238 | the handshake's own key encoder agrees with the general one on every 16 octets |
| Base64.ShiftIn | src/ff-licence.c:95-115 | the 32-bit accumulator may overflow, yet the octet shifted out is the right one for every input |
| Base64.B64Dec | src/ff-licence.c:95-115 | the decoder accepts exactly the texts of base64 digits whose octets fit, stops at padding or the end, and writes exactly those octets |
| Base64.DecodeEncode | src/ff-licence.c:95-115 | the licence decoder inverts the handshake encoder on every octet string, and succeeds exactly when it fits |
| Sha1.Context.constructor | src/ff-ws.c:170-179 | a new context has been fed nothing |
| Sha1.Context.CompressBlock | src/ff-ws.c:132-168 | the eighty-word loop computes the RFC 3174 block function, with 32-bit wrap-around |
| Sha1.WordBits | src/ff-ws.c:144-154 | and, or, exclusive or and complement, bit by bit |
| Sha1.RotationsRotate | src/ff-ws.c:127-130 | the three rotations move bit k by 1, 5 and 30 places |
| Sha1.FunctionsOfRounds | src/ff-ws.c:142-155 | each bit of the round function is a choice, a parity or a majority of the three bits |
| Sha1.ConstantsOfRounds | src/ff-ws.c:145-154 | the constants are the square roots of 2, 3, 5 and 10 times 2^30, cut |
| Sha1.InitialOctets | src/ff-ws.c:170-179 | the initial words spell 01 23 to ef, back down to 10, and f0 e1 d2 c3 |
| Sha1.QueueIsSchedule | src/ff-ws.c:134-139 | the schedule is that of the sixteen-word queue of RFC 3174 section 6.2 |
| Sha1.RoundsAreChain | src/ff-ws.c:140-162 | the five words after a round are the five last of a sequence in which each word is made once |
| Sha1.CompressIsChain | src/ff-ws.c:163-167 | a block adds to each word of the state what the rounds made of it, modulo 2^32 |
| Sha1.OutputSpells | src/ff-ws.c:213-218 | the digest spells the five words in order |
| Sha1.PadExactly | src/ff-ws.c:199-217 | a message is padded by one bit, the fewest zeros that do and its length in bits |
| Sha1.Context.Update | src/ff-ws.c:181-197 | however an input is cut, the context is the one for everything fed so far: whole blocks folded, the rest buffered, the bits counted modulo 2^64 |
| Sha1.Context.Take | src/ff-ws.c:184-197 | one turn of the buffering loop absorbs a piece without losing or repeating an octet |
| Sha1.Context.PadTo56 | src/ff-ws.c:199-206 | the zero-fill loop ends, having appended 0x80 and the least number of zeros |
| Sha1.FillIsLeast | src/ff-ws.c:205-206 | the loop stops at exactly that number of zeros |
| Sha1.Context.Final | src/ff-ws.c:199-219 | the result is the RFC 3174 digest of everything fed: the block function folded over the padded message |
| Sha1.HashSnoc | src/ff-ws.c:132-168 | the digest state is a left fold over blocks |
| Sha1.SplitsDoNotMatter | src/ff-ws.c:181-197 | two contexts fed the same octets in different pieces are in the same state |
| Sha1.AcceptFor | src/ff-ws.c:243-255 | the accept value is base64(SHA-1(key ++ GUID)) as in RFC 6455 section 4.2.2, or nothing is written |
| Sha1.AcceptIsDigestOfJoin | src/ff-ws.c:244-256 | the accept value is that of the key with the GUID of RFC 6455 behind it |
| Handshake.HeaderValue | src/ff-ws-conn.c:69-111 | the index-based search finds the first line, before the blank one, that carries the field, with its value trimmed of leading blanks |
| Handshake.CaseIsIgnored | src/ff-ws-conn.c:88-96 | two octets count as the same exactly if they are equal or one is the lower case of the other |
| Handshake.FieldStandsOnLine | src/ff-ws-conn.c:69-111 | what is found is the value of a line of its own: behind a line feed, the name in any case, a colon, blanks, and the value to the end of the line |
| Handshake.ValueHas | src/ff-ws-conn.c:131-147 | a comma-separated list has an element exactly when one of its trimmed elements equals it, case aside |
| Handshake.ListSplits | src/ff-ws-conn.c:131-147 | a comma ends an element: the list has what its first element is or what the rest has |
| Handshake.TrimExactly | src/ff-ws-conn.c:131-147 | of a list element only blanks at its ends go, and none is left there |
| Handshake.SkipSeparator | src/ff-ws-conn.c:134-136 | separators in front of a list element never change the answer |
| Handshake.ReadAtoi | src/ff-ws-conn.c:190-194 | the status code is read as atoi reads it |
| Handshake.AtoiReads | src/ff-ws-conn.c:190-190 | white space in front changes nothing, a sign in front of a digit is the number's, and each digit is worth its place |
| Handshake.StatusReads | src/ff-ws-conn.c:190-194 | "101" and then no digit reads as 101 |
| Handshake.Check | src/ff-ws-conn.c:159-224 | the scan over a growing buffer gives the verdict the header block alone determines |
| Handshake.CheckFields | src/ff-ws-conn.c:196-222 | the response is accepted exactly when upgrade, connection and accept fields agree (section 4.1) |
| Handshake.AcceptedSays | src/ff-ws-conn.c:196-222 | an accepted response says websocket, lists upgrade and carries the accept value exactly, each on a line of its own |
| Response.LookupPrinted | src/ff-ws-conn.c:69-111 | of printed header fields the first one of a name is found, and its value is the one printed |
| Response.PrintedEnds | src/ff-ws-conn.c:165-185 | the headers of a printed response end where they were printed to end |
| Response.PrintedFieldsAgree | src/ff-ws-conn.c:196-222 | the three fields agree exactly if those printed do |
| Response.PrintedIsJudged | src/ff-ws-conn.c:159-224 | a printed response is accepted exactly when it begins with "HTTP/1.", has status 101 and its fields agree, in any order and case, among others, whatever follows |
| Handshake.StatusIsLocal | src/ff-ws-conn.c:190-194 | though atoi is not told where the headers end, what lies behind them cannot change an accepted status |
| Handshake.VerdictIsFinal | src/ff-ws-conn.c:159-224 | within 8192 bytes a verdict other than "incomplete" is unchanged by appended bytes and by stale ones beyond the count |
| Handshake.Upgrade | src/ff-net.c:263-296 | the upgrade succeeds exactly when the bytes read hold an accepted response, recv was never dead and fewer than 300 reads were made; it gives up earlier only on a refusal or a full buffer; the framer's stream is then exactly the bytes behind the first blank line: nothing lost, nothing twice |
| Handshake.JoinIsUnique | src/ff-net.c:263-296 | however the reads were cut, response and stream meet at the same byte |
| Handoff.WrappedDifference | src/ff-handoff.c:18-33 | the wrapped difference of two counter values is the true one for less than a full turn |
| Handoff.StepKeeps | src/ff-handoff.c:10-33 | every single step of the publisher or of any reader, in any order, keeps the safety invariant |
| Handoff.StoreKeeps | src/ff-handoff.c:10-16 | copying a word into the idle slot leaves the newest frame intact |
| Handoff.CheckKeeps | src/ff-handoff.c:26-31 | a check that passes means the copy is a whole published frame |
| Handoff.EveryRunIsSafe | src/ff-handoff.c:10-33 | in every interleaving, with fewer than 2^31 publishes during any one copy, every frame handed over was published and is untorn, and no reader goes back in time, across counter wrap |
| Handoff.CopyingHasLoaded | src/ff-handoff.c:18-25 | a copy in progress belongs to the reader's latest load of the counter, and to the frames published by then |
| Handoff.HandsOverNewest | src/ff-handoff.c:18-33 | a read that returns true hands over the newest frame that was complete when its last attempt loaded the counter |
| Handoff.CheckSucceedsExactly | src/ff-handoff.c:20-34 | a finished copy is handed over exactly if the publisher has, since the load, at most begun one frame or finished one and begun no other; otherwise the attempt is lost, and with the last one the read |
| Handoff.LoadExactly | src/ff-handoff.c:20-27 | an attempt goes on to copy exactly when a frame is published and none is being written, save after every 2^31st; nothing published ends the read |
| Handoff.ReadersTouchNothing | src/ff-handoff.c:18-36 | a reader writes nothing that is shared, and nothing of another reader's |
| Handoff.QuietReadSucceeds | src/ff-handoff.c:18-33 | with no publish under way a read succeeds at its first try |
| Handoff.EmptyExactly | src/ff-handoff.c:18-22 | "nothing published yet" is answered exactly when nothing was, or when the counter has wrapped to zero |
| Handoff.BoundIsNeeded | src/ff-handoff.c:10-33 | with 2^31 publishes during one copy a torn frame is handed over: a concrete run |
| Handoff.SafeExactly | src/ff-handoff.c:10-33 | every run with fewer than b publishes during any one copy hands over only whole published frames, never an older after a newer, exactly when b is at most 2^31 |
| Handoff.OutUntouchedExactly | src/ff-handoff.c:18-33 | when a read is over the caller's frame is untouched exactly when every attempt met a counter that was zero or odd, and otherwise wholly overwritten |
| Handoff.FalseReadOverwrites | src/ff-handoff.c:18-33 | a read that answers false with the caller's previous frame gone: a concrete run |
| Session.AnswersExactly | src/ff-eventsub.c:152-240 | what is answered is decided by the message alone: a welcome needs an id and no URL, a reconnect a URL, an alert a notification that was read; a session in a message is taken over whole |
| Session.FfSession.constructor | src/ff-session.c:7-11 | a session starts unsubscribed at its URL |
| Session.FfSession.Replacement | src/ff-session.c:126-133 | a replacement session starts as one that is already subscribed |
| Session.FfSession.Opened | src/ff-session.c:13-22 | opening a socket resets what belongs to the socket and keeps what belongs to the session |
| Session.FfSession.Idle | src/ff-session.c:24-43 | a quiet session is dropped exactly when it has been silent too long |
| Session.FfSession.Message | src/ff-session.c:45-89 | each message gives the one step it calls for, a note and nothing told apart; only a welcome of an unsubscribed session asks for subscriptions, only a reconnect with a URL starts a handover |
| Session.FfSession.Subscribed | src/ff-session.c:91-107 | no accepted subscription means drop, some but not all a note |
| Session.FfSession.Adopt | src/ff-session.c:135-150 | after a changeover the session is the replacement's, already subscribed, out of handover, its clocks restarted |
| Session.SilenceIsNoticed | src/ff-twitch.c:30-42 | silence is noticed in the end exactly when the agreed interval is not negative |
| Session.SilenceLasts | src/ff-twitch.c:30-42 | once silent, a session stays so until it hears something |
| Session.NamedExactly | src/ff-eventsub.c:180-186 | a session gets its id from exactly the messages that carry one, reconnects as well as welcomes, whatever the answer |
| Session.SilentAfterReconnect | src/ff-session.c:24-43 | after a reconnect message the silence allowed is that of the interval in it, measured from the message, or without one 30 seconds measured from when the socket opened |
| Session.OldSocketLastsExactly | src/ff-session.c:24-43 | the old socket lasts through the thirty seconds of a handover exactly for an interval of at least 14 seconds or a negative one, or for none on a socket opened that moment |
| Session.ReconnectThenIdle | src/ff-session.c:24-89 | the same of the two calls one after the other, from any session |
| Connection.SocketsBalance | src/ff-twitch.c:348-507 | in every record that keeps the rules, what is open is what was opened and not closed, no socket is opened or closed twice, and at most two are open |
| Connection.RulesHoldThroughout | src/ff-twitch.c:348-507 | the rules hold at every moment of a run, not only at its end |
| Connection.NamedAtMostOnce | src/ff-twitch.c:371-403 | no replacement is polled again after a message has named it |
| Connection.SwapsHearWelcomeExactly | src/ff-twitch.c:382-402 | over every run: a changeover comes after exactly one message that names the replacement, and the old socket is closed only after a welcome with an id was heard there exactly when that message is a welcome |
| Connection.SubscriptionsExactly | src/ff-session.c:135-150 | over every run: the fan-out happens at most once, and a session counts as subscribed with no fan-out ever made exactly when a changeover came before any |
| Connection.AlertsAreShown | src/ff-twitch.c:417-498 | over every run each alert read on the main socket is shown, once and in order, and nothing else is |
| Connection.NextActAnswers | src/ff-twitch.c:442-498 | what follows a readable welcome with an id on a main socket without subscriptions is its fan-out, and what follows a readable alert is that it is shown |
| Connection.FanoutExactly | src/ff-twitch.c:446-466 | the subscriptions are asked for exactly if such a welcome was read |
| Connection.NeverWelcomedRules | src/ff-twitch.c:348-507 | the record of a run that closes the old socket for a replacement that was never welcomed keeps all the rules |
| Connection.NeverWelcomed | src/ff-twitch.c:368-499 | the loop's own steps make that record when a reconnect is the first message on either socket, and end up subscribed without a fan-out |
| Connection.Locals.LookAtPending | src/ff-twitch.c:371-415 | the replacement is looked at first: the first message that names its session makes the swap and nothing else does; a dead socket is dropped; otherwise it is left in place exactly inside its thirty seconds and abandoned at the first pass after them |
| Connection.Locals.KeepOrGiveUp | src/ff-twitch.c:405-415 | a replacement that was not named stays exactly as long as its thirty seconds are not over at the time read |
| Connection.Locals.SwapTo | src/ff-twitch.c:390-402 | once a message has named the replacement the old socket is closed, with a close frame, and the replacement takes its place and session |
| Connection.Locals.HearMain | src/ff-twitch.c:417-466 | the main socket is polled only once the replacement has been looked at; what is done follows from what the message says; a dead socket, or a message there is no memory for, ends the loop |
| Connection.Locals.HearPending | src/ff-twitch.c:372-390 | the replacement's session has an id after a poll exactly when the message polled was read and names a session |
| Connection.Locals.HearMessage | src/ff-twitch.c:442-495 | what a message on the main socket leads to: a fan-out only for the welcome of a session without subscriptions, a replacement only for a reconnect |
| Connection.Locals.AskForAll | src/ff-twitch.c:446-466 | after the fan-out the session is subscribed, however many were accepted |
| Connection.Locals.OpenReplacement | src/ff-twitch.c:471-489 | the replacement is opened next to the old socket for a session that counts as subscribed, at the URL the reconnect named; an earlier one is closed first |
| Connection.Locals.ActOn | src/ff-twitch.c:468-498 | an alert is shown, a reconnect opens a replacement or leaves to reconnect, a drop leaves, and anything else goes on to the next pass with nothing done |
| Connection.Locals.OpenMain | src/ff-twitch.c:352-366 | one socket per pass of the outer loop, or the end |
| Connection.Locals.CloseAll | src/ff-twitch.c:501-506 | leaving the inner loop closes the replacement and then the main socket |
| Connection.Locals.OnePass | src/ff-twitch.c:368-499 | one pass keeps the record within the rules |
| Connection.RunOnce | src/ff-twitch.c:348-507 | over any run: polls and openings are answered as laid down, in order, the first opening first; every opened socket is closed exactly once on every exit, at most two are open, the alerts read on the main socket are those shown, the fan-out happens at most once across all sockets and reconnects and exactly if a welcome called for it, and a session left subscribed without one is exactly one that was taken over first |
| LicenceText.SkipSpace | src/ff-licence.c:22-27 | the scan stops at the first character that is not JSON white space |
| LicenceText.Search | src/ff-licence.c:9-16 | the first occurrence of a pattern, or none |
| LicenceText.FindValue | src/ff-licence.c:31-49 | the pointer scan finds the value behind the first quoted key that a colon follows |
| LicenceText.GetStr | src/ff-licence.c:51-66 | a string field is absent, too long or malformed, or read up to its closing quote |
| LicenceText.GetInt | src/ff-licence.c:68-93 | an integer field is read as strtoll reads it, with its refusals |
| LicenceText.NumbersSaturate | src/ff-licence.c:72-93 | a number beyond 64 bits is read as the end of the range on its side, and letters behind the digits make it none |
| LicenceDocs.MembersFind | src/ff-licence.c:31-49 | in a printed object the value found is that of the first member with the key, even when other keys or values equal it |
| LicenceDocs.StrReadsBack | src/ff-licence.c:51-66 | a printed string field is recovered whatever its value and the other members say, for any JSON white space |
| LicenceDocs.IntReadsBack | src/ff-licence.c:68-93 | a printed 64-bit integer field is recovered exactly |
| LicenceDocs.ReadInt | src/ff-licence.c:68-93 | printing and reading a 64-bit integer are inverse |
| LicenceDocs.IntTextPlaces | src/ff-licence.c:119-124 | a number is printed digit by place |
| Licence.WriteCanonical | src/ff-licence.c:117-125 | the canonical text is written with its terminator, or 0 is returned |
| Licence.CanonicalIsDocument | src/ff-licence.c:117-125 | the canonical text is itself a document of the printed form, keys in order and no white space |
| Licence.CanonicalReads | src/ff-licence.c:117-165 | the getters recover all five fields from the canonical text |
| Licence.CanonicalIsInjective | src/ff-licence.c:117-125 | no two sets of storable fields share a canonical text |
| Licence.CanonicalFits | src/ff-licence.c:167-170 | the text of storable fields always fits the buffer it is rebuilt in |
| Licence.FfLicence.FillFields | src/ff-licence.c:137-161 | the table loop reads all fields or reports the first that is missing or bad |
| Licence.FfLicence.Verify | src/ff-licence.c:127-196 | the outcome and the reason are those of the checks in order: fields, signature length, signature, pack, release date |
| Licence.PrintedFieldsAreRead | src/ff-licence.c:137-173 | for any white space, member order and extra members the fields read are those printed, so the text checked is the text that was signed |
| Licence.GenuineLicence | src/ff-licence.c:127-196 | with a valid signature and the right pack the result is OK exactly when released <= entitled_through |
| Licence.AcceptedMeansSigned | src/ff-licence.c:127-196 | nothing but a valid signature over the fields read passes, and the signed text determines the fields |
| Gradient.Bake | src/ff-layers.c:796-837 | one forward cursor fills the table that a separate search for each of the 256 positions would |
| Gradient.ClampPositions | src/ff-layers.c:799-805 | positions clamped forward |
| Gradient.ClampedForward | src/ff-layers.c:803-805 | an out-of-order stop moves to the furthest position before it: never back, and to no place that is not a stop's |
| Gradient.InOrderUnmoved | src/ff-layers.c:803-805 | stops in order are not moved |
| Gradient.CursorIsSearch | src/ff-layers.c:807-811 | a cursor that never goes back stands where the search from the start would |
| Gradient.Interval | src/ff-layers.c:807-811 | an entry between two neighbouring stops is mixed from those two |
| Gradient.FractionInProportion | src/ff-layers.c:812-818 | within an interval the way gone is in proportion to the way there is |
| Gradient.ChannelInProportion | src/ff-layers.c:812-826 | each channel moves from one stop's value to the next one's in proportion to the position, and the entry is that value rounded |
| Gradient.ToByteIsNearest | src/ff-layers.c:821-825 | a channel is rounded to the nearest byte, and what is out of range is brought inside first |
| Gradient.PlacesAreEven | src/ff-layers.c:808-810 | the 256 entries lie evenly from 0 to 1 |
| Gradient.BlackToWhite | src/ff-layers.c:796-837 | a ramp from black to white has at entry x the byte x |
| Gradient.HardEdge | src/ff-layers.c:810-814 | any two stops no further apart than the tolerance are a hard edge: where they are the interval, an entry has the first stop's colour before them and the second's from them on |
| Gradient.EdgeSides | src/ff-layers.c:807-826 | on either side of coincident stops the ramp is that of the neighbouring interval, up to the first stop's colour and on from the second's |
| Gradient.StopShowsItsColour | src/ff-layers.c:812-826 | an entry at a stop has that stop's colour; of several at one place the first one's, unless they start the ramp |
| Gradient.OutsideTheStops | src/ff-layers.c:812-826 | before the first and behind the last stop the colour stands still |
| Gradient.ToByteMonotone | src/ff-layers.c:821-825 | rounding a channel to a byte keeps order |
| Gradient.BytesBetween | src/ff-layers.c:812-826 | every byte lies between the bytes of the two stops it was mixed from |
| Gradient.BakeTexture | src/ff-layers.c:796-837 | after a bake the texture is the table of the current stops, or there is none because there was none and it could not be made |
| Gradient.DrawRamp | src/ff-layers.c:860-864 | a draw binds the table of the current stops, or the blank texture exactly when there was none and none was made now |
| Gradient.BlankExactly | src/ff-layers.c:829-836 | a ramp stays blank until a draw that is the first since loading or since a change succeeds in making a texture: a failure is not made good before the stops change |
| Gradient.DrawIsAnEvent | src/ff-layers.c:829-836 | a draw moves texture and mark as its event moves the progress this is said of |
| Gradient.ChangeIsAnEvent | src/ff-layers.c:1415-1421 | and so does a change of the stops |
| Settings.PackUnpack | src/ff-layers.c:1075-1090 | packing an unpacked colour is the identity on 32 bits |
| Settings.UnpackChannels | src/ff-layers.c:1084-1090 | red is the low octet, then green, blue and alpha, each a share of 255 |
| Settings.AsIntCuts | src/ff-layers.c:1084-1090 | a number asked for as an integer is cut towards zero |
| Settings.KeysAsWritten | src/ff-layers.c:1069-1072 | the keys as they are written in a settings file |
| Settings.LayerKeyShape | src/ff-props.c:129-137 | a layer key is "l", digits, a dot and anything |
| Settings.RendererKeysAreLayerKeys | src/ff-props.c:129-137 | every key the renderer writes, gradient stops included, is a layer key |
| Settings.WritableLayerKeys | src/ff-props.c:129-137 | among layer keys the renderer can write exactly those whose number has no leading zero |
| Settings.LeadingZeroIsErasedToo | src/ff-props.c:129-137 | a layer key no renderer writes that is erased all the same |
| Settings.OtherKeysAreKept | src/ff-layers.c:55-69 | the mouth and source keys are not layer keys |
| Settings.ParamKeyInjective | src/ff-layers.c:1069-1072 | layer and name can be read back from a key |
| Settings.StopKeysApart | src/ff-layers.c:1177-1180 | no stop key is a parameter key or another stop's key, for names without a dot |
| Renderer.LiveFollows | src/ff-layers.c:1370-1469 | loading and applying leave a parameter in a state from which settings can be applied again |
| Renderer.ApplyStops | src/ff-layers.c:1399-1423 | each stop is the user's or the preset's, positions within the ramp, and a rebake is asked for exactly when some stop changed |
| Renderer.ApplyParam | src/ff-layers.c:1391-1467 | whatever value earlier settings left behind, a parameter ends at the value its preset and the current settings determine; an image is reloaded when its path changed, and needlessly only for a path that had been cut |
| Renderer.SettingTakesEffect | src/ff-layers.c:1439-1467 | what a setting under a parameter's key does to the shader value, kind by kind |
| Renderer.ColourTakesEffect | src/ff-layers.c:1449-1451 | the four octets of a colour setting reach the four channels |
| Renderer.StopTakesEffect | src/ff-layers.c:1395-1422 | each stop's colour and place follow their own keys, and neither moves the other |
| Renderer.OthersStay | src/ff-layers.c:1244-1262 | no setting reaches a parameter that is not exposed |
| Renderer.ClampToRange | src/ff-layers.c:121-130 | a scalar is brought into its range when the author gave both ends |
| Instance.ReadMouth | src/ff-layers.c:1385-1389 | a mouth control the viewer has not set is at its default, not at zero, and the five do not mix |
| Instance.MouthByKey | src/ff-layers.c:55-70 | which key each mouth control has, and which default |
| Instance.FfRenderer.Load | src/ff-layers.c:706-719 | loading replaces all layers with the preset's, at most eight, each parameter at its preset value and each gradient to be baked |
| Instance.FfRenderer.ApplySettings | src/ff-layers.c:1370-1469 | afterwards every live parameter and the mouth are what the preset and the settings say, whatever they were; exactly the gradients whose stops changed are marked; every gradient is marked or its table is that of its stops |
| Instance.FfRenderer.SetParams | src/ff-layers.c:839-870 | every gradient of a layer is bound with the table of its live stops, or blank exactly when it had none and none was made now |
| Instance.DrawLayer | src/ff-layers.c:839-870 | the same for the loop over one layer |
| Instance.MarkedIsCached | src/ff-layers.c:1415-1421 | marking what changed is enough: every gradient stays marked or up to date |
| Instance.BlankUntilMade | src/ff-layers.c:829-864 | over every run of loads, updates and draws of a renderer: a gradient has a texture exactly if a draw that came first since loading or since a change of its stops succeeded in making one |
| Instance.ObsData.EraseLayerKeys | src/ff-props.c:139-157 | exactly the layer keys are erased |
| Instance.FfInstance.Update | src/ff-props.c:572-636 | settings are erased only on a switch after the first update; afterwards the renderer shows the loaded preset under the remaining settings, and that preset is the one asked for unless the ids it was loaded for did not fit |
| Instance.RestoredIsPreset | src/ff-layers.c:1424-1437 | with its settings gone a parameter is back at the preset, whatever was applied before |
| Instance.SwitchErasesExactly | src/ff-props.c:612-621 | a switch leaves every parameter at its preset and spares the mouth and the source's own keys |
| Instance.OwnSettingsOnly | src/ff-layers.c:1391-1467 | a parameter depends on its own keys only |
| Instance.SettingsApart | src/ff-layers.c:1069-1072 | two different parameters never read the same key |
| Instance.SwitchesNoticedExactly | src/ff-props.c:614-616 | comparing with the remembered ids tells a switch from a repeat, for every next pair of ids, exactly when the ids remembered fit |
| Instance.OverlongIdGoesStale | src/ff-props.c:614-629 | an overlong id followed by the part of it that was kept leaves the old preset on screen: a concrete pair of updates |
| Instance.OverlongIdErases | src/ff-props.c:614-629 | an overlong id that stays: whatever the viewer sets of the layers between updates, every update erases it |
| Viseme.BandTotal | src/ff-viseme.c:68-77 | the bands whose centres lie in a window, added up |
| Viseme.ClassifyFrame | src/ff-viseme.c:127-255 | the sequence of early returns sorts a frame into silence, hiss or a vowel by jaw and tongue |
| Viseme.PureTone | src/ff-viseme.c:127-255 | what a single tone is shown as, by its frequency and whatever the trim |
| Viseme.HalfOpen | src/ff-viseme.c:168-255 | as much energy below 450 Hz as above it leaves the mouth half open: C with a second formant, E without |
| Viseme.SidesOfTheTongue | src/ff-viseme.c:246-254 | B and C are for a tongue to the front, E and F for one to the back, and a hiss is B |
| Viseme.RaisingTheTrimOpens | src/ff-viseme.c:127-255 | raising jaw_bias never lowers the jaw class and changes nothing else |
| Viseme.TrimStaysInRange | src/ff-viseme.c:135-139 | both features are proper shares, and the clamped trim keeps both thresholds inside their range and equally far apart |
| Viseme.Mouth.constructor | src/ff-viseme.c:34-38 | a mouth starts at rest, having heard nothing |
| Viseme.Mouth.Update | src/ff-viseme.c:257-314 | the counters are what the history says, and the shape shown obeys the timing rule against that history |
| Viseme.ClosedExactly | src/ff-viseme.c:277-293 | shape A is shown exactly when unvoiced, speech has occurred and the silence is under closure_ms; otherwise an unvoiced mouth rests |
| Viseme.NeverTeethOrTongue | src/ff-viseme.h:44-53 | shapes G and H never appear |
| Viseme.NoFlicker | src/ff-viseme.c:307-312 | a shape B to F replaced on a voiced frame has been up for at least hold_ms, measured by the time fed |
| Viseme.HeldExactly | src/ff-viseme.c:297-313 | a speaking shape stays for exactly as long as it has not been up for the hold time |
| Viseme.UpSince | src/ff-viseme.c:274-312 | the hold timer is the time since the shape went up |
| Viseme.WordsStartAtOnce | src/ff-viseme.c:299-305 | the first voiced frame after rest or closure is shown as heard |
| Viseme.OpennessFollows | src/ff-viseme.c:260-272 | openness is never behind an attack and stays within the range of levels fed |
| Viseme.FallsEvenly | src/ff-viseme.c:262-271 | falling takes the release time, evenly |
| Analysis.RingStep | src/ff-analysis.c:224-225 | writing a sample at the head keeps the ring equal to the newest samples |
| Analysis.RingAt | src/ff-analysis.c:97-123 | reading the ring from the head on gives the samples oldest first |
| Analysis.RotationSums | src/ff-analysis.c:187-197 | mean and spread of the flux history do not depend on where the ring starts |
| Analysis.FfAnalysis.constructor | src/ff-analysis.c:42-80 | a new analysis has heard nothing |
| Analysis.FfAnalysis.Samples | src/ff-analysis.c:97-123 | a window read out of the ring is the newest samples in arrival order, after gain and clipping |
| Analysis.ClipExactly | src/ff-analysis.c:100-108 | within range a sample is multiplied by the gain, and beyond it stays at the end it passed |
| Analysis.FfAnalysis.Windows | src/ff-analysis.c:97-123 | the two windows read out of the ring are those |
| Analysis.FfAnalysis.Decimated | src/ff-analysis.c:212-217 | the waveform read out of the ring is that |
| Analysis.FfAnalysis.FluxOf | src/ff-analysis.c:176-186 | the rising differences below 4 kHz are summed and the bands remembered |
| Analysis.FluxExactly | src/ff-analysis.c:176-186 | only what rises counts: all of it if every band does, nothing if none does |
| Analysis.FfAnalysis.IsOnset | src/ff-analysis.c:187-197 | an onset is a flux above the threshold of the last 43 hops, with no beat in the last five |
| Analysis.ThresholdExactly | src/ff-analysis.c:187-197 | the threshold is one and a half deviations over the sensitivity above the mean |
| Analysis.SpreadExactly | src/ff-analysis.c:190-195 | the spread is the sum of squares less what the mean accounts for |
| Analysis.SteadyHistory | src/ff-analysis.c:187-195 | of a history that has not moved the mean is its value and the spread nothing |
| Analysis.FfAnalysis.Remember | src/ff-analysis.c:198-206 | history, refractory counter and beat count after a hop |
| Analysis.RefractoryIsRest | src/ff-analysis.c:197-206 | the refractory counter is five less the hops since the last beat |
| Analysis.FfAnalysis.Analyse | src/ff-analysis.c:94-218 | a hop takes the remembered state to that of the hop specification and sets the waveform |
| Analysis.FfAnalysis.PushOne | src/ff-analysis.c:223-231 | one sample, and a hop when it is the last of one |
| Analysis.FfAnalysis.Push | src/ff-analysis.c:220-235 | after any push the state is a function of all samples and of the parameters at each hop; the frame returned is the newest hop's |
| Analysis.SplitsDoNotMatter | src/ff-analysis.c:220-235 | splitting the samples differently never changes the state, given the same parameters at each hop |
| Analysis.SplitsUnderOneSetting | src/ff-analysis.c:220-235 | so too when each analysis was used with one set of parameters throughout |
| Analysis.WindowsAreNewest | src/ff-analysis.c:97-123 | at each hop the transforms read the latest 2048 and 8192 samples in order of arrival, and the waveform is every second one of the last 1024 |
| Analysis.OnsetsAreRested | src/ff-analysis.c:197-206 | no onset falls within five hops of another |
| Analysis.BeatsApart | src/ff-analysis.c:197-206 | two beats are at least six hops apart |
| Analysis.BeatCountIsBounded | src/ff-analysis.c:197-206 | six times the beats is at most the hops plus five |
| Analysis.FfAudio.Chunk | src/ff-audio.c:48-56 | a chunk of at most a hop completes at most one, so its frame is published |
| Analysis.MixExactly | src/ff-audio.c:51-51 | two equal channels mix to themselves, and either comes in at half |
| Analysis.FfAudio.Feed | src/ff-audio.c:38-62 | every hop's frame is published exactly once and in order, however many samples arrive at once, mono or stereo |
| AlertText.CharLength | src/ff-alert.c:127-157 | a character is complete exactly when as many continuation bytes follow as its lead announces, none of them past the terminator |
| AlertText.CharsArePatterns | src/ff-alert.c:126-157 | what is taken for a character is the UTF-8 pattern of some number, and nothing else is |
| AlertText.Verdict | src/ff-alert.c:153-179 | what is dropped: malformed bytes, C0 and DEL, and the listed bidirectional code points |
| AlertText.Sanitise | src/ff-alert.c:103-191 | the output is the longest run from the front of the filtered characters that fits, terminated, and the count is of what was removed before the cut |
| AlertText.LongestFit | src/ff-alert.c:181-188 | the characters kept fit, and one more would not |
| AlertText.FilterJoin | src/ff-alert.c:127-188 | text made of safe characters is taken apart into just those characters, so none is split |
| AlertText.SecondPassChangesNothing | src/ff-alert.c:103-191 | a second pass removes nothing and changes nothing |
| AlertText.NoControlByte | src/ff-alert.c:159-163 | no C0 or DEL byte is in the output |
| AlertText.Utf8Reads | src/ff-alert.c:164-169 | what a UTF-8 encoder writes (RFC 3629) is a character, and the number it is taken for is the code point encoded |
| AlertText.SafeExactly | src/ff-alert.c:157-180 | a code point is let through exactly if it is no C0, no DEL and none of the twelve listed |
| AlertText.NoBidiLeft | src/ff-alert.c:164-180 | no listed code point is left anywhere in the bytes put out, not even across two characters |
| AlertText.TextIsFiltered | src/ff-alert.c:104-192 | of well-formed text exactly the code points that may not be drawn are taken out |
| AlertText.TakenOutAreCounted | src/ff-alert.c:104-192 | and each of them is counted once, however many bytes it was |
| AlertText.UnremovedIsUnchanged | src/ff-alert.c:103-191 | when nothing was removed and all of it fits the text is unchanged |
| Alerts.Queue.Push | src/ff-alert-queue.c:35-46 | the ring appends to a sequence of at most 64, and a full one refuses the newest and counts it |
| Alerts.Queue.Pop | src/ff-alert-queue.c:48-56 | the oldest event is taken, or none |
| Alerts.Queue.Clear | src/ff-alert-queue.c:58-66 | everything waiting is discarded and counted |
| Alerts.RingPush | src/ff-alert-queue.c:43-44 | writing behind the newest appends, across the wrap |
| Alerts.RingPop | src/ff-alert-queue.c:52-54 | moving the head takes the oldest, across the wrap |
| Alerts.AlertSource.Enqueue | src/ff-alert-source.c:251-282 | an enabled event is accepted or refused by a full queue; others are ignored; playback is untouched |
| Alerts.AlertSource.StartAlert | src/ff-alert-source.c:236-241 | the event shown is the one that has just left the queue, the next in arrival order, and its time begins |
| Alerts.AlertSource.Tick | src/ff-alert-source.c:655-681 | an alert not yet due goes on; one that is due ends, and then the oldest waiting event is the one shown, unless starting is paused |
| Alerts.AlertSource.StartNext | src/ff-alert-source.c:671-681 | the oldest waiting event starts, unless starting is paused or none waits |
| Alerts.AlertSource.Skip | src/ff-alert-source.c:526-535 | the alert on screen becomes due |
| Alerts.AlertSource.ClearQueue | src/ff-alert-source.c:537-547 | only what waits is thrown away |
| Alerts.ShownInOrder | src/ff-alert-source.c:655-681 | what has been on screen is what arrived, in order, each event at most once, without exactly those cleared or still waiting |
| Alerts.StartedGrow | src/ff-alert-source.c:655-681 | arrival numbers of started events grow and are those of exactly the events not cleared |
| Alerts.NothingIsLost | src/ff-alert-source.c:251-282 | accepted events are exactly those started, cleared or still queued |
| Alerts.NeverTwoAtOnce | src/ff-alert-source.c:655-681 | between two starts there is an end |
| Alerts.FullTimeUnlessSkipped | src/ff-alert-source.c:655-681 | an alert nobody skipped was up for at least the duration in force at its end |
| Alerts.AlertSource.TickSkippedAt | src/ff-alert-source.c:655-661 | the tick's own steps with the skip's write in front, between or behind them end the alert, or leave it with the elapsed time, that the table of moments says |
| Alerts.SkipWorksExactly | src/ff-alert-source.c:526-535 | by that table, a skip takes the alert off by the next tick, however short, exactly unless it fell between the read and the write of elapsed and the alert was not due |
| Alerts.AlertSource.TwoTicks | src/ff-alert-source.c:655-661 | two ticks with a skip inside the first: the alert is still up exactly when the skip fell between read and write and neither tick found it due |
| WebpClock.Webp.Pull | src/ff-webp.c:142-153 | a pull moves to the next frame and its deadline, or marks the decoder as run out |
| WebpClock.Webp.Advance | src/ff-webp.c:155-182 | with successful pulls clock and frame follow the step specification; the first call shows the first frame and leaves the clock alone |
| WebpClock.NoDrift | src/ff-webp.c:170-175 | the clock stays congruent to the total time fed modulo the loop length, however often it loops and however late each frame is |
| WebpClock.KeepsUp | src/ff-webp.c:155-182 | with steps no longer than the shortest frame the right frame is always on screen |
| WebpClock.InStepIsLookup | src/ff-webp.c:155-182 | being in step means showing the frame current at the total time fed modulo the loop |
| WebpClock.KeepsUpExactly | src/ff-webp.c:155-182 | every run of steps up to a bound shows the right frames exactly when the first frame lasts and no frame is shorter than that bound |

## Left out

- Libraries: libobs, Qt, curl, libwebp, kiss_fft and Monocypher are parameters with the least that is assumed of them: a transport moves at most what it was offered, a signature is valid or not, a decoder delivers a frame or fails.
- Memory order: steps of the handoff are sequentially consistent; C11 relaxed and acquire/release orders are not modelled.
- Rounding: arithmetic on floats is over reals. The powers, exponentials and square roots are parameters.
- Null pointers and allocation failure are left out, except where the source reports them as an outcome of a send.
- Sources that are not modelled: the dock, the filter, transition and source wrappers, pack directories and installation, HTTP requests, JSON parsing (sessions are fed decoded messages), the worker's sign-in, back-off and token refresh around run_once.
- WsConn.Conn.Poll: does not promise that complete messages still buffered when recv dies are delivered, because the code gives up before parsing.
- WsConn.Conn.Send: the wait between idle turns is not modelled, and neither is a second thread sending at the same time.
- Handshake.Upgrade: the loop that sends the request is left out because nothing in it bounds its idle turns, and the waits between reads are not modelled.
- Handshake.ReadAtoi: values are unbounded integers, where C leaves an overflow undefined.
- Handshake.VerdictIsFinal: is stated up to the 8192 bytes after which the source gives up on a response that is still growing.
- Connection.RunOnce: starts from the first socket; reading the token and the user before it, log lines and status texts are left out, and the clock is taken to be set and positive.
- Session.Handle: messages are already decoded, and an alert is a number.
- Licence.FfLicence.Verify: the sentences of the reasons are left out; the signature check is a predicate.
- Gradient.Bake: a ramp has at least two stops, as parse_gradient demands before it makes one; that parser is left out.
- Gradient.DrawRamp: whether the driver can create a texture is a parameter of each draw; updating one always works.
- Renderer.ApplyParam: binding the image itself is left out; key and name buffers are long enough for the names a shader can declare.
- Instance.FfInstance.Update: width, height, audio and status texts are left out; the pack list is fixed, and "what a pair of ids loads" is a function of the ids that includes the licence gate. The defaults recorded for the panel are left out: what a draw reads never comes from them.
- Viseme.Mouth.Update: time fed is not negative, as a frame's length is.
- Analysis.FfAnalysis.Analyse: the transform, the band map, the window shape and the envelopes of level, peaks and beat are parameters, so nothing is claimed about detection quality.
- Analysis.FfAudio.Feed: the diagnostic stall switch and the locks are left out.
- AlertText.Sanitise: code points of four bytes are not decoded, as in the source, so none of them counts as bidirectional.
- Alerts.AlertSource.Tick: each operation is one step; only the skip button is also modelled inside a tick (Alerts.AlertSource.TickSkippedAt). Text, sound and art of an alert are left out.
- WebpClock.Webp.Advance: the 64-bit clock does not wrap, and after a failed pull only safety is kept: the congruence is claimed for runs whose pulls succeed.
- Easy members: name tables, the closed form of the back-off, licence sentences and property panels.

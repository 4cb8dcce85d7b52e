# MatrixCAMERA capture session, modelled in Dafny

MatrixCAMERA turns several phones into one "bullet time" camera rig. One
device is the server and the others are its clients. Over Wi-Fi the server:

- verifies each client and gives it a frame rank;
- broadcasts the orientation and the ready countdown;
- triggers the shot with a one-byte GO;
- downloads each client's picture in framed chunks;
- serves the finished video back to the clients in indexed chunks.

This project models that protocol and the small buffers and helpers it hands
its data to.

| file | module | what it models |
|---|---|---|
| `wire.dfy` | `Wire` | The frame layout: command, payload, 2-byte token, 3-byte byte sum. Also the checksum verifier loop, the encode/decode round trips, tamper detection, the packet-index and picture-size fields, and the upload chunking. |
| `peer.dfy` | `Peers` | The per-peer record (`ClientMgr`): its reply statuses, `setTryCount`, `reset`, and one step of its receive loop. |
| `protocol.dfy` | `Protocol` | The session statuses, the status counts over the peers, and the client's request classifier. Also the verify request and reply, the version check, and the upload rule. |
| `session.dfy` | `Session` | The `Connexion` object. On the server: the barrier broadcasts, GO, the per-peer reply dispatch, the download completion, dropping and renumbering a failed peer, re-verify and accepting a new peer. On the client: the receive classifier, sends, the upload reply and the address/port round robin. |
| `picture.dfy` | `Pictures` | A downloaded picture: `fill`, `retry`, `save` (fill branch), and the padded file name. |
| `video.dfy` | `Media` | The recorder bookkeeping, `MCAM_FPS_FACTOR`, the audio block alignment, and the video buffer (`prepare`, `fill`, `select`, the stored name). |
| `pixels.dfy` | `PixelOps` | The landscape/portrait rotation in place, the BGRA to RGBA swap, and the texture row padding. |
| `share.dfy` | `Share` | `extractDate`, the URL glyph substitution and 20-column wrapping, and the birthday line. |
| `search.dfy` | `Search` | The `SearchIP` address cache, and the split of a scan result. |
| `level.dfy` | `Level` | The main statuses and `checkWait`. |
| `glyphs.dfy` | `Glyphs` | The digit slots of `Count2D` and `Frame2D`. |
| `text.dfy` | `Text` | Decimal rendering (`numToStr`) and zero padding. |

Sockets, clocks and `rand()` become parameters: a send's delivery is a
`bool`, a read is a `ReadOutcome`, and `time(NULL)` and each drawn token
are passed in. A server method returns the packets it sent, as
(peer, frame) pairs.

## Model

| member | source | states |
|---|---|---|
| Wire.Frame | jni/Sources/Wifi/Connexion.cpp:175-194 | The frame is the payload followed by the 5-byte trailer; the payload bytes are kept unchanged. |
| Wire.VerifyCheckSum | jni/Sources/Wifi/Connexion.cpp:195-211 | The summing loop accepts a message exactly when its last three bytes hold the big-endian byte sum of everything before them. |
| Wire.SumAppend | jni/Sources/Wifi/Connexion.cpp:187-191 | The byte sum of a concatenation is the sum of the parts' sums. |
| Wire.SumBound | jni/Sources/Wifi/Connexion.cpp:187-191 | The byte sum of n bytes is at most 255·n, so the 24-bit field of a 65530-byte payload cannot overflow. |
| Wire.SumUpdate | jni/Sources/Wifi/Connexion.cpp:200-203 | Changing one byte changes the sum by exactly the difference. |
| Wire.Be24RoundTrip | jni/Sources/Wifi/Connexion.cpp:187-193 | The three big-endian bytes written for a value decode to that value modulo 2^24. |
| Wire.Be16RoundTrip | jni/Sources/Wifi/Connexion.cpp:183-186 | The two big-endian token bytes decode to the value modulo 2^16. |
| Wire.FrameRoundTrip | jni/Sources/Wifi/Connexion.cpp:175-240 | A frame of at most MAX_MESSAGE_SIZE payload bytes passes the checksum test, and its token reads back as the token it was signed with. |
| Wire.SingleByteChangeDetected | jni/Sources/Wifi/Connexion.cpp:195-211 | Changing any single byte of a message that passes the checksum makes it fail. |
| Wire.TamperedFrameRefused | jni/Sources/Wifi/Connexion.cpp:175-211 | A built frame with any one byte changed is refused, whatever the payload and token. |
| Wire.UploadRequest | jni/Sources/Wifi/Connexion.cpp:317-330 | The client's upload request payload has the length UPLOAD_REPLY_LEN less the trailer. |
| Wire.PacketIndexRoundTrip | jni/Sources/Wifi/Connexion.cpp:326-327 | The server decodes the packet index the client wrote, for every `short` value, negative ones included. |
| Wire.GetReply | jni/Sources/Wifi/Connexion.h:179-190 | The GET reply payload has the length GET_REPLY_LEN less the trailer. |
| Wire.PicSizeRoundTrip | jni/Sources/Wifi/Connexion.h:179-190 | The server reads the announced picture size back, truncated to the 24 bits the reply carries. |
| Wire.Chunk | jni/Sources/Wifi/Connexion.cpp:574-576 | Upload packet p carries at most MAX_MESSAGE_SIZE bytes: bytes [p·M, min(S, (p+1)·M)) of the video. |
| Wire.ChunksCoverVideo | jni/Sources/Wifi/Connexion.cpp:556-576 | The chunks from p up to S/M, in order, put back together give the video from byte p·M on. Nothing is lost or repeated. |
| Peers.StatusClasses | jni/Sources/Wifi/ClientMgr.h:44-60 | A peer status is NONE (0), ERROR (1), or a reply-awaiting status above ERROR. It is never RESERVED (0xff). |
| Peers.WriteAt | jni/Sources/Wifi/ClientMgr.cpp:81 | The copy into the receive buffer replaces exactly the bytes [at, at+n) and keeps all others. |
| Peers.Peer.constructor | jni/Sources/Wifi/ClientMgr.cpp:4-18 | A server-side peer starts NONE with timeout 0; a client-side peer starts VERIFY with the current time. Token, length, EOF, try and packet counts are zero. |
| Peers.Peer.SetTryCount | jni/Sources/Wifi/ClientMgr.h:88-96 | Stores the count and clears EOF only for a non-zero count; a zero count keeps EOF. |
| Peers.Peer.Reset | jni/Sources/Wifi/ClientMgr.h:107-114 | Clears EOF, empties the message, refreshes the timeout and sets the status to NONE. |
| Peers.Peer.ReceiveStep | jni/Sources/Wifi/ClientMgr.cpp:27-85 | Does nothing unless the status reads and EOF is clear. "Would block" sets EOF only when bytes are pending. An error or a close sets ERROR and stops the loop. Received bytes are appended at the current length, the 16-bit length wraps, and the timeout is refreshed. |
| Protocol.StatusOrder | jni/Sources/Wifi/Connexion.h:89-112 | Every set-up status is below CONN_GO; DOWNLOAD, WAIT_UPLOAD and UPLOAD are above it. |
| Protocol.CountOfBounds | jni/Sources/Wifi/Connexion.h:117-126 | The status count is at most the number of peers, and is positive exactly when some peer has the status. |
| Protocol.CountOfAll | jni/Sources/Wifi/Connexion.h:117-126 | When all peers share a status, the count is the number of peers. |
| Protocol.FirstOf | jni/Sources/Wifi/Connexion.h:138-152 | The index of the first peer in a status, or the peer count when there is none. |
| Protocol.FirstNotOf | jni/Sources/Wifi/Connexion.cpp:305-308 | The index of the first peer not in a status, or the peer count when all are. |
| Protocol.RequestOfLength | jni/Sources/Wifi/Connexion.cpp:751-787 | The length switch: the one request of that length, or none. |
| Protocol.RequestsDistinct | jni/Sources/Wifi/Connexion.cpp:37-46 | The request lengths are pairwise different, so the length switch is unambiguous. The reply statuses are distinct valid peer statuses other than ERROR. |
| Protocol.Classify | jni/Sources/Wifi/Connexion.cpp:751-791 | The client reports either an error or the status of a request that accepts the message (its length, its command prefix and a valid checksum). |
| Protocol.ClassifyExact | jni/Sources/Wifi/Connexion.cpp:751-787 | The client reports a request status exactly when the message has that request's length, its command prefix and a valid checksum. |
| Protocol.ClassifyError | jni/Sources/Wifi/Connexion.cpp:787-791 | The client reports an error exactly when no request accepts the message. |
| Protocol.RequestRecognised | jni/Sources/Wifi/Connexion.cpp:751-787 | Every request the server frames, whatever its token, is recognised by the client as that request. |
| Protocol.VerifyRequest | jni/Sources/Wifi/Connexion.cpp:831-841 | The verify request has length VERIFY_LEN less the trailer and starts with the verify command. |
| Protocol.VerifyRequestRead | jni/Sources/Wifi/Connexion.cpp:972-977 | The client classifies a framed verify request as VERIFY and reads back frame rank index+2 and the orientation. |
| Protocol.ServeUpload | jni/Sources/Wifi/Connexion.cpp:556-576 | A chunk is sent only for a non-negative index whose chunk starts inside the video, and it is that chunk. |
| Protocol.ServeUploadCases | jni/Sources/Wifi/Connexion.cpp:556-576 | Index p < 0 or p > S/M+1 is an error. p == S/M+1 completes with nothing sent. Any other index sends its chunk; when M divides S, index S/M sends an empty payload. |
| Protocol.Compare | jni/Sources/Wifi/Connexion.cpp:412-413 | `memcmp` on unsigned bytes: -1, 0 or 1; zero exactly on equal inputs; the first differing byte decides the sign. |
| Protocol.VersionRefusedAsWritten | jni/Sources/Wifi/Connexion.cpp:412-413 | The test as written compares bytes 12..15 with "1.00". It can refuse a reply only when byte 12 is at least the server's leading digit. |
| Protocol.VerifyReply | jni/Sources/Wifi/Connexion.cpp:986-1000 | The client's verify reply has length VERIFY_REPLY_LEN less the trailer. The version sits at bytes 11..14, then the main status and the client OS. |
| Protocol.VersionAsWrittenNeverRefuses | jni/Sources/Wifi/Connexion.cpp:412-413 | The check as written starts at byte 12, so it compares the client's `.` with the server's leading digit; it never refuses a `d.dd` version. |
| Protocol.VersionRefusedExactly | jni/Sources/Wifi/Connexion.cpp:412-417 | The check at byte 11 refuses a client exactly when its version compares above the server's. |
| Protocol.NewerVersionPassesAsWritten | jni/Sources/Wifi/Connexion.cpp:412-413 | A version-2.00 client passes the check as written and is refused by the intended check. |
| Protocol.VerifyReplyAccepted | jni/Sources/Wifi/Connexion.cpp:411-433 | A same-version reply signed with the request's token passes `isExpectedReply` and the version check; its OS byte reads back. |
| Protocol.AwaitedReply | jni/Sources/Wifi/Connexion.cpp:403-577 | For each awaited status, the command and exact length the server checks the reply against. |
| Protocol.TokenEcho | jni/Sources/Wifi/Connexion.cpp:212-240 | The token the client stores from a request and signs its reply with passes the server's token check. |
| Protocol.NothingToSaveMeansAllFailed | jni/Sources/Wifi/Connexion.cpp:594-615 | A download with no idle peer and every peer idle or failed has every peer failed. Such a case is already caught at line 594, so the reset at line 612 cannot run. |
| Session.StatusesOf | jni/Sources/Wifi/Connexion.h:117-174 | The status list has one entry per peer, in order. |
| Session.FirstFalse | jni/Sources/Wifi/Connexion.cpp:269-278 | The index of the first failed send, or the count when none failed. |
| Session.LaunchReply | jni/Sources/Wifi/Connexion.cpp:282-295 | ORIENTATION awaits the orientation reply and READY awaits the ready reply, in both directions. |
| Session.AfterTimeOut | jni/Sources/Wifi/Connexion.h:130-137 | A failure moves a set-up session to CONN_TIMEOUT and leaves a capturing session's status unchanged. |
| Session.Connexion.Statuses | jni/Sources/Wifi/Connexion.h:117-174 | The peers' statuses, one per peer, in order. |
| Session.Connexion.constructor | jni/Sources/Wifi/Connexion.cpp:63-69 | A new session is CONN_OPEN, with no peers, no frames, no current client, and picture size and timeout index 0. |
| Session.Connexion.Open | jni/Sources/Wifi/Connexion.cpp:92-102 | A server that fails to listen stays OPEN. Otherwise a server goes to START and a client to CONNEXION. |
| Session.Connexion.Start | jni/Sources/Wifi/Connexion.cpp:103-116 | Accepting on the port moves START to WAIT; failing leaves START. |
| Session.Connexion.GetCountStatus | jni/Sources/Wifi/Connexion.h:117-126 | The counting loop returns the number of peers in the status, at most the peer count. |
| Session.Connexion.IsAnyStatus | jni/Sources/Wifi/Connexion.h:155-163 | The loop returns true exactly when some peer has the status. |
| Session.Connexion.IsAllStatus | jni/Sources/Wifi/Connexion.h:164-174 | The loop returns true exactly when every peer has one of the two statuses; it is true with no peers. |
| Session.Connexion.TimeOut | jni/Sources/Wifi/Connexion.h:130-137 | Exactly peer c becomes ERROR and c becomes the timeout index. The session goes to CONN_TIMEOUT only below CONN_GO. |
| Session.Connexion.Reset | jni/Sources/Wifi/Connexion.h:138-152 | With no failed peer: WAIT and index 0. Otherwise: CONN_TIMEOUT with the index of the first failed peer. |
| Wire.Be24Decodes | jni/Sources/Wifi/Connexion.h:184-186 | Three bytes read big-endian give a value below 2^24 whose 24-bit encoding is those three bytes. |
| Session.Connexion.ExtractPicSize | jni/Sources/Wifi/Connexion.h:179-190 | The size is below 2^24, and its big-endian bytes are exactly the three bytes of the GET reply's size field. |
| Session.Connexion.Duplicate | jni/Sources/Wifi/Connexion.h:53-73 | The frame list is replaced by one entry per peer, in order. An entry is done exactly when its peer is NONE, and it keeps the peer's OS. |
| Wire.ArraySum | jni/Sources/Wifi/Connexion.cpp:186-188 | The summing loop returns the byte sum of the first `n` bytes of the buffer. |
| Session.Connexion.AddCheckSum | jni/Sources/Wifi/Connexion.cpp:175-194 | The first `len` bytes of the send buffer become the frame of the first `len`-5 command bytes, signed with the token. |
| Session.Connexion.ServerSend | jni/Sources/Wifi/Connexion.cpp:343-356 | Sends the frame. On delivery the peer awaits the reply with the new token and time. On failure the peer times out and keeps its old token and time. |
| Session.Connexion.SendTo | jni/Sources/Wifi/Connexion.cpp:343-356 | The same as ServerSend, for a whole payload; the packet sent is (c, its frame). |
| Session.Connexion.IsExpectedReply | jni/Sources/Wifi/Connexion.cpp:242-257 | True exactly when the length, the command prefix, the checksum and the stored token all match. On false, exactly that peer times out and no other peer changes. |
| Session.Connexion.Launch | jni/Sources/Wifi/Connexion.cpp:259-298 | Unless every peer is idle: false, nothing sent, nothing changed. Otherwise the status is set. Each peer up to the first failed send gets a fresh token, the time and the awaited reply; the failed peer times out, later peers are untouched, and the packets are exactly those frames. |
| Session.Connexion.SendEach | jni/Sources/Wifi/Connexion.cpp:269-296 | The shared send loop: peers before the first failed delivery await `reply` with their tokens, the failed one times out, later ones are untouched. The packets sent are listed in order. |
| Session.Connexion.Go | jni/Sources/Wifi/Connexion.cpp:300-315 | GO goes only to the peers before the first non-idle one (the loop breaks). Those await the GO reply with the current time. The session becomes DOWNLOAD. |
| Session.Connexion.GoWait | jni/Sources/Wifi/Connexion.cpp:932-939 | While waiting for GO, every peer's timeout is refreshed. |
| Session.Connexion.CloseAll | jni/Sources/Wifi/Connexion.cpp:915-931 | All peers are dropped and the session waits. |
| Session.Connexion.DropPeer | jni/Sources/Wifi/Connexion.cpp:860-883 | Removes exactly the peer at the timeout index. Earlier ranks are kept; each later peer's rank becomes its new index. The session goes to VERIFY when peers remain, else WAIT. |
| Session.Connexion.ReVerify | jni/Sources/Wifi/Connexion.cpp:884-914 | Unless all peers are idle: nothing sent and the session stays VERIFY. Otherwise each peer gets the verify request with rank index+2, until a send fails. The session ends NEW, or TIMEOUT at the failed index. |
| Session.Connexion.AcceptPeer | jni/Sources/Wifi/Connexion.cpp:826-856 | Sends the verify request for rank count+2. When delivered, a fresh peer of that rank is appended awaiting VERIFY with the token and the time, and the session becomes NEW. Otherwise nothing changes. |
| Session.Connexion.AcceptReply | jni/Sources/Wifi/Connexion.cpp:403-407 | The reply is checked against the awaited command and length. When it is accepted the peer is reset to idle; otherwise the peer times out. |
| Session.Connexion.ServeIdle | jni/Sources/Wifi/Connexion.cpp:390-402 | An idle peer gets a keep-alive exactly when the session is not transferring and 15 s have passed. Otherwise nothing changes. |
| Session.Connexion.ServeReply | jni/Sources/Wifi/Connexion.cpp:403-461 | An accepted keep-alive, orientation or ready reply resets the peer. When no peer still awaits orientation the session goes to WAIT; when none still awaits ready, to GO. A refused reply times the peer out. |
| Session.Connexion.AcceptVerify | jni/Sources/Wifi/Connexion.cpp:433-438 | The accepted verify reply: the peer's OS is read from the reply's OS byte, the peer is reset to idle at the current time, and the session goes to WAIT when no peer still awaits verification. |
| Session.Connexion.ServeVerifyReply | jni/Sources/Wifi/Connexion.cpp:409-441 | Accepted exactly when the reply is expected and the version test as written passes. That test reads the four bytes from `sizeof(CMD_VERIFY)` = 12, one past the client's version, so every `d.dd` client passes, newer ones included. On acceptance the peer's OS is taken from the reply, the peer is reset, and the session waits once no peer awaits verification. Otherwise the peer times out. |
| Session.Connexion.ServeGoReply | jni/Sources/Wifi/Connexion.cpp:464-473 | An accepted GO reply resets the peer and sends it GET. |
| Session.Connexion.ServeGetReply | jni/Sources/Wifi/Connexion.cpp:474-494 | The picture size is decoded from the reply. Size 0 resends GET. Otherwise the try count is reset and the download starts from the beginning. |
| Session.Connexion.ServeDownload | jni/Sources/Wifi/Connexion.cpp:495-544 | A failed fill marks ERROR only once the try count is above 12; otherwise it increments the count, which clears EOF. A good fill resets count and peer. The last part sets ERROR on a save failure, else packet count 0. Other parts ask for the next part. |
| Session.Connexion.ServeUploadRequest | jni/Sources/Wifi/Connexion.cpp:545-578 | An accepted upload request follows the upload rule on the decoded index: error, complete with nothing sent, or the chunk framed and awaited. |
| Session.Connexion.ServePeer | jni/Sources/Wifi/Connexion.cpp:377-586 | A waiting peer past 3 s times out, gets nothing and stops the pass. A waiting peer without EOF is skipped, unchanged, and the session is kept. Every other peer gets the full outcome of the handler for its status, as `ServeStatus` states it (`StatusServed`), and the pass then stops exactly when the session timed out. The peer's new status is `TurnStatus` of its old state. At most one packet is sent, to this peer. The session status stays, or becomes WAIT, GO or TIMEOUT, and a stop means the peer failed or the session timed out. |
| Session.Connexion.ServeStatus | jni/Sources/Wifi/Connexion.cpp:389-584 | The switch on the peer's status. Each status gets the full outcome of its handler (`StatusServed`): the idle, reply, verify, GO, GET, download and upload outcomes above. Any other status times the peer out. The peer's new status is `ServedStatus` of its old state, the time, the input and whether the session was transferring. The session status stays, or becomes WAIT, GO or TIMEOUT. |
| Session.Connexion.ServeCapture | jni/Sources/Wifi/Connexion.cpp:464-584 | The capture statuses of the switch (GO, GET, DOWNLOAD, UPLOAD) and the default case: each gets its handler's outcome (`StatusServed`), any other status times the peer out, and the new status is `ServedStatus`. The session status stays or becomes TIMEOUT. |
| Session.Connexion.CheckDownload | jni/Sources/Wifi/Connexion.cpp:591-621 | All peers failed: INTERRUPT, session TIMEOUT, index 0. Some peer still busy, or recording not ready: nothing. All done with at least one picture: frames duplicated and WAIT_UPLOAD. All done with no picture: the status reset (TIMEOUT at the first failed peer, else WAIT) and the application told to wait. |
| Session.Connexion.FinishCapture | jni/Sources/Wifi/Connexion.cpp:604-620 | The completion branch alone: nothing changes unless recording is ready and all peers are done or failed. Then, with at least one idle peer, duplicate the frames and move to WAIT_UPLOAD. With none, reset (TIMEOUT at the first failed peer, else WAIT) and return MCAM_WAIT. |
| Session.Connexion.EndCapture | jni/Sources/Wifi/Connexion.cpp:609-619 | The capture is over. With at least one idle peer: one frame per peer (done exactly when idle, with the peer's OS), WAIT_UPLOAD, nothing reported. With none: the frames are kept, MCAM_WAIT is reported, and the session goes to TIMEOUT at the first failed peer, else WAIT with index 0. |
| Session.Connexion.ServerReceive | jni/Sources/Wifi/Connexion.cpp:374-621 | One receive pass keeps the peer list and returns where it stopped. No peer before the stop had expired. The stop is at a failed peer or a timed-out session. Without a stop every peer took its turn. Each peer up to and including the stop took its turn with the session in its old state, WAIT or GO, and its new status is that turn's `TurnStatus` (`PassServed`). Peers after the stop and pending peers are untouched. At most one packet goes to each peer, in increasing order. Only a pass that started in DOWNLOAD reports to the application: INTERRUPT exactly with every peer failed, WAIT with no picture to keep. A move from DOWNLOAD to WAIT_UPLOAD records one frame per peer. |
| Session.Connexion.ServePeers | jni/Sources/Wifi/Connexion.cpp:376-587 | The loop of the pass: peers are served in order until one ends it, and without a stop every peer took its turn. No expired peer is passed over. Each peer up to and including the stop has as new status the `TurnStatus` of its old state, its input and the session state at its turn (the old state, WAIT or GO). Pending peers and peers after the stop are unchanged. The session status stays, or becomes WAIT, GO or TIMEOUT. |
| Session.Connexion.TakeTurn | jni/Sources/Wifi/Connexion.cpp:377-586 | One peer's turn as the loop uses it: at most one packet, to this peer; a stop means the peer failed or the session timed out; an expired peer stops the pass; a pending peer is unchanged; the new status is `TurnStatus` of the peer's old state. |
| Session.Connexion.EndPass | jni/Sources/Wifi/Connexion.cpp:589-621 | After the loop: outside DOWNLOAD nothing is reported and the status and index stay. In DOWNLOAD the completion check reports INTERRUPT only with every peer failed, WAIT only with recording ready and no idle peer, and a move to WAIT_UPLOAD records one frame per peer. |
| Session.ServedStatus | jni/Sources/Wifi/Connexion.cpp:389-584 | The status the switch leaves on a peer is idle, error, KEEPALIVE, GET, DOWNLOAD or UPLOAD. A reply or verify status ends idle or in error. Only an idle peer whose keep-alive was sent goes to KEEPALIVE. An unknown status ends in error. |
| Session.TurnStatus | jni/Sources/Wifi/Connexion.cpp:377-586 | A waiting peer (neither idle nor failed) past 3 s ends in error. Otherwise the peer keeps its status or gets one the switch can leave. |
| Session.Connexion.ClientReceive | jni/Sources/Wifi/Connexion.cpp:723-795 | A finished upload returns the session to WAIT. An error or a timeout gives ERROR and CONN_TIMEOUT. During an upload a packet is reported as such. Otherwise a complete message is classified, and one no request accepts gives ERROR and CONN_TIMEOUT. |
| Session.Connexion.AssignSecurity | jni/Sources/Wifi/Connexion.cpp:212-225 | The stored token becomes the token the received message carries. |
| Session.Connexion.ClientSend | jni/Sources/Wifi/Connexion.cpp:357-369 | The client signs with its stored token. Delivery refreshes its timeout; failure sets CONN_TIMEOUT. |
| Session.Connexion.ReplyUpload | jni/Sources/Wifi/Connexion.cpp:317-330 | The upload request frame carries the packet index, which the server decodes back for every `short`. Delivery and failure are as in ClientSend. |
| Session.Connexion.IsConnected | jni/Sources/Wifi/Connexion.cpp:132-173 | The round robin. It walks the cached addresses from the end, tries each one on the current port, and moves to the next port after address 0. Past port 1044 it resets and rescans. A success makes a fresh current client and the session VERIFY. |
| Pictures.DigitCount | jni/Sources/Global.h:42 | `DIGIT_COUNT`: 1 exactly below 10, 3 exactly from 100, else 2. |
| Pictures.GetFileName | jni/Sources/Video/Picture.cpp:84-97 | The name starts with the folder and ends with the extension, with the fixed "/MCAM" and "/img_" parts and exactly three index characters between them. |
| Pictures.PaddedIndex | jni/Sources/Video/Picture.cpp:84-97 | The zero padding plus the index rendering is exactly three digits. |
| Pictures.FileNameIndex | jni/Sources/Video/Picture.cpp:84-97 | The name is folder + "/MCAM/img_" + the three-digit index + extension, and the digits read back as the index. |
| Pictures.ThreeDigitsValue | jni/Sources/Video/Picture.cpp:84-97 | The three digits read back as the index. |
| Pictures.FileNamesDistinct | jni/Sources/Video/Picture.cpp:84-97 | Two different indexes never share a file name. |
| Pictures.FillEndAsWritten | jni/Sources/Video/Picture.cpp:199-202 | As written, the copy ends rcvLength-5 bytes past the cursor, before any check. |
| Pictures.FillOverrunAsWritten | jni/Sources/Video/Picture.cpp:199-207 | A valid 20-byte chunk into a 10-byte picture is copied past the buffer's end before the size check fails. |
| Pictures.Picture.constructor | jni/Sources/Video/Picture.cpp:47-57 | Status FILL, remaining = size, cursor at the buffer start. |
| Pictures.Picture.GetSize | jni/Sources/Video/Picture.h:114 | The remaining size as the unsigned 32-bit value, equal to it when non-negative. |
| Pictures.Picture.IsDone | jni/Sources/Video/Picture.h:96 | The picture is saved; a saved picture is neither failed nor still filling. |
| Pictures.Picture.IsError | jni/Sources/Video/Picture.h:97 | The picture failed; a failed picture is neither saved nor still filling. |
| Pictures.Picture.SetFolder | jni/Sources/Video/Picture.h:95 | Sets the folder. |
| Pictures.Picture.Fill | jni/Sources/Video/Picture.cpp:176-210 | A bad checksum or token gives -1 and changes nothing. Otherwise the cursor moves and the remaining size shrinks by the payload length. Below 0: ERROR and -1. At 0: 0. Else 1. The bytes are copied at the cursor only when they fit. |
| Pictures.Picture.Retry | jni/Sources/Video/Picture.h:118-126 | From ERROR with size > 0: FILL with remaining = size; the cursor is not rewound. |
| Pictures.Picture.Save | jni/Sources/Video/Picture.cpp:375-391 | Stores the bytes up to the cursor under index client+1. Ends OK when written, else ERROR, so it is done exactly when written. |
| Pictures.CopyAt | jni/Sources/Video/Picture.cpp:199 | The `memcpy`: the array gets the source at the offset and keeps every other byte. |
| Media.FpsFactor | jni/Sources/Video/Video.h:27 | 4 exactly when fps > 13, 2 exactly when fps ≤ 8, else 3. |
| Media.FpsFactorMonotone | jni/Sources/Video/Video.h:27 | A faster frame rate never gives a smaller factor. |
| Media.CRem | jni/Sources/Video/Video.cpp:439 | C's `%`: the remainder has the dividend's sign and the truncated quotient times the divisor plus it gives the dividend. |
| Media.AlignDown | jni/Sources/Video/Video.cpp:439-442 | The loop ends on the largest multiple of the block size not above its start. |
| Media.CountStatusZero | jni/Sources/Video/Video.h:122-132 | No frame has a status exactly when its count is zero. |
| Media.CountStatusPush | jni/Sources/Video/Video.h:60-69 | Appending a frame raises the count by one exactly when it has the status. |
| Media.Recorder.GetDoneCount | jni/Sources/Video/Video.h:60-69 | The number of DONE frames in the chosen list, at most its size. |
| Media.Recorder.constructor | jni/Sources/Video/Video.cpp:57-64 | Both frame lists start empty. |
| Media.Recorder.IsConverted | jni/Sources/Video/Video.h:122-132 | True exactly when no frame of either list is in PROGRESS. |
| Media.Recorder.Add | jni/Sources/Video/Video.cpp:71-120 | A failed save returns 0 and adds nothing. Otherwise one PROGRESS frame is appended to the chosen list, with index = list size (+700 after the shot). The return is 0 once the list is full, else the time. |
| Media.FirstOf | jni/Sources/Video/Video.h:274-281 | The picture of the first entry of that client, or none exactly when no entry has it. |
| Media.VideoFileName | jni/Sources/Video/Video.cpp:600-626 | The name starts with "/MCAM_" and ends with ".webm" for an Android client, ".mov" otherwise. |
| Media.VideoFileNameLayout | jni/Sources/Video/Video.cpp:597-626 | "/MCAM_" + YYYY + MM + DD + "_" + HH + MM + SS (two-digit fields zero-padded) + ".webm" or ".mov": 26 or 25 characters. |
| Media.VideoFillEndAsWritten | jni/Sources/Video/Video.cpp:560-576 | As written, the copy ends (rcvLength-5) mod 2^16 bytes past the received length, before any check. |
| Media.VideoFillOverrunAsWritten | jni/Sources/Video/Video.cpp:573-582 | A valid 20-byte chunk into a 10-byte buffer is copied past its end before the length check undoes the count. |
| Media.Video.GetCount | jni/Sources/Video/Video.h:208-216 | One plus the number of saved pictures, as a byte. |
| Media.Video.Get | jni/Sources/Video/Video.h:274-281 | None exactly when no entry is from the client; otherwise the picture of the first entry from it. |
| Media.Video.IsFilled | jni/Sources/Video/Video.h:286 | The received length has reached the buffer length, so the whole active buffer has arrived. |
| Media.Video.constructor | jni/Sources/Video/Video.cpp:203-220 | No buffer, nothing received, fps 0, no WebM or MOV buffer, no pictures, landscape, and the `miOS` flag (kept as `android`) false. The picture folder is the one given. |
| Media.Video.Add | jni/Sources/Video/Video.cpp:285-296 | Appends (client, picture) and gives the picture the picture folder. |
| Media.Video.Prepare | jni/Sources/Video/Video.cpp:541-552 | A fresh buffer of the size, with the fps and nothing received. |
| Media.Video.Fill | jni/Sources/Video/Video.cpp:553-584 | A bad checksum, or an append past the buffer length, gives -1 with nothing changed; the token is not checked. Otherwise the payload is appended after the received bytes, and the result is 0 exactly when the buffer is full, else 1. |
| Media.Video.Select | jni/Sources/Video/Video.cpp:894-899 | The active buffer and length become the WebM pair for Android, else the MOV pair. |
| Media.Video.Store | jni/Sources/Video/Video.cpp:586-626 | A full buffer is named after the date, with the client's extension. |
| PixelOps.Rotated | jni/Sources/Video/Picture.cpp:237-252 | The rotated picture has the picture's length. |
| PixelOps.RotationRoundTrip | jni/Sources/Video/Picture.cpp:212-253 | Rotating to portrait and back restores every byte. |
| PixelOps.Orientation | jni/Sources/Video/Picture.cpp:212-253 | The loop leaves the buffer equal to the rotation of its old contents: colour bytes of pixel (x·H+y) come from pixel ((H-1-y)·W+x), the inverse for portrait to landscape, and the fourth byte stays. |
| PixelOps.MoveInRange | jni/Sources/Video/Picture.cpp:240-249 | Both ends of every move lie in the picture. Each direction's source is the other direction's destination. |
| PixelOps.ProgressStep | jni/Sources/Video/Picture.cpp:247-249 | The three writes of one move advance the rotation by exactly one pixel. |
| PixelOps.MoveStep | jni/Sources/Video/Picture.cpp:240-249 | One move keeps the loop invariant for the next (x, y). |
| PixelOps.SwapRedBlue | jni/Sources/Video/Picture.cpp:441-449 | The converted picture has the same length. |
| PixelOps.SwapRedBlueInvolution | jni/Sources/Video/Picture.cpp:441-449 | The swap undoes itself. |
| PixelOps.BgraToRgba | jni/Sources/Video/Picture.cpp:441-449 | A new buffer where bytes 0 and 2 of each pixel trade places and bytes 1 and 3 stay. |
| PixelOps.SwapPixel | jni/Sources/Video/Picture.cpp:445-448 | Extends the converted prefix by one pixel. |
| PixelOps.TexelIndexes | jni/Sources/Video/Picture.cpp:589-599 | Every RGB byte has a texel inside the texture, and it reads back to that byte. |
| PixelOps.RowLag | jni/Sources/Video/Picture.cpp:593-598 | Byte i of row y lands at i + y·(1024-640)·3: the loop's running `xLag`. |
| PixelOps.PaddedTexels | jni/Sources/Video/Picture.cpp:589-599 | Reading the camera texels out of the padded texture gives the RGB picture. |
| PixelOps.PadToTexture | jni/Sources/Video/Picture.cpp:588-600 | The loop leaves the texture with every RGB byte at its texel and every padding byte unchanged. |
| PixelOps.TexProgressDone | jni/Sources/Video/Picture.cpp:589-599 | Once every RGB byte is copied, the texture is the padded picture. |
| Share.Insert | jni/Sources/Share/Share.cpp:529-534 | `std::string::insert`: the text goes in at the position and the rest shifts. |
| Share.ExtractDate | jni/Sources/Share/Share.cpp:523-539 | The result is 19 characters for either extension. |
| Share.ReorderedLayout | jni/Sources/Share/Share.cpp:528-534 | The insertions and the erasure move the name's fields to MM/DD/YYYY HH:MM:SS, followed by the rest of the name from its 20th character. |
| Share.ExtractDateLayout | jni/Sources/Share/Share.cpp:528-535 | The result is MM/DD/YYYY HH:MM:SS taken from the name's fields. |
| Share.ExtractDateRoundTrip | jni/Sources/Share/Share.cpp:523-539 | A stored video's name reads back as the date and time it was stored, in 19 characters. |
| Share.ReplaceAll | jni/Sources/Share/Share.cpp:487-496 | `std::replace`: each occurrence of the character becomes the replacement; nothing else changes. |
| Share.SubstitutedIsGlyph | jni/Sources/Share/Share.cpp:487-496 | The ten replacements in their order amount to one lookup per character. For example ']' ends as '}' and '[' as '{'. |
| Share.WrappedAppend | jni/Sources/Share/Share.cpp:504-505 | Wrapping a prefix leaves what follows it untouched. |
| Share.WrapStep | jni/Sources/Share/Share.cpp:504-505 | Inserting the newline at the highest remaining multiple of 20 and wrapping what is left below it gives the full wrapping. |
| Share.WrapUrl | jni/Sources/Share/Share.cpp:504-507 | The loop inserts a newline at each original multiple of 20, from the end, and drops a trailing newline. An empty URL is the `std::out_of_range` that `url.at(url.size() - 1)` throws, returned as no result. |
| Share.UnwrappedAppend | jni/Sources/Share/Share.cpp:504-507 | Removing newlines distributes over concatenation. |
| Share.WrappedUnwraps | jni/Sources/Share/Share.cpp:504-505 | Removing the inserted newlines gives back the text. |
| Share.WrapUrlUnwraps | jni/Sources/Share/Share.cpp:504-507 | Only the empty URL fails. Removing the newlines from any other wrapped URL gives back the substituted URL. |
| Share.BirthdayText | jni/Sources/Share/Share.cpp:466-470 | A birthday of at most 9 characters gives the placeholder; a longer one starts with its month's three-letter abbreviation and a space. |
| Share.BirthdayTextReadsBack | jni/Sources/Share/Share.cpp:466-476 | A birthday longer than 9 characters becomes the month's abbreviation, a space, and a day that reads back as the day; otherwise the placeholder. |
| Search.Split | jni/Sources/Wifi/SearchIP.cpp:60-61 | A split has at least one piece. |
| Search.SplitJoin | jni/Sources/Wifi/SearchIP.cpp:60-61 | The pieces joined with the separator give back the scan text, and no piece holds the separator. |
| Search.SearchIP.constructor | jni/Sources/Wifi/SearchIP.cpp:13-16 | Empty list, not running. |
| Search.SearchIP.GetCount | jni/Sources/Wifi/SearchIP.h:35 | The list size as a byte: below 256, and the size itself when it fits. |
| Search.SearchIP.IsRunning | jni/Sources/Wifi/SearchIP.h:33 | True exactly while a scan runs: `Start` sets it, `Scan` clears it, and `GetIP` needs it false. |
| Search.SearchIP.GetIP | jni/Sources/Wifi/SearchIP.h:36-44 | Once no scan runs and for a valid index, an address of the list. |
| Search.SearchIP.Start | jni/Sources/Wifi/SearchIP.cpp:36-48 | From not running: running. A connected device keeps its list; otherwise the list is emptied. |
| Search.SearchIP.Scan | jni/Sources/Wifi/SearchIP.cpp:50-77 | A cached list is kept. Otherwise a non-empty result is split into the list, and it joins back to the result; an empty result leaves the list empty. Running ends false. |
| Level.MainStatusNonZero | jni/Sources/Level/MatrixLevel.h:85-101 | Every main status is a non-zero byte. |
| Level.WaitStatus | jni/Sources/Level/MatrixLevel.h:152-178 | No connection: unchanged. A server at ORIENTATION/READY/GO: unchanged. Any other server goes to WAIT exactly when the session is NEW, VERIFY or ORIENTATION. A client changes only on CONN_TIMEOUT, and then to TIMEOUT. Any other session status leaves the main status unchanged. |
| Level.TimeOutReported | jni/Sources/Level/MatrixLevel.h:152-178 | A timed-out session is always reported, except by a server already counting down. |
| Level.WaitStatusIdempotent | jni/Sources/Level/MatrixLevel.h:152-178 | Checking twice against the same session status changes nothing more. |
| Level.MatrixLevel.CheckWait | jni/Sources/Level/MatrixLevel.h:152-178 | The main status becomes the wait status of the old one. |
| Level.MatrixLevel.constructor | jni/Sources/Level/MatrixLevel.cpp:31 | The main status starts at MCAM_NONE. |
| Text.NumToStrRoundTrip | jni/Sources/Video/Video.cpp:605-621 | The decimal rendering writes only digits, as many as the number has, and reads back as the number. |
| Text.Pad2Digits | jni/Sources/Video/Video.cpp:606-621 | A zero-padded two-digit field is the tens digit and the units digit. |
| Text.FourDigits | jni/Sources/Video/Video.cpp:605 | A four-digit year is rendered as its four digits. |
| Glyphs.Pow10 | jni/Sources/Frame/Count2D.cpp:97-100 | The running `modulo` of the digit loop is a positive power of ten. |
| Glyphs.DigitAt | jni/Sources/Frame/Count2D.cpp:97-100 | A decimal digit is below 10. |
| Glyphs.Digits | jni/Sources/Frame/Count2D.cpp:97-113 | Slot i holds digit count-1-i: most significant first, units in the last slot. |
| Glyphs.DigitsRoundTrip | jni/Sources/Frame/Count2D.cpp:97-113 | The slots read back as decimal give the byte shown, and with more than one slot the leading digit is not zero. |
| Glyphs.DigitStep | jni/Sources/Frame/Count2D.cpp:99-100 | One step of the loop: `(n % 10^(k+1) - digit k-1) / 10^k` is digit k of a byte. |
| Glyphs.ShowDigits | jni/Sources/Frame/Count2D.cpp:97-113 | The loop, running from the last slot down with `no` and `modulo`, leaves slot i holding digit i of the number, most significant first. |
| Glyphs.DestroySlots | jni/Sources/Frame/Count2D.cpp:64-72 | Frees exactly `digitCount` slots, and the array only when there was a slot. |
| Glyphs.Count2D.Start | jni/Sources/Frame/Count2D.cpp:36-43 | Exactly one slot, showing 1. |
| Glyphs.Count2D.constructor | jni/Sources/Frame/Count2D.cpp:8-13 | No digit slot yet. |
| Glyphs.Count2D.Destroy | jni/Sources/Frame/Count2D.cpp:64-72 | Frees exactly `digitCount` slots, and the array only when `digitCount` > 0. |
| Glyphs.Count2D.SetCount | jni/Sources/Frame/Count2D.cpp:74-114 | The slots are rebuilt only when the digit count changes. Afterwards there are `DIGIT_COUNT(count)` slots showing the count's digits, most significant first, and they read back as the count. |
| Glyphs.Frame2D.Start | jni/Sources/Frame/Frame2D.cpp:39-48 | Exactly one slot, showing 1. |
| Glyphs.Frame2D.constructor | jni/Sources/Frame/Frame2D.cpp:10-15 | No digit slot yet. |
| Glyphs.Frame2D.Destroy | jni/Sources/Frame/Frame2D.cpp:62-70 | Frees exactly `digitCount` slots, and the array only when `digitCount` > 0. |
| Glyphs.Frame2D.SetFrameNo | jni/Sources/Frame/Frame2D.cpp:72-111 | The slots are rebuilt only when the digit count changes. Afterwards there are `DIGIT_COUNT(frameNo)` slots showing its digits, most significant first, and they read back as the frame number. |

## Left out

- Threads, mutexes, `try_lock` and abort/join. Each loop body is one atomic step: `Peer.ReceiveStep`, `Connexion.ServerReceive` (its loop `ServePeers`, one peer per `ServePeer`), `DropPeer`, `ReVerify`, `AcceptPeer`, `CloseAll`, `GoWait`, `SearchIP.Scan`. A `launch` that loses the `try_lock` is not modelled.
- Socket calls, `Internet::getNetworkIP` and `errno` are inputs. A send is a delivered/not-delivered flag, a read is a `ReadOutcome`, and a scan is its result string. Socket closing and the socket's own client count are not modelled.
- `time(NULL)`, `localtime` and `std::rand()` are parameters: `now`, a `Date`, and the tokens.
- The WAIT_UPLOAD and UPLOAD completion phases of the server receive depend on the media pipelines' statuses. Only the DOWNLOAD phase completion (`CheckDownload`) is modelled.
- Session.Connexion.ServeGetReply: the `Video::add` of the new picture is not modelled, because it hands the picture to the media pipeline.
- Session.Connexion.ServeDownload: the picture's fill result and save failure are inputs, because the picture lives in the video's list.
- Session.Connexion.ClientReceive: the video's fill state and status are inputs. The main-status side effects of a finished upload are not modelled.
- The client thread's handling of each request is not modelled, except the upload reply (`ReplyUpload`), the token (`AssignSecurity`) and sends (`ClientSend`). Setting rank, orientation and OS from a verify request is shown only through `VerifyRequestRead`.
- The `ClientMgr` setters other than `setTryCount` and `reset` are direct field assignments; an assignment changes only its own field.
- Peers.Peer.ReceiveStep: requires the appended bytes to fit the 65536-byte buffer. The source does not check this, and writing past the buffer is undefined behaviour.
- `LIBENG_NO_DATA` is taken as -1; the engine library that defines it is not part of this model. The digit loop's stop value and the -1 returns of `fill` rely on it.
- `numToStr`, `strToNum` and `numToWStr` are taken to be plain decimal rendering and parsing; the engine library is not part of this model.
- The GStreamer pipelines, all file I/O (`store`, `open`, `rename`, `copyFile`, `loadOGG`, the `mergeWAV` copy) and `Video::save`'s JPEG renaming are external tools and filesystem work.
- Floating-point code is not modelled: the fps and byte-rate arithmetic feeding `mergeWAV`, texture coordinates, scales and translations, and frame pacing. `AlignDown` takes its start offset as given.
- Glyphs: a slot is modelled by the digit it shows, not by its texture coordinates or position.
- Search.SearchIP.GetIP: states that the address is in the list, not which position it comes from.
- Share.BirthdayText: requires two-digit month and day fields and a month from 01 to 12. For any other month the source indexes the month table out of bounds (undefined behaviour), which the model cannot give a value.
- Level.MatrixLevel.constructor: takes the frame number as a parameter. The source starts it at 0 and sets it when the role is chosen, which is not part of this model.
- Media.Video.constructor: takes the picture folder as a parameter. The source asks the platform's storage for it.
- Media.Recorder.GetDoneCount: the count is stated only for lists shorter than 32768, where the `short` result does not wrap.
- Media.Video.GetCount: the count is stated only for fewer than 255 pictures, where the byte result does not wrap.
- The orientation and texture-padding loops are modelled for the 640×480 camera and the 1024-texel texture of this build.

## Findings

| source | as written | input that shows it | evidently intended | confidence | as-written member | corrected member |
|---|---|---|---|---|---|---|
| jni/Sources/Wifi/Connexion.cpp:412-413 | The version check compares 4 bytes from offset `sizeof(CMD_VERIFY)` = 12. The client wrote its version at offset 11, so the check compares its ".00" + status with the server's "1.00". The session model (`Session.Connexion.ServeVerifyReply`) runs this test as written. | A client of version "2.00" sends "2.00" at bytes 11-14. Byte 12 is '.', below '1', so the check passes. | Compare the 4 version bytes at offset 11 and refuse a newer client. The corrected test is proved but not used by the session model, which follows the code. | not executed | Protocol.NewerVersionPassesAsWritten | Protocol.VersionRefusedExactly |
| jni/Sources/Video/Picture.cpp:199-207 | `memcpy` of the payload at the cursor happens before the check that the remaining size has not gone negative. | A picture of 10 bytes receiving a valid 20-byte chunk: 20 bytes are written into a 10-byte buffer, then ERROR is returned. | Check that the chunk fits before copying it. | not executed | Pictures.FillOverrunAsWritten | Pictures.Picture.Fill |
| jni/Sources/Video/Video.cpp:573-582 | `memcpy` of the chunk after the received bytes happens before the check that the new length fits the buffer. | A 10-byte video buffer receiving a valid 20-byte chunk: 20 bytes are written, then the length is rolled back. | Check that the chunk fits before copying it. | not executed | Media.VideoFillOverrunAsWritten | Media.Video.Fill |

# Verification of the game server's protocol, codecs and registries

A Dafny model of the algorithmic core of a game server and its tools, and proofs about it.

- **The wire.** `Crypt` is a changed RC5/RC6: RC6 on 16-byte blocks, RC5 with 32-bit words on what is left, RC5 with
  16-bit words on what is left of that, and 0 to 3 bytes that pass through. Packets pack two bit-field headers and
  data, encrypt the header with key 0 and the body by type; `onRead` cuts the byte stream back into frames. The main
  theorem, `WireTheorem.WireDelivers`, goes from any list of packets over ciphertext and any cut of the bytes into
  reads back to the same list. `PacketSplitter.SplitArrives` carries it on to lists of items sent in several packets.
- **One-time-password support.** SHA-1 with its rotate-by-two message schedule equals FIPS 180-4, HMAC equals RFC 2104,
  and Base32 decoding undoes encoding as in section 6 of RFC 4648.
- **Files.** The INI printer and parser and the CDB table codec, each with the exact condition under which reading undoes
  writing; the in-place patch of a CDB file, which agrees with rewriting it exactly for indices from 0 on.
- **State machines.** The Cast room registry, the capsule machine, clan parties, the two-phase login and the session-id
  allocator, each with invariants over every run.

## How the model is built

Each file is one module. Code that changes things in place is modelled by classes and methods with the source's fields
and loops; each method is proved equal to a specification function, and the properties are lemmas about that function.

- `Words` models machine words as naturals below a power of two: an `|` of disjoint bit fields is an addition, a shift a
  multiplication or division, and every addition wraps explicitly. `Sha1` uses bit-vectors. A rotation by 0 is the
  identity; the C macro would shift by the full width there.
- `Cipher` holds the block functions and the cascade, `Crypt` the key schedules and the in-place routines. The six
  encryption and decryption routines share one block loop, `Crypt.Crypt.Blocks`. The key bytes of `UserKey` are signed
  characters, as in the source.
- `Headers`, `Packets`, `Framing`, `Session` and `WireTheorem` model the headers, the packet object, the framing
  function, the session object, and the path from sender to receiver.
- Sockets, database, clock and randomness are parameters: chunks of bytes that were read, a list of bytes written, the
  token of the moment, the fault a statement meets, the item drawn.
- `Collections` holds small notions about sequences.
- Besides what the operations keep and undo, every layout and answer is stated on its own, in literal terms: the bytes of
  headers, packets, files and tables by position, the bits of rotations and Base32 characters, the effect of each
  registry operation on each field, and each reply exactly when it is given.

Where code and expectation differ, the code is modelled, a failing input shown, and the exact condition proved:

- Framing is independent of the cuts into reads exactly when no frame that can be delivered makes its handler clear the
  receive buffer (`Framing.CutsAgreeIff`). Main-server and IPC sessions always keep it (`WireTheorem.KeepingCutsAgree`);
  Auth and Cast sessions clear it on an order without a callback, so for them every order needs one
  (`WireTheorem.AuthCutsIff`, `WireTheorem.CastCutsIff`; `WireTheorem.AuthCutsDiffer` sends such a packet twice).
- `onRead` ends on every input exactly when the handler of an empty frame clears the buffer (`WireTheorem.HangsIff`). Four
  bytes that announce an empty frame keep a main-server or IPC session in the loop (`WireTheorem.KeepingSessionsHang`); an
  Auth or Cast session only with a callback for order 0. `Framing.HangsAtIff` says which buffers do it, and
  `WireTheorem.KeepingHangsIff` which streams: a main-server session ends on every stream whose frames announce at least
  one byte each. The model's `OnRead` covers every input and reports this case.
- A handler may close the socket, but the loop does not ask: the frames behind in the same read are delivered, those of
  later reads are not. So the cuts do not matter to a stream exactly when no handler closes while another frame is still
  to come (`Framing.StreamAgreesIff`, `WireTheorem.KeepingStreamIff`, `WireTheorem.WireDeliversIff`).
- The RC5 key schedule steps through its 26 words by 13, so it mixes only words 0 and 13; the other 24 are the same for
  every key (`Crypt.Rc5TableIs`). The RC6 schedule mixes all 84 (`Crypt.Rc6TableIs`).
- An unencrypted packet with a body of more than 1450 bytes arrives as its bare header (`Packets.PlainDelivered`).
- A text that ends with the escape character swallows a comment put behind it (`Ini.CommentCutIff`).
- `updateCdbEntryFast` with a negative index changes the entry counted from the end in memory, but a place in front of
  the entries in the file (`Cdb.FastIsRewriteIff`).
- `removeEntriesFrom` removes other entries than it was asked for, or fails midway, when an index is given twice, when two
  count from the end, or when one counting from the end stands for an entry before another (`Cdb.RemoveEntriesIff`,
  `Cdb.TwoFromTheEnd`).
- `addRoom` of the Cast registry leaves a player who is already in a room listed there; over every run in which he does
  not join it again that room never closes (`CastRooms.CreateMutualIff`, `CastRooms.StaleForever`).
- The capsule machine charges price times paid spins in every run exactly when the 32-bit product does not overflow
  (`CapsuleSpin.ExactIff`, `CapsuleSpin.OverflowReachable`), and accounts for every lucky point exactly when a capsule
  gives at most 1048 (`CapsuleSpin.PointsAccountedIff`). Its check against two lucky spins in a row is never taken.
- A player may join a clan party that he is in; the handler does not look. Sessions stay distinct exactly when nobody
  does (`ClanRooms.RunGoodIff`). The cached leader survives some such runs: it is true in every state exactly when no
  leader leaves with his own second entry as successor and a different entry moving up (`ClanRooms.RunCachedIff`,
  `ClanRooms.HandleAllCachedIff`, `ClanRooms.RejoinGoesStale`). The player count, the limit of four parties and their
  distinct numbers hold without that.
- Nor does the creation handler look whether the host sits in a party: a session is in at most one party over a run
  exactly when nobody who is in one opens or joins another (`ClanRooms.HandleAllSoloIff`, `ClanRooms.OpensTwice`).
- Base32 decoding accepts texts that no bytes are encoded as: padding inside the text, unused bits that are set
  (`Base32.CanonicalIff`, `Base32.LooseText`).
- The 4-bit player count of a party follows the list exactly while there are fewer than 16 players
  (`ClanRooms.AddPlayerIff`); the join handler's full check keeps it so (`ClanRooms.RunCounted`).

The option field of the packets of a split list is their item count exactly when the list or a full packet has fewer than
256 items (`PacketSplitter.OptionCountsIff`). Every record the server sends is larger than 5 bytes, so the condition is met
wherever it matters (`PacketSplitter.RecordsCount`).

## Model

| member | source | states |
|---|---|---|
| WireTheorem.WireDelivers | Common/src/Network/Session.cpp:87-139 | For a session that keeps its receive buffer, as main-server sessions do: for every list of packets of total size 8 to 1449, every shared user key and every way of cutting the concatenated outgoing bytes into reads, each frame reads back as its packet (as its bare header for types above 4), and the receiver delivers one frame per packet, in order, keeps nothing back and stays open; when the handler of a delivered frame closes the socket, it delivers the frames up to one at or behind that. |
| WireTheorem.WireDeliversIff | Common/src/Network/Session.cpp:60-84 | Every cut delivers the whole list if and only if no handler but that of the last packet closes the socket. |
| WireTheorem.AuthDelivers | AuthServer/src/AuthSession.cpp:19-39 | The same delivery for Auth sessions, when every order sent has a callback. |
| WireTheorem.PlainWireDelivers | Common/include/Network/Packet.h:203-224 | The same for unencrypted connections, for every type, with handlers that keep the receive buffer. |
| WireTheorem.GreetingCarriesKey | Common/src/Network/Session.cpp:197-216 | Whatever user key the client holds, it reads the server's key out of the first four data bytes of the greeting with order 401, and its session id, extra, option and the other four bytes as sent. |
| Words.XorCancels | Common/src/Cryptography/Crypt.cpp:84-85 | Exclusive-or with the same word twice restores the value and stays within the width. |
| Words.RotationsCancel | Common/include/Cryptography/Crypt.h:8-11 | Left and right rotation by the same amount undo each other in both orders, at every width and for every amount. |
| Words.XorBits | Common/src/Cryptography/Crypt.cpp:84-85 | Bit i of the exclusive or is the sum modulo 2 of the bits i, at every width. |
| Words.RotationMoves | Common/include/Cryptography/Crypt.h:8-11 | Rotating left by any amount n moves bit i of a w-bit word to place (i + n) % w. |
| Words.ByteAt | Common/include/Network/Packet.h:232-234 | Byte i of a word in memory is the word divided by 2^(8 i) modulo 256: the low byte comes first. |
| Words.FourBytes | Common/include/Network/Packet.h:232-234 | The bytes a, b, c, d are the word a + 0x100 b + 0x10000 c + 0x1000000 d, and that word is stored as them. |
| Cipher.Rc5PairCancels | Common/src/Cryptography/Crypt.cpp:112-141 | The RC5 block decryption and encryption undo each other in both orders, for 16- and 32-bit words and every key table. |
| Cipher.Rc6QuadDecrypts | Common/src/Cryptography/Crypt.cpp:180-202 | RC6 block decryption undoes encryption for every key table and user key. |
| Cipher.Rc6QuadEncrypts | Common/src/Cryptography/Crypt.cpp:150-172 | RC6 block encryption undoes decryption for every key table and user key. |
| Cipher.BlockCancels | Common/src/Cryptography/Crypt.cpp:70-204 | On block bytes each of the three ciphers is undone by its opposite direction. |
| Cipher.CascadeCancels | Common/src/Cryptography/Crypt.cpp:108-204 | For buffers of every length, every key table and user key, decryption undoes encryption and encryption undoes decryption, through the whole cascade of RC6, RC5-64 and RC5-32. |
| Cipher.TailUntouched | Common/src/Cryptography/Crypt.cpp:74-75 | The last size % 4 bytes pass through every mode unchanged and do not affect the others. |
| Cipher.Rc5IsLadder | Common/src/Cryptography/Crypt.cpp:114-122 | At both word widths RC5 encryption is one recurrence over the 26 round keys, each new word made of the two before it; its last two words, masked with the user key, are the result. |
| Cipher.Rc6IsBraid | Common/src/Cryptography/Crypt.cpp:152-171 | RC6 encryption is 40 steps of a recurrence on two words over 80 round keys in order, with keys 0 and 1 added before and 82 and 83 behind, and the user key over all four words. |
| Cipher.QuadraticMoves | Common/src/Cryptography/Crypt.cpp:157-158 | Bit i of x (2x + 1) comes to place i + 5, around the end of the word, in the mixing function of RC6. |
| Cipher.Rc5BlockIs | Common/src/Cryptography/Crypt.cpp:75-123 | Which bytes of an RC5 block are which word on the way in and out, in both widths. |
| Cipher.Rc6BlockIs | Common/src/Cryptography/Crypt.cpp:150-172 | The same for the four words of an RC6 block. |
| Cipher.RemainderIs | Common/src/Cryptography/Crypt.cpp:108-174 | Behind the last 16-byte block at most one 8-byte and then one 4-byte RC5 block is ciphered, and the last 0 to 3 bytes pass. |
| Crypt.FillForgets | Common/src/Cryptography/Crypt.cpp:22-26 | Four shifts by 8 push out whatever a key word held before: the loaded word depends on key bytes and user key alone. |
| Crypt.KeyWordIs | Common/src/Cryptography/Crypt.cpp:22-26 | Each key word in closed form: its four key bytes, each with one signed byte of the user key added, from the high byte down, modulo 2^32. |
| Crypt.ScheduleIs | Common/src/Cryptography/Crypt.cpp:29-33 | For every stride, every place of the table that the index comes to ends with the word of its last visit, as a recurrence over the words and key words before, and every other place keeps what it held. |
| Crypt.Rc5TableIs | Common/src/Cryptography/Crypt.cpp:27-33 | For every user key the RC5 words but 0 and 13 are 0x5163 + k 0x79b9 modulo 2^32, whatever the key; words 0 and 13 are the 77th and 78th words of the mixing recurrence. |
| Crypt.Rc6TableIs | Common/src/Cryptography/Crypt.cpp:53-60 | For every user key RC6 word k is the word of the mixing recurrence at its third visit, step 169 + k. |
| Crypt.Crypt.LoadKey | Common/src/Cryptography/Crypt.cpp:15-26 | From an array with arbitrary contents, the fill loop produces a function of the key bytes and the user key. |
| Crypt.Crypt.MixTables | Common/src/Cryptography/Crypt.cpp:29-33 | The mixing loop over both tables, with step 13 for RC5 and 1 for RC6, computes the schedule from the two tables it starts with. |
| Crypt.Crypt.RC5KeySetup | Common/src/Cryptography/Crypt.cpp:10-34 | The RC5 table becomes the one `Rc5TableIs` gives word by word, a function of the user key alone. |
| Crypt.Crypt.RC6KeySetup | Common/src/Cryptography/Crypt.cpp:36-61 | The RC6 table becomes the one `Rc6TableIs` gives word by word, a function of the user key alone. |
| Crypt.Crypt.KeySetup | Common/src/Cryptography/Crypt.cpp:63-68 | Two objects set up with the same key hold identical tables, those of `Rc5TableIs` and `Rc6TableIs`, whatever they held before. |
| Crypt.Crypt.EncryptPair | Common/src/Cryptography/Crypt.cpp:114-122 | The in-place round loop computes the RC5 block encryption. |
| Crypt.Crypt.DecryptPair | Common/src/Cryptography/Crypt.cpp:133-141 | The in-place round loop computes the RC5 block decryption. |
| Crypt.Crypt.EncryptQuad | Common/src/Cryptography/Crypt.cpp:152-171 | The in-place round loop with its register rotation computes the RC6 block encryption. |
| Crypt.Crypt.DecryptQuad | Common/src/Cryptography/Crypt.cpp:182-201 | The in-place round loop with its register rotation computes the RC6 block decryption. |
| Crypt.Crypt.RC5Encrypt32 | Common/src/Cryptography/Crypt.cpp:70-87 | In place or into a separate buffer, exactly the size bytes at the destination become the cascade's result; everything around them stays. |
| Crypt.Crypt.RC5Decrypt32 | Common/src/Cryptography/Crypt.cpp:89-106 | The same for decryption. |
| Crypt.Crypt.RC5Encrypt64 | Common/src/Cryptography/Crypt.cpp:108-125 | The same for 8-byte blocks, handing the remainder to the 32-bit form. |
| Crypt.Crypt.RC5Decrypt64 | Common/src/Cryptography/Crypt.cpp:127-144 | The same for decryption. |
| Crypt.Crypt.RC6Encrypt128 | Common/src/Cryptography/Crypt.cpp:146-174 | The same for 16-byte blocks, handing the remainder to the 64-bit form. |
| Crypt.Crypt.RC6Decrypt128 | Common/src/Cryptography/Crypt.cpp:176-204 | The same for decryption. |
| Crypt.Crypt.CopyTail | Common/src/Cryptography/Crypt.cpp:74 | The trailing bytes reach the destination whether or not the buffers are the same, and the source bytes stay. |
| Headers.TcpHeaderRoundTrip | Common/src/Protocol/TcpHeader.cpp:8-47 | The four TCP header fields and the header word determine each other in both directions. |
| Headers.CommandHeaderRoundTrip | Common/src/Protocol/CommandHeader.cpp:7-63 | The five command header fields and the header word determine each other in both directions. |
| Headers.TcpLayout | Common/src/Protocol/TcpHeader.cpp:8-47 | The four header bytes one by one as sums of the fields' parts: the session id from the upper half of byte 0 on, the size from bit 2 of byte 2, the type from bit 5 of byte 3. |
| Headers.CommandLayout | Common/src/Protocol/CommandHeader.cpp:7-63 | The four command bytes one by one: mission and the low order bits in byte 0, the rest of the order, extra, option. |
| Headers.HeaderBytesRoundTrip | Common/include/Network/Packet.h:232-234 | Both headers survive being copied into the bytes of `TcpLayout` and `CommandLayout` and back. |
| Packets.WireCancels | Common/include/Network/Packet.h:161-189 | For every encryption type the receiver's header and body decryption undo the sender's encryption. |
| Packets.WireShape | Common/include/Network/Packet.h:226-274 | The bytes on the wire announce their own length in the decrypted header, and header and body are encrypted separately. |
| Packets.HeaderIsBlock | Common/include/Network/Packet.h:239-243 | The header is one RC5 block of 16-bit words under key 0, or in the clear when the cipher is off. |
| Packets.TypeIsCipher | Common/include/Network/Packet.h:245-271 | Types 1 and 2 encrypt the body with RC5, 3 and 4 with RC6; 1 and 3 under key 0, 2 and 4 under the user key; every other type leaves it in the clear. |
| Packets.Delivered | Common/include/Network/Packet.h:148-201 | A correctly sized packet arrives with equal header, command and data whatever the receiving packet held before; the two user keys have to agree only for the two user-key types; types above 4 arrive as a bare header. |
| Packets.ReadBackIff | Common/include/Network/Packet.h:148-201 | With a shared key a correctly sized packet is read back unchanged exactly when its type is at most 4 or it holds nothing beyond its header. |
| Packets.PlainDelivered | Common/include/Network/Packet.h:203-224 | An unencrypted packet arrives unchanged when its body is at most 1450 bytes, and as its bare header when it is longer. |
| Packets.PlainLayout | Common/include/Network/Packet.h:276-288 | The bytes of an unencrypted packet: where session id, size, type, mission, order, extra and option stand in the first eight, as arithmetic on single bytes, and the data behind them. |
| Packets.OnlyAnnounced | Common/include/Network/Packet.h:148-201 | A frame shorter than a header changes nothing, one that announces its header alone only the header, and bytes behind the announced size are ignored. |
| Packets.Packet.SetTcpHeader | Common/include/Network/Packet.h:46-49 | The header gets session, type and size; up to 2039 data bytes the announced size is the true one. |
| Packets.Packet.SetData | Common/include/Network/Packet.h:86-91 | The data is replaced and the size field updated modulo 2048; the other header fields and the command stay. |
| Packets.Packet.GenerateOutgoingPacket | Common/include/Network/Packet.h:226-274 | The buffer filled and encrypted in place holds the packet's wire bytes, those of `PlainLayout` encrypted as `HeaderIsBlock` and `TypeIsCipher` say. |
| Packets.Packet.GeneratePlainPacket | Common/include/Network/Packet.h:276-288 | The buffer holds the eight header bytes, each given as arithmetic on the fields, and then the data. |
| Packets.Packet.ProcessIncomingPacket | Common/include/Network/Packet.h:148-201 | The packet becomes what the frame says, and the frame's own bytes are not changed. |
| Packets.Packet.ProcessPlainPacket | Common/include/Network/Packet.h:203-224 | The packet becomes what the unencrypted frame says. |
| Framing.LeftoverBounded | Common/src/Network/Session.cpp:101-133 | Whatever the peer sent, a connection that stays open holds fewer than 1450 bytes, and no complete frame. |
| Framing.DrainAppend | Common/src/Network/Session.cpp:101-133 | Draining a buffer whose frames are kept, and later its leftover with more bytes, is draining all the bytes at once. |
| Framing.TakenAsOne | Common/src/Network/Session.cpp:60-84 | Whatever the handlers close, the reads taken until then act as one read of their bytes: same frames, status and leftover. |
| Framing.ChunkingIrrelevant | Common/src/Network/Session.cpp:87-139 | Folding reads over any chunks gives the frames and the status of one read of the whole stream, while no handler but that of its last frame closes the socket; the leftover and the bytes unread after a close are together the whole leftover. |
| Framing.FramesDelivered | Common/src/Network/Session.cpp:118-127 | A list of whole frames is delivered as that list, in order, for every cut into reads; when handlers close the socket, up to some frame at or behind the first of theirs. |
| Framing.StreamAgreesIff | Common/src/Network/Session.cpp:60-139 | For every stream of kept frames and all handlers that may close the socket: every cut agrees with one read if and only if no handler closes it while another frame is still to come. |
| Framing.CutsAgreeIff | Common/src/Network/Session.cpp:87-139 | With handlers that do not close the socket, two reads deliver what one read of the same bytes delivers, for every stream, and so does any number of reads, with the same status (a loop without end included) and the same bytes left, if and only if no frame that can be delivered makes its handler clear the buffer. |
| Framing.UnkeptDependsOnCuts | Common/src/Network/Session.cpp:118-127 | A frame whose handler clears the buffer, sent twice: two reads deliver it twice, one read once. |
| Framing.StuckIff | Common/src/Network/Session.cpp:101-133 | Some buffer makes the loop run forever if and only if some header announces no bytes and the handler of the empty frame keeps the buffer. |
| Framing.HangsAtIff | Common/src/Network/Session.cpp:101-133 | A buffer makes the loop run forever if and only if the handler of the empty frame keeps the buffer and non-empty kept frames below 1450 bytes lead from its start exactly to four bytes that announce no bytes. |
| Framing.ClosesAtIff | Common/src/Network/Session.cpp:111-117 | A buffer makes the loop itself close the socket if and only if its frames lead to a header that announces 1450 bytes or more. |
| Framing.FeedHangsIff | Common/src/Network/Session.cpp:79-139 | The same for the whole stream of a connection whose handlers keep the buffer and the socket, however it is cut into reads. |
| WireTheorem.AuthCutsDiffer | AuthServer/src/AuthSession.cpp:25-34 | A packet whose order has no callback, sent twice to an Auth session, arrives twice in two reads and once in one. |
| WireTheorem.AuthCutsIff | AuthServer/src/AuthSession.cpp:19-39 | The cuts do not matter to an Auth session if and only if each of the 1024 orders has a callback and frames that cannot be read as packets are kept. |
| WireTheorem.CastCutsIff | CastServer/src/Network/CastSession.cpp:44-59 | The same condition for a Cast session, whose connection is unencrypted. |
| WireTheorem.KeepingCutsAgree | MainServer/src/Network/MainSession.cpp:48-75 | While no handler closes the socket, the cuts never matter to a main-server session, nor to an IPC session, whatever the stream. |
| WireTheorem.KeepingStreamIff | MainServer/include/Handlers/Room/RoomJoinHandler.h:66-77 | With handlers that close the socket, stream by stream: every cut agrees with one read if and only if none closes it while another frame is still to come. |
| WireTheorem.HangsIff | Common/src/Network/Session.cpp:101-133 | On encrypted and on unencrypted connections some peer can keep the loop running forever if and only if the handler of the empty frame keeps the buffer, and then four bytes do it. |
| WireTheorem.KeepingSessionsHang | Common/src/Network/Session.cpp:161-174 | Four zero bytes keep an IPC session in the loop, and the four bytes that decrypt to a zero header a main-server session. |
| WireTheorem.KeepingHangsIff | Common/src/Network/Session.cpp:101-133 | Exactly the streams that keep a main-server or IPC session in the loop, however they are cut: those whose frames lead to four bytes that announce an empty frame. |
| WireTheorem.SizedStreamEnds | Common/src/Network/Session.cpp:101-133 | On a stream whose frames announce at least one byte each the loop of such a session ends. |
| WireTheorem.AuthHangsIff | AuthServer/src/AuthSession.cpp:19-39 | An Auth session can be kept in the loop if and only if order 0 has a callback. |
| WireTheorem.CastHangsIff | CastServer/src/Network/CastSession.cpp:44-59 | So can a Cast session. |
| Session.Session.ReadSize | Common/src/Network/Session.cpp:103-110 | The size comes from the first four bytes, decrypted with key 0 or copied. |
| Session.Session.Turn | Common/src/Network/Session.cpp:101-133 | One turn, with the socket open or not: frames delivered and still to come, leftover and status stay what they were; if the loop goes on the buffer is shorter; the socket is closed by a size of 1450 or more or by the frame's handler; the one turn that leaves everything as it was but an empty frame delivered is reported. |
| Session.Session.DeliverAll | Common/src/Network/Session.cpp:101-133 | The loop delivers all complete frames of the buffer, whatever the handlers close. |
| Session.Session.OnRead | Common/src/Network/Session.cpp:87-139 | For every buffer and every input a read delivers exactly the complete frames, also those behind one whose handler closes the socket, and keeps the rest; the socket is closed exactly after an announced size of 1450 or more or by such a handler. It says when the source's loop would deliver an empty frame without end, which is exactly when that frame's handler keeps the buffer and the frames before lead to such an announcement; otherwise an open socket is left with fewer than 1450 bytes. |
| Session.Session.ReadAll | Common/src/Network/Session.cpp:60-84 | A whole connection delivers what the framing of its reads says and reads nothing once the socket is closed, by a size or by a handler, or once the loop runs forever. |
| Session.Session.AsyncWrite | Common/include/Network/Session.h:138-161 | An open socket gets the packet's wire bytes under the session's key; a closed one gets nothing. |
| Session.Session.SendConnectionAck | Common/src/Network/Session.cpp:197-216 | The drawn key becomes the session's user key and goes out in an unencrypted body. |
| PacketSplitter.SplitTiles | MainServer/include/Network/MainSession.h:81-96 | The payloads, in order, are the bytes of all items. |
| PacketSplitter.SplitCount | MainServer/include/Network/MainSession.h:83 | The number of packets is the number of items divided by the items per packet, rounded up. |
| PacketSplitter.SplitStamped | MainServer/include/Network/MainSession.h:86-95 | Every packet is non-empty, has at most 1432 data bytes and announces its size; only the first has the first packet's extra; session, type, order and mission stay. |
| PacketSplitter.SplitFilled | MainServer/include/Network/MainSession.h:81-94 | Every packet carries whole items and their number modulo 256 as its option, and no packet but the last has room for another item within 1432 bytes. |
| PacketSplitter.OptionCountsIff | MainServer/include/Network/MainSession.h:78-98 | Every packet of a split list carries its item count in the 8-bit option field if and only if the list or a full packet has fewer than 256 items. |
| PacketSplitter.RecordsCount | MainServer/include/Network/MainSession.h:78-98 | So it does for every list of items of at least 6 bytes; each of the four lists the server sends has larger records. |
| PacketSplitter.SplitArrives | MainServer/include/Network/MainSession.h:78-98 | A split list crosses the encrypted wire: for every cut into reads a receiver that keeps its buffer and its socket gets that many frames, and their data joined is the list's bytes. |
| PacketSplitter.Session.SendSeparatePackets | MainServer/include/Network/MainSession.h:78-98 | For every list and item size from 1 to 1432 the loop sends exactly the pieces of the list, reusing one packet; an empty list sends nothing. |
| Sha1.FastSchedule | ExternalLibraries/libcppotp/sha1.h:77-86 | From word 32 on, the rotate-by-two formula gives the words of the rotate-by-one recurrence of section 6.1.2 of FIPS 180-4. |
| Sha1.Telescope | ExternalLibraries/libcppotp/sha1.h:82-86 | Of the words under the four inner sums, those that occur twice cancel. |
| Sha1.ChoiceForm | ExternalLibraries/libcppotp/sha1.h:100-104 | The or-form of the source is the choice function of FIPS 180-4. |
| Sha1.MajorityForm | ExternalLibraries/libcppotp/sha1.h:110-114 | The or-form of the source is the majority function of FIPS 180-4. |
| Sha1.ConstantsAreRoots | ExternalLibraries/libcppotp/sha1.h:97-121 | The four round constants are 2^30 times the square roots of 2, 3, 5 and 10, cut to whole numbers, twenty rounds each. |
| Sha1.LengthField | ExternalLibraries/libcppotp/sha1.h:44-45 | The two halves written are the eight big-endian bytes of the bit length modulo 2^64. |
| Sha1.Pad | ExternalLibraries/libcppotp/sha1.h:35-47 | The padding loop builds the padding of section 5.1.1 of FIPS 180-4. |
| Sha1.Expand | ExternalLibraries/libcppotp/sha1.h:62-86 | The array filled by the fast schedule holds the 80 words of the standard. |
| Sha1.Compress | ExternalLibraries/libcppotp/sha1.h:88-138 | One chunk advances the hash value as in section 6.1.2. |
| Sha1.Sha1 | ExternalLibraries/libcppotp/sha1.h:28-154 | For every message the digest is the one of the standard. |
| Sha1.HmacSha1 | ExternalLibraries/libcppotp/sha1.h:156-195 | For every key and message, long keys too, and every block size the result is the nested hash of RFC 2104, which has blocks of at least 20 bytes. |
| Base32.ChunkRoundTrip | ExternalLibraries/libcppotp/bytes.h:146-287 | Decoding a chunk undoes encoding it, for 1 to 5 bytes. |
| Base32.RoundTrip | ExternalLibraries/libcppotp/bytes.h:289-344 | Decoding undoes encoding for every byte string. |
| Base32.ChunkCanonicalIff | ExternalLibraries/libcppotp/bytes.h:146-219 | An accepted chunk is what its bytes are encoded as if and only if the bits of its last character that carry no byte are zero. |
| Base32.CanonicalIff | ExternalLibraries/libcppotp/bytes.h:289-306 | For every accepted text: encoding its bytes gives the text back if and only if padding stands only in the final chunk and the unused bits of the last character are zero. |
| Base32.LooseText | ExternalLibraries/libcppotp/bytes.h:146-219 | The text "AB======" decodes to the zero byte, which is encoded otherwise. |
| Base32.EncodedAt | ExternalLibraries/libcppotp/bytes.h:226-287 | For every byte string and place: character i is the letter of the standard's alphabet for bits 5 i to 5 i + 4 of the string, highest bit first and zeros behind its end, and padding when the string ends before bit 5 i. |
| Base32.DecodedAt | ExternalLibraries/libcppotp/bytes.h:199-216 | Bit k of the bytes of an accepted chunk, canonical or not, is bit k % 5 of its letter k / 5. |
| Base32.AcceptedIff | ExternalLibraries/libcppotp/bytes.h:146-208 | A chunk is accepted if and only if it has eight characters, of which the first 2, 4, 5, 7 or 8 are letters of the alphabet and the others padding. |
| Base32.EncodeLength | ExternalLibraries/libcppotp/bytes.h:320-344 | The text has eight characters for every five bytes begun. |
| Base32.EncodeEnds | ExternalLibraries/libcppotp/bytes.h:279-284 | At most six padding characters end a text. |
| Base32.UnpaddedRoundTrip | ExternalLibraries/libcppotp/bytes.h:308-318 | The text without its padding decodes to the same bytes. |
| Base32.BytesToB32Chunk | ExternalLibraries/libcppotp/bytes.h:226-287 | The shifts give the base-32 digits of the bytes with their padding, and an error outside 1 to 5 bytes. |
| Base32.B32ChunkToBytes | ExternalLibraries/libcppotp/bytes.h:146-219 | The shifts give the bytes of the digits, with every error of the source: length, wrong character, padding in the middle, impossible padding count. |
| Base32.ToBase32 | ExternalLibraries/libcppotp/bytes.h:320-344 | The loop over chunks encodes the whole string. |
| Base32.FromBase32 | ExternalLibraries/libcppotp/bytes.h:289-306 | The loop decodes every chunk, stops at the first bad one and rejects lengths not divisible by 8. |
| Base32.FromUnpaddedBase32 | ExternalLibraries/libcppotp/bytes.h:308-318 | Padding is put back before decoding. |
| Ini.EraseUndoesEscape | ExternalLibraries/IniParser/inicpp.h:445-520 | Erasing comments takes back every escape, for every string, whatever comment and escape characters it holds. |
| Ini.EraseIsScan | ExternalLibraries/IniParser/inicpp.h:445-473 | The search that goes over the line again after each escaped prefix does what one scan does: it drops the escapes of prefixes and stops at the first prefix without one, for every line. |
| Ini.CommentCutIff | ExternalLibraries/IniParser/inicpp.h:462-465 | A # or ; and anything behind an escaped text is cut off, leaving the text, if and only if the text does not end with the escape character. |
| Ini.SectionLineMeans | ExternalLibraries/IniParser/inicpp.h:638-666 | A line that begins with [ opens the section named up to the first ], whatever white space and comment surround it, and is an error when ] or the name is missing. |
| Ini.FieldLineMeans | ExternalLibraries/IniParser/inicpp.h:667-719 | Any other line with text is a field of the open section, cut at its first = and trimmed on both sides, and an error without a section or an =. |
| Ini.IdleLine | ExternalLibraries/IniParser/inicpp.h:628-637 | A line of white space and a comment alone is skipped. |
| Ini.CommentsIgnored | ExternalLibraries/IniParser/inicpp.h:618-720 | Whatever white space and comments are added to the lines of any file, and whatever comment lines between them, it reads to the same table or fails for the same reason. |
| Ini.AnnotatedReads | ExternalLibraries/IniParser/inicpp.h:618-759 | A printed table with comments and white space added between and behind its lines reads back as that table. |
| Ini.PrintedIs | ExternalLibraries/IniParser/inicpp.h:740-759 | The lines of a printed table are [name] for each section and key=value for each of its fields, escaped, in the listed order, each with its newline. |
| Ini.LastValueCounts | ExternalLibraries/IniParser/inicpp.h:659-714 | In a file that repeats sections and fields a section goes on where it was left, and of several fields with one key the last counts. |
| Ini.FailedAt | ExternalLibraries/IniParser/inicpp.h:628-718 | An error names the line at which reading stops, with the table as the lines before left it; without one every line was read. |
| Ini.TrimPadded | ExternalLibraries/IniParser/inicpp.h:46-61 | Of a trimmed text with white space around it, trimming leaves exactly the text. |
| Ini.TrimIs | ExternalLibraries/IniParser/inicpp.h:46-61 | Trimming leaves no white space at either end, changes nothing that had none, and adds no character. |
| Ini.ParseGood | ExternalLibraries/IniParser/inicpp.h:618-720 | Every text, well-formed or not, parses to a table that can be printed and read back. |
| Ini.RoundTripIff | ExternalLibraries/IniParser/inicpp.h:618-759 | In whatever order sections and fields are printed, reading the text gives the table back if and only if its section names are non-empty without ] and newline, its keys are trimmed without =, newline and leading [, and its values are trimmed without newline. |
| Ini.TableRoundTripIff | ExternalLibraries/IniParser/inicpp.h:618-759 | Every table can be listed, and it is read back from any text it is printed as if and only if it meets those conditions. |
| Ini.FindCommentPrefix | ExternalLibraries/IniParser/inicpp.h:475-499 | The prefix found is the one standing there; none is found exactly when no comment character does. |
| Ini.WriteEscaped | ExternalLibraries/IniParser/inicpp.h:501-520 | The loop appends the escaped string. |
| Ini.IniFile.Encode | ExternalLibraries/IniParser/inicpp.h:740-759 | The loops print every section and field of the listing. |
| Ini.IniFile.TakeLine | ExternalLibraries/IniParser/inicpp.h:628-718 | One line changes table and current section, or raises one of the four errors, as the parser's step says, whose meaning `SectionLineMeans`, `FieldLineMeans` and `IdleLine` give. |
| Ini.IniFile.Decode | ExternalLibraries/IniParser/inicpp.h:618-720 | The loop over lines leaves the parsed table, or the error with its line number (`FailedAt`) and the table as it then was; comments do not matter (`CommentsIgnored`). |
| Cdb.ConformingRoundTrip | Tools/CgdManager/CdbParser.py:12-62 | Parsing what was written for a conforming table gives back the same keys, sizes and entries. |
| Cdb.ParseConforms | Tools/CgdManager/CdbParser.py:12-39 | Every file parses to a conforming table. |
| Cdb.RoundTripIff | Tools/CgdManager/CdbParser.py:12-62 | A writable table survives writing and parsing if and only if it conforms: keys of at most 30 bytes, texts that fit, neither ending in NUL, numbers in number columns, entries shaped by the schema, and no entries when an entry has no bytes. |
| Cdb.NumbersDecoded | Tools/CgdManager/Utils.py:24-28 | The bytes of a column of width 1, 2, 3 or 4 are the number with the first byte lowest. |
| Cdb.ColumnReads | Tools/CgdManager/Utils.py:24-28 | For every width and content: a column reads as a number, of which these are the bytes, exactly for widths 1 to 4, and otherwise as its text without the zeros at its end. |
| Cdb.ColumnWrites | Tools/CgdManager/CdbParser.py:53-62 | Exactly which values can be written to a column of each width, and every byte then written: of the number for widths 1 to 4, low byte first, else of the text, cut or filled with zeros. |
| Cdb.ParsedAt | Tools/CgdManager/CdbParser.py:12-39 | For every file, truncated or with bytes left over: where the number of columns, each key, each width and each column of each entry are read, by absolute position, and that there are as many entries as fit. |
| Cdb.ImageHeaderAt | Tools/CgdManager/CdbParser.py:45-51 | Every byte of a written header by absolute position: key k from byte 4 + 30 k on, cut or filled to 30 bytes, width k behind all keys. |
| Cdb.ImageFieldAt | Tools/CgdManager/CdbParser.py:52-62 | Column i of entry e stands at 4 + 34 n, the entries before and the columns before, and holds the bytes of its value. |
| Cdb.ImageSize | Tools/CgdManager/CdbParser.py:45-62 | Nothing stands behind the last entry. |
| Cdb.NumberReads | Tools/CgdManager/CdbParser.py:55-58 | A text converts to a number if and only if, with white space around it, it is a numeral with an optional sign, single underscores between digits allowed. |
| Cdb.NumberOfDecimal | Tools/CgdManager/CdbParser.py:55-60 | Converting the decimal text of a number gives the number back, for either sign: numeric texts can be written into number columns. |
| Cdb.NumberWritten | Tools/CgdManager/CdbParser.py:59-60 | The text of a number is its digits without leading zeros, behind a minus sign when it is negative. |
| Cdb.PatchIsRewrite | Tools/CgdManager/CgdParser.py:230-239 | Patching the bytes of one field of the file image gives the image of the updated table, for any schema and number of entries. |
| Cdb.WrittenAt | Tools/CgdManager/CgdParser.py:229-239 | A write into the open file byte by byte: the new bytes at their place, the old ones around them, zeros in a gap behind the end. |
| Cdb.FastIsRewrite | Tools/CgdManager/CgdParser.py:201-243 | For a file that is the table's image and an index from 0 on, the fast update succeeds exactly when the updated table can be written, the file is then its image byte for byte, and otherwise the file is untouched. |
| Cdb.FastIsRewriteIff | Tools/CgdManager/CgdParser.py:206-231 | For an update that changes the stored bytes, file and table agree afterwards if and only if the index is not negative. |
| Cdb.FastMatchesChecked | Tools/CgdManager/CgdParser.py:120-129 | Where the checked update goes through, the full rewrite and the fast patch leave the same table and the same bytes, and the table keeps the shape of its schema. |
| Cdb.UpdateCheckedIff | Tools/CgdManager/CdbParser.py:64-84 | The checked update succeeds, and with which table, if and only if the index is in the list, counted from either end, some column has the key, and the first such column has one byte and gets a truth value, two to four and a number or truth value, or another width and a text; that value alone is replaced. |
| Cdb.AdmissibleKeepsShape | Tools/CgdManager/CdbParser.py:91-117 | An entry whose value types fit its columns is accepted exactly when the table with it keeps the shape of the schema. |
| Cdb.DeleteAllKeepsSurvivors | Tools/CgdManager/CgdParser.py:194-195 | Deleting from the highest index down leaves exactly the entries not asked for, in order. |
| Cdb.RemoveEntriesIff | Tools/CgdManager/CgdParser.py:189-199 | For all indices the list accepts, sorting and deleting leaves exactly the entries not asked for if no index is given twice and at most one counts from the end, for an entry behind all the others; and only then, for entries that can be told apart or indices that all count from the front. |
| Cdb.RefusedStops | Tools/CgdManager/CgdParser.py:194-199 | The first index the list refuses stops the removal there, and what went before stays removed. |
| Cdb.TwoFromTheEnd | Tools/CgdManager/CgdParser.py:194-195 | Removing -1 and -2 from three entries leaves the middle one. |
| Cdb.Cdb.ParseCdb | Tools/CgdManager/CdbParser.py:12-39 | The cursor loops read keys, sizes and entries, the ones `ParsedAt` gives by position; entries are added to those already in memory. |
| Cdb.Cdb.ToCdb | Tools/CgdManager/CdbParser.py:41-62 | Writing succeeds exactly for writable tables and then leaves their image on disk, whose bytes `ImageHeaderAt`, `ImageFieldAt` and `ColumnWrites` give. |
| Cdb.Cdb.UpdateEntryFast | Tools/CgdManager/CgdParser.py:201-243 | Memory and file change as the fast update says, also when it fails after changing memory. |
| Cdb.Cdb.UpdateValue | Tools/CgdManager/CdbParser.py:64-84 | The value is set exactly when index, key and value type are acceptable; otherwise nothing changes. |
| Cdb.Cdb.UpdateEntry | Tools/CgdManager/CgdParser.py:120-129 | The checked update followed by the full rewrite; a refused update leaves table and file alone. |
| Cdb.Cdb.AddEntry | Tools/CgdManager/CdbParser.py:91-117 | The entry is appended exactly when it matches the schema column by column. |
| Cdb.Cdb.DeleteEntry | Tools/CgdManager/CdbParser.py:86-89 | Exactly the entry at that index goes, negative indices counting from the end; an index out of range changes nothing. |
| Cdb.Cdb.RemoveEntries | Tools/CgdManager/CgdParser.py:189-199 | Indices are deleted in descending order up to the first that fails; only a complete removal rewrites the file. |
| CastRooms.CreateMutualIff | CastServer/src/Classes/RoomsManager.cpp:11-18 | Creating a room keeps slots and player lists inverse to each other if and only if the creator's slot was empty (or there is no such slot). |
| CastRooms.SweepIdle | CastServer/src/Classes/RoomsManager.cpp:314-318 | The final sweep over the slots on closing a room never changes anything. |
| CastRooms.RunSound | CastServer/src/Classes/RoomsManager.cpp:11-320 | Over every run of create, join, leave and crash, an occupied slot leads to a listed room that holds the player; listed rooms are distinct and non-empty and hold nobody twice. |
| CastRooms.RunMutualIff | CastServer/src/Classes/RoomsManager.cpp:11-320 | Over a run, slots and player lists are mutually inverse in every state if and only if no room is created by a player who is in one. |
| CastRooms.CreateEnters | CastServer/src/Classes/RoomsManager.cpp:11-18 | Creating puts the creator alone into a new room, the last of the list; every other slot, room and player list stays. |
| CastRooms.JoinEnters | CastServer/src/Classes/RoomsManager.cpp:34-43 | A player in no room who joins a host in a room: his slot leads to that room, he stands last in it and only there, the others keep their order, and every other slot, room and player list stays. |
| CastRooms.JoinNobody | CastServer/src/Classes/RoomsManager.cpp:20-36 | Joining a host who is in no room, and any request of an id beyond the slots, changes nothing. |
| CastRooms.IdleLeaves | CastServer/src/Classes/RoomsManager.cpp:297-305 | Leaving and crashing of a player who is in no room change nothing. |
| CastRooms.LeaveExits | CastServer/src/Classes/RoomsManager.cpp:297-320 | Leaving and crashing take the player out of his slot and room, the others keep their order, the room leaves the list exactly when he was the last, and every other slot, room and player list stays. |
| CastRooms.OthersKeepSlot | CastServer/src/Classes/RoomsManager.cpp:11-320 | Nobody else's step changes a player's slot. |
| CastRooms.JoinedStays | CastServer/src/Classes/RoomsManager.cpp:11-320 | Over every run, from joining until his own next step a player is in the room his host was in then, which stays listed with him in it, whatever all others do; and with the host, until the host acts. |
| CastRooms.JoinThenLeave | CastServer/src/Classes/RoomsManager.cpp:20-44 | Joining, which `JoinEnters` describes, and then leaving restores the whole registry. |
| CastRooms.OverwritingLeavesStale | CastServer/src/Classes/RoomsManager.cpp:11-18 | Every overwriting creation leaves the player listed in a room that his slot does not lead to. |
| CastRooms.StaleForever | CastServer/src/Classes/RoomsManager.cpp:11-320 | Over every run in which that player does not join the room again, it stays listed and holds him. |
| CastRooms.RunFromEmpty | CastServer/include/Classes/RoomsManager.h:16-17 | Both results about runs hold of a server that starts without rooms. |
| CastRooms.Room.RemovePlayer | CastServer/src/Classes/Room.cpp:73-97 | The first entry of the player is erased, and the answer says whether nobody is left, also when he was not there. |
| CastRooms.Room.AddPlayer | CastServer/src/Classes/Room.cpp:99-120 | Every older entry of the player is replaced by one at the end. |
| CastRooms.RoomsManager.AddRoom | CastServer/src/Classes/RoomsManager.cpp:11-18 | Slot, room list and players of the new room are set; an id beyond the slots changes nothing. |
| CastRooms.RoomsManager.RemovePlayerFromRoom | CastServer/src/Classes/RoomsManager.cpp:297-320 | The player leaves his room and slot; a room left empty is taken off the list and swept from the slots. |
| CastRooms.RoomsManager.SwitchRoomJoinOrExit | CastServer/src/Classes/RoomsManager.cpp:20-44 | A player in a room leaves it (`LeaveExits`); any other joins the host's room, if the host has one (`JoinEnters`, `JoinNobody`). |
| CapsuleSpin.PlayLedger | MainServer/include/Handlers/CapsuleSpinHandler.h:188-257 | Over every run no two lucky rounds follow each other, the spin counter is the number of paid and granted rounds and the retry counter that of refused ones. |
| CapsuleSpin.PlayBounded | MainServer/include/Handlers/CapsuleSpinHandler.h:183-188 | However the draws turn out, a request for n spins ends after at most 2n + 9 rounds, 49 for twenty; a request for one spin after at most 10. |
| CapsuleSpin.BoundReached | MainServer/include/Handlers/CapsuleSpinHandler.h:183-188 | For every number of spins some run takes that many rounds. |
| CapsuleSpin.PlayEnds | MainServer/include/Handlers/CapsuleSpinHandler.h:182-257 | Rounds are played for drawn items only, each granted exactly when its item could be added, and the loop ends for one of its reasons: all spins done or 10 refusals, no item drawn, or the free round of a single spin. |
| CapsuleSpin.GrantedSent | MainServer/include/Handlers/CapsuleSpinHandler.h:233-246 | One packet for each granted round and no other, in order, with the round's mission and item number. |
| CapsuleSpin.PlaySettles | MainServer/include/Handlers/CapsuleSpinHandler.h:74-257 | Over every run with a fixed sale state exactly the paid spins are charged one price each, stopping at zero; the other balances stay, and the largest item number grows by one for each granted item, paid or free, to the end of its 20-bit field. |
| CapsuleSpin.ChargeIs | MainServer/include/Handlers/CapsuleSpinHandler.h:74-110 | What a paid round takes, field by field: coins always at the capsule's price, rock totens and micro points during a sale at the sale price of that currency, down to zero; no other field changes. |
| CapsuleSpin.NotEnoughIff | MainServer/include/Handlers/CapsuleSpinHandler.h:130-165 | A request is refused for want of money if and only if the price of all spins, as a 32-bit product, exceeds the balance of the capsule's own currency, by field and sale price; kinds from 3 on never. |
| CapsuleSpin.PlayNumbered | MainServer/include/Handlers/CapsuleSpinHandler.h:221-239 | Over every run each round means its item to get the number behind the largest one held, which counts the granted items; the number of a refused item is meant for the next one again. |
| CapsuleSpin.GrantedIsPaidOrFree | MainServer/include/Handlers/CapsuleSpinHandler.h:225-247 | The granted items are those of the paid rounds and those of the free lucky rounds. |
| CapsuleSpin.PlayPoints | MainServer/include/Handlers/CapsuleSpinHandler.h:190-252 | For a capsule of at most 1048 points, over every run the lucky points are what the paid rounds gave since the last lucky one, a round is lucky exactly when they reach 1000, and a lucky round without a drawn item uses them up too. |
| CapsuleSpin.PointsAccountedIff | MainServer/src/Classes/Player.cpp:273-286 | Every run of every account keeps that ledger if and only if the capsule gives at most 1048 points. |
| CapsuleSpin.ExactWithoutOverflow | MainServer/include/Handlers/CapsuleSpinHandler.h:149-165 | For currencies 0 to 2 and a total price below 2^32, a run that passed the check loses exactly price times paid spins. |
| CapsuleSpin.ExactIff | MainServer/include/Handlers/CapsuleSpinHandler.h:149-165 | For a request that passed the check, every run in one sale state is charged exactly price times paid spins if and only if price times requested spins is below 2^32. |
| CapsuleSpin.OverflowReachable | MainServer/include/Handlers/CapsuleSpinHandler.h:149 | A concrete run in which the product overflows. |
| CapsuleSpin.Session.RemoveCurrency | MainServer/include/Handlers/CapsuleSpinHandler.h:74-110 | Only the balance of the capsule's currency changes, by the price in force, each kind stated in its own field, stopping at zero; the range checks of the setters never refuse. |
| CapsuleSpin.Session.HandleCapsuleSpin | MainServer/include/Handlers/CapsuleSpinHandler.h:113-267 | Every outcome: unknown capsule, not enough currency, no space, more than 20 spins, and the loop with its replies, each with the item and its number. |
| CapsuleSpin.Session.Spin | MainServer/include/Handlers/CapsuleSpinHandler.h:182-257 | The loop ends, by spins and retries left and then by whether a lucky spin is due, and leaves the account and replies of the run; the largest item number changes only with an item that was added. |
| ClanRooms.AddPlayerIff | MainServer/include/Classes/ClanRoom.h:62-80 | Adding keeps the 4-bit count equal to the list length if and only if there were fewer than 15 entries. |
| ClanRooms.LedByKeeps | MainServer/include/Classes/ClanRoom.h:282-300 | A leader change permutes the list, puts the chosen entry first, makes the cache true and keeps the count. |
| ClanRooms.PromoteIff | MainServer/include/Classes/ClanRoom.h:282-300 | A leader change succeeds, and with which party, if and only if the index is not 0 and that of a live entry: it and entry 0 trade places, the cache follows, all else stays. |
| ClanRooms.JoinIs | MainServer/include/Handlers/Clan/PartyJoinHandler.h:26-92 | A player is let in exactly when somebody waits, the leader's session lives and the count is below the limit; he is then the last entry behind the others, and otherwise nothing changes. |
| ClanRooms.SuccessorIff | MainServer/include/Classes/ClanRoom.h:323-339 | A successor is found exactly when at most one entry is left or some later session is alive, and it is the first live one. |
| ClanRooms.RemoveIff | MainServer/include/Classes/ClanRoom.h:139-194 | A player can be removed if and only if he has a live entry and, when he leads others, some later session is alive. |
| ClanRooms.RemovesOne | MainServer/include/Classes/ClanRoom.h:139-220 | In every party, removal takes out exactly one entry, a live one of that player, and keeps the count. |
| ClanRooms.RemoveCachedIff | MainServer/include/Classes/ClanRoom.h:162-213 | Removal keeps the cached leader true unless the leader leaves, the first live entry behind him is his own, and the entry that then moves up differs from it. |
| ClanRooms.RemoveExactly | MainServer/include/Classes/ClanRoom.h:139-220 | In a party of distinct sessions removal takes out exactly that player's entry, keeps cache, count and ids, keeps the order for a follower, and makes the first live entry behind a leader his successor. |
| ClanRooms.LeaderLeaves | MainServer/include/Classes/ClanRoom.h:162-213 | The whole list after a leader of others left a party of distinct sessions: his successor first, and all others in their order. |
| ClanRooms.ResizeIs | MainServer/include/Classes/ClanRoom.h:341-345 | Resizing sets the limit, and only it, to what four bits hold of the number. |
| ClanRooms.RunCounted | MainServer/include/Classes/ClanRoom.h:38-345 | Over every run of joins, leaves, leader changes, expiring sessions and resizing the 4-bit player count is the list length. |
| ClanRooms.ApplyCachedIff | MainServer/include/Classes/ClanRoom.h:38-345 | In any party with a true leader cache, one step keeps the cache and the count true if and only if it is not a leave of the kind of `RemoveCachedIff`. |
| ClanRooms.RunCachedIff | MainServer/include/Classes/ClanRoom.h:38-345 | Over a run every state has the cached leader equal to entry 0 and the count equal to the length if and only if no leader ever leaves while the first live entry behind him is his own and an entry of other name or level moves up. |
| ClanRooms.ApplyGoodIff | MainServer/include/Handlers/Clan/PartyJoinHandler.h:26-92 | One step keeps a true cache, a true count and distinct sessions if and only if it does not let a player join a party that he is in. |
| ClanRooms.RunGoodIff | MainServer/include/Classes/ClanRoom.h:38-345 | Over a run every state has distinct live sessions, with true cache and count, if and only if nobody ever joins a party that he is in. |
| ClanRooms.RejoinGoesStale | MainServer/include/Handlers/Clan/PartyJoinHandler.h:39-92 | A host who joins his own party again at a higher level and then leaves: the cached level is not that of entry 0. |
| ClanRooms.LeastFreeIs | MainServer/include/Classes/ClansManager.h:126-134 | The number found is free and every smaller one is taken; none is found exactly when all are taken. |
| ClanRooms.NextNumberIff | MainServer/include/Classes/ClansManager.h:121-135 | In every orderly directory a clan gets a number exactly while it has fewer than four parties, namely the least free one. |
| ClanRooms.HandleAllOrderly | MainServer/include/Classes/ClansManager.h:19-135 | Over every run of the handlers each clan has at most four parties, all non-empty, under distinct numbers 1 to 4, with true player counts. |
| ClanRooms.HandleAllCachedIff | MainServer/include/Classes/ClansManager.h:19-135 | Over a run of the handlers every party of every clan has a true leader cache in every state if and only if no leader leaves, by himself or by `tryRemovePlayerFromParty`, with his own entry as the first live one behind him and an entry of other name or level moving up. |
| ClanRooms.HandleAllGoodIff | MainServer/include/Classes/ClansManager.h:19-135 | Over a run of the handlers every party of every clan has distinct live sessions, with a true cache, in every state if and only if nobody is let into a party that he is in. |
| ClanRooms.HandleAllSoloIff | MainServer/include/Handlers/Clan/PartyCreationHandler.h:21-44 | Over a run of the handlers no live session ever sits in two parties, of one clan or of two, if and only if nobody who sits in a party opens one or is let into another. |
| ClanRooms.OpensTwice | MainServer/include/Handlers/Clan/PartyCreationHandler.h:21-44 | A host who opens two parties in turn sits in both. |
| ClanRooms.HandleIs | MainServer/include/Classes/ClansManager.h:19-135 | Every event changes one clan's list in at most one place: a party appended, replaced or erased. |
| ClanRooms.CreateOpens | MainServer/include/Handlers/Clan/PartyCreationHandler.h:21-44 | While one of the numbers 1 to 4 is free the least free one goes to a new party of 1 out of 8 with the host as only entry and leader, behind the clan's others; otherwise nothing changes. |
| ClanRooms.ActReaches | MainServer/include/Handlers/Clan/ClanRoomLeaveHandler.h:70-107 | A step for a party number reaches the first party with it and no other; a cleared party goes, and a left one when nobody remains or the removal fails. |
| ClanRooms.DropTakes | MainServer/include/Classes/ClansManager.h:24-45 | Removing a number takes out exactly the first party with it, and the clan's entry with the last one. |
| ClanRooms.PurgeTakes | MainServer/include/Classes/ClansManager.h:47-66 | The first party that can let the player go loses him, and goes itself with its last player; all others stay in order. |
| ClanRooms.ClanRoom.constructor | MainServer/include/Classes/ClanRoom.h:38-60 | The host is entry 0 and the cached leader of a party of 1 out of 8. |
| ClanRooms.ClanRoom.AddPlayer | MainServer/include/Classes/ClanRoom.h:62-80 | The entry is appended and the 4-bit count goes up. |
| ClanRooms.ClanRoom.RemovePlayer | MainServer/include/Classes/ClanRoom.h:139-220 | Either no value and nothing changed, or the player is gone and the value says whether the list is empty. |
| ClanRooms.ClanRoom.ChangeLeaderTo | MainServer/include/Classes/ClanRoom.h:282-300 | Entry 0 and the chosen live entry trade places and the cache follows; otherwise false and nothing changed. |
| ClanRooms.ClanRoom.ChangeLeaderToFirstAvailable | MainServer/include/Classes/ClanRoom.h:323-339 | The first live entry behind the leader takes over; without one, nothing changes. |
| ClanRooms.ClanRoom.RemoveAllPlayers | MainServer/include/Classes/ClanRoom.h:97-115 | The list becomes empty and the count 0; nothing else changes. |
| ClanRooms.ClanRoom.UpdatePlayersPerTeam | MainServer/include/Classes/ClanRoom.h:341-345 | The 4-bit player limit changes and nothing else. |
| ClanRooms.ClansManager.AddRoom | MainServer/include/Classes/ClansManager.h:19-22 | The room joins its clan's list, which is created if need be. |
| ClanRooms.ClansManager.RemoveExactRoom | MainServer/include/Classes/ClansManager.h:24-45 | The first room with that number goes, and the clan's entry with its last room; false exactly when there is none. |
| ClanRooms.ClansManager.TryRemovePlayerFromParty | MainServer/include/Classes/ClansManager.h:47-66 | The first room that lets the player go loses him, and goes itself when empty; the others stay. |
| ClanRooms.ClansManager.GetNextAvailableRoomNumberFor | MainServer/include/Classes/ClansManager.h:121-135 | The loop returns the least free number. |
| Login.StepFrame | AuthServer/src/DbPlayerInfo.cpp:258-276 | An attempt changes at most the flag of the account that logs in. |
| Login.StepSettles | AuthServer/src/DbPlayerInfo.cpp:187-256 | After an attempt on an account with a secret the flag says whether the answer asked for the token, unless a database fault cut the attempt short before, which then changed nothing. |
| Login.FlagIff | AuthServer/src/DbPlayerInfo.cpp:187-276 | Over every run, with all users interleaved and faults anywhere, the flag is up if and only if the account's latest attempt that was not cut short was answered USE_TOKEN. |
| Login.SuccessIff | AuthServer/src/DbPlayerInfo.cpp:106-276 | Exactly when an attempt is answered SUCCESS, with and without a secret. |
| Login.SuspendedIff | AuthServer/src/DbPlayerInfo.cpp:106-276 | Exactly when an attempt is answered SUSPENDED: it would be a SUCCESS, but the suspension is not over. |
| Login.UseTokenIff | AuthServer/src/DbPlayerInfo.cpp:187-226 | Exactly when it is answered USE_TOKEN: the right password of an account with a secret, and no fault while checking it. |
| Login.DataErrorIff | AuthServer/src/DbPlayerInfo.cpp:106-276 | Exactly when it is answered with a database error: a fault at a statement on its way. |
| Login.SuccessFollowsPassword | AuthServer/src/DbPlayerInfo.cpp:187-256 | Over every run a SUCCESS on an account with a secret comes with the current token, and the account's latest attempt before it that was not cut short gave the right password. |
| Login.OneTokenTry | AuthServer/src/DbPlayerInfo.cpp:229-247 | Between two tries of the token on one account there is an attempt answered USE_TOKEN. |
| Login.Database.GetAccount | AuthServer/src/DbPlayerInfo.cpp:106-185 | The answer for wrong credentials, staff without a secret, suspended accounts, faults and success. |
| Login.Database.TwoFactorLogin | AuthServer/src/DbPlayerInfo.cpp:187-256 | Flag and answer of both phases, faults included. |
| Login.Database.GetPlayerInfo | AuthServer/src/DbPlayerInfo.cpp:259-276 | Accounts with a secret take the two phases, all others the password alone. |
| SessionIds.AcquireKeeps | Common/include/Network/SessionIdManager.h:25-37 | An id handed out was not in use; none is handed out if and only if all are; free and used ids keep partitioning 1 to the maximum. |
| SessionIds.ReleaseKeeps | Common/include/Network/SessionIdManager.h:39-47 | Releasing takes the id out of use, and changes nothing exactly when it was not in use. |
| SessionIds.ReleaseThenAcquire | Common/include/Network/SessionIdManager.h:25-47 | A released id is the next one handed out, and handing it out restores the pool. |
| SessionIds.HandsOutDown | Common/include/Network/SessionIdManager.h:17-37 | While none is given back, a new manager hands its ids out from the maximum down. |
| SessionIds.RunKeeps | Common/include/Network/SessionIdManager.h:17-47 | Over every run the free stack has no duplicates and partitions 1 to the maximum together with the used set. |
| SessionIds.NoReissue | Common/include/Network/SessionIdManager.h:25-47 | Over every run an id is handed out twice only if it was given back in between. |
| SessionIds.SessionIdManager.constructor | Common/include/Network/SessionIdManager.h:17-23 | The stack is filled with 1 to the maximum, none in use. |
| SessionIds.SessionIdManager.GetNewSessionId | Common/include/Network/SessionIdManager.h:25-37 | Pop and insert, or no id and no change. |
| SessionIds.SessionIdManager.ReleaseSessionId | Common/include/Network/SessionIdManager.h:39-47 | Erase and push for an id in use, no change otherwise. |

## Left out

- Session.Session.OnRead: reports that the source's loop would run forever instead of doing so.
- Session.Session.ReadAll: takes it as a function of the frames delivered so far whether a handler closes the socket; a close from outside, by another session, an administrator or a failed write, is not modelled, nor is the check of logged-in addresses before the first read.
- Packets.Packet.ProcessIncomingPacket: does not cover frames that announce fewer than 4 or 5 to 7 bytes, or more than they hold; the source subtracts below zero or reads past its buffer there.
- Packets.Packet.GenerateOutgoingPacket: does not cover default-key encryption with the cipher switched off, where the source runs on tables that were never set up.
- Ini.IniFile.Encode: takes the order of sections and fields as a listing instead of modelling the order of std::map; only the default separator, comment prefixes and escape character and single-line values are modelled.
- Cdb.Cdb.ToCdb: does not say what a half-written file holds after an exception.
- Cdb.RoundTripIff: text is kept as its bytes, so UTF-8 decoding and its ignored errors are not modelled; `int` of a text is modelled for ASCII, without the language's limit on the number of digits.
- Cdb.Cdb.AddEntry: stores a copy of the entry; the sharing of the caller's list object is not modelled.
- PacketSplitter.Session.SendSeparatePackets: does not cover items of more than 1432 bytes; the source divides by zero there before it checks.
- CastRooms.RunSound: sessions are taken to be alive with stable distinct ids; their in-match flag and room number, the matches played in a room, and `removeAllPlayers`, which nothing calls, are not modelled.
- CapsuleSpin.PlaySettles: assumes that no sale begins or ends during the loop; `CapsuleSpin.Session.Spin` takes the sale state anew in each round.
- ClanRooms.HandleAllOrderly: the versus room shared by two clans, registration and broadcasts are not modelled, nor a party that has started its match refusing to be joined.
- ClanRooms.JoinIs: the refusal by a party that has started its match is not modelled, nor is the clan check before it.
- ClanRooms.ClanRoom.RemovePlayer: `changeLeaderIfLeader` is not modelled; it reads an error result as a value when there is no successor.
- Login.FlagIff: the hash function, the token generator and a fault in the very first query are not modelled; the stored session hash of a successful login is not either.
- Sockets, timers, threads, IPC, database statements and logging.
- Random choices: the drawn item, the drawn key, shuffles and maps.
- The client's copy of the cipher in Tools/Client, archives, dialogs and images of the tools.
- Main-server rooms, players, trades, chat commands and the remaining handlers.

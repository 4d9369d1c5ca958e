# Paho MQTT C client: a verified model

This project models the Eclipse Paho MQTT C client and proves what its hard parts are for. `dafny verify dfyconfig.toml` checks
all of it.

- **Sessions** (`Session`, `SendOrder`, `Recovery`, `Sender`, `Ordering`, `EndToEnd`, `CrashPoints`, `Aftermath`): what each
  handler of `MQTTProtocolClient.c` and `MQTTPersistence.c` does to a client's records and store, as functions; runs of one
  client; and two clients joined by channels that may lose everything they hold. The main results are exactly-once delivery of
  QoS 2, recovery from a crash in any reachable state, and the order of packets and of messages, in both versions of the
  protocol. For restarts between handlers, and for stops inside the receiver's two QoS 2 handlers, they say exactly when the two
  clients stay in step, and follow the others to the publication that is lost or passed on twice.
- **Publications** (`Publications`, `ProtocolClient`): the same handlers as methods over records that point to shared, counted
  publications. Each refines its session function, and each keeps the counts exact.
- **The tree** (`RedBlack`, `Removal`, `Tree`): nodes in memory with parent pointers, seen as a subtree and the path to the
  root. The field `mem` repeats what the nodes hold, so that all reasoning is about values.
- **The byte stream** (`SocketReader`, `SocketWriter`, `Transport`): the reader and the writer, with a `recv` and a `writev`
  that give and take as many bytes as they like, against each socket's stream as a whole; and the two together.
- **Codecs and digests** (`Bytes`, `Vbi`, `Properties`, `Packets`, `Utf8`, `Base64`, `Sha1`).
- **The list and the scheduler** (`LinkedList`, `Scheduler`).

Where the code does not do what one would expect, the model follows the code:

- `CrashPoints.StopsSafely`: the PUBREL handler sends PUBCOMP, passes the publication on (MQTT 3.1.1) and only then removes the
  stored PUBLISH. A client stopped in between loses the publication (`Aftermath.LostInPubrel`), passes it on twice
  (`Aftermath.TwiceInPubrel`) or, in MQTT 5, keeps a stale record that costs the id's next publication (`Aftermath.LosesNext`).
- `CrashPoints.StopsSafelyInPublish`: an MQTT 5 client stores a QoS 2 PUBLISH, answers it, and only then passes it on. Stopped in
  between, its restart takes the publication for one that it has passed on (`Aftermath.LostInPublish`). The same happens when its
  socket was not clear and it has stored a PUBLISH without handling it (`CrashPoints.RestartsListed`, `Aftermath.LostUnlisted`).
- `Recovery.RestartRecoversExactly`: acknowledgements are always written as MQTT 3.1.1 ones, and an MQTT 5 restart looks for
  PUBREL under another key, so a message that waited for PUBCOMP waits for PUBREC again. `CrashPoints.ForgetsSafely` says when
  the receiver is still in step, and `Aftermath.PassedOnTwice` what happens otherwise.
- `Ordering.CrashKeepsOrder`: a restart orders the messages by id and starts after the largest gap, which is not always the order
  of publication (`Ordering.FarApartLosesOrder`). It also starts the ids from 1 again, so that the next restart can put a later
  message first (`Ordering.RestartedLosesOrder`).
- `Tree.ReplacingUnbalances`: adding a key that is already there also rebalances, and can break the red-black rules.
  `Tree.Tree.Add` says exactly when.
- `Bytes.ReadWriteInt4`: the four-byte writer takes a signed integer and divides as C does, so values from 2^31 on survive only
  if they are multiples of 2^24. `Properties.Faithful` is that condition.
- `Base64.EncodeLengthExact` and `Sha1.Context.Final`: 32-bit arithmetic bounds the lengths for which the results hold.

The uid of a message, the serial number of a command and every ghost field are history, not program state.

## Model

| member | source | states |
|---|---|---|
| `EndToEnd.ExactlyOnce` | paholib/src/MQTTProtocolClient.c:271-347 | in every run of two clients of the same version joined by two FIFO channels, with retries, refused sends, disconnections, crashes of either client between its handlers and reuse of ids, each QoS 2 publication is passed on at most once, and exactly once by the time its record has left outboundMsgs; an MQTT 5 client restarts only where it stays in step, which `CrashPoints` characterises |
| `EndToEnd.ExactlyOnceFrom` | paholib/src/MQTTProtocolClient.c:271-347 | the same in every run on from any state of the invariant, such as the one after a safe stop inside a handler |
| `EndToEnd.DeliveredAsPublished` | paholib/src/MQTTProtocolClient.c:271-540 | everything passed on in such a run is a publication of that run, with its topic, payload, properties, id, QoS and retain flag |
| `EndToEnd.NextKeepsInv` | paholib/src/MQTTProtocolClient.c:401-461 | every step of the two clients keeps the invariant: for each id, what the sender waits for, what the receiver holds and stores, and what the two channels may still contain |
| `EndToEnd.SystemAfter` | paholib/src/MQTTProtocolClient.c:151-171 | every reachable system state satisfies that invariant |
| `Sender.StoreMatchesSession` | paholib/src/MQTTPersistence.c:394-503 | in every reachable state of a client of either version the store holds "s-id" ("s5-id") for exactly the outbound messages and "sc-id" for those that wait for PUBCOMP, and for no others unless an MQTT 5 restart has forgotten a PUBREL; the stored bytes are those of the message |
| `Sender.CrashRebuildsSession` | paholib/src/MQTTPersistence.c:175-315 | in every reachable state a restart, with the keys listed in any order, rebuilds the outbound messages, with an MQTT 5 message that waited for PUBCOMP waiting for PUBREC; so the same messages exactly when there is none such; and in the order of the list exactly when its ids are in cyclic order and the first follows the first largest gap |
| `Sender.IdsStayDistinct` | paholib/src/MQTTProtocolClient.c:78-98 | over every run the ids in outboundMsgs are distinct and in 1..65535 |
| `Sender.NoPublishAfterPubrel` | paholib/src/MQTTProtocolClient.c:654-717 | over every run, crashes included, the packets sent for one publication are its PUBLISH and PUBREL, with DUP set on every PUBLISH after the first packet, and PUBLISHes all come before PUBRELs unless an MQTT 5 restart has forgotten a PUBREL |
| `Sender.ForgottenExactly` | paholib/src/MQTTPersistence.c:246-259 | a restart has forgotten a PUBREL exactly when some crash of the run came while a message of an MQTT 5 client, other than one just completed, waited for PUBCOMP |
| `Sender.LeavesOnlyOnPubcomp` | paholib/src/MQTTProtocolClient.c:401-597 | a QoS 2 record leaves only on a PUBCOMP received while it waits for one, on an MQTT 5 PUBREC that refuses it, or when the session is cleaned |
| `Ordering.OrderKept` | paholib/src/MQTTProtocolClient.c:78-98 | in every run without a crash outboundMsgs is in the order of publication |
| `Ordering.CyclicKept` | paholib/src/MQTTProtocolClient.c:78-98 | in every run without a crash in which the last id assigned does not lap the oldest message, its ids are in cyclic order too |
| `Ordering.CrashKeepsOrder` | paholib/src/MQTTPersistence.c:361-548 | after every run without a crash, a restart keeps the order of publication if and only if the ids in flight are in cyclic order and the first of them follows the first largest gap |
| `Ordering.HalfRingKeepsOrder` | paholib/src/MQTTPersistence.c:361-548 | so it does if the ids have not lapped and those in flight span less than half the ring |
| `Ordering.FarApartLosesOrder` | paholib/src/MQTTPersistence.c:511-548 | a run without a crash that ends with the ids 1 and n + 2 in flight, for any n from 32767 on: a restart puts the later message first |
| `Ordering.RestartedWithId2` | paholib/src/MQTTPersistence.c:175-315 | a run of two publications, one acknowledgement and a crash leaves a client with id 2 in flight and no last id |
| `Ordering.RestartedLosesOrder` | paholib/src/MQTTProtocolClient.c:78-98 | there the next publication gets id 1, and the next restart puts it before the earlier message |
| `Sender.ApplyKeepsInv` | paholib/src/MQTTProtocolClient.c:401-461 | publishing, each acknowledgement, retry, clean and crash keep the run invariant (store, ids and packet log agree with the session) |
| `Sender.RunOf` | paholib/src/MQTTProtocolClient.c:151-171 | every reachable run satisfies that invariant |
| `Recovery.RestartRecovers` | paholib/src/MQTTPersistence.c:175-315 | from any store that matches a session of either version, restoring in any key order gives the same messages, except that an MQTT 5 message that waited for PUBCOMP waits for PUBREC; in the order sent if and only if the ids are in cyclic order and the first follows the first largest gap; records of PUBREL without a message are removed |
| `Recovery.RestartRecoversExactly` | paholib/src/MQTTPersistence.c:246-264 | the restored messages are the same if and only if the client is an MQTT 3.1.1 one or no message waits for PUBCOMP |
| `Recovery.RestartKeepsPersisted` | paholib/src/MQTTPersistence.c:252-290 | after a restart the store matches the restored session with nothing left over but the records of PUBRELs that an MQTT 5 client has forgotten |
| `CrashPoints.StopsSafely` | paholib/src/MQTTProtocolClient.c:497-531 | from every state of the two clients in which a PUBREL has come for a message held, a receiver stopped at a point of the handler and restarted keeps the system invariant if and only if every PUBLISH in its store has its record (MQTT 5), and the point is before the PUBCOMP or after the removal, or the PUBCOMP is lost and nothing has been passed on |
| `CrashPoints.StopsSafelyInPublish` | paholib/src/MQTTProtocolClient.c:286-340 | from every state in which a QoS 2 PUBLISH has come, a receiver stopped at a point of the handler and restarted keeps the system invariant if and only if it is an MQTT 3.1.1 one, or every other stored PUBLISH has its record and this one has a record already, or none of it is stored yet, or it has been passed on |
| `CrashPoints.ForgetsSafely` | paholib/src/MQTTPersistence.c:246-259 | a sender that restarts, with what is on its way to it lost, keeps the system invariant if and only if, in MQTT 5, the receiver has a record of every message that waits for PUBCOMP and no PUBREL for it is on its way |
| `CrashPoints.RestartsListed` | paholib/src/MQTTPersistence.c:232-245 | a receiver that restarts between handlers keeps the system invariant if and only if, in MQTT 5, every PUBLISH it has stored has its record |
| `Aftermath.LostInPubrel` | paholib/src/MQTTProtocolClient.c:503-521 | an MQTT 3.1.1 receiver stopped after a PUBCOMP that gets through: from every such state the sender, after the acknowledgements before it, forgets the message, and it has been passed on 0 times |
| `Aftermath.TwiceInPubrel` | paholib/src/MQTTProtocolClient.c:521-526 | an MQTT 3.1.1 receiver stopped after passing on, whether the PUBCOMP is on its way or not: from every such state the sender can repeat PUBREL, and the publication has been passed on 2 times |
| `Aftermath.StaleAfterStop` | paholib/src/MQTTProtocolClient.c:503-531 | an MQTT 5 receiver stopped between a PUBCOMP that gets through and the removal: from every such state the sender forgets the message and the receiver keeps a record of its id |
| `Aftermath.LosesNext` | paholib/src/MQTTProtocolClient.c:312-340 | from every state with such a record, the next QoS 2 publication with that id is acknowledged to its end and passed on 0 times |
| `Aftermath.LostAfterReuse` | paholib/src/MQTTProtocolClient.c:78-98 | a whole run of MQTT 5 clients that ends so: the sender restarts and uses id 1 again |
| `Aftermath.LostInPublish` | paholib/src/MQTTProtocolClient.c:286-340 | wherever `StopsSafelyInPublish` fails, a publication is acknowledged to its end and passed on 0 times |
| `Aftermath.LostUnlisted` | paholib/src/MQTTPersistence.c:232-245 | wherever `RestartsListed` fails, a publication is acknowledged to its end and passed on 0 times |
| `Aftermath.LostUnlistedInPubrel` | paholib/src/MQTTProtocolClient.c:497-531 | so it is where `StopsSafely` fails because of another stored PUBLISH |
| `Aftermath.PassedOnTwice` | paholib/src/MQTTProtocolClient.c:295-340 | wherever `ForgetsSafely` fails, the sender repeats the PUBLISH of a message whose exchange the receiver finishes, and the publication is passed on 2 times |
| `Aftermath.PubrelReached` | paholib/src/MQTTProtocolClient.c:401-461 | a run of three steps, in either version, after which a PUBREL has come for a message held |
| `Aftermath.FinishedReached` | paholib/src/MQTTProtocolClient.c:470-540 | a run of four steps after which a restart of an MQTT 5 sender is out of step: the receiver finishes the exchange and its PUBCOMP is lost |
| `Aftermath.PublishReached` | paholib/src/MQTTProtocolClient.c:129-171 | a run of one step after which a PUBLISH has come to an MQTT 5 receiver without a record |
| `Aftermath.UnlistedReached` | paholib/src/MQTTProtocolClient.c:285-286 | a run of two steps after which a stored PUBLISH of an MQTT 5 receiver has no record |
| `SendOrder.RestoresSendOrder` | paholib/src/MQTTPersistence.c:361-375 | sorted insertion and wrapping give back the send order of ids issued in cyclic order over less than half of 1..65535 |
| `SendOrder.RestoresExactly` | paholib/src/MQTTPersistence.c:361-548 | sorted insertion and wrapping give back a list of messages if and only if its ids are in cyclic order and the first follows the first largest of all gaps |
| `SendOrder.WrapIsRotation` | paholib/src/MQTTPersistence.c:511-548 | wrapping gives the rotation that starts after the first largest cyclic gap |
| `SendOrder.WrapRestores` | paholib/src/MQTTPersistence.c:511-548 | of all rotations of a sorted list, wrapping gives the one sent exactly when its start follows the first largest gap |
| `SendOrder.CyclicIsRotation` | paholib/src/MQTTPersistence.c:361-375 | a list issued in cyclic order is a rotation of its sorted form |
| `SendOrder.InsertSorted` | paholib/src/MQTTPersistence.c:361-375 | insertion by id keeps a list sorted |
| `Session.AssignsFirstFree` | paholib/src/MQTTProtocolClient.c:78-98 | the assigned id is the first free one cyclically after the last, and is 0 exactly when every id other than the last assigned is in use |
| `Session.AssignMsgIdLoop` | paholib/src/MQTTProtocolClient.c:78-98 | the search loop ends with that id and updates msgID, given a last id or a free id |
| `ProtocolClient.State.StartPublish` | paholib/src/MQTTProtocolClient.c:129-171 | refines the session's start of an exchange; the publication is new or shared, or, for an interrupted QoS 0 write, kept with its topic and payload by one more pending write; all counts stay exact |
| `ProtocolClient.State.Hold` | paholib/src/MQTTProtocolClient.c:182-212 | a new publication, or one more reference to a shared one, with an exact count and no inbound holder |
| `ProtocolClient.State.HandlePublish` | paholib/src/MQTTProtocolClient.c:271-347 | refines the session's handling of PUBLISH for QoS 0, 1 and 2, in both versions, with exact counts: a repeated id releases the old publication, and MQTT 5 passes on and drops at once |
| `ProtocolClient.State.HandlePuback` | paholib/src/MQTTProtocolClient.c:355-392 | refines the session's handling of PUBACK, with exact counts |
| `ProtocolClient.State.HandlePubrec` | paholib/src/MQTTProtocolClient.c:401-461 | refines the session's handling of PUBREC, with exact counts |
| `ProtocolClient.State.HandlePubrel` | paholib/src/MQTTProtocolClient.c:470-540 | refines the session's handling of PUBREL: what is passed on is read from the publication, which is then removed; counts stay exact |
| `ProtocolClient.State.HandlePubcomp` | paholib/src/MQTTProtocolClient.c:549-597 | refines the session's handling of PUBCOMP, with exact counts |
| `ProtocolClient.State.Retries` | paholib/src/MQTTProtocolClient.c:654-717 | the retry loop sends, in list order, what the session's retries of the records reached send |
| `ProtocolClient.State.StorePublication` | paholib/src/MQTTProtocolClient.c:220-246 | a new publication with one reference keeps the counts exact |
| `ProtocolClient.State.RemovePublication` | paholib/src/MQTTProtocolClient.c:253-263 | one reference less, and the publication gone with the last one, keeps the counts exact |
| `ProtocolClient.State.DropPublication` | paholib/src/MQTTProtocolClient.c:529-531 | removing a publication outright is right because an inbound publication has one reference |
| `ProtocolClient.State.StoreQoS0` | paholib/src/MQTTProtocolClient.c:101-118 | an interrupted QoS 0 write is appended to the pending writes and holds a new publication with the topic and payload |
| `ProtocolClient.State.CheckPendingWrites` | paholib/src/MQTTClient.c:2743-2763 | the writes that are done release their publications, the others stay in order |
| `ProtocolClient.State.ReleaseAll` | paholib/src/MQTTProtocolClient.c:808-822 | emptying a list releases exactly its references |
| `ProtocolClient.State.CleanSession` | paholib/src/MQTTClient.c:1021-1035 | cleaning a session empties it and releases all its references |
| `ProtocolClient.State.RestoreOne` | paholib/src/MQTTPersistence.c:189-290 | one stored key is restored as the session function does, with exact counts |
| `ProtocolClient.State.Restore` | paholib/src/MQTTPersistence.c:175-315 | the restore loop and the wrapping do to the client what the session functions do, and stop with an error where they do |
| `ProtocolClient.State.Wrap` | paholib/src/MQTTPersistence.c:511-548 | the scan for the largest gap and the rotation give the wrapped list |
| `ProtocolClient.InsertIs` | paholib/src/MQTTPersistence.c:361-375 | inserting before the first record with a greater id is the session's sorted insertion |
| `Publications.ClientSteps` | paholib/src/MQTTProtocolClient.c:182-263 | a step of one client keeps the exact counts and what every other client stands for |
| `Publications.OutGone` | paholib/src/MQTTProtocolClient.c:381-386 | an outbound record that leaves takes exactly one reference with it |
| `Publications.InbCame` | paholib/src/MQTTProtocolClient.c:295-321 | an inbound record that comes, or replaces another, changes the references by exactly its own |
| `Publications.OutboundNotInbound` | paholib/src/MQTTProtocolClient.c:182-212 | a publication that an outbound record refers to is held by no inbound record |
| `Tree.Tree.RemoveNode` | paholib/src/Tree.c:417-476 | removing any node leaves a well-linked, sorted tree without exactly that node's item, and keeps the red-black rules |
| `Tree.Tree.RemoveKey` | paholib/src/Tree.c:507-529 | removing by key is removal from the finite map, and keeps the red-black rules |
| `Tree.Tree.TakeOut` | paholib/src/Tree.c:424-448 | the node taken out is the node itself or, with two children, its successor, whose content moves; it is in no part of the tree any more |
| `Tree.Tree.Settle` | paholib/src/Tree.c:450-463 | balancing from the child or from a dummy node restores the rules after a black node was taken out |
| `Tree.Tree.BalanceAfterRemove` | paholib/src/Tree.c:398-409 | the loop ends on every tree, keeps the items, and turns a tree with a subtree one black node short into a balanced one |
| `Tree.Tree.BalanceRemoveStep` | paholib/src/Tree.c:361-395 | one round keeps the items and either moves the missing black node up or ends the balancing |
| `Removal.SiblingRed` | paholib/src/Tree.c:365-371 | a red sibling: after the rotation the same subtree is short, below a black sibling |
| `Removal.NearRed` | paholib/src/Tree.c:381-387 | a red near nephew: after the rotation the far nephew is red and nothing else has changed |
| `Removal.FarRed` | paholib/src/Tree.c:388-393 | a red far nephew: after the rotation the rules hold |
| `Removal.RemovedRB` | paholib/src/Tree.c:398-409 | the rules hold once the node reached is black |
| `Removal.RedundantItems` | paholib/src/Tree.c:417-448 | without the redundant node the items are the old ones but for the one removed |
| `Tree.Tree.Add` | paholib/src/Tree.c:209-268 | adding is an update of the finite map and returns the content replaced; the red-black rules stay exactly unless the key is that of a black inner grandchild with a red parent and a black uncle |
| `Tree.ReplacingUnbalances` | paholib/src/Tree.c:231-265 | a balanced tree of five distinct nodes, laid out in memory, on which adding a key that is there breaks the rules |
| `Tree.Tree.BalanceAfterAdd` | paholib/src/Tree.c:190-200 | the loop ends on every tree, keeps the items, and restores the rules exactly unless it starts at a black inner grandchild |
| `Tree.Tree.BalanceAddStep` | paholib/src/Tree.c:165-187 | one round keeps the items and the rules around the subtree reached |
| `RedBlack.UncleRed` | paholib/src/Tree.c:169-174 | a red uncle: recolouring moves the red node up |
| `RedBlack.InnerTurned` | paholib/src/Tree.c:177-181 | an inner grandchild becomes an outer one; a black one is left with a violation below it |
| `RedBlack.OuterTurned` | paholib/src/Tree.c:182-184 | an outer grandchild: one rotation ends the balancing |
| `Tree.Tree.Rotate` | paholib/src/Tree.c:146-162 | the pointer assignments of a rotation turn the tree in memory into the rotated tree, parent links included |
| `RedBlack.RotatedItems` | paholib/src/Tree.c:146-162 | a rotation keeps the items in order |
| `Tree.Tree.Find` | paholib/src/Tree.c:283-315 | the search finds the node of a key exactly when the finite map has it, with the map's item |
| `Tree.Tree.Successor` | paholib/src/Tree.c:327-342 | the successor is the next node in key order, or null |
| `Tree.Tree.NextElement` | paholib/src/Tree.c:345-358 | iteration gives the first node, or the one after the given node |
| `Tree.Tree.Visit` | paholib/src/Tree.c:355-358 | iterating from null visits every item once, in key order |
| `Tree.Tree.Run` | paholib/src/Tree.c:209-529 | over any run of additions and removals the tree is the finite map, and stays balanced if no key is added while it is there |
| `Removal.HeightBound` | paholib/src/Tree.c:190-268 | the height of a balanced tree of n items is at most 2 * log2(n + 1) |
| `SocketReader.Reader.Factory` | paholib/src/MQTTPacket.c:102-131 | a call takes the first packet of the socket's whole unread stream, or nothing at all, however recv splits the bytes; the other sockets keep every byte |
| `SocketReader.Reader.Run` | paholib/src/MQTTPacket.c:102-166 | any calls for any sockets: each socket's packets so far, and then those of what is unread, are the packets of its whole stream |
| `SocketReader.Reader.GetCh` | paholib/src/Socket.c:320-347 | the next header byte, from the queue or the network, without losing or moving a byte; EWOULDBLOCK at any byte leaves the stream as it was |
| `SocketReader.Reader.GetData` | paholib/src/Socket.c:358-399 | the rest of the packet, or all that has come so far kept for the next call |
| `SocketReader.Reader.DecodeLength` | paholib/src/MQTTPacket.c:302-328 | the remaining length is that of the stream's bytes; five length bytes are refused |
| `SocketReader.Reader.QueueChar` | paholib/src/SocketBuffer.c:283-314 | a byte read is added to the socket's header bytes, and to no other socket's |
| `SocketReader.Reader.Interrupt` | paholib/src/SocketBuffer.c:232-253 | the shared default queue is set aside for the socket with all it holds, and a new one takes its place |
| `SocketReader.Reader.Finish` | paholib/src/SocketBuffer.c:261-274 | the socket's queue, if it has one, becomes the default queue, with nothing kept |
| `SocketReader.Reader.Cleanup` | paholib/src/SocketBuffer.c:134-149 | nothing is kept for the socket, and the others keep theirs |
| `SocketReader.ParseWire` | paholib/src/MQTTPacket.c:102-131 | parsing the bytes of packets sent one after the other gives back the packets |
| `SocketWriter.Writer.PutDatas` | paholib/src/Socket.c:494-552 | a packet is refused while another is pending; otherwise the socket's stream is whole packets and a prefix of this one, of the length recorded |
| `SocketWriter.Writer.ContinueWrite` | paholib/src/Socket.c:804-881 | the bytes accepted are the next ones of the pending packet and are counted, until it is complete |
| `SocketWriter.Writer.ContinueWrites` | paholib/src/Socket.c:923-953 | after any resumed writes each socket's stream is whole packets and a prefix of at most one |
| `SocketWriter.Remaining` | paholib/src/Socket.c:824-842 | what the loop chooses to write is a non-empty run of bytes from where the last write stopped |
| `SocketWriter.Resumed` | paholib/src/Socket.c:844-850 | writing on keeps the stream whole packets and a prefix of one |
| `SocketWriter.Writer.SetPending` | paholib/src/SocketBuffer.c:329-353 | the socket has the pending write, and no other socket's has changed |
| `Transport.ReadAsWritten` | paholib/src/Socket.c:494-552 | a reader of what a socket has accepted gets exactly the packets written in full, in order |
| `Bytes.ReadWriteInt` | paholib/src/MQTTPacket.c:336-345 | two-byte integers round-trip |
| `Bytes.ReadWriteInt4` | paholib/src/MQTTPacket.c:873-899 | four-byte integers round-trip exactly when they are below 2^31 or a multiple of 2^24 |
| `Vbi.DecodeEncode` | paholib/src/MQTTPacket.c:277-293 | variable byte integers round-trip, whatever follows |
| `Vbi.LengthIsEncodedLength` | paholib/src/MQTTPacket.c:938-951 | the announced length is the encoded length exactly for integers below 2^28 |
| `Vbi.EncodeLoop` | paholib/src/MQTTPacket.c:277-293 | the digit loop writes the encoding |
| `Vbi.DecodeLoop` | paholib/src/MQTTPacket.c:960-985 | the accumulating loop computes the decoding, and refuses what it refuses |
| `Properties.GetType` | paholib/src/MQTTProperties.c:72-85 | the table search gives each identifier's type |
| `Properties.ReadWrite` | paholib/src/MQTTProperties.c:156-262 | one property round-trips exactly when it is faithful (a four-byte value that survives its signed writer) |
| `Properties.ListRoundTrip` | paholib/src/MQTTProperties.c:199-309 | a property list round-trips exactly when every property is faithful, and its announced length is the bytes written |
| `Properties.PropertyList.Add` | paholib/src/MQTTProperties.c:95-148 | a known property is appended and the length field stays that of the bytes written; an unknown one is refused |
| `Properties.PropertyList.CopyFrom` | paholib/src/MQTTProperties.c:393-408 | a copy has the same properties and length |
| `Properties.PropertyList.WriteTo` | paholib/src/MQTTProperties.c:199-222 | the writing loop writes the list's bytes |
| `Properties.ReadLoop` | paholib/src/MQTTProperties.c:273-309 | the reading loop reads what the recursive reader reads |
| `Packets.HeaderFields` | paholib/src/MQTTPacket.c:794-846 | the header byte's fields are read back as written |
| `Packets.BuffersAreThePacket` | paholib/src/MQTTPacket.c:794-846 | the buffers handed to the socket are, one after the other, the packet |
| `Packets.PublishRoundTrip` | paholib/src/MQTTPacket.c:521-562 | parsing a sent PUBLISH gives back flags, topic, id, properties and payload exactly when its properties are faithful |
| `Packets.RestorePublish` | paholib/src/MQTTPersistence.c:323-352 | a stored PUBLISH of either version is restored as sent exactly when its properties are faithful |
| `Packets.RestoreAck` | paholib/src/MQTTPersistence.c:323-352 | a stored acknowledgement is restored as sent |
| `LinkedList.List.Append` | paholib/src/LinkedList.c:72-97 | the list is the old one and the new value; links, ends, count and current agree |
| `LinkedList.List.InsertBefore` | paholib/src/LinkedList.c:108-129 | the new value comes before the given element; links, ends, count and current agree |
| `LinkedList.List.FindItem` | paholib/src/LinkedList.c:152-187 | the result matches, and is null only if nothing does; it is that of linear search exactly unless the cached element matches and is not the first match, so always when at most one element matches |
| `LinkedList.List.Unlink` | paholib/src/LinkedList.c:199-234 | exactly the element found is removed; current moves on only if it was that element |
| `LinkedList.List.DetachHead` | paholib/src/LinkedList.c:266-284 | the first value is removed and returned, or nothing from an empty list |
| `LinkedList.List.PopTail` | paholib/src/LinkedList.c:304-322 | the last value is removed and returned, or nothing from an empty list |
| `LinkedList.List.StartAt` | paholib/src/MQTTPersistence.c:538-547 | the six pointer assignments rotate the list to start at the given element |
| `Scheduler.Queue.AddCommand` | paholib/src/MQTTAsync.c:1046-1074 | an ordinary command goes to the end, CONNECT and internal DISCONNECT to the head unless repeated there |
| `Scheduler.Queue.Select` | paholib/src/MQTTAsync.c:1407-1440 | the loop with its list of ignored clients finds the first command that is its client's earliest and eligible, and none only if no client's earliest is eligible |
| `Scheduler.Queue.ProcessCommand` | paholib/src/MQTTAsync.c:1391-1449 | a command is dispatched exactly when some client's earliest is eligible, and the new state is that of the specification |
| `Scheduler.Queue.RemoveCommands` | paholib/src/MQTTAsync.c:1956-2000 | the loop removes exactly the client's commands and keeps the others in order |
| `Scheduler.Queue.Run` | paholib/src/MQTTAsync.c:1391-1449 | any run ends in the state that its events determine; each client's ordinary commands have been dispatched in the order in which the events add them, and no client that starts within its limits is above them |
| `Scheduler.DispatchedInOrder` | paholib/src/MQTTAsync.c:1391-1449 | over any events a client's ordinary commands dispatched, and then those waiting, are those its events added, in that order, without the ones removed before their turn |
| `Scheduler.AcceptedAll` | paholib/src/MQTTAsync.c:1046-1074 | in a run without removals those are exactly the ordinary commands that the events add for the client, in their order |
| `Scheduler.WithinLimits` | paholib/src/MQTTAsync.c:1418-1430 | over any events no client's in-flight count rises above the id limit or, in MQTT 5, above the receive maximum |
| `Scheduler.ChosenIfReady` | paholib/src/MQTTAsync.c:1407-1440 | a command is chosen exactly when some client's earliest is eligible |
| `Sha1.ProcessBlock` | paholib/src/SHA1.c:95-137 | with a circular schedule of 16 words the result is the block function with 80 words |
| `Sha1.Context.Update` | paholib/src/SHA1.c:173-196 | after any chunks, the whole blocks are hashed and the rest is in the buffer |
| `Sha1.Context.Final` | paholib/src/SHA1.c:139-171 | the digest is that of the message padded with the 32-bit bit count, so that of the standard below 2^29 bytes |
| `Sha1.LogicalSame` | paholib/src/SHA1.c:116-123 | the functions with or are those of the standard with exclusive or |
| `Sha1.NextWordIs` | paholib/src/SHA1.c:113-114 | the word computed in place is that of the 80-word schedule |
| `Utf8.ValidIffEncoding` | paholib/src/utf-8.c:126-145 | a byte string is accepted exactly when it is the encoding of some sequence of Unicode scalar values |
| `Utf8.Validate` | paholib/src/utf-8.c:126-145 | the character loop accepts what the recursive definition accepts |
| `Utf8.CharValidate` | paholib/src/utf-8.c:76-117 | the table loops find the length of the character at the start, or none |
| `Utf8.SignDoesNotMatter` | paholib/src/utf-8.c:98-103 | the comparisons give the same result whether char is signed or not |
| `Utf8.EncodedAccepted` | paholib/src/utf-8.c:53-64 | the encoding of every scalar value is accepted as one character |
| `Utf8.AcceptedIsEncoded` | paholib/src/utf-8.c:53-64 | every character accepted is the encoding of a scalar value |
| `Base64.DecodeEncode` | paholib/src/Base64.c:100-233 | decoding an encoding gives the bytes back |
| `Base64.EncodeLoop` | paholib/src/Base64.c:179-233 | with room for all, the encoding; otherwise whole groups that fill the buffer exactly, or nothing |
| `Base64.DecodeLoop` | paholib/src/Base64.c:100-177 | as much of the decoded string as fits the buffer, for any characters |
| `Base64.EncodeLengthExact` | paholib/src/Base64.c:250-253 | the announced length is the encoded length exactly for inputs shorter than 2^30 bytes |
| `Base64.EncodedLength` | paholib/src/Base64.c:179-233 | the encoding has four characters for every three bytes begun |
| `Base64.DecodeLengthExact` | paholib/src/Base64.c:239-248 | the decoded length announced for an encoding is that of the original |

## Left out

- EndToEnd.ExactlyOnce: the receiver is stopped between two handlers only, and an MQTT 5 client restarts only where it stays in step, because the property is false otherwise; `CrashPoints.StopsSafely`, `CrashPoints.StopsSafelyInPublish`, `CrashPoints.ForgetsSafely` and `CrashPoints.RestartsListed` are the exact conditions.
- Aftermath.LosesNext: the id is taken to be the next one assigned; that the ids come round to it is shown for one run only, by `Aftermath.LostAfterReuse`.
- CrashPoints.StopsSafelyInPublish: a stop between the PUBACK of a QoS 1 PUBLISH and passing it on loses that publication; delivery of QoS 1 is not part of this model.
- ProtocolClient.State.RestoreOne: a restored inbound MQTT 5 publication keeps its contents in the model. The program frees the topic and payload without clearing the pointers, and MQTTProtocol_removePublication frees them again on a repeated PUBLISH or when the session is cleaned; what that does is not part of this model.
- SocketReader.Reader.Factory: stops at the framed packet; the parsing of PUBLISH and acknowledgements is in `Packets`. A new queue's header length is taken as 0, which newDefQ leaves unset, and sockets are positive, as 0 marks an unused queue.
- SocketReader.Reader.Run: a socket that fails or sends a remaining length of five bytes is dropped; nothing is claimed of its later bytes.
- SocketWriter.Writer.ContinueWrites: nothing is claimed of a socket on which a write has failed.
- Sha1.Context.Final: beyond 2^29 bytes the digest is that of the message with the wrapped bit count, not that of the standard.
- Base64.DecodeLoop: input characters are taken as unsigned.
- Tree.Tree.Add: one index only, integer keys compared as TreeIntCompare does, and not the total size of the contents.
- Scheduler.Queue.ProcessCommand: what a command does once dispatched, beyond adding an outbound message.
- Keys of the store are a stem, a version and a number, not strings; the store is a map whose operations succeed, listed in any order.
- Progress of the handshake: an unknown PUBREL without DUP gets no answer, so only safety is claimed.
- Malformed packets beyond the framing, subscriptions, keep-alive, wills, the queue of received messages and its persistence, and all callbacks.
- The order of restored asynchronous commands, and the ids the asynchronous client assigns after a restore.
- Memory allocation and freeing, apart from the nodes, elements and publications that leave their structures.
- WebSocket framing, TLS, threads, timers, logging, option checking and the default file store.

# B-TRON models

Dafny models of the parts of B-TRON that hold state or do arithmetic, and proofs of what they
promise. `dafny verify dfyconfig.toml` checks the project.

**Icons** (`Bits`, `Lzw`, `IconStream`, `BitReader`, `LzwDecoder`, `GifFormat`, `Device`, `IconBlit`,
`IconLoader`, `IconTheorems`). The settings panel decodes its GIF icons itself. `LzwDecoder` is the
decoder with its prefix and suffix arrays, its stack and its bit buffer; it is proved to put out
what the decoder of `Lzw` puts out, whose table is a list of strings. `Lzw` also says what an
encoder following Appendix F of GIF89a may send (any entry that matches, clear codes anywhere, a
full table left uncleared), has the greedy encoder as an instance, and proves that decoding gives
the pixels back. `IconTheorems` puts the layers together: the file of any such encoder, framed in
any sub-blocks, with any extensions and colour tables, ends up on the device pixel by pixel.

**Chat stanzas** (`CStrings`, `ChatXml`, `ChatStanza`, `ChatPairs`, `ChatMessages`,
`ChatExact`, `ChatPresence`). Nodes, the serializer with
its truncating buffers, and the extractor that searches for substrings. The serializer is compared
with one that has no buffers, building and parsing a stanza is shown to give its fields back, and
`ChatExact` and `ChatPresence` say exactly which messages and presences survive that.

**Chat bus** (`ChatModel`, `ChatRuns`, `ChatRosters`, `ChatEntries`, `ChatBus`, `NickNames`). `ChatModel` is the
bus as a state machine on values, `ChatRuns` and `ChatRosters` prove what holds over every run of
it, `ChatEntries` says what its operations put into transcripts and rosters, and `ChatBus` is the linked list of clients with rosters and windows, each of whose operations
is proved to be a step of that machine.

**Ring queue** (`Queue`). The T-Kernel's intrusive ring on the heap, with a ghost sequence a ring.

**Terminal** (`Scrollback`, `Utf8`, `LineEditor`, `TerminalRuns`). The scrollback buffer, the command history and
the UTF-8 input line, key by key.

**Nyan sprite** (`NyanSprite`). The run-length rasterizer against expanding and then drawing, with
halfword coordinates that wrap.

**Kernel numbers** (`KernelPrint`). The reversed digit buffer of the console, and width fields.

## Where the code and its documents differ

The models follow the code.

- `CHAT.md:131` says the XML engine escapes. It does not, so a field may be taken for markup around
  another: a sender that ends in `to=` hides the receiver, a body may hold a stamp.
  `ChatExact.MessageExact` gives, for a message with all five fields, the exact condition under
  which it comes back unchanged, and `ChatExact.ReceiverMisread` a message that does not;
  `ChatPresence.PresenceExact` and `ChatPresence.PresenceMisread` do so for presence as it is
  broadcast, with no receiver, where a status may make one up.
  The stanzas the bus builds are not read by anyone: transcripts and rosters are updated from the
  arguments.
- `CHAT.md:143` gives a roster 64 places; it has 32. `CHAT.md:78` names other bots than the code.
- Nothing keeps two clients from using one nick, and rosters are keyed by nick. Roster agreement
  under a nick therefore asks that nobody joins under it while it is in use.
  `ChatRosters.AnnouncementAgrees` says for any state exactly when an announcement leaves a roster
  that has a place for the nick right, `ChatRosters.SharedNickRun` is a run from the empty bus that leaves one wrong, and
  `NickNames.NicksRepeat` shows that generated nicks repeat after 18.
- The comment on `QueRemove` promises nothing happens for an empty entry. An entry that has left
  its ring is not empty in that sense: removing it again leaves a ring alone exactly when each of
  its two old neighbours is no member of it or still joined to the other one
  (`Queues.LateRemove`); `Queues.LateRemoveBreaks` and `Queues.LateRemoveSpares` are an instance
  each way.
- A UTF-8 character of four bytes counts four cells in the terminal's width computation, because
  its lead byte has no case of its own (`Utf8.WidthOfCharacters`).

## Model

| member | source | states |
|---|---|---|
| IconStreams.IconStream.Getc | include/btron/settings_icon.h:53-62 | takes the first of the bytes left, or gives -1 and leaves nothing changed at the end |
| IconStreams.IconStream.Read | include/btron/settings_icon.h:64-78 | copies as many of the bytes left as there are, up to n, and no others; the rest of the buffer is untouched |
| IconStreams.IconStream.Skip | include/btron/settings_icon.h:80-94 | moves either way, stopping at the ends |
| IconStreams.PayloadOfFramed | include/btron/settings_icon.h:254-260 | any bytes cut into blocks of 1 to 255 and terminated are read back as those bytes (GIF89a section 15) |
| IconStreams.FramingDoesNotMatter | include/btron/settings_icon.h:254-260 | two ways of cutting the same bytes give the reader the same bytes |
| Bits.OrAppends | include/btron/settings_icon.h:261-262 | or-ing a byte shifted left by the bit count puts its bits above the pending ones, on 32-bit words |
| Bits.MaskKeeps | include/btron/settings_icon.h:265 | the mask keeps the low bits of the buffer |
| Bits.ShrDrops | include/btron/settings_icon.h:266 | the shift drops the bits that were taken and keeps the others |
| Bits.PackKeepsBits | include/btron/settings_icon.h:254-267 | bits packed into bytes, least significant first, are the first bits read back |
| BitReaders.BitReader.constructor | include/btron/settings_icon.h:238-251 | to begin with the bits to come are all the bits of the payload |
| BitReaders.BitReader.Refill | include/btron/settings_icon.h:255-260 | opens the next sub-block when one is used up, losing no byte, and fails exactly when no data byte is left |
| BitReaders.BitReader.Fill | include/btron/settings_icon.h:254-264 | succeeds exactly when the data has w more bits, and changes nothing about the bits to come; the buffer stays below 2 to the count and the count below 20 |
| BitReaders.BitReader.NextCode | include/btron/settings_icon.h:254-267 | the code is the value of the next w bits of the payload, whatever the framing, and exactly those bits are gone |
| Lzw.WidthIsLeast | include/btron/settings_icon.h:298-301 | the width in force holds every code that may come, and one bit less would not, up to 12 bits |
| Lzw.WidthGrows | include/btron/settings_icon.h:298-301 | the decoder's rule (past the mask, one bit more) keeps the width what the table size calls for |
| Lzw.ControlCodes | include/btron/settings_icon.h:232-233 | the clear code is 1 shifted by the minimum code size, and the end code the next |
| Lzw.SpellBounds | include/btron/settings_icon.h:278-288 | no expected code spells more than the table size less the end code plus one, so 4096 bytes at most; control codes are never expected as strings |
| Lzw.LearnKeepsWellFormed | include/btron/settings_icon.h:294-303 | learning keeps the table within 4096, entry k within k - end code + 1 bytes, and the colours in place |
| Lzw.EmitStep | include/btron/settings_icon.h:278-303 | the decoder stays one entry behind every encoder: it expects each code sent, also the one it is about to make, and spells the encoder's string |
| Lzw.RoundTrip | include/btron/settings_icon.h:253-304 | decoding what an encoder emits gives its pixels, for every minimum code size, with clears anywhere, a table that fills and is left full, and whatever follows |
| Lzw.GreedyEncodes | include/btron/settings_icon.h:253-304 | the greedy encoder of Appendix F is one of those encoders, with any schedule of clear codes |
| Lzw.GreedySendsLongest | include/btron/settings_icon.h:294-297 | from the initial table, every code the greedy encoder sends is for the longest string of the table at that point, and every entry it adds is new |
| Lzw.LongestIsLongest | include/btron/settings_icon.h:294-297 | the string it sends is the longest one in the table that the input goes on with, and the entry it adds is new |
| LzwDecoders.LzwDecoder.constructor | include/btron/settings_icon.h:232-248 | the arrays hold the initial table |
| LzwDecoders.LzwDecoder.Follow | include/btron/settings_icon.h:283-288 | following prefixes ends (they point at older entries) and leaves the entry's string on the stack last byte first, never past its end |
| LzwDecoders.LzwDecoder.Unwind | include/btron/settings_icon.h:278-288 | the stack read backwards is the string the dictionary decoder spells, for the code being made too; first_char is its first byte |
| LzwDecoders.LzwDecoder.Flush | include/btron/settings_icon.h:290-292 | exactly the first bytes of the string that the image has room for go out, in order, and the pixel buffer is otherwise untouched |
| LzwDecoders.LzwDecoder.Grow | include/btron/settings_icon.h:294-303 | the arrays spell the table after learning: entry k is always entry prefix[k] followed by suffix[k] |
| LzwDecoders.LzwDecoder.Reset | include/btron/settings_icon.h:269-275 | a clear code brings the tables back to the start |
| LzwDecoders.LzwDecoder.Step | include/btron/settings_icon.h:253-304 | a turn of the loop takes bits and keeps the final outcome what the dictionary decoder would give; the stack is empty between turns |
| LzwDecoders.LzwDecoder.Run | include/btron/settings_icon.h:253-304 | the pixels put out are the dictionary decoder's, and the rest of the buffer is unchanged |
| GifFormat.SkipsFramed | include/btron/settings_icon.h:198-208 | skipping a run of sub-blocks ends right after its terminator |
| GifFormat.ExtensionsRead | include/btron/settings_icon.h:190-209 | extensions are passed over whatever they are, and the last graphic control with its flag set decides the transparent index |
| GifFormat.LastControlDecides | include/btron/settings_icon.h:192-197 | behind any extensions a graphic control with its low flag bit set makes its index the transparent one, and any other extension leaves it |
| GifFormat.EntryBytes | include/btron/settings_icon.h:179-181 | the high, middle and low byte of colour i are bytes 3i, 3i + 1 and 3i + 2 of the table, and black where the table has none |
| GifFormat.FlagsByBits | include/btron/settings_icon.h:170-172 | the flags and the table size are those of the masks and the shift |
| GifFormat.SmallFile | include/btron/settings_icon.h:165-231 | what the loader finds in a file given byte by byte |
| GifFormat.ParseOfFile | include/btron/settings_icon.h:165-231 | from a file with any header, global or local colour table and extensions the loader finds the size, the palette, the transparent index, the code size and the data that were written |
| IconLoaders.SkipRun | include/btron/settings_icon.h:198-208 | the skipping loop ends and leaves the stream past the run |
| IconLoaders.ReadExtension | include/btron/settings_icon.h:191-209 | the transparent index and the position after an extension, complete or cut short |
| IconLoaders.ReadPalette | include/btron/settings_icon.h:176-182 | 256 colours, black where the table has none, or failure exactly when bytes are missing |
| IconLoaders.ReadHeader | include/btron/settings_icon.h:165-182 | fails only when the file has no image to find; otherwise what is left to parse is the sections with that palette |
| IconLoaders.ReadDescriptor | include/btron/settings_icon.h:211-231 | finds an image exactly when descriptor, colour table and code size are there and good |
| IconLoaders.FindImage | include/btron/settings_icon.h:187-232 | the section loop ends with exactly the image that the file is found to hold, or none |
| IconLoaders.Decompress | include/btron/settings_icon.h:238-304 | the pixel buffer is the decoded pixels and then what it held before |
| IconLoaders.DrawScaled | include/btron/settings_icon.h:111-341 | true exactly when the file has an image; then every device pixel is the palette colour sampled for it or as before, and without an image nothing changes |
| IconBlits.SampleCovers | include/btron/settings_icon.h:318-327 | the sampled column is in the icon and is the one over the target column |
| IconBlits.SampleIdentity | include/btron/settings_icon.h:318-327 | at equal sizes every pixel samples itself |
| IconBlits.SampleMonotone | include/btron/settings_icon.h:318-327 | sampling never goes backwards |
| Devices.CellsDiffer | include/btron/settings_icon.h:332 | different pixels are different cells of the frame |
| Devices.CellsRowByRow | include/btron/settings_icon.h:332 | cells go row by row from the top left |
| IconBlits.Blit | include/btron/settings_icon.h:312-334 | each pixel inside clip, device and target that is not transparent gets its palette colour, and every other one is untouched |
| IconTheorems.EncodedDataDecodes | include/btron/settings_icon.h:253-304 | an encoder's bits, packed and cut into sub-blocks anyhow, decode to the pixels |
| IconTheorems.EncodedFileIsDrawable | include/btron/settings_icon.h:165-304 | the loader accepts the file of every such encoder, and its pixel buffer then begins with the pixels |
| IconTheorems.GreedyFileIsEncoded | include/btron/settings_icon.h:165-304 | files written with the greedy encoder are among them |
| IconTheorems.EncodedIconIsSampled | include/btron/settings_icon.h:306-334 | drawn at any size, every target pixel in the clip shows the encoded colour of the pixel it samples, transparent and other device pixels are as before |
| IconTheorems.EncodedIconAtSize | include/btron/settings_icon.h:306-334 | the box drawn is as wide and high as asked for, 64 where more is asked for, and the icon's own side, at most 64, where none is; in it and in the clip each pixel shows the colour of the encoded pixel in the same proportion unless that is transparent, and everything else is as before |
| IconTheorems.EncodedIconShowsItsPixels | include/btron/settings_icon.h:306-334 | an icon of at most 64 by 64 drawn at its own size shows, pixel by pixel, the colours that were encoded |
| ChatXml.XmlNode.AddAttr | src/apps/chat_xml.c:85-90 | the tree has one attribute more, cut to its buffers, or is unchanged when eight are there |
| ChatXml.XmlNode.GetAttr | src/apps/chat_xml.c:92-100 | the value of the first attribute with that key, if any |
| ChatXml.XmlNode.AddChild | src/apps/chat_xml.c:102-105 | the tree has the child's tree as its last child, or is unchanged when sixteen are there |
| ChatXml.XmlNode.GetChild | src/apps/chat_xml.c:107-115 | the first child with that tag, or null when none has it |
| ChatXml.XmlNode.Format | src/apps/chat_xml.c:118-155 | the text is the one the bounded serializer gives for the node's tree |
| ChatXml.FormattedIsIdeal | src/apps/chat_xml.c:118-155 | for every tree whose parts fit their buffers, the output is as much of the unbounded text as max characters with the NUL hold |
| ChatXml.FormattedFits | src/apps/chat_xml.c:118-155 | for every tree the output leaves room for its NUL |
| ChatXml.ElementText | src/apps/chat_xml.c:118-155 | how an element is written, in an example with an attribute, a text and an empty child |
| ChatStanza.AttrRead | src/apps/chat_xml.c:202-219 | searching a stanza for an attribute gives its value cut to the caller's buffer, or nothing when it is absent |
| ChatStanza.TagRead | src/apps/chat_xml.c:221-239 | searching for an element gives its text cut to the caller's buffer; absent and empty read alike |
| ChatStanza.FirstAttrExact | src/apps/chat_xml.c:202-219 | a first attribute comes back exactly when it fits and holds no quote and no closing bracket |
| ChatStanza.FirstTagExact | src/apps/chat_xml.c:221-239 | a first element comes back exactly when it fits and its text does not contain its own closing tag |
| ChatMessages.BuildMessage | src/apps/chat_xml.c:179-199 | the text of the tree with the given attributes and elements, absent ones left out |
| ChatMessages.BuildPresence | src/apps/chat_xml.c:158-177 | the same for presence |
| ChatMessages.MessageRoundTrip | src/apps/chat_xml.c:118-251 | parsing a built message gives every field cut to its buffer, and nothing for absent ones |
| ChatMessages.PresenceRoundTrip | src/apps/chat_xml.c:118-262 | the same for presence |
| ChatMessages.PresenceFits | src/apps/chat_xml.c:118-177 | presence as the bus sends it always fits, in under 512 characters |
| ChatMessages.PresenceUnchanged | src/apps/chat_xml.c:158-262 | and comes back unchanged, with no receiver |
| ChatMessages.MessageFits | src/apps/chat_xml.c:118-199 | fields within the limits of the bus always fit, and the message is under 512 characters |
| ChatMessages.MessageUnchanged | src/apps/chat_xml.c:179-251 | within those limits all five fields come back unchanged through a 512-character buffer |
| ChatMessages.SenderUnchanged | src/apps/chat_xml.c:202-244 | the sender comes back exactly when it has at most 63 characters, none a quote or a closing bracket, whatever the other fields hold |
| ChatMessages.BodyUnchanged | src/apps/chat_xml.c:221-247 | the body comes back exactly when it has at most 255 characters and no closing body tag among them, unless an attribute holds an opening one |
| ChatStanza.PastAttr | src/apps/chat_xml.c:202-219 | the search for an attribute passes over a clean one before it, except where that one's value ends in the name and an equals sign: there it stops |
| ChatStanza.OtherLeaf | src/apps/chat_xml.c:221-239 | the search for an element stops in the text of one before it that holds its tag, and passes over any other |
| ChatExact.ToExact | src/apps/chat_xml.c:202-245 | the receiver comes back, behind a clean sender, exactly when it fits and is clean, or is what the search finds when the sender ends in `to=` |
| ChatExact.KindExact | src/apps/chat_xml.c:202-246 | the same for the type, behind a clean sender and receiver |
| ChatExact.BodyExact | src/apps/chat_xml.c:221-247 | the body comes back exactly when it fits and does not close itself, or is empty and the stamp holds none |
| ChatExact.StampExact | src/apps/chat_xml.c:221-248 | the stamp comes back exactly when it fits and does not close itself, behind a body that holds no stamp tag; behind one that does, exactly when it is the body's text up to a closing stamp tag, cut to the buffer, or where there is none, is empty or the body's rest and the markup between them over again |
| ChatPairs.FirstExact | src/apps/chat_xml.c:221-239 | of two elements with any texts, the first comes back exactly when it fits and does not close itself, or is empty and the second holds none |
| ChatPairs.SecondExact | src/apps/chat_xml.c:221-239 | and the second exactly under the condition given for the stamp, for any tags and buffer |
| ChatPairs.CycleExact | src/apps/chat_xml.c:221-239 | reading on over the markup into a text gives that text back exactly when it fills the buffer and repeats what precedes it |
| ChatExact.MessageExact | src/apps/chat_xml.c:179-251 | for all five fields and no other assumption: the parsed message is the one built exactly when all of this holds |
| ChatExact.ReceiverMisread | src/apps/chat_xml.c:202-245 | a message from `to=` does not come back |
| ChatPresence.ReceiverAbsent | src/apps/chat_xml.c:202-219 | behind a clean sender no receiver is read exactly when the sender ends in `to=` or what the search comes to in the texts begins with the end of a value |
| ChatPresence.PresenceExact | src/apps/chat_xml.c:158-262 | for any sender, show and status and no other assumption: the presence broadcast is parsed as it was built, with no receiver, exactly when sender, show and status fit, the sender is clean, no text makes up a receiver and the elements survive |
| ChatPresence.PlainShow | src/apps/chat.c:212-216 | with a plain word for show, as the bus sends it, only the sender and the status matter |
| ChatPresence.PresenceMisread | src/apps/chat_xml.c:253-262 | a status of `to="x"` does not come back |
| ChatRuns.StepCards | src/apps/chat.c:128-185 | ids stay strictly descending; joining puts one fresh client in front, leaving takes out exactly that client and keeps the order of the others, a status change is the client's own, and nothing else alters who is there |
| ChatRuns.RunIsOrdered | src/apps/chat.c:128-185 | over every run |
| ChatRuns.StepEffect | src/apps/chat.c:187-341 | what each operation on the whole list does to one client that stays |
| ChatRuns.TranscriptOverRun | src/apps/chat.c:187-341 | over every run in which a client stays, its transcript is what it was followed by all the bus carried since, the last 64 entries of it |
| ChatRuns.RoomAgreement | src/apps/chat.c:187-341 | two clients in the room agree on everything since both were there, as far back as 64 entries: joins, parts, messages and bot replies |
| ChatRuns.RoomAgreementInEveryRun | src/apps/chat.c:128-341 | the same at any point of any run from the empty bus |
| ChatEntries.SayIsTold | src/apps/chat.c:245-279 | in every open room a message is then the newest entry under the speaker's nick, its text cut to 255 characters; but when it mentions the specification, or else greets, the bot's answer with exactly that text comes behind it, and never otherwise |
| ChatEntries.JoinIsTold | src/apps/chat.c:154-157 | in every open room the newest entry is then the system's notice of who came |
| ChatEntries.LeaveIsTold | src/apps/chat.c:165-168 | and of who left |
| ChatEntries.RoomOpensWithGreeting | src/apps/chat.c:743-771 | an opened room holds the greeting alone |
| ChatEntries.JoinedClient | src/apps/chat.c:104-150 | who joins is first in the list, online, under its nick's address on the server, without a room and with the three default buddies |
| ChatEntries.BuddyIsListed | src/apps/chat.c:697-706 | an added buddy comes last in the roster, with the defaults for empty fields |
| ChatRosters.RosterOverRun | src/apps/chat.c:209-243 | over every run, the first roster entry under a nick says what was last announced under it |
| ChatRosters.TrueOverRun | src/apps/chat.c:128-243 | over every run in which nobody joins under the nick while it is in use, what was last announced under it is its holder's status and text, or offline |
| ChatRosters.RosterAgreement | src/apps/chat.c:128-243 | so a's roster shows the status of everyone who announced anything under such a nick while a was registered, offline for those who left; the nick is missing only from a full roster |
| ChatRosters.AnnouncedIsListed | src/apps/chat.c:228-239 | whoever announces anything while a's roster has room, or lists them, is listed ever after |
| ChatEntries.HeardKnown | src/apps/chat.c:224-232 | an announcement under a listed nick changes status and text of the first entry under it, no address, nick or group, and no other entry |
| ChatEntries.HeardNew | src/apps/chat.c:233-240 | under a nick not listed it adds an entry with the announcer's address in the general group, or changes nothing when 32 are there |
| ChatEntries.NamesOverRun | src/apps/chat.c:209-243 | over a run no entry of a roster changes its address, nick, group or place |
| ChatEntries.ListedAddress | src/apps/chat.c:233-240 | who is first announced while there is room is, over any run that follows, first listed in the place then free, under its address and in the general group |
| ChatEntries.JoinedAddress | src/apps/chat.c:146-152 | so a client that joins is listed under its nick at the server |
| ChatRosters.RosterAgreementInEveryRun | src/apps/chat.c:128-243 | roster agreement at any point of any run from the empty bus in which nobody joins under the nick while it is in use |
| ChatRosters.AnnouncementAgrees | src/apps/chat.c:209-243 | in any state, after a join, a leave or a status change under a nick a's roster has a place for, a's entry agrees with every other holder of it exactly when all who held it before, but for a and the announcer, are as is announced |
| ChatRosters.SharedNickRun | src/apps/chat.c:128-185 | a run from the empty bus: two clients join under one nick, one leaves, and the roster says offline for the other, who is online |
| ChatRosters.SharedNickMisleads | src/apps/chat.c:162-185 | when one of two clients with the same nick leaves, every roster with a place for the nick says offline although the other is not |
| ChatBus.ChatWindow.Append | src/apps/chat.c:187-207 | the transcript is the old one, the oldest dropped when 64 are there, and a last entry with the sender cut to 31 characters, the text cut to 255 and the kind |
| ChatBus.ChatClient.Hear | src/apps/chat.c:221-239 | the first entry under the nick is updated, or one is added while there is room, and nothing else in the roster changes |
| ChatBus.Broker.AppendToAll | src/apps/chat.c:331-341 | walking the list, every client with a room open gets the entry once, and nothing else changes |
| ChatBus.Broker.BroadcastPresence | src/apps/chat.c:209-243 | every other client hears of it once, and its own roster is unchanged |
| ChatBus.Broker.SendToRoom | src/apps/chat.c:245-279 | is the Say step: the message and then the bot's answer to everybody, nothing for an empty text |
| ChatBus.Broker.Register | src/apps/chat.c:138-160 | is the Join step, and the new client is fresh and first in the list |
| ChatBus.Broker.RegisterClient | src/apps/chat.c:128-160 | with the nick asked for, or a generated one when none is |
| ChatBus.Broker.Unregister | src/apps/chat.c:162-185 | is the Leave step, and the linked list is the old one without that client |
| ChatBus.Broker.Unlink | src/apps/chat.c:173-182 | relinking takes out exactly one client, first or not, and the list stays a list |
| ChatBus.Broker.CycleStatus | src/apps/chat.c:625-629 | is a status change to the next of the four |
| ChatBus.NextGoesRound | src/apps/chat.c:625-629 | from offline to online, away, do not disturb and back |
| ChatBus.Broker.ToggleConnected | src/apps/chat.c:618-622 | is a status change to online or offline |
| ChatBus.Broker.AddBuddy | src/apps/chat.c:697-706 | is the AddBuddy step: an entry with the defaults for empty fields, while there is room |
| ChatBus.Broker.OpenRoom | src/apps/chat.c:743-771 | is the OpenRoom step: a fresh window with the greeting, or nothing when one is open |
| NickNames.NickGenerator.Generate | src/apps/chat.c:66-80 | the nick of the counter, cut to the buffer, and the counter moved on by 19 in 32 bits |
| NickNames.NickParts | src/apps/chat.c:66-80 | the prefix the counter names, a hyphen, and the role it names |
| NickNames.FirstNicks | src/apps/chat.c:70-80 | the first two nicks of a build without a clock |
| NickNames.NicksRepeat | src/apps/chat.c:66-80 | until the counter wraps, two generated nicks are equal exactly when they are a multiple of 18 calls apart |
| Queues.Rotate | include/sys/queue.h:30-45 | a ring is a ring from wherever one starts |
| Queues.Queue.Init | include/sys/queue.h:41-45 | the entry is a ring of its own |
| Queues.Queue.IsEmpty | include/sys/queue.h:50-53 | true exactly when the ring has one member |
| Queues.Queue.InsertBefore | include/sys/queue.h:59-65 | round the ring from que, the entry comes last and the others keep their places |
| Queues.Queue.Remove | include/sys/queue.h:72-78 | whoever the entry points at become neighbours, and where they are in one ring what lay between is out; an entry linked to itself changes nothing, and its own links stay |
| Queues.Queue.RemoveNext | include/sys/queue.h:86-99 | takes out the successor and returns it, or null and no change for a ring of one |
| Queues.RemoveTwice | include/sys/queue.h:72-78 | removing a member deletes exactly it, removing it again at once changes nothing, and its own links are as they were |
| Queues.LateRemove | include/sys/queue.h:66-78 | removing an entry that is no member of a ring leaves it a ring exactly when each entry it points at is no member either or still joined to the other |
| Queues.LateRemoveBreaks | include/sys/queue.h:66-78 | from the ring h, a, b, c: with b and then a out, removing b again breaks the ring of h and c |
| Queues.LateRemoveSpares | include/sys/queue.h:66-78 | with c out too, removing b again leaves the ring of h alone although the old neighbours have parted |
| Queues.NothingIsCut | include/sys/queue.h:72-78 | the ring a removal leaves between two members is all of it exactly if they were neighbours |
| Queues.FirstInFirstOut | include/sys/queue.h:59-99 | whatever is inserted at the head comes out by remove-next in the same order, and the ring is empty again |
| Queues.Search | include/sys/queue.h:101-131 | ends, with the first entry strictly between start and end whose key meets the condition, or end |
| Queues.SearchRev | include/sys/queue.h:141-155 | ends, with the last such entry, or end |
| Queues.InsertByPriority | src/kernel/wait.h:79-97 | the entry goes behind all that are no greater and before the first greater one; a sorted ring stays sorted and equals keep their order |
| Scrollback.SegmentsAreLines | src/apps/gterm.c:265-273 | the lines of a text hold no newline and at most 256 bytes, and together are the text without its newlines |
| Scrollback.SegmentsEndAtNewlines | src/apps/gterm.c:269-273 | a line ends only at a newline, when it has 256 bytes, or with the text, and the next ones are those of what is behind it and that one newline |
| Scrollback.LineBuffer.AppendLine | src/apps/gterm.c:261-286 | the splitting loop ends, and the buffer has the old lines and the new ones with their colour, the last 300 of them |
| Scrollback.ScrollbackOverRun | src/apps/gterm.c:261-286 | over any run of appends it holds the last 300 of all the lines produced |
| Utf8.BackspaceRemovesOne | src/apps/gterm.c:931-940 | backspace takes off exactly the last character of well-formed text |
| Utf8.BackspaceKeepsValid | src/apps/gterm.c:931-940 | and leaves well-formed text |
| Utf8.WidthOfCharacters | src/apps/gterm.c:134-155 | 8 pixels for a character of one or two bytes, 16 for three, 32 for four |
| Utf8.TailStep | src/apps/gterm.c:134-155 | on well-formed text no step of the width loop goes past the end |
| Utf8.ValidStepsFit | src/apps/gterm.c:134-155 | so the loop stays within well-formed text |
| Utf8.CalcPixelWidth | src/apps/gterm.c:134-155 | the loop adds up the width of any bytes its steps stay within |
| LineEditor.PressKeepsGood | src/apps/gterm.c:883-976 | each key keeps the line within 245 bytes of well-formed UTF-8, the history within 32 such commands, and its index in range |
| LineEditor.RunKeepsGood | src/apps/gterm.c:883-976 | over every run of keys |
| LineEditor.EnteredIsRecalled | src/apps/gterm.c:679-688 | a command is remembered untruncated as the newest, and the next Up brings it back |
| LineEditor.UpsAndDowns | src/apps/gterm.c:941-958 | from a fresh prompt k Ups show the k-th newest command or stop at the oldest, and k Downs bring the empty prompt back |
| TerminalRuns.TypedText | src/apps/gterm.c:967-975 | typed characters reach the line in order while it has room, and nothing else changes |
| TerminalRuns.TypedTooMuch | src/apps/gterm.c:967-975 | of more than fits, the line is the first 245 bytes |
| TerminalRuns.EditingKeys | src/apps/gterm.c:891-965 | commits and tabs go in whole or not at all, two keys empty the line, and none touches the history |
| TerminalRuns.CommittedTexts | src/apps/gterm.c:911-921 | commits one after another go in like one text |
| TerminalRuns.TakenBack | src/apps/gterm.c:931-940 | as many backspaces as characters went in leave the line as it was |
| TerminalRuns.EnterRemembers | src/apps/gterm.c:679-688 | the history after Enter: the line last, the oldest of 32 dropped, an empty line not remembered; the prompt is fresh |
| TerminalRuns.TypedCommand | src/apps/gterm.c:679-688 | a command typed at a fresh prompt is the newest in the history after Enter |
| TerminalRuns.CommandIsShown | src/apps/gterm.c:671-702 | Enter leaves prompt and line in white and then what the command prints, the last 300 lines; the two clearing commands leave nothing |
| TerminalRuns.InterruptIsShown | src/apps/gterm.c:891-899 | Ctrl-C leaves prompt, line and ^C in red as the newest line |
| LineEditor.TerminalInput.PressBackspace | src/apps/gterm.c:931-940 | the buffer, its length and the place of its NUL after a backspace |
| LineEditor.TerminalInput.Recall | src/apps/gterm.c:941-952 | the buffer holds exactly the remembered command, over whatever was there |
| LineEditor.TerminalInput.Remember | src/apps/gterm.c:679-688 | the history has the command last, the oldest dropped when 32 are there, and the index is past it |
| LineEditor.TerminalInput.HandleKey | src/apps/gterm.c:883-976 | every key changes buffer, history, index and scrollback as the editor model says and keeps its invariant |
| NyanSprites.CursorStep | include/btron/nyan_bitmaps.h:850-853 | the cursor moves from column and row of pixel k to those of pixel k + 1, the row as a halfword |
| NyanSprites.RowIsQuotient | include/btron/nyan_bitmaps.h:833-853 | the row is k div 150 exactly until the halfword wraps |
| NyanSprites.DrawSprite | include/btron/nyan_bitmaps.h:823-856 | the device shows what drawing the expanded picture pixel by pixel in order shows |
| NyanSprites.HitsExactly | include/btron/nyan_bitmaps.h:843-847 | for every halfword position and picture of any length, pixel k paints exactly the clipped-in device pixel in its column whose row is its own modulo 65536 |
| NyanSprites.DrawnIsPicture | include/btron/nyan_bitmaps.h:841-853 | for every halfword position and picture of up to 32768 rows, that is the picture: each clipped-in visible pixel, and everything else as before |
| NyanSprites.LongPictureWraps | include/btron/nyan_bitmaps.h:843-853 | a longer picture comes round: its row 65535 can land on the first line |
| NyanSprites.ExpandedLength | include/btron/nyan_bitmaps.h:835-841 | the picture has as many pixels as the counts of the spans add up to |
| NyanSprites.ExpandedAt | include/btron/nyan_bitmaps.h:835-841 | pixel i of a span, behind all pixels of the spans before, has the palette colour of the span's index, or none for an index beyond 13 |
| NyanSprites.SpanOnDevice | include/btron/nyan_bitmaps.h:835-853 | after drawing, each pixel of each span shows its colour at its place on the device, unless it has no opacity or is clipped |
| NyanSprites.BesideThePicture | include/btron/nyan_bitmaps.h:835-853 | and device pixels under no picture pixel are as before |
| KernelPrint.DigitsRead | src/cores/core_arm64.c:83-95 | the digits read back in their base give the number, with no leading zero |
| KernelPrint.DigitCount | src/cores/core_arm64.c:83-95 | a number has at most k digits exactly when it is below the base to the k |
| KernelPrint.WordDigits | src/cores/core_arm64.c:84-95 | the digits of a 32-bit number fit the buffer: ten in decimal and eight in hexadecimal at most |
| KernelPrint.PrintNum | src/cores/core_arm64.c:83-104 | sends padding and then the digits |
| KernelPrint.PrintedShape | src/cores/core_arm64.c:83-104 | the larger of width and digit count characters, padding first, and the last ones read back as the number |
| KernelPrint.ParseWidth | src/cores/core_arm64.c:117-123 | the padding character, the value of the longest run of digits, and the position after it |
| KernelPrint.WidthFieldRead | src/cores/core_arm64.c:117-123 | a width written in decimal is read as that width |
| KernelPrint.ConversionRead | src/cores/core_arm64.c:117-125 | in front of a conversion letter the width is read whole and the letter comes next |
| KernelPrint.DigitsAreTen | src/cores/core_arm64.c:120 | the width goes on for the ten digits exactly |

## Left out

- IconLoaders.DrawScaled: asks that an image found has positive dimensions, at most 4096 pixels and only codes the decoder expects; the code promises nothing for other files.
- LzwDecoders.LzwDecoder.Run: asks for a stream of expected codes, as GIF89a requires of encoders.
- ChatMessages.MessageUnchanged: one way only, since it covers absent fields too; ChatExact.MessageExact is the exact condition for messages with all five fields, the only ones the bus builds.
- ChatMessages.PresenceUnchanged: one way only, since it covers absent fields too; ChatPresence.PresenceExact is the exact condition for presence as the bus builds it.
- ChatBus.Broker.OpenRoom: a window opens whenever it is asked for; failure to open or allocate one is not modelled.
- LineEditor.TerminalInput.HandleKey: what a shell command prints, the listing of `history` too, is an input, and so are the input method's commits and the key after shift and caps lock.
- Utf8.CalcPixelWidth: bytes that end inside a character, over whose end the loop steps.
- KernelPrint.PrintNum: widths up to 32, the size of the local buffer, and bases 10 and 16, the ones in use.
- NyanSprites.DrawSprite: the clip rectangle lies in the device, as the code assumes without a check.
- Interlaced images, which the decoder does not deinterlace.
- The choice of an icon by name and the file fallback of hosted builds: an icon is the bytes of its file.
- 32-bit overflow of client ids and of the icon's pixel coordinates.
- Private messages and their windows, closing windows, time stamps, colours and scroll positions of the chat.
- Null strings, output pointers and out-of-memory cases of the XML functions; freeing nodes.
- Painting, menus, mouse handling and settings of the terminal and the chat.
- The other conversions of `kprintf`, and its carriage returns.
- The choice of a frame of the animation and the bitmap tables.

# A model of an IRC server and client

These modules model the state-keeping and text-handling core of an IRC server and client
written in C, and prove what that code is meant to guarantee. The string code works on
character arrays with NUL terminators, the session on linked nodes and shared objects, the
indexes on arrays of slots with a chained hash table beside them, and the rings and the line
editor on arrays. Each method is proved against a specification on plain values, and the
laws are proved about that specification.

Six groups belong together:

- **Framing and transport** (`CString`, `Framing`, `FramingSafety`, `TransportSpec`,
  `StringUtils`, `MessageList`, `Transport`): bytes that arrive in any chunks become CR-LF
  terminated messages (section 2.3 of RFC 1459 and of RFC 2812) in a bounded buffer.
- **Messages** (`Tokens`, `Tokenizer`, `Concat`, `IrcMessages`, `CommandParser`, `FdTag`,
  `EndToEnd`): building a message (section 2.3.1 of RFC 1459), parsing it, and tagging it with a
  descriptor on its way through the queues; `EndToEnd` puts these and the transport together.
- **Session** (`LinkedLists`, `Rosters`, `NameLists`, `SessionSpec`, `SessionProofs`,
  `SessionEffects`, `Sessions`, `Fanout`): who is in which channel, which channels have something to send, and
  what a flush sends to whom. `Sessions.Session.view` shows the heap structure by names; all
  runs are reasoned about on that view.
- **Indexes** (`HashTables`, `FdIndex`, `PollManagers`, `SessionStates`, `TcpServers`): the
  hash table as a finite map, the poll set and the slot table that it speeds up, and the
  states of the clients.
- **Rings** (`Remainders`, `Queues`, `Scrollbacks`): a queue that drops its oldest item, and
  the viewport over the client's scrollback.
- **Editor and work partition** (`LineEditors`, `ThreadPools`).

`Common` holds what they share.

Where the code does what it is meant to only under a condition, the theorem says exactly
when, in both directions: `Framing.ChunkIndependence`, `TransportSpec.WireRecovered`,
`SessionProofs.RunKeeps`, `Concat.ConcatenatedIsJoin`, `IrcMessages.LineIsJoin`,
`CommandParser.ParseUndoesCreate`, `CommandParser.ExitsWhen`, `FdTag.TagRoundTrip`,
`Scrollbacks.RunKeeps`, `Scrollbacks.ShowsTheEnd`, `Scrollbacks.CountingUpEnds` and `EndToEnd.LinesArrive`.

Assumptions: strings passed to the string functions are NUL-terminated and do not overlap
their destination, as their callers see to. `hash` is any function of the key. A read is any
chunk of at most 512 bytes, a write accepts any part of its data, and the callback that
writes a message prefix is represented by the text it writes. The text that a command sends to a channel is a parameter
of the command. `AddClient` and `SetPollFd` get descriptors that are not in use. In the
dispatcher and the command handler `MAX_CHARS` is 510 (server/src/command_handler.h:8-11), in
the other files 512; both appear in the model, as `LINE_CHARS` and `MAX_CHARS`, and
`ParseMessage` takes the limit as a parameter.

## Model

| member | source | states |
|---|---|---|
| `Framing.ChunkIndependence` | server/src/tcp_server.c:587-607 | For every stream and every way of cutting it into chunks: reading chunk by chunk emits exactly the CR-LF split of the whole stream and keeps exactly the tail after the last CR-LF, if and only if no chunk overflows the buffer and no unfinished line fills it; a delimiter may arrive in two chunks |
| `Framing.SplitAppend` | libs/src/string_utils.c:144-170 | Cutting may stop anywhere and go on with the leftover in front of what follows: the messages of a concatenation are the messages of the first part followed by those of leftover plus second part |
| `Framing.SplitCuts` | libs/src/string_utils.c:144-170 | The split loses and adds nothing: the messages, each with its delimiter, and the leftover are the input again; each message ends at the first delimiter after its start and the leftover holds none |
| `Framing.CutUnique` | libs/src/string_utils.c:144-170 | The split is the only decomposition of a string with those properties |
| `Framing.RunWeight` | server/src/tcp_server.c:588-607 | In any run the messages and the leftover account for at most the bytes received, and for fewer as soon as one chunk does not fit |
| `Framing.OverflowForgets` | server/src/tcp_server.c:588-607 | In any run, a chunk that overflows behind what is stored then emits nothing and empties the buffer: the messages are those of the run before it followed by those of the chunks after it read from an empty buffer, and the leftover is theirs |
| `Framing.FeedOverflow` | server/src/tcp_server.c:588-599 | A chunk that does not fit behind the stored line is lost, and the line with it |
| `Framing.FeedFitting` | server/src/tcp_server.c:588-607 | A chunk that fits is cut together with the stored line, which is lost only when it then fills the buffer without a delimiter |
| `Framing.FeedLeft` | server/src/tcp_server.c:605-607 | Between reads the stored leftover is shorter than the buffer and holds no delimiter, whatever the chunk was |
| `FramingSafety.EmittedArePieces` | server/src/tcp_server.c:588-607 | In every run, overflow included: the emitted messages are contiguous, disjoint pieces of the received stream in order, each ended there by its own delimiter, at most 510 characters long and free of CR-LF, so bytes are never joined across a dropped chunk |
| `Transport.Receiver.Read` | server/src/tcp_server.c:552-611 | One read: the chunk is appended as a whole or not at all, the status says whether a delimiter is stored, and a full buffer without one is cleared |
| `Transport.Receiver.ProcessData` | server/src/dispatcher.c:82-113 | One read and the extraction loop emit the messages and keep the leftover that the specification of one step says; a chunk that does not fit emits nothing and leaves the buffer empty |
| `Transport.Receiver.ProcessAll` | client/src/tcp_client.c:209-263 | Any run of reads refines the run of the specification; the same algorithm serves client and server |
| `TransportSpec.WireRecovered` | client/src/tcp_client.c:275-281 | The bytes written for a message split back into exactly that message if and only if it is sendable: not empty, not a lone line feed, free of CR-LF and at most 510 characters |
| `TransportSpec.WireReads` | client/src/tcp_client.c:275-281 | What is written for every message: as it is when it ends with CR-LF, is empty or is a lone line feed; with CR-LF behind it when that fits; and nothing at all otherwise |
| `TransportSpec.Transported` | client/src/tcp_client.c:265-281 | End to end: any list of sendable messages, written one after the other and read in any chunks that fit behind what is stored, is recovered in order with nothing lost, added or merged |
| `TransportSpec.SentIsStream` | client/src/tcp_client.c:275-281 | The bytes of a list of sendable messages are their CR-LF stream and split into exactly that list |
| `TransportSpec.LinesFit` | server/src/tcp_server.c:588-607 | On a stream of lines of at most 510 characters no unfinished line fills the buffer |
| `Transport.Socket.WriteString` | libs/src/io_utils.c:99-127 | Under any schedule of partial writes: either all of the string has been sent once and in order and its length is returned, or -1 is returned and a proper prefix has been sent |
| `Transport.ClientWrite` | client/src/tcp_client.c:265-281 | What reaches the socket is the message followed by CR-LF, the message alone when it looks terminated, or nothing when it does not fit; when a write fails, a proper prefix of that |
| `Transport.SendAll` | client/src/tcp_client.c:265-294 | Messages are written one after the other until a call fails or writes nothing and the client disconnects; the socket has then got the wire forms of the messages done, whole and in order, and at most a proper part of the next |
| `Transport.IsTerminated` | libs/src/string_utils.c:241-262 | The backward loop answers true exactly when one string is a suffix of the other |
| `Transport.TerminateString` | libs/src/string_utils.c:205-216 | Appends string and terminator together when both fit, and otherwise nothing |
| `StringUtils.SafeCopy` | libs/src/string_utils.c:481-500 | All-or-nothing copy: the string stored is the source if it is shorter than the size, and the buffer is untouched otherwise |
| `StringUtils.ExtractMessage` | libs/src/string_utils.c:144-170 | Moves the text before the first delimiter to the buffer when it fits and leaves the text after the delimiter; without a delimiter nothing changes |
| `StringUtils.ShiftChars` | libs/src/string_utils.c:444-459 | Moves the end of the string, terminator included, down to the start index, for indices in range, and changes nothing otherwise |
| `StringUtils.DelimiterZeroed` | libs/src/string_utils.c:156-160 | Zeroing a delimiter splits the stored string into the text before it and the text behind it |
| `MessageList.ProcessMessages` | libs/src/string_utils.c:173-203 | The callback is called with exactly the messages of the split, in order, and the unfinished line stays in the buffer |
| `MessageList.ExtractAll` | libs/src/string_utils.c:144-170 | Repeated extraction yields the same sequence of messages and the same remainder as process_messages, when each message fits the extraction buffer |
| `MessageList.DelimitMessages` | libs/src/string_utils.c:119-142 | After any number of turns the tokens point at NUL-terminated messages, and the untouched rest splits into the messages still to come |
| `MessageList.CutNext` | libs/src/string_utils.c:131-139 | One turn of the loop keeps that state: one more message is cut off |
| `MessageList.CountDelimiters` | libs/src/string_utils.c:273-288 | The count is the number of messages of the split |
| `Tokens.CutJoin` | libs/src/string_utils.c:11-82 | For any number n of non-empty tokens free of the delimiter and any limit k: cutting their join gives min(n, k) pieces, the earlier ones verbatim and the last one the join of all the rest |
| `Tokens.JoinRegular` | libs/src/string_utils.c:11-57 | The pieces of such a join are exactly min(n, k), none is empty and none ends with a delimiter, so the in-place tokenizer leaves them as they are |
| `Tokens.JoinCut` | libs/src/string_utils.c:11-57 | For every string and limit, joining the pieces of the cut gives the string back |
| `Tokens.PiecesJoin` | libs/src/string_utils.c:11-57 | For every string, limit and number of repeated delimiters: joining the pieces gives the string back, except for one delimiter that the last piece has lost at the limit |
| `Tokens.RepeatedOnce` | libs/src/string_utils.c:26-42 | A second delimiter in a row stays in front of the next token |
| `Tokens.RepeatedTwice` | libs/src/string_utils.c:26-42 | When only one character stands between that delimiter and the next, that next one stays in the token as well |
| `Tokens.JoinAppend` | libs/src/string_utils.c:59-82 | Joining one token more puts a delimiter and that token at the end |
| `Tokens.CutLast` | libs/src/string_utils.c:11-57 | Words followed by a last piece that may itself hold delimiters are cut into the words and that piece |
| `Tokenizer.TokenizeString` | libs/src/string_utils.c:11-57 | In place, for every string and limit: the tokens point at NUL-terminated pieces, exactly those of the specification of the pieces, and the count leaves out an empty last piece; a limit of zero changes nothing |
| `Tokens.RegularPieces` | libs/src/string_utils.c:11-57 | On a string without a delimiter in front or repeated, as far as it is cut, those pieces are the pieces of the cut, the last one without a delimiter it ends with |
| `Tokens.PieceCount` | libs/src/string_utils.c:26-54 | The number of pieces is one more than the number of delimiters cut at, or the limit if that is less |
| `Tokens.AllCut` | libs/src/string_utils.c:26-35 | Every delimiter is cut at if and only if none stands in front and no two stand side by side |
| `Tokenizer.TokenizeCut` | libs/src/string_utils.c:33-42 | A delimiter that is not taken for a repeated one ends a token: one more piece is cut off and the rest is still to be cut in the same way |
| `Tokenizer.TokenizePass` | libs/src/string_utils.c:28-32 | A delimiter taken for a repeated one stays in the current token, and the one after the next character is taken for repeated as well |
| `Tokenizer.ClearLast` | libs/src/string_utils.c:44-47 | The delimiter the string ends with is zeroed and nothing else changes |
| `Concat.ConcatTokens` | libs/src/string_utils.c:59-82 | The buffer ends up with its text followed by each token and the delimiter, NULL and empty tokens left out, clipped to the size, without a last delimiter; the result is the number of tokens written |
| `Concat.ConcatenatedReads` | libs/src/string_utils.c:59-82 | Behind any text the words come out joined when there is room for one more delimiter, and otherwise clipped, without the delimiter that the clipped text then ends with |
| `Concat.ConcatenatedIsJoin` | libs/src/string_utils.c:59-82 | On an empty buffer the result is the join of the tokens if and only if the join is shorter than the size |
| `Concat.ConcatenatedCut` | libs/src/string_utils.c:11-82 | Concatenating and cutting again gives plain words back if and only if their join fits |
| `Concat.ConcatenatedIsFilled` | libs/src/string_utils.c:59-82 | With an empty delimiter the result is the concatenation if and only if it fits |
| `IrcMessages.PrependChar` | libs/src/string_utils.c:102-117 | In place: the string gets the character in front when there is room for it, and is unchanged otherwise |
| `IrcMessages.CreateIrcMessage` | libs/src/irc_message.c:12-55 | When the length test passes the buffer holds the line of the message, and when it fails the buffer is untouched |
| `IrcMessages.LineReads` | libs/src/irc_message.c:12-55 | The line of any message whose body and suffix are shorter than 512 characters: a colon and the prefix, then the words of the body, then the words of the suffix, with a colon in front when it is multi-word, in this order and separated by single spaces; an empty part is left out together with its space; without room for one character more the line is clipped, and may lose a space it then ends with |
| `IrcMessages.LineIsJoin` | libs/src/irc_message.c:43-50 | The line is the join of its parts if and only if that join is shorter than the size; the length test lets through exactly one longer case, all three parts at the full size, which loses its last character |
| `CommandParser.CountTokens` | libs/src/string_utils.c:84-100 | One for a string that is not empty, plus the spaces before the stop character that are not at the end of the string |
| `CommandParser.SpacesExact` | libs/src/string_utils.c:84-100 | The spaces counted are exactly the spaces in front of the first stop character, a space at the end of the string left out |
| `CommandParser.ExitsWhen` | server/src/command_handler.c:82-95 | A counted token is missing, and set_command_argument ends the program, if and only if fewer delimiters are cut at than tokens were counted |
| `CommandParser.ExitsOnRepeats` | server/src/command_handler.c:82-95 | For a line of at most five tokens without a colon or a space at its end: a token is missing if and only if a space stands in front or two stand side by side |
| `CommandParser.NeverExits` | server/src/command_handler.c:82-95 | A line without a space in front or two side by side never misses a token |
| `CommandParser.CommandTokens.ParseMessage` | server/src/command_handler.c:73-98 | For every line: the call fails exactly when the specification says that a counted token is missing, and otherwise command, arguments and argument count are its pieces; arguments past the count are left alone, and a message longer than the limit is not copied |
| `CommandParser.ParseUndoesCreate` | server/src/command_handler.c:73-98 | For every message without prefix, of one to four words free of space and colon and a multi-word text, that fits: parsing the line that was built gives back the command, the arguments and the text behind its colon, if and only if the text does not end with a space |
| `CommandParser.SpokenLine` | libs/src/irc_message.c:31-49 | The line built for such a message is its words and the colon text joined by spaces; a text that ends with a space may lose that space |
| `CommandParser.WordsParse` | server/src/command_handler.c:82-97 | A line of plain words is taken apart into its words; from the sixth on they stay together in the last argument |
| `FdTag.UintToStr` | libs/src/string_utils.c:521-546 | On a zeroed buffer the decimal text of the number, if it is shorter than the size, and an untouched buffer otherwise |
| `FdTag.CountDigits` | libs/src/string_utils.c:527-532 | The loop finds the number of decimal digits, and its divisor stays within an int for numbers below a billion |
| `FdTag.StrToUintDecimal` | libs/src/string_utils.c:502-519 | Reading the decimal text of any non-negative int gives the number back, zero (read as octal) included |
| `FdTag.DecimalDigit` | libs/src/string_utils.c:534-541 | Counted from the right, each character is the digit of the corresponding power of ten |
| `FdTag.FormatTag` | server/src/dispatcher.c:99-105 | The stored text is the descriptor, a bar and the message, clipped to the size |
| `FdTag.DecodeTag` | server/src/dispatcher.c:197-211 | For every string: ignored unless there is exactly one bar, otherwise the descriptor and the text around it, or the end of the program when there is no second token |
| `FdTag.DecodeExits` | server/src/dispatcher.c:197-211 | The second token is missing if and only if the only bar stands in front |
| `FdTag.DecodeTagged` | server/src/dispatcher.c:197-211 | Decoding a descriptor, a bar and any text: ignored if the text has a bar, and the descriptor with the text otherwise |
| `FdTag.EncodeReads` | server/src/dispatcher.c:99-105 | What is stored for every text, fitting or not: the digits, a bar and as much of the text as there is room for; decoding gives the descriptor and that much of the text, or is ignored when there is a bar in it |
| `FdTag.TagRoundTrip` | server/src/tcp_server.c:430-439 | For every descriptor below a billion and every text: decoding the tag gives both back if and only if the text has no bar and fits; a text with a bar that fits is always ignored |
| `EndToEnd.LinesArrive` | server/src/dispatcher.c:93-112 | Sendable lines, written in order and read in any chunks that find room, become decoded events one by one and in order; an event holds the line as it was sent if and only if the line has no bar and fits together with its tag |
| `EndToEnd.CommandsArrive` | server/src/command_handler.c:73-98 | For every list of understandable messages and every such chunking the server parses exactly the commands and arguments the client built, in order: building, termination, framing, tagging, decoding and parsing composed |
| `LinkedLists.LinkedList.Append` | libs/src/linked_list.c:123-146 | The list gains the item at the end; the nodes there were stay in place |
| `LinkedLists.LinkedList.Remove` | libs/src/linked_list.c:148-179 | The first equal item goes and nothing else; the chain stays linked, the count right, and an iterator that points at another node stays on it |
| `LinkedLists.LinkedList.Find` | libs/src/linked_list.c:181-196 | The node of the first equal item, or NULL |
| `LinkedLists.LinkedList.IteratorNext` | libs/src/linked_list.c:206-218 | Returns the node the iterator stands at and moves it on; NULL at the end |
| `LinkedLists.LinkedList.Iterate` | libs/src/linked_list.c:220-233 | The callback gets every item once, in order |
| `SessionProofs.RunKeeps` | server/src/command_handler.c:204-599 | In every run of register, join, part, channel message, quit and flush from every consistent session, the invariant (the server runs, lists symmetric, tables and records one to one, no duplicates, counts within capacity, no empty channel, the ready list exactly the channels with queued messages) holds after each command if and only if no command runs out of room |
| `SessionProofs.RunFromStart` | server/src/command_handler.c:204-599 | The same for the runs of a server that has just started |
| `SessionProofs.StepKeeps` | server/src/command_handler.c:204-599 | Each command keeps the invariant if and only if there is room for what it adds; without a place in the channel table a join ends the program |
| `SessionProofs.JoinKeeps` | server/src/command_handler.c:263-348 | A join keeps the invariant if and only if the channel table has a place for a new channel and the joiner is below the limit of channels per user, which the handlers do not check; the server goes on running if and only if the channel exists, the name is bad or the table has a place |
| `SessionProofs.RegisterKeeps` | server/src/session.c:706-716 | Registering a new nickname keeps the invariant if and only if the user table is not full |
| `SessionProofs.LeaveOneKeeps` | server/src/command_handler.c:428-436 | A member leaving one channel takes one pair out of the membership relation and keeps the invariant |
| `SessionProofs.LeaveAllLeft` | server/src/session.c:772-801 | Afterwards the list of the user is empty and the user is in no channel; other memberships and lists are unchanged; exactly the channels where the user was alone are gone from table, records and ready list; every other channel left has the message newest in its queue and is ready |
| `SessionProofs.QuitKeeps` | server/src/command_handler.c:574-599 | Leaving everything and unregistering keeps the invariant |
| `SessionProofs.FlushKeeps` | server/src/dispatcher.c:284-288 | After a flush every channel queue is empty and the invariant holds |
| `SessionProofs.EmptySession` | server/src/session.c:75-95 | A new session satisfies the invariant |
| `SessionEffects.JoinEffect` | server/src/command_handler.c:235-325 | A user who is let in enters the member list of the channel and the own list (while it has a place), each at its end and no other list changes; the message is the newest of that queue and the channel is ready; a new channel without a place ends the program; nobody else changes anything |
| `SessionEffects.PartEffect` | server/src/command_handler.c:397-436 | The part of a member takes exactly the pair of user and channel out of both sides of the relation, drops the channel with its last member and otherwise leaves the message newest in its queue and the channel ready; for anyone else nothing changes |
| `SessionEffects.PrivMsgEffect` | server/src/command_handler.c:473-508 | The message of a member becomes the newest of the queue of the channel, which drops its oldest only when it is full, and the channel is ready; members, lists and other queues are as they were; for anyone else nothing changes |
| `SessionEffects.QuitEffect` | server/src/command_handler.c:574-599 | A quit has the effect of leaving all channels of the user with the message given, and the user is in no table, record or list any more; nobody else leaves a channel |
| `SessionEffects.RegisterEffect` | server/src/command_handler.c:204-233 | The user enters the table unless it is full and gets an empty record in any case; nothing else changes |
| `SessionEffects.FlushEffect` | server/src/dispatcher.c:284-288 | A flush empties every queue and the ready list and changes nothing else |
| `Sessions.Session.LeaveAllChannels` | server/src/session.c:772-801 | The loop ends although it removes the node it iterates over, and the session is then what leaving the channels of the list one by one makes of it |
| `Sessions.Session.LeaveOneChannel` | server/src/session.c:785-798 | One channel is left; it is removed with its last member and otherwise hears the message; an iterator that has passed the channel keeps its place |
| `Sessions.Session.RegisterChannelLeave` | server/src/session.c:759-770 | The user goes from the list of the channel and the channel from the list of the user, and nothing else changes |
| `Sessions.Session.RemoveChannelData` | server/src/session.c:803-808 | The channel goes from the ready list, the records, the table and with it its queue |
| `Sessions.Session.RegisterNewChannelJoin` | server/src/session.c:730-744 | The channel enters the table with an empty record, and user and channel enter each other's lists |
| `Sessions.Session.RegisterExistingChannelJoin` | server/src/session.c:746-757 | User and channel enter each other's lists, each list unless it is full |
| `Sessions.Session.RegisterUser` | server/src/session.c:706-716 | The user enters the table unless it is full, and gets an empty record in any case |
| `Sessions.Session.UnregisterUser` | server/src/session.c:718-728 | The user goes from the table together with the record |
| `Sessions.Session.AddChannelToReadyList` | server/src/session.c:302-321 | The channel is appended unless it is on the list |
| `Sessions.Session.RemoveChannelFromReadyList` | server/src/session.c:340-355 | The channel goes from the list |
| `Sessions.Session.AddChannelToUserChannels` | server/src/session.c:537-562 | The channel is appended to the list of the user while that is below its capacity |
| `Sessions.Session.AddUserToChannelUsers` | server/src/session.c:564-589 | The user is appended to the list of the channel while that is below its capacity |
| `Sessions.Session.RemoveUserInChannelUsers` | server/src/session.c:649-665 | The user goes from the list of the channel; no iterator of a list of channels is disturbed |
| `Sessions.Session.RemoveChannelInUserChannels` | server/src/session.c:631-647 | The channel goes from the list of the user; an iterator that has passed it keeps its place |
| `Sessions.Session.HandleJoin` | server/src/command_handler.c:235-325 | The handler refines the join of the specification; the session stays consistent if and only if there is room in the list of the user and the table, which the handler does not check, and the result says whether the lookup of a channel that did not enter a full table has ended the program |
| `Sessions.Session.JoinExisting` | server/src/command_handler.c:263-292 | A member or a full channel changes nothing; anyone else enters both lists, each unless it is full, and the channel gets the message and is ready |
| `Sessions.Session.JoinNew` | server/src/command_handler.c:294-325 | A bad name changes nothing, a full table ends the program, and otherwise there is a new channel with the user in it, the message in its queue, and ready |
| `Sessions.Session.HandlePart` | server/src/command_handler.c:397-436 | The handler refines the part of the specification |
| `Sessions.Session.HandlePrivMsg` | server/src/command_handler.c:473-508 | The handler refines a message to a channel: only members are heard |
| `Sessions.Session.HandleQuit` | server/src/command_handler.c:574-599 | The handler refines the quit of the specification |
| `Sessions.Session.HandleRegistration` | server/src/command_handler.c:204-233 | The handler refines registration; the session stays consistent if and only if the user table is not full |
| `Sessions.Session.SendSocketMessages` | server/src/dispatcher.c:284-288 | The calls of server_write are, one each, the pairs of a queued message and a current member of its channel: the descriptor is that of the member, the text the message, no pair twice and none missing, those of one channel in the order of its queue; afterwards all channel queues and the ready list are empty |
| `Sessions.Session.SendChannelQueue` | server/src/tcp_server.c:532-550 | The queue is drained, each message to every member of the channel, and nothing else changes |
| `Fanout.FlushDeliversAll` | server/src/tcp_server.c:532-550 | The deliveries of a flush are, without repetition and in the order of each queue, exactly the pairs of a queued message and a current member of its channel |
| `Fanout.FlushLogged` | server/src/tcp_server.c:499-550 | What is written for those pairs: the message that stands at that place of the queue, to the descriptor that the user table has for that member |
| `Rosters.Membership.AddItem` | server/src/session.c:537-589 | The list of the owner gains the item while it is below its capacity; the count follows; all other records are unchanged |
| `Rosters.Membership.RemoveItem` | server/src/session.c:631-665 | The list of the owner loses the item; all other records are unchanged; an iterator past the item keeps its place |
| `Rosters.Membership.AddRecord` | server/src/session.c:357-393 | There is one more record, with an empty list, and all others are unchanged |
| `Rosters.Membership.RemoveRecord` | server/src/session.c:457-493 | The record of the owner goes and all others are unchanged |
| `Rosters.Membership.Count` | server/src/session.c:983-999 | The stored count is the length of the list |
| `HashTables.HashTable.Find` | libs/src/hash_table.c:251-275 | The item that the finite map holds for the key, or NULL exactly when the key is absent |
| `HashTables.HashTable.Insert` | libs/src/hash_table.c:168-202 | Succeeds if and only if the key is absent and the total is below the capacity; then the map gains exactly that pair |
| `HashTables.HashTable.Remove` | libs/src/hash_table.c:204-249 | Succeeds if and only if the key is there; then the map loses exactly that key |
| `HashTables.HashTable.IsEmpty` | libs/src/hash_table.c:150-157 | The count of used buckets alone tells whether the map is empty |
| `HashTables.HashTable.IsFull` | libs/src/hash_table.c:159-166 | With the default load factor the quotient test means that the map is as large as the table |
| `HashTables.Inserted` | libs/src/hash_table.c:180-198 | Appending to the bucket of a new key keeps keys in their buckets and makes the chains hold the larger map |
| `HashTables.Removed` | libs/src/hash_table.c:216-245 | Cutting an item out of its chain makes the chains hold the map without its key |
| `HashTables.UsedZero` | libs/src/hash_table.c:150-157 | No bucket is in use if and only if all chains are empty |
| `HashTables.LoadFactorFull` | libs/src/hash_table.c:346-360 | The quotient of items and capacity reaches one exactly when the items reach the capacity |
| `FdIndex.LookupIsScan` | libs/src/poll_manager.c:113-166 | Looking a descriptor up in the index and scanning the slots for it give the same answer |
| `FdIndex.RoomFor` | libs/src/poll_manager.c:168-182 | A free slot means that there is room in the index |
| `FdIndex.FreeSlot` | libs/src/poll_manager.c:168-182 | There is a free slot exactly when fewer slots are occupied than there are |
| `FdIndex.Assigned` | libs/src/poll_manager.c:168-182 | Filling a free slot and the index together keeps them in agreement |
| `FdIndex.Unassigned` | libs/src/poll_manager.c:184-198 | Freeing a slot and its entry together keeps them in agreement |
| `PollManagers.PollManager.SetPollFd` | libs/src/poll_manager.c:168-182 | The first free slot and the index get the descriptor, or nothing changes when there is none; index, slots and count stay in agreement |
| `PollManagers.PollManager.UnsetPollFd` | libs/src/poll_manager.c:184-198 | The slot and the entry of the descriptor are freed, or nothing changes when it is unknown |
| `PollManagers.PollManager.FindPollFdIdx` | libs/src/poll_manager.c:113-129 | The first slot that holds the descriptor |
| `PollManagers.PollManager.FindFdIdx` | libs/src/poll_manager.c:151-166 | The index answers what the linear scan would answer |
| `TcpServers.TcpServer.AddClient` | server/src/tcp_server.c:217-228 | A fresh descriptor gets the first free slot, whose client becomes connected along an edge of the state table; a full server changes nothing |
| `TcpServers.TcpServer.RegisterConnection` | server/src/tcp_server.c:247-286 | Slots, index, count and state change together and stay in agreement |
| `TcpServers.TcpServer.RemoveClient` | server/src/tcp_server.c:314-339 | The slot of the descriptor becomes free and disconnected along an edge, and its entry goes |
| `TcpServers.SetClientData` | server/src/tcp_server.c:247-312 | The client gets the descriptor, and the next state if and only if the state table has that edge |
| `TcpServers.TcpServer.FindClientFdIdx` | server/src/tcp_server.c:199-215 | The first slot that holds the descriptor |
| `TcpServers.TcpServer.CmdNick` | server/src/command_handler.c:100-145 | The state changes from connected to start of registration for an accepted nickname, and not otherwise |
| `TcpServers.TcpServer.CmdUser` | server/src/command_handler.c:173-227 | The state set without a look at the table still follows an edge, because the command is allowed in one state only |
| `TcpServers.TcpServer.CmdJoin` | server/src/command_handler.c:263-318 | The state changes from registered to in-channel on a join, and not otherwise |
| `TcpServers.TcpServer.CmdPart` | server/src/command_handler.c:397-444 | The state changes from in-channel to registered when the count read is zero, and not otherwise |
| `SessionStates.IsAllowedStateTransition` | libs/src/session_state.c:72-89 | True exactly when the table lists the next state for the first one |
| `SessionStates.IsAllowedStateCommand` | libs/src/session_state.c:91-109 | True exactly when the table lists the command for the state |
| `SessionStates.ServerEdges` | libs/src/session_state.c:40-68 | The transitions of the server table are: one state forward, back to disconnected, or out of the channels |
| `SessionStates.ServerCommands` | libs/src/session_state.c:40-68 | The states in which the table allows the commands that change a state |
| `Queues.Queue.Enqueue` | libs/src/queue.c:93-113 | The queue gains the item as its newest and drops its oldest when it is full; one slot is written |
| `Queues.Queue.Dequeue` | libs/src/queue.c:115-132 | Returns the slot of the oldest item, left where it is, or none from an empty queue |
| `Queues.Queue.EnqueueAll` | libs/src/queue.c:93-132 | The item dequeued last can be read in place through the next capacity - 1 - count enqueues, and the one after those overwrites it |
| `Queues.PushAllKeepsLast` | libs/src/queue.c:93-113 | After any number of enqueues the queue holds the last capacity items of everything that was in it or came in |
| `Queues.RingPush` | libs/src/queue.c:99-111 | Writing at the rear slot of the ring is a push on the sequence, full or not |
| `Scrollbacks.RunKeeps` | client/src/scrollback_window.c:154-233 | After every run of adds and scrolls the viewport invariant (tail, first line, last line and head in order, as many lines shown as there are up to the height, scrolled up exactly when there are lines below) holds if and only if fewer lines than the capacity were added |
| `Scrollbacks.StepKeeps` | client/src/scrollback_window.c:154-233 | A scroll always keeps the invariant, and an add if and only if the ring does not fill up |
| `Scrollbacks.UpDown` | client/src/scrollback_window.c:191-233 | Scrolling up and down again by the lines moved restores the state |
| `Scrollbacks.AddedMany` | client/src/scrollback_window.c:166-179 | The state after any number of adds at the bottom, in closed form |
| `Scrollbacks.ShowsTheEnd` | client/src/scrollback_window.c:166-179 | After n adds the first line shown is the one min(n, height) lines before the end, modulo the capacity, if and only if the ring is larger than one screen, n is at most the height, or n is a multiple of it; with a multiplier of one the viewport does not follow |
| `Scrollbacks.AddedView` | client/src/scrollback_window.c:154-189 | A line that comes in while the user has scrolled up leaves the viewport where it is and is pending; otherwise the last line shown is the new head; head and tail move on around the ring, the tail only when the ring is full |
| `Scrollbacks.ReachesHead` | client/src/scrollback_window.c:211-233 | Moving down reaches the head after exactly as many lines as there are below, and not before |
| `Scrollbacks.CountingUpEnds` | client/src/scrollback_window.c:237-252 | The loop that counts the lines above terminates if and only if the tail is not past the first line shown, because C's remainder is negative for a negative dividend |
| `Scrollbacks.Scrollback.AddLine` | client/src/scrollback_window.c:154-189 | The indices change as specified, and the rows hold the lines added last, each possibly followed by what an older, longer line left |
| `Scrollbacks.Scrollback.CountRemainingTopLines` | client/src/scrollback_window.c:237-252 | The number of lines between the tail and the first line shown |
| `Scrollbacks.Scrollback.CountRemainingBottomLines` | client/src/scrollback_window.c:256-271 | Terminates for all indices in range with the number of lines between the last line shown and the head, around the ring |
| `Scrollbacks.Scrollback.MoveUp` | client/src/scrollback_window.c:191-209 | First and last line shown move up by the same number of lines: all that are asked for, or as many as there are down to the tail and no further, none for a number that is not positive; scrolled up if they moved, and unchanged otherwise |
| `Scrollbacks.Scrollback.MoveDown` | client/src/scrollback_window.c:211-233 | First and last line shown move down by the same number of lines: all that are asked for, or as many as there are to the head and no further; scrolled up and pending are cleared exactly when the last line shown reaches the head |
| `Scrollbacks.RunFromEmpty` | client/src/scrollback_window.c:154-233 | The same for the runs of an empty window |
| `Remainders.ModIsRemainder` | client/src/scrollback_window.c:178-186 | The remainder used for positions in a ring is that of integer division |
| `LineEditors.LineEditor.AddChar` | client/src/input_window.c:134-166 | The stored line is the text with the character inserted at the cursor, zeros behind it; refused without any change at the edge of the window or at 512 characters |
| `LineEditors.LineEditor.DeleteChar` | client/src/input_window.c:168-187 | The stored line is the text without the character at the cursor, zeros behind it |
| `LineEditors.LineEditor.Backspace` | client/src/input_window.c:189-205 | Deletes exactly the character before the cursor, if there is one, with the cursor one to the left |
| `LineEditors.LineEditor.Delete` | client/src/input_window.c:207-221 | Deletes exactly the character at the cursor, if there is one, with the cursor where it was |
| `LineEditors.LineEditor.Home` | client/src/input_window.c:223-237 | Only the cursor moves, to the start; the result says whether it did |
| `LineEditors.LineEditor.End` | client/src/input_window.c:239-252 | Only the cursor moves, to the end; the result says whether it did |
| `LineEditors.LineEditor.Left` | client/src/input_window.c:102-116 | Only the cursor moves, one to the left; the result says whether it did |
| `LineEditors.LineEditor.Right` | client/src/input_window.c:118-132 | Only the cursor moves, one to the right; the result says whether it did |
| `LineEditors.TypedThenErased` | client/src/input_window.c:134-221 | An accepted character followed by a backspace, or by a step left and a delete, restores text and cursor |
| `LineEditors.DeletedThenTyped` | client/src/input_window.c:134-221 | A deleted character typed again restores text and cursor if and only if the width allows typing there |
| `LineEditors.Typing` | client/src/input_window.c:134-166 | From any prefix typed so far, typing a string gives the string up to the room there is, with the cursor at its end |
| `LineEditors.PressKeeps` | client/src/input_window.c:102-267 | Every key keeps the text NUL-free and within 512 characters and the cursor within the text |
| `LineEditors.KeysMove` | client/src/input_window.c:102-252 | Home and End go to the two ends, Left and Right undo each other inside the text, and stop at its ends |
| `LineEditors.TypedInserts` | client/src/input_window.c:134-166 | Typing puts the character at the cursor and keeps everything before and behind it |
| `LineEditors.DeletedRemoves` | client/src/input_window.c:168-187 | Deleting takes out the character at the cursor and keeps everything before and behind it |
| `LineEditors.ShiftedText` | libs/src/string_utils.c:444-459 | Shifting the rest of a stored string over one character removes that character |
| `ThreadPools.ThreadPool.constructor` | libs/src/threads.c:50-96 | The count is clamped to one to ten, and the ranges tile the workload |
| `ThreadPools.SharesTile` | libs/src/threads.c:59-86 | The ranges computed follow each other from 0 to the workload without gap or overlap; all shares are equal but the last, which takes the remainder |
| `ThreadPools.OneOwner` | libs/src/threads.c:50-87 | In every tiling each index of the workload has exactly one owner and no other index has any |
| `ThreadPools.ThreadPool.ThreadIdByRangeIdx` | libs/src/threads.c:319-335 | The unique owner of an index of the workload, and -1 for every other index |

## Left out

- Sockets, poll, name resolution, pipes, signals, the command line, settings and the log file: system calls. A read is a parameter of the step that handles it.
- The ncurses display, window groups, resizing and the input controller: user interface.
- Locks, the threaded mode and the excluded multi-threaded core: the model is the single-threaded path.
- Changing a nickname: server/src/session.c:695 looks the new nickname up in lists that still hold the old one, so memberships are not carried over.
- User queues, the out-queue of unregistered clients and the ready list of users: the queue itself and the tag are modelled, but not their use for private messages.
- Channels of the permanent type, which no command creates: the branch for them in leave_all_channels and the part handler is not in the model.
- The lists of UserChannels and ChannelUsers records and the ready list are sequences of objects and the two tables are maps in the session model; the hash table and the linked list are proved separately to be a finite map and a sequence.
- The queue of a channel is a bounded sequence in the session model; the ring is proved separately to be that sequence.
- Topics, welcome and error replies, WHOIS and response codes: text only.
- Time formatting and allocation failure.
- Sessions.Session.HandleRegistration: requires a nickname that is not registered; cmd_nick checks that when the nickname is given, not when registration ends. A second user with the same nickname is not in the model.
- Sessions.Session.RegisterUser: requires the same.
- Sessions.Session.JoinNew: with a full table the C code adds a record for a channel that no table holds before it looks the channel up and exits; the model ends at the test of the table, since nothing can observe the record.
- Sessions.Session.RegisterNewChannelJoin: requires a place in the table, for that reason.
- Sessions.Session.RegisterChannelLeave: requires a member. For anyone else the C code lowers the counts all the same; its two callers check membership or walk the list of the user.
- Sessions.Session.RemoveUserInChannelUsers: requires a member, for that reason.
- Sessions.Session.RemoveChannelInUserChannels: requires a channel of the list, for that reason.
- Rosters.Membership.RemoveItem: requires an item of the list, for that reason.
- Rosters.Membership.AddRecord: requires an owner without a record; the C code appends a second one, and never does so for the owners its callers pass.
- Sessions.Session.RemoveChannelData: requires a channel that no user's list names; its callers remove a channel when its last member has left.
- Sessions.Session.UnregisterUser: requires a user who is in no channel; the quit handler leaves all channels first.
- Sessions.Session.HandleQuit: takes a registered user; a client that has not registered is not in the session.
- TcpServers.TcpServer.CmdPart: the count that is tested may belong to a record that has just been removed (server/src/command_handler.c:438), so it is a parameter; that the state is in-channel exactly when the user has a channel does not hold and is not stated.
- TcpServers.TcpServer.CmdJoin: whether the user has entered the channel is a parameter; the session model says when that is.
- TcpServers.TcpServer.CmdNick: whether the nickname is there, valid and not in use is a parameter.
- TcpServers.TcpServer.CmdUser: whether all parameters are there is a parameter.
- TcpServers.TcpServer.RemoveClient: requires a registered descriptor; for another one the C code indexes the clients with -1.
- PollManagers.PollManager.SetPollFd: requires a descriptor without a slot; the C code would give it a second one, which the index does not know.
- SessionStates.IsAllowedStateTransition: requires a state of the table; for the unknown state the C code follows the NULL entry at its end.
- Tokenizer.TokenizeString: takes delimiters of one character, the only ones used; with a limit of one the string must not be empty, where the C code would write in front of the buffer.
- Concat.ConcatTokens: a buffer of size one must not be empty, where the C code would read in front of the buffer.
- FdTag.UintToStr: numbers below a billion; beyond that the divisor overflows an int.
- FdTag.CountDigits: the same.
- FdTag.FormatTag: the same, for descriptors.
- FdTag.StrToUintDecimal: hexadecimal, octal, signed and padded numbers are in the definition of the function, but nothing is proved about them.
- Transport.Receiver.Read: chunks of at most 512 bytes. client_read asks for no more, but server_read asks for 513 bytes, as many as its buffer has (server/src/tcp_server.c:558-561); a read that returns all 513 leaves no terminator, and the length is then taken past the buffer. A failed read is not modelled either, only a chunk or the end of the stream.
- Transport.Receiver.ProcessData: chunks of at most 512 bytes, for that reason.
- Transport.SendAll: stops at any failed write; after a write interrupted by a signal the client stays connected and goes on with the next message.
- Transport.Receiver.ProcessAll: a run starts from what is stored, since a reused slot keeps what its last client left.
- Scrollbacks.Scrollback.MoveUp: requires that the tail is not past the first line shown, without which the loop does not end (Scrollbacks.CountingUpEnds).
- Scrollbacks.Scrollback.CountRemainingTopLines: the same.
- Scrollbacks.Scrollback.AddLine: a row is a string, not styled cells; notices to observers are the pending flag.
- LineEditors.LineEditor.AddChar: the character is not NUL, the message is the current one of the history queue, and its type and priority are not modelled.
- ThreadPools.ThreadPool.constructor: the workload is not negative; pipes and running the threads are left out. get_thread_idx_by_range_idx differs from get_thread_id_by_range_idx only in returning the index, which is the id.
- HashTables.HashTable.IsFull: the default load factor only; the field is an int in C, so others would be truncated. A capacity of zero, for which no table is created, is not modelled.
- HashTables.HashTable.Find: freeing keys and values is not modelled.
- Queue history (previous and next item), after a wrap-around: it compares raw indices.
- Serializing messages, the lookup of command names and string case conversion: text only, no state.

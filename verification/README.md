# A verified model of the compile_service core

The repository is a small C networking library and the file server built on it. This project models
its four hardest parts in Dafny and proves what they promise:

- the wire format and the resumable message parser (`message.c`, `msg_parser.c`), with the sockets' send and receive
  wrappers around them (`tcp_client.c`, `udp_point.c`);
- the select loop and its table of connections (`tcp_server.c`);
- the tokenizer and the two-dimensional block it fills (`utility.c`, `utility.h`);
- links, directory pages and file sending (`response.c`).

Code that changes memory in place is a method over arrays or over an object with the source's fields, proved against
a specification on values; the theorems are lemmas about those specifications.

| file | contents |
|---|---|
| `Seqs.dfy` | facts about sequences |
| `Wire.dfy` | messages: fields in host order, the big-endian codec, messages in raw memory |
| `Net.dfy` | what read and send may do, and a record of what they did |
| `Receive.dfy` | reading a number of bytes with retries |
| `Parser.dfy` | the parser's meaning, and the parser object that refines it |
| `Stream.dfy` | every cutting of a message, every run of the parser |
| `Client.dfy` | `TcpClient` and `UdpPoint` |
| `Link.dfy` | a TCP connection end to end, and datagrams |
| `ServerSpec.dfy`, `SelectLoop.dfy`, `ServerRuns.dfy` | the select loop: its states, its runs, its code |
| `CStrings.dfy`, `Splitting.dfy`, `Tokenizer.dfy` | C strings, words, the tokenizer |
| `Paths.dfy`, `RowInfo.dfy`, `Order.dfy` | paths, table rows in memory, strcmp order |
| `Listing.dfy`, `FileSend.dfy` | directory pages, file sending |

How the model stands for the C code:

- A message is a block of bytes. The byte order of the host is a parameter, so `htons` and `htonl` swap on one kind of host
  and do nothing on the other, and every result holds for both.
- `read`, `send`, `recvfrom` and `sendto` may fail, and may take or give fewer bytes than asked, in any way. Sockets and files keep a
  ghost record of every call, what it asked for and its result, and the contracts say which calls were made and that the outcome
  follows from them.
- Whether malloc gives memory for a message is a parameter `ok` of each reading call. The size asked for is computed as in C, and a size
  above the largest object is never given.
- One pass of the select loop has as inputs what the kernel answers in it: the ready descriptors, the descriptor `accept`
  returns, and for which descriptors `TcpClient_IsValid` holds and `TcpClient_Available` is positive. Whether a listener is installed may
  change from pass to pass. Connections are numbered by order of acceptance, so that a recycled descriptor is not taken for the old connection.
- `stat` is a function from paths to whether it succeeds; a directory is the list of what `readdir` returns.

Where the code does not do what one might expect of it, the exact condition is proved:

- A length field from 0xFFFFFFF4 up makes the size passed to malloc wrap to less than a header, so that copying the header runs over the
  block; exactly these do (`Parser.BlockSizes`). The outcome is then `Overrun`, where the model ends; every other length above
  INT_MAX is refused.
- A request that is neither "/" nor has a slash in it, such as `GET docs HTTP/1.1` for a directory `docs`, makes the scan for the Back link
  leave the string; exactly these do (`Paths.MakeBack`, `Listing.MakeTable`), and the model ends there too.
- The strings of a table row are copied into fields of fixed size without a check. A name of 255 characters fills its field, so that the
  type follows it: the name reads as that of another file. A link of 2048 or more, such as that of a name of 200 characters in a directory whose
  path has 1900, is overwritten by the name, and reads as its first 2048 characters and the name. The row is the one meant exactly
  if the name is shorter than 255 and the link shorter than 2048, or longer by just the name; the link leads to the entry exactly if the link
  is so (`Listing.RowAsMeant`, `Listing.EachOnceOnPage`, `Listing.RowsNotAsMeant`). The page is made exactly if every link on it is
  shorter than 2048 (`Listing.MakeTable`).
- `TcpClient_SendMsg` reports success as soon as its one send does not fail, even if that took only part of the encoding
  (`Client.TcpClient.SendMsg`).
- The listener sees a connection as CONN DATA* [CLOSE] exactly if a listener was installed when it was accepted (`ServerRuns.Protocol`).
- Without a listener nothing ends: a connection whose peer has closed stays in the table, and stays ready (`ServerRuns.PassFate`).
- A listed link leads to its entry exactly if the directory's path does not end in a superfluous slash (`Paths.LinkReachesEntry`).
- A datagram is received as the message it holds exactly if the message fits the 4096 bytes it is peeked into (`Link.Datagram`);
  so all are received exactly if all fit (`Link.AllDatagrams`). The datagrams after one that does not fit are taken for the rest of its
  body, until as many bytes as are missing have come, and what is left of the last of them is dropped (`Link.Oversized`).
- `FileReqHandler` reports success exactly if the body went out whole. Of the header only a part may have been accepted then, and for an
  empty file nothing (`FileSend.FileReqHandler`).
- `Malloc2d` computes its number of cells as an int; where `row * col` is not one the model ends (`Tokenizer.Malloc2d`).

## Model

| member | source | states |
|---|---|---|
| Wire.LoadImage | message.h:4-12 | a header stored in either byte order loads back as the same field values |
| Wire.HostReads | message.h:4-12 | a big-endian host takes a field's first byte for the most significant one, a little-endian host the last; byte by byte, by their values |
| Wire.EncodeBytes | message.c:53-65 | on the wire each field has its most significant byte first, at its place, and the payload follows at the twelfth byte |
| Wire.ReorderedImage | message.c:39-65 | reordering the bytes of the five fields turns the host's reading of the memory into the network's and back, and twice is nothing |
| Wire.DecodeEncode | message.c:53-65 | an encoding followed by anything decodes to its message and that rest |
| Wire.EncodeDecode | message.c:39-51 | whatever decodes is the encoding of the message followed by the rest |
| Wire.PrefixFree | message.c:27-65 | no message's encoding is a proper prefix of another's |
| Wire.UniqueParse | message.c:27-65 | messages written back to back, with a tail no message fits into, parse in one way only |
| Wire.Message.New | message.c:6-25 | the block holds the given fields and, if there is one, the payload |
| Wire.MessageSize | message.c:27-37 | the size is that of the whole block, and 0 for null |
| Wire.Message.H2N | message.c:53-65 | the memory holds the fields with their most significant bytes first, the payload stays |
| Wire.Message.N2H | message.c:39-51 | the fields become the numbers whose bytes were there, most significant first, the payload stays |
| Parser.TakeIsFeed | msg_parser.c:99-154 | taking a chunk at once, header and body and all, is feeding its bytes one at a time up to the end of the message |
| Parser.ByTheBytes | msg_parser.c:99-154 | a message is returned, refused or waited for by the numbers in its header bytes: with memory and a length below 2^31 it is complete once its bytes are there |
| Parser.TakeTwice | msg_parser.c:99-154 | after a chunk that leaves the message incomplete, the next chunk does what both would have done in one |
| Parser.TakeCut | msg_parser.c:99-154 | an over-long chunk acts as the chunk cut at the end of the message, with nothing left over |
| Receive.ToRecv | msg_parser.c:56-85 | the bytes read land in order at the given place; each read asks for all that is missing; the reads made end with the one that completes, fails or is the seventh to bring nothing, and not before |
| Receive.ShortAttempt | msg_parser.c:61-82 | an attempt that stays short of its bytes ended in a failure or in its seventh empty read; a complete one had six at most |
| Parser.MsgParser.StateIsAcc | msg_parser.c:9-54 | the bytes consumed since the last completion fix the whole state: half, need, cache, decoded header and payload so far |
| Parser.BlockSizes | msg_parser.c:29-32 | the size asked of malloc is the message's for lengths up to INT_MAX, less than a header exactly for those from 0xFFFFFFF4 up, and more than malloc can give for the rest |
| Parser.MsgParser.ToMidState | msg_parser.c:27-40 | need and block are those that the C arithmetic gives; for a length up to INT_MAX the decoded header is copied |
| Parser.MsgParser.ReadMem | msg_parser.c:99-154 | state and returned message are those of the bytes seen so far |
| Parser.MsgParser.ReadFd | msg_parser.c:156-204 | the same on the bytes its reads deliver; it takes none beyond the message, and its reads are one attempt at the rest of the header and, if that brings an accepted header, one at the body |
| Parser.IncompleteGaveUp | msg_parser.c:56-85 | a call leaves the message incomplete exactly if one of its attempts, at the header or at the body, ended in a failure or in its seventh empty read |
| Parser.WillingCall | msg_parser.c:156-204 | a call all of whose reads bring bytes leaves no message incomplete |
| Parser.MsgParser.Reset | msg_parser.c:206-214 | nothing consumed is remembered |
| Stream.AnyCutting | msg_parser.c:99-154 | however an encoding is cut, the call that gets its last byte returns the message and no other call returns anything |
| Stream.RestOfBody | msg_parser.c:134-150 | in the middle of a body the next chunks return nothing, up to the one that brings the last byte missing, and those after it start afresh |
| Stream.TakeAccounts | msg_parser.c:99-154 | the message's encoding, or the rejected header, and what is dropped make up exactly the bytes seen |
| Stream.EveryByteOnce | msg_parser.c:99-214 | in every mixture of reads and resets that does not overrun each byte is accounted for once, in order |
| Stream.ReadMemStep | msg_parser.c:99-154 | a call is a read step of these runs |
| Stream.ReadFdStep | msg_parser.c:156-204 | a call is a read step on the bytes it takes |
| Stream.ResetStep | msg_parser.c:206-214 | a call is a reset step |
| Stream.FeedAll | msg_parser.c:99-154 | feeding arrays to one parser returns what the cutting theorem speaks of |
| Client.TcpClient.SendMsg | tcp_client.c:38-54 | one send of the whole encoding is made, success means it did not fail, and the message is left as it was |
| Client.TcpClient.RecvMsg | tcp_client.c:69-80 | takes the bytes its reads deliver, all of one message, and returns it when it is complete |
| Client.TcpClient.Close | tcp_client.c:132-144 | the descriptor is gone and the unfinished message forgotten |
| Client.UdpPoint.SendMsg | udp_point.c:79-96 | one sendto is made; if it does not fail one datagram holding the encoding is sent; the message is left as it was |
| Client.UdpPoint.RecvMsg | udp_point.c:118-146 | the first recvfrom peeks into 4096 bytes, the second takes as many as were peeked; unless one fails one datagram is taken, and at most one message returned, read from its first 4096 bytes |
| Link.ReceiveStep | tcp_client.c:69-80 | whatever its reads do, a call is a step of the connection's state machine, of as many bytes as they deliver |
| Link.SendStep | tcp_client.c:38-54 | a call whose bytes are all accepted is a step of the connection's state machine |
| Link.EveryRun | tcp_client.c:38-80 | in every run of sends and receives the messages returned are a prefix of those sent, and no byte is lost or made up |
| Link.AllDelivered | tcp_client.c:38-80 | when every byte has been read, every message has been returned |
| Link.ReturnsNext | msg_parser.c:156-204 | a receive returns the next message exactly if it takes all the bytes missing from it, and cannot take more |
| Link.PersistentCallReturns | msg_parser.c:56-85 | a call returns a message, the next one, exactly if neither of its attempts gives up |
| Link.WillingCallReturns | tcp_client.c:69-80 | so does every call all of whose reads bring bytes |
| Link.ReceiveWhole | tcp_client.c:69-80 | if the rest of a message has arrived, a call whose reads bring bytes when asked returns it and leaves what follows it unread; no call returns anything else |
| Link.Progress | tcp_client.c:69-80 | under any schedule of reads the messages returned are as many as the calls that do not give up; all are delivered exactly if that many were to come |
| Link.Datagram | udp_point.c:118-146 | a datagram's message is received, whatever follows it, exactly if it fits the buffer |
| Link.Oversized | udp_point.c:118-146 | after a datagram too long for the buffer the next ones return nothing, up to the one that brings the bytes missing; that returns a message with these bytes in it, and what comes later is received as by a new parser |
| Link.AllDatagrams | udp_point.c:79-146 | messages sent as one datagram each are received one by one exactly if all of them fit |
| Link.DatagramStep | udp_point.c:118-146 | a call that takes a datagram returns what the datagram theorems speak of |
| ServerSpec.DeletedOnce | tcp_server.c:136-155 | a pass deletes a connection once if it ends in it and otherwise not at all |
| ServerSpec.LiveAfterPass | tcp_server.c:101-160 | the connections after a pass are those that do not end in it and the one accepted, even on a descriptor freed in the same pass |
| ServerSpec.PassKeepsTable | tcp_server.c:101-160 | after a pass the watched descriptors are the listening one and those in the table, max bounds them, and no connection has two |
| ServerSpec.StepKeepsInv | tcp_server.c:43-194 | start, pass and stop keep the table invariant and the ledger of deletions |
| SelectLoop.TcpServer.constructor | tcp_server.c:22-41 | a new server has no descriptor, no listener and no clients |
| SelectLoop.TcpServer.Start | tcp_server.c:43-64 | becomes valid on the new socket exactly if that worked, and says so; a valid server is left alone |
| ServerRuns.StartWorks | tcp_server.c:43-64 | a new server that is started is valid, watches its socket and can go into its first pass |
| ServerRuns.StartTwice | tcp_server.c:43-64 | at any point of a run, starting changes nothing on a valid server, and connections and events never |
| SelectLoop.TcpServer.SelectHandler | tcp_server.c:101-160 | the loop over the array, with its changes on the way, amounts to deciding everything by the table at the start of the pass |
| SelectLoop.IdlePass | tcp_server.c:186-191 | a select that reports nothing changes nothing |
| SelectLoop.TcpServer.DoWork | tcp_server.c:162-194 | the loop leads through the passes' states one after the other |
| SelectLoop.TcpServer.Stop | tcp_server.c:66-84 | every client in the table is deleted, in order of descriptor, and the table is empty |
| ServerRuns.PassEvents | tcp_server.c:106-157 | an installed listener is called once for each ready descriptor, in ascending order: CONN for the listening one, DATA for one that is established or readable, else CLOSE |
| ServerRuns.PassFate | tcp_server.c:136-155 | a ready connection that is neither established nor readable gets CLOSE, is deleted once and leaves the table, if a listener is installed; any other stays, and gets DATA if it is ready and there is a listener |
| ServerRuns.PassTrace | tcp_server.c:136-155 | a pass tells the listener at most one thing about a connection: CONN if new, CLOSE if it ends, DATA if it is ready |
| ServerRuns.EveryRun | tcp_server.c:22-194 | the table invariant and the shape of each connection's events hold in every run |
| ServerRuns.Protocol | tcp_server.c:101-160 | a connection's events are CONN DATA* [CLOSE] exactly if a listener was installed when it was accepted |
| ServerRuns.AllHeard | tcp_server.c:101-160 | with a listener installed throughout, that is every accepted connection |
| ServerRuns.NewConnectionIsQuiet | tcp_server.c:113-131 | a connection gets neither DATA nor CLOSE in the pass that accepts it |
| ServerRuns.DeletedExactlyOnce | tcp_server.c:66-84 | a connection is deleted at most once, exactly once when it is out of the table, so exactly once when the server has stopped |
| ServerRuns.NothingAfterDeletion | tcp_server.c:142-154 | after its deletion a connection is neither reported nor deleted again |
| ServerRuns.DoWorkContinuesRun | tcp_server.c:162-194 | what DoWork does is a run of the state machine |
| Splitting.WordsSplit | utility.c:57-93 | the words of two strings with a separator between them are those of the one and those of the other |
| Splitting.WordsJoin | utility.c:57-93 | splitting joined words gives the words back |
| Splitting.FormattedIsCanonicalForm | utility.c:18-55 | formatting yields the one string with the same words and no leading, trailing or doubled separator |
| Splitting.FixedPoints | utility.c:18-55 | formatting leaves alone exactly the strings without such separators, so a second time changes nothing |
| Splitting.WordCount | utility.c:95-105 | the separators in the formatted string are one fewer than the words that DivideByChar can return |
| Tokenizer.FormatByChar | utility.c:18-55 | a new string holding the words joined by one separator; null for a null or empty one |
| Tokenizer.CharCount | utility.c:95-105 | the multiplicity of the character in the string; 0 for null |
| Tokenizer.Malloc2d | utility.h:6-37 | if the number of cells is an int, row r starts at cell r * col, and the rows have no cell in common |
| Tokenizer.NextWord | utility.c:70-86 | what lies between two separators of the formatted text and its sentinel is the next word of the line |
| Tokenizer.DivideByChar | utility.c:57-93 | returns the smaller of row and the number of words; row r holds the first col - 1 characters of word r, or all of it if it is shorter, and then NUL; all other cells are unchanged |
| Tokenizer.FirstRows | utility.h:19-24 | on a block from Malloc2d the first n rows are exactly the first n * col cells |
| Paths.GetAbsPath | response.c:21-38 | root and relative name with exactly one slash between them |
| Paths.AbsPathParts | response.c:21-38 | the path begins with the root; where both or neither bring the slash, one is dropped or added |
| Paths.LinkReachesEntry | response.c:110-116 | a link, resolved against the root, is the entry resolved against its directory, exactly if the directory's path does not end in a superfluous slash |
| Paths.MakeLink | response.c:114-116 | the link is built in the row's buffer |
| Paths.MakeBack | response.c:221-227 | the backward scan stops inside the string exactly if there is a slash in it, at the last one, and the path is cut there |
| Paths.BackUndoesLink | response.c:219-227 | the Back link of an entry's page is the directory, exactly if the directory's path is not empty |
| Paths.EveryWalk | response.c:114-227 | every path reached from "/" by entry links and Back links is that of the names not backed out of, and is canonical |
| Paths.BackToTop | response.c:219-227 | Back links lead up one level each, and to "/" after exactly as many as the path is deep |
| Paths.PathDescends | response.c:356-363 | the file a path names is found by going down its names one directory at a time |
| RowInfo.SetNameAndKind | response.c:118-145 | once name and type are copied behind a link of any length within the row, the fields read as the stored strings: a name that fills its field runs on into the type, and a link beyond its own into the name |
| RowInfo.StoredAsGiven | page.h:7-9 | which names and links read as they were given |
| Order.StrCmpIsOrder | response.c:90-90 | strcmp is 0 only for equal strings, and changes sign with its arguments |
| Order.StrCmpTransitive | response.c:90-90 | strcmp is transitive |
| Order.FirstDifference | response.c:90-90 | the first differing character decides, and a prefix comes first |
| Order.SortFileEntry | response.c:76-103 | the rows are permuted so that they are in strcmp order, in place |
| Order.OneSorting | response.c:76-103 | rows with distinct names have only one sorted order |
| Listing.MakeEntryItem | response.c:105-156 | exactly if stat finds the entry's path the row is filled, and then reads as link, name and type stored in its fields, unless the link leaves the row |
| Listing.RowAsMeant | response.c:114-145 | an entry's row holds the link and name that are meant exactly if both fit, and its link leads to the entry exactly if the link fits |
| Listing.RowsNotAsMeant | response.c:114-145 | a name of 255 characters, and a link of 2101, that do not fit |
| Listing.ReadEntries | response.c:166-195 | the growing array never has too few rows and holds exactly the accepted entries' rows, in the order read; no link leaves its row exactly if each is shorter than the row |
| Listing.GetEntry | response.c:158-204 | the accepted entries' rows, sorted; null if the directory cannot be opened |
| Listing.RowsPermute | response.c:179-195 | reading the entries in another order gives the same rows in another order |
| Listing.ListingIsOrderIndependent | response.c:158-204 | so the sorted rows do not depend on the order of readdir |
| Listing.EachEntryOnce | response.c:188-194 | a row is listed once if it is that of an accepted entry and otherwise not at all |
| Listing.LinksExist | response.c:110-116 | from a directory that navigation can reach, every listed link that fits leads to a path that stat finds, and Back from there leads to the directory |
| Listing.MakeBackRow | response.c:219-230 | the row with the Back link is made exactly if there is a slash in the request and it is shorter than a row |
| Listing.MakeTable | response.c:206-253 | the table is the Back row unless at "/", then the folders sorted, then the files sorted; exactly for the requests whose Back link can be made and whose links all fit, which holds for every path of at most 1791 characters |
| Listing.PageOrder | response.c:219-251 | a page is the Back row unless at "/", then a row "Folder" for each entry of d_type 4 and then a row "File" for each of d_type 8 that stat finds, dot entries aside, each part in strcmp order |
| Listing.RowInFull | response.c:114-145 | the three strings of a row whose name and link fit |
| Listing.RowsAreMoves | response.c:219-251 | every row of a page leads along a move: the Back row to the directory above, any other to an entry that stat finds |
| Listing.PageIsOrderIndependent | response.c:237-251 | the page is the same whatever orders the two readings of the directory come in |
| Listing.EachOnceOnPage | response.c:237-251 | each folder and file that stat finds, dot entries aside, has exactly one row on the page, and the row meant for it is there exactly if it fits |
| Client.TcpClient.SendRaw | tcp_client.c:56-67 | one send of the buffer is made, and its result returned |
| FileSend.SendBody | response.c:339-342 | each read asks for 1024 bytes; each that delivers bytes is followed by one send of exactly these; the first that delivers none ends the loop |
| FileSend.SumTells | response.c:341-344 | the sum of the sends' results is the file's length exactly if the bytes accepted are the file |
| FileSend.FileReqHandler | response.c:312-353 | one send of the header, then the body's; success exactly if what was accepted of the body is the whole file in order; and so it is if part of the header is accepted, the reads bring bytes up to the end of the file and the sends take all they are given |

## Left out

- Parser.MsgParser.ToMidState: where the block is smaller than the header, the copy of the header that runs over it is not made; the outcome `Overrun` promises nothing of what follows.
- Link.EveryRun: about connections on which send accepts every message whole, every announced message gets its memory, and the receiver is not closed in between; a short send, a refusal and a Close are covered for one call each by the contracts of SendMsg, ReadFd and Close.
- Paths.MakeBack: for a request without a slash the C scan goes on below the string; what it finds there is not modelled.
- Client.TcpClient.RecvMsg: how long a call may block, and the pauses between empty reads, are not modelled.
- Client.UdpPoint.RecvMsg: the peeked buffer is a local array, not the static one; messages whose fragments come from several peers, and the peer's address, are not modelled.
- SelectLoop.TcpServer.DoWork: the loop runs through a given finite list of passes, which ends where another thread's TcpServer_Stop would clear `valid`; that thread acts between passes only.
- SelectLoop.TcpServer.SelectHandler: accept is taken to succeed when the listening descriptor is ready, and TcpClient_From to get its memory; listeners that close, delete or stop from inside the callback are not modelled, and a connection is a handle without its parser.
- Listing.MakeTable: nothing is said of the page of a request without a slash, or with a link of 2048 characters or more, for which InsertRow's buffer may be too small; the HTML text and the size and time columns, which lie behind the cells that link, name and type are read from, are left out; the table is the sequence of its rows.
- Listing.MakeEntryItem: where a link leaves its row, into the next row or beyond the array, nothing is said of what follows; a request of at most 2047 characters, as main.c's buffer for it can hold, has no such link.
- Listing.GetEntry: realloc and malloc are taken to succeed.
- Tokenizer.DivideByChar: malloc is taken to succeed; freeing of the formatted copy is not modelled.
- FileSend.FileReqHandler: the header's text is an arbitrary byte array, and file sizes are at most INT_MAX.
- RequestHandler, DirReqHandler, BadReqHandler and Response: they only choose a page and send it in one call.
- TcpServer_Accept, option and data getters and setters, UdpPoint's raw calls, TcpClient_Connect: no state of their own to keep.
- main.c's threads and console, page.c's templates, and everything in basic_material: nothing that the parts above do not already say.

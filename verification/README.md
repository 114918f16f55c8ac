# Verified models of the book's protocols, parsers and state machines

Dafny models of the examples in this repository that hold logic of their own, with proofs of what they promise.
`dafny verify dfyconfig.toml` checks everything.

- **Blockchain network** (`Hashing`, `Merkle`, `BlockChain`, `TamperEvidence`, `NodeServer`, `Network`, `Convergence`,
  `Fork`, `Agreement`, `Joining`): Merkle root and proof of work; the chain object; nodes that join, mine, broadcast
  and adopt longer chains. The network is a transition system in which the server thread of a node runs between any
  two steps of its command loop: each argument of `findHash` and `addBlock` is read in a step of its own, messages are
  delivered in any order or lost. `sha256` is an arbitrary function into 64 lower-case hexadecimal digits, so results
  that rest on collisions not occurring name two different strings, among those the program really hashed, that have
  the same digest.
- **Flooding overlay** (`Flooding`, `Messenger`): the peer-to-peer chat, as a flood over a graph and as the two Python
  classes, and the lemma that ties one to the other.
- **HTTP text layer** (`QueryString`, `HttpMessage`, `HttpRoundTrip`, `ScopeRunner`, `ConnectionPool`): percent coding,
  query strings, the header parsers with the printers of client and server, the lock of `ScopeRunner` under every
  interleaving, and the client's connection pool.
- **State machines and arithmetic** (`Transceiver`, `IoRing`, `PingPacket`, `Config`, `AsyncDns`, `Blowfish`,
  `WordCount`): the ring buffer of the select server, the io_uring echo loop, the Internet checksum, the configuration
  store, the DNS cache and the block cipher of WASTE, and the map-reduce word count.

`Text` holds the decimal numbers and string searches that several of them use.

Loops of the sources are loops here, and objects that change are classes; each method is proved against a function of
its inputs or old state, and the results are lemmas about that function. Protocols with more than one thread or party
are transition systems: `Apply` is one step, a step that is not possible changes nothing, and `Run` takes a list of
steps.
A multimap is the sequence of its entries, in the order in which they are printed or read.

What the sources read from elsewhere is a parameter: results of system calls, the time, the resolver's answers, the
content of files, the order in which a hash set or a list of futures is traversed.

Where documentation or evident intent and the code differ, the model follows the code:

- The README of the blockchain (line 36) says that there is one explicit set of blocks at a time. There is one length, but
  one set only if the longest chains mined since the last rest are one chain: `Agreement.OneChainIff`, with
  `Joining.TwoNodesFork` for a run that ends with two.
- A block's hash is meant to fix what the block says. The header joins the Merkle root and the nonce with nothing between
  them, and a nonce may be any string, so the message of any mined block can be taken away, its root put in front of the
  nonce, without a change of the hash: `TamperEvidence.CountsAreNeeded`. Equal data counts exclude this
  (`TamperEvidence.TipDeterminesChain`).
- The select server goes on watching a client's socket after its file was opened, and drops the client as soon as there is
  something to read or the client has finished sending: `Transceiver.Serve` says when the whole file is sent.
- The DNS cache repeats a name that does not fit a slot: `AsyncDns.CacheInOrderIff`. The one caller in the program copies
  the host into 256 characters and refuses an empty one (`connection.cpp`, lines 144 and 474), so it never asks for one.
- `Percent::encode` does not escape a percent sign, so `decode` does not undo it for every value;
  `QueryString.DecodeEncodeIff` gives the values for which it does.
- A query string is taken apart at the last `=` of a segment. As encoded values have none, names with `=` survive.
- What `blowfish.cpp` calls PCBC mixes no plaintext into the next vector; it decrypts all the same.
- A line of the configuration file may be one character longer than its buffer seems to allow: `Config.LongLine`.

## Model

| member | source | states |
|---|---|---|
| Merkle.HashPairs | src/book03/ch19/cpp/simple_blockchain/common.hpp:41-51 | one level of the tree: the inner loop gives half as many hashes, each of the joined hashes of a neighbouring pair |
| Merkle.GetMerkleRoot | src/book03/ch19/cpp/simple_blockchain/common.hpp:25-54 | the loop over levels ends (each has half the nodes, rounded up) and computes the root, with the empty list, the single element and the padding of odd levels with the last leaf of the whole list |
| Merkle.RootIsNode | src/book03/ch19/cpp/simple_blockchain/common.hpp:25-54 | from the top: the root of two or more elements is the one node of the first level that has only one; a node is the digest of the digests of its two children joined, and where a level has no such child the last element stands in |
| Merkle.LevelBinding | src/book03/ch19/cpp/simple_blockchain/common.hpp:43-51 | two levels with equal levels above them are equal, or two of the strings hashed on the way have the same digest |
| Merkle.MerkleBinding | src/book03/ch19/cpp/simple_blockchain/common.hpp:25-54 | two lists of equal length with the same root are the same list, or two different strings among those hashed for the two roots have the same digest |
| Merkle.RootIsOfOne | src/book03/ch19/cpp/simple_blockchain/common.hpp:25-54 | equal length is needed: every list of two or more elements has the root of a list of one element |
| Merkle.RootIgnoresRepeatedLast | src/book03/ch19/cpp/simple_blockchain/common.hpp:39 | one family of such lists, made by the padding: a list of odd length above one has the root of the list that repeats its last element |
| BlockChain.FindHash | src/book03/ch19/cpp/simple_blockchain/common.hpp:55-71 | the nonce loop gives the result of the search from nonce 0 below 100000 |
| BlockChain.SearchFindsLeast | src/book03/ch19/cpp/simple_blockchain/common.hpp:59-70 | mining reports the least nonce below the limit whose hash starts with "00", and "fail" exactly if there is none |
| BlockChain.MinedHashes | src/book03/ch19/cpp/simple_blockchain/common.hpp:57-66 | a search that does not fail reports the hash of index, previous hash, root and nonce; that hash meets the target and has the shape of a digest |
| BlockChain.MinedNonceIsShort | src/book03/ch19/cpp/simple_blockchain/common.hpp:58-71 | a mined nonce has at most five characters |
| BlockChain.BlockChain.constructor | src/book03/ch19/cpp/simple_blockchain/BlockChain.hpp:34-47 | with argument 0 the chain holds the mined first block, else no block |
| BlockChain.BlockChain.AddBlock | src/book03/ch19/cpp/simple_blockchain/BlockChain.hpp:68-79 | a block is appended, and 1 returned, exactly when its hash is that of its header, starts with "00", and its index is the length of the chain; else nothing changes |
| BlockChain.BlockChain.GetLatestBlockHash | src/book03/ch19/cpp/simple_blockchain/BlockChain.hpp:82-85 | the hash of the last block |
| BlockChain.BlockChain.ToJson | src/book03/ch19/cpp/simple_blockchain/BlockChain.hpp:88-97 | a valid chain is encoded block for block under its length |
| BlockChain.BlockChain.ReplaceChain | src/book03/ch19/cpp/simple_blockchain/BlockChain.hpp:100-114 | all blocks but the first are dropped and the entries of the message offered one by one; an unreadable entry ends this and leaves what was added |
| BlockChain.AddEntriesConsistent | src/book03/ch19/cpp/simple_blockchain/BlockChain.hpp:107-112 | whatever message arrives, every block of the result sits at its own index, and every block after the first hashes to its own hash and meets the target |
| BlockChain.ReplacedWholeIff | src/book03/ch19/cpp/simple_blockchain/BlockChain.hpp:100-114 | a message is taken over whole exactly when each entry after the first would be accepted at its own position; otherwise fewer blocks than its length remain |
| BlockChain.ReplacedByConsistent | src/book03/ch19/cpp/simple_blockchain/BlockChain.hpp:100-114 | a chain of accepted blocks with the same first block is adopted block for block |
| TamperEvidence.HeaderSplits | src/book03/ch19/cpp/simple_blockchain/BlockChain.hpp:70 | for a given index and given lengths of hash and root, the concatenated header determines previous hash, root and nonce |
| TamperEvidence.BlockBinding | src/book03/ch19/cpp/simple_blockchain/BlockChain.hpp:68-79 | two accepted blocks at the same position with the same hash, the same data count and previous hashes of equal length are the same block, or two hashed strings clash |
| TamperEvidence.TipDeterminesChain | src/book03/ch19/cpp/simple_blockchain/BlockChain.hpp:68-85 | two mined chains of equal length, data counts and last hash are equal in every field of every block, or two of the strings hashed to check them have the same digest |
| TamperEvidence.ChangeIsDetected | src/book03/ch19/cpp/simple_blockchain/BlockChain.hpp:68-79 | changing a block below the last one, with lengths and last hash kept, leaves a chain that is no longer accepted and linked, or exhibits a clash |
| TamperEvidence.EmptiedStaysAccepted | src/book03/ch19/cpp/simple_blockchain/BlockChain.hpp:70 | root and nonce are joined with nothing between them: a block whose data is taken away and whose nonce gets the root in front keeps its header and stays accepted under the same hash |
| TamperEvidence.CountsAreNeeded | src/book03/ch19/cpp/simple_blockchain/BlockChain.hpp:68-85 | in every mined chain each block after the first that holds data can be emptied like this: the chain that results is different, accepted and linked, of equal length and last hash, and hashes no further string |
| TamperEvidence.TipAloneDeterminesIff | src/book03/ch19/cpp/simple_blockchain/BlockChain.hpp:68-85 | for a mined chain with nonces shorter than a root whose hashed strings do not clash: every mined chain of its length and last hash is equal to it, or clashes with it, if and only if no block after the first holds data |
| NodeServer.LongestIsFirstMaximum | src/book03/ch19/cpp/simple_blockchain/requests.hpp:50-62 | the reply the selection holds on to is the first of the longest, when any reply has a positive length |
| NodeServer.PickLongest | src/book03/ch19/cpp/simple_blockchain/requests.hpp:50-62 | the selection loop returns that reply |
| NodeServer.SendNewChain | src/book03/ch19/cpp/simple_blockchain/requests.hpp:68-86 | one post of the chain to each known node, in order |
| NodeServer.NodeServer.First | src/book03/ch19/cpp/simple_blockchain/main.cpp:50-58 | a first node starts with the mined first block and knows nobody |
| NodeServer.NodeServer.Join | src/book03/ch19/cpp/simple_blockchain/main.cpp:59-83 | a joining node knows the ports it was given and offers the entries of the longest reply to its own first block; an entry that cannot be read ends the program |
| NodeServer.NodeServer.HandleAddNode | src/book03/ch19/cpp/simple_blockchain/main.cpp:95-111 | the announced port is appended to the known nodes and nothing else changes |
| NodeServer.NodeServer.HandleNewChain | src/book03/ch19/cpp/simple_blockchain/main.cpp:126-149 | the chain becomes the result of the handler: unchanged unless the message claims a greater length |
| NodeServer.NodeServer.MineAndBroadcast | src/book03/ch19/cpp/simple_blockchain/main.cpp:199-216 | undisturbed mining appends one block linked to the tip, or nothing if the search fails, and posts the resulting chain to every known node |
| NodeServer.MinedIsAccepted | src/book03/ch19/cpp/simple_blockchain/main.cpp:211-213 | without interference a mined block is accepted if and only if the search succeeded |
| Network.StaleHeaderDiffers | src/book03/ch19/cpp/simple_blockchain/main.cpp:211-213 | the race that matters: when the tip was read before a replacement and the count after it, the mined header and the checked header are different strings |
| Network.AddMinedOk | src/book03/ch19/cpp/simple_blockchain/main.cpp:211-213 | adding after mining, with any deliveries between the reads, keeps a chain sound: if the added block does not name the tip, two different hashed strings have the same digest |
| Network.DeliveryAdopts | src/book03/ch19/cpp/simple_blockchain/main.cpp:133-142 | a delivered sound chain is adopted block for block when longer and ignored otherwise |
| Network.JoinAdopts | src/book03/ch19/cpp/simple_blockchain/main.cpp:74-82 | a joining node ends up with one of the replies, none of which is longer |
| Network.StepKeepsInv | src/book03/ch19/cpp/simple_blockchain/main.cpp:126-215 | every step of every node (announce, ask, join, read count, read tip, find nonce, add, snapshot, send), every delivery and every loss keeps the network invariant |
| Network.ChainsAreSound | src/book03/ch19/cpp/simple_blockchain/main.cpp:126-215 | in every run every chain held, in flight or received in a reply has index equal to position, the common first block, hashes of its headers and "00" prefixes, and, unless two hashed strings clash, each block names the hash of the one before |
| Network.SoundTipsDetermine | src/book03/ch19/cpp/simple_blockchain/BlockChain.hpp:68-85 | without a clash two sound chains of equal length with the same last hash are equal |
| Network.AgreementIff | src/book03/ch19/cpp/simple_blockchain/BlockChain.hpp:68-85 | in every run without a clash, two nodes with chains of equal length hold the same chain exactly when their last hashes agree |
| Network.TipAloneIff | src/book03/ch19/cpp/simple_blockchain/main.cpp:126-215 | in every run without a clash the chain of a node is the only mined one with its length and last hash, up to clashes, if and only if it is the first block alone |
| Network.ChainSteps | src/book03/ch19/cpp/simple_blockchain/main.cpp:126-215 | in one step a chain stays, is adopted whole from a longer message, or gets one more block |
| Network.ChainNeverShrinks | src/book03/ch19/cpp/simple_blockchain/main.cpp:133-142 | over every run no chain gets shorter, and a chain of unchanged length is unchanged |
| Convergence.QuietNodesHaveEqualLength | src/book03/ch19/cpp/simple_blockchain/main.cpp:133-142 | with fixed full membership and reliable delivery, whenever no message is in flight and no broadcast is open all nodes hold chains of equal length |
| Convergence.LaggingNodeIsOffered | src/book03/ch19/cpp/simple_blockchain/requests.hpp:68-86 | at any moment a node that is behind another is being sent, or about to be sent, a chain at least as long |
| Convergence.EveryRunCanSettle | src/book03/ch19/cpp/simple_blockchain/requests.hpp:68-86 | every such run can be completed to one that ends quiet with equal lengths; once the messages in flight are delivered, each further one is delivered before any node takes its next step, as a post blocks until it is answered |
| Convergence.LongestChainStays | src/book03/ch19/cpp/simple_blockchain/main.cpp:133-142 | a node with a longest chain keeps it for as long as nobody adds a block, whatever is delivered |
| Agreement.RunOrigins | src/book03/ch19/cpp/simple_blockchain/main.cpp:126-215 | every chain held, sent or in flight was there at the start of a reliable run or was produced in it by mining |
| Agreement.MintedStays | src/book03/ch19/cpp/simple_blockchain/main.cpp:133-142 | the node that mined a chain ends with it or with a longer one |
| Agreement.QuietNodesHoldLongest | src/book03/ch19/cpp/simple_blockchain/requests.hpp:68-86 | with fixed full membership and reliable delivery, from rest to the next time all is quiet: the chains held are those of the start if none was mined, and else exactly the longest of the mined ones |
| Agreement.OneChainIff | src/book03/ch19/cpp/simple_blockchain/README.md:36 | a network that holds one chain at rest holds one chain the next time all is quiet if and only if the longest of the chains mined on the way are one chain |
| Fork.MiningTogetherForks | src/book03/ch19/cpp/simple_blockchain/README.md:36 | two nodes at rest that mine different messages before they hear of each other hold different chains of equal length, and no later delivery or broadcast without a new block changes that |
| Fork.ForkCanSettle | src/book03/ch19/cpp/simple_blockchain/README.md:36 | such a fork can come to rest, with every post answered before the next step of any node, every broadcast finished and both chains still there |
| Joining.JoinKeepsRest | src/book03/ch19/cpp/simple_blockchain/main.cpp:59-83 | a node that joins a network at rest, names every node of it and reaches them all leaves it at rest, with complete membership and equal lengths, holding a chain that was there |
| Joining.BuildIsFresh | src/book03/ch19/cpp/simple_blockchain/main.cpp:50-83 | so for any different ports there is a run from nothing to a network of these nodes at rest, each with the first block alone |
| Joining.BuiltNetworkAgreesIff | src/book03/ch19/cpp/simple_blockchain/README.md:36 | whatever is reliably done in a network built like this, once all is quiet its chains have equal length and are one chain if and only if the longest chains mined are one |
| Joining.TwoNodesFork | src/book03/ch19/cpp/simple_blockchain/README.md:36 | a run from nothing that ends quiet with two different chains of equal length, where every post of the forked network is answered before the next step of any node |
| Flooding.ReachedOnward | src/book03/ch19/python/p2p-chat.py:181-188 | handing on keeps it true that a message on a link came from the sender by a walk that stays clear of the next node and of the addressee |
| Flooding.ReachedAreRoutes | src/book03/ch19/python/p2p-chat.py:98-114 | in an acyclic overlay the links a flood may use lead away from the sender, one into each node, and none leads on from the addressee |
| Flooding.AtMostOnce | src/book03/ch19/python/p2p-chat.py:98-114 | on an acyclic overlay, in any order of arrivals, each link carries a message at most once in both directions together, each node handles it at most once, and it does not come back to its sender |
| Flooding.FloodReachesAudience | src/book03/ch19/python/p2p-chat.py:181-188 | when nothing is in flight, exactly the nodes the sender reaches without passing through the addressee have handled the message, each once |
| Flooding.AddresseeGetsItOnce | src/book03/ch19/python/p2p-chat.py:181-184 | an addressee connected to the sender gets the message exactly once |
| Flooding.FloodEnds | src/book03/ch19/python/p2p-chat.py:105-112 | no order of arrivals has as many arrivals as the overlay has nodes |
| Flooding.WalkIsFollowed | src/book03/ch19/python/p2p-chat.py:187 | a message follows every walk that does not turn back |
| Flooding.CycleRepeats | src/book03/ch19/python/p2p-chat.py:98-114 | on an overlay with a cycle, and for every addressee, on the cycle, off it or absent, some message that another node sends to it is handled twice by some node |
| Flooding.OnceIffAcyclic | src/book03/ch19/python/p2p-chat.py:98-114 | for every addressee: the overlays on which every message to it is handled at most once by every node, whoever else sends it, are exactly the acyclic ones |
| Messenger.Communicator.ProtoFactory | src/book03/ch19/python/p2p-chat.py:124-128 | a new connection is appended to the list |
| Messenger.Communicator.OnDisconnect | src/book03/ch19/python/p2p-chat.py:130-136 | the first entry of this connection is removed, and nothing else |
| Messenger.Communicator.SendMessage | src/book03/ch19/python/p2p-chat.py:98-114 | the message is written to the connections whose peer is not an exception, in order; a missing transport does not stop the loop |
| Messenger.MessengerLogic.OnMessage | src/book03/ch19/python/p2p-chat.py:181-188 | the addressee writes nothing; any other node writes to all connections but those with the peer or own address of the one the message came from |
| Messenger.DisconnectTwice | src/book03/ch19/python/p2p-chat.py:42-48 | the second call for the same connection changes nothing, and no other connection is removed |
| Messenger.RecipientsAre | src/book03/ch19/python/p2p-chat.py:105-112 | a connection is written to if and only if it is in the list, has a transport, and its peer is no exception |
| Messenger.WrittenOften | src/book03/ch19/python/p2p-chat.py:105-112 | such a connection is written to as often as it is in the list, and any other not at all |
| Messenger.WrittenInOrder | src/book03/ch19/python/p2p-chat.py:105-112 | connections are written to in the order of the list |
| Messenger.HandsOnLikeFlood | src/book03/ch19/python/p2p-chat.py:181-188 | a node whose peers have different addresses, other than its own, and whose list holds each connection once, writes once over every link but the one the message came by, as the flood does |
| QueryString.PercentEncode | src/book03/ch19/cpp/simple_blockchain/utility.hpp:48-68 | the loop computes the encoding character by character |
| QueryString.EncodedCharIs | src/book03/ch19/cpp/simple_blockchain/utility.hpp:55-64 | the characters that are escaped, digits among them, and the two digits each of them gets |
| QueryString.PercentDecode | src/book03/ch19/cpp/simple_blockchain/utility.hpp:71-93 | the loop with its look-ahead computes the decoding; a percent sign without two characters after it stays, and non-hexadecimal digits count as far as strtol reads them |
| QueryString.EscapeDecodesTo | src/book03/ch19/cpp/simple_blockchain/utility.hpp:79-85 | a percent sign and two hexadecimal digits, each in either case, stand for the character with this number |
| QueryString.TwoHexDigitsAre | src/book03/ch19/cpp/simple_blockchain/utility.hpp:81-82 | any two characters behind it give what strtol in base 16 makes of them, modulo 256 |
| QueryString.DecodeEncodeIff | src/book03/ch19/cpp/simple_blockchain/utility.hpp:48-93 | decoding an encoded value gives it back exactly when no percent sign in it is followed by what the decoder takes for an escape, so for every value without a percent sign |
| QueryString.EncodedIsClean | src/book03/ch19/cpp/simple_blockchain/utility.hpp:48-68 | an encoded value has no "&" and no "=" |
| QueryString.Parse | src/book03/ch19/cpp/simple_blockchain/utility.hpp:116-158 | the single pass with its tracked positions returns the result of reading the segments, with every index in range |
| QueryString.ParsedIsSimple | src/book03/ch19/cpp/simple_blockchain/utility.hpp:116-158 | for every input this is the simple form: split at "&", split each segment at its last "=", drop empty names, decode the values |
| QueryString.Create | src/book03/ch19/cpp/simple_blockchain/utility.hpp:101-113 | the loop joins the segments name=encoded value with "&" between them |
| QueryString.QueryRoundTripIff | src/book03/ch19/cpp/simple_blockchain/utility.hpp:101-158 | parsing a created query string gives back the fields in order exactly when every name is non-empty and without "&" and every value survives encoding |
| HttpMessage.BlankLineStays | src/book03/ch19/cpp/simple_blockchain/utility.hpp:165-184 | while an empty line is ahead, reading a line makes progress and the line read is the empty one or the empty one is still ahead |
| HttpMessage.ParseHeader | src/book03/ch19/cpp/simple_blockchain/utility.hpp:165-184 | the loop ends and its fields and end position are those of reading lines up to the first without a colon |
| HttpMessage.HeaderFieldIs | src/book03/ch19/cpp/simple_blockchain/utility.hpp:165-184 | what any line with a colon gives: nothing if nothing or one blank follows, else a field whose value starts behind the colon or one blank after it and ends before the last character |
| HttpRoundTrip.CompactFieldReadsBack | src/book03/ch19/cpp/simple_blockchain/utility.hpp:165-184 | a field written without the blank is read back if and only if its value does not start with one |
| HttpMessage.ScanTarget | src/book03/ch19/cpp/simple_blockchain/utility.hpp:203-213 | the loop finds the first space and the last question mark before it |
| HttpMessage.ParseRequest | src/book03/ch19/cpp/simple_blockchain/utility.hpp:191-244 | method, path, query, version and header are those of the request line and the lines after it; the query is left alone without a question mark; a malformed line is refused |
| HttpMessage.RequestLineIff | src/book03/ch19/cpp/simple_blockchain/utility.hpp:191-244 | a line is taken for a request line if and only if it is a method and a target without blanks, each followed by one, and HTTP with a slash |
| HttpMessage.RequestLineIsRead | src/book03/ch19/cpp/simple_blockchain/utility.hpp:191-244 | its method and its version, without the last character, are read back |
| HttpMessage.ParseResponse | src/book03/ch19/cpp/simple_blockchain/utility.hpp:251-274 | version and status are those of the status line, and the header that of the lines after it; a malformed line is refused |
| HttpMessage.StatusLineIs | src/book03/ch19/cpp/simple_blockchain/utility.hpp:251-274 | what any line gives: nothing without a blank, without text behind it or with five characters at most; else the version, by the wrap-around of its length, and the text behind the blank without its last character |
| HttpRoundTrip.CreateRequestHeader | src/book03/ch19/cpp/simple_blockchain/client_http.hpp:476-490 | the request line with the corrected target, the Host field and the given fields, one per line |
| HttpRoundTrip.Request | src/book03/ch19/cpp/simple_blockchain/client_http.hpp:260-300 | the whole request as text: a length field only when there is content, the empty line, the content |
| HttpRoundTrip.Response.WriteHeader | src/book03/ch19/cpp/simple_blockchain/server_http.hpp:79-98 | the fields in order and a length field exactly when no field gives the length or chunked coding, in any case of letters, and the connection is kept; then the empty line |
| HttpRoundTrip.Response.Write | src/book03/ch19/cpp/simple_blockchain/server_http.hpp:132-139 | status line, fields and content as text |
| HttpRoundTrip.PrintedHasHeaderEnd | src/book03/ch19/cpp/simple_blockchain/client_http.hpp:295-300 | whatever its parts, the printed text has the end of header that callers read up to before they parse |
| HttpRoundTrip.HeaderReadsBack | src/book03/ch19/cpp/simple_blockchain/utility.hpp:165-184 | a printed header of clean fields is read back in order, up to exactly the content |
| HttpRoundTrip.TargetIsWhole | src/book03/ch19/cpp/simple_blockchain/utility.hpp:201-224 | path and query make up the target, split at its last question mark |
| HttpRoundTrip.RequestRoundTripIff | src/book03/ch19/cpp/simple_blockchain/utility.hpp:191-244 | the server recovers method, target, version 1.1 and all fields of a client request and leaves exactly the content unread if and only if method and target have no space or line feed, the host no line feed, names no colon or line feed and values no line feed |
| HttpRoundTrip.RequestArrives | src/book03/ch19/cpp/simple_blockchain/client_http.hpp:260-303 | what the parser reads from a clean request: the target with the server in front for a proxy, the host, the caller's fields in order and, exactly when there is content, a Content-Length that reads as the number of characters behind the header; these are the content |
| HttpRoundTrip.ResponseRoundTripIff | src/book03/ch19/cpp/simple_blockchain/utility.hpp:251-274 | the client recovers version, status and all fields of a server response and leaves exactly the content unread if and only if the status has no line feed, names no colon or line feed and values no line feed |
| HttpRoundTrip.ResponseArrives | src/book03/ch19/cpp/simple_blockchain/server_http.hpp:79-99 | what the parser reads from a clean response: the status, the caller's fields in order and, exactly when neither these fields nor the end of the connection delimit the content, a Content-Length that reads as the number of characters behind the header; these are the content |
| HttpRoundTrip.LengthReadsBack | src/book03/ch19/cpp/simple_blockchain/client_http.hpp:298-300 | the length a printer adds is read back as the length of the content |
| ScopeRunner.StepKeepsInv | src/book03/ch19/cpp/simple_blockchain/utility.hpp:360-403 | every atomic step, with compare-and-exchange failing at will, keeps the counter at the number of outstanding locks, or at -1 without any |
| ScopeRunner.CountIsOutstanding | src/book03/ch19/cpp/simple_blockchain/utility.hpp:360-403 | in every run, until a stop returns the counter is the number of locks granted less those released; afterwards it is -1 and all granted locks have been released |
| ScopeRunner.ClosesWithoutLocks | src/book03/ch19/cpp/simple_blockchain/utility.hpp:393-402 | the scope closes exactly at a successful exchange of stop that finds the counter 0, when no lock is outstanding |
| ScopeRunner.ClosedForever | src/book03/ch19/cpp/simple_blockchain/utility.hpp:381-402 | once the counter is -1 it stays -1 and every later return of continue_lock is a refusal, even of calls that had read the counter before |
| ScopeRunner.RefusedOnlyWhenClosed | src/book03/ch19/cpp/simple_blockchain/utility.hpp:381-390 | continue_lock refuses only when a stop has returned |
| ScopeRunner.StopCanFinish | src/book03/ch19/cpp/simple_blockchain/utility.hpp:393-402 | stop waits for nothing but the outstanding locks: once they are released its next unfailing attempt returns |
| ScopeRunner.ContinueCanFinish | src/book03/ch19/cpp/simple_blockchain/utility.hpp:381-390 | an undisturbed continue_lock returns in two attempts, with a new lock exactly when the scope is open |
| ScopeRunner.ContinueReturns | src/book03/ch19/cpp/simple_blockchain/utility.hpp:381-390 | a whole undisturbed call returns in one attempt, with a lock exactly when the scope is open |
| ScopeRunner.StopReturns | src/book03/ch19/cpp/simple_blockchain/utility.hpp:393-402 | a whole call of stop can return from any state, once the locks are destroyed |
| ConnectionPool.Client.GetConnection | src/book03/ch19/cpp/simple_blockchain/client_http.hpp:430-455 | an idle pooled connection is reused, a new one made only if all are in use; it comes out in use and may be reconnected |
| ConnectionPool.Client.Request | src/book03/ch19/cpp/simple_blockchain/client_http.hpp:260-303 | a new session gets a connection no other active session has, and the pool invariant is kept |
| ConnectionPool.Client.Sweep | src/book03/ch19/cpp/simple_blockchain/client_http.hpp:277-292 | in whatever order the set is traversed, connections in use stay, exactly one idle one stays if there is any, and the failed one goes |
| ConnectionPool.Client.Callback | src/book03/ch19/cpp/simple_blockchain/client_http.hpp:269-295 | ending a session frees its connection, sweeps the pool and keeps the invariant: at most one idle connection, each used pooled one owned by exactly one active session |
| ConnectionPool.Client.OnHeader | src/book03/ch19/cpp/simple_blockchain/client_http.hpp:533-654 | each outcome of reading a header: content still to be read, end of the session, or one more try on a new connection; a session reconnects at most once |
| ConnectionPool.Client.Reconnect | src/book03/ch19/cpp/simple_blockchain/client_http.hpp:630-645 | the stale connection leaves the pool, a new one in use that may not reconnect again takes its place, and the invariant is kept |
| ConnectionPool.Client.Stop | src/book03/ch19/cpp/simple_blockchain/client_http.hpp:390-399 | the pool is emptied and the invariant kept, with sessions under way |
| ConnectionPool.Client.PoolIsBounded | src/book03/ch19/cpp/simple_blockchain/client_http.hpp:276-292 | the pool never holds more connections than active sessions, and one |
| Transceiver.Transceiver.SendRequest | src/book02/ch04/cpp/select_aio_server/main.cpp:103-105 | the number of bytes given to send is zero exactly when nothing is held |
| Transceiver.Transceiver.ReadRequest | src/book02/ch04/cpp/select_aio_server/main.cpp:134 | the number of bytes asked of read is zero exactly when all slots but one are taken, and never reaches an unsent byte |
| Transceiver.WindowDrop | src/book02/ch04/cpp/select_aio_server/main.cpp:121-122 | advancing the send index by what was sent drops exactly those bytes from the front of what is held, across the end of the buffer |
| Transceiver.WindowPush | src/book02/ch04/cpp/select_aio_server/main.cpp:157 | advancing the read index appends exactly the bytes read to what is held, and overwrites none |
| Transceiver.Transceiver.SendBuffer | src/book02/ch04/cpp/select_aio_server/main.cpp:100-127 | each status with its condition; bytes leave in order from the front of what is held, and sent bytes followed by held bytes stay what was read of the file |
| Transceiver.Transceiver.ReadData | src/book02/ch04/cpp/select_aio_server/main.cpp:129-164 | each status with its condition; the next bytes of the file are appended to what is held, and the end is noted exactly when the file has no more |
| Transceiver.Transceiver.SentIsPrefix | src/book02/ch04/cpp/select_aio_server/main.cpp:100-164 | what the socket has got is always a front part of the file |
| Transceiver.Transceiver.UpdateFilePath | src/book02/ch04/cpp/select_aio_server/main.cpp:270-278 | the request opens a file exactly if none is open and it names one that can be opened; an open file stays open |
| Transceiver.ServedWholeIff | src/book02/ch04/cpp/select_aio_server/main.cpp:344-481 | the same condition on indices and counts alone, with what arrives in each round a parameter, by induction over the rounds |
| Transceiver.Transceiver.Step | src/book02/ch04/cpp/select_aio_server/main.cpp:411-481 | exactly when a client is dropped and how far it has got: before anything is sent if a descriptor has an error or its socket is readable and that does not open its first file; by the send if it fails, or if the end of the file was noted and nothing is held or the send is empty; by a read that fails with room left |
| Transceiver.Transceiver.Serve | src/book02/ch04/cpp/select_aio_server/main.cpp:344-481 | a client whose descriptors are always ready gets exactly its file, whatever the sizes of partial sends and reads and for every buffer of two or more slots, if and only if nothing arrives on its socket in the rounds that begin before the end of the file is noted or its last byte sent; if something arrives in the first of these rounds nothing more is sent |
| Config.Overwrite | src/book03/ch19/cpp/waste/config.cpp:110-119 | a value is copied in place only into a block large enough, and its block stays at least the rounded length |
| Config.StoredIsUpdate | src/book03/ch19/cpp/waste/config.cpp:104-132 | storing updates one entry of the map keyed by the first 16 characters and no other |
| Config.SameKeyIff | src/book03/ch19/cpp/waste/config.cpp:109 | names are the same exactly if they agree in their first 16 characters |
| Config.StoredKeepsOrder | src/book03/ch19/cpp/waste/config.cpp:104-132 | the order of names is kept and a new name goes to the end |
| Config.MapAt | src/book03/ch19/cpp/waste/config.cpp:136-141 | the search loop finds the value the map holds, or that it holds none |
| Config.Config.WriteString | src/book03/ch19/cpp/waste/config.cpp:104-132 | the table becomes the stored one; names stay distinct and within 16 characters, blocks large enough, the array within its allocation |
| Config.Config.ReadString | src/book03/ch19/cpp/waste/config.cpp:134-143 | the value of the map under the first 16 characters of the name, or the default |
| Config.Config.WriteInt | src/book03/ch19/cpp/waste/config.cpp:90-95 | the decimal text of the number is stored |
| Config.Config.ReadInt | src/book03/ch19/cpp/waste/config.cpp:97-102 | the number read from the value, or the default when it is missing or empty |
| Config.IntReadsBack | src/book03/ch19/cpp/waste/config.cpp:90-102 | ReadInt after WriteInt gives the number, and other names keep their numbers |
| Config.Config.Flush | src/book03/ch19/cpp/waste/config.cpp:26-44 | the text of the table is written when there are changes and the file opens, and nothing otherwise |
| Config.Config.constructor | src/book03/ch19/cpp/waste/config.cpp:55-88 | the loop over buffer-sized chunks ends and gives the table that the file describes |
| Config.LongLine | src/book03/ch19/cpp/waste/config.cpp:67-75 | a line that fits the buffer only without its line feed is read whole, and the line feed left over changes nothing |
| Config.LastLineNeedsFeed | src/book03/ch19/cpp/waste/config.cpp:67-75 | a last line without a line feed is lost, except that one which fills the buffer is taken |
| Config.FlushRoundTripIff | src/book03/ch19/cpp/waste/config.cpp:26-88 | a table is read back from its own file in order if and only if names have no "=" or line feed and do not start with "[", values have no line feed and do not end in a carriage return, and each name=value has at most 4095 characters |
| AsyncDns.AsyncDns.Resolve | src/book03/ch19/cpp/waste/asyncdns.cpp:104-147 | both loops together: reply and cache are those of finding the name or entering it |
| AsyncDns.VictimFrom | src/book03/ch19/cpp/waste/asyncdns.cpp:126-134 | the slot chosen is the first free one, else the first of the least recently used resolved ones, else none |
| AsyncDns.AsyncDns.ThreadFunc | src/book03/ch19/cpp/waste/asyncdns.cpp:75-97 | an undisturbed pass gives every pending slot its answer and leaves the others |
| AsyncDns.ResolveEffect | src/book03/ch19/cpp/waste/asyncdns.cpp:104-147 | resolve touches the slot of a known name, enters a new one in the free or least recently used resolved slot, or changes nothing when every slot waits |
| AsyncDns.PendingStays | src/book03/ch19/cpp/waste/asyncdns.cpp:126-134 | resolve never evicts an unresolved entry |
| AsyncDns.RunKeepsInv | src/book03/ch19/cpp/waste/asyncdns.cpp:75-147 | in every interleaving of resolve with the steps of the worker, used slots come first and hold names that differ regardless of case, resolved slots hold the last answer for their name, and the worker stores its answer in the slot it asked for |
| AsyncDns.RepliesAreAnswers | src/book03/ch19/cpp/waste/asyncdns.cpp:108-121 | in every run and for every name: an address is given exactly when the name is held resolved, in whatever case, and it is the last answer of the resolver; the name is refused exactly when that answer was none, or when it is not held and every slot waits; and the caller is told to wait exactly when it is held unresolved, or is not held and there is a slot to take |
| AsyncDns.FoldedSameIff | src/book03/ch19/cpp/waste/asyncdns.cpp:109 | names are the same exactly if they agree letter by letter, in whatever case |
| AsyncDns.EvictsLeastRecent | src/book03/ch19/cpp/waste/asyncdns.cpp:126-144 | an entry gives way only when every slot is used, and then it is resolved and least recently used |
| AsyncDns.PassResolvesPending | src/book03/ch19/cpp/waste/asyncdns.cpp:75-97 | when a pass ends, every name pending at its start has been answered in it |
| AsyncDns.PassCanEnd | src/book03/ch19/cpp/waste/asyncdns.cpp:75-97 | a pass that has begun can end whatever the resolver answers, and then every slot that was pending ahead of the worker has its answer, and the others are as they were |
| AsyncDns.WaitingCanEnd | src/book03/ch19/cpp/waste/asyncdns.cpp:75-147 | after any run, a name that is held or has a slot to take gets a reply other than wait after steps of the worker and at most one more call, and unless it was resolved already the reply is what the resolver says of it |
| AsyncDns.LongNameRepeats | src/book03/ch19/cpp/waste/asyncdns.cpp:109-141 | with two slots or more a name of 256 characters or more is cut off, not found again and entered once more |
| AsyncDns.CacheInOrderIff | src/book03/ch19/cpp/waste/asyncdns.cpp:104-147 | for every number of slots and every name: all runs of calls for it, among others that fit, keep the cache in order if and only if the name is not empty (or there is no slot) and has fewer than 256 characters (or there is one slot at most) |
| PingPacket.SumFits | src/book01/ch04/cpp/ping/ping.h:139-140 | the 32-bit sum of at most 65537 words cannot overflow |
| PingPacket.SumOverflowsIff | src/book01/ch04/cpp/ping/ping.h:139-140 | for every length: some buffer of that length overflows the 32-bit sum if and only if it has more than 65537 words, an odd last byte counted as one |
| PingPacket.FoldedIsReduced | src/book01/ch04/cpp/ping/ping.h:141-144 | two folds and the truncation give the sum reduced modulo 65535, with 65535 for its positive multiples |
| PingPacket.OnesSumIsReduced | src/book01/ch04/cpp/ping/ping.h:139-144 | adding the words with end-around carry gives the same |
| PingPacket.ChecksumIsOnesComplement | src/book01/ch04/cpp/ping/ping.h:133-147 | the checksum is the complement of the one's complement sum of section 1 of RFC 1071, for up to 65537 words |
| PingPacket.Packet.ComputeChecksum | src/book01/ch04/cpp/ping/ping.h:133-147 | the loop over words and the odd last byte, with 32-bit wrap-around, computes the checksum |
| PingPacket.Packet.Check | src/book01/ch04/cpp/ping/ping.h:156-168 | the result says whether the packet is accepted, and the buffer is as before |
| PingPacket.Packet.constructor | src/book01/ch04/cpp/ping/ping.h:176-197 | the bytes of a new packet: type 8, code 0, identifier and sequence number with the high byte first, the alphabet repeated, and the checksum |
| PingPacket.CreatedHolds | src/book01/ch04/cpp/ping/ping.h:176-197 | byte by byte: type 8 and code 0, identifier and sequence number with the high byte first, and the letters of the payload |
| PingPacket.Packet.Fill | src/book01/ch04/cpp/ping/ping.h:190-192 | the generator gives a to z with one more "a" between rounds |
| PingPacket.CreatedIsAccepted | src/book01/ch04/cpp/ping/ping.h:156-197 | a created packet of any size is accepted |
| PingPacket.ChangedWordAcceptedIff | src/book01/ch04/cpp/ping/ping.h:156-168 | changing one aligned word of an accepted packet goes unnoticed if and only if zero and all ones are exchanged outside the checksum field and some other word is not zero |
| PingPacket.ChangedCreatedAcceptedIff | src/book01/ch04/cpp/ping/ping.h:156-197 | for a created packet and a word behind the first: if and only if zero and all ones are exchanged outside the checksum field |
| PingPacket.StandardAcceptsIff | src/book01/ch04/cpp/ping/ping.h:156-168 | the check of RFC 1071 accepts the packets the program accepts and, besides, those with all ones in the field where the program expects zero |
| IoRing.StepKeepsInv | src/book02/ch05/cpp/ioring_server/main.cpp:144-200 | one completion, with any result the kernel can report, keeps the invariant of requests, ring and the one accept |
| IoRing.CompletionsAreLive | src/book02/ch05/cpp/ioring_server/main.cpp:144-200 | in every run each completion refers to a live request whose type and length are those the kernel was given; a receive has the full buffer; no other operation of this request is in flight |
| IoRing.OneOperationEach | src/book02/ch05/cpp/ioring_server/main.cpp:69-107 | in every run there are as many operations in flight as live requests, and exactly one is an accept |
| IoRing.SocketIsAccepted | src/book02/ch05/cpp/ioring_server/main.cpp:146-175 | as long as the loop runs, a request serves a client exactly if an accept has completed for it since it was allocated, and it keeps the socket which that gave |
| IoRing.FailedIff | src/book02/ch05/cpp/ioring_server/main.cpp:152-189 | the loop ends exactly when an accept or a receive reports an error |
| IoRing.EchoIff | src/book02/ch05/cpp/ioring_server/main.cpp:182-200 | from the count of lost bytes to the bytes: a client, connected or gone, got back what it sent, up to what is being sent, if and only if nothing is counted as lost |
| IoRing.WholeIff | src/book02/ch05/cpp/ioring_server/main.cpp:182-200 | a connected client got back what it sent, up to what is being sent, if and only if no completion since its request was allocated was a send to it that brought fewer bytes than it was given |
| IoRing.DepartedWholeIff | src/book02/ch05/cpp/ioring_server/main.cpp:144-200 | a client whose read brings nothing is recorded as it was, and got back all it had sent if and only if no completion since its request was allocated was such a short send to it |
| IoRing.EchoesAllIff | src/book02/ch05/cpp/ioring_server/main.cpp:144-200 | in every run all clients, connected or gone, got back what they sent, up to what is being sent, if and only if no completion of the run was such a short send |
| IoRing.ShortSendLoses | src/book02/ch05/cpp/ioring_server/main.cpp:182-200 | a run that shows it: a client sends any bytes and only a given front part comes back |
| Blowfish.RoundsUndone | src/book03/ch19/cpp/waste/blowfish.cpp:333-365 | the rounds in reverse order on the swapped result give back the start, swapped, for every round function and keys |
| Blowfish.DecryptEncrypt | src/book03/ch19/cpp/waste/blowfish.cpp:337-365 | decrypting an encrypted block gives the block back, for every content of the key tables |
| Blowfish.EncryptedIsFeistel | src/book03/ch19/cpp/waste/blowfish.cpp:337-350 | encryption is a Feistel network of sixteen rounds: a row of halves, each the one two before it with the round function of the one before it and the key of the round mixed in, from the block to the result |
| Blowfish.XorLaws | src/book03/ch19/cpp/waste/blowfish.cpp:333-365 | mixing in is a commutative group in which every element is its own inverse |
| Blowfish.BlowfishEncrypt | src/book03/ch19/cpp/waste/blowfish.cpp:337-350 | the loop of eight pairs of rounds without swaps computes the sixteen rounds of the network |
| Blowfish.BlowfishDecrypt | src/book03/ch19/cpp/waste/blowfish.cpp:352-365 | the same loop with the keys from the end computes the rounds in reverse order |
| Blowfish.DecryptEncryptAll | src/book03/ch19/cpp/waste/blowfish.cpp:437-499 | in ECB, CBC and PCBC mode decrypting with the vector encryption began with gives all blocks back and ends with the same vector |
| Blowfish.ModesLaw | src/book03/ch19/cpp/waste/blowfish.cpp:437-499 | each ciphertext is the encryption of its block, mixed in ECB with nothing, in CBC with the ciphertext before it and in PCBC with the vector and all ciphertexts before it; and which vector is left in each mode |
| Blowfish.CallsStayInStep | src/book03/ch19/cpp/waste/blowfish.cpp:653-687 | a receiver that decrypts each message of a series with the vector left by the one before gets every message back |
| Blowfish.Cipher.Encrypt | src/book03/ch19/cpp/waste/blowfish.cpp:558-583 | the blocks are encrypted in place, in order, and the vector for the next call is kept |
| Blowfish.Cipher.Decrypt | src/book03/ch19/cpp/waste/blowfish.cpp:558-583 | the blocks are decrypted in place, in order, and the vector for the next call is kept |
| WordCount.AddLines | src/book03/ch18/cpp/qt-wordcount/main.cpp:94-99 | the loops over lines and words count the words of the lines onto the given counts |
| Text.SplitIsCut | src/book03/ch18/cpp/qt-wordcount/main.cpp:96 | the pieces of a line hold no blank, and with single blanks between them they are the line |
| Text.CutIsUnique | src/book03/ch18/cpp/qt-wordcount/main.cpp:96 | there is only one way to cut a line like this |
| WordCount.FileCountIs | src/book03/ch18/cpp/qt-wordcount/main.cpp:108-123 | the count of a file gives each word its number of occurrences among the pieces of all lines, however they are cut, and holds no other word |
| WordCount.SingleThreadedWordCount | src/book03/ch18/cpp/qt-wordcount/main.cpp:86-102 | the sequential count of all words of all files |
| WordCount.CountWords | src/book03/ch18/cpp/qt-wordcount/main.cpp:108-123 | the count of the words of one file |
| WordCount.Reduce | src/book03/ch18/cpp/qt-wordcount/main.cpp:129-133 | the counts are added up entry by entry, in any order of entries |
| WordCount.MappedReduced | src/book03/ch18/cpp/qt-wordcount/main.cpp:163 | reducing the maps of all files in any order gives the sequential count |
| WordCount.MapReduceIsSequential | src/book03/ch18/cpp/qt-wordcount/main.cpp:86-133 | for every file list and every permutation of it, the reduction in that order equals the sequential count |
| WordCount.CountsAreOccurrences | src/book03/ch18/cpp/qt-wordcount/main.cpp:86-133 | the sequential count and every order of reduction give each word its number of occurrences among the pieces of all lines of all files, and hold no other word |
| Text.AtoiDecimal | src/book03/ch19/cpp/waste/config.cpp:93-100 | atoi undoes sprintf of a decimal number |

## Left out

- Sockets, timers, TLS, asio, liburing and Qt threads: every call is a step with any result it can have.
- Joining.JoinKeepsRest: nothing else happens while the node joins; for any interleaving only what `Network.ChainsAreSound` says holds.
- JSON text: a chain in a message is its length and its entries, each of which may be absent or unreadable.
- Chain linkage for messages from outside the network: `addBlock` does not look at it, so only what `BlockChain.AddEntriesConsistent` says holds then.
- `getChainFromNodes` without any reply reads past the end of its vector; joining is modelled from one reply on.
- Memory order within `AddBlock` and `ReplaceChain`: handler and command loop interleave between calls, not inside one.
- The limit of 20 commands, menus and printing of the node program.
- Flooding.OnceIffAcyclic: `WellFormed` excludes links of a node to itself, which the default addresses of `p2p-chat.py` (lines 202 and 210) create.
- Framing of chat messages: each write arrives as one message; sending to several connections is one step.
- `read_chunked` of the HTTP client: bytes behind the current chunk are dropped with their buffer.
- HTTP parsing of input without the end of a header: callers parse only after reading up to it.
- `ContentDisposition` and chunked or streamed responses of the server.
- QueryString.QueryRoundTripIff: says "in order" where the source keeps an unordered multimap; the multiset of fields follows.
- ScopeRunner.CountIsOutstanding: the counter is unbounded, a `long` would overflow after 2^63 nested locks.
- ConnectionPool.Client.OnHeader: reading the content of a response is one phase that ends with the callback.
- Transceiver.Transceiver.SendBuffer: a `send` that is to be repeated is repeated at once; the model sees the attempt that ends the loop.
- Transceiver.Transceiver.UpdateFilePath: whether the text read from the socket names a file that can be opened is a parameter; how `get_request` collects the text, that a failing `recv` there ends the program, and the path handling are left out, as is the list of clients: clients share nothing but the loop.
- Config.Config.WriteString: strings hold no zero character, a new value does not alias a stored one, and memory does not run out.
- `ReadInt` on text that is not a number in the range of `int`, where `atoi` is undefined.
- AsyncDns.AsyncDns.Resolve: addresses are 32 bits wide as on Windows; the sign extension of `int` to a 64-bit `long` is not modelled.
- The DNS worker stores `resolved` and the address in one step (lines 85 to 89), and `resolve` is one step between those of the worker.
- Hosts that store the high byte of a word first, in the checksum.
- IoRing.StepKeepsInv: requests are values keyed by address, as addresses are used again after a request is removed, which objects in Dafny are not; the submission queue is never full, and setting the user data before preparing an operation keeps it.
- WordCount.SingleThreadedWordCount: counts are unbounded, and what a file holds does not change while the program runs.
- `findFiles`, `send_file` of the multi-threaded server, `WSGIGateway._write` and the ASCII column of the packet printer: what they do does not match their evident intent.
- Blowfish.Cipher.Encrypt: data is a whole number of blocks (the program leaves a remainder alone), and the tables computed from the key are arbitrary.
- Blowfish.DecryptEncrypt: a half of a block is 32 bits wide, as `unsigned long` is on Windows; where it has 64 bits the halves, which the program places four bytes apart, overlap and decryption does not undo encryption.
- WASTE connections, RSA and message queues (`connection.cpp`, `rsa`, `mqueue.cpp`).
- Generated serialization headers, user interface and Windows examples, and clients that make one library call.

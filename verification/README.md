# Verified model of the SSH client core

This project models the parts of libssh2 1.8.0 that the repository vendors and
drives from Python: the channel engine of sections 5.1 to 5.3 of RFC 4254, the
key exchange of sections 7 and 8 of RFC 4253, the known_hosts store, and the
primitives below them. `dafny verify dfyconfig.toml` checks everything. C files
named below without a path are in `libraries/libssh2-1.8.0/src`.

| file | what it models |
|---|---|
| Bytes, Base64, LinkedList | number and string encoding, base64, the intrusive list (`misc.c`) |
| KnownHostLine, KnownHosts | the line format and its round trip; the collection, lookup, reader and writer (`knownhost.c`) |
| NameList, Negotiation, KexInit, KexAgreement | comma lists, method choice, the KEXINIT packet, agreement on all methods (`kex.c`) |
| KeyDerivation, DiffieHellman, KeyExchange | key derivation, the Diffie-Hellman machine, the whole exchange (`kex.c`) |
| Transport | sends that complete, block or fail, and what a sender put on the wire (`transport.c`) |
| ChannelSend | data under the peer's window, EOF and CLOSE (`channel.c`) |
| PacketQueue, ChannelReceive, ReceiveRuns | the shared packet queue, reads, window adjustment, flush, and runs of them (`channel.c`, `packet.c`) |
| ChannelTable | channel ids, the session list and listener queues (`channel.c`, `packet.c`) |

## How it is built

Code that changes state is modelled by classes with the same fields and by
methods with the same branches; every method is proved against a specification
function or an invariant. "Every run" is a method that takes an arbitrary script
of calls, retries and environment steps. What the outside world does in a call
(the socket, arriving packets, random numbers) is a parameter. A blocked
operation is repeated with its own arguments, as channel.c:1995-1996 asks of
writes; the run methods do that themselves. What else a member asks of its
caller is under "Left out".

32-bit fields are of type `uint32` and every operation that can wrap is written
with an explicit remainder. Sizes of buffers are unbounded. `|` of disjoint
bits is written as `+`.

## Results worth knowing

- Keys are switched on only for a hash that the server signed. It covers the
  KEXINIT pair of the same exchange if and only if the exchange was asked for as
  a re-exchange or began without methods agreed on (`KeyExchange.Run`). A second
  handshake after a refused one does neither: the code skips KEXINIT (kex.c:2474,
  2531-2532) with both stored packets gone (`KeyExchange.SecondHandshake`).
  "Covers" is meant of the hashed octets: a parser finds the pair in them, in the
  order of section 8 of RFC 4253 (`DiffieHellman.HashCovers`).
- The send window is the peer's credit exactly while that is below 2^32
  (`ChannelSend.Run`, `ChannelSend.OverflowingGrant`).
- A resumed window request credits its argument, not the amount in the packet;
  the difference is what had been queued (`ReceiveRuns.SendResumed`,
  `ReceiveRuns.ResumedShort`). With sends that complete the accounts are exact if
  and only if no 32-bit sum wraps (`ReceiveRuns.Requests`,
  `ReceiveRuns.WrappedRequest`).
- The search for a channel id looks at the session list only. It returns an id in
  use if and only if the session list holds an id at or above the counter, or a
  listener queue holds the counter itself; that takes 2^32 channels
  (`ChannelTable.NextIsTaken`, `ChannelTable.WrapReusesOpenId`,
  `ChannelTable.WrapReusesQueuedId`). The comment at channel.c:78-84 expects
  trouble from closed channels only; the model follows the code.
- Of all entries that print as a line, exactly the writable ones survive being
  written and read (`KnownHostLine.SurvivesExactly`). A collection of writable
  entries survives with every verdict (`KnownHosts.CopyThroughLines`). Among
  legible entries three things change: an RSA1 key takes its comment in, leading
  blanks of a comment go, and an unknown key type whose name is a prefix of a
  known one becomes that one (`KnownHostLine.LineReread`).
- Negotiation finds the client's first suitable method if and only if no name that
  the server lists but the client does not support stands before it
  (`Negotiation.ChoiceExactly`, `Negotiation.UnsupportedHides`).
- The receive window leaves its bounds exactly when an adjustment is made for a
  buffer that reaches 2^32 together with the initial window: it wraps to a small
  number, and data is dropped (`ChannelReceive.ReceiveHalf.ExpandWindow`,
  `ReceiveRuns.WrappedWindow`).
- A forwarded connection is linked if and only if its confirmation goes out in the
  call that takes its id. One whose confirmation blocks is confirmed by a later
  call, but re-entry has forgotten the channel (packet.c:129), and no list ever
  holds its id (`ChannelTable.Session.QueueConnection`, `ChannelTable.Run`,
  `ChannelTable.BlockedConfirmation`).

## Model

| member | source | states |
|---|---|---|
| `Bytes.U32RoundTrip` | libraries/libssh2-1.8.0/src/misc.c:182-213 | Reading the four octets that store a 32-bit number gives the number, whatever follows them. |
| `Bytes.U32Injective` | libraries/libssh2-1.8.0/src/misc.c:182-213 | Four octets are the encoding of the number they are read as, so the encoding loses nothing. |
| `Bytes.NetworkOrder` | libraries/libssh2-1.8.0/src/misc.c:182-213 | The four octets are the digits of the number in base 256, highest first, in both directions. |
| `Bytes.StoreU32` | libraries/libssh2-1.8.0/src/misc.c:219-223 | Writes the four octets at the cursor, moves the cursor by four and leaves the octets behind it alone. |
| `Bytes.StoreStr` | libraries/libssh2-1.8.0/src/misc.c:227-234 | Writes length and text at the cursor, moves it by 4 plus the length and leaves the octets behind it alone. |
| `Base64.Encode` | libraries/libssh2-1.8.0/src/misc.c:321-386 | Writes the padded encoding of `insize` octets, or of a C string for size 0; never more than `insize*4/3+4` characters with the terminator, and exactly that many for lengths 1 mod 3. |
| `Base64.Decode` | libraries/libssh2-1.8.0/src/misc.c:261-307 | Decodes any text, skipping foreign characters and refusing a lone left-over character, without leaving its buffer of `3*src_len/4+1` octets. |
| `Base64.RoundTrip` | libraries/libssh2-1.8.0/src/misc.c:261-386 | Decoding an encoding gives the octets back, for every octet string. |
| `Base64.EncodedAlphabet` | libraries/libssh2-1.8.0/src/misc.c:310-386 | Encoded text holds characters of the alphabet and the padding sign only. |
| `Base64.Alphabet` | libraries/libssh2-1.8.0/src/misc.c:236-313 | Both tables are the 64 characters of section 4 of RFC 4648: a character stands at the place of its value, and the reverse table has no other character. |
| `Base64.SplitDigits` | libraries/libssh2-1.8.0/src/misc.c:331-365 | The four 6-bit values of a group are the base-64 digits of the number that its octets spell, with zeros for missing octets. |
| `LinkedList.ListHead.Add` | libraries/libssh2-1.8.0/src/misc.c:505-524 | Keeps next, prev, head, first and last consistent and appends the node to the abstract sequence. |
| `LinkedList.Remove` | libraries/libssh2-1.8.0/src/misc.c:546-557 | Keeps the list well formed and takes exactly this node out of the sequence of the head it hangs from. |
| `LinkedList.Step` | libraries/libssh2-1.8.0/src/misc.c:499-557 | One addition or removal on one of several lists: all lists stay well formed and node-disjoint, and only the named list changes. |
| `LinkedList.Run` | libraries/libssh2-1.8.0/src/misc.c:499-557 | Every run of additions and removals over any number of lists keeps all of them well formed and refines the run on sequences. |
| `KnownHosts.KnownHosts.Add` | libraries/libssh2-1.8.0/src/knownhost.c:134-270 | Appends exactly one entry, or nothing and an error: no key type, unknown name form, salt or hash that does not decode, empty raw key. |
| `KnownHosts.KnownHosts.Search` | libraries/libssh2-1.8.0/src/knownhost.c:402-484 | The nested loops with their flags compute the order-free verdict and hand back the first entry in (name form, list) order. |
| `KnownHosts.KnownHosts.Check` | libraries/libssh2-1.8.0/src/knownhost.c:349-491 | MATCH exactly when some entry answers for `[host]:port` or for the host with the key, MISMATCH exactly when some answer but none with the key, NOTFOUND otherwise; port is any decimal numeral of the value. An entry answers by its plain or custom name or by a 20-octet hash of it, with the key type asked for or any if none is. The entry handed back is the first for the first name form that has one; the error cases. |
| `KnownHosts.DecimalIsNumeral` | libraries/libssh2-1.8.0/src/knownhost.c:372 | The port is printed as digits that read from left to right give the number, without a leading zero unless it is 0. |
| `KnownHosts.NumeralIsDecimal` | libraries/libssh2-1.8.0/src/knownhost.c:372 | Every such numeral is the one printed for its value, so no other text names the port. |
| `KnownHosts.VerdictIgnoresOrder` | libraries/libssh2-1.8.0/src/knownhost.c:369-490 | The verdict is the same for every order of the entries. |
| `KnownHosts.KnownHosts.ReadLine` | libraries/libssh2-1.8.0/src/knownhost.c:863-932 | Appends what the line means and nothing else, and returns the code for it; blank lines and comments add nothing. A line of one host, `ssh-rsa` or `ssh-dss` and a key adds an RSA or a DSS entry of that host and key. |
| `KnownHosts.KnownHosts.AddHostLine` | libraries/libssh2-1.8.0/src/knownhost.c:738-832 | Splits key type, key and comment, and adds the host part by its form; keys under 20 characters are refused. |
| `KnownHosts.KnownHosts.SplitKey` | libraries/libssh2-1.8.0/src/knownhost.c:755-812 | The moving cursor finds key type, key and comment as the line grammar says. |
| `KnownHosts.KnownHosts.AddOldStyle` | libraries/libssh2-1.8.0/src/knownhost.c:614-667 | Adds one entry for each name of a comma list, last name first, up to the first name that is too long. |
| `KnownHosts.NextName` | libraries/libssh2-1.8.0/src/knownhost.c:628-663 | Each turn of the backwards scan splits exactly the last name off the list. |
| `KnownHostLine.ListedNames` | libraries/libssh2-1.8.0/src/knownhost.c:614-667 | The backwards scan of a comma list of any nonempty names finds all of them, last one first. |
| `KnownHosts.KnownHosts.AddHashedHost` | libraries/libssh2-1.8.0/src/knownhost.c:671-726 | Adds one entry for salt and hash between the bars, with the limits on both lengths. |
| `KnownHosts.KnownHosts.WriteLine` | libraries/libssh2-1.8.0/src/knownhost.c:988-1131 | Writes the line and a terminator if both fit, leaves the buffer alone otherwise, and reports the exact length of the line either way. |
| `KnownHosts.KnownHosts.WriteKey` | libraries/libssh2-1.8.0/src/knownhost.c:1024-1120 | The length counted in advance is the length of the key part that is printed. |
| `KnownHostLine.LineRoundTrip` | libraries/libssh2-1.8.0/src/knownhost.c:738-1131 | Reading the line printed for a writable entry appends exactly that entry. |
| `KnownHostLine.LineReread` | libraries/libssh2-1.8.0/src/knownhost.c:738-1131 | Reading the line printed for any legible entry appends one entry, and exactly which: an RSA1 comment joins the key, leading blanks of a comment go, an unknown type whose name is a prefix of a known one becomes that one. |
| `KnownHostLine.LineRoundTripExactly` | libraries/libssh2-1.8.0/src/knownhost.c:738-1131 | For legible entries the round trip holds if and only if none of these three changes applies. |
| `KnownHostLine.SurvivorIsLegible` | libraries/libssh2-1.8.0/src/knownhost.c:614-932 | Whatever entry is read back as itself from its printed line is legible: name form, length limits, key and type name. |
| `KnownHostLine.SurvivesExactly` | libraries/libssh2-1.8.0/src/knownhost.c:614-1131 | Of all entries that the writer prints as a line, exactly the writable ones are read back as themselves. |
| `KnownHostLine.HostPartReadBack` | libraries/libssh2-1.8.0/src/knownhost.c:614-726 | The host part of a printed line, plain or hashed, is read back as the one name it was. |
| `KnownHostLine.ParsePrintedKey` | libraries/libssh2-1.8.0/src/knownhost.c:755-812 | The key part of a printed line is read as type, type name, key and comment, whatever precedes it. |
| `KnownHostLine.CollectionRoundTrip` | libraries/libssh2-1.8.0/src/knownhost.c:863-1131 | Reading all printed lines of a collection in order gives the collection back. |
| `KnownHosts.CopyThroughLines` | libraries/libssh2-1.8.0/src/knownhost.c:349-1131 | Writing every entry with the real writer and reading the lines with the real reader yields a collection with the same verdict for every host, port, key and type. |
| `NameList.AgreeInstr` | libraries/libssh2-1.8.0/src/kex.c:1950-1984 | Finds a name exactly when it is one of the comma-separated names, at the start of its first occurrence. |
| `NameList.NeedleIsName` | libraries/libssh2-1.8.0/src/kex.c:1959-1980 | At the start of a name, text followed by a comma or the end matches exactly when it is the whole name. |
| `NameList.NamesOfJoin` | libraries/libssh2-1.8.0/src/kex.c:1751-1769 | Splitting a joined list gives the names back. |
| `NameList.JoinOfNames` | libraries/libssh2-1.8.0/src/kex.c:1950-1984 | Joining the names of a list gives the list back. |
| `KexAgreement.GetMethodByName` | libraries/libssh2-1.8.0/src/kex.c:1988-2002 | Yields the first method of the table with the name, none exactly when there is no such method. |
| `Negotiation.ChoiceIsFirst` | libraries/libssh2-1.8.0/src/kex.c:2007-2316 | With supported names, the choice is the first client name that the server lists and that meets the need; there is none exactly when no client name does. |
| `Negotiation.Negotiated` | libraries/libssh2-1.8.0/src/kex.c:2007-2316 | The same for what every negotiator arrives at, by preference string or by table. |
| `Negotiation.ChoiceExactly` | libraries/libssh2-1.8.0/src/kex.c:2007-2316 | For any names, supported or not, the search finds the first one that both sides know and that meets the need if and only if no unsupported name that the server lists stands before it; otherwise it finds nothing. |
| `Negotiation.UnsupportedHides` | libraries/libssh2-1.8.0/src/kex.c:2007-2316 | A concrete case: an unsupported name that the server lists hides a supported one behind it. |
| `Negotiation.HostkeyChoice` | libraries/libssh2-1.8.0/src/kex.c:2007-2077 | In names and abilities: what is chosen is in the table, wanted, listed and able to encrypt and sign as required; if nothing is, every wanted and listed host key lacks a required ability. |
| `Negotiation.NoExchange` | libraries/libssh2-1.8.0/src/kex.c:2084-2152 | If no key exchange is chosen, no wanted and listed key exchange has a wanted and listed host key that can do what it requires. |
| `Negotiation.TableEqualsPreferences` | libraries/libssh2-1.8.0/src/kex.c:2007-2316 | For every server list, negotiating from the table and with the table's names joined by commas offers the same methods in the same order, for all five negotiators. |
| `KexAgreement.Agree` | libraries/libssh2-1.8.0/src/kex.c:2007-2316 | Cipher, MAC, compression and host key: the search by preference string or by table yields the first wanted method that the server lists and the need admits. Spelled out: it is wanted and listed, and as a host key it can encrypt and sign where that is required; with supported names there is none exactly when every wanted name that the server lists lacks a required ability. |
| `KexAgreement.Session.AgreeHostkey` | libraries/libssh2-1.8.0/src/kex.c:2007-2077 | Agrees on the first host key that is wanted, that the server lists, and that can encrypt and sign where the key exchange requires it; fails, with supported names, only if every wanted name that the server lists lacks an ability; then the host key stays. |
| `KexAgreement.Session.AgreeKexHostkey` | libraries/libssh2-1.8.0/src/kex.c:2084-2152 | Picks the first key exchange for which a capable host key also agrees: both are wanted and listed, and the host key can encrypt and sign where the key exchange requires it. With supported names it fails exactly when every listed pair lacks an ability. A guessed packet is kept exactly when the server's first name was chosen. |
| `KexAgreement.Session.AgreeMethods` | libraries/libssh2-1.8.0/src/kex.c:2351-2438 | Agreement is reached exactly when the eight lists end within the packet and all have a choice, and every choice lands in its own place; what is preferred does not change. |
| `KexAgreement.ParseLists` | libraries/libssh2-1.8.0/src/kex.c:2367-2384 | Finds the eight lists one after the other; a packet in which a list or a length field runs off the end yields none, or a cursor past the end. |
| `KexInit.MethodStrLen` | libraries/libssh2-1.8.0/src/kex.c:1729-1746 | Counts the length of the joined list without joining it. |
| `KexInit.MethodList` | libraries/libssh2-1.8.0/src/kex.c:1751-1769 | Leaves exactly length and joined list before the returned position, although a comma is written after every name. |
| `KexInit.Build` | libraries/libssh2-1.8.0/src/kex.c:1792-1885 | Fills exactly 62 octets plus the sum of the list lengths: message number 20, the 16 octets of the cookie, the lists, and five zero octets; no trailing comma survives. |
| `KexInit.StringPair` | libraries/libssh2-1.8.0/src/kex.c:2328-2346 | Takes out the string that stands at the cursor, and refuses it exactly when it does not end within the packet; where the length field itself runs off, the cursor ends up past the packet. |
| `KexInit.ReadListsBack` | libraries/libssh2-1.8.0/src/kex.c:2328-2384 | Lists stored one after the other are read back in order, whatever stands around them. |
| `KexInit.KexInitRoundTrip` | libraries/libssh2-1.8.0/src/kex.c:1792-2384 | Parsing a packet that was built returns the same eight lists. |
| `KexAgreement.PeerSeesWanted` | libraries/libssh2-1.8.0/src/kex.c:1805-1885 | Who parses this session's KEXINIT finds in each of the eight places the names that this session wants there, in its order. |
| `KexAgreement.OwnPacketAgrees` | libraries/libssh2-1.8.0/src/kex.c:1805-2438 | A session without preferences agrees with a server that answers with the session's own packet, if its tables suit each other. |
| `KexAgreement.KexInitSender.Send` | libraries/libssh2-1.8.0/src/kex.c:1792-1943 | A blocked call keeps its packet and the next one sends that packet; on success the stored KEXINIT is the one on the wire. |
| `KexAgreement.KexInitSender.SendUntilDone` | libraries/libssh2-1.8.0/src/kex.c:1908-1943 | After any number of blocked calls one packet was sent, and it is the one stored. |
| `KeyDerivation.Derive` | libraries/libssh2-1.8.0/src/kex.c:47-99 | Stays within the requested length plus one digest and leaves a prefix of K1, K2, ... of section 7.2 of RFC 4253: the first digest is of K, H, letter and session id, every later one of K, H and all digests before it. |
| `KeyDerivation.StreamDigest` | libraries/libssh2-1.8.0/src/kex.c:62-96 | Every digest of the stream hashes K, H and what section 7.2 puts behind them. |
| `KeyDerivation.KeyIsPrefixOfStream` | libraries/libssh2-1.8.0/src/kex.c:47-99 | The key is what every long enough stretch of the stream begins with. |
| `KeyDerivation.ShorterKeyIsPrefix` | libraries/libssh2-1.8.0/src/kex.c:47-99 | The key for a shorter length is a prefix of the key for a longer one. |
| `DiffieHellman.Exchange.Call` | libraries/libssh2-1.8.0/src/kex.c:107-725 | One call from any state: the invariant holds, the session id never changes once set, success means keys on and installed, EAGAIN means exactly that the machine is not finished; if nothing fails the call does not; group and hash are those the exchange began with. |
| `DiffieHellman.Exchange.TakeReply` | libraries/libssh2-1.8.0/src/kex.c:215-459 | Accepts a reply exactly when the host key initialises and the signature on the hash of this exchange verifies. A parser finds this session's banners, both KEXINIT packets and the reply's host key at the start of the hashed octets, in this order. |
| `DiffieHellman.HashCovers` | libraries/libssh2-1.8.0/src/kex.c:352-402 | For every group exchange field: the first five string fields of the hashed octets are client banner, server banner, own KEXINIT, server's KEXINIT and host key. |
| `DiffieHellman.HashIsEight` | libraries/libssh2-1.8.0/src/kex.c:352-445 | Without group exchange the hashed octets are the eight string fields of section 8 of RFC 4253, e, f and K behind the host key, and a parser finds them. |
| `DiffieHellman.HashInputInjective` | libraries/libssh2-1.8.0/src/kex.c:352-402 | Equal hashed octets have equal banners, KEXINIT pairs and host keys, whatever the group. |
| `DiffieHellman.Exchange.TakeNewKeys` | libraries/libssh2-1.8.0/src/kex.c:474-712 | Takes NEWKEYS, switches the keys on and installs the six keys of section 7.2; each starts the stream of its own letter, A to F. |
| `DiffieHellman.Exchange.SwitchOn` | libraries/libssh2-1.8.0/src/kex.c:485-505 | The first switch sets the session id to the exchange hash, later ones keep it. |
| `DiffieHellman.DeriveAll` | libraries/libssh2-1.8.0/src/kex.c:506-640 | Each direction gets IV, cipher and MAC key from the stream of its own letter: A, C and E for this side, B, D and F for the server. |
| `DiffieHellman.SoundStep` | libraries/libssh2-1.8.0/src/kex.c:431-488 | A step keeps the order: signature verified, NEWKEYS sent, NEWKEYS received, keys on. |
| `DiffieHellman.FirstOnIsStable` | libraries/libssh2-1.8.0/src/kex.c:494-505 | No later event changes the hash of the first exchange that switched keys on. |
| `DiffieHellman.Run` | libraries/libssh2-1.8.0/src/kex.c:727-1345 | Every run over any number of exchanges with any groups and hashes, blocks and failures: keys are on only after signature, NEWKEYS sent and NEWKEYS received, no finished step is repeated, a packet is dropped before the reply exactly when the server had guessed wrongly, the session id is the first hash. |
| `KeyExchange.KeyExchange.Call` | libraries/libssh2-1.8.0/src/kex.c:2449-2568 | One call of a whole exchange, resumable at every send and receive, with or without the re-exchange flag: flags, stored packets and machine stay consistent; if nothing fails the call does not; an exchange has its own KEXINIT pair exactly when it was asked for as a new one or began without methods. |
| `KeyExchange.KeyExchange.AgreeOn` | libraries/libssh2-1.8.0/src/kex.c:2515-2530 | With agreement the machine may begin; without it the exchange ends and both packets are forgotten. |
| `KeyExchange.KeyExchange.ExchangeKeys` | libraries/libssh2-1.8.0/src/kex.c:2536-2568 | The machine runs with the KEXINIT packets that were sent and received in this exchange, where there are any. |
| `KeyExchange.CoverOn` | libraries/libssh2-1.8.0/src/kex.c:2449-2568 | While an exchange goes on, every reply it accepts is hashed with its own pair of KEXINIT packets, where it has one. |
| `KeyExchange.SwitchedOnFor` | libraries/libssh2-1.8.0/src/kex.c:2449-2568 | Wherever keys were switched on, the server signed the hash; it covers the KEXINIT pair of that exchange if and only if the exchange was asked for as a new one or began without methods, and then a parser finds the pair as third and fourth field of the hashed octets. |
| `KeyExchange.SameOctetsSamePair` | libraries/libssh2-1.8.0/src/kex.c:2449-2568 | Two exchanges that negotiated and switched keys on for the same hashed octets had the same KEXINIT pair. |
| `KeyExchange.Run` | libraries/libssh2-1.8.0/src/kex.c:2449-2568 | Over every run of exchanges: the same, and the pair is one packet that this side put on the wire and that spells its preferences, and one that came in during the run and has a choice in all eight lists. |
| `KeyExchange.SecondHandshake` | libraries/libssh2-1.8.0/src/kex.c:2531-2568 | A concrete run: after a handshake with a refused signature, a second one skips KEXINIT and switches the keys on for a hash that covers no KEXINIT of its own. |
| `Transport.Transport.Send` | libraries/libssh2-1.8.0/src/transport.c:596-652 | A send is done, blocks or fails; while a message is blocked, any other one is refused and other senders' messages stay as they were. |
| `Transport.NothingAfterClose` | libraries/libssh2-1.8.0/src/channel.c:2161-2340 | With EOF before every CLOSE and no data after EOF, no data follows a CLOSE. |
| `ChannelSend.SendHalf.Write` | libraries/libssh2-1.8.0/src/channel.c:2002-2134 | The exact answer: closed, EOF sent, an error if draining broke, nothing or would-block if the window after the grants is zero, else min(length, 32700, window, packet size) octets if they go out; a resumed write reports the blocked length. Exactly the reported prefix goes on the wire. |
| `ChannelSend.SendHalf.Prepare` | libraries/libssh2-1.8.0/src/channel.c:2019-2086 | The checks in their order, all grants taken, what an empty window returns, and how the packet is measured. |
| `ChannelSend.SendHalf.SendData` | libraries/libssh2-1.8.0/src/channel.c:2106-2133 | The packet goes out, blocks to be resumed, or fails; the window shrinks by exactly what was sent. |
| `ChannelSend.SendHalf.Grant` | libraries/libssh2-1.8.0/src/packet.c:934-953 | An incoming window adjust adds to the window in 32 bits. |
| `ChannelSend.SendHalf.SendEof` | libraries/libssh2-1.8.0/src/channel.c:2161-2184 | EOF is marked exactly when it is on the wire; what is answered when it blocks, fails or another message is blocked. |
| `ChannelSend.SendHalf.SendClose` | libraries/libssh2-1.8.0/src/channel.c:2307-2331 | CLOSE goes out once, after EOF; a resumed call does not send it again; what goes on the wire and what is answered, exactly. |
| `ChannelSend.SendHalf.AwaitClose` | libraries/libssh2-1.8.0/src/channel.c:2333-2345 | The wait ends well once the peer closed, is gone or some packet was read, with an error where reading broke, and would block where nothing is left to read, whichever comes first. |
| `ChannelSend.SendHalf.Close` | libraries/libssh2-1.8.0/src/channel.c:2292-2370 | Exactly which of EOF and CLOSE go out, the wait for the peer, and the answer; EAGAIN exactly while the channel is not closed; closing again does nothing. |
| `ChannelSend.SendHalf.Settle` | libraries/libssh2-1.8.0/src/channel.c:2351-2368 | The callback fires the first time and never again. |
| `ChannelSend.SendHalf.Free` | libraries/libssh2-1.8.0/src/channel.c:2458-2486 | Closes first on a live connection, with the messages of a close, and goes on unless that blocks. |
| `ChannelSend.Run` | libraries/libssh2-1.8.0/src/channel.c:2002-2486 | Every run: window equals initial plus grants minus bytes sent in 32 bits, and outright exactly while that is below 2^32; it never goes below zero; wire payloads concatenate to what was reported; every step grants what it says and writes what it reports; where all sends complete, every write before EOF and CLOSE sends as much as buffer, window and packet size allow; EOF, CLOSE and callback laws, which hold for every script in which the transport fails no EOF or CLOSE and blocked messages go out first. |
| `ChannelSend.OverflowingGrant` | libraries/libssh2-1.8.0/src/packet.c:934-953 | A concrete run in which the credit reaches 2^32 and the window is back at zero. |
| `PacketQueue.DrainTakesPrefix` | libraries/libssh2-1.8.0/src/channel.c:1809-1883 | A read takes the oldest octets waiting for the reader, as many as fit, and leaves the rest in order and all other packets unchanged. |
| `PacketQueue.WhatIsRead` | libraries/libssh2-1.8.0/src/channel.c:1833-1844 | Packet by packet: stream 0 gets the channel's data, and in merge mode its extended data too; another stream gets the channel's extended data of that stream. |
| `PacketQueue.DrainTotal` | libraries/libssh2-1.8.0/src/channel.c:1809-1902 | The octets taken leave the total of the read channel and of no other. |
| `PacketQueue.Lossless` | libraries/libssh2-1.8.0/src/channel.c:1809-1903 | For every interleaving of arrivals, reads and flushes of other channels: returned octets followed by unread ones equal the arrived ones, in order. |
| `PacketQueue.KeptTotal` | libraries/libssh2-1.8.0/src/channel.c:1396-1433 | A flush takes its octets from the total of its channel and from no other. |
| `PacketQueue.WhatIsKept` | libraries/libssh2-1.8.0/src/channel.c:1400-1415 | Packet by packet, what a flush of all streams, of all extended streams, of stream 0 or of one stream leaves. |
| `ChannelReceive.ReceiveHalf.Deliver` | libraries/libssh2-1.8.0/src/packet.c:684-740 | Data is cut to the packet size and the window that is left, dropped when the window is full, queued and counted otherwise; exactly which packet is queued. |
| `ChannelReceive.ReceiveHalf.Collect` | libraries/libssh2-1.8.0/src/channel.c:1574-1601 | Small unforced amounts are queued, others become a message with everything queued; when a sum wraps. |
| `ChannelReceive.ReceiveHalf.SendAdjust` | libraries/libssh2-1.8.0/src/channel.c:1605-1624 | The window grows by the call's argument; what a resumed call leaves uncredited is accounted for. |
| `ChannelReceive.ReceiveHalf.ReceiveWindowAdjust` | libraries/libssh2-1.8.0/src/channel.c:1564-1625 | The whole effect of a request, fresh or resumed, the exact answer, and the laws of the half after it. |
| `ReceiveRuns.Requests` | libraries/libssh2-1.8.0/src/channel.c:1564-1625 | For all requests whose sends complete: total asked for equals total sent plus the queue, the queue stays below 1024, the window grows by exactly the amounts sent; if and only if no amount overflows 32 bits together with what is queued before it. |
| `ReceiveRuns.SendResumed` | libraries/libssh2-1.8.0/src/channel.c:1574-1624 | A request, forced or not, that blocks any number of times and is resumed: the window grows by exactly what is sent if and only if nothing was queued before it; otherwise by how much it falls short. |
| `ReceiveRuns.ResumedShort` | libraries/libssh2-1.8.0/src/channel.c:1605-1619 | A concrete run in which a resumed request sends 1100 octets of window and credits 600. |
| `ReceiveRuns.WrappedRequest` | libraries/libssh2-1.8.0/src/channel.c:1574-1591 | A concrete run in which a request wraps: 2^32+499 octets are asked for, none is sent and 499 are queued. |
| `ChannelReceive.ReceiveHalf.ExpandWindow` | libraries/libssh2-1.8.0/src/channel.c:1782-1800 | With an initial window of at least 4096, from within the bounds and with nothing queued, a completed adjustment takes the window to (initial+buffer) mod 2^32, which is within the bounds if and only if initial+buffer is below 2^32; a blocked request is remembered; the exact answer. |
| `ChannelReceive.ExactAdjustment` | libraries/libssh2-1.8.0/src/channel.c:1786-1788 | From within the bounds the 32-bit subtraction is exact and takes the window to its size plus the buffer, in 32 bits. |
| `ChannelReceive.BoundExactly` | libraries/libssh2-1.8.0/src/channel.c:1783-1788 | The size plus a buffer below 2^31, in 32 bits, is within the bounds exactly when it does not wrap. |
| `ChannelReceive.ReceiveHalf.DrainInto` | libraries/libssh2-1.8.0/src/channel.c:1810-1883 | The unlinking loop over the shared queue copies and leaves what the abstract read says, for any buffer. |
| `ChannelReceive.ReceiveHalf.Read` | libraries/libssh2-1.8.0/src/channel.c:1764-1903 | Which packets arrive, what the buffer gets, what stays queued and counted, and the window after it; other channels are untouched. The exact answer: unless widening the window blocks or fails or draining breaks, all that waits and fits, else the end of data if the peer ended or draining did not block, else would-block; an error exactly if widening fails or draining breaks. |
| `ChannelReceive.ReceiveHalf.IsEof` | libraries/libssh2-1.8.0/src/channel.c:2209-2231 | True exactly when the peer announced EOF and no packet of the channel is queued. |
| `ChannelReceive.NothingLeftAtEof` | libraries/libssh2-1.8.0/src/channel.c:2209-2231 | At end of file no stream of the channel has anything to read. |
| `ChannelReceive.ReceiveHalf.WindowRead` | libraries/libssh2-1.8.0/src/channel.c:2565-2594 | The recomputed sum of unread octets is the cached counter. |
| `ChannelReceive.ReceiveHalf.Flush` | libraries/libssh2-1.8.0/src/channel.c:1388-1439 | Drops exactly the packets of the stream, in place, and takes their octets off counter and window. |
| `ReceiveRuns.IsBalanced` | libraries/libssh2-1.8.0/src/channel.c:1564-1903 | What the invariant says in terms of wire, queue and requests: counter, ledger of requests, window law, bounds under reads only. |
| `ReceiveRuns.Run` | libraries/libssh2-1.8.0/src/channel.c:1388-1903 | Every run over any number of channels sharing queue and transport: the counter is the recomputed sum and requests balance. Every read that neither blocks nor breaks returns all that waits for it and fits; reads never fail to widen the window where the transport fails no send and blocked messages go out first. If a script keeps to fixed modes and does not flush a channel, what its reads returned and what still waits is what arrived, in order. A new channel with an initial window of at least 4096 that a script only reads, with buffers of at most b, keeps its window between initial/4*3 and initial+b until an adjustment wraps, which cannot happen while initial+b is below 2^32, and unless the transport fails its sends; when that cannot happen is said in terms of the script. |
| `ReceiveRuns.WidenClear` | libraries/libssh2-1.8.0/src/channel.c:1564-1625 | With no other sender's message in the way, widening the window fails or blocks only where the transport does. |
| `ReceiveRuns.WrappedWindow` | libraries/libssh2-1.8.0/src/channel.c:1783-1800 | A concrete run: a window of 3*2^30 and a first read of 2^30 octets take the window to zero, and what arrives next is dropped. |
| `ChannelTable.Session.NextId` | libraries/libssh2-1.8.0/src/channel.c:62-88 | Gives out the number of ids given out before, new among all lists, up to 2^32 of them; after that, in use exactly under the condition of NextIsTaken. |
| `ChannelTable.NextIsTaken` | libraries/libssh2-1.8.0/src/channel.c:62-88 | Across all lists, the id is in use already if and only if the session list holds an id at or above the counter or a listener queue holds the counter itself. |
| `ChannelTable.WrapReusesOpenId` | libraries/libssh2-1.8.0/src/channel.c:62-88 | A run of 2^32 opens, the last of which stays open: its id is given out again. |
| `ChannelTable.WrapReusesQueuedId` | libraries/libssh2-1.8.0/src/channel.c:62-88 | A run of 2^32 ids, after which the id of a connection that waits at a listener is given out again, though the session list is empty. |
| `ChannelTable.Session.Locate` | libraries/libssh2-1.8.0/src/channel.c:95-121 | Returns the one channel with the id, from the session list or any listener queue, and null exactly when there is none. |
| `ChannelTable.Session.Open` | libraries/libssh2-1.8.0/src/channel.c:129-330 | The channel is linked from the start; confirmation keeps it with the peer's numbers, refusal or failure restores the list and drops the channel's queued data. |
| `ChannelTable.Session.QueueConnection` | libraries/libssh2-1.8.0/src/packet.c:74-255 | Confirms and queues a connection at the matching listener or declines it with the right code, also when the answer goes out later; the id that the peer is told is in a list if and only if its confirmation went out in the call that took it. |
| `ChannelTable.BlockedConfirmation` | libraries/libssh2-1.8.0/src/packet.c:120-219 | A concrete run: the confirmation blocks, the next call sends it, and the peer is told an id that no list holds and no search finds. |
| `ChannelTable.Session.Confirming` | libraries/libssh2-1.8.0/src/packet.c:129-219 | Takes a new id and queues the channel exactly when the confirmation goes out at once. |
| `ChannelTable.Session.Accept` | libraries/libssh2-1.8.0/src/channel.c:722-743 | Moves the oldest queued channel to the session list and changes nothing else. |
| `ChannelTable.Session.Free` | libraries/libssh2-1.8.0/src/channel.c:2458-2520 | Unlinks exactly this channel and drops its queued data, unless its close blocks. |
| `ChannelTable.Session.ClearPackets` | libraries/libssh2-1.8.0/src/channel.c:2497-2506 | Removes exactly the data packets of the channel and keeps the others in order. |
| `ChannelTable.Session.Listen` | libraries/libssh2-1.8.0/src/channel.c:527-568 | Adds a listener with an empty queue. |
| `ChannelTable.Session.Cancel` | libraries/libssh2-1.8.0/src/channel.c:614-693 | Frees the queued channels oldest first, with their queued data, up to the first close that blocks, and then the listener; exactly how many are gone after a block; a failed request is reported after the clean-up, by the call that sent it. |
| `ChannelTable.LinkKeeps` | libraries/libssh2-1.8.0/src/channel.c:180-188 | Linking a channel with the latest id keeps all ids distinct and below the counter. |
| `ChannelTable.Run` | libraries/libssh2-1.8.0/src/channel.c:62-743 | Every run of open, failed open, queueing, accept, free, listen and cancel: ids pairwise distinct across all lists and below the counter, for up to 2^32 ids; listener queues keep to their limit; of the ids that the peer was told, those whose confirmation went out late, and only those, are ids that never get a linked channel. |

## Left out

- KnownHostLine.LineReread: legible entries have a plain name of 3 to 254 characters without blank, comma before its end, leading `#` or leading bar-1-bar, or a hashed name with a salt of 1 to 21 octets and a hash of 1 to 189; a key without blanks (RSA1 keys begin with a digit and may hold blanks); a type name that is one word; 20 characters of key text; no newline or zero octet.
- KnownHostLine.LineRoundTrip: for writable entries; KnownHostLine.LineRoundTripExactly says which legible entries these are.
- KnownHosts.KnownHosts.Add: the port field and the key-encoding bits of a stored type mask are not kept; nothing in the lookup reads them.
- KnownHosts.KnownHosts.ReadLine: lines are as `fgets` delivers them, without zero octets and with a newline at the end only.
- KnownHosts.KnownHosts.WriteLine: hashed names with an empty hash or salt are excluded, because the encoder then takes its input for a C string.
- KexAgreement.Agree: method tables have distinct, nonempty, comma-free names, and the search in the server's list stays within that list.
- Negotiation.ChoiceIsFirst: for supported names; Negotiation.ChoiceExactly is for any.
- KexInit.StringPair: what lies behind the packet in memory is a parameter; that reading there may end the program is not modelled.
- DiffieHellman.HashCovers: for fields shorter than 2^32 octets, which is what their length field holds.
- DiffieHellman.Exchange.TakeReply: the server's reply arrives as parsed fields; bignums, mpint encoding, hash and signature are uninterpreted functions.
- DiffieHellman.Exchange.TakeNewKeys: initialising ciphers, MACs and compression is one outcome.
- KeyExchange.KeyExchange.ExchangeKeys: where no packet is stored, the octets that the hash function reads in its place are a parameter; that reading them may end the program is not modelled.
- ChannelReceive.ReceiveHalf.Flush: the refund after a flush and re-entry of a blocked flush are not modelled.
- ChannelReceive.ReceiveHalf.Read: buffers are shorter than 2^31 octets, the sign bit of the C `int`; packets for other channels that arrive during a read are modelled before or after it.
- ChannelReceive.ReceiveHalf.ReceiveWindowAdjust: the ledger and window laws end with a hard send failure, which leaves the adjust state set.
- ChannelReceive.ReceiveHalf.Deliver: the IGNORE mode of extended data, which refunds what it drops, is not modelled.
- ChannelSend.Run: the CLOSE laws hold unless a send of EOF or CLOSE failed hard; after one, EOF may be missing before CLOSE.
- ChannelTable.Session.Listen: the request to the server and its reply are not modelled.
- Transport.Transport.Send: a blocked message is recognised by its content; the code compares address and length of the buffer.
- Group exchange requests, X11 opens, PTY, environment and subsystem requests: packet fills on the same idle, created and sent pattern.
- `libssh2_session_method_pref`: its in-place stripping of unsupported names is not a filter over arbitrary lists.
- Encryption, compression and framing of the transport, the socket, timeouts, allocation failure, debug output and error strings.
- File reading and writing around known_hosts lines, agent, PEM, SCP, SFTP, publickey and user authentication.
- The Python wrapper: socket set-up and conversion of values around these calls.

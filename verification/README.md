# Network tools: address arithmetic, address texts, the listq container and netlink messages

This project models four parts of the repository and proves what they are for.

- **Masks, blocks and mask readers** (`Numbers`, `Words`, `Masks`, `PrefixReaders`, `Hosts`, `Generate`).
  Bit and byte operations are defined bit by bit and tied to arithmetic modulo 2^32 and 2^128. An IPv4
  address is an `s_addr` word, and every statement holds on a big-endian and on a little-endian host.
- **Texts and zone names** (`Labels`, `Ipv6Text`, `ColonFields`, `PrefixScan`, `ReverseDns4`,
  `ReverseDns6`). The grammar of IPv6 texts (section 2.2 of RFC 4291) is a datatype with a printer;
  `getcolon` and the scan built on it are proved against the value that the text's one reading has, and
  for a text with an IPv4 part it is proved where they fail. Zone names (section 3.5 of RFC 1035,
  section 2.5 of RFC 3596) are parsed back.
- **The listq container** (`Listq`, `ListqMachine`, `ListqHistory`, `ListqRuns`). A tail queue of heap
  items with the links of the TAILQ macros, a ghost sequence and an invariant; a machine on plain
  sequences; what every call answers, over the calls made alone; and a session of real lists and items
  that gives these answers on every run of calls, on any number of lists.
- **Netlink messages** (`Netlink`, `LinkInfo`, `ReadEvent`, `MessageBuild`; section 2.3.2 of RFC 3549). A
  decoder that follows the nested lengths; the walking loops on a cursor and a signed remaining length;
  the receive loop of a link dump over any run of datagrams; the builders that lay messages out in a
  zeroed buffer; and build-then-walk theorems.

Loops of the sources are methods with invariants, on arrays where the source fills a buffer; each is
proved equal to a function whose own meaning is proved by lemmas.

What the proofs found in the code as written:

- The cursor of `listq_FindItem` never goes past the second item (libnettool/src/listq.c:176), so
  removing an item that stands behind the first two never returns. The model keeps this; the exact
  condition is `Listq.SearchEndsExactly`, a run of calls ends with `Hang` exactly there, and
  `ListqMachine.RemovingTheThirdHangs` is an input.
- `getcolon` counts an IPv4 tail out (test_cpp/src/Network.c:170), although the text still carries it. One
  of the eight calls copies the tail into a buffer of five characters, so `Net_inet_pton`, which passes
  every accepted text on, an IPv4 address alone too, has an answer exactly for the texts without a dot.
  `ColonFields.GetColon` says what each call gives, and `PrefixScan.TailHasNoAnswer` is an input.
- `link_info_receive` reads an ifinfomsg from every link message, however short it is
  (libnettool/src/ip_link.c:228-231). `LinkInfo.ReadPastExactly` says when that goes behind the received
  bytes, and `LinkInfo.ShortLinkCounterexample` is an input.
- The handlers of `read_event` do the same with their fixed parts (nettool/src/main_nettool.c:609-615 and
  706-732): `ReadEvent.ShortFixedPartExactly` and `ReadEvent.ShortAddressCounterexample`.
- `bit_count` accepts any single run of ones, and not only netmasks (test_cpp/src/ipcalc/ipcalc.c:230-240),
  although the comment above `mask2prefix` speaks of netmasks. `PrefixReaders.RunLengthVersusLeadingOnes`
  says when it agrees with the leading ones, and `PrefixReaders.RunInTheMiddle` is an input where not.
- `read_event` casts its remaining length to unsigned (nettool/src/main_nettool.c:445). When the padding of
  the last message is missing the length goes below zero and the next header is read behind the received
  bytes. `ReadEvent.RunsOverExactly` gives the condition and `ReadEvent.MissingPaddingCounterexample` an input.
- For a family that is neither IPv4 nor IPv6, `util_pton` answers -1 and the built messages hold an
  attribute that is shorter than its own header, which hides every attribute behind it.
- A generated network is classified as private from prefix 7 (IPv4) and prefix 6 (IPv6) on, and for no
  shorter prefix; the code does not check the prefix.

Readings of the source that the C standard leaves open: shifts are those of unsigned 32-bit words; the
strings `Str` and `StrOutput` of `Net_inet_pton`, which are never initialised (test_cpp/src/Network.c:97-98),
start empty; the bound `i < 16` of the IPv6 leading-ones loop is tested before the byte
(libnettool/src/ifacewatch.c:250); interface indexes are read as unsigned. The layout constants of the
kernel's netlink headers are definitions in `Netlink` and `MessageBuild`.

## Model

| member | source | states |
|---|---|---|
| Numbers.RoundDownValue | test_cpp/src/ipcalc/ipcalc.c:138-146 | the recursive RoundDown used in every block statement is the largest multiple of 2^k not above the value |
| Numbers.AndMask | test_cpp/src/ipcalc/ipcalc.c:144 | bitwise AND with a mask of p leading ones clears the low w - p bits, for any width |
| Numbers.BitsOfAndOr | test_cpp/src/ipcalc/ipcalc.c:125-144 | every bit of AND and OR is that of the operands' bits |
| Numbers.NumAndBytes | test_cpp/src/ipcalc/ipcalc.c:889-890 | AND byte by byte is AND of the big-endian values, for byte strings of any length |
| Numbers.NumOrBytes | test_cpp/src/ipcalc/ipcalc.c:909-910 | OR byte by byte is OR of the big-endian values |
| Numbers.NumNotBytes | test_cpp/src/ipcalc/ipcalc.c:910 | complementing every byte complements the value |
| Words.NtohlBitwise | test_cpp/src/ipcalc/ipcalc.c:125-144 | AND, OR and complement commute with the byte swap of the host |
| Masks.MaskValue | test_cpp/src/ipcalc/ipcalc.c:96-106 | the mask of prefix p, read in host order, is 2^32 - 2^(32-p), for p = 0 too |
| Masks.NetworkValue | test_cpp/src/ipcalc/ipcalc.c:138-146 | the network is the address rounded down to a multiple of the block size |
| Masks.BroadcastValue | test_cpp/src/ipcalc/ipcalc.c:119-127 | the broadcast is the network plus the block size minus one |
| Masks.HostOrderDoesNotMatter | test_cpp/src/ipcalc/ipcalc.c:96-146 | network and broadcast on byte-swapped words are the byte-swapped host-order results |
| Masks.NetworkOfNetwork | test_cpp/src/ipcalc/ipcalc.c:138-146 | masking with q and then p is masking with the shorter of the two |
| Masks.SameNetworkIffInRange | test_cpp/src/ipcalc/ipcalc.c:119-146 | two addresses have the same network exactly when one lies between the other's network and broadcast |
| Masks.BlocksNest | test_cpp/src/ipcalc/ipcalc.c:138-146 | any two blocks are disjoint or one contains the other |
| PrefixReaders.BitCount | test_cpp/src/ipcalc/ipcalc.c:225-243 | the loop computes RunLength of the word |
| PrefixReaders.RunLengthMeaning | test_cpp/src/ipcalc/ipcalc.c:225-243 | for every value and every c >= 0, the answer is c exactly when the value is c ones shifted by some amount; so it is -1 exactly when there is no such c |
| PrefixReaders.Mask2Prefix | test_cpp/src/ipcalc/ipcalc.c:254-257 | reads the word in host order and counts its run |
| PrefixReaders.Mask2PrefixOfPrefix2Mask | test_cpp/src/ipcalc/ipcalc.c:254-257 | mask2prefix(prefix2mask(p)) = p for 0..32 |
| PrefixReaders.CountLeadingOnes | libnettool/src/ifacewatch.c:238-241 | the bit-testing loop gives the number of leading ones, for any width |
| PrefixReaders.NetmaskToPrefix4 | libnettool/src/ifacewatch.c:238-241 | the IPv4 branch gives the leading ones of the host-order word |
| PrefixReaders.NetmaskToPrefix6 | libnettool/src/ifacewatch.c:248-260 | the byte loop followed by the bit loop gives the leading ones of the 128-bit value |
| PrefixReaders.LeadingOnesMeaning | libnettool/src/ifacewatch.c:238-260 | there are at least p leading ones exactly when the value is at least the mask of p |
| PrefixReaders.LastSetBitMeaning | test_cpp/src/Network.c:116-132 | the last set bit is at most p exactly when the value is a multiple of 2^(w-p): it is the least p such that clearing all bits after p changes nothing |
| PrefixReaders.ReadersOnMask | test_cpp/src/ipcalc/ipcalc.c:96-106 | on a mask of p all three readers answer p, for any width |
| PrefixReaders.LeadingOnesVersusLastSetBit | libnettool/src/ifacewatch.c:248-260 | leading ones and last set bit agree exactly on the masks |
| PrefixReaders.RunLengthVersusLeadingOnes | libnettool/src/ifacewatch.c:238-241 | run length and leading ones agree exactly on the masks |
| PrefixReaders.RunInTheMiddle | test_cpp/src/ipcalc/ipcalc.c:230-240 | 0x00ffff00 is an input where they disagree: 16 ones in a run, no leading one |
| Hosts.HostRange4 | test_cpp/src/ipcalc/ipcalc.c:641-714 | the first and last host lie between network and broadcast, leave out exactly these two up to prefix 30 and neither from 31 on, and the host count is last - first + 1 for prefixes 1..32, for given, default and class prefixes |
| Hosts.Ipv4InfoValues | test_cpp/src/ipcalc/ipcalc.c:598-662 | no answer above prefix 32; the prefix is the one given, or without one 32 or the class prefix; netmask, network and broadcast are 2^32 - 2^(32-p), h - h mod 2^(32-p) and that plus 2^(32-p) - 1 |
| Hosts.ClassByLeadingOnes | test_cpp/src/ipcalc/ipcalc.c:538-556 | the default prefix is one octet, and one more for each of the first two leading ones of the address |
| Hosts.Ipv6PrefixToMask | test_cpp/src/ipcalc/ipcalc.c:735-758 | the bytes read big-endian are 2^128 - 2^(128-p); no mask above 128 |
| Hosts.NetworkAndLast | test_cpp/src/ipcalc/ipcalc.c:889-910 | the two in-place passes give the bytewise AND and then the OR with the complement |
| Hosts.GetIpv6Info | test_cpp/src/ipcalc/ipcalc.c:869-924 | no answer above prefix 128, and 128 for a negative one; network and last address are a - a mod 2^(128-p) and that plus 2^(128-p) - 1; the host count is their distance plus one, or empty at prefix 0 where the table ends |
| Generate.GenerateIpv4 | test_cpp/src/ipcalc/ipcalc.c:983-1002 | the address lies in 10/8, or from prefix 16 on in 172.16/12 or 192.168/16 as the clock alone chooses, the bytes behind stay random, and any network of it is classified "Private Use" exactly from prefix 7 on |
| Generate.GeneratedIpv4IsPrivate | test_cpp/src/ipcalc/ipcalc.c:433-493 | for every address of that private space the masked network is "Private Use" exactly from prefix 7 on |
| Generate.GeneratedIpv4Network | test_cpp/src/ipcalc/ipcalc.c:983-1002 | the same for the word that calc_network makes of the copied bytes, in either host order |
| Generate.Generated6 | test_cpp/src/ipcalc/ipcalc.c:973-978 | the lowest clock bit chooses fc or fd as the first byte, and the other fifteen bytes are the random ones |
| Generate.GeneratedIpv6IsUniqueLocal | test_cpp/src/ipcalc/ipcalc.c:760-804 | for all random bytes and clocks the masked network is "Unique Local Unicast" exactly from prefix 6 on |
| Generate.UniqueLocalByFirstByte | test_cpp/src/ipcalc/ipcalc.c:760-818 | whatever the other bytes and the prefix, the classifier answers "Unique Local Unicast" exactly for a first byte of 0xfc or 0xfd |
| Labels.SplitJoin | test_cpp/src/ipcalc/ipcalc-reverse.c:63-83 | splitting at the dots gives back the labels that the format strings put together |
| Labels.ParseDecimalOfDecimal | test_cpp/src/ipcalc/ipcalc-reverse.c:63-83 | "%u" output parses back and is all digits; with the two rows below it is the usual numeral |
| Labels.DecimalTable | test_cpp/src/ipcalc/ipcalc-reverse.c:63-83 | the decimal digits are those of the table "0123456789" |
| Labels.NoLeadingZero | test_cpp/src/ipcalc/ipcalc-reverse.c:63-83 | "%u" prints "0" for zero and no leading zero otherwise |
| Labels.HexTables | test_cpp/src/ipcalc/ipcalc-reverse.c:91-98 | the printed digits are those of "0123456789abcdef" and "0123456789ABCDEF", and a read digit is its place in either |
| Labels.ValueByPlaces | test_cpp/src/Network.c:272 | strtol gives the sum of the digits' places times the powers of 16 |
| ReverseDns4.NameParses | test_cpp/src/ipcalc/ipcalc-reverse.c:36-89 | prefixes below 8 have no name; any other name parses to the octet ranges of the block |
| ReverseDns4.LabelsOfName | test_cpp/src/ipcalc/ipcalc-reverse.c:63-83 | the name label by label: the numeral or the range of the last octet reached, the numerals of the octets before it in reverse, then in-addr, arpa and the root |
| ReverseDns4.NameOfTen | test_cpp/src/ipcalc/ipcalc-reverse.c:69-70 | 10.1.2.3/8 is named "10.in-addr.arpa." |
| ReverseDns4.NameOfRange | test_cpp/src/ipcalc/ipcalc-reverse.c:71-74 | 192.0.2.77/25 is named "0-127.2.0.192.in-addr.arpa." |
| ReverseDns4.NameRoundTrip | test_cpp/src/ipcalc/ipcalc-reverse.c:63-83 | the name of a network and a prefix 8..32 decodes back to both |
| ReverseDns4.NamesInjective | test_cpp/src/ipcalc/ipcalc-reverse.c:63-83 | two names are equal exactly when the prefixes and the networks are |
| ReverseDns4.NameCoversBlock | test_cpp/src/ipcalc/ipcalc.c:652-664 | an address is in the block exactly when its octets match the fixed labels and lie in the range label |
| ReverseDns6.CalcReverseDns6 | test_cpp/src/ipcalc/ipcalc-reverse.c:100-126 | the filled buffer holds the first prefix/4 nibbles, last first, and the suffix; 2*(prefix/4) + 9 characters, inside the 256; nothing off a nibble boundary |
| ReverseDns6.LabelsOfName | test_cpp/src/ipcalc/ipcalc-reverse.c:100-126 | the labels of the name read right to left are the root, arpa, ip6 and the nibbles of the address in order |
| ReverseDns6.NibblesOfNetwork | test_cpp/src/ipcalc/ipcalc.c:889-904 | the first n nibbles are exactly the network bits of prefix 4n |
| ReverseDns6.NamesInjective | test_cpp/src/ipcalc/ipcalc-reverse.c:100-126 | two names are equal exactly when the prefixes and the networks are |
| Ipv6Text.RenderInjective | test_cpp/src/Network.c:153-276 | a dot-free IPv6 text has only one reading |
| Ipv6Text.GroupByPlaces | test_cpp/src/Network.c:270-274 | every group of a text's reading is zero, where a "::" stands for it, or the sum of its digits' places times the powers of 16 |
| ColonFields.SkipColons | test_cpp/src/Network.c:203-209 | walking over pos colons stops at the start of field pos, also where a field is empty, and runs off the text exactly when there is no such field |
| ColonFields.CopyGroup | test_cpp/src/Network.c:211-217 | copies exactly one field; it fits the buffer with its terminator exactly when it has at most four characters |
| ColonFields.ElidedGroup | test_cpp/src/Network.c:180-268 | with "::" at the start, in the middle or at the end, the buffer holds the field of the left side, a zero of the gap, or the field of the right side; it fails exactly when there is none or it does not fit |
| ColonFields.GetColon | test_cpp/src/Network.c:153-276 | on every text that inet_pton accepts for IPv6 or IPv4, and every pos in 0..7: without an IPv4 part the result is group pos of the text's reading; with one a value comes out exactly before the position of the IPv4 part, and behind a "::" it is the group after the one asked for |
| ColonFields.KindOfText | test_cpp/src/Network.c:145-152 | the test for a dot tells exactly which of the two kinds an accepted text is |
| ColonFields.PickedTail | test_cpp/src/Network.c:167-170 | with max = 5 the tail itself is picked behind the groups of a full text, or at position 5 with a "::", and it does not fit; what is picked before it, by value |
| ColonFields.TextsWithTail | test_cpp/src/Network.c:167-170 | "1.2.3.4" and "::1.2.3.4" are such texts, with the IPv4 part at positions 0 and 5 |
| ColonFields.FirstGroupOfFffe | test_cpp/src/Network.c:270-274 | getcolon("FFFE::", 0) is 0xfffe |
| ColonFields.GroupFourWithTail | test_cpp/src/Network.c:243-265 | getcolon("1::2:1.2.3.4", 4) is 2, which the text has as group 5 |
| PrefixScan.JoinFields | test_cpp/src/Network.c:105-113 | the eight calls all come back exactly when the accepted text has no dot; then they give the full text and the 32 hex digits of the groups |
| PrefixScan.ScanNibbles | test_cpp/src/Network.c:116-132 | the nested loops give the last set bit of the number the digits stand for, for any number of digits |
| PrefixScan.NetInetPton | test_cpp/src/Network.c:105-132 | on every text that inet_pton accepts: an answer exactly when the text has no dot; then it is a text of the same address, in eight times four upper-case digits, and the least prefix whose mask leaves the address unchanged |
| PrefixScan.TailHasNoAnswer | test_cpp/src/Network.c:105-113 | the accepted text "::1.2.3.4" has no answer |
| PrefixScan.PrefixOfFffe | test_cpp/src/Network.c:116-132 | "FFFE::" needs 15 bits |
| PrefixScan.ExpandIpv6 | test_cpp/src/ipcalc/ipcalc.c:821-839 | the printed text is eight times four lower-case digits, and reads back as the address |
| PrefixScan.PrefixThroughText | test_cpp/src/ipcalc/ipcalc.c:745-751 | making the mask of p, printing it in full and scanning the text gives p, for 0..128 |
| Listq.Container.constructor | libnettool/src/listq.c:18-25 | a new container is a valid empty queue |
| Listq.Container.InsertTail | libnettool/src/listq.c:127-133 | relinking keeps the whole queue invariant and appends the item |
| Listq.Container.Relink | libnettool/src/listq.c:210-212 | TAILQ_REMOVE at any position makes the links around the item pass it by, and changes no other |
| Listq.Container.TakeOut | libnettool/src/listq.c:214-216 | zeroing the bypassed item and counting down gives back a valid queue without it |
| Listq.Container.Unlink | libnettool/src/listq.c:208-217 | a removal at any position keeps the invariant, deletes exactly that item with order kept, and zeroes it |
| Listq.Walk | test_cpp/src/queue.c:59-70 | walking with head and next visits the data of the items in order |
| Listq.ListqSize | libnettool/src/listq.c:81-96 | the cached size is the length; -1 for no list |
| Listq.ListqAddTail | libnettool/src/listq.c:111-137 | no list or no data changes nothing; otherwise a fresh item of this owner is appended |
| Listq.SearchEndsExactly | libnettool/src/listq.c:174-183 | the search loop reaches null or the item exactly when the list has fewer than two items or the item is first or second |
| Listq.SearchEndsForFirstTwo | libnettool/src/listq.c:174-183 | the search for the item at position k ends exactly for k < 2 |
| Listq.ListqFindItem | libnettool/src/listq.c:158-187 | -1 for a rejected handle; otherwise, when the search ends, membership |
| Listq.ListqRemoveItem | libnettool/src/listq.c:191-225 | a rejected handle changes nothing; a found item is deleted and zeroed, the others keep order, data and owner |
| Listq.RemoveAll | libnettool/src/listq.c:62-67 | the loop ends on a list of any length, removes head first, and the size is 0 before the reset |
| Listq.ListqClean | libnettool/src/listq.c:54-77 | the list is empty and all former items are zeroed |
| Listq.ListqDestroy | libnettool/src/listq.c:29-50 | all former items are zeroed; -1 for no list |
| Listq.StillValid | libnettool/src/listq_local.h:15-30 | a list whose container and items were not touched stays valid |
| Listq.ListsDisjoint | libnettool/src/listq_local.h:24-30 | two valid lists share no item |
| ListqMachine.RunsKeepOrder | libnettool/src/listq.c:18-225 | after any run of calls on any number of lists, every list is in insertion order and no item is in two lists or twice in one |
| ListqMachine.ListsHoldWhatWasKept | libnettool/src/listq.c:111-225 | after any run whose calls return, an item is in a list exactly when some call added it there and no later call removed it or cleaned that list |
| ListqMachine.StepKeepsOrder | libnettool/src/listq.c:18-225 | every single call keeps the order and the single ownership |
| ListqMachine.RemovalDeletes | libnettool/src/listq.c:191-225 | a removal that answers 1 takes out that item and no other |
| ListqMachine.StaleForEver | test_cpp/src/queue.c:71-75 | a removed handle answers -1 and changes nothing after any further calls, on any list |
| ListqMachine.RemovingTheThirdHangs | libnettool/src/listq.c:174-183 | the run of creating a list, adding three items and removing the third ends in Hang |
| ListqHistory.ListIsKeptIds | libnettool/src/listq.c:111-225 | after calls that returned, a list is the items that were added to it and stay, in the order of the calls |
| ListqHistory.RepliesByHistory | libnettool/src/listq.c:18-252 | every reply of every run, over the calls alone: how many lists were created and items added before, which item is kept, the data kept in the order of the calls for a visit, and their number for a size; the run stops at the first removal of an item kept behind two others |
| ListqHistory.VisitSeesTheData | test_cpp/src/queue.c:59-70 | creating, adding 7 and walking sees 7 |
| ListqRuns.Session.AddTo | libnettool/src/listq.c:111-137 | adding to one list leaves every other heap list valid and holding what it held |
| ListqRuns.Session.RemoveFrom | libnettool/src/listq.c:191-225 | removing from one list leaves every other heap list valid and holding what it held, and every other handle with its owner |
| ListqRuns.Session.CleanList | libnettool/src/listq.c:54-77 | cleaning one list leaves every other heap list valid and holding what it held |
| ListqRuns.Session.HangIsNoEnd | libnettool/src/listq.c:174-183 | the machine answers Hang exactly when the call gets past the owner check of the real item and the search loop on the real list has no end |
| ListqRuns.Session.RejectedIffNotListed | libnettool/src/listq.c:198-206 | in every state of a session an owner match means membership |
| ListqRuns.Session.WouldHang | libnettool/src/listq.c:174-183 | the guard a caller can evaluate before a call is true exactly when the search loop on the real list has no end |
| ListqRuns.Session.Call | libnettool/src/listq.c:18-252 | any call on the heap containers answers what the machine answers and keeps the invariant of all lists; the answer is Hang exactly when the search on the real list has no end |
| ListqRuns.Run | libnettool/src/listq.c:18-252 | on every run of calls the heap containers give exactly the replies of the machine, which are the answers that follow from the calls made; -2 is never among them, and a run that ends in Hang has come to a call whose search on the real list has no end |
| Netlink.WalkAttrs | libnettool/src/ip_link.c:148-172 | for any bytes and any signed length the attribute walk ends, reads inside the length, and yields the recursive decoding |
| Netlink.EncodeRoundTrip | nettool/src/main_nettool.c:609-656 | walking any encoded attributes gives them back |
| Netlink.MessagesRoundTrip | nettool/src/main_nettool.c:444-446 | decoding any messages laid one after the other, each with its padding, gives them back |
| Netlink.ArrivalsAreDecoded | nettool/src/main_nettool.c:444-446 | the messages that the loops come to are the decoded ones, each followed in the received bytes by at least its payload |
| LinkInfo.ScanDatagram | libnettool/src/ip_link.c:216-250 | for any bytes and any received length, negative too, the inner loop ends, a DONE does not stop it, and it gives the first message that means something and every message before it with its decoded attributes; a link message shorter than an ifinfomsg is read on into the received bytes behind it, as the code does |
| LinkInfo.FirstThatMeans | libnettool/src/ip_link.c:220-249 | the search result and the messages passed on the way, by position: all before the first that is wanted or read behind the received bytes |
| LinkInfo.PrintLink | libnettool/src/ip_link.c:142-172 | the printed attributes are those behind the ifinfomsg of the message's payload |
| LinkInfo.LinkInfoReceive | libnettool/src/ip_link.c:198-260 | on any run of receives: the first wanted link in the messages up to and including the first datagram with a DONE, not found when there is none, a read behind the received bytes when that comes first, waiting when the run gives none of these; and every message passed on the way, with its attributes; a failed receive is an empty datagram |
| LinkInfo.EndsExactly | libnettool/src/ip_link.c:198-253 | the loop ends exactly when some datagram holds a DONE, the wanted link, or a link message read behind the received bytes |
| LinkInfo.PromiseKeepsInside | libnettool/src/ip_link.c:228-231 | when the link messages of a datagram hold an ifinfomsg, as the kernel promises, what is looked at is their payload and nothing is read behind it |
| LinkInfo.PromisedRunStaysInside | libnettool/src/ip_link.c:198-253 | a run that keeps that promise never reads behind the received bytes |
| LinkInfo.ReadPastExactly | libnettool/src/ip_link.c:228-231 | for any run, something is read behind the received bytes exactly when a link message with too few bytes received behind its header comes before any that is wanted |
| LinkInfo.ShortLinkCounterexample | libnettool/src/ip_link.c:228-231 | a 16-byte datagram that is only a link header is such a run |
| LinkInfo.LookByBytes | libnettool/src/ip_link.c:226-234 | a link message is wanted, or read behind the received bytes, by the number of bytes behind its header and the four at offset 4 |
| LinkInfo.PrintedTypes | libnettool/src/ip_link.c:220-243 | attributes are walked for printing in messages of types 16 and 18 and in no others |
| LinkInfo.OutcomeOfSent | libnettool/src/ip_link.c:198-260 | for any datagrams of any messages that fit the 4096 bytes and keep the kernel's promise: the first 16 payload bytes of the first message of type 16 whose bytes 4..8 load to the index and that no earlier datagram with a message of type 3 hides; without one, not found when some message has type 3, and waiting otherwise |
| ReadEvent.ReadDatagram | nettool/src/main_nettool.c:444-537 | on any datagram the messages in order up to the first that ends the call, each with the fixed part that its handler reads and its decoded attributes: a DONE ends it with 0, an error message with -1; something is read behind the received bytes exactly when a fixed part was not received whole or a message stepped over lacks its padding |
| ReadEvent.FirstThatEnds | nettool/src/main_nettool.c:444-537 | the events and the ending, by position: those of the messages before the first that ends the call, and that one decides |
| ReadEvent.EndingByBytes | nettool/src/main_nettool.c:451-476 | type 3 ends the call with 0, type 2 with -1, and types 20 and 16 read behind the received bytes when fewer than 8 or 16 follow the header |
| ReadEvent.ReadSent | nettool/src/main_nettool.c:444-537 | for any messages that hold their fixed parts: the events of those before the first of type 2 or 3, by their payload bytes, and -1 exactly when that one has type 2 |
| ReadEvent.ReadBareMessages | nettool/src/main_nettool.c:451-460 | the sixteen bytes of a bare DONE give 0, those of a bare error message -1 |
| ReadEvent.ShortFixedPartExactly | nettool/src/main_nettool.c:461-476 | a handler reads behind the received bytes exactly when an address or link message with fewer than 8 or 16 bytes received behind its header comes before any other that ends the call |
| ReadEvent.ShortAddressCounterexample | nettool/src/main_nettool.c:609-615 | a 16-byte datagram that is only an address header has all its padding and is such a datagram |
| ReadEvent.ReadEventCall | nettool/src/main_nettool.c:383-538 | the same for the whole call, with the two kinds of failed receive |
| ReadEvent.CheckMessage | nettool/src/main_nettool.c:609-656 | the handler of one message reads the fixed part, when it was received whole, and the attribute loop sees the attributes of its payload |
| ReadEvent.CastShrinksExactlyWhenPadded | nettool/src/main_nettool.c:445-446 | one step shrinks the cast length exactly when the message's padding was received |
| ReadEvent.RunsOverExactly | nettool/src/main_nettool.c:444-446 | for any bytes, the remaining length of the loop goes below zero exactly when a message it steps over lacks its padding |
| ReadEvent.WholeWordsArePadded | nettool/src/main_nettool.c:444-446 | a datagram of whole words never makes the loop overrun |
| ReadEvent.MissingPaddingCounterexample | nettool/src/main_nettool.c:445-446 | a datagram of one 17-byte message is an input where it does |
| MessageBuild.Put | libnettool/src/ip_add.c:33-68 | a write into the buffer changes exactly its own bytes |
| MessageBuild.Start | libnettool/src/ip_add.c:33-51 | zeroing, header and fixed part |
| MessageBuild.Append | libnettool/src/ip_add.c:53-59 | type, data and length of an attribute behind the others, and the new message length; the bytes laid before stay |
| MessageBuild.AddIp | libnettool/src/ip_add.c:25-77 | the bytes given to sendmsg, for every family and every result of inet_pton, at most BUFLEN |
| MessageBuild.AddGateway | libnettool/src/gateway_add.c:21-64 | the bytes given to sendmsg, for every family and every result of inet_pton, at most BUFLEN |
| MessageBuild.LinkUp | libnettool/src/ip_link.c:304-391 | the 40 bytes given to sendmsg |
| MessageBuild.LengthsOfAddresses | libnettool/src/util.c:49-62 | 4 bytes for family 2, 16 for family 10, -1 for any other; zeros when the text was refused |
| MessageBuild.AddIpExample | libnettool/src/ip_add.c:33-68 | the 40 bytes for 10.0.0.1 on a little-endian host |
| MessageBuild.AddGatewayExample | libnettool/src/gateway_add.c:26-55 | the 44 bytes for 10.0.0.1 on a little-endian host |
| MessageBuild.LinkUpExample | libnettool/src/ip_link.c:318-381 | the 40 bytes for interface 3, up and down, on a little-endian host |
| MessageBuild.BuildThenWalk | libnettool/src/ip_add.c:36-68 | a header with the total length, any fixed part and any encoded attributes decode to one message with nothing behind it and exactly these attributes |
| MessageBuild.AddIpReadsBack | nettool/src/main_nettool.c:594-656 | for every IPv4 and IPv6 address, read_event on add_ip's message sees its ifaddrmsg and exactly IFA_LOCAL = ip, then IFA_ADDRESS = ip |
| MessageBuild.AddIpFields | nettool/src/main_nettool.c:609-615 | family, prefix length, flags, scope and interface of add_ip's message, as RTM_NEWADDR_Check reads them |
| MessageBuild.AddGatewayReadsBack | libnettool/src/gateway_add.c:28-55 | for every IPv4 and IPv6 gateway, the message walks as exactly RTA_GATEWAY = ip, then RTA_OIF = 2 |
| MessageBuild.AddGatewayFields | libnettool/src/gateway_add.c:36-42 | the eight one-byte fields and the flags of the rtmsg |
| MessageBuild.LinkUpFields | libnettool/src/ip_link.c:328-330 | family and type, index, flags and change mask of the ifinfomsg |
| MessageBuild.LinkUpReadsBack | libnettool/src/ip_link.c:304-391 | the message of link_up decodes to one message of type 16 with flags 5; it is found by the search of link_info_receive under its own index and no other, and read_event sees its ifinfomsg and its one attribute |
| MessageBuild.UnknownFamilyHasNoAddress | libnettool/src/util.c:49-62 | for any other family the walk of add_ip's message sees no attribute |
| MessageBuild.UnknownFamilyHasNoRoute | libnettool/src/util.c:49-62 | for any other family the walk of add_gateway's message sees no attribute, not even the interface |

## Left out

- Listq.ListqFindItem: called only where the search ends; a call that does not return has no result to state. The condition is exact, and ListqRuns.Session.Call covers the other calls.
- Listq.ListqRemoveItem: as above.
- Listq.ListqDestroy: the container stays an object after it is given back; a use after free is not modelled. In the same way a removed item stays as the zeroed object that the memset leaves.
- Where a loop or a fixed part would be read behind the received bytes or behind a text, or a copy would leave its buffer, the model stops and says so; what the memory there holds, such as bytes left from an earlier datagram, is not modelled.
- ReadEvent.CheckMessage: how the data of an attribute is printed, and what `inet_ntop` and `strncpy` read for it when the attribute is shorter than they expect, is not modelled; the other message types have handlers without a walk.
- LinkInfo.PrintLink: likewise for the printed interface name.
- ReadEvent.ReadEventCall: the header fields printed before the loop (nettool/src/main_nettool.c:428-437), whatever was received, are not modelled.
- `m_Size` is a C int; its overflow needs more items than fit in memory.
- Hosts.HostRange4: the host count of prefix 0 is None, because the shift by 32 (test_cpp/src/ipcalc/ipcalc.c:712) has no defined value in C.
- `inet_pton`, `inet_ntop` and `sscanf` are library calls: parsed addresses are arbitrary bytes of the right length, or zeros when the text was refused; the texts accepted are those of section 2.2 of RFC 4291. `strtol` is defined on hexadecimal digits.
- Sockets, `recvmsg`, `sendmsg`, the clock and `/dev/urandom`: what they deliver is a parameter.
- `listq_concat` and `listq_insert_after`, which are stubs.
- Generate.UniqueLocalByFirstByte: the other rows of the two classifiers are in the model, because they come before the private ones, but what they answer is not stated.
- GeoIP lookup, option parsing, printing, host names, the address classes, and the rest of the tables of special ranges.
- The route and interface walk of the rest of `ifacewatch`, and the notification thread.
- The timespec helpers, timers, signals, FIFO and GPIO programs.

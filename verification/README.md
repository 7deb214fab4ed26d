# A verified model of the DNS forwarder

The repository is a DNS forwarder: it takes queries over UDP, plainly or in an obfuscated framing, answers
them from drop and redirect rules, from a cache or from an upstream, and rewrites packets on the way. A
worker in JavaScript does part of the same on the far side of a relay. This project models the parts of it
in which one piece of code relies on another, and proves what they rely on:

- **Wire format** (`Bytes`, `Wire`, `Message`, `Names`, `Answers`, `Edns`, `Ecs`, `Crafted`, `CraftedLaws`, `Worker`,
  `WorkerLaws`, with `Strings` and `Utf8` for text). A DNS
  message is a value of `Message.Message`, with an encoder in the sense of section 4.1 of RFC 1035. A packet
  is well formed exactly when it encodes some message. Every walker of the source is proved to compute the
  right part of the message, and every rewriter to commute with encoding.
- **Rules** (`Trie`, `RuleLists`). The label trie is a class of linked nodes. Its answers are those of the flat rule
  list, and of the entries as they are written.
- **Cache, pipeline, reload** (`Cache`, `CacheLaws`, `Pipeline`, `PipelineLaws`). The expiring LRU agrees with a
  plain log of upstream replies in every interleaving of queries, stores, evictions, clock steps and reloads.
- **History file** (`History`, `HistoryFlush`, `HistoryProtocol`, `HistoryLaws`, `HistoryClose`, `HistoryLoss`).
  Bounded queue, compare-and-swap flag and the step that reads, merges, trims and writes the file, as a fold over
  a file and as a concurrent protocol: what holds in every run, what `close` adds when nothing starts while it
  works, and what is lost otherwise.
- **Admission** (`Admission`). Two receive loops, a permit pool, a bounded backlog and the worker draining it.
- **Obfuscated framing** (`Obfs`), over any authenticated cipher that keeps three laws.

Code that loops and assigns is modelled by methods and classes. Each is proved equal to a function of its inputs
or of the state before it, and the lemmas are about those functions; those in the modules named `..Laws` and in
`RuleLists` say in terms of the packets, texts and seconds themselves what these functions give. The concurrent
parts are state machines whose steps are the atomic operations of the source; their theorems hold in every run.
Where the source hits a machine limit the limit is in the model: casts to `u16` keep sixteen bits, ARCOUNT is
raised modulo 65536 (Cargo.toml:14 turns overflow checks off in release builds), the depth of the call stack is a
parameter of everything that calls `parse_domain`, and a panic ends the run (Cargo.toml:12 makes it an abort).

## What the proofs found

- **`parse_domain` may never return.** It follows a pointer without a bound, so a packet whose first name is a
  pointer to itself uses up any stack (`Names.SelfPointerNeverReturns`). It returns exactly when the chain of
  pointers meets no name start twice (`Names.ReturnsIffEnds`); with prior occurrences only, as section 4.1.4 of
  RFC 1035 wants, it always does.
- **A name that ends in a pointer loses a dot.** Its labels and the name pointed to are put together without one, and
  a tail that cannot be read is left out (`Names.CompressedName`); such a name meets other rules and another cache
  key than the same name written out.
- **So one reply of eighteen bytes ends the forwarder.** Storing a reply reads its least TTL, which reads its
  names. `min_answer_ttl` returns exactly when every name that its walk visits ends
  (`Answers.TtlReturnsIffNamesEnd`); for a reply whose question name points to itself neither it nor the call
  that asked the upstream ever returns (`Answers.LoopingReplyNeverReturns`, `Pipeline.LoopingReplyIsFatal`).
- **A second client subnet replaces the first on every well-formed packet shorter than 65536 bytes**
  (`Ecs.LastWriterWinsOnDatagrams`). For well-formed packets of any length this holds exactly when the new
  RDLENGTH, or the raised ARCOUNT, fits sixteen bits (`Ecs.LastWriterWins`); the wrap is out of reach of the
  receive buffers. Where an OPT record is found, RDLENGTH decides for ill-formed packets too
  (`Ecs.LastWriterWinsWhereFound`). Where none is found in an ill-formed packet the law may fail although
  everything fits: a query that announces one answer and has none gets a second OPT record
  (`Ecs.RejectedPacketGrows`).
- **The worker hangs where the forwarder gives up.** An index beyond the packet gives `undefined`, and the loop
  of `skipName` then never ends (`Worker.SameName`).
- **Address lists of 65536 or more are cut.** Redirect answers and rewritten answers are read back whole exactly
  when the list fits ANCOUNT (`Crafted.RedirectAddresses`, `Worker.WriterAndReader`).
- **A flush may panic**, on a file that lists a domain twice, exactly when one copy is cut off and the other is
  kept (`HistoryFlush.FlushPanics`). The code may write such a file itself: a label may hold a space, so two
  names are read back as one (`HistoryFlush.SpacedNamesPanic`). From a file with distinct domains and addresses,
  with names that are not empty and have no white space, no number of flushes in any interleaving panics
  (`HistoryProtocol.NoFlushPanics`).
- **Flush boundaries show exactly when a domain that the first flush cut off is among the lines kept by the
  second** (`History.FlushTwiceExactly`, `HistoryFlush.FileFlushTwiceExactly`, `History.BoundaryCanShow`).
- **`close` may lose entries.** It waits for the flag but does not raise it, so another flush may read or write
  the file while it works. No update is lost in a run in which no flush writes between another's reading and
  writing (`HistoryProtocol.NoLostUpdate`), which holds when no pusher starts while a `close` is past the flag and
  not done, and none runs and no other `close` works when one gets past the flag
  (`HistoryClose.QuietIsExclusive`). The guard is needed: from every state that a run from such a file reaches and
  that has a `close` at work, 102 new pushers alone, or one more `close` and two pushers, may go on so that an
  accepted entry is missing from the file (`HistoryLoss.LateStartsCanLose`); a single `close` is enough
  (`HistoryLoss.SingleCloseCanLose`).
- **A reload does not purge subdomains of an entry without a star**, although the trie drops them; the rules are
  asked first, so what stays in the cache is never served (`Trie.MatchesIsSuffix`,
  `Pipeline.NoServiceAgainstRules`). An older query may even store such an entry after the purge
  (`Pipeline.OnlyOlderQueriesStore`).

## Model

| member | source | states |
|---|---|---|
| `Wire.SkipName` | shared/src/dns.rs:157-175 | the loop ends where the name at `offset` ends, at its zero byte or its first pointer, and gives up where no such end is in the packet |
| `Wire.AfterNameGrows` | shared/src/dns.rs:157-175 | the end lies behind the start and at most one byte beyond the packet (a pointer whose second byte is missing is accepted) |
| `Wire.AfterNameLocal` | shared/src/dns.rs:157-175 | a name end found in a prefix of a packet is the one found in the packet |
| `Wire.SkipQuestions` | shared/src/dns.rs:305-308 | the question loop ends behind `count` names with four bytes each |
| `Wire.AfterRecordsSplit` | shared/src/dns.rs:311-313 | walking m + n records is walking m and then n: answer and authority sections can be walked in one loop |
| `Wire.SkipRecords` | shared/src/dns.rs:311-313 | the record loop ends behind `count` whole records, or gives up |
| `Message.NameWalk` | shared/src/dns.rs:157-175 | wherever an encoded name stands, `skip_name` ends right behind it |
| `Message.NameDecode` | shared/src/dns.rs:157-175 | conversely, wherever `skip_name` ends inside the packet, the bytes it passed encode a name |
| `Message.QuestionsWalk` | shared/src/dns.rs:305-308 | the question loop passes exactly the encoded questions |
| `Message.RecordParts` | shared/src/dns.rs:350-361 | at an encoded record the walkers read its type, class, TTL, length and data, and `skip_rr` ends right behind it |
| `Message.RecordsWalk` | shared/src/dns.rs:311-313 | the record loop passes exactly the encoded records |
| `Message.RecordDecode` | shared/src/dns.rs:350-361 | conversely, what `skip_rr` passes encodes a record |
| `Message.WellFormedIsEncoded` | shared/src/dns.rs:298-344 | a packet whose four counts lead a walk exactly to its end is the encoding of some message, and the other way round |
| `Names.ParseDomain` | shared/src/dns.rs:6-41 | the loop with its recursive calls computes `Parse`: text and end offset, nothing, or an exhausted stack |
| `Names.ParsedEnd` | shared/src/dns.rs:6-41 | the end offset does not depend on where the pointers lead, nor on the stack |
| `Names.LocalEndIsSkip` | shared/src/dns.rs:6-41 | `parse_domain` finds an end exactly where `skip_name` does, inside the packet and with labels that are UTF-8 |
| `Names.WalkersAgree` | shared/src/dns.rs:157-175 | whenever `parse_domain` returns, it and `skip_name` give the same end, if and only if the name lies in the packet and is text |
| `Names.ReturnsIffEnds` | shared/src/dns.rs:13-23 | `parse_domain` returns, on a large enough stack, if and only if its pointer chain meets no name start twice |
| `Names.SelfPointerNeverReturns` | shared/src/dns.rs:13-23 | reading the first name of a packet, at offset 12, exhausts every stack when it is a pointer to itself, whatever header it has and whatever follows |
| `Names.BackwardReturns` | shared/src/dns.rs:13-23 | with strictly backward pointers it returns, within as many nested calls as the offset of the name |
| `Names.DeeperIsSame` | shared/src/dns.rs:6-41 | a larger stack never changes an answer |
| `Names.UncompressedName` | shared/src/dns.rs:24-40 | a name without pointers is read as its labels in lower case joined by dots, ending right behind it |
| `Names.CompressedName` | shared/src/dns.rs:13-23 | a name that ends with a pointer is read as its labels followed by what is read at the place the low fourteen bits of the pointer tell, without a dot between; it ends right behind the pointer, and a tail that cannot be read is left out |
| `Strings.LowerLetters` | shared/src/dns.rs:37 | folding turns A to Z into a to z, letter by letter, and nothing else |
| `Utf8.ValidIsEncoded` | shared/src/dns.rs:36 | bytes are accepted as a label if and only if they are the UTF-8 encoding of some sequence of Unicode scalar values |
| `Answers.ParseARecords` | shared/src/dns.rs:178-220 | the loops compute `ARecords`, reading only inside the packet, for every byte string |
| `Answers.ARecordsOfMessage` | shared/src/dns.rs:178-220 | of an encoded message it reads exactly the answers of type A with four octets, in order |
| `Answers.ARecordsOfPrefix` | shared/src/dns.rs:178-220 | the result on a prefix of a packet is a prefix of the result on the packet |
| `Answers.MinAnswerTtl` | shared/src/dns.rs:231-271 | the loop with its calls of `parse_domain` computes `TtlOn`: a TTL, nothing, or an exhausted stack |
| `Answers.TtlReturnsIffNamesEnd` | shared/src/dns.rs:231-271 | it returns, on some stack, if and only if the pointer chain of every name its walk visits comes to an end; a stack as deep as the packet is long is then enough, and what it returns is `LeastTtl` on every stack |
| `Answers.LoopingReplyNeverReturns` | shared/src/dns.rs:240 | a reply of 18 bytes whose question name points to itself exhausts every stack |
| `Answers.LeastTtlIsLeast` | shared/src/dns.rs:231-271 | an answer is the least positive TTL among exactly the ANCOUNT records that the `skip_rr` walk visits |
| `Answers.LeastTtlOfMessage` | shared/src/dns.rs:231-271 | for a one-question message with text names there is no answer if and only if no answer TTL lies strictly between 0 and the largest u32; otherwise it is the least positive one |
| `Bytes.U32Bytes` | shared/src/dns.rs:250-255 | a TTL is the number of its four bytes, the first being the highest |
| `Edns.ParseOptions` | shared/src/dns.rs:371-387 | the loop computes `Options` of the blob, stopping at the first option that does not fit |
| `Edns.OptionsRoundTrip` | shared/src/dns.rs:371-433 | parsing undoes printing if and only if every option's data is shorter than 65536 bytes |
| `Edns.OptionLayout` | shared/src/dns.rs:427-429 | an option is printed as two bytes for its code, two for its length, highest first, and its data |
| `Edns.ParsedPrefix` | shared/src/dns.rs:371-387 | what is parsed, printed again, is a beginning of the blob, and what is left over does not hold another whole option |
| `Edns.KeptAreOthers` | shared/src/dns.rs:423 | `retain` leaves exactly the options whose code is not 8, in their order |
| `Edns.FindOptRecord` | shared/src/dns.rs:294-347 | the loops compute `FindOpt`: the first OPT record of the additional section with its place and fields |
| `Edns.OptInSkips` | shared/src/dns.rs:316-344 | records of other types are passed over |
| `Ecs.PrintKept` | shared/src/dns.rs:421-430 | `retain` and the loop print the options that are no client subnets, in order |
| `Ecs.RebuildWithNewOpt` | shared/src/dns.rs:461-489 | the packet is rebuilt around the new OPT record; ARCOUNT is raised exactly when the record is new |
| `Ecs.SetEcsOption` | shared/src/dns.rs:393-458 | the method is `SetEcs`, for IPv4, loopback with and without a stand-in, and IPv6 clients; which bytes it announces is `Ecs.ClientIsAnnounced` |
| `Ecs.FindOptReplaced` | shared/src/dns.rs:294-347 | in an encoded message the search finds the first OPT record, at its place |
| `Ecs.FindOptMissing` | shared/src/dns.rs:294-347 | in an encoded message without one it finds none |
| `Ecs.NewOptionsRead` | shared/src/dns.rs:421-433 | what is parsed from the new options is the old parsed list without code 8, in order, followed by the new option |
| `Ecs.SetEcsCommutes` | shared/src/dns.rs:393-489 | for every message that leaves room, rewriting the bytes is replacing the first OPT record in place, or appending one, in the message, with nothing else changed |
| `Ecs.ClientIsAnnounced` | shared/src/dns.rs:398-433 | for every encoded message that leaves room: for a client x outside 127/8, or a stand-in x of one inside, the OPT record found afterwards has the old options with codes other than 8, in order, and then exactly one with code 8 and data 0, 1, 24, 0, x.a, x.b, x.c, and nothing else of the message changes; without a stand-in the packet is unchanged, and for IPv6 there is none |
| `Ecs.LastWriterWins` | shared/src/dns.rs:393-489 | for every well-formed packet p and two clients whose address is announced, set(set(p, a), b) = set(p, b) if and only if the rewritten RDLENGTH or the raised ARCOUNT fits sixteen bits |
| `Ecs.DatagramsFit` | shared/src/dns.rs:461-486 | in a well-formed packet shorter than 65536 bytes both always fit |
| `Ecs.LastWriterWinsOnDatagrams` | shared/src/dns.rs:393-489 | so on these set(set(p, a), b) = set(p, b) for all clients, and the rewrite is idempotent |
| `Ecs.LastWriterWinsWhereFound` | shared/src/dns.rs:419-436 | for every packet in which an OPT record is found, well formed or not, the law holds if and only if the rewritten RDLENGTH fits |
| `Ecs.RejectedPacketGrows` | shared/src/dns.rs:437-456 | on a query that announces one answer and has none, everything fits and yet the second call appends a second OPT record |
| `Ecs.FoundAgain` | shared/src/dns.rs:421-472 | the OPT record found after the rewrite has the place, payload size, RCODE, version and flags of the old one, or the defaults at the old packet end |
| `Ecs.NoArcountAppends` | shared/src/dns.rs:476-486 | with ARCOUNT zero, as after a wrap, every call appends another record of 22 bytes |
| `Crafted.CraftRedirectResponse` | shared/src/dns.rs:45-88 | the method is `Redirect`, including its two refusals |
| `CraftedLaws.RedirectIsBytes` | shared/src/dns.rs:45-88 | a redirect of any payload, also one with further records, is refused just when the question has no type and class or no text is an address; else it is the payload under 0x81 0x80 with the count of addresses and, behind it, sixteen bytes for each: pointer to 12, type and class of the question, 60 seconds, four octets |
| `CraftedLaws.RedirectIsMessage` | shared/src/dns.rs:45-88 | a query of one question is answered by the message with that question and one answer for each valid address, in order, when there are fewer than 65536 |
| `CraftedLaws.AddressText` | shared/src/dns.rs:65-68 | a text is an address if and only if it is the dotted decimal form of that address, without leading zeros |
| `CraftedLaws.ValidAre` | shared/src/dns.rs:65-68 | of a list of texts exactly the addresses are kept, in order |
| `Crafted.RedirectAddresses` | shared/src/dns.rs:45-88 | reading a redirect answer to a plain query of type A gives the valid addresses back in order if and only if there are fewer than 65536; queries of other types give none |
| `Crafted.RedirectTtl` | shared/src/dns.rs:78-85 | `min_answer_ttl` of such an answer is 60, unless the count came out as zero |
| `Crafted.BuildLookupQuery` | shared/src/dns.rs:130-151 | the loop over the labels computes `LookupQuery` |
| `Crafted.LookupRoundTrip` | shared/src/dns.rs:130-151 | parsing a lookup query gives back the name in lower case without trailing dots, ending four bytes before the end, and its cache key has type 1 |
| `CraftedLaws.LookupIsMessage` | shared/src/dns.rs:130-151 | a lookup query is the message with recursion desired and one question, the labels of the name with type A and class IN, for labels of 1 to 191 bytes |
| `CraftedLaws.KeyOfQuery` | shared/src/cache.rs:34-41 | the cache key of a query whose first name is text without a pointer is that name in lower case with the type asked for |
| `Worker.SkipName` | assets/relay_worker.js:90-97 | the loop is `JsAfterName`, with a hang where it leaves the packet |
| `Worker.SameName` | assets/relay_worker.js:90-97 | it ends where `skip_name` ends, and hangs exactly where `skip_name` gives up |
| `Worker.ExtractARecords` | assets/relay_worker.js:99-124 | the loops compute `JsARecords`, with hangs, range errors and octets beyond the packet |
| `Worker.ReadersAgree` | assets/relay_worker.js:99-124 | on every encoded message it reads the addresses that `parse_a_records` reads |
| `Worker.RewriteAnswersWithIps` | assets/relay_worker.js:126-171 | filling the output array by position yields `Rewrite` |
| `Worker.FillAnswers` | assets/relay_worker.js:163-167 | the answers are laid one behind the other at the right place |
| `Worker.BuiltAreRecords` | assets/relay_worker.js:173-183 | the built bytes are encoded A records with a pointer to offset 12 and TTL 60 |
| `Worker.RewriteCommutes` | assets/relay_worker.js:126-171 | for fewer than 65536 addresses, rewriting the bytes is exchanging the answer section of the message; question, authority and additional sections stay byte for byte |
| `Worker.WriterAndReader` | assets/relay_worker.js:126-183 | for every well-formed template, `parse_a_records` reads back exactly the list written if and only if it has fewer than 65536 addresses; `extractARecords` reads the same |
| `Worker.AddToSet` | assets/relay_worker.js:36 | `allIps.add` keeps insertion order and adds nothing twice |
| `Worker.GatherReplies` | assets/relay_worker.js:27-44 | the loop is `Gather`: failed replies and replies that throw are passed over |
| `Worker.GatherIsUnion` | assets/relay_worker.js:31-40 | the set holds an address if and only if some parsed reply has it, and the template is the last parsed reply |
| `Worker.Fetch` | assets/relay_worker.js:22-57 | the handler's answer to a decrypted query, including the statuses 502 and 500 |
| `Worker.AnswerIsUnion` | assets/relay_worker.js:27-52 | when the template, the last parsed reply, is well formed, `parse_a_records` of the answer gives exactly the addresses the worker read from some parsed reply, inside the template; if all parsed replies are well formed, exactly those that `parse_a_records` gives on some of them, each once |
| `WorkerLaws.TypeOfQuery` | assets/relay_worker.js:84-88 | the type read from an encoded query is that of its first question |
| `WorkerLaws.AddressQuery` | assets/relay_worker.js:27-52 | so the answer to a query whose first question has type 1 is the last parsed reply with the addresses gathered as its answers, when that reply is well formed and there are fewer than 65536 |
| `WorkerLaws.OtherQuery` | assets/relay_worker.js:50-52 | a query of another type gets the last parsed reply, byte for byte |
| `WorkerLaws.FailedFetch` | assets/relay_worker.js:31-48 | with a reply that hangs there is no answer; with none that hangs and none that parses it is status 502 |
| `WorkerLaws.ReadersOnAny` | assets/relay_worker.js:99-124 | where the worker reads any packet to its end it reads what `parse_a_records` reads and at most one address more |
| `WorkerLaws.CutAddress` | assets/relay_worker.js:115-119 | octets of an address that lie behind the end of the packet are written as zeros |
| `WorkerLaws.ReaderFails` | assets/relay_worker.js:99-110 | a packet too short for its counts throws, and one whose questions run out hangs |
| `Trie.DomainTrie.InsertWithPolicy` | shared/src/domain_trie.rs:26-35 | the walk through the nodes creates what is missing on the way and sets the policy of the last node only |
| `Trie.DomainTrie.Step` | shared/src/domain_trie.rs:32 | the child is reached, created with the default policy if missing, and no other node changes |
| `Trie.DomainTrie.InsertDrop` | shared/src/domain_trie.rs:37-39 | the table gains the drop rule of the pattern |
| `Trie.DomainTrie.InsertRedirect` | shared/src/domain_trie.rs:44-50 | the table gains the redirect rule, each target cut at its first colon |
| `Trie.DomainTrie.Lookup` | shared/src/domain_trie.rs:125-140 | the walk through the nodes is the walk over the table |
| `Trie.Build` | shared/src/domain_trie.rs:52-120 | the trie built from the lists and their files holds the table of all rules, drops before redirects; which rules these are is `RuleLists.PlainListsAnswer` and what follows it |
| `Trie.TableIs` | shared/src/domain_trie.rs:26-35 | a node exists if and only if it is on the way to some rule, and its policy is that of the last rule for its path |
| `Trie.LookupIsFlat` | shared/src/domain_trie.rs:125-140 | a lookup is the flat-list answer: of the rules whose labels are a suffix of the name's, those with the fewest labels, and of these the last inserted; none if none matches |
| `Trie.BuiltAnswerIsFlat` | shared/src/domain_trie.rs:52-140 | the same for every trie built from drop and redirect lists |
| `RuleLists.PlainListsAnswer` | shared/src/domain_trie.rs:78-140 | for lists of plain entries and any name: if no entry matches there is no rule; else, with the fewest labels of a matching entry, the last redirect entry with so many decides, and a drop entry if there is none; a redirect answers with the pieces of the entry's text between commas, each up to its first colon |
| `RuleLists.TargetsMean` | shared/src/domain_trie.rs:44-50 | joined again by commas, and with what follows the colons, the targets give the text back |
| `RuleLists.LabelsAre` | shared/src/domain_trie.rs:26-33 | the labels of a name or an entry are its parts between dots in lower case, dots at its end left out |
| `RuleLists.StarredLabelsAre` | shared/src/domain_trie.rs:27-28 | a star and a dot in front of an entry are left out too |
| `RuleLists.IgnoredDrop` | shared/src/domain_trie.rs:79-82 | blank entries and comments, anywhere in the drop list, change no answer |
| `RuleLists.IgnoredRedirect` | shared/src/domain_trie.rs:95-98 | nor do they in the redirect list |
| `RuleLists.DropFileIsList` | shared/src/domain_trie.rs:83-88 | a file of plain entries is as good as these entries in its place in the drop list |
| `RuleLists.RedirectFileIsList` | shared/src/domain_trie.rs:99-113 | a file of lines `domain:ip1,ip2` is as good as the entries that these lines stand for |
| `RuleLists.MissingFile` | shared/src/domain_trie.rs:71-74 | a file that cannot be read gives no rules |
| `RuleLists.LineWithoutColon` | shared/src/domain_trie.rs:103-111 | a line without a colon gives no rule |
| `RuleLists.HalfLine` | shared/src/domain_trie.rs:104 | nor does one with nothing but white space on a side of its first colon |
| `Trie.MatchesIsSuffix` | shared/src/dns.rs:115-128 | a pattern with a star matches a name if and only if its labels are a suffix of the name's; one without, if and only if both are the same text |
| `Trie.PurgedIsAnswered` | dns_relay/src/conf.rs:157-162 | every name purged through a plain drop entry is one that the new trie answers with a drop or a redirect |
| `Cache.ResponseCache.CacheLookup` | shared/src/cache.rs:70-78 | hit, miss or expiry, with the recency order or the removal it leaves |
| `Cache.ResponseCache.CacheStore` | shared/src/cache.rs:80-98 | the entry kept, its expiry, and what is evicted; or nothing, when reading the reply's TTL exhausts the stack; how long it is found is `CacheLaws.FoundUntil` |
| `Cache.ResponseCache.RemoveDomainsFromCache` | shared/src/cache.rs:42-58 | collecting keys and popping them leaves exactly the entries that no pattern matches, in their order |
| `Cache.ClampCacheTtl` | shared/src/cache.rs:59-68 | a lifetime lies in 5 to 300 seconds, and is above the TTL only if it is 5 seconds, below it only if it is 300 |
| `CacheLaws.FoundUntil` | shared/src/cache.rs:59-98 | after any events and the store of a reply with one question and text names, its key is found if and only if less time has passed than the least positive TTL t of its answers in seconds, with 5 for t < 5, 300 for t > 300, and 60 where no TTL lies strictly between 0 and the largest u32; what is found is the reply, all but its ID |
| `CacheLaws.LookupLeaves` | shared/src/cache.rs:70-78 | a lookup that finds nothing leaves nothing under its key, and apart from that lookups forget nothing |
| `CacheLaws.PurgeTakes` | shared/src/cache.rs:42-58 | a purge takes exactly the names that one of its patterns matches |
| `CacheLaws.OldestGivesWay` | shared/src/cache.rs:87-95 | a store pushes out another key only where 4096 others are held, and then the one whose last store or lookup is the oldest |
| `Cache.FindPut` | shared/src/cache.rs:87-95 | after a store its key is found; any other key keeps what it had, or is evicted when the map is full |
| `Cache.RunIsSound` | shared/src/cache.rs:42-98 | in every sequence of events no key stands twice, the capacity is kept, and every entry is the one made of the latest store of its key that was not purged |
| `Cache.HitIsLogAnswer` | shared/src/cache.rs:70-98 | in every sequence of events a hit is the plain log's answer: the latest reply for the key with only its ID changed, strictly within its lifetime; so eviction only turns hits into misses |
| `Cache.CacheIsLog` | shared/src/cache.rs:70-98 | while the stored keys fit the capacity, lookups and log agree in misses too |
| `Pipeline.ResolveQuery` | dns_relay/src/handler.rs:60-154 | reply, counter, cache and history entry of one call, for every payload, rule table, cache, upstream outcome and stack, including the stack exhausted by the query's name or by a name of the reply; `PipelineLaws.CallIsRight` says what these are |
| `PipelineLaws.CallIsRight` | dns_relay/src/handler.rs:60-154 | every call: no name, no reply; a drop sends the query back as a name error; a redirect replies, with the addresses, exactly when some target is one; a hit sends the cached packet and an upstream reply that packet, each with the first two bytes of the query and otherwise unchanged; timeout and failure send the query back as a server failure; with the counter each raises, the cache it leaves, and the name and addresses recorded for the history exactly when the upstream replied |
| `Pipeline.RaisedByOne` | dns_relay/src/handler.rs:48-54 | a counter is raised by one and the others stay |
| `Pipeline.LoopingReplyIsFatal` | dns_relay/src/handler.rs:130-138 | a call that asks the upstream and gets the looping reply exhausts every stack |
| `Pipeline.StepKeeps` | dns_relay/src/handler.rs:83-153 | every step of concurrent queries and of a reload keeps the invariant between cache, log, rules and queries |
| `Pipeline.PurgeKeeps` | dns_relay/src/conf.rs:161 | the purge that follows the swap keeps it too: what the cache still holds for a name that a plain drop entry covers comes from a query with an older trie |
| `Pipeline.NoServiceAgainstRules` | dns_relay/src/handler.rs:83-107 | in every run, a query served from the cache or the upstream has a name that no rule of the trie it loaded matches |
| `Pipeline.CachedAnswersAreLatest` | dns_relay/src/handler.rs:100-107 | in every run, an answer from the cache is the latest reply stored for its name and type and not purged since, under the query's own ID, strictly within its lifetime |
| `Pipeline.RepliesFollowTheRules` | dns_relay/src/handler.rs:83-153 | in every run a reply bears the ID of its own query; it is a name error just when the rules it loaded say drop, a redirect answer just when they say redirect, and otherwise comes from cache or upstream: the upstream's packet but for the ID, and a server failure when it had none |
| `PipelineLaws.RepliesAreRight` | dns_relay/src/handler.rs:60-154 | in every run, whether a query that is done was sent a reply, and which: as in a single call, under the rules it loaded, for its own name and type, the upstream's packet or the latest one stored for that key |
| `Pipeline.AloneIsCall` | dns_relay/src/handler.rs:60-154 | a query whose steps nothing interrupts ends with the reply and the cache that `ResolveQuery` is proved to give on a deep enough stack, and is stuck exactly when that call exhausts it |
| `Pipeline.OnlyOlderQueriesStore` | dns_relay/src/conf.rs:157-162 | after a reload, an entry that a plain drop entry covers was stored by a query dispatched under older rules |
| `HistoryFlush.ReadHistory` | dns_relay/src/handler.rs:256-270 | the loop over the lines fills the three collections with the table of the file, the last line of a domain counting |
| `HistoryFlush.MergeBatch` | dns_relay/src/handler.rs:271-283 | the loops over the batch compute `MergedAll` of the three collections |
| `HistoryFlush.MergedOrder` | dns_relay/src/handler.rs:271-275 | on any collections the domains keep their order and new ones follow as first seen |
| `HistoryFlush.MergedHolds` | dns_relay/src/handler.rs:271-283 | collections that hold a table with distinct domains and addresses hold its merge afterwards |
| `HistoryFlush.TrimBook` | dns_relay/src/handler.rs:285-291 | the oldest domains beyond the limit are cut off, with their addresses |
| `HistoryFlush.PrintBook` | dns_relay/src/handler.rs:293-301 | the text of the lines; it panics if and only if a listed domain has no history |
| `HistoryFlush.Flush` | dns_relay/src/handler.rs:248-305 | the whole flush, on any file, is `RealFlush`: the new text or a panic |
| `HistoryFlush.FlushPanics` | dns_relay/src/handler.rs:285-301 | on any file it panics if and only if a domain that is cut off is listed again |
| `HistoryFlush.FlushOfTidy` | dns_relay/src/handler.rs:248-305 | on a file with distinct domains and addresses it is the table flush |
| `HistoryLaws.FlushOfAny` | dns_relay/src/handler.rs:248-305 | on any file, what it writes if it does not panic: the last lines of the old domains and the new ones, each with the addresses of the last line of its domain and then the new ones |
| `HistoryLaws.FullQueueIsFlushed` | dns_relay/src/handler.rs:213-219 | a push that fills the queue or finds it full leaves a flush alive, a second one only if there was none; a push into a queue that stays below 100 starts none |
| `HistoryLaws.FlushAlone` | dns_relay/src/handler.rs:232-254 | a flush that nothing interrupts takes the whole queue, writes the flush of it, and lowers its flag |
| `HistoryFlush.FlushesStayTidy` | dns_relay/src/handler.rs:248-305 | from such a file, no number of flushes of names without white space panics, and the file stays such a file |
| `HistoryFlush.SpacedNamesPanic` | dns_relay/src/handler.rs:259-301 | from the empty file, a flush of two names with spaces writes a file that lists a domain twice, and the next flush panics |
| `History.ReadBackExactly` | dns_relay/src/handler.rs:259-301 | reading what was written gives the same table if and only if every name and address is not empty and has no white space |
| `HistoryLaws.TokensAppend` | dns_relay/src/handler.rs:261-263 | words on both sides of white space are found on their own |
| `HistoryLaws.TokensOfOne` | dns_relay/src/handler.rs:261-263 | a text without white space is one word, white space is none |
| `HistoryLaws.LinesAre` | dns_relay/src/handler.rs:260 | lines end at line feeds, the last one at the end of the file |
| `HistoryLaws.PrintedLine` | dns_relay/src/handler.rs:293-301 | what is written is, for each domain, the domain and its addresses with single spaces and a line feed |
| `History.MergeAllIs` | dns_relay/src/handler.rs:271-283 | domains keep their order and new ones follow as first seen; each has its old addresses and then the new ones, each once |
| `HistoryLaws.MergeBrings` | dns_relay/src/handler.rs:271-283 | a domain or an address is there after a merge if and only if it was there or the batch brings it; none comes twice and what was there keeps its place |
| `HistoryLaws.MergeInParts` | dns_relay/src/handler.rs:271-283 | merging a batch, or an entry with its addresses, is merging it in two parts one after the other |
| `HistoryLaws.AddedOnce` | dns_relay/src/handler.rs:277-281 | one address more is appended, if it is new |
| `HistoryLaws.FlushLeaves` | dns_relay/src/handler.rs:285-291 | of the merged table exactly the last lines are left, as many as the limit or all |
| `History.FlushKeeps` | dns_relay/src/handler.rs:248-305 | a flush keeps distinctness, first-seen order and the limit on lines |
| `History.FlushTwiceExactly` | dns_relay/src/handler.rs:248-305 | flushing a and then b is flushing a + b if and only if no domain that the first flush cut off is among the lines kept by the second |
| `History.FlushTwice` | dns_relay/src/handler.rs:248-305 | on any table, it is when b names no domain that the first flush cut off, so in particular when nothing was cut off |
| `HistoryFlush.FileFlushTwiceExactly` | dns_relay/src/handler.rs:248-305 | the same if and only if for the bytes the code writes to a file with distinct domains and addresses |
| `History.BoundaryCanShow` | dns_relay/src/handler.rs:285-291 | a domain that is cut off and comes back tells two flushes from one |
| `HistoryProtocol.EntriesAreConserved` | dns_relay/src/handler.rs:193-254 | in every interleaving each accepted entry is in exactly one of queue, batches under way and merges applied; the queue is bounded; at most one spawned flush is alive |
| `HistoryProtocol.StepKeepsFlag` | dns_relay/src/handler.rs:232-246 | every step keeps the flag up exactly while a spawned flush is alive |
| `HistoryProtocol.NoLostUpdate` | dns_relay/src/handler.rs:248-311 | when no other flush writes between a flush's reading and its writing, the file, whatever it was at first, is the code's flushes of all applied batches, one after the other |
| `HistoryProtocol.NoFlushPanics` | dns_relay/src/handler.rs:193-311 | from a file with distinct domains and addresses, in every interleaving of pushers whose entries have no white space, no flush panics and the file stays such a file |
| `HistoryClose.QuietIsExclusive` | dns_relay/src/handler.rs:306-311 | flushes take turns with the file, so no update is lost, when no pusher starts while a `close` works, and none runs and no other `close` works when one gets past the flag |
| `HistoryClose.CloseLeavesNothing` | dns_relay/src/handler.rs:306-311 | in such a run, when a `close` is done the queue is empty, the merged batches are what was accepted, in order of acceptance, and the file is the code's flushes of them |
| `HistoryProtocol.ManyFlushesAreOne` | dns_relay/src/handler.rs:248-305 | on a file with distinct domains and addresses, if nothing is trimmed, all flushes together are one flush of all entries |
| `HistoryProtocol.AppliedAreInFile` | dns_relay/src/handler.rs:248-305 | and then every entry of every applied batch is in the file, with all its addresses |
| `HistoryClose.CloseWritesAllInOrder` | dns_relay/src/handler.rs:193-311 | if moreover the file had distinct domains and addresses, the entries have no white space and nothing was trimmed, the file is one flush of all that was accepted |
| `HistoryLoss.LateStartsCanLose` | dns_relay/src/handler.rs:306-311 | from every state that a run from a file with distinct domains and addresses reaches, with a `close` past the flag that has not written, at most 102 new pushers, or one new `close` and two pushers, have a continuation whose file does not have an entry that was accepted and merged |
| `HistoryLoss.SingleCloseCanLose` | dns_relay/src/handler.rs:306-311 | from any file with distinct domains and addresses there is such a run with a single `close` |
| `HistoryLoss.OverlapLosesEntries` | dns_relay/src/handler.rs:306-311 | the run, step by step, in which two overlapping closes leave a file without the first one's entry, whatever the entries are |
| `Admission.Server.DispatchBatch` | dns_relay/src/main.rs:352-364 | the loop over one batch: as many run as there are permits, the next ones wait while there is room, the rest is dropped, in order of receipt |
| `Admission.AdmitAllSplits` | dns_relay/src/main.rs:352-364 | admitting one by one splits a batch into those three parts |
| `Admission.BurstIsAdmitAll` | dns_relay/src/main.rs:352-364 | a batch dispatched without interruption is what the method does to it |
| `Admission.DatagramsAreConserved` | dns_relay/src/main.rs:269-389 | in every run, running handlers and free permits make 512, the backlog has at most 1024, and every received datagram is in exactly one of pending, waiting, held, running, done, dropped |
| `Admission.OutcomesAddUp` | dns_relay/src/main.rs:346-350 | in every run `total_req` is the sum of the six outcome counters and of the datagrams without one: unfinished, dropped, or ended silently |
| `Admission.BacklogIsFair` | dns_relay/src/main.rs:269-287 | the backlog is taken in order of receipt, and what the worker holds was at most 800 ms old when taken |
| `Admission.TakenIfFresh` | dns_relay/src/main.rs:271-285 | the worker holds the first waiting datagram if it has waited for 800 ms at most and drops it otherwise |
| `Admission.HeldRuns` | dns_relay/src/main.rs:287-303 | what it holds runs as soon as there is a permit |
| `Admission.ObfuscatedRunsOrNot` | dns_relay/src/main.rs:446-463 | an obfuscated datagram runs exactly if some key decodes it and there is a permit; it never waits |
| `Admission.EndGivesBack` | dns_relay/src/main.rs:302-303 | a handler that ends gives its permit back |
| `Admission.StepKeepsPlaces` | dns_relay/src/main.rs:440-499 | every step of either listener, of the worker and of a handler keeps each datagram in one place |
| `Obfs.Encode` | shared/src/obfs.rs:49-73 | the appended pieces are the framing of the query, 62 to 222 bytes longer than it |
| `Obfs.EncodedIs` | shared/src/obfs.rs:49-73 | behind the drawn nonce stands what opens, with it, to the length of the query (below 65536) in two bytes, the query, and 32 to 192 bytes of the drawn padding |
| `Obfs.RoundTrip` | shared/src/obfs.rs:49-95 | decoding gives the message back, whatever was drawn, if and only if it has fewer than 65536 bytes |
| `Obfs.DecodesOnlyFramings` | shared/src/obfs.rs:79-95 | a datagram is decoded to a message if and only if it is a framing of that message with some nonce and padding |
| `Obfs.AlwaysFits` | dns_relay/src/main.rs:393-394 | a buffer holds the datagram for every padding if and only if it has 222 bytes to spare |
| `Obfs.FirstKey` | dns_relay/src/main.rs:451-459 | the first key that decodes a datagram is found, and none only if no key does |
| `Obfs.Exchange` | resolver_proxy/src/handler.rs:247-272 | a proxy's query of at most 1024 bytes arrives whole in the relay's buffer and is opened by its own key; a reply of at most 3874 bytes arrives whole in the proxy's |

## Left out

- Strings.Lower: folds ASCII letters only; the source folds all of Unicode. White space is ASCII white space, and strings are their UTF-8 bytes.
- Ecs.LastWriterWins: for ill-formed packets without an OPT record no exact condition is given: bytes behind the last record may pass for the header of one that takes in what is appended.
- HistoryClose.QuietIsExclusive: gives one direction; `HistoryLoss.LateStartsCanLose` shows runs that lose entries, not that every run outside the guard does.
- Names.UncompressedName: folds ASCII letters only, where the source folds all of Unicode; so does `Names.CompressedName`, where the source moreover joins the tail without a dot.
- Crafted.RedirectAddresses: queries that carry more than one question are not covered, since the source appends answers behind the whole payload.
- RuleLists.PlainListsAnswer: a star that does not stand in front of a dot at the beginning is a letter like any other; entries with white space around them are covered only as far as `Trie.BuiltAnswerIsFlat` goes.
- Trie.PurgedIsAnswered: drop entries with white space around them, comments and list files are not covered: the purge takes them as patterns, the trie does not.
- HistoryProtocol.EntriesAreConserved: a file write is one step that succeeds; a failed write loses its batch in the source. A file that is missing or is not UTF-8 is read as an empty one.
- Obfs.Exchange: assumes that no earlier key opens what the key sealed.
- Cipher internals, base64 and random sources: three laws of an authenticated cipher, arbitrary nonces and padding. The relay's AES layer of the worker is left out.
- Worker.Fetch: the replies are one sequence, in the order in which the loop sees them; how many rounds ask for them is not modelled.
- Sockets, HTTP, DoH, QUIC and the upstreams behind them: an upstream is any reply, a timeout or an error.
- The `lru`, `crossbeam_queue`, `tokio` and `arc_swap` libraries: their documented behaviour. A waiting `acquire_owned` may lose a freed permit to a `try_acquire_owned` in the model, which allows more runs than the fair semaphore does.
- The last step of a reload, which stores the configuration: no query reads it. Its first step skips a file whose time stamp did not change.
- A stack that overflows ends the process; in the machine of `Pipeline` only the query stops, which allows more runs.
- Mutex poisoning, panics inside handlers, and metrics switched off.
- Liveness: the spin in `push_many`, timeouts, and how long the worker waits for a permit.
- `HistoryBuffer::domain_matches` and the empty address list: an entry that is filtered out never arrives at the queue. Addresses recorded for the history are modelled as octets by `Pipeline.ResolveQuery` and as text by `History`.
- List files are a map from path to lines already trimmed and cut at white space; TOML loading, the command line, logging and metric reporting are not modelled.
- `Worker.JsIp` keeps an address as four octets, of which some may be undefined, instead of as dotted text.
- `merge_discovered_into_healthy`, the failed-resolver set, `TargetPicker::try_order` and `RelayPicker::pick`: they would only add easy members.

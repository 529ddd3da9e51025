# Charlotte, verified

Charlotte decrypts `.usm` cutscenes, recovers their keys, and captures new keys from game traffic.
This project models the algorithms under its input and output in Dafny and proves what they are
for. Each module follows one source file or one part of it. Code that changes things step by step is
a class or a method with loops, tied by its `ensures` to a specification function or to the property
itself; the lemmas beside it say what that specification means.

- **The block mask and its cracker.** `BlockMask` holds `build_mask` and its inverse, `VideoCipher`
  the feedback chain and the block-wise `decrypt_video`, `CrackStages`, `CrackStats` and
  `CrackSearch` the staged search, and `Keys` the arithmetic around it. The search is proved against
  the cipher: a candidate's score is the evidence in the plaintext that `decrypt_video` would make
  of the sample, and with wide enough beams the result is the best of all 2^56 keys.
- **The session key.** `Mersenne` proves the sparse worklist generator against a reference
  MT19937-64 with steps of its own that refills its 312 words in place (ISO/IEC 14882:2011, sections
  26.5.3.2 and 26.5.5). `SessionKey` proves the search sound and complete, and `SearchOrder` which of several
  keys it returns. `Message` is the framing.
- **The capture.** `Kcp` reassembles a stream and is proved against a sender, whose datagrams
  `Datagrams` writes. `Connection` is the state machine over whole messages, and `Sniffer` the class
  that holds both. Over every run each message has exactly one fate.
- **Audio.** `Crc16` proves the table-driven checksum against polynomial division, `CipherTable`
  that the cipher table is a permutation for every key, and `Hca` what decrypting and saving leave
  in a file.
- **Parsers.** `Proto` and `FindKeys` for protobuf messages, `UsmChunks` and `Demux` for `.usm` files.
- **Install and commands.** `Install` is the update's backup-and-rollback with a fault possible at
  every step, `CommandChannel` the line buffer shared by a blocking reader and one that never
  blocks.

`Bytes` and `Lists` hold what the others share.

Some properties hold under a condition that the code's comments or callers do not mention. The
condition is proved, both ways:

- The session-key search is documented as nearest first. It takes candidates chunk by chunk, in a
  chunk by server half, then by draw, and only then by clock (`SearchOrder.SearchReturnsFirst`). So
  the nearest clock is the one taken exactly when no farther clock of its chunk works under an
  earlier server half or draw (`SearchOrder.NearestIsTakenIff`). A farther clock can be taken exactly
  if two seeds have different keys (`SearchOrder.FartherClockTakenIff`), and another key than a
  nearest clock's can come back exactly if some message parses under the keys of two seeds and not
  under that of a third (`SearchOrder.FartherKeyReturnedIff`).
- A skipped gap is documented as dropping the message the gap fell in. It drops every message that
  ends before the first end received after the gap, and that one too, which may have come whole
  (`Kcp.ReceivedMessageIsDropped`). It drops one message exactly if no other ends in between
  (`Kcp.SkipDropsOneIff`).
- The install rollback brings everything back, for all contents and wherever the OSError strikes,
  exactly when the targets are safe (`Install.RollbackRestoresIff`): a file that is replaced is
  replaced by one member only, and its `.old` name is free and no member's target; and where a new
  target comes again, its `.old` name is free and an earlier member's target. Targets need not be
  distinct (`Install.RepeatedNewTargetIsSafe`). The rollback does not run for an error that is not an
  `OSError`, such as a bad checksum in the archive (`Install.BadArchiveEscapes`,
  `Install.EscapeLeavesAllIff`).
- A cancel outranks a skip exactly if the first of a checkpoint's two looks at the channel sees it
  (`CommandChannel.CheckpointOutranks`, `CommandChannel.LateCancelLosesOnce`).

## Model

| member | source | states |
|---|---|---|
| BlockMask.BuildMask | stages/usm.py:152-190 | The entry-by-entry fill ends at the closed form of the seven seeds of the key |
| BlockMask.SeedsInBytes | stages/usm.py:153-163 | The seeds give back each byte of the key: 0x34 off and 0xF9, 0x13 and 0x61 on, modulo 256 |
| BlockMask.MaskIffChained | stages/usm.py:157-188 | Among 32-byte strings, the masks of keys are exactly those that obey every rule of `build_mask` |
| BlockMask.ChainDetermines | stages/usm.py:157-188 | Two strings that obey the rules and agree on the seven seeds are one |
| BlockMask.KeyFromMaskOfKey | stages/crack.py:199-211 | `key_from_mask` gives back the low 56 bits of every key from its mask |
| BlockMask.SeedsOfKeyFromMask | stages/crack.py:199-211 | The key built from any mask is below 2^56 and has the mask's seeds, so the inverse is onto |
| BlockMask.SameMaskIffSameLowBits | stages/usm.py:153-190 | Two keys have one mask if and only if they agree modulo 2^56 |
| VideoCipher.MaskVideoReference | tests/test_usm.py:20-37 | The byte-by-byte chain with two working masks decrypts as the specification does, in place, for every length |
| VideoCipher.DecryptVideo | stages/usm.py:192-224 | The block-wise form (running XOR, even and odd rows, partial tail, head last) gives the same bytes as the chain, for every length, in place |
| VideoCipher.PlainRows | stages/usm.py:206-213 | The running XOR, with the second mask on even rows, is the chain's plaintext of every full row |
| VideoCipher.RunningIdentity | stages/usm.py:193-200 | The identity `decrypt_video` and the cracker share: odd rows are the running XOR, even rows the running XOR under the second mask |
| VideoCipher.ChainIsBijection | stages/usm.py:192-224 | The forward chain and decryption undo each other on every payload of every length |
| VideoCipher.BodyByteByByte | stages/usm.py:192-220 | Payloads below 0x240 bytes and the first 0x40 bytes of any stay; from 0x140 on each byte is masked by the second mask and the plaintext 32 bytes back |
| VideoCipher.HeadByteByByte | stages/usm.py:222-224 | From 0x40 to 0x13F the mask of a byte is the plaintext 0x100 bytes on, under the mask 32 bytes back or, at first, the first mask |
| CrackStages.PlanStages | stages/crack.py:101-121 | Each stage lists its entries in order and exactly the adjacent pairs that become complete with it |
| CrackStages.NewPairs | stages/crack.py:118-119 | The pairs a stage takes are those complete now and not scored before |
| CrackStages.StageEntries | stages/crack.py:104-111 | The entry lists are disjoint and add up, stage by stage, to what is known |
| CrackStages.KnownEnds | stages/crack.py:101-121 | Before the first stage nothing is known; after the last, all 32 entries and 31 pairs are |
| CrackStages.Expand | stages/crack.py:43-90 | The expansion of a stage writes its key byte and entries as the rules of `build_mask` say and leaves all others |
| CrackStages.RulesDetermine | stages/crack.py:40-90 | What is known after a stage depends on nothing but the key bytes fixed by then |
| CrackStages.WrittenKeepsRules | stages/crack.py:40-90 | An expansion keeps the rules of the stages before it |
| CrackStages.ExpansionsReproduceMask | stages/crack.py:40-90 | The six expansions, fed the bytes of any key from any starting column, end at the mask `build_mask` makes of it |
| CrackSearch.KeepBest | stages/crack.py:192-193 | The kept positions are distinct, and none scores below a position left out |
| CrackSearch.ExpandOne | stages/crack.py:182-190 | A candidate under one value obeys the rules of one more stage, and its score is the sum over exactly the entries and pairs known then |
| CrackSearch.ExpandAll | stages/crack.py:182-190 | A whole stage tries every value on every candidate: any partial key the beam held is held again |
| CrackSearch.BeamScore | stages/crack.py:177-196 | A candidate scores, on what is known, what the mask of any key with its bytes scores |
| CrackSearch.RunStage | stages/crack.py:181-194 | After a stage every survivor is a partial mask with its exact score; a partial key is lost only to a full beam of rivals that score at least as well |
| CrackSearch.BeamIsComplete | stages/crack.py:196 | After the last stage every survivor is the mask of a key and its score covers all entries and pairs |
| CrackSearch.Solve | stages/crack.py:177-196 | The result is the mask of a key, scores at least as well as every key no stage crowds out, and with beams for all candidates maximises the score over all 2^56 keys |
| CrackStats.Stats.Add | stages/crack.py:134-150 | The even rows kept and the double counts are those of the pool of payloads taken in |
| CrackStats.Stats.Tables | stages/crack.py:152-174 | The loops that count the pool's even rows make the table of complement-summed counts and that of weighted pairs, under the weights of its odd rows |
| CrackStats.CountColumn | stages/crack.py:157 | Counting one column into 256 bins gives, for each byte, the number of rows that hold it |
| CrackStats.CountPairs | stages/crack.py:156-158 | Counting packed neighbours into 65536 bins gives, for each 16-bit number, the number of rows that hold its two bytes |
| CrackStats.UnigramTable | stages/crack.py:157-162 | The counts summed with those at the flipped index are the counts of each byte and its complement |
| CrackStats.BigramTable | stages/crack.py:158-173 | Flipping a packed pair as one 16-bit number flips both its bytes, so the table weighs each pair and the pair of complements |
| CrackStats.UnigramCountsPlaintext | stages/crack.py:152-162 | The unigram table at a candidate's entry counts the plaintext bytes 00 and FF there |
| CrackStats.BigramCountsPlaintext | stages/crack.py:156-173 | The bigram table at a candidate's pair is the weighted count of FF,FF and 00,00 in the plaintext |
| CrackStats.PoolUnder | stages/crack.py:134-140 | The rows kept of a pool are the even rows of its plaintext under any mask, with that mask on them |
| CrackStats.ScoreIsEvidence | stages/crack.py:177-190 | The score of any candidate is the evidence in what `decrypt_video` makes of the whole pool with it |
| CrackStats.WeightsShareOut | stages/crack.py:164-171 | In integers: fixed weights up to 100 pairs; else the 25 are shared as the pairs 00,00 and FF,FF are, to the nearest integer and at a tie to the even one, between 12 and 21 for the 00,00 pairs |
| CrackStats.WeightsPositive | stages/crack.py:164-171 | Both pair weights are positive whatever the odd rows hold, and add up to 25 unless they are the fallback |
| CrackStats.CountedPairsArePlain | stages/crack.py:142-147 | The pairs that set the weights are those in the odd rows of the plaintext, under any mask |
| CrackStats.SolveStats | stages/crack.py:275-276 | What is solved from a pool is a key's mask, and no key that escapes crowding leaves more evidence in the plaintext |
| CrackStats.Evaluate | stages/crack.py:269-279 | A key is accepted only if both halves solve to it, never with an empty right half; and a key that escapes crowding and leaves strictly more evidence than any other in both halves is accepted |
| Keys.CalculateKeyFromFilename | resources/keys.py:26-43 | The fold over the characters is the base-3 sum, wrapped into 1 to 2^56, with the three fixed names |
| Keys.NameInParts | resources/keys.py:39-41 | The sum of a name in two parts is that of the first times 3 for every character of the second, plus that of the second |
| Keys.RenamedFilesKeepTheirKey | resources/keys.py:31-37 | The three renamed files have the key of their old name, and every other file that of its own |
| Keys.RealFiles | tests/test_keys.py:53-64 | The keys of three real files |
| Keys.DecryptionKey | resources/keys.py:219-226 | The combined key is the wrapped sum of the video key and the name's key, from 1 to 2^56 |
| Keys.VideoKeyFrom | resources/keys.py:46-47 | The difference modulo 2^56, for any operands |
| Keys.CrackedKeyIsVideoKey | resources/keys.py:219-226 | For every stem, the way from a video key through combined key, mask and back ends at the key modulo 2^56 |
| Keys.CrackRoundTrip | resources/keys.py:46-47 | The whole round trip by the modelled methods returns the video key if and only if it is from 0 to 2^56 - 1 |
| Mersenne.NeededWords | capture/crypto.py:146-153 | The worklist ends, and what it collects is the least set that covers the outputs and holds the three words each of its words reads |
| Mersenne.SeedWords | capture/crypto.py:155-162 | One pass to the last needed word of the seed makes exactly the needed ones |
| Mersenne.Mersenne | capture/crypto.py:138-167 | Each row is the generator's output at the position asked for; every word is made after the three it reads |
| Mersenne.Reference.Next | capture/crypto.py:142-145 | The reference generator hands out output after output of the recurrence |
| Mersenne.Reference.Refill | capture/crypto.py:142-143 | Refilling the 312 words in place gives the next 312 words of the growing list |
| Mersenne.MatchesReference | capture/crypto.py:138-167 | For every seed and every non-empty list of positions, the sparse generator returns what the reference hands out there |
| Mersenne.StandardSeeded | capture/crypto.py:159-160 | The standard's seeding from its parameters makes the same word |
| Mersenne.StandardTwist | capture/crypto.py:164-166 | The standard's transition, with 33 and 31 bits cut out by shifts and the row chosen by the last bit, makes the same word |
| Mersenne.UntemperUndoes | capture/crypto.py:130-135 | Tempering loses nothing: four inverse steps in reverse order give the word back from its number |
| Message.ParsesIffFramed | capture/crypto.py:58-71 | A plaintext parses to a message exactly when it is that message's frame |
| Message.XorTwice | capture/crypto.py:52-55 | XORing twice under one key, longer or shorter than the data, gives the data back |
| Message.FrameLayout | capture/crypto.py:61-71 | A frame byte by byte: magic, command and sizes highest byte first, header, body, magic |
| Message.KeyRepeats | capture/crypto.py:52-55 | The key starts anew after its length, byte against byte, and an empty key changes nothing |
| SessionKey.SessionWords | capture/crypto.py:170-174 | The rows are the asked-for words of the key of the seed |
| SessionKey.SessionKey | capture/crypto.py:177-179 | The 4096 bytes are the words of the second generator from its second number on, high byte first |
| SessionKey.KeyIsBigEndian | capture/crypto.py:177-179 | Each eight bytes of the key, joined highest first, are one word of it |
| SessionKey.GameKey | capture/crypto.py:170-179 | Two reference generators, one seeded by the first number of the other and its own first number passed over, make the same 4096 bytes |
| SessionKey.Matches | capture/crypto.py:186-196 | For one seed, the test on the needed words alone is the test on the four end bytes under its whole key |
| SessionKey.MatchingSeeds | capture/crypto.py:182-197 | The filter keeps exactly the candidates that pass, in order |
| SessionKey.FilterKeepsAccepted | capture/crypto.py:182-197 | A seed whose full key parses the message is never dropped by the four-byte filter |
| SessionKey.FilterKeepsFirst | capture/crypto.py:214-217 | Searching the filtered candidates finds the same first key as searching them all |
| SessionKey.OffsetsAreStablySorted | capture/crypto.py:206-207 | The offsets are those strictly inside the window, each once, sorted by distance with ties as they were |
| SessionKey.FindSessionKey | capture/crypto.py:200-218 | The chunked search returns what the search over all chunks specifies |
| SessionKey.SearchIsSoundAndComplete | capture/crypto.py:200-218 | For a reply time below 2^63, a key is found if and only if some clock strictly inside the window, draw and server half gives one that parses the message, and the key returned is one of those |
| SessionKey.SearchFindsTheClient | capture/crypto.py:203-217 | In terms of clocks: a key is found if and only if a clock within the window, one of its first five draws and a server half XOR to the seed of a key that parses the message; and it is such a key |
| SearchOrder.SearchReturnsFirst | capture/crypto.py:206-218 | The key returned is that of the one candidate that works and comes first: chunk by chunk, in a chunk by server half, then draw, then clock |
| SearchOrder.NearestIsTakenIff | capture/crypto.py:203-217 | The clock taken is a nearest one if and only if some nearest candidate has no farther clock of its chunk that works under an earlier server half or draw |
| SearchOrder.NearestIsTaken | capture/crypto.py:203-217 | A nearest clock is taken whatever the keys are with a window of one clock, or with one server half when every clock that works does so under the same draw |
| SearchOrder.TakenIsNear | capture/crypto.py:206-209 | The clock taken is at most half a chunk farther from the reply than any that works |
| SearchOrder.FartherClockTakenIff | capture/crypto.py:203-217 | Some search takes a clock that is not nearest among those that work, if and only if two seeds have different keys |
| SearchOrder.FartherKeyReturnedIff | capture/crypto.py:203-217 | Some search returns another key than a nearest clock's if and only if some message parses under the different keys of two seeds and not under that of a third |
| Kcp.Kcp.FeedDatagram | capture/sniffer.py:41-60 | The new state and the messages are those of the feed function, timer and skip included |
| Kcp.Kcp.DrainPending | capture/sniffer.py:62-72 | The loop moves the pending run and gives the messages of the drain function |
| Kcp.Kcp.SkipTheGap | capture/sniffer.py:74-84 | The skip ends at the least pending segment that ends a message |
| Kcp.SegmentLayout | capture/sniffer.py:43-51 | Where each field of a segment lies, numbers lowest byte first, and the data after 32 bytes |
| Kcp.FeedHolds | capture/sniffer.py:41-84 | One feed hands out the sender's messages that end before a gap and those that end from its end on; only a skip opens one, from the first number that has not come to the first message end after it that has, and pending is what came beyond `next` |
| Kcp.EmittedIsReceivedPrefix | capture/sniffer.py:41-72 | Over any run without a skip, segments in any order, repeated, cut short or mixed with others give exactly the sender's messages wholly inside the longest received prefix |
| Kcp.EmittedIsAllButSkipped | capture/sniffer.py:41-84 | Over any run, skips included, what is handed out is exactly the sender's messages passed, whole and in order, but for those that end in a skipped number; what was passed and not skipped has come, and pending is what came beyond `next`, which never moves back |
| Kcp.SkipDropsOneIff | capture/sniffer.py:74-84 | A skip drops one message only if and only if no message ends from the gap on before the end that closes it |
| Kcp.ReceivedMessageIsDropped | capture/sniffer.py:74-84 | With a message of one segment missing, the skip drops the next message of two segments too, though it came whole |
| Kcp.TimerIsQuiet | capture/sniffer.py:53-59 | The timer reads the time of the feed at which the stretch began that has been open and quiet since: one that completed a message, or the first with something pending, or the first after a skip |
| Kcp.TimerRunsIff | capture/sniffer.py:53-60 | The timer runs if and only if something is pending and the last feed did not skip |
| Kcp.SkipsIff | capture/sniffer.py:53-60 | A feed skips if and only if its own drain completes nothing, a message end is pending, and 3 seconds or more have passed since the feed at which the quiet stretch began |
| Datagrams.DatagramReadsBack | capture/sniffer.py:41-51 | A datagram gives exactly the segments put into it whole, in order, and nothing for a last one that was cut short |
| Connection.KeyGivesItselfAway | capture/sniffer.py:167-171 | The first two bytes of any framed message under a key name the key's first two bytes |
| Connection.FirstMessageFindsItsKey | capture/sniffer.py:167-182 | If keys are listed under their first two bytes, the first message of a connection finds its key and is handed out as it was sent |
| Connection.SentUnderKeyComesOut | capture/sniffer.py:177-182 | A message framed and sent under the key in use comes out as its command, body and direction |
| Connection.LastVarintCounts | capture/sniffer.py:235-236 | Of several header fields with one number the last counts, and without one the value is 0 |
| Connection.LearnsFromServer | capture/sniffer.py:229-237 | Seed halves and their time change exactly with a message of the server's that parses before the session and holds halves; the time is the last field 6 of its header or 0 |
| Connection.RunsAreSane | capture/sniffer.py:162-227 | Over every run session and dead never both hold, nothing waits under either, and held bytes stay within 32 MiB |
| Connection.FewSearches | capture/sniffer.py:195-208 | Over every run on one connection at most 3 key searches are made |
| Connection.RecoversIff | capture/sniffer.py:195-208 | For a reply time below 2^63, a recovery starts the session if and only if one of the messages it may still try has its key inside the window, and otherwise is dead at 3 tried |
| Connection.RecoversWithFirst | capture/sniffer.py:195-208 | The waiting messages are tried in order, and the session key is that of the first that has one |
| Connection.RecoverOutcomes | capture/sniffer.py:195-227 | A recovery starts the session, gives up, or changes nothing but its count |
| Connection.SessionStartCounts | capture/sniffer.py:214-227 | When the session starts each waiting message becomes one command or one broken message, and none is left waiting |
| Connection.ReplayReadsBack | capture/sniffer.py:220-226 | A replay of messages sent under its key gives them as they were, in order, each from its own side |
| Connection.DecryptAgrees | capture/sniffer.py:162-237 | One message adds exactly one place to the ledger and moves waiting ones only on a recovery |
| Connection.EveryMessageIsAccountedFor | capture/sniffer.py:162-227 | Over every run each message is exactly once handed out, broken, waiting, dropped over the cap, too short, or lost with a dead connection; commands are the dispatch key's and then the session key's, each in arrival order |
| Sniffer.Sniffer.FeedPacket | capture/sniffer.py:132-160 | The branches on ports, handshake, login and dead connection; the new state and commands are those of the feed function |
| Sniffer.PacketsKeepToTheirSide | capture/sniffer.py:132-160 | A packet is the server's if and only if it comes from port 22101 or 22102; it adds messages of that side only and leaves the other side's stream and messages as they are |
| Sniffer.OpensIff | capture/sniffer.py:133-147 | A packet opens a connection if and only if it has one of the ports, 1 to 20 bytes, and zeros up to a 255 in its first four |
| Sniffer.OthersAreIgnored | capture/sniffer.py:132-153 | Segments are taken in if and only if a port is 22101 or 22102, the packet has more than 20 bytes, a login was seen and the connection lives; any other packet but an opening one changes no stream and gives no command |
| Sniffer.FlagsStay | capture/sniffer.py:100-153 | When a login counts as seen or as missed; an opening packet starts the connection afresh but for what was broken and decrypted, which are never taken back |
| Sniffer.NewStreamTakesFirst | capture/sniffer.py:154-156 | A stream takes the number of its first packet's first segment, so that segment is its own |
| Sniffer.Sniffer.ResetAll | capture/sniffer.py:100-110 | A reset drops the streams and starts a new connection, keeping the counts of skipped gaps and broken messages |
| Sniffer.Sniffer.DecryptOne | capture/sniffer.py:162-193 | Dispatch key, parse, session, cap and recovery in the source's order |
| Sniffer.Sniffer.RecoverSession | capture/sniffer.py:195-208 | The loop over waiting messages is the recovery function, one search a try |
| Sniffer.Sniffer.BeginSession | capture/sniffer.py:214-227 | Waiting messages that parse are replayed in arrival order, the others counted broken |
| Sniffer.Sniffer.TakeCommand | capture/sniffer.py:229-237 | Seed halves and time are taken from the server's messages before a session only |
| Sniffer.ConnectionIsRun | capture/sniffer.py:132-160 | After any packets, the connection is the run of the messages that reached it since the last opening handshake |
| Sniffer.EveryRunIsAccountedFor | capture/sniffer.py:132-237 | After any packets the connection's invariant holds and each of those messages is accounted for once |
| Sniffer.StreamsAreRuns | capture/sniffer.py:154-158 | Each direction's stream is the run of the datagrams it took, and gave that direction's messages |
| Sniffer.DecryptedInSenderOrder | capture/sniffer.py:41-160 | If a direction's segments are one sender's, its messages reach the connection whole and in the sender's order: all that were passed but those that end in a skipped number |
| Sniffer.SkippedNeverDrops | capture/sniffer.py:100-130 | No packet lowers the count of skipped gaps, and a handshake keeps it |
| Crc16.DivisionHolds | stages/hca.py:19-37 | Long division by the polynomial leaves a quotient and remainder that rebuild the dividend |
| Crc16.RemainderIsUnique | stages/hca.py:19-37 | The remainder is the only polynomial below degree 16 that differs from the dividend by a multiple of the divisor |
| Crc16.RegisterIsRemainder | stages/hca.py:19-28 | Bringing bits in at the top of the register computes the remainder of the bits followed by sixteen zeros |
| Crc16.Crc16Table | stages/hca.py:19-28 | The bitwise loops make the checksum of every single byte |
| Crc16.Checksum | stages/hca.py:33-37 | For every byte string the table-driven loop computes the remainder of polynomial division |
| Crc16.CrcOfOneMore | stages/hca.py:33-37 | One table step takes the checksum of a string to that of the string with one more byte |
| Crc16.ResidueIsZero | stages/hca.py:169-193 | A byte string followed by its own checksum, high byte first, has checksum zero |
| Crc16.CheckValue | tests/test_hca.py:140-143 | The checksum of the characters 1 to 9 is 0xFEE8 |
| CipherTable.CreateTable56 | stages/hca.py:40-50 | The in-place steps are the iterates of the key byte's generator |
| CipherTable.ParametersInBits | stages/hca.py:42-43 | Multiplier and increment are the source's expressions in the bits of the key byte |
| CipherTable.NextInBits | stages/hca.py:42-48 | One step is the product and sum of bytes, cut to the low nibble |
| CipherTable.Table56IsPermutation | stages/hca.py:40-50 | For every key byte the sixteen nibbles are a permutation of 0 to 15 |
| CipherTable.RowKeysGoRound | stages/hca.py:55-74 | The sixteen row keys are the bytes 1 to 6, each alone and XORed with its neighbours in a ring, in that order |
| CipherTable.ReferenceKeyBytes | tests/test_hca.py:78-86 | Taking the key in two 32-bit halves with a borrow between them, as the program ported does, gives the same seven bytes |
| CipherTable.JoinedInBits | stages/hca.py:80-83 | In the joined table the first table's nibble lies above the row's |
| CipherTable.JoinedIsDistinct | stages/hca.py:76-83 | The joined table is a permutation of the bytes for every key |
| CipherTable.WalkIsDistinct | stages/hca.py:88-89 | The stride of 17 meets no index twice in 256 steps |
| CipherTable.WalkOrder | stages/hca.py:85-93 | Entries 1 to 254 are the joined table's bytes at indices 17, 34 and so on modulo 256, in that order, with 0 and 255 passed over |
| CipherTable.KeptFits | stages/hca.py:85-93 | At no step of the walk does the fill run past index 254 |
| CipherTable.BuildCipherTable | stages/hca.py:53-98 | The walk fills entries 1 to 254 exactly, and the table is that of the key |
| CipherTable.CipherTableIsPermutation | stages/hca.py:53-98 | For every key the table is a permutation of the bytes that fixes 0 and 255 |
| CipherTable.SameTableForSameLowBits | stages/hca.py:53-54 | Keys that agree modulo 2^56, such as 0 and the wrapped 2^56, have one table |
| CipherTable.TranslationLooksUp | stages/hca.py:176-177 | Each byte is replaced by the entry of the key's table at that byte |
| CipherTable.TranslationIsInjective | stages/hca.py:176-177 | Translated data are equal only for equal data |
| CipherTable.TranslationIsSurjective | stages/hca.py:176-177 | Every byte string is the translation of one |
| Hca.Hca.UpdateHeaderCrc | stages/hca.py:169-170 | The header ends with the checksum of the rest, nothing else in it changes, and its residue is zero |
| Hca.Hca.Decrypt | stages/hca.py:172-181 | The data goes through the key's table once, the header's cipher type becomes 0 and the header is sealed again; a plain file stays as it is |
| Hca.Hca.BlockChecksums | stages/hca.py:186-192 | Feeding in byte 0 of every block, then byte 1 and so on gives the checksum of each block, for every block size of at least 2 |
| Hca.Hca.Save | stages/hca.py:183-197 | Every whole block gets its checksum and nothing else changes; the file is the header and that data |
| Hca.SavedBlocksHaveNoResidue | stages/hca.py:186-193 | Every saved block, its appended checksum included, has residue zero and keeps its other bytes |
| Proto.VarintReadsBackIff | capture/proto.py:6-17 | A varint reads back if and only if it is below 2^70 |
| Proto.Varint | capture/proto.py:6-17 | The loop gives the value and the position after it, or nothing where the source raises |
| Proto.FieldsRoundTrip | capture/proto.py:25-54 | Reading undoes the encoder for every list of fields with number at least 1 and wire types 0, 1, 2 and 5 |
| Proto.FieldsTileInput | capture/proto.py:25-54 | An accepted input falls into one piece per field, each of which reads as that field and nothing more |
| Proto.OneField | capture/proto.py:33-48 | One turn of the loop reads one field, which may run past the data |
| Proto.Fields | capture/proto.py:25-54 | The loop gives the varints and strings of a message in order, and none of bytes that are not one |
| FindKeys.StringsAreParts | capture/proto.py:41-44 | Every string of a message is a strictly shorter part of it |
| FindKeys.NoRunNoKeys | capture/proto.py:82-84 | At any nesting depth, a message without eight digits in a row holds no key |
| FindKeys.PruningChangesNothing | capture/proto.py:76-104 | The search with the eight-digit test and the one without return the same list for every byte string |
| FindKeys.ParentQuestIsOnlyParent | capture/proto.py:57-65 | The parent quest is the only number of the record that a nested number divided by 100 gives, and there is none if several are |
| FindKeys.ParentQuestOf | capture/proto.py:57-65 | The loops give that parent quest |
| FindKeys.FindKeys | capture/proto.py:76-104 | The recursion ends, and gives the keys of the message and then those of its nested messages |
| FindKeys.OwnKeysIff | capture/proto.py:86-101 | A message holds a key of its own if and only if just one string is a decimal number below 2^64, it is 10^7 or more, at most one is 32 hexadecimal digits, and there is that one or just one parent quest; the key is made of those |
| FindKeys.FoundIff | capture/proto.py:84-104 | A key is found if and only if the message holds it itself or it is found in a string that is neither hexadecimal nor decimal |
| FindKeys.DecimalReadsBack | capture/proto.py:97 | A number written in decimal reads back |
| UsmChunks.ReadChunks | stages/usm.py:64-85 | The walk with its moving position yields the chunks and the ending of the specified walk |
| UsmChunks.WalkReadsBack | stages/usm.py:45-85 | The walk undoes the chunk writer for any offsets and padding, padding of the last chunk beyond the end of the file included |
| UsmChunks.ChunksTileFile | stages/usm.py:57-85 | The chunks yielded tile the file from its start, each over exactly the bytes its header declares and with its whole payload; the walk stops where they end |
| UsmChunks.HeaderLayout | stages/usm.py:50-51 | Where each field of the header lies, numbers highest byte first |
| UsmChunks.HeaderReadsBack | stages/usm.py:54-55 | A packed header reads back field by field |
| Demux.Demux | stages/usm.py:226-271 | Each stream is the decrypted payloads of its chunks in file order, files are opened in the order of their first chunks, and each unknown signature is warned about once |
| Demux.CreatedAtFirstChunk | stages/usm.py:242-247 | A file is created if and only if a chunk of it comes, once, at the first of them |
| Demux.DemuxUndoesTheWriter | stages/usm.py:64-271 | A file written from plain payloads under the old mask or a stream cipher demuxes to exactly those payloads, stream by stream, with any offsets and padding |
| Demux.MaskOpensChain | stages/usm.py:192-224 | The old mask opens what the forward chain closes, so the writer's theorem holds of it |
| Demux.TargetIs | stages/usm.py:250-258 | A data chunk signed `@SFV` goes to the video file, one signed `@SFA` to the audio file of its channel, and no other chunk to any |
| Demux.WarnedOnce | stages/usm.py:234-262 | Each signature that comes and is none of the five known ones is warned about once, and no other is |
| Install.InstallBundle | utils/update.py:197-217 | For any members and faults, the files and the ending are those of the specified install |
| Install.InstallAll | utils/update.py:205-214 | The body of the `try` up to its first error, entry by entry |
| Install.RollBack | utils/update.py:180-194 | The rollback goes through the entries in order and past the steps that fail |
| Install.InstallEnds | utils/update.py:197-217 | For orderly members: all there and every replaced file backed up on success, every replaced file backed up if an error escapes, each entry put back where its undo worked |
| Install.RollbackRestoresIff | utils/update.py:180-217 | Every OSError rolled back without fault restores all files, whatever the members hold, if and only if the targets are safe: replaced files are replaced once, their `.old` names are free and no targets, and a repeated new target's `.old` name is free and an earlier target |
| Install.RollbackLeaves | utils/update.py:180-217 | For orderly members such a rollback leaves every file as it was but for the `.old` names that backups took, which are gone |
| Install.UnsafeIsNotRestored | utils/update.py:180-217 | For unsafe targets there are members and one OSError after which a rollback without fault does not restore the files |
| Install.NewTargetsGo | utils/update.py:180-190 | A rollback without fault leaves no new file of orderly members, whatever state it starts from |
| Install.SuccessInstallsAll | utils/update.py:206-214 | Without faults, for orderly members, every target is there and holds what the members put there last, as its own bytes or as those of a repeated target set aside there; every replaced file is under its `.old` name, and no other file has changed |
| Install.NothingIsLost | utils/update.py:180-217 | Whatever fails, rollback included, for orderly members the bytes of every file whose name no backup takes are under its own or its `.old` name |
| Install.SameTargetTwiceIsNotRestored | utils/update.py:207-214 | With one target twice the rollback leaves the first member's bytes |
| Install.MemberNamedOldLosesTheFile | utils/update.py:180-214 | With a member under the `.old` name of another the rollback deletes the backup |
| Install.BadArchiveEscapes | utils/update.py:214-217 | An error that is no OSError leaves the file away from its name |
| Install.EscapeLeavesAllIff | utils/update.py:206-217 | An install that ends in such an error leaves all files as they were, whatever they and the members hold, if and only if the error came before the first member touched anything |
| Install.RepeatedNewTargetIsSafe | utils/update.py:207-214 | A new target may come twice if its `.old` name is one of the new files before, and not otherwise |
| CommandChannel.JsonReporter.PopLine | utils/reporter/json.py:113-118 | The bytes before the first newline, which is removed with them, or nothing and no change |
| CommandChannel.JsonReporter.TakeNext | utils/reporter/json.py:120-130 | The blocking read of one line, from pipe or console, with the chunks it used |
| CommandChannel.JsonReporter.AskQuestion | utils/reporter/json.py:132-151 | The question's answer and the state it leaves are those of the specified loop |
| CommandChannel.JsonReporter.DrainCommands | utils/reporter/json.py:172-190 | Everything waiting is read and every complete line taken, up to a hang-up |
| CommandChannel.JsonReporter.TakeSkip | utils/reporter/json.py:164-170 | A pending skip is compared with the current file and used up |
| CommandChannel.JsonReporter.StopHere | utils/reporter/base.py:39-43 | The two looks of a checkpoint in order |
| CommandChannel.AskKeeps | utils/reporter/json.py:132-151 | A question is decided by the first line that cancels or answers it, else by its default, and takes no line once cancelled |
| CommandChannel.AskReadsOn | utils/reporter/json.py:140-151 | A question reads on past lines that do not decide it until one does or the input ends, and then no complete line is left |
| CommandChannel.QuestionsAreNumbered | utils/reporter/json.py:136-138 | Each question put has the next number |
| CommandChannel.DrainKeeps | utils/reporter/json.py:172-190 | A drain loses no byte, leaves no complete line behind, and does nothing once cancelled |
| CommandChannel.DrainReads | utils/reporter/json.py:178-186 | A drain reads what each look finds, up to one that finds nothing or a hang-up, which alone ends the pipe |
| CommandChannel.LinesInOrder | utils/reporter/json.py:113-190 | Over any chunking and any interleaving the lines taken are the first lines of the bytes read, in order, none lost and none twice |
| CommandChannel.CancelStays | utils/reporter/json.py:153-190 | The reporter is cancelled if and only if a cancel was taken or a hang-up counts as one, and stays so |
| CommandChannel.SkipIsForCurrentFileOnce | utils/reporter/json.py:108-170 | A skip is granted if and only if the last one taken since the request before names the file of the last job start |
| CommandChannel.CheckpointOutranks | utils/reporter/base.py:39-43 | A checkpoint reports a cancel exactly if its first look sees one, and then uses up no skip; it reports a skip exactly if none was seen and the last skip since the request before names the current file |
| CommandChannel.LateCancelLosesOnce | utils/reporter/base.py:39-43 | A cancel that comes between the two looks loses to a pending skip once |

## Left out

- Vectors of candidates and seeds: numpy works on all columns at once; the model has one column at a time, which each column is independent of.
- `argpartition` and `argmax`: ties may fall either way in the model, so nothing depends on how numpy breaks them.
- CrackStats.WeightsPositive: the ratio of pair weights is taken over reals, so floating-point rounding at exact ties is not modelled.
- Sampling (`collect`): dealing payloads to two pools by digest and the size budget are not modelled; the statistics are proved for any pools.
- That real video makes the true key win, or that two halves agree only on it, is a matter of statistics, not of the code.
- `dotnet_random`: the five draws of a clock are a parameter, because their last step is floating point.
- SessionKey.FindSessionKey: a reply time of 2^63 or more, which numpy cannot add to its offsets, is not modelled as an error.
- SessionKey.SearchIsSoundAndComplete: says nothing of such a time, and neither do Connection.RecoversIff and SearchOrder.SearchReturnsFirst; the source's error would end the capture.
- SearchOrder.FartherKeyReturnedIff: no three seeds are exhibited, and for SearchOrder.FartherClockTakenIff no two, since that takes evaluating the generator.
- RSA, base64 and AES: `server_seeds` and `decrypt_stream` are parameters; the nonce's table in the video header (`read_utf`) is not modelled.
- Log lines and events of the sniffer, and `finish`, which reports and drops what still waits when a capture ends.
- Capture backends, TCP and UDP framing, and the matching of captured keys to files.
- HCA header parsing (`read_header`): the model starts from the cipher type, its offset and the block size it finds.
- Hca.Hca.Save: a block size of 1, for which the source's array shapes do not fit and `save` raises, is excluded.
- Demux: file handles, progress, the checkpoint every 100 chunks, and output folders.
- Install: folders made on the way stay after a rollback, and a target that is a folder is not modelled; archive names are taken as already resolved to targets.
- CommandChannel: JSON and the decoding of lines are parameters, since the blocking reader decodes and strips a line before parsing it and the other does not; events written by the reporter are left out.
- The rest of `resources/keys.py`: files, downloads and lookups of keys.
- ffmpeg, VapourSynth, fonts, subtitles, HTTP, the registry, locales, the console and the command line, whose meaning lies in other programs or which only pass things on.

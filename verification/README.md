# A model of the server's self-contained cores

This project models the parts of the repository whose correctness is a matter of logic rather
than of calls into unseen engine types, and proves what they promise, for all inputs, all runs
or all reachable states. Code that works step by step is a method or a class, proved against a
specification; what is promised is then proved of the specification or stated outright in the
method's contract. `dafny verify dfyconfig.toml` checks everything.

| files | what they model |
|---|---|
| `Bytes` | bytes, fixed-width words, byte order |
| `AdtChunks`, `AdtMcnk`, `AdtFile`, `AdtCheck`, `AdtPatch`, `AdtTool`, `AdtMeaning`, `AdtRules`, `AdtExample` | the tool that splices doodad references into terrain files and relocates three layers of offsets, and the reader that gives the offsets their meaning |
| `RequestQueue`, `RequestProof`, `RequestLimits`, `RequestRules` | the rate-limited REST queue as an interleaved step system with its history |
| `Etf`, `EtfProof`, `EtfBlocks`, `EtfBack`, `EtfForms`, `EtfCodec`, `EtfParser` | the Erlang External Term Format: format functions, round trip and what empty arrays do to it, every form from its bytes, writer over a growing buffer, parser over an offset |
| `WebSocket`, `WebSocketReceive`, `WebSocketSend`, `SendPump` | frames in and out, and the send half of the socket loop under partial writes |
| `HttpChunks` | the chunked-body state machine |
| `Voice` | the wrap-around comparison of sequence numbers and the flush loop |
| `Cameras` | cameras and the objects they look through, with lists changed while they are iterated |
| `Conditions`, `ConditionTable`, `ConditionRules`, `ConditionPlayer` | condition trees: evaluation, loading, use without a player |
| `CreatureGroups` | leaders, options and re-entrant respawning |
| `Utf8` | the two UTF-8 scanners against the encoding of RFC 3629 |
| `InstanceLimiter` | the hourly instance limit |
| `Permissions` | guild and channel permissions, bit by bit |

Where the code falls short of what is expected of it, the code is modelled as it is and the
exact condition is proved:

- An empty array is written as a nil and then a list, of which only the nil is read for it
  (`EtfBack.EmptyArrayLeavesBytes`). A message comes back unchanged with all its bytes read if and
  only if the value holds no empty array, no empty object and only integers of 32 signed bits
  (`EtfBack.MessageTrip`). The parser ignores what is left over, so some values with empty arrays
  come back as well: `EtfBack.BackExactly` says which, and an array of empty arrays does if and only
  if their number is even (`EtfBack.EmptyArraysByParity`).
- The end of an incoming WebSocket frame is a 64-bit sum that nothing keeps from wrapping. A frame whose
  length wraps is handed on before its payload is there, so how the bytes are split matters, exactly
  then (`WebSocket.AnySplitExactly`), and the frames handed on are no longer those of the standard
  (`WebSocketReceive.ReceivesRfcFrames`). For one length, as for masked frames, the loop does not end
  (`WebSocket.EndlessExactly`, `WebSocket.TenBytesNeverEnd`).
- `utf8substr` passes a byte offset where a byte count is expected, and adds start and length in 64
  bits. Its result is right if and only if nothing is asked for, it begins at the start or behind the
  end, or it reaches the end of the text; where the sum wraps, if and only if as many bytes lie before
  the wrapped end as are asked for (`Utf8.SubstrExactly`, `Utf8.WrapCutsShort`).
- The sequence comparison is right on every window of a length if and only if the length is at most
  5000 (`Voice.BoundaryIsExact`); `Voice.OrdersExactly` gives the exact windows. The comment in
  `dep/dpp/discordvoiceclient.cpp:92-103` argues the same in words.
- The load-time check of conditions ignores the third and fourth value of a negation. Loaded tables
  refer to lower entries only if and only if those values do (`ConditionTable.LoadedWellFounded`); a
  negation that asks itself is loaded, and evaluating it does not end
  (`ConditionTable.SelfNegationNeverEnds`).
- `CanBeUsedWithoutPlayer` does not see swap flags or third and fourth children. A condition it accepts
  needs no target if and only if neither hides a leaf that looks at it
  (`ConditionPlayer.AcceptedExactly`, with `SwapIsNotSeen` and `ThirdChildIsNotSeen`).
- When a viewed object leaves the world, a camera whose owner is itself out of the world stays
  behind in its list (`Cameras.WorldObject.EventRemovedFromWorld`, `Cameras.StaysBehind`).

## Model
| member | source | states |
|---|---|---|
| AdtChunks.ChunksOfEncode | client/ManTechThornGorge/build_bridge_adts.py:17-23 | for every storable chunk list, splitting what was serialised gives back the tags and payloads, each at the position the serialiser put it |
| AdtChunks.EncodeOfChunks | client/ManTechThornGorge/build_bridge_adts.py:17-23 | for every file the parser accepts, serialising what it found gives back the file byte for byte |
| AdtChunks.ParseAfterEncode | client/ManTechThornGorge/build_bridge_adts.py:17-22 | the same from any position on in a file, with other bytes in front |
| AdtChunks.EncodeAfterParse | client/ManTechThornGorge/build_bridge_adts.py:17-23 | the same from any position on in a file |
| AdtChunks.ParsedPos | client/ManTechThornGorge/build_bridge_adts.py:17-22 | the position the parser records for a chunk is the sum of the sizes of those before it |
| AdtChunks.OffsetsIncrease | client/ManTechThornGorge/build_bridge_adts.py:61-62 | a later chunk starts at least eight bytes after an earlier one, so no two old positions collide as dictionary keys |
| AdtMcnk.RewriteElsewhere | client/ManTechThornGorge/build_bridge_adts.py:56-58 | an offset pass leaves every byte outside the fields it rewrites as it was |
| AdtMcnk.RewriteAt | client/ManTechThornGorge/build_bridge_adts.py:56-58 | each rewritten field holds what its old value maps to, and a zero field stays zero, whatever the other fields of the pass did |
| AdtMcnk.FieldsAreHeaderFields | client/ManTechThornGorge/build_bridge_adts.py:56 | the offsets the splice loop moves are the words at 20, 24, 28, 32, 36, 44, 88, 96 and 116 of the cell header and no others, separate words that include offsMCRF |
| AdtMcnk.SpliceFrame | client/ManTechThornGorge/build_bridge_adts.py:50-58 | every byte of a cell that is not a rewritten word is still there, shifted by the inserted length if it was behind the insertion |
| AdtMcnk.SpliceGap | client/ManTechThornGorge/build_bridge_adts.py:53-55 | the new references stand at the insertion point, and the two counters hold the new totals |
| AdtMcnk.SpliceField | client/ManTechThornGorge/build_bridge_adts.py:56-58 | each offset field moves by the inserted length exactly if it addressed bytes at or behind the insertion |
| AdtMcnk.SubchunkPreserved | client/ManTechThornGorge/build_bridge_adts.py:45-58 | every nonzero offset whose subchunk lies past the header and clear of MCRF addresses byte-identical content after the splice |
| AdtMcnk.CountsSpliced | client/ManTechThornGorge/build_bridge_adts.py:51-55 | after the splice the doodad count, the map-object count, the MCRF position and the MCRF size agree with each other |
| AdtMcnk.ReferencesSpliced | client/ManTechThornGorge/build_bridge_adts.py:50-55 | MCRF becomes the old doodad references, then the new ones, then the old map-object references |
| AdtMcnk.RewriteSucceeds | client/ManTechThornGorge/build_bridge_adts.py:56-58 | an offset pass goes through if and only if every nonzero field, as it was before the pass, can move |
| AdtMcnk.SpliceSucceeds | client/ManTechThornGorge/build_bridge_adts.py:45-58 | the splice goes through if and only if the MCRF tag and size agree with the counters and no count, size or moved offset outgrows 32 bits; otherwise the tool stops |
| AdtMcnk.SmallestCellSplices | client/ManTechThornGorge/build_bridge_adts.py:45-58 | a cell with an empty MCRF takes any number of references that fits |
| AdtCheck.CheckSurvives | client/ManTechThornGorge/build_bridge_adts.py:75-83 | a cell that passes the tool's check and whose subchunks are clear of MCRF passes it again after the splice, against the larger reference limit |
| AdtFile.RebaseParts | client/ManTechThornGorge/build_bridge_adts.py:61-70 | rebasing changes the payloads of MHDR and MCIN alone |
| AdtFile.HeaderRebased | client/ManTechThornGorge/build_bridge_adts.py:61-66 | each nonzero MHDR word of the rebased file is the distance from the new MHDR payload to the new position of the chunk it named |
| AdtFile.CellRebased | client/ManTechThornGorge/build_bridge_adts.py:67-70 | each nonzero MCIN cell of the rebased file holds the new position and the new size of the map chunk it named |
| AdtPatch.NamesResolve | client/ManTechThornGorge/build_bridge_adts.py:36-39 | every existing model name index still resolves to the same name after the table is extended |
| AdtPatch.NewNameResolves | client/ManTechThornGorge/build_bridge_adts.py:36-39 | the entry added to the name index resolves to the appended name |
| AdtMeaning.NewRecordReads | client/ManTechThornGorge/build_bridge_adts.py:39-43 | entry number old count plus j of the extended placement table, of whole 36-byte entries, carries the given name index and the id and posture of the j-th new placement |
| AdtMeaning.NewReferencesResolve | client/ManTechThornGorge/build_bridge_adts.py:36-58 | for every written tile and every reference a cell gained: the reader follows it to an entry of the placement table with the id and posture of the placement that touches the cell, and from its name index through both name tables to the appended name |
| AdtMeaning.SplicedCellKept | client/ManTechThornGorge/build_bridge_adts.py:45-58 | of a spliced cell every byte outside the words at 20, 24, 28, 32, 36, 44, 88, 96 and 116, the doodad count at 16 and the MCRF size is still there, in order; each of those nine words counts on by the inserted length exactly if it is set and leads to the insertion point or behind, and each subchunk that lies clear of MCRF is found where its word now says |
| AdtMeaning.EverythingKept | client/ManTechThornGorge/build_bridge_adts.py:3 | for every written tile, chunk by chunk: cells that gained no reference are identical and cells whose MCRF lies past the header keep all content, placements and name index are extended only, names keep all but trailing NULs, header and cell index change in their offset words only, and every other chunk is identical |
| AdtExample.TinyTilePatches | client/ManTechThornGorge/build_bridge_adts.py:29-84 | a tile with one cell, one model and one new placement, with header, index and cell offsets in use, is written by the tool and meets the conditions of the theorems on written tiles |
| AdtPatch.EditSlots | client/ManTechThornGorge/build_bridge_adts.py:36-58 | appending names and placements and splicing cells keeps the number, order, tags and recorded positions of all chunks |
| AdtPatch.PatchIsPatched | client/ManTechThornGorge/build_bridge_adts.py:29-71 | any file the tool writes is the serialisation of the edited and rebased chunks of the file it read |
| AdtPatch.HeaderKeepsMeaning | client/ManTechThornGorge/build_bridge_adts.py:60-66 | for every written file and each of the ten MHDR words: a zero word stays zero, and a nonzero word, resolved as the reader does, lands on the start of the same chunk with the same tag, where re-parsing the output finds it |
| AdtPatch.McinStaysAt84 | dep/loadlib/adt.h:173-179 | with the standard head MCIN starts at file offset 84 before and after, which the reader's cell lookup takes for granted |
| AdtPatch.CellsKeepMeaning | dep/loadlib/adt.h:173-179 | for every written file and each MCIN cell: zero stays zero, and a nonzero offset, resolved by the reader's rule, lands on the start of the same map chunk, whose new size the cell states |
| AdtPatch.SelfCheckPasses | client/ManTechThornGorge/build_bridge_adts.py:71-83 | for every file whose cells pass the check beforehand and have their subchunks clear of MCRF, the check of the rebuilt file passes, so the tool writes exactly that file |
| AdtRules.WordMeans | client/ManTechThornGorge/build_bridge_adts.py:16 | a word of the file is four bytes, the lowest first |
| AdtRules.TagsSpell | client/ManTechThornGorge/build_bridge_adts.py:29-69 | the chunk tags in the bytes of the file: the letters of each name in reverse |
| AdtRules.FileIsItsChunks | client/ManTechThornGorge/build_bridge_adts.py:17-23 | a file that can be read is exactly its chunks: tag, size and payload at the recorded position, each where the one before it ends, the last one at the end of the file |
| AdtRules.AppendsExactly | client/ManTechThornGorge/build_bridge_adts.py:36-39 | where nothing but NULs follow the last listed name, a name is appended behind it if and only if there are as many NULs up to there as index entries and its position fits 32 bits; the old names and index stay in front |
| AdtRules.AppendsOnlyThere | client/ManTechThornGorge/build_bridge_adts.py:36-38 | in any other case nothing is appended: the tool stops |
| AdtRules.AddsExactly | client/ManTechThornGorge/build_bridge_adts.py:36-43 | placements are added if and only if the name can be appended, its number fits 32 bits and no new id is in the id field of an existing entry |
| AdtRules.EditsExactly | client/ManTechThornGorge/build_bridge_adts.py:36-58 | the edits of a tile go through if and only if the placements can be added and every cell takes the references to those that touch it |
| AdtRules.RebasesExactly | client/ManTechThornGorge/build_bridge_adts.py:60-70 | the offsets of a tile with a whole header and index go through the rebasing if and only if each set word of the header leads to a chunk and each set cell to a map chunk whose new distance, position and size fit 32 bits |
| AdtRules.RebuildsExactly | client/ManTechThornGorge/build_bridge_adts.py:59 | a tile is rebuilt if and only if edits and rebasing go through, every payload size fits 32 bits and some cell refers to each new placement id |
| AdtRules.CheckMeans | client/ManTechThornGorge/build_bridge_adts.py:75-83 | the tool's check of a cell: each of eight words, if set, leads to the four bytes of its tag, the MCRF size agrees with both counts, and every doodad reference is below the limit |
| AdtRules.WritesExactly | client/ManTechThornGorge/build_bridge_adts.py:71-84 | a rebuilt tile is written if and only if something is placed on it, each set offset of its header leads to the start of a chunk, and every cell passes the check with the number of placements there now are as the limit |
| AdtTool.ParseChunks | client/ManTechThornGorge/build_bridge_adts.py:17-22 | the parsing loop fills mutable records that read as the parsed chunks, or fails where parsing does |
| AdtTool.IndexByTag | client/ManTechThornGorge/build_bridge_adts.py:29 | the dictionary maps each tag but MCNK to the record of the last chunk with that tag, shared with the list |
| AdtTool.RewriteInPlace | client/ManTechThornGorge/build_bridge_adts.py:56-58 | one offset pass over a record's own payload does what the rewriting function says, and fails where that fails |
| AdtTool.SpliceInPlace | client/ManTechThornGorge/build_bridge_adts.py:50-58 | the insertion into a record's own payload gives the spliced cell |
| AdtTool.Serialize | client/ManTechThornGorge/build_bridge_adts.py:23 | the join of all records is the encoding of what they read as |
| AdtTool.AddPlacementsInPlace | client/ManTechThornGorge/build_bridge_adts.py:36-43 | edits made through the dictionary show in the list: names, index and placements are those of the specification |
| AdtTool.SpliceAllInPlace | client/ManTechThornGorge/build_bridge_adts.py:45-58 | the loop over all cells splices each touched cell and no other record |
| AdtTool.Layout | client/ManTechThornGorge/build_bridge_adts.py:61-67 | the layout loop computes the new positions by old position, the new sizes by old position, and the old position of the first MHDR |
| AdtTool.RebaseInPlace | client/ManTechThornGorge/build_bridge_adts.py:60-70 | rebasing through the dictionary changes the two shared records to the rebased payloads |
| AdtTool.PatchTile | client/ManTechThornGorge/build_bridge_adts.py:29-84 | the whole imperative tool, with its aliased records and its reference counts merged by placement id, returns exactly the specified patch, or nothing where the original stops |
| RequestProof.StepKeeps | dep/dpp/queues.cpp:242-414 | one atomic step of any poster, worker or the callback thread keeps the joint invariant of queues, snapshots, buckets, responses and history |
| RequestProof.RunKeeps | dep/dpp/queues.cpp:242-414 | the invariant holds after every interleaving of any length, from the start, for any pool size |
| RequestProof.PostingOrder | dep/dpp/queues.cpp:264-315 | in every interleaving, the runs of an endpoint's requests are a prefix of its posts and the callbacks a prefix of its runs, in posting order, each request at most once |
| RequestProof.CompletedPrefix | dep/dpp/queues.cpp:318-334 | the completed requests still in an endpoint's queue always form a prefix of it |
| RequestProof.OnePlace | dep/dpp/queues.cpp:60-64 | each posted request is in exactly one of: queued and not run, run and on its way to its callback, called back |
| RequestProof.PurgedQueue | dep/dpp/queues.cpp:318-334 | dropping completed requests from the live queue leaves exactly the posted requests that were not dropped or run yet, in order |
| RequestLimits.LimitsKept | dep/dpp/queues.cpp:264-305 | in every interleaving each run follows no earlier run on its endpoint, or the recorded fields of that run's reply: something remained, or the clock had passed the time of recording plus the delay asked for, as a 64-bit sum |
| RequestLimits.RateLimited | dep/dpp/queues.cpp:270-305 | between two consecutive runs on one endpoint the first reply is recorded; the second runs only if that reply left a request, or later than the time of recording plus its retry delay or, where that is zero, its reset delay, as a 64-bit sum |
| RequestRules.RunsExactly | dep/dpp/queues.cpp:264-294 | a worker runs the next request if and only if its endpoint has no bucket, the bucket has something left or its delay is over, and leaves the whole endpoint for this pass otherwise; a run is completed and recorded with clock and reply |
| RequestRules.NotesExactly | dep/dpp/queues.cpp:296-305 | a reply is recorded under the endpoint of its request, field by field, with the clock, and sets the global limit to the delay it asks for |
| RequestRules.StartsExactly | dep/dpp/queues.cpp:249-262 | an idle worker starts a pass only without a global limit and sleeps with one, which is lifted when it wakes; a pass holds every queue once with all its requests |
| RequestRules.StartsUnlimited | dep/dpp/queues.cpp:249-262 | without a global limit an idle worker can start a pass, in any order of its queues |
| RequestRules.PurgesExactly | dep/dpp/queues.cpp:318-334 | at the end of a pass each queue keeps, in order, the requests not completed |
| RequestRules.RepliesInTurn | dep/dpp/queues.cpp:308-376 | responses are queued behind the others, taken from the front and handed on if their request is completed |
| RequestRules.PostsExactly | dep/dpp/queues.cpp:383-414 | a posted request goes to the end of its endpoint's queue at the worker its hash says, and nothing else changes |
| RequestRules.HashIsPolynomial | dep/dpp/queues.cpp:401-407 | the hash is the polynomial in 31 with 17 and the signed characters as coefficients, modulo 2^32 |
| RequestRules.HashStopsAtNul | dep/dpp/queues.cpp:404 | nothing behind the first NUL matters |
| RequestLimits.Hash | dep/dpp/queues.cpp:401-407 | the hash loop over signed characters with 32-bit wrap-around, up to the first NUL |
| RequestLimits.FindCompleted | dep/dpp/queues.cpp:320-331 | the nested search finds a completed request with no completed one before it in its queue or in an earlier queue, or there is none |
| RequestLimits.Purge | dep/dpp/queues.cpp:318-334 | the restart-after-each-erase loop ends and leaves every queue with its uncompleted requests in order |
| EtfProof.Trip | dep/dpp/etf.cpp:275-365 | for every value with no empty array inside, at any nesting and in front of any bytes: reading what was written gives its echo and consumes exactly the bytes written |
| EtfProof.EchoIsSame | dep/dpp/etf.cpp:640-717 | the echo is the value itself if and only if all its integers fit 32 signed bits and no object in it is empty |
| EtfBack.BackExactly | dep/dpp/etf.cpp:333-365 | for every value, empty arrays included, and whatever follows it: it comes back as itself if and only if the block count says so, and then exactly those left-over empty arrays stand in front of what follows |
| EtfBlocks.BackClean | dep/dpp/etf.cpp:640-717 | a value comes back with nothing left over if and only if it holds no empty array, no empty object and no integer beyond 32 signed bits |
| EtfBack.MessageTrip | dep/dpp/etf.cpp:627-638 | for every value: a whole message comes back unchanged with all bytes read if and only if the value holds no empty array and survives; unchanged, with bytes left that the parser ignores, if and only if the block count says so; and without empty arrays always as its echo |
| EtfProof.IntTrip | dep/dpp/etf.cpp:641-654 | every integer comes back as itself, as its low 32 bits or as its decimal text, by the ranges the writer distinguishes |
| EtfProof.ListTrip | dep/dpp/etf.cpp:333-343 | a written list with its nil tail is read back as a list, in front of any bytes |
| EtfProof.FieldsTrip | dep/dpp/etf.cpp:353-365 | fields written in key order are read back in key order with their values |
| EtfBack.EmptyArrayLeavesBytes | dep/dpp/etf.cpp:680-696 | an empty array is written as a nil followed by a list, of which only the nil is read back |
| EtfBack.EmptyArraysByParity | dep/dpp/etf.cpp:333-343 | an array of any number of empty arrays comes back as itself if the number is even, and as null if it is odd |
| EtfCodec.EtfBuffer.Write | dep/dpp/etf.cpp:46-55 | the buffer's contents grow by exactly the bytes given, through any reallocation |
| EtfCodec.InnerBuild | dep/dpp/etf.cpp:640-710 | the recursive writer appends exactly the encoding to the buffer, or reports a part that is too large for a 32-bit count; it reports one if and only if there is one |
| EtfCodec.BuildText | dep/dpp/etf.cpp:712-717 | the message built is the format version and the encoding |
| EtfParser.Parser.ReadBits | dep/dpp/etf.cpp:225-259 | a fixed-width read gives the big-endian number and advances by its width, or fails at the end of the data without a read past it |
| EtfParser.Parser.ReadString | dep/dpp/etf.cpp:261-269 | a string read gives the bytes and advances past them, or fails |
| EtfParser.Parser.ReadBig | dep/dpp/etf.cpp:401-447 | a big integer of up to eight digits is read as the little-endian sum of its digits, with sign and the rules for its text, and one of more digits is refused |
| EtfParser.Parser.ReadList | dep/dpp/etf.cpp:333-343 | elements and the nil tail are consumed as the format function says |
| EtfParser.Parser.ReadMap | dep/dpp/etf.cpp:353-365 | pairs are consumed one by one, a later pair with a key already seen being dropped as the JSON container does |
| EtfParser.Parser.InnerParse | dep/dpp/etf.cpp:569-625 | for every byte string the recursive parser ends; it gives exactly what the format function does, whose meaning for each form the `EtfForms` rows state, fails exactly where that does, moves the offset forward only, by at least one byte if it returns a value, and never past the end |
| EtfParser.ParseMessage | dep/dpp/etf.cpp:627-638 | a message is parsed exactly as the format function says, and the bytes not consumed are those behind the term |
| EtfForms.OtherTags | dep/dpp/etf.cpp:569-625 | a tag byte outside the twenty known ones, and no bytes at all, are refused |
| EtfForms.Version | dep/dpp/etf.cpp:627-638 | a message is the byte 131 and a term; with any other first byte it is refused |
| EtfForms.SmallInteger | dep/dpp/etf.cpp:313-317 | tag 97 and a byte read as that number |
| EtfForms.Integer | dep/dpp/etf.cpp:319-323 | tag 98 and four bytes, highest first, read as the signed 32-bit number |
| EtfForms.NewFloat | dep/dpp/etf.cpp:391-399 | tag 70 and eight bytes read as that bit pattern |
| EtfForms.FloatText | dep/dpp/etf.cpp:367-389 | tag 99 and 31 bytes of text read as the number the library finds in them, or as null; fewer bytes read as null and stay |
| EtfForms.DecimalSpells | dep/dpp/etf.cpp:412-431 | the text of a number is the decimal digits that spell it, without leading zeros |
| EtfForms.BigInteger | dep/dpp/etf.cpp:401-447 | tags 110 and 111 with one and four bytes of count: up to eight digits, lowest first, read as the decimal text of the number, with a sign up to 2^63 in size, and a negative one beyond that as the text of its difference from 2^64; more digits are refused |
| EtfForms.Atom | dep/dpp/etf.cpp:275-311 | tags 100 and 115 with two and one byte of length read as null for null and nil, as the truth value for true and false, and as the name otherwise |
| EtfForms.Binary | dep/dpp/etf.cpp:449-457 | tag 109, a four-byte length and that many bytes read as the string |
| EtfForms.CutShort | dep/dpp/etf.cpp:261-311 | names and binaries that run past the end read as null and leave the bytes, and a string of small integers is refused |
| EtfForms.StringAsList | dep/dpp/etf.cpp:469-479 | tag 107, a two-byte length and that many bytes read as the list of those small integers |
| EtfForms.Tuple | dep/dpp/etf.cpp:345-347 | tags 104 and 105 with one and four bytes of count and that many terms read as the array of their values |
| EtfForms.List | dep/dpp/etf.cpp:333-343 | tag 108, a count, that many terms and a tail byte read as the array if the tail is nil, and as null otherwise |
| EtfForms.NilTerm | dep/dpp/etf.cpp:349-351 | tag 106 reads as an empty array |
| EtfForms.LessMeans | dep/dpp/etf.cpp:353-365 | keys are ordered by their first differing byte, a prefix before what it starts |
| EtfForms.EmplaceMeans | dep/dpp/etf.cpp:353-365 | adding a field keeps the order by key and every field there is, and adds the new one exactly if its key is not there yet |
| EtfForms.KeyMeans | dep/dpp/etf.cpp:353-365 | a string key stands for itself, an integer for its decimal text modulo 2^64, a float for that of its integer part; any other key is refused |
| EtfForms.Map | dep/dpp/etf.cpp:353-365 | tag 116, a count and that many pairs read as the object the pairs make in turn, and as null without pairs |
| EtfForms.Reference | dep/dpp/etf.cpp:514-526 | tag 101, a node, a word and a byte read as an object of creation, signed id in a list, and node |
| EtfForms.NewReference | dep/dpp/etf.cpp:528-542 | tag 114, a count, a node, a byte and that many words read as an object of creation, signed ids and node |
| EtfForms.Port | dep/dpp/etf.cpp:544-550 | tag 102, a node, a word and a byte read as an object of creation, unsigned id and node |
| EtfForms.Process | dep/dpp/etf.cpp:552-559 | tag 103, a node, two words and a byte read as an object of creation, id, node and serial |
| EtfForms.Export | dep/dpp/etf.cpp:561-567 | tag 113 and three terms read as an object of arity, function and module, the last, second and first of them |
| EtfForms.HeaderMissing | dep/dpp/etf.cpp:225-259 | a term whose count or sign is not all there is refused |
| EtfForms.DigitsMissing | dep/dpp/etf.cpp:401-447 | so is a big integer without all of its digits |
| EtfForms.ElementMissing | dep/dpp/etf.cpp:325-347 | so is a tuple or list with an element that cannot be read, at any place, or without its last ones |
| EtfForms.TailMissing | dep/dpp/etf.cpp:333-343 | so is a list without its tail byte |
| EtfForms.PairMissing | dep/dpp/etf.cpp:353-365 | so is a map with a key that cannot be read or has no text, or a value that cannot be read, at any place, or without its last pairs |
| EtfForms.NodeMissing | dep/dpp/etf.cpp:514-567 | so is a reference, port, process or function without its first term |
| EtfForms.NumbersMissing | dep/dpp/etf.cpp:514-559 | and a reference, port or process without all of its numbers |
| EtfForms.FunctionMissing | dep/dpp/etf.cpp:561-567 | and a function without its second or third term |
| EtfForms.Written | dep/dpp/etf.cpp:57-216 | the bytes written for null, truth values, strings, floats, arrays, objects and messages, with tag numbers and names as they stand on the wire |
| EtfForms.WrittenInt | dep/dpp/etf.cpp:641-654 | the bytes written for integers: one byte up to 127, four bytes otherwise, and from 2^32 - 2 on a big integer with the fewest digits |
| WebSocket.EndlessExactly | dep/dpp/wsclient.cpp:190-195 | the loop never gets past a front if and only if it is a masked frame of opcode 0, 1, 2, 9 or 10, or one whose 64-bit length is ten below 2^64, so that the sum with the header wraps to zero |
| WebSocket.TenBytesNeverEnd | dep/dpp/wsclient.cpp:212-241 | ten bytes of that kind are handed on as an empty frame for ever |
| WebSocket.WrappedFront | dep/dpp/wsclient.cpp:225-241 | a frame whose header size and length wrap 64 bits counts as complete, hands on everything behind the header and takes at most nine bytes off the buffer |
| WebSocket.FrontGrows | dep/dpp/wsclient.cpp:172-264 | once the front of a buffer is decided and its length does not wrap, bytes that arrive later do not change the decision |
| WebSocket.WrappedGrows | dep/dpp/wsclient.cpp:225-241 | if its length wraps, bytes that arrive later do change the payload handed on |
| WebSocket.DrainSplit | dep/dpp/wsclient.cpp:159-161 | draining what has arrived and then the rest hands on the same frames and leaves the same bytes as draining all at once, if and only if nothing more arrives or no frame handed on before has a length that wraps |
| WebSocket.AnySplit | dep/dpp/wsclient.cpp:159-161 | for every stream with no frame in its middle whose length wraps and every way to split it into reads: the same frames in order, the same bytes left, the same stop as in one read |
| WebSocket.AnySplitExactly | dep/dpp/wsclient.cpp:159-161 | for every stream a string can hold: all ways to split it give the same as one read if and only if no frame whose length wraps is handed on with bytes behind its header |
| WebSocket.Receiver.Receive | dep/dpp/wsclient.cpp:122-165 | one read, where the loop returns at all, handles exactly the frames that count as complete and keeps exactly the bytes behind them |
| WebSocketReceive.FrontMeansRfc | dep/dpp/wsclient.cpp:172-242 | a front counts as complete if and only if section 5.2 of RFC 6455 sees a frame there and the extra demands of the code hold (opcode 0, 1, 2, 9 or 10, no mask, four bytes, and eight with a 16-bit length), or if its length wraps, where the standard sees none; a complete one leaves what the standard leaves and hands on its payload, as a ping for opcode 9, a pong for 10 and a message otherwise |
| WebSocketReceive.StopsExactly | dep/dpp/wsclient.cpp:172-263 | why any other front is not handed on: fewer than four bytes wait, opcode 8 calls the error handler with the 16-bit code, an unknown opcode with 0, a masked frame is left where it is, and a known one waits exactly if the standard sees no frame yet or a 16-bit length has fewer than eight bytes |
| WebSocketReceive.ReceivesRfcFrames | dep/dpp/wsclient.cpp:159-161 | for every stream a string can hold, the frames handed on are the first frames the standard sees if and only if none of them has a length that wraps; then a stop for want of bytes with eight or more left misses none |
| WebSocketSend.FillHeader | dep/dpp/wsclient.cpp:72-105 | the header written by position into the output array is the specified one for every length, and bytes behind it are untouched |
| WebSocketSend.FillHuge | dep/dpp/wsclient.cpp:87-93 | the shifting loop writes the eight big-endian bytes of a 64-bit length |
| WebSocketSend.HeaderDecodes | dep/dpp/wsclient.cpp:72-105 | a peer decodes from the header the final bit, the opcode, an all-zero mask and the length, for every length below 2^64 |
| WebSocketSend.PacketDecodes | dep/dpp/wsclient.cpp:108-120 | a peer that follows section 5.2 of RFC 6455 decodes each packet to exactly its message, whatever follows |
| WebSocketSend.PartIsNoFrame | dep/dpp/wsclient.cpp:108-120 | no proper prefix of a packet decodes as a frame |
| WebSocketSend.PeerReadsPrefix | dep/dpp/wsclient.cpp:108-120 | on any prefix of the wire the peer has read exactly a prefix of the messages, and all of them on the whole wire |
| SendPump.Pump.Write | dep/dpp/sslclient.cpp:349-359 | in non-blocking mode the bytes pending grow by exactly the data |
| SendPump.Pump.Stage | dep/dpp/sslclient.cpp:528-534 | refilling the empty staging buffer moves the first 16384 queued bytes, or all if there are fewer, and loses, repeats and reorders nothing that is pending |
| SendPump.Pump.Take | dep/dpp/sslclient.cpp:541-561 | a write of any size moves exactly the first staged bytes to the accepted ones |
| SendPump.Pump.Turn | dep/dpp/sslclient.cpp:528-580 | under any answer of the socket: accepted bytes, staged remainder and queue together stay the concatenation of all writes; a write advances by what the socket took; only an error ends the loop |
| SendPump.Client.Send | dep/dpp/wsclient.cpp:108-120 | what was given to the socket layer is always the wire form of the messages sent so far |
| SendPump.Client.PeerSees | dep/dpp/sslclient.cpp:528-580 | at any time, for messages up to 65535 bytes, what the socket accepted decodes to exactly a prefix of the messages, and to all of them once nothing is pending |
| HttpChunks.TurnGrows | dep/dpp/httpsclient.cpp:204-254 | a turn of the loop that did something does the same with more bytes behind it |
| HttpChunks.TurnWaits | dep/dpp/httpsclient.cpp:204-254 | a turn that waits has done a part of what the next read's turn does |
| HttpChunks.RunSplit | dep/dpp/httpsclient.cpp:204-254 | two reads are as good as one, from every state of the chunked body |
| HttpChunks.AnySplit | dep/dpp/httpsclient.cpp:204-254 | the same for any number of reads of any size, up to the bytes never looked at after the end |
| HttpChunks.SizeText | dep/dpp/httpsclient.cpp:237-246 | the library's hexadecimal conversion gives the number whose numeral in the digits 0-9, a-f and A-F the size text is, with extension text behind it |
| HttpChunks.ReadsNumeral | dep/dpp/httpsclient.cpp:241 | every text with a number in it: blanks, a sign, 0x or 0X or neither, the numeral of a number and anything behind it give that number with its sign, or an exception if it is no 32-bit integer |
| HttpChunks.ReadsNothing | dep/dpp/httpsclient.cpp:241-246 | any other text, with no digit behind blanks and sign, is an exception |
| HttpChunks.LineEnds | dep/dpp/httpsclient.cpp:235-253 | a size line is taken off the buffer; an exception ends the connection, zero leads to the last CR LF, and any other number is the size of the chunk, a negative one as an unsigned 64-bit number |
| HttpChunks.LineWaits | dep/dpp/httpsclient.cpp:235-236 | without a CR LF the client waits |
| HttpChunks.ChunkRead | dep/dpp/httpsclient.cpp:204-254 | from the chunk-length state one encoded chunk appends its data to the body and leads back to that state |
| HttpChunks.AtOnce | dep/dpp/httpsclient.cpp:204-254 | an encoded list of chunks with a last chunk leads in one read to the done state, with the concatenated data as body |
| HttpChunks.EveryRead | dep/dpp/httpsclient.cpp:204-271 | for every list of chunks of section 4.1 of RFC 7230 without trailer fields and every split of the encoding into reads: every call ends; the state is done exactly when the final CR LF is in, and then the body is all the data; before that it is a part of it |
| HttpChunks.FindCrlf | dep/dpp/httpsclient.cpp:235-238 | the search returns the first CR LF, or reports that there is none |
| HttpChunks.HttpsClient.HandleBuffer | dep/dpp/httpsclient.cpp:204-271 | the loop ends from every valid state, keeps it valid, only extends the body, and does what the state machine says |
| HttpChunks.HttpsClient.Read | dep/dpp/httpsclient.cpp:204-271 | a read appends its bytes and handles the buffer as the state machine says |
| Voice.OrdersExactly | dep/dpp/discordvoiceclient.cpp:77-114 | for every start and length, the comparison orders the window by wrap-around distance if and only if it starts and ends on the right sides of the boundary |
| Voice.BoundaryIsExact | dep/dpp/discordvoiceclient.cpp:82-113 | the comparison is right on every window of a length if and only if that length is at most 5000 |
| Voice.LaterExactly | dep/dpp/discordvoiceclient.cpp:77-114 | for every pair of numbers with equal timestamps: one below 5000 comes after one from 60536 on, and otherwise the higher one is the later |
| Voice.TopIsEarliest | dep/dpp/discordvoiceclient.cpp:77-114 | the top of any queue has the lowest timestamp, whatever its sequence numbers |
| Voice.TopIsDue | dep/dpp/discordvoiceclient.cpp:77-114 | where a window is compared right, the top is the payload nearest to its start among those with the lowest timestamp |
| Voice.TopIsNearest | dep/dpp/discordvoiceclient.cpp:77-114 | in a batch the queue's top is the payload nearest to the start |
| Voice.Conceals | dep/dpp/discordvoiceclient.cpp:209-227 | if the top is not the number due, no payload of the batch has that number |
| Voice.Delivers | dep/dpp/discordvoiceclient.cpp:228-243 | if the top is the number due, popping it leaves exactly the later payloads |
| Voice.Flush | dep/dpp/discordvoiceclient.cpp:202-246 | for any parking lot the loop ends and decodes each payload once; for a batch it decodes in order of the numbers, conceals exactly the missing ones up to the last payload, and stops there |
| Cameras.Camera.constructor | src/game/Camera.cpp:29-32 | a new camera joins the linked structure in its owner's list |
| Cameras.Camera.Destroy | src/game/Camera.cpp:34-41 | a camera deleted with its owner is in no list and no grid cell any more; all other cameras stay linked, and the whole structure is linked again if and only if the owner is not left registered as active without a reason |
| Cameras.Camera.Link | src/framework/Utilities/LinkedReference/Reference.h:53-75 | linking to a grid cell cuts a link that is still valid first, so a camera is in one cell's list at most |
| Cameras.Camera.SetView | src/game/Camera.cpp:58-98 | the view changes exactly if the object is another one, a unit or dynamic object, in the world and on the map of an owner in the world; then the camera moves to the end of its list and to its grid cell and both objects are registered or deregistered as active; a refused change changes nothing; all links stay consistent |
| Cameras.Camera.UpdateForCurrentViewPoint | src/game/Camera.cpp:48-56 | the camera ends up in the cell of what it views, or in none if that has none |
| Cameras.Camera.ResetView | src/game/Camera.cpp:106-109 | the view returns to the owner if and only if it was elsewhere and the owner is in the world |
| Cameras.Camera.Handle | src/game/Camera.cpp:100-135 | what each event handler does to the camera's two links, with every other link unchanged and consistent |
| Cameras.Advance | src/game/Camera.h:95-105 | the iterator, moved on before a handler may take its camera out of the list, points at the next camera of the original list |
| Cameras.WorldObject.CameraCall | src/game/Camera.h:95-105 | the call reaches each camera of the list once, in order, although handlers take cameras out of it; exactly the staying ones remain, and no camera outside the list changes |
| Cameras.WorldObject.EventAddedToWorld | src/game/Camera.h:115-119 | every camera of the object is linked to the object's new cell |
| Cameras.WorldObject.EventGridChanged | src/game/Camera.h:127-131 | every camera of the object follows it to its new cell |
| Cameras.WorldObject.EventVisibilityChanged | src/game/Camera.h:133-136 | exactly the cameras whose owner is in the world and lost sight of the object return to their owner |
| Cameras.WorldObject.EventRemovedFromWorld | src/game/Camera.h:121-125 | a camera stays in the list if and only if it is the object's own or its owner is out of the world, and in the latter case in its old grid cell; with all owners in the world at most one camera is left, the object's own, and every camera is in the cell of what it views |
| Cameras.StaysBehind | src/game/Camera.cpp:58-69 | a linked world in which the object leaves after the owner of its camera did: the camera stays in its list and in a grid cell the object is no longer in |
| Conditions.AndIsAll | src/game/Conditions.cpp:173-184 | a conjunction is true if and only if all of its two to four children are |
| Conditions.OrIsAny | src/game/Conditions.cpp:163-172 | a disjunction is true if and only if any of its two to four children is |
| Conditions.NotIsAny | src/game/Conditions.cpp:152-162 | a negation with a third or fourth child is true if its first child is false or an extra one is true |
| Conditions.MeetsIsFormula | src/game/Conditions.cpp:124-188 | evaluating the table, with swapped roles and reverse flags at any level, equals evaluating a formula that has them at the literals only; a leaf with bad parameters is false whatever its own flag |
| ConditionRules.ParamsMean | src/game/Conditions.cpp:708-782 | each requirement on target and source, over what kinds of object they are |
| ConditionRules.LeafMeets | src/game/Conditions.cpp:124-145 | a leaf is met if and only if its parameters, changed over if it swaps, are good and its own verdict is not the reversed one |
| ConditionRules.NodeMeets | src/game/Conditions.cpp:124-145 | any other entry passes its parameters on, changed over if it swaps, and reverses the answer if it says so |
| ConditionTable.LoadConditions | src/game/ObjectMgr.cpp:9321-9338 | the loader's one ascending pass, erasing in place, computes the checked table |
| ConditionTable.LoadedExactly | src/game/Conditions.cpp:784-857 | what is left are exactly the entries that are valid in the loaded table itself |
| ConditionRules.KeptExactly | src/game/Conditions.cpp:784-857 | a conjunction or disjunction is kept if and only if its two to four children are lower kept entries, a negation if and only if its first child is, an unconditional entry always, a leaf as its own check says; a disabled leaf becomes unconditional with its answer reversed |
| ConditionRules.NothingAppears | src/game/ObjectMgr.cpp:9321-9338 | a number without an entry stays without one |
| ConditionTable.LoadedWellFounded | src/game/Conditions.cpp:788-857 | in a loaded table every entry refers to lower existing entries only, if and only if the extra children of its negations do, which the check ignores |
| ConditionTable.WithinEnds | src/game/Conditions.cpp:124-188 | on any table, evaluation of an entry ends for all parameters and leaf verdicts if all entries that can be reached from it exist and form no cycle, whatever their numbers |
| ConditionTable.WellFoundedWithin | src/game/Conditions.cpp:788-857 | in a well-founded table that holds of every entry, with its number as the bound |
| ConditionTable.MeetsInIsMeets | src/game/Conditions.cpp:124-188 | and evaluation with that many calls gives the answer of evaluation without a bound |
| ConditionTable.SelfNegationLoads | src/game/Conditions.cpp:788-802 | a negation whose third value is its own number passes the check |
| ConditionTable.SelfNegationNeverEnds | src/game/Conditions.cpp:152-162 | evaluating it does not end: no number of calls is enough, for any parameters and leaf verdicts |
| ConditionTable.ShieldedCycleEnds | src/game/Conditions.cpp:152-162 | a loaded entry that asks itself behind a child that always settles the answer ends all the same, so that having no cycle is sufficient but not necessary |
| ConditionTable.DisabledIsUnmet | src/game/Conditions.h:336 | a disabled entry is met if and only if it was reversed |
| ConditionPlayer.TargetFreeExactly | src/game/Conditions.cpp:1400-1429 | for all tables: every parameter check that evaluation of an entry can make, through up to four children and with swapped roles, is independent of the target for any present source, if and only if a walk over the reachable leaves finds none that looks at the target |
| ConditionPlayer.AcceptedExactly | src/game/Conditions.cpp:1401-1429 | a condition the check accepts needs no target if and only if nothing was overlooked: no leaf that looks at the target because of a swap, and none behind a third or fourth child |
| ConditionPlayer.PlainExactly | src/game/Conditions.cpp:1401-1429 | where no reachable entry swaps or has a third or fourth child, the check accepts exactly the conditions that need no target and no source that is a player |
| ConditionPlayer.UsableWithoutTarget | src/game/Conditions.cpp:1401-1429 | an accepted condition with nothing overlooked gets its parameters without a target if and only if it gets them with one, for any present source |
| ConditionPlayer.MetWithoutTarget | src/game/Conditions.cpp:124-188 | and it is met without a target if and only if it is met with one, for any present source, when the leaf verdicts do not look at the target either |
| ConditionPlayer.SwapIsNotSeen | src/game/Conditions.cpp:1401-1429 | with a swap flag the check passes a condition that needs its target |
| ConditionPlayer.ThirdChildIsNotSeen | src/game/Conditions.cpp:1401-1429 | the check passes a conjunction whose third child needs the target: it is met with any target and not without one |
| CreatureGroups.CreatureGroup.AddMember | src/game/CreatureGroups.cpp:26-42 | the member table gains or replaces one entry, the options become exactly the old ones and its flags, and the current leader is never added |
| CreatureGroups.CreatureGroup.OnMemberDied | src/game/CreatureGroups.cpp:76-112 | if the dead one led a group with the formation bit whose original leader, itself or one still on the map, moves along a path, the living member in the world with the lowest guid leads next, and the original leader if there is none; in all other cases the leader stays |
| CreatureGroups.CreatureGroup.Respawn | src/game/CreatureGroups.cpp:175-210 | a creature is told to respawn if and only if it waits for it and no respawn is under way; callbacks it sets off tell nobody else |
| CreatureGroups.CreatureGroup.RespawnAll | src/game/CreatureGroups.cpp:163-173 | with respawns setting off any list of further respawn calls on the group the round ends, and each other creature of the group that is in the world and waits is told exactly once, nobody else is touched |
| CreatureGroups.CreatureGroup.OnRespawn | src/game/CreatureGroups.cpp:143-161 | the original leader leads again once it is back, and only a group that respawns together starts a round |
| CreatureGroups.RoundStep | src/game/CreatureGroups.cpp:163-173 | a round told over some members extends to one more without telling anybody twice, the original leader as a member included |
| CreatureGroups.CreatureGroup.RemoveTemporaryLeader | src/game/CreatureGroups.cpp:238-248 | the original leader leads and the temporary one is no member |
| CreatureGroups.CreatureGroup.RemoveMember | src/game/CreatureGroups.cpp:250-258 | exactly that member goes; the leader stays a member or the original |
| CreatureGroups.CreatureGroup.Leave | src/game/Objects/Creature.cpp:4012-4031 | leaving keeps the leader the original one or a member |
| Utf8.CountsCharacters | dep/dpp/utility.cpp:257-293 | of every NUL-free text of section 3 of RFC 3629 the counter counts the code points from any character on |
| Utf8.Utf8Len | dep/dpp/utility.cpp:257-293 | the two loops, with their jump, count what the scan specifies, or run past the terminator where it does |
| Utf8.WalksCharacters | dep/dpp/utility.cpp:303-323 | on text the cutting loop finds the byte offset of the first character asked for and that of the end, at the 64-bit sum of start and length |
| Utf8.LeadBytes | dep/dpp/utility.cpp:270-320 | the leading bits of a byte that both scanners go by: a byte that starts no character moves the counter on by two or four and ends the cut |
| Utf8.EncodesBits | dep/dpp/utility.cpp:257-329 | the encoding both are held against: a character's bytes carry its bits, six in each byte behind the first |
| Utf8.CutTakes | dep/dpp/utility.cpp:303-328 | what is cut off in every case: from the first character asked for as many bytes as there are before the end character, or all that is left |
| Utf8.BadByteCutsAll | dep/dpp/utility.cpp:316-320 | a byte behind some text that starts no character makes the cut empty |
| Utf8.SubstrExactly | dep/dpp/utility.cpp:295-329 | of every text and for all 64-bit arguments, the result is the characters asked for if and only if none are asked for, they begin at the start or behind the end, they reach the end of the text, or, where start plus length wraps, as many bytes lie before the wrapped end as are asked for |
| Utf8.WrapCutsShort | dep/dpp/utility.cpp:308-328 | where the sum wraps, the last of three letters is cut to nothing |
| Utf8.Utf8Substr | dep/dpp/utility.cpp:295-329 | the loop computes the specified cut, and ends at the first byte that starts no character |
| Utf8.ValidateText | dep/dpp/utility.cpp:343-350 | of every text validation returns exactly the first characters up to the maximum, or throws if and only if there are too few |
| InstanceLimiter.AccountMgr.CheckInstanceCount | src/game/AccountMgr.cpp:693-720 | the answer and the one forgotten entry are as specified, and other accounts are untouched |
| InstanceLimiter.AccountMgr.AddInstanceEnterTime | src/game/AccountMgr.cpp:722-734 | the enter time of that instance is replaced and nothing else |
| InstanceLimiter.RefusedExactly | src/game/AccountMgr.cpp:693-720 | in every state a run can reach, a request is refused if and only if the instance was not entered in the last hour and as many others as the maximum were |
| InstanceLimiter.AtMostInAnHour | src/game/AccountMgr.cpp:693-734 | in every time-ordered run with a fixed maximum no window of 3600 seconds holds more distinct entered instances than the maximum, and requests are refused exactly as said |
| Permissions.BasePermissions | dep/dpp/guild.cpp:590-614 | a bit is granted if and only if the member owns the guild, or a role grants it or grants administrator |
| Permissions.GrantsExactly | dep/dpp/guild.cpp:590-614 | over roles: a bit is granted to the owner, or if everyone's role is cached and that role or a cached one of the member's holds the bit or bit 3 |
| Permissions.FirstCounts | dep/dpp/guild.cpp:642-674 | of several overwrites for one role or member the first counts, and one of the other kind never does |
| Permissions.RoleOverwrites | dep/dpp/guild.cpp:642-659 | the collected masks hold exactly the bits that some role of the member other than everyone's allows or denies by its first overwrite |
| Permissions.OverwritesOfUser | dep/dpp/guild.cpp:616-674 | each bit follows the precedence member, then roles, then everyone, then base, allowing before denying at each level; nothing for who is no member |
| Permissions.OverwritesOfMember | dep/dpp/guild.cpp:676-729 | the same from the member's own base permissions |
| Permissions.BothAgree | dep/dpp/guild.cpp:616-729 | given a cached member's base permissions both overloads return the same mask |
| Permissions.RolesAreASet | dep/dpp/guild.cpp:590-729 | permuting or repeating a member's roles changes no permission |

## Left out
- The float box tests of the terrain tool: which placements touch which cell is the parameter `hits`, and packed coordinates are opaque bytes of a placement.
- Hashes, the manifest, paths and file access of the terrain tool.
- AdtMcnk.Splice: a cell whose offsMCRF is below 8 counts as a failure, where the original would index from the end of the payload before its assertion fails.
- Threads, locks and condition variables of the request queue: each locked section is one atomic step, and clock readings and replies are arbitrary; the pool size is fixed, so `add_request_threads` is not modelled.
- The 60-second deferred deletion of requests: a request posted is never posted again.
- RequestQueue.Allows: the deadline is the 64-bit sum the code computes, wrap-around included, so a reply that asks for a delay near 2^64 seconds is not waited for.
- `etf_parser::decode_compressed` reads as a failure, because it swaps buffers around a zlib call.
- Text to double and double to integer conversions of the term parser are the parameter `Foreign`; JSON numbers are integers and 64-bit patterns.
- EtfProof.Trip: values with an empty array inside, which `EtfBack` covers.
- Etf.BuildMessage: sizes of single strings beyond 32 bits are outside the round trip; the writer would truncate them.
- WebSocket.Receiver.Receive: reads that meet an endless front are excluded, because the original loop would not return; frames are counted up to that front.
- SendPump.Client.Send: payloads above 65535 bytes are excluded, because their header is longer than the ten bytes the client reserves.
- The blocking mode of the socket's `write`, TLS negotiation and the receive half of the socket loop.
- HttpChunks: the header state, content with a length and the multipart builder; the sum of a chunk counter and a buffer length is taken without wrap-around, because both are lengths of strings in memory.
- Voice: decoding, mixing and gain; the parking of packets as they arrive; the priority queue is a list whose top is the first entry that none exceeds, which is the container's promise on the batches the ordering results speak of.
- Cameras: packets and visibility notifiers, and the map's set of active objects beyond one flag for each object; who lost sight of an object is a parameter.
- Conditions: leaves over live game objects are a parameter with the parameter requirement of the leaf, as is the check of a leaf's own values; conditions that refer to other conditions through map events or game objects.
- CreatureGroups: assistance, evading, messages to creature scripts, teleports into formation and disbanding; a creature's respawn is what it does to its death state and respawn time and any list of calls of `OnRespawn` and `RespawnAll` on its group; respawns that change the member table are not modelled.
- AdtMeaning.NewReferencesResolve: placement tables that are no whole number of 36-byte entries, where the tool's indices and its bytes disagree.
- AdtMeaning.EverythingKept: cells that gain references while their MCRF overlaps the cell header, where the tool's writes overlap as well.
- Utf8: what the counter makes of strings with NUL bytes or of bytes that are no text is only the scan itself; reading past the terminator is reported instead of performed.
- InstanceLimiter: game masters, who are not limited.
- Permissions: masks are sets of 64 bits, so the code's bitwise operations are unions and differences.
- Discord model classes, in-game mail limits, tickets, vendors, formulas, map loading and the database layer: field copying, or thin layers over unseen types.

# Verified core of the mysql_proxy client library

This project models, in Dafny, the parts of the mysql_proxy client and of its `knv` library whose
correctness rests on state and byte-level arithmetic, and proves what they keep, undo and preserve.

| modules | what they model |
|---|---|
| `Basics` | an optional value, removal from a sequence, and facts about products that several models share |
| `Bytes`, `Wire`, `WireReader`, `WireWriter` | the Protocol Buffers wire format of `knv/pb.c`: what bytes mean (`Wire`), the cursor that reads them and the bounded buffer that writes them |
| `ObjPool`, `ObjPoolRuns` | the intrusive lists and the free list of `knv/obj_pool.h` on a heap of linked nodes, and whole runs of operations on many lists |
| `FreeListRaces` | the same free list as an interleaving of single reads, writes and compare-and-swap steps of many threads |
| `Masks`, `MemPool`, `MemManager` | the size-class allocator of `knv/mem_pool.cc`: its bit mask, one pool's counters and shrinking, and the manager that moves limits between nine pools |
| `MemRuns`, `GuardRun` | whole runs of requests to the allocator, and one run that breaks its budget |
| `Framing` | the packet scanner and the receive loop of `mysql_proxy_api.cpp` |
| `Cipher` | the length-prefixed, padded ECB wrapper of `mysql_proxy_api.cpp` |
| `RowCursor` | the destructive iterator over result rows of `mysql_proxy_api.cpp` |
| `SplitMerge`, `Protocol`, `Transfer` | `KnvProtocol::Split`, `EncodePart` and `AddPartial` of `knv/protocol.cc`, each alone and as one transfer between two objects |

Code that changes things step by step is a method or a class here, and is proved against a function on
plain values (`Parse`, `Scan`, `Step`, `Ecb`, `AddPartial`, ...); the laws are then proved about those
functions, or hold as invariants of the classes. `dafny verify dfyconfig.toml` checks everything.

## What the proofs bring out

Some promises of the code or of its comments hold only under a condition. Each condition is proved to be
exact, and each has a lemma or a run in which it fails:

- Reassembly works exactly up to 255 parts (`Protocol.ReassemblyIffFewParts`): `Split` stores the number
  of parts in an 8-bit member, so from 256 parts on nothing that `EncodePart` encodes for a part, as long as
  it has a header, ever becomes the original packet again. Any packet with a body of 30000 bytes and a maximal size of 128 is
  such a packet (`Protocol.ManyPartsHappen`).
- Part 2495 has the tag of the header, so `Split` keeps the header in the tree exactly up to 2495 parts
  (`Protocol.HeaderChild`); from 2496 on it removes the node that `header` still points to. A body of 300000
  bytes and a maximal size of 128 lead there (`Protocol.LostHeadersHappen`).
- The buffer for the merge can be missing when the last part arrives. Up to 4194304 bytes, or if there is no
  `UcMem` object, the merge then ends with -9, every later part is refused and the packet is never completed
  (`SplitMerge.FailedMergeIsFinal`). Above that size the allocator hands out an object without a buffer, and the
  copy writes to it; this happens exactly at the last missing part of a packet above 4194304 bytes
  (`SplitMerge.NullBufferIsUsed`).
- The object pool says it is safe for several threads; it is exactly when at most one thread takes
  objects (`FreeListRaces.SafeIffOnePopper`). `FreeListRaces.ReuseDefeatsSwap` is the run with two.
- A field comes back from the wire unchanged exactly when its number is below 2^29 and its key is not 0
  (`Wire.RoundTrip`), because `pb_add_tag` shifts in 32 bits and a zero key ends a message.
  `Wire.BigKeyIsNotPreserved` is a message that loses its field.
- `pb_skip_field` agrees with decoding wherever decoding succeeds; `Wire.SkipAgreesWithRead` names exactly
  the broken values it also skips, and `Wire.SkipsBrokenValues` gives two.
- `Decrypt` undoes `Encrypt` exactly as long as the padded content fits an int
  (`Cipher.DecryptUndoesEncrypt`); beyond that the result is shorter than the content (`Cipher.CutIsShorter`).
  `Decrypt` also compares a signed length after conversion to an unsigned sum, so four values just below 2^32
  pass for lengths (`Cipher.ReadLength`, `Cipher.FalseLengthIsTaken`).
- The limits of all pools together are what the pools were created with exactly if no guard at the end of a
  pool's `Shrink` ever fired (`MemRuns.Run`), and one has fired exactly if a pool was asked while it was in the
  red: its limit is below one block and the top of its free list has memory (`MemRuns.FiredIffRed`,
  `MemRuns.NoDebtIffNoRed`).
  `GuardRun.LimitsPassGrants` is a run of twelve requests that gets there, and `MemPool.AllocPassesLimit` one
  in which total and kept memory pass the limit of a pool.
- The over-limit check of `ParsePacket` is reached only for incomplete frames. It suffices because a receive
  brings at most 64 KiB (`Framing.BufferIsStream`); `Framing.LateCheckNeedsSmallChunks` shows the bound matters.

Where comment and code differ, the code is followed: `New`, `Delete` and the other pool operations are
described as thread safe at the head of `knv/obj_pool.h`, and the comment "bug" at the end of `UcMemPool::Shrink` marks a
case that can happen.

## Model

| member | source | states |
|---|---|---|
| `Wire.ReadEncodedVarint` | knv/pb.c:80-100 | the shortest varint of every 64-bit value is read back as that value, whatever follows it, using exactly its bytes |
| `Wire.CutVarint` | knv/pb.c:80-100 | no strict prefix of an encoded varint can be read |
| `Wire.EncodeVarintIsShortest` | knv/pb.c:291-309 | no byte string that decodes to a value is shorter than what the writer produces for it |
| `Wire.ReadEncodedField` | knv/pb.c:149-178 | for every field the writer accepts: tag modulo 2^29 and the same value come back, or the message ends if the key became 0 |
| `Wire.CutField` | knv/pb.c:149-178 | a field cut short ends the message, with the end-of-message flag set exactly when the cut is inside the key |
| `Wire.RoundTrip` | knv/pb.c:192-228 | a written list of fields is read back as that list, ended cleanly, if and only if every field is in the domain |
| `Wire.WholeFieldsMeaning` | knv/pb.c:192-228 | the number of whole fields in a prefix is the largest number whose encoding fits |
| `Wire.Truncation` | knv/pb.c:149-228 | every strict prefix of an encoding yields exactly the fields wholly inside it, and the flag stays 0 exactly when the cut is behind a key and inside its value |
| `Wire.Normalisation` | knv/pb.c:335-339 | any bytes re-encode to no more bytes, and read back the same if and only if all delivered fields are in the domain |
| `Wire.SmallKeysNormalise` | knv/pb.c:149-178 | with all keys below 2^32, shortest varints or not, normalisation changes no field |
| `Wire.BigKeyIsNotPreserved` | knv/pb.c:312-317 | the key 2^32 is read as tag 2^29, which cannot be written back |
| `Wire.SkipsBrokenValues` | knv/pb.c:130-147 | a varint that breaks off and a string of length 2^32 + 1 are skipped although they cannot be decoded |
| `Wire.SkipAgreesWithRead` | knv/pb.c:130-147 | skipping uses the same bytes as decoding wherever decoding succeeds, and otherwise succeeds exactly on overlong or cut varints and on string lengths from 2^32 whose low word fits |
| `WireReader.TakeByte` | knv/pb.c:94-96 | the shifted seven bits of one more byte bring the loop of the varint reader closer to the value of the varint, or complete it |
| `WireReader.PbField.DecodeVarint` | knv/pb.c:80-100 | the shift-and-or loop computes the varint, with its two failures and where each leaves the cursor |
| `WireReader.PbField.DecodeFixed` | knv/pb.c:58-78 | the little-endian word, or failure without moving |
| `WireReader.PbField.DecodeString` | knv/pb.c:112-127 | the bytes the length announces, or failure if they are not all there |
| `WireReader.PbField.DecodeValue` | knv/pb.c:168-175 | the value of the wire type, or failure |
| `WireReader.PbField.DecodeTag` | knv/pb.c:149-178 | tag, value, position and end-of-message flag after trying to read a field |
| `WireReader.PbField.Begin` | knv/pb.c:192-202 | the first field of a message |
| `WireReader.PbField.BeginDelimited` | knv/pb.c:206-221 | the first field of the length-prefixed slice; nothing behind the slice can be read |
| `WireReader.PbField.Next` | knv/pb.c:223-228 | the next field from where the cursor stands |
| `WireReader.PbField.SkipField` | knv/pb.c:180-190 | how far the cursor moves for every wire type, and when it fails |
| `WireReader.PbField.SkipVarint` | knv/pb.c:130-139 | moves over the bytes up to the first without continuation bit, or over all |
| `WireReader.ReadAll` | knv/pb.c:192-228 | the begin/next loop collects exactly the fields of the message and its end-of-message flag |
| `WireReader.ReadAllDelimited` | knv/pb.c:206-228 | the same loop inside a larger buffer sees exactly the delimited slice |
| `WireWriter.FittingField` | knv/pb.c:319-333 | a field ends up whole in the buffer if and only if its encoding fits, otherwise a proper prefix of it does |
| `WireWriter.FittingString` | knv/pb.c:350-369 | the pieces of a string field split into those of its head and its bytes, for every amount of room |
| `WireWriter.PbBuff.AddStringInTwo` | knv/pb.c:362-369 | head and then user bytes leave the buffer as one call for the string does, succeed exactly when it does, and leave the same pieces when it does not fit |
| `WireWriter.PbBuff.Add` | knv/pb.c:230-250 | appends all bytes or none, and never alters earlier ones |
| `WireWriter.PbBuff.AddVint` | knv/pb.c:291-309 | appends the shortest varint if it fits |
| `WireWriter.PbBuff.AddTag` | knv/pb.c:312-317 | appends the key, with the tag shifted in 32 bits |
| `WireWriter.PbBuff.AddFieldVal` | knv/pb.c:319-333 | succeeds exactly when the whole encoding fits; on failure exactly the pieces that fitted are there |
| `WireWriter.PbBuff.AddStringHead` | knv/pb.c:362-369 | succeeds exactly when key and length fit; on failure exactly what fitted is there |
| `WireWriter.FillScratch` | knv/pb.c:300-306 | the loop over seven-bit groups with its final mask builds the shortest varint in at most ten bytes |
| `WireWriter.WriteAll` | knv/pb.c:335-339 | a message is written whole exactly when it fits, and then reads back as the same fields |
| `WireWriter.EvalFieldLength` | knv/pb.c:319-333 | the length that pb_eval_field_length (lines 112 to 139 of knv/pb.h) evaluates for a field is the number of bytes this writer produces for it |
| `ObjPool.ObjPool.Separate` | knv/obj_pool.h:105-275 | lists of one pool and its free list are pairwise disjoint |
| `ObjPool.ObjPool.New` | knv/obj_pool.h:58-88 | the top of the free list or a new object, linked to itself only |
| `ObjPool.ObjPool.NewLast` | knv/obj_pool.h:105-147 | the object becomes the last of the list; all lists stay well formed |
| `ObjPool.ObjPool.NewFront` | knv/obj_pool.h:149-189 | the object becomes the first of the list; all lists stay well formed |
| `ObjPool.ObjPool.Delete` | knv/obj_pool.h:90-103 | the object goes on top of the free list |
| `ObjPool.ObjPool.DeleteFrom` | knv/obj_pool.h:193-224 | the list loses exactly this object, which goes on top of the free list |
| `ObjPool.ObjPool.Detach` | knv/obj_pool.h:226-247 | the list loses exactly this object, which is then in no list |
| `ObjPool.ObjPool.AddToFreeList` | knv/obj_pool.h:249-260 | one link puts a whole list in front of the free list |
| `ObjPool.ObjPool.DeleteAll` | knv/obj_pool.h:262-275 | every object is released once, in order, and the whole list goes in front of the free list |
| `ObjPool.Unlink` | knv/obj_pool.h:195-210 | taking out the first, an inner or the last node keeps the links of the others inverse to each other and first->prev the last |
| `ObjPool.LinkLast` | knv/obj_pool.h:116-128 | the same for appending |
| `ObjPool.LinkFirst` | knv/obj_pool.h:160-170 | the same for prepending |
| `ObjPoolRuns.StepCounts` | knv/obj_pool.h:58-275 | an operation changes the number of places an object is in only by allocating it |
| `ObjPoolRuns.RunConserves` | knv/obj_pool.h:58-275 | over every run each allocated object is in exactly one place |
| `ObjPoolRuns.Session.Do` | knv/obj_pool.h:58-275 | each operation on the linked nodes shows what it does on plain sequences |
| `ObjPoolRuns.DoAll` | knv/obj_pool.h:58-275 | so does every run of operations on any number of lists |
| `ObjPoolRuns.RunFromStart` | knv/obj_pool.h:35-275 | a new pool with n new lists goes through every allowed run as the sequences do, and each object allocated is in exactly one place at its end |
| `FreeListRaces.StepPopCas` | knv/obj_pool.h:64-72 | the swap of the one popper keeps the invariant, although others pushed since its reads; if it succeeds it takes exactly the top of the list |
| `FreeListRaces.StepPushCas` | knv/obj_pool.h:95-101 | the swap of a pusher keeps the invariant, whether it puts its chain in front of the list or is retried |
| `FreeListRaces.StepPushLink` | knv/obj_pool.h:254-255 | linking the last object of a chain keeps the invariant |
| `FreeListRaces.StepPopEmpty` | knv/obj_pool.h:61-62 | reading an empty free list commits the thread to an allocation and changes nothing else |
| `FreeListRaces.StepPopAlloc` | knv/obj_pool.h:76-88 | a new object is in its taker's hands only, whatever was pushed since the free list was found empty |
| `FreeListRaces.StepKeepsInv` | knv/obj_pool.h:58-103 | every single step of every thread keeps the invariant when at most one thread pops, and the list is a stack: a successful swap pops its top or pushes a chain, and no other step changes it |
| `FreeListRaces.RunKeepsInv` | knv/obj_pool.h:58-103 | after any run the free list is acyclic and each object is in one place |
| `FreeListRaces.OnePopperIsSafe` | knv/obj_pool.h:58-103 | every state reachable from rest is safe with one popper and any number of pushers |
| `FreeListRaces.ReuseDefeatsSwap` | knv/obj_pool.h:62-66 | with two poppers there is a run after which an object is both free and held |
| `FreeListRaces.SafeIffOnePopper` | knv/obj_pool.h:58-103 | safe in all runs if and only if at most one thread pops |
| `Masks.AndNotIsMask` | knv/mem_pool.cc:81-81 | masking with a complement does not depend on the width of the word, as long as both numbers fit |
| `Masks.MaskRoundsDown` | knv/mem_pool.cc:81-81 | masking off the low k bits rounds down to a multiple of 2^k |
| `MemPool.UcMemPool.CountersAgree` | knv/mem_pool.cc:47-67 | the counters never fall below what is about to be subtracted |
| `MemPool.UcMemPool.Alloc` | knv/mem_pool.cc:12-56 | exactly when a block is handed out, which one it is (the top of the free list, or a new one if that is empty) and when the limit refuses it, with the whole state after each; the negative-counter guard is never taken; exactly when total and kept memory stay within the limit |
| `MemPool.UcMemPool.Free` | knv/mem_pool.cc:58-68 | a held block returns with its memory; the guard is never taken |
| `MemPool.RoundDownIsMultiple` | knv/mem_pool.cc:81-81 | taking away whole blocks as long as possible rounds down to a multiple of the block size |
| `MemPool.UcMemPool.IdlePart` | knv/mem_pool.cc:76-97 | the mask computes half of the idle room in whole blocks |
| `MemPool.UcMemPool.Shrink` | knv/mem_pool.cc:71-144 | what is given up, and the whole state after it |
| `MemPool.UcMemPool.FreeKept` | knv/mem_pool.cc:99-135 | the loop frees nothing or exactly one block, because the emptied shell is on top afterwards |
| `MemPool.ShrunkMeaning` | knv/mem_pool.cc:76-143 | what is given up leaves the limit unless the guard fired, once for each time; a limit that covered everything still does, and always after giving up idle room |
| `MemPool.GiftIsBlocks` | knv/mem_pool.cc:81-81 | a whole number of blocks is given up |
| `MemPool.RedGivesBlock` | knv/mem_pool.cc:137-142 | a pool in the red gives up one block that its limit does not cover |
| `MemPool.ShrunkByBlock` | knv/mem_pool.cc:99-143 | without idle room, Shrink is freeing at most one block and lowering the limit by it; the guard fires exactly in the red |
| `MemPool.AllocPassesLimit` | knv/mem_pool.cc:28-43 | a run after which total and kept memory pass the limit |
| `MemPool.GuardIsReachable` | knv/mem_pool.cc:137-143 | a run of one pool in which the final guard of Shrink fires: 64 bytes are given away from a limit of 0 |
| `MemManager.GetMagic` | knv/mem_pool.cc:170-204 | the search ends with the least class that is large enough, or -1 exactly when none is, for every increasing table |
| `MemManager.SizesArePowers` | knv/mem_pool.cc:153-161 | the nine sizes of the table are the powers of two from 2^6 to 2^22 in steps of two |
| `MemManager.UcMemManager.GetPool` | knv/mem_pool.cc:206-232 | an existing pool, or a new one with a ninth of the limit; nothing else changes |
| `MemManager.UcMemManager.ShrinkPool` | knv/mem_pool.cc:241-243 | one class is asked once, and what it gives up is on its way |
| `MemManager.UcMemManager.ShrinkDown` | knv/mem_pool.cc:239-260 | a loop asks each class down to one exactly once and no other, ends at the first that makes it enough, and returns what they give up together |
| `MemManager.UcMemManager.Shrink` | knv/mem_pool.cc:234-265 | the larger classes until there is enough, or else all but the requesting one, each once |
| `MemManager.VisitedBoth` | knv/mem_pool.cc:239-260 | the two loops together ask every class but the requesting one once, and their amounts add up |
| `MemManager.UcMemManager.Refill` | knv/mem_pool.cc:294-317 | all of what the others give up arrives at the full pool, which is then tried again |
| `MemManager.GivenTwice` | knv/mem_pool.cc:287-303 | a refused attempt, moved room and a second attempt come to one attempt with that much more room |
| `MemManager.UcMemManager.Alloc` | knv/mem_pool.cc:268-319 | the least class that fits and a size not below the request; which classes were asked and what was moved; a block that nobody has and that was on top of the free list if there was one, exactly if that top has memory or a shell can be filled within the old limit and what was moved |
| `MemManager.UcMemManager.Free` | knv/mem_pool.cc:321-330 | exactly this block leaves the caller's hands, and no limit changes |
| `MemManager.UcMemManager.SetMaxSize` | knv/mem_pool.h:109-109 | changes no existing pool |
| `MemManager.NetUpdate` | knv/mem_pool.cc:206-265 | how a change of one pool changes the limits together, less what pools were created with and what guards gave away |
| `MemManager.NetShrunk` | knv/mem_pool.cc:234-265 | asking one pool changes that sum by exactly what the pool gives up |
| `MemManager.DebtsMeaning` | knv/mem_pool.cc:137-143 | guards gave something away exactly if one fired |
| `MemRuns.AnsweredOwned` | knv/mem_pool.cc:268-330 | after every request the handles are distinct and name exactly the blocks given out |
| `MemRuns.FiredStep` | knv/mem_pool.cc:137-143 | in one request a pool is asked at most once, and its guard fires exactly if it was asked in the red |
| `MemRuns.FiredIffRed` | knv/mem_pool.cc:137-143 | over every run, the guard of a class has fired if and only if the class was asked while it was in the red |
| `MemRuns.NoDebtIffNoRed` | knv/mem_pool.cc:137-143 | guards gave nothing away if and only if no class was ever asked while it was in the red |
| `MemRuns.Serve` | knv/mem_pool.cc:268-330 | what each request does to the handles and to every pool |
| `MemRuns.Run` | knv/mem_pool.cc:268-330 | every run goes through states as the single requests describe them; counters equal block size times blocks in callers' hands; the limits together are what the pools were created with and a block for every guard that fired, so exactly that if and only if none did, which is if and only if no class was ever asked while it was in the red |
| `GuardRun.Large` | knv/mem_pool.cc:294-317 | a request too large for the limit makes the smallest pool shrink and still fails |
| `GuardRun.GuardFires` | knv/mem_pool.cc:137-143 | after twelve given requests the guard of the smallest pool has fired |
| `GuardRun.LimitsPassGrants` | knv/mem_pool.cc:137-143 | the manager then has more room than its pools were created with |
| `Framing.WaitingIsKept` | mysql_proxy_api.cpp:400-414 | what stays in the buffer is at most a header or an incomplete frame within the limit |
| `Framing.ScanAppend` | mysql_proxy_api.cpp:379-443 | more bytes never change a decision, and waiting goes on from what was kept |
| `Framing.BufferIsStream` | mysql_proxy_api.cpp:404-414 | after one receive the late limit check decides like an early one |
| `Framing.LateCheckNeedsSmallChunks` | mysql_proxy_api.cpp:404-414 | a whole over-limit frame in the buffer at once would be accepted |
| `Framing.FrameIsDelivered` | mysql_proxy_api.cpp:385-433 | a sent frame is delivered if and only if its payload is accepted, its length is within the limit and it is not a bare header at the end |
| `Framing.NoTokenAcrossJoin` | mysql_proxy_api.cpp:181-181 | no token can straddle garbage and the start of a frame |
| `Framing.Resynchronisation` | mysql_proxy_api.cpp:385-433 | garbage without the token is skipped exactly, and exactly the payload of the frame behind it is delivered |
| `Framing.FindToken` | mysql_proxy_api.cpp:388-392 | the inner loop stops at the next token or near the end without changing what the scan finds |
| `Framing.AtToken` | mysql_proxy_api.cpp:400-433 | each decision at a token agrees with the scan of the rest |
| `Framing.Receiver.ParsePacket` | mysql_proxy_api.cpp:379-443 | finds what one scan of the buffer finds, and keeps exactly what the scan waits with |
| `Framing.Receiver.ReceiveLoop` | mysql_proxy_api.cpp:541-551 | for every stream and every division into receives of 1 to 65536 bytes, the result is that of one scan of the whole stream |
| `Framing.BuildFrame` | mysql_proxy_api.cpp:319-333 | token, total length and body in one array |
| `Cipher.EcbInverts` | mysql_proxy_api.cpp:250-250 | blockwise decryption undoes blockwise encryption |
| `Cipher.UnwrapPadded` | mysql_proxy_api.cpp:229-235 | the length prefix finds the content inside the padding |
| `Cipher.DecryptUndoesEncrypt` | mysql_proxy_api.cpp:227-300 | for every content and every invertible block function: Decrypt of Encrypt is the content if and only if the padded content fits an int |
| `Cipher.CutIsShorter` | mysql_proxy_api.cpp:264-289 | beyond an int, what comes back is shorter than the content |
| `Cipher.EncryptIsInjective` | mysql_proxy_api.cpp:227-260 | two contents whose padded length is below 2^32 never share a ciphertext |
| `Cipher.Encrypt` | mysql_proxy_api.cpp:227-260 | for contents of every length, the ciphertext with its 32-bit lengths |
| `Cipher.EncryptPieces` | mysql_proxy_api.cpp:241-258 | pieces of 512 bytes, with lengths going through an int, are the same as block by block |
| `Cipher.Decrypt` | mysql_proxy_api.cpp:262-300 | for ciphertexts of every length, the plain text with its int lengths and all empty results |
| `Cipher.DecryptPieces` | mysql_proxy_api.cpp:274-289 | the loop decrypts as many bytes as the int length says, and fails exactly if those are no multiple of eight |
| `Cipher.ReadLength` | mysql_proxy_api.cpp:290-299 | which lengths pass the mixed signed and unsigned comparison, and what they select |
| `Cipher.FalseLengthIsTaken` | mysql_proxy_api.cpp:290-299 | a prefix of 2^32 - 1 selects all that follows |
| `RowCursor.FirstRow` | mysql_proxy_api.cpp:741-757 | behind sets without rows, the first row found is the first row of all |
| `RowCursor.RemovedSet` | mysql_proxy_api.cpp:772-773 | removing a finished set removes no remaining row |
| `RowCursor.Result.Seek` | mysql_proxy_api.cpp:741-757 | finds the first row at or behind a child, skipping other children and empty sets |
| `RowCursor.Result.Advance` | mysql_proxy_api.cpp:739-802 | moves to the next remaining row, and nowhere once there is none |
| `RowCursor.Result.Fetch` | mysql_proxy_api.cpp:734-807 | returns the first remaining row and leaves the others; after the last one, nothing for ever |
| `RowCursor.Result.FetchRow` | mysql_proxy_api.cpp:702-732 | the columns of the current row, a missing one as NULL |
| `RowCursor.Result.Lengths` | mysql_proxy_api.cpp:877-902 | the lengths of those columns, 0 for NULL |
| `RowCursor.FetchAll` | mysql_proxy_api.cpp:734-807 | the caller's loop gets every row of every set once, in order |
| `SplitMerge.SerializeDecodes` | knv/protocol.cc:90-118 | a packet's bytes decode to the same header and children |
| `SplitMerge.SlicesMeaning` | knv/protocol.cc:902-945 | the slices make up the bytes, and none is empty or too long |
| `SplitMerge.SliceAt` | knv/protocol.cc:922-926 | slice i is where the loop copies it from |
| `SplitMerge.SliceCount` | knv/protocol.cc:903-903 | the rounded-up quotient is the number of slices |
| `SplitMerge.StockOfParts` | knv/protocol.cc:740-758 | the check over all parts finds the concatenation exactly when no index is missing |
| `SplitMerge.DuplicateRefused` | knv/protocol.cc:724-731 | a part that is already there is refused with -4 and changes nothing |
| `SplitMerge.MergeParts` | knv/protocol.cc:739-811 | what an insertion leads to: waiting, out of memory, the decoded packet, or -13 with all parts taken out |
| `SplitMerge.CollectingInAnyOrder` | knv/protocol.cc:683-811 | as long as an index is missing the receiver holds exactly the parts that came, in whatever order and repetition, and is incomplete |
| `SplitMerge.LastArrivalCompletes` | knv/protocol.cc:739-811 | the arrival of the last missing index yields the decoded concatenation |
| `SplitMerge.AnyArrivals` | knv/protocol.cc:683-811 | every run of arrivals, also beyond completion: exactly what was collected since the packet was last complete, or the packet |
| `SplitMerge.CopiesAll` | knv/protocol.cc:774-800 | the copying loop never stops early as long as the parts fit an int together |
| `SplitMerge.NeverAstray` | knv/protocol.cc:740-800 | while the parts of a split packet are collected with real buffers, the copy never writes outside of one |
| `SplitMerge.NullBufferIsUsed` | knv/protocol.cc:766-800 | while parts are collected, the copy writes to a null buffer if and only if the last missing part arrives, the memory fails, and the parts make up more than 4194304 bytes |
| `SplitMerge.FailedMergeIsFinal` | knv/protocol.cc:766-772 | a merge without a UcMem object, or without its memory up to 4194304 bytes, gives -9; after that every later part is refused with -4, and the packet is never completed |
| `Protocol.PlacedPart` | knv/protocol.cc:922-945 | after the loop of Split, every part is found under its tag |
| `Protocol.HeaderChild` | knv/protocol.cc:922-945 | the header is a child of the tree after the loop exactly if there are at most 2495 parts, and the other children do not depend on it |
| `Protocol.LostHeadersHappen` | knv/protocol.cc:902-945 | a body of 300000 bytes and a maximal size of 128 give at least 2496 parts, and the header is lost |
| `Protocol.CutUp` | knv/protocol.cc:902-945 | the number of parts, the header that carries it, and the children after all parts were put in |
| `Protocol.KnvProtocol.Split` | knv/protocol.cc:813-948 | whether the packet stays whole, is refused or is cut; the parts, the 8-bit count and the header afterwards, which is lost exactly from 2496 parts on |
| `Protocol.KnvProtocol.EncodePart` | knv/protocol.cc:950-991 | for every int, the error codes, and, as long as the header was not lost, the bytes sent for a part and what changes in the header |
| `Protocol.KnvProtocol.AddPartial` | knv/protocol.cc:683-811 | for objects with their headers: return code and whole new state, also when the int length overflows, unless the copy runs past its buffer or writes to a null one |
| `Protocol.Decide` | knv/protocol.cc:828-911 | the size estimates and the division decide as the slices do |
| `Protocol.PlaceAll` | knv/protocol.cc:910-945 | the loop over all children, the header among them, puts exactly the slices into the tree |
| `Protocol.CountParts` | knv/protocol.cc:740-758 | the counting loop finds the first missing or unusable part, or the total length as an int |
| `Protocol.CopyParts` | knv/protocol.cc:774-800 | the copying loop builds the concatenation and takes the parts out, up to the first that exceeds the size |
| `Protocol.SendingIsPart` | knv/protocol.cc:984-990 | what is sent for a part arrives as that part |
| `Protocol.PlanParts` | knv/protocol.cc:902-914 | a cut packet has at least two parts that make up its encoding |
| `Protocol.SplitThenReassemble` | knv/protocol.cc:683-811 | for every packet cut into at most 255 parts: incomplete until the last missing index arrives, then exactly the original |
| `Protocol.FewerSlicesDoNotDecode` | knv/protocol.cc:801-807 | fewer than all slices never decode |
| `Protocol.TooManyParts` | knv/protocol.cc:913-913 | from 256 parts on, no arrivals ever become the original packet; a part counts as sent only while the header is there, so from 2496 parts on none is |
| `Protocol.ManyPartsHappen` | knv/protocol.cc:902-945 | a body of 30000 bytes and a maximal size of 128 give at least 256 parts, and no way back |
| `Protocol.FewPartsHappen` | knv/protocol.cc:902-945 | a body of 1000 bytes is cut into at most 255 parts that can be put together again |
| `Protocol.ReassemblyIffFewParts` | knv/protocol.cc:902-945 | some parts that were sent with their header become the original packet again if and only if there are at most 255 parts |
| `Transfer.EncodingIsStable` | knv/protocol.cc:978-990 | the packet for a part does not depend on what was encoded before |
| `Transfer.Prepare` | knv/protocol.cc:813-948 | after Split every part can be sent |
| `Transfer.SendPart` | knv/protocol.cc:950-991 | sending a part gives its packet and leaves the sender ready for any other |
| `Transfer.PassOne` | knv/protocol.cc:683-991 | one part more is passed, whatever came before it |
| `Transfer.PassAll` | knv/protocol.cc:683-811 | parts passed between two objects in any order lead where the run of arrivals leads |
| `Transfer.Exchange` | knv/protocol.cc:683-991 | two objects, any order, any repetition: the receiver becomes the original packet at the moment the last missing part arrives and holds exactly the parts asked for before; parts that come later start a new collection |

## Left out

- Sockets, select, timeouts and the connection handshake: a receive is an arbitrary piece of the stream here.
- DES itself and the derivation of its key: any block function that keeps lengths, invertible where that is needed.
- `KnvNode` beyond what packets use: trees are a header and a list of fields; duplicate header nodes, hashing of children, keys and evaluation caches are not modelled. Whether a payload parses is a parameter of the scanner.
- Failures to allocate inside `KnvNode`, `Split` and the encoders; the merge buffer of `AddPartial` and all memory of the pools can fail.
- Error messages, monitoring counters and printing.
- The other framing of packets in `knv/protocol.cc` (the OIDB formats), which would add only easy members.
- The hash table, the storage and the server side of the repository.
- Column descriptions (`mysql_proxy_fetch_field`), which repeat the row cursor in a simpler form.
- `pb_add_field_val` with a wire type outside the four known ones, and buffers larger than an int can count.
- Interleavings of the counters in `knv/mem_pool.cc`: the allocator is modelled for one thread, where every compare-and-swap succeeds at once. Its counters are exact integers instead of 64-bit words.
- Blocks of memory are values with an identity and a flag; their contents and addresses do not appear. The free list of a pool is the stack that `ObjPool` and `ObjPoolRuns` show it to be.
- Row positions are indices into the tree instead of node pointers.
- Pointer arithmetic of the scanner is exact: `packet + packlen` does not wrap around.
- Setting bits that are known to be clear is written as addition.
- Protocol.KnvProtocol.AddPartial: says nothing of a copy that leaves its buffer (a total of 2^32 bytes or more, or a buffer that is null), nor of objects whose header was released, all of which the source does not define; `Astray` in SplitMerge names the former, and `headed` the latter.
- Protocol.KnvProtocol.EncodePart: says nothing of the bytes for an object whose header was released by Split (from 2496 parts on), since the source then reads and writes a node of the free list.
- Protocol.KnvProtocol.Split: says nothing of the content of a header that it released itself, and nothing of a second call on such an object.

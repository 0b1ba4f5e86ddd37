# Vanadium, modelled and proved in Dafny

Vanadium runs applications on a RISC-V machine inside a secure element. The memory of an application
lives on an untrusted host, page by page, and comes back with Merkle proofs; requests and replies are
cut into chunks; screens and messages are serialized; descriptors are matched by generated code. This
project models these parts of the repository and proves what they are for.

All files belong together: `dafny verify dfyconfig.toml` checks them.

## Parts

**Merkle trees** (`merkle_tree`, `proof_verifier`, `accumulator`, `memory_checking`, `out_of_range`,
`root_computer`). The hash is any function from byte strings to 32 bytes; leaves are hashed after the
byte 0x00 and pairs after 0x01. The verifiers are fed one sibling at a time, the accumulator keeps its
heap array and rewrites one path in place, the root computer keeps its stack. The main result is
`MemoryIsCorrectOrHashCollides`: a verifier that holds one root, against a prover that may answer
anything, sees a correct memory in every run, or a ghost function computes two different inputs with
the same hash. Nothing assumes that the hash is injective.

**Machine memory** (`flat_memory`, `paged_memory`, `host_memory`). The VM's segments write pages in
place; every method is proved against one flat byte array. The host's page list is proved to hold each
byte where the VM's address translation looks for it.

**Outsourced memory** (`page_cache`, `host_link`, `outsourced_memory`, `outsourced_segment`, `honest_host`).
The device's page cache loads pages with inclusion proofs, and encrypts and commits modified pages with update
proofs when it evicts them, whatever slot the eviction strategy chooses. The host is any function of all that
it was asked. `RunPackaged` puts the parts together: the packager lays out the data and computes the root, and
a segment that keeps this root alone gives, for any accesses and any host, the answers of one flat array that
starts with the data, until the host makes an access fail; or else the run shows two inputs with the same hash
(for a code segment, `Replay` also allows an authentication code for another page). With an honest host, which
cuts its proofs in any way, no access fails before the connection does; `honest_host` proves that the client
is such a host.

**The processor** (`words`, `riscv_decode`, `riscv_machine`, `machine_arithmetic`, `machine_runs`,
`reservations`, `rvc_expansion`, `riscv_encoding`, `instruction_laws`, `step_laws`, `cpu`). The decoder is bit-exact
for all 16- and 32-bit words: it is proved against the listing of 32-bit encodings and against the expansions of the
compressed ones. The class `Cpu` changes registers, memory and reservation in place and is proved against the state
machine `RiscvMachine`, about which the run invariants are proved. What each instruction does to that machine is
stated once more in the terms of the ISA, in `instruction_laws`.

**The device** (`device_cpu`, `device_run`). The same `Cpu` over three segments of outsourced memory that share
one connection and one AES counter. `StartVapp` goes from the manifest to the end of the run: against any
host, the device takes the steps of a run of `RiscvMachine` over flat arrays with the packaged pages, until
the host fails, or a breach is shown.

**The chunk protocol** (`comm`, `comm_programs`). Device and host are two programs that take turns; their
composition is a transition system with a step for each chunk, and the loops of both programs are proved
against it.

**Serialization** (`codec`, `codec_proofs`, `wire_format`, `utf8`, `serializer`, `decode_limits`, `staged`). A schema
datatype stands for all types that derive the traits. The buffer code is proved against the encoding function, and
that function against the format, byte by byte; the wrapped form, in which runtime arguments are filled in later,
gives the same bytes.

**The pattern compiler** (`descriptor_patterns`, `pattern_compiler`, `pattern_matching`,
`pattern_rebuild`, `pattern_entries`, `pattern_spec`). Lowering and folding produce code, an interpreter runs the code,
and the code is proved to match and to capture what the pattern does. The second generator builds descriptors
back, one for each pattern of an entry. Both are stated for lists of entries, and for those of the repository's
own specification.

**Smaller algorithms** (`aes_ctr`, `page_packing`, `bignum`, `curve`, over `big_endian`).

`machine_ints` and `buffers` hold integer ranges, remainders, and stores into a buffer.

## Results about the code that a reader may not expect

- The proof verifier does not check the index. With one leaf, an index out of range is accepted for the
  root itself as long as too few siblings have been fed (`OutOfRange.ShortProofsExist`); the only other
  accepted proofs climb to the root from below the leaves (`OutOfRange.OutOfRangeAccepted`), and over known
  contents each of these gives a collision (`OutOfRange.OutOfRangeCollides`).
- The device refuses the empty update proof of a section of one page, so such a page can never be committed.
  This does no harm: only a request for another page evicts it
  (`OutsourcedMemories.OutsourcedMemory.SeveralPages`).
- The hint C.SLLI with destination x0 decodes as an unknown instruction and stops the machine, although
  section 16.8 of the ISA gives it an expansion that does nothing; it is the only legal compressed
  encoding that differs (`MachineRuns.CompressedMeansExpansion`).
- Three families of reserved compressed encodings are executed, C.LUI with a zero immediate and shifts by more
  than 31; all other reserved ones are unknown instructions (`RvcExpansion.ReservedDecodes`).
- A device receives exactly the requests that one vector can hold, fewer bytes than half of its address
  space (`Comm.DeliversExactlyWhatFits`). With 32-bit addresses it panics for a request of 2^31 bytes or
  more, and reports too many bytes from 2^32 - 4 on (`Comm.RequestLimit`).
- A vector is decoded into memory reserved for the announced number of items. A device reads back exactly
  the values it can hold (`DecodeLimits.DeviceRoundTrip`), but where that is less than 2^32 - 1 items, four
  bytes are enough to make it panic (`DecodeLimits.FourBytesOverflow`).
- The host cannot lay out data that reach into the last page of the address space: it panics
  (`HostMemory.LayOut`).
- A constant string of 2^16 bytes or more is cut to a 16-bit length without a panic
  (`Staged.ConstStrLimit`), and an enum with more than 256 variants reuses tags (`CodecProofs.TagLimit`).
- The guard of a generated construction always reads the fields `threshold` and `keys`. A musig that
  binds other names is guarded by the wrong fields, and a descriptor that matched is not built back
  (`PatternRebuild.GuardReadsOtherFields`).
- An aggregate without keys loses its derivation pair (`PatternRebuild.EmptyMusigLosesPair`). The parser of
  descriptors refuses aggregates of fewer than two keys, so only a key expression made in another way gets
  there.
- A multisig leaf whose keys must all sign is also built back as an aggregate. That one belongs to the same
  class exactly when the keys share their derivation pair (`PatternSpec.AggregateOfMultisig`,
  `PatternSpec.AggregateForgetsPairs`).
- `from_compressed` does not compare x with the field prime, as section 2.3.4 of SEC 1 asks. The native
  multiplication refuses larger operands, and then so does `from_compressed` (`Curve.RefusedUnlessReduced`).
  With calls that take any 32 bytes, which the documented contract allows, every x for which x + p still has
  32 bytes has a second name (`Curve.SecondName`), and p + 1 is accepted (`Curve.UnreducedAccepted`).

## Model

| member | source | states |
|---|---|---|
| MerkleTree.NodeInputInjective | common/src/accumulator.rs:650-662 | the input of an internal node is 0x01, the left and then the right child, so it determines both |
| MerkleTree.RootOfHalves | common/src/accumulator.rs:624-639 | the root of two halves is the hash of their roots, so levels and recursion agree |
| MerkleTree.RootByHash | common/src/accumulator.rs:624-662 | in terms of the hash alone: the root of one leaf is the leaf, any other is the hash of 0x01 and the roots of the left and the right half |
| MerkleTree.NodeAtZero | common/src/accumulator.rs:624-639 | the node at index 0 of the heap array is the root |
| MerkleTree.ClimbPath | common/src/accumulator.rs:378-411 | hashing upwards along the siblings of any node reaches the root |
| MerkleTree.PathIgnoresOwnLeaf | common/src/accumulator.rs:551-604 | the siblings of a leaf do not depend on that leaf |
| ProofVerifier.AcceptsExactLength | common/src/accumulator.rs:378-411 | for an index in range a proof is accepted exactly if it has one sibling for each level and climbs to the root; shorter and longer ones never are |
| ProofVerifier.AfterByHash | common/src/accumulator.rs:378-407 | one more sibling is hashed after 0x01, before the current hash at an even position and behind it at an odd one |
| ProofVerifier.MerkleInclusionProofVerifier.Feed | common/src/accumulator.rs:378-407 | the fields after each sibling follow the climb over all siblings fed so far |
| ProofVerifier.MerkleInclusionProofVerifier.Verified | common/src/accumulator.rs:409-411 | the flag says whether the siblings fed so far are an accepted proof |
| ProofVerifier.MerkleUpdateProofVerifier.Feed | common/src/accumulator.rs:425-428 | both verifiers take the same sibling |
| ProofVerifier.MerkleUpdateProofVerifier.Verified | common/src/accumulator.rs:430-432 | one list of siblings serves the old value and root, and the new ones |
| ProofVerifier.VerifyInclusionProof | common/src/accumulator.rs:324-337 | feeding a whole proof decides acceptance |
| ProofVerifier.VerifyUpdateProof | common/src/accumulator.rs:339-362 | feeding a whole update proof decides acceptance for both roots |
| ProofVerifier.CollisionOfProofs | common/src/accumulator.rs:378-411 | two different proofs accepted for one root, size and index give two different 65-byte internal-node inputs with the same hash |
| ProofVerifier.Binding | common/src/accumulator.rs:461-476 | accepted proofs agree in value and in every sibling, or the computed pair collides |
| Accumulator.MerkleAccumulator.constructor | common/src/accumulator.rs:514-527 | the array is the heap of the leaf hashes, and `IsHashTree` holds |
| Accumulator.MerkleAccumulator.BuildTree | common/src/accumulator.rs:624-662 | every leaf node is `h([0x00] + data[i])`, every inner node `h([0x01] + tree[2i + 1] + tree[2i + 2])`; for two elements `tree[0]` is written out in full |
| Accumulator.MerkleAccumulator.Prove | common/src/accumulator.rs:551-573 | the loop returns the siblings of the leaf, an accepted proof; out of range is an error |
| Accumulator.MerkleAccumulator.Update | common/src/accumulator.rs:581-604 | only nodes on one path change, yet the array is that of the new data; the proof is that of `prove` before and after, and is accepted with both roots |
| Accumulator.MerkleAccumulator.RehashPath | common/src/accumulator.rs:590-601 | the upward loop turns the old heap into the new one |
| Accumulator.ValidIsHashTree | common/src/accumulator.rs:581-662 | the same of every accumulator, so also after any updates |
| Accumulator.HonestProofAccepted | common/src/accumulator.rs:551-573 | the path of a leaf is accepted for the root of the leaves |
| Accumulator.HonestUpdateAccepted | common/src/accumulator.rs:339-362 | the path of a leaf serves before and after its replacement |
| MemoryChecking.AcceptedEventIsExact | common/src/accumulator.rs:324-362 | an accepted read shows the vector's value and an accepted update commits exactly to one replaced slot, or a collision is computed |
| MemoryChecking.HonestWriteCommits | common/src/accumulator.rs:339-362 | an accepted update with the honest siblings commits to the vector with that slot replaced |
| MemoryChecking.MemoryIsCorrectOrHashCollides | common/src/accumulator.rs:378-432 | in every accepted run each value is the last one committed at its index and the root commits to the vector, or a collision is computed |
| MemoryChecking.PageIsLastWrittenOrHashCollides | common/src/accumulator.rs:642-648 | the same for page contents behind leaf hashes |
| OutOfRange.OutOfRangeAccepted | common/src/accumulator.rs:378-411 | an index out of range is accepted exactly with one leaf, its own hash as the root and too few siblings, or by a full climb to the root |
| OutOfRange.ShortProofsExist | common/src/accumulator.rs:468-476 | proofs of the first kind, for the indices 1 and 3 |
| OutOfRange.CollisionBelowLeaves | common/src/accumulator.rs:642-662 | a full climb to the root of known contents gives two colliding inputs: an internal node, and a leaf or another node |
| OutOfRange.OutOfRangeCollides | common/src/accumulator.rs:378-411 | every other accepted proof for an index out of range gives such a collision |
| RootComputer.StackLength | common/src/accumulator.rs:703-732 | the stack has one hash for each one in the binary representation of the number of leaves |
| RootComputer.CombineStep | common/src/accumulator.rs:712-728 | one combination turns the roots of two neighbouring blocks into that of their union |
| RootComputer.MerkleAccumulatorRootComputer.Feed | common/src/accumulator.rs:703-732 | after each leaf the stack holds the roots of the perfect subtrees of the binary digits |
| RootComputer.MerkleAccumulatorRootComputer.GetRoot | common/src/accumulator.rs:734-742 | after all leaves the only hash is the root; of two leaves it is `h([0x01] + left + right)` |
| RootComputer.StackAndMerges | common/src/accumulator.rs:681-732 | stack length and merges so far are popcount(k) and k - popcount(k), fewer than 2n |
| RootComputer.StreamedRoot | common/src/accumulator.rs:681-742 | the streamed root is `tree[0]` of the accumulator, whose array is the hash tree of the elements; for two elements it is written out in full |
| FlatMemory.AlignedInPage | common/src/vm.rs:174-198 | no aligned access crosses a page, for any even start |
| FlatMemory.BufferInside | common/src/vm.rs:269-341 | a buffer access is refused at once exactly if it leaves the segment, and as an overflow exactly if it leaves the address space |
| FlatMemory.ReadAfterWrite | common/src/vm.rs:201-266 | what was written is read |
| FlatMemory.ReadAfterDisjointWrite | common/src/vm.rs:201-266 | other addresses do not see a write |
| FlatMemory.WritesStayInside | common/src/vm.rs:201-341 | only bytes of the segment are written, never padding |
| FlatMemory.BackedNeverMisses | common/src/vm.rs:136-198 | with enough pages no access reports a missing page |
| FlatMemory.MemoryRemembersLastWrite | common/src/vm.rs:136-341 | after any sequence of accesses each byte is the one written there last |
| PagedMemory.MemorySegment.constructor | common/src/vm.rs:104-127 | the segment stands for the bytes of its pages |
| PagedMemory.MemorySegment.Check | common/src/vm.rs:109-119 | which start and size `new` accepts |
| PagedMemory.MemorySegment.Contains | common/src/vm.rs:130-132 | membership of an address |
| PagedMemory.MemorySegment.ReadU8 | common/src/vm.rs:136-148 | equals the flat read, with every refusal |
| PagedMemory.MemorySegment.ReadU16 | common/src/vm.rs:152-170 | equals the flat read, with every refusal |
| PagedMemory.MemorySegment.ReadU32 | common/src/vm.rs:174-198 | equals the flat read, with every refusal |
| PagedMemory.MemorySegment.WriteU8 | common/src/vm.rs:201-215 | equals the flat write; all other bytes stay |
| PagedMemory.MemorySegment.WriteU16 | common/src/vm.rs:219-238 | equals the flat write; all other bytes stay |
| PagedMemory.MemorySegment.WriteU32 | common/src/vm.rs:242-266 | equals the flat write; all other bytes stay |
| PagedMemory.MemorySegment.ReadBuffer | common/src/vm.rs:269-305 | page by page equals the flat read; if a page is missing what precedes it is in the buffer |
| PagedMemory.MemorySegment.WriteBuffer | common/src/vm.rs:308-341 | page by page equals the flat write; if a page is missing what precedes it is written |
| PagedMemory.Replay | common/src/vm.rs:104-341 | any sequence of accesses gives the answers and the final bytes of the flat array |
| HostMemory.SerializedPageBytes | client-sdk/src/memory.rs:13-23 | each byte that is hashed for a page: the flag, the nonce or zeros, the content |
| HostMemory.LayoutsAgree | client-sdk/src/memory.rs:72-119 | page index and offset that the VM computes select exactly the byte at the address |
| HostMemory.PaddingPagesAreZero | client-sdk/src/memory.rs:105-115 | everything after the data reads as zero |
| HostMemory.NextPowerOfTwoIsLeast | client-sdk/src/memory.rs:105-115 | no smaller power of two is large enough |
| HostMemory.LayOut | client-sdk/src/memory.rs:72-116 | the loops of `new` produce these pages, as many as the next power of two of `n_pages`, or panic exactly if the end of the last data page is 2^32 |
| HostMemory.HostMemorySegment.New | client-sdk/src/memory.rs:72-119 | the accumulator of the serialized pages, or a panic exactly if the data reach into the last page of the address space |
| HostMemory.HostMemorySegment.GetPage | client-sdk/src/memory.rs:121-134 | the page and the siblings of its path, a proof accepted for the current root |
| HostMemory.HostMemorySegment.StorePage | client-sdk/src/memory.rs:136-146 | one page is replaced, and the update proof serves both roots |
| HostMemory.LastPage | common/src/manifest.rs:124-126 | the page count of the manifest is reached exactly at the end of the segment |
| HostMemory.HostPagesBackTheSegment | client-sdk/src/memory.rs:72-119 | a VM segment over the host's pages is fully backed, contains the data, and is zero around it |
| PageCache.CommittedLeaf | vm/src/handlers/lib/outsourced_mem.rs:166-169 | the leaf of an encrypted page gives the page back |
| PageCache.LoadCollision | vm/src/handlers/lib/outsourced_mem.rs:310-362 | for any index: an accepted leaf is the committed one of an index in range, or a collision is computed, or the memory has one page, the index is out of range and too few siblings came |
| PageCache.CommitCollision | vm/src/handlers/lib/outsourced_mem.rs:211-258 | an accepted update commits to the leaves with that one replaced, or a collision is computed |
| PageCache.Loaded | vm/src/handlers/lib/outsourced_mem.rs:531-539 | a page put into a free slot from its leaf is the current page, and cache and leaves stand for the same pages as before |
| PageCache.CommittedAndDropped | vm/src/handlers/lib/outsourced_mem.rs:502-515 | so they do after a modified page was committed and its slot freed |
| HostLinks.HostLink.Interrupt | vm/src/io.rs:38-57 | one request is added to those asked, and answered unless the connection fails; the exchange stays that of an honest host exactly as long as the answer is one of its own |
| OutsourcedMemories.OutsourcedMemory.constructor | vm/src/handlers/lib/outsourced_mem.rs:101-129 | an empty cache over a root that commits to the pages in clear |
| OutsourcedMemories.OutsourcedMemory.FeedContinued | vm/src/handlers/lib/outsourced_mem.rs:331-356 | siblings are asked for and fed; without an error at least the announced number came, and from an honest host exactly what was missing, with no error |
| OutsourcedMemories.OutsourcedMemory.FeedUpdateContinued | vm/src/handlers/lib/outsourced_mem.rs:228-250 | the same for an update proof |
| OutsourcedMemories.OutsourcedMemory.HonestPage | vm/src/handlers/lib/outsourced_mem.rs:284-309 | a page that an honest host sends is the committed one, and comes with what makes the device accept it |
| OutsourcedMemories.OutsourcedMemory.HonestCommit | vm/src/handlers/lib/outsourced_mem.rs:189-226 | so does its answer to a commit, and it then holds the new leaf |
| OutsourcedMemories.OutsourcedMemory.LoadPage | vm/src/handlers/lib/outsourced_mem.rs:263-434 | a page is returned only with an accepted proof or, for code in clear, an authentication code of its leaf; it is the plaintext of that leaf; an honest host gives the committed leaf, and no error if that can be decrypted |
| OutsourcedMemories.OutsourcedMemory.CommitPageAt | vm/src/handlers/lib/outsourced_mem.rs:144-261 | the nonce is the number of pages encrypted before; the page is sent encrypted with it, and the new root replaces the old one only with an accepted update; an error comes only from another host than an honest one, or from the block function |
| OutsourcedMemories.OutsourcedMemory.Seal | vm/src/handlers/lib/outsourced_mem.rs:164-175 | the page is encrypted with the next nonce: each byte is `^` a byte of the keystream at `messages * 2^32`; its new leaf gives the page back |
| OutsourcedMemories.OutsourcedMemory.Evict | vm/src/handlers/lib/outsourced_mem.rs:502-515 | a modified page is committed, and the slot is free; a failed commit changes neither the cache nor the root nor the leaves |
| OutsourcedMemories.OutsourcedMemory.SeveralPages | vm/src/handlers/lib/outsourced_mem.rs:494-503 | a page that exists is missing in a full cache only if the memory has several pages |
| OutsourcedMemories.OutsourcedMemory.GetPage | vm/src/handlers/lib/outsourced_mem.rs:473-544 | for any index: the slot holds the current page, from the last access, the cache or the host, or `breach` shows how the host got past a proof, which for a page that exists is a collision or a forged code; with an honest host and a page that exists there is no error |
| OutsourcedMemories.OutsourcedMemory.WritePage | vm/src/handlers/lib/outsourced_mem.rs:449-454 | one page changes as written and is marked as modified |
| OutsourcedMemories.OutsourcedMemory.StillAgrees | vm/src/handlers/start_vapp.rs:85-139 | what the other memories ask of the host leaves this one as it is |
| OutsourcedSegments.OutsourcedSegment.ReadWord | common/src/vm.rs:136-198 | equals the flat read, unless the host fails |
| OutsourcedSegments.OutsourcedSegment.WriteWord | common/src/vm.rs:201-266 | equals the flat write, unless the host fails |
| OutsourcedSegments.OutsourcedSegment.ReadBuffer | common/src/vm.rs:269-305 | equals the flat read, page by page |
| OutsourcedSegments.OutsourcedSegment.WriteBuffer | common/src/vm.rs:308-341 | equals the flat write, page by page |
| OutsourcedSegments.Replay | vm/src/handlers/lib/outsourced_mem.rs:473-544 | against any host, every answer to any sequence of accesses is that of one flat byte array, until the host fails, or `breach` shows a collision or a forged code; with honest answers all accesses are answered; no counter block is used twice for the first 2^96 committed pages |
| OutsourcedSegments.FailsOnlyWhenLost | vm/src/handlers/lib/outsourced_mem.rs:263-434 | a host that never deviates from an honest one gets past no proof, and an access fails only when the connection does, or the block function |
| OutsourcedSegments.PackagedHostExists | client-sdk/src/vanadium_client.rs:269-509 | there is such a host over the packaged pages, for any parts into which it cuts its proofs |
| OutsourcedSegments.RunPackaged | vm/src/handlers/start_vapp.rs:107-139 | from the packager's root to the last access: the flat array starts as the packaged data; an honest host over these pages answers all accesses unless the connection is lost |
| HonestHosts.AnswerIsHonest | client-sdk/src/vanadium_client.rs:291-412 | the client's answer to a proper request is one of an honest host, for any size of the parts |
| HonestHosts.LargestParts | common/src/client_commands.rs:218-470 | the parts of proofs are the largest that fit into a message |
| HonestHosts.StrategyNeverDeviates | client-sdk/src/vanadium_client.rs:269-509 | answering so in a whole run, with parts of any sizes, never deviates from an honest host |
| HonestHosts.VanadiumClient.ProcessGetPage | client-sdk/src/vanadium_client.rs:269-362 | the page with its stored code or the first part of its proof; an error exactly if there is no such page |
| HonestHosts.VanadiumClient.ProcessCommitPage | client-sdk/src/vanadium_client.rs:414-458 | the page is stored and the first part of the update proof is sent; commits to the code are refused |
| HonestHosts.VanadiumClient.SendPart | client-sdk/src/vanadium_client.rs:377-408 | the next part of the proof |
| HonestHosts.VanadiumClient.Serve | client-sdk/src/vanadium_client.rs:243-267 | every proper request is answered as by an honest host with the pages of the three segments, which change as that host's do |
| MachineArithmetic.MultiplyLaws | common/src/vm.rs:587-601 | MUL with MULH, MULHSU and MULHU make up the product of 64 bits |
| MachineArithmetic.DivideSignedLaws | common/src/vm.rs:602-629 | DIV and REM: quotient rounded to zero, remainder with the sign of the dividend, overflow and division by zero |
| MachineArithmetic.DivideUnsignedLaws | common/src/vm.rs:609-629 | DIVU and REMU, also for a divisor of zero |
| MachineArithmetic.ShiftLaws | common/src/vm.rs:583-584 | SRA rounds towards minus infinity, SRL divides |
| InstructionLaws.SignedIsOnlyOne | common/src/vm.rs:577-735 | `Signed` is the one signed number of 32 bits equal to `x` modulo 2^32 |
| InstructionLaws.AddLaw | common/src/vm.rs:577-577 | ADD: the sum modulo 2^32 |
| InstructionLaws.SubLaw | common/src/vm.rs:578-578 | SUB: rs1 minus rs2 modulo 2^32 |
| InstructionLaws.AddiLaw | common/src/vm.rs:630-630 | ADDI: the sum with the immediate modulo 2^32 |
| InstructionLaws.LuiLaw | common/src/vm.rs:707-707 | LUI: the immediate |
| InstructionLaws.AuipcLaw | common/src/vm.rs:632-632 | AUIPC: program counter plus immediate |
| InstructionLaws.AndLaw | common/src/vm.rs:586-586 | AND: the pattern of the result is `&` of the patterns |
| InstructionLaws.OrLaw | common/src/vm.rs:585-585 | OR: `|` of the patterns |
| InstructionLaws.XorLaw | common/src/vm.rs:582-582 | XOR: `^` of the patterns |
| InstructionLaws.AndiLaw | common/src/vm.rs:631-631 | ANDI: `&` with the immediate |
| InstructionLaws.OriLaw | common/src/vm.rs:708-708 | ORI: `|` with the immediate |
| InstructionLaws.XoriLaw | common/src/vm.rs:735-735 | XORI: `^` with the immediate |
| InstructionLaws.SllLaw | common/src/vm.rs:579-579 | SLL: multiplies by the power of two modulo 2^32, for the low five bits of rs2 |
| InstructionLaws.SrlLaw | common/src/vm.rs:583-583 | SRL: the quotient by the power of two, rounded down |
| InstructionLaws.SraLaw | common/src/vm.rs:584-584 | SRA: the signed quotient, rounded down |
| InstructionLaws.SlliLaw | common/src/vm.rs:730-730 | SLLI: multiplies by the power of two modulo 2^32 |
| InstructionLaws.SrliLaw | common/src/vm.rs:733-733 | SRLI: the quotient, rounded down |
| InstructionLaws.SraiLaw | common/src/vm.rs:734-734 | SRAI: the signed quotient, rounded down |
| InstructionLaws.SltLaw | common/src/vm.rs:580-580 | SLT: one exactly if rs1 is smaller as a signed number, else zero |
| InstructionLaws.SltuLaw | common/src/vm.rs:581-581 | SLTU: the same as unsigned numbers |
| InstructionLaws.SltiLaw | common/src/vm.rs:731-731 | SLTI: against the signed immediate |
| InstructionLaws.SltiuLaw | common/src/vm.rs:732-732 | SLTIU: against the immediate as an unsigned number |
| InstructionLaws.MulLaw | common/src/vm.rs:587-587 | MUL: the product modulo 2^32 |
| InstructionLaws.MulhuLaw | common/src/vm.rs:598-601 | MULHU: with MUL it makes up the unsigned product |
| InstructionLaws.MulhLaw | common/src/vm.rs:588-591 | MULH: with MUL it makes up the signed product |
| InstructionLaws.MulhsuLaw | common/src/vm.rs:592-597 | MULHSU: with MUL it makes up the mixed product |
| InstructionLaws.DivuRemuLaw | common/src/vm.rs:609-629 | DIVU and REMU: quotient and remainder, and division by zero |
| InstructionLaws.DivRemLaw | common/src/vm.rs:602-629 | DIV and REM: the quotient rounds to zero, the remainder has the sign of the dividend; division by zero and overflow |
| InstructionLaws.BeqLaw | common/src/vm.rs:633-637 | BEQ: the program counter moves by the immediate exactly if the registers are equal, else by the size; no register changes |
| InstructionLaws.BneLaw | common/src/vm.rs:638-642 | BNE: exactly if they differ |
| InstructionLaws.BltLaw | common/src/vm.rs:643-647 | BLT: exactly if rs1 is smaller as a signed number |
| InstructionLaws.BgeLaw | common/src/vm.rs:648-652 | BGE: exactly if it is not |
| InstructionLaws.BltuLaw | common/src/vm.rs:653-657 | BLTU: exactly if rs1 is smaller as an unsigned number |
| InstructionLaws.BgeuLaw | common/src/vm.rs:658-662 | BGEU: exactly if it is not |
| InstructionLaws.JalLaw | common/src/vm.rs:663-666 | JAL: a relative jump that writes the address of the next instruction |
| InstructionLaws.JalrLaw | common/src/vm.rs:667-672 | JALR: to register plus immediate without the lowest bit, and the same link |
| InstructionLaws.FenceLaw | common/src/vm.rs:831-833 | FENCE: only the program counter moves |
| InstructionLaws.UnsupportedLaw | common/src/vm.rs:834-846 | ECALL without a handler, EBREAK and unknown words are errors |
| InstructionLaws.LoadLaw | common/src/vm.rs:445-478 | a load reads the first of stack, data and code that contains the address, lowest byte first, or says why not |
| InstructionLaws.StoreLaw | common/src/vm.rs:481-532 | a store changes exactly the bytes of the value in stack or data, lowest byte first, or says why not |
| InstructionLaws.LbLaw | common/src/vm.rs:673-677 | LB: the signed number that the byte stands for |
| InstructionLaws.LhLaw | common/src/vm.rs:678-685 | LH: the signed number that two bytes stand for; aligned only |
| InstructionLaws.LwLaw | common/src/vm.rs:686-693 | LW: the word; aligned only |
| InstructionLaws.LbuLaw | common/src/vm.rs:694-698 | LBU: the byte |
| InstructionLaws.LhuLaw | common/src/vm.rs:699-706 | LHU: two bytes; aligned only |
| InstructionLaws.SbLaw | common/src/vm.rs:709-713 | SB: the low byte of rs2 is stored |
| InstructionLaws.ShLaw | common/src/vm.rs:714-721 | SH: the low two bytes; aligned only |
| InstructionLaws.SwLaw | common/src/vm.rs:722-729 | SW: all four; aligned only |
| InstructionLaws.LrLaw | common/src/vm.rs:741-749 | LR.W: the word is loaded and its address reserved |
| InstructionLaws.ScLaw | common/src/vm.rs:750-762 | SC.W: stores and writes zero exactly if the address is reserved, else writes one; the reservation ends |
| InstructionLaws.AmoLaw | common/src/vm.rs:763-830 | AMOs write the old word and store what swap, add, xor, and, or, min, max, minu or maxu gives: minima and maxima are one of both and bounded by both |
| InstructionLaws.FetchLaw | common/src/vm.rs:551-569 | what is fetched is the two bytes at the program counter, and the next two if the low bits say so |
| Words.ValueOfPattern | common/src/vm.rs:573-707 | the bit pattern of a register value stands for that value |
| Words.PatternOfValue | common/src/vm.rs:573-707 | every bit pattern is that of the value it stands for |
| Words.PatternIsBits | common/src/vm.rs:573-735 | the bits of a pattern are the binary digits of its number |
| MachineRuns.DecodedJumpsEvenly | common/src/riscv/decode.rs:19-43 | every decoded jump or branch has an even offset, every instruction two or four bytes |
| MachineRuns.DecodeIgnoresUpperHalf | common/src/riscv/decode.rs:403-409 | the upper half-word does not matter to a compressed instruction |
| MachineRuns.FetchSeesInstruction | common/src/vm.rs:551-569 | the aligned word path and the half-word path give the same instruction or the same error, never misalignment |
| MachineRuns.ExecuteKeeps | common/src/vm.rs:573-853 | each instruction keeps the program counter even, x0 zero, the code and the extent of memory |
| MachineRuns.RunKeeps | common/src/vm.rs:481-569 | the same in every run from an even program counter with zero in register zero: that of a loaded program, and each one resumed after an ECALL |
| MachineRuns.CodeIsFixed | common/src/vm.rs:551-569 | at every visit of an address a run executes the instruction that the initial code has there |
| MachineRuns.CompressedMeansExpansion | common/src/riscv/decode.rs:171-287 | a legal 16-bit instruction has the effect of its 32-bit expansion with length two, exactly if it is not the hint C.SLLI x0 |
| RvcExpansion.CompressedDecodesAsExpansion | common/src/riscv/decode.rs:94-287 | the decoder gives both the same instruction, up to shift bits that execution ignores, exactly if it is not that hint |
| RvcExpansion.ReservedDecodes | common/src/riscv/decode.rs:171-287 | what every 16-bit word decodes to that the ISA reserves: unknown, but for C.LUI with zero and shifts by more than 31 |
| RiscvEncoding.EncodedRoundTrip | common/src/riscv/decode.rs:290-400 | decoding inverts encoding by the ISA listing, for all instructions, registers and immediates that the format can hold |
| RiscvEncoding.DecodesExactly | common/src/riscv/decode.rs:290-400 | for every 32-bit word: it decodes to an instruction exactly if it encodes it by the listing, up to the ignored fields of fences and atomics, and to unknown exactly if it encodes none |
| RiscvEncoding.EncodedDecodes | common/src/riscv/decode.rs:290-400 | aq, rl and the operands of a fence may be anything |
| StepLaws.EncodedStep | common/src/riscv/decode.rs:403-409 | a fetched word that encodes an instruction is executed as this instruction, with length four |
| StepLaws.CompressedStep | common/src/riscv/decode.rs:403-409 | a fetched legal 16-bit instruction is executed as its expansion, with length two |
| StepLaws.UnknownStep | common/src/vm.rs:844-846 | a fetched word of 32 bits that encodes no instruction is an error |
| RvcExpansion.IImmDecoded | common/src/riscv/decode.rs:27-29 | the immediate of type I is the sign-extended field |
| RvcExpansion.SImmDecoded | common/src/riscv/decode.rs:40-43 | the immediate of type S is the sign-extended field |
| RvcExpansion.BImmDecoded | common/src/riscv/decode.rs:19-24 | the immediate of type B is the sign-extended field |
| RvcExpansion.JImmDecoded | common/src/riscv/decode.rs:32-37 | the immediate of type J is the sign-extended field |
| RvcExpansion.ImmediateJ | common/src/riscv/decode.rs:158-168 | the scattered bits of C.J and C.JAL |
| RvcExpansion.ImmediateB | common/src/riscv/decode.rs:148-155 | the scattered bits of C.BEQZ and C.BNEZ |
| RvcExpansion.ImmediateAddi16sp | common/src/riscv/decode.rs:101-108 | the scattered bits of C.ADDI16SP |
| Reservations.AfterStoreIsOverlap | common/src/vm.rs:481-532 | the interval test with saturating subtraction is overlap of bytes |
| Reservations.ExecuteReserves | common/src/vm.rs:741-829 | how each instruction changes the reservation |
| Reservations.ReservationIsHistory | common/src/vm.rs:481-532 | the field holds an address exactly if the latest LR.W or SC.W of the run is an LR.W of it and no later store or AMO overlapped it, or it held it before the run and nothing disturbed it since |
| Reservations.LoadedRunReservation | vm/src/handlers/start_vapp.rs:141-146 | in a run from the loader, whatever the registers, only the events of the run count |
| Reservations.ScFollowsHistory | common/src/vm.rs:756-769 | SC.W stores its word and returns zero exactly under that history, fails as a store fails, and otherwise returns one and leaves memory |
| CpuModel.Cpu.constructor | common/src/vm.rs:428-442 | the initial state |
| CpuModel.Cpu.ReadMemory | common/src/vm.rs:445-478 | stack, then data, then code, for each width |
| CpuModel.Cpu.WriteMemory | common/src/vm.rs:481-532 | stack, then data, never code; overlapping stores cancel the reservation; a failed write changes nothing |
| CpuModel.Cpu.FetchInstruction | common/src/vm.rs:551-569 | one word, or half by half |
| CpuModel.Cpu.ExecuteLoad | common/src/vm.rs:673-707 | alignment errors, memory errors, extension of the value |
| CpuModel.Cpu.ExecuteStore | common/src/vm.rs:710-731 | alignment errors, memory errors, the stored bytes |
| CpuModel.Cpu.ExecuteLr | common/src/vm.rs:746-754 | the load and the reservation |
| CpuModel.Cpu.ExecuteSc | common/src/vm.rs:755-767 | store or failure, and the end of the reservation |
| CpuModel.Cpu.ExecuteAmo | common/src/vm.rs:768-829 | read, combine, write, return the old value |
| CpuModel.Cpu.Execute | common/src/vm.rs:573-853 | the object does what the state machine does, which `InstructionLaws` states for every instruction, and nothing at all on an error |
| CpuModel.Cpu.Step | common/src/vm.rs:551-853 | one fetch and one execution as in the state machine; `StepLaws` says of what |
| DeviceCpus.DeviceCpu.ReadMemory | common/src/vm.rs:445-478 | over outsourced segments: the value or the error of the machine, unless the host fails or got past a proof; the machine state does not change |
| DeviceCpus.DeviceCpu.WriteMemory | common/src/vm.rs:481-532 | the new state or the error of the machine, with the same exceptions |
| DeviceCpus.DeviceCpu.FetchInstruction | common/src/vm.rs:551-569 | one word, or half by half, as the machine fetches it |
| DeviceCpus.DeviceCpu.ExecuteSc | common/src/vm.rs:755-767 | store or failure, and the end of the reservation |
| DeviceCpus.DeviceCpu.ExecuteAmo | common/src/vm.rs:768-829 | read, combine, write, return the old value; either access may fail |
| DeviceCpus.DeviceCpu.Execute | common/src/vm.rs:573-853 | one instruction, as the machine executes it (`InstructionLaws`) |
| DeviceCpus.DeviceCpu.Step | vm/src/handlers/start_vapp.rs:154-182 | one round of the run loop is a step of the machine (`StepLaws`), unless the host fails or got past a proof |
| DeviceRuns.Run | vm/src/handlers/start_vapp.rs:154-243 | the loop follows one run of the machine and ends by an error of that run, by one of the host, or after its rounds |
| DeviceRuns.StackPointerIsLast | vm/src/handlers/start_vapp.rs:142-144 | the stack pointer starts at the last aligned word of the stack |
| DeviceRuns.StartCpu | vm/src/handlers/start_vapp.rs:85-146 | three memories over one connection and one counter stand for the machine with the packaged pages, the entry point and the stack pointer |
| DeviceRuns.HonestHostServes | vm/src/handlers/start_vapp.rs:85-139 | an honest host gets past no proof of the three memories, and fails only when the connection does |
| DeviceRuns.HonestHostExists | client-sdk/src/vanadium_client.rs:269-509 | there is one for the pages of every manifest, with authentication codes or without, for any parts of its proofs |
| DeviceRuns.StartVapp | vm/src/handlers/start_vapp.rs:85-243 | from the manifest to the end of the run, against any host: a run of the machine over flat arrays with the packaged pages until the host fails, or a shown breach; none of both with an honest host and an unbroken connection; no counter block is used twice in the first 2^96 committed pages of all sections |
| Comm.StepInv | app-sdk/src/comm.rs:81-176 | every step of either program, and every zero-length chunk, keeps the two in step |
| Comm.PrefixBytes | client-sdk/src/comm.rs:58-66 | the length before a message, byte by byte |
| Comm.FirstChunks | app-sdk/src/comm.rs:149-176 | the first chunk of a request and of a reply: four bytes of length and up to 252 bytes |
| Comm.FirstChunkRefused | app-sdk/src/comm.rs:81-105 | which first chunks the device refuses with which error, and where it panics |
| Comm.HostRefuses | client-sdk/src/comm.rs:67-98 | the host goes on exactly after the byte 0x42, and takes replies of four bytes or more |
| Comm.NeverStuck | client-sdk/src/comm.rs:58-98 | while the host is not done, one program can run |
| Comm.EveryRunDelivers | client-sdk/src/comm.rs:58-98 | for a request and a reply that the device can hold: no error in any run, and both byte strings arrive exactly, after ceil((4 + m) / 256) + ceil(max(0, r - 252) / 256) exchanges |
| Comm.RequestLimit | app-sdk/src/comm.rs:96-105 | the device takes the first chunk exactly of requests that a vector can hold; of others it reports too many bytes if the length wraps around, and panics otherwise |
| Comm.DeliversExactlyWhatFits | app-sdk/src/comm.rs:81-129 | some run delivers the request and its reply exactly if the device can hold the request; otherwise no run ever does |
| Comm.WideDeviceHolds | app-sdk/src/comm.rs:96-105 | with 64-bit addresses every request shorter than 2^32 bytes is delivered |
| Comm.ReplyRound | app-sdk/src/comm.rs:160-175 | for every reply that a slice can hold the next index does not wrap around, and the round sends the next chunk |
| CommPrograms.ReceiveMessage | app-sdk/src/comm.rs:81-147 | the loop takes the device's steps |
| CommPrograms.SendReply | app-sdk/src/comm.rs:149-176 | the loop takes the device's steps |
| CommPrograms.SendMessage | client-sdk/src/comm.rs:58-98 | the loops take the host's steps |
| CodecProofs.LengthIsExact | common/src/ux/codec.rs:6-33 | exactly `get_serialized_length` bytes are written |
| CodecProofs.RoundTrip | common/src/ux/codec.rs:60-250 | decoding an encoding followed by anything gives the value and the rest |
| CodecProofs.Canonical | common/src/ux/codec.rs:73-250 | accepted bytes are the encoding of their value |
| CodecProofs.DecodesExactlyEncodings | common/src/ux/codec.rs:60-250 | decoding succeeds with a value and a rest exactly on its encoding followed by the rest |
| CodecProofs.DecodeFullInvertsEncode | common/src/ux/codec.rs:50-57 | a whole string decodes to a value exactly if it is its encoding |
| CodecProofs.PrefixFree | macros/src/derive_serializable.rs:81-221 | no encoding continues another one |
| CodecProofs.TagLimit | macros/src/derive_serializable.rs:81-221 | what becomes of a variant from the 257th on |
| Serializer.Serialize | common/src/ux/codec.rs:60-297 | the encoding, the only byte string in the format `IsWire`, is written from the position on, which moves behind it |
| Serializer.SerializeItems | common/src/ux/codec.rs:278-297 | the loop over a vector |
| Serializer.SerializeFields | macros/src/derive_serializable.rs:584-627 | the fields in order |
| Serializer.Serialized | common/src/ux/codec.rs:19-32 | a buffer of the exact length is filled completely, and its bytes are in the format `IsWire` |
| WireFormat.EncodeIsWire | common/src/ux/codec.rs:60-297 | the bytes themselves: booleans 1 or 0, numbers `FromBE(r) == n`, lengths before strings and vectors, flags before options, the position before the fields of a variant, items and fields in order |
| WireFormat.OnlyEncodingIsWire | common/src/ux/codec.rs:60-297 | no other bytes are in the format |
| WireFormat.FirstError | common/src/ux/codec.rs:73-250 | which bytes fail to decode, and with which error |
| Utf8.ValidExactlyText | common/src/ux/codec.rs:170-190 | strings are accepted exactly if they are the UTF-8 encoding of a sequence of Unicode scalar values |
| DecodeLimits.DeserializeVec | common/src/ux/codec.rs:240-250 | the loop decodes as the recursive definition, or panics where a vector cannot be reserved |
| DecodeLimits.EncodingOverflows | common/src/ux/codec.rs:240-250 | reading back an encoding panics exactly if one of its vectors is longer than a vector can be |
| DecodeLimits.DeviceRoundTrip | common/src/ux/codec.rs:60-250 | a device reads back a value exactly if it can hold it |
| DecodeLimits.WideNeverOverflows | common/src/ux/codec.rs:240-250 | where every 32-bit length can be reserved, no bytes make the decoder panic |
| DecodeLimits.FourBytesOverflow | common/src/ux/codec.rs:240-250 | elsewhere four bytes do |
| Staged.PartsOfWrapped | common/src/ux/codec.rs:341-403 | filling the parts of a wrapped object gives the encoding of the plain one |
| Staged.ConstStrLimit | common/src/ux/codec.rs:373-386 | a constant string is read back exactly if it is shorter than 2^16 bytes |
| Staged.MergeStaticParts | app-sdk/build_utils/mod.rs:14-36 | merging keeps the bytes and the runtime parts, and leaves no two adjacent static parts |
| Staged.Make | app-sdk/build_utils/mod.rs:241-316 | the generated function fills one buffer with all parts |
| Staged.MakeWrapped | macros/src/derive_serializable.rs:663-679 | the whole way from a wrapped object to the bytes of the plain one, which decode to it |
| PatternCompiler.FoldSteps | apps/bitcoin/bip388/build.rs:1002-1058 | the reverse loop nests the tests |
| PatternCompiler.NestedRuns | apps/bitcoin/bip388/build.rs:1002-1058 | the nested tests run the steps one after the other |
| PatternCompiler.Lowering.Next | apps/bitcoin/bip388/build.rs:838-844 | a variable that was not handed out before |
| PatternCompiler.Lowering.Lower | apps/bitcoin/bip388/build.rs:865-1000 | pushes the steps, preamble and bindings of the pattern |
| PatternCompiler.Lowering.LowerOne | apps/bitcoin/bip388/build.rs:886-998 | the same for one argument |
| PatternCompiler.Lowering.LowerWrapped | apps/bitcoin/bip388/build.rs:947-971 | one test for each wrapper |
| PatternCompiler.Compile | apps/bitcoin/bip388/build.rs:854-863 | lowering, innermost block and folding together |
| DescriptorPatterns.RelativeLocktimeBits | apps/bitcoin/bip388/src/cleartext/mod.rs:69-77 | relative timelocks by their bits |
| DescriptorPatterns.TimelockExactly | apps/bitcoin/bip388/src/cleartext/mod.rs:69-83 | which nodes are which timelock |
| PatternMatching.PatternWorks | apps/bitcoin/bip388/build.rs:865-1000 | from any variables, the steps succeed exactly on a match, and bind only what lowering handed out |
| PatternMatching.LetsDeliver | apps/bitcoin/bip388/build.rs:927-942 | the preamble gives each musig's keys and number |
| PatternMatching.CompiledMatches | apps/bitcoin/bip388/build.rs:1002-1092 | the generated code assigns fields exactly if the pattern matches, and they are its captures |
| PatternRebuild.ConstructsMatched | apps/bitcoin/bip388/build.rs:1747-1808 | building from captured fields gives the descriptor exactly if no musig without keys has another derivation pair than (0, 1) |
| PatternRebuild.TimelockRebuilt | apps/bitcoin/bip388/src/cleartext/decode.rs:118-123 | a timelock gives back the node it was matched from |
| PatternRebuild.RebuildReturnsMatched | apps/bitcoin/bip388/build.rs:1723-1808 | matching and then building returns the descriptor exactly if moreover the guard holds |
| PatternRebuild.RebuildReturnsNamed | apps/bitcoin/bip388/build.rs:1723-1745 | with the usual names the guard always holds |
| PatternRebuild.GuardReadsOtherFields | apps/bitcoin/bip388/build.rs:1723-1745 | a well-formed pattern and a descriptor that the generated code matches, and that is not built back |
| PatternRebuild.EmptyMusigLosesPair | apps/bitcoin/bip388/build.rs:1785-1794 | an aggregate without keys that the generated code matches, and that is not built back |
| PatternRebuild.MatchReturnsBuilt | apps/bitcoin/bip388/build.rs:1747-1808 | building and then matching returns the fields exactly if keys are plain, timelocks valid, and each musig's keys share their pair and are as many as its threshold |
| PatternEntries.ClassifiedByFirst | apps/bitcoin/bip388/build.rs:1094-1134 | over all patterns of all entries: a descriptor is classified exactly if one matches, with the class and the fields of the first that does |
| PatternEntries.ClassifiedIsRebuilt | apps/bitcoin/bip388/build.rs:1720-1745 | for a list of entries: the list that the class builds back contains the descriptor that was classified, and no construction panics |
| PatternEntries.NeverMatches | apps/bitcoin/bip388/build.rs:1094-1134 | patterns that clash at any argument position: what one builds never matches the other |
| PatternEntries.BuiltIsClassified | apps/bitcoin/bip388/build.rs:1720-1745 | a descriptor that a class builds is classified as this class with its fields exactly if its pattern can capture them; for a pattern that clashes with those tried before it and with the others of its entry |
| PatternSpec.SegwitMultisigClash | apps/bitcoin/bip388/src/cleartext/specs/cleartext.toml:43-52 | the four patterns of SegwitMultisig clash, although two are `wsh` and two are `sh` |
| PatternSpec.TopLevelKeepsApart | apps/bitcoin/bip388/src/cleartext/specs/cleartext.toml:34-52 | all patterns of the first three top-level entries clash |
| PatternSpec.TapLeafKeepsApart | apps/bitcoin/bip388/src/cleartext/specs/cleartext.toml:67-89 | so do those of the first four tapleaf entries |
| PatternSpec.BuiltBySpec | apps/bitcoin/bip388/src/cleartext/specs/cleartext.toml:34-89 | what any of these classes builds is classified as this class with its fields exactly if the pattern can capture them |
| PatternSpec.SegwitMultisigReturns | apps/bitcoin/bip388/src/cleartext/specs/cleartext.toml:43-52 | all four descriptors of a SegwitMultisig belong to it exactly if no key is an aggregate |
| PatternSpec.AggregateOfMultisig | apps/bitcoin/bip388/src/cleartext/specs/cleartext.toml:83-89 | the aggregate built for a multisig belongs to its class exactly if the keys share their derivation pair |
| PatternSpec.AggregateForgetsPairs | apps/bitcoin/bip388/src/cleartext/specs/cleartext.toml:83-89 | two keys with different pairs, whose aggregate belongs to another class |
| AesCtrMode.IncrementAddsOne | vm/src/aes.rs:161-168 | incrementing adds one modulo 256^n |
| AesCtrMode.IncrementBESlice | vm/src/aes.rs:161-168 | the loop with its early exit increments in place |
| AesCtrMode.CreatedCounterBlock | vm/src/aes.rs:209-214 | nonce and counter make up nonce * 2^32 + counter |
| AesCtrMode.XorIsXor | vm/src/aes.rs:199-201 | the arithmetic of two bytes is `^` on `bv8` |
| AesCtrMode.CounterBlocksDiffer | vm/src/aes.rs:209-214 | different numbers below 2^128 have different blocks |
| AesCtrMode.ProcessWithCounter | vm/src/aes.rs:180-206 | byte k of the output is byte k of the input `^` byte k % 16 of the encryption of counter block number value + k / 16; exactly one block is encrypted for each chunk |
| AesCtrMode.SucceedsExactly | vm/src/aes.rs:189-204 | processing succeeds exactly if the block function does for every block |
| AesCtrMode.ProcessedTwice | vm/src/aes.rs:180-206 | processing twice from one counter gives the input back, for every block function |
| AesCtrMode.NextMessage | vm/src/aes.rs:217-235 | the blocks of the next message are new |
| AesCtrMode.AesCtr.Encrypt | vm/src/aes.rs:217-248 | byte k of message i is `^` byte k % 16 of the encryption of the block with the number (i * 2^32 + k / 16) % 2^128; no block repeats in 2^96 messages of at most 2^32 blocks, and then the nonce starts again; it moves on even if the block function fails |
| AesCtrMode.AesCtr.Decrypt | vm/src/aes.rs:251-274 | the same from the nonce of the message |
| AesCtrMode.RoundTrip | vm/src/aes.rs:246-274 | decrypting what was encrypted returns the plaintext |
| PagePacking.LinesIsLeast | app-sdk/src/ux.rs:86-95 | the least number of lines, at least one, that holds the bytes |
| PagePacking.PairHeight | app-sdk/src/ux.rs:86-95 | the height of a pair from the least numbers of lines of its two strings |
| PagePacking.ComputePairPageRanges | app-sdk/src/ux.rs:100-118 | consecutive pages that hold all pairs; each is one pair or fits, and has no room for the next pair |
| PagePacking.GreedyStaysAhead | app-sdk/src/ux.rs:100-118 | after k pages the greedy packing is at least as far as any other |
| PagePacking.GreedyIsOptimal | app-sdk/src/ux.rs:97-118 | no packing under the same rule has fewer pages |
| BigNumbers.BigNum.Add | app-sdk/src/bignum.rs:80-90 | the carry loop gives the sum modulo 256^N |
| BigNumbers.BigNum.AddAssign | app-sdk/src/bignum.rs:117-126 | the same in place |
| BigNumbers.BigNum.Sub | app-sdk/src/bignum.rs:131-149 | the borrow loop gives the difference modulo 256^N |
| BigNumbers.BigNum.SubAssign | app-sdk/src/bignum.rs:175-188 | the same in place |
| BigNumbers.SubtractUndoesAdd | app-sdk/src/bignum.rs:80-188 | each operation undoes the other, also when it wraps around |
| Curve.PrimeValue | app-sdk/src/curve.rs:459-459 | the bytes are 2^256 - 2^32 - 977 |
| Curve.ExponentValue | app-sdk/src/curve.rs:461-462 | the exponent is (p + 1) / 4 |
| Curve.Negate | app-sdk/src/curve.rs:620-637 | the borrow loop computes p - y |
| Curve.FromCompressed | app-sdk/src/curve.rs:554-643 | key or error as the chain of checks decides |
| Curve.AcceptedOnCurve | app-sdk/src/curve.rs:554-643 | every accepted key satisfies y^2 = x^3 + 7 mod p, with the parity that the prefix asks for |
| Curve.CompressReturns | app-sdk/src/curve.rs:646-655 | compressing an accepted key gives the compressed key it came from |
| Curve.RefusedUnlessReduced | app-sdk/src/ecalls_native.rs:531-542 | with a multiplication that refuses operands from p on, no x from p on is accepted |
| Curve.SecondName | app-sdk/src/curve.rs:554-643 | with calls that take all operands, x + p is accepted exactly if x is, with the same y, as a different key |
| Curve.RootIsFound | app-sdk/src/curve.rs:573-617 | if the exponentiation finds roots, every x of a point is accepted |
| Curve.UnreducedAccepted | app-sdk/src/curve.rs:554-643 | then p + 1 is accepted, the second name of the points with x = 1 |

## Left out

- PagedMemory.MemorySegment.constructor: takes segments with 4 <= start + size < 2^32; `new` also accepts those below and those that end exactly at 2^32 (`MemorySegment.Check` says which), but their bounds `start + size` and `start + size - 4` do not fit in 32 bits.
- HostMemory.LayOut: for start + size below 2^32; where the sum overflows, what the source does depends on the overflow checks of the build.
- Comm.EveryRunDelivers: the static chunk buffer, running out of memory, and a host that cannot hold the reply are not modelled.
- OutsourcedMemories.OutsourcedMemory.GetPage: up to the first error, at which the VM stops; after one, `last_accessed_page` may name a slot that was freed, and a write through it would be lost. The counters of the eviction strategies do not matter to what a page holds, so any slot may be chosen.
- DeviceRuns.Run: for any number of rounds; the source's loop has no end, and an endless run is one that has a beginning of every length.
- DeviceRuns.StartVapp: asks of its caller what the VM asserts or unwraps, an even entry point and segments that `new` accepts, and a manifest whose page counts and roots are those of the pages; `Manifest::validate` and the registry are not part of this model.
- CpuModel.Cpu.Execute: as `DeviceCpus.DeviceCpu.Execute`, without an ECALL handler, so an ECALL is an error; what the handler does to registers and memory is not part of this model. Runs may start in any state that a handler leaves with an even program counter and zero in register zero.
- PatternEntries.ClassifiedIsRebuilt: `$leaves`, `$sub`, the parser of patterns and the table of keywords are not part of this model, and so neither are the entries that use them: Taproot, TaprootMusig, and the tapleaf entries from Timelocked on. With 2^32 keys or more the captured number of keys, a `u32`, is not their number.
- PatternRebuild.RebuildReturnsNamed: for fewer than 2^32 keys, for the same reason.
- Curve.FromCompressed: over calls that keep their documented contracts; that the exponentiation finds a root whenever there is one rests on the primality of p, which is not proved.
- AesCtrMode.AesCtr.Encrypt: key generation and the block function itself are foreign calls; any function of blocks stands for them.
- PagePacking.ComputePairPageRanges: for heights whose sum is a `u32`; the metrics of the devices are parameters.
- The transports of the host (HID, TCP) and the asynchronous client: they carry the chunks of the protocol unchanged.
- The fixed-field messages of the client commands: answers of the host are taken as decoded, or as undecodable.
- The key of the authentication codes for code pages: a host that has a code for another page is one of the two ways past a proof.
- The `show_*` half of the object maker and the emission of tokens and strings; only the bytes that `make_*` returns are modelled.
- Strings are byte strings, valid as RFC 3629 says; what their characters mean is not modelled.
- Screens, the executor, storage slots, the registry of applications, manifest validation and ELF parsing: user interface, storage and file formats, on which none of the parts above depend.

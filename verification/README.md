# Verified models of the storage, execution and arithmetic core

This project models the parts of the repository whose correctness is hard to see, in Dafny, and
proves what they are for. `dafny verify dfyconfig.toml` checks all of it. Nothing here runs the
original programs.

SHA-256 is an arbitrary function from byte strings to 32 bytes everywhere except in its own
module. Binding results say "equal, or two strings of this finite set, all of which were hashed
for the two roots, collide", never "no collision exists".

* **Store** (`MemTable`, `Wal`, `PrefixCodes`, `HashTrees`, `StoreMerkle`, `StoreSpec`, `StoreC0`,
  `StoreOracle`, `StoreRuns`). A sorted table, a staging queue and a checksummed log with
  failing and short writes, crashes, reopening and checkpoints, as a state machine over runs.
  The methods of `StoreC0` are the C operations; `StoreSpec` says what each does to disk and
  memory; `StoreRuns` proves what all runs keep. `StoreOracle` is the independent Python reader.
* **Expression compiler** (`Token`, `Lexemes`, `Syntax`, `Parser`, `Nonterminals`, `Semantics`,
  `Arena`, `NoSharing`, `Lower`, `Pipeline`, `Grammar`, `Printer`, `Spelling`, `Decimals`, `Int64`).
  A Pratt parser into a flat arena, a recursive evaluator, a lowerer, and the theorem that both
  routes give what the tree means over the integers; printing and parsing are inverse.
* **Machine and loader** (`Vm`, `VmRun`, `Bits`, `VmLaws`, `VmEntry`, `Region`, `Abi`,
  `ImageFormat`, `LinImage`, `Linbc1`, `VmSafety`). The interpreter with its reused frames and
  shared step counter, the byte regions and host calls, the image loader, and why what the loader
  checks is enough for what the interpreter does not check.
* **Settlement** (`Limbs`, `Settle`, `SettleTree`, `SwapAudit`). 16-bit limb arithmetic up to a
  512-bit restoring division, the batch root reduced in place, and the classification of
  observed swaps.
* **Codecs and proofs** (`Rlp`, `Sha256`, `Fips`, `RootConstants`, `MerkleProof`, `GateManifest`,
  `Layouts`) and **number theory** (`Modular`, `Poly`, `PolyIdeal`, `RelatedMessages`, `Broadcast`).

The functions that specify an operation are themselves held against a description that does not
go through them:

| specification | description |
|---|---|
| key comparison, sorted table, store root | `MemTable.Before`, `MemTable.Lists`, `HashTrees.IsRoot` |
| tokenizer | `Lexemes.Reads`: longest texts of tokens, by characters |
| precedence parser | `Nonterminals.Sentence`: comparison, sum, product, primary |
| evaluator, lowered code | `Semantics.Gives`: congruences, division with remainder, integer comparisons |
| machine instructions, function entry | `VmLaws`, `VmEntry.Entered`: bits, powers of two, cells |
| loaded function table | `Linbc1.EntryOf`: the declarations of the image |
| SHA-256 | `Fips.DigestOf`, `RootConstants`: relations on bits and sums, root fractions |
| byte formats, hash trees | `Layouts`: offsets and characters, node positions |

Code that changes state is modelled by classes and loops and proved against functions; the
functions carry the lemmas. File system, library hashing, `pow(a, -1, n)`, `math.comb` and the
outcome of every write, sync and rename are parameters or library functions of the model.

## Where the code and its promises differ

* A checkpoint covers staged operations but counts only committed frames
  (`transpile/c/store_c0/store_c0.c:790-799`). `StoreRuns.CheckpointVerdict` says, for whole runs,
  exactly when a later reopening is refused because of that; `CleanCheckpointNeverRejects` covers
  checkpoints with an empty queue.
* An interrupted first header leaves a file that reopening refuses for good
  (`transpile/c/store_c0/store_c0.c:247-250`), unless a crash takes the file away altogether
  (`StoreRuns.TornHeaderReached`, `TornHeaderStays`); `CorruptOnlyAfterTornHeader` shows that
  there is no other way to such a refusal.
* The call instruction pushes a result without testing for room
  (`transpile/c/lin_c/lin_vm.c:347-358`). `VmSafety.LoadedRunsSafely` proves for every accepted
  image that a run leaves its memory exactly if a call without arguments returns to a full
  stack; `VmSafety.FullStackFaults` is an image for which that happens.
* The parser's depth test admits 65 nested primaries, not 64
  (`transpile/c/lin_c/lin_parse.c:132-138`); the printing theorems use the bound of the code.
* The overflow test behind a host call (`transpile/c/lin_c/lin_vm.c:388-391`) can never fire, as
  every intrinsic consumes at least one operand; `VmRun.StepHost` asserts it.
* The quotient overflow exit of the settlement (`examples/defi_settlement_proof/merkle_512_settler.c:119`),
  the reserialisation check (`tools/lin_audit_tx.py:333-334`) and the last UNCLASSIFIED
  (`tools/ingest_mainnet_unfiltered.py:146`) are unreachable, and proved so.
* The batch root binds batches of m and of n swaps exactly when m equals n
  (`SettleTree.RootBindsSizes`): leaves and inner nodes are both hashes of 64 bytes without a
  domain (`examples/defi_settlement_proof/merkle_512_settler.c:147-165`), so a leaf can be a
  node. A leaf does not bind the reserves or the high half of the amount in
  (`SettleTree.LeafBinds`).
* The common divisor of polynomials is reported as missing for composite moduli when some
  leading coefficient has no inverse (`examples/verify_crypto256_real_cleanroom.py:145-148`);
  for prime moduli that never happens unless both inputs vanish (`Poly.PrimeGcd`).
* With exponent 0 the first polynomial of a related pair is x - c and not a constant
  (`examples/verify_crypto256_real_cleanroom.py:169`); `RelatedMessages.FranklinReiter` says what
  its answer then means.
* The folded digest depends only on the last eight bytes (`Linbc1.FoldDigest`), and the inclusion
  check accepts inner nodes with shorter paths and ignores index bits above the depth of the path
  (`MerkleProof.ProofBinding`).
* `get_amount_in` asks for one unit more than needed when its division is exact
  (`SwapAudit.QuotedInputSuffices`).

## Model

| member | source | states |
|---|---|---|
| MemTable.CompareDecidesOrder | transpile/c/store_c0/store_c0.c:58-65 | the key comparison decides a strict total order: negative, zero and positive exactly for smaller, equal and larger keys |
| MemTable.CompareMeans | transpile/c/store_c0/store_c0.c:58-65 | the comparison is negative exactly if the first key is a proper prefix of the second, or both agree up to some place where the first has the smaller byte; positive exactly the other way round |
| MemTable.ListsSorted | transpile/c/store_c0/store_c0.c:67-80 | the one table that lists the bindings of a map by that order of the bytes is the sorted table |
| MemTable.CanonicalForm | transpile/c/store_c0/store_c0.c:67-80 | two sorted tables with the same contents are the same table: the table depends on the map and not on the history |
| MemTable.InsertContents | transpile/c/store_c0/store_c0.c:153-167 | inserting at the insertion point of an absent key keeps the table sorted and adds exactly that key |
| MemTable.UpdateContents | transpile/c/store_c0/store_c0.c:124-134 | replacing the value of a present key keeps order and changes the map only at that key |
| MemTable.RemoveContents | transpile/c/store_c0/store_c0.c:178-184 | removing an entry keeps order and removes exactly its key from the map |
| MemTable.MemTable.Find | transpile/c/store_c0/store_c0.c:100-117 | binary search: found exactly when the key is in the map, with its index or its insertion point |
| MemTable.MemTable.Put | transpile/c/store_c0/store_c0.c:119-168 | the table stays sorted and its map is the old one with the key bound to the value |
| MemTable.MemTable.Del | transpile/c/store_c0/store_c0.c:170-185 | reports whether the key was there; the table stays sorted and its map is the old one without the key |
| Wal.FramesPrefixFree | transpile/c/store_c0/store_c0.c:631-653 | no frame is the beginning of another frame, so a log splits into frames in one way |
| Wal.BodyInjective | transpile/c/store_c0/store_c0.c:640-645 | different valid operations have different checksummed bodies |
| Wal.GoodFrameDecides | transpile/c/store_c0/store_c0.c:287-364 | the field checks of the reader hold at an offset exactly when the frame of some valid operation stands there |
| Wal.BodyComplete | transpile/c/store_c0/store_c0.c:311-364 | a body that passes every check is the body of the valid operation read from it, with its digest |
| Wal.BodyReadBack | transpile/c/store_c0/store_c0.c:311-364 | the body that a commit writes for a valid operation passes every check and is read back as that operation |
| Wal.ReadMeaning | transpile/c/store_c0/store_c0.c:270-380 | at a good frame the decoded log is that frame and the log behind it; anywhere else it ends |
| PrefixCodes.DecodeTorn | transpile/c/store_c0/store_c0.c:270-313 | a sequence of code words cut at any byte decodes to exactly the words that are whole |
| PrefixCodes.WholeWordsFit | transpile/c/store_c0/store_c0.c:270-313 | a code word counts as whole exactly if it and all words before it lie within the cut |
| PrefixCodes.DecodeConcat | transpile/c/store_c0/store_c0.c:270-380 | whole code words decode to the items they encode, whatever stands around them |
| PrefixCodes.DecodeMonotone | transpile/c/store_c0/store_c0.c:270-380 | a longer string decodes to at least the items of the shorter one |
| StoreC0.FrameMeaning | transpile/c/store_c0/store_c0.c:273-309 | the length field and the body behind it decide between a frame and the end of the log |
| StoreC0.ReadFrame | transpile/c/store_c0/store_c0.c:270-380 | the reader with its checks in order, the 32-bit sum included, finds the operation of the frame at an offset, or finds none exactly when there is none |
| StoreC0.CheckBody | transpile/c/store_c0/store_c0.c:311-364 | the checks on a body, with the length sum modulo 2^32, accept exactly the good bodies |
| StoreC0.HeaderFields | transpile/c/store_c0/store_c0.c:252-265 | the field-wise header tests accept exactly the one twelve-byte header |
| StoreC0.Files.PWrite | transpile/c/store_c0/store_c0.c:655-660 | a positional write of which only a prefix may arrive overwrites exactly that prefix |
| StoreC0.Store.WriteHeader | transpile/c/store_c0/store_c0.c:211-231 | a new file gets the header; a short or unsynced write is an I/O error and leaves the prefix that arrived |
| StoreC0.Store.ReplayFrames | transpile/c/store_c0/store_c0.c:267-383 | the loop leaves the replay of the decodable log in the table, and cursors behind it |
| StoreC0.Store.Recover | transpile/c/store_c0/store_c0.c:233-387 | refuses exactly files that are neither empty nor begin with the header; otherwise truncates the torn tail and holds the replayed log |
| StoreC0.Store.VerifyCheckpoint | transpile/c/store_c0/store_c0.c:389-452 | refuses exactly a well-formed checkpoint with the recovered frame count and another root |
| StoreC0.Store.Put | transpile/c/store_c0/store_c0.c:523-569 | accepts exactly keys of 1 to 1024 bytes and values up to 1 MiB, stages the operation and applies it to the table |
| StoreC0.Store.Del | transpile/c/store_c0/store_c0.c:571-609 | answers not-found exactly for absent keys, otherwise stages the deletion and applies it |
| StoreC0.Store.Get | transpile/c/store_c0/store_c0.c:687-709 | reads staged and committed values alike and reports the length even when the buffer is too small |
| StoreC0.Store.BatchBytes | transpile/c/store_c0/store_c0.c:615-620 | the size of a batch is the length of its encoded frames |
| StoreC0.Store.WriteBatch | transpile/c/store_c0/store_c0.c:626-663 | writes the batch at the cursor, or up to the first short write exactly the bytes that got through |
| StoreC0.Store.Commit | transpile/c/store_c0/store_c0.c:611-685 | result, file and memory of a commit; a failed one leaves queue and cursors alone |
| StoreC0.Store.Checkpoint | transpile/c/store_c0/store_c0.c:782-842 | syncs the log and, if every step up to the rename succeeds, replaces the checkpoint file by one for the current count and root |
| StoreC0.Store.Close | transpile/c/store_c0/store_c0.c:856-884 | closing syncs at best, and drops what was staged and the table |
| StoreC0.Open | transpile/c/store_c0/store_c0.c:456-521 | opening is recovery followed by the verdict on the checkpoint |
| StoreSpec.ChkParts | transpile/c/store_c0/store_c0.c:795-805 | a checkpoint file that was written is accepted and its count and root are read back |
| Layouts.FrameLayout | transpile/c/store_c0/store_c0.c:634-653 | what stands at which offset of a frame: its length, 1 or 2 for the operation, the lengths of key and value, key, value, and the digest of all behind the length |
| Layouts.HeaderLayout | transpile/c/store_c0/store_c0.c:211-221 | what stands at which offset of the header of a log |
| Layouts.CheckpointLayout | transpile/c/store_c0/store_c0.c:795-805 | what stands at which offset of a checkpoint file |
| Layouts.LastWins | transpile/c/store_c0/store_c0.c:366-380 | the last operation on a key decides what a log leaves there, and without one the key keeps what it had |
| Layouts.Accepted | transpile/c/store_c0/store_c0.c:523-609 | puts are taken exactly for keys of 1 to 1024 bytes and values up to 1 MiB, deletions exactly for present keys of such lengths |
| StoreMerkle.LeafInjective | transpile/c/store_c0/store_c0.c:731-747 | equal leaf inputs come from equal keys and values |
| StoreMerkle.ParentsInjective | transpile/c/store_c0/store_c0.c:750-775 | without a collision a level without repeats is recovered from its parents, although an odd last node is paired with itself |
| StoreMerkle.HeightBinding | transpile/c/store_c0/store_c0.c:731-775 | roots of trees of different heights differ, or two hashed strings collide |
| StoreMerkle.RootBinding | transpile/c/store_c0/store_c0.c:711-780 | sorted tables of any sizes, the empty one included, with one root are equal, or two of the strings hashed for these roots collide |
| StoreMerkle.MapRootBinding | transpile/c/store_c0/store_c0.c:711-780 | the same for key/value maps |
| StoreMerkle.RootOfContents | transpile/c/store_c0/store_c0.c:711-780 | the root depends only on the map |
| StoreMerkle.MapRootSpelled | transpile/c/store_c0/store_c0.c:711-780 | the root of a map: the digests of its bindings, in the order of the bytes of their keys, are the leaves; every node is the digest of a 1 byte and the two nodes below it, a last one without a neighbour being its own; the root is the one node of the highest level |
| HashTrees.RootAbove | transpile/c/store_c0/store_c0.c:750-775 | a root found level by level is the one node of the highest level, node i lying over the nodes 2i and 2i + 1, for either treatment of unpaired nodes |
| HashTrees.HeightLeast | transpile/c/store_c0/store_c0.c:750-775 | the highest level is the least number of doublings that reaches the number of leaves |
| StoreMerkle.ComputeRoot | transpile/c/store_c0/store_c0.c:711-780 | the level reduction loop computes that root |
| StoreRuns.StepInv | transpile/c/store_c0/store_c0.c:233-842 | every operation, failed operation and crash keeps the invariant and loses nothing that was durable |
| StoreRuns.RunInv | transpile/c/store_c0/store_c0.c:233-842 | so the invariant holds in every state of every run |
| StoreRuns.TableIsReplay | transpile/c/store_c0/store_c0.c:233-387 | in every reachable state the table is the replay of the committed log followed by the staged operations, and the cursors describe that log |
| StoreRuns.CommitIsDurable | transpile/c/store_c0/store_c0.c:626-684 | what a successful commit acknowledged is a prefix of what the file recovers to at every later point of every run, also when all unsynced bytes vanish |
| StoreRuns.CrashRecovers | transpile/c/store_c0/store_c0.c:233-387 | a crash that cuts the file anywhere behind the commit cursor leaves exactly the committed log and those frames of an interrupted batch that are whole |
| StoreRuns.CorruptOnlyAfterTornHeader | transpile/c/store_c0/store_c0.c:247-265 | a reachable store is refused as corrupt exactly when the write of the very first header was interrupted |
| StoreRuns.TornHeaderReached | transpile/c/store_c0/store_c0.c:219-227 | every short write of the first header, from 1 to 11 bytes, is an I/O error and leaves exactly those bytes |
| StoreRuns.TornHeaderStays | transpile/c/store_c0/store_c0.c:247-265 | from there on, in every run, every opening answers that the file is corrupt, until a crash takes the whole file away |
| StoreRuns.CheckpointVerdict | transpile/c/store_c0/store_c0.c:389-452 | over whole runs, whatever commits, failures, crashes and reopenings lie between the last successful checkpoint and a reopening: it is refused exactly when the log on disk still has the length the checkpoint counted and the root of the checkpoint is not that of the log committed then |
| StoreRuns.MismatchExactly | transpile/c/store_c0/store_c0.c:389-452 | in every state of every run a reopening meets a mismatch exactly if there is such a checkpoint |
| StoreRuns.OutdatedMaps | transpile/c/store_c0/store_c0.c:782-842 | the same in terms of maps: the operations staged at the checkpoint had changed the map, up to a collision among the strings hashed for the two roots |
| StoreRuns.CleanCheckpointNeverRejects | transpile/c/store_c0/store_c0.c:389-452 | so checkpoints taken with an empty staging queue never make a later open fail, in any run |
| StoreRuns.DirtyCheckpoint | transpile/c/store_c0/store_c0.c:790-799 | for the very next reopening in terms of the file: it fails exactly when no staged frame is whole in it and the staged operations change the root |
| StoreRuns.DirtyCheckpointExample | transpile/c/store_c0/store_c0.c:790-799 | the smallest such run: put without commit, checkpoint, close; reopening refuses the store unless two given strings collide |
| StoreOracle.OracleFrame | transpile/c/store_c0/oracle_store.py:82-129 | the oracle finds the same frames with its own order of checks and no wrap-around |
| StoreOracle.OracleBody | transpile/c/store_c0/oracle_store.py:95-121 | its checks on a body accept exactly the good bodies |
| StoreOracle.ParseAndReplay | transpile/c/store_c0/oracle_store.py:58-131 | the oracle reports corruption exactly for a bad header, otherwise the count and the map of the decodable log |
| StoreOracle.SortedItems | transpile/c/store_c0/oracle_store.py:42-45 | sorting the dictionary gives the canonical table of the map, which lists its bindings in the order of the bytes of their keys |
| StoreOracle.OracleRoot | transpile/c/store_c0/oracle_store.py:38-56 | the oracle computes the root of the map |
| StoreOracle.CrossCheck | transpile/c/store_c0/oracle_store.py:58-131 | on every byte string the reports of the C recovery and of the oracle are those of their specifications and are equal: both refuse the file as corrupt, or both give one frame count, one map and one root |
| StoreOracle.ReadCheckpoint | transpile/c/store_c0/oracle_store.py:133-154 | the oracle accepts exactly the files that a checkpoint writes and reads off what was written |
| StoreOracle.CheckpointsAgree | transpile/c/store_c0/store_c0.c:419-449 | on such a file the C code refuses exactly when the root it carries differs from that of the recovered map |
| Token.NextToken | transpile/c/lin_c/lin_token.c:11-129 | the scanner returns the token and position of the tokenizer function, with 64-bit wrap-around of literals |
| Token.ScanNumber | transpile/c/lin_c/lin_token.c:33-56 | accumulating digits with wrap-around gives the number of the digit run modulo 2^64 |
| Token.LexIsHead | transpile/c/lin_c/lin_token.c:11-137 | taking a token is taking the head of the token list, and the end of input repeats |
| Lexemes.LexReads | transpile/c/lin_c/lin_token.c:6-137 | by characters: blanks are skipped, and the token is the one whose text is the longest that begins there; a number with a letter behind it and a character that begins no token are invalid; and nothing else is read |
| Lexemes.TokensRead | transpile/c/lin_c/lin_token.c:6-137 | so the tokens of a text are exactly those that its characters write |
| Parser.Parser.ParsePrimary | transpile/c/lin_c/lin_parse.c:132-140 | agrees with the specification, errors and depth limit included; on success the arena has grown by exactly the post-order image of the tree |
| Parser.Parser.ParsePrimaryImpl | transpile/c/lin_c/lin_parse.c:40-130 | the same for the five kinds of primaries |
| Parser.Parser.ParseCall | transpile/c/lin_c/lin_parse.c:51-96 | a call adds its arguments, their linked list and the call node, or fails where the limit of sixteen, the arena or a missing parenthesis stops it |
| Parser.Parser.ParseExpression | transpile/c/lin_c/lin_parse.c:142-181 | the precedence loop builds the tree of the specification |
| Parser.Parser.ParseFull | transpile/c/lin_c/lin_parse.c:183-190 | a whole source is accepted exactly when the specification accepts its tokens, and then the arena is the tree in contiguous post-order |
| Parser.Parser.ArenaAdd | transpile/c/lin_c/lin_ast.c:18-30 | adding appends one node below the capacity and fails at it |
| Syntax.ExprFits | transpile/c/lin_c/lin_parse.c:142-181 | a successful parse never outgrows the arena |
| Syntax.FlatSize | transpile/c/lin_c/lin_ast.c:18-30 | a tree takes as many nodes as it has |
| Arena.FlatOrdered | transpile/c/lin_c/lin_parse.c:40-181 | in the arena of a tree operands stand before their operators |
| NoSharing.FlatReferences | transpile/c/lin_c/lin_parse.c:40-181 | in the arena of a tree every node but the root is referred to exactly once and nothing else is |
| NoSharing.NoneShared | transpile/c/lin_c/lin_parse.c:183-190 | the same by index for a whole source: one reference to every node, none to the root |
| Arena.Evaluate | transpile/c/lin_c/lin_ast.c:32-141 | on every arena without cycles the recursive evaluator gives the one outcome that the node has over the integers: congruent sums, differences and products, division toward zero, comparisons as 1 or 0, the first error from the left |
| Arena.EvalIsMeaning | transpile/c/lin_c/lin_ast.c:32-141 | evaluating the root of the image of a tree gives the meaning of the tree |
| Arena.ParsedMeaning | transpile/c/lin_c/lin_ast.c:32-141 | so a parsed source evaluates to the meaning of its tree |
| Arena.ApplyOperates | transpile/c/lin_c/lin_ast.c:65-131 | an operator gives exactly the outcome it has over the integers: the congruent 64-bit value, quotient and remainder with x == y*q + r and a remainder below the divisor with the sign of x, 1 exactly for a comparison that holds, and an error exactly for a zero divisor |
| Arena.MeaningGiven | transpile/c/lin_c/lin_ast.c:32-141 | a tree has an outcome over the integers exactly if that is its meaning |
| Grammar.DerivationRead | transpile/c/lin_c/lin_parse.c:28-190 | every derivation of the grammar, redundant parentheses included, is read back to its tree exactly if it is within the limits on nodes, nesting and arguments |
| Grammar.AcceptsDerivable | transpile/c/lin_c/lin_parse.c:28-190 | for every token list: it is accepted exactly if the grammar derives it within the limits, and then to the tree of each of its derivations |
| Nonterminals.AcceptsSentences | transpile/c/lin_c/lin_parse.c:28-190 | for every token list: it is accepted exactly if it is a comparison of sums of products of primaries, each grouping to the left, within 65 nested primaries, 256 nodes and 16 arguments, and then to the tree that these rules give it; no precedence numbers occur |
| Printer.PrintParse | transpile/c/lin_c/lin_parse.c:28-190 | parsing a printed tree rebuilds it exactly if it fits the arena, the nesting limit and the argument limit, and is an error otherwise |
| Spelling.TokensRendered | transpile/c/lin_c/lin_token.c:11-129 | the tokenizer reads spelled tokens back, each and in order |
| Spelling.TextRead | transpile/c/lin_c/lin_parse.c:183-190 | the text of every derivation parses to its tree exactly within the limits |
| Spelling.SourceRoundTrip | transpile/c/lin_c/lin_parse.c:183-190 | from tree to text and back: tokenizing and parsing the printed text rebuilds the tree exactly when it fits the three limits |
| Int64.AddWraps | transpile/c/lin_c/lin_common.h:90-91 | addition and subtraction through unsigned integers are the signed results modulo 2^64 |
| Int64.MulWraps | transpile/c/lin_c/lin_common.h:92 | multiplication of the unsigned images is the signed product modulo 2^64 |
| Int64.WrapUnique | transpile/c/lin_c/lin_common.h:84-92 | there is only one 64-bit number congruent to a given result, so these contracts fix the operations |
| Int64.TruncDivBounded | transpile/c/lin_c/lin_common.h:94-106 | apart from the one case that the code singles out, truncated quotients and remainders fit into 64 bits |
| Lower.LoweredCode.LowerEmit | transpile/c/lin_c/lin_vm.c:20-107 | on every arena without cycles, emission into the code buffer computes the emission function, errors included |
| Lower.LoweredCode.Lower | transpile/c/lin_c/lin_vm.c:109-119 | the lowered code is the emitted code and a return |
| Lower.EmitCorrect | transpile/c/lin_c/lin_vm.c:20-107 | running emitted code anywhere in a program pushes what the evaluator returns in one step per instruction, or stops with the division error |
| Lower.LowerCorrect | transpile/c/lin_c/lin_vm.c:109-119 | the lowered function returns the value of the evaluator with that one value on the stack after one step per instruction, or both report a division by zero; overflow, underflow and faults do not occur |
| Lower.EmitTree | transpile/c/lin_c/lin_vm.c:20-107 | lowering a parsed tree fails exactly on calls and unbound variables and emits at most one instruction per node |
| Pipeline.Compile | transpile/c/lin_c/lin_vm.c:109-119 | parsing and lowering of a source: result and code as the specification has them |
| Pipeline.ParsedLowers | transpile/c/lin_c/lin_vm.c:109-119 | for parsed sources the limit of 512 instructions is out of reach |
| Pipeline.SourceCorrect | transpile/c/lin_c/lin_vm.c:169-449 | for every accepted source and every environment of at most 64 variables that binds it, the compiled function returns a value exactly if the parsed tree has it over the integers, and stops with the division error exactly if the tree has that |
| Pipeline.SentenceCorrect | transpile/c/lin_c/lin_vm.c:169-449 | the same from characters to result: for the tokens that the text writes and the tree that the grammar of nonterminals gives them |
| VmRun.StepSlot | transpile/c/lin_c/lin_vm.c:223-442 | one instruction on a frame that still holds old data does to the visible part what the specification does |
| VmRun.EnterSlot | transpile/c/lin_c/lin_vm.c:194-218 | entering a function zeroes locals, binds zeroed arrays and passes the arguments, whatever the frame held before |
| VmRun.FrameStore.Execute | transpile/c/lin_c/lin_vm.c:169-218 | an execution gives the result of the specification and leaves the frames of all callers as they were |
| VmRun.FrameStore.RunCode | transpile/c/lin_c/lin_vm.c:220-449 | the same for the loop; it ends because every turn uses up a step of the counter shared by the call tree |
| VmLaws.OperatorLaw | transpile/c/lin_c/lin_vm.c:398-435 | arithmetic and comparison instructions replace two values by the outcome of their operator over the integers, or stop on a zero divisor |
| VmLaws.BitLaw | transpile/c/lin_c/lin_vm.c:418-420 | and, or and exclusive or, bit by bit |
| VmLaws.ShiftLaw | transpile/c/lin_c/lin_vm.c:126-136 | shifts: congruent to x * 2^y, x / 2^y rounded down, and that on the image without a sign; 0 for counts outside 0 to 63 |
| VmLaws.UnaryLaw | transpile/c/lin_c/lin_vm.c:260-273 | complement bit by bit, the congruent negation, and 1 exactly for 0 |
| VmLaws.PushLaw | transpile/c/lin_c/lin_vm.c:237-247 | constants and locals go on top below 256 values |
| VmLaws.PopLaw | transpile/c/lin_c/lin_vm.c:249-258 | the top is dropped, or moved into the addressed local and nowhere else |
| VmLaws.JumpLaw | transpile/c/lin_c/lin_vm.c:275-293 | which jumps are taken and what they leave on the stack |
| VmLaws.CallLaw | transpile/c/lin_c/lin_vm.c:295-359 | a call takes as many values as the callee has parameters, in their order; a return hands over the top |
| VmLaws.LoadLaw | transpile/c/lin_c/lin_vm.c:302-319 | an array load gives the cell, or 0 where there is none |
| VmLaws.StoreLaw | transpile/c/lin_c/lin_vm.c:321-335 | after an array store exactly the addressed cell holds the value and every other cell is as before |
| VmLaws.LengthLaw | transpile/c/lin_c/lin_vm.c:337-345 | the length instruction gives the length of the bound array |
| VmLaws.HostLaw | transpile/c/lin_c/lin_vm.c:361-396 | an allowed host call replaces its arguments by its answer and stops the machine when it has none |
| VmLaws.CallGuards | transpile/c/lin_c/lin_vm.c:169-180 | a call is refused beyond 192 levels, without its function, or with the wrong number of arguments |
| VmLaws.BudgetExact | transpile/c/lin_c/lin_vm.c:227-232 | the step limit changes nothing but where a run ends: with a smaller one a call that needs no more steps gives the same result, and any other fails with the step behind the limit |
| Bits.BitsDetermine | transpile/c/lin_c/lin_vm.c:418-422 | a 64-bit number is its bits, so the laws fix the results |
| VmEntry.EntryLaw | transpile/c/lin_c/lin_vm.c:196-222 | what entering leaves: each array local holds the number of its own zeroed array of the declared length, other parameters their arguments, and everything else 0; more than eight arrays are an error |
| Region.Region.WriteBytes | transpile/c/lin_c/lin_region.c:91-120 | a write that fits replaces the payload by exactly the source bytes and zeroes the rest; one that does not fit changes nothing |
| Region.LoadByteReadsPayload | transpile/c/lin_c/lin_region.c:152-176 | loading a byte succeeds exactly below the payload length and gives the byte that was written |
| Region.CheckRangeExact | transpile/c/lin_c/lin_region.c:122-134 | a range check is OK exactly when offset plus length, without wrap-around, is within the payload |
| Abi.DispatchPops | transpile/c/lin_c/lin_abi.c:166-206 | a dispatch consumes nothing and reports an error, or exactly the declared number of operands; nothing below them matters |
| Abi.DispatchLoads | transpile/c/lin_c/lin_abi.c:141-164 | a byte load through the dispatcher answers exactly for bytes of the payload of a bound region |
| Abi.DispatchChecks | transpile/c/lin_c/lin_abi.c:107-139 | a range check through the dispatcher answers, exactly for bound regions and numbers that are not negative, 0 for ranges inside the payload and 3 for others |
| Abi.DispatchCapacity | transpile/c/lin_c/lin_abi.c:86-105 | the capacity intrinsic answers eight times the number of cells, exactly for a bound region |
| Abi.AbiContext.Enable | transpile/c/lin_c/lin_abi.c:49-63 | declaring an intrinsic adds it exactly if it is known |
| Abi.AbiContext.DispatchTop | transpile/c/lin_c/lin_abi.c:166-206 | the dispatcher on the operand stack, with the new stack pointer |
| Linbc1.Cursor.Read | transpile/c/lin_c/lin_linbc1.c:18-38 | the readers give the little-endian value of the next bytes, or fail exactly when too few are left |
| ImageFormat.ListExact | transpile/c/lin_c/lin_linbc1.c:79-88 | a counted list is read back exactly when every item is, each judged by what came before it |
| LinImage.StringExact | transpile/c/lin_c/lin_linbc1.c:80-87 | a string is accepted exactly when its length prefix and bytes fit the pool budget |
| LinImage.InsExact | transpile/c/lin_c/lin_linbc1.c:159-181 | an instruction is accepted exactly when its opcode is known and its operand is in range |
| LinImage.ArrListFits | transpile/c/lin_c/lin_linbc1.c:140-150 | the array table accepts exactly declarations of locals in range, of 1 to 256 cells, no local twice |
| LinImage.FnsExact | transpile/c/lin_c/lin_linbc1.c:118-184 | a function record is accepted exactly when it encodes a well-formed function within the instruction budget |
| LinImage.LoadExact | transpile/c/lin_c/lin_linbc1.c:50-192 | the loader accepts a byte string as an image exactly when the image is well-formed and the string is its sealed form |
| LinImage.SealInjective | transpile/c/lin_c/lin_linbc1.c:50-192 | different images have different files, for every hash function |
| Layouts.InstructionLayout | transpile/c/lin_c/lin_vm.h:17-54 | an instruction is the number of its opcode, in the order of the enumeration, and its operand in eight bytes |
| Layouts.FunctionLayout | transpile/c/lin_c/lin_linbc1.c:118-131 | what stands at which offset of the head of a function record |
| Layouts.ImageLayout | transpile/c/lin_c/lin_linbc1.c:62-78 | what stands at which offset of an image, and which digest ends it |
| Linbc1.LoadStrings | transpile/c/lin_c/lin_linbc1.c:79-88 | the string loop: items and position of the reader, or its first error |
| Linbc1.LoadRegions | transpile/c/lin_c/lin_linbc1.c:90-105 | the region loop, with canonical ids and the ceiling on cells |
| Linbc1.LoadAbis | transpile/c/lin_c/lin_linbc1.c:107-114 | the intrinsic table and the flags it sets |
| Linbc1.LoadArrs | transpile/c/lin_c/lin_linbc1.c:139-152 | the array loop and the dense table it fills |
| Linbc1.LoadCode | transpile/c/lin_c/lin_linbc1.c:154-181 | the instruction loop with its checks on operands |
| Linbc1.LoadFn | transpile/c/lin_c/lin_linbc1.c:118-183 | one function record and its entry in the function table |
| Linbc1.LoadFns | transpile/c/lin_c/lin_linbc1.c:116-184 | the function table and the names |
| Linbc1.LinBc1Vm.Load | transpile/c/lin_c/lin_linbc1.c:50-192 | on success the tables hold exactly the image that the bytes seal; otherwise the first error in the order of the checks |
| Linbc1.LoadedEntry | transpile/c/lin_c/lin_linbc1.c:118-184 | for every accepted image and function the entry in the table has the declared counts and code, the declared length at every declared array and 0 at every other local |
| VmSafety.LoadedEnters | transpile/c/lin_c/lin_vm.c:196-222 | entering it binds a zeroed array of exactly the declared length to each declared local, and at most eight of them |
| Linbc1.LinBc1Vm.FindFn | transpile/c/lin_c/lin_linbc1.c:194-202 | the first function with exactly that name, or -1 when there is none |
| Linbc1.FoldDigest | transpile/c/lin_c/lin_linbc1.c:40-48 | the folded digest is the number in its last eight bytes: the other twenty-four do not matter |
| VmSafety.LoadedIsSafe | transpile/c/lin_c/lin_linbc1.c:50-192 | every accepted image becomes a module whose operands are all in range |
| VmSafety.EntersSafely | transpile/c/lin_c/lin_vm.c:194-218 | a function of such a module can be entered with any arguments of the right number |
| VmSafety.StepSafe | transpile/c/lin_c/lin_vm.c:223-442 | from any frame of the right shape one checked instruction touches nothing outside the frame and leaves a frame of the right shape and a jump target inside the code |
| VmSafety.ExecSafe | transpile/c/lin_c/lin_vm.c:169-449 | for every module of checked instructions a run leaves its memory exactly if, somewhere in its call tree, a call without arguments returns to a full operand stack, so no index and no pop is ever out of range; failures are those of running programs; the step limit is overrun by at most one step |
| VmSafety.LoadedRunsSafely | transpile/c/lin_c/lin_vm.c:169-449 | the same for every function of every accepted image, with or without parameterless calls |
| VmSafety.FullStackFaults | transpile/c/lin_c/lin_vm.c:347-358 | the condition is needed: an accepted image whose call of a parameterless function on a full stack writes behind the stack |
| Settle.Unpack | examples/defi_settlement_proof/merkle_512_settler.c:47-54 | sixteen limbs with the value of the four words |
| Settle.ScaleAdd | examples/defi_settlement_proof/merkle_512_settler.c:61-77 | limb-wise scaling and adding, with the carry out of the sixteenth limb |
| Settle.Multiply | examples/defi_settlement_proof/merkle_512_settler.c:79-95 | the schoolbook product is the product; no carry is lost |
| Settle.Divide | examples/defi_settlement_proof/merkle_512_settler.c:97-135 | restoring division gives the exact quotient, and gives up exactly when it does not fit into 256 bits |
| Settle.Subtract | examples/defi_settlement_proof/merkle_512_settler.c:123-133 | limb-wise subtraction with the borrow out of the sixteenth limb |
| Settle.Compare | examples/defi_settlement_proof/merkle_512_settler.c:111-116 | the comparison from the top limb down decides the order of the values |
| Settle.Pack | examples/defi_settlement_proof/merkle_512_settler.c:137-143 | four words with the value of the limbs |
| Settle.SettleSwap | examples/defi_settlement_proof/merkle_512_settler.c:32-145 | 1 with the exact floor quotient, -1 exactly for a zero input, -2 exactly when the inputs are nonzero and the denominator needs more than 256 bits; the quotient always fits |
| Settle.QuotientFits | examples/defi_settlement_proof/merkle_512_settler.c:118-119 | the amount out is below the reserve, so the overflow exit of the division is never taken |
| Settle.KeepsProduct | examples/defi_settlement_proof/merkle_512_settler.c:32-145 | the fee-adjusted product of reserves does not fall for exactly the outputs up to the amount given out |
| Settle.FormulaSpelled | examples/defi_settlement_proof/merkle_512_settler.c:32-145 | with 1000 and 997 written out: the amount out is the largest for which the product does not fall |
| Settle.WordsSpelled | examples/defi_settlement_proof/merkle_512_settler.c:47-54 | the value of four words, least significant first |
| SettleTree.LeafBinds | examples/defi_settlement_proof/merkle_512_settler.c:147-158 | a leaf fixes the id, the status, the amount out and the low half of the amount in, and nothing else |
| SettleTree.ReduceInPlace | examples/defi_settlement_proof/merkle_512_settler.c:180-195 | reducing the levels inside one buffer gives the root of levels rebuilt one by one |
| SettleTree.BatchRoot | examples/defi_settlement_proof/merkle_512_settler.c:168-197 | the root of a batch, zero for the empty batch |
| SettleTree.SameSizeBinding | examples/defi_settlement_proof/merkle_512_settler.c:180-195 | batches of one size with one root have the same leaf digests, or two hashed pairs collide |
| SettleTree.SameSizeSettlement | examples/defi_settlement_proof/merkle_512_settler.c:147-195 | batches of one size with one root have, swap by swap, the same ids, statuses, amounts out and low amounts in, or two strings hashed for the roots collide, leaf inputs included |
| SettleTree.OneSwapBatch | examples/defi_settlement_proof/merkle_512_settler.c:147-195 | every batch of more than one swap has the root of a one-swap batch, whose leaf is the top node, and hashing that one needs no further string |
| SettleTree.LastRepeated | examples/defi_settlement_proof/merkle_512_settler.c:183-191 | repeating the last leaf of an odd batch of more than one keeps the root |
| SettleTree.SmallerBatch | examples/defi_settlement_proof/merkle_512_settler.c:147-195 | a batch of n copies of any swap shares its root with a batch of every smaller size, and hashing that one needs no further string |
| SettleTree.RootBindsSizes | examples/defi_settlement_proof/merkle_512_settler.c:168-197 | for all sizes m and n above zero the root binds batches of these sizes exactly when m equals n |
| Layouts.SettleLeafLayout | examples/defi_settlement_proof/merkle_512_settler.c:147-158 | which word stands at which offset of a leaf |
| Layouts.SettleRoot | examples/defi_settlement_proof/merkle_512_settler.c:160-197 | the root is the one node of the highest level, over pairs side by side and a last node doubled |
| Rlp.HeadExact | tools/lin_audit_tx.py:180-259 | a prefix is accepted exactly if it is the shortest one for its length and its payload is all there |
| Rlp.ParseRlp | tools/lin_audit_tx.py:180-267 | the parser with its loops computes the parsing function, errors included |
| Rlp.ParseSound | tools/lin_audit_tx.py:180-267 | what is accepted is the serialisation of what is returned |
| Rlp.ParseComplete | tools/lin_audit_tx.py:150-267 | a serialisation is read back at any place of any string |
| Rlp.ParseExact | tools/lin_audit_tx.py:150-267 | so the parser accepts exactly the canonical serialisations and ends exactly behind them |
| Rlp.PrefixFree | tools/lin_audit_tx.py:150-178 | no serialisation is the beginning of another |
| Rlp.IntegerExact | tools/lin_audit_tx.py:273-279 | an integer field is accepted exactly when it is the shortest form of its value |
| Rlp.IntegerRoundTrip | tools/lin_audit_tx.py:150-158 | a serialised integer parses and validates to itself |
| Layouts.RlpLayout | tools/lin_audit_tx.py:150-178 | what stands in front of a payload: 0x80 or 0xc0 and the length up to 55 bytes, otherwise 0xb7 or 0xf7 and the number of length bytes, and the length without leading zeros; a byte below 0x80 stands for itself |
| Rlp.DecodeEnvelope | tools/lin_audit_tx.py:296-334 | the decoder up to the reserialisation check, which never fires |
| Rlp.DecodeExact | tools/lin_audit_tx.py:296-334 | exactly serialised lists behind a known type byte, or behind none, decode, and to themselves |
| Modular.ComputeGcd | examples/verify_crypto256_real_cleanroom.py:84-87 | the loop computes the greatest common divisor |
| Modular.GcdBezout | examples/verify_crypto256_real_cleanroom.py:84-87 | it divides both numbers and is a combination of them |
| Poly.TrimList | examples/verify_crypto256_real_cleanroom.py:117-121 | trimming removes exactly the leading coefficients that vanish |
| Poly.TrimKeepsValue | examples/verify_crypto256_real_cleanroom.py:117-121 | and changes no value modulo n |
| Poly.LongDivision | examples/verify_crypto256_real_cleanroom.py:149-158 | the in-place division loop computes the remainder |
| Poly.RemainderValue | examples/verify_crypto256_real_cleanroom.py:149-158 | where the divisor vanishes the remainder has the value of the dividend |
| Poly.DivideRoot | examples/verify_crypto256_real_cleanroom.py:142-159 | a round neither loses nor gains a common root |
| Poly.EuclidShape | examples/verify_crypto256_real_cleanroom.py:129-147 | a result is monic; the polynomial that blocks a round is trimmed and its last coefficient has no inverse |
| Poly.StartRoots | examples/verify_crypto256_real_cleanroom.py:124-160 | the roots of a result, and the common roots of the pair of a blocked round, are exactly the common roots of the inputs |
| Poly.PrimeGcd | examples/verify_crypto256_real_cleanroom.py:124-160 | modulo a prime the algorithm has a result exactly when the inputs do not both vanish |
| PolyIdeal.SameIdeal | examples/verify_crypto256_real_cleanroom.py:124-160 | the result, and the pair of a blocked round, generate modulo n the same polynomials as the inputs |
| PolyIdeal.CommonDivisor | examples/verify_crypto256_real_cleanroom.py:124-125 | so a result divides both inputs, is a combination of them, and is divided by every common divisor |
| Poly.PolyGcd | examples/verify_crypto256_real_cleanroom.py:124-160 | gives up on a degree above the cap before anything else; otherwise it is Euclid's algorithm on the trimmed inputs, ending with the monic divisor or with the pair of the round whose leading coefficient has no inverse; the budget of rounds is never the reason |
| Poly.LinearRoot | examples/verify_crypto256_real_cleanroom.py:165-167 | a linear result has exactly one root modulo n |
| RelatedMessages.BinomialValue | examples/verify_crypto256_real_cleanroom.py:171-176 | the expanded coefficients are those of the power of the binomial |
| RelatedMessages.ShiftedPower | examples/verify_crypto256_real_cleanroom.py:170-177 | the reduced list, of whatever size above the exponent, evaluates to that power minus the ciphertext, modulo n |
| RelatedMessages.FranklinReiter | examples/verify_crypto256_real_cleanroom.py:163-184 | for every exponent, a message is returned exactly when the cap admits the degree, n exceeds 1 and the common divisor is linear; it then explains both ciphertexts, and modulo n nothing else does |
| Broadcast.Coprime | examples/verify_crypto256_real_cleanroom.py:198-201 | the double loop decides pairwise coprimality |
| Broadcast.Crt | examples/verify_crypto256_real_cleanroom.py:191-206 | refuses exactly moduli that are not pairwise coprime; otherwise a number below the product with all the residues; with lists of different lengths, missing residues count as 0 and further ones are ignored; divides by zero exactly for coprime moduli with a zero among them and some residue |
| Broadcast.SolutionUnique | examples/verify_crypto256_real_cleanroom.py:191-206 | there is only one such number |
| Broadcast.UpperBound | examples/verify_crypto256_real_cleanroom.py:210 | the first upper bound of the bisection is always large enough |
| Broadcast.Icbrt | examples/verify_crypto256_real_cleanroom.py:209-217 | the exact floor cube root of every number, and whether it is a cube |
| Broadcast.HastadBroadcast | examples/verify_crypto256_real_cleanroom.py:220-232 | a message is returned exactly if the moduli are pairwise coprime, its cube is below their product and the ciphertexts are the residues of its cube (and the power test passes, which for exponent 3 is the same) |
| Sha256.GapIsLeast | transpile/c/lin_c/lin_sha256.c:82-88 | the zero padding is the least that fills a block up to its length field |
| Sha256.FoldSnoc | transpile/c/lin_c/lin_sha256.c:72-75 | one more block is one more compression |
| Sha256.PadInjective | transpile/c/lin_c/lin_sha256.c:79-90 | messages below 2^61 bytes have different padded forms |
| Sha256.PadBlocks | transpile/c/lin_c/lin_sha256.c:79-90 | the one or two blocks of the final call are the padded end of the message |
| Sha256.Context.Transform | transpile/c/lin_c/lin_sha256.c:24-52 | schedule and rounds in place compute the compression function |
| Sha256.Context.Update | transpile/c/lin_c/lin_sha256.c:63-77 | whatever the cut into calls, the context has absorbed exactly the concatenation, and less than a block is buffered |
| Sha256.Context.Final | transpile/c/lin_c/lin_sha256.c:79-98 | the digest is that of the whole padded message |
| Sha256.HashAll | transpile/c/lin_c/lin_sha256.c:100-105 | the one-shot digest |
| Sha256.HashChunks | transpile/c/test/test_sha256.c:63-75 | a message handed over in any number of pieces of any lengths has the digest of the whole |
| Sha256.HashTwo | transpile/c/lin_c/lin_linbc1.c:182-187 | the digest over a domain and a body is that of their concatenation |
| Fips.CompressExactly | transpile/c/lin_c/lin_sha256.c:24-52 | the compression function is exactly the hash computation of FIPS 180-4, section 6.2.2: its functions bit by bit, its sums modulo 2^32, its schedule and its 64 rounds as relations |
| Fips.DigestExactly | transpile/c/lin_c/lin_sha256.c:24-105 | a digest is exactly that of the standard: padding, blocks, and the bytes of the last hash value |
| RootConstants.RootFractions | transpile/c/lin_c/lin_sha256.c:8-58 | the round constants are the first 32 bits of the fractions of the cube roots of 64 ascending primes from 2 to 311, and the initial hash value those of the square roots of the first eight |
| MerkleProof.BuildTree | examples/defi_settlement_proof/audit_v2/constant_time_study.py:94-101 | the levels of a full tree, with its root on top |
| MerkleProof.GetProof | examples/defi_settlement_proof/audit_v2/constant_time_study.py:104-109 | the path of siblings of a leaf |
| MerkleProof.VerifyProof | examples/defi_settlement_proof/audit_v2/constant_time_study.py:112-117 | the check accepts exactly if folding the path gives the root |
| MerkleProof.ProofVerifies | examples/defi_settlement_proof/audit_v2/constant_time_study.py:104-117 | for every power-of-two tree and every index the path verifies |
| MerkleProof.ProofBinding | examples/defi_settlement_proof/audit_v2/constant_time_study.py:112-117 | what verifies, with a path of any length: the node that the index names on the level at that distance from the root, with its own path, reached from the claimed leaf by the digests in excess of the depth; or two hashed strings collide |
| MerkleProof.LeafProved | examples/defi_settlement_proof/audit_v2/constant_time_study.py:112-117 | for paths of the depth of the tree that is the leaf at the index modulo the size, with its own path |
| Layouts.StudyRoot | examples/defi_settlement_proof/audit_v2/constant_time_study.py:94-101 | the root is the one node of the highest level, over the domain text and two nodes |
| GateManifest.LeafInjective | tools/verify_gate_manifest.py:49-57 | leaf texts decode in one way, although paths may contain colons |
| GateManifest.NextLevel | tools/verify_gate_manifest.py:70-77 | one level up, with an unpaired node promoted |
| GateManifest.ComputeRoot | tools/verify_gate_manifest.py:68-78 | the loop computes the root |
| GateManifest.RootIsTree | tools/verify_gate_manifest.py:68-78 | the root is the hash of a tree that holds all entries in order |
| GateManifest.ManifestBinding | tools/verify_gate_manifest.py:49-78 | non-empty lists of any lengths with one root are equal, or two hashed strings collide |
| GateManifest.LevelsOf | tools/verify_gate_manifest.py:81-86 | the number of levels is the least whose full tree has room for the leaves |
| Layouts.GateLeafText | tools/verify_gate_manifest.py:49-57 | the text that is hashed for an entry |
| Layouts.HexText | tools/verify_gate_manifest.py:56 | each byte as two lower-case hexadecimal digits, the high one first |
| Layouts.GateRoot | tools/verify_gate_manifest.py:60-78 | the root is the one node of the highest level, over the domain text and two nodes, a last node moving up unchanged |
| SwapAudit.QuotesAgree | tools/ingest_mainnet_unfiltered.py:70-72 | the Python quote is the quotient that the C settlement computes |
| SwapAudit.KIsQuote | tools/ingest_mainnet_unfiltered.py:133-138 | the product invariant holds exactly for outputs up to the quote, in either direction |
| SwapAudit.NothingLeftOver | tools/ingest_mainnet_unfiltered.py:109-146 | a swap is a violation exactly if its output exceeds the quote, and the final UNCLASSIFIED is never returned |
| SwapAudit.ClassExactly | tools/ingest_mainnet_unfiltered.py:109-146 | every class by its amounts: both tokens on one side; nothing on one side or the same token on both; no reserve; output above, at or below its quote, and in the last case input at or above its own quote |
| SwapAudit.QuotedInputSuffices | tools/ingest_mainnet_unfiltered.py:75-78 | inputs from the quoted one up suffice; it is the least that does unless the division is exact, and then one less does |
| SwapAudit.ExactOutputNeverViolates | tools/ingest_mainnet_unfiltered.py:133-142 | paying the quoted input is never a violation |

## Left out

- Store: locking, directory creation, allocation failures, null arguments and the errors of
  opening, stat and reading are not modelled.
- StoreC0.Store.Commit: does not model the path whose final sync fails
  (`transpile/c/store_c0/store_c0.c:675-677`), because it keeps a queue of keys and values that
  were freed just before, and what later calls do with them is not defined.
- Store: a crash keeps a prefix of the file at least as long as the synced part; reordered or
  lost writes inside the synced part are not modelled, and a truncation is durable at once.
- Store: the sorted table is a sequence that is reassigned, so the shifting of pointers and the
  ownership of copied keys and values are not captured.
- Parser: the source position inside a token is not kept; names are byte strings, not views of
  the source.
- Evaluator and lowerer: arenas with a cycle, on which the recursion of the program does not end
  unless an error comes first, are left out.
- Machine: a frame is a value in an array-like sequence, so aliasing between a callee's argument
  pointer and the caller's stack is not captured; frames are always the preallocated ones.
- Machine: an access outside of a frame ends the run in the model; what the C program would do
  after it is not modelled.
- Loader: function names are byte strings and not pointers into the image, and the code of a
  function is its own sequence and not a slice of one shared table.
- Settlement: shifted limbs and bytes that do not overlap are added where the code combines them
  with a bitwise or; the first scaling goes through the same method as the second, with zero added.
- RLP: serialisations of payloads of 2^64 bytes and more, which the prefix cannot express, are
  excluded; the raw slices kept with parsed items, recursion limits of the interpreter and the
  field rules of the transaction types are left out.
- SHA-256 as cryptography: nothing is claimed about collisions.
- Merkle inclusion: trees whose size is not a power of two, for which the program fails on an
  index, are left out, as is the derivation of leaves from indices.
- Gate manifest: reading the manifest and the files is left out.
- Swap audit: fetching and grouping of logs is left out.
- `poly_mul`, `rsa_encrypt` and the checks of published parameters are left out as easy or fixed.
- Front end, JIT, GPU path, command lines, benchmarks, receipts of fixed size, Keccak and the
  regex-based tools are left out: foreign calls, input and output, or small fixed instances of the
  general results here.

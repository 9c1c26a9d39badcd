# Verified core of the NeoC SDK

This project models the parts of the NeoC SDK (a C library for the Neo N3 blockchain) whose correctness is not visible
from any single function, and proves what they promise for all inputs, all runs and all interleavings:

* the allocation tracker, as a state machine over the atomic steps of any number of threads (`AllocTracker`), with its
  linked list (`AllocList`), an independent ledger of the callers' requests (`AllocLedger`) and the effect of each call
  without interference (`AllocAlone`);
* Neo VM stack items, as trees with mutually recursive equality (`StackValues`), as a reference-counted heap
  (`StackHeap`, with its cycles in `StackCycles` and its code in `StackCode`), and the refinement of the one by the
  other (`StackUnfold`, with a run in `StackExample`);
* BIP-39 mnemonics (`Bits`, `WordText` on `Layout`, `Bip39`, and the loops in `Bip39Code`);
* BIP-32 keys and derivation paths (`Bip32`, `Bip32Path`), and recoverable ECDSA signatures (`Sign`), over an abstract
  group of prime order (`Curve`). The integers modulo any odd prime below 2^256 meet its laws (`CurveIntegers`), and
  the integers modulo 7 supply concrete inputs (`CurveModel`);
* NEF contract files (`Nef`, and the mutable file object in `NefCode`) on top of the binary writer and reader
  (`BinaryIO`, `Endian`);
* CRC-32 (`Crc32`, and as polynomial division in `CrcDivision`) and Murmur hashing (`Murmur32`, `MurmurValues`);
* payment URIs (`Uri`), and numerals as the C library reads them (`Decimal`).

Loops and in-place updates of the C code are methods with invariants, proved against specification functions; the
properties are lemmas about those functions. SHA-256, HMAC-SHA512, Base58Check and the elliptic curve are parameters:
any functions with the lengths, inverses or group laws that the contracts name.

Where the code departs from its own comments or from the standard, the model follows the code:

* No fingerprint is ever computed: `neoc_bip32_get_fingerprint` hands 33 bytes to a function that accepts only 20
  (`src/types/neoc_hash160.c:107-118`), so a child keeps its parent's fingerprint field.
* A serialized extended key has 82 bytes, four more than its fields; the last four are whatever the buffer held.
* Publishing a private key of the test network gives it the main network's version.
* Signing can refuse a genuine signature: the search for the recovery identifier stops at a candidate that is the
  point at infinity.
* A map whose key is changed after insertion can hold a repeated key, and is then not equal to a copy of itself.
* The half-order constant used for canonical signatures lies above half of the group order.
* Every language code up to 8 is served by the English word list; code 9 (Portuguese) is refused.
* A NEF file with an empty script cannot be created, and adding a token to a parsed file that has tokens releases them.
* `neoc_realloc` never raises the peak, so that the peak can fall below the usage.
* `neoc_free` is called on a block that came from the C library (the checksum buffer of `src/contract/nef_file.c`);
  the tracker's model has such foreign blocks and says what they do to the counters.

`dafny verify dfyconfig.toml` checks everything.

## Model

| member | source | states |
|---|---|---|
| `AllocTracker.StepKeepsSafe` | src/neoc_memory.c:50-227 | Every atomic step of every thread keeps the safety invariant: sound list, mutual exclusion, exclusive ownership of blocks in flight |
| `AllocTracker.StepKeepsBalanced` | src/neoc_memory.c:96-227 | Every step keeps three balances between the counters, the list, the live blocks and what calls in flight have yet to post |
| `AllocTracker.UnchargedIsListed` | src/neoc_memory.c:110-121 | Blocks that threads have listed but not yet charged cost no more than the list |
| `AllocTracker.UsageNeverNegative` | src/neoc_memory.c:187-197 | In a safe and balanced state the usage counter is not negative |
| `AllocTracker.RunKeepsInvariants` | src/neoc_memory.c:96-227 | The invariants hold at every point of every interleaving |
| `AllocTracker.TrackedListIsSound` | src/neoc_memory.c:50-94 | In every interleaving no address is listed twice, every listed address is a block not yet handed back, at most one thread is in the lock, and usage is never negative |
| `AllocTracker.QuiescentBooks` | src/neoc_memory.c:96-227 | With no call in flight usage equals allocated minus freed, and differs from the listed bytes and the live blocks only by lost entries, unlisted resizes and foreign blocks |
| `AllocTracker.StepKeepsComplete` | src/neoc_memory.c:50-65 | If tracking entries are always allocated, every held block stays listed |
| `AllocTracker.GenerousRunIsComplete` | src/neoc_memory.c:50-65 | In every such run nothing is lost, drifts or is foreign |
| `AllocTracker.GenerousBooks` | src/neoc_memory.c:324-331 | In every such run, with no call in flight, usage is the sum of the listed sizes and the allocation count is the number of live blocks |
| `AllocLedger.StepKeepsAgree` | src/neoc_memory.c:96-227 | Every step keeps the tracker in agreement with a ledger that is written from the requests alone: what each thread asked for, and for each block the bytes of the request that produced it |
| `AllocLedger.BooksMatchRequests` | src/neoc_memory.c:96-200 | In every interleaving each listed size is what its block was asked for (count times size for `neoc_calloc`), and with no call in flight total_allocated is the sum of the bytes of all granted requests |
| `AllocLedger.UsageIsWhatIsHeld` | src/neoc_memory.c:96-227 | If tracking entries are always allocated, then with no call in flight the list is exactly the ledger of the held blocks, and usage is the sum of the bytes that they were asked for |
| `AllocAlone.CallBegins` | src/neoc_memory.c:96-164 | A request of no bytes returns at once and changes nothing, any other goes to the system |
| `AllocAlone.MallocAlone` | src/neoc_memory.c:96-124 | Without interference a granted request lists and holds the block, raises count, total and usage by the request, and the peak to the new usage if that is higher |
| `AllocAlone.FreeAlone` | src/neoc_memory.c:202-227 | Without interference a release, or a resize to nothing, removes the first entry of the block and takes its size off the usage |
| `AllocAlone.ReallocAlone` | src/neoc_memory.c:160-200 | Without interference a resize replaces the entry, counts one allocation and one release, changes the usage by the difference and leaves the peak |
| `AllocAlone.ReallocPassesPeak` | src/neoc_memory.c:187-197 | Such a resize leaves the usage above the peak exactly when the block grows by more than was left below the peak |
| `AllocAlone.RefusedReallocAlone` | src/neoc_memory.c:173-185 | A resize that the system refuses only moves the entry to the head of the list |
| `AllocList.FirstAt` | src/neoc_memory.c:75-91 | The index where the list walk stops: the first entry of the address, or the end |
| `AllocList.TrackedList.Track` | src/neoc_memory.c:50-65 | Pushes the entry at the head of the linked list, or leaves the list as it was if the entry cannot be allocated |
| `AllocList.TrackedList.Relink` | src/neoc_memory.c:80-84 | Bypassing a node, at the head or behind a predecessor, removes exactly that node |
| `AllocList.TrackedList.Untrack` | src/neoc_memory.c:67-94 | Removes exactly the first entry of the address and returns its size, or reports that there is none |
| `AllocList.CriticalSectionUntracks` | src/neoc_memory.c:67-94 | In every interleaving, the steps of one thread between taking and releasing the lock turn the list into what `Untrack` makes of the linked nodes, and record the same result |
| `StackValues.EqualsIsSameValue` | src/protocol/stack_item.c:493-549 | For items whose maps hold pairwise unequal keys, equality holds exactly when the items denote the same value, with maps as mathematical maps |
| `StackValues.MapsAreSameTable` | src/protocol/stack_item.c:528-537 | Walking one side's entries decides equality of the tables, by counting keys |
| `StackValues.SubmapOfSameSize` | src/protocol/stack_item.c:528-537 | A map inside another of the same size is that map |
| `StackValues.EqualsIsEquivalence` | src/protocol/stack_item.c:493-549 | Equality is reflexive, symmetric and transitive on such items |
| `StackValues.RepeatedKeyBreaksReflexivity` | src/protocol/stack_item.c:528-537 | A map with a repeated key and different values is not equal to a copy of itself |
| `StackValues.CopyIsEqualExactly` | src/protocol/stack_item.c:528-537 | A map, repeated keys or not, equals a copy of itself exactly when its equal keys have equal values |
| `StackValues.RepeatedKeyBreaksSymmetry` | src/protocol/stack_item.c:528-537 | Two maps of which the first equals the second and the second does not equal the first |
| `StackValues.SymmetricExactly` | src/protocol/stack_item.c:528-537 | If one map equals another, the other equals it exactly when its equal keys have equal values and it has no key of its own |
| `StackValues.FindReadsTable` | src/protocol/stack_item.c:441-451 | The key search succeeds exactly when the table has the key, and stops at the value the table holds |
| `StackValues.GetAfterSet` | src/protocol/stack_item.c:441-490 | After a write every equal key reads the new value and every other key what it read before |
| `StackValues.SetKeepsWellFormed` | src/protocol/stack_item.c:454-490 | A write keeps keys pairwise unequal and adds an entry exactly when the key was absent |
| `StackValues.SetUpdatesTable` | src/protocol/stack_item.c:454-490 | A write is an update of the table that the map denotes |
| `StackValues.RunOfWrites` | src/protocol/stack_item.c:441-490 | After any run of writes every read returns the last write to an equal key |
| `StackValues.CreateInteger` | src/protocol/stack_item.c:39-66 | The item spells the value, the smallest 64-bit integer included, in at most eight trimmed little-endian bytes and a sign |
| `StackValues.ToInteger` | src/protocol/stack_item.c:308-329 | Reads the value, wrapped to 64 bits as in two's complement arithmetic, and reports other types and more than eight bytes |
| `StackValues.IntegerRoundTrip` | src/protocol/stack_item.c:39-329 | Every 64-bit integer is read back from the item created for it |
| `StackValues.IntegersEqualByValue` | src/protocol/stack_item.c:493-549 | Trimmed integer items are equal exactly when their values are |
| `StackHeap.ReleaseKeepsCounted` | src/protocol/stack_item.c:215-252 | Recursive release ends on every counted heap, cyclic or not, and keeps every count exact |
| `StackHeap.ReleaseKeepsShape` | src/protocol/stack_item.c:215-252 | Survivors of a release keep their contents and capacity |
| `StackHeap.StepKeepsInv` | src/protocol/stack_item.c:208-490 | Every create, ref, unref, array add and map set by a caller who owns what it passes keeps all counts exact and all contents within capacity |
| `StackHeap.RunKeepsInv` | src/protocol/stack_item.c:208-490 | The same after every run of operations |
| `StackHeap.RunCountsExactly` | src/protocol/stack_item.c:208-490 | In every run a live item's count is the callers' references plus its occurrences in live containers |
| `StackHeap.RunHasNoDanglingReference` | src/protocol/stack_item.c:215-252 | In every run no live container refers to a freed item |
| `StackHeap.LiveExactlyReachable` | src/protocol/stack_item.c:215-252 | On an acyclic heap the live items are exactly those that callers can reach |
| `StackHeap.ReleaseFreesUnreachable` | src/protocol/stack_item.c:215-252 | Dropping a caller's reference frees exactly the items that callers can no longer reach, and leaves the others as they were |
| `StackHeap.RunEndsEmpty` | src/protocol/stack_item.c:215-252 | In every run, once the last caller's reference is dropped an acyclic heap is empty |
| `StackCycles.AddExactly` | src/protocol/stack_item.c:410-432 | On an acyclic heap, adding an item keeps the heap acyclic exactly when the item does not lead to the container |
| `StackCycles.AppendExactly` | src/protocol/stack_item.c:472-489 | The same for a new map entry, its key and its value |
| `StackCycles.ReplaceExactly` | src/protocol/stack_item.c:464-468 | The same for a replaced value, although the old value is released first |
| `StackCycles.StepKeepsAcyclicExactly` | src/protocol/stack_item.c:208-490 | On an acyclic heap a call keeps the heap acyclic exactly when nothing it puts into a container leads to the container |
| `StackCycles.RunIsAcyclicExactly` | src/protocol/stack_item.c:208-490 | In every run the heap has been acyclic all along exactly if every call so far passed that check |
| `StackCycles.RunEndsEmptyExactly` | src/protocol/stack_item.c:215-252 | In every run, once the last caller's reference is dropped, all items are freed exactly if the heap is acyclic |
| `StackCycles.HarmlessRunEndsEmpty` | src/protocol/stack_item.c:208-490 | A run in which every call passed the check leaves nothing behind |
| `StackHeap.SelfReferenceLeaks` | src/protocol/stack_item.c:410-432 | A run that leaves an array alive which contains itself: acyclicity is needed |
| `StackHeap.CreatedAlone` | src/protocol/stack_item.c:133-184 | A new container is empty, has one reference, and room for 16 unless a capacity is given |
| `StackHeap.AddGrows` | src/protocol/stack_item.c:417-426 | A full array gets twice its capacity, any other keeps it |
| `StackHeap.AppendGrows` | src/protocol/stack_item.c:472-483 | The same for the entries of a map |
| `StackUnfold.AcyclicSpells` | src/protocol/stack_item.c:493-549 | On an acyclic heap every live item unfolds to exactly one value |
| `StackUnfold.HeapEqualsIs` | src/protocol/stack_item.c:493-549 | The recursive comparison on the heap, with its shortcut for two references to one item, decides equality of what the items unfold to |
| `StackUnfold.HeapEqualsIsSameValue` | src/protocol/stack_item.c:493-549 | It holds exactly when the items denote the same value |
| `StackUnfold.SpellsStill` | src/protocol/stack_item.c:454-490 | An item that does not lead to a changed map, and is still there, keeps its value |
| `StackUnfold.AddRefines` | src/protocol/stack_item.c:410-432 | If an array or struct unfolds to some items, an item that does not lead to it is added and there is room, it unfolds to those items with the added one behind them |
| `StackUnfold.AddsInOrder` | src/protocol/stack_item.c:410-432 | After any run of additions an array or struct unfolds to its first items and then the added ones, in order |
| `StackUnfold.MapSetRefines` | src/protocol/stack_item.c:454-490 | A write on the heap, with its counts, releases and growth, makes the map unfold to the updated entries |
| `StackUnfold.MapGetRefines` | src/protocol/stack_item.c:441-451 | A read on the heap finds an item that unfolds to what the entries read |
| `StackExample.RepeatedKeyArises` | src/protocol/stack_item.c:410-490 | A run of permitted calls that gives a map a repeated key, because a key is appended to after insertion |
| `StackCode.ItemHeap.constructor` | src/protocol/stack_item.c:15-22 | The empty heap |
| `StackCode.ItemHeap.Create` | src/protocol/stack_item.c:133-184 | A new container with one reference, held by the caller |
| `StackCode.ItemHeap.Ref` | src/protocol/stack_item.c:208-212 | One more reference for the caller |
| `StackCode.ItemHeap.UnrefItem` | src/protocol/stack_item.c:215-252 | The recursive countdown, which tears an item's contents down before the item itself, does what the abstract release does |
| `StackCode.ItemHeap.UnrefAll` | src/protocol/stack_item.c:231-245 | The teardown loop over an item's references |
| `StackCode.ItemHeap.Unref` | src/protocol/stack_item.c:215-252 | Dropping a caller's reference is the abstract step and keeps the invariant |
| `StackCode.ItemHeap.ArrayAdd` | src/protocol/stack_item.c:410-432 | Appends and retains, doubling a full array, so that the array unfolds to its old items and the new one behind them; wrong types and refused memory leave the heap as it was |
| `StackCode.ItemHeap.AppendItem` | src/protocol/stack_item.c:417-432 | The growth and the append, as the abstract step does them |
| `StackCode.ItemHeap.FindEntry` | src/protocol/stack_item.c:461-463 | The first entry whose key compares equal, or none, and the same one that the entries find if keys are pairwise unequal |
| `StackCode.ItemHeap.ReplaceAt` | src/protocol/stack_item.c:464-468 | Releasing the old value before retaining the new one is safe when the caller holds the new one |
| `StackCode.ItemHeap.MapSet` | src/protocol/stack_item.c:454-490 | Replaces or appends the entry, adjusts the counts as the abstract step does, and makes the map unfold to the updated entries |
| `StackCode.ItemHeap.SetEntry` | src/protocol/stack_item.c:464-489 | The replacement or the append, with doubling, as the abstract step does it |
| `WordText.FindWord` | src/crypto/bip39.c:319-347 | Binary search over a sorted list finds the word, or shows that it is not there |
| `WordText.TokensOfJoin` | src/crypto/bip39.c:516-520 | Splitting undoes joining with single spaces |
| `WordText.TokensExactly` | src/crypto/bip39.c:516-520 | The words of a text are those that it lays out between runs of spaces, however long, and no others |
| `WordText.NextToken` | src/crypto/bip39.c:516-519 | Skips spaces and takes one word; none is left exactly when no token is found |
| `WordText.SplitWords` | src/crypto/bip39.c:514-527 | All words of the text up to the limit, and whether there were more |
| `Bip39.EntropyRoundTrip` | src/crypto/bip39.c:395-608 | For every legal entropy, reading its mnemonic gives it back, and the words number three quarters of the bytes |
| `Bip39.AcceptedTextIsRebuilt` | src/crypto/bip39.c:395-608 | Every accepted text is rebuilt from its entropy as its words joined by single spaces |
| `Bip39.AcceptedExactly` | src/crypto/bip39.c:501-608 | A text is accepted exactly when its words are those of some legal entropy |
| `Bip39.SameEntropySameWords` | src/crypto/bip39.c:501-608 | Two accepted texts give the same entropy exactly when they have the same words |
| `Bip39.WordNumbers` | src/crypto/bip39.c:412-461 | The word numbers are the digits to the base 2048 of one number: the entropy to the base 256, followed by the leading bits of its digest |
| `Bip39.FromEntropyExactly` | src/crypto/bip39.c:395-411 | A mnemonic is made exactly of 16, 20, 24, 28 or 32 bytes, in the languages 0 to 8 |
| `Bip39Code.GetBit` | src/crypto/bip39.c:449-451 | Shift and mask read the bit of the stream at that position |
| `Bip39Code.PutBit` | src/crypto/bip39.c:437-441 | Or-ing a mask into a byte sets that bit of the stream and no other |
| `Bip39Code.ReadBits` | src/crypto/bip39.c:446-453 | The accumulated number is the one that the bits spell |
| `Bip39Code.BuildStream` | src/crypto/bip39.c:412-442 | The buffer holds the entropy bits, the leading digest bits and zeros |
| `Bip39Code.CountLetters` | src/crypto/bip39.c:444-461 | The first pass computes the exact length of the mnemonic |
| `Bip39Code.WriteWords` | src/crypto/bip39.c:469-493 | The second pass writes the mnemonic and ends at the terminator of the buffer sized by the first |
| `Bip39Code.MnemonicFromEntropy` | src/crypto/bip39.c:395-498 | Returns the specified mnemonic or error, in a buffer of exactly its length |
| `Bip39Code.WriteNumbers` | src/crypto/bip39.c:547-563 | Succeeds exactly when every word is in the list, and then the stream holds the eleven-bit word numbers |
| `Bip39Code.CheckStream` | src/crypto/bip39.c:565-607 | Copies the entropy out and compares the checksum as specified |
| `Bip39Code.MnemonicToEntropy` | src/crypto/bip39.c:501-608 | Returns the specified entropy or error for every text |
| `Bip39Code.ValidateMnemonic` | src/crypto/bip39.c:669-688 | True exactly when the language is served and the text's words are those of some legal entropy |
| `Curve.InverseExists` | src/crypto/sign.c:381-387 | Modulo a prime every smaller positive number has an inverse |
| `Curve.BaseOrder` | src/crypto/bip32.c:183-194 | A multiple of the base point is infinity exactly when the scalar is a multiple of the order |
| `Bip32.SeedAgrees` | src/crypto/bip32.c:34-68 | A master key has the shape of a key and a private version |
| `Bip32.MasterKey` | src/crypto/bip32.c:34-68 | The master key of 16 to 64 bytes: its scalar is the left half, and its chain code the right half, of the MAC of the seed under the bytes of "Neo seed" |
| `Bip32.FingerprintFails` | src/crypto/bip32.c:443-472 | No fingerprint is ever computed, so a child keeps its parent's |
| `Bip32.ChildIs` | src/crypto/bip32.c:162-170 | A derived child keeps version, privacy and fingerprint, records its index and counts its depth modulo 256 |
| `Bip32.HardenedMac` | src/crypto/bip32.c:106-109 | A hardened child depends on the MAC only at the parent's private key and the index, under its chain code |
| `Bip32.HardenedChild` | src/crypto/bip32.c:106-284 | A hardened child's scalar is the left half of the MAC of a zero byte, the parent's scalar and the index, plus the parent's scalar, modulo the order; its chain code is the right half; the error is for a zero sum and no other |
| `Bip32.PlainChild` | src/crypto/bip32.c:110-284 | The same for any other child of a private key, with the MAC of the compressed public key and the index |
| `Bip32.PublicChildIs` | src/crypto/bip32.c:146-284 | A child of a public key is the parent's point plus the left half of the MAC times the base point, with the right half as chain code |
| `Bip32.SameChildKey` | src/crypto/bip32.c:172-284 | Adding scalars and adding points give the same child key or the same error |
| `Bip32.ChildCommutes` | src/crypto/bip32.c:88-294 | For one non-hardened index, publishing before or after derivation gives the same key or error |
| `Bip32.PublishingCommutes` | src/crypto/bip32.c:314-406 | For every key and every non-hardened path, deriving and then publishing equals publishing and then deriving, in every field and every error |
| `Bip32.HardenedNeedsPrivate` | src/crypto/bip32.c:101-104 | A public key never derives along a path with a hardened index |
| `Bip32.PublishKeepsNetwork` | src/crypto/bip32.c:400-402 | Publishing keeps the network of an agreeing key exactly when the key is public or of the main network |
| `CurveModel.TestKeyBecomesMain` | src/crypto/bip32.c:400-402 | A private key of the test network that is published as a key of the main network |
| `Bip32.DeriveConcat` | src/crypto/bip32.c:314-336 | Deriving along two paths in turn is deriving along their concatenation |
| `Bip32.DerivePathIndices` | src/crypto/bip32.c:314-336 | The loop derives along the whole path and stops at the first error |
| `Bip32.ParseOfFields` | src/crypto/bip32.c:657-694 | Reading the serialized fields gives every field back, whatever the four unwritten bytes hold, with privacy taken from the version |
| `Bip32.FieldsLayout` | src/crypto/bip32.c:594-620 | The place of every field in the serialized key, and the index with its most significant byte first |
| `Bip32.VersionNumbers` | src/crypto/bip32.c:19-23 | The four version numbers |
| `Bip32.KeyRoundTrip` | src/crypto/bip32.c:583-698 | A serialized key is read back exactly when its version agrees with its privacy |
| `Bip32.DeserializedAgrees` | src/crypto/bip32.c:640-698 | Whatever the text, a deserialized key has a version that agrees with its privacy |
| `Bip32.ApplyKeeps` | src/crypto/bip32.c:88-406 | Derivation, publication and loading keep that agreement |
| `Bip32.ReachableRoundTrip` | src/crypto/bip32.c:34-698 | Every key reached from a seed by any sequence of derivations, publications and loads agrees, and survives serialization |
| `Bip32.FillBuffer` | src/crypto/bip32.c:594-620 | The buffer ends up with the fields in order and its last four bytes untouched |
| `Bip32.SerializeKey` | src/crypto/bip32.c:583-638 | The specified text, or the error for a buffer that is too small |
| `Bip32.DeserializeKey` | src/crypto/bip32.c:640-698 | Reads the fields one after the other as specified, or returns the specified error |
| `Bip32Path.ParseReadsPieces` | src/crypto/bip32.c:474-555 | For every text, the character loop reads the non-empty pieces between slashes in order, up to the limit, and ignores the others |
| `Bip32Path.ParseFits` | src/crypto/bip32.c:474-555 | For every text at most the allowed number of indices is stored, each of 32 bits |
| `Bip32Path.PathRoundTrip` | src/crypto/bip32.c:474-555 | Every list of 32-bit indices written with either hardened mark parses back to itself, or to as many as are allowed |
| `Bip32Path.PiecesExactly` | src/crypto/bip32.c:493-548 | The components of a path behind its root are those that it lays out between runs of slashes, and no others |
| `Bip32Path.DigitsRead` | src/crypto/bip32.c:497-521 | Digits are an index exactly when there are at most 31 of them and their value is below 2^31 |
| `Bip32Path.MarkedDigitsRead` | src/crypto/bip32.c:497-521 | Digits and one more character are an index exactly when the character is ' or h and they fit, and the index is then 2^31 higher |
| `Bip32Path.RootIsOptional` | src/crypto/bip32.c:484-490 | A path may begin with m, with M or with its first slash |
| `Bip32Path.NeoPathText` | src/crypto/bip32.c:565-581 | The text m/44'/888'/a'/c/i parses to the path of account a, change c, address i |
| `Bip32Path.NeoDerivation` | src/crypto/bip32.c:296-312 | Deriving along the text of an account's path is hardened derivation to the account and then derivation that commutes with publishing |
| `Bip32Path.Store` | src/crypto/bip32.c:497-521 | Stores the index that the buffer spells behind those stored before |
| `Bip32Path.ParsePath` | src/crypto/bip32.c:474-555 | The loop returns what the specification parses and never writes outside the two buffers |
| `Decimal.ScanOfNumeral` | src/crypto/bip32.c:507-513 | A printed 64-bit number is read back whole |
| `Decimal.ScanUnsigned` | src/crypto/bip32.c:507-513 | How `strtoul` reads white space, digits and whatever follows |
| `Decimal.ScanSigned` | src/contract/neoc_uri.c:75-75 | The same with a sign before the digits |
| `Decimal.StoredIs` | src/contract/neoc_uri.c:75-75 | A minus sign negates modulo 2^64, and what does not fit becomes the maximum |
| `Sign.VerifyPointTies` | src/crypto/sign.c:546-597 | Verification computes the one point that the signature ties to the key |
| `Sign.CandidateTies` | src/crypto/sign.c:365-415 | Recovery computes the one key that the signature ties to the point |
| `Sign.RecoveredKeyVerifies` | src/crypto/sign.c:263-457 | The signature verifies under any recovered key exactly when r and s are in range |
| `Sign.VerifiedKeyIsRecovered` | src/crypto/sign.c:263-457 | A key under which the signature verifies is recovered by one of the four identifiers |
| `Sign.RecoveryIsExact` | src/crypto/sign.c:145-187 | The keys under which a signature in range verifies are exactly those that the four identifiers recover |
| `Sign.HalfOrderIsAThreshold` | src/neo_constants.c:121-126 | The constant bounds every canonical s, and is above half of the order |
| `Sign.CanonicalIsCanonical` | src/crypto/sign.c:20-71 | The canonical form is in range, within the threshold and its own canonical form |
| `Sign.LowExactly` | src/crypto/sign.c:27-30 | The canonical s is in the lower half unless s lies between the half and the threshold |
| `Sign.HighIsKept` | src/neo_constants.c:121-126 | A signature with s above half of the order that is taken for canonical |
| `Sign.CanonicalKeepsVerdict` | src/crypto/sign.c:20-71 | Canonicalization never changes whether a signature verifies, under any key |
| `Sign.SearchFinds` | src/crypto/sign.c:159-186 | The identifier search succeeds exactly when a candidate is the key and no hard error comes before it |
| `Sign.HardErrorExactly` | src/crypto/sign.c:263-457 | For a signature in range, an identifier's recovery fails hard exactly when its point exists and s times it is e times the base point |
| `Sign.OnlyItsIdRecovers` | src/crypto/sign.c:322-344 | No identifier recovers a key but that of the point which verification computes |
| `Sign.SearchExactly` | src/crypto/sign.c:145-187 | The search for a verifying key succeeds exactly when no identifier before the key's own meets that equation |
| `Sign.SignedMessage` | src/crypto/sign.c:189-238 | Whenever signing succeeds the signature verifies, is within the threshold and canonical, its recovery byte is 27 plus the identifier of the point that verification computes, and the signer's key is recovered from it |
| `Sign.RecoveryByte` | src/crypto/sign.c:459-507 | Recovery from a message takes the bytes 0 to 3 and 27 to 30 for the four identifiers, and refuses every other |
| `Sign.TextbookSignature` | src/crypto/sign.c:546-597 | A signature made by the book, with any secret and any nonce, verifies under the secret's public key |
| `Sign.GenuineIsSigned` | src/crypto/sign.c:189-238 | For a raw signature that verifies, the key has one identifier, and signing succeeds exactly when no identifier before it meets the equation on hash, r and s |
| `CurveModel.GenuineSignatureIsRefused` | src/crypto/sign.c:159-186 | A signature that verifies and that signing refuses |
| `Sign.MemCmp` | src/crypto/sign.c:28-30 | Byte-wise comparison of big-endian numbers of one width is numeric comparison |
| `Sign.MakeCanonical` | src/crypto/sign.c:20-71 | Overwrites s in place with its canonical form |
| `Sign.FindId` | src/crypto/sign.c:145-187 | The loop over the four identifiers returns what the search specifies |
| `Endian.LittleRoundTrip` | src/serialization/binary_writer.c:96-145 | Little-endian bytes of a number that fits are read back as the number |
| `Endian.BigRoundTrip` | src/crypto/bip32.c:609-612 | Big-endian bytes of a number that fits are read back as the number |
| `BinaryIO.TakeWrittenVarInt` | src/serialization/binary_reader.c:154-182 | Every 64-bit number is read back from its variable-width form |
| `BinaryIO.VarIntShape` | src/serialization/binary_writer.c:162-183 | The variable-width form has 1, 3, 5 or 9 bytes, and its first byte says which |
| `BinaryIO.TakeWrittenVarBytes` | src/serialization/binary_reader.c:184-220 | Length-prefixed bytes are read back, and the bytes behind them are left, unless memory is refused |
| `BinaryIO.Writer.EnsureCapacity` | src/serialization/binary_writer.c:8-31 | Doubling makes room and keeps what was written |
| `BinaryIO.Writer.WriteBytes` | src/serialization/binary_writer.c:73-89 | Appends exactly the bytes |
| `BinaryIO.Writer.WriteNumber` | src/serialization/binary_writer.c:96-145 | Appends the low bytes, least significant first |
| `BinaryIO.Writer.WriteVarInt` | src/serialization/binary_writer.c:162-183 | Appends the variable-width form |
| `BinaryIO.Writer.WriteVarBytes` | src/serialization/binary_writer.c:185-200 | Appends the length and the bytes |
| `BinaryIO.Reader.ReadBytes` | src/serialization/binary_reader.c:48-65 | Takes the next bytes and advances, or reports the end of the stream |
| `BinaryIO.Reader.ReadVarInt` | src/serialization/binary_reader.c:154-182 | Takes a variable-width number and advances |
| `BinaryIO.Reader.ReadVarBytes` | src/serialization/binary_reader.c:184-220 | Takes length-prefixed bytes and advances, or reports that memory is refused |
| `Nef.CreateBuilds` | src/contract/nef_file.c:162-232 | A created file has a padded header, a legal script and a checksum in step |
| `Nef.CreateExactly` | src/contract/nef_file.c:162-232 | Creation succeeds exactly for a script of 1 to 512000 bytes, a compiler of at most 63 and a source of at most 255, and stores all three |
| `Nef.AddTokensBuilds` | src/contract/nef_file.c:234-282 | Any run of token additions, successful or refused, keeps that |
| `Nef.RunAppends` | src/contract/nef_file.c:234-282 | After any run of additions the tokens are those of the accepted requests, in order |
| `Nef.RestsAgree` | src/contract/nef_file.c:49-470 | The two serializers, with their own token loops, write the same bytes behind the compiler field |
| `Nef.SerializersAgree` | src/contract/nef_file.c:348-486 | The file's bytes are the checksummed string and the checksum exactly when the compiler buffer is zero-padded |
| `Nef.VerifyMeans` | src/contract/nef_file.c:149-154 | For every file whose compiler buffer is zero-padded, verification succeeds exactly when the last 32 bytes of the serialized file are the double digest of the bytes before them |
| `Nef.TokenLayout` | src/contract/nef_file.c:411-456 | The place of every field in a serialized token |
| `Nef.FileLayout` | src/contract/nef_file.c:348-486 | The place of every field in a serialized file, from the four characters NEF3 to the checksum |
| `Nef.ParseWritten` | src/contract/nef_file.c:518-648 | A built file is parsed back if its source has at most 254 bytes, its length reaches the parser's minimum and there is memory for the script; otherwise the parser reports a format or memory error |
| `Nef.ParseLaidOut` | src/contract/nef_file.c:518-648 | Any readable fields, laid out in order and followed by any bytes, are parsed to exactly those fields; only a short text, a source of 255 bytes and a script without memory are refused |
| `Nef.ParsedFileFits` | src/contract/nef_file.c:518-648 | Whatever the bytes, a parsed file began with NEF3 and its compiler, and all its fields fit the C structures |
| `Nef.FileSize` | src/contract/nef_file.c:348-486 | The length of the serialized file, from the lengths of its parts |
| `Nef.EveryRun` | src/contract/nef_file.c:27-648 | For every created file and every run of additions: the checksum verifies, the last 32 bytes of the file are the double digest of those before them, the two serializers agree, and parsing gives the file back if and only if two conditions on the arguments hold and there is memory for the script |
| `Nef.LongSourceIsRefused` | src/contract/nef_file.c:560-564 | A created file that the parser refuses for its source of 255 bytes |
| `Nef.ShortFileIsRefused` | src/contract/nef_file.c:525-527 | A created file that the parser refuses for its length |
| `Nef.UnpaddedCompilerDisagrees` | src/contract/nef_file.c:368-375 | A compiler buffer for which the two serializers disagree |
| `NefCode.CalculateChecksum` | src/contract/nef_file.c:27-160 | The writer's output is the specified string, and the result its double digest |
| `NefCode.WriteFile` | src/contract/nef_file.c:348-486 | The writer's output is the specified file |
| `NefCode.ReadTokens` | src/contract/nef_file.c:581-624 | The token loop reads what the specification takes, and stops at the first error |
| `NefCode.ReadFile` | src/contract/nef_file.c:518-648 | The cursor-based parser returns the specified file or error for every byte string |
| `NefCode.NefFile.constructor` | src/contract/nef_file.c:198-205 | A file object with its token block |
| `NefCode.NefFile.CreateFile` | src/contract/nef_file.c:162-232 | The specified file with ten token slots, or the specified error |
| `NefCode.NefFile.Grow` | src/contract/nef_file.c:252-267 | Doubles the token block up to the maximum and keeps the tokens |
| `NefCode.NefFile.Append` | src/contract/nef_file.c:269-281 | Fills the next slot and refreshes the checksum |
| `NefCode.NefFile.AddMethodToken` | src/contract/nef_file.c:234-282 | Appends the token as specified, refuses without a change, or fails on a parsed file and then loses its tokens |
| `NefCode.NefFile.Verify` | src/contract/nef_file.c:315-327 | True exactly when the stored checksum is that of the contents, which for a zero-padded compiler is the double digest of all that precedes it in the serialized file |
| `NefCode.NefFile.Serialize` | src/contract/nef_file.c:348-486 | The specified bytes of the object's contents |
| `NefCode.NefFile.Parse` | src/contract/nef_file.c:518-648 | An object with the parsed contents and recorded capacity zero, or the specified error |
| `Crc32.ComputeCrc32` | src/crypto/hash.c:101-112 | The byte and bit loops compute the specified register |
| `Crc32.BytesFeedBits` | src/crypto/hash.c:104-109 | Absorbing bytes is feeding their bits one at a time |
| `CrcDivision.RegisterIsRemainder` | src/crypto/hash.c:104-109 | The register after any bits is the remainder of long division by the generator polynomial of CRC-32, on sequences of coefficients |
| `CrcDivision.CrcIsRemainder` | src/crypto/hash.c:101-112 | The CRC of a message is the complement of the remainder of its polynomial, with the first 32 coefficients complemented and 32 zeros appended |
| `CrcDivision.BitsTell` | src/crypto/hash.c:104-109 | A register is determined by its coefficients |
| `Crc32.BurstChangesRegister` | src/crypto/hash.c:104-109 | Windows of at most 32 bits that differ leave different registers, whatever surrounds them |
| `Crc32.BurstIsDetected` | src/crypto/hash.c:101-112 | Messages of one length that differ only within 32 consecutive bits have the same CRC exactly when they are equal |
| `Crc32.FourBytesAreDetected` | src/crypto/hash.c:101-112 | The same for a difference within four consecutive bytes |
| `Murmur32.ComputeMurmur32` | src/crypto/hash.c:56-99 | The block loop, the tail and the finish compute the specified hash |
| `Murmur32.RoundInjectiveInBlock` | src/crypto/hash.c:69-76 | From one state, different blocks lead to different states |
| `MurmurValues.MixUndone` | src/crypto/hash.c:69-73 | Scrambling a block is undone by the inverse multiplications and the opposite rotation, in opposite order |
| `MurmurValues.RoundUndone` | src/crypto/hash.c:74-76 | The same for the rest of a round |
| `MurmurValues.AvalancheUndone` | src/crypto/hash.c:92-98 | The same for the finish |
| `MurmurValues.FirstBlock` | src/crypto/hash.c:64-76 | The first four bytes make one round, and the rest is hashed from there |
| `MurmurValues.HashOfTest` | src/crypto/hash.c:56-99 | The published hash of "test" |
| `MurmurValues.HashOfAbc` | src/crypto/hash.c:56-99 | The published hash of "abc", all of it tail |
| `Murmur32.OneBlockIsDetected` | src/crypto/hash.c:56-99 | Inputs that differ only in one aligned block have the same hash exactly when they are equal |
| `Murmur32.TailIsDetected` | src/crypto/hash.c:78-98 | Inputs of one length that differ only in the tail have the same hash exactly when they are equal |
| `Uri.ParamsOfRendered` | src/contract/neoc_uri.c:55-86 | Splitting a rendered query gives its parameters back in order |
| `Uri.ParamsExactly` | src/contract/neoc_uri.c:55-86 | The parameters of a query are those that it spells, in order, and text behind them without an equals sign is dropped |
| `Uri.AssignExactly` | src/contract/neoc_uri.c:65-83 | The names asset, amount and description set their fields, and every other name none |
| `Uri.ParsedIsClean` | src/contract/neoc_uri.c:21-90 | Whatever the text, no parsed field contains the character that ends it |
| `Uri.RoundTrip` | src/contract/neoc_uri.c:21-153 | Parsing a built URI gives the four fields back exactly when the address has no question mark and asset and description no ampersand |
| `Uri.MarksAreLost` | src/contract/neoc_uri.c:21-153 | An address and an asset that do not come back |
| `Uri.ParsedIsRebuilt` | src/contract/neoc_uri.c:21-153 | Every URI that parses can be rebuilt, and the rebuilt text parses to the same fields |
| `Uri.BuiltText` | src/contract/neoc_uri.c:92-153 | The text that is built: the scheme neo:, the address, and the named fields in order with their separators |
| `Uri.BareText` | src/contract/neoc_uri.c:92-153 | An address alone is built without a query |
| `Uri.ParseParameters` | src/contract/neoc_uri.c:52-87 | The pointer-walking loop ends and applies the query's parameters in order |
| `Uri.ParseUri` | src/contract/neoc_uri.c:21-90 | Returns the specified fields, or the error for another scheme |
| `Uri.StrCat` | src/contract/neoc_uri.c:122-150 | Appends behind the terminator it finds, inside the buffer |
| `Uri.BuildUri` | src/contract/neoc_uri.c:92-153 | Writes the specified text into a buffer of the size computed beforehand, which always suffices |

## Left out

- NULL arguments, and failed allocations outside the tracker, the growing containers of stack items and the script of a parsed NEF file.
- Custom allocators and the debug reset. The peak is described for calls without interference only: threads that load and store it in turn can lower it.
- Wrap-around of the tracker's `size_t` counters: they are unbounded integers in the model.
- StackUnfold.HeapEqualsIs: items that contain themselves are not compared; the source would not return for them.
- StackValues.ToInteger: the wrapped results are those of two's complement arithmetic, which C leaves undefined.
- Bip39.EntropyRoundTrip: the word list is any sorted list of 2048 plain words, not the list of the repository; the seed derivation (PBKDF2) is not modelled.
- Bip32.ReachableRoundTrip: a text is promised only if it fits the caller's buffer, as in the code.
- Bip32.ChildIs: HMAC and curve operations never fail for lack of memory in the model.
- Sign.SignedMessage: the random nonce of the signing primitive is not modelled; its result is any pair in range.
- Curve.BaseOrder: the primality of the order of secp256r1 and the group laws of the curve are hypotheses, not proved.
- Nef.EveryRun: the header's unused token count and the unused `checksum_valid` flag are not in the model; files are byte strings, not paths.
- Murmur32.ComputeMurmur32: assumes a little-endian host and fewer than 2^31 blocks.
- Uri.BuildUri: strings are C strings, so they do not contain the terminator.
- Wallets, NEP-2 and WIF, contract wrappers, manifests, the script builder, RPC and JSON: they add easy members or input and output.

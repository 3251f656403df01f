# Verified models of the Cangjie runtime

Dafny models of the parts of the Cangjie runtime whose correctness depends on more than one function,
with proofs of what they promise. `dafny verify dfyconfig.toml` checks the whole project.

| files | models |
|---|---|
| `RedBlackShapes`, `RedBlackOrder`, `RedBlackTree` | the intrusive red-black tree: nodes with parent links, updated in place |
| `GracePeriod` | the single-writer synchronizer: grace periods with two exit counters, any number of readers, 32-bit wrap-around |
| `FastMap`, `FastMapProtocol` | the cache of generic types: as a table its writer fills, and as lock-free lookups against writers, step by step |
| `TypeRegistry`, `TypeRegistryProtocol`, `TypeUniqueness` | giving UUIDs to types so that equal types get equal UUIDs: as the code of one thread, for any interleaving of threads, and exactly when it holds there |
| `Unload` | which types go when an image is unloaded |
| `Layout`, `LayoutCode` | object layout and the collector's reference bitmap: what is right, and the loops that compute it |
| `CentralCache`, `SizeClasses`, `SpanList` | the central cache of the small-block allocator, and its linked lists of spans |
| `BitMap`, `Words` | the word-level bitmap, on machine words as numbers |
| `Future` | ownership of a future between executor, waits and release |
| `RuntimeMutex` | the mutex and monitor whose lock can be given back in flight |
| `MarkStack` | the chunked mark stack |
| `PackageSnapshots` | published package snapshots and their sub-package lists |
| `TruncatedSeq` | the sliding window and its regression, over the reals |
| `Common`, `Alignment`, `Sealing` | shared definitions |

Objects the runtime updates in place are classes whose methods are proved against a specification of
their contents. Protocols between threads are step systems: `Enabled` and `Apply` (or `Next`) give the steps, `IsRun`
a run of any length, and the theorems speak about every state of every run; atomics are sequentially
consistent. What the models do not see - the page cache, the loader, the scheduler, the pause
machinery - enters as an arbitrary value that a contract constrains.

Four properties turn out to depend on a condition, which is proved exact:

* A structural type keeps one UUID, in a run and however it goes on, if and only if no created type info is
  stored over one that has a UUID (`TypeUniqueness.OneUUIDIff`). Creation tests that its descriptor is empty
  and stores later without a lock; a registration in between is overwritten (`TypeUniqueness.TwoUUIDs`).
* Unloading an image leaves no survivor that depends on it if and only if no value array outside the image
  has a component that leads into it (`Unload.SurvivorsIff`); value arrays are not followed
  (`Unload.VArrayKeepsDependency`).
* The reference bitmap is right if and only if dropping arrays of no elements would move no field that holds
  references (`Layout.BitmapIff`, `LayoutCode.Describe`). The layout aligns such an array and the walk does
  not, which can displace later marks (`Layout.EmptyArrayMisplacesMark`); without such arrays the condition
  always holds (`Layout.SolidIsTight`).
* Clearing a large range completes if and only if the range begins with a word or ends in a later word
  (`BitMap.Map.ClearLargeRange`), because the word count is an unsigned difference. It fails inside one word,
  also for an empty range: [3, 3) clears bits 3 to 63 (`BitMap.LargeRangeSpills`).

## Model

| member | source | states |
|---|---|---|
| `RedBlackTree.Tree.InsertAtCursor` | runtime/src/Base/RBTree.h:472-490 | inserting at an empty place adds exactly that node at that place of the in-order sequence; afterwards links, parents, root and count agree, no red node has a red child and all black heights are equal |
| `RedBlackTree.Tree.FixInsertViolations` | runtime/src/Base/RBTree.h:188-244 | the repair loop turns a tree whose only fault is one red-red edge into one without fault, with the same in-order sequence |
| `RedBlackTree.Tree.RemoveAtCursor` | runtime/src/Base/RBTree.h:494-532 | removing any node, also one with two children, leaves the in-order sequence without that node and every tree property intact |
| `RedBlackTree.Tree.SwapWithSuccessor` | runtime/src/Base/RBTree.h:500-529 | the pointer swap with the in-order successor exchanges place and colour of the two nodes and leaves the doomed node with at most one child, also when the successor is its child |
| `RedBlackTree.Tree.RemoveFromTree` | runtime/src/Base/RBTree.h:334-377 | unlinking a node with at most one child removes it from the sequence and restores all black heights |
| `RedBlackTree.Tree.RemoveBlackLeaf` | runtime/src/Base/RBTree.h:246-331 | before a black leaf is cut off, the loop has made up for its missing black unit: counted without the leaf the tree is balanced, and the sequence is unchanged |
| `RedBlackTree.Tree.RebalanceStep` | runtime/src/Base/RBTree.h:247-330 | one round of the loop either finishes or moves the missing unit one level up, for every sibling and nephew colouring |
| `RedBlackTree.Tree.EnsureBlackSibling` | runtime/src/Base/RBTree.h:249-275 | a red sibling is rotated away so that the sibling is black, without changing sequence or black heights |
| `RedBlackTree.Tree.RestoreBlack` | runtime/src/Base/RBTree.h:286-330 | with a red nephew the rotations and recolourings leave exactly the restored subtree in place |
| `RedBlackTree.RestoredFacts` | runtime/src/Base/RBTree.h:278-316 | that restored subtree makes up for the missing black unit and keeps the in-order sequence |
| `RedBlackTree.LevelledFacts` | runtime/src/Base/RBTree.h:318-330 | without a red nephew, recolouring sibling and parent makes up for the missing unit or moves it one level up |
| `RedBlackTree.Tree.FindCursor` | runtime/src/Base/RBTree.h:413-434 | search ends at the node with the key or at the one empty place that separates smaller from larger keys |
| `RedBlackTree.Tree.CursorOf` | runtime/src/Base/RBTree.h:436-449 | the cursor of a node points at exactly that node |
| `RedBlackTree.Tree.Remove` | runtime/src/Base/RBTree.h:570-574 | removing by node is removing that node from the in-order sequence, nothing else |
| `RedBlackTree.Tree.ReplaceAtCursor` | runtime/src/Base/RBTree.h:539-567 | replacing changes one position of the in-order sequence, keeps the shape and colours, and none of the key assertions can fail |
| `RedBlackTree.InsertKeepsSorted` | runtime/src/Base/RBTree.h:413-434 | a node inserted where its key was searched keeps the keys strictly increasing |
| `RedBlackTree.RemoveKeepsSorted` | runtime/src/Base/RBTree.h:494-532 | removal keeps the keys strictly increasing |
| `RedBlackTree.VerifyNode` | runtime/src/Base/RBTree.h:379-403 | the tree's own recursive check passes every assertion on every tree the operations produce, and returns its node count and black height |
| `RedBlackTree.Next` | runtime/src/Base/RBTree.h:64-78 | stepping forward gives the next node of the in-order sequence, null at the end |
| `RedBlackTree.Prev` | runtime/src/Base/RBTree.h:42-56 | stepping back gives the previous node of the in-order sequence, null at the start |
| `RedBlackTree.Tree.HeightBound` | runtime/src/Base/RBTree.h:609-617 | after any run of insertions and removals 2^(height/2) is at most the node count plus one |
| `RedBlackTree.HeightIsLogarithmic` | runtime/src/Base/RBTree.h:609-617 | in any tree with equal black heights and no red-red edge the height is at most twice the logarithm of its size |
| `RedBlackShapes.Node.RotateLeft` | runtime/src/Base/RBTree.h:109-126 | a left rotation relinks three nodes in place and leaves the in-order sequence of the whole tree as it was |
| `RedBlackShapes.Node.RotateRight` | runtime/src/Base/RBTree.h:130-147 | a right rotation relinks three nodes in place and leaves the in-order sequence of the whole tree as it was |
| `GracePeriod.StepInv` | runtime/src/Base/SingleWriterSynchronizer.cpp:8-28 | every step of any reader or of the writer keeps the accounting: with fewer than 2^31 live readers, the enter counter less the exit counter of a parity is twice the readers of that parity inside, modulo 2^32 |
| `GracePeriod.RunInv` | runtime/src/Base/SingleWriterSynchronizer.h:13-20 | the accounting holds in every state of every interleaving |
| `GracePeriod.SynchronizeWaits` | runtime/src/Base/SingleWriterSynchronizer.cpp:8-28 | from its first load to its return, a Synchronize outlasts every reader that was inside when it began, whatever exchanges failed and were retried in between |
| `GracePeriod.GracePeriodHolds` | runtime/src/Base/SingleWriterSynchronizer.cpp:8-28 | once past its wait, every reader that was inside at the successful compare-exchange has left |
| `GracePeriod.LastFlip` | runtime/src/Base/SingleWriterSynchronizer.cpp:8-20 | between its first load and its return the writer has made a successful compare-exchange |
| `GracePeriod.ReturnsDrained` | runtime/src/Base/SingleWriterSynchronizer.cpp:26-28 | a call returns only when it found the semaphore empty |
| `GracePeriod.SignalIsDeserved` | runtime/src/Base/SingleWriterSynchronizer.h:14-20 | whoever signals has brought an exit counter to the value awaited when it compared |
| `GracePeriod.NoLostWakeup` | runtime/src/Base/SingleWriterSynchronizer.cpp:21-27 | while the writer is blocked an old reader is still inside, or an exiter that reached exactly the awaited value has yet to compare or to signal, or the semaphore is positive |
| `GracePeriod.BalancedMeansEmpty` | runtime/src/Base/SingleWriterSynchronizer.h:13-20 | a counter that is twice n short of the other equals it modulo 2^32 only for n = 0, given fewer than 2^31 readers |
| `GracePeriod.LastExiter` | runtime/src/Base/SingleWriterSynchronizer.h:14-20 | while the writer waits, an exit that empties the old parity leaves a wakeup for the awaited value under way |
| `GracePeriod.CanReturn` | runtime/src/Base/SingleWriterSynchronizer.cpp:8-28 | from every reachable state with the writer inside Synchronize there is a finite schedule without new readers that lets it return |
| `GracePeriod.ParityKept` | runtime/src/Base/SingleWriterSynchronizer.cpp:8-20 | between two successful compare-exchanges the parity of the enter counter does not change |
| `GracePeriod.InsideOnce` | runtime/src/Base/SingleWriterSynchronizer.h:13-20 | a reader is inside for one stretch only, with the value it entered with |
| `FastMapProtocol.StepInv` | runtime/src/TypeInfoManager.cpp:737-802 | every load, store, resize and invalidation step keeps what the table entries and lookups in flight mean |
| `FastMapProtocol.RunInv` | runtime/src/TypeInfoManager.cpp:737-802 | that meaning holds in every state of every interleaving |
| `FastMapProtocol.LookupIsSourced` | runtime/src/TypeInfoManager.cpp:737-751 | a lookup that returns a descriptor for a key at generation g returns one stored by an insert for exactly that key with expected generation g |
| `FastMapProtocol.LookupFinds` | runtime/src/TypeInfoManager.cpp:737-751 | a lookup that loads a table holding its key returns that descriptor whatever writers do meanwhile, unless the generation has moved on |
| `FastMapProtocol.NoFalseMiss` | runtime/src/TypeInfoManager.cpp:737-791 | what an insert has stored is found by every lookup that loads its table in the same generation with no invalidation under way, unless the generation moves on |
| `FastMapProtocol.InsertPublishes` | runtime/src/TypeInfoManager.cpp:787-790 | an insert that completes has put its entry into the active table |
| `FastMapProtocol.NoLatePublication` | runtime/src/TypeInfoManager.cpp:768-802 | once the generation has moved on, no insert for an older generation takes effect any more |
| `FastMapProtocol.SlotsAreWriteOnce` | runtime/src/TypeInfoManager.cpp:705-717 | a filled slot never changes again, also in tables that have been retired |
| `FastMapProtocol.GenerationGrows` | runtime/src/TypeInfoManager.cpp:793-802 | the generation never decreases |
| `FastMap.Table.Find` | runtime/src/TypeInfoManager.cpp:688-703 | probing finds an entry exactly when the key is stored, and then that entry |
| `FastMap.Table.Insert` | runtime/src/TypeInfoManager.cpp:705-717 | the first empty slot of the probe sequence is taken: the map gains exactly this key, no gap arises, and the missing-slot check cannot fire |
| `FastMap.NormalizeCapacity` | runtime/src/TypeInfoManager.cpp:651-658 | the least power of two from 8 on that is not below the request |
| `FastMap.Cache.Resize` | runtime/src/TypeInfoManager.cpp:753-766 | a resize keeps the map and its size and leaves room for the next entry |
| `FastMap.Cache.Insert` | runtime/src/TypeInfoManager.cpp:768-791 | an insert adds its key only for few enough arguments, the expected generation and a new key; the load stays below seven tenths of a power-of-two capacity, which doubles only when it would not |
| `FastMap.Cache.Get` | runtime/src/TypeInfoManager.cpp:737-751 | without a writer at work a lookup returns exactly what the map holds |
| `FastMap.Cache.Invalidate` | runtime/src/TypeInfoManager.cpp:793-802 | invalidation empties the map, keeps the capacity and moves the generation on by one |
| `FastMap.EmptyEndsSearch` | runtime/src/TypeInfoManager.cpp:688-703 | an empty slot reached by probing proves that the key is not stored |
| `TypeRegistry.Manager.SameUUID` | runtime/src/TypeInfoManager.cpp:236-323 | two registered type infos have equal UUIDs exactly when they are the same type, read off their fields: by name for value arrays and whatever is not generic, otherwise by template name and, part by part, component or type arguments; one of each kind never shares a UUID |
| `TypeRegistry.SameTypeIff` | runtime/src/TypeInfoManager.cpp:244-257 | that reading of the fields, all the way down, is equality of structural types |
| `TypeRegistry.NumberedIsListed` | runtime/src/TypeInfoManager.cpp:269-322 | a type with a UUID has the one listed under its name if only its name tells it apart, otherwise that of a type info held by a descriptor of the same template name and the same parts |
| `TypeRegistry.Manager.AddTypeInfo` | runtime/src/TypeInfoManager.cpp:236-323 | registration gives a type info the UUID listed for its name, or for its template and parts, first registering its arguments; no UUID ever given changes, and no descriptor goes away |
| `TypeRegistry.Manager.ComputeHash` | runtime/src/TypeInfoManager.cpp:80-102 | hashing a key first numbers its template and all its arguments, and the hash is a function of those UUIDs |
| `TypeRegistry.Manager.Same` | runtime/src/TypeInfoManager.cpp:104-145 | descriptor comparison holds exactly when template and argument UUIDs agree |
| `TypeRegistry.Manager.Find` | runtime/src/TypeInfoManager.cpp:526-545 | a chain search finds a descriptor exactly when one agrees with the key, whatever collides with its hash |
| `TypeRegistry.Manager.InsertDesc` | runtime/src/TypeInfoManager.cpp:547-572 | the table never holds two descriptors of one structural type |
| `TypeRegistry.Manager.GetTypeInfo` | runtime/src/TypeInfoManager.cpp:809-817 | looking up or inserting yields the one descriptor of the structural type |
| `TypeRegistry.Manager.TemplateUUID` | runtime/src/TypeInfoManager.cpp:494-516 | templates share a UUID exactly through their name; a UUID once given stays |
| `TypeRegistry.Manager.AddGeneric` | runtime/src/TypeInfoManager.cpp:265-306 | the locked section takes over the UUID of the descriptor's type info if it has one and otherwise makes this type info the canonical one |
| `TypeRegistry.Manager.AddNamed` | runtime/src/TypeInfoManager.cpp:307-322 | value arrays, and types that are not generic, take the UUID listed under their name; the first of a name is listed itself with a new one |
| `TypeRegistry.Manager.Instantiate` | runtime/src/TypeInfoManager.cpp:851-873 | a type info created for a descriptor but not yet numbered does not disturb the relation of types and UUIDs |
| `TypeRegistry.SameShape` | runtime/src/TypeInfoManager.cpp:104-145 | structural equality unfolds to: the same name, or the same template name and pairwise structurally equal arguments |
| `TypeRegistry.EqualKeys` | runtime/src/TypeInfoManager.cpp:104-145 | numbered keys agree on their UUIDs exactly when they denote the same structural type |
| `TypeRegistry.EqualTemplates` | runtime/src/TypeInfoManager.cpp:494-516 | numbered templates have equal UUIDs exactly when their names are equal |
| `TypeRegistry.NewGeneric` | runtime/src/TypeInfoManager.cpp:265-306 | the first type info of an instantiated type may take the next UUID: no type already has it and the type has no other |
| `TypeRegistryProtocol.StepInv` | runtime/src/TypeInfoManager.cpp:236-323 | every step of every thread - test, template numbering, argument, lookup, insertion, locked section, and the test and the store of a creation - keeps what every call under way relies on: registered types and their arguments have UUIDs, calls wait for their arguments, descriptors are in their chains |
| `TypeRegistryProtocol.RunInv` | runtime/src/TypeInfoManager.cpp:236-323 | that holds in every state of every interleaving, whatever a store overwrites |
| `TypeUniqueness.OneUUIDIff` | runtime/src/TypeInfoManager.cpp:819-918 | for every run: what the UUIDs of registered types say about structural equality stays right, however the run goes on without further clobbering, if and only if no step of the run stores a created type info over one that has a UUID |
| `TypeUniqueness.TwoUUIDs` | runtime/src/TypeInfoManager.cpp:841-870 | a run from the empty registry in which a registration overtakes a creation between its test and its store: two registered copies of one type end with different UUIDs |
| `TypeUniqueness.ClobberMixes` | runtime/src/TypeInfoManager.cpp:870-918 | after such a store the creator's own registration, with no other thread moving, leads to two UUIDs for one type, whatever the type and the rest of the registry |
| `TypeUniqueness.StepUnique` | runtime/src/TypeInfoManager.cpp:236-323 | every step that does not clobber keeps the registry sound and every descriptor in hand that of its key's type |
| `TypeUniqueness.SameUUID` | runtime/src/TypeInfoManager.cpp:236-323 | in every run without clobbering, registered type infos have equal UUIDs exactly when they are the same type, read off their fields |
| `TypeRegistryProtocol.UUIDsStay` | runtime/src/TypeInfoManager.cpp:269-322 | over any run, clobbering or not, a UUID once given never changes and no descriptor or registration goes away; unloading is no step of the runs |
| `TypeUniqueness.OneDescriptor` | runtime/src/TypeInfoManager.cpp:809-817 | in runs without clobbering, two calls on the same structural type, by any threads at any times, work on the same descriptor |
| `TypeUniqueness.FindsType` | runtime/src/TypeInfoManager.cpp:526-572 | in a sound registry a search of the chain of a numbered key returns the descriptor of its type, and nothing only if no descriptor of the type exists |
| `TypeRegistryProtocol.CallRegisters` | runtime/src/TypeInfoManager.cpp:236-323 | a call that returns leaves its type info registered and with a UUID |
| `TypeRegistryProtocol.ArgumentIsNumbered` | runtime/src/TypeInfoManager.cpp:93-100 | after an argument was registered for the hash it has a UUID: the check cannot fire |
| `TypeRegistryProtocol.ArgumentsRegistered` | runtime/src/TypeInfoManager.cpp:93-100 | the arguments of every registered instantiated type are registered |
| `TypeRegistryProtocol.CallsNest` | runtime/src/TypeInfoManager.cpp:93-100 | an inner call is on a structurally smaller type than every call around it, so no call waits for itself |
| `Unload.Closure` | runtime/src/TypeInfoManager.cpp:387-408 | sweeping the registered types in any order ends, and yields the least set closed under: in the image, template in it, or argument in it or removed |
| `Unload.Sweep` | runtime/src/TypeInfoManager.cpp:390-407 | one sweep removes only what every closed set contains, and a sweep that removes nothing has reached a closed set |
| `Unload.Touches` | runtime/src/TypeInfoManager.cpp:393-405 | the test of one type info looks at its address, template and every argument, as its kind prescribes |
| `Unload.RemovedIff` | runtime/src/TypeInfoManager.cpp:387-408 | a registered type is removed exactly when templates and arguments lead from it into the image |
| `Unload.RemovedByFields` | runtime/src/TypeInfoManager.cpp:391-407 | what the sweep leaves are exactly the registered types outside the image that, if generic and no value array, have template outside it and component or arguments outside it and not removed |
| `Unload.SurvivorsIff` | runtime/src/TypeInfoManager.cpp:387-408 | no survivor depends on the image exactly when no registered value array outside the image has a component, registered or not, that leads into it |
| `Unload.VArraysClearIff` | runtime/src/TypeInfoManager.cpp:387-408 | where the components of value arrays are registered too, that condition needs only templates and arguments to be followed from them |
| `Unload.SurvivorsLinked` | runtime/src/TypeInfoManager.cpp:387-418 | what an unload leaves is linked as before, so that the same conditions decide the next one |
| `Unload.VArrayKeepsDependency` | runtime/src/TypeInfoManager.cpp:394 | a value array whose component lies in the image survives the unload of that image, whether or not the component is registered |
| `Unload.VArrayStays` | runtime/src/TypeInfoManager.cpp:394 | a value array is removed only for lying in the image itself |
| `Unload.Catalog.RemoveForImage` | runtime/src/TypeInfoManager.cpp:373-486 | every catalogue, the list of images included, drops exactly what belongs to the image or to a removed type, and the fast map is invalidated; a void request changes nothing |
| `Unload.VoidIff` | runtime/src/TypeInfoManager.cpp:375-383 | a request is void exactly when its range has no address |
| `Unload.EraseTables` | runtime/src/TypeInfoManager.cpp:454-483 | a method table goes exactly when a removed type has its UUID and no survivor shares it; when a whole image goes, the remaining tables lose exactly the rows that point into it, their stable copy and what their rows cached |
| `Unload.RowStaysIff` | runtime/src/TypeInfoManager.cpp:473-480 | a row whose super type is registered stays exactly when its extension lies outside the image and its super type does not lead into it |
| `Unload.NameStaysIff` | runtime/src/TypeInfoManager.cpp:427-440 | a name whose type is registered stays listed exactly when its text lies outside the image and its type does not lead into it |
| `Unload.FilterDescs` | runtime/src/TypeInfoManager.cpp:579-612 | every chain keeps, in order, exactly the descriptors that mention nothing in the image and no removed type, and empty chains go |
| `Unload.UntouchedIff` | runtime/src/TypeInfoManager.cpp:593-596 | a descriptor whose types are registered stays exactly when neither its template, nor its type info, nor any argument leads into the image |
| `LayoutCode.FillOffsets` | runtime/src/TypeInfoManager.cpp:1231-1288 | the offsets place the fields suitably aligned, in order and apart, and no such placement has a field earlier or a smaller instance; the alignment is exactly what the scalars need; reference flag, and the exceptions for reference types and synchronization classes |
| `Layout.LayoutIsLeast` | runtime/src/TypeInfoManager.cpp:1239-1272 | no placement of the fields by their stored sizes puts any field earlier |
| `Layout.InstanceIsLeast` | runtime/src/TypeInfoManager.cpp:1282 | no instance that holds a placement, and can lie side by side with others, is smaller |
| `Layout.AlignIsExact` | runtime/src/TypeInfoManager.cpp:1249-1252 | an address suits every scalar of a type exactly when it is a multiple of the alignment |
| `Layout.SizeIsStored` | runtime/src/TypeInfoManager.cpp:1290-1378 | the size computed from fields or elements is the stored one, of a primitive type the size it carries |
| `LayoutCode.GetTypeSize` | runtime/src/TypeInfoManager.cpp:1290-1378 | the recursive size of any type tree, by fields or elements; for well-formed types the stored size |
| `LayoutCode.Complete` | runtime/src/TypeInfoManager.cpp:1231-1378 | laying out a value type and then measuring it agree on its size, the layout is the least one, and the bitmap tells for every word whether a field has a reference there if and only if the layout is tight |
| `Layout.FieldsApart` | runtime/src/TypeInfoManager.cpp:1239-1272 | each field starts aligned and ends before the next one and before the end of the instance |
| `Layout.ArraySize` | runtime/src/TypeInfoManager.cpp:1363-1373 | the elements of a value array lie exactly one element size apart |
| `Layout.RefWithin` | runtime/src/TypeInfoManager.cpp:23-78 | every reference found by flattening lies on a pointer boundary inside its type |
| `LayoutCode.GetGCTib` | runtime/src/TypeInfoManager.cpp:54-78 | the bit string has one bit per pointer-sized word, set exactly where walking the fields marks a reference |
| `LayoutCode.FillType` | runtime/src/TypeInfoManager.cpp:23-37 | walking one field marks exactly its references and moves the cursor past it, without disturbing earlier marks |
| `LayoutCode.FillArray` | runtime/src/TypeInfoManager.cpp:39-52 | walking an array, nested arrays included, marks the references of every element |
| `Layout.BitmapIff` | runtime/src/TypeInfoManager.cpp:23-78 | the bitmap marks exactly the references of the laid-out value if and only if the layout is tight: dropping arrays of no elements moves no field that holds references, at any depth |
| `Layout.WordsIff` | runtime/src/TypeInfoManager.cpp:54-78 | the same for the words alone: if the layout is not tight, some word of the value is marked without a reference or the other way round |
| `Layout.TightIsInStep` | runtime/src/TypeInfoManager.cpp:23-78 | the layout is tight exactly when the walk meets every field that holds references where the layout put it |
| `Layout.CursorIsEnd` | runtime/src/TypeInfoManager.cpp:23-52 | the cursor of the walk is where the layout would end without the arrays of no elements |
| `Layout.SolidIsTight` | runtime/src/TypeInfoManager.cpp:39-52 | without arrays of no elements every layout is tight |
| `Layout.EmptyArrayMisplacesMark` | runtime/src/TypeInfoManager.cpp:39-52 | a byte, an empty array of longs, a byte and a reference: the reference lies at byte 16, the bitmap marks byte 8 |
| `Layout.CursorBehind` | runtime/src/TypeInfoManager.cpp:23-52 | the walk never gets ahead of the layout |
| `LayoutCode.CalculateGCTib` | runtime/src/TypeInfoManager.cpp:1156-1229 | fewer than 64 bits go into a tagged integer with the top bit set, except on 32-bit platforms, more into bytes; either encoding gives back exactly the bits |
| `LayoutCode.Describe` | runtime/src/TypeInfoManager.cpp:1186-1228 | from type to encoded bitmap: every bit b says whether a reference lies at byte 8b, if and only if the layout is tight |
| `CentralCache.Cache.GetOneSpan` | runtime/src/Common/CentralCache.cpp:16-53 | the first span of the bucket with a free block is found, or if there is none a new one is put in front: it starts at its page, has the fewest pages that hold the largest batch, and is carved into as many blocks as fit; spans in use keep their blocks |
| `CentralCache.Carve` | runtime/src/Common/CentralCache.cpp:37-49 | a page run becomes a null-terminated chain of blocks side by side, as many as fit |
| `CentralCache.Cache.FetchRangeObj` | runtime/src/Common/CentralCache.cpp:55-83 | the blocks handed out form a null-terminated chain, were in nobody's use and are now; as many as asked for unless the span found has fewer, and always as many when a new span is made for an admissible batch; large enough if and only if the blocks of the first free span of the bucket are or none is free |
| `CentralCache.JustMadeSuffices` | runtime/src/Common/CentralCache.cpp:28-49 | a new span holds every batch a caller may ask for: two blocks always, up to 512 while they fit the largest block size |
| `CentralCache.UndersizedBlocks` | runtime/src/Common/CentralCache.cpp:60-65 | where blocks of 9 bytes are free, a request of 16 bytes meets them first, since the code looks only at the bucket; the one caller rounds its requests and never asks for either mix |
| `CentralCache.Cache.ReleaseListToSpans` | runtime/src/Common/CentralCache.cpp:86-118 | releasing a chain takes exactly its blocks out of use; a span goes back to the page cache exactly when its last used block was among them |
| `CentralCache.Take` | runtime/src/Common/CentralCache.cpp:69-79 | taking blocks keeps, for every span, free blocks plus used blocks equal to the blocks carved, disjoint and inside the span |
| `CentralCache.Put` | runtime/src/Common/CentralCache.cpp:101-103 | putting a block back keeps that balance, and just this block is no longer in use |
| `CentralCache.ReturnReleased` | runtime/src/Common/CentralCache.cpp:106-113 | when a span is given back, no later block of the chain being released lies in it |
| `CentralCache.UseCount` | runtime/src/Common/CentralCache.cpp:78-103 | the use count of a span is the number of its blocks in use |
| `CentralCache.OwnerIs` | runtime/src/Common/CentralCache.cpp:96-103 | the span an in-use block lies in is the one it was carved from |
| `SizeClasses.BucketOfRequest` | runtime/src/Common/MemCommon.h:125-163 | rounding a request and finding its bucket agree: the bucket's block size is the rounded request, so a block returns to the bucket it came from |
| `SpanList.List.Insert` | runtime/src/Common/MemCommon.h:240-249 | four pointer writes insert a span before any place of the circular list, the header included; the links stay those of the sequence |
| `SpanList.List.PushFront` | runtime/src/Common/MemCommon.h:276-281 | the ids of the list gain the new one at the front, as in the sequence the central cache uses |
| `SpanList.List.Erase` | runtime/src/Common/MemCommon.h:251-259 | two pointer writes take a span out; with distinct ids the list loses exactly its id, as in the sequence the central cache uses |
| `SpanList.List.PopFront` | runtime/src/Common/MemCommon.h:267-274 | the first span is taken off and the rest stays in order |
| `SpanList.List.Empty` | runtime/src/Common/MemCommon.h:265 | the header follows itself exactly when the list is empty |
| `SpanList.List.FirstFree` | runtime/src/Common/CentralCache.cpp:20-27 | the walk along the links ends and finds the first span with a free block, or that there is none |
| `SpanList.Inserted` | runtime/src/Common/MemCommon.h:240-249 | putting a node between two neighbours of a circular list gives the circular list with it in that place |
| `SpanList.Erased` | runtime/src/Common/MemCommon.h:251-259 | joining the neighbours of a node gives the circular list without it |
| `SizeClasses.BucketOfClass` | runtime/src/Common/MemCommon.h:125-163 | each of the 208 buckets is the bucket of its own block size |
| `SizeClasses.SameBucket` | runtime/src/Common/MemCommon.h:125-163 | two requests share a bucket exactly when they round to the same size |
| `SizeClasses.SpanSize` | runtime/src/Common/MemCommon.h:165-196 | a new span holds at least two blocks and never asks for more pages than the page cache provides |
| `SizeClasses.RoundUpIsLeast` | runtime/src/Common/MemCommon.h:125-161 | rounding gives the least block size of any bucket that is large enough, and wastes less than 8 bytes or an eighth |
| `SizeClasses.AffordableIff` | runtime/src/Common/MemCommon.h:165-183 | the batch limit admits exactly two blocks, or up to 512 that take no more than the largest block size |
| `SizeClasses.PagesAreLeast` | runtime/src/Common/MemCommon.h:185-196 | the pages of a span are the fewest that hold the largest batch |
| `BitMap.Map.SetRange` | runtime/src/Base/BitMap.h:220-236 | exactly the bits of [beg, end) become set |
| `BitMap.Map.ClearRange` | runtime/src/Base/BitMap.h:238-252 | exactly the bits of [beg, end) become clear |
| `BitMap.Map.ClearLargeRange` | runtime/src/Base/BitMap.h:254-267 | completes, and then clears exactly [beg, end), if and only if beg is the first bit of a word or end lies in a later word; otherwise it has cleared up to the end of the word when the range check stops it |
| `BitMap.LargeRangeSpills` | runtime/src/Base/BitMap.h:254-267 | at [1, 2), and at the empty range [3, 3), the condition fails and a set bit 5 is cleared |
| `BitMap.Map.SetRangeWithinWord` | runtime/src/Base/BitMap.h:95-101 | through the mask exactly the bits of a range within one word become set |
| `BitMap.Map.ClearRangeWithinWord` | runtime/src/Base/BitMap.h:102-108 | through the mask exactly the bits of a range within one word become clear |
| `BitMap.InvertedMaskBit` | runtime/src/Base/BitMap.h:83-94 | the mask selects exactly the bits of the word outside the range, also for a whole word |
| `BitMap.Map.FindFirst` | runtime/src/Base/BitMap.h:274-302 | the least set bit of the range, or end if there is none |
| `BitMap.Map.FindLast` | runtime/src/Base/BitMap.h:306-335 | the greatest set bit of the range, or end if there is none |
| `BitMap.Iterate` | runtime/src/Base/BitMap.h:342-353 | the function is called on the set bits of the range in increasing order, on all of them unless it says stop |
| `BitMap.MembersAre` | runtime/src/Base/BitMap.h:342-353 | that order lists every set bit of the range once, strictly increasing |
| `BitMap.ReverseIterator.constructor` | runtime/src/Base/BitMap.h:400-411 | the iterator starts at the greatest set bit of the range, or empty |
| `BitMap.ReverseIterator.Index` | runtime/src/Base/BitMap.h:415-419 | the index is the greatest remaining set bit |
| `BitMap.ReverseIterator.IsEmpty` | runtime/src/Base/BitMap.h:413 | the iterator is empty exactly when no set bit remains |
| `BitMap.ReverseIterator.Step` | runtime/src/Base/BitMap.h:421-428 | each step drops exactly the greatest remaining set bit |
| `BitMap.DownwardsAre` | runtime/src/Base/BitMap.h:395-428 | the reverse order lists every set bit of the range once, strictly decreasing |
| `Future.StepInv` | runtime/src/CangjieRuntimeApi.cpp:459-497 | every step of executor, waits and release keeps the ownership invariant |
| `Future.RunInv` | runtime/src/CangjieRuntimeApi.cpp:688-761 | the ownership invariant holds in every state of every interleaving |
| `Future.DeletedOnce` | runtime/src/CangjieRuntimeApi.cpp:478-495 | the future is deleted at most once, only after the executor has completed and the handle was released, and exactly once when both sides are through |
| `Future.NeverTouchedAfterwards` | runtime/src/CangjieRuntimeApi.cpp:728-761 | no step of either side or of a wait touches the future after its deletion |
| `Future.WaitsAreHonest` | runtime/src/CangjieRuntimeApi.cpp:688-726 | a wait that succeeds returns the executor's value, and a wait before the release is never refused |
| `Future.SleepersCanReturn` | runtime/src/CangjieRuntimeApi.cpp:714-725 | once the result is stored every sleeping wait can return it |
| `Future.StoredResultIsReturned` | runtime/src/CangjieRuntimeApi.cpp:700-725 | a wait that tests, wakes or expires once the result is stored leaves with that value |
| `Future.TimeoutIsHonest` | runtime/src/CangjieRuntimeApi.cpp:714-725 | a wait reports a timeout only if it expired before the result was stored |
| `Future.UntimedNeverTimesOut` | runtime/src/CangjieRuntimeApi.cpp:715-719 | a wait without a timeout never reports one, but the executor's value |
| `Future.UndecidedWaitsSucceed` | runtime/src/CangjieRuntimeApi.cpp:688-726 | a wait still undecided when the result is stored returns that result |
| `RuntimeMutex.StepInv` | runtime/src/Common/Mutex.cpp:29-92 | every step of every thread, the pause hook included, keeps owner and platform lock in agreement |
| `RuntimeMutex.ChecksIff` | runtime/src/Common/Mutex.cpp:47-92 | in every interleaving a check fires exactly on a call against the rules, that is locking twice, or unlocking, waiting or notifying without having locked; the checks after an acquisition never fire |
| `RuntimeMutex.Exclusive` | runtime/src/Common/Mutex.cpp:47-86 | a thread to which lock or wait has returned holds both the platform lock and the ownership, and is the only one |
| `RuntimeMutex.HookReleasesUnowned` | runtime/src/Common/Mutex.cpp:9-22 | the pause hook releases a lock only while its caller holds it and no owner is set |
| `RuntimeMutex.FreeLockCanBeTaken` | runtime/src/Common/Mutex.cpp:29-45 | a free lock can be taken by any thread on its way to it: a release by the hook loses nobody |
| `RuntimeMutex.ReturnsAsOwner` | runtime/src/Common/Mutex.cpp:47-86 | lock and wait return only with ownership and the platform lock |
| `RuntimeMutex.CanOwn` | runtime/src/Common/Mutex.cpp:29-86 | from every reachable state, some finite schedule makes a thread inside lock or wait the owner |
| `MarkStack.Stack.PushBack` | runtime/src/Common/MarkWorkStack.h:103-109 | an entry goes to the end of the sequence, across chunk boundaries; a chunk is added only when the last is full; links, chunk count and the absence of empty chunks are kept |
| `MarkStack.Stack.PopBack` | runtime/src/Common/MarkWorkStack.h:119-128 | the last entry goes, and its chunk with it when that was the only one |
| `MarkStack.Stack.Back` | runtime/src/Common/MarkWorkStack.h:111-117 | the last entry, or the default value of an empty stack |
| `MarkStack.Stack.Insert` | runtime/src/Common/MarkWorkStack.h:130-147 | the sequences are concatenated and the argument is left empty |
| `MarkStack.Stack.Split` | runtime/src/Common/MarkWorkStack.h:149-175 | the chunks are divided in order: the chain returned and what stays make up the old sequence |
| `MarkStack.Stack.FromChain` | runtime/src/Common/MarkWorkStack.h:63-73 | a stack built from a chain holds exactly its chunks, with tail and count found by walking |
| `MarkStack.Stack.Pop` | runtime/src/Common/MarkWorkStack.h:191-206 | the last chunk is unlinked and the rest is a chain again; an empty stack gives null and stays |
| `PackageSnapshots.Registry.Build` | runtime/src/CompilerCalls.cpp:1077-1094 | after every publication each ancestor package lists a published handle with the name of each of its descendants; what was listed stays, and only published descendants were added |
| `PackageSnapshots.Builder.BuildOne` | runtime/src/CompilerCalls.cpp:1097-1136 | building ends on any graph, cyclic or not, and gives every package one snapshot whose name, related package and sub-packages are the copies of its own |
| `PackageSnapshots.Reconcile` | runtime/src/CompilerCalls.cpp:1046-1073 | whatever the iteration order, all pairs of snapshots are reconciled if those published before were |
| `PackageSnapshots.ReconcileOne` | runtime/src/CompilerCalls.cpp:1056-1071 | one published snapshot is reconciled with every other in both directions |
| `PackageSnapshots.AppendDescendant` | runtime/src/CompilerCalls.cpp:1029-1044 | the descendant is appended exactly when it is published and the list has no handle of its name; nothing else changes |
| `PackageSnapshots.AncestorsAreOrdered` | runtime/src/CompilerCalls.cpp:1023-1027 | being a dotted ancestor is irreflexive and transitive |
| `PackageSnapshots.AncestorIff` | runtime/src/CompilerCalls.cpp:1023-1027 | a strict ancestor is exactly a name that a dot and more make into the descendant |
| `TruncatedSeq.TruncatedSeq.Add` | runtime/src/Base/TruncatedSeq.h:28-43 | after any run of additions the ring holds the last values in order, the running sum and sum of squares are theirs, and the average has decayed over the whole history |
| `TruncatedSeq.Moved` | runtime/src/Base/TruncatedSeq.h:33-42 | one addition on the fields keeps ring and sums those of the last values: what is overwritten is the oldest value, or the zero of an unused slot |
| `TruncatedSeq.DecayedWithin` | runtime/src/Base/TruncatedSeq.h:30-31 | the decaying average never leaves the range of the values added |
| `TruncatedSeq.DecayedIsWeighted` | runtime/src/Base/TruncatedSeq.h:30-31 | the decaying average is the values with weights 0.3 times powers of 0.7, the first value taking what is left, and the weights make up 1 |
| `TruncatedSeq.TruncatedSeq.Last` | runtime/src/Base/TruncatedSeq.h:46 | the slot before the next one to write holds the value added last |
| `TruncatedSeq.TruncatedSeq.Avg` | runtime/src/Base/TruncatedSeq.h:51-58 | the running sum over the count is the mean of the window |
| `TruncatedSeq.TruncatedSeq.Variance` | runtime/src/Base/TruncatedSeq.h:60-72 | the variance is the mean squared distance from the mean; the clamp at zero never acts |
| `TruncatedSeq.VarianceIs` | runtime/src/Base/TruncatedSeq.h:60-72 | mean of squares less square of the mean is the mean squared distance from the mean, hence never negative |
| `TruncatedSeq.TruncatedSeq.PredictNext` | runtime/src/Base/TruncatedSeq.h:76-106 | the prediction is the ordinate at x = n of the one line of least squared error over the window |
| `TruncatedSeq.LeastSquares` | runtime/src/Base/TruncatedSeq.h:97-105 | a solution of the normal equations has a smaller squared error than every other line |
| `TruncatedSeq.NormalEquations` | runtime/src/Base/TruncatedSeq.h:99-104 | the computed slope and intercept solve the normal equations |
| `TruncatedSeq.SxxPositive` | runtime/src/Base/TruncatedSeq.h:101-103 | for two or more points the divisor of the slope is positive, so the guard against zero never acts |
| `TruncatedSeq.TruncatedSeq.At` | runtime/src/Base/TruncatedSeq.h:90-93 | the slot read for abscissa i holds entry i of the window, counted from the oldest, whether the ring is growing or full |
| `TruncatedSeq.TruncatedSeq.Accumulate` | runtime/src/Base/TruncatedSeq.h:90-98 | the loop reads the window from its oldest value on and returns its four sums |

## Left out

- Weak memory ordering, floating-point rounding, and overflow of sizes, addresses and UUID counters: steps are sequentially consistent, doubles are reals, numbers are unbounded except where 32- or 64-bit wrap-around is named.
- Red-black tree: keys are integers under their own order, the colour is a field of its own instead of the low bit of the parent pointer; leftmost, rightmost and stepping of cursors would only add easy members.
- FastMap: the hash is any function of the key, so the concrete mixing function is not modelled; the power-of-two slot mask is a remainder; allocation failure is not modelled.
- TypeRegistry.Manager.AddTypeInfo: method tables, reflection data and the refresh of fields are not modelled; the method is the code of one thread, `TypeRegistryProtocol` has the interleavings.
- TypeRegistry.Manager.AddGeneric: method tables, reflection data and the refresh of fields are not modelled.
- TypeRegistry.Manager.Instantiate: only the new type info and its place in the descriptor are modelled, not its fields, sizes and the status of the descriptor; test and store are one step here and two in `TypeRegistryProtocol`.
- TypeRegistryProtocol.UUIDsStay: unloading is no step, so nothing is said about runs that remove descriptors and registrations.
- TypeRegistryProtocol: a thread wants or registers a type only between calls, so the calls that building method tables makes under the type lock are not modelled; waiting for another thread's creation is not modelled.
- TypeRegistry: types are finite trees, so a type info that contains itself among its arguments is excluded.
- Unload.Linked: that arguments of registered generic types are registered is a condition here; `TypeRegistryProtocol.ArgumentsRegistered` is where it comes from.
- LayoutCode.Describe: words are pointers of 8 bytes; of the 32-bit platforms only the encoding is modelled.
- CentralCache.Cache.GetOneSpan: the buckets are sequences of ids and span records values in a map; `SpanList` proves the linked list to be such a sequence, but one heap with both is not built.
- CentralCache: the thread-local free lists and the page cache are not modelled.
- BitMap: the atomic single-bit operations, and storage management, are not modelled.
- Future: the completion scope of pending tasks and the validity checks before a task starts are not modelled.
- RuntimeMutex: a notification changes nothing, because a sleeping thread may wake at any time; fairness of the retry loop is not claimed.
- MarkStack: moving and clearing a whole stack are not modelled; entries are numbers.
- PackageSnapshots.Builder.BuildOne: versions, type infos, methods and fields of a package are copied without logic and are not modelled here.
- The arena that holds type metadata, logging, signal handling, environment parsing and the collector itself are not modelled.

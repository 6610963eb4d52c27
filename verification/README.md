# cyng, modelled in Dafny

cyng is a C++ library of dynamically typed objects, with an in-memory store, a small stack
machine, an active-object runtime and a set of text and byte codecs. This project models
those parts and proves what they promise.

Where the source changes things in place there are two layers: a model on values, in which the
properties over whole runs are proved, and a class or a loop that changes step by step as the
source does and is proved equal to that model, operation by operation. The files called `Laws`
say of each operation what it does without the functions that model it.

| files | subject |
|---|---|
| `Dom.dfy`, `Schema.dfy`, `Text.dfy` | objects, containers, pairs and keys; table schemas; letter case |
| `StoreModel.dfy`, `StoreReplicas.dfy`, `StoreRows.dfy`, `StoreGens.dfy`, `StoreLaws.dfy`, `Table.dfy` | table, publisher, subscribers |
| `VmModel.dfy`, `VmPrograms.dfy`, `VmSerial.dfy`, `VmCalls.dfy`, `VmFrames.dfy`, `VmLaws.dfy`, `Vm.dfy` | stack machine, its programs, its proxy |
| `ChannelModel.dfy`, `ChannelLaws.dfy`, `Channel.dfy`, `RegistryModel.dfy`, `RegistryLaws.dfy`, `Registry.dfy` | channels on a strand, the registry of channels |
| `Transform.dfy`, `TransformLaws.dfy`, `ParamTree.dfy`, `WalkerModel.dfy`, `Walker.dfy` | algorithms on object trees |
| `ClientModel.dfy`, `ClientLaws.dfy` | the write queue of the TCP client |
| `SqlSchema.dfy`, `Codec.dfy`, `Hex.dfy`, `Mac.dfy` | schema mapping, big-endian numbers, hex and MAC text |

## How to read it

Object and key equality is equality of hashes in the source, so the hash functions are
parameters and are never taken to be injective. The order in which a container hands out its
entries is a parameter too, restricted only to visit each entry once. What a slot answers, what
an external function returns, the clock and the process ids are parameters. A posted handler's
"is it open, then call" is one step; everything else interleaves freely. In
the machine a failed assertion is `None`, and `false` as a method's result, and ends the run.
Elsewhere the code goes on after an assertion in a build without them; there a method's
`asserts` result says exactly when one fails, and the rest of its contract is what the code then
does. The assertions not modelled in this way are listed under "Left out".

Main results, each for every input, run or interleaving:

* A subscriber that attaches at any moment of any run and stays listed, keeping its own map from
  the events alone, holds exactly the table's data after every later operation
  (`ListedAgrees`, `ReplicaAgrees`). Attaching again after having been away is right exactly when
  the old map holds no key that has left the table (`ConnectMirrors`). The generation it records
  of a row is right if and only if no modify or compute has changed the row since it was last
  inserted, updated or sent, and else exactly one behind (`GenerationsExactly`). What each operation
  removes, adds, changes and publishes is stated row by row and event by event (`EraseTaken`,
  `MergeTaken`, `ModifyAllTaken` and their neighbours).
* The machine builds every value from the program that describes it (`Builds`). A serialized
  value executed by the machine comes back with every list reversed, so it comes back unchanged
  exactly when it reads the same from both ends (`SerializerRoundTrip`).
* Generated calls, handed to the proxy in any portions of which the last one runs, are issued
  exactly and in order; otherwise exactly what was given up to the last portion that runs is executed
  (`CallsExecuted`, `ProxyRuns`). An external function called by slot or by name gets its arguments
  in push order (`FunctionCalled`, `FunctionCalledByName`). Frames nest and are given back exactly
  (`RunInFrames`, `MatchingFrame`).
* A channel accepts exactly the messages for slots it has (`AcceptedExactly`), and while it is open
  every one of them, and every timer that expires, runs in the order in which it came due
  (`EverythingRuns`); after stop only the stop handler runs, once (`StoppedRuns`).
* The drained registry lists exactly the living channels, each under its own id, except those that
  were stopped before their own insert had run (`DrainedLaw`, `DrainedExactly`). After a shutdown and
  a reset new channels are entered again (`EnteredAfterReset`).
* The in-place tree walks ask every node with its own depth or path, and replace or remove exactly
  the nodes the callback says (`ReplacedLaw`, `PathReplacedLaw`, `ThinnedLaw`), each like the other
  (`WalksAgree`);
  rename and merge move and set exactly what they say, with the exact condition under which they
  do (`RenameExactly`, `RenameMoves`, `MergeExactly`).
* An event stream is accepted by a reader that checks every type, depth, size, parent and mark,
  and gives the tree back, if and only if the walk meets no property map and no deque
  (`StreamRebuilds`). A reader that lets the type pass with which property maps are closed gets every
  tree back that holds no deque (`StreamOtherwiseRight`).
* Two writes are in flight at some time if and only if something was sent on the open channel
  after a failed read had reset a non-empty queue and before any write completed
  (`NeverTwoExactly`); a write loses its buffer if and only if the connection is reset while one
  is out (`BufferLostExactly`).
* Schema mapping, numbers, hex and MAC text are given back under exactly stated conditions.

## Where code and documentation differ

The model follows the code in each case.

* `merge` is documented to return true for an insertion or a modification; it returns false when
  it updates a row (src/store/src/table.cpp:88-96).
* `modify` publishes the old data and generation, `update` the new ones
  (src/store/src/table.cpp:174, src/store/src/table.cpp:127). A replica of
  the data does not depend on either; one of the generations does (`GenerationsExactly`).
* Modify, remove and clear events go to the slots connected for insert events, and only that
  list is tidied (src/store/src/pub.cpp:87, :107, :125). Tidying removes a
  slot's first place, not the one that answered false, so the order of the list is kept for all
  answers exactly when the places of each slot are adjacent (`OrderKeptExactly`, `OrderLost`).
* The assertion at src/vm/src/stack.cpp:56 demands that the restored base lies above the frame.
  It never does (`ChainFalls`), so it is not part of the model. `HALT` does not stop the loop.
* `make_attr_map` demands one slot more than the other map constructors
  (src/vm/src/stack.cpp:111), so a stream that begins with an empty attribute map asserts on an
  empty stack (`Receives`).
* The binary serializer writes list elements first to last, while the machine takes the topmost
  value first.
* The walk over a property map closes a parameter map (src/obj/src/dom_walker.cpp:92), and a
  deque is read as a vector, which yields an empty one (src/obj/src/dom_walker.cpp:134).
* A channel stopped before its insert runs is entered under id 0; a channel whose insert is
  still pending at shutdown is entered afterwards and stays open (`ShutdownEscapes`).
* rename takes the node out first and loses it when it cannot be put back (`RenameExactly`).
* A reset clears the write queue while a write may be out; the next message then starts a second
  one (`TwoInFlight`), and the cut-off write, if it still completes, finds a queue it did not
  expect: the assertion at include/cyng/net/client.hpp:164 fails when that queue is empty
  (`BreaksExactly`). The cleared buffers are those the write was started with
  (include/cyng/net/client.hpp:152-155, :188), so what it writes is unknown (`BufferLostExactly`).
* The open check of a channel dereferences the task inside an assertion
  (src/task/src/channel.cpp:135), so in a build with assertions every handler still queued after
  stop reads through a null pointer. The model follows the build without them.
* The index of an unknown name is the largest index, and so is that of the last key column, which
  wraps around (`BodyIndexNpos`).
* Two overloads of `next` capture their own parameters by reference in a handler that runs after
  the call (src/task/src/channel.cpp:85-89, src/task/src/channel.cpp:97-101); the model follows
  the overload by name, which copies them.
* `to_mem` drops every column called "gen", while reading a row skips only those that also have
  the generation's type (src/store/src/meta.cpp:64, src/db/src/storage.cpp:81).

## Model

| member | source | states |
|---|---|---|
| Schema.Meta.IndexByName | include/cyng/store/meta.h:123-132 | the first column with the name, and the largest index exactly when there is none |
| Schema.BodyIndexInRange | include/cyng/store/meta.h:134-139 | a name reaches a body column exactly when its first occurrence is one; key columns wrap around out of range; and the index counts body columns |
| Schema.BodyIndexNpos | include/cyng/store/meta.h:134-139 | the largest index stands for unknown names and for the last key column, and for nothing else |
| StoreReplicas.ReplicaAgrees | src/store/src/pub.cpp:13-133 | in every run, a slot that connects, answers every published event with true and is not disconnected holds exactly the table's data after every operation, from its events alone |
| StoreReplicas.ListedAgrees | src/store/src/pub.cpp:13-133 | the same for a slot that is listed without a break, whatever it answers |
| StoreReplicas.StepMirrors | src/store/src/table.cpp:25-314 | each operation of any kind keeps every listed replica in agreement |
| StoreReplicas.ConnectMirrors | src/store/src/table.cpp:132-157 | charging makes a replica right exactly when it held no key that the table has not, whatever order the rows come in |
| StoreReplicas.StepKeepsAlive | src/store/src/pub.cpp:135-149 | tidying and disconnecting others never drop a slot that answers published events with true; answers given while charging do not count |
| StoreReplicas.NotifyReplays | src/store/src/pub.cpp:57-75 | however often a slot is listed, one event changes its replica once |
| StoreReplicas.TidyKeeps | src/store/src/pub.cpp:144-149 | tidying removes each expired entry once and nothing else |
| StoreReplicas.StepFiled | src/store/src/table.cpp:36-69 | every row stays filed under its own key and as wide as the schema's body |
| StoreRows.UpdateLaw | src/store/src/table.cpp:99-130 | update overwrites exactly the differing columns of one row and raises its generation once per event |
| StoreRows.UpdateReports | src/store/src/table.cpp:109-128 | one event per differing column, in rising order, with the new value and the generation it made |
| StoreRows.MergeLaw | src/store/src/table.cpp:71-97 | after merge of well-sized data the row equals it column by column, other rows are untouched, and the events are one insert or the modify events of the differing columns |
| StoreRows.ModifyLaw | src/store/src/table.cpp:192-227 | modify sets each named column unless equal already, ignores indices outside the body, and counts one generation per event |
| StoreRows.EraseIfLaw | src/store/src/table.cpp:289-314 | exactly the rows that fail the predicate stay, one remove is published per erased row, and the count is their number |
| StoreRows.GenerationLaw | src/store/src/table.cpp:121-184 | a row's generation is that of its insert plus the modify events published for it since |
| StoreRows.RunLaw | src/store/src/table.cpp:25-314 | in every run the rows are what the published events say, and every generation is explained by them |
| StoreGens.GenerationsExactly | src/store/src/table.cpp:159-190 | in every run, the generation a listed slot records from the events is right if and only if no modify or compute has changed the row since it was last inserted, updated or sent; otherwise it is exactly one behind |
| StoreGens.StepTracks | src/store/src/table.cpp:25-314 | each operation refreshes the record, leaves it one behind, or leaves it as it is |
| StoreGens.UpdateTracks | src/store/src/table.cpp:109-128 | update publishes the generation it makes |
| StoreGens.ModifyTracks | src/store/src/table.cpp:202-223 | modify publishes the generation before its change |
| StoreRows.ForwardLaw | src/store/src/pub.cpp:57-133 | an event goes to each listed slot once, in order; a slot keeps as many places as it gave true answers |
| StoreRows.OrderKeptExactly | src/store/src/pub.cpp:57-149 | the survivors keep their order for all answers, and after any number of calls, if and only if the places of each slot are adjacent in the list |
| StoreRows.ForwardKeepsOrder | src/store/src/pub.cpp:57-149 | for one event, adjacent places or slots that do not contradict themselves are enough |
| StoreRows.OrderLost | src/store/src/pub.cpp:135-149 | the witness: a slot listed on both sides of another loses its first place |
| StoreRows.AnsweringSnoc | src/store/src/pub.cpp:65-72 | the list of slots with a given answer grows by the slot just asked exactly when it gave that answer |
| StoreLaws.InsertLaw | src/store/src/table.cpp:36-49 | a well-sized row under a new key is added and published once to every listed slot; otherwise nothing changes |
| StoreLaws.MergeTaken | src/store/src/table.cpp:71-130 | a new key is inserted; an existing row takes exactly the differing columns, each published in rising order with the row as it was after that change; wrongly sized data changes nothing |
| StoreLaws.ModifyTaken | src/store/src/table.cpp:159-190 | the column takes the value and the generation goes up by one, published with the row and generation from before; an equal value, an absent row and an index outside it change nothing |
| StoreLaws.ComputeTaken | include/cyng/store/table.h:259-292 | the same with the value computed from the old one |
| StoreLaws.ModifyAllTaken | src/store/src/table.cpp:192-227 | every named column takes its value, and exactly the changes are published, in rising order, each with the row and generation from before it |
| StoreLaws.EraseTaken | src/store/src/table.cpp:266-287 | exactly the row under the key goes and exactly one remove with its last data is published to every listed slot; an absent key changes nothing |
| StoreLaws.EraseIfTaken | src/store/src/table.cpp:289-314 | exactly the rows the predicate holds of go, with one remove each, carrying its own key and last data |
| StoreLaws.ClearTaken | src/store/src/table.cpp:25-34 | every row goes and one clear is published |
| StoreLaws.ConnectTaken | src/store/src/pub.cpp:13-21 | the slot is listed last in all four lists, and it alone is sent each row once, with its data and generation, between the two marks |
| StoreLaws.ConnectOnlyTaken | src/store/src/pub.cpp:23-48 | the slot is listed last in all four lists and nothing is sent |
| StoreLaws.DisconnectTaken | src/store/src/pub.cpp:50-55 | the first place of the slot, and no other, leaves each list |
| StoreLaws.RemoveFirstLaw | src/store/src/pub.cpp:135-142 | the first entry is found and taken out, the others keep their order |
| StoreLaws.PublishSends | src/store/src/pub.cpp:57-133 | every event of a list reaches every listed slot once, in list order, and a slot keeps as many places as it gave true answers |
| Table.Pub.Forward | src/store/src/pub.cpp:57-133 | the loop over the slots and the tidying after it give the modelled list and calls |
| Table.Pub.TidyList | src/store/src/pub.cpp:144-149 | disconnects the expired slots one after the other |
| Table.Pub.DisconnectOne | src/store/src/pub.cpp:135-142 | removes the first entry of a slot, and tells whether there was one |
| Table.Pub.ConnectOnly | src/store/src/pub.cpp:23-48 | appends the slot to all four lists |
| Table.Pub.Disconnect | src/store/src/pub.cpp:50-55 | removes one entry from each list and answers for the insert list |
| Table.Table.Insert | src/store/src/table.cpp:36-49 | a new well-sized row is added and published; anything else changes nothing |
| Table.Table.Merge | src/store/src/table.cpp:71-97 | inserts or updates, and returns true for an insertion only |
| Table.Table.Update | src/store/src/table.cpp:99-130 | the column loop applies and publishes exactly the update events |
| Table.Table.OverwriteColumn | src/store/src/table.cpp:111-128 | applies first, then publishes the new data and generation; the old object is swapped out |
| Table.Table.Modify | src/store/src/table.cpp:159-190 | publishes the old data and generation, then applies; an index outside the row throws |
| Table.Table.ModifyAll | src/store/src/table.cpp:192-227 | applies the attributes in order; true exactly when the row exists; asserts exactly when it does and an attribute has the largest index |
| Table.Table.ModifyParam | src/store/src/table.cpp:229-233 | the name is turned into a body index first; unknown names and key columns throw on an existing row |
| Table.Table.ModifyParams | src/store/src/table.cpp:235-244 | the names become a sorted attribute map in which the first of two equal indices stays; asserts exactly when the row exists and a name is unknown or names the last key column |
| Table.ToAttrsNames | src/store/src/table.cpp:237-241 | the attributes have exactly the indices of the parameters |
| Table.ToAttrsFirst | src/store/src/table.cpp:237-241 | of the parameters with one index the first gives its value |
| Table.AddAttr | src/store/src/table.cpp:237-241 | insertion keeps the attributes strictly rising and adds exactly the ones whose index is new |
| Table.Table.Compute | include/cyng/store/table.h:259-292 | the computed value is published and stored unless it equals the old one |
| Table.Table.Erase | src/store/src/table.cpp:266-287 | publishes and removes an existing row |
| Table.Table.EraseIf | src/store/src/table.cpp:289-314 | the erasing walk, in whatever order, equals the modelled pass, and returns the number of rows erased |
| Table.Table.Charge | src/store/src/table.cpp:132-157 | one slot gets every row as an insert between the two transaction marks |
| Table.Table.Connect | src/store/src/pub.cpp:13-21 | lists the slot everywhere, then charges it |
| Table.Table.Disconnect | src/store/src/pub.cpp:50-55 | the table's rows stay, the slot leaves the lists |
| Table.Table.Clear | src/store/src/table.cpp:25-34 | empties the table and publishes one clear event |
| VmModel.RunAppend | src/vm/src/vm.cpp:33-41 | executing two programs one after the other is executing their concatenation, failures included |
| VmPrograms.Builds | src/vm/src/vm.cpp:33-146 | the program for a value leaves exactly that value on an otherwise unchanged stack, base pointer restored |
| VmPrograms.FramedRun | src/vm/src/stack.cpp:45-77 | ESBA, a body, FRM, a constructor and PULL leave the constructed value alone |
| VmPrograms.GatherSlots | src/vm/src/stack.cpp:109-153 | pairs of one map are gathered into that map cut down to their keys |
| VmPrograms.RunConstants | src/vm/src/vm.cpp:43-53 | objects that are not instructions are pushed in order |
| VmPrograms.SplitThenMake | src/vm/src/stack.cpp:229-251 | SPLIT and then the constructor reverses a list |
| VmSerial.Receives | src/io/src/serializer/binary.cpp:283-440 | executing a serialized value pushes it with every list reversed, and asserts exactly when an empty attribute map comes first on an empty stack |
| VmSerial.SerializerRoundTrip | src/io/src/serializer/binary.cpp:283-440 | the value comes back exactly when it reads the same from both ends; going round twice always gives it back |
| VmSerial.TwinIsMirror | src/vm/src/stack.cpp:158-205 | reversing every list of a value is pairing its elements first with last, at every depth |
| VmSerial.MirrorTwice | src/vm/src/stack.cpp:158-205 | reversing every list twice gives the value back |
| VmCalls.OneCall | include/cyng/vm/generator.hpp:26-36 | one generated call is issued once, with its arguments in order, and leaves stack and base pointer alone |
| VmCalls.InvokeIssued | include/cyng/vm/generator.hpp:26-30 | arguments, their number, a name and INVOKE call exactly that name with exactly these arguments on the machine's own channel |
| VmCalls.ForwardIssued | include/cyng/vm/generator.hpp:32-36 | with a tag and FORWARD the call goes to the channel of that tag |
| VmCalls.CallsIssued | include/cyng/vm/generator.hpp:26-36 | any list of generated calls is issued exactly and in order |
| VmCalls.Handle | src/vm/src/context.cpp:22-37 | loading and running never lets the program counter pass the end of memory |
| VmCalls.GivenIsLoaded | src/vm/src/proxy.cpp:40-62 | whatever the proxy is given is loaded, in order |
| VmCalls.GivenLaw | src/vm/src/proxy.cpp:48-62 | load gives its object, or its objects in order; execute gives its program; run gives nothing |
| VmCalls.NothingRuns | src/vm/src/proxy.cpp:48-62 | loading without running only fills the memory |
| VmCalls.ProxyRuns | include/cyng/vm/proxy.h:59-62 | for any calls of the proxy, exactly what was given up to the last call that runs (execute, run, or loading an instruction) has been executed, and the rest waits |
| VmCalls.CallsExecuted | src/vm/src/proxy.cpp:40-62 | on an idle machine, generated calls handed over in any portions of which the last one runs are issued exactly and in order, ending idle |
| VmCalls.ExecuteIssues | include/cyng/vm/proxy.h:59-62 | one execute of one invoke or forward issues it |
| VmCalls.Portions | src/vm/src/vm.cpp:33-41 | however a program is cut into loads and runs, what was loaded before the last run is executed as if in one go |
| VmCalls.CallsThroughProxy | src/vm/src/proxy.cpp:40-62 | generated calls handed over in any portions, with a run of the proxy at the end, are issued exactly and in order, ending idle with the old stack and base pointer |
| VmFrames.Footprint | src/vm/src/vm.cpp:55-156 | an instruction other than the frame instructions leaves everything below its own operands alone |
| VmFrames.RebaRestores | src/vm/src/stack.cpp:52-61 | REBA restores the stack and base pointer that ESBA found |
| VmFrames.PullRestores | src/vm/src/stack.cpp:69-77 | PULL does the same but keeps everything above the base slot |
| VmFrames.StepInFrames | src/vm/src/vm.cpp:55-156 | one instruction that leaves base slots alone keeps all open frames intact |
| VmFrames.ChainFalls | src/vm/src/stack.cpp:63-67 | the saved base pointers fall strictly and end with zero |
| VmFrames.RunInFrames | src/vm/src/vm.cpp:33-41 | the frames are intact in every state such a program reaches |
| VmFrames.MatchingFrame | src/vm/src/stack.cpp:45-77 | a body with any frames of its own between ESBA and the matching REBA or PULL leaves nothing behind |
| VmLaws.FunctionCalled | include/cyng/vm/vm.h:36-57 | INVOKE_R hands the external function in its slot exactly the arguments, in push order, pushes what it returns, or nothing for a void one, and leaves all else alone |
| VmLaws.FunctionCalledByName | src/vm/src/vm.cpp:203-209 | the same with a name and RESOLVE in front |
| VmLaws.UnknownNotCalled | src/vm/src/stack.cpp:302-304 | calling a name that is not known asserts |
| VmLaws.NameResolved | src/vm/src/vm.cpp:203-209 | a name becomes its slot, or the largest index |
| VmLaws.QuietOps | src/vm/src/vm.cpp:55-156 | NOOP, TIDY and HALT change nothing, and the run goes on |
| VmLaws.PushingOps | src/vm/src/vm.cpp:55-156 | NOW, PID, TID and IDENT push their value |
| VmLaws.NoSuchOp | src/vm/src/vm.cpp:55-156 | an op code without an implementation fails |
| VmLaws.TypeAsserted | src/vm/src/stack.cpp:261-265 | the type on top is taken off and must be that of the value below, which stays |
| VmLaws.ValueAsserted | src/vm/src/stack.cpp:267-272 | the value on top is taken off and must hash like the one below, which stays |
| VmLaws.SplitLaw | src/vm/src/stack.cpp:229-251 | a list is replaced by its elements, first to last, and their number; anything else asserts |
| VmLaws.PairMade | src/vm/src/stack.cpp:79-104 | each of the three pairs wants a key of its own type on top and takes the value below it |
| VmLaws.ListFromStack | src/vm/src/stack.cpp:158-205 | the topmost of the counted values becomes the first element |
| VmLaws.GatherLaw | src/vm/src/stack.cpp:109-153 | slots make a map exactly when all are pairs of its kind; it has exactly their keys, and of the pairs with one key the uppermost counts |
| VmLaws.MapFromStack | src/vm/src/stack.cpp:109-153 | the counted slots, and no others, are replaced by the map gathered from them; for attributes one slot more than the count is wanted |
| VmLaws.NotCounted | src/vm/src/stack.cpp:158-205 | without a count, or with more counted than there is, no container is made |
| VmLaws.NilNotForwarded | src/vm/src/vm.cpp:170-201 | forwarding to the nil tag asserts |
| VmLaws.WrittenInOrder | src/io/src/serializer/binary.cpp:367-431 | the serializer writes elements first to last |
| VmLaws.LeavesReceived | src/io/src/serializer/binary.cpp:367-431 | a list of leaves is written as its elements, their number and the constructor, and comes back turned round |
| Vm.GatherFails | src/vm/src/stack.cpp:109-153 | a slot of the wrong kind anywhere makes the whole map fail |
| Vm.GatherBuffersFails | src/vm/src/stack.cpp:207-221 | a slot that is no buffer anywhere makes the whole program fail |
| Vm.Stack.Esba | src/vm/src/stack.cpp:45-50 | saves the base pointer in a new base slot |
| Vm.Stack.Reba | src/vm/src/stack.cpp:52-61 | restores base pointer and stack size, or asserts |
| Vm.Stack.Pull | src/vm/src/stack.cpp:69-77 | restores the base pointer and erases the base slot, or asserts |
| Vm.Stack.Frm | src/vm/src/stack.cpp:223-227 | pushes the number of values in the frame |
| Vm.Stack.MakePair | src/vm/src/stack.cpp:79-104 | a key of the right type and the value below it become a pair |
| Vm.Stack.TakeEntries | src/vm/src/stack.cpp:109-153 | the popping loop gathers the pairs; a key already there stays |
| Vm.Stack.TakeItems | src/vm/src/stack.cpp:158-205 | the popping loop takes the counted values, topmost first |
| Vm.Stack.TakeBuffers | src/vm/src/stack.cpp:207-221 | the popping loop takes the counted buffers, topmost first |
| Vm.Stack.Split | src/vm/src/stack.cpp:229-251 | pushes the elements of a list and their number |
| Vm.Stack.AssertType | src/vm/src/stack.cpp:261-265 | passes exactly when the value below has the type on top |
| Vm.Stack.AssertValue | src/vm/src/stack.cpp:267-272 | passes exactly when the two topmost hashes are equal |
| Vm.Stack.Invoke | src/vm/src/stack.cpp:274-287 | name and arguments of a call, the arguments in push order again |
| Vm.Stack.InvokeR | src/vm/src/stack.cpp:296-313 | the same for a call by id |
| Vm.Machine.Run | src/vm/src/vm.cpp:33-41 | the loop executes the memory from the program counter to its end, as modelled |
| Vm.Machine.ExecCode | src/vm/src/vm.cpp:55-156 | every op code does what the model says |
| Vm.Machine.Invoke | include/cyng/vm/vm.h:223-234 | the call goes to the machine's own channel |
| Vm.Machine.Forward | src/vm/src/vm.cpp:170-201 | the call goes to its own channel for its own tag, else to the other one |
| Vm.Machine.InvokeR | include/cyng/vm/vm.h:36-57 | the search down the function table finds the function; a void one pushes nothing |
| Vm.Machine.Resolve | src/vm/src/vm.cpp:203-209 | replaces a name by its slot, or by the largest index |
| ChannelModel.Step | src/task/src/channel.cpp:26-207 | no action changes the number of slots or arms anything but a timer |
| ChannelModel.OpenRuns | src/task/src/channel.cpp:26-48 | while open, the messages that ran are a prefix of those accepted, in posting order, and nothing accepted is lost |
| ChannelModel.StoppedRuns | src/task/src/channel.cpp:142-173 | after stop nothing is accepted and no handler, timers included, calls in except the stop handler, once; what is lost is what was still queued |
| ChannelModel.StepFlows | src/task/src/channel.cpp:26-48 | every action but stop keeps accepted messages either run or queued, in order |
| ChannelModel.StepClosed | src/task/src/channel.cpp:192-207 | every action on a closed channel keeps it closed, with at most one stop handler run |
| ChannelModel.StopTwice | src/task/src/channel.cpp:151-156 | a second stop does nothing |
| ChannelModel.DrainStops | include/cyng/task/task.hpp:181-199 | taking every queued handler of a closed channel calls in exactly once, for the stop |
| ChannelLaws.DispatchLaw | src/task/src/channel.cpp:26-48 | an open channel takes a message for every slot below its number of slots, the last included, and changes in no other way; otherwise nothing changes |
| ChannelLaws.NextLaw | src/task/src/channel.cpp:91-122 | the same for a producer, by name |
| ChannelLaws.EndLaw | include/cyng/task/task.hpp:201-207 | a producer that returns passes its result, not its input, to the slot with the consumer's name |
| ChannelLaws.BeginLaw | src/task/src/channel.cpp:41-46 | the first handler is taken; messages and expired timers call their slot if the channel is open, cancelled timers never, the stop handler always |
| ChannelLaws.SuspendLaw | src/task/src/channel.cpp:192-207 | an open channel arms the timer with this message and posts the one that was armed as cancelled |
| ChannelLaws.TimerLaw | src/task/src/channel.cpp:192-207 | a cancelled timer is posted as cancelled, an expired one as it is |
| ChannelLaws.StopLaw | src/task/src/channel.cpp:142-173 | an open channel is closed, its timer cancelled and the stop handler posted last |
| ChannelLaws.SetNameLaw | src/task/src/channel.cpp:242-244 | a name keeps the slot it was given first |
| ChannelLaws.AcceptedExactly | src/task/src/channel.cpp:26-122 | in every run the messages accepted are exactly those dispatched on the open channel to an existing slot, those for a known producer, and producers' results for a known consumer, in the order of the calls |
| ChannelLaws.WaitExactly | src/task/src/channel.cpp:192-207 | in every run the armed timer is the one of the last suspend on the open channel, unless it was cancelled, has expired, or the channel was stopped |
| ChannelLaws.EverythingRuns | src/task/src/channel.cpp:26-207 | while the channel is open, what came due, accepted messages and expired timers alike, has called its slot or waits in the queue to do so, in that order, and cancelled timers never call |
| Channel.Channel.Dispatch | src/task/src/channel.cpp:26-48 | accepted and posted exactly when the slot is open |
| Channel.Channel.DispatchNamed | src/task/src/channel.cpp:77-79 | an unknown name is never accepted |
| Channel.Channel.Next | src/task/src/channel.cpp:91-95 | posts a producer by name, whose result goes to the slot that has the consumer's name when the result is there |
| Channel.Channel.Suspend | src/task/src/channel.cpp:192-207 | arms the timer, cancelling a pending wait; false exactly when the slot is not open |
| Channel.Channel.Stop | src/task/src/channel.cpp:142-173 | releases, cancels the timer and posts the stop handler, once |
| Channel.Channel.Begin | src/task/src/channel.cpp:41-46 | a posted handler calls in exactly when the slot is still open |
| Channel.Channel.End | include/cyng/task/task.hpp:201-207 | a producer's result is dispatched to its consumer |
| Channel.NamedAllLaw | src/task/src/channel.cpp:242-252 | a name keeps the slot it had, or gets the place of its first occurrence |
| Channel.Channel.SetChannelNames | src/task/src/channel.cpp:246-252 | the loop numbers the names from the size of the table on |
| Channel.NamesFound | src/task/src/channel.cpp:246-260 | after a list of names was set, lookup gives the place where a name first occurs in it, and the largest index exactly for names that do not occur |
| RegistryModel.DrainedLaw | src/task/src/registry.cpp:32-71 | drained before shutdown, the list without key 0 holds exactly the living channels that were not stopped before their insert ran, each under its own id; key 0 is used exactly once there was one |
| RegistryModel.DrainedExactly | src/task/src/registry.cpp:32-71 | so the whole list is exact if and only if no channel was stopped too early |
| RegistryModel.RunOk | src/task/src/registry.cpp:32-71 | in every state before shutdown the registry is sane, and the channels that miss their entry are exactly those stopped too early |
| RegistryModel.StepOk | src/task/src/registry.cpp:32-71 | every action before shutdown keeps each channel entering, entered, leaving, or apart because it was stopped too early |
| RegistryModel.StepEarly | src/task/src/registry.cpp:35-39 | an action makes a channel miss its entry exactly by stopping it too early |
| RegistryModel.IdsFresh | include/cyng/task/controller.h:91-126 | ids are never reused |
| RegistryModel.VictimsLaw | src/task/src/registry.cpp:110-125 | the channels shutdown stops are the listed, living, open ones, highest id first |
| RegistryModel.ShutdownLaw | src/task/src/registry.cpp:102-135 | from every state before it, shutdown stops each listed, living and open channel once, highest id first, empties the list, leaves open exactly those still on their way in, and does nothing the second time |
| RegistryModel.ShutdownEscapes | src/task/src/registry.cpp:32-40 | a channel created just before shutdown is entered afterwards, open |
| RegistryLaws.CreateLaw | include/cyng/task/controller.h:91-126 | a channel gets the next id, is open and owned, and its insert is posted unless shut down |
| RegistryLaws.StopLaw | src/task/src/channel.cpp:151-156 | an owned open channel is closed, once |
| RegistryLaws.ReleaseLaw | src/task/src/registry.cpp:238-243 | the removal is posted when the last owner lets go and no insert holds the channel, unless shut down |
| RegistryLaws.ResetLaw | src/task/src/registry.cpp:141-148 | a reset lifts the shutdown and changes nothing else |
| RegistryLaws.AlwaysSane | src/task/src/registry.cpp:32-148 | ids, list and queue stay consistent in every run, shutdowns and resets included |
| RegistryLaws.CreatedStays | src/task/src/registry.cpp:32-40 | a channel created while not shut down stays on its way in or entered until somebody stops or releases it or shuts down |
| RegistryLaws.EnteredAfterReset | src/task/src/registry.cpp:141-148 | a channel created after a reset, whatever came before, is entered under its own id and open once the strand is drained |
| Registry.Registry.CreateChannel | include/cyng/task/controller.h:91-126 | a fresh id, an open channel and a posted insert |
| Registry.Registry.RunNext | src/task/src/registry.cpp:32-71 | the posted insert or removal, with id 0 for a closed channel; asserts exactly when the channel is closed, or open and left without an owner |
| Registry.Registry.Release | src/task/src/registry.cpp:238-243 | the last owner's release posts the removal unless shut down, and asserts exactly when the channel is still open |
| Registry.Registry.Shutdown | src/task/src/registry.cpp:102-135 | the reverse loop stops what the model says; only the first call counts |
| Registry.Registry.Reset | src/task/src/registry.cpp:141-148 | lifts the shutdown; true exactly when there was one and the list is empty; asserts exactly when it is not |
| Registry.Registry.LookupSync | src/task/src/registry.cpp:73-80 | the living channel entered under the id, which is the channel with that id; with the strand drained, one is found exactly for the ids somebody holds that did not miss their entry |
| Transform.TransformNode | src/obj/src/dom_transform.cpp:113-203 | overwrites the object in place and asks for removal exactly as the recursive specification says |
| Transform.TransformItems | src/obj/src/dom_transform.cpp:32-63 | erasing while iterating over a list equals filtering it |
| Transform.TransformEntries | src/obj/src/dom_transform.cpp:65-96 | the same for the entries of a map, in whatever order |
| Transform.TransformPath | src/obj/src/dom_transform.cpp:315-414 | the path walk equals its recursive specification |
| Transform.TransformPathItems | src/obj/src/dom_transform.cpp:228-256 | list elements do not extend the path |
| Transform.TransformPathEntries | src/obj/src/dom_transform.cpp:258-295 | map entries extend the path by their key |
| Transform.TransformTree | src/obj/src/dom_transform.cpp:206-209 | the walk over a tree starts at the root with depth zero |
| Transform.TransformMap | src/obj/src/dom_transform.cpp:418-422 | the path walk over a parameter map starts with the empty path |
| TransformLaws.AnswerLaw | src/obj/src/dom_transform.cpp:191-200 | a node that is not a pair is gone when removed, exactly the new object when replaced, and a leaf left alone is as it was; a pair stays |
| TransformLaws.PathAnswerLaw | src/obj/src/dom_transform.cpp:315-414 | the same for the path walk |
| TransformLaws.ReplacedLaw | src/obj/src/dom_transform.cpp:32-203 | every node is asked with the number of lists and maps around it and its type; exactly the chosen nodes that lie below no other chosen one become what is given for them |
| TransformLaws.PathReplacedLaw | src/obj/src/dom_transform.cpp:228-414 | the same with the keys around a node, from the root down |
| TransformLaws.PathReplacedEntriesLaw | src/obj/src/dom_transform.cpp:418-422 | so too for the walk that starts at the entries of a map |
| TransformLaws.LeavesReplaced | src/obj/src/dom_transform.cpp:113-203 | replacing the leaves that satisfy a predicate gives the tree with exactly those leaves mapped, in lists, maps and pairs, root included |
| TransformLaws.PathLeavesReplaced | src/obj/src/dom_transform.cpp:315-414 | the path walk does the same |
| TransformLaws.ThinnedLaw | src/obj/src/dom_transform.cpp:32-203 | removing by object and depth takes out exactly the chosen list elements, map entries and root; the value of a pair stays |
| TransformLaws.PathThinned | src/obj/src/dom_transform.cpp:228-414 | the path walk removes by object exactly the same |
| Transform.NothingIsIdentity | src/obj/src/dom_transform.cpp:113-203 | a callback that does nothing leaves every tree as it is |
| Transform.WalksAgree | src/obj/src/dom_transform.cpp:206-422 | both walks agree when the callback looks at the value only |
| Transform.EntriesAgree | src/obj/src/dom_transform.cpp:418-422 | so does the walk that starts inside a parameter map |
| Transform.PruneLaw | src/obj/src/dom_transform.cpp:191-200 | removing leaves by a predicate leaves none in any list or map |
| Transform.PruneTwice | src/obj/src/dom_transform.cpp:113-203 | removing them twice is removing them once |
| Transform.SweepLaw | src/obj/src/dom_transform.cpp:98-139 | one walk that removes empty lists leaves one behind if and only if the tree has a list of nothing but empty lists or a pair whose value is one |
| ParamTree.RenameExactly | src/obj/src/dom_transform.cpp:510-518 | the node survives if and only if the target path is non-empty, unblocked and its name free; an absent path changes nothing |
| ParamTree.RenameMoves | src/obj/src/dom_transform.cpp:510-518 | the whole node moves, unrelated paths keep their value, and leaf for leaf nothing is lost or made up |
| ParamTree.ExtractLeaves | src/obj/src/dom_transform.cpp:467-500 | extraction leaves nothing at or below the path and everything else as it was |
| ParamTree.ExtractFinds | src/obj/src/dom_transform.cpp:467-500 | extraction finds exactly what lookup finds |
| ParamTree.InsertPuts | src/obj/src/dom_transform.cpp:426-464 | a free and unblocked target receives the value and nothing else changes |
| ParamTree.InsertRefused | src/obj/src/dom_transform.cpp:426-464 | a blocked or occupied target leaves the map as it is |
| ParamTree.MergePuts | src/obj/src/merge.cpp:14-47 | after merge the path leads to the value and unrelated paths lead where they led |
| ParamTree.MergeBlocked | src/obj/src/merge.cpp:29-40 | a non-map on the way leaves the whole map exactly as it was |
| ParamTree.MergeExactly | src/obj/src/merge.cpp:14-47 | merge takes effect if and only if there is a path and no non-map stands on its way |
| ParamTree.MergeWins | src/obj/src/merge.cpp:20-24 | a later merge at the same path wins |
| ParamTree.MergesSwap | src/obj/src/merge.cpp:14-47 | merges at unrelated paths can be swapped |
| ParamTree.MergeThrough | src/obj/src/merge.cpp:15-46 | a merge along a path is the merge of its rest into the map that its beginning leads to |
| ParamTree.ParamMap.RenamePath | src/obj/src/dom_transform.cpp:510-518 | extract, then insert what was found |
| ParamTree.ParamMap.ExtractFrom | src/obj/src/dom_transform.cpp:467-500 | the recursion down the map pointers erases the entry in place and hands it back |
| ParamTree.ParamMap.InsertFrom | src/obj/src/dom_transform.cpp:426-464 | the recursion down the map pointers, creating maps in place, inserts unless blocked or taken |
| ParamTree.PutLaw | src/obj/src/merge.cpp:14-47 | an assignment through a map pointer is found there, and the last one counts |
| ParamTree.ParamMap.MergePath | src/obj/src/merge.cpp:14-47 | the loop that moves a pointer down the nested maps equals the recursive merge, and asserts exactly when a non-map is in the way |
| ParamTree.MergeFinds | src/obj/src/merge.cpp:29-40 | an entry on the way moves the pointer into it, or stops everything |
| ParamTree.MergeCreates | src/obj/src/merge.cpp:41-46 | a missing map on the way is created empty and the merge goes on in it |
| WalkerModel.StreamRebuilds | src/obj/src/dom_walker.cpp:14-147 | a reader that checks all brackets, depths, sizes, parents (the root's included) and marks, and that pairs are bracketed exactly around containers, gets the tree back if and only if there is no property map and no deque in the way |
| WalkerModel.StreamOtherwiseRight | src/obj/src/dom_walker.cpp:85-93 | a reader that takes the wrong type at the close of a property map and insists on all else gets every tree back exactly when it holds no deque |
| WalkerModel.DequeStream | src/obj/src/dom_walker.cpp:134 | a deque, whatever it holds, is announced as an empty vector |
| WalkerModel.Reads | src/obj/src/dom_walker.cpp:128-143 | the same for every subtree at every depth, mark and parent |
| WalkerModel.SeenExactly | src/obj/src/dom_walker.cpp:134 | the walk sees the tree as it is exactly when it holds no deque |
| Walker.Recorder.Start | src/obj/src/dom_walker.cpp:145-147 | the events of the whole traversal, the root marked last |
| Walker.Recorder.Node | src/obj/src/dom_walker.cpp:128-143 | the events of one object |
| Walker.Recorder.Items | src/obj/src/dom_walker.cpp:32-52 | the loop over a list, counting to mark first and last |
| Walker.Recorder.Entries | src/obj/src/dom_walker.cpp:65-93 | the loop over a map, with a property map closed as a parameter map |
| Walker.Recorder.PairOf | src/obj/src/dom_walker.cpp:95-126 | a pair of a container, programs included, is bracketed; any other is one event |
| ClientModel.QueueFlows | include/cyng/net/client.hpp:135-170 | while open and not reset, a write is out exactly when the queue is non-empty, never two, and bytes confirmed plus queued are all bytes sent, in order |
| ClientModel.NeverTwoExactly | include/cyng/net/client.hpp:135-238 | in every run, two writes are out at some time if and only if something was sent on the open channel after a failed read had reset a queue that was not empty and before any write completed |
| ClientModel.StepExplained | include/cyng/net/client.hpp:135-189 | without such a send at most one write is out, and one that is out while nothing is queued was cut off by a reset |
| ClientModel.BreaksExactly | include/cyng/net/client.hpp:159-189 | a completed write finds the queue empty if and only if a reset came before it and since the last one as many writes completed as messages were sent |
| ClientModel.BufferLostExactly | include/cyng/net/client.hpp:183-194 | in every run, some write is out without its buffer at some time if and only if a failed read or the stop slot reset the connection while a write was out |
| ClientModel.TwoInFlight | include/cyng/net/client.hpp:183-189 | a run with two writes out, the first without its buffer |
| ClientLaws.SendLaw | include/cyng/net/client.hpp:135-146 | a message is queued, and written at once exactly when it is alone and the channel is open |
| ClientLaws.WrittenLaw | include/cyng/net/client.hpp:159-181 | a completed write confirms its buffer if it still had one, takes one message off, and the next one is written if there is one and the channel is open; other writes lose their buffer |
| ClientLaws.ResetLaw | include/cyng/net/client.hpp:183-189 | a failed write or read or the stop slot empties the queue and frees every buffer; failures are reported while the channel is open |
| ClientLaws.CloseLaw | include/cyng/net/client.hpp:135-157 | closing the channel touches no message and no write |
| ClientLaws.OpenExactly | include/cyng/net/client.hpp:135-238 | the channel is open until it is closed |
| ClientLaws.SentExactly | include/cyng/net/client.hpp:135-146 | in every run the messages given are recorded, in order |
| ClientLaws.ReportedExactly | include/cyng/net/client.hpp:228-238 | in every run each failed read or write on the open channel is reported once, and nothing else is |
| ClientLaws.AlwaysHonest | include/cyng/net/client.hpp:135-238 | in every run, resets included, what is confirmed are messages sent, in order and each once, the queue is the end of what was sent, and only the last write out still has its buffer, which is the queue's front |
| ClientQueue.ClientTask.Send | include/cyng/net/client.hpp:135-146 | queues the message and starts a write if the queue was empty |
| ClientQueue.ClientTask.HandleWrite | include/cyng/net/client.hpp:159-181 | takes the written message off and goes on with the next, or resets and reports the disconnect; asserts exactly when a successful completion finds the queue empty |
| ClientQueue.ClientTask.HandleReadError | include/cyng/net/client.hpp:228-238 | resets and reports the disconnect |
| ClientQueue.ClientTask.DoWrite | include/cyng/net/client.hpp:148-157 | starts a write of the front message if the channel is open |
| ClientQueue.ClientTask.Reset | include/cyng/net/client.hpp:183-189 | clears the queue and frees the buffer of every write still out |
| SqlSchema.SchemaRoundTrip | src/store/src/meta.cpp:23-79 | to SQL and back is the same schema if and only if its name is non-empty and does not start with a capital and no column is called gen |
| SqlSchema.RowRoundTrip | src/db/src/storage.cpp:59-95 | a row laid out as key, generation, data is read back exactly if and only if no body column is taken for a generation |
| SqlSchema.NameRoundTrip | src/store/src/meta.cpp:46-76 | the table name survives if and only if it is non-empty and does not start with a capital |
| SqlSchema.LayoutLaw | src/store/src/meta.cpp:23-54 | every column's place: the key in front, a generation of no width, the body behind it with its own widths; the name gets a T and a capital |
| SqlSchema.MemNameLaw | src/store/src/meta.cpp:58-76 | a leading T is dropped from a longer name and the next letter made small |
| Text.CaseLaw | src/store/src/meta.cpp:23-79 | exactly the 26 letters change case |
| SqlSchema.ToSql | src/store/src/meta.cpp:23-54 | the column loop produces key, generation, body, with the widths in step |
| SqlSchema.ToMem | src/store/src/meta.cpp:58-79 | the column loop drops the columns called gen and restores the name; asserts exactly when the columns left do not outnumber the key |
| SqlSchema.ToRecord | src/db/src/storage.cpp:59-95 | key values, data values without the generation, and the last generation read; an empty record when there is no result; asserts exactly when a value is missing or the schema is not sound |
| SqlSchema.ReadRow | src/db/src/storage.cpp:64-90 | the loop over the columns, with what is missing skipped |
| Bytes.ToNumeric | include/cyng/obj/buffer_cast.hpp:73-104 | the big-endian value of the first bytes, as many as the type is wide or as there are |
| Bytes.ToNumericAt | include/cyng/obj/buffer_cast.hpp:118-147 | the offset form reads what the plain form reads from the rest of the buffer |
| Bytes.ToBuffer | include/cyng/obj/buffer_cast.hpp:152-190 | the big-endian bytes of the chosen slice of the number |
| Bytes.ReverseInPlace | include/cyng/obj/buffer_cast.hpp:187 | the buffer turned round in place |
| Bytes.ReverseCopy | include/cyng/obj/buffer_cast.hpp:82 | the copy is the source reversed, the rest of the target untouched |
| Bytes.NumberRoundTrip | include/cyng/obj/buffer_cast.hpp:73-190 | reading undoes writing for every width, whatever follows in the buffer |
| Bytes.BufferRoundTrip | include/cyng/obj/buffer_cast.hpp:73-190 | writing undoes reading exactly on buffers of the type's own width |
| Bytes.SlicedRoundTrip | include/cyng/obj/buffer_cast.hpp:152-190 | a byte count and an offset keep exactly that slice of the number |
| Bytes.MemoryAt | include/cyng/obj/buffer_cast.hpp:164-170 | the bytes from an offset on are those of the shifted number |
| Bytes.FirstByte | include/cyng/obj/buffer_cast.hpp:73-104 | the first byte counts most |
| Bytes.ByteAt | include/cyng/obj/buffer_cast.hpp:152-190 | each byte of the buffer, by division |
| Hex.ToHex | include/cyng/io/io_buffer.h:22-33 | the digit loop with a falling shift writes the fixed-width hex text |
| Hex.CharHex | src/io/src/io_buffer.cpp:17-19 | a byte prints the same through a signed char |
| Hex.BufferToHex | src/io/src/io_buffer.cpp:13-49 | two digits per byte, with the separator between bytes only |
| Hex.HexToBuffer | src/parse/src/buffer.cpp:17-31 | two digits make a byte; an odd length makes none and asserts |
| Hex.BufferUndone | src/parse/src/buffer.cpp:17-31 | decoding undoes printing for every buffer |
| Hex.TextUndone | src/parse/src/hex.cpp:17-60 | printing a decoded text gives its lower case if and only if it was an even number of hex digits |
| Hex.PairRoundTrip | src/parse/src/hex.cpp:17-60 | printing a decoded pair gives its lower case if and only if both are hex digits |
| Hex.DigitsExactly | src/parse/src/hex.cpp:17-60 | the digits, their values in both cases, and that nothing else is a digit |
| Hex.TwoDigitValue | src/parse/src/hex.cpp:17-60 | of two digits the first counts sixteen times |
| Mac.Print | src/io/src/ostream.cpp:138-196 | the printing loop gives fixed-width parts joined by colons |
| Mac.PaddedIsFixed | src/io/src/ostream.cpp:144-164 | minimal digits padded with zeros are the fixed-width text of every number that fits |
| Mac.Parse | src/parse/src/mac.cpp:17-54 | the parts decoded, or all zero when their number is wrong; the result always fits; asserts exactly when the number is right and a part is empty, as an octet, or not hex |
| Mac.SplitJoin | src/parse/src/mac.cpp:24 | splitting at colons undoes joining |
| Mac.PrintedThenParsed | src/parse/src/mac.cpp:17-54 | parsing undoes printing for every address of both kinds |
| Mac.ParsedThenPrinted | src/parse/src/mac.cpp:17-54 | printing a parsed text gives its lower case if and only if it is well formed |
| Mac.KindLaw | src/parse/src/mac.cpp:17-54 | six octets, or four words |
| Mac.MalformedLaw | src/parse/src/mac.cpp:17-54 | all zero for a wrong number of parts; in an octet a missing digit is zero and later characters are ignored; a word of any other length is zero |

## Left out

- Source tags of events: the uuid passed along with every event does not influence the rows or the slots.
- Mutexes and memory-level races: each table operation and each handler is one step, and the open check and the call after it are one step.
- Slots that change the table or the slot lists while they are being called, and stateful predicates and callbacks.
- Table.Table.EraseIf: only the untyped predicate; the typed erase_if, loop, lookup and to_vector are dispatch and read-only walks over the same rows.
- StoreReplicas.ReplicaAgrees: a slot that was listed before and comes back is covered by ConnectMirrors and StepMirrors instead.
- StoreRows.ForwardKeepsOrder: the exact condition on one event's answers; the exact condition on the list is OrderKeptExactly.
- Automatic tables, secondary keys and the ordering on keys, which is not an order.
- Vm.Machine.InvokeR: calls into the machine's own five slots and ids outside the function table count as failed assertions, because they make programs extend themselves.
- Vm.Machine.ExecCode: the same calls, reached through the INVOKE_R op code.
- Op codes without an implementation are one failing instruction; the clock and the process and thread ids are fixed values of the environment.
- A wrong type on the stack counts as a failed assertion; the release build would go on with a default value.
- The byte layer under the binary serializer and the parsers for it, for JSON and for CSV.
- Channel.Channel.Next: a producer that feeds a consumer slot of the same channel by name; the overloads with dangling references, and results passed to another channel or to a free function, are not modelled.
- The answer callback of dispatch_r: its handler is posted and checked like any other.
- A channel's lifetime beyond its owners: handlers that keep a channel alive are modelled for the registry's insert only.
- Registry lookups and dispatches by name: they only read the list.
- Transform.TransformPath: paths are sequences of keys, where the source passes their text; a callback can tell the index 1 from the name "1".
- The channel's assertions on slots that are out of range or unknown and on a stopped context (src/task/src/channel.cpp:33-34, :56-57, :109-110, :135): such messages are not accepted, as in a build without assertions.
- Assertions on values no caller of the model can give, such as a null slot (src/store/src/pub.cpp:25), and those the model proves to hold, such as equal sizes in update (src/store/src/table.cpp:108).
- The connecting side of the client and what it reads; what happens after a completion found the queue empty, and what a write without its buffer sends.
- SqlSchema.ToRecord: conversion of other numeric types to the generation is not modelled, since the column is read with the generation's type.
- Signed numbers, floating-point numbers and arrays in the buffer casts, and the big-endian build branches.
- Round trips of revisions, EDIS codes and colours, which the code does not undo, and all dialect tables, calendars, logging, system calls and drivers.

# A model of the ISML messaging library

ISML is a C++ library for messaging: messages are built from descriptors, serialized in a binary
format, sent over TCP and correlated with replies; actions are run by a thread pool and a scheduler.
This project models its stateful and arithmetic parts in Dafny and proves what they promise.

- `Bytes`, `Codec`, `CodecProofs`, `WireFormat`, `CodecStream`: the type-directed binary codec over a universe of types
  (integers, enums, bools, floats as bytes, pairs, optionals, sequences, arrays, sets, maps, objects), with
  hosts of both byte orders, in-place decoding targets and 16-bit counts.
- `Fields`, `Messages`, `MessageLaws`: field sets (a list with a name index), descriptors and messages, the
  order of fields in each, and what that order means for the bytes of messages and clones.
- `Tasks`, `ThreadPools`, `Deadlines`, `Heaps`, `Scheduler`, `Punctuality`: transition systems for any
  number of threads. A run is a schedule of events; each region under a mutex, and each atomic operation, is one step.
- `Frames`, `Transport`, `TcpTransports`: the byte stream of a connection, and the handlers of the TCP
  transport with its pending requests.
- `UrlScan`, `UrlNumbers`, `UrlQuery`, `Urls`: URL parsing and printing. `JsonMerge`: deep merge of JSON.
  `PubSub`: the publish-subscribe channel.

Code that changes state is modelled by classes and methods with loops, each proved against a
specification function; the theorems are lemmas about those functions. Fields of model classes that
record history are said to do so where they are declared. Assertions of the source are taken as enabled.
Where a container's iteration order is unspecified, it is a parameter, or an arbitrary choice, of the model.

`dafny verify dfyconfig.toml` checks everything.

Some results contradict what one might expect. Each is stated with its exact condition, and with a case in which
it happens:

- Decoding an absent optional does not reset the target, so the round trip depends on what the target held
  (`CodecProofs.RoundTrip`, `CodecProofs.StaleOptional`).
- A field set assigned to itself is emptied; assigning reverses the order of fields; a clone does not have
  the bytes of its original (`Fields.FieldSet.Assign`, `MessageLaws.CloneIsReadBackwards`,
  `MessageLaws.CloneHasSameBytesExactlyIf`, `MessageLaws.CloneHasOtherBytes`).
- `compare_exchange_weak` may fail spuriously; `tryCancel` then reports success for a task that will run, and
  `perform` can fail its assertion (`Tasks.SuccessReportedExactlyIf`, `Tasks.SpuriousSuccess`,
  `Tasks.AbortsExactlyIf`, `Tasks.SpuriousAbort`). A task cancelled between the check and the start of
  `perform` may never get its promise set (`Tasks.CancelledPromise`, `Tasks.LateCancelLeavesPromiseUnset`).
- Actions still queued when the pool shuts down are all dropped unless a worker is busy at that moment
  (`ThreadPools.ShutdownLeaves`, `ThreadPools.ShutdownDropsAction`).
- The scheduler compares a new delay with a stale timestamp and can overlook a shorter one
  (`Scheduler.OverlooksExactlyIf`, `Scheduler.StaleTimestampDelays`). A call that comes between two waits delays its
  action twice (`Punctuality.DelayedTwice`). Otherwise actions are in time, but for time lost
  (`Punctuality.LateAtMost`, `Punctuality.ExactlyOnTime`).
- The heap of the scheduler compares what is left of two delays, in whole milliseconds and at two readings of the
  clock. So it can lose its order, and an action can be handed over early. On a clock of whole milliseconds
  that happens only if two of them pass between the two readings of one comparison
  (`Scheduler.WholeSufficesExactlyIf`, `Scheduler.EarlyOnWholeClock`). On a finer clock, such as the one the
  class uses by default, it happens even if each comparison sees a single instant, to an action that has another
  due less than a millisecond before it (`Scheduler.GapSufficesExactlyIf`, `Scheduler.FineClockMisorders`,
  `Scheduler.EarlyOnFineClock`, `Scheduler.EarlyAcrossReadings`).
- The transport's writer counts its own two length bytes and writes no message type, while its reader expects
  the length of what follows (`Frames.WrittenIsNoFrame`). Requests expire after 31 seconds, not 30
  (`Transport.ExpiryIsExact`).
- A port parsed from a negative number prints as one that does not parse (`Urls.ParseOfText`,
  `Urls.SomePortIsNotReadBack`). The query of a built URL is read back as part of its path (`Urls.ParseOfBuilt`).

## Model

| member | source | states |
|---|---|---|
| Bytes.SwapFloat | include/isml/base/byte.hpp:86-94 | the in-place loop reverses the bytes of the value |
| Bytes.SwapReversesBytes | include/isml/base/byte.hpp:17-84 | swapping 8, 16, 32 and 64-bit integers reverses their little-endian bytes, and swapping twice is the identity |
| Bytes.StoreIgnoresHost | include/isml/serialization/serializers/binary_serializer.hpp:69-96 | a host of either byte order writes the little-endian bytes of a scalar |
| Bytes.LoadOfStore | include/isml/serialization/serializers/binary_serializer.hpp:91-103 | a scalar written on one host is read unchanged on any other |
| Bytes.StoreOfLoad | include/isml/serialization/serializers/binary_serializer.hpp:91-103 | every byte string of the right width is the encoding of the scalar it is read as |
| Bytes.CountCast | include/isml/serialization/serializers/binary_serializer.hpp:207 | the cast of a length to 16 bits keeps the length modulo 65536 |
| Bytes.ToCountOfValue | include/isml/serialization/serializers/binary_serializer.hpp:214-215 | every 16-bit count is the cast of the number it stands for, so counts and lengths below 65536 correspond |
| Bytes.CountIsNumber | include/isml/serialization/serializers/binary_serializer.hpp:207-215 | a count as the model spells it is the number of its 16 bits |
| Bytes.CastIsNumber | include/isml/serialization/serializers/binary_serializer.hpp:207 | the cast is the 16-bit number that the length is modulo 65536 |
| Bytes.LowByteFirst | include/isml/serialization/serializers/binary_serializer.hpp:91-96 | of a 16-bit number every host writes the remainder by 256 and then the quotient |
| Bytes.LowHalfFirst | include/isml/serialization/serializers/binary_serializer.hpp:91-96 | of a 32 or 64-bit number the low half and then the high half |
| WireFormat.EncodeIsLeaves | include/isml/serialization/serializers/binary_serializer.hpp:85-311 | what is written for any object is the bytes of its scalars in order of declaration: flags as 1 or 0, an optional as flag and content, a container as 16-bit length and items |
| WireFormat.DefaultIsZeros | include/isml/serialization/serializers/binary_serializer.hpp:85-311 | a value-initialised object without arrays is written as zero bytes only |
| WireFormat.ReadWasWritten | include/isml/serialization/serializers/binary_serializer.hpp:98-316 | in types without sets and maps, whatever is read into a fresh object is the encoding of an object with the value read |
| WireFormat.ReadExactlyIf | include/isml/serialization/serializers/binary_serializer.hpp:85-316 | so input is read exactly if it begins with the encoding of an object whose counts fit |
| CodecProofs.SizeIsExact | include/isml/serialization/serializers/binary_serializer.hpp:59-322 | for every type and object, the declared size is the number of bytes written |
| CodecProofs.EncodeIgnoresHost | include/isml/serialization/serializers/binary_serializer.hpp:69-311 | all hosts write the same bytes for the same object |
| CodecProofs.DecodeOfEncode | include/isml/serialization/serializers/binary_serializer.hpp:85-322 | if all counts fit, reading an encoding consumes exactly it and lays the object over what the target held |
| CodecProofs.OverlayIsValue | include/isml/serialization/serializers/binary_serializer.hpp:150-192 | the target ends up with the value of the object exactly when nothing of its old content shows through: an absent optional outside every optional, set and map must meet an absent one |
| CodecProofs.RoundTrip | include/isml/serialization/serializers/binary_serializer.hpp:85-322 | for every type, object, prior target, rest of input and byte orders: reading the encoding yields the value and leaves the rest if and only if every container has at most 65535 items and the target is clean in the sense above |
| CodecProofs.RoundTripIntoAnyTarget | include/isml/serialization/serializers/binary_serializer.hpp:85-322 | with no optional outside a set or map in the type, the round trip holds for every prior target |
| CodecProofs.RoundTripIntoFresh | include/isml/serialization/serializers/binary_serializer.hpp:85-322 | into a value-initialised target the round trip holds for every object whose counts fit |
| CodecProofs.StaleOptional | include/isml/serialization/serializers/binary_serializer.hpp:150-160 | reading an absent optional over a present one leaves the present one |
| CodecProofs.OversizedIsNotRestored | include/isml/serialization/serializers/binary_serializer.hpp:205-240 | the encoding of an object with an oversized container is not read back as that object, into any target |
| CodecProofs.OversizedIsNeverRead | include/isml/serialization/serializers/binary_serializer.hpp:212-240 | no input at all is read, into a fresh target, as a value with an oversized container |
| CodecProofs.PrefixFree | include/isml/serialization/serializers/binary_serializer.hpp:85-322 | if encodings of two objects of one type begin the same input, the values are the same and both encodings end at the same place |
| CodecProofs.IterationOrderIsNoPartOfTheValue | include/isml/serialization/serializers/binary_serializer.hpp:212-240 | inserting the items of a set or map in any order gives the same container |
| CodecProofs.IterationOrderIsNotTransmitted | include/isml/serialization/serializers/binary_serializer.hpp:205-240 | however the writer iterates a set or map, the reader gets the same container |
| CodecProofs.DecodeKeepsType | include/isml/serialization/serializers/binary_serializer.hpp:98-316 | whatever the input, a value that is read has its type |
| CodecStream.Serialize | include/isml/serialization/serializers/binary_serializer.hpp:91-311 | the stream grows by exactly the encoding of the object |
| CodecStream.SerializeItems | include/isml/serialization/serializers/binary_serializer.hpp:181-182 | the loop over a container appends the encodings of its items in order |
| CodecStream.ReadScalar | include/isml/serialization/serializers/binary_serializer.hpp:98-103 | reads one scalar and moves the stream by its width, or fails and leaves the stream where it was |
| CodecStream.Deserialize | include/isml/serialization/serializers/binary_serializer.hpp:98-316 | the target by reference and the stream position end up as the decoding function says, for what the target held before |
| CodecStream.DeserializeContainer | include/isml/serialization/serializers/binary_serializer.hpp:185-240 | count, resize or clear, and the item loop together decode the container |
| CodecStream.DeserializeItems | include/isml/serialization/serializers/binary_serializer.hpp:190-191 | each item is read over the slot that was there |
| Fields.Field.Clone | include/isml/message/field/value_field.hpp:147-151 | a new field with the same name, type and value |
| Fields.Field.Deserialize | include/isml/message/field/value_field.hpp:127-131 | the value is replaced by what is read over it; name and type stay |
| Fields.FieldSet.Add | src/message/field/field_set.cpp:44-54 | refuses a name that is there; otherwise the field goes before the last element, and list and index still agree |
| Fields.FieldSet.InsertNode | src/message/field/field_set.cpp:51-52 | one insertion into list and index keeps their agreement |
| Fields.FieldSet.Contains | src/message/field/field_set.cpp:56-59 | true exactly for the names of the listed fields |
| Fields.FieldSet.ContainsOf | include/isml/message/field/field_set.hpp:78-86 | true exactly if a listed field has this name and this type |
| Fields.FieldSet.Get | src/message/field/field_set.cpp:61-67 | the listed field of that name, or nothing if there is none |
| Fields.FieldSet.Clear | src/message/field/field_set.cpp:97-101 | no fields and no names remain |
| Fields.FieldSet.Assign | src/message/field/field_set.cpp:79-89 | fresh clones of the fields in reverse order; a set assigned to itself ends up empty |
| Fields.FieldSet.InsertClone | src/message/field/field_set.cpp:84-88 | a turn of the loop puts a clone in front and indexes it |
| Fields.FieldSet.CopyFrom | src/message/field/field_set.cpp:24-32 | as assign, but a set copied to itself stays as it is |
| Fields.FieldSet.Serialize | src/message/field/field_set.cpp:103-107 | appends the encodings of the fields in list order |
| Fields.FieldSet.Deserialize | src/message/field/field_set.cpp:109-113 | each field reads over its own value, in list order |
| Fields.FieldSet.SerializedSize | src/message/field/field_set.cpp:115-121 | the sum over the list is the declared size of the whole set |
| Fields.FieldSet.Swap | src/message/field/field_set.cpp:91-95 | the two sets exchange fields and index |
| Fields.AddsRotate | src/message/field/field_set.cpp:44-54 | adding x0 .. xn-1 to an empty set lists them as x1 .. xn-1, x0 |
| Fields.InsertKeepsIndex | src/message/field/field_set.cpp:44-89 | inserting a new name anywhere keeps names unique and every name leading to its node |
| Fields.ReadFieldsIsDecode | src/message/field/field_set.cpp:109-113 | reading the fields one after the other is decoding the object that has them as members |
| Messages.FieldDescriptor.CreateField | include/isml/message/field/value_field_descriptor.hpp:36-40 | a fresh field of the descriptor’s name and type holding the default value |
| Messages.MessageDescriptor.RegisterField | src/message/message_descriptor.cpp:54-69 | a repeated name is an error that changes nothing; otherwise the descriptor goes before the last one |
| Messages.MessageDescriptor.Swap | src/message/message_descriptor.cpp:76-81 | the two descriptors exchange type, list and index |
| Messages.MessageDescriptor.Copy | src/message/message_descriptor.cpp:83-96 | clones of the other’s descriptors in reverse order; a descriptor copied to itself ends up empty |
| Messages.IdGenerator.Generate | src/message/message.cpp:17-21 | returns the incremented counter, which wraps at 32 bits |
| Messages.LaterIdIsSum | src/message/message.cpp:17-21 | the k-th identifier after id is id + k modulo 2^32 |
| Messages.IdsRepeat | src/message/message.cpp:17-21 | two generated identifiers are equal exactly if a multiple of 2^32 messages lies between them |
| Messages.Message.constructor | src/message/message.cpp:23-31 | a new identifier, and the descriptor’s fields rotated left by one |
| Messages.Message.Of | src/message/message.cpp:33-38 | a clone: a new identifier, the same type and session, fresh fields in reverse order |
| Messages.Message.HasField | src/message/message.cpp:62-65 | true exactly for the names of its fields |
| Messages.Message.FieldOf | include/isml/message/message.hpp:108-115 | the field of that name and type, or FieldDoesNotExist exactly when there is none |
| Messages.CreateFields | src/message/message.cpp:29-30 | the loop lists the created fields rotated left by one |
| MessageLaws.FieldOrder | src/message/message_descriptor.cpp:60-69 | the k-th field of a message was registered two places later, modulo the number of fields |
| MessageLaws.RegisterAll | src/message/message_descriptor.cpp:54-69 | registering fields of distinct names one after the other, the descriptor object lists them in the order above |
| MessageLaws.RegisterAndCreate | src/message/message.cpp:23-31 | the message object created from it has the fields in registration order rotated left by two |
| MessageLaws.CopiedDescriptorOrder | src/message/message_descriptor.cpp:83-96 | messages of a descriptor and of its copy have the same field order exactly if there is at most one field |
| MessageLaws.MessageRoundTrip | src/message/message.cpp:72-80 | between two messages of one descriptor, reading the bytes of one into the other gives it the same values and leaves the rest exactly when counts fit and the old values do not show through |
| MessageLaws.NewMessageReadsBack | src/message/message.cpp:23-31 | a newly created message of the same descriptor reads back every message whose counts fit |
| MessageLaws.CloneKeepsContents | src/message/message.cpp:33-38 | a clone has the same values and types under the same names |
| MessageLaws.CloneOfClone | src/message/message.cpp:33-38 | a clone of a clone has the fields and the bytes of the original |
| MessageLaws.CloneKeepsSize | src/message/message.cpp:82-85 | a clone has the size of the original |
| MessageLaws.CloneIsReadBackwards | src/message/message.cpp:67-80 | a message of the original’s descriptor that reads the bytes of a clone, the field types reading the same backwards, gets the values reversed: the right ones exactly if they are a palindrome |
| MessageLaws.CloneHasSameBytesExactlyIf | src/message/message.cpp:67-80 | under the same condition a clone has the bytes of its original exactly if the bytes of the fields are, field by field, the same from both ends |
| MessageLaws.CloneHasOtherBytes | src/message/message.cpp:33-38 | a message of two bytes whose clone has other bytes |
| MessageLaws.WireSize | src/message/message.cpp:82-85 | the declared size of a message is the number of its bytes |
| Tasks.StepKeepsInv | include/isml/task/task.hpp:186-289 | each step of each thread keeps: at most one owner, and status, promise and start count in agreement |
| Tasks.RunKeepsInv | include/isml/task/task.hpp:186-289 | so this holds after every interleaving of any number of performs and cancels |
| Tasks.StatusMoves | include/isml/task/task.hpp:186-215 | in every interleaving the status moves only Created, InProgress, Completed or Created, Cancelled |
| Tasks.Safety | include/isml/task/task.hpp:249-289 | in every interleaving the function starts at most once and never if the task is cancelled, and a completed task has run and has its promise set |
| Tasks.AbortsExactlyIf | include/isml/task/task.hpp:251-287 | in every interleaving, spurious failures included: the program aborts (failed assertion, or exception out of noexcept) exactly if two performs have rejected the task or the last exchange of one has failed spuriously |
| Tasks.SuccessReportedExactlyIf | include/isml/task/task.hpp:186-201 | in every interleaving: tryCancel has reported success exactly if the task is cancelled or the exchange of some tryCancel has failed spuriously on a created task; for a task that was started, exactly in the second case |
| Tasks.FalseSuccess | include/isml/task/task.hpp:189-200 | the same for a single call |
| Tasks.SuccessMeansCancelled | include/isml/task/task.hpp:186-201 | without spurious failures, once tryCancel has reported success the task is cancelled and never runs |
| Tasks.SpuriousSuccess | include/isml/task/task.hpp:192-200 | a schedule in which tryCancel reports success and the function runs all the same |
| Tasks.AbortsExactlyOnSecondRejection | include/isml/task/task.hpp:251-287 | without spurious failures the program aborts exactly if two performs find the task cancelled; so the assertion itself never fails |
| Tasks.RejectionsArePerforms | include/isml/task/task.hpp:251-265 | performs that have rejected the task or are still under way are at most the performs begun |
| Tasks.PerformedOnceAbortsExactlyIf | include/isml/task/task.hpp:249-289 | a task performed at most once aborts the program exactly if its last exchange fails spuriously |
| Tasks.PerformedOnceNeverAborts | include/isml/task/task.hpp:249-289 | without spurious failures, a task performed at most once never aborts the program |
| Tasks.SpuriousAbort | include/isml/task/task.hpp:287 | a schedule in which a single perform fails the assertion because the last exchange fails spuriously |
| Tasks.PromiseTellsOutcome | include/isml/task/task.hpp:267-288 | in every interleaving: the promise of a completed task has a value exactly if the one call of the function returned and an exception exactly if it threw; a value means that it returned; a cancelled task has no value |
| Tasks.ReportIsTrue | include/isml/task/task.hpp:186-201 | what tryCancel reports is true at its exchange: already in progress exactly if some thread is performing the task, already completed exactly if it has been performed and nobody is, success exactly if nobody has started it |
| Tasks.PerformRejectsCancelled | include/isml/task/task.hpp:251-265 | if some perform began after the cancellation and all calls have returned, the promise has the exception |
| Tasks.CancelledPromise | include/isml/task/task.hpp:253-265 | the promise of a cancelled task is unset exactly as long as every perform that made its check after the cancellation still has to reject it; when no call is under way, exactly if there was none |
| Tasks.LateCancelLeavesPromiseUnset | include/isml/task/task.hpp:253-267 | a schedule in which a cancel between check and start leaves the promise unset for good |
| Tasks.Task.CompareExchange | include/isml/task/task.hpp:191-213 | the new status, the result and the observed status of a compare-and-swap that may fail spuriously |
| Tasks.Task.TryCancel | include/isml/task/task.hpp:186-201 | a call of tryCancel is the cancelling step: it reports in progress or completed exactly for a task that was, and cancels one that was created unless the exchange fails spuriously |
| Tasks.Task.Perform | include/isml/task/task.hpp:249-289 | an undisturbed call of perform is its steps in sequence; on a new task the promise gets the value, or the exception if the function throws; on a cancelled one it gets the exception, or the program aborts; else nothing changes |
| ThreadPools.Chosen | src/executors/thread_pool_task_executor.cpp:78 | the worker woken is asleep, and can be any sleeper |
| ThreadPools.StepConserves | src/executors/thread_pool_task_executor.cpp:42-79 | each step keeps: submitted = taken followed by queued, and unperformed entries are held by exactly their worker |
| ThreadPools.PoolConserves | src/executors/thread_pool_task_executor.cpp:42-79 | so for any number of workers and any schedule every action is queued, held by one worker, or performed, and taken in submission order |
| ThreadPools.SubmittedIsGiven | src/executors/thread_pool_task_executor.cpp:56-79 | after any schedule, what was taken followed by what is queued is what doExecute was given, in order |
| ThreadPools.StepAttends | src/executors/thread_pool_task_executor.cpp:42-79 | each step keeps: something queued and not done means some worker is awake |
| ThreadPools.NoLostWakeup | src/executors/thread_pool_task_executor.cpp:42-79 | after any schedule with something queued and the pool not done, some awake worker takes the head within four steps of its own |
| ThreadPools.AsleepMeansFinished | src/executors/thread_pool_task_executor.cpp:47-53 | if all workers sleep and the pool is not done, everything submitted has been performed |
| ThreadPools.AwakeFallsAsleep | src/executors/thread_pool_task_executor.cpp:45-70 | with nothing queued and the pool not done, an awake worker is asleep after four steps of its own or fewer |
| ThreadPools.ShutdownLeaves | src/executors/thread_pool_task_executor.cpp:20-72 | when all workers have exited after the destructor’s notification, the queue is empty if a worker was taking or performing at that time, and else unchanged |
| ThreadPools.ShutdownDropsAction | src/executors/thread_pool_task_executor.cpp:20-54 | a pool with one worker that is shut down before it looks at the queue drops the action submitted to it |
| ThreadPools.ShutdownTerminates | src/executors/thread_pool_task_executor.cpp:20-72 | after that notification no worker sleeps, and the workers make at most a fixed number of steps, so the joins return |
| ThreadPools.TerminateStops | include/isml/executors/thread_pool_task_executor.hpp:59-60 | after doTerminate no awake worker goes to sleep, and the workers make at most a fixed number of steps |
| ThreadPools.TerminateWakesNobody | include/isml/executors/thread_pool_task_executor.hpp:59-60 | a pool whose workers all sleep stays as it is after doTerminate |
| ThreadPools.ThreadPoolTaskExecutor.constructor | src/executors/thread_pool_task_executor.cpp:11-18 | an empty pool with this many workers |
| ThreadPools.ThreadPoolTaskExecutor.DoExecute | src/executors/thread_pool_task_executor.cpp:74-79 | the action goes to the end of the queue, and if any worker sleeps one of them wakes, as the submission step |
| ThreadPools.ThreadPoolTaskExecutor.Shut | src/executors/thread_pool_task_executor.cpp:22-26 | sets done and wakes every sleeper, as the shutdown step |
| ThreadPools.ThreadPoolTaskExecutor.Take | src/executors/thread_pool_task_executor.cpp:58-67 | takes the head of the queue, or leaves the inner loop exactly if it is empty |
| ThreadPools.ThreadPoolTaskExecutor.Drain | src/executors/thread_pool_task_executor.cpp:56-70 | the undisturbed inner loop performs the whole queue in order, and is a run of worker steps |
| Deadlines.TimeLeftIsCeiling | include/isml/task/task_scheduler.hpp:177-181 | the time left is the time to the deadline rounded up to milliseconds, exactly if the clock is not behind the creation by a broken millisecond |
| Deadlines.OrderFollowsDeadlines | include/isml/task/task_scheduler.hpp:193-206 | at one instant the action with the earlier deadline is not greater |
| Deadlines.NeverSwaps | include/isml/task/task_scheduler.hpp:193-206 | two actions are never strictly ordered one way at one instant and the other way at another |
| Deadlines.TieBetweenNeighbours | include/isml/task/task_scheduler.hpp:193-206 | two actions less than a millisecond apart compare as equivalent at some instant |
| Deadlines.OrderIsStableExactlyWhenApart | include/isml/task/task_scheduler.hpp:193-206 | the comparison is that of the deadlines at every instant exactly if they are equal or a millisecond apart |
| Deadlines.OrderOnWholeClock | include/isml/task/task_scheduler.hpp:193-206 | on a clock of whole milliseconds the comparison is that of the deadlines, the first counting as later by what passes between its two clock readings |
| Deadlines.TellsExactlyIfSteady | include/isml/task/task_scheduler.hpp:193-206 | on any clock a comparison tells the order of all pairs of actions due at least w apart, w a millisecond or more, exactly if at most w passes between its two readings |
| Deadlines.WholeTellsExactlyIfSteady | include/isml/task/task_scheduler.hpp:193-206 | on a clock of whole milliseconds it tells the order of all pairs exactly if at most one passes |
| Heaps.PushKeeps | include/isml/task/task_scheduler.hpp:269 | a push adds the number of the pushed action and nothing else |
| Heaps.PopKeeps | include/isml/task/task_scheduler.hpp:303 | a pop removes the root and nothing else |
| Heaps.ClearIsFaithful | include/isml/task/task_scheduler.hpp:193-206 | if no action is due in the time w before an instant, and at most w passes between the two readings of a comparison, then no comparison of a push or pop puts an action due from that instant on above one due before it |
| Heaps.PushOrders | include/isml/task/task_scheduler.hpp:87-91 | then a push keeps this of every parent and child: if the parent is due from that instant on, so is the child; each of its comparisons reads the clock twice, at instants of its own |
| Heaps.PopOrders | include/isml/task/task_scheduler.hpp:87-91 | and so does a pop |
| Heaps.RootLeads | include/isml/task/task_scheduler.hpp:302 | if the root of such a heap is due from that instant on, so is everything in it |
| Heaps.ClearInstant | include/isml/task/task_scheduler.hpp:193-206 | such an instant is found before any other by going back less than w for each action due before it |
| Scheduler.StepConserves | include/isml/task/task_scheduler.hpp:256-319 | each event keeps: every accepted action is in the heap or in the log, once |
| Scheduler.RunConserves | include/isml/task/task_scheduler.hpp:256-319 | so after any events each accepted action is in the heap xor handed over exactly once |
| Scheduler.AcceptedIsGiven | include/isml/task/task_scheduler.hpp:256-269 | after any events, the accepted actions are those given to doSchedule, in order, with their delays and times |
| Scheduler.RunIsTimed | include/isml/task/task_scheduler.hpp:286-313 | in every run the wait lasts the current delay from its beginning, and the timestamp is no younger than that |
| Scheduler.EmptyHeapIsNoticed | include/isml/task/task_scheduler.hpp:243-276 | with an empty heap any bounded delay is shorter than the time left, so it updates the wait |
| Scheduler.ScheduleKeepsInv | include/isml/task/task_scheduler.hpp:256-277 | a schedule call keeps: the wait, present or next, ends no sooner than some pending deadline |
| Scheduler.ExecuteKeepsInv | include/isml/task/task_scheduler.hpp:298-313 | so does handing over the root and computing the next delay |
| Scheduler.WaitCoversADeadline | include/isml/task/task_scheduler.hpp:286-313 | on any clock, while the reason is ExecuteTask and something is pending, the wait ends no sooner than some pending deadline |
| Scheduler.RunKeepsOrder | include/isml/task/task_scheduler.hpp:256-319 | the heap built by the pushes and pops of a whole run stays in that order, whatever the clock shows at each of their readings |
| Scheduler.PopsEarliest | include/isml/task/task_scheduler.hpp:302-303 | so the root has the earliest deadline of all that is pending, unless another is due in the time w before it |
| Scheduler.NeverEarly | include/isml/task/task_scheduler.hpp:256-319 | in every interleaving of schedule calls, timeouts and watcher steps with bounded delays, on any clock: an action is handed over only when its delay has elapsed, unless another is due in the time w before it, w being at least a millisecond and at least what passes between the two readings of any comparison |
| Scheduler.EarlyByLess | include/isml/task/task_scheduler.hpp:256-319 | in any case it is early by less than w for each action due before it |
| Scheduler.GapSufficesExactlyIf | include/isml/task/task_scheduler.hpp:193-319 | the condition is exact: being the only one due in a time g keeps an action from being early in every run exactly if g is at least a millisecond and at least what may pass between two readings |
| Scheduler.NeverEarlyOnWholeClock | include/isml/task/task_scheduler.hpp:193-319 | on a clock of whole milliseconds, with at most one between the two readings of each comparison, no action is ever early |
| Scheduler.WholeSufficesExactlyIf | include/isml/task/task_scheduler.hpp:193-319 | on such a clock no action is early in any run exactly if fewer than two milliseconds may pass between two readings |
| Scheduler.EarlyAtMostBySlack | include/isml/task/task_scheduler.hpp:256-319 | on any clock, early at most by what the root of the heap was ever out of order |
| Scheduler.SlackIsBounded | include/isml/task/task_scheduler.hpp:256-319 | and that is less than w for each accepted action |
| Scheduler.OverlookedExactlyIf | include/isml/task/task_scheduler.hpp:271-276 | a schedule call overlooks its delay exactly if that is no shorter than the time left it computes but ends before the wait does |
| Scheduler.OverlooksExactlyIf | include/isml/task/task_scheduler.hpp:228-277 | there is a delay that a call overlooks exactly if more whole milliseconds have passed since the timestamp than time since the wait began |
| Scheduler.LateAtMostByTimestamp | include/isml/task/task_scheduler.hpp:228-277 | the wait outlasts a new deadline at most by the lag of the call and the age of the timestamp when the wait began |
| Scheduler.StaleTimestampDelays | include/isml/task/task_scheduler.hpp:228-277 | a run in which this happens: the wait ends 4 ms after a deadline |
| Scheduler.EarlyOnWholeClock | include/isml/task/task_scheduler.hpp:193-206 | a run on a clock of whole milliseconds, 2 ms between the readings of one comparison, that hands an action over 1 ms early |
| Scheduler.FineClockMisorders | include/isml/task/task_scheduler.hpp:193-206 | a run on a finer clock, each comparison at one instant, that leaves an action in the heap above one due almost a millisecond before it |
| Scheduler.EarlyOnFineClock | include/isml/task/task_scheduler.hpp:193-319 | a continuation of this run that hands the first of them over almost a millisecond early |
| Scheduler.EarlyAcrossReadings | include/isml/task/task_scheduler.hpp:193-206 | for every w of at least a millisecond, a run with w between the two readings of a comparison in which an action is early, the only other one being due w less a nanosecond before it |
| Scheduler.TaskScheduler.constructor | include/isml/task/task_scheduler.hpp:208-217 | nothing scheduled, the longest delay, reason UpdateDelay |
| Scheduler.TaskScheduler.DoSchedule | include/isml/task/task_scheduler.hpp:256-277 | the new state and whether the watcher is notified are those of the schedule event; the heap gains the new action and nothing else |
| Scheduler.TaskScheduler.Wake | include/isml/task/task_scheduler.hpp:289-313 | the new state after the switch is that of the wake event; the root is handed over, and the new delay, in whole milliseconds, is what is left of the next root, rounded up |
| Punctuality.NextWaitIsExact | include/isml/task/task_scheduler.hpp:298-313 | in every run, after each hand-over the next wait ends when the root of the heap is due or less than a millisecond later, but for the time between the last two readings; with nothing left, an hour before the end of the clock |
| Punctuality.NextWaitIsWhole | include/isml/task/task_scheduler.hpp:298-313 | on a clock of whole milliseconds exactly when the root is due |
| Punctuality.RunIsInTime | include/isml/task/task_scheduler.hpp:256-319 | in every run with bounded delays in which every new delay is heeded: everything pending and everything handed over is late at most by the rounding, the disorder of the root, and the time lost in calls, in hand-overs and outside waits |
| Punctuality.LateAtMost | include/isml/task/task_scheduler.hpp:256-319 | so an action is handed over less than a millisecond late, but for that disorder and lost time |
| Punctuality.NothingIsOverdue | include/isml/task/task_scheduler.hpp:256-319 | nor does anything stay pending longer |
| Punctuality.ExactlyOnTime | include/isml/task/task_scheduler.hpp:256-319 | on a clock of whole milliseconds every action is handed over when its delay is over, neither early nor later than by the time lost |
| Punctuality.DelayedTwice | include/isml/task/task_scheduler.hpp:286-296 | a call that comes between two waits is not heeded: for any delay within the bounds, a run without lost time that hands the action over after twice its delay |
| Frames.SplitIsUnique | src/transport/tcp_transport.cpp:169-217 | whatever list of frames an input consists of, with an incomplete one at its end, is what the reader finds |
| Frames.SplitLosesNothing | src/transport/tcp_transport.cpp:169-217 | every input is such a list: nothing is lost or added |
| Frames.SplitInParts | src/transport/tcp_transport.cpp:169-217 | reading on after part of the input gives the frames of the whole |
| Frames.PiecesDoNotMatter | src/transport/tcp_transport.cpp:169-217 | how the connection cuts the stream makes no difference |
| Frames.BufferIsFilledExactly | src/transport/tcp_transport.cpp:126-145 | the bytes fill the buffer of the declared length exactly if they are fewer than 65536, and the first two always decode to that length |
| Frames.WrittenIsNoFrame | src/transport/tcp_transport.cpp:132-144 | a written message alone is never a frame for the reader; with more input behind it, the body found ends with the next two bytes |
| Frames.ParseOfBody | src/transport/tcp_transport.cpp:258-274 | a registered type followed by the bytes of a message of that type is recognised as that message |
| Frames.ParseOfUnknown | src/transport/tcp_transport.cpp:258-267 | a type that is not registered is not recognised, whatever follows |
| Transport.SentKeeps | src/transport/tcp_transport.cpp:58-66 | between handlers nothing is queued for writing, so each message is given to the socket at once |
| Transport.StepKeepsInv | src/transport/tcp_transport.cpp:58-256 | each handler keeps maps, promises, queues and routing in agreement and changes no settled promise |
| Transport.RunKeepsInv | src/transport/tcp_transport.cpp:58-256 | so this holds after every run of handlers |
| Transport.SettledForGood | src/transport/tcp_transport.cpp:107-117 | a promise is set at most once |
| Transport.ExactlyOnce | src/transport/tcp_transport.cpp:75-124 | after any run with distinct identifiers: both maps have the same keys, and each request is pending in them, or answered by exactly one of the messages read, which carries its identifier, or expired |
| Transport.BrokenExactlyIfPending | src/transport/tcp_transport.cpp:75-86 | the promise of a new request is dropped exactly if its identifier is pending already |
| Transport.StampIsIssueTime | src/transport/tcp_transport.cpp:75-86 | after any run, the requests are the calls of doRequest in order, and the time stamp of a pending one is the time of its call |
| Transport.ExpiryIsExact | src/transport/tcp_transport.cpp:88-124 | in any order of iteration exactly the pending requests issued 31 seconds or longer before their turn expire; all others stay |
| Transport.GoesToOnePlace | src/transport/tcp_transport.cpp:219-256 | a recognised message answers the pending request it names, or else goes to the end of the queue; one with a source of the wrong type changes nothing |
| Transport.WrittenIsGiven | src/transport/tcp_transport.cpp:58-86 | after any run, what was given to the socket is the messages given to doSend and doRequest, in order |
| Transport.ReceivedInOrder | src/transport/tcp_transport.cpp:68-73 | after any run, what was received and what is queued are together the messages that arrived and replied to nothing pending then, in order of arrival |
| Transport.ReceivesNext | src/transport/tcp_transport.cpp:68-73 | each doReceive hands out the next of them, if there is one |
| Transport.SourceIsField | src/transport/tcp_transport.cpp:234-236 | a message names an identifier exactly if it has the field srcMsgId with that 32-bit number, and none exactly if it has no field of that name |
| Transport.ReplyReachesItsRequest | src/transport/tcp_transport.cpp:219-274 | from byte to promise: a body with the bytes of a reply, in any layout and from any host, sets the promise of the request it names to that very message |
| TcpTransports.MessageQueue.Push | src/message/message_queue.cpp:30-33 | the message goes to the end |
| TcpTransports.MessageQueue.Pull | src/message/message_queue.cpp:35-45 | the oldest message, or nothing |
| TcpTransports.TcpTransport.WriteMessage | src/transport/tcp_transport.cpp:126-130 | takes the next outgoing message, if any |
| TcpTransports.TcpTransport.DoSend | src/transport/tcp_transport.cpp:58-66 | if nothing is queued the message is written at once, else it goes to the end of the queue |
| TcpTransports.TcpTransport.DoReceive | src/transport/tcp_transport.cpp:68-73 | removes and returns the oldest queued message, or nothing |
| TcpTransports.TcpTransport.DoRequest | src/transport/tcp_transport.cpp:75-86 | maps the identifier to the new promise and to the present time unless it is there, and sends the message |
| TcpTransports.TcpTransport.RemoveExpiredRequests | src/transport/tcp_transport.cpp:88-124 | the two loops expire exactly the overdue requests, in an arbitrary order of the keys |
| TcpTransports.TcpTransport.ExpireRequest | src/transport/tcp_transport.cpp:101-123 | one turn of the second loop, with the exception branch |
| TcpTransports.TcpTransport.Answer | src/transport/tcp_transport.cpp:236-242 | sets the promise and forgets the request in both maps |
| TcpTransports.TcpTransport.OnMessageRead | src/transport/tcp_transport.cpp:219-256 | routes one parsed message as the routing function says |
| TcpTransports.TcpTransport.OnLength | src/transport/tcp_transport.cpp:169-192 | the handler of a length takes two bytes and none of the body |
| TcpTransports.TcpTransport.OnBody | src/transport/tcp_transport.cpp:194-217 | the handler of a body takes exactly the body of the first frame and routes it |
| TcpTransports.TcpTransport.Deliver | src/transport/tcp_transport.cpp:169-217 | any piece of input: the bodies handled are the complete frames of everything unread, in order |
| TcpTransports.WriteToStream | src/transport/tcp_transport.cpp:132-141 | length and message as the stream holds them |
| TcpTransports.FillBuffer | src/transport/tcp_transport.cpp:126-145 | the buffer given to the socket holds exactly these bytes, if they are fewer than 65536 |
| UrlScan.ScanOfCompose | include/isml/net/url.hpp:55 | parts that match greedily are found again in the string they compose: the match is determined |
| UrlScan.ScanIsGreedy | include/isml/net/url.hpp:55 | what the scanner finds is such a match of the whole string |
| UrlScan.ScanFindsAnyMatch | src/net/url.cpp:98-100 | if the string has any match of the pattern, the scanner finds one |
| UrlNumbers.StoiOfNumeral | src/net/url.cpp:122-130 | after blanks and a sign, the digits at the front are read whatever follows, if the number fits an int; without digits nothing is |
| UrlNumbers.StoiOfDecimal | src/net/url.cpp:122-130 | a printed port is read back exactly if it fits an int |
| UrlNumbers.StoiOfNegative | src/net/url.cpp:122-130 | a minus sign and digits are read as a negative number if that fits an int |
| UrlNumbers.NegativePorts | src/net/url.cpp:125 | the ports that do not fit are those that came from negative numbers, plus 2^32 |
| UrlQuery.MatchIsOneParam | include/isml/net/url.hpp:56 | of all matches of the repeated group, in the order in which backtracking tries them, the first is a single parameter: a second repetition is never entered |
| UrlQuery.ParamLengthIsLongest | include/isml/net/url.hpp:56 | it is the longest single parameter at the front |
| UrlQuery.SearchIsLeftmost | src/net/url.cpp:145 | the search finds the leftmost parameter at its full length, and nothing only if there is none |
| UrlQuery.PairsAreWords | src/net/url.cpp:145-161 | every key and value found is a nonempty run of letters and digits |
| UrlQuery.PairsOfJoin | src/net/url.cpp:140-165 | the loop finds printed parameters again, in the printed order |
| UrlQuery.LastValueStays | include/isml/net/url.hpp:61-65 | of several values for a key the last one stays |
| UrlQuery.AddAllOfListed | src/net/url.cpp:80-91 | adding the entries of a map in any order of iteration gives the map again |
| Urls.ParseIsParsed | src/net/url.cpp:96-168 | what a parsed URL looks like: nonempty protocol and host without separators, a path that is empty or absolute, parameters of letters and digits |
| Urls.ParseOfText | src/net/url.cpp:64-168 | for every such URL and every order of its parameters, the printed text parses to the same URL exactly if the port fits an int, and is an invalid port otherwise |
| Urls.ParseOfSignedText | src/net/url.cpp:96-168 | written as a negative number, a port that does not fit an int does parse |
| Urls.ParsedExactlyIf | src/net/url.cpp:96-168 | so the URLs that parsing returns are exactly those of the shape above |
| Urls.SomePortIsNotReadBack | src/net/url.cpp:64-168 | a://b:-1 parses to a URL whose printed text does not parse |
| Urls.ParseTextParse | src/net/url.cpp:64-168 | parse, print, parse gives what the first parse gave, exactly under that condition |
| Urls.TextIdentifies | src/net/url.cpp:64-168 | two printed URLs parse alike exactly if they are the same |
| Urls.ParseOfComposed | src/net/url.cpp:96-168 | any matching parts with protocol and host, put together, parse to what they say: host, port number, path and parameters, whatever the fragment |
| Urls.CannotParseExactlyIf | src/net/url.cpp:98-100 | a string is refused as no URL reference exactly if no parts that match make it up |
| Urls.MissingPart | src/net/url_builder.cpp:45-54 | a URL without protocol, or without host, has its own error |
| Urls.ParseOfBuilt | src/net/url.cpp:64-94 | any URL that can be built from proper parts is printed so that it parses to the same URL, except that its path becomes absolute and takes up the query |
| Urls.PrintsBackExactlyIf | src/net/url.cpp:64-168 | a text that parses is printed as it was, for some order of its parameters, exactly if it has no fragment, its parameters are joined by & with different keys, and its port is absent or printed without sign or zeros in front and not 0 |
| Urls.UrlBuilder.AddParameters | src/net/url.cpp:140-165 | the shrinking loop adds all parameters of the query, later values replacing earlier ones |
| Urls.UrlBuilder.BuildUrl | src/net/url_builder.cpp:45-54 | an empty protocol or host is an error |
| Urls.ParseUrl | src/net/url.cpp:96-168 | the imperative parser computes the parse function, errors included |
| Urls.AppendParameters | src/net/url.cpp:80-91 | the loop appends the parameters in the order of iteration |
| Urls.ToString | src/net/url.cpp:64-94 | the imperative printer computes the text, for any URL and order of the parameters |
| JsonMerge.Associative | include/isml/io/json_utils.hpp:66-86 | merging objects is associative, at every depth |
| JsonMerge.UnchangedExactlyIf | include/isml/io/json_utils.hpp:66-86 | a merge changes nothing exactly if each member on the right is on the left, with the same value or as an object it in turn does not change |
| JsonMerge.AssociativeExactlyIf | include/isml/io/json_utils.hpp:66-86 | for any values, exactly when the middle is an object or the right one brings nothing new to the left one in that sense |
| JsonMerge.MergeItself | include/isml/io/json_utils.hpp:66-86 | merging a value into itself changes nothing |
| JsonMerge.MergeTwice | include/isml/io/json_utils.hpp:66-86 | merging the same right side a second time changes nothing |
| JsonMerge.EmptyIsUnit | include/isml/io/json_utils.hpp:66-86 | the empty object is a unit on the right, and on the left of exactly the objects |
| JsonMerge.MergedKeys | include/isml/io/json_utils.hpp:73-83 | the member names are the union |
| JsonMerge.ObjectsStay | include/isml/io/json_utils.hpp:75-78 | an object on the left, at any path, stays an object |
| JsonMerge.ValuesComeFromEither | include/isml/io/json_utils.hpp:73-83 | what is not an object stands at the same path on the left or on the right |
| JsonMerge.RightSideWins | include/isml/io/json_utils.hpp:79-82 | inside an object both have, the right side replaces what is absent or no object |
| JsonMerge.JsonValue.MergeFrom | include/isml/io/json_utils.hpp:66-86 | the in-place recursive loop, in any order of the names, computes the merge, and returns whether both are objects |
| PubSub.PubSubMessageChannel.Subscribe | src/message/channels/pubsub_message_channel.cpp:82-95 | a new identifier is added; a known one is refused and keeps its session |
| PubSub.PubSubMessageChannel.HelperUnsubscribe | src/message/channels/pubsub_message_channel.cpp:103-113 | removes the subscriber and notifies once, or reports that there is none |
| PubSub.PubSubMessageChannel.Unsubscribe | src/message/channels/pubsub_message_channel.cpp:97-101 | as above, with the reason that the subscriber left |
| PubSub.PubSubMessageChannel.InternalSend | src/message/channels/pubsub_message_channel.cpp:53-80 | in any order of iteration: a clone is made for each active subscriber, with the next identifier and the fields reversed; exactly those that do not throw remain, each with its clone; the others are removed with one notice each |
| PubSub.ClonesDiffer | src/message/channels/pubsub_message_channel.cpp:57-66 | fewer than 2^32 clones have different identifiers |
| PubSub.PubSubMessageChannel.VisitSubscribers | src/message/channels/pubsub_message_channel.cpp:57-74 | the first loop sends one clone to each active subscriber and collects exactly the broken ones |
| PubSub.PubSubMessageChannel.RemoveBroken | src/message/channels/pubsub_message_channel.cpp:76-79 | the second loop removes them, one notice each |

## Left out

- Sockets, name resolution, `io_context`, signals, service life cycles, factories and registries: I/O and foreign calls. The transport is modelled between completion handlers; error codes and disconnection are not.
- Thread creation and the insides of mutexes and condition variables: a region under a lock is one step, waiting is a set of sleepers. The pool's waits include spurious wake-ups; its `notify_one` wakes any one sleeper.
- Scheduler.NeverEarly: assumes that the watcher has no spurious wake-ups (it does not check the deadline again after a wait), that delays end before the longest wait does (`Scheduler.Bounded`), and that the clock does not go back.
- Punctuality.LateAtMost: for runs in which every new delay is heeded (`Punctuality.Heeded`): no call shortens the wait from between two waits, and none is overlooked while the watcher is awake. Without the first an action can be late by its whole delay (`Punctuality.DelayedTwice`), without the second by what was left of the wait (`Scheduler.StaleTimestampDelays`).
- Heaps.PushOrders: the C++ standard does not fix the algorithm of a heap; the one modelled lets a leaf rise on a push, and on a pop lets the hole sink to a leaf and the last leaf rise from there.
- The scheduler's `doTerminate` and destructor: a later schedule call can overwrite the Terminate reason, so there is no clean claim. The watcher is taken to start after the constructor has initialised all members.
- Overflow of 64-bit clock arithmetic.
- CodecStream.Deserialize: a read that fails (too few bytes, a bool byte other than 0 and 1, an array count that fails its assertion) ends the reading with no claim about the target; the stream of the source would take what bytes there are and go on with what the target holds.
- CodecStream.DeserializeContainer: the same.
- CodecStream.ReadScalar: a failed read consumes nothing; in the source it uses up what is left of a stream that no later read can use.
- The meaning of floating-point values: they are byte strings. Enumerations are their underlying integers. The codec is called directly, not through the serializer tag of a field.
- Codec items: a sequence longer than 65535 is excluded from writing (the source asserts it); arrays, sets and maps of any length are covered.
- Serializable objects are nested pairs of their members; an object that serializes its members conditionally is not covered.
- Fields.FieldSet.Deserialize: requires that each field holds a value of its type, which every field does in the source by its C++ type.
- Messages: moving from a message or a field set. A moved-from object is not modelled; a move into a set is its swap.
- Transport.SentKeeps: calls of `doSend` do not overlap here. In the source it takes no lock, and of two that overlap one may see the message of the other and leave its own queued until the next write completes. What becomes of a write under way when the next message takes its buffer is the socket's affair.
- Transport.WrittenIsGiven: so it is for such calls.
- Transport.ExactlyOnce: assumes distinct identifiers, which `Messages.IdsRepeat` gives for fewer than 2^32 messages; repeated ones are covered by `Transport.BrokenExactlyIfPending`.
- Transport: a send that throws out of `doRequest`. A body too short for its message (`Frames.Parse` calls it malformed, while the source would queue a message with default values); the routing theorems hold for whatever a body is parsed to.
- Frames.WrittenIsNoFrame: the reader is on a little-endian host; the source reads the length into memory without swapping, and `Frames.LengthOf` has the host as a parameter.
- TcpTransports.FillBuffer: requires fewer than 65536 bytes; beyond that the source copies more bytes than the buffer has.
- PubSub.PubSubMessageChannel.InternalSend: the handler of a removal is told the session's identifier and reason, and does not throw; in the source it gets a reference into the map entry that has just been erased. `publishWithProducer` differs only in who makes the message.
- `std::regex` in general: the two fixed patterns are scanners. Locales, and wide characters that end a line, are not modelled.
- Urls.ParseOfBuilt: protocol, host and parameters must be free of separators; what toString makes of others is not described. `m_query`, which parsing never fills, is printed as the source prints it.
- JsonMerge: `isObject` is true of objects only (JsonCpp since 1.0). Comments attached to JSON values are not modelled, nor is reading and writing JSON text. Merging works on a copy of a member that is then stored back, not on a reference into its parent.
- `Maybe`, `Result`, properties, guards, listeners, filters, dispatchers, sessions, service managers and the composite serializer: thin, and they would add only easy members.

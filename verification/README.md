# Verified models of five libzmq components

This project models the core of libzmq 4.3.1 in Dafny and proves what that core promises:

* **Pipes.** Two `pipe_t` ends with their message queues and command channels run as a state machine
  (`PipeProtocol`); handlers are cut where they touch something the other thread can see. Invariants are
  in `PipeInvariant`, results over all interleavings in `PipeTheorems`, the end of termination in
  `PipeProgress`, what users can count on in `PipeDelivery`, and the object with its fields in `PipeObject`.
  `Queues` is the contract of the queue between the ends; `YPipe` shows that the lock-free code keeps it.
* **Mailbox.** Any number of senders and one receiver, step by step, over that lock-free queue
  (`Mailbox`; `MailboxProgress` shows that commands arrive).
* **Subscription indexes.** `Mtrie` works on nodes with tables that grow and are compacted; `TrieSpec`
  is what it stands for. `RadixTree` works on a memory of byte blocks; `RadixBlock` holds the edits of
  one block, `RadixSpec` the tree without memory, `RadixStore` the relation between the two.
* **Schedulers.** `FairQueue` (runs in `FairQueueRuns`), `LoadBalancer` (runs in `LoadBalancerRuns`, fairness
  in `LoadBalancerTurns`) and `Dist` (runs in `DistSpec`, who gets what in `DistDelivery`) over the array of
  `PipeArray`; `Messages` has the reference counts that fan-out relies on.
* **Handshake metadata.** `Metadata` is the property list of RFC 23/ZMTP, `Mechanism` the socket's side.

`Bytes`, `Sequences` and `Frames` hold what several of them share.

`dafny verify dfyconfig.toml` checks everything.

## Findings

* Credential frames are counted when written but not when read, so they use up the high watermark for
  good: `PipeTheorems.StalledExactlyByCredentials` says exactly when a writer stalls.
* `fq_t` does not clear `_more` when a pipe goes away, and `pipe_t` does not promise the rest of an open
  message once it is terminated without delay, as `term_endpoint` does (socket_base.cpp:994-998;
  `PipeTheorems.TerminationStopsReading`, `NothingAfterTermination`). Before the pipe is removed, the next `recv` fails
  the assertion at fq.cpp:100: `FairQueue.AssertionHoldsExactly` says when it holds, `AssertionCanFail` names an
  input, and in runs without harmful removals such a pipe is the only cause (`FairQueueRuns.AssertionFailsExactly`).
  Once the pipe is removed, a frame of another pipe is taken as the rest of the message
  (`FairQueue.OpenMessageCanChangePipe`, `FairQueueRuns.TwoMessagesMixed`).
* Removing another active pipe in the middle of a message can also move the cursor of `fq_t` and `lb_t` to
  a different pipe: `FairQueue.CursorStaysExactly` and `OpenMessageContinuesExactly` cover every removal. `lb_t` drops the
  rest of a message whose own pipe goes, but after a jump another pipe publishes the rest without the beginning
  (`LoadBalancerRuns.TailOnAnotherPipe`). `LoadBalancerRuns.RunIsWholeExactly` and `FairQueueRuns.RunIsSteadyExactly`
  say exactly which runs keep messages whole.
* `lb_t` forgets a message whose last part was refused. A caller that offers that part again, as
  EAGAIN suggests in non-blocking mode, sends it as a message of its own; an earlier part offered again is
  dropped (`LoadBalancer.RefusedFrameIsForgotten`). In `LoadBalancerRuns` a refused frame is not offered again.
* `dist_t::activated` takes its pipe for passive. A subscription that `xsub_t` could not write leaves an eligible
  pipe that is reported writable later (xsub.cpp:79-82, xsub.cpp:254); the call then raises a passive pipe in its
  place, unless there is none (`Dist.Dist.Activated`). In the middle of a message that goes to the eligible pipe this
  tears the message, and only then (`DistSpec.DisplacingIsSafeExactly`, `DisplacingCanTear`).
* `dist_t::distribute` copies small messages byte by byte. Metadata on such a message is not counted
  (`Dist.FanOutCountsMetadataExactly`); the socket removes metadata before sending (socket_base.cpp:1036).
* `dist_t` lets a message turn from the matching pipes to all pipes between its parts, which tears it
  unless all active pipes match (`DistSpec.SwitchingToAllExactly`, `SwitchingToAllIsSafeExactly`); no socket does so.
* The 2^32nd copy of a key makes a radix tree lose the key (`RadixTree.RadixTree.Add`).
* `parse_metadata` accepts a list whose last property is cut off at two particular places
  (`Mechanism.AcceptsExactly`), although its comment describes a list of whole properties.

## Model

| member | source | states |
|---|---|---|
| `PipeTheorems.TerminationIsSafe` | zeromq-4.3.1/src/pipe.cpp:303-473 | In every interleaving of two pipe ends no `zmq_assert` fails and no freed queue or end is touched; each end sends at most one `pipe_term` and one `pipe_term_ack`; an end that is gone has sent its ack, nothing is in flight to it, and its peer no longer holds its queue |
| `PipeTheorems.SilentAfterAck` | zeromq-4.3.1/src/pipe.cpp:243-255 | After its `pipe_term_ack` an end sends no command, leaves its outbound queue alone and never gets it back, whatever it is asked to do |
| `PipeTheorems.HandshakeCannotStall` | zeromq-4.3.1/src/pipe.cpp:303-388 | When no command and no unfinished handler is left, nothing was terminated, or both ends are gone, or one end is awake and reading towards a delimiter that is published |
| `PipeProgress.TerminationCompletes` | zeromq-4.3.1/src/pipe.cpp:303-473 | From every state that a run reaches after `terminate` at either end, both ends are gone once they have received commands, finished handlers and read in turns, in any interleaving, for more rounds than a stated measure of the work left |
| `PipeProgress.WorkIsBounded` | zeromq-4.3.1/src/pipe.cpp:119-473 | In every run, with any calls in between, the steps that do anything other than write or request termination are at most as many as there was work at first and work brought by writes and requests |
| `PipeProgress.StuckMeansGone` | zeromq-4.3.1/src/pipe.cpp:303-473 | When no receive, resume or read of either end changes anything after `terminate`, both ends are gone |
| `PipeTheorems.DeliveryInOrder` | zeromq-4.3.1/src/pipe.cpp:147-241 | What an end has read is, in order, a prefix of the complete messages its peer wrote (credential frames left out); after the peer's delimiter it is all of them; only whole messages are published; in both directions |
| `PipeTheorems.DormantReaderIsWoken` | zeromq-4.3.1/src/pipe.cpp:119-190 | A dormant reader with published data has exactly one `activate_read` in flight or about to be sent |
| `PipeTheorems.WatermarkBound` | zeromq-4.3.1/src/pipe.cpp:560-565 | peers_msgs_read <= msgs_read of the peer <= msgs_written, and msgs_written <= msgs_read of the peer + hwm when hwm > 0, so the unsigned subtraction never wraps; both ends |
| `PipeTheorems.StalledExactlyByCredentials` | zeromq-4.3.1/src/pipe.cpp:183-226 | With the reader caught up and no progress report in flight, an active writer may write if and only if credential messages written plus messages read since the last report are fewer than hwm |
| `PipeTheorems.NoStalledWriter` | zeromq-4.3.1/src/pipe.cpp:480-501 | Without credential frames a writer whose reader has caught up is never held back |
| `PipeTheorems.NoStalledPeer` | zeromq-4.3.1/src/pipe.cpp:480-501 | The same with the other end as the writer |
| `PipeTheorems.CredentialStallsWriter` | zeromq-4.3.1/src/pipe.cpp:164-169 | The input on which the no-stall claim fails: one credential message with hwm 1 leaves the writer full although everything was read and no report is in flight |
| `PipeTheorems.HwmIsConstant` | zeromq-4.3.1/src/pipe.cpp:57-78 | The high watermarks stay as `pipepair` set them |
| `PipeTheorems.MirroredRun` | zeromq-4.3.1/src/pipe.cpp:12-43 | Exchanging the two ends maps runs to runs, so every result about one end holds of the other |
| `PipeTheorems.TerminationStopsReading` | zeromq-4.3.1/src/pipe.cpp:303-344 | An end that is terminated without delay cannot be read any more; with delay it can exactly if its peer had asked. An active end that is asked by its peer can be read on exactly if delay is on, which `set_nodelay` prevents |
| `PipeTheorems.NothingAfterTermination` | zeromq-4.3.1/src/pipe.cpp:119-473 | From then on no run of the two ends delivers another frame |
| `PipeTheorems.MessageCanBeOpen` | zeromq-4.3.1/src/pipe.cpp:147-190 | A run that reads the first part of a published message, so that termination can cut the message |
| `PipeDelivery.NothingIsLost` | zeromq-4.3.1/src/pipe.cpp:303-473 | If one end asks for termination and the other neither terminates before being asked, nor without delay, nor calls `set_nodelay`, then both are gone after more rounds than there was work, and the other has read every message that had been completed |
| `PipeDelivery.AckComesLast` | zeromq-4.3.1/src/pipe.cpp:314-344 | Over all runs such an end acknowledges only when it has read all that its peer completed |
| `PipeDelivery.FlushedIsDelivered` | zeromq-4.3.1/src/pipe.cpp:243-255 | Without termination, everything completed before a flush is read after more rounds than there was work, whether or not the reader was asleep |
| `PipeDelivery.QueueHoldsWhatWasWritten` | zeromq-4.3.1/src/pipe.cpp:207-241 | Over all runs what an end committed, and what its queue has held, are the frames it was allowed to write, in order, but for messages that were rolled back; the unfinished message is at the end |
| `PipeDelivery.WriteQueues` | zeromq-4.3.1/src/pipe.cpp:207-226 | A frame that may be written is in the queue behind everything else, whatever kind of frame it is; otherwise nothing is written |
| `PipeDelivery.CanWriteExactly` | zeromq-4.3.1/src/pipe.cpp:192-226 | Over all runs a message may be written if and only if nobody terminates and fewer than hwm messages are not known to be read |
| `PipeDelivery.CheckWriteSettles` | zeromq-4.3.1/src/pipe.cpp:192-205 | After `check_write` the active flag says whether a message may be written, and nothing else has changed |
| `PipeDelivery.ReadDelivers` | zeromq-4.3.1/src/pipe.cpp:147-190 | Over all runs a read of an awake end hands out the first frame in its queue that is no credential |
| `PipeDelivery.CheckReadSettles` | zeromq-4.3.1/src/pipe.cpp:119-145 | After `check_read` an end that still seems readable has a frame; with an empty queue it is dormant, and a delimiter has been consumed |
| `PipeDelivery.ReadersSeeWhatIsVisible` | zeromq-4.3.1/src/pipe.cpp:156-181 | Readers get a prefix of the frames that are neither credentials nor delimiters |
| `PipeDelivery.CountersCount` | zeromq-4.3.1/src/pipe.cpp:176-226 | The counters are the numbers of complete messages written and read, routing ids left out |
| `PipeDelivery.ReportsAreTimely` | zeromq-4.3.1/src/pipe.cpp:183-187 | With no report in flight a writer knows of all messages read but for fewer than half the watermark, rounded up |
| `PipeDelivery.LowWatermark` | zeromq-4.3.1/src/pipe.cpp:480-501 | The low watermark is half the high one, rounded up, with the truncation of C++ for negative values; it is below a positive high watermark, as the comment asks, unless that is 1 |
| `PipeDelivery.TerminationStopsWriting` | zeromq-4.3.1/src/pipe.cpp:400-473 | Once termination was asked for an end writes nothing more, and its delay is the one it was given |
| `PipeInvariant.StepKeepsInv` | zeromq-4.3.1/src/pipe.cpp:119-473 | Every step of either thread keeps the handshake, watermark, content, delimiter and wake-up invariants together |
| `PipeInvariant.RunKeepsInv` | zeromq-4.3.1/src/pipe.cpp:119-473 | So does every run |
| `PipeInvariant.PipepairInv` | zeromq-4.3.1/src/pipe.cpp:12-43 | A fresh pair satisfies them for all watermarks |
| `PipeInvariant.TakeFrameKeepsFlow` | zeromq-4.3.1/src/pipe.cpp:183-187 | Reading a frame keeps: the last report sent is the number of messages read, rounded down to a multiple of lwm |
| `PipeInvariant.ReceiveKeepsHandshake` | zeromq-4.3.1/src/pipe.cpp:303-388 | Each command finds the end in a state that its handler expects, and leaves the two counters of terms and acks consistent with what is in flight |
| `PipeProtocol.SkipCredentials` | zeromq-4.3.1/src/pipe.cpp:156-174 | The loop of `read` stops at a frame that is no credential and loses or reorders nothing |
| `PipeObject.Pipe.constructor` | zeromq-4.3.1/src/pipe.cpp:57-78 | The object starts as an end of a fresh pair |
| `PipeObject.Pipe.CheckRead` | zeromq-4.3.1/src/pipe.cpp:119-145 | The object does what the protocol step does and returns true exactly when a frame is published |
| `PipeObject.Pipe.Read` | zeromq-4.3.1/src/pipe.cpp:147-190 | The object does what the protocol step does; a frame is returned exactly when one is published after the credentials, and it is the one added to what was delivered |
| `PipeObject.Pipe.CheckWrite` | zeromq-4.3.1/src/pipe.cpp:192-205 | Returns whether a write is possible and marks a full pipe |
| `PipeObject.Pipe.Write` | zeromq-4.3.1/src/pipe.cpp:207-226 | In every reachable state the queue pointer is not NULL and the frame is written, committed with its predecessors when it is the last |
| `PipeObject.Pipe.Rollback` | zeromq-4.3.1/src/pipe.cpp:228-241 | Takes back exactly the unfinished message; every frame taken back carries `more`, as the source asserts |
| `PipeObject.Pipe.Flush` | zeromq-4.3.1/src/pipe.cpp:243-255 | Publishes what is complete and wakes a sleeping reader |
| `PipeObject.Pipe.ProcessActivateRead` | zeromq-4.3.1/src/pipe.cpp:257-264 | The reader becomes active again |
| `PipeObject.Pipe.ProcessActivateWrite` | zeromq-4.3.1/src/pipe.cpp:266-276 | Progress of the peer is noted and the writer becomes active again |
| `PipeObject.Pipe.ProcessPipeTerm` | zeromq-4.3.1/src/pipe.cpp:303-344 | In every reachable state the state assertion holds and the answer is that of the protocol |
| `PipeObject.Pipe.ProcessPipeTermAck` | zeromq-4.3.1/src/pipe.cpp:346-388 | In every reachable state the state assertion holds; the inbound queue is drained |
| `PipeObject.Pipe.Terminate` | zeromq-4.3.1/src/pipe.cpp:400-473 | Runs the request, the rollback, the delimiter and the flush to the end as the protocol does in steps |
| `PipeObject.Pipe.ProcessDelimiter` | zeromq-4.3.1/src/pipe.cpp:503-517 | Moves to the next state or acknowledges |
| `YPipe.RunRefines` | zeromq-4.3.1/src/ypipe.hpp:20-128 | In every interleaving of one writer and one reader, each atomic step of the lock-free queue does what the queue contract says |
| `YPipe.FlushCasKeeps` | zeromq-4.3.1/src/ypipe.hpp:67-89 | The compare-and-swap publishes the complete items, or finds the reader asleep exactly when the contract says so and changes nothing yet |
| `YPipe.FlushSetKeeps` | zeromq-4.3.1/src/ypipe.hpp:74-84 | The plain store after a failed compare-and-swap publishes the complete items |
| `YPipe.CheckReadKeeps` | zeromq-4.3.1/src/ypipe.hpp:92-113 | `check_read` is true exactly if something is published, although it looks at the shared pointer only when nothing is prefetched; otherwise the reader is marked asleep |
| `YPipe.TakeKeeps` | zeromq-4.3.1/src/ypipe.hpp:117-128 | `read` takes the oldest published item |
| `YPipe.WriteKeeps` | zeromq-4.3.1/src/ypipe.hpp:43-52 | Incomplete items stay unpublished; a complete one completes those before it |
| `YPipe.UnwriteKeeps` | zeromq-4.3.1/src/ypipe.hpp:56-63 | `unwrite` takes back only the newest item of the incomplete tail |
| `YPipe.NoSharedElement` | zeromq-4.3.1/src/ypipe.hpp:43-128 | Reader and writer never touch the same element |
| `Mailbox.SignalBringsCommand` | zeromq-4.3.1/src/mailbox.cpp:43-78 | With any number of senders the assertion after a received signal never fails |
| `Mailbox.NoLostWakeup` | zeromq-4.3.1/src/mailbox.cpp:30-41 | A passive receiver is asleep on an empty queue and no signal is due, or exactly one signal is pending or owed and the queue is not empty |
| `Mailbox.CommandsAreReceived` | zeromq-4.3.1/src/mailbox.cpp:43-78 | With all senders done and a command left, the receiver is active or its signal is there |
| `MailboxProgress.AllCommandsAreReceived` | zeromq-4.3.1/src/mailbox.cpp:43-78 | Once the senders are done, three steps of the receiver for each unread command, and one more, bring it every command that every sender issued |
| `MailboxProgress.SentIsReceived` | zeromq-4.3.1/src/mailbox.cpp:30-78 | A command sent while nobody else sends is received after all those before it, in a stated number of steps |
| `MailboxProgress.SignalIsTaken` | zeromq-4.3.1/src/mailbox.cpp:54-78 | A waiting receiver takes a signal and the command it announces in three steps |
| `MailboxProgress.SendEnds` | zeromq-4.3.1/src/mailbox.cpp:30-41 | A `send` that has the lock is over after at most five steps of its own, whatever the other threads do |
| `MailboxProgress.SendPublishes` | zeromq-4.3.1/src/mailbox.cpp:30-41 | It leaves its command behind all others, published, and the lock free |
| `MailboxProgress.TimeoutLosesNothing` | zeromq-4.3.1/src/mailbox.cpp:54-62 | A wait that times out ends the call and changes nothing else |
| `Mailbox.CommandsInOrder` | zeromq-4.3.1/src/mailbox.cpp:30-78 | The commands received from each sender are a prefix of those it sent, in order |
| `Mailbox.OneWriter` | zeromq-4.3.1/src/mailbox.cpp:32-35 | Under the lock there is one writer of the queue at a time |
| `Mailbox.StepKeepsInv` | zeromq-4.3.1/src/mailbox.cpp:30-78 | Every atomic step of every thread keeps the invariants of lock, queue, signals and order |
| `Mailbox.NewInv` | zeromq-4.3.1/src/mailbox.cpp:5-13 | The constructor leaves the reader asleep and the receiver passive |
| `Mtrie.MultiTrie.AddPair` | zeromq-4.3.1/src/generic_mtrie_impl.hpp:68-151 | Adds exactly one (prefix, pipe) pair to the map from prefixes to pipe sets; true exactly if the prefix had no pipe |
| `Mtrie.MultiTrie.RmPair` | zeromq-4.3.1/src/generic_mtrie_impl.hpp:319-421 | Removes exactly one pair; the result tells not found, last value removed or values remain, exactly |
| `Mtrie.MultiTrie.RmPipe` | zeromq-4.3.1/src/generic_mtrie_impl.hpp:154-316 | Removes the pipe from every prefix and no other pair; the callback runs once for each prefix that held it (with `call_on_uniq_`: where it was the only one), with the exact bytes, and for no other |
| `Mtrie.MultiTrie.MatchData` | zeromq-4.3.1/src/generic_mtrie_impl.hpp:425-467 | The same in terms of what was added and removed |
| `Mtrie.MultiTrie.constructor` | zeromq-4.3.1/src/generic_mtrie_impl.hpp:44-50 | A new trie holds nothing |
| `Mtrie.MultiTrie.NodesAreOwned` | zeromq-4.3.1/src/generic_mtrie_impl.hpp:76-421 | Every node that was ever made is either in the trie, once, or was deleted, once: none is shared, leaked, deleted twice or used after deletion |
| `Mtrie.ContentsDetermineShape` | zeromq-4.3.1/src/generic_mtrie_impl.hpp:76-421 | Two valid nodes with the same contents have the same `_min`, `_count`, `_live_nodes` and tables, whatever their histories |
| `Mtrie.Add` | zeromq-4.3.1/src/generic_mtrie_impl.hpp:76-151 | The recursive insertion with table growth yields a valid node that stands for the trie with the pair inserted; the nodes below it are those from before and the ones made on the way |
| `Mtrie.Extend` | zeromq-4.3.1/src/generic_mtrie_impl.hpp:91-132 | Growing the table at either end or from a single child keeps every child and covers the new byte |
| `Mtrie.Rm` | zeromq-4.3.1/src/generic_mtrie_impl.hpp:325-421 | The recursive removal with pruning and compaction yields a valid node that stands for the trie with the pair removed; the nodes from before are those left and those deleted |
| `Mtrie.Drop` | zeromq-4.3.1/src/generic_mtrie_impl.hpp:353-418 | Removing a redundant child keeps all others, and the table ends with children at both ends |
| `Mtrie.Compact` | zeromq-4.3.1/src/generic_mtrie_impl.hpp:367-416 | The table shrinks to one child, or from the front, or from the back, without losing a child |
| `Mtrie.RmValue` | zeromq-4.3.1/src/generic_mtrie_impl.hpp:168-223 | Removing a pipe below a node, with the callbacks in order; the nodes from before are those left and those deleted |
| `Mtrie.Sweep` | zeromq-4.3.1/src/generic_mtrie_impl.hpp:235-266 | The scan over the table removes the pipe below every child, prunes redundant children and finds the new bounds |
| `Mtrie.CompactSwept` | zeromq-4.3.1/src/generic_mtrie_impl.hpp:268-315 | After the scan the table is freed, cut to one child or cut to the new bounds, keeping every child |
| `Mtrie.Match` | zeromq-4.3.1/src/generic_mtrie_impl.hpp:425-467 | The function is called for a pipe exactly as many times as there are prefixes of the data, the empty one and the data itself included, that the pipe holds |
| `Mtrie.ValidIsPruned` | zeromq-4.3.1/src/generic_mtrie_impl.hpp:469-472 | A valid node stands for a pruned trie and is redundant exactly if it stands for the empty one |
| `TrieSpec.RunRefinesPairs` | zeromq-4.3.1/src/generic_mtrie_impl.hpp:68-421 | After any sequence of operations the trie holds exactly the pairs that a plain set of pairs holds |
| `TrieSpec.ShapeForgetsHistory` | zeromq-4.3.1/src/generic_mtrie_impl.hpp:68-421 | Two histories that leave the same pairs leave the same trie |
| `TrieSpec.ReportsExact` | zeromq-4.3.1/src/generic_mtrie_impl.hpp:154-316 | Each due prefix is reported once and no other is |
| `TrieSpec.PrunedIsCanonical` | zeromq-4.3.1/src/generic_mtrie_impl.hpp:469-472 | Pruned tries with the same contents are equal |
| `TrieSpec.MatchesCount` | zeromq-4.3.1/src/generic_mtrie_impl.hpp:425-467 | Matching counts the prefixes that a pipe holds |
| `RadixTree.RadixTree.Add` | zeromq-4.3.1/src/radix_tree.cpp:268-387 | Adds one copy of the key to the multiset, for every shape of the tree and any number of copies; true exactly if it was absent. The tree in memory stays well formed, compressed and free of leaks, and stands for the multiset if and only if the copies of the key fit into the 32-bit counter; otherwise the key is lost |
| `RadixTree.RadixTree.Rm` | zeromq-4.3.1/src/radix_tree.cpp:389-505 | Takes one copy out; true exactly if it was the last one; all merges keep every other key |
| `RadixTree.RadixTree.Check` | zeromq-4.3.1/src/radix_tree.cpp:507-516 | True exactly if some stored key is a prefix of the argument |
| `RadixTree.RadixTree.Apply` | zeromq-4.3.1/src/radix_tree.cpp:543-549 | Reports every distinct stored key exactly once |
| `RadixTree.RadixTree.Match` | zeromq-4.3.1/src/radix_tree.cpp:212-266 | The cursors point to the node where the lookup ends, its parent and grandparent, with the edges between them; a lookup for `check` stops at the first stored prefix |
| `RadixTree.RadixTree.BlockBound` | zeromq-4.3.1/src/radix_tree.cpp:268-505 | A tree with n distinct keys occupies at most 2n + 1 blocks |
| `RadixTree.RadixTree.constructor` | zeromq-4.3.1/src/radix_tree.cpp:179-181 | An empty tree is one block |
| `RadixTree.RadixTree.VisitKeys` | zeromq-4.3.1/src/radix_tree.cpp:518-541 | Depth-first traversal with the key assembled from the prefixes on the way |
| `RadixTree.RadixTree.AddHang` | zeromq-4.3.1/src/radix_tree.cpp:279-312 | A mismatch at an edge hangs a new leaf below the node and repoints its parent or the root |
| `RadixTree.RadixTree.AddSplit` | zeromq-4.3.1/src/radix_tree.cpp:314-348 | A mismatch within a prefix splits the node in two |
| `RadixTree.RadixTree.AddExact` | zeromq-4.3.1/src/radix_tree.cpp:351-378 | A key that ends within a prefix splits the node at its end |
| `RadixTree.RadixTree.RmAbsorb` | zeromq-4.3.1/src/radix_tree.cpp:419-445 | A node with one edge takes in its only child |
| `RadixTree.RadixTree.RmCollapse` | zeromq-4.3.1/src/radix_tree.cpp:447-477 | A parent left with one edge takes in its other child; two blocks are freed |
| `RadixTree.RadixTree.RmUnhang` | zeromq-4.3.1/src/radix_tree.cpp:479-505 | A leaf is taken off its parent |
| `RadixSpec.RemoveKeeps` | zeromq-4.3.1/src/radix_tree.cpp:389-505 | Removal keeps the tree well formed and compressed and lowers the count of the key alone |
| `RadixSpec.WayDown` | zeromq-4.3.1/src/radix_tree.cpp:212-266 | Every node lies below the edge that its key starts with, so following first bytes finds every key |
| `RadixSpec.VisitExact` | zeromq-4.3.1/src/radix_tree.cpp:518-541 | The traversal reports exactly the keys with a count, each once |
| `RadixSpec.NodeBound` | zeromq-4.3.1/src/radix_tree.cpp:268-505 | Path compression bounds the number of nodes by twice the number of keys plus one |
| `RadixSpec.SplitKeeps` | zeromq-4.3.1/src/radix_tree.cpp:320-348 | Splitting a node keeps all keys, distinct first bytes and compression |
| `RadixSpec.InterposeKeeps` | zeromq-4.3.1/src/radix_tree.cpp:351-378 | Putting a node into an edge keeps them too |
| `RadixBlock.AppendEdge` | zeromq-4.3.1/src/radix_tree.cpp:286-309 | Resize, memmove and set_edge_at append exactly one edge, for every prefix length, edge count and pointer width |
| `RadixBlock.DeleteEdge` | zeromq-4.3.1/src/radix_tree.cpp:479-498 | Swap with the last edge, memmove and resize delete exactly one edge |
| `RadixBlock.Absorb` | zeromq-4.3.1/src/radix_tree.cpp:422-441 | A block takes in prefix, first bytes, pointers and count of another |
| `RadixBlock.Shrink` | zeromq-4.3.1/src/radix_tree.cpp:336-342 | `resize` to a shorter prefix and another number of edges keeps the count and those bytes of the prefix, whatever the edges say until they are stored |
| `RadixBlock.SetEdgeAt` | zeromq-4.3.1/src/radix_tree.cpp:135-139 | Replaces one edge, its first byte and its pointer, and nothing else |
| `RadixBlock.NewNode` | zeromq-4.3.1/src/radix_tree.cpp:163-175 | A new block with prefix and edges filled in |
| `RadixBlock.Resize` | zeromq-4.3.1/src/radix_tree.cpp:151-161 | `resize` keeps the reference count and the bytes that fit |
| `RadixBlock.SetNodeAt` | zeromq-4.3.1/src/radix_tree.cpp:129-133 | Replaces one pointer and nothing else |
| `RadixBlock.SetFirstByteAt` | zeromq-4.3.1/src/radix_tree.cpp:104-108 | Replaces one first byte and nothing else |
| `RadixBlock.NodeAt` | zeromq-4.3.1/src/radix_tree.cpp:120-127 | Reads one pointer back |
| `RadixBlock.FirstByteAt` | zeromq-4.3.1/src/radix_tree.cpp:98-102 | Reads one first byte back |
| `RadixBlock.StoreRefcount` | zeromq-4.3.1/src/radix_tree.cpp:49-52 | Replaces the reference count and nothing else |
| `RadixBlock.Reads` | zeromq-4.3.1/src/radix_tree.cpp:42-76 | The header fields and offsets read back what the block says |
| `RadixBlock.U32RoundTrip` | zeromq-4.3.1/src/radix_tree.cpp:42-52 | A header field keeps its value modulo 2^32 |
| `RadixStore.SplitStored` | zeromq-4.3.1/src/radix_tree.cpp:320-348 | The memory after a split holds the split tree, one block per node |
| `RadixStore.CollapseStored` | zeromq-4.3.1/src/radix_tree.cpp:447-477 | The memory after a collapse holds the merged tree, with nothing leaked |
| `RadixStore.CopyCounted` | zeromq-4.3.1/src/radix_tree.cpp:381-386 | One more copy of a stored key: the memory holds the tree with the count modulo 2^32, which stands for the larger multiset, or has lost the key when the count wrapped |
| `PipeArray.Array.Swap` | zeromq-4.3.1/src/array.hpp:84-93 | Exchanges two items and keeps every stored position right |
| `PipeArray.Array.Erase` | zeromq-4.3.1/src/array.hpp:71-82 | The last item takes the place of the erased one; positions stay right |
| `PipeArray.Array.PushBack` | zeromq-4.3.1/src/array.hpp:61-69 | Appends an item and stores its position |
| `PipeArray.Array.Index` | zeromq-4.3.1/src/array.hpp:97-100 | The stored position is the position |
| `PipeArray.Leaves` | zeromq-4.3.1/src/array.hpp:84-93 | Swapping an item to the end of a front part and moving the boundary removes exactly that item from it |
| `PipeArray.Joins` | zeromq-4.3.1/src/array.hpp:84-93 | Swapping an item to the boundary and moving the boundary adds exactly that item |
| `PipeArray.ErasedFront` | zeromq-4.3.1/src/array.hpp:76-82 | Erasing behind a front part leaves it alone |
| `Messages.Messages.Close` | zeromq-4.3.1/src/msg.cpp:190-245 | Gives up one reference to content and metadata; each is freed exactly if it was the last; fails on a closed message |
| `Messages.Messages.Copy` | zeromq-4.3.1/src/msg.cpp:268-301 | The target holds what the source holds, both marked shared; the old content of the target loses a holder; counts stay exact, also when a message is copied onto itself, which closes it |
| `Messages.Messages.Move` | zeromq-4.3.1/src/msg.cpp:247-266 | The target takes over everything and the source is empty; no count changes except for what the target gave up; a message moved onto itself is closed first, so that its content is given up and it ends empty |
| `Messages.Messages.TakeOut` | zeromq-4.3.1/src/ypipe.hpp:117-128 | What a place in a queue held now belongs to the handle it was read into, with all counts exact, and the place can be written to again |
| `Messages.Messages.AddRefs` | zeromq-4.3.1/src/msg.cpp:456-477 | References made in advance are counted, and the message is marked shared |
| `Messages.Messages.RmRefs` | zeromq-4.3.1/src/msg.cpp:479-521 | References made in advance are given back through any handle that owns one, its own included when it is the last; the content is freed exactly if none is left |
| `Messages.ClosedOrLeft` | zeromq-4.3.1/src/msg.cpp:489-521 | `rm_refs` closes the message exactly if it has no content or an unshared one, and changes no other |
| `Messages.Messages.InitSize` | zeromq-4.3.1/src/msg.cpp:58-97 | A small message is stored in place, a large one gets a content of its own |
| `Messages.Messages.InitContent` | zeromq-4.3.1/src/msg.cpp:99-158 | A new content has one holder and is not marked shared |
| `Messages.Messages.Init` | zeromq-4.3.1/src/msg.cpp:47-56 | An empty message owns nothing |
| `Messages.Messages.SetMetadata` | zeromq-4.3.1/src/msg.cpp:358-364 | One more holder of the metadata |
| `Messages.Messages.ResetMetadata` | zeromq-4.3.1/src/msg.cpp:366-374 | One holder less; freed with the last one |
| `Messages.SharersAgree` | zeromq-4.3.1/src/msg.cpp:282-296 | Two handles of one content are both marked shared, and the counter is the number of references |
| `Messages.Closes` | zeromq-4.3.1/src/msg.cpp:199-228 | Closing keeps: in memory if and only if referenced; two or more references, then all handles marked; marked, then counter exact |
| `Messages.Adds` | zeromq-4.3.1/src/msg.cpp:470-476 | So does adding references, whether or not the content was shared before |
| `Messages.Removes` | zeromq-4.3.1/src/msg.cpp:489-518 | So does giving them back |
| `Messages.Moves` | zeromq-4.3.1/src/msg.cpp:247-266 | So does moving |
| `Messages.NoneStrayExactly` | zeromq-4.3.1/src/msg.cpp:358-374 | The metadata counters are those of the holders if and only if no handle was copied past the counter |
| `Dist.Dist.Distribute` | zeromq-4.3.1/src/dist.cpp:133-176 | Every matching pipe is written to exactly once; exactly the accepting ones still match and the refusing ones are passive; each accepting pipe has a copy and no reference to the content is left over, for small and large messages, with the metadata that the source lets through; last parts are flushed |
| `Dist.Dist.WriteLoop` | zeromq-4.3.1/src/dist.cpp:158-167 | The loop that retries the same index after a swap terminates and visits every matching pipe once |
| `Dist.Dist.Write` | zeromq-4.3.1/src/dist.cpp:183-200 | A pipe that refuses leaves the matching, active and eligible groups by three swaps; one that accepts is flushed after the last part |
| `Dist.FanOutKeepsContent` | zeromq-4.3.1/src/dist.cpp:152-175 | After the fan-out the holders are the old ones without the sender plus one per accepting pipe; the content is freed if and only if all writes failed and nobody else held it |
| `Dist.FanOutCountsMetadataExactly` | zeromq-4.3.1/src/dist.cpp:144-151 | The metadata counters are right after the fan-out if and only if the message had no metadata or no pipe took it, since small messages are copied past the counter |
| `Dist.Dist.SendToMatching` | zeromq-4.3.1/src/dist.cpp:116-131 | After the last part all eligible pipes become active |
| `Dist.Dist.SendToAll` | zeromq-4.3.1/src/dist.cpp:110-114 | All active pipes match |
| `Dist.Dist.Attach` | zeromq-4.3.1/src/dist.cpp:21-36 | A pipe attached in the middle of a message is eligible but not active |
| `Dist.Dist.Match` | zeromq-4.3.1/src/dist.cpp:38-51 | An eligible pipe joins the matching ones; in the middle of a message the groups stay nested if and only if the pipe was active or is ignored |
| `Dist.Dist.ReverseMatch` | zeromq-4.3.1/src/dist.cpp:53-67 | Exactly the eligible pipes that did not match do now; in the middle of a message the groups stay nested exactly under the stated condition |
| `Dist.Dist.Unmatch` | zeromq-4.3.1/src/dist.cpp:69-72 | No pipe matches |
| `Dist.Dist.PipeTerminated` | zeromq-4.3.1/src/dist.cpp:74-92 | The pipe leaves all groups, no other pipe changes group |
| `Dist.Dist.Activated` | zeromq-4.3.1/src/dist.cpp:94-108 | A passive pipe becomes eligible, and active unless a message is being sent. A call for an eligible pipe, as after a refused subscription, does the same if and only if all pipes are eligible; otherwise a passive pipe takes its place |
| `DistSpec.PartsInOrder` | zeromq-4.3.1/src/dist.cpp:21-131 | In every run in which matching changes between messages, as the sockets have it, matching <= active <= eligible <= all, active = eligible between messages, and each pipe has a prefix of the parts of the current message. Pipes come, go and are activated at any time, eligible ones too unless the open message goes to them; a message may turn from all pipes to the matching ones |
| `DistSpec.PartReachesRecipients` | zeromq-4.3.1/src/dist.cpp:110-131 | In those runs a part reaches exactly the addressed pipes that accept it; these have the whole message so far, the refusing ones are no longer eligible |
| `DistSpec.LateGetsNothing` | zeromq-4.3.1/src/dist.cpp:23-30 | In those runs a pipe attached, activated or raised in place of another in the middle of a message gets no further part of it |
| `DistDelivery.EveryPipeByItself` | zeromq-4.3.1/src/dist.cpp:21-176 | What a pipe is and what it gets follows from the calls that concern it, by an account of a single pipe; what happens to other pipes changes nothing, in runs in which no pipe is raised in place of another |
| `DistDelivery.MatchedPipesGet` | zeromq-4.3.1/src/dist.cpp:38-51 | A message to the matching pipes reaches exactly those that were matched before or named in calls of `match`, are eligible, and accept it |
| `DistDelivery.OtherPipesGet` | zeromq-4.3.1/src/dist.cpp:53-67 | After `reverse_match` it reaches exactly the other eligible pipes that accept it |
| `DistDelivery.UnmatchedPipesGetNothing` | zeromq-4.3.1/src/dist.cpp:69-72 | After `unmatch` it reaches exactly those that are matched anew |
| `DistDelivery.ComesLate` | zeromq-4.3.1/src/dist.cpp:21-36 | In the middle of a message exactly the pipes that are attached, made eligible or raised become late |
| `DistSpec.SwitchingToAllExactly` | zeromq-4.3.1/src/dist.cpp:110-131 | A message that turns from the matching pipes to all of them stays in order if and only if every active pipe that accepts the part has all parts before it |
| `DistSpec.SwitchingToAllIsSafeExactly` | zeromq-4.3.1/src/dist.cpp:110-131 | If nothing was unmatched since the message began, turning to all pipes keeps the parts in order, whichever pipes accept, if and only if all active pipes match |
| `DistSpec.SwitchingToAllCanTear` | zeromq-4.3.1/src/dist.cpp:110-131 | The input on which it does not |
| `DistSpec.DisplacingIsSafeExactly` | zeromq-4.3.1/src/dist.cpp:94-108 | When `activated` is called in the middle of a message for an eligible pipe while another is passive, the parts stay in order, whatever is sent next, if and only if the message does not go to that pipe |
| `DistSpec.DisplacingCanTear` | zeromq-4.3.1/src/dist.cpp:94-108 | The input on which they do not |
| `FairQueue.BoundedBypass` | zeromq-4.3.1/src/fq.cpp:60-142 | Over n pipes with any deactivation, reactivation and has_in calls, an active pipe that always has a message waits for at most n - 1 complete messages of others |
| `FairQueue.StepDistance` | zeromq-4.3.1/src/fq.cpp:46-142 | No step moves the cursor away from a waiting pipe; every message of another pipe brings it nearer |
| `FairQueue.SeekFinds` | zeromq-4.3.1/src/fq.cpp:69-109 | The loop finds a ready active pipe if there is one and sets aside only pipes that are not ready |
| `FairQueue.RecvFinds` | zeromq-4.3.1/src/fq.cpp:60-117 | While the assertion holds a frame is read if and only if an active pipe has one, and from such a pipe |
| `FairQueue.MessageStaysAtCursor` | zeromq-4.3.1/src/fq.cpp:74-100 | While no pipe goes away, the parts of a message come from one pipe, or the assertion fails because that pipe has nothing to read |
| `FairQueue.CursorStaysExactly` | zeromq-4.3.1/src/fq.cpp:26-38 | When a pipe goes away, the cursor stays with its pipe if and only if that is not the one that goes, and was not the last active one while the other was active and not the first |
| `FairQueue.CursorCanJump` | zeromq-4.3.1/src/fq.cpp:31-37 | The input on which it does not |
| `FairQueue.AssertionHoldsExactly` | zeromq-4.3.1/src/fq.cpp:74-100 | For every state and whatever the pipes have, the assertion of `recvpipe` holds if and only if no message is open, no pipe is active, or the pipe at the cursor has a frame |
| `FairQueue.AssertionCanFail` | zeromq-4.3.1/src/fq.cpp:97-100 | The input on which it fails: the pipe of an open message was terminated without delay and gives out nothing |
| `FairQueue.OpenMessageContinuesExactly` | zeromq-4.3.1/src/fq.cpp:26-38 | After a pipe went away in the middle of a message, the next frame belongs to that message if and only if its pipe was neither removed nor jumped over |
| `FairQueue.OpenMessageCanChangePipe` | zeromq-4.3.1/src/fq.cpp:26-38 | The input on which the frame of another pipe is taken as the rest of the message |
| `FairQueueRuns.MessagesAreReadWhole` | zeromq-4.3.1/src/fq.cpp:17-142 | In every run whose removals leave an open message alone, the messages read from a pipe are the first that were published in it, each whole and in order, and the parts of the open message begin the next one of the pipe at the cursor |
| `FairQueueRuns.RecvTakesAFrame` | zeromq-4.3.1/src/fq.cpp:60-117 | In those runs `recv` takes the first frame that waits in an active pipe, if there is one and the assertion holds, and it goes on with the open message or completes it |
| `FairQueueRuns.ActivatedIsReady` | zeromq-4.3.1/src/fq.cpp:46-53 | A pipe that is activated with a frame can be read, besides those that could be read before |
| `FairQueueRuns.LookingKeepsReady` | zeromq-4.3.1/src/fq.cpp:119-142 | `has_in` between messages keeps every pipe that can be read, and finds one if and only if there is one |
| `FairQueueRuns.ReadIsPublished` | zeromq-4.3.1/src/fq.cpp:17-142 | What was read from a pipe is a prefix of the messages that events published in it |
| `FairQueueRuns.RunIsSteadyExactly` | zeromq-4.3.1/src/fq.cpp:26-38 | A run keeps messages whole at every point if and only if no pipe goes away that is being read in the middle of a message or makes the cursor jump |
| `FairQueueRuns.AssertionFailsExactly` | zeromq-4.3.1/src/fq.cpp:97-100 | In those runs the assertion of `recvpipe` fails if and only if the pipe of the open message was terminated without delay |
| `FairQueueRuns.StepKeepsSteady` | zeromq-4.3.1/src/fq.cpp:17-142 | Every operation keeps: what is read of a pipe, the open part of its next message and what waits in it are together what was published |
| `FairQueueRuns.TerminateKeepsExactly` | zeromq-4.3.1/src/fq.cpp:26-44 | A removal keeps that if and only if no message is open, or its pipe is neither removed nor jumped over |
| `FairQueueRuns.TwoMessagesMixed` | zeromq-4.3.1/src/fq.cpp:26-44 | A run in which the first part of one message and a message of another pipe are read as one |
| `FairQueue.Fq.Recv` | zeromq-4.3.1/src/fq.cpp:60-117 | For every state: a frame is read if and only if the assertion holds and an active pipe has one, from such a pipe and the first in turn; the call aborts exactly if a message is open, a pipe is active and the one at the cursor has no frame; the cursor advances after complete messages only |
| `FairQueue.Fq.HasIn` | zeromq-4.3.1/src/fq.cpp:119-142 | True in the middle of a message or exactly if an active pipe is ready |
| `FairQueue.Fq.Attach` | zeromq-4.3.1/src/fq.cpp:17-24 | The pipe is active |
| `FairQueue.Fq.Activate` | zeromq-4.3.1/src/fq.cpp:46-53 | The pipe is active again, no other changes |
| `FairQueue.Fq.PipeTerminated` | zeromq-4.3.1/src/fq.cpp:26-44 | The pipe is gone, and no longer the last one read from |
| `LoadBalancerRuns.PublishedWhole` | zeromq-4.3.1/src/lb.cpp:57-141 | In every run without a removal that makes the cursor jump, a pipe has published exactly the messages sent to it, each whole and in order; a message dropped or rolled back was sent to none |
| `LoadBalancerRuns.NewMessagesAreSent` | zeromq-4.3.1/src/lb.cpp:57-141 | In those runs the first part of a message is refused only if no active pipe accepts it, and never dropped |
| `LoadBalancerRuns.MessageIsPublished` | zeromq-4.3.1/src/lb.cpp:110-141 | The last part of a message that a pipe takes publishes the whole message there |
| `LoadBalancerRuns.EveryFrameIsBooked` | zeromq-4.3.1/src/lb.cpp:57-141 | The frames of all messages, and of the open one, are those that were taken from the user, in order |
| `LoadBalancerRuns.RunIsWholeExactly` | zeromq-4.3.1/src/lb.cpp:17-160 | A run keeps messages whole at every point if and only if no pipe goes away in the middle of a message and makes the cursor jump |
| `LoadBalancerRuns.TerminateKeepsExactly` | zeromq-4.3.1/src/lb.cpp:23-43 | A removal keeps messages whole if and only if it does not make the cursor jump in the middle of one |
| `LoadBalancerRuns.TailOnAnotherPipe` | zeromq-4.3.1/src/lb.cpp:23-43 | A run in which another pipe publishes the last part of a message without the first |
| `LoadBalancerRuns.FlushPublishesOneMessage` | zeromq-4.3.1/src/lb.cpp:125-134 | In those runs a flush publishes exactly the message just completed, on one pipe |
| `LoadBalancerRuns.StepKeepsWhole` | zeromq-4.3.1/src/lb.cpp:17-160 | Every operation, removals that make the cursor jump excepted, keeps: an unfinished message lies on the current pipe alone, and nothing complete is unflushed |
| `LoadBalancer.RefusedFrameIsForgotten` | zeromq-4.3.1/src/lb.cpp:85-108 | After a rollback the same frame offered again is taken as a message of its own if and only if it was the last part and an active pipe accepts it; a part with more to come is dropped |
| `LoadBalancer.SendFinds` | zeromq-4.3.1/src/lb.cpp:57-141 | The first part of a message goes to an active pipe that accepts it if and only if there is one, a later part to the same pipe or the message is rolled back, and then the rest is dropped |
| `LoadBalancerTurns.BoundedBypass` | zeromq-4.3.1/src/lb.cpp:57-160 | Over n pipes an active pipe that always accepts gets a message after at most n - 1 messages of others, whatever is refused, rolled back or dropped |
| `LoadBalancer.Lb.Send` | zeromq-4.3.1/src/lb.cpp:57-141 | As the abstract step does: dropping, rollback, retry on the next pipe and flush; who gets the frame is stated outright |
| `LoadBalancer.Lb.HasOut` | zeromq-4.3.1/src/lb.cpp:143-160 | True in the middle of a message or exactly if an active pipe is ready |
| `LoadBalancer.Lb.Attach` | zeromq-4.3.1/src/lb.cpp:17-21 | The pipe is active and its queue empty |
| `LoadBalancer.Lb.Activate` | zeromq-4.3.1/src/lb.cpp:45-50 | The pipe is active again |
| `LoadBalancer.Lb.PipeTerminated` | zeromq-4.3.1/src/lb.cpp:23-43 | If the pipe of an unfinished message goes, the rest is dropped |
| `Mechanism.HandshakeRecovers` | zeromq-4.3.1/src/mechanism.cpp:132-241 | A socket accepts the list of another if and only if their types may be combined, and then knows its type, its routing id if it is REQ, DEALER or ROUTER, and its application metadata, and nothing else; the routing id is taken over if the socket asked for it |
| `Mechanism.HandshakeIsMutual` | zeromq-4.3.1/src/mechanism.cpp:261-317 | A accepts the list of B if and only if B accepts the list of A |
| `Mechanism.CheckIsCompatible` | zeromq-4.3.1/src/mechanism.cpp:261-317 | The type check is exactly the symmetric table of combinations |
| `Mechanism.AcceptsExactly` | zeromq-4.3.1/src/mechanism.cpp:190-241 | Which inputs are accepted: whole properties of which none names a socket type that does not fit, possibly followed by one that ends after its name or after the length of its value |
| `Mechanism.LearnAllAcceptsExactly` | zeromq-4.3.1/src/mechanism.cpp:218-231 | For every list: it is refused if and only if some property called Socket-Type has a value other than the name of a type that may be combined; any other property is accepted |
| `Mechanism.LearnsExactly` | zeromq-4.3.1/src/mechanism.cpp:218-235 | For every list that is accepted: known afterwards is what was known, and the first value under every new name |
| `Mechanism.LearnsLastRoutingId` | zeromq-4.3.1/src/mechanism.cpp:218-219 | The routing id is the last one given, if the socket asked for it |
| `Mechanism.RefusalKeepsTheRest` | zeromq-4.3.1/src/mechanism.cpp:220-235 | When a property is refused, those before it have been taken, and none from there on |
| `Mechanism.CheckAcceptsExactly` | zeromq-4.3.1/src/mechanism.cpp:261-317 | A name is accepted if and only if it is that of a type that may be combined, for every byte string |
| `Mechanism.TruncationAccepted` | zeromq-4.3.1/src/mechanism.cpp:205-239 | A truncated property that is accepted |
| `Mechanism.MakeCommand` | zeromq-4.3.1/src/mechanism.cpp:173-188 | The message is filled exactly: prefix and encoded list |
| `Mechanism.AddBasicProperties` | zeromq-4.3.1/src/mechanism.cpp:132-157 | All properties are written in order and every capacity assertion holds |
| `Mechanism.BasicPropertiesLen` | zeromq-4.3.1/src/mechanism.cpp:159-171 | The length is that of the encoded list |
| `Mechanism.AddProperty` | zeromq-4.3.1/src/mechanism.cpp:102-122 | One property is written behind what is there |
| `Mechanism.Mechanism.ParseMetadata` | zeromq-4.3.1/src/mechanism.cpp:190-241 | The state and the return code for every input; EINVAL if and only if a property names a socket type that does not fit |
| `Mechanism.ReadProperty` | zeromq-4.3.1/src/mechanism.cpp:194-219 | One turn of the loop finds a whole property or leaves with the right count of bytes |
| `Mechanism.TypeNamesDiffer` | zeromq-4.3.1/src/mechanism.cpp:68-85 | Different socket types have different names |
| `Mechanism.TypeNamesAsText` | zeromq-4.3.1/src/mechanism.cpp:68-85 | The names are those of RFC 23/ZMTP, and of the draft types |
| `Mechanism.WireNames` | zeromq-4.3.1/src/mechanism.cpp:128-129 | So are the names of the two properties |
| `Metadata.SplitEncoded` | zeromq-4.3.1/src/mechanism.cpp:190-219 | The parser recovers every list that the encoder can write |
| `Metadata.SplitIsExact` | zeromq-4.3.1/src/mechanism.cpp:190-219 | The input is the properties found followed by the rest; nothing is skipped |
| `Metadata.WireFormat` | zeromq-4.3.1/src/mechanism.cpp:102-122 | A property on the wire: length of the name in one byte, name, length of the value in four bytes with the most significant first, value |
| `Metadata.NothingRemains` | zeromq-4.3.1/src/mechanism.cpp:236-239 | When no bytes count as left |

## Left out

- `hiccup`, `process_hiccup`, `set_hwms`, `send_hwms_to_peer` and conflating pipes: queues and watermarks stay as `pipepair` made them.
- Counters are unbounded: `_msgs_read` and `_msgs_written` are 64 bits wide in the source, the reference counts of contents and metadata 32 bits. The counts of the radix tree are 32 bits wide in the model too.
- RadixTree.RadixTree.Add: keys are shorter than 2^32 bytes; the length of a longer one is truncated in the header of its node, whose block then says less than it holds.
- Mtrie.Add: a node is a value with an address that tells nodes apart; the bytes of nodes and the allocation of their tables are not modelled. The radix tree models memory block by block.
- Allocation never fails; where `malloc` and `realloc` put a block is a parameter of the radix tree operations, for all choices.
- Buffers that grow during traversal (`visit_keys`, the removal of a pipe from the multi-trie) are sequences.
- Addresses in `ypipe_t` are positions, since the queue does not reuse an element that a pointer still refers to; the memory order of its compare-and-swap is taken to be sequentially consistent.
- The signaler is a counter of signals; polling, file descriptors and interrupted waits are timeouts.
- Which pipes accept a write or have something to read is a parameter of the schedulers, for all choices; `check_hwm` and `has_out` of `dist_t` are not modelled.
- DistSpec.PartsInOrder: `match` and `reverse_match` are called between messages only, as `xpub_t` and `radio_t` do; `Dist.Dist.Match` and `Dist.Dist.ReverseMatch` cover other calls.
- RadixTree.RadixTree.Rm: after a counter of the radix tree has wrapped, what later removals do is not stated.
- A failed assertion of `recvpipe` ends the process; after `Aborted` the state is as the call found it.
- `msg_t::init` with external data, `data`, `size`, commands, groups and routing ids, and the free function of a content: only the fact of its release is modelled.
- Metadata properties of mechanisms that override `property`, ZAP, CURVE, GSSAPI and PLAIN; application metadata is as `setsockopt` admits it.
- Socket types, sessions, engines, encoders, pollers, transports and options.

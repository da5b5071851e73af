# Theta subchain: a verified model

This project models the core of the Theta subchain node in Dafny and proves what its parts promise.

- **Consensus.** `Consensus` gives the meaning of the engine's handlers on one node, `NodeInvariant` what every
  handler keeps, `Safety` a system of any number of nodes with faulty validators, and `Agreement` the promises over
  every run: finalized blocks of all honest nodes lie on one branch, one certificate for each height, nothing ever
  moves back, finalized transactions stay found. `Finality` says which status a block had before it was finalized, and
  `FinalityRuns` gives a run in which blocks are. `Validation` and `Outcomes` say exactly which blocks are validated,
  in every run, and what each handler brings about. `Engine` and `ChainStore` are the classes whose methods change the
  node in place, each proved against its meaning, and `EngineRuns` proves that every call is a step of a run. `Tips`,
  `Epochs` with `EpochRuns`, and `Proposals` with `ProposalLimits` treat the search for the tip, the 64-bit epoch
  counter and a node's own proposals; `Validators`, `Votes`, `Blocks` and `ChainIndexes` what lies below, and `Runs`
  how runs are built.
- **Contract ABI.** `Bytes` and `AbiTypes` define the encoding of section "Formal Specification of the Encoding" of
  the Contract ABI Specification, `AbiDecoding` the decoder that follows offsets, `AbiRoundTrip` when one undoes the
  other, and `AbiCodec` the loops that pack and unpack. `AbiLayout` says where every byte of an encoding lies, and
  `AbiMeaning` what any input means.
- **Jump analysis.** `JumpAnalysis` proves the bit-packed analysis of EVM code, through both of its caches, equal to
  section 9.4.3 ("Jump Destination Validity") of the Ethereum Yellow Paper.
- **Ledger.** `Sends`, `SendRules` and `SendExecution` treat transfers, `Ledger` the proposing and applying of blocks.
- **Mempool.** `Bookkeeper` treats the filter of seen transactions, `Mempool` the two-level queue.
- **Proposers.** `Proposers` treats the choice of a proposer by stake.

Where a promise fails, the code is kept, a lemma gives an input, and another lemma says exactly when it holds:
children of a wrong height (`IllHeightedChildIsMissed`, `ChildrenAfterRun`), the wrap-around of epochs
(`LastEpochWrapsAround`, `StepGoesBack`), the documented transitions between block statuses (`FinalizingRun`,
`ChecksFollowEdges`), own proposals (`ProposalTooFar`, `RunOwnProposal`), ABI values with empty static parts, integers
out of range and indexed arguments (`EmptyTupleAlone`, `NegativeIntegerIsLost` and `IndexedArgumentIsMisread`,
`ArgumentsRoundTrip`), and draws without a winner (`DrawWithoutWinner`, `AlwaysFound`). A comment calls that last place
unreachable; the model follows the code. `StaleAnalysisMisleads` and `StaleAnalysis` are about the method that sets a
contract's code, taken by itself: the program only calls it on a new contract, so no analysis is stale there.

What the model takes from outside:

- Hashing is injective. In the consensus model a table gives the block behind every hash. A hash covers the
  certificate inside its block, so no delivered block certifies itself. Code hashes and state roots are injective
  functions, a raw transaction is named by its hash.
- A signature verifies for exactly the bytes and the address it was made for. Honest nodes sign only what they vote
  for. Faulty validators, with at most a third of the stake, may sign anything.
- All nodes share one root, a genesis block without parent, and one set of validators with distinct addresses. The
  proposer of a block and an epoch is a fixed function.
- The ledger's answer to a block, whether a block carries a validator update, the order in which a map is visited,
  which of several equally high tips is found, the clock, and the main chain height are arguments. Handlers are
  atomic: a node restarts between two of them.
- In the ledger model the fee schedule, the limits, signature checks, decoding and the validators after a block are
  parameters. The basic validation of inputs and outputs implies that coins are not negative.
- In the mempool model every operation happens at one moment of a clock that does not go back. The two priority queues
  are collections. The inner one yields a transaction of lowest sequence number. The outer one yields a group of
  highest gas price until a removal changes priorities behind its back, and then any group.

`dafny verify dfyconfig.toml` checks the whole project.

## Model

| member | source | states |
|---|---|---|
| `Validators.GetValidator` | core/validator.go:126-133 | Finds the first validator with an address, or none exactly when no validator has it |
| `Validators.SumStake` | core/validator.go:142-148 | The loop adds up the total stake of the set |
| `Validators.WeightSumIsStake` | core/validator.go:151-158 | When nobody is listed twice, the running sum over a list of votes is the stake of the set of voters, whatever the order |
| `Validators.HasMajorityVotes` | core/validator.go:151-167 | True exactly when the listed weights exceed two thirds; for distinct voters this depends on the voter set alone |
| `Validators.MajorityMonotone` | core/validator.go:151-167 | A larger set of voters never loses a majority |
| `Validators.QuorumIntersection` | core/validator.go:142-167 | Two majorities share voters that hold more than a third of the total stake |
| `Validators.HonestOverlap` | core/validator.go:142-167 | When the faulty hold at most a third, two majorities share a validator that is not faulty |
| `Votes.VoteSet.AddVote` | core/vote.go:157-160 | A vote replaces the one with the same voter, block and epoch and no other |
| `Votes.VoteSet.Votes` | core/vote.go:173-180 | Lists every vote exactly once, in the order of the voters' addresses, for every order of visiting the map |
| `Votes.VoteSet.UniqueVoter` | core/vote.go:274-288 | Keeps exactly one vote of every voter, one of the latest epoch, for every order of visiting the map |
| `Votes.UniqueVoterSize` | core/vote.go:54-57 | Consolidation keeps the size exactly when no voter had two entries, and then changes nothing |
| `Votes.FilterByValidators` | core/vote.go:291-299 | Keeps exactly the votes of validators |
| `Votes.ListedWeight` | core/validator.go:151-158 | In whatever order the votes of a set are listed, their weights add up to the same |
| `Votes.HasMajority` | core/validator.go:170-172 | True exactly when the weight of all entries exceeds two thirds; on a consolidated vote set this depends on who voted and on nothing else |
| `Votes.HasUniqueMajority` | consensus/engine.go:866-870 | Consolidating first makes the verdict a function of the set of voters |
| `Votes.IsValidCertificate` | core/vote.go:50-70 | True exactly for a non-empty set of votes of distinct voters, not more than there are validators, all valid and for the certified block, with a majority |
| `Blocks.IndexTxsMeaning` | blockchain/tx.go:28-53 | After indexing, every transaction of the block is indexed; forced entries point into this block; other entries are kept |
| `ChainIndexes.AddBlockChildren` | blockchain/chain.go:82-109 | A new block gets as children exactly the stored blocks of the next height that name it, and is appended to its parent's children; nothing else changes |
| `ChainIndexes.AddBlockKeepsTree` | blockchain/chain.go:66-115 | Adding any new block keeps the height index exact and every children list free of duplicates, sound and, for children of the next height, complete |
| `ChainIndexes.ChildrenAfterRun` | blockchain/chain.go:66-115 | After any blocks are added in any order, block j is listed under block i exactly when it names it as parent and either has the next height or was added later |
| `ChainIndexes.IllHeightedChildIsMissed` | blockchain/chain.go:97-104 | The exception happens: a child of another height is missed when it comes before its parent and found when it comes after |
| `ChainIndexes.AddBlockKeepsTxIndex` | blockchain/tx.go:28-53 | Adding a block keeps every index entry right and every transaction of a finalized block indexed in a finalized block |
| `ChainIndexes.FinalizeKeepsTxIndex` | blockchain/chain.go:273-300 | Finalizing a branch keeps the same, because it forces the entries of the branch |
| `ChainStore.Chain.constructor` | blockchain/chain.go:31-48 | A new chain holds its root, finalized |
| `ChainStore.Chain.AddNewBlock` | blockchain/chain.go:66-115 | Refuses other chains and known blocks, otherwise has exactly the effect that the index lemmas are about |
| `ChainStore.Chain.FindChildren` | blockchain/chain.go:97-104 | Collects the stored blocks of the next height that name the block |
| `ChainStore.Chain.AddBlockByHeightIndex` | blockchain/chain.go:161-182 | Adds a hash to its height once |
| `ChainStore.Chain.AddTxsToIndex` | blockchain/tx.go:28-53 | The loop writes the entries of the specification, forced or only where there is none |
| `ChainStore.Chain.FindTxByHash` | blockchain/tx.go:72-89 | With the index in order, finds exactly the transactions of stored blocks, returns the transaction asked for, and from a finalized block if it is in one |
| `ChainStore.Chain.FinalizePreviousBlocks` | blockchain/chain.go:273-300 | Terminates, and finalizes the block directly and its unfinalized ancestors indirectly, indexing their transactions |
| `ChainStore.Chain.IsDescendant` | blockchain/chain.go:335-348 | True exactly when fewer than 2000 parent links lead from the block to the ancestor |
| `ChainStore.Chain.AddVote` | blockchain/vote.go:14-26 | Adds a vote to the votes of its block; a vote for the empty hash is not indexed |
| `ChainStore.Chain.FindVotesByHash` | blockchain/vote.go:29-33 | A fresh copy of the votes indexed for a block |
| `NodeInvariant.FinalizeFacts` | blockchain/chain.go:273-300 | Finalizing a validated block changes only validated, unfinalized ancestors, and leaves the finalized blocks closed under parents |
| `NodeInvariant.ProcessCCKeeps` | consensus/engine.go:935-992 | A new certified block keeps the whole node invariant: index, status closure, lock, finalized blocks in order, last finalized strictly below highest certified |
| `NodeInvariant.RejectKeeps` | consensus/engine.go:576-583 | Marking a pending block invalid keeps the whole node invariant |
| `NodeInvariant.AcceptKeeps` | consensus/engine.go:638-645 | So does marking a block valid, with its flag, once its parent and its certified block are validated and the node's certified block is as high |
| `NodeInvariant.CheckCCKeeps` | consensus/engine.go:834-871 | So does looking for a certificate of any hash |
| `NodeInvariant.CheckCCAdvances` | consensus/engine.go:834-871 | It changes only validated blocks, moves statuses forward only, and never lowers the highest certified or the last finalized block |
| `NodeInvariant.NewlyDirect` | consensus/engine.go:935-957 | A block becomes directly finalized only as the parent and named certified block of a validated block with a majority |
| `NodeInvariant.AddBlockKeeps` | blockchain/chain.go:66-115 | A delivered block keeps the node invariant |
| `NodeInvariant.AddVoteKeeps` | consensus/engine.go:780-790 | A handled vote keeps the node invariant |
| `NodeInvariant.ValidatedNamesAncestor` | consensus/engine.go:358-433 | A block that passes validation names a validated ancestor as its certified block |
| `NodeInvariant.ReplayGivesQuorum` | consensus/engine.go:586-588 | After the votes of a valid certificate are replayed, the certified block has a majority in the node's own index |
| `NodeInvariant.CheckCCReaches` | consensus/engine.go:834-871 | Checking a validated block that is finalized or has a majority leaves the node with a certified block at least as high |
| `NodeInvariant.ReplayEstablishesLock` | consensus/engine.go:585-595 | Replaying the certificate and checking it is what makes the new block's certified block no higher than the node's own, before the block is marked valid |
| `NodeInvariant.ReceiveVoteKeeps` | consensus/engine.go:313-319 | The vote handler keeps the node invariant and never moves the node back |
| `NodeInvariant.HandleBlockKeeps` | consensus/engine.go:553-674 | The block handler keeps the node invariant and never moves the node back, for every ledger answer |
| `NodeInvariant.StartKeeps` | consensus/state.go:45-59 | A node that starts from its root satisfies the invariant |
| `Safety.SafeCheckCC` | consensus/engine.go:834-957 | What a certificate check finalizes directly has itself a certificate and a certified child that names it |
| `Safety.ValidatedParentCertified` | consensus/engine.go:415-440 | Validation makes sure that a parent named as the certified block is certified, although the certificate of a finalized block is not looked at |
| `Safety.FreshVoteOrdered` | consensus/engine.go:695-716 | A new vote is higher than all earlier ones, and names a certified block at least as high as theirs |
| `Safety.HonestCastVote` | consensus/engine.go:686-735 | Voting, fresh or repeated, keeps the promises of a node's signatures |
| `Safety.HonestHandleBlock` | consensus/engine.go:553-674 | So does processing a block, with or without a vote |
| `Safety.StepKeeps` | consensus/engine.go:313-331 | Every step of every node keeps the invariant of the whole system |
| `Safety.RunKeeps` | consensus/engine.go:249-331 | The system invariant holds in every state of every run |
| `Agreement.OneCertificatePerHeight` | consensus/engine.go:686-735 | At most one block of a height can have a commit certificate |
| `Agreement.LaterVoteIsLocked` | consensus/engine.go:705-716 | Of two certified blocks, the higher one names a certified ancestor at least as high as the certified block of the lower one |
| `Agreement.ConfirmedBlocksBranch` | consensus/engine.go:941-944 | Once a block and a child that names it are certified, every certified block of its height or higher descends from it |
| `Agreement.FinalizedAgree` | consensus/engine.go:935-992 | In one state, blocks finalized by any two honest nodes lie on one branch |
| `Agreement.RunAgreement` | consensus/engine.go:935-992 | In every run, blocks finalized by any two honest nodes at any two times lie on one branch, when the faulty hold at most a third of the stake |
| `Agreement.RunOneBlockPerHeight` | consensus/engine.go:935-992 | Two finalized blocks of one height are the same block, whoever finalized them and when |
| `Agreement.RunOneVotePerHeight` | consensus/engine.go:686-735 | In every run an honest node never signs for two blocks of one height, across repeated votes and restarts |
| `Agreement.RunOneCertificatePerHeight` | consensus/engine.go:834-871 | In every run at most one block of a height ever gathers a majority |
| `Agreement.RunAdvances` | core/block.go:311-366 | Along every run statuses move only forward, the highest certified block never gets lower and each new last finalized block is strictly higher |
| `Agreement.RunTxFinality` | blockchain/tx.go:28-89 | In every run a transaction of a finalized block is found, then and ever after, through an entry that names a finalized block holding it |
| `Agreement.RunBacked` | consensus/engine.go:1109-1111 | In every run the highest certified block of a node is finalized, or it is committed and the node still holds the votes that certify it |
| `Agreement.RunOwnProposal` | consensus/engine.go:1079-1118 | In every run a node accepts its own proposal exactly when the tip is less than 1999 above its highest certified block, and rejects it otherwise |
| `Finality.FinalizesCommitted` | consensus/engine.go:935-957 | What a certificate check finalizes directly is the node's own highest certified block, which was committed |
| `Finality.ChecksFollowEdges` | core/block.go:311-322 | A certificate check changes a status along the documented diagram, or from valid to indirectly finalized, which the diagram does not show |
| `Finality.RunFinalizesCommitted` | core/block.go:311-322 | In every run a node finalizes a block directly only after it has committed it, at the latest when the certificate of the block being processed is replayed |
| `FinalityRuns.FinalizingRun` | consensus/engine.go:935-992 | A run in which blocks above the root are finalized: one directly, from committed, and its parent indirectly, straight from valid |
| `Validation.CertificateProves` | core/vote.go:50-70 | A certificate is valid exactly when it has at most as many votes as there are validators, one for each voter, each signed for the block, by more than two thirds of the stake |
| `Validation.ValidateExactly` | consensus/engine.go:358-485 | A pending block passes exactly when it is above the last finalized block, its parent is validated, it is by the scheduled proposer at the next height, in a later epoch and at a later time, and names a validated ancestor less than 2000 blocks below that is finalized or proved: the parent, if parent or grandparent changes the validators |
| `Validation.RunBlocksKeepRules` | consensus/engine.go:358-485 | In every run every validated block of every honest node keeps these rules |
| `Outcomes.TipExactly` | consensus/engine.go:882-918 | The tip is a highest validated descendant of the highest certified block, for extending one without a validator update in between |
| `Outcomes.CheckExactly` | consensus/engine.go:834-992 | A check changes nothing unless the block is validated, above the highest certified block and has a majority; then the status of every block, the highest certified and the last finalized block are as stated |
| `Outcomes.HandlingStops` | consensus/engine.go:487-574 | The block handler stops the node exactly for a block that is unknown, or pending below a parent that is unknown or to be waited for |
| `Outcomes.HandlingExactly` | consensus/engine.go:553-674 | Otherwise a decided block stays as it is, a refused one becomes invalid, an undecided one stays pending, and one that applies becomes valid or committed with the flag the ledger gives; only such a block is voted for |
| `Outcomes.ReceiveRecords` | consensus/engine.go:780-792 | A vote message adds a valid vote under its voter, block and epoch and touches no other vote |
| `Outcomes.CertificateCounts` | consensus/engine.go:585-595 | The valid votes in the certificate of a processed block count from then on, whatever the ledger answers |
| `ProposalLimits.LineRun` | consensus/engine.go:553-674 | Up to 2000 blocks: a proposer who hears only votes for the root reaches, in a run, a line of that many own blocks above the root, one in every epoch |
| `ProposalLimits.ProposalTooFar` | consensus/engine.go:415-422 | A node refuses its own proposal: in a run, in the epoch that it is in, on a tip 1999 blocks above its highest certified block |
| `Tips.FindTip` | consensus/engine.go:882-918 | The search terminates and returns the start or a block reached from it through eligible blocks, and no block so reached is higher |
| `Tips.ExpandKeeps` | consensus/engine.go:888-916 | Expanding a block keeps the search invariant: no block is put on the stack twice |
| `Tips.AllExpanded` | consensus/engine.go:888-917 | When the stack is empty every reachable block has been looked at |
| `Epochs.LastEpochWrapsAround` | consensus/engine.go:807-808 | The wrap-around happens: a majority of votes of the last 64-bit epoch takes the epoch back to zero |
| `Epochs.LatestVotesTell` | core/vote.go:274-288 | Keeping a latest vote of every voter loses nothing: who has voted since an epoch can still be told |
| `Epochs.RecordedVoters` | consensus/state.go:217-227 | After any votes, exactly those count as voters since an epoch who counted before or have cast a valid vote of it or a later one |
| `EpochRuns.HonestVoteSince` | consensus/engine.go:793-806 | A majority of recorded votes of an epoch or later contains one that an honest node has signed |
| `EpochRuns.StepGoesBack` | consensus/engine.go:807-808 | A vote takes the epoch back exactly when it is of the last epoch and completes a majority there, and then an honest node has signed in that epoch |
| `EpochRuns.EventGoesForward` | consensus/engine.go:780-832 | A vote that is heard, and a block whose certificate is replayed, take the epoch up, at most one past an honest vote, or leave it |
| `EpochRuns.RunEpochStep` | consensus/engine.go:780-832 | In every run every change of a node's epoch raises it, at most one past all honest votes, unless those have reached the last epoch |
| `EpochRuns.RunEpochNeverBack` | consensus/engine.go:780-832 | In every run in which no honest vote of the last epoch has been signed, the epoch of a node never goes back |
| `EpochRuns.RunEpochBound` | consensus/engine.go:780-832 | The epochs of all honest nodes and votes rise by at most one in a step of a run, whatever faulty validators sign |
| `EpochRuns.ShortRunsGoForward` | consensus/engine.go:780-832 | So within 2 to the 64 minus 1 steps, counted from the root's epoch, no epoch goes back |
| `Engine.ConsensusEngine.constructor` | consensus/state.go:45-59 | A node on a fresh chain starts at the root |
| `Engine.ConsensusEngine.Restart` | consensus/state.go:98-117 | What is read back after a restart is the state the node was in |
| `Engine.ConsensusEngine.GetTip` | consensus/engine.go:882-918 | Returns a tip: the highest certified block or a highest block reached from it |
| `Engine.ConsensusEngine.Vote` | consensus/engine.go:686-735 | A validator always sends a vote of its epoch: again for the block of its last vote, exactly when the tip is not higher or names another certified block than the node's, and for the tip otherwise; a new vote is saved |
| `Engine.ConsensusEngine.AddEpochVote` | consensus/state.go:217-227 | Records a vote, one latest vote for each voter |
| `Engine.ConsensusEngine.EpochMajority` | consensus/engine.go:794-806 | True exactly when the voters of this epoch or a later one hold a majority |
| `Engine.ConsensusEngine.MoveEpoch` | consensus/engine.go:780-832 | Records a valid vote and moves the epoch by one step of the epoch model |
| `Engine.ConsensusEngine.HandleVotes` | consensus/engine.go:586-588 | Handles each vote of a certificate in turn, in the index and in the epoch |
| `Engine.ConsensusEngine.HandleVote` | consensus/engine.go:780-832 | Ignores an invalid vote, otherwise indexes it and moves the epoch as the epoch lemmas say |
| `Engine.ConsensusEngine.ReceiveVoteMessage` | consensus/engine.go:313-319 | The vote handler refines its specification and keeps the invariant; it ends the epoch exactly when the vote is valid, not of an earlier epoch and completes a majority since its epoch, and the next epoch follows that of the vote |
| `Engine.ConsensusEngine.VoteTimerFires` | consensus/engine.go:268-272 | When the vote timer fires, a validator votes exactly if a block of the epoch has been processed |
| `Engine.ConsensusEngine.EpochTimerFires` | consensus/engine.go:273-276 | When the epoch timer fires, a validator votes in any case, and the epoch starts again |
| `Engine.ConsensusEngine.Finalize` | consensus/engine.go:959-992 | Sets the last finalized block and finalizes its branch; the saved state stays current |
| `Engine.ConsensusEngine.ProcessCCBlock` | consensus/engine.go:935-957 | Finalizes the parent when it is the block's own certified block, then raises the highest certified block |
| `Engine.ConsensusEngine.NewlyCertified` | consensus/engine.go:834-868 | True exactly for a validated block without certificate, not below the highest certified one, with a majority |
| `Engine.ConsensusEngine.CheckCertificate` | consensus/engine.go:834-871 | Skips unknown, undecided, certified and outdated blocks, otherwise processes a block with a majority; keeps the invariant |
| `Engine.ConsensusEngine.ValidateBlock` | consensus/engine.go:358-485 | The checks in the order of the code decide as the specification does |
| `Engine.ConsensusEngine.Replay` | consensus/engine.go:585-595 | Replays the certificate's votes, each once and each moving the epoch by its step, and checks the certified block |
| `Engine.ConsensusEngine.MarkValid` | consensus/engine.go:638-645 | Marks the block valid, with its flag, and keeps the invariant |
| `Engine.ConsensusEngine.MarkInvalid` | consensus/engine.go:576-583 | Marks a pending block invalid and keeps the invariant |
| `Engine.ConsensusEngine.VoteIfReady` | consensus/engine.go:647-661 | Votes exactly when the block is of the current or the previous epoch and the vote timer has fired |
| `Engine.ConsensusEngine.DecideBlock` | consensus/engine.go:597-664 | Marks the block invalid, leaves it pending or accepts it, as the ledger answers, and votes exactly when an accepted block is of the current or the previous epoch and the vote timer has fired |
| `Engine.ConsensusEngine.HandleBlockMessage` | consensus/engine.go:487-674 | The block handler refines its specification, keeps the invariant, changes nothing when it ends fatally, moves the epoch by the replayed votes exactly when the block is pending and valid, and votes exactly when such a block applies, is of the current or the previous epoch and the vote timer has fired |
| `Engine.ConsensusEngine.DeliverBlock` | blockchain/chain.go:62-115 | Stores exactly the blocks of its chain that are not known yet, and keeps the invariant |
| `Engine.ConsensusEngine.CreateProposal` | consensus/engine.go:1079-1118 | Assembles a block on a tip with a consolidated and filtered certificate of the highest certified block; its time is the clock, or one more than the parent's if the clock is behind that |
| `Proposals.CertificateIsValid` | consensus/engine.go:1109-1111 | A majority for one block, consolidated and filtered, is a certificate that validation accepts |
| `Proposals.OwnProposalValidates` | consensus/engine.go:358-485 | A node accepts its own proposal exactly when the tip is within reach of the highest certified block, and rejects it otherwise |
| `Proposals.BackedHandleBlock` | consensus/engine.go:553-674 | Processing a block keeps the highest certified block committed or finalized, and the votes behind it |
| `EngineRuns.Starts` | consensus/state.go:45-59 | A node created on its root is a node of a run |
| `EngineRuns.Hears` | consensus/engine.go:313-319 | A vote message handled by the engine is a step of the run: the engine is the node in the longer run |
| `EngineRuns.Receives` | blockchain/chain.go:62-115 | So is a block that is stored; a known one or one of another chain changes nothing |
| `EngineRuns.Processes` | consensus/engine.go:487-674 | So is a block message, whatever the ledger answers and however it ends |
| `EngineRuns.VoteTimerFires` | consensus/engine.go:268-272 | So is the vote timer, which changes nothing if there is no block to vote for |
| `EngineRuns.EpochTimerFires` | consensus/engine.go:273-276 | So is the epoch timer |
| `EngineRuns.Restarts` | consensus/state.go:98-117 | So is a restart |
| `EngineRuns.EnginesAgree` | consensus/engine.go:935-992 | Two engines that take part in one run never finalize blocks of different branches |
| `Bytes.FromToBigEndian` | eth/abi/math_utils.go:30-37 | Reading back the k lowest bytes gives the number modulo 256 to the k |
| `Bytes.BigEndianMasked` | eth/abi/math_utils.go:35-37 | Masking to the bits of the word first changes nothing |
| `Bytes.ReadBits` | eth/abi/math_utils.go:52-61 | The backward loops write the big-endian bytes of the number, cut off or zero-padded to the buffer |
| `Bytes.U256Bytes` | eth/abi/math_utils.go:30-48 | The result is the 32-byte two's complement of any integer |
| `AbiLayout.WordLayout` | eth/abi/pack.go:38-72 | A leaf is one word: integers in two's complement, truth values 0 or 1, addresses at the right end, byte strings at the left end, zeros elsewhere |
| `AbiLayout.BytesLayout` | eth/abi/pack.go:31-34 | A byte string is its length, its bytes and less than a word of zeros, in whole words |
| `AbiLayout.SizeInWords` | eth/abi/type.go:386-401 | Every type size is a multiple of 32, so an index may count words |
| `AbiLayout.EncodeInWords` | eth/abi/type.go:272-351 | Every encoding is a whole number of words |
| `AbiLayout.Layout` | eth/abi/argument.go:221-261 | Heads in order, a static value in its head and a dynamic one where its head points to; tails in order with nothing between them or behind the last |
| `AbiLayout.DynamicExactly` | eth/abi/type.go:366-376 | A type is dynamic exactly when a string, a byte string or a slice occurs in it |
| `AbiMeaning.WordExactly` | eth/abi/unpack.go:36-119 | What any word means as a leaf, and which words are refused |
| `AbiMeaning.DecodesExactly` | eth/abi/unpack.go:122-301 | For every input the decoder gives the value that the input means, part by part at its computed place, and an error if it means none |
| `AbiTypes.EncodeSize` | eth/abi/type.go:386-401 | The encoding of a static value takes exactly the size computed for its type |
| `AbiTypes.HeadsSize` | eth/abi/type.go:386-401 | The heads of a list of values take exactly the size computed before they are written |
| `AbiDecoding.LengthPrefixPointsTo` | eth/abi/unpack.go:257-286 | A range that is returned lies inside the input |
| `AbiDecoding.TuplePointsTo` | eth/abi/unpack.go:289-300 | An offset that is returned lies inside the input |
| `AbiDecoding.ArrayPointsTo` | eth/abi/unpack.go:226-231 | An offset that is accepted lies inside the input |
| `AbiDecoding.DecodeNeverPanics` | eth/abi/unpack.go:193-254 | Decoding any bytes at any index ends in a value or an error when fixed byte strings have at most 32 bytes |
| `AbiDecoding.DecodeAllNeverPanics` | eth/abi/unpack.go:161-189 | The same for lists of values |
| `AbiDecoding.DecodedHasType` | eth/abi/unpack.go:36-254 | What is decoded has the type asked for and all integers in range |
| `AbiDecoding.DecodedIsWithin` | eth/abi/unpack.go:193-254 | Every byte string inside a decoded value is a piece of the input |
| `AbiRoundTrip.WrapIntExact` | eth/abi/unpack.go:36-74 | An integer comes back unchanged exactly when it is in the range of its type |
| `AbiRoundTrip.IntRoundTrip` | eth/abi/unpack.go:36-74 | An encoded integer is read back modulo the width, with its sign |
| `AbiRoundTrip.LeafRoundTrip` | eth/abi/pack.go:38-71 | Every value of a type that fits one word is read back from its encoding |
| `AbiRoundTrip.WrapExact` | eth/abi/pack.go:74-85 | A nested value comes back unchanged exactly when all its integers are in range |
| `AbiRoundTrip.DecodesPlaced` | eth/abi/unpack.go:193-254 | Wherever the head and the tail of a value lie, the decoder finds it, or refuses exactly when the input ends before it looks |
| `AbiRoundTrip.DecodesAll` | eth/abi/unpack.go:161-189 | The same for consecutive heads with their tails |
| `AbiRoundTrip.SolidReach` | eth/abi/unpack.go:194-196 | The decoder never looks past the encoding of a type without empty static parts |
| `AbiRoundTrip.EncodedComesBack` | eth/abi/argument.go:183-261 | Decoding an encoded list gives the values back, out-of-range integers wrapped, exactly when the decoder does not look past the end, and an error otherwise |
| `AbiRoundTrip.RoundTripExactly` | eth/abi/argument.go:183-261 | The values themselves come back exactly when in addition all integers are in range |
| `AbiRoundTrip.SolidRoundTrip` | eth/abi/argument.go:183-261 | Every list of in-range values without empty static parts comes back, however deep the nesting |
| `AbiRoundTrip.EncodingIsInjective` | eth/abi/argument.go:221-261 | Distinct in-range values have distinct encodings |
| `AbiRoundTrip.NegativeIntegerIsLost` | eth/abi/pack.go:74-85 | The exception happens: minus one as an unsigned integer is packed and comes back as another number |
| `AbiRoundTrip.EmptyTupleAlone` | eth/abi/unpack.go:194-196 | The exception happens: an empty tuple as the only argument is not decoded |
| `AbiCodec.PackValue` | eth/abi/type.go:272-351 | Packing a value gives its encoding, or an error exactly when the value has not the Go type |
| `AbiCodec.PackElement` | eth/abi/pack.go:38-71 | The same for values without components |
| `AbiCodec.PackBytesSlice` | eth/abi/pack.go:31-34 | A length, the bytes, and zeros up to a multiple of 32 |
| `AbiCodec.PackList` | eth/abi/type.go:280-305 | The loop with a running offset gives heads and tails of slices and arrays |
| `AbiCodec.PackTuple` | eth/abi/type.go:306-347 | The loop with a running offset gives heads and tails of tuples |
| `AbiCodec.PrefixSize` | eth/abi/type.go:323-326 | The loop adds up the sizes of the heads |
| `AbiCodec.KeptOneByOne` | eth/abi/argument.go:63-71 | Each argument is kept, behind those kept before it, exactly when it is not indexed |
| `AbiCodec.VirtualArgsSize` | eth/abi/unpack.go:166-181 | Counting virtual arguments moves the index by exactly the size of the head, also back by one word for an empty static part |
| `AbiCodec.UnpackValue` | eth/abi/unpack.go:193-254 | Unpacks as the decoder does |
| `AbiCodec.ForEachUnpack` | eth/abi/unpack.go:122-159 | The loop with a moving index decodes the elements of a list |
| `AbiCodec.ForTupleUnpack` | eth/abi/unpack.go:161-189 | The loop with virtual arguments decodes the fields of a tuple |
| `AbiCodec.FilterNonIndexed` | eth/abi/argument.go:63-71 | Keeps the arguments that are not indexed, in order |
| `AbiCodec.Pack` | eth/abi/argument.go:221-261 | Packs all arguments, indexed or not; an error when number or types do not match |
| `AbiCodec.UnpackValues` | eth/abi/argument.go:183-212 | Decodes the arguments that are not indexed |
| `AbiCodec.Unpack` | eth/abi/argument.go:79-87 | An empty input is only accepted when there are no arguments |
| `AbiCodec.ArgumentsRoundTrip` | eth/abi/argument.go:183-261 | Arguments come back from packing and unpacking exactly when none is indexed, all integers are in range, and the decoder does not look past the end |
| `AbiCodec.IndexedArgumentIsMisread` | eth/abi/argument.go:183-261 | The exception happens: an indexed argument is packed, and its value is unpacked as that of the next argument |
| `AbiCodec.UnpackUndoesPack` | eth/abi/argument.go:79-261 | Every list of in-range arguments of which none is indexed and none has an empty static part comes back |
| `JumpAnalysis.JumpDestinationsAreBoundaries` | ledger/vm/contract.go:84-115 | The set of section 9.4.3 of the Yellow Paper holds exactly the JUMPDEST positions that are instruction boundaries reached from the start |
| `JumpAnalysis.ReachesThrough` | ledger/vm/analysis.go:43-60 | From a boundary on, exactly what is reached from it is a boundary |
| `JumpAnalysis.Set` | ledger/vm/analysis.go:24-26 | Sets one bit and no other |
| `JumpAnalysis.Set8` | ledger/vm/analysis.go:27-30 | Sets eight bits from any position on, across two bytes, and no other |
| `JumpAnalysis.CodeSegment` | ledger/vm/analysis.go:33-35 | Tests one bit |
| `JumpAnalysis.CodeBitmap` | ledger/vm/analysis.go:38-62 | The bitmap is never written out of bounds and marks exactly the data positions, also those past the end of the code |
| `JumpAnalysis.MarkPush` | ledger/vm/analysis.go:46-56 | Marks exactly the data of one PUSH and moves to the next instruction |
| `JumpAnalysis.BitmapMeaning` | ledger/vm/analysis.go:33-62 | On the code, a position is unmarked exactly when it is an instruction boundary |
| `JumpAnalysis.Contract.SetCallCode` | ledger/vm/contract.go:172-176 | When the hash belongs to the code, the contract stays in order exactly when it holds no local analysis or one that is the bitmap of the new code |
| `JumpAnalysis.StaleAnalysis` | ledger/vm/contract.go:108-114 | A local analysis of other code gives right answers exactly when it agrees with the code at every JUMPDEST |
| `JumpAnalysis.StaleAnalysisMisleads` | ledger/vm/contract.go:108-114 | It can be wrong: a JUMPDEST where the analysed code has data is refused |
| `JumpAnalysis.Contract.ValidJumpdest` | ledger/vm/contract.go:84-115 | Through either cache, and whatever was asked before, the answer is membership in the set of valid destinations, for destinations below 2 to the 62 |
| `Sends.SendEffect` | ledger/execution/executils.go:240-264 | After a transfer each input has paid its coins and counted up, each output has received its coins, and every other account is as before |
| `Sends.SendConserves` | ledger/execution/tx_send.go:31-122 | An accepted transfer lowers the total of TFuel by exactly its fee |
| `Sends.OutputsCarryNoTheta` | ledger/execution/tx_send.go:59-98 | Although only inputs are checked for Theta, no output of an accepted transfer carries any |
| `Sends.SendKeepsAccount` | ledger/execution/tx_send.go:31-122 | No balance goes negative, no Theta balance changes, and exactly the inputs' sequence numbers go up by one, modulo 2 to the 64 |
| `Sends.RunConserves` | ledger/execution/tx_send.go:31-122 | Over any sequence of accepted transfers the total falls by exactly the sum of the fees and no balance is ever negative |
| `Sends.RunCounts` | ledger/execution/executils.go:191-250 | A sequence number counts, modulo 2 to the 64, the transfers its account has paid in to |
| `Sends.AcceptedAgain` | ledger/execution/executils.go:191-198 | A transfer that is accepted again has had a positive multiple of 2 to the 64 payments from each of its inputs in between |
| `Sends.NeverAcceptedTwice` | ledger/execution/executils.go:191-198 | So no transfer is accepted twice within 2 to the 64 transfers |
| `SendRules.AcceptedExactly` | ledger/execution/tx_send.go:31-104 | A transfer is accepted exactly when it keeps the limits, pays the fee, balances, every input is signed, known, funded and next in count, no address occurs twice and, from the height of contracts on, no party is a contract |
| `SendRules.RunObeysRules` | ledger/execution/executils.go:190-218 | In every accepted sequence every transfer is proper and every input signed, its number is one more than the account had at first and has paid since, and no party has been a contract |
| `SendExecution.StoreView.Copy` | ledger/state/storeview.go:53-65 | A copy shows the same state in a fresh object, without the coinbase flag |
| `SendExecution.ValidateInputsBasic` | ledger/execution/executils.go:158-171 | True exactly when all inputs are well formed and carry no Theta |
| `SendExecution.ValidateOutputsBasic` | ledger/execution/executils.go:220-228 | True exactly when all outputs are well formed |
| `SendExecution.GetInputs` | ledger/execution/executils.go:80-96 | Loads the input accounts, or fails exactly on an unknown or repeated address |
| `SendExecution.GetOrMakeOutputs` | ledger/execution/executils.go:140-155 | Adds the output accounts, new where unknown, or fails exactly on a repeated address |
| `SendExecution.HasContract` | ledger/execution/tx_send.go:76-83 | True exactly when one of the loaded accounts is a smart contract |
| `SendExecution.ValidateInputAdvanced` | ledger/execution/executils.go:191-218 | True exactly when the input has the next sequence number, modulo 2 to the 64, enough coins and a signature |
| `SendExecution.ValidateInputsAdvanced` | ledger/execution/executils.go:174-189 | Succeeds exactly when every input has the next sequence number, enough coins and a signature, and returns the sum |
| `SendExecution.TotalOutputs` | ledger/execution/executils.go:230-236 | The loop adds up the outputs |
| `SendExecution.SanityCheck` | ledger/execution/tx_send.go:31-104 | Accepts exactly the transfers of the specification |
| `SendExecution.AdjustByInputs` | ledger/execution/executils.go:240-253 | Never meets a missing account or missing funds, and withdraws all inputs |
| `SendExecution.AdjustByOutputs` | ledger/execution/executils.go:255-264 | Pays all outputs |
| `SendExecution.Process` | ledger/execution/tx_send.go:106-124 | Carries the transfer out, or changes nothing when addresses are unknown or repeated |
| `Ledger.SelectedApplies` | ledger/ledger.go:276-296 | The transactions that a proposer keeps after skipping failures apply without failure from the same state and reach the same state |
| `Ledger.KeptEntirely` | ledger/ledger.go:277-290 | The whole list of candidates is kept exactly when it applies without failure |
| `Ledger.AppliedIsRun` | ledger/ledger.go:340-360 | A block that applies is a sequence of accepted transfers with at most one coinbase transaction, and none if the flag was still set |
| `Ledger.BranchConserves` | ledger/ledger.go:312-394 | Along the blocks of a branch TFuel falls by exactly the fees, no balance is negative, and no transfer is in it twice within 2 to the 64 |
| `Ledger.LedgerState.ResetState` | ledger/state/state.go:56-78 | All three views show the stored state in separate fresh objects, or nothing changes when it is not stored |
| `Ledger.LedgerState.Commit` | ledger/state/state.go:137-152 | Stores the delivered state under its root hash; the delivered view's own coinbase flag is not cleared |
| `Ledger.LedgerState.ProcessTx` | ledger/execution/executor.go:99-162 | Executes a coinbase or send transaction on one view, all of it or nothing |
| `Ledger.LedgerState.ProposeBlockTxs` | ledger/ledger.go:243-307 | Keeps exactly the candidates that do not fail, and returns the root of the state they reach on the checked view |
| `Ledger.LedgerState.ApplyBlockTxs` | ledger/ledger.go:312-394 | Succeeds exactly when no transaction fails and the root matches, then stores that state; otherwise nothing is stored, and all views are back at the parent if its state is stored and the same objects as before if it is not |
| `Ledger.ProposeElsewhereApply` | consensus/engine.go:1079-1119 | A block assembled on one ledger is accepted by every other ledger that has the parent's state, and a reset to it brings back the proposer's state |
| `Ledger.SelectedOneByOne` | ledger/ledger.go:279-292 | Each candidate is kept exactly when it does not fail on top of those kept before it |
| `Ledger.BranchObeysRules` | ledger/execution/tx_send.go:31-104 | Along a branch every transfer is signed by its inputs, pays the fee, keeps the limits and has the next number of each input |
| `Ledger.CoinbaseExactly` | ledger/execution/tx_coinbase.go:40-79 | A block applies with a coinbase transaction exactly when the rest does, none came before, and it is well formed and signed for this height by a validator of the parent |
| `Bookkeeper.SeenExactly` | mempool/tx_bookkeeper.go:89-137 | A transaction recorded once counts as seen for exactly one minute, unless as many others as there is room for have been recorded since |
| `Bookkeeper.IndexIsSeen` | mempool/tx_bookkeeper.go:61-71 | Once outdated records are gone, the map holds exactly the hashes recorded at most a minute ago with fewer than N later records |
| `Bookkeeper.RecordKeeps` | mempool/tx_bookkeeper.go:119-134 | A new record, pushing out the oldest one when the list is full, keeps list and map in step |
| `Bookkeeper.TransactionBookkeeper.RemoveOutdatedTxs` | mempool/tx_bookkeeper.go:89-106 | Afterwards the map holds exactly what counts as seen, with unchanged statuses |
| `Bookkeeper.TransactionBookkeeper.HasSeen` | mempool/tx_bookkeeper.go:61-71 | True exactly when the transaction was recorded at most a minute ago with fewer than N later records |
| `Bookkeeper.TransactionBookkeeper.GetStatus` | mempool/tx_bookkeeper.go:74-87 | A status is known for exactly these transactions |
| `Bookkeeper.TransactionBookkeeper.AddRecord` | mempool/tx_bookkeeper.go:108-137 | Records a transaction exactly when it does not count as seen |
| `Bookkeeper.TransactionBookkeeper.MarkAbandoned` | mempool/tx_bookkeeper.go:139-148 | Changes the status of a known transaction and nothing else |
| `Bookkeeper.TransactionBookkeeper.Reset` | mempool/tx_bookkeeper.go:54-59 | Forgets everything |
| `Mempool.FindFirst` | mempool/mempool.go:99-102 | The head of a group is a transaction with the lowest sequence number |
| `Mempool.RemoveFrom` | mempool/mempool.go:109-126 | Removes exactly the named transactions from a group and counts them |
| `Mempool.HeldWithoutAll` | mempool/mempool.go:376-399 | Removal takes exactly the named transactions out of the multiset held |
| `Mempool.GroupWritten` | mempool/mempool.go:207-215 | Writing new transactions to a group keeps addresses and queued groups in bijection |
| `Mempool.GroupAdded` | mempool/mempool.go:211-215 | So does a new group for a new address |
| `Mempool.GroupDropped` | mempool/mempool.go:302-306 | So does dropping an emptied group |
| `Mempool.SplitsNext` | mempool/mempool.go:288-312 | Taking one more transaction keeps the split of what was held and the order within each account |
| `Mempool.Mempool.Screen` | mempool/mempool.go:181-206 | A transaction that counts as seen is a duplicate; only one that passes the screening is recorded |
| `Mempool.Mempool.InsertTransaction` | mempool/mempool.go:181-223 | Adds exactly one transaction, or changes neither pool nor counter; keeps the bijection and the counter at or above the number held |
| `Mempool.Mempool.PopNext` | mempool/mempool.go:292-306 | Takes a first transaction of an account and drops the group when it was the last; no account has only first transactions of a higher gas price, as long as nothing was removed out of turn |
| `Mempool.Mempool.Reap` | mempool/mempool.go:282-320 | What was held splits into returned, expired and still held; the returned ones of an account are in sequence order and before all that stay; as many are taken as asked for, all when uncapped; they are taken greedily by gas price, as long as nothing was removed out of turn |
| `Mempool.Mempool.RemoveTxs` | mempool/mempool.go:376-399 | Removes the named transactions from all groups and lowers the counter by exactly their number |
| `Mempool.Mempool.FindInvalid` | mempool/mempool.go:345-366 | Collects the transactions of a group that have expired or were refused by an answer given in this update; all others were accepted by one; exactly the collected ones that are still recorded are marked as abandoned |
| `Mempool.Mempool.Update` | mempool/mempool.go:333-374 | The committed, expired and refused transactions leave, everything else stays, and all that stays has been accepted in this update; exactly the refused ones are marked as abandoned |
| `Proposers.GetProposer` | consensus/validator.go:99-124 | Returns the validator into whose share the draw falls, or none exactly when the draw is not below the sum of the shares |
| `Proposers.OneWinner` | consensus/validator.go:114-119 | No draw has two winners |
| `Proposers.FoundMeansWon` | consensus/validator.go:114-119 | Exactly the draws below the sum of the shares have a winner |
| `Proposers.ScaledFits` | consensus/validator.go:104-119 | The scaled total, every share and every sum that the loop forms fit 32 bits, so nothing overflows |
| `Proposers.ScalingIsLeast` | consensus/validator.go:104-110 | No smaller scaling factor makes the total fit |
| `Proposers.DrawsAreShared` | consensus/validator.go:104-119 | Each validator wins exactly floor(stake/f) draws; the unassigned draws number floor(sum of remainders/f), at most one less than there are validators |
| `Proposers.AlwaysFound` | consensus/validator.go:114-123 | Every draw has a winner exactly when the remainders of the stakes modulo f sum to less than f |
| `Proposers.AlwaysFoundWhenSmall` | consensus/validator.go:104-119 | When the total stake is below 2 to the 32 minus 1 every unit of stake is a draw and every draw has a winner |
| `Proposers.DrawWithoutWinner` | consensus/validator.go:121-123 | The place that should not be reached is reached for stakes 1 and 2 to the 32 minus 1 |
| `Proposers.AddValidator` | core/validator.go:136-139 | Adds a validator to any list and sorts it by address; no set of voters gains or loses other stake |
| `Proposers.FilterValidators` | consensus/validator.go:142-156 | Drops exactly the validators without stake; no set of voters gains or loses stake by it |

## Left out

- A start from a snapshot: the import stores the parent of the root as well, as a finalized block. Runs here start at a genesis block, which has no parent.
- Networking, synchronization, the lengths of the timers, RPC, snapshots, interchain messages and the peer-to-peer layer.
- The EVM interpreter, gas, smart contract transactions and validator set update transactions; blocks of the ledger model hold coinbase and send transactions only.
- Changes of the validator set: the consensus model has one fixed set, the flag of a validator update is kept and checked.
- Hardcoded, trusted and disposed blocks and the automatic rewind, which are dead while the table of hardcoded blocks is empty.
- Crashes inside a handler and concurrency inside one node.
- Liveness: nothing is proved about a block ever being finalized.
- Block header validation by the synchronization layer (signature, proposer, transaction root) before a block reaches the engine.
- The repetition of an earlier proposal, the state field that remembers it, and the stop flag inside finalization.
- The panic of the proposer choice inside the vote handler, which looks up the next proposer for a log line.
- Heights are unbounded numbers; only epochs, account sequence numbers and ABI integers have their width.
- Index entries under Ethereum transaction hashes, receipts and the removal of votes.
- The votes that are sent along with a proposal, with the merging of vote sets behind them, and the encodings of vote sets.
- ABI hash and fixed-point types, JSON, the mapping of struct fields, and the overflow of array sizes beyond 63 bits.
- AbiCodec.PackValue: a Go array of another length given for an address or a function is refused here, while the code packs it; an empty list here has no element type that could be wrong.
- AbiCodec.PackElement: the same arrays are refused here.
- AbiDecoding.DecodeNeverPanics: a fixed byte string of more than 32 bytes, which the Contract ABI Specification does not have, is a crash here, while the code cuts it out of the input behind the word and crashes only past its end.
- Error messages and codes: a refused transaction, block or argument is one kind of error.
- The flag that skips sanity checks while committed blocks are replayed, and the chain correction variant of applying a block.
- Account fields other than sequence, balance and being a contract; bringing an account to a height is the identity.
- Mempool.Mempool: groups are values behind references, the heap inside a priority queue is not modelled, and neither are the flush and the gossip list.
- Mempool.Mempool.PopNext: says nothing about which group is taken once transactions have been removed out of turn, because the code does not reorder the outer queue then.
- TransactionBookkeeper: a capacity of zero, with which the first record crashes, and the removal of a single record, which nothing calls.
- Gas accounting and delegate calls of contracts; the jump analysis is the only part of the virtual machine modelled.
- Proposers.GetProposer: the random draw is an argument; an empty set of validators and a total stake of zero, with which the code panics before drawing, are not distinguished from a draw without a winner.

# Heuristic miner and event-log parser, modelled in Dafny

This project models the two pieces of the blockchain process-mining pipeline that carry its
logic.

**The event-log parser** (`parse_event_log`) turns rows of a raw trace table into events.
- Each kept row gets a position key `blockNumber * block_padding + rowIndex`.
- It gets the contract/ERC20 flags and ids of its sender and receiver. Addresses the lookup does not know get `False`, `False`, `-1`. The lookup is built from every sender and receiver address of the table (parser/event_log_parser.py:20-36), so in the program only a missing address gets `-1`; a present non-contract address gets flags `False` and its own lookup id.
- It gets the time of its block; rows whose block has no time are dropped by an inner join.
- It gets a case id: the position of its transaction hash among the unique hashes.
- It gets a three-character category `senderCode + 't' + receiverCode` such as `"UtC"`.
- Only `call` rows are kept.

**The heuristic miner** (`compute_transitions`, `compute_dependency_confidence`) reads a
case-ordered event log.
- It labels each event's incoming transition (`"sta->X"` or `"A->B"`) and each case end (`"X->end"`).
- It interleaves the two label columns with the index-doubling "cog" move: event rows at even labels, all-missing gap rows at odd labels.
- It forward-fills the gaps and counts the labels.
- It then scores each label by its count against the count of its reverse.

The pandas operations are modelled on sequences and maps, in module `Frames` and module `Counting`.
- `shift(1)`/`shift(-1)` give a missing cell at the edge.
- `concat` followed by `sort_index` is modelled as rows in ascending label order.
- `fillna(method='ffill')` takes the nearest present cell above.
- `groupby(...).count()` counts occurrences and ignores missing cells.
- Merges are map lookups keyed by address, block number and hash.
- A missing cell is `None`, and a missing neighbour id compares unequal to every id, as `float('nan')` does.

Module layout:
- `Wrappers`: `Option` and `Result`.
- `Labels`: label strings and Python's `str.split('->')`.
- `Frames`: column shifts, forward fill and sorting by index label.
- `Counting`: group counts and their total.
- `HeuristicMiner`: the miner.
- `EventLogParser`: the parser.
- `Pipeline`: what the parser's guarantees mean for the miner.

Two errors of the miner are modelled as `Failure` values.
- An empty log raises before anything is counted. This is `Failure(EmptyLog)`.
  - It is a `ValueError` at the assignment of the row-wise `apply` result (miner/heuristic_miner.py:30).
  - Or, where `apply` reduces an empty frame to an empty series, it is an `IndexError` at `empty_frame.index[0]` (miner/heuristic_miner.py:40).
- A counted label that `split('->')` does not cut into exactly two pieces raises `ValueError` when it is unpacked. This is `Failure(MalformedLabel)`.

Where the documentation and the code disagree, the model follows the code:
- The default `block_padding` is `1000000000`; the docstring says 100M.
- Equal forward and backward counts score `1`; the docstring says `0` means "no relationship". A score of `0` never arises.
- The merged frame of `n` events has `2n - 1` rows, not `n` plus the number of cases.
  - A gap row after an event that does not end its case holds a forward-filled copy of that event's incoming label, so the label is counted twice.
  - No gap row follows the last event, so its `"->end"` label is never counted.
  - `HeuristicMiner.CogExample` works this through for three events in two cases.

## Model

| member | source | states |
|---|---|---|
| HeuristicMiner.CurrTransitions | miner/heuristic_miner.py:26-32 | the `curr_transition` column built from the `shift(1)` neighbours equals the reference reading: `"sta->X"` when the event opens its case (first row or case id differs from the row above), `"A->B"` otherwise |
| HeuristicMiner.NextTransitions | miner/heuristic_miner.py:28-34 | the `next_transition` column built from the `shift(-1)` neighbours holds `"X->end"` exactly for the events that close their case (last row or case id differs from the row below), and is missing elsewhere |
| Frames.ShiftDown | miner/heuristic_miner.py:26-27 | `shift(1)`: same length, the first cell missing, and every other cell the cell one row above |
| Frames.ShiftUp | miner/heuristic_miner.py:28-29 | `shift(-1)`: same length, the last cell missing, and every other cell the cell one row below |
| Frames.SortIndexOrdered | miner/heuristic_miner.py:41-42 | after `sort_index` the row labels strictly ascend |
| Frames.SortIndexIn | miner/heuristic_miner.py:41-42 | every row after sorting is a row of the concatenated frame |
| Frames.SortIndexKeepsRows | miner/heuristic_miner.py:41-42 | with unique labels, every row of the concatenated frame survives the sort |
| Frames.SortIndexDense | miner/heuristic_miner.py:41-42 | a frame labelled exactly `0..m-1` sorts into label order: row `k` is the row labelled `k` |
| Frames.FillForward | miner/heuristic_miner.py:47 | `ffill` keeps the length, and each cell becomes the nearest present cell at or above it (an independent backward search), or stays missing when there is none |
| Frames.PresentAboveIn | miner/heuristic_miner.py:47 | a forward-filled cell is missing or a cell of the original column: filling invents no value |
| HeuristicMiner.ComputeTransitions | miner/heuristic_miner.py:8-59 | fails exactly on the empty log; otherwise the counts have a key exactly for each label in the transition column, and each value is that label's number of occurrences |
| HeuristicMiner.CogInterleave | miner/heuristic_miner.py:36-47 | for events indexed `0..n-1` with `n >= 1`, the frame has `2n - 1` rows; rows `2i` and `2i+1` carry event `i`'s position and time; row `2i` holds its incoming label; row `2i+1` holds its `"->end"` label when it closes its case and otherwise a copy of its incoming label |
| HeuristicMiner.CogExample | miner/heuristic_miner.py:36-53 | for the log `UtC, CtU` (one case) then `UtU` (another), the column is `sta->UtC, sta->UtC, UtC->CtU, CtU->end, sta->UtU`, and `"sta->UtC"` is counted twice while `"UtU->end"` is not counted |
| HeuristicMiner.LabelsFromEvents | miner/heuristic_miner.py:26-47 | for any unique index, every label in the frame is the incoming label of some event or the `"->end"` label of an event that closes its case |
| Counting.GroupCount | miner/heuristic_miner.py:53 | a label is a key exactly when it occurs in the column, and its value is its number of occurrences; missing cells are not counted |
| Counting.GroupCountTotal | miner/heuristic_miner.py:53 | the counts sum to the number of non-missing cells |
| HeuristicMiner.CountsTotal | miner/heuristic_miner.py:53 | for events indexed `0..n-1`, the counts sum to `2n - 1` |
| Labels.JoinOfSplit | miner/heuristic_miner.py:73 | joining the pieces of `split('->')` with the separator gives the label back |
| Labels.SplitPieces | miner/heuristic_miner.py:73 | no piece of `split('->')` contains the separator |
| Labels.SplitOfJoin | miner/heuristic_miner.py:73 | two separator-free pieces joined by `"->"` split back into exactly those two pieces |
| Labels.PairIffJoin | miner/heuristic_miner.py:73 | a label splits into exactly two pieces if and only if it is the join of two separator-free pieces |
| HeuristicMiner.ReverseFacts | miner/heuristic_miner.py:73-80 | a two-piece label is rebuilt by formatting its pieces, and its reverse `"B->A"` is a two-piece label whose reverse is the original |
| HeuristicMiner.Ratio | miner/heuristic_miner.py:84-87 | the score lies in `[-1, 1]`; equal counts give `1`; otherwise the sum is positive and score × sum = difference; a zero backward count gives `1`, a zero forward count `-1`; the sign shows which direction dominates |
| HeuristicMiner.RatioAntisymmetric | miner/heuristic_miner.py:84-87 | swapping two unequal counts negates the score |
| HeuristicMiner.Confidence | miner/heuristic_miner.py:73-87 | the score of a label is the ratio of its count to its reverse's count, with 0 for an absent label, and lies in `[-1, 1]` |
| HeuristicMiner.ComputeDependencyConfidence | miner/heuristic_miner.py:62-88 | fails exactly when some key does not split into two pieces; otherwise there is one score per key, and it is that key's `Confidence` (so `(awb - bwa) / (awb + bwa)` for unequal counts), in `[-1, 1]`, and `1` when the reverse label is absent or equally frequent |
| HeuristicMiner.SelfLoopConfidence | miner/heuristic_miner.py:84-85 | a self-loop `"A->A"` scores `1` |
| HeuristicMiner.ConfidenceAntisymmetric | miner/heuristic_miner.py:73-87 | a label and its reverse with different counts score opposite values |
| EventLogParser.ResolveActor | parser/event_log_parser.py:49-75 | a missing address or one the lookup lacks gets flags `False`, `False` and id `-1`; a known address gets its lookup id, and each flag is true exactly when the lookup holds `True` |
| EventLogParser.UnknownIsUser | parser/event_log_parser.py:67-81 | an actor the lookup does not know is classified `"U"` and has id `-1` |
| EventLogParser.TransactionType | parser/event_log_parser.py:80-82 | three characters with `'t'` in the middle, one of `CtC`, `CtU`, `UtC`, `UtU`; the first is `'C'` exactly for a contract sender, the last exactly for a contract receiver |
| EventLogParser.CategoryIffFlags | parser/event_log_parser.py:80-82 | two events share a category if and only if their senders and their receivers agree on being contracts |
| EventLogParser.PositionKeyOrder | parser/event_log_parser.py:45 | with row indices below the padding, position keys order rows by block and then by row, and are equal only for equal block and row |
| EventLogParser.DistinctPositions | parser/event_log_parser.py:45 | when the table has no more rows than the padding, no two events share a position key |
| EventLogParser.Unique | parser/event_log_parser.py:39 | `unique()` holds each value of the column once, nothing else, in order of first appearance |
| EventLogParser.TransactionIds | parser/event_log_parser.py:39-41 | every row hash has an id, and it is the hash's position in the unique list |
| EventLogParser.IdsInjective | parser/event_log_parser.py:39-41 | two hashes share an id if and only if they are equal |
| EventLogParser.Survivors | parser/event_log_parser.py:51-78 | the kept rows, in increasing row order; a row is kept if and only if it is a call and its block has a time |
| EventLogParser.ParseEventLog | parser/event_log_parser.py:5-88 | the hash list is `unique()` of the hash column: the rows' hashes, without repeats, in order of first appearance; there is one event per kept row in row order, each from a `call` row whose block has a time; its position key, time, input and actors come from its row, its category is built from its own sender and receiver, and its id is the position of its row's hash in the hash list |
| EventLogParser.DeriveEvent | parser/event_log_parser.py:45-82 | the event of one row: index from the merges, position key `block * padding + row`, its block's time, its input, the two resolved actors, the category built from them, and the id of its row's hash |
| EventLogParser.JoinedBeforeCounts | parser/event_log_parser.py:49-52 | the index a row gets from the merges is the number of rows above it whose block has a time |
| EventLogParser.JoinedBeforeGrows | parser/event_log_parser.py:49-52 | a joined row's index is below the index of every later row |
| EventLogParser.SurvivorsAreJoined | parser/event_log_parser.py:49-79 | when every joined row is a call, the kept rows are exactly the joined rows and the `k`-th kept row has index `k` |
| EventLogParser.DefaultPaddingPositions | parser/event_log_parser.py:5-6 | under the default padding of `10^9`, a table of up to `10^9` rows gives every event its own position key |
| EventLogParser.KeptRowsSurvive | parser/event_log_parser.py:51-78 | every call row whose block has a time yields an event with that row's position key |
| EventLogParser.SameCaseIffSameHash | parser/event_log_parser.py:52 | two events share a case id if and only if their rows share a transaction hash |
| EventLogParser.IndexIncreasing | parser/event_log_parser.py:49-79 | the index labels of the events strictly increase |
| EventLogParser.IndexDense | parser/event_log_parser.py:49-79 | when every joined row is a call, the events are indexed `0..n-1` |
| Pipeline.ParsedLogFitsMiner | parser/event_log_parser.py:49-82 | the parsed events, read as a miner log, all carry one of the four categories and have unique index labels |
| Pipeline.ParsedLogRangeIndex | parser/event_log_parser.py:49-79 | when every joined row is a call, the parsed events meet the cog interleave's `0..n-1` condition |
| Pipeline.WellFormedSplits | miner/heuristic_miner.py:73 | a label made of a source code and a target code splits into exactly those two, and its reverse swaps them |
| Pipeline.CountedLabelsWellFormed | miner/heuristic_miner.py:26-53 | in a non-empty categorised log, every counted label is `source->target`, with a category or `sta` before the arrow and a category or `end` after it |
| Pipeline.ReverseOfBoundary | miner/heuristic_miner.py:73-82 | the reverse of a case-opening or case-closing label is never such a label |
| Pipeline.ConfidenceSucceeds | miner/heuristic_miner.py:72-73 | for a non-empty categorised log, scoring never hits the unpacking error |
| Pipeline.BoundaryConfidence | miner/heuristic_miner.py:72-87 | in a non-empty categorised log, every counted `"sta->X"` and `"X->end"` label scores `1`, because its reverse is never counted |
| Pipeline.ParseThenMine | miner/heuristic_miner.py:8-88 | for any parsed trace table: an empty parse makes the miner fail with the empty-log error; otherwise the miner succeeds, counts only well-formed labels and scores them without error |

## Left out

- Orchestration: the day bucketing, CSV reading and writing, timing and logging. In the orchestration script the per-day frames keep their original index labels, so the `0..n-1` condition of the cog interleave does not hold there in general. Only the miner on one log is modelled.
- The address/transaction shortener script and the column-name constants: they carry no logic beyond what is modelled.
- The construction of the address lookup: the set union of addresses, `hex(int(x))` normalisation and the outer merge with the contract table. The lookup is an input map from address to entry. The returned lookup and hash frame are the inputs and `transactionHashes`.
- Row multiplication by pandas left and outer merges: the lookup, the block times and the hash ids are maps, so each raw row matches at most once.
- The order of the merged rows: the model keeps the raw row order. The pandas versions this code targets (it uses `DataFrame.append`, orchestration/orchestrate.py:69) group the rows of an inner merge by key when a key repeats. So the model's order, and the index labels it assigns, are those of pandas when each block's rows and each transaction's rows are contiguous in the raw table. A table sorted by block number, with the rows of each transaction kept together, meets that. Modelling pandas' grouping order would mean modelling its hash-join internals.
- Categorical dtype casts and the overwrites of `sender_type`/`receiver_type` (miner/heuristic_miner.py:21-23, parser/event_log_parser.py:84-86): they do not affect labels or counts. `ParsedEvent` does not carry the two per-actor type columns.
- Intermediate CSV saving in the miner (miner/heuristic_miner.py:49-57).
- Integer width: position keys `blockNumber * block_padding + rowIndex` are unbounded integers, without the int64 wrap-around of pandas. Wrap-around would need block numbers above about 9.2·10^9 under the default padding.
- Float columns of the transition frame: concatenating the events with the all-NaN gap rows (miner/heuristic_miner.py:38-41) makes the integer `total_pos` and `timestamp` columns float64, and the returned frame keeps them so. `HeuristicMiner.TransitionRow` holds them as exact integers. float64 holds integers exactly only below 2^53, so the program's `total_pos` values are exact only for blocks below about 9.0·10^6 at the default padding; above that, two events of one block can share a rounded `total_pos`. Labels, counts and scores do not depend on these columns.
- Floating point: case ids are integers compared exactly, scores are exact `real`s, and a missing neighbour is `None` instead of NaN.
- The case of non-unique index labels in the miner: `HeuristicMiner.ComputeTransitions` requires unique labels. Every frame the parser produces has them (`Pipeline.ParsedLogFitsMiner`). With repeated labels, `sort_index` would keep all rows, and the model's label lookup would keep only the first.
- HeuristicMiner.CogInterleave: requires the index `0..n-1`. For other unique labels only the weaker `HeuristicMiner.LabelsFromEvents` is stated, because the interleave's rows then depend on the gaps between labels.
- The dependency graph and per-bucket case-length histograms: no code for them is part of this model.

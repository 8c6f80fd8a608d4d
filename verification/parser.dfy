/** The event-log parser: turns raw trace rows into the events the miner reads. Each kept row
    gets a position key, the flags and ids of its two actors, the time of its block, a case id
    from its transaction hash, and a three-character category such as `"UtC"`. */
module EventLogParser {
  import opened Wrappers
  import opened Labels

  type Address = string
  type Hash = string

  /** One row of the raw trace table: `action.from`, `action.input`, `action.to`,
      `blockNumber`, `transactionHash` and `type`. A missing address is `None`. */
  datatype RawTransaction = RawTransaction(
    from: Option<Address>, input: string, to: Option<Address>,
    blockNumber: int, transactionHash: Hash, kind: string)

  /** One row of the address lookup: `isContract` and `isERC20` are missing for addresses that
      are not known contracts, and `id` is the row's position in the lookup. */
  datatype AddressEntry = AddressEntry(isContract: Option<bool>, isERC20: Option<bool>, id: int)

  /** An actor of an event after the missing flags and ids have been filled. */
  datatype Actor = Actor(isContract: bool, isERC20: bool, id: int)

  /** One parsed event: its index label after the merges, `total_pos`, `action.input`, the
      sender and receiver, the block time, `transaction_id` and `transaction_type`. */
  datatype ParsedEvent = ParsedEvent(
    index: nat, totalPos: int, input: string, sender: Actor, receiver: Actor,
    timestamp: int, transactionId: nat, transactionType: string)

  /** What the parser returns besides the address lookup: the unique transaction hashes (whose
      positions are the transaction ids) and the events. */
  datatype ParsedLog = ParsedLog(transactionHashes: seq<Hash>, events: seq<ParsedEvent>)

  /** The default `block_padding`. */
  const DefaultBlockPadding: int := 1_000_000_000

  /** The trace `type` of the rows that are kept; contract creations are dropped. */
  const CallKind: string := "call"

  /** The actor of an address the lookup does not know: both flags `False`, id `-1`. */
  const UnknownActor: Actor := Actor(false, false, -1)

  // ---------------------------------------------------------------------------------------
  // Actors and categories

  /** `check_user_type`: `"C"` for a contract, `"U"` for a user.
      `TransactionType` and `CategoryIffFlags` state what the codes mean for a category. */
  function CheckUserType(isContract: bool): (code: string)
    ensures |code| == 1
    ensures code == "C" <==> isContract
    ensures code == "U" <==> !isContract
  {
    if isContract then "C" else "U"
  }

  /** The left merge with the address lookup followed by the `fillna` calls: a missing
      address or one the lookup does not hold gets the unknown actor, and a known address
      gets its lookup id, with a missing flag read as `False`. */
  function ResolveActor(lookup: map<Address, AddressEntry>, address: Option<Address>): (actor: Actor)
    ensures address.None? || address.value !in lookup ==> actor == UnknownActor
    ensures address.Some? && address.value in lookup ==>
      actor.id == lookup[address.value].id &&
      (actor.isContract <==> lookup[address.value].isContract == Some(true)) &&
      (actor.isERC20 <==> lookup[address.value].isERC20 == Some(true))
  {
    match address
    case None => UnknownActor
    case Some(a) =>
      if a in lookup then
        var entry := lookup[a];
        Actor(entry.isContract.GetOr(false), entry.isERC20.GetOr(false), entry.id)
      else UnknownActor
  }

  /** An actor the lookup does not know is classified as a user. */
  lemma UnknownIsUser(lookup: map<Address, AddressEntry>, address: Option<Address>)
    requires address.None? || address.value !in lookup
    ensures CheckUserType(ResolveActor(lookup, address).isContract) == "U"
    ensures ResolveActor(lookup, address).id == -1
  {
  }

  /** `transaction_type`: the sender's code, `'t'`, the receiver's code. */
  function TransactionType(sender: Actor, receiver: Actor): (t: string)
    ensures |t| == 3 && t[1] == 't' && IsCategory(t)
    ensures t[0] == 'C' <==> sender.isContract
    ensures t[2] == 'C' <==> receiver.isContract
  {
    CheckUserType(sender.isContract) + "t" + CheckUserType(receiver.isContract)
  }

  /** The category keeps exactly the two contract flags: two events share a category if and
      only if their senders and their receivers agree on being contracts. */
  lemma CategoryIffFlags(s1: Actor, r1: Actor, s2: Actor, r2: Actor)
    ensures TransactionType(s1, r1) == TransactionType(s2, r2) <==>
      s1.isContract == s2.isContract && r1.isContract == r2.isContract
  {
    var t1 := TransactionType(s1, r1);
    var t2 := TransactionType(s2, r2);
    if t1 == t2 {
      assert t1[0] == t2[0] && t1[2] == t2[2];
    }
  }

  // ---------------------------------------------------------------------------------------
  // Position keys

  /** `total_pos`: the block number times the padding plus the row index. */
  function PositionKey(block: int, row: int, padding: int): int {
    block * padding + row
  }

  /** With row indices below the padding, position keys order rows by block and then by row,
      and two rows share a key only when they share both. */
  lemma PositionKeyOrder(b1: int, r1: int, b2: int, r2: int, padding: int)
    requires 0 <= r1 < padding && 0 <= r2 < padding
    ensures PositionKey(b1, r1, padding) < PositionKey(b2, r2, padding) <==>
      b1 < b2 || (b1 == b2 && r1 < r2)
    ensures PositionKey(b1, r1, padding) == PositionKey(b2, r2, padding) <==>
      b1 == b2 && r1 == r2
  {
    if b1 < b2 {
      BlockGap(b1, b2, padding);
    } else if b2 < b1 {
      BlockGap(b2, b1, padding);
    }
  }

  /** A later block starts at least one padding further on. */
  lemma BlockGap(lo: int, hi: int, padding: int)
    requires lo < hi && padding > 0
    ensures hi * padding >= lo * padding + padding
  {
    var d := hi - lo - 1;
    assert d >= 0;
    assert d * padding >= 0;
    assert hi * padding == lo * padding + padding + d * padding;
  }

  // ---------------------------------------------------------------------------------------
  // Transaction ids

  /** No value occurs twice. */
  predicate Distinct<T(==)>(s: seq<T>) {
    forall i, j :: 0 <= i < j < |s| ==> s[i] != s[j]
  }

  /** The position of the first occurrence of `x`. */
  function FirstIndex<T(==)>(s: seq<T>, x: T): (i: nat)
    requires x in s
    ensures i < |s| && s[i] == x && x !in s[..i]
  {
    if s[0] == x then 0
    else
      assert x in s[1..];
      var j := FirstIndex(s[1..], x);
      assert s[..j + 1] == [s[0]] + s[1..][..j];
      j + 1
  }

  /** The first occurrence of a value in a prefix is its first occurrence in the whole. */
  lemma FirstIndexPrefix<T>(s: seq<T>, m: nat, x: T)
    requires m <= |s| && x in s[..m]
    ensures x in s && FirstIndex(s, x) == FirstIndex(s[..m], x) < m
  {
    var i := FirstIndex(s[..m], x);
    assert s[i] == x;
    var j := FirstIndex(s, x);
    assert s[..m][..i] == s[..i];
    assert forall k :: 0 <= k < i ==> s[..i][k] != x;
    assert forall k :: 0 <= k < j ==> s[..j][k] != x;
  }

  /** `Series.unique()`: every value once, in the order of first appearance. */
  function Unique(s: seq<Hash>): (u: seq<Hash>)
    ensures Distinct(u)
    ensures forall x :: x in u <==> x in s
    ensures forall i, j :: 0 <= i < j < |u| ==> FirstIndex(s, u[i]) < FirstIndex(s, u[j])
    decreases |s|
  {
    if |s| == 0 then []
    else
      var front := s[..|s| - 1];
      var last := s[|s| - 1];
      var d := Unique(front);
      assert s == front + [last];
      forall x | x in d
        ensures FirstIndex(s, x) == FirstIndex(front, x) < |s| - 1
      {
        FirstIndexPrefix(s, |s| - 1, x);
        assert s[..|s| - 1] == front;
      }
      if last in d then d
      else
        assert FirstIndex(s, last) == |s| - 1 by {
          assert last !in s[..|s| - 1];
        }
        d + [last]
  }

  /** The position of a value in a sequence that holds it. */
  function IndexOf<T(==)>(u: seq<T>, x: T): (k: nat)
    requires x in u
    ensures k < |u| && u[k] == x
  {
    if u[0] == x then 0 else 1 + IndexOf(u[1..], x)
  }

  /** The transaction hash of every raw row, in row order. */
  function HashColumn(raw: seq<RawTransaction>): (col: seq<Hash>)
    ensures |col| == |raw|
    ensures forall i :: 0 <= i < |raw| ==> col[i] == raw[i].transactionHash
  {
    seq(|raw|, i requires 0 <= i < |raw| => raw[i].transactionHash)
  }

  /** In a sequence without repeats, the position of the value at `k` is `k`. */
  lemma IndexOfDistinct<T>(u: seq<T>, k: nat)
    requires Distinct(u) && k < |u|
    ensures IndexOf(u, u[k]) == k
  {
    var j := IndexOf(u, u[k]);
    assert u[j] == u[k];
  }

  /** The hash table: each distinct hash gets its position among the unique hashes. */
  function TransactionIds(hashes: seq<Hash>): (ids: map<Hash, nat>)
    ensures forall h :: h in ids <==> h in hashes
    ensures var u := Unique(hashes);
      (forall h :: h in ids ==> ids[h] < |u| && u[ids[h]] == h) &&
      (forall k :: 0 <= k < |u| ==> u[k] in ids && ids[u[k]] == k)
  {
    var u := Unique(hashes);
    var ids := map h | h in u :: IndexOf(u, h);
    forall k | 0 <= k < |u|
      ensures ids[u[k]] == k
    {
      IndexOfDistinct(u, k);
    }
    ids
  }

  /** Two hashes share an id exactly when they are the same hash. */
  lemma IdsInjective(hashes: seq<Hash>, h1: Hash, h2: Hash)
    requires h1 in hashes && h2 in hashes
    ensures TransactionIds(hashes)[h1] == TransactionIds(hashes)[h2] <==> h1 == h2
  {
    var ids := TransactionIds(hashes);
    var u := Unique(hashes);
    assert u[ids[h1]] == h1 && u[ids[h2]] == h2;
  }

  // ---------------------------------------------------------------------------------------
  // Which rows survive

  /** A row survives the inner join with the block times and the filter on `type`. */
  predicate Kept(t: RawTransaction, blockTimes: map<int, int>) {
    t.kind == CallKind && t.blockNumber in blockTimes
  }

  /** The indices of the surviving rows among the first `n`, in row order. */
  function Survivors(raw: seq<RawTransaction>, blockTimes: map<int, int>, n: nat): (idx: seq<nat>)
    requires n <= |raw|
    ensures forall j, k :: 0 <= j < k < |idx| ==> idx[j] < idx[k]
    ensures forall k :: 0 <= k < |idx| ==> idx[k] < n && Kept(raw[idx[k]], blockTimes)
    ensures forall i :: 0 <= i < n && Kept(raw[i], blockTimes) ==> i in idx
    decreases n
  {
    if n == 0 then []
    else
      var front := Survivors(raw, blockTimes, n - 1);
      if Kept(raw[n - 1], blockTimes) then front + [n - 1] else front
  }

  /** The number of rows among the first `n` whose block has a time: the row index a row
      gets from the inner merge with the block times, which the call filter keeps. */
  function JoinedBefore(raw: seq<RawTransaction>, blockTimes: map<int, int>, n: nat): (count: nat)
    requires n <= |raw|
    ensures count <= n
    decreases n
  {
    if n == 0 then 0
    else JoinedBefore(raw, blockTimes, n - 1) + (if raw[n - 1].blockNumber in blockTimes then 1 else 0)
  }

  /** The index a row gets from the inner merge is the number of joined rows above it. */
  lemma {:induction false} JoinedBeforeCounts(raw: seq<RawTransaction>, blockTimes: map<int, int>, n: nat)
    requires n <= |raw|
    ensures JoinedBefore(raw, blockTimes, n) == |set i | 0 <= i < n && raw[i].blockNumber in blockTimes|
    decreases n
  {
    if n > 0 {
      JoinedBeforeCounts(raw, blockTimes, n - 1);
      var above := set i | 0 <= i < n - 1 && raw[i].blockNumber in blockTimes;
      var upTo := set i | 0 <= i < n && raw[i].blockNumber in blockTimes;
      if raw[n - 1].blockNumber in blockTimes {
        assert upTo == above + {n - 1};
        assert n - 1 !in above;
      } else {
        assert upTo == above;
      }
    }
  }

  /** A joined row's index is below the index of every later joined row. */
  lemma {:induction false} JoinedBeforeGrows(raw: seq<RawTransaction>, blockTimes: map<int, int>, i: nat, j: nat)
    requires i < j <= |raw| && raw[i].blockNumber in blockTimes
    ensures JoinedBefore(raw, blockTimes, i) < JoinedBefore(raw, blockTimes, j)
    decreases j - i
  {
    if j > i + 1 {
      JoinedBeforeGrows(raw, blockTimes, i, j - 1);
    }
  }

  /** One event derived from raw row `i`. */
  function DeriveEvent(raw: seq<RawTransaction>, i: nat, lookup: map<Address, AddressEntry>,
                       blockTimes: map<int, int>, ids: map<Hash, nat>, padding: int): (e: ParsedEvent)
    requires i < |raw| && raw[i].blockNumber in blockTimes && raw[i].transactionHash in ids
    ensures e.index == JoinedBefore(raw, blockTimes, i)
    ensures e.totalPos == raw[i].blockNumber * padding + i
    ensures e.timestamp == blockTimes[raw[i].blockNumber]
    ensures e.sender == ResolveActor(lookup, raw[i].from) && e.receiver == ResolveActor(lookup, raw[i].to)
    ensures e.input == raw[i].input
    ensures e.transactionType == TransactionType(e.sender, e.receiver) && IsCategory(e.transactionType)
    ensures e.transactionId == ids[raw[i].transactionHash]
  {
    var t := raw[i];
    var sender := ResolveActor(lookup, t.from);
    var receiver := ResolveActor(lookup, t.to);
    ParsedEvent(JoinedBefore(raw, blockTimes, i), PositionKey(t.blockNumber, i, padding), t.input,
                sender, receiver, blockTimes[t.blockNumber], ids[t.transactionHash],
                TransactionType(sender, receiver))
  }

  /** Event `e` is the one raw row `i` yields: the row is a call whose block has a time; the
      event's position key, time, input and actors come from the row; its category is built from
      its two actors; and its id points at the row's hash in `hashes`. */
  predicate EventOfRow(raw: seq<RawTransaction>, i: nat, lookup: map<Address, AddressEntry>,
                       blockTimes: map<int, int>, padding: int, hashes: seq<Hash>, e: ParsedEvent)
    requires i < |raw|
  {
    raw[i].kind == CallKind && raw[i].blockNumber in blockTimes &&
    e.index == JoinedBefore(raw, blockTimes, i) &&
    e.totalPos == raw[i].blockNumber * padding + i &&
    e.timestamp == blockTimes[raw[i].blockNumber] &&
    e.input == raw[i].input &&
    e.sender == ResolveActor(lookup, raw[i].from) &&
    e.receiver == ResolveActor(lookup, raw[i].to) &&
    e.transactionType == TransactionType(e.sender, e.receiver) && IsCategory(e.transactionType) &&
    e.transactionId < |hashes| && hashes[e.transactionId] == raw[i].transactionHash
  }

  /** The events of the surviving rows, in row order, each the event its row yields. */
  function ParsedEvents(raw: seq<RawTransaction>, lookup: map<Address, AddressEntry>,
                        blockTimes: map<int, int>, padding: int): (events: seq<ParsedEvent>)
    ensures |events| == |Survivors(raw, blockTimes, |raw|)|
    ensures forall k :: 0 <= k < |events| ==>
      EventOfRow(raw, Survivors(raw, blockTimes, |raw|)[k], lookup, blockTimes, padding,
                 Unique(HashColumn(raw)), events[k])
  {
    var ids := TransactionIds(HashColumn(raw));
    var idx := Survivors(raw, blockTimes, |raw|);
    HashesOfRows(raw);
    var events := seq(|idx|, k requires 0 <= k < |idx| => DeriveEvent(raw, idx[k], lookup, blockTimes, ids, padding));
    assert forall k :: 0 <= k < |events| ==>
      EventOfRow(raw, idx[k], lookup, blockTimes, padding, Unique(HashColumn(raw)), events[k]) by {
      forall k | 0 <= k < |events|
        ensures EventOfRow(raw, idx[k], lookup, blockTimes, padding, Unique(HashColumn(raw)), events[k])
      {
        DerivedEventOfRow(raw, idx[k], lookup, blockTimes, padding);
      }
    }
    events
  }

  /** The event derived from a kept row is the event that row yields. */
  lemma DerivedEventOfRow(raw: seq<RawTransaction>, i: nat, lookup: map<Address, AddressEntry>,
                          blockTimes: map<int, int>, padding: int)
    requires i < |raw| && Kept(raw[i], blockTimes)
    ensures raw[i].transactionHash in TransactionIds(HashColumn(raw))
    ensures EventOfRow(raw, i, lookup, blockTimes, padding, Unique(HashColumn(raw)),
      DeriveEvent(raw, i, lookup, blockTimes, TransactionIds(HashColumn(raw)), padding))
  {
    var hashes := HashColumn(raw);
    assert hashes[i] == raw[i].transactionHash;
    var ids := TransactionIds(hashes);
    var e := DeriveEvent(raw, i, lookup, blockTimes, ids, padding);
    assert Unique(hashes)[ids[raw[i].transactionHash]] == raw[i].transactionHash;
  }

  /** `parse_event_log`: the unique transaction hashes of the rows, in order of first
      appearance, and one event per surviving row, in row order, each the event its row
      yields. */
  function ParseEventLog(raw: seq<RawTransaction>, lookup: map<Address, AddressEntry>,
                         blockTimes: map<int, int>, padding: int): (log: ParsedLog)
    ensures log.transactionHashes == Unique(HashColumn(raw))
    ensures forall h :: h in log.transactionHashes <==> exists i :: 0 <= i < |raw| && raw[i].transactionHash == h
    ensures Distinct(log.transactionHashes)
    ensures |log.events| == |Survivors(raw, blockTimes, |raw|)|
    ensures forall k :: 0 <= k < |log.events| ==>
      EventOfRow(raw, Survivors(raw, blockTimes, |raw|)[k], lookup, blockTimes, padding,
                 log.transactionHashes, log.events[k])
  {
    HashesOfRows(raw);
    ParsedLog(Unique(HashColumn(raw)), ParsedEvents(raw, lookup, blockTimes, padding))
  }

  /** Every row's hash has an id, and the unique hashes are exactly the rows' hashes. */
  lemma HashesOfRows(raw: seq<RawTransaction>)
    ensures forall i :: 0 <= i < |raw| ==> raw[i].transactionHash in TransactionIds(HashColumn(raw))
    ensures forall h :: h in Unique(HashColumn(raw)) <==>
      exists i :: 0 <= i < |raw| && raw[i].transactionHash == h
  {
    var hashes := HashColumn(raw);
    forall i | 0 <= i < |raw|
      ensures raw[i].transactionHash in TransactionIds(hashes)
    {
      assert hashes[i] == raw[i].transactionHash;
    }
    forall h | h in Unique(hashes)
      ensures exists i :: 0 <= i < |raw| && raw[i].transactionHash == h
    {
      var i := FirstIndex(hashes, h);
      assert raw[i].transactionHash == h;
    }
    forall h | exists i :: 0 <= i < |raw| && raw[i].transactionHash == h
      ensures h in Unique(hashes)
    {
      var i :| 0 <= i < |raw| && raw[i].transactionHash == h;
      assert hashes[i] == h;
    }
  }

  // ---------------------------------------------------------------------------------------
  // Properties of the parsed log

  /** Every call row whose block has a time yields an event, carrying that row's position key. */
  lemma KeptRowsSurvive(raw: seq<RawTransaction>, lookup: map<Address, AddressEntry>,
                        blockTimes: map<int, int>, padding: int, i: nat)
    requires i < |raw| && raw[i].kind == CallKind && raw[i].blockNumber in blockTimes
    ensures exists k :: (0 <= k < |ParseEventLog(raw, lookup, blockTimes, padding).events| &&
      ParseEventLog(raw, lookup, blockTimes, padding).events[k].totalPos == raw[i].blockNumber * padding + i)
  {
    var idx := Survivors(raw, blockTimes, |raw|);
    assert Kept(raw[i], blockTimes);
    var k :| 0 <= k < |idx| && idx[k] == i;
    assert ParseEventLog(raw, lookup, blockTimes, padding).events[k].totalPos == raw[i].blockNumber * padding + i;
  }

  /** Two events belong to the same case exactly when their rows carry the same hash. */
  lemma SameCaseIffSameHash(raw: seq<RawTransaction>, lookup: map<Address, AddressEntry>,
                            blockTimes: map<int, int>, padding: int, k1: nat, k2: nat)
    requires k1 < |ParseEventLog(raw, lookup, blockTimes, padding).events|
    requires k2 < |ParseEventLog(raw, lookup, blockTimes, padding).events|
    ensures var log := ParseEventLog(raw, lookup, blockTimes, padding);
      var idx := Survivors(raw, blockTimes, |raw|);
      log.events[k1].transactionId == log.events[k2].transactionId <==>
        raw[idx[k1]].transactionHash == raw[idx[k2]].transactionHash
  {
    var log := ParseEventLog(raw, lookup, blockTimes, padding);
    var e1 := log.events[k1];
    var e2 := log.events[k2];
    assert log.transactionHashes[e1.transactionId] == raw[Survivors(raw, blockTimes, |raw|)[k1]].transactionHash;
    assert log.transactionHashes[e2.transactionId] == raw[Survivors(raw, blockTimes, |raw|)[k2]].transactionHash;
    if e1.transactionId != e2.transactionId {
      assert log.transactionHashes[e1.transactionId] != log.transactionHashes[e2.transactionId];
    }
  }

  /** When the table has no more rows than the padding, no two events share a position key. */
  lemma DistinctPositions(raw: seq<RawTransaction>, lookup: map<Address, AddressEntry>,
                          blockTimes: map<int, int>, padding: int, k1: nat, k2: nat)
    requires |raw| <= padding
    requires k1 < k2 < |ParseEventLog(raw, lookup, blockTimes, padding).events|
    ensures ParseEventLog(raw, lookup, blockTimes, padding).events[k1].totalPos !=
            ParseEventLog(raw, lookup, blockTimes, padding).events[k2].totalPos
  {
    var idx := Survivors(raw, blockTimes, |raw|);
    var log := ParseEventLog(raw, lookup, blockTimes, padding);
    assert idx[k1] < idx[k2];
    PositionKeyOrder(raw[idx[k1]].blockNumber, idx[k1], raw[idx[k2]].blockNumber, idx[k2], padding);
    assert log.events[k1].totalPos == PositionKey(raw[idx[k1]].blockNumber, idx[k1], padding);
    assert log.events[k2].totalPos == PositionKey(raw[idx[k2]].blockNumber, idx[k2], padding);
  }

  /** Under the default padding, a table of up to `10^9` rows gives every event its own
      position key. */
  lemma DefaultPaddingPositions(raw: seq<RawTransaction>, lookup: map<Address, AddressEntry>,
                                blockTimes: map<int, int>, k1: nat, k2: nat)
    requires |raw| <= DefaultBlockPadding
    requires k1 < k2 < |ParseEventLog(raw, lookup, blockTimes, DefaultBlockPadding).events|
    ensures ParseEventLog(raw, lookup, blockTimes, DefaultBlockPadding).events[k1].totalPos !=
            ParseEventLog(raw, lookup, blockTimes, DefaultBlockPadding).events[k2].totalPos
  {
    DistinctPositions(raw, lookup, blockTimes, DefaultBlockPadding, k1, k2);
  }

  /** The index labels of the events strictly increase, so they are unique. */
  lemma IndexIncreasing(raw: seq<RawTransaction>, lookup: map<Address, AddressEntry>,
                        blockTimes: map<int, int>, padding: int, k1: nat, k2: nat)
    requires k1 < k2 < |ParseEventLog(raw, lookup, blockTimes, padding).events|
    ensures ParseEventLog(raw, lookup, blockTimes, padding).events[k1].index <
            ParseEventLog(raw, lookup, blockTimes, padding).events[k2].index
  {
    var idx := Survivors(raw, blockTimes, |raw|);
    assert idx[k1] < idx[k2];
    JoinedBeforeGrows(raw, blockTimes, idx[k1], idx[k2]);
  }

  /** When every row of the inner join is a call, the survivors are exactly the joined rows,
      and the `k`-th of them was the `k`-th joined row. */
  lemma {:induction false} SurvivorsAreJoined(raw: seq<RawTransaction>, blockTimes: map<int, int>, n: nat)
    requires n <= |raw|
    requires forall i :: 0 <= i < |raw| && raw[i].blockNumber in blockTimes ==> raw[i].kind == CallKind
    ensures |Survivors(raw, blockTimes, n)| == JoinedBefore(raw, blockTimes, n)
    ensures forall k :: 0 <= k < |Survivors(raw, blockTimes, n)| ==>
      JoinedBefore(raw, blockTimes, Survivors(raw, blockTimes, n)[k]) == k
    decreases n
  {
    if n > 0 {
      SurvivorsAreJoined(raw, blockTimes, n - 1);
      var front := Survivors(raw, blockTimes, n - 1);
      if Kept(raw[n - 1], blockTimes) {
        assert Survivors(raw, blockTimes, n) == front + [n - 1];
        assert JoinedBefore(raw, blockTimes, n - 1) == |front|;
      } else {
        assert Survivors(raw, blockTimes, n) == front;
      }
    }
  }

  /** When every row of the inner join is a call, the call filter removes nothing and the
      events are indexed `0, 1, ..., n-1`. */
  lemma IndexDense(raw: seq<RawTransaction>, lookup: map<Address, AddressEntry>,
                   blockTimes: map<int, int>, padding: int)
    requires forall i :: 0 <= i < |raw| && raw[i].blockNumber in blockTimes ==> raw[i].kind == CallKind
    ensures forall k :: 0 <= k < |ParseEventLog(raw, lookup, blockTimes, padding).events| ==>
      ParseEventLog(raw, lookup, blockTimes, padding).events[k].index == k
  {
    SurvivorsAreJoined(raw, blockTimes, |raw|);
  }
}

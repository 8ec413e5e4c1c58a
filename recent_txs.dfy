/** The recent-transactions handler: it clamps the requested block count, walks back from the
    latest block, fetches every block of that window (all or nothing), flattens their
    transactions in block order and keeps those whose sender or recipient is the requested
    address. The chain client is a parameter whose two calls may fail; the handler's calls on it
    are returned as a trace. */
module RecentTxs {
  import opened Common
  import opened JsText

  const DefaultCount := 10
  const MaxCount := 50
  const InvalidLatest := "Invalid latest block number"
  const JsonHeaders := [("content-type", "application/json")]

  /** The parsed request body; an absent field is `null` or `undefined`. */
  datatype Request = Request(count: Option<int>, address: Option<string>)

  /** A transaction as the chain client reports it; `to` is absent for a contract creation, and
      `value` may be absent. */
  datatype Transaction = Transaction(hash: string, from: string, to: Option<string>, value: Option<nat>)

  /** A block as the chain client reports it; either field may be absent. */
  datatype Block = Block(number: Option<nat>, transactions: Option<seq<Transaction>>)

  /** The chain client: `getBlockNumber()` and `getBlock({blockNumber})`, each of which may fail. */
  datatype ChainClient = ChainClient(blockNumber: Result<int>, getBlock: int -> Result<Block>)

  /** One call the handler makes on the chain client. */
  datatype ChainCall = GetBlockNumber | GetBlock(number: int)

  /** A transaction as the response lists it, with its integers rendered as decimal text. */
  datatype TxRecord = TxRecord(hash: string, from: string, to: Option<string>, value: Option<string>, blockNumber: Option<string>)

  datatype Body =
    | Summary(latest: string, blocksRequested: int, blocksReturned: int, count: int, txs: seq<TxRecord>)
    | Failure(error: string)

  datatype Response = Response(statusCode: int, headers: seq<(string, string)>, body: Body)

  function Min(a: int, b: int): int { if a <= b then a else b }
  function Max(a: int, b: int): int { if a >= b then a else b }

  // ------------------------------------------------------------ the request

  /** The effective block count `Math.max(1, Math.min(50, Number(count ?? 10)))`, for integer counts. */
  function ClampCount(count: Option<int>): (m: int)
    ensures 1 <= m <= MaxCount
    ensures count == None ==> m == DefaultCount
    ensures count.Some? && 1 <= count.value <= MaxCount ==> m == count.value
    ensures count.Some? && count.value < 1 ==> m == 1
    ensures count.Some? && count.value > MaxCount ==> m == MaxCount
  {
    var n := match count case None => DefaultCount case Some(c) => c;
    Max(1, Min(MaxCount, n))
  }

  /** The filter address `address?.toLowerCase()?.trim()`: absent stays absent, otherwise the
      lower-cased text without surrounding white space. */
  function NormalizeAddress(address: Option<string>): (a: Option<string>)
    ensures a.None? <==> address.None?
    ensures a.Some? ==> a.value == Lower(Trim(address.value))
    ensures a.Some? ==> Lower(a.value) == a.value && Trim(a.value) == a.value
  {
    match address
    case None => None
    case Some(s) =>
      TrimLower(s);
      TrimIdempotent(Lower(s));
      Some(Trim(Lower(s)))
  }

  // ------------------------------------------------------- the block window

  /** How many block numbers the window holds: `min(maxBlocks, latest + 1)`, none when either is empty. */
  function RangeLength(latest: int, maxBlocks: int): nat {
    if latest < 0 || maxBlocks <= 0 then 0 else Min(maxBlocks, latest + 1)
  }

  /** The block numbers to inspect: from `latest` down by one per step, never below zero. */
  function BlockRange(latest: int, maxBlocks: int): (ns: seq<int>)
    ensures |ns| == RangeLength(latest, maxBlocks)
    ensures |ns| <= MaxCount || maxBlocks > MaxCount
    ensures |ns| > 0 ==> ns[0] == latest
    ensures latest == 0 && maxBlocks >= 1 ==> ns == [0]
    ensures forall k :: 0 <= k < |ns| ==> ns[k] >= 0
    ensures forall k :: 0 < k < |ns| ==> ns[k] == ns[k - 1] - 1
    ensures forall j, k :: 0 <= j < k < |ns| ==> ns[j] > ns[k]
  {
    seq(RangeLength(latest, maxBlocks), k => latest - k)
  }

  /** The loop that pushes `latest - i` for `i` from 0 below `maxBlocks`, breaking when it would go negative. */
  method BuildBlockNumbers(latest: int, maxBlocks: int) returns (ns: seq<int>)
    ensures ns == BlockRange(latest, maxBlocks)
  {
    ns := [];
    var i := 0;
    while i < maxBlocks
      invariant 0 <= i
      invariant i == 0 || (i <= maxBlocks && i <= latest + 1)
      invariant ns == BlockRange(latest, i)
    {
      var n := latest - i;
      if n < 0 {
        break;
      }
      ns := ns + [n];
      i := i + 1;
    }
  }

  // ------------------------------------------------------------ the fetches

  /** One `getBlock` call per block number, in list order. */
  function Fetches(ns: seq<int>): (calls: seq<ChainCall>)
    ensures |calls| == |ns|
    ensures forall k :: 0 <= k < |ns| ==> calls[k] == GetBlock(ns[k])
  {
    seq(|ns|, k requires 0 <= k < |ns| => GetBlock(ns[k]))
  }

  /** `Promise.all` over one fetch per block number: every block, in list order, or a failure
      carrying the message of a fetch that failed, every fetch before it having succeeded. */
  function FetchAll(client: ChainClient, ns: seq<int>): (r: Result<seq<Block>>)
    ensures r.Ok? <==> forall k :: 0 <= k < |ns| ==> client.getBlock(ns[k]).Ok?
    ensures r.Ok? ==> |r.value| == |ns|
    ensures r.Ok? ==> forall k :: 0 <= k < |ns| ==> client.getBlock(ns[k]) == Ok(r.value[k])
    ensures r.Err? ==> exists k :: 0 <= k < |ns| && client.getBlock(ns[k]) == Err(r.message)
                                   && forall j :: 0 <= j < k ==> client.getBlock(ns[j]).Ok?
    decreases |ns|
  {
    if ns == [] then Ok([])
    else
      match client.getBlock(ns[0])
      case Err(m) => Err(m)
      case Ok(b) =>
        var rest := FetchAll(client, ns[1..]);
        match rest
        case Err(m) =>
          assert exists k :: 0 <= k < |ns| - 1 && client.getBlock(ns[1..][k]) == Err(m)
                             && forall j :: 0 <= j < k ==> client.getBlock(ns[1..][j]).Ok?;
          var k :| 0 <= k < |ns| - 1 && client.getBlock(ns[1..][k]) == Err(m)
                   && forall j :: 0 <= j < k ==> client.getBlock(ns[1..][j]).Ok?;
          assert client.getBlock(ns[k + 1]) == Err(m);
          assert forall j :: 0 <= j < k + 1 ==> client.getBlock(ns[j]).Ok? by {
            forall j | 0 <= j < k + 1 ensures client.getBlock(ns[j]).Ok? {
              if j > 0 { assert ns[j] == ns[1..][j - 1]; }
            }
          }
          Err(m)
        case Ok(bs) =>
          assert forall k :: 0 < k < |ns| ==> ns[k] == ns[1..][k - 1];
          Ok([b] + bs)
  }

  // ---------------------------------------------------- flatten and filter

  /** `b.transactions || []` */
  function TxsOf(b: Block): seq<Transaction> {
    match b.transactions case None => [] case Some(txs) => txs
  }

  /** The per-transaction record: the integers as decimal text, the block number taken from the
      containing block rather than from the transaction. */
  function ToRecord(b: Block, tx: Transaction): TxRecord {
    var value := match tx.value case None => None case Some(v) => Some(NatToDecimal(v));
    var blockNumber := match b.number case None => None case Some(n) => Some(NatToDecimal(n));
    TxRecord(tx.hash, tx.from, tx.to, value, blockNumber)
  }

  /** A record keeps the transaction's hash and parties, and its decimal texts read back exactly
      as the transaction's value and its containing block's number. */
  lemma RecordRoundTrip(b: Block, tx: Transaction)
    ensures var r := ToRecord(b, tx);
            r.hash == tx.hash && r.from == tx.from && r.to == tx.to
            && (r.value.Some? <==> tx.value.Some?)
            && (tx.value.Some? ==> ParseDecimal(r.value.value) == Some(tx.value.value))
            && (r.blockNumber.Some? <==> b.number.Some?)
            && (b.number.Some? ==> ParseDecimal(r.blockNumber.value) == Some(b.number.value))
  {
    if tx.value.Some? {
      DecimalRoundTrip(tx.value.value);
    }
    if b.number.Some? {
      DecimalRoundTrip(b.number.value);
    }
  }

  function BlockRecords(b: Block): (rs: seq<TxRecord>)
    ensures |rs| == |TxsOf(b)|
    ensures forall j :: 0 <= j < |rs| ==> rs[j] == ToRecord(b, TxsOf(b)[j])
  {
    var txs := TxsOf(b);
    seq(|txs|, j requires 0 <= j < |txs| => ToRecord(b, txs[j]))
  }

  /** The number of transactions in a list of blocks. */
  function TxCount(bs: seq<Block>): nat
    decreases |bs|
  {
    if bs == [] then 0 else |TxsOf(bs[0])| + TxCount(bs[1..])
  }

  /** The `flatMap` over the fetched blocks. */
  function Flatten(bs: seq<Block>): (rs: seq<TxRecord>)
    ensures |rs| == TxCount(bs)
    decreases |bs|
  {
    if bs == [] then [] else BlockRecords(bs[0]) + Flatten(bs[1..])
  }

  /** The flattened list is laid out block by block, in block order and then in-block order:
      the `j`-th transaction of the `i`-th block sits after all transactions of earlier blocks. */
  lemma {:induction false} FlattenAt(bs: seq<Block>, i: nat, j: nat)
    requires i < |bs| && j < |TxsOf(bs[i])|
    ensures TxCount(bs[..i]) + j < |Flatten(bs)|
    ensures Flatten(bs)[TxCount(bs[..i]) + j] == ToRecord(bs[i], TxsOf(bs[i])[j])
    decreases i
  {
    var br := BlockRecords(bs[0]);
    if i == 0 {
      assert TxCount(bs[..0]) == 0 by { assert bs[..0] == []; }
      assert Flatten(bs)[j] == br[j];
    } else {
      var t := bs[1..];
      FlattenAt(t, i - 1, j);
      var off := TxCount(t[..i - 1]);
      TxCountPrefix(bs, i);
      assert Flatten(bs)[|br| + off + j] == Flatten(t)[off + j];
    }
  }

  /** Counting the transactions of the first `i` blocks takes the first block's, then the rest's. */
  lemma TxCountPrefix(bs: seq<Block>, i: nat)
    requires 0 < i <= |bs|
    ensures TxCount(bs[..i]) == |TxsOf(bs[0])| + TxCount(bs[1..][..i - 1])
  {
    var pre := bs[..i];
    assert pre[0] == bs[0] && pre[1..] == bs[1..][..i - 1];
  }

  /** The filter callback: with no address, or an empty one, everything is kept; otherwise a record
      is kept when its lower-cased sender or recipient equals the address (an absent recipient never does). */
  predicate Matches(address: Option<string>, r: TxRecord) {
    match address
    case None => true
    case Some(a) => a == [] || Lower(r.from) == a || (r.to.Some? && Lower(r.to.value) == a)
  }

  /** How many positions of `rs` hold a record that matches the address. */
  function MatchCount(address: Option<string>, rs: seq<TxRecord>): nat
    decreases |rs|
  {
    if rs == [] then 0 else (if Matches(address, rs[0]) then 1 else 0) + MatchCount(address, rs[1..])
  }

  /** The `filter` over the flattened records. */
  function FilterTxs(address: Option<string>, rs: seq<TxRecord>): (out: seq<TxRecord>)
    ensures IsSubsequence(out, rs)
    ensures forall k :: 0 <= k < |out| ==> Matches(address, out[k])
    ensures forall k :: 0 <= k < |rs| && Matches(address, rs[k]) ==> rs[k] in out
    ensures |out| == MatchCount(address, rs)
    ensures (forall k :: 0 <= k < |rs| ==> Matches(address, rs[k])) ==> out == rs
    decreases |rs|
  {
    if rs == [] then []
    else
      var rest := FilterTxs(address, rs[1..]);
      assert forall k :: 0 < k < |rs| ==> rs[k] == rs[1..][k - 1];
      if Matches(address, rs[0]) then [rs[0]] + rest else rest
  }

  // ---------------------------------------------------------- the handler

  /** `String(e?.message || e)` for an `Error`: its message, or "Error" when the message is empty. */
  function ErrorText(message: string): (t: string)
    ensures t != []
    ensures message != [] ==> t == message
  {
    if message == [] then "Error" else message
  }

  function ErrorResponse(message: string): Response {
    Response(500, [], Failure(ErrorText(message)))
  }

  /** What the handler returns for a request against a chain client, and the calls it makes. */
  function Handle(req: Request, client: ChainClient): (out: (Response, seq<ChainCall>))
    ensures out.0.statusCode == 200 || out.0.statusCode == 500
    ensures out.0.statusCode == 200 <==> out.0.body.Summary?
    // the latest block number is read first; a failure or a negative number stops everything
    ensures |out.1| >= 1 && out.1[0] == GetBlockNumber
    ensures client.blockNumber.Err? ==> out == (ErrorResponse(client.blockNumber.message), [GetBlockNumber])
    ensures client.blockNumber.Ok? && client.blockNumber.value < 0 ==>
              out == (ErrorResponse(InvalidLatest), [GetBlockNumber])
    // otherwise exactly one fetch per block number of the window, in order, whatever the outcome
    ensures client.blockNumber.Ok? && client.blockNumber.value >= 0 ==>
              var ns := BlockRange(client.blockNumber.value, ClampCount(req.count));
              out.1 == [GetBlockNumber] + Fetches(ns)
              && (FetchAll(client, ns).Err? ==> out.0 == ErrorResponse(FetchAll(client, ns).message))
              && (FetchAll(client, ns).Ok? <==> out.0.statusCode == 200)
    // a successful summary
    ensures out.0.statusCode == 200 ==>
              var latest := client.blockNumber.value;
              var s := out.0.body;
              client.blockNumber.Ok? && latest >= 0
              && out.0.headers == JsonHeaders
              && ParseDecimal(s.latest) == Some(latest)
              && s.blocksRequested == ClampCount(req.count)
              && s.blocksReturned == RangeLength(latest, ClampCount(req.count))
              && s.blocksReturned <= MaxCount && s.blocksReturned <= latest + 1
              && s.count == |s.txs|
              && s.txs == FilterTxs(NormalizeAddress(req.address), Flatten(FetchAll(client, BlockRange(latest, ClampCount(req.count))).value))
  {
    var maxBlocks := ClampCount(req.count);
    var address := NormalizeAddress(req.address);
    match client.blockNumber
    case Err(m) => (ErrorResponse(m), [GetBlockNumber])
    case Ok(latest) =>
      if latest < 0 then (ErrorResponse(InvalidLatest), [GetBlockNumber])
      else
        var ns := BlockRange(latest, maxBlocks);
        var calls := [GetBlockNumber] + Fetches(ns);
        match FetchAll(client, ns)
        case Err(m) => (ErrorResponse(m), calls)
        case Ok(blocks) =>
          var txs := FilterTxs(address, Flatten(blocks));
          DecimalRoundTrip(latest);
          (Response(200, JsonHeaders, Summary(NatToDecimal(latest), maxBlocks, |blocks|, |txs|, txs)), calls)
  }

  /** The handler itself: the block window is built by its loop, the rest follows `Handle`. */
  method Handler(req: Request, client: ChainClient) returns (resp: Response, calls: seq<ChainCall>)
    ensures (resp, calls) == Handle(req, client)
  {
    var maxBlocks := ClampCount(req.count);
    var address := NormalizeAddress(req.address);
    calls := [GetBlockNumber];
    match client.blockNumber {
      case Err(m) =>
        resp := ErrorResponse(m);
      case Ok(latest) =>
        if latest < 0 {
          resp := ErrorResponse(InvalidLatest);
          return;
        }
        var blockNumbers := BuildBlockNumbers(latest, maxBlocks);
        calls := calls + Fetches(blockNumbers);
        match FetchAll(client, blockNumbers) {
          case Err(m) =>
            resp := ErrorResponse(m);
          case Ok(blocks) =>
            var txs := FilterTxs(address, Flatten(blocks));
            resp := Response(200, JsonHeaders, Summary(NatToDecimal(latest), maxBlocks, |blocks|, |txs|, txs));
        }
    }
  }

  /** Every record the handler lists (`FilterTxs` over `Flatten` of the fetched blocks, by
      `Handle`'s contract) matches the filter address and is the record of one transaction of one
      fetched block. */
  lemma ListedRecordsAreFetched(address: Option<string>, blocks: seq<Block>, k: nat)
    requires k < |FilterTxs(address, Flatten(blocks))|
    ensures var r := FilterTxs(address, Flatten(blocks))[k];
            Matches(address, r)
            && exists i, j :: 0 <= i < |blocks| && 0 <= j < |TxsOf(blocks[i])|
                 && r == ToRecord(blocks[i], TxsOf(blocks[i])[j])
  {
    var all := Flatten(blocks);
    var out := FilterTxs(address, all);
    SubsequenceMember(out, all, k);
    var m :| 0 <= m < |all| && all[m] == out[k];
    var i, j := LocateRecord(blocks, m);
  }

  lemma {:induction false} SubsequenceMember<T>(a: seq<T>, b: seq<T>, k: nat)
    requires IsSubsequence(a, b) && k < |a|
    ensures exists m :: 0 <= m < |b| && b[m] == a[k]
    decreases |b|
  {
    if a[0] == b[0] && IsSubsequence(a[1..], b[1..]) {
      if k > 0 {
        SubsequenceMember(a[1..], b[1..], k - 1);
        var m :| 0 <= m < |b| - 1 && b[1..][m] == a[1..][k - 1];
        assert b[m + 1] == a[k];
      } else {
        assert b[0] == a[0];
      }
    } else {
      SubsequenceMember(a, b[1..], k);
      var m :| 0 <= m < |b| - 1 && b[1..][m] == a[k];
      assert b[m + 1] == a[k];
    }
  }

  /** Every position of the flattened list belongs to one transaction of one block. */
  lemma {:induction false} LocateRecord(bs: seq<Block>, m: nat) returns (i: nat, j: nat)
    requires m < |Flatten(bs)|
    ensures i < |bs| && j < |TxsOf(bs[i])|
    ensures Flatten(bs)[m] == ToRecord(bs[i], TxsOf(bs[i])[j])
    decreases |bs|
  {
    if m < |TxsOf(bs[0])| {
      i, j := 0, m;
    } else {
      var i', j' := LocateRecord(bs[1..], m - |TxsOf(bs[0])|);
      i, j := i' + 1, j';
    }
  }
}

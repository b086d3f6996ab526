/**
 * The scheduling rule of the prototype's `PgbtClient`: which block requests
 * `_request_all_pieces` sends, the bounded wait for completion that follows,
 * and where a completed torrent is handed for saving.
 */
module Client {
  import opened Wrappers
  import opened Bytes

  /** One `request` message: piece index, byte offset in the piece, byte count. */
  datatype BlockRequest = BlockRequest(index: nat, begin: nat, length: nat)

  /** The exceptions the client code lets escape. */
  datatype ClientError =
    | ValueError          // range() given a zero step
    | NotImplementedError // save_multiple_file

  function Min(a: nat, b: nat): nat
  {
    if a <= b then a else b
  }

  /** The k-th request for a piece: offset k * blockLength, length min(pieceLength, blockLength). */
  function BlockOf(index: nat, k: nat, pieceLength: nat, blockLength: nat): BlockRequest
  {
    BlockRequest(index, k * blockLength, Min(pieceLength, blockLength))
  }

  /**
   * The requests the inner loop sends for piece `index` from offset `begin`
   * on: one per offset begin, begin + blockLength, ... below pieceLength, each
   * asking for min(pieceLength, blockLength) bytes whatever its offset.
   */
  function BlockRequests(index: nat, pieceLength: nat, blockLength: nat, begin: nat): seq<BlockRequest>
    requires blockLength > 0
    decreases pieceLength - begin
  {
    if begin >= pieceLength then []
    else [BlockRequest(index, begin, Min(pieceLength, blockLength))] + BlockRequests(index, pieceLength, blockLength, begin + blockLength)
  }

  /** Everything the nested loops send for the pieces 0 .. |complete| - 1, in order. */
  function Schedule(complete: seq<bool>, pieceLengths: seq<nat>, blockLength: nat): seq<BlockRequest>
    requires |complete| == |pieceLengths| && blockLength > 0
    decreases |complete|
  {
    if complete == [] then []
    else
      var n := |complete| - 1;
      Schedule(complete[..n], pieceLengths[..n], blockLength) +
      (if complete[n] then [] else BlockRequests(n, pieceLengths[n], blockLength, 0))
  }

  /** ceil(pieceLength / blockLength) summed over the pieces not yet complete. */
  function PendingBlocks(complete: seq<bool>, pieceLengths: seq<nat>, blockLength: nat): nat
    requires |complete| == |pieceLengths| && blockLength > 0
    decreases |complete|
  {
    if complete == [] then 0
    else
      var n := |complete| - 1;
      PendingBlocks(complete[..n], pieceLengths[..n], blockLength) +
      (if complete[n] then 0 else (pieceLengths[n] + blockLength - 1) / blockLength)
  }

  /** request a is sent before request b: lower piece, or same piece and lower offset. */
  predicate Before(a: BlockRequest, b: BlockRequest)
  {
    a.index < b.index || (a.index == b.index && a.begin < b.begin)
  }

  predicate InRequestOrder(s: seq<BlockRequest>)
  {
    forall j, k :: 0 <= j < k < |s| ==> Before(s[j], s[k])
  }

  /** One block less leaves one request less: the step of ceil(y / d). */
  lemma CeilStep(y: nat, d: nat)
    requires d > 0 && y > 0
    ensures (y + d - 1) / d == (if y > d then (y - d + d - 1) / d else 0) + 1
  {
    var x := y - 1;
    var q := x / d;
    assert x == q * d + x % d;
    DivUnique(x + d, d, q + 1, x % d);
    if y <= d {
      DivUnique(x, d, 0, x);
    }
  }

  /** The loop from offset begin sends ceil((pieceLength - begin) / blockLength) requests. */
  lemma {:induction false} BlockRequestsCount(index: nat, pieceLength: nat, blockLength: nat, begin: nat)
    requires blockLength > 0
    ensures |BlockRequests(index, pieceLength, blockLength, begin)| ==
              if begin >= pieceLength then 0 else (pieceLength - begin + blockLength - 1) / blockLength
    decreases pieceLength - begin
  {
    if begin < pieceLength {
      BlockRequestsCount(index, pieceLength, blockLength, begin + blockLength);
      CeilStep(pieceLength - begin, blockLength);
    }
  }

  /** Request k from offset begin asks for offset begin + k * blockLength, below the piece length. */
  lemma {:induction false} BlockRequestsAt(index: nat, pieceLength: nat, blockLength: nat, begin: nat, k: nat)
    requires blockLength > 0 && k < |BlockRequests(index, pieceLength, blockLength, begin)|
    ensures BlockRequests(index, pieceLength, blockLength, begin)[k] ==
              BlockRequest(index, begin + k * blockLength, Min(pieceLength, blockLength))
    ensures begin + k * blockLength < pieceLength
    decreases k
  {
    if k > 0 {
      BlockRequestsAt(index, pieceLength, blockLength, begin + blockLength, k - 1);
      assert begin + blockLength + (k - 1) * blockLength == begin + k * blockLength;
    }
  }

  /**
   * The requests for one incomplete piece: exactly ceil(L / B) of them, the
   * k-th at offset k * B below L, all of length min(L, B), in ascending offset order.
   */
  lemma PieceRequests(index: nat, pieceLength: nat, blockLength: nat)
    requires blockLength > 0
    ensures |BlockRequests(index, pieceLength, blockLength, 0)| == (pieceLength + blockLength - 1) / blockLength
    ensures forall k: nat :: k < |BlockRequests(index, pieceLength, blockLength, 0)| ==>
              BlockRequests(index, pieceLength, blockLength, 0)[k] == BlockOf(index, k, pieceLength, blockLength) &&
              k * blockLength < pieceLength
    ensures InRequestOrder(BlockRequests(index, pieceLength, blockLength, 0))
  {
    var s := BlockRequests(index, pieceLength, blockLength, 0);
    BlockRequestsCount(index, pieceLength, blockLength, 0);
    if pieceLength == 0 {
      DivUnique(blockLength - 1, blockLength, 0, blockLength - 1);
    }
    forall k: nat | k < |s|
      ensures s[k] == BlockOf(index, k, pieceLength, blockLength) && k * blockLength < pieceLength
    {
      BlockRequestsAt(index, pieceLength, blockLength, 0, k);
    }
    forall j, k | 0 <= j < k < |s|
      ensures Before(s[j], s[k])
    {
      assert s[j] == BlockOf(index, j, pieceLength, blockLength);
      assert s[k] == BlockOf(index, k, pieceLength, blockLength);
      assert (k - j) * blockLength > 0;
    }
  }

  /**
   * Every request sent is for a piece below the piece count that was not
   * complete, at an offset that is a multiple of the block length below the
   * piece length, asking for min(piece length, block length) bytes.
   */
  lemma {:induction false} ScheduleSound(complete: seq<bool>, pieceLengths: seq<nat>, blockLength: nat)
    requires |complete| == |pieceLengths| && blockLength > 0
    ensures forall r :: r in Schedule(complete, pieceLengths, blockLength) ==>
              r.index < |complete| && !complete[r.index] &&
              r.begin % blockLength == 0 && r.begin < pieceLengths[r.index] &&
              r.length == Min(pieceLengths[r.index], blockLength)
    decreases |complete|
  {
    if complete != [] {
      var n := |complete| - 1;
      ScheduleSound(complete[..n], pieceLengths[..n], blockLength);
      if !complete[n] {
        var tail := BlockRequests(n, pieceLengths[n], blockLength, 0);
        PieceRequests(n, pieceLengths[n], blockLength);
        forall k | 0 <= k < |tail|
          ensures tail[k].begin % blockLength == 0
        {
          DivUnique(k * blockLength, blockLength, k, 0);
        }
      }
    }
  }

  /** Requests go out piece by piece in ascending index order, each piece's in ascending offset order. */
  lemma {:induction false} ScheduleOrdered(complete: seq<bool>, pieceLengths: seq<nat>, blockLength: nat)
    requires |complete| == |pieceLengths| && blockLength > 0
    ensures InRequestOrder(Schedule(complete, pieceLengths, blockLength))
    decreases |complete|
  {
    if complete != [] {
      var n := |complete| - 1;
      var head := Schedule(complete[..n], pieceLengths[..n], blockLength);
      ScheduleOrdered(complete[..n], pieceLengths[..n], blockLength);
      ScheduleSound(complete[..n], pieceLengths[..n], blockLength);
      if !complete[n] {
        var tail := BlockRequests(n, pieceLengths[n], blockLength, 0);
        PieceRequests(n, pieceLengths[n], blockLength);
        var s := head + tail;
        forall j, k | 0 <= j < k < |s|
          ensures Before(s[j], s[k])
        {
          if k < |head| {
            assert Before(head[j], head[k]);
          } else if j < |head| {
            assert head[j] in head;
            assert s[k] == tail[k - |head|];
          } else {
            assert Before(tail[j - |head|], tail[k - |head|]);
          }
        }
      }
    }
  }

  /** Every block of every incomplete piece is requested. */
  lemma {:induction false} ScheduleComplete(complete: seq<bool>, pieceLengths: seq<nat>, blockLength: nat)
    requires |complete| == |pieceLengths| && blockLength > 0
    ensures forall i: nat, k: nat :: i < |complete| && !complete[i] && k * blockLength < pieceLengths[i] ==>
              BlockOf(i, k, pieceLengths[i], blockLength) in Schedule(complete, pieceLengths, blockLength)
    decreases |complete|
  {
    if complete != [] {
      var n := |complete| - 1;
      var head := Schedule(complete[..n], pieceLengths[..n], blockLength);
      ScheduleComplete(complete[..n], pieceLengths[..n], blockLength);
      var s := Schedule(complete, pieceLengths, blockLength);
      forall i: nat, k: nat | i < |complete| && !complete[i] && k * blockLength < pieceLengths[i]
        ensures BlockOf(i, k, pieceLengths[i], blockLength) in s
      {
        if i < n {
          assert complete[..n][i] == complete[i] && pieceLengths[..n][i] == pieceLengths[i];
          assert BlockOf(i, k, pieceLengths[i], blockLength) in head;
        } else {
          var tail := BlockRequests(n, pieceLengths[n], blockLength, 0);
          PieceRequests(n, pieceLengths[n], blockLength);
          BlockRequestsCount(n, pieceLengths[n], blockLength, 0);
          BlockRequestsInRange(n, pieceLengths[n], blockLength, 0, k);
          assert tail[k] == BlockOf(n, k, pieceLengths[n], blockLength);
          assert s == head + tail;
        }
      }
    }
  }

  /** An offset begin + k * B below L is among the requests sent from begin. */
  lemma {:induction false} BlockRequestsInRange(index: nat, pieceLength: nat, blockLength: nat, begin: nat, k: nat)
    requires blockLength > 0 && begin + k * blockLength < pieceLength
    ensures k < |BlockRequests(index, pieceLength, blockLength, begin)|
    decreases k
  {
    if k > 0 {
      assert begin + blockLength + (k - 1) * blockLength == begin + k * blockLength;
      BlockRequestsInRange(index, pieceLength, blockLength, begin + blockLength, k - 1);
    }
  }

  /** In all, ceil(L / B) requests are sent for each incomplete piece and none for a complete one. */
  lemma {:induction false} ScheduleLength(complete: seq<bool>, pieceLengths: seq<nat>, blockLength: nat)
    requires |complete| == |pieceLengths| && blockLength > 0
    ensures |Schedule(complete, pieceLengths, blockLength)| == PendingBlocks(complete, pieceLengths, blockLength)
    decreases |complete|
  {
    if complete != [] {
      var n := |complete| - 1;
      ScheduleLength(complete[..n], pieceLengths[..n], blockLength);
      BlockRequestsCount(n, pieceLengths[n], blockLength, 0);
      if pieceLengths[n] == 0 {
        DivUnique(blockLength - 1, blockLength, 0, blockLength - 1);
      }
    }
  }

  /**
   * `_request_all_pieces`, first part: for each piece in ascending order that is
   * not complete, request its blocks in ascending offset order. With a zero
   * block length `range` raises ValueError at the first incomplete piece, before
   * any request is sent.
   */
  method RequestAllPieces(complete: seq<bool>, pieceLengths: seq<nat>, blockLength: nat)
    returns (r: Result<seq<BlockRequest>, ClientError>)
    requires |complete| == |pieceLengths|
    ensures r.Ok? <==> blockLength > 0 || forall i :: 0 <= i < |complete| ==> complete[i]
    ensures r.Err? ==> r.error == ValueError
    ensures r.Ok? ==> r.value == if blockLength > 0 then Schedule(complete, pieceLengths, blockLength) else []
  {
    var sent: seq<BlockRequest> := [];
    for i := 0 to |pieceLengths|
      invariant blockLength > 0 ==> sent == Schedule(complete[..i], pieceLengths[..i], blockLength)
      invariant blockLength == 0 ==> sent == [] && forall j :: 0 <= j < i ==> complete[j]
    {
      assert complete[..i + 1][..i] == complete[..i] && pieceLengths[..i + 1][..i] == pieceLengths[..i];
      if !complete[i] {
        var pieceLength := pieceLengths[i];
        if blockLength == 0 {
          return Err(ValueError);
        }
        ghost var before := sent;
        var begin := 0;
        while begin < pieceLength
          invariant sent + BlockRequests(i, pieceLength, blockLength, begin) == before + BlockRequests(i, pieceLength, blockLength, 0)
          decreases pieceLength - begin
        {
          var length := Min(pieceLength, blockLength);
          sent := sent + [BlockRequest(i, begin, length)];
          begin := begin + blockLength;
        }
      }
    }
    assert complete[..|complete|] == complete && pieceLengths[..|pieceLengths|] == pieceLengths;
    return Ok(sent);
  }

  /** The number of polling rounds `_request_all_pieces` waits at most. */
  const PollRounds: nat := 10

  /** No piece is still missing (`not any(v is None for v in complete_pieces)`). */
  predicate AllComplete(complete: seq<bool>)
  {
    forall i :: 0 <= i < |complete| ==> complete[i]
  }

  /**
   * `_request_all_pieces`, second part: poll the torrent at most PollRounds
   * times, stopping at the first round that finds every piece complete.
   * observe(k) is the torrent's completion state when round k checks it;
   * the result is the number of rounds that slept and drained messages.
   */
  method AwaitCompletion(observe: nat -> seq<bool>) returns (waited: nat)
    ensures waited <= PollRounds
    ensures forall k :: 0 <= k < waited ==> !AllComplete(observe(k))
    ensures waited < PollRounds ==> AllComplete(observe(waited))
  {
    waited := 0;
    while waited < PollRounds
      invariant waited <= PollRounds
      invariant forall k :: 0 <= k < waited ==> !AllComplete(observe(k))
    {
      if AllComplete(observe(waited)) {
        break;
      }
      waited := waited + 1;
    }
  }

  /** The parts of a torrent's metainfo the client reads. */
  datatype Metainfo = Metainfo(name: string, format: string)

  datatype Torrent = Torrent(metainfo: Metainfo)

  const SingleFileFormat: string := "SINGLE_FILE"

  /** The one write a completed single-file torrent is saved with. */
  datatype SaveAction = SaveSingleFile(name: string, outdir: Option<string>, data: seq<byte>)

  class PgbtClient {
    var activeTorrents: seq<Torrent>
    var finishedTorrents: seq<Torrent>
    const outdir: Option<string>

    constructor (outdir: Option<string>)
      ensures activeTorrents == [] && finishedTorrents == [] && this.outdir == outdir
    {
      activeTorrents := [];
      finishedTorrents := [];
      this.outdir := outdir;
    }

    /** `add_torrent`, given the already parsed metainfo: the torrent joins the active ones. */
    method AddTorrent(metainfo: Metainfo)
      modifies this
      ensures activeTorrents == old(activeTorrents) + [Torrent(metainfo)]
      ensures finishedTorrents == old(finishedTorrents)
    {
      activeTorrents := activeTorrents + [Torrent(metainfo)];
    }

    /** `save_multiple_file` is not implemented: it always raises. */
    function SaveMultipleFile(torrent: Torrent, data: seq<byte>): (r: Result<SaveAction, ClientError>)
      ensures r == Err(NotImplementedError)
    {
      Err(NotImplementedError)
    }

    /**
     * `handle_completed_torrent`: a single-file torrent is saved under its
     * name; any other format goes to save_multiple_file and fails.
     */
    function HandleCompletedTorrent(torrent: Torrent, data: seq<byte>): (r: Result<SaveAction, ClientError>)
      ensures r.Ok? <==> torrent.metainfo.format == SingleFileFormat
      ensures r.Ok? ==> r.value == SaveSingleFile(torrent.metainfo.name, outdir, data)
      ensures r.Err? ==> r.error == NotImplementedError
    {
      if torrent.metainfo.format == SingleFileFormat then
        Ok(SaveSingleFile(torrent.metainfo.name, outdir, data))
      else
        SaveMultipleFile(torrent, data)
    }
  }
}

// Fetching a file by CID from other nodes: creator-node/src/fileManager.js, with the verification of
// creator-node/src/utils/cidUtils.ts.
module Fetch {
  import opened Wrappers
  import opened StoragePaths

  type Gateway = string
  type Bytes = seq<bv8>

  const EMPTY_FILE_CID := "QmbFMke1KXqnYyBBWxB74N4c5SBnJMVAiMNRcGu6x1AwQH"

  /** What one request comes to, on the way from the gateway to the disk. */
  datatype Outcome =
    | ErrorStatus(code: nat)
    | NoResponse
    | EmptyResponse
    | CannotOpen
    | StreamBreaks(written: Bytes)
    | Arrives(content: Bytes, hashingFails: bool, unlinkFails: bool)

  /** The content hash, which nothing here looks into. */
  type Hash = Bytes -> string

  /** verifyCIDMatchesExpected, where it does not throw. */
  predicate Matches(hash: Hash, cid: string, content: Bytes) {
    (content == [] ==> cid == EMPTY_FILE_CID) && hash(content) == cid
  }

  predicate Delivers(hash: Hash, cid: string, o: Outcome) {
    o.Arrives? && !o.hashingFails && Matches(hash, cid, o.content)
  }

  /** Delisted, unauthorized, bad request: no retry. */
  predicate Refuses(o: Outcome) { o.ErrorStatus? && (o.code == 403 || o.code == 401 || o.code == 400) }

  predicate Touches(o: Outcome) { o.StreamBreaks? || o.Arrives? }

  /** What the path holds after a request that wrote to it. */
  function Leaves(hash: Hash, cid: string, o: Outcome): Option<Bytes>
    requires Touches(o)
  {
    if o.StreamBreaks? then Some(o.written)
    else if o.hashingFails || Matches(hash, cid, o.content) || o.unlinkFails then Some(o.content)
    else None
  }

  function After(hash: Hash, cid: string, before: Option<Bytes>, o: Outcome): Option<Bytes> {
    if Touches(o) then Leaves(hash, cid, o) else before
  }

  /** What the path holds after these requests. */
  function Left(hash: Hash, cid: string, before: Option<Bytes>, os: seq<Outcome>): Option<Bytes> {
    if os == [] then before else After(hash, cid, Left(hash, cid, before, os[..|os| - 1]), os[|os| - 1])
  }

  lemma {:induction false} LeftConcat(hash: Hash, cid: string, before: Option<Bytes>, a: seq<Outcome>, b: seq<Outcome>)
    ensures Left(hash, cid, before, a + b) == Left(hash, cid, Left(hash, cid, before, a), b)
    decreases |b|
  {
    if b == [] {
      assert a + b == a;
    } else {
      assert (a + b)[..|a + b| - 1] == a + b[..|b| - 1];
      LeftConcat(hash, cid, before, a, b[..|b| - 1]);
    }
  }

  function Content(disk: map<Path, Bytes>, p: Path): Option<Bytes> { if p in disk then Some(disk[p]) else None }

  /** What lies at a path, if anything, is the content of its CID. */
  predicate Correct(hash: Hash, cid: string, content: Option<Bytes>) {
    content.Some? ==> Matches(hash, cid, content.value)
  }

  ghost predicate LastTouch(os: seq<Outcome>, k: nat) {
    k < |os| && Touches(os[k]) && forall j | k < j < |os| :: !Touches(os[j])
  }

  /** A stream that breaks off short of the content, or wrong content that is not unlinked. */
  predicate LeavesWrong(hash: Hash, cid: string, o: Outcome) {
    || (o.StreamBreaks? && !Matches(hash, cid, o.written))
    || (o.Arrives? && !Matches(hash, cid, o.content) && (o.hashingFails || o.unlinkFails))
  }

  ghost predicate EndsWrong(hash: Hash, cid: string, os: seq<Outcome>) {
    exists k: nat :: LastTouch(os, k) && LeavesWrong(hash, cid, os[k])
  }

  /**
   * However the requests went, a path that was correct before is wrong after exactly when the last one that
   * wrote anything broke off short of the content, or brought wrong content that was not unlinked.
   */
  lemma {:induction false} StaysCorrectExactly(hash: Hash, cid: string, before: Option<Bytes>, os: seq<Outcome>)
    requires Correct(hash, cid, before)
    ensures Correct(hash, cid, Left(hash, cid, before, os)) <==> !EndsWrong(hash, cid, os)
    decreases |os|
  {
    if os != [] {
      var prior, last := os[..|os| - 1], |os| - 1;
      StaysCorrectExactly(hash, cid, before, prior);
      if Touches(os[last]) {
        assert LastTouch(os, last);
        assert forall k: nat | LastTouch(os, k) :: k == last;
        assert EndsWrong(hash, cid, os) <==> LeavesWrong(hash, cid, os[last]);
      } else {
        forall k: nat ensures LastTouch(os, k) <==> LastTouch(prior, k) {
          assert LastTouch(prior, k) ==> forall j | k < j < |os| :: j == last || os[j] == prior[j];
          assert LastTouch(os, k) ==> forall j | k < j < |prior| :: prior[j] == os[j];
        }
        assert EndsWrong(hash, cid, os) <==> EndsWrong(hash, cid, prior);
      }
    }
  }

  /** With whole streams, hashing that works and unlinks that succeed, no failure leaves anything wrong behind. */
  lemma CleanFailuresStayCorrect(hash: Hash, cid: string, before: Option<Bytes>, os: seq<Outcome>)
    requires Correct(hash, cid, before)
    requires forall o | o in os :: !o.StreamBreaks? && (o.Arrives? ==> !o.hashingFails && !o.unlinkFails)
    ensures Correct(hash, cid, Left(hash, cid, before, os))
  {
    StaysCorrectExactly(hash, cid, before, os);
  }

  // ---------- The fetch ----------

  /** What the n-th request and those after it came to, up to the m-th. */
  ghost function Between(net: nat -> Outcome, n: nat, m: nat): seq<Outcome>
    requires n <= m
  {
    seq(m - n, k requires 0 <= k < m - n => net(n + k))
  }

  /** How writing a buffer goes: an error that leaves something there or nothing, or content that is then verified. */
  datatype Write = WriteFails(left: Option<Bytes>) | Lands(content: Bytes, hashingFails: bool, removeFails: bool)

  predicate Saves(hash: Hash, cid: string, w: Write) { w.Lands? && !w.hashingFails && Matches(hash, cid, w.content) }

  /** There is no further attempt after it. */
  predicate Settles(hash: Hash, cid: string, w: Write) { w.WriteFails? || w.removeFails || Saves(hash, cid, w) }

  function LeftByWrite(hash: Hash, cid: string, w: Write): Option<Bytes> {
    if w.WriteFails? then w.left else if w.removeFails || Saves(hash, cid, w) then Some(w.content) else None
  }

  /** What the fetch works on. */
  datatype Snapshot = Snapshot(disk: map<Path, Bytes>, requests: seq<Gateway>)

  /** Nothing on disk changes but this path, which holds what the requests made in between left there. */
  ghost predicate OnlyFetches(hash: Hash, net: nat -> Outcome, cid: string, path: Path, a: Snapshot, b: Snapshot) {
    && a.requests <= b.requests
    && Content(b.disk, path) ==
         Left(hash, cid, Content(a.disk, path), Between(net, |a.requests|, |b.requests|))
    && b.disk - {path} == a.disk - {path}
  }

  lemma OnlyFetchesTransitive(
      hash: Hash, net: nat -> Outcome, cid: string, path: Path, a: Snapshot, b: Snapshot, c: Snapshot)
    requires OnlyFetches(hash, net, cid, path, a, b) && OnlyFetches(hash, net, cid, path, b, c)
    ensures OnlyFetches(hash, net, cid, path, a, c)
  {
    var n, m, k := |a.requests|, |b.requests|, |c.requests|;
    assert Between(net, n, k) == Between(net, n, m) + Between(net, m, k);
    LeftConcat(hash, cid, Content(a.disk, path), Between(net, n, m), Between(net, m, k));
  }

  lemma OneRequestOnlyFetches(
      hash: Hash, net: nat -> Outcome, cid: string, path: Path, a: Snapshot, b: Snapshot, gateway: Gateway)
    requires b.requests == a.requests + [gateway] && b.disk - {path} == a.disk - {path}
    requires Content(b.disk, path) == After(hash, cid, Content(a.disk, path), net(|a.requests|))
    ensures OnlyFetches(hash, net, cid, path, a, b)
  {
    var os := Between(net, |a.requests|, |b.requests|);
    assert os == [net(|a.requests|)] && os[..0] == [];
  }

  lemma NoRequestOnlyFetches(hash: Hash, net: nat -> Outcome, cid: string, path: Path, a: Snapshot)
    ensures OnlyFetches(hash, net, cid, path, a, a)
  {
    assert Between(net, |a.requests|, |a.requests|) == [];
  }

  /** These outcomes of one gateway's attempts: all but the last to be retried, the last a delivery or the end. */
  ghost predicate Attempts(hash: Hash, cid: string, os: seq<Outcome>, tries: nat, ok: bool) {
    && 0 < |os| <= tries
    && (forall k | 0 <= k < |os| - 1 :: !HasContent(hash, cid, os[k]) && !IsFinal(os[k]))
    && (ok <==> HasContent(hash, cid, os[|os| - 1]))
    && (!ok ==> |os| == tries || IsFinal(os[|os| - 1]))
  }

  /** A whole stream whose hash could be taken and is the CID; nothing at all passes only for the empty file's. */
  ghost predicate HasContent(hash: Hash, cid: string, o: Outcome) {
    && o.Arrives? && !o.hashingFails && hash(o.content) == cid
    && (|o.content| == 0 ==> cid == "QmbFMke1KXqnYyBBWxB74N4c5SBnJMVAiMNRcGu6x1AwQH")
  }

  /** After num requests of which only the last may have ended the attempts. */
  lemma AttemptsEnd(hash: Hash, cid: string, net: nat -> Outcome, start: nat, num: nat, tries: nat)
    requires 0 < num <= tries
    requires forall k | start <= k < start + num - 1 :: !Delivers(hash, cid, net(k)) && !Refuses(net(k))
    requires var last := net(start + num - 1); Delivers(hash, cid, last) || Refuses(last) || num == tries
    ensures Attempts(hash, cid, Between(net, start, start + num), tries, Delivers(hash, cid, net(start + num - 1)))
  {
    var os := Between(net, start, start + num);
    forall k | 0 <= k < num ensures os[k] == net(start + k) {
    }
  }

  /** The request is bad, unauthorized or for delisted content. */
  ghost predicate IsFinal(o: Outcome) { o in {ErrorStatus(400), ErrorStatus(401), ErrorStatus(403)} }

  /** From this request on, only this gateway has been asked. */
  ghost predicate OnlyAsks(requests: seq<Gateway>, start: nat, gateway: Gateway) {
    start <= |requests| && forall k | start <= k < |requests| :: requests[k] == gateway
  }

  lemma AskedOnceMore(requests: seq<Gateway>, start: nat, gateway: Gateway)
    requires OnlyAsks(requests, start, gateway)
    ensures OnlyAsks(requests + [gateway], start, gateway)
  {
  }

  class FileManager {
    const hash: Hash
    /** What the k-th request of this node will come to. */
    const net: nat -> Outcome

    var disk: map<Path, Bytes>
    /** The gateways asked, in order. */
    var requests: seq<Gateway>
    /** The Redis set of paths for which the network has been searched today. */
    var attemptedStateFixes: set<Path>

    constructor (hash: Hash, net: nat -> Outcome)
      ensures this.hash == hash && this.net == net && disk == map[] && requests == [] && attemptedStateFixes == {}
    {
      this.hash, this.net, disk, requests, attemptedStateFixes := hash, net, map[], [], {};
    }

    function Now(): Snapshot
      reads this
    {
      Snapshot(disk, requests)
    }

    /** fetchFileFromTargetGatewayAndWriteToDisk: delivered, or an error with the status it carries. */
    method FetchFileFromTargetGatewayAndWriteToDisk(gateway: Gateway, cid: string, path: Path) returns (o: Outcome)
      modifies this`disk, this`requests
      ensures o == net(|old(requests)|) && requests == old(requests) + [gateway]
      ensures Content(disk, path) == After(hash, cid, Content(old(disk), path), o)
      ensures match o
              case StreamBreaks(written) => disk == old(disk)[path := written]
              case Arrives(content, hashingFails, unlinkFails) =>
                if hashingFails || unlinkFails || HasContent(hash, cid, o) then disk == old(disk)[path := content]
                else disk == old(disk) - {path}
              case _ => disk == old(disk)
      ensures disk - {path} == old(disk) - {path}
    {
      o := net(|requests|);
      requests := requests + [gateway];
      match o {
        case ErrorStatus(_) =>
        case NoResponse =>
        case EmptyResponse =>
        case CannotOpen =>
        case StreamBreaks(written) => disk := disk[path := written];
        case Arrives(content, hashingFails, unlinkFails) =>
          disk := disk[path := content];
          if !hashingFails && !Matches(hash, cid, content) && !unlinkFails {
            disk := disk - {path};
          }
      }
    }

    /** _fetchFileFromNetworkAndWriteToDiskAscyncRetryHelper: one gateway, numRetries + 1 times at most. */
    method FetchWithRetries(gateway: Gateway, cid: string, path: Path, numRetries: nat) returns (ok: bool)
      modifies this`disk, this`requests
      ensures OnlyFetches(hash, net, cid, path, old(Now()), Now())
      ensures OnlyAsks(requests, |old(requests)|, gateway)
      ensures Attempts(hash, cid, Between(net, |old(requests)|, |requests|), numRetries + 1, ok)
      ensures ok ==> path in disk && Matches(hash, cid, disk[path]) && hash(disk[path]) == cid
    {
      var num := 0;
      ghost var start := |requests|;
      NoRequestOnlyFetches(hash, net, cid, path, Now());
      while true
        invariant |requests| == start + num && num <= numRetries
        invariant OnlyFetches(hash, net, cid, path, old(Now()), Now())
        invariant OnlyAsks(requests, start, gateway)
        invariant forall k | start <= k < start + num :: !Delivers(hash, cid, net(k)) && !Refuses(net(k))
        decreases numRetries - num
      {
        ghost var before := Now();
        var o := FetchFileFromTargetGatewayAndWriteToDisk(gateway, cid, path);
        num := num + 1;
        OneRequestOnlyFetches(hash, net, cid, path, before, Now(), gateway);
        OnlyFetchesTransitive(hash, net, cid, path, old(Now()), before, Now());
        AskedOnceMore(before.requests, start, gateway);
        if Delivers(hash, cid, o) {
          AttemptsEnd(hash, cid, net, start, num, numRetries + 1);
          return true;
        }
        if Refuses(o) || num == numRetries + 1 {
          AttemptsEnd(hash, cid, net, start, num, numRetries + 1);
          return false;
        }
      }
    }

    /** A loop over gateways, which ends with the first that delivers. */
    method TryGateways(gateways: seq<Gateway>, cid: string, path: Path, numRetries: nat) returns (ok: bool)
      modifies this`disk, this`requests
      ensures OnlyFetches(hash, net, cid, path, old(Now()), Now())
      ensures |requests| - |old(requests)| <= |gateways| * (numRetries + 1)
      ensures forall g | g in requests[|old(requests)|..] :: g in gateways
      ensures !ok ==> forall g | g in gateways :: g in requests[|old(requests)|..]
      ensures !ok ==> NoneDelivers(hash, cid, Between(net, |old(requests)|, |requests|))
      ensures ok ==> path in disk && Matches(hash, cid, disk[path])
    {
      ghost var start := |requests|;
      NoRequestOnlyFetches(hash, net, cid, path, Now());
      for i := 0 to |gateways|
        invariant OnlyFetches(hash, net, cid, path, old(Now()), Now())
        invariant Tried(gateways, i, requests[start..], numRetries + 1)
        invariant NoneDelivers(hash, cid, Between(net, start, |requests|))
      {
        ghost var before := Now();
        ok := FetchWithRetries(gateways[i], cid, path, numRetries);
        OnlyFetchesTransitive(hash, net, cid, path, old(Now()), before, Now());
        TriedOneMore(gateways, i, before.requests, requests, start, numRetries + 1);
        if ok {
          TimesGrows(i + 1, |gateways|, numRetries + 1);
          return;
        }
        NoneDeliversYet(hash, net, cid, start, |before.requests|, |requests|, numRetries + 1);
      }
      ok := false;
    }

    /**
     * fetchFileFromNetworkAndWriteToDisk: the target gateways, and when all of them have failed, unless
     * that is disabled or was done today, the others.
     */
    method FetchFileFromNetworkAndWriteToDisk(
        targets: seq<Gateway>, others: seq<Gateway>, cid: string, path: Path, numRetries: nat,
        findCIDInNetworkEnabled: bool)
      returns (ok: bool, ghost asked: nat)
      modifies this
      ensures OnlyFetches(hash, net, cid, path, old(Now()), Now())
      ensures ok ==> path in disk && Matches(hash, cid, disk[path])
      ensures |old(requests)| <= asked <= |requests|
      ensures TargetsFirst(old(requests), asked, requests, targets, others)
      ensures |requests| - |old(requests)| <= (|targets| + |others|) * (numRetries + 1)
      ensures asked < |requests| ==>
                && findCIDInNetworkEnabled && path !in old(attemptedStateFixes)
                && NoneDelivers(hash, cid, Between(net, |old(requests)|, asked))
      ensures !ok ==> NoneDelivers(hash, cid, Between(net, |old(requests)|, |requests|))
      ensures !ok ==> forall g | g in targets :: g in requests[|old(requests)|..asked]
      ensures !ok && findCIDInNetworkEnabled && path !in old(attemptedStateFixes) ==>
                forall g | g in others :: g in requests[asked..]
      ensures attemptedStateFixes == old(attemptedStateFixes) || attemptedStateFixes == old(attemptedStateFixes) + {path}
    {
      ok := TryGateways(targets, cid, path, numRetries);
      asked := |requests|;
      ghost var mid := Now();
      NoRequestOnlyFetches(hash, net, cid, path, mid);
      TimesAdds(|targets|, |others|, numRetries + 1);
      if !ok {
        ok := SearchNetwork(others, cid, path, numRetries, findCIDInNetworkEnabled);
        OnlyFetchesTransitive(hash, net, cid, path, old(Now()), mid, Now());
        OthersAfterTargets(old(requests), mid.requests, requests, targets, others);
        BetweenConcat(net, |old(requests)|, asked, |requests|);
      }
    }

    /** The rest of the network, when it is enabled and for the first time today. */
    method SearchNetwork(
        others: seq<Gateway>, cid: string, path: Path, numRetries: nat, findCIDInNetworkEnabled: bool)
      returns (ok: bool)
      modifies this
      ensures OnlyFetches(hash, net, cid, path, old(Now()), Now())
      ensures |requests| - |old(requests)| <= |others| * (numRetries + 1)
      ensures forall g | g in requests[|old(requests)|..] :: g in others
      ensures |old(requests)| < |requests| ==> findCIDInNetworkEnabled && path !in old(attemptedStateFixes)
      ensures ok ==> path in disk && Matches(hash, cid, disk[path])
      ensures !ok ==> NoneDelivers(hash, cid, Between(net, |old(requests)|, |requests|))
      ensures !ok && findCIDInNetworkEnabled && path !in old(attemptedStateFixes) ==>
                forall g | g in others :: g in requests[|old(requests)|..]
      ensures attemptedStateFixes == old(attemptedStateFixes) + if findCIDInNetworkEnabled then {path} else {}
    {
      NoRequestOnlyFetches(hash, net, cid, path, Now());
      if !findCIDInNetworkEnabled {
        return false;
      }
      var attempted := path in attemptedStateFixes;
      attemptedStateFixes := attemptedStateFixes + {path};
      if attempted {
        return false;
      }
      ok := TryGateways(others, cid, path, numRetries);
    }

    /**
     * fetchFileFromNetworkAndSaveToFS. nodes is None when the list of nodes cannot be had. A file that is
     * there is trusted; otherwise what is returned has just been verified.
     */
    method FetchFileFromNetworkAndSaveToFS(
        multihash: string, dirCid: string, fileNameForImage: string, targets: seq<Gateway>,
        nodes: Option<seq<Gateway>>, self: Gateway, mkdirFails: bool, numRetries: nat, findCIDInNetworkEnabled: bool)
      returns (storagePath: Option<Path>)
      modifies this
      ensures var location := StorageLocation(multihash, dirCid, fileNameForImage);
              if nodes.None? || location.None? then storagePath.None? && Now() == old(Now())
              else
                var path := location.value;
                && OnlyFetches(hash, net, multihash, path, old(Now()), Now())
                && (storagePath.Some? ==> storagePath == location && path in disk)
                && (path in old(disk) ==> storagePath.Some? && Now() == old(Now()))
                && (path !in old(disk) && storagePath.Some? ==>
                      Matches(hash, multihash, disk[path]) && hash(disk[path]) == multihash)
                && (Correct(hash, multihash, Content(old(disk), path)) && storagePath.Some? ==>
                      Matches(hash, multihash, disk[path]))
                && |requests| - |old(requests)| <=
                     (|targets| + |Others(nodes.value, targets, self)|) * (numRetries + 1)
                && exists asked :: |old(requests)| <= asked <= |requests|
                     && TargetsFirst(old(requests), asked, requests, targets, Others(nodes.value, targets, self))
                     && (storagePath.None? && !mkdirFails ==>
                           forall g | g in targets :: g in requests[|old(requests)|..asked])
      ensures storagePath.None? ==> NoneDelivers(hash, multihash, Between(net, |old(requests)|, |requests|))
    {
      ghost var location := StorageLocation(multihash, dirCid, fileNameForImage);
      if nodes.None? {
        return None;
      }
      var nonTargetGateways := Others(nodes.value, targets, self);
      var storageLocation := StorageLocation(multihash, dirCid, fileNameForImage);
      if storageLocation.None? {
        return None;
      }
      var path := storageLocation.value;
      NoRequestOnlyFetches(hash, net, multihash, path, Now());
      TimesGrows(0, |targets| + |nonTargetGateways|, numRetries + 1);
      assert TargetsFirst(requests, |requests|, requests, targets, nonTargetGateways);
      if path in disk {
        return storageLocation;
      }
      if mkdirFails {
        return None;
      }
      var ok; ghost var asked;
      ok, asked := FetchFileFromNetworkAndWriteToDisk(
        targets, nonTargetGateways, multihash, path, numRetries, findCIDInNetworkEnabled);
      storagePath := if ok then storageLocation else None;
    }

    /**
     * Two calls for a file that was not there, one after the other. The second returns content that is not
     * the CID's exactly when the last request of the first call that wrote anything left it there.
     */
    method FetchTwice(
        multihash: string, dirCid: string, fileNameForImage: string, targets: seq<Gateway>,
        nodes: seq<Gateway>, self: Gateway, numRetries: nat, findCIDInNetworkEnabled: bool)
      returns (first: Option<Path>, second: Option<Path>, ghost mid: Snapshot)
      requires StorageLocation(multihash, dirCid, fileNameForImage).Some?
      requires StorageLocation(multihash, dirCid, fileNameForImage).value !in disk
      modifies this
      ensures var path := StorageLocation(multihash, dirCid, fileNameForImage).value;
              && OnlyFetches(hash, net, multihash, path, old(Now()), mid)
              && (first.None? ==> forall g | g in targets :: g in mid.requests[|old(requests)|..])
              && (first.Some? ==> path in mid.disk && Matches(hash, multihash, mid.disk[path]))
              && |mid.requests| - |old(requests)| <= (|targets| + |Others(nodes, targets, self)|) * (numRetries + 1)
              && (path in mid.disk ==> second == Some(path) && Now() == mid)
              && (second.Some? ==> path in disk)
              && (second.Some? && !Matches(hash, multihash, disk[path]) <==>
                    EndsWrong(hash, multihash, Between(net, |old(requests)|, |mid.requests|)))
    {
      ghost var path := StorageLocation(multihash, dirCid, fileNameForImage).value;
      first := FetchFileFromNetworkAndSaveToFS(
        multihash, dirCid, fileNameForImage, targets, Some(nodes), self, false, numRetries, findCIDInNetworkEnabled);
      mid := Now();
      AllAskedSomewhere(old(requests), requests, targets);
      StaysCorrectExactly(hash, multihash, None, Between(net, |old(requests)|, |requests|));
      second := FetchFileFromNetworkAndSaveToFS(
        multihash, dirCid, fileNameForImage, targets, Some(nodes), self, false, numRetries, findCIDInNetworkEnabled);
    }

    /** One gateway whose stream breaks off: the first call fails, and the second returns the part that came. */
    method BrokenStreamIsServed(multihash: string, gateway: Gateway, self: Gateway, part: Bytes)
      returns (first: Option<Path>, second: Option<Path>)
      requires ValidCid(multihash) && ComputeFilePath(multihash) !in disk
      requires net(|requests|) == StreamBreaks(part) && hash(part) != multihash
      modifies this
      ensures first.None? && second == Some(ComputeFilePath(multihash))
      ensures ComputeFilePath(multihash) in disk && disk[ComputeFilePath(multihash)] == part
    {
      ghost var n := |requests|;
      ghost var mid;
      first, second, mid := FetchTwice(multihash, "", "", [gateway], [], self, 0, false);
      assert Others([], [gateway], self) == [] && gateway in [gateway];
      OneStreamBroke(hash, net, multihash, n, |mid.requests|, part);
      assert Content(mid.disk, ComputeFilePath(multihash)) == Some(part);
    }

    /**
     * saveFileFromBufferToDisk. writes says how each attempt goes. A returned path holds content of the
     * buffer's CID; after a failure it holds what the last attempt left there.
     */
    method SaveFileFromBufferToDisk(authenticated: bool, buffer: Bytes, numRetries: nat, writes: seq<Write>)
      returns (storagePath: Option<Path>, ghost used: nat)
      requires |writes| > numRetries
      modifies this`disk
      ensures var cid := hash(buffer);
              var location := StorageLocation(cid, "", "");
              if !authenticated || location.None? then storagePath.None? && disk == old(disk)
              else
                && 0 < used <= numRetries + 1
                && (forall k | 0 <= k < used - 1 :: !Settles(hash, cid, writes[k]))
                && (storagePath.None? ==> used == numRetries + 1 || Settles(hash, cid, writes[used - 1]))
                && storagePath == (if Saves(hash, cid, writes[used - 1]) then location else None)
                && Content(disk, location.value) == LeftByWrite(hash, cid, writes[used - 1])
                && disk - {location.value} == old(disk) - {location.value}
      ensures storagePath.Some? ==>
                && storagePath.value in disk && Matches(hash, hash(buffer), disk[storagePath.value])
                && hash(disk[storagePath.value]) == hash(buffer)
      decreases numRetries
    {
      used := 0;
      if !authenticated {
        return None, 0;
      }
      var cid := hash(buffer);
      var dstPath := StorageLocation(cid, "", "");
      if dstPath.None? {
        return None, 0;
      }
      var path := dstPath.value;
      match writes[0] {
        case WriteFails(left) =>
          disk := if left.Some? then disk[path := left.value] else disk - {path};
          return None, 1;
        case Lands(content, hashingFails, removeFails) =>
          disk := disk[path := content];
          if !hashingFails && Matches(hash, cid, content) {
            return dstPath, 1;
          }
          if removeFails {
            return None, 1;
          }
          disk := disk - {path};
          if numRetries > 0 {
            storagePath, used := SaveFileFromBufferToDisk(authenticated, buffer, numRetries - 1, writes[1..]);
            used := used + 1;
          } else {
            return None, 1;
          }
      }
    }
  }

  function Others(nodes: seq<Gateway>, targets: seq<Gateway>, self: Gateway): (r: seq<Gateway>)
    ensures forall g :: g in r <==> g in nodes && g !in targets && g != self
    ensures |r| <= |nodes|
  {
    if nodes == [] then []
    else (if nodes[0] !in targets && nodes[0] != self then [nodes[0]] else []) + Others(nodes[1..], targets, self)
  }

  /** The requests of this call up to the asked-th go to targets, to all of them if any other follows. */
  ghost predicate TargetsFirst(
    before: seq<Gateway>, asked: nat, after: seq<Gateway>, targets: seq<Gateway>, others: seq<Gateway>)
    requires |before| <= asked <= |after|
  {
    && (forall g | g in after[|before|..asked] :: g in targets)
    && (forall g | g in after[asked..] :: g in others)
    && (asked < |after| ==> forall g | g in targets :: g in after[|before|..asked])
  }

  ghost predicate NoneDelivers(hash: Hash, cid: string, os: seq<Outcome>) {
    forall o | o in os :: !Delivers(hash, cid, o)
  }

  /** These requests went to the first i gateways, to each of them, and to none more than tries times over all. */
  ghost predicate Tried(gateways: seq<Gateway>, i: nat, asked: seq<Gateway>, tries: nat) {
    && i <= |gateways| && |asked| <= i * tries
    && (forall g | g in asked :: g in gateways)
    && (forall k | 0 <= k < i :: gateways[k] in asked)
  }

  lemma TriedOneMore(gateways: seq<Gateway>, i: nat, before: seq<Gateway>, after: seq<Gateway>, start: nat, tries: nat)
    requires start <= |before| < |after| && before <= after
    requires Tried(gateways, i, before[start..], tries) && i < |gateways|
    requires |after| - |before| <= tries && OnlyAsks(after, |before|, gateways[i])
    ensures Tried(gateways, i + 1, after[start..], tries)
  {
    var asked, more := before[start..], after[|before|..];
    assert after[start..] == asked + more;
    assert more[0] == gateways[i] && more[0] in more;
  }

  lemma NoneDeliversYet(hash: Hash, net: nat -> Outcome, cid: string, start: nat, n: nat, m: nat, tries: nat)
    requires start <= n <= m && NoneDelivers(hash, cid, Between(net, start, n))
    requires Attempts(hash, cid, Between(net, n, m), tries, false)
    ensures NoneDelivers(hash, cid, Between(net, start, m))
  {
    BetweenConcat(net, start, n, m);
  }

  lemma BetweenConcat(net: nat -> Outcome, n: nat, m: nat, k: nat)
    requires n <= m <= k
    ensures Between(net, n, k) == Between(net, n, m) + Between(net, m, k)
  {
  }

  lemma AllAskedSomewhere(before: seq<Gateway>, after: seq<Gateway>, targets: seq<Gateway>)
    ensures forall asked, g | |before| <= asked <= |after| && g in after[|before|..asked] :: g in after[|before|..]
  {
    forall asked, g | |before| <= asked <= |after| && g in after[|before|..asked] ensures g in after[|before|..] {
      var k :| 0 <= k < asked - |before| && after[|before|..asked][k] == g;
      assert after[|before|..][k] == g;
    }
  }

  lemma OneStreamBroke(hash: Hash, net: nat -> Outcome, cid: string, n: nat, m: nat, part: Bytes)
    requires net(n) == StreamBreaks(part) && n <= m <= n + 1
    ensures m == n + 1 ==> Left(hash, cid, None, Between(net, n, m)) == Some(part)
    ensures m == n ==> Left(hash, cid, None, Between(net, n, m)) == None
  {
    assert m == n + 1 ==> Between(net, n, m) == [StreamBreaks(part)] && [StreamBreaks(part)][..0] == [];
  }

  lemma OthersAfterTargets(
      before: seq<Gateway>, mid: seq<Gateway>, after: seq<Gateway>, targets: seq<Gateway>, others: seq<Gateway>)
    requires before <= mid <= after
    requires forall g :: g in mid[|before|..] <==> g in targets
    requires forall g | g in after[|mid|..] :: g in others
    ensures TargetsFirst(before, |mid|, after, targets, others)
    ensures after[|before|..|mid|] == mid[|before|..]
  {
    assert after[|before|..|mid|] == mid[|before|..];
  }

  lemma TimesGrows(a: nat, b: nat, tries: nat)
    requires a <= b
    ensures a * tries <= b * tries
  {
  }

  lemma TimesAdds(a: nat, b: nat, tries: nat)
    ensures (a + b) * tries == a * tries + b * tries
  {
  }
}

// The blacklist in Redis against what the ContentBlacklist table implies: creator-node/src/blacklistManager.js.
module Blacklist {
  import opened Collections
  import opened Wrappers

  type TrackId = nat
  type UserId = nat
  type Cid = string

  datatype FileType = TrackFile | Copy320 | OtherFile

  /** metadataJSON.track_segments by multihash, where "" stands for a segment without one. */
  datatype Track = Track(blockchainId: TrackId, ownerId: UserId, segments: Option<seq<Cid>>)

  datatype File = File(trackBlockchainId: Option<TrackId>, multihash: Cid, fileType: FileType)

  datatype Tables = Tables(tracks: seq<Track>, files: seq<File>, whitelist: set<Cid>)

  /**
   * An entry of ContentBlacklist by its type, and a member of a Redis set by the key of the set: the
   * track ids, the user ids and the segment CIDs.
   */
  datatype Item = UserItem(userId: UserId) | TrackItem(trackId: TrackId) | CidItem(cid: Cid)

  // ---------- What is implied ----------

  predicate KeptFile(f: File, whitelist: set<Cid>) {
    f.fileType.TrackFile? || f.fileType.Copy320? || f.multihash !in whitelist
  }

  predicate SegmentOf(tables: Tables, id: TrackId, c: Cid) {
    && c != "" && c !in tables.whitelist
    && exists t :: t in tables.tracks && t.blockchainId == id && t.segments.Some? && c in t.segments.value
  }

  predicate FileOf(tables: Tables, id: TrackId, c: Cid) {
    exists f ::
      && f in tables.files && f.trackBlockchainId == Some(id) && f.multihash == c
      && (c in tables.whitelist ==> f.fileType == TrackFile || f.fileType == Copy320)
  }

  /** A whitelisted CID is left out, except where it is that of a track or copy320 file. */
  ghost predicate TrackImplies(tables: Tables, id: TrackId, c: Cid) {
    SegmentOf(tables, id, c) || FileOf(tables, id, c)
  }

  ghost predicate Names(tables: Tables, items: set<Item>, id: TrackId) {
    TrackItem(id) in items || exists t :: t in tables.tracks && t.blockchainId == id && UserItem(t.ownerId) in items
  }

  /** What must be in Redis for these entries. */
  ghost predicate Implies(tables: Tables, items: set<Item>, i: Item) {
    match i
    case UserItem(_) => i in items
    case TrackItem(id) => Names(tables, items, id)
    case CidItem(c) => i in items || exists id :: Names(tables, items, id) && TrackImplies(tables, id, c)
  }

  ghost function Implied(tables: Tables, items: set<Item>): iset<Item> {
    iset i | Implies(tables, items, i)
  }

  /** What several entries imply is what they imply one by one. */
  lemma ImpliedDistributes(tables: Tables, a: set<Item>, b: set<Item>)
    ensures Implied(tables, a + b) == Implied(tables, a) + Implied(tables, b)
  {
    forall id ensures Names(tables, a + b, id) <==> Names(tables, a, id) || Names(tables, b, id) {
    }
    forall i ensures Implies(tables, a + b, i) <==> Implies(tables, a, i) || Implies(tables, b, i) {
    }
  }

  lemma ImpliedGrows(tables: Tables, a: set<Item>, b: set<Item>)
    requires a <= b
    ensures Implied(tables, a) <= Implied(tables, b)
  {
    ImpliedDistributes(tables, a, b);
    assert a + b == b;
  }

  // ---------- What the queries collect ----------

  ghost function CidsOfTrack(t: Track, ids: set<TrackId>, whitelist: set<Cid>): set<Cid> {
    if t.blockchainId in ids && t.segments.Some? then set c | c in t.segments.value && c != "" && c !in whitelist else {}
  }

  ghost function CidsOfTracks(tracks: seq<Track>, ids: set<TrackId>, whitelist: set<Cid>): set<Cid> {
    if tracks == [] then {}
    else CidsOfTracks(tracks[..|tracks| - 1], ids, whitelist) + CidsOfTrack(tracks[|tracks| - 1], ids, whitelist)
  }

  ghost function CidsOfFile(f: File, ids: set<TrackId>, whitelist: set<Cid>): set<Cid> {
    if f.trackBlockchainId.Some? && f.trackBlockchainId.value in ids && KeptFile(f, whitelist) then {f.multihash} else {}
  }

  ghost function CidsOfFiles(files: seq<File>, ids: set<TrackId>, whitelist: set<Cid>): set<Cid> {
    if files == [] then {}
    else CidsOfFiles(files[..|files| - 1], ids, whitelist) + CidsOfFile(files[|files| - 1], ids, whitelist)
  }

  ghost function CidsToBlacklist(tables: Tables, ids: set<TrackId>): set<Cid> {
    CidsOfTracks(tables.tracks, ids, tables.whitelist) + CidsOfFiles(tables.files, ids, tables.whitelist)
  }

  lemma {:induction false} InCidsOfTracks(tracks: seq<Track>, ids: set<TrackId>, whitelist: set<Cid>, c: Cid)
    ensures c in CidsOfTracks(tracks, ids, whitelist) <==> exists t :: t in tracks && c in CidsOfTrack(t, ids, whitelist)
    decreases |tracks|
  {
    if tracks != [] {
      InCidsOfTracks(tracks[..|tracks| - 1], ids, whitelist, c);
      assert tracks == tracks[..|tracks| - 1] + [tracks[|tracks| - 1]];
    }
  }

  lemma {:induction false} InCidsOfFiles(files: seq<File>, ids: set<TrackId>, whitelist: set<Cid>, c: Cid)
    ensures c in CidsOfFiles(files, ids, whitelist) <==> exists f :: f in files && c in CidsOfFile(f, ids, whitelist)
    decreases |files|
  {
    if files != [] {
      InCidsOfFiles(files[..|files| - 1], ids, whitelist, c);
      assert files == files[..|files| - 1] + [files[|files| - 1]];
    }
  }

  lemma CollectedIsImplied(tables: Tables, ids: set<TrackId>, c: Cid)
    ensures c in CidsToBlacklist(tables, ids) <==> exists id :: id in ids && TrackImplies(tables, id, c)
  {
    InCidsOfTracks(tables.tracks, ids, tables.whitelist, c);
    InCidsOfFiles(tables.files, ids, tables.whitelist, c);
    if c in CidsOfTracks(tables.tracks, ids, tables.whitelist) {
      var t :| t in tables.tracks && c in CidsOfTrack(t, ids, tables.whitelist);
      assert TrackImplies(tables, t.blockchainId, c);
    }
    if c in CidsOfFiles(tables.files, ids, tables.whitelist) {
      var f :| f in tables.files && c in CidsOfFile(f, ids, tables.whitelist);
      assert TrackImplies(tables, f.trackBlockchainId.value, c);
    }
    forall id | id in ids && TrackImplies(tables, id, c) ensures c in CidsToBlacklist(tables, ids) {
      if SegmentOf(tables, id, c) {
        var t :| t in tables.tracks && t.blockchainId == id && t.segments.Some? && c in t.segments.value;
        assert c in CidsOfTrack(t, ids, tables.whitelist);
      } else {
        var f :|
          && f in tables.files && f.trackBlockchainId == Some(id) && f.multihash == c
          && (c in tables.whitelist ==> f.fileType == TrackFile || f.fileType == Copy320);
        assert c in CidsOfFile(f, ids, tables.whitelist);
      }
    }
  }

  /** The batches of 200 tracks lose nothing: CIDs of a union of batches are the union of their CIDs. */
  lemma CollectingDistributes(tables: Tables, a: set<TrackId>, b: set<TrackId>)
    ensures CidsToBlacklist(tables, a + b) == CidsToBlacklist(tables, a) + CidsToBlacklist(tables, b)
  {
    forall c ensures c in CidsToBlacklist(tables, a + b) <==>
                     c in CidsToBlacklist(tables, a) || c in CidsToBlacklist(tables, b) {
      CollectedIsImplied(tables, a, c);
      CollectedIsImplied(tables, b, c);
      CollectedIsImplied(tables, a + b, c);
    }
  }

  /** A Set of JavaScript: the elements in the order they came, each once. */
  method AddToSet<T(==)>(s: seq<T>, c: T) returns (r: seq<T>)
    ensures Elements(r) == Elements(s) + {c}
    ensures r == s || (c !in s && r == s + [c])
  {
    r := if c in s then s else s + [c];
  }

  /** _getCIDsToBlacklist */
  method GetCIDsToBlacklist(tables: Tables, inputTrackIds: seq<TrackId>) returns (segmentCIDs: seq<Cid>)
    ensures Elements(segmentCIDs) == CidsToBlacklist(tables, Elements(inputTrackIds))
  {
    ghost var ids := Elements(inputTrackIds);
    segmentCIDs := [];
    for k := 0 to |tables.tracks|
      invariant Elements(segmentCIDs) == CidsOfTracks(tables.tracks[..k], ids, tables.whitelist)
    {
      var track := tables.tracks[k];
      assert tables.tracks[..k + 1][..k] == tables.tracks[..k];
      if track.blockchainId in inputTrackIds && track.segments.Some? {
        ghost var before := Elements(segmentCIDs);
        var segments := track.segments.value;
        for j := 0 to |segments|
          invariant Elements(segmentCIDs) == before + set c | c in segments[..j] && c != "" && c !in tables.whitelist
        {
          if segments[j] != "" && segments[j] !in tables.whitelist {
            segmentCIDs := AddToSet(segmentCIDs, segments[j]);
          }
          assert segments[..j + 1] == segments[..j] + [segments[j]];
        }
        assert segments[..|segments|] == segments;
      }
    }
    assert tables.tracks[..|tables.tracks|] == tables.tracks;
    if |inputTrackIds| > 0 {
      ghost var fromTracks := Elements(segmentCIDs);
      for k := 0 to |tables.files|
        invariant Elements(segmentCIDs) == fromTracks + CidsOfFiles(tables.files[..k], ids, tables.whitelist)
      {
        var file := tables.files[k];
        assert tables.files[..k + 1][..k] == tables.files[..k];
        if file.trackBlockchainId.Some? && file.trackBlockchainId.value in inputTrackIds && KeptFile(file, tables.whitelist) {
          segmentCIDs := AddToSet(segmentCIDs, file.multihash);
        }
      }
      assert tables.files[..|tables.files|] == tables.files;
    } else {
      assert ids == {};
      NoIdsNoFiles(tables.files, tables.whitelist);
    }
  }

  lemma {:induction false} NoIdsNoFiles(files: seq<File>, whitelist: set<Cid>)
    ensures CidsOfFiles(files, {}, whitelist) == {}
    decreases |files|
  {
    if files != [] {
      NoIdsNoFiles(files[..|files| - 1], whitelist);
    }
  }

  ghost function TracksOfUsers(tracks: seq<Track>, userIds: set<UserId>): set<TrackId> {
    if tracks == [] then {}
    else
      var last := tracks[|tracks| - 1];
      TracksOfUsers(tracks[..|tracks| - 1], userIds) + if last.ownerId in userIds then {last.blockchainId} else {}
  }

  lemma {:induction false} InTracksOfUsers(tracks: seq<Track>, userIds: set<UserId>, id: TrackId)
    ensures id in TracksOfUsers(tracks, userIds) <==>
              exists t :: t in tracks && t.ownerId in userIds && t.blockchainId == id
    decreases |tracks|
  {
    if tracks != [] {
      InTracksOfUsers(tracks[..|tracks| - 1], userIds, id);
      assert tracks == tracks[..|tracks| - 1] + [tracks[|tracks| - 1]];
    }
  }

  /** _getTracksFromUsers: the track ids of these users. */
  method GetTracksFromUsers(tables: Tables, userIds: seq<UserId>) returns (trackIds: seq<TrackId>)
    ensures Elements(trackIds) == TracksOfUsers(tables.tracks, Elements(userIds))
  {
    trackIds := [];
    for k := 0 to |tables.tracks|
      invariant Elements(trackIds) == TracksOfUsers(tables.tracks[..k], Elements(userIds))
    {
      assert tables.tracks[..k + 1][..k] == tables.tracks[..k];
      if tables.tracks[k].ownerId in userIds {
        trackIds := trackIds + [tables.tracks[k].blockchainId];
      }
    }
    assert tables.tracks[..|tables.tracks|] == tables.tracks;
  }

  // ---------- Redis ----------

  const PROCESS_TRACKS_BATCH_SIZE: nat := 200
  const REDIS_ADD_MAX_ITEMS_SIZE: nat := 100000

  function CidItems(cids: seq<Cid>): seq<Item> { seq(|cids|, i requires 0 <= i < |cids| => CidItem(cids[i])) }

  function TrackItems(ids: seq<TrackId>): seq<Item> { seq(|ids|, i requires 0 <= i < |ids| => TrackItem(ids[i])) }

  function UserItems(ids: seq<UserId>): seq<Item> { seq(|ids|, i requires 0 <= i < |ids| => UserItem(ids[i])) }

  ghost function CidItemSet(cids: set<Cid>): set<Item> { set c | c in cids :: CidItem(c) }

  /** The entries with these values. */
  ghost function ItemsOf(trackIds: seq<TrackId>, userIds: seq<UserId>, segments: seq<Cid>): set<Item> {
    Elements(TrackItems(trackIds)) + Elements(UserItems(userIds)) + Elements(CidItems(segments))
  }

  lemma CidItemsAreSet(cids: seq<Cid>)
    ensures Elements(CidItems(cids)) == CidItemSet(Elements(cids))
  {
    forall c | c in cids ensures CidItem(c) in CidItems(cids) {
      var i :| 0 <= i < |cids| && cids[i] == c;
      assert CidItems(cids)[i] == CidItem(c);
    }
  }

  lemma ItemMembers(trackIds: seq<TrackId>, userIds: seq<UserId>, segments: seq<Cid>, i: Item)
    ensures i in TrackItems(trackIds) <==> i.TrackItem? && i.trackId in trackIds
    ensures i in UserItems(userIds) <==> i.UserItem? && i.userId in userIds
    ensures i in CidItems(segments) <==> i.CidItem? && i.cid in segments
  {
    if i.TrackItem? && i.trackId in trackIds {
      var k :| 0 <= k < |trackIds| && trackIds[k] == i.trackId;
      assert TrackItems(trackIds)[k] == i;
    }
    if i.UserItem? && i.userId in userIds {
      var k :| 0 <= k < |userIds| && userIds[k] == i.userId;
      assert UserItems(userIds)[k] == i;
    }
    if i.CidItem? && i.cid in segments {
      var k :| 0 <= k < |segments| && segments[k] == i.cid;
      assert CidItems(segments)[k] == i;
    }
  }

  lemma NoTracksNoCids(tables: Tables)
    ensures CidsToBlacklist(tables, {}) == {}
  {
    forall c ensures c !in CidsToBlacklist(tables, {}) {
      CollectedIsImplied(tables, {}, c);
    }
  }

  lemma NextBatch(tables: Tables, all: seq<TrackId>, i: nat, end: nat)
    requires i <= end <= |all|
    ensures CidsToBlacklist(tables, Elements(all[..end])) ==
              CidsToBlacklist(tables, Elements(all[..i])) + CidsToBlacklist(tables, Elements(all[i..end]))
  {
    assert all[..end] == all[..i] + all[i..end];
    assert Elements(all[..end]) == Elements(all[..i]) + Elements(all[i..end]);
    CollectingDistributes(tables, Elements(all[..i]), Elements(all[i..end]));
  }

  method Dedupe<T(==)>(s: seq<T>) returns (r: seq<T>)
    ensures Elements(r) == Elements(s)
    ensures forall i, j | 0 <= i < j < |r| :: r[i] != r[j]
  {
    r := [];
    for k := 0 to |s|
      invariant Elements(r) == Elements(s[..k])
      invariant forall i, j | 0 <= i < j < |r| :: r[i] != r[j]
    {
      assert s[..k + 1] == s[..k] + [s[k]];
      r := AddToSet(r, s[k]);
    }
    assert s[..|s|] == s;
  }

  /** What the two fetches put together is what the entries imply. */
  lemma ImpliesAsCollected(
      tables: Tables, trackIds: seq<TrackId>, userIds: seq<UserId>, segments: seq<Cid>, fromUsers: seq<TrackId>, i: Item)
    requires Elements(fromUsers) == TracksOfUsers(tables.tracks, Elements(userIds))
    ensures var all := trackIds + fromUsers;
            Implies(tables, ItemsOf(trackIds, userIds, segments), i) <==>
              || i in TrackItems(all) || i in UserItems(userIds) || i in CidItems(segments)
              || (i.CidItem? && i.cid in CidsToBlacklist(tables, Elements(all)))
  {
    var all, items := trackIds + fromUsers, ItemsOf(trackIds, userIds, segments);
    ItemMembers(all, userIds, segments, i);
    ItemMembers(trackIds, userIds, segments, i);
    forall id ensures id in all <==> Names(tables, items, id) {
      NamedIsListed(tables, trackIds, userIds, segments, fromUsers, id);
    }
    if i.CidItem? {
      CollectedIsImplied(tables, Elements(all), i.cid);
    }
  }

  lemma NamedIsListed(
      tables: Tables, trackIds: seq<TrackId>, userIds: seq<UserId>, segments: seq<Cid>, fromUsers: seq<TrackId>,
      id: TrackId)
    requires Elements(fromUsers) == TracksOfUsers(tables.tracks, Elements(userIds))
    ensures id in trackIds + fromUsers <==> Names(tables, ItemsOf(trackIds, userIds, segments), id)
  {
    InTracksOfUsers(tables.tracks, Elements(userIds), id);
    assert id in fromUsers <==> id in Elements(fromUsers);
    ItemMembers(trackIds, userIds, segments, TrackItem(id));
    forall t | t in tables.tracks
      ensures UserItem(t.ownerId) in ItemsOf(trackIds, userIds, segments) <==> t.ownerId in Elements(userIds)
    {
      ItemMembers(trackIds, userIds, segments, UserItem(t.ownerId));
    }
  }

  /** The values of one call of add or remove, with their type. */
  datatype Values = Users(userIds: seq<UserId>) | Tracks(trackIds: seq<TrackId>) | Cids(cids: seq<Cid>)
  {
    function Items(): set<Item> {
      match this
      case Users(ids) => Elements(TrackItems([])) + Elements(UserItems(ids)) + Elements(CidItems([]))
      case Tracks(ids) => Elements(TrackItems(ids)) + Elements(UserItems([])) + Elements(CidItems([]))
      case Cids(cids) => Elements(TrackItems([])) + Elements(UserItems([])) + Elements(CidItems(cids))
    }
  }

  lemma OneMoreItem(trackIds: seq<TrackId>, userIds: seq<UserId>, segments: seq<Cid>, entry: Item)
    ensures entry.TrackItem? ==>
              ItemsOf(trackIds + [entry.trackId], userIds, segments) == ItemsOf(trackIds, userIds, segments) + {entry}
    ensures entry.UserItem? ==>
              ItemsOf(trackIds, userIds + [entry.userId], segments) == ItemsOf(trackIds, userIds, segments) + {entry}
    ensures entry.CidItem? ==>
              ItemsOf(trackIds, userIds, segments + [entry.cid]) == ItemsOf(trackIds, userIds, segments) + {entry}
  {
    assert entry.TrackItem? ==> TrackItems(trackIds + [entry.trackId]) == TrackItems(trackIds) + [entry];
    assert entry.UserItem? ==> UserItems(userIds + [entry.userId]) == UserItems(userIds) + [entry];
    assert entry.CidItem? ==> CidItems(segments + [entry.cid]) == CidItems(segments) + [entry];
  }

  lemma NoFewerMembers(calls: nat, more: nat, size: nat)
    requires calls <= more
    ensures calls * size <= more * size
  {
  }

  class BlacklistManager {
    /** The ContentBlacklist table. */
    var entries: set<Item>
    /** The three blacklist sets. */
    var redis: set<Item>

    /**
     * sadd in chunks. failsAt is the index of the chunk whose sadd throws, if one does: the error is logged and
     * swallowed, and the members from there on are not added.
     */
    method AddToRedisChunkHelper(data: seq<Item>, redisAddMaxItemsSize: nat, failsAt: Option<nat>)
      requires redisAddMaxItemsSize > 0
      modifies this`redis
      ensures failsAt.None? ==> redis == old(redis) + Elements(data)
      ensures failsAt.Some? ==>
                redis == old(redis) + Elements(data[..Min(|data|, failsAt.value * redisAddMaxItemsSize)])
    {
      var i, calls := 0, 0;
      while i < |data|
        invariant i == calls * redisAddMaxItemsSize && (failsAt.Some? ==> calls <= failsAt.value)
        invariant redis == old(redis) + Elements(data[..Min(|data|, i)])
        decreases |data| - i
      {
        if failsAt == Some(calls) {
          return;
        }
        var end := Min(|data|, i + redisAddMaxItemsSize);
        assert data[..end] == data[..i] + data[i..end];
        redis := redis + Elements(data[i..end]);
        i, calls := i + redisAddMaxItemsSize, calls + 1;
      }
      assert data[..|data|] == data;
      if failsAt.Some? {
        NoFewerMembers(calls, failsAt.value, redisAddMaxItemsSize);
      }
    }

    method AddToRedis(data: seq<Item>)
      modifies this`redis
      ensures redis == old(redis) + Elements(data)
    {
      if data == [] {
        return;
      }
      AddToRedisChunkHelper(data, REDIS_ADD_MAX_ITEMS_SIZE, None);
    }

    method RemoveFromRedis(data: seq<Item>)
      modifies this`redis
      ensures redis == old(redis) - Elements(data)
    {
      if data == [] {
        return;
      }
      redis := redis - Elements(data);
    }

    /** addAggregateCIDsToRedis: the CIDs of all the tracks, whatever the size of a batch. */
    method AddAggregateCIDsToRedis(tables: Tables, all: seq<TrackId>)
      modifies this`redis
      ensures redis == old(redis) + CidItemSet(CidsToBlacklist(tables, Elements(all)))
    {
      var i := 0;
      assert all[..0] == [] && all[..|all|] == all;
      NoTracksNoCids(tables);
      assert CidItemSet({}) == {} && Elements<TrackId>([]) == {};
      while i < |all|
        invariant var done := if i < |all| then all[..i] else all;
                  redis == old(redis) + CidItemSet(CidsToBlacklist(tables, Elements(done)))
        decreases |all| - i
      {
        var end := if i + PROCESS_TRACKS_BATCH_SIZE < |all| then i + PROCESS_TRACKS_BATCH_SIZE else |all|;
        var tracksSlice := all[i..end];
        NextBatch(tables, all, i, end);
        var cids := GetCIDsToBlacklist(tables, tracksSlice);
        CidItemsAreSet(cids);
        AddToRedis(CidItems(cids));
        i := i + PROCESS_TRACKS_BATCH_SIZE;
      }
    }

    /** _fetchCIDsAndAddToRedis: Redis gains exactly what the given entries imply. */
    method FetchCIDsAndAddToRedis(tables: Tables, trackIds: seq<TrackId>, userIds: seq<UserId>, segments: seq<Cid>)
      modifies this`redis
      ensures forall i :: i in redis <==>
                            i in old(redis) || Implies(tables, ItemsOf(trackIds, userIds, segments), i)
    {
      var tracksFromUsers := GetTracksFromUsers(tables, userIds);
      var all := trackIds + tracksFromUsers;
      var allSet := Dedupe(all);
      AddToRedis(TrackItems(all));
      AddToRedis(UserItems(userIds));
      AddToRedis(CidItems(segments));
      AddAggregateCIDsToRedis(tables, allSet);
      forall i ensures i in redis <==> i in old(redis) || Implies(tables, ItemsOf(trackIds, userIds, segments), i) {
        ImpliesAsCollected(tables, trackIds, userIds, segments, tracksFromUsers, i);
      }
    }

    /** _fetchCIDsAndRemoveFromRedis: Redis loses exactly what the given entries imply. */
    method FetchCIDsAndRemoveFromRedis(tables: Tables, trackIds: seq<TrackId>, userIds: seq<UserId>, segments: seq<Cid>)
      modifies this`redis
      ensures forall i :: i in redis <==>
                            i in old(redis) && !Implies(tables, ItemsOf(trackIds, userIds, segments), i)
    {
      var tracksFromUsers := GetTracksFromUsers(tables, userIds);
      var all := trackIds + tracksFromUsers;
      var allSet := Dedupe(all);
      var segmentsFromTrackIds := GetCIDsToBlacklist(tables, allSet);
      var toRemove := Dedupe(segmentsFromTrackIds + segments);
      RemoveFromRedis(TrackItems(all));
      RemoveFromRedis(UserItems(userIds));
      RemoveFromRedis(CidItems(toRemove));
      forall i ensures i in redis <==> i in old(redis) && !Implies(tables, ItemsOf(trackIds, userIds, segments), i) {
        ItemMembers(trackIds, userIds, segments, i);
        ItemMembers(trackIds, userIds, toRemove, i);
        assert i.CidItem? ==> (i.cid in toRemove <==> i.cid in Elements(toRemove));
        ImpliesAsCollected(tables, trackIds, userIds, segments, tracksFromUsers, i);
      }
    }

    method Add(tables: Tables, values: Values)
      modifies this
      ensures entries == old(entries) + values.Items()
      ensures forall i :: i in redis <==> i in old(redis) || Implies(tables, values.Items(), i)
    {
      entries := entries + values.Items();
      match values
      case Users(ids) => FetchCIDsAndAddToRedis(tables, [], ids, []);
      case Tracks(ids) => FetchCIDsAndAddToRedis(tables, ids, [], []);
      case Cids(cids) => FetchCIDsAndAddToRedis(tables, [], [], cids);
    }

    method Remove(tables: Tables, values: Values)
      modifies this
      ensures entries == old(entries) - values.Items()
      ensures forall i :: i in redis <==> i in old(redis) && !Implies(tables, values.Items(), i)
    {
      entries := entries - values.Items();
      match values
      case Users(ids) => FetchCIDsAndRemoveFromRedis(tables, [], ids, []);
      case Tracks(ids) => FetchCIDsAndRemoveFromRedis(tables, ids, [], []);
      case Cids(cids) => FetchCIDsAndRemoveFromRedis(tables, [], [], cids);
    }

    method GetDataToBlacklist() returns (trackIds: seq<TrackId>, userIds: seq<UserId>, segments: seq<Cid>)
      ensures ItemsOf(trackIds, userIds, segments) == entries
    {
      trackIds, userIds, segments := [], [], [];
      var left := entries;
      while left != {}
        invariant left !! ItemsOf(trackIds, userIds, segments) && left + ItemsOf(trackIds, userIds, segments) == entries
        decreases left
      {
        var entry :| entry in left;
        OneMoreItem(trackIds, userIds, segments, entry);
        match entry {
          case TrackItem(id) => trackIds := trackIds + [id];
          case UserItem(id) => userIds := userIds + [id];
          case CidItem(c) => segments := segments + [c];
        }
        left := left - {entry};
      }
    }

    /** What init does at start-up and then every two hours: nothing the table implies is missing afterwards. */
    method Refresh(tables: Tables)
      modifies this`redis
      ensures forall i :: i in redis <==> i in old(redis) || Implies(tables, entries, i)
    {
      var trackIds, userIds, segments := GetDataToBlacklist();
      FetchCIDsAndAddToRedis(tables, trackIds, userIds, segments);
    }
  }

  // ---------- Calls running over each other ----------

  /** A call that has touched the table and has yet to send these members to Redis. */
  datatype Op =
    | Adding(left: iset<Item>)
    | Removing(left: iset<Item>)
    | Refreshing(left: iset<Item>, removedAfter: iset<Item>)

  type OpId = nat

  datatype Action =
    | AddToDb(i: OpId, values: set<Item>)
    | RemoveFromDb(i: OpId, values: set<Item>)
    | ReadTable(i: OpId)
    | Sadd(i: OpId, part: iset<Item>)
    | Srem(i: OpId, part: iset<Item>)
    | Finish(i: OpId)

  ghost function AfterSadd(op: Op, part: iset<Item>): Op {
    match op
    case Adding(left) => Adding(left - part)
    case Refreshing(left, removedAfter) => Refreshing(left - part, removedAfter)
    case Removing(left) => op
  }

  ghost function AfterSrem(op: Op, part: iset<Item>): Op {
    match op
    case Refreshing(left, removedAfter) => Refreshing(left, removedAfter + part)
    case Adding(left) => op
    case Removing(left) => op
  }

  /** removed holds what removals have taken out of Redis since the last finished refresh read the table. */
  datatype State = State(entries: set<Item>, redis: iset<Item>, ops: map<OpId, Op>, removed: iset<Item>)
  {
    ghost predicate Enabled(a: Action) {
      match a
      case AddToDb(i, values) => i !in ops
      case RemoveFromDb(i, values) => i !in ops
      case ReadTable(i) => i !in ops
      case Sadd(i, part) => i in ops && !ops[i].Removing? && part <= ops[i].left
      case Srem(i, part) => i in ops && ops[i].Removing? && part <= ops[i].left
      case Finish(i) => i in ops && ops[i].left == iset{}
    }

    ghost function Step(tables: Tables, a: Action): State
      requires Enabled(a)
    {
      match a
      case AddToDb(i, values) =>
        this.(entries := entries + values, ops := ops[i := Adding(Implied(tables, values))])
      case RemoveFromDb(i, values) =>
        this.(entries := entries - values, ops := ops[i := Removing(Implied(tables, values))])
      case ReadTable(i) => this.(ops := ops[i := Refreshing(Implied(tables, entries), iset{})])
      case Sadd(i, part) =>
        this.(redis := redis + part, ops := ops[i := AfterSadd(ops[i], part)])
      case Srem(i, part) =>
        var others := map j | j in ops :: AfterSrem(ops[j], part);
        State(entries, redis - part, others[i := Removing(ops[i].left - part)], removed + part)
      case Finish(i) =>
        this.(ops := ops - {i}, removed := if ops[i].Refreshing? then ops[i].removedAfter else removed)
    }

    ghost predicate Runs(tables: Tables, actions: seq<Action>)
      decreases actions
    {
      actions == [] || (Enabled(actions[0]) && Step(tables, actions[0]).Runs(tables, actions[1..]))
    }

    ghost function Run(tables: Tables, actions: seq<Action>): State
      requires Runs(tables, actions)
      decreases actions
    {
      if actions == [] then this else Step(tables, actions[0]).Run(tables, actions[1..])
    }

    /** An add under way will still send it. */
    ghost predicate Coming(x: Item) { exists i :: i in ops && ops[i].Adding? && x in ops[i].left }

    ghost predicate Missing(tables: Tables, x: Item) { x in Implied(tables, entries) && x !in redis }
  }

  /** What is missing from Redis is on its way or was taken out by a removal; a refresh will bring the rest. */
  ghost predicate Invariant(tables: Tables, s: State) {
    forall x | s.Missing(tables, x) && !s.Coming(x) ::
      && x in s.removed
      && forall i | i in s.ops && s.ops[i].Refreshing? :: x in s.ops[i].left || x in s.ops[i].removedAfter
  }

  lemma StepKeepsInvariant(tables: Tables, s: State, a: Action)
    requires Invariant(tables, s) && s.Enabled(a)
    ensures Invariant(tables, s.Step(tables, a))
  {
    var next := s.Step(tables, a);
    if a.AddToDb? {
      ImpliedDistributes(tables, s.entries, a.values);
    } else if a.RemoveFromDb? {
      ImpliedGrows(tables, next.entries, s.entries);
    }
    forall x | next.Missing(tables, x) && !next.Coming(x)
      ensures x in next.removed
      ensures forall i | i in next.ops && next.ops[i].Refreshing? :: x in next.ops[i].left || x in next.ops[i].removedAfter
    {
      StillAccountedFor(tables, s, a, x);
    }
  }

  lemma StillAccountedFor(tables: Tables, s: State, a: Action, x: Item)
    requires Invariant(tables, s) && s.Enabled(a)
    requires a.AddToDb? ==> Implied(tables, s.entries + a.values) == Implied(tables, s.entries) + Implied(tables, a.values)
    requires a.RemoveFromDb? ==> Implied(tables, s.entries - a.values) <= Implied(tables, s.entries)
    requires s.Step(tables, a).Missing(tables, x) && !s.Step(tables, a).Coming(x)
    ensures var next := s.Step(tables, a);
            && x in next.removed
            && forall i | i in next.ops && next.ops[i].Refreshing? :: x in next.ops[i].left || x in next.ops[i].removedAfter
  {
    var next := s.Step(tables, a);
    if s.Coming(x) {
      ComingPersists(tables, s, a, x);
    }
    match a
    case AddToDb(i, values) =>
      assert i in next.ops && next.ops[i] == Adding(Implied(tables, values));
      assert s.Missing(tables, x);
    case Srem(i, part) =>
      if x !in part {
        assert s.Missing(tables, x);
      }
    case Sadd(i, part) => assert s.Missing(tables, x);
    case RemoveFromDb(i, values) => assert s.Missing(tables, x);
    case ReadTable(i) => assert s.Missing(tables, x);
    case Finish(i) => assert s.Missing(tables, x);
  }

  lemma ComingPersists(tables: Tables, s: State, a: Action, x: Item)
    requires s.Enabled(a) && s.Coming(x) && (a.Sadd? ==> x !in a.part)
    ensures s.Step(tables, a).Coming(x)
  {
    var i :| i in s.ops && s.ops[i].Adding? && x in s.ops[i].left;
    var next := s.Step(tables, a);
    assert i in next.ops && next.ops[i].Adding? && x in next.ops[i].left;
  }

  lemma {:induction false} RunKeepsInvariant(tables: Tables, s: State, actions: seq<Action>)
    requires Invariant(tables, s) && s.Runs(tables, actions)
    ensures Invariant(tables, s.Run(tables, actions))
    decreases actions
  {
    if actions != [] {
      StepKeepsInvariant(tables, s, actions[0]);
      RunKeepsInvariant(tables, s.Step(tables, actions[0]), actions[1..]);
    }
  }

  /**
   * From any start, with everything missing at first counted as removed: in every interleaving, what the
   * table implies but Redis lacks was taken out by a removal, or an add under way will bring it.
   */
  lemma MissingWasRemoved(tables: Tables, entries: set<Item>, redis: iset<Item>, actions: seq<Action>, x: Item)
    requires State(entries, redis, map[], Implied(tables, entries) - redis).Runs(tables, actions)
    ensures var s := State(entries, redis, map[], Implied(tables, entries) - redis).Run(tables, actions);
            s.Missing(tables, x) ==> x in s.removed || s.Coming(x)
  {
    RunKeepsInvariant(tables, State(entries, redis, map[], Implied(tables, entries) - redis), actions);
  }

  /** A refresh during which no removal reached Redis leaves nothing missing but what is on its way. */
  lemma RefreshLeavesNothingMissing(tables: Tables, s: State, i: OpId, x: Item)
    requires Invariant(tables, s) && s.Enabled(Finish(i)) && s.ops[i].Refreshing?
    ensures s.ops[i].removedAfter == iset{} && s.Step(tables, Finish(i)).Missing(tables, x) ==>
              s.Step(tables, Finish(i)).Coming(x)
    ensures s.Step(tables, Finish(i)).removed == s.ops[i].removedAfter
  {
    var next := s.Step(tables, Finish(i));
    if s.Coming(x) {
      ComingPersists(tables, s, Finish(i), x);
    }
    assert next.Missing(tables, x) ==> s.Missing(tables, x);
  }

  /**
   * Removing values from a blacklist with nothing missing leaves nothing missing exactly when what is left
   * in the table implies nothing that the removed values imply too.
   */
  lemma RemovalIsCleanExactly(tables: Tables, entries: set<Item>, values: set<Item>, redis: iset<Item>)
    requires Implied(tables, entries) <= redis
    ensures Implied(tables, entries - values) <= redis - Implied(tables, values) <==>
              Implied(tables, entries - values) !! Implied(tables, values)
  {
    ImpliedGrows(tables, entries - values, entries);
  }

  /** Two tracks sharing a segment: taking one off the blacklist takes the other's segment out of Redis. */
  lemma RemovalCanUnblockAnother(a: TrackId, b: TrackId, owner: UserId, c: Cid)
    requires a != b && c != ""
    ensures var tables := Tables([Track(a, owner, Some([c])), Track(b, owner, Some([c]))], [], {});
            var both := {TrackItem(a), TrackItem(b)};
            && CidItem(c) in Implied(tables, both - {TrackItem(a)})
            && CidItem(c) !in Implied(tables, both) - Implied(tables, {TrackItem(a)})
  {
    var tables := Tables([Track(a, owner, Some([c])), Track(b, owner, Some([c]))], [], {});
    assert tables.tracks[0].segments.value[0] == c && tables.tracks[1].segments.value[0] == c;
    assert TrackImplies(tables, a, c) && TrackImplies(tables, b, c);
    assert Names(tables, {TrackItem(a)}, a) && Names(tables, {TrackItem(a), TrackItem(b)} - {TrackItem(a)}, b);
  }
}

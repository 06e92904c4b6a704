// isServable and its caches: creator-node/src/blacklistManager.js.
module Servable {
  import opened Collections
  import opened Wrappers
  import Tables = Blacklist

  type TrackId = int
  type Cid = Tables.Cid
  type Track = Tables.Track

  /** What a caller may pass for trackId: nothing, a number that is no integer (or NaN), or an integer. */
  datatype TrackArg = NoTrackId | NotAnInteger | Integer(value: int)

  /** findAll(...)[0] */
  function FirstTrack(tracks: seq<Track>, id: TrackId): Option<Track> {
    if tracks == [] then None
    else if tracks[0].blockchainId == id then Some(tracks[0])
    else FirstTrack(tracks[1..], id)
  }

  function SegmentsOf(t: Track): set<Cid> {
    match t.segments
    case Some(s) => Elements(s)
    case None => {}
  }

  /** The blacklist sets, which isServable only reads. */
  datatype Blacklist = Blacklist(trackIds: set<TrackId>, cids: set<Cid>)
  {
    /** if (trackId && Number.isInteger(trackId)) */
    predicate HasTrack(trackId: TrackArg) {
      trackId.Integer? && trackId.value != 0 && trackId.value in trackIds
    }
  }

  predicate UsableTrackId(trackId: TrackArg) { trackId.Integer? && trackId.value > 0 }

  /** The answer without any cache. */
  function DirectAnswer(bl: Blacklist, tracks: seq<Track>, cid: Cid, trackId: TrackArg): bool {
    !bl.HasTrack(trackId)
    && (cid in bl.cids ==>
          && UsableTrackId(trackId)
          && var t := FirstTrack(tracks, trackId.value);
             t.Some? && cid in SegmentsOf(t.value))
  }

  // ---------- The caches ----------

  /** The map of a track's CIDs, whose entries expire, and the set of track ids marked invalid, which do not. */
  datatype Caches = Caches(cidsOfTrack: map<TrackId, set<Cid>>, invalid: set<TrackId>)
  {
    function CidsOf(id: TrackId): set<Cid> { if id in cidsOfTrack then cidsOfTrack[id] else {} }
  }

  /** The map agrees with the table wherever it has an entry. */
  ghost predicate MapIsTrue(caches: Caches, tracks: seq<Track>) {
    forall id | id in caches.cidsOfTrack && caches.cidsOfTrack[id] != {} ::
      && FirstTrack(tracks, id).Some?
      && caches.cidsOfTrack[id] == SegmentsOf(FirstTrack(tracks, id).value)
  }

  /** The CID is blacklisted, and the track passed with it may still allow it. */
  predicate LooksAtTrack(bl: Blacklist, cid: Cid, trackId: TrackArg) {
    !bl.HasTrack(trackId) && cid in bl.cids && UsableTrackId(trackId)
  }

  /** The call gets as far as the invalid set and finds the track there. */
  predicate Marked(bl: Blacklist, caches: Caches, cid: Cid, trackId: TrackArg) {
    && LooksAtTrack(bl, cid, trackId)
    && caches.CidsOf(trackId.value) == {} && trackId.value in caches.invalid
  }

  /** The call looks for a track of which the map says nothing and the table has no row. */
  predicate Misses(bl: Blacklist, tracks: seq<Track>, caches: Caches, cid: Cid, trackId: TrackArg) {
    && LooksAtTrack(bl, cid, trackId)
    && caches.CidsOf(trackId.value) == {} && FirstTrack(tracks, trackId.value).None?
  }

  /** The reads of Redis and of the database that a call may make, in the order in which it makes them. */
  datatype Read = TrackBlacklist | CidBlacklist | CidsOfTrackMap | InvalidSet | TracksTable

  /** The call gets as far as this read. */
  predicate Asks(bl: Blacklist, caches: Caches, cid: Cid, trackId: TrackArg, read: Read) {
    match read
    case TrackBlacklist => trackId.Integer? && trackId.value != 0
    case CidBlacklist => !bl.HasTrack(trackId)
    case CidsOfTrackMap => LooksAtTrack(bl, cid, trackId)
    case InvalidSet => LooksAtTrack(bl, cid, trackId) && caches.CidsOf(trackId.value) == {}
    case TracksTable =>
      LooksAtTrack(bl, cid, trackId) && caches.CidsOf(trackId.value) == {} && trackId.value !in caches.invalid
  }

  /** The read that fails, if one does, is one that the call makes. */
  predicate Throws(bl: Blacklist, caches: Caches, cid: Cid, trackId: TrackArg, fails: Option<Read>) {
    fails.Some? && Asks(bl, caches, cid, trackId, fails.value)
  }

  /** One call: its answer, and what it may have done to the caches. */
  ghost predicate Answered(
    bl: Blacklist, tracks: seq<Track>, before: Caches, after: Caches, cid: Cid, trackId: TrackArg, fails: Option<Read>,
    answer: bool)
  {
    && (answer <==> DirectAnswer(bl, tracks, cid, trackId) && !Marked(bl, before, cid, trackId)
                    && !Throws(bl, before, cid, trackId, fails))
    && (Throws(bl, before, cid, trackId, fails) ==> after == before)
    && MapIsTrue(after, tracks)
    && before.invalid <= after.invalid
    && (Misses(bl, tracks, before, cid, trackId) && !Throws(bl, before, cid, trackId, fails) ==>
          trackId.value in after.invalid)
    && (forall id | id in before.invalid && before.CidsOf(id) == {} :: after.CidsOf(id) == {})
    && (forall id | id in after.invalid && id !in before.invalid :: FirstTrack(tracks, id).None?)
  }

  class BlacklistManager {
    var blacklist: Blacklist
    var tracks: seq<Track>
    var caches: Caches

    constructor (bl: Blacklist, rows: seq<Track>)
      ensures blacklist == bl && tracks == rows && caches == Caches(map[], {})
    {
      blacklist, tracks, caches := bl, rows, Caches(map[], {});
    }

    /** The map entry of a track is a Redis set: adding to it keeps what is there. */
    method AddCidsOfTrack(id: TrackId, cids: seq<Cid>)
      modifies this`caches
      ensures caches.invalid == old(caches).invalid
      ensures caches.CidsOf(id) == old(caches).CidsOf(id) + Elements(cids)
      ensures forall j | j != id :: j in caches.cidsOfTrack <==> j in old(caches).cidsOfTrack
      ensures forall j | j != id && j in caches.cidsOfTrack :: caches.cidsOfTrack[j] == old(caches).cidsOfTrack[j]
    {
      caches := Caches(caches.cidsOfTrack[id := caches.CidsOf(id) + Elements(cids)], caches.invalid);
    }

    /**
     * isServable. The answer is the direct one, except that a track found in the invalid set is not served,
     * whatever the table says by now, and that nothing is served when a read throws.
     */
    method IsServable(cid: Cid, trackId: TrackArg, fails: Option<Read>) returns (answer: bool)
      requires MapIsTrue(caches, tracks)
      modifies this`caches
      ensures Answered(blacklist, tracks, old(caches), caches, cid, trackId, fails, answer)
    {
      if fails == Some(TrackBlacklist) && trackId.Integer? && trackId.value != 0 {
        return false;
      }
      if blacklist.HasTrack(trackId) {
        return false;
      }
      if fails == Some(CidBlacklist) {
        return false;
      }
      if cid !in blacklist.cids {
        return true;
      }
      if !UsableTrackId(trackId) {
        return false;
      }
      if fails == Some(CidsOfTrackMap) {
        return false;
      }
      var id := trackId.value;
      var cidsOfInputTrackId := caches.CidsOf(id);
      if cidsOfInputTrackId == {} {
        if fails == Some(InvalidSet) {
          return false;
        }
        if id in caches.invalid {
          return false;
        }
        if fails == Some(TracksTable) {
          return false;
        }
        var track := FirstTrack(tracks, id);
        if track.None? {
          caches := Caches(caches.cidsOfTrack, caches.invalid + {id});
          return false;
        }
        if track.value.segments.Some? {
          var segments := track.value.segments.value;
          cidsOfInputTrackId := Elements(segments);
          AddCidsOfTrack(id, segments);
        }
      }
      answer := cid in cidsOfInputTrackId;
    }

    /** The map entry of a track expires, or Redis evicts it. */
    method Evict(id: TrackId)
      modifies this`caches
      ensures caches == old(caches).(cidsOfTrack := old(caches).cidsOfTrack - {id})
    {
      caches := caches.(cidsOfTrack := caches.cidsOfTrack - {id});
    }

    /** A track is uploaded; the rows that were there stay before it. */
    method Upload(t: Track)
      modifies this`tracks
      ensures tracks == old(tracks) + [t]
    {
      tracks := tracks + [t];
    }
  }

  // ---------- Runs ----------

  datatype State = State(blacklist: Blacklist, tracks: seq<Track>, caches: Caches)

  datatype Event =
    | Called(cid: Cid, trackId: TrackArg, fails: Option<Read>, answer: bool)
    | Evicted(id: TrackId)
    | Uploaded(track: Track)
    | BlacklistChanged(blacklist: Blacklist)

  ghost predicate Next(s: State, e: Event, next: State) {
    match e
    case Called(cid, trackId, fails, answer) =>
      && next.blacklist == s.blacklist && next.tracks == s.tracks
      && (MapIsTrue(s.caches, s.tracks) ==>
            Answered(s.blacklist, s.tracks, s.caches, next.caches, cid, trackId, fails, answer))
    case Evicted(id) => next == s.(caches := s.caches.(cidsOfTrack := s.caches.cidsOfTrack - {id}))
    case Uploaded(t) => next == s.(tracks := s.tracks + [t])
    case BlacklistChanged(bl) => next == s.(blacklist := bl)
  }

  /** A run from empty caches; states[k] is the state before events[k]. */
  ghost predicate IsRun(states: seq<State>, events: seq<Event>) {
    && |states| == |events| + 1
    && states[0].caches == Caches(map[], {})
    && forall k | 0 <= k < |events| :: Next(states[k], events[k], states[k + 1])
  }

  lemma {:induction false} FirstTrackAppend(tracks: seq<Track>, t: Track, id: TrackId)
    ensures FirstTrack(tracks + [t], id) ==
              if FirstTrack(tracks, id).Some? then FirstTrack(tracks, id)
              else if t.blockchainId == id then Some(t) else None
  {
    if tracks == [] {
      assert ([] + [t])[1..] == [];
    } else {
      assert (tracks + [t])[1..] == tracks[1..] + [t];
      FirstTrackAppend(tracks[1..], t, id);
    }
  }

  /** A track with this id was uploaded before the k-th event and after its id had been marked invalid. */
  ghost predicate UploadedAfterMarked(states: seq<State>, events: seq<Event>, k: nat, id: TrackId)
    requires k <= |events| && |states| == |events| + 1
  {
    exists j :: 0 <= j < k && UploadedWhileMarked(states[j], events[j], id)
  }

  ghost predicate UploadedWhileMarked(s: State, e: Event, id: TrackId) {
    e.Uploaded? && e.track.blockchainId == id && id in s.caches.invalid
  }

  /** Before the k-th event: the map is right, and a marked id has no track or got one later. */
  ghost predicate CachesAreRight(states: seq<State>, events: seq<Event>, k: nat)
    requires k <= |events| && |states| == |events| + 1
  {
    && MapIsTrue(states[k].caches, states[k].tracks)
    && forall id | id in states[k].caches.invalid ::
         FirstTrack(states[k].tracks, id).None? || UploadedAfterMarked(states, events, k, id)
  }

  lemma {:induction false} CachesStayRight(states: seq<State>, events: seq<Event>, k: nat)
    requires IsRun(states, events) && k <= |events|
    ensures CachesAreRight(states, events, k)
  {
    if k > 0 {
      CachesStayRight(states, events, k - 1);
      var s, e, next := states[k - 1], events[k - 1], states[k];
      assert Next(s, e, next);
      if e.Uploaded? {
        forall id ensures FirstTrack(next.tracks, id) ==
                            if FirstTrack(s.tracks, id).Some? then FirstTrack(s.tracks, id)
                            else if e.track.blockchainId == id then Some(e.track) else None
        {
          FirstTrackAppend(s.tracks, e.track, id);
        }
      }
      forall id | id in next.caches.invalid
        ensures FirstTrack(next.tracks, id).None? || UploadedAfterMarked(states, events, k, id)
      {
        if id in s.caches.invalid && UploadedAfterMarked(states, events, k - 1, id) {
          var j :| 0 <= j < k - 1 && UploadedWhileMarked(states[j], events[j], id);
        } else if id in s.caches.invalid && e.Uploaded? && e.track.blockchainId == id {
          assert UploadedWhileMarked(states[k - 1], events[k - 1], id);
        }
      }
    }
  }

  /**
   * Over any run of calls, failing reads, evictions, uploads and changes to the blacklist, a true is always
   * right, and an answer is wrong exactly when a servable CID's call throws or finds its track among the ids
   * marked invalid: then it was uploaded after its id had been marked.
   */
  lemma EveryTrueIsRight(states: seq<State>, events: seq<Event>, k: nat)
    requires IsRun(states, events) && k < |events| && events[k].Called?
    ensures var s, e := states[k], events[k];
            var direct := DirectAnswer(s.blacklist, s.tracks, e.cid, e.trackId);
            var marked := Marked(s.blacklist, s.caches, e.cid, e.trackId);
            && (e.answer ==> direct)
            && (e.answer != direct <==> direct && (marked || Throws(s.blacklist, s.caches, e.cid, e.trackId, e.fails)))
            && (direct && marked ==> UploadedAfterMarked(states, events, k, e.trackId.value))
  {
    CachesStayRight(states, events, k);
    assert Next(states[k], events[k], states[k + 1]);
  }

  /** The first row with this id, and only that one, says which CIDs the track has. */
  ghost predicate FirstRowLists(tracks: seq<Track>, id: TrackId, cid: Cid) {
    exists i :: 0 <= i < |tracks| && IsFirstRow(tracks, id, i) && ListsCid(tracks[i], cid)
  }

  ghost predicate IsFirstRow(tracks: seq<Track>, id: TrackId, i: nat)
    requires i < |tracks|
  {
    tracks[i].blockchainId == id && forall j | 0 <= j < i :: tracks[j].blockchainId != id
  }

  ghost predicate ListsCid(t: Track, cid: Cid) {
    t.segments.Some? && exists k :: 0 <= k < |t.segments.value| && t.segments.value[k] == cid
  }

  lemma {:induction false} FirstTrackIsFirstRow(tracks: seq<Track>, id: TrackId)
    ensures FirstTrack(tracks, id).None? ==> forall j | 0 <= j < |tracks| :: tracks[j].blockchainId != id
    ensures FirstTrack(tracks, id).Some? ==>
              exists i :: 0 <= i < |tracks| && IsFirstRow(tracks, id, i) && FirstTrack(tracks, id) == Some(tracks[i])
  {
    if tracks != [] && tracks[0].blockchainId != id {
      FirstTrackIsFirstRow(tracks[1..], id);
      if FirstTrack(tracks, id).None? {
        forall j | 0 <= j < |tracks| ensures tracks[j].blockchainId != id {
          assert j > 0 ==> tracks[j] == tracks[1..][j - 1];
        }
      } else {
        var i :| 0 <= i < |tracks[1..]| && IsFirstRow(tracks[1..], id, i) && FirstTrack(tracks[1..], id) == Some(tracks[1..][i]);
        forall j | 0 <= j < i + 1 ensures tracks[j].blockchainId != id {
          assert j > 0 ==> tracks[j] == tracks[1..][j - 1];
        }
        assert IsFirstRow(tracks, id, i + 1) && tracks[i + 1] == tracks[1..][i];
      }
    } else if tracks != [] {
      assert IsFirstRow(tracks, id, 0);
    }
  }

  lemma DirectAnswerExactly(bl: Blacklist, tracks: seq<Track>, cid: Cid, trackId: TrackArg)
    ensures DirectAnswer(bl, tracks, cid, trackId) <==>
              && !(trackId.Integer? && trackId.value != 0 && trackId.value in bl.trackIds)
              && (cid in bl.cids ==> trackId.Integer? && trackId.value > 0 && FirstRowLists(tracks, trackId.value, cid))
  {
    if UsableTrackId(trackId) {
      FirstTrackIsFirstRow(tracks, trackId.value);
      assert forall i, j | 0 <= i < |tracks| && 0 <= j < |tracks| ::
               IsFirstRow(tracks, trackId.value, i) && IsFirstRow(tracks, trackId.value, j) ==> i == j;
    }
  }

  /**
   * What the answers of every run mean. A blacklisted track is never served. A CID that is not blacklisted is, if
   * its track is not either and nothing throws. A blacklisted CID is served only with the id of a track that is not
   * blacklisted and whose first row lists it; and then it is, unless a read throws or the id is marked.
   */
  lemma WhatAnswersMean(states: seq<State>, events: seq<Event>, k: nat)
    requires IsRun(states, events) && k < |events| && events[k].Called?
    ensures var bl, tracks, e := states[k].blacklist, states[k].tracks, events[k];
            var listed := e.trackId.Integer? && e.trackId.value != 0 && e.trackId.value in bl.trackIds;
            var allowed := e.trackId.Integer? && e.trackId.value > 0 && !listed && FirstRowLists(tracks, e.trackId.value, e.cid);
            && (listed ==> !e.answer)
            && (!listed && e.cid !in bl.cids && e.fails.None? ==> e.answer)
            && (e.cid in bl.cids && e.answer ==> allowed)
            && (allowed && e.fails.None? && e.trackId.value !in states[k].caches.invalid ==> e.answer)
  {
    EveryTrueIsRight(states, events, k);
    DirectAnswerExactly(states[k].blacklist, states[k].tracks, events[k].cid, events[k].trackId);
  }

  /**
   * A failing read makes the answer false exactly when the call gets to it: that of the track's blacklist with any
   * nonzero integer, that of the CIDs unless the track is blacklisted, the other three only for a blacklisted CID
   * with a positive id, the last two while the map says nothing of it, and the table unless the id is marked.
   */
  lemma WhatFailuresMean(states: seq<State>, events: seq<Event>, k: nat)
    requires IsRun(states, events) && k < |events| && events[k].Called? && events[k].fails.Some?
    ensures var bl, caches, e := states[k].blacklist, states[k].caches, events[k];
            var listed := e.trackId.Integer? && e.trackId.value != 0 && e.trackId.value in bl.trackIds;
            var looks := !listed && e.cid in bl.cids && e.trackId.Integer? && e.trackId.value > 0;
            var empty := looks && (e.trackId.value in caches.cidsOfTrack ==> caches.cidsOfTrack[e.trackId.value] == {});
            match e.fails.value
            case TrackBlacklist => e.trackId.Integer? && e.trackId.value != 0 ==> !e.answer
            case CidBlacklist => !e.answer
            case CidsOfTrackMap => (looks ==> !e.answer) && (e.cid !in bl.cids && !listed ==> e.answer)
            case InvalidSet => (empty ==> !e.answer) && (e.cid !in bl.cids && !listed ==> e.answer)
            case TracksTable =>
              && (empty && e.trackId.value !in caches.invalid ==> !e.answer)
              && (e.cid !in bl.cids && !listed ==> e.answer)
  {
    CachesStayRight(states, events, k);
    assert Next(states[k], events[k], states[k + 1]);
    assert events[k].cid !in states[k].blacklist.cids ==>
             DirectAnswer(states[k].blacklist, states[k].tracks, events[k].cid, events[k].trackId)
             == !states[k].blacklist.HasTrack(events[k].trackId);
  }

  /** As long as no track is uploaded, every answer of a call that does not throw is the one without caches. */
  lemma FixedTablesAnswerDirectly(states: seq<State>, events: seq<Event>, k: nat)
    requires IsRun(states, events) && k < |events| && events[k].Called?
    requires forall j | 0 <= j < k :: !events[j].Uploaded?
    requires !Throws(states[k].blacklist, states[k].caches, events[k].cid, events[k].trackId, events[k].fails)
    ensures events[k].answer == DirectAnswer(states[k].blacklist, states[k].tracks, events[k].cid, events[k].trackId)
  {
    EveryTrueIsRight(states, events, k);
  }

  /** The id is marked, and the map says nothing of it. */
  predicate Refused(caches: Caches, id: TrackId) { id in caches.invalid && caches.CidsOf(id) == {} }

  lemma {:induction false} RefusedStays(states: seq<State>, events: seq<Event>, j: nat, k: nat, id: TrackId)
    requires IsRun(states, events) && j <= k <= |events| && Refused(states[j].caches, id)
    ensures Refused(states[k].caches, id)
  {
    if j < k {
      RefusedStays(states, events, j, k - 1, id);
      CachesStayRight(states, events, k - 1);
      assert Next(states[k - 1], events[k - 1], states[k]);
    }
  }

  /**
   * The mark never expires: once a call has asked for a track that is not there, no call is allowed a blacklisted
   * CID by that track again, whatever is uploaded or evicted in between.
   */
  lemma MissedTrackIsRefused(states: seq<State>, events: seq<Event>, j: nat, k: nat, id: TrackId)
    requires IsRun(states, events) && j < k < |events| && events[j].Called? && events[k].Called?
    requires events[j].trackId == events[k].trackId == Integer(id) && id > 0 && id !in states[j].blacklist.trackIds
    requires events[j].cid in states[j].blacklist.cids && events[k].cid in states[k].blacklist.cids
    requires id in states[j].caches.cidsOfTrack ==> states[j].caches.cidsOfTrack[id] == {}
    requires forall t | t in states[j].tracks :: t.blockchainId != id
    requires !Throws(states[j].blacklist, states[j].caches, events[j].cid, events[j].trackId, events[j].fails)
    ensures !events[k].answer
  {
    FirstTrackIsFirstRow(states[j].tracks, id);
    assert Misses(states[j].blacklist, states[j].tracks, states[j].caches, events[j].cid, events[j].trackId);
    CachesStayRight(states, events, j);
    CachesStayRight(states, events, k);
    assert Next(states[j], events[j], states[j + 1]);
    assert Refused(states[j + 1].caches, id);
    RefusedStays(states, events, j + 1, k, id);
    assert Next(states[k], events[k], states[k + 1]);
  }

  /** So a track asked for too early is refused after its upload, when it should be served. */
  lemma MarkedBeforeUploadIsRefused(id: TrackId, c: Cid) returns (states: seq<State>)
    requires id > 0
    ensures var call, upload := Called(c, Integer(id), None, false), Uploaded(Tables.Track(id, 0, Some([c])));
            IsRun(states, [call, upload, call])
    ensures DirectAnswer(states[2].blacklist, states[2].tracks, c, Integer(id))
  {
    var bl, track, marked := Blacklist({}, {c}), Tables.Track(id, 0, Some([c])), Caches(map[], {id});
    var asked, uploaded := State(bl, [], marked), State(bl, [track], marked);
    states := [State(bl, [], Caches(map[], {})), asked, uploaded, uploaded];
    assert [c][0] == c && [] + [track] == [track];
    assert FirstTrack([track], id) == Some(track);
    var call, upload := Called(c, Integer(id), None, false), Uploaded(track);
    assert Next(states[0], call, asked);
    assert Next(asked, upload, uploaded);
    assert Next(uploaded, call, uploaded);
    var events := [call, upload, call];
    forall k | 0 <= k < 3 ensures Next(states[k], events[k], states[k + 1]) {
      assert k == 0 || k == 1 || k == 2;
    }
  }
}

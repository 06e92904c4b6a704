// The hash over a user's files that syncs compare: fetchFilesHashFromDB and fetchFilesHashesFromDB of
// creator-node/src/dbManager.js.
module FilesHash {
  import opened Wrappers

  type UserId = nat
  type Wallet = string
  type Multihash = string

  /** (cnodeUserUUID, clock) is unique in Files. */
  datatype Key = Key(user: UserId, clock: nat)

  type Files = map<Key, Multihash>

  // ---------- order by "clock" asc ----------

  predicate IsLeast(s: set<nat>, m: nat) { m in s && forall x | x in s :: m <= x }

  function Least(s: set<nat>): (m: nat)
    requires s != {}
    ensures IsLeast(s, m)
  {
    LeastExists(s);
    var m :| IsLeast(s, m);
    m
  }

  lemma {:induction false} LeastExists(s: set<nat>)
    requires s != {}
    ensures exists m :: IsLeast(s, m)
    decreases |s|
  {
    var m :| m in s;
    var rest := s - {m};
    if rest == {} {
      assert s == {m};
      assert IsLeast(s, m);
    } else {
      LeastExists(rest);
      var n :| IsLeast(rest, n);
      LeastOfBoth(s, m, n);
    }
  }

  lemma LeastOfBoth(s: set<nat>, m: nat, n: nat)
    requires m in s && IsLeast(s - {m}, n)
    ensures IsLeast(s, if m < n then m else n)
  {
    forall x | x in s ensures (if m < n then m else n) <= x {
      assert x == m || x in s - {m};
    }
  }

  function Ascending(s: set<nat>): seq<nat>
    decreases |s|
  {
    if s == {} then [] else [Least(s)] + Ascending(s - {Least(s)})
  }

  lemma {:induction false} AscendingConcat(a: set<nat>, b: set<nat>)
    requires forall x, y | x in a && y in b :: x < y
    ensures Ascending(a + b) == Ascending(a) + Ascending(b)
    decreases |a|
  {
    if a == {} {
      assert a + b == b;
    } else {
      var m := Least(a);
      LeastOfUnion(a, b);
      assert (a + b) - {m} == (a - {m}) + b by { assert m !in b; }
      AscendingConcat(a - {m}, b);
    }
  }

  lemma LeastOfUnion(a: set<nat>, b: set<nat>)
    requires a != {} && forall x, y | x in a && y in b :: x < y
    ensures Least(a + b) == Least(a)
  {
    var m := Least(a + b);
    assert m in a + b && Least(a) in a + b;
  }

  /** Ascending lists the members of the set, each once, from the least up. */
  lemma {:induction false} AscendingIsSorted(s: set<nat>)
    ensures forall c :: c in Ascending(s) <==> c in s
    ensures forall i, j | 0 <= i < j < |Ascending(s)| :: Ascending(s)[i] < Ascending(s)[j]
    decreases |s|
  {
    if s != {} {
      var m := Least(s);
      AscendingIsSorted(s - {m});
      var rest := Ascending(s - {m});
      forall i | 0 <= i < |rest| ensures m < rest[i] {
        assert rest[i] in rest && rest[i] in s - {m};
      }
      forall i, j | 0 <= i < j < |Ascending(s)| ensures Ascending(s)[i] < Ascending(s)[j] {
        assert Ascending(s)[j] == rest[j - 1];
      }
    }
  }

  // ---------- The query for one user ----------

  /** The bounds as the code takes them: an absent bound and a zero are the same. */
  predicate InRange(clock: nat, clockMin: Option<nat>, clockMax: Option<nat>) {
    && (clockMin.Some? && clockMin.value != 0 ==> clock >= clockMin.value)
    && (clockMax.Some? && clockMax.value != 0 ==> clock < clockMax.value)
  }

  function Clocks(files: Files, user: UserId, clockMin: Option<nat>, clockMax: Option<nat>): set<nat> {
    set k | k in files && k.user == user && InRange(k.clock, clockMin, clockMax) :: k.clock
  }

  function At(files: Files, user: UserId, clocks: seq<nat>): seq<Multihash>
    requires forall c | c in clocks :: Key(user, c) in files
  {
    if clocks == [] then [] else [files[Key(user, clocks[0])]] + At(files, user, clocks[1..])
  }

  /** The user's multihashes in the clock range, in clock order. */
  function Multihashes(files: Files, user: UserId, clockMin: Option<nat>, clockMax: Option<nat>): seq<Multihash> {
    var clocks := Clocks(files, user, clockMin, clockMax);
    AscendingIsSorted(clocks);
    At(files, user, Ascending(clocks))
  }

  /** string_agg: NULL over no rows. */
  function StringAgg(parts: seq<string>): Option<string> {
    if parts == [] then None else Some(Joined(parts))
  }

  function Joined(parts: seq<string>): string
    requires parts != []
  {
    if |parts| == 1 then parts[0] else parts[0] + "," + Joined(parts[1..])
  }

  function Hashed(md5: string -> string, text: Option<string>): Option<string> {
    if text.Some? then Some(md5(text.value)) else None
  }

  function UserHash(
      md5: string -> string, files: Files, user: UserId, clockMin: Option<nat>, clockMax: Option<nat>): (r: Option<string>)
    ensures var ms := Multihashes(files, user, clockMin, clockMax);
            if ms == [] then r == None else r == Some(md5(Joined(ms)))
  {
    Hashed(md5, StringAgg(Multihashes(files, user, clockMin, clockMax)))
  }

  lemma {:induction false} AtLength(files: Files, user: UserId, clocks: seq<nat>)
    requires forall c | c in clocks :: Key(user, c) in files
    ensures |At(files, user, clocks)| == |clocks|
  {
    if clocks != [] {
      AtLength(files, user, clocks[1..]);
    }
  }

  lemma {:induction false} AtIndex(files: Files, user: UserId, clocks: seq<nat>, i: nat)
    requires forall c | c in clocks :: Key(user, c) in files
    requires i < |clocks|
    ensures |At(files, user, clocks)| == |clocks| && At(files, user, clocks)[i] == files[Key(user, clocks[i])]
  {
    AtLength(files, user, clocks);
    if i > 0 {
      AtIndex(files, user, clocks[1..], i - 1);
    }
  }

  /** The multihashes are those of just the user's files in range, in strictly ascending order of their clocks. */
  lemma MultihashesByClock(files: Files, user: UserId, clockMin: Option<nat>, clockMax: Option<nat>)
    returns (clocks: seq<nat>)
    ensures forall c: nat :: c in clocks <==>
              && Key(user, c) in files
              && (clockMin == None || clockMin == Some(0) || clockMin.value <= c)
              && (clockMax == None || clockMax == Some(0) || c < clockMax.value)
    ensures forall i, j | 0 <= i < j < |clocks| :: clocks[i] < clocks[j]
    ensures var ms := Multihashes(files, user, clockMin, clockMax);
            |ms| == |clocks| && forall i | 0 <= i < |clocks| :: ms[i] == files[Key(user, clocks[i])]
  {
    var selected := Clocks(files, user, clockMin, clockMax);
    clocks := Ascending(selected);
    AscendingIsSorted(selected);
    forall c ensures c in selected <==> Key(user, c) in files && InRange(c, clockMin, clockMax) {
      assert Key(user, c) in files ==> Key(user, c).user == user;
    }
    AtLength(files, user, clocks);
    forall i | 0 <= i < |clocks| ensures Multihashes(files, user, clockMin, clockMax)[i] == files[Key(user, clocks[i])] {
      AtIndex(files, user, clocks, i);
    }
  }

  // ---------- Splitting a range ----------

  lemma {:induction false} AtConcat(files: Files, user: UserId, a: seq<nat>, b: seq<nat>)
    requires forall c | c in a + b :: Key(user, c) in files
    requires forall c | c in a :: Key(user, c) in files
    requires forall c | c in b :: Key(user, c) in files
    ensures At(files, user, a + b) == At(files, user, a) + At(files, user, b)
  {
    if a == [] {
      assert a + b == b;
    } else {
      assert (a + b)[1..] == a[1..] + b;
      AtConcat(files, user, a[1..], b);
    }
  }

  /** Two clock ranges that meet at a nonzero clock concatenate to the whole range. */
  lemma RangesConcatenate(files: Files, user: UserId, clockMin: Option<nat>, split: nat, clockMax: Option<nat>)
    requires split != 0
    requires clockMin.Some? ==> clockMin.value <= split
    requires clockMax.Some? && clockMax.value != 0 ==> split <= clockMax.value
    ensures Multihashes(files, user, clockMin, Some(split)) + Multihashes(files, user, Some(split), clockMax) ==
              Multihashes(files, user, clockMin, clockMax)
  {
    var a, b := Clocks(files, user, clockMin, Some(split)), Clocks(files, user, Some(split), clockMax);
    var whole := Clocks(files, user, clockMin, clockMax);
    forall c ensures c in whole <==> c in a + b {
      assert Key(user, c) in files <==> exists k :: k in files && k.user == user && k.clock == c;
    }
    assert whole == a + b;
    AscendingConcat(a, b);
    AscendingIsSorted(a);
    AscendingIsSorted(b);
    AscendingIsSorted(whole);
    AtConcat(files, user, Ascending(a), Ascending(b));
  }

  ghost predicate HasFiles(files: Files, user: UserId) { exists k :: k in files && k.user == user }

  lemma EmptyIffNoFiles(files: Files, user: UserId)
    ensures Multihashes(files, user, None, None) == [] <==> !HasFiles(files, user)
  {
    var clocks := Clocks(files, user, None, None);
    AscendingIsSorted(clocks);
    AtLength(files, user, Ascending(clocks));
    if HasFiles(files, user) {
      var k :| k in files && k.user == user;
      assert k.clock in clocks && k.clock in Ascending(clocks);
    }
  }

  /**
   * A user's files split at a clock into two ranges that concatenate to all of them exactly when the clock
   * is not zero or there are no files: a zero bound is no bound, so each half is then the whole.
   */
  lemma SplitsExactlyAtNonzero(files: Files, user: UserId, split: nat)
    ensures Multihashes(files, user, None, Some(split)) + Multihashes(files, user, Some(split), None) ==
              Multihashes(files, user, None, None)
            <==> split != 0 || !HasFiles(files, user)
  {
    if split != 0 {
      RangesConcatenate(files, user, None, split, None);
    } else {
      assert Clocks(files, user, None, Some(0)) == Clocks(files, user, None, None);
      assert Clocks(files, user, Some(0), None) == Clocks(files, user, None, None);
      EmptyIffNoFiles(files, user);
      var whole := Multihashes(files, user, None, None);
      assert whole + whole == whole ==> |whole| + |whole| == |whole|;
    }
  }

  // ---------- The methods ----------

  datatype Result = Failed | Fetched(filesHash: Option<string>)

  ghost predicate AllSelected(files: Files, user: UserId, clocks: set<nat>) {
    forall c | c in clocks :: Key(user, c) in files
  }

  ghost function InOrder(files: Files, user: UserId, clocks: set<nat>): seq<Multihash>
    requires AllSelected(files, user, clocks)
  {
    AscendingIsSorted(clocks);
    At(files, user, Ascending(clocks))
  }

  lemma LeastFirst(files: Files, user: UserId, clocks: set<nat>)
    requires AllSelected(files, user, clocks) && clocks != {}
    ensures AllSelected(files, user, clocks - {Least(clocks)})
    ensures InOrder(files, user, clocks) ==
              [files[Key(user, Least(clocks))]] + InOrder(files, user, clocks - {Least(clocks)})
  {
    AscendingIsSorted(clocks);
    assert Ascending(clocks)[1..] == Ascending(clocks - {Least(clocks)});
  }

  lemma LeastMoves(files: Files, user: UserId, done: seq<Multihash>, left: set<nat>)
    requires AllSelected(files, user, left) && left != {}
    ensures AllSelected(files, user, left - {Least(left)})
    ensures done + InOrder(files, user, left) ==
              done + [files[Key(user, Least(left))]] + InOrder(files, user, left - {Least(left)})
  {
    LeastFirst(files, user, left);
  }

  /** string_agg over the selected rows, one row after the other in clock order. */
  method Aggregate(files: Files, user: UserId, clockMin: Option<nat>, clockMax: Option<nat>)
    returns (text: Option<string>)
    ensures text == StringAgg(Multihashes(files, user, clockMin, clockMax))
  {
    var left := Clocks(files, user, clockMin, clockMax);
    text := None;
    ghost var done: seq<Multihash> := [];
    while left != {}
      invariant AllSelected(files, user, left)
      invariant Multihashes(files, user, clockMin, clockMax) == done + InOrder(files, user, left)
      invariant text == StringAgg(done)
      decreases |left|
    {
      var clock := Least(left);
      var multihash := files[Key(user, clock)];
      LeastMoves(files, user, done, left);
      AggregateOneMore(done, multihash);
      done := done + [multihash];
      text := match text case None => Some(multihash) case Some(t) => Some(t + "," + multihash);
      left := left - {clock};
    }
    assert done == Multihashes(files, user, clockMin, clockMax);
  }

  lemma {:induction false} AggregateOneMore(parts: seq<string>, part: string)
    ensures StringAgg(parts + [part]) == Some(if parts == [] then part else Joined(parts) + "," + part)
  {
    if |parts| > 1 {
      AggregateOneMore(parts[1..], part);
      assert (parts + [part])[1..] == parts[1..] + [part];
      assert parts[0] + "," + (Joined(parts[1..]) + "," + part) == parts[0] + "," + Joined(parts[1..]) + "," + part;
    } else if |parts| == 1 {
      assert (parts + [part])[1..] == [part] && Joined([part]) == part;
      assert Joined(parts + [part]) == parts[0] + "," + part;
    }
  }

  /**
   * fetchFilesHashFromDB: the md5 of the user's multihashes in range, joined in clock order, and null without
   * any. cnodeUsers gives the user of a wallet.
   */
  method FetchFilesHashFromDB(
      md5: string -> string, files: Files, cnodeUsers: map<Wallet, UserId>, lookupCNodeUserUUID: Option<UserId>,
      lookupWallet: Wallet, clockMin: Option<nat>, clockMax: Option<nat>)
    returns (r: Result)
    ensures r.Failed? <==> lookupCNodeUserUUID.None? && lookupWallet == ""
    ensures lookupCNodeUserUUID.Some? ==> r == Fetched(UserHash(md5, files, lookupCNodeUserUUID.value, clockMin, clockMax))
    ensures lookupCNodeUserUUID.None? && lookupWallet != "" ==>
              r == Fetched(if lookupWallet in cnodeUsers then UserHash(md5, files, cnodeUsers[lookupWallet], clockMin, clockMax)
                           else None)
  {
    if lookupCNodeUserUUID.None? && lookupWallet == "" {
      return Failed;
    }
    var text: Option<string> := None;
    if lookupCNodeUserUUID.Some? {
      text := Aggregate(files, lookupCNodeUserUUID.value, clockMin, clockMax);
    } else if lookupWallet in cnodeUsers {
      text := Aggregate(files, cnodeUsers[lookupWallet], clockMin, clockMax);
    }
    // for an unknown wallet the subquery is NULL, and a comparison with NULL selects no row
    r := Fetched(Hashed(md5, text));
  }

  /** The rows of the subquery. */
  function Selected(files: Files, users: seq<UserId>): Files { map k | k in files && k.user in users :: files[k] }

  lemma SelectionKeepsUser(files: Files, users: seq<UserId>, user: UserId)
    requires user in users
    ensures Multihashes(Selected(files, users), user, None, None) == Multihashes(files, user, None, None)
    ensures HasFiles(Selected(files, users), user) <==> HasFiles(files, user)
  {
    var some := Selected(files, users);
    var clocks := Clocks(files, user, None, None);
    assert Clocks(some, user, None, None) == clocks by {
      forall c ensures c in Clocks(some, user, None, None) <==> c in clocks {
        assert Key(user, c) in some <==> Key(user, c) in files;
        assert c in clocks <==> Key(user, c) in files;
      }
    }
    AscendingIsSorted(clocks);
    AtSame(some, files, user, Ascending(clocks));
    if HasFiles(files, user) {
      var k :| k in files && k.user == user;
      assert k in some;
    }
  }

  lemma {:induction false} AtSame(some: Files, files: Files, user: UserId, clocks: seq<nat>)
    requires forall c | c in clocks :: Key(user, c) in some && Key(user, c) in files && some[Key(user, c)] == files[Key(user, c)]
    ensures At(some, user, clocks) == At(files, user, clocks)
  {
    if clocks != [] {
      AtSame(some, files, user, clocks[1..]);
    }
  }

  /** fetchFilesHashesFromDB: for every user asked about, what the query for that user alone returns. */
  method FetchFilesHashesFromDB(md5: string -> string, files: Files, cnodeUserUUIDs: seq<UserId>)
    returns (filesHashesByUUIDMap: map<UserId, Option<string>>)
    ensures filesHashesByUUIDMap.Keys == set u | u in cnodeUserUUIDs
    ensures forall u | u in cnodeUserUUIDs :: filesHashesByUUIDMap[u] == UserHash(md5, files, u, None, None)
    ensures forall u | u in cnodeUserUUIDs :: filesHashesByUUIDMap[u].None? <==> !HasFiles(files, u)
  {
    filesHashesByUUIDMap := map u | u in cnodeUserUUIDs :: None;
    if |cnodeUserUUIDs| == 0 {
      return;
    }
    var subquery := Selected(files, cnodeUserUUIDs);
    // GROUP BY: a row of the answer for every user with a row in the subquery
    var groups := set k | k in subquery :: k.user;
    var left := groups;
    while left != {}
      invariant left <= groups
      invariant filesHashesByUUIDMap.Keys == set u | u in cnodeUserUUIDs
      invariant forall u | u in groups - left :: filesHashesByUUIDMap[u] == UserHash(md5, subquery, u, None, None)
      invariant forall u | u in cnodeUserUUIDs && u !in groups - left :: filesHashesByUUIDMap[u] == None
      decreases left
    {
      var user :| user in left;
      filesHashesByUUIDMap := filesHashesByUUIDMap[user := UserHash(md5, subquery, user, None, None)];
      left := left - {user};
    }
    forall u | u in cnodeUserUUIDs
      ensures filesHashesByUUIDMap[u] == UserHash(md5, files, u, None, None)
      ensures filesHashesByUUIDMap[u].None? <==> !HasFiles(files, u)
    {
      SelectionKeepsUser(files, cnodeUserUUIDs, u);
      EmptyIffNoFiles(files, u);
      assert u in groups <==> HasFiles(subquery, u);
    }
  }
}

// Wiping a user's files: the paginated gather into a Redis set and the chunked deletion from disk, from
// creator-node/src/diskManager.ts with the queries of creator-node/src/dbManager.js.
module UserWipe {
  import opened Collections

  type UserId = nat

  /** The components of a normalized path, so that p <= q says that q is p or lies below it. */
  type Path = seq<string>

  /** One row of Files, as the gather looks at it. */
  datatype FileRow = FileRow(owner: UserId, path: Path)

  datatype Kind = File | Dir

  // ---------- The queries ----------

  /** All that is used of the database's collation order. */
  ghost predicate IsOrder(le: (Path, Path) -> bool) {
    && (forall a :: le(a, a))
    && (forall a, b | le(a, b) && le(b, a) :: a == b)
  }

  /** The rows by storagePath, as the index has them; a user may have several rows for one path. */
  ghost predicate Indexed(files: seq<FileRow>, le: (Path, Path) -> bool) {
    forall i, j | 0 <= i < j < |files| :: le(files[i].path, files[j].path)
  }

  ghost predicate Ascending(s: seq<Path>, le: (Path, Path) -> bool) {
    forall i, j | 0 <= i < j < |s| :: le(s[i], s[j])
  }

  ghost predicate Distinct(s: seq<Path>) {
    forall i, j | 0 <= i < j < |s| :: s[i] != s[j]
  }

  lemma ElementsSnoc(s: seq<Path>, p: Path)
    ensures Elements(s + [p]) == Elements(s) + {p}
  {
  }

  function Owned(files: seq<FileRow>, user: UserId): seq<Path> {
    if files == [] then []
    else (if files[0].owner == user then [files[0].path] else []) + Owned(files[1..], user)
  }

  /** HAVING COUNT(DISTINCT "cnodeUserUUID") = 1 */
  predicate OneOwner(files: seq<FileRow>, path: Path) {
    forall r, q | r in files && q in files && r.path == path && q.path == path :: r.owner == q.owner
  }

  function From(s: seq<Path>, cursor: Path, le: (Path, Path) -> bool): seq<Path> {
    if s == [] || le(cursor, s[0]) then s else From(s[1..], cursor, le)
  }

  function Limit(s: seq<Path>, batchSize: nat): seq<Path> {
    if |s| <= batchSize then s else s[..batchSize]
  }

  /** The paths of s that are to be kept, each once, in the order in which they first come. */
  function Only(s: seq<Path>, keep: set<Path>): (r: seq<Path>)
    ensures Elements(r) == Elements(s) * keep
  {
    if s == [] then []
    else
      var prior, last := s[..|s| - 1], s[|s| - 1];
      ElementsSnoc(prior, last);
      assert s == prior + [last];
      if last in keep && last !in prior then
        ElementsSnoc(Only(prior, keep), last);
        Only(prior, keep) + [last]
      else Only(prior, keep)
  }

  /** The paths that the user has and no other user does. */
  function Exclusive(files: seq<FileRow>, user: UserId): set<Path> {
    set p | p in Owned(files, user) && forall r | r in files && r.path == p :: r.owner == user
  }

  lemma {:induction false} OwnedIffRow(files: seq<FileRow>, user: UserId, p: Path)
    ensures p in Owned(files, user) <==> FileRow(user, p) in files
  {
    if files != [] {
      OwnedIffRow(files[1..], user, p);
      assert files == [files[0]] + files[1..];
    }
  }

  lemma {:induction false} OwnedIsAscending(files: seq<FileRow>, user: UserId, le: (Path, Path) -> bool)
    requires Indexed(files, le)
    ensures Ascending(Owned(files, user), le)
  {
    if files != [] {
      OwnedIsAscending(files[1..], user, le);
      if files[0].owner == user {
        forall p | p in Owned(files[1..], user) ensures le(files[0].path, p) {
          OwnedIffRow(files[1..], user, p);
          var i :| 0 <= i < |files| - 1 && files[1..][i] == FileRow(user, p);
          assert files[i + 1] == FileRow(user, p);
        }
      }
    }
  }

  /** The i-th row is the first for its path, and the path is to be kept. */
  predicate New(s: seq<Path>, keep: set<Path>, i: nat)
    requires i < |s|
  {
    s[i] in keep && s[i] !in s[..i]
  }

  /** The cursor selects the rows from the c-th on. */
  ghost predicate CursorAt(s: seq<Path>, cursor: Path, le: (Path, Path) -> bool, c: nat) {
    c <= |s| && From(s, cursor, le) == s[c..]
  }

  /** Asking for everything from the path of the c-th row on returns the rows from there, if it is the first. */
  lemma {:induction false} FromPosition(s: seq<Path>, c: nat, le: (Path, Path) -> bool)
    requires IsOrder(le) && Ascending(s, le) && c < |s| && s[c] !in s[..c]
    ensures CursorAt(s, s[c], le, c)
  {
    if c > 0 {
      assert s[..c][0] == s[0] && s[1..][..c - 1] == s[..c][1..];
      forall p | p in s[1..][..c - 1] ensures p in s[..c] {
        var i :| 0 <= i < c - 1 && s[1..][..c - 1][i] == p;
        assert s[..c][i + 1] == p;
      }
      FromPosition(s[1..], c - 1, le);
      assert le(s[0], s[c]) && s[0] != s[c];
    }
  }

  lemma {:induction false} FirstFor(s: seq<Path>, p: Path) returns (i: nat)
    requires p in s
    ensures i < |s| && s[i] == p && p !in s[..i]
  {
    var prior := s[..|s| - 1];
    assert s == prior + [s[|s| - 1]];
    if p in prior {
      i := FirstFor(prior, p);
      assert prior[..i] == s[..i];
    } else {
      i := |s| - 1;
    }
  }

  /** A path that comes before the c-th row and after it is the path of the c-th row. */
  lemma NewAfter(s: seq<Path>, keep: set<Path>, c: nat, i: nat, le: (Path, Path) -> bool)
    requires IsOrder(le) && Ascending(s, le) && c <= i < |s| && (c == 0 || s[c] !in s[..c])
    ensures New(s, keep, i) <==> s[i] in keep && s[i] !in s[c..i]
  {
    forall j | 0 <= j < c ensures s[j] != s[i] {
      assert le(s[j], s[c]) && le(s[c], s[i]) && s[..c][j] == s[j];
    }
    assert s[..i] == s[..c] + s[c..i];
  }

  /** Path i is to be kept and comes for the first time from the c-th row on. */
  ghost predicate NewWithin(s: seq<Path>, keep: set<Path>, c: nat, i: nat)
    requires c <= i < |s|
  {
    s[i] in keep && s[i] !in s[c..i]
  }

  /** What is new from the first row of a path on is new altogether. */
  ghost predicate Grouped(s: seq<Path>, keep: set<Path>) {
    forall c: nat, i: nat {:trigger NewWithin(s, keep, c, i)} |
        c <= i < |s| && (c == 0 || s[c] !in s[..c]) && NewWithin(s, keep, c, i) :: New(s, keep, i)
  }

  lemma AscendingIsGrouped(s: seq<Path>, keep: set<Path>, le: (Path, Path) -> bool)
    requires IsOrder(le) && Ascending(s, le)
    ensures Grouped(s, keep)
  {
    forall c: nat, i: nat | c <= i < |s| && (c == 0 || s[c] !in s[..c]) && NewWithin(s, keep, c, i)
      ensures New(s, keep, i)
    {
      NewAfter(s, keep, c, i, le);
    }
  }

  // ---------- Which paths the gather reaches ----------

  /**
   * The gather reaches the path that is new with the i-th row: from the first row, and from the first row of
   * each exclusive path before i, the next exclusive path is less than a page away.
   */
  ghost predicate Reached(s: seq<Path>, keep: set<Path>, batchSize: nat, i: nat)
    requires i < |s|
  {
    && (i == 0 ==> batchSize > 0)
    && forall a | 0 <= a < i && (a == 0 || New(s, keep, a)) :: NextIsNear(s, keep, batchSize, a, i)
  }

  ghost predicate NextIsNear(s: seq<Path>, keep: set<Path>, batchSize: nat, a: nat, i: nat)
    requires a <= i < |s|
  {
    exists k :: a < k < a + batchSize && k <= i && New(s, keep, k)
  }

  /** A page's worth of rows, from the first one or from that of an exclusive path on, before the next one. */
  ghost predicate WideGap(s: seq<Path>, keep: set<Path>, batchSize: nat, a: nat, b: nat) {
    && a < b < |s| && b - a >= batchSize
    && (a == 0 || New(s, keep, a)) && New(s, keep, b)
    && forall k | a < k < b :: !New(s, keep, k)
  }

  ghost function Gathered(s: seq<Path>, keep: set<Path>, batchSize: nat): set<Path> {
    set i | 0 <= i < |s| && New(s, keep, i) && Reached(s, keep, batchSize, i) :: s[i]
  }

  ghost predicate GathersAll(s: seq<Path>, keep: set<Path>, batchSize: nat) {
    forall i | 0 <= i < |s| && New(s, keep, i) :: Reached(s, keep, batchSize, i)
  }

  ghost predicate HasWideGap(s: seq<Path>, keep: set<Path>, batchSize: nat) {
    exists a, b :: WideGap(s, keep, batchSize, a, b)
  }

  /**
   * The gather is complete exactly when fewer than batchSize rows precede the first exclusive path and
   * fewer than batchSize - 1 other rows lie between two consecutive ones.
   */
  lemma GathersAllExactly(s: seq<Path>, keep: set<Path>, batchSize: nat)
    requires batchSize >= 2
    ensures GathersAll(s, keep, batchSize) <==> !HasWideGap(s, keep, batchSize)
  {
    if HasWideGap(s, keep, batchSize) {
      var a, b :| WideGap(s, keep, batchSize, a, b);
      assert !NextIsNear(s, keep, batchSize, a, b);
      assert !Reached(s, keep, batchSize, b);
    } else {
      forall i, a | 0 <= a < i < |s| && New(s, keep, i) && (a == 0 || New(s, keep, a))
        ensures NextIsNear(s, keep, batchSize, a, i)
      {
        var b := NextKept(s, keep, a, i);
        assert !WideGap(s, keep, batchSize, a, b);
      }
    }
  }

  lemma NewOnce(s: seq<Path>, keep: set<Path>, i: nat, j: nat)
    requires i < |s| && j < |s| && New(s, keep, i) && New(s, keep, j)
    ensures s[i] == s[j] ==> i == j
  {
    assert i < j ==> s[..j][i] == s[i];
    assert j < i ==> s[..i][j] == s[j];
  }

  /** The gather takes only paths no other user has, and takes them all exactly when there is no wide gap. */
  lemma GathersExclusive(files: seq<FileRow>, user: UserId, batchSize: nat)
    requires batchSize >= 2
    ensures var s, keep := Owned(files, user), Exclusive(files, user);
            && (forall p | p in Gathered(s, keep, batchSize) ::
                  FileRow(user, p) in files && forall r | r in files && r.path == p :: r.owner == user)
            && ((forall p :: p in Gathered(s, keep, batchSize) <==>
                   FileRow(user, p) in files && forall r | r in files && r.path == p :: r.owner == user)
                <==> !HasWideGap(s, keep, batchSize))
  {
    var s, keep := Owned(files, user), Exclusive(files, user);
    var all := Gathered(s, keep, batchSize);
    forall p | p in all ensures FileRow(user, p) in files {
      OwnedIffRow(files, user, p);
    }
    forall p ensures p in keep <==>
                       FileRow(user, p) in files && forall r | r in files && r.path == p :: r.owner == user {
      OwnedIffRow(files, user, p);
    }
    GathersAllExactly(s, keep, batchSize);
    forall i | 0 <= i < |s| && New(s, keep, i) ensures s[i] in all <==> Reached(s, keep, batchSize, i) {
      if s[i] in all {
        var j :| 0 <= j < |s| && s[j] == s[i] && New(s, keep, j) && Reached(s, keep, batchSize, j);
        NewOnce(s, keep, i, j);
      }
    }
    if GathersAll(s, keep, batchSize) {
      forall p | p in keep ensures p in all {
        var i := FirstFor(s, p);
        assert New(s, keep, i);
      }
    } else {
      var i :| 0 <= i < |s| && New(s, keep, i) && !Reached(s, keep, batchSize, i);
      assert s[i] in keep && s[i] !in all;
    }
  }

  /** With pages of one row the loop never gets past an exclusive path: the page is full and brings nothing. */
  lemma OnePerPageNeverMoves(s: seq<Path>, keep: set<Path>, c: nat, le: (Path, Path) -> bool)
    requires IsOrder(le) && Ascending(s, le) && c < |s| && New(s, keep, c)
    ensures Only(Limit(From(s, s[c], le), 1), keep) == [s[c]]
  {
    FromPosition(s, c, le);
    assert Limit(s[c..], 1) == [s[c]];
    assert [s[c]][..0] == [] && Only([s[c]], keep) == [s[c]];
  }

  lemma {:induction false} NextKept(s: seq<Path>, keep: set<Path>, a: nat, i: nat) returns (b: nat)
    requires a < i < |s| && New(s, keep, i)
    ensures a < b <= i && New(s, keep, b) && forall k | a < k < b :: !New(s, keep, k)
    decreases i - a
  {
    if New(s, keep, a + 1) {
      b := a + 1;
    } else {
      b := NextKept(s, keep, a + 1, i);
    }
  }

  // ---------- The state of the gather between two pages ----------

  /** The exclusive paths among the first n rows have been added, and all of them are reached. */
  ghost predicate Progress(s: seq<Path>, keep: set<Path>, reached: nat -> bool, added: set<Path>, n: nat) {
    && n <= |s|
    && added == Elements(s[..n]) * keep
    && (forall i | 0 <= i < n && New(s, keep, i) :: reached(i))
  }

  /** The next page starts at the c-th row: the first, or that of the last exclusive path added. */
  ghost predicate At(s: seq<Path>, keep: set<Path>, reached: nat -> bool, added: set<Path>, n: nat, c: nat) {
    && c <= |s| && Progress(s, keep, reached, added, n)
    && ((c == 0 && n == 0) || (n == c + 1 <= |s| && New(s, keep, c) && reached(c)))
  }

  ghost predicate NoMoreReached(s: seq<Path>, keep: set<Path>, reached: nat -> bool, n: nat) {
    forall i | n <= i < |s| && New(s, keep, i) :: !reached(i)
  }

  /** The loop may ask for the page from the c-th row on. */
  ghost predicate Asks(s: seq<Path>, keep: set<Path>, reached: nat -> bool, c: nat) {
    c == 0 || (c < |s| && New(s, keep, c) && reached(c))
  }

  ghost predicate PageReached(s: seq<Path>, keep: set<Path>, batchSize: nat, reached: nat -> bool, c: nat) {
    forall i: nat | c <= i < |s| && i < c + batchSize && New(s, keep, i) :: reached(i)
  }

  ghost predicate NoneReachedAfter(s: seq<Path>, reached: nat -> bool, c: nat) {
    forall i: nat | c < i < |s| :: !reached(i)
  }

  /** What the proof of the loop needs to know of Reached. */
  ghost predicate FollowsPages(s: seq<Path>, keep: set<Path>, batchSize: nat, reached: nat -> bool) {
    && (forall c: nat | Asks(s, keep, reached, c) :: PageReached(s, keep, batchSize, reached, c))
    && (forall c: nat {:trigger NoneWithin(s, keep, batchSize, c)} |
            (c == 0 || (c < |s| && New(s, keep, c))) && NoneWithin(s, keep, batchSize, c) ::
          NoneReachedAfter(s, reached, c))
  }

  ghost predicate NoneWithin(s: seq<Path>, keep: set<Path>, batchSize: nat, c: nat) {
    forall k | c < k < c + batchSize && k < |s| :: !New(s, keep, k)
  }

  ghost function ReachedIn(s: seq<Path>, keep: set<Path>, batchSize: nat): nat -> bool {
    (i: nat) => i < |s| && Reached(s, keep, batchSize, i)
  }

  lemma ReachedFollowsPages(s: seq<Path>, keep: set<Path>, batchSize: nat)
    ensures FollowsPages(s, keep, batchSize, ReachedIn(s, keep, batchSize))
  {
    var reached := ReachedIn(s, keep, batchSize);
    forall c: nat, i: nat | Asks(s, keep, reached, c) && c <= i < |s| && i < c + batchSize && New(s, keep, i)
      ensures reached(i)
    {
      PageIsReached(s, keep, batchSize, c, i);
    }
    forall c: nat, i: nat |
        c < i < |s| && (c == 0 || New(s, keep, c)) && NoneWithin(s, keep, batchSize, c)
      ensures !reached(i)
    {
      assert !NextIsNear(s, keep, batchSize, c, i);
    }
  }

  /** Everything new up to the end of a page that starts at c is reached when c is. */
  lemma PageIsReached(s: seq<Path>, keep: set<Path>, batchSize: nat, c: nat, i: nat)
    requires c <= i < |s| && i < c + batchSize && New(s, keep, i)
    requires c == 0 || (New(s, keep, c) && Reached(s, keep, batchSize, c))
    ensures Reached(s, keep, batchSize, i)
  {
    forall a | 0 <= a < i && (a == 0 || New(s, keep, a)) ensures NextIsNear(s, keep, batchSize, a, i) {
      if a < c {
        assert NextIsNear(s, keep, batchSize, a, c);
        var k :| a < k < a + batchSize && k <= c && New(s, keep, k);
        assert k <= i;
      } else {
        assert i < a + batchSize;
      }
    }
  }

  /** The last path found comes with the k-th row, and what is to be kept has come by then. */
  lemma {:induction false} LastOfOnly(s: seq<Path>, keep: set<Path>) returns (k: nat)
    requires Only(s, keep) != []
    ensures k < |s| && New(s, keep, k) && s[k] == Only(s, keep)[|Only(s, keep)| - 1]
    ensures Elements(s) * keep <= Elements(s[..k + 1])
    ensures |Only(s, keep)| <= k + 1
  {
    var prior, last := s[..|s| - 1], s[|s| - 1];
    assert s == prior + [last];
    if last in keep && last !in prior {
      k := |s| - 1;
      AtMostAll(prior, keep);
      assert s[..k + 1] == s && s[..k] == prior;
    } else {
      k := LastOfOnly(prior, keep);
      assert prior[..k] == s[..k] && prior[..k + 1] == s[..k + 1];
      ElementsSnoc(prior, last);
    }
  }

  lemma {:induction false} AtMostAll(s: seq<Path>, keep: set<Path>)
    ensures |Only(s, keep)| <= |s|
  {
    if s != [] {
      AtMostAll(s[..|s| - 1], keep);
    }
  }

  lemma ProgressIsGathered(s: seq<Path>, keep: set<Path>, batchSize: nat, added: set<Path>, n: nat)
    requires Progress(s, keep, ReachedIn(s, keep, batchSize), added, n)
    requires NoMoreReached(s, keep, ReachedIn(s, keep, batchSize), n)
    ensures added == Gathered(s, keep, batchSize)
  {
    var reached := ReachedIn(s, keep, batchSize);
    forall i | 0 <= i < |s| && New(s, keep, i) ensures i < n <==> Reached(s, keep, batchSize, i) {
      assert reached(i) <==> Reached(s, keep, batchSize, i);
    }
    forall p | p in added ensures p in Gathered(s, keep, batchSize) {
      var i := FirstFor(s[..n], p);
      assert s[..n][..i] == s[..i] && New(s, keep, i) && Reached(s, keep, batchSize, i);
    }
    forall p | p in Gathered(s, keep, batchSize) ensures p in added {
      var i :| 0 <= i < |s| && s[i] == p && New(s, keep, i) && Reached(s, keep, batchSize, i);
      assert s[..n][i] == p;
    }
  }

  /** The page from c on, whose kept paths have all come by the e-th row, together with what lies before it. */
  lemma KeptUpTo(s: seq<Path>, keep: set<Path>, n: nat, c: nat, e: nat, page: seq<Path>)
    requires c <= n <= e + 1 <= |s| && c <= e && e < c + |page|
    requires c + |page| <= |s| && forall i | 0 <= i < |page| :: page[i] == s[c + i]
    requires Elements(page) * keep <= Elements(page[..e - c + 1])
    ensures Elements(s[..n]) * keep + Elements(page) * keep == Elements(s[..e + 1]) * keep
  {
    var whole := s[..e + 1];
    forall p | p in page && p in keep ensures p in whole {
      assert p in Elements(page) * keep && p in page[..e - c + 1];
      var i :| 0 <= i < e - c + 1 && page[..e - c + 1][i] == p;
      assert whole[c + i] == p;
    }
    forall p | p in whole ensures p in s[..n] || p in page {
      var i :| 0 <= i < |whole| && whole[i] == p;
      assert if i < n then s[..n][i] == p else page[i - c] == p;
    }
    assert s[..n] == whole[..n];
  }

  /** The page of rows from the c-th on. */
  ghost predicate PageFrom(s: seq<Path>, c: nat, batchSize: nat, page: seq<Path>) {
    c <= |s| && |page| == Min(batchSize, |s| - c) && forall i | 0 <= i < |page| :: page[i] == s[c + i]
  }

  lemma LimitIsPage(s: seq<Path>, c: nat, batchSize: nat)
    requires c <= |s|
    ensures PageFrom(s, c, batchSize, Limit(s[c..], batchSize))
  {
  }

  lemma AddingGrows<T>(all: set<T>, before: set<T>, found: set<T>)
    requires found <= all
    ensures found - before != {} ==> |all - (before + found)| < |all - before|
    ensures found - before == {} <==> |found - before| == 0
    ensures found - before == {} ==> before + found == before
  {
    var a, b := all - (before + found), all - before;
    assert b == a + (found - before);
    assert |b| == |a| + |found - before|;
  }

  /** The kept paths of the page are found, and the last one comes with its e-th row. */
  ghost predicate FoundOn(page: seq<Path>, keep: set<Path>, e: nat, filePaths: seq<Path>) {
    && e < |page| && New(page, keep, e) && 0 < |filePaths| <= e + 1 && filePaths[|filePaths| - 1] == page[e]
    && Elements(filePaths) == Elements(page) * keep && Elements(page) * keep <= Elements(page[..e + 1])
  }

  /** e matters only where something is found. */
  ghost predicate Found(page: seq<Path>, keep: set<Path>, e: nat, filePaths: seq<Path>) {
    if filePaths == [] then Elements(page) * keep == {} else FoundOn(page, keep, e, filePaths)
  }

  lemma OnlyIsFound(page: seq<Path>, keep: set<Path>) returns (e: nat)
    ensures Found(page, keep, e, Only(page, keep))
  {
    e := 0;
    if Only(page, keep) != [] {
      e := LastOfOnly(page, keep);
    }
  }

  /** A page that brings nothing ends the loop where it stands. */
  lemma EmptyPage(
      s: seq<Path>, keep: set<Path>, batchSize: nat, reached: nat -> bool, added: set<Path>, n: nat, c: nat,
      page: seq<Path>, filePaths: seq<Path>)
    requires batchSize >= 2 && FollowsPages(s, keep, batchSize, reached) && At(s, keep, reached, added, n, c)
    requires PageFrom(s, c, batchSize, page) && filePaths == [] && Elements(page) * keep == {}
    ensures At(s, keep, reached, added + Elements(filePaths), n, c) && NoMoreReached(s, keep, reached, n)
  {
    assert added + Elements(filePaths) == added;
    NoneOnPage(s, keep, batchSize, reached, n, c, page);
  }

  /** A page that brings something: the next one starts at the last path that it brings. */
  lemma NextPageStarts(
      s: seq<Path>, keep: set<Path>, batchSize: nat, reached: nat -> bool, added: set<Path>, n: nat, c: nat, e: nat,
      page: seq<Path>, filePaths: seq<Path>)
    requires Grouped(s, keep) && batchSize >= 2 && FollowsPages(s, keep, batchSize, reached)
    requires At(s, keep, reached, added, n, c) && PageFrom(s, c, batchSize, page) && FoundOn(page, keep, e, filePaths)
    ensures At(s, keep, reached, added + Elements(filePaths), c + e + 1, c + e)
    ensures Elements(filePaths) - added == {} ==> |filePaths| < batchSize && NoMoreReached(s, keep, reached, c + e + 1)
    ensures c + e < |s| && filePaths[|filePaths| - 1] == s[c + e] && s[c + e] !in s[..c + e]
  {
    NewOnPage(s, keep, batchSize, c, e, page);
    PageAdded(s, keep, batchSize, reached, added, n, c, e, page, filePaths);
    NewUnlessFirst(s, keep, batchSize, reached, added, n, c, e, page, filePaths);
  }

  lemma PageAdded(
      s: seq<Path>, keep: set<Path>, batchSize: nat, reached: nat -> bool, added: set<Path>, n: nat, c: nat, e: nat,
      page: seq<Path>, filePaths: seq<Path>)
    requires FollowsPages(s, keep, batchSize, reached) && At(s, keep, reached, added, n, c)
    requires PageFrom(s, c, batchSize, page) && FoundOn(page, keep, e, filePaths) && New(s, keep, c + e)
    ensures At(s, keep, reached, added + Elements(filePaths), c + e + 1, c + e)
  {
    KeptUpTo(s, keep, n, c, c + e, page);
    ReachedOnPage(s, keep, batchSize, reached, added, n, c, e, page);
  }

  /** One turn of the loop: it moves on, or there is nothing left that it could reach. */
  lemma PageStep(
      s: seq<Path>, keep: set<Path>, batchSize: nat, reached: nat -> bool, added: set<Path>, n: nat, c: nat,
      page: seq<Path>, e: nat, filePaths: seq<Path>)
    returns (c': nat, n': nat)
    requires Grouped(s, keep) && batchSize >= 2 && FollowsPages(s, keep, batchSize, reached)
    requires At(s, keep, reached, added, n, c) && PageFrom(s, c, batchSize, page) && Found(page, keep, e, filePaths)
    ensures At(s, keep, reached, added + Elements(filePaths), n', c')
    ensures Elements(filePaths) - added == {} ==> |filePaths| < batchSize && NoMoreReached(s, keep, reached, n')
    ensures if filePaths == [] then c' == c
            else c' < |s| && filePaths[|filePaths| - 1] == s[c'] && s[c'] !in s[..c']
  {
    if filePaths == [] {
      c', n' := c, n;
      EmptyPage(s, keep, batchSize, reached, added, n, c, page, filePaths);
    } else {
      c', n' := c + e, c + e + 1;
      NextPageStarts(s, keep, batchSize, reached, added, n, c, e, page, filePaths);
    }
  }

  /** What is new on the page that starts at c is new. */
  lemma NewOnPage(s: seq<Path>, keep: set<Path>, batchSize: nat, c: nat, e: nat, page: seq<Path>)
    requires Grouped(s, keep) && c <= |s| && PageFrom(s, c, batchSize, page) && e < |page|
    requires (c == 0 || (c < |s| && s[c] !in s[..c])) && New(page, keep, e)
    ensures New(s, keep, c + e) && page[e] == s[c + e]
  {
    assert page[..e] == s[c..c + e] && page[e] == s[c + e];
    assert NewWithin(s, keep, c, c + e);
  }

  lemma ReachedOnPage(
      s: seq<Path>, keep: set<Path>, batchSize: nat, reached: nat -> bool, added: set<Path>, n: nat, c: nat, e: nat,
      page: seq<Path>)
    requires FollowsPages(s, keep, batchSize, reached) && At(s, keep, reached, added, n, c)
    requires PageFrom(s, c, batchSize, page) && e < |page|
    ensures forall i | 0 <= i < c + e + 1 && New(s, keep, i) :: reached(i)
  {
    assert Asks(s, keep, reached, c) && PageReached(s, keep, batchSize, reached, c);
    forall i | 0 <= i < c + e + 1 && New(s, keep, i) ensures reached(i) {
      if i >= n {
        assert c <= i < c + batchSize;
      }
    }
  }

  lemma NoneOnPage(
      s: seq<Path>, keep: set<Path>, batchSize: nat, reached: nat -> bool, n: nat, c: nat, page: seq<Path>)
    requires batchSize >= 2 && FollowsPages(s, keep, batchSize, reached)
    requires c <= |s| && ((c == 0 && n == 0) || (n == c + 1 <= |s| && New(s, keep, c)))
    requires PageFrom(s, c, batchSize, page) && Elements(page) * keep == {}
    ensures NoMoreReached(s, keep, reached, n)
  {
    forall k | c <= k < c + |page| ensures !New(s, keep, k) {
      assert page[k - c] == s[k] && s[k] !in Elements(page) * keep;
    }
    EmptyPageEnds(s, keep, batchSize, reached, n, c, page);
  }

  lemma NewUnlessFirst(
      s: seq<Path>, keep: set<Path>, batchSize: nat, reached: nat -> bool, added: set<Path>, n: nat, c: nat, e: nat,
      page: seq<Path>, filePaths: seq<Path>)
    requires batchSize >= 2 && FollowsPages(s, keep, batchSize, reached)
    requires At(s, keep, reached, added, n, c) && PageFrom(s, c, batchSize, page)
    requires FoundOn(page, keep, e, filePaths) && New(s, keep, c + e)
    ensures Elements(filePaths) - added == {} ==> |filePaths| < batchSize && NoMoreReached(s, keep, reached, c + e + 1)
  {
    assert page[e] == s[c + e];
    if e > 0 || n == 0 {
      assert forall i | 0 <= i < n :: s[..n][i] == s[..c + e][i];
      assert s[c + e] !in s[..n];
      assert s[c + e] in Elements(page) * keep - added;
    } else {
      forall k | c < k < c + |page| ensures !New(s, keep, k) {
        assert page[k - c] == s[k];
        if s[k] in keep {
          assert s[k] in Elements(page) * keep && s[k] in page[..1];
          assert s[..k][c] == page[0];
        }
      }
      EmptyPageEnds(s, keep, batchSize, reached, n, c, page);
    }
  }

  lemma EmptyPageEnds(
      s: seq<Path>, keep: set<Path>, batchSize: nat, reached: nat -> bool, n: nat, c: nat, page: seq<Path>)
    requires c <= |s| && PageFrom(s, c, batchSize, page) && FollowsPages(s, keep, batchSize, reached)
    requires (c == 0 && n == 0 && (s != [] ==> !New(s, keep, 0))) || (n == c + 1 <= |s| && New(s, keep, c))
    requires forall k | c < k < c + |page| :: !New(s, keep, k)
    ensures NoMoreReached(s, keep, reached, n)
  {
    forall k | c < k < c + batchSize && k < |s| ensures !New(s, keep, k) {
      assert k < c + |page|;
    }
    assert NoneWithin(s, keep, batchSize, c) && NoneReachedAfter(s, reached, c);
  }

  /** getCNodeUserFilesFromDb: the exclusive ones, each once, among the paths of a page of the user's rows. */
  method GetCNodeUserFilesFromDb(
      files: seq<FileRow>, user: UserId, prevStoragePath: Path, batchSize: nat, le: (Path, Path) -> bool)
    returns (userUniqueFiles: seq<Path>)
    ensures userUniqueFiles == Only(Limit(From(Owned(files, user), prevStoragePath, le), batchSize), Exclusive(files, user))
    ensures forall p :: p in userUniqueFiles <==>
              && p in Limit(From(Owned(files, user), prevStoragePath, le), batchSize)
              && forall r | r in files && r.path == p :: r.owner == user
  {
    var userFiles := Limit(From(Owned(files, user), prevStoragePath, le), batchSize);
    ghost var keep := Exclusive(files, user);
    FromIsOwned(Owned(files, user), prevStoragePath, le);
    userUniqueFiles := [];
    for k := 0 to |userFiles|
      invariant userUniqueFiles == Only(userFiles[..k], keep)
    {
      OwnedIffRow(files, user, userFiles[k]);
      assert userFiles[k] in userFiles;
      assert OneOwner(files, userFiles[k]) <==> userFiles[k] in keep;
      assert userFiles[..k + 1][..k] == userFiles[..k];
      assert userFiles[k] in keep ==> (userFiles[k] in userUniqueFiles <==> userFiles[k] in Elements(userFiles[..k]) * keep);
      if OneOwner(files, userFiles[k]) && userFiles[k] !in userUniqueFiles {
        userUniqueFiles := userUniqueFiles + [userFiles[k]];
      }
    }
    assert userFiles[..|userFiles|] == userFiles;
    OnlyExclusive(files, user, userFiles);
  }

  lemma OnlyExclusive(files: seq<FileRow>, user: UserId, page: seq<Path>)
    requires forall p | p in page :: p in Owned(files, user)
    ensures forall p :: p in Only(page, Exclusive(files, user)) <==>
              p in page && forall r | r in files && r.path == p :: r.owner == user
  {
    forall p ensures p in Only(page, Exclusive(files, user)) <==>
                       p in page && forall r | r in files && r.path == p :: r.owner == user {
      assert p in Only(page, Exclusive(files, user)) <==> p in Elements(page) * Exclusive(files, user) by {
        assert p in Only(page, Exclusive(files, user)) <==> p in Elements(Only(page, Exclusive(files, user)));
      }
    }
  }

  lemma {:induction false} FromIsOwned(s: seq<Path>, cursor: Path, le: (Path, Path) -> bool)
    ensures forall p | p in From(s, cursor, le) :: p in s
  {
    if s != [] && !le(cursor, s[0]) {
      FromIsOwned(s[1..], cursor, le);
    }
  }

  // ---------- The disk ----------

  /** Every entry but the root lies in a directory. */
  ghost predicate IsTree(disk: map<Path, Kind>) {
    forall p | p in disk && p != [] :: Parent(p) in disk && disk[Parent(p)].Dir?
  }

  function Parent(p: Path): Path
    requires p != []
  {
    p[..|p| - 1]
  }

  ghost function Below(disk: map<Path, Kind>, p: Path): set<Path> { set q | q in disk && p <= q }

  /** The disk without the subtree at p. */
  ghost function Without(disk: map<Path, Kind>, p: Path): map<Path, Kind> {
    map q | q in disk && !(p <= q) :: disk[q]
  }

  /** The disk without the subtrees at any of these paths. */
  ghost function WithoutAll(disk: map<Path, Kind>, roots: set<Path>): map<Path, Kind> {
    map q | q in disk && (forall p | p in roots :: !(p <= q)) :: disk[q]
  }

  function Children(disk: map<Path, Kind>, p: Path): set<Path> {
    set q | q in disk && q != [] && Parent(q) == p
  }

  lemma {:induction false} AncestorsExist(disk: map<Path, Kind>, p: Path, q: Path)
    requires IsTree(disk) && q in disk && p <= q
    ensures p in disk && (p != q ==> disk[p].Dir?)
    decreases |q|
  {
    if p != q {
      AncestorsExist(disk, p, Parent(q));
    }
  }

  /** Below a directory lie its children and what lies below them. */
  lemma {:induction false} BelowAChild(disk: map<Path, Kind>, p: Path, q: Path)
    requires IsTree(disk) && q in disk && p < q
    ensures q[..|p| + 1] in Children(disk, p)
  {
    AncestorsExist(disk, q[..|p| + 1], q);
    assert Parent(q[..|p| + 1]) == p;
  }

  lemma WithoutKeepsTree(disk: map<Path, Kind>, roots: set<Path>)
    requires IsTree(disk)
    ensures IsTree(WithoutAll(disk, roots))
  {
    forall q | q in WithoutAll(disk, roots) && q != [] ensures Parent(q) in WithoutAll(disk, roots) {
      forall p | p in roots ensures !(p <= Parent(q)) {
        assert !(p <= q);
      }
    }
  }

  lemma WithoutOneMore(disk: map<Path, Kind>, roots: set<Path>, p: Path)
    ensures Without(WithoutAll(disk, roots), p) == WithoutAll(disk, roots + {p})
  {
  }

  /** What is not there has nothing below it. */
  lemma MissingChangesNothing(disk: map<Path, Kind>, p: Path)
    requires IsTree(disk) && p !in disk
    ensures Without(disk, p) == disk
  {
    forall q | q in disk ensures !(p <= q) {
      if p <= q {
        AncestorsExist(disk, p, q);
      }
    }
  }

  lemma NothingBelowAFile(disk: map<Path, Kind>, p: Path)
    requires IsTree(disk) && p in disk && disk[p].File?
    ensures Without(disk, p) == disk - {p} && IsTree(disk - {p})
  {
    forall q | q in disk && p <= q ensures q == p {
      AncestorsExist(disk, p, q);
    }
  }

  lemma ChildIsSmaller(before: map<Path, Kind>, disk: map<Path, Kind>, p: Path, child: Path)
    requires disk.Keys <= before.Keys && p in before && child in Children(before, p)
    ensures |Below(disk, child)| < |Below(before, p)|
  {
    var a, b := Below(disk, child), Below(before, p);
    assert p < child;
    forall q | q in a ensures q in b - {p} {
      assert p <= q && |q| > |p|;
    }
    SubsetIsSmaller(a, b - {p});
  }

  lemma ChildSurvives(disk: map<Path, Kind>, p: Path, gone: set<Path>, child: Path)
    requires gone <= Children(disk, p) && child in Children(disk, p) && child !in gone
    ensures child in WithoutAll(disk, gone)
  {
    forall q | q in gone ensures !(q <= child) {
      assert q in Children(disk, p);
      assert |q| == |p| + 1 == |child|;
      assert q <= child ==> q == child;
    }
  }

  /** When the children are gone, rmdir finds the directory empty and takes away the rest of the subtree. */
  lemma OnlyTheDirectoryIsLeft(disk: map<Path, Kind>, p: Path)
    requires IsTree(disk) && p in disk
    ensures var left := WithoutAll(disk, Children(disk, p));
            p in left && Children(left, p) == {} && left - {p} == Without(disk, p) && IsTree(Without(disk, p))
  {
    var left := WithoutAll(disk, Children(disk, p));
    forall q | q in disk && p < q ensures q !in left {
      BelowAChild(disk, p, q);
    }
    forall q | q in disk && (q == p || !(p <= q)) ensures q in left {
      NotBelowAChild(disk, p, q);
    }
    OnlyRootLeft(disk, left, p);
    WithoutKeepsTree(disk, {p});
    assert WithoutAll(disk, {p}) == Without(disk, p);
  }

  lemma NotBelowAChild(disk: map<Path, Kind>, p: Path, q: Path)
    requires q == p || !(p <= q)
    ensures forall c | c in Children(disk, p) :: !(c <= q)
  {
    forall c | c in Children(disk, p) ensures !(c <= q) {
      assert p <= c && |c| > |p|;
    }
  }

  lemma OnlyRootLeft(disk: map<Path, Kind>, left: map<Path, Kind>, p: Path)
    requires forall q | q in left :: q in disk && left[q] == disk[q]
    requires forall q | q in disk && !(p <= q) :: q in left
    requires forall q | q in disk && p < q :: q !in left
    ensures Children(left, p) == {} && left - {p} == Without(disk, p)
  {
    forall q | q in left && q != [] ensures Parent(q) != p {
      assert Parent(q) <= q && Parent(q) != q;
    }
    forall q | q in disk && q != p ensures q in left <==> !(p <= q) {
      assert p <= q ==> p < q;
    }
    assert p <= p;
  }

  /** The k-th deletion succeeds: its path was there, and no earlier deletion took it away. */
  ghost predicate Succeeds(disk: map<Path, Kind>, order: seq<Path>, k: nat)
    requires k < |order|
  {
    order[k] in disk && forall j | 0 <= j < k :: !(order[j] <= order[k])
  }

  ghost function Successes(disk: map<Path, Kind>, order: seq<Path>): set<nat> {
    set k | 0 <= k < |order| && Succeeds(disk, order, k)
  }

  lemma OneMoreAttempt(disk: map<Path, Kind>, order: seq<Path>, p: Path)
    ensures var now := WithoutAll(disk, Elements(order));
            |Successes(disk, order + [p])| == |Successes(disk, order)| + if p in now then 1 else 0
  {
    var more := order + [p];
    var before, after := Successes(disk, order), Successes(disk, more);
    forall k | 0 <= k < |order| ensures Succeeds(disk, order, k) <==> Succeeds(disk, more, k) {
      assert forall j | 0 <= j <= k :: more[j] == order[j];
    }
    LastSucceeds(disk, order, p);
    if Succeeds(disk, more, |order|) {
      assert after == before + {|order|};
    } else {
      assert after == before;
    }
  }

  lemma LastSucceeds(disk: map<Path, Kind>, order: seq<Path>, p: Path)
    ensures Succeeds(disk, order + [p], |order|) <==> p in WithoutAll(disk, Elements(order))
  {
    var more := order + [p];
    assert forall j | 0 <= j < |order| :: more[j] == order[j] && order[j] in Elements(order);
    if Succeeds(disk, more, |order|) {
      forall q | q in Elements(order) ensures !(q <= p) {
        var j :| 0 <= j < |order| && order[j] == q;
        assert more[j] == q;
      }
    }
  }

  ghost predicate Unnested(paths: set<Path>) {
    forall p, q | p in paths && q in paths && p <= q :: p == q
  }

  /** Unless one path lies below another, every order of deletion succeeds on just the paths that are there. */
  lemma {:induction false} UnnestedCount(disk: map<Path, Kind>, order: seq<Path>)
    requires Distinct(order) && Unnested(Elements(order))
    ensures |Successes(disk, order)| == |set p | p in order && p in disk|
  {
    if order != [] {
      var prior, p := order[..|order| - 1], order[|order| - 1];
      assert order == prior + [p];
      assert Elements(order) == Elements(prior) + {p} && p !in prior;
      UnnestedCount(disk, prior);
      OneMoreAttempt(disk, prior, p);
      forall q | q in Elements(prior) ensures !(q <= p) {
        assert q in Elements(order) && p in Elements(order);
      }
      assert p in WithoutAll(disk, Elements(prior)) <==> p in disk;
      var before, after := set q | q in prior && q in disk, set q | q in order && q in disk;
      assert after == if p in disk then before + {p} else before;
    } else {
      assert Successes(disk, order) == {};
      assert (set p | p in order && p in disk) == {};
    }
  }

  /** A path below another counts when it goes first, and only then. */
  lemma NestedPathsChangeTheCount(outer: Path, inner: Path, disk: map<Path, Kind>)
    requires outer < inner && outer in disk && inner in disk
    ensures |Successes(disk, [inner, outer])| == 2 && |Successes(disk, [outer, inner])| == 1
    ensures WithoutAll(disk, Elements([inner, outer])) == WithoutAll(disk, Elements([outer, inner]))
  {
    assert Succeeds(disk, [inner, outer], 0) && Succeeds(disk, [inner, outer], 1);
    assert Successes(disk, [inner, outer]) == {0, 1};
    assert [outer, inner][0] <= [outer, inner][1];
    assert Succeeds(disk, [outer, inner], 0) && !Succeeds(disk, [outer, inner], 1);
    assert Successes(disk, [outer, inner]) == {0};
    assert Elements([inner, outer]) == Elements([outer, inner]);
  }

  lemma ElementsConcat(s: seq<Path>, t: seq<Path>)
    ensures Elements(s + t) == Elements(s) + Elements(t)
  {
  }

  lemma DistinctConcat(s: seq<Path>, t: seq<Path>)
    requires Distinct(s) && Distinct(t) && Elements(s) !! Elements(t)
    ensures Distinct(s + t)
  {
    forall i, j | 0 <= i < |s| && 0 <= j < |t| ensures s[i] != t[j] {
      assert s[i] in Elements(s) && t[j] in Elements(t);
    }
  }

  lemma WithoutMore(disk: map<Path, Kind>, roots: set<Path>, more: set<Path>)
    ensures WithoutAll(WithoutAll(disk, roots), more) == WithoutAll(disk, roots + more)
  {
  }

  /** The successes of a second round, counted on what the first one left. */
  lemma {:induction false} SuccessesConcat(disk: map<Path, Kind>, order: seq<Path>, part: seq<Path>)
    ensures |Successes(disk, order + part)| ==
              |Successes(disk, order)| + |Successes(WithoutAll(disk, Elements(order)), part)|
    decreases |part|
  {
    if part == [] {
      assert order + part == order;
      assert Successes(WithoutAll(disk, Elements(order)), part) == {};
    } else {
      var prior, p := part[..|part| - 1], part[|part| - 1];
      var now := WithoutAll(disk, Elements(order));
      assert part == prior + [p] && order + part == (order + prior) + [p];
      SuccessesConcat(disk, order, prior);
      OneMoreAttempt(disk, order + prior, p);
      OneMoreAttempt(now, prior, p);
      ElementsConcat(order, prior);
      WithoutMore(disk, Elements(order), Elements(prior));
    }
  }

  /**
   * These deletions, in this order, have turned one disk into the other, and n of them succeeded: what is
   * left is the disk without the subtrees at their paths.
   */
  ghost predicate Wiped(before: map<Path, Kind>, now: map<Path, Kind>, order: seq<Path>, n: nat) {
    && Distinct(order)
    && now == WithoutAll(before, Elements(order)) && IsTree(now)
    && n == |Successes(before, order)|
  }

  lemma NothingWiped(disk: map<Path, Kind>)
    requires IsTree(disk)
    ensures Wiped(disk, disk, [], 0)
  {
    assert WithoutAll(disk, {}) == disk && Successes(disk, []) == {};
  }

  lemma WipedNext(before: map<Path, Kind>, now: map<Path, Kind>, order: seq<Path>, n: nat, p: Path)
    requires Wiped(before, now, order, n) && p !in Elements(order)
    ensures Wiped(before, Without(now, p), order + [p], n + if p in now then 1 else 0)
    ensures Elements(order + [p]) == Elements(order) + {p}
  {
    OneMoreAttempt(before, order, p);
    WithoutOneMore(before, Elements(order), p);
    WithoutOneMore(now, {}, p);
    WithoutKeepsTree(now, {p});
    assert Without(now, p) == WithoutAll(now, {p});
    ElementsSnoc(order, p);
    assert p !in order;
  }

  lemma WipedConcat(
      before: map<Path, Kind>, mid: map<Path, Kind>, now: map<Path, Kind>, order: seq<Path>, part: seq<Path>, n: nat,
      m: nat)
    requires Wiped(before, mid, order, n) && Wiped(mid, now, part, m) && Elements(order) !! Elements(part)
    ensures Wiped(before, now, order + part, n + m)
    ensures Elements(order + part) == Elements(order) + Elements(part)
  {
    SuccessesConcat(before, order, part);
    WithoutMore(before, Elements(order), Elements(part));
    ElementsConcat(order, part);
    DistinctConcat(order, part);
  }

  /** No more deletions succeed than there are paths to delete. */
  lemma NoMoreSuccesses(disk: map<Path, Kind>, order: seq<Path>)
    requires Distinct(order)
    ensures |Successes(disk, order)| <= |Elements(order)|
  {
    SuccessesAtMost(disk, order);
    DistinctSize(order);
  }

  lemma {:induction false} SuccessesAtMost(disk: map<Path, Kind>, order: seq<Path>)
    ensures |Successes(disk, order)| <= |order|
  {
    if order == [] {
      assert Successes(disk, order) == {};
    } else {
      var prior, last := order[..|order| - 1], order[|order| - 1];
      assert order == prior + [last];
      SuccessesAtMost(disk, prior);
      OneMoreAttempt(disk, prior, last);
    }
  }

  lemma {:induction false} DistinctSize(order: seq<Path>)
    requires Distinct(order)
    ensures |Elements(order)| == |order|
  {
    if order != [] {
      var prior, last := order[..|order| - 1], order[|order| - 1];
      assert order == prior + [last];
      DistinctSize(prior);
      ElementsSnoc(prior, last);
    }
  }

  ghost predicate Splits(all: set<Path>, done: set<Path>, left: set<Path>) {
    done !! left && done + left == all
  }

  lemma SplitsNext(all: set<Path>, done: set<Path>, left: set<Path>, some: set<Path>)
    requires Splits(all, done, left) && some <= left
    ensures done !! some && Splits(all, done + some, left - some)
    ensures |left| == |left - some| + |some|
  {
    assert left == (left - some) + some;
  }

  method TakeSome(all: set<Path>, count: nat) returns (some: set<Path>)
    ensures some <= all && |some| == Min(count, |all|)
  {
    some := {};
    var left := all;
    while left != {} && |some| < count
      invariant some !! left && some + left == all && |some| <= count
      decreases left
    {
      var p :| p in left;
      some, left := some + {p}, left - {p};
    }
    assert |all| == |some| + |left|;
  }

  /** What the gather queues for a wipe. */
  ghost function ToWipe(files: seq<FileRow>, user: UserId, userExists: bool, batchSize: nat): set<Path> {
    if userExists then Gathered(Owned(files, user), Exclusive(files, user), batchSize) else {}
  }

  /** Another user's path is never queued itself, so it goes exactly when a queued directory lies above it. */
  lemma OthersGoBelowOnly(
      disk: map<Path, Kind>, files: seq<FileRow>, user: UserId, userExists: bool, batchSize: nat, r: FileRow)
    requires batchSize >= 2 && r in files && r.owner != user && r.path in disk
    ensures r.path in WithoutAll(disk, ToWipe(files, user, userExists, batchSize)) <==>
              !exists p :: p in ToWipe(files, user, userExists, batchSize) && p < r.path
  {
    GathersExclusive(files, user, batchSize);
    forall p | p in ToWipe(files, user, userExists, batchSize) ensures p <= r.path <==> p < r.path {
      assert p != r.path;
    }
  }

  /** Nothing exclusive is left when the gather meets no wide gap. */
  lemma ExclusiveGoes(disk: map<Path, Kind>, files: seq<FileRow>, user: UserId, batchSize: nat, p: Path)
    requires batchSize >= 2
    requires FileRow(user, p) in files && forall r | r in files && r.path == p :: r.owner == user
    requires !HasWideGap(Owned(files, user), Exclusive(files, user), batchSize)
    ensures p !in WithoutAll(disk, ToWipe(files, user, true, batchSize))
  {
    GathersExclusive(files, user, batchSize);
    assert p <= p;
  }

  class Wiper {
    /** The Redis set of paths to delete. */
    var queued: set<Path>
    var disk: map<Path, Kind>

    /**
     * gatherCNodeUserDataToDelete. lowest stands for the single space, which no stored path sorts below.
     * It ends for every page size of at least two.
     */
    method GatherCNodeUserDataToDelete(
        files: seq<FileRow>, user: UserId, userExists: bool, batchSize: nat, lowest: Path, le: (Path, Path) -> bool)
      returns (n: nat)
      requires IsOrder(le) && Indexed(files, le) && batchSize >= 2
      requires forall r | r in files :: le(lowest, r.path)
      modifies this`queued
      ensures n == |queued|
      ensures queued == ToWipe(files, user, userExists, batchSize)
    {
      queued := {};
      if !userExists {
        return 0;
      }
      ghost var s, keep := Owned(files, user), Exclusive(files, user);
      ghost var reached := ReachedIn(s, keep, batchSize);
      ReachedFollowsPages(s, keep, batchSize);
      OwnedIsAscending(files, user, le);
      AscendingIsGrouped(s, keep, le);
      if s != [] {
        OwnedIffRow(files, user, s[0]);
      }
      var prevStoragePath, filePaths, numFilesAdded := lowest, [], 0;
      ghost var c: nat, done: nat := 0, 0;
      var more := true;
      while more
        invariant At(s, keep, reached, queued, done, c) && CursorAt(s, prevStoragePath, le, c)
        invariant !more ==> NoMoreReached(s, keep, reached, done)
        decreases |keep - queued|, more
      {
        filePaths := GetCNodeUserFilesFromDb(files, user, prevStoragePath, batchSize, le);
        var found := Elements(filePaths);
        AddingGrows(keep, queued, found);
        ghost var page := Limit(s[c..], batchSize);
        LimitIsPage(s, c, batchSize);
        ghost var e := OnlyIsFound(page, keep);
        c, done := PageStep(s, keep, batchSize, reached, queued, done, c, page, e, filePaths);
        if filePaths != [] {
          FromPosition(s, c, le);
          numFilesAdded := |found - queued|;
          queued := queued + found;
          prevStoragePath := filePaths[|filePaths| - 1];
        } else {
          numFilesAdded := 0;
          assert queued + found == queued;
        }
        more := |filePaths| == batchSize || numFilesAdded > 0;
      }
      ProgressIsGathered(s, keep, batchSize, queued, done);
      n := |queued|;
    }

    /** deleteFileOrDir: the subtree at p goes, or p is not there and nothing changes. */
    method DeleteFileOrDir(p: Path) returns (ok: bool)
      requires IsTree(disk)
      modifies this`disk
      ensures ok <==> p in old(disk)
      ensures disk == Without(old(disk), p) && IsTree(disk)
      decreases |Below(disk, p)|
    {
      if p !in disk {
        MissingChangesNothing(disk, p);
        return false;
      }
      if disk[p].File? {
        NothingBelowAFile(disk, p);
        Unlink(p);
        return true;
      }
      ghost var before := disk;
      var files := Children(disk, p);
      ghost var gone: set<Path> := {};
      assert WithoutAll(disk, {}) == disk;
      while files != {}
        invariant gone !! files && gone + files == Children(before, p)
        invariant disk == WithoutAll(before, gone) && IsTree(disk)
        decreases files
      {
        var childPath :| childPath in files;
        ChildIsSmaller(before, disk, p, childPath);
        WithoutOneMore(before, gone, childPath);
        ChildSurvives(before, p, gone, childPath);
        if disk[childPath].Dir? {
          var _ := DeleteFileOrDir(childPath);
        } else {
          NothingBelowAFile(disk, childPath);
          Unlink(childPath);
        }
        gone, files := gone + {childPath}, files - {childPath};
      }
      OnlyTheDirectoryIsLeft(before, p);
      Rmdir(p);
      ok := true;
    }

    method Rmdir(p: Path)
      requires p in disk && Children(disk, p) == {}
      modifies this`disk
      ensures disk == old(disk) - {p}
    {
      disk := disk - {p};
    }

    method Unlink(p: Path)
      requires p in disk
      modifies this`disk
      ensures disk == old(disk) - {p}
    {
      disk := disk - {p};
    }

    /** The concurrent deletions of one chunk, in whatever order they happen. */
    method DeleteChunk(chunk: set<Path>) returns (fulfilled: nat, ghost order: seq<Path>)
      requires IsTree(disk)
      modifies this`disk
      ensures Wiped(old(disk), disk, order, fulfilled) && Elements(order) == chunk
    {
      fulfilled, order := 0, [];
      NothingWiped(disk);
      var left := chunk;
      while left != {}
        invariant Splits(chunk, Elements(order), left)
        invariant Wiped(old(disk), disk, order, fulfilled)
        decreases |left|
      {
        var storagePath :| storagePath in left;
        SplitsNext(chunk, Elements(order), left, {storagePath});
        WipedNext(old(disk), disk, order, fulfilled, storagePath);
        var ok := DeleteFileOrDir(storagePath);
        if ok {
          fulfilled := fulfilled + 1;
        }
        order, left := order + [storagePath], left - {storagePath};
      }
    }

    /**
     * batchDeleteFileOrDir: chunk after chunk. order is the order in which the deletions happen, and the
     * result counts those that succeed.
     */
    method BatchDeleteFileOrDir(storagePaths: set<Path>, batchSize: nat)
      returns (numFilesDeleted: nat, ghost order: seq<Path>)
      requires IsTree(disk) && batchSize > 0
      modifies this`disk
      ensures Wiped(old(disk), disk, order, numFilesDeleted) && Elements(order) == storagePaths
    {
      numFilesDeleted, order := 0, [];
      NothingWiped(disk);
      var left := storagePaths;
      while left != {}
        invariant Splits(storagePaths, Elements(order), left)
        invariant Wiped(old(disk), disk, order, numFilesDeleted)
        decreases |left|
      {
        var chunk := TakeSome(left, batchSize);
        ghost var now := disk;
        var n; ghost var part;
        n, part := DeleteChunk(chunk);
        SplitsNext(storagePaths, Elements(order), left, chunk);
        WipedConcat(old(disk), now, disk, order, part, numFilesDeleted, n);
        numFilesDeleted, order, left := numFilesDeleted + n, order + part, left - chunk;
      }
    }

    /** spop: up to count members, whichever Redis picks. */
    method Spop(count: nat) returns (popped: set<Path>)
      modifies this`queued
      ensures popped <= old(queued) && queued == old(queued) - popped
      ensures |popped| == Min(count, |old(queued)|)
    {
      popped := TakeSome(queued, count);
      queued := queued - popped;
    }

    /**
     * deleteAllCNodeUserDataFromDisk, with FILES_PER_REDIS_QUERY and FILES_PER_DELETION_BATCH as
     * parameters. Given the number the gather returned, it attempts every queued path exactly once; the
     * disk loses exactly the subtrees at those paths; the result counts the deletions that succeeded.
     */
    method DeleteAllCNodeUserDataFromDisk(numFilesToDelete: nat, perQuery: nat, perBatch: nat)
      returns (numFilesDeleted: nat, ghost order: seq<Path>)
      requires IsTree(disk) && perQuery > 0 && perBatch > 0
      modifies this
      ensures queued == {}
      ensures Wiped(old(disk), disk, order, numFilesDeleted)
      ensures Elements(order) <= old(queued)
      ensures numFilesToDelete >= |old(queued)| ==> Elements(order) == old(queued)
    {
      numFilesDeleted, order := 0, [];
      var i := 0;
      NothingWiped(disk);
      while i < numFilesToDelete
        invariant Splits(old(queued), Elements(order), queued)
        invariant i + |queued| <= |old(queued)| || queued == {}
        invariant Wiped(old(disk), disk, order, numFilesDeleted)
        decreases numFilesToDelete - i
      {
        ghost var before := queued;
        var filePathsToDelete := Spop(perQuery);
        SplitsNext(old(queued), Elements(order), before, filePathsToDelete);
        if filePathsToDelete == {} {
          break;
        }
        ghost var now := disk;
        var n; ghost var part;
        n, part := BatchDeleteFileOrDir(filePathsToDelete, perBatch);
        WipedConcat(old(disk), now, disk, order, part, numFilesDeleted, n);
        numFilesDeleted, order := numFilesDeleted + n, order + part;
        i := i + perQuery;
      }
      queued := {};
    }

    /**
     * The wipe of a user in a sync: gather, delete from the database, delete from disk. The disk loses just what
     * was gathered and what lies below it: of another user's paths those below a gathered directory, and of the
     * user's own exclusive ones all when there is no wide gap. When the database keeps the user, so does the disk.
     */
    method WipeUser(
        files: seq<FileRow>, user: UserId, userExists: bool, batchSize: nat, lowest: Path, le: (Path, Path) -> bool,
        deletedFromDb: bool, perQuery: nat, perBatch: nat)
      returns (numFilesToDelete: nat, numFilesDeleted: nat)
      requires IsOrder(le) && Indexed(files, le) && batchSize >= 2
      requires forall r | r in files :: le(lowest, r.path)
      requires IsTree(disk) && perQuery > 0 && perBatch > 0
      modifies this
      ensures queued == {} && numFilesDeleted <= numFilesToDelete
      ensures !deletedFromDb ==> disk == old(disk)
      ensures deletedFromDb ==> disk == WithoutAll(old(disk), ToWipe(files, user, userExists, batchSize))
      ensures deletedFromDb ==> forall r | r in files && r.owner != user && r.path in old(disk) ::
                r.path in disk <==> !exists p :: p in ToWipe(files, user, userExists, batchSize) && p < r.path
      ensures deletedFromDb && userExists && !HasWideGap(Owned(files, user), Exclusive(files, user), batchSize) ==>
                forall r | r in files && r.owner == user && (forall q | q in files && q.path == r.path :: q.owner == user) ::
                  r.path !in disk
    {
      ghost var before := disk;
      numFilesToDelete := GatherCNodeUserDataToDelete(files, user, userExists, batchSize, lowest, le);
      if !deletedFromDb {
        ClearFilePathsToDelete();
        return numFilesToDelete, 0;
      }
      ghost var order;
      numFilesDeleted, order := DeleteAllCNodeUserDataFromDisk(numFilesToDelete, perQuery, perBatch);
      NoMoreSuccesses(before, order);
      forall r | r in files && r.owner != user && r.path in before
        ensures r.path in disk <==> !exists p :: p in ToWipe(files, user, userExists, batchSize) && p < r.path
      {
        OthersGoBelowOnly(before, files, user, userExists, batchSize, r);
      }
      if userExists && !HasWideGap(Owned(files, user), Exclusive(files, user), batchSize) {
        forall r | r in files && r.owner == user && (forall q | q in files && q.path == r.path :: q.owner == user)
          ensures r.path !in disk
        {
          ExclusiveGoes(before, files, user, batchSize, r.path);
        }
      }
    }

    method ClearFilePathsToDelete()
      modifies this`queued
      ensures queued == {}
    {
      queued := {};
    }
  }
}

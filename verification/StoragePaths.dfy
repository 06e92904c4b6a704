// Where files live on disk: creator-node/src/utils/fsUtils.ts, the CID expression of
// creator-node/src/diskManager.ts, and the LIKE patterns of creator-node/src/dbManager.js.
module StoragePaths {
  import opened Wrappers

  type Path = string

  /** The storagePath setting; the queries below have it written out. */
  const STORAGE_ROOT := "/file_storage"

  // ---------- SQL ----------

  /** s LIKE prefix%, where an underscore in the pattern stands for any character. */
  predicate LikePrefix(prefix: string, s: string) {
    |prefix| <= |s| && forall i | 0 <= i < |prefix| :: prefix[i] == '_' || prefix[i] == s[i]
  }

  predicate IsLegacy(p: Path) {
    !LikePrefix("/file_storage/files/", p) && LikePrefix("/file_storage/", p)
  }

  // ---------- CIDs in a path ----------

  predicate IsAlphanumeric(c: char) {
    'a' <= c <= 'z' || 'A' <= c <= 'Z' || '0' <= c <= '9'
  }

  const CID_LENGTH := 46

  /** Qm[a-zA-Z0-9]{44} matches at position i. */
  predicate CidAt(s: string, i: nat) {
    && i + CID_LENGTH <= |s|
    && s[i] == 'Q' && s[i + 1] == 'm'
    && forall k | i + 2 <= k < i + CID_LENGTH :: IsAlphanumeric(s[k])
  }

  function FirstSlashCid(s: string, i: nat): (r: Option<nat>)
    ensures r.Some? ==> i <= r.value < |s| && s[r.value] == '/' && CidAt(s, r.value + 1)
    decreases |s| - i
  {
    if i >= |s| then None
    else if s[i] == '/' && CidAt(s, i + 1) then Some(i)
    else FirstSlashCid(s, i + 1)
  }

  datatype Cids = Cids(outer: string, inner: Option<string>)

  /** extractCIDsFromFSPath: the first outer CID, and an inner one right after it or after one slash. */
  function ExtractCids(s: string): Option<Cids> {
    match FirstSlashCid(s, 0)
    case None => None
    case Some(i) =>
      var j := i + 1 + CID_LENGTH;
      var k := if j < |s| && s[j] == '/' then j + 1 else j;
      Some(Cids(s[i + 1..j], if CidAt(s, k) then Some(s[k..k + CID_LENGTH]) else None))
  }

  predicate IsBase58(c: char) {
    IsAlphanumeric(c) && c != '0' && c != 'O' && c != 'I' && c != 'l'
  }

  /** What the CID library accepts among the strings the expression matches. */
  predicate ValidCid(c: string) {
    |c| == CID_LENGTH && c[0] == 'Q' && c[1] == 'm' && forall i | 0 <= i < |c| :: IsBase58(c[i])
  }

  // ---------- Standard locations ----------

  function ComputeFilePath(cid: string): Path
    requires |cid| >= 4
  {
    STORAGE_ROOT + "/files/" + cid[|cid| - 4..|cid| - 1] + "/" + cid
  }

  function ComputeFilePathInDir(dir: string, name: string): Path
    requires |dir| >= 4
  {
    ComputeFilePath(dir) + "/" + name
  }

  /**
   * The path fetchFileFromNetworkAndSaveToFS computes, with "" for an absent argument; None where it
   * throws on an invalid CID.
   */
  function StorageLocation(multihash: string, dirCid: string, fileNameForImage: string): Option<Path> {
    if dirCid != "" && fileNameForImage != "" then
      if ValidCid(dirCid) && ValidCid(multihash) then Some(ComputeFilePathInDir(dirCid, multihash)) else None
    else if ValidCid(multihash) then Some(ComputeFilePath(multihash))
    else None
  }

  /** Where the migration copies the file of a legacy path; None where the code throws. */
  function Target(legacy: Path): Option<Path> {
    match ExtractCids(legacy)
    case None => None
    case Some(c) =>
      if !ValidCid(c.outer) then None
      else
        match c.inner
        case None => Some(ComputeFilePath(c.outer))
        case Some(inner) => if ValidCid(inner) then Some(ComputeFilePathInDir(c.outer, inner)) else None
  }

  /** The last component, which the sweep takes for a CID. */
  function Leaf(p: Path): string
    decreases |p|
  {
    if p == "" || p[|p| - 1] == '/' then "" else Leaf(p[..|p| - 1]) + [p[|p| - 1]]
  }

  /** The sweep lists only what lies below the files directory. */
  predicate InFilesDirectory(p: Path) { STORAGE_ROOT + "/files/" <= p }

  // ---------- Lemmas ----------

  lemma InFilesDirectoryIsNotLegacy(p: Path)
    requires InFilesDirectory(p)
    ensures !IsLegacy(p)
  {
    var prefix := "/file_storage/files/";
    assert STORAGE_ROOT + "/files/" == prefix;
    assert p[..|prefix|] == prefix;
    assert forall i | 0 <= i < |prefix| :: p[i] == p[..|prefix|][i];
    assert LikePrefix(prefix, p);
  }

  lemma StorageLocationIsInFilesDirectory(multihash: string, dirCid: string, fileNameForImage: string)
    requires StorageLocation(multihash, dirCid, fileNameForImage).Some?
    ensures InFilesDirectory(StorageLocation(multihash, dirCid, fileNameForImage).value)
  {
  }

  /** An underscore of the pattern is any character; a path below the files directory is not legacy. */
  lemma IsLegacyExactly(p: Path)
    ensures IsLegacy(p) <==>
              && |p| >= 14 && p[..5] == "/file" && p[6..14] == "storage/"
              && !(|p| >= 20 && p[14..20] == "files/")
  {
    assert "/file_storage/" == "/file" + "_" + "storage/";
    LikeInParts("/file", "storage/", p);
    assert "/file_storage/files/" == "/file_storage/" + "files/";
    if |p| >= 14 {
      LikeConcat("/file_storage/", "files/", p);
      LikeExactly("files/", p[14..]);
      assert |p| >= 20 ==> p[14..][..6] == p[14..20];
    }
  }

  lemma LikeConcat(a: string, b: string, p: Path)
    requires |p| >= |a|
    ensures LikePrefix(a + b, p) <==> LikePrefix(a, p) && LikePrefix(b, p[|a|..])
  {
    var t := a + b;
    assert forall i | 0 <= i < |a| :: t[i] == a[i];
    if |p| >= |t| {
      forall i | 0 <= i < |b| ensures t[|a| + i] == b[i] && p[|a| + i] == p[|a|..][i] {
      }
      assert LikePrefix(b, p[|a|..]) ==> forall i | |a| <= i < |t| :: t[i] == '_' || t[i] == p[|a|..][i - |a|];
    }
  }

  /** Without an underscore the pattern is a prefix. */
  lemma LikeExactly(a: string, p: Path)
    requires '_' !in a
    ensures LikePrefix(a, p) <==> |p| >= |a| && p[..|a|] == a
  {
    assert forall i | 0 <= i < |a| :: a[i] in a;
    if |p| >= |a| && p[..|a|] == a {
      assert forall i | 0 <= i < |a| :: p[i] == p[..|a|][i];
    }
  }

  lemma LikeInParts(a: string, b: string, p: Path)
    requires '_' !in a && '_' !in b
    ensures LikePrefix(a + "_" + b, p) <==>
              |p| >= |a| + 1 + |b| && p[..|a|] == a && p[|a| + 1..|a| + 1 + |b|] == b
  {
    if |p| >= |a| + 1 {
      LikeConcat(a + "_", b, p);
      LikeConcat(a, "_", p);
      LikeExactly(a, p);
      LikeExactly(b, p[|a| + 1..]);
      assert |p| >= |a| + 1 + |b| ==> p[|a| + 1..][..|b|] == p[|a| + 1..|a| + 1 + |b|];
    }
  }

  /** Qm and 44 letters or digits stand at position i. */
  ghost predicate QmAt(p: Path, i: nat) {
    && i + 46 <= |p| && p[i..i + 2] == "Qm"
    && forall k | i + 2 <= k < i + 46 :: 'a' <= p[k] <= 'z' || 'A' <= p[k] <= 'Z' || '0' <= p[k] <= '9'
  }

  ghost predicate SlashQmAt(p: Path, i: nat) { i < |p| && p[i] == '/' && QmAt(p, i + 1) }

  lemma {:induction false} PassedOver(p: Path, i: nat, h: nat)
    requires i <= h < |p| && (FirstSlashCid(p, i).Some? ==> h < FirstSlashCid(p, i).value)
    ensures !(p[h] == '/' && CidAt(p, h + 1))
    decreases |p| - i
  {
    if i < h {
      PassedOver(p, i + 1, h);
    }
  }

  lemma FirstSlashCidIsLeftmost(p: Path)
    ensures FirstSlashCid(p, 0).None? ==> forall h: nat :: !SlashQmAt(p, h)
    ensures FirstSlashCid(p, 0).Some? ==>
              && SlashQmAt(p, FirstSlashCid(p, 0).value)
              && forall h | 0 <= h < FirstSlashCid(p, 0).value :: !SlashQmAt(p, h)
  {
    if FirstSlashCid(p, 0).Some? {
      CidAtExactly(p, FirstSlashCid(p, 0).value + 1);
    }
    forall h: nat | h < |p| && (FirstSlashCid(p, 0).Some? ==> h < FirstSlashCid(p, 0).value)
      ensures !SlashQmAt(p, h)
    {
      PassedOver(p, 0, h);
      CidAtExactly(p, h + 1);
    }
  }

  lemma CidAtExactly(p: Path, i: nat)
    ensures CidAt(p, i) <==> QmAt(p, i)
  {
    if i + 46 <= |p| {
      assert p[i..i + 2] == [p[i], p[i + 1]];
    }
  }

  /** The CIDs that are found from a slash on: an inner one follows the outer, or follows one slash more. */
  ghost function CidsFrom(p: Path, i: nat): Cids
    requires SlashQmAt(p, i)
  {
    Cids(p[i + 1..i + 47],
      if QmAt(p, i + 47) then Some(p[i + 47..i + 93])
      else if SlashQmAt(p, i + 47) then Some(p[i + 48..i + 94])
      else None)
  }

  lemma ExtractsFrom(p: Path, i: nat)
    requires SlashQmAt(p, i) && FirstSlashCid(p, 0) == Some(i)
    ensures ExtractCids(p) == Some(CidsFrom(p, i))
  {
    CidAtExactly(p, i + 47);
    CidAtExactly(p, i + 48);
  }

  /** The outer CID is the leftmost one behind a slash, and there is none only if there is no such text at all. */
  lemma ExtractsTheLeftmost(p: Path)
    ensures ExtractCids(p).None? <==> forall i: nat :: !SlashQmAt(p, i)
    ensures forall i: nat | SlashQmAt(p, i) && (forall h | 0 <= h < i :: !SlashQmAt(p, h)) ::
              ExtractCids(p) == Some(CidsFrom(p, i))
  {
    FirstSlashCidIsLeftmost(p);
    forall i: nat | SlashQmAt(p, i) && (forall h | 0 <= h < i :: !SlashQmAt(p, h))
      ensures ExtractCids(p) == Some(CidsFrom(p, i))
    {
      ExtractsFrom(p, i);
    }
  }

  /** Qm and 44 more characters, none of them a zero, a capital I or O, or a small L. */
  lemma ValidCidExactly(c: string)
    ensures ValidCid(c) <==>
              && |c| == 46 && c[..2] == "Qm"
              && forall x | x in c ::
                   || '1' <= x <= '9'
                   || ('A' <= x <= 'Z' && x != 'I' && x != 'O')
                   || ('a' <= x <= 'z' && x != 'l')
  {
    if |c| >= 2 {
      assert c[..2] == "Qm" <==> c[0] == 'Q' && c[1] == 'm';
    }
    assert forall i | 0 <= i < |c| :: c[i] in c;
  }

  /**
   * Where a fetched file is stored: below the three characters before the last one of its directory's CID if both
   * a directory and a name are given, and of its own otherwise.
   */
  lemma StorageLocationExactly(multihash: string, dirCid: string, fileNameForImage: string)
    ensures var inDir := dirCid != "" && fileNameForImage != "";
            StorageLocation(multihash, dirCid, fileNameForImage) ==
            if !ValidCid(multihash) || (inDir && !ValidCid(dirCid)) then None
            else if inDir then Some("/file_storage/files/" + dirCid[42..45] + "/" + dirCid + "/" + multihash)
            else Some("/file_storage/files/" + multihash[42..45] + "/" + multihash)
  {
    if ValidCid(multihash) {
      StandardPath(multihash);
    }
    if ValidCid(dirCid) {
      StandardPath(dirCid);
    }
  }

  lemma StandardPath(cid: string)
    requires ValidCid(cid)
    ensures ComputeFilePath(cid) == "/file_storage/files/" + cid[42..45] + "/" + cid
  {
    assert STORAGE_ROOT + "/files/" == "/file_storage/files/";
  }

  lemma TargetIsNotLegacy(p: Path)
    requires Target(p).Some?
    ensures InFilesDirectory(Target(p).value) && !IsLegacy(Target(p).value) && "/file_storage/files/" <= Target(p).value
  {
    InFilesDirectoryIsNotLegacy(Target(p).value);
  }

  lemma {:induction false} LeafAfterSlash(a: string, b: string)
    requires '/' !in b
    ensures Leaf(a + "/" + b) == b
    decreases |b|
  {
    var p := a + "/" + b;
    if b != "" {
      var c := b[..|b| - 1];
      assert p[..|p| - 1] == a + "/" + c;
      assert '/' !in c by {
        assert forall x | x in c :: x in b;
      }
      LeafAfterSlash(a, c);
      assert b[|b| - 1] in b;
    }
  }

  lemma ValidCidHasNoSlash(c: string)
    requires ValidCid(c)
    ensures '/' !in c && CidAt(c, 0)
  {
  }

  lemma CidInside(a: string, c: string, b: string)
    requires ValidCid(c)
    ensures CidAt(a + c + b, |a|) && (a + c + b)[|a|..|a| + CID_LENGTH] == c
  {
    var s := a + c + b;
    assert forall k | 0 <= k < |c| :: s[|a| + k] == c[k];
    assert forall k | |a| <= k < |a| + CID_LENGTH :: s[k] == c[k - |a|];
  }

  /** No CID of the storage root comes before the one that follows it. */
  lemma FirstCidAfterRoot(c: string, b: string)
    requires ValidCid(c)
    ensures FirstSlashCid(STORAGE_ROOT + "/" + c + b, 0) == Some(|STORAGE_ROOT|)
  {
    var s := STORAGE_ROOT + "/" + c + b;
    CidInside(STORAGE_ROOT + "/", c, b);
    assert s[..14] == "/file_storage/";
    forall i | 0 <= i < |STORAGE_ROOT| ensures !(s[i] == '/' && CidAt(s, i + 1)) {
      assert s[i] == s[..14][i] && s[i + 1] == s[..14][i + 1];
    }
    FirstFrom(s, 0, |STORAGE_ROOT|);
  }

  lemma {:induction false} FirstFrom(s: string, i: nat, n: nat)
    requires i <= n < |s| && s[n] == '/' && CidAt(s, n + 1)
    requires forall k | i <= k < n :: !(s[k] == '/' && CidAt(s, k + 1))
    ensures FirstSlashCid(s, i) == Some(n)
    decreases n - i
  {
    if i < n {
      FirstFrom(s, i + 1, n);
    }
  }

  /** A file of this CID directly below the root is at a legacy path. */
  lemma RootPathIsLegacy(cid: string)
    requires ValidCid(cid)
    ensures IsLegacy(STORAGE_ROOT + "/" + cid)
  {
    var p := STORAGE_ROOT + "/" + cid;
    assert STORAGE_ROOT + "/" == "/file_storage/";
    assert p == "/file_storage/" + cid;
    assert p[14] == cid[0] == 'Q';
    assert "/file_storage/files/"[14] == 'f';
  }

  /** A file directly below the root moves to the standard place for its CID, */
  lemma TargetOfLegacyFile(cid: string)
    requires ValidCid(cid)
    ensures Target(STORAGE_ROOT + "/" + cid) == Some(ComputeFilePath(cid))
    ensures ComputeFilePath(cid) == "/file_storage/files/" + cid[42..45] + "/" + cid
    ensures Leaf(STORAGE_ROOT + "/" + cid) == cid == Leaf(ComputeFilePath(cid))
  {
    var s := STORAGE_ROOT + "/" + cid;
    assert s == s + "";
    StandardPath(cid);
    FirstCidAfterRoot(cid, "");
    CidInside(STORAGE_ROOT + "/", cid, "");
    assert ExtractCids(s) == Some(Cids(cid, None));
    ValidCidHasNoSlash(cid);
    LeafAfterSlash(STORAGE_ROOT, cid);
    LeafAfterSlash(STORAGE_ROOT + "/files/" + cid[|cid| - 4..|cid| - 1], cid);
  }

  lemma FirstInDir(s: Path, root: string, dir: string, cid: string)
    requires ValidCid(dir) && ValidCid(cid) && s == root + "/" + dir + "/" + cid
    requires FirstSlashCid(s, 0) == Some(|root|)
    ensures ExtractCids(s) == Some(Cids(dir, Some(cid)))
  {
    assert s == (root + "/") + dir + ("/" + cid);
    CidInside(root + "/", dir, "/" + cid);
    var before := root + "/" + dir + "/";
    assert s == before + cid + "";
    CidInside(before, cid, "");
    assert s[|before| - 1] == '/';
  }

  lemma ExtractsInDir(dir: string, cid: string)
    requires ValidCid(dir) && ValidCid(cid)
    ensures ExtractCids(STORAGE_ROOT + "/" + dir + "/" + cid) == Some(Cids(dir, Some(cid)))
  {
    var s := STORAGE_ROOT + "/" + dir + "/" + cid;
    assert s == STORAGE_ROOT + "/" + dir + ("/" + cid);
    FirstCidAfterRoot(dir, "/" + cid);
    FirstInDir(s, STORAGE_ROOT, dir, cid);
  }

  /** and a file inside a directory moves into that directory's standard place. */
  lemma TargetOfLegacyFileInDir(dir: string, cid: string)
    requires ValidCid(dir) && ValidCid(cid)
    ensures Target(STORAGE_ROOT + "/" + dir + "/" + cid) == Some(ComputeFilePathInDir(dir, cid))
    ensures ComputeFilePathInDir(dir, cid) == "/file_storage/files/" + dir[42..45] + "/" + dir + "/" + cid
    ensures Leaf(STORAGE_ROOT + "/" + dir + "/" + cid) == cid == Leaf(ComputeFilePathInDir(dir, cid))
  {
    StandardPath(dir);
    ExtractsInDir(dir, cid);
    ValidCidHasNoSlash(cid);
    LeafAfterSlash(STORAGE_ROOT + "/" + dir, cid);
    LeafAfterSlash(ComputeFilePath(dir), cid);
  }
}

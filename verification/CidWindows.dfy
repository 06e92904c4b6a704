// The CID windows that the legacy-path migration queries one after the other: _callFuncOnAllCidsPaginated
// of creator-node/src/diskManager.ts.
module CidWindows {
  import opened StoragePaths

  /** getCharsInRange */
  function CharsInRange(lo: char, hi: char): (r: seq<char>)
    requires lo <= hi <= 'z'
    ensures |r| == hi as int - lo as int + 1
    ensures forall c :: c in r <==> lo <= c <= hi
    ensures forall i | 0 <= i < |r| :: r[i] as int == lo as int + i
  {
    var r := seq(hi as int - lo as int + 1, i requires 0 <= i <= hi as int - lo as int => (lo as int + i) as char);
    forall c | lo <= c <= hi ensures c in r {
      assert r[c as int - lo as int] == c;
    }
    r
  }

  datatype Window = Window(minCid: string, maxCid: string)

  function Repeated(c: char, n: nat): string { seq(n, _ => c) }

  function WindowOf(char1: char, char2: char): Window {
    var prefix := "Qm" + [char1, char2];
    Window(prefix + Repeated('0', 43), prefix + Repeated('z', 42))
  }

  predicate First(c: char) { 'a' <= c <= 'z' }

  predicate Second(c: char) { 'a' <= c <= 'z' || '0' <= c <= '9' }

  /** The two nested loops: the windows func is called on, in order. */
  method CallFuncOnAllCidsPaginated() returns (calls: seq<Window>)
    ensures |calls| == 936
    ensures forall w :: w in calls <==> exists c, d :: First(c) && Second(d) && w == WindowOf(c, d)
    ensures forall w | w in calls :: |w.minCid| == 47 && |w.maxCid| == 46
    ensures Distinct(calls)
  {
    var firsts := CharsInRange('a', 'z');
    var seconds := CharsInRange('a', 'z') + CharsInRange('0', '9');
    calls := [];
    for i := 0 to |firsts|
      invariant |calls| == 36 * i && Distinct(calls)
      invariant forall w :: w in calls <==> CalledBy(firsts, seconds, i, 0, w)
    {
      for j := 0 to |seconds|
        invariant |calls| == 36 * i + j && Distinct(calls)
        invariant forall w :: w in calls <==> CalledBy(firsts, seconds, i, j, w)
      {
        NextCall(firsts, seconds, i, j);
        calls := calls + [WindowOf(firsts[i], seconds[j])];
      }
      RowDone(firsts, seconds, i);
    }
    assert forall c :: c in firsts <==> First(c);
    assert forall d :: d in seconds <==> Second(d);
    assert firsts[..|firsts|] == firsts;
  }

  ghost predicate Distinct(calls: seq<Window>) {
    forall i, j | 0 <= i < j < |calls| :: calls[i] != calls[j]
  }

  /** The window is one of those before the j-th call of the i-th round. */
  ghost predicate CalledBy(firsts: seq<char>, seconds: seq<char>, i: nat, j: nat, w: Window)
    requires i <= |firsts| && j <= |seconds|
  {
    || (exists c, d :: c in firsts[..i] && d in seconds && w == WindowOf(c, d))
    || (i < |firsts| && exists d :: d in seconds[..j] && w == WindowOf(firsts[i], d))
  }

  lemma NextCall(firsts: seq<char>, seconds: seq<char>, i: nat, j: nat)
    requires i < |firsts| && j < |seconds|
    requires forall k, l | 0 <= k < l < |firsts| :: firsts[k] != firsts[l]
    requires forall k, l | 0 <= k < l < |seconds| :: seconds[k] != seconds[l]
    ensures var w := WindowOf(firsts[i], seconds[j]);
            && !CalledBy(firsts, seconds, i, j, w)
            && forall v :: CalledBy(firsts, seconds, i, j + 1, v) <==> CalledBy(firsts, seconds, i, j, v) || v == w
  {
    var w := WindowOf(firsts[i], seconds[j]);
    assert firsts[i] !in firsts[..i] && seconds[j] !in seconds[..j];
    forall c, d | w == WindowOf(c, d) ensures c == firsts[i] && d == seconds[j] {
      if c != firsts[i] || d != seconds[j] {
        DistinctPrefixes(c, d, firsts[i], seconds[j]);
      }
    }
    assert seconds[..j + 1] == seconds[..j] + [seconds[j]];
  }

  lemma RowDone(firsts: seq<char>, seconds: seq<char>, i: nat)
    requires i < |firsts|
    ensures forall w :: CalledBy(firsts, seconds, i, |seconds|, w) <==> CalledBy(firsts, seconds, i + 1, 0, w)
  {
    assert firsts[..i + 1] == firsts[..i] + [firsts[i]];
    assert seconds[..|seconds|] == seconds;
    forall w | CalledBy(firsts, seconds, i, |seconds|, w) ensures CalledBy(firsts, seconds, i + 1, 0, w) {
      if exists d :: d in seconds && w == WindowOf(firsts[i], d) {
        assert firsts[i] in firsts[..i + 1];
      } else {
        var c, d :| c in firsts[..i] && d in seconds && w == WindowOf(c, d);
        assert c in firsts[..i + 1];
      }
    }
  }

  lemma DistinctPrefixes(c: char, d: char, e: char, f: char)
    requires c != e || d != f
    ensures WindowOf(c, d) != WindowOf(e, f)
  {
    assert WindowOf(c, d).minCid[2] == c && WindowOf(c, d).minCid[3] == d;
    assert WindowOf(e, f).minCid[2] == e && WindowOf(e, f).minCid[3] == f;
  }

  // ---------- multihash BETWEEN min AND max, compared byte by byte ----------

  predicate AtMost(s: string, t: string) {
    s == "" || (t != "" && (s[0] < t[0] || (s[0] == t[0] && AtMost(s[1..], t[1..]))))
  }

  predicate Between(s: string, w: Window) { AtMost(w.minCid, s) && AtMost(s, w.maxCid) }

  lemma {:induction false} SamePrefix(p: string, s: string, t: string)
    ensures AtMost(p + s, p + t) <==> AtMost(s, t)
  {
    if p == "" {
      assert p + s == s && p + t == t;
    } else {
      assert (p + s)[1..] == p[1..] + s && (p + t)[1..] == p[1..] + t;
      SamePrefix(p[1..], s, t);
    }
  }

  /** Strings whose prefixes of one length differ compare as the prefixes do. */
  lemma {:induction false} PrefixDecides(p: string, q: string, s: string, t: string)
    requires |p| == |q| && p != q
    ensures AtMost(p + s, q + t) <==> AtMost(p, q)
  {
    assert (p + s)[1..] == p[1..] + s && (q + t)[1..] == q[1..] + t;
    if p[0] == q[0] {
      assert p == [p[0]] + p[1..] && q == [q[0]] + q[1..];
      PrefixDecides(p[1..], q[1..], s, t);
    }
  }

  lemma {:induction false} AtMostBothWays(p: string, q: string)
    requires AtMost(p, q) && AtMost(q, p)
    ensures p == q
  {
    if p != "" {
      AtMostBothWays(p[1..], q[1..]);
      assert p == [p[0]] + p[1..] && q == [q[0]] + q[1..];
    }
  }

  lemma {:induction false} AtMostAllZ(s: string, n: nat)
    requires |s| <= n && forall c | c in s :: c <= 'z'
    ensures AtMost(s, Repeated('z', n))
  {
    if s != "" {
      assert Repeated('z', n)[1..] == Repeated('z', n - 1);
      assert s[0] in s && forall c | c in s[1..] :: c in s;
      AtMostAllZ(s[1..], n - 1);
    }
  }

  /** A CID lies in a window exactly when it starts with the four characters of its bounds. */
  lemma InWindowExactly(cid: string, char1: char, char2: char)
    requires ValidCid(cid)
    ensures Between(cid, WindowOf(char1, char2)) <==> cid[2] == char1 && cid[3] == char2
  {
    var p, q, rest := "Qm" + [char1, char2], cid[..4], cid[4..];
    assert cid == q + rest;
    assert q == "Qm" + [cid[2], cid[3]] by { assert cid[0] == 'Q' && cid[1] == 'm'; }
    if p == q {
      SamePrefix(p, Repeated('0', 43), rest);
      SamePrefix(p, rest, Repeated('z', 42));
      forall c | c in rest ensures '0' < c <= 'z' {
        var i :| 0 <= i < |rest| && rest[i] == c;
        assert IsBase58(cid[i + 4]);
      }
      assert rest[0] in rest;
      AtMostAllZ(rest, 42);
    } else {
      PrefixDecides(p, q, Repeated('0', 43), rest);
      PrefixDecides(q, p, rest, Repeated('z', 42));
      if AtMost(p, q) && AtMost(q, p) {
        AtMostBothWays(p, q);
      }
    }
    assert p == q <==> cid[2] == char1 && cid[3] == char2 by {
      assert p[2] == char1 && p[3] == char2 && q[2] == cid[2] && q[3] == cid[3];
    }
  }

  /**
   * Compared byte by byte, the windows are disjoint, and they reach just the CIDs whose third character is
   * a small letter and whose fourth is a small letter or a digit: CIDs with a capital there are never migrated.
   */
  lemma WindowsReachExactly(cid: string)
    requires ValidCid(cid)
    ensures (exists c, d :: First(c) && Second(d) && Between(cid, WindowOf(c, d))) <==> First(cid[2]) && Second(cid[3])
    ensures forall c, d, e, f | Between(cid, WindowOf(c, d)) && Between(cid, WindowOf(e, f)) :: c == e && d == f
  {
    forall c, d ensures Between(cid, WindowOf(c, d)) <==> cid[2] == c && cid[3] == d {
      InWindowExactly(cid, c, d);
    }
  }
}

// Canonical signed JSON: creator-node/src/apiSigning.ts sorts the keys and then prints;
// discovery-provider/src/api_helpers.py sorts while printing.
module ApiSigning {
  import opened Json
  import opened Wrappers

  // ---------- The two key orders ----------

  function CodeUnits(c: char): seq<nat> {
    var u := c as int;
    if u < 0x1_0000 then [u] else [0xD800 + (u - 0x1_0000) / 0x400, 0xDC00 + (u - 0x1_0000) % 0x400]
  }

  function Utf16(s: string): seq<nat> {
    if s == "" then [] else CodeUnits(s[0]) + Utf16(s[1..])
  }

  function CodePoints(s: string): seq<nat> {
    if s == "" then [] else [s[0] as int] + CodePoints(s[1..])
  }

  const MAX_ARRAY_INDEX := 4294967294

  /** The key is the decimal form of an array index. */
  predicate IsArrayIndex(k: string) {
    k != "" && AllDigits(k) && DigitsValue(k, 0) <= MAX_ARRAY_INDEX && k == Decimal(DigitsValue(k, 0))
  }

  predicate LexLess(xs: seq<nat>, ys: seq<nat>) {
    if ys == [] then false
    else if xs == [] then true
    else xs[0] < ys[0] || (xs[0] == ys[0] && LexLess(xs[1..], ys[1..]))
  }

  function PropertyRank(k: string): seq<nat> {
    if IsArrayIndex(k) then [0, DigitsValue(k, 0)] else [1] + Utf16(k)
  }

  /**
   * How a JavaScript object enumerates keys that were added in Array.prototype.sort order:
   * array indices first, by number, then the other keys by UTF-16 code units.
   */
  predicate PropertyLess(k: string, l: string) { LexLess(PropertyRank(k), PropertyRank(l)) }

  /** How Python compares strings. */
  predicate CodePointLess(k: string, l: string) { LexLess(CodePoints(k), CodePoints(l)) }

  type KeyOrder = (string, string) -> bool

  ghost predicate StrictTotal(less: KeyOrder) {
    && (forall k :: !less(k, k))
    && (forall k, l :: k != l ==> less(k, l) || less(l, k))
    && (forall k, l, m :: less(k, l) && less(l, m) ==> less(k, m))
  }

  lemma {:induction false} LexTransitive(xs: seq<nat>, ys: seq<nat>, zs: seq<nat>)
    requires LexLess(xs, ys) && LexLess(ys, zs)
    ensures LexLess(xs, zs)
  {
    if xs != [] && xs[0] == ys[0] == zs[0] {
      LexTransitive(xs[1..], ys[1..], zs[1..]);
    }
  }

  lemma {:induction false} LexTrichotomy(xs: seq<nat>, ys: seq<nat>)
    ensures LexLess(xs, ys) || LexLess(ys, xs) || xs == ys
    ensures !(LexLess(xs, ys) && LexLess(ys, xs)) && !LexLess(xs, xs)
  {
    if xs != [] && ys != [] && xs[0] == ys[0] {
      LexTrichotomy(xs[1..], ys[1..]);
      assert xs == [xs[0]] + xs[1..] && ys == [ys[0]] + ys[1..];
    }
    if xs != [] {
      LexTrichotomy(xs[1..], xs[1..]);
    }
  }

  lemma {:induction false} Utf16Injective(s: string, t: string)
    requires Utf16(s) == Utf16(t)
    ensures s == t
  {
    if s != "" && t != "" {
      var a, b := CodeUnits(s[0]), CodeUnits(t[0]);
      assert a[0] == Utf16(s)[0] && b[0] == Utf16(t)[0];
      assert |a| == |b|;
      assert a == Utf16(s)[..|a|] && b == Utf16(t)[..|b|];
      assert s[0] == t[0];
      assert Utf16(s[1..]) == Utf16(s)[|a|..] && Utf16(t[1..]) == Utf16(t)[|b|..];
      Utf16Injective(s[1..], t[1..]);
      assert s == [s[0]] + s[1..] && t == [t[0]] + t[1..];
    }
  }

  lemma {:induction false} CodePointsInjective(s: string, t: string)
    requires CodePoints(s) == CodePoints(t)
    ensures s == t
  {
    if s != "" && t != "" {
      assert CodePoints(s)[0] == CodePoints(t)[0];
      assert CodePoints(s[1..]) == CodePoints(s)[1..] && CodePoints(t[1..]) == CodePoints(t)[1..];
      CodePointsInjective(s[1..], t[1..]);
      assert s == [s[0]] + s[1..] && t == [t[0]] + t[1..];
    }
  }

  lemma PropertyRankInjective(k: string, l: string)
    requires PropertyRank(k) == PropertyRank(l)
    ensures k == l
  {
    assert PropertyRank(k)[0] == PropertyRank(l)[0];
    if IsArrayIndex(k) {
      assert PropertyRank(k)[1] == PropertyRank(l)[1];
    } else {
      assert Utf16(k) == PropertyRank(k)[1..] && Utf16(l) == PropertyRank(l)[1..];
      Utf16Injective(k, l);
    }
  }

  lemma PropertyLessIsTotal()
    ensures StrictTotal(PropertyLess)
  {
    forall k, l ensures !PropertyLess(k, k) && (k != l ==> PropertyLess(k, l) || PropertyLess(l, k)) {
      LexTrichotomy(PropertyRank(k), PropertyRank(l));
      LexTrichotomy(PropertyRank(k), PropertyRank(k));
      if PropertyRank(k) == PropertyRank(l) {
        PropertyRankInjective(k, l);
      }
    }
    forall k, l, m | PropertyLess(k, l) && PropertyLess(l, m) ensures PropertyLess(k, m) {
      LexTransitive(PropertyRank(k), PropertyRank(l), PropertyRank(m));
    }
  }

  lemma CodePointLessIsTotal()
    ensures StrictTotal(CodePointLess)
  {
    forall k, l ensures !CodePointLess(k, k) && (k != l ==> CodePointLess(k, l) || CodePointLess(l, k)) {
      LexTrichotomy(CodePoints(k), CodePoints(l));
      LexTrichotomy(CodePoints(k), CodePoints(k));
      if CodePoints(k) == CodePoints(l) {
        CodePointsInjective(k, l);
      }
    }
    forall k, l, m | CodePointLess(k, l) && CodePointLess(l, m) ensures CodePointLess(k, m) {
      LexTransitive(CodePoints(k), CodePoints(l), CodePoints(m));
    }
  }

  // ---------- Which of two keys comes first ----------

  /** The keys agree up to their n-th character, and there they part. */
  ghost predicate PartAt(k: string, l: string, n: nat) {
    n < |k| && n < |l| && k[..n] == l[..n] && k[n] != l[n]
  }

  /** A key comes before what extends it; where two keys part, the characters there decide. */
  ghost predicate KeyFirst(first: (char, char) -> bool, k: string, l: string) {
    k < l || exists n: nat :: PartAt(k, l, n) && first(k[n], l[n])
  }

  predicate PointFirst(c: char, d: char) { c < d }

  predicate InBasicPlane(c: char) { c as int < 0x1_0000 }

  /** A character outside the basic plane stands where surrogates do: after U+D7FF and before U+E000. */
  predicate UnitFirst(c: char, d: char) {
    if InBasicPlane(c) == InBasicPlane(d) then c < d
    else if InBasicPlane(c) then c as int < 0xD800
    else d as int >= 0xE000
  }

  ghost predicate ByPoints(k: string, l: string) { KeyFirst(PointFirst, k, l) }

  /** The key spells this array index. */
  predicate Spells(k: string, n: nat) { n <= 4294967294 && k == Decimal(n) }

  ghost predicate IndexKey(k: string) { exists n: nat :: Spells(k, n) }

  /** Array indices come first, by value, and then the other keys. */
  ghost predicate ByIndexThenUnits(k: string, l: string) {
    if IndexKey(k) && IndexKey(l) then exists m: nat, n: nat :: m < n && Spells(k, m) && Spells(l, n)
    else IndexKey(k) || (!IndexKey(l) && KeyFirst(UnitFirst, k, l))
  }

  lemma KeyFirstSkips(first: (char, char) -> bool, k: string, l: string)
    requires k != "" && l != "" && k[0] == l[0]
    ensures KeyFirst(first, k, l) <==> KeyFirst(first, k[1..], l[1..])
  {
    assert k == [k[0]] + k[1..] && l == [l[0]] + l[1..];
    forall n: nat ensures PartAt(k, l, n + 1) <==> PartAt(k[1..], l[1..], n) {
      if n < |k[1..]| && n < |l[1..]| {
        assert k[..n + 1] == [k[0]] + k[1..][..n] && l[..n + 1] == [l[0]] + l[1..][..n];
        assert k[1..][..n] == k[..n + 1][1..] && l[1..][..n] == l[..n + 1][1..];
      }
    }
    if n: nat :| PartAt(k, l, n) && first(k[n], l[n]) {
      assert n > 0 && PartAt(k[1..], l[1..], n - 1);
    }
    if n: nat :| PartAt(k[1..], l[1..], n) && first(k[1..][n], l[1..][n]) {
      assert PartAt(k, l, n + 1);
    }
    assert k < l <==> k[1..] < l[1..];
  }

  lemma KeyFirstAtHead(first: (char, char) -> bool, k: string, l: string)
    requires k != "" && l != "" && k[0] != l[0]
    ensures KeyFirst(first, k, l) <==> first(k[0], l[0])
  {
    assert PartAt(k, l, 0);
    forall n: nat | 0 < n < |k| && n < |l| ensures k[..n] != l[..n] {
      assert k[..n][0] == k[0] && l[..n][0] == l[0];
    }
    assert !(k < l);
  }

  lemma KeyFirstOfEmpty(first: (char, char) -> bool, k: string, l: string)
    requires k == "" || l == ""
    ensures KeyFirst(first, k, l) <==> l != "" && k == ""
  {
  }

  lemma UnitsDecide(c: char, d: char, xs: seq<nat>, ys: seq<nat>)
    requires c != d
    ensures LexLess(CodeUnits(c) + xs, CodeUnits(d) + ys) <==> UnitFirst(c, d)
  {
    var a, b := CodeUnits(c) + xs, CodeUnits(d) + ys;
    assert a[0] == CodeUnits(c)[0] && b[0] == CodeUnits(d)[0];
    if !InBasicPlane(c) && !InBasicPlane(d) {
      assert a[1..][0] == CodeUnits(c)[1] && b[1..][0] == CodeUnits(d)[1];
    }
  }

  lemma {:induction false} LexLessSkips(p: seq<nat>, xs: seq<nat>, ys: seq<nat>)
    ensures LexLess(p + xs, p + ys) <==> LexLess(xs, ys)
  {
    if p == [] {
      assert p + xs == xs && p + ys == ys;
    } else {
      assert (p + xs)[1..] == p[1..] + xs && (p + ys)[1..] == p[1..] + ys;
      LexLessSkips(p[1..], xs, ys);
    }
  }

  lemma {:induction false} UnitsExactly(k: string, l: string)
    ensures LexLess(Utf16(k), Utf16(l)) <==> KeyFirst(UnitFirst, k, l)
  {
    if k == "" || l == "" {
      KeyFirstOfEmpty(UnitFirst, k, l);
    } else if k[0] == l[0] {
      KeyFirstSkips(UnitFirst, k, l);
      UnitsExactly(k[1..], l[1..]);
      LexLessSkips(CodeUnits(k[0]), Utf16(k[1..]), Utf16(l[1..]));
    } else {
      KeyFirstAtHead(UnitFirst, k, l);
      UnitsDecide(k[0], l[0], Utf16(k[1..]), Utf16(l[1..]));
    }
  }

  /** How Python compares strings. */
  lemma {:induction false} CodePointLessExactly(k: string, l: string)
    ensures CodePointLess(k, l) <==> ByPoints(k, l)
  {
    if k == "" || l == "" {
      KeyFirstOfEmpty(PointFirst, k, l);
    } else if k[0] == l[0] {
      KeyFirstSkips(PointFirst, k, l);
      CodePointLessExactly(k[1..], l[1..]);
      LexLessSkips([k[0] as int], CodePoints(k[1..]), CodePoints(l[1..]));
    } else {
      KeyFirstAtHead(PointFirst, k, l);
      assert CodePoints(k)[0] == k[0] as int && CodePoints(l)[0] == l[0] as int;
    }
  }

  lemma IndexExactly(k: string)
    ensures IsArrayIndex(k) <==> IndexKey(k)
  {
    if IsArrayIndex(k) {
      assert Spells(k, DigitsValue(k, 0));
    }
    if n: nat :| Spells(k, n) {
      DecimalSpells(n);
    }
  }

  /** How a JavaScript object lists keys that were added in sorted order. */
  lemma PropertyLessExactly(k: string, l: string)
    ensures PropertyLess(k, l) <==> ByIndexThenUnits(k, l)
  {
    IndexExactly(k);
    IndexExactly(l);
    if IndexKey(k) && IndexKey(l) {
      IndicesByValue(k, l);
    } else if !IndexKey(k) && !IndexKey(l) {
      LexLessSkips([1], Utf16(k), Utf16(l));
      UnitsExactly(k, l);
    }
  }

  lemma IndicesByValue(k: string, l: string)
    requires IsArrayIndex(k) && IsArrayIndex(l)
    ensures PropertyLess(k, l) <==> exists m: nat, n: nat :: m < n && Spells(k, m) && Spells(l, n)
  {
    var m, n := DigitsValue(k, 0), DigitsValue(l, 0);
    assert [0, m] == [0] + [m] && [0, n] == [0] + [n] && [m][1..] == [] && [n][1..] == [];
    LexLessSkips([0], [m], [n]);
    assert PropertyLess(k, l) <==> m < n;
    assert Spells(k, m) && Spells(l, n);
    forall a: nat, b: nat | Spells(k, a) && Spells(l, b) ensures a == m && b == n {
      DecimalSpells(a);
      DecimalSpells(b);
    }
  }

  // ---------- Sorting members ----------

  ghost predicate Sorted<T>(less: KeyOrder, es: seq<Entry<T>>) {
    forall i, j | 0 <= i < j < |es| :: less(es[i].key, es[j].key)
  }

  function Insert<T>(less: KeyOrder, e: Entry<T>, es: seq<Entry<T>>): seq<Entry<T>> {
    if es != [] && less(es[0].key, e.key) then [es[0]] + Insert(less, e, es[1..]) else [e] + es
  }

  lemma {:induction false} InsertElements<T>(less: KeyOrder, e: Entry<T>, es: seq<Entry<T>>, x: Entry<T>)
    ensures x in Insert(less, e, es) <==> x == e || x in es
  {
    if es != [] && less(es[0].key, e.key) {
      InsertElements(less, e, es[1..], x);
      assert es == [es[0]] + es[1..];
    }
  }

  lemma {:induction false} InsertKeepsSorted<T>(less: KeyOrder, e: Entry<T>, es: seq<Entry<T>>)
    requires StrictTotal(less)
    requires Sorted(less, es) && forall x | x in es :: x.key != e.key
    ensures forall x :: x in Insert(less, e, es) <==> x == e || x in es
    ensures Sorted(less, Insert(less, e, es))
  {
    forall x ensures x in Insert(less, e, es) <==> x == e || x in es {
      InsertElements(less, e, es, x);
    }
    if es != [] && less(es[0].key, e.key) {
      var rest := Insert(less, e, es[1..]);
      InsertKeepsSorted(less, e, es[1..]);
      forall j | 0 <= j < |rest| ensures less(es[0].key, rest[j].key) {
        InsertElements(less, e, es[1..], rest[j]);
      }
    } else if es != [] {
      assert es[0] in es && less(e.key, es[0].key);
    }
  }

  /** A sorted sequence is determined by its elements. */
  lemma {:induction false} SortedIsUnique<T>(less: KeyOrder, xs: seq<Entry<T>>, ys: seq<Entry<T>>)
    requires StrictTotal(less)
    requires Sorted(less, xs) && Sorted(less, ys)
    requires forall e :: e in xs <==> e in ys
    ensures xs == ys
  {
    assert xs != [] ==> xs[0] in ys;
    assert ys != [] ==> ys[0] in xs;
    if xs != [] {
      var i :| 0 <= i < |ys| && ys[i] == xs[0];
      var j :| 0 <= j < |xs| && xs[j] == ys[0];
      assert i == 0;
      SortedHeadOnce(less, xs);
      SortedHeadOnce(less, ys);
      SortedIsUnique(less, xs[1..], ys[1..]);
      assert xs == [xs[0]] + xs[1..] && ys == [ys[0]] + ys[1..];
    }
  }

  lemma SortedHeadOnce<T>(less: KeyOrder, xs: seq<Entry<T>>)
    requires StrictTotal(less)
    requires xs != [] && Sorted(less, xs)
    ensures forall e :: e in xs[1..] <==> e in xs && e != xs[0]
  {
    forall e ensures e in xs[1..] <==> e in xs && e != xs[0] {
      if e in xs[1..] {
        var i :| 0 <= i < |xs[1..]| && xs[1..][i] == e;
        assert less(xs[0].key, xs[i + 1].key);
      }
      assert xs == [xs[0]] + xs[1..];
    }
  }

  lemma SortedHasDistinctKeys<T>(less: KeyOrder, es: seq<Entry<T>>)
    requires StrictTotal(less)
    requires Sorted(less, es)
    ensures DistinctKeys(es)
  {
  }

  // ---------- sortKeys ----------

  function SortKeysBy(less: KeyOrder, v: Json): Json
    decreases v, 1
  {
    match v
    case Arr(items) => Arr(SortItems(less, items))
    case Obj(ms) => Obj(SortMembers(less, ms))
    case _ => v
  }

  function SortItems(less: KeyOrder, xs: seq<Json>): (r: seq<Json>)
    ensures |r| == |xs|
    decreases xs, 0
  {
    if xs == [] then [] else [SortKeysBy(less, xs[0])] + SortItems(less, xs[1..])
  }

  function SortMembers(less: KeyOrder, ms: seq<Entry<Json>>): seq<Entry<Json>>
    decreases ms, 0
  {
    if ms == [] then []
    else Insert(less, SortMember(less, ms[0]), SortMembers(less, ms[1..]))
  }

  function SortMember(less: KeyOrder, m: Entry<Json>): Entry<Json>
    decreases m, 2
  {
    Entry(m.key, SortKeysBy(less, m.value))
  }

  function SortKeys(v: Json): Json { SortKeysBy(PropertyLess, v) }

  lemma {:induction false} SortItemsAt(less: KeyOrder, xs: seq<Json>, i: nat)
    requires i < |xs|
    ensures SortItems(less, xs)[i] == SortKeysBy(less, xs[i])
  {
    if i > 0 {
      SortItemsAt(less, xs[1..], i - 1);
    }
  }

  lemma {:induction false} SortMembersProperties(less: KeyOrder, ms: seq<Entry<Json>>)
    requires StrictTotal(less)
    requires DistinctKeys(ms)
    ensures Sorted(less, SortMembers(less, ms))
    ensures forall m | m in ms :: SortMember(less, m) in SortMembers(less, ms)
    ensures forall e | e in SortMembers(less, ms) :: exists m :: m in ms && e == SortMember(less, m)
  {
    if ms != [] {
      var tail := ms[1..];
      SortMembersProperties(less, tail);
      forall e | e in SortMembers(less, tail) ensures e.key != ms[0].key {
        var m :| m in tail && e == SortMember(less, m);
        var i :| 0 <= i < |tail| && tail[i] == m;
        assert ms[i + 1] == m;
      }
      InsertKeepsSorted(less, SortMember(less, ms[0]), SortMembers(less, tail));
      assert ms == [ms[0]] + tail;
      forall e | e in SortMembers(less, ms) ensures exists m :: m in ms && e == SortMember(less, m) {
        if e in SortMembers(less, tail) {
          var m :| m in tail && e == SortMember(less, m);
          assert m in ms;
        } else {
          assert ms[0] in ms;
        }
      }
    }
  }

  // ---------- Equality up to the order of keys ----------

  ghost function Keys<T>(es: seq<Entry<T>>): set<string> { set e | e in es :: e.key }

  /** v and w differ only in the order of keys, at any depth. */
  ghost predicate SameUpToKeyOrder(v: Json, w: Json)
    decreases v
  {
    match (v, w)
    case (Arr(xs), Arr(ys)) => |xs| == |ys| && forall i | 0 <= i < |xs| :: SameUpToKeyOrder(xs[i], ys[i])
    case (Obj(ms), Obj(ns)) =>
      && Keys(ms) == Keys(ns)
      && forall m, n | m in ms && n in ns && m.key == n.key :: SameUpToKeyOrder(m.value, n.value)
    case _ => v == w
  }

  /** Sorting brings two values to the same form exactly when they differ only in the order of keys. */
  lemma {:induction false} SortIsCanonical(less: KeyOrder, v: Json, w: Json)
    requires StrictTotal(less)
    requires WellFormed(v) && WellFormed(w)
    ensures SortKeysBy(less, v) == SortKeysBy(less, w) <==> SameUpToKeyOrder(v, w)
    decreases v
  {
    if v.Arr? && w.Arr? {
      ItemsCanonical(less, v.items, w.items);
    } else if v.Obj? && w.Obj? {
      MembersCanonical(less, v.members, w.members);
    }
  }

  lemma {:induction false} ItemsCanonical(less: KeyOrder, xs: seq<Json>, ys: seq<Json>)
    requires StrictTotal(less) && WellFormed(Arr(xs)) && WellFormed(Arr(ys))
    ensures SortItems(less, xs) == SortItems(less, ys) <==> SameUpToKeyOrder(Arr(xs), Arr(ys))
    decreases xs
  {
    forall i | 0 <= i < |xs| && i < |ys|
      ensures SortItems(less, xs)[i] == SortItems(less, ys)[i] <==> SameUpToKeyOrder(xs[i], ys[i])
    {
      SortItemsAt(less, xs, i);
      SortItemsAt(less, ys, i);
      SortIsCanonical(less, xs[i], ys[i]);
    }
  }

  lemma {:induction false} MembersCanonical(less: KeyOrder, ms: seq<Entry<Json>>, ns: seq<Entry<Json>>)
    requires StrictTotal(less) && WellFormed(Obj(ms)) && WellFormed(Obj(ns))
    ensures SortMembers(less, ms) == SortMembers(less, ns) <==> SameUpToKeyOrder(Obj(ms), Obj(ns))
    decreases ms
  {
    forall m, n | m in ms && n in ns && m.key == n.key
      ensures SortMember(less, m) == SortMember(less, n) <==> SameUpToKeyOrder(m.value, n.value)
    {
      SortIsCanonical(less, m.value, n.value);
    }
    SortMembersCanonical(less, ms, ns);
  }

  lemma SortMembersCanonical(less: KeyOrder, ms: seq<Entry<Json>>, ns: seq<Entry<Json>>)
    requires StrictTotal(less)
    requires DistinctKeys(ms) && DistinctKeys(ns)
    ensures SortMembers(less, ms) == SortMembers(less, ns) <==>
            Keys(ms) == Keys(ns) &&
            forall m, n | m in ms && n in ns && m.key == n.key :: SortMember(less, m) == SortMember(less, n)
  {
    if SortMembers(less, ms) == SortMembers(less, ns) {
      SortAlikeSameMembers(less, ms, ns);
    }
    if Keys(ms) == Keys(ns) &&
      forall m, n | m in ms && n in ns && m.key == n.key :: SortMember(less, m) == SortMember(less, n)
    {
      SameMembersSortAlike(less, ms, ns);
    }
  }

  lemma SortAlikeSameMembers(less: KeyOrder, ms: seq<Entry<Json>>, ns: seq<Entry<Json>>)
    requires StrictTotal(less)
    requires DistinctKeys(ms) && DistinctKeys(ns) && SortMembers(less, ms) == SortMembers(less, ns)
    ensures Keys(ms) == Keys(ns)
    ensures forall m, n | m in ms && n in ns && m.key == n.key :: SortMember(less, m) == SortMember(less, n)
  {
    var a := SortMembers(less, ms);
    SortMembersProperties(less, ms);
    SortMembersProperties(less, ns);
    SortedHasDistinctKeys(less, a);
    forall m, n | m in ms && n in ns && m.key == n.key ensures SortMember(less, m) == SortMember(less, n) {
      assert SortMember(less, m) in a && SortMember(less, n) in a;
    }
    KeysPreserved(less, ms);
    KeysPreserved(less, ns);
  }

  lemma SameMembersSortAlike(less: KeyOrder, ms: seq<Entry<Json>>, ns: seq<Entry<Json>>)
    requires StrictTotal(less)
    requires DistinctKeys(ms) && DistinctKeys(ns) && Keys(ms) == Keys(ns)
    requires forall m, n | m in ms && n in ns && m.key == n.key :: SortMember(less, m) == SortMember(less, n)
    ensures SortMembers(less, ms) == SortMembers(less, ns)
  {
    SortMembersProperties(less, ms);
    SortMembersProperties(less, ns);
    SortedElementsTransfer(less, ms, ns);
    SortedElementsTransfer(less, ns, ms);
    SortedIsUnique(less, SortMembers(less, ms), SortMembers(less, ns));
  }

  lemma KeysPreserved(less: KeyOrder, ms: seq<Entry<Json>>)
    requires StrictTotal(less)
    requires DistinctKeys(ms)
    ensures Keys(SortMembers(less, ms)) == Keys(ms)
  {
    SortMembersProperties(less, ms);
    forall k | k in Keys(ms) ensures k in Keys(SortMembers(less, ms)) {
      var m :| m in ms && m.key == k;
      assert SortMember(less, m) in SortMembers(less, ms);
    }
  }

  lemma SortedElementsTransfer(less: KeyOrder, ms: seq<Entry<Json>>, ns: seq<Entry<Json>>)
    requires StrictTotal(less)
    requires DistinctKeys(ms) && DistinctKeys(ns) && Keys(ms) <= Keys(ns)
    requires forall m, n | m in ms && n in ns && m.key == n.key :: SortMember(less, m) == SortMember(less, n)
    ensures forall e | e in SortMembers(less, ms) :: e in SortMembers(less, ns)
  {
    SortMembersProperties(less, ms);
    SortMembersProperties(less, ns);
    forall e | e in SortMembers(less, ms) ensures e in SortMembers(less, ns) {
      var m :| m in ms && e == SortMember(less, m);
      assert m.key in Keys(ns);
      var n :| n in ns && n.key == m.key;
      assert SortMember(less, n) in SortMembers(less, ns);
    }
  }

  /** Sorting itself only reorders keys, and keeps every object free of repeated keys. */
  lemma {:induction false} SortOnlyReorders(less: KeyOrder, v: Json)
    requires StrictTotal(less)
    requires WellFormed(v)
    ensures WellFormed(SortKeysBy(less, v)) && SameUpToKeyOrder(SortKeysBy(less, v), v)
    decreases v
  {
    match v
    case Arr(xs) =>
      forall i | 0 <= i < |xs|
        ensures WellFormed(SortItems(less, xs)[i]) && SameUpToKeyOrder(SortItems(less, xs)[i], xs[i])
      {
        SortItemsAt(less, xs, i);
        SortOnlyReorders(less, xs[i]);
      }
    case Obj(ms) =>
      var a := SortMembers(less, ms);
      SortMembersProperties(less, ms);
      SortedHasDistinctKeys(less, a);
      KeysPreserved(less, ms);
      forall m | m in ms
        ensures WellFormed(SortMember(less, m).value)
        ensures SameUpToKeyOrder(SortMember(less, m).value, m.value)
      {
        SortOnlyReorders(less, m.value);
      }
    case _ =>
  }

  lemma SortIsIdempotent(less: KeyOrder, v: Json)
    requires StrictTotal(less)
    requires WellFormed(v)
    ensures SortKeysBy(less, SortKeysBy(less, v)) == SortKeysBy(less, v)
  {
    SortOnlyReorders(less, v);
    SortIsCanonical(less, SortKeysBy(less, v), v);
  }

  // ---------- The keys of what is sorted ----------

  /** In every object of v, whatever its depth, each key comes before the ones behind it. */
  ghost predicate KeysAscend(first: (string, string) -> bool, v: Json)
    decreases v
  {
    match v
    case Arr(items) => forall x | x in items :: KeysAscend(first, x)
    case Obj(ms) => Sorted(first, ms) && forall m | m in ms :: KeysAscend(first, m.value)
    case _ => true
  }

  lemma {:induction false} SortedKeysAscend(less: KeyOrder, first: (string, string) -> bool, v: Json)
    requires StrictTotal(less) && WellFormed(v) && forall k, l | less(k, l) :: first(k, l)
    ensures KeysAscend(first, SortKeysBy(less, v))
    decreases v
  {
    match v
    case Arr(xs) =>
      forall i | 0 <= i < |xs| ensures KeysAscend(first, SortItems(less, xs)[i]) {
        SortItemsAt(less, xs, i);
        SortedKeysAscend(less, first, xs[i]);
      }
    case Obj(ms) =>
      SortMembersProperties(less, ms);
      forall m | m in ms ensures KeysAscend(first, SortMember(less, m).value) {
        SortedKeysAscend(less, first, m.value);
      }
    case _ =>
  }

  /**
   * The node signs a value with the same members, in every object of which array indices come first, by value,
   * and then the other keys by UTF-16 unit.
   */
  lemma NodeKeysAscend(v: Json) returns (w: Json)
    requires WellFormed(v)
    ensures SignedText(v) == Print(w) && SameUpToKeyOrder(w, v) && KeysAscend(ByIndexThenUnits, w)
  {
    w := SortKeys(v);
    PropertyLessIsTotal();
    SortOnlyReorders(PropertyLess, v);
    forall k, l | PropertyLess(k, l) ensures ByIndexThenUnits(k, l) {
      PropertyLessExactly(k, l);
    }
    SortedKeysAscend(PropertyLess, ByIndexThenUnits, v);
  }

  /** The provider prints one in every object of which the keys ascend by code point. */
  lemma DiscoveryKeysAscend(v: Json) returns (w: Json)
    requires WellFormed(v)
    ensures DiscoveryText(v) == Print(w) && SameUpToKeyOrder(w, v) && KeysAscend(ByPoints, w)
  {
    w := SortKeysBy(CodePointLess, v);
    CodePointLessIsTotal();
    SortWhilePrinting(v);
    SortOnlyReorders(CodePointLess, v);
    forall k, l | CodePointLess(k, l) ensures ByPoints(k, l) {
      CodePointLessExactly(k, l);
    }
    SortedKeysAscend(CodePointLess, ByPoints, v);
  }

  /** In such a list of members, k stands before l. */
  ghost predicate Before(ms: seq<Entry<Json>>, k: string, l: string) {
    exists i, j :: 0 <= i < j < |ms| && ms[i].key == k && ms[j].key == l
  }

  lemma SortedByIndex(less: KeyOrder, ms: seq<Entry<Json>>, i: nat, j: nat)
    requires StrictTotal(less) && Sorted(less, ms) && i < |ms| && j < |ms| && less(ms[i].key, ms[j].key)
    ensures i < j
  {
    var k, l := ms[i].key, ms[j].key;
    assert !less(l, k) && !less(k, k);
  }

  lemma SmallerIsBefore(less: KeyOrder, ms: seq<Entry<Json>>, k: string, l: string)
    requires StrictTotal(less) && DistinctKeys(ms) && k in Keys(ms) && l in Keys(ms) && less(k, l)
    ensures Before(SortMembers(less, ms), k, l)
  {
    var out := SortMembers(less, ms);
    SortMembersProperties(less, ms);
    var m :| m in ms && m.key == k;
    var n :| n in ms && n.key == l;
    assert SortMember(less, m) in out && SortMember(less, n) in out;
    var i :| 0 <= i < |out| && out[i] == SortMember(less, m);
    var j :| 0 <= j < |out| && out[j] == SortMember(less, n);
    SortedByIndex(less, out, i, j);
  }

  /** Where two keys part, the one with the smaller character comes first, in both services; */
  lemma PartingKeys(ms: seq<Entry<Json>>, p: string, c: char, x: string, d: char, y: string)
    requires DistinctKeys(ms) && p + [c] + x in Keys(ms) && p + [d] + y in Keys(ms) && c < d
    ensures Before(SortKeysBy(CodePointLess, Obj(ms)).members, p + [c] + x, p + [d] + y)
    ensures !IndexKey(p + [c] + x) && !IndexKey(p + [d] + y) && d as int < 0x1_0000 ==>
              Before(SortKeys(Obj(ms)).members, p + [c] + x, p + [d] + y)
  {
    var k, l := p + [c] + x, p + [d] + y;
    assert k[..|p|] == p && l[..|p|] == p && PartAt(k, l, |p|);
    BothPutFirst(ms, k, l);
  }

  /** a key comes before what extends it; */
  lemma ExtendedKey(ms: seq<Entry<Json>>, p: string, c: char, x: string)
    requires DistinctKeys(ms) && p in Keys(ms) && p + [c] + x in Keys(ms)
    ensures Before(SortKeysBy(CodePointLess, Obj(ms)).members, p, p + [c] + x)
    ensures !IndexKey(p) && !IndexKey(p + [c] + x) ==> Before(SortKeys(Obj(ms)).members, p, p + [c] + x)
  {
    assert p < p + [c] + x;
    BothPutFirst(ms, p, p + [c] + x);
  }

  lemma BothPutFirst(ms: seq<Entry<Json>>, k: string, l: string)
    requires DistinctKeys(ms) && k in Keys(ms) && l in Keys(ms)
    ensures ByPoints(k, l) ==> Before(SortKeysBy(CodePointLess, Obj(ms)).members, k, l)
    ensures ByIndexThenUnits(k, l) ==> Before(SortKeys(Obj(ms)).members, k, l)
  {
    CodePointLessIsTotal();
    PropertyLessIsTotal();
    CodePointLessExactly(k, l);
    PropertyLessExactly(k, l);
    if ByPoints(k, l) {
      SmallerIsBefore(CodePointLess, ms, k, l);
    }
    if ByIndexThenUnits(k, l) {
      SmallerIsBefore(PropertyLess, ms, k, l);
    }
  }

  /** and in the node an array index comes before every other key and before every larger index. */
  lemma IndexKeys(ms: seq<Entry<Json>>, n: nat, l: string)
    requires DistinctKeys(ms) && Decimal(n) in Keys(ms) && l in Keys(ms) && Spells(Decimal(n), n)
    requires !IndexKey(l) || exists m: nat :: n < m && Spells(l, m)
    ensures Before(SortKeys(Obj(ms)).members, Decimal(n), l)
  {
    assert ByIndexThenUnits(Decimal(n), l);
    BothPutFirst(ms, Decimal(n), l);
  }

  // ---------- What is signed ----------

  /** The string the Content Node hashes and signs. */
  function SignedText(v: Json): string { Print(SortKeys(v)) }

  /** Two values are signed as the same string exactly when they differ only in the order of keys. */
  lemma SignedTextIgnoresOnlyKeyOrder(v: Json, w: Json)
    requires WellFormed(v) && WellFormed(w)
    ensures SignedText(v) == SignedText(w) <==> SameUpToKeyOrder(v, w)
  {
    PropertyLessIsTotal();
    SortIsCanonical(PropertyLess, v, w);
    if SignedText(v) == SignedText(w) {
      PrintIsInjective(SortKeys(v), SortKeys(w));
    }
  }

  /** The hash and the signature scheme, which the code takes from web3. */
  datatype Scheme<!Digest(!new), !Key(!new), !Sig, +Wallet> = Scheme(
    keccak: string -> Digest,
    sign: (Digest, Key) -> Sig,
    recover: (Digest, Sig) -> Wallet,
    address: Key -> Wallet)
  {
    ghost predicate RecoversAfterSign() {
      forall d, k :: recover(d, sign(d, k)) == address(k)
    }

    /** A signature made for one digest names its signer for no other digest. */
    ghost predicate BindsDigest() {
      forall d, e, k :: recover(e, sign(d, k)) == address(k) ==> d == e
    }

    ghost predicate AddressesDistinct() {
      forall j, k :: address(j) == address(k) ==> j == k
    }

    ghost predicate CollisionFree() {
      forall s, t :: keccak(s) == keccak(t) ==> s == t
    }

    function GenerateSignature(data: Json, key: Key): Sig {
      sign(keccak(SignedText(data)), key)
    }

    function RecoverWallet(data: Json, signature: Sig): Wallet {
      recover(keccak(SignedText(data)), signature)
    }

    /** A signature over v names its signer when checked against any reordering of v. */
    lemma RecoversFromReordering(v: Json, w: Json, key: Key)
      requires RecoversAfterSign() && WellFormed(v) && WellFormed(w) && SameUpToKeyOrder(v, w)
      ensures RecoverWallet(w, GenerateSignature(v, key)) == address(key)
    {
      SignedTextIgnoresOnlyKeyOrder(v, w);
    }

    /** With a collision-free hash, it does so for reorderings of v and for nothing else. */
    lemma RecoversOnlyFromReordering(v: Json, w: Json, key: Key)
      requires RecoversAfterSign() && BindsDigest() && CollisionFree()
      requires WellFormed(v) && WellFormed(w)
      ensures RecoverWallet(w, GenerateSignature(v, key)) == address(key) <==> SameUpToKeyOrder(v, w)
    {
      SignedTextIgnoresOnlyKeyOrder(v, w);
      if RecoverWallet(w, GenerateSignature(v, key)) == address(key) {
        assert keccak(SignedText(v)) == keccak(SignedText(w));
      }
    }
  }

  /** The laws asked of a scheme can all hold together. */
  lemma SchemeLawsAreConsistent() returns (scheme: Scheme<string, nat, (string, nat), nat>)
    ensures scheme.RecoversAfterSign() && scheme.BindsDigest() && scheme.CollisionFree() && scheme.AddressesDistinct()
  {
    scheme := Scheme(
      (text: string) => text,
      (d: string, k: nat) => (d, k),
      (d: string, s: (string, nat)) => if s.0 == d then s.1 + 1 else 0,
      (k: nat) => k + 1);
  }

  // ---------- The cached listen signature ----------

  const MAX_SIGNATURE_AGE_MS := 300000

  /** A signature with its timestamp in milliseconds. */
  datatype Signed<Sig> = Signed(timestamp: nat, signature: Sig)

  /** signatureHasExpired, by the clock at the time; a clock that went back makes nothing expire. */
  predicate HasExpired(timestamp: nat, now: nat) { now - timestamp >= MAX_SIGNATURE_AGE_MS }

  /** What a listen signature is over. */
  function ListenData(toISOString: nat -> string, timestamp: nat): Json {
    Obj([Entry("data", Str("listen")), Entry("timestamp", Str(toISOString(timestamp)))])
  }

  /** Two members whose keys are no array indices and in order, the first one's value a plain text. */
  lemma TwoMembersText(k: string, v: string, l: string, w: string)
    requires k != "" && l != "" && k[0] < l[0] && InBasicPlane(l[0]) && !IsDigit(k[0]) && !IsDigit(l[0])
    requires Plain(k) && Plain(v) && Plain(l)
    ensures SignedText(Obj([Entry(k, Str(v)), Entry(l, Str(w))])) ==
            "{\"" + k + "\":\"" + v + "\",\"" + l + "\":" + Quote(w) + "}"
  {
    var d, t := Entry(k, Str(v)), Entry(l, Str(w));
    assert !IsArrayIndex(k) && !IsArrayIndex(l);
    IndexExactly(k);
    IndexExactly(l);
    PropertyLessExactly(l, k);
    KeyFirstAtHead(UnitFirst, l, k);
    TwoMembersInOrder(d, t);
    PlainText(k);
    PlainText(v);
    PlainText(l);
    Regrouped(k, v, l, Quote(w));
  }

  lemma Regrouped(k: string, v: string, l: string, w: string)
    ensures "{" + ("\"" + k + "\"" + (":" + ("\"" + v + "\"")) + ("," + ("\"" + l + "\"" + (":" + w)))) + "}" ==
            "{\"" + k + "\":\"" + v + "\",\"" + l + "\":" + w + "}"
  {
  }

  lemma TwoMembersInOrder(d: Entry<Json>, t: Entry<Json>)
    requires d.value.Str? && t.value.Str? && !PropertyLess(t.key, d.key)
    ensures SignedText(Obj([d, t])) ==
            "{" + (PrintMember(d.key, Print(d.value)) + ("," + PrintMember(t.key, Print(t.value)))) + "}"
  {
    assert [d, t][1..] == [t] && [t][1..] == [];
    assert SortMember(PropertyLess, d) == d && SortMember(PropertyLess, t) == t;
    assert SortMembers(PropertyLess, [t]) == [t];
    assert SortMembers(PropertyLess, [d, t]) == [d, t];
    TwoMembersPrinted(d, t);
  }

  lemma TwoMembersPrinted(d: Entry<Json>, t: Entry<Json>)
    ensures Print(Obj([d, t])) ==
            "{" + (PrintMember(d.key, Print(d.value)) + ("," + PrintMember(t.key, Print(t.value)))) + "}"
  {
    assert [d, t][1..] == [t];
    assert PrintMembers([t]) == PrintMember(t.key, Print(t.value));
    assert PrintMembers([d, t]) == PrintMember(d.key, Print(d.value)) + ("," + PrintMembers([t]));
  }

  /** The text of the listen data. */
  lemma ListenText(toISOString: nat -> string, timestamp: nat)
    ensures SignedText(ListenData(toISOString, timestamp)) ==
            "{\"data\":\"listen\",\"timestamp\":" + Quote(toISOString(timestamp)) + "}"
  {
    ListenWords();
    TwoMembersText("data", "listen", "timestamp", toISOString(timestamp));
  }

  lemma ListenWords()
    ensures Plain("data") && Plain("listen") && Plain("timestamp")
    ensures "{\"" + "data" + "\":\"" + "listen" + "\",\"" + "timestamp" + "\":" == "{\"data\":\"listen\",\"timestamp\":"
  {
  }

  class ListenSigner<Digest(!new), Key(!new), Sig, Wallet> {
    const scheme: Scheme<Digest, Key, Sig, Wallet>
    const toISOString: nat -> string
    var cachedListenSignature: Option<Signed<Sig>>
    /** The key of the cached signature, which the code does not keep. */
    ghost var signedBy: Option<Key>

    ghost predicate Valid()
      reads this
    {
      if cachedListenSignature.None? then signedBy.None?
      else
        var c := cachedListenSignature.value;
        && signedBy.Some?
        && c.signature == scheme.GenerateSignature(ListenData(toISOString, c.timestamp), signedBy.value)
    }

    constructor (scheme: Scheme<Digest, Key, Sig, Wallet>, toISOString: nat -> string)
      ensures Valid() && this.scheme == scheme && this.toISOString == toISOString && cachedListenSignature.None?
    {
      this.scheme, this.toISOString, cachedListenSignature, signedBy := scheme, toISOString, None, None;
    }

    /** Nothing is cached, or it has been for five minutes. */
    predicate SignsAfresh(now: nat)
      reads this
    {
      cachedListenSignature.None? || now - cachedListenSignature.value.timestamp >= 300000
    }

    /** A signature over the listen data of its own timestamp that names this wallet. */
    ghost predicate Names(r: Signed<Sig>, wallet: Wallet) {
      scheme.RecoverWallet(ListenData(toISOString, r.timestamp), r.signature) == wallet
    }

    /**
     * generateListenTimestampAndSignature. What is returned at any time has not expired then, and it names the
     * wallet of the given key exactly when the cache holds nothing fresh or holds a signature of that key.
     */
    method GenerateListenTimestampAndSignature(now: nat, privateKey: Key) returns (r: Signed<Sig>)
      requires Valid()
      modifies this
      ensures Valid() && cachedListenSignature == Some(r) && now - r.timestamp < 300000
      ensures signedBy == if old(SignsAfresh(now)) then Some(privateKey) else old(signedBy)
      ensures if old(SignsAfresh(now)) then r.timestamp == now else Some(r) == old(cachedListenSignature)
      ensures old(SignsAfresh(now)) ==>
                var text := "{\"data\":\"listen\",\"timestamp\":" + Quote(toISOString(now)) + "}";
                r.signature == scheme.sign(scheme.keccak(text), privateKey)
      ensures scheme.RecoversAfterSign() && scheme.AddressesDistinct() ==>
                (Names(r, scheme.address(privateKey)) <==> old(SignsAfresh(now)) || old(signedBy) == Some(privateKey))
      ensures scheme.RecoversAfterSign() ==> Names(r, scheme.address(signedBy.value))
    {
      if cachedListenSignature.Some? {
        if HasExpired(cachedListenSignature.value.timestamp, now) {
          cachedListenSignature, signedBy := None, None;
        } else {
          return cachedListenSignature.value;
        }
      }
      ListenText(toISOString, now);
      r := Signed(now, scheme.GenerateSignature(ListenData(toISOString, now), privateKey));
      cachedListenSignature, signedBy := Some(r), Some(privateKey);
    }

    /** Two keys within the lifetime of one signature: the second caller gets a signature of the first key. */
    method SecondKeyGetsTheFirst(now: nat, later: nat, first: Key, second: Key) returns (r: Signed<Sig>)
      requires Valid() && SignsAfresh(now) && now <= later < now + MAX_SIGNATURE_AGE_MS
      requires scheme.RecoversAfterSign() && scheme.AddressesDistinct() && first != second
      modifies this
      ensures Names(r, scheme.address(first)) && !Names(r, scheme.address(second))
    {
      var _ := GenerateListenTimestampAndSignature(now, first);
      r := GenerateListenTimestampAndSignature(later, second);
    }
  }

  // ---------- The discovery provider's text ----------

  /** json.dumps with sort_keys: the items of each dictionary are sorted as they are printed. */
  function DiscoveryText(v: Json): string
    decreases v, 1
  {
    match v
    case Arr(items) => "[" + (DiscoveryItems(items) + "]")
    case Obj(ms) => "{" + (JoinRendered(RenderSorted(ms)) + "}")
    case _ => Print(v)
  }

  function DiscoveryItems(xs: seq<Json>): string
    decreases xs, 0
  {
    if xs == [] then ""
    else if |xs| == 1 then DiscoveryText(xs[0])
    else DiscoveryText(xs[0]) + ("," + DiscoveryItems(xs[1..]))
  }

  function RenderSorted(ms: seq<Entry<Json>>): seq<Entry<string>>
    decreases ms, 0
  {
    if ms == [] then []
    else Insert(CodePointLess, Entry(ms[0].key, DiscoveryText(ms[0].value)), RenderSorted(ms[1..]))
  }

  function JoinRendered(es: seq<Entry<string>>): string {
    if es == [] then ""
    else if |es| == 1 then PrintMember(es[0].key, es[0].value)
    else PrintMember(es[0].key, es[0].value) + ("," + JoinRendered(es[1..]))
  }

  function RenderAll(es: seq<Entry<Json>>): seq<Entry<string>> {
    if es == [] then [] else [Entry(es[0].key, Print(es[0].value))] + RenderAll(es[1..])
  }

  lemma {:induction false} InsertThenRender(e: Entry<Json>, es: seq<Entry<Json>>)
    ensures RenderAll(Insert(CodePointLess, e, es)) ==
            Insert(CodePointLess, Entry(e.key, Print(e.value)), RenderAll(es))
  {
    if es != [] && CodePointLess(es[0].key, e.key) {
      InsertThenRender(e, es[1..]);
      assert ([es[0]] + Insert(CodePointLess, e, es[1..]))[1..] == Insert(CodePointLess, e, es[1..]);
      assert RenderAll(es)[1..] == RenderAll(es[1..]);
    } else {
      assert ([e] + es)[1..] == es;
    }
  }

  lemma {:induction false} JoinOfRenderAll(es: seq<Entry<Json>>)
    ensures JoinRendered(RenderAll(es)) == PrintMembers(es)
  {
    if es != [] {
      JoinOfRenderAll(es[1..]);
      assert RenderAll(es)[1..] == RenderAll(es[1..]);
      assert es[1..] == [] <==> RenderAll(es[1..]) == [];
    }
  }

  /** Sorting while printing is the same as sorting first. */
  lemma {:induction false} SortWhilePrinting(v: Json)
    ensures DiscoveryText(v) == Print(SortKeysBy(CodePointLess, v))
    decreases v, 1
  {
    match v
    case Arr(xs) => SortItemsWhilePrinting(xs);
    case Obj(ms) =>
      SortMembersWhilePrinting(ms);
      JoinOfRenderAll(SortMembers(CodePointLess, ms));
    case _ =>
  }

  lemma {:induction false} SortItemsWhilePrinting(xs: seq<Json>)
    ensures DiscoveryItems(xs) == PrintItems(SortItems(CodePointLess, xs))
    decreases xs, 0
  {
    if xs != [] {
      SortWhilePrinting(xs[0]);
      SortItemsWhilePrinting(xs[1..]);
      assert SortItems(CodePointLess, xs)[1..] == SortItems(CodePointLess, xs[1..]);
    }
  }

  lemma {:induction false} SortMembersWhilePrinting(ms: seq<Entry<Json>>)
    ensures RenderSorted(ms) == RenderAll(SortMembers(CodePointLess, ms))
    decreases ms, 0
  {
    if ms != [] {
      SortWhilePrinting(ms[0].value);
      SortMembersWhilePrinting(ms[1..]);
      InsertThenRender(SortMember(CodePointLess, ms[0]), SortMembers(CodePointLess, ms[1..]));
    }
  }

  // ---------- When the two services sign the same text ----------

  /** In every object of v, the two orders put any two of its keys the same way round. */
  ghost predicate OrdersAgree(v: Json) {
    match v
    case Arr(items) => forall x | x in items :: OrdersAgree(x)
    case Obj(ms) =>
      && KeysSameWayRound(ms)
      && forall m | m in ms :: OrdersAgree(m.value)
    case _ => true
  }

  predicate SameWayRound(k: string, l: string) {
    PropertyLess(k, l) == CodePointLess(k, l)
  }

  lemma {:induction false} SortsAgree(v: Json)
    requires WellFormed(v)
    ensures SortKeysBy(PropertyLess, v) == SortKeysBy(CodePointLess, v) <==> OrdersAgree(v)
    decreases v
  {
    match v
    case Arr(xs) =>
      forall i | 0 <= i < |xs|
        ensures SortItems(PropertyLess, xs)[i] == SortItems(CodePointLess, xs)[i] <==> OrdersAgree(xs[i])
      {
        SortItemsAt(PropertyLess, xs, i);
        SortItemsAt(CodePointLess, xs, i);
        SortsAgree(xs[i]);
      }
    case Obj(ms) =>
      forall m | m in ms
        ensures SortMember(PropertyLess, m) == SortMember(CodePointLess, m) <==> OrdersAgree(m.value)
      {
        SortsAgree(m.value);
      }
      MemberSortsAgree(ms);
    case _ =>
  }

  lemma MemberSortsAgree(ms: seq<Entry<Json>>)
    requires DistinctKeys(ms)
    ensures SortMembers(PropertyLess, ms) == SortMembers(CodePointLess, ms) <==>
            KeysSameWayRound(ms) &&
            (forall m | m in ms :: SortMember(PropertyLess, m) == SortMember(CodePointLess, m))
  {
    PropertyLessIsTotal();
    CodePointLessIsTotal();
    SortMembersProperties(PropertyLess, ms);
    SortMembersProperties(CodePointLess, ms);
    var a, b := SortMembers(PropertyLess, ms), SortMembers(CodePointLess, ms);
    if a == b {
      EqualSortsAgree(ms, a);
    } else if KeysSameWayRound(ms) && forall m | m in ms :: SortMember(PropertyLess, m) == SortMember(CodePointLess, m) {
      AgreeingSortsEqual(ms, a, b);
    }
  }

  ghost predicate KeysSameWayRound(ms: seq<Entry<Json>>) {
    forall m, n | m in ms && n in ms :: SameWayRound(m.key, n.key)
  }

  lemma EqualSortsAgree(ms: seq<Entry<Json>>, a: seq<Entry<Json>>)
    requires StrictTotal(PropertyLess) && StrictTotal(CodePointLess)
    requires Sorted(PropertyLess, a) && Sorted(CodePointLess, a)
    requires forall m | m in ms :: SortMember(PropertyLess, m) in a && SortMember(CodePointLess, m) in a
    ensures KeysSameWayRound(ms)
    ensures forall m | m in ms :: SortMember(PropertyLess, m) == SortMember(CodePointLess, m)
  {
    SortedHasDistinctKeys(PropertyLess, a);
    forall m, n | m in ms && n in ms ensures SameWayRound(m.key, n.key) {
      SortedBothWays(PropertyLess, CodePointLess, a, SortMember(PropertyLess, m), SortMember(PropertyLess, n));
    }
  }

  lemma AgreeingSortsEqual(ms: seq<Entry<Json>>, a: seq<Entry<Json>>, b: seq<Entry<Json>>)
    requires StrictTotal(CodePointLess) && Sorted(PropertyLess, a) && Sorted(CodePointLess, b)
    requires KeysSameWayRound(ms)
    requires forall m | m in ms :: SortMember(PropertyLess, m) == SortMember(CodePointLess, m)
    requires forall m | m in ms :: SortMember(PropertyLess, m) in a && SortMember(CodePointLess, m) in b
    requires forall e | e in a :: exists m :: m in ms && e == SortMember(PropertyLess, m)
    requires forall e | e in b :: exists m :: m in ms && e == SortMember(CodePointLess, m)
    ensures a == b
  {
    forall i, j | 0 <= i < j < |a| ensures CodePointLess(a[i].key, a[j].key) {
      assert a[i] in a && a[j] in a;
      var m :| m in ms && a[i] == SortMember(PropertyLess, m);
      var n :| n in ms && a[j] == SortMember(PropertyLess, n);
      assert SameWayRound(m.key, n.key);
    }
    SortedIsUnique(CodePointLess, a, b);
  }

  lemma SortedBothWays<T>(less: KeyOrder, other: KeyOrder, a: seq<Entry<T>>, e: Entry<T>, f: Entry<T>)
    requires StrictTotal(less) && StrictTotal(other)
    requires Sorted(less, a) && Sorted(other, a) && e in a && f in a
    ensures less(e.key, f.key) <==> other(e.key, f.key)
  {
    var i :| 0 <= i < |a| && a[i] == e;
    var j :| 0 <= j < |a| && a[j] == f;
    if i < j {
      assert less(a[i].key, a[j].key) && other(a[i].key, a[j].key);
    } else if j < i {
      assert less(a[j].key, a[i].key) && other(a[j].key, a[i].key);
    }
  }

  /** The two services sign the same text for v exactly when the two orders agree on the keys of its objects. */
  lemma ServicesSignSameText(v: Json)
    requires WellFormed(v)
    ensures SignedText(v) == DiscoveryText(v) <==> OrdersAgree(v)
  {
    SortWhilePrinting(v);
    SortsAgree(v);
    if SignedText(v) == DiscoveryText(v) {
      PrintIsInjective(SortKeys(v), SortKeysBy(CodePointLess, v));
    }
  }

  /** The key is no array index and lies in the basic multilingual plane. */
  predicate PlainKey(k: string) {
    !IsArrayIndex(k) && forall i | 0 <= i < |k| :: k[i] as int < 0x1_0000
  }

  predicate PlainKeys(v: Json) {
    match v
    case Arr(items) => forall x | x in items :: PlainKeys(x)
    case Obj(ms) => forall m | m in ms :: PlainKey(m.key) && PlainKeys(m.value)
    case _ => true
  }

  lemma {:induction false} Utf16OfBasicPlane(k: string)
    requires forall i | 0 <= i < |k| :: k[i] as int < 0x1_0000
    ensures Utf16(k) == CodePoints(k)
  {
    if k != "" {
      Utf16OfBasicPlane(k[1..]);
    }
  }

  lemma {:induction false} PlainKeysAgree(v: Json)
    requires PlainKeys(v)
    ensures OrdersAgree(v)
    decreases v
  {
    match v
    case Arr(items) =>
      forall x | x in items ensures OrdersAgree(x) { PlainKeysAgree(x); }
    case Obj(ms) =>
      forall m | m in ms ensures OrdersAgree(m.value) { PlainKeysAgree(m.value); }
      forall m, n | m in ms && n in ms ensures SameWayRound(m.key, n.key) {
        Utf16OfBasicPlane(m.key);
        Utf16OfBasicPlane(n.key);
        assert ([1] + Utf16(m.key))[1..] == Utf16(m.key) && ([1] + Utf16(n.key))[1..] == Utf16(n.key);
      }
    case _ =>
  }

  /** Neither half of PlainKey can be dropped: index keys break the agreement, */
  lemma IndexKeysDisagree()
    ensures var v := Obj([Entry("10", Null), Entry("9", Null)]);
            WellFormed(v) && SignedText(v) != DiscoveryText(v)
  {
    assert DigitsValue("10", 0) == 10 by {
      assert "10"[1..] == "0" && "0"[1..] == "";
    }
    assert Decimal(10) == "10" && Decimal(9) == "9";
    assert DigitsValue("9", 0) == 9 by {
      assert "9"[1..] == "";
    }
    assert PropertyLess("9", "10") by {
      assert PropertyRank("10") == [0, 10] && PropertyRank("9") == [0, 9];
      assert [0, 9][1..] == [9] && [0, 10][1..] == [10];
    }
    assert !CodePointLess("9", "10") by {
      assert CodePoints("10")[0] == 49 && CodePoints("9")[0] == 57;
    }
    KeysDisagree("9", "10");
  }

  /** and so does a key outside the basic plane beside one near its end. */
  lemma AstralKeysDisagree()
    ensures var v := Obj([Entry("\U{FFFD}", Null), Entry("\U{1F600}", Null)]);
            WellFormed(v) && SignedText(v) != DiscoveryText(v)
  {
    var k, l := "\U{1F600}", "\U{FFFD}";
    assert PropertyLess(k, l) by {
      assert !IsDigit(k[0]) && !IsDigit(l[0]);
      assert Utf16(k)[0] == 0xD83D && Utf16(l)[0] == 0xFFFD;
      assert PropertyRank(k)[1..] == Utf16(k) && PropertyRank(l)[1..] == Utf16(l);
    }
    assert !CodePointLess(k, l) by {
      assert CodePoints(k)[0] == 0x1F600 && CodePoints(l)[0] == 0xFFFD;
    }
    KeysDisagree(k, l);
  }

  lemma KeysDisagree(k: string, l: string)
    requires k != l && !SameWayRound(k, l)
    ensures var v := Obj([Entry(l, Null), Entry(k, Null)]);
            WellFormed(v) && SignedText(v) != DiscoveryText(v)
  {
    var ms := [Entry(l, Null), Entry(k, Null)];
    assert ms[0].key in Keys(ms) && ms[1].key in Keys(ms);
    ServicesSignSameText(Obj(ms));
  }
}

// _truncateBull of creator-node/src/serviceRegistry.js, which cuts down job data for display.
module BullTruncation {
  import opened Json
  import opened ApiSigning

  const MAX_DEPTH := 7
  const MAX_ELEMENTS := 100
  const MAX_STRING := 10000

  function StringNote(n: nat): string { "[Truncated string of length " + Decimal(n) + "]" }

  function ArrayNote(n: nat): string { "[Truncated array with " + Decimal(n) + " elements]" }

  function ObjectNote(n: nat): string { "[Truncated object with " + Decimal(n) + " keys]" }

  /** value.length, which counts UTF-16 code units. */
  function Length(s: string): nat { |Utf16(s)| }

  // ---------- What the limits are ----------

  /**
   * v, met at this depth, is within the limits. A string counts as a member of an object only, and the
   * keys of an object as well; a member that is an empty object is let through at any depth.
   */
  predicate Fits(v: Json, depth: nat)
    decreases v, 0
  {
    match v
    case Arr(items) =>
      depth < MAX_DEPTH && |items| <= MAX_ELEMENTS && forall x | x in items :: Fits(x, depth + 1)
    case Obj(ms) => depth < MAX_DEPTH && forall m | m in ms :: MemberFits(m.value, depth)
    case _ => true
  }

  /** v as a member of an object met at this depth. */
  predicate MemberFits(v: Json, depth: nat)
    decreases v, 1
  {
    match v
    case Str(s) => Length(s) <= MAX_STRING
    case Arr(items) => |items| <= MAX_ELEMENTS && Fits(v, depth + 1)
    case Obj(ms) => ms == [] || (|ms| <= MAX_ELEMENTS && Fits(v, depth + 1))
    case _ => true
  }

  /** At most n containers that hold anything are nested in v. */
  predicate NestedAtMost(v: Json, n: nat) {
    match v
    case Arr(items) => items == [] || (n > 0 && forall x | x in items :: NestedAtMost(x, n - 1))
    case Obj(ms) => ms == [] || (n > 0 && forall m | m in ms :: NestedAtMost(m.value, n - 1))
    case _ => true
  }

  predicate ArraysAtMost(v: Json, n: nat) {
    match v
    case Arr(items) => |items| <= n && forall x | x in items :: ArraysAtMost(x, n)
    case Obj(ms) => forall m | m in ms :: ArraysAtMost(m.value, n)
    case _ => true
  }

  /** ECMAScript allows strings, arrays and objects of up to 2^53 - 1 elements. */
  predicate Storable(v: Json) {
    match v
    case Str(s) => Length(s) <= MAX_SAFE_INTEGER
    case Arr(items) => |items| <= MAX_SAFE_INTEGER && forall x | x in items :: Storable(x)
    case Obj(ms) => |ms| <= MAX_SAFE_INTEGER && forall m | m in ms :: Storable(m.value)
    case _ => true
  }

  /** A string is as long as its characters, and those beyond the basic plane count twice. */
  lemma {:induction false} LengthExactly(s: string, beyond: set<nat>)
    requires beyond == set i: nat | i < |s| && s[i] as int >= 0x10000
    ensures Length(s) == |s| + |beyond|
  {
    if s != "" {
      var n := |s| - 1;
      LengthOfLast(s[..n], s[n]);
      assert s[..n] + [s[n]] == s;
      var before := set i: nat | i < n && s[..n][i] as int >= 0x10000;
      LengthExactly(s[..n], before);
      assert beyond == if s[n] as int >= 0x10000 then before + {n} else before;
    }
  }

  lemma {:induction false} LengthOfLast(s: string, c: char)
    ensures Length(s + [c]) == Length(s) + if c as int < 0x10000 then 1 else 2
  {
    if s == "" {
      assert s + [c] == [c] && [c][1..] == "";
    } else {
      assert (s + [c])[1..] == s[1..] + [c];
      LengthOfLast(s[1..], c);
    }
  }

  // ---------- The truncation ----------

  function Truncated(v: Json, depth: nat): Json
    decreases v, 0
  {
    match v
    case Arr(items) =>
      if depth >= MAX_DEPTH || |items| > MAX_ELEMENTS then Str(ArrayNote(|items|))
      else Arr(seq(|items|, i requires 0 <= i < |items| => Truncated(items[i], depth + 1)))
    case Obj(ms) =>
      if depth >= MAX_DEPTH then Str(ObjectNote(|ms|))
      else Obj(seq(|ms|, i requires 0 <= i < |ms| => Entry(ms[i].key, TruncatedMember(ms[i].value, depth))))
    case _ => v
  }

  function TruncatedMember(v: Json, depth: nat): Json
    decreases v, 1
  {
    match v
    case Str(s) => if Length(s) > MAX_STRING then Str(StringNote(Length(s))) else v
    case Arr(items) => if |items| > MAX_ELEMENTS then Str(ArrayNote(|items|)) else Truncated(v, depth + 1)
    case Obj(ms) =>
      if ms == [] then v
      else if |ms| > MAX_ELEMENTS then Str(ObjectNote(|ms|))
      else Truncated(v, depth + 1)
    case _ => v
  }

  /** _truncateBull itself, which pushes onto a new array and assigns to the keys of a copy of the object. */
  method TruncateBull(dataToTruncate: Json, curDepth: nat) returns (r: Json)
    ensures r == Truncated(dataToTruncate, curDepth)
    decreases dataToTruncate
  {
    if dataToTruncate.Arr? {
      var items := dataToTruncate.items;
      if curDepth >= MAX_DEPTH || |items| > MAX_ELEMENTS {
        return Str(ArrayNote(|items|));
      }
      var truncatedArr := [];
      for k := 0 to |items|
        invariant truncatedArr == seq(k, i requires 0 <= i < k => Truncated(items[i], curDepth + 1))
      {
        var element := TruncateBull(items[k], curDepth + 1);
        truncatedArr := truncatedArr + [element];
      }
      return Arr(truncatedArr);
    }
    if dataToTruncate.Obj? {
      var members := dataToTruncate.members;
      if curDepth >= MAX_DEPTH {
        return Str(ObjectNote(|members|));
      }
      var json := members;
      for k := 0 to |members|
        invariant |json| == |members|
        invariant forall i | 0 <= i < k :: json[i] == Entry(members[i].key, TruncatedMember(members[i].value, curDepth))
        invariant forall i | k <= i < |members| :: json[i] == members[i]
      {
        var value := members[k].value;
        if value.Str? {
          value := if Length(value.s) > MAX_STRING then Str(StringNote(Length(value.s))) else value;
        } else if value.Arr? {
          if |value.items| > MAX_ELEMENTS {
            value := Str(ArrayNote(|value.items|));
          } else {
            value := TruncateBull(value, curDepth + 1);
          }
        } else if value.Obj? && value.members != [] {
          if |value.members| > MAX_ELEMENTS {
            value := Str(ObjectNote(|value.members|));
          } else {
            value := TruncateBull(value, curDepth + 1);
          }
        }
        json := json[k := Entry(members[k].key, value)];
      }
      return Obj(json);
    }
    return dataToTruncate;
  }

  // ---------- Lengths of the notes ----------

  function PowerOfTen(k: nat): nat { if k == 0 then 1 else 10 * PowerOfTen(k - 1) }

  lemma {:induction false} DigitsBelow(n: nat, k: nat)
    requires k > 0 && n < PowerOfTen(k)
    ensures |Decimal(n)| <= k
  {
    if n >= 10 {
      DigitsBelow(n / 10, k - 1);
    }
  }

  lemma {:induction false} AtMostTwoUnitsEach(s: string)
    ensures Length(s) <= 2 * |s|
  {
    if s != "" {
      AtMostTwoUnitsEach(s[1..]);
    }
  }

  lemma NotesAreShort(n: nat)
    requires n <= MAX_SAFE_INTEGER
    ensures Length(StringNote(n)) <= 120 && Length(ArrayNote(n)) <= 120 && Length(ObjectNote(n)) <= 120
  {
    AtMostTwoUnitsEach(StringNote(n));
    AtMostTwoUnitsEach(ArrayNote(n));
    AtMostTwoUnitsEach(ObjectNote(n));
    assert PowerOfTen(4) == 10000;
    assert PowerOfTen(8) == 100000000;
    assert PowerOfTen(12) == 1000000000000;
    assert PowerOfTen(16) == 10000000000000000;
    DigitsBelow(n, 16);
  }

  // ---------- Properties ----------

  /** Truncation leaves exactly the values within the limits as they are. */
  lemma {:induction false} KeepsExactlyWhatFits(v: Json, depth: nat)
    requires Storable(v)
    ensures Truncated(v, depth) == v <==> Fits(v, depth)
    decreases v, 0
  {
    if v.Arr? {
      if depth < MAX_DEPTH && |v.items| <= MAX_ELEMENTS {
        var items := Truncated(v, depth).items;
        forall i | 0 <= i < |v.items| ensures items[i] == v.items[i] <==> Fits(v.items[i], depth + 1) {
          assert v.items[i] in v.items;
          KeepsExactlyWhatFits(v.items[i], depth + 1);
        }
        assert items == v.items <==> forall i | 0 <= i < |v.items| :: items[i] == v.items[i];
        assert Truncated(v, depth) == v <==> items == v.items;
        if Fits(v, depth) {
          forall i | 0 <= i < |v.items| ensures items[i] == v.items[i] {
            assert v.items[i] in v.items;
          }
        }
        forall x | x in v.items && !Fits(x, depth + 1) ensures items != v.items {
          var i :| 0 <= i < |v.items| && v.items[i] == x;
          assert items[i] != v.items[i];
        }
      }
    } else if v.Obj? {
      forall m | m in v.members ensures TruncatedMember(m.value, depth) == m.value <==> MemberFits(m.value, depth) {
        KeepsExactlyMembersThatFit(m.value, depth);
      }
      if depth < MAX_DEPTH {
        var members := Truncated(v, depth).members;
        forall i | 0 <= i < |v.members|
          ensures members[i] == v.members[i] <==> MemberFits(v.members[i].value, depth)
        {
          assert v.members[i] in v.members;
        }
        assert members == v.members <==> forall i | 0 <= i < |v.members| :: members[i] == v.members[i];
      }
    }
  }

  lemma {:induction false} KeepsExactlyMembersThatFit(v: Json, depth: nat)
    requires Storable(v)
    ensures TruncatedMember(v, depth) == v <==> MemberFits(v, depth)
    decreases v, 1
  {
    if v.Str? {
      NotesAreShort(Length(v.s));
    } else if v.Arr? || v.Obj? {
      KeepsExactlyWhatFits(v, depth + 1);
    }
  }

  /** Whatever goes in, what comes out is within the limits. */
  lemma {:induction false} ResultFits(v: Json, depth: nat)
    requires Storable(v)
    ensures Fits(Truncated(v, depth), depth) && Storable(Truncated(v, depth))
    decreases v, 0
  {
    var r := Truncated(v, depth);
    if v.Arr? {
      NotesAreShort(|v.items|);
      if r.Arr? {
        forall i | 0 <= i < |r.items| ensures Fits(r.items[i], depth + 1) && Storable(r.items[i]) {
          ResultFits(v.items[i], depth + 1);
        }
      }
    } else if v.Obj? {
      NotesAreShort(|v.members|);
      if r.Obj? {
        forall i | 0 <= i < |r.members| ensures MemberFits(r.members[i].value, depth) && Storable(r.members[i].value) {
          ResultMemberFits(v.members[i].value, depth);
        }
      }
    }
  }

  lemma {:induction false} ResultMemberFits(v: Json, depth: nat)
    requires Storable(v)
    ensures MemberFits(TruncatedMember(v, depth), depth) && Storable(TruncatedMember(v, depth))
    decreases v, 1
  {
    if v.Str? {
      NotesAreShort(Length(v.s));
    } else if v.Arr? {
      NotesAreShort(|v.items|);
      ResultFits(v, depth + 1);
    } else if v.Obj? {
      NotesAreShort(|v.members|);
      ResultFits(v, depth + 1);
    }
  }

  /** What is within the limits nests at most 7 containers that hold anything, none an array over 100. */
  lemma {:induction false} FittingIsShallow(v: Json, depth: nat)
    requires Fits(v, depth) && depth <= MAX_DEPTH
    ensures NestedAtMost(v, MAX_DEPTH - depth) && ArraysAtMost(v, MAX_ELEMENTS)
    decreases v
  {
    if v.Arr? {
      forall x | x in v.items ensures NestedAtMost(x, MAX_DEPTH - depth - 1) && ArraysAtMost(x, MAX_ELEMENTS) {
        FittingIsShallow(x, depth + 1);
      }
    } else if v.Obj? {
      forall m | m in v.members
        ensures NestedAtMost(m.value, MAX_DEPTH - depth - 1) && ArraysAtMost(m.value, MAX_ELEMENTS)
      {
        if m.value.Arr? || (m.value.Obj? && m.value.members != []) {
          FittingIsShallow(m.value, depth + 1);
        }
      }
    }
  }

  /** The result is within the limits, so truncating again changes nothing. */
  lemma TruncationIsIdempotent(v: Json)
    requires Storable(v)
    ensures Truncated(Truncated(v, 0), 0) == Truncated(v, 0)
    ensures NestedAtMost(Truncated(v, 0), 7) && ArraysAtMost(Truncated(v, 0), 100)
  {
    ResultFits(v, 0);
    KeepsExactlyWhatFits(Truncated(v, 0), 0);
    FittingIsShallow(Truncated(v, 0), 0);
  }

  // ---------- The documented limits ----------

  /** Every string, array and object is within its limit, wherever it is; the documentation promises as much. */
  predicate WithinDocumentedLimits(v: Json) {
    match v
    case Str(s) => Length(s) <= 10000
    case Arr(items) => |items| <= 100 && forall x | x in items :: WithinDocumentedLimits(x)
    case Obj(ms) => |ms| <= 100 && forall m | m in ms :: WithinDocumentedLimits(m.value)
    case _ => true
  }

  /** Containers are nested at most n deep in v, whether they hold anything or not. */
  predicate HeightAtMost(v: Json, n: nat) {
    match v
    case Arr(items) => n > 0 && forall x | x in items :: HeightAtMost(x, n - 1)
    case Obj(ms) => n > 0 && forall m | m in ms :: HeightAtMost(m.value, n - 1)
    case _ => true
  }

  lemma {:induction false} DocumentedLimitsFit(v: Json, depth: nat)
    requires depth <= 7 && HeightAtMost(v, 7 - depth) && WithinDocumentedLimits(v)
    ensures Fits(v, depth) && Storable(v)
    decreases v
  {
    if v.Arr? {
      forall x | x in v.items ensures Fits(x, depth + 1) && Storable(x) {
        DocumentedLimitsFit(x, depth + 1);
      }
    } else if v.Obj? {
      forall m | m in v.members ensures MemberFits(m.value, depth) && Storable(m.value) {
        DocumentedLimitsFit(m.value, depth + 1);
      }
    }
  }

  /** What is within the documented limits and no deeper than 7 containers comes out as it went in. */
  lemma WithinLimitsIsKept(v: Json)
    requires HeightAtMost(v, 7) && WithinDocumentedLimits(v)
    ensures Truncated(v, 0) == v
  {
    DocumentedLimitsFit(v, 0);
    KeepsExactlyWhatFits(v, 0);
  }

  /** An array or an object that is looked into: at the root or in an array, */
  predicate Survives(v: Json, depth: nat) {
    depth < MAX_DEPTH && ((v.Arr? && |v.items| <= MAX_ELEMENTS) || v.Obj?)
  }

  /** and as a member of an object, whose own depth this is. */
  predicate SurvivesAsMember(v: Json, depth: nat) {
    Survives(v, depth + 1) && (v.Obj? ==> |v.members| <= MAX_ELEMENTS)
  }

  /** x is an element of an array, somewhere below v and containers that survive; at is its depth. */
  ghost predicate ElementBelow(v: Json, depth: nat, x: Json, at: nat)
    decreases v
  {
    Survives(v, depth) &&
    if v.Arr? then
      (x in v.items && at == depth + 1) || exists e :: e in v.items && ElementBelow(e, depth + 1, x, at)
    else
      exists m :: m in v.members && SurvivesAsMember(m.value, depth) && ElementBelow(m.value, depth + 1, x, at)
  }

  /** The string or the object that no check of the code ever measures. */
  predicate Oversize(x: Json, at: nat) {
    (x.Str? && Length(x.s) > MAX_STRING) || (x.Obj? && |x.members| > MAX_ELEMENTS && at < MAX_DEPTH)
  }

  ghost predicate OversizeElementBelow(v: Json, depth: nat) {
    exists x, at :: ElementBelow(v, depth, x, at) && Oversize(x, at)
  }

  lemma NoteIsWithinLimits(n: nat)
    requires n <= MAX_SAFE_INTEGER
    ensures WithinDocumentedLimits(Str(StringNote(n)))
    ensures WithinDocumentedLimits(Str(ArrayNote(n)))
    ensures WithinDocumentedLimits(Str(ObjectNote(n)))
  {
    NotesAreShort(n);
  }

  /** What comes out for v, at the root or as an element, is within the documented limits. */
  lemma {:induction false} WithinLimitsExactly(v: Json, depth: nat)
    requires Storable(v)
    ensures WithinDocumentedLimits(Truncated(v, depth)) <==> !Oversize(v, depth) && !OversizeElementBelow(v, depth)
    decreases v, 0
  {
    if v.Arr? {
      NoteIsWithinLimits(|v.items|);
      if Survives(v, depth) {
        forall x | x in v.items
          ensures WithinDocumentedLimits(Truncated(x, depth + 1)) <==>
                    !Oversize(x, depth + 1) && !OversizeElementBelow(x, depth + 1)
        {
          WithinLimitsExactly(x, depth + 1);
        }
        ArrayWithinLimits(v, depth);
      }
    } else if v.Obj? {
      NoteIsWithinLimits(|v.members|);
      if Survives(v, depth) {
        forall m | m in v.members
          ensures WithinDocumentedLimits(TruncatedMember(m.value, depth)) <==>
                    !(SurvivesAsMember(m.value, depth) && OversizeElementBelow(m.value, depth + 1))
        {
          MemberWithinLimitsExactly(m.value, depth);
        }
        ObjectWithinLimits(v, depth);
      }
    }
  }

  lemma {:induction false} MemberWithinLimitsExactly(v: Json, depth: nat)
    requires Storable(v) && depth < MAX_DEPTH
    ensures WithinDocumentedLimits(TruncatedMember(v, depth)) <==>
              !(SurvivesAsMember(v, depth) && OversizeElementBelow(v, depth + 1))
    decreases v, 1
  {
    if v.Str? {
      NoteIsWithinLimits(Length(v.s));
    } else if v.Arr? {
      NoteIsWithinLimits(|v.items|);
      WithinLimitsExactly(v, depth + 1);
    } else if v.Obj? {
      NoteIsWithinLimits(|v.members|);
      WithinLimitsExactly(v, depth + 1);
    }
  }

  /** An array that survives is within the limits exactly when what comes out for each element is. */
  lemma ArrayWithinLimits(v: Json, depth: nat)
    requires v.Arr? && Survives(v, depth)
    requires forall x | x in v.items ::
               WithinDocumentedLimits(Truncated(x, depth + 1)) <==>
                 !Oversize(x, depth + 1) && !OversizeElementBelow(x, depth + 1)
    ensures WithinDocumentedLimits(Truncated(v, depth)) <==> !OversizeElementBelow(v, depth)
  {
    var out := Truncated(v, depth).items;
    if WithinDocumentedLimits(Truncated(v, depth)) {
      forall x, at | ElementBelow(v, depth, x, at) ensures !Oversize(x, at) {
        if x in v.items && at == depth + 1 {
          var i :| 0 <= i < |v.items| && v.items[i] == x;
          assert out[i] in out;
        } else {
          var e :| e in v.items && ElementBelow(e, depth + 1, x, at);
          var i :| 0 <= i < |v.items| && v.items[i] == e;
          assert out[i] in out;
          assert !OversizeElementBelow(e, depth + 1);
        }
      }
    } else {
      var o :| o in out && !WithinDocumentedLimits(o);
      var i :| 0 <= i < |out| && out[i] == o;
      var e := v.items[i];
      assert e in v.items;
      if Oversize(e, depth + 1) {
        assert ElementBelow(v, depth, e, depth + 1);
      } else {
        var x, at :| ElementBelow(e, depth + 1, x, at) && Oversize(x, at);
        assert ElementBelow(v, depth, x, at);
      }
    }
  }

  lemma ObjectWithinLimits(v: Json, depth: nat)
    requires v.Obj? && Survives(v, depth)
    requires forall m | m in v.members ::
               WithinDocumentedLimits(TruncatedMember(m.value, depth)) <==>
                 !(SurvivesAsMember(m.value, depth) && OversizeElementBelow(m.value, depth + 1))
    ensures WithinDocumentedLimits(Truncated(v, depth)) <==> !Oversize(v, depth) && !OversizeElementBelow(v, depth)
  {
    var out := Truncated(v, depth).members;
    if WithinDocumentedLimits(Truncated(v, depth)) {
      forall x, at | ElementBelow(v, depth, x, at) ensures !Oversize(x, at) {
        var m :| m in v.members && SurvivesAsMember(m.value, depth) && ElementBelow(m.value, depth + 1, x, at);
        var i :| 0 <= i < |v.members| && v.members[i] == m;
        assert out[i] in out;
        assert !OversizeElementBelow(m.value, depth + 1);
      }
    } else if !Oversize(v, depth) {
      var o :| o in out && !WithinDocumentedLimits(o.value);
      var i :| 0 <= i < |out| && out[i] == o;
      var m := v.members[i];
      assert m in v.members;
      var x, at :| ElementBelow(m.value, depth + 1, x, at) && Oversize(x, at);
      assert ElementBelow(v, depth, x, at);
    }
  }

  /**
   * The documented limits are met exactly when the root, and every element of an array below containers that
   * survive, is neither a string over the limit nor an object over it that is not too deep to be cut anyway.
   */
  lemma DocumentedLimitsHoldExactly(v: Json)
    requires Storable(v)
    ensures WithinDocumentedLimits(Truncated(v, 0)) <==>
              !Oversize(v, 0) && forall x, at | ElementBelow(v, 0, x, at) :: !Oversize(x, at)
  {
    WithinLimitsExactly(v, 0);
  }

  lemma MembersBecomeNotes(k: string, s: string, l: string, ms: seq<Entry<Json>>, n: string, items: seq<Json>)
    requires Length(s) > 10000 && |ms| > 100 && |items| > 100
    ensures Truncated(Obj([Entry(k, Str(s)), Entry(l, Obj(ms)), Entry(n, Arr(items))]), 0)
         == Obj([Entry(k, Str(StringNote(Length(s)))), Entry(l, Str(ObjectNote(|ms|))), Entry(n, Str(ArrayNote(|items|)))])
  {
    var o := Obj([Entry(k, Str(s)), Entry(l, Obj(ms)), Entry(n, Arr(items))]);
    assert Truncated(o, 0).members
        == [Entry(k, Str(StringNote(Length(s)))), Entry(l, Str(ObjectNote(|ms|))), Entry(n, Str(ArrayNote(|items|)))];
  }

  /** As members of an object, values over a limit become notes that say how large they were. */
  lemma MembersAreCut(k: string, s: string, l: string, ms: seq<Entry<Json>>, n: string, items: seq<Json>)
    requires Length(s) > 10000 && |ms| > 100 && |items| > 100
    ensures Truncated(Obj([Entry(k, Str(s)), Entry(l, Obj(ms)), Entry(n, Arr(items))]), 0) == Obj([
              Entry(k, Str("[Truncated string of length " + Decimal(Length(s)) + "]")),
              Entry(l, Str("[Truncated object with " + Decimal(|ms|) + " keys]")),
              Entry(n, Str("[Truncated array with " + Decimal(|items|) + " elements]"))])
  {
    MembersBecomeNotes(k, s, l, ms, n, items);
  }

  /** As elements of an array, a string and an object over their limits get through whole. */
  lemma ArrayElementsAreNotCut(s: string, ms: seq<Entry<Json>>)
    requires 10000 < Length(s) <= MAX_SAFE_INTEGER
    requires 100 < |ms| <= MAX_SAFE_INTEGER && forall m | m in ms :: m.value == Null
    ensures Truncated(Arr([Str(s), Obj(ms)]), 0) == Arr([Str(s), Obj(ms)])
    ensures !WithinDocumentedLimits(Truncated(Arr([Str(s), Obj(ms)]), 0))
  {
    var v := Arr([Str(s), Obj(ms)]);
    assert v.items[0] in v.items;
    assert Fits(Str(s), 1) && Fits(Obj(ms), 1);
    assert forall x | x in v.items :: x == Str(s) || x == Obj(ms);
    assert Storable(Str(s)) && Storable(Obj(ms));
    KeepsExactlyWhatFits(v, 0);
  }
}

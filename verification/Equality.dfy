/** Deep comparison of values, and exactly when it means "same content". */
module Equality {
  import opened Decimal
  import opened Values

  predicate Equal(a: Value, b: Value)
    decreases a, 1
  {
    if a.Arr? && b.Arr? then EqualArrays(a, b)
    else if IsObject(a) && IsObject(b) then EqualObjects(a, b)
    else a == b
  }

  predicate EqualArrays(a: Value, b: Value)
    requires a.Arr? && b.Arr?
    decreases a, 0
  {
    |a.items| == |b.items| && forall i | 0 <= i < |a.items| :: Equal(a.items[i], b.items[i])
  }

  /** Compares the number of keys, then the members named by the first object's keys. */
  predicate EqualObjects(a: Value, b: Value)
    requires IsObject(a) && IsObject(b)
    decreases a, 0
  {
    && |OwnFields(a)| == |OwnFields(b)|
    && forall k | k in OwnFields(a) :: Equal(OwnFields(a)[k], Lookup(b, k))
  }

  /** The content of a value: arrays read as objects keyed by their indices. */
  function Norm(v: Value): Value
    decreases v, 1
  {
    if IsObject(v) then Obj(NormFields(v)) else v
  }

  function NormFields(v: Value): (m: map<string, Value>)
    requires IsObject(v)
    ensures m.Keys == OwnFields(v).Keys
    decreases v, 0
  {
    map k | k in OwnFields(v) :: Norm(OwnFields(v)[k])
  }

  /** Objects have the same content exactly if they have the same keys and those the same content. */
  lemma SameContentExactly(a: Value, b: Value)
    ensures !IsObject(a) || !IsObject(b) ==> (Norm(a) == Norm(b) <==> a == b)
    ensures IsObject(a) && IsObject(b) ==>
              (Norm(a) == Norm(b) <==>
                && OwnFields(a).Keys == OwnFields(b).Keys
                && forall k | k in OwnFields(a) :: Norm(OwnFields(a)[k]) == Norm(OwnFields(b)[k]))
  {
    if IsObject(a) && IsObject(b) {
      var m, n := NormFields(a), NormFields(b);
      if m == n {
        forall k | k in OwnFields(a) ensures Norm(OwnFields(a)[k]) == Norm(OwnFields(b)[k]) { assert m[k] == n[k]; }
      } else if m.Keys == n.Keys {
        assert exists k | k in m :: m[k] != n[k];
      }
    }
  }

  /**
   An object that some array passes for: one key is `length` with the number of keys as its value,
   and every other key is an index below that number.
   */
  predicate PassesForArray(v: Value) {
    && v.Obj?
    && "length" in v.fields
    && v.fields["length"] == Num(|v.fields| as real)
    && forall k | k in v.fields && k != "length" :: k in IndexKeys(|v.fields|)
  }

  /** Nothing inside the value is undefined, and no object in it passes for an array. */
  predicate Solid(v: Value)
    decreases v
  {
    && !PassesForArray(v)
    && forall k | k in OwnFields(v) :: !OwnFields(v)[k].Undefined? && Solid(OwnFields(v)[k])
  }

  lemma {:induction false} Reflexive(v: Value)
    ensures Equal(v, v)
    decreases v
  {
    match v
    case Arr(items) =>
      forall i | 0 <= i < |items| ensures Equal(items[i], items[i]) { Reflexive(items[i]); }
    case Obj(m) =>
      forall k | k in m ensures Equal(m[k], m[k]) { Reflexive(m[k]); }
    case _ =>
  }

  lemma ArraysAsObjects(a: Value, b: Value)
    requires a.Arr? && b.Arr?
    ensures EqualArrays(a, b) <==> EqualObjects(a, b)
  {
    SameCounts(a, b);
    if EqualArrays(a, b) { ArraysToObjects(a, b); }
    if EqualObjects(a, b) { ObjectsToArrays(a, b); }
  }

  lemma SameCounts(a: Value, b: Value)
    requires a.Arr? && b.Arr?
    ensures |OwnFields(a)| == |a.items| && |OwnFields(b)| == |b.items|
  {
    IndexKeysCount(|a.items|);
    IndexKeysCount(|b.items|);
    assert |OwnFields(a)| == |OwnFields(a).Keys| && |OwnFields(b)| == |OwnFields(b).Keys|;
  }

  lemma ArraysToObjects(a: Value, b: Value)
    requires a.Arr? && b.Arr? && EqualArrays(a, b)
    ensures forall k | k in OwnFields(a) :: Equal(OwnFields(a)[k], Lookup(b, k))
  {
    forall k | k in OwnFields(a) ensures Equal(OwnFields(a)[k], Lookup(b, k)) {
      var i :| 0 <= i < |a.items| && k == Print(i);
      assert Equal(a.items[i], b.items[i]) && Print(i) in OwnFields(b);
    }
  }

  lemma ObjectsToArrays(a: Value, b: Value)
    requires a.Arr? && b.Arr? && |a.items| == |b.items| && EqualObjects(a, b)
    ensures forall i | 0 <= i < |a.items| :: Equal(a.items[i], b.items[i])
  {
    forall i | 0 <= i < |a.items| ensures Equal(a.items[i], b.items[i]) {
      assert Print(i) in OwnFields(a) && Print(i) in OwnFields(b);
      assert Equal(OwnFields(a)[Print(i)], Lookup(b, Print(i)));
    }
  }

  /** A solid object has the keys of every object it equals. */
  lemma KeysAgree(a: Value, b: Value)
    requires IsObject(a) && IsObject(b)
    requires Solid(a) && EqualObjects(a, b)
    ensures OwnFields(a).Keys == OwnFields(b).Keys
  {
    var fa, fb := OwnFields(a), OwnFields(b);
    forall k | k in fa ensures k in fb || IsLengthOf(b, k, fa[k]) { KeyOrLength(a, b, k); }
    if b.Arr? { NoLength(a, b); }
    assert |fb.Keys| == |fb| && |fa.Keys| == |fa|;
    SameSize(fa.Keys, fb.Keys);
  }

  predicate IsLengthOf(b: Value, k: string, v: Value) {
    b.Arr? && k == "length" && v == Num(|b.items| as real)
  }

  lemma KeyOrLength(a: Value, b: Value, k: string)
    requires IsObject(a) && IsObject(b) && Solid(a) && EqualObjects(a, b) && k in OwnFields(a)
    ensures k in OwnFields(b) || IsLengthOf(b, k, OwnFields(a)[k])
  {
    assert Equal(OwnFields(a)[k], Lookup(b, k));
  }

  lemma NoLength(a: Value, b: Value)
    requires IsObject(a) && b.Arr? && !PassesForArray(a) && |OwnFields(a)| == |OwnFields(b)|
    requires forall k | k in OwnFields(a) :: k in OwnFields(b) || IsLengthOf(b, k, OwnFields(a)[k])
    ensures "length" !in OwnFields(a)
  {
    SameCounts(b, b);
    LengthIsNoIndex(|b.items|);
    if a.Arr? { LengthIsNoIndex(|a.items|); }
  }

  lemma SameSize<T>(s: set<T>, t: set<T>)
    requires s <= t && |s| == |t|
    ensures s == t
  {
    assert |t - s| == |t| - |s|;
  }

  lemma {:induction false} EqualMeansSameNorm(a: Value, b: Value)
    requires Solid(a)
    ensures Equal(a, b) <==> Norm(a) == Norm(b)
    decreases a
  {
    if IsObject(a) && IsObject(b) {
      var fa, fb := OwnFields(a), OwnFields(b);
      if a.Arr? && b.Arr? { ArraysAsObjects(a, b); }
      forall k | k in fa && k in fb ensures Equal(fa[k], fb[k]) <==> Norm(fa[k]) == Norm(fb[k]) {
        EqualMeansSameNorm(fa[k], fb[k]);
      }
      assert EqualObjects(a, b) <==> NormFields(a) == NormFields(b) by { SameMembers(a, b); }
    }
  }

  ghost predicate MembersDecided(a: Value, b: Value) {
    forall k | k in OwnFields(a) && k in OwnFields(b) ::
      Equal(OwnFields(a)[k], OwnFields(b)[k]) <==> Norm(OwnFields(a)[k]) == Norm(OwnFields(b)[k])
  }

  lemma SameMembers(a: Value, b: Value)
    requires IsObject(a) && IsObject(b) && Solid(a) && MembersDecided(a, b)
    ensures EqualObjects(a, b) <==> NormFields(a) == NormFields(b)
  {
    if EqualObjects(a, b) {
      KeysAgree(a, b);
      EqualMembersSameNorms(a, b);
    }
    if NormFields(a) == NormFields(b) {
      SameNormsEqualMembers(a, b);
    }
  }

  lemma EqualMembersSameNorms(a: Value, b: Value)
    requires IsObject(a) && IsObject(b) && MembersDecided(a, b)
    requires EqualObjects(a, b) && OwnFields(a).Keys == OwnFields(b).Keys
    ensures NormFields(a) == NormFields(b)
  {
    var fa, fb := OwnFields(a), OwnFields(b);
    forall k | k in fa ensures NormFields(a)[k] == NormFields(b)[k] { MemberNorms(a, b, k); }
    SameEntries(NormFields(a), NormFields(b));
  }

  lemma SameEntries<T>(m: map<string, T>, n: map<string, T>)
    requires m.Keys == n.Keys && forall k | k in m :: m[k] == n[k]
    ensures m == n
  {
  }

  lemma MemberNorms(a: Value, b: Value, k: string)
    requires IsObject(a) && IsObject(b) && MembersDecided(a, b) && EqualObjects(a, b)
    requires k in OwnFields(a) && k in OwnFields(b)
    ensures Norm(OwnFields(a)[k]) == Norm(OwnFields(b)[k])
  {
    assert Equal(OwnFields(a)[k], Lookup(b, k));
  }

  lemma SameNormsEqualMembers(a: Value, b: Value)
    requires IsObject(a) && IsObject(b) && MembersDecided(a, b)
    requires NormFields(a) == NormFields(b)
    ensures EqualObjects(a, b)
  {
    var fa, fb := OwnFields(a), OwnFields(b);
    assert fa.Keys == fb.Keys && |fa| == |fa.Keys| && |fb| == |fb.Keys|;
    forall k | k in fa ensures Equal(fa[k], Lookup(b, k)) { assert NormFields(a)[k] == NormFields(b)[k]; }
  }

  /** For a value that is not solid there is a different one that it "equals", but that does not equal it. */
  lemma {:induction false} Confusable(a: Value) returns (b: Value)
    requires !Solid(a)
    ensures Equal(a, b) && !Equal(b, a) && Norm(a) != Norm(b)
    decreases a
  {
    var fa := OwnFields(a);
    if PassesForArray(a) {
      b := ConfusableArray(a);
    } else {
      var k :| k in fa && (fa[k].Undefined? || !Solid(fa[k]));
      if fa[k].Undefined? {
        var newKey := RenamedMember(a, k, Null);
        b := Obj(Replaced(fa, k, newKey, Null));
        KeysDiffer(a, b, k);
      } else {
        var inner := Confusable(fa[k]);
        b := Obj(Replaced(fa, k, k, inner));
        ReplacedMember(a, k, k, inner);
        NormsDiffer(a, b, k);
        DifferAt(b, a, k);
      }
    }
  }

  lemma Similar(a: Value, fb: map<string, Value>)
    requires IsObject(a) && |OwnFields(a).Keys| == |fb.Keys|
    requires forall j | j in OwnFields(a) ::
             if j in fb then Equal(OwnFields(a)[j], fb[j]) else OwnFields(a)[j].Undefined?
    ensures Equal(a, Obj(fb))
  {
    assert |OwnFields(a).Keys| == |OwnFields(a)| && |fb.Keys| == |fb|;
    assert EqualObjects(a, Obj(fb));
  }

  lemma NormsDiffer(a: Value, b: Value, k: string)
    requires IsObject(a) && IsObject(b) && k in OwnFields(a) && k in OwnFields(b)
    requires Norm(OwnFields(a)[k]) != Norm(OwnFields(b)[k])
    ensures Norm(a) != Norm(b)
  {
    assert NormFields(a)[k] != NormFields(b)[k];
  }

  /** The fields with one member replaced by one under a key of its own. */
  function Replaced(m: map<string, Value>, k: string, newKey: string, v: Value): (r: map<string, Value>)
    requires k in m && (newKey !in m || newKey == k)
    ensures |r.Keys| == |m.Keys| && newKey in r && r[newKey] == v
    ensures forall j | j in m && j != k :: j in r && r[j] == m[j]
    ensures forall j | j in r :: j == newKey || (j in m && j != k)
  {
    var r := (m - {k})[newKey := v];
    assert r.Keys == m.Keys - {k} + {newKey};
    r
  }

  lemma ReplacedMember(a: Value, k: string, newKey: string, v: Value)
    requires IsObject(a) && k in OwnFields(a) && (newKey !in OwnFields(a) || newKey == k)
    requires if newKey == k then Equal(OwnFields(a)[k], v) else OwnFields(a)[k].Undefined?
    ensures Equal(a, Obj(Replaced(OwnFields(a), k, newKey, v)))
  {
    var fa := OwnFields(a);
    forall j | j in fa && j != k ensures Equal(fa[j], fa[j]) { Reflexive(fa[j]); }
    Similar(a, Replaced(fa, k, newKey, v));
  }

  lemma RenamedMember(a: Value, k: string, v: Value) returns (newKey: string)
    requires IsObject(a) && k in OwnFields(a) && OwnFields(a)[k].Undefined?
    ensures newKey !in OwnFields(a) && newKey != "length" && newKey != k
    ensures Equal(a, Obj(Replaced(OwnFields(a), k, newKey, v)))
    ensures !v.Undefined? ==> !Equal(Obj(Replaced(OwnFields(a), k, newKey, v)), a)
  {
    newKey := FreshKey(OwnFields(a).Keys + {"length"});
    ReplacedMember(a, k, newKey, v);
    if !v.Undefined? { NewMember(Replaced(OwnFields(a), k, newKey, v), a, newKey); }
  }

  lemma NewMember(fields: map<string, Value>, a: Value, k: string)
    requires k in fields && !fields[k].Undefined? && IsObject(a) && k !in OwnFields(a) && k != "length"
    ensures !Equal(Obj(fields), a)
  {
    assert Lookup(a, k) == Undefined;
    DifferAt(Obj(fields), a, k);
  }

  lemma KeysDiffer(a: Value, b: Value, k: string)
    requires IsObject(a) && IsObject(b) && k in OwnFields(a) && k !in OwnFields(b)
    ensures Norm(a) != Norm(b)
  {
    assert k in NormFields(a) && k !in NormFields(b);
  }

  /** The array that the object passes for: where an index is missing, it has the given filler. */
  function PassedFor(a: Value, filler: Value): (b: Value)
    requires PassesForArray(a)
    ensures b.Arr? && |b.items| == |a.fields|
    ensures forall i | 0 <= i < |b.items| ::
              b.items[i] == if Print(i) in a.fields then a.fields[Print(i)] else filler
  {
    Arr(seq(|a.fields|, i requires 0 <= i < |a.fields| => if Print(i) in a.fields then a.fields[Print(i)] else filler))
  }

  lemma EqualsPassedFor(a: Value, filler: Value)
    requires PassesForArray(a)
    ensures Equal(a, PassedFor(a, filler))
  {
    var n, b := |a.fields|, PassedFor(a, filler);
    IndexKeysCount(n);
    LengthIsNoIndex(n);
    assert |OwnFields(b)| == |OwnFields(b).Keys|;
    forall k | k in a.fields ensures Equal(a.fields[k], Lookup(b, k)) { EqualMember(a, filler, k); }
  }

  lemma EqualMember(a: Value, filler: Value, k: string)
    requires PassesForArray(a) && k in a.fields
    ensures Equal(a.fields[k], Lookup(PassedFor(a, filler), k))
  {
    Reflexive(a.fields[k]);
    if k == "length" {
      LengthIsNoIndex(|a.fields|);
    } else {
      var i :| 0 <= i < |a.fields| && k == Print(i);
      assert PassedFor(a, filler).items[i] == a.fields[k];
    }
  }

  /** One of its indices is missing: one of its keys is `length`. */
  lemma MissingIndex(a: Value) returns (i: nat)
    requires PassesForArray(a)
    ensures i < |a.fields| && Print(i) !in a.fields
  {
    var n, others := |a.fields|, a.fields.Keys - {"length"};
    IndexKeysCount(n);
    assert |others| == n - 1;
    OutsideSmaller(IndexKeys(n), others);
    LengthIsNoIndex(n);
    var k :| k in IndexKeys(n) - others;
    i :| 0 <= i < n && k == Print(i);
  }

  lemma OutsideSmaller<T>(s: set<T>, t: set<T>)
    requires |t| < |s|
    ensures s - t != {}
  {
    assert |s * t| + |t - s| == |t| && |s * t| + |s - t| == |s|;
  }

  /** One member of the first is enough to tell two objects apart. */
  lemma DifferAt(a: Value, b: Value, k: string)
    requires IsObject(a) && IsObject(b) && !(a.Arr? && b.Arr?)
    requires k in OwnFields(a) && !Equal(OwnFields(a)[k], Lookup(b, k))
    ensures !Equal(a, b)
  {
  }

  /** So the array has a filler where the object has nothing. */
  lemma FilledMember(a: Value, filler: Value) returns (k: string)
    requires PassesForArray(a)
    ensures k in OwnFields(PassedFor(a, filler)) && OwnFields(PassedFor(a, filler))[k] == filler
    ensures Lookup(a, k) == Undefined
    ensures "length" !in OwnFields(PassedFor(a, filler))
  {
    LengthIsNoIndex(|a.fields|);
    var i := MissingIndex(a);
    k := Print(i);
  }

  lemma ConfusableArray(a: Value) returns (b: Value)
    requires PassesForArray(a)
    ensures Equal(a, b) && !Equal(b, a) && Norm(a) != Norm(b)
  {
    b := PassedFor(a, Null);
    EqualsPassedFor(a, Null);
    var k := FilledMember(a, Null);
    KeysDiffer(a, b, "length");
    DifferAt(b, a, k);
  }

  lemma {:induction false} FreshKey(used: set<string>) returns (k: string)
    ensures k !in used && forall u | u in used :: |u| < |k|
    decreases |used|
  {
    if used == {} {
      k := "";
    } else {
      var u :| u in used;
      var shorter := FreshKey(used - {u});
      k := seq(|u| + |shorter| + 1, _ => 'x');
    }
  }

  /** `equal` decides content equality against every other value exactly for the solid values. */
  lemma EqualIsContentEqualityExactly(a: Value)
    ensures (forall b :: Equal(a, b) <==> Norm(a) == Norm(b)) <==> Solid(a)
  {
    if Solid(a) {
      forall b ensures Equal(a, b) <==> Norm(a) == Norm(b) { EqualMeansSameNorm(a, b); }
    } else {
      var b := Confusable(a);
    }
  }

  /** Whatever the other value is, the same content is equal. */
  lemma {:induction false} SameNormMeansEqual(a: Value, b: Value)
    requires Norm(a) == Norm(b)
    ensures Equal(a, b)
    decreases a
  {
    if IsObject(a) && IsObject(b) {
      var fa, fb := OwnFields(a), OwnFields(b);
      forall k | k in fa && k in fb ensures Equal(fa[k], fb[k]) {
        assert NormFields(a)[k] == NormFields(b)[k];
        SameNormMeansEqual(fa[k], fb[k]);
      }
      assert NormFields(a) == NormFields(b);
      SameKeysEqual(a, b);
      if a.Arr? && b.Arr? { ArraysAsObjects(a, b); }
    }
  }

  lemma SameKeysEqual(a: Value, b: Value)
    requires IsObject(a) && IsObject(b) && NormFields(a).Keys == NormFields(b).Keys
    requires forall k | k in OwnFields(a) && k in OwnFields(b) :: Equal(OwnFields(a)[k], OwnFields(b)[k])
    ensures EqualObjects(a, b)
  {
    var fa, fb := OwnFields(a), OwnFields(b);
    assert fa.Keys == fb.Keys && |fa| == |fa.Keys| && |fb| == |fb.Keys|;
    forall k | k in fa ensures Equal(fa[k], Lookup(b, k)) {}
  }

  /** From a solid value, `equal` is reflexive, symmetric and transitive. */
  lemma EqualIsEquivalence(a: Value, b: Value, c: Value)
    requires Solid(a)
    ensures Equal(a, a)
    ensures Equal(a, b) ==> Equal(b, a)
    ensures Equal(a, b) && Equal(b, c) ==> Equal(a, c)
  {
    Reflexive(a);
    EqualMeansSameNorm(a, b);
    EqualMeansSameNorm(a, c);
    if Norm(a) == Norm(b) {
      SameNormMeansEqual(b, a);
      SameNormSolid(a, b);
      EqualMeansSameNorm(b, c);
    }
  }

  lemma {:induction false} SameNormSolid(a: Value, b: Value)
    requires Norm(a) == Norm(b) && Solid(a)
    ensures Solid(b)
    decreases a
  {
    if IsObject(a) && IsObject(b) {
      var fa, fb := OwnFields(a), OwnFields(b);
      assert NormFields(a) == NormFields(b) && fa.Keys == fb.Keys;
      assert |fa| == |fa.Keys| && |fb| == |fb.Keys|;
      forall k | k in fb ensures !fb[k].Undefined? && Solid(fb[k]) {
        assert NormFields(a)[k] == NormFields(b)[k];
        SameNormSolid(fa[k], fb[k]);
      }
      StillNoArray(a, b);
    }
  }

  lemma StillNoArray(a: Value, b: Value)
    requires IsObject(a) && IsObject(b) && NormFields(a) == NormFields(b) && !PassesForArray(a)
    requires |OwnFields(a)| == |OwnFields(b)|
    ensures !PassesForArray(b)
  {
    assert OwnFields(a).Keys == OwnFields(b).Keys;
    if a.Arr? { LengthIsNoIndex(|a.items|); }
    if "length" in OwnFields(a) {
      assert NormFields(a)["length"] == NormFields(b)["length"];
    }
  }

  /** The comparison with a value can be turned round, whatever the other value, exactly if the value is solid. */
  lemma SymmetricExactly(a: Value)
    ensures (forall b :: Equal(a, b) ==> Equal(b, a)) <==> Solid(a)
  {
    if Solid(a) {
      forall b | Equal(a, b) ensures Equal(b, a) { EqualIsEquivalence(a, b, b); }
    } else {
      var b := Confusable(a);
    }
  }

  /** The comparison with c follows from those with b and of b with c. */
  ghost predicate Chains(a: Value, b: Value, c: Value) {
    Equal(a, b) && Equal(b, c) ==> Equal(a, c)
  }

  /** And so can it be chained. */
  lemma TransitiveExactly(a: Value)
    ensures (forall b, c :: Chains(a, b, c)) <==> Solid(a)
  {
    if Solid(a) {
      forall b, c ensures Chains(a, b, c) { EqualIsEquivalence(a, b, c); }
    } else {
      var b, c := BrokenChain(a);
      assert !Chains(a, b, c);
    }
  }

  /** For a value that is not solid, two steps lead where one does not. */
  lemma {:induction false} BrokenChain(a: Value) returns (b: Value, c: Value)
    requires !Solid(a)
    ensures Equal(a, b) && Equal(b, c) && !Equal(a, c)
    decreases a
  {
    var fa := OwnFields(a);
    if PassesForArray(a) {
      b, c := BrokenArrayChain(a);
    } else {
      var k :| k in fa && (fa[k].Undefined? || !Solid(fa[k]));
      if fa[k].Undefined? {
        b, c := BrokenGapChain(a, k);
      } else {
        var x, y := BrokenChain(fa[k]);
        b, c := Obj(Replaced(fa, k, k, x)), Obj(Replaced(fa, k, k, y));
        LiftChain(a, k, x, y);
      }
    }
  }

  lemma LiftChain(a: Value, k: string, x: Value, y: Value)
    requires IsObject(a) && k in OwnFields(a)
    requires Equal(OwnFields(a)[k], x) && Equal(x, y) && !Equal(OwnFields(a)[k], y)
    ensures var b, c := Obj(Replaced(OwnFields(a), k, k, x)), Obj(Replaced(OwnFields(a), k, k, y));
            Equal(a, b) && Equal(b, c) && !Equal(a, c)
  {
    var fa := OwnFields(a);
    var b, c := Obj(Replaced(fa, k, k, x)), Obj(Replaced(fa, k, k, y));
    ReplacedMember(a, k, k, x);
    ReplacedTwice(fa, k, x, y);
    ReplacedMember(b, k, k, y);
    DifferAt(a, c, k);
  }

  lemma ReplacedTwice(m: map<string, Value>, k: string, x: Value, y: Value)
    requires k in m
    ensures Replaced(Replaced(m, k, k, x), k, k, y) == Replaced(m, k, k, y)
  {
  }

  lemma BrokenArrayChain(a: Value) returns (b: Value, c: Value)
    requires PassesForArray(a)
    ensures Equal(a, b) && Equal(b, c) && !Equal(a, c)
  {
    b := PassedFor(a, Undefined);
    EqualsPassedFor(a, Undefined);
    var k := FilledMember(a, Undefined);
    var newKey := RenamedMember(b, k, Null);
    c := Obj(Replaced(OwnFields(b), k, newKey, Null));
    LengthMissing(a, OwnFields(b), k, newKey);
  }

  lemma LengthMissing(a: Value, fb: map<string, Value>, k: string, newKey: string)
    requires PassesForArray(a) && k in fb && newKey !in fb && newKey != "length" && "length" !in fb
    ensures !Equal(a, Obj(Replaced(fb, k, newKey, Null)))
  {
    DifferAt(a, Obj(Replaced(fb, k, newKey, Null)), "length");
  }

  lemma BrokenGapChain(a: Value, k: string) returns (b: Value, c: Value)
    requires IsObject(a) && k in OwnFields(a) && OwnFields(a)[k].Undefined?
    ensures Equal(a, b) && Equal(b, c) && !Equal(a, c)
  {
    var fa := OwnFields(a);
    var newKey := RenamedMember(a, k, Undefined);
    var fb := Replaced(fa, k, newKey, Undefined);
    b, c := Obj(fb), Obj(Replaced(fb, newKey, k, Null));
    ReplacedMember(b, newKey, k, Null);
    DifferAt(a, c, k);
  }

  /** Two inputs on which the comparison is one-sided: a gap hides a missing key, ... */
  lemma GapIsNotSymmetric()
    ensures var gap, full := Obj(map["a" := Undefined]), Obj(map["b" := Null]);
            Equal(gap, full) && !Equal(full, gap)
  {
    var gap, full := Obj(map["a" := Undefined]), Obj(map["b" := Null]);
    Similar(gap, full.fields);
    assert "b" in OwnFields(full) && !Equal(OwnFields(full)["b"], Lookup(gap, "b"));
  }

  /** ... and a record with a `length` equals a list of that length. */
  lemma RecordIsNotSymmetric()
    ensures var record, list := Obj(map["length" := Num(1.0)]), Arr([Null]);
            Equal(record, list) && !Equal(list, record)
  {
    var record, list := Obj(map["length" := Num(1.0)]), Arr([Null]);
    IndexKeysCount(1);
    LengthIsNoIndex(1);
    assert |OwnFields(list)| == |OwnFields(list).Keys|;
    assert EqualObjects(record, list);
    assert Print(0) in IndexKeys(1);
    assert OwnFields(list)[Print(0)] == Null && Lookup(record, Print(0)) == Undefined;
  }
}

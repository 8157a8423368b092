/** Merging headers and parameters of several origins, ignoring the casing of their names. */
module PriorityMerge {
  import opened Sequences
  import opened Values
  import opened UniqueNames

  /** A plain object: its own keys in the order they were first set, and what they hold. */
  datatype Dictionary = Dictionary(keys: seq<string>, values: map<string, Value>) {
    ghost predicate Valid() {
      NoDuplicates(keys) && forall k :: k in keys <==> k in values
    }
  }

  const EMPTY := Dictionary([], map[])

  /** The keys that are not held yet, in order. */
  function NewKeys(keys: seq<string>, held: map<string, Value>): (r: seq<string>)
    ensures forall k :: k in r <==> k in keys && k !in held
  {
    if keys == [] then []
    else if keys[0] in held then NewKeys(keys[1..], held)
    else [keys[0]] + NewKeys(keys[1..], held)
  }

  lemma {:induction false} NewKeysApart(keys: seq<string>, held: map<string, Value>)
    requires NoDuplicates(keys)
    ensures NoDuplicates(NewKeys(keys, held))
  {
    if keys != [] {
      NewKeysApart(keys[1..], held);
      JoinApart([keys[0]], NewKeys(keys[1..], held));
    }
  }

  lemma JoinApart(s: seq<string>, t: seq<string>)
    requires NoDuplicates(s) && NoDuplicates(t) && forall k | k in t :: k !in s
    ensures NoDuplicates(s + t)
  {
    forall i, j | 0 <= i < j < |s + t| ensures (s + t)[i] != (s + t)[j] {
      if i < |s| <= j { assert (s + t)[j] in t; }
    }
  }

  /** `{ ...a, ...b }` */
  function Spread(a: Dictionary, b: Dictionary): (r: Dictionary)
    requires a.Valid() && b.Valid()
    ensures r.Valid()
  {
    NewKeysApart(b.keys, a.values);
    JoinApart(a.keys, NewKeys(b.keys, a.values));
    Dictionary(a.keys + NewKeys(b.keys, a.values), a.values + b.values)
  }

  function Single(key: string, value: Value): (r: Dictionary)
    ensures r.Valid()
  {
    Dictionary([key], map[key := value])
  }

  /** The first of the keys that has the given name, whatever its casing. */
  function Find(keys: seq<string>, key: string): (r: Option<string>)
    ensures r.Some? ==> r.value in keys && Lower(r.value) == Lower(key)
    ensures r.None? ==> forall k | k in keys :: Lower(k) != Lower(key)
  {
    if keys == [] then None
    else if Lower(keys[0]) == Lower(key) then Some(keys[0])
    else Find(keys[1..], key)
  }

  function PickIgnoreCase(obj: Dictionary, keys: seq<string>): (r: Dictionary)
    requires obj.Valid()
    ensures r.Valid()
    decreases |keys|
  {
    if keys == [] then EMPTY
    else
      var filtered := PickIgnoreCase(obj, keys[..|keys| - 1]);
      match Find(obj.keys, keys[|keys| - 1])
      case None => filtered
      case Some(originalKey) =>
        if originalKey == "" then filtered else Spread(filtered, Single(originalKey, obj.values[originalKey]))
  }

  function PickValueIgnoreCase(obj: Dictionary, key: string): Value
    requires obj.Valid()
  {
    var picked := PickIgnoreCase(obj, [key]);
    if picked.keys == [] then Undefined else picked.values[picked.keys[0]]
  }

  /** What the entry of the left object becomes. */
  function Replaced(right: Dictionary, key: string, value: Value): (r: Dictionary)
    requires right.Valid()
    ensures r.Valid()
  {
    if Truthy(PickValueIgnoreCase(right, key)) then PickIgnoreCase(right, [key]) else Single(key, value)
  }

  /** The left object's entries from the given ones on, replaced and put together. */
  function MergeEntries(left: Dictionary, right: Dictionary, keys: seq<string>): (r: Dictionary)
    requires left.Valid() && right.Valid() && forall k | k in keys :: k in left.values
    ensures r.Valid()
    decreases |keys|
  {
    if keys == [] then EMPTY
    else
      var key := keys[|keys| - 1];
      Spread(MergeEntries(left, right, keys[..|keys| - 1]), Replaced(right, key, left.values[key]))
  }

  function MergeLeftIgnoreCase(left: Dictionary, right: Dictionary): (r: Dictionary)
    requires left.Valid() && right.Valid()
    ensures r.Valid()
  {
    MergeEntries(left, right, left.keys)
  }

  function MergeIgnoreCase(left: Dictionary, right: Dictionary): (r: Dictionary)
    requires left.Valid() && right.Valid()
    ensures r.Valid()
  {
    Spread(MergeLeftIgnoreCase(left, right), right)
  }

  /** The first entry of that name, whatever its casing, is there and holds a truthy value. */
  predicate Supersedes(right: Dictionary, key: string)
    requires right.Valid()
  {
    var found := Find(right.keys, key);
    found.Some? && Truthy(right.values[found.value])
  }

  lemma PickedOne(obj: Dictionary, key: string)
    requires obj.Valid()
    ensures PickIgnoreCase(obj, [key]) ==
            match Find(obj.keys, key)
            case None => EMPTY
            case Some(k) => if k == "" then EMPTY else Single(k, obj.values[k])
    ensures key != "" ==> Truthy(PickValueIgnoreCase(obj, key)) == Supersedes(obj, key)
    ensures key == "" ==> !Truthy(PickValueIgnoreCase(obj, key))
  {
    assert [key][..0] == [];
    assert PickIgnoreCase(obj, []) == EMPTY;
    match Find(obj.keys, key)
    case None =>
    case Some(k) =>
      assert k == "" <==> key == "";
      assert NewKeys([k], map[]) == [k];
      assert EMPTY.keys + [k] == [k] && EMPTY.values + map[k := obj.values[k]] == map[k := obj.values[k]];
  }

  /** What one merged entry puts under a key. */
  lemma ReplacedHolds(right: Dictionary, key: string, value: Value, k: string)
    requires right.Valid()
    ensures var r := Replaced(right, key, value);
            && (k in r.values ==> k in right.values || (k == key && !Supersedes(right, key)))
            && (k in r.values && k !in right.values ==> r.values[k] == value)
            && (k == key && !Supersedes(right, key) ==> k in r.values)
  {
    PickedOne(right, key);
  }

  lemma {:induction false} EntriesHold(left: Dictionary, right: Dictionary, keys: seq<string>, k: string)
    requires left.Valid() && right.Valid() && forall x | x in keys :: x in left.values
    requires k !in right.values
    ensures var r := MergeEntries(left, right, keys);
            && (k in r.values <==> k in keys && !Supersedes(right, k))
            && (k in r.values ==> r.values[k] == left.values[k])
    decreases |keys|
  {
    if keys != [] {
      var front, key := keys[..|keys| - 1], keys[|keys| - 1];
      EntriesHold(left, right, front, k);
      ReplacedHolds(right, key, left.values[key], k);
      InLast(keys, k);
      assert MergeEntries(left, right, keys).values
          == MergeEntries(left, right, front).values + Replaced(right, key, left.values[key]).values;
    }
  }

  lemma SplitLast(s: seq<string>)
    requires s != []
    ensures s == s[..|s| - 1] + [s[|s| - 1]]
  {
  }

  lemma InLast(keys: seq<string>, k: string)
    requires keys != []
    ensures k in keys <==> k in keys[..|keys| - 1] || k == keys[|keys| - 1]
  {
    SplitLast(keys);
  }

  /**
   The merged object, for all objects: everything the right one holds, and what the left one holds under a key that
   the right one neither has nor supersedes.
   */
  lemma MergedHolds(left: Dictionary, right: Dictionary, k: string)
    requires left.Valid() && right.Valid()
    ensures var r := MergeIgnoreCase(left, right);
            && (k in r.values <==> k in right.values || (k in left.values && !Supersedes(right, k)))
            && (k in right.values ==> r.values[k] == right.values[k])
            && (k in r.values && k !in right.values ==> r.values[k] == left.values[k])
  {
    if k !in right.values {
      EntriesHold(left, right, left.keys, k);
    }
  }

  // ---- All origins ----

  ghost predicate AllValid(objects: seq<Dictionary>) {
    forall i | 0 <= i < |objects| :: objects[i].Valid()
  }

  /** The objects merged from the first, which has the lowest priority, to the last. */
  function MergeAll(objects: seq<Dictionary>): (r: Dictionary)
    requires AllValid(objects)
    ensures r.Valid()
    decreases |objects|
  {
    if objects == [] then EMPTY
    else MergeIgnoreCase(MergeAll(objects[..|objects| - 1]), objects[|objects| - 1])
  }

  /** The i-th object holds the key, and no later one supersedes it. */
  ghost predicate SurvivesFrom(objects: seq<Dictionary>, i: int, k: string)
    requires AllValid(objects)
  {
    0 <= i < |objects| && k in objects[i].values && forall j | i < j < |objects| :: !Supersedes(objects[j], k)
  }

  ghost predicate Survives(objects: seq<Dictionary>, k: string)
    requires AllValid(objects)
  {
    exists i :: SurvivesFrom(objects, i, k)
  }

  /** The last object that holds exactly this key. */
  ghost predicate IsLastWith(objects: seq<Dictionary>, i: int, k: string) {
    0 <= i < |objects| && k in objects[i].values && forall j | i < j < |objects| :: k !in objects[j].values
  }

  /** A key is in the merged object exactly if some origin holds it and no later one supersedes it. */
  lemma {:induction false} AllMergedHold(objects: seq<Dictionary>, k: string)
    requires AllValid(objects)
    ensures k in MergeAll(objects).values <==> Survives(objects, k)
    decreases |objects|
  {
    if objects != [] {
      AllMergedHold(objects[..|objects| - 1], k);
      MergedHolds(MergeAll(objects[..|objects| - 1]), objects[|objects| - 1], k);
      SurvivorsOfFront(objects, objects[..|objects| - 1], k);
    }
  }

  lemma SurvivorsOfFront(objects: seq<Dictionary>, front: seq<Dictionary>, k: string)
    requires AllValid(objects) && objects != [] && front == objects[..|objects| - 1]
    ensures Survives(objects, k) <==>
            k in objects[|objects| - 1].values || (Survives(front, k) && !Supersedes(objects[|objects| - 1], k))
  {
    if k in objects[|objects| - 1].values {
      assert SurvivesFrom(objects, |front|, k);
    } else {
      forall i | SurvivesFrom(objects, i, k) ensures SurvivesFrom(front, i, k) {}
      forall i | SurvivesFrom(front, i, k) && !Supersedes(objects[|objects| - 1], k)
        ensures SurvivesFrom(objects, i, k)
      {
        forall j | i < j < |objects| ensures !Supersedes(objects[j], k) {
          if j < |front| { assert front[j] == objects[j]; }
        }
      }
    }
  }

  /** The value is that of the last origin that has the key in exactly this casing. */
  lemma {:induction false} MergedValue(objects: seq<Dictionary>, i: int, k: string)
    requires AllValid(objects) && IsLastWith(objects, i, k) && k in MergeAll(objects).values
    ensures MergeAll(objects).values[k] == objects[i].values[k]
    decreases |objects|
  {
    var front, last := objects[..|objects| - 1], objects[|objects| - 1];
    MergedHolds(MergeAll(front), last, k);
    if i < |front| {
      assert IsLastWith(front, i, k);
      MergedValue(front, i, k);
    }
  }

  /** No two keys of the object are the same name in different casing. */
  ghost predicate CaseUnique(d: Dictionary) {
    forall k, l | k in d.values && l in d.values && Lower(k) == Lower(l) :: k == l
  }

  /** The origins disagree on the casing of a name, and no later truthy value settles it. */
  ghost predicate Unsettled(objects: seq<Dictionary>, i: int, j: int, k: string, l: string)
    requires AllValid(objects)
  {
    && SurvivesFrom(objects, i, k) && SurvivesFrom(objects, j, l)
    && Lower(k) == Lower(l) && k != l
  }

  /** The result has one entry for each name exactly if no disagreement on its casing is left unsettled. */
  lemma OneEntryPerNameExactly(objects: seq<Dictionary>)
    requires AllValid(objects)
    ensures CaseUnique(MergeAll(objects)) <==> !exists i, j, k, l :: Unsettled(objects, i, j, k, l)
  {
    forall i, j, k, l | Unsettled(objects, i, j, k, l) ensures !CaseUnique(MergeAll(objects)) {
      AllMergedHold(objects, k);
      AllMergedHold(objects, l);
    }
    forall k, l | k in MergeAll(objects).values && l in MergeAll(objects).values && Lower(k) == Lower(l) && k != l
      ensures exists i, j :: Unsettled(objects, i, j, k, l)
    {
      AllMergedHold(objects, k);
      AllMergedHold(objects, l);
      var i :| SurvivesFrom(objects, i, k);
      var j :| SurvivesFrom(objects, j, l);
      assert Unsettled(objects, i, j, k, l);
    }
  }

  ghost predicate AllTruthy(d: Dictionary) {
    forall k | k in d.values :: Truthy(d.values[k])
  }

  predicate HasName(d: Dictionary, name: string) {
    exists k | k in d.values :: Lower(k) == Lower(name)
  }

  lemma TruthySupersedes(d: Dictionary, k: string)
    requires d.Valid() && AllTruthy(d)
    ensures Supersedes(d, k) <==> HasName(d, k)
  {
  }

  /** Every origin holds truthy values, under names that it uses in one casing only. */
  ghost predicate AllClean(objects: seq<Dictionary>) {
    forall i | 0 <= i < |objects| :: AllTruthy(objects[i]) && CaseUnique(objects[i])
  }

  /** The i-th origin holds the key, and no later one that name in any casing. */
  ghost predicate HasPriority(objects: seq<Dictionary>, i: int, k: string) {
    0 <= i < |objects| && k in objects[i].values && forall j | i < j < |objects| :: !HasName(objects[j], k)
  }

  lemma PriorityIsSurvival(objects: seq<Dictionary>, i: int, k: string)
    requires AllValid(objects) && AllClean(objects)
    ensures SurvivesFrom(objects, i, k) <==> HasPriority(objects, i, k)
    ensures HasPriority(objects, i, k) ==> IsLastWith(objects, i, k)
  {
    forall j | 0 <= j < |objects| ensures Supersedes(objects[j], k) <==> HasName(objects[j], k) {
      TruthySupersedes(objects[j], k);
    }
  }

  /**
   When every origin holds truthy values under names that are unique ignoring the casing, the result has exactly one
   entry for each name of any origin: casing and value are those of the last origin with that name.
   */
  lemma HighestPriorityWins(objects: seq<Dictionary>)
    requires AllValid(objects) && AllClean(objects)
    ensures CaseUnique(MergeAll(objects))
    ensures forall k :: k in MergeAll(objects).values <==> exists i :: HasPriority(objects, i, k)
    ensures forall i, k | HasPriority(objects, i, k) ::
              k in MergeAll(objects).values && MergeAll(objects).values[k] == objects[i].values[k]
  {
    forall k ensures k in MergeAll(objects).values <==> exists i :: HasPriority(objects, i, k) {
      AllMergedHold(objects, k);
      forall i
        ensures SurvivesFrom(objects, i, k) <==> HasPriority(objects, i, k)
      {
        PriorityIsSurvival(objects, i, k);
      }
    }
    forall i, k | HasPriority(objects, i, k)
      ensures k in MergeAll(objects).values && MergeAll(objects).values[k] == objects[i].values[k]
    {
      PriorityIsSurvival(objects, i, k);
      MergedValue(objects, i, k);
    }
    forall i, j, k, l | HasPriority(objects, i, k) && HasPriority(objects, j, l) && Lower(k) == Lower(l)
      ensures k == l
    {
      SameNameSamePriority(objects, i, j, k, l);
    }
  }

  lemma SameNameSamePriority(objects: seq<Dictionary>, i: int, j: int, k: string, l: string)
    requires AllClean(objects) && HasPriority(objects, i, k) && HasPriority(objects, j, l) && Lower(k) == Lower(l)
    ensures k == l
  {
    assert !(i < j) by { assert HasName(objects[j], k); }
    assert !(j < i) by { assert HasName(objects[i], l); }
    assert CaseUnique(objects[i]);
  }

  // ---- The order of the keys ----

  /** Each text where it is first. */
  function Firsts(s: seq<string>): (r: seq<string>)
    ensures forall k :: k in r <==> k in s
    decreases |s|
  {
    if s == [] then []
    else
      var front, last := s[..|s| - 1], s[|s| - 1];
      InLast(s, last);
      if last in front then Firsts(front) else Firsts(front) + [last]
  }

  lemma FirstsOfOneMore(s: seq<string>, k: string)
    ensures Firsts(s + [k]) == if k in s then Firsts(s) else Firsts(s) + [k]
  {
    assert (s + [k])[..|s|] == s;
  }

  lemma SameFirsts(s: seq<string>, s': seq<string>, k: string)
    requires Firsts(s) == Firsts(s')
    ensures Firsts(s + [k]) == Firsts(s' + [k])
  {
    FirstsOfOneMore(s, k);
    FirstsOfOneMore(s', k);
    assert k in Firsts(s) <==> k in Firsts(s');
  }

  lemma {:induction false} FirstsAfter(s: seq<string>, s': seq<string>, t: seq<string>)
    requires Firsts(s) == Firsts(s')
    ensures Firsts(s + t) == Firsts(s' + t)
    decreases |t|
  {
    if t == [] {
      assert s + t == s && s' + t == s';
    } else {
      var front, k := t[..|t| - 1], t[|t| - 1];
      FirstsAfter(s, s', front);
      OneMore(s, t);
      OneMore(s', t);
      SameFirsts(s + front, s' + front, k);
    }
  }

  lemma OneMore(s: seq<string>, t: seq<string>)
    requires t != []
    ensures s + t == s + t[..|t| - 1] + [t[|t| - 1]]
  {
  }

  lemma {:induction false} FirstsBefore(t: seq<string>, s: seq<string>)
    ensures Firsts(t + Firsts(s)) == Firsts(t + s)
    decreases |s|
  {
    if s != [] {
      var front, k := s[..|s| - 1], s[|s| - 1];
      FirstsBefore(t, front);
      OneMore(t, s);
      FirstsOfOneMore(t + front, k);
      if k !in front {
        OneMore(t, Firsts(s));
        assert Firsts(s)[..|Firsts(front)|] == Firsts(front);
        FirstsOfOneMore(t + Firsts(front), k);
      }
    }
  }

  /** The casing that a name gets from the given keys. */
  function Recased(key: string, keys: seq<string>): (r: string)
    ensures Lower(r) == Lower(key)
  {
    match Find(keys, key) case None => key case Some(k) => k
  }

  function AllRecased(ks: seq<string>, keys: seq<string>): (r: seq<string>)
    ensures |r| == |ks| && forall i | 0 <= i < |ks| :: r[i] == Recased(ks[i], keys)
  {
    seq(|ks|, i requires 0 <= i < |ks| => Recased(ks[i], keys))
  }

  lemma {:induction false} FirstsRecased(s: seq<string>, keys: seq<string>)
    ensures Firsts(AllRecased(Firsts(s), keys)) == Firsts(AllRecased(s, keys))
    decreases |s|
  {
    if s != [] {
      var front, k := s[..|s| - 1], s[|s| - 1];
      var ks := Firsts(front);
      FirstsRecased(front, keys);
      SplitLast(s);
      RecasedOneMore(front, k, keys);
      FirstsOfOneMore(front, k);
      if k !in front {
        RecasedOneMore(ks, k, keys);
        SameFirsts(AllRecased(ks, keys), AllRecased(front, keys), Recased(k, keys));
      }
    }
  }

  lemma RecasedOneMore(s: seq<string>, k: string, keys: seq<string>)
    ensures AllRecased(s + [k], keys) == AllRecased(s, keys) + [Recased(k, keys)]
    ensures k in s ==> Firsts(AllRecased(s + [k], keys)) == Firsts(AllRecased(s, keys))
  {
    var r := AllRecased(s, keys);
    assert AllRecased(s + [k], keys) == r + [Recased(k, keys)];
    FirstsOfOneMore(r, Recased(k, keys));
    if k in s {
      var i :| 0 <= i < |s| && s[i] == k;
      assert r[i] == Recased(k, keys);
    }
  }

  lemma {:induction false} FindByName(keys: seq<string>, k: string, l: string)
    requires Lower(k) == Lower(l)
    ensures Find(keys, k) == Find(keys, l)
  {
    if keys != [] { FindByName(keys[1..], k, l); }
  }

  lemma {:induction false} FindInBoth(s: seq<string>, t: seq<string>, k: string)
    ensures Find(s + t, k) == if Find(s, k).Some? then Find(s, k) else Find(t, k)
  {
    if s == [] {
      assert s + t == t;
    } else {
      FindInBoth(s[1..], t, k);
      assert (s + t)[1..] == s[1..] + t;
    }
  }

  lemma {:induction false} FindInFirsts(s: seq<string>, k: string)
    ensures Find(Firsts(s), k) == Find(s, k)
    decreases |s|
  {
    if s != [] {
      var front, last := s[..|s| - 1], s[|s| - 1];
      FindInFirsts(front, k);
      SplitLast(s);
      FindInBoth(front, [last], k);
      FindInBoth(Firsts(front), [last], k);
    }
  }

  lemma {:induction false} FindRecased(s: seq<string>, keys: seq<string>, k: string)
    ensures Find(AllRecased(s, keys), k) ==
            match Find(s, k) case None => None case Some(l) => Some(Recased(l, keys))
  {
    if s != [] {
      FindRecased(s[1..], keys, k);
      assert AllRecased(s, keys)[1..] == AllRecased(s[1..], keys);
    }
  }

  /** Recasing by what two merged objects have is recasing by one and then the other. */
  lemma RecasedTwice(k: string, b: seq<string>, c: seq<string>)
    ensures Recased(Recased(k, b), c) == Recased(k, Firsts(AllRecased(b, c) + c))
  {
    FindInFirsts(AllRecased(b, c) + c, k);
    FindInBoth(AllRecased(b, c), c, k);
    FindRecased(b, c, k);
  }

  /** The keys of a merged object: those of the left one in the casing of the right one, then those of the right one. */
  function MergedKeys(left: seq<string>, right: seq<string>): seq<string> {
    Firsts(AllRecased(left, right) + right)
  }

  lemma MergedKeysAssociate(a: seq<string>, b: seq<string>, c: seq<string>)
    ensures MergedKeys(MergedKeys(a, b), c) == MergedKeys(a, MergedKeys(b, c))
  {
    var ab, bc, k := AllRecased(a, b) + b, AllRecased(b, c) + c, MergedKeys(b, c);
    FirstsRecased(ab, c);
    FirstsAfter(AllRecased(Firsts(ab), c), AllRecased(ab, c), c);
    forall i | 0 <= i < |a| ensures Recased(Recased(a[i], b), c) == Recased(a[i], k) { RecasedTwice(a[i], b, c); }
    assert AllRecased(ab, c) == AllRecased(a, k) + AllRecased(b, c);
    Assoc(AllRecased(a, k), AllRecased(b, c), c);
    FirstsBefore(AllRecased(a, k), bc);
  }

  lemma {:induction false} SpreadKeys(s: seq<string>, keys: seq<string>, held: map<string, Value>)
    requires NoDuplicates(keys) && forall k :: k in held <==> k in s
    ensures Firsts(s + keys) == Firsts(s) + NewKeys(keys, held)
    decreases |keys|
  {
    if keys == [] {
      assert s + keys == s;
    } else {
      var front, k := keys[..|keys| - 1], keys[|keys| - 1];
      SpreadKeys(s, front, held);
      OneMore(s, keys);
      FirstsOfOneMore(s + front, k);
      NewKeysOfOneMore(front, k, held);
      SplitLast(keys);
      assert k !in front;
      if k !in s { Assoc(Firsts(s), NewKeys(front, held), [k]); }
    }
  }

  lemma {:induction false} NewKeysOfOneMore(keys: seq<string>, k: string, held: map<string, Value>)
    ensures NewKeys(keys + [k], held) == if k in held then NewKeys(keys, held) else NewKeys(keys, held) + [k]
  {
    if keys == [] {
      assert keys + [k] == [k];
    } else {
      NewKeysOfOneMore(keys[1..], k, held);
      assert (keys + [k])[1..] == keys[1..] + [k];
      Assoc([keys[0]], NewKeys(keys[1..], held), [k]);
    }
  }

  lemma ReplacedKeys(right: Dictionary, key: string, value: Value)
    requires right.Valid() && AllTruthy(right)
    ensures Replaced(right, key, value).keys == [Recased(key, right.keys)]
  {
    PickedOne(right, key);
  }

  lemma {:induction false} EntriesKeys(left: Dictionary, right: Dictionary, keys: seq<string>)
    requires left.Valid() && right.Valid() && AllTruthy(right) && forall k | k in keys :: k in left.values
    ensures MergeEntries(left, right, keys).keys == Firsts(AllRecased(keys, right.keys))
    decreases |keys|
  {
    if keys != [] {
      var front, key := keys[..|keys| - 1], keys[|keys| - 1];
      var before := MergeEntries(left, right, front);
      EntriesKeys(left, right, front);
      ReplacedKeys(right, key, left.values[key]);
      RecasedOneMore(front, key, right.keys);
      SplitLast(keys);
      SpreadKeys(AllRecased(front, right.keys), [Recased(key, right.keys)], before.values);
    }
  }

  lemma KeysOfMerged(left: Dictionary, right: Dictionary)
    requires left.Valid() && right.Valid() && AllTruthy(right)
    ensures MergeIgnoreCase(left, right).keys == MergedKeys(left.keys, right.keys)
  {
    EntriesKeys(left, right, left.keys);
    SpreadKeys(AllRecased(left.keys, right.keys), right.keys, MergeLeftIgnoreCase(left, right).values);
  }

  /** Grouping does not matter, not even for the order, as long as the values that take precedence are truthy. */
  lemma MergeIsAssociative(a: Dictionary, b: Dictionary, c: Dictionary)
    requires a.Valid() && b.Valid() && c.Valid() && AllTruthy(b) && AllTruthy(c)
    ensures MergeIgnoreCase(MergeIgnoreCase(a, b), c) == MergeIgnoreCase(a, MergeIgnoreCase(b, c))
  {
    MergedStaysTruthy(b, c);
    SameValues(a, b, c);
    KeysOfMerged(a, b);
    KeysOfMerged(b, c);
    KeysOfMerged(MergeIgnoreCase(a, b), c);
    KeysOfMerged(a, MergeIgnoreCase(b, c));
    MergedKeysAssociate(a.keys, b.keys, c.keys);
  }

  lemma MergedStaysTruthy(b: Dictionary, c: Dictionary)
    requires b.Valid() && c.Valid() && AllTruthy(b) && AllTruthy(c)
    ensures AllTruthy(MergeIgnoreCase(b, c))
  {
    forall k | k in MergeIgnoreCase(b, c).values ensures Truthy(MergeIgnoreCase(b, c).values[k]) {
      MergedHolds(b, c, k);
    }
  }

  lemma SameValues(a: Dictionary, b: Dictionary, c: Dictionary)
    requires a.Valid() && b.Valid() && c.Valid() && AllTruthy(b) && AllTruthy(c)
    ensures MergeIgnoreCase(MergeIgnoreCase(a, b), c).values == MergeIgnoreCase(a, MergeIgnoreCase(b, c)).values
  {
    var l, r := MergeIgnoreCase(MergeIgnoreCase(a, b), c), MergeIgnoreCase(a, MergeIgnoreCase(b, c));
    forall k ensures Agree(l, r, k) { AgreeAt(a, b, c, k); }
    AgreeEverywhere(l, r);
  }

  lemma AgreeEverywhere(l: Dictionary, r: Dictionary)
    requires forall k :: Agree(l, r, k)
    ensures l.values == r.values
  {
    forall k ensures (k in l.values <==> k in r.values) && (k in l.values ==> l.values[k] == r.values[k]) {
      assert Agree(l, r, k);
    }
  }

  ghost predicate Agree(l: Dictionary, r: Dictionary, k: string) {
    (k in l.values <==> k in r.values) && (k in l.values ==> l.values[k] == r.values[k])
  }

  lemma AgreeAt(a: Dictionary, b: Dictionary, c: Dictionary, k: string)
    requires a.Valid() && b.Valid() && c.Valid() && AllTruthy(b) && AllTruthy(c)
    ensures Agree(MergeIgnoreCase(MergeIgnoreCase(a, b), c), MergeIgnoreCase(a, MergeIgnoreCase(b, c)), k)
  {
    MergedHolds(a, b, k);
    MergedHolds(b, c, k);
    MergedHolds(MergeIgnoreCase(a, b), c, k);
    MergedHolds(a, MergeIgnoreCase(b, c), k);
    MergedSupersedes(b, c, k);
    TruthySupersedes(b, k);
    TruthySupersedes(c, k);
  }

  lemma MergedSupersedes(b: Dictionary, c: Dictionary, k: string)
    requires b.Valid() && c.Valid() && AllTruthy(b) && AllTruthy(c)
    ensures Supersedes(MergeIgnoreCase(b, c), k) <==> HasName(b, k) || HasName(c, k)
  {
    var bc := MergeIgnoreCase(b, c);
    forall x ensures
      && (x in bc.values <==> x in c.values || (x in b.values && !Supersedes(c, x)))
      && (x in bc.values ==> Truthy(bc.values[x]))
    {
      MergedHolds(b, c, x);
    }
    TruthySupersedes(bc, k);
    forall x ensures Supersedes(c, x) <==> HasName(c, x) { TruthySupersedes(c, x); }
    if HasName(b, k) && !HasName(c, k) {
      var x :| x in b.values && Lower(x) == Lower(k);
      assert !HasName(c, x);
      assert x in bc.values;
    }
    if HasName(c, k) {
      var x :| x in c.values && Lower(x) == Lower(k);
      assert x in bc.values;
    }
  }

  /** A falsy value does not settle the casing, so both entries stay: one name, two entries. */
  lemma FalsyKeepsBoth(left: Dictionary, right: Dictionary, k: string, l: string)
    requires left.Valid() && right.Valid() && CaseUnique(right)
    requires k in left.values && l in right.values && Lower(k) == Lower(l) && k != l && !Truthy(right.values[l])
    ensures k in MergeIgnoreCase(left, right).values && l in MergeIgnoreCase(left, right).values
  {
    MergedHolds(left, right, k);
    MergedHolds(left, right, l);
  }

  const ORIGINS: seq<string> := ["requestConfig", "destination", "destinationProperty", "custom"]

  /** What an origin sets, nothing if it is missing. */
  function FromOrigin(options: map<string, Dictionary>, origin: string): Dictionary {
    if origin in options then options[origin] else EMPTY
  }

  function ByPriority(options: map<string, Dictionary>): (r: seq<Dictionary>)
    ensures |r| == |ORIGINS| && forall i | 0 <= i < |ORIGINS| :: r[i] == FromOrigin(options, ORIGINS[i])
  {
    seq(|ORIGINS|, i requires 0 <= i < |ORIGINS| => FromOrigin(options, ORIGINS[i]))
  }

  function MergeOptionsWithPriority(options: Option<map<string, Dictionary>>): Option<Dictionary>
    requires options.Some? ==> forall o | o in options.value :: options.value[o].Valid()
  {
    match options
    case None => None
    case Some(given) => Some(MergeAll(ByPriority(given)))
  }

  /**
   The request options: given truthy values under names that each origin uses in one casing, every name of any origin
   is there once, as the origin latest in the order has it.
   */
  lemma OriginsByPriority(options: map<string, Dictionary>, i: nat, k: string)
    requires forall o | o in options :: options[o].Valid() && AllTruthy(options[o]) && CaseUnique(options[o])
    requires i < |ORIGINS| && k in FromOrigin(options, ORIGINS[i]).values
    requires forall j | i < j < |ORIGINS| :: !HasName(FromOrigin(options, ORIGINS[j]), k)
    ensures var merged := MergeOptionsWithPriority(Some(options));
            && merged.Some? && k in merged.value.values
            && merged.value.values[k] == FromOrigin(options, ORIGINS[i]).values[k]
            && forall l | l in merged.value.values && Lower(l) == Lower(k) :: l == k
  {
    var objects := ByPriority(options);
    forall j | 0 <= j < |objects| ensures objects[j].Valid() && AllTruthy(objects[j]) && CaseUnique(objects[j]) {
      assert objects[j] == FromOrigin(options, ORIGINS[j]);
    }
    assert HasPriority(objects, i, k);
    HighestPriorityWins(objects);
  }

  /** None of the origins has the name, in any casing. */
  predicate NoneHas(options: map<string, Dictionary>, origins: set<string>, k: string) {
    forall o | o in origins && o in options :: !HasName(options[o], k)
  }

  /**
   By name: custom headers win over those of the property of the destination, these over those of the destination, and
   these over those of the request configuration.
   */
  lemma CustomWins(options: map<string, Dictionary>, origin: string, k: string)
    requires forall o | o in options :: options[o].Valid() && AllTruthy(options[o]) && CaseUnique(options[o])
    requires origin in options && k in options[origin].values
    requires || origin == "custom"
             || (origin == "destinationProperty" && NoneHas(options, {"custom"}, k))
             || (origin == "destination" && NoneHas(options, {"custom", "destinationProperty"}, k))
             || (origin == "requestConfig" && NoneHas(options, {"custom", "destinationProperty", "destination"}, k))
    ensures var merged := MergeOptionsWithPriority(Some(options));
            && merged.Some? && k in merged.value.values && merged.value.values[k] == options[origin].values[k]
            && forall l | l in merged.value.values && Lower(l) == Lower(k) :: l == k
  {
    var i := if origin == "custom" then 3 else if origin == "destinationProperty" then 2
             else if origin == "destination" then 1 else 0;
    assert ORIGINS[0] == "requestConfig" && ORIGINS[1] == "destination";
    assert ORIGINS[2] == "destinationProperty" && ORIGINS[3] == "custom";
    assert ORIGINS[i] == origin;
    OriginsByPriority(options, i, k);
  }

  lemma {:induction false} LastWith(objects: seq<Dictionary>, i: nat, k: string) returns (last: nat)
    requires i < |objects| && k in objects[i].values
    ensures IsLastWith(objects, last, k)
    decreases |objects| - i
  {
    if j :| i < j < |objects| && k in objects[j].values {
      last := LastWith(objects, j, k);
    } else {
      last := i;
    }
  }

  lemma EntryComesFrom(objects: seq<Dictionary>, k: string) returns (last: nat)
    requires AllValid(objects) && k in MergeAll(objects).values
    ensures last < |objects| && k in objects[last].values && MergeAll(objects).values[k] == objects[last].values[k]
  {
    AllMergedHold(objects, k);
    var i :| SurvivesFrom(objects, i, k);
    last := LastWith(objects, i, k);
    MergedValue(objects, last, k);
  }

  /** One of the four origins has the entry. */
  predicate IsGiven(options: map<string, Dictionary>, k: string, v: Value) {
    exists o | o in {"custom", "destinationProperty", "destination", "requestConfig"} ::
      o in options && k in options[o].values && options[o].values[k] == v
  }

  lemma IsGivenBy(options: map<string, Dictionary>, i: nat, k: string)
    requires i < |ORIGINS| && k in FromOrigin(options, ORIGINS[i]).values
    ensures IsGiven(options, k, FromOrigin(options, ORIGINS[i]).values[k])
  {
    assert ORIGINS[i] in {"custom", "destinationProperty", "destination", "requestConfig"};
  }

  /** Nothing is made up: without options there are none, and an entry of the merge is one of an origin. */
  lemma EntriesAreGiven(options: map<string, Dictionary>, k: string)
    requires forall o | o in options :: options[o].Valid()
    ensures MergeOptionsWithPriority(None) == None
    ensures var merged := MergeOptionsWithPriority(Some(options));
            merged.Some? && (k in merged.value.values ==> IsGiven(options, k, merged.value.values[k]))
  {
    var objects := ByPriority(options);
    forall i | 0 <= i < |objects| ensures objects[i].Valid() { assert objects[i] == FromOrigin(options, ORIGINS[i]); }
    if k in MergeAll(objects).values {
      var last := EntryComesFrom(objects, k);
      IsGivenBy(options, last, k);
    }
  }
}

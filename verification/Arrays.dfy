/** The array loops: flattening with a stack, splitting into chunks, and removing duplicates from either side. */
module Arrays {
  import opened Sequences
  import opened Values

  datatype Nested<T> = Item(item: T) | Nest(elements: seq<Nested<T>>)

  /** The items of a nested array from left to right. */
  function Leaves<T>(input: seq<Nested<T>>): seq<T> {
    if input == [] then []
    else LeavesOf(input[0]) + Leaves(input[1..])
  }

  function LeavesOf<T>(nested: Nested<T>): seq<T> {
    match nested
    case Item(x) => [x]
    case Nest(elements) => Leaves(elements)
  }

  /** Items and arrays, each array counted with all that is in it. */
  function Size<T>(input: seq<Nested<T>>): nat {
    if input == [] then 0
    else 1 + (match input[0] case Item(_) => 0 case Nest(elements) => Size(elements)) + Size(input[1..])
  }

  lemma {:induction false} LeavesSplit<T>(a: seq<Nested<T>>, b: seq<Nested<T>>)
    ensures Leaves(a + b) == Leaves(a) + Leaves(b) && Size(a + b) == Size(a) + Size(b)
    decreases |a|
  {
    if a == [] {
      assert a + b == b;
    } else {
      LeavesSplit(a[1..], b);
      assert (a + b)[1..] == a[1..] + b;
      Assoc(LeavesOf(a[0]), Leaves(a[1..]), Leaves(b));
    }
  }

  lemma LeavesOfOne<T>(x: Nested<T>)
    ensures Leaves([x]) == LeavesOf(x)
    ensures Size([x]) == 1 + match x case Item(_) => 0 case Nest(elements) => Size(elements)
  {
    assert [x][1..] == [];
  }

  function Reverse<T>(s: seq<T>): (r: seq<T>)
    ensures |r| == |s| && forall i | 0 <= i < |s| :: r[i] == s[|s| - 1 - i]
  {
    seq(|s|, i requires 0 <= i < |s| => s[|s| - 1 - i])
  }

  lemma ReversePush<T>(s: seq<T>, x: T)
    ensures Reverse(s + [x]) == [x] + Reverse(s)
  {
  }

  /** The items are taken from the end of a stack and reversed at the end: the leaves from left to right. */
  method Flatten<T>(input: seq<Nested<T>>) returns (r: seq<T>)
    ensures r == Leaves(input)
  {
    var flatResult: seq<T> := [];
    var stack := input;
    while |stack| > 0
      invariant Leaves(stack) + Reverse(flatResult) == Leaves(input)
      decreases Size(stack)
    {
      var current := stack[|stack| - 1];
      ghost var below := stack[..|stack| - 1];
      assert stack == below + [current];
      LeavesSplit(below, [current]);
      LeavesOfOne(current);
      stack := stack[..|stack| - 1];
      match current {
        case Item(item) =>
          ReversePush(flatResult, item);
          assert Leaves(below) + [item] + Reverse(flatResult) == Leaves(below) + ([item] + Reverse(flatResult));
          flatResult := flatResult + [item];
        case Nest(elements) =>
          LeavesSplit(below, elements);
          stack := stack + elements;
      }
    }
    r := Reverse(flatResult);
  }

  function Concat<T>(parts: seq<seq<T>>): seq<T> {
    if parts == [] then [] else Concat(parts[..|parts| - 1]) + parts[|parts| - 1]
  }

  /** The chunks put together are the array; all have the given size, except for the last, which is not empty. */
  method SplitInChunks<T>(arr: seq<T>, chunkSize: nat) returns (chunks: seq<seq<T>>)
    requires chunkSize > 0 || arr == []
    ensures Concat(chunks) == arr
    ensures forall i | 0 <= i < |chunks| ::
            0 < |chunks[i]| <= chunkSize && (i < |chunks| - 1 ==> |chunks[i]| == chunkSize)
  {
    chunks := [];
    var i := 0;
    while i < |arr|
      invariant Concat(chunks) == arr[..if i < |arr| then i else |arr|]
      invariant forall k | 0 <= k < |chunks| ::
                  0 < |chunks[k]| <= chunkSize && (k < |chunks| - 1 || i < |arr| ==> |chunks[k]| == chunkSize)
    {
      var end := if i + chunkSize < |arr| then i + chunkSize else |arr|;
      assert arr[..end] == arr[..i] + arr[i..end];
      assert (chunks + [arr[i..end]])[..|chunks|] == chunks;
      chunks := chunks + [arr[i..end]];
      i := i + chunkSize;
    }
    assert arr[..|arr|] == arr;
  }

  // ---- Duplicates ----

  /** The items of an array: how `===` and truthiness see them. */
  type Truth<!T> = T -> bool

  type Comparator<!T> = (T, T) -> bool

  /** `items.find(other => comparator(item, other))` */
  function Find<T>(items: seq<T>, item: T, comparator: Comparator<T>): (r: Option<T>)
    ensures r.Some? ==> r.value in items && comparator(item, r.value)
    ensures r.None? ==> forall x | x in items :: !comparator(item, x)
    ensures r.Some? ==> exists j | 0 <= j < |items| ::
              r.value == items[j] && comparator(item, items[j]) && forall k | 0 <= k < j :: !comparator(item, items[k])
  {
    if items == [] then None
    else if comparator(item, items[0]) then Some(items[0])
    else Find(items[1..], item, comparator)
  }

  /** The items without a truthy match before them. */
  function FilterDuplicates<T>(arr: seq<T>, comparator: Comparator<T>, truthy: Truth<T>): seq<T>
    decreases |arr|
  {
    if arr == [] then []
    else
      var n := |arr| - 1;
      var found := Find(arr[..n], arr[n], comparator);
      FilterDuplicates(arr[..n], comparator, truthy) + (if found.Some? && truthy(found.value) then [] else [arr[n]])
  }

  /** The first match before the item is truthy. */
  ghost predicate IsDuplicate<T>(arr: seq<T>, i: nat, comparator: Comparator<T>, truthy: Truth<T>)
    requires i < |arr|
  {
    exists j | 0 <= j < i ::
      comparator(arr[i], arr[j]) && truthy(arr[j]) && forall k | 0 <= k < j :: !comparator(arr[i], arr[k])
  }

  /** Where the items of a result are in the array, in ascending order. */
  ghost predicate ArePlaces<T>(places: seq<nat>, arr: seq<T>, r: seq<T>) {
    && |places| == |r|
    && (forall k | 0 <= k < |r| :: places[k] < |arr| && r[k] == arr[places[k]])
    && (forall k, l | 0 <= k < l < |places| :: places[k] < places[l])
  }

  /** Whatever the comparator: the items that are no duplicates are kept, in order, and nothing else. */
  lemma {:induction false} FilterKeepsTheRest<T>(arr: seq<T>, comparator: Comparator<T>, truthy: Truth<T>)
    returns (places: seq<nat>)
    ensures ArePlaces(places, arr, FilterDuplicates(arr, comparator, truthy))
    ensures forall i: nat | i < |arr| :: i in places <==> !IsDuplicate(arr, i, comparator, truthy)
    decreases |arr|
  {
    if arr == [] {
      places := [];
    } else {
      var before := FilterKeepsTheRest(arr[..|arr| - 1], comparator, truthy);
      places := before + if IsDuplicate(arr, |arr| - 1, comparator, truthy) then [] else [|arr| - 1];
      PlaceAdded(before, arr, FilterDuplicates(arr[..|arr| - 1], comparator, truthy));
      FilterStep(arr, comparator, truthy);
      DuplicatesOfFront(arr, comparator, truthy);
    }
  }

  lemma FilterStep<T>(arr: seq<T>, comparator: Comparator<T>, truthy: Truth<T>)
    requires arr != []
    ensures var n := |arr| - 1;
            FilterDuplicates(arr, comparator, truthy)
            == FilterDuplicates(arr[..n], comparator, truthy)
             + (if IsDuplicate(arr, n, comparator, truthy) then [] else [arr[n]])
  {
    FoundIsDuplicate(arr, comparator, truthy);
  }

  lemma PlaceAdded<T>(places: seq<nat>, arr: seq<T>, r: seq<T>)
    requires arr != [] && ArePlaces(places, arr[..|arr| - 1], r)
    ensures ArePlaces(places + [], arr, r + []) && ArePlaces(places + [|arr| - 1], arr, r + [arr[|arr| - 1]])
    ensures forall i :: i in places + [] ==> i < |arr| - 1
    ensures forall i :: i in places + [|arr| - 1] <==> i in places || i == |arr| - 1
  {
    assert places + [] == places && r + [] == r;
  }

  lemma DuplicatesOfFront<T>(arr: seq<T>, comparator: Comparator<T>, truthy: Truth<T>)
    requires arr != []
    ensures forall i: nat | i < |arr| - 1 ::
              IsDuplicate(arr[..|arr| - 1], i, comparator, truthy) <==> IsDuplicate(arr, i, comparator, truthy)
  {
    var front := arr[..|arr| - 1];
    forall i: nat | i < |front|
      ensures IsDuplicate(front, i, comparator, truthy) <==> IsDuplicate(arr, i, comparator, truthy)
    {
      assert forall j | 0 <= j <= i :: front[j] == arr[j];
    }
  }

  lemma FoundIsDuplicate<T>(arr: seq<T>, comparator: Comparator<T>, truthy: Truth<T>)
    requires arr != []
    ensures var n := |arr| - 1;
            var found := Find(arr[..n], arr[n], comparator);
            IsDuplicate(arr, n, comparator, truthy) <==> found.Some? && truthy(found.value)
  {
    var n := |arr| - 1;
    var front := arr[..n];
    var found := Find(front, arr[n], comparator);
    assert forall j | 0 <= j < n :: front[j] == arr[j];
    if found.Some? {
      var j :| 0 <= j < n && found.value == front[j] && comparator(arr[n], front[j])
               && forall k | 0 <= k < j :: !comparator(arr[n], front[k]);
      forall i | 0 <= i < n && comparator(arr[n], arr[i]) && (forall k | 0 <= k < i :: !comparator(arr[n], arr[k]))
        ensures i == j
      {
        assert !(i < j) && !(j < i);
      }
    }
  }

  function Identity<T(==)>(): Comparator<T> {
    (x: T, y: T) => x == y
  }

  /** The leftmost occurrence of each item, in order. */
  function Firsts<T(==, !new)>(arr: seq<T>): (r: seq<T>)
    ensures (forall x :: x in r <==> x in arr) && NoDuplicates(r)
    decreases |arr|
  {
    if arr == [] then []
    else
      var n := |arr| - 1;
      assert arr == arr[..n] + [arr[n]];
      if arr[n] in arr[..n] then Firsts(arr[..n]) else Firsts(arr[..n]) + [arr[n]]
  }

  /** The rightmost occurrence of each item, in order. */
  function Lasts<T(==, !new)>(arr: seq<T>): (r: seq<T>)
    ensures (forall x :: x in r <==> x in arr) && NoDuplicates(r)
  {
    if arr == [] then []
    else
      assert arr == [arr[0]] + arr[1..];
      if arr[0] in arr[1..] then Lasts(arr[1..]) else [arr[0]] + Lasts(arr[1..])
  }

  /** No falsy item occurs twice. */
  ghost predicate FalsyOnce<T>(arr: seq<T>, truthy: Truth<T>) {
    forall i, j | 0 <= i < j < |arr| && !truthy(arr[i]) :: arr[i] != arr[j]
  }

  lemma FalsyOnceAppend<T>(front: seq<T>, x: T, truthy: Truth<T>)
    ensures FalsyOnce(front + [x], truthy) <==> FalsyOnce(front, truthy) && (x !in front || truthy(x))
  {
    var arr := front + [x];
    if FalsyOnce(arr, truthy) {
      forall i, j | 0 <= i < j < |front| && !truthy(front[i]) ensures front[i] != front[j] {
        assert arr[i] != arr[j];
      }
      forall i | 0 <= i < |front| ensures front[i] != x || truthy(x) {
        assert arr[i] == front[i] && arr[|front|] == x;
      }
    }
  }

  lemma {:induction false} FilterKeeps<T(!new)>(arr: seq<T>, truthy: Truth<T>)
    ensures |FilterDuplicates(arr, Identity(), truthy)| >= |Firsts(arr)|
    ensures FalsyOnce(arr, truthy) ==> FilterDuplicates(arr, Identity(), truthy) == Firsts(arr)
    ensures !FalsyOnce(arr, truthy) ==> |FilterDuplicates(arr, Identity(), truthy)| > |Firsts(arr)|
    decreases |arr|
  {
    if arr != [] {
      var n := |arr| - 1;
      FilterKeeps(arr[..n], truthy);
      FalsyOnceAppend(arr[..n], arr[n], truthy);
      assert arr == arr[..n] + [arr[n]];
    }
  }

  /**
   Compared by identity, what is left is the leftmost occurrence of each item exactly if no falsy item occurs twice:
   the search gives the earlier item itself, and a falsy one counts as not found.
   */
  lemma KeepsFirstsExactly<T(!new)>(arr: seq<T>, truthy: Truth<T>)
    ensures FilterDuplicates(arr, Identity(), truthy) == Firsts(arr) <==> FalsyOnce(arr, truthy)
  {
    FilterKeeps(arr, truthy);
  }

  lemma {:induction false} LastsAreReversedFirsts<T(!new)>(arr: seq<T>)
    ensures Reverse(Firsts(Reverse(arr))) == Lasts(arr)
  {
    if arr != [] {
      var front := Reverse(arr[1..]);
      assert Reverse(arr) == front + [arr[0]];
      assert Reverse(arr)[..|arr| - 1] == front;
      assert forall x :: x in front <==> x in arr[1..] by { ReverseContains(arr[1..]); }
      LastsAreReversedFirsts(arr[1..]);
      ReversePush(Firsts(front), arr[0]);
    }
  }

  lemma ReverseContains<T(!new)>(s: seq<T>)
    ensures forall x :: x in Reverse(s) <==> x in s
  {
    forall x | x in s ensures x in Reverse(s) {
      var i :| 0 <= i < |s| && s[i] == x;
      assert Reverse(s)[|s| - 1 - i] == x;
    }
  }

  /** From the right it is the rightmost occurrences, under the same condition. */
  lemma KeepsLastsExactly<T(!new)>(arr: seq<T>, truthy: Truth<T>)
    ensures Reverse(FilterDuplicates(Reverse(arr), Identity(), truthy)) == Lasts(arr) <==> FalsyOnce(arr, truthy)
  {
    LastsAreReversedFirsts(arr);
    KeepsFirstsExactly(Reverse(arr), truthy);
    ReverseInjective(FilterDuplicates(Reverse(arr), Identity(), truthy), Firsts(Reverse(arr)));
    FalsyOnceReversed(arr, truthy);
  }

  lemma ReverseInjective<T>(s: seq<T>, t: seq<T>)
    ensures Reverse(s) == Reverse(t) <==> s == t
  {
    if Reverse(s) == Reverse(t) {
      forall i | 0 <= i < |s| ensures s[i] == t[i] {
        assert Reverse(s)[|s| - 1 - i] == Reverse(t)[|s| - 1 - i];
      }
    }
  }

  lemma FalsyOnceReversed<T>(arr: seq<T>, truthy: Truth<T>)
    ensures FalsyOnce(Reverse(arr), truthy) <==> FalsyOnce(arr, truthy)
  {
    var n, back := |arr|, Reverse(arr);
    forall i, j | 0 <= i < j < n && back[i] == back[j] && !truthy(back[i]) ensures !FalsyOnce(arr, truthy) {
      assert arr[n - 1 - j] == arr[n - 1 - i];
    }
    forall i, j | 0 <= i < j < n && arr[i] == arr[j] && !truthy(arr[i]) ensures !FalsyOnce(back, truthy) {
      assert back[n - 1 - j] == back[n - 1 - i];
    }
  }

  /** The filter from the right. The caller's array is left reversed. */
  method FilterDuplicatesRight<T>(arr: array<T>, comparator: Comparator<T>, truthy: Truth<T>) returns (r: seq<T>)
    modifies arr
    ensures r == Reverse(FilterDuplicates(Reverse(old(arr[..])), comparator, truthy))
    ensures arr[..] == Reverse(old(arr[..]))
  {
    forall i | 0 <= i < arr.Length {
      arr[i] := arr[arr.Length - 1 - i];
    }
    assert arr[..] == Reverse(old(arr[..]));
    r := Reverse(FilterDuplicates(arr[..], comparator, truthy));
  }
}

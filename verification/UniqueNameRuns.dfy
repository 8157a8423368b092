/** What the generator guarantees: the index it takes, when it gives up, and how the names of a run relate. */
module UniqueNameRuns {
  import opened Decimal
  import opened Values
  import opened UniqueNames

  // ---- Which names are generated ----

  /** The name is the base, the separator and an index, which is one digit or more. */
  predicate IsIndexed(name: string, separator: string, base: string) {
    base + separator < name && forall i | |base + separator| <= i < |name| :: '0' <= name[i] <= '9'
  }

  /** The base that the name is an index of, the shortest one if there are several; or the name if there is none. */
  ghost predicate IsBaseOf(base: string, name: string, separator: string) {
    if IsIndexed(name, separator, base) then forall b | IsIndexed(name, separator, b) :: |base| <= |b|
    else base == name && forall b :: !IsIndexed(name, separator, b)
  }

  /** The same of the bases that are not shorter than a length. */
  ghost predicate IsBaseFrom(base: string, name: string, separator: string, length: nat) {
    if IsIndexed(name, separator, base) then
      length <= |base| && forall b | IsIndexed(name, separator, b) && length <= |b| :: |base| <= |b|
    else base == name && forall b | length <= |b| :: !IsIndexed(name, separator, b)
  }

  lemma {:induction false} StrippedFrom(name: string, separator: string, i: nat)
    requires i <= |name|
    ensures IsBaseFrom(NameWithoutIndex(name, separator, i), name, separator, i)
    decreases |name| - i
  {
    if IsIndexAt(name, separator, i) {
      AtIndexed(name, separator, i);
    } else if i < |name| {
      StrippedFrom(name, separator, i + 1);
      NotAt(name, separator, i);
      FromNext(NameWithoutIndex(name, separator, i), name, separator, i);
    }
  }

  lemma NotAt(name: string, separator: string, i: nat)
    requires !IsIndexAt(name, separator, i)
    ensures forall b | |b| == i :: !IsIndexed(name, separator, b)
  {
    forall b | IsIndexed(name, separator, b) ensures |b| != i { IndexedAt(name, separator, b); }
  }

  lemma FromNext(base: string, name: string, separator: string, i: nat)
    requires IsBaseFrom(base, name, separator, i + 1) && forall b | |b| == i :: !IsIndexed(name, separator, b)
    ensures IsBaseFrom(base, name, separator, i)
  {
  }

  lemma IndexedAt(name: string, separator: string, b: string)
    requires IsIndexed(name, separator, b)
    ensures IsIndexAt(name, separator, |b|) && name[..|b|] == b
  {
    var n := |b + separator|;
    assert name[..n] == b + separator;
    assert name[|b|..n] == separator && name[..|b|] == b;
  }

  lemma AtIndexed(name: string, separator: string, i: nat)
    requires IsIndexAt(name, separator, i)
    ensures IsIndexed(name, separator, name[..i])
  {
    var n := i + |separator|;
    assert name[..i] + separator == name[..n];
    forall j | n <= j < |name| ensures '0' <= name[j] <= '9' { assert name[n..][j - n] == name[j]; }
  }

  /** What is stripped of a name is the base, and nothing else is. */
  lemma StrippedIsBase(name: string, separator: string, base: string)
    ensures IsBaseOf(base, name, separator) <==> base == NameWithoutIndex(name, separator)
  {
    var r := NameWithoutIndex(name, separator);
    StrippedFrom(name, separator, 0);
    if IsBaseOf(base, name, separator) && IsIndexed(name, separator, base) {
      IndexedAt(name, separator, base);
      IndexedAt(name, separator, r);
    }
  }

  /** A name without an index is its own base, and the base of its indexed names. */
  lemma BaseOfIndexed(base: string, separator: string, digits: string)
    requires separator == "" || !('0' <= separator[|separator| - 1] <= '9')
    requires forall b :: !IsIndexed(base, separator, b)
    requires digits != "" && forall i | 0 <= i < |digits| :: '0' <= digits[i] <= '9'
    ensures IsBaseOf(base, base, separator) && IsBaseOf(base, base + separator + digits, separator)
  {
    var name, n := base + separator + digits, |base + separator|;
    forall i | n <= i < |name| ensures '0' <= name[i] <= '9' { assert name[i] == digits[i - n]; }
    forall b | IsIndexed(name, separator, b) ensures |base| <= |b| {
      if |b| < |base| { NoShorterBase(base, separator, digits, b); }
    }
  }

  /** In a shorter one, the last character of the separator, or of the base, would have to be a digit. */
  lemma NoShorterBase(base: string, separator: string, digits: string, b: string)
    requires separator == "" || !('0' <= separator[|separator| - 1] <= '9')
    requires forall b :: !IsIndexed(base, separator, b)
    requires |b| < |base|
    ensures !IsIndexed(base + separator + digits, separator, b)
  {
    var name := base + separator + digits;
    if separator != "" {
      var last := |base + separator| - 1;
      assert name[last] == separator[|separator| - 1] && |b + separator| <= last;
    } else if b <= base {
      assert !IsIndexed(base, separator, b);
      var i :| |b + separator| <= i < |base| && !('0' <= base[i] <= '9');
      assert name[i] == base[i];
    } else {
      var i :| 0 <= i < |b| && b[i] != base[i];
      assert (b + separator)[i] == b[i] && name[i] == base[i];
    }
  }

  /** No name with the index is used. */
  predicate IsFree(separator: string, used: seq<string>, base: string, suffixes: seq<string>, caseSensitive: bool,
                   index: nat)
  {
    !AreNamesUsed(WithSuffixes(base + separator + Print(index), suffixes), used, caseSensitive)
  }

  /**
   A request that clashes is answered with its base, the separator and the least free index, and the suffixes; if it
   asks for an indexed name itself, the index is replaced. It is an error exactly if no index up to 999 is free.
   */
  lemma IndexIsReplaced(separator: string, used: seq<string>, name: string, base: string, suffixes: seq<string>,
                        caseSensitive: bool)
    requires IsBaseOf(base, name, separator) && AreNamesUsed(WithSuffixes(name, suffixes), used, caseSensitive)
    ensures var r := Generated(separator, used, name, suffixes, caseSensitive);
            && (r.Ok? ==> exists m: nat ::
                  && 1 <= m < 1000 && IsFree(separator, used, base, suffixes, caseSensitive, m)
                  && (forall i | 1 <= i < m :: !IsFree(separator, used, base, suffixes, caseSensitive, i))
                  && r.value == WithSuffixes(base + separator + Print(m), suffixes))
            && (r.Thrown? ==> forall i | 1 <= i < 1000 :: !IsFree(separator, used, base, suffixes, caseSensitive, i))
  {
    StrippedIsBase(name, separator, base);
    LeastFreeIsLeast(separator, used, name, suffixes, caseSensitive, 1);
    forall i: nat
      ensures IsFree(separator, used, base, suffixes, caseSensitive, i) <==>
              !IsTaken(separator, used, name, suffixes, caseSensitive, i)
    {
    }
  }

  /** The index found is free, and no smaller one is; without one, all are taken. */
  lemma {:induction false} LeastFreeIsLeast(separator: string, used: seq<string>, name: string, suffixes: seq<string>,
                                            caseSensitive: bool, from: nat)
    requires from <= MAXIMUM_NUMBER_OF_SUFFIX
    ensures var r := LeastFree(separator, used, name, suffixes, caseSensitive, from);
            && (r.Ok? ==> from <= r.value < MAXIMUM_NUMBER_OF_SUFFIX
                          && !IsTaken(separator, used, name, suffixes, caseSensitive, r.value))
            && forall i | from <= i < (if r.Ok? then r.value else MAXIMUM_NUMBER_OF_SUFFIX) ::
                 IsTaken(separator, used, name, suffixes, caseSensitive, i)
    decreases MAXIMUM_NUMBER_OF_SUFFIX - from
  {
    if from < MAXIMUM_NUMBER_OF_SUFFIX && IsTaken(separator, used, name, suffixes, caseSensitive, from) {
      LeastFreeIsLeast(separator, used, name, suffixes, caseSensitive, from + 1);
      var r := LeastFree(separator, used, name, suffixes, caseSensitive, from);
      assert r == LeastFree(separator, used, name, suffixes, caseSensitive, from + 1);
      forall i | from <= i < (if r.Ok? then r.value else MAXIMUM_NUMBER_OF_SUFFIX)
        ensures IsTaken(separator, used, name, suffixes, caseSensitive, i)
      {
        assert i == from || from + 1 <= i;
      }
    }
  }

  /**
   No generated name is used already. They are one head with every suffix, the head itself first; if no index was
   needed, the head is the requested name and is listed twice.
   */
  lemma GeneratedIsUnused(separator: string, used: seq<string>, name: string, suffixes: seq<string>,
                          caseSensitive: bool)
    ensures var r := Generated(separator, used, name, suffixes, caseSensitive);
            r.Ok? ==>
              && (forall i | 0 <= i < |r.value| :: !IsUsed(r.value[i], used, caseSensitive))
              && (if AreNamesUsed(WithSuffixes(name, suffixes), used, caseSensitive)
                  then |r.value| == |suffixes| + 1 && r.value == WithSuffixes(r.value[0], suffixes)
                  else |r.value| == |suffixes| + 2 && r.value == [name] + WithSuffixes(name, suffixes))
  {
    var r := Generated(separator, used, name, suffixes, caseSensitive);
    var names := WithSuffixes(name, suffixes);
    if AreNamesUsed(names, used, caseSensitive) {
      LeastFreeIsLeast(separator, used, name, suffixes, caseSensitive, 1);
    } else {
      forall i | 0 <= i < |names| ensures !IsUsed(names[i], used, caseSensitive) {}
      assert ([name] + names)[1..] == names;
    }
  }

  // ---- When an index is found ----

  lemma {:induction false} Pigeonhole(keys: seq<nat>, n: nat)
    requires forall i | 0 <= i < |keys| :: keys[i] < n
    requires forall i, j | 0 <= i < j < |keys| :: keys[i] != keys[j]
    ensures |keys| <= n
    decreases n
  {
    if keys != [] {
      assert keys[0] < n;
      if p :| 0 <= p < |keys| && keys[p] == n - 1 {
        var others := keys[..p] + keys[p + 1..];
        forall i, j | 0 <= i < j < |others| ensures others[i] != others[j] {
          assert keys[if i < p then i else i + 1] != keys[if j < p then j else j + 1];
        }
        Pigeonhole(others, n - 1);
      } else {
        Pigeonhole(keys, n - 1);
      }
    }
  }

  /** Used name u blocks index i by suffix s. */
  predicate BlockedBy(separator: string, used: seq<string>, name: string, suffixes: seq<string>, caseSensitive: bool,
                      i: nat, u: nat, s: nat)
  {
    && u < |used| && s <= |suffixes|
    && ForComparison(used[u], caseSensitive) == ForComparison(Indexed(name, separator, i, suffixes)[s], caseSensitive)
  }

  /** A used name and a suffix together block one index at most. */
  lemma BlocksOne(separator: string, used: seq<string>, name: string, suffixes: seq<string>, caseSensitive: bool,
                  i: nat, j: nat, u: nat, s: nat)
    requires BlockedBy(separator, used, name, suffixes, caseSensitive, i, u, s)
    requires BlockedBy(separator, used, name, suffixes, caseSensitive, j, u, s)
    ensures i == j
  {
    var base, suffix := NameWithoutIndex(name, separator) + separator, if s == 0 then "" else suffixes[s - 1];
    assert Indexed(name, separator, i, suffixes)[s] == base + Print(i) + suffix;
    assert Indexed(name, separator, j, suffixes)[s] == base + Print(j) + suffix;
    LowerParts(base, i, suffix);
    LowerParts(base, j, suffix);
    if caseSensitive { SameMiddle(base, Print(i), Print(j), suffix); }
    else { SameMiddle(Lower(base), Print(i), Print(j), Lower(suffix)); }
    PrintInjective(i, j);
  }

  lemma LowerParts(base: string, i: nat, suffix: string)
    ensures Lower(base + Print(i) + suffix) == Lower(base) + Print(i) + Lower(suffix)
  {
    LowerAppend(base + Print(i), suffix);
    LowerAppend(base, Print(i));
    assert Lower(Print(i)) == Print(i) by {
      assert forall k | 0 <= k < |Print(i)| :: IsDigit(Print(i)[k]);
    }
  }

  lemma SameMiddle(a: string, m: string, n: string, b: string)
    requires a + m + b == a + n + b
    ensures m == n
  {
    assert |m| == |n|;
    assert m == (a + m + b)[|a|..|a| + |m|];
  }

  /**
   With k suffixes and n used names an index is found whenever n * (k + 1) < 999: single names never fail while
   at most 998 names are used.
   */
  lemma EnoughIndices(separator: string, used: seq<string>, name: string, suffixes: seq<string>, caseSensitive: bool)
    requires |used| * (|suffixes| + 1) < MAXIMUM_NUMBER_OF_SUFFIX - 1
    ensures Generated(separator, used, name, suffixes, caseSensitive).Ok?
  {
    if LeastFree(separator, used, name, suffixes, caseSensitive, 1).Thrown? {
      LeastFreeIsLeast(separator, used, name, suffixes, caseSensitive, 1);
      TakenAreFew(separator, used, name, suffixes, caseSensitive, MAXIMUM_NUMBER_OF_SUFFIX - 1);
    }
  }

  /** If the first n indices are taken, n distinct pairs of a used name and a suffix block them. */
  lemma TakenAreFew(separator: string, used: seq<string>, name: string, suffixes: seq<string>, caseSensitive: bool,
                    n: nat)
    requires forall i | 1 <= i <= n :: IsTaken(separator, used, name, suffixes, caseSensitive, i)
    ensures n <= |used| * (|suffixes| + 1)
  {
    var blocked := (i: nat, u: nat, s: nat) => BlockedBy(separator, used, name, suffixes, caseSensitive, i, u, s);
    forall i: nat | 1 <= i <= n ensures IsBlocked(blocked, i) {
      var p := Blocker(separator, used, name, suffixes, caseSensitive, i);
      assert blocked(i, p.0, p.1);
    }
    forall i: nat, j: nat, u: nat, s: nat | blocked(i, u, s) && blocked(j, u, s) ensures i == j {
      BlocksOne(separator, used, name, suffixes, caseSensitive, i, j, u, s);
    }
    CountBlocked(blocked, n, |used|, |suffixes| + 1);
  }

  ghost predicate IsBlocked(blocked: (nat, nat, nat) -> bool, i: nat) {
    exists u: nat, s: nat :: blocked(i, u, s)
  }

  /** What blocks distinct numbers by distinct pairs blocks no more numbers than there are pairs. */
  lemma CountBlocked(blocked: (nat, nat, nat) -> bool, n: nat, height: nat, width: nat)
    requires forall i: nat | 1 <= i <= n :: IsBlocked(blocked, i)
    requires forall i: nat, u: nat, s: nat | blocked(i, u, s) :: u < height && s < width
    requires forall i: nat, j: nat, u: nat, s: nat | blocked(i, u, s) && blocked(j, u, s) :: i == j
    ensures n <= height * width
  {
    var pairs := Blockers(blocked, n);
    CountPairs(pairs, height, width);
  }

  lemma {:induction false} Blockers(blocked: (nat, nat, nat) -> bool, n: nat) returns (pairs: seq<(nat, nat)>)
    requires forall i: nat | 1 <= i <= n :: IsBlocked(blocked, i)
    ensures |pairs| == n && forall i | 0 <= i < n :: blocked(i + 1, pairs[i].0, pairs[i].1)
    decreases n
  {
    pairs := [];
    if n > 0 {
      pairs := Blockers(blocked, n - 1);
      assert IsBlocked(blocked, n);
      var u: nat, s: nat :| blocked(n, u, s);
      pairs := pairs + [(u, s)];
    }
  }

  /** A used name and a suffix that block a taken index. */
  ghost function Blocker(separator: string, used: seq<string>, name: string, suffixes: seq<string>,
                         caseSensitive: bool, i: nat)
    : (p: (nat, nat))
    requires IsTaken(separator, used, name, suffixes, caseSensitive, i)
    ensures BlockedBy(separator, used, name, suffixes, caseSensitive, i, p.0, p.1)
  {
    var names := Indexed(name, separator, i, suffixes);
    var s :| 0 <= s < |names| && IsUsed(names[s], used, caseSensitive);
    var u :| 0 <= u < |used| && ForComparison(used[u], caseSensitive) == ForComparison(names[s], caseSensitive);
    (u, s)
  }

  /** There are no more than height * width distinct pairs. */
  lemma CountPairs(pairs: seq<(nat, nat)>, height: nat, width: nat)
    requires forall i | 0 <= i < |pairs| :: pairs[i].0 < height && pairs[i].1 < width
    requires forall i, j | 0 <= i < j < |pairs| :: pairs[i] != pairs[j]
    ensures |pairs| <= height * width
  {
    var keys := seq(|pairs|, i requires 0 <= i < |pairs| => Number(pairs[i], width));
    forall i | 0 <= i < |pairs| ensures keys[i] < height * width { NumberBelow(pairs[i], height, width); }
    forall i, j | 0 <= i < j < |pairs| ensures keys[i] != keys[j] { NumberInjective(pairs[i], pairs[j], width); }
    Pigeonhole(keys, height * width);
  }

  function Number(p: (nat, nat), width: nat): nat {
    p.0 * width + p.1
  }

  lemma Multiples(m: nat, n: nat, width: nat)
    requires m < n
    ensures m * width + width <= n * width
  {
    var d := n - m - 1;
    assert d * width >= 0;
    assert n * width == (m + 1 + d) * width == m * width + width + d * width;
  }

  lemma NumberBelow(p: (nat, nat), height: nat, width: nat)
    requires p.0 < height && p.1 < width
    ensures Number(p, width) < height * width
  {
    Multiples(p.0, height, width);
  }

  lemma NumberInjective(p: (nat, nat), q: (nat, nat), width: nat)
    requires p.1 < width && q.1 < width && p != q
    ensures Number(p, width) != Number(q, width)
  {
    if p.0 < q.0 { Multiples(p.0, q.0, width); }
    if q.0 < p.0 { Multiples(q.0, p.0, width); }
  }

  // ---- Runs of requests ----

  /** A request to generate and save: a single name, or a name with suffixes. */
  datatype Request =
    | Single(name: string, caseSensitive: bool)
    | Family(name: string, suffixes: seq<string>, caseSensitive: bool)

  /** The names a request saves and returns. */
  function Answer(separator: string, used: seq<string>, q: Request): Outcome<seq<string>> {
    match q
    case Single(name, cs) =>
      var all :- Generated(separator, used, name, [], cs);
      Ok([all[0]])
    case Family(name, suffixes, cs) => Generated(separator, used, name, suffixes, cs)
  }

  function Saved(used: seq<string>, answer: Outcome<seq<string>>): seq<string> {
    if answer.Ok? then used + answer.value else used
  }

  function Run(separator: string, used: seq<string>, qs: seq<Request>): (answers: seq<Outcome<seq<string>>>)
    ensures |answers| == |qs|
    decreases qs
  {
    if qs == [] then []
    else
      var answer := Answer(separator, used, qs[0]);
      [answer] + Run(separator, Saved(used, answer), qs[1..])
  }

  lemma RunStep(separator: string, used: seq<string>, qs: seq<Request>, j: nat)
    requires 0 < j < |qs|
    ensures Run(separator, used, qs)[j] == Run(separator, Saved(used, Answer(separator, used, qs[0])), qs[1..])[j - 1]
    ensures qs[j] == qs[1..][j - 1]
  {
  }

  lemma AnswerIsUnused(separator: string, used: seq<string>, q: Request, n: string)
    requires Answer(separator, used, q).Ok? && n in Answer(separator, used, q).value
    ensures !IsUsed(n, used, q.caseSensitive)
  {
    match q
    case Single(name, cs) => GeneratedIsUnused(separator, used, name, [], cs);
    case Family(name, suffixes, cs) => GeneratedIsUnused(separator, used, name, suffixes, cs);
  }

  /** No name of a run was used before it: reserved words are avoided. */
  lemma {:induction false} RunAvoidsUsed(separator: string, used: seq<string>, qs: seq<Request>, j: nat, n: string)
    requires j < |qs| && Run(separator, used, qs)[j].Ok? && n in Run(separator, used, qs)[j].value
    ensures !IsUsed(n, used, qs[j].caseSensitive)
    decreases qs
  {
    var answer := Answer(separator, used, qs[0]);
    if j == 0 {
      AnswerIsUnused(separator, used, qs[0], n);
    } else {
      var more := Saved(used, answer);
      RunStep(separator, used, qs, j);
      RunAvoidsUsed(separator, more, qs[1..], j - 1, n);
      forall i | 0 <= i < |used|
        ensures ForComparison(used[i], qs[j].caseSensitive) != ForComparison(n, qs[j].caseSensitive)
      {
        assert more[i] == used[i];
      }
    }
  }

  lemma SavedDiffers(used: seq<string>, answer: Outcome<seq<string>>, m: string, n: string, caseSensitive: bool)
    requires answer.Ok? && m in answer.value && !IsUsed(n, Saved(used, answer), caseSensitive)
    ensures ForComparison(m, caseSensitive) != ForComparison(n, caseSensitive)
  {
    var k :| 0 <= k < |answer.value| && answer.value[k] == m;
    assert Saved(used, answer)[|used| + k] == m;
  }

  /**
   Names of different calls differ: a later name differs from every name of an earlier call, also in lower case if
   the later call asked for that.
   */
  lemma {:induction false} RunNamesDiffer(separator: string, used: seq<string>, qs: seq<Request>, i: nat, j: nat,
                                          m: string, n: string)
    requires i < j < |qs|
    requires var answers := Run(separator, used, qs);
             answers[i].Ok? && answers[j].Ok? && m in answers[i].value && n in answers[j].value
    ensures m != n && ForComparison(m, qs[j].caseSensitive) != ForComparison(n, qs[j].caseSensitive)
    decreases qs
  {
    if i == 0 {
      LaterDiffers(separator, used, qs, j, m, n);
    } else {
      RunStep(separator, used, qs, j);
      RunStep(separator, used, qs, i);
      RunNamesDiffer(separator, Saved(used, Answer(separator, used, qs[0])), qs[1..], i - 1, j - 1, m, n);
    }
  }

  lemma LaterDiffers(separator: string, used: seq<string>, qs: seq<Request>, j: nat, m: string, n: string)
    requires 0 < j < |qs|
    requires var answers := Run(separator, used, qs);
             answers[0].Ok? && answers[j].Ok? && m in answers[0].value && n in answers[j].value
    ensures m != n && ForComparison(m, qs[j].caseSensitive) != ForComparison(n, qs[j].caseSensitive)
  {
    var answer := Answer(separator, used, qs[0]);
    RunStep(separator, used, qs, j);
    RunAvoidsUsed(separator, Saved(used, answer), qs[1..], j - 1, n);
    SavedDiffers(used, answer, m, n, qs[j].caseSensitive);
  }

  /** A run of single, case-sensitive requests changes no name exactly if the names are distinct and not used before. */
  lemma {:induction false} RunIsIdentityExactly(separator: string, used: seq<string>, names: seq<string>)
    ensures (forall i | 0 <= i < |names| :: Run(separator, used, Singles(names))[i] == Ok([names[i]])) <==>
            && (forall i | 0 <= i < |names| :: names[i] !in used)
            && (forall i, j | 0 <= i < j < |names| :: names[i] != names[j])
    decreases |names|
  {
    if names != [] {
      var answer := Answer(separator, used, Single(names[0], true));
      SingleIsIdentityExactly(separator, used, names[0]);
      assert Singles(names)[1..] == Singles(names[1..]);
      var answers := Run(separator, used, Singles(names));
      assert answers[0] == answer;
      if answer == Ok([names[0]]) {
        RunIsIdentityExactly(separator, used + [names[0]], names[1..]);
        assert forall i | 0 < i < |names| :: names[i] == names[1..][i - 1] && answers[i] == answers[1..][i - 1];
        assert answers[1..] == Run(separator, used + [names[0]], Singles(names[1..]));
      }
    }
  }

  function Singles(names: seq<string>): (qs: seq<Request>)
    ensures |qs| == |names|
  {
    seq(|names|, i requires 0 <= i < |names| => Single(names[i], true))
  }

  lemma SingleIsIdentityExactly(separator: string, used: seq<string>, name: string)
    ensures Answer(separator, used, Single(name, true)) == Ok([name]) <==> name !in used
  {
    GeneratedIsUnused(separator, used, name, [], true);
    var names := WithSuffixes(name, []);
    assert names == [name];
    assert AreNamesUsed(names, used, true) <==> IsUsed(name, used, true);
  }
}

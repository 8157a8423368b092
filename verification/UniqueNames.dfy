/** Unique names: a bounded search over the names that may clash, and what whole runs of it guarantee. */
module UniqueNames {
  import opened Decimal
  import opened Values

  /** The search for an index stops before this number. */
  const MAXIMUM_NUMBER_OF_SUFFIX := 1000

  function LowerChar(c: char): char {
    if 'A' <= c <= 'Z' then c - 'A' + 'a' else c
  }

  function Lower(s: string): (r: string)
    ensures |r| == |s| && forall i | 0 <= i < |s| :: r[i] == LowerChar(s[i])
  {
    seq(|s|, i requires 0 <= i < |s| => LowerChar(s[i]))
  }

  /** The characters are the same, but perhaps for the case of an ASCII letter. */
  predicate IsSameLetter(c: char, d: char) {
    || c == d
    || ('A' <= c <= 'Z' && d as int == c as int + 32)
    || ('A' <= d <= 'Z' && c as int == d as int + 32)
  }

  /** Names are the same ignoring the case exactly if they are letter by letter. */
  lemma SameNameExactly(s: string, t: string)
    ensures ForComparison(s, false) == ForComparison(t, false) <==>
            |s| == |t| && forall i | 0 <= i < |s| :: IsSameLetter(s[i], t[i])
    ensures ForComparison(s, true) == ForComparison(t, true) <==> s == t
  {
    forall i | 0 <= i < |s| && |s| == |t|
      ensures Lower(s)[i] == Lower(t)[i] <==> IsSameLetter(s[i], t[i])
    {
    }
  }

  function ForComparison(name: string, caseSensitive: bool): string {
    if caseSensitive then name else Lower(name)
  }

  predicate IsUsed(name: string, used: seq<string>, caseSensitive: bool) {
    exists i | 0 <= i < |used| :: ForComparison(used[i], caseSensitive) == ForComparison(name, caseSensitive)
  }

  predicate AreNamesUsed(names: seq<string>, used: seq<string>, caseSensitive: bool) {
    exists i | 0 <= i < |names| :: IsUsed(names[i], used, caseSensitive)
  }

  /** The text from position i on is the separator and an index. */
  predicate IsIndexAt(name: string, separator: string, i: nat) {
    && i + |separator| < |name|
    && name[i..i + |separator|] == separator
    && AllDigits(name[i + |separator|..])
  }

  /** Strips the separator and index a name ends with, if it does; the leftmost match counts. */
  function NameWithoutIndex(name: string, separator: string, i: nat := 0): (r: string)
    requires i <= |name|
    ensures r <= name
    decreases |name| - i
  {
    if IsIndexAt(name, separator, i) then name[..i]
    else if i < |name| then NameWithoutIndex(name, separator, i + 1)
    else name
  }

  function WithSuffixes(name: string, suffixes: seq<string>): (r: seq<string>)
    ensures |r| == 1 + |suffixes| && r[0] == name
    ensures forall i | 0 <= i < |suffixes| :: r[i + 1] == name + suffixes[i]
  {
    [name] + seq(|suffixes|, i requires 0 <= i < |suffixes| => name + suffixes[i])
  }

  function Indexed(name: string, separator: string, index: nat, suffixes: seq<string>): seq<string> {
    WithSuffixes(NameWithoutIndex(name, separator) + separator + Print(index), suffixes)
  }

  predicate IsTaken(separator: string, used: seq<string>, name: string, suffixes: seq<string>, caseSensitive: bool,
                    index: nat)
  {
    AreNamesUsed(Indexed(name, separator, index, suffixes), used, caseSensitive)
  }

  /** The least free index from `index` on, against all used names. */
  function LeastFree(separator: string, used: seq<string>, name: string, suffixes: seq<string>, caseSensitive: bool,
                     index: nat)
    : Outcome<nat>
    decreases MAXIMUM_NUMBER_OF_SUFFIX - index, name
  {
    if index >= MAXIMUM_NUMBER_OF_SUFFIX then Thrown
    else if !IsTaken(separator, used, name, suffixes, caseSensitive, index) then Ok(index)
    else LeastFree(separator, used, name, suffixes, caseSensitive, index + 1)
  }

  /**
   What is generated: the name itself if nothing clashes with any used name, or else the least index that does not.
   */
  function Generated(separator: string, used: seq<string>, name: string, suffixes: seq<string>, caseSensitive: bool)
    : Outcome<seq<string>>
  {
    if !AreNamesUsed(WithSuffixes(name, suffixes), used, caseSensitive) then Ok([name] + WithSuffixes(name, suffixes))
    else
      var index :- LeastFree(separator, used, name, suffixes, caseSensitive, 1);
      Ok(Indexed(name, separator, index, suffixes))
  }

  class UniqueNameGenerator {
    const indexSeparator: string
    var usedNames: seq<string>

    constructor (indexSeparator: string := "_", usedNames: seq<string> := [])
      ensures this.indexSeparator == indexSeparator && this.usedNames == usedNames
    {
      this.indexSeparator := indexSeparator;
      this.usedNames := usedNames;
    }

    method AddToUsedNames(names: seq<string>)
      modifies this
      ensures usedNames == old(usedNames) + names
    {
      usedNames := usedNames + names;
    }

    /** Used names in the form they are compared in, if they start like the name does without its index. */
    method GetUsedNamesStartingWith(name: string, caseSensitive: bool) returns (relevant: seq<string>)
      ensures Relevant(usedNames, NameWithoutIndex(name, indexSeparator), caseSensitive, relevant)
    {
      var prefix := ForComparison(NameWithoutIndex(name, indexSeparator), caseSensitive);
      relevant := [];
      var i := 0;
      while i < |usedNames|
        invariant 0 <= i <= |usedNames|
        invariant Relevant(usedNames[..i], NameWithoutIndex(name, indexSeparator), caseSensitive, relevant)
      {
        RelevantStep(usedNames, i, NameWithoutIndex(name, indexSeparator), caseSensitive, relevant);
        if prefix <= ForComparison(usedNames[i], caseSensitive) {
          relevant := relevant + [ForComparison(usedNames[i], caseSensitive)];
        }
        i := i + 1;
      }
      assert usedNames[..i] == usedNames;
    }

    method GetUniqueIndex(name: string, relevant: seq<string>, suffixes: seq<string>, caseSensitive: bool)
      returns (r: Outcome<nat>)
      requires Relevant(usedNames, NameWithoutIndex(name, indexSeparator), caseSensitive, relevant)
      ensures r == LeastFree(indexSeparator, usedNames, name, suffixes, caseSensitive, 1)
    {
      var index := 1;
      while index < MAXIMUM_NUMBER_OF_SUFFIX
        invariant 1 <= index <= MAXIMUM_NUMBER_OF_SUFFIX
        invariant LeastFree(indexSeparator, usedNames, name, suffixes, caseSensitive, 1) ==
                  LeastFree(indexSeparator, usedNames, name, suffixes, caseSensitive, index)
      {
        var newNames := Indexed(name, indexSeparator, index, suffixes);
        IndexedStartLikeName(name, indexSeparator, index, suffixes);
        RelevantSuffices(newNames, usedNames, NameWithoutIndex(name, indexSeparator), caseSensitive, relevant);
        if !AreNamesUsed(newNames, relevant, caseSensitive) { return Ok(index); }
        index := index + 1;
      }
      r := Thrown;
    }

    method GenerateUniqueNamesWithSuffixes(name: string, suffixes: seq<string>, caseSensitive: bool)
      returns (r: Outcome<seq<string>>)
      ensures r == Generated(indexSeparator, usedNames, name, suffixes, caseSensitive)
    {
      var relevant := GetUsedNamesStartingWith(name, caseSensitive);
      var names := WithSuffixes(name, suffixes);
      RelevantSuffices(names, usedNames, NameWithoutIndex(name, indexSeparator), caseSensitive, relevant);
      if !AreNamesUsed(names, relevant, caseSensitive) { return Ok([name] + names); }
      var index := GetUniqueIndex(name, relevant, suffixes, caseSensitive);
      if index.Thrown? { return Thrown; }
      r := Ok(Indexed(name, indexSeparator, index.value, suffixes));
    }

    method GenerateAndSaveUniqueNamesWithSuffixes(name: string, suffixes: seq<string>, caseSensitive: bool)
      returns (r: Outcome<seq<string>>)
      modifies this
      ensures r == Generated(indexSeparator, old(usedNames), name, suffixes, caseSensitive)
      ensures usedNames == if r.Ok? then old(usedNames) + r.value else old(usedNames)
    {
      r := GenerateUniqueNamesWithSuffixes(name, suffixes, caseSensitive);
      if r.Ok? { AddToUsedNames(r.value); }
    }

    method GenerateAndSaveUniqueName(name: string, caseSensitive: bool := true) returns (r: Outcome<string>)
      modifies this
      ensures var all := Generated(indexSeparator, old(usedNames), name, [], caseSensitive);
              && r == (if all.Ok? then Ok(all.value[0]) else Thrown)
              && usedNames == (if r.Ok? then old(usedNames) + [r.value] else old(usedNames))
    {
      var names := GenerateUniqueNamesWithSuffixes(name, [], caseSensitive);
      if names.Thrown? { return Thrown; }
      AddToUsedNames([names.value[0]]);
      r := Ok(names.value[0]);
    }
  }

  // ---- The filter loses nothing ----

  /** The filtered names are, as compared, exactly the used names with the prefix. */
  ghost predicate Relevant(used: seq<string>, base: string, caseSensitive: bool, relevant: seq<string>) {
    forall n :: n in relevant <==>
      && ForComparison(base, caseSensitive) <= n
      && exists i | 0 <= i < |used| :: ForComparison(used[i], caseSensitive) == n
  }

  lemma RelevantStep(used: seq<string>, i: nat, base: string, caseSensitive: bool, relevant: seq<string>)
    requires i < |used| && Relevant(used[..i], base, caseSensitive, relevant)
    ensures var n := ForComparison(used[i], caseSensitive);
            Relevant(used[..i + 1], base, caseSensitive,
                     if ForComparison(base, caseSensitive) <= n then relevant + [n] else relevant)
  {
    var more := used[..i + 1];
    assert more[i] == used[i] && forall j | 0 <= j < i :: more[j] == used[..i][j];
  }

  lemma LowerIdempotent(s: string)
    ensures Lower(Lower(s)) == Lower(s)
  {
  }

  lemma LowerAppend(s: string, t: string)
    ensures Lower(s + t) == Lower(s) + Lower(t)
  {
  }

  lemma LowerPrefix(s: string, t: string)
    requires s <= t
    ensures Lower(s) <= Lower(t)
  {
  }

  lemma IndexedStartLikeName(name: string, separator: string, index: nat, suffixes: seq<string>)
    ensures var names := Indexed(name, separator, index, suffixes);
            forall i | 0 <= i < |names| :: NameWithoutIndex(name, separator) <= names[i]
  {
  }

  /** For names with the prefix, asking the filtered names is asking all used names. */
  lemma RelevantSuffices(names: seq<string>, used: seq<string>, base: string, caseSensitive: bool,
                         relevant: seq<string>)
    requires Relevant(used, base, caseSensitive, relevant)
    requires forall i | 0 <= i < |names| :: base <= names[i]
    ensures AreNamesUsed(names, relevant, caseSensitive) <==> AreNamesUsed(names, used, caseSensitive)
  {
    forall i | 0 <= i < |names|
      ensures IsUsed(names[i], relevant, caseSensitive) <==> IsUsed(names[i], used, caseSensitive)
    {
      RelevantDecides(names[i], used, base, caseSensitive, relevant);
    }
  }

  lemma RelevantDecides(name: string, used: seq<string>, base: string, caseSensitive: bool, relevant: seq<string>)
    requires Relevant(used, base, caseSensitive, relevant) && base <= name
    ensures IsUsed(name, relevant, caseSensitive) <==> IsUsed(name, used, caseSensitive)
  {
    LowerPrefix(base, name);
    forall i | 0 <= i < |relevant| ensures ForComparison(relevant[i], caseSensitive) == relevant[i] {
      assert relevant[i] in relevant;
      var j :| 0 <= j < |used| && ForComparison(used[j], caseSensitive) == relevant[i];
      LowerIdempotent(used[j]);
    }
    if IsUsed(name, used, caseSensitive) {
      assert ForComparison(name, caseSensitive) in relevant;
    }
    if IsUsed(name, relevant, caseSensitive) {
      var i :| 0 <= i < |relevant| && ForComparison(relevant[i], caseSensitive) == ForComparison(name, caseSensitive);
      assert relevant[i] in relevant;
    }
  }
}

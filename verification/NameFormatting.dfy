/** The users of the name generator: the names of a service client, and the directories services are generated to. */
module NameFormatting {
  import opened Values
  import opened UniqueNames
  import opened UniqueNameRuns

  const INTERFACE_SUFFIXES: seq<string> := ["Type"]

  /**
   Names are passed in transformed to the case of their kind. One generator serves the whole service, and one each
   container of properties; a container gets its own when it is first named.
   */
  class ServiceNameFormatter {
    const skipValidation: bool
    const reservedWords: seq<string>
    const serviceWide: UniqueNameGenerator
    var instanceNames: map<string, UniqueNameGenerator>

    /** Generators are not shared. */
    ghost predicate Valid()
      reads this
    {
      && serviceWide.indexSeparator == "_"
      && (forall c | c in instanceNames :: instanceNames[c] != serviceWide && instanceNames[c].indexSeparator == "_")
      && forall c, d | c in instanceNames && d in instanceNames && c != d :: instanceNames[c] != instanceNames[d]
    }

    /** The names used in a container. */
    function UsedIn(container: string): seq<string>
      reads this, instanceNames.Values
    {
      if container in instanceNames then instanceNames[container].usedNames else reservedWords
    }

    constructor (skipValidation: bool, reservedWords: seq<string>, reservedServiceKeywords: seq<string>)
      ensures Valid() && fresh(serviceWide) && instanceNames == map[]
      ensures this.skipValidation == skipValidation && this.reservedWords == reservedWords
      ensures serviceWide.usedNames == reservedWords + reservedServiceKeywords
    {
      this.skipValidation, this.reservedWords := skipValidation, reservedWords;
      serviceWide := new UniqueNameGenerator("_", reservedWords + reservedServiceKeywords);
      instanceNames := map[];
    }

    method GetOrInitGenerator(container: string) returns (g: UniqueNameGenerator)
      requires Valid()
      modifies this`instanceNames
      ensures Valid() && container in instanceNames && instanceNames[container] == g
      ensures container in old(instanceNames) ==> instanceNames == old(instanceNames)
      ensures container !in old(instanceNames) ==> fresh(g) && instanceNames == old(instanceNames)[container := g]
      ensures g.usedNames == old(UsedIn(container))
    {
      if container !in instanceNames {
        var generator := new UniqueNameGenerator("_", reservedWords);
        instanceNames := instanceNames[container := generator];
      }
      g := instanceNames[container];
    }

    /** A changed name is an error, unless validation is skipped. */
    function AssertNameChange(transformed: string, unique: string): Outcome<string> {
      if unique == transformed || skipValidation then Ok(unique) else Thrown
    }

    /**
     The name of a property or navigation property in its container. It is saved even if the change of name is then
     an error. No other container and no service-wide name is affected.
     */
    method OriginalToInstancePropertyName(container: string, transformed: string)
      returns (r: Outcome<string>, ghost unique: Outcome<string>)
      requires Valid()
      modifies this`instanceNames, if container in instanceNames then {instanceNames[container]} else {}
      ensures Valid()
      ensures Answer("_", old(UsedIn(container)), Single(transformed, true)) ==
              if unique.Ok? then Ok([unique.value]) else Thrown
      ensures r == if unique.Ok? && (skipValidation || unique.value == transformed) then unique else Thrown
      ensures UsedIn(container) == old(UsedIn(container)) + if unique.Ok? then [unique.value] else []
      ensures forall c | c != container :: UsedIn(c) == old(UsedIn(c))
      ensures serviceWide.usedNames == old(serviceWide.usedNames)
    {
      var g := GetOrInitGenerator(container);
      var name := g.GenerateAndSaveUniqueName(transformed, true);
      unique := name;
      r := if name.Ok? then AssertNameChange(transformed, name.value) else Thrown;
    }

    /** The class name of an entity, whose interface name is saved with it. */
    method OriginalToEntityClassName(transformed: string) returns (r: Outcome<string>)
      requires Valid()
      modifies serviceWide
      ensures Valid()
      ensures var names := Answer("_", old(serviceWide.usedNames), Family(transformed, ["Type"], false));
              && serviceWide.usedNames == Saved(old(serviceWide.usedNames), names)
              && r == if names.Ok? && (skipValidation || names.value[0] == transformed) then Ok(names.value[0])
                      else Thrown
    {
      var names := serviceWide.GenerateAndSaveUniqueNamesWithSuffixes(transformed, INTERFACE_SUFFIXES, false);
      GeneratedIsUnused("_", old(serviceWide.usedNames), transformed, INTERFACE_SUFFIXES, false);
      r := if names.Ok? then AssertNameChange(transformed, names.value[0]) else Thrown;
    }

    /** The name of a complex or enum type. */
    method OriginalToServiceWideName(transformed: string) returns (r: Outcome<string>)
      requires Valid()
      modifies serviceWide
      ensures Valid()
      ensures var names := Answer("_", old(serviceWide.usedNames), Single(transformed, false));
              && serviceWide.usedNames == Saved(old(serviceWide.usedNames), names)
              && r == if names.Ok? && (skipValidation || names.value[0] == transformed) then Ok(names.value[0])
                      else Thrown
    {
      var name := serviceWide.GenerateAndSaveUniqueName(transformed, false);
      r := if name.Ok? then AssertNameChange(transformed, name.value) else Thrown;
    }
  }

  // ---- Directories ----

  predicate HasDuplicates(directoryNames: map<string, string>) {
    exists p, q | p in directoryNames && q in directoryNames :: p != q && directoryNames[p] == directoryNames[q]
  }

  function Wanted(paths: seq<string>, directoryNames: map<string, string>): seq<string>
    requires forall p | p in paths :: p in directoryNames
  {
    seq(|paths|, i requires 0 <= i < |paths| => directoryNames[paths[i]])
  }

  /**
   The directory for every input path. They are distinct; validated names of distinct paths are left as they are, and
   duplicate names are an error when they are validated.
   */
  method GetDirectories(paths: seq<string>, directoryNames: map<string, string>, skipValidation: bool)
    returns (r: Outcome<seq<string>>)
    requires forall p :: p in paths <==> p in directoryNames
    ensures !skipValidation && HasDuplicates(directoryNames) ==> r.Thrown?
    ensures r.Ok? ==> |r.value| == |paths|
    ensures r.Ok? ==> forall i, j | 0 <= i < j < |r.value| :: r.value[i] != r.value[j]
    ensures (!skipValidation && !HasDuplicates(directoryNames) &&
            (forall i, j | 0 <= i < j < |paths| :: paths[i] != paths[j])) ==>
              r == Ok(Wanted(paths, directoryNames))
    ensures |paths| < MAXIMUM_NUMBER_OF_SUFFIX && (skipValidation || !HasDuplicates(directoryNames)) ==> r.Ok?
  {
    if !skipValidation && HasDuplicates(directoryNames) { return Thrown; }
    var generator := new UniqueNameGenerator("-", []);
    var names, i := [], 0;
    ghost var validated := !skipValidation && forall i, j | 0 <= i < j < |paths| :: paths[i] != paths[j];
    while i < |paths|
      invariant 0 <= i <= |paths| && |names| == i && fresh(generator) && generator.indexSeparator == "-"
      invariant generator.usedNames == names
      invariant forall j, k | 0 <= j < k < i :: names[j] != names[k]
      invariant validated ==> names == Wanted(paths, directoryNames)[..i]
    {
      var wanted := directoryNames[paths[i]];
      NextDirectory(names, wanted);
      if validated { NextIsWanted(paths, directoryNames, i); }
      var name := generator.GenerateAndSaveUniqueName(wanted, true);
      if name.Thrown? { return Thrown; }
      names := names + [name.value];
      i := i + 1;
    }
    assert Wanted(paths, directoryNames)[..i] == Wanted(paths, directoryNames);
    r := Ok(names);
  }

  /** A single name is new, and as wanted if that one is not used; while fewer than 999 are used there is one. */
  lemma NextDirectory(names: seq<string>, wanted: string)
    ensures var name := Generated("-", names, wanted, [], true);
            && (name.Ok? ==> name.value != [] && name.value[0] !in names)
            && (wanted !in names ==> name.Ok? && name.value[0] == wanted)
            && (|names| < MAXIMUM_NUMBER_OF_SUFFIX - 1 ==> name.Ok?)
  {
    GeneratedIsUnused("-", names, wanted, [], true);
    SingleIsIdentityExactly("-", names, wanted);
    EnoughForSingles("-", names, wanted);
  }

  lemma NextIsWanted(paths: seq<string>, directoryNames: map<string, string>, i: nat)
    requires !HasDuplicates(directoryNames) && i < |paths| && forall p | p in paths :: p in directoryNames
    requires forall j, k | 0 <= j < k < |paths| :: paths[j] != paths[k]
    ensures directoryNames[paths[i]] !in Wanted(paths, directoryNames)[..i]
    ensures Wanted(paths, directoryNames)[..i + 1] == Wanted(paths, directoryNames)[..i] + [directoryNames[paths[i]]]
  {
    forall j | 0 <= j < i ensures Wanted(paths, directoryNames)[j] != directoryNames[paths[i]] {
      assert paths[j] != paths[i] && paths[j] in directoryNames && paths[i] in directoryNames;
    }
  }

  lemma EnoughForSingles(separator: string, used: seq<string>, name: string)
    ensures |used| < MAXIMUM_NUMBER_OF_SUFFIX - 1 ==> Generated(separator, used, name, [], true).Ok?
  {
    if |used| < MAXIMUM_NUMBER_OF_SUFFIX - 1 { EnoughIndices(separator, used, name, [], true); }
  }
}

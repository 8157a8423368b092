# A model of the SAP Cloud SDK's client core

The SAP Cloud SDK for JavaScript generates typed clients for OData and OpenAPI services. This project models the parts
of it that carry the most logic and proves what they promise:

- **Entities** are objects with properties, links to other entities and custom fields. They are read from JSON, walked
  to take a snapshot, compared with the last state known to the service, and sent back, whole or as a patch.
- **Unique names** are generated for everything in a client, from a bounded search over numbered candidates.
- **Requests** get their path from a template, their headers and parameters from several origins by priority, and
  middlewares around them for retries, circuit breakers and timeouts.
- **Wire formats**: the binary frame that authenticates at a proxy, and the date and time texts of OData version 2.

| file | models |
|---|---|
| `Sequences.dfy`, `Values.dfy`, `Decimal.dfy`, `Encodings.dfy` | sequences, JavaScript values, decimal printing, UTF-8 and percent-encoding |
| `Equality.dfy` | the comparison the diff rests on |
| `Schema.dfy`, `ComplexTypes.dfy`, `ComplexJson.dfy` | schemas; conversion of complex values and collections, both ways |
| `EntityTrees.dfy`, `EntityRoundTrip.dfy`, `EntityJson.dfy`, `EntityDiff.dfy` | entities as values: reading, sending, both round trips, diffing |
| `EntityPayloads.dfy` | the forms in which services send links and lists |
| `EntityGraph.dfy`, `EntityShown.dfy` | the walk over a possibly cyclic entity graph, and what it shows, said without the walk |
| `Entities.dfy`, `EntityReading.dfy` | the entity class with its mutable state, and deserialisation that fills it |
| `UniqueNames.dfy`, `UniqueNameRuns.dfy`, `NameFormatting.dfy` | the name generator, whole runs of it, and its users |
| `PathTemplates.dfy`, `PathValues.dfy`, `PriorityMerge.dfy` | path templates, the values read back from a path, merging by priority |
| `Resilience.dfy` | middlewares, runs of the resilience stack, breaker registry, timeout race |
| `Arrays.dfy` | flattening with a stack, chunks, duplicates |
| `AuthFrame.dfy`, `Temporal.dfy` | the authentication frame; dates, times and durations |

`dafny verify dfyconfig.toml` checks all of it.

Code that changes state is modelled as classes and methods with loops: the entity with its shared list of visited
entities, the reader that fills it, the name generators, the breaker registry, the timeout race, the array loops and
the buffers of the frame. Each method is proved against a function of the old state, and the theorems are about those
functions. Code made of expressions is modelled as functions. Case conversion (`camelCase`, `upperCaseSnakeCase`), the
value converters, the replies of a server, and the retry and breaker libraries are parameters.

Schemas are assumed to be coherent where a statement says so: looking up a field by the snake case of its property name
finds that field, and the names within a complex type are distinct. Statements about the remote state assume that
camel case applied twice is camel case applied once, and that a payload, being JSON, holds no undefined member.

## Where the code does less than its documentation says

Each of these is stated by a lemma in the table, with the exact condition under which it does not happen, or with a
concrete input.

- `equal` is one-sided: `{a: undefined}` equals `{b: null}`, but not the other way round, and `{length: 1}` equals a
  list of one `null`, but not the other way round. It can be turned round, and chained, from exactly those values that
  hold no undefined and no record that passes for an array.
- A custom field whose camel case is a truthy member of its entity is renamed in the remote state, and so it is
  reported as changed right after the entity was read.
- A list of linked entities is dropped from a snapshot as a whole if one of them was visited, and with it everything
  that can be reached through the list alone. Nothing is lost if properties that share an entity lead to the same
  entities, and what leads to the root leads to it alone; beyond that it depends on the order of the properties.
- The default converters send a null member of a complex value as the text `null`, which is not read back as null.
- `generateUniqueNamesWithSuffixes` gives the first name twice if no index is needed; its documentation says one name,
  and one for each suffix. The names are saved even if the change of name then is an error.
- With nested braces `getPath` can fill a text that one value has completed instead of the placeholder that follows.
- A falsy header of higher priority leaves two entries for one name if the casing differs.
- `filterDuplicates` keeps duplicates of falsy items; `filterDuplicatesRight` leaves its argument reversed.
- Dates before 1970, and offsets with seconds, are printed in a form that the parser refuses. Digits below a
  millisecond, and the name of a zone, are not printed at all.
- The key of a circuit breaker can be taken apart in more than one place, for instance if the tenant holds `::`, and
  then requests of different URIs or tenants share a breaker.
- A patch may leave out a changed property, or a custom field, if one of the other kind has the same name.
- A location id of more than 189 bytes makes the frame builder throw.

## Model

| member | source | states |
|---|---|---|
| Equality.EqualMeansSameNorm | packages/util/src/equal.ts:9-55 | If one side holds no undefined and no record that passes for an array, `equal` holds exactly if both sides have the same content, arrays read as objects keyed by index, although it compares key counts and the first side's keys only. |
| Equality.EqualIsContentEqualityExactly | packages/util/src/equal.ts:9-55 | `equal(a, ·)` decides equality of content against every other value if and only if `a` holds no undefined and no record that passes for an array: for any other `a` there is a value it is confused with. |
| Equality.SameContentExactly | packages/util/src/equal.ts:9-55 | What content means: objects and arrays have the same content exactly if they have the same keys, and the same content under each; anything else only if it is the same value. |
| Equality.SymmetricExactly | packages/util/src/equal.ts:9-42 | For all values `b`, `equal(a, b)` implies `equal(b, a)`, if and only if `a` holds no undefined and no record that passes for an array. |
| Equality.TransitiveExactly | packages/util/src/equal.ts:9-42 | For all values `b` and `c`, `equal(a, b)` and `equal(b, c)` imply `equal(a, c)`, if and only if `a` is such a value. |
| Equality.EqualIsEquivalence | packages/util/src/equal.ts:9-42 | From such a value it is reflexive, symmetric and transitive, whatever the other values. |
| Equality.ArraysAsObjects | packages/util/src/equal.ts:30-55 | Comparing two arrays item by item is comparing them as objects. |
| Equality.GapIsNotSymmetric | packages/util/src/equal.ts:9-18 | Two objects on which the comparison is one-sided, because an undefined member hides a missing key. |
| Equality.RecordIsNotSymmetric | packages/util/src/equal.ts:29-42 | A record with a `length` and a list on which it is one-sided. |
| ComplexTypes.GatherCollects | packages/odata-common/src/entity-deserializer.ts:239-251 | With distinct names, merging optional one-member objects keeps every member and makes up none. |
| ComplexTypes.SerializedMembers | packages/odata-common/src/entity-serializer.ts:201-220 | Exactly the declared members that a value has are sent, each under its original name; all other members are left out, and sending throws exactly if one of them does. |
| ComplexTypes.DeserializedMembers | packages/odata-common/src/entity-deserializer.ts:231-252 | Exactly the declared members that the JSON has are read, each under its own name, and reading throws exactly if one of them does; a text or a number has none. |
| ComplexTypes.NullComplexIsRead | packages/odata-common/src/entity-deserializer.ts:235-237 | A null is read as null, at the top and in a nested complex member, and a missing value throws; a value with such a member cannot be sent. |
| ComplexTypes.ComplexRoundTrip | packages/odata-common/src/entity-serializer.ts:201-220 | A complex value, through nested types and collections, comes back from serialising and deserialising if and only if it is an object of declared members whose leaves come back, with no null or undefined nested value. |
| ComplexTypes.CollectionRoundTrip | packages/odata-common/src/entity-serializer.ts:222-233 | The same for collections; null collections throw. |
| ComplexTypes.PropertyRoundTrip | packages/odata-common/src/entity-serializer.ts:186-199 | The same for a property of a complex type. |
| ComplexTypes.NullMemberIsLost | packages/odata-common/src/de-serializers/default-de-serializers.ts:124-155 | With the default null handling, a complex value with a null member does not come back, unless the raw deserialiser reads the text "null" as null. |
| ComplexJson.JsonComplexRoundTrip | packages/odata-common/src/entity-deserializer.ts:231-252 | The other way: exactly which JSON of a complex type is deserialised and serialised to itself. |
| ComplexJson.JsonCollectionRoundTrip | packages/odata-common/src/entity-deserializer.ts:254-265 | The same for collections. |
| ComplexJson.JsonPropertyRoundTrip | packages/odata-common/src/entity-deserializer.ts:216-229 | The same for a property. |
| EntityRoundTrip.TreeRoundTrip | packages/odata-common/src/entity-serializer.ts:73-151 | A finite entity tree comes back from serialising and deserialising, with its properties, links, lists and custom fields, if and only if every property has a field and comes back by its kind, and no custom field is a protocol entry or a field name. |
| EntityRoundTrip.FieldRoundTrip | packages/odata-common/src/entity-serializer.ts:84-116 | The same for one property, for every kind of field, null and undefined included. |
| EntityRoundTrip.SingleLinkRoundTrip | packages/odata-common/src/entity-deserializer.ts:151-164 | A linked entity comes back exactly if it does by itself and its payload does not look deferred. |
| EntityRoundTrip.MultiLinkRoundTrip | packages/odata-common/src/entity-deserializer.ts:166-181 | A list of linked entities comes back, in order, exactly if each of them does. |
| EntityRoundTrip.UnknownKeyIsSkipped | packages/odata-common/src/entity-serializer.ts:118-142 | A property that no field is found for is not sent and changes nothing else; a null or undefined one makes sending throw. |
| EntityRoundTrip.NullPropertyComesBack | packages/odata-common/src/de-serializers/default-de-serializers.ts:143-155 | With the default converters a null property comes back, and an undefined one comes back as null. |
| EntityRoundTrip.DeserializedFromParts | packages/odata-common/src/entity-deserializer.ts:85-98 | Reading succeeds with a given entity exactly if its properties are the selected fields, each read from its own entry, and its custom fields are the rest. |
| EntityRoundTrip.MembersConserved | packages/odata-common/src/entity-deserializer.ts:291-308 | Every entry of the payload becomes exactly one property, or one unchanged custom field, or is one of the two dropped protocol entries; nothing else appears. |
| EntityRoundTrip.MembersCounted | packages/odata-common/src/entity-deserializer.ts:86-97 | The numbers of entries, properties, custom fields and dropped entries agree. |
| EntityJson.JsonTreeRoundTrip | packages/odata-common/src/entity-deserializer.ts:77-98 | The other way: a payload is sent as it was read if and only if it is an object without protocol entries whose fields, links and lists return. |
| EntityJson.JsonFieldRoundTrip | packages/odata-common/src/entity-deserializer.ts:100-133 | The same for one field, for every kind of field and every value, null included. |
| EntityPayloads.ListIsRead | packages/odata-common/src/entity-deserializer.ts:166-181 | A list is read entity by entity, in order; reading it throws exactly if one of them does. |
| EntityPayloads.WrappedListIsRead | packages/odata-v2/src/request-builder/response-data-accessor.ts:50-55 | In version 2 an object with an array of results is read as that array, whatever else it holds. |
| EntityPayloads.OtherIsEmptyList | packages/odata-v2/src/request-builder/response-data-accessor.ts:50-55 | Anything else is read as an empty list, in version 4 also the object with results. |
| EntityPayloads.ServedIsRead | packages/odata-v2/src/request-builder/response-data-accessor.ts:50-55 | For every payload: with each of its lists, at any depth, wrapped as version 2 does it, the same entity is read. |
| EntityPayloads.ServedTreeRoundTrip | packages/odata-v2/src/request-builder/response-data-accessor.ts:50-55 | So an entity comes back through a service that wraps every list exactly if it comes back from its own JSON. |
| EntityPayloads.DeferredIsNull | packages/odata-common/src/entity-deserializer.ts:151-164 | A single link is read as null exactly if it is null or deferred. |
| EntityPayloads.ExpandedIsRead | packages/odata-common/src/entity-deserializer.ts:151-164 | Any other is read as the entity it holds, or throws exactly if that does. |
| EntityPayloads.FalsyComplexIsKept | packages/odata-common/src/entity-deserializer.ts:122-127 | Of a complex field exactly the falsy values are kept as they are; all others are converted. |
| EntityDiff.FreshEntityHasNoUpdatedProperty | packages/odata-common/src/entity-base.ts:225-233 | Against a remote state made from its own snapshot, an entity has no updated property. |
| EntityDiff.FreshEntityHasNoUpdatedCustomFieldExactly | packages/odata-common/src/entity-base.ts:189-203 | And no updated custom field if and only if none has a camel case that is a truthy member, and none is hidden by a property of another value. |
| EntityDiff.FreshDiffIsEmptyExactly | packages/odata-common/src/entity-serializer.ts:73-151 | So a request with changes only, right after reading, sends the empty object under exactly that condition. |
| EntityDiff.NewEntityIsSentWhole | packages/odata-common/src/entity-base.ts:225-233 | Without a remote state the changes are the whole entity exactly if no defined custom field has the name of a property, and then so is their serialised form. |
| EntityDiff.RemoteIsSnapshot | packages/odata-common/src/entity-base.ts:171-183 | If every custom field keeps its name and value, the remote state is the snapshot. |
| EntityDiff.OverlaidPayload | packages/odata-common/src/entity-deserializer.ts:77-98 | Reading one payload laid over another gives one entity laid over the other. |
| EntityDiff.PatchedPayload | packages/odata-common/src/entity-serializer.ts:73-82 | Laying the serialised changes, against any remote state, over the payload an entity was read from gives a payload that is read as the patched entity. |
| EntityDiff.PropertyGetsThroughExactly | packages/odata-common/src/entity-base.ts:211-233 | A property of the client is in the patched entity, up to `equal`, if and only if it is not hidden and no equal custom field stands in for it on the server, or is hidden and the server has it. |
| EntityDiff.CustomFieldGetsThroughExactly | packages/odata-common/src/entity-base.ts:189-203 | A custom field of the client is in the patched entity if and only if the server has no property of that name and value instead. |
| EntityDiff.PatchedMatchesClient | packages/odata-common/src/entity-base.ts:189-233 | For all entities: the patched one has the client's properties and custom fields if and only if each gets through; in particular if no custom field bears the name of a property. |
| EntityDiff.PatchIsMinimal | packages/odata-common/src/entity-base.ts:189-233 | The patch keeps whatever the client does not have, and every property in it differed. |
| EntityGraph.Walk | packages/odata-common/src/entity-base.ts:283-300 | The walk, which terminates on every finite graph, cycles included, because no entity is on the call path twice; it only ever adds to the visited entities. |
| EntityShown.WalkIsTheRecord | packages/odata-common/src/entity-base.ts:243-300 | For every graph and every list of visited entities: the walk is the one record that, entity by entity, has all custom fields and, in order, exactly the properties that lead to no entity visited when it was entered, each link shown in full, whatever its siblings have visited; and it visits what the record holds, in order. |
| EntityShown.KeptLinkIsShown | packages/odata-common/src/entity-base.ts:252-265 | A link to an entity that was not visited shows an object with all its custom fields and data, also if another property of the same entity leads there too. |
| EntityGraph.WalkIsUnnested | packages/odata-common/src/entity-base.ts:283-300 | For every graph and every list of visited entities, no entity is nested inside itself in the result. |
| EntityGraph.WalkOfTree | packages/odata-common/src/entity-base.ts:283-300 | On a part of the graph that is a tree of unvisited entities, the walk is the full unfolding and visits each entity once, in order. |
| EntityGraph.WalkCloses | packages/odata-common/src/entity-base.ts:267-300 | Where properties that share an entity lead to the same entities, everything a newly visited entity leads to, through links and lists, is visited in the end or is in a list that is being walked. |
| EntityGraph.ReachableIsVisited | packages/odata-common/src/entity-base.ts:243-300 | If, besides, what leads to the start leads to it alone, every entity reachable from the start through links and lists is visited. |
| EntityGraph.SingleLinksAreShared | packages/odata-common/src/entity-base.ts:252-265 | This holds in particular if no list has more than one entity. |
| EntityGraph.ReachableMayBeLost | packages/odata-common/src/entity-base.ts:243-250 | Otherwise not: a graph in which a reachable entity is lost because its list also holds a visited one. |
| EntityGraph.OrderDecides | packages/odata-common/src/entity-base.ts:243-292 | No condition on what leads to what is exact: for any two graphs of a certain shape with the same links, and the properties of the root in another order, the walk of one visits an entity that the walk of the other loses. |
| EntityGraph.DiamondsExist | packages/odata-common/src/entity-base.ts:243-292 | There are such graphs. |
| Entities.VisitedList.Push | packages/odata-common/src/entity-base.ts:284-284 | The shared list grows at its end. |
| Entities.Entity.SetCustomField | packages/odata-common/src/entity-base.ts:120-130 | Throws exactly for a name of a field, and then changes nothing; otherwise sets this custom field only. |
| Entities.Entity.SetCustomFields | packages/odata-common/src/entity-base.ts:146-151 | Throws exactly if some name is that of a field; the fields before it are set. |
| Entities.Entity.SetVersionIdentifier | packages/odata-common/src/entity-base.ts:158-163 | Sets a non-empty text and ignores anything else. |
| Entities.Entity.TruthyNamesExactly | packages/odata-common/src/entity-base.ts:173-181 | Which names count as members of the entity: an own property by its value, a link always, and any other name if the class has such a member. |
| Entities.Entity.IsVisitedEntity | packages/odata-common/src/entity-base.ts:243-250 | A link is visited if its entity is, a list if one of its entities is. |
| Entities.Entity.KeysToKeep | packages/odata-common/src/entity-base.ts:286-292 | All keys are filtered against the entities visited before any of the children is. |
| Entities.Entity.AsObject | packages/odata-common/src/entity-base.ts:283-300 | For every graph, cycles and shared entities included: the object is that of a record that shows the entity, said without the walk, and the shared list grows by what it holds, in order; the recursion over the heap refines the walk and changes no entity. |
| Entities.Entity.AddKeys | packages/odata-common/src/entity-base.ts:293-299 | Adds the state of the kept keys in order, over the custom fields. |
| Entities.ListedKeysExactly | packages/odata-common/src/entity-base.ts:293-299 | The keys of the object: those of the custom fields first, then the new ones in the order of the properties. |
| Entities.Entity.GetCurrentStateForKey | packages/odata-common/src/entity-base.ts:252-265 | The value of a property, whether or not a sibling led to the same entity: data as it is, a link as the object of a record that shows its entity, a list as the objects of its entities in order. |
| Entities.Entity.LinkedObjects | packages/odata-common/src/entity-base.ts:260-262 | The states of a list of entities, walked one after the other. |
| Entities.Entity.RenameEntries | packages/odata-common/src/entity-base.ts:173-181 | The remote state of some entries, later ones over earlier ones. |
| Entities.Entity.SetOrInitializeRemoteState | packages/odata-common/src/entity-base.ts:171-183 | The remote state becomes the given state, or else the current one, renamed; nothing else changes. |
| Entities.Entity.GetUpdatedPropertyNames | packages/odata-common/src/entity-base.ts:225-233 | Exactly the own properties of the snapshot that no defined custom field hides, in order; if there is a remote state, only those that differ from it. |
| Entities.Entity.GetUpdatedProperties | packages/odata-common/src/entity-base.ts:211-217 | Exactly those, with the values of the snapshot; without a remote state all of them. |
| Entities.Entity.GetUpdatedCustomFields | packages/odata-common/src/entity-base.ts:189-203 | Exactly the custom fields that differ from the remote state; all of them if there is none. |
| Entities.PatchIsCorrectAndMinimal | packages/odata-common/src/entity-base.ts:211-233 | Whatever was written: the remote state with the patch over it agrees with the current state on every property that no custom field hides, and every property in the patch differed. |
| EntityReading.AssignFields | packages/odata-common/src/entity-deserializer.ts:86-94 | Assigns every selected field, in any order, and fails exactly if one of them cannot be read. |
| EntityReading.ExtractCustomFields | packages/odata-common/src/entity-deserializer.ts:291-308 | Collects the entries that no field claims, without the protocol entries. |
| EntityReading.SetCustomFieldsFrom | packages/odata-common/src/entity-deserializer.ts:95-95 | The conflict error of setting a custom field cannot occur here. |
| EntityReading.GetSingleLinkFromJson | packages/odata-common/src/entity-deserializer.ts:151-164 | A fresh entity graph for an expanded link, null for one that is null or deferred. |
| EntityReading.GetMultiLinkFromJson | packages/odata-common/src/entity-deserializer.ts:166-181 | Fresh entity graphs, apart from one another, for the entries of the list as it is read as a value, in the form of either protocol version. |
| EntityReading.GetFieldValue | packages/odata-common/src/entity-deserializer.ts:100-133 | The value of a field by its kind. |
| EntityReading.DeserializeEntity | packages/odata-common/src/entity-deserializer.ts:77-98 | Allocates a tree of fresh entities that stands for the entity read as a value, fails exactly if that fails, and leaves the entity with its own snapshot as remote state and the version of the payload, or else of the header. |
| EntityReading.VersionOfPayload | packages/odata-v2/src/extract-odata-etag.ts:10-10 | The version is that of the metadata in version 2 and of the annotation in version 4, and only without it that of the header. |
| EntityReading.CurrentStateOfTree | packages/odata-common/src/entity-base.ts:283-300 | The snapshot of an entity read from JSON is the snapshot of the tree. |
| EntityReading.FreshlyReadHasNoChangesExactly | packages/odata-common/src/entity-serializer.ts:73-82 | For every payload without undefined: an entity just read from it has no updated property, and serialising its changes gives the empty object if and only if each custom field keeps its name and value in the remote state. |
| EntityReading.PatchAfterReading | packages/odata-common/src/entity-serializer.ts:73-82 | Whatever the client makes of an entity after reading it: its payload, with the serialised changes against the remote state that reading has set laid over it, is read as the patched entity; where custom fields kept their names it matches the client exactly if everything gets through. |
| EntityReading.UpdatedNamesAgree | packages/odata-common/src/entity-base.ts:225-233 | With a remote state or without, the updated properties of the entity on the heap are those of the tree. |
| UniqueNames.RelevantSuffices | packages/util/src/unique-name-generator.ts:170-180 | Asking only the used names that start with the index-stripped name gives the same answer as asking all of them. |
| UniqueNames.SameNameExactly | packages/util/src/unique-name-generator.ts:170-180 | Ignoring the casing, names are the same exactly if they agree letter by letter but for the case of ASCII letters. |
| UniqueNames.UniqueNameGenerator.GetUsedNamesStartingWith | packages/util/src/unique-name-generator.ts:170-180 | Exactly the used names with that start, as compared. |
| UniqueNames.UniqueNameGenerator.GetUniqueIndex | packages/util/src/unique-name-generator.ts:182-207 | The counting loop over the filtered names finds the least index free of all used names, for the base of the name. |
| UniqueNames.UniqueNameGenerator.GenerateUniqueNamesWithSuffixes | packages/util/src/unique-name-generator.ts:73-101 | The filtered search gives what the full scan over all used names gives. |
| UniqueNames.UniqueNameGenerator.GenerateAndSaveUniqueNamesWithSuffixes | packages/util/src/unique-name-generator.ts:116-129 | Saves exactly the names it gives, and none if it throws. |
| UniqueNames.UniqueNameGenerator.GenerateAndSaveUniqueName | packages/util/src/unique-name-generator.ts:55-59 | The same for a single name. |
| UniqueNames.UniqueNameGenerator.AddToUsedNames | packages/util/src/unique-name-generator.ts:32-34 | Names are added at the end. |
| UniqueNameRuns.StrippedIsBase | packages/util/src/unique-name-generator.ts:209-211 | What is stripped of a name: the separator and the digits it ends with, the longest such end, and nothing if there is none. |
| UniqueNameRuns.BaseOfIndexed | packages/util/src/unique-name-generator.ts:209-211 | A name without an index is its own base, and the base of each of its indexed names. |
| UniqueNameRuns.IndexIsReplaced | packages/util/src/unique-name-generator.ts:158-168 | A clashing request for a name, indexed or not, is answered with its base, the separator and the least index from 1 on whose names are all unused, and the suffixes; it throws exactly if none up to 999 is. |
| UniqueNameRuns.LeastFreeIsLeast | packages/util/src/unique-name-generator.ts:188-206 | The index is free, every smaller one is taken, and there is none exactly if all 999 are taken. |
| UniqueNameRuns.GeneratedIsUnused | packages/util/src/unique-name-generator.ts:73-101 | Every name given, suffixed ones included, is absent from all used names under the case rule asked for. |
| UniqueNameRuns.EnoughIndices | packages/util/src/unique-name-generator.ts:182-207 | With k suffixes and n used names it never throws while n * (k + 1) < 999. |
| UniqueNameRuns.RunAvoidsUsed | packages/util/src/unique-name-generator.ts:116-129 | In every run of requests, no name given was used at the start. |
| UniqueNameRuns.RunNamesDiffer | packages/generator/src/service-name-formatter.ts:262-306 | Names from two requests of a run differ, under the case rule of the later one: class and interface names do not clash with earlier names. |
| UniqueNameRuns.RunIsIdentityExactly | packages/util/src/unique-name-generator.ts:55-59 | A run of single names gives them all back unchanged if and only if they are pairwise distinct and unused. |
| UniqueNameRuns.SingleIsIdentityExactly | packages/util/src/unique-name-generator.ts:43-45 | A single name is given back unchanged exactly if it is unused. |
| NameFormatting.ServiceNameFormatter.GetOrInitGenerator | packages/generator/src/service-name-formatter.ts:308-316 | A container has its own generator, which starts with the reserved words. |
| NameFormatting.ServiceNameFormatter.OriginalToInstancePropertyName | packages/generator/src/service-name-formatter.ts:133-151 | The name is new in its container and saved there, also when the change of name is an error; no other container is affected. |
| NameFormatting.ServiceNameFormatter.OriginalToEntityClassName | packages/generator/src/service-name-formatter.ts:262-284 | Class name and interface name are saved together, ignoring the casing. |
| NameFormatting.ServiceNameFormatter.OriginalToServiceWideName | packages/generator/src/service-name-formatter.ts:286-306 | The name is new in the service, ignoring the casing. |
| NameFormatting.GetDirectories | packages/generator-common/src/options-per-service.ts:70-108 | Directories are distinct; validated names of distinct paths are unchanged, duplicate names are an error, and below 1000 paths there is no other. |
| NameFormatting.NextDirectory | packages/generator-common/src/options-per-service.ts:94-96 | The next directory is new, and as wanted if that one is not used. |
| Encodings.EncodedHasNoDelimiters | packages/openapi/src/openapi-request-builder.ts:183-183 | Encoded values hold no braces, slashes or dollar signs, only unescaped characters and percent signs. |
| Encodings.EncodedDecodes | packages/openapi/src/openapi-request-builder.ts:183-183 | A percent-decoder gives back the bytes of the value. |
| Encodings.EncodedIsOnly | packages/openapi/src/openapi-request-builder.ts:183-183 | The encoded value is the only text of unescaped characters and of escapes, in upper-case hexadecimal, of other bytes that decodes to these bytes. |
| Encodings.EncodedIsSameExactly | packages/openapi/src/openapi-request-builder.ts:183-183 | A value is left as it is exactly if it consists of unescaped characters. |
| Encodings.Utf8CharIsShortest | packages/openapi/src/openapi-request-builder.ts:183-183 | Each character takes the fewest bytes that UTF-8 (section 3 of RFC 3629) has for it, and they decode to it. |
| PathTemplates.ClearPathIsSubstitution | packages/openapi/src/openapi-request-builder.ts:174-185 | Replacing the placeholders one after the other at their first occurrence is replacing them all at once, repeated ones included, if no placeholder occurs in the text before it when it is filled. |
| PathTemplates.PlaceholdersExactly | packages/openapi/src/openapi-request-builder.ts:177-182 | What is replaced: exactly the texts in braces that are not empty and hold no slash, question mark, hash sign or brace, each where it stands. |
| PathValues.PathTellsValue | packages/openapi/src/openapi-request-builder.ts:174-185 | Where filling is substitution, paths for two values of a placeholder are the same only if the values are: no value gets lost. |
| PathValues.PathIsReceived | packages/openapi/src/openapi-request-builder.ts:174-185 | Where it is, and a delimiter or the end follows each placeholder, a receiver who knows the pattern reads back the bytes of every value, a missing one as the text of undefined. |
| PathTemplates.PathIsSubstitutionExactly | packages/openapi/src/openapi-request-builder.ts:174-185 | When no value is empty, only then: for every pattern, braces nested or not. |
| PathTemplates.UnnestedIsClear | packages/openapi/src/openapi-request-builder.ts:174-185 | A pattern without nested braces meets this condition, whatever the values. |
| PathTemplates.NestedIsNotSubstitution | packages/openapi/src/openapi-request-builder.ts:177-184 | With nested braces it is not: for all names and values, a pattern on which the wrong text is filled. |
| PriorityMerge.MergedHolds | packages/util/src/object.ts:170-203 | For all objects: the merged one holds all that the right one holds, and what the left one holds under a key that the right one neither has nor supersedes with a truthy value. |
| PriorityMerge.AllMergedHold | packages/http-client/src/http-request-config.ts:50-60 | For all origins: a key is in the result exactly if some origin holds it and no later one supersedes it. |
| PriorityMerge.MergedValue | packages/http-client/src/http-request-config.ts:50-60 | Its value is that of the last origin with exactly this key. |
| PriorityMerge.OneEntryPerNameExactly | packages/http-client/src/http-request-config.ts:50-60 | The result has one entry for each name if and only if no disagreement on its casing is left unsettled by a later truthy value. |
| PriorityMerge.HighestPriorityWins | packages/http-client/src/http-request-config.ts:50-71 | Given truthy values under names unique ignoring the casing, exactly one entry for each name, with casing and value of the last origin that has it. |
| PriorityMerge.OriginsByPriority | packages/http-client/src/http-request-config.ts:50-71 | The same for the four origins in their order. |
| PriorityMerge.CustomWins | packages/http-client/src/http-request-config.ts:50-71 | By name: custom headers win over those of the destination property, these over those of the destination, and these over those of the request configuration. |
| PriorityMerge.EntriesAreGiven | packages/http-client/src/http-request-config.ts:50-71 | Whatever the values: every entry of the result is one of these four origins, and without options there is no result. |
| PriorityMerge.MergeIsAssociative | packages/util/src/object.ts:192-203 | Merging is associative, the values and the order of the keys, if the values that take precedence are truthy. |
| PriorityMerge.FalsyKeepsBoth | packages/util/src/object.ts:178-182 | A falsy value in another casing leaves two entries for one name. |
| Resilience.LayersCompose | packages/resilience/src/middleware.ts:97-113 | Two lists of middlewares in a row are the first around the second. |
| Resilience.ExecuteComposes | packages/resilience/src/middleware.ts:62-86 | So is executing them. |
| Resilience.BuildStack | packages/resilience/src/resilience.ts:42-66 | The list built by pushing is retry, circuit breaker, timeout, as the options and their defaults ask for; refused numbers throw. |
| Resilience.StackExactly | packages/resilience/src/resilience.ts:29-66 | Setting by setting: no retries, a breaker and ten seconds unless the options say otherwise, three retries if they just ask for some; a setting given as undefined switches its middleware off, and negative retries and non-positive timeouts throw. |
| Resilience.ClientErrorExactly | packages/resilience/src/retry.ts:41-57 | For statuses of three digits, the errors that end a run and that a breaker does not count are those from 400 to 499. |
| Resilience.EveryRunIsExplained | packages/resilience/src/retry.ts:33-64 | For all options, replies, retry libraries and breaker policies, a run of the stack is a sequence of attempts: each is refused exactly if there is a breaker that does not admit it then, and is one call otherwise; all attempts are used unless one settles it. It takes exactly the time of its attempts and the waiting in between, and a run that fails reports what the retry library makes of the errors of all attempts, or without retries the error. |
| Resilience.CallsOfRun | packages/resilience/src/retry.ts:33-64 | At most one call more than the retries, all with the same argument, none after a success or a client error; the result is that of the last call. |
| Resilience.BreakerOfRun | packages/resilience/src/circuit-breaker.ts:32-36 | The breaker of the request records one event for each call, in order, a failure exactly for outcomes that are neither success nor client error; no other breaker records anything. |
| Resilience.DurationOfRun | packages/resilience/src/timeout.ts:67-82 | The timeout bounds each attempt: a run takes at most the timeout for each attempt, and the waiting between them. |
| Resilience.TimedCall | packages/resilience/src/timeout.ts:36-41 | A call is seen as its reply, or as a timeout if the timer is first. |
| Resilience.KeysKeepApartExactly | packages/resilience/src/circuit-breaker.ts:38-43 | A request shares its breaker with no other URI or tenant, a missing tenant being the one called tenant_id, if and only if its key has a single place where it can be taken apart. |
| Resilience.KeyExactly | packages/resilience/src/circuit-breaker.ts:38-43 | The key is the URI and the tenant, and tenant_id for requests without one. |
| Resilience.BreakerRegistry.GetCircuitBreaker | packages/resilience/src/circuit-breaker.ts:84-95 | A breaker is created when first asked for, kept from then on, and serves one key. |
| Resilience.TimeoutRace.Settle | packages/resilience/src/timeout.ts:77-79 | Settling clears the timer, and decides the race unless it was decided. |
| Resilience.TimeoutRace.Fire | packages/resilience/src/timeout.ts:56-58 | A live timer that goes off decides the race unless it was decided. |
| Resilience.TimeoutRace.Watch | packages/resilience/src/timeout.ts:67-82 | In whatever order things happen, the first decides the race, and then no timer is live. |
| Resilience.WrapInTimeout | packages/resilience/src/timeout.ts:67-82 | The race between a request and its timer, in the order their times give, answers what the timeout middleware answers in a run, and leaves no timer. |
| Arrays.Flatten | packages/util/src/array.ts:84-98 | The loop with an explicit stack, reversed at the end, gives the items of every nested array from left to right. |
| Arrays.SplitInChunks | packages/util/src/array.ts:43-51 | The chunks put together are the array; all but the last have the given size, and none is empty. |
| Arrays.FilterKeepsTheRest | packages/util/src/array.ts:146-154 | Whatever the comparator: kept are, in order, exactly the items whose first match before them, if there is one, is falsy. |
| Arrays.KeepsFirstsExactly | packages/util/src/array.ts:146-154 | Compared by identity, what is left is the leftmost occurrence of each item if and only if no falsy item occurs twice. |
| Arrays.KeepsLastsExactly | packages/util/src/array.ts:162-167 | From the right, the rightmost occurrences, under the same condition. |
| Arrays.FilterDuplicatesRight | packages/util/src/array.ts:162-167 | The filter from the right leaves the argument reversed. |
| AuthFrame.Base64Decodes | packages/mail-client/src/socket-proxy.ts:21-23 | Base64 (section 4 of RFC 4648) decodes to the bytes it was made from. |
| AuthFrame.Base64Alphabet | packages/mail-client/src/socket-proxy.ts:21-23 | The characters are those of the alphabet of RFC 4648, in its order. |
| AuthFrame.WriteUInt32BE | packages/mail-client/src/socket-proxy.ts:17-18 | Four bytes, the most significant first, for a number that fits them. |
| AuthFrame.WriteUInt8 | packages/mail-client/src/socket-proxy.ts:26-27 | One byte for a number that fits it. |
| AuthFrame.CustomAuthRequest | packages/mail-client/src/socket-proxy.ts:10-41 | Builds the frame with its length fields written into buffers. |
| AuthFrame.FrameLayout | packages/mail-client/src/socket-proxy.ts:29-40 | The frame byte by byte: the version 1, the length of the token in four bytes, most significant first, the token, and one byte for the number of all the bytes that follow, which is 0 exactly if there is no location id. |
| AuthFrame.FrameIsReceived | packages/mail-client/src/socket-proxy.ts:29-40 | A receiver that reads the lengths gets back the bytes of the token and of the location id. |
| AuthFrame.FramesAreUnique | packages/mail-client/src/socket-proxy.ts:10-41 | Equal frames come from the same token and location id, an empty id counting as none. |
| AuthFrame.FrameIsBuiltExactly | packages/mail-client/src/socket-proxy.ts:24-27 | The frame is built if and only if the token's length fits four bytes and the location id has at most 189 bytes. |
| Temporal.PlainRoundTrip | packages/temporal-de-serializers/src/temporal-de-serializers-v2.ts:67-95 | A date is read back from its text to the millisecond if it is not before 1970, and otherwise reading throws; it comes back unchanged exactly if it has no finer digits. |
| Temporal.ZonedRoundTrip | packages/temporal-de-serializers/src/temporal-de-serializers-v2.ts:45-106 | A date with a zone is read back to the millisecond, with its offset, if it is not before 1970 and the offset has no seconds, and otherwise reading throws; it comes back unchanged exactly if, besides, it has no finer digits and its zone is a fixed offset. |
| Temporal.ComponentsExactly | packages/temporal-de-serializers/src/temporal-de-serializers-v2.ts:60-81 | Exactly the texts of digits, and perhaps a sign and four digits, between `/Date(` and `)/` are dates, and these are their parts. |
| Temporal.DatesAreRead | packages/temporal-de-serializers/src/temporal-de-serializers-v2.ts:21-49 | Every such text: a plain date ignores an offset, a date without one is in UTC, and one with an offset has it up to 23 hours and 59 minutes and throws beyond. |
| Temporal.OtherTextsThrow | packages/temporal-de-serializers/src/temporal-de-serializers-v2.ts:60-81 | Every other text throws. |
| Temporal.PrintedPlain | packages/temporal-de-serializers/src/temporal-de-serializers-v2.ts:92-95 | The text that is printed, with milliseconds rounded down. |
| Temporal.PrintedOffset | packages/temporal-de-serializers/src/temporal-de-serializers-v2.ts:100-106 | The text of an offset: its sign, two digits for the hours and two for the minutes. |
| Temporal.TimeRoundTrip | packages/temporal-de-serializers/src/temporal-de-serializers-v2.ts:111-140 | A time is read back to the second, so unchanged exactly if it has no fraction of a second. |
| Temporal.TimeIsRead | packages/odata-common/src/time.ts:4-5 | The parts after the first `PT` of a text: every part may be missing and then counts as zero, each has one or two digits, and parts out of range throw; what stands before is skipped, and what follows is ignored if it does not start with a digit. |
| Temporal.TextsWithoutTimeThrow | packages/temporal-de-serializers/src/temporal-de-serializers-v2.ts:111-126 | A text without `PT` throws. |
| Temporal.SecondsRoundTrip | packages/odata-common/src/time.ts:40-62 | Seconds to a time and back are the whole seconds, 0 for negative ones. |
| Temporal.SecondsOfTime | packages/odata-common/src/time.ts:40-46 | The whole seconds of a time, whatever fractions its parts have. |
| Temporal.TimeRoundTripThroughSeconds | packages/odata-common/src/time.ts:40-62 | A clock time comes back from its seconds exactly if these are whole. |

## Left out

- Order of the keys of result objects, except in the walk, in merged headers, and in remote states, where later entries
  win; integer-like keys, which JavaScript lists first, have no special place.
- Identity of custom field values: `!==` is modelled as inequality of values, so an equal copy counts as unchanged.
- `__proto__` and inherited members in lookups of plain objects, and indexing into primitive texts.
- Changes inside a complex value or an array after it was assigned, which the diff cannot see, and the sharing of the
  custom field object by a snapshot without properties.
- Dates, moments, big numbers and NaN as property values; numbers are reals, so rounding is not modelled.
- Complex fields of outdated clients without type metadata.
- Serialisation runs on trees: an entity graph with cycles makes the original recurse without end.
- EntityGraph.ReachableIsVisited: its condition speaks of the links alone and is not necessary; what is visited beyond
  it depends on the order of the properties, as OrderDecides shows.
- PathTemplates.PathIsSubstitutionExactly: an empty value can be filled in the wrong place and leave no trace, so with
  empty values only one direction is stated.
- EntityReading.PatchAfterReading: the client's entity is one that comes back when it is sent whole; what a patch of
  other values is read as is not stated.
- Which of several keys that find the same field is sent last: the order of keys decides, and a tree has none, so any of
  them can be; such a tree never comes back.
- Offsets with a fraction of a second; milliseconds of a moment are rounded downwards, as the Temporal library does.
- Lower-casing beyond ASCII, and separators with a meaning in regular expressions; the program uses `_` and `-` only.
- Names of operations, parameters and static properties, whose generators are used in the same way, and the prefix for
  names that conflict with JavaScript, which is not saved.
- Directory names taken from options per service after the generator ran.
- Lone surrogates: texts are sequences of characters, and encoding one that is broken throws or replaces it.
- How the retry library chooses the error to report from those of all attempts, and how long it waits: parameters.
- When a breaker opens and closes: any policy on what it recorded, and on the moment it is asked, is allowed.
- Middlewares in an order other than the default where a request goes on after its caller gave up on it: only the
  default stack is proved about, in which the timeout is next to the request.
- Arrays.SplitInChunks: a chunk size of zero is excluded for non-empty arrays, because the original does not end on it.
- The answer of the proxy to the frame, a comparison of two bytes.
- Printing of plain dates from years, months and days: the calendar is in the Temporal library, which is a parameter by
  its epoch milliseconds.
- Logging, files, compilation, network clients, destinations, tokens and agents.

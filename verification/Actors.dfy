/** The actor names of internal/pipeline/actors.go: harvested from managedFields, and
    carried through an annotation. */
module Actors {
  import opened Strings

  /** One managedFields entry: not a map, or a map whose manager is a string or is not. */
  datatype FieldEntry = Malformed | Managed(manager: string) | Unnamed

  /** metadata.managedFields: absent or unreachable, not a list, or a list. */
  datatype ManagedFields = Absent | NotAList | Listed(entries: seq<FieldEntry>)

  function NameOf(entry: FieldEntry): string
    requires !entry.Malformed?
  {
    if entry.Managed? && entry.manager != "" then entry.manager else "unknown"
  }

  ghost function NamesIn(entries: seq<FieldEntry>): set<string> {
    set entry | entry in entries && !entry.Malformed? :: NameOf(entry)
  }

  ghost function Harvested(fields: ManagedFields): set<string> {
    if fields.Listed? then NamesIn(fields.entries) else {}
  }

  /** The names, entry by entry: each manager given, and "unknown" for an entry without one. */
  lemma HarvestedAre(fields: ManagedFields, name: string)
    ensures name in Harvested(fields) <==>
            && fields.Listed?
            && exists entry | entry in fields.entries ::
                 if entry == Unnamed || entry == Managed("") then name == "unknown" else entry == Managed(name)
  {
    if fields.Listed? && name in Harvested(fields) {
      var entry :| entry in fields.entries && !entry.Malformed? && NameOf(entry) == name;
    }
    if fields.Listed? && exists entry | entry in fields.entries ::
         if entry == Unnamed || entry == Managed("") then name == "unknown" else entry == Managed(name)
    {
      var entry :| && entry in fields.entries
                   && if entry == Unnamed || entry == Managed("") then name == "unknown" else entry == Managed(name);
      assert !entry.Malformed? && NameOf(entry) == name;
    }
  }

  /** How many entries are not maps at all. */
  function Malformations(entries: seq<FieldEntry>): nat {
    if entries == [] then 0
    else Malformations(entries[..|entries| - 1]) + if entries[|entries| - 1] == Malformed then 1 else 0
  }

  method SortedKeys(keys: set<string>) returns (sorted: seq<string>)
    ensures StrictlySorted(sorted) && Elements(sorted) == keys
  {
    var listed: seq<string> := [];
    var todo := keys;
    while todo != {}
      invariant todo <= keys && Elements(listed) == keys - todo
      decreases todo
    {
      var key :| key in todo;
      assert Elements(listed + [key]) == Elements(listed) + {key};
      listed := listed + [key];
      todo := todo - {key};
    }
    SortSorts(listed);
    SortKeepsElements(listed);
    CompactOfSorted(Sort(listed));
    sorted := Compact(Sort(listed));
  }

  /** The distinct manager names, sorted; malformed entries are skipped and counted. */
  method ExtractActors(fields: ManagedFields) returns (actors: seq<string>, malformed: nat)
    ensures StrictlySorted(actors) && "" !in actors
    ensures Elements(actors) == Harvested(fields)
    ensures malformed == if fields.Listed? then Malformations(fields.entries) else 0
  {
    if !fields.Listed? || fields.entries == [] {
      return [], 0;
    }
    var seen;
    seen, malformed := Harvest(fields.entries);
    actors := SortedKeys(seen);
    assert "" in actors ==> "" in Elements(actors);
  }

  /** The loop over the entries. */
  method Harvest(entries: seq<FieldEntry>) returns (seen: set<string>, malformed: nat)
    ensures seen == NamesIn(entries) && malformed == Malformations(entries)
  {
    seen, malformed := {}, 0;
    for i := 0 to |entries|
      invariant seen == NamesIn(entries[..i]) && malformed == Malformations(entries[..i])
    {
      OneMoreEntry(entries, i);
      if entries[i].Malformed? {
        malformed := malformed + 1;
      } else {
        seen := seen + {NameOf(entries[i])};
      }
    }
    assert entries[..|entries|] == entries;
  }

  lemma OneMoreEntry(entries: seq<FieldEntry>, i: nat)
    requires i < |entries|
    ensures NamesIn(entries[..i + 1])
            == NamesIn(entries[..i]) + if entries[i].Malformed? then {} else {NameOf(entries[i])}
    ensures Malformations(entries[..i + 1]) == Malformations(entries[..i]) + if entries[i].Malformed? then 1 else 0
  {
    assert entries[..i + 1] == entries[..i] + [entries[i]] && entries[..i + 1][..i] == entries[..i];
  }

  function EncodeActors(actors: seq<string>): string {
    Join(actors, ',')
  }

  function NonEmpty(parts: seq<string>): (kept: seq<string>)
    ensures forall part | part in kept :: part in parts && part != ""
  {
    if parts == [] then []
    else (if parts[0] != "" then [parts[0]] else []) + NonEmpty(parts[1..])
  }

  function Decoded(value: string): seq<string> {
    NonEmpty(Split(value, ','))
  }

  method DecodeActors(value: string) returns (actors: seq<string>)
    ensures actors == Decoded(value)
  {
    var parts := Split(value, ',');
    actors := [];
    var i := 0;
    assert parts[0..] == parts;
    while i < |parts|
      invariant 0 <= i <= |parts|
      invariant actors + NonEmpty(parts[i..]) == NonEmpty(parts)
    {
      assert parts[i..][1..] == parts[i + 1..];
      if parts[i] != "" {
        actors := actors + [parts[i]];
      }
      i := i + 1;
    }
  }

  lemma {:induction false} NonEmptyKeepsAll(parts: seq<string>)
    requires "" !in parts
    ensures NonEmpty(parts) == parts
  {
    if parts != [] {
      NonEmptyKeepsAll(parts[1..]);
    }
  }

  /** The annotation gives a list back exactly when no name is empty or holds a comma. */
  lemma DecodeEncodeIff(actors: seq<string>)
    ensures Decoded(EncodeActors(actors)) == actors
            <==> forall actor | actor in actors :: actor != "" && ',' !in actor
  {
    if forall actor | actor in actors :: actor != "" && ',' !in actor {
      if actors == [] {
        assert Split("", ',') == [""];
      } else {
        SplitJoin(actors, ',');
        NonEmptyKeepsAll(actors);
      }
    }
  }

  /** The round trip the informer transform relies on: what was extracted is what is
      decoded, given the API server's promise that a manager name holds no comma. */
  lemma ExtractedActorsSurvive(fields: ManagedFields, actors: seq<string>)
    requires "" !in actors && Elements(actors) == Harvested(fields)
    requires forall entry | fields.Listed? && entry in fields.entries && entry.Managed? :: ',' !in entry.manager
    ensures Decoded(EncodeActors(actors)) == actors
  {
    forall actor | actor in actors
      ensures actor != "" && ',' !in actor
    {
      assert actor in Elements(actors);
    }
    DecodeEncodeIff(actors);
  }
}

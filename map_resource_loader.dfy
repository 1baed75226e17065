/** `MapResourceLoader` and its subclass `StructurePatternsLoader`: for every
    installed package, read `key<sep>value` lines from the package's resource
    and store them in a shared version-keyed table. Assemblies and their
    manifest resources are a map from assembly name to resource name to the
    resource's lines; a missing key is a missing assembly or resource. */
module ResourceLoading {
  import opened Wrappers
  import opened Text
  import StructurePatternsLoader

  /** The separators a `MapResourceLoader` splits on unless told otherwise. */
  const DefaultSeparator: string := " \t"

  datatype Hl7Package = Hl7Package(PackageName: string, Version: string, EventMappingResourceName: string)

  /** One `structures.Add(key, value)` call. */
  datatype Entry = Entry(key: string, value: string)

  /** The only failure of the line loop: `lineElements[1]` on a line with no
      separator. */
  datatype LoadError = IndexOutOfRange

  /** An assembly's manifest resources: resource name to lines of text. */
  type Assembly = map<string, seq<string>>

  /** Which `GetResourceName` a loader uses: the base class's, or the
      structure-pattern override. */
  datatype LoaderKind = EventMapping | StructurePatterns

  /** `separator.ToArray()`, as the set `Split` tests against. */
  function SeparatorSet(separator: string): set<char> {
    set c | c in separator
  }

  /** `RemoveTrailingDot`: the package name without one trailing '.', if it
      has one; used as the assembly name. */
  function RemoveTrailingDot(packageName: string): (r: string)
    ensures StructurePatternsLoader.EndsWithDot(packageName) ==> r + "." == packageName
    ensures !StructurePatternsLoader.EndsWithDot(packageName) ==> r == packageName
  {
    var trailingDot := |packageName| > 0 && packageName[|packageName| - 1] == '.';
    if trailingDot then packageName[..|packageName| - 1] else packageName
  }

  /** Only one dot goes: "X.." becomes "X.", and "" stays "". */
  lemma {:induction false} RemoveTrailingDotExamples()
    ensures RemoveTrailingDot("X..") == "X."
    ensures RemoveTrailingDot("") == ""
    ensures RemoveTrailingDot("X") == "X"
  {
  }

  /** The structure-pattern resource name is the assembly name, a '.', and the
      suffix, whether or not the package name ends in '.'. */
  lemma {:induction false} ResourceNameFromAssemblyName(packageName: string)
    ensures StructurePatternsLoader.GetResourceName(packageName)
         == RemoveTrailingDot(packageName) + "." + StructurePatternsLoader.ResourceSuffix
  {
  }

  /** A line is data unless it is empty or starts with '#'. */
  predicate IsDataLine(line: string) {
    |line| > 0 && line[0] != '#'
  }

  /** One pass of the read loop: `None` for an empty or comment line, otherwise
      the text before the first separator as key and the text up to the next
      separator as value; a data line without a separator fails. */
  function ParseLine(line: string, seps: set<char>): (r: Result<Option<Entry>, LoadError>)
    ensures r == Success(None) <==> !IsDataLine(line)
    ensures r.Failure? <==> IsDataLine(line) && NoSeparator(line, seps)
    ensures r.Success? && r.value.Some? ==>
      var key, value := r.value.value.key, r.value.value.value;
      && |key| < |line| && line[..|key|] == key && NoSeparator(key, seps) && line[|key|] in seps
      && |key| + 1 + |value| <= |line| && line[|key| + 1..|key| + 1 + |value|] == value
      && NoSeparator(value, seps)
      && (|key| + 1 + |value| == |line| || line[|key| + 1 + |value|] in seps)
  {
    if !IsDataLine(line) then Success(None)
    else
      var lineElements := SplitAny(line, seps);
      SinglePieceIffNoSeparator(line, seps);
      if |lineElements| < 2 then Failure(IndexOutOfRange)
      else
        FirstTwoPieces(line, seps);
        Success(Some(Entry(lineElements[0], lineElements[1])))
  }

  /** The whole read loop over a resource's lines, in order; the first failing
      line ends it. */
  function ParseLines(lines: seq<string>, seps: set<char>): (r: Result<seq<Entry>, LoadError>)
    ensures |lines| == 0 ==> r == Success([])
    ensures r.Success? ==> |r.value| <= |lines|
  {
    if |lines| == 0 then Success([])
    else
      match ParseLines(lines[..|lines| - 1], seps)
      case Failure(e) => Failure(e)
      case Success(entries) =>
        match ParseLine(lines[|lines| - 1], seps)
        case Failure(e) => Failure(e)
        case Success(None) => Success(entries)
        case Success(Some(entry)) => Success(entries + [entry])
  }

  /** The data lines, in order. */
  function DataLines(lines: seq<string>): seq<string>
  {
    if |lines| == 0 then []
    else DataLines(lines[..|lines| - 1]) + (if IsDataLine(lines[|lines| - 1]) then [lines[|lines| - 1]] else [])
  }

  /** Reading succeeds exactly when every line parses; it then yields one entry
      per data line, in line order, and the `j`th entry is what the `j`th data
      line parses to. */
  lemma {:induction false} ParseLinesInOrder(lines: seq<string>, seps: set<char>)
    ensures ParseLines(lines, seps).Success? <==> forall i :: 0 <= i < |lines| ==> ParseLine(lines[i], seps).Success?
    ensures ParseLines(lines, seps).Success? ==>
      var entries, data := ParseLines(lines, seps).value, DataLines(lines);
      && |entries| == |data|
      && forall j :: 0 <= j < |data| ==> ParseLine(data[j], seps) == Success(Some(entries[j]))
  {
    if |lines| > 0 {
      var front := lines[..|lines| - 1];
      ParseLinesInOrder(front, seps);
      assert forall i :: 0 <= i < |front| ==> front[i] == lines[i];
    }
  }

  /** Once a prefix of the lines fails, reading all of them fails too. */
  lemma {:induction false} ParseLinesFailurePersists(lines: seq<string>, n: nat, seps: set<char>)
    requires n <= |lines| && ParseLines(lines[..n], seps).Failure?
    ensures ParseLines(lines, seps).Failure?
    decreases |lines| - n
  {
    if n < |lines| {
      assert lines[..n + 1][..n] == lines[..n];
      ParseLinesFailurePersists(lines, n + 1, seps);
    } else {
      assert lines[..n] == lines;
    }
  }

  /** The collection a resource yields: nothing when the resource is missing. */
  function ResourceCollection(assembly: Assembly, resourceName: string, seps: set<char>): (r: Result<seq<Entry>, LoadError>)
    ensures resourceName !in assembly ==> r == Success([])
  {
    if resourceName in assembly then ParseLines(assembly[resourceName], seps) else Success([])
  }

  /** The table and the outcome after loading some packages. */
  datatype LoadState = LoadState(collections: map<string, seq<Entry>>, outcome: Outcome<LoadError>)

  /** The shared version-keyed table (`Hashtable`), written in place. */
  class VersionTable {
    var collections: map<string, seq<Entry>>

    constructor ()
      ensures collections == map[]
    {
      collections := map[];
    }
  }

  class MapResourceLoader {
    const table: VersionTable
    const separator: string
    const kind: LoaderKind

    /** `new MapResourceLoader(map, separator)`; the default separator is
        `DefaultSeparator`. */
    constructor (table: VersionTable, separator: string)
      requires |separator| > 0
      ensures this.table == table && this.separator == separator && kind == EventMapping
    {
      this.table := table;
      this.separator := separator;
      this.kind := EventMapping;
    }

    /** `new StructurePatternsLoader(map)`: tab-only separator, same table. */
    constructor StructurePatterns(table: VersionTable)
      ensures this.table == table && separator == StructurePatternsLoader.Separator
      ensures kind == LoaderKind.StructurePatterns
    {
      this.table := table;
      this.separator := StructurePatternsLoader.Separator;
      this.kind := LoaderKind.StructurePatterns;
    }

    /** The virtual `GetResourceName`: the package's event-mapping resource
        for the base loader, the name built from the package name for the
        structure-pattern loader. */
    function GetResourceName(package: Hl7Package): (r: string)
      ensures kind == EventMapping ==> r == package.EventMappingResourceName
      ensures kind == LoaderKind.StructurePatterns ==>
        r == RemoveTrailingDot(package.PackageName) + "." + StructurePatternsLoader.ResourceSuffix
    {
      ResourceNameFromAssemblyName(package.PackageName);
      match kind
      case EventMapping => package.EventMappingResourceName
      case StructurePatterns => StructurePatternsLoader.GetResourceName(package.PackageName)
    }

    /** What one package contributes. */
    function PackageCollection(assembly: Assembly, package: Hl7Package): Result<seq<Entry>, LoadError> {
      ResourceCollection(assembly, GetResourceName(package), SeparatorSet(separator))
    }

    /** One step of `Load`: a package whose assembly is missing is skipped;
        otherwise its version is set to its collection, or loading stops. */
    function LoadPackage(collections: map<string, seq<Entry>>, package: Hl7Package, assemblies: map<string, Assembly>): LoadState {
      var assemblyName := RemoveTrailingDot(package.PackageName);
      if assemblyName !in assemblies then LoadState(collections, Pass)
      else
        match PackageCollection(assemblies[assemblyName], package)
        case Success(c) => LoadState(collections[package.Version := c], Pass)
        case Failure(e) => LoadState(collections, Fail(e))
    }

    /** `Load` over the packages in order, stopping at the first failure with
        the writes made so far. */
    function LoadAll(collections: map<string, seq<Entry>>, packages: seq<Hl7Package>, assemblies: map<string, Assembly>): (r: LoadState)
      ensures |packages| == 0 ==> r == LoadState(collections, Pass)
      ensures forall v :: v in collections ==> v in r.collections
    {
      if |packages| == 0 then LoadState(collections, Pass)
      else
        var s := LoadAll(collections, packages[..|packages| - 1], assemblies);
        if s.outcome.Fail? then s else LoadPackage(s.collections, packages[|packages| - 1], assemblies)
    }

    /** Loading touches only the versions of the loaded packages. */
    lemma {:induction false} LoadAllKeepsOtherVersions(collections: map<string, seq<Entry>>, packages: seq<Hl7Package>,
                                                        assemblies: map<string, Assembly>, version: string)
      requires forall i :: 0 <= i < |packages| ==> packages[i].Version != version
      ensures var after := LoadAll(collections, packages, assemblies).collections;
        (version in after <==> version in collections) &&
        (version in collections ==> after[version] == collections[version])
    {
      if |packages| > 0 {
        LoadAllKeepsOtherVersions(collections, packages[..|packages| - 1], assemblies, version);
      }
    }

    /** `LoadResourceFromPackage`: reads the resource's lines; on success the
        package's version is set to exactly the collection read, replacing any
        earlier one (an empty one for a missing resource); when a line fails
        the table is left as it was. */
    method LoadResourceFromPackage(assembly: Assembly, package: Hl7Package) returns (r: Outcome<LoadError>)
      modifies table
      ensures match PackageCollection(assembly, package)
        case Success(c) => r == Pass && table.collections == old(table.collections)[package.Version := c]
        case Failure(e) => r == Fail(e) && table.collections == old(table.collections)
    {
      var structures: seq<Entry> := [];
      var resourceName := GetResourceName(package);
      if resourceName in assembly {
        var lines := assembly[resourceName];
        var splitSeparators := SeparatorSet(separator);
        var i := 0;
        while i < |lines|
          invariant 0 <= i <= |lines|
          invariant ParseLines(lines[..i], splitSeparators) == Success(structures)
        {
          var line := lines[i];
          assert lines[..i + 1][..i] == lines[..i];
          if |line| > 0 && line[0] != '#' {
            var lineElements := SplitAny(line, splitSeparators);
            if |lineElements| < 2 {
              assert ParseLine(line, splitSeparators).Failure?;
              assert ParseLines(lines[..i + 1], splitSeparators).Failure?;
              ParseLinesFailurePersists(lines, i + 1, splitSeparators);
              assert PackageCollection(assembly, package).Failure?;
              assert PackageCollection(assembly, package).error.IndexOutOfRange?;
              return Fail(IndexOutOfRange);
            }
            structures := structures + [Entry(lineElements[0], lineElements[1])];
          }
          i := i + 1;
        }
        assert lines[..|lines|] == lines;
      }
      table.collections := table.collections[package.Version := structures];
      return Pass;
    }

    /** `Load`: every package in turn, skipping those whose assembly (the
        package name without its trailing dot) is missing. */
    method Load(packages: seq<Hl7Package>, assemblies: map<string, Assembly>) returns (r: Outcome<LoadError>)
      modifies table
      ensures LoadState(table.collections, r) == LoadAll(old(table.collections), packages, assemblies)
    {
      for i := 0 to |packages|
        invariant LoadAll(old(table.collections), packages[..i], assemblies) == LoadState(table.collections, Pass)
      {
        assert packages[..i + 1][..i] == packages[..i];
        var package := packages[i];
        var assemblyToLoad := RemoveTrailingDot(package.PackageName);
        if assemblyToLoad in assemblies {
          var outcome := LoadResourceFromPackage(assemblies[assemblyToLoad], package);
          if outcome.Fail? {
            LoadAllStopsAtFailure(old(table.collections), packages, i + 1, assemblies);
            return outcome;
          }
        }
      }
      assert packages[..|packages|] == packages;
      return Pass;
    }

    /** After a failure no later package is loaded. */
    lemma {:induction false} LoadAllStopsAtFailure(collections: map<string, seq<Entry>>, packages: seq<Hl7Package>, n: nat,
                                                   assemblies: map<string, Assembly>)
      requires n <= |packages| && LoadAll(collections, packages[..n], assemblies).outcome.Fail?
      ensures LoadAll(collections, packages, assemblies) == LoadAll(collections, packages[..n], assemblies)
      decreases |packages| - n
    {
      if n < |packages| {
        assert packages[..n + 1][..n] == packages[..n];
        LoadAllStopsAtFailure(collections, packages, n + 1, assemblies);
      } else {
        assert packages[..n] == packages;
      }
    }
  }

  /** The default separators are space and tab; the structure-pattern loader
      splits on tab alone. */
  lemma {:induction false} SeparatorSets()
    ensures SeparatorSet(DefaultSeparator) == {' ', '\t'}
    ensures SeparatorSet(StructurePatternsLoader.Separator) == {'\t'}
  {
    assert DefaultSeparator == [' ', '\t'];
  }

  /** Tab-only splitting keeps spaces inside keys and values. */
  lemma {:induction false} TabOnlySeparatorKeepsSpaces(line: string, seps: set<char>)
    requires line == "A B" + "\t" + "C D" && seps == SeparatorSet(StructurePatternsLoader.Separator)
    ensures ParseLine(line, seps) == Success(Some(Entry("A B", "C D")))
  {
    SeparatorSets();
    SplitAnyCons("A B", '\t', "C D", seps);
    SplitAnyNone("C D", seps);
    ParseLineOfSplit(line, seps, "A B", "C D", []);
  }

  /** The default separators cut the same line at its first space. */
  lemma {:induction false} DefaultSeparatorsCutAtSpace(line: string, seps: set<char>)
    requires line == "A" + " " + "B" + "\t" + "C D" && seps == SeparatorSet(DefaultSeparator)
    ensures ParseLine(line, seps) == Success(Some(Entry("A", "B")))
  {
    SeparatorSets();
    var rest := "B" + "\t" + "C D";
    assert line == "A" + [' '] + rest;
    SplitAnyCons("A", ' ', rest, seps);
    assert rest == "B" + ['\t'] + "C D";
    SplitAnyCons("B", '\t', "C D", seps);
    assert SplitAny(line, seps) == ["A", "B"] + SplitAny("C D", seps);
    assert line[0] == 'A';
    ParseLineOfSplit(line, seps, "A", "B", SplitAny("C D", seps));
  }

  /** A data line whose first two pieces are `key` and `value` yields that entry. */
  lemma {:induction false} ParseLineOfSplit(line: string, seps: set<char>, key: string, value: string, more: seq<string>)
    requires IsDataLine(line) && SplitAny(line, seps) == [key, value] + more
    ensures ParseLine(line, seps) == Success(Some(Entry(key, value)))
  {
  }
}

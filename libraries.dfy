/**
 * The library aggregator and the final `make` command: `list_libs` reads
 * `node_modules/<dep>/mbedjs.json` for every declared dependency and
 * rebases its `source` directories onto the build directory; task `build`
 * joins those directories into the `EXTRAS` argument. What the file system
 * holds is a parameter.
 */
module Libraries {
  import opened Wrappers
  import opened Text

  /** The prefix that takes a path from `build/` back to `node_modules/`. */
  const NodeModulesFromBuild: string := "../../../../node_modules/"

  /** What reading and parsing `node_modules/<dep>/mbedjs.json` gives, once
      `fs.stat` found it: a read error, text that is not JSON, or a JSON value
      together with its `source` array when it has one. */
  datatype MetadataFile<C> = Unreadable | NotJson | Json(source: Option<seq<string>>, config: C)

  /** Why one dependency's promise rejected, which rejects `Promise.all`. */
  datatype LibError =
    | NoMetadata(dep: string)     // fs.stat: no mbedjs.json
    | ReadFailed(dep: string)     // fs.readFile
    | ParseFailed(dep: string)    // JSON.parse
    | NoSourceList(dep: string)   // json_data.source.map is not a function

  /** One aggregated library: its name, rebased source directories and raw metadata. */
  datatype LibraryDescriptor<C> = LibraryDescriptor(name: string, absSource: seq<string>, config: C)

  /** A dependency directory as seen from the build directory. */
  function RebaseSource(dep: string, dir: string): (p: string)
    ensures |p| == |NodeModulesFromBuild| + |dep| + 1 + |dir|
    ensures p[..|NodeModulesFromBuild|] == NodeModulesFromBuild
    ensures p[|p| - |dir|..] == dir
  {
    NodeModulesFromBuild + dep + "/" + dir
  }

  /** `json_data.source.map(...)`. */
  function RebaseAll(dep: string, dirs: seq<string>): (r: seq<string>)
    ensures |r| == |dirs|
    ensures forall i :: 0 <= i < |dirs| ==> (NodeModulesFromBuild + dep + "/" <= r[i]
      && |dirs[i]| <= |r[i]| && r[i][|r[i]| - |dirs[i]|..] == dirs[i])
  {
    seq(|dirs|, i requires 0 <= i < |dirs| => RebaseSource(dep, dirs[i]))
  }

  /** The files map holds metadata, with a `source` list, for `dep`. */
  predicate HasSourceList<C>(dep: string, files: map<string, MetadataFile<C>>)
  {
    dep in files && files[dep].Json? && files[dep].source.Some?
  }

  /** The promise built for one dependency. */
  function Describe<C>(dep: string, files: map<string, MetadataFile<C>>): (r: Result<LibraryDescriptor<C>, LibError>)
    ensures r.Success? <==> HasSourceList(dep, files)
    ensures r.Success? ==> (r.value.name == dep && r.value.config == files[dep].config
      && |r.value.absSource| == |files[dep].source.value|
      && forall j :: 0 <= j < |r.value.absSource| ==>
           r.value.absSource[j] == NodeModulesFromBuild + dep + "/" + files[dep].source.value[j])
    ensures r.Failure? ==> r.error.dep == dep
  {
    if dep !in files then Failure(NoMetadata(dep))
    else match files[dep]
      case Unreadable => Failure(ReadFailed(dep))
      case NotJson => Failure(ParseFailed(dep))
      case Json(src, cfg) =>
        if src.None? then Failure(NoSourceList(dep))
        else Success(LibraryDescriptor(dep, RebaseAll(dep, src.value), cfg))
  }

  /** `list_libs`: one descriptor per dependency, in the order of the
      dependency keys, or the failure of the first dependency that fails. */
  function ListLibs<C>(deps: seq<string>, files: map<string, MetadataFile<C>>)
    : (r: Result<seq<LibraryDescriptor<C>>, LibError>)
    ensures r.Success? <==> forall i :: 0 <= i < |deps| ==> HasSourceList(deps[i], files)
    ensures r.Success? ==> (|r.value| == |deps|
      && forall i :: 0 <= i < |deps| ==> Describe(deps[i], files) == Success(r.value[i]))
    ensures r.Failure? ==> exists i :: (0 <= i < |deps| && !HasSourceList(deps[i], files)
      && Describe(deps[i], files) == Failure(r.error)
      && forall j :: 0 <= j < i ==> HasSourceList(deps[j], files))
  {
    if deps == [] then Success([])
    else
      match Describe(deps[0], files)
      case Failure(e) => Failure(e)
      case Success(lib) =>
        match ListLibs(deps[1..], files)
        case Failure(e) =>
          assert forall j :: 1 <= j <= |deps[1..]| ==> deps[j] == deps[1..][j - 1];
          Failure(e)
        case Success(libs) =>
          assert forall j :: 1 <= j < |deps| ==> deps[j] == deps[1..][j - 1];
          Success([lib] + libs)
  }

  /** One dependency without `mbedjs.json` rejects the whole aggregation: it is
      not skipped. */
  lemma MissingMetadataFails<C>(deps: seq<string>, files: map<string, MetadataFile<C>>, i: nat)
    requires i < |deps| && deps[i] !in files
    ensures ListLibs(deps, files).Failure?
  {
  }

  /** With dependencies `[a, b, c]` where `b` has no metadata, the aggregation
      fails on `b` and yields no `[a, c]`. */
  lemma MiddleDependencyWithoutMetadata<C>(a: string, b: string, c: string, files: map<string, MetadataFile<C>>)
    requires HasSourceList(a, files) && b !in files && HasSourceList(c, files)
    ensures ListLibs([a, b, c], files) == Failure(NoMetadata(b))
  {
    assert [a, b, c][1..] == [b, c];
  }

  /** Every library's directories joined with spaces, one string per library. */
  function JoinEach(xss: seq<seq<string>>): (r: seq<string>)
    ensures |r| == |xss|
    ensures forall k :: 0 <= k < |xss| && |xss[k]| >= 1 ==> xss[k][0] <= r[k]
  {
    if xss == [] then [] else [Join(xss[0], " ")] + JoinEach(xss[1..])
  }

  /** The `abs_source` lists of the libraries, in order. */
  function SourceLists<C>(libs: seq<LibraryDescriptor<C>>): (r: seq<seq<string>>)
    ensures |r| == |libs|
  {
    seq(|libs|, i requires 0 <= i < |libs| => libs[i].absSource)
  }

  /** `lib_source_files` in task `build`. */
  function LibSourceFiles<C>(libs: seq<LibraryDescriptor<C>>): (r: string)
    ensures (forall i :: 0 <= i < |libs| ==> |libs[i].absSource| >= 1) ==>
      r == Join(Flatten(SourceLists(libs)), " ")
  {
    JoinOfJoins(SourceLists(libs));
    Join(JoinEach(SourceLists(libs)), " ")
  }

  /** The command text up to the opening quote of `EXTRAS`. */
  function MakeHead(target: string): (h: string)
    ensures '"' !in target ==> '"' !in h
  {
    "make BOARD=" + target + " EXTRAS="
  }

  /** The command task `build` runs in `build/`. When neither the target nor
      the directories contain `"`, the shell sees `EXTRAS=` followed by
      exactly one quoted word, `lib_source_files`. */
  function MakeCommand<C>(target: string, libs: seq<LibraryDescriptor<C>>): (r: string)
    ensures ('"' !in target && '"' !in LibSourceFiles(libs)) ==>
      Split(r, '"') == [MakeHead(target), LibSourceFiles(libs), ""]
  {
    QuotedWord(MakeHead(target), LibSourceFiles(libs));
    MakeHead(target) + "\"" + LibSourceFiles(libs) + "\""
  }

  lemma QuotedWord(head: string, word: string)
    ensures ('"' !in head && '"' !in word) ==> Split(head + "\"" + word + "\"", '"') == [head, word, ""]
  {
    if '"' !in head && '"' !in word {
      SplitPrefix(word, '"', []);
      assert word + ['"'] + [] == word + "\"";
      SplitPrefix(head, '"', word + "\"");
      assert head + ['"'] + (word + "\"") == head + "\"" + word + "\"";
    }
  }

  /** Task `build` once `list_libs` settles: the command, or the rejection. */
  function BuildCommand<C>(target: string, deps: seq<string>, files: map<string, MetadataFile<C>>)
    : (r: Result<string, LibError>)
    ensures r.Success? <==> forall i :: 0 <= i < |deps| ==> HasSourceList(deps[i], files)
    ensures r.Failure? ==> exists i :: 0 <= i < |deps| && !HasSourceList(deps[i], files) && r.error.dep == deps[i]
  {
    match ListLibs(deps, files)
    case Failure(e) => Failure(e)
    case Success(libs) => Success(MakeCommand(target, libs))
  }

  lemma {:induction false} JoinAppend(a: seq<string>, b: seq<string>, sep: string)
    requires |a| >= 1 && |b| >= 1
    ensures Join(a + b, sep) == Join(a, sep) + sep + Join(b, sep)
  {
    if |a| == 1 {
      assert (a + b)[1..] == b;
    } else {
      assert (a + b)[1..] == a[1..] + b;
      JoinAppend(a[1..], b, sep);
    }
  }

  lemma {:induction false} FlattenNonEmpty(xss: seq<seq<string>>)
    requires |xss| >= 1 && forall k :: 0 <= k < |xss| ==> |xss[k]| >= 1
    ensures |Flatten(xss)| >= 1
  {
  }

  /** When every list has an entry, joining the space-joined lists with
      spaces is joining the flattened list with spaces. */
  lemma {:induction false} JoinOfJoins(xss: seq<seq<string>>)
    ensures (forall k :: 0 <= k < |xss| ==> |xss[k]| >= 1) ==>
      Join(JoinEach(xss), " ") == Join(Flatten(xss), " ")
  {
    if !(forall k :: 0 <= k < |xss| ==> |xss[k]| >= 1) {
    } else if |xss| == 1 {
      assert xss[1..] == [];
      assert JoinEach(xss) == [Join(xss[0], " ")];
      assert Flatten(xss) == xss[0] + [];
      assert xss[0] + [] == xss[0];
    } else if |xss| > 1 {
      var rest := xss[1..];
      JoinOfJoins(rest);
      FlattenNonEmpty(rest);
      assert JoinEach(xss)[1..] == JoinEach(rest);
      JoinAppend(xss[0], Flatten(rest), " ");
    }
  }

  /** An empty `source` list still contributes its separator, so a library
      without directories puts an extra space into `EXTRAS`. */
  lemma EmptySourceListAddsSpace<C>(lib: LibraryDescriptor<C>, libs: seq<LibraryDescriptor<C>>)
    requires lib.absSource == [] && |libs| >= 1
    ensures LibSourceFiles([lib] + libs) == " " + LibSourceFiles(libs)
  {
    var rest := SourceLists(libs);
    assert SourceLists([lib] + libs) == [[]] + rest;
    var joined := JoinEach(rest);
    assert ([[]] + rest)[1..] == rest;
    assert JoinEach([[]] + rest) == [Join([], " ")] + joined;
    assert Join([], " ") == [];
    LeadingEmptyPiece(joined);
  }

  lemma LeadingEmptyPiece(ys: seq<string>)
    requires |ys| >= 1
    ensures Join([[]] + ys, " ") == " " + Join(ys, " ")
  {
    assert ([[]] + ys)[1..] == ys;
  }

  lemma {:induction false} FlattenSpaceFree(xss: seq<seq<string>>)
    requires forall k, d :: 0 <= k < |xss| && d in xss[k] ==> ' ' !in d
    ensures forall m :: 0 <= m < |Flatten(xss)| ==> ' ' !in Flatten(xss)[m]
  {
    if xss != [] {
      FlattenSpaceFree(xss[1..]);
      var f := Flatten(xss);
      forall m | 0 <= m < |f| ensures ' ' !in f[m] {
        if m < |xss[0]| {
          assert f[m] == xss[0][m];
        } else {
          assert f[m] == Flatten(xss[1..])[m - |xss[0]|];
        }
      }
    }
  }

  /** When every library has at least one directory, `lib_source_files` is
      all directories joined with spaces, and splitting it on spaces gives
      them back in order, provided no directory has a space in its path. */
  lemma ExtrasListsEveryDirectory<C>(libs: seq<LibraryDescriptor<C>>)
    requires |libs| >= 1
    requires forall i :: 0 <= i < |libs| ==> |libs[i].absSource| >= 1
    requires forall i, d :: 0 <= i < |libs| && d in libs[i].absSource ==> ' ' !in d
    ensures LibSourceFiles(libs) == Join(Flatten(SourceLists(libs)), " ")
    ensures Split(LibSourceFiles(libs), ' ') == Flatten(SourceLists(libs))
  {
    var xss := SourceLists(libs);
    JoinOfJoins(xss);
    FlattenNonEmpty(xss);
    FlattenSpaceFree(xss);
    SplitJoin(Flatten(xss), ' ');
  }

  /** The rebased `source` lists of the dependencies, in dependency order. */
  function DeclaredSources<C>(deps: seq<string>, files: map<string, MetadataFile<C>>): (r: seq<seq<string>>)
    requires forall i :: 0 <= i < |deps| ==> HasSourceList(deps[i], files)
    ensures |r| == |deps|
  {
    seq(|deps|, i requires 0 <= i < |deps| && HasSourceList(deps[i], files)
      => RebaseAll(deps[i], files[deps[i]].source.value))
  }

  /** The command of task `build` names the target and every rebased
      directory, library by library in dependency order. */
  lemma BuildCommandSpec<C>(target: string, deps: seq<string>, files: map<string, MetadataFile<C>>)
    ensures BuildCommand(target, deps, files).Success? ==>
      BuildCommand(target, deps, files).value
        == MakeHead(target) + "\"" + Join(JoinEach(DeclaredSources(deps, files)), " ") + "\""
  {
    var r := ListLibs(deps, files);
    if r.Success? {
      var libs := r.value;
      forall i | 0 <= i < |deps| ensures SourceLists(libs)[i] == DeclaredSources(deps, files)[i] {
        assert Describe(deps[i], files) == Success(libs[i]);
      }
      assert SourceLists(libs) == DeclaredSources(deps, files);
      assert BuildCommand(target, deps, files) == Success(MakeCommand(target, libs));
      assert LibSourceFiles(libs) == Join(JoinEach(DeclaredSources(deps, files)), " ");
    }
  }
}

/**
 * The manifest pipeline of package `pkg`: the fixed manifest schema, its
 * validation, the decoding of a manifest into a package list, and the
 * fail-fast installation loop that runs `go get` once per package.
 */
module Pkg {
  import opened Wrappers
  import opened Json
  import opened Schema

  type Bytes = seq<bv8>

  // ---------------------------------------------------------------------------
  // The manifest schema (a draft-04 schema, fixed at compile time)
  // ---------------------------------------------------------------------------

  /** The schema of the `url` property: a string. */
  const UrlSchema: Schema := Schema(Some(StringType), None, false, None, [], map[])

  /** The schema of one manifest item: an object with a required string `url`. */
  const ItemSchema: Schema :=
    Schema(Some(ObjectType), None, false, None, ["url"], map["url" := UrlSchema])

  /** The whole manifest: a non-empty array of distinct items. */
  const PkgSchema: Schema := Schema(Some(ArrayType), Some(1), true, Some(ItemSchema), [], map[])

  /** The one message every content failure carries. */
  const InvalidYamlMessage: string := "Invalid YAML provided"

  /** One package to install. */
  datatype Package = Package(url: string)

  /** The errors the pipeline returns. */
  datatype Error =
    | YamlError(message: string)     // from the YAML-to-JSON converter, passed on unchanged
    | FileError(message: string)     // from reading the manifest file, passed on unchanged
    | InvalidYaml                    // the document does not conform to the manifest schema
    | CommandError(message: string)  // from a `go get` run that failed, passed on unchanged
  {
    function Message(): string {
      match this
      case InvalidYaml => InvalidYamlMessage
      case YamlError(msg) => msg
      case FileError(msg) => msg
      case CommandError(msg) => msg
    }
  }

  // ---------------------------------------------------------------------------
  // What the schema means, stated directly
  // ---------------------------------------------------------------------------

  /** One manifest item: an object whose `url` member is a string; other members are free. */
  predicate IsEntry(item: Json) {
    item.JObject? && "url" in item.members && item.members["url"].JString?
  }

  /** The `url` string of an entry. */
  function UrlOf(item: Json): string
    requires IsEntry(item)
  {
    item.members["url"].s
  }

  /** No two items are the same JSON value. */
  predicate Distinct(items: seq<Json>) {
    forall i, j :: 0 <= i < j < |items| ==> items[i] != items[j]
  }

  /** A valid manifest: a non-empty array of distinct entries. */
  predicate IsManifest(doc: Json) {
    doc.JArray? && |doc.items| >= 1 && Distinct(doc.items) &&
    forall i :: 0 <= i < |doc.items| ==> IsEntry(doc.items[i])
  }

  /** The `url` value of an item: only a string is accepted, and it is reported once. */
  lemma UrlViolations(url: Json, at: Path)
    ensures Violations(UrlSchema, url, at) ==
            if url.JString? then {} else {InvalidType(at, StringType, TypeOf(url))}
  {
  }

  /** The violations of one item, exactly: a wrong type, a missing `url`, or a `url` that is not a string. */
  lemma ItemViolations(item: Json, at: Path)
    ensures Violations(ItemSchema, item, at) ==
            if !item.JObject? then {InvalidType(at, ObjectType, TypeOf(item))}
            else if "url" !in item.members then {Required(at, "url")}
            else if !item.members["url"].JString? then
              {InvalidType(at + [Key("url")], StringType, TypeOf(item.members["url"]))}
            else {}
  {
    if item.JObject? {
      var m := item.members;
      var req := set p | p in ItemSchema.required && p !in m :: Required(at, p);
      var props := set k, v | k in ItemSchema.properties && k in m &&
                              v in Violations(ItemSchema.properties[k], m[k], at + [Key(k)]) :: v;
      assert Violations(ItemSchema, item, at) == req + props;
      if "url" in m {
        var urlAt := at + [Key("url")];
        UrlViolations(m["url"], urlAt);
        assert req == {};
        forall v | v in Violations(UrlSchema, m["url"], urlAt) ensures v in props {
          assert "url" in ItemSchema.properties && ItemSchema.properties["url"] == UrlSchema;
        }
      } else {
        assert req == {Required(at, "url")};
        assert props == {};
      }
    }
  }

  /** The violations of the item at index i of an array. */
  function ItemsViolations(items: seq<Json>): set<Violation> {
    set i, v | 0 <= i < |items| && v in Violations(ItemSchema, items[i], [Index(i)]) :: v
  }

  /** Under the manifest schema, section 3.6 uniqueness is distinctness of the values. */
  lemma UniqueIsDistinct(items: seq<Json>)
    ensures Unique(items) <==> Distinct(items)
  {
    forall i, j | 0 <= i < j < |items|
      ensures Equal(items[i], items[j]) <==> items[i] == items[j]
    {
      EqualIsIdentity(items[i], items[j]);
    }
  }

  /** The violations of the whole document, exactly, case by case. */
  lemma RootViolations(doc: Json)
    ensures !doc.JArray? ==> Violations(PkgSchema, doc, []) == {InvalidType([], ArrayType, TypeOf(doc))}
    ensures doc.JArray? ==>
      Violations(PkgSchema, doc, []) ==
        (if |doc.items| < 1 then {ArrayMinItems([], 1)} else {})
        + (if !Distinct(doc.items) then {ArrayNotUnique([])} else {})
        + ItemsViolations(doc.items)
  {
    if doc.JArray? {
      UniqueIsDistinct(doc.items);
      assert forall i :: 0 <= i < |doc.items| ==> [] + [Index(i)] == [Index(i)];
    }
  }

  /** No item violation is found exactly when every item is an entry. */
  lemma {:induction false} ItemsConform(items: seq<Json>)
    ensures ItemsViolations(items) == {} <==> forall i :: 0 <= i < |items| ==> IsEntry(items[i])
  {
    if exists i :: 0 <= i < |items| && !IsEntry(items[i]) {
      var i :| 0 <= i < |items| && !IsEntry(items[i]);
      ItemViolations(items[i], [Index(i)]);
      var v :| v in Violations(ItemSchema, items[i], [Index(i)]);
      assert v in ItemsViolations(items);
    } else {
      forall i | 0 <= i < |items|
        ensures Violations(ItemSchema, items[i], [Index(i)]) == {}
      {
        ItemViolations(items[i], [Index(i)]);
      }
    }
  }

  /** The manifest schema accepts a document exactly when it is a manifest. */
  lemma {:induction false} SchemaMeansManifest(doc: Json)
    ensures Violations(PkgSchema, doc, []) == {} <==> IsManifest(doc)
  {
    RootViolations(doc);
    if doc.JArray? {
      ItemsConform(doc.items);
    }
  }

  // ---------------------------------------------------------------------------
  // validate
  // ---------------------------------------------------------------------------

  /** Validation of a converted document: nil for a manifest, the fixed content error otherwise. */
  function Validate(doc: Json): (r: Option<Error>)
    ensures r.None? <==> IsManifest(doc)
    ensures r.Some? ==> r.value == InvalidYaml && r.value.Message() == "Invalid YAML provided"
  {
    SchemaMeansManifest(doc);
    if Violations(PkgSchema, doc, []) == {} then None else Some(InvalidYaml)
  }

  /** A root that is not an array (an object, null, ...) is rejected with one root type violation. */
  lemma NonArrayRootRejected(doc: Json)
    requires !doc.JArray?
    ensures Violations(PkgSchema, doc, []) == {InvalidType([], ArrayType, TypeOf(doc))}
    ensures Validate(doc) == Some(InvalidYaml)
  {
    RootViolations(doc);
  }

  /** The empty array is rejected by `minItems`, and by nothing else. */
  lemma EmptyArrayRejected()
    ensures Violations(PkgSchema, JArray([]), []) == {ArrayMinItems([], 1)}
    ensures Validate(JArray([])) == Some(InvalidYaml)
  {
    RootViolations(JArray([]));
    assert ItemsViolations([]) == {};
  }

  /** Two equal items make `uniqueItems` fail. */
  lemma DuplicateItemsRejected(items: seq<Json>, i: nat, j: nat)
    requires i < j < |items| && items[i] == items[j]
    ensures ArrayNotUnique([]) in Violations(PkgSchema, JArray(items), [])
    ensures Validate(JArray(items)) == Some(InvalidYaml)
  {
    RootViolations(JArray(items));
  }

  /** An item without `url` is reported at its index. */
  lemma MissingUrlRejected(items: seq<Json>, i: nat)
    requires i < |items| && items[i].JObject? && "url" !in items[i].members
    ensures Required([Index(i)], "url") in Violations(PkgSchema, JArray(items), [])
    ensures Validate(JArray(items)) == Some(InvalidYaml)
  {
    RootViolations(JArray(items));
    ItemViolations(items[i], [Index(i)]);
    assert Required([Index(i)], "url") in ItemsViolations(items);
  }

  /** A violation reported under index i is among the items' violations exactly when item i has it. */
  lemma ItemsViolationsAt(items: seq<Json>, i: nat, v: Violation)
    requires i < |items| && |v.at| >= 1 && v.at[0] == Index(i)
    ensures v in ItemsViolations(items) <==> v in Violations(ItemSchema, items[i], [Index(i)])
  {
    forall j | 0 <= j < |items| && j != i
      ensures v !in Violations(ItemSchema, items[j], [Index(j)])
    {
      assert !([Index(j)] <= v.at);
    }
  }

  /** Among the items' violations, a non-string `url` at index i shows up as its type violation only. */
  lemma NonStringUrlItemViolations(items: seq<Json>, i: nat)
    requires i < |items| && items[i].JObject? && "url" in items[i].members
    requires !items[i].members["url"].JString?
    ensures InvalidType([Index(i), Key("url")], StringType, TypeOf(items[i].members["url"]))
            in ItemsViolations(items)
    ensures Required([Index(i)], "url") !in ItemsViolations(items)
  {
    ItemViolations(items[i], [Index(i)]);
    assert [Index(i)] + [Key("url")] == [Index(i), Key("url")];
    ItemsViolationsAt(items, i, InvalidType([Index(i), Key("url")], StringType, TypeOf(items[i].members["url"])));
    ItemsViolationsAt(items, i, Required([Index(i)], "url"));
  }

  /** A present but non-string `url` (null, say) satisfies `required` and fails `type`, at index.url. */
  lemma NonStringUrlRejected(items: seq<Json>, i: nat)
    requires i < |items| && items[i].JObject? && "url" in items[i].members
    requires !items[i].members["url"].JString?
    ensures InvalidType([Index(i), Key("url")], StringType, TypeOf(items[i].members["url"]))
            in Violations(PkgSchema, JArray(items), [])
    ensures Required([Index(i)], "url") !in Violations(PkgSchema, JArray(items), [])
    ensures Validate(JArray(items)) == Some(InvalidYaml)
  {
    RootViolations(JArray(items));
    NonStringUrlItemViolations(items, i);
  }

  /** `- url:` converts to `[{"url": null}]`, whose only violation is the type of 0.url. */
  lemma NullUrlScenario()
    ensures Violations(PkgSchema, JArray([JObject(map["url" := JNull])]), []) ==
            {InvalidType([Index(0), Key("url")], StringType, NullType)}
  {
    var items := [JObject(map["url" := JNull])];
    RootViolations(JArray(items));
    ItemViolations(items[0], [Index(0)]);
    assert [Index(0)] + [Key("url")] == [Index(0), Key("url")];
    assert ItemsViolations(items) == Violations(ItemSchema, items[0], [Index(0)]);
  }

  /**
   * Equality compares whole items: two items with the same `url` that differ in
   * another member are not duplicates, and extra members are allowed.
   */
  lemma ExtraMembersAllowed(url: string, key: string, extra: Json)
    requires key != "url"
    ensures Validate(JArray([JObject(map["url" := JString(url)]),
                             JObject(map["url" := JString(url), key := extra])])) == None
  {
    var a := JObject(map["url" := JString(url)]);
    var b := JObject(map["url" := JString(url), key := extra]);
    assert key in b.members && key !in a.members;
    assert IsManifest(JArray([a, b]));
  }

  // ---------------------------------------------------------------------------
  // UnmarshalYAML as a function of the converted document
  // ---------------------------------------------------------------------------

  /** The typed decode of validated items: one package per item, in order, carrying its `url`. */
  function ToPackages(items: seq<Json>): (r: seq<Package>)
    requires forall i :: 0 <= i < |items| ==> IsEntry(items[i])
    ensures |r| == |items|
    ensures forall i :: 0 <= i < |r| ==> r[i].url == UrlOf(items[i])
  {
    if items == [] then []
    else [Package(UrlOf(items[0]))] + ToPackages(items[1..])
  }

  /**
   * The three stages of UnmarshalYAML, given the converter's output: a
   * conversion error is passed on, then the document is validated, then the
   * validated array is decoded.
   */
  function Decode(converted: Result<Json, string>): (r: Result<seq<Package>, Error>)
    ensures converted.Failure? ==> r == Failure(YamlError(converted.error))
    ensures converted.Success? ==> (r.Success? <==> IsManifest(converted.value))
    ensures converted.Success? && r.Failure? ==> r.error == InvalidYaml
    ensures r.Success? ==>
      converted.Success? && |r.value| == |converted.value.items| >= 1 &&
      IsManifest(converted.value) &&
      forall i :: 0 <= i < |r.value| ==> r.value[i].url == UrlOf(converted.value.items[i])
  {
    match converted
    case Failure(msg) => Failure(YamlError(msg))
    case Success(doc) =>
      match Validate(doc)
      case Some(err) => Failure(err)
      case None => Success(ToPackages(doc.items))
  }

  /** A one-entry manifest decodes to exactly that one package, its URL verbatim. */
  lemma SingleEntryDecodes(url: string)
    ensures Decode(Success(JArray([JObject(map["url" := JString(url)])]))) == Success([Package(url)])
  {
    var doc := JArray([JObject(map["url" := JString(url)])]);
    assert IsManifest(doc);
    var r := Decode(Success(doc));
    assert UrlOf(doc.items[0]) == url;
    assert r.value == [Package(url)];
  }

  /** No two packages share a URL. */
  predicate DistinctUrls(ps: seq<Package>) {
    forall i, j :: 0 <= i < j < |ps| ==> ps[i].url != ps[j].url
  }

  /** A package list written as a manifest document. */
  function Encode(ps: seq<Package>): Json {
    JArray(seq(|ps|, i requires 0 <= i < |ps| => JObject(map["url" := JString(ps[i].url)])))
  }

  /**
   * Round trip: a package list written out as a manifest decodes back to
   * itself exactly when the schema admits it, that is when it is non-empty
   * and its URLs are distinct.
   */
  lemma EncodeDecode(ps: seq<Package>)
    ensures Decode(Success(Encode(ps))) ==
            if |ps| >= 1 && DistinctUrls(ps) then Success(ps) else Failure(InvalidYaml)
  {
    var doc := Encode(ps);
    forall i, j | 0 <= i < j < |ps|
      ensures doc.items[i] == doc.items[j] <==> ps[i].url == ps[j].url
    {
      if doc.items[i] == doc.items[j] {
        assert doc.items[i].members["url"] == doc.items[j].members["url"];
      }
    }
    if |ps| >= 1 && DistinctUrls(ps) {
      assert IsManifest(doc);
      var r := Decode(Success(doc));
      assert r.value == ps;
    } else if |ps| >= 1 {
      var i, j :| 0 <= i < j < |ps| && ps[i].url == ps[j].url;
      assert !Distinct(doc.items);
    }
  }

  // ---------------------------------------------------------------------------
  // Running external commands
  // ---------------------------------------------------------------------------

  /** One process launch: the program name and its argument list. */
  datatype Invocation = Invocation(name: string, args: seq<string>)

  /** The launch Install makes for a URL: `go get <url>`. */
  function GoGet(url: string): Invocation {
    Invocation("go", ["get", url])
  }

  /** The launches for a package list, one per package, in list order. */
  function GoGetAll(ps: seq<Package>): seq<Invocation> {
    seq(|ps|, i requires 0 <= i < |ps| => GoGet(ps[i].url))
  }

  /**
   * The process launcher. What the environment does is fixed by `outcome`:
   * the n-th launch (counted from zero) of an invocation fails with a
   * diagnostic or succeeds (`None`). Every launch is recorded in `log`.
   */
  class Runner {
    const outcome: (nat, Invocation) -> Option<string>
    var calls: nat
    ghost var log: seq<Invocation>

    ghost predicate Valid()
      reads this
    {
      calls == |log|
    }

    constructor (outcome: (nat, Invocation) -> Option<string>)
      ensures Valid() && log == [] && this.outcome == outcome
    {
      this.outcome := outcome;
      calls := 0;
      log := [];
    }

    /** Launch `inv`, wait for it to exit, and return its error or nil. */
    method Run(inv: Invocation) returns (err: Option<Error>)
      requires Valid()
      modifies this
      ensures Valid() && log == old(log) + [inv]
      ensures err == RunError(outcome, |old(log)|, inv)
    {
      err := RunError(outcome, calls, inv);
      calls := calls + 1;
      log := log + [inv];
    }
  }

  /** The error of the n-th launch, as `Run` returns it. */
  function RunError(outcome: (nat, Invocation) -> Option<string>, n: nat, inv: Invocation): Option<Error> {
    match outcome(n, inv)
    case None => None
    case Some(msg) => Some(CommandError(msg))
  }

  // ---------------------------------------------------------------------------
  // Install as a function of the environment
  // ---------------------------------------------------------------------------

  /** The launches an install makes and the error it returns. */
  datatype Trace = Trace(invocations: seq<Invocation>, err: Option<Error>)

  /**
   * Installing `ps` with a runner that has made `calls` launches so far: one
   * `go get` per package in order, stopping at the first one that fails.
   */
  function InstallTrace(ps: seq<Package>, outcome: (nat, Invocation) -> Option<string>, calls: nat): (t: Trace)
    ensures |t.invocations| <= |ps|
    ensures t.invocations == GoGetAll(ps[..|t.invocations|])
    ensures t.err.None? ==> |t.invocations| == |ps|
    ensures t.err.Some? ==> |t.invocations| >= 1
    decreases |ps|
  {
    if ps == [] then Trace([], None)
    else
      var inv := GoGet(ps[0].url);
      match RunError(outcome, calls, inv)
      case Some(e) => Trace([inv], Some(e))
      case None =>
        var rest := InstallTrace(ps[1..], outcome, calls + 1);
        GoGetAllCons(ps, |rest.invocations| + 1);
        Trace([inv] + rest.invocations, rest.err)
  }

  /** Whether the launch for package j, made as launch number calls + j, succeeds. */
  predicate Succeeds(ps: seq<Package>, outcome: (nat, Invocation) -> Option<string>, calls: nat, j: nat)
    requires j < |ps|
  {
    outcome(calls + j, GoGet(ps[j].url)).None?
  }

  /** A first launch that succeeds is followed by the install of the rest. */
  lemma InstallTraceStep(ps: seq<Package>, outcome: (nat, Invocation) -> Option<string>, calls: nat)
    requires ps != [] && Succeeds(ps, outcome, calls, 0)
    ensures InstallTrace(ps, outcome, calls) ==
            var rest := InstallTrace(ps[1..], outcome, calls + 1);
            Trace([GoGet(ps[0].url)] + rest.invocations, rest.err)
  {
    assert calls + 0 == calls;
  }

  /** The launches for a prefix of i + 1 packages: the first package's, then those of the next i. */
  lemma GoGetAllCons(ps: seq<Package>, i: nat)
    requires 0 < i <= |ps|
    ensures GoGetAll(ps[..i]) == [GoGet(ps[0].url)] + GoGetAll(ps[1..][..i - 1])
  {
    var tail := ps[1..][..i - 1];
    assert forall j :: 0 <= j < i - 1 ==> tail[j] == ps[j + 1];
  }

  /** After i successful launches, the install has launched the first i packages and goes on with the rest. */
  lemma {:induction false} InstallTraceAfterSuccesses(
    ps: seq<Package>, outcome: (nat, Invocation) -> Option<string>, calls: nat, i: nat)
    requires i <= |ps|
    requires forall j :: 0 <= j < i ==> Succeeds(ps, outcome, calls, j)
    ensures InstallTrace(ps, outcome, calls).invocations ==
            GoGetAll(ps[..i]) + InstallTrace(ps[i..], outcome, calls + i).invocations
    ensures InstallTrace(ps, outcome, calls).err == InstallTrace(ps[i..], outcome, calls + i).err
    decreases i
  {
    if i > 0 {
      var rest, next := ps[1..], calls + 1;
      InstallTraceStep(ps, outcome, calls);
      forall j | 0 <= j < i - 1
        ensures Succeeds(rest, outcome, next, j)
      {
        assert Succeeds(ps, outcome, calls, j + 1);
        assert rest[j] == ps[j + 1];
      }
      InstallTraceAfterSuccesses(rest, outcome, next, i - 1);
      assert rest[i - 1..] == ps[i..];
      assert next + (i - 1) == calls + i;
      GoGetAllCons(ps, i);
    } else {
      assert ps[..0] == [] && ps[0..] == ps;
    }
  }

  /** If launch k is the first to fail, the install made launches 0..k and returns launch k's error. */
  lemma InstallStopsAtFirstFailure(
    ps: seq<Package>, outcome: (nat, Invocation) -> Option<string>, calls: nat, k: nat)
    requires k < |ps|
    requires forall j :: 0 <= j < k ==> Succeeds(ps, outcome, calls, j)
    requires !Succeeds(ps, outcome, calls, k)
    ensures InstallTrace(ps, outcome, calls) ==
            Trace(GoGetAll(ps[..k + 1]), Some(CommandError(outcome(calls + k, GoGet(ps[k].url)).value)))
  {
    InstallTraceAfterSuccesses(ps, outcome, calls, k);
    assert ps[k..][0] == ps[k];
    assert GoGetAll(ps[..k + 1]) == GoGetAll(ps[..k]) + [GoGet(ps[k].url)];
  }

  /** If every launch succeeds, the install made one launch per package, in order, and returns nil. */
  lemma InstallAllSucceed(ps: seq<Package>, outcome: (nat, Invocation) -> Option<string>, calls: nat)
    requires forall j :: 0 <= j < |ps| ==> Succeeds(ps, outcome, calls, j)
    ensures InstallTrace(ps, outcome, calls) == Trace(GoGetAll(ps), None)
  {
    InstallTraceAfterSuccesses(ps, outcome, calls, |ps|);
    assert ps[|ps|..] == [] && ps[..|ps|] == ps;
  }

  /** The install returns nil exactly when every launch succeeds, and never launches more than the list. */
  lemma InstallFailsIffSomeRunFails(ps: seq<Package>, outcome: (nat, Invocation) -> Option<string>, calls: nat)
    ensures InstallTrace(ps, outcome, calls).err.None? <==> forall j :: 0 <= j < |ps| ==> Succeeds(ps, outcome, calls, j)
    ensures |InstallTrace(ps, outcome, calls).invocations| <= |ps|
  {
    if exists j :: 0 <= j < |ps| && !Succeeds(ps, outcome, calls, j) {
      var k := FirstFailure(ps, outcome, calls, 0);
      InstallStopsAtFirstFailure(ps, outcome, calls, k);
    } else {
      InstallAllSucceed(ps, outcome, calls);
    }
  }

  /** The index of the first failing launch at or after `from`. */
  function FirstFailure(ps: seq<Package>, outcome: (nat, Invocation) -> Option<string>, calls: nat, from: nat): (k: nat)
    requires exists j :: from <= j < |ps| && !Succeeds(ps, outcome, calls, j)
    ensures from <= k < |ps| && !Succeeds(ps, outcome, calls, k)
    ensures forall j :: from <= j < k ==> Succeeds(ps, outcome, calls, j)
    decreases |ps| - from
  {
    if !Succeeds(ps, outcome, calls, from) then from
    else FirstFailure(ps, outcome, calls, from + 1)
  }

  // ---------------------------------------------------------------------------
  // The Packages receiver
  // ---------------------------------------------------------------------------

  /** The decoded manifest: the package list that UnmarshalYAML assigns and Install reads. */
  class Packages {
    var packages: seq<Package>

    constructor ()
      ensures packages == []
    {
      packages := [];
    }

    /**
     * Convert `data` to JSON with `yamlToJson`, validate it, and decode it into
     * `packages`; on any failure return the error and leave `packages` as it was.
     */
    method UnmarshalYaml(data: Bytes, yamlToJson: Bytes -> Result<Json, string>) returns (err: Option<Error>)
      modifies this
      ensures var d := Decode(yamlToJson(data));
              if d.Success? then err == None && packages == d.value
              else err == Some(d.error) && packages == old(packages)
    {
      var converted := yamlToJson(data);
      if converted.Failure? {
        return Some(YamlError(converted.error));
      }
      err := Validate(converted.value);
      if err.Some? {
        return;
      }
      packages := ToPackages(converted.value.items);
    }

    /** Read `filename` with `readFile` and decode its contents; a read error is returned unchanged. */
    method UnmarshalYamlFile(
      filename: string, readFile: string -> Result<Bytes, string>, yamlToJson: Bytes -> Result<Json, string>)
      returns (err: Option<Error>)
      modifies this
      ensures readFile(filename).Failure? ==>
                err == Some(FileError(readFile(filename).error)) && packages == old(packages)
      ensures readFile(filename).Success? ==>
                var d := Decode(yamlToJson(readFile(filename).value));
                if d.Success? then err == None && packages == d.value
                else err == Some(d.error) && packages == old(packages)
    {
      var source := readFile(filename);
      if source.Failure? {
        return Some(FileError(source.error));
      }
      err := UnmarshalYaml(source.value, yamlToJson);
    }

    /**
     * Run `go get <url>` for each package in order, stopping at and returning
     * the first error.
     */
    method Install(runner: Runner) returns (err: Option<Error>)
      requires runner.Valid()
      modifies runner
      ensures runner.Valid()
      ensures var t := InstallTrace(packages, runner.outcome, |old(runner.log)|);
              runner.log == old(runner.log) + t.invocations && err == t.err
    {
      ghost var start := |runner.log|;
      var i := 0;
      while i < |packages|
        invariant 0 <= i <= |packages|
        invariant runner.Valid()
        invariant runner.log == old(runner.log) + GoGetAll(packages[..i])
        invariant forall j :: 0 <= j < i ==> Succeeds(packages, runner.outcome, start, j)
      {
        err := runner.Run(GoGet(packages[i].url));
        if err.Some? {
          InstallStopsAtFirstFailure(packages, runner.outcome, start, i);
          assert GoGetAll(packages[..i + 1]) == GoGetAll(packages[..i]) + [GoGet(packages[i].url)];
          return;
        }
        assert GoGetAll(packages[..i + 1]) == GoGetAll(packages[..i]) + [GoGet(packages[i].url)];
        i := i + 1;
      }
      InstallAllSucceed(packages, runner.outcome, start);
      assert packages[..i] == packages;
      err := None;
    }
  }
}

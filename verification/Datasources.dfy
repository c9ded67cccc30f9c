/**
  Allocation of object services to local datasources, common/config/datasources.go:
  probing for names and ports, lookup by folder, and what runs of it keep.
 */
module Datasources {

  import Decimal
  import opened PeerAddresses

  const MIN_INT32: int := -0x8000_0000
  const MAX_INT32: int := 0x7FFF_FFFF
  const DEFAULT_PORT: int := 9001
  const PATH_SEPARATOR: char := '/'

  datatype StorageType = LOCAL | OTHER

  datatype MinioConfig = MinioConfig(
    name: string, storageType: StorageType, localFolder: string, runningPort: int, peerAddress: string)

  type Configs = map<string, MinioConfig>

  // ----- names

  function Label(base: string, index: nat): string {
    base + Decimal.Digits(index)
  }

  function Base(storageType: StorageType): string {
    if storageType == LOCAL then "local" else "gateway"
  }

  lemma LabelsDiffer(base: string, i: nat, j: nat)
    requires Label(base, i) == Label(base, j)
    ensures i == j
  {
    assert Label(base, i)[|base|..] == Decimal.Digits(i);
    assert Label(base, j)[|base|..] == Decimal.Digits(j);
    Decimal.DigitsAreInjective(i, j);
  }

  ghost predicate LabelsTaken(configs: Configs, base: string, index: nat) {
    forall i :: 1 <= i < index ==> Label(base, i) in configs
  }

  ghost predicate IsLeastName(configs: Configs, base: string, index: nat) {
    index >= 1 && Label(base, index) !in configs && LabelsTaken(configs, base, index)
  }

  /** Taken labels are different keys, so there are at most as many as configurations. */
  lemma {:induction false} LabelsAreKeys(keys: set<string>, base: string, index: nat)
    requires index >= 1 && forall i :: 1 <= i < index ==> Label(base, i) in keys
    ensures index - 1 <= |keys|
  {
    if index > 1 {
      var last := Label(base, index - 1);
      forall i | 1 <= i < index - 1
        ensures Label(base, i) in keys - {last}
      {
        if Label(base, i) == last {
          LabelsDiffer(base, i, index - 1);
        }
      }
      LabelsAreKeys(keys - {last}, base, index - 1);
    }
  }

  ghost predicate IsLeastLabel(configs: Configs, base: string, name: string) {
    exists index: nat :: IsLeastName(configs, base, index) && name == Label(base, index) && index <= |configs| + 1
  }

  /** A name no configuration has, while the ones numbered before it are taken. */
  ghost predicate LeastName(configs: Configs, base: string, name: string) {
    && name !in configs
    && exists index: nat :: index >= 1 && name == base + Decimal.Digits(index) && TakenBelow(configs, base, index)
  }

  ghost predicate TakenBelow(configs: Configs, base: string, index: nat) {
    forall i: nat :: 1 <= i < index ==> base + Decimal.Digits(i) in configs
  }

  lemma {:induction false} LeastNameIs(configs: Configs, base: string, name: string)
    requires IsLeastLabel(configs, base, name)
    ensures LeastName(configs, base, name)
  {
    var index :| IsLeastName(configs, base, index) && name == Label(base, index);
    assert LabelsTaken(configs, base, index);
    forall i: nat | 1 <= i < index
      ensures base + Decimal.Digits(i) in configs
    {
      assert Label(base, i) in configs;
    }
    assert TakenBelow(configs, base, index);
  }

  /** The probe ends at the least free index, after at most one step for each configuration. */
  method CreateConfigName(configs: Configs, storageType: StorageType) returns (name: string)
    ensures IsLeastLabel(configs, Base(storageType), name)
    ensures LeastName(configs, if storageType == LOCAL then "local" else "gateway", name)
  {
    var base := Base(storageType);
    var index := 1;
    name := Label(base, index);
    LabelsAreKeys(configs.Keys, base, index);
    while name in configs
      invariant index >= 1 && name == Label(base, index) && LabelsTaken(configs, base, index)
      invariant index - 1 <= |configs|
      decreases |configs| + 1 - index
    {
      assert LabelsTaken(configs, base, index + 1);
      index := index + 1;
      name := Label(base, index);
      LabelsAreKeys(configs.Keys, base, index);
    }
    assert IsLeastName(configs, base, index);
    LeastNameIs(configs, base, name);
  }

  // ----- ports

  /** The port after `steps` increments of a 32-bit counter that started at `start`. */
  function PortAfter(start: int, steps: nat): int {
    if start + steps > MAX_INT32 then start + steps - 0x1_0000_0000 else start + steps
  }

  predicate IsInt32(n: int) { MIN_INT32 <= n <= MAX_INT32 }

  ghost predicate Used(configs: Configs, port: int) {
    exists name :: name in configs && configs[name].runningPort == port
  }

  function StartPort(passedPort: int): int {
    if passedPort != 0 then passedPort else DEFAULT_PORT
  }

  ghost predicate PortsTaken(configs: Configs, start: int, steps: nat) {
    forall i: nat :: i < steps ==> Used(configs, PortAfter(start, i))
  }

  ghost predicate IsLeastPort(configs: Configs, start: int, steps: nat) {
    && steps < 0x1_0000_0000
    && !Used(configs, PortAfter(start, steps))
    && PortsTaken(configs, start, steps)
  }

  /** The number of increments that lead from one port to another. */
  function StepsTo(start: int, port: int): (steps: int)
    requires IsInt32(start) && IsInt32(port)
    ensures 0 <= steps < 0x1_0000_0000 && PortAfter(start, steps) == port
  {
    if port >= start then port - start else port - start + 0x1_0000_0000
  }

  method Exists(configs: Configs, port: int) returns (taken: bool)
    ensures taken == Used(configs, port)
  {
    var names := configs.Keys;
    while names != {}
      invariant names <= configs.Keys
      invariant forall name :: name in configs && name !in names ==> configs[name].runningPort != port
    {
      var name :| name in names;
      if configs[name].runningPort == port {
        return true;
      }
      names := names - {name};
    }
    return false;
  }

  ghost predicate IsFirstFreePort(configs: Configs, start: int, port: int) {
    exists steps :: IsLeastPort(configs, start, steps) && port == PortAfter(start, steps)
  }

  ghost predicate HasFreePort(configs: Configs) {
    exists free :: IsInt32(free) && !Used(configs, free)
  }

  /** Counting up in 32 bits from the start leads to this port. */
  predicate CountsTo(start: int, steps: nat, port: int) {
    -0x8000_0000 <= port <= 0x7FFF_FFFF && (start + steps - port) % 0x1_0000_0000 == 0
  }

  /** A port that no configuration uses, while all those counted over before it are in use. */
  ghost predicate FirstFree(configs: Configs, start: int, port: int) {
    && (forall name :: name in configs ==> configs[name].runningPort != port)
    && exists steps: nat :: CountsTo(start, steps, port) && AllUsed(configs, start, steps)
  }

  ghost predicate AllUsed(configs: Configs, start: int, steps: nat) {
    forall i: nat, q :: i < steps && CountsTo(start, i, q) ==>
      exists name :: name in configs && configs[name].runningPort == q
  }

  lemma {:induction false} FirstFreePortIs(configs: Configs, start: int, port: int)
    requires IsInt32(start) && IsFirstFreePort(configs, start, port)
    ensures FirstFree(configs, start, port)
  {
    var steps :| IsLeastPort(configs, start, steps) && port == PortAfter(start, steps);
    assert !Used(configs, port) && CountsTo(start, steps, port);
    forall i: nat, q | i < steps && CountsTo(start, i, q)
      ensures exists name :: name in configs && configs[name].runningPort == q
    {
      assert PortAfter(start, i) == q;
      assert Used(configs, q);
    }
    assert AllUsed(configs, start, steps);
  }

  /** The probe ends if some 32-bit port is free, at the first free one from the start on. */
  method CreateConfigPort(configs: Configs, passedPort: int) returns (port: int)
    requires IsInt32(passedPort) && HasFreePort(configs)
    ensures IsFirstFreePort(configs, StartPort(passedPort), port)
    ensures FirstFree(configs, if passedPort != 0 then passedPort else 9001, port)
  {
    ghost var start := StartPort(passedPort);
    ghost var free :| IsInt32(free) && !Used(configs, free);
    ghost var last := StepsTo(start, free);
    port := DEFAULT_PORT;
    if passedPort != 0 {
      port := passedPort;
    }
    ghost var steps := 0;
    var taken := Exists(configs, port);
    while taken
      invariant 0 <= steps <= last && port == PortAfter(start, steps)
      invariant taken == Used(configs, port) && PortsTaken(configs, start, steps)
      decreases last - steps
    {
      assert PortsTaken(configs, start, steps + 1);
      port := if port == MAX_INT32 then MIN_INT32 else port + 1;
      steps := steps + 1;
      taken := Exists(configs, port);
    }
    assert IsLeastPort(configs, start, steps);
    FirstFreePortIs(configs, start, port);
  }

  /** Each configuration uses one port, so a run of taken ports is no longer than their number. */
  lemma {:induction false} TakenPortsAreFew(configs: Configs, start: int, steps: nat)
    requires steps <= 0x1_0000_0000 && PortsTaken(configs, start, steps)
    ensures steps <= |configs|
    decreases steps
  {
    if steps > 0 {
      var port := PortAfter(start, steps - 1);
      assert Used(configs, port);
      var name :| name in configs && configs[name].runningPort == port;
      var others := configs - {name};
      forall i: nat | i < steps - 1
        ensures Used(others, PortAfter(start, i))
      {
        var n :| n in configs && configs[n].runningPort == PortAfter(start, i);
        assert n in others && others[n].runningPort == PortAfter(start, i);
      }
      TakenPortsAreFew(others, start, steps - 1);
      assert others.Keys == configs.Keys - {name};
      assert |others.Keys| == |configs.Keys| - 1;
    }
  }

  /** So with fewer configurations than ports the probe always ends. */
  lemma FewConfigsLeaveAFreePort(configs: Configs)
    requires |configs| < 0x1_0000_0000
    ensures HasFreePort(configs)
  {
    if forall p :: IsInt32(p) ==> Used(configs, p) {
      forall i: nat | i < 0x1_0000_0000
        ensures Used(configs, PortAfter(MIN_INT32, i))
      {
        assert IsInt32(PortAfter(MIN_INT32, i));
      }
      TakenPortsAreFew(configs, MIN_INT32, 0x1_0000_0000);
    }
  }

  // ----- folders

  function TrimRight(s: string, c: char): string {
    if s != "" && s[|s| - 1] == c then TrimRight(s[..|s| - 1], c) else s
  }

  /** `filepath.Split`: everything through the last separator, and what follows it. */
  function SplitPath(path: string): (string, string) {
    if path == "" || path[|path| - 1] == PATH_SEPARATOR then (path, "")
    else
      var (dir, file) := SplitPath(path[..|path| - 1]);
      (dir, file + [path[|path| - 1]])
  }

  predicate Under(inner: string, outer: string) {
    TrimRight(outer, PATH_SEPARATOR) + [PATH_SEPARATOR] <= inner
  }

  /** Trimming takes off the characters at the end and nothing else. */
  lemma {:induction false} TrimRightIs(s: string, c: char)
    ensures TrimRight(s, c) <= s && (TrimRight(s, c) != "" ==> TrimRight(s, c)[|TrimRight(s, c)| - 1] != c)
    ensures forall i :: |TrimRight(s, c)| <= i < |s| ==> s[i] == c
    decreases |s|
  {
    if s != "" && s[|s| - 1] == c {
      TrimRightIs(s[..|s| - 1], c);
      var r := TrimRight(s[..|s| - 1], c);
      assert forall i :: |r| <= i < |s| - 1 ==> s[..|s| - 1][i] == s[i];
    }
  }

  lemma {:induction false} SplitPathIs(path: string)
    ensures var (dir, file) := SplitPath(path);
      && dir + file == path && '/' !in file && (dir != "" ==> dir[|dir| - 1] == '/')
    decreases |path|
  {
    if path != "" && path[|path| - 1] != '/' {
      SplitPathIs(path[..|path| - 1]);
    }
  }

  /**
    Main result: a folder path is the base folder, slashes, and the bucket: the bucket is what
    follows the last slash, and the base folder ends with none.
   */
  lemma {:induction false} FolderParts(folder: string) returns (slashes: string)
    ensures folder == BaseFolder(folder) + slashes + SplitPath(folder).1
    ensures '/' !in SplitPath(folder).1 && forall c :: c in slashes ==> c == '/'
    ensures BaseFolder(folder) != "" ==> BaseFolder(folder)[|BaseFolder(folder)| - 1] != '/' && slashes != ""
  {
    SplitPathIs(folder);
    var dir := SplitPath(folder).0;
    TrimRightIs(dir, '/');
    slashes := dir[|BaseFolder(folder)|..];
    assert dir == BaseFolder(folder) + slashes;
  }

  /** Main result: one folder is under another when its path components continue the other's. */
  lemma {:induction false} UnderIs(inner: string, outer: string)
    ensures Under(inner, outer) <==> Split(TrimRight(outer, '/'), '/') < Split(inner, '/')
  {
    PrefixOfSegments(TrimRight(outer, '/'), inner, '/');
  }

  predicate Nested(f: string, g: string) { Under(f, g) || Under(g, f) }

  predicate Overlap(f: string, g: string) { f == g || Nested(f, g) }

  lemma OverlapIsSymmetric(f: string, g: string)
    ensures Overlap(f, g) == Overlap(g, f)
  {
  }

  predicate OnNode(c: MinioConfig, peerAddress: string) {
    c.storageType == LOCAL && SameNode(c.peerAddress, peerAddress)
  }

  /** What the lookup answers: a configuration to share, a conflict, or nothing. */
  datatype Lookup = Reuse(name: string) | Nests(name: string) | Nothing

  predicate SameAnswer(a: Lookup, b: Lookup) {
    a == b || (a.Nests? && b.Nests?)
  }

  /** The lookup over one order of the map. */
  function Scan(configs: Configs, order: seq<string>, peerAddress: string, folder: string): (found: Lookup)
    requires forall name :: name in order ==> name in configs
    ensures !found.Nothing? ==> found.name in configs
  {
    if order == [] then Nothing
    else
      var source := configs[order[0]];
      if OnNode(source, peerAddress) && source.localFolder == folder then Reuse(order[0])
      else if OnNode(source, peerAddress) && Nested(source.localFolder, folder) then Nests(order[0])
      else Scan(configs, order[1..], peerAddress, folder)
  }

  /** An order in which the map can be ranged over: each key once. */
  ghost predicate IsOrderOf(order: seq<string>, configs: Configs) {
    && (forall name :: name in order <==> name in configs)
    && (forall i, j :: 0 <= i < j < |order| ==> order[i] != order[j])
  }

  method FilterMiniosWithBaseFolder(configs: Configs, order: seq<string>, peerAddress: string, folder: string)
    returns (found: Lookup)
    requires IsOrderOf(order, configs)
    ensures found == Scan(configs, order, peerAddress, folder)
  {
    var i := 0;
    while i < |order|
      invariant 0 <= i <= |order|
      invariant Scan(configs, order, peerAddress, folder) == Scan(configs, order[i..], peerAddress, folder)
    {
      assert order[i] in order;
      var source := configs[order[i]];
      assert order[i..][0] == order[i] && order[i..][1..] == order[i + 1..];
      var same := PeerAddressesAreSameNode(source.peerAddress, peerAddress);
      if source.storageType == LOCAL && same {
        if source.localFolder == folder {
          return Reuse(order[i]);
        } else if Under(source.localFolder, folder) || Under(folder, source.localFolder) {
          return Nests(order[i]);
        }
      }
      i := i + 1;
    }
    return Nothing;
  }

  /** A local configuration whose address shares a segment with this one. */
  ghost predicate LocalHere(c: MinioConfig, peerAddress: string) {
    c.storageType == LOCAL && exists p :: p in Split(c.peerAddress, '|') && p in Split(peerAddress, '|')
  }

  /** Equal folders, or one below the other by their components. */
  ghost predicate SameOrNested(f: string, g: string) {
    f == g || Split(TrimRight(g, '/'), '/') < Split(f, '/') || Split(TrimRight(f, '/'), '/') < Split(g, '/')
  }

  lemma {:induction false} OnNodeIs(c: MinioConfig, peerAddress: string)
    ensures OnNode(c, peerAddress) <==> LocalHere(c, peerAddress)
  {
    if LocalHere(c, peerAddress) {
      var p :| p in Split(c.peerAddress, '|') && p in Split(peerAddress, '|');
      SharedSegment(c.peerAddress, peerAddress, p);
    }
    if OnNode(c, peerAddress) {
      var p :| p in Segments(c.peerAddress) * Segments(peerAddress);
      assert p in Split(c.peerAddress, '|') && p in Split(peerAddress, '|');
    }
  }

  lemma {:induction false} OverlapIs(f: string, g: string)
    ensures Overlap(f, g) <==> SameOrNested(f, g)
  {
    UnderIs(f, g);
    UnderIs(g, f);
  }

  /**
    Main result: the lookup answers nothing exactly when no local configuration on a shared
    segment has the same folder or one above or below it; what it answers is such a
    configuration, to be shared exactly when its folder is the same.
   */
  lemma {:induction false} LookupMeaning(configs: Configs, order: seq<string>, peerAddress: string, folder: string)
    requires IsOrderOf(order, configs)
    ensures var found := Scan(configs, order, peerAddress, folder);
      && (found.Nothing? <==> forall name :: name in configs && LocalHere(configs[name], peerAddress) ==>
            !SameOrNested(configs[name].localFolder, folder))
      && (!found.Nothing? ==>
          && LocalHere(configs[found.name], peerAddress) && SameOrNested(configs[found.name].localFolder, folder)
          && (found.Reuse? <==> configs[found.name].localFolder == folder))
  {
    ScanMeaning(configs, order, peerAddress, folder);
    var found := Scan(configs, order, peerAddress, folder);
    if found.Nothing? {
      forall name | name in configs && LocalHere(configs[name], peerAddress)
        ensures !SameOrNested(configs[name].localFolder, folder)
      {
        OnNodeIs(configs[name], peerAddress);
        OverlapIs(configs[name].localFolder, folder);
      }
    } else {
      OnNodeIs(configs[found.name], peerAddress);
      OverlapIs(configs[found.name].localFolder, folder);
    }
  }

  lemma {:induction false} ScanMeaning(configs: Configs, order: seq<string>, peerAddress: string, folder: string)
    requires forall name :: name in order ==> name in configs
    ensures Scan(configs, order, peerAddress, folder).Nothing? ==>
      forall name :: name in order && OnNode(configs[name], peerAddress) ==> !Overlap(configs[name].localFolder, folder)
    ensures !Scan(configs, order, peerAddress, folder).Nothing? ==>
      var name := Scan(configs, order, peerAddress, folder).name;
      && name in order && OnNode(configs[name], peerAddress) && Overlap(configs[name].localFolder, folder)
      && (configs[name].localFolder == folder <==> Scan(configs, order, peerAddress, folder).Reuse?)
  {
    if order != [] {
      ScanMeaning(configs, order[1..], peerAddress, folder);
    }
  }

  // ----- the invariant

  /** Configurations are stored under their names; local ones on the same node do not overlap. */
  ghost predicate Valid(configs: Configs) {
    && (forall name :: name in configs ==> configs[name].name == name)
    && PortsDiffer(configs)
    && FoldersApart(configs)
  }

  ghost predicate PortsDiffer(configs: Configs) {
    forall m, n :: m in configs && n in configs && m != n ==> configs[m].runningPort != configs[n].runningPort
  }

  predicate Clash(a: MinioConfig, b: MinioConfig) {
    OnNode(a, b.peerAddress) && b.storageType == LOCAL && Overlap(a.localFolder, b.localFolder)
  }

  ghost predicate FoldersApart(configs: Configs) {
    forall m, n :: m in configs && n in configs && m != n ==> !Clash(configs[m], configs[n])
  }

  /**
    What the invariant says: each configuration is stored under its name, no two have the same
    port, and no two local ones on a shared segment have the same folder or one below the other.
   */
  lemma {:induction false} ValidMeans(configs: Configs)
    ensures Valid(configs) <==>
      && (forall name :: name in configs ==> configs[name].name == name)
      && (forall m, n :: m in configs && n in configs && m != n ==> configs[m].runningPort != configs[n].runningPort)
      && (forall m, n | m in configs && n in configs && m != n && configs[n].storageType == LOCAL ::
        LocalHere(configs[m], configs[n].peerAddress) ==>
          !SameOrNested(configs[m].localFolder, configs[n].localFolder))
  {
    forall m, n | m in configs && n in configs
      ensures Clash(configs[m], configs[n]) <==>
        && configs[n].storageType == LOCAL && LocalHere(configs[m], configs[n].peerAddress)
        && SameOrNested(configs[m].localFolder, configs[n].localFolder)
    {
      OnNodeIs(configs[m], configs[n].peerAddress);
      OverlapIs(configs[m].localFolder, configs[n].localFolder);
    }
  }

  lemma ClashIsSymmetric(a: MinioConfig, b: MinioConfig)
    ensures Clash(a, b) == Clash(b, a)
  {
    SameNodeIsSymmetric(a.peerAddress, b.peerAddress);
  }

  // ----- one request

  /** What FactorizeMinioServers reads of a local datasource. */
  datatype Request =
    Request(folder: string, peerAddress: string, objectsPort: int, objectsServiceName: string, update: bool)

  function BaseFolder(folder: string): string {
    TrimRight(SplitPath(folder).0, PATH_SEPARATOR)
  }

  /** The error of the source, or its nil dereference when an updated source names no service. */
  datatype Outcome = Config(config: MinioConfig) | NestedPath(name: string) | NilPointer

  ghost predicate IsNewConfig(configs: Configs, request: Request, c: MinioConfig) {
    && c.storageType == LOCAL
    && c.localFolder == BaseFolder(request.folder) && c.peerAddress == request.peerAddress
    && IsLeastLabel(configs, Base(LOCAL), c.name)
    && IsFirstFreePort(configs, StartPort(request.objectsPort), c.runningPort)
  }

  /** The local branch, for one order of the lookup. */
  ghost predicate Answers(configs: Configs, order: seq<string>, request: Request, outcome: Outcome)
    requires IsOrderOf(order, configs)
  {
    match Scan(configs, order, request.peerAddress, BaseFolder(request.folder))
    case Nests(name) => outcome == NestedPath(configs[name].name)
    case Reuse(name) => outcome == Config(configs[name])
    case Nothing =>
      if !request.update then outcome.Config? && IsNewConfig(configs, request, outcome.config)
      else if request.objectsServiceName !in configs then outcome == NilPointer
      else outcome == Config(Moved(configs[request.objectsServiceName], request))
  }

  function Moved(c: MinioConfig, request: Request): MinioConfig {
    c.(localFolder := BaseFolder(request.folder), peerAddress := request.peerAddress)
  }

  /** The configurations once the result is stored under its name, as the handler does. */
  function After(configs: Configs, outcome: Outcome): Configs {
    if outcome.Config? then configs[outcome.config.name := outcome.config] else configs
  }

  /** What becomes of a request, said by the fields of the configurations and by path components. */
  ghost predicate Answered(configs: Configs, request: Request, folder: string, outcome: Outcome) {
    var clash := exists name | name in configs && LocalHere(configs[name], request.peerAddress) ::
      SameOrNested(configs[name].localFolder, folder);
    match outcome
    case NestedPath(name) =>
      && name in configs && LocalHere(configs[name], request.peerAddress)
      && SameOrNested(configs[name].localFolder, folder) && configs[name].localFolder != folder
    case NilPointer => !clash && request.update && request.objectsServiceName !in configs
    case Config(c) =>
      if clash then
        && c.name in configs && configs[c.name] == c && LocalHere(c, request.peerAddress) && c.localFolder == folder
      else if request.update then
        && request.objectsServiceName in configs && c.name == request.objectsServiceName
        && c.storageType == configs[c.name].storageType && c.runningPort == configs[c.name].runningPort
        && c.localFolder == folder && c.peerAddress == request.peerAddress
      else
        && LeastName(configs, "local", c.name) && c.storageType == LOCAL
        && c.localFolder == folder && c.peerAddress == request.peerAddress
        && FirstFree(configs, if request.objectsPort != 0 then request.objectsPort else 9001, c.runningPort)
  }

  /** Main result: every answer is the one these fields call for. */
  lemma {:induction false} AnswerMeaning(configs: Configs, order: seq<string>, request: Request, outcome: Outcome)
    requires Valid(configs) && IsOrderOf(order, configs) && IsInt32(request.objectsPort)
    requires Answers(configs, order, request, outcome)
    ensures Answered(configs, request, BaseFolder(request.folder), outcome)
  {
    hide BaseFolder, LocalHere, SameOrNested, Scan, IsLeastLabel, IsFirstFreePort, LeastName, FirstFree, FoldersApart;
    LookupMeaning(configs, order, request.peerAddress, BaseFolder(request.folder));
    if Scan(configs, order, request.peerAddress, BaseFolder(request.folder)).Nothing? && !request.update {
      LeastNameIs(configs, Base(LOCAL), outcome.config.name);
      FirstFreePortIs(configs, StartPort(request.objectsPort), outcome.config.runningPort);
    }
  }

  // ----- the code

  class DataSource {
    var folder: string
    var peerAddress: string
    var objectsPort: int
    var objectsServiceName: string
    var objectsBucket: string

    function AsRequest(update: bool): Request
      reads this
    {
      Request(folder, peerAddress, objectsPort, objectsServiceName, update)
    }
  }

  class MinioServers {
    var configs: Configs

    method FactorizeMinioServers(order: seq<string>, newSource: DataSource, update: bool) returns (outcome: Outcome)
      requires Valid(configs) && IsOrderOf(order, configs) && IsInt32(newSource.objectsPort)
      requires HasFreePort(configs)
      modifies this, newSource
      ensures Answers(old(configs), order, old(newSource.AsRequest(update)), outcome)
      ensures configs == if update then After(old(configs), outcome) else old(configs)
      ensures outcome.Config? ==>
        && newSource.objectsServiceName == outcome.config.name
        && newSource.objectsBucket == SplitPath(newSource.folder).1
      ensures !outcome.Config? ==>
        && newSource.objectsServiceName == old(newSource.objectsServiceName)
        && newSource.objectsBucket == old(newSource.objectsBucket)
      ensures newSource.folder == old(newSource.folder) && newSource.peerAddress == old(newSource.peerAddress)
      ensures newSource.objectsPort == old(newSource.objectsPort)
    {
      var (dir, bucket) := SplitPath(newSource.folder);
      var peerAddress := newSource.peerAddress;
      var dsDir := TrimRight(dir, PATH_SEPARATOR);
      var found := FilterMiniosWithBaseFolder(configs, order, peerAddress, dsDir);
      ScanMeaning(configs, order, peerAddress, dsDir);
      var config: MinioConfig;
      if found.Nests? {
        return NestedPath(configs[found.name].name);
      } else if found.Reuse? {
        config := configs[found.name];
        assert configs[config.name := config] == configs;
      } else if update {
        if newSource.objectsServiceName !in configs {
          return NilPointer;
        }
        config := configs[newSource.objectsServiceName];
        config := config.(localFolder := dsDir);
        config := config.(peerAddress := peerAddress);
        configs := configs[newSource.objectsServiceName := config];
      } else {
        var name := CreateConfigName(configs, LOCAL);
        var port := CreateConfigPort(configs, newSource.objectsPort);
        config := MinioConfig(name, LOCAL, dsDir, port, peerAddress);
      }
      newSource.objectsBucket := bucket;
      newSource.objectsServiceName := config.name;
      return Config(config);
    }

    /** The step of the datasource handler: the result is stored under its name. */
    method PutDataSource(order: seq<string>, newSource: DataSource, update: bool) returns (outcome: Outcome)
      requires Valid(configs) && IsOrderOf(order, configs) && IsInt32(newSource.objectsPort)
      requires HasFreePort(configs)
      modifies this, newSource
      ensures Answers(old(configs), order, old(newSource.AsRequest(update)), outcome)
      ensures Answered(old(configs), old(newSource.AsRequest(update)), BaseFolder(newSource.folder), outcome)
      ensures configs == After(old(configs), outcome)
      ensures Valid(configs)
    {
      hide Valid, Answers, Answered, IsOrderOf, BaseFolder;
      ghost var request := newSource.AsRequest(update);
      outcome := FactorizeMinioServers(order, newSource, update);
      StepKeepsValid(old(configs), order, request, outcome);
      AnswerMeaning(old(configs), order, request, outcome);
      if outcome.Config? {
        configs := configs[outcome.config.name := outcome.config];
      }
    }
  }

  // ----- what every step keeps

  lemma FreshNameAndPort(configs: Configs, request: Request, c: MinioConfig)
    requires IsNewConfig(configs, request, c)
    ensures c.name !in configs && forall name :: name in configs ==> configs[name].runningPort != c.runningPort
  {
    var index :| IsLeastName(configs, Base(LOCAL), index) && c.name == Label(Base(LOCAL), index);
    var steps :| IsLeastPort(configs, StartPort(request.objectsPort), steps)
      && c.runningPort == PortAfter(StartPort(request.objectsPort), steps);
  }

  /** A configuration stored under its name keeps the folders apart if it clashes with no other. */
  lemma PutKeepsFoldersApart(configs: Configs, c: MinioConfig)
    requires FoldersApart(configs)
    requires forall name :: name in configs && name != c.name ==> !Clash(configs[name], c)
    ensures FoldersApart(configs[c.name := c])
  {
    forall name
      ensures name in configs && name != c.name ==> !Clash(c, configs[name])
    {
      if name in configs {
        ClashIsSymmetric(configs[name], c);
      }
    }
  }

  lemma NothingFoundClashesNot(configs: Configs, order: seq<string>, request: Request, c: MinioConfig)
    requires IsOrderOf(order, configs) && Scan(configs, order, request.peerAddress, BaseFolder(request.folder)).Nothing?
    requires c.localFolder == BaseFolder(request.folder) && c.peerAddress == request.peerAddress
    ensures forall name :: name in configs ==> !Clash(configs[name], c)
  {
    ScanMeaning(configs, order, request.peerAddress, BaseFolder(request.folder));
  }

  /** Whatever the order of the lookup, a request keeps names, ports and folders apart. */
  lemma StepKeepsValid(configs: Configs, order: seq<string>, request: Request, outcome: Outcome)
    requires Valid(configs) && IsOrderOf(order, configs) && Answers(configs, order, request, outcome)
    ensures Valid(After(configs, outcome))
  {
    hide Clash, BaseFolder, IsLeastLabel, IsFirstFreePort;
    ScanMeaning(configs, order, request.peerAddress, BaseFolder(request.folder));
    match Scan(configs, order, request.peerAddress, BaseFolder(request.folder))
    case Nests(name) =>
    case Reuse(name) =>
      assert After(configs, outcome) == configs;
    case Nothing =>
      if outcome.Config? {
        NothingFoundClashesNot(configs, order, request, outcome.config);
        PutKeepsFoldersApart(configs, outcome.config);
        if !request.update {
          FreshNameAndPort(configs, request, outcome.config);
        }
      }
  }

  // ----- runs

  datatype Event = Event(order: seq<string>, request: Request, outcome: Outcome)

  /** The requests are answered one after another, each with its own order of the map. */
  ghost predicate IsRun(configs: Configs, events: seq<Event>)
    decreases |events|
  {
    events == [] || (
      && IsOrderOf(events[0].order, configs)
      && Answers(configs, events[0].order, events[0].request, events[0].outcome)
      && IsRun(After(configs, events[0].outcome), events[1..])
    )
  }

  function RunOf(configs: Configs, events: seq<Event>): Configs
    decreases |events|
  {
    if events == [] then configs else RunOf(After(configs, events[0].outcome), events[1..])
  }

  /**
    Main result: names and ports stay pairwise distinct and folders on one node apart, over
    every run; and a configuration, once there, keeps its name and its port.
   */
  lemma {:induction false} EveryRunKeepsValid(configs: Configs, events: seq<Event>)
    requires Valid(configs) && IsRun(configs, events)
    ensures Valid(RunOf(configs, events))
    ensures forall name :: name in configs ==>
      name in RunOf(configs, events) && RunOf(configs, events)[name].runningPort == configs[name].runningPort
    decreases |events|
  {
    hide Valid, Answers, IsOrderOf;
    if events != [] {
      var e := events[0];
      StepKeepsValid(configs, e.order, e.request, e.outcome);
      StepKeepsPorts(configs, e.order, e.request, e.outcome);
      EveryRunKeepsValid(After(configs, e.outcome), events[1..]);
    }
  }

  lemma StepKeepsPorts(configs: Configs, order: seq<string>, request: Request, outcome: Outcome)
    requires Valid(configs) && IsOrderOf(order, configs) && Answers(configs, order, request, outcome)
    ensures forall name :: name in configs ==>
      name in After(configs, outcome) && After(configs, outcome)[name].runningPort == configs[name].runningPort
  {
    hide BaseFolder, IsLeastLabel, IsFirstFreePort, Scan, FoldersApart, PortsDiffer;
    if outcome.Config? && !request.update
      && Scan(configs, order, request.peerAddress, BaseFolder(request.folder)).Nothing? {
      FreshNameAndPort(configs, request, outcome.config);
    }
  }

  /** A request has one answer for each order of the lookup. */
  lemma AnswersAreUnique(configs: Configs, order: seq<string>, request: Request, o1: Outcome, o2: Outcome)
    requires IsOrderOf(order, configs)
    requires Answers(configs, order, request, o1) && Answers(configs, order, request, o2)
    ensures o1 == o2
  {
    hide BaseFolder;
    if Scan(configs, order, request.peerAddress, BaseFolder(request.folder)).Nothing? && !request.update {
      LeastLabelIsUnique(configs, Base(LOCAL), o1.config.name, o2.config.name);
      FirstFreePortIsUnique(configs, StartPort(request.objectsPort), o1.config.runningPort, o2.config.runningPort);
    }
  }

  lemma LeastLabelIsUnique(configs: Configs, base: string, a: string, b: string)
    requires IsLeastLabel(configs, base, a) && IsLeastLabel(configs, base, b)
    ensures a == b
  {
    var i: nat :| IsLeastName(configs, base, i) && a == Label(base, i);
    var j: nat :| IsLeastName(configs, base, j) && b == Label(base, j);
  }

  lemma FirstFreePortIsUnique(configs: Configs, start: int, a: int, b: int)
    requires IsFirstFreePort(configs, start, a) && IsFirstFreePort(configs, start, b)
    ensures a == b
  {
    var i: nat :| IsLeastPort(configs, start, i) && a == PortAfter(start, i);
    var j: nat :| IsLeastPort(configs, start, j) && b == PortAfter(start, j);
  }

  // ----- the order of the lookup

  ghost predicate OrderFree(configs: Configs, peerAddress: string, folder: string) {
    forall o1, o2 :: IsOrderOf(o1, configs) && IsOrderOf(o2, configs) ==>
      SameAnswer(Scan(configs, o1, peerAddress, folder), Scan(configs, o2, peerAddress, folder))
  }

  lemma AnswersAgree(configs: Configs, o1: seq<string>, o2: seq<string>, peerAddress: string, folder: string)
    requires Valid(configs) && SingleSegment(peerAddress) && IsOrderOf(o1, configs) && IsOrderOf(o2, configs)
    ensures SameAnswer(Scan(configs, o1, peerAddress, folder), Scan(configs, o2, peerAddress, folder))
  {
    hide Scan, Segments, SameNode, Nested, PortsDiffer, SingleSegment;
    ScanMeaning(configs, o1, peerAddress, folder);
    ScanMeaning(configs, o2, peerAddress, folder);
    var r1, r2 := Scan(configs, o1, peerAddress, folder), Scan(configs, o2, peerAddress, folder);
    if !r1.Nothing? && !r2.Nothing? && r1.name != r2.name {
      var a, b := configs[r1.name], configs[r2.name];
      TransitiveThroughIff(peerAddress);
      SameNodeIsSymmetric(b.peerAddress, peerAddress);
      assert SameNode(a.peerAddress, b.peerAddress);
      assert !Clash(a, b);
      OverlapIsSymmetric(b.localFolder, folder);
    }
  }

  ghost predicate Reachable(configs: Configs) {
    exists events :: IsRun(map[], events) && RunOf(map[], events) == configs
  }

  /**
    Main result: the answer of the lookup does not depend on the order of the map, for all
    the maps that runs produce and all folders, if and only if the segments of the requested
    peer address are all the same.
   */
  lemma OrderIndependentIff(peerAddress: string)
    ensures (forall configs, folder :: Reachable(configs) ==> OrderFree(configs, peerAddress, folder))
      <==> SingleSegment(peerAddress)
  {
    if SingleSegment(peerAddress) {
      forall configs, folder | Reachable(configs)
        ensures OrderFree(configs, peerAddress, folder)
      {
        ReachableIsValid(configs);
        forall o1, o2 | IsOrderOf(o1, configs) && IsOrderOf(o2, configs)
          ensures SameAnswer(Scan(configs, o1, peerAddress, folder), Scan(configs, o2, peerAddress, folder))
        {
          AnswersAgree(configs, o1, o2, peerAddress, folder);
        }
      }
    } else {
      var p, q :| p in Segments(peerAddress) && q in Segments(peerAddress) && p != q;
      TwoServicesAreReached(p, q, peerAddress);
      TwoServicesOrder(p, q, peerAddress);
    }
  }

  lemma ReachableIsValid(configs: Configs)
    requires Reachable(configs)
    ensures Valid(configs)
  {
    var events :| IsRun(map[], events) && RunOf(map[], events) == configs;
    EveryRunKeepsValid(map[], events);
  }

  function Outer(p: string): MinioConfig {
    MinioConfig("local1", LOCAL, "/x", 9001, p)
  }

  function Inner(q: string): MinioConfig {
    MinioConfig("local2", LOCAL, "/x/y", 9002, q)
  }

  function TwoServices(p: string, q: string): Configs {
    map["local1" := Outer(p), "local2" := Inner(q)]
  }

  /** Nested folders on two nodes, and a request for the outer one on an address that names both. */
  lemma TwoServicesOrder(p: string, q: string, peerAddress: string)
    requires p in Segments(peerAddress) && q in Segments(peerAddress) && p != q
    ensures !OrderFree(TwoServices(p, q), peerAddress, "/x")
  {
    SegmentAsAddress(peerAddress, p);
    SegmentAsAddress(peerAddress, q);
    var configs := TwoServices(p, q);
    var o1, o2 := ["local1", "local2"], ["local2", "local1"];
    NestedFolders();
    assert IsOrderOf(o1, configs) && IsOrderOf(o2, configs);
    assert Scan(configs, o1, peerAddress, "/x") == Reuse("local1");
    assert Scan(configs, o2, peerAddress, "/x") == Nests("local2");
  }

  lemma NestedFolders()
    ensures Nested("/x/y", "/x") && "/x/y" != "/x"
  {
    assert TrimRight("/x", PATH_SEPARATOR) == "/x";
  }

  lemma TwoServicesAreReached(p: string, q: string, peerAddress: string)
    requires p in Segments(peerAddress) && q in Segments(peerAddress) && p != q
    ensures Reachable(TwoServices(p, q))
  {
    hide Answers, IsOrderOf, IsRun, RunOf;
    var e1 := Event([], Request("/x/d", p, 0, "", false), Config(Outer(p)));
    var e2 := Event(["local1"], Request("/x/y/d", q, 0, "", false), Config(Inner(q)));
    var one: Configs := map["local1" := Outer(p)];
    FirstService(p);
    SecondService(p, q, peerAddress);
    assert After(map[], e1.outcome) == one && After(one, e2.outcome) == TwoServices(p, q);
    TwoEvents(map[], e1, e2);
  }

  /** Of two reachable services on "a" and "b", the one met first decides what "a|b" gets for the outer folder. */
  lemma MapOrderExample()
    ensures Reachable(TwoServices("a", "b")) && !OrderFree(TwoServices("a", "b"), "a|b", "/x")
  {
    TwoSegments();
    assert "a" != "b";
    TwoServicesAreReached("a", "b", "a|b");
    TwoServicesOrder("a", "b", "a|b");
  }

  lemma TwoEvents(configs: Configs, e1: Event, e2: Event)
    requires IsOrderOf(e1.order, configs) && Answers(configs, e1.order, e1.request, e1.outcome)
    requires IsOrderOf(e2.order, After(configs, e1.outcome))
    requires Answers(After(configs, e1.outcome), e2.order, e2.request, e2.outcome)
    ensures IsRun(configs, [e1, e2])
    ensures RunOf(configs, [e1, e2]) == After(After(configs, e1.outcome), e2.outcome)
  {
    hide Answers, IsOrderOf, After;
    var next := After(configs, e1.outcome);
    assert [e1, e2][1..] == [e2] && [e2][1..] == [];
    assert IsRun(next, [e2]) && RunOf(next, [e2]) == After(next, e2.outcome);
  }

  lemma FirstService(p: string)
    ensures IsOrderOf([], map[])
    ensures Answers(map[], [], Request("/x/d", p, 0, "", false), Config(Outer(p)))
  {
    assert BaseFolder("/x/d") == "/x";
    assert Label("local", 1) == "local1";
    assert IsLeastName(map[], "local", 1);
    assert IsLeastPort(map[], 9001, 0);
  }

  lemma SecondService(p: string, q: string, peerAddress: string)
    requires p in Segments(peerAddress) && q in Segments(peerAddress) && p != q
    ensures IsOrderOf(["local1"], map["local1" := Outer(p)])
    ensures Answers(map["local1" := Outer(p)], ["local1"], Request("/x/y/d", q, 0, "", false), Config(Inner(q)))
  {
    var one: Configs := map["local1" := Outer(p)];
    SegmentAsAddress(peerAddress, p);
    SegmentAsAddress(peerAddress, q);
    assert BaseFolder("/x/y/d") == "/x/y";
    assert Label("local", 1) == "local1" && Label("local", 2) == "local2";
    assert IsLeastName(one, "local", 2);
    assert one["local1"].runningPort == PortAfter(9001, 0);
    assert IsLeastPort(one, 9001, 1);
  }
}

/**
 * The asset processor of asset-watcher: it pulls IP-address records from the
 * cloud asset inventory, derives each record's project and address, drops the
 * records that the configured filters reject and maps the survivors, in order,
 * to `ProcessedAsset` values for the renderer.
 */
module Processor {
  import opened Wrappers
  import opened Strings

  /** The placeholder for a field that cannot be derived. */
  const NotAvailable := "N/A"
  /** The parent type of a record that belongs directly to a project. */
  const ProjectParentType := "cloudresourcemanager.googleapis.com/Project"
  /** The attribute that holds an address record's IP address. */
  const AddressKey := "address"
  /** The lifecycle state that `excludeReserved` filters out. */
  const ReservedState := "RESERVED"
  /** The context put in front of an error from the record source. */
  const ClientErrorPrefix := "failed to create asset client: "
  /** The separator of the project lists in the configuration. */
  const ListSeparator := ","

  /** A dynamically typed attribute value (a protobuf `structpb.Value`); nested contents are not modelled. */
  datatype Value =
    | NullValue
    | NumberValue(number: real)
    | StringValue(text: string)
    | BoolValue(flag: bool)
    | StructValue
    | ListValue
    | KindUnset

  /** The record's additional attributes: a struct whose field map may itself be nil; a field may hold a nil value. */
  datatype Attributes = Attributes(fields: Option<map<string, Option<Value>>>)

  /** A protobuf timestamp. */
  datatype Timestamp = Timestamp(seconds: int, nanos: int)

  /** The fields of one search result that the processor reads. */
  datatype Record = Record(
    displayName: string,
    location: string,
    state: string,
    parentAssetType: string,
    parentFullResourceName: string,
    additionalAttributes: Option<Attributes>,
    createTime: Timestamp)

  /** One row of the output. */
  datatype ProcessedAsset = ProcessedAsset(
    name: string,
    location: string,
    status: string,
    ipAddress: string,
    project: string,
    createdAt: string)

  /** The configuration fields the processor reads; the project lists are comma-separated. */
  datatype Config = Config(excludeReserved: bool, excludeProjects: string, includeProjects: string)

  /** One answer of the record source: a record, an error, or the end marker. */
  datatype Step = Asset(record: Record) | Error(message: string) | Done

  // ---------------------------------------------------------------------------
  // splitString

  /** The trimmed pieces, in order, leaving out those that are blank. */
  function Compact(parts: seq<string>): (r: seq<string>)
    ensures forall k :: 0 <= k < |r| ==> r[k] != [] && IsTrimmed(r[k])
  {
    if parts == [] then []
    else
      var trimmed := Trim(parts[|parts| - 1]);
      Compact(parts[..|parts| - 1]) + (if trimmed == [] then [] else [trimmed])
  }

  /**
   * Splits `s` at every occurrence of `separator`, trims each piece and keeps
   * the pieces that are not empty.
   */
  method SplitString(s: string, separator: string) returns (result: seq<string>)
    ensures result == Compact(Split(s, separator))
    ensures IsBlank(s) ==> result == []
    ensures forall k :: 0 <= k < |result| ==> result[k] != [] && IsTrimmed(result[k])
  {
    if Trim(s) == [] {
      BlankSplitsToNothing(s, separator);
      return [];
    }
    var parts := Split(s, separator);
    result := [];
    for k := 0 to |parts|
      invariant result == Compact(parts[..k])
    {
      assert parts[..k + 1][..k] == parts[..k];
      var trimmed := Trim(parts[k]);
      if trimmed != [] {
        result := result + [trimmed];
      }
    }
    assert parts[..|parts|] == parts;
  }

  /** Compacting never gives more strings than there are pieces. */
  lemma {:induction false} CompactLength(parts: seq<string>)
    ensures |Compact(parts)| <= |parts|
  {
    if parts != [] {
      CompactLength(parts[..|parts| - 1]);
    }
  }

  /** Compacting distributes over concatenation: the order of the pieces is kept. */
  lemma {:induction false} CompactAppend(a: seq<string>, b: seq<string>)
    ensures Compact(a + b) == Compact(a) + Compact(b)
    decreases |b|
  {
    if b == [] {
      assert a + b == a;
    } else {
      var b' := b[..|b| - 1];
      var x := b[|b| - 1];
      var tail := if Trim(x) == [] then [] else [Trim(x)];
      CompactAppend(a, b');
      assert (a + b)[..|a + b| - 1] == a + b';
      assert (a + b)[|a + b| - 1] == x;
      assert Compact(a + b) == Compact(a + b') + tail;
      assert Compact(b) == Compact(b') + tail;
    }
  }

  /** A string survives compacting exactly when it is the non-empty trim of some piece. */
  lemma {:induction false} CompactMembers(parts: seq<string>, x: string)
    ensures x in Compact(parts) <==> x != [] && exists j :: 0 <= j < |parts| && Trim(parts[j]) == x
  {
    if parts != [] {
      var init := parts[..|parts| - 1];
      assert Compact(parts) == Compact(init) + (if Trim(parts[|parts| - 1]) == [] then [] else [Trim(parts[|parts| - 1])]);
      CompactMembers(init, x);
      if x != [] && exists j :: 0 <= j < |parts| && Trim(parts[j]) == x {
        var j :| 0 <= j < |parts| && Trim(parts[j]) == x;
        if j < |init| {
          assert init[j] == parts[j];
        }
      }
      if x in Compact(init) {
        var j :| 0 <= j < |init| && Trim(init[j]) == x;
        assert parts[j] == init[j];
      }
    }
  }

  /** Compacting gives nothing exactly when every piece is blank. */
  lemma {:induction false} CompactEmpty(parts: seq<string>)
    ensures Compact(parts) == [] <==> forall j :: 0 <= j < |parts| ==> IsBlank(parts[j])
  {
    if parts != [] {
      var init := parts[..|parts| - 1];
      CompactEmpty(init);
      if Compact(parts) == [] {
        assert Compact(init) == [];
        forall j | 0 <= j < |parts| ensures IsBlank(parts[j]) {
          if j < |init| { assert parts[j] == init[j]; }
        }
      }
    }
  }

  /** Every piece of a blank string is blank. */
  lemma {:induction false} JoinBlank(parts: seq<string>, sep: string, j: nat)
    requires IsBlank(Join(parts, sep))
    requires j < |parts|
    ensures IsBlank(parts[j])
  {
    if |parts| > 1 {
      var rest := Join(parts[1..], sep);
      assert Join(parts, sep) == parts[0] + sep + rest;
      if j == 0 {
        forall k | 0 <= k < |parts[0]| ensures IsSpace(parts[0][k]) {
          assert parts[0][k] == Join(parts, sep)[k];
        }
      } else {
        forall k | 0 <= k < |rest| ensures IsSpace(rest[k]) {
          assert rest[k] == Join(parts, sep)[|parts[0]| + |sep| + k];
        }
        JoinBlank(parts[1..], sep, j - 1);
      }
    }
  }

  /** A blank input gives no pieces: the early return of `splitString` agrees with its loop. */
  lemma BlankSplitsToNothing(s: string, sep: string)
    requires IsBlank(s)
    ensures Compact(Split(s, sep)) == []
  {
    var parts := Split(s, sep);
    JoinSplit(s, sep);
    forall j | 0 <= j < |parts| ensures IsBlank(parts[j]) {
      JoinBlank(parts, sep, j);
    }
    CompactEmpty(parts);
  }

  /** An empty piece, wherever it stands among the pieces, contributes nothing. */
  lemma EmptyPieceVanishes(a: seq<string>, b: seq<string>)
    ensures Compact(a + [""] + b) == Compact(a) + Compact(b)
  {
    assert Trim("") == [];
    assert Compact([""]) == [] by { assert [""][..0] == []; }
    CompactAppend(a + [""], b);
    CompactAppend(a, [""]);
  }

  /** A leading separator gives an empty first piece, which compacting drops. */
  lemma LeadingSeparatorVanishes(s: string, sep: string)
    requires sep != []
    ensures Split(sep + s, sep) == [""] + Split(s, sep)
    ensures Compact(Split(sep + s, sep)) == Compact(Split(s, sep))
  {
    SplitLeadingSeparator(s, sep);
    EmptyPieceVanishes([], Split(s, sep));
    assert [] + [""] + Split(s, sep) == [""] + Split(s, sep);
  }

  /** A trailing one-character separator gives an empty last piece, which compacting drops. */
  lemma TrailingSeparatorVanishes(s: string, c: char)
    ensures Compact(Split(s + [c], [c])) == Compact(Split(s, [c]))
  {
    SplitTrailing(s, c);
    EmptyPieceVanishes(Split(s, [c]), []);
    assert Split(s, [c]) + [""] + [] == Split(s, [c]) + [""];
    assert Split(s, [c]) + [] == Split(s, [c]);
  }

  /** A one-character separator doubled gives the same result as the separator alone. */
  lemma DoubleSeparatorVanishes(a: string, b: string, c: char)
    ensures Compact(Split(a + [c, c] + b, [c])) == Compact(Split(a + [c] + b, [c]))
  {
    SplitDouble(a, b, c);
    EmptyPieceVanishes(Split(a, [c]), Split(b, [c]));
    SplitAround(a, b, c);
    CompactAppend(Split(a, [c]), Split(b, [c]));
  }

  // ---------------------------------------------------------------------------
  // getIPAddress

  /** The record's attributes hold the string `ip` under the address key. */
  predicate HasAddress(r: Record, ip: string) {
    && r.additionalAttributes.Some?
    && r.additionalAttributes.value.fields.Some?
    && AddressKey in r.additionalAttributes.value.fields.value
    && r.additionalAttributes.value.fields.value[AddressKey] == Some(StringValue(ip))
  }

  /**
   * The string value of the record's address attribute; `NotAvailable` when
   * the attributes, their field map, the key or a non-nil value is missing,
   * or the value is not a string.
   */
  function GetIPAddress(r: Record): (ip: string)
    ensures ip == NotAvailable || HasAddress(r, ip)
  {
    var ipAddress := NotAvailable;
    if r.additionalAttributes.None? || r.additionalAttributes.value.fields.None? then ipAddress
    else
      var fields := r.additionalAttributes.value.fields.value;
      if AddressKey in fields && fields[AddressKey].Some? && fields[AddressKey].value.StringValue? then
        fields[AddressKey].value.text
      else ipAddress
  }

  /** The address is the stored string exactly when there is one, and `NotAvailable` otherwise. */
  lemma GetIPAddressSpec(r: Record)
    ensures forall v :: HasAddress(r, v) ==> GetIPAddress(r) == v
    ensures (forall v :: !HasAddress(r, v)) ==> GetIPAddress(r) == NotAvailable
  {
    var fields := if r.additionalAttributes.Some? && r.additionalAttributes.value.fields.Some?
      then r.additionalAttributes.value.fields.value else map[];
    if r.additionalAttributes.Some? && r.additionalAttributes.value.fields.Some?
       && AddressKey in fields && fields[AddressKey].Some? && fields[AddressKey].value.StringValue? {
      assert HasAddress(r, fields[AddressKey].value.text);
    }
  }

  /** A number stored under the address key is not an address. */
  lemma NumericAddressIgnored(r: Record, n: real)
    requires r.additionalAttributes == Some(Attributes(Some(map[AddressKey := Some(NumberValue(n))])))
    ensures GetIPAddress(r) == NotAvailable
  {
    assert forall v :: !HasAddress(r, v);
  }

  // ---------------------------------------------------------------------------
  // getProjectID

  /** `id` is everything after the last slash of `path`, or all of `path` when it has no slash. */
  predicate IsLastSegment(id: string, path: string) {
    && |id| <= |path| && path[|path| - |id|..] == id
    && (forall k :: 0 <= k < |id| ==> id[k] != '/')
    && (|id| < |path| ==> path[|path| - |id| - 1] == '/')
  }

  /** Every path has exactly one last segment. */
  lemma LastSegmentUnique(a: string, b: string, path: string)
    requires IsLastSegment(a, path) && IsLastSegment(b, path)
    ensures a == b
  {
  }

  /** The last piece of a split on "/" is the path's last segment. */
  lemma SplitLastSegment(path: string)
    requires |Split(path, "/")| > 0
    ensures IsLastSegment(Last(Split(path, "/")), path)
  {
    SplitLastPiece(path, "/");
    LastPieceSlashFree(path);
    SuffixAfterSlash(path, Last(Split(path, "/")), |Split(path, "/")| > 1);
  }

  /** A slash-free suffix that is the whole path, or that follows a slash, is the path's last segment. */
  lemma SuffixAfterSlash(path: string, last: string, afterSlash: bool)
    requires |last| <= |path| && path[|path| - |last|..] == last
    requires forall k :: 0 <= k < |last| ==> last[k] != '/'
    requires !afterSlash ==> last == path
    requires afterSlash ==> OccursAt(path, "/", |path| - |last| - 1)
    ensures IsLastSegment(last, path)
  {
    if afterSlash {
      assert path[|path| - |last| - 1..|path| - |last|] == "/";
    }
  }

  /** The last piece of a split on "/" holds no slash. */
  lemma LastPieceSlashFree(path: string)
    requires |Split(path, "/")| > 0
    ensures forall k :: 0 <= k < |Last(Split(path, "/"))| ==> Last(Split(path, "/"))[k] != '/'
  {
    var parts := Split(path, "/");
    forall k ensures !OccursAt(Last(parts), "/", k) {
      SplitPiecesFree(path, "/", |parts| - 1, k);
    }
    CharFree(Last(parts), '/');
  }

  /** A string in which the one-character string `[c]` does not occur does not hold `c`. */
  lemma CharFree(x: string, c: char)
    requires forall k :: !OccursAt(x, [c], k)
    ensures forall k :: 0 <= k < |x| ==> x[k] != c
  {
    forall k | 0 <= k < |x| ensures x[k] != c {
      assert !OccursAt(x, [c], k);
      assert x[k..k + 1] == [x[k]];
    }
  }

  /**
   * The project of a record whose parent is a project: the last segment of the
   * parent's resource name; `NotAvailable` for any other parent type.
   */
  function GetProjectID(r: Record): (id: string)
    ensures r.parentAssetType != ProjectParentType ==> id == NotAvailable
  {
    var projectID := NotAvailable;
    if r.parentAssetType == ProjectParentType then
      var parts := Split(r.parentFullResourceName, "/");
      if |parts| > 0 then Last(parts) else projectID
    else projectID
  }

  /**
   * The project is `NotAvailable` for any parent but a project, and the last
   * segment of the parent's resource name for a project parent.
   */
  lemma GetProjectIDSpec(r: Record)
    ensures r.parentAssetType != ProjectParentType ==> GetProjectID(r) == NotAvailable
    ensures r.parentAssetType == ProjectParentType ==> IsLastSegment(GetProjectID(r), r.parentFullResourceName)
  {
    if r.parentAssetType == ProjectParentType {
      SplitNonEmpty(r.parentFullResourceName, "/");
      SplitLastSegment(r.parentFullResourceName);
    }
  }

  /** A project path without any slash is its own project. */
  lemma ProjectIDWithoutSlash(r: Record)
    requires r.parentAssetType == ProjectParentType
    requires forall k :: 0 <= k < |r.parentFullResourceName| ==> r.parentFullResourceName[k] != '/'
    ensures GetProjectID(r) == r.parentFullResourceName
  {
    GetProjectIDSpec(r);
    var path := r.parentFullResourceName;
    var id := GetProjectID(r);
    assert path[|path| - |id|..] == path[0..];
  }

  /** A project path that ends in a slash (among them "//") gives the empty project. */
  lemma ProjectIDTrailingSlash(r: Record)
    requires r.parentAssetType == ProjectParentType
    requires |r.parentFullResourceName| > 0
    requires r.parentFullResourceName[|r.parentFullResourceName| - 1] == '/'
    ensures GetProjectID(r) == ""
  {
    GetProjectIDSpec(r);
  }

  /** The resource name of a project parent: its project is what follows "projects/". */
  lemma ProjectIDOfProjectPath(r: Record, project: string)
    requires r.parentAssetType == ProjectParentType
    requires forall k :: 0 <= k < |project| ==> project[k] != '/'
    requires r.parentFullResourceName == "//cloudresourcemanager.googleapis.com/projects/" + project
    ensures GetProjectID(r) == project
  {
    GetProjectIDSpec(r);
    var path := r.parentFullResourceName;
    var prefix := "//cloudresourcemanager.googleapis.com/projects/";
    assert path[|path| - |project|..] == project;
    assert path[|path| - |project| - 1] == prefix[|prefix| - 1];
    LastSegmentUnique(GetProjectID(r), project, path);
  }

  // ---------------------------------------------------------------------------
  // ProcessAssets

  /** The filters after the configured lists have been split. */
  datatype Filters = Filters(excludeReserved: bool, excludeProjects: seq<string>, includeProjects: seq<string>)

  /** The filters a configuration stands for. */
  function FiltersOf(cfg: Config): (f: Filters)
    ensures f.excludeReserved == cfg.excludeReserved
    ensures IsBlank(cfg.excludeProjects) ==> f.excludeProjects == []
    ensures IsBlank(cfg.includeProjects) ==> f.includeProjects == []
    ensures forall k :: 0 <= k < |f.excludeProjects| ==> f.excludeProjects[k] != [] && IsTrimmed(f.excludeProjects[k])
    ensures forall k :: 0 <= k < |f.includeProjects| ==> f.includeProjects[k] != [] && IsTrimmed(f.includeProjects[k])
  {
    BlankListIsEmpty(cfg.excludeProjects);
    BlankListIsEmpty(cfg.includeProjects);
    Filters(cfg.excludeReserved,
            Compact(Split(cfg.excludeProjects, ListSeparator)),
            Compact(Split(cfg.includeProjects, ListSeparator)))
  }

  /** A blank project list configures no project. */
  lemma BlankListIsEmpty(s: string)
    ensures IsBlank(s) ==> Compact(Split(s, ListSeparator)) == []
  {
    if IsBlank(s) {
      BlankSplitsToNothing(s, ListSeparator);
    }
  }

  /**
   * A record is kept unless it is reserved while reserved records are excluded,
   * or its project is excluded, or an include list is given that lacks its project.
   */
  predicate Keep(f: Filters, r: Record)
    ensures GetProjectID(r) in f.excludeProjects ==> !Keep(f, r)
  {
    var project := GetProjectID(r);
    && !(f.excludeReserved && r.state == ReservedState)
    && project !in f.excludeProjects
    && (|f.includeProjects| == 0 || project in f.includeProjects)
  }

  /** The output row for a record. */
  function ToProcessedAsset(r: Record, formatTime: Timestamp -> string): (a: ProcessedAsset)
    ensures a.ipAddress == NotAvailable || HasAddress(r, a.ipAddress)
    ensures r.parentAssetType != ProjectParentType ==> a.project == NotAvailable
  {
    ProcessedAsset(
      name := r.displayName,
      location := r.location,
      status := r.state,
      ipAddress := GetIPAddress(r),
      project := GetProjectID(r),
      createdAt := formatTime(r.createTime))
  }

  /** The rows for the kept records, in input order. */
  function Select(f: Filters, formatTime: Timestamp -> string, records: seq<Record>): (out: seq<ProcessedAsset>)
    ensures |out| <= |records|
  {
    if records == [] then []
    else
      var r := records[|records| - 1];
      Select(f, formatTime, records[..|records| - 1]) + (if Keep(f, r) then [ToProcessedAsset(r, formatTime)] else [])
  }

  /** The records carried by the steps, in order. */
  function AssetsIn(steps: seq<Step>): (records: seq<Record>)
    ensures |records| <= |steps|
  {
    if steps == [] then []
    else
      var s := steps[|steps| - 1];
      AssetsIn(steps[..|steps| - 1]) + (if s.Asset? then [s.record] else [])
  }

  /** How many records the source yields before its first error or end marker. */
  function ReadCount(steps: seq<Step>): (n: nat)
    ensures n <= |steps|
    ensures forall k :: 0 <= k < n ==> steps[k].Asset?
    ensures n < |steps| ==> !steps[n].Asset?
  {
    if steps == [] || !steps[0].Asset? then 0 else 1 + ReadCount(steps[1..])
  }

  /**
   * The record source, answering successive calls of `Next` from a fixed list
   * of answers. Errors and the end marker are sticky, and once the list is used
   * up every answer is the end marker.
   */
  class AssetIterator {
    const steps: seq<Step>
    var pos: nat

    ghost predicate Valid()
      reads this
    {
      pos <= |steps|
    }

    /** The answers still to come. */
    function Remaining(): seq<Step>
      reads this
      requires Valid()
    {
      steps[pos..]
    }

    constructor (steps: seq<Step>)
      ensures Valid() && this.steps == steps && pos == 0
    {
      this.steps := steps;
      pos := 0;
    }

    /** The next answer; only a record moves the source forward. */
    method Next() returns (s: Step)
      requires Valid()
      modifies this
      ensures Valid()
      ensures s == if old(pos) < |steps| then steps[old(pos)] else Done
      ensures pos == if s.Asset? then old(pos) + 1 else old(pos)
    {
      s := if pos < |steps| then steps[pos] else Done;
      if s.Asset? {
        pos := pos + 1;
      }
    }
  }

  /**
   * Reads records until the end marker and returns the rows of those the
   * configuration keeps; an error from the source discards every row and is
   * returned with context.
   */
  method ProcessAssets(cfg: Config, assets: AssetIterator, formatTime: Timestamp -> string)
    returns (result: Result<seq<ProcessedAsset>, string>)
    requires assets.Valid()
    modifies assets
    ensures assets.Valid()
    ensures var rest := old(assets.Remaining());
      var n := ReadCount(rest);
      && assets.pos == old(assets.pos) + n
      && (n < |rest| && rest[n].Error? ==> result == Failure(ClientErrorPrefix + rest[n].message))
      && (!(n < |rest| && rest[n].Error?) ==> result == Success(Select(FiltersOf(cfg), formatTime, AssetsIn(rest[..n]))))
  {
    var includeProjects := SplitString(cfg.includeProjects, ListSeparator);
    var excludeProjects := SplitString(cfg.excludeProjects, ListSeparator);
    result := ReadAssets(Filters(cfg.excludeReserved, excludeProjects, includeProjects), assets, formatTime);
  }

  /**
   * The loop of `ProcessAssets`: pulls records until the end marker or an
   * error, keeping the rows of the records that pass the filters.
   */
  method ReadAssets(filters: Filters, assets: AssetIterator, formatTime: Timestamp -> string)
    returns (result: Result<seq<ProcessedAsset>, string>)
    requires assets.Valid()
    modifies assets
    ensures assets.Valid()
    ensures var rest := old(assets.Remaining());
      var n := ReadCount(rest);
      && assets.pos == old(assets.pos) + n
      && (n < |rest| && rest[n].Error? ==> result == Failure(ClientErrorPrefix + rest[n].message))
      && (!(n < |rest| && rest[n].Error?) ==> result == Success(Select(filters, formatTime, AssetsIn(rest[..n]))))
  {
    ghost var start := assets.pos;
    ghost var rest := assets.Remaining();
    ghost var read: nat := 0;

    var processedResults: seq<ProcessedAsset> := [];
    while true
      invariant assets.Valid() && assets.pos == start + read && read <= |rest|
      invariant rest == assets.steps[start..]
      invariant forall k :: 0 <= k < read ==> rest[k].Asset?
      invariant processedResults == Select(filters, formatTime, AssetsIn(rest[..read]))
      decreases |rest| - read
    {
      var step := assets.Next();
      assert step == if read < |rest| then rest[read] else Done;
      if step.Done? {
        ReadCountAt(rest, read);
        break;
      }
      if step.Error? {
        ReadCountAt(rest, read);
        return Failure(ClientErrorPrefix + step.message);
      }
      var row := ProcessRecord(filters, step.record, formatTime);
      ExtendRows(filters, formatTime, rest, read, processedResults, row);
      if row.Some? {
        processedResults := processedResults + [row.value];
      }
      read := read + 1;
    }
    return Success(processedResults);
  }

  /**
   * The filtering of one record inside the loop of `ProcessAssets`: the
   * reserved check, then the exclude list, then the include list; a record
   * that passes all three becomes a row.
   */
  method ProcessRecord(filters: Filters, asset: Record, formatTime: Timestamp -> string)
    returns (row: Option<ProcessedAsset>)
    ensures row.Some? <==> Keep(filters, asset)
    ensures row.Some? ==> row.value == ToProcessedAsset(asset, formatTime)
  {
    var projectID := GetProjectID(asset);
    var ipAddress := GetIPAddress(asset);
    if filters.excludeReserved && asset.state == ReservedState {
      return None;
    }
    if projectID in filters.excludeProjects {
      return None;
    }
    var included := if |filters.includeProjects| > 0 then projectID in filters.includeProjects else true;
    if !included {
      return None;
    }
    row := Some(ProcessedAsset(
      name := asset.displayName,
      location := asset.location,
      status := asset.state,
      ipAddress := ipAddress,
      project := projectID,
      createdAt := formatTime(asset.createTime)));
  }

  /** Reading one more record adds its row, if it is kept, to the rows so far. */
  lemma SelectNext(f: Filters, formatTime: Timestamp -> string, steps: seq<Step>, i: nat)
    requires i < |steps| && steps[i].Asset?
    ensures Select(f, formatTime, AssetsIn(steps[..i + 1]))
         == Select(f, formatTime, AssetsIn(steps[..i]))
            + (if Keep(f, steps[i].record) then [ToProcessedAsset(steps[i].record, formatTime)] else [])
  {
    assert steps[..i + 1][..i] == steps[..i];
    var records := AssetsIn(steps[..i + 1]);
    assert records == AssetsIn(steps[..i]) + [steps[i].record];
    assert records[..|records| - 1] == AssetsIn(steps[..i]);
  }

  /** The filters, read off an output row: what every row of `ProcessAssets` satisfies. */
  predicate RowPasses(f: Filters, a: ProcessedAsset) {
    && !(f.excludeReserved && a.status == ReservedState)
    && a.project !in f.excludeProjects
    && (|f.includeProjects| == 0 || a.project in f.includeProjects)
  }

  /** `a` is the row of record `r`, and `r` passes the filters. */
  predicate IsRowOf(f: Filters, formatTime: Timestamp -> string, r: Record, a: ProcessedAsset) {
    Keep(f, r) && a == ToProcessedAsset(r, formatTime)
  }

  /** A row is in the output exactly when it is the row of some kept record. */
  lemma {:induction false} SelectMembers(f: Filters, formatTime: Timestamp -> string, records: seq<Record>, a: ProcessedAsset)
    ensures a in Select(f, formatTime, records) <==>
      exists j :: 0 <= j < |records| && IsRowOf(f, formatTime, records[j], a)
  {
    if records != [] {
      var n := |records| - 1;
      var init := records[..n];
      var last := records[n];
      SelectMembers(f, formatTime, init, a);
      var tail := if Keep(f, last) then [ToProcessedAsset(last, formatTime)] else [];
      assert Select(f, formatTime, records) == Select(f, formatTime, init) + tail;
      if a in Select(f, formatTime, records) {
        if a in Select(f, formatTime, init) {
          var j :| 0 <= j < |init| && IsRowOf(f, formatTime, init[j], a);
          assert records[j] == init[j];
        } else {
          assert a in tail;
          assert IsRowOf(f, formatTime, records[n], a);
        }
      }
      if exists j :: 0 <= j < |records| && IsRowOf(f, formatTime, records[j], a) {
        var j :| 0 <= j < |records| && IsRowOf(f, formatTime, records[j], a);
        if j < n {
          assert init[j] == records[j];
          assert IsRowOf(f, formatTime, init[j], a);
        } else {
          assert records[j] == last;
          assert tail == [a];
        }
      }
    }
  }

  /** Soundness: every output row passes all three filters. */
  lemma SelectSound(f: Filters, formatTime: Timestamp -> string, records: seq<Record>, a: ProcessedAsset)
    requires a in Select(f, formatTime, records)
    ensures RowPasses(f, a)
  {
    SelectMembers(f, formatTime, records, a);
  }

  /** Completeness: every record that passes the filters has its row in the output. */
  lemma SelectComplete(f: Filters, formatTime: Timestamp -> string, records: seq<Record>, j: nat)
    requires j < |records| && Keep(f, records[j])
    ensures ToProcessedAsset(records[j], formatTime) in Select(f, formatTime, records)
  {
    SelectMembers(f, formatTime, records, ToProcessedAsset(records[j], formatTime));
  }

  /** Selecting distributes over concatenation: rows come out in input order. */
  lemma {:induction false} SelectAppend(f: Filters, formatTime: Timestamp -> string, a: seq<Record>, b: seq<Record>)
    ensures Select(f, formatTime, a + b) == Select(f, formatTime, a) + Select(f, formatTime, b)
    decreases |b|
  {
    if b == [] {
      assert a + b == a;
    } else {
      var b' := b[..|b| - 1];
      SelectAppend(f, formatTime, a, b');
      assert (a + b)[..|a + b| - 1] == a + b';
      assert (a + b)[|a + b| - 1] == b[|b| - 1];
    }
  }

  /** With no filter configured, every record gives its row: a 1:1 mapping in order. */
  lemma {:induction false} SelectUnfiltered(formatTime: Timestamp -> string, records: seq<Record>)
    ensures |Select(Filters(false, [], []), formatTime, records)| == |records|
    ensures forall k :: 0 <= k < |records| ==>
      Select(Filters(false, [], []), formatTime, records)[k] == ToProcessedAsset(records[k], formatTime)
  {
    if records != [] {
      var init := records[..|records| - 1];
      SelectUnfiltered(formatTime, init);
      assert Keep(Filters(false, [], []), records[|records| - 1]);
    }
  }

  /** The records read before the first non-record answer are exactly those answers' records. */
  lemma {:induction false} AssetsInPrefix(steps: seq<Step>, n: nat)
    requires n <= |steps|
    requires forall k :: 0 <= k < n ==> steps[k].Asset?
    ensures |AssetsIn(steps[..n])| == n
    ensures forall k :: 0 <= k < n ==> AssetsIn(steps[..n])[k] == steps[k].record
  {
    if n > 0 {
      AssetsInPrefix(steps, n - 1);
      assert steps[..n][..n - 1] == steps[..n - 1];
    }
  }

  /** The rows so far, extended by what the filter makes of the next record, are the rows of one more answer. */
  lemma ExtendRows(f: Filters, formatTime: Timestamp -> string, steps: seq<Step>, i: nat,
                   rows: seq<ProcessedAsset>, row: Option<ProcessedAsset>)
    requires i < |steps| && steps[i].Asset?
    requires rows == Select(f, formatTime, AssetsIn(steps[..i]))
    requires row.Some? <==> Keep(f, steps[i].record)
    requires row.Some? ==> row.value == ToProcessedAsset(steps[i].record, formatTime)
    ensures (if row.Some? then rows + [row.value] else rows) == Select(f, formatTime, AssetsIn(steps[..i + 1]))
  {
    SelectNext(f, formatTime, steps, i);
  }

  /** The read count is the first position that holds no record. */
  lemma ReadCountAt(steps: seq<Step>, i: nat)
    requires i <= |steps|
    requires forall k :: 0 <= k < i ==> steps[k].Asset?
    requires i == |steps| || !steps[i].Asset?
    ensures ReadCount(steps) == i
  {
  }
}

/** `generateResourceInfo` (main.go:1008-1053): the per-resource row the page
    shows. The `%v` formatting of a metadata value is not modelled: a caller
    supplies `show`, standing for fmt.Sprintf("%v", ·). The YAML text and the
    re-decoded `Parsed` map of each row are not modelled either. */
module Projection {

  import opened Values
  import opened Status
  import opened Age

  /** ResourceInfo without its YAML and Parsed fields. */
  datatype ResourceInfo = ResourceInfo(
    name: string,
    namespace: string,
    kind: string,
    apiVersion: string,
    age: string,
    status: string)

  /** `%v` of the metadata value under `key`, or "" (the field's zero value)
      when the metadata or the key is missing. */
  function MetadataText(r: Resource, key: string, show: Value -> string): (t: string)
    ensures MetadataField(r, key).None? ==> t == ""
    ensures MetadataField(r, key).Some? ==> t == show(MetadataField(r, key).value)
  {
    match MetadataField(r, key)
    case Some(v) => show(v)
    case None => ""
  }

  /** The row of one resource, or the panic its status raises. */
  function Project(r: Resource, show: Value -> string, elapsedSince: string -> Option<int>): (info: Result<ResourceInfo>)
    ensures info.Panic? <==> ClassifyStatus(r).Panic?
    ensures info.Panic? ==> info.message == ClassifyStatus(r).message
    ensures info.Ok? ==>
              && info.value.kind == r.kind
              && info.value.apiVersion == r.apiVersion
              && info.value.status == ClassifyStatus(r).value.Name()
              && info.value.name == MetadataText(r, "name", show)
              && info.value.namespace == MetadataText(r, "namespace", show)
              && (MetadataField(r, "creationTimestamp").None? ==> info.value.age == "")
              && (MetadataField(r, "creationTimestamp").Some? ==>
                    info.value.age == CalculateAge(MetadataField(r, "creationTimestamp").value, elapsedSince))
  {
    match ClassifyStatus(r)
    case Panic(m) => Panic(m)
    case Ok(verdict) =>
      var age := match MetadataField(r, "creationTimestamp")
        case Some(ts) => CalculateAge(ts, elapsedSince)
        case None => "";
      Ok(ResourceInfo(
        MetadataText(r, "name", show), MetadataText(r, "namespace", show),
        r.kind, r.apiVersion, age, verdict.Name()))
  }

  /** generateResourceInfo: one row per resource, in order; the first status
      panic ends the whole call. */
  method GenerateResourceInfo(resources: seq<Resource>, show: Value -> string, elapsedSince: string -> Option<int>)
    returns (infos: Result<seq<ResourceInfo>>)
    ensures infos.Ok? <==> forall i :: 0 <= i < |resources| ==> ClassifyStatus(resources[i]).Ok?
    ensures infos.Ok? ==>
              && |infos.value| == |resources|
              && forall i :: 0 <= i < |resources| ==> Project(resources[i], show, elapsedSince) == Ok(infos.value[i])
    ensures infos.Panic? ==>
              exists i :: 0 <= i < |resources|
                && ClassifyStatus(resources[i]) == Panic(infos.message)
                && forall j :: 0 <= j < i ==> ClassifyStatus(resources[j]).Ok?
  {
    var rows: seq<ResourceInfo> := [];
    for i := 0 to |resources|
      invariant |rows| == i
      invariant forall j :: 0 <= j < i ==> ClassifyStatus(resources[j]).Ok?
      invariant forall j :: 0 <= j < i ==> Project(resources[j], show, elapsedSince) == Ok(rows[j])
    {
      var row := Project(resources[i], show, elapsedSince);
      if row.Panic? {
        return Panic(row.message);
      }
      assert ClassifyStatus(resources[i]).Ok?;
      rows := rows + [row.value];
    }
    return Ok(rows);
  }

  /** Projection keeps the order and number of the resources: row `i` is
      resource `i`'s kind, API version and label. */
  lemma ProjectionKeepsOrder(resources: seq<Resource>, show: Value -> string, elapsedSince: string -> Option<int>,
                             rows: seq<ResourceInfo>)
    requires |rows| == |resources|
    requires forall i :: 0 <= i < |resources| ==> Project(resources[i], show, elapsedSince) == Ok(rows[i])
    ensures forall i :: 0 <= i < |rows| ==>
              && rows[i].kind == resources[i].kind
              && rows[i].apiVersion == resources[i].apiVersion
              && rows[i].status in {"running", "pending", "failed", "unknown"}
  {
    forall i | 0 <= i < |rows|
      ensures rows[i].status in {"running", "pending", "failed", "unknown"}
    {
      assert Project(resources[i], show, elapsedSince).Ok?;
    }
  }

  /** A row's age is empty exactly when the resource has no creation
      timestamp, `unknown` when the timestamp is not a parsable string, and
      otherwise the label of the elapsed time's bucket. */
  lemma AgeColumn(r: Resource, show: Value -> string, elapsedSince: string -> Option<int>)
    requires ClassifyStatus(r).Ok?
    ensures var age := Project(r, show, elapsedSince).value.age;
            var ts := MetadataField(r, "creationTimestamp");
            && (age == "" <==> ts.None?)
            && (ts.Some? && ts.value.Str? && elapsedSince(ts.value.s).Some? ==>
                  && age == BucketText(BucketOf(elapsedSince(ts.value.s).value))
                  && ParseAge(age) == Some(BucketOf(elapsedSince(ts.value.s).value)))
            && (ts.Some? && !(ts.value.Str? && elapsedSince(ts.value.s).Some?) ==> age == "unknown")
  {
    assert ParseAge("").None?;
    var ts := MetadataField(r, "creationTimestamp");
    if ts.Some? {
      CalculateAgeReadsBack(ts.value, elapsedSince);
    }
  }
}

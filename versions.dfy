/** Version records: the raw metadata the registry lists and the typed record built from it. */
module Versions {

  datatype Option<T> = None | Some(value: T)

  /** Display name given to a version that has no usable first tag. */
  const SEM_TAG: string := "sem-tag"

  datatype ContainerMetadata = ContainerMetadata(tags: Option<seq<string>>)
  datatype Metadata = Metadata(container: Option<ContainerMetadata>)

  /** One entry of a package's version listing: its id, its optional metadata and its
      creation instant in ms since the epoch. */
  datatype RawVersion = RawVersion(id: int, metadata: Option<Metadata>, createdAt: int)

  /** The record the retention logic works on. */
  datatype Version = Version(id: int, name: string, createdAt: int)

  /** The optional chain `metadata?.container?.tags?.[0]`: absent when any link is
      missing or the tag list is empty. */
  function FirstTag(raw: RawVersion): Option<string>
  {
    match raw.metadata
    case None => None
    case Some(m) =>
      match m.container
      case None => None
      case Some(c) =>
        match c.tags
        case None => None
        case Some(tags) => if |tags| == 0 then None else Some(tags[0])
  }

  /** Builds the typed record of one listed version. The id and the creation instant are
      copied; the name is the first tag unless that is absent or the empty string (both
      falsy for `||`), in which case it is the sentinel. */
  function ToVersion(raw: RawVersion): (v: Version)
    ensures v.id == raw.id && v.createdAt == raw.createdAt
    ensures v.name != ""
    ensures v.name == SEM_TAG || FirstTag(raw) == Some(v.name)
    ensures FirstTag(raw).Some? && FirstTag(raw).value != "" ==> v.name == FirstTag(raw).value
    ensures FirstTag(raw) == None || FirstTag(raw) == Some("") ==> v.name == SEM_TAG
  {
    var name := match FirstTag(raw)
      case Some(tag) => if tag != "" then tag else SEM_TAG
      case None => SEM_TAG;
    Version(raw.id, name, raw.createdAt)
  }

  /** The listing of `v` as the registry would publish it, carrying `tags` after its name. */
  function Publish(v: Version, tags: seq<string>): RawVersion
  {
    RawVersion(v.id, Some(Metadata(Some(ContainerMetadata(Some([v.name] + tags))))), v.createdAt)
  }

  /** Ingesting a published record gives the record back, whatever tags follow the first. */
  lemma IngestPublished(v: Version, tags: seq<string>)
    requires v.name != ""
    ensures ToVersion(Publish(v, tags)) == v
  {
  }

  /** The listing mapped record by record, in listing order. */
  function Ingest(raws: seq<RawVersion>): (vs: seq<Version>)
    ensures |vs| == |raws|
    ensures forall i :: 0 <= i < |raws| ==> vs[i].id == raws[i].id && vs[i].createdAt == raws[i].createdAt
    ensures forall i :: 0 <= i < |raws| ==> vs[i] == ToVersion(raws[i])
  {
    seq(|raws|, i requires 0 <= i < |raws| => ToVersion(raws[i]))
  }

  /** The ids of `vs`, in order. */
  function Ids(vs: seq<Version>): seq<int>
  {
    seq(|vs|, i requires 0 <= i < |vs| => vs[i].id)
  }
}

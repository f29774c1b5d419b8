/** The per-record logic of `convert_r2egym_to_swebench`: resolving the
    instance id and the patch of one trajectory record, and turning one input
    line into a prediction record, a skipped line or an error. Reading,
    writing and parsing are outside the model: the parser is a parameter
    returning `None` where `Trajectory.load_from_model_dump_json` raises. */
module Converter {
  import opened Wrappers
  import opened Text

  /** The `ds` mapping of a trajectory, restricted to its string values */
  type Dataset = map<string, string>

  /** The fields of a parsed trajectory the converter reads. A `None` patch
      is one whose attribute access raises. */
  datatype Trajectory = Trajectory(
    ds: Option<Dataset>,
    dockerImage: string,
    trueOutputPatch: Option<string>,
    outputPatch: Option<string>)

  /** One output record: `{model_name_or_path, instance_id, model_patch}` */
  datatype Prediction = Prediction(modelNameOrPath: string, instanceId: string, modelPatch: string)

  const InstanceIdKey: string := "instance_id"
  const DockerImageKey: string := "docker_image"
  const Colon: char := ':'
  const Slash: char := '/'
  const Underscore: char := '_'

  /** Python's `ds and key in ds`: a missing or empty mapping fails the test */
  predicate HasKey(ds: Option<Dataset>, key: string)
  {
    ds.Some? && |ds.value| > 0 && key in ds.value
  }

  /** The truthiness test adds nothing: holding the key already makes the
      mapping non-empty, so an empty mapping behaves exactly like a missing one */
  lemma HasKeyIsMembership(ds: Option<Dataset>, key: string)
    ensures HasKey(ds, key) <==> ds.Some? && key in ds.value
    ensures ds == Some(map[]) ==> !HasKey(ds, key)
  {
  }

  /** `image.split(':')[-1]`: the text after the last colon */
  function AfterLastColon(image: string): (id: string)
    ensures Colon !in id
    ensures Colon in image ==> EndsWith(image, [Colon] + id)
    ensures Colon !in image ==> id == image
  {
    LastPartAfterSep(image, Colon);
    LastPart(image, Colon)
  }

  /** `AfterLastColon` picks the only colon-free suffix that follows a colon */
  lemma AfterLastColonUnique(image: string, id: string)
    requires Colon !in id && EndsWith(image, [Colon] + id)
    ensures id == AfterLastColon(image)
  {
    LastPartUnique(image, id, Colon);
  }

  /** `id` is `src` with every slash and colon turned into an underscore and
      every other character kept */
  predicate SanitizedFrom(src: string, id: string)
  {
    && |id| == |src|
    && forall i :: 0 <= i < |src| ==>
         id[i] == (if src[i] == Slash || src[i] == Colon then Underscore else src[i])
  }

  /** `s.replace('/', '_').replace(':', '_')` */
  function Sanitize(s: string): (id: string)
    ensures SanitizedFrom(s, id)
    ensures Slash !in id && Colon !in id
  {
    Replace(Replace(s, Slash, Underscore), Colon, Underscore)
  }

  /** `SanitizedFrom` describes exactly one string, the one `Sanitize` builds */
  lemma SanitizeCharacterised(src: string, id: string)
    ensures SanitizedFrom(src, id) <==> id == Sanitize(src)
  {
  }

  /** Sanitizing twice changes nothing more */
  lemma SanitizeIdempotent(s: string)
    ensures Sanitize(Sanitize(s)) == Sanitize(s)
  {
  }

  /** The three-way fallback for `instance_id`: the `ds` entry verbatim; else
      the tag of `ds`'s docker image, or that image sanitized when it has no
      colon; else the top-level docker image sanitized */
  function ResolveInstanceId(t: Trajectory): (id: string)
    ensures HasKey(t.ds, InstanceIdKey) ==> id == t.ds.value[InstanceIdKey]
    ensures !HasKey(t.ds, InstanceIdKey) && HasKey(t.ds, DockerImageKey) ==>
      var image := t.ds.value[DockerImageKey];
      if Colon in image then Colon !in id && EndsWith(image, [Colon] + id)
      else SanitizedFrom(image, id)
    ensures !HasKey(t.ds, InstanceIdKey) && !HasKey(t.ds, DockerImageKey) ==>
      SanitizedFrom(t.dockerImage, id)
  {
    if HasKey(t.ds, InstanceIdKey) then t.ds.value[InstanceIdKey]
    else if HasKey(t.ds, DockerImageKey) then
      var image := t.ds.value[DockerImageKey];
      if Colon in image then AfterLastColon(image) else Sanitize(image)
    else Sanitize(t.dockerImage)
  }

  /** An `instance_id` in `ds` decides the result whatever the docker images say */
  lemma InstanceIdWins(t: Trajectory, u: Trajectory)
    requires HasKey(t.ds, InstanceIdKey) && HasKey(u.ds, InstanceIdKey)
    requires t.ds.value[InstanceIdKey] == u.ds.value[InstanceIdKey]
    ensures ResolveInstanceId(t) == ResolveInstanceId(u)
  {
  }

  /** A missing or empty `ds` both fall back to the top-level docker image */
  lemma EmptyDsFallsBack(t: Trajectory)
    requires t.ds == None || t.ds == Some(map[])
    ensures ResolveInstanceId(t) == Sanitize(t.dockerImage)
  {
  }

  /** The instance id never holds a colon unless it was taken verbatim from `ds` */
  lemma InstanceIdColonFree(t: Trajectory)
    requires !HasKey(t.ds, InstanceIdKey)
    ensures Colon !in ResolveInstanceId(t)
  {
  }

  /** `true_output_patch` when reading it succeeds, else `output_patch`;
      `None` when neither can be read */
  function SelectPatch(t: Trajectory): (p: Option<string>)
    ensures t.trueOutputPatch.Some? ==> p == t.trueOutputPatch
    ensures t.trueOutputPatch.None? ==> p == t.outputPatch
  {
    match t.trueOutputPatch
    case Some(patch) => Some(patch)
    case None => t.outputPatch
  }

  /** A patch is found exactly when one of the two fields can be read, and it
      is always one of them */
  lemma SelectPatchAvailable(t: Trajectory)
    ensures SelectPatch(t).Some? <==> t.trueOutputPatch.Some? || t.outputPatch.Some?
    ensures SelectPatch(t).Some? ==>
      SelectPatch(t) == t.trueOutputPatch || SelectPatch(t) == t.outputPatch
  {
  }

  /** The output record of one trajectory, or `None` when no patch can be read */
  function ConvertRecord(modelName: string, t: Trajectory): (r: Option<Prediction>)
    ensures r.Some? <==> t.trueOutputPatch.Some? || t.outputPatch.Some?
    ensures r.Some? ==> r.value.modelNameOrPath == modelName
    ensures r.Some? ==> r.value.instanceId == ResolveInstanceId(t)
    ensures r.Some? ==> Some(r.value.modelPatch) == SelectPatch(t)
  {
    match SelectPatch(t)
    case Some(patch) => Some(Prediction(modelName, ResolveInstanceId(t), patch))
    case None => None
  }

  /** What happens to one input line */
  datatype LineOutcome = Blank | Converted(prediction: Prediction) | Failed

  /** One pass of the loop body: strip the line, skip it when empty, otherwise
      parse it and convert the trajectory, failing when either step does */
  function ConvertLine(modelName: string, parse: string -> Option<Trajectory>, line: string): (o: LineOutcome)
    ensures o.Blank? <==> AllSpace(line)
    ensures o.Failed? <==>
      !AllSpace(line) && (parse(Strip(line)).None? || ConvertRecord(modelName, parse(Strip(line)).value).None?)
    ensures o.Converted? ==>
      parse(Strip(line)).Some? && ConvertRecord(modelName, parse(Strip(line)).value) == Some(o.prediction)
  {
    var s := Strip(line);
    if s == "" then Blank
    else match parse(s)
      case None => Failed
      case Some(t) =>
        match ConvertRecord(modelName, t)
        case Some(p) => Converted(p)
        case None => Failed
  }

  /** A line holding only a no-break space and an ideographic space is
      skipped, as `str.strip` removes both */
  lemma UnicodeBlankLineSkipped(modelName: string, parse: string -> Option<Trajectory>, line: string)
    requires line == "\U{A0}\U{3000}"
    ensures ConvertLine(modelName, parse, line).Blank?
  {
    assert IsSpace(line[0]) && IsSpace(line[1]);
  }

  /** A `ds` docker image with a tag gives the tag */
  lemma InstanceIdFromTag(t: Trajectory, image: string)
    requires t.ds.Some? && InstanceIdKey !in t.ds.value
    requires DockerImageKey in t.ds.value && t.ds.value[DockerImageKey] == image
    requires image == "ns/repo:abc123"
    ensures ResolveInstanceId(t) == "abc123"
  {
    HasKeyIsMembership(t.ds, InstanceIdKey);
    HasKeyIsMembership(t.ds, DockerImageKey);
    TagExample(image);
    AfterLastColonUnique(image, "abc123");
  }

  lemma TagExample(image: string)
    requires image == "ns/repo:abc123"
    ensures Colon in image && Colon !in "abc123" && EndsWith(image, [Colon] + "abc123")
  {
    assert image[7] == Colon;
  }

  /** A `ds` docker image without a tag is sanitized */
  lemma InstanceIdFromUntaggedImage(t: Trajectory, image: string)
    requires t.ds.Some? && InstanceIdKey !in t.ds.value
    requires DockerImageKey in t.ds.value && t.ds.value[DockerImageKey] == image
    requires image == "ns/repo"
    ensures ResolveInstanceId(t) == "ns_repo"
  {
  }

  /** Without a usable `ds` the top-level docker image is sanitized, tag and all */
  lemma InstanceIdFromTopLevelImage(t: Trajectory)
    requires t.ds == None && t.dockerImage == "ns/repo:tag1"
    ensures ResolveInstanceId(t) == "ns_repo_tag1"
  {
  }
}

/** The GraphQL schema of the `berry` service: the payload its two create
    mutations store in the `data` column, and the files an experiment lists. */
module Berry {
  import opened Values

  /** The `FileInput` input type; `file_format` defaults to None. */
  datatype FileInput = FileInput(s3Uri: string, fileFormat: Option<string>)

  /** The `ExperimentInput` input type. */
  datatype ExperimentInput = ExperimentInput(fileIds: seq<string>)

  /** The `File` output type. */
  datatype File = File(s3Uri: string, uuid: int)

  /** The `Experiment` output type; `file_ids` is private to the resolver. */
  datatype Experiment = Experiment(uuid: int, fileIds: seq<string>)

  /** `vars(file_input)`: both attributes, in declaration order. */
  function FileInputVars(f: FileInput): seq<Field>
  {
    [ Field("s3_uri", Text(f.s3Uri)),
      Field("file_format", match f.fileFormat case Some(x) => Text(x) case None => Null) ]
  }

  /** `vars(experiment_input)` */
  function ExperimentInputVars(e: ExperimentInput): seq<Field>
  {
    [Field("file_ids", List(seq(|e.fileIds|, k requires 0 <= k < |e.fileIds| => Text(e.fileIds[k]))))]
  }

  /** The `data` dict `create_file` stores. */
  function CreateFileData(f: FileInput): (d: seq<Field>)
    ensures NoneFree(d) && UniqueNames(d)
    ensures Get(d, "s3_uri") == Some(Text(f.s3Uri))
    ensures Get(d, "file_format") ==
              match f.fileFormat case Some(x) => Some(Text(x)) case None => None
  {
    var vs := FileInputVars(f);
    DropNoneGet(vs, "s3_uri");
    DropNoneGet(vs, "file_format");
    DropNone(vs)
  }

  /** A file created without a format stores its S3 URI and nothing else. */
  lemma FileWithoutFormat(f: FileInput)
    requires f.fileFormat == None
    ensures CreateFileData(f) == [Field("s3_uri", Text(f.s3Uri))]
  {
    var vs := FileInputVars(f);
    assert vs[1..][1..] == [];
    assert DropNone(vs[1..]) == [] + DropNone(vs[1..][1..]);
  }

  /** A file created with a format stores both attributes, in order. */
  lemma FileWithFormat(f: FileInput)
    requires f.fileFormat.Some?
    ensures CreateFileData(f) == FileInputVars(f)
  {
    var vs := FileInputVars(f);
    assert vs[1..][1..] == [];
    assert DropNone(vs[1..]) == [vs[1]] + DropNone(vs[1..][1..]);
  }

  /** The `data` dict `create_experiment` stores. */
  function CreateExperimentData(e: ExperimentInput): (d: seq<Field>)
    ensures NoneFree(d)
  {
    DropNone(ExperimentInputVars(e))
  }

  /** The list of file ids is never None, so it is always stored, unchanged. */
  lemma ExperimentDataKeepsFileIds(e: ExperimentInput)
    ensures |CreateExperimentData(e)| == 1
    ensures CreateExperimentData(e)[0].name == "file_ids"
    ensures var v := CreateExperimentData(e)[0].value;
      v.List? && |v.items| == |e.fileIds| && forall k | 0 <= k < |e.fileIds| :: v.items[k] == Text(e.fileIds[k])
  {
    var vs := ExperimentInputVars(e);
    assert vs[1..] == [];
    assert DropNone(vs) == [vs[0]] + DropNone(vs[1..]);
  }

  /** `Experiment.files`: one placeholder `File` per file id. */
  function Files(e: Experiment): (r: seq<File>)
    ensures |r| == |e.fileIds|
    ensures forall f | f in r :: f.s3Uri == "foo" && f.uuid == 2
  {
    seq(|e.fileIds|, _ => File("foo", 2))
  }
}

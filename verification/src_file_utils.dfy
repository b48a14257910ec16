/** `generate_output_filename` of the current generation (src/brunnels/file_utils.py): the
    candidates are tried in order with an exclusive create, and the first one created is kept
    on disk to reserve the name. */
module SrcFileUtils {
  import opened Base
  import opened OutputNames

  /** The chosen path and the file system with that file created. */
  datatype Reserved = Reserved(path: string, fs: FileSystem)

  /** The loop from candidate i on: a created file ends the search, an existing one moves on,
      any other OS error raises ValueError, and after the last candidate RuntimeError. */
  function Attempt(fs: FileSystem, input: string, i: nat): (r: Result<string>)
    requires i <= MaxAttempts
    ensures var k := FirstFree(fs, input, i);
      && (k > MaxAttempts ==> r == Err(RuntimeError(NoFilenameMessage)))
      && (k <= MaxAttempts && Candidate(input, k) in fs.failing ==>
            r == Err(ValueError(CannotCreatePrefix + fs.failing[Candidate(input, k)])))
      && (k <= MaxAttempts && Candidate(input, k) !in fs.failing ==> r == Ok(Candidate(input, k)))
    decreases MaxAttempts - i
  {
    var candidate := Candidate(input, i);
    match ExclusiveCreate(fs, candidate)
    case Created => Ok(candidate)
    case OsError(text) => Err(ValueError(CannotCreatePrefix + text))
    case AlreadyExists =>
      if i == MaxAttempts then Err(RuntimeError(NoFilenameMessage))
      else Attempt(fs, input, i + 1)
  }

  /** `generate_output_filename(input)` on file system `fs`. */
  function GenerateOutputFilename(fs: FileSystem, input: string): (r: Result<Reserved>)
    ensures r.Ok? ==>
      && r.value.path !in fs.existing
      && r.value.fs == fs.(existing := fs.existing + {r.value.path})
      && FirstFree(fs, input, 0) <= MaxAttempts
      && r.value.path == Candidate(input, FirstFree(fs, input, 0))
    ensures r == Err(RuntimeError(NoFilenameMessage)) <==>
      forall j :: 0 <= j <= MaxAttempts ==> Candidate(input, j) in fs.existing
    ensures r.Err? ==> r.error.RuntimeError? || (r.error.ValueError? && exists p :: p in fs.failing && r.error == ValueError(CannotCreatePrefix + fs.failing[p]))
  {
    AllTakenIffPastEnd(fs, input);
    match Attempt(fs, input, 0)
    case Err(e) => Err(e)
    case Ok(path) => Ok(Reserved(path, fs.(existing := fs.existing + {path})))
  }

  /** Giving up needs 181 different existing files. */
  lemma GivingUpNeedsAllTaken(fs: FileSystem, input: string)
    requires GenerateOutputFilename(fs, input) == Err(RuntimeError(NoFilenameMessage))
    ensures |fs.existing| >= MaxAttempts + 1
  {
    CandidateSetSize(input, MaxAttempts + 1);
    CandidateSetWithin(input, MaxAttempts + 1, fs.existing);
    SubsetSize(CandidateSet(input, MaxAttempts + 1), fs.existing);
  }

  lemma SubsetSize<T>(a: set<T>, b: set<T>)
    requires a <= b
    ensures |a| <= |b|
  {
    assert b == a + (b - a);
  }

  /** Because the chosen file is kept, calling again picks a later candidate. */
  lemma SecondCallMovesOn(fs: FileSystem, input: string)
    requires GenerateOutputFilename(fs, input).Ok?
    ensures var first := GenerateOutputFilename(fs, input).value;
      FirstFree(fs, input, 0) < FirstFree(first.fs, input, 0)
    ensures var first := GenerateOutputFilename(fs, input).value;
      var again := GenerateOutputFilename(first.fs, input);
      again.Ok? ==> again.value.path != first.path
  {
    FirstFreeAfterTaking(fs, input);
  }
}

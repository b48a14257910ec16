/** `generate_output_filename` of the `brunnels` package (brunnels/file_utils.py): the same
    candidates as the current generation, each checked for an empty or blank name first and
    probed by creating and at once removing the file, so nothing is reserved. */
module PkgFileUtils {
  import opened Base
  import opened Text
  import opened Paths
  import opened OutputNames
  import SrcFileUtils

  /** The characters Python's `str.isspace` accepts. */
  predicate IsSpaceChar(c: char)
  {
    || ('\U{9}' <= c <= '\U{d}') || ('\U{1c}' <= c <= '\U{20}') || c == '\U{85}' || c == '\U{a0}'
    || c == '\U{1680}' || ('\U{2000}' <= c <= '\U{200a}') || c == '\U{2028}' || c == '\U{2029}'
    || c == '\U{202f}' || c == '\U{205f}' || c == '\U{3000}'
  }

  /** `s.isspace()`: non-empty and all white space. */
  predicate IsSpace(s: string)
  {
    |s| > 0 && forall k :: 0 <= k < |s| ==> IsSpaceChar(s[k])
  }

  const EmptyNameMessage: string := "Filename cannot be empty"

  /** `_validate_filename_component`: an empty or blank name raises ValueError. */
  function ValidateFilenameComponent(name: string): (r: Result<()>)
    ensures r.Err? <==> name == "" || IsSpace(name)
    ensures r.Err? ==> r.error == ValueError(EmptyNameMessage)
  {
    if name == "" || IsSpace(name) then Err(ValueError(EmptyNameMessage)) else Ok(())
  }

  /** `_validate_full_path`: the file name of the path, without its extension, is checked. */
  function ValidateFullPath(path: string): (r: Result<()>)
    ensures r.Ok? <==> ValidateFilenameComponent(Splitext(Basename(path)).0).Ok?
  {
    ValidateFilenameComponent(Splitext(Basename(path)).0)
  }

  /** `_try_create_file`: true when the exclusive create succeeds (the file is then removed,
      so the file system is as before), false when the file exists, ValueError otherwise. */
  function TryCreateFile(fs: FileSystem, path: string): (r: Result<bool>)
    ensures r == Ok(false) <==> path in fs.existing
    ensures r == Ok(true) <==> path !in fs.existing && path !in fs.failing
    ensures r.Err? ==> r.error == ValueError(CannotCreatePrefix + fs.failing[path])
  {
    match ExclusiveCreate(fs, path)
    case Created => Ok(true)
    case AlreadyExists => Ok(false)
    case OsError(text) => Err(ValueError(CannotCreatePrefix + text))
  }

  /** The loop from candidate i on, validating each candidate before probing it. It ends as
      the reserving search does: at the first candidate that does not exist, with its name or
      the OS error, or with RuntimeError when all exist. The name checks never fire, because
      every constructed name holds the 'm' of " map". */
  function Attempt(fs: FileSystem, input: string, i: nat): (r: Result<string>)
    requires i <= MaxAttempts
    ensures var k := FirstFree(fs, input, i);
      && (k > MaxAttempts ==> r == Err(RuntimeError(NoFilenameMessage)))
      && (k <= MaxAttempts && Candidate(input, k) in fs.failing ==>
            r == Err(ValueError(CannotCreatePrefix + fs.failing[Candidate(input, k)])))
      && (k <= MaxAttempts && Candidate(input, k) !in fs.failing ==> r == Ok(Candidate(input, k)))
    decreases MaxAttempts - i
  {
    var candidate := Candidate(input, i);
    CandidatesValid(input, i);
    match ValidateFullPath(candidate)
    case Err(e) => Err(e)
    case Ok(_) =>
      match TryCreateFile(fs, candidate)
      case Err(e) => Err(e)
      case Ok(true) => Ok(candidate)
      case Ok(false) =>
        if i == MaxAttempts then Err(RuntimeError(NoFilenameMessage))
        else Attempt(fs, input, i + 1)
  }

  /** `generate_output_filename(input)` on file system `fs`: the first candidate that does not
      exist, with the file system left as it was. */
  function GenerateOutputFilename(fs: FileSystem, input: string): (r: Result<string>)
    ensures r.Ok? ==>
      && FirstFree(fs, input, 0) <= MaxAttempts
      && r.value == Candidate(input, FirstFree(fs, input, 0))
      && r.value !in fs.existing && r.value !in fs.failing
    ensures r == Err(RuntimeError(NoFilenameMessage)) <==>
      forall j :: 0 <= j <= MaxAttempts ==> Candidate(input, j) in fs.existing
    ensures r.Err? ==> r.error.RuntimeError? || (r.error.ValueError? && exists p :: p in fs.failing && r.error == ValueError(CannotCreatePrefix + fs.failing[p]))
  {
    BaseValid(input);
    GivingUpIffAllExist(fs, input);
    match ValidateFilenameComponent(BaseOutput(input))
    case Err(e) => Err(e)
    case Ok(_) => Attempt(fs, input, 0)
  }

  /** The search from the first candidate gives up exactly when all 181 candidates exist. */
  lemma GivingUpIffAllExist(fs: FileSystem, input: string)
    ensures Attempt(fs, input, 0) == Err(RuntimeError(NoFilenameMessage)) <==>
      forall j :: 0 <= j <= MaxAttempts ==> Candidate(input, j) in fs.existing
  {
    AllTakenIffPastEnd(fs, input);
  }

  /** The constructed names always pass the name checks. */
  lemma CandidatesValid(input: string, i: nat)
    ensures ValidateFilenameComponent(BaseOutput(input)) == Ok(())
    ensures ValidateFullPath(Candidate(input, i)) == Ok(())
  {
    var b := BaseOutput(input);
    BaseValid(input);
    CandidateInDirectory(input, i);
    if i == 0 {
      StemValid(b, |b| - 3);
    } else {
      NumberedValid(b, NatToString(i));
    }
  }

  /** The base output name is never empty or blank. */
  lemma BaseValid(input: string)
    ensures ValidateFilenameComponent(BaseOutput(input)) == Ok(())
  {
    var b := BaseOutput(input);
    NotBlank(b, |b| - 3);
  }

  /** The same for a numbered name `<b> (<n>).html`. */
  lemma NumberedValid(b: string, n: string)
    requires '/' !in b && '/' !in n && |b| >= 4 && b[|b| - 3] == 'm'
    ensures ValidateFilenameComponent(Splitext(b + " (" + n + ").html").0) == Ok(())
  {
    var stem := b + " (" + n + ")";
    assert b + " (" + n + ").html" == stem + ".html";
    assert stem[|b| - 3] == 'm';
    assert '/' !in stem by {
      assert forall k :: 0 <= k < |stem| ==> stem[k] in b || stem[k] in " (" || stem[k] in n || stem[k] in ")";
    }
    StemValid(stem, |b| - 3);
  }

  /** A stem without slashes that holds an 'm' keeps its name through `.html` and back. */
  lemma StemValid(stem: string, k: nat)
    requires '/' !in stem && k < |stem| && stem[k] == 'm'
    ensures ValidateFilenameComponent(Splitext(stem + ".html").0) == Ok(())
  {
    SplitextAdded(stem, ".html");
    NotBlank(stem, k);
  }

  /** A name holding an 'm' is neither empty nor blank. */
  lemma NotBlank(s: string, k: nat)
    requires k < |s| && s[k] == 'm'
    ensures ValidateFilenameComponent(s) == Ok(())
  {
    assert !IsSpaceChar(s[k]);
  }

  /** Whatever the file system, the package picks the path the current generation reserves,
      and fails with the same error; only the current generation keeps the file. */
  lemma SameChoiceAsReserving(fs: FileSystem, input: string)
    ensures var p := GenerateOutputFilename(fs, input);
      var s := SrcFileUtils.GenerateOutputFilename(fs, input);
      && (p.Ok? <==> s.Ok?)
      && (p.Ok? ==> p.value == s.value.path && s.value.fs.existing == fs.existing + {p.value})
      && (p.Err? ==> p.error == s.error)
  {
    BaseValid(input);
    AttemptsAgree(fs, input, 0);
  }

  /** Both searches stop at the same candidate with the same outcome. */
  lemma AttemptsAgree(fs: FileSystem, input: string, i: nat)
    requires i <= MaxAttempts
    ensures Attempt(fs, input, i) == SrcFileUtils.Attempt(fs, input, i)
  {
    var k := FirstFree(fs, input, i);
    if k > MaxAttempts {
    } else if Candidate(input, k) in fs.failing {
    } else {
    }
  }
}

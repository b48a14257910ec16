/** The output filename candidates that both generations of file_utils.py try, and the file
    system they probe. The first candidate is `<base> map.html` next to the input, where
    `<base>` is the input's file name without a `.gpx` extension in any case; then come
    `<base> map (1).html` to `<base> map (180).html`. The file system is a set of existing
    paths plus the paths whose exclusive creation fails with another OS error (and its text). */
module OutputNames {
  import opened Text
  import opened Paths

  /** Numbered candidates stop at 180. */
  const MaxAttempts: nat := 180

  /** `input_base.lower().endswith(".gpx")`, with ASCII lower-casing. */
  predicate HasGpxExtension(name: string)
  {
    |name| >= 4 && LowerString(name[|name| - 4..]) == ".gpx"
  }

  /** The name without a trailing `.gpx` in any case: the last four characters are dropped. */
  function StripGpx(name: string): (r: string)
    ensures HasGpxExtension(name) ==> |r| == |name| - 4 && name == r + name[|name| - 4..]
    ensures !HasGpxExtension(name) ==> r == name
    ensures r == name[..|r|]
  {
    if HasGpxExtension(name) then name[..|name| - 4] else name
  }

  /** A name with `.gpx` added in any mix of cases comes back unchanged. */
  lemma StripGpxAnyCase(n: string, ext: string)
    requires |ext| == 4 && LowerString(ext) == ".gpx"
    ensures StripGpx(n + ext) == n
  {
    var p := n + ext;
    assert p[|p| - 4..] == ext;
    assert p[..|p| - 4] == n;
  }

  /** `base_name + " map"` for the input path. */
  function BaseOutput(input: string): (b: string)
    ensures '/' !in b && |b| >= 4 && b[|b| - 4..] == " map"
  {
    var name := Basename(input);
    var base := StripGpx(name);
    PrefixHasNoSlash(name, |base|);
    MapSuffix(base);
    base + " map"
  }

  lemma PrefixHasNoSlash(s: string, n: nat)
    requires '/' !in s && n <= |s|
    ensures '/' !in s[..n]
  {
  }

  lemma MapSuffix(base: string)
    requires '/' !in base
    ensures var b := base + " map"; '/' !in b && |b| >= 4 && b[|b| - 4..] == " map"
  {
    var b := base + " map";
    assert b[|b| - 4..] == " map";
  }

  /** The file name of candidate i: the plain one for 0, the numbered ones after it. */
  function CandidateName(input: string, i: nat): (n: string)
    ensures '/' !in n
  {
    if i == 0 then BaseOutput(input) + ".html"
    else
      assert '/' !in NatToString(i);
      BaseOutput(input) + " (" + NatToString(i) + ").html"
  }

  /** Candidate i as a path: `os.path.join(input_dir, name)`. */
  function Candidate(input: string, i: nat): string
  {
    Paths.Join(Dirname(input), CandidateName(input, i))
  }

  /** Every candidate lies in the input's directory under its candidate name. */
  lemma CandidateInDirectory(input: string, i: nat)
    ensures Basename(Candidate(input, i)) == CandidateName(input, i)
  {
    BasenameOfJoin(Dirname(input), CandidateName(input, i));
  }

  /** The 181 candidates are different paths. */
  lemma CandidatesDistinct(input: string, i: nat, j: nat)
    requires i != j
    ensures Candidate(input, i) != Candidate(input, j)
  {
    var x, y := CandidateName(input, i), CandidateName(input, j);
    CandidateNamesDistinct(input, i, j);
    assert x[0] != '/' && y[0] != '/' by {
      assert x[0] in x && y[0] in y;
    }
    if Candidate(input, i) == Candidate(input, j) {
      JoinInjective(Dirname(input), x, y);
    }
  }

  lemma CandidateNamesDistinct(input: string, i: nat, j: nat)
    requires i != j
    ensures CandidateName(input, i) != CandidateName(input, j)
  {
    var b := BaseOutput(input);
    if i != 0 && j != 0 {
      NumberedNamesDistinct(b, NatToString(i), NatToString(j));
      if NatToString(i) == NatToString(j) {
        NatToStringInjective(i, j);
      }
    }
  }

  /** The counter is the only part in which two numbered names differ. */
  lemma NumberedNamesDistinct(b: string, si: string, sj: string)
    ensures b + " (" + si + ").html" == b + " (" + sj + ").html" ==> si == sj
  {
    var x, y := b + " (" + si + ").html", b + " (" + sj + ").html";
    if x == y {
      assert |si| == |sj|;
      assert x[|b| + 2..|b| + 2 + |si|] == si;
      assert y[|b| + 2..|b| + 2 + |sj|] == sj;
    }
  }

  /** The first `count` candidates, in order. */
  function Candidates(input: string, count: nat): (cs: seq<string>)
    ensures |cs| == count && forall i :: 0 <= i < count ==> cs[i] == Candidate(input, i)
  {
    seq(count, i requires 0 <= i < count => Candidate(input, i))
  }

  /** The first `count` candidates, as a set. */
  function CandidateSet(input: string, count: nat): set<string>
  {
    Elements(Candidates(input, count))
  }

  /** Because the candidates are distinct, the first `count` of them are `count` paths. */
  lemma CandidateSetSize(input: string, count: nat)
    ensures |CandidateSet(input, count)| == count
  {
    var cs := Candidates(input, count);
    forall i, j | 0 <= i < j < |cs| ensures cs[i] != cs[j] {
      CandidatesDistinct(input, i, j);
    }
    DistinctElements(cs);
  }

  /** A set holding each of the first `count` candidates holds the candidate set. */
  lemma CandidateSetWithin(input: string, count: nat, s: set<string>)
    requires forall i :: 0 <= i < count ==> Candidate(input, i) in s
    ensures CandidateSet(input, count) <= s
  {
    ElementsWithin(Candidates(input, count), s);
  }

  /** The elements of a sequence, built from the front. */
  function Elements<T>(xs: seq<T>): set<T>
  {
    if |xs| == 0 then {} else Elements(xs[..|xs| - 1]) + {xs[|xs| - 1]}
  }

  /** A sequence without repetitions has as many elements as entries. */
  lemma {:induction false} DistinctElements<T>(xs: seq<T>)
    requires forall i, j :: 0 <= i < j < |xs| ==> xs[i] != xs[j]
    ensures |Elements(xs)| == |xs|
  {
    if |xs| > 0 {
      var init := xs[..|xs| - 1];
      DistinctElements(init);
      LastNotEarlier(init, xs[|xs| - 1]);
    }
  }

  lemma {:induction false} LastNotEarlier<T>(xs: seq<T>, x: T)
    requires forall i :: 0 <= i < |xs| ==> xs[i] != x
    ensures x !in Elements(xs)
  {
    if |xs| > 0 {
      LastNotEarlier(xs[..|xs| - 1], x);
    }
  }

  lemma {:induction false} ElementsWithin<T>(xs: seq<T>, s: set<T>)
    requires forall i :: 0 <= i < |xs| ==> xs[i] in s
    ensures Elements(xs) <= s
  {
    if |xs| > 0 {
      ElementsWithin(xs[..|xs| - 1], s);
    }
  }

  /** The file system as far as exclusive creation is concerned. */
  datatype FileSystem = FileSystem(existing: set<string>, failing: map<string, string>)

  /** The outcome of `open(path, "x")`. */
  datatype Creation = Created | AlreadyExists | OsError(text: string)

  /** An existing path raises FileExistsError; a path the OS refuses raises its error. */
  function ExclusiveCreate(fs: FileSystem, path: string): (c: Creation)
    ensures c == AlreadyExists <==> path in fs.existing
    ensures c.OsError? <==> path !in fs.existing && path in fs.failing
    ensures c.OsError? ==> c.text == fs.failing[path]
  {
    if path in fs.existing then AlreadyExists
    else if path in fs.failing then OsError(fs.failing[path])
    else Created
  }

  const CannotCreatePrefix: string := "Cannot create file: "
  const NoFilenameMessage: string := "No available filename found after 180 attempts"

  /** The first candidate from i on that does not exist yet, or MaxAttempts + 1 when they all
      do. */
  function FirstFree(fs: FileSystem, input: string, i: nat): (k: nat)
    requires i <= MaxAttempts + 1
    ensures i <= k <= MaxAttempts + 1
    ensures forall j :: i <= j < k ==> Candidate(input, j) in fs.existing
    ensures k <= MaxAttempts ==> Candidate(input, k) !in fs.existing
    ensures i <= MaxAttempts && Candidate(input, i) in fs.existing ==> k == FirstFree(fs, input, i + 1)
    decreases MaxAttempts + 1 - i
  {
    var cs := Candidates(input, MaxAttempts + 1);
    var k := FirstAbsent(fs.existing, cs, i);
    assert forall j :: i <= j < k ==> Candidate(input, j) in fs.existing by {
      forall j | i <= j < k ensures Candidate(input, j) in fs.existing {
        assert cs[j] in fs.existing;
      }
    }
    if i <= MaxAttempts && cs[i] in fs.existing then
      FirstAbsentStep(fs.existing, cs, i);
      k
    else k
  }

  /** The search runs past the last candidate exactly when all 181 candidates exist. */
  lemma AllTakenIffPastEnd(fs: FileSystem, input: string)
    ensures FirstFree(fs, input, 0) > MaxAttempts <==>
      forall j :: 0 <= j <= MaxAttempts ==> Candidate(input, j) in fs.existing
  {
    var k := FirstFree(fs, input, 0);
    if forall j :: 0 <= j <= MaxAttempts ==> Candidate(input, j) in fs.existing {
      assert k > MaxAttempts;
    }
  }

  /** The first entry of `cs` from i on that is not in `existing`, or `|cs|`. */
  function FirstAbsent(existing: set<string>, cs: seq<string>, i: nat): (k: nat)
    requires i <= |cs|
    ensures i <= k <= |cs|
    ensures forall j :: i <= j < k ==> cs[j] in existing
    ensures k < |cs| ==> cs[k] !in existing
    decreases |cs| - i
  {
    if i == |cs| || cs[i] !in existing then i else FirstAbsent(existing, cs, i + 1)
  }

  lemma FirstAbsentStep(existing: set<string>, cs: seq<string>, i: nat)
    requires i < |cs| && cs[i] in existing
    ensures FirstAbsent(existing, cs, i) == FirstAbsent(existing, cs, i + 1)
  {
  }

  /** Once the first free candidate exists too, the first free one comes later. */
  lemma FirstFreeAfterTaking(fs: FileSystem, input: string)
    requires FirstFree(fs, input, 0) <= MaxAttempts
    ensures var k := FirstFree(fs, input, 0);
      FirstFree(fs.(existing := fs.existing + {Candidate(input, k)}), input, 0) > k
  {
    var k := FirstFree(fs, input, 0);
    var more := fs.(existing := fs.existing + {Candidate(input, k)});
    FirstFreeGrows(fs, more, input);
    var l := FirstFree(more, input, 0);
    if l == k {
      assert Candidate(input, k) in more.existing;
    }
  }

  /** A file system with more existing paths has its first free candidate no earlier. */
  lemma FirstFreeGrows(fs: FileSystem, more: FileSystem, input: string)
    requires fs.existing <= more.existing
    ensures FirstFree(fs, input, 0) <= FirstFree(more, input, 0)
  {
    FirstAbsentGrows(fs.existing, more.existing, Candidates(input, MaxAttempts + 1), 0);
  }

  lemma {:induction false} FirstAbsentGrows(existing: set<string>, more: set<string>, cs: seq<string>, i: nat)
    requires existing <= more && i <= |cs|
    ensures FirstAbsent(existing, cs, i) <= FirstAbsent(more, cs, i)
    decreases |cs| - i
  {
    if i < |cs| && cs[i] in existing {
      FirstAbsentGrows(existing, more, cs, i + 1);
    }
  }
}

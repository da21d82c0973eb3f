/**
  Copying a file into a directory without overwriting anything: the file's
  own name is tried first, then `name_1.ext`, `name_2.ext`, ... until one
  is free. The file system is the set of paths that exist.
*/
module FileNames {
  import opened Options
  import opened Text

  /** The k-th name tried for `filename`: the name itself, then the stem
      with `_k` before the extension. */
  function Candidate(filename: string, k: nat): string {
    if k == 0 then filename
    else
      var (stem, ext) := SplitExt(filename);
      stem + "_" + NatToString(k) + ext
  }

  function CandidatePath(dir: string, filename: string, k: nat): string {
    JoinPath(dir, Candidate(filename, k))
  }

  /** Joining onto one directory keeps names apart. */
  lemma JoinPathInjective(dir: string, a: string, b: string)
    requires JoinPath(dir, a) == JoinPath(dir, b)
    ensures a == b
  {
    var sep := if |dir| == 0 || IsSep(dir[|dir| - 1]) || (|dir| == 2 && dir[1] == ':') then dir else dir + "\\";
    assert JoinPath(dir, a) == sep + a && JoinPath(dir, b) == sep + b;
    assert (sep + a)[|sep|..] == a && (sep + b)[|sep|..] == b;
  }

  /** No two tries use the same name. */
  lemma CandidateInjective(filename: string, j: nat, k: nat)
    requires j != k
    ensures Candidate(filename, j) != Candidate(filename, k)
  {
    var (stem, ext) := SplitExt(filename);
    if j > 0 && k > 0 {
      var cj := Candidate(filename, j);
      var ck := Candidate(filename, k);
      var dj := NatToString(j);
      var dk := NatToString(k);
      assert cj == stem + "_" + dj + ext;
      assert ck == stem + "_" + dk + ext;
      assert cj[|stem| + 1..|cj| - |ext|] == dj;
      assert ck[|stem| + 1..|ck| - |ext|] == dk;
      if cj == ck {
        NatToStringInjective(j, k);
      }
    } else {
      assert |Candidate(filename, j)| != |Candidate(filename, k)|;
    }
  }

  lemma CandidatePathInjective(dir: string, filename: string, j: nat, k: nat)
    requires j != k
    ensures CandidatePath(dir, filename, j) != CandidatePath(dir, filename, k)
  {
    CandidateInjective(filename, j, k);
    if CandidatePath(dir, filename, j) == CandidatePath(dir, filename, k) {
      JoinPathInjective(dir, Candidate(filename, j), Candidate(filename, k));
    }
  }

  /** The first `k` tries are `k` different paths, so at most as many of
      them can exist as there are files. */
  lemma {:induction false} CandidatesFit(dir: string, filename: string, files: set<string>, k: nat)
    requires forall j :: 0 <= j < k ==> CandidatePath(dir, filename, j) in files
    ensures k <= |files|
    decreases k
  {
    if k > 0 {
      var last := CandidatePath(dir, filename, k - 1);
      var rest := files - {last};
      forall j | 0 <= j < k - 1
        ensures CandidatePath(dir, filename, j) in rest
      {
        CandidatePathInjective(dir, filename, j, k - 1);
      }
      CandidatesFit(dir, filename, rest, k - 1);
    }
  }

  /** The first try from `k` on whose path does not exist. */
  function FirstFree(dir: string, filename: string, files: set<string>, k: nat): (n: nat)
    requires forall j :: 0 <= j < k ==> CandidatePath(dir, filename, j) in files
    ensures k <= n
    ensures CandidatePath(dir, filename, n) !in files
    ensures forall j :: 0 <= j < n ==> CandidatePath(dir, filename, j) in files
    decreases |files| - k
  {
    if CandidatePath(dir, filename, k) !in files then k
    else
      TakenNext(dir, filename, files, k);
      FirstFree(dir, filename, files, k + 1)
  }

  /** One more try taken: the first `k + 1` tries are all taken, and so
      there are at least that many files. */
  lemma TakenNext(dir: string, filename: string, files: set<string>, k: nat)
    requires forall j :: 0 <= j < k ==> CandidatePath(dir, filename, j) in files
    requires CandidatePath(dir, filename, k) in files
    ensures forall j :: 0 <= j < k + 1 ==> CandidatePath(dir, filename, j) in files
    ensures k + 1 <= |files|
  {
    forall j | 0 <= j < k + 1
      ensures CandidatePath(dir, filename, j) in files
    {
      if j == k {
        assert CandidatePath(dir, filename, j) == CandidatePath(dir, filename, k);
      }
    }
    CandidatesFit(dir, filename, files, k + 1);
  }

  /** Only one try is both free and preceded by taken ones. */
  lemma FirstFreeUnique(dir: string, filename: string, files: set<string>, n: nat)
    requires CandidatePath(dir, filename, n) !in files
    requires forall j :: 0 <= j < n ==> CandidatePath(dir, filename, j) in files
    ensures FirstFree(dir, filename, files, 0) == n
  {
  }

  /** The name-choice loop as the code runs it. */
  method ResolveDestination(dir: string, filename: string, files: set<string>) returns (path: string)
    ensures path !in files
    ensures path == CandidatePath(dir, filename, FirstFree(dir, filename, files, 0))
  {
    path := JoinPath(dir, filename);
    var counter: nat := 1;
    while path in files
      invariant counter >= 1
      invariant path == CandidatePath(dir, filename, counter - 1)
      invariant forall j :: 0 <= j < counter - 1 ==> CandidatePath(dir, filename, j) in files
      decreases |files| - (counter - 1)
    {
      CandidatesFit(dir, filename, files, counter);
      var (stem, ext) := SplitExt(filename);
      path := JoinPath(dir, stem + "_" + NatToString(counter) + ext);
      counter := counter + 1;
    }
    FirstFreeUnique(dir, filename, files, counter - 1);
  }

  /**
    `_copy_file_with_conflict_resolution`: nothing for an empty or missing
    source, or when the copy raises (`failing` lists the sources whose
    copy does); otherwise the path the file now has in `dir`.
  */
  function CopyWithConflictResolution(source: string, dir: string, files: set<string>, failing: set<string>): (r: Option<string>)
    ensures r.None? <==> source == "" || source !in files || source in failing
    ensures r.Some? ==> r.value !in files
    ensures r.Some? ==> exists k: nat :: r.value == CandidatePath(dir, Basename(source), k)
                                 && forall j :: 0 <= j < k ==> CandidatePath(dir, Basename(source), j) in files
  {
    if source == "" || source !in files then None
    else
      var n := FirstFree(dir, Basename(source), files, 0);
      if source in failing then None else Some(CandidatePath(dir, Basename(source), n))
  }

  /** A free own name is kept as it is. */
  lemma OwnNameFirst(source: string, dir: string, files: set<string>, failing: set<string>)
    requires source != "" && source in files && source !in failing
    requires JoinPath(dir, Basename(source)) !in files
    ensures CopyWithConflictResolution(source, dir, files, failing) == Some(JoinPath(dir, Basename(source)))
  {
    FirstFreeUnique(dir, Basename(source), files, 0);
  }

  /** A taken own name is followed by the first free `_k` name. */
  lemma TakenNameNumbered(source: string, dir: string, files: set<string>, failing: set<string>, k: nat)
    requires source != "" && source in files && source !in failing
    requires k >= 1
    requires forall j :: 0 <= j < k ==> CandidatePath(dir, Basename(source), j) in files
    requires CandidatePath(dir, Basename(source), k) !in files
    ensures var (stem, ext) := SplitExt(Basename(source));
            CopyWithConflictResolution(source, dir, files, failing) == Some(JoinPath(dir, stem + "_" + NatToString(k) + ext))
  {
    FirstFreeUnique(dir, Basename(source), files, k);
  }
}

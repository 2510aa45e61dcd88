/**
 * The conflict-safe move of `move_file` (photo_sorter.py:62-85). The filesystem is the set
 * of paths `os.path.exists` reports; a move removes the source path and adds the chosen
 * destination path.
 */
module Mover {
  import opened Text
  import opened Paths

  /**
   * `os.path.join(dest, f"{base}_{counter}{ext}")`: a path inside `dest` that ends with an
   * underscore, the counter in decimal and the extension.
   */
  function Candidate(dest: string, base: string, ext: string, counter: nat): (c: string)
    ensures '/' !in base ==>
              var tail := "_" + NatToString(counter) + ext;
              |c| >= |dest| + |tail| && c[..|dest|] == dest && c[|c| - |tail|..] == tail
  {
    var name := base + "_" + NatToString(counter) + ext;
    if '/' in base then Join(dest, name)
    else
      assert name[0] != '/' && name[|base|..] == "_" + NatToString(counter) + ext;
      JoinParts(dest, name);
      Join(dest, name)
  }

  /** A candidate's file name is the base, an underscore, the counter and the extension. */
  lemma NameOfCandidate(dest: string, base: string, ext: string, counter: nat)
    requires '/' !in base && '/' !in ext
    ensures Basename(Candidate(dest, base, ext, counter)) == base + "_" + NatToString(counter) + ext
  {
    NoSeparatorInName(base, NatToString(counter), ext);
    BasenameOfJoin(dest, base + "_" + NatToString(counter) + ext);
  }

  lemma NoSeparatorInName(base: string, digits: string, ext: string)
    requires '/' !in base && '/' !in ext && AllDigits(digits)
    ensures '/' !in base + "_" + digits + ext
  {
    var name := base + "_" + digits + ext;
    forall i | 0 <= i < |name| ensures name[i] != '/' {
      if |base| + 1 <= i < |base| + 1 + |digits| {
        assert name[i] == digits[i - |base| - 1];
      }
    }
  }

  /** Different counters give different candidate paths. */
  lemma CandidateInjective(dest: string, base: string, ext: string, j: nat, k: nat)
    requires Candidate(dest, base, ext, j) == Candidate(dest, base, ext, k)
    ensures j == k
  {
    var sj, sk := NatToString(j), NatToString(k);
    var nj, nk := base + "_" + sj + ext, base + "_" + sk + ext;
    assert nj[0] == nk[0] by {
      if base == [] {
        assert nj[0] == '_' && nk[0] == '_';
      } else {
        assert nj[0] == base[0] && nk[0] == base[0];
      }
    }
    assert nj == nk by {
      var p := Join(dest, nj);
      if nj[0] != '/' {
        var prefix := |p| - |nj|;
        assert p[prefix..] == nj;
        assert Join(dest, nk)[prefix..] == nk;
      }
    }
    assert sj == nj[|base| + 1..|base| + 1 + |sj|];
    assert sk == nk[|base| + 1..|base| + 1 + |sk|];
    NatToStringInjective(j, k);
  }

  /** The candidates with counters 1 up to but not including `counter`. */
  function Taken(dest: string, base: string, ext: string, counter: nat): set<string>
    decreases counter
  {
    if counter <= 1 then {}
    else Taken(dest, base, ext, counter - 1) + {Candidate(dest, base, ext, counter - 1)}
  }

  lemma {:induction false} TakenBelow(dest: string, base: string, ext: string, counter: nat, c: string)
    requires c in Taken(dest, base, ext, counter)
    ensures exists j :: 1 <= j < counter && Candidate(dest, base, ext, j) == c
    decreases counter
  {
    if c != Candidate(dest, base, ext, counter - 1) {
      TakenBelow(dest, base, ext, counter - 1, c);
    }
  }

  lemma TakenStep(dest: string, base: string, ext: string, counter: nat)
    requires counter >= 1
    ensures Taken(dest, base, ext, counter + 1) == Taken(dest, base, ext, counter) + {Candidate(dest, base, ext, counter)}
    ensures Candidate(dest, base, ext, counter) !in Taken(dest, base, ext, counter)
  {
    var c := Candidate(dest, base, ext, counter);
    if c in Taken(dest, base, ext, counter) {
      TakenBelow(dest, base, ext, counter, c);
      var j :| 1 <= j < counter && Candidate(dest, base, ext, j) == c;
      CandidateInjective(dest, base, ext, j, counter);
    }
  }

  /** A path that exists and is not yet taken shrinks what is left of the existing paths. */
  lemma RemainingShrinks(paths: set<string>, dest: string, base: string, ext: string, counter: nat)
    requires counter >= 1
    requires Candidate(dest, base, ext, counter) in paths
    ensures |paths - Taken(dest, base, ext, counter + 1)| < |paths - Taken(dest, base, ext, counter)|
  {
    TakenStep(dest, base, ext, counter);
    var c := Candidate(dest, base, ext, counter);
    var before := paths - Taken(dest, base, ext, counter);
    assert paths - Taken(dest, base, ext, counter + 1) == before - {c};
    assert c in before;
  }

  /**
   * The first counter from `counter` on whose candidate path does not exist. The search
   * ends because every step passes over one more of the finitely many existing paths.
   */
  function FirstFreeFrom(paths: set<string>, dest: string, base: string, ext: string, counter: nat): (k: nat)
    requires counter >= 1
    ensures k >= counter
    ensures Candidate(dest, base, ext, k) !in paths
    ensures forall j :: counter <= j < k ==> Candidate(dest, base, ext, j) in paths
    decreases |paths - Taken(dest, base, ext, counter)|
  {
    var c := Candidate(dest, base, ext, counter);
    if c !in paths then counter
    else
      RemainingShrinks(paths, dest, base, ext, counter);
      var k := FirstFreeFrom(paths, dest, base, ext, counter + 1);
      k
  }

  /**
   * The path `move_file` moves a file named `name` to in `dest`: `dest/name` when that does
   * not exist, otherwise `dest/base_k.ext` for the smallest counter `k` whose path does not
   * exist, with `base` and `ext` from `os.path.splitext(name)`.
   */
  function ChosenPath(paths: set<string>, dest: string, name: string): (r: string)
    ensures r !in paths
    ensures Join(dest, name) !in paths ==> r == Join(dest, name)
    ensures Join(dest, name) in paths ==>
              var (base, ext) := SplitExt(name);
              exists k :: k >= 1 && r == Candidate(dest, base, ext, k)
                          && forall j :: 1 <= j < k ==> Candidate(dest, base, ext, j) in paths
  {
    if Join(dest, name) !in paths then Join(dest, name)
    else
      var (base, ext) := SplitExt(name);
      Candidate(dest, base, ext, FirstFreeFrom(paths, dest, base, ext, 1))
  }

  /** The paths that exist on the filesystem the script works on. */
  class FileSystem {
    var paths: set<string>

    constructor (existing: set<string>)
      ensures paths == existing
    {
      paths := existing;
    }

    /** `os.makedirs(dir, exist_ok=True)`: afterwards `dir` exists. */
    method MakeDirs(dir: string)
      modifies this
      ensures paths == old(paths) + {dir}
    {
      paths := paths + {dir};
    }

    /** The conflict loop of `move_file`: the path a file named `name` is moved to in `dest`. */
    method FreeDestination(dest: string, name: string) returns (destPath: string)
      ensures destPath == ChosenPath(paths, dest, name)
    {
      destPath := Join(dest, name);
      if destPath in paths {
        var (base, ext) := SplitExt(name);
        var counter := 1;
        while true
          invariant counter >= 1
          invariant FirstFreeFrom(paths, dest, base, ext, counter) == FirstFreeFrom(paths, dest, base, ext, 1)
          decreases |paths - Taken(dest, base, ext, counter)|
        {
          var newName := base + "_" + NatToString(counter) + ext;
          var newDestPath := Join(dest, newName);
          if newDestPath !in paths {
            destPath := newDestPath;
            break;
          }
          RemainingShrinks(paths, dest, base, ext, counter);
          counter := counter + 1;
        }
      }
    }

    /** `move_file(src, dest)`; the destination path is what the script logs. */
    method MoveFile(src: string, dest: string) returns (destPath: string)
      modifies this
      ensures destPath == ChosenPath(old(paths) + {dest}, dest, Basename(src))
      ensures paths == old(paths) + {dest} - {src} + {destPath}
    {
      MakeDirs(dest);
      destPath := FreeDestination(dest, Basename(src));
      paths := paths - {src} + {destPath};
    }
  }

  /** A third file of the same name gets counter 2 when the name and counter 1 are taken. */
  lemma ThirdCopyGetsCounterTwo(paths: set<string>, dest: string, name: string)
    requires Join(dest, name) in paths
    requires Candidate(dest, SplitExt(name).0, SplitExt(name).1, 1) in paths
    requires Candidate(dest, SplitExt(name).0, SplitExt(name).1, 2) !in paths
    ensures ChosenPath(paths, dest, name) == Candidate(dest, SplitExt(name).0, SplitExt(name).1, 2)
  {
    var (base, ext) := SplitExt(name);
    assert FirstFreeFrom(paths, dest, base, ext, 2) == 2;
  }
}

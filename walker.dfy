/**
 * The `main` walk (photo_sorter.py:92-119): `os.walk` over the source folder, pruning the
 * excluded directory names from each `dirs` list in place, and for every file one of three
 * outcomes: skipped for an unknown extension, skipped for having no date, or moved.
 */
module Walker {
  import opened Wrappers
  import opened Text
  import opened Paths
  import opened Extensions
  import opened DateTaken
  import opened Destination
  import opened Mover

  /** Synology's per-directory thumbnail cache, never descended into. */
  const ExcludeDirs: set<string> := {"@eaDir"}

  /** A directory as `os.walk` sees it: its name, its file names and its subdirectories. */
  datatype Tree = Tree(name: string, files: seq<string>, subdirs: seq<Tree>)

  function Size(t: Tree): (n: nat)
    ensures n >= 1
    decreases t
  {
    1 + SizeOf(t.subdirs)
  }

  function SizeOf(ts: seq<Tree>): nat
    decreases ts
  {
    if ts == [] then 0 else Size(ts[0]) + SizeOf(ts[1..])
  }

  /** `dirs[:] = [d for d in dirs if d not in EXCLUDE_DIRS]`: the subdirectories left to walk. */
  function Prune(dirs: seq<Tree>): (kept: seq<Tree>)
    ensures forall u :: u in kept ==> u in dirs && u.name !in ExcludeDirs
    ensures forall u :: u in dirs && u.name !in ExcludeDirs ==> u in kept
    ensures SizeOf(kept) <= SizeOf(dirs)
  {
    if dirs == [] then []
    else if dirs[0].name in ExcludeDirs then Prune(dirs[1..])
    else [dirs[0]] + Prune(dirs[1..])
  }

  /** One `(root, dirs, files)` triple of the walk; `rel` names the directories from the top. */
  datatype Entry = Entry(root: string, rel: seq<string>, files: seq<string>)

  /** Top-down `os.walk` with pruning: a directory, then each kept subdirectory in turn. */
  function Walk(root: string, rel: seq<string>, t: Tree): (es: seq<Entry>)
    ensures |es| >= 1 && es[0] == Entry(root, rel, t.files)
    decreases Size(t), 0
  {
    [Entry(root, rel, t.files)] + WalkForest(root, rel, Prune(t.subdirs))
  }

  function WalkForest(root: string, rel: seq<string>, ts: seq<Tree>): seq<Entry>
    decreases SizeOf(ts), 1
  {
    if ts == [] then []
    else Walk(Join(root, ts[0].name), rel + [ts[0].name], ts[0]) + WalkForest(root, rel, ts[1..])
  }

  // What the walk visits.

  lemma ConcatAssoc<T>(a: seq<T>, b: seq<T>, c: seq<T>)
    ensures a + b + c == a + (b + c)
  {
  }

  /** `u` is the directory reached from `t` by following the subdirectory names `rel`. */
  ghost predicate At(t: Tree, rel: seq<string>, u: Tree)
    decreases |rel|
  {
    if rel == [] then u == t
    else exists c :: c in t.subdirs && c.name == rel[0] && At(c, rel[1..], u)
  }

  /** The path reached from `root` by joining the names in order, as the walk builds `root`. */
  function JoinAll(root: string, names: seq<string>): string
    decreases |names|
  {
    if names == [] then root else JoinAll(Join(root, names[0]), names[1..])
  }

  predicate AvoidsExcluded(rel: seq<string>) {
    forall i :: 0 <= i < |rel| ==> rel[i] !in ExcludeDirs
  }

  /**
   * Every directory the walk reports is a real one, reached without passing through an
   * excluded name, and is reported with its own files, at the path its names lead to.
   */
  lemma {:induction false} WalkVisitsOnlyKeptDirectories(root: string, rel: seq<string>, t: Tree, e: Entry)
    requires e in Walk(root, rel, t)
    ensures exists r, u :: e.rel == rel + r && AvoidsExcluded(r) && At(t, r, u) && e.files == u.files
                           && e.root == JoinAll(root, r)
    decreases Size(t), 0
  {
    if e == Walk(root, rel, t)[0] {
      assert e.rel == rel + [] && AvoidsExcluded([]) && At(t, [], t) && e.root == JoinAll(root, []);
    } else {
      assert e in WalkForest(root, rel, Prune(t.subdirs));
      WalkForestVisitsOnlyKeptDirectories(root, rel, t, Prune(t.subdirs), e);
    }
  }

  lemma {:induction false} WalkForestVisitsOnlyKeptDirectories(root: string, rel: seq<string>, t: Tree, ts: seq<Tree>, e: Entry)
    requires forall c :: c in ts ==> c in t.subdirs && c.name !in ExcludeDirs
    requires e in WalkForest(root, rel, ts)
    ensures exists r, u :: e.rel == rel + r && AvoidsExcluded(r) && At(t, r, u) && e.files == u.files
                           && e.root == JoinAll(root, r)
    decreases SizeOf(ts), 1
  {
    var c := ts[0];
    if e in Walk(Join(root, c.name), rel + [c.name], c) {
      WalkVisitsOnlyKeptDirectories(Join(root, c.name), rel + [c.name], c, e);
      var r, u :| e.rel == rel + [c.name] + r && AvoidsExcluded(r) && At(c, r, u) && e.files == u.files
                  && e.root == JoinAll(Join(root, c.name), r);
      var r' := [c.name] + r;
      assert r'[0] == c.name && r'[1..] == r;
      assert e.root == JoinAll(root, r');
      assert At(t, r', u) by {
        assert c in t.subdirs && c.name == r'[0] && At(c, r'[1..], u);
      }
      assert AvoidsExcluded(r') by {
        forall i | 0 <= i < |r'| ensures r'[i] !in ExcludeDirs {
          if i > 0 {
            assert r'[i] == r[i - 1];
          }
        }
      }
      ConcatAssoc(rel, [c.name], r);
      assert e.rel == rel + r';
    } else {
      assert e in WalkForest(root, rel, ts[1..]);
      WalkForestVisitsOnlyKeptDirectories(root, rel, t, ts[1..], e);
    }
  }

  /** Each entry a kept subtree contributes is part of the walk of the list holding it. */
  lemma {:induction false} WalkForestContains(root: string, rel: seq<string>, ts: seq<Tree>, c: Tree, e: Entry)
    requires c in ts
    requires e in Walk(Join(root, c.name), rel + [c.name], c)
    ensures e in WalkForest(root, rel, ts)
    decreases |ts|
  {
    if c != ts[0] {
      WalkForestContains(root, rel, ts[1..], c, e);
    }
  }

  lemma AvoidsExcludedTail(r: seq<string>)
    requires r != [] && AvoidsExcluded(r)
    ensures r[0] !in ExcludeDirs && AvoidsExcluded(r[1..])
  {
    forall i | 0 <= i < |r[1..]| ensures r[1..][i] !in ExcludeDirs {
      assert r[1..][i] == r[i + 1];
    }
  }

  lemma ExtendRel(rel: seq<string>, r: seq<string>)
    requires r != []
    ensures rel + [r[0]] + r[1..] == rel + r
  {
    assert [r[0]] + r[1..] == r;
    ConcatAssoc(rel, [r[0]], r[1..]);
  }

  /** Every directory reachable without passing through an excluded name is visited with its files. */
  lemma {:induction false} WalkVisitsEveryKeptDirectory(root: string, rel: seq<string>, t: Tree, r: seq<string>, u: Tree)
    requires At(t, r, u) && AvoidsExcluded(r)
    ensures exists e :: e in Walk(root, rel, t) && e.rel == rel + r && e.files == u.files
    decreases |r|
  {
    if r == [] {
      assert Walk(root, rel, t)[0].rel == rel + r;
    } else {
      var c :| c in t.subdirs && c.name == r[0] && At(c, r[1..], u);
      AvoidsExcludedTail(r);
      WalkVisitsEveryKeptDirectory(Join(root, c.name), rel + [c.name], c, r[1..], u);
      var e :| e in Walk(Join(root, c.name), rel + [c.name], c) && e.rel == rel + [c.name] + r[1..] && e.files == u.files;
      assert c in Prune(t.subdirs);
      WalkForestContains(root, rel, Prune(t.subdirs), c, e);
      ExtendRel(rel, r);
      assert e.rel == rel + r;
    }
  }

  /** No two subdirectories of one directory share a name. */
  predicate SiblingsDistinct(ts: seq<Tree>) {
    forall i, j :: 0 <= i < j < |ts| ==> ts[i].name != ts[j].name
  }

  /** Sibling names are distinct at every depth, as in a real directory tree. */
  predicate DistinctNames(t: Tree)
    decreases t
  {
    SiblingsDistinct(t.subdirs) && forall c :: c in t.subdirs ==> DistinctNames(c)
  }

  lemma {:induction false} PruneKeepsDistinct(dirs: seq<Tree>)
    requires SiblingsDistinct(dirs)
    ensures SiblingsDistinct(Prune(dirs))
  {
    if dirs != [] {
      PruneKeepsDistinct(dirs[1..]);
      var rest := Prune(dirs[1..]);
      if dirs[0].name !in ExcludeDirs {
        forall u | u in rest ensures u.name != dirs[0].name {
          var k :| 0 <= k < |dirs[1..]| && dirs[1..][k] == u;
          assert dirs[k + 1] == u;
        }
        var kept := [dirs[0]] + rest;
        forall i, j | 0 <= i < j < |kept| ensures kept[i].name != kept[j].name {
          assert kept[j] == rest[j - 1];
          if i > 0 {
            assert kept[i] == rest[i - 1];
          }
        }
      }
    }
  }

  lemma WalkRelPrefix(root: string, rel: seq<string>, t: Tree, e: Entry)
    requires e in Walk(root, rel, t)
    ensures |e.rel| >= |rel| && e.rel[..|rel|] == rel
  {
    WalkVisitsOnlyKeptDirectories(root, rel, t, e);
  }

  /** An entry below a list of directories carries, after `rel`, the name of one of them. */
  lemma {:induction false} WalkForestRels(root: string, rel: seq<string>, ts: seq<Tree>, e: Entry)
    requires e in WalkForest(root, rel, ts)
    ensures |e.rel| > |rel| && exists k :: 0 <= k < |ts| && e.rel[|rel|] == ts[k].name
    decreases |ts|
  {
    if e in Walk(Join(root, ts[0].name), rel + [ts[0].name], ts[0]) {
      WalkRelPrefix(Join(root, ts[0].name), rel + [ts[0].name], ts[0], e);
      assert e.rel[|rel|] == e.rel[..|rel| + 1][|rel|];
    } else {
      WalkForestRels(root, rel, ts[1..], e);
      var k :| 0 <= k < |ts[1..]| && e.rel[|rel|] == ts[1..][k].name;
      assert ts[k + 1] == ts[1..][k];
    }
  }

  /**
   * When sibling names are distinct, the walk reports each directory once: two entries
   * with the same names from the top are the same entry.
   */
  lemma {:induction false} WalkReportsEachDirectoryOnce(root: string, rel: seq<string>, t: Tree, i: nat, j: nat)
    requires DistinctNames(t)
    requires i < |Walk(root, rel, t)| && j < |Walk(root, rel, t)|
    requires Walk(root, rel, t)[i].rel == Walk(root, rel, t)[j].rel
    ensures i == j
    decreases Size(t), 0
  {
    if i == 0 && j != 0 {
      BelowTop(root, rel, t, j);
    } else if i != 0 && j == 0 {
      BelowTop(root, rel, t, i);
    } else if i != 0 && j != 0 {
      BelowTop(root, rel, t, i);
      BelowTop(root, rel, t, j);
      PruneKeepsDistinct(t.subdirs);
      WalkForestReportsEachDirectoryOnce(root, rel, Prune(t.subdirs), i - 1, j - 1);
    }
  }

  /** Every entry after the first comes from the kept subdirectories and lies strictly below. */
  lemma BelowTop(root: string, rel: seq<string>, t: Tree, j: nat)
    requires 0 < j < |Walk(root, rel, t)|
    ensures var below := WalkForest(root, rel, Prune(t.subdirs));
            j - 1 < |below| && Walk(root, rel, t)[j] == below[j - 1]
    ensures |Walk(root, rel, t)[j].rel| > |rel|
  {
    var es, below := Walk(root, rel, t), WalkForest(root, rel, Prune(t.subdirs));
    assert es[j] == below[j - 1];
    WalkForestRels(root, rel, Prune(t.subdirs), es[j]);
  }

  lemma {:induction false} WalkForestReportsEachDirectoryOnce(root: string, rel: seq<string>, ts: seq<Tree>, i: nat, j: nat)
    requires SiblingsDistinct(ts) && forall c :: c in ts ==> DistinctNames(c)
    requires i < |WalkForest(root, rel, ts)| && j < |WalkForest(root, rel, ts)|
    requires WalkForest(root, rel, ts)[i].rel == WalkForest(root, rel, ts)[j].rel
    ensures i == j
    decreases SizeOf(ts), 1
  {
    var c := ts[0];
    var first, rest := Walk(Join(root, c.name), rel + [c.name], c), WalkForest(root, rel, ts[1..]);
    var es := WalkForest(root, rel, ts);
    assert es == first + rest;
    if i < |first| && j < |first| {
      WalkReportsEachDirectoryOnce(Join(root, c.name), rel + [c.name], c, i, j);
    } else if i >= |first| && j >= |first| {
      assert es[i] == rest[i - |first|] && es[j] == rest[j - |first|];
      SiblingsDistinctTail(ts);
      WalkForestReportsEachDirectoryOnce(root, rel, ts[1..], i - |first|, j - |first|);
    } else if i < |first| {
      FirstChildApart(root, rel, ts, first[i], rest[j - |first|]);
    } else {
      FirstChildApart(root, rel, ts, first[j], rest[i - |first|]);
    }
  }

  lemma SiblingsDistinctTail(ts: seq<Tree>)
    requires ts != [] && SiblingsDistinct(ts)
    ensures SiblingsDistinct(ts[1..])
  {
    forall a, b | 0 <= a < b < |ts[1..]| ensures ts[1..][a].name != ts[1..][b].name {
      assert ts[1..][a] == ts[a + 1] && ts[1..][b] == ts[b + 1];
    }
  }

  /** Entries below the first directory of a list differ from those below the others. */
  lemma FirstChildApart(root: string, rel: seq<string>, ts: seq<Tree>, a: Entry, b: Entry)
    requires ts != [] && SiblingsDistinct(ts)
    requires a in Walk(Join(root, ts[0].name), rel + [ts[0].name], ts[0])
    requires b in WalkForest(root, rel, ts[1..])
    ensures a.rel != b.rel
  {
    WalkRelPrefix(Join(root, ts[0].name), rel + [ts[0].name], ts[0], a);
    assert a.rel[|rel|] == a.rel[..|rel| + 1][|rel|] == ts[0].name;
    WalkForestRels(root, rel, ts[1..], b);
    var k :| 0 <= k < |ts[1..]| && b.rel[|rel|] == ts[1..][k].name;
    assert ts[1..][k] == ts[k + 1];
  }

  // The per-file step of `main` and its effect on the filesystem.

  /** A file as the loop meets it: `path = os.path.join(root, file)` and the bare `file` name. */
  datatype Visit = Visit(path: string, name: string)

  function VisitsOf(root: string, files: seq<string>): (vs: seq<Visit>)
    ensures |vs| == |files|
    ensures forall i :: 0 <= i < |files| ==> vs[i] == Visit(Join(root, files[i]), files[i])
  {
    seq(|files|, i requires 0 <= i < |files| => Visit(Join(root, files[i]), files[i]))
  }

  lemma VisitsOfPrefix(root: string, files: seq<string>, i: nat)
    requires i < |files|
    ensures VisitsOf(root, files[..i + 1]) == VisitsOf(root, files[..i]) + [Visit(Join(root, files[i]), files[i])]
  {
  }

  /** The files of the walk's entries, in the order the loop meets them. */
  function Visits(es: seq<Entry>): seq<Visit> {
    if es == [] then []
    else Visits(es[..|es| - 1]) + VisitsOf(es[|es| - 1].root, es[|es| - 1].files)
  }

  /** The files handled are exactly the files of the entries, each joined to its entry's root. */
  lemma {:induction false} VisitsAreEntryFiles(es: seq<Entry>, v: Visit)
    ensures v in Visits(es) <==>
            exists e, j :: e in es && 0 <= j < |e.files| && v == Visit(Join(e.root, e.files[j]), e.files[j])
  {
    if es != [] {
      var init, last := es[..|es| - 1], es[|es| - 1];
      VisitsAreEntryFiles(init, v);
      assert es == init + [last];
      if v in VisitsOf(last.root, last.files) {
        var j :| 0 <= j < |last.files| && VisitsOf(last.root, last.files)[j] == v;
        assert last in es;
      }
      if exists e, j :: e in es && 0 <= j < |e.files| && v == Visit(Join(e.root, e.files[j]), e.files[j]) {
        var e, j :| e in es && 0 <= j < |e.files| && v == Visit(Join(e.root, e.files[j]), e.files[j]);
        if e == last {
          assert VisitsOf(last.root, last.files)[j] == v;
        } else {
          assert e in init;
        }
      }
    }
  }

  /** What the script logs for a file. */
  datatype Outcome =
    | UnknownExtension(path: string)
    | NoDate(path: string)
    | Moved(path: string, destPath: string)

  /**
   * The environment of a run: the two destination bases, the EXIF `DateTimeOriginal`
   * text of each path and the modification time of each path.
   */
  datatype Env = Env(cfg: Config, exif: string -> Option<string>, mtime: string -> Option<Timestamp>)

  /** The date `get_date_taken(path)` returns. */
  function DateOf(env: Env, path: string): Option<Timestamp> {
    ResolveDate(env.exif(path), env.mtime(path))
  }

  /** The body of the file loop of `main`, on the set of existing paths. */
  function Step(paths: set<string>, v: Visit, env: Env): (r: (set<string>, Outcome))
    ensures r.1.path == v.path
    ensures r.1.UnknownExtension? <==> !IsMedia(Extension(v.name))
    ensures r.1.NoDate? <==> IsMedia(Extension(v.name)) && DateOf(env, v.path) == None
    ensures !r.1.Moved? ==> r.0 == paths
  {
    var ext := Extension(v.name);
    if !IsMedia(ext) then (paths, UnknownExtension(v.path))
    else
      match DateOf(env, v.path)
      case None => (paths, NoDate(v.path))
      case Some(t) =>
        var folder := DestinationFolder(ext, t, env.cfg);
        var withFolder := paths + {folder};
        var destPath := ChosenPath(withFolder, folder, Basename(v.path));
        (withFolder - {v.path} + {destPath}, Moved(v.path, destPath))
  }

  /**
   * A moved file goes to its day folder, under its own name when that is free and
   * otherwise under a name that exists nowhere; nothing else in the filesystem changes.
   */
  lemma StepMovesWithoutOverwrite(paths: set<string>, v: Visit, env: Env)
    requires Step(paths, v, env).1.Moved?
    ensures IsMedia(Extension(v.name)) && DateOf(env, v.path).Some?
    ensures var folder := DestinationFolder(Extension(v.name), DateOf(env, v.path).value, env.cfg);
            var r := Step(paths, v, env);
            && r.1.destPath == ChosenPath(paths + {folder}, folder, Basename(v.path))
            && r.1.destPath !in paths + {folder}
            && r.0 == paths + {folder} - {v.path} + {r.1.destPath}
            && (Join(folder, Basename(v.path)) !in paths + {folder} <==> r.1.destPath == Join(folder, Basename(v.path)))
  {
  }

  /** The state of a run: the set of existing paths and the outcomes logged so far. */
  type State = (set<string>, seq<Outcome>)

  /** The files handled in order from a state: the file loop of `main`, written as a fold. */
  function Handle(s: State, vs: seq<Visit>, env: Env): (r: State)
    ensures |r.1| == |s.1| + |vs|
  {
    if vs == [] then s
    else
      var before := Handle(s, vs[..|vs| - 1], env);
      var after := Step(before.0, vs[|vs| - 1], env);
      (after.0, before.1 + [after.1])
  }

  /** A whole run from the initial set of paths: one log entry per file. */
  function Run(paths: set<string>, vs: seq<Visit>, env: Env): (r: State)
    ensures |r.1| == |vs|
  {
    Handle((paths, []), vs, env)
  }

  lemma HandleExtend(s: State, vs: seq<Visit>, v: Visit, env: Env)
    ensures var before := Handle(s, vs, env); var after := Step(before.0, v, env);
            Handle(s, vs + [v], env) == (after.0, before.1 + [after.1])
  {
    assert (vs + [v])[..|vs|] == vs;
  }

  /** Handling `a` and then `b` is handling `a + b`. */
  lemma {:induction false} HandleAppend(s: State, a: seq<Visit>, b: seq<Visit>, env: Env)
    ensures Handle(s, a + b, env) == Handle(Handle(s, a, env), b, env)
  {
    if b != [] {
      var b' := b[..|b| - 1];
      assert a + b == (a + b') + [b[|b| - 1]];
      assert b == b' + [b[|b| - 1]];
      HandleExtend(s, a + b', b[|b| - 1], env);
      HandleExtend(Handle(s, a, env), b', b[|b| - 1], env);
      HandleAppend(s, a, b', env);
    } else {
      assert a + b == a;
    }
  }

  lemma TakeOfSnoc<T>(a: seq<T>, x: T, j: nat)
    requires j <= |a|
    ensures (a + [x])[..j] == a[..j]
  {
  }

  lemma PrefixSnoc<T>(s: seq<T>, i: nat)
    requires i < |s|
    ensures s[..i + 1] == s[..i] + [s[i]]
  {
  }

  /** The outcomes logged for a prefix of the files are a prefix of the log. */
  lemma {:induction false} RunPrefix(paths: set<string>, vs: seq<Visit>, env: Env, j: nat)
    requires j <= |vs|
    ensures Run(paths, vs, env).1[..j] == Run(paths, vs[..j], env).1
  {
    if j < |vs| {
      var vs', v := vs[..|vs| - 1], vs[|vs| - 1];
      assert vs' + [v] == vs;
      assert vs'[..j] == vs[..j];
      RunPrefix(paths, vs', env, j);
      HandleExtend((paths, []), vs', v, env);
      var before := Run(paths, vs', env);
      TakeOfSnoc(before.1, Step(before.0, v, env).1, j);
    } else {
      assert vs[..j] == vs;
    }
  }

  /** The `i`-th outcome is the step taken on the `i`-th file, in the state the earlier files left. */
  lemma RunLogsEachFile(paths: set<string>, vs: seq<Visit>, env: Env, i: nat)
    requires i < |vs|
    ensures Run(paths, vs, env).1[i] == Step(Run(paths, vs[..i], env).0, vs[i], env).1
  {
    RunPrefix(paths, vs, env, i + 1);
    PrefixSnoc(vs, i);
    HandleExtend((paths, []), vs[..i], vs[i], env);
    assert Run(paths, vs, env).1[i] == Run(paths, vs, env).1[..i + 1][i];
  }

  /**
   * Each file is logged as having an unknown extension, as having no date, or as moved,
   * exactly as its extension and its date decide.
   */
  lemma RunClassifies(paths: set<string>, vs: seq<Visit>, env: Env, i: nat)
    requires i < |vs|
    ensures var o := Run(paths, vs, env).1[i];
            && o.path == vs[i].path
            && (o.UnknownExtension? <==> !IsMedia(Extension(vs[i].name)))
            && (o.NoDate? <==> IsMedia(Extension(vs[i].name)) && DateOf(env, vs[i].path) == None)
            && (o.Moved? <==> IsMedia(Extension(vs[i].name)) && DateOf(env, vs[i].path).Some?)
  {
    RunLogsEachFile(paths, vs, env, i);
  }

  /** A moved file never replaces a path that existed when it was moved, and is there afterwards. */
  lemma RunNeverOverwrites(paths: set<string>, vs: seq<Visit>, env: Env, i: nat)
    requires i < |vs| && Run(paths, vs, env).1[i].Moved?
    ensures Run(paths, vs, env).1[i].destPath !in Run(paths, vs[..i], env).0
    ensures Run(paths, vs, env).1[i].destPath in Run(paths, vs[..i + 1], env).0
  {
    var before := Run(paths, vs[..i], env).0;
    var step := Step(before, vs[i], env);
    RunLogsEachFile(paths, vs, env, i);
    assert Run(paths, vs, env).1[i] == step.1;
    StepMovesWithoutOverwrite(before, vs[i], env);
    PrefixSnoc(vs, i);
    HandleExtend((paths, []), vs[..i], vs[i], env);
    assert Run(paths, vs[..i + 1], env).0 == step.0;
  }

  /** A path that is not one of the files handled still exists after the run. */
  lemma {:induction false} RunKeepsOtherPaths(paths: set<string>, vs: seq<Visit>, env: Env, p: string)
    requires p in paths
    requires forall i :: 0 <= i < |vs| ==> vs[i].path != p
    ensures p in Run(paths, vs, env).0
  {
    if vs != [] {
      RunKeepsOtherPaths(paths, vs[..|vs| - 1], env, p);
    }
  }

  lemma {:induction false} HandleKeepsOtherPaths(s: State, vs: seq<Visit>, env: Env, p: string)
    requires p in s.0
    requires forall i :: 0 <= i < |vs| ==> vs[i].path != p
    ensures p in Handle(s, vs, env).0
  {
    if vs != [] {
      HandleKeepsOtherPaths(s, vs[..|vs| - 1], env, p);
    }
  }

  /** A skipped file is still at its path right after its own step. */
  lemma SkippedFileStaysAtStep(paths: set<string>, vs: seq<Visit>, env: Env, i: nat)
    requires i < |vs| && vs[i].path in paths
    requires !Run(paths, vs, env).1[i].Moved?
    requires forall k :: 0 <= k < i ==> vs[k].path != vs[i].path
    ensures vs[i].path in Run(paths, vs[..i + 1], env).0
  {
    RunKeepsOtherPaths(paths, vs[..i], env, vs[i].path);
    RunLogsEachFile(paths, vs, env, i);
    PrefixSnoc(vs, i);
    HandleExtend((paths, []), vs[..i], vs[i], env);
  }

  /**
   * A file skipped for its extension or for having no date is still at its path after
   * the run, when no other file handled has the same path.
   */
  lemma RunKeepsSkippedFile(paths: set<string>, vs: seq<Visit>, env: Env, i: nat)
    requires i < |vs| && vs[i].path in paths
    requires !Run(paths, vs, env).1[i].Moved?
    requires forall k :: 0 <= k < |vs| && k != i ==> vs[k].path != vs[i].path
    ensures vs[i].path in Run(paths, vs, env).0
  {
    SkippedFileStaysAtStep(paths, vs, env, i);
    LaterFilesKeepPath(paths, vs, env, i, vs[i].path);
  }

  /** A path present after the first `i + 1` files stays when no later file has that path. */
  lemma LaterFilesKeepPath(paths: set<string>, vs: seq<Visit>, env: Env, i: nat, p: string)
    requires i < |vs| && p in Run(paths, vs[..i + 1], env).0
    requires forall k :: i < k < |vs| ==> vs[k].path != p
    ensures p in Run(paths, vs, env).0
  {
    LaterFilesAvoid(vs, i, vs[i + 1..], p);
    HandleSplitKeeps((paths, []), vs[..i + 1], vs[i + 1..], env, p);
    SplitAt(vs, i + 1);
  }

  lemma SplitAt<T>(s: seq<T>, n: nat)
    requires n <= |s|
    ensures s[..n] + s[n..] == s
  {
  }

  lemma HandleSplitKeeps(s: State, a: seq<Visit>, b: seq<Visit>, env: Env, p: string)
    requires p in Handle(s, a, env).0
    requires forall k :: 0 <= k < |b| ==> b[k].path != p
    ensures p in Handle(s, a + b, env).0
  {
    HandleKeepsOtherPaths(Handle(s, a, env), b, env, p);
    HandleAppend(s, a, b, env);
  }

  lemma LaterFilesAvoid(vs: seq<Visit>, i: nat, rest: seq<Visit>, p: string)
    requires i < |vs| && rest == vs[i + 1..]
    requires forall k :: i < k < |vs| ==> vs[k].path != p
    ensures forall k :: 0 <= k < |rest| ==> rest[k].path != p
  {
    forall k | 0 <= k < |rest| ensures rest[k].path != p {
      assert rest[k] == vs[i + 1 + k];
    }
  }

  lemma VisitsExtend(es: seq<Entry>, e: Entry)
    ensures Visits(es + [e]) == Visits(es) + VisitsOf(e.root, e.files)
  {
    assert (es + [e])[..|es|] == es;
  }

  /** The body of the file loop of `main`: classify, date and move one file. */
  method HandleFile(fs: FileSystem, root: string, file: string, env: Env) returns (outcome: Outcome)
    modifies fs
    ensures (fs.paths, outcome) == Step(old(fs.paths), Visit(Join(root, file), file), env)
  {
    var ext := Extension(file);
    var path := Join(root, file);
    if !IsMedia(ext) {
      return UnknownExtension(path);
    }
    var dateTaken := ResolveDate(env.exif(path), env.mtime(path));
    if dateTaken == None {
      return NoDate(path);
    }
    var destFolder := DestinationFolder(ext, dateTaken.value, env.cfg);
    var destPath := fs.MoveFile(path, destFolder);
    return Moved(path, destPath);
  }

  /** The file loop of `main` for one directory. */
  method HandleFiles(fs: FileSystem, root: string, files: seq<string>, env: Env, log0: seq<Outcome>)
    returns (log: seq<Outcome>)
    modifies fs
    ensures (fs.paths, log) == Handle((old(fs.paths), log0), VisitsOf(root, files), env)
  {
    log := log0;
    for i := 0 to |files|
      invariant (fs.paths, log) == Handle((old(fs.paths), log0), VisitsOf(root, files[..i]), env)
    {
      var v := Visit(Join(root, files[i]), files[i]);
      VisitsOfPrefix(root, files, i);
      HandleExtend((old(fs.paths), log0), VisitsOf(root, files[..i]), v, env);
      var outcome := HandleFile(fs, root, files[i], env);
      log := log + [outcome];
    }
    assert files[..|files|] == files;
  }

  // The imperative loop and the walk it drives.

  /** A directory still to be walked, with its path and its names from the top. */
  datatype Pending = Pending(root: string, rel: seq<string>, dir: Tree)

  /** What the walk still reports for the pending directories, in order. */
  function Forest(stack: seq<Pending>): seq<Entry> {
    if stack == [] then []
    else Walk(stack[0].root, stack[0].rel, stack[0].dir) + Forest(stack[1..])
  }

  function Children(root: string, rel: seq<string>, ts: seq<Tree>): (cs: seq<Pending>)
    ensures |cs| == |ts|
    ensures forall i :: 0 <= i < |ts| ==> cs[i] == Pending(Join(root, ts[i].name), rel + [ts[i].name], ts[i])
  {
    seq(|ts|, i requires 0 <= i < |ts| => Pending(Join(root, ts[i].name), rel + [ts[i].name], ts[i]))
  }

  lemma {:induction false} ForestAppend(a: seq<Pending>, b: seq<Pending>)
    ensures Forest(a + b) == Forest(a) + Forest(b)
  {
    if a != [] {
      assert (a + b)[1..] == a[1..] + b;
      ForestAppend(a[1..], b);
      ConcatAssoc(Walk(a[0].root, a[0].rel, a[0].dir), Forest(a[1..]), Forest(b));
    } else {
      assert a + b == b;
    }
  }

  lemma {:induction false} ForestChildren(root: string, rel: seq<string>, ts: seq<Tree>)
    ensures Forest(Children(root, rel, ts)) == WalkForest(root, rel, ts)
  {
    if ts != [] {
      assert Children(root, rel, ts)[1..] == Children(root, rel, ts[1..]);
      ForestChildren(root, rel, ts[1..]);
    }
  }

  /** Handling one more entry's files extends the run. */
  lemma RunEntry(paths: set<string>, visited: seq<Entry>, e: Entry, env: Env)
    ensures Run(paths, Visits(visited + [e]), env)
         == Handle(Run(paths, Visits(visited), env), VisitsOf(e.root, e.files), env)
  {
    VisitsExtend(visited, e);
    HandleAppend((paths, []), Visits(visited), VisitsOf(e.root, e.files), env);
  }

  /** Reporting the top directory and pushing its kept subdirectories leaves the walk unchanged. */
  lemma ForestStep(visited: seq<Entry>, stack: seq<Pending>)
    requires stack != []
    ensures var top := stack[0];
            var children := Children(top.root, top.rel, Prune(top.dir.subdirs));
            visited + [Entry(top.root, top.rel, top.dir.files)] + Forest(children + stack[1..])
              == visited + Forest(stack)
  {
    var top := stack[0];
    var dirs := Prune(top.dir.subdirs);
    var e := Entry(top.root, top.rel, top.dir.files);
    var below, rest := WalkForest(top.root, top.rel, dirs), Forest(stack[1..]);
    ForestChildren(top.root, top.rel, dirs);
    ForestAppend(Children(top.root, top.rel, dirs), stack[1..]);
    assert Forest(stack) == [e] + below + rest;
    ConcatAssoc([e], below, rest);
    ConcatAssoc(visited, [e], below + rest);
    ConcatAssoc(visited, [e] + below, rest);
  }

  /**
   * `main`: walk the source folder top-down, prune excluded subdirectories from each
   * `dirs` list before the walk descends, and handle every file of every directory.
   */
  method SortPhotos(fs: FileSystem, source: string, tree: Tree, env: Env) returns (log: seq<Outcome>)
    modifies fs
    ensures (fs.paths, log) == Run(old(fs.paths), Visits(Walk(source, [], tree)), env)
  {
    var stack := [Pending(source, [], tree)];
    ghost var visited: seq<Entry> := [];
    log := [];
    assert Forest(stack) == Walk(source, [], tree);
    while stack != []
      invariant visited + Forest(stack) == Walk(source, [], tree)
      invariant (fs.paths, log) == Run(old(fs.paths), Visits(visited), env)
      decreases |Walk(source, [], tree)| - |visited|
    {
      var top := stack[0];
      var dirs := top.dir.subdirs;
      dirs := Prune(dirs);
      ghost var entry := Entry(top.root, top.rel, top.dir.files);
      RunEntry(old(fs.paths), visited, entry, env);
      log := HandleFiles(fs, top.root, top.dir.files, env, log);
      ForestStep(visited, stack);
      visited := visited + [entry];
      stack := Children(top.root, top.rel, dirs) + stack[1..];
    }
    assert visited + Forest(stack) == visited;
  }
}

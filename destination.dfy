/**
 * The folder a file is sorted into (photo_sorter.py:106-115): raw files by
 * `RAW_BASE/YYYY/MM/DD`, all other media by `REGULAR_BASE/YYYY/YYYY-MM/YYYY-MM-DD`.
 */
module Destination {
  import opened Text
  import opened Paths
  import opened Extensions
  import opened DateTaken

  /** The two destination bases, built from the home directory in the script. */
  datatype Config = Config(rawBase: string, regularBase: string)

  /** A base as `os.path.join(HOME_DIR, ...)` yields it: not empty and without a trailing `/`. */
  predicate PlainBase(base: string) {
    base != [] && base[|base| - 1] != '/'
  }

  /** `strftime('%Y')`, `strftime('%m')` and `strftime('%d')`. */
  function YearText(t: Timestamp): string { Fixed(t.year, 4) }
  function MonthText(t: Timestamp): string { Fixed(t.month, 2) }
  function DayText(t: Timestamp): string { Fixed(t.day, 2) }

  /**
   * The day folder of a file: under the raw base for a raw extension and under the
   * regular base otherwise, ending with the two-digit day.
   */
  function DestinationFolder(ext: string, t: Timestamp, cfg: Config): (folder: string)
    ensures var base := if ext in RawExts then cfg.rawBase else cfg.regularBase;
            |folder| > |base| + 2 && folder[..|base|] == base
    ensures folder[|folder| - 2..] == DayText(t)
  {
    var Y, M, D := YearText(t), MonthText(t), DayText(t);
    if ext in RawExts then
      JoinedUnder(cfg.rawBase, Y, M, D);
      Join(Join(Join(cfg.rawBase, Y), M), D)
    else
      var YM, YMD := Y + "-" + M, Y + "-" + M + "-" + D;
      JoinedUnder(cfg.regularBase, Y, YM, YMD);
      assert YMD[|YMD| - 2..] == D;
      Join(Join(Join(cfg.regularBase, Y), YM), YMD)
  }

  /** Joining three relative components keeps the base in front and the last component at the end. */
  lemma JoinedUnder(base: string, first: string, second: string, third: string)
    requires first != [] && second != [] && |third| >= 2
    requires first[0] != '/' && second[0] != '/' && third[0] != '/'
    ensures var f := Join(Join(Join(base, first), second), third);
            |f| > |base| + 2 && f[..|base|] == base && f[|f| - 2..] == third[|third| - 2..]
  {
    var a := Join(base, first);
    var b := Join(a, second);
    var f := Join(b, third);
    JoinParts(base, first);
    JoinParts(a, second);
    JoinParts(b, third);
    assert f[..|base|] == b[..|a|][..|base|];
  }

  /** A raw file goes to `RAW_BASE/<4-digit year>/<2-digit month>/<2-digit day>`. */
  lemma RawFolderShape(ext: string, t: Timestamp, cfg: Config)
    requires ext in RawExts && PlainBase(cfg.rawBase)
    ensures DestinationFolder(ext, t, cfg)
            == cfg.rawBase + "/" + YearText(t) + "/" + MonthText(t) + "/" + DayText(t)
    ensures |YearText(t)| == 4 && Value(YearText(t)) == t.year
    ensures |MonthText(t)| == 2 && Value(MonthText(t)) == t.month
    ensures |DayText(t)| == 2 && Value(DayText(t)) == t.day
  {
    assert Pow10(2) == 100 && Pow10(4) == 10000;
    var Y, M, D := YearText(t), MonthText(t), DayText(t);
    JoinPlain(cfg.rawBase, Y);
    JoinPlain(cfg.rawBase + "/" + Y, M);
    JoinPlain(cfg.rawBase + "/" + Y + "/" + M, D);
  }

  /** Any other media file goes to `REGULAR_BASE/YYYY/YYYY-MM/YYYY-MM-DD`. */
  lemma RegularFolderShape(ext: string, t: Timestamp, cfg: Config)
    requires ext !in RawExts && PlainBase(cfg.regularBase)
    ensures var Y, M, D := YearText(t), MonthText(t), DayText(t);
            DestinationFolder(ext, t, cfg)
            == cfg.regularBase + "/" + Y + "/" + Y + "-" + M + "/" + Y + "-" + M + "-" + D
    ensures |YearText(t)| == 4 && Value(YearText(t)) == t.year
    ensures |MonthText(t)| == 2 && Value(MonthText(t)) == t.month
    ensures |DayText(t)| == 2 && Value(DayText(t)) == t.day
  {
    assert Pow10(2) == 100 && Pow10(4) == 10000;
    var Y, M, D := YearText(t), MonthText(t), DayText(t);
    JoinPlain(cfg.regularBase, Y);
    JoinPlain(cfg.regularBase + "/" + Y, Y + "-" + M);
    JoinPlain(cfg.regularBase + "/" + Y + "/" + Y + "-" + M, Y + "-" + M + "-" + D);
  }

  lemma RawFolderPieces(base: string, y: string, m: string, d: string)
    requires |y| == 4 && |m| == 2 && |d| == 2
    ensures var f, n := base + "/" + y + "/" + m + "/" + d, |base|;
            f[n + 1..n + 5] == y && f[n + 6..n + 8] == m && f[n + 9..n + 11] == d
  {
  }

  lemma RegularFolderPieces(base: string, y: string, m: string, d: string)
    requires |y| == 4 && |m| == 2 && |d| == 2
    ensures var f, n := base + "/" + y + "/" + y + "-" + m + "/" + y + "-" + m + "-" + d, |base|;
            f[n + 1..n + 5] == y && f[n + 11..n + 13] == m && f[n + 22..n + 24] == d
  {
  }

  /** Two files of the same class share a folder exactly when they share a calendar day. */
  lemma FolderIsTheDay(ext: string, t1: Timestamp, t2: Timestamp, cfg: Config)
    requires PlainBase(cfg.rawBase) && PlainBase(cfg.regularBase)
    ensures DestinationFolder(ext, t1, cfg) == DestinationFolder(ext, t2, cfg)
            <==> t1.year == t2.year && t1.month == t2.month && t1.day == t2.day
  {
    if ext in RawExts {
      RawFolderShape(ext, t1, cfg);
      RawFolderShape(ext, t2, cfg);
      RawFolderPieces(cfg.rawBase, YearText(t1), MonthText(t1), DayText(t1));
      RawFolderPieces(cfg.rawBase, YearText(t2), MonthText(t2), DayText(t2));
    } else {
      RegularFolderShape(ext, t1, cfg);
      RegularFolderShape(ext, t2, cfg);
      RegularFolderPieces(cfg.regularBase, YearText(t1), MonthText(t1), DayText(t1));
      RegularFolderPieces(cfg.regularBase, YearText(t2), MonthText(t2), DayText(t2));
    }
  }
}

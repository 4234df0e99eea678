/**
 A download task (app.py `download_task` and the record it updates): the
 requested columns are checked in order, one work unit is built per
 non-empty cell, every unit is fetched and counted, and the work directory
 is archived.
 */
module Tasks {
  import opened Wrappers
  import opened Paths
  import Filenames
  import Fetcher

  datatype Status = Pending | Downloading | Done | Error

  /** The status as the progress report spells it. */
  function StatusName(s: Status): (name: string)
    ensures name in {"pending", "downloading", "done", "error"}
  {
    match s
    case Pending => "pending"
    case Downloading => "downloading"
    case Done => "done"
    case Error => "error"
  }

  /** The spreadsheet as read: each column name with its cells in row order; an empty cell is `None`. */
  type Sheet = map<string, seq<Option<string>>>

  /** One download: the cell's URL, where the image goes, and the column it came from. */
  datatype Unit = Unit(url: string, savePath: string, column: string)

  // ---------------------------------------------------------------------
  // Columns and units
  // ---------------------------------------------------------------------

  /** The non-empty cells of a column, in row order. */
  function NonNull(cells: seq<Option<string>>): (urls: seq<string>)
    ensures |urls| <= |cells|
    ensures forall k :: 0 <= k < |urls| ==> Some(urls[k]) in cells
    ensures (forall k :: 0 <= k < |cells| ==> cells[k].Some?) ==> |urls| == |cells|
    ensures (forall k :: 0 <= k < |cells| ==> cells[k].None?) ==> urls == []
  {
    if cells == [] then []
    else
      var rest := NonNull(cells[1..]);
      assert forall k :: 0 <= k < |rest| ==> Some(rest[k]) in cells by {
        forall k | 0 <= k < |rest| ensures Some(rest[k]) in cells {
          assert Some(rest[k]) in cells[1..];
        }
      }
      if cells[0].Some? then [cells[0].value] + rest else rest
  }

  /** A cell appended to the column adds its value at the end exactly when it is filled. */
  lemma {:induction false} NonNullSnoc(cells: seq<Option<string>>, c: Option<string>)
    ensures NonNull(cells + [c]) == NonNull(cells) + (if c.Some? then [c.value] else [])
  {
    if cells == [] {
      assert [] + [c] == [c];
      assert [c][1..] == [];
    } else {
      assert (cells + [c])[1..] == cells[1..] + [c];
      assert (cells + [c])[0] == cells[0];
      NonNullSnoc(cells[1..], c);
    }
  }

  /** `workdir/col/filename(url)`. */
  function SavePath(workdir: string, col: string, url: string): (p: string)
    ensures var name := Filenames.FromUrl(url); |name| <= |p| && p[|p| - |name|..] == name
  {
    Join(Join(workdir, col), Filenames.FromUrl(url))
  }

  /** A name without `/` ends up as the last component of its column's directory. */
  lemma SavePathInColumnDir(workdir: string, col: string, url: string)
    requires '/' !in Filenames.FromUrl(url)
    ensures Basename(SavePath(workdir, col, url)) == Filenames.FromUrl(url)
  {
    BasenameOfJoin(Join(workdir, col), Filenames.FromUrl(url));
  }

  /** A name that decodes to an absolute path replaces the work directory altogether. */
  lemma SavePathEscapes(workdir: string, col: string, url: string)
    requires Filenames.FromUrl(url)[0] == '/'
    ensures SavePath(workdir, col, url) == Filenames.FromUrl(url)
  {
  }

  /**
   A URL whose last segment starts with `%2F` saves outside the work
   directory: the decoded name is an absolute path, which the join keeps.
   */
  lemma EscapedSlashLeavesWorkdir(scheme: string, host: string, dir: string, b: string, tail: string,
                                  workdir: string, col: string)
    requires Filenames.IsPlainUrl(scheme, host, dir + "/", tail)
    requires forall k :: 0 <= k < |b| ==> Filenames.IsNameChar(b[k])
    ensures SavePath(workdir, col, Filenames.PlainUrl(scheme, host, dir + "/" + ("" + "%2F" + b), tail)) == "/" + b
  {
    Filenames.DecodesEscapedSlash(scheme, host, dir, "", b, tail);
    assert "" + "/" + b == "/" + b;
  }

  /** `save` sends `(col, url)` to `workdir/col/filename(url)`. */
  ghost predicate SavesIn(save: (string, string) -> string, workdir: string) {
    forall col, url {:trigger SavePath(workdir, col, url)} :: save(col, url) == SavePath(workdir, col, url)
  }

  /** The units of one column: one per URL, in row order, each saved where `save` says. */
  function ColumnUnits(save: (string, string) -> string, col: string, urls: seq<string>): (us: seq<Unit>)
    ensures |us| == |urls|
  {
    if urls == [] then []
    else
      var url := urls[|urls| - 1];
      ColumnUnits(save, col, urls[..|urls| - 1]) + [Unit(url, save(col, url), col)]
  }

  /** The `k`-th unit of a column belongs to its `k`-th URL. */
  lemma {:induction false} ColumnUnitsAt(save: (string, string) -> string, col: string, urls: seq<string>, k: nat)
    requires k < |urls|
    ensures ColumnUnits(save, col, urls)[k] == Unit(urls[k], save(col, urls[k]), col)
    decreases |urls|
  {
    var front := urls[..|urls| - 1];
    if k < |front| {
      ColumnUnitsAt(save, col, front, k);
      assert front[k] == urls[k];
    }
  }

  /** Building a column's units one URL at a time. */
  lemma ColumnUnitsSnoc(save: (string, string) -> string, col: string, urls: seq<string>, j: nat)
    requires j < |urls|
    ensures ColumnUnits(save, col, urls[..j + 1])
         == ColumnUnits(save, col, urls[..j]) + [Unit(urls[j], save(col, urls[j]), col)]
  {
    assert urls[..j + 1][..j] == urls[..j];
  }

  predicate AllPresent(sheet: Sheet, cols: seq<string>) {
    forall k :: 0 <= k < |cols| ==> cols[k] in sheet
  }

  /** A present column extends a present prefix. */
  lemma AllPresentSnoc(sheet: Sheet, cols: seq<string>, i: nat)
    requires i < |cols| && AllPresent(sheet, cols[..i]) && cols[i] in sheet
    ensures AllPresent(sheet, cols[..i + 1])
  {
    assert forall k :: 0 <= k < i ==> cols[..i + 1][k] == cols[..i][k];
  }

  /** Sum of the non-empty cell counts of the columns. */
  function Total(sheet: Sheet, cols: seq<string>): nat
    requires AllPresent(sheet, cols)
  {
    if cols == [] then 0
    else Total(sheet, cols[..|cols| - 1]) + |NonNull(sheet[cols[|cols| - 1]])|
  }

  /** The work-unit list: the units of each column in turn. */
  function Units(save: (string, string) -> string, sheet: Sheet, cols: seq<string>): (us: seq<Unit>)
    requires AllPresent(sheet, cols)
    ensures |us| == Total(sheet, cols)
  {
    if cols == [] then []
    else
      var col := cols[|cols| - 1];
      var front := cols[..|cols| - 1];
      Units(save, sheet, front) + ColumnUnits(save, col, NonNull(sheet[col]))
  }

  /**
   Every unit saves to `workdir/col/filename(url)` for a non-empty cell
   `url` of a column `col` it was asked for.
   */
  lemma {:induction false} UnitsShape(save: (string, string) -> string, sheet: Sheet, cols: seq<string>, k: nat)
    requires AllPresent(sheet, cols)
    requires k < |Units(save, sheet, cols)|
    ensures var u := Units(save, sheet, cols)[k];
      && u.column in cols
      && Some(u.url) in sheet[u.column]
      && u.savePath == save(u.column, u.url)
    decreases |cols|
  {
    var col := cols[|cols| - 1];
    var front := cols[..|cols| - 1];
    var urls := NonNull(sheet[col]);
    var n := |Units(save, sheet, front)|;
    if k < n {
      UnitsShape(save, sheet, front, k);
    } else {
      ColumnUnitsAt(save, col, urls, k - n);
      assert Some(urls[k - n]) in sheet[col];
    }
  }

  /** Units follow the column order: the units of `c1 + c2` are those of `c1`, then those of `c2`. */
  lemma {:induction false} UnitsAppend(save: (string, string) -> string, sheet: Sheet, c1: seq<string>, c2: seq<string>)
    requires AllPresent(sheet, c1) && AllPresent(sheet, c2)
    ensures AllPresent(sheet, c1 + c2)
    ensures Units(save, sheet, c1 + c2) == Units(save, sheet, c1) + Units(save, sheet, c2)
    decreases |c2|
  {
    forall k | 0 <= k < |c1 + c2|
      ensures (c1 + c2)[k] in sheet
    {
      if k >= |c1| {
        assert (c1 + c2)[k] == c2[k - |c1|];
      }
    }
    if c2 == [] {
      assert c1 + c2 == c1;
    } else {
      var front := c2[..|c2| - 1];
      var last := c2[|c2| - 1];
      assert (c1 + c2)[..|c1 + c2| - 1] == c1 + front;
      assert (c1 + c2)[|c1 + c2| - 1] == last;
      UnitsAppend(save, sheet, c1, front);
      var tail := ColumnUnits(save, last, NonNull(sheet[last]));
      assert Units(save, sheet, c1 + c2) == Units(save, sheet, c1 + front) + tail;
      assert Units(save, sheet, c2) == Units(save, sheet, front) + tail;
      SeqAssoc(Units(save, sheet, c1), Units(save, sheet, front), tail);
    }
  }

  /** The cell counts recorded for the columns. */
  function Counts(sheet: Sheet, cols: seq<string>): map<string, nat>
    requires AllPresent(sheet, cols)
  {
    map c | c in cols :: |NonNull(sheet[c])|
  }

  /** Recording one more column's count. */
  lemma CountsSnoc(sheet: Sheet, cols: seq<string>)
    requires cols != [] && AllPresent(sheet, cols)
    ensures AllPresent(sheet, cols[..|cols| - 1])
    ensures var col := cols[|cols| - 1];
      Counts(sheet, cols) == Counts(sheet, cols[..|cols| - 1])[col := |NonNull(sheet[col])|]
  {
    var front := cols[..|cols| - 1];
    assert forall c :: c in cols <==> c in front || c == cols[|cols| - 1];
  }

  /** Counts are only recorded for declared columns. */
  lemma CountsKeys(sheet: Sheet, cols: seq<string>, m: nat)
    requires m <= |cols| && AllPresent(sheet, cols[..m])
    ensures Counts(sheet, cols[..m]).Keys <= set c | c in cols
  {
    assert forall c :: c in cols[..m] ==> c in cols;
  }

  lemma UnionUpdate<K, V>(a: map<K, V>, b: map<K, V>, k: K, v: V)
    ensures (a + b)[k := v] == a + b[k := v]
  {
  }

  lemma SeqAssoc<T>(a: seq<T>, b: seq<T>, c: seq<T>)
    ensures a + b + c == a + (b + c)
  {
  }

  /** The position of the first column the sheet lacks, or the number of columns. */
  function FirstMissing(sheet: Sheet, cols: seq<string>): (i: nat)
    ensures i <= |cols|
    ensures i < |cols| ==> cols[i] !in sheet
    ensures forall k :: 0 <= k < i ==> cols[k] in sheet
  {
    if cols == [] then 0
    else if cols[0] !in sheet then 0
    else 1 + FirstMissing(sheet, cols[1..])
  }

  /** The three properties of `FirstMissing` determine it. */
  lemma {:induction false} FirstMissingIs(sheet: Sheet, cols: seq<string>, i: nat)
    requires i <= |cols| && (i < |cols| ==> cols[i] !in sheet)
    requires forall k :: 0 <= k < i ==> cols[k] in sheet
    ensures FirstMissing(sheet, cols) == i
  {
    if 0 < i {
      assert cols[0] in sheet;
      FirstMissingIs(sheet, cols[1..], i - 1);
    }
  }

  /** The same, with the columns before `i` known present as a prefix. */
  lemma FirstMissingAfter(sheet: Sheet, cols: seq<string>, i: nat)
    requires i <= |cols| && (i < |cols| ==> cols[i] !in sheet)
    requires AllPresent(sheet, cols[..i])
    ensures FirstMissing(sheet, cols) == i
  {
    assert forall k :: 0 <= k < i ==> cols[..i][k] == cols[k];
    FirstMissingIs(sheet, cols, i);
  }

  /** The error recorded for a missing column. */
  function MissingColumnMessage(col: string): (msg: string)
    ensures |msg| == 7 + |col| && msg[7..] == col
  {
    "列名不存在: " + col
  }

  // ---------------------------------------------------------------------
  // Progress
  // ---------------------------------------------------------------------

  /** Completed share in whole percent, rounded down; 0 while there is nothing to do. */
  function Percent(done: nat, total: nat): (p: nat)
    requires done <= total
    ensures p <= 100
    ensures done == 0 ==> p == 0
    ensures 0 < total && done == total ==> p == 100
  {
    if total == 0 then 0
    else
      DivMonotone(done * 100, total * 100, total);
      assert total * 100 / total == 100;
      done * 100 / total
  }

  /** Progress never goes down as units complete. */
  lemma PercentMonotone(d1: nat, d2: nat, total: nat)
    requires d1 <= d2 <= total
    ensures Percent(d1, total) <= Percent(d2, total)
  {
    if 0 < total {
      assert d1 * 100 <= d2 * 100;
      DivMonotone(d1 * 100, d2 * 100, total);
    }
  }

  lemma DivMonotone(a: nat, b: nat, d: nat)
    requires a <= b && 0 < d
    ensures a / d <= b / d
  {
    var qa, qb := a / d, b / d;
    assert qa * d <= a && b < qb * d + d;
    assert qb + 1 <= qa ==> (qb + 1) * d <= qa * d;
  }

  // ---------------------------------------------------------------------
  // The fetch of every unit, in submission order
  // ---------------------------------------------------------------------

  /**
   What fetching the units did: each unit's result and number of GET
   requests, in submission order, and the set of paths present afterwards.
   */
  datatype Fetched = Fetched(results: seq<bool>, gets: seq<nat>, disk: set<string>)

  /**
   The results of fetching `units` in order, unit `k` with the attempt
   outcomes `attempts(k)`. Every unit sends at most three requests; the
   fetches only ever add files, and only at the units' save paths.
   */
  function FetchAll(disk: set<string>, units: seq<Unit>, attempts: nat -> Fetcher.Attempts): (r: Fetched)
    ensures |r.results| == |units| && |r.gets| == |units|
    ensures forall k :: 0 <= k < |units| ==> r.gets[k] <= Fetcher.Retries
    ensures disk <= r.disk
    ensures forall p :: p in r.disk && p !in disk ==> exists k :: 0 <= k < |units| && units[k].savePath == p
  {
    if units == [] then Fetched([], [], disk)
    else
      var n := |units| - 1;
      var f := FetchAll(disk, units[..n], attempts);
      var u := units[n];
      var o := Fetcher.Fetch(u.savePath in f.disk, attempts(n));
      assert forall p :: p in f.disk && p !in disk ==> exists k :: 0 <= k < |units| && units[k].savePath == p by {
        forall p | p in f.disk && p !in disk ensures exists k :: 0 <= k < |units| && units[k].savePath == p {
          var k :| 0 <= k < n && units[..n][k].savePath == p;
          assert units[k].savePath == p;
        }
      }
      Fetched(f.results + [o.ok], f.gets + [o.gets], if o.fileExists then f.disk + {u.savePath} else f.disk)
  }

  /**
   A unit whose save path is present when its turn comes (left by an
   earlier unit or there from the start) succeeds without sending a request.
   */
  lemma PresentFileSucceeds(disk: set<string>, units: seq<Unit>, attempts: nat -> Fetcher.Attempts, k: nat)
    requires k < |units| && units[k].savePath in FetchAll(disk, units[..k], attempts).disk
    ensures FetchAll(disk, units[..k + 1], attempts).results[k]
    ensures FetchAll(disk, units[..k + 1], attempts).gets[k] == 0
  {
    assert units[..k + 1][..k] == units[..k];
  }

  /** Fetching one more unit keeps what was fetched before it. */
  lemma {:induction false} FetchAllPrefix(disk: set<string>, units: seq<Unit>, attempts: nat -> Fetcher.Attempts, m: nat)
    requires m <= |units|
    ensures FetchAll(disk, units, attempts).results[..m] == FetchAll(disk, units[..m], attempts).results
    ensures FetchAll(disk, units, attempts).gets[..m] == FetchAll(disk, units[..m], attempts).gets
    decreases |units|
  {
    if m < |units| {
      var n := |units| - 1;
      assert units[..n][..m] == units[..m];
      FetchAllPrefix(disk, units[..n], attempts, m);
      var f := FetchAll(disk, units[..n], attempts);
      assert FetchAll(disk, units, attempts).results[..m] == f.results[..m];
      assert FetchAll(disk, units, attempts).gets[..m] == f.gets[..m];
    } else {
      assert units[..m] == units;
    }
  }

  // ---------------------------------------------------------------------
  // The archive
  // ---------------------------------------------------------------------

  /** The archive's file name. */
  function ZipName(id: string): string {
    id + "_result.zip"
  }

  /** Where the archive is recorded: `workdir/<id>_result.zip`. */
  function ZipPath(workdir: string, id: string): (zip: string)
    ensures zip != []
  {
    Join(workdir, ZipName(id))
  }

  /** The recorded archive path ends in the file name the download offers. */
  lemma ZipPathBasename(workdir: string, id: string)
    requires '/' !in id
    ensures Basename(ZipPath(workdir, id)) == ZipName(id)
  {
    assert ZipName(id)[|id|] == '_';
    BasenameOfJoin(workdir, ZipName(id));
  }

  predicate HasZipSuffix(s: string) {
    |s| >= 4 && s[|s| - 4..] == ".zip"
  }

  /**
   The archive base as the source computes it: every ".zip" in the path
   removed, not only the suffix.
   */
  function ArchiveBaseAsWritten(zip: string): (base: string)
    ensures |base| <= |zip|
  {
    ReplaceAll(zip, ".zip", "")
  }

  /** The intended archive base: the path without its ".zip" suffix. */
  function ArchiveBase(zip: string): (base: string)
    ensures HasZipSuffix(zip) ==> base + ".zip" == zip
    ensures !HasZipSuffix(zip) ==> base == zip
  {
    if HasZipSuffix(zip) then zip[..|zip| - 4] else zip
  }

  lemma ZipPathSuffix(workdir: string, id: string)
    ensures HasZipSuffix(ZipPath(workdir, id))
    ensures ArchiveBase(ZipPath(workdir, id)) + ".zip" == ZipPath(workdir, id)
  {
    var z := ZipPath(workdir, id);
    assert z[|z| - 4..] == ZipName(id)[|ZipName(id)| - 4..];
  }

  /**
   Removing every ".zip" agrees with removing the suffix when the suffix is
   the only occurrence.
   */
  lemma AsWrittenAgrees(zip: string)
    requires HasZipSuffix(zip)
    requires forall k :: OccursAt(zip, ".zip", k) ==> k == |zip| - 4
    ensures ArchiveBaseAsWritten(zip) == ArchiveBase(zip)
  {
    ReplaceSuffixOnly(zip, ".zip", "");
  }

  /**
   When neither the work directory nor the id holds a `.` (a uuid under a
   usual temporary directory), the source's base is the archive path without
   its ".zip" suffix.
   */
  lemma AsWrittenAgreesWithoutDots(workdir: string, id: string)
    requires '.' !in workdir && '.' !in id
    ensures ArchiveBaseAsWritten(ZipPath(workdir, id)) == ArchiveBase(ZipPath(workdir, id))
    ensures ArchiveBaseAsWritten(ZipPath(workdir, id)) + ".zip" == ZipPath(workdir, id)
  {
    var name := id + "_result";
    NoDotConcat(id, "_result");
    assert ZipName(id) == name + ".zip";
    JoinAppend(workdir, name, ".zip");
    var front := Join(workdir, name);
    JoinNoDot(workdir, name);
    OnlySuffix(front);
    ZipPathSuffix(workdir, id);
    AsWrittenAgrees(front + ".zip");
  }

  lemma NoDotConcat(a: string, b: string)
    requires '.' !in a && '.' !in b
    ensures '.' !in a + b
  {
  }

  /** A join only adds a `/` between its parts, or keeps the second part alone. */
  lemma JoinNoDot(a: string, b: string)
    requires '.' !in a && '.' !in b
    ensures '.' !in Join(a, b)
  {
    NoDotConcat(a, b);
    NoDotConcat(a, "/");
    NoDotConcat(a + "/", b);
  }

  /** Appending to a non-empty second part appends to the join. */
  lemma JoinAppend(a: string, b: string, c: string)
    requires b != []
    ensures Join(a, b + c) == Join(a, b) + c
  {
    assert (b + c)[0] == b[0];
    if b[0] == '/' {
    } else if a == [] || a[|a| - 1] == '/' {
      assert a + (b + c) == a + b + c;
    } else {
      assert a + "/" + (b + c) == a + "/" + b + c;
    }
  }

  /** In a path without `.` followed by ".zip", the suffix is the only ".zip". */
  lemma OnlySuffix(front: string)
    requires '.' !in front
    ensures forall k :: OccursAt(front + ".zip", ".zip", k) ==> k == |front|
  {
    var zip := front + ".zip";
    forall k | OccursAt(zip, ".zip", k)
      ensures k == |front|
    {
      assert zip[k] == zip[k..k + 4][0] == '.';
    }
  }

  /** Replacement of a pattern that occurs only at the very end. */
  lemma {:induction false} ReplaceSuffixOnly(s: string, pat: string, rep: string)
    requires pat != [] && |s| >= |pat| && s[|s| - |pat|..] == pat
    requires forall k :: OccursAt(s, pat, k) ==> k == |s| - |pat|
    ensures ReplaceAll(s, pat, rep) == s[..|s| - |pat|] + rep
    decreases |s|
  {
    if |s| == |pat| {
      assert s[..|pat|] == pat;
      assert ReplaceAll(s[|pat|..], pat, rep) == [];
      assert s[..0] + rep == rep;
    } else {
      assert OccursAt(s, pat, 0) <==> s[..|pat|] == pat;
      var t := s[1..];
      assert t[|t| - |pat|..] == s[|s| - |pat|..];
      forall k | OccursAt(t, pat, k)
        ensures k == |t| - |pat|
      {
        assert t[k..k + |pat|] == s[k + 1..k + 1 + |pat|];
        assert OccursAt(s, pat, k + 1);
      }
      ReplaceSuffixOnly(t, pat, rep);
      assert [s[0]] + t[..|t| - |pat|] == s[..|s| - |pat|];
    }
  }

  /** Text without the pattern's first character is copied unchanged. */
  lemma {:induction false} ReplaceAllPlainPrefix(a: string, t: string, pat: string, rep: string)
    requires pat != [] && pat[0] !in a
    ensures ReplaceAll(a + t, pat, rep) == a + ReplaceAll(t, pat, rep)
    decreases |a|
  {
    if a == [] {
      assert a + t == t;
    } else {
      var s := a + t;
      assert s[0] == a[0] && s[1..] == a[1..] + t;
      assert |s| >= |pat| ==> s[..|pat|][0] != pat[0];
      ReplaceAllPlainPrefix(a[1..], t, pat, rep);
      assert [a[0]] + (a[1..] + ReplaceAll(t, pat, rep)) == a + ReplaceAll(t, pat, rep);
    }
  }

  /**
   A work directory whose path contains ".zip" (under a temporary directory
   such as `/tmp/x.zip`) makes the source archive to a different place than
   the path it records.
   */
  lemma AsWrittenMisplacesArchive(a: string, b: string, id: string)
    requires '.' !in a && b != [] && b[0] == '/' && '/' !in id
    ensures var zip := ZipPath(a + ".zip" + b, id);
      ArchiveBaseAsWritten(zip) + ".zip" != zip
  {
    var w := a + ".zip" + b;
    var zip := ZipPath(w, id);
    var rest := zip[|a| + 4..];
    assert zip[..|w|] == w;
    assert zip == a + (".zip" + rest);
    assert rest[0] == '/';
    ReplaceAllPlainPrefix(a, ".zip" + rest, ".zip", "");
    assert (".zip" + rest)[..4] == ".zip" && (".zip" + rest)[4..] == rest;
    assert ReplaceAll(".zip" + rest, ".zip", "") == ReplaceAll(rest, ".zip", "");
    assert rest == "/" + rest[1..];
    ReplaceAllPlainPrefix("/", rest[1..], ".zip", "");
    var x := ArchiveBaseAsWritten(zip);
    assert x == a + ("/" + ReplaceAll(rest[1..], ".zip", ""));
    assert (x + ".zip")[|a|] == '/' && zip[|a|] == '.';
  }

  // ---------------------------------------------------------------------
  // The task record
  // ---------------------------------------------------------------------

  /** The declared columns, each recorded once. */
  function DeclaredSet(declared: seq<string>): set<string> {
    set c | c in declared
  }

  /**
   One entry of the task table and the run that updates it. `id`,
   `workdir` and the declared columns are fixed at creation; the other
   fields are what the progress report shows, plus the archive path.
   */
  class Task {
    const id: string
    const workdir: string
    const declared: seq<string>
    /** Where the task saves the image of a cell: `SavesIn(save, workdir)`. */
    const save: (string, string) -> string
    var status: Status
    var progress: nat
    var error: string
    var columns: map<string, nat>
    var total: nat
    var done: nat
    var zip: string
    /** The base name the archiver was given, once the run gets that far. */
    ghost var archiveBase: string

    /**
     What holds of the record at every point where someone else can see it:
     the counters are in range, the progress matches them, the column table
     has exactly the declared columns, and the error text and the archive
     path are set only in the matching terminal state.
     */
    ghost predicate Valid()
      reads this
    {
      && done <= total
      && progress == Percent(done, total)
      && columns.Keys == DeclaredSet(declared)
      && (status == Pending ==> total == 0 && done == 0 && error == "" && forall c :: c in columns ==> columns[c] == 0)
      && (status != Error ==> error == "")
      && (status == Done ==> done == total && zip == ZipPath(workdir, id) && archiveBase == ArchiveBaseAsWritten(zip))
      && (status != Done ==> zip == "")
    }

    /** The record the upload handler stores: pending, all counters zero. */
    constructor(id: string, workdir: string, declared: seq<string>)
      ensures Valid() && SavesIn(save, workdir)
      ensures this.id == id && this.workdir == workdir && this.declared == declared
      ensures status == Pending && progress == 0 && error == "" && total == 0 && done == 0 && zip == ""
      ensures columns == map c | c in declared :: 0
    {
      this.id := id;
      this.workdir := workdir;
      this.declared := declared;
      this.save := (col, url) => SavePath(workdir, col, url);
      status := Pending;
      progress := 0;
      error := "";
      columns := map c | c in declared :: 0;
      total := 0;
      done := 0;
      zip := "";
      archiveBase := "";
    }

    /** The inner loop: one unit per URL of column `col`, appended in row order. */
    method AppendColumn(units: seq<Unit>, col: string, urls: seq<string>) returns (units': seq<Unit>)
      requires SavesIn(save, workdir)
      ensures units' == units + ColumnUnits(save, col, urls)
    {
      units' := units;
      for j := 0 to |urls|
        invariant units' == units + ColumnUnits(save, col, urls[..j])
      {
        var url := urls[j];
        var filename := Filenames.FromUrl(url);
        var saveDir := Join(workdir, col);
        var savePath := Join(saveDir, filename);
        assert savePath == SavePath(workdir, col, url);
        ColumnUnitsSnoc(save, col, urls, j);
        SeqAssoc(units, ColumnUnits(save, col, urls[..j]), [Unit(url, savePath, col)]);
        units' := units' + [Unit(url, savePath, col)];
      }
      assert urls[..|urls|] == urls;
    }

    /**
     One step of the column loop: records the count of the present column
     `declared[i]` and appends its units.
     */
    method AddColumn(sheet: Sheet, i: nat, units: seq<Unit>, count: nat, ghost base: map<string, nat>)
      returns (units': seq<Unit>, count': nat)
      requires SavesIn(save, workdir) && i < |declared| && declared[i] in sheet
      requires AllPresent(sheet, declared[..i]) && units == Units(save, sheet, declared[..i]) && count == |units|
      requires columns == base + Counts(sheet, declared[..i])
      modifies this`columns
      ensures AllPresent(sheet, declared[..i + 1])
      ensures units' == Units(save, sheet, declared[..i + 1]) && count' == |units'|
      ensures columns == base + Counts(sheet, declared[..i + 1])
    {
      var col := declared[i];
      var urls := NonNull(sheet[col]);
      count' := count + |urls|;
      columns := columns[col := |urls|];
      units' := AppendColumn(units, col, urls);
      AllPresentSnoc(sheet, declared, i);
      var next := declared[..i + 1];
      assert next[..i] == declared[..i] && next[i] == col;
      CountsSnoc(sheet, next);
      UnionUpdate(base, Counts(sheet, declared[..i]), col, |urls|);
    }

    /**
     Checks the declared columns in order, recording each present column's
     count, and builds the work units; stops at the first missing column.
     */
    method CollectUnits(sheet: Sheet) returns (units: seq<Unit>, count: nat, missing: Option<string>)
      requires SavesIn(save, workdir)
      modifies this`columns
      ensures var m := FirstMissing(sheet, declared);
        && AllPresent(sheet, declared[..m])
        && columns == old(columns) + Counts(sheet, declared[..m])
        && (m < |declared| ==> missing == Some(declared[m]))
        && (m == |declared| ==> missing == None && units == Units(save, sheet, declared) && count == |units|)
    {
      units, count := [], 0;
      for i := 0 to |declared|
        invariant AllPresent(sheet, declared[..i])
        invariant units == Units(save, sheet, declared[..i]) && count == |units|
        invariant columns == old(columns) + Counts(sheet, declared[..i])
      {
        var col := declared[i];
        if col !in sheet {
          FirstMissingAfter(sheet, declared, i);
          missing := Some(col);
          return;
        }
        units, count := AddColumn(sheet, i, units, count, old(columns));
      }
      FirstMissingAfter(sheet, declared, |declared|);
      assert declared[..|declared|] == declared;
      missing := None;
    }

    /**
     Fetches the units in submission order, counting each completion
     whatever its result and updating the progress after each.
     */
    method CountCompletions(units: seq<Unit>, disk: set<string>, attempts: nat -> Fetcher.Attempts)
      returns (results: seq<bool>, gets: seq<nat>, disk': set<string>)
      requires total == |units| && done == 0 && progress == 0
      modifies this`done, this`progress
      ensures done == total && progress == Percent(total, total)
      ensures Fetched(results, gets, disk') == FetchAll(disk, units, attempts)
    {
      results, gets, disk' := [], [], disk;
      for k := 0 to |units|
        invariant done == k && progress == Percent(k, total)
        invariant Fetched(results, gets, disk') == FetchAll(disk, units[..k], attempts)
      {
        var u := units[k];
        var ok, n, fileExists;
        ghost var sleeps;
        ok, n, fileExists, sleeps := Fetcher.DownloadImage(u.savePath in disk', attempts(k));
        assert units[..k + 1][..k] == units[..k];
        if fileExists {
          disk' := disk' + {u.savePath};
        }
        results, gets := results + [ok], gets + [n];
        done := done + 1;
        progress := Percent(done, total);
      }
      assert units[..|units|] == units;
    }

    /**
     `download_task`: marks the task as downloading, reads the sheet,
     validates the columns and builds the units, fetches and counts them,
     archives the work directory and records the outcome. `sheet` is what
     reading the spreadsheet gave (or its error message), `disk` the save
     paths present at the start, `attempts(k)` the attempt outcomes of unit
     `k`, and `archiveError` the archiver's error message, if it failed.
     */
    method Run(sheet: Result<Sheet, string>, disk: set<string>, attempts: nat -> Fetcher.Attempts,
               archiveError: Option<string>)
      returns (results: seq<bool>, gets: seq<nat>, disk': set<string>)
      requires Valid() && SavesIn(save, workdir) && status == Pending
      modifies this
      ensures Valid()
      ensures status == Done || status == Error
      ensures sheet.Err? ==>
        && status == Error && error == sheet.error
        && columns == old(columns) && total == 0 && done == 0
        && results == [] && gets == [] && disk' == disk
      ensures sheet.Ok? && FirstMissing(sheet.value, declared) < |declared| ==>
        var m := FirstMissing(sheet.value, declared);
        && AllPresent(sheet.value, declared[..m])
        && status == Error && error == MissingColumnMessage(declared[m])
        && columns == old(columns) + Counts(sheet.value, declared[..m]) && total == 0 && done == 0
        && results == [] && gets == [] && disk' == disk
      ensures sheet.Ok? && FirstMissing(sheet.value, declared) == |declared| ==>
        && AllPresent(sheet.value, declared)
        && columns == old(columns) + Counts(sheet.value, declared)
        && total == |Units(save, sheet.value, declared)| && done == total
        && Fetched(results, gets, disk') == FetchAll(disk, Units(save, sheet.value, declared), attempts)
        && archiveBase == ArchiveBaseAsWritten(ZipPath(workdir, id))
        && (archiveError.None? ==> status == Done && zip == ZipPath(workdir, id))
        && (archiveError.Some? ==> status == Error && error == archiveError.value && zip == "")
    {
      status := Downloading;
      progress := 0;
      error := "";
      if sheet.Err? {
        results, gets, disk' := [], [], disk;
        error := sheet.error;
        status := Error;
        return;
      }
      results, gets, disk' := RunSheet(sheet.value, disk, attempts, archiveError);
    }

    /** The run once the sheet has been read: columns and units, then the fetches and the archive. */
    method RunSheet(sheet: Sheet, disk: set<string>, attempts: nat -> Fetcher.Attempts,
                    archiveError: Option<string>)
      returns (results: seq<bool>, gets: seq<nat>, disk': set<string>)
      requires SavesIn(save, workdir) && columns.Keys == DeclaredSet(declared)
      requires status == Downloading && progress == 0 && error == "" && zip == "" && total == 0 && done == 0
      modifies this
      ensures Valid()
      ensures FirstMissing(sheet, declared) < |declared| ==>
        var m := FirstMissing(sheet, declared);
        && AllPresent(sheet, declared[..m])
        && status == Error && error == MissingColumnMessage(declared[m])
        && columns == old(columns) + Counts(sheet, declared[..m]) && total == 0 && done == 0
        && results == [] && gets == [] && disk' == disk
      ensures FirstMissing(sheet, declared) == |declared| ==>
        && AllPresent(sheet, declared)
        && columns == old(columns) + Counts(sheet, declared)
        && total == |Units(save, sheet, declared)| && done == total
        && Fetched(results, gets, disk') == FetchAll(disk, Units(save, sheet, declared), attempts)
        && archiveBase == ArchiveBaseAsWritten(ZipPath(workdir, id))
        && (archiveError.None? ==> status == Done && zip == ZipPath(workdir, id))
        && (archiveError.Some? ==> status == Error && error == archiveError.value && zip == "")
    {
      results, gets, disk' := [], [], disk;
      var units, count, missing := CollectUnits(sheet);
      ghost var m := FirstMissing(sheet, declared);
      CountsKeys(sheet, declared, m);
      assert columns.Keys == DeclaredSet(declared);
      assert m == |declared| ==> declared[..m] == declared;
      if missing.Some? {
        assert m < |declared| && missing.value == declared[m];
        error := MissingColumnMessage(missing.value);
        status := Error;
        return;
      }
      assert m == |declared|;
      assert columns == old(columns) + Counts(sheet, declared);
      assert units == Units(save, sheet, declared) && count == |units|;
      results, gets, disk' := FetchAndArchive(units, disk, attempts, archiveError);
    }

    /**
     The second half of the run, once the units are built: records the
     total, fetches and counts every unit, then archives.
     */
    method FetchAndArchive(units: seq<Unit>, disk: set<string>, attempts: nat -> Fetcher.Attempts,
                           archiveError: Option<string>)
      returns (results: seq<bool>, gets: seq<nat>, disk': set<string>)
      requires columns.Keys == DeclaredSet(declared)
      requires status == Downloading && error == "" && zip == ""
      modifies this`total, this`done, this`progress, this`archiveBase, this`error, this`status, this`zip
      ensures Valid()
      ensures total == |units| && done == total
      ensures Fetched(results, gets, disk') == FetchAll(disk, units, attempts)
      ensures archiveBase == ArchiveBaseAsWritten(ZipPath(workdir, id))
      ensures archiveError.None? ==> status == Done && zip == ZipPath(workdir, id)
      ensures archiveError.Some? ==> status == Error && error == archiveError.value && zip == ""
    {
      total := |units|;
      done := 0;
      progress := 0;
      results, gets, disk' := CountCompletions(units, disk, attempts);
      Archive(archiveError);
    }

    /**
     Archives the work directory under the archive path with every ".zip"
     removed (`ArchiveBaseAsWritten`), then records the archive path and
     `done`, or the archiver's error. Only when the work directory and the id
     hold no `.` is that base the path without its suffix.
     */
    method Archive(archiveError: Option<string>)
      requires status == Downloading && error == "" && zip == ""
      modifies this`archiveBase, this`error, this`status, this`zip
      ensures archiveBase == ArchiveBaseAsWritten(ZipPath(workdir, id))
      ensures '.' !in workdir && '.' !in id ==> archiveBase + ".zip" == ZipPath(workdir, id)
      ensures archiveError.None? ==> status == Done && zip == ZipPath(workdir, id) && error == ""
      ensures archiveError.Some? ==> status == Error && error == archiveError.value && zip == ""
    {
      var zipPath := ZipPath(workdir, id);
      archiveBase := ArchiveBaseAsWritten(zipPath);
      if '.' !in workdir && '.' !in id {
        AsWrittenAgreesWithoutDots(workdir, id);
      }
      if archiveError.Some? {
        error := archiveError.value;
        status := Error;
        return;
      }
      zip := zipPath;
      status := Done;
    }
  }
}

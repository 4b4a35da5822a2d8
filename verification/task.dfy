/**
 * One download task: its identity, the outcome counter its worker updates,
 * the status the downloader reports back, and its persistence against the
 * store. Speed and timestamps (wall-clock, floating point) are not modelled.
 */
module Tasks {
  import opened Results
  import opened Schema
  import opened ProgressBar
  import opened Store

  const DefaultPriority: int := 100

  datatype Task = Task(
    origin: Option<string>,        // options["url"]
    options: Options,
    priority: int,
    bar: Option<Bar>,              // progress source attached by the downloader
    title: Option<string>,
    realUrls: Option<seq<string>>,
    filepath: Option<string>,
    playlist: Option<set<string>>, // only for playlist downloads
    totalSize: int,
    received: int,                 // last progress seen by the scheduler
    success: int,                  // 0 pending, > 0 done, < 0 number of failures
    saveEvent: bool)               // unsaved changes exist

  /** `Task(**options)`: a pending task keyed by its url, with a playlist exactly when one is requested. */
  function NewTask(info: Options): (t: Task)
    ensures t.origin == info.url && t.options == info
    ensures t.success == 0 && t.received == 0 && t.totalSize == 0 && !t.saveEvent
    ensures t.bar.None? && t.title.None? && t.filepath.None? && t.realUrls.None?
    ensures t.priority == 100
    ensures t.playlist.Some? <==> info.doPlaylist
    ensures t.playlist.Some? ==> t.playlist.value == {}
  {
    Task(info.url, info, DefaultPriority, None, None, None, None,
         if info.doPlaylist then Some({}) else None, 0, 0, 0, false)
  }

  // ---------------------------------------------------------------------------
  // Outcome counter

  /** The worker's outcome update: `1` on a normal return, one more failure on an exception. */
  function WorkerOutcome(t: Task, raised: bool): (r: Task)
    ensures !raised ==> r.success == 1
    ensures raised ==> r.success == t.success - 1
    ensures r.(success := t.success) == t
  {
    if raised then t.(success := t.success - 1) else t.(success := 1)
  }

  /** An unfinished failure the scheduler re-queues on its own: `-maxRetry < success < 0`. */
  predicate Retryable(success: int, maxRetry: int) {
    -maxRetry < success < 0
  }

  /** The task after `n` consecutive failed runs. */
  function FailRuns(t: Task, n: nat): Task
    decreases n
  {
    if n == 0 then t else WorkerOutcome(FailRuns(t, n - 1), true)
  }

  /** Each failed run lowers the outcome by exactly one. */
  lemma {:induction false} FailRunsCount(t: Task, n: nat)
    ensures FailRuns(t, n).success == t.success - n
    ensures FailRuns(t, n).(success := t.success) == t
    decreases n
  {
    if n > 0 {
      FailRunsCount(t, n - 1);
    }
  }

  /**
   * From a fresh outcome, the task is re-queued after its first `maxRetry - 1`
   * failures and never after the `maxRetry`-th or later.
   */
  lemma RetryLadder(t: Task, n: nat, maxRetry: nat)
    requires t.success == 0
    ensures Retryable(FailRuns(t, n).success, maxRetry) <==> 1 <= n < maxRetry
  {
    FailRunsCount(t, n);
  }

  // ---------------------------------------------------------------------------
  // Progress

  /** `get_total`: the bar's total when a bar is attached, else the cached total. */
  function GetTotal(t: Task): (r: int)
    ensures t.bar.Some? ==> r == t.bar.value.totalSize
    ensures t.bar.None? ==> r == t.totalSize
  {
    if t.bar.Some? then t.bar.value.totalSize else t.totalSize
  }

  /** `changed`: the bar has moved since the scheduler last looked. */
  predicate Changed(t: Task) {
    t.bar.Some? && t.received != t.bar.value.received
  }

  /** `update`, without its speed computation: takes over the bar's received count. */
  function Update(t: Task): (r: Task)
    ensures !Changed(r)
    ensures r.(received := t.received) == t
    ensures t.bar.Some? ==> r.received == t.bar.value.received
  {
    if t.bar.Some? && t.received != t.bar.value.received then t.(received := t.bar.value.received)
    else t
  }

  /** `update` changes the task exactly when `changed` says it would. */
  lemma UpdateChangesIffChanged(t: Task)
    ensures Update(t) != t <==> Changed(t)
  {
  }

  /** `percent_done`, over exact reals: zero without a positive total, else received as a percentage of it. */
  function PercentDone(t: Task): (r: real)
    ensures GetTotal(t) <= 0 ==> r == 0.0
    ensures GetTotal(t) > 0 ==> r * (GetTotal(t) as real) == (t.received * 100) as real
  {
    var total := GetTotal(t);
    if total <= 0 then 0.0 else (t.received * 100) as real / (total as real)
  }

  /** A ratio of a quantity between 0 and 100 units of `y` lies between 0 and 100. */
  lemma ScaleBounded(p: real, x: real, y: real)
    requires p * y == x && 0.0 <= x <= 100.0 * y && y > 0.0
    ensures 0.0 <= p <= 100.0
  {
  }

  /** With a received count inside the total, the percentage lies between 0 and 100. */
  lemma PercentDoneBounded(t: Task)
    requires 0 <= t.received <= GetTotal(t)
    ensures 0.0 <= PercentDone(t) <= 100.0
  {
    var total := GetTotal(t);
    if total > 0 {
      var p, x, y := PercentDone(t), (t.received * 100) as real, total as real;
      assert p * y == x && 0.0 <= x <= 100.0 * y && y > 0.0;
      ScaleBounded(p, x, y);
    }
  }

  // ---------------------------------------------------------------------------
  // Status reports from the downloader

  /** `os.path.basename` on a POSIX path: the longest suffix without a `/`. */
  function Basename(p: string): (r: string)
    ensures '/' !in r
    ensures |r| <= |p| && r == p[|p| - |r|..]
    ensures |r| < |p| ==> p[|p| - |r| - 1] == '/'
    decreases |p|
  {
    if |p| == 0 || p[|p| - 1] == '/' then ""
    else Basename(p[..|p| - 1]) + [p[|p| - 1]]
  }

  /** The title a report leaves: the first one ever set, else the given one, else the file's basename. */
  function ReportedTitle(current: Option<string>, title: Option<string>, filePath: Option<string>): (r: Option<string>)
    ensures current.Some? ==> r == current
    ensures current.None? && title.Some? ==> r == title
    ensures current.None? && title.None? ==> r == (if filePath.Some? then Some(Basename(filePath.value)) else None)
  {
    if current.Some? then current
    else if title.None? && filePath.Some? then Some(Basename(filePath.value))
    else title
  }

  /** The first part of a report: urls replaced when given, title and file path set at most once. */
  function RecordNames(t: Task, urls: Option<seq<string>>, title: Option<string>, filePath: Option<string>): (r: Task)
    ensures r.realUrls == (if urls.Some? then urls else t.realUrls)
    ensures r.title == ReportedTitle(t.title, title, filePath)
    ensures r.filepath == (if t.filepath.Some? then t.filepath else filePath)
    ensures r.(realUrls := t.realUrls, title := t.title, filepath := t.filepath) == t
  {
    var t1 := t.(realUrls := if urls.Some? then urls else t.realUrls,
                 title := ReportedTitle(t.title, title, filePath));
    if filePath.Some? && t1.filepath.None? then t1.(filepath := filePath) else t1
  }

  /** No playlist name holds a directory separator, as basenames never do. */
  predicate PlainNames(names: set<string>) {
    forall n :: n in names ==> '/' !in n
  }

  /** A path without a separator is its own basename. */
  lemma BasenameOfPlainName(p: string)
    requires '/' !in p
    ensures Basename(p) == p
  {
  }

  /**
   * The playlist step of a report on a playlist download: unless the full path
   * is already a member, the file's basename joins the playlist.
   */
  function RecordPlaylist(t: Task, filePath: string): (r: Task)
    requires t.options.doPlaylist ==> t.playlist.Some?
    ensures t.options.doPlaylist && filePath in t.playlist.value ==> r == t
    ensures t.options.doPlaylist && filePath !in t.playlist.value ==>
      r.playlist == Some(t.playlist.value + {Basename(filePath)})
    ensures !t.options.doPlaylist ==> r == t
    ensures r.(playlist := t.playlist) == t
  {
    if t.options.doPlaylist && filePath !in t.playlist.value then
      t.(playlist := Some(t.playlist.value + {Basename(filePath)}))
    else
      t
  }

  /** On a playlist of basenames the step always leaves the file's basename in it, and keeps it a playlist of basenames. */
  lemma RecordPlaylistKeepsBasenames(t: Task, filePath: string)
    requires t.options.doPlaylist && t.playlist.Some? && PlainNames(t.playlist.value)
    ensures RecordPlaylist(t, filePath).playlist == Some(t.playlist.value + {Basename(filePath)})
    ensures PlainNames(RecordPlaylist(t, filePath).playlist.value)
  {
    if filePath in t.playlist.value {
      BasenameOfPlainName(filePath);
      assert t.playlist.value + {Basename(filePath)} == t.playlist.value;
    }
  }

  /** The task after a status report, and whether the report raised part way. */
  datatype Reported = Reported(task: Task, raised: bool)

  /**
   * `update_task_status`. On a playlist download whose playlist is `None` the
   * membership test raises `TypeError`: the urls, title and file path set
   * before that point stay set, and nothing after it happens. Otherwise the
   * playlist grows, the bar is attached, progress is taken over from it and a
   * save becomes pending.
   */
  function UpdateTaskStatus(t: Task, urls: Option<seq<string>>, title: Option<string>,
                            filePath: Option<string>, bar: Option<Bar>): (r: Reported)
    ensures r.raised <==> t.options.doPlaylist && filePath.Some? && t.playlist.None?
    ensures r.task.realUrls == (if urls.Some? then urls else t.realUrls)
    ensures r.task.title == ReportedTitle(t.title, title, filePath)
    ensures t.title.Some? ==> r.task.title == t.title
    ensures r.task.filepath == (if t.filepath.Some? then t.filepath else filePath)
    ensures r.raised ==> r.task == RecordNames(t, urls, title, filePath)
    ensures !r.raised ==> r.task.saveEvent && !Changed(r.task)
    ensures !r.raised && t.playlist.Some? ==> r.task.playlist.Some? && t.playlist.value <= r.task.playlist.value
    ensures !r.raised && t.options.doPlaylist && filePath.Some? ==>
      r.task.playlist == RecordPlaylist(t, filePath.value).playlist
    ensures !r.raised && !(t.options.doPlaylist && filePath.Some?) ==> r.task.playlist == t.playlist
    ensures !r.raised ==> r.task.bar == (if bar.Some? then bar else t.bar)
    ensures r.task.success == t.success && r.task.origin == t.origin && r.task.options == t.options
  {
    var t2 := RecordNames(t, urls, title, filePath);
    if filePath.Some? && t.options.doPlaylist && t.playlist.None? then
      Reported(t2, true)
    else
      var t3 := if filePath.Some? then RecordPlaylist(t2, filePath.value) else t2;
      var t4 := if bar.Some? then t3.(bar := bar) else t3;
      Reported(Update(t4).(saveEvent := true), false)
  }

  /** The same report delivered twice leaves the task as delivering it once. */
  lemma ReportTwiceIsReportOnce(t: Task, urls: Option<seq<string>>, title: Option<string>,
                                filePath: Option<string>, bar: Option<Bar>)
    requires !UpdateTaskStatus(t, urls, title, filePath, bar).raised
    ensures UpdateTaskStatus(UpdateTaskStatus(t, urls, title, filePath, bar).task, urls, title, filePath, bar)
         == UpdateTaskStatus(t, urls, title, filePath, bar)
  {
    var r1 := UpdateTaskStatus(t, urls, title, filePath, bar);
    var r2 := UpdateTaskStatus(r1.task, urls, title, filePath, bar);
    assert r2.task.playlist == r1.task.playlist;
    assert r2.task.received == r1.task.received;
  }

  // ---------------------------------------------------------------------------
  // Persistence

  /** `get_database_data`: every persisted field, with the total taken from the live bar. */
  function GetDatabaseData(t: Task): (row: Row)
    ensures SchemaRow(row)
    ensures row[OriginCol] == TextOrNull(t.origin) && row[OptionsCol] == Opts(t.options)
    ensures row[SuccessCol] == Int(t.success) && row[ReceivedCol] == Int(t.received)
    ensures row[TotalSizeCol] == Int(GetTotal(t))
  {
    map[OriginCol := TextOrNull(t.origin),
        OptionsCol := Opts(t.options),
        PriorityCol := Int(t.priority),
        TitleCol := TextOrNull(t.title),
        FilepathCol := TextOrNull(t.filepath),
        SuccessCol := Int(t.success),
        TotalSizeCol := Int(GetTotal(t)),
        ReceivedCol := Int(t.received),
        PlaylistCol := NamesOrNull(t.playlist)]
  }

  function CellText(v: Value): Option<string> {
    if v.Text? then Some(v.s) else None
  }

  function CellNames(v: Value): Option<set<string>> {
    if v.Names? then Some(v.names) else None
  }

  /**
   * Rehydration of one stored row: a task created for the row's origin whose
   * attributes are then overwritten column by column. Fields that are not
   * stored keep their defaults.
   */
  function TaskFromRow(row: Row): (t: Task)
    requires SchemaRow(row)
    ensures TextOrNull(t.origin) == row[OriginCol] && Int(t.success) == row[SuccessCol]
    ensures t.bar.None? && t.realUrls.None? && !t.saveEvent
  {
    Task(CellText(row[OriginCol]), row[OptionsCol].o, row[PriorityCol].i, None,
         CellText(row[TitleCol]), None, CellText(row[FilepathCol]),
         CellNames(row[PlaylistCol]), row[TotalSizeCol].i, row[ReceivedCol].i,
         row[SuccessCol].i, false)
  }

  /** The persisted fields of a task, with the total resolved as `get_total` does. */
  function Persisted(t: Task): Task {
    Task(t.origin, t.options, t.priority, None, t.title, None, t.filepath, t.playlist,
         GetTotal(t), t.received, t.success, false)
  }

  /** Reading back what was written gives the task's persisted fields. */
  lemma TaskRowRoundTrip(t: Task)
    ensures TaskFromRow(GetDatabaseData(t)) == Persisted(t)
  {
  }

  /** Writing back what was read gives the same row. */
  lemma RowTaskRoundTrip(row: Row)
    requires SchemaRow(row)
    ensures GetDatabaseData(TaskFromRow(row)) == row
  {
    var r2 := GetDatabaseData(TaskFromRow(row));
    assert r2.Keys == row.Keys;
    forall c | c in row
      ensures r2[c] == row[c]
    {
      match c
      case OriginCol =>
      case OptionsCol =>
      case PriorityCol =>
      case TitleCol =>
      case FilepathCol =>
      case SuccessCol =>
      case TotalSizeCol =>
      case ReceivedCol =>
      case PlaylistCol =>
    }
  }

  /** The columns whose current value is absent from, or differs from, the stored row. */
  function Diff(current: Row, stored: Row): (d: Row)
    ensures forall c :: c in d <==> c in current && (c !in stored || stored[c] != current[c])
    ensures forall c :: c in d ==> d[c] == current[c]
  {
    map c | c in current && (c !in stored || stored[c] != current[c]) :: current[c]
  }

  /** The task after saving, the store after saving, and the columns written. */
  datatype Saved = Saved(task: Task, db: Db, written: Row)

  /** The store after a row write, and the columns written. */
  datatype Written = Written(db: Db, written: Row)

  /**
   * The write half of `save_db` for a task whose row exists: exactly the
   * columns whose value differs from the stored row are written, and only to
   * that row; afterwards the row agrees with the current values.
   */
  function WriteChanges(db: Db, o: string, current: Row): (r: Written)
    requires o in db && (OriginCol in current ==> current[OriginCol] == Text(o))
    ensures r.db.Keys == db.Keys && o in r.db
    ensures forall k :: k in db && k != o ==> r.db[k] == db[k]
    ensures forall c :: c in r.written <==> c in current && (c !in db[o] || db[o][c] != current[c])
    ensures forall c :: c in r.written ==> r.written[c] == current[c]
    ensures forall c :: c in current ==> c in r.db[o] && r.db[o][c] == current[c]
    ensures forall c :: c in db[o] && c !in current ==> c in r.db[o] && r.db[o][c] == db[o][c]
    ensures r.written == map[] ==> r.db == db
  {
    var d := Diff(current, db[o]);
    if d == map[] then
      assert forall c :: c in current ==> db[o][c] == current[c] by {
        forall c | c in current
          ensures c in db[o] && db[o][c] == current[c]
        {
          assert c !in d;
        }
      }
      Written(db, d)
    else Written(SetTaskValues(db, o, d).value, d)
  }

  /**
   * `save_db`: takes over the bar's progress, then writes the changed columns
   * to the task's row; with no row it writes nothing. Afterwards no save is
   * pending.
   */
  function SaveDb(t: Task, db: Db): (r: Saved)
    ensures !r.task.saveEvent && !Changed(r.task)
    ensures r.task.(received := t.received, saveEvent := t.saveEvent) == t
    ensures r.db.Keys == db.Keys
    ensures forall k :: k in db && Some(k) != t.origin ==> r.db[k] == db[k]
    ensures GetTaskValues(db, t.origin).None? ==> r.written == map[] && r.db == db
    ensures GetTaskValues(db, t.origin).Some? ==>
      Written(r.db, r.written) == WriteChanges(db, t.origin.value, GetDatabaseData(r.task))
  {
    var t2 := Update(t).(saveEvent := false);
    var current := GetDatabaseData(t2);
    match GetTaskValues(db, t.origin)
    case None => Saved(t2, db, map[])
    case Some(_) =>
      var w := WriteChanges(db, t.origin.value, current);
      Saved(t2, w.db, w.written)
  }

  /** Saving again straight after a save writes nothing. */
  lemma SaveTwiceWritesNothing(t: Task, db: Db)
    ensures SaveDb(SaveDb(t, db).task, SaveDb(t, db).db).written == map[]
  {
    var s1 := SaveDb(t, db);
    var s2 := SaveDb(s1.task, s1.db);
    assert Update(s1.task) == s1.task;
    assert GetDatabaseData(s1.task) == GetDatabaseData(s2.task);
    if GetTaskValues(s1.db, s1.task.origin).Some? {
      var o := t.origin.value;
      var current := GetDatabaseData(s1.task);
      assert forall c :: c in current ==> s1.db[o][c] == current[c];
      assert forall c :: c !in s2.written;
    }
  }

  /** A new task's row reads back as the same task. */
  lemma NewTaskRoundTrip(info: Options)
    ensures TaskFromRow(GetDatabaseData(NewTask(info))) == NewTask(info)
  {
    TaskRowRoundTrip(NewTask(info));
  }

  /** A task whose attached bar is done reports its bar's total and 100 percent once the scheduler has looked. */
  lemma DoneReportsFull(t: Task, b: Bar)
    requires b.totalSize > 0
    ensures var u := Update(t.(bar := Some(Done(b))));
      GetTotal(u) == b.totalSize && PercentDone(u) == 100.0
  {
    var u := Update(t.(bar := Some(Done(b))));
    var p, y := PercentDone(u), b.totalSize as real;
    assert u.received == b.totalSize && GetTotal(u) == b.totalSize;
    assert p * y == (b.totalSize * 100) as real;
    Cancel(p, 100.0, y);
  }

  /** Division by a positive amount is exact: `p * y == q * y` gives `p == q`. */
  lemma Cancel(p: real, q: real, y: real)
    requires y > 0.0 && p * y == q * y
    ensures p == q
  {
  }

  // ---------------------------------------------------------------------------
  // What a save leaves

  /** A task no save can change: no bar is attached and no save is pending. */
  predicate Idle(t: Task) {
    t.bar.None? && !t.saveEvent
  }

  /** The stored row for `o` holds every column of the task's row, with the task's values. */
  ghost predicate RowMatches(db: Db, o: string, t: Task) {
    o in db && forall c :: c in GetDatabaseData(t) ==> c in db[o] && db[o][c] == GetDatabaseData(t)[c]
  }

  /** Saving a task whose row exists leaves that row matching the saved task. */
  lemma SaveStoresRow(t: Task, db: Db)
    requires t.origin.Some? && t.origin.value in db
    ensures RowMatches(SaveDb(t, db).db, t.origin.value, SaveDb(t, db).task)
  {
  }

  /** Saving an idle task leaves the task as it was. */
  lemma SaveKeepsIdle(t: Task, db: Db)
    requires Idle(t)
    ensures SaveDb(t, db).task == t
  {
  }
}

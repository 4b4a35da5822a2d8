/**
 * The persisted shape of a download task: its option record and the columns of
 * the `youget_task` table. A row is a map from column to value, like the
 * dictionary-like rows the store hands back; the column encodings (JSON in
 * latin-1 text) are abstracted into the `Value` cases.
 */
module Schema {
  import opened Results

  /** The option dictionary a Task is built from; `url` is the task's origin. */
  datatype Options = Options(
    url: Option<string>,
    doPlaylist: bool,
    outputDir: string,
    merge: bool,
    extractorProxy: Option<string>,
    streamId: Option<string>)

  /** The defaults a Task starts from before the caller's options are merged in. */
  function DefaultOptions(url: Option<string>): (o: Options)
    ensures o.url == url && !o.doPlaylist && o.merge
    ensures o.outputDir == "." && o.extractorProxy.None? && o.streamId.None?
  {
    Options(url, false, ".", true, None, None)
  }

  /** The keyword arguments a Task is created with: each option is given (`Some`) or left out (`None`). */
  datatype Given = Given(
    url: Option<Option<string>>,
    doPlaylist: Option<bool>,
    outputDir: Option<string>,
    merge: Option<bool>,
    extractorProxy: Option<Option<string>>,
    streamId: Option<Option<string>>)

  /** Leaves every option to its default. */
  const NothingGiven: Given := Given(None, None, None, None, None, None)

  /** Gives every option, with the values of `o`. */
  function AllGiven(o: Options): Given {
    Given(Some(o.url), Some(o.doPlaylist), Some(o.outputDir), Some(o.merge),
          Some(o.extractorProxy), Some(o.streamId))
  }

  function Pick<T>(given: Option<T>, default: T): T {
    if given.Some? then given.value else default
  }

  /** `self.options.update(options)`: every given option replaces its default, the others keep it. */
  function Merge(d: Options, g: Given): (o: Options)
    ensures g.url.Some? ==> o.url == g.url.value
    ensures g.doPlaylist.Some? ==> o.doPlaylist == g.doPlaylist.value
    ensures g.outputDir.Some? ==> o.outputDir == g.outputDir.value
    ensures g.merge.Some? ==> o.merge == g.merge.value
    ensures g.extractorProxy.Some? ==> o.extractorProxy == g.extractorProxy.value
    ensures g.streamId.Some? ==> o.streamId == g.streamId.value
    ensures g.url.None? ==> o.url == d.url
    ensures g.doPlaylist.None? ==> o.doPlaylist == d.doPlaylist
    ensures g.outputDir.None? ==> o.outputDir == d.outputDir
    ensures g.merge.None? ==> o.merge == d.merge
    ensures g.extractorProxy.None? ==> o.extractorProxy == d.extractorProxy
    ensures g.streamId.None? ==> o.streamId == d.streamId
  {
    Options(Pick(g.url, d.url), Pick(g.doPlaylist, d.doPlaylist), Pick(g.outputDir, d.outputDir),
            Pick(g.merge, d.merge), Pick(g.extractorProxy, d.extractorProxy), Pick(g.streamId, d.streamId))
  }

  /** Creating a Task with no options leaves every default in place. */
  lemma MergeNothing(d: Options)
    ensures Merge(d, NothingGiven) == d
  {
  }

  /** Giving every option overrides every default, so each option record is reachable from the defaults. */
  lemma MergeEverything(d: Options, o: Options)
    ensures Merge(d, AllGiven(o)) == o
  {
  }

  /** The task columns of the store (the autoincrement `id` key is not part of the model). */
  datatype Column =
    | OriginCol | OptionsCol | PriorityCol | TitleCol | FilepathCol
    | SuccessCol | TotalSizeCol | ReceivedCol | PlaylistCol

  /** A stored cell: SQL NULL, an integer, text, or one of the two JSON-encoded structures. */
  datatype Value =
    | Null
    | Int(i: int)
    | Text(s: string)
    | Opts(o: Options)
    | Names(names: set<string>)

  type Row = map<Column, Value>

  /** Python `None` or a string, as a cell. */
  function TextOrNull(s: Option<string>): Value {
    match s
    case None => Null
    case Some(v) => Text(v)
  }

  /** Python `None` or a set of names, as a cell. */
  function NamesOrNull(s: Option<set<string>>): Value {
    match s
    case None => Null
    case Some(v) => Names(v)
  }

  predicate IsTextOrNull(v: Value) { v.Null? || v.Text? }

  /** Every column of the task table. */
  const AllColumns: set<Column> :=
    {OriginCol, OptionsCol, PriorityCol, TitleCol, FilepathCol,
     SuccessCol, TotalSizeCol, ReceivedCol, PlaylistCol}

  /** A row as the table's declared column types produce it: every column present and well typed. */
  predicate SchemaRow(row: Row) {
    && row.Keys == AllColumns
    && IsTextOrNull(row[OriginCol])
    && row[OptionsCol].Opts?
    && row[PriorityCol].Int?
    && IsTextOrNull(row[TitleCol])
    && IsTextOrNull(row[FilepathCol])
    && row[SuccessCol].Int?
    && row[TotalSizeCol].Int?
    && row[ReceivedCol].Int?
    && (row[PlaylistCol].Null? || row[PlaylistCol].Names?)
  }

  /** The origin a row is keyed by, when its origin cell holds text. */
  function RowOrigin(row: Row): (o: Option<string>)
    ensures o.Some? <==> OriginCol in row && row[OriginCol].Text?
    ensures o.Some? ==> row[OriginCol] == Text(o.value)
  {
    if OriginCol in row && row[OriginCol].Text? then Some(row[OriginCol].s) else None
  }
}

/**
 * The build module `pokedex/main.py`: the database URI, the lazily built and cached session
 * makers of `Pokedex`, the CSV checksum stored as the database's `user_version`, the decision
 * to skip or redo a build, and the conversion of CSV cells into column values. SQLAlchemy,
 * the file system and `zlib.crc32` stay outside: files arrive as byte strings, `crc32` as a
 * function parameter, the stored `user_version` as a parameter, and a session maker is
 * identified by the URI of the engine it is bound to.
 */
module Main {
  import opened Wrappers
  import Tables
  import Sequences

  /* ---------- The database URI ---------- */

  predicate StartsWith(s: string, prefix: string)
  {
    |prefix| <= |s| && s[..|prefix|] == prefix
  }

  predicate EndsWith(s: string, suffix: string)
  {
    |suffix| <= |s| && s[|s| - |suffix|..] == suffix
  }

  /** The SQLAlchemy dialect and driver: `sqlite`, or `sqlite+aiosqlite` for the async engine. */
  function Engine(aiosqlite: bool): string
  {
    if aiosqlite then "sqlite" + "+aiosqlite" else "sqlite"
  }

  /** `_database_uri(ro=..., aiosqlite=...)` for the database file at `path`. */
  function DatabaseUri(path: string, ro: bool, aiosqlite: bool): string
  {
    var uri := Engine(aiosqlite) + ":///file:" + path + "?uri=true";
    if ro then uri + "&mode=ro" else uri
  }

  /** What a URI starts with. */
  function UriHead(aiosqlite: bool): string
  {
    Engine(aiosqlite) + ":///file:"
  }

  /** What a URI ends with. */
  function UriTail(ro: bool): string
  {
    "?uri=true" + (if ro then "&mode=ro" else "")
  }

  /** Reads a database URI back into its path and its read-only and async flags. */
  function ParseUri(uri: string): Option<(string, bool, bool)>
  {
    var aiosqlite := StartsWith(uri, UriHead(true));
    if !StartsWith(uri, UriHead(aiosqlite)) then None
    else
      var rest := uri[|UriHead(aiosqlite)|..];
      var ro := EndsWith(rest, UriTail(true));
      if !EndsWith(rest, UriTail(ro)) then None
      else Some((rest[..|rest| - |UriTail(ro)|], ro, aiosqlite))
  }

  /** The two heads differ at their seventh character, the two tails at their last. */
  lemma UriPiecesDiffer()
    ensures |UriHead(false)| > 6 && |UriHead(true)| > 6 && UriHead(false)[6] != UriHead(true)[6]
    ensures |UriTail(false)| > 0 && |UriTail(true)| > 0
    ensures UriTail(false)[|UriTail(false)| - 1] != UriTail(true)[|UriTail(true)| - 1]
  {
  }

  /** Splitting `head + mid + tail` at the lengths of its ends gives back its parts. */
  lemma SplitConcat(head: string, mid: string, tail: string)
    ensures StartsWith(head + mid + tail, head) && (head + mid + tail)[|head|..] == mid + tail
    ensures EndsWith(mid + tail, tail) && (mid + tail)[..|mid + tail| - |tail|] == mid
  {
    assert (head + mid + tail)[..|head|] == head;
    assert (head + mid + tail)[|head|..] == mid + tail;
    assert (mid + tail)[|mid + tail| - |tail|..] == tail;
    assert (mid + tail)[..|mid|] == mid;
  }

  /** The URI is its head, the path, and its tail. */
  lemma DatabaseUriShape(path: string, ro: bool, aiosqlite: bool)
    ensures DatabaseUri(path, ro, aiosqlite) == UriHead(aiosqlite) + path + UriTail(ro)
  {
    var e, h := Engine(aiosqlite), ":///file:";
    if ro {
      assert e + h + path + "?uri=true" + "&mode=ro" == (e + h) + path + ("?uri=true" + "&mode=ro");
    } else {
      assert "?uri=true" + [] == "?uri=true";
    }
  }

  /** The URI records the path and both flags: reading it back gives them. */
  lemma DatabaseUriRoundTrip(path: string, ro: bool, aiosqlite: bool)
    ensures ParseUri(DatabaseUri(path, ro, aiosqlite)) == Some((path, ro, aiosqlite))
  {
    var uri := DatabaseUri(path, ro, aiosqlite);
    var head, tail := UriHead(aiosqlite), UriTail(ro);
    DatabaseUriShape(path, ro, aiosqlite);
    SplitConcat(head, path, tail);
    UriPiecesDiffer();
    if !aiosqlite {
      assert uri[6] == head[6];
    }
    var rest := uri[|head|..];
    assert rest == path + tail;
    if !ro {
      assert rest[|rest| - 1] == tail[|tail| - 1];
    }
  }

  /** Different paths or flags give different URIs. */
  lemma DatabaseUriIsInjective(p1: string, ro1: bool, a1: bool, p2: string, ro2: bool, a2: bool)
    requires DatabaseUri(p1, ro1, a1) == DatabaseUri(p2, ro2, a2)
    ensures p1 == p2 && ro1 == ro2 && a1 == a2
  {
    DatabaseUriRoundTrip(p1, ro1, a1);
    DatabaseUriRoundTrip(p2, ro2, a2);
  }

  /* ---------- The CSV checksum ---------- */

  type Byte = x: int | 0 <= x < 0x100

  /** An unsigned 32-bit value, what `zlib.crc32` returns. */
  type U32 = x: int | 0 <= x < 0x1_0000_0000

  /** `crc32(b"")` chained through every file's bytes, in the order the files are read. */
  function ChainedCrc(files: seq<seq<Byte>>, crc32: (seq<Byte>, U32) -> U32): U32
  {
    if |files| == 0 then crc32([], 0)
    else crc32(files[|files| - 1], ChainedCrc(files[..|files| - 1], crc32))
  }

  /** `new_crc -= 2**31`: the checksum moved into the signed 32-bit range of `user_version`. */
  function UserVersion(crc: U32): (v: int)
    ensures -0x8000_0000 <= v < 0x8000_0000
  {
    crc - 0x8000_0000
  }

  /** The shift loses nothing: two checksums are stored alike only when they are equal. */
  lemma UserVersionIsInjective(c1: U32, c2: U32)
    ensures UserVersion(c1) == UserVersion(c2) <==> c1 == c2
  {
  }

  /** The checksum loop of `setup_database`, then the shift into `user_version`'s range. */
  method Checksum(files: seq<seq<Byte>>, crc32: (seq<Byte>, U32) -> U32) returns (version: int)
    ensures version == UserVersion(ChainedCrc(files, crc32))
  {
    var crc := crc32([], 0);
    for i := 0 to |files|
      invariant crc == ChainedCrc(files[..i], crc32)
    {
      assert files[..i + 1][..i] == files[..i];
      crc := crc32(files[i], crc);
    }
    assert files[..|files|] == files;
    version := crc as int - 0x8000_0000;
  }

  /* ---------- Cells, rows and tables ---------- */

  /** What `setup_database` asks of a column: whether its type is an enum, and whether it is nullable. */
  datatype Column = Column(enumKind: Option<Tables.EnumKind>, nullable: bool)

  /** A value handed to the insert. */
  datatype Cell = Text(text: string) | Null | EnumCell(member: Tables.Member)

  /** Why loading stops: a header the table lacks (`KeyError`), or no member with the cell's value (`StopIteration`). */
  datatype LoadError = UnknownColumn(column: string) | NoSuchMember(column: string, value: string)

  /** The conversion of one CSV cell of column `name`. */
  function CoerceCell(name: string, column: Column, value: string): (r: Result<Cell, LoadError>)
    ensures r.Err? ==> column.enumKind.Some? && r.error == NoSuchMember(name, value)
    ensures r.Ok? && column.enumKind.Some? ==>
      r.value.EnumCell? && r.value.member.Kind() == column.enumKind.value && r.value.member.Value() == value
    ensures r == Ok(Null) <==> column.enumKind.None? && column.nullable && value == ""
    ensures column.enumKind.None? && r != Ok(Null) ==> r == Ok(Text(value))
  {
    if column.enumKind.Some? then
      match Tables.FromValue(column.enumKind.value, value)
      case Some(m) => Ok(EnumCell(m))
      case None => Err(NoSuchMember(name, value))
    else if column.nullable && value == "" then Ok(Null)
    else Ok(Text(value))
  }

  /** An enum cell converts to exactly the member whose value it spells. */
  lemma EnumCellIsExact(name: string, column: Column, value: string, m: Tables.Member)
    requires column.enumKind == Some(m.Kind())
    ensures CoerceCell(name, column, value) == Ok(EnumCell(m)) <==> m.Value() == value
  {
    Tables.FromValueIsExact(m.Kind(), value, m);
  }

  /** A member written to the CSV as its value is read back, stored and loaded as that member. */
  lemma EnumCellRoundTrip(name: string, column: Column, m: Tables.Member)
    requires column.enumKind == Some(m.Kind())
    ensures CoerceCell(name, column, m.Value()) == Ok(EnumCell(m))
    ensures Tables.FromSql(m.Kind(), m.SqlValue()) == Some(m)
  {
    EnumCellIsExact(name, column, m.Value(), m);
    Tables.SqlRoundTrip(m);
  }

  /** The enum test comes first: an empty cell in an enum column is an error even if the column is nullable. */
  lemma EmptyEnumCellFails(name: string, column: Column)
    requires column.enumKind.Some?
    ensures CoerceCell(name, column, "") == Err(NoSuchMember(name, ""))
  {
    var r := CoerceCell(name, column, "");
    if r.Ok? {
      Tables.MemberValueIsNonEmpty(r.value.member);
    }
  }

  /** One `column, value` pair of a CSV row: the column must exist in the table. */
  function CoerceEntry(columns: map<string, Column>, name: string, value: string): Result<Cell, LoadError>
  {
    if name in columns then CoerceCell(name, columns[name], value) else Err(UnknownColumn(name))
  }

  function Coercer(columns: map<string, Column>): (string, string) -> Result<Cell, LoadError>
  {
    (name, value) => CoerceEntry(columns, name, value)
  }

  /** A dict filled entry by entry with what `f` makes of each, up to the first entry `f` rejects. */
  function FoldEntries<C, E>(entries: seq<(string, string)>, f: (string, string) -> Result<C, E>): Result<map<string, C>, E>
  {
    if |entries| == 0 then Ok(map[])
    else
      var d :- FoldEntries(entries[..|entries| - 1], f);
      var entry := entries[|entries| - 1];
      var c :- f(entry.0, entry.1);
      Ok(d[entry.0 := c])
  }

  /** The `row` dict built from a CSV row, or the error of its first bad cell. */
  function CoercedRow(columns: map<string, Column>, csvRow: seq<(string, string)>): Result<map<string, Cell>, LoadError>
  {
    FoldEntries(csvRow, Coercer(columns))
  }

  /** `i` is the first entry `f` rejects. */
  predicate IsFirstRejected<C, E>(entries: seq<(string, string)>, f: (string, string) -> Result<C, E>, i: int)
  {
    && 0 <= i < |entries| && f(entries[i].0, entries[i].1).Err?
    && forall j :: 0 <= j < i ==> f(entries[j].0, entries[j].1).Ok?
  }

  /** The fold succeeds iff every entry is accepted; otherwise it fails with the first rejection. */
  lemma {:induction false} FoldEntriesFailsAtFirstRejection<C, E>(entries: seq<(string, string)>, f: (string, string) -> Result<C, E>)
    ensures FoldEntries(entries, f).Ok? <==>
      forall i :: 0 <= i < |entries| ==> f(entries[i].0, entries[i].1).Ok?
    ensures FoldEntries(entries, f).Err? ==> exists i :: (IsFirstRejected(entries, f, i)
      && f(entries[i].0, entries[i].1) == Err(FoldEntries(entries, f).error))
  {
    if |entries| > 0 {
      var n := |entries| - 1;
      var prefix := entries[..n];
      FoldEntriesFailsAtFirstRejection(prefix, f);
      assert forall i :: 0 <= i < n ==> prefix[i] == entries[i];
      if FoldEntries(prefix, f).Err? {
        var i :| IsFirstRejected(prefix, f, i)
                 && f(prefix[i].0, prefix[i].1) == Err(FoldEntries(prefix, f).error);
        assert IsFirstRejected(entries, f, i);
      } else if f(entries[n].0, entries[n].1).Err? {
        assert IsFirstRejected(entries, f, n);
      }
    }
  }

  /** Once a prefix fails, the whole fold fails with the same error. */
  lemma {:induction false} FoldEntriesKeepsFirstError<C, E>(entries: seq<(string, string)>, f: (string, string) -> Result<C, E>, n: nat)
    requires n <= |entries| && FoldEntries(entries[..n], f).Err?
    ensures FoldEntries(entries, f) == FoldEntries(entries[..n], f)
  {
    if n < |entries| {
      var prefix := entries[..|entries| - 1];
      assert prefix[..n] == entries[..n];
      FoldEntriesKeepsFirstError(prefix, f, n);
    } else {
      assert entries[..n] == entries;
    }
  }

  /** The header names of a CSV row are distinct (it is a dict). */
  predicate DistinctNames(entries: seq<(string, string)>)
  {
    forall i, j :: 0 <= i < j < |entries| ==> entries[i].0 != entries[j].0
  }

  /** With distinct names, each entry sits under its own name, as `f` made it. */
  lemma {:induction false} FoldEntriesHasEveryEntry<C, E>(entries: seq<(string, string)>, f: (string, string) -> Result<C, E>, i: nat)
    requires DistinctNames(entries) && FoldEntries(entries, f).Ok? && i < |entries|
    ensures entries[i].0 in FoldEntries(entries, f).value
    ensures f(entries[i].0, entries[i].1) == Ok(FoldEntries(entries, f).value[entries[i].0])
  {
    var n := |entries| - 1;
    if i < n {
      var prefix := entries[..n];
      assert prefix[i] == entries[i];
      assert entries[i].0 != entries[n].0;
      FoldEntriesHasEveryEntry(prefix, f, i);
    }
  }

  /** The dict has no name the entries lack. */
  lemma {:induction false} FoldEntriesHasOnlyTheirNames<C, E>(entries: seq<(string, string)>, f: (string, string) -> Result<C, E>, name: string)
    requires FoldEntries(entries, f).Ok? && name in FoldEntries(entries, f).value
    ensures exists i :: 0 <= i < |entries| && entries[i].0 == name
  {
    var n := |entries| - 1;
    if entries[n].0 != name {
      var prefix := entries[..n];
      FoldEntriesHasOnlyTheirNames(prefix, f, name);
      var i :| 0 <= i < |prefix| && prefix[i].0 == name;
      assert entries[i] == prefix[i];
    }
  }

  /** The inner loop of `setup_database`: one CSV row converted column by column. */
  method CoerceRow(columns: map<string, Column>, csvRow: seq<(string, string)>) returns (r: Result<map<string, Cell>, LoadError>)
    ensures r == CoercedRow(columns, csvRow)
  {
    var row := map[];
    for i := 0 to |csvRow|
      invariant CoercedRow(columns, csvRow[..i]) == Ok(row)
    {
      assert csvRow[..i + 1][..i] == csvRow[..i];
      var (column, value) := csvRow[i];
      if column !in columns {
        FoldEntriesKeepsFirstError(csvRow, Coercer(columns), i + 1);
        return Err(UnknownColumn(column));
      }
      var cell := CoerceCell(column, columns[column], value);
      if cell.Err? {
        FoldEntriesKeepsFirstError(csvRow, Coercer(columns), i + 1);
        return Err(cell.error);
      }
      row := row[column := cell.value];
    }
    assert csvRow[..|csvRow|] == csvRow;
    r := Ok(row);
  }

  /** The `mappings` list of one CSV file, or the error of its first bad row. */
  function CoercedRows(columns: map<string, Column>, csvRows: seq<seq<(string, string)>>): Result<seq<map<string, Cell>>, LoadError>
  {
    if |csvRows| == 0 then Ok([])
    else
      var rows :- CoercedRows(columns, csvRows[..|csvRows| - 1]);
      var row :- CoercedRow(columns, csvRows[|csvRows| - 1]);
      Ok(rows + [row])
  }

  /** The rows convert iff each does. */
  lemma {:induction false} CoercedRowsIsOkIff(columns: map<string, Column>, csvRows: seq<seq<(string, string)>>)
    ensures CoercedRows(columns, csvRows).Ok? <==>
      forall i :: 0 <= i < |csvRows| ==> CoercedRow(columns, csvRows[i]).Ok?
  {
    if |csvRows| > 0 {
      var n := |csvRows| - 1;
      var prefix := csvRows[..n];
      CoercedRowsIsOkIff(columns, prefix);
      assert forall i :: 0 <= i < n ==> prefix[i] == csvRows[i];
    }
  }

  /** The mappings follow the rows in order, one per row. */
  lemma {:induction false} CoercedRowsAt(columns: map<string, Column>, csvRows: seq<seq<(string, string)>>, i: nat)
    requires CoercedRows(columns, csvRows).Ok? && i < |csvRows|
    ensures |CoercedRows(columns, csvRows).value| == |csvRows|
    ensures CoercedRow(columns, csvRows[i]) == Ok(CoercedRows(columns, csvRows).value[i])
  {
    var n := |csvRows| - 1;
    var prefix := csvRows[..n];
    if i < n {
      assert prefix[i] == csvRows[i];
      CoercedRowsAt(columns, prefix, i);
    } else if n > 0 {
      CoercedRowsAt(columns, prefix, 0);
    }
  }

  /** Once some rows fail, the file fails with the same error. */
  lemma {:induction false} CoercedRowsKeepsFirstError(columns: map<string, Column>, csvRows: seq<seq<(string, string)>>, n: nat)
    requires n <= |csvRows| && CoercedRows(columns, csvRows[..n]).Err?
    ensures CoercedRows(columns, csvRows) == CoercedRows(columns, csvRows[..n])
  {
    if n < |csvRows| {
      var prefix := csvRows[..|csvRows| - 1];
      assert prefix[..n] == csvRows[..n];
      CoercedRowsKeepsFirstError(columns, prefix, n);
    } else {
      assert csvRows[..n] == csvRows;
    }
  }

  /** The loop over a CSV file's rows, appending each converted row to `mappings`. */
  method CoerceRows(columns: map<string, Column>, csvRows: seq<seq<(string, string)>>) returns (r: Result<seq<map<string, Cell>>, LoadError>)
    ensures r == CoercedRows(columns, csvRows)
  {
    var mappings := [];
    for i := 0 to |csvRows|
      invariant CoercedRows(columns, csvRows[..i]) == Ok(mappings)
    {
      assert csvRows[..i + 1][..i] == csvRows[..i];
      var row := CoerceRow(columns, csvRows[i]);
      if row.Err? {
        CoercedRowsKeepsFirstError(columns, csvRows, i + 1);
        return Err(row.error);
      }
      mappings := mappings + [row.value];
    }
    assert csvRows[..|csvRows|] == csvRows;
    r := Ok(mappings);
  }

  /** A CSV file: whether it has a header line (`fieldnames`), and its rows. */
  datatype CsvFile = CsvFile(hasHeader: bool, rows: seq<seq<(string, string)>>)

  /** A table of `Base.metadata.sorted_tables`, with its columns and its CSV file if there is one. */
  datatype TableSource = TableSource(key: string, columns: map<string, Column>, file: Option<CsvFile>)

  /** Whether the table is loaded: its CSV file exists and has a header. */
  predicate IsLoaded(t: TableSource)
  {
    t.file.Some? && t.file.value.hasHeader
  }

  /** The inserts of one rebuild: each loaded table with its mappings, or the first error. */
  function LoadedTables(tables: seq<TableSource>): Result<seq<(string, seq<map<string, Cell>>)>, LoadError>
  {
    if |tables| == 0 then Ok([])
    else
      var inserts :- LoadedTables(tables[..|tables| - 1]);
      var t := tables[|tables| - 1];
      if !IsLoaded(t) then Ok(inserts)
      else
        var mappings :- CoercedRows(t.columns, t.file.value.rows);
        Ok(inserts + [(t.key, mappings)])
  }

  function IsLoadedTable(): TableSource -> bool
  {
    t => IsLoaded(t)
  }

  /** The tables that are loaded, in the order of `sorted_tables`. */
  function LoadedFiles(tables: seq<TableSource>): (r: seq<TableSource>)
    ensures forall i :: 0 <= i < |r| ==> IsLoaded(r[i])
  {
    Sequences.Filter(tables, IsLoadedTable())
  }

  /** The load succeeds iff every loaded table's rows convert. */
  lemma {:induction false} LoadedTablesIsOkIff(tables: seq<TableSource>)
    ensures LoadedTables(tables).Ok? <==> forall i :: 0 <= i < |tables| && IsLoaded(tables[i]) ==>
      CoercedRows(tables[i].columns, tables[i].file.value.rows).Ok?
  {
    if |tables| > 0 {
      var n := |tables| - 1;
      var prefix := tables[..n];
      LoadedTablesIsOkIff(prefix);
      assert forall i :: 0 <= i < n ==> prefix[i] == tables[i];
    }
  }

  /** The inserts are the loaded tables in order, each with its converted rows. */
  lemma {:induction false} LoadedTablesAreLoadedFiles(tables: seq<TableSource>)
    requires LoadedTables(tables).Ok?
    ensures |LoadedTables(tables).value| == |LoadedFiles(tables)|
    ensures forall k :: 0 <= k < |LoadedFiles(tables)| ==>
      var t := LoadedFiles(tables)[k];
      && LoadedTables(tables).value[k].0 == t.key
      && CoercedRows(t.columns, t.file.value.rows) == Ok(LoadedTables(tables).value[k].1)
  {
    if |tables| > 0 {
      var n := |tables| - 1;
      var prefix := tables[..n];
      LoadedTablesAreLoadedFiles(prefix);
      assert tables == prefix + [tables[n]];
      Sequences.FilterSnoc(prefix, tables[n], IsLoadedTable());
    }
  }

  /** Once some tables fail, the load fails with the same error. */
  lemma {:induction false} LoadedTablesKeepsFirstError(tables: seq<TableSource>, n: nat)
    requires n <= |tables| && LoadedTables(tables[..n]).Err?
    ensures LoadedTables(tables) == LoadedTables(tables[..n])
  {
    if n < |tables| {
      var prefix := tables[..|tables| - 1];
      assert prefix[..n] == tables[..n];
      LoadedTablesKeepsFirstError(prefix, n);
    } else {
      assert tables[..n] == tables;
    }
  }

  /** The loop over `sorted_tables`: each table with a CSV file and a header gets its rows inserted. */
  method LoadTables(tables: seq<TableSource>) returns (r: Result<seq<(string, seq<map<string, Cell>>)>, LoadError>)
    ensures r == LoadedTables(tables)
  {
    var inserts := [];
    for i := 0 to |tables|
      invariant LoadedTables(tables[..i]) == Ok(inserts)
    {
      assert tables[..i + 1][..i] == tables[..i];
      var t := tables[i];
      if t.file.Some? && t.file.value.hasHeader {
        var mappings := CoerceRows(t.columns, t.file.value.rows);
        if mappings.Err? {
          LoadedTablesKeepsFirstError(tables, i + 1);
          return Err(mappings.error);
        }
        inserts := inserts + [(t.key, mappings.value)];
      }
    }
    assert tables[..|tables|] == tables;
    r := Ok(inserts);
  }

  /* ---------- The build ---------- */

  /**
   * What `setup_database` does: nothing with `skip_build`; nothing when the stored
   * `user_version` equals the new one (`None` when reading it fails); otherwise truncate,
   * reload every table and stamp the new version, or stop at the first bad cell.
   */
  datatype Outcome =
    | Skipped
    | UpToDate
    | Rebuilt(userVersion: int, inserts: seq<(string, seq<map<string, Cell>>)>)
    | Failed(error: LoadError)

  function Build(skipBuild: bool, stored: Option<int>, files: seq<seq<Byte>>,
                 crc32: (seq<Byte>, U32) -> U32, tables: seq<TableSource>): (o: Outcome)
    ensures o.Skipped? <==> skipBuild
    ensures o.UpToDate? <==> !skipBuild && stored == Some(UserVersion(ChainedCrc(files, crc32)))
    ensures o.Rebuilt? ==> o.userVersion == UserVersion(ChainedCrc(files, crc32))
  {
    if skipBuild then Skipped
    else
      var version := UserVersion(ChainedCrc(files, crc32));
      if stored == Some(version) then UpToDate
      else
        match LoadedTables(tables)
        case Ok(inserts) => Rebuilt(version, inserts)
        case Err(e) => Failed(e)
  }

  /** Building twice from unchanged files: the second build finds the database up to date. */
  lemma SecondBuildIsUpToDate(stored: Option<int>, files: seq<seq<Byte>>,
                              crc32: (seq<Byte>, U32) -> U32, tables: seq<TableSource>,
                              tables2: seq<TableSource>)
    requires Build(false, stored, files, crc32, tables).Rebuilt?
    ensures Build(false, Some(Build(false, stored, files, crc32, tables).userVersion), files, crc32, tables2)
            == UpToDate
  {
  }

  /** A database stamped from other files is rebuilt: different checksums are stored differently. */
  lemma ChangedFilesRebuild(oldFiles: seq<seq<Byte>>, files: seq<seq<Byte>>,
                            crc32: (seq<Byte>, U32) -> U32, tables: seq<TableSource>)
    requires ChainedCrc(oldFiles, crc32) != ChainedCrc(files, crc32)
    ensures !Build(false, Some(UserVersion(ChainedCrc(oldFiles, crc32))), files, crc32, tables).UpToDate?
  {
    UserVersionIsInjective(ChainedCrc(oldFiles, crc32), ChainedCrc(files, crc32));
  }

  /**
   * A new, empty database reports `user_version` 0, which is also the stored form of the
   * checksum 2^31: for files with that checksum the build is skipped on an empty database.
   */
  lemma EmptyDatabaseLooksBuiltAtHalfRange(files: seq<seq<Byte>>, crc32: (seq<Byte>, U32) -> U32,
                                           tables: seq<TableSource>)
    requires ChainedCrc(files, crc32) == 0x8000_0000
    ensures Build(false, Some(0), files, crc32, tables) == UpToDate
  {
  }

  /* ---------- The Pokedex object ---------- */

  /** A `sessionmaker`, identified by the URI of the engine it is bound to. */
  datatype SessionMaker = SessionMaker(uri: string)

  /** The `TypeError` raised when a session is asked for before `setup_database`. */
  datatype SessionError = SetupNotCalled

  /** A session maker bound to a read-only URI of the given kind. */
  predicate IsReadOnlyMaker(s: SessionMaker, aiosqlite: bool)
  {
    var parsed := ParseUri(s.uri);
    parsed.Some? && parsed.value.1 && parsed.value.2 == aiosqlite
  }

  /** `Pokedex`: the database path and the two lazily built session makers. */
  class Pokedex {
    var path: Option<string>
    var session: Option<SessionMaker>
    var asyncSession: Option<SessionMaker>
    /** How many times each session maker has been built. */
    ghost var sessionBuilds: nat
    ghost var asyncSessionBuilds: nat

    /**
     * Each maker is built at most once, and only once a path is known; both are bound to
     * read-only URIs.
     */
    ghost predicate Valid()
      reads this
    {
      && sessionBuilds == (if session.Some? then 1 else 0)
      && asyncSessionBuilds == (if asyncSession.Some? then 1 else 0)
      && (session.Some? || asyncSession.Some? ==> path.Some?)
      && (session.Some? ==> IsReadOnlyMaker(session.value, false))
      && (asyncSession.Some? ==> IsReadOnlyMaker(asyncSession.value, true))
    }

    constructor()
      ensures Valid()
      ensures path.None? && session.None? && asyncSession.None?
    {
      path := None;
      session := None;
      asyncSession := None;
      sessionBuilds := 0;
      asyncSessionBuilds := 0;
    }

    /** `_database_uri` for the current path. */
    method DatabaseUriOf(ro: bool, aiosqlite: bool) returns (uri: string)
      requires path.Some?
      ensures uri == DatabaseUri(path.value, ro, aiosqlite)
    {
      uri := DatabaseUri(path.value, ro, aiosqlite);
    }

    /**
     * `session`: the cached maker if there is one; otherwise an error without a path, or a
     * new maker on the read-only URI, which is cached.
     */
    method Session() returns (r: Result<SessionMaker, SessionError>)
      requires Valid()
      modifies this
      ensures Valid()
      ensures path == old(path) && asyncSession == old(asyncSession)
      ensures asyncSessionBuilds == old(asyncSessionBuilds)
      ensures old(session).Some? ==> r == Ok(old(session).value) && unchanged(this)
      ensures old(session).None? && path.None? ==> r == Err(SetupNotCalled) && unchanged(this)
      ensures old(session).None? && path.Some? ==>
        r == Ok(SessionMaker(DatabaseUri(path.value, true, false))) && session == Some(r.value)
        && sessionBuilds == old(sessionBuilds) + 1
    {
      if session.None? {
        if path.None? {
          return Err(SetupNotCalled);
        }
        var uri := DatabaseUriOf(true, false);
        DatabaseUriRoundTrip(path.value, true, false);
        session := Some(SessionMaker(uri));
        sessionBuilds := sessionBuilds + 1;
      }
      r := Ok(session.value);
    }

    /** `async_session`: as `session`, with the async driver. */
    method AsyncSession() returns (r: Result<SessionMaker, SessionError>)
      requires Valid()
      modifies this
      ensures Valid()
      ensures path == old(path) && session == old(session) && sessionBuilds == old(sessionBuilds)
      ensures old(asyncSession).Some? ==> r == Ok(old(asyncSession).value) && unchanged(this)
      ensures old(asyncSession).None? && path.None? ==> r == Err(SetupNotCalled) && unchanged(this)
      ensures old(asyncSession).None? && path.Some? ==>
        r == Ok(SessionMaker(DatabaseUri(path.value, true, true))) && asyncSession == Some(r.value)
        && asyncSessionBuilds == old(asyncSessionBuilds) + 1
    {
      if asyncSession.None? {
        if path.None? {
          return Err(SetupNotCalled);
        }
        var uri := DatabaseUriOf(true, true);
        DatabaseUriRoundTrip(path.value, true, true);
        asyncSession := Some(SessionMaker(uri));
        asyncSessionBuilds := asyncSessionBuilds + 1;
      }
      r := Ok(asyncSession.value);
    }

    /**
     * `setup_database`: records the path first, then builds unless told to skip or the stored
     * version matches. Session makers already built keep the engine of the earlier path.
     */
    method SetupDatabase(newPath: string, skipBuild: bool, stored: Option<int>,
                         files: seq<seq<Byte>>, crc32: (seq<Byte>, U32) -> U32,
                         tables: seq<TableSource>) returns (outcome: Outcome)
      requires Valid()
      modifies this
      ensures Valid()
      ensures path == Some(newPath)
      ensures session == old(session) && asyncSession == old(asyncSession)
      ensures sessionBuilds == old(sessionBuilds) && asyncSessionBuilds == old(asyncSessionBuilds)
      ensures outcome == Build(skipBuild, stored, files, crc32, tables)
    {
      path := Some(newPath);
      if skipBuild {
        return Skipped;
      }
      var newVersion := Checksum(files, crc32);
      if stored == Some(newVersion) {
        return UpToDate;
      }
      var loaded := LoadTables(tables);
      match loaded
      case Ok(inserts) => outcome := Rebuilt(newVersion, inserts);
      case Err(e) => outcome := Failed(e);
    }
  }
}

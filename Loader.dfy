/** Loading the GC table: choosing the CSV file of the working directory,
    dropping the rows without coordinates, and the upload path used when
    nothing could be loaded. Reading and parsing files is not modelled: a
    directory is given as its listing, each entry with its parsed contents
    or the fact that it could not be read. */
module Loader {
  import opened Records

  /** The outcome of `read_csv` on one file. */
  datatype Read = Parsed(frame: Frame) | Unreadable

  /** One entry of the directory listing, in listing order. */
  datatype DirEntry = DirEntry(name: string, content: Read)

  /** The columns a CSV file must have to be chosen during the directory scan. */
  const RequiredColumns: seq<string> :=
    ["Latitude", "Longitude", "Endereço", "Lideres", "Tipo GC", "Igreja Sede"]

  /** The file read, without any column check, when no listed CSV qualifies;
      it is also where an upload is saved. */
  const DefaultFile: string := "lista_gc.csv"

  predicate IsCsv(name: string) {
    |name| >= 4 && name[|name| - 4..] == ".csv"
  }

  predicate HasRequiredColumns(f: Frame) {
    forall c :: c in RequiredColumns ==> c in f.columns
  }

  /** Dropping rows on the coordinate columns fails (a KeyError) unless both exist. */
  predicate HasCoordinateColumns(f: Frame) {
    "Latitude" in f.columns && "Longitude" in f.columns
  }

  /** A listed file the scan returns with: a readable CSV with every required column. */
  predicate Qualifies(e: DirEntry) {
    IsCsv(e.name) && e.content.Parsed? && HasRequiredColumns(e.content.frame)
  }

  /** A listed file the scan reads and goes past: anything but a CSV, or a
      readable CSV that lacks a required column. */
  predicate Skipped(e: DirEntry) {
    IsCsv(e.name) ==> e.content.Parsed? && !HasRequiredColumns(e.content.frame)
  }

  /** The number of rows that have no latitude or no longitude. */
  function CountMissing(rows: seq<Row>): nat {
    if rows == [] then 0
    else CountMissing(rows[..|rows| - 1]) + (if HasCoords(rows[|rows| - 1]) then 0 else 1)
  }

  /** `dropna(subset=['Latitude', 'Longitude'])`: keeps exactly the rows that
      have both coordinates, in file order, each with its row number as index. */
  function DropMissing(rows: seq<Row>): (kept: Dataset)
    ensures forall k :: 0 <= k < |kept| ==>
      kept[k].index < |rows| && HasCoords(rows[kept[k].index]) && kept[k] == Locate(kept[k].index, rows[kept[k].index])
    ensures forall i :: 0 <= i < |rows| && HasCoords(rows[i]) ==> Locate(i, rows[i]) in kept
    ensures InFileOrder(kept)
    ensures |kept| == |rows| - CountMissing(rows)
    decreases |rows|
  {
    if rows == [] then []
    else
      var n := |rows| - 1;
      var init := DropMissing(rows[..n]);
      assert forall k :: 0 <= k < |init| ==> rows[..n][init[k].index] == rows[init[k].index];
      assert forall i :: 0 <= i < n ==> rows[..n][i] == rows[i];
      if HasCoords(rows[n]) then init + [Locate(n, rows[n])] else init
  }

  /** How the directory scan ends. */
  datatype Scan = Chosen(frame: Frame) | ReadFailed | NoneQualifies

  /** The scan over the listing: the first qualifying CSV is chosen; an
      unreadable CSV met before it aborts the whole load. */
  function ScanCsv(files: seq<DirEntry>): Scan
    decreases |files|
  {
    if files == [] then NoneQualifies
    else if !IsCsv(files[0].name) then ScanCsv(files[1..])
    else match files[0].content
      case Unreadable => ReadFailed
      case Parsed(f) => if HasRequiredColumns(f) then Chosen(f) else ScanCsv(files[1..])
  }

  /** The content of the file with the given name, if it is listed. */
  function Lookup(listing: seq<DirEntry>, name: string): Option<Read> {
    if listing == [] then None
    else if listing[0].name == name then Some(listing[0].content)
    else Lookup(listing[1..], name)
  }

  /** Reading the default file after the scan found nothing. A missing or
      unreadable file, or one without the coordinate columns, raises, and the
      broad handler turns the raise into an empty table. */
  function LoadDefault(listing: seq<DirEntry>): Dataset {
    match Lookup(listing, DefaultFile)
    case None => []
    case Some(Unreadable) => []
    case Some(Parsed(f)) => if HasCoordinateColumns(f) then DropMissing(f.rows) else []
  }

  /** What `load_data` returns for a directory. */
  function LoadData(listing: seq<DirEntry>): Dataset {
    match ScanCsv(listing)
    case Chosen(f) => DropMissing(f.rows)
    case ReadFailed => []
    case NoneQualifies => LoadDefault(listing)
  }

  /** The scan goes past a prefix of skipped files. */
  lemma {:induction false} ScanSkipsPrefix(listing: seq<DirEntry>, i: nat)
    requires i <= |listing|
    requires forall j :: 0 <= j < i ==> Skipped(listing[j])
    ensures ScanCsv(listing) == ScanCsv(listing[i..])
    decreases i
  {
    if i > 0 {
      ScanSkipsPrefix(listing, i - 1);
      assert listing[i - 1..][1..] == listing[i..];
    }
  }

  /** `load_data` returns the filtered rows of the first qualifying CSV in listing order. */
  lemma LoadPicksFirstQualifying(listing: seq<DirEntry>, i: nat)
    requires i < |listing| && Qualifies(listing[i])
    requires forall j :: 0 <= j < i ==> Skipped(listing[j])
    ensures LoadData(listing) == DropMissing(listing[i].content.frame.rows)
  {
    ScanSkipsPrefix(listing, i);
  }

  /** An unreadable CSV listed before any qualifying one makes `load_data` return an empty table. */
  lemma LoadFailsOnUnreadable(listing: seq<DirEntry>, i: nat)
    requires i < |listing| && IsCsv(listing[i].name) && listing[i].content.Unreadable?
    requires forall j :: 0 <= j < i ==> Skipped(listing[j])
    ensures LoadData(listing) == []
  {
    ScanSkipsPrefix(listing, i);
  }

  /** Only when no listed CSV qualifies is the default file read. */
  lemma LoadFallsBackToDefault(listing: seq<DirEntry>)
    requires forall j :: 0 <= j < |listing| ==> Skipped(listing[j])
    ensures LoadData(listing) == LoadDefault(listing)
    ensures LoadData(listing) == match Lookup(listing, DefaultFile)
      case Some(Parsed(f)) => if HasCoordinateColumns(f) then DropMissing(f.rows) else []
      case _ => []
  {
    ScanSkipsPrefix(listing, |listing|);
  }

  /** Whatever `load_data` returns lists rows of one file in file order. */
  lemma LoadDataInFileOrder(listing: seq<DirEntry>)
    ensures InFileOrder(LoadData(listing))
  {
  }

  /** `load_data` as the source runs it: a loop over the listing with an early return. */
  method LoadTable(listing: seq<DirEntry>) returns (data: Dataset)
    ensures data == LoadData(listing)
  {
    var i := 0;
    while i < |listing|
      invariant 0 <= i <= |listing|
      invariant forall j :: 0 <= j < i ==> Skipped(listing[j])
    {
      var entry := listing[i];
      if IsCsv(entry.name) {
        match entry.content {
          case Unreadable =>
            LoadFailsOnUnreadable(listing, i);
            return [];
          case Parsed(f) =>
            if HasRequiredColumns(f) {
              LoadPicksFirstQualifying(listing, i);
              return DropMissing(f.rows);
            }
        }
      }
      i := i + 1;
    }
    LoadFallsBackToDefault(listing);
    match Lookup(listing, DefaultFile) {
      case Some(Parsed(f)) =>
        data := if HasCoordinateColumns(f) then DropMissing(f.rows) else [];
      case _ =>
        data := [];
    }
  }

  /** What becomes of an uploaded file. */
  datatype UploadOutcome =
    | UploadRaised          // unreadable, or no coordinate columns: the exception is not caught
    | NoValidCoordinates    // "the file has no valid coordinates"
    | Saved(data: Dataset)  // written to the default file and the page is re-run

  function Upload(file: Read): UploadOutcome {
    match file
    case Unreadable => UploadRaised
    case Parsed(f) =>
      if !HasCoordinateColumns(f) then UploadRaised
      else
        var data := DropMissing(f.rows);
        if data == [] then NoValidCoordinates else Saved(data)
  }

  /** An upload with the coordinate columns is saved exactly when some row has
      both coordinates, and what is saved is that file's filtered rows. */
  lemma UploadSavedIffLocatedRow(f: Frame)
    requires HasCoordinateColumns(f)
    ensures Upload(Parsed(f)).Saved? <==> exists i :: 0 <= i < |f.rows| && HasCoords(f.rows[i])
    ensures Upload(Parsed(f)).Saved? ==> Upload(Parsed(f)).data == DropMissing(f.rows)
    ensures !Upload(Parsed(f)).Saved? ==> Upload(Parsed(f)) == NoValidCoordinates
  {
    var data := DropMissing(f.rows);
    if data != [] {
      assert HasCoords(f.rows[data[0].index]);
    }
    if exists i :: 0 <= i < |f.rows| && HasCoords(f.rows[i]) {
      var i :| 0 <= i < |f.rows| && HasCoords(f.rows[i]);
      assert Locate(i, f.rows[i]) in data;
    }
  }
}

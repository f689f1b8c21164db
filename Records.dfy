/** The entities the nearest-GC search works on: a row as read from a CSV file,
    a located GC of the loaded data set, and the distance record built per candidate. */
module Records {

  datatype Option<+T> = None | Some(value: T)

  /** A geographic position in decimal degrees. */
  datatype Coord = Coord(latitude: real, longitude: real)

  /** One row of a CSV file as parsed: the coordinates may be missing (NaN),
      the text columns are carried as they are. */
  datatype Row = Row(
    latitude: Option<real>,
    longitude: Option<real>,
    address: string,       // Endereço
    category: string,      // Tipo GC
    leaders: string,       // Lideres
    schedule: string,      // Dia/Horário
    coordination: string,  // Coordenação
    church: string         // Igreja Sede
  )

  /** A parsed CSV file: its header and its rows, in file order. */
  datatype Frame = Frame(columns: seq<string>, rows: seq<Row>)

  predicate HasCoords(row: Row) {
    row.latitude.Some? && row.longitude.Some?
  }

  /** A GC of the loaded data set. `index` is the row's index label in the data
      frame, i.e. its position in the CSV file it was read from; dropping rows
      keeps the indices of the rows that remain. */
  datatype Location = Location(
    index: nat,
    latitude: real,
    longitude: real,
    address: string,
    category: string,
    leaders: string,
    schedule: string,
    coordination: string,
    church: string
  )

  type Dataset = seq<Location>

  /** The located GC that row number `index` of a file becomes. */
  function Locate(index: nat, row: Row): (loc: Location)
    requires HasCoords(row)
  {
    Location(index, row.latitude.value, row.longitude.value, row.address, row.category,
             row.leaders, row.schedule, row.coordination, row.church)
  }

  function PositionOf(loc: Location): Coord {
    Coord(loc.latitude, loc.longitude)
  }

  /** The record built for one candidate during the search: its distance to the
      searched address together with the fields shown in the result. */
  datatype Entry = Entry(
    index: nat,
    distance: real,
    address: string,
    category: string,
    leaders: string,
    schedule: string,
    coordination: string,
    latitude: real,
    longitude: real
  )

  function EntryOf(loc: Location, distance: real): Entry {
    Entry(loc.index, distance, loc.address, loc.category, loc.leaders, loc.schedule,
          loc.coordination, loc.latitude, loc.longitude)
  }

  /** The indices strictly increase along the sequence: it lists rows of one file in file order. */
  predicate InFileOrder(ds: Dataset) {
    forall i, j :: 0 <= i < j < |ds| ==> ds[i].index < ds[j].index
  }
}

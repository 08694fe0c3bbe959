/** `CsvRepository._load` (src/adapters/repository.py): builds the repository
    from the rows of the backing CSV file. Tokenising the file is the CSV
    library's job; a row arrives here already keyed by the header's column
    names. The three value parsers the source calls (`float`, `int`,
    `date.fromisoformat`) are passed in as partial functions. */
module CsvRepository {
  import opened Wrappers
  import opened Domain
  import opened Repository

  /** One data row, keyed by the header's column names. */
  type Row = map<string, string>

  /** The backing file: absent, or present with its data rows in file order. */
  datatype BackingFile = Missing | Present(rows: seq<Row>)

  /** The partial parsers applied to cells: `None` is a raised `ValueError`. */
  datatype Parsers = Parsers(
    toFloat: string -> Option<Price>,
    toInt: string -> Option<int>,
    fromIsoFormat: string -> Option<Date>)

  /** Why loading aborted: a column the row lacks (`KeyError`), or a cell its
      parser rejects (`ValueError`). */
  datatype LoadError = MissingColumn(column: string) | InvalidValue(column: string)

  /** The columns `_load` reads, in the order it reads them. */
  const Columns: seq<string> :=
    ["sku", "name", "description", "price", "brand", "category", "stock", "created_at", "updated_at"]

  /** `row[column]`. */
  function Cell(row: Row, column: string): (r: Result<string, LoadError>)
    ensures r.Ok? <==> column in row
    ensures r.Ok? ==> r.value == row[column]
    ensures r.Err? ==> r.error == MissingColumn(column)
  {
    if column in row then Ok(row[column]) else Err(MissingColumn(column))
  }

  /** `parse(row[column])`. */
  function ParseCell<T>(row: Row, column: string, parse: string -> Option<T>): (r: Result<T, LoadError>)
    ensures r.Ok? <==> column in row && parse(row[column]).Some?
    ensures r.Ok? ==> parse(row[column]) == Some(r.value)
    ensures r.Err? && column in row ==> r.error == InvalidValue(column)
    ensures r.Err? && column !in row ==> r.error == MissingColumn(column)
  {
    var text :- Cell(row, column);
    match parse(text)
    case Some(v) => Ok(v)
    case None => Err(InvalidValue(column))
  }

  /** The cell of column `column` is present and, for a typed column, parses.
      An empty `updated_at` is accepted without parsing. */
  predicate CellDecodes(row: Row, column: string, parsers: Parsers) {
    && column in row
    && (column == "price" ==> parsers.toFloat(row[column]).Some?)
    && (column == "stock" ==> parsers.toInt(row[column]).Some?)
    && (column == "created_at" ==> parsers.fromIsoFormat(row[column]).Some?)
    && (column == "updated_at" && row[column] != "" ==> parsers.fromIsoFormat(row[column]).Some?)
  }

  /** A row `_load` turns into a product without raising: every column in
      `Columns` is present and decodes. */
  predicate RowDecodes(row: Row, parsers: Parsers) {
    && CellDecodes(row, "sku", parsers)
    && CellDecodes(row, "name", parsers)
    && CellDecodes(row, "description", parsers)
    && CellDecodes(row, "price", parsers)
    && CellDecodes(row, "brand", parsers)
    && CellDecodes(row, "category", parsers)
    && CellDecodes(row, "stock", parsers)
    && CellDecodes(row, "created_at", parsers)
    && CellDecodes(row, "updated_at", parsers)
  }

  /** The body of `_load`'s loop: one row to one product. */
  function DecodeRow(row: Row, parsers: Parsers): (r: Result<Product, LoadError>)
    ensures r.Ok? <==> RowDecodes(row, parsers)
    ensures r.Ok? ==>
      && r.value.sku == row["sku"] && r.value.name == row["name"]
      && r.value.description == row["description"] && r.value.brand == row["brand"]
      && r.value.category == row["category"]
      && parsers.toFloat(row["price"]) == Some(r.value.price)
      && parsers.toInt(row["stock"]) == Some(r.value.stock)
      && parsers.fromIsoFormat(row["created_at"]) == Some(r.value.createdAt)
    ensures r.Ok? ==> (r.value.updatedAt == None <==> row["updated_at"] == "")
    ensures r.Ok? && row["updated_at"] != "" ==> parsers.fromIsoFormat(row["updated_at"]) == r.value.updatedAt
    ensures r.Err? ==>
      && r.error.column in Columns
      && !CellDecodes(row, r.error.column, parsers)
      && (r.error.MissingColumn? <==> r.error.column !in row)
  {
    var sku :- Cell(row, "sku");
    var name :- Cell(row, "name");
    var description :- Cell(row, "description");
    var price :- ParseCell(row, "price", parsers.toFloat);
    var brand :- Cell(row, "brand");
    var category :- Cell(row, "category");
    var stock :- ParseCell(row, "stock", parsers.toInt);
    var createdAt :- ParseCell(row, "created_at", parsers.fromIsoFormat);
    var updatedText :- Cell(row, "updated_at");
    var updatedAt :-
      if updatedText == "" then Ok(None)
      else
        var d :- ParseCell(row, "updated_at", parsers.fromIsoFormat);
        Ok(Some(d));
    Ok(Product(sku, name, description, price, brand, category, stock, createdAt, updatedAt))
  }

  /** The error `DecodeRow` reports names the first column, in the order
      `_load` reads them, whose cell is missing or does not parse. */
  lemma DecodeRowReportsFirstFailure(row: Row, parsers: Parsers, n: nat)
    requires n < |Columns|
    requires !CellDecodes(row, Columns[n], parsers)
    requires forall m | 0 <= m < n :: CellDecodes(row, Columns[m], parsers)
    ensures DecodeRow(row, parsers) ==
      Err(if Columns[n] in row then InvalidValue(Columns[n]) else MissingColumn(Columns[n]))
  {
  }

  /** Decodes every row in file order, stopping at the first that fails. */
  function DecodeAll(rows: seq<Row>, parsers: Parsers): (r: Result<seq<Product>, LoadError>)
    ensures r.Ok? <==> forall i | 0 <= i < |rows| :: DecodeRow(rows[i], parsers).Ok?
    ensures r.Ok? ==> |r.value| == |rows|
    ensures r.Ok? ==> forall i | 0 <= i < |rows| :: DecodeRow(rows[i], parsers) == Ok(r.value[i])
    ensures r.Err? ==> FirstFailure(rows, parsers, r.error)
  {
    if |rows| == 0 then Ok([])
    else
      var n := |rows| - 1;
      var init := rows[..n];
      assert forall i | 0 <= i < n :: init[i] == rows[i];
      match DecodeAll(init, parsers)
      case Err(e) =>
        var i :| 0 <= i < n && DecodeRow(init[i], parsers) == Err(e)
          && forall j | 0 <= j < i :: DecodeRow(init[j], parsers).Ok?;
        assert DecodeRow(rows[i], parsers) == Err(e);
        Err(e)
      case Ok(ps) =>
        match DecodeRow(rows[n], parsers)
        case Err(e) =>
          assert DecodeRow(rows[n], parsers) == Err(e);
          Err(e)
        case Ok(p) =>
          var r := ps + [p];
          assert forall i | 0 <= i < n :: r[i] == ps[i];
          Ok(r)
  }

  /** Row `i` is the first row that fails to decode, and fails with `e`. */
  predicate FirstFailure(rows: seq<Row>, parsers: Parsers, e: LoadError) {
    exists i | 0 <= i < |rows| ::
      && DecodeRow(rows[i], parsers) == Err(e)
      && forall j | 0 <= j < i :: DecodeRow(rows[j], parsers).Ok?
  }

  /** `CsvRepository(filepath)._products`. */
  function Load(file: BackingFile, parsers: Parsers): (r: Result<Repo, LoadError>)
    ensures file.Missing? ==> r == Ok(Empty)
    ensures file.Present? ==> (r.Ok? <==> forall i | 0 <= i < |file.rows| :: DecodeRow(file.rows[i], parsers).Ok?)
    ensures file.Present? && r.Err? ==> FirstFailure(file.rows, parsers, r.error)
  {
    match file
    case Missing => Ok(Empty)
    case Present(rows) =>
      var ps :- DecodeAll(rows, parsers);
      Ok(FromProducts(ps))
  }

  /** A row whose sku no later row repeats is the one a loaded repository
      stores for that sku: a repeated sku replaces the earlier row. */
  lemma LoadLastRowWins(rows: seq<Row>, parsers: Parsers, i: int)
    requires 0 <= i < |rows|
    ensures Load(Present(rows), parsers).Ok? ==> DecodeRow(rows[i], parsers).Ok?
    ensures
      && Load(Present(rows), parsers).Ok?
      && (forall j | i < j < |rows| :: DecodeRow(rows[j], parsers).value.sku != DecodeRow(rows[i], parsers).value.sku)
      ==> Get(Load(Present(rows), parsers).value, DecodeRow(rows[i], parsers).value.sku) == Some(DecodeRow(rows[i], parsers).value)
  {
  }

  /** Every row's product is stored under its sku, and nothing else is. */
  lemma LoadStoresRowSkus(rows: seq<Row>, parsers: Parsers)
    ensures Load(Present(rows), parsers).Ok? ==>
      forall i | 0 <= i < |rows| :: DecodeRow(rows[i], parsers).value.sku in Load(Present(rows), parsers).value
    ensures Load(Present(rows), parsers).Ok? ==>
      forall k | k in Load(Present(rows), parsers).value ::
        exists i | 0 <= i < |rows| :: DecodeRow(rows[i], parsers).value.sku == k
  {
  }
}

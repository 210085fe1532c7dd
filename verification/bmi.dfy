/** The logic of the BMI calculator (advanced_bmi_app.py): the category thresholds, the
    color of each category, the validation and formula of "Calculate & Save", and the
    rows the data file gets and gives back. `real` stands for Python's float, and the file
    is a sequence of rows. */
module BmiApp {
  import opened Wrappers
  import opened PyStr

  const Underweight: string := "Underweight"
  const NormalWeight: string := "Normal Weight"
  const Overweight: string := "Overweight"
  const Obesity: string := "Obesity"

  /** `get_bmi_category`: the first threshold the value falls below decides. */
  function Category(bmi: real): (cat: string)
    ensures cat == Underweight <==> bmi < 18.5
    ensures cat == NormalWeight <==> 18.5 <= bmi < 25.0
    ensures cat == Overweight <==> 25.0 <= bmi < 30.0
    ensures cat == Obesity <==> 30.0 <= bmi
  {
    if bmi < 18.5 then Underweight
    else if 18.5 <= bmi < 25.0 then NormalWeight
    else if 25.0 <= bmi < 30.0 then Overweight
    else Obesity
  }

  /** The position of a category on the scale, from Underweight up to Obesity. */
  function Rank(cat: string): nat {
    if cat == Underweight then 0
    else if cat == NormalWeight then 1
    else if cat == Overweight then 2
    else 3
  }

  /** A larger BMI never gets a lower category. */
  lemma CategoryMonotone(a: real, b: real)
    requires a <= b
    ensures Rank(Category(a)) <= Rank(Category(b))
  {
  }

  /** `color_map`. */
  const ColorTable: map<string, string> :=
    map[Underweight := "blue", NormalWeight := "green", Overweight := "orange", Obesity := "red"]

  /** The color a category is plotted in: its entry in the color table, black for a
      category the table does not list. */
  function Color(cat: string): (color: string)
    ensures cat in ColorTable ==> color == ColorTable[cat]
    ensures cat !in ColorTable ==> color == "black"
  {
    if cat in ColorTable then ColorTable[cat] else "black"
  }

  /** Different categories are shown in different colors, and the `"black"` default is
      never used for a computed category. */
  lemma CategoryColors(a: real, b: real)
    ensures Color(Category(a)) != "black"
    ensures Category(a) != Category(b) ==> Color(Category(a)) != Color(Category(b))
  {
  }

  // ---------------------------------------------------------------------------------
  // The data file

  /** A cell of the data file, as the application writes it: text, a number, or a
      timestamp (its `%Y-%m-%d` date and `%H:%M:%S` time). */
  datatype Cell = Text(s: string) | Num(x: real) | Stamp(date: string, time: string)

  type Row = seq<Cell>

  /** `bmi_data.csv`: missing, or present with its rows. */
  datatype CsvFile = Missing | Exists(rows: seq<Row>)

  /** The header row `save_to_csv` writes into a new file. */
  const Header: Row :=
    [Text("Timestamp"), Text("Username"), Text("Weight (kg)"), Text("Height (m)"), Text("BMI"), Text("Category")]

  /** One saved measurement. */
  datatype Entry = Entry(when: Cell, user: string, weight: real, height: real, bmi: real, category: string)

  /** The data row of an entry, in the column order of the header. */
  function DataRow(e: Entry): (row: Row)
    ensures |row| == |Header|
    ensures row[0] == e.when && row[1] == Text(e.user)
    ensures row[2] == Num(e.weight) && row[3] == Num(e.height)
    ensures row[4] == Num(e.bmi) && row[5] == Text(e.category)
  {
    [e.when, Text(e.user), Num(e.weight), Num(e.height), Num(e.bmi), Text(e.category)]
  }

  /** `save_to_csv`: one data row is appended, after the header if the file did not
      exist. */
  function SaveToCsv(f: CsvFile, e: Entry): (g: CsvFile)
    ensures g.Exists?
    ensures f.Missing? ==> g.rows == [Header, DataRow(e)]
    ensures f.Exists? ==> |g.rows| == |f.rows| + 1 && g.rows[..|f.rows|] == f.rows && g.rows[|f.rows|] == DataRow(e)
  {
    match f
    case Missing => Exists([Header, DataRow(e)])
    case Exists(rows) => Exists(rows + [DataRow(e)])
  }

  // ---------------------------------------------------------------------------------
  // Calculate & Save

  /** Weight divided by the square of the height: for a positive weight and height, the
      positive value that times the squared height gives the weight back. */
  function BodyMassIndex(weight: real, height: real): (bmi: real)
    requires weight > 0.0 && height > 0.0
    ensures bmi > 0.0
    ensures bmi * (height * height) == weight
  {
    var square := height * height;
    assert square > 0.0 by { assert height * height > 0.0 * height; }
    weight / square
  }

  /** What "Calculate & Save" shows. */
  datatype Calculated =
    | NeedUsername
    | NotANumber
    | NotPositive
    | Result(bmi: real, category: string, color: string, saved: bool)

  /** `calculate_and_save`. `weight` and `height` are `None` when their text does not
      parse as a number; `writable` says whether appending to the file succeeds. Returns
      what is shown and the file afterwards. */
  function CalculateAndSave(usernameRaw: string, weight: Option<real>, height: Option<real>,
                            when: Cell, f: CsvFile, writable: bool): (out: (Calculated, CsvFile))
    ensures Strip(usernameRaw) == "" ==> out.0 == NeedUsername
    ensures Strip(usernameRaw) != "" && (weight.None? || height.None?) ==> out.0 == NotANumber
    ensures (Strip(usernameRaw) != "" && weight.Some? && height.Some?
             && (weight.value <= 0.0 || height.value <= 0.0)) ==> out.0 == NotPositive
    ensures out.0.Result? <==>
              Strip(usernameRaw) != "" && weight.Some? && height.Some? && weight.value > 0.0 && height.value > 0.0
    ensures out.0.Result? ==>
              && out.0.bmi == BodyMassIndex(weight.value, height.value)
              && out.0.category == Category(out.0.bmi)
              && out.0.color == Color(out.0.category)
              && out.0.saved == writable
    ensures out.0.Result? && writable ==>
              out.1 == SaveToCsv(f, Entry(when, Strip(usernameRaw), weight.value, height.value, out.0.bmi, out.0.category))
    ensures !(out.0.Result? && writable) ==> out.1 == f
  {
    var username := Strip(usernameRaw);
    if username == "" then (NeedUsername, f)
    else if weight.None? || height.None? then (NotANumber, f)
    else if weight.value <= 0.0 || height.value <= 0.0 then (NotPositive, f)
    else
      var w := weight.value;
      var h := height.value;
      var bmi := BodyMassIndex(w, h);
      var category := Category(bmi);
      var color := Color(category);
      if writable then (Result(bmi, category, color, true), SaveToCsv(f, Entry(when, username, w, h, bmi, category)))
      else (Result(bmi, category, color, false), f)
  }

  // ---------------------------------------------------------------------------------
  // Show User History

  /** What "Show User History" shows. `Unreadable` stands for an exception while reading
      the file: an empty file, a short row, or a cell that does not parse. */
  datatype HistoryView =
    | AskUsername
    | NoDataFile
    | Unreadable
    | NoHistory
    | Plot(dates: seq<string>, bmis: seq<real>)

  /** The loop over the rows after the header: `None` if a row raises, otherwise the
      dates and BMI values of the matching rows. */
  function Scan(rows: seq<Row>, username: string): (r: Option<(seq<string>, seq<real>)>)
    ensures r.Some? ==> |r.value.0| == |r.value.1| <= |rows|
    decreases |rows|
  {
    if |rows| == 0 then Some(([], []))
    else
      var row := rows[0];
      if |row| < 2 then None
      else if row[1] != Text(username) then Scan(rows[1..], username)
      else if |row| < 5 || !row[0].Stamp? || !row[4].Num? then None
      else match Scan(rows[1..], username)
        case None => None
        case Some(rest) => Some(([row[0].date] + rest.0, [row[4].x] + rest.1))
  }

  /** `show_history`: the name is checked before the file is looked at. */
  function History(usernameRaw: string, f: CsvFile): (v: HistoryView)
    ensures Strip(usernameRaw) == "" ==> v == AskUsername
    ensures Strip(usernameRaw) != "" ==> v == ShowFile(Strip(usernameRaw), f)
  {
    var username := Strip(usernameRaw);
    if username == "" then AskUsername else ShowFile(username, f)
  }

  /** What `show_history` shows for a non-empty (stripped) name: nothing without a file,
      an error for an empty file or a row that raises, otherwise the matching rows. */
  function ShowFile(username: string, f: CsvFile): (v: HistoryView)
    ensures f.Missing? <==> v == NoDataFile
    ensures v.Plot? <==> f.Exists? && |f.rows| > 0 && Scan(f.rows[1..], username).Some?
                         && |Scan(f.rows[1..], username).value.0| > 0
    ensures v.Plot? ==> |v.dates| == |v.bmis| > 0 && v == Plot(Scan(f.rows[1..], username).value.0, Scan(f.rows[1..], username).value.1)
    ensures v == NoHistory <==> f.Exists? && |f.rows| > 0 && Scan(f.rows[1..], username).Some?
                                && |Scan(f.rows[1..], username).value.0| == 0
    ensures v == Unreadable <==> f.Exists? && (|f.rows| == 0 || Scan(f.rows[1..], username).None?)
    ensures v != AskUsername
  {
    match f
    case Missing => NoDataFile
    case Exists(rows) =>
      if |rows| == 0 then Unreadable
      else match Scan(rows[1..], username)
        case None => Unreadable
        case Some(found) => if |found.0| == 0 then NoHistory else Plot(found.0, found.1)
  }

  /** The BMI values the entries hold for `username`, in order. */
  function BmisOf(es: seq<Entry>, username: string): (bmis: seq<real>)
    ensures |bmis| <= |es|
  {
    if |es| == 0 then []
    else (if es[0].user == username then [es[0].bmi] else []) + BmisOf(es[1..], username)
  }

  /** The dates the entries hold for `username`, in order. */
  function DatesOf(es: seq<Entry>, username: string): (dates: seq<string>)
    requires forall k :: 0 <= k < |es| ==> es[k].when.Stamp?
  {
    if |es| == 0 then []
    else (if es[0].user == username then [es[0].when.date] else []) + DatesOf(es[1..], username)
  }

  /** The file after saving each entry in turn. */
  function SaveAll(f: CsvFile, es: seq<Entry>): (g: CsvFile)
    ensures |es| > 0 ==> g.Exists?
    decreases |es|
  {
    if |es| == 0 then f else SaveAll(SaveToCsv(f, es[0]), es[1..])
  }

  /** Saving entries into an existing file appends one data row per entry. */
  lemma {:induction false} SaveAllAppends(rows: seq<Row>, es: seq<Entry>)
    ensures SaveAll(Exists(rows), es) == Exists(rows + DataRows(es))
    decreases |es|
  {
    if |es| > 0 {
      SaveAllAppends(rows + [DataRow(es[0])], es[1..]);
      assert rows + [DataRow(es[0])] + DataRows(es[1..]) == rows + DataRows(es);
    }
  }

  /** Saving entries into a missing file gives the header followed by one data row per
      entry. */
  lemma SaveAllRows(es: seq<Entry>)
    requires |es| > 0
    ensures SaveAll(Missing, es) == Exists([Header] + DataRows(es))
  {
    MissingSavesLikeHeaderOnly(es[0]);
    assert SaveAll(Missing, es) == SaveAll(Exists([Header]), es);
    SaveAllAppends([Header], es);
  }

  /** Saving into a missing file gives the same file as saving into one that holds only
      the header. */
  lemma MissingSavesLikeHeaderOnly(e: Entry)
    ensures SaveToCsv(Missing, e) == SaveToCsv(Exists([Header]), e)
  {
    assert [Header] + [DataRow(e)] == [Header, DataRow(e)];
  }

  /** The data rows of the entries, in order. */
  function DataRows(es: seq<Entry>): (rows: seq<Row>)
    ensures |rows| == |es|
  {
    if |es| == 0 then [] else [DataRow(es[0])] + DataRows(es[1..])
  }

  /** Scanning the data rows of timestamped entries finds exactly the dates and BMI
      values of the entries of `username`, in file order. */
  lemma {:induction false} ScanDataRows(es: seq<Entry>, username: string)
    requires forall k :: 0 <= k < |es| ==> es[k].when.Stamp?
    ensures Scan(DataRows(es), username) == Some((DatesOf(es, username), BmisOf(es, username)))
    decreases |es|
  {
    if |es| > 0 {
      var row := DataRow(es[0]);
      assert DataRows(es)[0] == row;
      assert DataRows(es)[1..] == DataRows(es[1..]);
      ScanDataRows(es[1..], username);
      var rest := (DatesOf(es[1..], username), BmisOf(es[1..], username));
      if es[0].user == username {
        assert Scan(DataRows(es), username) == Some(([es[0].when.date] + rest.0, [es[0].bmi] + rest.1));
      } else {
        assert row[1] != Text(username);
        assert DatesOf(es, username) == rest.0 && BmisOf(es, username) == rest.1;
      }
    }
  }

  /** Once the measurements have been saved, one after the other, starting from no file,
      the history of a user plots exactly that user's dates and BMI values in the order
      they were saved, and says there is no history when the user saved none. */
  lemma HistoryAfterSaves(username: string, es: seq<Entry>)
    requires |es| > 0
    requires forall k :: 0 <= k < |es| ==> es[k].when.Stamp?
    ensures var v := ShowFile(username, SaveAll(Missing, es));
            && (|BmisOf(es, username)| == 0 ==> v == NoHistory)
            && (|BmisOf(es, username)| > 0 ==> v == Plot(DatesOf(es, username), BmisOf(es, username)))
  {
    SaveAllRows(es);
    ScanDataRows(es, username);
    DatesLengthMatches(es, username);
    assert ([Header] + DataRows(es))[1..] == DataRows(es);
  }

  lemma {:induction false} DatesLengthMatches(es: seq<Entry>, username: string)
    requires forall k :: 0 <= k < |es| ==> es[k].when.Stamp?
    ensures |DatesOf(es, username)| == |BmisOf(es, username)|
    decreases |es|
  {
    if |es| > 0 { DatesLengthMatches(es[1..], username); }
  }

  /** Saving an entry and then viewing the history of its user plots the entry last,
      provided the rows already in the file can be read. */
  lemma HistoryAfterSave(f: CsvFile, e: Entry)
    requires e.when.Stamp?
    requires f.Exists? ==> |f.rows| > 0 && Scan(f.rows[1..], e.user).Some?
    ensures var v := ShowFile(e.user, SaveToCsv(f, e));
            v.Plot? && v.dates[|v.dates| - 1] == e.when.date && v.bmis[|v.bmis| - 1] == e.bmi
  {
    var row := DataRow(e);
    var rows := if f.Missing? then [Header] else f.rows;
    assert SaveToCsv(f, e).rows == rows + [row];
    assert (rows + [row])[1..] == rows[1..] + [row];
    ScanSnoc(rows[1..], row, e.user);
  }

  /** A successful "Calculate & Save" followed by "Show User History" for the same name
      plots the value just computed, last. */
  lemma SaveThenShow(usernameRaw: string, w: real, h: real, when: Cell, f: CsvFile)
    requires when.Stamp?
    requires f.Exists? ==> |f.rows| > 0 && Scan(f.rows[1..], Strip(usernameRaw)).Some?
    ensures var out := CalculateAndSave(usernameRaw, Some(w), Some(h), when, f, true);
            out.0.Result? ==>
              var v := History(usernameRaw, out.1);
              v.Plot? && v.dates[|v.dates| - 1] == when.date && v.bmis[|v.bmis| - 1] == out.0.bmi
  {
    var out := CalculateAndSave(usernameRaw, Some(w), Some(h), when, f, true);
    if out.0.Result? {
      HistoryAfterSave(f, Entry(when, Strip(usernameRaw), w, h, out.0.bmi, out.0.category));
    }
  }

  /** Scanning one more row that matches adds its date and value at the end. */
  lemma {:induction false} ScanSnoc(rows: seq<Row>, row: Row, username: string)
    requires Scan(rows, username).Some?
    requires |row| >= 5 && row[1] == Text(username) && row[0].Stamp? && row[4].Num?
    ensures Scan(rows + [row], username)
            == Some((Scan(rows, username).value.0 + [row[0].date], Scan(rows, username).value.1 + [row[4].x]))
    decreases |rows|
  {
    if |rows| == 0 {
      var one := [row];
      assert rows + [row] == one && one[0] == row && one[1..] == [];
      assert Scan(one[1..], username) == Some(([], []));
      assert Scan(one, username) == Some(([row[0].date] + [], [row[4].x] + []));
      assert [row[0].date] + [] == [] + [row[0].date] && [row[4].x] + [] == [] + [row[4].x];
    } else {
      var longer := rows + [row];
      assert longer[0] == rows[0];
      assert longer[1..] == rows[1..] + [row];
      ScanSnoc(rows[1..], row, username);
      var rest := Scan(rows[1..], username).value;
      if rows[0][1] == Text(username) {
        var head := rows[0];
        assert Scan(rows, username).value == ([head[0].date] + rest.0, [head[4].x] + rest.1);
        assert Scan(longer, username).value
            == ([head[0].date] + (rest.0 + [row[0].date]), [head[4].x] + (rest.1 + [row[4].x]));
        assert [head[0].date] + (rest.0 + [row[0].date]) == [head[0].date] + rest.0 + [row[0].date];
        assert [head[4].x] + (rest.1 + [row[4].x]) == [head[4].x] + rest.1 + [row[4].x];
      } else {
        assert Scan(rows, username).value == rest;
      }
    }
  }

  /** A data file that exists but is empty gets no header, so the first row saved into it
      is taken for the header and never shown. */
  lemma EmptyFileHidesFirstSave(e: Entry)
    ensures ShowFile(e.user, SaveToCsv(Exists([]), e)) == NoHistory
  {
    assert SaveToCsv(Exists([]), e).rows[1..] == [];
  }
}

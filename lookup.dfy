/**
 * Building the letter-to-code-word table from the rows of `alphabet.csv`:
 * the first row is a header and is skipped, every later row maps its first
 * field to its second, and a later row with the same first field replaces
 * the earlier mapping.  A row with fewer than two fields stops the build
 * (Python raises `IndexError` on `line[0]` or `line[1]`).
 */
module Lookup {

  datatype Result<T, E> = Ok(value: T) | Err(error: E)

  /** The `IndexError` of a data row with fewer than two fields, by the row's position. */
  datatype LoadError = ShortRow(index: nat)

  /** The lookup table: a letter (a one-character string) to its code-word. */
  type Table = map<string, string>

  /** One parsed CSV row: its fields in order. */
  type Row = seq<string>

  /** What the build loop has produced after the rows before `n`. */
  function LoadUpTo(rows: seq<Row>, n: nat): (r: Result<Table, LoadError>)
    requires n <= |rows|
    ensures r.Err? ==> 1 <= r.error.index < n && |rows[r.error.index]| < 2
  {
    if n <= 1 then Ok(map[])
    else
      match LoadUpTo(rows, n - 1)
      case Err(e) => Err(e)
      case Ok(table) =>
        if |rows[n - 1]| < 2 then Err(ShortRow(n - 1))
        else Ok(table[rows[n - 1][0] := rows[n - 1][1]])
  }

  /** The whole build, over every row. */
  function Load(rows: seq<Row>): (r: Result<Table, LoadError>)
    ensures r.Err? ==> 1 <= r.error.index < |rows| && |rows[r.error.index]| < 2
    ensures |rows| <= 1 ==> r == Ok(map[])
  {
    LoadUpTo(rows, |rows|)
  }

  /** The build loop of the script, over rows already read from the file. */
  method BuildLookup(rows: seq<Row>) returns (r: Result<Table, LoadError>)
    ensures r == Load(rows)
  {
    var lookup: Table := map[];
    for idx := 0 to |rows|
      invariant LoadUpTo(rows, idx) == Ok(lookup)
    {
      if idx == 0 {
        continue;
      }
      var line := rows[idx];
      if |line| < 2 {
        ErrorIsFinal(rows, idx + 1, |rows|);
        return Err(ShortRow(idx));
      }
      lookup := lookup[line[0] := line[1]];
    }
    return Ok(lookup);
  }

  /** Once a short row has stopped the build, later rows change nothing. */
  lemma {:induction false} ErrorIsFinal(rows: seq<Row>, k: nat, m: nat)
    requires k <= m <= |rows|
    requires LoadUpTo(rows, k).Err?
    ensures LoadUpTo(rows, m) == LoadUpTo(rows, k)
  {
    if k < m {
      ErrorIsFinal(rows, k, m - 1);
    }
  }

  /**
   * The build fails exactly when some data row has fewer than two fields,
   * and then names the first such row.
   */
  lemma {:induction false} LoadFailsAtFirstShortRow(rows: seq<Row>, n: nat)
    requires n <= |rows|
    ensures LoadUpTo(rows, n).Ok? <==> forall i :: 1 <= i < n ==> |rows[i]| >= 2
    ensures var r := LoadUpTo(rows, n);
      r.Err? ==>
        && 1 <= r.error.index < n
        && |rows[r.error.index]| < 2
        && forall i :: 1 <= i < r.error.index ==> |rows[i]| >= 2
  {
    if n > 1 {
      LoadFailsAtFirstShortRow(rows, n - 1);
    }
  }

  /** The keys of the table are exactly the first fields of the data rows. */
  lemma {:induction false} LoadKeys(rows: seq<Row>, n: nat)
    requires n <= |rows|
    requires LoadUpTo(rows, n).Ok?
    ensures forall i :: 1 <= i < n ==> |rows[i]| >= 2
    ensures forall key :: key in LoadUpTo(rows, n).value <==> exists i :: 1 <= i < n && rows[i][0] == key
  {
    LoadFailsAtFirstShortRow(rows, n);
    if n > 1 {
      LoadKeys(rows, n - 1);
      var table := LoadUpTo(rows, n - 1).value;
      var row := rows[n - 1];
      assert LoadUpTo(rows, n) == Ok(table[row[0] := row[1]]);
    }
  }

  /**
   * Each data row's first field maps to its second field, unless a later
   * data row has the same first field: the last such row wins.
   */
  lemma {:induction false} LoadLastWins(rows: seq<Row>, n: nat)
    requires n <= |rows|
    requires LoadUpTo(rows, n).Ok?
    ensures forall i :: 1 <= i < n ==> |rows[i]| >= 2
    ensures forall i :: 1 <= i < n && (forall j :: i < j < n ==> rows[j][0] != rows[i][0]) ==>
      && rows[i][0] in LoadUpTo(rows, n).value
      && LoadUpTo(rows, n).value[rows[i][0]] == rows[i][1]
  {
    LoadFailsAtFirstShortRow(rows, n);
    if n > 1 {
      LoadLastWins(rows, n - 1);
      LoadKeys(rows, n - 1);
      var table := LoadUpTo(rows, n - 1).value;
      var row := rows[n - 1];
      assert LoadUpTo(rows, n) == Ok(table[row[0] := row[1]]);
    }
  }

  /** The header row plays no part: any two headers give the same outcome. */
  lemma {:induction false} HeaderIgnored(rows1: seq<Row>, rows2: seq<Row>, n: nat)
    requires |rows1| == |rows2| && 1 <= |rows1|
    requires rows1[1..] == rows2[1..]
    requires n <= |rows1|
    ensures LoadUpTo(rows1, n) == LoadUpTo(rows2, n)
  {
    if n > 1 {
      HeaderIgnored(rows1, rows2, n - 1);
      assert rows1[n - 1] == rows1[1..][n - 2] == rows2[n - 1];
    }
  }

  /** A row appended after a successful build always wins for its key. */
  lemma LastRowWins(rows: seq<Row>, row: Row)
    requires 1 <= |rows|
    requires Load(rows).Ok? && |row| >= 2
    ensures Load(rows + [row]).Ok?
    ensures Load(rows + [row]).value[row[0]] == row[1]
  {
    var all := rows + [row];
    assert all[|rows|] == row;
    assert LoadUpTo(all, |rows|) == LoadUpTo(rows, |rows|) by {
      PrefixUnchanged(rows, all, |rows|);
    }
  }

  /** The build up to `n` reads only the rows before `n`. */
  lemma {:induction false} PrefixUnchanged(rows1: seq<Row>, rows2: seq<Row>, n: nat)
    requires n <= |rows1| && n <= |rows2|
    requires rows1[..n] == rows2[..n]
    ensures LoadUpTo(rows1, n) == LoadUpTo(rows2, n)
  {
    if n > 1 {
      assert rows1[..n - 1] == rows2[..n - 1];
      PrefixUnchanged(rows1, rows2, n - 1);
      assert rows1[n - 1] == rows1[..n][n - 1];
    }
  }

  /**
   * Only one spelling per letter is kept: of two rows for the same letter,
   * the later one replaces the earlier.
   */
  lemma OneSpellingPerLetter(header: Row)
    ensures Load([header, ["a", "alfa"], ["a", "alpha"], ["b", "bravo"]])
      == Ok(map["a" := "alpha", "b" := "bravo"])
  {
    var rows := [header, ["a", "alfa"], ["a", "alpha"], ["b", "bravo"]];
    assert LoadUpTo(rows, 1) == Ok(map[]);
    assert LoadUpTo(rows, 2) == Ok(map[]["a" := "alfa"]);
    assert LoadUpTo(rows, 3) == Ok(map[]["a" := "alfa"]["a" := "alpha"]);
    assert LoadUpTo(rows, 4) == Ok(map[]["a" := "alfa"]["a" := "alpha"]["b" := "bravo"]);
    assert map[]["a" := "alfa"]["a" := "alpha"]["b" := "bravo"] == map["a" := "alpha", "b" := "bravo"];
  }
}

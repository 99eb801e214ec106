/** The help table shown for "?" (class CliTable of index.js): one row per move the
    computer may hold, one column per move the user may pick, and in each cell the
    round's outcome for the user. The console-table-printer Table object is
    modelled by what it is filled with: its column titles and its rows, each row
    as its cells in column order. */
module HelpTable {
  import opened GameRule

  datatype Option<T> = None | Some(value: T)

  /** Title of the first column, which holds the computer's moves. */
  const Corner: string := "v PC/User >"

  /** The contents given to the Table object: column titles, then rows. */
  datatype TableData = TableData(columns: seq<string>, rows: seq<seq<string>>)

  /** Row `i` names the computer's move `moves[i]`, then gives, for each move `j`
      the user may pick, the user's outcome against it. */
  ghost predicate IsOutcomeRow(moves: seq<string>, i: nat, row: seq<string>)
    requires i < |moves|
  {
    && |row| == |moves| + 1
    && row[0] == moves[i]
    && forall j :: 1 <= j < |row| ==> row[j] == Text(GetResult(|moves|, j - 1, i))
  }

  /** A full help table: one outcome row for every move, in list order. */
  ghost predicate IsOutcomeTable(moves: seq<string>, rows: seq<seq<string>>)
  {
    && |rows| == |moves|
    && forall i :: 0 <= i < |rows| ==> IsOutcomeRow(moves, i, rows[i])
  }

  class CliTable {
    const moves: seq<string>
    /** Undefined (None) until CreateTable has run. */
    var table: Option<TableData>

    constructor(moves: seq<string>)
      ensures this.moves == moves && table == None
    {
      this.moves := moves;
      table := None;
    }

    /** createTable: one column title per move after the corner title, then one
        row per move, filled column by column. */
    method CreateTable()
      modifies this
      ensures table.Some?
      ensures table.value.columns == [Corner] + moves
      ensures IsOutcomeTable(moves, table.value.rows)
    {
      var columns := [Corner];
      for i := 0 to |moves|
        invariant columns == [Corner] + moves[..i]
      {
        columns := columns + [moves[i]];
      }
      assert moves[..|moves|] == moves;
      table := Some(TableData(columns, []));
      for i := 0 to |moves|
        invariant table.Some? && table.value.columns == columns
        invariant |table.value.rows| == i
        invariant forall r :: 0 <= r < i ==> IsOutcomeRow(moves, r, table.value.rows[r])
      {
        var row := [];
        for j := 0 to |columns|
          invariant |row| == j
          invariant j > 0 ==> row[0] == moves[i]
          invariant forall c :: 1 <= c < j ==> row[c] == Text(GetResult(|moves|, c - 1, i))
        {
          if j == 0 {
            row := row + [moves[i]];
          } else {
            row := row + [Text(GetResult(|moves|, j - 1, i))];
          }
        }
        table := Some(table.value.(rows := table.value.rows + [row]));
      }
    }
  }

  /** The printed outcome words are pairwise distinct. */
  lemma TextInjective(a: Outcome, b: Outcome)
    ensures Text(a) == Text(b) <==> a == b
  {}

  /** Cell (i, j+1) of the table reads "draw" exactly on the diagonal j == i,
      where user and computer picked the same move. */
  lemma DrawOnlyOnDiagonal(moves: seq<string>, rows: seq<seq<string>>, i: nat, j: nat)
    requires IsOutcomeTable(moves, rows)
    requires i < |moves| && j < |moves|
    ensures |rows[i]| == |moves| + 1
    ensures rows[i][j + 1] == "draw" <==> i == j
  {
    assert IsOutcomeRow(moves, i, rows[i]);
    DrawIffSameMove(|moves|, j, i);
    TextInjective(GetResult(|moves|, j, i), Draw);
  }

  /** For an odd number of moves the table mirrors across its diagonal with
      win and lose swapped: the user wins in row i, column j+1 exactly when the
      user loses in row j, column i+1. */
  lemma MirroredAcrossDiagonal(moves: seq<string>, rows: seq<seq<string>>, i: nat, j: nat)
    requires |moves| % 2 == 1
    requires IsOutcomeTable(moves, rows)
    requires i < |moves| && j < |moves|
    ensures |rows[i]| == |moves| + 1 && |rows[j]| == |moves| + 1
    ensures rows[i][j + 1] == "win" <==> rows[j][i + 1] == "lose"
    ensures rows[i][j + 1] == "lose" <==> rows[j][i + 1] == "win"
  {
    assert IsOutcomeRow(moves, i, rows[i]);
    assert IsOutcomeRow(moves, j, rows[j]);
    var o := GetResult(|moves|, j, i);
    AntiSymmetric(|moves|, j, i);
    TextInjective(o, Win);
    TextInjective(o, Lose);
    TextInjective(Flip(o), Win);
    TextInjective(Flip(o), Lose);
  }
}

/** The columnar transposition cipher (encrypt, decrypt).  Encryption writes
    the text row by row into a grid with one column per key character,
    padded on the right with '=', and reads the columns out top to bottom in
    the order given by the key; decryption cuts the ciphertext back into
    columns and reads the grid row by row. */
module Transposition {
  import opened KeyOrder
  import opened Grid

  /** padChar: the filler the page appends to the last row. */
  const Filler: char := '='

  /** String.prototype.padEnd(len, c) for a one-character filler. */
  function PadEnd(s: string, len: nat, c: char): (r: string)
    ensures |r| == if len <= |s| then |s| else len
    ensures r[..|s|] == s
    ensures forall i :: |s| <= i < |r| ==> r[i] == c
  {
    if len <= |s| then s else s + seq(len - |s|, _ => c)
  }

  /** The text padded to rows * cols, rows = ceil(|text| / cols). */
  function Padded(text: string, cols: nat): (p: string)
    requires cols > 0
    ensures |p| == CeilDiv(|text|, cols) * cols
  {
    PadEnd(text, CeilDiv(|text|, cols) * cols, Filler)
  }

  /** Column c of the grid p, top to bottom. */
  function Column(p: string, cols: nat, rows: nat, c: nat): (col: string)
    requires |p| == rows * cols && c < cols
    ensures |col| == rows
  {
    seq(rows, r requires 0 <= r < rows => CellInside(r, c, rows, cols); p[r * cols + c])
  }

  /** The columns of the grid p listed in order, one after the other. */
  function ReadColumns(p: string, cols: nat, rows: nat, order: seq<nat>): string
    requires |p| == rows * cols
    requires forall i :: 0 <= i < |order| ==> order[i] < cols
  {
    if order == [] then []
    else ReadColumns(p, cols, rows, order[..|order| - 1]) + Column(p, cols, rows, order[|order| - 1])
  }

  /** The grid of the padded text read out column by column in order. */
  function Encipher(text: string, cols: nat, order: seq<nat>): string
    requires cols > 0
    requires forall i :: 0 <= i < |order| ==> order[i] < cols
  {
    ReadColumns(Padded(text, cols), cols, CeilDiv(|text|, cols), order)
  }

  /** What encrypt(text, k) returns.  cols is the length of the raw key, while
      the column order comes from its letters only. */
  function Encryption(text: string, k: string): string
  {
    if k == [] then []
    else
      OrderWithinKey(k);
      Encipher(text, |k|, ColumnOrder(k))
  }

  /** encrypt: rejects the empty key, pads the text and reads the columns. */
  method Encrypt(text: string, k: string) returns (out: string)
    ensures k == [] ==> out == []
    ensures out == Encryption(text, k)
  {
    if k == [] {
      return "";
    }
    var cols := |k|;
    var rows := CeilDiv(|text|, cols);
    var padded := PadEnd(text, rows * cols, Filler);
    var order := ColumnOrder(k);
    OrderWithinKey(k);
    out := WriteColumns(padded, cols, rows, order);
  }

  /** The nested loops of encrypt: for each column of the order, append its
      characters from the top row down. */
  method WriteColumns(padded: string, cols: nat, rows: nat, order: seq<nat>) returns (out: string)
    requires |padded| == rows * cols
    requires forall i :: 0 <= i < |order| ==> order[i] < cols
    ensures out == ReadColumns(padded, cols, rows, order)
  {
    out := "";
    for i := 0 to |order|
      invariant out == ReadColumns(padded, cols, rows, order[..i])
    {
      var col := order[i];
      for r := 0 to rows
        invariant out == ReadColumns(padded, cols, rows, order[..i]) + Column(padded, cols, rows, col)[..r]
      {
        CellInside(r, col, rows, cols);
        out := out + [padded[r * cols + col]];
      }
      assert order[..i + 1][..i] == order[..i];
    }
    assert order[..|order|] == order;
  }

  /** The first position of x in s. */
  function IndexOf(s: seq<nat>, x: nat): (i: nat)
    requires x in s
    ensures i < |s| && s[i] == x
    ensures forall j :: 0 <= j < i ==> s[j] != x
  {
    if s[0] == x then 0 else 1 + IndexOf(s[1..], x)
  }

  /** String.prototype.slice(a, b) for 0 <= a <= b: the characters from a
      up to b, cut short at the end of s. */
  function Slice(s: string, a: nat, b: nat): (t: string)
    requires a <= b
    ensures b <= |s| ==> t == s[a..b]
    ensures |t| <= b - a
  {
    if |s| <= a then [] else if |s| <= b then s[a..] else s[a..b]
  }

  /** colData after the scatter loop has handled the ranks of order: it
      starts as cols empty strings, and the column at rank i receives the
      i-th rows-long chunk of ct. */
  function ColumnData(ct: string, rows: nat, order: seq<nat>, cols: nat): (cd: seq<string>)
    requires forall i :: 0 <= i < |order| ==> order[i] < cols
    ensures |cd| == cols
  {
    if order == [] then seq(cols, _ => "")
    else
      var n := |order| - 1;
      ColumnData(ct, rows, order[..n], cols)[order[n] := Slice(ct, Cell(n, 0, rows), Cell(n, 0, rows) + rows)]
  }

  /** When the order lists every column once, every column receives a chunk
      of rows characters. */
  lemma ColumnsHaveRows(ct: string, rows: nat, order: seq<nat>, cols: nat)
    requires |order| * rows <= |ct|
    requires forall i :: 0 <= i < |order| ==> order[i] < cols
    requires forall a, b :: 0 <= a < b < |order| ==> order[a] != order[b]
    requires forall c :: 0 <= c < cols ==> c in order
    ensures forall c :: 0 <= c < cols ==> |ColumnData(ct, rows, order, cols)[c]| == rows
  {
    forall c | 0 <= c < cols ensures |ColumnData(ct, rows, order, cols)[c]| == rows {
      ColumnLength(ct, rows, order, cols, c);
    }
  }

  /** Column c receives a chunk of rows characters when it is in the order,
      and stays empty otherwise. */
  lemma {:induction false} ColumnLength(ct: string, rows: nat, order: seq<nat>, cols: nat, c: nat)
    requires |order| * rows <= |ct|
    requires forall i :: 0 <= i < |order| ==> order[i] < cols
    requires c < cols
    ensures |ColumnData(ct, rows, order, cols)[c]| == if c in order then rows else 0
  {
    if order != [] {
      var n := |order| - 1;
      BlockInside(n, |order|, rows);
      if c != order[n] {
        ColumnLength(ct, rows, order[..n], cols, c);
        assert order == order[..n] + [order[n]];
      }
    }
  }

  /** What out += column[r] appends: the character, or the text "undefined"
      that JavaScript concatenates for a read past the end of the column. */
  function CellText(column: string, r: nat): string {
    if r < |column| then [column[r]] else "undefined"
  }

  /** Row r of the first n columns, read left to right. */
  function RowText(cd: seq<string>, r: nat, n: nat): string
    requires n <= |cd|
  {
    if n == 0 then [] else RowText(cd, r, n - 1) + CellText(cd[n - 1], r)
  }

  /** The first rows rows of the column data, one after the other. */
  function ReadRows(cd: seq<string>, rows: nat): string {
    if rows == 0 then [] else ReadRows(cd, rows - 1) + RowText(cd, rows - 1, |cd|)
  }

  /** The ciphertext cut into rows-long chunks, scattered to the columns of
      the order, and read row by row. */
  function Decipher(ct: string, cols: nat, order: seq<nat>): string
    requires cols > 0 && |ct| % cols == 0
    requires forall i :: 0 <= i < |order| ==> order[i] < cols
  {
    ReadRows(ColumnData(ct, |ct| / cols, order, cols), |ct| / cols)
  }

  /** What decrypt(ct, k) returns. */
  function Decryption(ct: string, k: string): string
  {
    if k == [] then []
    else if |ct| % |k| != 0 then []
    else
      OrderWithinKey(k);
      Decipher(ct, |k|, ColumnOrder(k))
  }

  /** decrypt: scatter the chunks into colData, then read it row by row. */
  method Decrypt(ct: string, k: string) returns (out: string)
    ensures k == [] || |ct| % |k| != 0 ==> out == []
    ensures out == Decryption(ct, k)
  {
    if k == [] {
      return "";
    }
    var cols := |k|;
    if |ct| % cols != 0 {
      return "";
    }
    var rows := |ct| / cols;
    var order := ColumnOrder(k);
    OrderWithinKey(k);
    var colData := ScatterColumns(ct, rows, order, cols);
    out := ReadGrid(colData, rows);
  }

  /** The scatter loop of decrypt: colData starts as cols empty strings and
      the column at rank i of the order receives the i-th chunk of ct. */
  method ScatterColumns(ct: string, rows: nat, order: seq<nat>, cols: nat) returns (colData: array<string>)
    requires forall i :: 0 <= i < |order| ==> order[i] < cols
    ensures fresh(colData)
    ensures colData[..] == ColumnData(ct, rows, order, cols)
  {
    colData := new string[cols](_ => "");
    var cursor: nat := 0;
    for i := 0 to |order|
      invariant cursor == Cell(i, 0, rows)
      invariant colData[..] == ColumnData(ct, rows, order[..i], cols)
    {
      ColumnDataStep(ct, rows, order, cols, i, cursor);
      ghost var before := colData[..];
      colData[order[i]] := Slice(ct, cursor, cursor + rows);
      assert colData[..] == before[order[i] := Slice(ct, cursor, cursor + rows)];
      cursor := cursor + rows;
    }
    assert order[..|order|] == order;
  }

  /** One more rank of the order scatters one more chunk. */
  lemma ColumnDataStep(ct: string, rows: nat, order: seq<nat>, cols: nat, i: nat, start: nat)
    requires i < |order| && start == Cell(i, 0, rows)
    requires forall j :: 0 <= j < |order| ==> order[j] < cols
    ensures start + rows == Cell(i + 1, 0, rows)
    ensures ColumnData(ct, rows, order[..i + 1], cols) ==
      ColumnData(ct, rows, order[..i], cols)[order[i] := Slice(ct, start, start + rows)]
  {
    MulAddOne(i, 0, rows);
    assert order[..i + 1][..i] == order[..i];
  }

  /** The reading loops of decrypt: row by row, each row left to right. */
  method ReadGrid(colData: array<string>, rows: nat) returns (out: string)
    ensures out == ReadRows(colData[..], rows)
  {
    ghost var cd := colData[..];
    out := "";
    for r := 0 to rows
      invariant out == ReadRows(cd, r)
    {
      for c := 0 to colData.Length
        invariant out == ReadRows(cd, r) + RowText(cd, r, c)
      {
        assert colData[c] == cd[c];
        AppendCell(ReadRows(cd, r), cd, r, c);
        if r < |colData[c]| {
          out := out + [colData[c][r]];
        } else {
          out := out + "undefined";
        }
      }
    }
  }

  /** Appending the text of cell (r, c) extends the row read so far by one
      column. */
  lemma AppendCell(prefix: string, cd: seq<string>, r: nat, c: nat)
    requires c < |cd|
    ensures prefix + RowText(cd, r, c + 1) == prefix + RowText(cd, r, c) + CellText(cd[c], r)
  {
  }

  /** The column at rank q of an order without repeats receives the q-th
      rows-long chunk of ct. */
  lemma {:induction false} ChunkAtRank(ct: string, rows: nat, order: seq<nat>, cols: nat, q: nat)
    requires |order| * rows <= |ct|
    requires forall i :: 0 <= i < |order| ==> order[i] < cols
    requires forall a, b :: 0 <= a < b < |order| ==> order[a] != order[b]
    requires q < |order|
    ensures Cell(q, 0, rows) + rows <= |ct|
    ensures ColumnData(ct, rows, order, cols)[order[q]] == ct[Cell(q, 0, rows) .. Cell(q, 0, rows) + rows]
  {
    var n := |order| - 1;
    BlockInside(n, |order|, rows);
    BlockInside(q, |order|, rows);
    if q < n {
      var prefix := order[..n];
      assert prefix[q] == order[q] && order[q] != order[n];
      ChunkAtRank(ct, rows, prefix, cols, q);
    }
  }

  /** A column that is not in the order keeps its initial empty string. */
  lemma {:induction false} EmptyOutside(ct: string, rows: nat, order: seq<nat>, cols: nat, c: nat)
    requires forall i :: 0 <= i < |order| ==> order[i] < cols
    requires c < cols && c !in order
    ensures ColumnData(ct, rows, order, cols)[c] == ""
  {
    if order != [] {
      var n := |order| - 1;
      assert order == order[..n] + [order[n]];
      EmptyOutside(ct, rows, order[..n], cols, c);
    }
  }

  /** In a column order, the rank of the column at rank i is i. */
  lemma {:induction false} DistinctIndexOf(order: seq<nat>, i: nat)
    requires i < |order|
    requires forall a, b :: 0 <= a < b < |order| ==> order[a] != order[b]
    ensures IndexOf(order, order[i]) == i
  {
    if order[0] != order[i] {
      DistinctIndexOf(order[1..], i - 1);
    }
  }
}

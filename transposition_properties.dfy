/** What the transposition cipher guarantees: where each character goes, the
    output lengths, the padding, the two round trips and that both directions
    only rearrange characters. */
module TranspositionProperties {
  import opened KeyOrder
  import opened Grid
  import opened Rearrange
  import opened Transposition

  lemma {:induction false} ColumnsLength(p: string, cols: nat, rows: nat, order: seq<nat>)
    requires |p| == rows * cols
    requires forall i :: 0 <= i < |order| ==> order[i] < cols
    ensures |ReadColumns(p, cols, rows, order)| == |order| * rows
  {
    if order != [] {
      var m := |order| - 1;
      ColumnsLength(p, cols, rows, order[..m]);
      MulAddOne(m, 0, rows);
    }
  }

  /** Reading the columns puts cell (r, order[i]) at position i * rows + r. */
  lemma {:induction false} ColumnsAt(p: string, cols: nat, rows: nat, order: seq<nat>, i: nat, r: nat)
    requires |p| == rows * cols
    requires forall j :: 0 <= j < |order| ==> order[j] < cols
    requires i < |order| && r < rows
    ensures Cell(i, r, rows) < |ReadColumns(p, cols, rows, order)|
    ensures Cell(r, order[i], cols) < |p|
    ensures ReadColumns(p, cols, rows, order)[Cell(i, r, rows)] == p[Cell(r, order[i], cols)]
  {
    var m := |order| - 1;
    ColumnsLength(p, cols, rows, order[..m]);
    ColumnsLength(p, cols, rows, order);
    CellInside(r, order[i], rows, cols);
    if i < m {
      CellInside(i, r, m, rows);
      ColumnsAt(p, cols, rows, order[..m], i, r);
    }
  }

  /** A row of full columns holds one character per column. */
  lemma {:induction false} RowTextLength(cd: seq<string>, r: nat, n: nat)
    requires n <= |cd| && forall c :: 0 <= c < n ==> r < |cd[c]|
    ensures |RowText(cd, r, n)| == n
  {
    if n > 0 {
      RowTextLength(cd, r, n - 1);
    }
  }

  /** Position c of a row of full columns is row r of column c. */
  lemma {:induction false} RowTextAt(cd: seq<string>, r: nat, n: nat, c: nat)
    requires n <= |cd| && forall c' :: 0 <= c' < n ==> r < |cd[c']|
    requires c < n
    ensures |RowText(cd, r, n)| == n
    ensures RowText(cd, r, n)[c] == cd[c][r]
  {
    RowTextLength(cd, r, n - 1);
    RowTextLength(cd, r, n);
    if c < n - 1 {
      RowTextAt(cd, r, n - 1, c);
    }
  }

  lemma {:induction false} RowsLength(cd: seq<string>, rows: nat)
    requires forall c :: 0 <= c < |cd| ==> rows <= |cd[c]|
    ensures |ReadRows(cd, rows)| == rows * |cd|
  {
    if rows > 0 {
      RowsLength(cd, rows - 1);
      RowTextLength(cd, rows - 1, |cd|);
      MulAddOne(rows - 1, 0, |cd|);
    }
  }

  /** Reading the rows puts cd[c][r] at position r * |cd| + c. */
  lemma {:induction false} RowsAt(cd: seq<string>, rows: nat, r: nat, c: nat)
    requires forall c' :: 0 <= c' < |cd| ==> rows <= |cd[c']|
    requires r < rows && c < |cd|
    ensures Cell(r, c, |cd|) < |ReadRows(cd, rows)|
    ensures ReadRows(cd, rows)[Cell(r, c, |cd|)] == cd[c][r]
  {
    RowsLength(cd, rows - 1);
    RowsLength(cd, rows);
    CellInside(r, c, rows, |cd|);
    if r < rows - 1 {
      CellInside(r, c, rows - 1, |cd|);
      RowsAt(cd, rows - 1, r, c);
    } else {
      RowTextAt(cd, r, |cd|, c);
    }
  }

  /** The padded text is the text followed by '=' up to the least multiple of
      cols not below |text|; it is the text itself exactly when cols divides
      |text|. */
  lemma PaddedShape(text: string, cols: nat)
    requires cols > 0
    ensures |text| <= |Padded(text, cols)| < |text| + cols
    ensures |Padded(text, cols)| % cols == 0
    ensures Padded(text, cols)[..|text|] == text
    ensures forall i :: |text| <= i < |Padded(text, cols)| ==> Padded(text, cols)[i] == Filler
    ensures Padded(text, cols) == text <==> |text| % cols == 0
  {
    var rows := CeilDiv(|text|, cols);
    ExactRows(rows, cols);
    if |text| % cols == 0 {
      ExactDivision(|text|, cols);
      CeilDivExact(|text| / cols, cols);
    }
  }

  lemma EncipherLength(text: string, cols: nat, order: seq<nat>)
    requires cols > 0
    requires forall i :: 0 <= i < |order| ==> order[i] < cols
    ensures |Encipher(text, cols, order)| == |order| * CeilDiv(|text|, cols)
  {
    ColumnsLength(Padded(text, cols), cols, CeilDiv(|text|, cols), order);
  }

  lemma EncipherAt(text: string, cols: nat, order: seq<nat>, i: nat, r: nat)
    requires cols > 0
    requires forall j :: 0 <= j < |order| ==> order[j] < cols
    requires i < |order| && r < CeilDiv(|text|, cols)
    ensures Cell(i, r, CeilDiv(|text|, cols)) < |Encipher(text, cols, order)|
    ensures Cell(r, order[i], cols) < |Padded(text, cols)|
    ensures Encipher(text, cols, order)[Cell(i, r, CeilDiv(|text|, cols))] == Padded(text, cols)[Cell(r, order[i], cols)]
  {
    ColumnsAt(Padded(text, cols), cols, CeilDiv(|text|, cols), order, i, r);
  }

  lemma DecipherAt(ct: string, cols: nat, order: seq<nat>, r: nat, c: nat)
    requires cols > 0 && |ct| % cols == 0
    requires IsPermutation(order, cols)
    requires r < |ct| / cols && c < cols
    ensures |Decipher(ct, cols, order)| == |ct|
    ensures Cell(r, c, cols) < |ct|
    ensures Cell(IndexOf(order, c), r, |ct| / cols) < |ct|
    ensures Decipher(ct, cols, order)[Cell(r, c, cols)] == ct[Cell(IndexOf(order, c), r, |ct| / cols)]
  {
    var rows := |ct| / cols;
    ExactDivision(|ct|, cols);
    var cd := ColumnData(ct, rows, order, cols);
    ScatteredLength(ct, rows, order, cols);
    CellInside(r, c, rows, cols);
    var q := IndexOf(order, c);
    ChunkAtRank(ct, rows, order, cols, q);
    ScatteredAt(cd, ct, rows, q, r, c);
  }

  /** Every scattered column is rows long, and so the rows read back make
      up |ct| characters. */
  lemma ScatteredLength(ct: string, rows: nat, order: seq<nat>, cols: nat)
    requires |ct| == rows * cols
    requires IsPermutation(order, cols)
    ensures forall c' :: 0 <= c' < cols ==> |ColumnData(ct, rows, order, cols)[c']| == rows
    ensures |ReadRows(ColumnData(ct, rows, order, cols), rows)| == |ct|
  {
    ColumnsHaveRows(ct, rows, order, cols);
    RowsLength(ColumnData(ct, rows, order, cols), rows);
  }

  /** When column c holds the chunk of ct that starts at q * rows, reading
      the columns row by row puts row r of that chunk at position
      r * |cd| + c. */
  lemma ScatteredAt(cd: seq<string>, ct: string, rows: nat, q: nat, r: nat, c: nat)
    requires forall c' :: 0 <= c' < |cd| ==> |cd[c']| == rows
    requires r < rows && c < |cd|
    requires Cell(q, 0, rows) + rows <= |ct| && cd[c] == ct[Cell(q, 0, rows) .. Cell(q, 0, rows) + rows]
    ensures Cell(r, c, |cd|) < |ReadRows(cd, rows)|
    ensures ReadRows(cd, rows)[Cell(r, c, |cd|)] == ct[Cell(q, r, rows)]
  {
    RowsAt(cd, rows, r, c);
    SliceAt(ct, Cell(q, 0, rows), rows, r);
  }

  lemma DecipherLength(ct: string, cols: nat, order: seq<nat>)
    requires cols > 0 && |ct| % cols == 0
    requires IsPermutation(order, cols)
    ensures |Decipher(ct, cols, order)| == |ct|
  {
    var rows := |ct| / cols;
    ExactDivision(|ct|, cols);
    ColumnsHaveRows(ct, rows, order, cols);
    RowsLength(ColumnData(ct, rows, order, cols), rows);
  }

  lemma DecipherEncipher(text: string, cols: nat, order: seq<nat>)
    requires cols > 0 && IsPermutation(order, cols)
    ensures |Encipher(text, cols, order)| % cols == 0
    ensures Decipher(Encipher(text, cols, order), cols, order) == Padded(text, cols)
  {
    var P := Padded(text, cols);
    EncipheredLength(text, cols, order);
    var D := Decipher(Encipher(text, cols, order), cols, order);
    var rows := CeilDiv(|text|, cols);
    forall j | 0 <= j < |P| ensures D[j] == P[j] {
      PositionInside(j, rows, cols);
      RedecipherAt(text, cols, order, j / cols, j % cols);
    }
  }

  /** The ciphertext fills whole rows, and deciphering it gives as many
      characters as the padded text holds. */
  lemma EncipheredLength(text: string, cols: nat, order: seq<nat>)
    requires cols > 0 && IsPermutation(order, cols)
    ensures |Encipher(text, cols, order)| == |Padded(text, cols)|
    ensures |Encipher(text, cols, order)| % cols == 0
    ensures |Decipher(Encipher(text, cols, order), cols, order)| == |Padded(text, cols)|
  {
    var rows := CeilDiv(|text|, cols);
    EncipherLength(text, cols, order);
    ExactRows(rows, cols);
    DecipherLength(Encipher(text, cols, order), cols, order);
  }

  /** Cell (r, c) of the deciphered ciphertext is cell (r, c) of the padded
      text. */
  lemma RedecipherAt(text: string, cols: nat, order: seq<nat>, r: nat, c: nat)
    requires cols > 0 && IsPermutation(order, cols)
    requires r < CeilDiv(|text|, cols) && c < cols
    ensures |Encipher(text, cols, order)| % cols == 0
    ensures var D, P := Decipher(Encipher(text, cols, order), cols, order), Padded(text, cols);
      Cell(r, c, cols) < |D| && Cell(r, c, cols) < |P| && D[Cell(r, c, cols)] == P[Cell(r, c, cols)]
  {
    var rows := CeilDiv(|text|, cols);
    var E := Encipher(text, cols, order);
    EncipheredLength(text, cols, order);
    ExactRows(rows, cols);
    DecipherAt(E, cols, order, r, c);
    EncipherAt(text, cols, order, IndexOf(order, c), r);
  }

  lemma EncipherDecipher(ct: string, cols: nat, order: seq<nat>)
    requires cols > 0 && |ct| % cols == 0 && IsPermutation(order, cols)
    ensures Encipher(Decipher(ct, cols, order), cols, order) == ct
  {
    var E := Encipher(Decipher(ct, cols, order), cols, order);
    ReencipherLength(ct, cols, order);
    forall m | 0 <= m < |ct| ensures E[m] == ct[m] {
      ReencipherPosition(ct, cols, order, m);
    }
  }

  /** Enciphering the deciphered text gives |ct| characters again. */
  lemma ReencipherLength(ct: string, cols: nat, order: seq<nat>)
    requires cols > 0 && |ct| % cols == 0 && IsPermutation(order, cols)
    ensures |Encipher(Decipher(ct, cols, order), cols, order)| == |ct|
  {
    var rows := |ct| / cols;
    ExactDivision(|ct|, cols);
    DecipherLength(ct, cols, order);
    CeilDivExact(rows, cols);
    EncipherLength(Decipher(ct, cols, order), cols, order);
  }

  /** Position m of the re-enciphered text is position m of ct. */
  lemma ReencipherPosition(ct: string, cols: nat, order: seq<nat>, m: nat)
    requires cols > 0 && |ct| % cols == 0 && IsPermutation(order, cols)
    requires m < |ct|
    ensures var E := Encipher(Decipher(ct, cols, order), cols, order);
      m < |E| && E[m] == ct[m]
  {
    var rows := |ct| / cols;
    ExactDivision(|ct|, cols);
    PositionInside(m, cols, rows);
    ReencipherAt(ct, cols, order, m / rows, m % rows);
  }

  /** Cell (r, order[i]) of the deciphered text is position i * rows + r of
      the ciphertext, which enciphering reads back to the same position. */
  lemma ReencipherAt(ct: string, cols: nat, order: seq<nat>, i: nat, r: nat)
    requires cols > 0 && |ct| % cols == 0 && IsPermutation(order, cols)
    requires i < cols && r < |ct| / cols
    ensures var E := Encipher(Decipher(ct, cols, order), cols, order);
      Cell(i, r, |ct| / cols) < |E| && Cell(i, r, |ct| / cols) < |ct| &&
      E[Cell(i, r, |ct| / cols)] == ct[Cell(i, r, |ct| / cols)]
  {
    var rows := |ct| / cols;
    ExactDivision(|ct|, cols);
    var D := Decipher(ct, cols, order);
    DecipherLength(ct, cols, order);
    CeilDivExact(rows, cols);
    EncipherAt(D, cols, order, i, r);
    DecipherAt(ct, cols, order, r, order[i]);
    DistinctIndexOf(order, i);
  }

  /** Deciphering only moves characters: the plaintext is a permutation of
      the ciphertext. */
  lemma DecipherIsRearrangement(ct: string, cols: nat, order: seq<nat>)
    requires cols > 0 && |ct| % cols == 0 && IsPermutation(order, cols)
    ensures multiset(Decipher(ct, cols, order)) == multiset(ct)
  {
    var D := Decipher(ct, cols, order);
    EncipherDecipher(ct, cols, order);
    EncipherIsRearrangement(D, cols, order);
    DecipherLength(ct, cols, order);
    PaddedShape(D, cols);
  }

  /** A column order with fewer than cols columns reads fewer characters
      than the padded text holds, whenever there is any text. */
  lemma EncipherShorter(text: string, cols: nat, order: seq<nat>)
    requires cols > 0 && text != []
    requires forall i :: 0 <= i < |order| ==> order[i] < cols
    requires |order| < cols
    ensures |Encipher(text, cols, order)| < |Padded(text, cols)|
  {
    var rows := CeilDiv(|text|, cols);
    EncipherLength(text, cols, order);
    MulCancelLess(0, rows, cols);
    MulStrict(|order|, cols, rows);
  }

  lemma SliceAt(s: string, a: nat, len: nat, r: nat)
    requires a + len <= |s| && r < len
    ensures s[a .. a + len][r] == s[a + r]
  {
  }

  /** The padded-text position that ciphertext position m reads. */
  function CipherSource(m: nat, rows: nat, cols: nat, order: seq<nat>): nat
    requires m < cols * rows && |order| == cols
  {
    PositionInside(m, cols, rows);
    Cell(m % rows, order[m / rows], cols)
  }

  /** The ciphertext position that padded-text position j is written to. */
  function PlainSource(j: nat, rows: nat, cols: nat, order: seq<nat>): nat
    requires cols > 0 && j < rows * cols && IsPermutation(order, cols)
  {
    var c := j % cols;
    assert c in order;
    Cell(IndexOf(order, c), j / cols, rows)
  }

  lemma ForwardAt(text: string, cols: nat, order: seq<nat>, m: nat)
    requires cols > 0 && IsPermutation(order, cols)
    requires m < cols * CeilDiv(|text|, cols)
    ensures m < |Encipher(text, cols, order)|
    ensures CipherSource(m, CeilDiv(|text|, cols), cols, order) < |Padded(text, cols)|
    ensures Encipher(text, cols, order)[m] == Padded(text, cols)[CipherSource(m, CeilDiv(|text|, cols), cols, order)]
  {
    var rows := CeilDiv(|text|, cols);
    PositionInside(m, cols, rows);
    var i, r := m / rows, m % rows;
    assert m == i * rows + r;
    assert CipherSource(m, rows, cols, order) == r * cols + order[i];
    EncipherAt(text, cols, order, i, r);
  }

  /** A ciphertext position maps to a grid position and back. */
  lemma SourcesInverse(m: nat, rows: nat, cols: nat, order: seq<nat>)
    requires cols > 0 && IsPermutation(order, cols)
    requires m < cols * rows
    ensures CipherSource(m, rows, cols, order) < rows * cols
    ensures PlainSource(CipherSource(m, rows, cols, order), rows, cols, order) == m
  {
    PositionInside(m, cols, rows);
    var i, r := m / rows, m % rows;
    CellInside(r, order[i], rows, cols);
    CellCoordinates(r, order[i], cols);
    DistinctIndexOf(order, i);
  }

  /** A grid position maps to a ciphertext position and back. */
  lemma BackwardAt(j: nat, rows: nat, cols: nat, order: seq<nat>)
    requires cols > 0 && IsPermutation(order, cols)
    requires j < rows * cols
    ensures PlainSource(j, rows, cols, order) < cols * rows
    ensures CipherSource(PlainSource(j, rows, cols, order), rows, cols, order) == j
  {
    PositionInside(j, rows, cols);
    var r, c := j / cols, j % cols;
    var q := IndexOf(order, c);
    CellInside(q, r, cols, rows);
    CellCoordinates(q, r, rows);
  }

  /** Encryption only moves characters: the ciphertext is a permutation of
      the padded text. */
  lemma EncipherIsRearrangement(text: string, cols: nat, order: seq<nat>)
    requires cols > 0 && IsPermutation(order, cols)
    ensures multiset(Encipher(text, cols, order)) == multiset(Padded(text, cols))
  {
    var rows := CeilDiv(|text|, cols);
    var E, P := Encipher(text, cols, order), Padded(text, cols);
    var N := cols * rows;
    EncipherLength(text, cols, order);
    var F := seq(N, m requires 0 <= m < N => CipherSource(m, rows, cols, order) as int);
    var G := seq(N, j requires 0 <= j < N => PlainSource(j, rows, cols, order) as int);
    forall m | 0 <= m < |E| ensures 0 <= F[m] < |P| && E[m] == P[F[m]] && G[F[m]] == m {
      ForwardAt(text, cols, order, m);
      SourcesInverse(m, rows, cols, order);
    }
    forall j | 0 <= j < |P| ensures 0 <= G[j] < |E| && F[G[j]] == j {
      BackwardAt(j, rows, cols, order);
    }
    ReadThroughIsPermutation(E, P, F, G);
  }
}

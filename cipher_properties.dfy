/** The guarantees of encrypt and decrypt stated over the key itself. */
module CipherProperties {
  import opened KeyOrder
  import opened Grid
  import opened Transposition
  import opened TranspositionProperties

  /** The empty key gives the empty result both ways, and the empty text
      encrypts to the empty string under every key. */
  lemma EmptyInputs(text: string, ct: string, k: string)
    ensures Encryption(text, []) == []
    ensures Decryption(ct, []) == []
    ensures Encryption([], k) == []
  {
    if k != [] {
      OrderWithinKey(k);
      EncipherLength([], |k|, ColumnOrder(k));
      MulCancelLess(CeilDiv(0, |k|), 1, |k|);
    }
  }

  /** decrypt refuses a ciphertext whose length the key length does not divide. */
  lemma DecryptionRejectsLength(ct: string, k: string)
    requires k != [] && |ct| % |k| != 0
    ensures Decryption(ct, k) == []
  {
  }

  /** encrypt's output holds one rows-long column per key letter; for a key of
      letters it is the least multiple of |k| that holds the text. */
  lemma EncryptionLength(text: string, k: string)
    requires k != []
    ensures |Encryption(text, k)| == |ColumnOrder(k)| * CeilDiv(|text|, |k|)
    ensures AllLetters(k) ==> |Encryption(text, k)| == CeilDiv(|text|, |k|) * |k|
    ensures AllLetters(k) ==> |Encryption(text, k)| % |k| == 0
    ensures AllLetters(k) ==> |text| <= |Encryption(text, k)| < |text| + |k|
  {
    OrderWithinKey(k);
    EncipherLength(text, |k|, ColumnOrder(k));
    ExactRows(CeilDiv(|text|, |k|), |k|);
    if AllLetters(k) {
      LetterKeyOrder(k);
      assert |ColumnOrder(k)| * CeilDiv(|text|, |k|) == CeilDiv(|text|, |k|) * |k|;
    }
  }

  /** With a character outside A-Z and a-z in the key, rows * |k| characters
      of padded text go in and fewer come out: encrypt loses data. */
  lemma NonLetterKeyLosesText(text: string, k: string)
    requires k != [] && !AllLetters(k) && text != []
    ensures |Encryption(text, k)| < |Padded(text, |k|)|
  {
    OrderWithinKey(k);
    OrderLength(k);
    EncipherShorter(text, |k|, ColumnOrder(k));
  }

  /** Position i * rows + r of the ciphertext is cell (r, order[i]) of the
      padded text. */
  lemma EncryptionAt(text: string, k: string, i: nat, r: nat)
    requires k != []
    requires i < |ColumnOrder(k)| && r < CeilDiv(|text|, |k|)
    ensures var e, p := Encryption(text, k), Padded(text, |k|);
      && Cell(r, ColumnOrder(k)[i], |k|) < |p|
      && Cell(i, r, CeilDiv(|text|, |k|)) < |e|
      && e[Cell(i, r, CeilDiv(|text|, |k|))] == p[Cell(r, ColumnOrder(k)[i], |k|)]
  {
    OrderWithinKey(k);
    EncipherAt(text, |k|, ColumnOrder(k), i, r);
  }

  /** Position r * |k| + c of the plaintext is row r of the chunk that the
      ciphertext holds at the rank of column c, for a ciphertext of rows
      full rows. */
  lemma DecryptionAt(ct: string, k: string, rows: nat, r: nat, c: nat)
    requires AllLetters(k) && k != [] && |ct| == rows * |k|
    requires r < rows && c < |k|
    ensures c in ColumnOrder(k) && Cell(IndexOf(ColumnOrder(k), c), r, rows) < |ct|
    ensures var d := Decryption(ct, k);
      Cell(r, c, |k|) < |d| && d[Cell(r, c, |k|)] == ct[Cell(IndexOf(ColumnOrder(k), c), r, rows)]
  {
    ExactRows(rows, |k|);
    LetterKeyOrder(k);
    DecipherAt(ct, |k|, ColumnOrder(k), r, c);
  }

  /** decrypt recovers the '='-padded plaintext. */
  lemma RoundTrip(text: string, k: string)
    requires AllLetters(k) && k != []
    ensures Decryption(Encryption(text, k), k) == Padded(text, |k|)
  {
    LetterKeyOrder(k);
    DecipherEncipher(text, |k|, ColumnOrder(k));
  }

  /** decrypt(encrypt(text)) is the text itself exactly when the key length
      divides the text length. */
  lemma RoundTripExact(text: string, k: string)
    requires AllLetters(k) && k != []
    ensures Decryption(Encryption(text, k), k) == text <==> |text| % |k| == 0
  {
    RoundTrip(text, k);
    PaddedShape(text, |k|);
  }

  /** Every well-formed ciphertext is the encryption of its decryption. */
  lemma EncryptionInvertsDecryption(ct: string, k: string)
    requires AllLetters(k) && k != [] && |ct| % |k| == 0
    ensures Encryption(Decryption(ct, k), k) == ct
  {
    LetterKeyOrder(k);
    EncipherDecipher(ct, |k|, ColumnOrder(k));
  }

  /** The ciphertext is a permutation of the padded text. */
  lemma EncryptionIsRearrangement(text: string, k: string)
    requires AllLetters(k) && k != []
    ensures multiset(Encryption(text, k)) == multiset(Padded(text, |k|))
  {
    LetterKeyOrder(k);
    EncipherIsRearrangement(text, |k|, ColumnOrder(k));
  }

  /** The plaintext is a permutation of the ciphertext. */
  lemma DecryptionIsRearrangement(ct: string, k: string)
    requires AllLetters(k) && k != [] && |ct| % |k| == 0
    ensures multiset(Decryption(ct, k)) == multiset(ct)
  {
    LetterKeyOrder(k);
    DecipherIsRearrangement(ct, |k|, ColumnOrder(k));
  }

  /** encrypt("HELLO", "KEY") is "EOHLL=", which decrypts to "HELLO=". */
  lemma HelloUnderKey()
    ensures Encryption("HELLO", "KEY") == "EOHLL="
    ensures Decryption("EOHLL=", "KEY") == "HELLO="
  {
    ColumnOrderOfKEY();
    assert CeilDiv(5, 3) == 2;
    var P := Padded("HELLO", 3);
    assert P == "HELLO=";
    var order: seq<nat> := [1, 0, 2];
    assert order[..2][..1] == [1];
    assert ReadColumns(P, 3, 2, [1]) == "EO";
    assert ReadColumns(P, 3, 2, [1, 0]) == "EOHL";
    assert Encryption("HELLO", "KEY") == ReadColumns(P, 3, 2, order) == "EOHLL=";
    RoundTrip("HELLO", "KEY");
  }

  /** Under the key "A1" the digit gives a second grid column that no rank
      of the order reads: encrypt("ab", "A1") keeps only "a". */
  lemma NonLetterKeyEncryption()
    ensures Encryption("ab", "A1") == "a"
  {
    ColumnOrderOfA1();
    assert CeilDiv(2, 2) == 1;
    var P := Padded("ab", 2);
    assert P == "ab";
    var o: seq<nat> := [0];
    assert o[..0] == [];
    assert ReadColumns(P, 2, 1, o) == "a";
  }

  /** decrypt("ab", "A1") scatters "a" to the first column, leaves the second
      empty and reads that one as "undefined". */
  lemma NonLetterKeyDecryption()
    ensures Decryption("ab", "A1") == "aundefined"
  {
    ColumnOrderOfA1();
    var o: seq<nat> := [0];
    assert o[..0] == [];
    assert ColumnData("ab", 1, [], 2) == ["", ""];
    assert Slice("ab", Cell(0, 0, 1), Cell(0, 0, 1) + 1) == "a";
    var cd := ColumnData("ab", 1, o, 2);
    assert cd == ["a", ""];
    assert RowText(cd, 0, 0) == [];
    assert RowText(cd, 0, 1) == "a";
    assert RowText(cd, 0, 2) == "aundefined";
    assert ReadRows(cd, 1) == ReadRows(cd, 0) + RowText(cd, 0, 2);
    assert Decryption("ab", "A1") == Decipher("ab", 2, o) == ReadRows(cd, 1);
  }
}

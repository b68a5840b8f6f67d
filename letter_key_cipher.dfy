/** The cipher with the grid as wide as the key's letters rather than the
    raw key.  encrypt and decrypt take cols = k.length while the column
    order has one entry per letter, so a key holding any other character
    (a space, a digit) leaves columns that encrypt never reads and decrypt
    reads as "undefined".  Sizing the grid by the letters makes the column
    order a permutation of the columns for every key. */
module LetterKeyCipher {
  import opened KeyOrder
  import opened Grid
  import opened Transposition
  import opened TranspositionProperties
  import opened CipherProperties

  /** The stable sorting permutation of K lists each column of a |K|-wide
      grid exactly once. */
  lemma StableOrderIsPermutation(K: string, order: seq<nat>)
    requires IsStableOrder(K, order)
    ensures IsPermutation(order, |K|)
  {
  }

  /** encrypt with the grid as wide as the key's letters. */
  function LetterEncryption(text: string, k: string): string
  {
    var K := KeyLetters(k);
    if K == [] then []
    else Encipher(text, |K|, ColumnOrder(k))
  }

  /** decrypt with the grid as wide as the key's letters. */
  function LetterDecryption(ct: string, k: string): string
  {
    var K := KeyLetters(k);
    if K == [] || |ct| % |K| != 0 then []
    else Decipher(ct, |K|, ColumnOrder(k))
  }

  /** For a key of ASCII letters nothing changes: the letters are as many as
      the characters. */
  lemma AgreesOnLetterKeys(text: string, ct: string, k: string)
    requires AllLetters(k)
    ensures LetterEncryption(text, k) == Encryption(text, k)
    ensures LetterDecryption(ct, k) == Decryption(ct, k)
  {
  }

  /** Under every key with at least one letter the corrected decryption
      recovers the '='-padded text. */
  lemma LetterRoundTrip(text: string, k: string)
    requires KeyLetters(k) != []
    ensures LetterDecryption(LetterEncryption(text, k), k) == Padded(text, |KeyLetters(k)|)
  {
    var K := KeyLetters(k);
    StableOrderIsPermutation(K, ColumnOrder(k));
    DecipherEncipher(text, |K|, ColumnOrder(k));
  }

  /** ... and the text itself exactly when the letter count divides its
      length. */
  lemma LetterRoundTripExact(text: string, k: string)
    requires KeyLetters(k) != []
    ensures LetterDecryption(LetterEncryption(text, k), k) == text <==> |text| % |KeyLetters(k)| == 0
  {
    LetterRoundTrip(text, k);
    PaddedShape(text, |KeyLetters(k)|);
  }

  /** Every ciphertext of whole rows is the corrected encryption of its
      corrected decryption. */
  lemma LetterEncryptionInvertsDecryption(ct: string, k: string)
    requires KeyLetters(k) != [] && |ct| % |KeyLetters(k)| == 0
    ensures LetterEncryption(LetterDecryption(ct, k), k) == ct
  {
    var K := KeyLetters(k);
    StableOrderIsPermutation(K, ColumnOrder(k));
    EncipherDecipher(ct, |K|, ColumnOrder(k));
  }

  /** As written, the key "A1" loses the text "ab": encrypt keeps "a", whose
      length 2 does not divide, so decrypt gives "". */
  lemma NonLetterKeyRoundTrip()
    ensures Encryption("ab", "A1") == "a"
    ensures Decryption(Encryption("ab", "A1"), "A1") == []
  {
    NonLetterKeyEncryption();
    DecryptionRejectsLength("a", "A1");
  }

  /** Corrected, the same key and text come back unchanged. */
  lemma LetterKeyRoundTripOfA1()
    ensures LetterDecryption(LetterEncryption("ab", "A1"), "A1") == "ab"
  {
    ColumnOrderOfA1();
    LetterRoundTripExact("ab", "A1");
  }
}

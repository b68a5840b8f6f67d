# Columnar transposition cipher of tugas-kripto

The web page in `app/page.tsx` encrypts an image, given as a base64 data
URL, with a keyed columnar transposition, and it decrypts such a ciphertext.
This project models that cipher core in Dafny and proves what it guarantees.

- **Column order** (`getColumnOrder`, module `KeyOrder`). The key is
  uppercased and stripped to the letters A-Z. Each letter is tagged with its
  position, and the tagged letters are sorted stably by letter. The order is
  the list of positions read off in sorted order. The engine's stable sort is
  modelled as an insertion sort. `StableOrderUnique` proves that every stable
  sort gives the same order.
- **encrypt** (module `Transposition`). It gives "" for the empty key. Otherwise
  the grid has `cols = k.length` columns and `rows = ceil(|text| / cols)` rows.
  The text is written into the grid row by row and padded on the right with
  `'='`. Each column named by the order is then appended from top to bottom.
  `Encrypt` and `WriteColumns` are the imperative loops. They are proved
  against the functions `Encryption`, `Encipher` and `ReadColumns`.
- **decrypt** (module `Transposition`). It gives "" for the empty key, and ""
  when `cols` does not divide the length of the ciphertext. Otherwise:
  - `colData` is an array of `cols` empty strings;
  - the column at rank i of the order receives `ct.slice(i*rows, (i+1)*rows)`;
  - the grid is then read row by row.

  `ScatterColumns` keeps `colData` as a Dafny `array<string>` and `ReadGrid`
  reads it. Both are proved against `ColumnData`, `ReadRows` and `Decipher`.
  JavaScript's total `slice` is modelled, and so is the `"undefined"` that
  `colData[c][r]` contributes past the end of a column. As a result, decrypt
  accepts every key, as the source does.
- Properties. Modules `TranspositionProperties`, `CipherProperties` and
  `Rearrange` prove these:
  - index formulas for the output of both directions;
  - lengths;
  - for keys made of ASCII letters, the round trip `decrypt(encrypt(t, k), k)`,
    which gives the '='-padded text, and gives `t` exactly when `|k|`
    divides `|t|`;
  - for keys made of ASCII letters, the converse round trip;
  - for keys made of ASCII letters, both outputs are rearrangements of the
    inputs;
  - the test vector `encrypt("HELLO", "KEY") == "EOHLL="`.
- Module `LetterKeyCipher` holds the corrected cipher of the finding below.

The code pads with `'='`, so the "HELLO"/"KEY" vector encrypts to `EOHLL=` and
decrypts to `HELLO=`.

## Model

| member | source | states |
|---|---|---|
| KeyOrder.UpperChar | app/page.tsx:35 | toUpperCase on one character; its behaviour is stated through Upper |
| KeyOrder.Upper | app/page.tsx:35 | toUpperCase keeps the length; a-z becomes the capital at the same distance from 'A'; a position becomes A-Z exactly when it held an ASCII letter; characters other than a-z are unchanged |
| KeyOrder.UpperSplits | app/page.tsx:35 | uppercasing works character by character: Upper(a + b) == Upper(a) + Upper(b) |
| KeyOrder.StripNonUpper | app/page.tsx:36 | the result keeps only A-Z, is no longer than the input, has the full length exactly when every character is A-Z, and is the input itself then |
| KeyOrder.StripChar | app/page.tsx:36 | one character is kept exactly when it is A-Z |
| KeyOrder.StripSplits | app/page.tsx:36 | the filter of a + b is the filter of a followed by the filter of b, so with StripChar the kept characters are exactly the A-Z ones, in order |
| KeyOrder.KeyLetters | app/page.tsx:35-36 | the key's letters are all A-Z, at most as many as the key's characters, and exactly as many when the key is all ASCII letters |
| KeyOrder.KeyLettersOfChar | app/page.tsx:35-36 | one key character contributes its capital when it is an ASCII letter, and nothing otherwise |
| KeyOrder.KeyLettersSplit | app/page.tsx:35-36 | the letters of a + b are the letters of a followed by those of b |
| KeyOrder.LetterPositionsStep | app/page.tsx:36 | dropping the last key character loses one letter position exactly when it is a letter |
| KeyOrder.KeyLettersStep | app/page.tsx:35-36 | dropping the last key character loses one key letter exactly when it is a letter |
| KeyOrder.LetterCount | app/page.tsx:35-36 | the key has as many letters as it has positions holding an ASCII letter |
| KeyOrder.LetterBefore | app/page.tsx:39 | localeCompare on A-Z: a strictly earlier letter sorts first; Insert keeps ties in order, as InsertOrdered and SortOrdered prove |
| KeyOrder.Tag | app/page.tsx:37-38 | pairs each key letter with its position; SortedTagsOfKey and SortedTagsAreStableOrder state what sorting the pairs gives |
| KeyOrder.Positions | app/page.tsx:40 | reads the positions off the sorted pairs; SortedTagsAreStableOrder proves they form the stable order |
| KeyOrder.Insert | app/page.tsx:39 | one step of the stable sort; InsertElements and InsertOrdered state what it keeps |
| KeyOrder.SortByLetter | app/page.tsx:39 | the stable sort by letter; SortElements and SortOrdered prove it a rearrangement into (letter, position) order |
| KeyOrder.InsertElements | app/page.tsx:39 | one insertion step adds the new tag and keeps all the others |
| KeyOrder.SortElements | app/page.tsx:39 | the sort only rearranges the tagged letters (equal multisets) |
| KeyOrder.InsertOrdered | app/page.tsx:39 | inserting a tag whose position precedes all others keeps the tags strictly ordered by letter, then by position |
| KeyOrder.SortOrdered | app/page.tsx:39 | tags with increasing positions sort into strict order by letter, then by position, so equal letters keep their order (stability) |
| KeyOrder.SortedTagsAreStableOrder | app/page.tsx:37-40 | the positions of the sorted tags form the stable sorting permutation of the letters |
| KeyOrder.ColumnOrder | app/page.tsx:33-40 | getColumnOrder lists each letter position exactly once, by non-decreasing letter, with equal letters left to right |
| KeyOrder.StableOrderUnique | app/page.tsx:39 | there is only one stable sorting permutation, so any stable sort gives the same order |
| KeyOrder.ColumnOrderCaseInsensitive | app/page.tsx:35 | uppercasing the key beforehand changes neither its letters nor its order |
| KeyOrder.ColumnOrderIgnoresNonLetters | app/page.tsx:36 | stripping the key to its letters beforehand leaves the order unchanged |
| KeyOrder.KeyLettersOfLetterKey | app/page.tsx:35-36 | for an all-letter key the letters are the uppercased key, and the order has one entry per key character |
| KeyOrder.ColumnOrderOfBAA | app/page.tsx:38-39 | "BAA" gives [1, 2, 0]: tied letters keep their left-to-right order |
| KeyOrder.ColumnOrderOfKEY | app/page.tsx:33-40 | "KEY" gives [1, 0, 2] |
| KeyOrder.ColumnOrderOfA1 | app/page.tsx:36 | "A1" has the single letter A and the order [0] |
| KeyOrder.OrderWithinKey | app/page.tsx:33-40 | every entry of the order is a column of the raw key |
| KeyOrder.OrderLength | app/page.tsx:35-40 | the order has one entry per position of the key holding an ASCII letter; so it is at most as long as the key, and exactly as long when the key is all ASCII letters |
| KeyOrder.LetterKeyOrder | app/page.tsx:33-40 | for an all-letter key the order is a permutation of 0 .. \|k\|-1 |
| Grid.CeilDiv | app/page.tsx:48 | Math.ceil(n / d) is the least q with n <= q * d |
| Transposition.Filler | app/page.tsx:49 | the pad character '='; PaddedShape says where it appears |
| Transposition.PadEnd | app/page.tsx:50 | padEnd keeps the string as a prefix, fills the rest with the pad character, and reaches the target length unless the string is already longer |
| Transposition.Padded | app/page.tsx:48-50 | the padded text holds exactly ceil(\|text\| / cols) full rows |
| Transposition.Column | app/page.tsx:55-57 | a column of the grid is rows characters long |
| Transposition.Encipher | app/page.tsx:45-60 | the columns of the padded grid in a given order; TranspositionProperties.EncipherAt, EncipherLength and DecipherEncipher state its contents, length and inverse |
| Transposition.ReadColumns | app/page.tsx:53-58 | the columns named by the order, one after the other; ColumnsAt and ColumnsLength state its contents and length |
| Transposition.Encryption | app/page.tsx:45-60 | what encrypt returns; EmptyInputs, EncryptionLength, EncryptionAt, RoundTrip and EncryptionIsRearrangement in CipherProperties state its guard, length, contents, inverse and rearrangement |
| Transposition.Encrypt | app/page.tsx:45-60 | encrypt returns "" for the empty key, and otherwise the columns of the padded grid in key order |
| Transposition.WriteColumns | app/page.tsx:53-58 | the nested loops append, column by column in order, every row of that column |
| Transposition.IndexOf | app/page.tsx:71-74 | the rank of a column is its first position in the order |
| Transposition.Slice | app/page.tsx:72 | ct.slice(a, b) is ct[a..b] when b is inside ct, and is never longer than b - a |
| Transposition.ColumnData | app/page.tsx:69-74 | colData has one entry per key character |
| Transposition.ColumnLength | app/page.tsx:69-74 | when the ciphertext is long enough for every rank, a column in the order holds rows characters and every other column stays empty |
| Transposition.ColumnsHaveRows | app/page.tsx:69-74 | when the order lists every column once, every column receives rows characters |
| Transposition.CellText | app/page.tsx:79 | what `out += colData[cIdx][r]` appends: the character, or "undefined" past the end of the column; NonLetterKeyDecryption shows the second case |
| Transposition.RowText | app/page.tsx:78-80 | one row read left to right over the first n columns; RowTextLength and RowTextAt state its length and contents over full columns |
| Transposition.ReadRows | app/page.tsx:76-82 | the grid read row by row; RowsLength and RowsAt state its length and contents over full columns |
| Transposition.Decipher | app/page.tsx:66-82 | the scattered grid read row by row; TranspositionProperties.DecipherAt, DecipherLength and EncipherDecipher state its contents, length and inverse |
| Transposition.Decryption | app/page.tsx:62-83 | what decrypt returns; EmptyInputs, DecryptionRejectsLength, DecryptionAt, EncryptionInvertsDecryption and DecryptionIsRearrangement in CipherProperties state its guards, contents, inverse and rearrangement |
| Transposition.Decrypt | app/page.tsx:62-83 | decrypt returns "" for the empty key or a length that cols does not divide, and otherwise the scattered columns read row by row |
| Transposition.ScatterColumns | app/page.tsx:69-74 | the scatter loop leaves in a fresh array the column data of the whole order: each ranked column holds its chunk, and every other column its initial "" |
| Transposition.ColumnDataStep | app/page.tsx:71-74 | one more rank writes the next chunk and moves the cursor forward by rows |
| Transposition.ReadGrid | app/page.tsx:76-82 | the reading loops append, row by row and left to right, each cell's character, or "undefined" past the end of a column |
| Transposition.ChunkAtRank | app/page.tsx:71-74 | the column at rank q receives characters q*rows .. (q+1)*rows of the ciphertext |
| Transposition.EmptyOutside | app/page.tsx:69 | a column absent from the order keeps its initial "" |
| Transposition.DistinctIndexOf | app/page.tsx:71 | in an order without repeats, the rank of the column at rank i is i |
| TranspositionProperties.ColumnsLength | app/page.tsx:54-58 | the loops emit rows characters per entry of the order |
| TranspositionProperties.ColumnsAt | app/page.tsx:54-58 | output position i*rows + r holds grid cell (r, order[i]) |
| TranspositionProperties.RowTextLength | app/page.tsx:78-80 | a row read over full columns has one character per column |
| TranspositionProperties.RowTextAt | app/page.tsx:78-80 | character c of a row read over full columns is cell (r, c) |
| TranspositionProperties.RowsLength | app/page.tsx:77-81 | reading full columns gives rows * cols characters |
| TranspositionProperties.RowsAt | app/page.tsx:77-81 | output position r*cols + c holds character r of column c |
| TranspositionProperties.PaddedShape | app/page.tsx:48-50 | the padded text starts with the text, is filled with '=', is shorter than \|text\| + cols, has a length that cols divides, and equals the text exactly when cols divides \|text\| |
| TranspositionProperties.EncipherLength | app/page.tsx:53-58 | the ciphertext has \|order\| * rows characters |
| TranspositionProperties.EncipherAt | app/page.tsx:54-57 | ciphertext position i*rows + r is the padded cell (r, order[i]) |
| TranspositionProperties.DecipherAt | app/page.tsx:71-81 | plaintext position r*cols + c is ciphertext position rank(c)*rows + r |
| TranspositionProperties.ScatteredLength | app/page.tsx:69-81 | for a permutation, every column has rows characters and the read-out is as long as the ciphertext |
| TranspositionProperties.ScatteredAt | app/page.tsx:76-81 | a column that holds chunk q yields ciphertext position q*rows + r in row r |
| TranspositionProperties.DecipherLength | app/page.tsx:62-83 | for a permutation, decryption preserves the length |
| TranspositionProperties.DecipherEncipher | app/page.tsx:45-83 | for a permutation, deciphering the ciphertext gives back the padded text |
| TranspositionProperties.EncipheredLength | app/page.tsx:45-60 | for a permutation, the ciphertext is as long as the padded text and has whole rows |
| TranspositionProperties.RedecipherAt | app/page.tsx:45-83 | each cell survives encrypt followed by decrypt |
| TranspositionProperties.EncipherDecipher | app/page.tsx:45-83 | for a permutation, enciphering a deciphered text of whole rows gives the ciphertext back |
| TranspositionProperties.ReencipherLength | app/page.tsx:45-83 | decrypt followed by encrypt preserves the length |
| TranspositionProperties.ReencipherPosition | app/page.tsx:45-83 | each position survives decrypt followed by encrypt |
| TranspositionProperties.ReencipherAt | app/page.tsx:45-83 | each cell (i, r) survives decrypt followed by encrypt |
| TranspositionProperties.DecipherIsRearrangement | app/page.tsx:62-83 | for a permutation, the plaintext is a rearrangement of the ciphertext |
| TranspositionProperties.EncipherShorter | app/page.tsx:52-58 | fewer order entries than columns make the ciphertext shorter than the padded text |
| TranspositionProperties.SliceAt | app/page.tsx:72 | proof helper for ScatteredAt: character r of a chunk is ciphertext character start + r |
| TranspositionProperties.ForwardAt | app/page.tsx:54-57 | ciphertext position m is the padded position given by the encrypt index map |
| TranspositionProperties.SourcesInverse | app/page.tsx:54-80 | the decrypt index map undoes the encrypt index map |
| TranspositionProperties.BackwardAt | app/page.tsx:54-80 | the encrypt index map undoes the decrypt index map |
| TranspositionProperties.EncipherIsRearrangement | app/page.tsx:45-60 | for a permutation, the ciphertext is a rearrangement of the padded text |
| Rearrange.ReadThroughIsPermutation | app/page.tsx:54-57 | two sequences related by mutually inverse index maps have equal multisets |
| Rearrange.DropLast | app/page.tsx:54-57 | removing one matched pair of positions keeps the index maps inverse |
| CipherProperties.EmptyInputs | app/page.tsx:45-63 | the empty key gives "" both ways, and "" encrypts to "" under every key |
| CipherProperties.DecryptionRejectsLength | app/page.tsx:65 | decrypt gives "" when \|k\| does not divide \|ct\| |
| CipherProperties.EncryptionLength | app/page.tsx:47-58 | the ciphertext has one rows-long column per order entry; for an all-letter key it is the least multiple of \|k\| that fits the text |
| CipherProperties.NonLetterKeyLosesText | app/page.tsx:47-58 | a key containing a non-letter makes encrypt emit fewer characters than it padded |
| CipherProperties.EncryptionAt | app/page.tsx:56 | ciphertext position i*rows + r is padded cell (r, order[i]) |
| CipherProperties.DecryptionAt | app/page.tsx:72-79 | plaintext cell (r, c) is ciphertext position rank(c)*rows + r |
| CipherProperties.RoundTrip | app/page.tsx:45-83 | for an all-letter key, decrypt(encrypt(t)) is t padded with '=' |
| CipherProperties.RoundTripExact | app/page.tsx:45-83 | for an all-letter key, decrypt(encrypt(t)) == t exactly when \|k\| divides \|t\| |
| CipherProperties.EncryptionInvertsDecryption | app/page.tsx:45-83 | for an all-letter key, encrypt(decrypt(ct)) == ct for every ciphertext of whole rows |
| CipherProperties.EncryptionIsRearrangement | app/page.tsx:45-60 | for an all-letter key, the ciphertext is a rearrangement of the padded text |
| CipherProperties.DecryptionIsRearrangement | app/page.tsx:62-83 | for an all-letter key, the plaintext is a rearrangement of a ciphertext of whole rows |
| CipherProperties.HelloUnderKey | app/page.tsx:45-83 | encrypt("HELLO", "KEY") == "EOHLL=", and decrypt gives "HELLO=" |
| CipherProperties.NonLetterKeyEncryption | app/page.tsx:47-54 | encrypt("ab", "A1") == "a": the digit's column is never read |
| CipherProperties.NonLetterKeyDecryption | app/page.tsx:69-79 | decrypt("ab", "A1") == "aundefined" |
| LetterKeyCipher.LetterEncryption | app/page.tsx:45-60 | encrypt with the grid as wide as the key's letters; LetterRoundTrip and AgreesOnLetterKeys state its inverse and its agreement with encrypt |
| LetterKeyCipher.LetterDecryption | app/page.tsx:62-83 | decrypt with the grid as wide as the key's letters; LetterEncryptionInvertsDecryption and AgreesOnLetterKeys state its inverse and its agreement with decrypt |
| LetterKeyCipher.LetterRoundTrip | app/page.tsx:45-83 | with the grid as wide as the letters, the round trip gives the padded text for every key with a letter |
| LetterKeyCipher.LetterRoundTripExact | app/page.tsx:45-83 | ... and the text itself exactly when the letter count divides its length |
| LetterKeyCipher.LetterEncryptionInvertsDecryption | app/page.tsx:45-83 | with the grid as wide as the letters, encrypt(decrypt(ct)) == ct for every ciphertext of whole rows |
| LetterKeyCipher.AgreesOnLetterKeys | app/page.tsx:47-64 | on all-letter keys the corrected cipher is the original one |
| LetterKeyCipher.NonLetterKeyRoundTrip | app/page.tsx:47-65 | as written, "ab" under the key "A1" encrypts to "a" and decrypts to "" |
| LetterKeyCipher.LetterKeyRoundTripOfA1 | app/page.tsx:45-83 | corrected, "ab" under "A1" comes back as "ab" |

## Left out

- `fileToDataUrl`, the `HomePage` component, its state, its key and file inputs,
  its buttons, its image previews and its team roster are browser I/O and UI. They are not
  modelled. The page passes the key field's raw text to `encrypt` and
  `decrypt`. The model therefore takes any string as the key.
- KeyOrder.Upper: toUpperCase is modelled on ASCII only (a-z to A-Z). Other
  characters are left unchanged, so Unicode mappings such as 'ß' to "SS" or the
  dotless i are not captured. After the A-Z filter, this matters only for
  such characters. For such keys the source's order can be longer than
  `k.length`: the key "ß" becomes "SS" with the order [0, 1] on a one-column
  grid, and encrypt("ab", "ß") then reads past the padded text and emits
  "abbundefined". The model gives "ß" no letters and cannot show this case.
- KeyOrder.LetterBefore: `localeCompare` on single letters A-Z is modelled as
  their code order, and ties as 0. Locale-specific collation is out of scope.
- Grid.CeilDiv: `Math.ceil(text.length / cols)` is computed with exact
  integers. The floating-point division agrees for every string length
  JavaScript can hold.
- JavaScript strings are sequences of UTF-16 code units, and a Dafny `string`
  is a sequence of characters. For the base64 data URLs and keys made of
  letters, the two coincide. Surrogate pairs are not modelled.
- CipherProperties.RoundTrip, CipherProperties.RoundTripExact and
  CipherProperties.EncryptionInvertsDecryption: these require a key made of
  ASCII letters only. The source sizes the grid by `k.length` but orders only
  the letters, so other keys lose data (see the finding below). The source
  promises a round trip only implicitly, by offering both directions.

## Findings

| source | as written | input that shows it | evidently intended | confidence | as-written member | corrected member |
|---|---|---|---|---|---|---|
| app/page.tsx:47-64 | the grid is `k.length` wide, but the column order has only one entry per letter of the key | key "A1", text "ab": encrypt gives "a", decrypt of that gives "" (and decrypt("ab", "A1") gives "aundefined") | the grid has one column per letter, so every key with a letter round-trips | medium, not executed | LetterKeyCipher.NonLetterKeyRoundTrip | LetterKeyCipher.LetterRoundTrip |

The key field accepts any text, so a key with a space or a digit, such as
"my key", corrupts the encrypted image. `Transposition.Encrypt` and
`Transposition.Decrypt` model the code as written. `LetterKeyCipher`
computes `cols` from the letters instead. It proves the round trip in both
directions for every key with at least one letter, and it agrees with the
original on all-letter keys.

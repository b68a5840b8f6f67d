/** The column order of the transposition cipher (getColumnOrder): the key is
    uppercased, stripped to the letters A-Z, each letter is tagged with its
    position, the tagged letters are sorted stably by letter, and the
    positions are read off in sorted order. */
module KeyOrder {

  predicate IsUpper(c: char) { 'A' <= c <= 'Z' }

  predicate IsLetter(c: char) { 'A' <= c <= 'Z' || 'a' <= c <= 'z' }

  /** Every character of the key is an ASCII letter. */
  predicate AllLetters(k: string) { forall i :: 0 <= i < |k| ==> IsLetter(k[i]) }

  /** toUpperCase on one character, on the ASCII range. */
  function UpperChar(c: char): char {
    if 'a' <= c <= 'z' then (c as int - 'a' as int + 'A' as int) as char else c
  }

  /** String.prototype.toUpperCase, position by position. */
  function Upper(s: string): (u: string)
    ensures |u| == |s|
    ensures forall i :: 0 <= i < |s| ==> (IsUpper(u[i]) <==> IsLetter(s[i]))
    ensures forall i :: 0 <= i < |s| && 'a' <= s[i] <= 'z' ==> u[i] as int - 'A' as int == s[i] as int - 'a' as int
    ensures forall i :: 0 <= i < |s| ==> (!('a' <= s[i] <= 'z') ==> u[i] == s[i])
  {
    seq(|s|, i requires 0 <= i < |s| => UpperChar(s[i]))
  }

  /** replace(/[^A-Z]/g, ""): keeps the characters A-Z, in order. */
  function StripNonUpper(s: string): (r: string)
    ensures |r| <= |s|
    ensures forall i :: 0 <= i < |r| ==> IsUpper(r[i])
    ensures |r| == |s| <==> forall i :: 0 <= i < |s| ==> IsUpper(s[i])
    ensures (forall i :: 0 <= i < |s| ==> IsUpper(s[i])) ==> r == s
  {
    if s == [] then []
    else if IsUpper(s[0]) then [s[0]] + StripNonUpper(s[1..])
    else StripNonUpper(s[1..])
  }

  /** The letters of the key that take part in the column order. */
  function KeyLetters(k: string): (r: string)
    ensures |r| <= |k|
    ensures forall i :: 0 <= i < |r| ==> IsUpper(r[i])
    ensures |r| == |k| <==> AllLetters(k)
  {
    StripNonUpper(Upper(k))
  }

  /** Uppercasing works character by character, so it splits over
      concatenation. */
  lemma UpperSplits(a: string, b: string)
    ensures Upper(a + b) == Upper(a) + Upper(b)
  {
    var u, v := Upper(a + b), Upper(a) + Upper(b);
    forall i | 0 <= i < |u| ensures u[i] == v[i] {
      if i < |a| {
        assert (a + b)[i] == a[i];
      } else {
        assert (a + b)[i] == b[i - |a|];
      }
    }
  }

  /** The filter keeps a character exactly when it is A-Z ... */
  lemma StripChar(c: char)
    ensures StripNonUpper([c]) == if IsUpper(c) then [c] else []
  {
    assert [c][1..] == [];
  }

  /** ... and keeps the kept characters of a string in their order: together
      with StripChar this determines StripNonUpper on every string. */
  lemma {:induction false} StripSplits(a: string, b: string)
    ensures StripNonUpper(a + b) == StripNonUpper(a) + StripNonUpper(b)
  {
    if a == [] {
      assert a + b == b;
    } else {
      assert (a + b)[0] == a[0];
      assert (a + b)[1..] == a[1..] + b;
      StripSplits(a[1..], b);
    }
  }

  /** A single character of the key contributes its capital when it is an
      ASCII letter, and nothing otherwise. */
  lemma KeyLettersOfChar(c: char)
    ensures KeyLetters([c]) == if IsLetter(c) then [UpperChar(c)] else []
  {
    assert Upper([c]) == [UpperChar(c)];
    StripChar(UpperChar(c));
  }

  /** The letters of a key are those of its parts, in order. */
  lemma KeyLettersSplit(a: string, b: string)
    ensures KeyLetters(a + b) == KeyLetters(a) + KeyLetters(b)
  {
    UpperSplits(a, b);
    StripSplits(Upper(a), Upper(b));
  }

  /** The positions of the key that hold an ASCII letter. */
  function LetterPositions(k: string): set<int> {
    set i | 0 <= i < |k| && IsLetter(k[i])
  }

  /** Dropping the last character loses its position when it is a letter. */
  lemma LetterPositionsStep(k: string)
    requires k != []
    ensures |LetterPositions(k)| ==
      |LetterPositions(k[..|k| - 1])| + if IsLetter(k[|k| - 1]) then 1 else 0
  {
    var n := |k| - 1;
    var S, P := LetterPositions(k), LetterPositions(k[..n]);
    if IsLetter(k[n]) {
      assert S == P + {n};
      assert n !in P;
    } else {
      assert S == P;
    }
  }

  /** Dropping the last character of the key loses its capital when it is a
      letter. */
  lemma KeyLettersStep(k: string)
    requires k != []
    ensures |KeyLetters(k)| ==
      |KeyLetters(k[..|k| - 1])| + if IsLetter(k[|k| - 1]) then 1 else 0
  {
    var n := |k| - 1;
    assert k == k[..n] + [k[n]];
    KeyLettersSplit(k[..n], [k[n]]);
    KeyLettersOfChar(k[n]);
  }

  /** The key has one letter per position that holds an ASCII letter. */
  lemma {:induction false} LetterCount(k: string)
    ensures |KeyLetters(k)| == |set i | 0 <= i < |k| && IsLetter(k[i])|
  {
    assert LetterPositions(k) == set i | 0 <= i < |k| && IsLetter(k[i]);
    if k == [] {
      assert LetterPositions(k) == {};
    } else {
      var p := k[..|k| - 1];
      LetterCount(p);
      assert LetterPositions(p) == set i | 0 <= i < |p| && IsLetter(p[i]);
      LetterPositionsStep(k);
      KeyLettersStep(k);
    }
  }

  /** A key letter tagged with its position in the stripped key. */
  datatype Tagged = Tagged(ch: char, idx: nat)

  /** The map((ch, idx) => ...) step. */
  function Tag(s: string): seq<Tagged>
  {
    seq(|s|, i requires 0 <= i < |s| => Tagged(s[i], i))
  }

  /** localeCompare on A-Z: a strictly earlier letter sorts first. */
  predicate LetterBefore(a: Tagged, b: Tagged) { a.ch < b.ch }

  /** Inserts x into t in front of the first element whose letter is not
      smaller than x's, so that x precedes every equal letter of t. */
  function Insert(x: Tagged, t: seq<Tagged>): seq<Tagged>
  {
    if t == [] || !LetterBefore(t[0], x) then [x] + t
    else [t[0]] + Insert(x, t[1..])
  }

  /** Insertion adds x and keeps every element of t. */
  lemma {:induction false} InsertElements(x: Tagged, t: seq<Tagged>)
    ensures multiset(Insert(x, t)) == multiset(t) + multiset{x}
  {
    if t != [] && LetterBefore(t[0], x) {
      InsertElements(x, t[1..]);
      assert t == [t[0]] + t[1..];
    }
  }

  /** Stable insertion sort by letter.  Elements are inserted from the right,
      each in front of its equal letters, so equal letters keep their
      left-to-right order, as Array.prototype.sort does. */
  function SortByLetter(ts: seq<Tagged>): seq<Tagged>
  {
    if ts == [] then []
    else Insert(ts[0], SortByLetter(ts[1..]))
  }

  /** Sorting only rearranges the tagged letters. */
  lemma {:induction false} SortElements(ts: seq<Tagged>)
    ensures multiset(SortByLetter(ts)) == multiset(ts)
  {
    if ts != [] {
      SortElements(ts[1..]);
      InsertElements(ts[0], SortByLetter(ts[1..]));
      assert ts == [ts[0]] + ts[1..];
    }
  }

  /** The final map(o => o.idx) step. */
  function Positions(ts: seq<Tagged>): seq<nat>
  {
    seq(|ts|, i requires 0 <= i < |ts| => ts[i].idx)
  }

  /** Strict order on tagged letters: by letter, ties by position. */
  predicate Precedes(a: Tagged, b: Tagged) {
    a.ch < b.ch || (a.ch == b.ch && a.idx < b.idx)
  }

  predicate StrictlyOrdered(ts: seq<Tagged>) {
    forall i, j :: 0 <= i < j < |ts| ==> Precedes(ts[i], ts[j])
  }

  predicate PositionsIncrease(ts: seq<Tagged>) {
    forall i, j :: 0 <= i < j < |ts| ==> ts[i].idx < ts[j].idx
  }

  /** order is the stable sorting permutation of the letters K: it lists each
      position 0 .. |K|-1 exactly once, by non-decreasing letter, and equal
      letters by increasing position. */
  predicate IsStableOrder(K: string, order: seq<nat>) {
    && |order| == |K|
    && (forall i :: 0 <= i < |order| ==> order[i] < |K|)
    && (forall c :: 0 <= c < |K| ==> c in order)
    && (forall i, j :: 0 <= i < j < |order| ==>
          order[i] < |K| && order[j] < |K| &&
          (K[order[i]] < K[order[j]] || (K[order[i]] == K[order[j]] && order[i] < order[j])))
  }

  /** getColumnOrder(k). */
  function ColumnOrder(k: string): (order: seq<nat>)
    ensures IsStableOrder(KeyLetters(k), order)
  {
    var K := KeyLetters(k);
    var sorted := SortByLetter(Tag(K));
    SortedTagsAreStableOrder(K, sorted);
    Positions(sorted)
  }

  lemma {:induction false} InsertOrdered(x: Tagged, t: seq<Tagged>)
    requires StrictlyOrdered(t)
    requires forall i :: 0 <= i < |t| ==> x.idx < t[i].idx
    ensures StrictlyOrdered(Insert(x, t))
  {
    if t == [] || !LetterBefore(t[0], x) {
    } else {
      var rest := Insert(x, t[1..]);
      InsertOrdered(x, t[1..]);
      InsertElements(x, t[1..]);
      forall j | 0 <= j < |rest| ensures Precedes(t[0], rest[j]) {
        assert rest[j] in multiset(t[1..]) + multiset{x};
        if rest[j] != x {
          assert rest[j] in t[1..];
        }
      }
    }
  }

  lemma {:induction false} SortOrdered(ts: seq<Tagged>)
    requires PositionsIncrease(ts)
    ensures StrictlyOrdered(SortByLetter(ts))
  {
    if ts != [] {
      var s := SortByLetter(ts[1..]);
      SortOrdered(ts[1..]);
      SortElements(ts[1..]);
      forall i | 0 <= i < |s| ensures ts[0].idx < s[i].idx {
        assert s[i] in multiset(ts[1..]);
        var j :| 0 <= j < |ts[1..]| && ts[1..][j] == s[i];
        assert ts[j + 1] == s[i];
      }
      InsertOrdered(ts[0], s);
    }
  }

  /** Sorting the tagged letters of K yields the stable sorting permutation. */
  lemma SortedTagsAreStableOrder(K: string, sorted: seq<Tagged>)
    requires sorted == SortByLetter(Tag(K))
    ensures IsStableOrder(K, Positions(sorted))
  {
    var ts := Tag(K);
    assert forall i :: 0 <= i < |ts| ==> ts[i] == Tagged(K[i], i);
    SortOrdered(ts);
    SortElements(ts);
    SortedTagsOfKey(K, sorted);
    var ps := Positions(sorted);
    assert |ps| == |sorted| && forall i :: 0 <= i < |ps| ==> ps[i] == sorted[i].idx;
    forall c | 0 <= c < |K| ensures c in ps {
      assert ts[c] in multiset(sorted);
      var i :| 0 <= i < |sorted| && sorted[i] == ts[c];
      assert ps[i] == c;
    }
  }

  /** A rearrangement of the tagged letters of K holds one entry per letter,
      each a letter of K with its own position. */
  lemma SortedTagsOfKey(K: string, sorted: seq<Tagged>)
    requires multiset(sorted) == multiset(Tag(K))
    ensures |sorted| == |K|
    ensures forall i :: 0 <= i < |sorted| ==> sorted[i].idx < |K| && sorted[i].ch == K[sorted[i].idx]
  {
    var ts := Tag(K);
    assert |sorted| == |multiset(sorted)| == |multiset(ts)| == |ts|;
    forall i | 0 <= i < |sorted| ensures sorted[i].idx < |K| && sorted[i].ch == K[sorted[i].idx] {
      assert sorted[i] in multiset(ts);
    }
  }

  /** Position a sorts strictly before position b of the letters K. */
  predicate KeyBefore(K: string, a: nat, b: nat) {
    a < |K| && b < |K| && (K[a] < K[b] || (K[a] == K[b] && a < b))
  }

  predicate Increasing(K: string, s: seq<nat>) {
    forall i, j :: 0 <= i < j < |s| ==> KeyBefore(K, s[i], s[j])
  }

  /** Two sequences of positions, each strictly increasing in the key order,
      with the same elements, are equal. */
  lemma {:induction false} IncreasingWithSameElements(K: string, s1: seq<nat>, s2: seq<nat>)
    requires Increasing(K, s1) && Increasing(K, s2)
    requires forall x :: x in s1 <==> x in s2
    ensures s1 == s2
  {
    assert s1 != [] ==> s1[0] in s1;
    assert s2 != [] ==> s2[0] in s2;
    if s1 != [] && s2 != [] {
      var a, b := s1[0], s2[0];
      var p :| 0 <= p < |s2| && s2[p] == a;
      var q :| 0 <= q < |s1| && s1[q] == b;
      assert a == b;
      forall x ensures x in s1[1..] <==> x in s2[1..] {
        Tail(K, s1, x);
        Tail(K, s2, x);
      }
      IncreasingWithSameElements(K, s1[1..], s2[1..]);
      assert s1 == [a] + s1[1..];
      assert s2 == [b] + s2[1..];
    }
  }

  /** The tail of an increasing sequence holds every element but the head. */
  lemma Tail(K: string, s: seq<nat>, x: nat)
    requires s != [] && Increasing(K, s)
    ensures x in s[1..] <==> x in s && x != s[0]
  {
    if x in s[1..] {
      var j :| 0 <= j < |s[1..]| && s[1..][j] == x;
      assert KeyBefore(K, s[0], s[j + 1]);
    }
    if x in s && x != s[0] {
      var j :| 0 <= j < |s| && s[j] == x;
      assert s[1..][j - 1] == x;
    }
  }

  /** The stable sorting permutation is unique, so any stable sort of the
      tagged letters (insertion sort here, the engine's own sort in the
      source) yields the same column order. */
  lemma StableOrderUnique(K: string, o1: seq<nat>, o2: seq<nat>)
    requires IsStableOrder(K, o1) && IsStableOrder(K, o2)
    ensures o1 == o2
  {
    forall x ensures x in o1 <==> x in o2 {
      if x in o1 {
        var i :| 0 <= i < |o1| && o1[i] == x;
      }
      if x in o2 {
        var i :| 0 <= i < |o2| && o2[i] == x;
      }
    }
    assert Increasing(K, o1);
    assert Increasing(K, o2);
    IncreasingWithSameElements(K, o1, o2);
  }

  /** Uppercasing the key first changes neither its letters nor its order. */
  lemma ColumnOrderCaseInsensitive(k: string)
    ensures KeyLetters(Upper(k)) == KeyLetters(k)
    ensures ColumnOrder(Upper(k)) == ColumnOrder(k)
  {
    assert Upper(Upper(k)) == Upper(k);
  }

  /** Stripping the key to its letters first leaves the order unchanged. */
  lemma ColumnOrderIgnoresNonLetters(k: string)
    ensures KeyLetters(KeyLetters(k)) == KeyLetters(k)
    ensures ColumnOrder(KeyLetters(k)) == ColumnOrder(k)
  {
    var K := KeyLetters(k);
    assert Upper(K) == K;
  }

  /** For a key of ASCII letters, the letters are the uppercased key. */
  lemma KeyLettersOfLetterKey(k: string)
    requires AllLetters(k)
    ensures KeyLetters(k) == Upper(k)
    ensures |ColumnOrder(k)| == |k|
  {
  }

  /** Tied letters keep their left-to-right order: "BAA" gives [1, 2, 0]. */
  lemma ColumnOrderOfBAA()
    ensures ColumnOrder("BAA") == [1, 2, 0]
  {
    LettersOfUpperKey("BAA");
    var o: seq<nat> := [1, 2, 0];
    assert forall c :: 0 <= c < 3 ==> c in o by {
      assert o[2] == 0 && o[0] == 1 && o[1] == 2;
    }
    assert IsStableOrder("BAA", o);
    StableOrderUnique("BAA", ColumnOrder("BAA"), o);
  }

  /** "KEY" sorts to E, K, Y, that is columns [1, 0, 2]. */
  lemma ColumnOrderOfKEY()
    ensures ColumnOrder("KEY") == [1, 0, 2]
  {
    LettersOfUpperKey("KEY");
    var o: seq<nat> := [1, 0, 2];
    assert forall c :: 0 <= c < 3 ==> c in o by {
      assert o[1] == 0 && o[0] == 1 && o[2] == 2;
    }
    assert IsStableOrder("KEY", o);
    StableOrderUnique("KEY", ColumnOrder("KEY"), o);
  }

  /** "A1" has the single letter A, so its order is [0]. */
  lemma ColumnOrderOfA1()
    ensures KeyLetters("A1") == "A"
    ensures ColumnOrder("A1") == [0]
  {
    assert Upper("A1") == "A1";
    assert "A1"[1..] == "1" && "1"[1..] == [];
    assert StripNonUpper("1") == [];
    assert StripNonUpper("A1") == "A";
    var o: seq<nat> := [0];
    assert IsStableOrder("A", o);
    StableOrderUnique("A", ColumnOrder("A1"), o);
  }

  /** A key already made of A-Z is its own letters. */
  lemma LettersOfUpperKey(k: string)
    requires forall i :: 0 <= i < |k| ==> IsUpper(k[i])
    ensures KeyLetters(k) == k
  {
    assert Upper(k) == k;
  }

  /** order lists each of 0 .. n-1 exactly once. */
  predicate IsPermutation(order: seq<nat>, n: nat) {
    && |order| == n
    && (forall i :: 0 <= i < |order| ==> order[i] < n)
    && (forall i, j :: 0 <= i < j < |order| ==> order[i] != order[j])
    && (forall c :: 0 <= c < n ==> c in order)
  }

  /** Every column of the order is a column of the raw key. */
  lemma OrderWithinKey(k: string)
    ensures forall i :: 0 <= i < |ColumnOrder(k)| ==> ColumnOrder(k)[i] < |k|
  {
  }

  /** The order has one entry per position of the key that holds an ASCII
      letter: as many as the key has characters exactly when they all do. */
  lemma OrderLength(k: string)
    ensures |ColumnOrder(k)| == |set i | 0 <= i < |k| && IsLetter(k[i])|
    ensures |ColumnOrder(k)| <= |k|
    ensures |ColumnOrder(k)| == |k| <==> AllLetters(k)
  {
    LetterCount(k);
  }

  /** For a key of ASCII letters the order is a permutation of its columns. */
  lemma LetterKeyOrder(k: string)
    requires AllLetters(k)
    ensures IsPermutation(ColumnOrder(k), |k|)
  {
  }
}

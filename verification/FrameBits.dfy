/**
 The usage bitmap of the frame allocator (src/memory/memory.cpp): 64-bit words,
 here sequences of 64 booleans with the lowest bit first.
 */
module FrameBits {
  import opened Arithmetic

  type Word = w: seq<bool> | |w| == 64 witness seq(64, _ => false)

  predicate Bit(words: seq<Word>, i: nat)
    requires i < 64 * |words|
  {
    words[i / 64][i % 64]
  }

  function Mark(words: seq<Word>, i: nat, v: bool): (r: seq<Word>)
    requires i < 64 * |words|
    ensures |r| == |words|
  {
    words[i / 64 := words[i / 64][i % 64 := v]]
  }

  /** Marking one frame changes that frame alone. */
  lemma MarkBit(words: seq<Word>, i: nat, v: bool, j: nat)
    requires i < 64 * |words| && j < 64 * |words|
    ensures Bit(Mark(words, i, v), j) == if j == i then v else Bit(words, j)
  {
    assert i == 64 * (i / 64) + i % 64 && j == 64 * (j / 64) + j % 64;
  }

  /** The number of frames in use among the first `n`. */
  function Count(words: seq<Word>, n: nat): (c: nat)
    requires n <= 64 * |words|
    ensures c <= n
  {
    if n == 0 then 0 else Count(words, n - 1) + if Bit(words, n - 1) then 1 else 0
  }

  lemma {:induction false} CountMark(words: seq<Word>, i: nat, v: bool, n: nat)
    requires i < 64 * |words| && n <= 64 * |words|
    ensures Count(Mark(words, i, v), n) ==
            Count(words, n) + (if i < n && v && !Bit(words, i) then 1 else if i < n && !v && Bit(words, i) then -1
                else 0)
  {
    if n > 0 {
      CountMark(words, i, v, n - 1);
      MarkBit(words, i, v, n - 1);
    }
  }

  /** Every frame in use makes the count full, and only that. */
  lemma {:induction false} CountFull(words: seq<Word>, n: nat)
    requires n <= 64 * |words|
    ensures Count(words, n) == n <==> forall i :: 0 <= i < n ==> Bit(words, i)
  {
    if n > 0 {
      CountFull(words, n - 1);
    }
  }

  /** A run of free frames leaves at most the others in use. */
  lemma {:induction false} CountRun(words: seq<Word>, first: nat, count: nat, n: nat)
    requires first + count <= n <= 64 * |words| && forall i :: first <= i < first + count ==> !Bit(words, i)
    ensures Count(words, n) + count <= n
    decreases n
  {
    if n > first + count {
      CountRun(words, first, count, n - 1);
    } else if count > 0 {
      CountRun(words, first, count - 1, n - 1);
    }
  }

  predicate Full(w: Word) { forall b :: 0 <= b < 64 ==> w[b] }

  /** The lower `to` bits from `from` on are all set. */
  predicate AllSet(w: Word, from: nat, to: nat)
    requires to <= 64
  {
    forall b :: from <= b < to ==> w[b]
  }

  /** `lowest_clear_bit`: halving search for the least clear bit. */
  method LowestClearBit(w: Word) returns (index: nat)
    requires !Full(w)
    ensures index < 64 && !w[index] && forall b :: 0 <= b < index ==> w[b]
  {
    index := 0;
    var width := 32;
    while width != 0
      invariant width in {32, 16, 8, 4, 2, 1, 0}
      invariant index + (if width == 0 then 1 else 2 * width) <= 64
      invariant forall b :: 0 <= b < index ==> w[b]
      invariant exists b :: index <= b < index + (if width == 0 then 1 else 2 * width) && !w[b]
      decreases width
    {
      if AllSet(w, index, index + width) {
        index := index + width;
      }
      width := width / 2;
    }
  }

  /** Every word is visited when the words are taken in turn from any starting word. */
  lemma Visited(start: nat, n: nat, w: nat) returns (k: nat)
    requires start < n && w < n
    ensures k < n && Remainder(start + k, n) == w
  {
    k := if w >= start then w - start else w + n - start;
  }

  /** The bits of a word, as frames. */
  lemma WordBits(words: seq<Word>, w: nat, b: nat)
    requires w < |words| && b < 64
    ensures 64 * w + b < 64 * |words| && Bit(words, 64 * w + b) == words[w][b]
  {
    assert (64 * w + b) / 64 == w && (64 * w + b) % 64 == b;
  }

  /** If every word is full, so is the count. */
  lemma AllFull(words: seq<Word>, n: nat)
    requires n <= 64 * |words| && forall w :: 0 <= w < |words| ==> Full(words[w])
    ensures Count(words, n) == n
  {
    forall i | 0 <= i < n ensures Bit(words, i) {
      assert Full(words[i / 64]);
    }
    CountFull(words, n);
  }
}

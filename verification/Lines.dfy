/**
 * Lines of the log of src/core/storage/aof.c that no append has written: what sscanf
 * makes of any word and any number that can be spelled.
 */
module Lines {
  import opened Bytes
  import opened Bits
  import opened LogCodec

  /** The bytes that C skips as space: tab, newline, vertical tab, form feed, return, blank. */
  const BLANKS: set<byte> := {9, 10, 11, 12, 13, 32}

  const PLUS: byte := 43
  const MINUS: byte := 45

  predicate Blank(s: bytes) { forall i | 0 <= i < |s| :: s[i] in BLANKS }

  predicate Inked(s: bytes) { forall i | 0 <= i < |s| :: s[i] !in BLANKS && s[i] != NUL }

  lemma {:induction false} SkipBlank(s: bytes, p: nat, q: nat)
    requires p <= q < |s| && (forall i | p <= i < q :: s[i] in BLANKS) && s[q] !in BLANKS
    ensures SkipSpace(s, p) == q
    decreases q - p
  {
    if p < q { SkipBlank(s, p + 1, q); }
  }

  lemma {:induction false} WordEndAt(s: bytes, p: nat, q: nat, room: nat)
    requires p <= q < |s| && forall i | p <= i < q :: s[i] !in BLANKS && s[i] != NUL
    requires q - p < room ==> s[q] in BLANKS || s[q] == NUL
    ensures WordEnd(s, p, room) == if q - p < room then q else p + room
    decreases q - p
  {
    if p < q && room > 0 { WordEndAt(s, p + 1, q, room - 1); }
  }

  /** The word of a line is its first, behind any blanks, or the first 15 bytes of it. */
  lemma {:induction false} WordWritten(blanks: bytes, w: bytes, tail: bytes)
    requires Blank(blanks) && Inked(w) && tail != [] && (tail[0] == NUL || (w != [] && tail[0] in BLANKS))
    ensures Word(blanks + w + tail) == if |w| <= 15 then w else w[..15]
  {
    var s, p := blanks + w + tail, |blanks|;
    var q := p + |w|;
    assert forall i | 0 <= i < p :: s[i] == blanks[i];
    assert forall i | p <= i < q :: s[i] == w[i - p];
    assert s[q] == tail[0];
    assert s[p] !in BLANKS;
    SkipBlank(s, 0, p);
    WordEndAt(s, p, q, 15);
    if |w| <= 15 { assert s[p..q] == w; } else { assert s[p..p + 15] == w[..15]; }
  }

  /** A line whose word is neither command is passed over, whatever follows the word. */
  lemma {:induction false} OtherWordSkipped(blanks: bytes, w: bytes, tail: bytes)
    requires Blank(blanks) && Inked(w) && tail != [] && (tail[0] == NUL || (w != [] && tail[0] in BLANKS))
    requires w != SET && w != DEL
    ensures ReplayLine(blanks + w + tail) == Skip
  {
    WordWritten(blanks, w, tail);
    hide Word, ParseSet, ParseDel;
  }

  /** The size that a written number stands for: negated modulo 2^64, or the largest one. */
  function Size(negative: bool, n: nat): nat {
    if n >= U64 then U64 - 1 else if negative && n != 0 then U64 - n else n
  }

  /** A sign, if any. */
  predicate Sign(s: bytes) { s == [] || s == [PLUS] || s == [MINUS] }

  predicate Zeros(s: bytes) { forall i | 0 <= i < |s| :: s[i] == ZERO }

  lemma {:induction false} LeadingZeros(zeros: bytes, n: nat)
    requires Zeros(zeros)
    ensures forall i | 0 <= i < |zeros + Digits(n)| :: IsDigit((zeros + Digits(n))[i])
    ensures DigitsValue(zeros + Digits(n)) == n
  {
    var s := zeros + Digits(n);
    assert forall i | 0 <= i < |s| :: IsDigit(s[i]);
    if n < 10 {
      assert s[..|s| - 1] == zeros;
      ZerosValue(zeros);
    } else {
      assert s[..|s| - 1] == zeros + Digits(n / 10);
      LeadingZeros(zeros, n / 10);
    }
  }

  lemma {:induction false} ZerosValue(zeros: bytes)
    requires Zeros(zeros)
    ensures forall i | 0 <= i < |zeros| :: IsDigit(zeros[i])
    ensures DigitsValue(zeros) == 0
  {
    if zeros != [] { ZerosValue(zeros[..|zeros| - 1]); }
  }

  /** Any spelling of a number is read as its size, and where there is no digit there is no number. */
  lemma {:induction false} SizeWritten(pre: bytes, blanks: bytes, sign: bytes, zeros: bytes, n: nat, tail: bytes)
    requires Blank(blanks) && Sign(sign) && Zeros(zeros) && tail != [] && !IsDigit(tail[0])
    ensures ScanSize(pre + (blanks + sign + (zeros + Digits(n)) + tail), |pre|) == Number(Size(sign == [MINUS], n))
    ensures tail[0] !in BLANKS + {PLUS, MINUS} || (sign != [] && tail[0] in BLANKS) ==>
              ScanSize(pre + (blanks + sign + [] + tail), |pre|) == NoNumber
  {
    LeadingZeros(zeros, n);
    NumberAt(pre, blanks, sign, zeros + Digits(n), tail);
    hide Size, DigitsValue, Digits;
    if tail[0] !in BLANKS + {PLUS, MINUS} || (sign != [] && tail[0] in BLANKS) {
      NumberAt(pre, blanks, sign, [], tail);
    }
  }

  lemma {:induction false} NumberAt(pre: bytes, blanks: bytes, sign: bytes, ds: bytes, tail: bytes)
    requires Blank(blanks) && Sign(sign) && tail != [] && !IsDigit(tail[0])
    requires forall i | 0 <= i < |ds| :: IsDigit(ds[i])
    requires ds == [] ==> tail[0] !in BLANKS + {PLUS, MINUS} || (sign != [] && tail[0] in BLANKS)
    ensures ScanSize(pre + (blanks + sign + ds + tail), |pre|) ==
            if ds == [] then NoNumber else Number(Size(sign == [MINUS], DigitsValue(ds)))
  {
    var s, p := pre + (blanks + sign + ds + tail), |pre|;
    var q := p + |blanks|;
    var d := q + |sign|;
    var end := d + |ds|;
    assert forall i | p <= i < q :: s[i] == blanks[i - p];
    assert sign != [] ==> s[q] == sign[0];
    assert forall i | d <= i < end :: s[i] == ds[i - d];
    assert s[end] == tail[0];
    assert s[d..end] == ds;
    hide DigitsValue;
    SkipBlank(s, p, q);
    DigitsEndAt(s, d, end);
  }
}

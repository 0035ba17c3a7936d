/** Bitmaps in words of 64 bits, as the formatter searches and changes them
    (src/makefs/bitmap.c, src/makefs/bitmap.h).

    A word is a number below 2^64, and the operators of C on words are defined here by
    what they do to it, one place at a time. Position `i` of a bitmap is place `i % 64`
    of word `i / 64`. */
module Words {

  const RANGE: nat := 0x1_0000_0000_0000_0000

  type Word = w: nat | w < RANGE

  const ONES: Word := RANGE - 1

  /** Place `i` of word `w`. */
  predicate Bit(w: nat, i: nat) {
    if i == 0 then w % 2 == 1 else Bit(w / 2, i - 1)
  }

  function Power2(k: nat): (r: nat)
    ensures 1 <= r
  {
    if k == 0 then 1 else 2 * Power2(k - 1)
  }

  // The operators of C

  /** x & y */
  function And(x: nat, y: nat): (r: nat)
    ensures r <= x && r <= y
  {
    if x == 0 || y == 0 then 0
    else 2 * And(x / 2, y / 2) + (if x % 2 == 1 && y % 2 == 1 then 1 else 0)
  }

  /** x | y */
  function Or(x: nat, y: nat): nat {
    if x == 0 && y == 0 then 0
    else 2 * Or(x / 2, y / 2) + (if x % 2 == 1 || y % 2 == 1 then 1 else 0)
  }

  /** ~x */
  function Not(x: Word): Word {
    ONES - x
  }

  /** x << k */
  function Shl(x: Word, k: nat): Word
    decreases k
  {
    if k == 0 then x else Shl(2 * x % RANGE, k - 1)
  }

  /** x >> k */
  function Shr(x: nat, k: nat): (r: nat)
    ensures r <= x
  {
    if k == 0 then x else Shr(x / 2, k - 1)
  }

  // What the operators do to each place

  lemma {:induction false} ZeroBits(i: nat)
    ensures !Bit(0, i)
  {
    if i != 0 {
      ZeroBits(i - 1);
    }
  }

  lemma {:induction false} AndBits(x: nat, y: nat, i: nat)
    ensures Bit(And(x, y), i) <==> Bit(x, i) && Bit(y, i)
  {
    if x == 0 || y == 0 {
      ZeroBits(i);
    } else if i != 0 {
      AndBits(x / 2, y / 2, i - 1);
    }
  }

  lemma {:induction false} OrBits(x: nat, y: nat, i: nat)
    ensures Bit(Or(x, y), i) <==> Bit(x, i) || Bit(y, i)
  {
    if x == 0 && y == 0 {
      ZeroBits(i);
    } else if i != 0 {
      OrBits(x / 2, y / 2, i - 1);
    }
  }

  lemma {:induction false} OrBelow(x: nat, y: nat, n: nat)
    requires x < Power2(n) && y < Power2(n)
    ensures Or(x, y) < Power2(n)
  {
    if x != 0 || y != 0 {
      OrBelow(x / 2, y / 2, n - 1);
    }
  }

  lemma EightMore(k: nat)
    ensures Power2(k + 8) == 256 * Power2(k)
  {
    assert Power2(k + 4) == 16 * Power2(k) by {
      assert Power2(k + 2) == 4 * Power2(k);
    }
    assert Power2(k + 6) == 64 * Power2(k);
  }

  lemma WordRange()
    ensures Power2(64) == RANGE
  {
    PartRanges();
    EightMore(32);
    EightMore(40);
    EightMore(48);
    EightMore(56);
  }

  /** The numbers of values of parts of a word. */
  lemma PartRanges()
    ensures Power2(1) == 2 && Power2(2) == 4 && Power2(4) == 0x10 && Power2(8) == 0x100
    ensures Power2(16) == 0x1_0000 && Power2(32) == 0x1_0000_0000
  {
    EightMore(0);
    EightMore(8);
    EightMore(16);
    EightMore(24);
  }

  lemma {:induction false} ComplementBits(x: nat, n: nat, i: nat)
    requires x < Power2(n) && i < n
    ensures Bit(Power2(n) - 1 - x, i) <==> !Bit(x, i)
  {
    if i != 0 {
      ComplementBits(x / 2, n - 1, i - 1);
      assert (Power2(n) - 1 - x) / 2 == Power2(n - 1) - 1 - x / 2;
    }
  }

  lemma NotBits(x: Word, i: nat)
    requires i < 64
    ensures Bit(Not(x), i) <==> !Bit(x, i)
  {
    WordRange();
    ComplementBits(x, 64, i);
  }

  lemma {:induction false} LowOnes(k: nat, i: nat)
    ensures Bit(Power2(k) - 1, i) <==> i < k
  {
    if k == 0 {
      ZeroBits(i);
    } else if i != 0 {
      LowOnes(k - 1, i - 1);
    }
  }

  lemma {:induction false} ShrBits(x: nat, k: nat, i: nat)
    ensures Bit(Shr(x, k), i) <==> Bit(x, i + k)
  {
    if k != 0 {
      ShrBits(x / 2, k - 1, i);
    }
  }

  lemma {:induction false} ShrOnes(n: nat, k: nat)
    requires k <= n
    ensures Shr(Power2(n) - 1, k) == Power2(n - k) - 1
  {
    if k != 0 {
      ShrOnes(n - 1, k - 1);
    }
  }

  lemma {:induction false} ShlOnes(i: nat, k: nat)
    requires i + k < 64 && Power2(i) <= RANGE
    ensures Power2(i + k) <= RANGE && Shl(RANGE - Power2(i), k) == RANGE - Power2(i + k)
    decreases k
  {
    PowerBelow(i + 1, 64);
    WordRange();
    if k != 0 {
      assert 2 * (RANGE - Power2(i)) % RANGE == RANGE - Power2(i + 1);
      ShlOnes(i + 1, k - 1);
    }
  }

  lemma {:induction false} PowerBelow(k: nat, n: nat)
    requires k <= n
    ensures Power2(k) <= Power2(n)
  {
    if k < n {
      PowerBelow(k, n - 1);
    }
  }

  /** Two words with the same bits are equal. */
  lemma {:induction false} SameBits(x: nat, y: nat, n: nat)
    requires x < Power2(n) && y < Power2(n)
    requires forall i :: 0 <= i < n ==> (Bit(x, i) <==> Bit(y, i))
    ensures x == y
  {
    if n != 0 {
      forall i | 0 <= i < n - 1 ensures Bit(x / 2, i) <==> Bit(y / 2, i) {
        assert Bit(x, i + 1) <==> Bit(y, i + 1);
      }
      SameBits(x / 2, y / 2, n - 1);
      assert Bit(x, 0) <==> Bit(y, 0);
    }
  }

  // The lowest bit

  /** `r` is the lowest place from `lo` on, before `hi`, with bit `v` in one word. */
  ghost predicate IsLowest(w: nat, lo: nat, hi: nat, v: bool, r: nat) {
    lo <= r <= hi && (forall j :: lo <= j < r ==> Bit(w, j) == !v) && (r < hi ==> Bit(w, r) == v)
  }

  lemma {:induction false} SomeBit(x: nat) returns (i: nat)
    requires x != 0
    ensures Bit(x, i)
  {
    if x % 2 == 1 {
      i := 0;
    } else {
      i := SomeBit(x / 2);
      i := i + 1;
    }
  }

  /** __ffs has come to place `num`: nothing is set before it, and something is set in
      the `h` places from there on. */
  ghost predicate Halved(word: nat, w: nat, num: nat, h: nat) {
    && w == Shr(word, num) && num + h <= 64
    && (forall j :: 0 <= j < num ==> !Bit(word, j))
    && exists j :: 0 <= j < h && Bit(w, j)
  }

  lemma HalfClear(w: nat, h: nat, j: nat)
    requires And(w, Power2(h) - 1) == 0 && j < h
    ensures !Bit(w, j)
  {
    AndBits(w, Power2(h) - 1, j);
    LowOnes(h, j);
    ZeroBits(j);
  }

  lemma HalvesOnce(word: nat, w: nat, num: nat, h: nat)
    requires Halved(word, w, num, 2 * h)
    ensures And(w, Power2(h) - 1) == 0 ==> Halved(word, Shr(w, h), num + h, h)
    ensures And(w, Power2(h) - 1) != 0 ==> Halved(word, w, num, h)
  {
    var m := Power2(h) - 1;
    if And(w, m) == 0 {
      var j :| 0 <= j < 2 * h && Bit(w, j);
      if j < h {
        HalfClear(w, h, j);
      } else {
        ShrBits(w, h, j - h);
        assert Bit(Shr(w, h), j - h);
      }
      ShrTwice(word, num, h);
      forall i | num <= i < num + h ensures !Bit(word, i) {
        HalfClear(w, h, i - num);
        ShrBits(word, num, i - num);
      }
    } else {
      var j := SomeBit(And(w, m));
      AndBits(w, m, j);
      LowOnes(h, j);
    }
  }

  lemma {:induction false} ShrTwice(x: nat, k: nat, h: nat)
    ensures Shr(Shr(x, k), h) == Shr(x, k + h)
  {
    if k != 0 {
      ShrTwice(x / 2, k - 1, h);
    }
  }

  /** One halving of __ffs. */
  method Halve(ghost word: Word, w: Word, num: nat, h: nat, mask: Word) returns (v: Word, n: nat)
    requires mask == Power2(h) - 1 && (word != 0 ==> Halved(word, w, num, 2 * h))
    ensures word != 0 ==> Halved(word, v, n, h)
  {
    if word != 0 {
      HalvesOnce(word, w, num, h);
    }
    if And(w, mask) == 0 {
      v, n := Shr(w, h), num + h;
    } else {
      v, n := w, num;
    }
  }

  /** __ffs: the place of the lowest bit that is set. */
  method Ffs(word: Word) returns (num: nat)
    ensures word != 0 ==> num < 64 && IsLowest(word, 0, 64, true, num)
  {
    PartRanges();
    if word != 0 {
      FirstHalf(word);
    }
    var w: Word;
    w, num := Halve(word, word, 0, 32, 0xFFFF_FFFF);
    w, num := Halve(word, w, num, 16, 0xFFFF);
    w, num := Halve(word, w, num, 8, 0xFF);
    w, num := Halve(word, w, num, 4, 0xF);
    w, num := Halve(word, w, num, 2, 0x3);
    w, num := Halve(word, w, num, 1, 0x1);
    if word != 0 {
      LastHalf(word, w, num);
    }
  }

  lemma LastHalf(word: Word, w: nat, num: nat)
    requires Halved(word, w, num, 1)
    ensures num < 64 && IsLowest(word, 0, 64, true, num)
  {
    ShrBits(word, num, 0);
  }

  lemma FirstHalf(word: Word)
    requires word != 0
    ensures Halved(word, word, 0, 64)
  {
    var j := SomeBit(word);
    if 64 <= j {
      WordRange();
      HighBits(word, 64, j);
    }
  }

  lemma {:induction false} HighBits(x: nat, n: nat, i: nat)
    requires x < Power2(n) && n <= i
    ensures !Bit(x, i)
  {
    if n == 0 {
      ZeroBits(i);
    } else {
      HighBits(x / 2, n - 1, i - 1);
    }
  }

  // Masks

  /** BITMAP_FIRST_WORD_MASK: all places from `k` on. */
  function From(k: nat): Word
    requires k < 64
  {
    Shl(ONES, k)
  }

  lemma FromBits(k: nat, j: nat)
    requires k < 64 && j < 64
    ensures Bit(From(k), j) <==> k <= j
  {
    ShlOnes(0, k);
    NotBits(Power2(k) - 1, j);
    LowOnes(k, j);
  }

  /** All places before `k`. */
  function UpTo(k: nat): Word
    requires 0 < k < 64
  {
    Shr(ONES, 64 - k)
  }

  lemma UpToBits(k: nat, j: nat)
    requires 0 < k < 64
    ensures Bit(UpTo(k), j) <==> j < k
  {
    WordRange();
    ShrOnes(64, 64 - k);
    LowOnes(k, j);
  }

  lemma {:induction false} ShlPower(i: nat, k: nat)
    requires i + k < 64 && Power2(i) < RANGE
    ensures Shl(Power2(i), k) == Power2(i + k)
    decreases k
  {
    if k != 0 {
      PowerBelow(i + 2, 64);
      WordRange();
      ShlPower(i + 1, k - 1);
    }
  }

  /** BITMAP_LAST_WORD_MASK: all places before `nbits`, in its last word. */
  function LastMask(nbits: nat): Word {
    if nbits % 64 != 0 then
      ShlPower(0, nbits % 64);
      Shl(1, nbits % 64) - 1
    else ONES
  }

  lemma LastMaskBits(nbits: nat, j: nat)
    requires j < 64
    ensures Bit(LastMask(nbits), j) <==> nbits % 64 == 0 || j < nbits % 64
  {
    if nbits % 64 != 0 {
      ShlPower(0, nbits % 64);
      LowOnes(nbits % 64, j);
    } else {
      AllOnes(j);
    }
  }

  lemma AllOnes(j: nat)
    requires j < 64
    ensures Bit(ONES, j)
  {
    WordRange();
    LowOnes(64, j);
  }

  // Bitmaps

  /** Bit `i` of a bitmap. */
  predicate At(words: seq<Word>, i: nat)
    requires i < 64 * |words|
  {
    Bit(words[i / 64], i % 64)
  }

  lemma AtPlace(words: seq<Word>, k: nat, o: nat)
    requires k < |words| && o < 64
    ensures 64 * k + o < 64 * |words| && (At(words, 64 * k + o) <==> Bit(words[k], o))
  {
    assert (64 * k + o) / 64 == k && (64 * k + o) % 64 == o;
  }

  ghost predicate AllAre(words: seq<Word>, lo: nat, hi: nat, v: bool)
    requires hi <= 64 * |words|
  {
    forall i :: lo <= i < hi ==> At(words, i) == v
  }

  /** `r` is the first position from `offset` on, before `size`, with bit `v`; it is
      `size` when there is none. */
  ghost predicate IsNext(words: seq<Word>, size: nat, offset: nat, v: bool, r: nat)
    requires size <= 64 * |words|
  {
    if offset >= size then r == size
    else offset <= r <= size && AllAre(words, offset, r, !v) && (r < size ==> At(words, r) == v)
  }

  // Searching

  lemma NoneSet()
    ensures IsLowest(0, 0, 64, true, 64)
  {
    forall j | 0 <= j < 64 ensures !Bit(0, j) {
      ZeroBits(j);
    }
  }

  /** The lowest place in the part of a word that a mask leaves. */
  lemma LowestFrom(w: Word, lo: nat, hi: nat, r: nat)
    requires lo < hi <= 64 && IsLowest(And(w, From(lo)), 0, hi, true, r)
    ensures IsLowest(w, lo, hi, true, r)
  {
    forall j | 0 <= j < 64 ensures Bit(And(w, From(lo)), j) <==> Bit(w, j) && lo <= j {
      AndBits(w, From(lo), j);
      FromBits(lo, j);
    }
  }

  lemma LowestUpTo(w: Word, hi: nat, r: nat)
    requires 0 < hi < 64 && IsLowest(And(w, UpTo(hi)), 0, 64, true, r)
    ensures IsLowest(w, 0, hi, true, if r < 64 then r else hi)
  {
    forall j | 0 <= j < 64 ensures Bit(And(w, UpTo(hi)), j) <==> Bit(w, j) && j < hi {
      AndBits(w, UpTo(hi), j);
      UpToBits(hi, j);
    }
  }

  /** A search that has come to word `k` ends there. */
  lemma EndsInWord(words: seq<Word>, size: nat, offset: nat, v: bool, k: nat, lo: nat, hi: nat, r: nat)
    requires offset < size <= 64 * |words| && k < |words| && lo <= hi <= 64 && 64 * k + hi <= size
    requires offset <= 64 * k + lo && AllAre(words, offset, 64 * k + lo, !v)
    requires IsLowest(words[k], lo, hi, v, r) && (r < hi || 64 * k + hi == size)
    ensures IsNext(words, size, offset, v, 64 * k + r)
  {
    WordPart(words, k, lo, r, !v);
    if r < hi {
      AtPlace(words, k, r);
    }
  }

  /** A search passes word `k`. */
  lemma PassesWord(words: seq<Word>, offset: nat, k: nat, lo: nat, v: bool)
    requires k < |words| && lo <= 64 && AllAre(words, offset, 64 * k + lo, v) && IsLowest(words[k], lo, 64, !v, 64)
    ensures AllAre(words, offset, 64 * (k + 1), v)
  {
    WordPart(words, k, lo, 64, v);
  }

  lemma WordPart(words: seq<Word>, k: nat, lo: nat, hi: nat, v: bool)
    requires k < |words| && hi <= 64 && forall j :: lo <= j < hi ==> Bit(words[k], j) == v
    ensures AllAre(words, 64 * k + lo, 64 * k + hi, v)
  {
    forall i | 64 * k + lo <= i < 64 * k + hi ensures At(words, i) == v {
      AtPlace(words, k, i - 64 * k);
    }
  }

  /** The label found_first of find_next_bit. */
  method FirstSet(tmp: Word, size: nat) returns (r: nat)
    requires 0 < size < 64
    ensures IsLowest(tmp, 0, size, true, r)
  {
    var w := And(tmp, UpTo(size));
    if w == 0 {
      NoneSet();
      LowestUpTo(tmp, size, 64);
      return size;
    }
    r := Ffs(w);
    LowestUpTo(tmp, size, r);
  }

  /** find_next_bit. */
  method FindNextBit(words: seq<Word>, size: nat, offset: nat) returns (r: nat)
    requires size <= 64 * |words|
    ensures IsNext(words, size, offset, true, r)
  {
    if offset >= size {
      return size;
    }
    var k, o := offset / 64, offset % 64;
    var left := size - 64 * k;
    if o != 0 {
      var tmp := And(words[k], From(o));
      if left < 64 {
        r := FirstSet(tmp, left);
        LowestFrom(words[k], o, left, r);
        EndsInWord(words, size, offset, true, k, o, left, r);
        r := 64 * k + r;
        return;
      }
      if tmp != 0 {
        r := Ffs(tmp);
        LowestFrom(words[k], o, 64, r);
        EndsInWord(words, size, offset, true, k, o, 64, r);
        r := 64 * k + r;
        return;
      }
      NoneSet();
      LowestFrom(words[k], o, 64, 64);
      PassesWord(words, offset, k, o, false);
      k, left := k + 1, left - 64;
    }
    while left >= 64
      invariant 0 <= left && 64 * k + left == size
      invariant offset <= 64 * k && AllAre(words, offset, 64 * k, false)
    {
      if words[k] != 0 {
        r := Ffs(words[k]);
        EndsInWord(words, size, offset, true, k, 0, 64, r);
        r := 64 * k + r;
        return;
      }
      NoneSet();
      PassesWord(words, offset, k, 0, false);
      k, left := k + 1, left - 64;
    }
    if left == 0 {
      return 64 * k;
    }
    r := FirstSet(words[k], left);
    EndsInWord(words, size, offset, true, k, 0, left, r);
    r := 64 * k + r;
  }

  // Searching for a zero

  lemma LowestOfNot(w: Word, lo: nat, hi: nat, r: nat)
    requires hi <= 64 && IsLowest(Not(w), lo, hi, true, r)
    ensures IsLowest(w, lo, hi, false, r)
  {
    forall j | 0 <= j < 64 ensures Bit(Not(w), j) <==> !Bit(w, j) {
      NotBits(w, j);
    }
  }

  /** x | y, of two words */
  function OrWord(x: Word, y: Word): Word {
    WordRange();
    OrBelow(x, y, 64);
    Or(x, y)
  }

  /** The lowest zero in the part of a word that a mask leaves. */
  lemma LowestZeroFrom(w: Word, lo: nat, hi: nat, r: nat)
    requires 0 < lo < hi <= 64 && IsLowest(OrWord(w, UpTo(lo)), 0, hi, false, r)
    ensures IsLowest(w, lo, hi, false, r)
  {
    forall j | 0 <= j < 64 ensures Bit(OrWord(w, UpTo(lo)), j) <==> Bit(w, j) || j < lo {
      OrBits(w, UpTo(lo), j);
      UpToBits(lo, j);
    }
  }

  lemma LowestZeroUpTo(w: Word, hi: nat, r: nat)
    requires 0 < hi < 64 && IsLowest(OrWord(w, From(hi)), 0, 64, false, r)
    ensures IsLowest(w, 0, hi, false, if r < 64 then r else hi)
  {
    forall j | 0 <= j < 64 ensures Bit(OrWord(w, From(hi)), j) <==> Bit(w, j) || hi <= j {
      OrBits(w, From(hi), j);
      FromBits(hi, j);
    }
  }

  lemma AllSet()
    ensures IsLowest(ONES, 0, 64, false, 64)
  {
    forall j | 0 <= j < 64 ensures Bit(ONES, j) {
      AllOnes(j);
    }
  }

  /** ffz. */
  method Ffz(word: Word) returns (num: nat)
    ensures word != ONES ==> num < 64 && IsLowest(word, 0, 64, false, num)
  {
    num := Ffs(Not(word));
    if word != ONES {
      LowestOfNot(word, 0, 64, num);
    }
  }

  /** The label found_first of find_next_zero_bit. */
  method FirstZero(tmp: Word, size: nat) returns (r: nat)
    requires 0 < size < 64
    ensures IsLowest(tmp, 0, size, false, r)
  {
    var w := OrWord(tmp, From(size));
    if w == ONES {
      AllSet();
      LowestZeroUpTo(tmp, size, 64);
      return size;
    }
    r := Ffz(w);
    LowestZeroUpTo(tmp, size, r);
  }

  /** find_next_zero_bit. */
  method FindNextZeroBit(words: seq<Word>, size: nat, offset: nat) returns (r: nat)
    requires size <= 64 * |words|
    ensures IsNext(words, size, offset, false, r)
  {
    if offset >= size {
      return size;
    }
    var k, o := offset / 64, offset % 64;
    var left := size - 64 * k;
    if o != 0 {
      var tmp := OrWord(words[k], UpTo(o));
      if left < 64 {
        r := FirstZero(tmp, left);
        LowestZeroFrom(words[k], o, left, r);
        EndsInWord(words, size, offset, false, k, o, left, r);
        r := 64 * k + r;
        return;
      }
      if tmp != ONES {
        r := Ffz(tmp);
        LowestZeroFrom(words[k], o, 64, r);
        EndsInWord(words, size, offset, false, k, o, 64, r);
        r := 64 * k + r;
        return;
      }
      AllSet();
      LowestZeroFrom(words[k], o, 64, 64);
      PassesWord(words, offset, k, o, true);
      k, left := k + 1, left - 64;
    }
    while left >= 64
      invariant 0 <= left && 64 * k + left == size
      invariant offset <= 64 * k && AllAre(words, offset, 64 * k, true)
    {
      if words[k] != ONES {
        r := Ffz(words[k]);
        EndsInWord(words, size, offset, false, k, 0, 64, r);
        r := 64 * k + r;
        return;
      }
      AllSet();
      PassesWord(words, offset, k, 0, true);
      k, left := k + 1, left - 64;
    }
    if left == 0 {
      return 64 * k;
    }
    r := FirstZero(words[k], left);
    EndsInWord(words, size, offset, false, k, 0, left, r);
    r := 64 * k + r;
  }

  // Regions

  /** The region of `nr` positions from `p` is free, aligned, and within bounds. */
  ghost predicate Candidate(words: seq<Word>, size: nat, start: nat, nr: nat, align: nat, p: nat)
    requires size <= 64 * |words| && 1 <= align
  {
    start <= p && p % align == 0 && p + nr <= size && AllAre(words, p, p + nr, false)
  }

  /** __ALIGN_MASK, for a mask of one less than `align`, a power of two; see AlignMask. */
  function AlignUp(x: nat, align: nat): (r: nat)
    requires 1 <= align
    ensures x <= r < x + align && r % align == 0
  {
    AlignedUp(x, align);
    (x + (align - 1)) / align * align
  }

  lemma AlignedUp(x: nat, align: nat)
    requires 1 <= align
    ensures var r := (x + (align - 1)) / align * align; x <= r < x + align && r % align == 0
  {
    var q := (x + (align - 1)) / align;
    assert q * align == x + (align - 1) - (x + (align - 1)) % align;
    MultipleOf(q, align);
  }

  lemma MultipleOf(q: nat, align: nat)
    requires 1 <= align
    ensures q * align % align == 0
  {
    var d, m := q * align / align, q * align % align;
    assert m == (q - d) * align;
    Times(align, 1, q - d);
    Times(align, q - d, -1);
  }

  lemma Times(align: nat, x: int, y: int)
    ensures x <= y ==> x * align <= y * align
  {
  }

  /** A mask of all ones leaves everything. */
  lemma {:induction false} OnesLeave(y: nat, n: nat)
    requires y < Power2(n)
    ensures And(y, Power2(n) - 1) == y
  {
    if n != 0 && y != 0 {
      OnesLeave(y / 2, n - 1);
      assert (Power2(n) - 1) / 2 == Power2(n - 1) - 1;
    }
  }

  /** What a mask of ones from place `k` on leaves is the multiple of 2^k below. */
  ghost predicate LeavesMultiple(y: nat, k: nat, n: nat, q: nat) {
    Power2(k) <= Power2(n) && And(y, Power2(n) - Power2(k)) == Multiple(q, k) && Multiple(q, k) <= y < Multiple(q, k) + Power2(k)
  }

  function Multiple(q: nat, k: nat): nat {
    q * Power2(k)
  }

  lemma MultipleDoubles(q: nat, k: nat)
    requires k != 0
    ensures Multiple(q, k) == 2 * Multiple(q, k - 1)
  {
  }

  lemma {:induction false} MaskLeaves(y: nat, k: nat, n: nat) returns (q: nat)
    requires y < Power2(n) && k <= n
    ensures LeavesMultiple(y, k, n, q)
    decreases k
  {
    PowerBelow(k, n);
    if k == 0 {
      q := y;
      OnesLeave(y, n);
    } else {
      q := MaskLeaves(y / 2, k - 1, n - 1);
      MultipleDoubles(q, k);
      assert (Power2(n) - Power2(k)) / 2 == Power2(n - 1) - Power2(k - 1);
    }
  }

  /** __ALIGN_MASK rounds up to a multiple, when nothing overflows. */
  lemma AlignMask(x: nat, k: nat)
    requires k < 64 && Power2(k) <= RANGE && x + (Power2(k) - 1) < RANGE
    ensures And(x + (Power2(k) - 1), Not(Power2(k) - 1)) == AlignUp(x, Power2(k))
  {
    WordRange();
    var y := x + (Power2(k) - 1);
    var q := MaskLeaves(y, k, 64);
    QuotientIs(y, Power2(k), q);
  }

  lemma QuotientIs(y: nat, a: nat, q: nat)
    requires 1 <= a && q * a <= y < q * a + a
    ensures q == y / a
  {
    var d := y / a;
    assert d * a <= y < d * a + a;
    Times(a, q + 1, d);
    Times(a, d + 1, q);
  }

  lemma LeastAligned(x: nat, align: nat, p: nat)
    requires 1 <= align && x <= p && p % align == 0
    ensures AlignUp(x, align) <= p
  {
    var q, m := (x + (align - 1)) / align, p / align;
    assert p == m * align && q * align <= x + (align - 1);
    Times(align, m + 1, q);
    Times(align, q, m);
  }

  /** Every candidate from `start` on is one from `next` on. */
  ghost predicate NoneSkipped(words: seq<Word>, size: nat, start: nat, next: nat, nr: nat, align: nat)
    requires size <= 64 * |words| && 1 <= align
  {
    forall p :: Candidate(words, size, start, nr, align, p) ==> next <= p
  }

  /** bitmap_find_next_zero_area. */
  method FindNextZeroArea(words: seq<Word>, size: nat, start: nat, nr: nat, align: nat) returns (r: nat)
    requires size <= 64 * |words| && 1 <= align && 1 <= nr
    ensures r <= size ==> Candidate(words, size, start, nr, align, r)
    ensures forall p :: Candidate(words, size, start, nr, align, p) ==> r <= size && r <= p
  {
    var next := start;
    while true
      invariant start <= next && NoneSkipped(words, size, start, next, nr, align)
      decreases size - next
    {
      var index := FindNextZeroBit(words, size, next);
      ZerosOnly(words, size, start, next, nr, align, index);
      index := AlignUp(index, align);
      var end := index + nr;
      if end > size {
        return end;
      }
      var i := FindNextBit(words, end, index);
      if i >= end {
        return index;
      }
      AroundBit(words, size, start, index, nr, align, i);
      next := i + 1;
    }
  }

  lemma ZerosOnly(words: seq<Word>, size: nat, start: nat, next: nat, nr: nat, align: nat, index: nat)
    requires size <= 64 * |words| && 1 <= align && 1 <= nr
    requires NoneSkipped(words, size, start, next, nr, align) && IsNext(words, size, next, false, index)
    ensures NoneSkipped(words, size, start, AlignUp(index, align), nr, align)
  {
    forall p | Candidate(words, size, start, nr, align, p) ensures AlignUp(index, align) <= p {
      assert !At(words, p);
      LeastAligned(index, align, p);
    }
  }

  lemma AroundBit(words: seq<Word>, size: nat, start: nat, index: nat, nr: nat, align: nat, i: nat)
    requires size <= 64 * |words| && 1 <= align && index <= i < index + nr <= size && At(words, i)
    requires NoneSkipped(words, size, start, index, nr, align)
    ensures NoneSkipped(words, size, start, i + 1, nr, align)
  {
    forall p | Candidate(words, size, start, nr, align, p) ensures i + 1 <= p {
      assert At(words, i);
    }
  }

  // Ranges

  /** `after` is `before` with the positions from `lo` to `hi` set to `v`. */
  ghost predicate Filled(before: seq<Word>, after: seq<Word>, lo: nat, hi: nat, v: bool) {
    && |after| == |before|
    && forall i :: 0 <= i < 64 * |before| ==> (At(after, i) <==> if lo <= i < hi then v else At(before, i))
  }

  lemma FilledMore(was: seq<Word>, before: seq<Word>, after: seq<Word>, a: nat, b: nat, c: nat, v: bool)
    requires a <= b <= c && Filled(was, before, a, b, v) && Filled(before, after, b, c, v)
    ensures Filled(was, after, a, c, v)
  {
  }

  /** A change within one word. */
  lemma WordFilled(words: seq<Word>, k: nat, w: Word, lo: nat, hi: nat, v: bool)
    requires k < |words| && lo <= hi <= 64
    requires forall j :: 0 <= j < 64 ==> (Bit(w, j) <==> if lo <= j < hi then v else Bit(words[k], j))
    ensures Filled(words, words[k := w], 64 * k + lo, 64 * k + hi, v)
  {
    forall i | 0 <= i < 64 * |words|
      ensures At(words[k := w], i) <==> if 64 * k + lo <= i < 64 * k + hi then v else At(words, i)
    {
      if i / 64 == k {
        assert Bit(w, i % 64) <==> if lo <= i % 64 < hi then v else Bit(words[k], i % 64);
      }
    }
  }

  ghost predicate IsMask(m: Word, lo: nat, hi: nat) {
    forall j :: 0 <= j < 64 ==> (Bit(m, j) <==> lo <= j < hi)
  }

  lemma FirstMask(k: nat)
    requires k < 64
    ensures IsMask(From(k), k, 64)
  {
    forall j | 0 <= j < 64 ensures Bit(From(k), j) <==> k <= j < 64 {
      FromBits(k, j);
    }
  }

  lemma FullMask()
    ensures IsMask(ONES, 0, 64)
  {
    forall j | 0 <= j < 64 ensures Bit(ONES, j) {
      AllOnes(j);
    }
  }

  lemma MaskUpTo(m: Word, lo: nat, nbits: nat)
    requires IsMask(m, lo, 64) && nbits % 64 != 0
    ensures IsMask(And(m, LastMask(nbits)), lo, nbits % 64)
  {
    forall j | 0 <= j < 64 ensures Bit(And(m, LastMask(nbits)), j) <==> lo <= j < nbits % 64 {
      AndBits(m, LastMask(nbits), j);
      LastMaskBits(nbits, j);
    }
  }

  lemma SetsPlaces(words: seq<Word>, k: nat, m: Word, lo: nat, hi: nat)
    requires k < |words| && lo <= hi <= 64 && IsMask(m, lo, hi)
    ensures Filled(words, words[k := OrWord(words[k], m)], 64 * k + lo, 64 * k + hi, true)
  {
    forall j | 0 <= j < 64 ensures Bit(OrWord(words[k], m), j) <==> if lo <= j < hi then true else Bit(words[k], j) {
      OrBits(words[k], m, j);
    }
    WordFilled(words, k, OrWord(words[k], m), lo, hi, true);
  }

  lemma ClearsPlaces(words: seq<Word>, k: nat, m: Word, lo: nat, hi: nat)
    requires k < |words| && lo <= hi <= 64 && IsMask(m, lo, hi)
    ensures Filled(words, words[k := And(words[k], Not(m))], 64 * k + lo, 64 * k + hi, false)
  {
    forall j | 0 <= j < 64 ensures Bit(And(words[k], Not(m)), j) <==> if lo <= j < hi then false else Bit(words[k], j) {
      AndBits(words[k], Not(m), j);
      NotBits(m, j);
    }
    WordFilled(words, k, And(words[k], Not(m)), lo, hi, false);
  }

  lemma SetsMore(was: seq<Word>, words: seq<Word>, k: nat, m: Word, start: nat, pos: nat, end: nat)
    requires k < |words| && start <= pos <= end && k == pos / 64 && end - pos <= 64 - pos % 64
    requires IsMask(m, pos % 64, pos % 64 + end - pos) && Filled(was, words, start, pos, true)
    ensures Filled(was, words[k := OrWord(words[k], m)], start, end, true)
  {
    SetsPlaces(words, k, m, pos % 64, pos % 64 + end - pos);
    FilledMore(was, words, words[k := OrWord(words[k], m)], start, pos, end, true);
  }

  lemma ClearsMore(was: seq<Word>, words: seq<Word>, k: nat, m: Word, start: nat, pos: nat, end: nat)
    requires k < |words| && start <= pos <= end && k == pos / 64 && end - pos <= 64 - pos % 64
    requires IsMask(m, pos % 64, pos % 64 + end - pos) && Filled(was, words, start, pos, false)
    ensures Filled(was, words[k := And(words[k], Not(m))], start, end, false)
  {
    ClearsPlaces(words, k, m, pos % 64, pos % 64 + end - pos);
    FilledMore(was, words, words[k := And(words[k], Not(m))], start, pos, end, false);
  }

  /** bitmap_set. */
  method BitmapSet(bits: array<Word>, start: nat, nr: nat)
    requires start + nr <= 64 * bits.Length
    modifies bits
    ensures Filled(old(bits[..]), bits[..], start, start + nr, true)
  {
    var k, left, room := start / 64, nr, 64 - start % 64;
    var mask: Word := From(start % 64);
    FirstMask(start % 64);
    ghost var was := bits[..];
    ghost var pos := start;
    while left >= room
      invariant 0 <= left && start <= pos && pos + left == start + nr && k == pos / 64 && room == 64 - pos % 64
      invariant IsMask(mask, pos % 64, 64) && Filled(was, bits[..], start, pos, true)
    {
      SetsMore(was, bits[..], k, mask, start, pos, pos + room);
      bits[k] := OrWord(bits[k], mask);
      pos := pos + room;
      FullMask();
      k, left, room, mask := k + 1, left - room, 64, ONES;
    }
    if left != 0 {
      MaskUpTo(mask, pos % 64, start + nr);
      mask := And(mask, LastMask(start + nr));
      SetsMore(was, bits[..], k, mask, start, pos, start + nr);
      bits[k] := OrWord(bits[k], mask);
    }
  }

  /** bitmap_clear. */
  method BitmapClear(bits: array<Word>, start: nat, nr: nat)
    requires start + nr <= 64 * bits.Length
    modifies bits
    ensures Filled(old(bits[..]), bits[..], start, start + nr, false)
  {
    var k, left, room := start / 64, nr, 64 - start % 64;
    var mask: Word := From(start % 64);
    FirstMask(start % 64);
    ghost var was := bits[..];
    ghost var pos := start;
    while left >= room
      invariant 0 <= left && start <= pos && pos + left == start + nr && k == pos / 64 && room == 64 - pos % 64
      invariant IsMask(mask, pos % 64, 64) && Filled(was, bits[..], start, pos, false)
    {
      ClearsMore(was, bits[..], k, mask, start, pos, pos + room);
      bits[k] := And(bits[k], Not(mask));
      pos := pos + room;
      FullMask();
      k, left, room, mask := k + 1, left - room, 64, ONES;
    }
    if left != 0 {
      MaskUpTo(mask, pos % 64, start + nr);
      mask := And(mask, LastMask(start + nr));
      ClearsMore(was, bits[..], k, mask, start, pos, start + nr);
      bits[k] := And(bits[k], Not(mask));
    }
  }

  /** Two bitmaps with the same bits are equal. */
  lemma SameBitmap(a: seq<Word>, b: seq<Word>)
    requires |a| == |b| && forall i :: 0 <= i < 64 * |a| ==> (At(a, i) <==> At(b, i))
    ensures a == b
  {
    forall k | 0 <= k < |a| ensures a[k] == b[k] {
      forall j | 0 <= j < 64 ensures Bit(a[k], j) <==> Bit(b[k], j) {
        AtPlace(a, k, j);
        AtPlace(b, k, j);
      }
      WordRange();
      SameBits(a[k], b[k], 64);
    }
  }

  /** Clearing undoes setting, on a range that was clear: every word is as before. */
  lemma ClearUndoesSet(a: seq<Word>, b: seq<Word>, c: seq<Word>, start: nat, nr: nat)
    requires start + nr <= 64 * |a| && AllAre(a, start, start + nr, false)
    requires Filled(a, b, start, start + nr, true) && Filled(b, c, start, start + nr, false)
    ensures c == a
  {
    SameBitmap(a, c);
  }

  /** bitmap_alloc_region: the first region that is free. */
  method AllocRegion(bits: array<Word>, size: nat, start: nat, nr: nat) returns (pos: nat)
    requires size <= 64 * bits.Length && 1 <= nr
    modifies bits
    ensures (forall p :: !Candidate(old(bits[..]), size, start, nr, 1, p)) ==> pos == 0 && bits[..] == old(bits[..])
    ensures forall p :: Candidate(old(bits[..]), size, start, nr, 1, p) ==>
              && Candidate(old(bits[..]), size, start, nr, 1, pos) && pos <= p
              && Filled(old(bits[..]), bits[..], pos, pos + nr, true)
  {
    pos := FindNextZeroArea(bits[..], size, start, nr, 1);
    if pos > size {
      return 0;
    }
    BitmapSet(bits, pos, nr);
  }

  /** bitmap_free_region. */
  method FreeRegion(bits: array<Word>, pos: nat, nr: nat)
    requires pos + nr <= 64 * bits.Length
    modifies bits
    ensures Filled(old(bits[..]), bits[..], pos, pos + nr, false)
  {
    BitmapClear(bits, pos, nr);
  }

  /** What the result of bitmap_alloc_region says: zero stands for failure, so the caller
      can tell success from failure exactly when the region at position 0 is not the one
      that was found. */
  lemma ZeroMeansFull(before: seq<Word>, size: nat, start: nat, nr: nat, pos: nat)
    requires size <= 64 * |before| && 1 <= nr
    requires (forall p :: !Candidate(before, size, start, nr, 1, p)) ==> pos == 0
    requires forall p :: Candidate(before, size, start, nr, 1, p) ==> Candidate(before, size, start, nr, 1, pos) && pos <= p
    ensures (pos == 0 <==> forall p :: !Candidate(before, size, start, nr, 1, p))
            <==> !(start == 0 && nr <= size && AllAre(before, 0, nr, false))
  {
    assert start == 0 && nr <= size && AllAre(before, 0, nr, false) <==> Candidate(before, size, start, nr, 1, 0);
  }
}

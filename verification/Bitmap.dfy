/**
 The bitmap library's searches for the next set or clear bit, a word at a time,
 and the loops built on them.  The reference meaning is one bit at a time.
 */
module Bitmap {
  import opened BitWords
  import opened WordRounding

  predicate BitAt(ws: seq<word>, n: nat)
    requires n < 64 * |ws|
  {
    Bit(ws[n / 64], n % 64)
  }

  // r is the first position from offset on, below size, whose bit is want; else size.
  ghost predicate IsFirst(ws: seq<word>, want: bool, size: nat, offset: nat, r: nat) {
    && size <= 64 * |ws|
    && if offset >= size then r == size
       else
         && offset <= r <= size
         && (forall j :: offset <= j < r ==> BitAt(ws, j) != want)
         && (r < size ==> BitAt(ws, r) == want)
  }

  // Bits from offset up to but not including end differ from want.
  ghost predicate NoneIn(ws: seq<word>, want: bool, offset: nat, end: nat) {
    end <= 64 * |ws| && forall j :: offset <= j < end ==> BitAt(ws, j) != want
  }

  // The bits of word p that lie in [offset, size) and equal want are exactly those of tmp.
  ghost predicate Filters(ws: seq<word>, want: bool, p: nat, offset: nat, size: nat, tmp: word) {
    p < |ws| && forall i :: 0 <= i < 64 ==> (Bit(tmp, i) <==> offset <= 64 * p + i < size && Bit(ws[p], i) == want)
  }

  // A filtered word holds the answer, or shows that the answer lies past it.
  lemma FoundInWord(ws: seq<word>, want: bool, p: nat, offset: nat, size: nat, tmp: word)
    requires Filters(ws, want, p, offset, size, tmp) && size <= 64 * |ws| && offset < 64 * (p + 1)
    requires NoneIn(ws, want, offset, 64 * p)
    ensures tmp != 0 ==> 64 * p + Ffs(tmp) < size && IsFirst(ws, want, size, offset, 64 * p + Ffs(tmp))
    ensures tmp == 0 ==> NoneIn(ws, want, offset, if 64 * (p + 1) <= size then 64 * (p + 1) else size)
  {
    if tmp != 0 {
      var r := 64 * p + Ffs(tmp);
      assert r / 64 == p && r % 64 == Ffs(tmp);
      forall j | offset <= j < r ensures BitAt(ws, j) != want {
        if j >= 64 * p {
          assert j / 64 == p && j % 64 == j - 64 * p;
          assert !Bit(tmp, j - 64 * p);
        }
      }
    } else {
      ZeroBits(tmp);
      forall j | offset <= j < size && j < 64 * (p + 1) ensures BitAt(ws, j) != want {
        if j >= 64 * p {
          assert j / 64 == p && j % 64 == j - 64 * p;
          assert !Bit(tmp, j - 64 * p);
        }
      }
    }
  }

  // ----- find_next_bit

  lemma FilterSet(ws: seq<word>, p: nat, offset: nat, size: nat, low: nat, high: nat)
    requires p < |ws| && low <= 64 && high <= 64
    requires offset <= 64 * p + low && (low > 0 ==> offset == 64 * p + low)
    requires 64 * p + high <= size && (high < 64 ==> size == 64 * p + high)
    ensures Filters(ws, true, p, offset, size, And(And(ws[p], Shl(ONES, low)), Shr(ONES, 64 - high)))
  {
    var tmp := And(And(ws[p], Shl(ONES, low)), Shr(ONES, 64 - high));
    forall i | 0 <= i < 64 ensures Bit(tmp, i) <==> offset <= 64 * p + i < size && Bit(ws[p], i) {
      BitAnd(And(ws[p], Shl(ONES, low)), Shr(ONES, 64 - high), i);
      BitAnd(ws[p], Shl(ONES, low), i);
      HighMask(low, i);
      LowMask(high, i);
    }
  }

  lemma AndOnes(x: word)
    ensures And(x, ONES) == x
  {
    WordIsPow2();
    AndOnesNat(x, 64);
  }

  lemma FilterSetFull(ws: seq<word>, p: nat, offset: nat, size: nat, low: nat)
    requires p < |ws| && low <= 64 && 64 * (p + 1) <= size
    requires offset <= 64 * p + low && (low > 0 ==> offset == 64 * p + low)
    ensures Filters(ws, true, p, offset, size, And(ws[p], Shl(ONES, low)))
  {
    FilterSet(ws, p, offset, size, low, 64);
    AndOnes(And(ws[p], Shl(ONES, low)));
  }

  lemma FilterSetTail(ws: seq<word>, p: nat, offset: nat, size: nat, high: nat)
    requires p < |ws| && high < 64 && offset <= 64 * p && size == 64 * p + high
    ensures Filters(ws, true, p, offset, size, And(ws[p], Shr(ONES, 64 - high)))
  {
    FilterSet(ws, p, offset, size, 0, high);
    AndOnes(ws[p]);
  }

  // The last, partial word of the search: left bits of tmp count.
  method LastWordSet(ghost ws: seq<word>, ghost p: nat, ghost offset: nat, size: nat, tmp: word, left: nat, result: nat)
    returns (r: nat)
    requires size <= 64 * |ws| && result == 64 * p && result + left == size && left < 64 && offset < size
    requires NoneIn(ws, true, offset, result)
    requires Filters(ws, true, p, offset, size, And(tmp, Shr(ONES, 64 - left)))
    ensures IsFirst(ws, true, size, offset, r)
  {
    var masked := And(tmp, Shr(ONES, 64 - left));
    FoundInWord(ws, true, p, offset, size, masked);
    return if masked == 0 then result + left else result + Ffs(masked);
  }

  lemma WholeWordSet(ws: seq<word>, p: nat, offset: nat, size: nat)
    requires offset <= 64 * p && 64 * (p + 1) <= size <= 64 * |ws| && NoneIn(ws, true, offset, 64 * p)
    ensures ws[p] != 0 ==> 64 * p + Ffs(ws[p]) < size && IsFirst(ws, true, size, offset, 64 * p + Ffs(ws[p]))
    ensures ws[p] == 0 ==> NoneIn(ws, true, offset, 64 * (p + 1))
  {
    FilterSetFull(ws, p, offset, size, 0);
    AndOnes(ws[p]);
    FoundInWord(ws, true, p, offset, size, ws[p]);
  }

  // Whole words from p on.
  method ScanSet(addr: array<word>, size: word, ghost offset: nat, p0: nat) returns (r: nat)
    requires size <= 64 * addr.Length && offset <= 64 * p0 <= size && offset < size
    requires NoneIn(addr[..], true, offset, 64 * p0)
    ensures IsFirst(addr[..], true, size, offset, r)
  {
    ghost var ws := addr[..];
    var p, result := p0, 64 * p0;
    var left: word := size - 64 * p0;
    var whole := WholeWords(left);
    while whole != 0
      invariant whole == left - left % 64
      invariant result == 64 * p && result + left == size && offset <= result
      invariant NoneIn(ws, true, offset, result)
    {
      var tmp := addr[p];
      WholeWordSet(ws, p, offset, size);
      if tmp != 0 {
        return result + Ffs(tmp);
      }
      p := p + 1;
      result := result + 64;
      left := left - 64;
      whole := WholeWords(left);
    }
    if left == 0 {
      return result;
    }
    FilterSetTail(ws, p, offset, size, left);
    r := LastWordSet(ws, p, offset, size, addr[p], left, result);
  }

  /** The next set bit, found a word at a time whatever the bits past size are. */
  method FindNextBit(addr: array<word>, size: word, offset: word) returns (r: nat)
    requires size <= 64 * addr.Length
    ensures IsFirst(addr[..], true, size, offset, r)
  {
    if offset >= size {
      return size;
    }
    ghost var ws := addr[..];
    var p, bit := offset / 64, offset % 64;
    var result := WholeWords(offset);
    var left := size - result;
    if bit != 0 {
      var tmp := And(addr[p], Shl(ONES, bit));
      if left < 64 {
        FilterSet(ws, p, offset, size, bit, left);
        r := LastWordSet(ws, p, offset, size, tmp, left, result);
        return;
      }
      FilterSetFull(ws, p, offset, size, bit);
      FoundInWord(ws, true, p, offset, size, tmp);
      if tmp != 0 {
        return result + Ffs(tmp);
      }
      p := p + 1;
    }
    r := ScanSet(addr, size, offset, p);
  }

  // ----- find_next_zero_bit

  lemma FilterZero(ws: seq<word>, p: nat, offset: nat, size: nat, low: nat, high: nat)
    requires p < |ws| && low <= 64 && high <= 64
    requires offset <= 64 * p + low && (low > 0 ==> offset == 64 * p + low)
    requires 64 * p + high <= size && (high < 64 ==> size == 64 * p + high)
    ensures Filters(ws, false, p, offset, size, Not(Or(Or(ws[p], Shr(ONES, 64 - low)), Shl(ONES, high))))
  {
    var tmp := Or(Or(ws[p], Shr(ONES, 64 - low)), Shl(ONES, high));
    forall i | 0 <= i < 64 ensures Bit(Not(tmp), i) <==> offset <= 64 * p + i < size && !Bit(ws[p], i) {
      BitNot(tmp, i);
      BitOr(Or(ws[p], Shr(ONES, 64 - low)), Shl(ONES, high), i);
      BitOr(ws[p], Shr(ONES, 64 - low), i);
      LowMask(low, i);
      HighMask(high, i);
    }
  }

  lemma {:induction false} OrZero(x: nat)
    ensures OrNat(x, 0) == x
  {
    if x > 0 {
      OrZero(x / 2);
    }
  }

  lemma EmptyMasks()
    ensures Shl(ONES, 64) == 0 && Shr(ONES, 64) == 0
  {
    forall i | 0 <= i < 64 ensures !Bit(Shl(ONES, 64), i) && !Bit(Shr(ONES, 64), i) {
      HighMask(64, i);
      LowMask(0, i);
    }
    ZeroBits(Shl(ONES, 64));
    ZeroBits(Shr(ONES, 64));
  }

  lemma FilterZeroFull(ws: seq<word>, p: nat, offset: nat, size: nat, low: nat)
    requires p < |ws| && low <= 64 && 64 * (p + 1) <= size
    requires offset <= 64 * p + low && (low > 0 ==> offset == 64 * p + low)
    ensures Filters(ws, false, p, offset, size, Not(Or(ws[p], Shr(ONES, 64 - low))))
  {
    FilterZero(ws, p, offset, size, low, 64);
    EmptyMasks();
    OrZero(Or(ws[p], Shr(ONES, 64 - low)));
  }

  lemma FilterZeroTail(ws: seq<word>, p: nat, offset: nat, size: nat, high: nat)
    requires p < |ws| && high < 64 && offset <= 64 * p && size == 64 * p + high
    ensures Filters(ws, false, p, offset, size, Not(Or(ws[p], Shl(ONES, high))))
  {
    FilterZero(ws, p, offset, size, 0, high);
    EmptyMasks();
    OrZero(ws[p]);
  }

  method LastWordZero(ghost ws: seq<word>, ghost p: nat, ghost offset: nat, size: nat, tmp: word,
                      left: nat, result: nat)
    returns (r: nat)
    requires size <= 64 * |ws| && result == 64 * p && result + left == size && left < 64 && offset < size
    requires NoneIn(ws, false, offset, result)
    requires Filters(ws, false, p, offset, size, Not(Or(tmp, Shl(ONES, left))))
    ensures IsFirst(ws, false, size, offset, r)
  {
    var masked := Or(tmp, Shl(ONES, left));
    FoundInWord(ws, false, p, offset, size, Not(masked));
    return if masked == ONES then result + left else result + Ffz(masked);
  }

  lemma WholeWordZero(ws: seq<word>, p: nat, offset: nat, size: nat)
    requires offset <= 64 * p && 64 * (p + 1) <= size <= 64 * |ws| && NoneIn(ws, false, offset, 64 * p)
    ensures Not(ws[p]) != 0 ==> 64 * p + Ffz(ws[p]) < size && IsFirst(ws, false, size, offset, 64 * p + Ffz(ws[p]))
    ensures Not(ws[p]) == 0 ==> NoneIn(ws, false, offset, 64 * (p + 1))
  {
    FilterZeroWhole(ws, p, offset, size);
    FoundInWord(ws, false, p, offset, size, Not(ws[p]));
  }

  lemma FilterZeroWhole(ws: seq<word>, p: nat, offset: nat, size: nat)
    requires p < |ws| && offset <= 64 * p && 64 * (p + 1) <= size
    ensures Filters(ws, false, p, offset, size, Not(ws[p]))
  {
    FilterZeroFull(ws, p, offset, size, 0);
    OrNothing(ws[p]);
  }

  lemma OrNothing(x: word)
    ensures Or(x, Shr(ONES, 64)) == x
  {
    EmptyMasks();
    OrZero(x);
  }

  method ScanZero(addr: array<word>, size: word, ghost offset: nat, p0: nat) returns (r: nat)
    requires size <= 64 * addr.Length && offset <= 64 * p0 <= size && offset < size
    requires NoneIn(addr[..], false, offset, 64 * p0)
    ensures IsFirst(addr[..], false, size, offset, r)
  {
    ghost var ws := addr[..];
    var p, result := p0, 64 * p0;
    var left: word := size - 64 * p0;
    var whole := WholeWords(left);
    while whole != 0
      invariant whole == left - left % 64
      invariant result == 64 * p && result + left == size && offset <= result
      invariant NoneIn(ws, false, offset, result)
    {
      var tmp := addr[p];
      WholeWordZero(ws, p, offset, size);
      if Not(tmp) != 0 {
        return result + Ffz(tmp);
      }
      p := p + 1;
      result := result + 64;
      left := left - 64;
      whole := WholeWords(left);
    }
    if left == 0 {
      return result;
    }
    FilterZeroTail(ws, p, offset, size, left);
    r := LastWordZero(ws, p, offset, size, addr[p], left, result);
  }

  /** The next clear bit. */
  method FindNextZeroBit(addr: array<word>, size: word, offset: word) returns (r: nat)
    requires size <= 64 * addr.Length
    ensures IsFirst(addr[..], false, size, offset, r)
  {
    if offset >= size {
      return size;
    }
    ghost var ws := addr[..];
    var p, bit := offset / 64, offset % 64;
    var result := WholeWords(offset);
    var left := size - result;
    if bit != 0 {
      var tmp := Or(addr[p], Shr(ONES, 64 - bit));
      if left < 64 {
        FilterZero(ws, p, offset, size, bit, left);
        r := LastWordZero(ws, p, offset, size, tmp, left, result);
        return;
      }
      FilterZeroFull(ws, p, offset, size, bit);
      FoundInWord(ws, false, p, offset, size, Not(tmp));
      if Not(tmp) != 0 {
        return result + Ffz(tmp);
      }
      p := p + 1;
    }
    r := ScanZero(addr, size, offset, p);
  }

  // ----- for_each_set_bit_from and for_each_clear_bit_from

  // xs lists, in increasing order, exactly the positions in [from, end) whose bit is want.
  ghost predicate Visits(ws: seq<word>, want: bool, from: nat, end: nat, xs: seq<nat>) {
    && end <= 64 * |ws|
    && (forall i, j :: 0 <= i < j < |xs| ==> xs[i] < xs[j])
    && (forall i :: 0 <= i < |xs| ==> from <= xs[i] < end && BitAt(ws, xs[i]) == want)
    && (forall j :: from <= j < end && BitAt(ws, j) == want ==> j in xs)
  }

  // Appending the next position found.
  lemma VisitNext(ws: seq<word>, want: bool, from: nat, size: nat, xs: seq<nat>, bit: nat, next: nat)
    requires from <= bit < size <= 64 * |ws| && Visits(ws, want, from, bit, xs) && BitAt(ws, bit) == want
    requires IsFirst(ws, want, size, bit + 1, next)
    ensures Visits(ws, want, from, next, xs + [bit])
  {
    forall j | from <= j < next && BitAt(ws, j) == want ensures j in xs + [bit] {
      assert j < bit ==> j in xs;
    }
  }

  /** The loop visits each set bit from start on once, in increasing order. */
  method ForEachSetBitFrom(addr: array<word>, size: word, start: word) returns (visited: seq<nat>)
    requires size <= 64 * addr.Length
    ensures Visits(addr[..], true, start, size, visited)
  {
    visited := [];
    var bit := FindNextBit(addr, size, start);
    while bit < size
      invariant bit <= size && (start < size ==> start <= bit)
      invariant start >= size ==> bit == size && visited == []
      invariant start < size ==> Visits(addr[..], true, start, bit, visited)
      invariant bit < size ==> BitAt(addr[..], bit)
    {
      var next := FindNextBit(addr, size, bit + 1);
      VisitNext(addr[..], true, start, size, visited, bit, next);
      visited := visited + [bit];
      bit := next;
    }
  }

  method ForEachClearBitFrom(addr: array<word>, size: word, start: word) returns (visited: seq<nat>)
    requires size <= 64 * addr.Length
    ensures Visits(addr[..], false, start, size, visited)
  {
    visited := [];
    var bit := FindNextZeroBit(addr, size, start);
    while bit < size
      invariant bit <= size && (start < size ==> start <= bit)
      invariant start >= size ==> bit == size && visited == []
      invariant start < size ==> Visits(addr[..], false, start, bit, visited)
      invariant bit < size ==> !BitAt(addr[..], bit)
    {
      var next := FindNextZeroBit(addr, size, bit + 1);
      VisitNext(addr[..], false, start, size, visited, bit, next);
      visited := visited + [bit];
      bit := next;
    }
  }
}

/**
 When the pairs run out before slot 0 is reached, told from the symbols alone: always
 if there are fewer pairs than free slots, never if there are 256 different symbols.
 */
module TokenShortage {
  import opened Bytes
  import opened Pigeonhole
  import opened TokenCompression
  import opened TokenTable

  // ----- Fewer pairs than free slots

  // Adjacent pairs in all symbols, repetitions included.
  function PairsIn(syms: seq<seq<byte>>): nat {
    if syms == [] then 0 else (if syms[0] == [] then 0 else |syms[0]| - 1) + PairsIn(syms[1..])
  }

  // Slots below i that no character takes.
  function FreeSlots(bt: Table, i: nat): nat
    requires i <= 256
  {
    if i == 0 then 0 else FreeSlots(bt, i - 1) + if bt[i - 1].len == 0 then 1 else 0
  }

  lemma {:induction false} OccBound(s: seq<byte>, k: nat)
    ensures Occ(s, k) <= if s == [] then 0 else |s| - 1
  {
    if |s| >= 2 {
      OccBound(s[1..], k);
    }
  }

  lemma {:induction false} TotalBound(syms: seq<seq<byte>>, k: nat)
    ensures Total(syms, k) <= PairsIn(syms)
  {
    if syms != [] {
      OccBound(syms[0], k);
      TotalBound(syms[1..], k);
    }
  }

  lemma {:induction false} SubstShortens(s: seq<byte>, k: nat, c: byte)
    ensures s != [] ==> Subst(s, k, c) != []
    ensures Occ(s, k) > 0 ==> |Subst(s, k, c)| < |s|
  {
    if |s| >= 2 && Key(s[0], s[1]) != k {
      SubstShortens(s[1..], k, c);
    }
  }

  // Replacing a pair that occurs uses up a pair.
  lemma {:induction false} PairsShrink(syms: seq<seq<byte>>, k: nat, c: byte)
    ensures PairsIn(SubstAll(syms, k, c)) + (if Total(syms, k) > 0 then 1 else 0) <= PairsIn(syms)
  {
    if syms != [] {
      SubstShortens(syms[0], k, c);
      PairsShrink(syms[1..], k, c);
      assert SubstAll(syms, k, c)[1..] == SubstAll(syms[1..], k, c);
    }
  }

  lemma {:induction false} FreeSlotsKept(bt: Table, i: nat, c: byte, slot: Slot)
    requires i <= c
    ensures FreeSlots(bt[c := slot], i) == FreeSlots(bt, i)
  {
    if i > 0 {
      FreeSlotsKept(bt, i - 1, c, slot);
    }
  }

  lemma {:induction false} ScarceFillsDead(bt: Table, syms: seq<seq<byte>>, i: nat)
    requires 1 <= i <= 256 && bt[0].len == 0 && PairsIn(syms) < FreeSlots(bt, i)
    ensures Optimize(bt, syms, i).0[0] == DEAD
    decreases i
  {
    if bt[i - 1].len != 0 {
      ScarceFillsDead(bt, syms, i - 1);
    } else {
      var k := BestBelow(syms, PAIRS);
      ChosenPair(syms);
      TotalBound(syms, k);
      if Total(syms, k) == 0 {
        SpentFillsDead(bt, syms, i);
      } else {
        PairsShrink(syms, k, i - 1);
        FreeSlotsKept(bt, i - 1, i - 1, PairOf(k));
        ScarceFillsDead(bt[i - 1 := PairOf(k)], SubstAll(syms, k, i - 1), i - 1);
      }
    }
  }

  /** Too few pairs: with fewer adjacent pairs than slots free of characters, slot 0 gets the
      dead pair, and writing out the token table never ends. */
  lemma ScarcePairsDiverge(syms: seq<seq<byte>>, depth: nat)
    requires NulFree(syms) && PairsIn(syms) < FreeSlots(RealTable(syms), 256)
    ensures var (bt, _) := Compressed(syms);
      bt[0] == DEAD && ExpandTo(bt, SlotData(bt[0]), depth).TooDeep?
  {
    assert !Used(syms, 0);
    ScarceFillsDead(RealTable(syms), syms, 256);
    DeadDiverges(Compressed(syms).0, 0, depth);
  }

  lemma {:induction false} FreeSlotsGrow(bt: Table, i: nat, j: nat)
    requires i <= j <= 256
    ensures FreeSlots(bt, i) <= FreeSlots(bt, j)
    decreases j
  {
    if i < j {
      FreeSlotsGrow(bt, i, j - 1);
    }
  }

  /** For instance, a table whose one symbol is the text symbol "a", stored as "Ta". */
  lemma LoneSymbolDiverges(depth: nat)
    ensures NulFree([[84, 97]])
    ensures var (bt, _) := Compressed([[84, 97]]); ExpandTo(bt, SlotData(bt[0]), depth).TooDeep?
  {
    var syms: seq<seq<byte>> := [[84, 97]];
    var bt := RealTable(syms);
    assert syms[1..] == [] && PairsIn(syms) == 1;
    assert !Used(syms, 0) && !Used(syms, 1);
    assert FreeSlots(bt, 2) == FreeSlots(bt, 1) + 1 == 2;
    FreeSlotsGrow(bt, 2, 256);
    ScarcePairsDiverge(syms, depth);
  }

  // ----- Many different symbols

  // The symbols at pick are nonempty and stand for pairwise different texts.
  ghost predicate Different(bt: Table, syms: seq<seq<byte>>, pick: seq<nat>) {
    && (forall a :: 0 <= a < |pick| ==> pick[a] < |syms| && syms[pick[a]] != [] && AllOk(bt, syms[pick[a]]))
    && (forall a, b :: 0 <= a < b < |pick| ==> Expand(bt, syms[pick[a]]) != Expand(bt, syms[pick[b]]))
  }

  lemma SpentIsShort(syms: seq<seq<byte>>, j: nat)
    requires Spent(syms) && j < |syms|
    ensures |syms[j]| < 2
  {
    forall k | 0 <= k < PAIRS ensures Occ(syms[j], k) == 0 {
      TotalPositive(syms, k);
    }
    assert |syms[j]| >= 2 ==> Occ(syms[j], Key(syms[j][0], syms[j][1])) > 0;
  }

  // Different symbols of one code each, none of it 0.
  lemma OneCodeEach(xs: seq<seq<byte>>)
    requires forall a :: 0 <= a < |xs| ==> |xs[a]| == 1 && xs[a][0] != 0
    requires forall a, b :: 0 <= a < b < |xs| ==> xs[a] != xs[b]
    ensures |xs| < 256
  {
    var codes: seq<nat> := seq(|xs|, a requires 0 <= a < |xs| => xs[a][0] - 1);
    forall a, b | 0 <= a < b < |codes| ensures codes[a] != codes[b] {
      assert xs[a] == [xs[a][0]] && xs[b] == [xs[b][0]];
    }
    DistinctFits(codes, 255);
  }

  lemma OneCode(bt: Table, syms: seq<seq<byte>>, j: nat)
    requires Filled(bt, syms, 1) && Spent(syms) && j < |syms| && syms[j] != []
    ensures |syms[j]| == 1 && syms[j][0] != 0
  {
    SpentIsShort(syms, j);
    assert AllInUse(bt, 1, syms[j]);
  }

  // Symbols without a pair are at most as many as there are codes but 0.
  lemma CodesRunOut(bt: Table, syms: seq<seq<byte>>, pick: seq<nat>)
    requires Filled(bt, syms, 1) && Different(bt, syms, pick) && Spent(syms)
    ensures |pick| < 256
  {
    var xs := seq(|pick|, a requires 0 <= a < |pick| => syms[pick[a]]);
    forall a | 0 <= a < |xs| ensures |xs[a]| == 1 && xs[a][0] != 0 {
      OneCode(bt, syms, pick[a]);
    }
    forall a, b | 0 <= a < b < |xs| ensures xs[a] != xs[b] {
      assert Expand(bt, syms[pick[a]]) != Expand(bt, syms[pick[b]]);
    }
    OneCodeEach(xs);
  }

  // One turn of the loop keeps the texts, so different symbols stay different.
  lemma StayDifferent(bt: Table, syms: seq<seq<byte>>, i: nat, pick: seq<nat>)
    requires 1 <= i <= 256 && Filled(bt, syms, i) && bt[i - 1].len == 0 && Different(bt, syms, pick)
    ensures var k := BestBelow(syms, PAIRS);
      Different(bt[i - 1 := PairOf(k)], SubstAll(syms, k, i - 1), pick)
  {
    var k := BestBelow(syms, PAIRS);
    forall a | 0 <= a < |pick|
      ensures var bt', s' := bt[i - 1 := PairOf(k)], Subst(syms[pick[a]], k, i - 1);
        s' != [] && AllOk(bt', s') && Expand(bt', s') == Expand(bt, syms[pick[a]])
    {
      SubstShortens(syms[pick[a]], k, i - 1);
      FillMeaning(bt, syms, i, pick[a]);
    }
  }

  lemma {:induction false} ManyFillLive(bt: Table, syms: seq<seq<byte>>, i: nat, pick: seq<nat>)
    requires 1 <= i <= 256 && Filled(bt, syms, i) && Different(bt, syms, pick) && |pick| >= 256
    ensures Optimize(bt, syms, i).0[0] != DEAD
    decreases i
  {
    var k := BestBelow(syms, PAIRS);
    if bt[i - 1].len != 0 {
      SkipSingle(bt, syms, i);
      ManyFillLive(bt, syms, i - 1, pick);
    } else if i > 1 {
      FillStep(bt, syms, i);
      StayDifferent(bt, syms, i, pick);
      ManyFillLive(bt[i - 1 := PairOf(k)], SubstAll(syms, k, i - 1), i - 1, pick);
    } else {
      LastFillLive(bt, syms, pick);
    }
  }

  lemma LastFillLive(bt: Table, syms: seq<seq<byte>>, pick: seq<nat>)
    requires Filled(bt, syms, 1) && Different(bt, syms, pick) && |pick| >= 256 && bt[0].len == 0
    ensures PairOf(BestBelow(syms, PAIRS)) != DEAD
  {
    var k := BestBelow(syms, PAIRS);
    ChosenPair(syms);
    if Spent(syms) {
      CodesRunOut(bt, syms, pick);
    } else {
      OccurringPair(bt, syms, 1, k);
      FillOk(bt, 1, k);
    }
  }

  /** Enough symbols: with 256 different nonempty symbols the pairs last to the end, and
      writing out the token table ends. */
  lemma ManySymbolsTerminate(syms: seq<seq<byte>>, pick: seq<nat>)
    requires NulFree(syms) && |pick| >= 256
    requires forall a :: 0 <= a < |pick| ==> pick[a] < |syms| && syms[pick[a]] != []
    requires forall a, b :: 0 <= a < b < |pick| ==> syms[pick[a]] != syms[pick[b]]
    ensures var (bt, _) := Compressed(syms);
      bt[0] != DEAD && forall c: byte :: Terminates(bt, SlotData(bt[c]))
  {
    var bt := RealTable(syms);
    RealTableFilled(syms);
    forall j | 0 <= j < |syms| ensures AllOk(bt, syms[j]) && Expand(bt, syms[j]) == syms[j] {
      forall p | 0 <= p < |syms[j]| ensures Single(bt, syms[j][p]) {
        assert Used(syms, syms[j][p]);
      }
      ExpandCharacters(bt, syms[j]);
    }
    ManyFillLive(bt, syms, 256, pick);
    TokenTableTerminates(syms);
  }
}

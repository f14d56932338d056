/**
 The token table, its recursive expansion, and the greedy loop that fills it:
 losslessness, termination of the expansion, and uniqueness of the tokens.
 */
module TokenTable {
  import opened Bytes
  import opened TokenCompression

  // A slot holds the one character it stands for, a pair of codes, or nothing yet.
  datatype Slot = Slot(len: nat, fst: byte, snd: byte)

  const EMPTY := Slot(0, 0, 0)

  // The pair chosen when no pair occurs any more.
  const DEAD := Slot(2, 0, 0)

  type Table = bt: seq<Slot> | |bt| == 256 witness seq(256, _ => Slot(0, 0, 0))

  predicate Single(bt: Table, c: byte) {
    bt[c].fst == c && bt[c].len == 1
  }

  function PairOf(k: nat): Slot
    requires k < PAIRS
  {
    Slot(2, k % 256, k / 256)
  }

  // ----- Expansion

  function Rank(bt: Table, c: byte): nat {
    if Single(bt, c) then 0 else 256 - c
  }

  // c stands for itself, or for two codes each of which is a character or a larger such code.
  predicate Ok(bt: Table, c: byte)
    decreases Rank(bt, c)
  {
    || Single(bt, c)
    || (&& bt[c].len == 2
        && (Single(bt, bt[c].fst) || (bt[c].fst > c && Ok(bt, bt[c].fst)))
        && (Single(bt, bt[c].snd) || (bt[c].snd > c && Ok(bt, bt[c].snd))))
  }

  predicate AllOk(bt: Table, s: seq<byte>) {
    forall i :: 0 <= i < |s| ==> Ok(bt, s[i])
  }

  function ExpandCode(bt: Table, c: byte): (r: seq<byte>)
    requires Ok(bt, c)
    decreases Rank(bt, c)
  {
    if Single(bt, c) then [c] else ExpandCode(bt, bt[c].fst) + ExpandCode(bt, bt[c].snd)
  }

  function Expand(bt: Table, s: seq<byte>): (r: seq<byte>)
    requires AllOk(bt, s)
  {
    if s == [] then [] else ExpandCode(bt, s[0]) + Expand(bt, s[1..])
  }

  lemma {:induction false} ExpandConcat(bt: Table, s: seq<byte>, t: seq<byte>)
    requires AllOk(bt, s) && AllOk(bt, t)
    ensures AllOk(bt, s + t) && Expand(bt, s + t) == Expand(bt, s) + Expand(bt, t)
  {
    if s == [] {
      assert s + t == t;
    } else {
      ExpandConcat(bt, s[1..], t);
      assert (s + t)[1..] == s[1..] + t;
    }
  }

  // ----- Expansion as the recursion of the code runs it, to at most the given depth

  datatype Outcome = TooDeep | Done(text: seq<byte>)

  function SlotData(slot: Slot): seq<byte> {
    if slot.len == 0 then [] else if slot.len == 1 then [slot.fst] else [slot.fst, slot.snd]
  }

  function ExpandTo(bt: Table, data: seq<byte>, depth: nat): Outcome
    decreases depth, |data|
  {
    if data == [] then Done([])
    else
      var c := data[0];
      var first := if Single(bt, c) then Done([c])
                   else if depth == 0 then TooDeep
                   else ExpandTo(bt, SlotData(bt[c]), depth - 1);
      var rest := ExpandTo(bt, data[1..], depth);
      if first.TooDeep? || rest.TooDeep? then TooDeep else Done(first.text + rest.text)
  }

  // The recursion comes to an end.
  ghost predicate Terminates(bt: Table, data: seq<byte>) {
    exists depth :: ExpandTo(bt, data, depth).Done?
  }

  lemma ExpandOne(bt: Table, c: byte)
    requires Ok(bt, c)
    ensures Expand(bt, [c]) == ExpandCode(bt, c)
  {
    assert [c][1..] == [];
    assert ExpandCode(bt, c) + [] == ExpandCode(bt, c);
  }

  lemma PairExpands(bt: Table, c: byte)
    requires Ok(bt, c) && !Single(bt, c)
    ensures var pair := SlotData(bt[c]);
      && AllOk(bt, pair) && Expand(bt, pair) == ExpandCode(bt, c)
      && forall i :: 0 <= i < |pair| ==> Rank(bt, pair[i]) < Rank(bt, c)
  {
    var pair := [bt[c].fst, bt[c].snd];
    assert SlotData(bt[c]) == pair && pair[1..] == [bt[c].snd];
    ExpandOne(bt, bt[c].snd);
  }

  lemma {:induction false} ExpandToOk(bt: Table, data: seq<byte>, depth: nat)
    requires AllOk(bt, data)
    requires forall i :: 0 <= i < |data| ==> Rank(bt, data[i]) <= depth
    ensures ExpandTo(bt, data, depth) == Done(Expand(bt, data))
    decreases depth, |data|
  {
    if data != [] {
      var c, rest := data[0], data[1..];
      ExpandToOk(bt, rest, depth);
      assert Ok(bt, c) && Rank(bt, c) <= depth;
      if !Single(bt, c) {
        PairExpands(bt, c);
        ExpandToOk(bt, SlotData(bt[c]), depth - 1);
      }
    }
  }

  /** Codes in order expand to their meaning; the recursion is never deeper than 256. */
  lemma OkTerminates(bt: Table, data: seq<byte>)
    requires AllOk(bt, data)
    ensures ExpandTo(bt, data, 256) == Done(Expand(bt, data)) && Terminates(bt, data)
  {
    ExpandToOk(bt, data, 256);
  }

  /** A dead slot 0 sends the recursion into itself for ever. */
  lemma {:induction false} DeadDiverges(bt: Table, c: byte, depth: nat)
    requires bt[0] == DEAD && (c == 0 || bt[c] == DEAD)
    ensures ExpandTo(bt, SlotData(bt[c]), depth).TooDeep?
  {
    if depth > 0 {
      DeadDiverges(bt, 0, depth - 1);
    }
  }

  // ----- The greedy choice

  // The first key below n that is most frequent among them.
  function BestBelow(syms: seq<seq<byte>>, n: nat): (k: nat)
    requires n > 0
    ensures k < n
    ensures forall j :: 0 <= j < n ==> Total(syms, j) <= Total(syms, k)
    ensures forall j :: 0 <= j < k ==> Total(syms, j) < Total(syms, k)
  {
    if n == 1 then 0
    else
      var k := BestBelow(syms, n - 1);
      if Total(syms, n - 1) > Total(syms, k) then n - 1 else k
  }

  // Slots below i still to be filled, from i - 1 down to 0.
  function Optimize(bt: Table, syms: seq<seq<byte>>, i: nat): (Table, seq<seq<byte>>)
    requires i <= 256
    decreases i
  {
    if i == 0 then (bt, syms)
    else if bt[i - 1].len != 0 then Optimize(bt, syms, i - 1)
    else
      var k := BestBelow(syms, PAIRS);
      Optimize(bt[i - 1 := PairOf(k)], SubstAll(syms, k, i - 1), i - 1)
  }

  // ----- Filling one slot keeps every meaning

  // Filling the empty slot c changes neither the standing nor the meaning of a code in order.
  lemma {:induction false} FreshSlot(bt: Table, c: byte, slot: Slot, d: byte)
    requires bt[c].len == 0 && slot.len == 2 && Ok(bt, d)
    ensures var bt' := bt[c := slot];
      && d != c && Single(bt', d) == Single(bt, d)
      && Ok(bt', d) && ExpandCode(bt', d) == ExpandCode(bt, d)
    decreases Rank(bt, d)
  {
    if !Single(bt, d) {
      FreshSlot(bt, c, slot, bt[d].fst);
      FreshSlot(bt, c, slot, bt[d].snd);
    }
  }

  lemma {:induction false} ExpandFresh(bt: Table, c: byte, slot: Slot, s: seq<byte>)
    requires bt[c].len == 0 && slot.len == 2 && AllOk(bt, s)
    ensures var bt' := bt[c := slot]; AllOk(bt', s) && Expand(bt', s) == Expand(bt, s)
  {
    if s != [] {
      FreshSlot(bt, c, slot, s[0]);
      ExpandFresh(bt, c, slot, s[1..]);
    }
  }

  lemma ExpandPair(bt: Table, s: seq<byte>, c: byte)
    requires AllOk(bt, s) && |s| >= 2 && Ok(bt, c) && bt[c] == Slot(2, s[0], s[1])
    ensures Expand(bt, s) == ExpandCode(bt, c) + Expand(bt, s[2..])
  {
    assert s[1..][1..] == s[2..];
    var x, y, z := ExpandCode(bt, s[0]), ExpandCode(bt, s[1]), Expand(bt, s[2..]);
    assert Expand(bt, s[1..]) == y + z;
    assert x + (y + z) == (x + y) + z;
  }

  /** Replacing a pair by the code of a slot that holds it preserves the expansion. */
  lemma {:induction false} SubstPreservesMeaning(bt: Table, s: seq<byte>, k: nat, c: byte)
    requires k < PAIRS && bt[c] == PairOf(k) && Ok(bt, c) && AllOk(bt, s)
    ensures AllOk(bt, Subst(s, k, c)) && Expand(bt, Subst(s, k, c)) == Expand(bt, s)
  {
    if |s| >= 2 {
      if Key(s[0], s[1]) == k {
        SubstPreservesMeaning(bt, s[2..], k, c);
        ExpandPair(bt, s, c);
        ExpandCons(bt, c, Subst(s[2..], k, c));
      } else {
        SubstPreservesMeaning(bt, s[1..], k, c);
        ExpandCons(bt, s[0], Subst(s[1..], k, c));
      }
    }
  }

  lemma ExpandCons(bt: Table, c: byte, s: seq<byte>)
    requires Ok(bt, c) && AllOk(bt, s)
    ensures AllOk(bt, [c] + s) && Expand(bt, [c] + s) == ExpandCode(bt, c) + Expand(bt, s)
  {
    assert ([c] + s)[1..] == s;
  }

  // ----- The state of the greedy loop when slots i .. 255 have been visited

  predicate Spent(syms: seq<seq<byte>>) {
    forall k :: 0 <= k < PAIRS ==> Total(syms, k) == 0
  }

  // A code that may occur in a symbol: a character or a filled slot, never a dead one.
  predicate InUse(bt: Table, i: nat, c: byte) {
    Ok(bt, c) && (Single(bt, c) || c >= i)
  }

  predicate AllInUse(bt: Table, i: nat, s: seq<byte>) {
    forall p :: 0 <= p < |s| ==> InUse(bt, i, s[p])
  }

  ghost predicate Filled(bt: Table, syms: seq<seq<byte>>, i: nat) {
    Unvisited(bt, i) && SlotsOk(bt, syms, i) && NoRepeats(bt, i) && SymsInUse(bt, syms, i)
  }

  ghost predicate Unvisited(bt: Table, i: nat) {
    !Single(bt, 0) && forall c: byte :: c < i ==> Single(bt, c) || bt[c].len == 0
  }

  ghost predicate SlotsOk(bt: Table, syms: seq<seq<byte>>, i: nat) {
    forall c: byte :: c >= i && !Single(bt, c) ==> SlotOk(bt, syms, c)
  }

  ghost predicate NoRepeats(bt: Table, i: nat) {
    forall c: byte, d: byte :: i <= c < d && !Single(bt, c) && !Single(bt, d) && bt[c] == bt[d] ==> bt[c] == DEAD
  }

  ghost predicate SymsInUse(bt: Table, syms: seq<seq<byte>>, i: nat) {
    forall j :: 0 <= j < |syms| ==> AllInUse(bt, i, syms[j])
  }

  // A filled slot is in order unless pairs have run out; its pair no longer occurs.
  predicate SlotOk(bt: Table, syms: seq<seq<byte>>, c: byte) {
    && bt[c].len == 2
    && Total(syms, Key(bt[c].fst, bt[c].snd)) == 0
    && (Ok(bt, c) || (bt[c] == DEAD && Spent(syms)))
  }

  lemma {:induction false} SubstInUse(bt: Table, i: nat, s: seq<byte>, k: nat, c: byte)
    requires AllInUse(bt, i, s) && InUse(bt, i, c)
    ensures AllInUse(bt, i, Subst(s, k, c))
  {
    if |s| >= 2 {
      SubstInUse(bt, i, if Key(s[0], s[1]) == k then s[2..] else s[1..], k, c);
    }
  }

  lemma FreshInUse(bt: Table, i: nat, c: byte, slot: Slot, s: seq<byte>)
    requires bt[c].len == 0 && slot.len == 2 && AllInUse(bt, i, s) && i > 0
    ensures AllInUse(bt[c := slot], i - 1, s)
  {
    forall p | 0 <= p < |s| ensures InUse(bt[c := slot], i - 1, s[p]) {
      FreshSlot(bt, c, slot, s[p]);
    }
  }

  // A pair that occurs is made of codes in use.
  lemma OccurringPair(bt: Table, syms: seq<seq<byte>>, i: nat, k: nat)
    requires forall j :: 0 <= j < |syms| ==> AllInUse(bt, i, syms[j])
    requires k < PAIRS && Total(syms, k) > 0
    ensures InUse(bt, i, k % 256) && InUse(bt, i, k / 256)
  {
    TotalPositive(syms, k);
    var j :| 0 <= j < |syms| && Occ(syms[j], k) > 0;
    OccPositive(syms[j], k);
    var p :| 0 <= p < |syms[j]| - 1 && Key(syms[j][p], syms[j][p + 1]) == k;
    assert InUse(bt, i, syms[j][p]) && InUse(bt, i, syms[j][p + 1]);
  }

  // The chosen pair: the dead one exactly when nothing is left to choose.
  lemma ChosenPair(syms: seq<seq<byte>>)
    ensures var k := BestBelow(syms, PAIRS);
      if Total(syms, k) == 0 then Spent(syms) && k == 0 && PairOf(k) == DEAD else !Spent(syms)
  {
    var k := BestBelow(syms, PAIRS);
    assert k > 0 ==> Total(syms, 0) < Total(syms, k);
  }

  lemma SpentSubst(syms: seq<seq<byte>>, k: nat, c: byte)
    requires Spent(syms) && k < PAIRS
    ensures SubstAll(syms, k, c) == syms
  {
    TotalPositive(syms, k);
    forall j | 0 <= j < |syms| ensures Subst(syms[j], k, c) == syms[j] {
      SubstAbsent(syms[j], k, c);
    }
  }

  lemma FillDead(bt: Table, syms: seq<seq<byte>>, i: nat)
    requires 1 <= i <= 256 && Filled(bt, syms, i) && bt[i - 1].len == 0 && Spent(syms)
    ensures Filled(bt[i - 1 := DEAD], syms, i - 1)
  {
    var c, bt' := i - 1, bt[i - 1 := DEAD];
    forall d: byte | d >= i - 1 && !Single(bt', d) ensures SlotOk(bt', syms, d) {
      if d != c {
        assert SlotOk(bt, syms, d);
        if Ok(bt, d) {
          FreshSlot(bt, c, DEAD, d);
        }
      }
    }
    forall j | 0 <= j < |syms| ensures AllInUse(bt', i - 1, syms[j]) {
      FreshInUse(bt, i, c, DEAD, syms[j]);
    }
  }

  // The slot just filled with a pair that occurs is in order.
  lemma FillOk(bt: Table, i: nat, k: nat)
    requires 1 <= i <= 256 && bt[i - 1].len == 0 && k < PAIRS
    requires InUse(bt, i, k % 256) && InUse(bt, i, k / 256)
    ensures InUse(bt[i - 1 := PairOf(k)], i - 1, i - 1)
    ensures k % 256 != i - 1 && k / 256 != i - 1
  {
    FreshSlot(bt, i - 1, PairOf(k), k % 256);
    FreshSlot(bt, i - 1, PairOf(k), k / 256);
  }

  // A slot filled before stays in order, and its pair does not come back.
  lemma FillKeepsSlot(bt: Table, syms: seq<seq<byte>>, i: nat, k: nat, d: byte)
    requires 1 <= i <= 256 && bt[i - 1].len == 0 && k < PAIRS && !Spent(syms)
    requires d >= i && !Single(bt, d) && SlotOk(bt, syms, d)
    ensures SlotOk(bt[i - 1 := PairOf(k)], SubstAll(syms, k, i - 1), d)
  {
    FreshSlot(bt, i - 1, PairOf(k), d);
    FreshSlot(bt, i - 1, PairOf(k), bt[d].fst);
    FreshSlot(bt, i - 1, PairOf(k), bt[d].snd);
    TotalAfterSubst(syms, k, i - 1, Key(bt[d].fst, bt[d].snd));
  }

  lemma FillLiveSlots(bt: Table, syms: seq<seq<byte>>, i: nat, k: nat)
    requires 1 <= i <= 256 && SlotsOk(bt, syms, i) && bt[i - 1].len == 0
    requires k < PAIRS && Total(syms, k) > 0 && InUse(bt, i, k % 256) && InUse(bt, i, k / 256)
    ensures SlotsOk(bt[i - 1 := PairOf(k)], SubstAll(syms, k, i - 1), i - 1)
  {
    var c: byte, bt', syms' := i - 1, bt[i - 1 := PairOf(k)], SubstAll(syms, k, i - 1);
    FillOk(bt, i, k);
    TotalAfterSubst(syms, k, c, k);
    assert SlotOk(bt', syms', c);
    forall d: byte | d >= i && !Single(bt', d) ensures SlotOk(bt', syms', d) {
      FillKeepsSlot(bt, syms, i, k, d);
    }
  }

  // The pair given to slot i - 1 still occurs, so no slot filled before holds it.
  lemma FillNoRepeats(bt: Table, syms: seq<seq<byte>>, i: nat, k: nat)
    requires 1 <= i <= 256 && SlotsOk(bt, syms, i) && NoRepeats(bt, i)
    requires k < PAIRS && Total(syms, k) > 0
    ensures NoRepeats(bt[i - 1 := PairOf(k)], i - 1)
  {
    forall d: byte | d >= i && !Single(bt, d) ensures bt[d] != PairOf(k) {
      assert SlotOk(bt, syms, d);
    }
  }

  lemma FillLiveSyms(bt: Table, syms: seq<seq<byte>>, i: nat, k: nat)
    requires 1 <= i <= 256 && SymsInUse(bt, syms, i) && bt[i - 1].len == 0
    requires k < PAIRS && InUse(bt, i, k % 256) && InUse(bt, i, k / 256)
    ensures SymsInUse(bt[i - 1 := PairOf(k)], SubstAll(syms, k, i - 1), i - 1)
  {
    var c: byte, bt', syms' := i - 1, bt[i - 1 := PairOf(k)], SubstAll(syms, k, i - 1);
    FillOk(bt, i, k);
    forall j | 0 <= j < |syms'| ensures AllInUse(bt', i - 1, syms'[j]) {
      FreshInUse(bt, i, c, PairOf(k), syms[j]);
      SubstInUse(bt', i - 1, syms[j], k, c);
    }
  }

  /** One turn of the greedy loop on an empty slot keeps the table and the symbols in order. */
  lemma FillStep(bt: Table, syms: seq<seq<byte>>, i: nat)
    requires 1 <= i <= 256 && Filled(bt, syms, i) && bt[i - 1].len == 0
    ensures var k := BestBelow(syms, PAIRS);
      Filled(bt[i - 1 := PairOf(k)], SubstAll(syms, k, i - 1), i - 1)
  {
    var k := BestBelow(syms, PAIRS);
    ChosenPair(syms);
    if Total(syms, k) == 0 {
      SpentSubst(syms, k, i - 1);
      FillDead(bt, syms, i);
    } else {
      OccurringPair(bt, syms, i, k);
      FillLiveSlots(bt, syms, i, k);
      FillNoRepeats(bt, syms, i, k);
      FillLiveSyms(bt, syms, i, k);
    }
  }

  /** ... and keeps the expansion of every symbol. */
  lemma FillMeaning(bt: Table, syms: seq<seq<byte>>, i: nat, j: nat)
    requires 1 <= i <= 256 && Filled(bt, syms, i) && bt[i - 1].len == 0 && j < |syms|
    ensures AllOk(bt, syms[j])
    ensures var k := BestBelow(syms, PAIRS);
      var bt', s' := bt[i - 1 := PairOf(k)], Subst(syms[j], k, i - 1);
      AllOk(bt', s') && Expand(bt', s') == Expand(bt, syms[j])
  {
    var k := BestBelow(syms, PAIRS);
    assert AllInUse(bt, i, syms[j]);
    ChosenPair(syms);
    ExpandFresh(bt, i - 1, PairOf(k), syms[j]);
    if Total(syms, k) == 0 {
      SpentSubst(syms, k, i - 1);
      assert SubstAll(syms, k, i - 1)[j] == syms[j];
    } else {
      OccurringPair(bt, syms, i, k);
      FillOk(bt, i, k);
      SubstPreservesMeaning(bt[i - 1 := PairOf(k)], syms[j], k, i - 1);
    }
  }

  // ----- The whole loop

  // A slot taken by a character is passed over.
  lemma SkipSingle(bt: Table, syms: seq<seq<byte>>, i: nat)
    requires 1 <= i <= 256 && Filled(bt, syms, i) && bt[i - 1].len != 0
    ensures Filled(bt, syms, i - 1)
  {
    var c: byte := i - 1;
    assert Single(bt, c);
    forall j | 0 <= j < |syms| ensures AllInUse(bt, i - 1, syms[j]) {
      assert AllInUse(bt, i, syms[j]);
    }
  }

  lemma {:induction false} OptimizeFills(bt: Table, syms: seq<seq<byte>>, i: nat)
    requires i <= 256 && Filled(bt, syms, i)
    ensures var (bt', syms') := Optimize(bt, syms, i); Filled(bt', syms', 0) && |syms'| == |syms|
    decreases i
  {
    if i > 0 && bt[i - 1].len != 0 {
      SkipSingle(bt, syms, i);
      OptimizeFills(bt, syms, i - 1);
    } else if i > 0 {
      FillStep(bt, syms, i);
      var k := BestBelow(syms, PAIRS);
      OptimizeFills(bt[i - 1 := PairOf(k)], SubstAll(syms, k, i - 1), i - 1);
    }
  }

  lemma {:induction false} OptimizeMeaning(bt: Table, syms: seq<seq<byte>>, i: nat, j: nat)
    requires i <= 256 && Filled(bt, syms, i) && j < |syms|
    ensures AllOk(bt, syms[j])
    ensures var (bt', syms') := Optimize(bt, syms, i);
      j < |syms'| && AllOk(bt', syms'[j]) && Expand(bt', syms'[j]) == Expand(bt, syms[j])
    decreases i
  {
    assert AllInUse(bt, i, syms[j]);
    if i > 0 && bt[i - 1].len != 0 {
      SkipSingle(bt, syms, i);
      OptimizeMeaning(bt, syms, i - 1, j);
    } else if i > 0 {
      FillStep(bt, syms, i);
      FillMeaning(bt, syms, i, j);
      var k := BestBelow(syms, PAIRS);
      OptimizeMeaning(bt[i - 1 := PairOf(k)], SubstAll(syms, k, i - 1), i - 1, j);
    }
  }

  predicate Used(syms: seq<seq<byte>>, c: byte) {
    exists j :: 0 <= j < |syms| && c in syms[j]
  }

  predicate NulFree(syms: seq<seq<byte>>) {
    forall j :: 0 <= j < |syms| ==> 0 !in syms[j]
  }

  // The table before the loop: every character in use stands for itself.
  function RealTable(syms: seq<seq<byte>>): Table {
    seq(256, c requires 0 <= c < 256 => if Used(syms, c) then Slot(1, c, 0) else EMPTY)
  }

  lemma RealTableFilled(syms: seq<seq<byte>>)
    requires NulFree(syms)
    ensures Filled(RealTable(syms), syms, 256)
  {
    var bt := RealTable(syms);
    forall j | 0 <= j < |syms| ensures AllInUse(bt, 256, syms[j]) {
      forall p | 0 <= p < |syms[j]| ensures Single(bt, syms[j][p]) {
        assert Used(syms, syms[j][p]);
      }
    }
  }

  lemma {:induction false} ExpandCharacters(bt: Table, s: seq<byte>)
    requires forall p :: 0 <= p < |s| ==> Single(bt, s[p])
    ensures AllOk(bt, s) && Expand(bt, s) == s
  {
    if s != [] {
      ExpandCharacters(bt, s[1..]);
      assert s == [s[0]] + s[1..];
    }
  }

  /** The result of the compressor on a table of symbols. */
  function Compressed(syms: seq<seq<byte>>): (Table, seq<seq<byte>>) {
    Optimize(RealTable(syms), syms, 256)
  }

  // The loop fills the slots that were empty and no others.
  lemma {:induction false} OptimizeSlots(bt: Table, syms: seq<seq<byte>>, i: nat, c: byte)
    requires i <= 256
    ensures var bt' := Optimize(bt, syms, i).0;
      if c < i && bt[c].len == 0 then bt'[c].len == 2 else bt'[c] == bt[c]
    decreases i
  {
    if i > 0 && bt[i - 1].len != 0 {
      OptimizeSlots(bt, syms, i - 1, c);
    } else if i > 0 {
      var k := BestBelow(syms, PAIRS);
      OptimizeSlots(bt[i - 1 := PairOf(k)], SubstAll(syms, k, i - 1), i - 1, c);
    }
  }

  /** In the finished table exactly the characters that occur in a symbol stand for themselves,
      and every other slot has been given a pair. */
  lemma CharactersKept(syms: seq<seq<byte>>, c: byte)
    ensures var bt := Compressed(syms).0;
      && (Single(bt, c) <==> exists j :: 0 <= j < |syms| && c in syms[j])
      && (!Single(bt, c) ==> bt[c].len == 2)
  {
    OptimizeSlots(RealTable(syms), syms, 256, c);
    assert Used(syms, c) <==> exists j :: 0 <= j < |syms| && c in syms[j];
  }

  // The table and the symbols when the slots from i - 1 down to stop have been visited.
  function OptimizeTo(bt: Table, syms: seq<seq<byte>>, i: nat, stop: nat): (Table, seq<seq<byte>>)
    requires stop <= i <= 256
    decreases i
  {
    if i == stop then (bt, syms)
    else if bt[i - 1].len != 0 then OptimizeTo(bt, syms, i - 1, stop)
    else
      var k := BestBelow(syms, PAIRS);
      OptimizeTo(bt[i - 1 := PairOf(k)], SubstAll(syms, k, i - 1), i - 1, stop)
  }

  lemma {:induction false} OptimizeResumes(bt: Table, syms: seq<seq<byte>>, i: nat, stop: nat)
    requires stop <= i <= 256
    ensures var (bt', syms') := OptimizeTo(bt, syms, i, stop); Optimize(bt', syms', stop) == Optimize(bt, syms, i)
    ensures forall c: byte :: c < stop ==> OptimizeTo(bt, syms, i, stop).0[c] == bt[c]
    decreases i
  {
    if i > stop && bt[i - 1].len != 0 {
      OptimizeResumes(bt, syms, i - 1, stop);
    } else if i > stop {
      var k := BestBelow(syms, PAIRS);
      OptimizeResumes(bt[i - 1 := PairOf(k)], SubstAll(syms, k, i - 1), i - 1, stop);
    }
  }

  /** Every pair in the finished table was the first of the most frequent ones among the symbols
      as they were when its slot was reached. */
  lemma GreedyChoice(syms: seq<seq<byte>>, c: byte)
    requires !Used(syms, c)
    ensures var bt, mid := Compressed(syms).0, OptimizeTo(RealTable(syms), syms, 256, c + 1).1;
      && bt[c].len == 2
      && (forall j :: 0 <= j < PAIRS ==> Total(mid, j) <= Total(mid, Key(bt[c].fst, bt[c].snd)))
      && (forall j :: 0 <= j < Key(bt[c].fst, bt[c].snd) ==> Total(mid, j) < Total(mid, Key(bt[c].fst, bt[c].snd)))
  {
    var (bt, mid) := OptimizeTo(RealTable(syms), syms, 256, c + 1);
    OptimizeResumes(RealTable(syms), syms, 256, c + 1);
    assert RealTable(syms)[c] == EMPTY && bt[c].len == 0;
    var k := BestBelow(mid, PAIRS);
    OptimizeSlots(bt[c := PairOf(k)], SubstAll(mid, k, c), c, c);
    assert Compressed(syms).0[c] == PairOf(k);
    assert Key(k % 256, k / 256) == k;
  }

  /** Losslessness: expanding a compressed symbol gives back exactly its bytes. */
  lemma Lossless(syms: seq<seq<byte>>, j: nat)
    requires NulFree(syms) && j < |syms|
    ensures var (bt, packed) := Compressed(syms);
      && |packed| == |syms| && AllOk(bt, packed[j]) && Expand(bt, packed[j]) == syms[j]
      && ExpandTo(bt, packed[j], 256) == Done(syms[j])
  {
    var bt0 := RealTable(syms);
    RealTableFilled(syms);
    OptimizeFills(bt0, syms, 256);
    OptimizeMeaning(bt0, syms, 256, j);
    forall p | 0 <= p < |syms[j]| ensures Single(bt0, syms[j][p]) {
      assert Used(syms, syms[j][p]);
    }
    ExpandCharacters(bt0, syms[j]);
    var (bt, packed) := Compressed(syms);
    OkTerminates(bt, packed[j]);
  }

  lemma LosslessAll(syms: seq<seq<byte>>)
    requires NulFree(syms)
    ensures var (bt, packed) := Compressed(syms);
      |packed| == |syms| && forall j :: 0 <= j < |syms| ==> ExpandTo(bt, packed[j], 256) == Done(syms[j])
  {
    RealTableFilled(syms);
    OptimizeFills(RealTable(syms), syms, 256);
    var (bt, packed) := Compressed(syms);
    forall j | 0 <= j < |syms| ensures ExpandTo(bt, packed[j], 256) == Done(syms[j]) {
      Lossless(syms, j);
    }
  }

  /** No pair that occurred is ever given two codes, and no tokenised pair is left. */
  lemma TokensUnique(syms: seq<seq<byte>>, c: byte, d: byte)
    requires NulFree(syms)
    ensures var (bt, packed) := Compressed(syms);
      && (!Single(bt, c) ==> bt[c].len == 2 && Total(packed, Key(bt[c].fst, bt[c].snd)) == 0)
      && (c < d && !Single(bt, c) && !Single(bt, d) && bt[c] == bt[d] ==> bt[c] == DEAD)
  {
    RealTableFilled(syms);
    OptimizeFills(RealTable(syms), syms, 256);
    var (bt, packed) := Compressed(syms);
    assert !Single(bt, c) ==> SlotOk(bt, packed, c);
  }

  // Once the loop is done either slot 0 is dead or every slot is in order.
  lemma {:induction false} DeadOrOk(bt: Table, syms: seq<seq<byte>>, i: nat)
    requires 1 <= i <= 256 && Filled(bt, syms, i)
    ensures var (bt', _) := Optimize(bt, syms, i); bt'[0] == DEAD || forall c: byte :: Ok(bt', c)
    decreases i
  {
    var k := BestBelow(syms, PAIRS);
    if bt[i - 1].len != 0 {
      SkipSingle(bt, syms, i);
      DeadOrOk(bt, syms, i - 1);
    } else if i > 1 {
      FillStep(bt, syms, i);
      DeadOrOk(bt[i - 1 := PairOf(k)], SubstAll(syms, k, i - 1), i - 1);
    } else {
      ChosenPair(syms);
      if Total(syms, k) > 0 {
        OccurringPair(bt, syms, 1, k);
        FillOk(bt, 1, k);
        var bt' := bt[0 := PairOf(k)];
        forall c: byte | c != 0 ensures Ok(bt', c) {
          assert Single(bt, c) || SlotOk(bt, syms, c);
          FreshSlot(bt, 0, PairOf(k), c);
        }
      }
    }
  }

  /** Writing out the token table expands every slot.  That comes to an end exactly when
      slot 0 did not get the dead pair, that is, when pairs lasted to the end. */
  lemma TokenTableTerminates(syms: seq<seq<byte>>)
    requires NulFree(syms)
    ensures var (bt, _) := Compressed(syms);
      (forall c: byte :: Terminates(bt, SlotData(bt[c]))) <==> bt[0] != DEAD
  {
    RealTableFilled(syms);
    OptimizeFills(RealTable(syms), syms, 256);
    DeadOrOk(RealTable(syms), syms, 256);
    var (bt, packed) := Compressed(syms);
    if bt[0] == DEAD {
      forall depth: nat ensures ExpandTo(bt, SlotData(bt[0]), depth).TooDeep? {
        DeadDiverges(bt, 0, depth);
      }
      assert !Terminates(bt, SlotData(bt[0]));
    } else {
      assert forall c: byte :: Ok(bt, c);
      forall c: byte ensures Terminates(bt, SlotData(bt[c])) {
        assert Ok(bt, c);
        if Single(bt, c) {
          assert SlotData(bt[c]) == [c];
          OkTerminates(bt, [c]);
        } else {
          PairExpands(bt, c);
          OkTerminates(bt, SlotData(bt[c]));
        }
      }
    }
  }

  lemma {:induction false} SpentFillsDead(bt: Table, syms: seq<seq<byte>>, i: nat)
    requires 1 <= i <= 256 && Spent(syms) && bt[0].len == 0
    ensures Optimize(bt, syms, i).0[0] == DEAD
    decreases i
  {
    var k := BestBelow(syms, PAIRS);
    if bt[i - 1].len != 0 {
      SpentFillsDead(bt, syms, i - 1);
    } else {
      ChosenPair(syms);
      SpentSubst(syms, k, i - 1);
      if i > 1 {
        SpentFillsDead(bt[i - 1 := DEAD], syms, i - 1);
      }
    }
  }
}

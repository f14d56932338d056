/**
 The compressor as it runs: symbol buffers rewritten in place, pair counts kept
 up to date, and the token table filled slot by slot.
 */
module Kallsyms {
  import opened Bytes
  import opened Selection
  import opened TokenCompression
  import opened TokenTable

  // ----- Byte buffers

  // First position in buf[from .. from + size] where the pair k starts, or -1.
  method Memmem(buf: array<byte>, from: nat, size: nat, k: nat) returns (p: int)
    requires from + size <= buf.Length
    ensures p == -1 || from <= p < from + size - 1
    ensures p != -1 ==> Key(buf[p], buf[p + 1]) == k
    ensures forall q :: from <= q < (if p == -1 then from + size - 1 else p) ==> Key(buf[q], buf[q + 1]) != k
  {
    p := from;
    while p + 1 < from + size
      invariant from <= p <= from + size
      invariant forall q :: from <= q < p && q + 1 < from + size ==> Key(buf[q], buf[q + 1]) != k
    {
      if Key(buf[p], buf[p + 1]) == k {
        return;
      }
      p := p + 1;
    }
    p := -1;
  }

  // Shifts n bytes down by one place, from dst + 1 to dst.
  method MoveDown(buf: array<byte>, dst: nat, n: nat)
    requires dst + 1 + n <= buf.Length
    modifies buf
    ensures forall q :: dst <= q < dst + n ==> buf[q] == old(buf[q + 1])
    ensures forall q :: 0 <= q < buf.Length && !(dst <= q < dst + n) ==> buf[q] == old(buf[q])
  {
    var i := 0;
    while i < n
      invariant 0 <= i <= n
      invariant forall q :: dst <= q < dst + i ==> buf[q] == old(buf[q + 1])
      invariant forall q :: 0 <= q < buf.Length && !(dst <= q < dst + i) ==> buf[q] == old(buf[q])
    {
      buf[dst + i] := buf[dst + i + 1];
      i := i + 1;
    }
  }

  lemma NoOccurrence(s: seq<byte>, k: nat)
    requires forall q :: 0 <= q < |s| - 1 ==> Key(s[q], s[q + 1]) != k
    ensures Occ(s, k) == 0
  {
    OccPositive(s, k);
  }

  // Writes c over the first byte of the pair at p and closes the gap up to and including buf[len].
  method ReplacePair(buf: array<byte>, p: nat, len: nat, c: byte)
    requires p + 1 < len < buf.Length
    modifies buf
    ensures buf[..] == Closed(old(buf[..]), p, len, c)
  {
    buf[p] := c;
    MoveDown(buf, p + 1, len - (p + 1));
    ghost var r := Closed(old(buf[..]), p, len, c);
    forall q | 0 <= q < buf.Length ensures buf[q] == r[q] {
      assert q <= p ==> r[q] == r[..p + 1][q];
      assert q >= len ==> r[q] == r[len..][q - len];
    }
  }

  // The symbol s of a buffer of b0 with p1 bytes of output and n - p1 bytes to go.
  ghost predicate Halfway(b: seq<byte>, b0: seq<byte>, len: nat, p1: nat, n: nat, k: nat, c: byte) {
    && p1 <= n <= len < |b| == |b0|
    && (forall q :: n <= q <= len ==> b[q] == 0)
    && b[..p1] + Subst(b[p1..n], k, c) == Subst(b0[..len], k, c)
    && b[len + 1..] == b0[len + 1..]
  }

  // The buffer once the pair at p has been replaced and the gap closed up to len.
  function Closed(b: seq<byte>, p: nat, len: nat, c: byte): (r: seq<byte>)
    requires p + 1 < len < |b|
    ensures |r| == |b| && r[..p + 1] == b[..p] + [c] && r[len..] == b[len..]
    ensures forall q :: p + 1 <= q < len ==> r[q] == b[q + 1]
  {
    b[..p] + [c] + b[p + 2..len + 1] + b[len..]
  }

  lemma ClosedParts(b: seq<byte>, p: nat, n: nat, len: nat, c: byte)
    requires p + 1 < n <= len < |b| && forall q :: n <= q <= len ==> b[q] == 0
    ensures var r := Closed(b, p, len, c);
      && r[p + 1..n - 1] == b[p + 2..n] && r[len + 1..] == b[len + 1..]
      && forall q :: n - 1 <= q <= len ==> r[q] == 0
  {
    var r := Closed(b, p, len, c);
    assert r[len] == r[len..][0] && r[len + 1..] == r[len..][1..];
  }

  lemma SubstAcross(head: seq<byte>, rest: seq<byte>, k: nat, c: byte, p: nat)
    requires p + 1 < |rest| && Key(rest[p], rest[p + 1]) == k
    requires forall q :: 0 <= q < p ==> Key(rest[q], rest[q + 1]) != k
    ensures head + Subst(rest, k, c) == (head + rest[..p] + [c]) + Subst(rest[p + 2..], k, c)
  {
    SubstFirst(rest, k, c, p);
  }

  lemma HalfwayStep(b: seq<byte>, b0: seq<byte>, len: nat, p1: nat, n: nat, k: nat, c: byte, p: nat)
    requires Halfway(b, b0, len, p1, n, k, c)
    requires p1 <= p && p + 1 < n && Key(b[p], b[p + 1]) == k
    requires forall q :: p1 <= q < p ==> Key(b[q], b[q + 1]) != k
    ensures Halfway(Closed(b, p, len, c), b0, len, p + 1, n - 1, k, c)
  {
    ClosedParts(b, p, n, len, c);
    SubstInside(b, p1, n, k, c, p);
  }

  lemma SubstInside(b: seq<byte>, p1: nat, n: nat, k: nat, c: byte, p: nat)
    requires p1 <= p && p + 1 < n <= |b| && Key(b[p], b[p + 1]) == k
    requires forall q :: p1 <= q < p ==> Key(b[q], b[q + 1]) != k
    ensures b[..p1] + Subst(b[p1..n], k, c) == (b[..p] + [c]) + Subst(b[p + 2..n], k, c)
  {
    var rest, at := b[p1..n], p - p1;
    forall q | 0 <= q < at ensures Key(rest[q], rest[q + 1]) != k {
      assert rest[q] == b[p1 + q] && rest[q + 1] == b[p1 + q + 1];
    }
    SubstAcross(b[..p1], rest, k, c, at);
    SplitInside(b, p1, n, p);
  }

  lemma SplitInside(b: seq<byte>, p1: nat, n: nat, p: nat)
    requires p1 <= p && p + 1 < n <= |b|
    ensures b[p1..n][p - p1 + 2..] == b[p + 2..n] && b[..p1] + b[p1..n][..p - p1] == b[..p]
  {
  }

  method ReplaceNext(sym: array<byte>, ghost b0: seq<byte>, len: nat, ghost p1: nat, ghost n: nat,
                     ghost k: nat, c: byte, p: nat)
    requires Halfway(sym[..], b0, len, p1, n, k, c)
    requires p1 <= p && p + 1 < n && Key(sym[p], sym[p + 1]) == k
    requires forall q :: p1 <= q < p ==> Key(sym[q], sym[q + 1]) != k
    modifies sym
    ensures Halfway(sym[..], b0, len, p + 1, n - 1, k, c)
  {
    HalfwayStep(sym[..], b0, len, p1, n, k, c, p);
    ReplacePair(sym, p, len, c);
  }

  lemma HalfwayStart(b: seq<byte>, len: nat, k: nat, c: byte)
    requires len < |b| && b[len] == 0
    ensures Halfway(b, b, len, 0, len, k, c)
  {
    assert b[..0] == [] && b[0..len] == b[..len];
  }

  lemma HalfwayDone(b: seq<byte>, b0: seq<byte>, len: nat, p1: nat, n: nat, k: nat, c: byte)
    requires Halfway(b, b0, len, p1, n, k, c)
    requires forall q :: p1 <= q < n - 1 ==> Key(b[q], b[q + 1]) != k
    ensures b[..n] == Subst(b0[..len], k, c) && b[n] == 0
    ensures forall q :: len < q < |b| ==> b[q] == b0[q]
  {
    NoOccurrence(b[p1..n], k);
    SubstAbsent(b[p1..n], k, c);
    assert b[..n] == b[..p1] + b[p1..n];
    forall q | len < q < |b| ensures b[q] == b0[q] {
      assert b[q] == b[len + 1..][q - len - 1];
    }
  }

  /** Replaces every occurrence of the pair k by the code c, in place.  The searched size keeps
      the original end, so after the first hit the search runs over the zero bytes that
      trail the shrinking symbol. */
  method SubstituteInPlace(sym: array<byte>, len: nat, k: nat, c: byte) returns (newLen: nat)
    requires len < sym.Length && sym[len] == 0 && k < PAIRS
    requires (k % 256 != 0 && k / 256 != 0) || 0 !in sym[..len]
    modifies sym
    ensures newLen <= len && sym[newLen] == 0
    ensures sym[..newLen] == Subst(old(sym[..len]), k, c)
    ensures forall q :: len < q < sym.Length ==> sym[q] == old(sym[q])
  {
    ghost var b0 := sym[..];
    assert b0[..len] == sym[..len];
    HalfwayStart(b0, len, k, c);
    newLen := len;
    var p1, size := 0, len;
    var p2 := Memmem(sym, 0, len, k);
    if p2 != -1 {
      assert sym[..len][p2] == k % 256 && sym[..len][p2 + 1] == k / 256;
      newLen, p1 := SubstituteFrom(sym, b0, len, p2, k, c);
    }
    HalfwayDone(sym[..], b0, len, p1, newLen, k, c);
    assert sym[..newLen] == sym[..][..newLen];
  }

  // The next occurrence in the size bytes from p1 on, which hold a symbol of length n and zeros.
  method NextOccurrence(sym: array<byte>, ghost b0: seq<byte>, len: nat, p1: nat, ghost n: nat, size: nat, k: nat,
                        ghost c: byte)
    returns (p2: int)
    requires k < PAIRS && k % 256 != 0 && k / 256 != 0
    requires Halfway(sym[..], b0, len, p1, n, k, c) && p1 + size == len
    ensures p2 == -1 || (p1 <= p2 && p2 + 1 < n && Key(sym[p2], sym[p2 + 1]) == k)
    ensures forall q :: p1 <= q < (if p2 == -1 then n - 1 else p2) ==> Key(sym[q], sym[q + 1]) != k
  {
    if size < 2 {
      return -1;
    }
    p2 := Memmem(sym, p1, size, k);
    assert p2 != -1 ==> sym[..][p2 + 1] != 0;
  }

  // The loop of replacements, entered with the first occurrence at p.
  method SubstituteFrom(sym: array<byte>, ghost b0: seq<byte>, len: nat, p: nat, k: nat, c: byte)
    returns (newLen: nat, p1: nat)
    requires k < PAIRS && k % 256 != 0 && k / 256 != 0
    requires Halfway(sym[..], b0, len, 0, len, k, c)
    requires p + 1 < len && Key(sym[p], sym[p + 1]) == k
    requires forall q :: 0 <= q < p ==> Key(sym[q], sym[q + 1]) != k
    modifies sym
    ensures Halfway(sym[..], b0, len, p1, newLen, k, c)
    ensures forall q :: p1 <= q < newLen - 1 ==> Key(sym[q], sym[q + 1]) != k
  {
    newLen, p1 := len, 0;
    var p2: int, size := p, len;
    while true
      invariant 0 <= p1 <= p2 && p2 + 1 < newLen <= len && p1 + size == len
      invariant Halfway(sym[..], b0, len, p1, newLen, k, c)
      invariant Key(sym[p2], sym[p2 + 1]) == k
      invariant forall q :: p1 <= q < p2 ==> Key(sym[q], sym[q + 1]) != k
      decreases newLen
    {
      ReplaceNext(sym, b0, len, p1, newLen, k, c, p2);
      p2 := p2 + 1;
      size := size - (p2 - p1);
      p1 := p2;
      newLen := newLen - 1;
      p2 := NextOccurrence(sym, b0, len, p1, newLen, size, k, c);
      if p2 == -1 {
        break;
      }
    }
  }

  // ----- The compressor's global state

  datatype SymEntry = SymEntry(addr: nat, len: nat, sym: array<byte>)

  datatype Symbol = Symbol(addr: nat, text: seq<byte>)

  function Texts(xs: seq<Symbol>): (r: seq<seq<byte>>)
    ensures |r| == |xs|
    ensures forall i :: 0 <= i < |xs| ==> r[i] == xs[i].text
  {
    seq(|xs|, i requires 0 <= i < |xs| => xs[i].text)
  }

  function SymbolsOf(table: seq<SymEntry>, syms: seq<seq<byte>>): (r: seq<Symbol>)
    requires |syms| == |table|
    ensures |r| == |table|
    ensures forall i :: 0 <= i < |table| ==> r[i] == Symbol(table[i].addr, syms[i])
  {
    seq(|table|, i requires 0 <= i < |table| => Symbol(table[i].addr, syms[i]))
  }

  // The entry's buffer holds the NUL-terminated text t.
  ghost predicate Holds(e: SymEntry, t: seq<byte>)
    reads e.sym
  {
    e.len < e.sym.Length && e.sym[e.len] == 0 && e.sym[..e.len] == t
  }

  // The valid ones among the first i entries, and their texts.
  function KeptEntries(was: seq<SymEntry>, texts: seq<seq<byte>>, i: nat, valid: Symbol -> bool): seq<SymEntry>
    requires i <= |was| == |texts|
  {
    if i == 0 then []
    else if valid(Symbol(was[i - 1].addr, texts[i - 1])) then KeptEntries(was, texts, i - 1, valid) + [was[i - 1]]
    else KeptEntries(was, texts, i - 1, valid)
  }

  function KeptTexts(was: seq<SymEntry>, texts: seq<seq<byte>>, i: nat, valid: Symbol -> bool): seq<seq<byte>>
    requires i <= |was| == |texts|
  {
    if i == 0 then []
    else if valid(Symbol(was[i - 1].addr, texts[i - 1])) then KeptTexts(was, texts, i - 1, valid) + [texts[i - 1]]
    else KeptTexts(was, texts, i - 1, valid)
  }

  lemma {:induction false} KeptIsFilter(was: seq<SymEntry>, texts: seq<seq<byte>>, i: nat, valid: Symbol -> bool)
    requires i <= |was| == |texts|
    ensures var es, ts := KeptEntries(was, texts, i, valid), KeptTexts(was, texts, i, valid);
      |es| == |ts| && SymbolsOf(es, ts) == Filter(SymbolsOf(was, texts)[..i], valid)
  {
    if i > 0 {
      KeptIsFilter(was, texts, i - 1, valid);
      FilterStep(SymbolsOf(was, texts), i - 1, valid);
      var es, ts := KeptEntries(was, texts, i - 1, valid), KeptTexts(was, texts, i - 1, valid);
      assert SymbolsOf(es + [was[i - 1]], ts + [texts[i - 1]])
          == SymbolsOf(es, ts) + [Symbol(was[i - 1].addr, texts[i - 1])];
    }
  }

  lemma {:induction false} KeptOk(was: seq<SymEntry>, texts: seq<seq<byte>>, i: nat, valid: Symbol -> bool)
    requires i <= |was| == |texts|
    requires forall j :: 0 <= j < |was| ==> Holds(was[j], texts[j])
    requires forall j, m :: 0 <= j < m < |was| ==> was[j].sym != was[m].sym
    ensures var es, ts := KeptEntries(was, texts, i, valid), KeptTexts(was, texts, i, valid);
      && |es| == |ts|
      && (forall j :: 0 <= j < |es| ==> Holds(es[j], ts[j]) && es[j] in was[..i])
      && (forall j, m :: 0 <= j < m < |es| ==> es[j].sym != es[m].sym)
  {
    if i > 0 {
      KeptOk(was, texts, i - 1, valid);
      assert was[..i] == was[..i - 1] + [was[i - 1]];
    }
  }

  // Moving entry i down to place pos.
  lemma MoveEntry(table: seq<SymEntry>, pos: nat, i: nat)
    requires pos <= i < |table|
    ensures var t := table[pos := table[i]];
      && t[..pos + 1] == table[..pos] + [table[i]] && t[i + 1..] == table[i + 1..]
      && (pos == i ==> t == table)
  {
  }

  // After i entries the first pos places hold the kept ones and the rest is untouched.
  ghost predicate Compacted(table: seq<SymEntry>, was: seq<SymEntry>, texts: seq<seq<byte>>, pos: nat, i: nat,
                            valid: Symbol -> bool)
  {
    && pos <= i <= |was| == |texts| && |table| == |was|
    && table[i..] == was[i..]
    && table[..pos] == KeptEntries(was, texts, i, valid)
  }

  lemma CompactStep(table: seq<SymEntry>, was: seq<SymEntry>, texts: seq<seq<byte>>, pos: nat, i: nat,
                    valid: Symbol -> bool)
    requires Compacted(table, was, texts, pos, i, valid) && i < |was|
    ensures table[i] == was[i]
    ensures if valid(Symbol(was[i].addr, texts[i]))
      then Compacted(table[pos := table[i]], was, texts, pos + 1, i + 1, valid)
      else Compacted(table, was, texts, pos, i + 1, valid)
  {
    assert table[i] == table[i..][0] && was[i] == was[i..][0];
    assert table[i + 1..] == table[i..][1..] && was[i + 1..] == was[i..][1..];
    MoveEntry(table, pos, i);
  }

  class Compressor {
    var table: seq<SymEntry>
    const tokenProfit: array<int>
    const best: array<Slot>
    // the bytes of every symbol in the table
    ghost var syms: seq<seq<byte>>

    ghost predicate Valid()
      reads this, set e | e in table :: e.sym
    {
      && tokenProfit.Length == PAIRS && best.Length == 256
      && |syms| == |table|
      && (forall i :: 0 <= i < |table| ==> Holds(table[i], syms[i]) && table[i].sym as object != tokenProfit)
      && (forall i, j :: 0 <= i < j < |table| ==> table[i].sym != table[j].sym)
    }

    // The pair counts are exact.
    ghost predicate Counted()
      requires tokenProfit.Length == PAIRS
      reads this, tokenProfit
    {
      forall k :: 0 <= k < PAIRS ==> tokenProfit[k] == Total(syms, k)
    }

    ghost function Symbols(): seq<Symbol>
      requires |syms| == |table|
      reads this
    {
      SymbolsOf(table, syms)
    }

    method LearnSymbol(symbol: array<byte>, len: nat)
      requires tokenProfit.Length == PAIRS && len <= symbol.Length && symbol as object != tokenProfit
      modifies tokenProfit
      ensures forall k :: 0 <= k < PAIRS ==> tokenProfit[k] == old(tokenProfit[k]) + Occ(symbol[..len], k)
    {
      var i := 0;
      ghost var first := symbol[..if len == 0 then 0 else 1];
      assert forall k :: 0 <= k < PAIRS ==> Occ(first, k) == 0;
      while i < len - 1
        invariant 0 <= i && (len > 0 ==> i <= len - 1)
        invariant len > 0 ==> forall k :: 0 <= k < PAIRS ==>
          tokenProfit[k] == old(tokenProfit[k]) + Occ(symbol[..i + 1], k)
        invariant len == 0 ==> forall k :: 0 <= k < PAIRS ==> tokenProfit[k] == old(tokenProfit[k])
      {
        var k := Key(symbol[i], symbol[i + 1]);
        tokenProfit[k] := tokenProfit[k] + 1;
        ghost var pre, post := symbol[..i + 1], symbol[..i + 2];
        assert pre + [symbol[i + 1]] == post;
        forall j | 0 <= j < PAIRS ensures Occ(post, j) == Occ(pre, j) + (if k == j then 1 else 0) {
          OccSnoc(pre, symbol[i + 1], j);
        }
        i := i + 1;
      }
    }

    method ForgetSymbol(symbol: array<byte>, len: nat)
      requires tokenProfit.Length == PAIRS && len <= symbol.Length && symbol as object != tokenProfit
      modifies tokenProfit
      ensures forall k :: 0 <= k < PAIRS ==> tokenProfit[k] == old(tokenProfit[k]) - Occ(symbol[..len], k)
    {
      var i := 0;
      ghost var first := symbol[..if len == 0 then 0 else 1];
      assert forall k :: 0 <= k < PAIRS ==> Occ(first, k) == 0;
      while i < len - 1
        invariant 0 <= i && (len > 0 ==> i <= len - 1)
        invariant len > 0 ==> forall k :: 0 <= k < PAIRS ==>
          tokenProfit[k] == old(tokenProfit[k]) - Occ(symbol[..i + 1], k)
        invariant len == 0 ==> forall k :: 0 <= k < PAIRS ==> tokenProfit[k] == old(tokenProfit[k])
      {
        var k := Key(symbol[i], symbol[i + 1]);
        tokenProfit[k] := tokenProfit[k] - 1;
        ghost var pre, post := symbol[..i + 1], symbol[..i + 2];
        assert pre + [symbol[i + 1]] == post;
        forall j | 0 <= j < PAIRS ensures Occ(post, j) == Occ(pre, j) + (if k == j then 1 else 0) {
          OccSnoc(pre, symbol[i + 1], j);
        }
        i := i + 1;
      }
    }

    /** Starts from a table of symbols read in; counts are zero, as globals are. */
    constructor (entries: seq<SymEntry>, ghost texts: seq<seq<byte>>)
      requires |texts| == |entries|
      requires forall i :: 0 <= i < |entries| ==> Holds(entries[i], texts[i])
      requires forall i, j :: 0 <= i < j < |entries| ==> entries[i].sym != entries[j].sym
      ensures Valid() && table == entries && syms == texts
      ensures forall k :: 0 <= k < PAIRS ==> tokenProfit[k] == 0
      ensures fresh(tokenProfit) && fresh(best)
    {
      table, syms := entries, texts;
      tokenProfit := new int[PAIRS](_ => 0);
      best := new Slot[256](_ => EMPTY);
    }

    /** Drops the invalid symbols, keeping the order of the others, and counts their pairs. */
    method BuildInitialTokTable(valid: Symbol -> bool)
      requires Valid() && forall k :: 0 <= k < PAIRS ==> tokenProfit[k] == 0
      modifies this, tokenProfit
      ensures Valid() && Counted()
      ensures Symbols() == Filter(old(Symbols()), valid)
      ensures forall e :: e in table ==> e in old(table)
    {
      ghost var was := table;
      var pos := CompactTable(valid);
      KeptIsFilter(was, syms, |was|, valid);
      KeptOk(was, syms, |was|, valid);
      assert SymbolsOf(was, syms)[..|was|] == SymbolsOf(was, syms);
      syms := KeptTexts(was, syms, |was|, valid);
      table := table[..pos];
    }

    method CompactTable(valid: Symbol -> bool) returns (pos: nat)
      requires Valid() && forall k :: 0 <= k < PAIRS ==> tokenProfit[k] == 0
      modifies `table, tokenProfit
      ensures pos <= |table| && table[..pos] == KeptEntries(old(table), syms, |syms|, valid)
      ensures forall k :: 0 <= k < PAIRS ==> tokenProfit[k] == Total(KeptTexts(old(table), syms, |syms|, valid), k)
    {
      ghost var was := table;
      pos := 0;
      var i := 0;
      while i < |table|
        invariant i <= |was| && Compacted(table, was, syms, pos, i, valid)
        invariant forall k :: 0 <= k < PAIRS ==> tokenProfit[k] == Total(KeptTexts(was, syms, i, valid), k)
      {
        CompactStep(table, was, syms, pos, i, valid);
        var entry := table[i];
        assert Holds(entry, syms[i]);
        if valid(Symbol(entry.addr, entry.sym[..entry.len])) {
          if pos != i {
            table := table[pos := entry];
          }
          LearnMore(table[pos].sym, table[pos].len, KeptTexts(was, syms, i, valid));
          pos := pos + 1;
        }
        i := i + 1;
      }
    }

    // Adds one symbol to counts that are exact for the symbols kept so far.
    method LearnMore(symbol: array<byte>, len: nat, ghost kept: seq<seq<byte>>)
      requires tokenProfit.Length == PAIRS && len <= symbol.Length && symbol as object != tokenProfit
      requires forall k :: 0 <= k < PAIRS ==> tokenProfit[k] == Total(kept, k)
      modifies tokenProfit
      ensures forall k :: 0 <= k < PAIRS ==> tokenProfit[k] == Total(kept + [symbol[..len]], k)
    {
      LearnSymbol(symbol, len);
      ghost var more := kept + [symbol[..len]];
      forall k | 0 <= k < PAIRS ensures tokenProfit[k] == Total(more, k) {
        TotalAppend(kept, symbol[..len], k);
      }
    }

    /** Replaces one token in every symbol and keeps the counts exact. */
    method CompressSymbols(k: nat, c: byte)
      requires Valid() && Counted() && k < PAIRS
      requires (k % 256 != 0 && k / 256 != 0) || NulFree(syms)
      modifies this, tokenProfit, set e | e in table :: e.sym
      ensures Valid() && Counted()
      ensures syms == SubstAll(old(syms), k, c)
      ensures |table| == |old(table)|
      ensures forall i :: 0 <= i < |table| ==> table[i].addr == old(table)[i].addr && table[i].sym == old(table)[i].sym
    {
      ghost var was := table;
      ghost var goal := SubstAll(syms, k, c);
      var i := 0;
      while i < |table|
        invariant 0 <= i <= |table| == |was|
        invariant Valid() && Counted()
        invariant forall j :: 0 <= j < |was| ==> table[j].addr == was[j].addr && table[j].sym == was[j].sym
        invariant forall j :: 0 <= j < |was| ==> syms[j] == if j < i then goal[j] else old(syms)[j]
      {
        CompressOne(i, k, c);
        i := i + 1;
      }
    }

    // Takes a symbol out of the counts, rewrites it and counts it again.
    method Rewrite(sym: array<byte>, len: nat, k: nat, c: byte) returns (newLen: nat)
      requires tokenProfit.Length == PAIRS && sym as object != tokenProfit
      requires len < sym.Length && sym[len] == 0 && k < PAIRS
      requires (k % 256 != 0 && k / 256 != 0) || 0 !in sym[..len]
      modifies tokenProfit, sym
      ensures newLen <= len && sym[newLen] == 0 && sym[..newLen] == Subst(old(sym[..len]), k, c)
      ensures forall j :: 0 <= j < PAIRS ==>
        tokenProfit[j] == old(tokenProfit[j]) - Occ(old(sym[..len]), j) + Occ(Subst(old(sym[..len]), k, c), j)
    {
      ForgetSymbol(sym, len);
      newLen := SubstituteInPlace(sym, len, k, c);
      LearnSymbol(sym, newLen);
    }

    method CompressOne(i: nat, k: nat, c: byte)
      requires Valid() && Counted() && k < PAIRS && i < |table|
      requires (k % 256 != 0 && k / 256 != 0) || 0 !in syms[i]
      modifies this, tokenProfit, table[i].sym
      ensures Valid() && Counted()
      ensures syms == old(syms)[i := Subst(old(syms)[i], k, c)]
      ensures |table| == |old(table)|
      ensures forall j :: 0 <= j < |table| ==> table[j].addr == old(table)[j].addr && table[j].sym == old(table)[j].sym
    {
      var sym, len := table[i].sym, table[i].len;
      assert Holds(table[i], syms[i]);
      ghost var s, t := syms[i], Subst(syms[i], k, c);
      var p := Memmem(sym, 0, len, k);
      if p == -1 {
        NoOccurrence(s, k);
        SubstAbsent(s, k, c);
        return;
      }
      var newLen := Rewrite(sym, len, k, c);
      table := table[i := table[i].(len := newLen)];
      forall j | 0 <= j < PAIRS ensures tokenProfit[j] == Total(syms[i := t], j) {
        TotalUpdate(syms, i, t, j);
      }
      syms := syms[i := t];
    }

    /** The first of the most frequent pairs. */
    method FindBestToken() returns (best: nat)
      requires tokenProfit.Length == PAIRS && Counted()
      ensures best == BestBelow(syms, PAIRS)
    {
      var bestProfit := -10000;
      best := 0;
      var i := 0;
      while i < PAIRS
        invariant 0 <= i <= PAIRS
        invariant i == 0 ==> best == 0 && bestProfit == -10000
        invariant i > 0 ==> best == BestBelow(syms, i) && bestProfit == tokenProfit[best]
      {
        if tokenProfit[i] > bestProfit {
          best := i;
          bestProfit := tokenProfit[i];
        }
        i := i + 1;
      }
    }

    // One turn of the greedy loop on an empty slot.
    method FillSlot(i: byte)
      requires Valid() && Counted() && Filled(best[..], syms, i + 1) && best[i].len == 0
      modifies this, tokenProfit, best, set e | e in table :: e.sym
      ensures Valid() && Counted() && Filled(best[..], syms, i)
      ensures var k := BestBelow(old(syms), PAIRS);
        best[..] == old(best[..])[i := PairOf(k)] && syms == SubstAll(old(syms), k, i)
      ensures |table| == |old(table)|
      ensures forall j :: 0 <= j < |table| ==> table[j].addr == old(table)[j].addr && table[j].sym == old(table)[j].sym
    {
      ghost var bt := best[..];
      FillStep(bt, syms, i + 1);
      CodesNulFree(bt, syms, i + 1);
      var k := FindBestToken();
      best[i] := Slot(2, k % 256, k / 256);
      assert best[..] == bt[i := PairOf(k)];
      CompressSymbols(k, i);
    }

    /** The greedy loop. */
    method OptimizeResult()
      requires Valid() && Counted() && Filled(best[..], syms, 256)
      modifies this, tokenProfit, best, set e | e in table :: e.sym
      ensures Valid() && Counted()
      ensures (best[..], syms) == Optimize(old(best[..]), old(syms), 256)
      ensures |table| == |old(table)|
      ensures forall i :: 0 <= i < |table| ==> table[i].addr == old(table)[i].addr && table[i].sym == old(table)[i].sym
    {
      ghost var was := table;
      var i := 255;
      while i >= 0
        invariant -1 <= i <= 255
        invariant Valid() && Counted() && |table| == |was|
        invariant forall j :: 0 <= j < |was| ==> table[j].addr == was[j].addr && table[j].sym == was[j].sym
        invariant Filled(best[..], syms, i + 1)
        invariant Optimize(best[..], syms, i + 1) == Optimize(old(best[..]), old(syms), 256)
      {
        if best[i].len == 0 {
          FillSlot(i);
        } else {
          SkipSingle(best[..], syms, i + 1);
        }
        i := i - 1;
      }
    }

    /** Enters every character in use as standing for itself. */
    method InsertRealSymbols()
      requires Valid()
      modifies best
      ensures best[..] == RealTable(syms)
    {
      forall c | 0 <= c < 256 {
        best[c] := EMPTY;
      }
      var i := 0;
      while i < |table|
        invariant 0 <= i <= |table|
        invariant forall c: byte :: best[c] == if Used(syms[..i], c) then Slot(1, c, 0) else EMPTY
      {
        InsertCharacters(i);
        assert syms[..i + 1] == syms[..i] + [syms[i]];
        forall c: byte ensures Used(syms[..i + 1], c) <==> Used(syms[..i], c) || c in syms[i] {
          UsedSnoc(syms[..i], syms[i], c);
        }
        i := i + 1;
      }
      assert syms[..i] == syms;
    }

    method InsertCharacters(i: nat)
      requires Valid() && i < |table|
      requires forall c: byte :: best[c] == EMPTY || best[c] == Slot(1, c, 0)
      modifies best
      ensures forall c: byte :: best[c] == if c in syms[i] then Slot(1, c, 0) else old(best[c])
    {
      assert Holds(table[i], syms[i]);
      ghost var s := syms[i];
      var j := 0;
      while j < table[i].len
        invariant 0 <= j <= table[i].len
        invariant forall c: byte :: best[c] == if c in s[..j] then Slot(1, c, 0) else old(best[c])
      {
        var c := table[i].sym[j];
        assert c == s[j] && s[..j + 1] == s[..j] + [c];
        best[c] := best[c].(fst := c, len := 1);
        j := j + 1;
      }
      assert s[..j] == s;
    }

    /** The whole compressor: keeps the valid symbols and compresses them without loss. */
    method OptimizeTokenTable(valid: Symbol -> bool) returns (ok: bool)
      requires Valid() && NulFree(syms) && forall k :: 0 <= k < PAIRS ==> tokenProfit[k] == 0
      modifies this, tokenProfit, best, set e | e in table :: e.sym
      ensures Valid()
      ensures ok <==> Filter(old(Symbols()), valid) != []
      ensures ok ==> (best[..], syms) == Compressed(Texts(Filter(old(Symbols()), valid)))
      ensures ok ==> |syms| == |Filter(old(Symbols()), valid)| && forall j :: 0 <= j < |syms| ==>
        ExpandTo(best[..], syms[j], 256) == Done(Filter(old(Symbols()), valid)[j].text)
      ensures ok ==> forall j :: 0 <= j < |table| ==> table[j].addr == Filter(old(Symbols()), valid)[j].addr
      ensures ok ==> forall c: byte ::
        && (Single(best[..], c) <==> Used(Texts(Filter(old(Symbols()), valid)), c))
        && (!Single(best[..], c) ==> best[c].len == 2)
      ensures forall e :: e in table ==> exists e' :: e' in old(table) && e'.sym == e.sym
    {
      ghost var all := Symbols();
      ghost var kept := Filter(all, valid);
      FilterNulFree(all, valid);
      BuildInitialTokTable(valid);
      assert syms == Texts(kept);
      InsertRealSymbols();
      ok := |table| > 0;
      assert ok <==> kept != [];
      if ok {
        RealTableFilled(syms);
        LosslessAll(syms);
        forall c: byte
          ensures var bt := Compressed(syms).0;
            (Single(bt, c) <==> Used(syms, c)) && (!Single(bt, c) ==> bt[c].len == 2)
        {
          CharactersKept(syms, c);
        }
        OptimizeResult();
      }
    }

    /** Round trip: compresses the table, then expands entry j of the result; out come the address
        and the bytes of the j-th valid symbol. */
    method CompressAndExpand(valid: Symbol -> bool, j: nat, result: array<byte>) returns (addr: nat, total: nat)
      requires Valid() && NulFree(syms) && forall k :: 0 <= k < PAIRS ==> tokenProfit[k] == 0
      requires j < |Filter(Symbols(), valid)| && |Filter(Symbols(), valid)[j].text| < result.Length
      requires result as object != tokenProfit && result as object != best && forall e :: e in table ==> e.sym != result
      modifies this, tokenProfit, best, result, set e | e in table :: e.sym
      ensures addr == Filter(old(Symbols()), valid)[j].addr
      ensures total == |Filter(old(Symbols()), valid)[j].text| && result[total] == 0
      ensures result[..total] == Filter(old(Symbols()), valid)[j].text
    {
      ghost var kept := Filter(Symbols(), valid);
      FilterNulFree(Symbols(), valid);
      var ok := OptimizeTokenTable(valid);
      Lossless(Texts(kept), j);
      addr := table[j].addr;
      total := ExpandEntry(j, result, kept[j].text);
    }

    method ExpandEntry(j: nat, result: array<byte>, ghost text: seq<byte>) returns (total: nat)
      requires Valid() && j < |table| && |text| < result.Length
      requires AllOk(best[..], syms[j]) && Expand(best[..], syms[j]) == text
      modifies result
      ensures total == |text| && result[total] == 0 && result[..total] == text
    {
      assert Holds(table[j], syms[j]);
      total := ExpandSymbol(table[j].sym[..table[j].len], result, 0);
    }

    /** Expands data into result from position at on, ended by a NUL; returns the length. */
    method ExpandSymbol(data: seq<byte>, result: array<byte>, at: nat) returns (total: nat)
      requires best.Length == 256 && AllOk(best[..], data)
      requires at + |Expand(best[..], data)| < result.Length
      modifies result
      ensures total == |Expand(best[..], data)|
      ensures result[..at + total] == old(result[..at]) + Expand(best[..], data)
      ensures result[at + total] == 0
      ensures result[at + total + 1..] == old(result[at + total + 1..])
      decreases MaxRank(best[..], data), 1
    {
      ghost var bt, before, text := best[..], result[..], Expand(best[..], data);
      total := 0;
      var i := 0;
      assert before[..at] + [] == before[..at];
      while i < |data|
        invariant 0 <= i <= |data| && bt == best[..] && AllOk(bt, data[..i])
        invariant total == |Expand(bt, data[..i])|
        invariant Written(before, result[..], at, Expand(bt, data[..i]), |text|)
      {
        ExpandSplit(bt, data, i);
        ghost var now, done, more := result[..], Expand(bt, data[..i]), ExpandCode(bt, data[i]);
        var rlen := ExpandNext(data[i], result, at + total);
        WrittenStep(before, now, result[..], at, done, more, |text|);
        total := total + rlen;
        i := i + 1;
      }
      assert data[..i] == data;
      ghost var now := result[..];
      result[at + total] := 0;
      assert result[..at + total] == now[..at + total];
      assert result[at + total + 1..] == now[at + total + 1..];
    }

    // One code: a character is copied, anything else is expanded through its slot.
    method ExpandNext(c: byte, result: array<byte>, at: nat) returns (rlen: nat)
      requires best.Length == 256 && Ok(best[..], c)
      requires at + |ExpandCode(best[..], c)| < result.Length
      modifies result
      ensures rlen == |ExpandCode(best[..], c)|
      ensures result[..at + rlen] == old(result[..at]) + ExpandCode(best[..], c)
      ensures result[at + rlen + 1..] == old(result[at + rlen + 1..])
      decreases Rank(best[..], c), 0
    {
      ghost var bt := best[..];
      if best[c].fst == c && best[c].len == 1 {
        result[at] := c;
        rlen := 1;
      } else {
        PairExpands(bt, c);
        MaxRankBelow(bt, SlotData(bt[c]), Rank(bt, c));
        rlen := ExpandSymbol(SlotData(best[c]), result, at);
      }
    }
  }

  // text has been written at position at, and nothing past the NUL that ends length bytes has changed.
  ghost predicate Written(before: seq<byte>, now: seq<byte>, at: nat, text: seq<byte>, length: nat) {
    && at + length < |before| == |now| && |text| <= length
    && now[..at + |text|] == before[..at] + text
    && now[at + length + 1..] == before[at + length + 1..]
  }

  lemma WrittenStep(before: seq<byte>, now: seq<byte>, now': seq<byte>, at: nat, text: seq<byte>, more: seq<byte>,
                    length: nat)
    requires Written(before, now, at, text, length) && |text| + |more| <= length && |now'| == |now|
    requires now'[..at + |text| + |more|] == now[..at + |text|] + more
    requires now'[at + |text| + |more| + 1..] == now[at + |text| + |more| + 1..]
    ensures Written(before, now', at, text + more, length)
  {
    var past := at + |text| + |more| + 1;
    assert before[..at] + text + more == before[..at] + (text + more);
    assert now'[at + length + 1..] == now'[past..][at + length + 1 - past..];
    assert now[at + length + 1..] == now[past..][at + length + 1 - past..];
  }

  lemma ExpandSplit(bt: Table, data: seq<byte>, i: nat)
    requires AllOk(bt, data) && i < |data|
    ensures AllOk(bt, data[..i]) && AllOk(bt, data[..i + 1])
    ensures Expand(bt, data[..i + 1]) == Expand(bt, data[..i]) + ExpandCode(bt, data[i])
    ensures |Expand(bt, data[..i + 1])| <= |Expand(bt, data)|
  {
    assert data[..i + 1] == data[..i] + [data[i]];
    ExpandConcat(bt, data[..i], [data[i]]);
    ExpandOne(bt, data[i]);
    assert data == data[..i + 1] + data[i + 1..];
    ExpandConcat(bt, data[..i + 1], data[i + 1..]);
  }

  lemma {:induction false} MaxRankBelow(bt: Table, data: seq<byte>, r: nat)
    requires r > 0 && forall i :: 0 <= i < |data| ==> Rank(bt, data[i]) < r
    ensures MaxRank(bt, data) < r
  {
    if data != [] {
      MaxRankBelow(bt, data[1..], r);
    }
  }

  lemma UsedSnoc(syms: seq<seq<byte>>, s: seq<byte>, c: byte)
    ensures Used(syms + [s], c) <==> Used(syms, c) || c in s
  {
    if j :| 0 <= j < |syms| && c in syms[j] {
      assert c in (syms + [s])[j];
    }
    assert (syms + [s])[|syms|] == s;
  }

  lemma {:induction false} FilterNulFree(xs: seq<Symbol>, valid: Symbol -> bool)
    requires NulFree(Texts(xs))
    ensures NulFree(Texts(Filter(xs, valid)))
  {
    if xs != [] {
      var front := xs[..|xs| - 1];
      forall j | 0 <= j < |front| ensures 0 !in Texts(front)[j] {
        assert Texts(front)[j] == Texts(xs)[j];
      }
      FilterNulFree(front, valid);
      assert 0 !in Texts(xs)[|xs| - 1];
      forall j | 0 <= j < |Filter(xs, valid)| ensures 0 !in Texts(Filter(xs, valid))[j] {
        if j < |Filter(front, valid)| {
          assert 0 !in Texts(Filter(front, valid))[j];
        }
      }
    }
  }

  function MaxRank(bt: Table, data: seq<byte>): (r: nat)
    ensures forall i :: 0 <= i < |data| ==> Rank(bt, data[i]) <= r
  {
    if data == [] then 0
    else
      var r := MaxRank(bt, data[1..]);
      if Rank(bt, data[0]) > r then Rank(bt, data[0]) else r
  }

  // Before slot 0 is filled no symbol contains a NUL.
  lemma CodesNulFree(bt: Table, syms: seq<seq<byte>>, i: nat)
    requires Filled(bt, syms, i) && i >= 1
    ensures NulFree(syms)
  {
    forall j | 0 <= j < |syms| ensures 0 !in syms[j] {
      assert AllInUse(bt, i, syms[j]);
    }
  }
}

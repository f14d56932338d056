/**
 The list the image writer starts from: a head node that is never initialised, and
 one node appended for every input line with a nonzero address.
 */
module SymbolInput {
  import opened Bytes
  import opened Machine
  import opened Selection
  import opened SymbolImage
  import opened SymbolSort

  // A line of input with its address converted and its newline cut off.
  datatype Line = Line(value: nat, name: seq<byte>)

  // The next field of the head node, which malloc leaves without a value.
  datatype Link = Unset | Stored(node: Symlist?)

  predicate IsSymbol(line: Line) { line.value != 0 }

  // The lines that become symbols.
  function Kept(lines: seq<Line>): seq<Line> { Filter(lines, IsSymbol) }

  lemma {:induction false} KeptNothing(lines: seq<Line>)
    ensures Kept(lines) == [] <==> forall i :: 0 <= i < |lines| ==> lines[i].value == 0
  {
    if lines != [] {
      KeptNothing(lines[..|lines| - 1]);
    }
  }

  /** The kept lines are exactly those with a nonzero address, in order. */
  lemma KeptIs(lines: seq<Line>) returns (idx: seq<nat>)
    ensures |idx| == |Kept(lines)|
    ensures forall i :: 0 <= i < |idx| ==> idx[i] < |lines| && Kept(lines)[i] == lines[idx[i]]
    ensures forall i, j :: 0 <= i < j < |idx| ==> idx[i] < idx[j]
    ensures forall j :: 0 <= j < |lines| ==> (lines[j].value != 0 <==> j in idx)
  {
    idx := FilterIs(lines, IsSymbol);
    forall j | 0 <= j < |lines| ensures lines[j].value != 0 <==> j in idx {
      assert IsSymbol(lines[j]) <==> j in idx;
    }
  }

  // Node i holds kept line i.
  ghost predicate Holds(ns: seq<Symlist>, kept: seq<Line>) {
    |ns| == |kept| && forall i :: 0 <= i < |ns| ==> ns[i].value == kept[i].value && ns[i].sym == kept[i].name + [0]
  }

  method AppendNode(last: Symlist, x: Symlist, ghost head: Symlist?, ghost ns: seq<Symlist>)
    requires Chain(head, ns) && ns != [] && last == ns[|ns| - 1] && x !in ns && x.next == null
    modifies last
    ensures Chain(head, ns + [x])
  {
    last.next := x;
    ghost var t := ns + [x];
    forall i | 0 <= i < |t| ensures t[i].next == After(t, i) {
      assert i < |ns| - 1 ==> ns[i] != last && ns[i].next == After(ns, i);
    }
  }

  // The list built so far: nothing stored in the head, or a chain that ends in pre.
  ghost predicate Built(first: Link, pre: Symlist?, ns: seq<Symlist>)
    reads Nodes(ns)
  {
    if ns == [] then first == Unset && pre == null
    else first == Stored(ns[0]) && pre == ns[|ns| - 1] && Chain(ns[0], ns)
  }

  // Appends one node, behind the head if it is the first.
  method AppendSymbol(first: Link, pre: Symlist?, value: nat, name: seq<byte>, ghost ns: seq<Symlist>)
    returns (first': Link, tmp: Symlist)
    requires Built(first, pre, ns)
    modifies Nodes(ns)
    ensures fresh(tmp) && tmp.value == value && tmp.sym == name + [0]
    ensures Built(first', tmp, ns + [tmp])
  {
    tmp := new Symlist(value, name + [0]);
    assert tmp !in ns;
    if pre == null {
      first' := Stored(tmp);
      assert ns + [tmp] == [tmp];
    } else {
      AppendNode(pre, tmp, ns[0], ns);
      first' := first;
    }
  }

  lemma KeptStep(lines: seq<Line>, i: nat)
    requires i < |lines|
    ensures Kept(lines[..i + 1]) == if lines[i].value == 0 then Kept(lines[..i]) else Kept(lines[..i]) + [lines[i]]
  {
    FilterStep(lines, i, IsSymbol);
  }

  lemma HoldsOneMore(ns: seq<Symlist>, kept: seq<Line>, x: Symlist, line: Line)
    requires Holds(ns, kept) && x.value == line.value && x.sym == line.name + [0]
    ensures Holds(ns + [x], kept + [line])
  {
  }

  lemma NodesOneMore(ns: seq<Symlist>, x: Symlist)
    ensures Nodes(ns + [x]) == Nodes(ns) + {x}
  {
  }

  method CountUp(noe: nat, ghost n: nat) returns (noe': nat)
    requires noe == n % WORD32
    ensures noe' == (n + 1) % WORD32
  {
    noe' := (noe + 1) % WORD32;
  }

  // One turn of the reading loop.
  method ReadLine(first: Link, pre: Symlist?, noe: nat, line: Line, ghost ns: seq<Symlist>, ghost kept: seq<Line>)
    returns (first': Link, pre': Symlist?, noe': nat, ghost ns': seq<Symlist>)
    requires Built(first, pre, ns) && Holds(ns, kept) && noe == |ns| % WORD32
    modifies Nodes(ns)
    ensures Built(first', pre', ns') && Holds(ns', if line.value == 0 then kept else kept + [line])
    ensures noe' == |ns'| % WORD32 && fresh(Nodes(ns') - Nodes(ns))
  {
    first', pre', noe', ns' := first, pre, noe, ns;
    if line.value != 0 {
      var tmp;
      first', tmp := AppendSymbol(first, pre, line.value, line.name, ns);
      noe' := CountUp(noe, |ns|);
      HoldsOneMore(ns, kept, tmp, line);
      NodesOneMore(ns, tmp);
      pre', ns' := tmp, ns + [tmp];
    }
  }

  /** Reads the symbols: the nodes are the kept lines in order, noe counts them, and the head's next
      field has been stored to if and only if some line has a nonzero address. */
  method ReadSymbols(lines: seq<Line>) returns (first: Link, noe: nat, ghost ns: seq<Symlist>)
    ensures fresh(Nodes(ns)) && Holds(ns, Kept(lines)) && noe == |ns| % WORD32
    ensures first.Stored? <==> exists i :: 0 <= i < |lines| && lines[i].value != 0
    ensures first.Stored? ==> Chain(first.node, ns)
  {
    first, noe, ns := Unset, 0, [];
    var pre: Symlist? := null;
    ghost var kept := [];
    assert lines[..0] == [];
    for i := 0 to |lines|
      invariant kept == Kept(lines[..i])
      invariant fresh(Nodes(ns)) && Holds(ns, kept) && noe == |ns| % WORD32
      invariant Built(first, pre, ns)
    {
      KeptStep(lines, i);
      first, pre, noe, ns := ReadLine(first, pre, noe, lines[i], ns, kept);
      kept := Kept(lines[..i + 1]);
    }
    assert lines[..|lines|] == lines;
    KeptNothing(lines);
  }

  // ----- The image told by the lines alone

  function KeptSyms(lines: seq<Line>): (syms: seq<Sym>)
    ensures |syms| == |Kept(lines)|
    ensures forall i :: 0 <= i < |syms| ==> syms[i] == Sym(Kept(lines)[i].value, Kept(lines)[i].name)
  {
    seq(|Kept(lines)|, i requires 0 <= i < |Kept(lines)| => Sym(Kept(lines)[i].value, Kept(lines)[i].name))
  }

  // The symbols at address v, in order.
  function AtAddress(syms: seq<Sym>, v: nat): seq<Sym> {
    if syms == [] then []
    else if syms[0].value == v then [syms[0]] + AtAddress(syms[1..], v)
    else AtAddress(syms[1..], v)
  }

  // sorted is syms in order of address, symbols at the same address in their old order.
  ghost predicate StablySorted(sorted: seq<Sym>, syms: seq<Sym>) {
    && (forall i, j :: 0 <= i < j < |sorted| ==> sorted[i].value <= sorted[j].value)
    && forall v :: AtAddress(sorted, v) == AtAddress(syms, v)
  }

  lemma {:induction false} SelectSyms(ns: seq<Symlist>, v: nat)
    requires NamedNodes(ns)
    ensures NamedNodes(Select(ns, v)) && AtAddress(SymsOf(ns), v) == SymsOf(Select(ns, v))
  {
    if ns != [] {
      SelectSyms(ns[1..], v);
      SymsOfTail(ns);
      if ns[0].value == v {
        SymsOfCons(ns[0], Select(ns[1..], v));
      }
    }
  }

  lemma SymsOfTail(ns: seq<Symlist>)
    requires NamedNodes(ns) && ns != []
    ensures NamedNodes(ns[1..]) && SymsOf(ns)[1..] == SymsOf(ns[1..])
  {
  }

  lemma SymsOfCons(x: Symlist, rest: seq<Symlist>)
    requires NamedNodes(rest) && |x.sym| > 0 && x.sym[|x.sym| - 1] == 0
    ensures NamedNodes([x] + rest) && SymsOf([x] + rest) == [SymOf(x)] + SymsOf(rest)
  {
  }

  lemma SortedLines(ns: seq<Symlist>)
    requires NamedNodes(ns) && NamedNodes(MergeSort(ns))
    ensures StablySorted(SymsOf(MergeSort(ns)), SymsOf(ns))
  {
    MergeSortCorrect(ns);
    forall v: nat ensures AtAddress(SymsOf(MergeSort(ns)), v) == AtAddress(SymsOf(ns), v) {
      SelectSyms(MergeSort(ns), v);
      SelectSyms(ns, v);
    }
  }

  lemma HeldSyms(ns: seq<Symlist>, lines: seq<Line>)
    requires Holds(ns, Kept(lines))
    ensures NamedNodes(ns) && SymsOf(ns) == KeptSyms(lines)
  {
    forall i | 0 <= i < |ns|
      ensures |ns[i].sym| > 0 && ns[i].sym[|ns[i].sym| - 1] == 0 && SymOf(ns[i]) == KeptSyms(lines)[i]
    {
      assert ns[i].sym == Kept(lines)[i].name + [0];
    }
  }

  /** The whole tool.  With no symbol in the input it reads a head that was never stored to; with
      one, the file is the image of the kept lines, stably sorted by address. */
  method FormatSymbols(lines: seq<Line>) returns (file: seq<byte>)
    requires exists i :: 0 <= i < |lines| && lines[i].value != 0
    ensures exists sorted :: StablySorted(sorted, KeptSyms(lines)) && file == Image(sorted)
    ensures |file| >= 4 && file[..4] == [0x00, 0x27, 0x95, 0x00]
  {
    var first, noe;
    ghost var ns;
    first, noe, ns := ReadSymbols(lines);
    HeldSyms(ns, lines);
    file := WriteImage(first.node, ns, noe);
    SortedLines(ns);
  }
}

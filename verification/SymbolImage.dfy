/**
 The symbol image: written from the sorted list by the build tool, read by the
 kernel's linker when it resolves a name.
 */
module SymbolImage {
  import opened Bytes
  import opened Machine
  import opened SymbolSort

  const MAGIC := 0x00952700

  // The linker compares at most this many characters.
  const MAX_SYM_LEN := 128

  datatype Sym = Sym(value: nat, name: seq<byte>)

  // ----- The layout

  // The NUL-terminated names of the first i symbols.
  function TextTo(syms: seq<Sym>, i: nat): seq<byte>
    requires i <= |syms|
  {
    if i == 0 then [] else TextTo(syms, i - 1) + syms[i - 1].name + [0]
  }

  function Offset(syms: seq<Sym>, i: nat): nat
    requires i <= |syms|
  {
    |TextTo(syms, i)|
  }

  function Entry(syms: seq<Sym>, i: nat): (bs: seq<byte>)
    requires i < |syms|
    ensures |bs| == 16
  {
    Le(syms[i].value, 8) + Le(Offset(syms, i) % WORD32, 8)
  }

  function EntriesTo(syms: seq<Sym>, i: nat): (bs: seq<byte>)
    requires i <= |syms|
    ensures |bs| == 16 * i
  {
    if i == 0 then [] else EntriesTo(syms, i - 1) + Entry(syms, i - 1)
  }

  function Header(descriptors: nat, count: nat): (bs: seq<byte>)
    ensures |bs| == 12
  {
    Le(MAGIC, 4) + Le(descriptors, 4) + Le(count, 4)
  }

  function Image(syms: seq<Sym>): seq<byte> {
    Laid(syms, (Offset(syms, |syms|) + 12) % WORD32, |syms| % WORD32)
  }

  // Header, names and descriptors in a row.
  function Laid(syms: seq<Sym>, descriptors: nat, count: nat): seq<byte> {
    Header(descriptors, count) + TextTo(syms, |syms|) + EntriesTo(syms, |syms|)
  }

  /** The file begins with the bytes of the magic number. */
  lemma ImageMagic(syms: seq<Sym>)
    ensures |Image(syms)| >= 12 && Image(syms)[..4] == [0x00, 0x27, 0x95, 0x00]
  {
    assert Image(syms)[..4] == Le(MAGIC, 4);
    forall i | 0 <= i < 4 ensures Le(MAGIC, 4)[i] == [0x00, 0x27, 0x95, 0x00][i] {
      LeAt(MAGIC, 4, i);
      assert Pow256(1) == 256 && Pow256(2) == 65536 && Pow256(3) == 256 * Pow256(2);
    }
  }

  // ----- What the linker does with an image

  // strncmp(p, q, n) == 0 on memory starting at p and q.
  predicate StrnEqual(p: seq<byte>, q: seq<byte>, n: nat) {
    n == 0 || (p != [] && q != [] && p[0] == q[0] && (p[0] == 0 || StrnEqual(p[1..], q[1..], n - 1)))
  }

  function Word32At(image: seq<byte>, at: nat): nat
    requires at + 4 <= |image|
  {
    FromLe(image[at..at + 4])
  }

  function Word64At(image: seq<byte>, at: nat): nat
    requires at + 8 <= |image|
  {
    FromLe(image[at..at + 8])
  }

  // All the linker reads lies in the image, and offsets fit a C int.
  ghost predicate Readable(image: seq<byte>) {
    && 12 <= |image| && Word32At(image, 4) + 16 * Word32At(image, 8) <= |image|
    && forall i :: 0 <= i < Word32At(image, 8) ==>
         12 + EntryOffset(image, i) <= |image| && EntryOffset(image, i) < INT_LIMIT
  }

  function EntryValue(image: seq<byte>, i: nat): nat
    requires 12 <= |image| && Word32At(image, 4) + 16 * i + 16 <= |image|
  {
    Word64At(image, Word32At(image, 4) + 16 * i)
  }

  function EntryOffset(image: seq<byte>, i: nat): nat
    requires 12 <= |image| && Word32At(image, 4) + 16 * i + 16 <= |image|
  {
    Word64At(image, Word32At(image, 4) + 16 * i + 8)
  }

  // Entry i carries the name, as far as the linker looks.
  predicate Matches(image: seq<byte>, name: seq<byte>, i: nat)
    requires 12 <= |image| && Word32At(image, 4) + 16 * i + 16 <= |image| && 12 + EntryOffset(image, i) <= |image|
  {
    StrnEqual(name + [0], image[12 + EntryOffset(image, i)..], MAX_SYM_LEN)
  }

  datatype Lookup = NotFound | Found(addr: nat)

  // Entry at is the first that carries the name.
  ghost predicate FirstMatch(image: seq<byte>, name: seq<byte>, at: nat)
    requires Readable(image)
  {
    at < Word32At(image, 8) && Matches(image, name, at) && forall i :: 0 <= i < at ==> !Matches(image, name, i)
  }

  /** A symbol without a value is looked up: the address of the first entry that carries the name.
      A symbol of the program itself is moved to where the program was loaded. */
  method ResolveSymbol(image: seq<byte>, name: seq<byte>, value: nat, start: nat) returns (r: Lookup)
    requires Readable(image)
    ensures r.NotFound? ==> value == 0 && forall i :: 0 <= i < Word32At(image, 8) ==> !Matches(image, name, i)
    ensures r.Found? && value == 0 ==> exists at :: FirstMatch(image, name, at) && r.addr == EntryValue(image, at)
    ensures value != 0 ==> r == Found((value + start) % WORD)
  {
    if value != 0 {
      return Found((value + start) % WORD);
    }
    var i, count := 0, Word32At(image, 8);
    while i < count
      invariant 0 <= i <= count
      invariant forall j :: 0 <= j < i ==> !Matches(image, name, j)
    {
      var offset := EntryOffset(image, i);
      if StrnEqual(name + [0], image[12 + offset..], MAX_SYM_LEN) {
        assert FirstMatch(image, name, i);
        return Found(EntryValue(image, i));
      }
      i := i + 1;
    }
    return NotFound;
  }

  // ----- The image read back

  // Addresses are 64-bit, names contain no NUL, and string table and count fit their fields.
  ghost predicate Fits(syms: seq<Sym>) {
    && (forall i :: 0 <= i < |syms| ==> syms[i].value < Pow256(8) && 0 !in syms[i].name)
    && 12 + Offset(syms, |syms|) < INT_LIMIT && |syms| < WORD32
  }

  lemma FieldSizes()
    ensures Pow256(4) == WORD32 && Pow256(8) >= WORD32
  {
    assert Pow256(2) == 65536;
    assert Pow256(4) == 256 * Pow256(3) == 65536 * Pow256(2);
    assert Pow256(6) == 65536 * Pow256(4) && Pow256(8) == 65536 * Pow256(6);
  }

  lemma SliceOfDrop(s: seq<byte>, a: nat, c: nat, d: nat)
    requires c <= d && a + d <= |s|
    ensures s[a..][c..d] == s[a + c..a + d]
  {
  }

  lemma SliceOfSlice(s: seq<byte>, a: nat, b: nat, c: nat, d: nat)
    requires a <= b <= |s| && c <= d <= b - a
    ensures s[a..b][c..d] == s[a + c..a + d]
  {
    forall j | 0 <= j < d - c ensures s[a..b][c..d][j] == s[a + c..a + d][j] {
      assert s[a..b][c..d][j] == s[a..b][c + j] == s[a + c + j];
    }
  }

  lemma SliceOfSum(s: seq<byte>, t: seq<byte>, a: nat, b: nat)
    requires a <= b <= |s|
    ensures (s + t)[a..b] == s[a..b] && (s + t)[|s|..|s| + |t|] == t
  {
  }

  lemma {:induction false} TextPrefix(syms: seq<Sym>, i: nat, j: nat)
    requires i <= j <= |syms|
    ensures TextTo(syms, i) <= TextTo(syms, j)
    decreases j
  {
    if i < j {
      TextPrefix(syms, i, j - 1);
    }
  }

  // Name i stands, terminated, at its offset.
  lemma NameAt(syms: seq<Sym>, i: nat, n: nat)
    requires i < n <= |syms|
    ensures Offset(syms, i) + |syms[i].name| + 1 <= Offset(syms, n)
    ensures syms[i].name + [0] <= TextTo(syms, n)[Offset(syms, i)..]
  {
    TextPrefix(syms, i + 1, n);
    var t, u := TextTo(syms, i + 1), TextTo(syms, n);
    assert t == TextTo(syms, i) + (syms[i].name + [0]);
    assert u[..|t|] == t;
    assert u[Offset(syms, i)..][..|syms[i].name| + 1] == t[Offset(syms, i)..] == syms[i].name + [0];
  }

  lemma {:induction false} EntrySlice(syms: seq<Sym>, i: nat, n: nat)
    requires i < n <= |syms|
    ensures EntriesTo(syms, n)[16 * i..16 * i + 16] == Entry(syms, i)
    decreases n
  {
    var front, last := EntriesTo(syms, n - 1), Entry(syms, n - 1);
    if i < n - 1 {
      EntrySlice(syms, i, n - 1);
      SliceOfSum(front, last, 16 * i, 16 * i + 16);
    } else {
      SliceOfSum(front, last, 0, 0);
    }
  }

  // The three parts of an image.
  lemma Parts(d: nat, c: nat, text: seq<byte>, entries: seq<byte>)
    requires d < WORD32 && c < WORD32
    ensures var image := Header(d, c) + text + entries;
      && |image| == 12 + |text| + |entries|
      && Word32At(image, 4) == d && Word32At(image, 8) == c
      && image[12..12 + |text|] == text && image[12 + |text|..] == entries
  {
    var image := Header(d, c) + text + entries;
    FieldSizes();
    assert image[4..8] == Le(d, 4) && image[8..12] == Le(c, 4);
    LeRoundTrip(d, 4);
    LeRoundTrip(c, 4);
  }

  lemma EntryReads(bs: seq<byte>, value: nat, offset: nat)
    requires bs == Le(value, 8) + Le(offset, 8) && value < Pow256(8) && offset < Pow256(8)
    ensures FromLe(bs[..8]) == value && FromLe(bs[8..16]) == offset
  {
    var v, o := Le(value, 8), Le(offset, 8);
    SliceOfSum(v, o, 0, 8);
    assert bs[..8] == bs[0..8] && v[0..8] == v;
    LeRoundTrip(value, 8);
    LeRoundTrip(offset, 8);
  }

  /** The header points just past the names and carries the count. */
  lemma ImageHeader(syms: seq<Sym>)
    requires Fits(syms)
    ensures var n, image := |syms|, Image(syms);
      && |image| == 12 + Offset(syms, n) + 16 * n
      && Word32At(image, 4) == 12 + Offset(syms, n) && Word32At(image, 8) == n
      && image[12..12 + Offset(syms, n)] == TextTo(syms, n) && image[12 + Offset(syms, n)..] == EntriesTo(syms, n)
  {
    var n := |syms|;
    var d := Offset(syms, n) + 12;
    SmallRemainder(d);
    SmallRemainder(n);
    assert Image(syms) == Laid(syms, d, n);
    Parts(d, n, TextTo(syms, n), EntriesTo(syms, n));
  }

  // Sixteen bytes at a known place read as a descriptor.
  lemma DescriptorReads(image: seq<byte>, i: nat, h: nat, value: nat, offset: nat)
    requires 12 <= |image| && h == Word32At(image, 4) && h + 16 * i + 16 <= |image|
    requires image[h + 16 * i..h + 16 * i + 16] == Le(value, 8) + Le(offset, 8)
    requires value < Pow256(8) && offset < Pow256(8)
    ensures EntryValue(image, i) == value && EntryOffset(image, i) == offset
  {
    ReadsAt(image, h + 16 * i, value, offset);
  }

  lemma ReadsAt(image: seq<byte>, at: nat, value: nat, offset: nat)
    requires at + 16 <= |image| && image[at..at + 16] == Le(value, 8) + Le(offset, 8)
    requires value < Pow256(8) && offset < Pow256(8)
    ensures Word64At(image, at) == value && Word64At(image, at + 8) == offset
  {
    EntryReads(image[at..at + 16], value, offset);
    SliceOfSlice(image, at, at + 16, 0, 8);
    SliceOfSlice(image, at, at + 16, 8, 16);
  }

  lemma OffsetFits(syms: seq<Sym>, i: nat)
    requires Fits(syms) && i < |syms|
    ensures Offset(syms, i) % WORD32 == Offset(syms, i) < INT_LIMIT
  {
    NameAt(syms, i, |syms|);
    SmallRemainder(Offset(syms, i));
  }

  lemma SmallRemainder(x: nat)
    ensures x < WORD32 ==> x % WORD32 == x
  {
  }

  // Descriptor i carries the address of symbol i and the offset of its name.
  lemma ImageEntry(syms: seq<Sym>, i: nat)
    requires Fits(syms) && i < |syms|
    ensures 12 <= |Image(syms)| && Word32At(Image(syms), 4) + 16 * i + 16 <= |Image(syms)|
    ensures EntryValue(Image(syms), i) == syms[i].value && EntryOffset(Image(syms), i) == Offset(syms, i)
  {
    var n, image := |syms|, Image(syms);
    var h, entries := 12 + Offset(syms, n), EntriesTo(syms, n);
    ImageHeader(syms);
    NameAt(syms, i, n);
    EntrySlice(syms, i, n);
    FieldSizes();
    SliceOfDrop(image, h, 16 * i, 16 * i + 16);
    OffsetFits(syms, i);
    DescriptorReads(image, i, h, syms[i].value, Offset(syms, i));
  }

  // Memory from the string table on, at the offset of name i, begins with that name.
  lemma ImageName(syms: seq<Sym>, i: nat)
    requires Fits(syms) && i < |syms|
    ensures 12 + Offset(syms, i) <= |Image(syms)| && syms[i].name + [0] <= Image(syms)[12 + Offset(syms, i)..]
    ensures Offset(syms, i) < INT_LIMIT
  {
    ImageHeader(syms);
    NameAt(syms, i, |syms|);
    PrefixInside(Image(syms), 12, TextTo(syms, |syms|), Offset(syms, i), syms[i].name + [0]);
  }

  lemma PrefixInside(image: seq<byte>, base: nat, text: seq<byte>, off: nat, name: seq<byte>)
    requires base + |text| <= |image| && image[base..base + |text|] == text
    requires off <= |text| && name <= text[off..]
    ensures name <= image[base + off..]
  {
    forall j | 0 <= j < |name| ensures image[base + off..][j] == name[j] {
      assert name[j] == text[off..][j] == text[off + j] == image[base..base + |text|][off + j];
    }
  }

  /** The header byte by byte: behind the magic number the position just past the names, then the
      number of symbols, both 32-bit and lowest byte first. */
  lemma HeaderBytes(syms: seq<Sym>, b: nat)
    requires Fits(syms) && b < 4
    ensures |Image(syms)| == 12 + Offset(syms, |syms|) + 16 * |syms|
    ensures Image(syms)[4 + b] == (12 + Offset(syms, |syms|)) / Pow256(b) % 256
    ensures Image(syms)[8 + b] == |syms| / Pow256(b) % 256
  {
    var n := |syms|;
    var d := Offset(syms, n) + 12;
    ImageHeader(syms);
    SmallRemainder(d);
    SmallRemainder(n);
    assert Image(syms) == Laid(syms, d, n);
    LeAt(d, 4, b);
    LeAt(n, 4, b);
  }

  /** Descriptor i byte by byte: 64-bit address, then 64-bit offset of the name. */
  lemma EntryBytes(syms: seq<Sym>, i: nat, b: nat)
    requires Fits(syms) && i < |syms| && b < 8
    ensures var at := 12 + Offset(syms, |syms|) + 16 * i;
      && at + 16 <= |Image(syms)|
      && Image(syms)[at + b] == syms[i].value / Pow256(b) % 256
      && Image(syms)[at + 8 + b] == Offset(syms, i) / Pow256(b) % 256
  {
    var n, image := |syms|, Image(syms);
    var h, entries, entry := 12 + Offset(syms, n), EntriesTo(syms, n), Entry(syms, i);
    ImageHeader(syms);
    EntrySlice(syms, i, n);
    SliceOfDrop(image, h, 16 * i, 16 * i + 16);
    OffsetFits(syms, i);
    ByteInside(image, h + 16 * i, entry, b);
    ByteInside(image, h + 16 * i, entry, 8 + b);
    LeAt(syms[i].value, 8, b);
    LeAt(Offset(syms, i), 8, b);
  }

  lemma ByteInside(image: seq<byte>, at: nat, part: seq<byte>, b: nat)
    requires at + |part| <= |image| && image[at..at + |part|] == part && b < |part|
    ensures image[at + b] == part[b]
  {
    assert part[b] == image[at..at + |part|][b];
  }

  lemma ImageReadable(syms: seq<Sym>)
    requires Fits(syms)
    ensures Readable(Image(syms))
  {
    var image := Image(syms);
    ImageHeader(syms);
    forall i | 0 <= i < Word32At(image, 8)
      ensures 12 + EntryOffset(image, i) <= |image| && EntryOffset(image, i) < INT_LIMIT
    {
      ImageEntry(syms, i);
      ImageName(syms, i);
    }
  }

  // ----- Names the linker cannot tell apart

  function Seen(name: seq<byte>, n: nat): seq<byte> { if |name| <= n then name else name[..n] }

  lemma {:induction false} StrnEqualIs(a: seq<byte>, b: seq<byte>, p: seq<byte>, q: seq<byte>, n: nat)
    requires 0 !in a && 0 !in b && a + [0] <= p && b + [0] <= q
    ensures StrnEqual(p, q, n) <==> Seen(a, n) == Seen(b, n)
    decreases n
  {
    if n > 0 {
      assert p[0] == (a + [0])[0] && q[0] == (b + [0])[0];
      if a != [] && b != [] {
        TailStarts(a, p);
        TailStarts(b, q);
        StrnEqualIs(a[1..], b[1..], p[1..], q[1..], n - 1);
        SeenCons(a, n);
        SeenCons(b, n);
      }
    }
  }

  lemma TailStarts(a: seq<byte>, p: seq<byte>)
    requires a != [] && a + [0] <= p
    ensures a[1..] + [0] <= p[1..]
  {
    assert (a + [0])[1..] == a[1..] + [0];
  }

  lemma SeenCons(a: seq<byte>, n: nat)
    requires a != [] && n > 0
    ensures Seen(a, n) == [a[0]] + Seen(a[1..], n - 1)
  {
  }

  /** End to end: in the image of any symbol table that fits, entry i matches a name exactly when
      symbol i has that name as far as its first 128 characters. */
  lemma ImageFaithful(syms: seq<Sym>, name: seq<byte>, i: nat)
    requires Fits(syms) && 0 !in name && i < |syms|
    ensures Readable(Image(syms)) && Word32At(Image(syms), 8) == |syms|
    ensures EntryValue(Image(syms), i) == syms[i].value
    ensures Matches(Image(syms), name, i) <==> Seen(name, MAX_SYM_LEN) == Seen(syms[i].name, MAX_SYM_LEN)
  {
    ImageReadable(syms);
    ImageHeader(syms);
    ImageEntry(syms, i);
    ImageName(syms, i);
    StrnEqualIs(name, syms[i].name, name + [0], Image(syms)[12 + Offset(syms, i)..], MAX_SYM_LEN);
  }

  // ----- Writing the image from the list

  // A node's buffer holds a NUL-terminated name.
  ghost predicate NamedNodes(ns: seq<Symlist>) {
    forall i :: 0 <= i < |ns| ==> |ns[i].sym| > 0 && ns[i].sym[|ns[i].sym| - 1] == 0
  }

  function SymOf(n: Symlist): Sym
    requires |n.sym| > 0
  {
    Sym(n.value, n.sym[..|n.sym| - 1])
  }

  ghost function SymsOf(ns: seq<Symlist>): (syms: seq<Sym>)
    requires NamedNodes(ns)
    ensures |syms| == |ns| && forall i :: 0 <= i < |ns| ==> syms[i] == SymOf(ns[i])
  {
    seq(|ns|, i requires 0 <= i < |ns| => SymOf(ns[i]))
  }

  // The first k nodes know the 32-bit offset of their name.
  ghost predicate Placed(ns: seq<Symlist>, syms: seq<Sym>, k: nat)
    requires k <= |ns| == |syms|
    reads Nodes(ns)
  {
    forall i :: 0 <= i < k ==> ns[i].offset == Offset(syms, i) % WORD32
  }

  lemma NextOffset(syms: seq<Sym>, i: nat, sym: seq<byte>)
    requires i < |syms| && sym == syms[i].name + [0]
    ensures TextTo(syms, i + 1) == TextTo(syms, i) + sym
    ensures (Offset(syms, i) % WORD32 + |sym|) % WORD32 == Offset(syms, i + 1) % WORD32
  {
    assert TextTo(syms, i + 1) == TextTo(syms, i) + (syms[i].name + [0]);
    ModAdd(Offset(syms, i), |sym|);
  }

  lemma ModAdd(x: nat, y: nat)
    ensures (x % WORD32 + y) % WORD32 == (x + y) % WORD32
  {
  }

  // Notes the offset of a node's name and steps to the next node; the links stay.
  method Place(sp: Symlist?, ghost ns: seq<Symlist>, ghost syms: seq<Sym>, ghost k: nat, node: Symlist, offset: nat)
    returns (next: Symlist?)
    requires Chain(sp, ns) && k < |ns| == |syms| && node == ns[k] && Placed(ns, syms, k)
    requires offset == Offset(syms, k) % WORD32
    modifies Nodes(ns)
    ensures Chain(sp, ns) && Placed(ns, syms, k + 1) && next == After(ns, k)
  {
    assert node in Nodes(ns) && ns[k].next == After(ns, k);
    node.offset := offset;
    next := node.next;
    forall i | 0 <= i < |ns| ensures ns[i].next == After(ns, i) {
    }
  }

  // Writes one name and moves the running offset past it.
  method AppendName(ghost syms: seq<Sym>, ghost k: nat, sym: seq<byte>, ghost file0: seq<byte>, file: seq<byte>,
                    offset: nat)
    returns (file': seq<byte>, offset': nat)
    requires k < |syms| && sym == syms[k].name + [0]
    requires file == file0 + TextTo(syms, k) && offset == Offset(syms, k) % WORD32
    ensures file' == file0 + TextTo(syms, k + 1) && offset' == Offset(syms, k + 1) % WORD32
  {
    NextOffset(syms, k, sym);
    file' := Append(file0, TextTo(syms, k), file, sym);
    offset' := (offset + |sym|) % WORD32;
  }

  // One turn of the loop over the names.
  method WriteName(sp: Symlist?, ghost ns: seq<Symlist>, ghost syms: seq<Sym>, ghost k: nat, node: Symlist,
                   ghost file0: seq<byte>, file: seq<byte>, offset: nat)
    returns (file': seq<byte>, offset': nat, next: Symlist?)
    requires Chain(sp, ns) && k < |ns| == |syms| && node == ns[k] && Placed(ns, syms, k)
    requires node.sym == syms[k].name + [0]
    requires file == file0 + TextTo(syms, k) && offset == Offset(syms, k) % WORD32
    modifies Nodes(ns)
    ensures Chain(sp, ns) && Placed(ns, syms, k + 1) && next == After(ns, k)
    ensures file' == file0 + TextTo(syms, k + 1) && offset' == Offset(syms, k + 1) % WORD32
  {
    file', offset' := AppendName(syms, k, node.sym, file0, file, offset);
    next := Place(sp, ns, syms, k, node, offset);
  }

  // Writes the names after what the file holds and notes the offset of each in its node.
  method WriteNames(sp: Symlist?, ghost ns: seq<Symlist>, ghost syms: seq<Sym>, file0: seq<byte>)
    returns (file: seq<byte>, offset: nat)
    requires Chain(sp, ns) && |ns| == |syms|
    requires forall i :: 0 <= i < |ns| ==> ns[i].sym == syms[i].name + [0]
    modifies Nodes(ns)
    ensures Chain(sp, ns) && Placed(ns, syms, |ns|)
    ensures file == file0 + TextTo(syms, |ns|) && offset == Offset(syms, |ns|) % WORD32
  {
    file, offset := file0, 0;
    ghost var k := 0;
    var tmp := sp;
    while tmp != null
      invariant 0 <= k <= |ns| && tmp == if k < |ns| then ns[k] else null
      invariant Chain(sp, ns) && Placed(ns, syms, k)
      invariant file == file0 + TextTo(syms, k) && offset == Offset(syms, k) % WORD32
      decreases |ns| - k
    {
      file, offset, tmp := WriteName(sp, ns, syms, k, tmp, file0, file, offset);
      k := k + 1;
    }
  }

  method Append(ghost front: seq<byte>, ghost back: seq<byte>, file: seq<byte>, more: seq<byte>) returns (r: seq<byte>)
    requires file == front + back
    ensures r == front + (back + more)
  {
    r := file + more;
  }

  lemma NodeTexts(ns: seq<Symlist>)
    requires NamedNodes(ns)
    ensures forall i :: 0 <= i < |ns| ==> ns[i].sym == SymsOf(ns)[i].name + [0]
  {
  }

  // Appends one descriptor for each node.
  method WriteEntries(sp: Symlist?, ghost ns: seq<Symlist>, ghost syms: seq<Sym>, file0: seq<byte>)
    returns (file: seq<byte>)
    requires Chain(sp, ns) && |ns| == |syms| && Placed(ns, syms, |ns|)
    requires forall i :: 0 <= i < |ns| ==> ns[i].value == syms[i].value
    ensures file == file0 + EntriesTo(syms, |ns|)
  {
    file := file0;
    ghost var i := 0;
    var p := sp;
    while p != null
      invariant 0 <= i <= |ns| && p == if i < |ns| then ns[i] else null
      invariant file == file0 + EntriesTo(syms, i)
      decreases |ns| - i
    {
      ghost var entry := Entry(syms, i);
      assert Le(p.value, 8) + Le(p.offset, 8) == entry;
      file := Append(file0, EntriesTo(syms, i), file, Le(p.value, 8) + Le(p.offset, 8));
      assert ns[i].next == After(ns, i);
      p := p.next;
      i := i + 1;
    }
  }

  // Four bytes written over the middle of a file.
  lemma PatchField(front: seq<byte>, field: seq<byte>, back: seq<byte>, field': seq<byte>)
    ensures var file := front + field + back;
      file[..|front|] + field' + file[|front| + |field|..] == front + field' + back
  {
  }

  // Writing the two header fields over their placeholders.
  lemma PatchHeader(text: seq<byte>, d: nat, c: nat)
    ensures var f0 := Header(0, 0) + text;
      var f1 := f0[..4] + Le(d, 4) + f0[8..];
      f1[..8] + Le(c, 4) + f1[12..] == Header(d, c) + text
  {
    PatchTwo(Le(MAGIC, 4), Le(0, 4), Le(0, 4), text, Le(d, 4), Le(c, 4));
  }

  lemma PatchTwo(m: seq<byte>, x: seq<byte>, y: seq<byte>, text: seq<byte>, x': seq<byte>, y': seq<byte>)
    requires |m| == |x| == |y| == |x'| == |y'| == 4
    ensures var f0 := (m + x + y) + text;
      var f1 := f0[..4] + x' + f0[8..];
      f1[..8] + y' + f1[12..] == (m + x' + y') + text
  {
    var f0 := (m + x + y) + text;
    assert f0 == m + x + (y + text);
    PatchField(m, x, y + text, x');
    assert m + x' + (y + text) == (m + x') + y + text;
    PatchField(m + x', y, text, y');
  }

  method WriteHeader(file: seq<byte>, ghost text: seq<byte>, d: nat, c: nat) returns (r: seq<byte>)
    requires file == Header(0, 0) + text
    ensures r == Header(d, c) + text
  {
    PatchHeader(text, d, c);
    r := file[..4] + Le(d, 4) + file[8..];
    r := r[..8] + Le(c, 4) + r[12..];
  }

  lemma AssembledImage(syms: seq<Sym>, offset: nat)
    requires offset == Offset(syms, |syms|) % WORD32
    ensures Image(syms) == Laid(syms, (offset + 12) % WORD32, |syms| % WORD32)
  {
    ModAdd(Offset(syms, |syms|), 12);
  }

  method WriteSorted(sp: Symlist?, ghost ns: seq<Symlist>, noe: nat) returns (file: seq<byte>)
    requires Chain(sp, ns) && NamedNodes(ns) && noe == |ns| % WORD32
    modifies Nodes(ns)
    ensures file == Image(SymsOf(ns))
  {
    NodeTexts(ns);
    ghost var n, syms := |ns|, SymsOf(ns);
    var offset;
    file := Header(0, 0);
    file, offset := WriteNames(sp, ns, syms, file);
    AssembledImage(syms, offset);
    file := WriteHeader(file, TextTo(syms, n), (offset + 12) % WORD32, noe);
    file := WriteEntries(sp, ns, syms, file);
  }

  lemma SortKeepsNames(ns: seq<Symlist>)
    requires NamedNodes(ns)
    ensures NamedNodes(MergeSort(ns)) && Nodes(MergeSort(ns)) == Nodes(ns)
  {
    SortNodes(ns);
    var sorted := MergeSort(ns);
    forall i | 0 <= i < |sorted| ensures |sorted[i].sym| > 0 && sorted[i].sym[|sorted[i].sym| - 1] == 0 {
      assert sorted[i] in Nodes(sorted);
      assert sorted[i] in ns;
    }
  }

  lemma SortLength(ns: seq<Symlist>)
    ensures |MergeSort(ns)| == |ns|
  {
    MergeSortCorrect(ns);
    assert |multiset(MergeSort(ns))| == |multiset(ns)|;
  }

  /** The tool: sorts the list by address, writes names, patches the header, writes descriptors. */
  method WriteImage(head: Symlist?, ghost ns: seq<Symlist>, noe: nat) returns (file: seq<byte>)
    requires Chain(head, ns) && NamedNodes(ns) && noe == |ns| % WORD32
    modifies Nodes(ns)
    ensures NamedNodes(MergeSort(ns)) && file == Image(SymsOf(MergeSort(ns)))
    ensures |file| >= 4 && file[..4] == [0x00, 0x27, 0x95, 0x00]
  {
    SortKeepsNames(ns);
    ImageMagic(SymsOf(MergeSort(ns)));
    SortLength(ns);
    var sp := MergeSortSymlist(head, ns);
    file := WriteSorted(sp, MergeSort(ns), noe);
  }

  // ----- Tool and linker together

  /** A name shorter than 128 characters: in the image of any table that fits, an entry matches it
      exactly if the symbol has that very name. */
  lemma ShortNamesExact(syms: seq<Sym>, name: seq<byte>, i: nat)
    requires Fits(syms) && 0 !in name && |name| < MAX_SYM_LEN && i < |syms|
    ensures Readable(Image(syms)) && Word32At(Image(syms), 8) == |syms|
    ensures Matches(Image(syms), name, i) <==> syms[i].name == name
  {
    ImageFaithful(syms, name, i);
  }

  // Another name that agrees with a long one in the first 128 characters.
  function Confusable(name: seq<byte>): (other: seq<byte>)
    requires 0 !in name && |name| >= MAX_SYM_LEN
    ensures other != name && 0 !in other && |other| <= MAX_SYM_LEN + 1
    ensures Seen(other, MAX_SYM_LEN) == Seen(name, MAX_SYM_LEN)
  {
    if |name| == MAX_SYM_LEN then name + [1] else name[..MAX_SYM_LEN]
  }

  lemma OneSymbolFits(value: nat, name: seq<byte>)
    requires value < WORD32 && 0 !in name && |name| <= MAX_SYM_LEN + 1
    ensures Fits([Sym(value, name)])
  {
    var syms := [Sym(value, name)];
    FieldSizes();
    assert TextTo(syms, 1) == [] + name + [0];
  }

  /** A name of 128 characters or more: some table that fits has no symbol of that name, yet the
      first entry of its image matches, so the linker resolves the name to a foreign address. */
  lemma LongNamesConfused(name: seq<byte>, value: nat)
    requires 0 !in name && |name| >= MAX_SYM_LEN && value < WORD32
    ensures var syms := [Sym(value, Confusable(name))];
      && Fits(syms) && syms[0].name != name && Readable(Image(syms))
      && FirstMatch(Image(syms), name, 0) && EntryValue(Image(syms), 0) == value
  {
    OneSymbolFits(value, Confusable(name));
    ImageFaithful([Sym(value, Confusable(name))], name, 0);
  }

  // Entry i of the image of syms matches the name.
  ghost predicate EntryMatches(syms: seq<Sym>, name: seq<byte>, i: nat)
    requires Fits(syms) && i < |syms|
  {
    ImageReadable(syms);
    ImageHeader(syms);
    Matches(Image(syms), name, i)
  }

  // In every table that fits, the entries that match the name are those of symbols with that name.
  ghost predicate ToldApart(name: seq<byte>) {
    forall syms: seq<Sym>, i: nat :: Fits(syms) && i < |syms| ==>
      (EntryMatches(syms, name, i) <==> syms[i].name == name)
  }

  /** The linker tells a name from all others, in every table, exactly if it is shorter than
      128 characters. */
  lemma NamesToldApart(name: seq<byte>)
    requires 0 !in name
    ensures ToldApart(name) <==> |name| < MAX_SYM_LEN
  {
    if |name| < MAX_SYM_LEN {
      forall syms: seq<Sym>, i: nat | Fits(syms) && i < |syms|
        ensures EntryMatches(syms, name, i) <==> syms[i].name == name
      {
        ShortNamesExact(syms, name, i);
      }
    } else {
      var syms := [Sym(0, Confusable(name))];
      LongNamesConfused(name, 0);
      assert EntryMatches(syms, name, 0);
    }
  }

  // Node x carries the name, as far as the linker looks.
  predicate Named(x: Symlist, name: seq<byte>) {
    |x.sym| > 0 && Seen(name, MAX_SYM_LEN) == Seen(SymOf(x).name, MAX_SYM_LEN)
  }

  // The entries of the image are the sorted nodes.
  lemma EntriesAreNodes(sorted: seq<Symlist>, name: seq<byte>)
    requires NamedNodes(sorted) && Fits(SymsOf(sorted)) && 0 !in name
    ensures var image := Image(SymsOf(sorted));
      && Readable(image) && Word32At(image, 8) == |sorted|
      && forall i :: 0 <= i < |sorted| ==>
           (Matches(image, name, i) <==> Named(sorted[i], name)) && EntryValue(image, i) == sorted[i].value
  {
    var syms := SymsOf(sorted);
    ImageHeader(syms);
    ImageReadable(syms);
    forall i | 0 <= i < |sorted|
      ensures var image := Image(syms);
        (Matches(image, name, i) <==> Named(sorted[i], name)) && EntryValue(image, i) == sorted[i].value
    {
      ImageFaithful(syms, name, i);
    }
  }

  // The first sorted node with a name has the lowest address of all input nodes with that name.
  lemma FirstIsLowest(ns: seq<Symlist>, name: seq<byte>, at: nat)
    requires at <= |MergeSort(ns)|
    requires forall i :: 0 <= i < at ==> !Named(MergeSort(ns)[i], name)
    ensures at == |MergeSort(ns)| ==> forall x :: x in ns ==> !Named(x, name)
    ensures at < |MergeSort(ns)| ==> MergeSort(ns)[at] in ns
    ensures at < |MergeSort(ns)| ==> forall x :: x in ns && Named(x, name) ==> MergeSort(ns)[at].value <= x.value
  {
    var sorted := MergeSort(ns);
    MergeSortCorrect(ns);
    SortNodes(ns);
    forall x | x in ns && Named(x, name) ensures at < |sorted| && sorted[at].value <= x.value {
      assert x in Nodes(sorted);
      var j :| 0 <= j < |sorted| && sorted[j] == x;
    }
    if at < |sorted| {
      assert sorted[at] in Nodes(sorted);
    }
  }

  // r is what the input nodes say about exactly that name.
  ghost predicate ResolvedExactly(ns: seq<Symlist>, name: seq<byte>, r: Lookup)
    requires NamedNodes(ns)
  {
    match r
    case NotFound => forall i :: 0 <= i < |ns| ==> SymOf(ns[i]).name != name
    case Found(addr) =>
      && (exists i :: 0 <= i < |ns| && SymOf(ns[i]).name == name && ns[i].value == addr)
      && forall i :: 0 <= i < |ns| && SymOf(ns[i]).name == name ==> addr <= ns[i].value
  }

  lemma ShortIsExact(ns: seq<Symlist>, name: seq<byte>, r: Lookup)
    requires NamedNodes(ns) && |name| < MAX_SYM_LEN
    ensures Resolved(ns, name, r) <==> ResolvedExactly(ns, name, r)
  {
    forall i | 0 <= i < |ns| ensures Named(ns[i], name) <==> SymOf(ns[i]).name == name {
    }
  }

  // r is what the input nodes say about the name: no node has it, or r is the lowest address that has it.
  ghost predicate Resolved(ns: seq<Symlist>, name: seq<byte>, r: Lookup) {
    match r
    case NotFound => forall x :: x in ns ==> !Named(x, name)
    case Found(addr) =>
      && (exists x :: x in ns && Named(x, name) && x.value == addr)
      && forall x :: x in ns && Named(x, name) ==> addr <= x.value
  }

  lemma AnswerIsLowest(ns: seq<Symlist>, name: seq<byte>, image: seq<byte>, r: Lookup)
    requires var sorted := MergeSort(ns);
      && Readable(image) && Word32At(image, 8) == |sorted|
      && forall i :: 0 <= i < |sorted| ==>
           (Matches(image, name, i) <==> Named(sorted[i], name)) && EntryValue(image, i) == sorted[i].value
    requires r.NotFound? ==> forall i :: 0 <= i < Word32At(image, 8) ==> !Matches(image, name, i)
    requires r.Found? ==> exists at :: FirstMatch(image, name, at) && r.addr == EntryValue(image, at)
    ensures Resolved(ns, name, r)
  {
    var at: nat := |MergeSort(ns)|;
    if r.Found? {
      at :| FirstMatch(image, name, at) && r.addr == EntryValue(image, at);
    }
    FirstIsLowest(ns, name, at);
  }

  /** Build tool and linker together: the image is read safely, and the linker finds the lowest
      address under that name, or nothing exactly when no input symbol has it. */
  method ResolveInImage(image: seq<byte>, ghost ns: seq<Symlist>, name: seq<byte>) returns (r: Lookup)
    requires NamedNodes(ns) && NamedNodes(MergeSort(ns)) && Fits(SymsOf(MergeSort(ns))) && 0 !in name
    requires image == Image(SymsOf(MergeSort(ns)))
    ensures Resolved(ns, name, r)
    ensures |name| < MAX_SYM_LEN ==> ResolvedExactly(ns, name, r)
  {
    EntriesAreNodes(MergeSort(ns), name);
    r := ResolveSymbol(image, name, 0, 0);
    AnswerIsLowest(ns, name, image, r);
    if |name| < MAX_SYM_LEN {
      ShortIsExact(ns, name, r);
    }
  }
}

/**
 Guest memory: regions of bytes, decoded by address, accessed little-endian in 1 to 8 bytes.
 Read-only regions reject every write, and so does any access that leaves its region.
 */
module Memory {
  import opened Outcomes
  import opened Words

  datatype Kind = Ram | Rom | Mmio

  datatype Region = Region(name: string, base: nat, size: nat, kind: Kind, bytes: seq<Byte>) {
    predicate Contains(a: nat) {
      base <= a < base + size
    }

    predicate Wf() {
      size >= 1 && |bytes| == size
    }
  }

  type Mem = seq<Region>

  predicate Apart(r: Region, s: Region) {
    r.base + r.size <= s.base || s.base + s.size <= r.base
  }

  predicate Valid(mem: Mem) {
    && (forall i :: 0 <= i < |mem| ==> mem[i].Wf())
    && (forall i, j :: 0 <= i < j < |mem| ==> Apart(mem[i], mem[j]))
  }

  /** Adds a region unless it overlaps one already there. */
  function Add(mem: Mem, region: Region): Result<Mem> {
    if forall i :: 0 <= i < |mem| ==> Apart(region, mem[i]) then Ok(mem + [region]) else Err
  }

  lemma AddKeepsValid(mem: Mem, region: Region)
    requires Valid(mem) && region.Wf()
    ensures Add(mem, region).Ok? <==> Valid(mem + [region])
    ensures Add(mem, region).Ok? ==> Valid(Add(mem, region).value)
  {
    var more := mem + [region];
    assert more[|mem|] == region && forall i :: 0 <= i < |mem| ==> more[i] == mem[i];
    if i :| 0 <= i < |mem| && !Apart(region, mem[i]) {
      assert !Apart(more[i], more[|mem|]);
    }
  }

  /** The first region that holds an address. */
  function RegionAt(mem: Mem, a: nat): (at: Option<nat>)
    ensures at.Some? ==> at.value < |mem| && mem[at.value].Contains(a)
    ensures at.None? ==> forall i :: 0 <= i < |mem| ==> !mem[i].Contains(a)
  {
    if mem == [] then None
    else if mem[0].Contains(a) then Some(0)
    else
      var i :- RegionAt(mem[1..], a);
      Some(i + 1)
  }

  /** In a valid map a region that holds an address is the one it decodes to. */
  lemma DecodesTo(mem: Mem, a: nat, i: nat)
    requires Valid(mem) && i < |mem| && mem[i].Contains(a)
    ensures RegionAt(mem, a) == Some(i)
  {
    var j := RegionAt(mem, a).value;
    assert mem[j].Contains(a);
    assert i < j ==> Apart(mem[i], mem[j]);
    assert j < i ==> Apart(mem[j], mem[i]);
  }

  // ---- reading and writing ----

  /** Replaces the bytes from `off` on. */
  function Splice(s: seq<Byte>, off: nat, data: seq<Byte>): (t: seq<Byte>)
    requires off + |data| <= |s|
    ensures |t| == |s|
    ensures forall k :: 0 <= k < |s| ==> t[k] == if off <= k < off + |data| then data[k - off] else s[k]
  {
    s[..off] + data + s[off + |data|..]
  }

  lemma IsSplice(s: seq<Byte>, t: seq<Byte>, off: nat, data: seq<Byte>)
    requires off + |data| <= |s| == |t|
    requires forall k :: 0 <= k < |s| ==> t[k] == if off <= k < off + |data| then data[k - off] else s[k]
    ensures t == Splice(s, off, data)
  {
  }

  predicate Fits(r: Region, addr: nat, n: nat) {
    r.Contains(addr) && addr - r.base + n <= |r.bytes|
  }

  /** Writes a run of bytes into one region. */
  function WriteSlice(r: Region, addr: nat, data: seq<Byte>): Result<Region> {
    if r.kind == Rom || !Fits(r, addr, |data|) then Err
    else Ok(r.(bytes := Splice(r.bytes, addr - r.base, data)))
  }

  function Read(mem: Mem, addr: nat, n: nat): Result<nat> {
    match RegionAt(mem, addr)
    case None => Err
    case Some(i) =>
      var r := mem[i];
      if n == 0 || n > 8 || !Fits(r, addr, n) then Err
      else Ok(BytesValue(r.bytes[addr - r.base..addr - r.base + n]))
  }

  function Write(mem: Mem, addr: nat, n: nat, val: nat): Result<Mem> {
    match RegionAt(mem, addr)
    case None => Err
    case Some(i) =>
      if n == 0 || n > 8 then Err
      else
        var r :- WriteSlice(mem[i], addr, Bytes(val, n));
        Ok(mem[i := r])
  }

  /** What is written is read back, modulo two to the bits written. */
  lemma WriteThenRead(mem: Mem, addr: nat, n: nat, val: nat)
    requires Valid(mem) && Write(mem, addr, n, val).Ok?
    ensures Valid(Write(mem, addr, n, val).value)
    ensures Read(Write(mem, addr, n, val).value, addr, n) == Ok(val % Pow2(8 * n))
  {
    var i := RegionAt(mem, addr).value;
    var r := WriteSlice(mem[i], addr, Bytes(val, n)).value;
    var off := addr - r.base;
    ReplaceKeepsValid(mem, i, r);
    DecodesTo(mem[i := r], addr, i);
    hide Valid, Bytes, BytesValue;
    assert r.bytes[off..off + n] == Bytes(val, n);
    ValueOfBytes(val, n);
  }

  lemma ReplaceKeepsValid(mem: Mem, i: nat, r: Region)
    requires Valid(mem) && i < |mem| && r.Wf() && r.base == mem[i].base && r.size == mem[i].size
    ensures Valid(mem[i := r])
  {
    var mem' := mem[i := r];
    forall j, k | 0 <= j < k < |mem'|
      ensures Apart(mem'[j], mem'[k])
    {
      assert Apart(mem[j], mem[k]);
    }
  }

  // ---- what a core sees ----

  /** A byte as a core sees it, with its region's extent and kind. */
  datatype Cell = Cell(base: nat, size: nat, kind: Kind, byte: Byte)

  /** The mapped addresses. */
  type View = map<nat, Cell>

  function CellAt(mem: Mem, a: nat): Option<Cell>
    requires Valid(mem)
  {
    match RegionAt(mem, a)
    case None => None
    case Some(i) => Some(Cell(mem[i].base, mem[i].size, mem[i].kind, mem[i].bytes[a - mem[i].base]))
  }

  function Addresses(mem: Mem): (s: set<nat>)
    ensures forall a: nat :: a in s <==> RegionAt(mem, a).Some?
  {
    if mem == [] then {} else Span(mem[0].base, mem[0].size) + Addresses(mem[1..])
  }

  function Span(base: nat, size: nat): (s: set<nat>)
    ensures forall a: nat :: a in s <==> base <= a < base + size
  {
    if size == 0 then {} else Span(base, size - 1) + {base + size - 1}
  }

  function ViewOf(mem: Mem): (v: View)
    requires Valid(mem)
    ensures forall a: nat :: a in v <==> CellAt(mem, a).Some?
    ensures forall a: nat :: a in v ==> v[a] == CellAt(mem, a).value
  {
    map a: nat | a in Addresses(mem) :: CellAt(mem, a).value
  }

  lemma CellInOrder(mem: Mem, mem': Mem, a: nat)
    requires Valid(mem) && Valid(mem') && forall r :: r in mem <==> r in mem'
    ensures CellAt(mem, a) == CellAt(mem', a)
  {
    var at, at' := RegionAt(mem, a), RegionAt(mem', a);
    assert at'.Some? ==> mem'[at'.value] in mem;
    if at.Some? {
      assert mem[at.value] in mem';
      var j :| 0 <= j < |mem'| && mem'[j] == mem[at.value];
      DecodesTo(mem', a, j);
    }
  }

  /** The same regions in any order look the same. */
  lemma OrderIsInvisible(mem: Mem, mem': Mem)
    requires Valid(mem) && Valid(mem') && forall r :: r in mem <==> r in mem'
    ensures ViewOf(mem) == ViewOf(mem')
  {
    var v, v' := ViewOf(mem), ViewOf(mem');
    forall a: nat
      ensures a in v <==> a in v'
      ensures a in v ==> v[a] == v'[a]
    {
      CellInOrder(mem, mem', a);
    }
  }

  /** Stores one byte; unmapped and read-only bytes stay as they are. */
  function Poke(mem: Mem, a: nat, b: Byte): Mem {
    match RegionAt(mem, a)
    case Some(i) =>
      (match WriteSlice(mem[i], a, [b])
       case Ok(r) => mem[i := r]
       case Err => mem)
    case None => mem
  }

  function PokeView(v: View, a: nat, b: Byte): View {
    if a in v && v[a].kind != Rom then v[a := v[a].(byte := b)] else v
  }

  /** Storing a byte changes that byte of the view and nothing else. */
  lemma PokeIsLocal(mem: Mem, a: nat, b: Byte)
    requires Valid(mem)
    ensures Valid(Poke(mem, a, b)) && ViewOf(Poke(mem, a, b)) == PokeView(ViewOf(mem), a, b)
  {
    var at := RegionAt(mem, a);
    if at.Some? && mem[at.value].kind != Rom {
      var r := WriteSlice(mem[at.value], a, [b]).value;
      ReplaceKeepsValid(mem, at.value, r);
      ViewAfterPoke(mem, at.value, r, a, b);
    }
  }

  lemma ViewAfterPoke(mem: Mem, i: nat, r: Region, a: nat, b: Byte)
    requires Valid(mem) && RegionAt(mem, a) == Some(i) && WriteSlice(mem[i], a, [b]) == Ok(r) && Valid(mem[i := r])
    ensures ViewOf(mem[i := r]) == PokeView(ViewOf(mem), a, b)
  {
    PokedCell(mem, i, r, a, b);
    var v, v' := ViewOf(mem), ViewOf(mem[i := r]);
    forall x: nat
      ensures (x in v' <==> x in v) && (x in v' ==> v'[x] == if x == a then v[a].(byte := b) else v[x])
    {
      EntryAfterPoke(mem, i, r, a, b, x);
    }
    hide *;
    PokedView(v, v', a, b);
  }

  lemma PokedView(v: View, v': View, a: nat, b: Byte)
    requires a in v && v[a].kind != Rom
    requires forall x: nat :: (x in v' <==> x in v) && (x in v' ==> v'[x] == if x == a then v[a].(byte := b) else v[x])
    ensures v' == PokeView(v, a, b)
  {
  }

  lemma EntryAfterPoke(mem: Mem, i: nat, r: Region, a: nat, b: Byte, x: nat)
    requires Valid(mem) && RegionAt(mem, a) == Some(i) && WriteSlice(mem[i], a, [b]) == Ok(r) && Valid(mem[i := r])
    requires a in ViewOf(mem)
    ensures x in ViewOf(mem[i := r]) <==> x in ViewOf(mem)
    ensures x in ViewOf(mem) ==>
              ViewOf(mem[i := r])[x] == if x == a then ViewOf(mem)[a].(byte := b) else ViewOf(mem)[x]
  {
    hide *;
    CellAfterPoke(mem, i, r, a, b, x);
  }

  lemma PokedCell(mem: Mem, i: nat, r: Region, a: nat, b: Byte)
    requires Valid(mem) && RegionAt(mem, a) == Some(i) && WriteSlice(mem[i], a, [b]) == Ok(r)
    ensures a in ViewOf(mem) && ViewOf(mem)[a].kind != Rom
  {
    hide ViewOf;
    assert CellAt(mem, a).Some?;
  }

  lemma CellAfterPoke(mem: Mem, i: nat, r: Region, a: nat, b: Byte, x: nat)
    requires Valid(mem) && RegionAt(mem, a) == Some(i) && WriteSlice(mem[i], a, [b]) == Ok(r) && Valid(mem[i := r])
    ensures CellAt(mem[i := r], x) == if x == a then Some(CellAt(mem, a).value.(byte := b)) else CellAt(mem, x)
  {
    SameDecode(mem, i, r, x);
  }

  lemma SameDecode(mem: Mem, i: nat, r: Region, a: nat)
    requires Valid(mem) && i < |mem| && r.Wf() && r.base == mem[i].base && r.size == mem[i].size
    ensures RegionAt(mem[i := r], a) == RegionAt(mem, a)
  {
    ReplaceKeepsValid(mem, i, r);
    var at := RegionAt(mem, a);
    if at.Some? {
      DecodesTo(mem[i := r], a, at.value);
    } else {
      var at' := RegionAt(mem[i := r], a);
      assert at'.Some? ==> mem[at'.value].Contains(a);
    }
  }
}

/** A region's bytes in host memory, updated in place. */
module HostRegion {
  import opened Outcomes
  import opened Words
  import M = Memory

  class RamRegion {
    const name: string
    const base: nat
    const kind: M.Kind
    const backing: array<Byte>

    ghost predicate Valid()
      reads this
    {
      backing.Length >= 1
    }

    /** The region's value. */
    ghost function Value(): M.Region
      reads this, backing
    {
      M.Region(name, base, backing.Length, kind, backing[..])
    }

    constructor (name: string, base: nat, size: nat, kind: M.Kind)
      requires size >= 1
      ensures Valid() && fresh(backing)
      ensures Value() == M.Region(name, base, size, kind, seq(size, _ => 0))
    {
      this.name, this.base, this.kind := name, base, kind;
      backing := new Byte[size](_ => 0);
    }

    method Read(addr: nat, n: nat) returns (r: Result<nat>)
      requires Valid()
      ensures r == M.Read([Value()], addr, n)
    {
      if addr < base || base + backing.Length <= addr {
        return Err;
      }
      var off := addr - base;
      if n == 0 || n > 8 || off + n > backing.Length {
        return Err;
      }
      var v := 0;
      for i := 0 to n
        invariant v == BytesValue(backing[off..off + i]) < Pow2(8 * i)
      {
        BytesSnoc(backing[off..off + i], backing[off + i]);
        assert backing[off..off + i + 1] == backing[off..off + i] + [backing[off + i]];
        v := Bitwise(Or, v, Raise(backing[off + i], 8 * i));
      }
      assert backing[..][off..off + n] == backing[off..off + n];
      r := Ok(v);
    }

    method Write(addr: nat, n: nat, val: nat) returns (r: Result<()>)
      requires Valid()
      modifies backing
      ensures var next := M.Write([old(Value())], addr, n, val);
              && r.Ok? == next.Ok?
              && Value() == if next.Ok? then next.value[0] else old(Value())
    {
      if kind == M.Rom || addr < base || base + backing.Length <= addr {
        return Err;
      }
      var off := addr - base;
      if n == 0 || n > 8 || off + n > backing.Length {
        return Err;
      }
      ghost var all := Bytes(val, n);
      var rest := val;
      for i := 0 to n
        invariant all[i..] == Bytes(rest, n - i)
        invariant forall k :: 0 <= k < backing.Length ==>
                    backing[k] == if off <= k < off + i then all[k - off] else old(backing[k])
      {
        backing[off + i] := rest % 256;
        DivNonNegative(rest, 256);
        assert all[i] == all[i..][0] && all[i + 1..] == all[i..][1..];
        rest := rest / 256;
      }
      M.IsSplice(old(backing[..]), backing[..], off, all);
      r := Ok(());
    }

    method FillZero()
      requires Valid()
      modifies backing
      ensures Value() == old(Value()).(bytes := seq(backing.Length, _ => 0))
    {
      for i := 0 to backing.Length
        invariant forall k :: 0 <= k < i ==> backing[k] == 0
      {
        backing[i] := 0;
      }
    }

    method WriteSlice(addr: nat, data: seq<Byte>) returns (r: Result<()>)
      requires Valid()
      modifies backing
      ensures var next := M.WriteSlice(old(Value()), addr, data);
              && r.Ok? == next.Ok?
              && Value() == if next.Ok? then next.value else old(Value())
    {
      if kind == M.Rom || addr < base || base + backing.Length <= addr || addr - base + |data| > backing.Length {
        return Err;
      }
      var off := addr - base;
      for i := 0 to |data|
        invariant forall k :: 0 <= k < backing.Length ==>
                    backing[k] == if off <= k < off + i then data[k - off] else old(backing[k])
      {
        backing[off + i] := data[i];
      }
      M.IsSplice(old(backing[..]), backing[..], off, data);
      r := Ok(());
    }
  }
}

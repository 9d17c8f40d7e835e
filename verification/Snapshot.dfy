/**
 Snapshots: every region's non-zero 4096-byte pages. Restoring zeroes a region and writes its pages back.
 */
module Snapshot {
  import opened Basics
  import opened Outcomes
  import opened Words
  import opened Memory

  const PAGE: nat := 4096

  type Page = (nat, seq<Byte>)

  datatype Key = Key(name: string, base: nat, size: nat)

  datatype RegionSnapshot = RegionSnapshot(key: Key, pages: seq<Page>)

  datatype MachineSnapshot = MachineSnapshot(steps: nat, cycles: nat, cpu: seq<Byte>, regions: seq<RegionSnapshot>)

  function KeyOf(r: Region): Key {
    Key(r.name, r.base, r.size)
  }

  // ---- pages ----

  predicate AllZero(s: seq<Byte>) {
    forall k :: 0 <= k < |s| ==> s[k] == 0
  }

  function Zeros(n: nat): (s: seq<Byte>)
    ensures |s| == n && AllZero(s)
  {
    seq(n, _ => 0)
  }

  function PageLength(n: nat): (len: nat)
    ensures len <= n && len <= PAGE && (n > 0 ==> len > 0)
  {
    if n < PAGE then n else PAGE
  }

  /** The non-zero pages of some bytes, numbered from `index`. */
  function Pages(bytes: seq<Byte>, index: nat): seq<Page> {
    if bytes == [] then []
    else
      var len := PageLength(|bytes|);
      var rest := Pages(bytes[len..], index + 1);
      if AllZero(bytes[..len]) then rest else [(index, bytes[..len])] + rest
  }

  method IsZeroPage(chunk: seq<Byte>) returns (zero: bool)
    ensures zero <==> AllZero(chunk)
  {
    for i := 0 to |chunk|
      invariant AllZero(chunk[..i])
    {
      if chunk[i] != 0 {
        return false;
      }
    }
    return true;
  }

  /** Page `k` of some bytes: those from 4096 k on, 4096 of them or what is left. */
  function PageOf(bytes: seq<Byte>, k: nat): seq<Byte>
    requires 4096 * k < |bytes|
  {
    bytes[4096 * k..if 4096 * k + 4096 <= |bytes| then 4096 * k + 4096 else |bytes|]
  }

  lemma PagesCons(bytes: seq<Byte>, index: nat)
    requires bytes != []
    ensures var rest := Pages(bytes[PageLength(|bytes|)..], index + 1);
            Pages(bytes, index) == (if AllZero(PageOf(bytes, 0)) then [] else [(index, PageOf(bytes, 0))]) + rest
  {
    assert PageOf(bytes, 0) == bytes[..PageLength(|bytes|)];
    hide AllZero;
  }

  lemma {:induction false} PagesFrom(bytes: seq<Byte>, index: nat)
    ensures forall p :: p in Pages(bytes, index) ==> p.0 >= index
    decreases |bytes|
  {
    if bytes != [] {
      PagesCons(bytes, index);
      hide Pages, AllZero, PageOf;
      PagesFrom(bytes[PageLength(|bytes|)..], index + 1);
    } else {
      NoMorePages(bytes, index);
    }
  }

  lemma NextPage(bytes: seq<Byte>, k: nat)
    requires k > 0
    ensures var rest := bytes[PageLength(|bytes|)..];
            && (4096 * k < |bytes| <==> 4096 * (k - 1) < |rest|)
            && (4096 * k < |bytes| ==> PageOf(bytes, k) == PageOf(rest, k - 1))
  {
  }

  /** The pages kept are exactly those that are not all zero, each under its number. */
  lemma {:induction false} PagesAre(bytes: seq<Byte>, index: nat, k: nat, data: seq<Byte>)
    ensures (index + k, data) in Pages(bytes, index) <==>
            4096 * k < |bytes| && data == PageOf(bytes, k) && exists i :: 0 <= i < |data| && data[i] != 0
    decreases |bytes|
  {
    assert AllZero(data) || exists i :: 0 <= i < |data| && data[i] != 0;
    if bytes == [] {
      NoMorePages(bytes, index);
    } else {
      var rest := bytes[PageLength(|bytes|)..];
      PagesCons(bytes, index);
      PagesFrom(rest, index + 1);
      hide Pages, PageOf;
      if k > 0 {
        NextPage(bytes, k);
        PagesAre(rest, index + 1, k - 1, data);
      }
    }
  }

  lemma PagesStep(bytes: seq<Byte>, done: nat, index: nat)
    requires done < |bytes|
    ensures var len := PageLength(|bytes| - done);
            Pages(bytes[done..], index) ==
            (if AllZero(bytes[done..done + len]) then [] else [(index, bytes[done..done + len])])
            + Pages(bytes[done + len..], index + 1)
  {
    var len := PageLength(|bytes| - done);
    assert bytes[done..][..len] == bytes[done..done + len] && bytes[done..][len..] == bytes[done + len..];
  }

  method EncodePages(bytes: seq<Byte>) returns (out: seq<Page>)
    ensures out == Pages(bytes, 0)
  {
    hide Pages, AllZero;
    out := [];
    var done, index := 0, 0;
    assert bytes[0..] == bytes;
    while done < |bytes|
      invariant done <= |bytes|
      invariant Pages(bytes, 0) == out + Pages(bytes[done..], index)
    {
      PagesStep(bytes, done, index);
      var len := PageLength(|bytes| - done);
      var zero := IsZeroPage(bytes[done..done + len]);
      if !zero {
        out := out + [(index, bytes[done..done + len])];
      }
      done := done + len;
      index := index + 1;
    }
    NoMorePages(bytes[done..], index);
  }

  lemma NoMorePages(bytes: seq<Byte>, index: nat)
    requires bytes == []
    ensures Pages(bytes, index) == []
  {
  }

  /** Writes pages in order until one fails. */
  function WritePages(r: Region, pages: seq<Page>): (Region, bool)
    decreases |pages|
  {
    if pages == [] then (r, true)
    else
      var (index, data) := pages[0];
      if index * PAGE + |data| > r.size then (r, false)
      else match WriteSlice(r, r.base + index * PAGE, data)
           case Ok(next) => WritePages(next, pages[1..])
           case Err => (r, false)
  }

  lemma {:induction false} WritePagesKeeps(r: Region, pages: seq<Page>)
    requires r.Wf()
    ensures var (next, _) := WritePages(r, pages); next == r.(bytes := next.bytes) && next.Wf()
    decreases |pages|
  {
    if pages != [] && pages[0].0 * PAGE + |pages[0].1| <= r.size {
      match WriteSlice(r, r.base + pages[0].0 * PAGE, pages[0].1) {
        case Ok(next) => WritePagesKeeps(next, pages[1..]);
        case Err =>
      }
    }
  }

  lemma {:induction false} NoPagesIffZero(bytes: seq<Byte>, index: nat)
    ensures Pages(bytes, index) == [] <==> AllZero(bytes)
  {
    if bytes != [] {
      var len := PageLength(|bytes|);
      NoPagesIffZero(bytes[len..], index + 1);
      assert bytes == bytes[..len] + bytes[len..];
      assert AllZero(bytes) <==> AllZero(bytes[..len]) && AllZero(bytes[len..]);
    }
  }

  /** Writing the pages of `rest` after `done` over zeros gives the bytes back. */
  lemma {:induction false} PagesRebuild(r: Region, done: seq<Byte>, rest: seq<Byte>, index: nat)
    requires r.kind != Rom && r.size == |done| + |rest| && r.bytes == done + Zeros(|rest|)
    requires rest != [] ==> |done| == index * PAGE
    ensures WritePages(r, Pages(rest, index)) == (r.(bytes := done + rest), true)
    decreases |rest|
  {
    if rest == [] {
      assert done + Zeros(0) == done + rest;
    } else {
      var len := PageLength(|rest|);
      PageWritten(r, done, rest, index, len);
      SplitBack(done, rest, len);
      PagesRebuild(r.(bytes := done + rest[..len] + Zeros(|rest| - len)), done + rest[..len], rest[len..], index + 1);
    }
  }

  lemma SplitBack(done: seq<Byte>, rest: seq<Byte>, len: nat)
    requires len <= |rest|
    ensures done + rest[..len] + rest[len..] == done + rest
  {
  }

  lemma PageWritten(r: Region, done: seq<Byte>, rest: seq<Byte>, index: nat, len: nat)
    requires r.kind != Rom && r.size == |done| + |rest| && r.bytes == done + Zeros(|rest|)
    requires rest != [] && |done| == index * PAGE && len == PageLength(|rest|)
    ensures WritePages(r, Pages(rest, index)) ==
            WritePages(r.(bytes := done + rest[..len] + Zeros(|rest| - len)), Pages(rest[len..], index + 1))
  {
    var chunk := rest[..len];
    if AllZero(chunk) {
      assert r.bytes == done + chunk + Zeros(|rest| - len);
    } else {
      assert Splice(r.bytes, |done|, chunk) == done + chunk + Zeros(|rest| - len);
      var pages := Pages(rest, index);
      assert pages[0] == (index, chunk) && pages[1..] == Pages(rest[len..], index + 1);
    }
  }

  lemma RomTakesNoPage(r: Region, pages: seq<Page>)
    requires r.kind == Rom
    ensures WritePages(r, pages) == (r, pages == [])
  {
  }

  // ---- regions ----

  function SnapRegion(r: Region): RegionSnapshot {
    RegionSnapshot(KeyOf(r), Pages(r.bytes, 0))
  }

  /** Zeroes a region, then writes the saved pages. */
  function RestoreRegion(r: Region, pages: seq<Page>): (Region, bool) {
    WritePages(r.(bytes := Zeros(|r.bytes|)), pages)
  }

  /** Restoring a saved region gives its bytes back, unless a read-only region was saved with other than zeros. */
  lemma RegionRoundTrip(r: Region, saved: Region)
    requires r.Wf() && saved.Wf() && KeyOf(r) == KeyOf(saved)
    ensures var (next, ok) := RestoreRegion(r, SnapRegion(saved).pages);
            && (ok <==> (r.kind == Rom ==> AllZero(saved.bytes)))
            && (ok ==> next == r.(bytes := saved.bytes))
  {
    var zero := r.(bytes := Zeros(|r.bytes|));
    NoPagesIffZero(saved.bytes, 0);
    if r.kind == Rom {
      RomTakesNoPage(zero, Pages(saved.bytes, 0));
      assert AllZero(saved.bytes) ==> saved.bytes == Zeros(|r.bytes|);
    } else {
      assert zero.bytes == [] + Zeros(|saved.bytes|);
      PagesRebuild(zero, [], saved.bytes, 0);
      assert [] + saved.bytes == saved.bytes;
    }
  }

  /** The first region with this key. */
  function Find(mem: Mem, key: Key): (at: Option<nat>)
    ensures at.Some? ==> at.value < |mem| && KeyOf(mem[at.value]) == key
    ensures at.None? ==> forall i :: 0 <= i < |mem| ==> KeyOf(mem[i]) != key
  {
    if mem == [] then None
    else if KeyOf(mem[0]) == key then Some(0)
    else
      var i :- Find(mem[1..], key);
      Some(i + 1)
  }

  /** Restores regions in order until one fails. */
  function RestoreRegions(mem: Mem, saved: seq<RegionSnapshot>): (Mem, bool)
  {
    if saved == [] then (mem, true)
    else
      var n := |saved| - 1;
      var (before, ok) := RestoreRegions(mem, saved[..n]);
      if !ok then (before, false) else RestoreOne(before, saved[n])
  }

  /** The first `i + 1` regions are restored by restoring the first `i`, and if that succeeds, the next one. */
  lemma RestoreNext(mem: Mem, saved: seq<RegionSnapshot>, i: nat)
    requires i < |saved|
    ensures var (before, ok) := RestoreRegions(mem, saved[..i]);
            RestoreRegions(mem, saved[..i + 1]) == if ok then RestoreOne(before, saved[i]) else (before, false)
  {
    assert saved[..i + 1][..i] == saved[..i];
  }

  /** A region that fails ends the restoring. */
  lemma {:induction false} RestoreFails(mem: Mem, saved: seq<RegionSnapshot>, j: nat)
    requires j <= |saved|
    ensures !RestoreRegions(mem, saved[..j]).1 ==> RestoreRegions(mem, saved) == RestoreRegions(mem, saved[..j])
    decreases |saved|
  {
    var n := |saved| - 1;
    if j <= n {
      RestoreFails(mem, saved[..n], j);
      assert saved[..n][..j] == saved[..j];
    } else {
      assert saved[..j] == saved;
    }
  }

  function RestoreOne(mem: Mem, saved: RegionSnapshot): (Mem, bool) {
    match Find(mem, saved.key)
    case None => (mem, false)
    case Some(i) =>
      var (r, ok) := RestoreRegion(mem[i], saved.pages);
      (mem[i := r], ok)
  }

  // ---- which snapshots fit ----

  function Keys(mem: Mem): (keys: seq<Key>)
    ensures |keys| == |mem| && forall i :: 0 <= i < |mem| ==> keys[i] == KeyOf(mem[i])
  {
    if mem == [] then [] else [KeyOf(mem[0])] + Keys(mem[1..])
  }

  function SavedKeys(saved: seq<RegionSnapshot>): (keys: seq<Key>)
    ensures |keys| == |saved| && forall i :: 0 <= i < |saved| ==> keys[i] == saved[i].key
  {
    if saved == [] then [] else [saved[0].key] + SavedKeys(saved[1..])
  }

  /** The saved regions are the map's regions, each once, in any order. */
  ghost predicate OneToOne(mem: Mem, saved: seq<RegionSnapshot>) {
    Distinct(SavedKeys(saved)) && forall k :: k in SavedKeys(saved) <==> k in Keys(mem)
  }

  lemma KeysDiffer(mem: Mem)
    requires Valid(mem)
    ensures Distinct(Keys(mem))
  {
    forall i, j | 0 <= i < j < |mem|
      ensures Keys(mem)[i] != Keys(mem)[j]
    {
      assert Apart(mem[i], mem[j]);
    }
  }

  /** The first region with this key that is not taken yet. */
  method FindUnmatched(mem: Mem, matched: array<bool>, key: Key) returns (at: nat)
    requires matched.Length == |mem|
    ensures at <= |mem|
    ensures at < |mem| ==> !matched[at] && KeyOf(mem[at]) == key
    ensures at == |mem| ==> forall i :: 0 <= i < |mem| ==> matched[i] || KeyOf(mem[i]) != key
  {
    at := 0;
    while at < |mem| && (matched[at] || KeyOf(mem[at]) != key)
      invariant at <= |mem|
      invariant forall i :: 0 <= i < at ==> matched[i] || KeyOf(mem[i]) != key
    {
      at := at + 1;
    }
  }

  /** The pairing check: every saved region takes a region of the map not taken yet, and none is left over. */
  method MatchRegions(mem: Mem, saved: seq<RegionSnapshot>) returns (ok: bool)
    requires Valid(mem)
    ensures ok <==> OneToOne(mem, saved)
  {
    KeysDiffer(mem);
    ghost var keys, wanted := Keys(mem), SavedKeys(saved);
    var matched := new bool[|mem|](_ => false);
    for j := 0 to |saved|
      invariant Distinct(wanted[..j])
      invariant forall i :: 0 <= i < |mem| ==> (matched[i] <==> keys[i] in wanted[..j])
      invariant forall k :: k in wanted[..j] ==> k in keys
    {
      var at := FindUnmatched(mem, matched, saved[j].key);
      assert wanted[..j + 1] == wanted[..j] + [wanted[j]];
      if at == |mem| {
        Unpaired(keys, wanted, j);
        return false;
      }
      matched[at] := true;
    }
    assert wanted[..|saved|] == wanted;
    for i := 0 to |mem|
      invariant forall k :: 0 <= k < i ==> keys[k] in wanted
    {
      if !matched[i] {
        assert keys[i] !in wanted;
        return false;
      }
    }
    return true;
  }

  lemma Unpaired(keys: seq<Key>, wanted: seq<Key>, j: nat)
    requires j < |wanted|
    requires forall i :: 0 <= i < |keys| ==> keys[i] in wanted[..j] || keys[i] != wanted[j]
    ensures wanted[j] !in keys || !Distinct(wanted)
  {
    if wanted[j] in keys {
      var i :| 0 <= i < j && wanted[i] == wanted[j];
    }
  }

  // ---- restoring what was saved ----

  function SnapRegions(mem: Mem): (saved: seq<RegionSnapshot>)
    ensures |saved| == |mem| && forall i :: 0 <= i < |mem| ==> saved[i] == SnapRegion(mem[i])
  {
    if mem == [] then [] else [SnapRegion(mem[0])] + SnapRegions(mem[1..])
  }

  /** The regions are the same but for their bytes. */
  predicate SameShape(r: Region, s: Region) {
    KeyOf(r) == KeyOf(s) && r.kind == s.kind
  }

  predicate SameShapes(a: Mem, b: Mem) {
    |a| == |b| && forall i :: 0 <= i < |a| ==> SameShape(a[i], b[i]) && a[i].Wf()
  }

  lemma ShapesKeepValid(a: Mem, b: Mem)
    requires Valid(b) && SameShapes(a, b)
    ensures Valid(a)
  {
    forall i, j | 0 <= i < j < |a|
      ensures Apart(a[i], a[j])
    {
      assert Apart(b[i], b[j]);
    }
  }

  /** No read-only region of the map would have to take these bytes, unless they are all zero. */
  predicate Accepts(mem: Mem, saved: Region) {
    forall i :: 0 <= i < |mem| && KeyOf(mem[i]) == KeyOf(saved) && mem[i].kind == Rom ==> AllZero(saved.bytes)
  }

  predicate HasBytesOf(mem: Mem, saved: Region) {
    forall i :: 0 <= i < |mem| && KeyOf(mem[i]) == KeyOf(saved) ==> mem[i].bytes == saved.bytes
  }

  lemma UniqueKey(mem: Mem, i: nat, j: nat)
    requires Valid(mem) && i < |mem| && j < |mem|
    ensures KeyOf(mem[i]) == KeyOf(mem[j]) ==> i == j
  {
    if i < j {
      assert Apart(mem[i], mem[j]);
    } else if j < i {
      assert Apart(mem[j], mem[i]);
    }
  }

  /** A key of the map names exactly one region, which is the one found. */
  lemma TheRegion(b: Mem, m: Mem, key: Key) returns (i: nat)
    requires Valid(b) && SameShapes(m, b) && key in Keys(b)
    ensures i < |m| && Find(m, key) == Some(i)
    ensures forall j :: 0 <= j < |m| && KeyOf(m[j]) == key ==> j == i
  {
    ShapesKeepValid(m, b);
    var k :| 0 <= k < |b| && Keys(b)[k] == key;
    assert KeyOf(m[k]) == key;
    i := Find(m, key).value;
    hide Valid, Find;
    forall j | 0 <= j < |m| && KeyOf(m[j]) == key
      ensures j == i
    {
      UniqueKey(m, i, j);
    }
  }

  lemma RestoredShape(r: Region, saved: Region)
    requires r.Wf() && saved.Wf() && KeyOf(r) == KeyOf(saved)
    ensures SameShape(RestoreRegion(r, SnapRegion(saved).pages).0, r) && RestoreRegion(r, SnapRegion(saved).pages).0.Wf()
  {
    hide WritePages, Pages;
    WritePagesKeeps(r.(bytes := Zeros(|r.bytes|)), SnapRegion(saved).pages);
  }

  /** Restoring one saved region puts its bytes into the one region of its key. */
  lemma RestoreOneIs(b: Mem, m: Mem, saved: Region)
    requires Valid(b) && SameShapes(m, b) && saved.Wf() && KeyOf(saved) in Keys(b)
    ensures var (m', ok) := RestoreOne(m, SnapRegion(saved));
            && SameShapes(m', b)
            && (ok <==> Accepts(b, saved))
            && (ok ==> HasBytesOf(m', saved))
            && (forall i :: 0 <= i < |m| && KeyOf(m[i]) != KeyOf(saved) ==> m'[i] == m[i])
  {
    var i := TheRegion(b, m, KeyOf(saved));
    RegionRoundTrip(m[i], saved);
    RestoredShape(m[i], saved);
    hide RestoreRegion, Pages, Find, AllZero, Valid;
    var (r, ok) := RestoreRegion(m[i], SnapRegion(saved).pages);
    assert RestoreOne(m, SnapRegion(saved)) == (m[i := r], ok);
    assert forall j :: 0 <= j < |b| && KeyOf(b[j]) == KeyOf(saved) ==> KeyOf(m[j]) == KeyOf(saved);
  }

  /** Where the restoring stands after the first `j` saved regions. */
  ghost predicate RestoredTo(b: Mem, a: Mem, j: nat, m: Mem, ok: bool)
    requires j <= |a|
  {
    && SameShapes(m, b)
    && (ok <==> forall t :: 0 <= t < j ==> Accepts(b, a[t]))
    && (ok ==> forall t :: 0 <= t < j ==> HasBytesOf(m, a[t]))
  }

  lemma SavedRegion(b: Mem, a: Mem, t: nat) returns (i: nat)
    requires OneToOne(b, SnapRegions(a)) && t < |a|
    ensures i < |b| && KeyOf(b[i]) == KeyOf(a[t])
  {
    assert SavedKeys(SnapRegions(a))[t] in Keys(b);
    i :| 0 <= i < |b| && Keys(b)[i] == KeyOf(a[t]);
  }

  lemma RegionSaved(b: Mem, a: Mem, i: nat) returns (t: nat)
    requires OneToOne(b, SnapRegions(a)) && i < |b|
    ensures t < |a| && KeyOf(b[i]) == KeyOf(a[t])
  {
    assert Keys(b)[i] in SavedKeys(SnapRegions(a));
    t :| 0 <= t < |a| && SavedKeys(SnapRegions(a))[t] == KeyOf(b[i]);
  }

  lemma RestoreStep(b: Mem, a: Mem, j: nat, m: Mem)
    requires Valid(b) && Valid(a) && j < |a| && KeyOf(a[j]) in Keys(b) && RestoredTo(b, a, j, m, true)
    ensures var (m', ok) := RestoreOne(m, SnapRegion(a[j])); RestoredTo(b, a, j + 1, m', ok)
  {
    RestoreOneIs(b, m, a[j]);
    var (m', ok) := RestoreOne(m, SnapRegion(a[j]));
    if ok {
      forall t | 0 <= t < j
        ensures HasBytesOf(m', a[t])
      {
        UniqueKey(a, t, j);
        assert HasBytesOf(m, a[t]);
      }
    }
  }

  lemma {:induction false} RestoreUpTo(b: Mem, a: Mem, j: nat)
    requires Valid(b) && Valid(a) && OneToOne(b, SnapRegions(a)) && j <= |a|
    ensures var (m, ok) := RestoreRegions(b, SnapRegions(a)[..j]); RestoredTo(b, a, j, m, ok)
  {
    hide RestoreOne, SnapRegion, RestoredTo, OneToOne, Valid;
    if j == 0 {
      NothingRestored(b, a);
    } else {
      RestoreUpTo(b, a, j - 1);
      var saved := SnapRegions(a);
      var (m, ok) := RestoreRegions(b, saved[..j - 1]);
      assert saved[..j][..j - 1] == saved[..j - 1] && saved[..j][j - 1] == SnapRegion(a[j - 1]);
      if ok {
        var i := SavedRegion(b, a, j - 1);
        assert Keys(b)[i] == KeyOf(a[j - 1]);
        RestoreStep(b, a, j - 1, m);
      } else {
        NotRestored(b, a, j - 1, m);
      }
    }
  }

  lemma NothingRestored(b: Mem, a: Mem)
    requires Valid(b)
    ensures RestoredTo(b, a, 0, b, true)
  {
  }

  lemma NotRestored(b: Mem, a: Mem, j: nat, m: Mem)
    requires j < |a| && RestoredTo(b, a, j, m, false)
    ensures RestoredTo(b, a, j + 1, m, false)
  {
  }

  /**
   A saved memory restored into a map with the same regions, in any order: it succeeds exactly if no
   read-only region was saved with other than zeros, and then every region has the saved bytes.
   */
  lemma RestoreRoundTrip(b: Mem, a: Mem)
    requires Valid(b) && Valid(a) && OneToOne(b, SnapRegions(a))
    ensures var (m, ok) := RestoreRegions(b, SnapRegions(a));
            && Valid(m) && SameShapes(m, b)
            && (ok <==> forall t :: 0 <= t < |a| ==> Accepts(b, a[t]))
            && (ok ==> forall t :: 0 <= t < |a| ==> HasBytesOf(m, a[t]))
  {
    hide RestoreRegions, OneToOne, Accepts, HasBytesOf, Valid;
    var saved := SnapRegions(a);
    assert saved[..|a|] == saved;
    RestoreUpTo(b, a, |a|);
    ShapesKeepValid(RestoreRegions(b, saved).0, b);
  }

  /** If the kinds agree too, the restored memory looks exactly like the saved one. */
  lemma RestoredLooksSaved(b: Mem, a: Mem)
    requires Valid(b) && Valid(a) && OneToOne(b, SnapRegions(a)) && SameKinds(b, a)
    ensures var (m, ok) := RestoreRegions(b, SnapRegions(a)); Valid(m) && (ok ==> ViewOf(m) == ViewOf(a))
  {
    RestoreRoundTrip(b, a);
    var (m, ok) := RestoreRegions(b, SnapRegions(a));
    if ok {
      forall i | 0 <= i < |m|
        ensures m[i] in a
      {
        var t := RegionSaved(b, a, i);
        RegionRestored(b, a, m, i, t);
      }
      forall t | 0 <= t < |a|
        ensures a[t] in m
      {
        var i := SavedRegion(b, a, t);
        RegionRestored(b, a, m, i, t);
      }
      OrderIsInvisible(m, a);
    }
  }

  predicate SameKinds(b: Mem, a: Mem) {
    forall i, t :: 0 <= i < |b| && 0 <= t < |a| && KeyOf(b[i]) == KeyOf(a[t]) ==> b[i].kind == a[t].kind
  }

  lemma RegionRestored(b: Mem, a: Mem, m: Mem, i: nat, t: nat)
    requires SameShapes(m, b) && i < |b| && t < |a| && KeyOf(b[i]) == KeyOf(a[t]) && SameKinds(b, a) && HasBytesOf(m, a[t])
    ensures m[i] == a[t]
  {
  }
}

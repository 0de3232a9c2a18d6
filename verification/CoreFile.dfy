/** Reading the memory of a process from its core file (agent/src/os/linux/ps_core.c): the
    sorted index of mappings, its binary search, and the read loop that pads mappings to pages. */
module CoreFile {
  import opened Wrappers

  datatype MapInfo = MapInfo(fd: int, offset: nat, vaddr: nat, memsz: nat)

  predicate Contains(m: MapInfo, addr: nat) { m.vaddr <= addr < m.vaddr + m.memsz }

  /** No two mappings of the list share an address, and none is empty. */
  ghost predicate Disjoint(maps: seq<MapInfo>) {
    && (forall m :: m in maps ==> m.memsz > 0)
    && forall i, j :: 0 <= i < j < |maps| ==> Apart(maps[i], maps[j])
  }

  predicate Apart(m: MapInfo, n: MapInfo) { m.vaddr + m.memsz <= n.vaddr || n.vaddr + n.memsz <= m.vaddr }

  /** The first mapping of the list that contains the address. */
  function Scan(maps: seq<MapInfo>, addr: nat): (r: Option<MapInfo>)
    ensures r.Some? ==> r.value in maps && Contains(r.value, addr)
    ensures r.None? ==> forall m :: m in maps ==> !Contains(m, addr)
  {
    if maps == [] then None else if Contains(maps[0], addr) then Some(maps[0]) else Scan(maps[1..], addr)
  }

  // ---- Sorting ----------------------------------------------------------------------------

  ghost predicate Sorted(maps: seq<MapInfo>) {
    forall i, j :: 0 <= i < j < |maps| ==> maps[i].vaddr <= maps[j].vaddr
  }

  function Insert(maps: seq<MapInfo>, m: MapInfo): (r: seq<MapInfo>)
    ensures multiset(r) == multiset(maps) + multiset{m}
  {
    if maps == [] || m.vaddr <= maps[0].vaddr then [m] + maps
    else
      assert maps == [maps[0]] + maps[1..];
      [maps[0]] + Insert(maps[1..], m)
  }

  lemma {:induction false} InsertSorted(maps: seq<MapInfo>, m: MapInfo)
    requires Sorted(maps)
    ensures Sorted(Insert(maps, m))
  {
    if maps != [] && maps[0].vaddr < m.vaddr {
      InsertSorted(maps[1..], m);
      var rest := Insert(maps[1..], m);
      forall j | 0 <= j < |rest|
        ensures maps[0].vaddr <= rest[j].vaddr
      {
        assert rest[j] in multiset(rest);
        assert rest[j] in multiset(maps[1..]) + multiset{m};
        if rest[j] != m {
          assert rest[j] in maps[1..];
        }
      }
    }
  }

  /** qsort with core_cmp_mapping: some sorted rearrangement. */
  method Qsort(maps: seq<MapInfo>) returns (r: seq<MapInfo>)
    ensures Sorted(r) && multiset(r) == multiset(maps)
  {
    r := [];
    for i := 0 to |maps|
      invariant Sorted(r) && multiset(r) == multiset(maps[..i])
    {
      InsertSorted(r, maps[i]);
      assert maps[..i + 1] == maps[..i] + [maps[i]];
      r := Insert(r, maps[i]);
    }
    assert maps[..|maps|] == maps;
  }

  /** Rearranging a disjoint list. */
  lemma DisjointSorted(maps: seq<MapInfo>, a: seq<MapInfo>)
    requires Disjoint(maps) && Sorted(a) && multiset(a) == multiset(maps)
    ensures |a| == |maps| && forall i, j :: 0 <= i < j < |a| ==> a[i].vaddr + a[i].memsz <= a[j].vaddr
  {
    SameSize(maps, a);
    forall i, j | 0 <= i < j < |a|
      ensures a[i].vaddr + a[i].memsz <= a[j].vaddr
    {
      PermutedApart(maps, a, i, j);
    }
  }

  lemma SameSize(maps: seq<MapInfo>, a: seq<MapInfo>)
    requires multiset(a) == multiset(maps)
    ensures |a| == |maps|
  {
    assert |multiset(a)| == |a| && |multiset(maps)| == |maps|;
  }

  lemma Twice(s: seq<MapInfo>, i: nat, j: nat)
    requires i < j < |s| && s[i] == s[j]
    ensures multiset(s)[s[i]] >= 2
  {
    assert s == s[..j] + [s[j]] + s[j + 1..];
    assert s[i] in s[..j];
  }

  lemma TwiceAt(s: seq<MapInfo>, x: MapInfo) returns (k: nat, l: nat)
    requires multiset(s)[x] >= 2
    ensures k < l < |s| && s[k] == s[l] == x
  {
    assert x in multiset(s);
    l :| 0 <= l < |s| && s[l] == x;
    assert s == s[..l] + [x] + s[l + 1..];
    if x in s[..l] {
      k :| 0 <= k < l && s[..l][k] == x;
    } else {
      assert x in s[l + 1..];
      var m :| 0 <= m < |s[l + 1..]| && s[l + 1..][m] == x;
      k, l := l, l + 1 + m;
    }
  }

  lemma PermutedApart(maps: seq<MapInfo>, a: seq<MapInfo>, i: nat, j: nat)
    requires Disjoint(maps) && multiset(a) == multiset(maps) && i < j < |a|
    ensures Apart(a[i], a[j]) && a[i].memsz > 0 && a[j].memsz > 0
  {
    assert a[i] in multiset(a) && a[j] in multiset(a);
    assert a[i] in maps && a[j] in maps;
    if a[i] == a[j] {
      Twice(a, i, j);
      var k, l := TwiceAt(maps, a[i]);
      assert Apart(maps[k], maps[l]);
    } else {
      var k :| 0 <= k < |maps| && maps[k] == a[i];
      var l :| 0 <= l < |maps| && maps[l] == a[j];
      assert k < l || l < k;
    }
  }

  /** Where the search ends: only one entry is left that can contain the address. */
  lemma OnlyOneLeft(a: seq<MapInfo>, lo: nat, hi: nat, addr: nat)
    requires forall i, j :: 0 <= i < j < |a| ==> a[i].vaddr + a[i].memsz <= a[j].vaddr
    requires lo <= hi < |a| && hi - lo <= 1
    requires (lo == 0 || a[lo].vaddr <= addr) && (hi == |a| - 1 || addr < a[hi].vaddr)
    ensures var k := if addr < a[hi].vaddr then lo else hi;
            forall i :: 0 <= i < |a| && i != k ==> !Contains(a[i], addr)
  {
  }

  function Min(x: int, y: int): int { if x < y then x else y }

  // ---- The memory image -------------------------------------------------------------------

  type Files = map<int, seq<bv8>>

  /** The bytes between the end of a mapping and the end of its last page. */
  function PadSize(m: MapInfo, page: nat): nat
    requires page > 0
  {
    if m.memsz % page > 0 then page - m.memsz % page else 0
  }

  function PadEnd(m: MapInfo, page: nat): nat
    requires page > 0
  {
    m.vaddr + m.memsz + PadSize(m, page)
  }

  predicate Padded(m: MapInfo, addr: nat, page: nat)
    requires page > 0
  {
    m.vaddr <= addr < PadEnd(m, page)
  }

  /** Mappings start at page boundaries and do not overlap. */
  ghost predicate Layout(all: seq<MapInfo>, page: nat) {
    page > 0 && Disjoint(all) && forall m :: m in all ==> m.vaddr % page == 0
  }

  /** And every file holds all of its mappings. */
  ghost predicate Loadable(all: seq<MapInfo>, files: Files, page: nat) {
    Layout(all, page) && forall m :: m in all ==> m.fd in files && m.offset + m.memsz <= |files[m.fd]|
  }

  ghost predicate Covered(all: seq<MapInfo>, page: nat, addr: nat)
    requires page > 0
  {
    exists m :: m in all && Padded(m, addr, page)
  }

  /** A byte of a padded mapping: from the file, or zero in the tail. */
  function ByteOf(m: MapInfo, files: Files, addr: nat): bv8
    requires m.fd in files && m.offset + m.memsz <= |files[m.fd]| && m.vaddr <= addr
  {
    if Contains(m, addr) then files[m.fd][m.offset + addr - m.vaddr] else 0
  }

  /** The memory of the process. */
  ghost function Image(all: seq<MapInfo>, files: Files, page: nat, addr: nat): bv8
    requires Loadable(all, files, page) && Covered(all, page, addr)
  {
    var m :| m in all && Padded(m, addr, page);
    ByteOf(m, files, addr)
  }

  // ---- Files that end early ---------------------------------------------------------------

  /** How many bytes of a mapping its file holds. */
  function Present(m: MapInfo, files: Files): (n: nat)
    ensures n <= m.memsz
  {
    if m.fd in files && m.offset <= |files[m.fd]| then Min(m.memsz, |files[m.fd]| - m.offset) else 0
  }

  function End(m: MapInfo, files: Files): nat { m.vaddr + Present(m, files) }

  /** Bytes of a mapping that its file should hold and does not. */
  predicate Gap(m: MapInfo, files: Files, addr: nat) { End(m, files) <= addr < m.vaddr + m.memsz }

  predicate Readable(m: MapInfo, files: Files, addr: nat) { m.vaddr <= addr < End(m, files) }

  /** What the read loop delivers for a mapping: the bytes in the file, then as many zeros as the
      mapping has padding, wherever the file ended. */
  predicate Serves(m: MapInfo, files: Files, page: nat, addr: nat)
    requires page > 0
  {
    Present(m, files) > 0 && m.vaddr <= addr < End(m, files) + PadSize(m, page)
  }

  function ServedByte(m: MapInfo, files: Files, addr: nat): bv8
    requires m.vaddr <= addr
  {
    if addr < End(m, files) then files[m.fd][m.offset + addr - m.vaddr] else 0
  }

  ghost predicate SomeReadable(all: seq<MapInfo>, files: Files, addr: nat) {
    exists m :: m in all && Readable(m, files, addr)
  }

  ghost predicate SomeServes(all: seq<MapInfo>, files: Files, page: nat, addr: nat)
    requires page > 0
  {
    exists m :: m in all && Serves(m, files, page, addr)
  }

  lemma Multiple(x: nat, page: nat) returns (k: nat)
    requires page > 0 && x % page == 0
    ensures x == page * k
  {
    k := x / page;
  }

  /** Two page boundaries are at least a page apart. */
  lemma BoundariesApart(x: nat, y: nat, page: nat)
    requires page > 0 && x % page == 0 && y % page == 0 && x < y
    ensures x + page <= y
  {
    var j := Multiple(x, page);
    var k := Multiple(y, page);
    if k <= j {
      TimesMonotone(page, k, j);
    } else {
      TimesMonotone(page, j + 1, k);
    }
  }

  lemma TimesMonotone(page: nat, j: int, k: int)
    requires j <= k
    ensures page * j <= page * k && page * (j + 1) == page * j + page
  {
    assert page * (k - j) >= 0;
  }

  lemma BoundaryAfter(x: nat, q: nat, page: nat)
    requires page > 0 && x % page == 0
    ensures (x + page * q) % page == 0
  {
    var k := Multiple(x, page);
    assert x + page * q == page * (k + q);
    MultipleMod(k + q, page);
  }

  lemma MultipleMod(k: nat, page: nat)
    requires page > 0
    ensures page * k % page == 0
  {
    var q, r := page * k / page, page * k % page;
    assert page * k == page * q + r;
    if k < q {
      TimesMonotone(page, k + 1, q);
    } else if q < k {
      TimesMonotone(page, q + 1, k);
    }
  }

  lemma PadEndAligned(m: MapInfo, page: nat)
    requires page > 0 && m.vaddr % page == 0
    ensures PadEnd(m, page) % page == 0 && PadEnd(m, page) < m.vaddr + m.memsz + page
  {
    var q, r := m.memsz / page, m.memsz % page;
    assert m.memsz == page * q + r;
    if r > 0 {
      assert PadEnd(m, page) == m.vaddr + page * (q + 1) by {
        assert page * (q + 1) == page * q + page;
      }
      BoundaryAfter(m.vaddr, q + 1, page);
    } else {
      BoundaryAfter(m.vaddr, q, page);
    }
  }

  /** Disjoint mappings stay disjoint when they are padded. */
  lemma PaddedApart(m: MapInfo, n: MapInfo, page: nat)
    requires page > 0 && m.vaddr % page == 0 && n.vaddr % page == 0 && m.vaddr + m.memsz <= n.vaddr
    ensures PadEnd(m, page) <= n.vaddr
  {
    PadEndAligned(m, page);
    if n.vaddr < PadEnd(m, page) {
      BoundariesApart(n.vaddr, PadEnd(m, page), page);
    }
  }

  /** So an address determines the mapping. */
  lemma PaddedUnique(all: seq<MapInfo>, page: nat, m: MapInfo, n: MapInfo, addr: nat)
    requires Layout(all, page) && m in all && n in all && Padded(m, addr, page) && Padded(n, addr, page)
    ensures m == n
  {
    var i :| 0 <= i < |all| && all[i] == m;
    var j :| 0 <= j < |all| && all[j] == n;
    if i < j {
      assert Apart(all[i], all[j]);
      ApartNotBoth(m, n, addr, page);
    } else if j < i {
      assert Apart(all[j], all[i]);
      ApartNotBoth(n, m, addr, page);
    }
  }

  /** And with it the byte. */
  lemma ImageOf(all: seq<MapInfo>, files: Files, page: nat, m: MapInfo, addr: nat)
    requires Loadable(all, files, page) && m in all && Padded(m, addr, page)
    ensures Covered(all, page, addr) && Image(all, files, page, addr) == ByteOf(m, files, addr)
  {
    forall n | n in all && Padded(n, addr, page)
      ensures n == m
    {
      PaddedUnique(all, page, m, n, addr);
    }
  }

  lemma ApartNotBoth(m: MapInfo, n: MapInfo, addr: nat, page: nat)
    requires page > 0 && m.vaddr % page == 0 && n.vaddr % page == 0 && Apart(m, n)
    ensures !(Padded(m, addr, page) && Padded(n, addr, page))
  {
    if m.vaddr + m.memsz <= n.vaddr {
      PaddedApart(m, n, page);
    } else {
      PaddedApart(n, m, page);
    }
  }

  /** Where the loop stands after a mapping: behind what that mapping serves. */
  ghost predicate Turn(all: seq<MapInfo>, files: Files, page: nat, addr: nat)
    requires page > 0
  {
    exists m :: m in all && Present(m, files) > 0 && addr == End(m, files) + PadSize(m, page)
  }

  /** There, an address that is served at all can be read. */
  lemma TurnReadable(all: seq<MapInfo>, files: Files, page: nat, addr: nat)
    requires Layout(all, page) && Turn(all, files, page, addr) && SomeServes(all, files, page, addr)
    ensures SomeReadable(all, files, addr)
  {
    var m :| m in all && Present(m, files) > 0 && addr == End(m, files) + PadSize(m, page);
    var n :| n in all && Serves(n, files, page, addr);
    if Padded(m, addr, page) {
      PaddedUnique(all, page, m, n, addr);
    } else {
      assert addr == PadEnd(m, page);
      NextMapping(all, page, m, n);
      assert Readable(n, files, addr);
    }
  }

  /** A mapping that is padded over the padded end of another one starts there. */
  lemma NextMapping(all: seq<MapInfo>, page: nat, m: MapInfo, n: MapInfo)
    requires Layout(all, page) && m in all && n in all && Padded(n, PadEnd(m, page), page)
    ensures n.vaddr == PadEnd(m, page)
  {
    var i :| 0 <= i < |all| && all[i] == m;
    var j :| 0 <= j < |all| && all[j] == n;
    assert m != n && i != j;
    assert if i < j then Apart(all[i], all[j]) else Apart(all[j], all[i]);
    if m.vaddr + m.memsz <= n.vaddr {
      PaddedApart(m, n, page);
    } else {
      PaddedApart(n, m, page);
    }
  }

  /** The bytes are those that the mappings serve from start on. */
  ghost predicate Filled(all: seq<MapInfo>, files: Files, page: nat, start: nat, bytes: seq<bv8>)
    requires page > 0
  {
    forall i :: 0 <= i < |bytes| ==> Holds(all, files, page, start, i, bytes[i])
  }

  ghost predicate Holds(all: seq<MapInfo>, files: Files, page: nat, start: nat, i: nat, b: bv8)
    requires page > 0
  {
    exists m :: m in all && FromMap(m, files, page, start + i, b)
  }

  ghost predicate FromMap(m: MapInfo, files: Files, page: nat, addr: nat, b: bv8)
    requires page > 0
  {
    Serves(m, files, page, addr) && b == ServedByte(m, files, addr)
  }

  /** Going on within what one mapping serves. */
  lemma FilledFurther(all: seq<MapInfo>, files: Files, page: nat, start: nat, mp: MapInfo, before: seq<bv8>, after: seq<bv8>)
    requires page > 0 && mp in all && Filled(all, files, page, start, before) && before <= after
    requires forall i :: |before| <= i < |after| ==> FromMap(mp, files, page, start + i, after[i])
    ensures Filled(all, files, page, start, after)
  {
    forall i | 0 <= i < |after|
      ensures Holds(all, files, page, start, i, after[i])
    {
      if i < |before| {
        assert Holds(all, files, page, start, i, before[i]);
      } else {
        assert FromMap(mp, files, page, start + i, after[i]);
      }
    }
  }

  /** What the loop has read so far; if there is more to read it stands behind a mapping. */
  ghost predicate Progress(all: seq<MapInfo>, files: Files, page: nat, start: nat, bytes: seq<bv8>, more: bool) {
    && page > 0 && Filled(all, files, page, start, bytes)
    && (bytes != [] ==> SomeReadable(all, files, start) && (more ==> Turn(all, files, page, start + |bytes|)))
  }

  /** Nothing can be read next. */
  ghost predicate Stops(all: seq<MapInfo>, files: Files, page: nat, start: nat, at: nat)
    requires page > 0
  {
    !if at == 0 then SomeReadable(all, files, start) else SomeServes(all, files, page, start + at)
  }

  /** Reading stopped after some bytes: at the end, or where nothing can be read. */
  lemma ReadOutcome(all: seq<MapInfo>, files: Files, page: nat, start: nat, size: nat, bytes: seq<bv8>)
    requires |bytes| <= size && Progress(all, files, page, start, bytes, |bytes| < size)
    requires |bytes| < size ==> Stops(all, files, page, start, |bytes|)
    ensures |bytes| == size <==>
              (size == 0 || SomeReadable(all, files, start)) && forall a :: start <= a < start + size ==> SomeServes(all, files, page, a)
  {
    if |bytes| == size {
      forall a | start <= a < start + size
        ensures SomeServes(all, files, page, a)
      {
        assert Holds(all, files, page, start, a - start, bytes[a - start]);
      }
    }
  }

  // ---- When a read is the memory ----------------------------------------------------------

  /** The files, had they not ended early. */
  ghost predicate Completes(all: seq<MapInfo>, files: Files, whole: Files, page: nat) {
    Loadable(all, whole, page) && forall fd :: fd in files ==> fd in whole && files[fd] <= whole[fd]
  }

  ghost predicate IsImage(all: seq<MapInfo>, whole: Files, page: nat, start: nat, bytes: seq<bv8>)
    requires Loadable(all, whole, page)
  {
    forall i :: 0 <= i < |bytes| ==> IsImageAt(all, whole, page, start + i, bytes[i])
  }

  ghost predicate IsImageAt(all: seq<MapInfo>, whole: Files, page: nat, addr: nat, b: bv8)
    requires Loadable(all, whole, page)
  {
    Covered(all, page, addr) && b == Image(all, whole, page, addr)
  }

  ghost predicate MissesGaps(all: seq<MapInfo>, files: Files, start: nat, size: nat) {
    forall m, a :: m in all && start <= a < start + size ==> !Gap(m, files, a)
  }

  function Ones(n: nat): (s: seq<bv8>)
    ensures |s| == n && forall i :: 0 <= i < n ==> s[i] == 1
  {
    if n == 0 then [] else Ones(n - 1) + [1]
  }

  function Longest(all: seq<MapInfo>): (n: nat)
    ensures forall m :: m in all ==> m.offset + m.memsz <= n
  {
    if all == [] then 0 else
      assert all == [all[0]] + all[1..];
      all[0].offset + all[0].memsz + Longest(all[1..])
  }

  /** One way the files may have gone on: with ones. */
  ghost function Extended(all: seq<MapInfo>, files: Files): Files {
    map fd | fd in files.Keys + set m | m in all :: m.fd :: (if fd in files then files[fd] else []) + Ones(Longest(all))
  }

  lemma ExtendedCompletes(all: seq<MapInfo>, files: Files, page: nat)
    requires Layout(all, page)
    ensures Completes(all, files, Extended(all, files), page)
  {
    var whole := Extended(all, files);
    forall m | m in all
      ensures m.fd in whole && m.offset + m.memsz <= |whole[m.fd]|
    {
      assert m.fd in set m | m in all :: m.fd;
    }
  }

  /** A byte in a gap is delivered as zero, and may have been one. */
  lemma GapIsWrong(all: seq<MapInfo>, files: Files, page: nat, m: MapInfo, addr: nat, b: bv8, start: nat)
    requires Layout(all, page) && m in all && Gap(m, files, addr) && start <= addr && Holds(all, files, page, start, addr - start, b)
    ensures Completes(all, files, Extended(all, files), page) && !IsImageAt(all, Extended(all, files), page, addr, b)
  {
    ExtendedCompletes(all, files, page);
    var n :| n in all && FromMap(n, files, page, addr, b);
    PaddedUnique(all, page, m, n, addr);
    ImageOf(all, Extended(all, files), page, m, addr);
    OneInGap(all, files, m, addr);
  }

  lemma OneInGap(all: seq<MapInfo>, files: Files, m: MapInfo, addr: nat)
    requires m in all && Gap(m, files, addr)
    ensures var whole := Extended(all, files);
            m.fd in whole && m.offset + m.memsz <= |whole[m.fd]| && ByteOf(m, whole, addr) == 1
  {
    assert m.fd in set m | m in all :: m.fd;
    var have := if m.fd in files then files[m.fd] else [];
    assert Extended(all, files)[m.fd] == have + Ones(Longest(all)) && |have| <= m.offset + addr - m.vaddr;
  }

  /** Outside the gaps it is right. */
  lemma ServedIsImage(all: seq<MapInfo>, files: Files, whole: Files, page: nat, m: MapInfo, addr: nat)
    requires Completes(all, files, whole, page) && m in all && Serves(m, files, page, addr) && !Gap(m, files, addr)
    ensures IsImageAt(all, whole, page, addr, ServedByte(m, files, addr))
  {
    ImageOf(all, whole, page, m, addr);
  }

  /** A read that went through is the memory of the process, whatever the missing parts of its
      files held, if and only if the range misses every gap. */
  lemma ReadIsImage(all: seq<MapInfo>, files: Files, page: nat, start: nat, bytes: seq<bv8>)
    requires Layout(all, page) && Filled(all, files, page, start, bytes)
    ensures MissesGaps(all, files, start, |bytes|) <==>
              forall whole :: Completes(all, files, whole, page) ==> IsImage(all, whole, page, start, bytes)
  {
    if MissesGaps(all, files, start, |bytes|) {
      forall whole | Completes(all, files, whole, page)
        ensures IsImage(all, whole, page, start, bytes)
      {
        forall i | 0 <= i < |bytes|
          ensures IsImageAt(all, whole, page, start + i, bytes[i])
        {
          assert Holds(all, files, page, start, i, bytes[i]);
          var m :| m in all && FromMap(m, files, page, start + i, bytes[i]);
          ServedIsImage(all, files, whole, page, m, start + i);
        }
      }
    } else {
      var m, a :| m in all && start <= a < start + |bytes| && Gap(m, files, a);
      assert Holds(all, files, page, start, a - start, bytes[a - start]);
      GapIsWrong(all, files, page, m, a, bytes[a - start], start);
    }
  }

  /** With complete files every padded mapping is served in full and there are no gaps. */
  lemma CompleteFiles(all: seq<MapInfo>, files: Files, page: nat, addr: nat)
    requires Loadable(all, files, page)
    ensures SomeServes(all, files, page, addr) <==> Covered(all, page, addr)
    ensures forall m :: m in all ==> !Gap(m, files, addr) && (Readable(m, files, addr) <==> Contains(m, addr))
  {
    if Covered(all, page, addr) {
      var m :| m in all && Padded(m, addr, page);
      assert Serves(m, files, page, addr);
    }
    if SomeServes(all, files, page, addr) {
      var m :| m in all && Serves(m, files, page, addr);
      assert Padded(m, addr, page);
    }
  }

  // ---- The mappings of a core file --------------------------------------------------------

  class Core {
    var maps: seq<MapInfo>             // linked list, latest first
    var mapArray: seq<MapInfo>
    var numMaps: nat
    var classShareMaps: seq<MapInfo>   // linked list, latest first
    const files: Files                    // what the open files hold
    const pageSize: nat

    constructor (files: Files, pageSize: nat)
      requires pageSize > 0
      ensures maps == [] && mapArray == [] && classShareMaps == [] && Counted()
      ensures this.files == files && this.pageSize == pageSize
    {
      this.files, this.pageSize := files, pageSize;
      maps, mapArray, numMaps, classShareMaps := [], [], 0, [];
    }

    ghost predicate Counted()
      reads this
    {
      numMaps == |maps|
    }

    /** What holds right after sort_map_array, and until a mapping is added. */
    ghost predicate Indexed()
      reads this
    {
      Counted() && Sorted(mapArray) && multiset(mapArray) == multiset(maps)
    }

    method AddMapInfo(m: MapInfo)
      requires Counted()
      modifies this
      ensures Counted() && maps == [m] + old(maps)
      ensures mapArray == old(mapArray) && classShareMaps == old(classShareMaps)
    {
      maps := [m] + maps;
      numMaps := numMaps + 1;
    }

    method AddClassShareMapInfo(m: MapInfo)
      modifies this`classShareMaps
      ensures classShareMaps == [m] + old(classShareMaps)
    {
      classShareMaps := [m] + classShareMaps;
    }

    method SortMapArray()
      requires Counted()
      modifies this`mapArray
      ensures Indexed()
    {
      var a, i := [], 0;
      while i < |maps|
        invariant 0 <= i <= |maps| && a == maps[..i]
      {
        a := a + [maps[i]];
        i := i + 1;
      }
      assert a == maps;
      mapArray := Qsort(a);
    }

    /** The binary search of core_lookup: the one entry that can contain the address. */
    method Search(addr: nat) returns (k: nat)
      requires Indexed() && maps != [] && Disjoint(maps)
      ensures k < |mapArray| && forall i :: 0 <= i < |mapArray| && i != k ==> !Contains(mapArray[i], addr)
    {
      DisjointSorted(maps, mapArray);
      var lo, hi := 0, numMaps - 1;
      while hi - lo > 1
        invariant 0 <= lo <= hi < numMaps
        invariant lo == 0 || mapArray[lo].vaddr <= addr
        invariant hi == numMaps - 1 || addr < mapArray[hi].vaddr
      {
        var mid := (lo + hi) / 2;
        if addr >= mapArray[mid].vaddr {
          lo := mid;
        } else {
          hi := mid;
        }
      }
      OnlyOneLeft(mapArray, lo, hi, addr);
      k := if addr < mapArray[hi].vaddr then lo else hi;
    }

    /** core_lookup: the binary search, then the class-share mappings in list order. */
    method Lookup(addr: nat) returns (r: Option<MapInfo>)
      requires Indexed() && maps != [] && Disjoint(maps)
      ensures r == if Scan(maps, addr).Some? then Scan(maps, addr) else Scan(classShareMaps, addr)
    {
      var k := Search(addr);
      var mp := mapArray[k];
      SearchIsScan(maps, mapArray, k, addr);
      if addr >= mp.vaddr && addr < mp.vaddr + mp.memsz {
        return Some(mp);
      }
      var i := 0;
      while i < |classShareMaps|
        invariant 0 <= i <= |classShareMaps| && Scan(classShareMaps, addr) == Scan(classShareMaps[i..], addr)
      {
        mp := classShareMaps[i];
        if addr >= mp.vaddr && addr < mp.vaddr + mp.memsz {
          return Some(mp);
        }
        i := i + 1;
      }
      return None;
    }

    ghost function All(): seq<MapInfo>
      reads this
    {
      maps + classShareMaps
    }

    /** pread on a regular file: as many bytes as there are, up to len. */
    method Pread(fd: int, buf: array<bv8>, at: nat, len: nat, off: nat) returns (n: int)
      requires at + len <= buf.Length
      modifies buf
      ensures fd !in files ==> n == -1
      ensures fd in files ==> n == Min(len, if off <= |files[fd]| then |files[fd]| - off else 0)
      ensures forall i :: 0 <= i < buf.Length ==>
                buf[i] == if at <= i < at + n then files[fd][off + i - at] else old(buf[i])
    {
      if fd !in files {
        return -1;
      }
      n := Min(len, if off <= |files[fd]| then |files[fd]| - off else 0);
      forall i | at <= i < at + n {
        buf[i] := files[fd][off + i - at];
      }
    }

    method Memset(buf: array<bv8>, at: nat, len: nat)
      requires at + len <= buf.Length
      modifies buf
      ensures forall i :: 0 <= i < buf.Length ==> buf[i] == if at <= i < at + len then 0 else old(buf[i])
    {
      forall i | at <= i < at + len {
        buf[i] := 0;
      }
    }

    /** One turn of the read loop, for the mapping that was found. Returns how far it got: not at
        all if the file has no more of it, or else to the end of what is wanted or served. */
    method ReadMap(mp: MapInfo, start: nat, buf: array<bv8>, from: nat, left: nat) returns (got: nat)
      requires pageSize > 0 && mp in All() && Contains(mp, start + from)
      requires 0 < left && from + left <= buf.Length && Filled(All(), files, pageSize, start, buf[..from])
      modifies buf
      ensures got <= left && (got > 0 <==> Readable(mp, files, start + from))
      ensures Filled(All(), files, pageSize, start, buf[..from + got])
      ensures 0 < got < left ==> start + from + got == End(mp, files) + PadSize(mp, pageSize)
      ensures forall i :: from + got <= i < buf.Length ==> buf[i] == old(buf[i])
    {
      var resid, at := left, from;
      ghost var before := buf[..from];
      var mapoff := start + from - mp.vaddr;
      var len := Pread(mp.fd, buf, at, Min(resid, mp.memsz - mapoff), mp.offset + mapoff);
      if len <= 0 {
        assert buf[..from] == before;
        return 0;
      }
      resid, at := resid - len, at + len;
      ghost var inFile := at;
      assert forall i :: from <= i < inFile ==> FromMap(mp, files, pageSize, start + i, buf[i]);
      var rem := mp.memsz % pageSize;
      if rem > 0 {
        rem := pageSize - rem;
        len := Min(resid, rem);
        resid := resid - len;
        Memset(buf, at, len);
        at := at + len;
      }
      got := at - from;
      assert forall i :: from <= i < at ==> FromMap(mp, files, pageSize, start + i, buf[i]);
      FilledFurther(All(), files, pageSize, start, mp, before, buf[..at]);
    }

    /** core_read_data, for files of any length. It fails although every byte would be delivered
        when it has to start in padding, and it goes through although some bytes are missing when
        the zeros that pad a mapping are laid over a short gap. */
    method ReadData(start: nat, buf: array<bv8>, size: nat) returns (ok: bool)
      requires Indexed() && maps != [] && Layout(All(), pageSize) && size <= buf.Length
      modifies buf
      ensures ok <==> && (size == 0 || SomeReadable(All(), files, start))
                      && forall a :: start <= a < start + size ==> SomeServes(All(), files, pageSize, a)
      ensures ok ==> Filled(All(), files, pageSize, start, buf[..size])
      ensures forall i :: size <= i < buf.Length ==> buf[i] == old(buf[i])
    {
      var resid, addr, at := size, start, 0;
      while resid != 0
        invariant 0 <= at && 0 <= resid && at + resid == size && addr == start + at
        invariant Progress(All(), files, pageSize, start, buf[..at], resid > 0)
        invariant forall i :: size <= i < buf.Length ==> buf[i] == old(buf[i])
      {
        var got := ReadNext(start, buf, at, resid);
        if got == 0 {
          break;
        }
        resid, addr, at := resid - got, addr + got, at + got;
      }
      ReadOutcome(All(), files, pageSize, start, size, buf[..at]);
      return resid == 0;
    }

    /** One turn of the read loop. Nothing is read where there is no mapping, or no file. */
    method ReadNext(start: nat, buf: array<bv8>, at: nat, left: nat) returns (got: nat)
      requires Indexed() && maps != [] && Layout(All(), pageSize) && 0 < left && at + left <= buf.Length
      requires Progress(All(), files, pageSize, start, buf[..at], true)
      modifies buf
      ensures got <= left && Progress(All(), files, pageSize, start, buf[..at + got], got < left)
      ensures got == 0 ==> Stops(All(), files, pageSize, start, at)
      ensures forall i :: at + got <= i < buf.Length ==> buf[i] == old(buf[i])
    {
      ghost var all, addr := All(), start + at;
      got := 0;
      var found := Find(start + at);
      if found.Some? {
        got := ReadMap(found.value, start, buf, at, left);
        NotReadable(all, files, pageSize, found.value, addr);
      }
      if got == 0 && at > 0 && SomeServes(all, files, pageSize, addr) {
        TurnReadable(all, files, pageSize, addr);
      }
    }

    /** The lookup, as the read loop sees it. */
    method Find(addr: nat) returns (r: Option<MapInfo>)
      requires Indexed() && maps != [] && Layout(All(), pageSize)
      ensures if r.Some? then r.value in All() && Contains(r.value, addr) else forall m :: m in All() ==> !Contains(m, addr)
    {
      DisjointPrefix(maps, classShareMaps);
      r := Lookup(addr);
    }
  }

  /** Only the mapping that contains an address can be read there. */
  lemma NotReadable(all: seq<MapInfo>, files: Files, page: nat, m: MapInfo, addr: nat)
    requires Layout(all, page) && m in all && Contains(m, addr)
    ensures SomeReadable(all, files, addr) <==> Readable(m, files, addr)
  {
    if SomeReadable(all, files, addr) {
      var n :| n in all && Readable(n, files, addr);
      PaddedUnique(all, page, m, n, addr);
    }
  }

  /** A core file of one mapping. */
  method OneMapping(m: MapInfo, files: Files, pageSize: nat) returns (core: Core)
    requires pageSize > 0
    ensures fresh(core) && core.Indexed() && core.maps == [m] && core.All() == [m]
    ensures core.files == files && core.pageSize == pageSize
  {
    core := new Core(files, pageSize);
    core.AddMapInfo(m);
    core.SortMapArray();
  }

  /** A truncated file: twenty bytes are read at the start of a mapping whose file has ten. The
      read goes through, and the other ten bytes are zero though the mapping has no padding there. */
  method TruncatedFileReads() returns (ok: bool, bytes: seq<bv8>)
    ensures var all, files := [MapInfo(3, 0, 4096, 4097)], map[3 := Ones(10)];
            && ok && |bytes| == 20 && (forall i :: 10 <= i < 20 ==> bytes[i] == 0 && Gap(all[0], files, 4096 + i))
            && !forall whole :: Completes(all, files, whole, 4096) ==> IsImage(all, whole, 4096, 4096, bytes)
  {
    var m, files := MapInfo(3, 0, 4096, 4097), map[3 := Ones(10)];
    var core := OneMapping(m, files, 4096);
    var buf := new bv8[20];
    assert Layout([m], 4096);
    assert forall a :: 4096 <= a < 4116 ==> Serves(m, files, 4096, a);
    assert Readable(m, files, 4096);
    ok := core.ReadData(4096, buf, 20);
    bytes := buf[..];
    assert buf[..20] == bytes;
    forall i | 10 <= i < 20
      ensures bytes[i] == 0
    {
      assert Holds([m], files, 4096, 4096, i, bytes[i]);
    }
    assert Gap(m, files, 4096 + 10);
    ReadIsImage([m], files, 4096, 4096, bytes);
  }

  /** A mapping of three bytes from the third byte of its file on, read from its second byte on:
      the rest of the mapping and then its padding. */
  method SampleRead() returns (ok: bool, bytes: seq<bv8>)
    ensures ok && bytes == [6, 5, 0, 0]
  {
    var m, files: Files := MapInfo(3, 2, 4096, 3), map[3 := [9, 8, 7, 6, 5, 4]];
    var core := OneMapping(m, files, 4096);
    var buf := new bv8[4];
    assert Layout([m], 4096);
    assert forall a :: 4097 <= a < 4101 ==> Serves(m, files, 4096, a);
    assert Readable(m, files, 4097);
    ok := core.ReadData(4097, buf, 4);
    bytes := buf[..];
    assert buf[..4] == bytes;
    forall i | 0 <= i < 4
      ensures Holds([m], files, 4096, 4097, i, bytes[i])
    {
    }
  }

  /** Memory that is there, as zeros, but cannot be read from its first byte on. */
  method PaddingCannotStart() returns (ok: bool)
    ensures var all, files := [MapInfo(3, 0, 4096, 1)], map[3 := [7 as bv8]];
            !ok && Loadable(all, files, 4096) && Covered(all, 4096, 4097)
  {
    var m, files := MapInfo(3, 0, 4096, 1), map[3 := [7 as bv8]];
    var core := OneMapping(m, files, 4096);
    assert Padded(m, 4097, 4096);
    var buf := new bv8[1];
    ok := core.ReadData(4097, buf, 1);
  }

  lemma DisjointPrefix(maps: seq<MapInfo>, rest: seq<MapInfo>)
    requires Disjoint(maps + rest)
    ensures Disjoint(maps)
  {
    var all := maps + rest;
    assert forall i :: 0 <= i < |maps| ==> maps[i] == all[i];
    assert forall m :: m in maps ==> m in all;
  }

  /** If only entry k of the array can contain the address, scanning the list finds that one. */
  lemma SearchIsScan(maps: seq<MapInfo>, a: seq<MapInfo>, k: nat, addr: nat)
    requires multiset(a) == multiset(maps) && k < |a|
    requires forall i :: 0 <= i < |a| && i != k ==> !Contains(a[i], addr)
    ensures Scan(maps, addr) == if Contains(a[k], addr) then Some(a[k]) else None
  {
    var r := Scan(maps, addr);
    if r.Some? {
      assert r.value in multiset(maps);
      assert r.value in a;
    }
    assert a[k] in multiset(a);
    assert a[k] in maps;
  }
}

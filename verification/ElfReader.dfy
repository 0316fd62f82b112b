/** `inspect_static_elf`: a total, bounds-checked reader of static hardened ELF64 images, proved to accept
    exactly the images of a declarative specification (System V gABI, chapters 4 and 5). */
module ElfReader {
  import opened Bits
  import opened Outcomes

  type u8 = n: int | 0 <= n < 256

  const U64_END := 0x1_0000_0000_0000_0000
  const PAGE := 0x1000
  const MAX_PROGRAM_HEADERS := 128

  const PT_LOAD := 1
  const PT_DYNAMIC := 2
  const PT_INTERP := 3
  const PT_GNU_STACK := 0x6474E551
  const DT_NULL := 0
  const DT_NEEDED := 1

  // ----- little-endian structures -----

  function Little(raw: seq<u8>, at: nat, n: nat): nat
    requires at + n <= |raw|
    decreases n
  {
    if n == 0 then 0 else raw[at] + 256 * Little(raw, at + 1, n - 1)
  }

  /** Fields of the ELF header after its identification bytes. */
  datatype Ehdr = Ehdr(kind: nat, machine: nat, version: nat, entry: nat, phoff: nat, shoff: nat, flags: nat,
                       ehsize: nat, phentsize: nat, phnum: nat, shentsize: nat, shnum: nat, shstrndx: nat)

  function ReadEhdr(raw: seq<u8>): Ehdr
    requires |raw| >= 64
  {
    Ehdr(Little(raw, 16, 2), Little(raw, 18, 2), Little(raw, 20, 4), Little(raw, 24, 8), Little(raw, 32, 8),
         Little(raw, 40, 8), Little(raw, 48, 4), Little(raw, 52, 2), Little(raw, 54, 2), Little(raw, 56, 2),
         Little(raw, 58, 2), Little(raw, 60, 2), Little(raw, 62, 2))
  }

  datatype Phdr = Phdr(kind: nat, flags: nat, offset: nat, address: nat, physical: nat, filesz: nat, memsz: nat,
                       align: nat)

  function ReadPhdr(raw: seq<u8>, at: nat): Phdr
    requires at + 56 <= |raw|
  {
    Phdr(Little(raw, at, 4), Little(raw, at + 4, 4), Little(raw, at + 8, 8), Little(raw, at + 16, 8),
         Little(raw, at + 24, 8), Little(raw, at + 32, 8), Little(raw, at + 40, 8), Little(raw, at + 48, 8))
  }

  predicate Readable(p: Phdr) { p.flags / 4 % 2 == 1 }
  predicate Writable(p: Phdr) { p.flags / 2 % 2 == 1 }
  predicate Executable(p: Phdr) { p.flags % 2 == 1 }

  // ----- what is demanded of the header -----

  predicate GoodIdent(raw: seq<u8>) {
    && |raw| >= 64
    && raw[..4] == [0x7F, 0x45, 0x4C, 0x46]
    && raw[4..7] == [2, 1, 1]
    && (raw[7] == 0 || raw[7] == 3)
    && raw[8..16] == [0, 0, 0, 0, 0, 0, 0, 0]
  }

  predicate GoodEhdr(length: nat, h: Ehdr, machine: nat) {
    && (h.kind == 2 || h.kind == 3) && h.machine == machine && h.version == 1
    && h.flags == 0 && h.ehsize == 64 && h.entry != 0
    && 1 <= h.phnum <= 128 && h.phentsize == 56
    && 64 <= h.phoff <= length && 56 * h.phnum <= length - h.phoff
    && (if h.shnum == 0 then h.shoff == 0 && h.shentsize == 0 && h.shstrndx == 0
        else h.shentsize == 64 && h.shstrndx < h.shnum && 64 <= h.shoff <= length && 64 * h.shnum <= length - h.shoff)
  }

  const FORBIDDEN_MARKERS := ["openclaw", "open_claw", "5902"]

  /** The byte is the marker's character, or its capital. */
  predicate Spells(b: u8, c: char) {
    (b == c as int && !('A' <= c <= 'Z')) || ('a' <= c <= 'z' && b == c as int - 32)
  }

  predicate LowersTo(raw: seq<u8>, k: int, marker: string) {
    0 <= k <= |raw| - |marker| && forall i :: 0 <= i < |marker| ==> Spells(raw[k + i], marker[i])
  }

  /** `marker in raw.lower()`. */
  predicate ContainsMarker(raw: seq<u8>, marker: string) {
    exists k :: 0 <= k <= |raw| && LowersTo(raw, k, marker)
  }

  predicate RetiredBytes(raw: seq<u8>) {
    ContainsMarker(raw, "openclaw") || ContainsMarker(raw, "open_claw") || ContainsMarker(raw, "5902")
  }

  // ----- what is demanded of each program header -----

  function Tag(raw: seq<u8>, offset: nat, k: nat): nat
    requires offset + 16 * k + 8 <= |raw|
  {
    Little(raw, offset + 16 * k, 8)
  }

  /** The dynamic table ends: some entry is DT_NULL and no entry up to it is DT_NEEDED. */
  ghost predicate DynamicTableCloses(raw: seq<u8>, p: Phdr)
    requires p.offset + p.filesz <= |raw|
  {
    exists k: nat :: 16 * k + 16 <= p.filesz && Tag(raw, p.offset, k) == 0 &&
      forall j: nat :: j < k ==> Tag(raw, p.offset, j) != 0 && Tag(raw, p.offset, j) != 1
  }

  ghost predicate GoodRange(length: nat, p: Phdr) {
    && p.flags < 8
    && p.filesz <= p.memsz && p.address + p.memsz < 0x1_0000_0000_0000_0000
    && p.offset <= length && p.filesz <= length - p.offset
    && (p.align > 1 ==> IsPow2(p.align) && p.offset % p.align == p.address % p.align)
  }

  predicate GoodLoad(p: Phdr, limit: Option<nat>) {
    && p.memsz != 0 && p.filesz != 0 && p.align >= 0x1000
    && (limit.Some? ==> p.address < limit.value && p.memsz <= limit.value - p.address)
    && Readable(p) && !(Writable(p) && Executable(p))
  }

  predicate GoodStack(p: Phdr) {
    p.flags == 6 && p.offset == 0 && p.address == 0 && p.physical == 0 && p.filesz == 0
  }

  ghost predicate GoodSegment(raw: seq<u8>, p: Phdr, limit: Option<nat>) {
    && GoodRange(|raw|, p)
    && p.kind != 3  // PT_INTERP
    && (p.kind == 1 ==> GoodLoad(p, limit))  // PT_LOAD
    && (p.kind == 2 ==> p.filesz != 0 && p.filesz % 16 == 0 && DynamicTableCloses(raw, p))  // PT_DYNAMIC
    && (p.kind == 0x6474E551 ==> GoodStack(p))  // PT_GNU_STACK
  }

  // ----- the whole image -----

  /** The program headers of an image whose ELF header is good. */
  function Segments(raw: seq<u8>, h: Ehdr): (r: seq<Phdr>)
    requires h.phoff + 56 * h.phnum <= |raw|
    ensures |r| == h.phnum
  {
    seq(h.phnum, i requires 0 <= i < h.phnum => ReadPhdr(raw, h.phoff + 56 * i))
  }

  function CountKind(ps: seq<Phdr>, kind: nat): nat {
    if ps == [] then 0 else CountKind(ps[..|ps| - 1], kind) + (if ps[|ps| - 1].kind == kind then 1 else 0)
  }

  /** A dynamic table lies in one file-backed load segment at the same displacement. */
  predicate Covers(load: Phdr, dynamic: Phdr) {
    && load.address <= dynamic.address && dynamic.address + dynamic.filesz <= load.address + load.filesz
    && load.offset <= dynamic.offset && dynamic.offset + dynamic.filesz <= load.offset + load.filesz
    && dynamic.address - load.address == dynamic.offset - load.offset
  }

  ghost predicate GoodImage(raw: seq<u8>, ps: seq<Phdr>, entry: nat, limit: Option<nat>) {
    && (forall p :: p in ps ==> GoodSegment(raw, p, limit))
    && CountKind(ps, PT_GNU_STACK) == 1 && CountKind(ps, PT_DYNAMIC) <= 1
    && (exists p :: p in ps && p.kind == PT_LOAD && Executable(p) && p.address <= entry < p.address + p.filesz)
    && (forall d :: d in ps && d.kind == PT_DYNAMIC ==> exists p :: p in ps && p.kind == PT_LOAD && Covers(p, d))
  }

  /** A static hardened ELF64 image for `machine`. */
  ghost predicate StaticElf(raw: seq<u8>, machine: nat, rejectRetired: bool, limit: Option<nat>) {
    && GoodIdent(raw)
    && GoodEhdr(|raw|, ReadEhdr(raw), machine)
    && !(rejectRetired && RetiredBytes(raw))
    && GoodImage(raw, Segments(raw, ReadEhdr(raw)), ReadEhdr(raw).entry, limit)
  }

  // ----- the reader -----

  /** The scan of PT_DYNAMIC: up to the first DT_NULL, refusing DT_NEEDED. */
  method ScanDynamic(raw: seq<u8>, p: Phdr) returns (ok: bool)
    requires p.offset + p.filesz <= |raw| && p.filesz % 16 == 0
    ensures ok <==> DynamicTableCloses(raw, p)
  {
    var k := 0;
    while 16 * k < p.filesz
      invariant 16 * k <= p.filesz
      invariant forall j: nat :: j < k ==> Tag(raw, p.offset, j) != DT_NULL && Tag(raw, p.offset, j) != DT_NEEDED
    {
      var tag := Tag(raw, p.offset, k);
      if tag == DT_NULL {
        return true;
      }
      if tag == DT_NEEDED {
        return false;
      }
      k := k + 1;
    }
    return false;
  }

  /** `bytes.lower`, one byte. */
  function Lower(b: u8): u8 {
    if 'A' as int <= b <= 'Z' as int then b + 32 else b
  }

  method FindsMarker(raw: seq<u8>, marker: string) returns (found: bool)
    ensures found <==> ContainsMarker(raw, marker)
  {
    for k := 0 to |raw| + 1
      invariant forall j :: 0 <= j < k ==> !LowersTo(raw, j, marker)
    {
      var i := 0;
      while i < |marker| && k + i < |raw| && Lower(raw[k + i]) == marker[i] as int
        invariant 0 <= i <= |marker| && k + i <= |raw|
        invariant forall j :: 0 <= j < i ==> Spells(raw[k + j], marker[j])
      {
        i := i + 1;
      }
      if i == |marker| {
        assert LowersTo(raw, k, marker);
        return true;
      }
      assert k + i < |raw| ==> !Spells(raw[k + i], marker[i]);
    }
    return false;
  }

  /** `any(marker in raw.lower() for marker in FORBIDDEN_MARKERS)`. */
  method FindsRetired(raw: seq<u8>) returns (found: bool)
    ensures found <==> RetiredBytes(raw)
  {
    hide ContainsMarker;
    assert FORBIDDEN_MARKERS[0] == "openclaw" && FORBIDDEN_MARKERS[1] == "open_claw" && FORBIDDEN_MARKERS[2] == "5902";
    for m := 0 to |FORBIDDEN_MARKERS|
      invariant forall j :: 0 <= j < m ==> !ContainsMarker(raw, FORBIDDEN_MARKERS[j])
    {
      found := FindsMarker(raw, FORBIDDEN_MARKERS[m]);
      if found {
        return;
      }
    }
    return false;
  }

  /** The checks on the ELF header, in their order. */
  method CheckHeader(raw: seq<u8>, machine: nat) returns (ok: bool)
    ensures ok <==> GoodIdent(raw) && GoodEhdr(|raw|, ReadEhdr(raw), machine)
  {
    hide Little;
    if |raw| < 64 || raw[..4] != [0x7F, 0x45, 0x4C, 0x46] {
      return false;
    }
    if raw[4..7] != [2, 1, 1] {
      return false;
    }
    if raw[7] !in {0, 3} || raw[8] != 0 || exists i :: 9 <= i < 16 && raw[i] != 0 {
      assert raw[8..16] == [0, 0, 0, 0, 0, 0, 0, 0] ==> forall i :: 8 <= i < 16 ==> raw[i] == raw[8..16][i - 8] == 0;
      return false;
    }
    assert raw[8..16] == [0, 0, 0, 0, 0, 0, 0, 0];
    var h := ReadEhdr(raw);
    if h.kind !in {2, 3} || h.machine != machine || h.version != 1 {
      return false;
    }
    if h.flags != 0 || h.ehsize != 64 || h.entry == 0 {
      return false;
    }
    if h.phnum < 1 || h.phnum > MAX_PROGRAM_HEADERS || h.phentsize != 56 {
      return false;
    }
    if h.phoff < h.ehsize || h.phoff > |raw| || h.phentsize * h.phnum > |raw| - h.phoff {
      return false;
    }
    if h.shnum == 0 {
      return h.shoff == 0 && h.shentsize == 0 && h.shstrndx == 0;
    }
    return h.shentsize == 64 && h.shstrndx < h.shnum && h.ehsize <= h.shoff <= |raw| &&
           h.shentsize * h.shnum <= |raw| - h.shoff;
  }

  /** `flags & PF_R`, `flags & PF_W` and `flags & PF_X` test bits 2, 1 and 0. */
  lemma FlagTests(p: Phdr)
    ensures BitAnd(p.flags, 4) != 0 <==> Readable(p)
    ensures BitAnd(p.flags, 2) != 0 <==> Writable(p)
    ensures BitAnd(p.flags, 1) != 0 <==> Executable(p)
  {
    hide BitAnd;
    assert Pow2(0) == 1 && Pow2(1) == 2 && Pow2(2) == 4;
    BitAndTestsBit(p.flags, 0);
    BitAndTestsBit(p.flags, 1);
    BitAndTestsBit(p.flags, 2);
    assert p.flags / 1 == p.flags;
  }

  /** The checks on one program header that do not depend on the others. */
  method CheckSegment(raw: seq<u8>, p: Phdr, limit: Option<nat>) returns (ok: bool)
    ensures ok <==> GoodSegment(raw, p, limit)
  {
    hide BitAnd, DynamicTableCloses, IsPow2, Little;
    if p.flags / 8 != 0 || p.filesz > p.memsz || p.address + p.memsz >= U64_END {
      return false;
    }
    if p.offset > |raw| || p.filesz > |raw| - p.offset {
      return false;
    }
    if p.align != 0 && p.align != 1 {
      ClearLowestBit(p.align);
      if BitAnd(p.align, p.align - 1) != 0 || p.offset % p.align != p.address % p.align {
        return false;
      }
    }
    if p.kind == PT_INTERP {
      return false;
    }
    if p.kind == PT_LOAD {
      if p.memsz == 0 || p.filesz == 0 || p.align < PAGE {
        return false;
      }
      if limit.Some? && (p.address >= limit.value || p.memsz > limit.value - p.address) {
        return false;
      }
      FlagTests(p);
      if BitAnd(p.flags, 4) == 0 || (BitAnd(p.flags, 2) != 0 && BitAnd(p.flags, 1) != 0) {
        return false;
      }
    } else if p.kind == PT_DYNAMIC {
      if p.filesz == 0 || p.filesz % 16 != 0 {
        return false;
      }
      var closes := ScanDynamic(raw, p);
      if !closes {
        return false;
      }
    } else if p.kind == PT_GNU_STACK {
      if p.flags != 6 || p.offset != 0 || p.address != 0 || p.physical != 0 || p.filesz != 0 {
        return false;
      }
    }
    return true;
  }

  lemma {:induction false} CountGrows(ps: seq<Phdr>, kind: nat, n: nat)
    requires n <= |ps|
    ensures CountKind(ps[..n], kind) <= CountKind(ps, kind)
    decreases |ps|
  {
    if n < |ps| {
      CountGrows(ps[..|ps| - 1], kind, n);
      assert ps[..|ps| - 1][..n] == ps[..n];
    } else {
      assert ps[..n] == ps;
    }
  }

  lemma {:induction false} CountZero(ps: seq<Phdr>, kind: nat)
    ensures CountKind(ps, kind) == 0 <==> forall p :: p in ps ==> p.kind != kind
  {
    if ps != [] {
      var front, last := ps[..|ps| - 1], ps[|ps| - 1];
      CountZero(front, kind);
      assert ps == front + [last];
    }
  }

  /** The lists and counters filled by the loop over the program headers. */
  datatype Collected = Collected(loads: seq<Phdr>, executable: seq<(nat, nat)>, dynamicCount: nat, stackCount: nat)

  ghost predicate Summarizes(c: Collected, ps: seq<Phdr>) {
    && c.dynamicCount == CountKind(ps, PT_DYNAMIC) <= 1 && c.stackCount == CountKind(ps, PT_GNU_STACK) <= 1
    && (forall p :: p in c.loads <==> p in ps && p.kind == PT_LOAD)
    && (forall p :: p in ps && p.kind == PT_LOAD && Executable(p) ==> (p.address, p.address + p.filesz) in c.executable)
    && (forall r :: r in c.executable ==>
          exists p :: p in ps && p.kind == PT_LOAD && Executable(p) && r == (p.address, p.address + p.filesz))
  }

  /** What one more good header does to the lists and counters. */
  function Collect(c: Collected, p: Phdr): Collected {
    if p.kind == PT_LOAD then
      c.(loads := c.loads + [p],
         executable := c.executable + if Executable(p) then [(p.address, p.address + p.filesz)] else [])
    else if p.kind == PT_DYNAMIC then c.(dynamicCount := c.dynamicCount + 1)
    else if p.kind == PT_GNU_STACK then c.(stackCount := c.stackCount + 1)
    else c
  }

  lemma CollectSummarizes(c: Collected, ps: seq<Phdr>, p: Phdr)
    requires Summarizes(c, ps) && Collect(c, p).dynamicCount <= 1 && Collect(c, p).stackCount <= 1
    ensures Summarizes(Collect(c, p), ps + [p])
  {
    hide Executable;
    assert (ps + [p])[..|ps|] == ps;
    var c' := Collect(c, p);
    forall r | r in c'.executable
      ensures exists q :: q in ps + [p] && q.kind == PT_LOAD && Executable(q) && r == (q.address, q.address + q.filesz)
    {
      if r in c.executable {
        var q :| q in ps && q.kind == PT_LOAD && Executable(q) && r == (q.address, q.address + q.filesz);
        assert q in ps + [p];
      } else {
        assert p in ps + [p];
      }
    }
  }

  lemma TooMany(c: Collected, ps: seq<Phdr>, i: nat)
    requires i < |ps| && Summarizes(c, ps[..i])
    requires Collect(c, ps[i]).dynamicCount > 1 || Collect(c, ps[i]).stackCount > 1
    ensures CountKind(ps, PT_DYNAMIC) > 1 || CountKind(ps, PT_GNU_STACK) > 1
  {
    CountGrows(ps, PT_DYNAMIC, i + 1);
    CountGrows(ps, PT_GNU_STACK, i + 1);
    assert ps[..i + 1][..i] == ps[..i];
  }

  /** The loop over the program headers. */
  method CollectSegments(raw: seq<u8>, ps: seq<Phdr>, limit: Option<nat>) returns (r: Outcome<Collected>)
    ensures r.Accepted? <==>
      && (forall p :: p in ps ==> GoodSegment(raw, p, limit))
      && CountKind(ps, PT_DYNAMIC) <= 1 && CountKind(ps, PT_GNU_STACK) <= 1
    ensures r.Accepted? ==> Summarizes(r.value, ps)
  {
    hide GoodSegment, Executable, Collect;
    var c := Collected([], [], 0, 0);
    for i := 0 to |ps|
      invariant forall j :: 0 <= j < i ==> GoodSegment(raw, ps[j], limit)
      invariant Summarizes(c, ps[..i])
    {
      var p := ps[i];
      var good := CheckSegment(raw, p, limit);
      if !good {
        assert p in ps;
        return Denied;
      }
      ghost var before := c;
      c := Collect(c, p);
      if c.dynamicCount > 1 || c.stackCount > 1 {
        TooMany(before, ps, i);
        return Denied;
      }
      CollectSummarizes(before, ps[..i], p);
      assert ps[..i + 1] == ps[..i] + [p];
    }
    assert ps[..|ps|] == ps;
    return Accepted(c);
  }

  /** `any(start <= entry < end for start, end in executable_loads)`. */
  predicate EntryInside(executable: seq<(nat, nat)>, entry: nat) {
    exists i :: 0 <= i < |executable| && executable[i].0 <= entry < executable[i].1
  }

  lemma EntryInsideMeaning(c: Collected, ps: seq<Phdr>, entry: nat)
    requires Summarizes(c, ps)
    ensures EntryInside(c.executable, entry) <==>
      exists p :: p in ps && p.kind == PT_LOAD && Executable(p) && p.address <= entry < p.address + p.filesz
  {
    hide Executable, CountKind;
    if i :| 0 <= i < |c.executable| && c.executable[i].0 <= entry < c.executable[i].1 {
      assert c.executable[i] in c.executable;
    }
    if p :| p in ps && p.kind == PT_LOAD && Executable(p) && p.address <= entry < p.address + p.filesz {
      assert (p.address, p.address + p.filesz) in c.executable;
    }
  }

  /** The loop over the program headers and the checks after it. */
  method InspectSegments(raw: seq<u8>, ps: seq<Phdr>, entry: nat, limit: Option<nat>) returns (ok: bool)
    ensures ok <==> GoodImage(raw, ps, entry, limit)
  {
    hide GoodSegment, Executable, CountKind, EntryInside, Covers;
    var collected := CollectSegments(raw, ps, limit);
    if collected.Denied? {
      return false;
    }
    var c := collected.value;
    EntryInsideMeaning(c, ps, entry);
    if !EntryInside(c.executable, entry) {
      return false;
    }
    if c.stackCount != 1 {
      return false;
    }
    if c.dynamicCount == 0 {
      CountZero(ps, PT_DYNAMIC);
      return true;
    }
    var d := FirstOfKind(ps, PT_DYNAMIC);
    UniqueOfKind(ps, PT_DYNAMIC, d);
    assert ps[d] in ps;
    ok := FindsCover(c.loads, ps[d]);
    assert forall p :: p in ps && p.kind == PT_LOAD ==> p in c.loads;
  }

  /** `any(…)` over the load segments. */
  method FindsCover(loads: seq<Phdr>, d: Phdr) returns (found: bool)
    ensures found <==> exists p :: p in loads && Covers(p, d)
  {
    for i := 0 to |loads|
      invariant forall j :: 0 <= j < i ==> !Covers(loads[j], d)
    {
      var load := loads[i];
      if load.address <= d.address && d.address + d.filesz <= load.address + load.filesz &&
         load.offset <= d.offset && d.offset + d.filesz <= load.offset + load.filesz &&
         d.address - load.address == d.offset - load.offset
      {
        assert load in loads;
        return true;
      }
    }
    return false;
  }

  /** `next(header for header in headers if its type is PT_DYNAMIC)`. */
  method FirstOfKind(ps: seq<Phdr>, kind: nat) returns (d: nat)
    requires CountKind(ps, kind) > 0
    ensures d < |ps| && ps[d].kind == kind && forall j :: 0 <= j < d ==> ps[j].kind != kind
  {
    d := 0;
    while d < |ps| && ps[d].kind != kind
      invariant d <= |ps| && forall j :: 0 <= j < d ==> ps[j].kind != kind
    {
      d := d + 1;
    }
    assert d == |ps| ==> forall p :: p in ps ==> p.kind != kind;
    CountZero(ps, kind);
  }

  /** With a count of one there is only one header of that kind. */
  lemma {:induction false} UniqueOfKind(ps: seq<Phdr>, kind: nat, d: nat)
    requires CountKind(ps, kind) == 1 && d < |ps| && ps[d].kind == kind
    ensures forall p :: p in ps && p.kind == kind ==> p == ps[d]
  {
    var n := |ps| - 1;
    var front := ps[..n];
    assert ps == front + [ps[n]];
    assert d == n || ps[d] in front;
    if ps[n].kind == kind {
      CountZero(front, kind);
    } else {
      UniqueOfKind(front, kind, d);
    }
  }

  /** `inspect_static_elf`: total on every byte string, and accepting exactly the static hardened images. */
  method InspectStaticElf(raw: seq<u8>, machine: nat, rejectRetired: bool, limit: Option<nat>)
    returns (r: Outcome<string>)
    ensures r.Accepted? <==> StaticElf(raw, machine, rejectRetired, limit)
    ensures r.Accepted? ==> r.value == if ReadEhdr(raw).kind == 2 then "ET_EXEC" else "ET_DYN"
  {
    hide GoodImage, RetiredBytes, Little;
    var good := CheckHeader(raw, machine);
    if !good {
      return Denied;
    }
    var h := ReadEhdr(raw);
    if rejectRetired {
      var retired := FindsRetired(raw);
      if retired {
        return Denied;
      }
    }
    good := InspectSegments(raw, Segments(raw, h), h.entry, limit);
    if !good {
      return Denied;
    }
    return Accepted(if h.kind == 2 then "ET_EXEC" else "ET_DYN");
  }

  // ----- what acceptance guarantees -----

  lemma CongruentModuloPage(a: nat, x: nat, y: nat)
    requires IsPow2(a) && a >= PAGE && x % a == y % a
    ensures x % PAGE == y % PAGE
  {
    var e: nat :| a == Pow2(e);
    assert Pow2(4) == 16;
    Pow2Divides(4, 8);
    Pow2Divides(4, 12);
    assert Pow2(12) == 2 * Pow2(11);
    if e < 12 {
      Pow2Monotone(e, 11);
    }
    Pow2Divides(12, e);
    var k := Pow2(e - 12);
    ModOfMultiple(x, k);
    ModOfMultiple(y, k);
  }

  lemma ModOfMultiple(x: nat, k: nat)
    requires k >= 1
    ensures x % (k * PAGE) % PAGE == x % PAGE
  {
    var a := k * PAGE;
    var q, r := x / a, x % a;
    assert x == q * a + r;
    assert q * a == q * k * PAGE;
    var t, s := r / PAGE, r % PAGE;
    assert x == (q * k + t) * PAGE + s;
    QuotientUnique(x, PAGE, q * k + t, s);
  }

  /** Every accepted load segment: its end fits 64-bit arithmetic and the user limit, its file bytes are in the
      image, it is page-congruent, and it is never both writable and executable. */
  lemma LoadsAreMappable(raw: seq<u8>, machine: nat, rejectRetired: bool, limit: Option<nat>, p: Phdr)
    requires StaticElf(raw, machine, rejectRetired, limit)
    requires p in Segments(raw, ReadEhdr(raw)) && p.kind == PT_LOAD
    ensures (p.address + p.memsz) % 0x1_0000_0000_0000_0000 == p.address + p.memsz
    ensures (p.address + p.filesz) % 0x1_0000_0000_0000_0000 == p.address + p.filesz <= p.address + p.memsz
    ensures limit.Some? ==> p.address + p.memsz <= limit.value
    ensures p.offset + p.filesz <= |raw|
    ensures p.address % 0x1000 == p.offset % 0x1000
    ensures Readable(p) && !(Writable(p) && Executable(p))
  {
    hide Segments, ReadEhdr, GoodEhdr, RetiredBytes, Readable, Writable, Executable;
    assert GoodSegment(raw, p, limit);
    CongruentModuloPage(p.align, p.offset, p.address);
  }

  /** The file byte that a load segment maps at an address. */
  function FileOffset(p: Phdr, address: nat): int {
    p.offset + (address - p.address)
  }

  /** An executable, unwritable load segment whose file bytes include the entry point. */
  ghost predicate HoldsEntry(p: Phdr, entry: nat, length: nat) {
    && p.kind == PT_LOAD && Executable(p) && !Writable(p)
    && p.address <= entry < p.address + p.filesz && 0 <= FileOffset(p, entry) < length
  }

  /** The entry point of an accepted image is an executable byte that the file provides. */
  lemma EntryIsFileBacked(raw: seq<u8>, machine: nat, rejectRetired: bool, limit: Option<nat>)
    requires StaticElf(raw, machine, rejectRetired, limit)
    ensures exists p :: p in Segments(raw, ReadEhdr(raw)) && HoldsEntry(p, ReadEhdr(raw).entry, |raw|)
  {
    hide Segments, RetiredBytes, Readable, Writable, Executable, Little;
    var ps, entry := Segments(raw, ReadEhdr(raw)), ReadEhdr(raw).entry;
    var p :| p in ps && p.kind == PT_LOAD && Executable(p) && p.address <= entry < p.address + p.filesz;
    assert GoodSegment(raw, p, limit);
    assert HoldsEntry(p, entry, |raw|);
  }

  /** Every byte of the table is mapped by the load segment at the file offset the table was read from. */
  ghost predicate MapsTable(p: Phdr, d: Phdr) {
    forall a: nat :: d.address <= a < d.address + d.filesz ==>
      p.address <= a < p.address + p.filesz && FileOffset(p, a) == FileOffset(d, a)
  }

  lemma CoversMapsTable(p: Phdr, d: Phdr)
    requires Covers(p, d)
    ensures MapsTable(p, d)
  {
  }

  /** An accepted image has at most one dynamic table; it names no needed library before its end, and one load
      segment maps all of it. */
  lemma DynamicTableIsMapped(raw: seq<u8>, machine: nat, rejectRetired: bool, limit: Option<nat>, d: Phdr)
    requires StaticElf(raw, machine, rejectRetired, limit)
    requires d in Segments(raw, ReadEhdr(raw)) && d.kind == PT_DYNAMIC
    ensures d.offset + d.filesz <= |raw| && DynamicTableCloses(raw, d)
    ensures forall d' :: d' in Segments(raw, ReadEhdr(raw)) && d'.kind == PT_DYNAMIC ==> d' == d
    ensures exists p :: p in Segments(raw, ReadEhdr(raw)) && p.kind == PT_LOAD && MapsTable(p, d)
  {
    hide Segments, RetiredBytes, Readable, Writable, Executable, Little, CountKind, DynamicTableCloses, IsPow2;
    hide MapsTable;
    var ps := Segments(raw, ReadEhdr(raw));
    assert GoodSegment(raw, d, limit);
    var i :| 0 <= i < |ps| && ps[i] == d;
    CountZero(ps, PT_DYNAMIC);
    UniqueOfKind(ps, PT_DYNAMIC, i);
    var p :| p in ps && p.kind == PT_LOAD && Covers(p, d);
    CoversMapsTable(p, d);
  }

  /** An accepted image has no interpreter, and one stack header, which is not executable. */
  lemma StackIsPlain(raw: seq<u8>, machine: nat, rejectRetired: bool, limit: Option<nat>)
    requires StaticElf(raw, machine, rejectRetired, limit)
    ensures
      var ps := Segments(raw, ReadEhdr(raw));
      && (forall p :: p in ps ==> p.kind != 3 && p.flags < 8)
      && (exists p :: p in ps && p.kind == 0x6474E551 && p.flags == 6)
      && forall p, q :: p in ps && q in ps && p.kind == q.kind == 0x6474E551 ==> p == q
  {
    var ps := Segments(raw, ReadEhdr(raw));
    CountZero(ps, PT_GNU_STACK);
    hide Segments, ReadEhdr, GoodEhdr, RetiredBytes, DynamicTableCloses, CountKind;
    var p :| p in ps && p.kind == PT_GNU_STACK;
    assert GoodSegment(raw, p, limit);
    var d :| 0 <= d < |ps| && ps[d] == p;
    UniqueOfKind(ps, PT_GNU_STACK, d);
  }

  // ----- the layout by byte position -----

  /** `n` bytes of `v`, least significant first. */
  function Le(v: nat, n: nat): seq<u8>
    decreases n
  {
    if n == 0 then [] else [v % 256] + Le(v / 256, n - 1)
  }

  /** `v` fits in `n` bytes. */
  predicate Fits(v: nat, n: nat)
    decreases n
  {
    if n == 0 then v == 0 else Fits(v / 256, n - 1)
  }

  /** Bytes `at` to `at + n - 1` hold `v`, little-endian. */
  ghost predicate HeldAt(raw: seq<u8>, at: nat, n: nat, v: nat) {
    at + n <= |raw| && Fits(v, n) && raw[at..at + n] == Le(v, n)
  }

  lemma {:induction false} LittleIff(raw: seq<u8>, at: nat, n: nat, v: nat)
    requires at + n <= |raw|
    ensures Little(raw, at, n) == v <==> HeldAt(raw, at, n, v)
    decreases n
  {
    if n > 0 {
      LittleIff(raw, at + 1, n - 1, v / 256);
      assert raw[at..at + n] == [raw[at]] + raw[at + 1..at + n];
      assert raw[at..at + n][1..] == raw[at + 1..at + n] && Le(v, n)[1..] == Le(v / 256, n - 1);
      assert raw[at..at + n][0] == raw[at] && Le(v, n)[0] == v % 256;
    }
  }

  /** The ELF header: e_type at 16, e_machine at 18, e_version at 20, e_entry at 24, e_phoff at 32, e_shoff at 40,
      e_flags at 48, then six half-words from 52. */
  ghost predicate EhdrAt(raw: seq<u8>, h: Ehdr) {
    && HeldAt(raw, 16, 2, h.kind) && HeldAt(raw, 18, 2, h.machine) && HeldAt(raw, 20, 4, h.version)
    && HeldAt(raw, 24, 8, h.entry) && HeldAt(raw, 32, 8, h.phoff) && HeldAt(raw, 40, 8, h.shoff)
    && HeldAt(raw, 48, 4, h.flags) && HeldAt(raw, 52, 2, h.ehsize) && HeldAt(raw, 54, 2, h.phentsize)
    && HeldAt(raw, 56, 2, h.phnum) && HeldAt(raw, 58, 2, h.shentsize) && HeldAt(raw, 60, 2, h.shnum)
    && HeldAt(raw, 62, 2, h.shstrndx)
  }

  /** A program header: p_type and p_flags, then p_offset, p_vaddr, p_paddr, p_filesz, p_memsz and p_align from 8. */
  ghost predicate PhdrAt(raw: seq<u8>, at: nat, p: Phdr) {
    && HeldAt(raw, at, 4, p.kind) && HeldAt(raw, at + 4, 4, p.flags) && HeldAt(raw, at + 8, 8, p.offset)
    && HeldAt(raw, at + 16, 8, p.address) && HeldAt(raw, at + 24, 8, p.physical) && HeldAt(raw, at + 32, 8, p.filesz)
    && HeldAt(raw, at + 40, 8, p.memsz) && HeldAt(raw, at + 48, 8, p.align)
  }

  /** Reading the ELF header and reading a program header, in both directions. */
  lemma ReadEhdrIff(raw: seq<u8>, h: Ehdr)
    requires |raw| >= 64
    ensures ReadEhdr(raw) == h <==> EhdrAt(raw, h)
  {
    hide Little, HeldAt;
    LittleIff(raw, 16, 2, h.kind);
    LittleIff(raw, 18, 2, h.machine);
    LittleIff(raw, 20, 4, h.version);
    LittleIff(raw, 24, 8, h.entry);
    LittleIff(raw, 32, 8, h.phoff);
    LittleIff(raw, 40, 8, h.shoff);
    LittleIff(raw, 48, 4, h.flags);
    LittleIff(raw, 52, 2, h.ehsize);
    LittleIff(raw, 54, 2, h.phentsize);
    LittleIff(raw, 56, 2, h.phnum);
    LittleIff(raw, 58, 2, h.shentsize);
    LittleIff(raw, 60, 2, h.shnum);
    LittleIff(raw, 62, 2, h.shstrndx);
  }

  lemma ReadPhdrIff(raw: seq<u8>, at: nat, p: Phdr)
    requires at + 56 <= |raw|
    ensures ReadPhdr(raw, at) == p <==> PhdrAt(raw, at, p)
  {
    hide Little, HeldAt;
    LittleIff(raw, at, 4, p.kind);
    LittleIff(raw, at + 4, 4, p.flags);
    LittleIff(raw, at + 8, 8, p.offset);
    LittleIff(raw, at + 16, 8, p.address);
    LittleIff(raw, at + 24, 8, p.physical);
    LittleIff(raw, at + 32, 8, p.filesz);
    LittleIff(raw, at + 40, 8, p.memsz);
    LittleIff(raw, at + 48, 8, p.align);
  }

  /** The headers at their byte positions: the ELF header `h` and, from `h.phoff` on, the program headers `ps`. */
  ghost predicate LaidOut(raw: seq<u8>, h: Ehdr, ps: seq<Phdr>) {
    && EhdrAt(raw, h) && |ps| == h.phnum
    && forall i :: 0 <= i < |ps| ==> PhdrAt(raw, h.phoff + 56 * i, ps[i])
  }

  /** An image is accepted exactly when headers that meet the demands are laid out in it. */
  lemma StaticElfByLayout(raw: seq<u8>, machine: nat, rejectRetired: bool, limit: Option<nat>)
    ensures StaticElf(raw, machine, rejectRetired, limit) <==>
      exists h, ps ::
        && LaidOut(raw, h, ps) && GoodIdent(raw) && GoodEhdr(|raw|, h, machine)
        && !(rejectRetired && RetiredBytes(raw)) && GoodImage(raw, ps, h.entry, limit)
  {
    hide GoodImage, RetiredBytes, ReadEhdr, ReadPhdr, EhdrAt, PhdrAt;
    if |raw| >= 64 {
      var h := ReadEhdr(raw);
      forall h' ensures EhdrAt(raw, h') <==> h' == h {
        ReadEhdrIff(raw, h');
      }
      if GoodEhdr(|raw|, h, machine) {
        SegmentsAreLaidOut(raw, h);
      }
    }
  }

  lemma SegmentsAreLaidOut(raw: seq<u8>, h: Ehdr)
    requires h.phoff + 56 * h.phnum <= |raw| && EhdrAt(raw, h)
    ensures forall ps :: LaidOut(raw, h, ps) <==> ps == Segments(raw, h)
  {
    hide ReadPhdr, EhdrAt, PhdrAt;
    forall ps ensures LaidOut(raw, h, ps) <==> ps == Segments(raw, h) {
      forall i | 0 <= i < |ps| && |ps| == h.phnum
        ensures PhdrAt(raw, h.phoff + 56 * i, ps[i]) <==> ps[i] == Segments(raw, h)[i]
      {
        ReadPhdrIff(raw, h.phoff + 56 * i, ps[i]);
      }
      if LaidOut(raw, h, ps) {
        assert forall i :: 0 <= i < |ps| ==> ps[i] == Segments(raw, h)[i];
      }
    }
  }
}

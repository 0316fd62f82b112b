/** The archives of the staging filter by byte position: what each field of a 512-byte ustar header block
    holds, how many data blocks follow it, and which members may follow which.  The filter is proved to
    accept exactly these archives and to write exactly the archives that differ in directory modes. */
module ArchiveLayout {
  import opened FilterGrammar
  import opened Links
  import opened Outcomes
  import opened Paths
  import opened StagingFilter
  import opened TarHeaders

  // ----- fields -----

  ghost predicate Nuls(s: seq<byte>) {
    forall i :: 0 <= i < |s| ==> s[i] == '\0'
  }

  /** The field spells `value` in octal: spaces, digits, then NULs and spaces. */
  ghost predicate Prints(field: seq<byte>, value: nat) {
    value < 0x1_0000_0000_0000_0000 &&
    exists a: nat, b: nat :: OctalLayout(field, a, b) && OctalValue(field[a..b]) == value
  }

  /** The field holds `text` and NULs after it. */
  ghost predicate Spells(field: seq<byte>, text: seq<byte>) {
    '\0' !in text && |text| <= |field| && field[..|text|] == text && Nuls(field[|text|..])
  }

  lemma NulsAreZeros(s: seq<byte>)
    ensures s == Zeros(|s|) <==> Nuls(s)
    ensures AllZero(s) <==> Nuls(s)
  {
    assert forall i :: 0 <= i < |s| ==> Zeros(|s|)[i] == '\0';
  }

  /** The octal parser in both directions. */
  lemma OctalFieldIff(field: seq<byte>, allowBlank: bool, value: nat)
    ensures OctalField(field, allowBlank) == Accepted(value) <==>
      Prints(field, value) || (allowBlank && field != [] && value == 0 && Nuls(field))
  {
    hide ScanOctal, OctalValue, LeadingSpaces;
    NulsAreZeros(field);
    if OctalField(field, allowBlank) == Accepted(value) {
      var a, b := OctalAcceptedIsLaidOut(field, allowBlank);
      if OctalLayout(field, a, b) {
        OctalLayoutDecides(field, allowBlank, a, b);
      }
    }
    if Prints(field, value) {
      var a: nat, b: nat :| OctalLayout(field, a, b) && OctalValue(field[a..b]) == value;
      OctalLayoutDecides(field, allowBlank, a, b);
    }
  }

  lemma {:induction false} FirstNul(s: seq<byte>)
    ensures forall i :: 0 <= i < FindNul(s) ==> s[i] != '\0'
  {
    if s != [] && s[0] != '\0' {
      FirstNul(s[1..]);
    }
  }

  /** The text parser in both directions. */
  lemma TextFieldIff(field: seq<byte>, text: seq<byte>)
    ensures TextField(field) == Accepted(text) <==> Spells(field, text)
  {
    var nul := FindNul(field);
    FirstNul(field);
    NulsAreZeros(field[nul..]);
    hide FindNul, AllZero;
    if Spells(field, text) {
      assert forall i :: 0 <= i < |text| ==> field[i] == text[i] != '\0';
      forall i | |text| <= i < |field| ensures field[i] == '\0' {
        assert field[|text|..][i - |text|] == '\0';
      }
      assert |text| < |field| ==> field[|text|] == '\0';
      assert nul < |field| ==> field[nul] == '\0';
      assert nul == |text|;
    }
  }

  // ----- the header block -----

  /** The 512 bytes hold mode at 100, uid at 108, gid at 116, size at 124, mtime at 136, the checksum at 148,
      the type at 156, magic and version at 257, the owner names at 265 and 297 and the device numbers at 329
      and 337.  Owner and devices are zero, and the last twelve bytes are NUL. */
  ghost predicate HeaderReads(header: seq<byte>, c: Common) {
    && |header| == 512
    && Prints(header[148..156], ByteSum(header[..148]) + 256 + ByteSum(header[156..]))
    && (if c.gnu then header[257..263] == "ustar " && header[263..265] == " \0"
        else header[257..263] == "ustar\0" && header[263..265] == "00")
    && Prints(header[100..108], c.mode) && c.mode < 4096
    && Prints(header[108..116], 0) && Prints(header[116..124], 0)
    && Prints(header[124..136], c.size) && Prints(header[136..148], c.mtime)
    && c.typeflag == header[156]
    && (exists uname :: Spells(header[265..297], uname)) && (exists gname :: Spells(header[297..329], gname))
    && (Prints(header[329..337], 0) || Nuls(header[329..337]))
    && (Prints(header[337..345], 0) || Nuls(header[337..345]))
    && Nuls(header[500..512])
  }

  /** The same of the sliced header. */
  ghost predicate RawReads(raw: RawHeader, c: Common) {
    && (if c.gnu then raw.magic == "ustar " && raw.version == " \0" else raw.magic == "ustar\0" && raw.version == "00")
    && OctalField(raw.mode, false) == Accepted(c.mode) && c.mode < 4096
    && OctalField(raw.uid, false) == Accepted(0) && OctalField(raw.gid, false) == Accepted(0)
    && OctalField(raw.size, false) == Accepted(c.size) && OctalField(raw.mtime, false) == Accepted(c.mtime)
    && c.typeflag == raw.typeflag
    && TextField(raw.uname).Accepted? && TextField(raw.gname).Accepted?
    && OctalField(raw.devmajor, true) == Accepted(0) && OctalField(raw.devminor, true) == Accepted(0)
    && AllZero(raw.padding)
  }

  lemma ParseRawIff(raw: RawHeader, c: Common)
    ensures ParseRaw(raw) == Accepted(c) <==> RawReads(raw, c)
  {
    hide OctalField, TextField, AllZero;
    assert "ustar "[5] != "ustar\0"[5];
  }

  lemma TextAccepted(field: seq<byte>)
    ensures TextField(field).Accepted? <==> exists text :: Spells(field, text)
  {
    if TextField(field).Accepted? {
      TextFieldIff(field, TextField(field).value);
    }
    if text: seq<byte> :| Spells(field, text) {
      TextFieldIff(field, text);
    }
  }

  /** What a parsed header means: the parser returns `c` exactly for the blocks that print `c` at these
      positions. */
  lemma HeaderIff(header: seq<byte>, c: Common)
    ensures CommonHeader(header) == Accepted(c) <==> HeaderReads(header, c)
  {
    hide OctalField, TextField, AllZero, ParseRaw, ByteSum, Nuls, Prints, Spells;
    if |header| == 512 {
      ParseRawIff(Slice(header), c);
      OctalFieldIff(header[148..156], false, ByteSum(header[..148]) + 256 + ByteSum(header[156..]));
      OctalFieldIff(header[100..108], false, c.mode);
      OctalFieldIff(header[108..116], false, 0);
      OctalFieldIff(header[116..124], false, 0);
      OctalFieldIff(header[124..136], false, c.size);
      OctalFieldIff(header[136..148], false, c.mtime);
      OctalFieldIff(header[329..337], true, 0);
      OctalFieldIff(header[337..345], true, 0);
      TextAccepted(header[265..297]);
      TextAccepted(header[297..329]);
      NulsAreZeros(header[500..512]);
    }
  }

  // ----- member names and links -----

  /** A printable path component that is neither empty nor `.`. */
  ghost predicate Plain(part: string) {
    part != "" && part != "." && forall i :: 0 <= i < |part| ==> ' ' <= part[i] != '/' && part[i] != '\U{7F}'
  }

  ghost predicate AllPlain(parts: seq<string>) {
    parts != [] && forall i :: 0 <= i < |parts| ==> Plain(parts[i])
  }

  /** A path inside the root: the root itself, or plain components that never climb. */
  ghost predicate InsidePath(path: string) {
    path == "." || exists parts :: AllPlain(parts) && ".." !in parts && path == Join(parts)
  }

  /** A relative target of plain components that resolves inside the root. */
  ghost predicate InsideLink(path: string, target: string) {
    (exists parts :: AllPlain(parts) && target == Join(parts)) && !Escapes(Resolve(path, target))
  }

  lemma PlainIsClean(part: string)
    requires '/' !in part
    ensures Plain(part) <==> CleanComponent(part)
  {
  }

  lemma PlainParts(s: string)
    ensures (exists parts :: AllPlain(parts) && s == Join(parts)) <==> CleanComponents(Split(s))
    ensures InsidePath(s) <==> s == "." || (CleanComponents(Split(s)) && ".." !in Split(s))
  {
    hide Plain, CleanComponent;
    SplitIsSlashFree(s);
    JoinSplit(s);
    forall i | 0 <= i < |Split(s)| ensures Plain(Split(s)[i]) <==> CleanComponent(Split(s)[i]) {
      PlainIsClean(Split(s)[i]);
    }
    forall parts | AllPlain(parts) && s == Join(parts) ensures Split(s) == parts {
      PlainPartsAreSplit(parts);
    }
    assert CleanComponents(Split(s)) ==> AllPlain(Split(s));
  }

  lemma PlainPartsAreSplit(parts: seq<string>)
    requires AllPlain(parts)
    ensures Split(Join(parts)) == parts
  {
    SplitJoin(parts);
  }

  /** Components of a clean path leave no slash at either end. */
  lemma CleanEnds(s: string)
    requires CleanComponents(Split(s))
    ensures s != "" && s[0] != '/' && s[|s| - 1] != '/'
  {
    hide Split, Join, CleanComponents, SlashFree;
    JoinSplit(s);
    SplitIsSlashFree(s);
    JoinEnds(Split(s));
  }

  lemma {:induction false} JoinEnds(parts: seq<string>)
    requires parts != [] && SlashFree(parts) && CleanComponents(parts)
    ensures var s := Join(parts); s != "" && s[0] != '/' && s[|s| - 1] != '/'
  {
    if |parts| > 1 {
      JoinEnds(parts[1..]);
    }
  }

  /** The path test and the containment test in both directions. */
  lemma PathIff(path: seq<byte>)
    ensures PathIsCanonical(path) <==> InsidePath(path)
  {
    hide Split, Join, InsidePath;
    PlainParts(path);
    if CleanComponents(Split(path)) {
      CleanEnds(path);
    }
  }

  lemma LinkIff(path: string, target: string)
    requires InsidePath(path)
    ensures Contained(path, target) <==> InsideLink(path, target)
  {
    hide Contained, Resolve;
    PlainParts(path);
    SplitIsSlashFree(path);
    ContainedIffInside(path, target);
    PlainParts(target);
    if CleanComponents(Split(target)) {
      CleanEnds(target);
    }
  }

  // ----- members -----

  /** The name at 0 behind the prefix at 345; a directory may carry one trailing slash. */
  ghost predicate SpellsPath(name: seq<byte>, prefix: seq<byte>, directory: bool, path: seq<byte>)
    requires name != []
  {
    var full := if prefix == [] then name else prefix + "/" + name;
    if directory && full[|full| - 1] == '/' then full == path + "/" else full == path
  }

  ghost predicate NamesMember(header: seq<byte>, path: seq<byte>)
    requires |header| == 512
  {
    && InsidePath(path)
    && exists name, prefix ::
         name != [] && Spells(header[0..100], name) && Spells(header[345..500], prefix) &&
         SpellsPath(name, prefix, header[156] == '5', path)
  }

  /** The path as the filter assembles it. */
  lemma AssembledPath(name: seq<byte>, prefix: seq<byte>, directory: bool, path: seq<byte>)
    requires name != []
    ensures var full := (if prefix != [] then prefix + ['/'] else []) + name;
      full != [] &&
      (SpellsPath(name, prefix, directory, path) <==>
       path == if directory && full[|full| - 1] == '/' then full[..|full| - 1] else full)
  {
    var full := (if prefix != [] then prefix + ['/'] else []) + name;
    assert prefix == [] ==> full == name;
    assert full == full[..|full| - 1] + [full[|full| - 1]];
    assert (path + "/")[..|path|] == path;
  }

  lemma MemberPathIff(header: seq<byte>, path: seq<byte>)
    requires |header| == 512
    ensures MemberPath(header, header[156]) == Accepted(path) <==> NamesMember(header, path)
  {
    hide InsidePath, PathIsCanonical, TextField, Spells, SpellsPath;
    PathIff(path);
    if MemberPath(header, header[156]) == Accepted(path) {
      var name, prefix := TextField(header[0..100]).value, TextField(header[345..500]).value;
      TextFieldIff(header[0..100], name);
      TextFieldIff(header[345..500], prefix);
      AssembledPath(name, prefix, header[156] == '5', path);
    }
    if NamesMember(header, path) {
      var name, prefix :| name != [] && Spells(header[0..100], name) && Spells(header[345..500], prefix) &&
                          SpellsPath(name, prefix, header[156] == '5', path);
      TextFieldIff(header[0..100], name);
      TextFieldIff(header[345..500], prefix);
      AssembledPath(name, prefix, header[156] == '5', path);
    }
  }

  /** What each member type asks of its size, mode and link name. */
  ghost predicate FitsType(c: Common, link: seq<byte>) {
    if c.typeflag == '\0' || c.typeflag == '0' then link == ""
    else if c.typeflag == '1' then c.size == 0 && link != "." && link != ""
    else if c.typeflag == '2' then c.size == 0 && link != ""
    else c.typeflag == '5' && c.size == 0 && c.mode == 365 && link == ""  // 0o555
  }

  /** The member completes the waiting long link: it is the expected symlink, its link field holds the first
      hundred bytes of the full target, and that target stays inside. */
  ghost predicate Completes(expected: LongLink, header: seq<byte>, path: seq<byte>)
    requires |header| == 512
  {
    && header[156] == '2' && path == expected.member
    && |expected.target| >= 100 && header[157..257] == expected.target[..100]
    && InsideLink(path, expected.target)
  }

  /** An ordinary member: its path, its link name at 157, and where its links lead. */
  ghost predicate MemberReads(pending: Option<LongLink>, header: seq<byte>, c: Common, path: seq<byte>,
                              link: seq<byte>)
    requires |header| == 512
  {
    && NamesMember(header, path) && Spells(header[157..257], link)
    && FitsType(c, link)
    && (c.typeflag == '1' ==> InsidePath(link))
    && (pending.Some? ==> Completes(pending.value, header, path))
    && (pending.None? && c.typeflag == '2' ==> InsideLink(path, link))
  }

  lemma MemberIff(pending: Option<LongLink>, header: seq<byte>, c: Common)
    requires |header| == 512 && c.typeflag == header[156]
    ensures MemberHeader(pending, header, c) <==> exists path, link :: MemberReads(pending, header, c, path, link)
  {
    hide MemberPath, TextField, Contained, InsideLink, InsidePath, PathIsCanonical, NamesMember, Spells;
    if MemberHeader(pending, header, c) {
      var path, link := MemberPath(header, c.typeflag).value, TextField(header[157..257]).value;
      MemberParts(pending, header, path, link);
      assert MemberReads(pending, header, c, path, link);
    }
    if path: seq<byte>, link: seq<byte> :| MemberReads(pending, header, c, path, link) {
      MemberParts(pending, header, path, link);
    }
  }

  /** The pieces of a member header in both directions. */
  lemma MemberParts(pending: Option<LongLink>, header: seq<byte>, path: seq<byte>, link: seq<byte>)
    requires |header| == 512
    ensures MemberPath(header, header[156]) == Accepted(path) <==> NamesMember(header, path)
    ensures TextField(header[157..257]) == Accepted(link) <==> Spells(header[157..257], link)
    ensures PathIsCanonical(link) <==> InsidePath(link)
    ensures NamesMember(header, path) ==> (Contained(path, link) <==> InsideLink(path, link))
    ensures NamesMember(header, path) && pending.Some? ==>
      (Contained(path, pending.value.target) <==> InsideLink(path, pending.value.target))
  {
    hide MemberPath, TextField, Contained, InsideLink, InsidePath, PathIsCanonical, Spells;
    MemberPathIff(header, path);
    TextFieldIff(header[157..257], link);
    PathIff(link);
    if NamesMember(header, path) {
      LinkIff(path, link);
      if pending.Some? {
        LinkIff(path, pending.value.target);
      }
    }
  }

  /** Whole data blocks, as few as hold `size` bytes, NUL after those bytes. */
  ghost predicate Pads(data: seq<byte>, size: nat) {
    |data| % 512 == 0 && size <= |data| < size + 512 && Nuls(data[size..])
  }

  lemma BlocksAreLeast(n: nat, size: nat)
    ensures n == DataBlocks(size) * 512 <==> n % 512 == 0 && size <= n < size + 512
  {
  }

  lemma PadsIff(header: seq<byte>, data: seq<byte>, c: Common)
    requires |header| == 512
    ensures Framed(Member(header, data), c) <==> Pads(data, c.size)
  {
    BlocksAreLeast(|data|, c.size);
    hide DataBlocks, AllZero, Nuls;
    if |data| == DataBlocks(c.size) * 512 {
      assert c.size % 512 == 0 ==> data[c.size..] == [];
      assert c.size % 512 != 0 ==> |data| - 512 + c.size % 512 == c.size;
      NulsAreZeros(data[c.size..]);
      NulsAreZeros([]);
    }
  }

  /** A `K` block: the marker name, zero mode, mtime, link and prefix fields, and one block with the full target. */
  ghost predicate LonglinkReads(cfg: Config, link: LongLink, m: Member, c: Common)
    requires |m.header| == 512
  {
    && c.gnu && Spells(m.header[0..100], "././@LongLink")
    && c.mode == 0 && c.mtime == 0 && 1 < c.size <= cfg.maxLonglinkBytes
    && Nuls(m.header[157..257]) && Nuls(m.header[265..500])
    && c.size == |link.target| + 1 && |m.data| == 512 && |link.target| < 512
    && m.data[..|link.target|] == link.target && Nuls(m.data[|link.target|..])
  }

  lemma LonglinkIff(cfg: Config, link: LongLink, m: Member, c: Common)
    requires |m.header| == 512
    ensures LonglinkReads(cfg, link, m, c) <==>
      LonglinkHeader(cfg, m.header, c) && LonglinkPayload(link, c.size, m.data)
  {
    hide TextField, AllZero, Spells;
    TextFieldIff(m.header[0..100], "././@LongLink");
    NulsAreZeros(m.header[157..257]);
    NulsAreZeros(m.header[265..500]);
    hide Nuls;
    PayloadIff(link, c.size, m.data);
  }

  lemma PayloadIff(link: LongLink, size: nat, data: seq<byte>)
    ensures LonglinkPayload(link, size, data) <==>
      && size == |link.target| + 1 && |data| == 512 && |link.target| < 512
      && data[..|link.target|] == link.target && Nuls(data[|link.target|..])
  {
    var n := |link.target|;
    if |data| == 512 && size == n + 1 && size <= 512 {
      NulsAreZeros(data[size..]);
      assert data[n..] == [data[n]] + data[size..];
      assert data[..size] == data[..n] + [data[n]];
    }
  }

  // ----- the archive -----

  /** The member may come next: a `K` block for the next expected long link, or an ordinary member. */
  ghost predicate Allowed(cfg: Config, longlinks: nat, pending: Option<LongLink>, m: Member, c: Common)
    requires |m.header| == 512
  {
    && Pads(m.data, c.size)
    && if c.typeflag == 'K' then
         pending.None? && longlinks < |cfg.longlinks| && LonglinkReads(cfg, cfg.longlinks[longlinks], m, c)
       else exists path, link :: MemberReads(pending, m.header, c, path, link)
  }

  lemma AllowedIff(cfg: Config, longlinks: nat, pending: Option<LongLink>, m: Member, c: Common)
    requires |m.header| == 512 && c.typeflag == m.header[156]
    ensures Admits(cfg, longlinks, pending, m, c) <==> Allowed(cfg, longlinks, pending, m, c)
  {
    hide Framed, Pads, LonglinkHeader, LonglinkPayload, LonglinkReads, MemberHeader, MemberReads;
    PadsIff(m.header, m.data, c);
    assert Member(m.header, m.data) == m;
    MemberIff(pending, m.header, c);
    if longlinks < |cfg.longlinks| {
      LonglinkIff(cfg, cfg.longlinks[longlinks], m, c);
    }
    assert Admits(cfg, longlinks, pending, m, c) ==> Framed(m, c);
  }

  /** Members in order: every `K` block is followed by the member it announces, and all long links come. */
  ghost predicate InOrder(cfg: Config, longlinks: nat, pending: Option<LongLink>, ms: seq<Member>)
    decreases ms
  {
    if ms == [] then pending == None && longlinks == |cfg.longlinks|
    else exists c ::
      && HeaderReads(ms[0].header, c) && Allowed(cfg, longlinks, pending, ms[0], c)
      && if c.typeflag == 'K' then InOrder(cfg, longlinks, Some(cfg.longlinks[longlinks]), ms[1..])
         else InOrder(cfg, if pending == None then longlinks else longlinks + 1, None, ms[1..])
  }

  lemma {:induction false} LegalIffInOrder(cfg: Config, longlinks: nat, pending: Option<LongLink>, ms: seq<Member>)
    ensures Legal(cfg, longlinks, pending, ms) <==> InOrder(cfg, longlinks, pending, ms)
    decreases ms
  {
    hide CommonHeader, HeaderReads, Admits, Allowed;
    if ms != [] {
      var header := ms[0].header;
      if CommonHeader(header).Accepted? {
        HeaderIff(header, CommonHeader(header).value);
        StepIff(cfg, longlinks, pending, ms, CommonHeader(header).value);
      }
      forall c | HeaderReads(header, c) ensures CommonHeader(header) == Accepted(c) {
        HeaderIff(header, c);
      }
    }
  }

  /** The grammar and the layout agree on the first member and on everything after it. */
  lemma StepIff(cfg: Config, longlinks: nat, pending: Option<LongLink>, ms: seq<Member>, c: Common)
    requires ms != [] && HeaderReads(ms[0].header, c)
    ensures |ms[0].header| == 512
    ensures Admits(cfg, longlinks, pending, ms[0], c) <==> Allowed(cfg, longlinks, pending, ms[0], c)
    ensures Admits(cfg, longlinks, pending, ms[0], c) ==>
      (Legal(cfg, NextLonglinks(longlinks, pending, c), NextPending(cfg, longlinks, c), ms[1..]) <==>
       (if c.typeflag == 'K' then InOrder(cfg, longlinks, Some(cfg.longlinks[longlinks]), ms[1..])
        else InOrder(cfg, if pending == None then longlinks else longlinks + 1, None, ms[1..])))
    decreases ms, 0
  {
    hide Legal, InOrder;
    AllowedIff(cfg, longlinks, pending, ms[0], c);
    LegalIffInOrder(cfg, NextLonglinks(longlinks, pending, c), NextPending(cfg, longlinks, c), ms[1..]);
  }

  /** A complete archive of the configuration: at least two zero blocks end it. */
  ghost predicate WellFormed(cfg: Config, ms: seq<Member>, z: nat) {
    z >= 2 && |ms| <= cfg.maxHeaders && Directories(ms) == cfg.expectedDirectories && InOrder(cfg, 0, None, ms)
  }

  // ----- the rewritten archive -----

  /** The checksum field holds six octal digits of the sum of the block with that field blank. */
  ghost predicate SumsUp(t: seq<byte>)
    requires |t| == 512
  {
    && AllOctal(t[148..154]) && t[154..156] == "\0 "
    && OctalValue(t[148..154]) == ByteSum(t[..148]) + 256 + ByteSum(t[156..])
  }

  /** A directory header is rewritten at 100-107 to mode 0755 and at 148-155 to six digits of its own
      checksum; every other byte and every other member is kept. */
  ghost predicate Rewritten(m: Member, t: Member) {
    if IsDirectory(m) then
      && t.data == m.data && |t.header| == 512
      && t.header[100..108] == "0000755\0" && SumsUp(t.header)
      && forall i :: 0 <= i < 512 && !(100 <= i < 108) && !(148 <= i < 156) ==> t.header[i] == m.header[i]
    else t == m
  }

  lemma WrittenSum(blanked: seq<byte>, digits: seq<byte>)
    requires |blanked| == 512 && blanked[148..156] == seq(8, _ => ' ')
    requires |digits| == 6 && AllOctal(digits) && OctalValue(digits) == ByteSum(blanked)
    ensures SumsUp(Splice(blanked, 148, digits + ['\0', ' ']))
  {
    hide ByteSum, OctalValue, AllOctal;
    BlankedSum(blanked);
    var t := Splice(blanked, 148, digits + ['\0', ' ']);
    assert t[..148] == blanked[..148] && t[156..] == blanked[156..];
    assert t[148..154] == digits && t[154..156] == ['\0', ' '];
  }

  /** What the rewrite leaves in the checksum field. */
  lemma RewriteWritesSum(header: seq<byte>)
    requires |header| == 512
    ensures DirectoryHeader(header).Accepted? && |DirectoryHeader(header).value| == 512
    ensures SumsUp(DirectoryHeader(header).value)
  {
    DirectoryHeaderTotal(header);
    var blanked := Splice(Splice(header, 100, DIRECTORY_MODE), 148, seq(8, _ => ' '));
    ByteSumBound(blanked);
    Octal6Meaning(ByteSum(blanked));
    hide ByteSum, OctalValue, Octal6, ChecksumValid, AllOctal, SumsUp, Splice;
    WrittenSum(blanked, Octal6(ByteSum(blanked)));
  }

  lemma LastDigit(ds: seq<byte>)
    requires ds != [] && AllOctal(ds)
    ensures AllOctal(ds[..|ds| - 1]) && IsOctalDigit(ds[|ds| - 1])
    ensures OctalValue(ds) == OctalValue(ds[..|ds| - 1]) * 8 + Digit(ds[|ds| - 1])
  {
  }

  lemma {:induction false} SameDigits(a: seq<byte>, b: seq<byte>)
    requires |a| == |b| && AllOctal(a) && AllOctal(b) && OctalValue(a) == OctalValue(b)
    ensures a == b
  {
    hide AllOctal, OctalValue;
    if a != [] {
      var n := |a| - 1;
      LastDigit(a);
      LastDigit(b);
      SameDigits(a[..n], b[..n]);
      assert a == a[..n] + [a[n]] && b == b[..n] + [b[n]];
    }
  }

  /** The layout leaves one choice of every byte. */
  lemma RewrittenHeaderIsUnique(header: seq<byte>, t: seq<byte>, u: seq<byte>)
    requires Rewritten(Member(header, []), Member(t, [])) && Rewritten(Member(header, []), Member(u, []))
    requires |header| == 512 && header[156] == '5'
    ensures t == u
  {
    hide ByteSum, OctalValue, AllOctal;
    forall i: nat | i < 148 ensures t[i] == u[i] {
      if 100 <= i < 108 {
        assert t[i] == t[100..108][i - 100] && u[i] == u[100..108][i - 100];
      }
    }
    assert t[..148] == u[..148];
    assert t[156..] == u[156..];
    SameDigits(t[148..154], u[148..154]);
    assert t == t[..148] + t[148..154] + t[154..156] + t[156..];
    assert u == u[..148] + u[148..154] + u[154..156] + u[156..];
  }

  lemma RewrittenIff(m: Member, t: Member)
    ensures Rewritten(m, t) <==> t == Rewrite(m)
  {
    if IsDirectory(m) {
      DirectoryHeaderTotal(m.header);
      RewriteWritesSum(m.header);
      hide DirectoryHeader, SumsUp;
      var u := DirectoryHeader(m.header).value;
      assert Rewritten(Member(m.header, []), Member(u, []));
      if Rewritten(m, t) {
        RewrittenHeaderIsUnique(m.header, t.header, u);
      }
    }
  }

  ghost predicate AllRewritten(ms: seq<Member>, ts: seq<Member>) {
    |ts| == |ms| && forall i :: 0 <= i < |ms| ==> Rewritten(ms[i], ts[i])
  }

  lemma {:induction false} AllRewrittenIff(ms: seq<Member>, ts: seq<Member>)
    ensures AllRewritten(ms, ts) <==> ts == RewriteAll(ms)
    decreases ms
  {
    hide Rewritten, Rewrite;
    if ms != [] && ts != [] {
      RewrittenIff(ms[0], ts[0]);
      AllRewrittenIff(ms[1..], ts[1..]);
      assert ts == [ts[0]] + ts[1..];
      AllRewrittenStep(ms, ts);
    }
  }

  lemma AllRewrittenStep(ms: seq<Member>, ts: seq<Member>)
    requires ms != [] && ts != []
    ensures AllRewritten(ms, ts) <==> Rewritten(ms[0], ts[0]) && AllRewritten(ms[1..], ts[1..])
  {
    hide Rewritten;
    if Rewritten(ms[0], ts[0]) && AllRewritten(ms[1..], ts[1..]) {
      forall i | 0 <= i < |ms| ensures Rewritten(ms[i], ts[i]) {
        assert i > 0 ==> ms[i] == ms[1..][i - 1] && ts[i] == ts[1..][i - 1];
      }
    }
    if AllRewritten(ms, ts) {
      assert forall i :: 0 <= i < |ms[1..]| ==> ms[1..][i] == ms[i + 1] && ts[1..][i] == ts[i + 1];
    }
  }

  /** The filter accepts a stream exactly when it is a well-formed archive by byte position, and what it
      feeds to the digest is that archive with its directory headers rewritten, byte for byte. */
  lemma AcceptsExactlyLayouts(cfg: Config, input: seq<byte>, output: seq<byte>)
    ensures Reproduce(cfg, input) == Accepted(output) <==>
      exists ms, ts, z ::
        WellFormed(cfg, ms, z) && AllRewritten(ms, ts) && input == Stream(ms, z) && output == Stream(ts, z)
  {
    hide Reproduce, Legal, InOrder, Stream, AllRewritten, RewriteAll;
    AcceptsExactlyArchives(cfg, input, output);
    if Reproduce(cfg, input) == Accepted(output) {
      var ms, z :| Archive(cfg, ms, z) && input == Stream(ms, z) && output == Stream(RewriteAll(ms), z);
      LegalIffInOrder(cfg, 0, None, ms);
      AllRewrittenIff(ms, RewriteAll(ms));
      assert WellFormed(cfg, ms, z) && AllRewritten(ms, RewriteAll(ms));
    }
    if ms: seq<Member>, ts: seq<Member>, z: nat :|
      WellFormed(cfg, ms, z) && AllRewritten(ms, ts) && input == Stream(ms, z) && output == Stream(ts, z)
    {
      LegalIffInOrder(cfg, 0, None, ms);
      AllRewrittenIff(ms, ts);
      assert Archive(cfg, ms, z);
    }
  }
}

/** What the staging filter accepts and what it changes, stated over archive members instead of the
    stream machine: acceptance is membership in a grammar, the output is the same archive with only
    directory headers rewritten, and the transformation is one-way. */
module FilterGrammar {
  import opened Links
  import opened Outcomes
  import opened Paths
  import opened StagingFilter
  import opened TarHeaders

  datatype Member = Member(header: seq<byte>, data: seq<byte>)

  function Bytes(ms: seq<Member>): seq<byte> {
    if ms == [] then [] else ms[0].header + ms[0].data + Bytes(ms[1..])
  }

  /** Members followed by `z` zero blocks. */
  function Stream(ms: seq<Member>, z: nat): seq<byte> {
    Bytes(ms) + Zeros(z * BLOCK)
  }

  predicate IsDirectory(m: Member) {
    |m.header| == BLOCK && m.header[156] == '5'
  }

  function Directories(ms: seq<Member>): nat {
    if ms == [] then 0 else (if IsDirectory(ms[0]) then 1 else 0) + Directories(ms[1..])
  }

  /** As many data blocks as the size field asks for, the last one zero-padded. */
  predicate Framed(m: Member, c: Common) {
    && |m.header| == BLOCK
    && |m.data| == DataBlocks(c.size) * BLOCK
    && PaddingZero(c.size, m.data)
  }

  /** A member whose header parses to `c` is allowed as the next one: a `K` block names the next expected
      pair; any other member passes its type's checks and completes a waiting long link. */
  predicate Admits(cfg: Config, longlinks: nat, pending: Option<LongLink>, m: Member, c: Common) {
    && Framed(m, c)
    && if c.typeflag == 'K' then
         && pending.None? && longlinks < |cfg.longlinks|
         && LonglinkHeader(cfg, m.header, c) && LonglinkPayload(cfg.longlinks[longlinks], c.size, m.data)
       else MemberHeader(pending, m.header, c)
  }

  function NextPending(cfg: Config, longlinks: nat, c: Common): Option<LongLink> {
    if c.typeflag == 'K' && longlinks < |cfg.longlinks| then Some(cfg.longlinks[longlinks]) else None
  }

  function NextLonglinks(longlinks: nat, pending: Option<LongLink>, c: Common): nat {
    if c.typeflag != 'K' && pending.Some? then longlinks + 1 else longlinks
  }

  /** The archive grammar from the `longlinks`-th pair on, with a long link possibly waiting for its member. */
  predicate Legal(cfg: Config, longlinks: nat, pending: Option<LongLink>, ms: seq<Member>)
    decreases ms
  {
    if ms == [] then pending.None? && longlinks == |cfg.longlinks|
    else
      && CommonHeader(ms[0].header).Accepted?
      && var c := CommonHeader(ms[0].header).value;
         && Admits(cfg, longlinks, pending, ms[0], c)
         && Legal(cfg, NextLonglinks(longlinks, pending, c), NextPending(cfg, longlinks, c), ms[1..])
  }

  /** The archives of the grammar. */
  predicate Archive(cfg: Config, ms: seq<Member>, z: nat) {
    && z >= 2
    && |ms| <= cfg.maxHeaders
    && Directories(ms) == cfg.expectedDirectories
    && Legal(cfg, 0, None, ms)
  }

  /** A directory gets mode 0755 and a fresh checksum; everything else is kept. */
  function Rewrite(m: Member): Member {
    if IsDirectory(m) then
      DirectoryHeaderTotal(m.header);
      m.(header := DirectoryHeader(m.header).value)
    else m
  }

  function RewriteAll(ms: seq<Member>): seq<Member> {
    if ms == [] then [] else [Rewrite(ms[0])] + RewriteAll(ms[1..])
  }

  // ----- acceptance is the grammar -----

  lemma ParsedHeaderIsNotZero(header: seq<byte>)
    requires CommonHeader(header).Accepted?
    ensures |header| == BLOCK && header != Zeros(BLOCK)
    ensures CommonHeader(header).value.typeflag == header[156]
  {
    assert Zeros(BLOCK)[148..156] == Zeros(8);
  }

  lemma {:induction false} ZeroTailSound(cfg: Config, st: State, input: seq<byte>) returns (z: nat)
    requires st.zeros > 0 && Filter(cfg, st, input).Accepted?
    ensures input == Zeros(z * BLOCK)
    ensures Filter(cfg, st, input).value.output == input
    ensures var end := Filter(cfg, st, input).value.state;
      end == st.(zeros := st.zeros + z, trailer := end.trailer)
    decreases |input|
  {
    if input == [] {
      z := 0;
    } else {
      var turn := TakeTurn(cfg, st, input).value;
      var n := ZeroTailSound(cfg, turn.state, input[BLOCK..]);
      z := n + 1;
      assert input == input[..BLOCK] + input[BLOCK..];
      assert Zeros(BLOCK) + Zeros(n * BLOCK) == Zeros(z * BLOCK);
    }
  }

  lemma {:induction false} ZeroTailComplete(cfg: Config, st: State, z: nat)
    requires st.pending.None?
    ensures Filter(cfg, st, Zeros(z * BLOCK))
         == Accepted(Reproduction(Zeros(z * BLOCK), st.(zeros := st.zeros + z,
              trailer := st.trailer || (z > 0 && st.zeros + z >= 2))))
    decreases z
  {
    if z > 0 {
      var input := Zeros(z * BLOCK);
      assert input[..BLOCK] == Zeros(BLOCK) && input[BLOCK..] == Zeros((z - 1) * BLOCK);
      var next := st.(zeros := st.zeros + 1, trailer := st.trailer || st.zeros + 1 >= 2);
      assert TakeTurn(cfg, st, input) == Accepted(Turn(BLOCK, Zeros(BLOCK), next));
      ZeroTailComplete(cfg, next, z - 1);
      assert Zeros(BLOCK) + Zeros((z - 1) * BLOCK) == input;
    }
  }

  /** The member one accepted turn reads, given its parsed header. */
  lemma TurnReadsMember(cfg: Config, st: State, c: Common, input: seq<byte>) returns (m: Member)
    requires |input| >= BLOCK && c.typeflag == input[156]
    requires st.zeros == 0 && !st.trailer
    requires ReadMember(cfg, st, c, input).Accepted?
    ensures var turn := ReadMember(cfg, st, c, input).value;
      && m.header == input[..BLOCK] && Admits(cfg, st.longlinks, st.pending, m, c)
      && turn.consumed == |m.header| + |m.data| && input[..turn.consumed] == m.header + m.data
      && turn.emitted == Rewrite(m).header + Rewrite(m).data
      && turn.state == State(st.headers + 1, st.directories + (if IsDirectory(m) then 1 else 0),
                             NextLonglinks(st.longlinks, st.pending, c), 0, false, NextPending(cfg, st.longlinks, c))
  {
    hide DirectoryHeader, LonglinkHeader, LonglinkPayload, MemberHeader, CommonHeader, PaddingZero;
    var turn := ReadMember(cfg, st, c, input).value;
    m := Member(input[..BLOCK], input[BLOCK..turn.consumed]);
    assert m.header + m.data == input[..turn.consumed];
    if c.typeflag == 'K' {
      LonglinkIsFramed(cfg.longlinks[st.longlinks], c.size, m.data);
    }
  }

  /** A long-link payload is one block, zero-padded. */
  lemma LonglinkIsFramed(link: LongLink, size: nat, payload: seq<byte>)
    requires LonglinkPayload(link, size, payload)
    ensures |payload| == BLOCK == DataBlocks(size) * BLOCK && PaddingZero(size, payload)
  {
  }

  /** Everything accepted is an archive, and the output is that archive rewritten. */
  lemma {:induction false} FilterSound(cfg: Config, st: State, input: seq<byte>) returns (ms: seq<Member>, z: nat)
    requires st.zeros == 0 && !st.trailer && st.headers <= cfg.maxHeaders
    requires Filter(cfg, st, input).Accepted? && Complete(cfg, Filter(cfg, st, input).value.state)
    ensures z >= 2 && input == Stream(ms, z)
    ensures Filter(cfg, st, input).value.output == Stream(RewriteAll(ms), z)
    ensures Legal(cfg, st.longlinks, st.pending, ms)
    ensures st.headers + |ms| <= cfg.maxHeaders
    ensures st.directories + Directories(ms) == cfg.expectedDirectories
    decreases |input|
  {
    hide CommonHeader, Admits, Framed;
    var run := Filter(cfg, st, input).value;
    var turn := TakeTurn(cfg, st, input).value;
    var rest := input[turn.consumed..];
    assert input == input[..turn.consumed] + rest;
    if input[..BLOCK] == Zeros(BLOCK) {
      var n := ZeroTailSound(cfg, turn.state, rest);
      ms, z := [], n + 1;
      assert Zeros(BLOCK) + Zeros(n * BLOCK) == Zeros(z * BLOCK);
      assert [] + Zeros(z * BLOCK) == Zeros(z * BLOCK);
    } else {
      ParsedHeaderIsNotZero(input[..BLOCK]);
      var m := TurnReadsMember(cfg, st, CommonHeader(input[..BLOCK]).value, input);
      var tail;
      tail, z := FilterSound(cfg, turn.state, rest);
      ms := [m] + tail;
      StreamCons(m, tail, z);
    }
  }

  lemma StreamCons(m: Member, tail: seq<Member>, z: nat)
    ensures Stream([m] + tail, z) == m.header + m.data + Stream(tail, z)
    ensures RewriteAll([m] + tail) == [Rewrite(m)] + RewriteAll(tail)
    ensures Stream(RewriteAll([m] + tail), z) == Rewrite(m).header + Rewrite(m).data + Stream(RewriteAll(tail), z)
    ensures Directories([m] + tail) == (if IsDirectory(m) then 1 else 0) + Directories(tail)
  {
    var ms := [m] + tail;
    assert ms[1..] == tail && ms[0] == m;
    assert m.header + m.data + Bytes(tail) + Zeros(z * BLOCK) == m.header + m.data + (Bytes(tail) + Zeros(z * BLOCK));
    var m', tail' := Rewrite(m), RewriteAll(tail);
    assert ([m'] + tail')[1..] == tail' && ([m'] + tail')[0] == m';
    var trailer := Zeros(z * BLOCK);
    assert m'.header + m'.data + Bytes(tail') + trailer == m'.header + m'.data + (Bytes(tail') + trailer);
  }

  /** The turn that reads an admitted member. */
  lemma MemberIsRead(cfg: Config, st: State, m: Member, c: Common, more: seq<byte>)
    requires st.zeros == 0 && !st.trailer
    requires |m.header| == BLOCK && c.typeflag == m.header[156]
    requires Admits(cfg, st.longlinks, st.pending, m, c)
    ensures ReadMember(cfg, st, c, m.header + m.data + more) == Accepted(Turn(
      |m.header| + |m.data|, Rewrite(m).header + Rewrite(m).data,
      State(st.headers + 1, st.directories + (if IsDirectory(m) then 1 else 0),
            NextLonglinks(st.longlinks, st.pending, c), 0, false, NextPending(cfg, st.longlinks, c))))
  {
    hide DirectoryHeader, LonglinkHeader, LonglinkPayload, MemberHeader, CommonHeader, PaddingZero;
    var input := m.header + m.data + more;
    assert input[..BLOCK] == m.header;
    assert input[BLOCK..BLOCK + |m.data|] == m.data;
    if IsDirectory(m) {
      DirectoryHeaderTotal(m.header);
    }
    if c.typeflag == 'K' {
      LonglinkIsFramed(cfg.longlinks[st.longlinks], c.size, m.data);
      assert input[..2 * BLOCK] == m.header + m.data;
    }
  }

  /** Every archive is accepted. */
  lemma {:induction false} FilterComplete(cfg: Config, st: State, ms: seq<Member>, z: nat)
    requires st.zeros == 0 && !st.trailer && st.headers + |ms| <= cfg.maxHeaders && z >= 2
    requires Legal(cfg, st.longlinks, st.pending, ms)
    ensures Filter(cfg, st, Stream(ms, z)).Accepted?
    ensures var run := Filter(cfg, st, Stream(ms, z)).value;
      && run.output == Stream(RewriteAll(ms), z)
      && run.state.pending.None? && run.state.zeros == z && run.state.longlinks == |cfg.longlinks|
      && run.state.directories == st.directories + Directories(ms)
    decreases ms
  {
    hide CommonHeader, Admits, ReadMember;
    var input := Stream(ms, z);
    if ms == [] {
      ZeroTailComplete(cfg, st, z);
      assert input == Zeros(z * BLOCK);
    } else {
      var m, tail := ms[0], ms[1..];
      var c := CommonHeader(m.header).value;
      assert ms == [m] + tail;
      StreamCons(m, tail, z);
      ParsedHeaderIsNotZero(m.header);
      MemberIsRead(cfg, st, m, c, Stream(tail, z));
      assert (m.header + m.data)[..BLOCK] == m.header;
      var turn := ReadMember(cfg, st, c, input).value;
      FilterReads(cfg, st, c, m.header + m.data, Stream(tail, z), turn);
      FilterComplete(cfg, turn.state, tail, z);
    }
  }

  lemma FilterReads(cfg: Config, st: State, c: Common, first: seq<byte>, rest: seq<byte>, turn: Turn)
    requires |first| >= BLOCK && CommonHeader(first[..BLOCK]) == Accepted(c)
    requires st.zeros == 0 && !st.trailer && st.headers < cfg.maxHeaders
    requires ReadMember(cfg, st, c, first + rest) == Accepted(turn) && turn.consumed == |first|
    ensures Filter(cfg, st, first + rest) == Precede(turn.emitted, Filter(cfg, turn.state, rest))
  {
    hide CommonHeader, ReadMember;
    var input := first + rest;
    assert input[..BLOCK] == first[..BLOCK] && input[|first|..] == rest;
    ParsedHeaderIsNotZero(first[..BLOCK]);
  }

  /** The filter accepts exactly the archives of the grammar, and its output is the archive with its
      directory headers rewritten: same members, same data, same trailer. */
  lemma AcceptsExactlyArchives(cfg: Config, input: seq<byte>, output: seq<byte>)
    ensures Reproduce(cfg, input) == Accepted(output) <==>
      exists ms, z :: Archive(cfg, ms, z) && input == Stream(ms, z) && output == Stream(RewriteAll(ms), z)
  {
    hide Filter, Legal, Stream, RewriteAll;
    if Reproduce(cfg, input) == Accepted(output) {
      var ms, z := FilterSound(cfg, START, input);
      assert Archive(cfg, ms, z);
    }
    if ms: seq<Member>, z: nat :| Archive(cfg, ms, z) && input == Stream(ms, z) && output == Stream(RewriteAll(ms), z) {
      FilterComplete(cfg, START, ms, z);
    }
  }

  // ----- what changes -----

  /** Position `k` of the archive lies in the mode or checksum field of a directory header. */
  predicate Touched(ms: seq<Member>, k: nat)
    decreases ms
  {
    ms != [] &&
    var n := |ms[0].header| + |ms[0].data|;
    if k < n then IsDirectory(ms[0]) && (100 <= k < 108 || 148 <= k < 156) else Touched(ms[1..], k - n)
  }

  lemma RewriteFrame(m: Member)
    ensures |Rewrite(m).header| == |m.header| && Rewrite(m).data == m.data
    ensures forall k :: 0 <= k < |m.header| && !(IsDirectory(m) && (100 <= k < 108 || 148 <= k < 156)) ==>
      Rewrite(m).header[k] == m.header[k]
  {
    if IsDirectory(m) {
      DirectoryHeaderTotal(m.header);
    }
  }

  /** Output and input agree in length and everywhere outside the touched positions, whatever the data holds. */
  lemma {:induction false} OnlyDirectoryFieldsChange(ms: seq<Member>, z: nat, k: nat)
    ensures |Stream(RewriteAll(ms), z)| == |Stream(ms, z)|
    ensures k < |Stream(ms, z)| && !Touched(ms, k) ==> Stream(RewriteAll(ms), z)[k] == Stream(ms, z)[k]
    decreases ms
  {
    if ms != [] {
      var m, tail := ms[0], ms[1..];
      assert ms == [m] + tail;
      StreamCons(m, tail, z);
      RewriteFrame(m);
      var n := |m.header| + |m.data|;
      OnlyDirectoryFieldsChange(tail, z, if k < n then 0 else k - n);
    }
  }

  /** The frame theorem for whole streams. */
  lemma FilterFrame(cfg: Config, input: seq<byte>, output: seq<byte>) returns (ms: seq<Member>, z: nat)
    requires Reproduce(cfg, input) == Accepted(output)
    ensures Archive(cfg, ms, z) && input == Stream(ms, z) && output == Stream(RewriteAll(ms), z)
    ensures |output| == |input|
    ensures forall k :: 0 <= k < |input| && !Touched(ms, k) ==> output[k] == input[k]
  {
    ms, z := FilterSound(cfg, START, input);
    OnlyDirectoryFieldsChange(ms, z, 0);
    forall k | 0 <= k < |input| && !Touched(ms, k) ensures output[k] == input[k] {
      OnlyDirectoryFieldsChange(ms, z, k);
    }
  }

  // ----- the transformation is one-way -----

  /** A rewritten directory header parses to the same header, except that its mode is 0755. */
  lemma RewrittenHeaderParses(header: seq<byte>)
    requires CommonHeader(header).Accepted?
    ensures DirectoryHeader(header).Accepted?
    ensures CommonHeader(DirectoryHeader(header).value) == Accepted(CommonHeader(header).value.(mode := 493))  // 0o755
  {
    DirectoryHeaderTotal(header);
    SliceOfRewritten(header, DirectoryHeader(header).value);
    DirectoryModeParses(DIRECTORY_MODE);
    ParseWithMode(Slice(header), DIRECTORY_MODE, 493);
  }

  lemma SliceOfRewritten(header: seq<byte>, t: seq<byte>)
    requires |header| == |t| == BLOCK && t[100..108] == DIRECTORY_MODE
    requires forall i :: 0 <= i < BLOCK && !(100 <= i < 108) && !(148 <= i < 156) ==> t[i] == header[i]
    ensures Slice(t) == Slice(header).(mode := DIRECTORY_MODE)
  {
    assert t[257..263] == header[257..263] && t[263..265] == header[263..265];
    assert t[108..116] == header[108..116] && t[116..124] == header[116..124];
    assert t[124..136] == header[124..136] && t[136..148] == header[136..148];
    assert t[329..337] == header[329..337] && t[337..345] == header[337..345];
    assert t[265..297] == header[265..297] && t[297..329] == header[297..329];
    assert t[500..512] == header[500..512];
  }

  lemma ParseWithMode(raw: RawHeader, mode: seq<byte>, value: nat)
    requires ParseRaw(raw).Accepted? && OctalField(mode, false) == Accepted(value) && value <= 4095
    ensures ParseRaw(raw.(mode := mode)) == Accepted(ParseRaw(raw).value.(mode := value))
  {
  }

  lemma DirectoryModeParses(field: seq<byte>)
    requires field == DIRECTORY_MODE
    ensures OctalField(field, false) == Accepted(493)
  {
    hide OctalField, OctalValue, AllOctal;
    var digits := field[0..7];
    assert digits == ['0', '0', '0', '0', '7', '5', '5'] && field[7..] == ['\0'];
    DirectoryModeValue(digits);
    OctalLayoutDecides(field, false, 0, 7);
  }

  lemma DirectoryModeValue(digits: seq<byte>)
    requires digits == ['0', '0', '0', '0', '7', '5', '5']
    ensures AllOctal(digits) && OctalValue(digits) == 493
  {
    hide OctalValue, AllOctal;
    NoDigits();
    OctalStep(digits[..0], '0');
    OctalStep(digits[..1], '0');
    OctalStep(digits[..2], '0');
    OctalStep(digits[..3], '0');
    OctalStep(digits[..4], '7');
    OctalStep(digits[..5], '5');
    OctalStep(digits[..6], '5');
    assert digits[..0] == [] && digits[..6] + ['5'] == digits;
    assert digits[..1] == digits[..0] + ['0'] && digits[..2] == digits[..1] + ['0'];
    assert digits[..3] == digits[..2] + ['0'] && digits[..4] == digits[..3] + ['0'];
    assert digits[..5] == digits[..4] + ['7'] && digits[..6] == digits[..5] + ['5'];
  }

  lemma NoDigits()
    ensures AllOctal([]) && OctalValue([]) == 0
  {
  }

  lemma OctalStep(ds: seq<byte>, d: byte)
    requires AllOctal(ds) && IsOctalDigit(d)
    ensures AllOctal(ds + [d]) && OctalValue(ds + [d]) == OctalValue(ds) * 8 + Digit(d)
  {
    assert (ds + [d])[..|ds|] == ds;
  }

  /** The first member of a stream, as the grammar reads it. */
  lemma StreamStarts(cfg: Config, l: nat, p: Option<LongLink>, ms: seq<Member>, z: nat, header: seq<byte>,
                     rest: seq<byte>)
    requires Legal(cfg, l, p, ms) && Stream(ms, z) == header + rest
    requires CommonHeader(header).Accepted?
    ensures ms != [] && ms[0].header == header
    ensures var c := CommonHeader(header).value;
      && Admits(cfg, l, p, ms[0], c)
      && Legal(cfg, NextLonglinks(l, p, c), NextPending(cfg, l, c), ms[1..])
      && rest == ms[0].data + Stream(ms[1..], z)
  {
    hide CommonHeader, Admits;
    ParsedHeaderIsNotZero(header);
    NonZeroStart(ms, z, header, rest);
    ParsedHeaderIsNotZero(ms[0].header);
    assert ms == [ms[0]] + ms[1..];
    StreamCons(ms[0], ms[1..], z);
    SamePieces(header, rest, ms[0].header, ms[0].data + Stream(ms[1..], z), ms[0].data, Stream(ms[1..], z));
  }

  lemma NonZeroStart(ms: seq<Member>, z: nat, header: seq<byte>, rest: seq<byte>)
    requires Stream(ms, z) == header + rest && |header| == BLOCK && header != Zeros(BLOCK)
    ensures ms != []
  {
    var zeros := Zeros(z * BLOCK);
    assert ms == [] ==> Stream(ms, z) == zeros;
    assert (header + rest)[..BLOCK] == header;
    if z > 0 {
      assert zeros[..BLOCK] == Zeros(BLOCK);
    }
  }

  lemma SamePieces(a: seq<byte>, b: seq<byte>, c: seq<byte>, d: seq<byte>, d1: seq<byte>, d2: seq<byte>)
    requires |a| == |c| && a + b == c + d1 + d2 && d == d1 + d2
    ensures a == c && b == d
  {
    assert c + d1 + d2 == c + d;
    assert (a + b)[..|a|] == a && (c + d)[..|a|] == c;
    assert (a + b)[|a|..] == b && (c + d)[|a|..] == d;
  }

  lemma DirectoryModeRefused(cfg: Config, l: nat, p: Option<LongLink>, m: Member, c: Common)
    requires c.typeflag == '5' && c.mode != 365
    ensures !Admits(cfg, l, p, m, c)
  {
  }

  lemma AdmittedLength(cfg: Config, l: nat, p: Option<LongLink>, m: Member, c: Common)
    requires Admits(cfg, l, p, m, c)
    ensures |m.data| == DataBlocks(c.size) * BLOCK
  {
  }

  /** Two parses run in lockstep up to the first rewritten directory, whose mode the grammar refuses. */
  lemma {:induction false} RewrittenIsIllegal(cfg: Config, l: nat, p: Option<LongLink>, ms: seq<Member>, z: nat,
                                              l': nat, p': Option<LongLink>, ms': seq<Member>, z': nat)
    requires Legal(cfg, l, p, ms) && Directories(ms) > 0
    requires Stream(RewriteAll(ms), z) == Stream(ms', z')
    ensures !Legal(cfg, l', p', ms')
    decreases ms
  {
    hide CommonHeader, DirectoryHeader, Admits;
    var m, tail := ms[0], ms[1..];
    var c := CommonHeader(m.header).value;
    assert ms == [m] + tail;
    StreamCons(m, tail, z);
    RewriteFrame(m);
    ParsedHeaderIsNotZero(m.header);
    var after := Stream(RewriteAll(tail), z);
    assert Rewrite(m).header + m.data + after == Rewrite(m).header + (m.data + after);
    if Legal(cfg, l', p', ms') {
      if IsDirectory(m) {
        RewrittenHeaderParses(m.header);
        StreamStarts(cfg, l', p', ms', z', Rewrite(m).header, m.data + after);
        DirectoryModeRefused(cfg, l', p', ms'[0], c.(mode := 493));
      } else {
        StreamStarts(cfg, l', p', ms', z', m.header, m.data + after);
        AdmittedLength(cfg, l, p, m, c);
        AdmittedLength(cfg, l', p', ms'[0], c);
        SamePieces(m.data, after, ms'[0].data, Stream(ms'[1..], z'), [], Stream(ms'[1..], z'));
        RewrittenIsIllegal(cfg, NextLonglinks(l, p, c), NextPending(cfg, l, c), tail, z,
                           NextLonglinks(l', p', c), NextPending(cfg, l', c), ms'[1..], z');
      }
    }
  }

  lemma {:induction false} NothingToRewrite(ms: seq<Member>)
    requires Directories(ms) == 0
    ensures RewriteAll(ms) == ms
  {
    if ms != [] {
      NothingToRewrite(ms[1..]);
    }
  }

  /** The output of an accepted stream is accepted again exactly when no directory was expected in it. */
  lemma FilterIsOneWay(cfg: Config, input: seq<byte>, output: seq<byte>)
    requires Reproduce(cfg, input) == Accepted(output)
    ensures Reproduce(cfg, output).Accepted? <==> cfg.expectedDirectories == 0
  {
    var ms, z := FilterSound(cfg, START, input);
    if cfg.expectedDirectories == 0 {
      NothingToRewrite(ms);
    } else if Reproduce(cfg, output).Accepted? {
      var ms', z' := FilterSound(cfg, START, output);
      RewrittenIsIllegal(cfg, 0, None, ms, z, 0, None, ms', z');
    }
  }

  /** The pinned configuration expects directories, so the tool never accepts its own output. */
  lemma AndroidOutputIsRefused(input: seq<byte>, output: seq<byte>)
    requires Reproduce(ANDROID, input) == Accepted(output)
    ensures Reproduce(ANDROID, output) == Denied
  {
    FilterIsOneWay(ANDROID, input, output);
  }

  // ----- accepted symlinks stay inside the root -----

  lemma CanonicalIsMemberName(path: seq<byte>)
    requires PathIsCanonical(path)
    ensures MemberName(path)
  {
    SplitIsSlashFree(path);
  }

  /** An admitted symlink, long or short, resolves inside the root. */
  lemma AdmittedSymlinkIsInside(cfg: Config, longlinks: nat, pending: Option<LongLink>, m: Member, c: Common)
    requires Admits(cfg, longlinks, pending, m, c) && c.typeflag == '2'
    ensures MemberPath(m.header, '2').Accepted? && TextField(m.header[157..257]).Accepted?
    ensures var target := if pending.Some? then pending.value.target else TextField(m.header[157..257]).value;
      !Escapes(Resolve(MemberPath(m.header, '2').value, target))
  {
    hide Contained, Resolve;
    var path := MemberPath(m.header, '2').value;
    CanonicalIsMemberName(path);
    ContainedIffInside(path, if pending.Some? then pending.value.target else TextField(m.header[157..257]).value);
  }
}

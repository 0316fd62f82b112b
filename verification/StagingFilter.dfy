/** The Android staging filter: a streaming transformer over 512-byte tar blocks that accepts one
    grammar and rewrites directory headers.  The stream machine is proved to accept exactly the
    archives of a declarative grammar and to change nothing but directory modes and checksums. */
module StagingFilter {
  import opened Links
  import opened Outcomes
  import opened Paths
  import opened TarHeaders

  // ----- headers -----

  predicate AllZero(s: seq<byte>) {
    s == Zeros(|s|)
  }

  function FindNul(s: seq<byte>): (n: nat)
    ensures n <= |s| && (n < |s| ==> s[n] == '\0')
  {
    if s == [] || s[0] == '\0' then 0 else 1 + FindNul(s[1..])
  }

  /** `_android_staging_filter_field`: text up to the first NUL, which only NULs may follow. */
  function TextField(field: seq<byte>): Outcome<seq<byte>> {
    var nul := FindNul(field);
    if AllZero(field[nul..]) then Accepted(field[..nul]) else Denied
  }

  datatype Common = Common(mode: nat, size: nat, mtime: nat, typeflag: byte, gnu: bool)

  /** The byte ranges of a header that every member shares. */
  datatype RawHeader = RawHeader(magic: seq<byte>, version: seq<byte>, mode: seq<byte>, uid: seq<byte>, gid: seq<byte>,
                                 size: seq<byte>, mtime: seq<byte>, typeflag: byte, uname: seq<byte>, gname: seq<byte>,
                                 devmajor: seq<byte>, devminor: seq<byte>, padding: seq<byte>)

  function Slice(header: seq<byte>): RawHeader
    requires |header| == BLOCK
  {
    RawHeader(header[257..263], header[263..265], header[100..108], header[108..116], header[116..124],
              header[124..136], header[136..148], header[156], header[265..297], header[297..329],
              header[329..337], header[337..345], header[500..512])
  }

  function ParseRaw(raw: RawHeader): Outcome<Common> {
    var gnu := raw.magic == "ustar " && raw.version == " \0";
    var posix := raw.magic == "ustar\0" && raw.version == "00";
    if !(gnu || posix) then Denied
    else
      var mode :- OctalField(raw.mode, false);
      var uid :- OctalField(raw.uid, false);
      var gid :- OctalField(raw.gid, false);
      var size :- OctalField(raw.size, false);
      var mtime :- OctalField(raw.mtime, false);
      var devmajor :- OctalField(raw.devmajor, true);
      var devminor :- OctalField(raw.devminor, true);
      var uname :- TextField(raw.uname);
      var gname :- TextField(raw.gname);
      if !AllZero(raw.padding) then Denied
      else if mode > 4095 || uid != 0 || gid != 0 || devmajor != 0 || devminor != 0 then Denied  // 0o7777
      else Accepted(Common(mode, size, mtime, raw.typeflag, gnu))
  }

  /** `_android_staging_filter_common_header`. */
  function CommonHeader(header: seq<byte>): Outcome<Common> {
    if ChecksumValid(header) then ParseRaw(Slice(header)) else Denied
  }

  /** `_android_staging_filter_path_is_canonical`. */
  predicate PathIsCanonical(path: seq<byte>) {
    && path != [] && path[0] != '/' && path[|path| - 1] != '/'
    && (path == "." || forall i :: 0 <= i < |Split(path)| ==>
          Split(path)[i] !in {"", ".", ".."} && !HasControl(Split(path)[i]))
  }

  /** `_android_staging_filter_member_path`. */
  function MemberPath(header: seq<byte>, typeflag: byte): Outcome<seq<byte>>
    requires |header| == BLOCK
  {
    var name :- TextField(header[0..100]);
    var prefix :- TextField(header[345..500]);
    if name == [] then Denied
    else
      var full := (if prefix != [] then prefix + ['/'] else []) + name;
      var path := if typeflag == '5' && full[|full| - 1] == '/' then full[..|full| - 1] else full;
      if PathIsCanonical(path) then Accepted(path) else Denied
  }

  // ----- one member -----

  /** A GNU long link the archive must carry: the member and its full target. */
  datatype LongLink = LongLink(member: string, target: string)

  /** The pinned expectations of the filter. */
  datatype Config = Config(expectedDirectories: nat, longlinks: seq<LongLink>, maxHeaders: nat, maxLonglinkBytes: nat)

  /** The values pinned for the Android image. */
  const ANDROID := Config(265, [
    LongLink("etc/ssl/certs/Autoridad_de_Certificacion_Firmaprofesional_CIF_A62634068.pem",
             "../../../usr/share/ca-certificates/mozilla/Autoridad_de_Certificacion_Firmaprofesional_CIF_A62634068.crt"),
    LongLink("etc/ssl/certs/Autoridad_de_Certificacion_Firmaprofesional_CIF_A62634068_2.pem",
             "../../../usr/share/ca-certificates/mozilla/Autoridad_de_Certificacion_Firmaprofesional_CIF_A62634068_2.crt"),
    LongLink("etc/ssl/certs/Hellenic_Academic_and_Research_Institutions_ECC_RootCA_2015.pem",
             "../../../usr/share/ca-certificates/mozilla/Hellenic_Academic_and_Research_Institutions_ECC_RootCA_2015.crt"),
    LongLink("etc/ssl/certs/Hellenic_Academic_and_Research_Institutions_RootCA_2015.pem",
             "../../../usr/share/ca-certificates/mozilla/Hellenic_Academic_and_Research_Institutions_RootCA_2015.crt")],
    10_000, 256)

  function DataBlocks(size: nat): nat {
    (size + BLOCK - 1) / BLOCK
  }

  /** The header conditions of a GNU long-link (`K`) block. */
  predicate LonglinkHeader(cfg: Config, header: seq<byte>, c: Common)
    requires |header| == BLOCK
  {
    && c.gnu
    && TextField(header[0..100]) == Accepted("././@LongLink")
    && c.mode == 0 && c.mtime == 0
    && 1 < c.size <= cfg.maxLonglinkBytes
    && AllZero(header[157..257]) && AllZero(header[265..500])
  }

  predicate LonglinkPayload(link: LongLink, size: nat, payload: seq<byte>) {
    && |payload| == BLOCK && size == |link.target| + 1 && size <= BLOCK
    && payload[..size] == link.target + ['\0'] && AllZero(payload[size..])
  }

  /** The per-type member checks and, for a pending long link, the pair checks. */
  predicate MemberHeader(pending: Option<LongLink>, header: seq<byte>, c: Common)
    requires |header| == BLOCK
  {
    var path := MemberPath(header, c.typeflag);
    var link := TextField(header[157..257]);
    && path.Accepted? && link.Accepted?
    && (if c.typeflag == '\0' || c.typeflag == '0' then link.value == []
        else if c.typeflag == '1' then
          c.size == 0 && link.value != [] && link.value != "." && PathIsCanonical(link.value)
        else if c.typeflag == '2' then c.size == 0 && link.value != []
        else c.typeflag == '5' && c.size == 0 && c.mode == 365 && link.value == [])  // 0o555
    && match pending
       case Some(expected) =>
         && c.typeflag == '2' && path.value == expected.member
         && |expected.target| >= 100 && header[157..257] == expected.target[..100]
         && Contained(path.value, expected.target)
       case None => c.typeflag == '2' ==> Contained(path.value, link.value)
  }

  predicate PaddingZero(size: nat, data: seq<byte>)
    requires |data| == DataBlocks(size) * BLOCK
  {
    size % BLOCK != 0 ==> AllZero(data[|data| - BLOCK + size % BLOCK..])
  }

  // ----- the stream machine -----

  /** The variables of `reproduce_android_staging_filter` between two header reads. */
  datatype State = State(headers: nat, directories: nat, longlinks: nat, zeros: nat, trailer: bool,
                         pending: Option<LongLink>)

  const START := State(0, 0, 0, 0, false, None)

  /** One turn of the read loop: how much was read, what went to the digest, and the new variables. */
  datatype Turn = Turn(consumed: nat, emitted: seq<byte>, state: State)

  function TakeTurn(cfg: Config, st: State, input: seq<byte>): (r: Outcome<Turn>)
    ensures r.Accepted? ==> BLOCK <= r.value.consumed <= |input|
  {
    if |input| < BLOCK then Denied
    else
      var header := input[..BLOCK];
      if header == Zeros(BLOCK) then
        if st.pending.Some? then Denied
        else Accepted(Turn(BLOCK, header, st.(zeros := st.zeros + 1, trailer := st.trailer || st.zeros + 1 >= 2)))
      else if st.trailer || st.zeros != 0 || st.headers + 1 > cfg.maxHeaders then Denied
      else
        var c :- CommonHeader(header);
        ReadMember(cfg, st, c, input)
  }

  function ReadMember(cfg: Config, st: State, c: Common, input: seq<byte>): (r: Outcome<Turn>)
    requires |input| >= BLOCK
    ensures r.Accepted? ==> BLOCK <= r.value.consumed <= |input|
  {
    if c.typeflag == 'K' then LonglinkTurn(cfg, st, c, input) else MemberTurn(st, c, input)
  }

  function LonglinkTurn(cfg: Config, st: State, c: Common, input: seq<byte>): (r: Outcome<Turn>)
    requires |input| >= BLOCK
    ensures r.Accepted? ==> BLOCK <= r.value.consumed <= |input|
  {
    var header := input[..BLOCK];
    if st.pending.Some? || st.longlinks >= |cfg.longlinks| || !LonglinkHeader(cfg, header, c) then Denied
    else
      var link := cfg.longlinks[st.longlinks];
      if |input| < 2 * BLOCK || !LonglinkPayload(link, c.size, input[BLOCK..2 * BLOCK]) then Denied
      else Accepted(Turn(2 * BLOCK, input[..2 * BLOCK], st.(headers := st.headers + 1, pending := Some(link))))
  }

  function MemberTurn(st: State, c: Common, input: seq<byte>): (r: Outcome<Turn>)
    requires |input| >= BLOCK
    ensures r.Accepted? ==> BLOCK <= r.value.consumed <= |input|
  {
    var header := input[..BLOCK];
    if !MemberHeader(st.pending, header, c) then Denied
    else
      var directory := c.typeflag == '5';
      var output :- if directory then DirectoryHeader(header) else Accepted(header);
      var n := BLOCK + DataBlocks(c.size) * BLOCK;
      if |input| < n || !PaddingZero(c.size, input[BLOCK..n]) then Denied
      else Accepted(Turn(n, output + input[BLOCK..n],
        State(st.headers + 1, st.directories + (if directory then 1 else 0),
              st.longlinks + (if st.pending.Some? then 1 else 0), 0, false, None)))
  }

  datatype Reproduction = Reproduction(output: seq<byte>, state: State)

  function Filter(cfg: Config, st: State, input: seq<byte>): Outcome<Reproduction>
    decreases |input|
  {
    if input == [] then Accepted(Reproduction([], st))
    else
      var turn :- TakeTurn(cfg, st, input);
      var rest :- Filter(cfg, turn.state, input[turn.consumed..]);
      Accepted(Reproduction(turn.emitted + rest.output, rest.state))
  }

  predicate Complete(cfg: Config, st: State) {
    st.pending.None? && st.zeros >= 2 && st.directories == cfg.expectedDirectories && st.longlinks == |cfg.longlinks|
  }

  /** The bytes fed to the digest for an accepted stream. */
  function Reproduce(cfg: Config, input: seq<byte>): Outcome<seq<byte>> {
    var run :- Filter(cfg, START, input);
    if Complete(cfg, run.state) then Accepted(run.output) else Denied
  }

  /** The returned receipt: byte count and digest of the transformed stream. */
  datatype Receipt = Receipt(bytes: nat, sha256: string)

  /** Reading a member's data block by block, as the filter's inner loop does. */
  method CopyData(input: seq<byte>, start: nat, size: nat) returns (r: Outcome<seq<byte>>)
    requires start <= |input|
    ensures var n := DataBlocks(size) * BLOCK;
      r == if start + n <= |input| && PaddingZero(size, input[start..start + n])
           then Accepted(input[start..start + n]) else Denied
  {
    hide AllZero;
    var blocks, last := DataBlocks(size), size % BLOCK;
    var data: seq<byte> := [];
    for index := 0 to blocks
      invariant start + index * BLOCK <= |input| && data == input[start..start + index * BLOCK]
      invariant index == blocks && last != 0 ==>
        AllZero(input[start + (index - 1) * BLOCK + last..start + index * BLOCK])
    {
      var at := start + index * BLOCK;
      if |input| - at < BLOCK {
        return Denied;
      }
      var block := input[at..at + BLOCK];
      if index + 1 == blocks && last != 0 && !AllZero(block[last..]) {
        var n := blocks * BLOCK;
        assert input[start..start + n][n - BLOCK + last..] == block[last..];
        return Denied;
      }
      data := data + block;
      assert block[last..] == input[at + last..at + BLOCK];
    }
    if last != 0 {
      var n := blocks * BLOCK;
      assert input[start..start + n][n - BLOCK + last..] == input[start + (blocks - 1) * BLOCK + last..start + n];
    }
    return Accepted(data);
  }

  lemma FilterUnrolls(cfg: Config, st: State, input: seq<byte>, pos: nat, output: seq<byte>, turn: Turn)
    requires pos < |input| && TakeTurn(cfg, st, input[pos..]) == Accepted(turn)
    ensures pos + turn.consumed <= |input|
    ensures Precede(output, Filter(cfg, st, input[pos..]))
         == Precede(output + turn.emitted, Filter(cfg, turn.state, input[pos + turn.consumed..]))
  {
    hide TakeTurn;
    assert input[pos..][turn.consumed..] == input[pos + turn.consumed..];
    var rest := Filter(cfg, turn.state, input[pos + turn.consumed..]);
    if rest.Accepted? {
      assert output + (turn.emitted + rest.value.output) == output + turn.emitted + rest.value.output;
    }
  }

  function Precede(output: seq<byte>, r: Outcome<Reproduction>): Outcome<Reproduction> {
    match r
    case Accepted(run) => Accepted(Reproduction(output + run.output, run.state))
    case Denied => Denied
  }

  lemma PrecedeNothing(r: Outcome<Reproduction>)
    ensures Precede([], r) == r
  {
    if r.Accepted? {
      assert [] + r.value.output == r.value.output;
    }
  }

  method ReadLonglink(cfg: Config, st: State, c: Common, rest: seq<byte>) returns (r: Outcome<Turn>)
    requires |rest| >= BLOCK && st.headers > 0
    ensures r == LonglinkTurn(cfg, st.(headers := st.headers - 1), c, rest)
  {
    hide LonglinkHeader, LonglinkPayload;
    var header := rest[..BLOCK];
    if st.pending.Some? || st.longlinks >= |cfg.longlinks| || !LonglinkHeader(cfg, header, c) {
      return Denied;
    }
    var link := cfg.longlinks[st.longlinks];
    if |rest| < 2 * BLOCK || !LonglinkPayload(link, c.size, rest[BLOCK..2 * BLOCK]) {
      return Denied;
    }
    assert header + rest[BLOCK..2 * BLOCK] == rest[..2 * BLOCK];
    return Accepted(Turn(2 * BLOCK, header + rest[BLOCK..2 * BLOCK], st.(pending := Some(link))));
  }

  method ReadPlainMember(before: State, c: Common, rest: seq<byte>) returns (r: Outcome<Turn>)
    requires |rest| >= BLOCK && before.headers > 0 && before.zeros == 0 && !before.trailer
    ensures r == MemberTurn(before.(headers := before.headers - 1), c, rest)
  {
    hide MemberHeader, DirectoryHeader, PaddingZero;
    var st, header := before, rest[..BLOCK];
    if !MemberHeader(st.pending, header, c) {
      return Denied;
    }
    if st.pending.Some? {
      st := st.(pending := None, longlinks := st.longlinks + 1);
    }
    var outputHeader := header;
    if c.typeflag == '5' {
      st := st.(directories := st.directories + 1);
      var rewritten := DirectoryHeader(header);
      if rewritten.Denied? {
        return Denied;
      }
      outputHeader := rewritten.value;
    }
    var data := CopyData(rest, BLOCK, c.size);
    if data.Denied? {
      return Denied;
    }
    return Accepted(Turn(BLOCK + |data.value|, outputHeader + data.value, st));
  }

  /** The body of the read loop: what is fed to the digest and how the variables change. */
  method ReadTurn(cfg: Config, before: State, rest: seq<byte>) returns (r: Outcome<Turn>)
    ensures r == TakeTurn(cfg, before, rest)
  {
    hide CommonHeader, LonglinkTurn, MemberTurn;
    var st := before;
    if |rest| < BLOCK {
      return Denied;
    }
    var header := rest[..BLOCK];
    if header == Zeros(BLOCK) {
      if st.pending.Some? {
        return Denied;
      }
      st := st.(zeros := st.zeros + 1);
      if st.zeros >= 2 {
        st := st.(trailer := true);
      }
      return Accepted(Turn(BLOCK, header, st));
    }
    if st.trailer || st.zeros != 0 {
      return Denied;
    }
    st := st.(headers := st.headers + 1);
    if st.headers > cfg.maxHeaders {
      return Denied;
    }
    var parsed := CommonHeader(header);
    if parsed.Denied? {
      return Denied;
    }
    var c := parsed.value;
    if c.typeflag == 'K' {
      r := ReadLonglink(cfg, st, c, rest);
    } else {
      r := ReadPlainMember(st, c, rest);
    }
  }

  /** `reproduce_android_staging_filter`; `digest` stands for SHA-256 in hexadecimal. */
  method ReproduceFilter(cfg: Config, input: seq<byte>, digest: seq<byte> -> string) returns (r: Outcome<Receipt>)
    ensures r == match Reproduce(cfg, input)
                 case Accepted(output) => Accepted(Receipt(|output|, digest(output)))
                 case Denied => Denied
  {
    hide TakeTurn;
    var st, pos, output := START, 0, [];
    assert input[0..] == input;
    while pos < |input|
      invariant pos <= |input|
      invariant Precede([], Filter(cfg, START, input)) == Precede(output, Filter(cfg, st, input[pos..]))
      decreases |input| - pos
    {
      var turn := ReadTurn(cfg, st, input[pos..]);
      if turn.Denied? {
        return Denied;
      }
      FilterUnrolls(cfg, st, input, pos, output, turn.value);
      output, pos, st := output + turn.value.emitted, pos + turn.value.consumed, turn.value.state;
    }
    assert input[pos..] == [] && output + [] == output;
    PrecedeNothing(Filter(cfg, START, input));
    if !Complete(cfg, st) {
      return Denied;
    }
    return Accepted(Receipt(|output|, digest(output)));
  }
}

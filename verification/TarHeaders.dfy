/** Octal fields and checksums of ustar headers, as the staging filter reads and rewrites them. */
module TarHeaders {
  import opened Outcomes

  type byte = c: char | c as int < 256

  const BLOCK := 512
  const LIMIT := 0x1_0000_0000_0000_0000

  predicate IsOctalDigit(b: char) {
    '0' <= b <= '7'
  }

  predicate IsEnd(b: char) {
    b == '\0' || b == ' '
  }

  function Digit(b: char): nat
    requires IsOctalDigit(b)
  {
    b as int - '0' as int
  }

  function Zeros(n: nat): seq<byte> {
    seq(n, _ => '\0')
  }

  // ----- the octal field parser -----

  /** The digit loop: `value`, `have_digit` and `terminated` are its variables. */
  function ScanOctal(s: seq<byte>, value: nat, haveDigit: bool, terminated: bool): Outcome<nat>
    decreases s
  {
    if s == [] then if haveDigit then Accepted(value) else Denied
    else if IsOctalDigit(s[0]) then
      if terminated || value > (LIMIT - 1 - 7) / 8 then Denied
      else ScanOctal(s[1..], value * 8 + Digit(s[0]), true, false)
    else if IsEnd(s[0]) then ScanOctal(s[1..], value, haveDigit, true)
    else Denied
  }

  function LeadingSpaces(s: seq<byte>): (n: nat)
    ensures n <= |s| && (forall i :: 0 <= i < n ==> s[i] == ' ') && (n < |s| ==> s[n] != ' ')
  {
    if s == [] || s[0] != ' ' then 0 else 1 + LeadingSpaces(s[1..])
  }

  function OctalField(field: seq<byte>, allowBlank: bool): Outcome<nat> {
    if field == [] then Denied
    else if field == Zeros(|field|) then if allowBlank then Accepted(0) else Denied
    else ScanOctal(field[LeadingSpaces(field)..], 0, false, false)
  }

  /** `_android_staging_filter_octal`, loop by loop. */
  method ParseOctal(field: seq<byte>, allowBlank: bool) returns (r: Outcome<nat>)
    ensures r == OctalField(field, allowBlank)
  {
    if field == [] {
      return Denied;
    }
    if field == Zeros(|field|) {
      return if allowBlank then Accepted(0) else Denied;
    }
    var index := 0;
    while index < |field| && field[index] == ' '
      invariant 0 <= index <= LeadingSpaces(field)
    {
      index := index + 1;
    }
    var value: nat, haveDigit, terminated := 0, false, false;
    for i := index to |field|
      invariant OctalField(field, allowBlank) == ScanOctal(field[i..], value, haveDigit, terminated)
    {
      assert field[i..][1..] == field[i + 1..];
      if IsOctalDigit(field[i]) {
        if terminated || value > (LIMIT - 1 - 7) / 8 {
          return Denied;
        }
        value := value * 8 + Digit(field[i]);
        haveDigit := true;
      } else if IsEnd(field[i]) {
        terminated := true;
      } else {
        return Denied;
      }
    }
    return if haveDigit then Accepted(value) else Denied;
  }

  // ----- what an octal field means -----

  predicate AllOctal(s: seq<byte>) {
    forall b :: b in s ==> IsOctalDigit(b)
  }

  predicate AllEnds(s: seq<byte>) {
    forall b :: b in s ==> IsEnd(b)
  }

  /** Positional value, most significant digit first. */
  function OctalValue(ds: seq<byte>): nat
    requires AllOctal(ds)
  {
    if ds == [] then 0 else OctalValue(ds[..|ds| - 1]) * 8 + Digit(ds[|ds| - 1])
  }

  /** The grammar: spaces, at least one octal digit, then NULs and spaces. */
  ghost predicate OctalLayout(field: seq<byte>, a: nat, b: nat) {
    && a < b <= |field|
    && (forall i :: 0 <= i < a ==> field[i] == ' ')
    && AllOctal(field[a..b])
    && AllEnds(field[b..])
  }

  lemma {:induction false} ScanEnds(s: seq<byte>, value: nat, haveDigit: bool)
    ensures ScanOctal(s, value, haveDigit, true) == if haveDigit && AllEnds(s) then Accepted(value) else Denied
    decreases s
  {
    if s != [] {
      if IsEnd(s[0]) {
        ScanEnds(s[1..], value, haveDigit);
        assert s == [s[0]] + s[1..];
      } else {
        assert !AllEnds(s);
      }
    }
  }

  /** Scanning a run of digits accumulates its value, and fails exactly when the value reaches 2^64. */
  lemma {:induction false} ScanDigits(done: seq<byte>, ds: seq<byte>, tail: seq<byte>)
    requires AllOctal(done + ds) && OctalValue(done) < LIMIT
    ensures ScanOctal(ds + tail, OctalValue(done), done != [], false)
         == if OctalValue(done + ds) < LIMIT
            then ScanOctal(tail, OctalValue(done + ds), done + ds != [], false) else Denied
    decreases ds
  {
    if ds == [] {
      assert done + ds == done && ds + tail == tail;
    } else {
      var next := done + [ds[0]];
      assert next + ds[1..] == done + ds;
      assert next[..|next| - 1] == done;
      assert (ds + tail)[0] == ds[0] && (ds + tail)[1..] == ds[1..] + tail;
      assert OctalValue(next) == OctalValue(done) * 8 + Digit(ds[0]);
      if OctalValue(next) < LIMIT {
        ScanDigits(next, ds[1..], tail);
      } else {
        OctalValueGrows(next, ds[1..]);
      }
    }
  }

  lemma {:induction false} OctalValueGrows(a: seq<byte>, b: seq<byte>)
    requires AllOctal(a + b)
    ensures AllOctal(a) && OctalValue(a) <= OctalValue(a + b)
    decreases b
  {
    if b == [] {
      assert a + b == a;
    } else {
      var b' := b[..|b| - 1];
      assert (a + b)[..|a + b| - 1] == a + b';
      assert AllOctal(a + b');
      OctalValueGrows(a, b');
    }
  }

  /** After the digits only terminators may follow. */
  lemma ScanTail(tail: seq<byte>, value: nat, haveDigit: bool)
    requires tail != [] ==> !IsOctalDigit(tail[0])
    ensures ScanOctal(tail, value, haveDigit, false) == if haveDigit && AllEnds(tail) then Accepted(value) else Denied
  {
    if tail != [] {
      ScanEnds(tail[1..], value, haveDigit);
      assert tail == [tail[0]] + tail[1..];
    }
  }

  /** The whole scan in closed form. */
  lemma ScanDecides(ds: seq<byte>, tail: seq<byte>)
    requires AllOctal(ds) && (tail != [] ==> !IsOctalDigit(tail[0]))
    ensures ScanOctal(ds + tail, 0, false, false)
         == if ds != [] && AllEnds(tail) && OctalValue(ds) < LIMIT then Accepted(OctalValue(ds)) else Denied
  {
    assert [] + ds == ds;
    ScanDigits([], ds, tail);
    ScanTail(tail, OctalValue(ds), ds != []);
  }

  /** The parser accepts a laid-out field exactly when its value is below 2^64, and returns that value. */
  lemma OctalLayoutDecides(field: seq<byte>, allowBlank: bool, a: nat, b: nat)
    requires OctalLayout(field, a, b)
    ensures OctalField(field, allowBlank)
         == if OctalValue(field[a..b]) < LIMIT then Accepted(OctalValue(field[a..b])) else Denied
  {
    hide ScanOctal, OctalValue;
    assert IsOctalDigit(field[a]) by { assert field[a] in field[a..b]; }
    assert Zeros(|field|)[a] == '\0';
    assert LeadingSpaces(field) == a;
    assert b < |field| ==> field[b] in field[b..];
    assert field[a..] == field[a..b] + field[b..];
    ScanDecides(field[a..b], field[b..]);
  }

  function OctalRun(s: seq<byte>): (n: nat)
    ensures n <= |s| && AllOctal(s[..n]) && (n < |s| ==> !IsOctalDigit(s[n]))
  {
    if s == [] || !IsOctalDigit(s[0]) then 0
    else
      var n := 1 + OctalRun(s[1..]);
      assert s[..n] == [s[0]] + s[1..][..n - 1];
      n
  }

  /** Nothing else is accepted: an accepted field is laid out, or blank where blanks are allowed. */
  lemma OctalAcceptedIsLaidOut(field: seq<byte>, allowBlank: bool) returns (a: nat, b: nat)
    requires OctalField(field, allowBlank).Accepted?
    ensures
      || OctalLayout(field, a, b)
      || (allowBlank && field == Zeros(|field|) && OctalField(field, allowBlank).value == 0)
  {
    hide ScanOctal, OctalValue, LeadingSpaces, OctalRun, AllOctal, AllEnds;
    a := LeadingSpaces(field);
    b := a + OctalRun(field[a..]);
    if field != Zeros(|field|) {
      assert field[a..b] == field[a..][..b - a] && field[b..] == field[a..][b - a..];
      assert field[a..] == field[a..b] + field[b..];
      ScanDecides(field[a..b], field[b..]);
    }
  }

  // ----- checksums and the directory rewrite -----

  function ByteSum(s: seq<byte>): nat {
    if s == [] then 0 else ByteSum(s[..|s| - 1]) + s[|s| - 1] as int
  }

  predicate ChecksumValid(header: seq<byte>) {
    && |header| == BLOCK
    && OctalField(header[148..156], false) == Accepted(ByteSum(header[..148]) + 8 * ' ' as int + ByteSum(header[156..]))
  }

  function OctalDigits(n: nat): seq<byte> {
    if n < 8 then [('0' as int + n) as char] else OctalDigits(n / 8) + [('0' as int + n % 8) as char]
  }

  /** `f"{n:06o}"`. */
  function Octal6(n: nat): seq<byte> {
    var ds := OctalDigits(n);
    if |ds| < 6 then seq(6 - |ds|, _ => '0') + ds else ds
  }

  const DIRECTORY_MODE: seq<byte> := "0000755\0"

  function Splice(s: seq<byte>, at: nat, patch: seq<byte>): (r: seq<byte>)
    requires at + |patch| <= |s|
    ensures |r| == |s| && r[at..at + |patch|] == patch
    ensures forall i :: 0 <= i < |s| && !(at <= i < at + |patch|) ==> r[i] == s[i]
  {
    s[..at] + patch + s[at + |patch|..]
  }

  /** `_android_staging_filter_directory_header`, with its three failure branches. */
  function DirectoryHeader(header: seq<byte>): Outcome<seq<byte>>
    requires |header| == BLOCK
  {
    var blanked := Splice(Splice(header, 100, DIRECTORY_MODE), 148, seq(8, _ => ' '));
    var checksum := ByteSum(blanked);
    if checksum > 262143 then Denied  // 0o777777
    else
      var encoded := Octal6(checksum);
      if |encoded| != 6 then Denied
      else
        var result := Splice(blanked, 148, encoded + ['\0', ' ']);
        if ChecksumValid(result) then Accepted(result) else Denied
  }

  lemma {:induction false} ByteSumAppend(a: seq<byte>, b: seq<byte>)
    ensures ByteSum(a + b) == ByteSum(a) + ByteSum(b)
    decreases b
  {
    if b == [] {
      assert a + b == a;
    } else {
      assert (a + b)[..|a + b| - 1] == a + b[..|b| - 1];
      ByteSumAppend(a, b[..|b| - 1]);
    }
  }

  lemma {:induction false} ByteSumBound(s: seq<byte>)
    ensures ByteSum(s) <= 255 * |s|
  {
    if s != [] {
      ByteSumBound(s[..|s| - 1]);
    }
  }

  lemma {:induction false} OctalDigitsMeaning(n: nat)
    ensures AllOctal(OctalDigits(n)) && OctalValue(OctalDigits(n)) == n && OctalDigits(n) != []
  {
    var ds := OctalDigits(n);
    if n < 8 {
      assert ds[..0] == [];
    } else {
      OctalDigitsMeaning(n / 8);
      assert ds[..|ds| - 1] == OctalDigits(n / 8);
    }
  }

  function Pow8(k: nat): (r: nat)
    ensures r >= 1
  {
    if k == 0 then 1 else 8 * Pow8(k - 1)
  }

  lemma {:induction false} OctalDigitsLength(n: nat, k: nat)
    requires k >= 1 && n < Pow8(k)
    ensures |OctalDigits(n)| <= k
    decreases k
  {
    if n >= 8 {
      assert n < 8 * Pow8(k - 1);
      OctalDigitsLength(n / 8, k - 1);
    }
  }

  lemma {:induction false} LeadingZeros(zs: seq<byte>, ds: seq<byte>)
    requires forall i :: 0 <= i < |zs| ==> zs[i] == '0'
    requires AllOctal(ds)
    ensures AllOctal(zs + ds) && OctalValue(zs + ds) == OctalValue(ds)
    decreases |ds|, |zs|
  {
    var s := zs + ds;
    if ds != [] {
      LeadingZeros(zs, ds[..|ds| - 1]);
      assert s[..|s| - 1] == zs + ds[..|ds| - 1];
    } else if zs != [] {
      LeadingZeros(zs[..|zs| - 1], []);
      assert s[..|s| - 1] == zs[..|zs| - 1] + [];
    }
  }

  /** Six octal digits hold every number below 8^6. */
  lemma Octal6Meaning(n: nat)
    requires n <= 262143
    ensures |Octal6(n)| == 6 && AllOctal(Octal6(n)) && OctalValue(Octal6(n)) == n
  {
    OctalDigitsMeaning(n);
    assert Pow8(6) == 262144;
    OctalDigitsLength(n, 6);
    LeadingZeros(seq(6 - |OctalDigits(n)|, _ => '0'), OctalDigits(n));
  }

  lemma ByteSumOfSpaces(s: seq<byte>)
    requires s == seq(8, _ => ' ')
    ensures ByteSum(s) == 256
  {
    assert forall k :: 0 <= k < 8 ==> s[..k + 1][..k] == s[..k] && s[..k + 1][k] == ' ';
    assert ByteSum(s[..0]) == 0;
    assert ByteSum(s[..1]) == 32;
    assert ByteSum(s[..2]) == 64;
    assert ByteSum(s[..3]) == 96;
    assert ByteSum(s[..4]) == 128;
    assert ByteSum(s[..5]) == 160;
    assert ByteSum(s[..6]) == 192;
    assert ByteSum(s[..7]) == 224;
    assert s[..8] == s;
  }

  lemma BlankedSum(blanked: seq<byte>)
    requires |blanked| == BLOCK && blanked[148..156] == seq(8, _ => ' ')
    ensures ByteSum(blanked) == ByteSum(blanked[..148]) + 256 + ByteSum(blanked[156..])
  {
    var middle := blanked[148..156];
    ByteSumOfSpaces(middle);
    assert blanked == blanked[..148] + middle + blanked[156..];
    ByteSumAppend(blanked[..148] + middle, blanked[156..]);
    ByteSumAppend(blanked[..148], middle);
  }

  lemma ChecksumFieldParses(sum: nat)
    requires sum <= 262143
    ensures |Octal6(sum)| == 6 && OctalField(Octal6(sum) + ['\0', ' '], false) == Accepted(sum)
  {
    hide OctalField, Octal6, OctalValue;
    Octal6Meaning(sum);
    var field := Octal6(sum) + ['\0', ' '];
    assert field[0..6] == Octal6(sum) && field[6..] == ['\0', ' '];
    OctalLayoutDecides(field, false, 0, 6);
  }

  /** A blanked header with its own sum written into the checksum field has a valid checksum. */
  lemma WrittenChecksumIsValid(blanked: seq<byte>)
    requires |blanked| == BLOCK && blanked[148..156] == seq(8, _ => ' ')
    ensures ByteSum(blanked) <= 262143
    ensures |Octal6(ByteSum(blanked))| == 6
    ensures ChecksumValid(Splice(blanked, 148, Octal6(ByteSum(blanked)) + ['\0', ' ']))
  {
    hide OctalField, Octal6, ByteSum;
    ByteSumBound(blanked);
    BlankedSum(blanked);
    ChecksumFieldParses(ByteSum(blanked));
    var field := Octal6(ByteSum(blanked)) + ['\0', ' '];
    var result := Splice(blanked, 148, field);
    assert result[..148] == blanked[..148] && result[156..] == blanked[156..] && result[148..156] == field;
  }

  /** The directory rewrite never fails: on every 512-byte header it yields a header with a valid
      checksum and mode 0755 that is the same everywhere outside bytes 100-107 and 148-155. */
  lemma DirectoryHeaderTotal(header: seq<byte>)
    requires |header| == BLOCK
    ensures DirectoryHeader(header).Accepted?
    ensures var t := DirectoryHeader(header).value;
      && |t| == BLOCK && ChecksumValid(t)
      && t[100..108] == DIRECTORY_MODE
      && forall i :: 0 <= i < BLOCK && !(100 <= i < 108) && !(148 <= i < 156) ==> t[i] == header[i]
  {
    hide ByteSum, ChecksumValid, Octal6;
    var blanked := Splice(Splice(header, 100, DIRECTORY_MODE), 148, seq(8, _ => ' '));
    assert blanked[100..108] == Splice(header, 100, DIRECTORY_MODE)[100..108];
    WrittenChecksumIsValid(blanked);
    var t := Splice(blanked, 148, Octal6(ByteSum(blanked)) + ['\0', ' ']);
    assert t[100..108] == blanked[100..108];
  }
}

/**
 * The text helpers of tools/syz-branch2addr/syz-branch2addr.go: the path
 * prefix stripper with its cached prefix, the `file:line` trace parser, the
 * frame search by PC, the objdump line scan that collects conditional-jump
 * addresses and pairs each jump with the instruction that follows it, and
 * the grouping of symbolized frames into function ranges.
 *
 * objdump, the symbolizer, the cache file and the trace file are outside the
 * model: the scan takes objdump's output as a sequence of lines and the
 * grouping takes the symbolized frames as a sequence. The package variables
 * `prefix` and `branch` are the fields of one `Branch2Addr` object.
 */
module Branch2Addr {
  import opened Common

  /** uint64. */
  type u64 = x: int | 0 <= x < 0x1_0000_0000_0000_0000

  const MaxInt64: int := 0x7fff_ffff_ffff_ffff
  const MinInt64: int := -0x8000_0000_0000_0000

  /** The column objdump prints the mnemonic at (iBase). */
  const IBase: nat := 18

  // ---------------------------------------------------------------------
  // strings.Index, strings.Split, strings.Join
  // ---------------------------------------------------------------------

  /** `sep` occurs in `s` starting at index `j`. */
  predicate OccursAt(s: string, sep: string, j: nat)
  {
    j + |sep| <= |s| && s[j..j + |sep|] == sep
  }

  /** The first occurrence of `sep` in `s` at or after `k`. */
  function FindFrom(s: string, sep: string, k: nat): (r: Option<nat>)
    requires k <= |s|
    decreases |s| - k
    ensures r.Some? ==> k <= r.value && r.value + |sep| <= |s|
  {
    if k + |sep| > |s| then None
    else if s[k..k + |sep|] == sep then Some(k)
    else if k == |s| then None
    else FindFrom(s, sep, k + 1)
  }

  /**
   * The search finds an occurrence, and none before it; when it finds
   * nothing, `sep` does not occur at or after `k`.
   */
  lemma {:induction false} FindFromSound(s: string, sep: string, k: nat)
    requires k <= |s|
    decreases |s| - k
    ensures var r := FindFrom(s, sep, k);
      && (r.Some? ==> k <= r.value && OccursAt(s, sep, r.value))
      && (r.Some? ==> forall j :: k <= j < r.value ==> !OccursAt(s, sep, j))
      && (r.None? ==> forall j :: k <= j ==> !OccursAt(s, sep, j))
  {
    var r := FindFrom(s, sep, k);
    if k + |sep| > |s| {
      assert r.None?;
    } else if s[k..k + |sep|] == sep {
      assert r == Some(k);
    } else if k < |s| {
      FindFromSound(s, sep, k + 1);
      assert r == FindFrom(s, sep, k + 1);
      assert !OccursAt(s, sep, k);
    }
  }

  /** strings.Index / bytes.Index: the first occurrence of `sep`, None for -1. */
  function Index(s: string, sep: string): Option<nat>
  {
    FindFrom(s, sep, 0)
  }

  /** strings.Contains. */
  predicate Contains(s: string, sep: string)
  {
    Index(s, sep).Some?
  }

  /**
   * strings.Split with a non-empty separator: the pieces between the
   * non-overlapping occurrences of `sep`, searched from the left.
   */
  function Split(s: string, sep: string): (parts: seq<string>)
    requires |sep| > 0
    decreases |s|
    ensures |parts| >= 1
  {
    match Index(s, sep)
    case None => [s]
    case Some(i) => [s[..i]] + Split(s[i + |sep|..], sep)
  }

  /** strings.Join. */
  function Join(parts: seq<string>, sep: string): string
  {
    if |parts| == 0 then ""
    else if |parts| == 1 then parts[0]
    else parts[0] + sep + Join(parts[1..], sep)
  }

  /** A split whose separator first occurs at `i` starts with the text before it. */
  lemma SplitFirst(s: string, sep: string)
    requires |sep| > 0 && Index(s, sep).Some?
    ensures var i := Index(s, sep).value;
      i + |sep| <= |s| && Split(s, sep) == [s[..i]] + Split(s[i + |sep|..], sep)
  {
  }

  /** Joining the pieces of a split with the same separator gives the text back. */
  lemma {:induction false} SplitJoin(s: string, sep: string)
    requires |sep| > 0
    ensures Join(Split(s, sep), sep) == s
    decreases |s|
  {
    var i := SplitCases(s, sep);
    if i < |s| {
      var rest := s[i + |sep|..];
      SplitJoin(rest, sep);
      JoinCons(s[..i], Split(rest, sep), sep);
      Reassemble(s, i, |sep|);
    }
  }

  /** A text is its prefix, the `n` characters at `i` and the rest, put back together. */
  lemma Reassemble(s: string, i: nat, n: nat)
    requires i + n <= |s|
    ensures s == s[..i] + s[i..i + n] + s[i + n..]
  {
    assert s[i..] == s[i..i + n] + s[i + n..];
    assert s == s[..i] + s[i..];
  }

  /**
   * The two shapes of a split: the whole text when `sep` does not occur
   * (reported as |s|), otherwise the text before the first occurrence `i`
   * followed by the split of the rest.
   */
  lemma SplitCases(s: string, sep: string) returns (i: nat)
    requires |sep| > 0
    ensures i <= |s|
    ensures i == |s| ==> Split(s, sep) == [s]
    ensures i < |s| ==> i + |sep| <= |s| && s[i..i + |sep|] == sep
    ensures i < |s| ==> Split(s, sep) == [s[..i]] + Split(s[i + |sep|..], sep)
  {
    match Index(s, sep)
    case None => i := |s|;
    case Some(j) => i := j; SplitFirst(s, sep); FindFromSound(s, sep, 0);
  }

  /** Joining a piece in front of a non-empty run puts one separator after it. */
  lemma JoinCons(head: string, tail: seq<string>, sep: string)
    requires |tail| > 0
    ensures Join([head] + tail, sep) == head + sep + Join(tail, sep)
  {
    assert ([head] + tail)[1..] == tail;
  }

  /** Joining two non-empty runs of pieces puts one separator between them. */
  lemma {:induction false} JoinAppend(a: seq<string>, b: seq<string>, sep: string)
    requires |a| > 0 && |b| > 0
    ensures Join(a + b, sep) == Join(a, sep) + sep + Join(b, sep)
    decreases |a|
  {
    if |a| > 1 {
      assert (a + b)[1..] == a[1..] + b;
      JoinAppend(a[1..], b, sep);
    } else {
      assert (a + b)[1..] == b;
    }
  }

  /** No piece of a split contains the separator. */
  lemma {:induction false} SplitPiecesFree(s: string, sep: string)
    requires |sep| > 0
    ensures forall k :: 0 <= k < |Split(s, sep)| ==> !Contains(Split(s, sep)[k], sep)
    decreases |s|
  {
    var idx := Index(s, sep);
    if idx.Some? {
      var i := idx.value;
      var rest := s[i + |sep|..];
      var parts := Split(s, sep);
      SplitFirst(s, sep);
      SplitPiecesFree(rest, sep);
      forall k | 0 <= k < |parts| ensures !Contains(parts[k], sep) {
        if k == 0 {
          HeadFree(s, sep, i);
        } else {
          assert parts[k] == Split(rest, sep)[k - 1];
        }
      }
    }
  }

  /** The text before the first occurrence of `sep` does not contain `sep`. */
  lemma HeadFree(s: string, sep: string, i: nat)
    requires |sep| > 0 && Index(s, sep) == Some(i)
    ensures !Contains(s[..i], sep)
  {
    FindFromSound(s, sep, 0);
    assert OccursAt(s, sep, i) && i <= |s|;
    var found := FindFrom(s[..i], sep, 0);
    FindFromSound(s[..i], sep, 0);
    if found.Some? {
      var j := found.value;
      assert OccursAt(s[..i], sep, j) && j + |sep| <= i;
      assert s[..i][j..j + |sep|] == s[j..j + |sep|];
      assert OccursAt(s, sep, j);
      assert false;
    }
  }

  /** The index of the last piece equal to `name`. */
  function LastComponent(parts: seq<string>, name: string): (r: Option<nat>)
    ensures r.Some? ==> r.value < |parts| && parts[r.value] == name
    ensures r.Some? ==> forall j :: r.value < j < |parts| ==> parts[j] != name
    ensures r.None? ==> forall j :: 0 <= j < |parts| ==> parts[j] != name
  {
    if |parts| == 0 then None
    else if parts[|parts| - 1] == name then Some(|parts| - 1)
    else LastComponent(parts[..|parts| - 1], name)
  }

  /** A piece equal to `name` with none after it is the last such piece. */
  lemma LastComponentFound(parts: seq<string>, name: string, i: nat)
    requires i < |parts| && parts[i] == name
    requires forall j :: i < j < |parts| ==> parts[j] != name
    ensures LastComponent(parts, name) == Some(i)
  {
  }

  // ---------------------------------------------------------------------
  // strconv.Atoi and strconv.ParseUint(_, 16, 64)
  // ---------------------------------------------------------------------

  predicate IsDigit(c: char) { '0' <= c <= '9' }

  predicate AllDigits(s: string) { forall i :: 0 <= i < |s| ==> IsDigit(s[i]) }

  /** The value of a run of decimal digits, unbounded. */
  function DecimalValue(s: string): nat
    requires AllDigits(s)
  {
    if |s| == 0 then 0
    else DecimalValue(s[..|s| - 1]) * 10 + (s[|s| - 1] as int - '0' as int)
  }

  const MaxUint64: int := 0xffff_ffff_ffff_ffff

  /** The length of the run of decimal digits that `s` starts with. */
  function LeadingDigits(s: string): (n: nat)
    ensures n <= |s| && AllDigits(s[..n]) && (n < |s| ==> !IsDigit(s[n]))
  {
    if |s| == 0 || !IsDigit(s[0]) then 0
    else
      var m := LeadingDigits(s[1..]);
      assert s[..m + 1] == [s[0]] + s[1..][..m];
      m + 1
  }

  /** A prefix of a numeral is a numeral of no greater value. */
  lemma {:induction false} DecimalPrefixMono(t: string, j: nat)
    requires AllDigits(t) && j <= |t|
    ensures AllDigits(t[..j]) && DecimalValue(t[..j]) <= DecimalValue(t)
    decreases |t|
  {
    if j < |t| {
      var u := t[..|t| - 1];
      assert u[..j] == t[..j];
      assert DecimalValue(t) == DecimalValue(u) * 10 + (t[|t| - 1] as int - '0' as int);
      DecimalPrefixMono(u, j);
    } else {
      assert t[..j] == t;
    }
  }

  /** What strconv.ParseUint reports: the value, or which error. */
  datatype NumResult = Num(value: nat) | SyntaxError | RangeError

  /**
   * The digit loop of strconv.ParseUint(s, 10, 64) from position `i`, with
   * `n` read so far: a non-digit is a syntax error, and a digit that takes
   * the value past 2^64 - 1 is a range error at once, before the rest of the
   * text is looked at.
   */
  function ScanDecimal(s: string, i: nat, n: nat): (r: NumResult)
    requires i <= |s| && n <= MaxUint64
    ensures r.Num? ==> r.value <= MaxUint64
    decreases |s| - i
  {
    if i == |s| then Num(n)
    else if !IsDigit(s[i]) then SyntaxError
    else
      var m := n * 10 + (s[i] as int - '0' as int);
      if m > MaxUint64 then RangeError else ScanDecimal(s, i + 1, m)
  }

  /** strconv.ParseUint(s, 10, 64): the empty text is a syntax error. */
  function ParseDecimal(s: string): NumResult
  {
    if |s| == 0 then SyntaxError else ScanDecimal(s, 0, 0)
  }

  /**
   * The loop from any point inside the leading digit run ends in a range
   * error exactly when the whole run exceeds 2^64 - 1, and otherwise in a
   * syntax error when a non-digit follows the run, or else in its value.
   */
  lemma {:induction false} ScanDecimalRun(s: string, i: nat)
    requires i <= LeadingDigits(s)
    ensures AllDigits(s[..i])
    ensures var k := LeadingDigits(s); var u := DecimalValue(s[..k]);
      DecimalValue(s[..i]) <= u &&
      (u <= MaxUint64 ==>
        ScanDecimal(s, i, DecimalValue(s[..i])) == if k < |s| then SyntaxError else Num(u)) &&
      (u > MaxUint64 && DecimalValue(s[..i]) <= MaxUint64 ==>
        ScanDecimal(s, i, DecimalValue(s[..i])) == RangeError)
    decreases |s| - i
  {
    var k := LeadingDigits(s);
    DecimalPrefixMono(s[..k], i);
    assert s[..k][..i] == s[..i];
    var n := DecimalValue(s[..i]);
    assert i < k ==> IsDigit(s[i]) by {
      if i < k {
        assert s[..k][i] == s[i];
      }
    }
    if i < |s| && IsDigit(s[i]) {
      assert i < k;
      var m := n * 10 + (s[i] as int - '0' as int);
      assert s[..i + 1][..i] == s[..i];
      assert DecimalValue(s[..i + 1]) == m;
      ScanDecimalRun(s, i + 1);
    } else {
      assert i == k;
    }
  }

  /** strconv.ParseUint(s, 10, 64) in terms of the leading digit run of `s`. */
  lemma ParseDecimalRun(s: string)
    ensures var k := LeadingDigits(s); var u := DecimalValue(s[..k]);
      ParseDecimal(s) ==
        if u > MaxUint64 then RangeError
        else if k < |s| || |s| == 0 then SyntaxError
        else Num(u)
  {
    if |s| > 0 {
      assert s[..0] == [];
      ScanDecimalRun(s, 0);
    }
  }

  /** The text after one optional leading sign, as strconv.ParseInt strips it. */
  function Unsigned(s: string): string
  {
    if |s| > 0 && (s[0] == '-' || s[0] == '+') then s[1..] else s
  }

  /**
   * strconv.Atoi with the error ignored (on a 64-bit target, where the fast
   * path for short texts agrees with ParseInt(s, 10, 0)): the unsigned part
   * goes through ParseUint; a syntax error gives 0, a range error the bound
   * of the sign, and a value beyond the int64 range is clamped to it.
   */
  function Atoi(s: string): (v: int)
    ensures MinInt64 <= v <= MaxInt64
    ensures var body := Unsigned(s); var k := LeadingDigits(body); var u: int := DecimalValue(body[..k]);
      var neg := |s| > 0 && s[0] == '-';
      && (u > MaxUint64 ==> v == if neg then MinInt64 else MaxInt64)
      && (u <= MaxUint64 && (k < |body| || |body| == 0) ==> v == 0)
      && (u <= MaxUint64 && 0 < k == |body| ==>
            v == if neg then (if u > -MinInt64 then MinInt64 else -u)
                 else (if u > MaxInt64 then MaxInt64 else u))
  {
    var body := Unsigned(s);
    var neg := |s| > 0 && s[0] == '-';
    ParseDecimalRun(body);
    match ParseDecimal(body)
    case SyntaxError => 0
    case RangeError => if neg then MinInt64 else MaxInt64
    case Num(n) =>
      var u: int := n;
      if neg then (if u > -MinInt64 then MinInt64 else -u)
      else if u > MaxInt64 then MaxInt64 else u
  }

  /** A numeral followed by a non-digit (or by nothing) is the leading digit run. */
  lemma LeadingDigitsOf(digits: string, rest: string)
    requires AllDigits(digits) && (|rest| > 0 ==> !IsDigit(rest[0]))
    ensures LeadingDigits(digits + rest) == |digits| && (digits + rest)[..|digits|] == digits
  {
    var s := digits + rest;
    var k := LeadingDigits(s);
    assert s[..|digits|] == digits;
    assert forall j :: 0 <= j < |digits| ==> s[j] == digits[j];
  }

  /**
   * Digits beyond 2^64 - 1 saturate before anything after them is read: the
   * trailing text does not turn the range error into a syntax error.
   */
  lemma AtoiRangeBeforeJunk(digits: string, junk: string)
    requires |digits| > 0 && AllDigits(digits) && DecimalValue(digits) > MaxUint64
    requires |junk| > 0 ==> !IsDigit(junk[0])
    ensures Atoi(digits + junk) == MaxInt64
    ensures Atoi("-" + (digits + junk)) == MinInt64
  {
    var body := digits + junk;
    OverflowingRun(digits, junk);
    UnsignedOf(body);
    AtoiSaturates(body);
    AtoiSaturates("-" + body);
  }

  lemma OverflowingRun(digits: string, junk: string)
    requires AllDigits(digits) && DecimalValue(digits) > MaxUint64
    requires |junk| > 0 ==> !IsDigit(junk[0])
    ensures var body := digits + junk; DecimalValue(body[..LeadingDigits(body)]) > MaxUint64
  {
    LeadingDigitsOf(digits, junk);
  }

  lemma UnsignedOf(t: string)
    requires |t| > 0 && IsDigit(t[0])
    ensures Unsigned(t) == t && Unsigned("-" + t) == t
  {
    assert ("-" + t)[1..] == t;
  }

  lemma AtoiSaturates(s: string)
    requires var body := Unsigned(s); DecimalValue(body[..LeadingDigits(body)]) > MaxUint64
    ensures Atoi(s) == if |s| > 0 && s[0] == '-' then MinInt64 else MaxInt64
  {
  }

  /** The decimal digit character for `d`. */
  function DigitChar(d: nat): (c: char)
    requires d < 10
    ensures IsDigit(c) && c as int - '0' as int == d
  {
    (d + '0' as int) as char
  }

  /** The shortest decimal numeral of `n` (strconv.Itoa of a non-negative value). */
  function DecString(n: nat): (r: string)
    ensures |r| > 0 && AllDigits(r)
  {
    if n < 10 then [DigitChar(n)] else DecString(n / 10) + [DigitChar(n % 10)]
  }

  /** strconv.Itoa. */
  function Itoa(i: int): string
  {
    if i < 0 then "-" + DecString(-i) else DecString(i)
  }

  /** A numeral reads back as the number it was written from. */
  lemma {:induction false} DecStringValue(n: nat)
    ensures DecimalValue(DecString(n)) == n
  {
    if n >= 10 {
      DecStringValue(n / 10);
      var r := DecString(n);
      assert r[..|r| - 1] == DecString(n / 10);
    }
  }

  /** Atoi reads back every int64 that Itoa writes. */
  lemma AtoiItoa(i: int)
    requires MinInt64 <= i <= MaxInt64
    ensures Atoi(Itoa(i)) == i
  {
    var s := Itoa(i);
    var body := Unsigned(s);
    if i < 0 {
      DecStringValue(-i);
      assert body == DecString(-i);
    } else {
      DecStringValue(i);
      assert IsDigit(s[0]) && body == s;
    }
    assert body[..|body|] == body;
  }

  predicate IsHexDigit(c: char)
  {
    ('0' <= c <= '9') || ('a' <= c <= 'f') || ('A' <= c <= 'F')
  }

  predicate AllHex(s: string) { forall i :: 0 <= i < |s| ==> IsHexDigit(s[i]) }

  function HexDigit(c: char): (d: nat)
    requires IsHexDigit(c)
    ensures d < 16
  {
    if '0' <= c <= '9' then c as int - '0' as int
    else if 'a' <= c <= 'f' then c as int - 'a' as int + 10
    else c as int - 'A' as int + 10
  }

  /** The value of a run of hexadecimal digits, unbounded. */
  function HexValue(s: string): nat
    requires AllHex(s)
  {
    if |s| == 0 then 0 else HexValue(s[..|s| - 1]) * 16 + HexDigit(s[|s| - 1])
  }

  /**
   * strconv.ParseUint(s, 16, 64) without its error value: at least one hex
   * digit of either case, no prefix and no sign, and a value below 2^64.
   */
  function ParseHex(s: string): (r: Option<u64>)
    ensures r.Some? <==> |s| > 0 && AllHex(s) && HexValue(s) < 0x1_0000_0000_0000_0000
  {
    if |s| == 0 || !AllHex(s) then None
    else
      var v := HexValue(s);
      if v < 0x1_0000_0000_0000_0000 then Some(v) else None
  }

  function Pow16(n: nat): nat
  {
    if n == 0 then 1 else 16 * Pow16(n - 1)
  }

  function HexChar(d: nat): (c: char)
    requires d < 16
    ensures IsHexDigit(c) && HexDigit(c) == d
  {
    if d < 10 then (d + '0' as int) as char else (d - 10 + 'a' as int) as char
  }

  /** `v` in exactly `n` lower-case hex digits, as objdump prints addresses. */
  function HexString(v: nat, n: nat): (r: string)
    ensures |r| == n && AllHex(r)
  {
    if n == 0 then [] else HexString(v / 16, n - 1) + [HexChar(v % 16)]
  }

  /** A zero-padded hex numeral reads back as its value. */
  lemma {:induction false} HexStringValue(v: nat, n: nat)
    requires v < Pow16(n)
    ensures HexValue(HexString(v, n)) == v
  {
    if n > 0 {
      HexStringValue(v / 16, n - 1);
      var r := HexString(v, n);
      assert r[..|r| - 1] == HexString(v / 16, n - 1);
    }
  }

  /** ParseUint(_, 16, 64) reads back every address printed in 16 hex digits. */
  lemma ParseHexString(v: u64)
    ensures ParseHex(HexString(v, 16)) == Some(v)
  {
    assert Pow16(1) == 0x10;
    assert Pow16(2) == 0x100;
    assert Pow16(3) == 0x1000;
    assert Pow16(4) == 0x1_0000;
    assert Pow16(5) == 0x10_0000;
    assert Pow16(6) == 0x100_0000;
    assert Pow16(7) == 0x1000_0000;
    assert Pow16(8) == 0x1_0000_0000;
    assert Pow16(9) == 0x10_0000_0000;
    assert Pow16(10) == 0x100_0000_0000;
    assert Pow16(11) == 0x1000_0000_0000;
    assert Pow16(12) == 0x1_0000_0000_0000;
    assert Pow16(13) == 0x10_0000_0000_0000;
    assert Pow16(14) == 0x100_0000_0000_0000;
    assert Pow16(15) == 0x1000_0000_0000_0000;
    assert Pow16(16) == 0x1_0000_0000_0000_0000;
    HexStringValue(v, 16);
  }

  // ---------------------------------------------------------------------
  // parseTrace
  // ---------------------------------------------------------------------

  /**
   * parseTrace: the text before the first ':' is the file, the text after
   * it is read with Atoi. Slicing at IndexByte's -1 panics, so a colon is
   * required.
   */
  function ParseTrace(line: string): (r: (string, int))
    requires Contains(line, ":")
    ensures ':' !in r.0
    ensures |r.0| < |line| && line[..|r.0|] == r.0 && line[|r.0|] == ':'
    ensures r.1 == Atoi(line[|r.0| + 1..])
  {
    FindFromSound(line, ":", 0);
    var colon := Index(line, ":").value;
    assert forall j :: 0 <= j < colon ==> line[..colon][j] != ':' by {
      forall j | 0 <= j < colon ensures line[..colon][j] != ':' {
        assert !OccursAt(line, ":", j);
        assert line[j..j + 1] == [line[j]];
      }
    }
    (line[..colon], Atoi(line[colon + 1..]))
  }

  /** A `file:line` entry written from a colon-free file and an int64 line parses back. */
  lemma ParseTraceRoundTrip(file: string, n: int)
    requires ':' !in file && MinInt64 <= n <= MaxInt64
    ensures var line := file + ":" + Itoa(n); Contains(line, ":") && ParseTrace(line) == (file, n)
  {
    var num := Itoa(n);
    var line := file + ":" + num;
    assert line[|file|] == ':';
    assert line[|file|..|file| + 1] == ":";
    assert OccursAt(line, ":", |file|);
    FindFromSound(line, ":", 0);
    var colon := Index(line, ":").value;
    assert colon == |file|;
    assert line[..colon] == file;
    assert line[colon + 1..] == num;
    AtoiItoa(n);
  }

  // ---------------------------------------------------------------------
  // getFrameByPc
  // ---------------------------------------------------------------------

  /** symbolizer.Frame: the fields the tool reads. */
  datatype Frame = Frame(pc: u64, func: string, file: string, line: int, inline: bool)

  /**
   * getFrameByPc: the file and line of the first frame at index `base` or
   * later whose PC is `pc`, or ("", -1). A negative base would index the
   * slice at a negative position, so base is a natural number.
   */
  method GetFrameByPc(base: nat, frames: seq<Frame>, pc: u64) returns (file: string, line: int)
    ensures (forall i :: base <= i < |frames| ==> frames[i].pc != pc) ==> file == "" && line == -1
    ensures (exists i :: base <= i < |frames| && frames[i].pc == pc) ==>
      exists i :: base <= i < |frames| && frames[i].pc == pc
        && (forall j :: base <= j < i ==> frames[j].pc != pc)
        && file == frames[i].file && line == frames[i].line
  {
    var i := base;
    while i < |frames|
      invariant base <= i
      invariant forall j :: base <= j < i && j < |frames| ==> frames[j].pc != pc
    {
      if frames[i].pc == pc {
        return frames[i].file, frames[i].line;
      }
      i := i + 1;
    }
    return "", -1;
  }

  // ---------------------------------------------------------------------
  // The package state: prefix (stripPrefix) and branch (coveredPcs)
  // ---------------------------------------------------------------------

  /** BranchNode: the instruction after a conditional jump and the jump's target. */
  datatype BranchNode = BranchNode(followBy: u64, jumpTo: u64)

  /**
   * Where stripPrefix returns from: the cached prefix splits the path in
   * exactly two, or else the last "linux" component, or else nowhere.
   */
  predicate CachedHit(path: string, prefix: string)
  {
    prefix != "" && |Split(path, prefix)| == 2
  }

  class Branch2Addr {
    /** The path prefix up to the kernel tree, cached by stripPrefix. */
    var prefix: string
    /** Conditional jump address to its pairing, filled by coveredPcs. */
    var branch: map<u64, BranchNode>

    constructor ()
      ensures prefix == "" && branch == map[]
    {
      prefix := "";
      branch := map[];
    }

    /**
     * stripPrefix: the part of the path after the kernel source tree. A
     * cached prefix that splits the path in two gives the second part.
     * Otherwise the last "linux" component is found, the components up to it
     * and a slash become the cached prefix and the rest is returned; with no
     * such component the path comes back unchanged.
     */
    method StripPrefix(path: string) returns (r: string)
      modifies this`prefix
      ensures CachedHit(path, old(prefix)) ==> r == Split(path, old(prefix))[1] && prefix == old(prefix)
      ensures !CachedHit(path, old(prefix)) ==>
        var parts := Split(path, "/");
        match LastComponent(parts, "linux")
        case Some(i) => prefix == Join(parts[..i + 1], "/") + "/" && r == Join(parts[i + 1..], "/")
        case None => r == path && prefix == old(prefix)
    {
      var parts := Split(path, "/");
      if prefix != "" {
        var rs := Split(path, prefix);
        if |rs| == 2 {
          return rs[1];
        }
      }
      var i := |parts|;
      while i > 0
        invariant 0 <= i <= |parts|
        invariant forall j :: i <= j < |parts| ==> parts[j] != "linux"
      {
        i := i - 1;
        if parts[i] == "linux" {
          LastComponentFound(parts, "linux", i);
          prefix := Join(parts[..i + 1], "/") + "/";
          return Join(parts[i + 1..], "/");
        }
      }
      return path;
    }

    /**
     * The line-scan loop of coveredPcs over objdump's output: the collected
     * PCs and the branch table are those of the scan, starting with no
     * pending jump and the table as it was.
     */
    method CoveredPcs(lines: seq<string>) returns (pcs: seq<u64>)
      requires forall ln :: ln in lines ==> LineSafe(ln)
      modifies this`branch
      ensures var t := Scan(ScanState(0, 0, [], old(branch)), lines); pcs == t.pcs && branch == t.branch
    {
      ghost var s0 := ScanState(0, 0, [], branch);
      var jumpTo: u64, addr: u64 := 0, 0;
      pcs := [];
      for i := 0 to |lines|
        invariant ScanState(jumpTo, addr, pcs, branch) == Scan(s0, lines[..i])
      {
        ScanSnoc(s0, lines, i);
        var ln := lines[i];
        var colon := Index(ln, ":");
        if colon.None? {
          continue;
        }
        var parsed := ParseHex(ln[..colon.value]);
        if parsed.None? {
          continue;
        }
        var pc := parsed.value;
        assert ln in lines && Address(ln) == Some(pc);
        if jumpTo != 0 && addr != 0 {
          branch := branch[addr := BranchNode(pc, jumpTo)];
          jumpTo, addr := 0, 0;
        }
        if ln[IBase] == 'j' {
          if Index(ln, "jmp").Some? {
            continue;
          }
          var pos := Index(ln[IBase..], "f");
          if pos.Some? && |ln[IBase..]| > pos.value + 16 {
            assert ln[IBase..][pos.value..pos.value + 16] == ln[pos.value + IBase..pos.value + IBase + 16];
            var target := ParseHex(ln[pos.value + IBase..pos.value + IBase + 16]);
            if target.None? {
              jumpTo := 0;
              continue;
            }
            jumpTo := target.value;
            addr := pc;
          }
          pcs := pcs + [pc];
        }
      }
      assert lines[..|lines|] == lines;
    }
  }

  /**
   * When "linux" is not the last component, the new cached prefix followed by
   * the stripped path is the path again; when it is the last, the result is
   * empty and the prefix is the whole path and a slash.
   */
  lemma StrippedPathRebuilds(path: string, i: nat)
    requires LastComponent(Split(path, "/"), "linux") == Some(i)
    ensures var parts := Split(path, "/");
      && (i + 1 < |parts| ==> Join(parts[..i + 1], "/") + "/" + Join(parts[i + 1..], "/") == path)
      && (i + 1 == |parts| ==> Join(parts[i + 1..], "/") == "" && Join(parts[..i + 1], "/") + "/" == path + "/")
  {
    var parts := Split(path, "/");
    SplitJoin(path, "/");
    assert parts[..i + 1] + parts[i + 1..] == parts;
    if i + 1 < |parts| {
      JoinAppend(parts[..i + 1], parts[i + 1..], "/");
    } else {
      assert parts[..i + 1] == parts;
    }
  }

  /**
   * A cached prefix that splits the path in exactly two occurs in it once:
   * the path is the first part, the prefix and the returned second part.
   */
  lemma CachedPrefixSplit(path: string, prefix: string)
    requires CachedHit(path, prefix)
    ensures var rs := Split(path, prefix);
      path == rs[0] + prefix + rs[1] && !Contains(rs[0], prefix) && !Contains(rs[1], prefix)
  {
    var rs := Split(path, prefix);
    SplitJoin(path, prefix);
    SplitPiecesFree(path, prefix);
    assert rs[1..] == [rs[1]];
  }

  // ---------------------------------------------------------------------
  // The line scan of coveredPcs
  // ---------------------------------------------------------------------

  /** The address before a line's first colon, when it parses as hex. */
  function Address(ln: string): Option<u64>
  {
    match Index(ln, ":")
    case None => None
    case Some(colon) => ParseHex(ln[..colon])
  }

  /**
   * The scan reads column IBase of every line with an address; a shorter
   * line would index past its end.
   */
  predicate LineSafe(ln: string)
  {
    Address(ln).None? || |ln| > IBase
  }

  /**
   * The 16 characters starting at the first 'f' at or after column IBase,
   * when more than 16 characters follow that 'f'.
   */
  function TargetField(ln: string): (r: Option<string>)
    requires |ln| > IBase
    ensures r.Some? ==> |r.value| == 16
  {
    var rest := ln[IBase..];
    match Index(rest, "f")
    case None => None
    case Some(pos) => if |rest| > pos + 16 then Some(rest[pos..pos + 16]) else None
  }

  /** A line with column IBase at 'j' and no "jmp" anywhere: a conditional jump. */
  predicate IsCondJumpLine(ln: string)
  {
    |ln| > IBase && ln[IBase] == 'j' && !Contains(ln, "jmp")
  }

  /** The variables of the scan: the pending jump, the collected PCs and the branch table. */
  datatype ScanState = ScanState(jumpTo: u64, addr: u64, pcs: seq<u64>, branch: map<u64, BranchNode>)

  /**
   * One iteration of the scan loop. A line without an address is skipped.
   * Otherwise a pending jump (both jumpTo and addr non-zero) is recorded with
   * this address as followBy and cleared. A conditional-jump line is then
   * collected, and its target, when one is found, becomes the pending jump;
   * a target that does not parse zeroes jumpTo and skips the collection.
   */
  function Step(s: ScanState, ln: string): ScanState
    requires LineSafe(ln)
  {
    match Address(ln)
    case None => s
    case Some(pc) =>
      var s1 := if s.jumpTo != 0 && s.addr != 0
        then ScanState(0, 0, s.pcs, s.branch[s.addr := BranchNode(pc, s.jumpTo)])
        else s;
      if !IsCondJumpLine(ln) then s1
      else match TargetField(ln)
        case None => s1.(pcs := s1.pcs + [pc])
        case Some(field) =>
          match ParseHex(field)
          case None => s1.(jumpTo := 0)
          case Some(t) => s1.(jumpTo := t, addr := pc, pcs := s1.pcs + [pc])
  }

  /** The scan over a sequence of lines. */
  function Scan(s: ScanState, lines: seq<string>): ScanState
    requires forall ln :: ln in lines ==> LineSafe(ln)
  {
    if |lines| == 0 then s else Step(Scan(s, lines[..|lines| - 1]), lines[|lines| - 1])
  }

  /** The PC a line contributes to the collected list, if any. */
  function Collected(ln: string): Option<u64>
    requires LineSafe(ln)
  {
    match Address(ln)
    case None => None
    case Some(pc) =>
      if IsCondJumpLine(ln) && (TargetField(ln).None? || ParseHex(TargetField(ln).value).Some?)
      then Some(pc) else None
  }

  /** The PCs the lines contribute, in input order. */
  function CollectedAll(lines: seq<string>): seq<u64>
    requires forall ln :: ln in lines ==> LineSafe(ln)
  {
    if |lines| == 0 then []
    else
      var last := lines[|lines| - 1];
      CollectedAll(lines[..|lines| - 1]) + (if Collected(last).Some? then [Collected(last).value] else [])
  }

  /**
   * The collected PCs do not depend on the pending-jump state: they are the
   * addresses of the conditional-jump lines whose target, if present, parsed,
   * in input order.
   */
  lemma {:induction false} ScanCollects(s: ScanState, lines: seq<string>)
    requires forall ln :: ln in lines ==> LineSafe(ln)
    ensures Scan(s, lines).pcs == s.pcs + CollectedAll(lines)
  {
    if |lines| > 0 {
      var init := lines[..|lines| - 1];
      assert forall ln :: ln in init ==> ln in lines;
      ScanCollects(s, init);
    }
  }

  /** Lines without an address leave the scan state alone. */
  lemma {:induction false} SkippedLines(s: ScanState, lines: seq<string>, i: nat, k: nat)
    requires i <= k <= |lines|
    requires forall ln :: ln in lines ==> LineSafe(ln)
    requires forall j :: i <= j < k ==> Address(lines[j]).None?
    ensures Scan(s, lines[..k]) == Scan(s, lines[..i])
    decreases k
  {
    if i < k {
      assert lines[..k][..k - 1] == lines[..k - 1];
      SkippedLines(s, lines, i, k - 1);
    }
  }

  /**
   * Jump pairing: once a line leaves a jump pending, the next line with an
   * address records it in the branch table with that address as followBy,
   * and the pending pair is cleared unless that line is itself a
   * conditional jump.
   */
  lemma PendingJumpPaired(s: ScanState, lines: seq<string>, i: nat, k: nat)
    requires i < k < |lines|
    requires forall ln :: ln in lines ==> LineSafe(ln)
    requires Scan(s, lines[..i + 1]).jumpTo != 0 && Scan(s, lines[..i + 1]).addr != 0
    requires Address(lines[k]).Some?
    requires forall j :: i < j < k ==> Address(lines[j]).None?
    ensures var t := Scan(s, lines[..i + 1]);
      var u := Scan(s, lines[..k + 1]);
      && u.branch == t.branch[t.addr := BranchNode(Address(lines[k]).value, t.jumpTo)]
      && (!IsCondJumpLine(lines[k]) ==> u.jumpTo == 0 && u.addr == 0)
  {
    SkippedLines(s, lines, i + 1, k);
    assert lines[..k + 1][..k] == lines[..k];
    assert forall ln :: ln in lines[..k] ==> ln in lines;
  }

  /** Scan a line at a time. */
  lemma ScanSnoc(s: ScanState, lines: seq<string>, i: nat)
    requires i < |lines|
    requires forall ln :: ln in lines ==> LineSafe(ln)
    ensures Scan(s, lines[..i + 1]) == Step(Scan(s, lines[..i]), lines[i])
  {
    assert lines[..i + 1][..i] == lines[..i];
    assert forall ln :: ln in lines[..i + 1] ==> ln in lines;
  }

  // ---------------------------------------------------------------------
  // The range grouping of main
  // ---------------------------------------------------------------------

  /** Range: one run of frames of the requested function. */
  datatype Range = Range(funcname: string, start: u64, end: u64, file: string, line: int, found: bool)

  /** The placeholder every run starts as. */
  const Unfound: Range := Range("", 0, 0, "", 0, false)

  /** A function name is requested: contained in it, or equal to it in strict mode. */
  predicate NameMatches(name: string, funcname: string, strict: bool)
  {
    (Contains(name, funcname) && !strict) || (name == funcname && strict)
  }

  /**
   * One frame of the loop: a requested frame opens the current range or
   * extends its end; a non-inlined frame of another function closes an open
   * range and starts a new placeholder; anything else changes nothing.
   */
  function GroupStep(list: seq<Range>, fr: Frame, funcname: string, strict: bool): seq<Range>
    requires |list| > 0
  {
    var n := |list| - 1;
    if NameMatches(fr.func, funcname, strict) then
      if !list[n].found then list[n := Range(fr.func, fr.pc, fr.pc, fr.file, fr.line, true)]
      else list[n := list[n].(end := fr.pc)]
    else if !fr.inline && fr.func != funcname && list[n].found then list + [Unfound]
    else list
  }

  /** The range list after the loop over the frames, before its last entry is dropped. */
  function Groups(frames: seq<Frame>, funcname: string, strict: bool): (list: seq<Range>)
    ensures |list| > 0
  {
    if |frames| == 0 then [Unfound]
    else GroupStep(Groups(frames[..|frames| - 1], funcname, strict), frames[|frames| - 1], funcname, strict)
  }

  /**
   * The range grouping of main: the list starts with one placeholder, the
   * frames are folded in, and the last entry is always dropped.
   */
  method GroupRanges(frames: seq<Frame>, funcname: string, strict: bool) returns (ranges: seq<Range>)
    ensures var list := Groups(frames, funcname, strict); ranges == list[..|list| - 1]
  {
    var list := [Unfound];
    var n := 0;
    for i := 0 to |frames|
      invariant n == |list| - 1
      invariant list == Groups(frames[..i], funcname, strict)
    {
      assert frames[..i + 1][..i] == frames[..i];
      var fr := frames[i];
      if NameMatches(fr.func, funcname, strict) {
        if !list[n].found {
          list := list[n := Range(fr.func, fr.pc, fr.pc, fr.file, fr.line, true)];
        } else {
          list := list[n := list[n].(end := fr.pc)];
        }
      } else if !fr.inline && fr.func != funcname && list[n].found {
        list := list + [Unfound];
        n := n + 1;
      }
    }
    assert frames[..|frames|] == frames;
    ranges := list[..n];
  }

  /**
   * Every range but the last is a closed run of a requested function, and
   * the last is the placeholder or a run still open; so every reported range
   * was found and names a requested function.
   */
  lemma {:induction false} GroupsShape(frames: seq<Frame>, funcname: string, strict: bool)
    ensures var list := Groups(frames, funcname, strict);
      && (forall k :: 0 <= k < |list| - 1 ==> list[k].found && NameMatches(list[k].funcname, funcname, strict))
      && (list[|list| - 1] == Unfound || NameMatches(list[|list| - 1].funcname, funcname, strict))
      && (list[|list| - 1].found <==> list[|list| - 1] != Unfound)
  {
    if |frames| > 0 {
      GroupsShape(frames[..|frames| - 1], funcname, strict);
    }
  }

  /**
   * A run still open at the last frame is not reported: when the last frame
   * is requested, the dropped entry is the found range that ends at it.
   */
  lemma OpenRangeDropped(frames: seq<Frame>, funcname: string, strict: bool)
    requires |frames| > 0 && NameMatches(frames[|frames| - 1].func, funcname, strict)
    ensures var list := Groups(frames, funcname, strict);
      list[|list| - 1].found && list[|list| - 1].end == frames[|frames| - 1].pc
  {
  }
}

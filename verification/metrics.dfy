/**
  The integer side of the system metrics: the byte-size unit choice, the
  uptime breakdown, the load average text and the /proc line parsers.

  File contents are parameters (None when the file cannot be opened); the
  floating-point parts (the CPU and usage percentages, the one-decimal
  mantissa of a byte size, the float parse of /proc/uptime) are left out or
  passed in.
 */
module Metrics {
  import opened Wrappers
  import opened GoStrings

  const Uint64Modulus: nat := MaxUint64 + 1

  // ---------------------------------------------------------------------------
  // Integer helpers

  /** Go's integer quotient for a positive divisor: truncated toward zero. */
  function GoQuot(a: int, b: nat): (q: int)
    requires b > 0
    ensures a >= 0 ==> 0 <= q && b * q <= a < b * q + b
    ensures a < 0 ==> q <= 0 && b * q - b < a <= b * q
  {
    if a >= 0 then a / b else -((-a) / b)
  }

  /** Go's remainder: the sign of the dividend. */
  function GoRem(a: int, b: nat): (r: int)
    requires b > 0
    ensures a >= 0 ==> 0 <= r < b
    ensures a < 0 ==> -(b as int) < r <= 0
    ensures a == b * GoQuot(a, b) + r
  {
    a - b * GoQuot(a, b)
  }

  lemma MulLe(d: nat, x: nat, y: nat)
    requires x <= y
    ensures d * x <= d * y
  {
  }

  // ---------------------------------------------------------------------------
  // fmtBytes

  function Pow1024(k: nat): (p: nat)
    ensures p >= 1
  {
    if k == 0 then 1 else 1024 * Pow1024(k - 1)
  }

  /** The number of times 1024 divides into `b` before the quotient drops under 1024: its base-1024 order. */
  function Log1024(b: nat): nat {
    if b < 1024 then 0 else 1 + Log1024(b / 1024)
  }

  /** The order is the one power range `b` lies in. */
  lemma {:induction false} LogRange(b: nat, k: nat)
    requires b >= 1
    ensures Pow1024(k) <= b < Pow1024(k + 1) <==> k == Log1024(b)
  {
    if b < 1024 {
      if k > 0 {
        PowMono(1, k);
        assert Pow1024(1) == 1024;
      }
    } else if k == 0 {
      assert Pow1024(1) == 1024;
    } else {
      LogRange(b / 1024, k - 1);
      assert Pow1024(k) == 1024 * Pow1024(k - 1);
      assert Pow1024(k + 1) == 1024 * Pow1024(k);
      var q := b / 1024;
      assert 1024 * q <= b < 1024 * q + 1024;
      if Pow1024(k - 1) <= q {
        MulLe(1024, Pow1024(k - 1), q);
      } else {
        MulLe(1024, q + 1, Pow1024(k - 1));
      }
      if q < Pow1024(k) {
        MulLe(1024, q + 1, Pow1024(k));
      } else {
        MulLe(1024, Pow1024(k), q);
      }
    }
  }

  lemma {:induction false} PowMono(j: nat, k: nat)
    requires j <= k
    ensures Pow1024(j) <= Pow1024(k)
    decreases k - j
  {
    if j < k {
      PowMono(j, k - 1);
    }
  }

  /** No power of 1024 from the seventh on fits in a uint64. */
  lemma PowBound(k: nat)
    ensures Pow1024(k) <= MaxUint64 ==> k <= 6
  {
    if k >= 7 {
      PowMono(7, k);
    }
  }

  /** The unit letters after "B": kibi- up to exbi-. */
  const Units: string := "KMGTPE"

  /** A byte count as fmtBytes shows it: plain bytes, or scaled by 1024^(exp+1) with unit Units[exp]. */
  datatype ByteSize = Bytes(n: nat) | Scaled(div: nat, exp: nat)

  /**
    fmtBytes: under 1024 the count itself; otherwise the largest power of
    1024 not above the count, whose unit letter is always in range for a
    uint64 and whose scaling loop never overflows.
   */
  method FmtBytes(b: nat) returns (r: ByteSize)
    requires b <= MaxUint64
    ensures r.Bytes? <==> b < 1024
    ensures r.Bytes? ==> r.n == b
    ensures r.Scaled? ==> r.exp < |Units| && r.div == Pow1024(r.exp + 1)
    ensures r.Scaled? ==> r.div <= b < 1024 * r.div
    ensures r.Scaled? ==> r.exp + 1 == Log1024(b)
  {
    if b < 1024 {
      return Bytes(b);
    }
    var div: nat := 1024;
    var exp: nat := 0;
    var n: nat := b / 1024;
    while n >= 1024
      invariant div == Pow1024(exp + 1) && n >= 1
      invariant div * n <= b < div * n + div
      decreases n
    {
      ScaleStep(b, div, n);
      div := div * 1024;
      exp := exp + 1;
      n := n / 1024;
    }
    ScaleEnd(b, div, n);
    LogRange(b, exp + 1);
    PowBound(exp + 1);
    r := Scaled(div, exp);
  }

  /** One turn of the loop: dividing the quotient by 1024 while multiplying the divisor keeps the count bracketed. */
  lemma ScaleStep(b: nat, div: nat, n: nat)
    requires div * n <= b < div * n + div
    ensures var n' := n / 1024; (div * 1024) * n' <= b < (div * 1024) * n' + div * 1024
  {
    var n' := n / 1024;
    assert 1024 * n' <= n < 1024 * n' + 1024;
    MulLe(div, 1024 * n', n);
    MulLe(div, n + 1, 1024 * n' + 1024);
    assert div * (1024 * n') == (div * 1024) * n';
    assert div * (n + 1) == div * n + div;
    assert div * (1024 * n' + 1024) == (div * 1024) * n' + div * 1024;
  }

  /** When the quotient drops under 1024 the count lies between the divisor and 1024 times it. */
  lemma ScaleEnd(b: nat, div: nat, n: nat)
    requires div * n <= b < div * n + div && 1 <= n < 1024
    ensures div <= b < 1024 * div
  {
    MulLe(div, n + 1, 1024);
    assert div * (n + 1) == div * n + div;
    MulLe(div, 1, n);
  }

  /** The text of a byte size; `mantissa` is the one-decimal quotient, left to the caller. */
  function ByteText(s: ByteSize, mantissa: string): string
    requires s.Scaled? ==> s.exp < |Units|
  {
    match s
    case Bytes(n) => FormatNat(n) + " B"
    case Scaled(_, exp) => mantissa + " " + [Units[exp]] + "B"
  }

  // ---------------------------------------------------------------------------
  // uptime

  /** Days, hours and minutes of a whole-second duration as uptime computes them (Go truncating division). */
  function Clock(s: int): (dhm: (int, int, int)) {
    var hours := GoQuot(s, 3600);
    (GoQuot(hours, 24), GoRem(hours, 24), GoRem(GoQuot(s, 60), 60))
  }

  /**
    For a non-negative duration the breakdown is the usual one: whole days,
    then hours under 24, then minutes under 60, leaving under a minute.
   */
  lemma ClockBreakdown(s: int)
    requires s >= 0
    ensures var (d, h, m) := Clock(s);
      && d >= 0 && 0 <= h < 24 && 0 <= m < 60
      && 86400 * d + 3600 * h + 60 * m <= s < 86400 * d + 3600 * h + 60 * m + 60
  {
    var (d, h, m) := Clock(s);
    var hours := s / 3600;
    var mins := s / 60;
    assert hours == mins / 60;
    assert hours == 24 * d + h;
    assert mins == 60 * hours + m;
    assert 60 * mins <= s < 60 * mins + 60;
    assert 60 * mins == 3600 * hours + 60 * m;
    assert 3600 * hours == 86400 * d + 3600 * h;
  }

  /** A negative duration has no days. */
  lemma ClockNegative(s: int)
    requires s < 0
    ensures Clock(s).0 <= 0
  {
  }

  /** The day count is positive exactly from one full day on. */
  lemma ClockDays(s: int)
    ensures Clock(s).0 > 0 <==> s >= 86400
  {
    if s >= 0 {
      ClockBreakdown(s);
    }
  }

  /** uptime's text for a whole-second duration: days only when there is at least one. */
  function UptimeText(s: int): (r: string)
    ensures |r| >= 2 && r[|r| - 1] == 'м'
  {
    var (d, h, m) := Clock(s);
    if d > 0 then FormatInt(d) + "д " + FormatInt(h) + "ч " + FormatInt(m) + "м"
    else FormatInt(h) + "ч " + FormatInt(m) + "м"
  }

  /** The numbers uptime prints contain no letter. */
  lemma FormatIntNoLetter(n: int, c: char)
    requires c != '-' && !IsDigit(c)
    ensures c !in FormatInt(n)
  {
    var r := FormatInt(n);
    forall i | 0 <= i < |r| ensures r[i] != c {
      if n >= 0 {
        assert IsDigit(r[i]);
      } else if i > 0 {
        assert r[i] == FormatNat(-n)[i - 1];
      }
    }
  }

  /** The day mark appears in uptime's text exactly when the duration is a day or more. */
  lemma UptimeDayForm(s: int)
    ensures 'д' in UptimeText(s) <==> s >= 86400
  {
    var (d, h, m) := Clock(s);
    ClockDays(s);
    HoursMinutesNoDay(h, m);
    if d > 0 {
      DayMark(FormatInt(d), FormatInt(h) + "ч " + FormatInt(m) + "м");
    }
  }

  /** The hours-and-minutes text has no day mark. */
  lemma HoursMinutesNoDay(h: int, m: int)
    ensures 'д' !in FormatInt(h) + "ч " + FormatInt(m) + "м"
  {
    FormatIntNoLetter(h, 'д');
    FormatIntNoLetter(m, 'д');
    assert 'д' !in "ч " && 'д' !in "м";
  }

  lemma DayMark(days: string, tail: string)
    ensures 'д' in days + "д " + tail
  {
    assert (days + "д " + tail)[|days|] == 'д';
  }

  /**
    uptime: "?" for an empty /proc/uptime; otherwise the first field read as
    whole seconds (`seconds` stands for the float parse and its truncation)
    and broken down. Data of white space only makes the source index an
    empty field list, so it is excluded.
   */
  function Uptime(data: string, seconds: string -> int): (r: string)
    requires data == "" || Fields(data) != []
    ensures r == "?" <==> data == ""
    ensures data != "" ==> r == UptimeText(seconds(Fields(data)[0]))
  {
    if data == "" then "?" else UptimeText(seconds(Fields(data)[0]))
  }

  // ---------------------------------------------------------------------------
  // loadAvg

  /** loadAvg: the first three fields of /proc/loadavg joined by single spaces, or "?". */
  function LoadAvg(data: string): (r: string)
    ensures r == "?" <==> data == "" || |Fields(data)| < 3
    ensures r != "?" ==> Fields(r) == Fields(data)[..3]
    ensures r != "?" ==> r == Fields(data)[0] + " " + Fields(data)[1] + " " + Fields(data)[2]
  {
    var fs := Fields(data);
    if data == "" || |fs| < 3 then "?"
    else
      var t := fs[0] + " " + fs[1] + " " + fs[2];
      assert |t| >= 5;
      ThreeFields(fs[0], fs[1], fs[2]);
      assert fs[..3] == [fs[0], fs[1], fs[2]];
      t
  }

  lemma ThreeFields(a: string, b: string, c: string)
    requires |a| > 0 && NoSpace(a) && |b| > 0 && NoSpace(b) && |c| > 0 && NoSpace(c)
    ensures Fields(a + " " + b + " " + c) == [a, b, c]
  {
    var ws := [a, b, c];
    assert ws[1..] == [b, c];
    assert ws[1..][1..] == [c];
    assert Join([b, c], ' ') == b + [' '] + c;
    assert Join(ws, ' ') == a + [' '] + (b + [' '] + c);
    assert a + " " + b + " " + c == a + [' '] + (b + [' '] + c);
    FieldsOfJoin(ws);
  }

  // ---------------------------------------------------------------------------
  // The line scanner and /proc/stat

  /** One trailing carriage return dropped, as the line scanner does. */
  function DropCR(line: string): (r: string)
    ensures HasSuffix(line, "\r") ==> r + "\r" == line
    ensures !HasSuffix(line, "\r") ==> r == line
  {
    if |line| > 0 && line[|line| - 1] == '\r' then line[..|line| - 1] else line
  }

  /**
    The lines a bufio.Scanner yields: the pieces between line feeds, each
    without a trailing carriage return, with no empty piece after a final
    line feed.
   */
  function ScanLines(data: string): (ls: seq<string>)
    ensures |ls| <= |Split(data, '\n')|
    ensures forall i :: 0 <= i < |ls| ==> ls[i] == DropCR(Split(data, '\n')[i])
    ensures data == "" ==> ls == []
    ensures data != "" ==>
      |ls| == |Split(data, '\n')| - (if Split(data, '\n')[|Split(data, '\n')| - 1] == "" then 1 else 0)
  {
    var parts := Split(data, '\n');
    var ps := if parts[|parts| - 1] == "" then parts[..|parts| - 1] else parts;
    if data == "" then
      assert Split(data, '\n') == [""];
      []
    else
      seq(|ps|, i requires 0 <= i < |ps| => DropCR(ps[i]))
  }

  predicate IsCpuLine(line: string) {
    HasPrefix(line, "cpu ")
  }

  /** The first line that starts with "cpu " (the aggregate line; "cpu0" and the like do not). */
  function FirstCpuLine(lines: seq<string>): (r: Option<nat>)
    ensures r.Some? ==> r.value < |lines| && IsCpuLine(lines[r.value])
    ensures r.Some? ==> forall j :: 0 <= j < r.value ==> !IsCpuLine(lines[j])
    ensures r.None? ==> forall j :: 0 <= j < |lines| ==> !IsCpuLine(lines[j])
  {
    if lines == [] then None
    else if IsCpuLine(lines[0]) then Some(0)
    else match FirstCpuLine(lines[1..])
      case None => None
      case Some(i) => Some(i + 1)
  }

  /** A "cpu " line's fields start with "cpu". */
  lemma CpuFields(line: string)
    requires IsCpuLine(line)
    ensures |Fields(line)| >= 1 && Fields(line)[0] == "cpu"
  {
    assert line == "cpu" + line[3..];
    WordLenOfWord("cpu", line[3..]);
    assert line[..3] == "cpu";
  }

  /**
    readStat: the numbers after the label of the first "cpu " line, each
    field that does not parse read as 0; nothing when the file cannot be
    read or has no such line.
   */
  function ReadStat(data: Option<string>): (r: seq<nat>)
    ensures data.None? ==> r == []
    ensures data.Some? && FirstCpuLine(ScanLines(data.value)).None? ==> r == []
    ensures data.Some? && FirstCpuLine(ScanLines(data.value)).Some? ==>
      var fs := Fields(ScanLines(data.value)[FirstCpuLine(ScanLines(data.value)).value]);
      && |fs| >= 1 && |r| == |fs| - 1
      && forall i :: 0 <= i < |r| ==> r[i] == ParseUint(fs[i + 1]) && r[i] <= MaxUint64
  {
    if data.None? then []
    else
      var lines := ScanLines(data.value);
      match FirstCpuLine(lines)
      case None => []
      case Some(k) =>
        CpuFields(lines[k]);
        var fs := Fields(lines[k])[1..];
        seq(|fs|, i requires 0 <= i < |fs| => ParseUint(fs[i]))
  }

  // ---------------------------------------------------------------------------
  // /proc/meminfo

  /** A meminfo line with at least two fields: its key without a trailing ':' and its kB value in bytes, wrapping as uint64. */
  function Entry(line: string): (e: Option<(string, nat)>)
    ensures e.Some? <==> |Fields(line)| >= 2
    ensures e.Some? ==> e.value.1 < Uint64Modulus
    ensures e.Some? ==> e.value.0 == TrimSuffix(Fields(line)[0], ":")
    ensures e.Some? ==> e.value.1 == (ParseUint(Fields(line)[1]) * 1024) % Uint64Modulus
  {
    var parts := Fields(line);
    if |parts| >= 2 then Some((TrimSuffix(parts[0], ":"), (ParseUint(parts[1]) * 1024) % Uint64Modulus))
    else None
  }

  /** The entries of a file's lines, one per line (None for a line with fewer than two fields). */
  function Entries(lines: seq<string>): (es: seq<Option<(string, nat)>>)
    ensures |es| == |lines| && forall i :: 0 <= i < |lines| ==> es[i] == Entry(lines[i])
  {
    seq(|lines|, i requires 0 <= i < |lines| => Entry(lines[i]))
  }

  /** The key-value map memInfo builds: each entry in order, a later key overwriting an earlier one. */
  function Kv(es: seq<Option<(string, nat)>>): (kv: map<string, nat>)
    decreases |es|
  {
    if es == [] then map[]
    else
      var kv := Kv(es[..|es| - 1]);
      match es[|es| - 1]
      case None => kv
      case Some((k, v)) => kv[k := v]
  }

  predicate KeyedAt(es: seq<Option<(string, nat)>>, i: int, k: string)
    requires 0 <= i < |es|
  {
    es[i].Some? && es[i].value.0 == k
  }

  /** The entry at `i` is the last one keyed `k`. */
  predicate LastKeyedAt(es: seq<Option<(string, nat)>>, i: int, k: string)
    requires 0 <= i < |es|
  {
    KeyedAt(es, i, k) && forall j :: i < j < |es| ==> !KeyedAt(es, j, k)
  }

  /** A key is in the map exactly when some entry has it. */
  lemma {:induction false} KvKeys(es: seq<Option<(string, nat)>>, k: string)
    ensures k in Kv(es) <==> exists i :: 0 <= i < |es| && KeyedAt(es, i, k)
    decreases |es|
  {
    if es != [] {
      var n := |es| - 1;
      if KeyedAt(es, n, k) {
        KvLast(es, k);
      } else {
        KvKeys(es[..n], k);
        KvKeysOther(es, k);
      }
    }
  }

  /** A last entry keyed `k` puts its value under `k`. */
  lemma KvLast(es: seq<Option<(string, nat)>>, k: string)
    requires es != [] && KeyedAt(es, |es| - 1, k)
    ensures k in Kv(es) && Kv(es)[k] == es[|es| - 1].value.1
  {
  }

  /** The inductive step of KvKeys when the last entry is not keyed `k`. */
  lemma KvKeysOther(es: seq<Option<(string, nat)>>, k: string)
    requires es != [] && !KeyedAt(es, |es| - 1, k)
    requires var init := es[..|es| - 1];
      k in Kv(init) <==> exists i :: 0 <= i < |init| && KeyedAt(init, i, k)
    ensures k in Kv(es) <==> exists i :: 0 <= i < |es| && KeyedAt(es, i, k)
  {
    var n := |es| - 1;
    var init := es[..n];
    KeyedPrefix(es, k);
    KvOther(es, k);
    if k in Kv(es) {
      var i :| 0 <= i < n && KeyedAt(init, i, k);
      assert KeyedAt(es, i, k);
    }
    if exists i :: 0 <= i < |es| && KeyedAt(es, i, k) {
      var i :| 0 <= i < |es| && KeyedAt(es, i, k);
      assert i < n && KeyedAt(init, i, k);
    }
  }

  /** The prefix without the last entry has the same keyed entries below it. */
  lemma KeyedPrefix(es: seq<Option<(string, nat)>>, k: string)
    requires es != []
    ensures forall i :: 0 <= i < |es| - 1 ==> KeyedAt(es[..|es| - 1], i, k) == KeyedAt(es, i, k)
  {
    var init := es[..|es| - 1];
    forall i | 0 <= i < |es| - 1 ensures KeyedAt(init, i, k) == KeyedAt(es, i, k) {
      assert init[i] == es[i];
    }
  }

  /** A last entry not keyed `k` leaves `k`'s entry as it was. */
  lemma KvOther(es: seq<Option<(string, nat)>>, k: string)
    requires es != [] && !KeyedAt(es, |es| - 1, k)
    ensures k in Kv(es) <==> k in Kv(es[..|es| - 1])
    ensures k in Kv(es) ==> Kv(es)[k] == Kv(es[..|es| - 1])[k]
  {
  }

  /** A key's value is that of the last entry that has it. */
  lemma {:induction false} KvLastWins(es: seq<Option<(string, nat)>>, k: string, i: nat)
    requires i < |es| && LastKeyedAt(es, i, k)
    ensures k in Kv(es) && Kv(es)[k] == es[i].value.1
    decreases |es|
  {
    var n := |es| - 1;
    if i < n {
      var init := es[..n];
      KeyedPrefix(es, k);
      assert KeyedAt(init, i, k) == KeyedAt(es, i, k);
      forall j | i < j < n ensures !KeyedAt(init, j, k) {
        assert KeyedAt(init, j, k) == KeyedAt(es, j, k);
      }
      assert LastKeyedAt(init, i, k);
      KvLastWins(init, k, i);
      KvOther(es, k);
    }
  }

  function Lookup(kv: map<string, nat>, k: string): nat {
    if k in kv then kv[k] else 0
  }

  /** Used and total memory in bytes; the percentage is left out. */
  datatype Mem = Mem(used: nat, total: nat)

  /**
    memInfo after the read: MemTotal and MemAvailable from the map; no total
    (or a zero one) reads as nothing used of nothing, and used is the
    uint64 difference, which wraps if MemAvailable exceeds MemTotal.
   */
  function MemOf(kv: map<string, nat>): (r: Mem)
    requires forall k :: k in kv ==> kv[k] < Uint64Modulus
    ensures r.total == Lookup(kv, "MemTotal")
    ensures r.total == 0 ==> r.used == 0
    ensures r.used < Uint64Modulus
    ensures var avail := Lookup(kv, "MemAvailable");
      && (0 < r.total && avail <= r.total ==> r.used + avail == r.total)
      && (avail > r.total > 0 ==> r.used == r.total + Uint64Modulus - avail)
  {
    var total := Lookup(kv, "MemTotal");
    var avail := Lookup(kv, "MemAvailable");
    if total == 0 then Mem(0, 0)
    else Mem((total - avail) % Uint64Modulus, total)
  }

  /** memInfo: nothing when /proc/meminfo cannot be read, else MemOf of its lines' map. */
  function MemInfo(data: Option<string>): (r: Mem)
    ensures data.None? ==> r == Mem(0, 0)
    ensures r.total < Uint64Modulus && r.used < Uint64Modulus
  {
    if data.None? then Mem(0, 0)
    else
      var es := Entries(ScanLines(data.value));
      KvBounded(es);
      MemOf(Kv(es))
  }

  /** The total memInfo reports is the value of the last MemTotal line. */
  lemma MemTotalFromLastLine(data: string, i: nat)
    requires var es := Entries(ScanLines(data)); i < |es| && LastKeyedAt(es, i, "MemTotal")
    ensures MemInfo(Some(data)).total == Entry(ScanLines(data)[i]).value.1
  {
    KvLastWins(Entries(ScanLines(data)), "MemTotal", i);
  }

  /** Without a MemTotal line memInfo reports nothing used of nothing. */
  lemma NoMemTotal(data: string)
    requires var es := Entries(ScanLines(data)); forall i :: 0 <= i < |es| ==> !KeyedAt(es, i, "MemTotal")
    ensures MemInfo(Some(data)) == Mem(0, 0)
  {
    KvKeys(Entries(ScanLines(data)), "MemTotal");
  }

  /** Every value in the map is a uint64. */
  lemma {:induction false} KvBounded(es: seq<Option<(string, nat)>>)
    requires forall i :: 0 <= i < |es| && es[i].Some? ==> es[i].value.1 < Uint64Modulus
    ensures forall k :: k in Kv(es) ==> Kv(es)[k] < Uint64Modulus
    decreases |es|
  {
    if es != [] {
      KvBounded(es[..|es| - 1]);
    }
  }
}

/**
  The subset of Go's `strings` and `strconv` packages the server relies on.

  A Go string is a sequence of bytes; here each `char` stands for one byte.
  Only ASCII white space counts as space (Go also trims the Unicode spaces).
 */
module GoStrings {

  /** The largest value of Go's `uint64`. */
  const MaxUint64: nat := 0xFFFF_FFFF_FFFF_FFFF

  /** The bytes `strings.TrimSpace` and `strings.Fields` treat as white space. */
  predicate IsSpace(c: char) {
    c == ' ' || c == '\t' || c == '\n' || c == '\U{B}' || c == '\U{C}' || c == '\r'
  }

  predicate IsDigit(c: char) {
    '0' <= c <= '9'
  }

  predicate NoSpace(w: string) {
    forall i :: 0 <= i < |w| ==> !IsSpace(w[i])
  }

  predicate AllDigits(s: string) {
    forall i :: 0 <= i < |s| ==> IsDigit(s[i])
  }

  // ---------------------------------------------------------------------------
  // Prefixes and suffixes

  /** strings.HasPrefix */
  predicate HasPrefix(s: string, p: string) {
    p <= s
  }

  /** strings.HasSuffix */
  predicate HasSuffix(s: string, p: string) {
    |p| <= |s| && s[|s| - |p|..] == p
  }

  /** strings.TrimPrefix: drops `p` once when `s` starts with it. */
  function TrimPrefix(s: string, p: string): (r: string)
    ensures HasPrefix(s, p) ==> p + r == s
    ensures !HasPrefix(s, p) ==> r == s
  {
    if HasPrefix(s, p) then s[|p|..] else s
  }

  /** strings.TrimSuffix: drops `p` once when `s` ends with it. */
  function TrimSuffix(s: string, p: string): (r: string)
    ensures HasSuffix(s, p) ==> r + p == s
    ensures !HasSuffix(s, p) ==> r == s
  {
    if HasSuffix(s, p) then s[..|s| - |p|] else s
  }

  // ---------------------------------------------------------------------------
  // Trimming by a byte predicate

  /** strings.TrimLeftFunc: the longest suffix of `s` not starting with an `f` byte. */
  function TrimLeftFunc(s: string, f: char -> bool): (r: string)
    ensures |r| <= |s| && r == s[|s| - |r|..]
    ensures r == [] || !f(r[0])
  {
    if s != [] && f(s[0]) then TrimLeftFunc(s[1..], f) else s
  }

  /** Every byte TrimLeftFunc cuts off is an `f` byte, so no longer suffix qualifies. */
  lemma {:induction false} TrimLeftFuncCuts(s: string, f: char -> bool)
    ensures forall i :: 0 <= i < |s| - |TrimLeftFunc(s, f)| ==> f(s[i])
    decreases |s|
  {
    if s != [] && f(s[0]) {
      TrimLeftFuncCuts(s[1..], f);
      forall i | 0 < i < |s| - |TrimLeftFunc(s, f)|
        ensures f(s[i])
      {
        assert s[i] == s[1..][i - 1];
      }
    }
  }

  /** strings.TrimRightFunc: the longest prefix of `s` not ending with an `f` byte. */
  function TrimRightFunc(s: string, f: char -> bool): (r: string)
    ensures |r| <= |s| && r == s[..|r|]
    ensures r == [] || !f(r[|r| - 1])
  {
    if s != [] && f(s[|s| - 1]) then TrimRightFunc(s[..|s| - 1], f) else s
  }

  /** Every byte TrimRightFunc cuts off is an `f` byte, so no longer prefix qualifies. */
  lemma {:induction false} TrimRightFuncCuts(s: string, f: char -> bool)
    ensures forall i :: |TrimRightFunc(s, f)| <= i < |s| ==> f(s[i])
    decreases |s|
  {
    if s != [] && f(s[|s| - 1]) {
      TrimRightFuncCuts(s[..|s| - 1], f);
      forall i | |TrimRightFunc(s, f)| <= i < |s| - 1
        ensures f(s[i])
      {
        assert s[i] == s[..|s| - 1][i];
      }
    }
  }

  function TrimFunc(s: string, f: char -> bool): string {
    TrimRightFunc(TrimLeftFunc(s, f), f)
  }

  /** strings.TrimSpace */
  function TrimSpace(s: string): string {
    TrimFunc(s, IsSpace)
  }

  /** strings.Trim with a one-byte cut set. */
  function Trim(s: string, c: char): string {
    TrimFunc(s, x => x == c)
  }

  /** strings.TrimRight with a one-byte cut set. */
  function TrimRight(s: string, c: char): string {
    TrimRightFunc(s, x => x == c)
  }

  /** Trimming a string whose end bytes are both kept changes nothing. */
  lemma TrimFuncKeeps(s: string, f: char -> bool)
    requires s != [] && !f(s[0]) && !f(s[|s| - 1])
    ensures TrimLeftFunc(s, f) == s && TrimRightFunc(s, f) == s && TrimFunc(s, f) == s
  {
  }

  /** strings.TrimSpace is idempotent: its result has no outer white space left. */
  lemma TrimSpaceIdempotent(s: string)
    ensures TrimSpace(TrimSpace(s)) == TrimSpace(s)
  {
    var l, t := TrimLeftFunc(s, IsSpace), TrimSpace(s);
    if t != [] {
      assert t[0] == l[0];
      TrimFuncKeeps(t, IsSpace);
    }
  }

  /** strings.Trim of a string with a cut byte only in front removes exactly that byte. */
  lemma TrimOneLeading(s: string, c: char)
    requires s != [] && s[0] != c && s[|s| - 1] != c
    ensures Trim(s, c) == s && Trim([c] + s, c) == s
  {
    assert ([c] + s)[1..] == s;
  }

  /** strings.TrimRight drops one cut byte after a string that ends in a kept byte. */
  lemma TrimRightOneTrailing(s: string, c: char)
    requires s != [] && s[|s| - 1] != c
    ensures TrimRight(s, c) == s && TrimRight(s + [c], c) == s
  {
    assert (s + [c])[..|s|] == s;
  }

  // ---------------------------------------------------------------------------
  // Splitting and joining on one separator byte

  /** The position of the first `c` in `s`. */
  function IndexOf(s: string, c: char): (i: nat)
    requires c in s
    ensures i < |s| && s[i] == c && c !in s[..i]
  {
    if s[0] == c then 0
    else
      var j := IndexOf(s[1..], c);
      assert s[..j + 1] == [s[0]] + s[1..][..j];
      j + 1
  }

  /** strings.Split with a one-byte separator: the pieces between separators, in order. */
  function Split(s: string, sep: char): (parts: seq<string>)
    ensures |parts| >= 1
    ensures forall i :: 0 <= i < |parts| ==> sep !in parts[i]
    decreases |s|
  {
    if sep !in s then [s]
    else
      var i := IndexOf(s, sep);
      [s[..i]] + Split(s[i + 1..], sep)
  }

  /** strings.Join with a one-byte separator. */
  function Join(parts: seq<string>, sep: char): string {
    if |parts| == 0 then ""
    else if |parts| == 1 then parts[0]
    else parts[0] + [sep] + Join(parts[1..], sep)
  }

  /** A join of non-empty parts starts with the first part's first byte and ends with the last part's last byte. */
  lemma {:induction false} JoinEnds(parts: seq<string>, sep: char)
    requires |parts| >= 1 && forall i :: 0 <= i < |parts| ==> parts[i] != ""
    ensures var j := Join(parts, sep);
      && |j| > 0 && j[0] == parts[0][0]
      && j[|j| - 1] == parts[|parts| - 1][|parts[|parts| - 1]| - 1]
    decreases |parts|
  {
    if |parts| > 1 {
      JoinEnds(parts[1..], sep);
      var rest := Join(parts[1..], sep);
      assert Join(parts, sep) == parts[0] + [sep] + rest;
    }
  }

  lemma IndexOfFirst(a: string, sep: char, b: string)
    requires sep !in a
    ensures sep in a + [sep] + b
    ensures IndexOf(a + [sep] + b, sep) == |a|
  {
    var s := a + [sep] + b;
    assert s[|a|] == sep;
  }

  lemma SplitAt(a: string, sep: char, b: string)
    requires sep !in a
    ensures Split(a + [sep] + b, sep) == [a] + Split(b, sep)
  {
    var s := a + [sep] + b;
    IndexOfFirst(a, sep, b);
    assert s[..|a|] == a;
    assert s[|a| + 1..] == b;
  }

  lemma FirstSep(a: string, x: string, sep: char)
    requires sep !in a
    ensures (a + [sep] + x)[|a|] == sep
    ensures forall k :: 0 <= k < |a| ==> (a + [sep] + x)[k] != sep
  {
    assert forall k :: 0 <= k < |a| ==> (a + [sep] + x)[k] == a[k];
  }

  /** For separator-free heads, `b` sep `y` is a prefix of `a` sep `x` only when the heads agree. */
  lemma HeadPrefix(a: string, x: string, b: string, y: string, sep: char)
    requires sep !in a && sep !in b
    ensures (b + [sep] + y <= a + [sep] + x) <==> (a == b && y <= x)
  {
    var l, r := b + [sep] + y, a + [sep] + x;
    if l <= r {
      FirstSep(a, x, sep);
      FirstSep(b, y, sep);
      assert r[|b|] == l[|b|] == sep;
      assert |b| >= |a|;
      assert l[|a|] == r[|a|] == sep;
      assert a == r[..|a|] == l[..|b|] == b;
      assert forall k :: 0 <= k < |y| ==> y[k] == l[|b| + 1 + k] == r[|a| + 1 + k] == x[k];
    }
  }

  lemma JoinCons(a: string, rest: seq<string>, sep: char)
    requires |rest| >= 1
    ensures Join([a] + rest, sep) == a + [sep] + Join(rest, sep)
  {
    assert ([a] + rest)[1..] == rest;
  }

  /** Joining the pieces of a split gives the original string back. */
  lemma {:induction false} JoinSplit(s: string, sep: char)
    ensures Join(Split(s, sep), sep) == s
    decreases |s|
  {
    if sep in s {
      var i := IndexOf(s, sep);
      var a, b := s[..i], s[i + 1..];
      assert s == a + [sep] + b;
      SplitAt(a, sep, b);
      JoinSplit(b, sep);
      JoinCons(a, Split(b, sep), sep);
    }
  }

  /** Splitting a join of separator-free pieces gives the pieces back. */
  lemma {:induction false} SplitJoin(parts: seq<string>, sep: char)
    requires |parts| >= 1
    requires forall i :: 0 <= i < |parts| ==> sep !in parts[i]
    ensures Split(Join(parts, sep), sep) == parts
    decreases |parts|
  {
    if |parts| > 1 {
      var tail := Join(parts[1..], sep);
      SplitJoin(parts[1..], sep);
      var s := parts[0] + [sep] + tail;
      assert Join(parts, sep) == s;
      IndexOfFirst(parts[0], sep, tail);
      SplitAt(parts[0], sep, tail);
      assert parts == [parts[0]] + parts[1..];
    }
  }

  // ---------------------------------------------------------------------------
  // Fields

  /** The length of the longest space-free prefix of `s`. */
  function WordLen(s: string): (n: nat)
    ensures n <= |s|
    ensures forall i :: 0 <= i < n ==> !IsSpace(s[i])
    ensures n == |s| || IsSpace(s[n])
  {
    if s == [] || IsSpace(s[0]) then 0 else 1 + WordLen(s[1..])
  }

  /** strings.Fields: the maximal runs of non-space bytes, in order. */
  function Fields(s: string): (fs: seq<string>)
    ensures forall i :: 0 <= i < |fs| ==> |fs[i]| > 0 && NoSpace(fs[i])
    decreases |s|
  {
    if s == [] then []
    else if IsSpace(s[0]) then Fields(s[1..])
    else
      var n := WordLen(s);
      [s[..n]] + Fields(s[n..])
  }

  lemma {:induction false} WordLenOfWord(w: string, rest: string)
    requires NoSpace(w)
    requires rest == [] || IsSpace(rest[0])
    ensures WordLen(w + rest) == |w|
    decreases |w|
  {
    if w == [] {
      assert w + rest == rest;
    } else {
      assert (w + rest)[0] == w[0];
      assert (w + rest)[1..] == w[1..] + rest;
      WordLenOfWord(w[1..], rest);
    }
  }

  /** Fields undoes a single-space join of non-empty space-free words. */
  lemma {:induction false} FieldsOfJoin(ws: seq<string>)
    requires forall i :: 0 <= i < |ws| ==> |ws[i]| > 0 && NoSpace(ws[i])
    ensures Fields(Join(ws, ' ')) == ws
    decreases |ws|
  {
    if |ws| == 1 {
      WordLenOfWord(ws[0], "");
      assert ws[0] + "" == ws[0];
      assert ws[0][|ws[0]|..] == [];
    } else if |ws| > 1 {
      var tail := Join(ws[1..], ' ');
      var s := ws[0] + [' '] + tail;
      FieldsOfJoin(ws[1..]);
      WordLenOfWord(ws[0], [' '] + tail);
      assert s == ws[0] + ([' '] + tail);
      assert s[0] == ws[0][0];
      assert s[..|ws[0]|] == ws[0];
      assert s[|ws[0]|..] == [' '] + tail;
      assert ([' '] + tail)[1..] == tail;
      assert ws == [ws[0]] + ws[1..];
    }
  }

  // ---------------------------------------------------------------------------
  // Decimal formatting (fmt's %d) and strconv.ParseUint(s, 10, 64)

  function DigitChar(d: nat): (c: char)
    requires d < 10
    ensures IsDigit(c)
  {
    (48 + d) as char
  }

  function DigitValue(c: char): (d: nat)
    requires IsDigit(c)
    ensures d < 10
  {
    (c as int) - 48
  }

  /** The decimal digits of `n`, without leading zeros. */
  function FormatNat(n: nat): (r: string)
    ensures |r| >= 1 && AllDigits(r)
    ensures r[0] == '0' ==> r == "0"
    decreases n
  {
    if n < 10 then [DigitChar(n)] else FormatNat(n / 10) + [DigitChar(n % 10)]
  }

  /** fmt's %d of a signed integer. */
  function FormatInt(n: int): (r: string)
    ensures n >= 0 ==> r == FormatNat(n)
    ensures n < 0 ==> r == "-" + FormatNat(-n)
  {
    if n < 0 then "-" + FormatNat(-n) else FormatNat(n)
  }

  /** The value of a digit string read left to right, starting from `acc`. */
  function DecimalFrom(acc: nat, s: string): nat
    requires AllDigits(s)
    decreases |s|
  {
    if s == [] then acc else DecimalFrom(acc * 10 + DigitValue(s[0]), s[1..])
  }

  /**
    strconv.ParseUint(s, 10, 64) with its error dropped, as the server does:
    0 for the empty string or at the first non-digit, and the largest uint64 as
    soon as the digits read so far overflow.
   */
  function ParseUintFrom(acc: nat, s: string): (v: nat)
    requires acc <= MaxUint64
    ensures v <= MaxUint64
    decreases |s|
  {
    if s == [] then acc
    else if !IsDigit(s[0]) then 0
    else
      var n := acc * 10 + DigitValue(s[0]);
      if n > MaxUint64 then MaxUint64 else ParseUintFrom(n, s[1..])
  }

  function ParseUint(s: string): (v: nat)
    ensures v <= MaxUint64
  {
    if s == [] then 0 else ParseUintFrom(0, s)
  }

  lemma {:induction false} DecimalFromGrows(acc: nat, s: string)
    requires AllDigits(s)
    ensures DecimalFrom(acc, s) >= acc
    decreases |s|
  {
    if s != [] {
      DecimalFromGrows(acc * 10 + DigitValue(s[0]), s[1..]);
    }
  }

  lemma {:induction false} DecimalFromAppend(acc: nat, s: string, c: char)
    requires AllDigits(s) && IsDigit(c)
    ensures AllDigits(s + [c])
    ensures DecimalFrom(acc, s + [c]) == DecimalFrom(acc, s) * 10 + DigitValue(c)
    decreases |s|
  {
    assert AllDigits(s + [c]) by {
      forall i | 0 <= i < |s + [c]| ensures IsDigit((s + [c])[i]) {
        if i < |s| { assert (s + [c])[i] == s[i]; }
      }
    }
    if s != [] {
      assert (s + [c])[1..] == s[1..] + [c];
      DecimalFromAppend(acc * 10 + DigitValue(s[0]), s[1..], c);
    } else {
      assert [] + [c] == [c];
    }
  }

  /** A digit string whose value fits in a uint64 parses to that value. */
  lemma {:induction false} ParseUintFromDigits(acc: nat, s: string)
    requires AllDigits(s) && acc <= MaxUint64 && DecimalFrom(acc, s) <= MaxUint64
    ensures ParseUintFrom(acc, s) == DecimalFrom(acc, s)
    decreases |s|
  {
    if s != [] {
      var n := acc * 10 + DigitValue(s[0]);
      DecimalFromGrows(n, s[1..]);
      ParseUintFromDigits(n, s[1..]);
    }
  }

  lemma {:induction false} DecimalOfFormat(n: nat)
    ensures DecimalFrom(0, FormatNat(n)) == n
    decreases n
  {
    if n >= 10 {
      DecimalOfFormat(n / 10);
      DecimalFromAppend(0, FormatNat(n / 10), DigitChar(n % 10));
    }
  }

  /** ParseUint reads back what %d wrote, for every uint64. */
  lemma ParseUintOfFormat(n: nat)
    requires n <= MaxUint64
    ensures ParseUint(FormatNat(n)) == n
  {
    DecimalOfFormat(n);
    ParseUintFromDigits(0, FormatNat(n));
  }

  // ---------------------------------------------------------------------------
  // Byte-wise ordering (Go's < on strings)

  predicate LexLess(a: string, b: string) {
    if a == [] then b != []
    else b != [] && (a[0] < b[0] || (a[0] == b[0] && LexLess(a[1..], b[1..])))
  }

  lemma {:induction false} LexLessIrreflexive(a: string)
    ensures !LexLess(a, a)
    decreases |a|
  {
    if a != [] { LexLessIrreflexive(a[1..]); }
  }

  lemma {:induction false} LexLessTransitive(a: string, b: string, c: string)
    requires LexLess(a, b) && LexLess(b, c)
    ensures LexLess(a, c)
    decreases |a|
  {
    if a != [] && a[0] == b[0] && b[0] == c[0] {
      LexLessTransitive(a[1..], b[1..], c[1..]);
    }
  }

  lemma {:induction false} LexLessTotal(a: string, b: string)
    requires a != b
    ensures LexLess(a, b) || LexLess(b, a)
    decreases |a|
  {
    if a != [] && b != [] && a[0] == b[0] {
      assert a == [a[0]] + a[1..] && b == [b[0]] + b[1..];
      LexLessTotal(a[1..], b[1..]);
    }
  }

  // ---------------------------------------------------------------------------
  // %q

  function HexDigit(d: nat): char
    requires d < 16
  {
    if d < 10 then (48 + d) as char else (87 + d) as char
  }

  /** One byte as strconv.Quote writes it. */
  function QuoteChar(c: char): string {
    if c == '"' then "\\\""
    else if c == '\\' then "\\\\"
    else if c == '\U{7}' then "\\a"
    else if c == '\U{8}' then "\\b"
    else if c == '\U{C}' then "\\f"
    else if c == '\n' then "\\n"
    else if c == '\r' then "\\r"
    else if c == '\t' then "\\t"
    else if c == '\U{B}' then "\\v"
    else if c < ' ' || c == '\U{7F}' then "\\x" + [HexDigit(c as int / 16), HexDigit(c as int % 16)]
    else [c]
  }

  function QuoteBody(s: string): string {
    if s == [] then "" else QuoteChar(s[0]) + QuoteBody(s[1..])
  }

  /** fmt's %q of a string. */
  function Quote(s: string): string {
    "\"" + QuoteBody(s) + "\""
  }

  /** Printable ASCII other than the quote and the backslash. */
  predicate PlainChar(c: char) {
    ' ' <= c <= '~' && c != '"' && c != '\\'
  }

  /** A string of plain bytes is quoted by surrounding it with double quotes. */
  lemma {:induction false} QuotePlain(s: string)
    requires forall i :: 0 <= i < |s| ==> PlainChar(s[i])
    ensures Quote(s) == "\"" + s + "\""
  {
    QuoteBodyPlain(s);
  }

  lemma {:induction false} QuoteBodyPlain(s: string)
    requires forall i :: 0 <= i < |s| ==> PlainChar(s[i])
    ensures QuoteBody(s) == s
    decreases |s|
  {
    if s != [] {
      QuoteBodyPlain(s[1..]);
      assert s == [s[0]] + s[1..];
    }
  }
}

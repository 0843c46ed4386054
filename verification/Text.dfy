/** Decimal numbers and path names as byte strings: what `printf`, `sscanf`, `strtoll` and
    `basename` do with them. */
module Text {
  import opened Bytes
  import opened Lpxstd

  const NUL: Byte := 0
  const NEWLINE: Byte := 10
  const PLUS: Byte := 43
  const COMMA: Byte := 44
  const MINUS: Byte := 45
  const DOT: Byte := 46
  const SLASH: Byte := 47
  const ZERO: Byte := 48

  predicate IsDigit(b: Byte) { 48 <= b <= 57 }

  predicate IsSpace(b: Byte) { b == 32 || 9 <= b <= 13 }

  // ---------------------------------------------------------------- decimal numbers

  function Pow10(k: nat): (p: nat)
    ensures p >= 1
  {
    if k == 0 then 1 else 10 * Pow10(k - 1)
  }

  function Digits(n: nat): (s: seq<Byte>)
    ensures |s| >= 1
    ensures forall i :: 0 <= i < |s| ==> IsDigit(s[i])
  {
    if n < 10 then [ZERO as int + n] else Digits(n / 10) + [ZERO as int + n % 10]
  }

  /** The `%ld` conversion of `printf`. */
  function PrintInt(x: int): (s: seq<Byte>)
    ensures |s| >= 1
    ensures forall i :: 0 <= i < |s| ==> IsDigit(s[i]) || s[i] == MINUS
  {
    if x < 0 then [MINUS] + Digits(-x) else Digits(x)
  }

  function SkipSpaces(s: seq<Byte>): seq<Byte>
  {
    if s != [] && IsSpace(s[0]) then SkipSpaces(s[1..]) else s
  }

  function ScanDigits(s: seq<Byte>, acc: nat): (r: (nat, seq<Byte>))
    ensures |r.1| <= |s|
  {
    if s != [] && IsDigit(s[0]) then ScanDigits(s[1..], acc * 10 + (s[0] - ZERO)) else (acc, s)
  }

  datatype Scan = NoMatch | Match(value: int, rest: seq<Byte>)

  /** `strtoll` in base 10, which `%ld` of `sscanf` follows: spaces, a sign, digits; values outside
      the 64-bit range become the nearest extreme. */
  function ScanInt(s: seq<Byte>): (r: Scan)
    ensures r.Match? ==> IsInt64(r.value) && |r.rest| < |s|
  {
    SkipSpacesLength(s);
    var t := SkipSpaces(s);
    var signed := t != [] && (t[0] == MINUS || t[0] == PLUS);
    var u := if signed then t[1..] else t;
    if u == [] || !IsDigit(u[0]) then NoMatch
    else
      var (n, rest) := ScanDigits(u[1..], u[0] - ZERO);
      if signed && t[0] == MINUS then Match(if n > TWO63 then -TWO63 else -(n as int), rest)
      else Match(if n >= TWO63 then TWO63 - 1 else n, rest)
  }

  lemma {:induction false} SkipSpacesLength(s: seq<Byte>)
    ensures |SkipSpaces(s)| <= |s|
  {
    if s != [] && IsSpace(s[0]) {
      SkipSpacesLength(s[1..]);
    }
  }

  lemma {:induction false} ScanDigitsReads(n: nat, t: seq<Byte>)
    ensures ScanDigits(Digits(n) + t, 0) == ScanDigits(t, n)
  {
    if n < 10 {
      assert (Digits(n) + t)[1..] == t;
    } else {
      var d: seq<Byte> := [ZERO as int + n % 10];
      ScanDigitsReads(n / 10, d + t);
      assert Digits(n) + t == Digits(n / 10) + (d + t);
      assert (d + t)[1..] == t;
    }
  }

  /** The nearest 64-bit number. */
  function Clamp64(x: int): int
  {
    if x < -TWO63 then -TWO63 else if x >= TWO63 then TWO63 - 1 else x
  }

  lemma ScanDigitsFirst(n: nat, t: seq<Byte>)
    requires t == [] || !IsDigit(t[0])
    ensures var u := Digits(n) + t;
            IsDigit(u[0]) && ScanDigits(u[1..], u[0] - ZERO) == (n, t)
  {
    var u := Digits(n) + t;
    ScanDigitsReads(n, t);
    assert ScanDigits(u, 0) == ScanDigits(u[1..], u[0] - ZERO);
  }

  lemma ScanNatReads(n: nat, t: seq<Byte>)
    requires t == [] || !IsDigit(t[0])
    ensures ScanInt(Digits(n) + t) == Match(Clamp64(n), t)
  {
    var u := Digits(n) + t;
    ScanDigitsFirst(n, t);
    assert SkipSpaces(u) == u;
  }

  lemma ScanNegativeReads(n: nat, t: seq<Byte>)
    requires t == [] || !IsDigit(t[0])
    ensures ScanInt([MINUS] + Digits(n) + t) == Match(Clamp64(-(n as int)), t)
  {
    var u, v := Digits(n) + t, [MINUS] + Digits(n) + t;
    ScanDigitsFirst(n, t);
    assert SkipSpaces(v) == v && v[1..] == u;
  }

  /** Scanning a printed number of any size gives the nearest 64-bit number, so most often the number
      itself, and stops right behind it. */
  lemma ScanIntReads(x: int, t: seq<Byte>)
    requires t == [] || !IsDigit(t[0])
    ensures ScanInt(PrintInt(x) + t) == Match(Clamp64(x), t)
  {
    if x < 0 {
      ScanNegativeReads(-x, t);
    } else {
      ScanNatReads(x, t);
    }
  }

  /** White space in front of a number is skipped. */
  lemma ScanSkipsSpace(b: Byte, s: seq<Byte>)
    requires IsSpace(b)
    ensures SkipSpaces([b] + s) == SkipSpaces(s)
    ensures ScanInt([b] + s) == ScanInt(s)
  {
    assert ([b] + s)[1..] == s;
  }

  /** And so is a plus sign. */
  lemma ScanSkipsPlus(n: nat, t: seq<Byte>)
    requires t == [] || !IsDigit(t[0])
    ensures ScanInt([PLUS] + Digits(n) + t) == Match(Clamp64(n), t)
  {
    var u, v := Digits(n) + t, [PLUS] + Digits(n) + t;
    ScanDigitsFirst(n, t);
    assert SkipSpaces(v) == v && v[1..] == u;
  }

  lemma {:induction false} DigitsLength(n: nat, k: nat)
    requires k >= 1
    ensures |Digits(n)| <= k <==> n < Pow10(k)
  {
    if n < 10 {
      if k > 1 {
        Pow10AtLeast10(k);
      }
    } else if k > 1 {
      DigitsLength(n / 10, k - 1);
    }
  }

  lemma Pow10AtLeast10(k: nat)
    requires k >= 1
    ensures Pow10(k) >= 10
  {
  }

  lemma Pow10Values()
    ensures Pow10(15) == 1_000_000_000_000_000
    ensures Pow10(19) == 10_000_000_000_000_000_000
  {
    assert Pow10(5) == 100_000;
    assert Pow10(10) == 10_000_000_000;
    assert Pow10(15) == 1_000_000_000_000_000;
  }

  lemma PrintIntLength(x: int)
    requires IsInt64(x)
    ensures |PrintInt(x)| <= 20
  {
    Pow10Values();
    DigitsLength(if x < 0 then -x else x, 19);
  }

  // ---------------------------------------------------------------- names and paths

  predicate IsName(s: seq<Byte>)
  {
    s != [] && forall i :: 0 <= i < |s| ==> s[i] != NUL && s[i] != SLASH
  }

  function AppendPath(base: seq<Byte>, child: seq<Byte>): seq<Byte>
  {
    base + [SLASH] + child
  }

  /** What follows the last slash. */
  function AfterLastSlash(s: seq<Byte>): (r: seq<Byte>)
    ensures |r| <= |s|
  {
    if s == [] || s[|s| - 1] == SLASH then [] else AfterLastSlash(s[..|s| - 1]) + [s[|s| - 1]]
  }

  function StripSlashes(s: seq<Byte>): (r: seq<Byte>)
  {
    if s != [] && s[|s| - 1] == SLASH then StripSlashes(s[..|s| - 1]) else s
  }

  /** The POSIX `basename`. */
  function Basename(path: seq<Byte>): seq<Byte>
  {
    if path == [] then [DOT]
    else
      var s := StripSlashes(path);
      if s == [] then [SLASH] else AfterLastSlash(s)
  }

  lemma {:induction false} AfterLastSlashOfName(base: seq<Byte>, name: seq<Byte>)
    requires forall i :: 0 <= i < |name| ==> name[i] != SLASH
    ensures AfterLastSlash(base + [SLASH] + name) == name
  {
    var s := base + [SLASH] + name;
    if name != [] {
      AfterLastSlashOfName(base, name[..|name| - 1]);
      assert s[..|s| - 1] == base + [SLASH] + name[..|name| - 1];
    }
  }

  lemma BasenameOfChild(base: seq<Byte>, name: seq<Byte>)
    requires IsName(name)
    ensures Basename(AppendPath(base, name)) == name
  {
    AfterLastSlashOfName(base, name);
  }

  /** What comes before the last slash. */
  function ParentOf(path: seq<Byte>): seq<Byte>
  {
    if path == [] then []
    else if path[|path| - 1] == SLASH then path[..|path| - 1]
    else ParentOf(path[..|path| - 1])
  }

  lemma {:induction false} ParentOfChild(base: seq<Byte>, name: seq<Byte>)
    requires forall i :: 0 <= i < |name| ==> name[i] != SLASH
    ensures ParentOf(AppendPath(base, name)) == base
  {
    var path := AppendPath(base, name);
    if name == [] {
      assert path[..|path| - 1] == base;
    } else {
      ParentOfChild(base, name[..|name| - 1]);
      assert path[..|path| - 1] == AppendPath(base, name[..|name| - 1]);
    }
  }

  /** `frame_path` prints the frame number as a signed long into sixteen bytes, one of them the
      terminator. */
  function FrameName(idx: nat): (s: seq<Byte>)
  {
    var p := PrintInt(ToInt64(idx));
    if |p| > 15 then p[..15] else p
  }

  lemma FrameNameIsName(idx: nat)
    ensures IsName(FrameName(idx))
  {
  }

  predicate Faithful(idx: nat)
  {
    ScanInt(FrameName(idx)) == Match(ToInt64(idx), []) && ToInt64(idx) == idx
  }

  /** The file name determines the frame number exactly up to fifteen digits. */
  lemma FrameNameFaithful(idx: nat)
    requires idx < TWO63
    ensures Faithful(idx) <==> idx < Pow10(15)
  {
    Pow10Values();
    DigitsLength(idx, 15);
    FitsInt64(idx);
    if idx < Pow10(15) {
      ScanIntReads(idx, []);
      assert PrintInt(idx) + [] == PrintInt(idx);
    } else {
      FirstDigitsAreSmaller(idx, 15);
      var m: nat :| m < idx && Digits(idx)[..15] == Digits(m);
      ScanIntReads(m, []);
      assert PrintInt(m) + [] == FrameName(idx);
    }
  }

  /** Cutting digits off leaves the number divided by a power of ten. */
  lemma {:induction false} FirstDigitsAreSmaller(n: nat, k: nat)
    requires 1 <= k < |Digits(n)|
    ensures exists m: nat :: m < n && Digits(n)[..k] == Digits(m)
  {
    assert n >= 10;
    if k == |Digits(n)| - 1 {
      assert Digits(n)[..k] == Digits(n / 10);
    } else {
      FirstDigitsAreSmaller(n / 10, k);
      assert Digits(n)[..k] == Digits(n / 10)[..k];
    }
  }

  /** Distinct numbers below 10^15 name distinct files. */
  lemma FrameNameInjective(i: nat, j: nat)
    requires i < Pow10(15) && j < Pow10(15) && FrameName(i) == FrameName(j)
    ensures i == j
  {
    Pow10Values();
    FrameNameFaithful(i);
    FrameNameFaithful(j);
  }

  /** Beyond that, names collide. The numbers that come here in this program stay below: those of stored
      frames are kept in 32 bits, and those looked up are positions in a list with a 32-bit size. */
  lemma FrameNameCollision()
    ensures Pow10(15) < TWO63
    ensures FrameName(Pow10(15)) == FrameName(Pow10(14))
  {
    Pow10Values();
    assert Pow10(15) == 10 * Pow10(14);
    FitsInt64(Pow10(15));
    FitsInt64(Pow10(14));
    DigitsLength(Pow10(14), 15);
    DigitsLength(Pow10(14), 14);
    assert Digits(Pow10(15)) == Digits(Pow10(14)) + [ZERO];
  }
}

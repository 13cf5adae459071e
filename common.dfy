/** Small building blocks shared by the backend model: optional values and
    results, the fixed-width unsigned integers the Rust code uses, the string
    operations of Rust's `str` that the handlers rely on (`trim`, `find`,
    `strip_prefix`) and the zero-padded decimal formatting of `format!("{:0N}")`. */
module Common {

  datatype Option<T> = None | Some(value: T) {
    function GetOr(default: T): T {
      if Some? then value else default
    }
  }

  datatype Result<T, E> = Ok(value: T) | Err(error: E)

  const U32_LIMIT: int := 0x1_0000_0000
  const U64_LIMIT: int := 0x1_0000_0000_0000_0000
  const U64_MAX: int := U64_LIMIT - 1

  type u32 = x: int | 0 <= x < U32_LIMIT
  type u64 = x: int | 0 <= x < U64_LIMIT

  /** Rust's `as u32` on a `u64`: keeps the low 32 bits. */
  function TruncateToU32(x: u64): (r: u32)
    ensures x < U32_LIMIT ==> r == x
    ensures exists k: nat :: k < U32_LIMIT && x == k * U32_LIMIT + r
  {
    var r := x % U32_LIMIT;
    assert x == (x / U32_LIMIT) * U32_LIMIT + r;
    r
  }

  // ---------------------------------------------------------------------
  // Whitespace and trimming (Rust's `char::is_whitespace` and `str::trim`)
  // ---------------------------------------------------------------------

  /** The characters with the Unicode White_Space property, which is what
      Rust's `str::trim` removes from both ends. */
  predicate IsWhitespace(c: char) {
    ('\t' <= c <= '\r') || c == ' ' || c == '\U{0085}' || c == '\U{00A0}' || c == '\U{1680}' ||
    ('\U{2000}' <= c <= '\U{200A}') || c == '\U{2028}' || c == '\U{2029}' || c == '\U{202F}' ||
    c == '\U{205F}' || c == '\U{3000}'
  }

  function TrimStart(s: string): (r: string)
    ensures |r| <= |s|
    ensures r == [] || !IsWhitespace(r[0])
  {
    if s != [] && IsWhitespace(s[0]) then TrimStart(s[1..]) else s
  }

  function TrimEnd(s: string): (r: string)
    ensures |r| <= |s|
    ensures r == [] || !IsWhitespace(r[|r| - 1])
  {
    if s != [] && IsWhitespace(s[|s| - 1]) then TrimEnd(s[..|s| - 1]) else s
  }

  /** `str::trim`: `s` without its leading and trailing whitespace. */
  function Trim(s: string): (r: string)
    ensures |r| <= |s|
    ensures r == [] || (!IsWhitespace(r[0]) && !IsWhitespace(r[|r| - 1]))
  {
    var a := TrimStart(s);
    TrimEndDropsWhitespace(a);
    TrimEnd(a)
  }

  lemma {:induction false} TrimStartDropsWhitespace(s: string)
    ensures TrimStart(s) == s[|s| - |TrimStart(s)|..]
    ensures forall i :: 0 <= i < |s| - |TrimStart(s)| ==> IsWhitespace(s[i])
  {
    if s != [] && IsWhitespace(s[0]) {
      TrimStartDropsWhitespace(s[1..]);
    }
  }

  lemma {:induction false} TrimEndDropsWhitespace(s: string)
    ensures TrimEnd(s) == s[..|TrimEnd(s)|]
    ensures forall i :: |TrimEnd(s)| <= i < |s| ==> IsWhitespace(s[i])
  {
    if s != [] && IsWhitespace(s[|s| - 1]) {
      TrimEndDropsWhitespace(s[..|s| - 1]);
    }
  }

  /** The trimmed string is the slice of `s` left after dropping whitespace
      from both ends, and only whitespace is dropped. */
  lemma TrimIsSlice(s: string)
    ensures exists lo, hi :: 0 <= lo <= hi <= |s| && Trim(s) == s[lo..hi] &&
              (forall i :: 0 <= i < lo ==> IsWhitespace(s[i])) &&
              (forall i :: hi <= i < |s| ==> IsWhitespace(s[i]))
  {
    var a := TrimStart(s);
    TrimStartDropsWhitespace(s);
    TrimEndDropsWhitespace(a);
    var r := TrimEnd(a);
    var lo := |s| - |a|;
    assert r == s[lo..lo + |r|];
    assert forall i :: lo + |r| <= i < |s| ==> s[i] == a[i - lo];
  }

  /** Concatenation is associative; stated on its own so that a proof can
      regroup one concatenation without the solver searching for it. */
  lemma ConcatAssoc<T>(a: seq<T>, b: seq<T>, c: seq<T>)
    ensures (a + b) + c == a + (b + c)
  {
  }

  // ---------------------------------------------------------------------
  // Searching and prefixes (`str::find`, `str::strip_prefix`)
  // ---------------------------------------------------------------------

  /** `c` does not occur in `s`. */
  predicate Lacks(s: string, c: char) {
    forall i :: 0 <= i < |s| ==> s[i] != c
  }

  /** `str::find(c)`: the position of the first occurrence of `c`, or `None`
      exactly when there is none. */
  function FirstIndexOf(s: string, c: char): (r: Option<nat>)
    ensures r.None? ==> Lacks(s, c)
    ensures r.Some? ==> r.value < |s| && s[r.value] == c
    ensures r.Some? ==> forall j :: 0 <= j < r.value ==> s[j] != c
  {
    if s == [] then None
    else if s[0] == c then Some(0)
    else
      match FirstIndexOf(s[1..], c)
      case None => None
      case Some(i) => Some(i + 1)
  }

  lemma {:induction false} FirstIndexOfSplit(line: string, c: char, rest: string)
    requires Lacks(line, c)
    ensures FirstIndexOf(line + [c] + rest, c) == Some(|line|)
  {
    var s := line + [c] + rest;
    assert s[..|line|] == line;
    assert s[|line|] == c;
  }

  lemma {:induction false} FirstIndexOfAppend(s: string, c: char, x: string)
    requires FirstIndexOf(s, c).Some?
    ensures FirstIndexOf(s + x, c) == FirstIndexOf(s, c)
  {
    var p := FirstIndexOf(s, c).value;
    assert (s + x)[p] == c;
  }

  predicate HasPrefix(prefix: string, s: string) {
    |prefix| <= |s| && s[..|prefix|] == prefix
  }

  /** `str::strip_prefix`. */
  function StripPrefix(s: string, prefix: string): (r: Option<string>)
    ensures r.Some? <==> HasPrefix(prefix, s)
    ensures r.Some? ==> s == prefix + r.value
  {
    if HasPrefix(prefix, s) then Some(s[|prefix|..]) else None
  }

  // ---------------------------------------------------------------------
  // Decimal formatting with zero padding (`format!("{:0N}", n)`)
  // ---------------------------------------------------------------------

  predicate IsDigit(c: char) { '0' <= c <= '9' }

  predicate AllDigits(s: string) { forall i :: 0 <= i < |s| ==> IsDigit(s[i]) }

  function DigitChar(d: nat): (c: char)
    requires d < 10
    ensures IsDigit(c) && c as int - '0' as int == d
  {
    (('0' as int) + d) as char
  }

  /** The value of a string of decimal digits; the reference against which
      the formatting functions below are proved. */
  function DecimalValue(s: string): nat
    requires AllDigits(s)
  {
    if s == [] then 0
    else DecimalValue(s[..|s| - 1]) * 10 + (s[|s| - 1] as int - '0' as int)
  }

  /** Decimal representation without leading zeros (`"0"` for zero). */
  function Decimal(n: nat): (r: string)
    ensures 1 <= |r| && AllDigits(r)
    ensures DecimalValue(r) == n
    ensures |r| > 1 ==> r[0] != '0'
  {
    if n < 10 then [DigitChar(n)]
    else
      var r := Decimal(n / 10) + [DigitChar(n % 10)];
      assert r[..|r| - 1] == Decimal(n / 10);
      r
  }

  function Zeros(k: nat): (r: string)
    ensures |r| == k && AllDigits(r)
    ensures forall i :: 0 <= i < k ==> r[i] == '0'
  {
    if k == 0 then [] else ['0'] + Zeros(k - 1)
  }

  lemma {:induction false} LeadingZerosIgnored(k: nat, s: string)
    requires AllDigits(s)
    ensures AllDigits(Zeros(k) + s)
    ensures DecimalValue(Zeros(k) + s) == DecimalValue(s)
    decreases |s|
  {
    var z := Zeros(k) + s;
    if s == [] {
      assert z == Zeros(k);
      ZerosValue(k);
    } else {
      assert z[..|z| - 1] == Zeros(k) + s[..|s| - 1];
      LeadingZerosIgnored(k, s[..|s| - 1]);
    }
  }

  lemma {:induction false} ZerosValue(k: nat)
    ensures DecimalValue(Zeros(k)) == 0
  {
    if k > 0 {
      var z := Zeros(k);
      assert z[..k - 1] == Zeros(k - 1);
      ZerosValue(k - 1);
    }
  }

  /** `format!("{:0w}", n)`: the decimal digits of `n`, left-padded with
      zeros to at least `w` characters (never truncated). */
  function ZeroPad(n: nat, width: nat): (r: string)
    ensures AllDigits(r) && DecimalValue(r) == n
    ensures |r| == if |Decimal(n)| < width then width else |Decimal(n)|
  {
    var digits := Decimal(n);
    var pad := if |digits| < width then width - |digits| else 0;
    LeadingZerosIgnored(pad, digits);
    Zeros(pad) + digits
  }

  function Pow10(k: nat): (r: nat)
    ensures r >= 1
  {
    if k == 0 then 1 else 10 * Pow10(k - 1)
  }

  /** A number below `10^w` has at most `w` digits. */
  lemma {:induction false} DecimalLength(n: nat, w: nat)
    requires n < Pow10(w)
    ensures |Decimal(n)| <= w || (n == 0 && w == 0)
  {
    if n >= 10 {
      assert w > 0;
      DecimalLength(n / 10, w - 1);
    }
  }

  /** Zero padding to `w` of a number below `10^w` has exactly `w` characters. */
  lemma ZeroPadExactWidth(n: nat, w: nat)
    requires 1 <= w && n < Pow10(w)
    ensures |ZeroPad(n, w)| == w
  {
    DecimalLength(n, w);
  }
}

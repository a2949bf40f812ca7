/** The C library's view of text, as the asset compiler and both resolver revisions use it.
    A `char` stands for one C byte. A C string is the content before its terminating NUL;
    functions here take that content, and `CStr` reads it back out of a buffer. */
module CStrings {
  import opened Wrappers

  /** One byte of file content or digest (C `uint8_t`). */
  newtype byte = x: int | 0 <= x < 256

  const NUL: char := '\0'

  predicate NoNul(s: string)
  {
    forall i :: 0 <= i < |s| ==> s[i] != NUL
  }

  function Min(a: int, b: int): int
  {
    if a <= b then a else b
  }

  /** What a `snprintf` into a buffer of `n + 1` bytes keeps of `s`. */
  function Truncate(s: string, n: nat): string
  {
    if |s| <= n then s else s[..n]
  }

  // ----- NUL-terminated buffers -----

  /** The index of the first NUL at or after `i`, or the end of the buffer. */
  function NulFrom(s: seq<char>, i: nat): (n: nat)
    requires i <= |s|
    decreases |s| - i
    ensures i <= n <= |s|
    ensures forall j :: i <= j < n ==> s[j] != NUL
    ensures n < |s| ==> s[n] == NUL
  {
    if i == |s| || s[i] == NUL then i else NulFrom(s, i + 1)
  }

  /** The C string stored at the start of `s`: everything before the first NUL. */
  function CStr(s: seq<char>): (r: string)
    ensures r <= s && NoNul(r)
    ensures |r| < |s| ==> s[|r|] == NUL
  {
    s[..NulFrom(s, 0)]
  }

  /** The C string starting at offset `i` of a buffer. */
  function CStrAt(s: seq<char>, i: nat): (r: string)
    requires i <= |s|
    ensures NoNul(r) && i + |r| <= |s|
  {
    CStr(s[i..])
  }

  /** A buffer whose NUL-free prefix `s[..j]` is followed by a NUL, or by nothing, holds the
      C string `s[..j]`. */
  lemma CStrIs(s: seq<char>, j: nat)
    requires j <= |s| && NoNul(s[..j]) && (j < |s| ==> s[j] == NUL)
    ensures CStr(s) == s[..j]
  {
  }

  /** A buffer whose first NUL is at `j` holds the C string `s[..j]`. */
  lemma CStrUpTo(s: seq<char>, j: nat)
    requires j < |s| && s[j] == NUL && NoNul(s[..j])
    ensures CStr(s) == s[..j]
  {
    CStrIs(s, j);
  }

  lemma CStrOfNoNul(s: seq<char>)
    requires NoNul(s)
    ensures CStr(s) == s
  {
    CStrIs(s, |s|);
  }

  /** Reading a C string runs straight through a NUL-free prefix. */
  lemma CStrAppend(p: string, s: seq<char>)
    requires NoNul(p)
    ensures CStr(p + s) == p + CStr(s)
  {
    var c := CStr(s);
    var ps := p + s;
    var j := |p| + |c|;
    assert ps[..j] == p + c;
    if j < |ps| {
      assert ps[j] == s[|c|];
    }
    CStrIs(ps, j);
  }

  /** The C string starting `k` bytes into a buffer is the tail of the buffer's C string,
      as long as `k` does not pass its terminator. */
  lemma CStrSuffix(s: seq<char>, k: nat)
    requires k <= |CStr(s)|
    ensures CStr(s[k..]) == CStr(s)[k..]
  {
    var c := CStr(s);
    assert s[..k] == c[..k];
    assert s == s[..k] + s[k..];
    CStrAppend(s[..k], s[k..]);
  }

  lemma AppendAssoc<T>(a: seq<T>, b: seq<T>, c: seq<T>)
    ensures (a + b) + c == a + (b + c)
  {
  }

  lemma SliceCons<T>(s: seq<T>, i: nat)
    requires i < |s|
    ensures s[i..] == [s[i]] + s[i + 1..]
  {
  }

  /** The parts of a concatenation, read back by slicing. */
  lemma PrefixSlice<T>(a: seq<T>, b: seq<T>)
    ensures (a + b)[..|a|] == a && (a + b)[|a|..] == b
  {
  }

  lemma MiddleSlice<T>(a: seq<T>, sep: seq<T>, b: seq<T>, c: seq<T>)
    ensures (a + (sep + (b + c)))[|a| + |sep|..|a| + |sep| + |b|] == b
  {
    assert (a + (sep + (b + c)))[|a| + |sep|..] == b + c;
  }

  lemma SliceSplit<T>(s: seq<T>, i: nat, j: nat, k: nat)
    requires i <= j <= k <= |s|
    ensures s[i..k] == s[i..j] + s[j..k]
  {
  }

  // ----- ASCII classification and case folding (the "C" locale) -----

  function ToLower(c: char): char
  {
    if 'A' <= c <= 'Z' then (c as int + 32) as char else c
  }

  predicate IsAlnum(c: char)
  {
    '0' <= c <= '9' || 'A' <= c <= 'Z' || 'a' <= c <= 'z'
  }

  /** `tolower` applied to every byte. */
  function Lower(s: string): (r: string)
    ensures |r| == |s|
    ensures forall i :: 0 <= i < |s| ==> r[i] == ToLower(s[i])
  {
    seq(|s|, i requires 0 <= i < |s| => ToLower(s[i]))
  }

  /** `strcasecmp(a, b) == 0`: equal length and equal after folding every byte. */
  predicate StrCaseEq(a: string, b: string)
  {
    Lower(a) == Lower(b)
  }

  /** A string with no upper-case letter is its own folding. */
  lemma LowerOfLowerCase(s: string)
    requires forall i :: 0 <= i < |s| ==> !('A' <= s[i] <= 'Z')
    ensures Lower(s) == s
  {
  }

  lemma LowerIdempotent(s: string)
    ensures Lower(Lower(s)) == Lower(s)
  {
  }

  // ----- Substring search (strstr, strcasestr, strstricase_local) -----

  predicate CharEq(a: char, b: char, ignoreCase: bool)
  {
    if ignoreCase then ToLower(a) == ToLower(b) else a == b
  }

  /** `needle` occurs in `hay` at position `p`, byte for byte or ignoring ASCII case. */
  predicate MatchesAt(hay: string, needle: string, p: int, ignoreCase: bool)
  {
    0 <= p && p + |needle| <= |hay| &&
    forall i :: 0 <= i < |needle| ==> CharEq(hay[p + i], needle[i], ignoreCase)
  }

  /** The first occurrence of `needle` in `hay` at or after `p`. */
  function FindFrom(hay: string, needle: string, p: nat, ignoreCase: bool): (r: Option<nat>)
    decreases |hay| - p
    ensures r.Some? ==> p <= r.value && MatchesAt(hay, needle, r.value, ignoreCase)
    ensures r.Some? ==> forall q :: p <= q < r.value ==> !MatchesAt(hay, needle, q, ignoreCase)
    ensures r.None? ==> forall q :: p <= q ==> !MatchesAt(hay, needle, q, ignoreCase)
  {
    if p + |needle| > |hay| then None
    else if MatchesAt(hay, needle, p, ignoreCase) then Some(p)
    else FindFrom(hay, needle, p + 1, ignoreCase)
  }

  /** The first occurrence of `needle` in `hay`; an empty needle occurs at 0. */
  function Find(hay: string, needle: string, ignoreCase: bool): (r: Option<nat>)
    ensures r.Some? <==> exists q :: MatchesAt(hay, needle, q, ignoreCase)
    ensures r.Some? ==> MatchesAt(hay, needle, r.value, ignoreCase)
    ensures r.Some? ==> forall q :: 0 <= q < r.value ==> !MatchesAt(hay, needle, q, ignoreCase)
  {
    FindFrom(hay, needle, 0, ignoreCase)
  }

  /** A first occurrence is unique: whatever position has a match and none before it is `Find`'s. */
  lemma FindIsFirst(hay: string, needle: string, p: nat, ignoreCase: bool)
    requires MatchesAt(hay, needle, p, ignoreCase)
    requires forall q :: 0 <= q < p ==> !MatchesAt(hay, needle, q, ignoreCase)
    ensures Find(hay, needle, ignoreCase) == Some(p)
  {
  }

  /** `strchr(s + p, c)`: the first `c` at or after `p`. */
  function IndexOfFrom(s: string, c: char, p: nat): (r: Option<nat>)
    decreases |s| - p
    ensures r.Some? ==> p <= r.value < |s| && s[r.value] == c
    ensures r.Some? ==> forall k :: p <= k < r.value ==> s[k] != c
    ensures r.None? ==> forall k :: p <= k < |s| ==> s[k] != c
  {
    if p >= |s| then None
    else if s[p] == c then Some(p)
    else IndexOfFrom(s, c, p + 1)
  }

  /** A position holding `c` with no `c` since `p` is what `strchr` finds. */
  lemma IndexOfFromIs(s: string, c: char, p: nat, k: nat)
    requires p <= k < |s| && s[k] == c
    requires forall j :: p <= j < k ==> s[j] != c
    ensures IndexOfFrom(s, c, p) == Some(k)
  {
  }

  /** `strrchr(s, c)`: the last `c` in `s`. */
  function LastIndexOf(s: string, c: char): (r: Option<nat>)
    ensures r.Some? ==> r.value < |s| && s[r.value] == c
    ensures r.Some? ==> forall k :: r.value < k < |s| ==> s[k] != c
    ensures r.None? ==> forall k :: 0 <= k < |s| ==> s[k] != c
  {
    if s == [] then None
    else if s[|s| - 1] == c then Some(|s| - 1)
    else LastIndexOf(s[..|s| - 1], c)
  }

  /** Suffix test of `ends_with` (src/statics.h). */
  predicate EndsWith(s: string, suffix: string)
  {
    |suffix| <= |s| && s[|s| - |suffix|..] == suffix
  }

  predicate NoChar(s: string, c: char)
  {
    forall k :: 0 <= k < |s| ==> s[k] != c
  }

  /** `strchr(buf + from, c)`, for a `from` inside the request's C string. Each search
      starts past the NULs the parser has already written, so it reads what the request
      held there. */
  method StrChr(s: seq<char>, from: nat, c: char) returns (r: Option<nat>)
    requires c != NUL && from <= |CStr(s)|
    ensures r == IndexOfFrom(CStr(s), c, from)
  {
    ghost var req := CStr(s);
    var i := from;
    while i < |s| && s[i] != NUL && s[i] != c
      invariant from <= i <= |req|
      invariant forall j :: from <= j < i ==> req[j] != c
      decreases |s| - i
    {
      i := i + 1;
    }
    if i == |s| || s[i] == NUL {
      return None;
    }
    IndexOfFromIs(req, c, from, i);
    return Some(i);
  }

  /** `*p = '\0'`: ends the C string at index `i`. */
  method Terminate(buf: array<char>, i: nat)
    requires i < buf.Length
    modifies buf
    ensures buf[..] == old(buf[..])[i := NUL]
  {
    buf[i] := NUL;
  }

  // ----- strcmp -----

  /** The sign of `strcmp(a, b)`: bytes compared as unsigned values, a proper prefix first. */
  function StrCmp(a: string, b: string): (r: int)
    ensures -1 <= r <= 1
    ensures r == 0 <==> a == b
  {
    if a == [] && b == [] then 0
    else if a == [] then -1
    else if b == [] then 1
    else if a[0] < b[0] then -1
    else if a[0] > b[0] then 1
    else
      var r := StrCmp(a[1..], b[1..]);
      assert a == [a[0]] + a[1..] && b == [b[0]] + b[1..];
      r
  }

  lemma {:induction false} StrCmpAntisymmetric(a: string, b: string)
    ensures StrCmp(a, b) == -StrCmp(b, a)
  {
    if a != [] && b != [] && a[0] == b[0] {
      StrCmpAntisymmetric(a[1..], b[1..]);
    }
  }

  lemma {:induction false} StrCmpTransitive(a: string, b: string, c: string)
    requires StrCmp(a, b) <= 0 && StrCmp(b, c) <= 0
    ensures StrCmp(a, c) <= 0
  {
    if a != [] && b != [] && c != [] && a[0] == b[0] == c[0] {
      StrCmpTransitive(a[1..], b[1..], c[1..]);
    }
  }

  // ----- Decimal rendering (printf "%d" / "%u") -----

  predicate IsDigits(s: string)
  {
    forall i :: 0 <= i < |s| ==> '0' <= s[i] <= '9'
  }

  function DigitChar(d: nat): char
    requires d < 10
  {
    ('0' as int + d) as char
  }

  /** `printf("%u", n)`: no leading zeros, at least one digit. */
  function Decimal(n: nat): (r: string)
    ensures |r| >= 1 && IsDigits(r)
    ensures r[0] == '0' ==> n == 0
  {
    if n < 10 then [DigitChar(n)] else Decimal(n / 10) + [DigitChar(n % 10)]
  }

  function Pow10(k: nat): nat
  {
    if k == 0 then 1 else 10 * Pow10(k - 1)
  }

  /** A number below 10^k prints in at most k digits. */
  lemma {:induction false} DecimalWidth(n: nat, k: nat)
    requires 1 <= k && n < Pow10(k)
    ensures |Decimal(n)| <= k
  {
    if n >= 10 {
      assert k >= 2;
      assert n / 10 < Pow10(k - 1);
      DecimalWidth(n / 10, k - 1);
    }
  }

  /** Every 32-bit unsigned value prints in at most ten digits. */
  lemma DecimalOfU32(n: nat)
    requires n < 0x1_0000_0000
    ensures |Decimal(n)| <= 10
  {
    assert Pow10(10) == 10000000000;
    DecimalWidth(n, 10);
  }

  /** A status code from 100 to 999 prints in exactly three digits. */
  lemma DecimalOfCode(code: nat)
    requires 100 <= code < 1000
    ensures |Decimal(code)| == 3
  {
    assert |Decimal(code / 100)| == 1;
    assert |Decimal(code / 10)| == 2;
  }

  /** Reads a run of decimal digits back as a number. */
  function ParseDecimal(s: string): nat
    requires IsDigits(s)
  {
    if s == [] then 0 else ParseDecimal(s[..|s| - 1]) * 10 + (s[|s| - 1] as int - '0' as int)
  }

  /** A printed length reads back as the same number. */
  lemma {:induction false} DecimalRoundTrip(n: nat)
    ensures ParseDecimal(Decimal(n)) == n
  {
    if n >= 10 {
      DecimalRoundTrip(n / 10);
      var r := Decimal(n);
      assert r[..|r| - 1] == Decimal(n / 10);
    }
  }
}

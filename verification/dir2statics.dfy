/** The deterministic part of the asset compiler (extra/dir2statics/dir2statics.c): which
    directory entries become assets, in which order, under which C identifier, URL and
    header block, and how their bytes are printed. The SHA-1 digest and the gzip bytes of
    each file are inputs; reading the directory and the files is left to the caller. */
module Dir2Statics {
  import opened Wrappers
  import opened CStrings

  // ===== content_type_for_filename =====

  const TextHtml := "text/html; charset=utf-8"
  const TextJavascript := "text/javascript; charset=utf-8"
  const TextCss := "text/css; charset=utf-8"
  const ApplicationJson := "application/json; charset=utf-8"
  const TextPlain := "text/plain; charset=utf-8"
  const ImageSvg := "image/svg+xml"
  const ImagePng := "image/png"
  const ImageJpeg := "image/jpeg"
  const ImageGif := "image/gif"
  const ImageIcon := "image/x-icon"
  const ApplicationWasm := "application/wasm"
  const FontWoff := "font/woff"
  const FontWoff2 := "font/woff2"

  /** The longest MIME type on the allow-list ("application/json; charset=utf-8"). */
  const MaxMimeLength := 31

  const AllMimeTypes := [TextHtml, TextJavascript, TextCss, ApplicationJson, TextPlain, ImageSvg,
    ImagePng, ImageJpeg, ImageGif, ImageIcon, ApplicationWasm, FontWoff, FontWoff2]

  /** The allow-list as a table from lower-case extension (dot included) to MIME type:
      an independent statement of what the comparison chain below decides. */
  const MimeTypes: map<string, string> := map[
    ".html" := TextHtml, ".htm" := TextHtml,
    ".js" := TextJavascript,
    ".css" := TextCss,
    ".json" := ApplicationJson,
    ".txt" := TextPlain,
    ".svg" := ImageSvg,
    ".png" := ImagePng,
    ".jpg" := ImageJpeg, ".jpeg" := ImageJpeg,
    ".gif" := ImageGif,
    ".ico" := ImageIcon,
    ".wasm" := ApplicationWasm,
    ".woff" := FontWoff,
    ".woff2" := FontWoff2
  ]

  /** The MIME type of a file name, decided from the suffix that starts at its last dot,
      compared ignoring case; no type for a name without a dot or whose only dot leads. */
  function ContentTypeFor(name: string): (r: Option<string>)
    ensures r.Some? ==> LastIndexOf(name, '.').Some? && LastIndexOf(name, '.').value > 0
    ensures r.Some? ==> |r.value| <= MaxMimeLength && r.value in AllMimeTypes
  {
    match LastIndexOf(name, '.')
    case None => None
    case Some(dot) =>
      if dot == 0 then None
      else
        var ext := name[dot..];
        if StrCaseEq(ext, ".html") || StrCaseEq(ext, ".htm") then Some(TextHtml)
        else if StrCaseEq(ext, ".js") then Some(TextJavascript)
        else if StrCaseEq(ext, ".css") then Some(TextCss)
        else if StrCaseEq(ext, ".json") then Some(ApplicationJson)
        else if StrCaseEq(ext, ".txt") then Some(TextPlain)
        else if StrCaseEq(ext, ".svg") then Some(ImageSvg)
        else if StrCaseEq(ext, ".png") then Some(ImagePng)
        else if StrCaseEq(ext, ".jpg") || StrCaseEq(ext, ".jpeg") then Some(ImageJpeg)
        else if StrCaseEq(ext, ".gif") then Some(ImageGif)
        else if StrCaseEq(ext, ".ico") then Some(ImageIcon)
        else if StrCaseEq(ext, ".wasm") then Some(ApplicationWasm)
        else if StrCaseEq(ext, ".woff") then Some(FontWoff)
        else if StrCaseEq(ext, ".woff2") then Some(FontWoff2)
        else None
  }

  /** The type of a name per the allow-list table: the lower-cased suffix from the last dot,
      looked up; nothing when there is no dot or the last dot is the first character. */
  function TypeByTable(name: string): Option<string>
  {
    match LastIndexOf(name, '.')
    case None => None
    case Some(dot) =>
      var ext := Lower(name[dot..]);
      if dot > 0 && ext in MimeTypes then Some(MimeTypes[ext]) else None
  }

  /** `strcasecmp` against a lower-case literal is equality after folding. */
  lemma CaseEqLiteral(ext: string, lit: string)
    requires forall i :: 0 <= i < |lit| ==> !('A' <= lit[i] <= 'Z')
    ensures StrCaseEq(ext, lit) <==> Lower(ext) == lit
  {
    LowerOfLowerCase(lit);
  }

  /** The allow-list lookup of an already folded suffix, written as a chain. */
  function LowerSuffixType(l: string): Option<string>
  {
    if l == ".html" || l == ".htm" then Some(TextHtml)
    else if l == ".js" then Some(TextJavascript)
    else if l == ".css" then Some(TextCss)
    else if l == ".json" then Some(ApplicationJson)
    else if l == ".txt" then Some(TextPlain)
    else if l == ".svg" then Some(ImageSvg)
    else if l == ".png" then Some(ImagePng)
    else if l == ".jpg" || l == ".jpeg" then Some(ImageJpeg)
    else if l == ".gif" then Some(ImageGif)
    else if l == ".ico" then Some(ImageIcon)
    else if l == ".wasm" then Some(ApplicationWasm)
    else if l == ".woff" then Some(FontWoff)
    else if l == ".woff2" then Some(FontWoff2)
    else None
  }

  lemma LowerSuffixTypeIsTable(l: string)
    ensures LowerSuffixType(l) == (if l in MimeTypes then Some(MimeTypes[l]) else None)
  {
  }

  lemma StrCaseChain(ext: string)
    ensures
      var l := Lower(ext);
      (StrCaseEq(ext, ".html") <==> l == ".html") && (StrCaseEq(ext, ".htm") <==> l == ".htm") &&
      (StrCaseEq(ext, ".js") <==> l == ".js") && (StrCaseEq(ext, ".css") <==> l == ".css") &&
      (StrCaseEq(ext, ".json") <==> l == ".json") && (StrCaseEq(ext, ".txt") <==> l == ".txt") &&
      (StrCaseEq(ext, ".svg") <==> l == ".svg") && (StrCaseEq(ext, ".png") <==> l == ".png")
    ensures
      var l := Lower(ext);
      (StrCaseEq(ext, ".jpg") <==> l == ".jpg") && (StrCaseEq(ext, ".jpeg") <==> l == ".jpeg") &&
      (StrCaseEq(ext, ".gif") <==> l == ".gif") && (StrCaseEq(ext, ".ico") <==> l == ".ico") &&
      (StrCaseEq(ext, ".wasm") <==> l == ".wasm") && (StrCaseEq(ext, ".woff") <==> l == ".woff") &&
      (StrCaseEq(ext, ".woff2") <==> l == ".woff2")
  {
    CaseEqLiteral(ext, ".html"); CaseEqLiteral(ext, ".htm"); CaseEqLiteral(ext, ".js");
    CaseEqLiteral(ext, ".css"); CaseEqLiteral(ext, ".json"); CaseEqLiteral(ext, ".txt");
    CaseEqLiteral(ext, ".svg"); CaseEqLiteral(ext, ".png"); CaseEqLiteral(ext, ".jpg");
    CaseEqLiteral(ext, ".jpeg"); CaseEqLiteral(ext, ".gif"); CaseEqLiteral(ext, ".ico");
    CaseEqLiteral(ext, ".wasm"); CaseEqLiteral(ext, ".woff"); CaseEqLiteral(ext, ".woff2");
  }

  /** The comparison chain of content_type_for_filename agrees with the allow-list table. */
  lemma ContentTypeByTable(name: string)
    ensures ContentTypeFor(name) == TypeByTable(name)
  {
    var d := LastIndexOf(name, '.');
    if d.Some? && d.value > 0 {
      var ext := name[d.value..];
      StrCaseChain(ext);
      assert ContentTypeFor(name) == LowerSuffixType(Lower(ext));
      LowerSuffixTypeIsTable(Lower(ext));
    }
  }

  /** Folding never creates or removes a dot, so the last dot stays where it was. */
  lemma LastDotOfLower(name: string)
    ensures LastIndexOf(Lower(name), '.') == LastIndexOf(name, '.')
  {
    var l := Lower(name);
    assert forall k :: 0 <= k < |name| ==> (l[k] == '.' <==> name[k] == '.');
  }

  /** The type of a name does not depend on the case of its letters. */
  lemma ContentTypeIgnoresCase(name: string)
    ensures ContentTypeFor(Lower(name)) == ContentTypeFor(name)
  {
    ContentTypeByTable(name);
    ContentTypeByTable(Lower(name));
    LastDotOfLower(name);
    match LastIndexOf(name, '.')
    case None =>
    case Some(dot) =>
      assert Lower(name)[dot..] == Lower(name[dot..]);
      LowerIdempotent(name[dot..]);
  }

  // ===== The readdir filter and the qsort with cmp_strptr =====

  /** One `readdir` result: its name and whether `is_regular_file` reported a regular file. */
  datatype DirEntry = DirEntry(name: string, isRegular: bool)

  /** The tests of main's readdir loop, in its order. */
  predicate Accepted(e: DirEntry)
  {
    e.name != "." && e.name != ".." && ContentTypeFor(e.name).Some? && e.isRegular
  }

  /** The names main collects, in directory order. */
  function AcceptedNames(entries: seq<DirEntry>): (r: seq<string>)
    ensures |r| <= |entries|
    ensures forall n :: n in r <==> exists e :: e in entries && Accepted(e) && e.name == n
  {
    if entries == [] then []
    else
      var init := entries[..|entries| - 1];
      var last := entries[|entries| - 1];
      var r := AcceptedNames(init) + (if Accepted(last) then [last.name] else []);
      assert entries == init + [last];
      r
  }

  /** main's readdir loop over a directory listing; the names array grows by appending. */
  method CollectNames(entries: seq<DirEntry>) returns (names: seq<string>)
    ensures names == AcceptedNames(entries)
    ensures forall n :: n in names ==> n != "." && n != ".." && ContentTypeFor(n).Some?
  {
    names := [];
    for i := 0 to |entries|
      invariant names == AcceptedNames(entries[..i])
    {
      assert entries[..i + 1][..i] == entries[..i];
      var nm := entries[i].name;
      if nm == "." || nm == ".." {
        continue;
      }
      if ContentTypeFor(nm).None? {
        continue;
      }
      if !entries[i].isRegular {
        continue;
      }
      names := names + [nm];
    }
    assert entries[..|entries|] == entries;
  }

  /** Ascending `strcmp` order. */
  predicate Sorted(s: seq<string>)
  {
    forall i, j :: 0 <= i < j < |s| ==> StrCmp(s[i], s[j]) <= 0
  }

  function Insert(x: string, s: seq<string>): seq<string>
  {
    if s == [] then [x]
    else if StrCmp(x, s[0]) <= 0 then [x] + s
    else [s[0]] + Insert(x, s[1..])
  }

  /** The order `qsort(names, count, sizeof(char *), cmp_strptr)` leaves the names in.
      libc's algorithm is not part of this model; `SortedPermutationUnique` shows that any
      correct sort yields this same sequence. */
  function SortNames(s: seq<string>): seq<string>
  {
    if s == [] then [] else Insert(s[0], SortNames(s[1..]))
  }

  lemma {:induction false} InsertPermutation(x: string, s: seq<string>)
    ensures multiset(Insert(x, s)) == multiset(s) + multiset{x}
  {
    if s != [] && StrCmp(x, s[0]) > 0 {
      InsertPermutation(x, s[1..]);
      assert s == [s[0]] + s[1..];
    }
  }

  lemma {:induction false} InsertSorted(x: string, s: seq<string>)
    requires Sorted(s)
    ensures Sorted(Insert(x, s))
  {
    if s == [] {
    } else if StrCmp(x, s[0]) <= 0 {
      forall j | 0 <= j < |s|
        ensures StrCmp(x, s[j]) <= 0
      {
        if j > 0 {
          StrCmpTransitive(x, s[0], s[j]);
        }
      }
    } else {
      var t := Insert(x, s[1..]);
      InsertSorted(x, s[1..]);
      InsertPermutation(x, s[1..]);
      StrCmpAntisymmetric(x, s[0]);
      forall j | 0 <= j < |t|
        ensures StrCmp(s[0], t[j]) <= 0
      {
        assert t[j] in multiset(t);
        if t[j] != x {
          assert t[j] in multiset(s[1..]);
          var k :| 0 <= k < |s[1..]| && s[1..][k] == t[j];
          assert s[k + 1] == t[j];
        }
      }
    }
  }

  /** After the sort the names are in ascending strcmp order and are the same names. */
  lemma {:induction false} SortNamesCorrect(s: seq<string>)
    ensures Sorted(SortNames(s))
    ensures multiset(SortNames(s)) == multiset(s)
  {
    if s != [] {
      SortNamesCorrect(s[1..]);
      InsertSorted(s[0], SortNames(s[1..]));
      InsertPermutation(s[0], SortNames(s[1..]));
      assert s == [s[0]] + s[1..];
    }
  }

  /** The first of a sorted sequence is no greater than anything in it. */
  lemma SortedHeadIsLeast(a: seq<string>, x: string)
    requires Sorted(a) && x in multiset(a)
    ensures StrCmp(a[0], x) <= 0
  {
    var i :| 0 <= i < |a| && a[i] == x;
    if i == 0 { assert a[0] == x; }
  }

  lemma SortedTail(a: seq<string>)
    requires Sorted(a) && a != []
    ensures Sorted(a[1..])
  {
    forall i, j | 0 <= i < j < |a[1..]|
      ensures StrCmp(a[1..][i], a[1..][j]) <= 0
    {
      assert a[1..][i] == a[i + 1] && a[1..][j] == a[j + 1];
    }
  }

  lemma MultisetTail(a: seq<string>, b: seq<string>)
    requires a != [] && b != [] && a[0] == b[0] && multiset(a) == multiset(b)
    ensures multiset(a[1..]) == multiset(b[1..])
  {
    assert a == [a[0]] + a[1..] && b == [b[0]] + b[1..];
    assert multiset(a) == multiset{a[0]} + multiset(a[1..]);
    assert multiset(b) == multiset{b[0]} + multiset(b[1..]);
    assert multiset(a[1..]) == multiset(a) - multiset{a[0]};
    assert multiset(b[1..]) == multiset(b) - multiset{b[0]};
  }

  /** Two sorted arrangements of the same names are identical, so the generated table order
      is a function of the directory's contents alone. */
  lemma {:induction false} SortedPermutationUnique(a: seq<string>, b: seq<string>)
    requires Sorted(a) && Sorted(b) && multiset(a) == multiset(b)
    ensures a == b
  {
    assert |a| == |multiset(a)| == |multiset(b)| == |b|;
    if a != [] {
      assert a[0] in multiset(a) && b[0] in multiset(b);
      SortedHeadIsLeast(a, b[0]);
      SortedHeadIsLeast(b, a[0]);
      StrCmpAntisymmetric(a[0], b[0]);
      assert a[0] == b[0];
      MultisetTail(a, b);
      SortedTail(a);
      SortedTail(b);
      SortedPermutationUnique(a[1..], b[1..]);
    }
  }

  // ===== ident_from_filename =====

  function IdentChar(c: char): char
  {
    if IsAlnum(c) then c else '_'
  }

  /** The C string that `ident_from_filename(name, out, outSize)` leaves in `out`: every byte
      of the name kept if alphanumeric and replaced by `_` otherwise, at most `outSize - 2`
      of them; "file" (cut to the buffer) when that leaves nothing. */
  function IdentFromFilename(name: string, outSize: nat): (r: string)
    requires outSize >= 1
    ensures |r| < outSize
    ensures forall i :: 0 <= i < |r| ==> IsAlnum(r[i]) || r[i] == '_'
    ensures outSize >= 3 && name != [] ==> |r| == Min(|name|, outSize - 2)
    ensures outSize >= 3 && name != [] ==> forall i :: 0 <= i < |r| ==> r[i] == IdentChar(name[i])
    ensures outSize >= 5 ==> r != []
    ensures outSize < 3 || name == [] ==> r == "file"[..Min(4, outSize - 1)]
  {
    var k := if outSize >= 2 then Min(|name|, outSize - 2) else 0;
    if k > 0 then seq(k, i requires 0 <= i < k => IdentChar(name[i]))
    else "file"[..Min(4, outSize - 1)]
  }

  /** ident_from_filename: fills `out` with an index loop, then falls back to "file". */
  method WriteIdent(name: string, out: array<char>)
    requires out.Length >= 1 && NoNul(name)
    modifies out
    ensures CStr(out[..]) == IdentFromFilename(name, out.Length)
  {
    var j := 0;
    var i := 0;
    while i < |name| && j + 2 < out.Length
      invariant j == i <= |name|
      invariant j < out.Length && (j == 0 || j + 2 <= out.Length)
      invariant j == |name| || j + 2 >= out.Length ==> j == Min(|name|, out.Length - 2) || j == 0
      invariant forall k :: 0 <= k < j ==> out[k] == IdentChar(name[k])
    {
      var c := name[i];
      if IsAlnum(c) {
        out[j] := c;
      } else {
        out[j] := '_';
      }
      j := j + 1;
      i := i + 1;
    }
    out[j] := NUL;
    if j == 0 {
      // strncpy(out, "file", out_sz) pads with NULs, then out[out_sz - 1] = '\0'
      forall k | 0 <= k < out.Length {
        out[k] := if k < 4 then "file"[k] else NUL;
      }
      out[out.Length - 1] := NUL;
      CStrUpTo(out[..], Min(4, out.Length - 1));
    } else {
      assert j == Min(|name|, out.Length - 2);
      assert out[..][..j] == IdentFromFilename(name, out.Length);
      CStrUpTo(out[..], j);
    }
  }

  // ===== Hex encoding of the digest =====

  /** The table main indexes (`hexEncode`). */
  const HexUpperAlphabet := "0123456789ABCDEF"

  /** Hex digit `n`, upper case (`%X`, and the `hexEncode` table). */
  function UpperDigit(n: nat): char
    requires n < 16
  {
    if n < 10 then ('0' as int + n) as char else ('A' as int + n - 10) as char
  }

  /** Hex digit `n`, lower case (`%x`). */
  function LowerDigit(n: nat): char
    requires n < 16
  {
    if n < 10 then ('0' as int + n) as char else ('a' as int + n - 10) as char
  }

  lemma HexEncodeTable(n: nat)
    requires n < 16
    ensures HexUpperAlphabet[n] == UpperDigit(n)
  {
    if n < 8 {
      if n < 4 {
        if n < 2 { } else { }
      } else {
        if n < 6 { } else { }
      }
    } else {
      if n < 12 {
        if n < 10 { } else { }
      } else {
        if n < 14 { } else { }
      }
    }
  }

  /** The 40-character upper-case hex form of a digest, high nibble first. */
  function HexUpper(d: seq<byte>): (r: string)
    ensures |r| == 2 * |d|
  {
    if d == [] then [] else [UpperDigit(d[0] as int / 16), UpperDigit(d[0] as int % 16)] + HexUpper(d[1..])
  }

  /** Byte i of the digest becomes characters 2i (its high nibble) and 2i + 1 (its low one). */
  lemma {:induction false} HexUpperDigits(d: seq<byte>)
    ensures forall i :: 0 <= i < |d| ==> HexUpper(d)[2 * i] == UpperDigit(d[i] as int / 16)
    ensures forall i :: 0 <= i < |d| ==> HexUpper(d)[2 * i + 1] == UpperDigit(d[i] as int % 16)
  {
    if d != [] {
      var t := HexUpper(d[1..]);
      var r := HexUpper(d);
      HexUpperDigits(d[1..]);
      forall i | 1 <= i < |d|
        ensures r[2 * i] == UpperDigit(d[i] as int / 16) && r[2 * i + 1] == UpperDigit(d[i] as int % 16)
      {
        assert d[i] == d[1..][i - 1];
        assert r[2 * i] == t[2 * (i - 1)];
        assert r[2 * i + 1] == t[2 * (i - 1) + 1];
      }
    }
  }

  /** The value of a hex digit of either case. */
  function HexValue(c: char): (v: nat)
    ensures v < 16
  {
    if '0' <= c <= '9' then c as int - '0' as int
    else if 'A' <= c <= 'F' then c as int - 'A' as int + 10
    else if 'a' <= c <= 'f' then c as int - 'a' as int + 10
    else 0
  }

  function HexPair(hi: char, lo: char): byte
  {
    (HexValue(hi) * 16 + HexValue(lo)) as byte
  }

  function HexDecode(s: string): seq<byte>
    decreases |s|
  {
    if |s| < 2 then [] else [HexPair(s[0], s[1])] + HexDecode(s[2..])
  }

  lemma HexPairOfDigits(b: byte)
    ensures HexPair(UpperDigit(b as int / 16), UpperDigit(b as int % 16)) == b
    ensures HexPair(LowerDigit(b as int / 16), LowerDigit(b as int % 16)) == b
  {
  }

  /** Reading the hex text back yields the digest: the encoding loses nothing. */
  lemma {:induction false} HexUpperRoundTrip(d: seq<byte>)
    ensures HexDecode(HexUpper(d)) == d
  {
    if d != [] {
      var h := HexUpper(d);
      assert h[2..] == HexUpper(d[1..]);
      HexPairOfDigits(d[0]);
      HexUpperRoundTrip(d[1..]);
      assert d == [d[0]] + d[1..];
    }
  }

  /** An upper-case hex digit: never NUL, backslash, quote or `x`. */
  predicate IsUpperHexDigit(c: char)
  {
    '0' <= c <= '9' || 'A' <= c <= 'F'
  }

  lemma HexUpperIsPlain(d: seq<byte>)
    ensures forall i :: 0 <= i < |HexUpper(d)| ==> IsUpperHexDigit(HexUpper(d)[i])
  {
    var r := HexUpper(d);
    HexUpperDigits(d);
    forall i | 0 <= i < |r|
      ensures IsUpperHexDigit(r[i])
    {
      if i % 2 == 0 {
        assert r[2 * (i / 2)] == UpperDigit(d[i / 2] as int / 16);
      } else {
        assert r[2 * (i / 2) + 1] == UpperDigit(d[i / 2] as int % 16);
      }
    }
  }

  // ===== The CustomHeader struct =====

  /** The fixed fields of the struct, as the bytes they hold after initialisation. */
  const EtagField := "Etag: \\\""
  const QuoteCrlfField := "\\\"\\r\\n"
  const EncodingField := "Content-Encoding: gzip\\r\\n"
  const TypeTagField := "Content-Type: "
  const EscapedCrlf := "\\r\\n"

  const DigestSize := 20
  const HexOffset := 8
  const DigestOffset := 28
  const QuoteCrlfOffset := 48
  const EncodingOffset := 54
  const TypeTagOffset := 80
  const ContentTypeOffset := 94
  const ContentTypeSize := 64
  const HeaderSize := 158

  /** `sprintf(h + off, "%s", s)`: the bytes of `s`, then a NUL. */
  method PutString(h: array<char>, off: nat, s: string)
    requires off + |s| < h.Length
    modifies h
    ensures h[off..off + |s|] == s && h[off + |s|] == NUL
    ensures forall k :: 0 <= k < h.Length && !(off <= k <= off + |s|) ==> h[k] == old(h[k])
  {
    forall k | off <= k < off + |s| {
      h[k] := s[k - off];
    }
    h[off + |s|] := NUL;
  }

  /** The four sprintf calls at the start of main, each followed by the byte patch that
      replaces its terminating NUL so the fields run together. */
  method InitFixedFields(h: array<char>)
    requires h.Length == HeaderSize
    modifies h
    ensures h[..HexOffset] == EtagField
    ensures h[QuoteCrlfOffset..EncodingOffset] == QuoteCrlfField
    ensures h[EncodingOffset..TypeTagOffset] == EncodingField
    ensures h[TypeTagOffset..ContentTypeOffset] == TypeTagField
    ensures forall k :: HexOffset <= k < QuoteCrlfOffset || ContentTypeOffset <= k < HeaderSize ==> h[k] == old(h[k])
  {
    PutString(h, 0, "Etag: \\");
    h[7] := '"';
    assert h[..HexOffset] == EtagField;
    PutString(h, QuoteCrlfOffset, "\\\"\\r\\");
    h[QuoteCrlfOffset + 5] := 'n';
    assert h[QuoteCrlfOffset..EncodingOffset] == QuoteCrlfField;
    PutString(h, EncodingOffset, "Content-Encoding: gzip\\r\\");
    h[EncodingOffset + 25] := 'n';
    assert h[EncodingOffset..TypeTagOffset] == EncodingField;
    PutString(h, TypeTagOffset, "Content-Type:");
    h[TypeTagOffset + 13] := ' ';
  }

  /** SHA1Result writing the digest into the `hash` field. */
  method StoreDigest(h: array<char>, digest: seq<byte>)
    requires h.Length == HeaderSize && |digest| == DigestSize
    modifies h
    ensures forall k :: 0 <= k < DigestSize ==> h[DigestOffset + k] == digest[k] as int as char
    ensures forall k :: 0 <= k < h.Length && !(DigestOffset <= k < DigestOffset + DigestSize) ==> h[k] == old(h[k])
  {
    forall k | DigestOffset <= k < DigestOffset + DigestSize {
      h[k] := digest[k - DigestOffset] as int as char;
    }
  }

  /** The hex loop of main. It writes two characters per digest byte starting at the
      `hexhash` field while reading the digest from the `hash` field of the same struct;
      step x reads offset 28 + x and writes offsets 8 + 2x and 9 + 2x, never a byte that
      is still to be read, so the 40 characters are the digest's hex form. */
  method ExpandHexInPlace(h: array<char>, ghost digest: seq<byte>)
    requires h.Length == HeaderSize && |digest| == DigestSize
    requires forall k :: 0 <= k < DigestSize ==> h[DigestOffset + k] == digest[k] as int as char
    modifies h
    ensures h[HexOffset..QuoteCrlfOffset] == HexUpper(digest)
    ensures forall k :: 0 <= k < h.Length && !(HexOffset <= k < QuoteCrlfOffset) ==> h[k] == old(h[k])
  {
    var hexOut := HexOffset;
    var decIn := DigestOffset;
    for x := 0 to DigestSize
      invariant hexOut == HexOffset + 2 * x && decIn == DigestOffset + x
      invariant forall k :: x <= k < DigestSize ==> h[DigestOffset + k] == digest[k] as int as char
      invariant forall y :: 0 <= y < x ==>
        h[HexOffset + 2 * y] == UpperDigit(digest[y] as int / 16) &&
        h[HexOffset + 2 * y + 1] == UpperDigit(digest[y] as int % 16)
      invariant forall k :: 0 <= k < h.Length && !(HexOffset <= k < QuoteCrlfOffset) ==> h[k] == old(h[k])
    {
      assert h[decIn] as int == digest[x] as int;
      HexEncodeTable(digest[x] as int / 16);
      HexEncodeTable(digest[x] as int % 16);
      h[hexOut] := HexUpperAlphabet[h[decIn] as int / 16];
      hexOut := hexOut + 1;
      assert h[decIn] as int == digest[x] as int;
      h[hexOut] := HexUpperAlphabet[h[decIn] as int % 16];
      hexOut := hexOut + 1;
      decIn := decIn + 1;
    }
    var r := HexUpper(digest);
    HexUpperDigits(digest);
    forall k | 0 <= k < 2 * DigestSize
      ensures h[HexOffset + k] == r[k]
    {
      var y := k / 2;
      if k % 2 == 0 {
        assert k == 2 * y;
      } else {
        assert k == 2 * y + 1;
      }
    }
    assert h[HexOffset..QuoteCrlfOffset] == r;
  }

  /** The bytes `snprintf(contentType, 64, "%s\\r\\n", mime)` keeps before its NUL. */
  function ContentTypeField(mime: string): string
  {
    Truncate(mime + EscapedCrlf, ContentTypeSize - 1)
  }

  /** Every type on the allow-list, with its escaped CRLF, fits the 64-byte field whole. */
  lemma ContentTypeFits(name: string)
    requires ContentTypeFor(name).Some?
    ensures ContentTypeField(ContentTypeFor(name).value) == ContentTypeFor(name).value + EscapedCrlf
  {
  }

  method SetContentType(h: array<char>, mime: string)
    requires h.Length == HeaderSize && NoNul(mime)
    modifies h
    ensures h[ContentTypeOffset..ContentTypeOffset + |ContentTypeField(mime)|] == ContentTypeField(mime)
    ensures h[ContentTypeOffset + |ContentTypeField(mime)|] == NUL
    ensures forall k :: 0 <= k < ContentTypeOffset ==> h[k] == old(h[k])
  {
    PutString(h, ContentTypeOffset, ContentTypeField(mime));
  }

  /** The struct read as a C string: what `fprintf("%s", &cHdr[i])` prints between quotes. */
  function HeaderSourceText(hex: string, mime: string): string
  {
    EtagField + hex + QuoteCrlfField + EncodingField + TypeTagField + ContentTypeField(mime)
  }

  /** The four fixed fields hold their texts. */
  predicate FixedFields(hs: seq<char>)
    requires |hs| == HeaderSize
  {
    hs[..HexOffset] == EtagField &&
    hs[QuoteCrlfOffset..EncodingOffset] == QuoteCrlfField &&
    hs[EncodingOffset..TypeTagOffset] == EncodingField &&
    hs[TypeTagOffset..ContentTypeOffset] == TypeTagField
  }

  predicate FixedFieldsSet(h: array<char>)
    reads h
    requires h.Length == HeaderSize
  {
    FixedFields(h[..])
  }

  /** Writes that stay off the fixed fields keep them. */
  lemma FixedFieldsKept(a: seq<char>, b: seq<char>)
    requires |a| == |b| == HeaderSize && FixedFields(a)
    requires forall k :: 0 <= k < HexOffset || QuoteCrlfOffset <= k < ContentTypeOffset ==> a[k] == b[k]
    ensures FixedFields(b)
  {
    assert a[..HexOffset] == b[..HexOffset];
    assert a[QuoteCrlfOffset..EncodingOffset] == b[QuoteCrlfOffset..EncodingOffset];
    assert a[EncodingOffset..TypeTagOffset] == b[EncodingOffset..TypeTagOffset];
    assert a[TypeTagOffset..ContentTypeOffset] == b[TypeTagOffset..ContentTypeOffset];
  }

  /** A struct whose fields hold the fixed texts, the hex digest and a terminated content
      type reads as the header source text. */
  lemma StructReadsAsHeader(hs: seq<char>, hex: string, mime: string)
    requires |hs| == HeaderSize && |hex| == 2 * DigestSize && NoNul(hex) && NoNul(mime)
    requires hs[..HexOffset] == EtagField && hs[HexOffset..QuoteCrlfOffset] == hex
    requires hs[QuoteCrlfOffset..EncodingOffset] == QuoteCrlfField
    requires hs[EncodingOffset..TypeTagOffset] == EncodingField
    requires hs[TypeTagOffset..ContentTypeOffset] == TypeTagField
    requires hs[ContentTypeOffset..ContentTypeOffset + |ContentTypeField(mime)|] == ContentTypeField(mime)
    requires hs[ContentTypeOffset + |ContentTypeField(mime)|] == NUL
    ensures CStr(hs) == HeaderSourceText(hex, mime)
  {
    var n := ContentTypeOffset + |ContentTypeField(mime)|;
    StructPrefix(hs, hex, mime);
    HeaderSourceHasNoNul(hex, mime);
    CStrUpTo(hs, n);
  }

  lemma HeaderSourceHasNoNul(hex: string, mime: string)
    requires NoNul(hex) && NoNul(mime)
    ensures NoNul(HeaderSourceText(hex, mime))
  {
    assert NoNul(EscapedCrlf);
    assert NoNul(mime + EscapedCrlf);
    assert NoNul(ContentTypeField(mime));
    assert NoNul(EtagField) && NoNul(QuoteCrlfField) && NoNul(EncodingField) && NoNul(TypeTagField);
  }

  lemma StructPrefix(hs: seq<char>, hex: string, mime: string)
    requires |hs| == HeaderSize && |hex| == 2 * DigestSize
    requires hs[..HexOffset] == EtagField && hs[HexOffset..QuoteCrlfOffset] == hex
    requires hs[QuoteCrlfOffset..EncodingOffset] == QuoteCrlfField
    requires hs[EncodingOffset..TypeTagOffset] == EncodingField
    requires hs[TypeTagOffset..ContentTypeOffset] == TypeTagField
    requires hs[ContentTypeOffset..ContentTypeOffset + |ContentTypeField(mime)|] == ContentTypeField(mime)
    ensures ContentTypeOffset + |ContentTypeField(mime)| < HeaderSize
    ensures hs[..ContentTypeOffset + |ContentTypeField(mime)|] == HeaderSourceText(hex, mime)
  {
    var n := ContentTypeOffset + |ContentTypeField(mime)|;
    assert hs[0..HexOffset] == EtagField;
    SliceSplit(hs, 0, HexOffset, QuoteCrlfOffset);
    assert hs[0..QuoteCrlfOffset] == EtagField + hex;
    SliceSplit(hs, 0, QuoteCrlfOffset, EncodingOffset);
    assert hs[0..EncodingOffset] == EtagField + hex + QuoteCrlfField;
    SliceSplit(hs, 0, EncodingOffset, TypeTagOffset);
    assert hs[0..TypeTagOffset] == EtagField + hex + QuoteCrlfField + EncodingField;
    SliceSplit(hs, 0, TypeTagOffset, ContentTypeOffset);
    assert hs[0..ContentTypeOffset] == EtagField + hex + QuoteCrlfField + EncodingField + TypeTagField;
    SliceSplit(hs, 0, ContentTypeOffset, n);
    assert hs[..n] == hs[0..n] == HeaderSourceText(hex, mime);
  }

  /** One iteration of the per-file loop up to the memmove: digest, hex, content type. */
  method FillCustomHeader(h: array<char>, digest: seq<byte>, mime: string)
    requires h.Length == HeaderSize && |digest| == DigestSize && NoNul(mime)
    requires FixedFieldsSet(h)
    modifies h
    ensures FixedFieldsSet(h)
    ensures CStr(h[..]) == HeaderSourceText(HexUpper(digest), mime)
  {
    ghost var s0 := h[..];
    StoreDigest(h, digest);
    FixedFieldsKept(s0, h[..]);
    ghost var s1 := h[..];
    ExpandHexInPlace(h, digest);
    FixedFieldsKept(s1, h[..]);
    ghost var s2 := h[..];
    ghost var hex := h[HexOffset..QuoteCrlfOffset];
    SetContentType(h, mime);
    FixedFieldsKept(s2, h[..]);
    assert h[HexOffset..QuoteCrlfOffset] == hex;
    HexUpperIsPlain(digest);
    StructReadsAsHeader(h[..], HexUpper(digest), mime);
  }

  /** The header texts main stores in `cHdr`, one per collected name, reusing one struct. */
  method BuildHeaderBlocks(names: seq<string>, digests: seq<seq<byte>>) returns (headers: seq<string>)
    requires |digests| == |names|
    requires forall i :: 0 <= i < |names| ==> ContentTypeFor(names[i]).Some? && |digests[i]| == DigestSize
    ensures |headers| == |names|
    ensures forall i :: 0 <= i < |names| ==>
      headers[i] == HeaderSourceText(HexUpper(digests[i]), ContentTypeFor(names[i]).value)
  {
    var h := new char[HeaderSize];
    InitFixedFields(h);
    headers := [];
    for i := 0 to |names|
      invariant FixedFieldsSet(h)
      invariant |headers| == i
      invariant forall j :: 0 <= j < i ==>
        headers[j] == HeaderSourceText(HexUpper(digests[j]), ContentTypeFor(names[j]).value)
    {
      var mime := ContentTypeFor(names[i]).value;
      MimeHasNoNul(names[i]);
      FillCustomHeader(h, digests[i], mime);
      headers := headers + [CStr(h[..])];
    }
  }

  /** Text that can sit inside a C string literal as is: no NUL, backslash or quote. */
  predicate PlainText(s: string)
  {
    NoNul(s) && NoBackslash(s) && NoQuote(s)
  }

  lemma MimeTypesArePlain1()
    ensures PlainText(TextHtml) && PlainText(TextJavascript) && PlainText(TextCss)
  {
  }

  lemma MimeTypesArePlain2()
    ensures PlainText(ApplicationJson) && PlainText(TextPlain) && PlainText(ImageSvg)
  {
  }

  lemma MimeTypesArePlain3()
    ensures PlainText(ImagePng) && PlainText(ImageJpeg) && PlainText(ImageGif)
  {
  }

  lemma MimeTypesArePlain4()
    ensures PlainText(ImageIcon) && PlainText(ApplicationWasm)
  {
  }

  lemma MimeTypesArePlain5()
    ensures PlainText(FontWoff) && PlainText(FontWoff2)
  {
  }

  lemma MimeTypesArePlain()
    ensures forall m :: m in AllMimeTypes ==> PlainText(m)
  {
    MimeTypesArePlain1(); MimeTypesArePlain2(); MimeTypesArePlain3();
    MimeTypesArePlain4(); MimeTypesArePlain5();
  }

  lemma MimeHasNoNul(name: string)
    requires ContentTypeFor(name).Some?
    ensures NoNul(ContentTypeFor(name).value)
    ensures NoBackslash(ContentTypeFor(name).value) && NoQuote(ContentTypeFor(name).value)
  {
    MimeTypesArePlain();
  }

  // ===== How the C compiler reads the emitted header literal =====

  function EscapeChar(c: char): char
  {
    if c == 'r' then '\r' else if c == 'n' then '\n' else c
  }

  /** The value of a C string literal's body: a backslash and the byte after it stand for
      one byte (`\\r`, `\\n`, and the byte itself otherwise). */
  function CUnescape(s: string): string
    decreases |s|
  {
    if s == [] then []
    else if s[0] == '\\' && |s| >= 2 then [EscapeChar(s[1])] + CUnescape(s[2..])
    else [s[0]] + CUnescape(s[1..])
  }

  predicate NoBackslash(s: string)
  {
    forall i :: 0 <= i < |s| ==> s[i] != '\\'
  }

  lemma {:induction false} CUnescapePlain(p: string, s: string)
    requires NoBackslash(p)
    ensures CUnescape(p + s) == p + CUnescape(s)
  {
    if p == [] {
      assert p + s == s;
    } else {
      assert (p + s)[1..] == p[1..] + s;
      CUnescapePlain(p[1..], s);
      assert p == [p[0]] + p[1..];
    }
  }

  lemma CUnescapePair(c: char, s: string)
    ensures CUnescape(['\\', c] + s) == [EscapeChar(c)] + CUnescape(s)
  {
    assert (['\\', c] + s)[2..] == s;
  }

  /** The header as the resolver sees it at run time. */
  function RuntimeHeader(hex: string, mime: string): string
  {
    "Etag: \"" + hex + "\"\r\n" + "Content-Encoding: gzip\r\n" + ("Content-Type: " + mime + "\r\n")
  }

  /** The escaped CRLF reads as a real CR LF. */
  lemma EscapedCrlfValue(s: string)
    ensures CUnescape(EscapedCrlf + s) == "\r\n" + CUnescape(s)
  {
    CUnescapePair('n', s);
    CUnescapePair('r', ['\\', 'n'] + s);
    assert EscapedCrlf + s == ['\\', 'r'] + (['\\', 'n'] + s);
  }

  lemma TypeLineValue(mime: string)
    requires NoBackslash(mime)
    ensures CUnescape(TypeTagField + mime + EscapedCrlf) == "Content-Type: " + mime + "\r\n"
  {
    EscapedCrlfValue([]);
    CUnescapePlain(TypeTagField + mime, EscapedCrlf);
    assert CUnescape([]) == [];
  }

  lemma EncodingLineValue(t: string)
    ensures CUnescape(EncodingField + t) == "Content-Encoding: gzip\r\n" + CUnescape(t)
  {
    var enc := "Content-Encoding: gzip";
    assert EncodingField + t == enc + (EscapedCrlf + t);
    EscapedCrlfValue(t);
    CUnescapePlain(enc, EscapedCrlf + t);
  }

  lemma QuoteCrlfValue(t: string)
    ensures CUnescape(QuoteCrlfField + t) == "\"\r\n" + CUnescape(t)
  {
    assert QuoteCrlfField + t == ['\\', '"'] + (EscapedCrlf + t);
    EscapedCrlfValue(t);
    CUnescapePair('"', EscapedCrlf + t);
  }

  lemma EtagOpenValue(t: string)
    ensures CUnescape(EtagField + t) == "Etag: \"" + CUnescape(t)
  {
    assert EtagField + t == "Etag: " + (['\\', '"'] + t);
    CUnescapePair('"', t);
    CUnescapePlain("Etag: ", ['\\', '"'] + t);
  }

  /** Printed between quotes, the struct is the C literal of the header the resolver sends:
      the entity tag in quotes, then the encoding and type lines, each ending in CR LF. */
  lemma HeaderLiteralValue(hex: string, mime: string)
    requires NoBackslash(hex) && NoBackslash(mime) && |mime| <= MaxMimeLength
    ensures CUnescape(HeaderSourceText(hex, mime)) == RuntimeHeader(hex, mime)
  {
    var t3 := TypeTagField + mime + EscapedCrlf;
    var t2 := EncodingField + t3;
    var t1 := QuoteCrlfField + t2;
    assert ContentTypeField(mime) == mime + EscapedCrlf;
    var typeLine := "Content-Type: " + mime + "\r\n";
    calc {
      CUnescape(HeaderSourceText(hex, mime));
      { assert HeaderSourceText(hex, mime) == EtagField + (hex + t1); }
      CUnescape(EtagField + (hex + t1));
      { EtagOpenValue(hex + t1); }
      "Etag: \"" + CUnescape(hex + t1);
      { CUnescapePlain(hex, t1); }
      "Etag: \"" + (hex + CUnescape(t1));
      { QuoteCrlfValue(t2); }
      "Etag: \"" + (hex + ("\"\r\n" + CUnescape(t2)));
      { EncodingLineValue(t3); }
      "Etag: \"" + (hex + ("\"\r\n" + ("Content-Encoding: gzip\r\n" + CUnescape(t3))));
      { TypeLineValue(mime); }
      "Etag: \"" + (hex + ("\"\r\n" + ("Content-Encoding: gzip\r\n" + typeLine)));
      "Etag: \"" + hex + "\"\r\n" + "Content-Encoding: gzip\r\n" + typeLine;
    }
  }

  // ===== URL emission =====

  /** `argv[3]` when given and non-empty, "/" otherwise. */
  function UrlPrefix(arg: Option<string>): (r: string)
    ensures r != []
    ensures r == "/" || (arg.Some? && r == arg.value)
  {
    if arg.None? || arg.value == [] then "/" else arg.value
  }

  /** The URL of each sorted name: prefix followed by the name. */
  function StaticUrls(prefix: string, names: seq<string>): (r: seq<string>)
    ensures |r| == |names|
    ensures forall i :: 0 <= i < |names| ==> r[i] == prefix + names[i]
  {
    seq(|names|, i requires 0 <= i < |names| => prefix + names[i])
  }

  /** One `"  \"%s%s\"%s\n"` line of the `static_urls` initialiser. */
  function UrlLine(prefix: string, names: seq<string>, i: nat): string
    requires i < |names|
  {
    "  \"" + prefix + names[i] + "\"" + (if i + 1 == |names| then "" else ",") + "\n"
  }

  function UrlLinesFrom(prefix: string, names: seq<string>, i: nat): string
    requires i <= |names|
    decreases |names| - i
  {
    if i == |names| then [] else UrlLine(prefix, names, i) + UrlLinesFrom(prefix, names, i + 1)
  }

  function UrlTableText(prefix: string, names: seq<string>): string
  {
    "const char *static_urls[" + Decimal(|names|) + "] = {\n" + UrlLinesFrom(prefix, names, 0) + "};\n\n"
  }

  /** The loop that prints the URL initialiser. */
  method EmitUrlTable(prefix: string, names: seq<string>) returns (text: string)
    ensures text == UrlTableText(prefix, names)
  {
    var head := "const char *static_urls[" + Decimal(|names|) + "] = {\n";
    text := head;
    for i := 0 to |names|
      invariant text + UrlLinesFrom(prefix, names, i) == head + UrlLinesFrom(prefix, names, 0)
    {
      var sep := if i + 1 == |names| then "" else ",";
      var line := "  \"" + prefix + names[i] + "\"" + sep + "\n";
      assert line == UrlLine(prefix, names, i);
      assert text + UrlLinesFrom(prefix, names, i) == (text + line) + UrlLinesFrom(prefix, names, i + 1);
      text := text + line;
    }
    text := text + "};\n\n";
  }

  predicate NoQuote(s: string)
  {
    forall i :: 0 <= i < |s| ==> s[i] != '"'
  }

  /** The contents of the successive "..." literals in a text. */
  function QuotedStrings(s: string): seq<string>
    decreases |s|
  {
    if s == [] then []
    else if s[0] != '"' then QuotedStrings(s[1..])
    else
      match IndexOfFrom(s, '"', 1)
      case None => []
      case Some(b) => [s[1..b]] + QuotedStrings(s[b + 1..])
  }

  lemma {:induction false} QuotedStringsSkip(p: string, s: string)
    requires NoQuote(p)
    ensures QuotedStrings(p + s) == QuotedStrings(s)
  {
    if p == [] {
      assert p + s == s;
    } else {
      assert (p + s)[1..] == p[1..] + s;
      QuotedStringsSkip(p[1..], s);
    }
  }

  lemma QuotedStringsLiteral(u: string, s: string)
    requires NoQuote(u)
    ensures QuotedStrings("\"" + u + "\"" + s) == [u] + QuotedStrings(s)
  {
    var t := "\"" + u + "\"" + s;
    assert t[|u| + 1] == '"';
    assert forall k :: 1 <= k < |u| + 1 ==> t[k] == u[k - 1];
    var b := IndexOfFrom(t, '"', 1);
    assert b == Some(|u| + 1);
    assert t[1..|u| + 1] == u;
    assert t[|u| + 2..] == s;
  }

  /** The text between the quotes of the printed initialiser is exactly the URLs, in order
      (as source text; `UrlLiteralValues` says what the C compiler makes of it). */
  lemma {:induction false} UrlLinesRoundTrip(prefix: string, names: seq<string>, i: nat)
    requires i <= |names| && NoQuote(prefix)
    requires forall j :: 0 <= j < |names| ==> NoQuote(names[j])
    ensures QuotedStrings(UrlLinesFrom(prefix, names, i)) == StaticUrls(prefix, names)[i..]
    decreases |names| - i
  {
    if i < |names| {
      var u := prefix + names[i];
      assert NoQuote(u) by {
        assert forall k :: |prefix| <= k < |u| ==> u[k] == names[i][k - |prefix|];
      }
      var sep := if i + 1 == |names| then "" else ",";
      var rest := UrlLinesFrom(prefix, names, i + 1);
      var after := sep + "\n" + rest;
      calc {
        QuotedStrings(UrlLinesFrom(prefix, names, i));
        { assert UrlLinesFrom(prefix, names, i) == "  " + ("\"" + u + "\"" + after); }
        QuotedStrings("  " + ("\"" + u + "\"" + after));
        { QuotedStringsSkip("  ", "\"" + u + "\"" + after); }
        QuotedStrings("\"" + u + "\"" + after);
        { QuotedStringsLiteral(u, after); }
        [u] + QuotedStrings(after);
        { QuotedStringsSkip(sep + "\n", rest); }
        [u] + QuotedStrings(rest);
        { UrlLinesRoundTrip(prefix, names, i + 1); }
        [u] + StaticUrls(prefix, names)[i + 1..];
      }
    }
  }

  /** With no backslash or quote in the prefix and the names, each literal's value is the
      text between its quotes, so `static_urls[k]` is prefix + name k. `"%s%s"` escapes
      nothing: a quote would end the literal and a backslash would start an escape. */
  lemma UrlLiteralValues(prefix: string, names: seq<string>)
    requires NoQuote(prefix) && NoBackslash(prefix)
    requires forall j :: 0 <= j < |names| ==> NoQuote(names[j]) && NoBackslash(names[j])
    ensures |QuotedStrings(UrlLinesFrom(prefix, names, 0))| == |names|
    ensures forall k :: 0 <= k < |names| ==>
              CUnescape(QuotedStrings(UrlLinesFrom(prefix, names, 0))[k]) == prefix + names[k]
  {
    UrlLinesRoundTrip(prefix, names, 0);
    forall k | 0 <= k < |names|
      ensures CUnescape(prefix + names[k]) == prefix + names[k]
    {
      var u := prefix + names[k];
      assert NoBackslash(u) by {
        assert forall m :: |prefix| <= m < |u| ==> u[m] == names[k][m - |prefix|];
      }
      CUnescapePlain(u, []);
      assert u + [] == u;
    }
  }

  // ===== emit_u8_array =====

  const EmptyMarker := "\n  /* empty */"
  const ArrayClose := "\n};\n\n"

  /** `printf("%X", n)`. */
  function HexUpperNumber(n: nat): (r: string)
    ensures |r| >= 1
    ensures forall i :: 0 <= i < |r| ==> IsUpperHexDigit(r[i])
  {
    if n < 16 then [UpperDigit(n)] else HexUpperNumber(n / 16) + [UpperDigit(n % 16)]
  }

  /** `printf("%04X", n)`: zero-padded to at least four digits. */
  function HexUpper4(n: nat): (r: string)
    ensures |r| >= 4
    ensures forall i :: 0 <= i < |r| ==> IsUpperHexDigit(r[i])
  {
    var d := HexUpperNumber(n);
    if |d| < 4 then seq(4 - |d|, _ => '0') + d else d
  }

  /** Reads a run of hex digits back as a number, most significant first. */
  function ParseHex(s: string): nat
  {
    if s == [] then 0 else ParseHex(s[..|s| - 1]) * 16 + HexValue(s[|s| - 1])
  }

  /** The `%X` text of a number reads back as that number. */
  lemma {:induction false} HexUpperNumberRoundTrip(n: nat)
    ensures ParseHex(HexUpperNumber(n)) == n
  {
    var r := HexUpperNumber(n);
    if n < 16 {
      assert r[..0] == [];
    } else {
      HexUpperNumberRoundTrip(n / 16);
      assert r[..|r| - 1] == HexUpperNumber(n / 16);
    }
  }

  /** Leading zeros do not change the value read. */
  lemma {:induction false} ParseHexLeadingZeros(z: string, d: string)
    requires forall i :: 0 <= i < |z| ==> z[i] == '0'
    ensures ParseHex(z + d) == ParseHex(d)
    decreases |d|
  {
    if d == [] {
      ParseHexZeros(z);
      assert z + d == z;
    } else {
      assert (z + d)[..|z + d| - 1] == z + d[..|d| - 1];
      ParseHexLeadingZeros(z, d[..|d| - 1]);
    }
  }

  lemma {:induction false} ParseHexZeros(z: string)
    requires forall i :: 0 <= i < |z| ==> z[i] == '0'
    ensures ParseHex(z) == 0
  {
    if z != [] {
      ParseHexZeros(z[..|z| - 1]);
    }
  }

  /** The offset comment's `%04X` digits read back as the offset. */
  lemma HexUpper4RoundTrip(n: nat)
    ensures ParseHex(HexUpper4(n)) == n
  {
    var d := HexUpperNumber(n);
    HexUpperNumberRoundTrip(n);
    if |d| < 4 {
      ParseHexLeadingZeros(seq(4 - |d|, _ => '0'), d);
    }
  }

  /** The `/* %04X*/` comment on its own line before every sixteenth byte. */
  function OffsetComment(i: nat): string
  {
    "\n/* " + HexUpper4(i) + "*/"
  }

  /** `printf("0x%02x", b)`. */
  function ByteToken(b: byte): string
  {
    "0x" + [LowerDigit(b as int / 16), LowerDigit(b as int % 16)]
  }

  /** What one iteration of the loop prints for `data[i]`. */
  function Piece(data: seq<byte>, i: nat): string
    requires i < |data|
  {
    (if i % 16 == 0 then OffsetComment(i) else "") + ByteToken(data[i]) + (if i + 1 != |data| then ", " else "")
  }

  function PiecesFrom(data: seq<byte>, i: nat): string
    requires i <= |data|
    decreases |data| - i
  {
    if i == |data| then [] else Piece(data, i) + PiecesFrom(data, i + 1)
  }

  lemma PieceParts(data: seq<byte>, i: nat, before: string, text: string)
    requires i < |data|
    requires text == before + (if i % 16 == 0 then OffsetComment(i) else "") + ByteToken(data[i])
      + (if i + 1 != |data| then ", " else "")
    ensures text == before + Piece(data, i)
  {
  }

  lemma PiecesFromStep(data: seq<byte>, i: nat, before: string, text: string)
    requires i < |data|
    requires before + PiecesFrom(data, i) == PiecesFrom(data, 0)
    requires text == before + Piece(data, i)
    ensures text + PiecesFrom(data, i + 1) == PiecesFrom(data, 0)
  {
    AppendAssoc(before, Piece(data, i), PiecesFrom(data, i + 1));
  }

  function ArrayHead(ident: string, size: nat): string
  {
    "static const uint8_t " + ident + "[" + Decimal(size) + "] = {"
  }

  /** Everything after the opening brace. */
  function ArrayBody(data: seq<byte>): string
  {
    PiecesFrom(data, 0) + (if |data| == 0 then EmptyMarker else "") + ArrayClose
  }

  /** emit_u8_array: the text it prints and the size it returns. */
  method EmitU8Array(ident: string, data: seq<byte>) returns (text: string, written: nat)
    requires |data| < 0x1_0000_0000
    ensures text == ArrayHead(ident, |data|) + ArrayBody(data)
    ensures written == |data|
  {
    var pieces := EmitBytes(data);
    var marker := if |data| == 0 then EmptyMarker else "";
    text := ArrayHead(ident, |data|) + (pieces + marker + ArrayClose);
    written := |data|;
  }

  /** The loop of emit_u8_array: an offset comment before every sixteenth byte, then the
      byte's token, then a comma unless it is the last one. */
  method EmitBytes(data: seq<byte>) returns (text: string)
    ensures text == PiecesFrom(data, 0)
  {
    text := "";
    var i := 0;
    while i < |data|
      invariant i <= |data|
      invariant text + PiecesFrom(data, i) == PiecesFrom(data, 0)
    {
      ghost var before := text;
      var comment := if i % 16 == 0 then OffsetComment(i) else "";
      var sep := if i + 1 != |data| then ", " else "";
      text := text + comment + ByteToken(data[i]) + sep;
      PieceParts(data, i, before, text);
      PiecesFromStep(data, i, before, text);
      i := i + 1;
    }
    assert text + [] == text;
  }

  /** Reads back the bytes of the `0xhh` tokens of a text, in order. */
  function DecodeTokens(s: string): seq<byte>
    decreases |s|
  {
    if |s| < 4 then []
    else if s[0] == '0' && s[1] == 'x' then [HexPair(s[2], s[3])] + DecodeTokens(s[4..])
    else DecodeTokens(s[1..])
  }

  predicate NoX(s: string)
  {
    forall i :: 0 <= i < |s| ==> s[i] != 'x'
  }

  /** Text without an `x` contributes no token, provided it does not end just before one. */
  lemma {:induction false} DecodeSkip(p: string, t: string)
    requires NoX(p) && (t == [] || t[0] != 'x')
    ensures DecodeTokens(p + t) == DecodeTokens(t)
  {
    if p == [] {
      assert p + t == t;
    } else {
      assert (p + t)[1..] == p[1..] + t;
      DecodeSkip(p[1..], t);
    }
  }

  lemma DecodeToken(b: byte, t: string)
    ensures DecodeTokens(ByteToken(b) + t) == [b] + DecodeTokens(t)
  {
    assert (ByteToken(b) + t)[4..] == t;
  }

  /** An offset comment holds no `x`, so it cannot be taken for a `0x..` token. */
  lemma HexUpper4IsPlain(n: nat)
    ensures NoX(OffsetComment(n))
  {
  }

  /** Whatever follows a token starts with a newline, a digit or the closing text. */
  lemma PiecesFromStart(data: seq<byte>, j: nat, tail: string)
    requires j <= |data| && NoX(tail)
    ensures PiecesFrom(data, j) + tail == [] || (PiecesFrom(data, j) + tail)[0] != 'x'
  {
    if j < |data| {
      var p := Piece(data, j);
      assert p[0] == '\n' || p[0] == '0';
      assert (PiecesFrom(data, j) + tail)[0] == p[0];
    } else {
      assert PiecesFrom(data, j) + tail == tail;
    }
  }

  lemma PiecesFromSplit(data: seq<byte>, i: nat, tail: string)
    requires i < |data|
    ensures PiecesFrom(data, i) + tail ==
      (if i % 16 == 0 then OffsetComment(i) else "") +
      (ByteToken(data[i]) + ((if i + 1 != |data| then ", " else "") + (PiecesFrom(data, i + 1) + tail)))
  {
    var comment := if i % 16 == 0 then OffsetComment(i) else "";
    var token := ByteToken(data[i]);
    var sep := if i + 1 != |data| then ", " else "";
    var rest := PiecesFrom(data, i + 1) + tail;
    assert Piece(data, i) == comment + token + sep;
    AppendAssoc(comment + token, sep, rest);
    AppendAssoc(comment, token, sep + rest);
    AppendAssoc(Piece(data, i), PiecesFrom(data, i + 1), tail);
  }

  lemma {:induction false} DecodePieces(data: seq<byte>, i: nat, tail: string)
    requires i <= |data| && NoX(tail)
    ensures DecodeTokens(PiecesFrom(data, i) + tail) == data[i..]
    decreases |data| - i
  {
    if i == |data| {
      DecodeSkip(tail, []);
      assert tail + [] == tail;
      assert PiecesFrom(data, i) + tail == tail;
    } else {
      DecodePieces(data, i + 1, tail);
      DecodePiece(data, i, tail);
    }
  }

  /** One step of the round trip: the piece for byte `i` decodes to that byte, in front of
      whatever the following pieces decode to. */
  lemma DecodePiece(data: seq<byte>, i: nat, tail: string)
    requires i < |data| && NoX(tail)
    requires DecodeTokens(PiecesFrom(data, i + 1) + tail) == data[i + 1..]
    ensures DecodeTokens(PiecesFrom(data, i) + tail) == data[i..]
  {
    var comment := if i % 16 == 0 then OffsetComment(i) else "";
    var token := ByteToken(data[i]);
    var sep := if i + 1 != |data| then ", " else "";
    var rest := PiecesFrom(data, i + 1) + tail;
    PiecesFromSplit(data, i, tail);
    PiecesFromStart(data, i + 1, tail);
    HexUpper4IsPlain(i);
    DecodeBetween(comment, data[i], sep, rest);
    SliceCons(data, i);
  }

  /** A token between text without an `x` decodes to its byte alone. */
  lemma DecodeBetween(before: string, b: byte, sep: string, rest: string)
    requires NoX(before) && (sep == ", " || sep == "") && (rest == [] || rest[0] != 'x')
    ensures DecodeTokens(before + (ByteToken(b) + (sep + rest))) == [b] + DecodeTokens(rest)
  {
    assert NoX(sep);
    var after := sep + rest;
    assert (ByteToken(b) + after)[0] == '0';
    DecodeSkip(before, ByteToken(b) + after);
    DecodeToken(b, after);
    DecodeSkip(sep, rest);
  }

  /** The array initialiser holds exactly the bytes given, one `0x%02x` token each, in order. */
  lemma ArrayBodyRoundTrip(data: seq<byte>)
    ensures DecodeTokens(ArrayBody(data)) == data
  {
    var tail := (if |data| == 0 then EmptyMarker else "") + ArrayClose;
    DecodePieces(data, 0, tail);
    assert ArrayBody(data) == PiecesFrom(data, 0) + tail;
  }

  /** The generated name of a file's array (`snprintf(arrname, 600, "ws_static_%s", ident)`). */
  function ArrayName(name: string): (r: string)
    ensures |r| < 600
  {
    "ws_static_" + IdentFromFilename(name, 512)
  }
}

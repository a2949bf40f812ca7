/** The compiler meeting the resolver: the `embedded_assets` table that dir2statics writes,
    as the C compiler reads the generated file, registered through `ws_set_static_assets`
    and served by the newer resolver (src/statics.h). */
module Pipeline {
  import opened Wrappers
  import opened CStrings
  import opened StaticsCommon
  import Statics
  import StaticsV1
  import Revisions
  import opened Dir2Statics

  // ===== The compiled table =====

  /** What the compiler is given besides the directory: one SHA-1 digest and one (gzipped)
      content per sorted name, and names and a prefix that are C strings. */
  predicate CompilerInputs(prefix: string, names: seq<string>, digests: seq<seq<byte>>, contents: seq<seq<byte>>)
  {
    |digests| == |names| && |contents| == |names| && |names| < 0x1_0000_0000 && NoNul(prefix) &&
    LiteralSafe(prefix) && DistinctIdents(names) &&
    forall i :: 0 <= i < |names| ==>
      ContentTypeFor(names[i]).Some? && NoNul(names[i]) && LiteralSafe(names[i]) &&
      |digests[i]| == DigestSize && |contents[i]| < 0x1_0000_0000
  }

  /** Text that `"%s"` can print inside a C string literal and that reads back unchanged:
      no quote (which would end the literal) and no backslash (which would start an escape). */
  predicate LiteralSafe(s: string)
  {
    NoQuote(s) && NoBackslash(s)
  }

  /** No two names give the same `ws_static_<ident>` array name (`a-b.js` and `a_b.js` both
      give `ws_static_a_b_js`, and the generated file would then define it twice). */
  predicate DistinctIdents(names: seq<string>)
  {
    forall i, j :: 0 <= i < j < |names| ==> IdentFromFilename(names[i], 512) != IdentFromFilename(names[j], 512)
  }

  /** Entry i of `embedded_assets`: the URL `prefix` + name, the header lines naming the
      digest as entity tag, the gzip encoding and the type, the content, and its size. */
  function CompiledAsset(prefix: string, name: string, digest: seq<byte>, content: seq<byte>): (a: Asset)
    requires ContentTypeFor(name).Some? && NoNul(prefix) && NoNul(name) && |content| < 0x1_0000_0000
    ensures WellFormedAsset(a)
  {
    MimeHasNoNul(name);
    HexHasNoBackslash(digest);
    RuntimeHeaderNoNul(HexUpper(digest), ContentTypeFor(name).value);
    assert NoNul(prefix + name);
    Asset(Some(prefix + name), RuntimeHeader(HexUpper(digest), ContentTypeFor(name).value), content, |content|)
  }

  /** The compiled table is one the resolver accepts: every size is the content's length,
      and no URL or header holds a NUL. */
  function Compiled(prefix: string, names: seq<string>, digests: seq<seq<byte>>, contents: seq<seq<byte>>): (t: seq<Asset>)
    requires CompilerInputs(prefix, names, digests, contents)
    ensures |t| == |names| && WellFormedTable(t)
  {
    seq(|names|, i requires 0 <= i < |names| => CompiledAsset(prefix, names[i], digests[i], contents[i]))
  }

  /** The table the generated file defines: the value of each `static_urls` literal, the
      value of the header literal and the content array of each sorted name, side by side. */
  method CompileTable(urlArg: Option<string>, entries: seq<DirEntry>, digests: seq<seq<byte>>, contents: seq<seq<byte>>)
    returns (table: seq<Asset>)
    requires CompilerInputs(UrlPrefix(urlArg), SortNames(AcceptedNames(entries)), digests, contents)
    ensures table == Compiled(UrlPrefix(urlArg), SortNames(AcceptedNames(entries)), digests, contents)
    ensures |QuotedStrings(UrlLinesFrom(UrlPrefix(urlArg), SortNames(AcceptedNames(entries)), 0))| == |table|
    ensures forall k :: 0 <= k < |table| ==>
              table[k].url == Some(CUnescape(QuotedStrings(UrlLinesFrom(UrlPrefix(urlArg), SortNames(AcceptedNames(entries)), 0))[k]))
  {
    var names := CollectNames(entries);
    var sorted := SortNames(names);
    var prefix := UrlPrefix(urlArg);
    var literals := QuotedStrings(UrlLinesFrom(prefix, sorted, 0));
    UrlLiteralValues(prefix, sorted);
    var headerTexts := BuildHeaderBlocks(sorted, digests);
    table := [];
    for i := 0 to |sorted|
      invariant |table| == i
      invariant forall j :: 0 <= j < i ==> table[j] == CompiledAsset(prefix, sorted[j], digests[j], contents[j])
    {
      var mime := ContentTypeFor(sorted[i]).value;
      MimeHasNoNul(sorted[i]);
      HexHasNoBackslash(digests[i]);
      HeaderLiteralValue(HexUpper(digests[i]), mime);
      table := table + [Asset(Some(CUnescape(literals[i])), CUnescape(headerTexts[i]), contents[i], |contents[i]|)];
    }
  }

  lemma HexHasNoBackslash(d: seq<byte>)
    ensures NoBackslash(HexUpper(d)) && NoNul(HexUpper(d))
  {
    HexUpperIsPlain(d);
  }

  /** The compiled header lines carry no NUL: the resolver reads them whole. */
  lemma RuntimeHeaderNoNul(hex: string, mime: string)
    requires NoNul(hex) && NoNul(mime)
    ensures NoNul(RuntimeHeader(hex, mime))
  {
    var h := RuntimeHeader(hex, mime);
    var a := "Etag: \"" + hex + "\"\r\n" + "Content-Encoding: gzip\r\n";
    var b := "Content-Type: " + mime + "\r\n";
    assert NoNul(a) && NoNul(b);
    assert h == a + b;
  }

  // ===== Lookup =====

  predicate Distinct(s: seq<string>)
  {
    forall i, j :: 0 <= i < j < |s| ==> s[i] != s[j]
  }

  /** A directory never lists the same name twice. */
  predicate DistinctNames(entries: seq<DirEntry>)
  {
    forall i, j :: 0 <= i < j < |entries| ==> entries[i].name != entries[j].name
  }

  /** With distinct names, the URL of entry i finds entry i and no other. */
  lemma EachUrlFindsItsAsset(prefix: string, names: seq<string>, digests: seq<seq<byte>>, contents: seq<seq<byte>>, i: nat)
    requires CompilerInputs(prefix, names, digests, contents) && Distinct(names) && i < |names|
    ensures LookupUrl(Compiled(prefix, names, digests, contents), prefix + names[i]) == i
  {
    var t := Compiled(prefix, names, digests, contents);
    var r := LookupUrl(t, prefix + names[i]);
    var key := prefix + names[i];
    assert names[i] == key[|prefix|..];
    forall j | 0 <= j < |t| && j != i
      ensures t[j].url != Some(key)
    {
      assert names[j] == (prefix + names[j])[|prefix|..];
      assert names[j] != names[i];
    }
    assert t[i].url == Some(key);
  }

  lemma {:induction false} DistinctCounts(s: seq<string>)
    requires Distinct(s)
    ensures forall x :: multiset(s)[x] <= 1
  {
    if s != [] {
      var init := s[..|s| - 1];
      var last := s[|s| - 1];
      assert s == init + [last];
      assert Distinct(init);
      DistinctCounts(init);
      assert last !in multiset(init);
    }
  }

  lemma CountsDistinct(s: seq<string>)
    requires forall x :: multiset(s)[x] <= 1
    ensures Distinct(s)
  {
    forall i, j | 0 <= i < j < |s|
      ensures s[i] != s[j]
    {
      assert s == s[..j] + s[j..];
      assert s[i] == s[..j][i] && s[j] == s[j..][0];
      assert multiset(s)[s[i]] == multiset(s[..j])[s[i]] + multiset(s[j..])[s[i]];
    }
  }

  lemma {:induction false} AcceptedNamesDistinct(entries: seq<DirEntry>)
    requires DistinctNames(entries)
    ensures Distinct(AcceptedNames(entries))
  {
    if entries != [] {
      var init := entries[..|entries| - 1];
      var last := entries[|entries| - 1];
      assert DistinctNames(init);
      AcceptedNamesDistinct(init);
      var r := AcceptedNames(init);
      if Accepted(last) {
        forall e | e in init
          ensures e.name != last.name
        {
          var k :| 0 <= k < |init| && init[k] == e;
          assert entries[k] == e;
        }
        assert last.name !in r;
        assert AcceptedNames(entries) == r + [last.name];
      }
    }
  }

  /** Distinct directory entries give distinct sorted names, so every compiled URL finds
      its own asset. */
  lemma CompiledNamesDistinct(entries: seq<DirEntry>)
    requires DistinctNames(entries)
    ensures Distinct(SortNames(AcceptedNames(entries)))
  {
    var names := AcceptedNames(entries);
    AcceptedNamesDistinct(entries);
    DistinctCounts(names);
    SortNamesCorrect(names);
    CountsDistinct(SortNames(names));
  }

  // ===== The compiled header at the resolver =====

  /** The resolver reads the compiled tag back: the 40 hex digits between the quotes. */
  lemma TagOfCompiledHeader(hex: string, mime: string)
    requires |hex| == 40 && forall k :: 0 <= k < |hex| ==> IsUpperHexDigit(hex[k])
    ensures Statics.EtagToken(RuntimeHeader(hex, mime)) == Some(hex)
  {
    var h := RuntimeHeader(hex, mime);
    assert h[..7] == "Etag: \"" && h[7..47] == hex && h[47] == '"';
    assert MatchesAt(h, Statics.EtagOpen, 0, true);
    FindIsFirst(h, Statics.EtagOpen, 0, true);
    forall q | 7 <= q < 47
      ensures !MatchesAt(h, Statics.Quote, q, true)
    {
      assert h[q] == hex[q - 7];
    }
    assert MatchesAt(h, Statics.Quote, 47, true);
    assert Statics.ContentBetween(h, Statics.EtagOpen, Statics.Quote) == Some(Statics.Between(7, 40));
    Statics.EtagTokenOf(h, Statics.Between(7, 40));
  }

  /** The compiled lines name an entity tag, so the resolver sends them as they are: no
      no-cache line is added and the gzip encoding line reaches the client. */
  lemma CompiledBlockVerbatim(hex: string, mime: string)
    ensures Statics.CustomBlock(RuntimeHeader(hex, mime)) == RuntimeHeader(hex, mime)
  {
    var h := RuntimeHeader(hex, mime);
    assert h[|h| - 2..] == CrLf;
    assert MatchesAt(h, Statics.EtagName, 0, true);
    Statics.CustomBlockCases(h);
  }

  /** Whatever the type and the size, a compiled asset's 200 or 304 header fits the
      resolver's 512-byte buffer, so it is always sent. */
  lemma CompiledHeaderFits(code: nat, hex: string, mime: string, body: Option<seq<byte>>, bodyLen: nat)
    requires code == 200 || code == 304
    requires |hex| == 40 && |mime| <= MaxMimeLength && bodyLen < 0x1_0000_0000
    requires body.Some? ==> |body.value| == bodyLen
    ensures Statics.SendResponse(code, Some(RuntimeHeader(hex, mime)), body, bodyLen).Sent?
  {
    var h := RuntimeHeader(hex, mime);
    CompiledBlockVerbatim(hex, mime);
    DecimalOfU32(bodyLen);
    DecimalOfCode(code);
    assert |StatusLine(code)| == 17;
    assert |Statics.ResponseHead(code, h, bodyLen)| <= 17 + 19 + |h| + 16 + 10 + 4;
  }

  /** A request whose If-None-Match field names the compiled tag is not modified. */
  lemma NamingTheTagIsNotModified(hex: string, mime: string, rest: string)
    requires |hex| == 40 && forall k :: 0 <= k < |hex| ==> IsUpperHexDigit(hex[k])
    ensures Statics.NotModified(RuntimeHeader(hex, mime), "If-None-Match: \"" + hex + rest)
  {
    var h := RuntimeHeader(hex, mime);
    var req := "If-None-Match: \"" + hex + rest;
    TagOfCompiledHeader(hex, mime);
    IfNoneMatchLeads("If-None-Match: \"", hex + rest);
    assert req == "If-None-Match: \"" + (hex + rest);
    MatchesAfterLead("If-None-Match: \"", hex, rest);
    Statics.NotModifiedComplete(h, req, 0, 16);
  }

  /** Text placed right after a lead is found there. */
  lemma MatchesAfterLead(lead: string, needle: string, rest: string)
    ensures MatchesAt(lead + needle + rest, needle, |lead|, true)
  {
    var hay := lead + needle + rest;
    forall k | 0 <= k < |needle|
      ensures CharEq(hay[|lead| + k], needle[k], true)
    {
      assert hay[|lead| + k] == needle[k];
    }
  }

  /** A request whose header text starts with the field name, in this spelling. */
  lemma IfNoneMatchLeads(lead: string, rest: string)
    requires lead == "If-None-Match: \""
    ensures MatchesAt(lead + rest, Statics.IfNoneMatch, 0, true)
  {
    var req := lead + rest;
    forall k | 0 <= k < |Statics.IfNoneMatch|
      ensures CharEq(req[k], Statics.IfNoneMatch[k], true)
    {
      assert req[k] == lead[k];
    }
  }

  // ===== A request for a compiled asset =====

  /** GET for the URL of compiled entry i: the asset is found, 304 exactly when the request
      names its tag, otherwise 200 with the content; either way the compiled lines go out as
      they are, ahead of the Content-Length. */
  lemma CompiledAssetServed(prefix: string, names: seq<string>, digests: seq<seq<byte>>, contents: seq<seq<byte>>,
                            i: nat, version: string, headers: string, alias: string)
    requires CompilerInputs(prefix, names, digests, contents) && Distinct(names) && i < |names|
    requires prefix != [] && NoChar(prefix + names[i], ' ') && NoChar(prefix + names[i], '?') && |prefix + names[i]| <= 511
    requires NoChar(version, '\n') && HasHeadEnd(headers)
    ensures var t := Compiled(prefix, names, digests, contents);
      var hdr := RuntimeHeader(HexUpper(digests[i]), ContentTypeFor(names[i]).value);
      var r := Statics.ServeSpec(Statics.RequestText("GET", prefix + names[i], version, headers), t, alias);
      (r.status == 304 <==> Statics.NotModified(hdr, headers)) && (r.status == 200 || r.status == 304) &&
      r.sent == Sent(Statics.ResponseHead(r.status, hdr, |contents[i]|), if r.status == 200 then contents[i] else [])
  {
    var t := Compiled(prefix, names, digests, contents);
    var path := prefix + names[i];
    var req := Statics.RequestText("GET", path, version, headers);
    var hex := HexUpper(digests[i]);
    var mime := ContentTypeFor(names[i]).value;
    VerbsPlain();
    Statics.ParseRequestLineComplete("GET", path, version, headers);
    HeadEndShifted("GET" + " " + path + " " + version + "\n", headers);
    assert LastIndexOf(names[i], '.').value > 0;
    assert path != Root by {
      assert |path| >= 2;
    }
    Statics.RequestKeyCases(path, alias);
    LookupKeyOfPlain(path);
    EachUrlFindsItsAsset(prefix, names, digests, contents, i);
    Statics.FoundAssetReply(req, t, alias);
    var r := Statics.ServeSpec(req, t, alias);
    CompiledBlockVerbatim(hex, mime);
    CompiledHeaderFits(r.status, hex, mime, if r.status == 200 then Some(contents[i]) else None, |contents[i]|);
  }

  // ===== The compiled table at the older resolver =====

  /** include/statics.h sends a compiled entry's lines as a Content-Type value: the blank
      line after them ends the head before the Content-Length line. */
  lemma OldResolverEndsCompiledHeadEarly(code: nat, hex: string, mime: string, bodyLen: nat)
    ensures var lines := RuntimeHeader(hex, mime); var h := StaticsV1.ResponseHead(code, lines, bodyLen);
      var beforeLength := StatusLine(code) + "Connection: close\r\n" + "Content-Type: " + lines + CrLf;
      beforeLength <= h && Find(h, HeadEnd, false).Some? && Find(h, HeadEnd, false).value + 4 <= |beforeLength|
  {
    var lines := RuntimeHeader(hex, mime);
    assert lines[|lines| - 2..] == CrLf;
    Revisions.LinesEndOldHeadEarly(code, lines, bodyLen);
  }
}

/** The newer static resolver, src/statics.h: it answers plain HTTP requests that arrive on
    the WebSocket port from the compiled asset table, with a root alias chosen on the first
    hit, a conditional GET on the asset's entity tag, and caller-supplied header lines. */
module Statics {
  import opened Wrappers
  import opened CStrings
  import opened StaticsCommon

  // ===== get_content_between =====

  /** Where the text between two terms starts, and how many bytes it has. */
  datatype Between = Between(start: nat, size: nat)

  /** `needle` occurs at `p`, ignoring case, and nowhere before. */
  predicate FirstMatch(hay: string, needle: string, p: nat)
  {
    MatchesAt(hay, needle, p, true) && forall q :: 0 <= q < p ==> !MatchesAt(hay, needle, q, true)
  }

  /** get_content_between: the first `startTerm` (any case), then the first `endTerm` (any
      case) at or after its end; the text between them. */
  function ContentBetween(buf: string, startTerm: string, endTerm: string): (r: Option<Between>)
    ensures r.Some? ==> r.value.start >= |startTerm| && FirstMatch(buf, startTerm, r.value.start - |startTerm|)
    ensures r.Some? ==> MatchesAt(buf, endTerm, r.value.start + r.value.size, true)
    ensures r.Some? ==> forall q :: r.value.start <= q < r.value.start + r.value.size ==> !MatchesAt(buf, endTerm, q, true)
    ensures r.None? <==> forall s: nat :: FirstMatch(buf, startTerm, s) ==>
                           forall q :: s + |startTerm| <= q ==> !MatchesAt(buf, endTerm, q, true)
  {
    match Find(buf, startTerm, true)
    case None => None
    case Some(s) =>
      var c := s + |startTerm|;
      match FindFrom(buf, endTerm, c, true)
      case None => None
      case Some(e) => Some(Between(c, e - c))
  }

  /** ends_with means "is some text followed by the suffix". */
  lemma EndsWithMeansSuffix(s: string, suffix: string)
    ensures EndsWith(s, suffix) <==> exists u :: s == u + suffix
  {
    if EndsWith(s, suffix) {
      assert s == s[..|s| - |suffix|] + suffix;
    }
    if exists u :: s == u + suffix {
      var u :| s == u + suffix;
      assert s[|s| - |suffix|..] == suffix;
    }
  }

  // ===== The caller's header lines (customHdrs) =====

  const EtagName := "etag:"
  const CacheControlName := "Cache-Control:"

  /** The block `http_send_response` builds from its `content_type` argument, before the
      511-byte cut: full header lines (ending in CR LF) pass through when they already name an
      entity tag or a cache policy, get a no-cache line otherwise, and a bare type becomes a
      Content-Type line. */
  function CustomBlock(ct: string): string
  {
    if EndsWith(ct, CrLf) then
      if ContentBetween(ct, EtagName, "\r").Some? then ct
      else if ContentBetween(ct, CacheControlName, "\r").Some? then ct
      else NoCacheLine + ct
    else NoCacheLine + "Content-Type: " + ct + CrLf
  }

  /** In lines that end in CR LF, a field name without CR or LF in it is always followed by a
      CR, so the probe for it succeeds exactly when the name is there. */
  lemma FieldProbe(ct: string, name: string)
    requires EndsWith(ct, CrLf)
    requires forall k :: 0 <= k < |name| ==> name[k] != '\r' && name[k] != '\n'
    ensures ContentBetween(ct, name, "\r").Some? <==> HasField(ct, name)
  {
    if HasField(ct, name) {
      var s :| MatchesAt(ct, name, s, true);
      var f := Find(ct, name, true).value;
      var cr := |ct| - 2;
      assert ct[cr] == '\r' && ct[cr + 1] == '\n';
      if f + |name| > cr {
        var k := if f <= cr then cr - f else cr + 1 - f;
        MatchedByte(ct, name, f, k);
        assert false;
      }
      assert MatchesAt(ct, "\r", cr, true);
    }
  }

  lemma MatchedByte(hay: string, needle: string, p: nat, k: nat)
    requires MatchesAt(hay, needle, p, true) && k < |needle|
    ensures ToLower(hay[p + k]) == ToLower(needle[k])
  {
  }

  /** The three shapes of the block, stated on the caller's text. */
  lemma CustomBlockCases(ct: string)
    ensures EndsWith(ct, CrLf) && (HasField(ct, EtagName) || HasField(ct, CacheControlName)) ==>
              CustomBlock(ct) == ct
    ensures EndsWith(ct, CrLf) && !HasField(ct, EtagName) && !HasField(ct, CacheControlName) ==>
              CustomBlock(ct) == NoCacheLine + ct
    ensures !EndsWith(ct, CrLf) ==> CustomBlock(ct) == NoCacheLine + "Content-Type: " + ct + CrLf
    ensures EndsWith(CustomBlock(ct), CrLf)
  {
    if EndsWith(ct, CrLf) {
      FieldProbe(ct, EtagName);
      FieldProbe(ct, CacheControlName);
      assert (NoCacheLine + ct)[|NoCacheLine + ct| - 2..] == ct[|ct| - 2..];
    } else {
      var b := NoCacheLine + "Content-Type: " + ct + CrLf;
      assert b[|b| - 2..] == CrLf;
    }
  }

  // ===== http_send_response =====

  /** The header text for a given block of custom lines. */
  function ResponseHead(code: nat, custom: string, bodyLen: nat): string
  {
    StatusLine(code) + "Connection: close\r\n" + custom + "Content-Length: " + Decimal(bodyLen) + CrLf + CrLf
  }

  /** http_send_response: `customHdrs` keeps at most 511 bytes of the block; a header of 512
      bytes or more is never sent; the body goes out only when present and non-empty. */
  function SendResponse(code: nat, contentType: Option<string>, body: Option<seq<byte>>, bodyLen: nat): (r: Sent)
    requires bodyLen < 0x1_0000_0000
    requires body.Some? ==> |body.value| == bodyLen
    ensures r.Overflow? <==> |ResponseHead(code, CustomBlock(contentType.GetOr(PlainType)), bodyLen)| >= 512
    ensures r.Sent? ==> r.header == ResponseHead(code, CustomBlock(contentType.GetOr(PlainType)), bodyLen)
    ensures r.Sent? ==> |r.header| < 512
    ensures r.Sent? ==> (r.body != [] <==> body.Some? && bodyLen > 0)
    ensures r.Sent? && body.Some? ==> r.body == body.value
  {
    var custom := Truncate(CustomBlock(contentType.GetOr(PlainType)), 511);
    var hdr := ResponseHead(code, custom, bodyLen);
    if |hdr| >= 512 then Overflow
    else Sent(hdr, if body.Some? && bodyLen > 0 then body.value else [])
  }

  /** Whether a body goes along changes neither whether the header fits nor what it says. */
  lemma BodyDoesNotShapeHeader(code: nat, contentType: Option<string>, body: seq<byte>)
    requires |body| < 0x1_0000_0000
    ensures var withBody := SendResponse(code, contentType, Some(body), |body|);
      var without := SendResponse(code, contentType, None, |body|);
      withBody.Sent? == without.Sent? &&
      (without.Sent? ==> withBody.header == without.header && without.body == [] && withBody.body == body)
  {
  }

  /** The reply to a request that is turned away: a plain-text message as the body. */
  function ErrorReply(code: nat, text: string): (r: Reply)
    requires |text| < 0x1_0000_0000
    ensures r.status == code
    ensures r.sent.Sent? ==> r.sent.body == Bytes(text)
  {
    Reply(code, SendResponse(code, None, Some(Bytes(text)), |text|))
  }

  // ===== http_parse_request_line =====

  datatype RequestLine = RequestLine(verb: string, path: string, headers: string)

  /** The request line split at the first space, the next space, and the first newline
      after that; the headers start after the newline. */
  function ParseRequestLine(req: string): (r: Option<RequestLine>)
  {
    match IndexOfFrom(req, ' ', 0)
    case None => None
    case Some(sp1) =>
      match IndexOfFrom(req, ' ', sp1 + 1)
      case None => None
      case Some(sp2) =>
        match IndexOfFrom(req, '\n', sp2 + 1)
        case None => None
        case Some(sp3) => Some(RequestLine(req[..sp1], req[sp1 + 1..sp2], req[sp3 + 1..]))
  }

  /** A request as it arrives: method, space, path, space, the rest of the request line (the
      protocol version), a newline, then the header lines. */
  function RequestText(m: string, p: string, v: string, h: string): string
  {
    m + " " + p + " " + v + "\n" + h
  }

  lemma RequestTextNested(m: string, p: string, v: string, h: string)
    ensures RequestText(m, p, v, h) == m + (" " + (p + (" " + (v + ("\n" + h)))))
  {
    calc {
      RequestText(m, p, v, h);
    ==
      ((((m + " ") + p) + " ") + v + "\n") + h;
    == { AppendAssoc((((m + " ") + p) + " ") + v, "\n", h); }
      ((((m + " ") + p) + " ") + v) + ("\n" + h);
    == { AppendAssoc(((m + " ") + p) + " ", v, "\n" + h); }
      (((m + " ") + p) + " ") + (v + ("\n" + h));
    == { AppendAssoc((m + " ") + p, " ", v + ("\n" + h)); }
      ((m + " ") + p) + (" " + (v + ("\n" + h)));
    == { AppendAssoc(m + " ", p, " " + (v + ("\n" + h))); }
      (m + " ") + (p + (" " + (v + ("\n" + h))));
    == { AppendAssoc(m, " ", p + (" " + (v + ("\n" + h)))); }
      m + (" " + (p + (" " + (v + ("\n" + h)))));
    }
  }

  /** What a parsed request looks like: method, space, path, space, the rest of the line
      (the version) up to a newline, then the headers. */
  lemma ParseRequestLineSound(req: string)
    requires ParseRequestLine(req).Some?
    ensures var l := ParseRequestLine(req).value;
      NoChar(l.verb, ' ') && NoChar(l.path, ' ') &&
      exists v :: NoChar(v, '\n') && req == RequestText(l.verb, l.path, v, l.headers)
  {
    var sp1 := IndexOfFrom(req, ' ', 0).value;
    var sp2 := IndexOfFrom(req, ' ', sp1 + 1).value;
    var sp3 := IndexOfFrom(req, '\n', sp2 + 1).value;
    ParseSuccess(req, sp1, sp2, sp3);
    SplitRequest(req, sp1, sp2, sp3);
    FieldsFree(req, sp1, sp2, sp3);
    var v := req[sp2 + 1..sp3];
    assert NoChar(v, '\n') && req == RequestText(req[..sp1], req[sp1 + 1..sp2], v, req[sp3 + 1..]);
  }

  /** Between the separators `strchr` found there is none of the character it looked for. */
  lemma FieldsFree(req: string, sp1: nat, sp2: nat, sp3: nat)
    requires IndexOfFrom(req, ' ', 0) == Some(sp1)
    requires IndexOfFrom(req, ' ', sp1 + 1) == Some(sp2)
    requires IndexOfFrom(req, '\n', sp2 + 1) == Some(sp3)
    ensures NoChar(req[..sp1], ' ') && NoChar(req[sp1 + 1..sp2], ' ') && NoChar(req[sp2 + 1..sp3], '\n')
  {
  }

  lemma SplitRequest(req: string, sp1: nat, sp2: nat, sp3: nat)
    requires sp1 < sp2 < sp3 < |req| && req[sp1] == ' ' && req[sp2] == ' ' && req[sp3] == '\n'
    ensures req == RequestText(req[..sp1], req[sp1 + 1..sp2], req[sp2 + 1..sp3], req[sp3 + 1..])
  {
    var m, p, v, h := req[..sp1], req[sp1 + 1..sp2], req[sp2 + 1..sp3], req[sp3 + 1..];
    var t3 := "\n" + h;
    assert req[sp3..] == t3;
    var t2 := " " + (v + t3);
    SliceSplit(req, sp2 + 1, sp3, |req|);
    assert req[sp2..] == t2;
    var t1 := " " + (p + t2);
    SliceSplit(req, sp1 + 1, sp2, |req|);
    assert req[sp1..] == t1;
    SliceSplit(req, 0, sp1, |req|);
    assert req == m + t1;
    RequestTextNested(m, p, v, h);
  }

  /** Every request of that shape parses back into its parts. */
  lemma ParseRequestLineComplete(m: string, p: string, v: string, h: string)
    requires NoChar(m, ' ') && NoChar(p, ' ') && NoChar(v, '\n')
    ensures ParseRequestLine(RequestText(m, p, v, h)) == Some(RequestLine(m, p, h))
  {
    var req := RequestText(m, p, v, h);
    var sp1 := |m|;
    var sp2 := |m| + 1 + |p|;
    var sp3 := sp2 + 1 + |v|;
    RequestTextSpaces(m, p, v, h);
    IndexOfFromIs(req, ' ', 0, sp1);
    IndexOfFromIs(req, ' ', sp1 + 1, sp2);
    IndexOfFromIs(req, '\n', sp2 + 1, sp3);
    RequestTextParts(m, p, v, h);
  }

  /** Where the separators of a request text are, and that nothing before them is one. */
  lemma RequestTextSpaces(m: string, p: string, v: string, h: string)
    requires NoChar(m, ' ') && NoChar(p, ' ') && NoChar(v, '\n')
    ensures var req := RequestText(m, p, v, h); var sp2 := |m| + 1 + |p|; var sp3 := sp2 + 1 + |v|;
      sp3 < |req| && req[|m|] == ' ' && req[sp2] == ' ' && req[sp3] == '\n' &&
      (forall j :: 0 <= j < |m| ==> req[j] != ' ') &&
      (forall j :: |m| + 1 <= j < sp2 ==> req[j] != ' ') &&
      (forall j :: sp2 + 1 <= j < sp3 ==> req[j] != '\n')
  {
    RequestTextNested(m, p, v, h);
  }

  /** The method, the path and the headers, read back out of a request text. */
  lemma RequestTextParts(m: string, p: string, v: string, h: string)
    ensures var req := RequestText(m, p, v, h); var sp2 := |m| + 1 + |p|; var sp3 := sp2 + 1 + |v|;
      sp3 < |req| && req[..|m|] == m && req[|m| + 1..sp2] == p && req[sp3 + 1..] == h
  {
    RequestTextNested(m, p, v, h);
    PrefixSlice(m, " " + (p + (" " + (v + ("\n" + h)))));
    MiddleSlice(m, " ", p, " " + (v + ("\n" + h)));
    PrefixSlice(m + " " + p + " " + v + "\n", h);
  }

  /** The first space is overwritten even when the line then fails to parse. */
  lemma NulAtFirstSpace(b: seq<char>)
    requires IndexOfFrom(CStr(b), ' ', 0).Some?
    ensures NulsWritten(b)[IndexOfFrom(CStr(b), ' ', 0).value] == NUL
    ensures CStr(NulsWritten(b)) == CStr(b)[..IndexOfFrom(CStr(b), ' ', 0).value]
  {
    var req := CStr(b);
    var sp1 := IndexOfFrom(req, ' ', 0).value;
    var r := NulsWritten(b);
    assert r[sp1] == NUL;
    assert r[..sp1] == req[..sp1];
    CStrUpTo(r, sp1);
  }

  /** The request line as the buffer `w` holds it after the parse: nothing when the parse
      failed; otherwise the method is the C string at the start of the buffer, the path the
      one at `path`, and the headers the one at `headers`. */
  function ReadBack(w: seq<char>, ok: bool, path: nat, headers: nat): (r: Option<RequestLine>)
    ensures r.Some? <==> ok && path <= |w| && headers <= |w|
  {
    if ok && path <= |w| && headers <= |w| then Some(RequestLine(CStr(w), CStrAt(w, path), CStrAt(w, headers)))
    else None
  }

  /** http_parse_request_line: cuts the request line in the buffer itself. */
  method ParseRequestLineInPlace(buf: array<char>) returns (ok: bool, path: nat, headers: nat)
    modifies buf
    ensures buf[..] == NulsWritten(old(buf[..]))
    ensures ParseRequestLine(CStr(old(buf[..]))) == ReadBack(buf[..], ok, path, headers)
    ensures ok ==> path <= buf.Length && headers <= buf.Length
  {
    var text := buf[..];
    var s1 := StrChr(text, 0, ' ');
    if s1.None? {
      NoFirstSpace(text);
      return false, 0, 0;
    }
    var sp1 := s1.value;
    Terminate(buf, sp1);
    var s2 := StrChr(text, sp1 + 1, ' ');
    if s2.None? {
      NoSecondSpace(text, buf[..], sp1);
      return false, 0, 0;
    }
    var sp2 := s2.value;
    Terminate(buf, sp2);
    var s3 := StrChr(text, sp2 + 1, '\n');
    if s3.None? {
      NoLineFeed(text, buf[..], sp1, sp2);
      return false, 0, 0;
    }
    var sp3 := s3.value;
    WrittenParts(text, buf[..], sp1, sp2, sp3);
    return true, sp1 + 1, sp3 + 1;
  }

  /** The three ways the parse fails, and what the buffer holds then. */
  lemma NoFirstSpace(b: seq<char>)
    requires IndexOfFrom(CStr(b), ' ', 0).None?
    ensures NulsWritten(b) == b && ParseRequestLine(CStr(b)) == ReadBack(b, false, 0, 0)
  {
  }

  lemma NoSecondSpace(b: seq<char>, w: seq<char>, sp1: nat)
    requires IndexOfFrom(CStr(b), ' ', 0) == Some(sp1)
    requires IndexOfFrom(CStr(b), ' ', sp1 + 1).None?
    requires w == b[sp1 := NUL]
    ensures NulsWritten(b) == w && ParseRequestLine(CStr(b)) == ReadBack(w, false, 0, 0)
  {
  }

  lemma NoLineFeed(b: seq<char>, w: seq<char>, sp1: nat, sp2: nat)
    requires IndexOfFrom(CStr(b), ' ', 0) == Some(sp1)
    requires IndexOfFrom(CStr(b), ' ', sp1 + 1) == Some(sp2)
    requires IndexOfFrom(CStr(b), '\n', sp2 + 1).None?
    requires w == b[sp1 := NUL][sp2 := NUL]
    ensures NulsWritten(b) == w && ParseRequestLine(CStr(b)) == ReadBack(w, false, 0, 0)
  {
    NulsWrittenSuccess(b, sp1, sp2);
  }

  /** After three successful `strchr` calls, the two NULs written split off the method
      and the path, and the headers follow the first line feed. */
  lemma WrittenParts(b: seq<char>, w: seq<char>, sp1: nat, sp2: nat, sp3: nat)
    requires IndexOfFrom(CStr(b), ' ', 0) == Some(sp1)
    requires IndexOfFrom(CStr(b), ' ', sp1 + 1) == Some(sp2)
    requires IndexOfFrom(CStr(b), '\n', sp2 + 1) == Some(sp3)
    requires w == b[sp1 := NUL][sp2 := NUL]
    ensures NulsWritten(b) == w && ParseRequestLine(CStr(b)) == ReadBack(w, true, sp1 + 1, sp3 + 1)
  {
    ParseSuccess(CStr(b), sp1, sp2, sp3);
    NulsWrittenSuccess(b, sp1, sp2);
    ReadParts(b, sp1, sp2, sp3);
  }

  lemma ParseSuccess(req: string, sp1: nat, sp2: nat, sp3: nat)
    requires IndexOfFrom(req, ' ', 0) == Some(sp1)
    requires IndexOfFrom(req, ' ', sp1 + 1) == Some(sp2)
    requires IndexOfFrom(req, '\n', sp2 + 1) == Some(sp3)
    ensures sp1 < sp2 < sp3 < |req|
    ensures ParseRequestLine(req) == Some(RequestLine(req[..sp1], req[sp1 + 1..sp2], req[sp3 + 1..]))
  {
  }

  /** The three C strings the parser leaves in the buffer: the method, the path, and the
      rest after the first line feed. */
  lemma ReadParts(b: seq<char>, sp1: nat, sp2: nat, sp3: nat)
    requires sp1 < sp2 < sp3 < |CStr(b)|
    ensures var w := b[sp1 := NUL][sp2 := NUL]; var req := CStr(b);
      CStr(w) == req[..sp1] && CStr(w[sp1 + 1..]) == req[sp1 + 1..sp2] && CStr(w[sp3 + 1..]) == req[sp3 + 1..]
  {
    MethodAndPath(b, sp1, sp2);
    var w := b[sp1 := NUL][sp2 := NUL];
    assert w[sp3 + 1..] == b[sp3 + 1..];
    CStrSuffix(b, sp3 + 1);
  }

  // ===== static_find_path: the lookup key =====

  const IndexHtml := "/index.html"


  /** The key looked up for a request path: a missing or empty path means "/", and exactly
      "/" means the root alias; only then is the query cut off and the key cut to 511 bytes. */
  function RequestKey(path: string, alias: string): string
  {
    var p := if path == [] then Root else path;
    LookupKey(if p == Root then alias else p)
  }

  /** "" and "/" both stand for the alias; every other path is looked up as itself, minus
      its query. */
  lemma RequestKeyCases(path: string, alias: string)
    ensures path == [] || path == Root ==> RequestKey(path, alias) == LookupKey(alias)
    ensures path != [] && path != Root ==> RequestKey(path, alias) == LookupKey(path)
  {
  }

  /** The alias is applied before the query is cut, so "/?anything" is looked up as the
      literal "/" and never reaches the alias. */
  lemma RootWithQueryIsLiteral(query: string, alias: string)
    ensures RequestKey("/?" + query, alias) == Root
  {
    var p := "/?" + query;
    assert p != Root && p[1] == '?';
    IndexOfFromIs(p, '?', 0, 1);
  }

  // ===== find_root_alias =====

  const DotHtml := ".html"

  predicate IsRootEntry(a: Asset)
  {
    a.url.Some? && (a.url.value == IndexHtml || a.url.value == Root)
  }

  predicate IsHtmlEntry(a: Asset)
  {
    a.url.Some? && EndsWith(a.url.value, DotHtml)
  }

  /** The first entry whose URL is "/index.html" or "/". */
  function FirstRootEntry(t: seq<Asset>): (r: Option<nat>)
    ensures r.Some? ==> r.value < |t| && IsRootEntry(t[r.value])
    ensures r.Some? ==> forall j :: 0 <= j < r.value ==> !IsRootEntry(t[j])
    ensures r.None? <==> forall j :: 0 <= j < |t| ==> !IsRootEntry(t[j])
  {
    if t == [] then None
    else if IsRootEntry(t[0]) then Some(0)
    else match FirstRootEntry(t[1..])
      case None => None
      case Some(i) => Some(i + 1)
  }

  /** The positions of the entries whose URL ends in ".html", in table order. */
  function HtmlIndices(t: seq<Asset>): seq<nat>
  {
    HtmlIndicesBelow(t, |t|)
  }

  /** The positions below `n` of the entries whose URL ends in ".html". */
  function HtmlIndicesBelow(t: seq<Asset>, n: nat): seq<nat>
    requires n <= |t|
  {
    if n == 0 then []
    else HtmlIndicesBelow(t, n - 1) + (if IsHtmlEntry(t[n - 1]) then [n - 1] else [])
  }

  /** Exactly the ".html" entries below `n` are listed, each once, in increasing order. */
  lemma {:induction false} HtmlIndicesBelowSpec(t: seq<Asset>, n: nat)
    requires n <= |t|
    ensures forall k :: 0 <= k < |HtmlIndicesBelow(t, n)| ==>
              HtmlIndicesBelow(t, n)[k] < n && IsHtmlEntry(t[HtmlIndicesBelow(t, n)[k]])
    ensures forall j :: 0 <= j < n && IsHtmlEntry(t[j]) ==> j in HtmlIndicesBelow(t, n)
    ensures forall k, l :: 0 <= k < l < |HtmlIndicesBelow(t, n)| ==>
              HtmlIndicesBelow(t, n)[k] < HtmlIndicesBelow(t, n)[l]
  {
    if n > 0 {
      HtmlIndicesBelowSpec(t, n - 1);
    }
  }

  /** Exactly the ".html" entries are listed, each once, in table order. */
  lemma HtmlIndicesSpec(t: seq<Asset>)
    ensures forall k :: 0 <= k < |HtmlIndices(t)| ==> HtmlIndices(t)[k] < |t| && IsHtmlEntry(t[HtmlIndices(t)[k]])
    ensures forall j :: 0 <= j < |t| && IsHtmlEntry(t[j]) ==> j in HtmlIndices(t)
    ensures forall k, l :: 0 <= k < l < |HtmlIndices(t)| ==> HtmlIndices(t)[k] < HtmlIndices(t)[l]
  {
    HtmlIndicesBelowSpec(t, |t|);
  }

  lemma IncreasingPair(hs: seq<nat>, k: nat, l: nat)
    requires forall a, b :: 0 <= a < b < |hs| ==> hs[a] < hs[b]
    requires k < l < |hs|
    ensures hs[k] < hs[l]
  {
  }

  lemma HtmlIndexValid(t: seq<Asset>, k: nat)
    requires k < |HtmlIndices(t)|
    ensures HtmlIndices(t)[k] < |t| && IsHtmlEntry(t[HtmlIndices(t)[k]])
  {
    HtmlIndicesSpec(t);
  }

  /** What the first hit sets the alias to, if anything: the first "/index.html" or "/"
      entry, else the only ".html" entry, cut to the 255 bytes the alias buffer holds. */
  function ChosenAlias(t: seq<Asset>): Option<string>
  {
    match FirstRootEntry(t)
    case Some(i) => Some(Truncate(t[i].url.value, 255))
    case None =>
      var hs := HtmlIndices(t);
      if |hs| == 1 then
        HtmlIndexValid(t, 0);
        Some(Truncate(t[hs[0]].url.value, 255))
      else None
  }

  /** The alias after the first hit: the scan only runs while the alias is still the
      initial "/index.html". */
  function AliasAfterFirstHit(alias: string, t: seq<Asset>): string
  {
    if alias != IndexHtml then alias else ChosenAlias(t).GetOr(alias)
  }

  /** A "/index.html" or "/" entry wins, whatever ".html" entries there are. */
  lemma RootEntryWins(t: seq<Asset>, i: nat)
    requires i < |t| && IsRootEntry(t[i])
    requires forall j :: 0 <= j < i ==> !IsRootEntry(t[j])
    ensures AliasAfterFirstHit(IndexHtml, t) == Truncate(t[i].url.value, 255)
  {
    assert FirstRootEntry(t) == Some(i);
  }

  /** Without such an entry, a single ".html" entry becomes the alias. */
  lemma SingleHtmlEntryWins(t: seq<Asset>, i: nat)
    requires forall j :: 0 <= j < |t| ==> !IsRootEntry(t[j])
    requires i < |t| && IsHtmlEntry(t[i])
    requires forall j :: 0 <= j < |t| && j != i ==> !IsHtmlEntry(t[j])
    ensures AliasAfterFirstHit(IndexHtml, t) == Truncate(t[i].url.value, 255)
  {
    var hs := HtmlIndices(t);
    HtmlIndicesSpec(t);
    assert i in hs;
    if |hs| != 1 {
      IncreasingPair(hs, 0, 1);
      assert false;
    }
  }

  /** With no such entry and two ".html" entries, the alias stays "/index.html". */
  lemma AmbiguousHtmlKeepsAlias(t: seq<Asset>, i: nat, j: nat)
    requires forall k :: 0 <= k < |t| ==> !IsRootEntry(t[k])
    requires i < |t| && j < |t| && i != j && IsHtmlEntry(t[i]) && IsHtmlEntry(t[j])
    ensures AliasAfterFirstHit(IndexHtml, t) == IndexHtml
  {
    var hs := HtmlIndices(t);
    HtmlIndicesSpec(t);
    assert i in hs && j in hs;
  }

  /** With no candidate at all, the alias stays "/index.html". */
  lemma NoCandidateKeepsAlias(t: seq<Asset>)
    requires forall k :: 0 <= k < |t| ==> !IsRootEntry(t[k]) && !IsHtmlEntry(t[k])
    ensures AliasAfterFirstHit(IndexHtml, t) == IndexHtml
  {
    assert FirstRootEntry(t).None?;
    var hs := HtmlIndices(t);
    if hs != [] {
      HtmlIndexValid(t, 0);
      assert false;
    }
  }

  /** An alias someone already changed is kept. */
  lemma AliasKeptOnceSet(alias: string, t: seq<Asset>)
    requires alias != IndexHtml
    ensures AliasAfterFirstHit(alias, t) == alias
  {
  }

  // ===== The conditional GET (If-None-Match) =====

  const EtagOpen := "etag: \""
  const Quote := "\""
  const IfNoneMatch := "if-none-match:"

  /** The entity tag an asset's header lines announce: the text between the first `etag: "`
      (any case) and the next quote, taken only when it is exactly 40 bytes long. */
  function EtagToken(headers: string): (r: Option<string>)
    ensures r.Some? ==> |r.value| == 40
    ensures r.Some? ==> exists s: nat :: FirstMatch(headers, EtagOpen, s) && s + 48 <= |headers| &&
                          headers[s + 7..s + 47] == r.value && headers[s + 47] == '"'
  {
    match ContentBetween(headers, EtagOpen, Quote)
    case None => None
    case Some(b) =>
      if b.size == 40 then
        var s := b.start - |EtagOpen|;
        assert MatchesAt(headers, Quote, b.start + 40, true);
        assert FirstMatch(headers, EtagOpen, s) && headers[s + 7..s + 47] == headers[b.start..b.start + 40];
        Some(headers[b.start..b.start + 40])
      else None
  }

  /** The request's first If-None-Match field is followed, within fewer than 5 bytes, by the
      asset's entity tag (any case). */
  predicate NotModified(assetHeaders: string, reqHeaders: string)
  {
    match EtagToken(assetHeaders)
    case None => false
    case Some(tag) =>
      match ContentBetween(reqHeaders, IfNoneMatch, tag)
      case None => false
      case Some(g) => g.size < 5
  }

  /** A 304 needs the asset's tag and a request naming it right after its first
      If-None-Match. */
  lemma NotModifiedSound(assetHeaders: string, reqHeaders: string)
    requires NotModified(assetHeaders, reqHeaders)
    ensures EtagToken(assetHeaders).Some?
    ensures exists i: nat, p: nat :: FirstMatch(reqHeaders, IfNoneMatch, i) && i + 14 <= p < i + 19 &&
              MatchesAt(reqHeaders, EtagToken(assetHeaders).value, p, true)
  {
    var tag := EtagToken(assetHeaders).value;
    NotModifiedByTag(assetHeaders, reqHeaders, tag);
    var g := ContentBetween(reqHeaders, IfNoneMatch, tag).value;
    var i := g.start - 14;
    assert FirstMatch(reqHeaders, IfNoneMatch, i) && i + 14 <= g.start + g.size < i + 19;
  }

  /** ... and such a request always gets it. */
  lemma NotModifiedComplete(assetHeaders: string, reqHeaders: string, i: nat, p: nat)
    requires EtagToken(assetHeaders).Some?
    requires FirstMatch(reqHeaders, IfNoneMatch, i) && i + 14 <= p < i + 19
    requires MatchesAt(reqHeaders, EtagToken(assetHeaders).value, p, true)
    ensures NotModified(assetHeaders, reqHeaders)
  {
    var tag := EtagToken(assetHeaders).value;
    assert Find(reqHeaders, IfNoneMatch, true) == Some(i);
    var e := FindFrom(reqHeaders, tag, i + 14, true);
    assert e.Some? && e.value <= p;
  }

  // ===== serve_static_http =====

  /** The reply `serve_static_http` sends for request text `req`, against the active table
      and the root alias in force when the path is looked up. */
  function ServeSpec(req: string, table: seq<Asset>, alias: string): (r: Reply)
    requires WellFormedTable(table)
  {
    if !HasHeadEnd(req) then ErrorReply(400, BadRequestText)
    else match ParseRequestLine(req)
      case None => ErrorReply(400, BadRequestText)
      case Some(l) => ServeLine(l, table, alias)
  }

  /** The rest of the ladder, once the request line is parsed. */
  function ServeLine(l: RequestLine, table: seq<Asset>, alias: string): (r: Reply)
    requires WellFormedTable(table)
  {
    if l.verb != "GET" && l.verb != "HEAD" then ErrorReply(405, MethodNotAllowedText)
    else
      var idx := LookupUrl(table, RequestKey(l.path, alias));
      if idx < 0 then ErrorReply(404, NotFoundText)
      else AssetReply(l.verb == "HEAD", table[idx], l.headers)
  }

  /** The reply for a found asset: 304 when the request names its tag, else 200, with the
      content only for GET. */
  function AssetReply(isHead: bool, a: Asset, reqHeaders: string): (r: Reply)
    requires WellFormedAsset(a)
  {
    if NotModified(a.headers, reqHeaders) then Reply(304, SendResponse(304, Some(a.headers), None, a.size))
    else if isHead then Reply(200, SendResponse(200, Some(a.headers), None, a.size))
    else Reply(200, SendResponse(200, Some(a.headers), Some(a.content), a.size))
  }

  /** The status ladder: 400 for an incomplete head or a bad request line, 405 for any
      method but GET and HEAD, 404 when no URL matches, and 200 or 304 otherwise. */
  lemma StatusLadder(req: string, table: seq<Asset>, alias: string)
    requires WellFormedTable(table)
    ensures var r := ServeSpec(req, table, alias); var l := ParseRequestLine(req);
      (r.status == 400 <==> !HasHeadEnd(req) || l.None?) &&
      (r.status == 405 <==> HasHeadEnd(req) && l.Some? && l.value.verb != "GET" && l.value.verb != "HEAD") &&
      (r.status == 404 <==> HasHeadEnd(req) && l.Some? && (l.value.verb == "GET" || l.value.verb == "HEAD") &&
                            LookupUrl(table, RequestKey(l.value.path, alias)) == -1) &&
      ((r.status == 200 || r.status == 304) <==>
         HasHeadEnd(req) && l.Some? && (l.value.verb == "GET" || l.value.verb == "HEAD") &&
         LookupUrl(table, RequestKey(l.value.path, alias)) >= 0)
  {
  }

  /** A found asset is answered with its own header lines and a Content-Length of its size;
      GET carries the content, HEAD and 304 carry nothing, and 304 happens exactly when the
      request names the asset's tag. */
  lemma FoundAssetReply(req: string, table: seq<Asset>, alias: string)
    requires WellFormedTable(table) && HasHeadEnd(req) && ParseRequestLine(req).Some?
    requires var l := ParseRequestLine(req).value;
      (l.verb == "GET" || l.verb == "HEAD") && LookupUrl(table, RequestKey(l.path, alias)) >= 0
    ensures var l := ParseRequestLine(req).value; var a := table[LookupUrl(table, RequestKey(l.path, alias))];
      var r := ServeSpec(req, table, alias);
      (r.status == 304 <==> NotModified(a.headers, l.headers)) &&
      (r.sent.Sent? <==> |ResponseHead(r.status, CustomBlock(a.headers), |a.content|)| < 512) &&
      (r.sent.Sent? ==> r.sent.header == ResponseHead(r.status, CustomBlock(a.headers), |a.content|)) &&
      (r.sent.Sent? ==> r.sent.body == (if r.status == 200 && l.verb == "GET" then a.content else []))
  {
  }

  /** HEAD is GET without the body: same status, same header, and nothing after the header
      when the asset is found; a refused HEAD gets exactly the refusal GET gets. */
  lemma HeadIsGetWithoutBody(path: string, version: string, headers: string, table: seq<Asset>, alias: string)
    requires WellFormedTable(table)
    requires NoChar(path, ' ') && NoChar(version, '\n')
    ensures var g := ServeSpec(RequestText("GET", path, version, headers), table, alias);
      var h := ServeSpec(RequestText("HEAD", path, version, headers), table, alias);
      h == HeadReplyOf(g)
  {
    var get := RequestText("GET", path, version, headers);
    var head := RequestText("HEAD", path, version, headers);
    VerbsPlain();
    HeadEndOfVerbs(path, version, headers);
    ParseRequestLineComplete("GET", path, version, headers);
    ParseRequestLineComplete("HEAD", path, version, headers);
    HeadAndGetReplies(get, head, path, headers, table, alias);
  }

  /** The head of a GET request ends exactly when that of the same HEAD request does. */
  lemma HeadEndOfVerbs(path: string, version: string, headers: string)
    ensures HasHeadEnd(RequestText("GET", path, version, headers)) == HasHeadEnd(RequestText("HEAD", path, version, headers))
  {
    var rest := " " + (path + (" " + (version + ("\n" + headers))));
    RequestTextNested("GET", path, version, headers);
    RequestTextNested("HEAD", path, version, headers);
    VerbsPlain();
    HeadEndIgnoresVerb("GET", "HEAD", rest);
  }

  lemma HeadAndGetReplies(get: string, head: string, path: string, headers: string, table: seq<Asset>, alias: string)
    requires WellFormedTable(table)
    requires HasHeadEnd(get) == HasHeadEnd(head)
    requires ParseRequestLine(get) == Some(RequestLine("GET", path, headers))
    requires ParseRequestLine(head) == Some(RequestLine("HEAD", path, headers))
    ensures var g := ServeSpec(get, table, alias); var h := ServeSpec(head, table, alias);
      h == HeadReplyOf(g)
  {
    if HasHeadEnd(get) {
      ServeSpecOfParsed(get, RequestLine("GET", path, headers), table, alias);
      ServeSpecOfParsed(head, RequestLine("HEAD", path, headers), table, alias);
      ServeLineHeadGet(path, headers, table, alias);
    }
  }

  lemma ServeLineHeadGet(path: string, headers: string, table: seq<Asset>, alias: string)
    requires WellFormedTable(table)
    ensures var g := ServeLine(RequestLine("GET", path, headers), table, alias);
      var h := ServeLine(RequestLine("HEAD", path, headers), table, alias);
      h == HeadReplyOf(g)
  {
    var idx := LookupUrl(table, RequestKey(path, alias));
    if idx >= 0 {
      AssetReplyHeadGet(table[idx], headers);
    }
  }

  lemma AssetReplyHeadGet(a: Asset, reqHeaders: string)
    requires WellFormedAsset(a)
    ensures AssetReply(true, a, reqHeaders) == HeadReplyOf(AssetReply(false, a, reqHeaders))
  {
    if !NotModified(a.headers, reqHeaders) {
      BodyDoesNotShapeHeader(200, Some(a.headers), a.content);
    }
  }

  /** Any other method is refused with 405, whatever the path and the table. */
  lemma OtherMethodsRefused(verb: string, path: string, version: string, headers: string,
                            table: seq<Asset>, alias: string)
    requires WellFormedTable(table)
    requires NoChar(verb, ' ') && NoChar(path, ' ') && NoChar(version, '\n')
    requires HasHeadEnd(RequestText(verb, path, version, headers))
    requires verb != "GET" && verb != "HEAD"
    ensures ServeSpec(RequestText(verb, path, version, headers), table, alias).status == 405
  {
    ParseRequestLineComplete(verb, path, version, headers);
  }

  // ===== do_handshake: the dispatch =====

  /** What `do_handshake` does with the received text `req`; `accepted` is the verdict of the
      handshake-response builder, which is not part of this model. */
  function HandshakeSpec(req: string, accepted: bool, table: seq<Asset>, alias: string): Handshake
    requires WellFormedTable(table)
  {
    Dispatch(req, accepted, ErrorReply(400, BadRequestText).sent, ServeSpec(req, table, alias),
             ErrorReply(400, BadHandshakeText).sent)
  }

  /** The request gets as far as the table lookup (and so touches the registry and the
      root alias). */
  predicate ReachesLookup(req: string)
  {
    HasHeadEnd(req) && ParseRequestLine(req).Some? &&
    (ParseRequestLine(req).value.verb == "GET" || ParseRequestLine(req).value.verb == "HEAD")
  }

  /** Once the head is complete and the line parses, the reply is decided by the line. */
  lemma ServeSpecOfParsed(req: string, l: RequestLine, table: seq<Asset>, alias: string)
    requires WellFormedTable(table) && HasHeadEnd(req) && ParseRequestLine(req) == Some(l)
    ensures ServeSpec(req, table, alias) == ServeLine(l, table, alias)
    ensures ReachesLookup(req) <==> l.verb == "GET" || l.verb == "HEAD"
  {
  }

  // ===== The loops of find_root_alias, static_find_path and serve_static_http =====

  /** The first root entry settles the alias. */
  lemma ChosenAliasAtRoot(t: seq<Asset>, i: nat)
    requires i < |t| && IsRootEntry(t[i])
    requires forall j :: 0 <= j < i ==> !IsRootEntry(t[j])
    ensures ChosenAlias(t) == Some(Truncate(t[i].url.value, 255))
  {
    assert FirstRootEntry(t) == Some(i);
  }

  /** Without a root entry, the alias is the one ".html" entry when there is exactly one. */
  lemma ChosenAliasWithoutRoot(t: seq<Asset>)
    requires forall j :: 0 <= j < |t| ==> !IsRootEntry(t[j])
    ensures |HtmlIndices(t)| != 1 ==> ChosenAlias(t).None?
    ensures |HtmlIndices(t)| == 1 ==> HtmlIndices(t)[0] < |t| && IsHtmlEntry(t[HtmlIndices(t)[0]])
    ensures |HtmlIndices(t)| == 1 ==> ChosenAlias(t) == Some(Truncate(t[HtmlIndices(t)[0]].url.value, 255))
  {
    assert FirstRootEntry(t).None?;
    if |HtmlIndices(t)| == 1 {
      HtmlIndexValid(t, 0);
    }
  }

  /** The scan of find_root_alias: the first "/index.html" or "/" entry, else the one
      ".html" entry when there is exactly one; each cut to 255 bytes. */
  method ScanRootAlias(t: seq<Asset>) returns (chosen: Option<string>)
    ensures chosen == ChosenAlias(t)
  {
    var htmlCount := 0;
    var gotIt := 0;
    ghost var hs: seq<nat> := [];
    var i := 0;
    while i < |t|
      invariant i <= |t|
      invariant forall j :: 0 <= j < i ==> !IsRootEntry(t[j])
      invariant hs == HtmlIndicesBelow(t, i)
      invariant htmlCount == |hs| && (htmlCount > 0 ==> gotIt == hs[htmlCount - 1])
    {
      if t[i].url.Some? {
        var u := t[i].url.value;
        if u == IndexHtml || u == Root {
          ChosenAliasAtRoot(t, i);
          return Some(Truncate(u, 255));
        }
        if EndsWith(u, DotHtml) {
          gotIt := i;
          htmlCount := htmlCount + 1;
          hs := hs + [i];
        }
      }
      i := i + 1;
    }
    ChosenAliasWithoutRoot(t);
    if htmlCount == 1 {
      return Some(Truncate(t[gotIt].url.value, 255));
    }
    return None;
  }

  /** Whatever alias a well-formed table yields is a C string. */
  lemma ChosenAliasNoNul(t: seq<Asset>)
    requires WellFormedTable(t) && ChosenAlias(t).Some?
    ensures NoNul(ChosenAlias(t).value)
  {
    match FirstRootEntry(t)
    case Some(i) =>
      assert WellFormedAsset(t[i]);
    case None =>
      HtmlIndexValid(t, 0);
      assert WellFormedAsset(t[HtmlIndices(t)[0]]);
  }

  /** The key static_find_path builds in its 512-byte `tmp` buffer. */
  method BuildLookupKey(path: string, alias: string) returns (key: string)
    requires NoNul(path) && NoNul(alias)
    ensures key == RequestKey(path, alias)
  {
    var p := if path == [] then Root else path;
    if p == Root {
      p := alias;
    }
    key := CopyKey(p);
  }

  /** The conditional-GET test of serve_static_http: copy out the asset's 40-byte tag, then
      look for it just after the request's If-None-Match. */
  method CheckNotModified(assetHeaders: string, reqHeaders: string) returns (b: bool)
    ensures b == NotModified(assetHeaders, reqHeaders)
  {
    var etag := ContentBetween(assetHeaders, EtagOpen, Quote);
    if etag.None? || etag.value.size != 40 {
      assert EtagToken(assetHeaders).None?;
      return false;
    }
    var findEtag := assetHeaders[etag.value.start..etag.value.start + 40];
    EtagTokenOf(assetHeaders, etag.value);
    var gap := ContentBetween(reqHeaders, IfNoneMatch, findEtag);
    NotModifiedByTag(assetHeaders, reqHeaders, findEtag);
    b := gap.Some? && gap.value.size < 5;
  }

  lemma NotModifiedByTag(assetHeaders: string, reqHeaders: string, tag: string)
    requires EtagToken(assetHeaders) == Some(tag)
    ensures NotModified(assetHeaders, reqHeaders) <==>
              ContentBetween(reqHeaders, IfNoneMatch, tag).Some? && ContentBetween(reqHeaders, IfNoneMatch, tag).value.size < 5
  {
  }

  /** The tag is the 40 bytes between the tag's opening quote and the next quote. */
  lemma EtagTokenOf(headers: string, e: Between)
    requires ContentBetween(headers, EtagOpen, Quote) == Some(e) && e.size == 40
    ensures e.start + 40 <= |headers| && EtagToken(headers) == Some(headers[e.start..e.start + 40])
  {
  }

  // ===== The process-wide state: g_assets, found_root_alias, static_root_alias =====

  /** The tail of serve_static_http for a found asset: 304 when the request names the
      asset's tag, otherwise 200 with the content for GET and without it for HEAD. */
  method ServeAsset(isHead: bool, a: Asset, reqHeaders: string) returns (reply: Reply)
    requires WellFormedAsset(a)
    ensures reply == AssetReply(isHead, a, reqHeaders)
  {
    var notModified := CheckNotModified(a.headers, reqHeaders);
    if notModified {
      return Reply(304, SendResponse(304, Some(a.headers), None, a.size));
    }
    if isHead {
      return Reply(200, SendResponse(200, Some(a.headers), None, a.size));
    }
    return Reply(200, SendResponse(200, Some(a.headers), Some(a.content), a.size));
  }

  /** The resolver's three globals, as one value. */
  datatype ResolverState = ResolverState(assets: Option<seq<Asset>>, found: bool, alias: string)

  /** The globals after a lookup: the active table is registered for good, and the alias
      scan has run (the alias changes only on the first lookup). */
  function AfterLookup(s: ResolverState, defaults: seq<Asset>): (r: ResolverState)
    ensures r.found && r.assets == Some(ActiveTable(s.assets, defaults))
    ensures s.found ==> r.alias == s.alias
  {
    ResolverState(Some(ActiveTable(s.assets, defaults)), true,
                  if s.found then s.alias else AliasAfterFirstHit(s.alias, ActiveTable(s.assets, defaults)))
  }

  class StaticServer {
    /** `g_assets`; None stands for a NULL pointer. */
    var assets: Option<seq<Asset>>
    /** `found_root_alias`: the alias scan has run. */
    var foundRootAlias: bool
    /** `static_root_alias`: what "/" is looked up as. */
    var rootAlias: string
    /** `default_set`, fixed when the server is built. */
    const defaultTable: seq<Asset>

    ghost function State(): ResolverState
      reads this
    {
      ResolverState(assets, foundRootAlias, rootAlias)
    }

    ghost predicate Valid()
      reads this
    {
      WellFormedTable(defaultTable) && (assets.Some? ==> WellFormedTable(assets.value)) && NoNul(rootAlias)
    }

    /** The state at program start; `built` stands for the build date and time. */
    constructor (built: string)
      requires |built| < 0x1000_0000
      ensures Valid()
      ensures defaultTable == DefaultTable(built) && assets == Some(defaultTable)
      ensures !foundRootAlias && rootAlias == IndexHtml
    {
      defaultTable := DefaultTable(built);
      assets := Some(DefaultTable(built));
      foundRootAlias := false;
      rootAlias := IndexHtml;
    }

    /** ws_set_static_assets */
    method SetStaticAssets(table: Option<seq<Asset>>)
      requires Valid() && (table.Some? ==> WellFormedTable(table.value))
      modifies this
      ensures Valid() && assets == table
      ensures foundRootAlias == old(foundRootAlias) && rootAlias == old(rootAlias)
    {
      assets := table;
    }

    /** ws_get_static_assets: the registered table, after putting the default one back when
        none is registered. */
    method GetStaticAssets() returns (t: seq<Asset>)
      requires Valid()
      modifies this
      ensures Valid() && WellFormedTable(t)
      ensures t == ActiveTable(old(assets), defaultTable) && assets == Some(t)
      ensures foundRootAlias == old(foundRootAlias) && rootAlias == old(rootAlias)
    {
      if assets.Some? {
        return assets.value;
      }
      SetStaticAssets(Some(defaultTable));
      return defaultTable;
    }

    /** find_root_alias: runs once; while the alias is still "/index.html" it scans the
        active table for a better one. */
    method FindRootAlias()
      requires Valid()
      modifies this
      ensures Valid() && foundRootAlias
      ensures old(foundRootAlias) ==> assets == old(assets) && rootAlias == old(rootAlias)
      ensures !old(foundRootAlias) ==>
                rootAlias == AliasAfterFirstHit(old(rootAlias), ActiveTable(old(assets), defaultTable))
      ensures !old(foundRootAlias) && old(rootAlias) == IndexHtml ==>
                assets == Some(ActiveTable(old(assets), defaultTable))
      ensures old(rootAlias) != IndexHtml ==> assets == old(assets)
    {
      if foundRootAlias {
        return;
      }
      foundRootAlias := true;
      if rootAlias != IndexHtml {
        return;
      }
      var t := GetStaticAssets();
      var chosen := ScanRootAlias(t);
      if chosen.Some? {
        ChosenAliasNoNul(t);
        rootAlias := chosen.value;
      }
    }

    /** static_find_path: settles the alias on the first hit, then looks the key up in the
        active table. */
    method StaticFindPath(path: string) returns (idx: int)
      requires Valid() && NoNul(path)
      modifies this
      ensures Valid() && State() == AfterLookup(old(State()), defaultTable)
      ensures idx == LookupUrl(ActiveTable(old(assets), defaultTable), RequestKey(path, rootAlias))
    {
      if !foundRootAlias {
        FindRootAlias();
      }
      var key := BuildLookupKey(path, rootAlias);
      var t := GetStaticAssets();
      idx := FindUrl(t, key);
    }

    /** serve_static_http, on the receive buffer `frm` holding a NUL-terminated request. */
    method ServeStaticHttp(frm: array<char>) returns (reply: Reply)
      requires Valid() && |CStr(frm[..])| < frm.Length
      modifies this, frm
      ensures Valid()
      ensures reply == ServeSpec(CStr(old(frm[..])), ActiveTable(old(assets), defaultTable), rootAlias)
      ensures State() == if ReachesLookup(CStr(old(frm[..]))) then AfterLookup(old(State()), defaultTable)
                         else old(State())
      ensures frm[..] == if HasHeadEnd(CStr(old(frm[..]))) then NulsWritten(old(frm[..])) else old(frm[..])
    {
      ghost var req := CStr(frm[..]);
      if Find(CStr(frm[..]), HeadEnd, false).None? {
        return ErrorReply(400, BadRequestText);
      }
      var ok, pathAt, headersAt := ParseRequestLineInPlace(frm);
      if !ok {
        return ErrorReply(400, BadRequestText);
      }
      var verb := CStr(frm[..]);
      var path := CStrAt(frm[..], pathAt);
      var headers := CStrAt(frm[..], headersAt);
      ServeSpecOfParsed(req, RequestLine(verb, path, headers), ActiveTable(assets, defaultTable), rootAlias);
      reply := ServeParsed(verb, path, headers);
    }

    /** serve_static_http from the method check on: 405, then the lookup (404), then the
        conditional GET (304), then HEAD or GET (200). */
    method ServeParsed(verb: string, path: string, headers: string) returns (reply: Reply)
      requires Valid() && NoNul(path)
      modifies this
      ensures Valid()
      ensures reply == ServeLine(RequestLine(verb, path, headers), ActiveTable(old(assets), defaultTable), rootAlias)
      ensures State() == if verb == "GET" || verb == "HEAD" then AfterLookup(old(State()), defaultTable)
                         else old(State())
    {
      if verb != "GET" && verb != "HEAD" {
        return ErrorReply(405, MethodNotAllowedText);
      }
      var t := GetStaticAssets();
      var idx := StaticFindPath(path);
      if idx < 0 {
        return ErrorReply(404, NotFoundText);
      }
      assert WellFormedAsset(t[idx]);
      reply := ServeAsset(verb == "HEAD", t[idx], headers);
    }

    /** The dispatch part of do_handshake, on a buffer the receive call has filled and
        NUL-terminated; `accepted` is the handshake builder's verdict. */
    method DoHandshake(frm: array<char>, accepted: bool) returns (h: Handshake)
      requires Valid() && |CStr(frm[..])| < frm.Length
      modifies this, frm
      ensures Valid()
      ensures h == HandshakeSpec(CStr(old(frm[..])), accepted, ActiveTable(old(assets), defaultTable), rootAlias)
      ensures !h.ServedStatic? ==> State() == old(State()) && frm[..] == old(frm[..])
      ensures h.ServedStatic? ==> frm[..] == NulsWritten(old(frm[..]))
      ensures h.ServedStatic? ==>
                State() == (if ReachesLookup(CStr(old(frm[..]))) then AfterLookup(old(State()), defaultTable)
                            else old(State()))
    {
      var text := CStr(frm[..]);
      ghost var table := ActiveTable(assets, defaultTable);
      var badRequest := ErrorReply(400, BadRequestText).sent;
      var badHandshake := ErrorReply(400, BadHandshakeText).sent;
      var p := Find(text, HeadEnd, false);
      if p.None? {
        return NoHeadEnd(badRequest);
      }
      var ws := LooksLikeWsUpgrade(text);
      if !ws {
        var r := ServeStaticHttp(frm);
        DispatchServes(text, accepted, badRequest, r, badHandshake);
        return ServedStatic(r);
      }
      var curPos := p.value + 4;
      if !accepted {
        return BadHandshake(curPos, badHandshake);
      }
      return Opened(curPos);
    }
  }
}

/** The older static resolver, include/statics.h: the same registry, lookup loop and
    handshake dispatch as the newer one, but a fixed reply header that always names the
    table's entry as the Content-Type, a request line read only up to the path, no root
    alias and no conditional GET. */
module StaticsV1 {
  import opened Wrappers
  import opened CStrings
  import opened StaticsCommon

  // ===== http_send_response =====

  /** The header text: the status line, then the connection, type, length and cache lines,
      then the blank line. The table's entry always goes in as the Content-Type value. */
  function ResponseHead(code: nat, contentType: string, bodyLen: nat): string
  {
    StatusLine(code) + "Connection: close\r\n" + "Content-Type: " + contentType + CrLf +
    "Content-Length: " + Decimal(bodyLen) + CrLf + NoCacheLine + CrLf
  }

  /** The header is 92 bytes of fixed text around the code, its phrase, the type and the
      length. */
  lemma ResponseHeadLength(code: nat, contentType: string, bodyLen: nat)
    ensures |ResponseHead(code, contentType, bodyLen)| ==
            92 + |Decimal(code)| + |ReasonPhrase(code)| + |contentType| + |Decimal(bodyLen)|
  {
  }

  /** http_send_response: a header of 512 bytes or more is never sent; the body goes out
      only when present and non-empty; a missing type means plain text. */
  function SendResponse(code: nat, contentType: Option<string>, body: Option<seq<byte>>, bodyLen: nat): (r: Sent)
    requires bodyLen < 0x1_0000_0000
    requires body.Some? ==> |body.value| == bodyLen
    ensures r.Overflow? <==> |ResponseHead(code, contentType.GetOr(PlainType), bodyLen)| >= 512
    ensures r.Sent? ==> r.header == ResponseHead(code, contentType.GetOr(PlainType), bodyLen)
    ensures r.Sent? ==> (r.body != [] <==> body.Some? && bodyLen > 0)
    ensures r.Sent? && body.Some? ==> r.body == body.value
  {
    var hdr := ResponseHead(code, contentType.GetOr(PlainType), bodyLen);
    if |hdr| >= 512 then Overflow
    else Sent(hdr, if body.Some? && bodyLen > 0 then body.value else [])
  }

  /** With a three-digit code, a type of at most 388 bytes always fits the header buffer,
      and one of 416 bytes or more never does. */
  lemma TypeLengthDecidesFit(code: nat, contentType: string, body: Option<seq<byte>>, bodyLen: nat)
    requires 100 <= code < 1000 && bodyLen < 0x1_0000_0000
    requires body.Some? ==> |body.value| == bodyLen
    ensures |contentType| <= 388 ==> SendResponse(code, Some(contentType), body, bodyLen).Sent?
    ensures |contentType| >= 416 ==> SendResponse(code, Some(contentType), body, bodyLen).Overflow?
  {
    ResponseHeadLength(code, contentType, bodyLen);
    DecimalOfCode(code);
    DecimalOfU32(bodyLen);
    assert |ReasonPhrase(code)| <= 18;
  }

  /** The reply to a request that is turned away: a plain-text message as the body. */
  function ErrorReply(code: nat, text: string): (r: Reply)
    requires |text| < 0x1_0000_0000
    ensures r.status == code
    ensures r.sent.Sent? ==> r.sent.body == Bytes(text)
  {
    Reply(code, SendResponse(code, None, Some(Bytes(text)), |text|))
  }

  /** Every refusal this resolver sends fits its header buffer, so it reaches the client. */
  lemma RefusalsAreSent()
    ensures ErrorReply(400, BadRequestText).sent.Sent? && ErrorReply(405, MethodNotAllowedText).sent.Sent?
    ensures ErrorReply(404, NotFoundText).sent.Sent? && ErrorReply(400, BadHandshakeText).sent.Sent?
  {
    TypeLengthDecidesFit(400, PlainType, Some(Bytes(BadRequestText)), |BadRequestText|);
    TypeLengthDecidesFit(405, PlainType, Some(Bytes(MethodNotAllowedText)), |MethodNotAllowedText|);
    TypeLengthDecidesFit(404, PlainType, Some(Bytes(NotFoundText)), |NotFoundText|);
    TypeLengthDecidesFit(400, PlainType, Some(Bytes(BadHandshakeText)), |BadHandshakeText|);
  }

  // ===== http_parse_request_line =====

  datatype RequestLine = RequestLine(verb: string, path: string)

  /** The method up to the first space, the path up to the next space; what follows the
      second space is not looked at. */
  function ParseRequestLine(req: string): Option<RequestLine>
  {
    match IndexOfFrom(req, ' ', 0)
    case None => None
    case Some(sp1) =>
      match IndexOfFrom(req, ' ', sp1 + 1)
      case None => None
      case Some(sp2) => Some(RequestLine(req[..sp1], req[sp1 + 1..sp2]))
  }

  /** A request as this parser sees it: method, space, path, space, and anything after. */
  function RequestText(m: string, p: string, rest: string): string
  {
    m + " " + p + " " + rest
  }

  lemma RequestTextNested(m: string, p: string, rest: string)
    ensures RequestText(m, p, rest) == m + (" " + (p + (" " + rest)))
  {
    calc {
      RequestText(m, p, rest);
    ==
      (((m + " ") + p) + " ") + rest;
    == { AppendAssoc((m + " ") + p, " ", rest); }
      ((m + " ") + p) + (" " + rest);
    == { AppendAssoc(m + " ", p, " " + rest); }
      (m + " ") + (p + (" " + rest));
    == { AppendAssoc(m, " ", p + (" " + rest)); }
      m + (" " + (p + (" " + rest)));
    }
  }

  /** What a parsed request looks like: a method and a path free of spaces, each followed
      by a space. */
  lemma ParseRequestLineSound(req: string)
    requires ParseRequestLine(req).Some?
    ensures var l := ParseRequestLine(req).value;
      NoChar(l.verb, ' ') && NoChar(l.path, ' ') && |l.verb| + |l.path| + 2 <= |req| &&
      req == RequestText(l.verb, l.path, req[|l.verb| + |l.path| + 2..])
  {
    var sp1 := IndexOfFrom(req, ' ', 0).value;
    var sp2 := IndexOfFrom(req, ' ', sp1 + 1).value;
    assert ParseRequestLine(req) == Some(RequestLine(req[..sp1], req[sp1 + 1..sp2]));
    assert NoChar(req[..sp1], ' ') && NoChar(req[sp1 + 1..sp2], ' ');
    SplitRequest(req, sp1, sp2);
  }

  lemma SplitRequest(req: string, sp1: nat, sp2: nat)
    requires sp1 < sp2 < |req| && req[sp1] == ' ' && req[sp2] == ' '
    ensures req == RequestText(req[..sp1], req[sp1 + 1..sp2], req[sp2 + 1..])
  {
    var m, p, rest := req[..sp1], req[sp1 + 1..sp2], req[sp2 + 1..];
    assert req[sp2..] == " " + rest;
    SliceSplit(req, sp1 + 1, sp2, |req|);
    assert req[sp1..] == " " + (p + (" " + rest));
    SliceSplit(req, 0, sp1, |req|);
    RequestTextNested(m, p, rest);
  }

  /** Every request of that shape parses back into its method and path. */
  lemma ParseRequestLineComplete(m: string, p: string, rest: string)
    requires NoChar(m, ' ') && NoChar(p, ' ')
    ensures ParseRequestLine(RequestText(m, p, rest)) == Some(RequestLine(m, p))
  {
    var req := RequestText(m, p, rest);
    var sp2 := |m| + 1 + |p|;
    RequestTextSpaces(m, p, rest);
    IndexOfFromIs(req, ' ', 0, |m|);
    IndexOfFromIs(req, ' ', |m| + 1, sp2);
    RequestTextParts(m, p, rest);
  }

  lemma RequestTextSpaces(m: string, p: string, rest: string)
    requires NoChar(m, ' ') && NoChar(p, ' ')
    ensures var req := RequestText(m, p, rest); var sp2 := |m| + 1 + |p|;
      sp2 < |req| && req[|m|] == ' ' && req[sp2] == ' ' &&
      (forall j :: 0 <= j < |m| ==> req[j] != ' ') &&
      (forall j :: |m| + 1 <= j < sp2 ==> req[j] != ' ')
  {
    RequestTextNested(m, p, rest);
  }

  lemma RequestTextParts(m: string, p: string, rest: string)
    ensures var req := RequestText(m, p, rest);
      |m| + 1 + |p| < |req| && req[..|m|] == m && req[|m| + 1..|m| + 1 + |p|] == p
  {
    RequestTextNested(m, p, rest);
    PrefixSlice(m, " " + (p + (" " + rest)));
    MiddleSlice(m, " ", p, " " + rest);
  }

  /** The request line as the buffer `w` holds it after the parse: nothing when the parse
      failed; otherwise the method is the C string at the start and the path the one at
      `path`. */
  function ReadBack(w: seq<char>, ok: bool, path: nat): (r: Option<RequestLine>)
    ensures r.Some? <==> ok && path <= |w|
  {
    if ok && path <= |w| then Some(RequestLine(CStr(w), CStrAt(w, path))) else None
  }

  /** http_parse_request_line: cuts the method and the path in the buffer itself, writing
      the same NULs as the newer parser. */
  method ParseRequestLineInPlace(buf: array<char>) returns (ok: bool, path: nat)
    modifies buf
    ensures buf[..] == NulsWritten(old(buf[..]))
    ensures ParseRequestLine(CStr(old(buf[..]))) == ReadBack(buf[..], ok, path)
    ensures ok ==> path <= buf.Length
  {
    var text := buf[..];
    var s1 := StrChr(text, 0, ' ');
    if s1.None? {
      NoFirstSpace(text);
      return false, 0;
    }
    var sp1 := s1.value;
    Terminate(buf, sp1);
    var s2 := StrChr(text, sp1 + 1, ' ');
    if s2.None? {
      NoSecondSpace(text, buf[..], sp1);
      return false, 0;
    }
    var sp2 := s2.value;
    Terminate(buf, sp2);
    WrittenParts(text, buf[..], sp1, sp2);
    return true, sp1 + 1;
  }

  lemma NoFirstSpace(b: seq<char>)
    requires IndexOfFrom(CStr(b), ' ', 0).None?
    ensures NulsWritten(b) == b && ParseRequestLine(CStr(b)) == ReadBack(b, false, 0)
  {
  }

  lemma NoSecondSpace(b: seq<char>, w: seq<char>, sp1: nat)
    requires IndexOfFrom(CStr(b), ' ', 0) == Some(sp1)
    requires IndexOfFrom(CStr(b), ' ', sp1 + 1).None?
    requires w == b[sp1 := NUL]
    ensures NulsWritten(b) == w && ParseRequestLine(CStr(b)) == ReadBack(w, false, 0)
  {
  }

  /** After two successful `strchr` calls, the two NULs written split off the method and
      the path. */
  lemma WrittenParts(b: seq<char>, w: seq<char>, sp1: nat, sp2: nat)
    requires IndexOfFrom(CStr(b), ' ', 0) == Some(sp1)
    requires IndexOfFrom(CStr(b), ' ', sp1 + 1) == Some(sp2)
    requires w == b[sp1 := NUL][sp2 := NUL]
    ensures NulsWritten(b) == w && ParseRequestLine(CStr(b)) == ReadBack(w, true, sp1 + 1)
  {
    NulsWrittenSuccess(b, sp1, sp2);
    MethodAndPath(b, sp1, sp2);
  }

  // ===== static_find_path =====

  /** The key looked up for a path: an empty path means "/"; then the query is cut off and
      the key cut to 511 bytes. There is no root alias. */
  function RequestKey(path: string): string
  {
    LookupKey(if path == [] then Root else path)
  }

  // ===== serve_static_http =====

  /** The reply `serve_static_http` sends for request text `req` against the active table. */
  function ServeSpec(req: string, table: seq<Asset>): Reply
    requires WellFormedTable(table)
  {
    if !HasHeadEnd(req) then ErrorReply(400, BadRequestText)
    else match ParseRequestLine(req)
      case None => ErrorReply(400, BadRequestText)
      case Some(l) => ServeLine(l, table)
  }

  /** The rest of the ladder, once the request line is parsed. */
  function ServeLine(l: RequestLine, table: seq<Asset>): Reply
    requires WellFormedTable(table)
  {
    if l.verb != "GET" && l.verb != "HEAD" then ErrorReply(405, MethodNotAllowedText)
    else
      var idx := LookupUrl(table, RequestKey(l.path));
      if idx < 0 then ErrorReply(404, NotFoundText)
      else AssetReply(l.verb == "HEAD", table[idx])
  }

  /** A found asset: 200 with its type, and the content only for GET. */
  function AssetReply(isHead: bool, a: Asset): Reply
    requires WellFormedAsset(a)
  {
    if isHead then Reply(200, SendResponse(200, Some(a.headers), None, a.size))
    else Reply(200, SendResponse(200, Some(a.headers), Some(a.content), a.size))
  }

  /** The status ladder: 400 for an incomplete head or a bad request line, 405 for any
      method but GET and HEAD, 404 when no URL matches, and 200 otherwise; never 304. */
  lemma StatusLadder(req: string, table: seq<Asset>)
    requires WellFormedTable(table)
    ensures var r := ServeSpec(req, table); var l := ParseRequestLine(req);
      (r.status == 400 <==> !HasHeadEnd(req) || l.None?) &&
      (r.status == 405 <==> HasHeadEnd(req) && l.Some? && l.value.verb != "GET" && l.value.verb != "HEAD") &&
      (r.status == 404 <==> HasHeadEnd(req) && l.Some? && (l.value.verb == "GET" || l.value.verb == "HEAD") &&
                            LookupUrl(table, RequestKey(l.value.path)) == -1) &&
      (r.status == 200 <==> HasHeadEnd(req) && l.Some? && (l.value.verb == "GET" || l.value.verb == "HEAD") &&
                            LookupUrl(table, RequestKey(l.value.path)) >= 0)
  {
  }

  /** A found asset is answered with its entry as the Content-Type and a Content-Length of
      its size; GET carries the content, HEAD nothing. */
  lemma FoundAssetReply(req: string, table: seq<Asset>)
    requires WellFormedTable(table) && HasHeadEnd(req) && ParseRequestLine(req).Some?
    requires var l := ParseRequestLine(req).value;
      (l.verb == "GET" || l.verb == "HEAD") && LookupUrl(table, RequestKey(l.path)) >= 0
    ensures var l := ParseRequestLine(req).value; var a := table[LookupUrl(table, RequestKey(l.path))];
      var r := ServeSpec(req, table);
      r.status == 200 &&
      (r.sent.Sent? <==> |ResponseHead(200, a.headers, |a.content|)| < 512) &&
      (r.sent.Sent? ==> r.sent.header == ResponseHead(200, a.headers, |a.content|)) &&
      (r.sent.Sent? ==> r.sent.body == (if l.verb == "GET" then a.content else []))
  {
  }

  /** HEAD is GET without the body: same status and header, and no bytes after the header
      when the asset is found; a refused HEAD gets exactly the refusal GET gets. */
  lemma HeadIsGetWithoutBody(path: string, rest: string, table: seq<Asset>)
    requires WellFormedTable(table) && NoChar(path, ' ')
    ensures ServeSpec(RequestText("HEAD", path, rest), table) == HeadReplyOf(ServeSpec(RequestText("GET", path, rest), table))
  {
    var get := RequestText("GET", path, rest);
    var head := RequestText("HEAD", path, rest);
    VerbsPlain();
    HeadEndOfVerbs(path, rest);
    ParseRequestLineComplete("GET", path, rest);
    ParseRequestLineComplete("HEAD", path, rest);
    if HasHeadEnd(get) {
      ServeLineHeadGet(path, table);
    }
  }

  lemma HeadEndOfVerbs(path: string, rest: string)
    ensures HasHeadEnd(RequestText("GET", path, rest)) == HasHeadEnd(RequestText("HEAD", path, rest))
  {
    RequestTextNested("GET", path, rest);
    RequestTextNested("HEAD", path, rest);
    VerbsPlain();
    HeadEndIgnoresVerb("GET", "HEAD", " " + (path + (" " + rest)));
  }

  lemma ServeLineHeadGet(path: string, table: seq<Asset>)
    requires WellFormedTable(table)
    ensures ServeLine(RequestLine("HEAD", path), table) == HeadReplyOf(ServeLine(RequestLine("GET", path), table))
  {
    var idx := LookupUrl(table, RequestKey(path));
    if idx >= 0 {
      var a := table[idx];
      assert WellFormedAsset(a);
      assert AssetReply(true, a) == HeadReplyOf(AssetReply(false, a));
    }
  }

  /** Any other method is refused with 405, whatever the path and the table. */
  lemma OtherMethodsRefused(verb: string, path: string, rest: string, table: seq<Asset>)
    requires WellFormedTable(table)
    requires NoChar(verb, ' ') && NoChar(path, ' ') && verb != "GET" && verb != "HEAD"
    requires HasHeadEnd(RequestText(verb, path, rest))
    ensures ServeSpec(RequestText(verb, path, rest), table).status == 405
  {
    ParseRequestLineComplete(verb, path, rest);
  }

  /** The request gets as far as the table lookup (and so touches the registry). */
  predicate ReachesLookup(req: string)
  {
    HasHeadEnd(req) && ParseRequestLine(req).Some? &&
    (ParseRequestLine(req).value.verb == "GET" || ParseRequestLine(req).value.verb == "HEAD")
  }

  // ===== do_handshake =====

  /** What `do_handshake` does with the received text `req`; `accepted` is the verdict of
      the handshake-response builder, which is not part of this model. */
  function HandshakeSpec(req: string, accepted: bool, table: seq<Asset>): Handshake
    requires WellFormedTable(table)
  {
    Dispatch(req, accepted, ErrorReply(400, BadRequestText).sent, ServeSpec(req, table),
             ErrorReply(400, BadHandshakeText).sent)
  }

  // ===== The process-wide state: g_assets =====

  class StaticServer {
    /** `g_assets`; None stands for a NULL pointer. */
    var assets: Option<seq<Asset>>
    /** `default_set`, fixed when the server is built. */
    const defaultTable: seq<Asset>

    ghost predicate Valid()
      reads this
    {
      WellFormedTable(defaultTable) && (assets.Some? ==> WellFormedTable(assets.value))
    }

    /** The state at program start; `built` stands for the build date and time. */
    constructor (built: string)
      requires |built| < 0x1000_0000
      ensures Valid()
      ensures defaultTable == DefaultTable(built) && assets == Some(defaultTable)
    {
      defaultTable := DefaultTable(built);
      assets := Some(DefaultTable(built));
    }

    /** ws_set_static_assets */
    method SetStaticAssets(table: Option<seq<Asset>>)
      requires Valid() && (table.Some? ==> WellFormedTable(table.value))
      modifies this
      ensures Valid() && assets == table
    {
      assets := table;
    }

    /** ws_get_static_assets: the registered table, after putting the default one back when
        none is registered. */
    method GetStaticAssets() returns (t: seq<Asset>)
      requires Valid()
      modifies this
      ensures Valid() && WellFormedTable(t)
      ensures t == ActiveTable(old(assets), defaultTable) && assets == Some(t)
    {
      if assets.Some? {
        return assets.value;
      }
      SetStaticAssets(Some(defaultTable));
      return defaultTable;
    }

    /** static_find_path: builds the key, then scans the active table for it. */
    method StaticFindPath(path: string) returns (idx: int)
      requires Valid() && NoNul(path)
      modifies this
      ensures Valid() && assets == Some(ActiveTable(old(assets), defaultTable))
      ensures idx == LookupUrl(ActiveTable(old(assets), defaultTable), RequestKey(path))
    {
      var p := if path == [] then Root else path;
      var key := CopyKey(p);
      var t := GetStaticAssets();
      idx := FindUrl(t, key);
    }

    /** serve_static_http, on the receive buffer `frm` holding a NUL-terminated request. */
    method ServeStaticHttp(frm: array<char>) returns (reply: Reply)
      requires Valid() && |CStr(frm[..])| < frm.Length
      modifies this, frm
      ensures Valid()
      ensures reply == ServeSpec(CStr(old(frm[..])), ActiveTable(old(assets), defaultTable))
      ensures assets == if ReachesLookup(CStr(old(frm[..]))) then Some(ActiveTable(old(assets), defaultTable))
                        else old(assets)
      ensures frm[..] == if HasHeadEnd(CStr(old(frm[..]))) then NulsWritten(old(frm[..])) else old(frm[..])
    {
      ghost var req := CStr(frm[..]);
      if Find(CStr(frm[..]), HeadEnd, false).None? {
        return ErrorReply(400, BadRequestText);
      }
      var ok, pathAt := ParseRequestLineInPlace(frm);
      if !ok {
        return ErrorReply(400, BadRequestText);
      }
      var verb := CStr(frm[..]);
      var path := CStrAt(frm[..], pathAt);
      reply := ServeParsed(verb, path);
    }

    /** serve_static_http from the method check on: 405, then the lookup (404), then HEAD
        or GET (200). */
    method ServeParsed(verb: string, path: string) returns (reply: Reply)
      requires Valid() && NoNul(path)
      modifies this
      ensures Valid()
      ensures reply == ServeLine(RequestLine(verb, path), ActiveTable(old(assets), defaultTable))
      ensures assets == if verb == "GET" || verb == "HEAD" then Some(ActiveTable(old(assets), defaultTable))
                        else old(assets)
    {
      if verb != "GET" && verb != "HEAD" {
        return ErrorReply(405, MethodNotAllowedText);
      }
      var t := GetStaticAssets();
      var idx := StaticFindPath(path);
      if idx < 0 {
        return ErrorReply(404, NotFoundText);
      }
      var a := t[idx];
      assert WellFormedAsset(a);
      if verb == "HEAD" {
        return Reply(200, SendResponse(200, Some(a.headers), None, a.size));
      }
      return Reply(200, SendResponse(200, Some(a.headers), Some(a.content), a.size));
    }

    /** The dispatch part of do_handshake, on a buffer the receive call has filled and
        NUL-terminated; `accepted` is the handshake builder's verdict. */
    method DoHandshake(frm: array<char>, accepted: bool) returns (h: Handshake)
      requires Valid() && |CStr(frm[..])| < frm.Length
      modifies this, frm
      ensures Valid()
      ensures h == HandshakeSpec(CStr(old(frm[..])), accepted, ActiveTable(old(assets), defaultTable))
      ensures !h.ServedStatic? ==> assets == old(assets) && frm[..] == old(frm[..])
      ensures h.ServedStatic? ==> frm[..] == NulsWritten(old(frm[..]))
      ensures h.ServedStatic? ==>
                assets == (if ReachesLookup(CStr(old(frm[..]))) then Some(ActiveTable(old(assets), defaultTable))
                           else old(assets))
    {
      var text := CStr(frm[..]);
      var badRequest := ErrorReply(400, BadRequestText).sent;
      var badHandshake := ErrorReply(400, BadHandshakeText).sent;
      var p := Find(text, HeadEnd, false);
      if p.None? {
        return NoHeadEnd(badRequest);
      }
      var ws := LooksLikeWsUpgrade(text);
      if !ws {
        var r := ServeStaticHttp(frm);
        DispatchServes(text, accepted, badRequest, r, badHandshake);
        return ServedStatic(r);
      }
      var curPos := p.value + 4;
      if !accepted {
        return BadHandshake(curPos, badHandshake);
      }
      return Opened(curPos);
    }
  }
}

/** What both revisions of the static resolver (src/statics.h and include/statics.h) share:
    the asset table, the built-in default table, the case-insensitive substring search, the
    WebSocket sniff, the reason phrases, and the shapes of a reply and of a handshake. */
module StaticsCommon {
  import opened Wrappers
  import opened CStrings

  // ===== The asset table (ws_static_asset_set_t) =====

  /** Index i of the table's parallel arrays: `urls[i]` (which may be NULL), `contentType[i]`
      (a bare MIME type, or full header lines ending in CR LF), `content[i]` and `sizes[i]`. */
  datatype Asset = Asset(url: Option<string>, headers: string, content: seq<byte>, size: nat)

  predicate WellFormedAsset(a: Asset)
  {
    a.size == |a.content| && a.size < 0x1_0000_0000 && NoNul(a.headers) &&
    (a.url.Some? ==> NoNul(a.url.value))
  }

  predicate WellFormedTable(t: seq<Asset>)
  {
    |t| < 0x1_0000_0000 && forall i :: 0 <= i < |t| ==> WellFormedAsset(t[i])
  }

  /** Text as the bytes C stores for it: one byte per character. */
  function Bytes(s: string): (r: seq<byte>)
    ensures |r| == |s|
    ensures forall i :: 0 <= i < |s| ==> r[i] as int == s[i] as int % 256
  {
    seq(|s|, i requires 0 <= i < |s| => (s[i] as int % 256) as byte)
  }

  const HtmlType := "text/html; charset=utf-8"
  const PlainType := "text/plain; charset=utf-8"

  /** The placeholder page; `built` stands for the `__DATE__ " " __TIME__` text. */
  function DefaultPage(built: string): string
  {
    "<html><head><title>WS STATIC OK</title></head><body>" + "Success<br>" + "Built: " + built + "</body></html>"
  }

  /** `default_set`: one page at "/" of type HTML, whose size is the page's length. */
  function DefaultTable(built: string): (t: seq<Asset>)
    requires |built| < 0x1000_0000
    ensures |t| == 1 && t[0].url == Some("/") && t[0].headers == HtmlType
    ensures t[0].content == Bytes(DefaultPage(built))
    ensures WellFormedTable(t)
  {
    var page := DefaultPage(built);
    assert NoNul(HtmlType);
    [Asset(Some("/"), HtmlType, Bytes(page), |page|)]
  }

  /** The table `ws_get_static_assets` hands out: the registered one, or the default one
      when the registered pointer is NULL. */
  function ActiveTable(registered: Option<seq<Asset>>, defaults: seq<Asset>): (t: seq<Asset>)
    ensures registered.Some? ==> t == registered.value
    ensures registered.None? ==> t == defaults
  {
    registered.GetOr(defaults)
  }

  /** The first index whose URL is present and equal to `key`, or -1. */
  function LookupUrl(table: seq<Asset>, key: string): (r: int)
    ensures -1 <= r < |table|
    ensures r >= 0 ==> table[r].url == Some(key)
    ensures r >= 0 ==> forall j :: 0 <= j < r ==> table[j].url != Some(key)
    ensures r == -1 <==> forall j :: 0 <= j < |table| ==> table[j].url != Some(key)
  {
    LookupFrom(table, key, 0)
  }

  function LookupFrom(table: seq<Asset>, key: string, i: nat): (r: int)
    requires i <= |table|
    decreases |table| - i
    ensures r == -1 || i <= r < |table|
    ensures r >= 0 ==> table[r].url == Some(key)
    ensures r >= 0 ==> forall j :: i <= j < r ==> table[j].url != Some(key)
    ensures r == -1 <==> forall j :: i <= j < |table| ==> table[j].url != Some(key)
  {
    if i == |table| then -1
    else if table[i].url == Some(key) then i
    else LookupFrom(table, key, i + 1)
  }

  /** The key `static_find_path` looks up for an already defaulted and aliased path:
      everything before the first '?', cut to the 511 bytes `tmp` can hold. */
  function LookupKey(path: string): (r: string)
    ensures r <= path && |r| <= 511
    ensures forall k :: 0 <= k < |r| ==> r[k] != '?'
    ensures |r| < 511 ==> r == path || path[|r|] == '?'
  {
    var n := match IndexOfFrom(path, '?', 0) case Some(q) => q case None => |path|;
    path[..Min(n, 511)]
  }

  /** Any key made of 511 or fewer bytes without a '?' is its own lookup key. */
  lemma LookupKeyOfPlain(path: string)
    requires |path| <= 511 && forall k :: 0 <= k < |path| ==> path[k] != '?'
    ensures LookupKey(path) == path
  {
  }

  const Root := "/"

  /** The tail of static_find_path that fills its 512-byte `tmp` buffer: the path up to its
      first '?', at most 511 bytes of it, then a NUL. */
  method CopyKey(p: string) returns (key: string)
    requires NoNul(p)
    ensures key == LookupKey(p)
  {
    var q := IndexOfFrom(p, '?', 0);
    var n := if q.Some? then q.value else |p|;
    if n >= 512 {
      n := 511;
    }
    var tmp := new char[512];
    forall k | 0 <= k < n {
      tmp[k] := p[k];
    }
    tmp[n] := NUL;
    assert tmp[..n] == p[..n];
    CStrUpTo(tmp[..], n);
    key := CStr(tmp[..]);
  }

  /** The table scan of static_find_path: `strcmp` against every present URL in turn. */
  method FindUrl(t: seq<Asset>, key: string) returns (idx: int)
    ensures idx == LookupUrl(t, key)
  {
    var i := 0;
    while i < |t|
      invariant i <= |t|
      invariant forall j :: 0 <= j < i ==> t[j].url != Some(key)
    {
      if t[i].url.Some? && StrCmp(t[i].url.value, key) == 0 {
        return i;
      }
      i := i + 1;
    }
    return -1;
  }

  // ===== strstricase_local and looks_like_ws_upgrade =====

  /** strstricase_local: slides over the haystack, comparing the needle byte by byte with
      ASCII case folded; gives up as soon as the haystack ends inside a comparison. */
  method StrStrICase(haystack: string, needle: string) returns (r: Option<nat>)
    requires NoNul(haystack)
    ensures r == Find(haystack, needle, true)
  {
    var nlen := |needle|;
    if nlen == 0 {
      FindIsFirst(haystack, needle, 0, true);
      return Some(0);
    }
    var p := 0;
    while p < |haystack|
      invariant p <= |haystack|
      invariant forall q :: 0 <= q < p ==> !MatchesAt(haystack, needle, q, true)
      decreases |haystack| - p
    {
      var i := 0;
      while i < nlen
        invariant i <= nlen && p + i <= |haystack|
        invariant forall k :: 0 <= k < i ==> CharEq(haystack[p + k], needle[k], true)
        decreases nlen - i
      {
        var a := if p + i < |haystack| then haystack[p + i] else NUL;
        var b := needle[i];
        if a == NUL {
          forall q | p <= q
            ensures !MatchesAt(haystack, needle, q, true)
          {
          }
          assert Find(haystack, needle, true).None?;
          return None;
        }
        if ToLower(a) != ToLower(b) {
          break;
        }
        i := i + 1;
      }
      if i == nlen {
        FindIsFirst(haystack, needle, p, true);
        return Some(p);
      }
      assert !CharEq(haystack[p + i], needle[i], true);
      p := p + 1;
    }
    assert Find(haystack, needle, true).None?;
    return None;
  }

  /** The handshake key header name of section 4.2.1 of RFC 6455 (the server's `WS_HS_REQ`). */
  const WsKeyHeader := "Sec-WebSocket-Key"

  /** looks_like_ws_upgrade: the request mentions the key header, in any letter case. */
  method LooksLikeWsUpgrade(req: string) returns (r: bool)
    requires NoNul(req)
    ensures r <==> exists q :: MatchesAt(req, WsKeyHeader, q, true)
  {
    var hit := StrStrICase(req, WsKeyHeader);
    r := hit.Some?;
  }

  // ===== http_reason_phrase =====

  function ReasonPhrase(code: int): (r: string)
    ensures r != []
  {
    if code == 200 then "OK"
    else if code == 400 then "Bad Request"
    else if code == 404 then "Not Found"
    else if code == 405 then "Method Not Allowed"
    else "OK"
  }

  /** Only 400, 404 and 405 get a phrase of their own; every other code, 304 included,
      is labelled "OK". */
  lemma ReasonPhraseCases(code: int)
    ensures ReasonPhrase(code) != "OK" <==> code == 400 || code == 404 || code == 405
    ensures code == 304 ==> ReasonPhrase(code) == "OK"
  {
  }

  // ===== The request buffer =====

  predicate HasHeadEnd(req: string)
  {
    Find(req, HeadEnd, false).Some?
  }

  /** The buffer after parsing: a NUL at the first space, and one at the second when there is
      one; nothing else changes, whether or not the parse then succeeds. */
  function NulsWritten(b: seq<char>): (r: seq<char>)
    ensures |r| == |b|
  {
    var req := CStr(b);
    match IndexOfFrom(req, ' ', 0)
    case None => b
    case Some(sp1) =>
      var b1 := b[sp1 := NUL];
      match IndexOfFrom(req, ' ', sp1 + 1)
      case None => b1
      case Some(sp2) => b1[sp2 := NUL]
  }

  lemma NulsWrittenSuccess(b: seq<char>, sp1: nat, sp2: nat)
    requires IndexOfFrom(CStr(b), ' ', 0) == Some(sp1)
    requires IndexOfFrom(CStr(b), ' ', sp1 + 1) == Some(sp2)
    ensures sp1 < sp2 < |b| && NulsWritten(b) == b[sp1 := NUL][sp2 := NUL]
  {
  }

  /** The method and the path: the C strings the NULs at the first two spaces cut off. */
  lemma MethodAndPath(b: seq<char>, sp1: nat, sp2: nat)
    requires sp1 < sp2 < |CStr(b)|
    ensures var w := b[sp1 := NUL][sp2 := NUL]; var req := CStr(b);
      CStr(w) == req[..sp1] && CStr(w[sp1 + 1..]) == req[sp1 + 1..sp2]
  {
    var req := CStr(b);
    var w := b[sp1 := NUL][sp2 := NUL];
    assert w[..sp1] == req[..sp1];
    CStrUpTo(w, sp1);
    var w1 := w[sp1 + 1..];
    assert w1[sp2 - sp1 - 1] == NUL;
    assert w1[..sp2 - sp1 - 1] == req[sp1 + 1..sp2];
    CStrUpTo(w1, sp2 - sp1 - 1);
  }

  /** A request line of this shape has no CR before its path, so the blank line that ends
      the head is found in the same place after any verb. */
  lemma HeadEndIgnoresVerb(m1: string, m2: string, rest: string)
    requires NoChar(m1, '\r') && NoChar(m2, '\r')
    ensures HasHeadEnd(m1 + rest) <==> HasHeadEnd(m2 + rest)
  {
    if HasHeadEnd(m1 + rest) {
      HeadEndPastPrefix(m1, rest);
      HeadEndShifted(m2, rest);
    }
    if HasHeadEnd(m2 + rest) {
      HeadEndPastPrefix(m2, rest);
      HeadEndShifted(m1, rest);
    }
  }

  /** A blank line after a CR-free prefix lies wholly in what follows it. */
  lemma HeadEndPastPrefix(m: string, rest: string)
    requires NoChar(m, '\r') && HasHeadEnd(m + rest)
    ensures HasHeadEnd(rest)
  {
    var s := m + rest;
    var q := Find(s, HeadEnd, false).value;
    assert CharEq(s[q + 0], HeadEnd[0], false);
    assert q >= |m|;
    forall i | 0 <= i < |HeadEnd|
      ensures CharEq(rest[q - |m| + i], HeadEnd[i], false)
    {
      assert s[q + i] == rest[q - |m| + i];
    }
    assert MatchesAt(rest, HeadEnd, q - |m|, false);
  }

  /** ... and a blank line in what follows a prefix is still there after it. */
  lemma HeadEndShifted(m: string, rest: string)
    requires HasHeadEnd(rest)
    ensures HasHeadEnd(m + rest)
  {
    var s := m + rest;
    var q := Find(rest, HeadEnd, false).value;
    forall i | 0 <= i < |HeadEnd|
      ensures CharEq(s[q + |m| + i], HeadEnd[i], false)
    {
      assert s[q + |m| + i] == rest[q + i];
    }
    assert MatchesAt(s, HeadEnd, q + |m|, false);
  }

  lemma VerbsPlain()
    ensures NoChar("GET", ' ') && NoChar("HEAD", ' ') && NoChar("GET", '\r') && NoChar("HEAD", '\r')
  {
  }

  // ===== Replies =====

  const CrLf := "\r\n"
  const NoCacheLine := "Cache-Control: no-cache\r\n"

  /** The first line of every reply: the version, the code and its reason phrase. */
  function StatusLine(code: nat): string
  {
    "HTTP/1.1 " + Decimal(code) + " " + ReasonPhrase(code) + CrLf
  }

  /** What `http_send_response` puts on the wire: the header text and the body bytes, or
      nothing at all when the header does not fit its 512-byte buffer (it returns -1). */
  datatype Sent = Sent(header: string, body: seq<byte>) | Overflow

  /** A reply of `serve_static_http`: the status code it passes, and what went out. */
  datatype Reply = Reply(status: nat, sent: Sent)

  const BadRequestText := "Bad Request\n"
  const MethodNotAllowedText := "Method Not Allowed\n"
  const NotFoundText := "Not Found\n"
  const BadHandshakeText := "Bad WebSocket handshake\n"

  /** The end of the request head. */
  const HeadEnd := "\r\n\r\n"

  /** The reply with its body dropped; the status and the header stay. */
  function WithoutBody(r: Reply): (s: Reply)
    ensures s.status == r.status && s.sent.Sent? == r.sent.Sent?
    ensures s.sent.Sent? ==> s.sent.header == r.sent.header && s.sent.body == []
  {
    if r.sent.Sent? then Reply(r.status, Sent(r.sent.header, [])) else r
  }

  /** What HEAD gets, given what GET gets for the same path and headers: a 200 loses its
      body; a 304 (which has none) and every refusal are the same. */
  function HeadReplyOf(g: Reply): Reply
  {
    if g.status == 200 then WithoutBody(g) else g
  }

  /** What `do_handshake` does with one received request. Every outcome but `Opened` makes
      it return -1; `curPos` is where the frame reader resumes, just past the blank line. */
  datatype Handshake =
    | NoHeadEnd(sent: Sent)
    | ServedStatic(reply: Reply)
    | BadHandshake(curPos: nat, sent: Sent)
    | Opened(curPos: nat)

  function HandshakeResult(h: Handshake): (r: int)
    ensures r == 0 <==> h.Opened?
  {
    if h.Opened? then 0 else -1
  }

  /** The header lines contain `name`, in any letter case. */
  ghost predicate HasField(lines: string, name: string)
  {
    exists q :: MatchesAt(lines, name, q, true)
  }

  /** do_handshake, once the receive call has filled and NUL-terminated the buffer with
      `req`. Both revisions run the same code and differ only in what they send:
      `badRequest` when the head is incomplete, `served` when the request is no upgrade,
      and `badHandshake` when the handshake-response builder refuses it; `accepted` is that
      builder's verdict. */
  function Dispatch(req: string, accepted: bool, badRequest: Sent, served: Reply, badHandshake: Sent): Handshake
  {
    match Find(req, HeadEnd, false)
    case None => NoHeadEnd(badRequest)
    case Some(p) =>
      if Find(req, WsKeyHeader, true).None? then ServedStatic(served)
      else if !accepted then BadHandshake(p + 4, badHandshake)
      else Opened(p + 4)
  }

  /** The connection opens only for a complete head that carries the key header and is
      accepted; a request without the key header is served as a file and closed. */
  lemma DispatchCases(req: string, accepted: bool, badRequest: Sent, served: Reply, badHandshake: Sent)
    ensures var h := Dispatch(req, accepted, badRequest, served, badHandshake);
      (HandshakeResult(h) == 0 <==> HasHeadEnd(req) && HasField(req, WsKeyHeader) && accepted) &&
      (HasHeadEnd(req) && !HasField(req, WsKeyHeader) ==> h == ServedStatic(served)) &&
      (HasHeadEnd(req) && HasField(req, WsKeyHeader) && !accepted ==> h.BadHandshake? && h.sent == badHandshake) &&
      (!HasHeadEnd(req) ==> h == NoHeadEnd(badRequest))
  {
  }

  lemma DispatchServes(req: string, accepted: bool, badRequest: Sent, served: Reply, badHandshake: Sent)
    requires HasHeadEnd(req) && !HasField(req, WsKeyHeader)
    ensures Dispatch(req, accepted, badRequest, served, badHandshake) == ServedStatic(served)
  {
  }

  /** Frame reading resumes right after the first blank line. */
  lemma DispatchResumesAfterHead(req: string, accepted: bool, badRequest: Sent, served: Reply, badHandshake: Sent)
    requires Dispatch(req, accepted, badRequest, served, badHandshake).Opened? ||
             Dispatch(req, accepted, badRequest, served, badHandshake).BadHandshake?
    ensures var c := Dispatch(req, accepted, badRequest, served, badHandshake).curPos;
      c >= 4 && MatchesAt(req, HeadEnd, c - 4, false) &&
      forall q :: 0 <= q < c - 4 ==> !MatchesAt(req, HeadEnd, q, false)
  {
  }
}

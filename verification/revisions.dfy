/** The two revisions of the static resolver side by side: the older include/statics.h
    (StaticsV1) against the newer src/statics.h (Statics). The newer one reads more of the
    request, can alias the root and answer 304, and builds its header from caller-supplied
    lines; on a table of bare MIME types it otherwise answers as the older one does. */
module Revisions {
  import opened Wrappers
  import opened CStrings
  import opened StaticsCommon
  import Statics
  import StaticsV1

  // ===== The request line =====

  /** The newer parser accepts what the older one accepts that has a line feed after the
      second space, and reads the same method and path out of it. */
  lemma ParseAgreement(req: string)
    ensures Statics.ParseRequestLine(req).Some? ==>
              StaticsV1.ParseRequestLine(req) ==
              Some(StaticsV1.RequestLine(Statics.ParseRequestLine(req).value.verb, Statics.ParseRequestLine(req).value.path))
    ensures Statics.ParseRequestLine(req).Some? <==>
              StaticsV1.ParseRequestLine(req).Some? &&
              IndexOfFrom(req, '\n', |StaticsV1.ParseRequestLine(req).value.verb| + |StaticsV1.ParseRequestLine(req).value.path| + 2).Some?
  {
    match IndexOfFrom(req, ' ', 0)
    case None =>
    case Some(sp1) =>
      match IndexOfFrom(req, ' ', sp1 + 1)
      case None =>
      case Some(sp2) =>
        assert StaticsV1.ParseRequestLine(req) == Some(StaticsV1.RequestLine(req[..sp1], req[sp1 + 1..sp2]));
    }

  // ===== The lookup key =====

  /** The older key is the newer key under the alias "/", and under any alias for every
      path but "" and "/". */
  lemma KeyAgreement(path: string, alias: string)
    ensures Statics.RequestKey(path, Root) == StaticsV1.RequestKey(path)
    ensures path != [] && path != Root ==> Statics.RequestKey(path, alias) == StaticsV1.RequestKey(path)
  {
    Statics.RequestKeyCases(path, Root);
    Statics.RequestKeyCases(path, alias);
  }

  // ===== The reply header =====

  /** A bare MIME type: `content_type` text that does not end in CR LF. */
  predicate BareType(ct: string)
  {
    !EndsWith(ct, CrLf)
  }

  /** For a bare type both revisions send the same five lines in another order (the newer
      one puts the cache line before the type, the older one after the length), so the
      header fits the buffer in one revision exactly when it fits in the other, and the
      same body follows. */
  lemma BareTypeSentAlike(code: nat, ct: string, body: Option<seq<byte>>, bodyLen: nat)
    requires BareType(ct) && bodyLen < 0x1_0000_0000 && (body.Some? ==> |body.value| == bodyLen)
    ensures var n := Statics.SendResponse(code, Some(ct), body, bodyLen);
      var o := StaticsV1.SendResponse(code, Some(ct), body, bodyLen);
      n.Sent? == o.Sent? && (n.Sent? ==> |n.header| == |o.header| && n.body == o.body)
  {
    Statics.CustomBlockCases(ct);
    var block := Statics.CustomBlock(ct);
    assert |block| == |NoCacheLine| + 14 + |ct| + 2;
    var n := Statics.ResponseHead(code, Truncate(block, 511), bodyLen);
    var o := StaticsV1.ResponseHead(code, ct, bodyLen);
    assert |n| == |StatusLine(code)| + 19 + |Truncate(block, 511)| + 16 + |Decimal(bodyLen)| + 4;
    assert |o| == |StatusLine(code)| + 19 + 14 + |ct| + 2 + 16 + |Decimal(bodyLen)| + 2 + |NoCacheLine| + 2;
  }

  /** The refusals: the same status, and sent by both or by neither, with the same text. */
  lemma ErrorRepliesAlike(code: nat, text: string)
    requires |text| < 0x1_0000_0000
    ensures var n := Statics.ErrorReply(code, text); var o := StaticsV1.ErrorReply(code, text);
      n.status == o.status && n.sent.Sent? == o.sent.Sent? && (n.sent.Sent? ==> n.sent.body == o.sent.body)
  {
    assert BareType(PlainType);
    BareTypeSentAlike(code, PlainType, Some(Bytes(text)), |text|);
  }

  /** Header lines as the newer compiler writes them (ending in CR LF) are served by the
      older resolver as a Content-Type value: its header then has a blank line before the
      Content-Length line, so a client's head ends early. */
  lemma LinesEndOldHeadEarly(code: nat, lines: string, bodyLen: nat)
    requires EndsWith(lines, CrLf)
    ensures var h := StaticsV1.ResponseHead(code, lines, bodyLen);
      var beforeLength := StatusLine(code) + "Connection: close\r\n" + "Content-Type: " + lines + CrLf;
      beforeLength <= h && Find(h, HeadEnd, false).Some? && Find(h, HeadEnd, false).value + 4 <= |beforeLength|
  {
    var h := StaticsV1.ResponseHead(code, lines, bodyLen);
    var beforeLength := StatusLine(code) + "Connection: close\r\n" + "Content-Type: " + lines + CrLf;
    var q := |beforeLength| - 4;
    assert lines[|lines| - 2..] == CrLf;
    assert beforeLength[q] == '\r' && beforeLength[q + 1] == '\n';
    assert beforeLength[q + 2] == '\r' && beforeLength[q + 3] == '\n';
    assert beforeLength <= h;
    assert MatchesAt(h, HeadEnd, q, false);
  }

  // ===== The whole reply =====

  /** A table whose every entry is a bare type, as the older compiler wrote them. */
  predicate BareTable(t: seq<Asset>)
  {
    forall i :: 0 <= i < |t| ==> BareType(t[i].headers)
  }

  /** For a request the newer parser accepts (or whose head is incomplete), on a table of
      bare types, and where the alias cannot matter, the two revisions answer with the same
      status except that the newer one may say 304 where the older one says 200; short of a
      304 both send or neither does, and the same body. */
  lemma SameAnswers(req: string, table: seq<Asset>, alias: string)
    requires WellFormedTable(table) && BareTable(table)
    requires HasHeadEnd(req) ==> Statics.ParseRequestLine(req).Some?
    requires HasHeadEnd(req) ==> var p := Statics.ParseRequestLine(req).value.path;
                                  alias == Root || (p != [] && p != Root)
    ensures var n := Statics.ServeSpec(req, table, alias); var o := StaticsV1.ServeSpec(req, table);
      o.status == (if n.status == 304 then 200 else n.status) &&
      (n.status != 304 ==> n.sent.Sent? == o.sent.Sent? && (n.sent.Sent? ==> n.sent.body == o.sent.body))
  {
    if !HasHeadEnd(req) {
      ErrorRepliesAlike(400, BadRequestText);
    } else {
      var l := Statics.ParseRequestLine(req).value;
      ParseAgreement(req);
      Statics.ServeSpecOfParsed(req, l, table, alias);
      assert StaticsV1.ServeSpec(req, table) == StaticsV1.ServeLine(StaticsV1.RequestLine(l.verb, l.path), table);
      KeyAgreement(l.path, alias);
      SameLineAnswers(l, table, alias);
    }
  }

  lemma SameLineAnswers(l: Statics.RequestLine, table: seq<Asset>, alias: string)
    requires WellFormedTable(table) && BareTable(table)
    requires Statics.RequestKey(l.path, alias) == StaticsV1.RequestKey(l.path)
    ensures var n := Statics.ServeLine(l, table, alias);
      var o := StaticsV1.ServeLine(StaticsV1.RequestLine(l.verb, l.path), table);
      o.status == (if n.status == 304 then 200 else n.status) &&
      (n.status != 304 ==> n.sent.Sent? == o.sent.Sent? && (n.sent.Sent? ==> n.sent.body == o.sent.body))
  {
    if l.verb != "GET" && l.verb != "HEAD" {
      ErrorRepliesAlike(405, MethodNotAllowedText);
    } else {
      var idx := LookupUrl(table, StaticsV1.RequestKey(l.path));
      if idx < 0 {
        ErrorRepliesAlike(404, NotFoundText);
      } else {
        assert WellFormedAsset(table[idx]) && BareType(table[idx].headers);
        AssetAnswersAlike(l.verb == "HEAD", table[idx], l.headers);
      }
    }
  }

  lemma AssetAnswersAlike(isHead: bool, a: Asset, reqHeaders: string)
    requires WellFormedAsset(a) && BareType(a.headers)
    ensures var n := Statics.AssetReply(isHead, a, reqHeaders); var o := StaticsV1.AssetReply(isHead, a);
      o.status == (if n.status == 304 then 200 else n.status) &&
      (n.status != 304 ==> n.sent.Sent? == o.sent.Sent? && (n.sent.Sent? ==> n.sent.body == o.sent.body))
  {
    if isHead {
      BareTypeSentAlike(200, a.headers, None, a.size);
    } else {
      BareTypeSentAlike(200, a.headers, Some(a.content), a.size);
    }
  }
}

/** The multipart answer to a retrieval: the server's printer and the client's parser. */
module Multipart {
  import opened Contacts
  import opened ByteStrings

  // A file on its way: bytes are characters below 256.
  datatype Part = Part(id: string, payload: string)

  const CRLF := "\r\n"
  const BLANK := "\r\n\r\n"
  const TYPELINE := "Content-Type: Application/octet-stream"

  // ---------- the printer ----------

  function Decimal(n: nat): (text: string)
    ensures text != "" && forall i :: 0 <= i < |text| ==> '0' <= text[i] <= '9'
  {
    (if n < 10 then "" else Decimal(n / 10)) + ['0' + (n % 10) as char]
  }

  function IdLine(part: Part): string
  {
    "Content-ID: " + part.id
  }

  function LengthLine(part: Part): string
  {
    "Content-Length: " + Decimal(|part.payload|)
  }

  function HeaderLines(part: Part): seq<string>
  {
    [TYPELINE, IdLine(part), LengthLine(part)]
  }

  function Body(parts: seq<Part>, boundary: string): string
  {
    if parts == [] then CRLF + "--" + boundary + "--" + CRLF
    else "--" + boundary + Text(parts[0]) + Body(parts[1..], boundary)
  }

  // What follows the separator of a part.
  function Text(part: Part): string
  {
    CRLF + Join(HeaderLines(part), CRLF) + BLANK + part.payload + CRLF
  }

  lemma {:induction false} JoinMore(chunks: seq<string>, more: seq<string>)
    ensures Join(chunks + more, "") == Join(chunks, "") + Join(more, "")
  {
    if chunks == [] {
      assert chunks + more == more;
    } else if more == [] {
      assert chunks + more == chunks;
    } else {
      assert (chunks + more)[1..] == chunks[1..] + more;
      JoinMore(chunks[1..], more);
    }
  }

  lemma JoinFour(a: string, b: string, c: string, d: string)
    ensures Join([a, b, c, d], "") == a + b + c + d
  {
    assert [a, b, c, d][1..] == [b, c, d] && [b, c, d][1..] == [c, d] && [c, d][1..] == [d];
    assert Join([d], "") == d;
    assert Join([c, d], "") == c + d;
    assert Join([b, c, d], "") == b + c + d;
  }

  // The chunks that one turn of the printer's loop appends.
  function Chunks(part: Part, boundary: string): seq<string>
  {
    ["--" + boundary + CRLF, TYPELINE + CRLF, IdLine(part) + CRLF, LengthLine(part) + CRLF,
     CRLF, part.payload, CRLF]
  }

  lemma ChunksPrintThePart(part: Part, rest: seq<Part>, boundary: string)
    ensures Body([part] + rest, boundary) == Join(Chunks(part, boundary), "") + Body(rest, boundary)
  {
    assert ([part] + rest)[1..] == rest;
    ChunksJoined(part, boundary);
  }

  lemma ChunksJoined(part: Part, boundary: string)
    ensures Join(Chunks(part, boundary), "")
         == "--" + boundary + Text(part)
  {
    hide Decimal;
    var a, b, c, d := "--" + boundary + CRLF, TYPELINE, IdLine(part), LengthLine(part);
    JoinFour(a, b + CRLF, c + CRLF, d + CRLF);
    JoinFour(CRLF, part.payload, CRLF, "");
    JoinMore([a, b + CRLF, c + CRLF, d + CRLF], [CRLF, part.payload, CRLF, ""]);
    JoinMore(Chunks(part, boundary), [""]);
    assert Chunks(part, boundary) + [""]
        == [a, b + CRLF, c + CRLF, d + CRLF] + [CRLF, part.payload, CRLF, ""];
    JoinThree(b, c, d);
    Regroup("--" + boundary, b, c, d, part.payload);
  }

  lemma Regroup(a: string, b: string, c: string, d: string, p: string)
    ensures a + CRLF + (b + CRLF) + (c + CRLF) + (d + CRLF) + (CRLF + p + CRLF + "")
         == a + (CRLF + (b + CRLF + c + CRLF + d) + BLANK + p + CRLF)
  {
  }

  lemma JoinThree(b: string, c: string, d: string)
    ensures Join([b, c, d], CRLF) == b + CRLF + c + CRLF + d
  {
    assert [b, c, d][1..] == [c, d] && [c, d][1..] == [d];
    assert Join([d], CRLF) == d;
    assert Join([c, d], CRLF) == c + CRLF + d;
  }

  lemma NothingPrinted(parts: seq<Part>, boundary: string)
    ensures Join([], "") + Body(parts[0..], boundary) == Body(parts, boundary)
  {
  }

  lemma AllPrinted(parts: seq<Part>, boundary: string)
    ensures Body(parts[|parts|..], boundary) == Join(["\r\n--" + boundary + "--\r\n"], "")
  {
  }

  method BuildMultipart(parts: seq<Part>, boundary: string) returns (body: string)
    ensures body == Body(parts, boundary)
  {
    hide Body, Join, Chunks;
    var chunks: seq<string> := [];
    NothingPrinted(parts, boundary);
    for k := 0 to |parts|
      invariant Join(chunks, "") + Body(parts[k..], boundary) == Body(parts, boundary)
    {
      var part := parts[k];
      assert [part] + parts[k + 1..] == parts[k..];
      ChunksPrintThePart(part, parts[k + 1..], boundary);
      JoinMore(chunks, Chunks(part, boundary));
      chunks := chunks + Chunks(part, boundary);
    }
    var end := "\r\n--" + boundary + "--\r\n";
    JoinMore(chunks, [end]);
    AllPrinted(parts, boundary);
    chunks := chunks + [end];
    body := Join(chunks, "");
  }

  // ---------- the parser ----------

  // `name<sep>value` lines: names in lower case, the last line of a name wins.
  function Fields(lines: seq<string>, sep: string, drop: char -> bool): map<string, string>
    requires sep != ""
  {
    if lines == [] then map[]
    else
      var before := Fields(lines[..|lines| - 1], sep, drop);
      AddField(before, lines[|lines| - 1], sep, drop)
  }

  function AddField(fields: map<string, string>, line: string, sep: string, drop: char -> bool)
    : map<string, string>
    requires sep != ""
  {
    var i := Find(line, sep);
    if i == |line| then fields
    else fields[Lower(Strip(line[..i], drop)) := Strip(line[i + |sep|..], drop)]
  }

  method ReadFields(lines: seq<string>, sep: string, drop: char -> bool)
    returns (fields: map<string, string>)
    requires sep != ""
    ensures fields == Fields(lines, sep, drop)
  {
    fields := map[];
    for k := 0 to |lines|
      invariant fields == Fields(lines[..k], sep, drop)
    {
      assert lines[..k + 1][..k] == lines[..k];
      fields := AddField(fields, lines[k], sep, drop);
    }
    assert lines[..|lines|] == lines;
  }

  function ValueOf(fields: map<string, string>, name: string): string
  {
    if name in fields then fields[name] else ""
  }

  function ChopFront(s: string): string
  {
    if StartsWith(s, CRLF) then s[2..] else s
  }

  function ChopBack(s: string): string
  {
    if EndsWith(s, CRLF) then s[..|s| - 2] else s
  }

  function ReadPiece(piece: string): Option<Part>
  {
    if piece == "" || StartsWith(piece, "--") || ChopFront(piece) == "" then None
    else
      var part := ChopBack(ChopFront(piece));
      var i := Find(part, BLANK);
      if i == |part| then None
      else
        var id := ValueOf(Fields(Split(part[..i], CRLF), ":", IsSpace), "content-id");
        if id == "" then None
        else Some(Part(Strip(id, IsTextSpace), ChopBack(part[i + |BLANK|..])))
  }

  function ReadPieces(pieces: seq<string>): seq<Part>
  {
    if pieces == [] then []
    else
      ReadPieces(pieces[..|pieces| - 1])
      + (match ReadPiece(pieces[|pieces| - 1]) case None => [] case Some(p) => [p])
  }

  // The separator line of a multipart answer, taken from the content type or, failing that, from
  // the header of its own; nothing when the answer is not multipart.
  function MarkerOf(contentType: string, boundaryHeader: string): Option<string>
  {
    var fields := TypeFields(contentType);
    var kind := if fields == [] then "application/octet-stream" else fields[0];
    var params := if fields == [] then map[] else Fields(fields[1..], "=", IsTextSpace);
    var given := Unquote(ValueOf(params, "boundary"));
    var boundary := if given != "" then given else Unquote(Strip(boundaryHeader, IsTextSpace));
    if StartsWith(Lower(kind), "multipart/") && boundary != "" then Some("--" + boundary) else None
  }

  function TypeFields(contentType: string): seq<string>
  {
    var text := if contentType == "" then "application/octet-stream" else contentType;
    StripAll(Split(text, ";"))
  }

  function StripAll(pieces: seq<string>): seq<string>
  {
    if pieces == [] then []
    else
      var first := Strip(pieces[0], IsTextSpace);
      (if first == "" then [] else [first]) + StripAll(pieces[1..])
  }

  function Unquote(s: string): string
  {
    Strip(s, c => c == '"')
  }

  function Names(parts: seq<Part>): seq<string>
  {
    seq(|parts|, i requires 0 <= i < |parts| => parts[i].id)
  }

  function Written(disk: map<string, string>, parts: seq<Part>): map<string, string>
  {
    if parts == [] then disk
    else
      var last := parts[|parts| - 1];
      Written(disk, parts[..|parts| - 1])[last.id := last.payload]
  }

  // The files that the parts of an answer are, or the one file that the whole of it is.
  function PartsOf(body: string, marker: Option<string>, fileKey: string): (parts: seq<Part>)
    ensures parts != []
  {
    var parts :=
      match marker
      case None => []
      case Some(m) => if m == "" then [] else ReadPieces(Split(body, m));
    if parts == [] then [Part(fileKey, body)] else parts
  }

  lemma ReadOneMore(pieces: seq<string>, k: nat)
    requires k < |pieces|
    ensures var found := ReadPiece(pieces[k]);
            var before := ReadPieces(pieces[..k]);
            ReadPieces(pieces[..k + 1]) == if found.Some? then before + [found.value] else before
  {
    hide ReadPiece;
    assert pieces[..k + 1][..k] == pieces[..k];
  }

  lemma SavedOneMore(disk: map<string, string>, parts: seq<Part>, more: Part)
    ensures Names(parts + [more]) == Names(parts) + [more.id]
    ensures Written(disk, parts + [more]) == Written(disk, parts)[more.id := more.payload]
  {
  }

  method SaveRetrieveResponse(body: string, contentType: string, boundaryHeader: string,
                              fileKey: string, disk0: map<string, string>)
    returns (saved: seq<string>, disk: map<string, string>)
    ensures var parts := PartsOf(body, MarkerOf(contentType, boundaryHeader), fileKey);
            saved == Names(parts) && disk == Written(disk0, parts)
  {
    hide ReadPieces, Split, MarkerOf;
    saved, disk := [], disk0;
    var marker := MarkerOf(contentType, boundaryHeader);
    if marker.Some? && marker.value != "" {
      saved, disk := SavePieces(Split(body, marker.value), disk0);
    }
    if saved == [] {
      disk := disk0[fileKey := body];
      saved := [fileKey];
    }
  }

  lemma NoneRead(pieces: seq<string>, disk: map<string, string>)
    ensures Names(ReadPieces(pieces[..0])) == [] && Written(disk, ReadPieces(pieces[..0])) == disk
  {
  }

  method SavePieces(pieces: seq<string>, disk0: map<string, string>)
    returns (saved: seq<string>, disk: map<string, string>)
    ensures saved == Names(ReadPieces(pieces)) && disk == Written(disk0, ReadPieces(pieces))
  {
    hide ReadPiece, ReadPieces, Names, Written;
    saved, disk := [], disk0;
    NoneRead(pieces, disk0);
    for k := 0 to |pieces|
      invariant saved == Names(ReadPieces(pieces[..k]))
      invariant disk == Written(disk0, ReadPieces(pieces[..k]))
    {
      ReadOneMore(pieces, k);
      var found := SavePiece(pieces[k]);
      if found.Some? {
        disk := disk[found.value.id := found.value.payload];
        saved := saved + [found.value.id];
        SavedOneMore(disk0, ReadPieces(pieces[..k]), found.value);
      }
    }
    assert pieces[..|pieces|] == pieces;
  }

  method SavePiece(piece: string) returns (found: Option<Part>)
    ensures found == ReadPiece(piece)
  {
    hide Fields, Split, Strip, StartsWith, EndsWith, IsTextSpace;
    found := None;
    if piece == "" || StartsWith(piece, "--") { return; }
    var part := ChopFront(piece);
    if part == "" { return; }
    part := ChopBack(part);
    var i := Find(part, BLANK);
    if i == |part| { return; }
    var headers := ReadFields(Split(part[..i], CRLF), ":", IsSpace);
    if "content-id" !in headers || headers["content-id"] == "" { return; }
    var payload := ChopBack(part[i + |BLANK|..]);
    found := Some(Part(Strip(headers["content-id"], IsTextSpace), payload));
  }

  // ---------- the pieces that splitting the answer gives ----------

  // What stands between the separators.
  function Pieces(parts: seq<Part>): (pieces: seq<string>)
    ensures |pieces| == |parts| + 1
  {
    if parts == [] then ["--" + CRLF]
    else [Text(parts[0]) + if |parts| == 1 then CRLF else ""] + Pieces(parts[1..])
  }

  lemma JoinFirst(first: string, rest: seq<string>, m: string)
    requires rest != []
    ensures Join([first] + rest, m) == first + m + Join(rest, m)
  {
  }

  lemma {:induction false} BodyIsJoined(parts: seq<Part>, boundary: string)
    requires parts != []
    ensures Body(parts, boundary) == "--" + boundary + Join(Pieces(parts), "--" + boundary)
    ensures Body(parts, boundary) == Join([""] + Pieces(parts), "--" + boundary)
  {
    hide Text, Join;
    var m, rest := "--" + boundary, parts[1..];
    JoinFirst("", Pieces(parts), m);
    if rest == [] {
      JoinFirst(Text(parts[0]) + CRLF, ["--" + CRLF], m);
      OneLeft(Text(parts[0]), boundary);
    } else {
      BodyIsJoined(rest, boundary);
      JoinFirst(Text(parts[0]) + "", Pieces(rest), m);
    }
  }

  lemma OneLeft(text: string, boundary: string)
    ensures var m := "--" + boundary;
            m + text + Body([], boundary) == m + ((text + CRLF) + m + Join(["--" + CRLF], m))
  {
  }
}

/** What the client's parser makes of an answer that the server printed. */
module MultipartLaws {
  import opened Contacts
  import opened ByteStrings
  import opened Multipart

  predicate IsToken(s: string)
  {
    s != "" && forall i :: 0 <= i < |s| ==> '!' <= s[i] <= '~' && s[i] != '"'
  }

  function Marker(boundary: string): string
  {
    "--" + boundary
  }

  // Ids are tokens, and neither they nor the payloads hold the separator.
  ghost predicate Printable(parts: seq<Part>, boundary: string)
  {
    IsToken(boundary)
    && forall i :: 0 <= i < |parts| ==> PrintablePart(parts[i], Marker(boundary))
  }

  ghost predicate PrintablePart(part: Part, m: string)
  {
    IsToken(part.id) && Free(part.id, m) && Free(part.payload, m)
  }

  // Every payload but the last loses a line end that it closes with.
  function Received(parts: seq<Part>): (r: seq<Part>)
    ensures |r| == |parts|
  {
    if parts == [] then []
    else
      var payload := parts[0].payload;
      [Part(parts[0].id, if |parts| == 1 then payload else ChopBack(payload))]
      + Received(parts[1..])
  }

  lemma {:induction false} ReceivedAt(parts: seq<Part>, i: nat)
    requires i < |parts|
    ensures Received(parts)[i].id == parts[i].id
    ensures Received(parts)[i].payload
         == if i == |parts| - 1 then parts[i].payload else ChopBack(parts[i].payload)
  {
    if i > 0 {
      ReceivedAt(parts[1..], i - 1);
    }
  }

  lemma Intact(parts: seq<Part>)
    ensures Received(parts) == parts
        <==> forall i :: 0 <= i < |parts| - 1 ==> !EndsWith(parts[i].payload, CRLF)
  {
    forall i | 0 <= i < |parts|
      ensures Received(parts)[i] == parts[i]
          <==> i == |parts| - 1 || !EndsWith(parts[i].payload, CRLF)
    {
      ReceivedAt(parts, i);
    }
  }

  // ---------- the separator stands only where the printer put it ----------

  ghost predicate IsMarker(m: string)
  {
    |m| >= 3 && m[0] == '-' && m[1] == '-' && '\r' !in m && '\n' !in m && ' ' !in m
  }

  lemma MarkerOfToken(boundary: string)
    requires IsToken(boundary)
    ensures IsMarker(Marker(boundary))
  {
  }

  lemma FreeLines(a: string, b: string, m: string)
    requires IsMarker(m) && Free(a, m) && Free(b, m)
    ensures Free(a + CRLF + b, m)
  {
    FreeAcross("", '\n', b, m);
    assert "" + ['\n'] + b == ['\n'] + b;
    FreeAcross(a, '\r', ['\n'] + b, m);
    assert a + ['\r'] + (['\n'] + b) == a + CRLF + b;
  }

  lemma FreeHeaders(part: Part, m: string)
    requires IsMarker(m) && PrintablePart(part, m)
    ensures Free(TYPELINE, m) && Free(IdLine(part), m) && Free(LengthLine(part), m)
  {
    FreeWithoutDashes(TYPELINE, m);
    FreeWithoutDashes("Content-ID:", m);
    FreeAcross("Content-ID:", ' ', part.id, m);
    assert "Content-ID:" + [' '] + part.id == IdLine(part);
    FreeWithoutDashes("Content-Length:", m);
    FreeWithoutDashes(Decimal(|part.payload|), m);
    FreeAcross("Content-Length:", ' ', Decimal(|part.payload|), m);
    assert "Content-Length:" + [' '] + Decimal(|part.payload|) == LengthLine(part);
  }

  lemma FreeText(part: Part, m: string)
    requires IsMarker(m) && PrintablePart(part, m)
    ensures Free(Text(part), m) && Free(Text(part) + CRLF, m)
  {
    hide Free, Decimal, Join;
    FreeHeaders(part, m);
    var a, b, c, p := TYPELINE, IdLine(part), LengthLine(part), part.payload;
    EmptyFree(m);
    JoinThree(a, b, c);
    FreeLines(a, b, m);
    FreeLines(a + CRLF + b, c, m);
    var j := a + CRLF + b + CRLF + c;
    FreeLines("", j, m);
    FreeLines("" + CRLF + j, "", m);
    FreeLines("" + CRLF + j + CRLF + "", p, m);
    FreeLines("" + CRLF + j + CRLF + "" + CRLF + p, "", m);
    FreeLines("" + CRLF + j + CRLF + "" + CRLF + p + CRLF + "", "", m);
    TidyText(j, p);
  }

  lemma EmptyFree(m: string)
    requires m != ""
    ensures Free("", m)
  {
  }

  lemma TidyText(j: string, p: string)
    ensures "" + CRLF + j + CRLF + "" + CRLF + p + CRLF + "" == CRLF + j + BLANK + p + CRLF
    ensures "" + CRLF + j + CRLF + "" + CRLF + p + CRLF + "" + CRLF + ""
         == CRLF + j + BLANK + p + CRLF + CRLF
  {
  }

  lemma CleanLine(line: string, m: string)
    requires IsMarker(m) && Free(line + CRLF, m)
    ensures Clean(line + CRLF, m)
  {
    assert line + CRLF == line + ['\r'] + ['\n'];
    CleanWhenGuarded(line + ['\r'], '\n', m);
  }

  lemma CleanText(part: Part, m: string)
    requires IsMarker(m) && PrintablePart(part, m)
    ensures Clean(Text(part), m) && Clean(Text(part) + CRLF, m)
  {
    hide Free, Clean;
    FreeText(part, m);
    CleanLine(Text(part), m);
    TextEnds(part);
    var front := Text(part)[..|Text(part)| - 2];
    assert Text(part) == front + CRLF;
    CleanLine(front, m);
  }

  lemma TextEnds(part: Part)
    ensures |Text(part)| >= 2 && Text(part)[|Text(part)| - 2..] == CRLF
  {
  }

  lemma ClosingFree(m: string)
    requires IsMarker(m)
    ensures Free("--" + CRLF, m) && Free("--" + CRLF, m) && Clean("", m) && Clean(CRLF, m)
  {
    EmptyFree(m);
    FreeLines("--", "", m);
    assert "--" + CRLF + "" == "--" + CRLF;
    FreeLines("", "", m);
    assert "" + CRLF + "" == "" + CRLF;
    CleanLine("", m);
    assert "" + CRLF == CRLF;
  }

  lemma {:induction false} PiecesClean(parts: seq<Part>, boundary: string)
    requires Printable(parts, boundary)
    ensures forall i :: 0 <= i < |parts| ==> Clean(Pieces(parts)[i], Marker(boundary))
    ensures Free(Pieces(parts)[|parts|], Marker(boundary))
  {
    hide Clean, Free, Text, PrintablePart, IsToken;
    var m := Marker(boundary);
    MarkerOfToken(boundary);
    if parts == [] {
      ClosingFree(m);
    } else {
      CleanText(parts[0], m);
      assert Text(parts[0]) + "" == Text(parts[0]);
      PiecesClean(parts[1..], boundary);
    }
  }

  lemma SplitBody(parts: seq<Part>, boundary: string)
    requires Printable(parts, boundary)
    ensures Split(Body(parts, boundary), Marker(boundary))
         == [if parts == [] then CRLF else ""] + Pieces(parts)
  {
    hide Clean, Free, Text, PrintablePart, IsToken, Split, Join;
    var m := Marker(boundary);
    MarkerOfToken(boundary);
    ClosingFree(m);
    PiecesClean(parts, boundary);
    var pieces := [if parts == [] then CRLF else ""] + Pieces(parts);
    if parts == [] {
      NothingJoined(boundary);
    } else {
      BodyIsJoined(parts, boundary);
    }
    assert forall i :: 0 <= i < |pieces| - 1 ==> i > 0 ==> pieces[i] == Pieces(parts)[i - 1];
    assert pieces[|pieces| - 1] == Pieces(parts)[|parts|];
    SplitJoin(pieces, m);
  }

  lemma NothingJoined(boundary: string)
    ensures Body([], boundary) == Join([CRLF] + Pieces([]), Marker(boundary))
  {
  }

  // ---------- the header lines of a part ----------

  lemma NoReturns(part: Part)
    requires IsToken(part.id)
    ensures '\r' !in TYPELINE && '\r' !in IdLine(part) && '\r' !in LengthLine(part)
  {
  }

  lemma HeadersSplit(part: Part)
    requires IsToken(part.id)
    ensures Split(Join(HeaderLines(part), CRLF), CRLF) == HeaderLines(part)
  {
    hide Join, Split, Decimal;
    NoReturns(part);
    CleanWithoutFirst(TYPELINE, CRLF);
    CleanWithoutFirst(IdLine(part), CRLF);
    CleanWithoutFirst(LengthLine(part), CRLF);
    SplitJoin(HeaderLines(part), CRLF);
  }

  // The first blank line is the one behind the headers.
  lemma ThreeLinesClean(a: string, b: string, c: string)
    requires '\r' !in a && '\r' !in b && '\r' !in c && b != "" && c != ""
    ensures Clean(a + CRLF + b + CRLF + c, BLANK)
  {
    var s := a + CRLF + b + CRLF + c;
    var t := s + BLANK;
    forall i | 0 <= i < |s|
      ensures !OccursAt(t, BLANK, i)
    {
      ReturnsAt(a, b, c, i);
      assert t[i] == s[i] && (i + 2 < |s| ==> t[i + 2] == s[i + 2]);
      assert i + 4 <= |t| ==> t[i..i + 4][0] == t[i] && t[i..i + 4][2] == t[i + 2];
    }
  }

  lemma ReturnsAt(a: string, b: string, c: string, i: nat)
    requires '\r' !in a && '\r' !in b && '\r' !in c && b != "" && c != ""
    requires i < |a + CRLF + b + CRLF + c|
    ensures var s := a + CRLF + b + CRLF + c;
            s[i] == '\r' ==> i + 2 < |s| && s[i + 2] != '\r'
  {
  }

  lemma TokenStays(s: string)
    requires IsToken(s)
    ensures Strip(s, IsSpace) == s && Strip(s, IsTextSpace) == s && Unquote(s) == s
    ensures Strip(" " + s, IsSpace) == s
  {
  }

  lemma Named(fields: map<string, string>, name: string, value: string)
    requires IsToken(name) && ':' !in name
    ensures AddField(fields, name + ": " + value, ":", IsSpace)
         == fields[Lower(name) := Strip(" " + value, IsSpace)]
  {
    hide Strip, Find;
    CleanWithoutFirst(name, ":");
    FindBehindClean(name, ":", " " + value);
    var line := name + ":" + (" " + value);
    assert line == name + ": " + value;
    TokenStays(name);
    assert line[..|name|] == name && line[|name| + 1..] == " " + value;
  }

  lemma IdNamed(fields: map<string, string>, part: Part)
    requires IsToken(part.id)
    ensures ValueOf(AddField(fields, IdLine(part), ":", IsSpace), "content-id") == part.id
  {
    hide AddField, Strip;
    Named(fields, "Content-ID", part.id);
    assert IdLine(part) == "Content-ID" + ": " + part.id;
    TokenStays(part.id);
    assert Lower("Content-ID") == "content-id";
  }

  lemma LengthNamed(fields: map<string, string>, part: Part)
    ensures ValueOf(AddField(fields, LengthLine(part), ":", IsSpace), "content-id")
         == ValueOf(fields, "content-id")
  {
    hide AddField, Strip, Decimal;
    Named(fields, "Content-Length", Decimal(|part.payload|));
    assert LengthLine(part) == "Content-Length" + ": " + Decimal(|part.payload|);
    assert |Lower("Content-Length")| == 14;
  }

  lemma ContentIdRead(part: Part)
    requires IsToken(part.id)
    ensures ValueOf(Fields(HeaderLines(part), ":", IsSpace), "content-id") == part.id
  {
    hide AddField, Fields, IdLine, LengthLine;
    var one := AddField(map[], TYPELINE, ":", IsSpace);
    FieldsOfThree(HeaderLines(part));
    IdNamed(one, part);
    LengthNamed(AddField(one, IdLine(part), ":", IsSpace), part);
  }

  lemma FieldsOfThree(lines: seq<string>)
    requires |lines| == 3
    ensures Fields(lines, ":", IsSpace)
         == AddField(AddField(AddField(map[], lines[0], ":", IsSpace), lines[1], ":", IsSpace),
                     lines[2], ":", IsSpace)
  {
    hide AddField;
    assert lines[..2][..1] == lines[..1] && lines[..1][..0] == [];
    assert Fields(lines[..0], ":", IsSpace) == map[];
    assert Fields(lines[..1], ":", IsSpace) == AddField(map[], lines[0], ":", IsSpace);
    assert Fields(lines[..2], ":", IsSpace)
        == AddField(Fields(lines[..1], ":", IsSpace), lines[1], ":", IsSpace);
  }

  // ---------- one piece ----------

  lemma TextRead(part: Part, end: string)
    requires IsToken(part.id) && (end == "" || end == CRLF)
    ensures ReadPiece(Text(part) + end)
         == Some(Part(part.id, if end == "" then ChopBack(part.payload) else part.payload))
  {
    hide Join, Split, Find, Fields, Strip, Decimal, Free;
    var j := Join(HeaderLines(part), CRLF);
    var rest := part.payload + end;
    Trimmed(j, part.payload, end);
    NoReturns(part);
    JoinThree(TYPELINE, IdLine(part), LengthLine(part));
    ThreeLinesClean(TYPELINE, IdLine(part), LengthLine(part));
    FindBehindClean(j, BLANK, rest);
    var whole := j + BLANK + rest;
    assert whole[..|j|] == j && whole[|j| + |BLANK|..] == rest;
    HeadersSplit(part);
    ContentIdRead(part);
    TokenStays(part.id);
    Chopped(part.payload, end);
  }

  lemma Trimmed(j: string, payload: string, end: string)
    requires end == "" || end == CRLF
    ensures var piece := CRLF + j + BLANK + payload + CRLF + end;
            piece != "" && !StartsWith(piece, "--") && ChopFront(piece) != ""
            && ChopBack(ChopFront(piece)) == j + BLANK + (payload + end)
  {
    var piece := CRLF + j + BLANK + payload + CRLF + end;
    assert piece[..2] == CRLF;
    assert piece[0] == '\r';
    assert ChopFront(piece) == j + BLANK + (payload + end) + CRLF;
  }

  lemma Chopped(payload: string, end: string)
    requires end == "" || end == CRLF
    ensures ChopBack(payload + end) == if end == "" then ChopBack(payload) else payload
  {
  }

  // ---------- the whole answer ----------

  lemma {:induction false} ReadBoth(a: seq<string>, b: seq<string>)
    ensures ReadPieces(a + b) == ReadPieces(a) + ReadPieces(b)
    decreases |b|
  {
    hide ReadPiece;
    if b == [] {
      assert a + b == a;
    } else {
      assert (a + b)[..|a + b| - 1] == a + b[..|b| - 1];
      ReadBoth(a, b[..|b| - 1]);
    }
  }

  lemma ReadOne(piece: string)
    ensures ReadPieces([piece])
         == match ReadPiece(piece) case None => [] case Some(p) => [p]
  {
  }

  lemma {:induction false} ReadSections(parts: seq<Part>)
    requires forall i :: 0 <= i < |parts| ==> IsToken(parts[i].id)
    ensures ReadPieces(Pieces(parts)) == Received(parts)
  {
    hide ReadPiece, ReadPieces, Text, IsToken;
    if parts == [] {
      ReadOne("--" + CRLF);
      NothingThere();
    } else {
      var end := if |parts| == 1 then CRLF else "";
      TextRead(parts[0], end);
      ReadOne(Text(parts[0]) + end);
      ReadBoth([Text(parts[0]) + end], Pieces(parts[1..]));
      ReadSections(parts[1..]);
    }
  }

  lemma NothingThere()
    ensures ReadPiece("") == None && ReadPiece(CRLF) == None && ReadPiece("--" + CRLF) == None
  {
  }

  lemma HeadersOfTheAnswer(boundary: string)
    requires IsToken(boundary)
    ensures MarkerOf("Multipart/Related", boundary) == Some(Marker(boundary))
  {
    hide Strip, TypeFields;
    var kind := "Multipart/Related";
    KindStays(kind);
    TokenStays(boundary);
    NoneGiven();
    assert Lower(kind)[..10] == "multipart/";
  }

  lemma KindStays(kind: string)
    requires IsToken(kind) && ';' !in kind
    ensures TypeFields(kind) == [kind]
  {
    hide Strip;
    TokenStays(kind);
    CleanWithoutFirst(kind, ";");
    FindNothing(kind, ";");
    assert Split(kind, ";") == [kind];
    assert StripAll([kind]) == [kind] + StripAll([]);
  }

  lemma NoneGiven()
    ensures Unquote(ValueOf(map[], "boundary")) == ""
  {
  }

  // Reading an answer back gives its parts, and each of them as it was unless a payload before
  // the last closes with a line end, which is then lost.
  lemma AnswerReadBack(parts: seq<Part>, boundary: string, fileKey: string)
    requires Printable(parts, boundary)
    ensures var body := Body(parts, boundary);
            PartsOf(body, MarkerOf("Multipart/Related", boundary), fileKey)
            == if parts == [] then [Part(fileKey, body)] else Received(parts)
    ensures parts != [] ==>
      (PartsOf(Body(parts, boundary), MarkerOf("Multipart/Related", boundary), fileKey) == parts
       <==> forall i :: 0 <= i < |parts| - 1 ==> !EndsWith(parts[i].payload, CRLF))
  {
    hide ReadPieces, MarkerOf, Split, Free, IsToken, EndsWith, Body;
    HeadersOfTheAnswer(boundary);
    SplitBody(parts, boundary);
    var first := if parts == [] then CRLF else "";
    ReadBoth([first], Pieces(parts));
    ReadOne(first);
    NothingThere();
    ReadSections(parts);
    Intact(parts);
  }

  // Files under different names are all there afterwards, and no other file has changed.
  lemma {:induction false} WrittenHolds(disk: map<string, string>, parts: seq<Part>)
    requires forall i, j :: 0 <= i < j < |parts| ==> parts[i].id != parts[j].id
    ensures forall i :: 0 <= i < |parts| ==>
              parts[i].id in Written(disk, parts)
              && Written(disk, parts)[parts[i].id] == parts[i].payload
    ensures forall name :: name !in Names(parts) ==>
              (name in Written(disk, parts) <==> name in disk)
              && (name in disk ==> Written(disk, parts)[name] == disk[name])
  {
    if parts != [] {
      var init := parts[..|parts| - 1];
      WrittenHolds(disk, init);
      forall i | 0 <= i < |init|
        ensures init[i].id == Names(parts)[i]
      {
      }
      forall name | name !in Names(parts)
        ensures name !in Names(init)
      {
        assert forall i :: 0 <= i < |init| ==> Names(init)[i] == Names(parts)[i];
      }
      assert Names(parts)[|init|] == parts[|init|].id;
    }
  }

  // A server's answer on its way to the client's directory.
  method Transfer(parts: seq<Part>, boundary: string, fileKey: string, disk0: map<string, string>)
    returns (saved: seq<string>, disk: map<string, string>)
    requires Printable(parts, boundary) && parts != []
    requires forall i, j :: 0 <= i < j < |parts| ==> parts[i].id != parts[j].id
    requires forall i :: 0 <= i < |parts| - 1 ==> !EndsWith(parts[i].payload, CRLF)
    ensures saved == Names(parts)
    ensures forall i :: 0 <= i < |parts| ==>
              parts[i].id in disk && disk[parts[i].id] == parts[i].payload
    ensures forall name :: name !in Names(parts) ==>
              (name in disk <==> name in disk0) && (name in disk0 ==> disk[name] == disk0[name])
  {
    hide Names, Written, EndsWith, Printable, Body, MarkerOf, PartsOf;
    var body := BuildMultipart(parts, boundary);
    saved, disk := SaveRetrieveResponse(body, "Multipart/Related", boundary, fileKey, disk0);
    AnswerReadBack(parts, boundary, fileKey);
    WrittenHolds(disk0, parts);
  }

  // ---------- the length of a payload ----------

  // The number that decimal digits stand for.
  function Number(text: string): nat
    requires forall i :: 0 <= i < |text| ==> '0' <= text[i] <= '9'
  {
    if text == "" then 0
    else 10 * Number(text[..|text| - 1]) + (text[|text| - 1] as int - '0' as int)
  }

  // Decimal writes the number, without leading zeros.
  lemma {:induction false} DecimalIs(n: nat)
    ensures Number(Decimal(n)) == n
    ensures |Decimal(n)| > 1 ==> Decimal(n)[0] != '0'
    ensures n > 0 ==> Decimal(n)[0] != '0'
  {
    var text := Decimal(n);
    if n >= 10 {
      DecimalIs(n / 10);
      assert text[..|text| - 1] == Decimal(n / 10);
    } else {
      assert text[..|text| - 1] == "";
    }
  }

  // Whoever reads the header lines of a part finds the length of its payload.
  lemma LengthRead(part: Part)
    requires IsToken(part.id)
    ensures var fields := Fields(HeaderLines(part), ":", IsSpace);
            && ValueOf(fields, "content-length") == Decimal(|part.payload|)
            && Number(Decimal(|part.payload|)) == |part.payload|
  {
    hide AddField, Fields, IdLine, LengthLine, Number, Decimal;
    DecimalIs(|part.payload|);
    FieldsOfThree(HeaderLines(part));
    LengthLineRead(AddField(AddField(map[], TYPELINE, ":", IsSpace), IdLine(part), ":", IsSpace), part);
  }

  lemma LengthLineRead(fields: map<string, string>, part: Part)
    ensures ValueOf(AddField(fields, LengthLine(part), ":", IsSpace), "content-length")
         == Decimal(|part.payload|)
  {
    hide AddField, Strip, Decimal;
    Named(fields, "Content-Length", Decimal(|part.payload|));
    assert LengthLine(part) == "Content-Length" + ": " + Decimal(|part.payload|);
    DigitsStay(Decimal(|part.payload|));
    assert Lower("Content-Length") == "content-length";
  }

  lemma DigitsStay(text: string)
    requires text != "" && forall i :: 0 <= i < |text| ==> '0' <= text[i] <= '9'
    ensures Strip(" " + text, IsSpace) == text
  {
    TokenStays(text);
  }

  // What the printer sends for one part with the id "a" and the payload "x".
  lemma PrintedAnswer()
    ensures CRLF == "\r\n" && TYPELINE == "Content-Type: Application/octet-stream"
    ensures Body([Part("a", "x")], "b")
         == "--b" + (CRLF + (TYPELINE + CRLF + "Content-ID: a" + CRLF + "Content-Length: 1")
                     + (CRLF + CRLF) + "x" + CRLF)
            + (CRLF + "--b--" + CRLF)
  {
    var part := Part("a", "x");
    assert Decimal(1) == "1";
    assert IdLine(part) == "Content-ID: a" && LengthLine(part) == "Content-Length: 1";
    JoinThree(TYPELINE, IdLine(part), LengthLine(part));
    assert CRLF + CRLF == BLANK;
    assert [part][1..] == [];
    assert Body([], "b") == CRLF + "--b--" + CRLF;
    assert "--" + "b" == "--b";
  }
}

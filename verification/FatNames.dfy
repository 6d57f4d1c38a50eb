/**
 File names in directory form: eleven bytes, eight for the body and three for the extension, padded with blanks.
 The code page is 932, in which some characters have two bytes.
 */
module FatNames {
  import opened ByteSeqs

  const BLANK: byte := 0x20
  const DOT: byte := 0x2E
  const DDEM: byte := 0xE5   // marks a deleted entry when it comes first
  const RDDEM: byte := 0x05  // stands for DDEM in the first place

  /** First byte of a two-byte character. */
  predicate Dbc1(c: byte) {
    0x81 <= c <= 0x9F || 0xE0 <= c <= 0xFC
  }

  /** Second byte of a two-byte character. */
  predicate Dbc2(c: byte) {
    0x40 <= c <= 0x7E || 0x80 <= c <= 0xFC
  }

  predicate IsLower(c: byte) {
    0x61 <= c <= 0x7A
  }

  function Up(c: byte): byte {
    if IsLower(c) then c - 0x20 else c
  }

  /** One of the characters that must not occur in a name. */
  predicate Illegal(c: byte) {
    || c == 0x22 || c == 0x2A || c == 0x2B || c == 0x2C || c == 0x3A || c == 0x3B || c == 0x3C || c == 0x3D || c == 0x3E
    || c == 0x3F || c == 0x5B || c == 0x5D || c == 0x7C || c == 0x7F
  }

  predicate IsSlash(c: byte) {
    c == 0x2F || c == 0x5C
  }

  /** The classes of bytes, by the characters they stand for. */
  lemma Characters(c: byte)
    ensures Illegal(c) <==> c as char in "\"*+,:;<=>?[]|" || c == 0x7F
    ensures IsSlash(c) <==> c as char in "/\\"
    ensures c == BLANK <==> c as char == ' '
    ensures c == DOT <==> c as char == '.'
    ensures 'a' <= c as char <= 'z' ==> 'A' <= Up(c) as char <= 'Z' && Up(c) as int - 'A' as int == c as int - 'a' as int
    ensures !('a' <= c as char <= 'z') ==> Up(c) == c
    ensures Dbc1(c) <==> 0x80 < c < 0xFD && !(0xA0 <= c < 0xE0)
    ensures Dbc2(c) <==> 0x3F < c < 0xFD && c != 0x7F
  {
  }

  /** The segment of the path ends here: at its end, a control character or a separator. */
  predicate AtEnd(p: seq<byte>) {
    p == [] || p[0] <= BLANK || IsSlash(p[0])
  }

  // ---- parsing ----

  datatype Part = Bad | Part(text: seq<byte>, rest: seq<byte>)

  /** The part of a name up to a dot or the end, raised to upper case, if it is legal and has room bytes at most. */
  function Field(p: seq<byte>, room: nat): (r: Part)
    ensures r.Part? ==> |r.text| <= room && (AtEnd(r.rest) || r.rest[0] == DOT)
    decreases |p|
  {
    if AtEnd(p) || p[0] == DOT then Part([], p)
    else if room == 0 then Bad
    else if Dbc1(p[0]) then
      if |p| < 2 || !Dbc2(p[1]) || room < 2 then Bad
      else match Field(p[2..], room - 2)
        case Bad => Bad
        case Part(text, rest) => Part([p[0], p[1]] + text, rest)
    else if Illegal(p[0]) then Bad
    else match Field(p[1..], room - 1)
      case Bad => Bad
      case Part(text, rest) => Part([Up(p[0])] + text, rest)
  }

  function Padded(s: seq<byte>, n: nat): (r: seq<byte>)
    requires |s| <= n
    ensures |r| == n
  {
    s + seq(n - |s|, _ => BLANK)
  }

  /** Directory form of a body and an extension. */
  function Entry(body: seq<byte>, ext: seq<byte>): (r: seq<byte>)
    requires |body| <= 8 && |ext| <= 3
    ensures |r| == 11
  {
    var s := Padded(body, 8) + Padded(ext, 3);
    if s[0] == DDEM then s[0 := RDDEM] else s
  }

  datatype Parsed = Invalid | Name(entry: seq<byte>, rest: seq<byte>)

  /** Go on with a name whose body is complete and whose extension begins with ext. */
  function WithExt(body: seq<byte>, ext: seq<byte>, p: seq<byte>): Parsed
    requires |body| <= 8 && |ext| <= 3
  {
    match Field(p, 3 - |ext|)
    case Bad => Invalid
    case Part(text, rest) => if !AtEnd(rest) then Invalid else Name(Entry(body, ext + text), rest)
  }

  /** Go on with a name whose body begins with body. */
  function WithBody(body: seq<byte>, p: seq<byte>): Parsed
    requires |body| <= 8
  {
    match Field(p, 8 - |body|)
    case Bad => Invalid
    case Part(text, rest) =>
      if !AtEnd(rest) then WithExt(body + text, [], rest[1..])
      else if body + text == [] then Invalid
      else Name(Entry(body + text, []), rest)
  }

  /** The first segment of a path in directory form. */
  function Parse(p: seq<byte>): Parsed {
    WithBody([], p)
  }

  // ---- plain names ----

  /** A text of letters and digits. */
  predicate Plain(t: seq<byte>) {
    forall i :: 0 <= i < |t| ==>
                  'a' <= t[i] as char <= 'z' || 'A' <= t[i] as char <= 'Z' || '0' <= t[i] as char <= '9'
  }

  /** The text in upper case. */
  function Upper(t: seq<byte>): (u: seq<byte>)
    ensures |u| == |t| && forall i :: 0 <= i < |t| ==> u[i] == Up(t[i])
  {
    seq(|t|, i requires 0 <= i < |t| => Up(t[i]))
  }

  lemma {:induction false} PlainField(t: seq<byte>, rest: seq<byte>, room: nat)
    requires Plain(t) && (AtEnd(rest) || rest[0] == DOT)
    ensures Field(t + rest, room) == if |t| <= room then Part(Upper(t), rest) else Bad
    decreases |t|
  {
    var p := t + rest;
    if t == [] {
      assert p == rest && Upper(t) == [];
    } else {
      assert p[0] == t[0] && p[1..] == t[1..] + rest;
      if room > 0 {
        PlainField(t[1..], rest, room - 1);
        assert Upper(t) == [Up(t[0])] + Upper(t[1..]);
      }
    }
  }

  /** A body and an extension of letters and digits, with a dot between: the name is accepted exactly if they have at
      most eight and three characters, which then stand in upper case at the beginning of their fields; the rest of the
      fields is blank. */
  lemma PlainName(body: seq<byte>, ext: seq<byte>, rest: seq<byte>)
    requires Plain(body) && Plain(ext) && body != [] && AtEnd(rest)
    ensures var r := Parse(body + [DOT] + ext + rest);
            if |body| > 8 || |ext| > 3 then r == Invalid
            else && r.Name? && r.rest == rest && |r.entry| == 11
                 && (forall i :: 0 <= i < 8 ==> r.entry[i] == if i < |body| then Up(body[i]) else 0x20)
                 && (forall i :: 8 <= i < 11 ==> r.entry[i] == if i - 8 < |ext| then Up(ext[i - 8]) else 0x20)
  {
    PlainParsed(body, ext, rest);
    if |body| <= 8 && |ext| <= 3 {
      EntryAt(Upper(body), Upper(ext));
    }
  }

  lemma PlainParsed(body: seq<byte>, ext: seq<byte>, rest: seq<byte>)
    requires Plain(body) && Plain(ext) && body != [] && AtEnd(rest)
    ensures Parse(body + [DOT] + ext + rest) ==
            if |body| > 8 || |ext| > 3 then Invalid else Name(Entry(Upper(body), Upper(ext)), rest)
  {
    var tail := [DOT] + (ext + rest);
    assert body + [DOT] + ext + rest == body + tail;
    PlainField(body, tail, 8);
    if |body| <= 8 {
      assert [] + Upper(body) == Upper(body);
      assert tail[1..] == ext + rest;
      PlainExt(Upper(body), ext, rest);
    }
  }

  lemma PlainExt(body: seq<byte>, ext: seq<byte>, rest: seq<byte>)
    requires |body| <= 8 && Plain(ext) && AtEnd(rest)
    ensures WithExt(body, [], ext + rest) == if |ext| > 3 then Invalid else Name(Entry(body, Upper(ext)), rest)
  {
    PlainField(ext, rest, 3);
    assert [] + Upper(ext) == Upper(ext);
  }

  /** The bytes of an entry. A first byte 0xE5, which would mark the entry as deleted, is stored as 0x05. */
  lemma EntryAt(body: seq<byte>, ext: seq<byte>)
    requires 0 < |body| <= 8 && |ext| <= 3
    ensures Entry(body, ext)[0] == if body[0] == 0xE5 then 0x05 else body[0]
    ensures forall i :: 1 <= i < 8 ==> Entry(body, ext)[i] == if i < |body| then body[i] else 0x20
    ensures forall i :: 8 <= i < 11 ==> Entry(body, ext)[i] == if i - 8 < |ext| then ext[i - 8] else 0x20
  {
  }

  /** The second byte of a two-byte character is part of the name even where it looks like a separator. */
  lemma SlashInside()
    ensures Parse([0x83, 0x5C]) == Name([0x83, 0x5C, 0x20, 0x20, 0x20, 0x20, 0x20, 0x20, 0x20, 0x20, 0x20], [])
  {
    var p: seq<byte> := [0x83, 0x5C];
    assert p[2..] == [] && Field(p[2..], 6) == Part([], []);
    assert Field(p, 8) == Part([0x83, 0x5C], []);
  }

  // ---- printing ----

  /** What a byte of an entry other than a blank prints as; a dot comes before the extension. */
  function Piece(s: seq<byte>, k: nat): seq<byte>
    requires k < |s|
  {
    var c := if s[k] == RDDEM then DDEM else s[k];
    if k == 8 then [DOT, c] else [c]
  }

  /** The text of the first n bytes of an entry. */
  function Print(s: seq<byte>, n: nat): seq<byte>
    requires n <= |s|
  {
    if n == 0 then [] else if s[n - 1] == BLANK then Print(s, n - 1) else Print(s, n - 1) + Piece(s, n - 1)
  }

  function Text(s: seq<byte>): seq<byte> {
    Print(s, |s|)
  }

  // ---- names in upper case ----

  /** A text of legal characters in upper case. */
  predicate Canon(t: seq<byte>) {
    t == [] ||
    if Dbc1(t[0]) then |t| >= 2 && Dbc2(t[1]) && Canon(t[2..])
    else t[0] > BLANK && !IsSlash(t[0]) && t[0] != DOT && !Illegal(t[0]) && !IsLower(t[0]) && Canon(t[1..])
  }

  lemma {:induction false} FieldCanon(p: seq<byte>, room: nat)
    requires Field(p, room).Part?
    ensures Canon(Field(p, room).text)
    decreases |p|
  {
    if AtEnd(p) || p[0] == DOT {
    } else if Dbc1(p[0]) {
      FieldCanon(p[2..], room - 2);
      assert ([p[0], p[1]] + Field(p[2..], room - 2).text)[2..] == Field(p[2..], room - 2).text;
    } else {
      FieldCanon(p[1..], room - 1);
      assert ([Up(p[0])] + Field(p[1..], room - 1).text)[1..] == Field(p[1..], room - 1).text;
    }
  }

  lemma CanonHead(t: seq<byte>)
    requires t != [] && Canon(t)
    ensures Dbc1(t[0]) ==> |t| >= 2 && Dbc2(t[1]) && Canon(t[2..])
    ensures !Dbc1(t[0]) ==> !AtEnd(t) && t[0] != DOT && !Illegal(t[0]) && Up(t[0]) == t[0] && Canon(t[1..])
  {
  }

  lemma FieldOfTwo(p: seq<byte>, room: nat, text: seq<byte>, rest: seq<byte>)
    requires |p| >= 2 && Dbc1(p[0]) && Dbc2(p[1]) && room >= 2 && Field(p[2..], room - 2) == Part(text, rest)
    ensures Field(p, room) == Part([p[0], p[1]] + text, rest)
  {
  }

  lemma FieldOfOne(p: seq<byte>, room: nat, text: seq<byte>, rest: seq<byte>)
    requires !AtEnd(p) && p[0] != DOT && !Dbc1(p[0]) && !Illegal(p[0]) && room >= 1
    requires Field(p[1..], room - 1) == Part(text, rest)
    ensures Field(p, room) == Part([Up(p[0])] + text, rest)
  {
  }

  /** Upper case text is read as it is. */
  lemma {:induction false} CanonField(p: seq<byte>, t: seq<byte>, rest: seq<byte>, room: nat)
    requires p == t + rest && Canon(t) && |t| <= room && (AtEnd(rest) || rest[0] == DOT)
    ensures Field(p, room) == Part(t, rest)
    decreases |t|
  {
    if t == [] {
      assert p == rest;
    } else {
      CanonHead(t);
      assert p[0] == t[0];
      if Dbc1(t[0]) {
        var u := t[2..];
        assert p[1] == t[1] && p[2..] == u + rest && t == [p[0], p[1]] + u;
        CanonField(p[2..], u, rest, room - 2);
        FieldOfTwo(p, room, u, rest);
      } else {
        var u := t[1..];
        assert p[1..] == u + rest && t == [Up(p[0])] + u;
        CanonField(p[1..], u, rest, room - 1);
        FieldOfOne(p, room, u, rest);
      }
    }
  }

  lemma {:induction false} CanonBytes(t: seq<byte>, i: nat)
    requires Canon(t) && i < |t|
    ensures t[i] > BLANK
    decreases |t|
  {
    if Dbc1(t[0]) {
      if i >= 2 {
        CanonBytes(t[2..], i - 2);
      }
    } else if i >= 1 {
      CanonBytes(t[1..], i - 1);
    }
  }

  // ---- what is printed ----

  /** Blanks print as nothing. */
  lemma {:induction false} PrintBlanks(s: seq<byte>, k: nat, hi: nat)
    requires k <= hi <= |s| && forall i :: k <= i < hi ==> s[i] == BLANK
    ensures Print(s, hi) == Print(s, k)
  {
    if k < hi {
      PrintBlanks(s, k, hi - 1);
    }
  }

  lemma PlainPiece(s: seq<byte>, k: nat)
    requires k < |s| && s[k] > BLANK && k != 8
    ensures Piece(s, k) == [s[k]]
  {
  }

  lemma LastByte(s: seq<byte>, k: nat, hi: nat)
    requires k < hi <= |s|
    ensures s[k..hi] == s[k..hi - 1] + [s[hi - 1]]
  {
  }

  lemma Assoc(a: seq<byte>, b: seq<byte>, c: seq<byte>)
    ensures (a + b) + c == a + (b + c)
  {
  }

  /** Other bytes print as they are. */
  lemma {:induction false} PrintRun(s: seq<byte>, k: nat, hi: nat)
    requires k <= hi <= |s| && (forall i :: k <= i < hi ==> s[i] > BLANK) && (8 < k || hi <= 8)
    ensures Print(s, hi) == Print(s, k) + s[k..hi]
  {
    if k < hi {
      PrintRun(s, k, hi - 1);
      PlainPiece(s, hi - 1);
      LastByte(s, k, hi);
      Assoc(Print(s, k), s[k..hi - 1], [s[hi - 1]]);
    } else {
      assert s[k..hi] == [];
    }
  }

  /** Body and extension, with a dot between them if there is an extension. */
  function Joined(body: seq<byte>, ext: seq<byte>): seq<byte> {
    body + if ext == [] then [] else [DOT] + ext
  }

  /** The body prints as it is. */
  lemma PrintBody(s: seq<byte>, body: seq<byte>, n: nat)
    requires |body| <= n == 8 <= |s| && Canon(body) && forall i :: |body| <= i < n ==> s[i] == BLANK
    requires body != [] ==> s[0] == (if body[0] == DDEM then RDDEM else body[0]) && s[1..|body|] == body[1..]
    ensures Print(s, n) == body
  {
    PrintBlanks(s, |body|, n);
    if body != [] {
      CanonBytes(body, 0);
      forall i | 1 <= i < |body| ensures s[i] > BLANK {
        CanonBytes(body, i);
        assert s[i] == s[1..|body|][i - 1];
      }
      PrintRun(s, 1, |body|);
      assert Print(s, 1) == [] + Piece(s, 0) == [body[0]];
      assert body == [body[0]] + body[1..];
    }
  }

  lemma PrintExt(s: seq<byte>, ext: seq<byte>, n: nat)
    requires n == 8 && |s| == 11 && |ext| <= 3 && Canon(ext) && s[n..n + |ext|] == ext
    requires forall i :: n + |ext| <= i < |s| ==> s[i] == BLANK
    ensures Text(s) == Print(s, n) + if ext == [] then [] else [DOT] + ext
  {
    PrintBlanks(s, n + |ext|, |s|);
    if ext != [] {
      forall i | n <= i < n + |ext| ensures s[i] == ext[i - n] > BLANK {
        CanonBytes(ext, i - n);
        assert s[i] == s[n..n + |ext|][i - n];
      }
      PrintRun(s, n + 1, n + |ext|);
      assert Print(s, n + 1) == Print(s, n) + Piece(s, n) && Piece(s, n) == [DOT, ext[0]];
      Assoc(Print(s, n), [DOT, ext[0]], s[n + 1..n + |ext|]);
      assert [DOT] + ext == [DOT, ext[0]] + s[n + 1..n + |ext|];
    }
  }

  /** An entry prints as its body and extension. */
  lemma PrintEntry(body: seq<byte>, ext: seq<byte>)
    requires |body| <= 8 && |ext| <= 3 && Canon(body) && Canon(ext)
    ensures Text(Entry(body, ext)) == Joined(body, ext)
  {
    var s := Entry(body, ext);
    assert s[8..8 + |ext|] == ext;
    PrintExt(s, ext, 8);
    assert body != [] ==> s[1..|body|] == body[1..];
    PrintBody(s, body, 8);
  }

  // ---- parser and printer undo each other ----

  /** What Parse accepts: a body and an extension in upper case, not both missing unless there is a dot. */
  lemma ParsedParts(p: seq<byte>) returns (body: seq<byte>, ext: seq<byte>)
    requires Parse(p).Name?
    ensures |body| <= 8 && |ext| <= 3 && Canon(body) && Canon(ext) && Parse(p).entry == Entry(body, ext)
    ensures Raised(p) == Joined(body, ext) || (ext == [] && Raised(p) == body + [DOT])
  {
    var f, g := ParsedFields(p);
    body, ext := f.text, g.text;
    FieldCanon(p, 8);
    FieldRaised(p, 8);
    if !AtEnd(f.rest) {
      FieldCanon(f.rest[1..], 3);
      FieldRaised(f.rest[1..], 3);
    }
    PartsRaised(p, f, g);
  }

  /** The fields an accepted name consists of; without a dot the second one is empty. */
  lemma ParsedFields(p: seq<byte>) returns (f: Part, g: Part)
    requires Parse(p).Name?
    ensures f == Field(p, 8) && f.Part? && g.Part? && AtEnd(g.rest)
    ensures if AtEnd(f.rest) then g == Part([], f.rest) else g == Field(f.rest[1..], 3)
    ensures |f.text| <= 8 && |g.text| <= 3 && Parse(p).entry == Entry(f.text, g.text)
  {
    f := Field(p, 8);
    assert [] + f.text == f.text;
    g := if AtEnd(f.rest) then Part([], f.rest) else Field(f.rest[1..], 3);
    assert g.Part? ==> [] + g.text == g.text;
  }

  /** Fields that are raised one by one. */
  lemma PartsRaised(p: seq<byte>, f: Part, g: Part)
    requires f.Part? && g.Part? && AtEnd(g.rest) && Raised(p) == f.text + Raised(f.rest)
    requires if AtEnd(f.rest) then g.text == []
             else f.rest[0] == DOT && Raised(f.rest[1..]) == g.text + Raised(g.rest)
    ensures Raised(p) == Joined(f.text, g.text) || (g.text == [] && Raised(p) == f.text + [DOT])
  {
    assert Raised(g.rest) == [] && g.text + [] == g.text && f.text + [] == f.text;
    if !AtEnd(f.rest) {
      assert Raised(f.rest) == [DOT] + g.text;
    }
  }

  /** Body and extension are read as themselves. */
  lemma ParseJoined(body: seq<byte>, ext: seq<byte>)
    requires |body| <= 8 && |ext| <= 3 && Canon(body) && Canon(ext) && (body != [] || ext != [])
    ensures Parse(Joined(body, ext)) == Name(Entry(body, ext), [])
  {
    var tail := if ext == [] then [] else [DOT] + ext;
    CanonField(Joined(body, ext), body, tail, 8);
    assert [] + body == body;
    if ext != [] {
      CanonField(ext, ext, [], 3);
      assert ext + [] == ext && [] + ext == ext && tail[1..] == ext;
    }
  }

  lemma BlankEntry()
    ensures forall i :: 0 <= i < 11 ==> Entry([], [])[i] == BLANK
  {
  }

  /** For every accepted name that is not all blank, the printed text is read as the same entry. */
  lemma RoundTrip(p: seq<byte>)
    requires Parse(p).Name? && exists i :: 0 <= i < 11 && Parse(p).entry[i] != BLANK
    ensures Parse(Text(Parse(p).entry)) == Name(Parse(p).entry, [])
  {
    var body, ext := ParsedParts(p);
    PrintEntry(body, ext);
    BlankEntry();
    ParseJoined(body, ext);
  }

  /** The first segment of a path with its single-byte letters in upper case. */
  function Raised(p: seq<byte>): seq<byte> {
    if AtEnd(p) then []
    else if Dbc1(p[0]) && |p| >= 2 then [p[0], p[1]] + Raised(p[2..])
    else [Up(p[0])] + Raised(p[1..])
  }

  lemma {:induction false} FieldRaised(p: seq<byte>, room: nat)
    requires Field(p, room).Part?
    ensures Raised(p) == Field(p, room).text + Raised(Field(p, room).rest)
    decreases |p|
  {
    if AtEnd(p) || p[0] == DOT {
      assert [] + Raised(p) == Raised(p);
    } else {
      var n := if Dbc1(p[0]) then 2 else 1;
      var f, c := Field(p[n..], room - n), if n == 2 then [p[0], p[1]] else [Up(p[0])];
      FieldRaised(p[n..], room - n);
      Assoc(c, f.text, Raised(f.rest));
    }
  }

  /** The printed text of an accepted name is the segment in upper case, without a dot at its end. */
  lemma PrintsRaised(p: seq<byte>)
    requires Parse(p).Name?
    ensures var t := Raised(p);
            Text(Parse(p).entry) == if t != [] && t[|t| - 1] == DOT then t[..|t| - 1] else t
  {
    var body, ext := ParsedParts(p);
    PrintEntry(body, ext);
    var t := Raised(p);
    if t == Joined(body, ext) {
      if ext != [] {
        CanonNoDot(ext);
        assert t[|t| - 1] == ext[|ext| - 1];
      } else if body != [] {
        CanonNoDot(body);
      }
    }
  }

  lemma {:induction false} CanonNoDot(t: seq<byte>)
    requires Canon(t) && t != []
    ensures t[|t| - 1] != DOT
    decreases |t|
  {
    if Dbc1(t[0]) {
      if |t| > 2 {
        CanonNoDot(t[2..]);
      }
    } else if |t| > 1 {
      CanonNoDot(t[1..]);
    }
  }

  // ---- the loops ----

  /** Two bytes, or one, move from the path to the body. */
  lemma BodyStep(body: seq<byte>, p: seq<byte>)
    requires |body| <= 8 && !AtEnd(p) && p[0] != DOT
    ensures |body| == 8 ==> WithBody(body, p) == Invalid
    ensures |body| < 8 && Dbc1(p[0]) ==>
              if |p| < 2 || !Dbc2(p[1]) || |body| == 7 then WithBody(body, p) == Invalid
              else WithBody(body, p) == WithBody(body + [p[0], p[1]], p[2..])
    ensures |body| < 8 && !Dbc1(p[0]) ==>
              if Illegal(p[0]) then WithBody(body, p) == Invalid
              else WithBody(body, p) == WithBody(body + [Up(p[0])], p[1..])
  {
    if |body| < 8 {
      var n := if Dbc1(p[0]) then 2 else 1;
      if |body| + n <= 8 && n <= |p| {
        var f := Field(p[n..], 8 - |body| - n);
        if f.Part? {
          Assoc(body, if n == 2 then [p[0], p[1]] else [Up(p[0])], f.text);
        }
      }
    }
  }

  /** Two bytes, or one, move from the path to the extension. */
  lemma ExtStep(body: seq<byte>, ext: seq<byte>, p: seq<byte>)
    requires |body| <= 8 && |ext| <= 3 && !AtEnd(p) && p[0] != DOT
    ensures |ext| == 3 ==> WithExt(body, ext, p) == Invalid
    ensures |ext| < 3 && Dbc1(p[0]) ==>
              if |p| < 2 || !Dbc2(p[1]) || |ext| == 2 then WithExt(body, ext, p) == Invalid
              else WithExt(body, ext, p) == WithExt(body, ext + [p[0], p[1]], p[2..])
    ensures |ext| < 3 && !Dbc1(p[0]) ==>
              if Illegal(p[0]) then WithExt(body, ext, p) == Invalid
              else WithExt(body, ext, p) == WithExt(body, ext + [Up(p[0])], p[1..])
  {
    if |ext| < 3 {
      var n := if Dbc1(p[0]) then 2 else 1;
      if |ext| + n <= 3 && n <= |p| {
        var f := Field(p[n..], 3 - |ext| - n);
        if f.Part? {
          Assoc(ext, if n == 2 then [p[0], p[1]] else [Up(p[0])], f.text);
        }
      }
    }
  }

  /** Print an entry. */
  method EntryText(s: seq<byte>) returns (text: seq<byte>)
    requires |s| == 11
    ensures text == Text(s)
  {
    var i := 0;
    text := [];
    while i < 11
      invariant i <= 11 && text == Print(s, i)
    {
      var c := s[i];
      i := i + 1;
      if c == BLANK {
        continue;
      }
      if c == RDDEM {
        c := DDEM;
      }
      ghost var before := text;
      if i == 9 {
        text := text + [DOT];
      }
      text := text + [c];
      assert text == before + Piece(s, i - 1);
    }
  }

  lemma PaddedMore(t: seq<byte>, n: nat, c: byte)
    requires |t| < n
    ensures Padded(t, n)[|t| := c] == Padded(t + [c], n)
  {
  }

  /** What is left of the name after body and ext, which is read once the dot has been seen. */
  function Remaining(body: seq<byte>, ext: seq<byte>, dot: bool, p: seq<byte>): Parsed
    requires |body| <= 8 && |ext| <= 3
  {
    if dot then WithExt(body, ext, p) else WithBody(body, p)
  }

  /** A name being built in a buffer of eleven bytes: i is where the next byte goes, ni where its part ends. */
  ghost predicate Building(sfn: seq<byte>, i: nat, ni: nat, body: seq<byte>, ext: seq<byte>) {
    && |body| <= 8 && |ext| <= 3 && sfn == Padded(body, 8) + Padded(ext, 3)
    && if ni == 11 then i == 8 + |ext| else ni == 8 && i == |body| && ext == []
  }

  lemma BuildingMore(sfn: seq<byte>, i: nat, ni: nat, body: seq<byte>, ext: seq<byte>, c: byte)
    requires Building(sfn, i, ni, body, ext) && i < ni
    ensures i < |sfn|
    ensures if ni == 11 then Building(sfn[i := c], i + 1, ni, body, ext + [c])
            else Building(sfn[i := c], i + 1, ni, body + [c], ext)
  {
    if ni == 11 {
      PaddedMore(ext, 3, c);
      assert sfn[i := c] == Padded(body, 8) + Padded(ext, 3)[|ext| := c];
    } else {
      PaddedMore(body, 8, c);
      assert sfn[i := c] == Padded(body, 8)[|body| := c] + Padded(ext, 3);
    }
  }

  lemma BuildingPair(sfn: seq<byte>, i: nat, ni: nat, body: seq<byte>, ext: seq<byte>, c: byte, d: byte)
    requires Building(sfn, i, ni, body, ext) && i + 1 < ni
    ensures i + 1 < |sfn|
    ensures if ni == 11 then Building(sfn[i := c][i + 1 := d], i + 2, ni, body, ext + [c, d])
            else Building(sfn[i := c][i + 1 := d], i + 2, ni, body + [c, d], ext)
  {
    BuildingMore(sfn, i, ni, body, ext, c);
    if ni == 11 {
      BuildingMore(sfn[i := c], i + 1, ni, body, ext + [c], d);
      assert ext + [c] + [d] == ext + [c, d];
    } else {
      BuildingMore(sfn[i := c], i + 1, ni, body + [c], ext, d);
      assert body + [c] + [d] == body + [c, d];
    }
  }

  /** Read one character of two bytes or one into the buffer; it is refused if it is illegal or has no room. */
  method ReadChar(path: seq<byte>, si: nat, sfn: array<byte>, i: nat, ni: nat, ghost body: seq<byte>, ghost ext: seq<byte>)
    returns (ok: bool, si': nat, i': nat, ghost body': seq<byte>, ghost ext': seq<byte>)
    requires si < |path| && !AtEnd(path[si..]) && path[si] != DOT && i < ni
    requires Building(sfn[..], i, ni, body, ext)
    modifies sfn
    ensures !ok ==> si' == si && Remaining(body, ext, ni == 11, path[si..]) == Invalid
    ensures ok ==> si < si' <= |path| && Building(sfn[..], i', ni, body', ext')
                   && Remaining(body', ext', ni == 11, path[si'..]) == Remaining(body, ext, ni == 11, path[si..])
  {
    ghost var p := path[si..];
    BodyStep(body, p);
    ExtStep(body, ext, p);
    ok, si', i', body', ext' := false, si, i, body, ext;
    var c := path[si];
    if Dbc1(c) {
      var d := if si + 1 < |path| then path[si + 1] else 0;
      if Dbc2(d) && i < ni - 1 {
        BuildingPair(sfn[..], i, ni, body, ext, c, d);
        sfn[i] := c;
        sfn[i + 1] := d;
        ok, si', i' := true, si + 2, i + 2;
        assert p[2..] == path[si'..] && [p[0], p[1]] == [c, d];
        if ni == 11 { ext' := ext + [c, d]; } else { body' := body + [c, d]; }
      }
    } else if !Illegal(c) {
      if IsLower(c) {
        c := c - 0x20;
      }
      BuildingMore(sfn[..], i, ni, body, ext, c);
      sfn[i] := c;
      ok, si', i' := true, si + 1, i + 1;
      assert p[1..] == path[si'..] && [Up(p[0])] == [c];
      if ni == 11 { ext' := ext + [c]; } else { body' := body + [c]; }
    }
  }

  /** Read the first segment of a path into directory form. */
  method CreateName(path: seq<byte>) returns (ok: bool, entry: seq<byte>, last: bool)
    ensures ok <==> Parse(path).Name?
    ensures ok ==> entry == Parse(path).entry && (last <==> Parse(path).rest == [] || Parse(path).rest[0] <= BLANK)
  {
    var sfn := new byte[11](_ => BLANK);
    ghost var body, ext: seq<byte> := [], [];
    var si, i, ni, reading := 0, 0, 8, true;
    ok, entry, last := true, [], false;
    assert path[0..] == path;
    assert sfn[..] == Padded([], 8) + Padded([], 3);
    while reading && ok
      invariant si <= |path| && fresh(sfn)
      invariant ok ==> Building(sfn[..], i, ni, body, ext) && Parse(path) == Remaining(body, ext, ni == 11, path[si..])
      invariant !ok ==> Parse(path) == Invalid
      invariant !reading ==> AtEnd(path[si..])
      decreases |path| - si, reading, ok
    {
      var c := if si < |path| then path[si] else 0;
      if c <= BLANK || IsSlash(c) {
        reading := false;
      } else if c == DOT || i >= ni {
        if ni == 11 || c != DOT {
          RefusedHere(body, ext, ni == 11, path[si..]);
          ok := false;
        } else {
          assert path[si..][1..] == path[si + 1..] && body + [] == body;
          si, i, ni := si + 1, 8, 11;
        }
      } else {
        ok, si, i, body, ext := ReadChar(path, si, sfn, i, ni, body, ext);
      }
    }
    if ok {
      assert body + [] == body && ext + [] == ext;
      if i == 0 {
        ok := false;
      } else {
        last := si == |path| || path[si] <= BLANK;
        if sfn[0] == DDEM {
          sfn[0] := RDDEM;
        }
        entry := sfn[..];
      }
    }
  }

  /** No room, or a second dot. */
  lemma RefusedHere(body: seq<byte>, ext: seq<byte>, dot: bool, p: seq<byte>)
    requires |body| <= 8 && |ext| <= 3 && !AtEnd(p)
    requires if p[0] == DOT then dot else if dot then |ext| == 3 else |body| == 8
    ensures Remaining(body, ext, dot, p) == Invalid
  {
  }
}

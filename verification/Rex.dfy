/** The client registry (rexs/mxrexs.cpp): a text file of lines `id|directory|command|name|binary`, and the
    string helpers it prints and parses with (mxsystem.cpp). */
module Rex {
  import opened Collections

  type Str = string
  type Id = n: nat | n < 0x1_0000_0000_0000_0000

  const BAR: char := '|'
  const NEWLINE: char := '\n'
  const SPACE: char := ' '
  const QUOTE: char := '"'

  // ----- Hexadecimal -----

  function Digit(v: nat): (c: char)
    requires v < 16
  {
    "0123456789abcdef"[v]
  }

  function Value(c: char): (v: Option<nat>)
    ensures v.Some? ==> v.value < 16
  {
    if '0' <= c <= '9' then Some((c - '0') as nat)
    else if 'a' <= c <= 'f' then Some((c - 'a') as nat + 10)
    else if 'A' <= c <= 'F' then Some((c - 'A') as nat + 10)
    else None
  }

  /** SysI64ToHexString: lower-case digits, most significant first, no leading zero. */
  function ToHex(v: nat): (s: Str)
    ensures s != []
  {
    if v < 16 then [Digit(v)] else ToHex(v / 16) + [Digit(v % 16)]
  }

  /** The digits at the front of s, continued from v. */
  function FrontDigits(v: nat, s: Str): nat
    decreases |s|
  {
    if s == [] || Value(s[0]).None? then v else FrontDigits(16 * v + Value(s[0]).value, s[1..])
  }

  /** stoull in base 16: the digits at the front. It throws, here None, when there are none or the value
      does not fit in 64 bits. */
  function ParseHex(s: Str): Option<Id> {
    if s == [] || Value(s[0]).None? then None
    else if FrontDigits(0, s) < 0x1_0000_0000_0000_0000 then Some(FrontDigits(0, s)) else None
  }

  lemma ValueOfDigit(v: nat)
    requires v < 16
    ensures Value(Digit(v)) == Some(v) && Digit(v) != BAR && Digit(v) != NEWLINE
  {
  }

  lemma FrontStep(v: nat, c: char, rest: Str)
    requires Value(c).Some?
    ensures FrontDigits(v, [c] + rest) == FrontDigits(16 * v + Value(c).value, rest)
  {
    hide Value;
    assert ([c] + rest)[1..] == rest;
  }

  lemma {:induction false} FrontOfHex(v: nat, rest: Str)
    ensures FrontDigits(0, ToHex(v) + rest) == FrontDigits(v, rest)
    ensures Value(ToHex(v)[0]).Some?
  {
    hide Value, Digit, FrontDigits;
    ValueOfDigit(v % 16);
    FrontStep(v / 16, Digit(v % 16), rest);
    if v >= 16 {
      FrontOfHex(v / 16, [Digit(v % 16)] + rest);
      assert ToHex(v) + rest == ToHex(v / 16) + ([Digit(v % 16)] + rest);
    } else {
      assert ToHex(v) + rest == [Digit(v)] + rest;
    }
  }

  lemma HexRoundTrip(v: Id)
    ensures ParseHex(ToHex(v)) == Some(v)
  {
    FrontOfHex(v, []);
    assert ToHex(v) + [] == ToHex(v);
  }

  lemma {:induction false} HexIsPlain(v: nat)
    ensures Plain(ToHex(v))
  {
    ValueOfDigit(v % 16);
    if v >= 16 { HexIsPlain(v / 16); }
  }

  /** The digits are hexadecimal, lower case, most significant first. */
  lemma HexDigits()
    ensures ToHex(0) == "0" && ToHex(0x9abcdef) == "9abcdef"
  {
    assert ToHex(0x9) == "9" && ToHex(0x9a) == "9a" && ToHex(0x9ab) == "9ab" && ToHex(0x9abc) == "9abc";
    assert ToHex(0x9abcd) == "9abcd" && ToHex(0x9abcde) == "9abcde";
  }

  // ----- Splitting outside quotes -----

  /** Where the first token outside quotes is, or the length; skipping says whether s starts inside quotes. */
  function FirstFree(s: Str, token: char, skipping: bool): (k: nat)
    ensures k <= |s|
  {
    if s == [] then 0
    else
      var inside := if s[0] == QUOTE then !skipping else skipping;
      if !inside && s[0] == token then 0 else 1 + FirstFree(s[1..], token, inside)
  }

  /** The pieces of s between its tokens outside quotes. */
  function Split(s: Str, token: char): (pieces: seq<Str>)
    ensures pieces != []
    decreases |s|
  {
    var k := FirstFree(s, token, false);
    if k == |s| then [s] else [s[..k]] + Split(s[k + 1..], token)
  }

  lemma ScanStep(s: Str, i: nat, token: char, skipping: bool)
    requires i < |s|
    ensures var inside := if s[i] == QUOTE then !skipping else skipping;
            FirstFree(s[i..], token, skipping)
            == if !inside && s[i] == token then 0 else 1 + FirstFree(s[i + 1..], token, inside)
  {
    assert s[i..][1..] == s[i + 1..];
  }

  lemma PieceStep(s: Str, l: nat, i: nat, token: char)
    requires l <= i < |s| && FirstFree(s[l..], token, false) == i - l
    ensures Split(s[l..], token) == [s[l..i]] + Split(s[i + 1..], token)
  {
    hide FirstFree;
    assert s[l..][..i - l] == s[l..i] && s[l..][i - l + 1..] == s[i + 1..];
  }

  /** SysStringSplitOnTokenSkipCommas */
  method SplitOnTokenSkipCommas(input: Str, token: char) returns (output: seq<Str>)
    ensures output == Split(input, token)
  {
    hide FirstFree, Split;
    var skipping := false;
    var lindex := -1;
    output := [];
    var i := 0;
    assert input[0..] == input;
    while i < |input|
      invariant -1 <= lindex < i <= |input|
      invariant Split(input, token) == output + Split(input[lindex + 1..], token)
      invariant FirstFree(input[lindex + 1..], token, false) == i - (lindex + 1) + FirstFree(input[i..], token, skipping)
    {
      ScanStep(input, i, token, skipping);
      if input[i] == QUOTE {
        skipping := !skipping;
      }
      if !skipping && input[i] == token {
        PieceStep(input, lindex + 1, i, token);
        output := output + [input[lindex + 1..i]];
        lindex := i;
      }
      i := i + 1;
    }
    NoneFree(input[lindex + 1..], token);
    output := output + [input[lindex + 1..]];
  }

  lemma NoneFree(s: Str, token: char)
    requires FirstFree(s, token, false) >= |s|
    ensures Split(s, token) == [s]
  {
  }

  function Join(pieces: seq<Str>, token: char): Str
    requires pieces != []
  {
    if |pieces| == 1 then pieces[0] else pieces[0] + [token] + Join(pieces[1..], token)
  }

  /** Joining the pieces restores the text. */
  lemma {:induction false} JoinSplit(s: Str, token: char)
    ensures Join(Split(s, token), token) == s
    decreases |s|
  {
    var k := FirstFree(s, token, false);
    FreeIsToken(s, token, false);
    if k < |s| {
      JoinSplit(s[k + 1..], token);
      assert Split(s, token)[1..] == Split(s[k + 1..], token);
      assert s == s[..k] + [token] + s[k + 1..];
    }
  }

  /** Whether the text ends inside quotes. */
  function Inside(s: Str, skipping: bool): bool {
    if s == [] then skipping else Inside(s[1..], if s[0] == QUOTE then !skipping else skipping)
  }

  /** How many quotes the text has. */
  function Quotes(s: Str): nat {
    if s == [] then 0 else (if s[0] == '"' then 1 else 0) + Quotes(s[1..])
  }

  /** A text ends inside quotes exactly when it starts inside and has an even number of them, or starts outside
      and has an odd number. */
  lemma {:induction false} InsideIsParity(s: Str, skipping: bool)
    ensures Inside(s, skipping) <==> (if skipping then Quotes(s) % 2 == 0 else Quotes(s) % 2 == 1)
  {
    if s != [] { InsideIsParity(s[1..], if s[0] == QUOTE then !skipping else skipping); }
  }

  /** No character of the text is a token outside quotes; a quote counts for itself. */
  ghost predicate Unbroken(s: Str, token: char) {
    forall i :: 0 <= i < |s| && s[i] == token ==> Inside(s[..i + 1], false)
  }

  lemma {:induction false} FreeIsToken(s: Str, token: char, skipping: bool)
    ensures var k := FirstFree(s, token, skipping);
            && (k < |s| ==> s[k] == token && !Inside(s[..k + 1], skipping))
            && forall i :: 0 <= i < k && s[i] == token ==> Inside(s[..i + 1], skipping)
  {
    if s != [] {
      var inside := if s[0] == QUOTE then !skipping else skipping;
      FreeIsToken(s[1..], token, inside);
      var k := FirstFree(s, token, skipping);
      forall i | 0 <= i <= k && i < |s|
        ensures Inside(s[..i + 1], skipping) == Inside(s[1..][..i], inside)
        ensures i > 0 ==> s[i] == s[1..][i - 1]
      {
        assert s[..i + 1][1..] == s[1..][..i];
      }
    }
  }

  /** Outside quotes the pieces hold no token, and each but the last is followed by a token outside
      quotes. */
  ghost predicate Separated(pieces: seq<Str>, token: char) {
    && (forall i :: 0 <= i < |pieces| ==> Unbroken(pieces[i], token))
    && (forall i :: 0 <= i < |pieces| - 1 ==> !Inside(pieces[i] + [token], false))
  }

  lemma {:induction false} SplitSeparates(s: Str, token: char)
    ensures Separated(Split(s, token), token)
    decreases |s|
  {
    var k := FirstFree(s, token, false);
    FreeIsToken(s, token, false);
    forall i | 0 <= i < k && s[i] == token
      ensures Inside(s[..k][..i + 1], false)
    {
      assert s[..k][..i + 1] == s[..i + 1];
    }
    if k < |s| {
      SplitSeparates(s[k + 1..], token);
      assert s[..k + 1] == s[..k] + [token];
    }
  }

  lemma FirstFreeIs(s: Str, token: char, k: nat)
    requires k <= |s| && forall i :: 0 <= i < k && s[i] == token ==> Inside(s[..i + 1], false)
    requires k < |s| ==> s[k] == token && !Inside(s[..k + 1], false)
    ensures FirstFree(s, token, false) == k
  {
    FreeIsToken(s, token, false);
  }

  lemma {:induction false} SeparatedIsSplit(pieces: seq<Str>, token: char)
    requires pieces != [] && Separated(pieces, token)
    ensures pieces == Split(Join(pieces, token), token)
  {
    hide FirstFree, Inside;
    var s, p := Join(pieces, token), pieces[0];
    forall i | 0 <= i < |p| && s[i] == token
      ensures Inside(s[..i + 1], false)
    {
      assert s[..i + 1] == p[..i + 1] && p[i] == s[i];
    }
    if |pieces| == 1 {
      FirstFreeIs(s, token, |p|);
    } else {
      assert s[..|p| + 1] == p + [token];
      FirstFreeIs(s, token, |p|);
      SeparatedIsSplit(pieces[1..], token);
      assert s[..|p|] == p && s[|p| + 1..] == Join(pieces[1..], token);
    }
  }

  /** The split is the one list of pieces, separated at tokens outside quotes, that the text is the join
      of. */
  lemma SplitExactly(pieces: seq<Str>, s: Str, token: char)
    requires pieces != []
    ensures pieces == Split(s, token) <==> Join(pieces, token) == s && Separated(pieces, token)
  {
    JoinSplit(s, token);
    SplitSeparates(s, token);
    if Separated(pieces, token) { SeparatedIsSplit(pieces, token); }
  }

  // ----- Lines -----

  /** What RexParseClientInfoLine returns. */
  datatype Info = Info(cid: Id, bwd: Str, arguments: seq<Str>, name: Str, command: Str)

  /** What a client registers. */
  datatype Entry = Entry(cid: Id, bwd: Str, binpath: Str, cmdline: Str, bname: Str)

  predicate Plain(s: Str) {
    forall i :: 0 <= i < |s| ==> s[i] != BAR && s[i] != NEWLINE
  }

  ghost predicate PlainEntry(e: Entry) {
    Plain(e.bwd) && Plain(e.binpath) && Plain(e.cmdline) && Plain(e.bname)
  }

  /** RexCreateEntryString, without the newline, on the arguments its callers pass. */
  function Line(e: Entry): Str {
    ToHex(e.cid) + [BAR] + e.bwd + [BAR] + e.cmdline + [BAR] + e.bname + [BAR] + e.binpath
  }

  /** One getline: the text before the delimiter and the text after it. */
  function Cut(s: Str, delim: char): (r: (Str, Str))
    ensures |r.0| <= |s| && |r.1| <= |s| && (s != [] ==> |r.1| < |s|)
  {
    if s == [] then ([], [])
    else if s[0] == delim then ([], s[1..])
    else var (head, rest) := Cut(s[1..], delim); ([s[0]] + head, rest)
  }

  lemma {:induction false} CutAt(s: Str, delim: char, rest: Str)
    requires forall i :: 0 <= i < |s| ==> s[i] != delim
    ensures Cut(s + [delim] + rest, delim) == (s, rest)
    ensures Cut(s, delim) == (s, [])
  {
    if s != [] {
      CutAt(s[1..], delim, rest);
      assert (s + [delim] + rest)[1..] == s[1..] + [delim] + rest;
      assert [s[0]] + s[1..] == s;
    } else {
      assert (s + [delim] + rest)[1..] == rest;
    }
  }

  /** RexLineHasCid; None when the conversion throws. */
  function LineCid(line: Str): Option<Id> {
    ParseHex(Cut(line, BAR).0)
  }

  /** The i-th field of a line; when there are fewer, the last one, which getline leaves as it was. */
  function Field(line: Str, i: nat): Str
    decreases i
  {
    if i == 0 || BAR !in line then Cut(line, BAR).0 else Field(Cut(line, BAR).1, i - 1)
  }

  /** getline on a stream, None when its end has been reached: the stream then gives nothing, and the token
      stays. */
  function GetLine(stream: Option<Str>, token: Str): (Str, Option<Str>) {
    if stream.None? then (token, None)
    else (Cut(stream.value, BAR).0, if BAR in stream.value then Some(Cut(stream.value, BAR).1) else None)
  }

  /** What a reader of the registry learns about an entry: the words of the command line after the first. */
  function InfoOf(e: Entry): Info {
    Info(e.cid, e.bwd, Split(e.cmdline, SPACE)[1..], e.bname, e.binpath)
  }

  /** RexParseClientInfoLine; None when the conversion throws. A printed line gives back the entry. */
  method ParseClientInfoLine(line: Str) returns (info: Option<Info>)
    ensures info.None? <==> LineCid(line).None?
    ensures info.Some? ==> info == Some(Info(LineCid(line).value, Field(line, 1), Split(Field(line, 2), SPACE)[1..],
                                             Field(line, 3), Field(line, 4)))
    ensures forall e :: PlainEntry(e) && line == Line(e) ==> info == Some(InfoOf(e))
  {
    hide Split, ParseHex, Plain, Line, GetLine, Field, Reading;
    StartReading(line);
    var (token, stream) := GetLine(Some(line), []);
    var cid := ParseHex(token);
    if cid.None? {
      info := None;
    } else {
      NextToken(line, 0, token, stream);
      token, stream := GetLine(stream, token).0, GetLine(stream, token).1;
      var bwd := token;
      NextToken(line, 1, token, stream);
      token, stream := GetLine(stream, token).0, GetLine(stream, token).1;
      var command := SplitOnTokenSkipCommas(token, SPACE);
      command := command[1..];
      NextToken(line, 2, token, stream);
      token, stream := GetLine(stream, token).0, GetLine(stream, token).1;
      var name := token;
      NextToken(line, 3, token, stream);
      token, stream := GetLine(stream, token).0, GetLine(stream, token).1;
      info := Some(Info(cid.value, bwd, command, name, token));
    }
    forall e | PlainEntry(e) && line == Line(e)
      ensures info == Some(InfoOf(e))
    {
      FieldsOfLine(e);
    }
  }

  /** After field i has been read from the line: the token, and what the stream still holds. */
  ghost predicate Reading(line: Str, i: nat, token: Str, stream: Option<Str>) {
    && token == Field(line, i)
    && forall j: nat :: i < j ==> Field(line, j) == if stream.None? then token else Field(stream.value, j - i - 1)
  }

  lemma StartReading(line: Str)
    ensures var (token, stream) := GetLine(Some(line), []);
            Reading(line, 0, token, stream) && token == Cut(line, BAR).0
  {
    hide Cut;
    forall j: nat | 0 < j
      ensures Field(line, j) == if BAR in line then Field(Cut(line, BAR).1, j - 1) else Cut(line, BAR).0
    {
    }
  }

  lemma NextToken(line: Str, i: nat, token: Str, stream: Option<Str>)
    requires Reading(line, i, token, stream)
    ensures var (token', stream') := GetLine(stream, token);
            Reading(line, i + 1, token', stream') && token' == Field(line, i + 1)
  {
    hide Cut;
    var (token', stream') := GetLine(stream, token);
    assert Field(line, i + 1) == token';
    forall j: nat | i + 1 < j
      ensures Field(line, j) == if stream'.None? then token' else Field(stream'.value, j - i - 2)
    {
      assert Field(line, j) == if stream.None? then token else Field(stream.value, j - i - 1);
    }
  }

  lemma FieldsFrom(line: Str)
    ensures var a := Cut(line, BAR).1;
            var b := Cut(a, BAR).1;
            var c := Cut(b, BAR).1;
            && (BAR in line ==> Field(line, 1) == Cut(a, BAR).0)
            && (BAR in line && BAR in a ==> Field(line, 2) == Cut(b, BAR).0)
            && (BAR in line && BAR in a && BAR in b ==> Field(line, 3) == Cut(c, BAR).0)
            && (BAR in line && BAR in a && BAR in b && BAR in c ==> Field(line, 4) == Cut(Cut(c, BAR).1, BAR).0)
  {
    hide Cut;
    var a := Cut(line, BAR).1;
    var b := Cut(a, BAR).1;
    var c := Cut(b, BAR).1;
    if BAR in line {
      assert Field(line, 1) == Field(a, 0) && Field(line, 2) == Field(a, 1) && Field(line, 3) == Field(a, 2) && Field(line, 4) == Field(a, 3);
    }
    if BAR in a { assert Field(a, 1) == Field(b, 0) && Field(a, 2) == Field(b, 1) && Field(a, 3) == Field(b, 2); }
    if BAR in b { assert Field(b, 1) == Field(c, 0) && Field(b, 2) == Field(c, 1); }
    if BAR in c { assert Field(c, 1) == Field(Cut(c, BAR).1, 0); }
  }

  /** A printed line is read back field by field. */
  lemma FieldsOfLine(e: Entry)
    requires PlainEntry(e)
    ensures LineCid(Line(e)) == Some(e.cid)
    ensures Field(Line(e), 1) == e.bwd && Field(Line(e), 2) == e.cmdline
    ensures Field(Line(e), 3) == e.bname && Field(Line(e), 4) == e.binpath
  {
    hide Cut, ParseHex, ToHex, Field;
    HexRoundTrip(e.cid);
    HexIsPlain(e.cid);
    var d := e.binpath;
    var c := e.bname + [BAR] + d;
    var b := e.cmdline + [BAR] + c;
    var a := e.bwd + [BAR] + b;
    assert Line(e) == ToHex(e.cid) + [BAR] + a;
    assert BAR in Line(e) && BAR in a && BAR in b && BAR in c;
    CutAt(ToHex(e.cid), BAR, a);
    CutAt(e.bwd, BAR, b);
    CutAt(e.cmdline, BAR, c);
    CutAt(e.bname, BAR, d);
    CutAt(d, BAR, []);
    FieldsFrom(Line(e));
  }

  /** A command line joined from a program and arguments without free spaces gives back the arguments. */
  lemma ArgumentsRecovered(e: Entry, words: seq<Str>)
    requires words != [] && Separated(words, SPACE) && e.cmdline == Join(words, SPACE)
    ensures InfoOf(e).arguments == words[1..]
  {
    SeparatedIsSplit(words, SPACE);
  }

  // ----- The file -----

  function Text(rows: seq<Entry>): Str {
    if rows == [] then [] else Line(rows[0]) + [NEWLINE] + Text(rows[1..])
  }

  /** The map the rows stand for; the first row of an id counts. */
  function View(rows: seq<Entry>): map<Id, Entry> {
    if rows == [] then map[] else View(rows[1..])[rows[0].cid := rows[0]]
  }

  ghost predicate Unique(rows: seq<Entry>) {
    forall i, j :: 0 <= i < j < |rows| ==> rows[i].cid != rows[j].cid
  }

  /** Every row of cid replaced by these. */
  function Replaced(rows: seq<Entry>, cid: Id, others: seq<Entry>): seq<Entry> {
    if rows == [] then [] else (if rows[0].cid == cid then others else [rows[0]]) + Replaced(rows[1..], cid, others)
  }

  lemma FirstLine(rows: seq<Entry>)
    requires rows != [] && PlainEntry(rows[0])
    ensures Text(rows) != [] && Cut(Text(rows), NEWLINE) == (Line(rows[0]), Text(rows[1..]))
  {
    hide Cut, ToHex;
    HexIsPlain(rows[0].cid);
    CutAt(Line(rows[0]), NEWLINE, Text(rows[1..]));
  }

  lemma {:induction false} TextAppend(a: seq<Entry>, b: seq<Entry>)
    ensures Text(a + b) == Text(a) + Text(b)
  {
    if a == [] {
      assert a + b == b;
    } else {
      assert (a + b)[1..] == a[1..] + b;
      TextAppend(a[1..], b);
    }
  }

  lemma {:induction false} InView(rows: seq<Entry>, cid: Id)
    ensures cid in View(rows) <==> exists i :: 0 <= i < |rows| && rows[i].cid == cid
    ensures cid in View(rows) ==> View(rows)[cid].cid == cid
  {
    if rows != [] {
      InView(rows[1..], cid);
      if rows[0].cid != cid && exists i :: 0 <= i < |rows| && rows[i].cid == cid {
        var i :| 0 <= i < |rows| && rows[i].cid == cid;
        assert rows[1..][i - 1].cid == cid;
      }
    }
  }

  /** Replacing by one entry of the same id keeps every other row in place. */
  lemma {:induction false} ReplacedRows(rows: seq<Entry>, e: Entry)
    ensures |Replaced(rows, e.cid, [e])| == |rows|
    ensures forall i :: 0 <= i < |rows| ==> Replaced(rows, e.cid, [e])[i] == if rows[i].cid == e.cid then e else rows[i]
  {
    if rows != [] {
      ReplacedRows(rows[1..], e);
      assert Replaced(rows, e.cid, [e])[1..] == Replaced(rows[1..], e.cid, [e]);
    }
  }

  lemma ReplacedUnique(rows: seq<Entry>, e: Entry)
    requires Unique(rows)
    ensures Unique(Replaced(rows, e.cid, [e]))
  {
    ReplacedRows(rows, e);
  }

  /** In the map it is an update, when the id is there, and nothing otherwise. */
  lemma {:induction false} ReplacedUpdates(rows: seq<Entry>, e: Entry)
    ensures View(Replaced(rows, e.cid, [e])) == if e.cid in View(rows) then View(rows)[e.cid := e] else View(rows)
  {
    if rows != [] {
      ReplacedUpdates(rows[1..], e);
      var first := if rows[0].cid == e.cid then e else rows[0];
      assert Replaced(rows, e.cid, [e]) == [first] + Replaced(rows[1..], e.cid, [e]);
    }
  }

  /** Replacing by nothing keeps exactly the other rows. */
  lemma {:induction false} ReplacedKeeps(rows: seq<Entry>, cid: Id)
    ensures forall r :: r in Replaced(rows, cid, []) <==> r in rows && r.cid != cid
  {
    if rows != [] {
      var rest := Replaced(rows[1..], cid, []);
      ReplacedKeeps(rows[1..], cid);
      assert rows == [rows[0]] + rows[1..];
      assert Replaced(rows, cid, []) == if rows[0].cid == cid then rest else [rows[0]] + rest;
    }
  }

  lemma {:induction false} ReplacedStayUnique(rows: seq<Entry>, cid: Id)
    requires Unique(rows)
    ensures Unique(Replaced(rows, cid, []))
  {
    if rows != [] {
      var rest := Replaced(rows[1..], cid, []);
      ReplacedStayUnique(rows[1..], cid);
      ReplacedKeeps(rows[1..], cid);
      forall i | 0 <= i < |rest|
        ensures rest[i].cid != rows[0].cid
      {
        assert rest[i] in rest;
        var j :| 0 <= j < |rows[1..]| && rows[1..][j] == rest[i];
        assert rows[j + 1] == rest[i];
      }
      assert Replaced(rows, cid, []) == if rows[0].cid == cid then rest else [rows[0]] + rest;
    }
  }

  /** In the map it removes the id. */
  lemma {:induction false} ReplacedDeletes(rows: seq<Entry>, cid: Id)
    ensures View(Replaced(rows, cid, [])) == View(rows) - {cid}
  {
    if rows != [] {
      ReplacedDeletes(rows[1..], cid);
      var rest, m := Replaced(rows[1..], cid, []), View(rows[1..]);
      assert View(rows) == m[rows[0].cid := rows[0]];
      if rows[0].cid == cid {
        assert Replaced(rows, cid, []) == rest;
      } else {
        assert Replaced(rows, cid, []) == [rows[0]] + rest;
        ViewCons(rows[0], rest);
      }
      hide View, Replaced;
      RemoveKey(m, rows[0].cid, rows[0], cid);
    }
  }

  lemma ViewCons(e: Entry, rest: seq<Entry>)
    ensures View([e] + rest) == View(rest)[e.cid := e]
  {
    assert ([e] + rest)[1..] == rest;
  }

  lemma RemoveKey(m: map<Id, Entry>, k: Id, e: Entry, cid: Id)
    ensures k == cid ==> m[k := e] - {cid} == m - {cid}
    ensures k != cid ==> m[k := e] - {cid} == (m - {cid})[k := e]
  {
  }

  /** Appending a row adds its id to the map, and keeps ids unique, exactly when the id is new. */
  lemma {:induction false} AppendedCreates(rows: seq<Entry>, e: Entry)
    ensures View(rows + [e]) == if e.cid in View(rows) then View(rows) else View(rows)[e.cid := e]
    ensures Unique(rows + [e]) <==> Unique(rows) && e.cid !in View(rows)
  {
    InView(rows, e.cid);
    if rows != [] {
      AppendedCreates(rows[1..], e);
      assert (rows + [e])[1..] == rows[1..] + [e];
    }
    if Unique(rows + [e]) {
      forall i | 0 <= i < |rows|
        ensures rows[i].cid != e.cid
      {
        assert (rows + [e])[i].cid != (rows + [e])[|rows|].cid;
      }
      forall i, j | 0 <= i < j < |rows|
        ensures rows[i].cid != rows[j].cid
      {
        assert (rows + [e])[i].cid != (rows + [e])[j].cid;
      }
    }
  }

  /** One turn of the loops that rewrite the file. */
  lemma RewriteStep(left: seq<Entry>, cid: Id, others: seq<Entry>)
    requires left != [] && PlainEntry(left[0])
    ensures Cut(Text(left), NEWLINE) == (Line(left[0]), Text(left[1..]))
    ensures LineCid(Line(left[0])) == Some(left[0].cid)
    ensures cid in View(left) <==> left[0].cid == cid || cid in View(left[1..])
    ensures Text(Replaced(left, cid, others))
            == (if left[0].cid == cid then Text(others) else Line(left[0]) + [NEWLINE]) + Text(Replaced(left[1..], cid, others))
  {
    hide Line, LineCid, PlainEntry, Cut;
    FirstLine(left);
    FieldsOfLine(left[0]);
    TextOfOne(left[0]);
    TextAppend(if left[0].cid == cid then others else [left[0]], Replaced(left[1..], cid, others));
  }

  lemma TextOfOne(e: Entry)
    ensures Text([e]) == Line(e) + [NEWLINE]
  {
  }

  lemma RewriteEnds(left: seq<Entry>, cid: Id, others: seq<Entry>)
    requires Text(left) == [] && forall i :: 0 <= i < |left| ==> PlainEntry(left[i])
    ensures Text(Replaced(left, cid, others)) == [] && cid !in View(left)
  {
    if left != [] { FirstLine(left); }
  }

  lemma RewriteNothing()
    ensures Text([]) == [] && View([]) == map[] && Unique([])
  {
  }

  class Registry {
    /** The text of rex.bin; None when it cannot be opened. */
    var file: Option<Str>
    ghost var rows: seq<Entry>

    constructor ()
      ensures Valid() && rows == []
    {
      file, rows := None, [];
    }

    /** The file holds the printed rows. */
    ghost predicate Valid()
      reads this
    {
      && (if file.None? then rows == [] else file.value == Text(rows))
      && forall i :: 0 <= i < |rows| ==> PlainEntry(rows[i])
    }

    ghost function Clients(): map<Id, Entry>
      reads this
    {
      View(rows)
    }

    /** RexCreateClientInfo */
    method CreateClientInfo(e: Entry)
      requires Valid() && PlainEntry(e)
      modifies this
      ensures Valid() && rows == old(rows) + [e]
      ensures Clients() == if e.cid in old(Clients()) then old(Clients()) else old(Clients())[e.cid := e]
      ensures Unique(rows) <==> old(Unique(rows)) && e.cid !in old(Clients())
    {
      hide Line, View, PlainEntry, Unique;
      TextAppend(rows, [e]);
      AppendedCreates(rows, e);
      assert Text([e]) == Line(e) + [NEWLINE] + Text([]);
      file := Some((if file.Some? then file.value else []) + Line(e) + [NEWLINE]);
      rows := rows + [e];
    }

    /** RexUpdateClientInfo */
    method UpdateClientInfo(e: Entry) returns (found: bool)
      requires Valid() && PlainEntry(e)
      modifies this
      ensures Valid() && found == (e.cid in old(Clients()))
      ensures Clients() == if found then old(Clients())[e.cid := e] else old(Clients())
      ensures old(Unique(rows)) ==> Unique(rows)
      ensures !found ==> file == old(file) && rows == old(rows)
    {
      hide Line, LineCid, PlainEntry, Unique, Cut, Text, View, Replaced;
      found := false;
      RewriteNothing();
      if file.None? { return; }
      var rest, ss := file.value, [];
      ghost var left := rows;
      while rest != []
        modifies {}
        decreases |rest|
        invariant rest == Text(left)
        invariant forall i :: 0 <= i < |left| ==> PlainEntry(left[i])
        invariant ss + Text(Replaced(left, e.cid, [e])) == Text(Replaced(rows, e.cid, [e]))
        invariant e.cid in View(rows) <==> found || e.cid in View(left)
      {
        RewriteStep(left, e.cid, [e]);
        var (line, next) := Cut(rest, NEWLINE);
        if LineCid(line) == Some(e.cid) {
          TextOfOne(e);
          ss := ss + Line(e) + [NEWLINE];
          found := true;
        } else {
          ss := ss + line + [NEWLINE];
        }
        rest := next;
        left := left[1..];
      }
      RewriteEnds(left, e.cid, [e]);
      ReplacedUpdates(rows, e);
      ReplacedRows(rows, e);
      if Unique(rows) { ReplacedUnique(rows, e); }
      if !found { return; }
      file := Some(ss);
      rows := Replaced(rows, e.cid, [e]);
    }

    /** RexDeleteClientInfo */
    method DeleteClientInfo(cid: Id) returns (found: bool)
      requires Valid()
      modifies this
      ensures Valid() && found == (cid in old(Clients())) && Clients() == old(Clients()) - {cid}
      ensures old(Unique(rows)) ==> Unique(rows)
      ensures !found ==> file == old(file) && rows == old(rows)
    {
      hide Line, LineCid, PlainEntry, Unique, Cut, Text, View, Replaced;
      found := false;
      RewriteNothing();
      if file.None? { return; }
      var rest, ss := file.value, [];
      ghost var left := rows;
      while rest != []
        modifies {}
        decreases |rest|
        invariant rest == Text(left)
        invariant forall i :: 0 <= i < |left| ==> PlainEntry(left[i])
        invariant ss + Text(Replaced(left, cid, [])) == Text(Replaced(rows, cid, []))
        invariant cid in View(rows) <==> found || cid in View(left)
      {
        RewriteStep(left, cid, []);
        var (line, next) := Cut(rest, NEWLINE);
        if LineCid(line) == Some(cid) {
          found := true;
        } else {
          ss := ss + line + [NEWLINE];
        }
        rest := next;
        left := left[1..];
      }
      RewriteEnds(left, cid, []);
      ReplacedDeletes(rows, cid);
      ReplacedKeeps(rows, cid);
      if Unique(rows) { ReplacedStayUnique(rows, cid); }
      if !found { return; }
      file := Some(ss);
      ghost var kept := Replaced(rows, cid, []);
      forall i | 0 <= i < |kept|
        ensures PlainEntry(kept[i])
      {
        assert kept[i] in kept;
        assert kept[i] in rows;
      }
      rows := kept;
    }

    /** RexGetClientInfo */
    method GetClientInfo(cid: Id) returns (info: Option<Info>)
      requires Valid()
      ensures info == if cid in Clients() then Some(InfoOf(Clients()[cid])) else None
    {
      hide Line, LineCid, PlainEntry, Cut, InfoOf, Field;
      if file.None? { return None; }
      var rest := file.value;
      ghost var left := rows;
      while rest != []
        modifies {}
        decreases |rest|
        invariant rest == Text(left)
        invariant forall i :: 0 <= i < |left| ==> PlainEntry(left[i])
        invariant cid in View(rows) <==> cid in View(left)
        invariant cid in View(rows) ==> View(rows)[cid] == View(left)[cid]
      {
        FirstLine(left);
        FieldsOfLine(left[0]);
        var (line, next) := Cut(rest, NEWLINE);
        if LineCid(line) == Some(cid) {
          info := ParseClientInfoLine(line);
          return;
        }
        rest := next;
        left := left[1..];
      }
      if left != [] { FirstLine(left); }
      info := None;
    }

    /** SysWriteRexClientInfo: update, and create only when there was nothing to update. */
    method Announce(e: Entry)
      requires Valid() && PlainEntry(e)
      modifies this
      ensures Valid() && Clients() == old(Clients())[e.cid := e]
      ensures old(Unique(rows)) ==> Unique(rows)
    {
      var found := UpdateClientInfo(e);
      if !found {
        CreateClientInfo(e);
      }
    }
  }
}

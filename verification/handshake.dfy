/** The opening handshake of section 4.2 of RFC 6455 as the server reads
    it: the request is split into lines at LF (a CR before the LF is
    dropped), the first line must be `GET / HTTP/1.1`, every later line is
    split at its first colon, and the required headers seen so far are
    recorded until an empty line ends the request. */
module Handshake {
  import opened Bytes
  import Frame

  const REQUEST_LINE := "GET / HTTP/1.1"

  /** The header names and values the parser compares lines with. */
  const UPGRADE := "Upgrade"
  const WEBSOCKET := "websocket"
  const CONNECTION_HEADER := "Connection"
  const VERSION_HEADER := "Sec-WebSocket-Version"
  const VERSION_13 := "13"
  const KEY_HEADER := "Sec-WebSocket-Key"
  const HOST_HEADER := "Host"

  /** The GUID of section 1.3 of RFC 6455, appended to the client's key. */
  const GUID := "258EAFA5-E914-47DA-95CA-C5AB0DC85B11"

  /** The five headers a request must carry; the C code keeps one bit of
      a mask for each (0x01, 0x02, 0x04, 0x08 and 0x10 in this order), and
      a request is complete when the mask is 0x1F (src/websocket.c:688-697). */
  datatype Required = Upgrade | Connection | Version | Key | Host

  const ALL_HEADERS: set<Required> := {Upgrade, Connection, Version, Key, Host}

  /** Where a line's value starts: no colon in the line (a NULL pointer in
      the C code), a colon too close to the end for the value to start
      inside the line, or the text from two characters after the colon. */
  datatype Value = Absent | Dangling | Text(text: string)

  /** A request line split at its first colon. */
  datatype Field = Field(name: string, value: Value)

  datatype Reason = EndOfStream | LineTooLong | BadRequestLine | BadVersion | BadKey | Incomplete(seen: set<Required>)

  /** The outcome of reading a request: the key to answer and the number
      of bytes up to and including the empty line, or why it was refused. */
  datatype Verdict = Accepted(key: string, used: nat) | Rejected(reason: Reason)

  datatype Update = Continue(seen: set<Required>, key: string) | Fail(reason: Reason)

  /** Bytes read from the socket, one character per byte. */
  function ToText(bs: seq<byte>): string
  {
    seq(|bs|, i requires 0 <= i < |bs| => bs[i] as char)
  }

  /** What C string functions see of `s`: the characters before the first NUL. */
  function CStr(s: string): (r: string)
    ensures |r| <= |s|
  {
    if s == [] || s[0] == '\0' then [] else [s[0]] + CStr(s[1..])
  }

  /** Index of the first `c` in `s`, or |s| when there is none. */
  function IndexOf(s: string, c: char): (k: nat)
    ensures k <= |s| && (k < |s| ==> s[k] == c)
  {
    if s == [] || s[0] == c then 0 else 1 + IndexOf(s[1..], c)
  }

  /** Index of the first `c` in `text` at or after `i`, or |text| when
      there is none. */
  function Find(text: string, i: nat, c: char): (k: nat)
    requires i <= |text|
    ensures i <= k <= |text| && (k < |text| ==> text[k] == c)
    decreases |text| - i
  {
    if i == |text| || text[i] == c then i else Find(text, i + 1, c)
  }

  /** No `c` comes between `i` and the index found. */
  lemma {:induction false} FindFirst(text: string, i: nat, c: char, j: nat)
    requires i <= |text| && i <= j < Find(text, i, c)
    ensures text[j] != c
    decreases |text| - i
  {
    if j > i {
      FindFirst(text, i + 1, c, j);
    }
  }

  /** One line without its LF (src/websocket.c:733-746): a CR before the LF
      is overwritten with NUL, the first colon is overwritten with NUL and
      the value starts two characters after it. */
  function SplitLine(raw: string): Field
  {
    var line := if |raw| > 0 && raw[|raw| - 1] == '\r' then raw[..|raw| - 1] else raw;
    var c := IndexOf(line, ':');
    if c == |line| then Field(CStr(line), Absent)
    else Field(CStr(line[..c]), if c + 2 <= |line| then Text(CStr(line[c + 2..])) else Dangling)
  }

  /** An empty line ends the request (src/websocket.c:756). */
  predicate EndsRequest(f: Field)
  {
    f.name == "" && f.value.Absent?
  }

  /** The required header a line supplies, if any: the first matching
      comparison of src/websocket.c:768-795 decides. */
  function Kind(f: Field): Option<Required>
  {
    if f.name == UPGRADE && f.value == Text(WEBSOCKET) then Some(Upgrade)
    else if f.name == CONNECTION_HEADER && f.value == Text(UPGRADE) then Some(Connection)
    else if f.name == VERSION_HEADER && f.value == Text(VERSION_13) then Some(Version)
    else if f.name == KEY_HEADER && f.value.Text? && |f.value.text| == 24 then Some(Key)
    else if f.name == HOST_HEADER then Some(Host)
    else None
  }

  /** One header line after the request line (src/websocket.c:768-795): a
      version other than 13 and a key that is not 24 characters long
      refuse the request at once; a later key replaces an earlier one. */
  function Apply(f: Field, seen: set<Required>, key: string): (r: Update)
    ensures r.Fail? <==>
              || (f.name == VERSION_HEADER && f.value != Text(VERSION_13))
              || (f.name == KEY_HEADER && !(f.value.Text? && |f.value.text| == 24))
    ensures r.Continue? ==> r.seen == seen + (if Kind(f).Some? then {Kind(f).value} else {})
    ensures r.Continue? ==> r.key == if f.name == KEY_HEADER then f.value.text else key
  {
    if f.name == UPGRADE && f.value == Text(WEBSOCKET) then Continue(seen + {Upgrade}, key)
    else if f.name == CONNECTION_HEADER && f.value == Text(UPGRADE) then Continue(seen + {Connection}, key)
    else if f.name == VERSION_HEADER then
      if f.value == Text(VERSION_13) then Continue(seen + {Version}, key) else Fail(BadVersion)
    else if f.name == KEY_HEADER then
      if f.value.Text? && |f.value.text| == 24 then Continue(seen + {Key}, f.value.text) else Fail(BadKey)
    else if f.name == HOST_HEADER then Continue(seen + {Host}, key)
    else Continue(seen, key)
  }

  /** A line that does not end the request: the first must be the request
      line (src/websocket.c:760-766), the others are headers. */
  function LineStep(f: Field, first: bool, seen: set<Required>, key: string): Update
  {
    if !first then Apply(f, seen, key)
    else if f.name == REQUEST_LINE then Continue(seen, key)
    else Fail(BadRequestLine)
  }

  /** The request parser of src/websocket.c:702-803 on `text` from
      position `i` on. A line whose LF is not within BUFFERSIZE characters
      of its start no longer fits the line buffer and ends the handshake;
      running out of input before the empty line does too. An accepted
      request reports the position just after its empty line. */
  function Scan(text: string, i: nat, first: bool, seen: set<Required>, key: string): Verdict
    requires i <= |text|
    decreases |text| - i, 1
  {
    var k := Find(text, i, '\n');
    if k - i >= Frame.BUFFERSIZE then Rejected(LineTooLong)
    else if k == |text| then Rejected(EndOfStream)
    else LineVerdict(text, i, k, first, seen, key)
  }

  /** The verdict once the line from `i` to its LF at `k` has been read. */
  function LineVerdict(text: string, i: nat, k: nat, first: bool, seen: set<Required>, key: string): Verdict
    requires i <= k < |text|
    decreases |text| - k, 0
  {
    var f := SplitLine(text[i..k]);
    if EndsRequest(f) then
      if seen == ALL_HEADERS then Accepted(key, k + 1) else Rejected(Incomplete(seen))
    else
      match LineStep(f, first, seen, key)
      case Fail(why) => Rejected(why)
      case Continue(seen', key') => Scan(text, k + 1, false, seen', key')
  }

  /** The verdict on a whole request. */
  function Negotiate(request: string): Verdict
  {
    Scan(request, 0, true, {}, "")
  }

  /** The lines of `text` from `i` up to the empty line, split at their
      first colon. */
  function FieldsFrom(text: string, i: nat): seq<Field>
    requires i <= |text|
    decreases |text| - i, 1
  {
    var k := Find(text, i, '\n');
    if k == |text| then [] else FieldsOfLine(text, i, k)
  }

  /** FieldsFrom once the line from `i` to its LF at `k` has been read. */
  function FieldsOfLine(text: string, i: nat, k: nat): seq<Field>
    requires i <= k < |text|
    decreases |text| - k, 0
  {
    var f := SplitLine(text[i..k]);
    if EndsRequest(f) then [] else [f] + FieldsFrom(text, k + 1)
  }

  /** FieldsFrom on a line that ends in LF. */
  lemma FieldsUnfold(text: string, i: nat, k: nat, f: Field)
    requires i <= k < |text| && k == Find(text, i, '\n') && f == SplitLine(text[i..k])
    ensures FieldsFrom(text, i) == if EndsRequest(f) then [] else [f] + FieldsFrom(text, k + 1)
  {
  }

  /** The lines of a request up to the empty line; the request line comes first. */
  function HeaderFields(request: string): seq<Field>
  {
    FieldsFrom(request, 0)
  }

  /** The first line of an accepted request: either the empty line, with
      all required headers already seen, or a line that passes, after
      which the rest of the request is accepted with the same verdict. */
  lemma ScanUnfold(text: string, i: nat, first: bool, seen: set<Required>, key: string)
    returns (k: nat, f: Field, u: Update)
    requires i <= |text| && Scan(text, i, first, seen, key).Accepted?
    ensures k == Find(text, i, '\n') && k < |text| && k - i < Frame.BUFFERSIZE
    ensures f == SplitLine(text[i..k]) && u == LineStep(f, first, seen, key)
    ensures EndsRequest(f) ==> seen == ALL_HEADERS && Scan(text, i, first, seen, key) == Accepted(key, k + 1)
    ensures !EndsRequest(f) ==> u.Continue? && Scan(text, k + 1, false, u.seen, u.key) == Scan(text, i, first, seen, key)
  {
    k := Find(text, i, '\n');
    f := SplitLine(text[i..k]);
    u := LineStep(f, first, seen, key);
  }

  /** The header lines taken in order, stopping at the first that refuses
      the request: the header bookkeeping of the parser, without the
      splitting into lines. */
  function Walk(fields: seq<Field>, first: bool, seen: set<Required>, key: string): Update
  {
    if fields == [] then Continue(seen, key)
    else match LineStep(fields[0], first, seen, key)
      case Fail(why) => Fail(why)
      case Continue(seen', key') => Walk(fields[1..], false, seen', key')
  }

  /** An accepted request is one whose header lines all pass and supply
      every required header; the key answered is the one they leave. */
  lemma {:induction false} ScanWalks(text: string, i: nat, first: bool, seen: set<Required>, key: string)
    requires i <= |text| && Scan(text, i, first, seen, key).Accepted?
    ensures Walk(FieldsFrom(text, i), first, seen, key) == Continue(ALL_HEADERS, Scan(text, i, first, seen, key).key)
    decreases |text| - i
  {
    var k, u := WalksStep(text, i, first, seen, key);
    if k < |text| {
      ScanWalks(text, k + 1, false, u.seen, u.key);
    }
  }

  /** One line of ScanWalks: either it is the empty line, where the walk is
      over, or the line passes and both Scan and the walk go on after it. */
  lemma WalksStep(text: string, i: nat, first: bool, seen: set<Required>, key: string) returns (k: nat, u: Update)
    requires i <= |text| && Scan(text, i, first, seen, key).Accepted?
    ensures k <= |text|
    ensures k == |text| ==> Walk(FieldsFrom(text, i), first, seen, key) == Continue(ALL_HEADERS, Scan(text, i, first, seen, key).key)
    ensures k < |text| ==> i <= k && u.Continue? && Scan(text, k + 1, false, u.seen, u.key) == Scan(text, i, first, seen, key)
    ensures k < |text| ==> Walk(FieldsFrom(text, i), first, seen, key) == Walk(FieldsFrom(text, k + 1), false, u.seen, u.key)
  {
    var f;
    k, f, u := ScanUnfold(text, i, first, seen, key);
    FieldsUnfold(text, i, k, f);
    if EndsRequest(f) {
      k := |text|;
    } else {
      WalkCons(f, FieldsFrom(text, k + 1), first, seen, key);
    }
  }

  /** The walk over a line that passes and the lines after it. */
  lemma WalkCons(f: Field, rest: seq<Field>, first: bool, seen: set<Required>, key: string)
    requires LineStep(f, first, seen, key).Continue?
    ensures var u := LineStep(f, first, seen, key);
      Walk([f] + rest, first, seen, key) == Walk(rest, false, u.seen, u.key)
  {
    assert ([f] + rest)[1..] == rest;
  }

  /** Every header the walk records was supplied by one of the lines. */
  lemma {:induction false} WalkNeedsHeader(fields: seq<Field>, first: bool, seen: set<Required>, key: string, h: Required)
    requires Walk(fields, first, seen, key).Continue? && h in Walk(fields, first, seen, key).seen
    ensures h in seen || exists j :: 0 <= j < |fields| && Kind(fields[j]) == Some(h)
  {
    if fields != [] {
      var u := LineStep(fields[0], first, seen, key);
      WalkNeedsHeader(fields[1..], false, u.seen, u.key, h);
      if h !in u.seen {
        var j :| 0 <= j < |fields[1..]| && Kind(fields[1..][j]) == Some(h);
        assert fields[j + 1] == fields[1..][j];
      } else if h !in seen {
        assert Kind(fields[0]) == Some(h);
      }
    }
  }

  /** A request is accepted only if each of the five required headers is
      among its header lines, with the value the server insists on: leaving
      any one out refuses the handshake. */
  lemma RequiredHeadersPresent(request: string, h: Required)
    requires Negotiate(request).Accepted?
    ensures exists j :: 0 <= j < |HeaderFields(request)| && Kind(HeaderFields(request)[j]) == Some(h)
  {
    ScanWalks(request, 0, true, {}, "");
    WalkNeedsHeader(HeaderFields(request), true, {}, "", h);
  }

  /** A walk that passes met no version other than 13 and no key of a
      length other than 24 after the first line. */
  lemma {:induction false} WalkValidates(fields: seq<Field>, first: bool, seen: set<Required>, key: string, j: nat)
    requires Walk(fields, first, seen, key).Continue?
    requires first ==> 0 < j
    requires j < |fields|
    ensures fields[j].name == VERSION_HEADER ==> fields[j].value == Text(VERSION_13)
    ensures fields[j].name == KEY_HEADER ==> fields[j].value.Text? && |fields[j].value.text| == 24
  {
    if j > 0 {
      var u := LineStep(fields[0], first, seen, key);
      WalkValidates(fields[1..], false, u.seen, u.key, j - 1);
    }
  }

  /** On an accepted request every Sec-WebSocket-Version header says 13 and
      every Sec-WebSocket-Key header is 24 characters long: any other
      value refuses the handshake. */
  lemma AcceptedHeadersValid(request: string, j: nat)
    requires Negotiate(request).Accepted?
    requires 0 < j < |HeaderFields(request)|
    ensures HeaderFields(request)[j].name == VERSION_HEADER ==> HeaderFields(request)[j].value == Text(VERSION_13)
    ensures HeaderFields(request)[j].name == KEY_HEADER ==>
              HeaderFields(request)[j].value.Text? && |HeaderFields(request)[j].value.text| == 24
  {
    ScanWalks(request, 0, true, {}, "");
    WalkValidates(HeaderFields(request), true, {}, "", j);
  }

  /** A request is accepted only if its first line is the request line. */
  lemma AcceptedStartsWithRequestLine(request: string)
    requires Negotiate(request).Accepted?
    ensures |HeaderFields(request)| > 0 && HeaderFields(request)[0].name == REQUEST_LINE
  {
    ScanWalks(request, 0, true, {}, "");
  }

  /** The key of the last Sec-WebSocket-Key line among `fields`, or `key`
      if there is none. */
  function LastKey(fields: seq<Field>, key: string): string
  {
    if fields == [] then key
    else LastKey(fields[1..], if fields[0].name == KEY_HEADER && fields[0].value.Text?
                              then fields[0].value.text else key)
  }

  /** The walk keeps the key of the last key line, 24 characters long once seen. */
  lemma {:induction false} WalkKey(fields: seq<Field>, first: bool, seen: set<Required>, key: string)
    requires Walk(fields, first, seen, key).Continue?
    requires Key in seen ==> |key| == 24
    requires first && fields != [] ==> fields[0].name != KEY_HEADER
    ensures var u := Walk(fields, first, seen, key);
      && (Key in u.seen ==> |u.key| == 24)
      && u.key == LastKey(fields, key)
  {
    if fields != [] {
      var u := LineStep(fields[0], first, seen, key);
      WalkKey(fields[1..], false, u.seen, u.key);
    }
  }

  /** Scan accepts a prefix of the text, and never an empty one. */
  lemma {:induction false} ScanUsed(text: string, i: nat, first: bool, seen: set<Required>, key: string)
    requires i <= |text| && Scan(text, i, first, seen, key).Accepted?
    ensures i < Scan(text, i, first, seen, key).used <= |text|
    decreases |text| - i
  {
    var k, f, u := ScanUnfold(text, i, first, seen, key);
    if !EndsRequest(f) {
      ScanUsed(text, k + 1, false, u.seen, u.key);
    }
  }

  /** On an accepted request, the key answered is the value of the last
      Sec-WebSocket-Key header and is 24 characters long. */
  lemma AcceptedKey(request: string)
    requires Negotiate(request).Accepted?
    ensures |Negotiate(request).key| == 24
    ensures Negotiate(request).key == LastKey(HeaderFields(request), "")
  {
    ScanWalks(request, 0, true, {}, "");
    WalkKey(HeaderFields(request), true, {}, "");
  }

  /** The bytes an accepted request takes are a non-empty prefix of it. */
  lemma AcceptedUsed(request: string)
    requires Negotiate(request).Accepted?
    ensures 0 < Negotiate(request).used <= |request|
  {
    ScanUsed(request, 0, true, {}, "");
  }

  // ---------------------------------------------------------------------
  // The other direction: requests that are accepted
  // ---------------------------------------------------------------------

  /** A request as a client writes it: every line ended by CRLF, then the
      empty line. */
  function Request(lines: seq<string>): (r: string)
    ensures |r| >= 2
  {
    if lines == [] then "\r\n" else lines[0] + "\r\n" + Request(lines[1..])
  }

  /** What the parser makes of each line of `Request(lines)`: the line
      with its CR, split at its first colon. */
  function Fields(lines: seq<string>): (r: seq<Field>)
    ensures |r| == |lines|
  {
    seq(|lines|, i requires 0 <= i < |lines| => SplitLine(lines[i] + "\r"))
  }

  /** A line the parser reads as one line that is not the empty line: no
      LF inside, and short enough, with its CR, for the line buffer. */
  predicate OneLine(line: string)
  {
    '\n' !in line && |line| + 1 < Frame.BUFFERSIZE && !EndsRequest(SplitLine(line + "\r"))
  }

  /** The first LF from `i` on is the one at `j` when none comes before it. */
  lemma {:induction false} FindAt(text: string, i: nat, j: nat)
    requires i <= j < |text| && text[j] == '\n'
    requires forall m :: i <= m < j ==> text[m] != '\n'
    ensures Find(text, i, '\n') == j
    decreases j - i
  {
    if i < j {
      FindAt(text, i + 1, j);
    }
  }

  /** A line written with its CRLF at `i`: the parser finds its LF and
      reads the line with its CR. */
  lemma LineAt(text: string, i: nat, line: string)
    requires '\n' !in line
    requires i + |line| + 2 <= |text| && text[i..i + |line| + 2] == line + "\r\n"
    ensures Find(text, i, '\n') == i + |line| + 1
    ensures text[i..i + |line| + 1] == line + "\r"
  {
    var n := |line| + 1;
    forall m | i <= m < i + n
      ensures text[m] != '\n'
    {
      assert text[m] == (line + "\r\n")[m - i];
    }
    assert text[i + n] == (line + "\r\n")[n];
    FindAt(text, i, i + n);
    assert text[i..i + n] == text[i..i + n + 1][..n];
  }

  /** The first line of a written request and the lines after it. */
  lemma RequestSplit(text: string, i: nat, j: nat, lines: seq<string>)
    requires lines != [] && j == i + |lines[0]| + 2
    requires i + |Request(lines)| <= |text| && text[i..i + |Request(lines)|] == Request(lines)
    ensures j + |Request(lines[1..])| == i + |Request(lines)|
    ensures text[i..j] == lines[0] + "\r\n"
    ensures text[j..j + |Request(lines[1..])|] == Request(lines[1..])
  {
    var n := |lines[0]| + 2;
    var r := Request(lines);
    assert r == (lines[0] + "\r\n") + Request(lines[1..]);
    assert text[i..i + n] == r[..n];
    assert text[i + n..i + |r|] == r[n..];
  }

  /** The walk over the fields of written lines, one line at a time. */
  lemma WalkFields(lines: seq<string>, first: bool, seen: set<Required>, key: string)
    requires lines != [] && Walk(Fields(lines), first, seen, key).Continue?
    ensures var u := LineStep(SplitLine(lines[0] + "\r"), first, seen, key);
      u.Continue? && Walk(Fields(lines[1..]), false, u.seen, u.key) == Walk(Fields(lines), first, seen, key)
  {
    assert Fields(lines)[1..] == Fields(lines[1..]);
  }

  /** The text from `i` on holds `lines`, each followed by CRLF and each
      passing, then the empty line, by which time every required header
      has been seen and the key is `key'`. */
  predicate RequestAt(text: string, i: nat, lines: seq<string>, first: bool,
                      seen: set<Required>, key: string, key': string)
    decreases |lines|
  {
    if lines == [] then
      i + 2 <= |text| && text[i..i + 2] == "\r\n" && seen == ALL_HEADERS && key == key'
    else
      var u := LineStep(SplitLine(lines[0] + "\r"), first, seen, key);
      && OneLine(lines[0]) && i + |lines[0]| + 2 <= |text| && text[i..i + |lines[0]| + 2] == lines[0] + "\r\n"
      && u.Continue? && RequestAt(text, i + |lines[0]| + 2, lines[1..], false, u.seen, u.key, key')
  }

  /** A request written line by line is accepted whole when its lines, in
      order, pass the checks and supply all five required headers: the
      converse of ScanWalks. */
  lemma {:induction false} ScanRequest(text: string, i: nat, lines: seq<string>, first: bool,
                                       seen: set<Required>, key: string, key': string)
    requires RequestAt(text, i, lines, first, seen, key, key')
    ensures Scan(text, i, first, seen, key) == Accepted(key', i + |Request(lines)|)
    decreases |lines|, 1
  {
    if lines == [] {
      ScanEmptyLine(text, i, first, seen, key);
    } else {
      ScanRequestLine(text, i, lines, first, seen, key, key');
    }
  }

  /** ScanRequest for a request with at least one line before the empty one. */
  lemma {:induction false} ScanRequestLine(text: string, i: nat, lines: seq<string>, first: bool,
                                           seen: set<Required>, key: string, key': string)
    requires lines != [] && RequestAt(text, i, lines, first, seen, key, key')
    ensures Scan(text, i, first, seen, key) == Accepted(key', i + |Request(lines)|)
    decreases |lines|, 0
  {
    var u := LineStep(SplitLine(lines[0] + "\r"), first, seen, key);
    ScanRequest(text, i + |lines[0]| + 2, lines[1..], false, u.seen, u.key, key');
    AcceptedAfterLine(text, i, lines, first, seen, key, key', u);
  }

  /** The verdict on the request from its first line, given the verdict
      after that line. */
  lemma AcceptedAfterLine(text: string, i: nat, lines: seq<string>, first: bool,
                          seen: set<Required>, key: string, key': string, u: Update)
    requires lines != [] && OneLine(lines[0]) && i + |lines[0]| + 2 <= |text|
    requires text[i..i + |lines[0]| + 2] == lines[0] + "\r\n"
    requires u == LineStep(SplitLine(lines[0] + "\r"), first, seen, key) && u.Continue?
    requires Scan(text, i + |lines[0]| + 2, false, u.seen, u.key)
               == Accepted(key', i + |lines[0]| + 2 + |Request(lines[1..])|)
    ensures Scan(text, i, first, seen, key) == Accepted(key', i + |Request(lines)|)
  {
    ScanLine(text, i, i + |lines[0]| + 1, lines[0], first, seen, key, u);
    assert |Request(lines)| == |lines[0]| + 2 + |Request(lines[1..])|;
  }

  /** The empty line written at `i` ends the request there. */
  lemma ScanEmptyLine(text: string, i: nat, first: bool, seen: set<Required>, key: string)
    requires i + 2 <= |text| && text[i..i + 2] == "\r\n"
    ensures Scan(text, i, first, seen, key) ==
              if seen == ALL_HEADERS then Accepted(key, i + 2) else Rejected(Incomplete(seen))
  {
    LineAt(text, i, "");
    assert SplitLine("\r") == Field("", Absent);
    ScanEnds(text, i, i + 1, first, seen, key);
  }

  /** The lines, in order, each fit and pass the checks, and by the end
      every required header has been seen and the key is `key'`. */
  predicate Passes(lines: seq<string>, first: bool, seen: set<Required>, key: string, key': string)
    decreases |lines|
  {
    if lines == [] then
      seen == ALL_HEADERS && key == key'
    else
      var u := LineStep(SplitLine(lines[0] + "\r"), first, seen, key);
      OneLine(lines[0]) && u.Continue? && Passes(lines[1..], false, u.seen, u.key, key')
  }

  /** Lines that each fit and whose fields the walk accepts pass. */
  lemma {:induction false} WalkPasses(lines: seq<string>, first: bool, seen: set<Required>, key: string, key': string)
    requires forall j :: 0 <= j < |lines| ==> OneLine(lines[j])
    requires Walk(Fields(lines), first, seen, key) == Continue(ALL_HEADERS, key')
    ensures Passes(lines, first, seen, key, key')
    decreases |lines|
  {
    if lines == [] {
      assert Fields(lines) == [];
    } else {
      var u := LineStep(SplitLine(lines[0] + "\r"), first, seen, key);
      LinesTail(lines, first, seen, key);
      WalkPasses(lines[1..], false, u.seen, u.key, key');
    }
  }

  /** A request written as `Request(lines)` at `i`, whose lines pass, is
      laid out as RequestAt says. */
  lemma {:induction false} WrittenRequest(text: string, i: nat, lines: seq<string>, first: bool,
                                          seen: set<Required>, key: string, key': string)
    requires i + |Request(lines)| <= |text| && text[i..i + |Request(lines)|] == Request(lines)
    requires Passes(lines, first, seen, key, key')
    ensures RequestAt(text, i, lines, first, seen, key, key')
    decreases |lines|
  {
    if lines != [] {
      var u := LineStep(SplitLine(lines[0] + "\r"), first, seen, key);
      var j := i + |lines[0]| + 2;
      RequestSplit(text, i, j, lines);
      WrittenRequest(text, j, lines[1..], false, u.seen, u.key, key');
      RequestAtLine(text, i, lines, first, seen, key, key', u);
    }
  }

  /** RequestAt from its first line and what follows it. */
  lemma RequestAtLine(text: string, i: nat, lines: seq<string>, first: bool,
                      seen: set<Required>, key: string, key': string, u: Update)
    requires lines != [] && OneLine(lines[0]) && i + |lines[0]| + 2 <= |text|
    requires text[i..i + |lines[0]| + 2] == lines[0] + "\r\n"
    requires u == LineStep(SplitLine(lines[0] + "\r"), first, seen, key) && u.Continue?
    requires RequestAt(text, i + |lines[0]| + 2, lines[1..], false, u.seen, u.key, key')
    ensures RequestAt(text, i, lines, first, seen, key, key')
  {
  }

  /** The walk over written lines goes on, after a first line that passes,
      with the lines after it. */
  lemma LinesTail(lines: seq<string>, first: bool, seen: set<Required>, key: string)
    requires lines != [] && forall m :: 0 <= m < |lines| ==> OneLine(lines[m])
    requires Walk(Fields(lines), first, seen, key).Continue?
    ensures LineStep(SplitLine(lines[0] + "\r"), first, seen, key).Continue?
    ensures forall m :: 0 <= m < |lines[1..]| ==> OneLine(lines[1..][m])
    ensures var u := LineStep(SplitLine(lines[0] + "\r"), first, seen, key);
      Walk(Fields(lines[1..]), false, u.seen, u.key) == Walk(Fields(lines), first, seen, key)
  {
    WalkFields(lines, first, seen, key);
    assert forall m :: 0 <= m < |lines[1..]| ==> lines[1..][m] == lines[m + 1];
  }

  /** Scan over a written line that passes, its LF at `k`: the verdict is
      the one on the text after it. */
  lemma ScanLine(text: string, i: nat, k: nat, line: string, first: bool, seen: set<Required>, key: string, u: Update)
    requires k == i + |line| + 1 && k < |text| && text[i..k + 1] == line + "\r\n" && OneLine(line)
    requires u == LineStep(SplitLine(line + "\r"), first, seen, key) && u.Continue?
    ensures Scan(text, i, first, seen, key) == Scan(text, k + 1, false, u.seen, u.key)
  {
    LineAt(text, i, line);
    ScanPasses(text, i, k, line + "\r", first, seen, key, u);
  }

  /** ScanContinues for a line known by its text `raw`. */
  lemma ScanPasses(text: string, i: nat, k: nat, raw: string, first: bool, seen: set<Required>, key: string, u: Update)
    requires i <= k < |text| && k == Find(text, i, '\n') && k - i < Frame.BUFFERSIZE && text[i..k] == raw
    requires !EndsRequest(SplitLine(raw)) && u == LineStep(SplitLine(raw), first, seen, key) && u.Continue?
    ensures Scan(text, i, first, seen, key) == Scan(text, k + 1, false, u.seen, u.key)
  {
    ScanContinues(text, i, k, first, seen, key, u);
  }

  /** Every request whose lines each fit the buffer, start with the request
      line and go on with header lines that pass the version and key checks
      and supply the five required headers, is accepted whole and answered
      with the key of its last Sec-WebSocket-Key line. */
  lemma RequestAccepted(lines: seq<string>, key: string)
    requires forall j :: 0 <= j < |lines| ==> OneLine(lines[j])
    requires Walk(Fields(lines), true, {}, "") == Continue(ALL_HEADERS, key)
    ensures Negotiate(Request(lines)) == Accepted(key, |Request(lines)|)
    ensures key == LastKey(Fields(lines), "") && |key| == 24
  {
    var r := Request(lines);
    assert r[0..|r|] == r;
    WalkPasses(lines, true, {}, "", key);
    WrittenRequest(r, 0, lines, true, {}, "", key);
    ScanRequest(r, 0, lines, true, {}, "", key);
    WalkKey(Fields(lines), true, {}, "");
  }

  /** A header line as a client writes it. */
  function HeaderLine(name: string, value: string): string
  {
    name + ": " + value
  }

  lemma {:induction false} CStrPlain(s: string)
    requires '\0' !in s
    ensures CStr(s) == s
  {
    if s != [] {
      CStrPlain(s[1..]);
    }
  }

  lemma {:induction false} IndexOfAt(s: string, c: char, k: nat)
    requires k <= |s| && (k < |s| ==> s[k] == c) && c !in s[..k]
    ensures IndexOf(s, c) == k
  {
    if k > 0 {
      IndexOfAt(s[1..], c, k - 1);
    }
  }

  /** A header line, written with a name that has no colon and neither
      part containing NUL or LF, is read back as that name and value, and
      as one line when it fits the buffer. */
  lemma SplitHeader(name: string, value: string)
    requires name != [] && ':' !in name && '\0' !in name && '\0' !in value
    requires '\n' !in name && '\n' !in value && |name| + |value| + 3 < Frame.BUFFERSIZE
    ensures SplitLine(HeaderLine(name, value) + "\r") == Field(name, Text(value))
    ensures OneLine(HeaderLine(name, value))
  {
    var line := HeaderLine(name, value);
    assert (line + "\r")[..|line|] == line;
    assert line[|name|] == ':';
    IndexOfAt(line, ':', |name|);
    assert line[..|name|] == name && line[|name| + 2..] == value;
    CStrPlain(name);
    CStrPlain(value);
    assert '\n' !in line by {
      forall m | 0 <= m < |line|
        ensures line[m] != '\n'
      {
        if m < |name| {
          assert line[m] == name[m];
        } else if m >= |name| + 2 {
          assert line[m] == value[m - |name| - 2];
        }
      }
    }
  }

  /** A line without a colon is read back whole, with no value. */
  lemma SplitPlain(line: string)
    requires line != [] && ':' !in line && '\0' !in line && '\n' !in line && |line| + 1 < Frame.BUFFERSIZE
    ensures SplitLine(line + "\r") == Field(line, Absent)
    ensures OneLine(line)
  {
    assert (line + "\r")[..|line|] == line;
    IndexOfAt(line, ':', |line|);
    CStrPlain(line);
  }

  /** A name the parser reads whole: not empty, and no colon, NUL or LF. */
  predicate PlainName(s: string)
  {
    s != [] && ':' !in s && '\0' !in s && '\n' !in s
  }

  /** The fixed names and values the upgrade request is written with
      contain no colon, NUL or LF; each pair is checked on its own, which
      keeps every proof about literal strings small. */
  lemma PlainConstants()
    ensures PlainName(REQUEST_LINE) && PlainName(HOST_HEADER) && PlainName(UPGRADE)
    ensures PlainName(CONNECTION_HEADER) && PlainName(KEY_HEADER) && PlainName(VERSION_HEADER)
    ensures PlainName(WEBSOCKET) && PlainName(VERSION_13)
  {
    PlainRequestLine();
    PlainUpgrade();
    PlainConnection();
    PlainVersion();
  }

  lemma PlainRequestLine()
    ensures PlainName(REQUEST_LINE) && PlainName(HOST_HEADER)
  {
  }

  lemma PlainUpgrade()
    ensures PlainName(UPGRADE) && PlainName(WEBSOCKET)
  {
  }

  lemma PlainConnection()
    ensures PlainName(CONNECTION_HEADER) && PlainName(KEY_HEADER)
  {
  }

  lemma PlainVersion()
    ensures PlainName(VERSION_HEADER) && PlainName(VERSION_13)
  {
  }

  /** A header line the parser reads back as written: a plain name, and a
      value without NUL or LF, short enough for the line buffer. */
  predicate PlainHeader(h: (string, string))
  {
    PlainName(h.0) && '\0' !in h.1 && '\n' !in h.1 && |h.0| + |h.1| + 3 < Frame.BUFFERSIZE
  }

  /** Header lines written from (name, value) pairs. */
  function HeaderLines(headers: seq<(string, string)>): (r: seq<string>)
    ensures |r| == |headers|
  {
    seq(|headers|, i requires 0 <= i < |headers| => HeaderLine(headers[i].0, headers[i].1))
  }

  /** The fields the pairs stand for. */
  function Written(headers: seq<(string, string)>): (r: seq<Field>)
    ensures |r| == |headers|
  {
    seq(|headers|, i requires 0 <= i < |headers| => Field(headers[i].0, Text(headers[i].1)))
  }

  /** A first line without a colon and plain header lines are read back
      as written, each as one line. */
  lemma WrittenSplits(start: string, headers: seq<(string, string)>)
    requires PlainName(start) && |start| + 1 < Frame.BUFFERSIZE
    requires forall i :: 0 <= i < |headers| ==> PlainHeader(headers[i])
    ensures Fields([start] + HeaderLines(headers)) == [Field(start, Absent)] + Written(headers)
    ensures forall j :: 0 <= j < |headers| + 1 ==> OneLine(([start] + HeaderLines(headers))[j])
  {
    var lines, fs := [start] + HeaderLines(headers), [Field(start, Absent)] + Written(headers);
    forall j | 0 <= j < |lines|
      ensures OneLine(lines[j]) && Fields(lines)[j] == fs[j]
    {
      WrittenLine(start, headers, j);
    }
  }

  /** One line of WrittenSplits. */
  lemma WrittenLine(start: string, headers: seq<(string, string)>, j: nat)
    requires PlainName(start) && |start| + 1 < Frame.BUFFERSIZE
    requires forall i :: 0 <= i < |headers| ==> PlainHeader(headers[i])
    requires j <= |headers|
    ensures OneLine(([start] + HeaderLines(headers))[j])
    ensures SplitLine(([start] + HeaderLines(headers))[j] + "\r") == ([Field(start, Absent)] + Written(headers))[j]
  {
    if j == 0 {
      SplitPlain(start);
    } else {
      var h := headers[j - 1];
      assert ([start] + HeaderLines(headers))[j] == HeaderLine(h.0, h.1);
      assert ([Field(start, Absent)] + Written(headers))[j] == Field(h.0, Text(h.1));
      SplitHeader(h.0, h.1);
    }
  }

  /** A request made of the request line, plain header lines and the empty
      line is accepted whole, with the key the header lines leave, when
      those lines pass and supply the five required headers. */
  lemma HeadersAccepted(headers: seq<(string, string)>, key: string)
    requires forall i :: 0 <= i < |headers| ==> PlainHeader(headers[i])
    requires Walk([Field(REQUEST_LINE, Absent)] + Written(headers), true, {}, "") == Continue(ALL_HEADERS, key)
    ensures Negotiate(Request([REQUEST_LINE] + HeaderLines(headers)))
         == Accepted(key, |Request([REQUEST_LINE] + HeaderLines(headers))|)
  {
    PlainConstants();
    WrittenSplits(REQUEST_LINE, headers);
    RequestAccepted([REQUEST_LINE] + HeaderLines(headers), key);
  }

  /** The header lines of the request of section 1.3 of RFC 6455. */
  function UpgradeHeaders(host: string, key: string): seq<(string, string)>
  {
    [(HOST_HEADER, host), (UPGRADE, WEBSOCKET), (CONNECTION_HEADER, UPGRADE), (KEY_HEADER, key), (VERSION_HEADER, VERSION_13)]
  }

  /** The request of section 1.3 of RFC 6455, for any host and any key. */
  function UpgradeRequest(host: string, key: string): string
  {
    Request([REQUEST_LINE] + HeaderLines(UpgradeHeaders(host, key)))
  }

  /** The walk from the `k`-th field on, over a field that passes. */
  lemma WalkDrop(fields: seq<Field>, k: nat, first: bool, seen: set<Required>, key: string)
    requires k < |fields| && LineStep(fields[k], first, seen, key).Continue?
    ensures var u := LineStep(fields[k], first, seen, key);
      Walk(fields[k..], first, seen, key) == Walk(fields[k + 1..], false, u.seen, u.key)
  {
    assert fields[k..][1..] == fields[k + 1..];
  }

  /** The upgrade request's lines pass and supply the five headers. */
  lemma UpgradeWalk(host: string, key: string)
    requires |key| == 24
    ensures Walk([Field(REQUEST_LINE, Absent)] + Written(UpgradeHeaders(host, key)), true, {}, "") == Continue(ALL_HEADERS, key)
  {
    var fs := [Field(REQUEST_LINE, Absent)] + Written(UpgradeHeaders(host, key));
    assert fs == [Field(REQUEST_LINE, Absent), Field(HOST_HEADER, Text(host)), Field(UPGRADE, Text(WEBSOCKET)),
                  Field(CONNECTION_HEADER, Text(UPGRADE)), Field(KEY_HEADER, Text(key)), Field(VERSION_HEADER, Text(VERSION_13))];
    UpgradeSteps(host, key);
    WalkDrop(fs, 0, true, {}, "");
    WalkDrop(fs, 1, false, {}, "");
    WalkDrop(fs, 2, false, {Host}, "");
    WalkDrop(fs, 3, false, {Host, Upgrade}, "");
    WalkDrop(fs, 4, false, {Host, Upgrade, Connection}, "");
    WalkDrop(fs, 5, false, {Host, Upgrade, Connection, Key}, key);
    assert fs[0..] == fs && fs[6..] == [];
  }

  /** What each line of the upgrade request adds to the headers seen. */
  lemma UpgradeSteps(host: string, key: string)
    requires |key| == 24
    ensures LineStep(Field(REQUEST_LINE, Absent), true, {}, "") == Continue({}, "")
    ensures LineStep(Field(HOST_HEADER, Text(host)), false, {}, "") == Continue({Host}, "")
    ensures LineStep(Field(UPGRADE, Text(WEBSOCKET)), false, {Host}, "") == Continue({Host, Upgrade}, "")
    ensures LineStep(Field(CONNECTION_HEADER, Text(UPGRADE)), false, {Host, Upgrade}, "")
         == Continue({Host, Upgrade, Connection}, "")
    ensures LineStep(Field(KEY_HEADER, Text(key)), false, {Host, Upgrade, Connection}, "")
         == Continue({Host, Upgrade, Connection, Key}, key)
    ensures LineStep(Field(VERSION_HEADER, Text(VERSION_13)), false, {Host, Upgrade, Connection, Key}, key)
         == Continue(ALL_HEADERS, key)
  {
  }

  /** The standard upgrade request is accepted whole and answered with its
      key, whatever the host and the 24-character key, as long as the Host
      line fits the buffer and neither contains LF or NUL. */
  lemma UpgradeRequestAccepted(host: string, key: string)
    requires |key| == 24 && |host| + 7 < Frame.BUFFERSIZE
    requires '\n' !in host && '\0' !in host && '\n' !in key && '\0' !in key
    ensures Negotiate(UpgradeRequest(host, key)) == Accepted(key, |UpgradeRequest(host, key)|)
  {
    var hs := UpgradeHeaders(host, key);
    PlainConstants();
    assert forall i :: 0 <= i < |hs| ==> PlainHeader(hs[i]);
    UpgradeWalk(host, key);
    HeadersAccepted(hs, key);
  }

  /** The sample handshake of section 1.3 of RFC 6455 is accepted with its key. */
  lemma SampleRequestAccepted()
    ensures Negotiate(UpgradeRequest("server.example.com", "dGhlIHNhbXBsZSBub25jZQ=="))
         == Accepted("dGhlIHNhbXBsZSBub25jZQ==", |UpgradeRequest("server.example.com", "dGhlIHNhbXBsZSBub25jZQ==")|)
  {
    UpgradeRequestAccepted("server.example.com", "dGhlIHNhbXBsZSBub25jZQ==");
  }

  /** The accept token of section 4.2.2 of RFC 6455: the Base64 encoding of
      the SHA-1 digest of the key followed by the GUID. Both functions are
      the external `sha1sum` and `base64` programs, whose output the server
      insists is a 20-byte digest and 28 characters (src/websocket.c:813-841). */
  function AcceptToken(key: string, sha1: seq<byte> -> seq<byte>, base64: seq<byte> -> seq<byte>): (t: seq<byte>)
    requires forall d :: |base64(d)| == 28
    ensures |t| == 28
  {
    base64(sha1(AsBytes(key) + AsBytes(GUID)))
  }

  /** The fixed text of the 101 response around the accept token. */
  const RESPONSE_HEAD: seq<byte> := AsBytes("HTTP/1.1 101 Switching Protocols\r\nUpgrade: websocket\r\nConnection: Upgrade\r\nSec-WebSocket-Accept: ")
  const RESPONSE_TAIL: seq<byte> := AsBytes("\r\n\r\n")

  /** The fixed 101 response (src/websocket.c:843-848). */
  function Response(token: seq<byte>): (r: seq<byte>)
    ensures |r| == 101 + |token|
  {
    RESPONSE_HEAD + token + RESPONSE_TAIL
  }

  /** The response always fits the buffer, so the `len == BUFFERSIZE`
      check of src/websocket.c:850 never refuses a handshake; the token
      sits after the 97 fixed bytes of the header prefix. */
  lemma ResponseFits(token: seq<byte>)
    requires |token| == 28
    ensures |Response(token)| < Frame.BUFFERSIZE
    ensures Response(token)[97..125] == token
  {
  }

  /** The end of the line starting at `i`, walked one character at a
      time: the LF, the end of the text, or the end of the line buffer,
      whichever comes first. */
  method LineFrom(text: string, i: nat) returns (p: nat)
    requires i <= |text|
    ensures i <= p <= |text| && p - i <= Frame.BUFFERSIZE
    ensures p == |text| || text[p] == '\n' || p - i == Frame.BUFFERSIZE
    ensures forall j :: i <= j < p ==> text[j] != '\n'
  {
    p := i;
    while p < |text| && text[p] != '\n' && p - i < Frame.BUFFERSIZE
      invariant i <= p <= |text| && p - i <= Frame.BUFFERSIZE
      invariant forall j :: i <= j < p ==> text[j] != '\n'
    {
      p := p + 1;
    }
  }

  /** Where the first LF after `i` is, given how far the walk got. */
  lemma LineEnd(text: string, i: nat, p: nat)
    requires i <= p <= |text|
    requires forall j :: i <= j < p ==> text[j] != '\n'
    requires p == |text| || text[p] == '\n' || p - i == Frame.BUFFERSIZE
    ensures Find(text, i, '\n') >= p
    ensures p < |text| && text[p] == '\n' ==> Find(text, i, '\n') == p
  {
    var k := Find(text, i, '\n');
    if p < |text| && text[p] == '\n' && p < k {
      FindFirst(text, i, '\n', p);
    }
  }

  /** Scan on a line whose LF is beyond the line buffer. */
  lemma ScanTooLong(text: string, i: nat, first: bool, seen: set<Required>, key: string)
    requires i <= |text| && Find(text, i, '\n') - i >= Frame.BUFFERSIZE
    ensures Scan(text, i, first, seen, key) == Rejected(LineTooLong)
  {
  }

  /** Scan on a short rest of the text without LF. */
  lemma ScanEndOfStream(text: string, i: nat, first: bool, seen: set<Required>, key: string)
    requires i <= |text| && Find(text, i, '\n') == |text| && |text| - i < Frame.BUFFERSIZE
    ensures Scan(text, i, first, seen, key) == Rejected(EndOfStream)
  {
  }

  /** Scan on a line that fits the buffer and is the empty line. */
  lemma ScanEnds(text: string, i: nat, k: nat, first: bool, seen: set<Required>, key: string)
    requires i <= k < |text| && k == Find(text, i, '\n') && k - i < Frame.BUFFERSIZE
    requires EndsRequest(SplitLine(text[i..k]))
    ensures Scan(text, i, first, seen, key) ==
              if seen == ALL_HEADERS then Accepted(key, k + 1) else Rejected(Incomplete(seen))
  {
  }

  /** Scan on a line that fits the buffer and refuses the request. */
  lemma ScanFails(text: string, i: nat, k: nat, first: bool, seen: set<Required>, key: string, u: Update)
    requires i <= k < |text| && k == Find(text, i, '\n') && k - i < Frame.BUFFERSIZE
    requires !EndsRequest(SplitLine(text[i..k])) && u == LineStep(SplitLine(text[i..k]), first, seen, key) && u.Fail?
    ensures Scan(text, i, first, seen, key) == Rejected(u.reason)
  {
  }

  /** Scan on a line that fits the buffer and passes: the verdict is the
      one on the rest of the text. */
  lemma ScanContinues(text: string, i: nat, k: nat, first: bool, seen: set<Required>, key: string, u: Update)
    requires i <= k < |text| && k == Find(text, i, '\n') && k - i < Frame.BUFFERSIZE
    requires !EndsRequest(SplitLine(text[i..k])) && u == LineStep(SplitLine(text[i..k]), first, seen, key) && u.Continue?
    ensures Scan(text, i, first, seen, key) == Scan(text, k + 1, false, u.seen, u.key)
  {
  }

  /** One line of the parser: walk to its end and decide. Either the
      verdict on the text from `i` is known (`done`), or it is the verdict
      on the text after the line, with the state the line leaves. */
  method ReadLine(text: string, i: nat, first: bool, seen: set<Required>, key: string)
    returns (done: bool, v: Verdict, seen': set<Required>, key': string, next: nat)
    requires i <= |text|
    ensures done ==> v == Scan(text, i, first, seen, key)
    ensures !done ==> i < next <= |text| && Scan(text, next, false, seen', key') == Scan(text, i, first, seen, key)
  {
    var p := LineFrom(text, i);
    LineEnd(text, i, p);
    seen', key', next := seen, key, p + 1;
    if p - i >= Frame.BUFFERSIZE {
      ScanTooLong(text, i, first, seen, key);
      return true, Rejected(LineTooLong), seen', key', next;
    }
    if p == |text| {
      ScanEndOfStream(text, i, first, seen, key);
      return true, Rejected(EndOfStream), seen', key', next;
    }
    var f := SplitLine(text[i..p]);
    if EndsRequest(f) {
      ScanEnds(text, i, p, first, seen, key);
      v := if seen == ALL_HEADERS then Accepted(key, p + 1) else Rejected(Incomplete(seen));
      return true, v, seen', key', next;
    }
    var u := LineStep(f, first, seen, key);
    if u.Fail? {
      ScanFails(text, i, p, first, seen, key, u);
      return true, Rejected(u.reason), seen', key', next;
    }
    ScanContinues(text, i, p, first, seen, key, u);
    done, v, seen', key' := false, Rejected(EndOfStream), u.seen, u.key;
    assert Scan(text, next, false, seen', key') == Scan(text, i, first, seen, key);
  }

  /** The request parser as the server runs it: it walks the input one
      character at a time to the end of each line and records the required
      headers until the empty line. */
  method ReadRequest(text: string) returns (v: Verdict)
    ensures v == Negotiate(text)
  {
    var i := 0;
    var first := true;
    var seen: set<Required> := {};
    var key := "";
    while true
      invariant 0 <= i <= |text|
      invariant Scan(text, i, first, seen, key) == Negotiate(text)
      decreases |text| - i
    {
      var done, next;
      done, v, seen, key, next := ReadLine(text, i, first, seen, key);
      if done {
        return;
      }
      first, i := false, next;
    }
  }
}
